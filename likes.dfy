/**
 * The like bookkeeping of the games table: `recordLike` accepts one like per
 * device and game, `getLikes` lists the games a device has liked.
 *
 * The table is a sequence of rows in table order; `liked_devices` is held as
 * the list its JSON text encodes. An absent request field is the empty
 * string.
 */
module Likes {

  datatype GameRow = GameRow(gameId: string, likes: int, likedDevices: seq<string>)

  datatype LikeReply = LikeMissingParams | GameNotFound | AlreadyLiked | LikeRecorded(likes: int)

  /** The index of the first row with this id (what `values[0]` of the SELECT is), or `|rows|`. */
  function FindRow(rows: seq<GameRow>, gameId: string): (k: nat)
    ensures k <= |rows|
    ensures k < |rows| ==> rows[k].gameId == gameId
    ensures forall j :: 0 <= j < k ==> rows[j].gameId != gameId
  {
    if rows == [] then 0
    else if rows[0].gameId == gameId then 0
    else
      var k := FindRow(rows[1..], gameId);
      assert forall j :: 1 <= j < |rows| ==> rows[j] == rows[1..][j - 1];
      k + 1
  }

  /** The answer `recordLike` gives. */
  function LikeReplyOf(rows: seq<GameRow>, gameId: string, deviceId: string): LikeReply
  {
    if gameId == "" || deviceId == "" then LikeMissingParams
    else
      var k := FindRow(rows, gameId);
      if k == |rows| then GameNotFound
      else if deviceId in rows[k].likedDevices then AlreadyLiked
      else LikeRecorded(rows[k].likes + 1)
  }

  /**
   * The table after `recordLike`. The UPDATE sets every row with the id to
   * the first row's count plus one and the first row's devices plus this one.
   */
  function RowsAfterLike(rows: seq<GameRow>, gameId: string, deviceId: string): (r: seq<GameRow>)
    ensures |r| == |rows|
  {
    match LikeReplyOf(rows, gameId, deviceId)
    case LikeRecorded(n) =>
      var first := rows[FindRow(rows, gameId)];
      SetWhere(rows, gameId, GameRow(gameId, n, first.likedDevices + [deviceId]))
    case _ => rows
  }

  /** `UPDATE games SET ... WHERE game_id = id`. */
  function SetWhere(rows: seq<GameRow>, gameId: string, row: GameRow): (r: seq<GameRow>)
    ensures |r| == |rows|
    ensures forall k :: 0 <= k < |rows| ==> r[k] == if rows[k].gameId == gameId then row else rows[k]
  {
    if rows == [] then []
    else
      var last := rows[|rows| - 1];
      SetWhere(rows[..|rows| - 1], gameId, row) + [if last.gameId == gameId then row else last]
  }

  /** The games table with its persistent rows. */
  class GamesTable {
    var rows: seq<GameRow>

    constructor (initial: seq<GameRow>)
      ensures rows == initial
    {
      rows := initial;
    }

    /** `recordLike(gameId, deviceId)`. */
    method RecordLike(gameId: string, deviceId: string) returns (reply: LikeReply)
      modifies this
      ensures reply == LikeReplyOf(old(rows), gameId, deviceId)
      ensures rows == RowsAfterLike(old(rows), gameId, deviceId)
      ensures UniqueIds(old(rows)) ==> UniqueIds(rows)
    {
      if gameId == "" || deviceId == "" {
        return LikeMissingParams;
      }
      var k := FindRow(rows, gameId);
      if k == |rows| {
        return GameNotFound;
      }
      var current := rows[k];
      if deviceId in current.likedDevices {
        return AlreadyLiked;
      }
      LikeKeepsIds(rows, gameId, deviceId);
      rows := SetWhere(rows, gameId, GameRow(gameId, current.likes + 1, current.likedDevices + [deviceId]));
      reply := LikeRecorded(current.likes + 1);
    }
  }

  /**
   * A like is recorded exactly when both fields are present, the game
   * exists and this device has not liked it yet; only then does the table
   * change, and the count of the game goes up by exactly one and the device
   * is appended.
   */
  lemma {:induction false} LikeOutcome(rows: seq<GameRow>, gameId: string, deviceId: string)
    ensures var k := FindRow(rows, gameId);
      LikeReplyOf(rows, gameId, deviceId).LikeRecorded? <==>
        gameId != "" && deviceId != "" && k < |rows| && deviceId !in rows[k].likedDevices
    ensures !LikeReplyOf(rows, gameId, deviceId).LikeRecorded? ==> RowsAfterLike(rows, gameId, deviceId) == rows
    ensures LikeReplyOf(rows, gameId, deviceId).LikeRecorded? ==>
      var k := FindRow(rows, gameId);
      var after := RowsAfterLike(rows, gameId, deviceId);
      after[k].likes == rows[k].likes + 1 && after[k].likedDevices == rows[k].likedDevices + [deviceId] &&
      LikeReplyOf(rows, gameId, deviceId).likes == after[k].likes &&
      forall j :: 0 <= j < |rows| && rows[j].gameId != gameId ==> after[j] == rows[j]
  {
  }

  /** Every row counts each device that liked it once, and no device twice. */
  predicate Consistent(rows: seq<GameRow>)
  {
    forall k :: 0 <= k < |rows| ==>
      rows[k].likes == |rows[k].likedDevices| &&
      forall a, b :: 0 <= a < b < |rows[k].likedDevices| ==> rows[k].likedDevices[a] != rows[k].likedDevices[b]
  }

  /** `recordLike` keeps the count of every game equal to the number of distinct devices that liked it. */
  lemma {:induction false} LikeKeepsConsistent(rows: seq<GameRow>, gameId: string, deviceId: string)
    requires Consistent(rows)
    ensures Consistent(RowsAfterLike(rows, gameId, deviceId))
  {
    if LikeReplyOf(rows, gameId, deviceId).LikeRecorded? {
      var first := rows[FindRow(rows, gameId)];
      var ds := first.likedDevices + [deviceId];
      forall a, b | 0 <= a < b < |ds|
        ensures ds[a] != ds[b]
      {
        if b == |ds| - 1 {
          assert ds[a] == first.likedDevices[a];
        }
      }
    }
  }

  /** Liking twice from one device counts once: the repeat is refused and changes nothing. */
  lemma {:induction false} LikeTwice(rows: seq<GameRow>, gameId: string, deviceId: string)
    requires LikeReplyOf(rows, gameId, deviceId).LikeRecorded?
    ensures var after := RowsAfterLike(rows, gameId, deviceId);
      LikeReplyOf(after, gameId, deviceId) == AlreadyLiked &&
      RowsAfterLike(after, gameId, deviceId) == after
  {
    var after := RowsAfterLike(rows, gameId, deviceId);
    var k := FindRow(rows, gameId);
    assert FindRow(after, gameId) == k by {
      FindRowSame(rows, after, gameId);
    }
    assert after[k].likedDevices[|after[k].likedDevices| - 1] == deviceId;
  }

  /** Two tables whose rows carry the same ids find the same first row. */
  lemma {:induction false} FindRowSame(rows: seq<GameRow>, rows': seq<GameRow>, gameId: string)
    requires |rows| == |rows'| && forall k :: 0 <= k < |rows| ==> rows[k].gameId == rows'[k].gameId
    ensures FindRow(rows, gameId) == FindRow(rows', gameId)
  {
  }

  // =====================================================================
  // `getLikes`

  /** The ids of the rows, in table order, whose device list holds `deviceId`. */
  function LikedBy(rows: seq<GameRow>, deviceId: string): seq<string>
  {
    if rows == [] then []
    else
      var last := rows[|rows| - 1];
      LikedBy(rows[..|rows| - 1], deviceId) + (if deviceId in last.likedDevices then [last.gameId] else [])
  }

  /** `getLikes(deviceId)`: nothing without a device id, else the loop over the rows. */
  method LikedGames(rows: seq<GameRow>, deviceId: string) returns (likedGames: seq<string>)
    ensures deviceId == "" ==> likedGames == []
    ensures deviceId != "" ==> likedGames == LikedBy(rows, deviceId)
  {
    likedGames := [];
    if deviceId == "" {
      return;
    }
    var i := 0;
    while i < |rows|
      invariant 0 <= i <= |rows|
      invariant likedGames == LikedBy(rows[..i], deviceId)
    {
      assert rows[..i + 1][..i] == rows[..i];
      if deviceId in rows[i].likedDevices {
        likedGames := likedGames + [rows[i].gameId];
      }
      i := i + 1;
    }
    assert rows[..i] == rows;
  }

  /** An id is listed exactly when some row with that id was liked by the device. */
  lemma {:induction false} LikedByIff(rows: seq<GameRow>, deviceId: string, gameId: string)
    ensures gameId in LikedBy(rows, deviceId) <==>
      exists k :: 0 <= k < |rows| && rows[k].gameId == gameId && deviceId in rows[k].likedDevices
    decreases |rows|
  {
    if rows != [] {
      var n := |rows| - 1;
      LikedByIff(rows[..n], deviceId, gameId);
      assert forall k :: 0 <= k < n ==> rows[..n][k] == rows[k];
    }
  }

  /** `game_id` is a UNIQUE column: no two rows share an id. */
  predicate UniqueIds(rows: seq<GameRow>)
  {
    forall a, b :: 0 <= a < b < |rows| ==> rows[a].gameId != rows[b].gameId
  }

  /** A like rewrites rows in place and keeps every id, so ids stay unique. */
  lemma {:induction false} LikeKeepsIds(rows: seq<GameRow>, gameId: string, deviceId: string)
    ensures forall k :: 0 <= k < |rows| ==> RowsAfterLike(rows, gameId, deviceId)[k].gameId == rows[k].gameId
    ensures UniqueIds(rows) ==> UniqueIds(RowsAfterLike(rows, gameId, deviceId))
  {
  }

  /**
   * After a recorded like the game is among the device's liked games, and
   * no other device's list changes.
   */
  lemma {:induction false} LikeThenListed(rows: seq<GameRow>, gameId: string, deviceId: string, other: string)
    requires UniqueIds(rows)
    requires LikeReplyOf(rows, gameId, deviceId).LikeRecorded?
    requires other != deviceId
    ensures gameId in LikedBy(RowsAfterLike(rows, gameId, deviceId), deviceId)
    ensures LikedBy(RowsAfterLike(rows, gameId, deviceId), other) == LikedBy(rows, other)
  {
    var after := RowsAfterLike(rows, gameId, deviceId);
    var k := FindRow(rows, gameId);
    assert after[k].likedDevices[|after[k].likedDevices| - 1] == deviceId;
    LikedByIff(after, deviceId, gameId);
    var row := GameRow(gameId, rows[k].likes + 1, rows[k].likedDevices + [deviceId]);
    assert after == SetWhere(rows, gameId, row);
    forall j | 0 <= j < |rows| && rows[j].gameId == gameId
      ensures rows[j].likedDevices == rows[k].likedDevices
    {
      assert j == k;
    }
    LikedByOther(rows, gameId, deviceId, other, rows[k].likedDevices, row);
  }

  /**
   * Rewriting the rows of one id, whose lists all equal `first`, to a row
   * listing `first` and `deviceId` leaves every other device's listing as it was.
   */
  lemma {:induction false} LikedByOther(rows: seq<GameRow>, gameId: string, deviceId: string, other: string,
                                        first: seq<string>, row: GameRow)
    requires other != deviceId && row.gameId == gameId && row.likedDevices == first + [deviceId]
    requires forall k :: 0 <= k < |rows| && rows[k].gameId == gameId ==> rows[k].likedDevices == first
    ensures LikedBy(SetWhere(rows, gameId, row), other) == LikedBy(rows, other)
    decreases |rows|
  {
    if rows != [] {
      var n := |rows| - 1;
      LikedByOther(rows[..n], gameId, deviceId, other, first, row);
      var after := SetWhere(rows, gameId, row);
      assert after[..n] == SetWhere(rows[..n], gameId, row);
      assert (other in first + [deviceId]) <==> other in first;
    }
  }
}
