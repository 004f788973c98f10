/**
 * The server's chunked-upload endpoints: `uploadGameChunk` stages one chunk
 * of an upload under the decimal text of its index, and the first part of
 * `mergeGameChunks` checks that chunks `0 .. totalChunks - 1` are all
 * staged, concatenates them in index order into `<uploadId>-<fileName>`, and
 * deletes the staging directory.
 *
 * A request field that is absent is the empty string here (both are falsy
 * in the source); `chunkIndex` is optional because the source tests it
 * against `undefined` only.
 */
module Uploads {
  import opened Common

  /** The staging directory of one upload: chunk file name to contents. */
  type Stage = map<string, seq<Byte>>

  /** The name a chunk of index `i` is stored and looked up under (`${i}`). */
  function ChunkKey(i: nat): string
  {
    NatToString(i)
  }

  // =====================================================================
  // The verify loop: the lowest missing index

  /** The lowest index in `[from, n)` whose chunk is not staged, if any. */
  function FirstMissingFrom(stage: Stage, from: nat, n: int): Option<nat>
    decreases n - from
  {
    if from >= n then None
    else if !Staged(stage, from) then Some(from)
    else FirstMissingFrom(stage, from + 1, n)
  }

  /** The index the verify loop of `mergeGameChunks` reports missing. */
  function FirstMissing(stage: Stage, n: int): Option<nat>
  {
    FirstMissingFrom(stage, 0, n)
  }

  /** Chunk `i` is staged. */
  predicate Staged(stage: Stage, i: nat)
  {
    ChunkKey(i) in stage
  }

  /** Every index in `[0, n)` has a staged chunk. */
  predicate AllStaged(stage: Stage, n: int)
  {
    forall i: nat :: i < n ==> Staged(stage, i)
  }

  lemma {:induction false} FirstMissingFromSpec(stage: Stage, from: nat, n: int)
    ensures match FirstMissingFrom(stage, from, n)
      case Some(k) =>
        from <= k < n && !Staged(stage, k) && forall i: nat :: from <= i < k ==> Staged(stage, i)
      case None => forall i: nat :: from <= i < n ==> Staged(stage, i)
    decreases n - from
  {
    if from < n && Staged(stage, from) {
      FirstMissingFromSpec(stage, from + 1, n);
    }
  }

  /**
   * The reported index is missing and every index below it is staged; no
   * index is reported exactly when all of `[0, n)` are staged.
   */
  lemma {:induction false} FirstMissingSpec(stage: Stage, n: int)
    ensures FirstMissing(stage, n).Some? ==>
      var k := FirstMissing(stage, n).value;
      k < n && !Staged(stage, k) && forall i: nat :: i < k ==> Staged(stage, i)
    ensures FirstMissing(stage, n).None? <==> AllStaged(stage, n)
  {
    FirstMissingFromSpec(stage, 0, n);
  }

  /** `for (let i = 0; i < totalChunks; i++) if (!exists(i)) return i`. */
  method FindMissing(stage: Stage, totalChunks: int) returns (missing: Option<nat>)
    ensures missing == FirstMissing(stage, totalChunks)
  {
    var i: nat := 0;
    while i < totalChunks
      invariant FirstMissing(stage, totalChunks) == FirstMissingFrom(stage, i, totalChunks)
      decreases totalChunks - i
    {
      if !Staged(stage, i) {
        return Some(i);
      }
      i := i + 1;
    }
    missing := None;
  }

  // =====================================================================
  // The merge loop: concatenation in index order

  /** The staged chunk of index `i`. */
  function ChunkAt(stage: Stage, i: nat): seq<Byte>
    requires Staged(stage, i)
  {
    stage[ChunkKey(i)]
  }

  /** Chunks `0 .. n - 1` in index order. */
  function ChunkList(stage: Stage, n: nat): (r: seq<seq<Byte>>)
    requires AllStaged(stage, n)
    ensures |r| == n
  {
    if n == 0 then [] else ChunkList(stage, n - 1) + [ChunkAt(stage, n - 1)]
  }

  /** Chunks `0 .. n - 1`, one after the other. */
  function Assembled(stage: Stage, n: nat): seq<Byte>
    requires AllStaged(stage, n)
  {
    Concat(ChunkList(stage, n))
  }

  /** The bytes the merge loop writes to the output stream. */
  method Concatenate(stage: Stage, totalChunks: int) returns (data: seq<Byte>)
    requires AllStaged(stage, totalChunks)
    ensures totalChunks <= 0 ==> data == []
    ensures totalChunks > 0 ==> data == Assembled(stage, totalChunks)
  {
    data := [];
    var i: nat := 0;
    while i < totalChunks
      invariant i <= totalChunks || i == 0
      invariant data == Assembled(stage, i)
      decreases totalChunks - i
    {
      assert ChunkList(stage, i + 1)[..i] == ChunkList(stage, i);
      data := data + ChunkAt(stage, i);
      i := i + 1;
    }
  }

  /** Entry `i` of the chunk list is chunk `i`. */
  lemma {:induction false} ChunkListAt(stage: Stage, n: nat, i: nat)
    requires AllStaged(stage, n) && i < n
    ensures ChunkList(stage, n)[i] == ChunkAt(stage, i)
    ensures ChunkList(stage, n)[..i] == ChunkList(stage, i)
    decreases n
  {
    if i < n - 1 {
      ChunkListAt(stage, n - 1, i);
      assert ChunkList(stage, n)[..n - 1] == ChunkList(stage, n - 1);
    }
  }

  /** Chunk `i` sits in the merged file right after chunks `0 .. i - 1`. */
  lemma {:induction false} ChunkInMerged(stage: Stage, i: nat, n: nat)
    requires i < n && AllStaged(stage, n)
    ensures var o := |Assembled(stage, i)|;
      o + |ChunkAt(stage, i)| <= |Assembled(stage, n)| &&
      Assembled(stage, n)[o..o + |ChunkAt(stage, i)|] == ChunkAt(stage, i)
  {
    ChunkListAt(stage, n, i);
    ConcatSlice(ChunkList(stage, n), i);
  }

  /** Chunks staged beyond `n` do not reach the merged file. */
  lemma {:induction false} AssembledIgnoresOthers(stage: Stage, stage': Stage, n: nat)
    requires AllStaged(stage, n) && AllStaged(stage', n)
    requires forall i: nat :: i < n ==> ChunkAt(stage, i) == ChunkAt(stage', i)
    ensures ChunkList(stage, n) == ChunkList(stage', n)
    ensures Assembled(stage, n) == Assembled(stage', n)
  {
    if n > 0 {
      AssembledIgnoresOthers(stage, stage', n - 1);
    }
  }

  // =====================================================================
  // Arrival order

  /** One chunk request: the index text it carried and its bytes. */
  datatype Arrival = Arrival(key: string, data: seq<Byte>)

  /** The staging directory after chunk requests arrive in the order given (each overwrites). */
  function Received(arrivals: seq<Arrival>): Stage
  {
    if arrivals == [] then map[]
    else
      var last := arrivals[|arrivals| - 1];
      Received(arrivals[..|arrivals| - 1])[last.key := last.data]
  }

  /**
   * A name is staged exactly when some request carried it, and it holds the
   * bytes of the latest such request.
   */
  lemma {:induction false} ReceivedLatest(arrivals: seq<Arrival>, key: string)
    ensures key in Received(arrivals) <==> exists j :: 0 <= j < |arrivals| && arrivals[j].key == key
    ensures key in Received(arrivals) ==> exists j :: (0 <= j < |arrivals| && arrivals[j].key == key &&
      Received(arrivals)[key] == arrivals[j].data &&
      forall j' :: j < j' < |arrivals| ==> arrivals[j'].key != key)
    decreases |arrivals|
  {
    if arrivals != [] {
      var n := |arrivals| - 1;
      var init := arrivals[..n];
      ReceivedLatest(init, key);
      if arrivals[n].key != key {
        if key in Received(init) {
          var j :| 0 <= j < |init| && init[j].key == key && Received(init)[key] == init[j].data &&
            forall j' :: j < j' < |init| ==> init[j'].key != key;
          assert arrivals[j] == init[j];
          assert forall j' :: j < j' < n ==> arrivals[j'] == init[j'];
        }
        assert forall j :: 0 <= j < n ==> arrivals[j] == init[j];
      }
    }
  }

  /** Every index text is sent at most once. */
  predicate DistinctKeys(arrivals: seq<Arrival>)
  {
    forall j, j' :: 0 <= j < j' < |arrivals| ==> arrivals[j].key != arrivals[j'].key
  }

  /**
   * When no index is sent twice, the order the requests arrive in does not
   * matter: any reordering stages the same directory.
   */
  lemma {:induction false} ArrivalOrderIrrelevant(a: seq<Arrival>, b: seq<Arrival>)
    requires DistinctKeys(a) && DistinctKeys(b) && multiset(a) == multiset(b)
    ensures Received(a) == Received(b)
  {
    forall key
      ensures key in Received(a) <==> key in Received(b)
      ensures key in Received(a) ==> Received(a)[key] == Received(b)[key]
    {
      ReceivedLatest(a, key);
      ReceivedLatest(b, key);
      if key in Received(a) {
        var j :| 0 <= j < |a| && a[j].key == key && Received(a)[key] == a[j].data;
        assert a[j] in multiset(b);
        var jb :| 0 <= jb < |b| && b[jb] == a[j];
        assert key in Received(b);
        var jb' :| 0 <= jb' < |b| && b[jb'].key == key && Received(b)[key] == b[jb'].data;
        assert jb' == jb;
      }
      if key in Received(b) {
        var jb :| 0 <= jb < |b| && b[jb].key == key;
        assert b[jb] in multiset(a);
        var ja :| 0 <= ja < |a| && a[ja] == b[jb];
      }
    }
  }

  // =====================================================================
  // The endpoints

  datatype ChunkReply = NoFile | ChunkMissingParams | ChunkStored

  datatype MergeReply =
    | MergeMissingParams
    | MissingChunk(index: nat)
    | CleanupFailed      // `rmSync` of a staging directory that does not exist throws
    | Merged(zipPath: string)

  /** The merged archive's file name, `${uploadId}-${fileName}`. */
  function ZipName(uploadId: string, fileName: string): string
  {
    uploadId + "-" + fileName
  }

  /** The staging directory of an upload in a map of them; one that does not exist is empty. */
  function StageIn(staged: map<string, Stage>, uploadId: string): Stage
  {
    if uploadId in staged then staged[uploadId] else map[]
  }

  /** The uploads directory: staging directories under `temp/` and merged archives. */
  class UploadArea {
    var staged: map<string, Stage>
    var archives: map<string, seq<Byte>>

    constructor ()
      ensures staged == map[] && archives == map[]
    {
      staged, archives := map[], map[];
    }

    /** The staging directory of an upload; one that does not exist is empty. */
    function StageOf(uploadId: string): Stage
      reads this
    {
      StageIn(staged, uploadId)
    }

    /**
     * `uploadGameChunk`: without a file, or without `uploadId` or
     * `chunkIndex`, nothing is staged; otherwise the chunk is stored under
     * the index text, replacing an earlier chunk of the same name.
     */
    method UploadChunk(file: Option<seq<Byte>>, uploadId: string, chunkIndex: Option<string>)
      returns (reply: ChunkReply)
      modifies this
      ensures file.None? ==> reply == NoFile && staged == old(staged)
      ensures file.Some? && (uploadId == "" || chunkIndex.None?) ==>
        reply == ChunkMissingParams && staged == old(staged)
      ensures file.Some? && uploadId != "" && chunkIndex.Some? ==>
        reply == ChunkStored &&
        staged == old(staged)[uploadId := old(StageOf(uploadId))[chunkIndex.value := file.value]]
      ensures archives == old(archives)
    {
      if file.None? {
        return NoFile;
      }
      if uploadId == "" || chunkIndex.None? {
        return ChunkMissingParams;
      }
      var stage := StageOf(uploadId);
      staged := staged[uploadId := stage[chunkIndex.value := file.value]];
      reply := ChunkStored;
    }

    /**
     * The verify, merge and cleanup part of `mergeGameChunks`. Missing
     * parameters and a missing chunk change nothing; otherwise the archive
     * holds chunks `0 .. totalChunks - 1` in index order and the staging
     * directory is gone.
     */
    method MergeChunks(uploadId: string, fileName: string, totalChunks: int, name: string)
      returns (reply: MergeReply)
      modifies this
      ensures uploadId == "" || fileName == "" || totalChunks == 0 || name == "" ==>
        reply == MergeMissingParams && staged == old(staged) && archives == old(archives)
      ensures uploadId != "" && fileName != "" && totalChunks != 0 && name != "" ==>
        match FirstMissing(old(StageOf(uploadId)), totalChunks)
        case Some(i) => reply == MissingChunk(i) && staged == old(staged) && archives == old(archives)
        case None =>
          AllStaged(old(StageOf(uploadId)), totalChunks) &&
          archives == old(archives)[ZipName(uploadId, fileName) :=
            if totalChunks > 0 then Assembled(old(StageOf(uploadId)), totalChunks) else []] &&
          staged == old(staged) - {uploadId} &&
          reply == (if uploadId in old(staged) then Merged(ZipName(uploadId, fileName)) else CleanupFailed)
    {
      if uploadId == "" || fileName == "" || totalChunks == 0 || name == "" {
        return MergeMissingParams;
      }
      var stage := StageOf(uploadId);
      var zipPath := ZipName(uploadId, fileName);
      var missing := FindMissing(stage, totalChunks);
      if missing.Some? {
        return MissingChunk(missing.value);
      }
      FirstMissingSpec(stage, totalChunks);
      var data := Concatenate(stage, totalChunks);
      archives := archives[zipPath := data];
      if uploadId !in staged {
        return CleanupFailed;
      }
      staged := staged - {uploadId};
      reply := Merged(zipPath);
    }
  }

  /**
   * Chunk "1" ("LLO") arrives before chunk "0" ("HE"): a merge of two
   * chunks yields "HELLO", and a merge that expects three reports chunk 2
   * missing.
   */
  lemma {:induction false} MergeExample()
    ensures var stage := Received([Arrival("1", [76, 76, 79]), Arrival("0", [72, 69])]);
      FirstMissing(stage, 3) == Some(2) &&
      AllStaged(stage, 2) && Assembled(stage, 2) == [72, 69, 76, 76, 79]
  {
    var a1 := Arrival("1", [76, 76, 79]);
    var a0 := Arrival("0", [72, 69]);
    assert [a1, a0][..1] == [a1] && [a1][..0] == [];
    var stage := Received([a1, a0]);
    assert Received([a1]) == map[]["1" := [76, 76, 79]];
    assert stage == Received([a1])["0" := [72, 69]];
    assert ChunkKey(0) == "0" && ChunkKey(1) == "1" && ChunkKey(2) == "2";
    assert "2" != "0" && "2" != "1" && "0" != "1";
    assert AllStaged(stage, 2) by {
      forall i: nat | i < 2
        ensures ChunkKey(i) in stage
      {
        assert i == 0 || i == 1;
      }
    }
    assert ChunkList(stage, 1) == [[72, 69]];
    assert ChunkList(stage, 2) == [[72, 69], [76, 76, 79]];
    var pieces: seq<seq<Byte>> := [[72, 69], [76, 76, 79]];
    assert pieces[..1] == [[72, 69]] && pieces[..1][..0] == [];
    assert Concat(pieces[..1]) == [72, 69];
    assert Concat(pieces) == [72, 69] + [76, 76, 79];
  }
}
