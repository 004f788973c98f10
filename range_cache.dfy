/**
 * The service worker that serves a packed game out of `game.core`
 * (`sw.js`). An `INIT_VFS` message loads the game's manifest into a map
 * from path to (offset, size); a request for `/Games/<id>/<path>` whose
 * path is in the map is answered from the persistent store when it holds
 * `<id>:<path>`, and otherwise by a `Range` request for exactly that
 * file's bytes, whose answer is stored; if that request fails the worker
 * forwards the request to the file's own URL.
 *
 * The persistent store (IndexedDB) is a map; what the network answers is a
 * parameter of each operation (`None` when the request throws).
 */
module RangeCache {
  import opened Common

  // =====================================================================
  // The manifest and the per-game state

  /** One record of `manifest.files`: path, offset in `game.core`, size. */
  datatype ManifestFile = ManifestFile(p: string, o: nat, s: nat)

  datatype Manifest = Manifest(v: int, files: seq<ManifestFile>)

  /** Where a file sits in `game.core`. */
  datatype FileInfo = FileInfo(offset: nat, size: nat)

  /** The value `vfsState` holds for one game. */
  datatype GameState = GameState(ready: bool, gameUrl: string, v: int, files: map<string, FileInfo>)

  /** The map `forEach` builds: each record in turn, a later path overwriting an earlier one. */
  function FilesMapOf(files: seq<ManifestFile>): map<string, FileInfo>
  {
    if files == [] then map[]
    else
      var last := files[|files| - 1];
      FilesMapOf(files[..|files| - 1])[last.p := FileInfo(last.o, last.s)]
  }

  /** A path is in the map exactly when some record names it. */
  lemma {:induction false} FilesMapKeys(files: seq<ManifestFile>, p: string)
    ensures p in FilesMapOf(files) <==> exists i :: 0 <= i < |files| && files[i].p == p
  {
    if files != [] {
      var n := |files| - 1;
      FilesMapKeys(files[..n], p);
      if p in FilesMapOf(files[..n]) {
        var i :| 0 <= i < n && files[..n][i].p == p;
        assert files[i].p == p;
      }
      if i :| 0 <= i < |files| && files[i].p == p {
        if i < n {
          assert files[..n][i].p == p;
        }
      }
    }
  }

  /** A path maps to the offset and size of the last record that names it. */
  lemma {:induction false} FilesMapLastWins(files: seq<ManifestFile>, i: nat)
    requires i < |files| && forall j :: i < j < |files| ==> files[j].p != files[i].p
    ensures files[i].p in FilesMapOf(files)
    ensures FilesMapOf(files)[files[i].p] == FileInfo(files[i].o, files[i].s)
  {
    var n := |files| - 1;
    if i < n {
      assert files[..n][i] == files[i];
      forall j | i < j < n
        ensures files[..n][j].p != files[..n][i].p
      {
        assert files[..n][j] == files[j];
      }
      FilesMapLastWins(files[..n], i);
    }
  }

  /** The `forEach` over `manifest.files`. */
  method BuildFilesMap(files: seq<ManifestFile>) returns (filesMap: map<string, FileInfo>)
    ensures filesMap == FilesMapOf(files)
  {
    filesMap := map[];
    var i := 0;
    while i < |files|
      invariant 0 <= i <= |files|
      invariant filesMap == FilesMapOf(files[..i])
    {
      assert files[..i + 1][..i] == files[..i];
      filesMap := filesMap[files[i].p := FileInfo(files[i].o, files[i].s)];
      i := i + 1;
    }
    assert files[..i] == files;
  }

  /** The state `INIT_VFS` records for a game whose manifest was loaded. */
  function ReadyState(gameUrl: string, m: Manifest): GameState
  {
    GameState(true, gameUrl, m.v, FilesMapOf(m.files))
  }

  // =====================================================================
  // Which requests are intercepted

  /** `pathname.split('/')`, with `parts[2]` and `parts.slice(3).join('/')`, for a pathname under `/Games/`. */
  function ParseGamePath(pathname: string): Option<(string, string)>
  {
    if !StartsWith(pathname, "/Games/") then None
    else
      GamesSplit(pathname[7..]);
      assert pathname == "/Games/" + pathname[7..];
      var parts := Split(pathname, '/');
      Some((parts[2], Join(parts[3..], '/')))
  }

  /** Splitting a pathname under `/Games/` gives `""`, `"Games"`, then the pieces of the rest. */
  lemma {:induction false} GamesSplit(rest: string)
    ensures Split("/Games/" + rest, '/') == ["", "Games"] + Split(rest, '/')
  {
    assert "/Games/" + rest == "" + ['/'] + ("Games" + ['/'] + rest);
    SplitAround("", "Games" + ['/'] + rest, '/');
    SplitAround("Games", rest, '/');
    SplitFree("Games", '/');
  }

  /**
   * Only pathnames under `/Games/` are parsed; the game id is the segment
   * after it, free of '/', and the file path is everything after the next
   * '/' (empty when there is none).
   */
  lemma {:induction false} ParseGamePathSpec(pathname: string)
    ensures ParseGamePath(pathname).Some? <==> StartsWith(pathname, "/Games/")
    ensures match ParseGamePath(pathname)
      case Some((gameId, filePath)) =>
        '/' !in gameId &&
        (pathname == "/Games/" + gameId + "/" + filePath || (filePath == "" && pathname == "/Games/" + gameId))
      case None => true
  {
    if StartsWith(pathname, "/Games/") {
      var rest := pathname[7..];
      assert pathname == "/Games/" + rest;
      GamesSplit(rest);
      var pieces := Split(rest, '/');
      assert Split(pathname, '/')[2..] == pieces;
      SplitPartsFree(rest, '/');
      JoinSplit(rest, '/');
      if |pieces| == 1 {
        assert rest == pieces[0];
      } else {
        assert rest == pieces[0] + "/" + Join(pieces[1..], '/');
      }
    }
  }

  /** Building a game URL and parsing it again gives back the id and the path. */
  lemma {:induction false} ParseGamePathRoundTrip(gameId: string, filePath: string)
    requires '/' !in gameId
    ensures ParseGamePath("/Games/" + gameId + "/" + filePath) == Some((gameId, filePath))
  {
    var rest := gameId + "/" + filePath;
    assert "/Games/" + gameId + "/" + filePath == "/Games/" + rest;
    assert StartsWith("/Games/" + rest, "/Games/");
    assert ("/Games/" + rest)[7..] == rest;
    GamesSplit(rest);
    SplitAround(gameId, filePath, '/');
    SplitFree(gameId, '/');
    JoinSplit(filePath, '/');
    assert Split("/Games/" + rest, '/')[3..] == Split(filePath, '/');
  }

  /** An intercepted request: the game, the file, the game's state and the file's place. */
  datatype Target = Target(gameId: string, filePath: string, state: GameState, info: FileInfo)

  /** The fetch handler's decision: respond itself, or let the request through. */
  function Intercept(vfs: map<string, GameState>, pathname: string): Option<Target>
  {
    match ParseGamePath(pathname)
    case None => None
    case Some((gameId, filePath)) =>
      if gameId in vfs && vfs[gameId].ready && filePath in vfs[gameId].files then
        Some(Target(gameId, filePath, vfs[gameId], vfs[gameId].files[filePath]))
      else None
  }

  /** A request is intercepted exactly when it names a file the ready state of its game maps. */
  lemma {:induction false} InterceptIff(vfs: map<string, GameState>, gameId: string, filePath: string)
    requires '/' !in gameId
    ensures var t := Intercept(vfs, "/Games/" + gameId + "/" + filePath);
      t.Some? <==> gameId in vfs && vfs[gameId].ready && filePath in vfs[gameId].files
    ensures var t := Intercept(vfs, "/Games/" + gameId + "/" + filePath);
      t.Some? ==> t.value == Target(gameId, filePath, vfs[gameId], vfs[gameId].files[filePath])
  {
    ParseGamePathRoundTrip(gameId, filePath);
  }

  /**
   * A text that serialising a URL path leaves as it is: ASCII letters and
   * digits and the characters `/-._~!$&'()*+,;=:@`. The pathname the fetch
   * handler splits is the serialised one, so only a game id and a file path
   * of this kind reach the lookup in the form the manifest records them.
   */
  predicate UrlPathSafe(s: string)
  {
    forall i :: 0 <= i < |s| ==>
      ('a' <= s[i] <= 'z') || ('A' <= s[i] <= 'Z') || ('0' <= s[i] <= '9') || s[i] in "/-._~!$&\'()*+,;=:@"
  }

  /**
   * The lookup is on the encoded pathname: a file the manifest records as
   * `a b.js` is requested as `a%20b.js`, and that request is not intercepted.
   */
  lemma {:induction false} EncodedNameMisses(vfs: map<string, GameState>, gameId: string, gameUrl: string, v: int)
    requires '/' !in gameId
    ensures var m := Manifest(v, [ManifestFile("a b.js", 0, 1)]);
      Intercept(vfs[gameId := ReadyState(gameUrl, m)], "/Games/" + gameId + "/" + "a%20b.js") == None
  {
    var m := Manifest(v, [ManifestFile("a b.js", 0, 1)]);
    InterceptIff(vfs[gameId := ReadyState(gameUrl, m)], gameId, "a%20b.js");
    FilesMapKeys(m.files, "a%20b.js");
  }

  /** Requests outside `/Games/` are never intercepted. */
  lemma {:induction false} OutsideGamesPassThrough(vfs: map<string, GameState>, pathname: string)
    requires !StartsWith(pathname, "/Games/")
    ensures Intercept(vfs, pathname) == None
  {
  }

  // =====================================================================
  // `handleRequest`

  /** A record of the persistent store: the bytes and the manifest version they were saved with. */
  datatype Stored = Stored(data: seq<Byte>, v: int)

  type Store = map<string, Stored>

  /** The store key: game and path, with no version in it. */
  function CacheKey(gameId: string, filePath: string): string
  {
    gameId + ":" + filePath
  }

  /** `bytes=${offset}-${offset + size - 1}`. */
  function RangeHeader(offset: nat, size: nat): string
  {
    "bytes=" + NatToString(offset) + "-" + IntToString(offset + size - 1)
  }

  /** A request the worker sends for part of `game.core`. */
  datatype RangeRequest = RangeRequest(url: string, range: string)

  /** The worker's answer: bytes it serves with a content type, or the request it forwards. */
  datatype Response = Served(body: seq<Byte>, contentType: string) | Forwarded(url: string)

  /** What `handleRequest` does: its answer, the range request it sent, and the store afterwards. */
  datatype Outcome = Outcome(response: Response, request: Option<RangeRequest>, store: Store)

  function CoreRequest(t: Target): RangeRequest
  {
    RangeRequest(t.state.gameUrl + "/game.core", RangeHeader(t.info.offset, t.info.size))
  }

  /** `handleRequest(gameId, state, fileInfo, filePath)`; `fetched` is the range response's body, or `None` if the fetch throws. */
  function Serve(store: Store, t: Target, fetched: Option<seq<Byte>>): Outcome
  {
    var key := CacheKey(t.gameId, t.filePath);
    if key in store then
      Outcome(Served(store[key].data, ContentType(t.filePath)), None, store)
    else
      match fetched
      case Some(data) =>
        Outcome(Served(data, ContentType(t.filePath)), Some(CoreRequest(t)),
                store[key := Stored(data, t.state.v)])
      case None =>
        Outcome(Forwarded(t.state.gameUrl + "/" + t.filePath), Some(CoreRequest(t)), store)
  }

  /**
   * A stored file is served as stored, without any request, whatever the
   * game's current state says: neither its version nor the file's place is
   * looked at.
   */
  lemma {:induction false} StoredWinsOverState(store: Store, t: Target, t': Target, fetched: Option<seq<Byte>>, fetched': Option<seq<Byte>>)
    requires t.gameId == t'.gameId && t.filePath == t'.filePath
    requires CacheKey(t.gameId, t.filePath) in store
    ensures Serve(store, t, fetched) == Serve(store, t', fetched')
    ensures Serve(store, t, fetched).request == None
    ensures Serve(store, t, fetched).response == Served(store[CacheKey(t.gameId, t.filePath)].data, ContentType(t.filePath))
  {
  }

  /**
   * On a miss the worker asks for exactly the file's bytes; it serves and
   * stores, under the same key and with the state's version, whatever comes
   * back, and when the request throws it forwards to the file's URL and
   * stores nothing.
   */
  lemma {:induction false} MissFetchesRange(store: Store, t: Target, fetched: Option<seq<Byte>>)
    requires CacheKey(t.gameId, t.filePath) !in store
    ensures var out := Serve(store, t, fetched);
      out.request == Some(RangeRequest(t.state.gameUrl + "/game.core",
        "bytes=" + NatToString(t.info.offset) + "-" + IntToString(t.info.offset + t.info.size - 1)))
    ensures var out := Serve(store, t, fetched);
      fetched.Some? ==> (out.response == Served(fetched.value, ContentType(t.filePath)) &&
        out.store == store[CacheKey(t.gameId, t.filePath) := Stored(fetched.value, t.state.v)])
    ensures var out := Serve(store, t, fetched);
      fetched.None? ==> out.response == Forwarded(t.state.gameUrl + "/" + t.filePath) && out.store == store
  {
  }

  // =====================================================================
  // The range header

  /** Reads `bytes=<first>-<last>` back, both positions as decimal digits. */
  function ParseRange(header: string): Option<(nat, nat)>
  {
    if !StartsWith(header, "bytes=") then None
    else
      var parts := Split(header[6..], '-');
      if |parts| == 2 && IsDigits(parts[0]) && IsDigits(parts[1]) then
        Some((DigitsValue(parts[0]), DigitsValue(parts[1])))
      else None
  }

  /** Two decimal numbers around a '-' read back as those numbers. */
  lemma {:induction false} RangeDigits(first: nat, last: nat)
    ensures ParseRange("bytes=" + NatToString(first) + "-" + NatToString(last)) == Some((first, last))
  {
    var a, b := NatToString(first), NatToString(last);
    var h := "bytes=" + a + "-" + b;
    assert h[6..] == a + ['-'] + b;
    DigitsHaveNo(a, '-');
    DigitsHaveNo(b, '-');
    SplitAround(a, b, '-');
    SplitFree(a, '-');
    SplitFree(b, '-');
    DigitsRoundTrip(first);
    DigitsRoundTrip(last);
  }

  /** The range of a non-empty file is well formed and reads back as its first and last byte positions. */
  lemma {:induction false} RangeHeaderRoundTrip(offset: nat, size: nat)
    requires size > 0
    ensures ParseRange(RangeHeader(offset, size)) == Some((offset, offset + size - 1))
  {
    assert RangeHeader(offset, size) == "bytes=" + NatToString(offset) + "-" + NatToString(offset + size - 1);
    RangeDigits(offset, offset + size - 1);
  }

  /** A header with two '-' in a row does not parse. */
  lemma {:induction false} DoubleDashRange(a: string, b: string)
    requires IsDigits(a) && IsDigits(b)
    ensures ParseRange("bytes=" + a + "-" + "-" + b) == None
  {
    var h := "bytes=" + a + "-" + "-" + b;
    assert h[6..] == a + ['-'] + ("" + ['-'] + b);
    DigitsHaveNo(a, '-');
    DigitsHaveNo(b, '-');
    SplitAround(a, "" + ['-'] + b, '-');
    SplitAround("", b, '-');
    SplitFree(a, '-');
    SplitFree(b, '-');
  }

  /**
   * The range of an empty file is not a satisfiable range: at offset 0 it
   * does not parse, elsewhere its last position is before its first.
   */
  lemma {:induction false} ZeroSizeRange(offset: nat)
    ensures offset == 0 ==> ParseRange(RangeHeader(offset, 0)) == None
    ensures offset > 0 ==> ParseRange(RangeHeader(offset, 0)) == Some((offset, offset - 1))
  {
    if offset == 0 {
      assert RangeHeader(offset, 0) == "bytes=" + NatToString(offset) + "-" + "-" + NatToString(1);
      DoubleDashRange(NatToString(offset), NatToString(1));
    } else {
      assert RangeHeader(offset, 0) == "bytes=" + NatToString(offset) + "-" + NatToString(offset - 1);
      RangeDigits(offset, offset - 1);
    }
  }

  /** The header for a file of size 0 at offset 5. */
  lemma {:induction false} ZeroSizeRangeExample()
    ensures RangeHeader(5, 0) == "bytes=5-4"
  {
    assert NatToString(5) == "5";
    assert IntToString(4) == "4";
  }

  // =====================================================================
  // `getContentType`

  const OctetStream := "application/octet-stream"

  /** The extension table. */
  const MimeTypes: map<string, string> := map[
    "html" := "text/html", "js" := "application/javascript", "css" := "text/css",
    "json" := "application/json", "png" := "image/png", "jpg" := "image/jpeg",
    "gif" := "image/gif", "webp" := "image/webp", "wasm" := "application/wasm"]

  /** `getContentType(path)`: the lower-cased text after the last '.', looked up in the table. */
  function ContentType(path: string): (t: string)
    ensures t == OctetStream || t in MimeTypes.Values
  {
    var ext := Lower(AfterLast(path, '.'));
    if ext in MimeTypes then MimeTypes[ext] else OctetStream
  }

  /**
   * The type depends only on the text after the last '.', in any case: a
   * known extension gets its table entry and any other text the generic type.
   */
  lemma {:induction false} ContentTypeSpec(stem: string, ext: string)
    requires '.' !in ext
    ensures Lower(ext) in MimeTypes ==> ContentType(stem + "." + ext) == MimeTypes[Lower(ext)]
    ensures Lower(ext) !in MimeTypes ==> ContentType(stem + "." + ext) == OctetStream
  {
    assert stem + "." + ext == stem + ['.'] + ext;
    AfterLastOf(stem, ext, '.');
  }

  /** A path without '.' is its own extension: `split('.').pop()` is the whole path. */
  lemma {:induction false} ContentTypeNoDot(path: string)
    requires '.' !in path
    ensures ContentType(path) == if Lower(path) in MimeTypes then MimeTypes[Lower(path)] else OctetStream
  {
    SplitFree(path, '.');
  }

  // =====================================================================
  // The worker

  /** What the worker posts back after `INIT_VFS`. */
  datatype VfsReply = VfsReady(gameId: string) | VfsError(gameId: string)

  /** The worker's global and persistent state: `vfsState` and the IndexedDB object store. */
  class VfsWorker {
    var vfs: map<string, GameState>
    var store: Store

    constructor (persisted: Store)
      ensures vfs == map[] && store == persisted
    {
      vfs := map[];
      store := persisted;
    }

    /**
     * The `message` handler. `fetched` is the parsed manifest, or `None`
     * when fetching or parsing it throws.
     */
    method OnMessage(msgType: string, gameId: string, gameUrl: string, fetched: Option<Manifest>)
      returns (reply: Option<VfsReply>)
      modifies this
      ensures store == old(store)
      ensures msgType != "INIT_VFS" ==> reply == None && vfs == old(vfs)
      ensures msgType == "INIT_VFS" && fetched.None? ==> reply == Some(VfsError(gameId)) && vfs == old(vfs)
      ensures msgType == "INIT_VFS" && fetched.Some? ==>
        reply == Some(VfsReady(gameId)) && vfs == old(vfs)[gameId := ReadyState(gameUrl, fetched.value)]
    {
      if msgType != "INIT_VFS" {
        return None;
      }
      match fetched
      case None =>
        reply := Some(VfsError(gameId));
      case Some(manifest) =>
        var filesMap := BuildFilesMap(manifest.files);
        vfs := vfs[gameId := GameState(true, gameUrl, manifest.v, filesMap)];
        reply := Some(VfsReady(gameId));
    }

    /**
     * The `fetch` handler for a request with this pathname: `None` lets the
     * request through; `fetched` is what the range request would bring.
     */
    method Fetch(pathname: string, fetched: Option<seq<Byte>>)
      returns (response: Option<Response>, request: Option<RangeRequest>)
      modifies this
      ensures vfs == old(vfs)
      ensures Intercept(old(vfs), pathname).None? ==> response == None && request == None && store == old(store)
      ensures Intercept(old(vfs), pathname).Some? ==>
        var out := Serve(old(store), Intercept(old(vfs), pathname).value, fetched);
        response == Some(out.response) && request == out.request && store == out.store
    {
      var target := Intercept(vfs, pathname);
      if target.None? {
        return None, None;
      }
      var out := Serve(store, target.value, fetched);
      store := out.store;
      response, request := Some(out.response), out.request;
    }
  }

  // =====================================================================
  // Re-initialisation

  /**
   * Re-initialising a game replaces its whole state: a path that the new
   * manifest does not list is no longer intercepted, and one it does list
   * maps to the new manifest's last record for it.
   */
  lemma {:induction false} ReinitReplacesFiles(vfs: map<string, GameState>, gameId: string, gameUrl: string, m: Manifest, filePath: string)
    requires '/' !in gameId
    ensures var t := Intercept(vfs[gameId := ReadyState(gameUrl, m)], "/Games/" + gameId + "/" + filePath);
      (t.Some? <==> exists i :: 0 <= i < |m.files| && m.files[i].p == filePath) &&
      (t.Some? ==> t.value.state.v == m.v && t.value.state.gameUrl == gameUrl)
  {
    InterceptIff(vfs[gameId := ReadyState(gameUrl, m)], gameId, filePath);
    FilesMapKeys(m.files, filePath);
  }

  /**
   * The store outlives re-initialisation: a file stored under an earlier
   * manifest is still what is served after a new manifest places the same
   * path elsewhere, with another version.
   */
  lemma {:induction false} StaleAfterReinit(store: Store, vfs: map<string, GameState>, gameId: string, gameUrl: string,
                         m: Manifest, filePath: string, fetched: Option<seq<Byte>>)
    requires '/' !in gameId
    requires CacheKey(gameId, filePath) in store
    requires exists i :: 0 <= i < |m.files| && m.files[i].p == filePath
    ensures var t := Intercept(vfs[gameId := ReadyState(gameUrl, m)], "/Games/" + gameId + "/" + filePath);
      t.Some? &&
      Serve(store, t.value, fetched).response == Served(store[CacheKey(gameId, filePath)].data, ContentType(filePath)) &&
      Serve(store, t.value, fetched).request == None
  {
    ReinitReplacesFiles(vfs, gameId, gameUrl, m, filePath);
    InterceptIff(vfs[gameId := ReadyState(gameUrl, m)], gameId, filePath);
  }
}
