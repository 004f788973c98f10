/**
 * The parts put together. A file the browser uploads in chunks is merged
 * back byte for byte, whatever order the chunk requests arrive in; and a
 * file packed into `game.core` is served back by the service worker
 * through one range request, given a server that answers byte ranges as
 * section 14.1.2 of RFC 9110 describes.
 */
module Pipeline {
  import opened Common
  import Splitter
  import Uploads
  import Packager
  import RangeCache

  // =====================================================================
  // Chunked upload, end to end

  /** A chunk request as the server reads it: the `uploadId` field, the `chunkIndex` text and the bytes. */
  datatype ChunkRequest = ChunkRequest(uploadId: string, key: string, data: seq<Byte>)

  /** The chunk requests among the calls, in the order they are made. */
  function RequestsOf(calls: seq<Splitter.Call>): seq<ChunkRequest>
  {
    if calls == [] then []
    else
      var last := calls[|calls| - 1];
      RequestsOf(calls[..|calls| - 1]) +
      (if last.Chunk? then [ChunkRequest(last.uploadId, Uploads.ChunkKey(last.index), last.data)] else [])
  }

  /** The requests naming upload `uploadId`, as that upload's staging directory receives them. */
  function ArrivalsFor(requests: seq<ChunkRequest>, uploadId: string): seq<Uploads.Arrival>
  {
    if requests == [] then []
    else
      var last := requests[|requests| - 1];
      ArrivalsFor(requests[..|requests| - 1], uploadId) +
      (if last.uploadId == uploadId then [Uploads.Arrival(last.key, last.data)] else [])
  }

  /**
   * The staging directories after the requests reach `uploadGameChunk` in
   * the order given; a request without an upload id stages nothing.
   */
  function Delivered(staged: map<string, Uploads.Stage>, requests: seq<ChunkRequest>): map<string, Uploads.Stage>
  {
    if requests == [] then staged
    else
      var last := requests[|requests| - 1];
      var prev := Delivered(staged, requests[..|requests| - 1]);
      if last.uploadId == "" then prev
      else prev[last.uploadId := Uploads.StageIn(prev, last.uploadId)[last.key := last.data]]
  }

  /** The requests, one after another, handled by the `upload-chunk` endpoint. */
  method Deliver(area: Uploads.UploadArea, requests: seq<ChunkRequest>)
    modifies area
    ensures area.staged == Delivered(old(area.staged), requests)
    ensures area.archives == old(area.archives)
  {
    var i := 0;
    while i < |requests|
      invariant 0 <= i <= |requests|
      invariant area.staged == Delivered(old(area.staged), requests[..i])
      invariant area.archives == old(area.archives)
    {
      var r := requests[i];
      var _ := area.UploadChunk(Some(r.data), r.uploadId, Some(r.key));
      assert requests[..i + 1][..i] == requests[..i];
      i := i + 1;
    }
    assert requests[..|requests|] == requests;
  }

  /**
   * The staging directory of a fresh upload holds what the requests naming
   * it put there, in their order; requests of other uploads, interleaved
   * with them, do not touch it.
   */
  lemma {:induction false} DeliveredFor(staged: map<string, Uploads.Stage>, requests: seq<ChunkRequest>, uploadId: string)
    requires uploadId != "" && uploadId !in staged
    ensures Uploads.StageIn(Delivered(staged, requests), uploadId) == Uploads.Received(ArrivalsFor(requests, uploadId))
  {
    if requests != [] {
      var n := |requests| - 1;
      var r := requests[n];
      var init := ArrivalsFor(requests[..n], uploadId);
      DeliveredFor(staged, requests[..n], uploadId);
      var prev := Delivered(staged, requests[..n]);
      if r.uploadId == uploadId {
        var x := Uploads.Arrival(r.key, r.data);
        assert ArrivalsFor(requests, uploadId) == init + [x];
        assert (init + [x])[..|init|] == init;
        assert Uploads.Received(init + [x]) == Uploads.Received(init)[x.key := x.data];
      } else {
        assert ArrivalsFor(requests, uploadId) == init;
        assert Uploads.StageIn(Delivered(staged, requests), uploadId) == Uploads.StageIn(prev, uploadId);
      }
    }
  }

  /**
   * When every chunk call names the upload, arrival `j` of that upload
   * carries the index and the bytes of the `j`-th chunk call.
   */
  lemma {:induction false} ArrivalsForSpec(calls: seq<Splitter.Call>, uploadId: string)
    requires Splitter.SameUpload(calls, uploadId)
    ensures var a := ArrivalsFor(RequestsOf(calls), uploadId);
      |a| == |Splitter.ChunkIndices(calls)| == |Splitter.ChunkData(calls)| &&
      forall j :: 0 <= j < |a| ==>
        a[j] == Uploads.Arrival(Uploads.ChunkKey(Splitter.ChunkIndices(calls)[j]), Splitter.ChunkData(calls)[j])
  {
    if calls != [] {
      var n := |calls| - 1;
      assert forall j :: 0 <= j < n ==> calls[..n][j] == calls[j];
      ArrivalsForSpec(calls[..n], uploadId);
      Splitter.FiltersAppend(calls[..n], calls[n]);
      assert calls == calls[..n] + [calls[n]];
      var r := RequestsOf(calls[..n]);
      if calls[n].Chunk? {
        var req := ChunkRequest(calls[n].uploadId, Uploads.ChunkKey(calls[n].index), calls[n].data);
        assert RequestsOf(calls) == r + [req];
        assert (r + [req])[..|r|] == r;
      } else {
        assert RequestsOf(calls) == r;
      }
    }
  }

  /** Different indices are sent under different names. */
  lemma {:induction false} ChunkKeyInjective(i: nat, j: nat)
    requires Uploads.ChunkKey(i) == Uploads.ChunkKey(j)
    ensures i == j
  {
    DigitsRoundTrip(i);
    DigitsRoundTrip(j);
  }

  /** No element occurs twice in a sequence of arrivals with distinct names. */
  lemma {:induction false} DistinctOnce(a: seq<Uploads.Arrival>, x: Uploads.Arrival)
    requires Uploads.DistinctKeys(a)
    ensures multiset(a)[x] <= 1
    decreases |a|
  {
    if a != [] {
      var n := |a| - 1;
      assert a == a[..n] + [a[n]];
      assert Uploads.DistinctKeys(a[..n]);
      DistinctOnce(a[..n], x);
      if x == a[n] {
        assert x !in a[..n];
      }
    }
  }

  /** A reordering of arrivals with distinct names has distinct names. */
  lemma {:induction false} PermutationKeepsDistinct(a: seq<Uploads.Arrival>, b: seq<Uploads.Arrival>)
    requires Uploads.DistinctKeys(a) && multiset(a) == multiset(b)
    ensures Uploads.DistinctKeys(b)
  {
    forall j, j' | 0 <= j < j' < |b|
      ensures b[j].key != b[j'].key
    {
      assert b[j] in multiset(a) && b[j'] in multiset(a);
      var i :| 0 <= i < |a| && a[i] == b[j];
      var i' :| 0 <= i' < |a| && a[i'] == b[j'];
      if b[j].key == b[j'].key {
        assert i == i';
        assert b == b[..j'] + b[j'..];
        assert b[j] in b[..j'] && b[j'] in b[j'..];
        assert multiset(b)[b[j]] == multiset(b[..j'])[b[j]] + multiset(b[j'..])[b[j]];
        DistinctOnce(a, b[j]);
        assert false;
      }
    }
  }

  /**
   * The chunk requests of a chunked upload, as its staging directory
   * receives them: chunk `j` under the name of `j`, no name twice.
   */
  lemma {:induction false} SentArrivals(file: seq<Byte>, fileName: string, form: Splitter.Form, uploadId: string, withProgress: bool)
    requires |file| > Splitter.ChunkSize
    ensures var n := Splitter.TotalChunks(|file|);
      var sent := ArrivalsFor(RequestsOf(Splitter.UploadCalls(file, fileName, form, uploadId, withProgress)), uploadId);
      |sent| == n &&
      (forall j :: 0 <= j < n ==> sent[j] == Uploads.Arrival(Uploads.ChunkKey(j), Splitter.Slices(file, n)[j])) &&
      Uploads.DistinctKeys(sent)
  {
    var n := Splitter.TotalChunks(|file|);
    var calls := Splitter.UploadCalls(file, fileName, form, uploadId, withProgress);
    var sent := ArrivalsFor(RequestsOf(calls), uploadId);
    var merge := Splitter.Merge(uploadId, fileName, n, form);
    Splitter.ChunkedUpload(file, fileName, form, uploadId, withProgress);
    Splitter.ChunkCallsData(file, uploadId, n, withProgress);
    Splitter.FiltersAppend(Splitter.ChunkCalls(file, uploadId, n, withProgress), merge);
    assert calls == Splitter.ChunkCalls(file, uploadId, n, withProgress) + [merge];
    assert Splitter.ChunkData(calls) == Splitter.Slices(file, n);
    ArrivalsForSpec(calls, uploadId);
    IndexedKeysDistinct(sent);
  }

  /** Arrivals named after their own positions have distinct names. */
  lemma {:induction false} IndexedKeysDistinct(sent: seq<Uploads.Arrival>)
    requires forall j :: 0 <= j < |sent| ==> sent[j].key == Uploads.ChunkKey(j)
    ensures Uploads.DistinctKeys(sent)
  {
    forall j, j' | 0 <= j < j' < |sent|
      ensures sent[j].key != sent[j'].key
    {
      if sent[j].key == sent[j'].key {
        ChunkKeyInjective(j, j');
      }
    }
  }

  /** Receiving chunk `j` under the name of `j`, for every `j < n`, stages exactly those chunks. */
  lemma {:induction false} StagedChunks(sent: seq<Uploads.Arrival>, chunks: seq<seq<Byte>>)
    requires |sent| == |chunks|
    requires forall j :: 0 <= j < |sent| ==> sent[j] == Uploads.Arrival(Uploads.ChunkKey(j), chunks[j])
    requires Uploads.DistinctKeys(sent)
    ensures Uploads.AllStaged(Uploads.Received(sent), |chunks|)
    ensures Uploads.ChunkList(Uploads.Received(sent), |chunks|) == chunks
  {
    var stage := Uploads.Received(sent);
    forall i: nat | i < |chunks|
      ensures Uploads.Staged(stage, i) && Uploads.ChunkAt(stage, i) == chunks[i]
    {
      var key := Uploads.ChunkKey(i);
      Uploads.ReceivedLatest(sent, key);
      assert sent[i].key == key;
      var j :| 0 <= j < |sent| && sent[j].key == key && stage[key] == sent[j].data;
      ChunkKeyInjective(j, i);
    }
    forall i | 0 <= i < |chunks|
      ensures Uploads.ChunkList(stage, |chunks|)[i] == chunks[i]
    {
      Uploads.ChunkListAt(stage, |chunks|, i);
    }
  }

  /**
   * Whatever order the chunk requests of a fresh upload arrive in, and
   * whatever requests of other uploads come between them, the merge call
   * names that upload and `N`, and finds every chunk `0 .. N - 1` in that
   * upload's staging directory, which assembles to exactly the file.
   */
  lemma {:induction false} ChunkedUploadRoundTrip(file: seq<Byte>, fileName: string, form: Splitter.Form, uploadId: string,
                                                  withProgress: bool, staged: map<string, Uploads.Stage>, arrived: seq<ChunkRequest>)
    requires |file| > Splitter.ChunkSize
    requires uploadId != "" && uploadId !in staged
    requires multiset(ArrivalsFor(arrived, uploadId)) ==
      multiset(ArrivalsFor(RequestsOf(Splitter.UploadCalls(file, fileName, form, uploadId, withProgress)), uploadId))
    ensures var n, calls := Splitter.TotalChunks(|file|), Splitter.UploadCalls(file, fileName, form, uploadId, withProgress);
      var stage := Uploads.StageIn(Delivered(staged, arrived), uploadId);
      calls[|calls| - 1] == Splitter.Merge(uploadId, fileName, n, form) &&
      Uploads.FirstMissing(stage, n) == None &&
      Uploads.AllStaged(stage, n) && Uploads.Assembled(stage, n) == file
  {
    var n := Splitter.TotalChunks(|file|);
    var sent := ArrivalsFor(RequestsOf(Splitter.UploadCalls(file, fileName, form, uploadId, withProgress)), uploadId);
    var mine := ArrivalsFor(arrived, uploadId);
    Splitter.ChunkedUpload(file, fileName, form, uploadId, withProgress);
    SentArrivals(file, fileName, form, uploadId, withProgress);
    PermutationKeepsDistinct(sent, mine);
    Uploads.ArrivalOrderIrrelevant(sent, mine);
    DeliveredFor(staged, arrived, uploadId);
    Splitter.SlicesTile(file);
    StagedChunks(sent, Splitter.Slices(file, n));
    Uploads.FirstMissingSpec(Uploads.Received(mine), n);
  }

  // =====================================================================
  // Packing, then serving

  /** The manifest records as the service worker reads them. */
  function ToWorker(entries: seq<Packager.Entry>): (r: seq<RangeCache.ManifestFile>)
    ensures |r| == |entries|
    ensures forall i :: 0 <= i < |entries| ==> r[i] == RangeCache.ManifestFile(entries[i].p, entries[i].o, entries[i].s)
  {
    if entries == [] then []
    else ToWorker(entries[..|entries| - 1]) + [RangeCache.ManifestFile(entries[|entries| - 1].p, entries[|entries| - 1].o, entries[|entries| - 1].s)]
  }

  /**
   * A byte-range server over `content` (section 14.1.2 of RFC 9110): a
   * range whose first position is within the content and not after its
   * last position is answered with those bytes, the last position clamped
   * to the content's end; any other header is unsatisfiable.
   */
  function RangeServe(content: seq<Byte>, header: string): Option<seq<Byte>>
  {
    match RangeCache.ParseRange(header)
    case None => None
    case Some((first, last)) =>
      if first <= last && first < |content| then
        Some(content[first..if last + 1 <= |content| then last + 1 else |content|])
      else None
  }

  /**
   * After `INIT_VFS` with the manifest of a packed game, a request for a
   * packed non-empty file whose game id and path URL serialisation leaves
   * unchanged is intercepted with that file's record, and the
   * range request the worker sends on a miss brings back exactly the file's
   * bytes from the package; `RangeCache.MissFetchesRange` says that those
   * bytes are what the worker serves and stores.
   */
  lemma {:induction false} PackedFileServed(files: seq<Packager.Packed>, i: nat, gameId: string, gameUrl: string, v: int,
                                           vfs: map<string, RangeCache.GameState>)
    requires i < |files| && |files[i].data| > 0
    requires forall j :: i < j < |files| ==> files[j].path != files[i].path
    requires '/' !in gameId
    requires RangeCache.UrlPathSafe(gameId) && RangeCache.UrlPathSafe(files[i].path)
    ensures var m := RangeCache.Manifest(v, ToWorker(Packager.EntriesFrom(files, 0)));
      var t := RangeCache.Intercept(vfs[gameId := RangeCache.ReadyState(gameUrl, m)], "/Games/" + gameId + "/" + files[i].path);
      t.Some? && t.value.state.v == v && t.value.state.gameUrl == gameUrl &&
      RangeServe(Packager.Blob(files), RangeCache.CoreRequest(t.value).range) == Some(files[i].data)
  {
    var entries := Packager.EntriesFrom(files, 0);
    PackedFileIntercepted(files, i, gameId, gameUrl, v, vfs);
    RangeServesRecord(files, i);
    var m := RangeCache.Manifest(v, ToWorker(entries));
    var t := RangeCache.Intercept(vfs[gameId := RangeCache.ReadyState(gameUrl, m)], "/Games/" + gameId + "/" + files[i].path);
    assert RangeCache.CoreRequest(t.value).range == RangeCache.RangeHeader(entries[i].o, entries[i].s);
  }

  /**
   * In a well-named game tree every non-empty packed file, requested under
   * a URL-safe path, is served back through one range request: its path is
   * recorded once, so the worker keeps its record.
   */
  lemma {:induction false} PackedGameFileServed(tree: seq<Node>, i: nat, gameId: string, gameUrl: string, v: int,
                                               vfs: map<string, RangeCache.GameState>)
    requires Packager.WellNamed(tree)
    requires i < |Packager.Included(tree, "")| && |Packager.Included(tree, "")[i].data| > 0
    requires '/' !in gameId
    requires RangeCache.UrlPathSafe(gameId) && RangeCache.UrlPathSafe(Packager.Included(tree, "")[i].path)
    ensures var files := Packager.Included(tree, "");
      var m := RangeCache.Manifest(v, ToWorker(Packager.EntriesFrom(files, 0)));
      var t := RangeCache.Intercept(vfs[gameId := RangeCache.ReadyState(gameUrl, m)], "/Games/" + gameId + "/" + files[i].path);
      t.Some? && t.value.state.v == v && t.value.state.gameUrl == gameUrl &&
      RangeServe(Packager.Blob(files), RangeCache.CoreRequest(t.value).range) == Some(files[i].data)
  {
    Packager.IncludedDistinct(tree, "");
    PackedFileServed(Packager.Included(tree, ""), i, gameId, gameUrl, v, vfs);
  }

  /** The worker maps a packed file's path to that file's manifest record. */
  lemma {:induction false} PackedFileIntercepted(files: seq<Packager.Packed>, i: nat, gameId: string, gameUrl: string, v: int,
                                                vfs: map<string, RangeCache.GameState>)
    requires i < |files|
    requires forall j :: i < j < |files| ==> files[j].path != files[i].path
    requires '/' !in gameId
    requires RangeCache.UrlPathSafe(gameId) && RangeCache.UrlPathSafe(files[i].path)
    ensures |Packager.EntriesFrom(files, 0)| == |files|
    ensures var m := RangeCache.Manifest(v, ToWorker(Packager.EntriesFrom(files, 0)));
      var t := RangeCache.Intercept(vfs[gameId := RangeCache.ReadyState(gameUrl, m)], "/Games/" + gameId + "/" + files[i].path);
      var e := Packager.EntriesFrom(files, 0)[i];
      t == Some(RangeCache.Target(gameId, files[i].path, RangeCache.ReadyState(gameUrl, m), RangeCache.FileInfo(e.o, e.s)))
  {
    var entries := Packager.EntriesFrom(files, 0);
    var sw := ToWorker(entries);
    Packager.ManifestLocatesFiles(files, i);
    forall j | i < j < |sw|
      ensures sw[j].p != sw[i].p
    {
      Packager.ManifestLocatesFiles(files, j);
    }
    RangeCache.FilesMapLastWins(sw, i);
    var m := RangeCache.Manifest(v, sw);
    RangeCache.InterceptIff(vfs[gameId := RangeCache.ReadyState(gameUrl, m)], gameId, files[i].path);
  }

  /** The range of a non-empty file's record, asked of the package, brings back the file. */
  lemma {:induction false} RangeServesRecord(files: seq<Packager.Packed>, i: nat)
    requires i < |files| && |files[i].data| > 0
    ensures |Packager.EntriesFrom(files, 0)| == |files|
    ensures var e := Packager.EntriesFrom(files, 0)[i];
      RangeServe(Packager.Blob(files), RangeCache.RangeHeader(e.o, e.s)) == Some(files[i].data)
  {
    Packager.ManifestLocatesFiles(files, i);
    Packager.EntriesAt(files, 0);
    var e := Packager.EntriesFrom(files, 0)[i];
    RangeCache.RangeHeaderRoundTrip(e.o, e.s);
  }

  /**
   * An empty packed file is never served by the range server: its header
   * either does not parse or names a last position before the first.
   */
  lemma {:induction false} EmptyFileNotServed(content: seq<Byte>, offset: nat)
    ensures RangeServe(content, RangeCache.RangeHeader(offset, 0)) == None
  {
    RangeCache.ZeroSizeRange(offset);
  }
}
