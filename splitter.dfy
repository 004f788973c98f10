/**
 * The browser side of a chunked upload (`gameService.upload`): a file of
 * more than one chunk's worth of bytes is cut into 5 MiB slices that are
 * sent in index order under one upload id, each followed by a progress
 * report, and then one merge request names that id, the file's name, the
 * number of chunks and the form's fields; a smaller file goes up in a
 * single request.
 *
 * The requests are modelled as the sequence of calls the loop makes; the
 * `await`s between them, and the network, are not modelled. The upload id
 * (`Date.now()` and `Math.random()` in the browser) is a parameter.
 */
module Splitter {
  import opened Common

  const ChunkSize: nat := 5 * 1024 * 1024

  /** `Math.ceil(size / CHUNK_SIZE)`. */
  function TotalChunks(size: nat): (n: nat)
    ensures size == 0 <==> n == 0
    ensures n > 0 ==> (n - 1) * ChunkSize < size <= n * ChunkSize
  {
    (size + ChunkSize - 1) / ChunkSize
  }

  function Min(a: int, b: int): int
  {
    if a <= b then a else b
  }

  /** `file.slice(i * CHUNK_SIZE, Math.min(file.size, i * CHUNK_SIZE + CHUNK_SIZE))`. */
  function Slice(file: seq<Byte>, i: nat): seq<Byte>
    requires i * ChunkSize <= |file|
  {
    file[i * ChunkSize..Min(|file|, i * ChunkSize + ChunkSize)]
  }

  /** The `data` argument of `upload`: the game's name and the optional fields. */
  datatype Form = Form(name: string, gameId: Option<string>, pinned: Option<bool>, open: Option<bool>)

  /** One request of the upload, or one progress callback. */
  datatype Call =
    | Single(file: seq<Byte>, form: Form)                          // POST /games/upload
    | Chunk(uploadId: string, index: nat, data: seq<Byte>)          // POST /games/upload-chunk, `chunkIndex` = String(index)
    | Progress(percent: int)                                       // onProgress(percent)
    | Merge(uploadId: string, fileName: string, totalChunks: nat, form: Form) // POST /games/upload-merge

  /** `Math.round(((i + 1) / totalChunks) * 100)`, in exact arithmetic (halves round up). */
  function Percent(i: nat, n: nat): int
    requires n > 0
  {
    ((i + 1) * 200 + n) / (2 * n)
  }

  /** The calls of the first `k` iterations of the chunk loop. */
  function ChunkCalls(file: seq<Byte>, uploadId: string, k: nat, withProgress: bool): seq<Call>
    requires k <= TotalChunks(|file|)
  {
    if k == 0 then []
    else
      ChunkCalls(file, uploadId, k - 1, withProgress) + [Chunk(uploadId, k - 1, Slice(file, k - 1))] +
      (if withProgress then [Progress(Percent(k - 1, TotalChunks(|file|)))] else [])
  }

  /** Everything `upload` does, in order. */
  function UploadCalls(file: seq<Byte>, fileName: string, form: Form, uploadId: string, withProgress: bool): seq<Call>
  {
    var n := TotalChunks(|file|);
    if n <= 1 then [Single(file, form)] else ChunkCalls(file, uploadId, n, withProgress) + [Merge(uploadId, fileName, n, form)]
  }

  /** `gameService.upload(file, data, onProgress)`; `withProgress` says whether `onProgress` is given. */
  method Upload(file: seq<Byte>, fileName: string, form: Form, uploadId: string, withProgress: bool) returns (calls: seq<Call>)
    ensures calls == UploadCalls(file, fileName, form, uploadId, withProgress)
  {
    var totalChunks := (|file| + ChunkSize - 1) / ChunkSize;
    if totalChunks <= 1 {
      return [Single(file, form)];
    }
    calls := [];
    var i := 0;
    while i < totalChunks
      invariant 0 <= i <= totalChunks
      invariant calls == ChunkCalls(file, uploadId, i, withProgress)
    {
      var start := i * ChunkSize;
      var end := Min(|file|, start + ChunkSize);
      calls := calls + [Chunk(uploadId, i, file[start..end])];
      if withProgress {
        calls := calls + [Progress(((i + 1) * 200 + totalChunks) / (2 * totalChunks))];
      }
      i := i + 1;
    }
    calls := calls + [Merge(uploadId, fileName, totalChunks, form)];
  }

  // =====================================================================
  // What the calls carry

  /** The bytes of the chunk calls, in order. */
  function ChunkData(calls: seq<Call>): seq<seq<Byte>>
  {
    if calls == [] then []
    else
      var last := calls[|calls| - 1];
      ChunkData(calls[..|calls| - 1]) + (if last.Chunk? then [last.data] else [])
  }

  /** The indices of the chunk calls, in order. */
  function ChunkIndices(calls: seq<Call>): seq<nat>
  {
    if calls == [] then []
    else
      var last := calls[|calls| - 1];
      ChunkIndices(calls[..|calls| - 1]) + (if last.Chunk? then [last.index] else [])
  }

  /** The reported percentages, in order. */
  function ProgressValues(calls: seq<Call>): seq<int>
  {
    if calls == [] then []
    else
      var last := calls[|calls| - 1];
      ProgressValues(calls[..|calls| - 1]) + (if last.Progress? then [last.percent] else [])
  }

  /** The `totalChunks` of the merge calls, in order. */
  function MergeCounts(calls: seq<Call>): seq<nat>
  {
    if calls == [] then []
    else
      var last := calls[|calls| - 1];
      MergeCounts(calls[..|calls| - 1]) + (if last.Merge? then [last.totalChunks] else [])
  }

  lemma {:induction false} FiltersAppend(a: seq<Call>, c: Call)
    ensures ChunkData(a + [c]) == ChunkData(a) + (if c.Chunk? then [c.data] else [])
    ensures ChunkIndices(a + [c]) == ChunkIndices(a) + (if c.Chunk? then [c.index] else [])
    ensures ProgressValues(a + [c]) == ProgressValues(a) + (if c.Progress? then [c.percent] else [])
    ensures MergeCounts(a + [c]) == MergeCounts(a) + (if c.Merge? then [c.totalChunks] else [])
  {
    assert (a + [c])[..|a|] == a;
  }

  /** The slices of chunks `0 .. k - 1`. */
  function Slices(file: seq<Byte>, k: nat): (r: seq<seq<Byte>>)
    requires k <= TotalChunks(|file|)
    ensures |r| == k
  {
    if k == 0 then [] else Slices(file, k - 1) + [Slice(file, k - 1)]
  }

  /** What iteration `k - 1` adds to each of the filtered views. */
  lemma {:induction false} ChunkCallsStep(file: seq<Byte>, uploadId: string, k: nat, withProgress: bool)
    requires 0 < k <= TotalChunks(|file|)
    ensures var prev, now := ChunkCalls(file, uploadId, k - 1, withProgress), ChunkCalls(file, uploadId, k, withProgress);
      ChunkData(now) == ChunkData(prev) + [Slice(file, k - 1)] &&
      ChunkIndices(now) == ChunkIndices(prev) + [k - 1] &&
      MergeCounts(now) == MergeCounts(prev) &&
      ProgressValues(now) == ProgressValues(prev) +
        (if withProgress then [Percent(k - 1, TotalChunks(|file|))] else [])
  {
    var prev := ChunkCalls(file, uploadId, k - 1, withProgress);
    var c := Chunk(uploadId, k - 1, Slice(file, k - 1));
    FiltersAppend(prev, c);
    if withProgress {
      var pr := Progress(Percent(k - 1, TotalChunks(|file|)));
      assert ChunkCalls(file, uploadId, k, withProgress) == (prev + [c]) + [pr];
      FiltersAppend(prev + [c], pr);
    } else {
      assert ChunkCalls(file, uploadId, k, withProgress) == prev + [c];
    }
  }

  /** The chunk calls of the first `k` iterations carry slices `0 .. k - 1`. */
  lemma {:induction false} ChunkCallsData(file: seq<Byte>, uploadId: string, k: nat, withProgress: bool)
    requires k <= TotalChunks(|file|)
    ensures ChunkData(ChunkCalls(file, uploadId, k, withProgress)) == Slices(file, k)
  {
    if k > 0 {
      ChunkCallsData(file, uploadId, k - 1, withProgress);
      ChunkCallsStep(file, uploadId, k, withProgress);
    }
  }

  /** The first `k` iterations send chunks `0 .. k - 1`, in that order. */
  lemma {:induction false} ChunkCallsIndices(file: seq<Byte>, uploadId: string, k: nat, withProgress: bool)
    requires k <= TotalChunks(|file|)
    ensures var ix := ChunkIndices(ChunkCalls(file, uploadId, k, withProgress));
      |ix| == k && forall j :: 0 <= j < k ==> ix[j] == j
  {
    if k > 0 {
      ChunkCallsIndices(file, uploadId, k - 1, withProgress);
      ChunkCallsStep(file, uploadId, k, withProgress);
    }
  }

  /** The chunk loop makes no merge call. */
  lemma {:induction false} ChunkCallsNoMerge(file: seq<Byte>, uploadId: string, k: nat, withProgress: bool)
    requires k <= TotalChunks(|file|)
    ensures MergeCounts(ChunkCalls(file, uploadId, k, withProgress)) == []
  {
    if k > 0 {
      ChunkCallsNoMerge(file, uploadId, k - 1, withProgress);
      ChunkCallsStep(file, uploadId, k, withProgress);
    }
  }

  /** Every chunk call among the calls names upload `uploadId`. */
  predicate SameUpload(calls: seq<Call>, uploadId: string)
  {
    forall j :: 0 <= j < |calls| && calls[j].Chunk? ==> calls[j].uploadId == uploadId
  }

  /** Every chunk request of the loop carries the upload's id. */
  lemma {:induction false} ChunkCallsIds(file: seq<Byte>, uploadId: string, k: nat, withProgress: bool)
    requires k <= TotalChunks(|file|)
    ensures SameUpload(ChunkCalls(file, uploadId, k, withProgress), uploadId)
  {
    if k > 0 {
      ChunkCallsIds(file, uploadId, k - 1, withProgress);
      var prev := ChunkCalls(file, uploadId, k - 1, withProgress);
      var calls := ChunkCalls(file, uploadId, k, withProgress);
      var c := Chunk(uploadId, k - 1, Slice(file, k - 1));
      var q := if withProgress then [Progress(Percent(k - 1, TotalChunks(|file|)))] else [];
      assert calls == prev + [c] + q;
      forall j | 0 <= j < |calls|
        ensures calls[j].Chunk? ==> calls[j].uploadId == uploadId
      {
        if j < |prev| {
          assert calls[j] == prev[j];
        } else if j == |prev| {
          assert calls[j] == c;
        } else {
          assert calls[j] == q[0];
        }
      }
    }
  }

  /** With a callback, iteration `j` reports `Percent(j, N)`; without one nothing is reported. */
  lemma {:induction false} ChunkCallsProgress(file: seq<Byte>, uploadId: string, k: nat, withProgress: bool)
    requires k <= TotalChunks(|file|)
    ensures var p := ProgressValues(ChunkCalls(file, uploadId, k, withProgress));
      if withProgress then |p| == k && forall j :: 0 <= j < k ==> p[j] == Percent(j, TotalChunks(|file|))
      else p == []
  {
    if k > 0 {
      ChunkCallsProgress(file, uploadId, k - 1, withProgress);
      ChunkCallsStep(file, uploadId, k, withProgress);
    }
  }

  // =====================================================================
  // Tiling

  /** The first `k` slices spell out the file up to the end of slice `k - 1`. */
  lemma {:induction false} SlicesPrefix(file: seq<Byte>, k: nat)
    requires k <= TotalChunks(|file|)
    ensures Concat(Slices(file, k)) == file[..Min(|file|, k * ChunkSize)]
  {
    if k > 0 {
      SlicesPrefix(file, k - 1);
      var n := TotalChunks(|file|);
      assert (k - 1) * ChunkSize < |file| by {
        MulLe(k - 1, n - 1, ChunkSize);
      }
      var s := Slices(file, k);
      assert s[..k - 1] == Slices(file, k - 1);
      assert file[..(k - 1) * ChunkSize] + Slice(file, k - 1) == file[..Min(|file|, k * ChunkSize)];
    }
  }

  lemma {:induction false} MulLe(a: nat, b: nat, c: nat)
    requires a <= b
    ensures a * c <= b * c
  {
  }

  /**
   * The chunks tile the file: their concatenation is the file, none is
   * empty, and each but the last holds exactly CHUNK_SIZE bytes.
   */
  lemma {:induction false} SlicesTile(file: seq<Byte>)
    ensures var n := TotalChunks(|file|);
      Concat(Slices(file, n)) == file &&
      (forall i :: 0 <= i < n ==> |Slices(file, n)[i]| > 0) &&
      (forall i :: 0 <= i < n - 1 ==> |Slices(file, n)[i]| == ChunkSize)
  {
    var n := TotalChunks(|file|);
    SlicesPrefix(file, n);
    forall i | 0 <= i < n
      ensures Slices(file, n)[i] == Slice(file, i)
      ensures |Slice(file, i)| > 0
      ensures i < n - 1 ==> |Slice(file, i)| == ChunkSize
    {
      SlicesAt(file, n, i);
      MulLe(i, n - 1, ChunkSize);
      if i < n - 1 {
        MulLe(i + 1, n - 1, ChunkSize);
      }
    }
  }

  lemma {:induction false} SlicesAt(file: seq<Byte>, k: nat, i: nat)
    requires k <= TotalChunks(|file|) && i < k
    ensures Slices(file, k)[i] == Slice(file, i)
  {
    if i < k - 1 {
      SlicesAt(file, k - 1, i);
    }
  }

  // =====================================================================
  // The whole upload

  /** A file of at most one chunk goes up in one request, and no chunk or merge call is made. */
  lemma {:induction false} SmallFileSingleRequest(file: seq<Byte>, fileName: string, form: Form, uploadId: string, withProgress: bool)
    ensures TotalChunks(|file|) <= 1 <==> |file| <= ChunkSize
    ensures |file| <= ChunkSize ==> UploadCalls(file, fileName, form, uploadId, withProgress) == [Single(file, form)]
  {
  }

  /**
   * A larger file is sent as chunks `0 .. N - 1` in order, whose bytes tile
   * the file and which all carry the upload's id, followed by exactly one
   * merge with `totalChunks = N`, the same id, the file's name and the form's
   * fields, which is the last call.
   */
  lemma {:induction false} ChunkedUpload(file: seq<Byte>, fileName: string, form: Form, uploadId: string, withProgress: bool)
    requires |file| > ChunkSize
    ensures var n, calls := TotalChunks(|file|), UploadCalls(file, fileName, form, uploadId, withProgress);
      n > 1 &&
      |ChunkIndices(calls)| == n && (forall j :: 0 <= j < n ==> ChunkIndices(calls)[j] == j) &&
      Concat(ChunkData(calls)) == file &&
      SameUpload(calls, uploadId) &&
      MergeCounts(calls) == [n] && calls[|calls| - 1] == Merge(uploadId, fileName, n, form)
  {
    var n := TotalChunks(|file|);
    var body := ChunkCalls(file, uploadId, n, withProgress);
    assert UploadCalls(file, fileName, form, uploadId, withProgress) == body + [Merge(uploadId, fileName, n, form)];
    ChunkCallsData(file, uploadId, n, withProgress);
    ChunkCallsIndices(file, uploadId, n, withProgress);
    ChunkCallsNoMerge(file, uploadId, n, withProgress);
    ChunkCallsIds(file, uploadId, n, withProgress);
    FiltersAppend(body, Merge(uploadId, fileName, n, form));
    assert ChunkData(UploadCalls(file, fileName, form, uploadId, withProgress)) == Slices(file, n);
    SlicesTile(file);
  }

  /**
   * With a progress callback the reports never go down, there is one per
   * chunk, and the last one is 100.
   */
  lemma {:induction false} ProgressReports(file: seq<Byte>, fileName: string, form: Form, uploadId: string)
    requires |file| > ChunkSize
    ensures var n, p := TotalChunks(|file|), ProgressValues(UploadCalls(file, fileName, form, uploadId, true));
      |p| == n && p[n - 1] == 100 &&
      (forall a, b :: 0 <= a <= b < n ==> p[a] <= p[b]) &&
      forall a :: 0 <= a < n ==> 0 <= p[a] <= 100
  {
    var n := TotalChunks(|file|);
    var body := ChunkCalls(file, uploadId, n, true);
    assert UploadCalls(file, fileName, form, uploadId, true) == body + [Merge(uploadId, fileName, n, form)];
    ChunkCallsProgress(file, uploadId, n, true);
    FiltersAppend(body, Merge(uploadId, fileName, n, form));
    PercentLast(n);
    PercentMonotone(n);
  }

  /** The percentages go up with the index and stay within 0 .. 100. */
  lemma {:induction false} PercentMonotone(n: nat)
    requires n > 0
    ensures forall a, b :: 0 <= a <= b < n ==> Percent(a, n) <= Percent(b, n)
    ensures forall a :: 0 <= a < n ==> 0 <= Percent(a, n) <= 100
  {
    PercentLast(n);
    forall a, b | 0 <= a <= b < n
      ensures Percent(a, n) <= Percent(b, n)
    {
      DivMonotone((a + 1) * 200 + n, (b + 1) * 200 + n, 2 * n);
    }
    forall a | 0 <= a < n
      ensures Percent(a, n) <= 100
    {
      DivMonotone((a + 1) * 200 + n, (n - 1 + 1) * 200 + n, 2 * n);
    }
  }

  /** The report after the last chunk is exactly 100. */
  lemma {:induction false} PercentLast(n: nat)
    requires n > 0
    ensures Percent(n - 1, n) == 100
  {
    assert (n - 1 + 1) * 200 + n == 100 * (2 * n) + n;
    DivUnique(100 * (2 * n) + n, 2 * n, 100, n);
  }

  /** Integer division is determined by a quotient and a remainder in range. */
  lemma {:induction false} DivUnique(a: int, d: int, q: int, r: int)
    requires d > 0 && a == d * q + r && 0 <= r < d
    ensures a / d == q
  {
    var q', r' := a / d, a % d;
    assert a == d * q' + r';
    if q' > q {
      MulStep(d, q, q');
    } else if q' < q {
      MulStep(d, q', q);
    }
  }

  lemma {:induction false} MulStep(d: int, lo: int, hi: int)
    requires d > 0 && lo < hi
    ensures d * lo + d <= d * hi
  {
    assert d * hi - d * lo == d * (hi - lo);
    MulAtLeast(d, hi - lo);
  }

  lemma {:induction false} MulAtLeast(d: int, k: int)
    requires d > 0 && k >= 1
    ensures d * k >= d
  {
  }

  /** Dividing by a positive number keeps the order. */
  lemma {:induction false} DivMonotone(a: int, b: int, d: int)
    requires a <= b && d > 0
    ensures a / d <= b / d
  {
    var qa, qb := a / d, b / d;
    assert a == d * qa + a % d && b == d * qb + b % d;
    if qa > qb {
      MulStep(d, qb, qa);
    }
  }
}
