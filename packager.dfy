/**
 * The server-side packager of `extractGameZip`: it lays an extracted zip out
 * in the game directory, moves loose directories under `assets/` for engines
 * that expect them there, picks a cover image, and concatenates every file of
 * the game directory into one blob (`game.core`) described by a manifest of
 * `{p, o, s}` entries (`manifest.json`).
 *
 * The filesystem is abstract: a directory is the sequence of its entries in
 * the order `readdirSync` lists them.
 */
module Packager {
  import opened Common

  // =====================================================================
  // Zip entries and root-folder stripping

  datatype ZipEntry = ZipEntry(entryName: string, isDirectory: bool, data: seq<Byte>)

  /** One `writeFileSync(path.join(gameDir, path), data)`. */
  datatype Write = Write(path: string, data: seq<Byte>)

  /**
   * The single top folder the archive is assumed to be wrapped in: the first
   * entry's name when that entry is a directory, else the first entry's text
   * up to and including its first '/', else nothing.
   */
  function RootFolder(entries: seq<ZipEntry>): (root: string)
    ensures entries == [] ==> root == ""
    ensures entries != [] && entries[0].isDirectory ==> root == entries[0].entryName
    ensures entries != [] && !entries[0].isDirectory ==>
      (root == "" <==> '/' !in entries[0].entryName)
    ensures entries != [] && !entries[0].isDirectory && root != "" ==>
      StartsWith(entries[0].entryName, root) && root[|root| - 1] == '/' &&
      '/' !in root[..|root| - 1]
  {
    if entries == [] then ""
    else if entries[0].isDirectory then entries[0].entryName
    else
      var name := entries[0].entryName;
      var parts := Split(name, '/');
      SplitCount(name, '/');
      if |parts| > 1 then
        SplitHead(name, '/');
        assert (parts[0] + "/")[..|parts[0]|] == parts[0];
        parts[0] + "/"
      else ""
  }

  /** The target path of an entry once the root folder is taken off. */
  function StripRoot(root: string, name: string): string
  {
    if root != "" && StartsWith(name, root) then name[|root|..] else name
  }

  /** The writes the extraction loop performs, in entry order. */
  function ExtractionWrites(entries: seq<ZipEntry>, root: string): seq<Write>
  {
    if entries == [] then []
    else
      var e := entries[|entries| - 1];
      var target := StripRoot(root, e.entryName);
      ExtractionWrites(entries[..|entries| - 1], root) +
      (if e.isDirectory || target == "" then [] else [Write(target, e.data)])
  }

  /** The loop over the zip entries that writes every file under the game directory. */
  method WriteEntries(entries: seq<ZipEntry>) returns (writes: seq<Write>)
    ensures writes == ExtractionWrites(entries, RootFolder(entries))
  {
    var root := RootFolder(entries);
    writes := [];
    var i := 0;
    while i < |entries|
      invariant 0 <= i <= |entries|
      invariant writes == ExtractionWrites(entries[..i], root)
    {
      ExtractionWritesStep(entries, i, root);
      var entry := entries[i];
      if !entry.isDirectory {
        var target := entry.entryName;
        if root != "" && StartsWith(target, root) {
          target := target[|root|..];
        }
        assert target == StripRoot(root, entry.entryName);
        if target != "" {
          writes := writes + [Write(target, entry.data)];
        }
      }
      i := i + 1;
    }
    assert entries[..i] == entries;
  }

  /** One more entry adds at most its own write. */
  lemma {:induction false} ExtractionWritesStep(entries: seq<ZipEntry>, i: nat, root: string)
    requires i < |entries|
    ensures var e, target := entries[i], StripRoot(root, entries[i].entryName);
      ExtractionWrites(entries[..i + 1], root) ==
      ExtractionWrites(entries[..i], root) + (if e.isDirectory || target == "" then [] else [Write(target, e.data)])
  {
    assert entries[..i + 1][..i] == entries[..i];
  }

  /**
   * A file is written exactly when some non-directory entry has it as its
   * non-empty stripped path and it as its contents.
   */
  lemma {:induction false} WrittenIff(entries: seq<ZipEntry>, root: string, w: Write)
    ensures w in ExtractionWrites(entries, root) <==>
      exists i :: 0 <= i < |entries| && !entries[i].isDirectory &&
        StripRoot(root, entries[i].entryName) == w.path && w.path != "" && entries[i].data == w.data
    decreases |entries|
  {
    if entries != [] {
      var init := entries[..|entries| - 1];
      WrittenIff(init, root, w);
      var last := |entries| - 1;
      if w in ExtractionWrites(entries, root) && w !in ExtractionWrites(init, root) {
        assert !entries[last].isDirectory && StripRoot(root, entries[last].entryName) == w.path;
      }
      if w !in ExtractionWrites(entries, root) {
        forall i | 0 <= i < |entries|
          ensures !(!entries[i].isDirectory && StripRoot(root, entries[i].entryName) == w.path &&
                    w.path != "" && entries[i].data == w.data)
        {
          if i < last {
            assert entries[i] == init[i];
          }
        }
      } else if w in ExtractionWrites(init, root) {
        var i :| 0 <= i < |init| && !init[i].isDirectory &&
          StripRoot(root, init[i].entryName) == w.path && w.path != "" && init[i].data == w.data;
        assert entries[i] == init[i];
      }
    }
  }

  /** Directory entries and entries that strip to the empty path are never written. */
  lemma {:induction false} NothingEmptyWritten(entries: seq<ZipEntry>, root: string)
    ensures forall k :: 0 <= k < |ExtractionWrites(entries, root)| ==>
      ExtractionWrites(entries, root)[k].path != ""
    decreases |entries|
  {
    if entries != [] {
      NothingEmptyWritten(entries[..|entries| - 1], root);
    }
  }

  // =====================================================================
  // The game directory

  /** `fs.existsSync(path.join(dir, name))` for an entry of `dir`. */
  predicate HasEntry(list: seq<Node>, name: string)
  {
    exists i :: 0 <= i < |list| && list[i].name == name
  }

  // =====================================================================
  // Relocation under `assets/`

  /** The relocation runs when there is an `internal` entry but no `assets` entry. */
  predicate NeedsRelocation(list: seq<Node>)
  {
    !HasEntry(list, "assets") && HasEntry(list, "internal")
  }

  /** A top-level directory other than `src` and `assets` is moved under `assets/`. */
  predicate Moves(n: Node)
  {
    n.Dir? && n.name != "src" && n.name != "assets"
  }

  function Moved(list: seq<Node>): (r: seq<Node>)
    ensures forall k :: 0 <= k < |r| ==> Moves(r[k])
  {
    if list == [] then []
    else Moved(list[..|list| - 1]) + (if Moves(list[|list| - 1]) then [list[|list| - 1]] else [])
  }

  function Kept(list: seq<Node>): (r: seq<Node>)
    ensures forall k :: 0 <= k < |r| ==> !Moves(r[k])
  {
    if list == [] then []
    else Kept(list[..|list| - 1]) + (if Moves(list[|list| - 1]) then [] else [list[|list| - 1]])
  }

  /**
   * The game directory after relocation. The new `assets` directory is
   * placed last: where `readdirSync` lists it afterwards is up to the
   * filesystem.
   */
  function Relocated(list: seq<Node>): seq<Node>
  {
    if NeedsRelocation(list) then Kept(list) + [Dir("assets", Moved(list))] else list
  }

  /** The relocation loop over the game directory's listing. */
  method RelocateAssets(list: seq<Node>) returns (result: seq<Node>)
    ensures result == Relocated(list)
  {
    if HasEntry(list, "assets") || !HasEntry(list, "internal") {
      return list;
    }
    var kept: seq<Node> := [];
    var moved: seq<Node> := [];
    var i := 0;
    while i < |list|
      invariant 0 <= i <= |list|
      invariant kept == Kept(list[..i]) && moved == Moved(list[..i])
    {
      assert list[..i + 1][..i] == list[..i];
      var entry := list[i];
      if entry.Dir? && entry.name != "src" && entry.name != "assets" {
        moved := moved + [entry];
      } else {
        kept := kept + [entry];
      }
      i := i + 1;
    }
    assert list[..i] == list;
    result := kept + [Dir("assets", moved)];
  }

  /** Relocation neither loses nor duplicates a top-level entry. */
  lemma {:induction false} RelocationIsPartition(list: seq<Node>)
    ensures multiset(Kept(list)) + multiset(Moved(list)) == multiset(list)
    decreases |list|
  {
    if list != [] {
      var init := list[..|list| - 1];
      RelocationIsPartition(init);
      assert list == init + [list[|list| - 1]];
    }
  }

  /** After a relocation the only top-level directories are `src`s and the new `assets`. */
  lemma {:induction false} RelocatedTopLevel(list: seq<Node>)
    requires NeedsRelocation(list)
    ensures forall k :: 0 <= k < |Relocated(list)| && Relocated(list)[k].Dir? ==>
      Relocated(list)[k].name in {"src", "assets"}
    ensures HasEntry(Relocated(list), "assets")
  {
    var r := Relocated(list);
    assert r[|r| - 1].name == "assets";
    forall k | 0 <= k < |r| && r[k].Dir?
      ensures r[k].name in {"src", "assets"}
    {
      if k < |Kept(list)| {
        assert r[k] == Kept(list)[k];
        assert !Moves(Kept(list)[k]);
        assert r[k].name != "assets" ==> r[k].name == "src";
      }
    }
  }

  // =====================================================================
  // Cover image

  const ImageExtensions: seq<string> := [".jpg", ".jpeg", ".png", ".gif", ".webp"]
  const PreferredNames: seq<string> := ["cover", "thumbnail", "icon", "splash", "preview"]

  /**
   * The index `files.find(f => f.toLowerCase() === target)` stops at:
   * the first match, or `|files|` when there is none.
   */
  function FindLowered(files: seq<string>, target: string): (k: nat)
    ensures k <= |files|
  {
    if files == [] then 0
    else if Lower(files[0]) == target then 0
    else FindLowered(files[1..], target) + 1
  }

  lemma {:induction false} FindLoweredSpec(files: seq<string>, target: string)
    ensures var k := FindLowered(files, target);
      (k < |files| ==> Lower(files[k]) == target) &&
      forall j :: 0 <= j < k ==> Lower(files[j]) != target
    decreases |files|
  {
    if files != [] && Lower(files[0]) != target {
      FindLoweredSpec(files[1..], target);
      assert forall j :: 1 <= j < |files| ==> files[j] == files[1..][j - 1];
    }
  }

  /** Some file is named `target`, ignoring case. */
  predicate Hit(files: seq<string>, target: string)
  {
    FindLowered(files, target) < |files|
  }

  /** Every `name + ext`, names in the outer position. */
  function Candidates(names: seq<string>, exts: seq<string>): seq<string>
  {
    if names == [] then [] else WithExts(names[0], exts) + Candidates(names[1..], exts)
  }

  function WithExts(name: string, exts: seq<string>): (r: seq<string>)
    ensures |r| == |exts|
    ensures forall j :: 0 <= j < |exts| ==> r[j] == name + exts[j]
  {
    if exts == [] then [] else [name + exts[0]] + WithExts(name, exts[1..])
  }

  /** Candidate `i * |exts| + j` is `names[i] + exts[j]`: the order is name-major. */
  lemma {:induction false} CandidatesAt(names: seq<string>, exts: seq<string>, i: nat, j: nat)
    requires i < |names| && j < |exts|
    ensures i * |exts| + j < |Candidates(names, exts)|
    ensures Candidates(names, exts)[i * |exts| + j] == names[i] + exts[j]
  {
    MulStep(i, |exts|);
    CandidatesAtOffset(names, exts, i, j, i * |exts| + j);
  }

  lemma {:induction false} CandidatesAtOffset(names: seq<string>, exts: seq<string>, i: nat, j: nat, k: nat)
    requires i < |names| && j < |exts| && k == i * |exts| + j
    ensures k < |Candidates(names, exts)| && Candidates(names, exts)[k] == names[i] + exts[j]
    decreases i
  {
    var m := |exts|;
    var head := WithExts(names[0], exts);
    var tail := Candidates(names[1..], exts);
    assert Candidates(names, exts) == head + tail;
    if i == 0 {
      assert k == j;
    } else {
      MulStep(i - 1, m);
      CandidatesAtOffset(names[1..], exts, i - 1, j, k - m);
      AppendIndex(head, tail, k - m);
    }
  }

  lemma {:induction false} AppendIndex<T>(head: seq<T>, tail: seq<T>, k: nat)
    requires k < |tail|
    ensures (head + tail)[|head| + k] == tail[k]
  {
  }

  lemma {:induction false} MulStep(a: nat, m: nat)
    ensures a * m + m == (a + 1) * m
  {
  }

  /**
   * The file found for the first candidate any file matches: the hit of
   * candidate `k` is returned only when no earlier candidate has one.
   */
  function FirstHit(files: seq<string>, cands: seq<string>): Option<string>
  {
    if cands == [] then None
    else if Hit(files, cands[0]) then Some(files[FindLowered(files, cands[0])])
    else FirstHit(files, cands[1..])
  }

  lemma {:induction false} FirstHitSpec(files: seq<string>, cands: seq<string>)
    ensures FirstHit(files, cands).Some? ==> exists k :: (0 <= k < |cands| && Hit(files, cands[k]) &&
      FirstHit(files, cands).value == files[FindLowered(files, cands[k])] &&
      forall k' :: 0 <= k' < k ==> !Hit(files, cands[k']))
    ensures FirstHit(files, cands).None? ==> forall k :: 0 <= k < |cands| ==> !Hit(files, cands[k])
    decreases |cands|
  {
    if cands != [] && !Hit(files, cands[0]) {
      FirstHitSpec(files, cands[1..]);
      assert forall k :: 1 <= k < |cands| ==> cands[k] == cands[1..][k - 1];
      if FirstHit(files, cands).Some? {
        var k :| 0 <= k < |cands[1..]| && Hit(files, cands[1..][k]) &&
          FirstHit(files, cands).value == files[FindLowered(files, cands[1..][k])] &&
          forall k' :: 0 <= k' < k ==> !Hit(files, cands[1..][k']);
        assert Hit(files, cands[k + 1]);
      }
    }
  }

  lemma {:induction false} FirstHitAppend(files: seq<string>, a: seq<string>, b: seq<string>)
    ensures FirstHit(files, a + b) == if FirstHit(files, a).Some? then FirstHit(files, a) else FirstHit(files, b)
    decreases |a|
  {
    if a == [] {
      assert a + b == b;
    } else {
      assert (a + b)[0] == a[0];
      assert (a + b)[1..] == a[1..] + b;
      FirstHitAppend(files, a[1..], b);
    }
  }

  /** The index of the first file with one of the extensions `exts`, or `|files|`. */
  function FirstImageIndex(files: seq<string>, exts: seq<string>): (k: nat)
    ensures k <= |files|
  {
    if files == [] then 0
    else if IsImageFile(files[0], exts) then 0
    else FirstImageIndex(files[1..], exts) + 1
  }

  lemma {:induction false} FirstImageIndexSpec(files: seq<string>, exts: seq<string>)
    ensures FirstImageIndex(files, exts) < |files| ==> IsImageFile(files[FirstImageIndex(files, exts)], exts)
    ensures forall j :: 0 <= j < FirstImageIndex(files, exts) ==> !IsImageFile(files[j], exts)
    decreases |files|
  {
    if files != [] && !IsImageFile(files[0], exts) {
      var k := FirstImageIndex(files[1..], exts);
      FirstImageIndexSpec(files[1..], exts);
      if k < |files[1..]| {
        assert files[k + 1] == files[1..][k];
      }
      forall j | 1 <= j < k + 1
        ensures !IsImageFile(files[j], exts)
      {
        assert files[j] == files[1..][j - 1];
      }
    }
  }

  /**
   * What `findImage` returns for a directory listing, given its name list
   * `names` (`possibleImageNames`) and extension list `exts`
   * (`imageExtensions`); `extractGameZip` passes PreferredNames and
   * ImageExtensions.
   */
  function ImageChoice(files: seq<string>, names: seq<string>, exts: seq<string>): Option<string>
  {
    match FirstHit(files, Candidates(names, exts))
    case Some(f) => Some(f)
    case None =>
      var k := FirstImageIndex(files, exts);
      if k < |files| then Some(files[k]) else None
  }

  /**
   * `findImage` returns undefined exactly when no file matches a preferred
   * `name + ext` and no file has an image extension.
   */
  lemma {:induction false} ImageChoiceNone(files: seq<string>, names: seq<string>, exts: seq<string>)
    ensures ImageChoice(files, names, exts).None? <==>
      (forall i, j :: 0 <= i < |names| && 0 <= j < |exts| ==> !Hit(files, names[i] + exts[j])) &&
      (forall k :: 0 <= k < |files| ==> !IsImageFile(files[k], exts))
  {
    var c := Candidates(names, exts);
    match FirstHit(files, c)
    case None =>
      FirstHitSpec(files, c);
      NoCandidateHit(files, names, exts);
      FirstImageIndexSpec(files, exts);
    case Some(_) =>
      FirstHitSpec(files, c);
      var k :| 0 <= k < |c| && Hit(files, c[k]);
      var i, j := CandidateIndex(names, exts, k);
      assert Hit(files, names[i] + exts[j]);
  }

  /** No candidate matches exactly when no `names[i] + exts[j]` does. */
  lemma {:induction false} NoCandidateHit(files: seq<string>, names: seq<string>, exts: seq<string>)
    requires forall k :: 0 <= k < |Candidates(names, exts)| ==> !Hit(files, Candidates(names, exts)[k])
    ensures forall i, j :: 0 <= i < |names| && 0 <= j < |exts| ==> !Hit(files, names[i] + exts[j])
  {
    forall i, j | 0 <= i < |names| && 0 <= j < |exts|
      ensures !Hit(files, names[i] + exts[j])
    {
      CandidatesAt(names, exts, i, j);
    }
  }

  /** Every candidate is some `names[i] + exts[j]`, at position `i * |exts| + j`. */
  lemma {:induction false} CandidateIndex(names: seq<string>, exts: seq<string>, k: nat)
    returns (i: nat, j: nat)
    requires k < |Candidates(names, exts)|
    ensures i < |names| && j < |exts| && k == i * |exts| + j
    ensures Candidates(names, exts)[k] == names[i] + exts[j]
    decreases |names|
  {
    var head := WithExts(names[0], exts);
    var tail := Candidates(names[1..], exts);
    assert Candidates(names, exts) == head + tail;
    if k < |head| {
      i, j := 0, k;
    } else {
      assert (head + tail)[k] == tail[k - |head|];
      var i', j' := CandidateIndex(names[1..], exts, k - |head|);
      MulStep(i', |exts|);
      i, j := i' + 1, j';
    }
  }

  /**
   * When a file matches a preferred `name + ext`, the choice is the first
   * file matching the first such pair in name-major order.
   */
  lemma {:induction false} ImageChoicePreferred(files: seq<string>, names: seq<string>, exts: seq<string>, i: nat, j: nat)
    requires i < |names| && j < |exts|
    requires Hit(files, names[i] + exts[j])
    requires forall i', j' ::
      (0 <= i' < |names| && 0 <= j' < |exts| && (i' < i || (i' == i && j' < j))) ==>
      !Hit(files, names[i'] + exts[j'])
    ensures ImageChoice(files, names, exts) == Some(files[FindLowered(files, names[i] + exts[j])])
  {
    var c := Candidates(names, exts);
    CandidatesAt(names, exts, i, j);
    EarlierCandidatesMiss(files, names, exts, i, j);
    FirstHitAt(files, c, i * |exts| + j);
  }

  /** Every candidate before `names[i] + exts[j]` in name-major order is one of the pairs the file misses. */
  lemma {:induction false} EarlierCandidatesMiss(files: seq<string>, names: seq<string>, exts: seq<string>, i: nat, j: nat)
    requires i < |names| && j < |exts|
    requires forall i', j' ::
      (0 <= i' < |names| && 0 <= j' < |exts| && (i' < i || (i' == i && j' < j))) ==>
      !Hit(files, names[i'] + exts[j'])
    ensures i * |exts| + j < |Candidates(names, exts)|
    ensures forall k' :: 0 <= k' < i * |exts| + j ==> !Hit(files, Candidates(names, exts)[k'])
  {
    var m := |exts|;
    CandidatesAt(names, exts, i, j);
    forall k' | 0 <= k' < i * m + j
      ensures !Hit(files, Candidates(names, exts)[k'])
    {
      var i', j' := CandidateIndex(names, exts, k');
      assert i' < i || (i' == i && j' < j) by {
        if i' > i {
          MulStep(i, m);
          MulMonotone(i + 1, i', m);
        }
      }
    }
  }

  /** The first candidate some file matches decides the hit. */
  lemma {:induction false} FirstHitAt(files: seq<string>, c: seq<string>, k: nat)
    requires k < |c| && Hit(files, c[k])
    requires forall k' :: 0 <= k' < k ==> !Hit(files, c[k'])
    ensures FirstHit(files, c) == Some(files[FindLowered(files, c[k])])
  {
    assert c == c[..k] + c[k..];
    FirstHitAppend(files, c[..k], c[k..]);
    assert FirstHit(files, c[..k]).None? by {
      FirstHitSpec(files, c[..k]);
      assert forall k'' :: 0 <= k'' < k ==> c[..k][k''] == c[k''];
    }
    assert c[k..][0] == c[k];
  }

  lemma {:induction false} MulMonotone(a: nat, b: nat, m: nat)
    requires a <= b
    ensures a * m <= b * m
    decreases b - a
  {
    if a < b {
      MulMonotone(a + 1, b, m);
      MulStep(a, m);
    }
  }

  /** Names without a '.', and extensions that are a '.' and a dot-free rest. */
  predicate WellFormedCandidates(names: seq<string>, exts: seq<string>)
  {
    (forall i :: 0 <= i < |names| ==> |names[i]| > 0 && '.' !in names[i]) &&
    (forall j :: 0 <= j < |exts| ==> |exts[j]| > 0 && exts[j][0] == '.' && '.' !in exts[j][1..])
  }

  /**
   * Whatever `findImage` picks is an entry of the listing whose extension,
   * ignoring case, is one of the image extensions, also when it was found by
   * a preferred name.
   */
  lemma {:induction false} ChosenImageIsImage(files: seq<string>, names: seq<string>, exts: seq<string>)
    requires WellFormedCandidates(names, exts)
    ensures ImageChoice(files, names, exts).Some? ==>
      ImageChoice(files, names, exts).value in files && IsImageFile(ImageChoice(files, names, exts).value, exts)
  {
    var c := Candidates(names, exts);
    match FirstHit(files, c)
    case Some(f) =>
      FirstHitSpec(files, c);
      var k :| 0 <= k < |c| && Hit(files, c[k]) && f == files[FindLowered(files, c[k])];
      var i, j := CandidateIndex(names, exts, k);
      FindLoweredSpec(files, c[k]);
      assert Lower(f) == names[i] + exts[j];
      ExtNameLower(f);
      ExtNameOfJoin(names[i], exts[j]);
    case None =>
      FirstImageIndexSpec(files, exts);
  }

  /** The names and extensions `extractGameZip` searches with are well formed. */
  lemma {:induction false} CoverCandidatesWellFormed()
    ensures WellFormedCandidates(PreferredNames, ImageExtensions)
  {
    assert ".jpg"[1..] == "jpg" && ".jpeg"[1..] == "jpeg" && ".png"[1..] == "png";
    assert ".gif"[1..] == "gif" && ".webp"[1..] == "webp";
  }

  /** `findImage`: the preferred names with each extension in order, then any image file. */
  method FindImage(files: seq<string>, names: seq<string>, exts: seq<string>) returns (found: Option<string>)
    ensures found == ImageChoice(files, names, exts)
  {
    found := FindPreferred(files, names, exts);
    if found.None? {
      var k := FindAnyImage(files, exts);
      if k < |files| {
        found := Some(files[k]);
      }
    }
  }

  /** The outer loop of `findImage`: one name after the other. */
  method FindPreferred(files: seq<string>, names: seq<string>, exts: seq<string>) returns (found: Option<string>)
    ensures found == FirstHit(files, Candidates(names, exts))
  {
    var i := 0;
    while i < |names|
      invariant 0 <= i <= |names|
      invariant FirstHit(files, Candidates(names, exts)) == FirstHit(files, Candidates(names[i..], exts))
    {
      assert names[i..][1..] == names[i + 1..];
      FirstHitAppend(files, WithExts(names[i], exts), Candidates(names[i + 1..], exts));
      found := FindWithExts(files, names[i], exts);
      if found.Some? {
        return;
      }
      i := i + 1;
    }
    assert names[i..] == [];
    found := None;
  }

  /** The inner loop of `findImage`: one name with each extension. */
  method FindWithExts(files: seq<string>, name: string, exts: seq<string>) returns (found: Option<string>)
    ensures found == FirstHit(files, WithExts(name, exts))
  {
    var j := 0;
    while j < |exts|
      invariant 0 <= j <= |exts|
      invariant FirstHit(files, WithExts(name, exts)) == FirstHit(files, WithExts(name, exts[j..]))
    {
      assert exts[j..][1..] == exts[j + 1..];
      var at := FindLowered(files, name + exts[j]);
      if at < |files| {
        return Some(files[at]);
      }
      j := j + 1;
    }
    assert exts[j..] == [];
    found := None;
  }

  /** The fallback loop of `findImage`: the first file with an image extension. */
  method FindAnyImage(files: seq<string>, exts: seq<string>) returns (k: nat)
    ensures k == FirstImageIndex(files, exts)
  {
    k := 0;
    while k < |files|
      invariant 0 <= k <= |files|
      invariant FirstImageIndex(files, exts) == k + FirstImageIndex(files[k..], exts)
    {
      assert files[k..][0] == files[k] && files[k..][1..] == files[k + 1..];
      if IsImageFile(files[k], exts) {
        return;
      }
      k := k + 1;
    }
    assert files[k..] == [];
  }

  // =====================================================================
  // The package: `game.core` and `manifest.json`

  /** A file name that the packager writes itself, never packed. */
  predicate IsOutputName(name: string)
  {
    name == "manifest.json" || name == "game.core" || name == "game.pkg" || name == "game.dat"
  }

  /** `.replace(/\\/g, '/')`. */
  function Normalize(s: string): (r: string)
    ensures |r| == |s|
    ensures forall i :: 0 <= i < |s| ==> r[i] == (if s[i] == '\\' then '/' else s[i])
  {
    if s == [] then [] else Normalize(s[..|s| - 1]) + [if s[|s| - 1] == '\\' then '/' else s[|s| - 1]]
  }

  /** A packed file: its manifest path, its own name and its contents. */
  datatype Packed = Packed(path: string, name: string, data: seq<Byte>)

  /**
   * The files `generatePackage` packs from the listing `list` of the
   * directory at relative path `prefix` ("" or ending in '/'), in the order
   * it visits them: depth first, in listing order, directories recursed into
   * and the packager's own output names skipped at every depth.
   */
  function Included(list: seq<Node>, prefix: string): seq<Packed>
    decreases list
  {
    if list == [] then []
    else
      Included(list[..|list| - 1], prefix) +
      match list[|list| - 1]
      case File(name, data) =>
        if IsOutputName(name) then [] else [Packed(Normalize(prefix + name), name, data)]
      case Dir(name, children) => Included(children, prefix + name + "/")
  }

  /** The bytes of the packed files, one after the other. */
  function Blob(fs: seq<Packed>): seq<Byte>
  {
    if fs == [] then [] else Blob(fs[..|fs| - 1]) + fs[|fs| - 1].data
  }

  /** One manifest record: path, offset into the blob, size. */
  datatype Entry = Entry(p: string, o: nat, s: nat)

  datatype Manifest = Manifest(gameId: string, files: seq<Entry>, v: int)

  /** The manifest records of `fs` when the write cursor starts at `start`. */
  function EntriesFrom(fs: seq<Packed>, start: nat): seq<Entry>
  {
    if fs == [] then []
    else
      var init := fs[..|fs| - 1];
      EntriesFrom(init, start) + [Entry(fs[|fs| - 1].path, start + |Blob(init)|, |fs[|fs| - 1].data|)]
  }

  /** The sum of the sizes of some manifest records. */
  function TotalSize(es: seq<Entry>): nat
  {
    if es == [] then 0 else TotalSize(es[..|es| - 1]) + es[|es| - 1].s
  }

  /** The blob of one more file ends with that file's bytes. */
  lemma {:induction false} BlobSnoc(fs: seq<Packed>, x: Packed)
    ensures Blob(fs + [x]) == Blob(fs) + x.data
  {
    assert (fs + [x])[..|fs|] == fs;
  }

  /** The records of one more file end with that file's record. */
  lemma {:induction false} EntriesSnoc(fs: seq<Packed>, x: Packed, start: nat)
    ensures EntriesFrom(fs + [x], start) == EntriesFrom(fs, start) + [Entry(x.path, start + |Blob(fs)|, |x.data|)]
  {
    assert (fs + [x])[..|fs|] == fs;
  }

  lemma {:induction false} BlobAppend(a: seq<Packed>, b: seq<Packed>)
    ensures Blob(a + b) == Blob(a) + Blob(b)
    decreases |b|
  {
    if b == [] {
      assert a + b == a;
    } else {
      var b', x := b[..|b| - 1], b[|b| - 1];
      assert a + b == (a + b') + [x];
      assert b == b' + [x];
      BlobAppend(a, b');
      BlobSnoc(a + b', x);
      BlobSnoc(b', x);
    }
  }

  lemma {:induction false} EntriesAppend(a: seq<Packed>, b: seq<Packed>, start: nat)
    ensures EntriesFrom(a + b, start) == EntriesFrom(a, start) + EntriesFrom(b, start + |Blob(a)|)
    decreases |b|
  {
    if b == [] {
      assert a + b == a;
    } else {
      var b', x := b[..|b| - 1], b[|b| - 1];
      assert a + b == (a + b') + [x];
      assert b == b' + [x];
      EntriesAppend(a, b', start);
      BlobAppend(a, b');
      EntriesSnoc(a + b', x, start);
      EntriesSnoc(b', x, start + |Blob(a)|);
    }
  }

  /** Record `i` names file `i`, starts where the bytes of the files before it end, and has its size. */
  lemma {:induction false} EntriesAt(fs: seq<Packed>, start: nat)
    ensures |EntriesFrom(fs, start)| == |fs|
    ensures forall i :: 0 <= i < |fs| ==>
      EntriesFrom(fs, start)[i] == Entry(fs[i].path, start + |Blob(fs[..i])|, |fs[i].data|)
    decreases |fs|
  {
    if fs != [] {
      var n := |fs| - 1;
      var init, x := fs[..n], fs[n];
      EntriesAt(init, start);
      assert fs == init + [x];
      EntriesSnoc(init, x, start);
      forall i | 0 <= i < n
        ensures fs[..i] == init[..i] && fs[i] == init[i]
      {
      }
    }
  }

  /** The bytes of file `i` lie in the blob right after those of the files before it. */
  lemma {:induction false} BlobSlice(fs: seq<Packed>, i: nat)
    requires i < |fs|
    ensures var o := |Blob(fs[..i])|;
      o + |fs[i].data| <= |Blob(fs)| && Blob(fs)[o..o + |fs[i].data|] == fs[i].data
  {
    var before, after := fs[..i], fs[i + 1..];
    assert fs == before + ([fs[i]] + after);
    BlobAppend(before, [fs[i]] + after);
    BlobAppend([fs[i]], after);
    assert [fs[i]][..0] == [];
    assert Blob([fs[i]]) == fs[i].data;
    assert Blob(fs) == Blob(before) + (fs[i].data + Blob(after));
  }

  /**
   * The manifest locates every packed file: record `i` carries file `i`'s
   * path, and the blob's bytes from `o` for `s` bytes are that file's data.
   */
  lemma {:induction false} ManifestLocatesFiles(fs: seq<Packed>, i: nat)
    requires i < |fs|
    ensures |EntriesFrom(fs, 0)| == |fs|
    ensures var e := EntriesFrom(fs, 0)[i];
      e.p == fs[i].path && e.o + e.s <= |Blob(fs)| && Blob(fs)[e.o..e.o + e.s] == fs[i].data
  {
    EntriesAt(fs, 0);
    BlobSlice(fs, i);
  }

  /** The records tile the blob: each starts where the previous one ends, the first at `start`. */
  lemma {:induction false} EntriesContiguous(fs: seq<Packed>, start: nat)
    ensures var es := EntriesFrom(fs, start);
      |es| == |fs| &&
      (|es| > 0 ==> es[0].o == start) &&
      forall i :: 0 <= i < |es| - 1 ==> es[i + 1].o == es[i].o + es[i].s
  {
    var es := EntriesFrom(fs, start);
    EntriesAt(fs, start);
    if |fs| > 0 {
      assert fs[..0] == [];
    }
    forall i | 0 <= i < |es| - 1
      ensures es[i + 1].o == es[i].o + es[i].s
    {
      assert fs[..i + 1][..i] == fs[..i];
      assert fs[..i + 1][|fs[..i + 1]| - 1] == fs[i];
    }
  }

  /** The sizes in the manifest add up to the length of the blob. */
  lemma {:induction false} TotalSizeIsBlobLength(fs: seq<Packed>, start: nat)
    ensures TotalSize(EntriesFrom(fs, start)) == |Blob(fs)|
    decreases |fs|
  {
    if fs != [] {
      var init := fs[..|fs| - 1];
      TotalSizeIsBlobLength(init, start);
      var es := EntriesFrom(fs, start);
      assert es[..|es| - 1] == EntriesFrom(init, start);
    }
  }

  /** A file of the tree the packager packs, at the path it would record. */
  ghost predicate PackedFrom(list: seq<Node>, prefix: string, f: Packed)
    decreases list
  {
    exists i :: 0 <= i < |list| && PackedFromNode(list[i], prefix, f)
  }

  /** A file under one listing entry that the packager packs, at the path it would record. */
  ghost predicate PackedFromNode(x: Node, prefix: string, f: Packed)
    decreases x
  {
    match x
    case File(name, data) => !IsOutputName(name) && f == Packed(Normalize(prefix + name), name, data)
    case Dir(name, children) => PackedFrom(children, prefix + name + "/", f)
  }

  /**
   * Exactly the files of the tree that are not named like the packager's own
   * outputs are packed, each under its slash-separated path.
   */
  lemma {:induction false} IncludedIff(list: seq<Node>, prefix: string, f: Packed)
    ensures f in Included(list, prefix) <==> PackedFrom(list, prefix, f)
    decreases list
  {
    if list != [] {
      var n := |list| - 1;
      var init, x := list[..n], list[n];
      assert list == init + [x];
      IncludedIff(init, prefix, f);
      IncludedNodeIff(x, prefix, f);
      IncludedSnoc(init, x, prefix);
      PackedFromSnoc(init, x, prefix, f);
    }
  }

  lemma {:induction false} IncludedNodeIff(x: Node, prefix: string, f: Packed)
    ensures f in Included([x], prefix) <==> PackedFromNode(x, prefix, f)
    decreases x
  {
    assert [x][..0] == [];
    if x.Dir? {
      IncludedIff(x.children, prefix + x.name + "/", f);
    }
  }

  lemma {:induction false} PackedFromSnoc(init: seq<Node>, x: Node, prefix: string, f: Packed)
    ensures PackedFrom(init + [x], prefix, f) <==> PackedFrom(init, prefix, f) || PackedFromNode(x, prefix, f)
  {
    var list := init + [x];
    if PackedFrom(list, prefix, f) {
      var i :| 0 <= i < |list| && PackedFromNode(list[i], prefix, f);
      if i < |init| {
        assert list[i] == init[i];
      }
    }
    if PackedFrom(init, prefix, f) {
      var i :| 0 <= i < |init| && PackedFromNode(init[i], prefix, f);
      assert list[i] == init[i];
    }
    if PackedFromNode(x, prefix, f) {
      assert list[|init|] == x;
    }
  }

  /**
   * No packed file carries an output name, and every recorded path is
   * free of backslashes and begins with the (normalised) directory prefix.
   */
  lemma {:induction false} IncludedPaths(list: seq<Node>, prefix: string)
    ensures PathsUnder(Included(list, prefix), prefix)
    decreases list
  {
    if list != [] {
      var n := |list| - 1;
      var init, x := list[..n], list[n];
      assert list == init + [x];
      IncludedPaths(init, prefix);
      IncludedNodePaths(x, prefix);
      IncludedSnoc(init, x, prefix);
      PathsUnderAppend(Included(init, prefix), Included([x], prefix), prefix);
    }
  }

  /** No packed file carries an output name; every path is free of backslashes and begins with `Normalize(prefix)`. */
  predicate PathsUnder(fs: seq<Packed>, prefix: string)
  {
    forall k :: 0 <= k < |fs| ==>
      !IsOutputName(fs[k].name) && '\\' !in fs[k].path && StartsWith(fs[k].path, Normalize(prefix))
  }

  lemma PathsUnderAppend(a: seq<Packed>, b: seq<Packed>, prefix: string)
    requires PathsUnder(a, prefix) && PathsUnder(b, prefix)
    ensures PathsUnder(a + b, prefix)
  {
    forall k | 0 <= k < |a + b|
      ensures (a + b)[k] == if k < |a| then a[k] else b[k - |a|]
    {
    }
  }

  lemma {:induction false} IncludedNodePaths(x: Node, prefix: string)
    ensures PathsUnder(Included([x], prefix), prefix)
    decreases x
  {
    assert [x][..0] == [];
    match x
    case File(name, data) =>
      NormalizePrefix(prefix, name);
    case Dir(name, children) =>
      assert Included([x], prefix) == Included(children, prefix + name + "/");
      IncludedPaths(children, prefix + name + "/");
      PathsUnderWiden(Included(children, prefix + name + "/"), prefix, name);
  }

  /** A path under `prefix + name + "/"` is a path under `prefix`. */
  lemma PathsUnderWiden(fs: seq<Packed>, prefix: string, name: string)
    requires PathsUnder(fs, prefix + name + "/")
    ensures PathsUnder(fs, prefix)
  {
    var inner := prefix + name + "/";
    NormalizePrefix(prefix, name + "/");
    assert inner == prefix + (name + "/");
    forall k | 0 <= k < |fs|
      ensures StartsWith(fs[k].path, Normalize(prefix))
    {
      assert StartsWith(fs[k].path, Normalize(inner));
      assert fs[k].path[..|Normalize(prefix)|] == Normalize(inner)[..|Normalize(prefix)|];
    }
  }

  /** Normalising keeps no backslash and commutes with a suffix. */
  lemma {:induction false} NormalizePrefix(prefix: string, rest: string)
    ensures '\\' !in Normalize(prefix + rest)
    ensures Normalize(prefix + rest)[..|prefix|] == Normalize(prefix)
  {
    var s := prefix + rest;
    var r := Normalize(s);
    forall i | 0 <= i < |prefix|
      ensures r[..|prefix|][i] == Normalize(prefix)[i]
    {
      assert s[i] == prefix[i];
    }
  }

  /** A path without backslashes is its own normal form. */
  lemma {:induction false} NormalizePlain(s: string)
    requires '\\' !in s
    ensures Normalize(s) == s
  {
  }

  // =====================================================================
  // Distinct paths

  /**
   * The names within each listing differ, and no name holds a `/` or a
   * `\`, at every depth.
   */
  predicate WellNamed(list: seq<Node>)
    decreases list
  {
    (forall i, j :: 0 <= i < j < |list| ==> list[i].name != list[j].name) &&
    forall i :: 0 <= i < |list| ==>
      '/' !in list[i].name && '\\' !in list[i].name && (list[i].Dir? ==> WellNamed(list[i].children))
  }

  /** No two packed files record the same path. */
  predicate DistinctPaths(fs: seq<Packed>)
  {
    forall a, b :: 0 <= a < b < |fs| ==> fs[a].path != fs[b].path
  }

  /** The first path segment after `prefix`. */
  function Segment(path: string, prefix: string): string
  {
    if |prefix| <= |path| then Split(path[|prefix|..], '/')[0] else ""
  }

  /** Every path begins with `prefix`, followed by the name of one of the entries. */
  predicate FromEntries(fs: seq<Packed>, prefix: string, list: seq<Node>)
  {
    forall k :: 0 <= k < |fs| ==> StartsWith(fs[k].path, prefix) && Segment(fs[k].path, prefix) in Names(list)
  }

  /**
   * In a well-named tree whose prefix has no backslash, the packed files
   * record pairwise distinct paths, each under the name of the top-level
   * entry it comes from.
   */
  lemma {:induction false} IncludedDistinct(list: seq<Node>, prefix: string)
    requires WellNamed(list) && '\\' !in prefix
    ensures DistinctPaths(Included(list, prefix))
    ensures FromEntries(Included(list, prefix), prefix, list)
    decreases list
  {
    if list != [] {
      var n := |list| - 1;
      var init, x := list[..n], list[n];
      assert list == init + [x];
      WellNamedInit(list);
      IncludedDistinct(init, prefix);
      IncludedNodeDistinct(x, prefix);
      IncludedSnoc(init, x, prefix);
      DistinctAppend(Included(init, prefix), Included([x], prefix), prefix, init, x);
    }
  }

  /** Dropping the last entry of a well-named listing leaves it well named, and two entries of it never share a name. */
  lemma {:induction false} WellNamedInit(list: seq<Node>)
    requires WellNamed(list) && list != []
    ensures var n := |list| - 1;
      WellNamed(list[..n]) && list[n].name !in Names(list[..n]) && Names(list) == Names(list[..n]) + [list[n].name]
  {
    var n := |list| - 1;
    var init := list[..n];
    assert forall i :: 0 <= i < n ==> init[i] == list[i];
  }

  /**
   * Appending the files of entry `x` to those of the entries before it
   * keeps the paths distinct: the two parts begin with different names.
   */
  lemma {:induction false} DistinctAppend(a: seq<Packed>, b: seq<Packed>, prefix: string, init: seq<Node>, x: Node)
    requires DistinctPaths(a) && DistinctPaths(b) && FromEntries(a, prefix, init)
    requires forall k :: 0 <= k < |b| ==> StartsWith(b[k].path, prefix) && Segment(b[k].path, prefix) == x.name
    requires x.name !in Names(init)
    ensures DistinctPaths(a + b) && FromEntries(a + b, prefix, init + [x])
  {
    var list := init + [x];
    assert Names(list) == Names(init) + [x.name];
    forall p, q | 0 <= p < q < |a + b|
      ensures (a + b)[p].path != (a + b)[q].path
    {
      if q < |a| {
        assert (a + b)[p] == a[p] && (a + b)[q] == a[q];
      } else if |a| <= p {
        assert (a + b)[p] == b[p - |a|] && (a + b)[q] == b[q - |a|];
      } else {
        assert (a + b)[p] == a[p] && (a + b)[q] == b[q - |a|];
      }
    }
    forall k | 0 <= k < |a + b|
      ensures StartsWith((a + b)[k].path, prefix) && Segment((a + b)[k].path, prefix) in Names(list)
    {
      if k < |a| {
        assert (a + b)[k] == a[k];
      } else {
        assert (a + b)[k] == b[k - |a|];
      }
    }
  }

  /**
   * Without the naming condition two files can share a path: a file named
   * `a\b` at the top and the file `b` in directory `a` are both recorded as
   * `a/b`.
   */
  lemma {:induction false} BackslashCollision()
    ensures var fs := Included([File("a\\b", [1]), Dir("a", [File("b", [2])])], "");
      |fs| == 2 && fs[0].path == fs[1].path == "a/b" && fs[0].data != fs[1].data
  {
    var x, y := File("a\\b", [1]), Dir("a", [File("b", [2])]);
    IncludedSnoc([x], y, "");
    assert [x, y] == [x] + [y];
    assert [x][..0] == [] && [y][..0] == [];
    assert Normalize("" + "a\\b") == "a/b";
    IncludedSingle("a/", "b", [2]);
    assert "" + "a" + "/" == "a/" && "a/" + "b" == "a/b";
  }

  /** The files packed from one entry record distinct paths, each under `prefix + x.name`. */
  lemma {:induction false} IncludedNodeDistinct(x: Node, prefix: string)
    requires '/' !in x.name && '\\' !in x.name && '\\' !in prefix
    requires x.Dir? ==> WellNamed(x.children)
    ensures DistinctPaths(Included([x], prefix))
    ensures forall k :: 0 <= k < |Included([x], prefix)| ==>
      StartsWith(Included([x], prefix)[k].path, prefix) && Segment(Included([x], prefix)[k].path, prefix) == x.name
    decreases x
  {
    assert [x][..0] == [];
    match x
    case File(name, data) =>
      if !IsOutputName(name) {
        IncludedSingle(prefix, name, data);
        SegmentOfName(prefix, name);
      }
    case Dir(name, children) =>
      var inner := prefix + name + "/";
      var fs := Included(children, inner);
      assert Included([x], prefix) == fs;
      IncludedDistinct(children, inner);
      forall k | 0 <= k < |fs|
        ensures StartsWith(fs[k].path, prefix) && Segment(fs[k].path, prefix) == name
      {
        SegmentUnder(fs[k].path, prefix, name);
      }
  }

  /** The path `prefix + name` has `name` as its segment after `prefix`. */
  lemma {:induction false} SegmentOfName(prefix: string, name: string)
    requires '/' !in name
    ensures StartsWith(prefix + name, prefix) && Segment(prefix + name, prefix) == name
  {
    assert (prefix + name)[|prefix|..] == name;
    assert (prefix + name)[..|prefix|] == prefix;
    SplitFree(name, '/');
  }

  /** A path under directory `prefix + name + "/"` has `name` as its segment after `prefix`. */
  lemma {:induction false} SegmentUnder(path: string, prefix: string, name: string)
    requires '/' !in name && StartsWith(path, prefix + name + "/")
    ensures StartsWith(path, prefix) && Segment(path, prefix) == name
  {
    var inner := prefix + name + "/";
    assert path[..|prefix|] == inner[..|prefix|] == prefix;
    var rest := path[|inner|..];
    assert path == inner + rest;
    assert path[|prefix|..] == name + ['/'] + rest;
    SplitAround(name, rest, '/');
    SplitFree(name, '/');
  }

  /**
   * A small game: `a.txt` ("AB"), `b/c.txt` ("XYZ") and a stale
   * `manifest.json` are packed as the records `a.txt@0+2` and `b/c.txt@2+3`
   * over the blob "ABXYZ".
   */
  lemma {:induction false} PackageExample()
    ensures var root := [File("a.txt", [65, 66]), Dir("b", [File("c.txt", [88, 89, 90])]), File("manifest.json", [1])];
      EntriesFrom(Included(root, ""), 0) == [Entry("a.txt", 0, 2), Entry("b/c.txt", 2, 3)] &&
      Blob(Included(root, "")) == [65, 66, 88, 89, 90]
  {
    var pa := Packed("a.txt", "a.txt", [65, 66]);
    var pc := Packed("b/c.txt", "c.txt", [88, 89, 90]);
    IncludedExample([File("a.txt", [65, 66]), Dir("b", [File("c.txt", [88, 89, 90])]), File("manifest.json", [1])]);
    var fs := [pa, pc];
    assert fs[..1] == [pa] && [pa][..0] == [];
    assert Blob([pa]) == [65, 66];
    assert Blob(fs) == [65, 66] + [88, 89, 90];
    assert EntriesFrom([pa], 0) == [Entry("a.txt", 0, 2)];
  }

  /** The files the small game packs, in order. */
  lemma {:induction false} IncludedExample(root: seq<Node>)
    requires root == [File("a.txt", [65, 66]), Dir("b", [File("c.txt", [88, 89, 90])]), File("manifest.json", [1])]
    ensures Included(root, "") == [Packed("a.txt", "a.txt", [65, 66]), Packed("b/c.txt", "c.txt", [88, 89, 90])]
  {
    var a := File("a.txt", [65, 66]);
    var b := Dir("b", [File("c.txt", [88, 89, 90])]);
    var m := File("manifest.json", [1]);
    var pa := Packed("a.txt", "a.txt", [65, 66]);
    var pc := Packed("b/c.txt", "c.txt", [88, 89, 90]);
    ExampleParts(a, b, m);
    assert Included([a, b], "") == [pa, pc] by {
      IncludedSnoc([a], b, "");
      assert [a] + [b] == [a, b];
    }
    IncludedSnoc([a, b], m, "");
    assert [a, b] + [m] == [a, b, m];
  }

  /** The three entries of the small game, each packed on its own. */
  lemma {:induction false} ExampleParts(a: Node, b: Node, m: Node)
    requires a == File("a.txt", [65, 66]) && b == Dir("b", [File("c.txt", [88, 89, 90])])
    requires m == File("manifest.json", [1])
    ensures Included([a], "") == [Packed("a.txt", "a.txt", [65, 66])]
    ensures Included([b], "") == [Packed("b/c.txt", "c.txt", [88, 89, 90])]
    ensures Included([m], "") == []
  {
    assert Included([a], "") == [Packed("a.txt", "a.txt", [65, 66])] by {
      IncludedSingle("", "a.txt", [65, 66]);
      assert "" + "a.txt" == "a.txt";
    }
    assert Included([b], "") == [Packed("b/c.txt", "c.txt", [88, 89, 90])] by {
      IncludedSingle("b/", "c.txt", [88, 89, 90]);
      assert "" + "b" + "/" == "b/" && "b/" + "c.txt" == "b/c.txt";
      assert [b][..0] == [];
    }
    assert [m][..0] == [];
  }

  /** Packing a listing with one more entry at its end. */
  lemma {:induction false} IncludedSnoc(list: seq<Node>, x: Node, prefix: string)
    ensures Included(list + [x], prefix) == Included(list, prefix) + Included([x], prefix)
  {
    assert (list + [x])[..|list|] == list;
    assert [x][..0] == [];
  }

  /** One plain file in a listing of its own. */
  lemma {:induction false} IncludedSingle(prefix: string, name: string, data: seq<Byte>)
    requires '\\' !in prefix + name && !IsOutputName(name)
    ensures Included([File(name, data)], prefix) == [Packed(prefix + name, name, data)]
  {
    assert [File(name, data)][..0] == [];
    NormalizePlain(prefix + name);
  }

  /** The listing entries visited before index `i + 1` are those before `i`, then entry `i`. */
  lemma {:induction false} IncludedStep(list: seq<Node>, i: nat, prefix: string)
    requires i < |list|
    ensures Included(list[..i + 1], prefix) == Included(list[..i], prefix) + Included([list[i]], prefix)
  {
    assert list[..i + 1][..i] == list[..i];
    assert [list[i]][..0] == [];
  }

  /** Packing `step` after `done` extends the records and the bytes of `done` by those of `step`. */
  lemma {:induction false} WalkStep(files: seq<Entry>, blob: seq<Byte>, offset: nat, done: seq<Packed>, step: seq<Packed>,
                                    files0: seq<Entry>, offset0: nat, blob0: seq<Byte>, files': seq<Entry>, blob': seq<Byte>)
    requires files0 == files + EntriesFrom(done, offset) && offset0 == offset + |Blob(done)| && blob0 == blob + Blob(done)
    requires files' == files0 + EntriesFrom(step, offset0) && blob' == blob0 + Blob(step)
    ensures files' == files + EntriesFrom(done + step, offset)
    ensures blob' == blob + Blob(done + step)
  {
    EntriesAppend(done, step, offset);
    BlobAppend(done, step);
  }

  /**
   * `generatePackage(dir, baseDir)`: the recursive walk over a listing. The
   * closure state it updates (the `files` array, the `currentOffset` cursor
   * and the bytes sent to `pkgStream`) is threaded through as in/out values.
   */
  method GeneratePackage(list: seq<Node>, prefix: string, files: seq<Entry>, offset: nat, blob: seq<Byte>)
    returns (files': seq<Entry>, offset': nat, blob': seq<Byte>)
    ensures files' == files + EntriesFrom(Included(list, prefix), offset)
    ensures blob' == blob + Blob(Included(list, prefix))
    ensures offset' == offset + |Blob(Included(list, prefix))|
    decreases list
  {
    files', offset', blob' := files, offset, blob;
    var i := 0;
    ghost var done: seq<Packed> := [];
    assert list[..0] == [];
    while i < |list|
      invariant 0 <= i <= |list|
      invariant done == Included(list[..i], prefix)
      invariant files' == files + EntriesFrom(done, offset)
      invariant blob' == blob + Blob(done)
      invariant offset' == offset + |Blob(done)|
    {
      ghost var step := Included([list[i]], prefix);
      ghost var files0, offset0, blob0 := files', offset', blob';
      files', offset', blob' := VisitEntry(list[i], prefix, files', offset', blob');
      WalkStep(files, blob, offset, done, step, files0, offset0, blob0, files', blob');
      IncludedStep(list, i, prefix);
      done := done + step;
      i := i + 1;
    }
    assert list[..i] == list;
  }

  /** One iteration of the walk: recurse into a directory, or pack one file. */
  method VisitEntry(entry: Node, prefix: string, files: seq<Entry>, offset: nat, blob: seq<Byte>)
    returns (files': seq<Entry>, offset': nat, blob': seq<Byte>)
    ensures files' == files + EntriesFrom(Included([entry], prefix), offset)
    ensures blob' == blob + Blob(Included([entry], prefix))
    ensures offset' == offset + |Blob(Included([entry], prefix))|
    decreases entry
  {
    assert [entry][..0] == [];
    match entry {
      case Dir(name, children) =>
        assert Included([entry], prefix) == Included(children, prefix + name + "/");
        files', offset', blob' := GeneratePackage(children, prefix + name + "/", files, offset, blob);
      case File(name, data) =>
        if name != "manifest.json" && name != "game.core" && name != "game.pkg" && name != "game.dat" {
          var relativePath := Normalize(prefix + name);
          assert Included([entry], prefix) == [Packed(relativePath, name, data)];
          files' := files + [Entry(relativePath, offset, |data|)];
          blob' := blob + data;
          offset' := offset + |data|;
        } else {
          assert Included([entry], prefix) == [];
          files', offset', blob' := files, offset, blob;
        }
    }
  }

  /** Builds the package of a game directory: the manifest and the blob's bytes. */
  method BuildPackage(gameId: string, root: seq<Node>, v: int) returns (manifest: Manifest, blob: seq<Byte>)
    ensures manifest == Manifest(gameId, EntriesFrom(Included(root, ""), 0), v)
    ensures blob == Blob(Included(root, ""))
  {
    var files, cursor;
    files, cursor, blob := GeneratePackage(root, "", [], 0, []);
    manifest := Manifest(gameId, files, v);
  }

  // =====================================================================
  // `extractGameZip`

  /** What `extractGameZip` reports (the `<title>` text is not modelled). */
  datatype ExtractResult = ExtractResult(success: bool, gameDir: string, imagePath: Option<string>)

  /** The path the cover copy is published under: `/images/<gameId><ext>`. */
  function ImageUrl(gameId: string, found: string): string
  {
    "/images/" + gameId + ExtName(found)
  }

  /** Some directory of the listing is called `name` (`copyFileSync` refuses to copy it). */
  predicate IsDirNamed(list: seq<Node>, name: string)
  {
    exists i :: 0 <= i < |list| && list[i].Dir? && list[i].name == name
  }

  /**
   * `extractGameZip` on the entries of an archive. `extracted` is the game
   * directory's listing once the writes are done; `now` stands for
   * `Date.now()`. An empty archive fails before anything is written; an
   * image choice that is a directory makes the copy throw, and the
   * exception handler reports failure.
   */
  method ExtractGameZip(entries: seq<ZipEntry>, gameId: string, extracted: seq<Node>, now: int)
    returns (result: ExtractResult, writes: seq<Write>, layout: seq<Node>, manifest: Option<Manifest>, blob: seq<Byte>)
    ensures entries == [] ==> result == ExtractResult(false, "", None) && writes == [] && manifest == None
    ensures entries != [] ==> writes == ExtractionWrites(entries, RootFolder(entries)) && layout == Relocated(extracted)
    ensures entries != [] ==> match ImageChoice(Names(layout), PreferredNames, ImageExtensions)
      case Some(f) =>
        if IsDirNamed(layout, f) then result == ExtractResult(false, "", None) && manifest == None
        else (result == ExtractResult(true, "/Games/" + gameId, Some(ImageUrl(gameId, f))) &&
          manifest == Some(Manifest(gameId, EntriesFrom(Included(layout, ""), 0), now)) &&
          blob == Blob(Included(layout, "")))
      case None =>
        result == ExtractResult(true, "/Games/" + gameId, None) &&
        manifest == Some(Manifest(gameId, EntriesFrom(Included(layout, ""), 0), now)) &&
        blob == Blob(Included(layout, ""))
  {
    writes, layout, manifest, blob := [], [], None, [];
    if entries == [] {
      return ExtractResult(false, "", None), writes, layout, manifest, blob;
    }
    writes := WriteEntries(entries);
    layout := RelocateAssets(extracted);
    var found := FindImage(Names(layout), PreferredNames, ImageExtensions);
    var imagePath: Option<string> := None;
    if found.Some? {
      if IsDirNamed(layout, found.value) {
        return ExtractResult(false, "", None), writes, layout, None, [];
      }
      imagePath := Some(ImageUrl(gameId, found.value));
    }
    var m;
    m, blob := BuildPackage(gameId, layout, now);
    manifest := Some(m);
    result := ExtractResult(true, "/Games/" + gameId, imagePath);
  }

  /**
   * A successful extraction publishes a cover under `/images/<gameId>` with
   * one of the image extensions, in any case, and the package it leaves
   * locates every packed file.
   */
  lemma {:induction false} ExtractedCoverIsImage(files: seq<string>, gameId: string)
    ensures ImageChoice(files, PreferredNames, ImageExtensions).Some? ==>
      var f := ImageChoice(files, PreferredNames, ImageExtensions).value;
      f in files && StartsWith(ImageUrl(gameId, f), "/images/" + gameId) &&
      Lower(ExtName(f)) in ImageExtensions
  {
    CoverCandidatesWellFormed();
    ChosenImageIsImage(files, PreferredNames, ImageExtensions);
    if ImageChoice(files, PreferredNames, ImageExtensions).Some? {
      var f := ImageChoice(files, PreferredNames, ImageExtensions).value;
      assert ImageUrl(gameId, f)[..|"/images/" + gameId|] == "/images/" + gameId;
    }
  }
}
