/**
 * The bulk packaging script (`sync_games.js`): for each game folder it
 * looks, at most three levels down, for the first directory that lists
 * `index.html`, classifies its engine from the names beside it, picks a
 * cover among the image files by a loose name match, and plans a zip of
 * that directory named after the folder.
 *
 * The directory trees and listings are values given in `readdirSync`
 * order; writing the zips is not modelled.
 */
module SyncGames {
  import opened Common

  // =====================================================================
  // Engine classification

  datatype Engine = StandardH5 | CocosCreator | CocosLayaGeneric

  /** The `type` chosen from the names beside `index.html`. */
  function Classify(files: seq<string>): Engine
  {
    if "assets" in files && ("cocos-js" in files || "src" in files) then CocosCreator
    else if "main.js" in files && "src" in files then CocosLayaGeneric
    else StandardH5
  }

  /**
   * Each engine is recognised by exactly its own markers, and the Cocos
   * Creator markers win over the generic ones when both are present.
   */
  lemma {:induction false} ClassifySpec(files: seq<string>)
    ensures Classify(files) == CocosCreator <==> "assets" in files && ("cocos-js" in files || "src" in files)
    ensures Classify(files) == CocosLayaGeneric <==>
      !("assets" in files && "cocos-js" in files) && "assets" !in files && "main.js" in files && "src" in files
    ensures Classify(files) == StandardH5 <==>
      !("assets" in files && ("cocos-js" in files || "src" in files)) && !("main.js" in files && "src" in files)
  {
  }

  /** The classification looks only at which names occur, not at their order or repetition. */
  lemma {:induction false} ClassifyBySet(a: seq<string>, b: seq<string>)
    requires forall x :: x in a <==> x in b
    ensures Classify(a) == Classify(b)
  {
  }

  // =====================================================================
  // The search for the game root

  const MaxDepth: nat := 3

  /** What `search` returns: the directory (as names below the start) and its engine. */
  datatype Found = Found(root: seq<string>, engine: Engine)

  /** `search(currentDir, depth)` for a directory with this listing, reached by `path`. */
  function Search(children: seq<Node>, path: seq<string>, depth: nat): Option<Found>
    decreases MaxDepth + 1 - depth, 1
  {
    if depth > MaxDepth then None
    else if "index.html" in Names(children) then Some(Found(path, Classify(Names(children))))
    else SearchFrom(children, 0, path, depth)
  }

  /** The `for` loop of `search` from entry `i` on: the first sub-directory whose search finds something. */
  function SearchFrom(children: seq<Node>, i: nat, path: seq<string>, depth: nat): Option<Found>
    requires depth <= MaxDepth
    decreases MaxDepth + 1 - depth, 0, |children| - i
  {
    if i >= |children| then None
    else
      var res := if children[i].Dir? then Search(children[i].children, path + [children[i].name], depth + 1) else None;
      if res.Some? then res else SearchFrom(children, i + 1, path, depth)
  }

  /** One directory met by the search: how it is reached, and its listing. */
  datatype Visit = Visit(path: seq<string>, listing: seq<string>)

  /** Every directory within the depth limit, in pre-order over the listings: the reference order. */
  function Dirs(children: seq<Node>, path: seq<string>, depth: nat): seq<Visit>
    decreases MaxDepth + 1 - depth, 1
  {
    if depth > MaxDepth then []
    else [Visit(path, Names(children))] + DirsFrom(children, 0, path, depth)
  }

  function DirsFrom(children: seq<Node>, i: nat, path: seq<string>, depth: nat): seq<Visit>
    requires depth <= MaxDepth
    decreases MaxDepth + 1 - depth, 0, |children| - i
  {
    if i >= |children| then []
    else
      (if children[i].Dir? then Dirs(children[i].children, path + [children[i].name], depth + 1) else []) +
      DirsFrom(children, i + 1, path, depth)
  }

  /** The first visit whose listing holds `index.html`. */
  function FirstIndexed(visits: seq<Visit>): Option<Visit>
  {
    if visits == [] then None
    else if "index.html" in visits[0].listing then Some(visits[0])
    else FirstIndexed(visits[1..])
  }

  function AsFound(v: Option<Visit>): Option<Found>
  {
    match v
    case None => None
    case Some(visit) => Some(Found(visit.path, Classify(visit.listing)))
  }

  lemma {:induction false} FirstIndexedAppend(a: seq<Visit>, b: seq<Visit>)
    ensures FirstIndexed(a + b) == if FirstIndexed(a).Some? then FirstIndexed(a) else FirstIndexed(b)
    decreases |a|
  {
    if a == [] {
      assert a + b == b;
    } else {
      assert (a + b)[0] == a[0];
      assert (a + b)[1..] == a[1..] + b;
      FirstIndexedAppend(a[1..], b);
    }
  }

  /** The first visit with `index.html` is one, and none before it has it; without one, no visit has it. */
  lemma {:induction false} FirstIndexedSpec(visits: seq<Visit>)
    ensures match FirstIndexed(visits)
      case Some(v) => exists k :: (0 <= k < |visits| && visits[k] == v && "index.html" in v.listing &&
        forall j :: 0 <= j < k ==> "index.html" !in visits[j].listing)
      case None => forall k :: 0 <= k < |visits| ==> "index.html" !in visits[k].listing
    decreases |visits|
  {
    if visits != [] && "index.html" !in visits[0].listing {
      FirstIndexedSpec(visits[1..]);
      match FirstIndexed(visits[1..])
      case Some(v) =>
        var k :| 0 <= k < |visits[1..]| && visits[1..][k] == v && "index.html" in v.listing &&
          forall j :: 0 <= j < k ==> "index.html" !in visits[1..][j].listing;
        assert visits[k + 1] == v;
        forall j | 0 <= j < k + 1
          ensures "index.html" !in visits[j].listing
        {
          if j > 0 {
            assert visits[j] == visits[1..][j - 1];
          }
        }
      case None =>
        forall k | 0 <= k < |visits|
          ensures "index.html" !in visits[k].listing
        {
          if k > 0 {
            assert visits[k] == visits[1..][k - 1];
          }
        }
    }
  }

  /** The search returns the first directory, in pre-order, that lists `index.html`. */
  lemma {:induction false} SearchIsFirst(children: seq<Node>, path: seq<string>, depth: nat)
    ensures Search(children, path, depth) == AsFound(FirstIndexed(Dirs(children, path, depth)))
    decreases MaxDepth + 1 - depth, 1
  {
    if depth <= MaxDepth {
      var here := [Visit(path, Names(children))];
      FirstIndexedAppend(here, DirsFrom(children, 0, path, depth));
      assert here[1..] == [];
      if "index.html" !in Names(children) {
        SearchFromIsFirst(children, 0, path, depth);
      }
    }
  }

  lemma {:induction false} SearchFromIsFirst(children: seq<Node>, i: nat, path: seq<string>, depth: nat)
    requires depth <= MaxDepth
    ensures SearchFrom(children, i, path, depth) == AsFound(FirstIndexed(DirsFrom(children, i, path, depth)))
    decreases MaxDepth + 1 - depth, 0, |children| - i
  {
    if i < |children| {
      var sub := if children[i].Dir? then Dirs(children[i].children, path + [children[i].name], depth + 1) else [];
      FirstIndexedAppend(sub, DirsFrom(children, i + 1, path, depth));
      if children[i].Dir? {
        SearchIsFirst(children[i].children, path + [children[i].name], depth + 1);
      }
      SearchFromIsFirst(children, i + 1, path, depth);
    }
  }

  /** Every directory the search can meet lies below its start, at most `MaxDepth - depth` levels down. */
  lemma {:induction false} DirsDepth(children: seq<Node>, path: seq<string>, depth: nat)
    ensures forall k :: 0 <= k < |Dirs(children, path, depth)| ==>
      var v := Dirs(children, path, depth)[k];
      |path| <= |v.path| <= |path| + MaxDepth - depth && v.path[..|path|] == path
    decreases MaxDepth + 1 - depth, 1
  {
    if depth <= MaxDepth {
      DirsFromDepth(children, 0, path, depth);
    }
  }

  lemma {:induction false} DirsFromDepth(children: seq<Node>, i: nat, path: seq<string>, depth: nat)
    requires depth <= MaxDepth
    ensures forall k :: 0 <= k < |DirsFrom(children, i, path, depth)| ==>
      var v := DirsFrom(children, i, path, depth)[k];
      |path| <= |v.path| <= |path| + MaxDepth - depth && v.path[..|path|] == path
    decreases MaxDepth + 1 - depth, 0, |children| - i
  {
    if i < |children| {
      DirsFromDepth(children, i + 1, path, depth);
      if children[i].Dir? {
        var down := path + [children[i].name];
        DirsDepth(children[i].children, down, depth + 1);
        assert down[..|path|] == path;
        var sub := Dirs(children[i].children, down, depth + 1);
        var rest := DirsFrom(children, i + 1, path, depth);
        forall k | 0 <= k < |sub|
          ensures |path| <= |sub[k].path| <= |path| + MaxDepth - depth && sub[k].path[..|path|] == path
        {
          assert sub[k].path[..|down|] == down;
          assert sub[k].path[..|path|] == down[..|path|];
        }
        assert DirsFrom(children, i, path, depth) == sub + rest;
      }
    }
  }

  // =====================================================================
  // `analyzeStructure`

  datatype Analysis = Invalid | Valid(actualRoot: seq<string>, engine: Engine)

  /** `analyzeStructure(dir)` for a directory with this listing. */
  function Analyze(dir: seq<Node>): Analysis
  {
    match Search(dir, [], 0)
    case None => Invalid
    case Some(found) => Valid(found.root, found.engine)
  }

  /**
   * The analysis is valid exactly when some directory at most three levels
   * down lists `index.html`; the root it names is the first such directory
   * in pre-order, no deeper than three levels, and its engine is that
   * directory's classification.
   */
  lemma {:induction false} AnalyzeSpec(dir: seq<Node>)
    ensures var visits := Dirs(dir, [], 0);
      Analyze(dir).Valid? <==> exists k :: 0 <= k < |visits| && "index.html" in visits[k].listing
    ensures var visits := Dirs(dir, [], 0);
      Analyze(dir).Valid? ==> exists k :: (0 <= k < |visits| &&
        visits[k].path == Analyze(dir).actualRoot && "index.html" in visits[k].listing &&
        Analyze(dir).engine == Classify(visits[k].listing) &&
        (forall j :: 0 <= j < k ==> "index.html" !in visits[j].listing))
    ensures Analyze(dir).Valid? ==> |Analyze(dir).actualRoot| <= MaxDepth
  {
    var visits := Dirs(dir, [], 0);
    SearchIsFirst(dir, [], 0);
    FirstIndexedSpec(visits);
    DirsDepth(dir, [], 0);
  }

  /** A folder that itself lists `index.html` is its own root; its sub-directories are not searched. */
  lemma {:induction false} RootListsIndex(dir: seq<Node>)
    requires "index.html" in Names(dir)
    ensures Analyze(dir) == Valid([], Classify(Names(dir)))
  {
  }

  // =====================================================================
  // Cover images

  const CoverExtensions: seq<string> := [".jpg", ".jpeg", ".png", ".webp"]

  /** The `filter` over the image directory's listing. */
  function FilterImages(files: seq<string>): seq<string>
  {
    if files == [] then []
    else
      var last := files[|files| - 1];
      FilterImages(files[..|files| - 1]) + (if IsImageFile(last, CoverExtensions) then [last] else [])
  }

  /** The filter keeps exactly the files with a cover extension. */
  lemma {:induction false} FilterImagesSpec(files: seq<string>)
    ensures forall f :: f in FilterImages(files) <==> f in files && IsImageFile(f, CoverExtensions)
    ensures |FilterImages(files)| <= |files|
  {
    if files != [] {
      var n := |files| - 1;
      FilterImagesSpec(files[..n]);
      assert files == files[..n] + [files[n]];
    }
  }

  /**
   * The filter keeps listing order: filtering a listing in two parts gives
   * the kept files of the first part, then those of the second.
   */
  lemma {:induction false} FilterImagesAppend(a: seq<string>, b: seq<string>)
    ensures FilterImages(a + b) == FilterImages(a) + FilterImages(b)
    decreases |b|
  {
    if b == [] {
      assert a + b == a;
    } else {
      var init, x := b[..|b| - 1], b[|b| - 1];
      FilterImagesAppend(a, init);
      assert b == init + [x];
      FilterImagesAppendStep(a, init, x);
    }
  }

  lemma {:induction false} FilterImagesAppendStep(a: seq<string>, init: seq<string>, x: string)
    requires FilterImages(a + init) == FilterImages(a) + FilterImages(init)
    ensures FilterImages(a + (init + [x])) == FilterImages(a) + FilterImages(init + [x])
  {
    assert a + (init + [x]) == (a + init) + [x];
    FilterImagesSnoc(a + init, x);
    FilterImagesSnoc(init, x);
  }

  lemma {:induction false} FilterImagesSnoc(files: seq<string>, f: string)
    ensures FilterImages(files + [f]) == FilterImages(files) + FilterImages([f])
  {
    assert (files + [f])[..|files|] == files;
    assert [f][..0] == [];
  }

  /** The extension test ignores case. */
  lemma {:induction false} CoverExtensionIgnoresCase(f: string)
    ensures IsImageFile(Lower(f), CoverExtensions) <==> IsImageFile(f, CoverExtensions)
  {
    ExtNameLower(f);
    LowerIdempotent(ExtName(f));
  }

  /** The `find` predicate: the lower-cased base name is longer than one character and contains, or is contained in, the lower-cased folder name. */
  predicate CoverMatches(img: string, folder: string)
  {
    var base := Lower(BaseName(img));
    |base| > 1 && (Contains(base, Lower(folder)) || Contains(Lower(folder), base))
  }

  /** The index of the first matching image, or `|images|`. */
  function FirstCover(images: seq<string>, folder: string): (k: nat)
    ensures k <= |images|
  {
    if images == [] then 0
    else if CoverMatches(images[0], folder) then 0
    else FirstCover(images[1..], folder) + 1
  }

  /** `allImages.find(...)`. */
  function FindCover(images: seq<string>, folder: string): Option<string>
  {
    var k := FirstCover(images, folder);
    if k < |images| then Some(images[k]) else None
  }

  /** The cover is the first image that matches, and there is none exactly when no image matches. */
  lemma {:induction false} FindCoverSpec(images: seq<string>, folder: string)
    ensures FindCover(images, folder).Some? <==> exists k :: 0 <= k < |images| && CoverMatches(images[k], folder)
    ensures FindCover(images, folder).Some? ==>
      var k := FirstCover(images, folder);
      FindCover(images, folder).value == images[k] && CoverMatches(images[k], folder) &&
      forall j :: 0 <= j < k ==> !CoverMatches(images[j], folder)
    decreases |images|
  {
    if images != [] && !CoverMatches(images[0], folder) {
      FindCoverSpec(images[1..], folder);
      forall j | 1 <= j < |images|
        ensures images[j] == images[1..][j - 1]
      {
      }
    }
  }

  // =====================================================================
  // `main`

  /** What `main` does for one game folder: the zip's name, its content root, its engine and its cover. */
  datatype ZipPlan = ZipPlan(zipName: string, root: seq<string>, engine: Engine, cover: Option<string>)

  /** The loop body for one entry of the games directory. */
  function PlanFor(folder: Node, images: seq<string>): Option<ZipPlan>
  {
    if !folder.Dir? then None
    else
      match Analyze(folder.children)
      case Invalid => None
      case Valid(root, engine) =>
        Some(ZipPlan(folder.name + ".zip", [folder.name] + root, engine, FindCover(images, folder.name)))
  }

  /** The plans of the whole loop, in folder order. */
  function Plans(folders: seq<Node>, images: seq<string>): seq<ZipPlan>
  {
    if folders == [] then []
    else
      var last := folders[|folders| - 1];
      var p := PlanFor(last, images);
      Plans(folders[..|folders| - 1], images) + (if p.Some? then [p.value] else [])
  }

  /**
   * `main`: `games` is the listing of the games directory and `imageDir`
   * that of the image directory, each `None` when the directory is missing.
   */
  method Sync(games: Option<seq<Node>>, imageDir: Option<seq<string>>) returns (plans: seq<ZipPlan>)
    ensures games.None? ==> plans == []
    ensures games.Some? ==>
      plans == Plans(games.value, if imageDir.Some? then FilterImages(imageDir.value) else [])
  {
    if games.None? {
      return [];
    }
    var allImages := if imageDir.Some? then FilterImages(imageDir.value) else [];
    var folders := games.value;
    plans := [];
    var i := 0;
    while i < |folders|
      invariant 0 <= i <= |folders|
      invariant plans == Plans(folders[..i], allImages)
    {
      PlansStep(folders, i, allImages);
      var folder := folders[i];
      if folder.Dir? {
        var analysis := Analyze(folder.children);
        if analysis.Valid? {
          var cover := FindCover(allImages, folder.name);
          plans := plans + [ZipPlan(folder.name + ".zip", [folder.name] + analysis.actualRoot, analysis.engine, cover)];
        }
      }
      i := i + 1;
    }
    assert folders[..i] == folders;
  }

  /** One more folder adds at most its own plan. */
  lemma {:induction false} PlansStep(folders: seq<Node>, i: nat, images: seq<string>)
    requires i < |folders|
    ensures var p := PlanFor(folders[i], images);
      Plans(folders[..i + 1], images) == Plans(folders[..i], images) + (if p.Some? then [p.value] else [])
  {
    assert folders[..i + 1][..i] == folders[..i];
  }

  /** A plan is made exactly for the folders whose own plan exists, and is that plan. */
  lemma {:induction false} PlansSpec(folders: seq<Node>, images: seq<string>, p: ZipPlan)
    ensures p in Plans(folders, images) <==> exists k :: 0 <= k < |folders| && PlanFor(folders[k], images) == Some(p)
  {
    if folders != [] {
      var n := |folders| - 1;
      var init := folders[..n];
      PlansSpec(init, images, p);
      PlansStep(folders, n, images);
      assert folders[..n + 1] == folders;
      var qs := seq(|folders|, k requires 0 <= k < |folders| => PlanFor(folders[k], images));
      assert forall k :: 0 <= k < n ==> PlanFor(init[k], images) == qs[k];
      SnocMember(Plans(init, images), Plans(folders, images), qs, p);
      if p in Plans(folders, images) {
        var k :| 0 <= k < |qs| && qs[k] == Some(p);
        assert PlanFor(folders[k], images) == Some(p);
      }
      if k :| 0 <= k < |folders| && PlanFor(folders[k], images) == Some(p) {
        assert qs[k] == Some(p);
      }
    }
  }

  /** Membership in a list grown by the value, if any, of one more option. */
  lemma {:induction false} SnocMember<T>(before: seq<T>, after: seq<T>, qs: seq<Option<T>>, p: T)
    requires |qs| > 0
    requires p in before <==> exists k :: 0 <= k < |qs| - 1 && qs[k] == Some(p)
    requires after == before + (if qs[|qs| - 1].Some? then [qs[|qs| - 1].value] else [])
    ensures p in after <==> exists k :: 0 <= k < |qs| && qs[k] == Some(p)
  {
    if p in after && p !in before {
      assert qs[|qs| - 1] == Some(p);
    }
  }

  /**
   * A folder gets a plan exactly when it is a directory whose analysis is
   * valid; the zip is named after the folder and its root starts with it.
   */
  lemma {:induction false} PlanForValid(folder: Node, images: seq<string>)
    ensures PlanFor(folder, images).Some? <==> folder.Dir? && Analyze(folder.children).Valid?
    ensures PlanFor(folder, images).Some? ==>
      var p := PlanFor(folder, images).value;
      p.zipName == folder.name + ".zip" && p.root == [folder.name] + Analyze(folder.children).actualRoot &&
      p.engine == Analyze(folder.children).engine && p.cover == FindCover(images, folder.name)
  {
  }

  /** A planned cover is an image of the filtered list that matches the folder. */
  lemma {:induction false} PlannedCover(folder: Node, listing: seq<string>)
    requires PlanFor(folder, FilterImages(listing)).Some?
    requires PlanFor(folder, FilterImages(listing)).value.cover.Some?
    ensures var c := PlanFor(folder, FilterImages(listing)).value.cover.value;
      c in listing && IsImageFile(c, CoverExtensions) && CoverMatches(c, folder.name)
  {
    var images := FilterImages(listing);
    FindCoverSpec(images, folder.name);
    FilterImagesSpec(listing);
  }
}
