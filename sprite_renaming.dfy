/**
 * The renaming of exported sprite folders (`rename_sprites.py`). Every directory of the working
 * directory except the output directory `sprites_done` (and anything whose name starts with it)
 * is a sprite folder; its SVG files are copied, in sorted order, into `sprites_done` under the
 * folder's proper name: a lone SVG becomes `<proper>.svg`, several become
 * `<proper>/<proper>_01.svg`, `<proper>/<proper>_02.svg`, ... in a subfolder of their own.
 * The copies and directory creations are produced as a plan of actions.
 */
module SpriteRenaming {
  import opened Strings
  import opened Sequences
  import opened FileActions
  import opened StringOrder
  import opened DecimalFormat
  import opened ProperNames

  const OutputDir := "sprites_done"

  /** An item of the working directory: its name, whether it is a directory, and the names it lists. */
  datatype Node = Node(name: string, isDir: bool, children: seq<string>)

  // ---------------------------------------------------------------------------------------
  // Selection

  /** A directory other than the output directory is processed. */
  predicate Selected(n: Node) {
    n.isDir && !StartsWith(n.name, OutputDir)
  }

  /** The directories to process, in listing order. */
  function Directories(listing: seq<Node>): seq<Node>
    decreases |listing|
  {
    if listing == [] then []
    else
      var n := listing[|listing| - 1];
      Directories(listing[..|listing| - 1]) + (if Selected(n) then [n] else [])
  }

  /** A file is an SVG when its lower-cased name ends with `.svg`. */
  predicate IsSvg(f: string) {
    EndsWith(Lower(f), ".svg")
  }

  /** The SVG files a folder lists, in listing order. */
  function SvgFiles(names: seq<string>): seq<string>
    decreases |names|
  {
    if names == [] then []
    else
      var f := names[|names| - 1];
      SvgFiles(names[..|names| - 1]) + (if IsSvg(f) then [f] else [])
  }

  lemma {:induction false} DirectoriesMembers(listing: seq<Node>)
    ensures forall n :: n in Directories(listing) <==> n in listing && Selected(n)
    ensures IsSubsequence(Directories(listing), listing)
    decreases |listing|
  {
    if listing != [] {
      var init, n := listing[..|listing| - 1], listing[|listing| - 1];
      DirectoriesMembers(init);
      assert listing == init + [n];
      if Selected(n) {
        SubsequenceAppendBoth(Directories(init), init, n);
      } else {
        assert Directories(listing) == Directories(init);
        SubsequenceExtend(Directories(init), init, n);
      }
    }
  }

  lemma {:induction false} SvgFilesMembers(names: seq<string>)
    ensures forall f :: f in SvgFiles(names) <==> f in names && IsSvg(f)
    ensures IsSubsequence(SvgFiles(names), names)
    decreases |names|
  {
    if names != [] {
      var init, f := names[..|names| - 1], names[|names| - 1];
      SvgFilesMembers(init);
      assert names == init + [f];
      if IsSvg(f) {
        SubsequenceAppendBoth(SvgFiles(init), init, f);
      } else {
        assert SvgFiles(names) == SvgFiles(init);
        SubsequenceExtend(SvgFiles(init), init, f);
      }
    }
  }

  // ---------------------------------------------------------------------------------------
  // Naming and copying

  /** Where the `i`-th (from 1) of `n` sorted SVG files of a folder with proper name `proper` goes. */
  function Destination(proper: string, i: nat, n: nat): Path {
    if n == 1 then [OutputDir, proper + ".svg"]
    else [OutputDir, proper, proper + "_" + Pad2(i) + ".svg"]
  }

  /** The copies of `files`, numbered from 1 in order (`enumerate(files, 1)`). */
  function FileCopies(folder: string, proper: string, files: seq<string>, n: nat): seq<Action> {
    seq(|files|, i requires 0 <= i < |files| => Copy([folder, files[i]], Destination(proper, i + 1, n)))
  }

  /** The subfolder, when there are several files, then the numbered copies of the sorted files. */
  function FolderLayout(folder: string, proper: string, sorted: seq<string>, n: nat): seq<Action> {
    (if n > 1 then [MakeDir([OutputDir, proper])] else []) + FileCopies(folder, proper, sorted, n)
  }

  /** The actions for one sprite folder. */
  function FolderActions(folder: string, children: seq<string>): seq<Action> {
    FolderLayout(folder, ExtractProperName(folder), Sort(SvgFiles(children)), |SvgFiles(children)|)
  }

  /** The actions of each of a sequence of sprite folders. */
  function FolderPlans(dirs: seq<Node>): seq<seq<Action>> {
    seq(|dirs|, i requires 0 <= i < |dirs| => FolderActions(dirs[i].name, dirs[i].children))
  }

  /** Lists of actions, one after the other. */
  function Flatten(parts: seq<seq<Action>>): seq<Action>
    decreases |parts|
  {
    if parts == [] then [] else Flatten(parts[..|parts| - 1]) + parts[|parts| - 1]
  }

  /** The whole run: create the output directory, then handle every selected folder in turn. */
  function RenamePlan(listing: seq<Node>): seq<Action> {
    [MakeDir([OutputDir])] + Flatten(FolderPlans(Directories(listing)))
  }

  /** The script's main loop over the selected folders. */
  method RenameSprites(listing: seq<Node>) returns (plan: seq<Action>)
    ensures plan == RenamePlan(listing)
  {
    plan := [MakeDir([OutputDir])];
    var directories := Directories(listing);
    ghost var parts := FolderPlans(directories);
    var k := 0;
    while k < |directories|
      invariant 0 <= k <= |directories|
      invariant plan == [MakeDir([OutputDir])] + Flatten(parts[..k])
    {
      var actions := PlanFolder(directories[k].name, directories[k].children);
      FolderPlanAt(directories, k);
      FlattenStep([MakeDir([OutputDir])], parts, k);
      plan := plan + actions;
      k := k + 1;
    }
    assert parts[..|parts|] == parts;
  }

  /** One sprite folder: the optional subfolder, then the copies of its sorted SVG files. */
  method PlanFolder(folder: string, children: seq<string>) returns (actions: seq<Action>)
    ensures actions == FolderActions(folder, children)
  {
    var properName := ExtractProperName(folder);
    var svgFiles := SvgFiles(children);
    var numFiles := |svgFiles|;
    actions := [];
    if numFiles > 1 {
      actions := [MakeDir([OutputDir, properName])];
    }
    var copies := CopySorted(folder, properName, Sort(svgFiles), numFiles);
    actions := actions + copies;
  }

  /** The loop over the sorted SVG files of a folder, numbering them from 1. */
  method CopySorted(folder: string, properName: string, sorted: seq<string>, numFiles: nat)
    returns (copies: seq<Action>)
    ensures copies == FileCopies(folder, properName, sorted, numFiles)
  {
    ghost var all := FileCopies(folder, properName, sorted, numFiles);
    copies := [];
    var i := 1;
    while i <= |sorted|
      invariant 1 <= i <= |sorted| + 1
      invariant copies == all[..i - 1]
    {
      var dest: Path;
      if numFiles == 1 {
        dest := [OutputDir, properName + ".svg"];
      } else {
        dest := [OutputDir, properName, properName + "_" + Pad2(i) + ".svg"];
      }
      assert Copy([folder, sorted[i - 1]], dest) == all[i - 1];
      PrefixStep([], all, i);
      copies := copies + [Copy([folder, sorted[i - 1]], dest)];
      i := i + 1;
    }
    assert all[..|sorted|] == all;
  }

  lemma FolderPlanAt(dirs: seq<Node>, k: nat)
    requires k < |dirs|
    ensures FolderPlans(dirs)[k] == FolderActions(dirs[k].name, dirs[k].children)
  {
  }

  lemma FlattenStep(head: seq<Action>, parts: seq<seq<Action>>, k: nat)
    requires k < |parts|
    ensures head + Flatten(parts[..k + 1]) == (head + Flatten(parts[..k])) + parts[k]
  {
    assert parts[..k + 1][..k] == parts[..k];
  }

  // ---------------------------------------------------------------------------------------
  // What a folder's actions are

  /** A folder without SVG files produces nothing, not even its subfolder. */
  lemma FolderWithoutSvgs(folder: string, children: seq<string>)
    requires forall f :: f in children ==> !IsSvg(f)
    ensures FolderActions(folder, children) == []
  {
    SvgFilesMembers(children);
    if SvgFiles(children) != [] {
      assert SvgFiles(children)[0] in SvgFiles(children);
    }
  }

  /** A lone SVG file is copied straight into the output directory as `<proper>.svg`. */
  lemma FolderWithOneSvg(folder: string, children: seq<string>)
    requires |SvgFiles(children)| == 1
    ensures FolderActions(folder, children)
         == [Copy([folder, SvgFiles(children)[0]], [OutputDir, ExtractProperName(folder) + ".svg"])]
  {
    var svgs := SvgFiles(children);
    var sorted := Sort(svgs);
    assert |sorted| == 1 by { assert |multiset(sorted)| == |sorted|; }
    assert sorted[0] in multiset(svgs);
    assert sorted == svgs;
    LoneFileLayout(folder, ExtractProperName(folder), sorted);
  }

  lemma LoneFileLayout(folder: string, proper: string, sorted: seq<string>)
    requires |sorted| == 1
    ensures FolderLayout(folder, proper, sorted, 1) == [Copy([folder, sorted[0]], [OutputDir, proper + ".svg"])]
  {
  }

  /**
   * Several SVG files get a subfolder named after the proper name, created first, and are
   * copied into it in sorted order as `<proper>_01.svg`, `<proper>_02.svg`, ...
   */
  lemma FolderWithManySvgs(folder: string, children: seq<string>)
    requires |SvgFiles(children)| > 1
    ensures var proper, n := ExtractProperName(folder), |SvgFiles(children)|;
            var actions, sorted := FolderActions(folder, children), Sort(SvgFiles(children));
            |actions| == n + 1 && |sorted| == n &&
            actions[0] == MakeDir([OutputDir, proper]) &&
            forall i :: 1 <= i <= n ==>
              actions[i] == Copy([folder, sorted[i - 1]], [OutputDir, proper, proper + "_" + Pad2(i) + ".svg"])
  {
    var svgs := SvgFiles(children);
    var sorted := Sort(svgs);
    assert |sorted| == |svgs| by { assert |multiset(sorted)| == |sorted|; }
    ManyFilesLayout(folder, ExtractProperName(folder), sorted);
  }

  lemma ManyFilesLayout(folder: string, proper: string, sorted: seq<string>)
    requires |sorted| > 1
    ensures var actions, n := FolderLayout(folder, proper, sorted, |sorted|), |sorted|;
            |actions| == n + 1 &&
            actions[0] == MakeDir([OutputDir, proper]) &&
            forall i :: 1 <= i <= n ==>
              actions[i] == Copy([folder, sorted[i - 1]], [OutputDir, proper, proper + "_" + Pad2(i) + ".svg"])
  {
  }

  /** Within a folder of several SVG files, different positions get different destinations. */
  lemma NumberedDestinationsDistinct(proper: string, i: nat, j: nat, n: nat)
    requires n > 1 && i != j
    ensures Destination(proper, i, n) != Destination(proper, j, n)
  {
    Pad2Injective(i, j);
    NumberedNameGivesNumber(proper, i);
    NumberedNameGivesNumber(proper, j);
  }

  /** The number can be read back off a numbered file name. */
  lemma NumberedNameGivesNumber(proper: string, i: nat)
    ensures var name := proper + "_" + Pad2(i) + ".svg";
            |name| >= |proper| + 5 && name[|proper| + 1..|name| - 4] == Pad2(i)
  {
  }

  /** The sorted SVG files are the folder's SVG files, each as often as it is listed. */
  lemma SortedSvgs(children: seq<string>)
    ensures multiset(Sort(SvgFiles(children))) == multiset(SvgFiles(children))
    ensures forall f :: f in Sort(SvgFiles(children)) <==> f in children && IsSvg(f)
  {
    var svgs := SvgFiles(children);
    var sorted := Sort(svgs);
    SvgFilesMembers(children);
    forall f ensures f in sorted <==> f in svgs {
      assert f in sorted <==> f in multiset(sorted);
      assert f in svgs <==> f in multiset(svgs);
    }
  }

  /** Every copy of a folder is the copy of one of its sorted SVG files to that file's numbered place. */
  lemma FolderCopyIsNumbered(folder: string, children: seq<string>, a: Action) returns (i: nat)
    requires a in FolderActions(folder, children) && a.Copy?
    ensures var svgs := SvgFiles(children);
            i < |Sort(svgs)| &&
            a == Copy([folder, Sort(svgs)[i]], Destination(ExtractProperName(folder), i + 1, |svgs|))
  {
    i := LayoutCopy(folder, ExtractProperName(folder), Sort(SvgFiles(children)), |SvgFiles(children)|, a);
  }

  lemma LayoutCopy(folder: string, proper: string, sorted: seq<string>, n: nat, a: Action) returns (i: nat)
    requires a in FolderLayout(folder, proper, sorted, n) && a.Copy?
    ensures i < |sorted| && a == Copy([folder, sorted[i]], Destination(proper, i + 1, n))
  {
    var copies := FileCopies(folder, proper, sorted, n);
    assert a in copies;
    i :| 0 <= i < |copies| && copies[i] == a;
  }

  /** So every copy takes an SVG file listed in the folder into the output directory. */
  lemma FolderCopySource(folder: string, children: seq<string>, a: Action)
    requires a in FolderActions(folder, children) && a.Copy?
    ensures |a.src| == 2 && a.src[0] == folder && a.src[1] in children && IsSvg(a.src[1])
    ensures |a.dst| >= 2 && a.dst[0] == OutputDir
  {
    var i := FolderCopyIsNumbered(folder, children, a);
    SortedSvgs(children);
    assert Sort(SvgFiles(children))[i] in Sort(SvgFiles(children));
  }

  // ---------------------------------------------------------------------------------------
  // The whole plan

  lemma {:induction false} FlattenMembers(parts: seq<seq<Action>>, a: Action)
    ensures a in Flatten(parts) <==> exists i :: 0 <= i < |parts| && a in parts[i]
    decreases |parts|
  {
    if parts != [] {
      var init := parts[..|parts| - 1];
      FlattenMembers(init, a);
      if exists i :: 0 <= i < |init| && a in init[i] {
        var i :| 0 <= i < |init| && a in init[i];
        assert parts[i] == init[i];
      }
      if exists i :: 0 <= i < |parts| && a in parts[i] {
        var i :| 0 <= i < |parts| && a in parts[i];
        if i < |init| {
          assert init[i] == parts[i];
        }
      }
    }
  }

  /** Each folder's part of the plan belongs to a selected directory. */
  lemma PartOfSelected(listing: seq<Node>, i: nat)
    requires i < |Directories(listing)|
    ensures var d := Directories(listing)[i];
            d in listing && Selected(d) && FolderPlans(Directories(listing))[i] == FolderActions(d.name, d.children)
  {
    DirectoriesMembers(listing);
    assert Directories(listing)[i] in Directories(listing);
  }

  /** Each selected directory has its part of the plan. */
  lemma SelectedHasPart(listing: seq<Node>, d: Node) returns (i: nat)
    requires d in listing && Selected(d)
    ensures i < |Directories(listing)| && FolderPlans(Directories(listing))[i] == FolderActions(d.name, d.children)
  {
    DirectoriesMembers(listing);
    i :| 0 <= i < |Directories(listing)| && Directories(listing)[i] == d;
  }

  /**
   * The plan is the output directory's creation followed by the actions of the selected folders
   * and nothing else: a planned action is one of these, and each of these is planned.
   */
  lemma RenamePlanMembers(listing: seq<Node>, a: Action)
    ensures a in RenamePlan(listing) <==>
            a == MakeDir([OutputDir]) ||
            exists d :: d in listing && Selected(d) && a in FolderActions(d.name, d.children)
  {
    var parts := FolderPlans(Directories(listing));
    FlattenMembers(parts, a);
    if exists i :: 0 <= i < |parts| && a in parts[i] {
      var i :| 0 <= i < |parts| && a in parts[i];
      PartOfSelected(listing, i);
    }
    if exists d :: d in listing && Selected(d) && a in FolderActions(d.name, d.children) {
      var d :| d in listing && Selected(d) && a in FolderActions(d.name, d.children);
      var i := SelectedHasPart(listing, d);
      assert a in parts[i];
    }
  }

  /** No copy reads from the output directory or from anything that is not a listed directory. */
  lemma PlanNeverReadsOutput(listing: seq<Node>, a: Action)
    requires a in RenamePlan(listing) && a.Copy?
    ensures |a.src| == 2 && !StartsWith(a.src[0], OutputDir)
    ensures exists d :: d in listing && d.isDir && d.name == a.src[0] && a.src[1] in d.children && IsSvg(a.src[1])
  {
    RenamePlanMembers(listing, a);
    var d :| d in listing && Selected(d) && a in FolderActions(d.name, d.children);
    FolderCopySource(d.name, d.children, a);
  }

  /** Every SVG file of every selected folder is copied into the output directory. */
  lemma EverySvgIsCopied(listing: seq<Node>, d: Node, f: string)
    requires d in listing && Selected(d) && f in d.children && IsSvg(f)
    ensures exists a :: a in RenamePlan(listing) && a.Copy? && a.src == [d.name, f] && a.dst != [] && a.dst[0] == OutputDir
  {
    var a := FolderCopiesSvg(d.name, d.children, f);
    RenamePlanMembers(listing, a);
  }

  /** Each SVG file of a folder is copied by that folder's actions. */
  lemma FolderCopiesSvg(folder: string, children: seq<string>, f: string) returns (a: Action)
    requires f in children && IsSvg(f)
    ensures a in FolderActions(folder, children) && a.Copy? && a.src == [folder, f] && a.dst != [] && a.dst[0] == OutputDir
  {
    var sorted := Sort(SvgFiles(children));
    SortedSvgs(children);
    var i :| 0 <= i < |sorted| && sorted[i] == f;
    a := LayoutCopiesEach(folder, ExtractProperName(folder), sorted, |SvgFiles(children)|, i);
  }

  lemma LayoutCopiesEach(folder: string, proper: string, sorted: seq<string>, n: nat, i: nat) returns (a: Action)
    requires i < |sorted|
    ensures a == Copy([folder, sorted[i]], Destination(proper, i + 1, n))
    ensures a in FolderLayout(folder, proper, sorted, n)
  {
    a := FileCopies(folder, proper, sorted, n)[i];
  }
}
