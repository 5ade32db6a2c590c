/**
 * `organize_files`, `delete_non_foldered_files` and the type normalisation of `main` in
 * organize_files.py. The directory listing is an input sequence of entries; what the script
 * would do to the disk is returned as a sequence of planned actions, in the order it does them.
 */
module Organize {
  import opened Options
  import opened Strings
  import opened Sequences
  import opened FileActions
  import opened Categories
  import opened Grouping

  /** The file types used when none are given. */
  const DefaultTypes: seq<string> := [".svg"]

  function TypesOrDefault(fileTypes: Option<seq<string>>): seq<string> {
    if fileTypes.Some? then fileTypes.value else DefaultTypes
  }

  // ---------------------------------------------------------------------------------------
  // Suffixes and the type list

  /**
   * `Path.suffix`: the text from the last dot, provided that dot is neither the first nor the
   * last character of the name; otherwise empty.
   */
  function PathSuffix(name: string): (r: string)
    ensures r != [] ==> 2 <= |r| < |name| && EndsWith(name, r) && r[0] == '.'
    ensures r != [] ==> forall j :: 1 <= j < |r| ==> r[j] != '.'
    ensures r == [] ==> forall i :: 0 < i < |name| - 1 && name[i] == '.' ==>
      exists j :: i < j < |name| && name[j] == '.'
  {
    match LastDot(name)
    case None => []
    case Some(d) =>
      if 0 < d < |name| - 1 then name[d..]
      else
        assert forall i :: 0 < i < |name| - 1 && name[i] == '.' ==> i < d && name[d] == '.';
        []
  }

  /** `str.lstrip('.')`. */
  function LStripDots(s: string): (r: string)
    ensures EndsWith(s, r)
    ensures r != [] ==> r[0] != '.'
    ensures AllDots(s[..|s| - |r|])
    decreases |s|
  {
    if s != [] && s[0] == '.' then
      var r := LStripDots(s[1..]);
      assert s[..|s| - |r|] == [s[0]] + s[1..][..|s[1..]| - |r|];
      r
    else s
  }

  /** One element of line 182: `f".{t.lower().lstrip('.')}"`. */
  function NormalizeType(t: string): string {
    "." + LStripDots(Lower(t))
  }

  /** Line 182 with the `if args.types:` guard around it: no list, or an empty one, stays absent. */
  function NormalizeTypes(types: Option<seq<string>>): Option<seq<string>> {
    if types.None? || types.value == [] then None
    else Some(seq(|types.value|, i requires 0 <= i < |types.value| => NormalizeType(types.value[i])))
  }

  /** A string of lower-cased characters is unchanged by lower-casing. */
  lemma LowerOfLowered(x: string, t: string, m: nat)
    requires m <= |t| && |x| == |t| - m
    requires forall i :: 0 <= i < |x| ==> x[i] == LowerChar(t[m + i])
    ensures Lower(x) == x
  {
  }

  /**
   * A normalised type has exactly one leading dot, followed by the lower-cased type with its
   * leading dots removed, and it is already lower case.
   */
  lemma NormalizedTypeShape(t: string)
    ensures var r := NormalizeType(t);
      && r[0] == '.'
      && (|r| > 1 ==> r[1] != '.')
      && r[1..] == LStripDots(Lower(t))
      && Lower(r) == r
  {
    var x := LStripDots(Lower(t));
    StrippedLowerIsLower(t);
    DotThenLower(x);
  }

  /** Stripping dots off a lower-cased string leaves a lower-cased string. */
  lemma StrippedLowerIsLower(t: string)
    ensures Lower(LStripDots(Lower(t))) == LStripDots(Lower(t))
  {
    var low := Lower(t);
    var x := LStripDots(low);
    var m := |low| - |x|;
    assert x == low[m..];
    assert forall i :: 0 <= i < |x| ==> x[i] == low[m + i] == LowerChar(t[m + i]);
    LowerOfLowered(x, t, m);
  }

  lemma DotThenLower(x: string)
    requires Lower(x) == x
    ensures Lower("." + x) == "." + x
  {
    var r := "." + x;
    forall i | 0 <= i < |r| ensures Lower(r)[i] == r[i] {
      if i > 0 {
        assert r[i] == x[i - 1] == Lower(x)[i - 1] == LowerChar(x[i - 1]);
      }
    }
  }

  lemma LStripDotsOfUndotted(s: string)
    requires s == [] || s[0] != '.'
    ensures LStripDots(s) == s
  {
  }

  /** Normalising twice is normalising once. */
  lemma NormalizeTypeIdempotent(t: string)
    ensures NormalizeType(NormalizeType(t)) == NormalizeType(t)
  {
    var r := NormalizeType(t);
    NormalizedTypeShape(t);
    assert Lower(r) == r;
    assert LStripDots(r) == LStripDots(r[1..]);
    LStripDotsOfUndotted(r[1..]);
    assert "." + r[1..] == r;
  }

  /** A missing or empty list stays absent, any other list is normalised element by element, and normalising twice is normalising once. */
  lemma NormalizeTypesIdempotent(types: Option<seq<string>>)
    ensures NormalizeTypes(types).None? <==> types.None? || types.value == []
    ensures NormalizeTypes(types).Some? ==> |NormalizeTypes(types).value| == |types.value|
    ensures NormalizeTypes(types).Some? ==>
              forall i :: 0 <= i < |types.value| ==> NormalizeTypes(types).value[i] == NormalizeType(types.value[i])
    ensures NormalizeTypes(NormalizeTypes(types)) == NormalizeTypes(types)
  {
    if NormalizeTypes(types).Some? {
      var once := NormalizeTypes(types).value;
      var twice := NormalizeTypes(NormalizeTypes(types)).value;
      assert |twice| == |once|;
      forall i | 0 <= i < |once| ensures twice[i] == once[i] {
        NormalizeTypeIdempotent(types.value[i]);
      }
      assert twice == once;
    }
  }

  /**
   * A lower-cased nonempty suffix is already in normal form, so a type the user writes in any
   * case, with or without dots, selects exactly the files whose suffix it names.
   */
  lemma SuffixIsNormalized(name: string)
    requires PathSuffix(name) != []
    ensures NormalizeType(PathSuffix(name)) == Lower(PathSuffix(name))
  {
    var x := Lower(PathSuffix(name));
    assert x[0] == '.';
    assert x[1] != '.';
    assert LStripDots(x) == LStripDots(x[1..]);
    LStripDotsOfUndotted(x[1..]);
    assert x == [x[0]] + x[1..];
  }

  // ---------------------------------------------------------------------------------------
  // Collecting files (lines 91-99)

  /** Whether an entry of the listing is collected: a regular file whose suffix is listed, or any file for an empty list. */
  predicate Collects(types: seq<string>, e: Entry) {
    e.isFile && (types == [] || Lower(PathSuffix(e.name)) in types)
  }

  function Names(entries: seq<Entry>): seq<string> {
    seq(|entries|, i requires 0 <= i < |entries| => entries[i].name)
  }

  /** The names of the collected entries, in enumeration order. */
  function Collected(entries: seq<Entry>, types: seq<string>): seq<string>
    decreases |entries|
  {
    if entries == [] then []
    else
      var e := entries[|entries| - 1];
      Collected(entries[..|entries| - 1], types) + (if Collects(types, e) then [e.name] else [])
  }

  method CollectFiles(entries: seq<Entry>, types: seq<string>) returns (files: seq<string>)
    ensures files == Collected(entries, types)
  {
    files := [];
    var i := 0;
    while i < |entries|
      invariant 0 <= i <= |entries|
      invariant files == Collected(entries[..i], types)
    {
      var item := entries[i];
      assert entries[..i + 1][..i] == entries[..i];
      if item.isFile {
        if types == [] || Lower(PathSuffix(item.name)) in types {
          files := files + [item.name];
        }
      }
      i := i + 1;
    }
    assert entries[..|entries|] == entries;
  }

  /** Exactly the names of collected entries are collected. */
  lemma {:induction false} CollectedMembers(entries: seq<Entry>, types: seq<string>, x: string)
    ensures x in Collected(entries, types) <==> exists e :: e in entries && Collects(types, e) && e.name == x
    decreases |entries|
  {
    if entries != [] {
      var init, e := entries[..|entries| - 1], entries[|entries| - 1];
      CollectedMembers(init, types, x);
      assert entries == init + [e];
      if x in Collected(init, types) {
        var e' :| e' in init && Collects(types, e') && e'.name == x;
        assert e' in entries;
      }
    }
  }

  /** Collection keeps the enumeration order of the listing. */
  lemma {:induction false} CollectedKeepsOrder(entries: seq<Entry>, types: seq<string>)
    ensures IsSubsequence(Collected(entries, types), Names(entries))
    decreases |entries|
  {
    if entries == [] {
    } else {
      var init, e := entries[..|entries| - 1], entries[|entries| - 1];
      CollectedKeepsOrder(init, types);
      assert Names(entries) == Names(init) + [e.name];
      if Collects(types, e) {
        assert Collected(entries, types) == Collected(init, types) + [e.name];
        SubsequenceAppendBoth(Collected(init, types), Names(init), e.name);
      } else {
        assert Collected(entries, types) == Collected(init, types);
        SubsequenceExtend(Collected(init, types), Names(init), e.name);
      }
    }
  }

  /** An empty type list collects every regular file. */
  lemma EmptyTypesCollectAllFiles(entries: seq<Entry>, x: string)
    ensures x in Collected(entries, []) <==> exists e :: e in entries && e.isFile && e.name == x
  {
    CollectedMembers(entries, [], x);
  }

  // ---------------------------------------------------------------------------------------
  // Creating folders and copying (lines 113-134)

  /** The copy of one file into its category folder: nothing in a dry run or when source and destination coincide. */
  function CopyStep(dir: Path, out: Path, category: string, name: string, dryRun: bool): seq<Action> {
    var src, dst := dir + [name], out + [category, name];
    if dryRun || src == dst then [] else [Copy(src, dst)]
  }

  function FileCopies(dir: Path, out: Path, category: string, names: seq<string>, dryRun: bool): seq<Action>
    decreases |names|
  {
    if names == [] then []
    else FileCopies(dir, out, category, names[..|names| - 1], dryRun) + CopyStep(dir, out, category, names[|names| - 1], dryRun)
  }

  /** One iteration of the outer loop: create the category folder (not in a dry run), then copy its files. */
  function CategoryActions(dir: Path, out: Path, category: string, names: seq<string>, dryRun: bool): seq<Action> {
    (if dryRun then [] else [MakeDir(out + [category])]) + FileCopies(dir, out, category, names, dryRun)
  }

  function CopyPlan(dir: Path, out: Path, keys: seq<string>, groups: map<string, seq<string>>, dryRun: bool): seq<Action>
    requires forall k :: k in keys ==> k in groups
    decreases |keys|
  {
    if keys == [] then []
    else
      var k := keys[|keys| - 1];
      CopyPlan(dir, out, keys[..|keys| - 1], groups, dryRun) + CategoryActions(dir, out, k, groups[k], dryRun)
  }

  method PlanCopies(dir: Path, out: Path, keys: seq<string>, groups: map<string, seq<string>>, dryRun: bool)
    returns (actions: seq<Action>)
    requires forall k :: k in keys ==> k in groups
    ensures actions == CopyPlan(dir, out, keys, groups, dryRun)
  {
    actions := [];
    var c := 0;
    while c < |keys|
      invariant 0 <= c <= |keys|
      invariant actions == CopyPlan(dir, out, keys[..c], groups, dryRun)
    {
      var category := keys[c];
      CopyPlanStep(dir, out, keys, groups, dryRun, c);
      if !dryRun {
        actions := actions + [MakeDir(out + [category])];
      }
      var copies := CopyCategoryFiles(dir, out, category, groups[category], dryRun);
      actions := actions + copies;
      c := c + 1;
    }
    assert keys[..|keys|] == keys;
  }

  /** The inner loop: copy each file of one category into its folder, skipping a file already there. */
  method CopyCategoryFiles(dir: Path, out: Path, category: string, filePaths: seq<string>, dryRun: bool)
    returns (copies: seq<Action>)
    ensures copies == FileCopies(dir, out, category, filePaths, dryRun)
  {
    copies := [];
    var n := 0;
    while n < |filePaths|
      invariant 0 <= n <= |filePaths|
      invariant copies == FileCopies(dir, out, category, filePaths[..n], dryRun)
    {
      var name := filePaths[n];
      FileCopiesStep(dir, out, category, filePaths, n, dryRun);
      var destPath := out + [category, name];
      if !dryRun {
        if dir + [name] != destPath {
          copies := copies + [Copy(dir + [name], destPath)];
        }
      }
      n := n + 1;
    }
    assert filePaths[..|filePaths|] == filePaths;
  }

  lemma FileCopiesStep(dir: Path, out: Path, category: string, names: seq<string>, n: nat, dryRun: bool)
    requires n < |names|
    ensures FileCopies(dir, out, category, names[..n + 1], dryRun)
         == FileCopies(dir, out, category, names[..n], dryRun) + CopyStep(dir, out, category, names[n], dryRun)
  {
    assert names[..n + 1][..n] == names[..n];
  }

  lemma CopyPlanStep(dir: Path, out: Path, keys: seq<string>, groups: map<string, seq<string>>, dryRun: bool, c: nat)
    requires forall k :: k in keys ==> k in groups
    requires c < |keys|
    ensures CopyPlan(dir, out, keys[..c + 1], groups, dryRun)
         == CopyPlan(dir, out, keys[..c], groups, dryRun) + CategoryActions(dir, out, keys[c], groups[keys[c]], dryRun)
  {
    assert keys[..c + 1][..c] == keys[..c];
  }

  // ---------------------------------------------------------------------------------------
  // Deleting the top-level files (lines 142-165)

  /** Whether an entry is deleted: a regular file whose suffix is listed (an empty list deletes nothing). */
  predicate Deletes(types: seq<string>, e: Entry) {
    e.isFile && Lower(PathSuffix(e.name)) in types
  }

  function Deletions(dir: Path, entries: seq<Entry>, types: seq<string>): seq<Action>
    decreases |entries|
  {
    if entries == [] then []
    else
      var e := entries[|entries| - 1];
      Deletions(dir, entries[..|entries| - 1], types) + (if Deletes(types, e) then [Delete(dir + [e.name])] else [])
  }

  method DeleteNonFolderedFiles(dir: Path, entries: seq<Entry>, fileTypes: Option<seq<string>>)
    returns (deleted: seq<Action>, deletedCount: nat)
    ensures deleted == Deletions(dir, entries, TypesOrDefault(fileTypes))
    ensures deletedCount == |deleted|
  {
    var types := TypesOrDefault(fileTypes);
    deleted, deletedCount := [], 0;
    var i := 0;
    while i < |entries|
      invariant 0 <= i <= |entries|
      invariant deleted == Deletions(dir, entries[..i], types)
      invariant deletedCount == |deleted|
    {
      var item := entries[i];
      assert entries[..i + 1][..i] == entries[..i];
      if item.isFile && Lower(PathSuffix(item.name)) in types {
        deleted := deleted + [Delete(dir + [item.name])];
        deletedCount := deletedCount + 1;
      }
      i := i + 1;
    }
    assert entries[..|entries|] == entries;
  }

  /** Exactly the top-level regular files with a listed suffix are deleted, and nothing else happens. */
  lemma DeletionsExact(dir: Path, entries: seq<Entry>, types: seq<string>, a: Action)
    ensures a in Deletions(dir, entries, types) <==>
      a.Delete? && exists e :: e in entries && Deletes(types, e) && a.path == dir + [e.name]
  {
    if a in Deletions(dir, entries, types) {
      var e := DeletionHasEntry(dir, entries, types, a);
    }
    if a.Delete? && exists e :: e in entries && Deletes(types, e) && a.path == dir + [e.name] {
      var e :| e in entries && Deletes(types, e) && a.path == dir + [e.name];
      EntryIsDeleted(dir, entries, types, e);
    }
  }

  lemma {:induction false} DeletionHasEntry(dir: Path, entries: seq<Entry>, types: seq<string>, a: Action)
    returns (e: Entry)
    requires a in Deletions(dir, entries, types)
    ensures a.Delete? && e in entries && Deletes(types, e) && a.path == dir + [e.name]
    decreases |entries|
  {
    var init, last := entries[..|entries| - 1], entries[|entries| - 1];
    assert entries == init + [last];
    if a in Deletions(dir, init, types) {
      e := DeletionHasEntry(dir, init, types, a);
    } else {
      e := last;
    }
  }

  lemma {:induction false} EntryIsDeleted(dir: Path, entries: seq<Entry>, types: seq<string>, e: Entry)
    requires e in entries && Deletes(types, e)
    ensures Delete(dir + [e.name]) in Deletions(dir, entries, types)
    decreases |entries|
  {
    var init, last := entries[..|entries| - 1], entries[|entries| - 1];
    assert entries == init + [last];
    if e != last {
      EntryIsDeleted(dir, init, types, e);
    }
  }

  /** Unlike collection, an empty type list deletes nothing. */
  lemma {:induction false} EmptyTypesDeleteNothing(dir: Path, entries: seq<Entry>)
    ensures Deletions(dir, entries, []) == []
    decreases |entries|
  {
    if entries != [] {
      EmptyTypesDeleteNothing(dir, entries[..|entries| - 1]);
    }
  }

  // ---------------------------------------------------------------------------------------
  // The whole of organize_files

  /** The folder the category folders go into: the given output folder, else the source folder. */
  function OutputDir(dir: Path, output: Option<Path>): Path {
    if output.Some? then output.value else dir
  }

  function OrganizePlan(dir: Path, output: Option<Path>, entries: seq<Entry>, fileTypes: Option<seq<string>>,
                        dryRun: bool, deleteOriginals: bool): seq<Action>
  {
    var types := TypesOrDefault(fileTypes);
    var files := Collected(entries, types);
    (if output.Some? then [MakeDir(output.value)] else [])
    + CopyPlan(dir, OutputDir(dir, output), KeyOrder(files, ExtractCategory), GroupMap(files, ExtractCategory), dryRun)
    + (if deleteOriginals && !dryRun then Deletions(dir, entries, types) else [])
  }

  method OrganizeFiles(dir: Path, output: Option<Path>, entries: seq<Entry>, fileTypes: Option<seq<string>>,
                       dryRun: bool, deleteOriginals: bool) returns (plan: seq<Action>)
    ensures plan == OrganizePlan(dir, output, entries, fileTypes, dryRun, deleteOriginals)
  {
    var out := dir;
    plan := [];
    if output.Some? {
      out := output.value;
      plan := [MakeDir(out)];
    }
    var types := if fileTypes.Some? then fileTypes.value else DefaultTypes;
    var files := CollectFiles(entries, types);
    var keys, groups := GroupBy(files, ExtractCategory);
    var copies := PlanCopies(dir, out, keys, groups, dryRun);
    plan := plan + copies;
    if deleteOriginals && !dryRun {
      var deleted, deletedCount := DeleteNonFolderedFiles(dir, entries, Some(types));
      plan := plan + deleted;
    }
  }

  // ---------------------------------------------------------------------------------------
  // Properties of the plan

  lemma {:induction false} DryRunFileCopies(dir: Path, out: Path, category: string, names: seq<string>)
    ensures FileCopies(dir, out, category, names, true) == []
    decreases |names|
  {
    if names != [] {
      DryRunFileCopies(dir, out, category, names[..|names| - 1]);
    }
  }

  lemma {:induction false} DryRunCopyPlan(dir: Path, out: Path, keys: seq<string>, groups: map<string, seq<string>>)
    requires forall k :: k in keys ==> k in groups
    ensures CopyPlan(dir, out, keys, groups, true) == []
    decreases |keys|
  {
    if keys != [] {
      DryRunCopyPlan(dir, out, keys[..|keys| - 1], groups);
      DryRunFileCopies(dir, out, keys[|keys| - 1], groups[keys[|keys| - 1]]);
    }
  }

  /**
   * A dry run copies nothing, deletes nothing and creates no category folder; only the output
   * folder, when one is given, is still created (line 88 is not guarded by the dry-run flag).
   */
  lemma DryRunPlan(dir: Path, output: Option<Path>, entries: seq<Entry>, fileTypes: Option<seq<string>>, deleteOriginals: bool)
    ensures OrganizePlan(dir, output, entries, fileTypes, true, deleteOriginals) ==
      (if output.Some? then [MakeDir(output.value)] else [])
  {
    var files := Collected(entries, TypesOrDefault(fileTypes));
    DryRunCopyPlan(dir, OutputDir(dir, output), KeyOrder(files, ExtractCategory), GroupMap(files, ExtractCategory));
  }

  /** Deletion is planned only when asked for and not in a dry run. */
  lemma NoDeletionUnlessAsked(dir: Path, output: Option<Path>, entries: seq<Entry>, fileTypes: Option<seq<string>>,
                              dryRun: bool, deleteOriginals: bool, a: Action)
    requires a in OrganizePlan(dir, output, entries, fileTypes, dryRun, deleteOriginals) && a.Delete?
    ensures deleteOriginals && !dryRun
  {
    var files := Collected(entries, TypesOrDefault(fileTypes));
    var copies := CopyPlan(dir, OutputDir(dir, output), KeyOrder(files, ExtractCategory), GroupMap(files, ExtractCategory), dryRun);
    if !(deleteOriginals && !dryRun) {
      assert a in copies;
      NoDeleteInCopyPlan(dir, OutputDir(dir, output), KeyOrder(files, ExtractCategory), GroupMap(files, ExtractCategory), dryRun, a);
    }
  }

  lemma {:induction false} FileCopiesAreCopies(dir: Path, out: Path, category: string, names: seq<string>, dryRun: bool, a: Action)
    requires a in FileCopies(dir, out, category, names, dryRun)
    ensures !dryRun && a.Copy? && a.src != a.dst
    ensures exists name :: name in names && a.src == dir + [name] && a.dst == out + [category, name]
    decreases |names|
  {
    var init, name := names[..|names| - 1], names[|names| - 1];
    if a in FileCopies(dir, out, category, init, dryRun) {
      FileCopiesAreCopies(dir, out, category, init, dryRun, a);
      var n :| n in init && a.src == dir + [n] && a.dst == out + [category, n];
      assert n in names;
    } else {
      assert a in CopyStep(dir, out, category, name, dryRun);
    }
  }

  lemma {:induction false} NoDeleteInCopyPlan(dir: Path, out: Path, keys: seq<string>, groups: map<string, seq<string>>, dryRun: bool, a: Action)
    requires forall k :: k in keys ==> k in groups
    requires a in CopyPlan(dir, out, keys, groups, dryRun)
    ensures !a.Delete?
    decreases |keys|
  {
    var init, k := keys[..|keys| - 1], keys[|keys| - 1];
    if a in CopyPlan(dir, out, init, groups, dryRun) {
      NoDeleteInCopyPlan(dir, out, init, groups, dryRun, a);
    } else if a in FileCopies(dir, out, k, groups[k], dryRun) {
      FileCopiesAreCopies(dir, out, k, groups[k], dryRun, a);
    }
  }

  lemma {:induction false} CopyPlanCopy(dir: Path, out: Path, keys: seq<string>, groups: map<string, seq<string>>, dryRun: bool, a: Action)
    returns (k: string, name: string)
    requires forall k :: k in keys ==> k in groups
    requires a in CopyPlan(dir, out, keys, groups, dryRun) && a.Copy?
    ensures !dryRun && k in keys && name in groups[k] && a.src == dir + [name] && a.dst == out + [k, name] && a.src != a.dst
    decreases |keys|
  {
    var init, last := keys[..|keys| - 1], keys[|keys| - 1];
    if a in CopyPlan(dir, out, init, groups, dryRun) {
      k, name := CopyPlanCopy(dir, out, init, groups, dryRun, a);
    } else {
      assert a in FileCopies(dir, out, last, groups[last], dryRun);
      FileCopiesAreCopies(dir, out, last, groups[last], dryRun, a);
      k := last;
      name :| name in groups[k] && a.src == dir + [name] && a.dst == out + [k, name];
    }
  }

  /**
   * Every planned copy takes a collected file `name` of the source folder to
   * `output/<its category>/name`, keeping its name, and never copies a file onto itself.
   */
  lemma PlannedCopyTarget(dir: Path, output: Option<Path>, entries: seq<Entry>, fileTypes: Option<seq<string>>,
                          dryRun: bool, deleteOriginals: bool, a: Action)
    returns (name: string)
    requires a in OrganizePlan(dir, output, entries, fileTypes, dryRun, deleteOriginals) && a.Copy?
    ensures !dryRun
    ensures name in Collected(entries, TypesOrDefault(fileTypes))
    ensures a.src == dir + [name] && a.dst == OutputDir(dir, output) + [ExtractCategory(name), name]
    ensures a.src != a.dst
  {
    var types := TypesOrDefault(fileTypes);
    var files := Collected(entries, types);
    var out := OutputDir(dir, output);
    var copies := CopyPlan(dir, out, KeyOrder(files, ExtractCategory), GroupMap(files, ExtractCategory), dryRun);
    if deleteOriginals && !dryRun && a in Deletions(dir, entries, types) {
      DeletionsExact(dir, entries, types, a);
    }
    assert a in copies;
    var k;
    k, name := CopyPlanCopy(dir, out, KeyOrder(files, ExtractCategory), GroupMap(files, ExtractCategory), dryRun, a);
    MembersHaveKey(files, ExtractCategory, k);
  }

  lemma {:induction false} FileCopiesComplete(dir: Path, out: Path, category: string, names: seq<string>, name: string)
    requires name in names && dir + [name] != out + [category, name]
    ensures Copy(dir + [name], out + [category, name]) in FileCopies(dir, out, category, names, false)
    decreases |names|
  {
    var init := names[..|names| - 1];
    if name != names[|names| - 1] {
      assert names == init + [names[|names| - 1]];
      FileCopiesComplete(dir, out, category, init, name);
    }
  }

  lemma {:induction false} CopyPlanComplete(dir: Path, out: Path, keys: seq<string>, groups: map<string, seq<string>>, k: string)
    requires forall k :: k in keys ==> k in groups
    requires k in keys
    ensures MakeDir(out + [k]) in CopyPlan(dir, out, keys, groups, false)
    ensures forall name :: name in groups[k] && dir + [name] != out + [k, name] ==>
      Copy(dir + [name], out + [k, name]) in CopyPlan(dir, out, keys, groups, false)
    decreases |keys|
  {
    var init, last := keys[..|keys| - 1], keys[|keys| - 1];
    if k != last {
      assert keys == init + [last];
      CopyPlanComplete(dir, out, init, groups, k);
    } else {
      forall name | name in groups[k] && dir + [name] != out + [k, name]
        ensures Copy(dir + [name], out + [k, name]) in CopyPlan(dir, out, keys, groups, false)
      {
        FileCopiesComplete(dir, out, k, groups[k], name);
      }
    }
  }

  /**
   * Outside a dry run every collected file is copied to its category folder (unless that is
   * where it already is), and every category folder is created.
   */
  lemma EveryCollectedFileCopied(dir: Path, output: Option<Path>, entries: seq<Entry>, fileTypes: Option<seq<string>>,
                                 deleteOriginals: bool, name: string)
    requires name in Collected(entries, TypesOrDefault(fileTypes))
    ensures var out, k := OutputDir(dir, output), ExtractCategory(name);
      && MakeDir(out + [k]) in OrganizePlan(dir, output, entries, fileTypes, false, deleteOriginals)
      && (dir + [name] != out + [k, name] ==>
            Copy(dir + [name], out + [k, name]) in OrganizePlan(dir, output, entries, fileTypes, false, deleteOriginals))
  {
    var files := Collected(entries, TypesOrDefault(fileTypes));
    var out, k := OutputDir(dir, output), ExtractCategory(name);
    var i :| 0 <= i < |files| && files[i] == name;
    KeyOrderCovers(files, ExtractCategory, k);
    MembersContain(files, ExtractCategory, i);
    CopyPlanComplete(dir, out, KeyOrder(files, ExtractCategory), GroupMap(files, ExtractCategory), k);
  }

  /**
   * The copy step skips a file that already sits in its category folder (the output folder
   * joined with its category is the source folder), but deletion does not: when deletion is
   * on, that file is planned for deletion and is copied nowhere, so no copy of it is left.
   */
  lemma SkippedFileIsStillDeleted(dir: Path, output: Path, entries: seq<Entry>, fileTypes: Option<seq<string>>, e: Entry)
    requires e in entries && Deletes(TypesOrDefault(fileTypes), e)
    requires output + [ExtractCategory(e.name)] == dir
    ensures var plan := OrganizePlan(dir, Some(output), entries, fileTypes, false, true);
      && Delete(dir + [e.name]) in plan
      && forall a :: a in plan && a.Copy? ==> a.src != dir + [e.name]
  {
    var plan := OrganizePlan(dir, Some(output), entries, fileTypes, false, true);
    DeletionInPlan(dir, Some(output), entries, fileTypes, e);
    forall a | a in plan && a.Copy? ensures a.src != dir + [e.name] {
      NotCopiedOntoItself(dir, output, entries, fileTypes, e, a);
    }
  }

  lemma DeletionInPlan(dir: Path, output: Option<Path>, entries: seq<Entry>, fileTypes: Option<seq<string>>, e: Entry)
    requires e in entries && Deletes(TypesOrDefault(fileTypes), e)
    ensures Delete(dir + [e.name]) in OrganizePlan(dir, output, entries, fileTypes, false, true)
  {
    DeletionsExact(dir, entries, TypesOrDefault(fileTypes), Delete(dir + [e.name]));
  }

  lemma NotCopiedOntoItself(dir: Path, output: Path, entries: seq<Entry>, fileTypes: Option<seq<string>>, e: Entry, a: Action)
    requires output + [ExtractCategory(e.name)] == dir
    requires a in OrganizePlan(dir, Some(output), entries, fileTypes, false, true) && a.Copy?
    ensures a.src != dir + [e.name]
  {
    var n := PlannedCopyTarget(dir, Some(output), entries, fileTypes, false, true, a);
    DistinctFromSkipped(dir, output, a, n, e.name, ExtractCategory(n), ExtractCategory(e.name));
  }

  lemma DistinctFromSkipped(dir: Path, output: Path, a: Action, n: string, name: string, c: string, d: string)
    requires a.Copy? && a.src == dir + [n] && a.dst == output + [c, n] && a.src != a.dst
    requires output + [d] == dir
    requires n == name ==> c == d
    ensures a.src != dir + [name]
  {
    if n == name {
      SameFolderSamePath(output, d, dir, name);
    } else {
      assert (dir + [n])[|dir|] == n && (dir + [name])[|dir|] == name;
    }
  }

  lemma SameFolderSamePath(out: Path, c: string, dir: Path, n: string)
    requires out + [c] == dir
    ensures out + [c, n] == dir + [n]
  {
    assert out + [c, n] == (out + [c]) + [n];
  }
}
