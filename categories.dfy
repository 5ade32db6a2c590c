/**
 * `extract_category` of organize_files.py: the category a sprite file name belongs to.
 * The rules are tried in order: the fixed prefix table (with an optional leading `_`),
 * the text after the first `__`, the letter run after a leading `_`, and finally the name
 * with its extension removed. Every regular expression of the source is a fixed literal
 * pattern and is written out by hand.
 */
module Categories {
  import opened Options
  import opened Strings

  /** The five categories of the pattern table, in the order they are tried. */
  const Table: seq<string> := ["IconArt", "Frame", "Doodad", "Window", "Button"]

  /** `re.match(r'^_?<w>', s)`. */
  predicate MatchesEntry(s: string, w: string) {
    StartsWith(s, w) || StartsWith(s, "_" + w)
  }

  /** The loop over the pattern table: the first entry from index `k` on that matches. */
  function TableMatchFrom(s: string, k: nat): (r: Option<string>)
    requires k <= |Table|
    ensures r.Some? ==> exists j :: k <= j < |Table| && Table[j] == r.value && MatchesEntry(s, Table[j])
    ensures r.None? ==> forall j :: k <= j < |Table| ==> !MatchesEntry(s, Table[j])
    decreases |Table| - k
  {
    if k == |Table| then None
    else if MatchesEntry(s, Table[k]) then Some(Table[k])
    else TableMatchFrom(s, k + 1)
  }

  function TableMatch(s: string): Option<string> {
    TableMatchFrom(s, 0)
  }

  /** `filename.split('/')[-1]`: the text after the last `/`, or the whole name. */
  function AfterLastSlash(s: string): (r: string)
    ensures '/' !in r
    ensures EndsWith(s, r)
    ensures '/' !in s ==> r == s
    ensures '/' in s ==> |r| < |s| && s[|s| - |r| - 1] == '/'
  {
    match LastIndex(s, '/')
    case None => s
    case Some(i) =>
      var r := s[i + 1..];
      assert forall k :: 0 <= k < |r| ==> r[k] == s[i + 1 + k];
      r
  }

  predicate DoubleUnderscoreAt(s: string, p: nat) {
    p + 1 < |s| && s[p] == '_' && s[p + 1] == '_'
  }

  /** `str.find('__')` from index `from`: the leftmost `__`, as `split('__', 1)` uses it. */
  function FindDoubleUnderscore(s: string, from: nat): (r: Option<nat>)
    ensures r.Some? ==> from <= r.value && DoubleUnderscoreAt(s, r.value)
    ensures r.Some? ==> forall q :: from <= q < r.value ==> !DoubleUnderscoreAt(s, q)
    ensures r.None? ==> forall q :: from <= q ==> !DoubleUnderscoreAt(s, q)
    decreases |s| - from
  {
    if from + 1 >= |s| then None
    else if DoubleUnderscoreAt(s, from) then Some(from)
    else FindDoubleUnderscore(s, from + 1)
  }

  /** `re.match(r'([A-Za-z]+)', s)`: the longest prefix of ASCII letters (empty when there is no match). */
  function LetterRun(s: string): (r: string)
    ensures StartsWith(s, r)
    ensures forall i :: 0 <= i < |r| ==> IsAsciiLetter(r[i])
    ensures |r| < |s| ==> !IsAsciiLetter(s[|r|])
    decreases |s|
  {
    if s == [] || !IsAsciiLetter(s[0]) then []
    else [s[0]] + LetterRun(s[1..])
  }

  /** The index of the last `c` in `s`, if any. */
  function LastIndex(s: string, c: char): (r: Option<nat>)
    ensures r.Some? ==> r.value < |s| && s[r.value] == c && forall j :: r.value < j < |s| ==> s[j] != c
    ensures r.None? ==> forall j :: 0 <= j < |s| ==> s[j] != c
    decreases |s|
  {
    if s == [] then None
    else if s[|s| - 1] == c then Some(|s| - 1)
    else LastIndex(s[..|s| - 1], c)
  }

  /** The index of the last `.` in `s`. */
  function LastDot(s: string): (r: Option<nat>)
    ensures r.Some? ==> r.value < |s| && s[r.value] == '.' && forall j :: r.value < j < |s| ==> s[j] != '.'
    ensures r.None? ==> forall j :: 0 <= j < |s| ==> s[j] != '.'
  {
    LastIndex(s, '.')
  }

  predicate AllDots(s: string) {
    forall j :: 0 <= j < |s| ==> s[j] == '.'
  }

  /**
   * `os.path.splitext(s)[0]` for a name without `/`: the part before the last dot, unless every
   * character before that dot is itself a dot (leading dots do not start an extension).
   */
  function SplitExtRoot(s: string): (root: string)
    requires '/' !in s
    ensures StartsWith(s, root)
    ensures s != [] ==> root != []
    ensures root == s || (s[|root|] == '.' && !AllDots(root) && forall j :: |root| < j < |s| ==> s[j] != '.')
    ensures root == s ==> LastDot(s).None? || AllDots(s[..LastDot(s).value])
  {
    match LastDot(s)
    case None => s
    case Some(i) => if AllDots(s[..i]) then s else s[..i]
  }

  /** The word that the text after `__` starts with: a table word, else its letter run, if any. */
  function WordAfter(after: string): Option<string> {
    if TableMatch(after).Some? then TableMatch(after)
    else if LetterRun(after) != [] then Some(LetterRun(after))
    else None
  }

  /** Lines 42-55: the category taken from the text after the first `__`, if any. */
  function DoubleUnderscoreRule(name: string): Option<string> {
    match FindDoubleUnderscore(name, 0)
    case None => None
    case Some(p) => WordAfter(name[p + 2..])
  }

  /** Lines 58-65: the letter run right after a leading `_`, if any. */
  function UnderscoreRule(name: string): Option<string> {
    if StartsWith(name, "_") && LetterRun(name[1..]) != [] then Some(LetterRun(name[1..])) else None
  }

  /** `extract_category(filename)`: the rules below applied to the last path component. */
  function ExtractCategory(filename: string): string {
    CategoryOfName(AfterLastSlash(filename))
  }

  /** The rules of `extract_category`, in order, on a name without a directory part. */
  function CategoryOfName(name: string): string
    requires '/' !in name
  {
    if TableMatch(name).Some? then TableMatch(name).value
    else if DoubleUnderscoreRule(name).Some? then DoubleUnderscoreRule(name).value
    else if UnderscoreRule(name).Some? then UnderscoreRule(name).value
    else SplitExtRoot(name)
  }

  // ---------------------------------------------------------------------------------------
  // Properties of the prefix table

  /** The table words start with five different letters, none of them `_`. */
  lemma TableHeadsDistinct(i: nat, j: nat)
    requires i < |Table| && j < |Table|
    ensures Table[i] != [] && Table[i][0] != '_'
    ensures Table[i][0] == Table[j][0] ==> i == j
  {
    assert Table[0][0] == 'I' && Table[1][0] == 'F' && Table[2][0] == 'D';
    assert Table[3][0] == 'W' && Table[4][0] == 'B';
  }

  /** Which word can match is decided by the first letter after an optional leading `_`. */
  lemma MatchedHead(s: string, w: string)
    requires w != [] && w[0] != '_' && MatchesEntry(s, w)
    ensures s != [] && (s[0] == '_' ==> |s| > 1 && s[1] == w[0]) && (s[0] != '_' ==> s[0] == w[0])
  {
    if StartsWith(s, w) {
      assert s[0] == s[..|w|][0];
    } else {
      assert s[..|w| + 1] == "_" + w;
      assert s[0] == s[..|w| + 1][0] && s[1] == s[..|w| + 1][1];
    }
  }

  /** Hence at most one entry matches a name, with or without a leading `_`. */
  lemma AtMostOneEntryMatches(s: string, i: nat, j: nat)
    requires i < |Table| && j < |Table|
    requires MatchesEntry(s, Table[i]) && MatchesEntry(s, Table[j])
    ensures i == j
  {
    TableHeadsDistinct(i, j);
    TableHeadsDistinct(j, i);
    MatchedHead(s, Table[i]);
    MatchedHead(s, Table[j]);
  }

  /** The table lookup finds entry `k` exactly when entry `k` matches. */
  lemma {:induction false} TableMatchIff(s: string, k: nat)
    requires k < |Table|
    ensures TableMatch(s) == Some(Table[k]) <==> MatchesEntry(s, Table[k])
  {
    if MatchesEntry(s, Table[k]) {
      var r := TableMatch(s);
      var j :| 0 <= j < |Table| && Table[j] == r.value && MatchesEntry(s, Table[j]);
      AtMostOneEntryMatches(s, j, k);
    }
  }

  /** A name whose first character starts no table word and is not `_` matches no entry. */
  lemma TableHeads(s: string)
    requires s != [] && s[0] !in "IFDWB_"
    ensures TableMatch(s).None?
  {
    assert Table[0][0] == 'I' && Table[1][0] == 'F' && Table[2][0] == 'D';
    assert Table[3][0] == 'W' && Table[4][0] == 'B';
    forall j | 0 <= j < |Table| ensures !MatchesEntry(s, Table[j]) {
      assert ("_" + Table[j])[0] == '_';
    }
  }

  // ---------------------------------------------------------------------------------------
  // Properties of extract_category, rule by rule

  /** Only the text after the last `/` matters, for every rule including the `__` one. */
  lemma CategoryUsesLastComponent(filename: string)
    ensures ExtractCategory(filename) == ExtractCategory(AfterLastSlash(filename))
  {
    var name := AfterLastSlash(filename);
    assert AfterLastSlash(name) == name;
  }

  /** A name starting with a table word (after an optional `_`) is classified as that word. */
  lemma CategoryFromTable(filename: string, k: nat)
    requires k < |Table|
    requires MatchesEntry(AfterLastSlash(filename), Table[k])
    ensures ExtractCategory(filename) == Table[k]
  {
    TableMatchIff(AfterLastSlash(filename), k);
  }

  /**
   * With no table match on the name, a `__` in it makes the text after the first `__` decide:
   * a table word there, else its leading letter run, which is nonempty and all letters.
   */
  lemma CategoryAfterDoubleUnderscore(filename: string, p: nat)
    requires var name := AfterLastSlash(filename);
      && TableMatch(name).None?
      && DoubleUnderscoreAt(name, p)
      && forall q :: 0 <= q < p ==> !DoubleUnderscoreAt(name, q)
    ensures var after := AfterLastSlash(filename)[p + 2..];
      && (forall k :: 0 <= k < |Table| && MatchesEntry(after, Table[k]) ==> ExtractCategory(filename) == Table[k])
      && (TableMatch(after).None? && LetterRun(after) != [] ==>
            && ExtractCategory(filename) == LetterRun(after)
            && StartsWith(after, ExtractCategory(filename))
            && forall i :: 0 <= i < |ExtractCategory(filename)| ==> IsAsciiLetter(ExtractCategory(filename)[i]))
  {
    var name := AfterLastSlash(filename);
    var after := name[p + 2..];
    assert FindDoubleUnderscore(name, 0) == Some(p);
    forall k | 0 <= k < |Table| && MatchesEntry(after, Table[k])
      ensures ExtractCategory(filename) == Table[k]
    {
      TableMatchIff(after, k);
    }
  }

  /** Otherwise a leading `_` followed by letters gives that letter run. */
  lemma CategoryAfterUnderscore(filename: string)
    requires var name := AfterLastSlash(filename);
      && TableMatch(name).None?
      && DoubleUnderscoreRule(name).None?
      && StartsWith(name, "_")
      && LetterRun(name[1..]) != []
    ensures ExtractCategory(filename) == LetterRun(AfterLastSlash(filename)[1..])
    ensures StartsWith(AfterLastSlash(filename)[1..], ExtractCategory(filename))
  {
  }

  /** Failing all rules, the category is the name without its final extension. */
  lemma CategoryFallback(filename: string)
    requires var name := AfterLastSlash(filename);
      && TableMatch(name).None?
      && DoubleUnderscoreRule(name).None?
      && UnderscoreRule(name).None?
    ensures ExtractCategory(filename) == SplitExtRoot(AfterLastSlash(filename))
    ensures StartsWith(AfterLastSlash(filename), ExtractCategory(filename))
  {
  }

  /** A matching table word sits at offset 0, or at offset 1 after the `_`. */
  lemma TableWordOffset(s: string, w: string) returns (i: nat)
    requires MatchesEntry(s, w)
    ensures i + |w| <= |s| && s[i..i + |w|] == w
  {
    if StartsWith(s, w) {
      i := 0;
    } else {
      i := 1;
      assert s[..|w| + 1] == "_" + w;
      assert s[1..1 + |w|] == s[..|w| + 1][1..];
    }
  }

  lemma WordAfterOffset(after: string) returns (k: nat)
    requires WordAfter(after).Some?
    ensures var w := WordAfter(after).value;
      k + |w| <= |after| && after[k..k + |w|] == w && w != []
  {
    k := 0;
    if TableMatch(after).Some? {
      k := TableMatchOffset(after);
    }
  }

  lemma DoubleUnderscoreRuleOffset(name: string) returns (i: nat)
    requires DoubleUnderscoreRule(name).Some?
    ensures var w := DoubleUnderscoreRule(name).value;
      i + |w| <= |name| && name[i..i + |w|] == w && w != []
  {
    var p := FindDoubleUnderscore(name, 0).value;
    var after := name[p + 2..];
    assert DoubleUnderscoreRule(name) == WordAfter(after);
    var w := WordAfter(after).value;
    var k := WordAfterOffset(after);
    SliceOfSuffix(name, p + 2, k, k + |w|);
    i := p + 2 + k;
  }

  lemma SliceOfSuffix(s: string, p: nat, a: nat, b: nat)
    requires p <= |s| && a <= b <= |s| - p
    ensures s[p..][a..b] == s[p + a..p + b]
  {
  }

  lemma UnderscoreRuleOffset(name: string)
    requires UnderscoreRule(name).Some?
    ensures var w := UnderscoreRule(name).value;
      1 + |w| <= |name| && name[1..1 + |w|] == w && w != []
  {
    var w := LetterRun(name[1..]);
    assert name[1..1 + |w|] == name[1..][..|w|];
  }

  /**
   * The category is a piece of the last path component, found at offset `i`; it is nonempty
   * whenever that component is. No rule can fail, so every name has a category.
   */
  lemma CategoryIsPartOfName(filename: string) returns (i: nat)
    ensures var name, r := AfterLastSlash(filename), ExtractCategory(filename);
      i + |r| <= |name| && name[i..i + |r|] == r && (name != [] ==> r != [])
  {
    i := CategoryOffset(AfterLastSlash(filename));
  }

  lemma CategoryOffset(name: string) returns (i: nat)
    requires '/' !in name
    ensures var r := CategoryOfName(name);
      i + |r| <= |name| && name[i..i + |r|] == r && (name != [] ==> r != [])
  {
    if TableMatch(name).Some? {
      i := TableMatchOffset(name);
    } else if DoubleUnderscoreRule(name).Some? {
      i := DoubleUnderscoreRuleOffset(name);
    } else if UnderscoreRule(name).Some? {
      UnderscoreRuleOffset(name);
      i := 1;
    } else {
      i := 0;
      FallbackOffset(name);
    }
  }

  lemma TableMatchOffset(s: string) returns (i: nat)
    requires TableMatch(s).Some?
    ensures var w := TableMatch(s).value;
      i + |w| <= |s| && s[i..i + |w|] == w && w != []
  {
    var w := TableMatch(s).value;
    var j :| 0 <= j < |Table| && Table[j] == w && MatchesEntry(s, Table[j]);
    TableHeadsDistinct(j, j);
    i := TableWordOffset(s, w);
  }

  lemma FallbackOffset(name: string)
    requires '/' !in name
    ensures var r := SplitExtRoot(name);
      |r| <= |name| && name[..|r|] == r && (name != [] ==> r != [])
  {
  }

  /** So the category can always serve as a folder name: it never contains `/`. */
  lemma CategoryHasNoSlash(filename: string)
    ensures '/' !in ExtractCategory(filename)
  {
    var i := CategoryIsPartOfName(filename);
    var name, r := AfterLastSlash(filename), ExtractCategory(filename);
    forall k | 0 <= k < |r| ensures r[k] != '/' {
      assert r[k] == name[i..i + |r|][k] == name[i + k];
    }
  }

  // ---------------------------------------------------------------------------------------
  // The documented examples

  /** The name after a directory part `dir/` is exactly the part after that last `/`. */
  lemma {:induction false} AfterLastSlashOfJoin(dir: string, base: string)
    requires '/' !in base
    ensures AfterLastSlash(dir + "/" + base) == base
    decreases |base|
  {
    var s := dir + "/" + base;
    if base == [] {
      assert s[|s| - 1] == '/';
    } else {
      var init := dir + "/" + base[..|base| - 1];
      assert s[..|s| - 1] == init;
      AfterLastSlashOfJoin(dir, base[..|base| - 1]);
      assert base[..|base| - 1] + [base[|base| - 1]] == base;
    }
  }

  /** The category of a frame file "1.svg" is its stem "1". */
  lemma CategoryOfNumberedFrame()
    ensures ExtractCategory("1.svg") == "1"
  {
    var s := "1.svg";
    assert '/' !in s;
    TableHeads(s);
    assert FindDoubleUnderscore(s, 0).None? by {
      forall q | 0 <= q ensures !DoubleUnderscoreAt(s, q) {
        if q + 1 < |s| { assert s[q] != '_'; }
      }
    }
    assert !StartsWith(s, "_") by { assert s[..1] == "1"; }
    assert s == "1" + "." + "svg";
    LastDotOfExtension("1", "svg");
    assert !AllDots(s[..1]);
    assert s[..1] == "1";
  }

  /** The last dot of `stem.ext` is the one before `ext` when `ext` has none. */
  lemma {:induction false} LastDotOfExtension(stem: string, ext: string)
    requires '.' !in ext
    ensures LastDot(stem + "." + ext) == Some(|stem|)
    decreases |ext|
  {
    var s := stem + "." + ext;
    if ext == [] {
      assert s[|s| - 1] == '.';
    } else {
      var init := ext[..|ext| - 1];
      assert s[..|s| - 1] == stem + "." + init;
      assert s[|s| - 1] == ext[|ext| - 1];
      assert ext[|ext| - 1] in ext;
      assert forall c :: c in init ==> c in ext;
      LastDotOfExtension(stem, init);
    }
  }

  /**
   * The docstring examples "DefineSprite_265__IconArtStoreFront14/1.svg" and
   * "DefineSprite_539__FrameBendBronze01/1.svg" do not give "IconArt" and "Frame": whatever
   * the folder part, the name is first cut down to "1.svg", whose category is "1".
   */
  lemma {:induction false} FramesInFolderGiveStem(dir: string)
    ensures ExtractCategory(dir + "/1.svg") == "1"
  {
    assert '/' !in "1.svg";
    assert dir + "/1.svg" == dir + "/" + "1.svg";
    AfterLastSlashOfJoin(dir, "1.svg");
    CategoryOfNumberedFrame();
  }

  /**
   * The docstring examples without a folder part ("_IconArtStoreFront14.svg" -> "IconArt",
   * "_ButtonFrameStandard08.svg" -> "Button", ...): `_`, a table word, then any text without `/`.
   */
  lemma {:induction false} UnderscoreWordNames(k: nat, rest: string)
    requires k < |Table| && '/' !in rest
    ensures ExtractCategory("_" + Table[k] + rest) == Table[k]
  {
    var s := "_" + Table[k] + rest;
    assert '/' !in Table[k] by {
      assert '/' !in Table[0] && '/' !in Table[1] && '/' !in Table[2];
      assert '/' !in Table[3] && '/' !in Table[4];
    }
    assert '/' !in s by {
      forall c | c in s ensures c != '/' {
        assert c in "_" + Table[k] || c in rest;
      }
    }
    assert s[..|Table[k]| + 1] == "_" + Table[k];
    CategoryFromTable(s, k);
  }
}
