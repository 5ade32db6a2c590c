/**
 * The proper name of an exported sprite folder (`extract_proper_name`). Two regular-expression
 * searches are tried in turn and the first that succeeds gives the name:
 *   - `a_(.+)$`: everything after the leftmost `a_` that is followed by at least one character;
 *   - `DefineSprite_(\d+)_(.+)$`: everything after the leftmost `DefineSprite_<digits>_` that is
 *     followed by at least one character;
 * and otherwise the folder name itself. Each search is written out here as the scan over start
 * positions that `re.search` performs.
 */
module ProperNames {
  import opened Options
  import opened Strings

  // ---------------------------------------------------------------------------------------
  // The search for `a_(.+)$`

  /** `a_(.+)$` matches at `p`: `a_` there and at least one character after it. */
  predicate AMatchAt(s: string, p: int) {
    0 <= p && p + 2 < |s| && s[p] == 'a' && s[p + 1] == '_'
  }

  /** The leftmost start position at or after `from` where `a_(.+)$` matches. */
  function FindA(s: string, from: nat): (r: Option<nat>)
    ensures r.Some? ==> from <= r.value && AMatchAt(s, r.value)
    ensures r.Some? ==> forall p :: from <= p < r.value ==> !AMatchAt(s, p)
    ensures r.None? ==> forall p :: from <= p ==> !AMatchAt(s, p)
    decreases |s| - from
  {
    if from + 2 >= |s| then None
    else if AMatchAt(s, from) then Some(from)
    else FindA(s, from + 1)
  }

  // ---------------------------------------------------------------------------------------
  // The search for `DefineSprite_(\d+)_(.+)$`

  const Marker := "DefineSprite_"

  /** The end of the run of digits starting at `q` (what the greedy `\d+` takes). */
  function DigitsEnd(s: string, q: nat): (r: nat)
    requires q <= |s|
    ensures q <= r <= |s|
    ensures forall k :: q <= k < r ==> IsDecimalDigit(s[k])
    ensures r < |s| ==> !IsDecimalDigit(s[r])
    decreases |s| - q
  {
    if q < |s| && IsDecimalDigit(s[q]) then DigitsEnd(s, q + 1) else q
  }

  /**
   * `DefineSprite_(\d+)_(.+)$` matches at `p`: the marker, at least one digit, and after the
   * digits an underscore followed by at least one character. Backtracking `\d+` to a shorter
   * run cannot help, since the character after a shorter run is a digit and not `_`.
   */
  predicate DefineSpriteMatchAt(s: string, p: int) {
    0 <= p && p + |Marker| <= |s| && s[p..p + |Marker|] == Marker &&
    var r := DigitsEnd(s, p + |Marker|);
    p + |Marker| < r && r + 1 < |s| && s[r] == '_'
  }

  /** The second group of a match at `p`. */
  function DefineSpriteName(s: string, p: int): (r: string)
    requires DefineSpriteMatchAt(s, p)
    ensures r != [] && EndsWith(s, r)
  {
    s[DigitsEnd(s, p + |Marker|) + 1..]
  }

  /** The leftmost start position at or after `from` where `DefineSprite_(\d+)_(.+)$` matches. */
  function FindDefineSprite(s: string, from: nat): (r: Option<nat>)
    ensures r.Some? ==> from <= r.value && DefineSpriteMatchAt(s, r.value)
    ensures r.Some? ==> forall p :: from <= p < r.value ==> !DefineSpriteMatchAt(s, p)
    ensures r.None? ==> forall p :: from <= p ==> !DefineSpriteMatchAt(s, p)
    decreases |s| - from
  {
    if from + |Marker| > |s| then None
    else if DefineSpriteMatchAt(s, from) then Some(from)
    else FindDefineSprite(s, from + 1)
  }

  // ---------------------------------------------------------------------------------------
  // extract_proper_name

  /** The proper name: always an ending of the folder name, and never empty for a nonempty name. */
  function ExtractProperName(folderName: string): (r: string)
    ensures EndsWith(folderName, r)
    ensures folderName != [] ==> r != []
  {
    match FindA(folderName, 0)
    case Some(p) => folderName[p + 2..]
    case None =>
      match FindDefineSprite(folderName, 0)
      case Some(p) => DefineSpriteName(folderName, p)
      case None => folderName
  }

  /** The first rule: the leftmost `a_` with something after it decides the name. */
  lemma ProperNameFromA(s: string, p: nat)
    requires AMatchAt(s, p)
    requires forall q :: 0 <= q < p ==> !AMatchAt(s, q)
    ensures ExtractProperName(s) == s[p + 2..]
  {
  }

  /** A match of the second pattern splits the name from there into marker, digits, `_` and the rest. */
  lemma DefineSpriteMatchParts(s: string, p: int)
    requires DefineSpriteMatchAt(s, p)
    ensures var rest := DefineSpriteName(s, p);
            var digits := s[p + |Marker|..|s| - |rest| - 1];
            s[p..] == Marker + digits + "_" + rest &&
            digits != [] && (forall k :: 0 <= k < |digits| ==> IsDecimalDigit(digits[k])) && rest != []
  {
    var q := p + |Marker|;
    var r := DigitsEnd(s, q);
    var digits := s[q..r];
    assert |s| - |DefineSpriteName(s, p)| - 1 == r;
    assert s[p..] == s[p..q] + s[q..];
    assert s[q..] == digits + s[r..];
    assert s[r..] == "_" + s[r + 1..];
    forall k | 0 <= k < |digits| ensures IsDecimalDigit(digits[k]) {
      assert digits[k] == s[q + k];
    }
  }

  /** Conversely, any such split is a match, whose second group is the rest. */
  lemma DefineSpriteMatchFromParts(s: string, p: nat, digits: string, rest: string)
    requires p <= |s| && s[p..] == Marker + digits + "_" + rest
    requires digits != [] && (forall k :: 0 <= k < |digits| ==> IsDecimalDigit(digits[k])) && rest != []
    ensures DefineSpriteMatchAt(s, p) && DefineSpriteName(s, p) == rest
  {
    var q := p + |Marker|;
    assert forall k :: 0 <= k < |digits| ==> s[q + k] == digits[k] by {
      forall k | 0 <= k < |digits| ensures s[q + k] == digits[k] {
        assert s[q + k] == s[p..][|Marker| + k];
      }
    }
    DigitsRunEnd(s, q, q + |digits|);
    assert s[q + |digits|] == s[p..][|Marker| + |digits|];
    assert s[p..p + |Marker|] == s[p..][..|Marker|];
    assert s[q + |digits| + 1..] == s[p..][|Marker| + |digits| + 1..];
  }

  /** A run of digits ended by a non-digit is exactly what `DigitsEnd` finds. */
  lemma {:induction false} DigitsRunEnd(s: string, q: nat, e: nat)
    requires q <= e < |s|
    requires forall k :: q <= k < e ==> IsDecimalDigit(s[k])
    requires !IsDecimalDigit(s[e])
    ensures DigitsEnd(s, q) == e
    decreases e - q
  {
    if q < e {
      DigitsRunEnd(s, q + 1, e);
    }
  }

  /** The second rule: without any `a_` match, the leftmost sprite marker decides the name. */
  lemma ProperNameFromDefineSprite(s: string, p: nat)
    requires forall q :: 0 <= q ==> !AMatchAt(s, q)
    requires DefineSpriteMatchAt(s, p)
    requires forall q :: 0 <= q < p ==> !DefineSpriteMatchAt(s, q)
    ensures ExtractProperName(s) == DefineSpriteName(s, p)
  {
  }

  /** Otherwise the folder name is kept as it is. */
  lemma ProperNameFallback(s: string)
    requires forall q :: 0 <= q ==> !AMatchAt(s, q)
    requires forall q :: 0 <= q ==> !DefineSpriteMatchAt(s, q)
    ensures ExtractProperName(s) == s
  {
  }

  // ---------------------------------------------------------------------------------------
  // The documented folder shapes

  /** The marker contains no `a`, so nothing in it starts an `a_` match. */
  lemma NoAInMarkerAndDigits(s: string, digits: string, q: int)
    requires |Marker| + |digits| <= |s| && s[..|Marker| + |digits|] == Marker + digits
    requires forall k :: 0 <= k < |digits| ==> IsDecimalDigit(digits[k])
    requires 0 <= q < |Marker| + |digits|
    ensures s[q] != 'a'
  {
    assert s[q] == (Marker + digits)[q];
  }

  /** `DefineSprite_<digits>_a_<rest>` is named `<rest>` (the frame-labelled folders). */
  lemma FrameLabelledName(digits: string, rest: string)
    requires forall k :: 0 <= k < |digits| ==> IsDecimalDigit(digits[k])
    requires rest != []
    ensures ExtractProperName(Marker + digits + "_a_" + rest) == rest
  {
    var s := Marker + digits + "_a_" + rest;
    var p := |Marker| + |digits| + 1;
    assert s[..|Marker| + |digits|] == Marker + digits;
    forall q | 0 <= q < p ensures !AMatchAt(s, q) {
      if q < |Marker| + |digits| {
        NoAInMarkerAndDigits(s, digits, q);
      } else {
        assert s[q] == '_';
      }
    }
    assert s[p] == 'a' && s[p + 1] == '_';
    assert s[p + 2..] == rest;
    ProperNameFromA(s, p);
  }

  /** `DefineSprite_<digits>_<rest>` is named `<rest>` when `<rest>` holds no `a_` match. */
  lemma PlainSpriteName(digits: string, rest: string)
    requires digits != [] && forall k :: 0 <= k < |digits| ==> IsDecimalDigit(digits[k])
    requires rest != [] && forall q :: 0 <= q ==> !AMatchAt(rest, q)
    ensures ExtractProperName(Marker + digits + "_" + rest) == rest
  {
    var s := Marker + digits + "_" + rest;
    var base := |Marker| + |digits| + 1;
    assert s[..|Marker| + |digits|] == Marker + digits;
    forall q | 0 <= q ensures !AMatchAt(s, q) {
      if q < |Marker| + |digits| {
        NoAInMarkerAndDigits(s, digits, q);
      } else if q == |Marker| + |digits| {
        assert s[q] == '_';
      } else if q + 1 < |s| {
        assert s[q] == rest[q - base] && s[q + 1] == rest[q - base + 1];
        assert !AMatchAt(rest, q - base);
      }
    }
    assert s[0..] == s;
    DefineSpriteMatchFromParts(s, 0, digits, rest);
    ProperNameFromDefineSprite(s, 0);
  }

  /**
   * `a_` is not only the frame label: a word ending in `a` followed by `_` also ends the search,
   * so `DefineSprite_<digits>_<w>a_<rest>` is named `<rest>` when `<w>` holds no `a_` of its own.
   */
  lemma WordEndingInACutsName(digits: string, w: string, rest: string)
    requires forall k :: 0 <= k < |digits| ==> IsDecimalDigit(digits[k])
    requires forall q :: 0 <= q < |w| - 1 ==> !(w[q] == 'a' && w[q + 1] == '_')
    requires rest != []
    ensures ExtractProperName(Marker + digits + "_" + w + "a_" + rest) == rest
  {
    var s := Marker + digits + "_" + w + "a_" + rest;
    var base := |Marker| + |digits| + 1;
    var p := base + |w|;
    assert s[..|Marker| + |digits|] == Marker + digits;
    forall q | 0 <= q < p ensures !AMatchAt(s, q) {
      if q < |Marker| + |digits| {
        NoAInMarkerAndDigits(s, digits, q);
      } else if q == |Marker| + |digits| {
        assert s[q] == '_';
      } else if q < p - 1 {
        assert s[q] == w[q - base] && s[q + 1] == w[q - base + 1];
      } else {
        assert s[q + 1] == 'a';
      }
    }
    assert s[p] == 'a' && s[p + 1] == '_';
    assert s[p + 2..] == rest;
    ProperNameFromA(s, p);
  }

  /** The frame-labelled folder name given as an example. */
  lemma FrameLabelledExample()
    ensures ExtractProperName("DefineSprite_2_a_WaistSide_ThunderGolem") == "WaistSide_ThunderGolem"
  {
    assert "DefineSprite_2_a_WaistSide_ThunderGolem" == Marker + "2" + "_a_" + "WaistSide_ThunderGolem";
    FrameLabelledName("2", "WaistSide_ThunderGolem");
  }

  /** The proper name can be `..`, which names the parent folder when used as a path component. */
  lemma ParentProperNameExample()
    ensures ExtractProperName("DefineSprite_7_a_..") == ".."
  {
    assert "DefineSprite_7_a_.." == Marker + "7" + "_a_" + "..";
    FrameLabelledName("7", "..");
  }

  lemma NoAMatchInExampleRest()
    ensures forall q :: 0 <= q ==> !AMatchAt("Torso_EscapedGladiator", q)
  {
    assert FindA("Torso_EscapedGladiator", 0).None?;
  }

  /** The plain folder name given as an example. */
  lemma PlainExample()
    ensures ExtractProperName("DefineSprite_1234_Torso_EscapedGladiator") == "Torso_EscapedGladiator"
  {
    var rest := "Torso_EscapedGladiator";
    NoAMatchInExampleRest();
    assert "DefineSprite_1234_Torso_EscapedGladiator" == Marker + "1234" + "_" + rest;
    PlainSpriteName("1234", rest);
  }

  /** `\d` takes any Unicode decimal digit: with the Arabic-Indic digit three the marker rule applies. */
  lemma UnicodeDigitExample()
    ensures ExtractProperName("DefineSprite_\U{0663}_Torso") == "Torso"
  {
    assert IsDecimalDigit('\U{0663}');
    assert FindA("Torso", 0).None?;
    assert "DefineSprite_\U{0663}_Torso" == Marker + "\U{0663}" + "_" + "Torso";
    PlainSpriteName("\U{0663}", "Torso");
  }
}
