/** Python's `f"{i:02d}"` for a natural number: its decimal digits, padded with zeros to at least two. */
module DecimalFormat {
  import opened Strings

  predicate AllDigits(s: string) {
    forall i :: 0 <= i < |s| ==> IsDigit(s[i])
  }

  function DigitChar(d: nat): (c: char)
    requires d < 10
    ensures IsDigit(c) && c as int - '0' as int == d
  {
    ('0' as int + d) as char
  }

  /** The decimal representation without leading zeros (`str(n)`). */
  function Decimal(n: nat): (r: string)
    ensures AllDigits(r) && r != []
    ensures r[0] == '0' ==> n == 0
    decreases n
  {
    if n < 10 then [DigitChar(n)] else Decimal(n / 10) + [DigitChar(n % 10)]
  }

  /** `f"{n:02d}"`. */
  function Pad2(n: nat): (r: string)
    ensures AllDigits(r)
  {
    if n < 10 then "0" + Decimal(n) else Decimal(n)
  }

  /** The value of a string of decimal digits. */
  function ParseDecimal(s: string): nat
    requires AllDigits(s)
    decreases |s|
  {
    if s == [] then 0 else ParseDecimal(s[..|s| - 1]) * 10 + (s[|s| - 1] as int - '0' as int)
  }

  lemma {:induction false} ParseDecimalOfDecimal(n: nat)
    ensures ParseDecimal(Decimal(n)) == n
    decreases n
  {
    if n >= 10 {
      var r := Decimal(n);
      assert r[..|r| - 1] == Decimal(n / 10);
      ParseDecimalOfDecimal(n / 10);
    }
  }

  /** Leading zeros do not change the value. */
  lemma {:induction false} ParseDecimalLeadingZero(s: string)
    requires AllDigits(s)
    ensures ParseDecimal("0" + s) == ParseDecimal(s)
    decreases |s|
  {
    if s != [] {
      assert ("0" + s)[..|"0" + s| - 1] == "0" + s[..|s| - 1];
      ParseDecimalLeadingZero(s[..|s| - 1]);
    } else {
      assert ("0" + s)[..0] == [];
    }
  }

  /** Reading the padded number back gives the number. */
  lemma Pad2RoundTrip(n: nat)
    ensures ParseDecimal(Pad2(n)) == n
  {
    ParseDecimalOfDecimal(n);
    if n < 10 {
      ParseDecimalLeadingZero(Decimal(n));
    }
  }

  /** So distinct numbers are written differently. */
  lemma Pad2Injective(i: nat, j: nat)
    requires i != j
    ensures Pad2(i) != Pad2(j)
  {
    Pad2RoundTrip(i);
    Pad2RoundTrip(j);
  }

  /** The padding: at least two digits, exactly two below 100, and a leading zero exactly below 10. */
  lemma {:induction false} Pad2Width(n: nat)
    ensures |Pad2(n)| >= 2
    ensures n < 100 ==> |Pad2(n)| == 2
    ensures Pad2(n)[0] == '0' <==> n < 10
  {
    if n >= 10 {
      assert Decimal(n) == Decimal(n / 10) + [DigitChar(n % 10)];
      if n < 100 {
        assert n / 10 < 10;
      }
    }
  }

  /** A digit string that does not start with `0` has a positive value. */
  lemma {:induction false} ParseDecimalPositive(s: string)
    requires AllDigits(s) && s != [] && s[0] != '0'
    ensures ParseDecimal(s) > 0
    decreases |s|
  {
    if |s| > 1 {
      assert s[..|s| - 1][0] == s[0];
      ParseDecimalPositive(s[..|s| - 1]);
    }
  }

  /** `str(n)` is the only digit string of value n without a superfluous leading zero. */
  lemma {:induction false} DecimalUnique(n: nat, s: string)
    requires AllDigits(s) && s != [] && (s[0] == '0' ==> |s| == 1)
    requires ParseDecimal(s) == n
    ensures s == Decimal(n)
    decreases |s|
  {
    var init := s[..|s| - 1];
    if |s| == 1 {
      assert init == [];
      assert s == [DigitChar(n)];
    } else {
      assert init[0] == s[0];
      ParseDecimalPositive(init);
      DecimalUnique(n / 10, init);
      assert s == init + [s[|s| - 1]];
    }
  }

  /**
   * `f"{n:02d}"` is the only digit string of value n that has at least two digits and starts with
   * `0` only when it has exactly two: the padding adds no zero beyond the second place.
   */
  lemma Pad2Unique(n: nat, s: string)
    requires AllDigits(s) && |s| >= 2 && (s[0] == '0' ==> |s| == 2)
    requires ParseDecimal(s) == n
    ensures s == Pad2(n)
  {
    if s[0] == '0' {
      var t := s[1..];
      assert s == "0" + t;
      ParseDecimalLeadingZero(t);
      DecimalUnique(n, t);
    } else {
      DecimalUnique(n, s);
      Pad2Width(n);
    }
  }
}
