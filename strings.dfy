/** Character and string predicates shared by both scripts. Case mapping is ASCII only. */
module Strings {

  predicate StartsWith(s: string, p: string) {
    |p| <= |s| && s[..|p|] == p
  }

  predicate EndsWith(s: string, p: string) {
    |p| <= |s| && s[|s| - |p|..] == p
  }

  predicate IsAsciiLetter(c: char) {
    ('A' <= c <= 'Z') || ('a' <= c <= 'z')
  }

  predicate IsDigit(c: char) {
    '0' <= c <= '9'
  }

  /** `n` is one of the ten code points from `zero` on. */
  predicate Ten(n: int, zero: int) {
    zero <= n < zero + 10
  }

  /**
   * The blocks of ten decimal digits beyond ASCII in Unicode 15.0 (general category Nd), each
   * given by the code point of its zero. With `0`-`9` these are the characters for which
   * `str.isdecimal` holds and which `\d` matches in a pattern compiled from a `str`.
   */
  predicate InDigitBlock(n: int) {
    Ten(n, 0x660) || Ten(n, 0x6F0) || Ten(n, 0x7C0) || Ten(n, 0x966) || Ten(n, 0x9E6) || Ten(n, 0xA66)
    || Ten(n, 0xAE6) || Ten(n, 0xB66) || Ten(n, 0xBE6) || Ten(n, 0xC66) || Ten(n, 0xCE6) || Ten(n, 0xD66)
    || Ten(n, 0xDE6) || Ten(n, 0xE50) || Ten(n, 0xED0) || Ten(n, 0xF20) || Ten(n, 0x1040) || Ten(n, 0x1090)
    || Ten(n, 0x17E0) || Ten(n, 0x1810) || Ten(n, 0x1946) || Ten(n, 0x19D0) || Ten(n, 0x1A80) || Ten(n, 0x1A90)
    || Ten(n, 0x1B50) || Ten(n, 0x1BB0) || Ten(n, 0x1C40) || Ten(n, 0x1C50) || Ten(n, 0xA620) || Ten(n, 0xA8D0)
    || Ten(n, 0xA900) || Ten(n, 0xA9D0) || Ten(n, 0xA9F0) || Ten(n, 0xAA50) || Ten(n, 0xABF0) || Ten(n, 0xFF10)
    || Ten(n, 0x104A0) || Ten(n, 0x10D30) || Ten(n, 0x11066) || Ten(n, 0x110F0) || Ten(n, 0x11136) || Ten(n, 0x111D0)
    || Ten(n, 0x112F0) || Ten(n, 0x11450) || Ten(n, 0x114D0) || Ten(n, 0x11650) || Ten(n, 0x116C0) || Ten(n, 0x11730)
    || Ten(n, 0x118E0) || Ten(n, 0x11950) || Ten(n, 0x11C50) || Ten(n, 0x11D50) || Ten(n, 0x11DA0) || Ten(n, 0x11F50)
    || Ten(n, 0x16A60) || Ten(n, 0x16AC0) || Ten(n, 0x16B50) || Ten(n, 0x1D7CE) || Ten(n, 0x1D7D8) || Ten(n, 0x1D7E2)
    || Ten(n, 0x1D7EC) || Ten(n, 0x1D7F6) || Ten(n, 0x1E140) || Ten(n, 0x1E2F0) || Ten(n, 0x1E4F0) || Ten(n, 0x1E950)
    || Ten(n, 0x1FBF0)
  }

  /** What `\d` matches: a Unicode decimal digit, `0`-`9` or one of the blocks above. */
  predicate IsDecimalDigit(c: char) {
    IsDigit(c) || (c as int >= 0x660 && InDigitBlock(c as int))
  }

  /** Python's `str.lower` restricted to ASCII: upper-case letters map to lower case, all else stays. */
  function LowerChar(c: char): (r: char)
    ensures 'A' <= c <= 'Z' ==> 'a' <= r <= 'z' && r as int == c as int + 32
    ensures !('A' <= c <= 'Z') ==> r == c
  {
    if 'A' <= c <= 'Z' then (c as int + 32) as char else c
  }

  function Lower(s: string): (r: string)
    ensures |r| == |s|
    ensures forall i :: 0 <= i < |s| ==> r[i] == LowerChar(s[i])
  {
    seq(|s|, i requires 0 <= i < |s| => LowerChar(s[i]))
  }
}
