/**
 * The handful of Rust standard-library string operations the command engine
 * relies on: `str::parse::<usize>/<u64>/<i64>`, `i64::to_string`,
 * `str::to_uppercase` and `str::trim_start_matches`. Every `char` stands for
 * one byte, so `|s|` is the byte length `str::len` reports.
 */
module Text {
  import opened Wrappers

  /** Largest `usize` on the 64-bit targets the server is built for. */
  const UsizeMax: nat := 0xFFFF_FFFF_FFFF_FFFF
  const U64Max: nat := 0xFFFF_FFFF_FFFF_FFFF
  const I64Min: int := -0x8000_0000_0000_0000
  const I64Max: int := 0x7FFF_FFFF_FFFF_FFFF

  predicate IsDigit(c: char) {
    '0' <= c <= '9'
  }

  predicate AllDigits(s: string) {
    forall i :: 0 <= i < |s| ==> IsDigit(s[i])
  }

  function DigitValue(c: char): nat
    requires IsDigit(c)
  {
    c as int - '0' as int
  }

  function Digit(d: nat): (c: char)
    requires d < 10
    ensures IsDigit(c) && DigitValue(c) == d
  {
    ('0' as int + d) as char
  }

  /** Decimal value of a digit string, most significant digit first. */
  function DigitsValue(s: string): nat
    requires AllDigits(s)
    decreases |s|
  {
    if |s| == 0 then 0 else 10 * DigitsValue(s[..|s| - 1]) + DigitValue(s[|s| - 1])
  }

  /** Decimal text of a natural number, without leading zeros. */
  function NatToString(n: nat): (r: string)
    ensures |r| > 0 && AllDigits(r)
    ensures DigitsValue(r) == n
    ensures r[0] == '0' ==> r == "0"
    decreases n
  {
    if n < 10 then [Digit(n)]
    else
      var prefix := NatToString(n / 10);
      var r := prefix + [Digit(n % 10)];
      assert r[..|r| - 1] == prefix;
      r
  }

  /**
   * `s.parse::<uN>()` for an unsigned type whose largest value is `max`:
   * an optional `+`, then one or more decimal digits, with a value that fits.
   */
  function ParseUnsigned(s: string, max: nat): (r: Option<nat>)
    ensures r.Some? ==> r.value <= max
    ensures r.Some? ==> |s| > 0 && (IsDigit(s[0]) || s[0] == '+')
    ensures (|s| > 0 && AllDigits(s)) ==> r == (if DigitsValue(s) <= max then Some(DigitsValue(s)) else None)
    ensures r.Some? <==> || (|s| > 0 && AllDigits(s) && DigitsValue(s) <= max)
                         || (|s| > 1 && s[0] == '+' && AllDigits(s[1..]) && DigitsValue(s[1..]) <= max)
    ensures r.Some? && s[0] == '+' ==> r.value == DigitsValue(s[1..])
  {
    if |s| == 0 then None
    else
      var digits := if s[0] == '+' then s[1..] else s;
      if |digits| > 0 && AllDigits(digits) && DigitsValue(digits) <= max then Some(DigitsValue(digits)) else None
  }

  lemma ParseUnsignedOfNat(n: nat, max: nat)
    requires n <= max
    ensures ParseUnsigned(NatToString(n), max) == Some(n)
  {
  }

  /**
   * `s.parse::<i64>()`: an optional `+` or `-`, then one or more decimal
   * digits, with a value in the 64-bit signed range.
   */
  function ParseI64(s: string): (r: Option<int>)
    ensures r.Some? ==> I64Min <= r.value <= I64Max
    ensures (|s| > 0 && AllDigits(s)) ==> r == (if DigitsValue(s) <= I64Max then Some(DigitsValue(s)) else None)
    ensures r.Some? <==> || (|s| > 0 && AllDigits(s) && DigitsValue(s) <= I64Max)
                         || (|s| > 1 && s[0] == '+' && AllDigits(s[1..]) && DigitsValue(s[1..]) <= I64Max)
                         || (|s| > 1 && s[0] == '-' && AllDigits(s[1..]) && DigitsValue(s[1..]) <= -I64Min)
    ensures r.Some? && s[0] == '-' ==> r.value == 0 - DigitsValue(s[1..])
    ensures r.Some? && s[0] == '+' ==> r.value == DigitsValue(s[1..])
  {
    if |s| == 0 then None
    else if s[0] == '-' then
      var digits := s[1..];
      if |digits| > 0 && AllDigits(digits) && DigitsValue(digits) <= -I64Min then Some(0 - DigitsValue(digits)) else None
    else
      match ParseUnsigned(s, I64Max as nat)
      case Some(v) => Some(v)
      case None => None
  }

  /** `i64::to_string`: a `-` sign for negative values, then the decimal digits. */
  function IntToString(i: int): (r: string)
    ensures |r| > 0
    ensures i >= 0 ==> AllDigits(r) && DigitsValue(r) == i && (r[0] == '0' ==> r == "0")
    ensures i < 0 ==> |r| > 1 && r[0] == '-' && AllDigits(r[1..]) && DigitsValue(r[1..]) == -i && r[1] != '0'
  {
    if i < 0 then "-" + NatToString(-i) else NatToString(i)
  }

  /** Printing an `i64` and parsing it back gives the same integer. */
  lemma {:induction false} ParseI64OfInt(i: int)
    requires I64Min <= i <= I64Max
    ensures ParseI64(IntToString(i)) == Some(i)
  {
    if i < 0 {
      var s := IntToString(i);
      assert s[1..] == NatToString(-i);
    } else {
      assert DigitsValue(NatToString(i)) == i;
    }
  }

  /** ASCII upper-casing of one character, the part of `char::to_uppercase` this model covers. */
  function UpperChar(c: char): (u: char)
    ensures 'a' <= c <= 'z' ==> 'A' <= u <= 'Z' && u as int - 'A' as int == c as int - 'a' as int
    ensures !('a' <= c <= 'z') ==> u == c
  {
    if 'a' <= c <= 'z' then (c as int - 32) as char else c
  }

  function Upper(s: string): (u: string)
    ensures |u| == |s|
    ensures forall i :: 0 <= i < |s| ==> u[i] == UpperChar(s[i])
  {
    seq(|s|, i requires 0 <= i < |s| => UpperChar(s[i]))
  }

  /** Upper-casing is idempotent, so an already upper-case name is its own key. */
  lemma UpperIdempotent(s: string)
    ensures Upper(Upper(s)) == Upper(s)
  {
  }

  /** `p` is a run of `..` pairs, the only thing `trim_start_matches("..")` removes. */
  predicate DotPairs(p: string)
    decreases |p|
  {
    |p| == 0 || (|p| >= 2 && p[0] == '.' && p[1] == '.' && DotPairs(p[2..]))
  }

  /** `s.trim_start_matches("..")`: repeatedly removes a leading `..`. */
  function TrimLeadingDots(s: string): (r: string)
    ensures |r| <= |s| && r == s[|s| - |r|..]
    ensures DotPairs(s[..|s| - |r|])
    ensures !(|r| >= 2 && r[0] == '.' && r[1] == '.')
    ensures (|s| > 0 && s[0] != '.') ==> r == s
    decreases |s|
  {
    if |s| >= 2 && s[0] == '.' && s[1] == '.' then
      var rest := s[2..];
      var r := TrimLeadingDots(rest);
      var cut := |rest| - |r|;
      assert rest[cut..] == s[cut + 2..];
      DotPairsCons(s, cut);
      r
    else
      assert s[..0] == [];
      s
  }

  lemma DotPairsCons(s: string, k: nat)
    requires k + 2 <= |s| && s[0] == '.' && s[1] == '.' && DotPairs(s[2..][..k])
    ensures DotPairs(s[..k + 2])
  {
    assert s[..k + 2][2..] == s[2..][..k];
  }

  /** A run of `..` pairs has even length and holds nothing but dots. */
  lemma {:induction false} DotPairsShape(p: string)
    requires DotPairs(p)
    ensures |p| % 2 == 0
    ensures forall i :: 0 <= i < |p| ==> p[i] == '.'
    decreases |p|
  {
    if |p| > 0 {
      DotPairsShape(p[2..]);
      forall i | 2 <= i < |p|
        ensures p[i] == '.'
      {
        assert p[i] == p[2..][i - 2];
      }
    }
  }

  /** No carriage-return/line-feed pair occurs in `s`. */
  predicate NoCrlf(s: string) {
    forall i :: 0 <= i < |s| - 1 ==> !(s[i] == '\r' && s[i + 1] == '\n')
  }

  lemma DigitsHaveNoCrlf(s: string)
    requires AllDigits(s)
    ensures NoCrlf(s)
  {
  }
}
