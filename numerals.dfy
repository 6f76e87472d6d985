/**
 * Python's int() applied to a str in base 10, and the decimal rendering of a
 * natural number that it inverts.
 */
module Numerals {

  import opened Wrappers
  import opened Strings

  predicate IsDigit(c: char) {
    '0' <= c <= '9'
  }

  predicate AllDigits(s: string) {
    forall i :: 0 <= i < |s| ==> IsDigit(s[i])
  }

  /** Value of a string of decimal digits, most significant first; leading zeros are allowed. */
  function DigitsValue(s: string): nat
    requires AllDigits(s)
  {
    if s == [] then 0 else DigitsValue(s[..|s| - 1]) * 10 + (s[|s| - 1] as int - '0' as int)
  }

  function DigitChar(d: nat): (c: char)
    requires d < 10
    ensures IsDigit(c) && c as int - '0' as int == d
  {
    ('0' as int + d) as char
  }

  /** Decimal rendering of n without leading zeros, as Python's str(n). */
  function ShowNat(n: nat): (s: string)
    ensures s != [] && AllDigits(s)
  {
    if n < 10 then [DigitChar(n)] else ShowNat(n / 10) + [DigitChar(n % 10)]
  }

  /** Reading the rendering of n back gives n. */
  lemma {:induction false} ValueOfShown(n: nat)
    ensures DigitsValue(ShowNat(n)) == n
  {
    if n >= 10 {
      ValueOfShown(n / 10);
      var s := ShowNat(n);
      assert s[..|s| - 1] == ShowNat(n / 10);
    }
  }

  /**
   * Python's int(s) for a str s: surrounding whitespace is ignored, one
   * optional sign, then one or more digits; None where int() raises
   * ValueError.
   */
  function ParseInt(s: string): (r: Option<int>)
    ensures r.Some? && r.value < 0 ==> '-' in s
    ensures (forall i :: 0 <= i < |s| ==> !IsDigit(s[i])) ==> r.None?
  {
    var t := Strip(s);
    StripKeeps(s);
    if |t| > 1 && IsSign(t[0]) && AllDigits(t[1..]) then
      assert t[1] == t[1..][0] && t[1] in t;
      Some(Signed(t[0], DigitsValue(t[1..])))
    else if t != [] && AllDigits(t) then
      assert t[0] in t;
      Some(DigitsValue(t))
    else
      None
  }

  predicate IsSign(c: char) {
    c == '+' || c == '-'
  }

  /** The value a sign character gives to the magnitude that follows it. */
  function Signed(sign: char, magnitude: nat): int {
    if sign == '-' then -(magnitude as int) else magnitude
  }

  /** A run of digits, padded with any whitespace, reads as its decimal value. */
  lemma ParseIntDigits(p: string, d: string, q: string)
    requires IntBlank(p) && IntBlank(q)
    requires d != [] && AllDigits(d)
    ensures ParseInt(p + d + q) == Some(DigitsValue(d))
  {
    assert !IntSpace(d[0]) && !IntSpace(d[|d| - 1]);
    StripPadded(p, d, q);
    assert Strip(p + d + q) == d;
    assert !IsSign(d[0]);
  }

  /** A sign directly followed by digits, padded with any whitespace, reads as the signed value. */
  lemma ParseIntSigned(p: string, sign: char, d: string, q: string)
    requires IntBlank(p) && IntBlank(q)
    requires sign == '+' || sign == '-'
    requires d != [] && AllDigits(d)
    ensures ParseInt(p + [sign] + d + q) == Some(Signed(sign, DigitsValue(d)))
  {
    var u := [sign] + d;
    assert p + [sign] + d + q == p + u + q;
    assert u[0] == sign && u[|u| - 1] == d[|d| - 1] && u[1..] == d;
    assert !IntSpace(u[0]) && !IntSpace(u[|u| - 1]);
    StripPadded(p, u, q);
    var t := Strip(p + u + q);
    assert t == u && t[0] == sign && t[1..] == d;

  }

  /**
   * s is the whitespace p, the sign (none, "+" or "-"), the digits d and the
   * whitespace q, in that order, and v is the value of d under that sign.
   */
  predicate IntForm(s: string, p: string, sign: string, d: string, q: string, v: int) {
    IntBlank(p) && IntBlank(q) && d != [] && AllDigits(d) && s == p + sign + d + q &&
    ((sign == "" && v == DigitsValue(d)) || (sign == "+" && v == DigitsValue(d)) ||
     (sign == "-" && v == -(DigitsValue(d) as int)))
  }

  /**
   * The converse of ParseIntDigits and ParseIntSigned: int() accepts only
   * whitespace padding around one or more digits with at most one sign
   * directly before them, so "6a", "1 2" and "+ 5" all raise.
   */
  lemma ParseIntAccepted(s: string)
    requires ParseInt(s).Some?
    ensures exists p, sign, d, q :: IntForm(s, p, sign, d, q, ParseInt(s).value)
  {
    var p, q := StripPieces(s);
    var t := Strip(s);
    if |t| > 1 && IsSign(t[0]) && AllDigits(t[1..]) {
      SignedForm(s, p, t, q, ParseInt(s).value);
    } else {
      assert s == p + "" + t + q;
      assert IntForm(s, p, "", t, q, ParseInt(s).value);
    }
  }

  /** A sign followed by digits, between whitespace, is the signed form of those digits. */
  lemma SignedForm(s: string, p: string, t: string, q: string, v: int)
    requires IntBlank(p) && IntBlank(q) && s == p + t + q
    requires |t| > 1 && IsSign(t[0]) && AllDigits(t[1..])
    requires v == Signed(t[0], DigitsValue(t[1..]))
    ensures IntForm(s, p, [t[0]], t[1..], q, v)
  {
    assert t == [t[0]] + t[1..];
  }

  /**
   * The ASCII separators U+001C to U+001F count as whitespace for
   * str.isspace() but are not skipped by int(): digits after one are rejected.
   */
  lemma ParseIntRejectsSeparator(c: char, d: string)
    requires 28 <= c as int <= 31
    requires d != [] && AllDigits(d)
    ensures IsSpace(c)
    ensures ParseInt([c] + d).None?
  {
    var t := [c] + d;
    var none: string := [];
    assert t[|t| - 1] == d[|d| - 1];
    assert !IntSpace(t[0]) && !IntSpace(t[|t| - 1]);
    StripPadded(none, t, none);
    assert none + t + none == t;
    assert Strip(t) == t && !IsSign(t[0]) && !IsDigit(t[0]);
  }

  /** int(str(n)) == n. */
  lemma ParseShown(n: nat)
    ensures ParseInt(ShowNat(n)) == Some(n)
  {
    var d, none := ShowNat(n), "";
    assert none + d + none == d;
    ParseIntDigits(none, d, none);
    ValueOfShown(n);
  }
}
