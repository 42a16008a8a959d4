/**
  Decimal digit strings and the scanner for numbers of the form
  `[sign] digits [. digits]`, shared by the model of Python's `float(str)`
  (which must consume the whole string) and JavaScript's `parseFloat`
  (which takes the longest numeric prefix).
 */
module Decimal {
  import opened Wrappers

  predicate IsDigit(c: char) {
    '0' <= c <= '9'
  }

  predicate AllDigits(s: string) {
    forall i :: 0 <= i < |s| ==> IsDigit(s[i])
  }

  function DigitValue(c: char): (d: nat)
    requires IsDigit(c)
    ensures d < 10
  {
    c as int - '0' as int
  }

  function DigitChar(d: nat): (c: char)
    requires d < 10
    ensures IsDigit(c) && DigitValue(c) == d
  {
    ('0' as int + d) as char
  }

  /** The number a string of decimal digits denotes, most significant first. */
  function DigitsValue(s: string): nat
    requires AllDigits(s)
  {
    if s == [] then 0 else DigitsValue(s[..|s| - 1]) * 10 + DigitValue(s[|s| - 1])
  }

  function Pow10(k: nat): (p: nat)
    ensures p >= 1
  {
    if k == 0 then 1 else 10 * Pow10(k - 1)
  }

  /** The value of a fraction's digits: "25" after the point is 25/100. */
  function FractionValue(s: string): (v: real)
    requires AllDigits(s)
    ensures 0.0 <= v
  {
    DigitsValue(s) as real / Pow10(|s|) as real
  }

  /** The shortest decimal spelling of `n`, as Python and JavaScript print it. */
  function NatDigits(n: nat): (s: string)
    ensures |s| >= 1 && AllDigits(s)
    ensures DigitsValue(s) == n
  {
    if n < 10 then [DigitChar(n)]
    else
      var front := NatDigits(n / 10);
      var s := front + [DigitChar(n % 10)];
      assert s[..|s| - 1] == front;
      s
  }

  /** The longest prefix of `s` made of digits. */
  function LeadingDigits(s: string): (d: string)
    ensures |d| <= |s| && d == s[..|d|] && AllDigits(d)
    ensures |d| == |s| || !IsDigit(s[|d|])
  {
    if s != [] && IsDigit(s[0]) then [s[0]] + LeadingDigits(s[1..]) else []
  }

  /** A number found at the start of a string: its value and how many characters it spans. */
  datatype Scan = Scan(value: real, length: nat)

  function SignLength(s: string): nat {
    if |s| > 0 && (s[0] == '+' || s[0] == '-') then 1 else 0
  }

  /** True when `t` starts with a digit, or with a point followed by a digit. */
  predicate StartsUnsigned(t: string) {
    (|t| > 0 && IsDigit(t[0])) || (|t| > 1 && t[0] == '.' && IsDigit(t[1]))
  }

  /**
    True when `s` starts (after an optional sign) with a digit, or with a
    point followed by a digit: exactly the strings in which a number can be
    found at the start.
   */
  predicate StartsNumber(s: string) {
    StartsUnsigned(s[SignLength(s)..])
  }

  /**
    Scans `digits [. digits]` at the start of `t`, requiring at least one
    digit on either side of the point.
   */
  function ScanUnsigned(t: string): (r: Option<Scan>)
    ensures r.Some? <==> StartsUnsigned(t)
    ensures r.Some? ==> 1 <= r.value.length <= |t| && r.value.value >= 0.0
  {
    var intPart := LeadingDigits(t);
    var hasPoint := |intPart| < |t| && t[|intPart|] == '.';
    var fracPart := if hasPoint then LeadingDigits(t[|intPart| + 1..]) else "";
    if |intPart| + |fracPart| == 0 then None
    else
      Some(Scan(DigitsValue(intPart) as real + FractionValue(fracPart),
                |intPart| + if hasPoint then 1 + |fracPart| else 0))
  }

  /** Scans `[+|-] digits [. digits]` at the start of `s`. */
  function ScanDecimal(s: string): (r: Option<Scan>)
    ensures r.Some? <==> StartsNumber(s)
    ensures r.Some? ==> 1 <= r.value.length <= |s|
  {
    var signLen := SignLength(s);
    var unsigned := ScanUnsigned(s[signLen..]);
    if unsigned.None? then None
    else
      var scan := unsigned.value;
      Some(Scan(if signLen == 1 && s[0] == '-' then -scan.value else scan.value, signLen + scan.length))
  }

  /** The digits of `d` stay the leading digits when a non-digit follows them. */
  lemma {:induction false} LeadingDigitsOfDigits(d: string, rest: string)
    requires AllDigits(d)
    requires rest == [] || !IsDigit(rest[0])
    ensures LeadingDigits(d + rest) == d
  {
    if d != [] {
      assert (d + rest)[1..] == d[1..] + rest;
      LeadingDigitsOfDigits(d[1..], rest);
    } else {
      assert d + rest == rest;
    }
  }

  /** `[-]whole.frac`: how Python prints a finite float without exponent. */
  function Printed(negative: bool, whole: nat, frac: string): string {
    (if negative then "-" else "") + NatDigits(whole) + "." + frac
  }

  /** The value of the text `[-]whole.frac`. */
  function PrintedValue(negative: bool, whole: nat, frac: string): real
    requires AllDigits(frac)
  {
    var magnitude := whole as real + FractionValue(frac);
    if negative then -magnitude else magnitude
  }

  /** Scanning `whole.frac` gives its value and consumes the whole text. */
  lemma ScanUnsignedPrinted(whole: nat, frac: string)
    requires |frac| >= 1 && AllDigits(frac)
    ensures var r := ScanUnsigned(NatDigits(whole) + "." + frac);
            r.Some? && r.value.value == whole as real + FractionValue(frac)
            && r.value.length == |NatDigits(whole)| + 1 + |frac|
  {
    var w := NatDigits(whole);
    var t := w + "." + frac;
    assert t == w + ("." + frac);
    LeadingDigitsOfDigits(w, "." + frac);
    assert LeadingDigits(t) == w;
    assert t[|w|] == '.';
    assert t[|w| + 1..] == frac + "";
    LeadingDigitsOfDigits(frac, "");
    assert LeadingDigits(t[|w| + 1..]) == frac;
    assert DigitsValue(w) == whole;
  }

  /**
    Printing a number as `[-]whole.frac` and scanning it back gives its
    value and consumes the whole text.
   */
  lemma ScanPrinted(negative: bool, whole: nat, frac: string)
    requires |frac| >= 1 && AllDigits(frac)
    ensures var r := ScanDecimal(Printed(negative, whole, frac));
            r.Some? && r.value.value == PrintedValue(negative, whole, frac)
            && r.value.length == |Printed(negative, whole, frac)|
  {
    var w := NatDigits(whole);
    var t := w + "." + frac;
    var s := Printed(negative, whole, frac);
    ScanUnsignedPrinted(whole, frac);
    if negative {
      assert s == "-" + t;
      assert s[1..] == t;
      assert SignLength(s) == 1;
    } else {
      assert s == t;
      assert SignLength(s) == 0 by { assert s[0] == w[0]; }
      assert s[0..] == t;
    }
  }
}
