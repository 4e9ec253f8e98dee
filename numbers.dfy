/** JavaScript numbers as the converter produces them, and `parseFloat` on the
    decimal forms a CSS length carries ("10", "1.5", "-.25", " 3."). */
module Numbers {

  /** A JavaScript number: a finite value (kept exact, as a real) or NaN. */
  datatype Number = Finite(value: real) | NaN

  predicate IsDigit(c: char) {
    '0' <= c <= '9'
  }

  predicate AllDigits(s: string) {
    forall i :: 0 <= i < |s| ==> IsDigit(s[i])
  }

  /** The white space `parseFloat` skips before the number: the ECMAScript
      white space and line terminators, with the `Zs` space separators. */
  predicate IsSpace(c: char) {
    c == ' ' || c == '\t' || c == '\n' || c == '\r' || c == '\U{B}' || c == '\U{C}' ||
    c == '\U{A0}' || c == '\U{FEFF}' || c == '\U{2028}' || c == '\U{2029}' ||
    c == '\U{1680}' || ('\U{2000}' <= c <= '\U{200A}') || c == '\U{202F}' || c == '\U{205F}' || c == '\U{3000}'
  }

  function TrimStart(s: string): (r: string)
    ensures |r| <= |s| && r == s[|s| - |r|..]
    ensures r != [] ==> !IsSpace(r[0])
    ensures s != [] && !IsSpace(s[0]) ==> r == s
  {
    if s != [] && IsSpace(s[0]) then TrimStart(s[1..]) else s
  }

  /** The length of the longest digit prefix of `s`. */
  function LeadingDigits(s: string): (n: nat)
    ensures n <= |s|
    ensures AllDigits(s[..n])
    ensures n < |s| ==> !IsDigit(s[n])
  {
    if s != [] && IsDigit(s[0]) then
      var k := LeadingDigits(s[1..]);
      assert s[..k + 1] == [s[0]] + s[1..][..k];
      k + 1
    else 0
  }

  function DigitValue(c: char): nat
    requires IsDigit(c)
  {
    c as nat - '0' as nat
  }

  /** The integer a string of decimal digits denotes. */
  function DigitsValue(d: string): nat
    requires AllDigits(d)
  {
    if d == [] then 0 else DigitsValue(d[..|d| - 1]) * 10 + DigitValue(d[|d| - 1])
  }

  /** The value of the digits after a decimal point. */
  function FractionValue(d: string): real
    requires AllDigits(d)
  {
    if d == [] then 0.0 else (DigitValue(d[0]) as real + FractionValue(d[1..])) / 10.0
  }

  /** `parseFloat(s)`: optional leading whitespace and sign, then the longest
      prefix of the form digits [ '.' digits ]; NaN when that prefix holds no
      digit at all. */
  function ParseFloat(s: string): Number {
    var t := TrimStart(s);
    var negative := t != [] && t[0] == '-';
    var u := if t != [] && (t[0] == '-' || t[0] == '+') then t[1..] else t;
    var i := LeadingDigits(u);
    var rest := u[i..];
    var fraction := if rest != [] && rest[0] == '.' then rest[1..][..LeadingDigits(rest[1..])] else "";
    if i == 0 && fraction == [] then NaN
    else
      var magnitude := DigitsValue(u[..i]) as real + FractionValue(fraction);
      Finite(if negative then -magnitude else magnitude)
  }

  lemma {:induction false} LeadingDigitsAll(d: string)
    requires AllDigits(d)
    ensures LeadingDigits(d) == |d|
  {
    if d != [] {
      LeadingDigitsAll(d[1..]);
    }
  }

  /** A non-empty string of decimal digits parses to the integer it denotes. */
  lemma ParseDigits(d: string)
    requires d != [] && AllDigits(d)
    ensures ParseFloat(d) == Finite(DigitsValue(d) as real)
  {
    var t := TrimStart(d);
    assert t == d;
    assert d[0] != '-' && d[0] != '+';
    LeadingDigitsAll(d);
    var rest := d[|d|..];
    assert rest == [];
    assert d[..|d|] == d;
  }
}
