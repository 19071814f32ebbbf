/** A model of the ECMAScript global `parseFloat` on exact rational values.
    Only the syntax is modelled exactly; the rounding of the result to the
    nearest double is not. */
module JsNumbers {
  import opened JsStrings

  /** A number as `parseFloat` can produce it. */
  datatype JsNumber = NaN | Infinity(negative: bool) | Finite(value: real)

  function Pow10(n: nat): (r: real)
    ensures r >= 1.0
  {
    if n == 0 then 1.0 else 10.0 * Pow10(n - 1)
  }

  /** v times ten to the power e. */
  function Scale(v: real, e: int): real {
    if e >= 0 then v * Pow10(e) else v / Pow10(-e)
  }

  predicate IsExponentMark(c: char) { c == 'e' || c == 'E' }

  /** The value of an optional exponent part (`e`, optional sign, at least one digit)
      starting at position i of s; zero when there is none. */
  function ExponentAt(s: string, i: nat): int
    requires i <= |s|
  {
    if i < |s| && IsExponentMark(s[i]) then
      var signed := i + 1 < |s| && (s[i + 1] == '+' || s[i + 1] == '-');
      var d := if signed then i + 2 else i + 1;
      var e := RunEnd(s, d, IsDigit);
      if e == d then 0
      else
        var v: int := DigitsValue(s[d..e]);
        if signed && s[i + 1] == '-' then -v else v
    else 0
  }

  /** The string starts with "Infinity". */
  predicate StartsInfinity(u: string) {
    |u| >= 8 && u[..8] == "Infinity"
  }

  /** The literal whose integer digits end at n1, where a '.' stands, and whose
      fraction digits end at n2; NaN when there are no digits at all. */
  function FractionLiteral(u: string, n1: nat, n2: nat): JsNumber
    requires n1 < n2 <= |u|
    requires AllDigits(u[..n1]) && AllDigits(u[n1 + 1..n2])
  {
    if n1 == 0 && n2 == n1 + 1 then NaN
    else Finite(Scale(DigitsValue(u[..n1] + u[n1 + 1..n2]) as real / Pow10(n2 - n1 - 1), ExponentAt(u, n2)))
  }

  /** `parseFloat` applied to a string that starts with no sign: the longest prefix
      that is a StrUnsignedDecimalLiteral decides the value. */
  function ParseUnsigned(u: string): JsNumber {
    if StartsInfinity(u) then Infinity(false)
    else
      var n1 := RunEnd(u, 0, IsDigit);
      if n1 < |u| && u[n1] == '.' then FractionLiteral(u, n1, RunEnd(u, n1 + 1, IsDigit))
      else if n1 == 0 then NaN
      else Finite(Scale(DigitsValue(u[..n1]) as real, ExponentAt(u, n1)))
  }

  /** `parseFloat(s)`: leading whitespace is skipped, then an optional sign,
      then the longest numeric prefix; NaN when there is none. */
  function ParseFloat(s: string): (n: JsNumber)
    ensures |s| == 0 ==> n == NaN
  {
    var t := TrimStartBy(s, IsSpace);
    if |t| > 0 && (t[0] == '+' || t[0] == '-') then
      match ParseUnsigned(t[1..])
      case NaN => NaN
      case Infinity(_) => Infinity(t[0] == '-')
      case Finite(v) => Finite(if t[0] == '-' then -v else v)
    else ParseUnsigned(t)
  }

  /** A string that starts with a digit is parsed as unsigned. */
  lemma DigitFirst(s: string)
    requires |s| > 0 && IsDigit(s[0])
    ensures ParseFloat(s) == ParseUnsigned(s)
  {
    assert RunEnd(s, 0, IsSpace) == 0;
    assert TrimStartBy(s, IsSpace) == s;
  }

  /** Where the runs of a + "." + b end. */
  lemma DecimalRuns(a: string, b: string)
    requires |a| > 0 && AllDigits(a) && AllDigits(b)
    ensures var u := a + "." + b;
      && !StartsInfinity(u)
      && RunEnd(u, 0, IsDigit) == |a| && u[|a|] == '.'
      && RunEnd(u, |a| + 1, IsDigit) == |u|
      && u[..|a|] == a && u[|a| + 1..|u|] == b
  {
    var u := a + "." + b;
    assert u[0] == a[0];
    RunEndExact(u, 0, |a|, IsDigit);
    RunEndExact(u, |a| + 1, |u|, IsDigit);
    assert u[..|a|] == a;
    assert u[|a| + 1..|u|] == b;
  }

  /** The unsigned parse of digits, a point and digits. */
  lemma UnsignedDecimal(a: string, b: string)
    requires |a| > 0 && AllDigits(a) && AllDigits(b)
    ensures ParseUnsigned(a + "." + b) == Finite(DigitsValue(a + b) as real / Pow10(|b|))
  {
    var u := a + "." + b;
    DecimalRuns(a, b);
    assert ExponentAt(u, |u|) == 0;
    assert ParseUnsigned(u) == FractionLiteral(u, |a|, |u|);
  }

  /** The unsigned parse of a string of digits. */
  lemma UnsignedDigits(u: string)
    requires |u| > 0 && AllDigits(u)
    ensures ParseUnsigned(u) == Finite(DigitsValue(u) as real)
  {
    assert !StartsInfinity(u) by {
      assert IsDigit(u[0]);
    }
    RunEndExact(u, 0, |u|, IsDigit);
    assert ExponentAt(u, |u|) == 0;
    assert u[..|u|] == u;
  }

  /** A plain string of digits parses to its value. */
  lemma ParseDigits(s: string)
    requires |s| > 0 && AllDigits(s)
    ensures ParseFloat(s) == Finite(DigitsValue(s) as real)
  {
    assert IsDigit(s[0]);
    DigitFirst(s);
    UnsignedDigits(s);
  }

  /** Digits, a decimal point and digits parse to the exact decimal value. */
  lemma ParseDecimal(a: string, b: string)
    requires |a| > 0 && AllDigits(a) && AllDigits(b)
    ensures ParseFloat(a + "." + b) == Finite(DigitsValue(a + b) as real / Pow10(|b|))
  {
    assert (a + "." + b)[0] == a[0];
    DigitFirst(a + "." + b);
    UnsignedDecimal(a, b);
  }

  /** The number with its sign flipped, as unary minus does. */
  function Negate(n: JsNumber): JsNumber {
    match n
    case NaN => NaN
    case Infinity(neg) => Infinity(!neg)
    case Finite(v) => Finite(-v)
  }

  /** Leading whitespace does not change the result. */
  lemma ParseFloatSkipsSpace(w: string, s: string)
    requires AllIn(w, IsSpace)
    ensures ParseFloat(w + s) == ParseFloat(s)
  {
    PrefixRun(w, s, IsSpace);
    var r := RunEnd(s, 0, IsSpace);
    AppendSlices(w, s, r, r);
    assert TrimStartBy(w + s, IsSpace) == TrimStartBy(s, IsSpace);
  }

  /** A '-' in front of an unsigned string negates the result, and a '+' changes
      nothing. */
  lemma ParseFloatSign(s: string)
    requires |s| == 0 || (!IsSpace(s[0]) && s[0] != '+' && s[0] != '-')
    ensures ParseFloat("-" + s) == Negate(ParseFloat(s))
    ensures ParseFloat("+" + s) == ParseFloat(s)
  {
    UnsignedStart(s);
    SignedStart('-', s);
    SignedStart('+', s);
  }

  /** A string that starts with neither whitespace nor a sign is parsed unsigned. */
  lemma UnsignedStart(s: string)
    requires |s| == 0 || (!IsSpace(s[0]) && s[0] != '+' && s[0] != '-')
    ensures ParseFloat(s) == ParseUnsigned(s)
  {
    assert RunEnd(s, 0, IsSpace) == 0;
    assert TrimStartBy(s, IsSpace) == s;
  }

  /** A sign in front: the unsigned parse of the rest, negated for '-'. */
  lemma SignedStart(c: char, s: string)
    requires c == '+' || c == '-'
    ensures ParseFloat([c] + s) == match ParseUnsigned(s)
      case NaN => NaN
      case Infinity(_) => Infinity(c == '-')
      case Finite(v) => Finite(if c == '-' then -v else v)
  {
    var t := [c] + s;
    assert RunEnd(t, 0, IsSpace) == 0;
    assert TrimStartBy(t, IsSpace) == t;
    assert t[1..] == s;
  }

  /** A string whose first character can start no number is NaN. */
  lemma ParseFloatNoNumber(s: string)
    requires |s| > 0 && !IsSpace(s[0]) && !IsDigit(s[0])
    requires s[0] !in {'.', '+', '-', 'I'}
    ensures ParseFloat(s) == NaN
  {
    assert RunEnd(s, 0, IsSpace) == 0;
    assert TrimStartBy(s, IsSpace) == s;
    assert RunEnd(s, 0, IsDigit) == 0;
  }

  /** Only the numeric prefix counts: digits followed by anything that cannot
      continue a number parse to the value of the digits. */
  lemma ParseDigitsPrefix(a: string, rest: string)
    requires |a| > 0 && AllDigits(a)
    requires |rest| == 0 || (!IsDigit(rest[0]) && rest[0] != '.' && !IsExponentMark(rest[0]))
    ensures ParseFloat(a + rest) == Finite(DigitsValue(a) as real)
  {
    var u := a + rest;
    assert u[..|a|] == a;
    assert |a| < |u| ==> u[|a|] == rest[0];
    DigitsAt(u, |a|);
  }

  /** Only the numeric prefix counts: a decimal followed by anything that cannot
      continue it (as in "8.5/10") parses to the value of the decimal. */
  lemma ParseDecimalPrefix(a: string, b: string, rest: string)
    requires |a| > 0 && AllDigits(a) && AllDigits(b)
    requires |rest| == 0 || (!IsDigit(rest[0]) && !IsExponentMark(rest[0]))
    ensures ParseFloat(a + "." + b + rest) == Finite(DigitsValue(a + b) as real / Pow10(|b|))
  {
    var u := DecimalSlices(a, b, rest);
    DecimalAt(u, |a|, |a| + 1 + |b|);
  }

  /** How the string a + "." + b + rest splits around its point. */
  lemma DecimalSlices(a: string, b: string, rest: string) returns (u: string)
    ensures u == a + "." + b + rest
    ensures |u| == |a| + 1 + |b| + |rest|
    ensures u[..|a|] == a && u[|a|] == '.' && u[|a| + 1..|a| + 1 + |b|] == b
    ensures |rest| > 0 ==> u[|a| + 1 + |b|] == rest[0]
    ensures u[..|a|] + u[|a| + 1..|a| + 1 + |b|] == a + b
  {
    var w := "." + (b + rest);
    u := a + w;
    assert u == a + "." + b + rest;
    AppendSlices(a, w, 1, 1);
    assert u[|a| + 1..] == b + rest;
    assert u[..|a|] == a;
    assert u[|a| + 1..|a| + 1 + |b|] == b;
  }

  /** The digits u[..n] stopped by a character that cannot continue a number. */
  lemma DigitsAt(u: string, n: nat)
    requires 0 < n <= |u| && AllDigits(u[..n])
    requires n == |u| || (!IsDigit(u[n]) && u[n] != '.' && !IsExponentMark(u[n]))
    ensures ParseFloat(u) == Finite(DigitsValue(u[..n]) as real)
  {
    assert IsDigit(u[..n][0]);
    DigitFirst(u);
    forall k | 0 <= k < n ensures IsDigit(u[k]) { assert u[k] == u[..n][k]; }
    RunEndExact(u, 0, n, IsDigit);
  }

  /** The decimal u[..n2], its point at n1, stopped by a character that cannot
      continue it. */
  lemma DecimalAt(u: string, n1: nat, n2: nat)
    requires 0 < n1 < n2 <= |u| && u[n1] == '.'
    requires AllDigits(u[..n1]) && AllDigits(u[n1 + 1..n2])
    requires n2 == |u| || (!IsDigit(u[n2]) && !IsExponentMark(u[n2]))
    ensures ParseFloat(u) == Finite(DigitsValue(u[..n1] + u[n1 + 1..n2]) as real / Pow10(n2 - n1 - 1))
  {
    DecimalUnsigned(u, n1, n2);
    assert IsDigit(u[0]) by { assert u[0] == u[..n1][0]; }
    DigitFirst(u);
  }

  lemma DecimalUnsigned(u: string, n1: nat, n2: nat)
    requires 0 < n1 < n2 <= |u| && u[n1] == '.'
    requires AllDigits(u[..n1]) && AllDigits(u[n1 + 1..n2])
    requires n2 == |u| || (!IsDigit(u[n2]) && !IsExponentMark(u[n2]))
    ensures ParseUnsigned(u) == Finite(DigitsValue(u[..n1] + u[n1 + 1..n2]) as real / Pow10(n2 - n1 - 1))
  {
    DecimalRunsAt(u, n1, n2);
    assert ParseUnsigned(u) == FractionLiteral(u, n1, n2);
    FractionValue(u, n1, n2);
  }

  /** A fraction literal without an exponent is its digits over a power of ten. */
  lemma FractionValue(u: string, n1: nat, n2: nat)
    requires 0 < n1 < n2 <= |u|
    requires AllDigits(u[..n1]) && AllDigits(u[n1 + 1..n2])
    requires ExponentAt(u, n2) == 0
    ensures FractionLiteral(u, n1, n2) == Finite(DigitsValue(u[..n1] + u[n1 + 1..n2]) as real / Pow10(n2 - n1 - 1))
  {
    ScaleZero(DigitsValue(u[..n1] + u[n1 + 1..n2]) as real / Pow10(n2 - n1 - 1));
  }

  /** The runs the parser reads in the decimal u[..n2] whose point is at n1. */
  lemma DecimalRunsAt(u: string, n1: nat, n2: nat)
    requires 0 < n1 < n2 <= |u| && u[n1] == '.'
    requires AllDigits(u[..n1]) && AllDigits(u[n1 + 1..n2])
    requires n2 == |u| || (!IsDigit(u[n2]) && !IsExponentMark(u[n2]))
    ensures IsDigit(u[0]) && !StartsInfinity(u)
    ensures RunEnd(u, 0, IsDigit) == n1 && RunEnd(u, n1 + 1, IsDigit) == n2
    ensures ExponentAt(u, n2) == 0
  {
    assert u[0] == u[..n1][0];
    DigitNotInfinity(u);
    forall k | 0 <= k < n1 ensures IsDigit(u[k]) { assert u[k] == u[..n1][k]; }
    RunEndExact(u, 0, n1, IsDigit);
    forall k | n1 + 1 <= k < n2 ensures IsDigit(u[k]) { assert u[k] == u[n1 + 1..n2][k - n1 - 1]; }
    RunEndExact(u, n1 + 1, n2, IsDigit);
  }

  lemma DigitNotInfinity(u: string)
    requires |u| > 0 && IsDigit(u[0])
    ensures !StartsInfinity(u)
  {
  }

  lemma ScaleZero(v: real)
    ensures Scale(v, 0) == v
  {
    assert Pow10(0) == 1.0;
  }
}
