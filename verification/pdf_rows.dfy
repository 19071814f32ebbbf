/** Extraction of one course row from a cleaned line of a grade report: the
    course code at the start of the line, the grade values among its tokens,
    the credit token and the course name between code and credit. */
module PdfRows {
  import opened JsStrings
  import opened JsNumbers

  /** A course row as the page parser produces it; every field is text. */
  datatype ParsedGrade = ParsedGrade(
    maHP: string, tenHP: string, tinChi: string,
    diemQT: string, diemGK: string, diemTH: string, diemCK: string,
    diemHP: string)

  // ---------------------------------------------------------------------
  // The course code `^([A-Z]{2,4}\d{3,4})`

  /** The first l characters are upper-case letters and the next d are digits. */
  predicate CodeFits(line: string, l: nat, d: nat) {
    && l + d <= |line|
    && (forall k :: 0 <= k < l ==> IsUpper(line[k]))
    && (forall k :: l <= k < l + d ==> IsDigit(line[k]))
  }

  /** The regular expression as a backtracking matcher tries it: the letter count
      from 4 down to 2, and for each the digit count from 4 down to 3; the first
      combination that fits gives the length of the match. */
  function RegexCourseCode(line: string): Option<nat> {
    if CodeFits(line, 4, 4) then Some(8)
    else if CodeFits(line, 4, 3) then Some(7)
    else if CodeFits(line, 3, 4) then Some(7)
    else if CodeFits(line, 3, 3) then Some(6)
    else if CodeFits(line, 2, 4) then Some(6)
    else if CodeFits(line, 2, 3) then Some(5)
    else None
  }

  /** Length of the course code that starts the line, if it starts with one: the
      whole leading run of capitals (2 to 4 of them) and then up to 4 of the
      digits that follow (at least 3). */
  function CourseCodeLength(line: string): (r: Option<nat>)
    ensures r.Some? ==> 5 <= r.value <= 8 && r.value <= |line|
  {
    var l := RunEnd(line, 0, IsUpper);
    var e := RunEnd(line, l, IsDigit);
    if 2 <= l <= 4 && e - l >= 3 then Some(l + (if e - l >= 4 then 4 else e - l)) else None
  }

  /** A letter count other than the length of the leading run of capitals never fits. */
  lemma OnlyWholeRunFits(line: string, l: nat, d: nat)
    requires d > 0 && CodeFits(line, l, d)
    ensures l == RunEnd(line, 0, IsUpper)
  {
    RunEndAtLeast(line, 0, l, IsUpper);
    RunEndAtMost(line, 0, l, IsUpper);
  }

  lemma DigitsFit(line: string, l: nat, d: nat)
    requires l <= |line|
    requires forall k :: 0 <= k < l ==> IsUpper(line[k])
    ensures CodeFits(line, l, d) <==> RunEnd(line, l, IsDigit) - l >= d
  {
  }

  /** The course code length agrees with the backtracking semantics of the
      regular expression, on every line. */
  lemma CourseCodeMatches(line: string)
    ensures CourseCodeLength(line) == RegexCourseCode(line)
  {
    var l := RunEnd(line, 0, IsUpper);
    var e := RunEnd(line, l, IsDigit);
    forall ll: nat, d: nat | 2 <= ll <= 4 && 3 <= d <= 4 && ll != l
      ensures !CodeFits(line, ll, d)
    {
      if CodeFits(line, ll, d) { OnlyWholeRunFits(line, ll, d); }
    }
    DigitsFit(line, l, 3);
    DigitsFit(line, l, 4);
  }

  // ---------------------------------------------------------------------
  // Grade values

  /** The value of a token read as a grade: `parseFloat` after the first comma
      becomes a point, kept when it is a number in [0, 10]. */
  function GradeOf(token: string): (r: Option<real>)
    ensures var n := ParseFloat(ReplaceFirst(token, ',', '.'));
      && (r.Some? <==> n.Finite? && 0.0 <= n.value <= 10.0)
      && (r.Some? ==> n == Finite(r.value))
    ensures r.Some? ==> 0.0 <= r.value <= 10.0
  {
    match ParseFloat(ReplaceFirst(token, ',', '.'))
    case Finite(v) => if 0.0 <= v <= 10.0 then Some(v) else None
    case _ => None
  }

  /** The grade values of the tokens, left to right. */
  function GradeValues(parts: seq<string>): (vs: seq<real>)
    ensures |vs| <= |parts|
    decreases |parts|
  {
    if |parts| == 0 then []
    else
      var last := GradeOf(parts[|parts| - 1]);
      GradeValues(parts[..|parts| - 1]) + (if last.Some? then [last.value] else [])
  }

  /** Some token reads as the grade v. */
  predicate FromToken(parts: seq<string>, v: real) {
    exists i :: 0 <= i < |parts| && GradeOf(parts[i]) == Some(v)
  }

  /** Every grade value is the value of some token. */
  lemma {:induction false} GradeValuesSourced(parts: seq<string>)
    ensures forall k :: 0 <= k < |GradeValues(parts)| ==> FromToken(parts, GradeValues(parts)[k])
    decreases |parts|
  {
    if |parts| > 0 {
      var init := parts[..|parts| - 1];
      GradeValuesSourced(init);
      var vs, prev := GradeValues(parts), GradeValues(init);
      forall k | 0 <= k < |vs|
        ensures FromToken(parts, vs[k])
      {
        if k < |prev| {
          assert vs[k] == prev[k];
          var i :| 0 <= i < |init| && GradeOf(init[i]) == Some(prev[k]);
          assert parts[i] == init[i];
        } else {
          assert GradeOf(parts[|parts| - 1]) == Some(vs[k]);
        }
      }
    }
  }

  /** Every grade value is the value of some token; and a line has a grade value
      exactly when one of its tokens reads as a grade. */
  lemma GradeValuesFromTokens(parts: seq<string>)
    ensures forall k :: 0 <= k < |GradeValues(parts)| ==> FromToken(parts, GradeValues(parts)[k])
    ensures |GradeValues(parts)| > 0 <==> exists i :: 0 <= i < |parts| && GradeOf(parts[i]).Some?
  {
    GradeValuesSourced(parts);
    if exists i :: 0 <= i < |parts| && GradeOf(parts[i]).Some? {
      var i :| 0 <= i < |parts| && GradeOf(parts[i]).Some?;
      TokenGradeCollected(parts, i);
    }
    if |GradeValues(parts)| > 0 {
      assert FromToken(parts, GradeValues(parts)[0]);
    }
  }

  /** Every token that reads as a grade contributes its value. */
  lemma {:induction false} TokenGradeCollected(parts: seq<string>, i: nat)
    requires i < |parts| && GradeOf(parts[i]).Some?
    ensures GradeOf(parts[i]).value in GradeValues(parts)
    decreases |parts|
  {
    if i < |parts| - 1 {
      var init := parts[..|parts| - 1];
      assert init[i] == parts[i];
      TokenGradeCollected(init, i);
    }
  }

  /** The grade-collecting loop. */
  method ScanGrades(parts: seq<string>) returns (gradeValues: seq<real>)
    ensures gradeValues == GradeValues(parts)
  {
    gradeValues := [];
    for i := 0 to |parts|
      invariant gradeValues == GradeValues(parts[..i])
    {
      assert parts[..i + 1][..i] == parts[..i];
      var num := ParseFloat(ReplaceFirst(parts[i], ',', '.'));
      if num.Finite? && 0.0 <= num.value && num.value <= 10.0 {
        gradeValues := gradeValues + [num.value];
      }
    }
    assert parts[..|parts|] == parts;
  }

  // ---------------------------------------------------------------------
  // The credit token

  /** The token matches `^(\d+)([.,]\d+)?$`: digits, and optionally a point or a
      comma followed by digits, and nothing else. */
  predicate CreditShape(token: string) {
    var a := RunEnd(token, 0, IsDigit);
    a > 0 && (a == |token| || ((token[a] == '.' || token[a] == ',') && a + 1 < |token| && RunEnd(token, a + 1, IsDigit) == |token|))
  }

  /** A credit token: the right shape and a value in (0, 10]. */
  predicate IsCredit(token: string) {
    CreditShape(token)
    && var v := ParseFloat(ReplaceFirst(token, ',', '.'));
    v.Finite? && 0.0 < v.value <= 10.0
  }

  /** Replacing the first comma of digits, a separator and digits leaves the
      digits and puts a point in place of the separator. */
  lemma ReplaceSeparator(a: string, sep: char, b: string)
    requires AllDigits(a) && AllDigits(b) && (sep == '.' || sep == ',')
    ensures ReplaceFirst(a + [sep] + b, ',', '.') == a + "." + b
  {
    assert ',' !in a by { assert forall c :: c in a ==> IsDigit(c); }
    assert ',' !in b by { assert forall c :: c in b ==> IsDigit(c); }
    ReplaceFirstOnce(a, sep, b, ',', '.');
  }

  /** With the character a nowhere else, only the middle character c can be
      replaced. */
  lemma {:induction false} ReplaceFirstOnce(x: string, c: char, y: string, a: char, b: char)
    requires a !in x && a !in y
    ensures ReplaceFirst(x + [c] + y, a, b) == x + [if c == a then b else c] + y
    decreases |x|
  {
    if |x| == 0 {
      assert x + [c] + y == [c] + y;
      ReplaceFirstHead(c, y, a, b);
    } else {
      var rest := x[1..] + [c] + y;
      assert x + [c] + y == [x[0]] + rest;
      ReplaceFirstCons(x[0], rest, a, b);
      ReplaceFirstOnce(x[1..], c, y, a, b);
      assert x + [if c == a then b else c] + y == [x[0]] + (x[1..] + [if c == a then b else c] + y);
    }
  }

  lemma ReplaceFirstHead(c: char, y: string, a: char, b: char)
    requires a !in y
    ensures ReplaceFirst([c] + y, a, b) == [if c == a then b else c] + y
  {
    assert ([c] + y)[1..] == y;
    if c != a {
      ReplaceFirstAbsent(y, a, b);
    }
  }

  lemma ReplaceFirstCons(d: char, rest: string, a: char, b: char)
    requires d != a
    ensures ReplaceFirst([d] + rest, a, b) == [d] + ReplaceFirst(rest, a, b)
  {
    assert ([d] + rest)[1..] == rest;
  }

  /** Without the character a, nothing is replaced. */
  lemma {:induction false} ReplaceFirstAbsent(y: string, a: char, b: char)
    requires a !in y
    ensures ReplaceFirst(y, a, b) == y
    decreases |y|
  {
    if |y| > 0 {
      assert y[0] != a && a !in y[1..];
      ReplaceFirstAbsent(y[1..], a, b);
    }
  }

  lemma CreditShapeOf(a: string, sep: char, b: string)
    requires |a| > 0 && AllDigits(a) && |b| > 0 && AllDigits(b) && (sep == '.' || sep == ',')
    ensures CreditShape(a + [sep] + b)
  {
    var t := a + [sep] + b;
    assert forall k :: 0 <= k < |a| ==> t[k] == a[k];
    assert forall k :: |a| + 1 <= k < |t| ==> t[k] == b[k - |a| - 1];
    RunEndExact(t, 0, |a|, IsDigit);
    RunEndExact(t, |a| + 1, |t|, IsDigit);
  }

  /** A credit-shaped token is read as the exact decimal it spells, with either
      separator. */
  lemma CreditValue(a: string, sep: char, b: string)
    requires |a| > 0 && AllDigits(a) && |b| > 0 && AllDigits(b) && (sep == '.' || sep == ',')
    ensures CreditShape(a + [sep] + b)
    ensures ParseFloat(ReplaceFirst(a + [sep] + b, ',', '.')) == Finite(DigitsValue(a + b) as real / Pow10(|b|))
  {
    CreditShapeOf(a, sep, b);
    ReplaceSeparator(a, sep, b);
    ParseDecimal(a, b);
  }

  /** A plain digit token is credit-shaped and read as its integer value. */
  lemma CreditValueWhole(a: string)
    requires |a| > 0 && AllDigits(a)
    ensures CreditShape(a)
    ensures ParseFloat(ReplaceFirst(a, ',', '.')) == Finite(DigitsValue(a) as real)
  {
    RunEndExact(a, 0, |a|, IsDigit);
    assert ReplaceFirst(a, ',', '.') == a;
    ParseDigits(a);
  }

  /** A decimal token, with a point or a comma, is the grade it spells when that
      is at most 10. */
  lemma GradeOfDecimal(a: string, sep: char, b: string)
    requires |a| > 0 && AllDigits(a) && |b| > 0 && AllDigits(b) && (sep == '.' || sep == ',')
    requires DigitsValue(a + b) as real / Pow10(|b|) <= 10.0
    ensures GradeOf(a + [sep] + b) == Some(DigitsValue(a + b) as real / Pow10(|b|))
  {
    var v := DigitsValue(a + b) as real / Pow10(|b|);
    RatioNonNegative(DigitsValue(a + b), Pow10(|b|));
    CreditValue(a, sep, b);
    assert ParseFloat(ReplaceFirst(a + [sep] + b, ',', '.')) == Finite(v);
  }

  lemma RatioNonNegative(n: nat, d: real)
    requires d >= 1.0
    ensures n as real / d >= 0.0
  {
  }

  /** `creditIndex`: the first token after the first one that is a credit, or -1. */
  function CreditIndex(parts: seq<string>): (ci: int)
    ensures ci == -1 || (0 < ci < |parts| && IsCredit(parts[ci]))
    ensures forall k :: 0 < k < |parts| && (ci == -1 || k < ci) ==> !IsCredit(parts[k])
  {
    CreditFrom(parts, 1)
  }

  function CreditFrom(parts: seq<string>, i: nat): (ci: int)
    ensures ci == -1 || (i <= ci < |parts| && IsCredit(parts[ci]))
    ensures forall k :: i <= k < |parts| && (ci == -1 || k < ci) ==> !IsCredit(parts[k])
    decreases |parts| - i
  {
    if i >= |parts| then -1
    else if IsCredit(parts[i]) then i
    else CreditFrom(parts, i + 1)
  }

  /** The credit-searching loop, with its `break`. */
  method FindCreditIndex(parts: seq<string>) returns (creditIndex: int)
    ensures creditIndex == CreditIndex(parts)
  {
    creditIndex := -1;
    var i := 0;
    while i < |parts|
      invariant 0 <= i <= |parts|
      invariant creditIndex == -1
      invariant CreditIndex(parts) == CreditFrom(parts, if i == 0 then 1 else i)
    {
      if CreditShape(parts[i]) && i > 0 {
        var potentialCredit := ParseFloat(ReplaceFirst(parts[i], ',', '.'));
        if potentialCredit.Finite? && 0.0 < potentialCredit.value && potentialCredit.value <= 10.0 {
          creditIndex := i;
          break;
        }
      }
      i := i + 1;
    }
  }

  /** The credit token is not excluded from the grade scan: its value, being in
      (0, 10], is also one of the grade values. */
  lemma CreditCountedAsGrade(parts: seq<string>)
    requires CreditIndex(parts) != -1
    ensures var t := parts[CreditIndex(parts)];
      GradeOf(t).Some? && GradeOf(t).value in GradeValues(parts)
  {
    TokenGradeCollected(parts, CreditIndex(parts));
  }

  // ---------------------------------------------------------------------
  // The course name

  /** The class `[\s\-:]`. */
  predicate IsSep(c: char) { IsSpace(c) || c == '-' || c == ':' }

  /** `replace(/^[\s\-:]+/, '').replace(/[\s\-:]+$/, '')`: separators dropped
      at both ends. */
  function StripSeps(s: string): (r: string)
    ensures |r| > 0 ==> !IsSep(r[0]) && !IsSep(r[|r| - 1])
  {
    TrimEndBy(TrimStartBy(s, IsSep), IsSep)
  }

  /** Whitespace is a separator, so trimming it first changes nothing. */
  lemma StripSepsTrim(x: string)
    ensures StripSeps(Trim(x)) == StripSeps(x)
  {
    var b := TrimAsSlice(x);
    var a := StripAsSlice(x);
    StripInside(x, b, Trim(x), a, StripSeps(x));
  }

  /** Trim(x) as a slice of x with only whitespace around it; b is where it starts. */
  lemma TrimAsSlice(x: string) returns (b: nat)
    ensures b + |Trim(x)| <= |x| && Trim(x) == x[b..b + |Trim(x)|]
    ensures AllIn(x[..b], IsSpace) && AllIn(x[b + |Trim(x)|..], IsSpace)
  {
    b := |x| - |TrimStartBy(x, IsSpace)|;
    assert Trim(x) == TrimEndBy(TrimStartBy(x, IsSpace), IsSpace);
    TrimEndsSlice(x, IsSpace);
  }

  /** StripSeps(x) as a slice of x with only separators around it; a is where it
      starts. */
  lemma StripAsSlice(x: string) returns (a: nat)
    ensures a + |StripSeps(x)| <= |x| && StripSeps(x) == x[a..a + |StripSeps(x)|]
    ensures AllIn(x[..a], IsSep) && AllIn(x[a + |StripSeps(x)|..], IsSep)
  {
    a := |x| - |TrimStartBy(x, IsSep)|;
    TrimEndsSlice(x, IsSep);
  }

  /** Stripping separators from a slice t of x that leaves only whitespace outside
      it gives what stripping x gives. */
  lemma StripInside(x: string, b: nat, t: string, a: nat, r: string)
    requires b + |t| <= |x| && t == x[b..b + |t|]
    requires AllIn(x[..b], IsSpace) && AllIn(x[b + |t|..], IsSpace)
    requires a + |r| <= |x| && r == x[a..a + |r|]
    requires AllIn(x[..a], IsSep) && AllIn(x[a + |r|..], IsSep)
    requires |r| > 0 ==> !IsSep(r[0]) && !IsSep(r[|r| - 1])
    ensures StripSeps(t) == r
  {
    assert forall k :: 0 <= k < b ==> IsSpace(x[..b][k]);
    forall k | b + |t| <= k < |x| ensures IsSpace(x[k]) {
      assert x[k] == x[b + |t|..][k - b - |t|];
    }
    assert forall k :: 0 <= k < a ==> IsSep(x[..a][k]);
    forall k | a + |r| <= k < |x| ensures IsSep(x[k]) {
      assert x[k] == x[a + |r|..][k - a - |r|];
    }
    assert forall k :: 0 <= k < |t| ==> t[k] == x[b + k];
    if |r| > 0 {
      assert x[a] == r[0] && x[a + |r| - 1] == r[|r| - 1];
      var a' := a - b;
      assert t[a'..a' + |r|] == r;
      var u, v := t[..a'], t[a' + |r|..];
      forall k | 0 <= k < |u| ensures IsSep(u[k]) {
        assert u[k] == x[b + k];
      }
      forall k | 0 <= k < |v| ensures IsSep(v[k]) {
        assert v[k] == x[a + |r| + k];
      }
      TrimEndsUnique(t, IsSep, a', r);
    } else {
      forall k | 0 <= k < |t| ensures IsSep(t[k]) {
        assert t[k] == x[b + k];
      }
      assert t[..0] == "" && t[0..] == t;
      TrimEndsUnique(t, IsSep, 0, r);
    }
  }

  /** Where the course name ends: the first occurrence of the credit token at or
      after the code (`indexOf`, -1 when absent), or the end of the line. */
  function CourseNameEnd(line: string, codeLen: nat, parts: seq<string>, ci: int): int
    requires ci == -1 || 0 <= ci < |parts|
  {
    if ci != -1 then IndexOf(line, parts[ci], codeLen) else |line|
  }

  /** The course name between the code and the credit token (or the end of the
      line): the words of that text, separators dropped at both ends, joined by
      single spaces. */
  function CourseName(line: string, codeLen: nat, parts: seq<string>, ci: int): (r: string)
    requires ci == -1 || 0 <= ci < |parts|
    ensures r == JoinSpaces(Tokens(StripSeps(Substring(line, codeLen, CourseNameEnd(line, codeLen, parts, ci)))))
    ensures Normal(r) && Trimmed(r)
    ensures |r| > 0 ==> !IsSep(r[0]) && !IsSep(r[|r| - 1])
  {
    var sub := Substring(line, codeLen, CourseNameEnd(line, codeLen, parts, ci));
    CleanNameWords(sub);
    Trim(CollapseSpaces(StripSeps(Trim(sub))))
  }

  /** Cleaning a name slice keeps exactly its words, joined by single spaces,
      with no separator at either end. */
  lemma CleanNameWords(sub: string)
    ensures var r := Trim(CollapseSpaces(StripSeps(Trim(sub))));
      && r == JoinSpaces(Tokens(StripSeps(sub)))
      && Normal(r) && Trimmed(r)
      && (|r| > 0 ==> !IsSep(r[0]) && !IsSep(r[|r| - 1]))
  {
    var t := StripSeps(Trim(sub));
    StripSepsTrim(sub);
    TrimCollapse(t);
    CollapseStripped(t);
  }

  /** Collapsing the whitespace of a string with no separator at either end
      leaves it trimmed, with the same ends. */
  lemma CollapseStripped(t: string)
    requires |t| > 0 ==> !IsSep(t[0]) && !IsSep(t[|t| - 1])
    ensures var c := CollapseSpaces(t);
      && Trim(c) == c && Normal(c) && Trimmed(c)
      && (|c| > 0 ==> !IsSep(c[0]) && !IsSep(c[|c| - 1]))
  {
    var c := CollapseSpaces(t);
    if |t| > 0 {
      assert c[0] == t[0];
    }
    assert Trimmed(c);
  }

  /** The code characters are letters and digits, so the line's first word starts
      at 0 and covers the code. */
  lemma CodeIsFirstWord(line: string)
    requires CourseCodeLength(line).Some?
    ensures RunEnd(line, 0, IsSpace) == 0
    ensures RunEnd(line, 0, IsNonSpace) >= CourseCodeLength(line).value
  {
    var n := CourseCodeLength(line).value;
    var l := RunEnd(line, 0, IsUpper);
    forall k | 0 <= k < n ensures IsNonSpace(line[k]) {
      if k < l { assert IsUpper(line[k]); } else { assert IsDigit(line[k]); }
    }
    RunEndAtLeast(line, 0, n, IsNonSpace);
  }

  // ---------------------------------------------------------------------
  // The row

  /** `gradeValues[k]?.toString() || '0'`; render stands for the decimal
      rendering of a number. */
  function GradeField(vs: seq<real>, k: nat, render: real -> string): (f: string)
    ensures f != ""
    ensures k < |vs| && render(vs[k]) != "" ==> f == render(vs[k])
    ensures k >= |vs| ==> f == "0"
  {
    if k < |vs| && render(vs[k]) != "" then render(vs[k]) else "0"
  }

  /** The row a line yields: one exactly when it starts with a course code and
      has at least one grade value. */
  function RowOf(line: string, render: real -> string): (r: Option<ParsedGrade>)
    ensures r.Some? <==> CourseCodeLength(line).Some? && |GradeValues(Tokens(line))| > 0
  {
    match CourseCodeLength(line)
    case None => None
    case Some(n) =>
      var parts := Tokens(line);
      var vs := GradeValues(parts);
      if |vs| == 0 then None
      else
        var ci := CreditIndex(parts);
        Some(ParsedGrade(
          maHP := line[..n],
          tenHP := CourseName(line, n, parts, ci),
          tinChi := if ci != -1 then parts[ci] else "0",
          diemQT := GradeField(vs, 0, render),
          diemGK := GradeField(vs, 1, render),
          diemTH := GradeField(vs, 2, render),
          diemCK := GradeField(vs, 3, render),
          diemHP := "0"))
  }

  /** The body applied to one line of the page. */
  method ParseRow(line: string, render: real -> string) returns (row: Option<ParsedGrade>)
    ensures row == RowOf(line, render)
  {
    var codeLen := CourseCodeLength(line);
    if codeLen.None? {
      return None;
    }
    var parts := Tokens(line);
    var gradeValues := ScanGrades(parts);
    if |gradeValues| < 1 {
      return None;
    }
    var creditIndex := FindCreditIndex(parts);
    var credit := if creditIndex != -1 then parts[creditIndex] else "0";
    row := Some(ParsedGrade(
      maHP := line[..codeLen.value],
      tenHP := CourseName(line, codeLen.value, parts, creditIndex),
      tinChi := credit,
      diemQT := GradeField(gradeValues, 0, render),
      diemGK := GradeField(gradeValues, 1, render),
      diemTH := GradeField(gradeValues, 2, render),
      diemCK := GradeField(gradeValues, 3, render),
      diemHP := "0"));
  }

  /** The fields of a row: the course code that starts the line, the first
      credit token (or "0"), the first four grade values in order (each "0" when
      missing), and "0" as the module grade. */
  lemma RowFields(line: string, render: real -> string)
    requires RowOf(line, render).Some?
    ensures var r, n, parts := RowOf(line, render).value, CourseCodeLength(line).value, Tokens(line);
      var vs, ci := GradeValues(parts), CreditIndex(parts);
      && r.maHP == line[..n]
      && r.tinChi == (if ci == -1 then "0" else parts[ci])
      && r.diemQT == GradeField(vs, 0, render) && r.diemGK == GradeField(vs, 1, render)
      && r.diemTH == GradeField(vs, 2, render) && r.diemCK == GradeField(vs, 3, render)
      && r.diemHP == "0"
  {
  }

  /** The name of a row is the text between the code and the first occurrence of
      the credit token at or after it (the end of the line without a credit
      token): the credit token always occurs there, no later than its own place
      among the words, so `indexOf` never yields -1. */
  lemma CourseNameBetween(line: string, render: real -> string)
    requires RowOf(line, render).Some?
    ensures var n, parts := CourseCodeLength(line).value, Tokens(line);
      var ci := CreditIndex(parts);
      var e := CourseNameEnd(line, n, parts, ci);
      && n <= e <= |line|
      && (ci != -1 ==> && OccursAt(line, parts[ci], e) && e <= TokenPos(line, ci)
                       && forall m :: n <= m < e ==> !OccursAt(line, parts[ci], m))
      && RowOf(line, render).value.tenHP == JoinSpaces(Tokens(StripSeps(line[n..e])))
  {
    var n, parts := CourseCodeLength(line).value, Tokens(line);
    var ci := CreditIndex(parts);
    var e := CourseNameEnd(line, n, parts, ci);
    if ci != -1 {
      CodeIsFirstWord(line);
      TokensOccur(line, ci);
      assert n <= TokenPos(line, ci);
      assert e != -1 && e <= TokenPos(line, ci);
    }
    assert Substring(line, n, e) == line[n..e];
  }
}
