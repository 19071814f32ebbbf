/** The text helpers of the PDF grade parser: `cleanText`, and the semester
    header recognised by the case-insensitive regular expression
    `Học kỳ\s*\d+\s*-\s*Năm học\s*\d{4}-\d{4}` (`isSemesterLine`,
    `extractSemesterName`). */
module PdfText {
  import opened JsStrings

  /** `cleanText`: whitespace runs become one space, line feeds become spaces,
      and the ends are trimmed. What is left is the whitespace-separated words of
      the text joined by single spaces. */
  function CleanText(text: string): (r: string)
    ensures r == JoinSpaces(Tokens(text))
    ensures Normal(r) && Trimmed(r)
  {
    var c := CollapseSpaces(text);
    NormalHasNoLineFeed(c);
    TrimCollapse(text);
    Trim(ReplaceAll(c, '\n', ' '))
  }

  /** A normalised string holds no line feed, so replacing line feeds does nothing. */
  lemma NormalHasNoLineFeed(s: string)
    requires Normal(s)
    ensures ReplaceAll(s, '\n', ' ') == s
  {
    forall i | 0 <= i < |s|
      ensures s[i] != '\n'
    {
      if s[i] == '\n' { assert IsSpace(s[i]); }
    }
  }

  /** The output of `cleanText` has no whitespace at either end, no two adjacent
      whitespace characters, and cleaning it again changes nothing. */
  lemma CleanTextIdempotent(text: string)
    ensures var r := CleanText(text);
      && (|r| > 0 ==> !IsSpace(r[0]) && !IsSpace(r[|r| - 1]))
      && (forall i :: 0 <= i < |r| - 1 ==> !(IsSpace(r[i]) && IsSpace(r[i + 1])))
      && CleanText(r) == r
  {
    var r := CleanText(text);
    CollapseNormal(r);
    NormalHasNoLineFeed(r);
  }

  /** The upper-case form of the letters that occur in the header pattern; two
      characters match under the `i` flag exactly when their forms agree, for every
      character of the pattern. Other characters are left as they are. */
  function Fold(c: char): char {
    if 'a' <= c <= 'z' then (c as int - 32) as char
    else if c == '\U{1ECD}' then '\U{1ECC}'      // o with dot below
    else if c == '\U{1EF3}' then '\U{1EF2}'      // y with grave
    else if c == '\U{0103}' then '\U{0102}'      // a with breve
    else c
  }

  /** The two literal words of the header pattern. */
  const HocKy: string := "H\U{1ECD}c k\U{1EF3}"
  const NamHoc: string := "N\U{0103}m h\U{1ECD}c"

  /** lit occurs at position i of s, ignoring case. */
  predicate LitAt(s: string, i: nat, lit: string) {
    i + |lit| <= |s| && forall k :: 0 <= k < |lit| ==> Fold(s[i + k]) == Fold(lit[k])
  }

  /** Exactly four digits at position i. */
  predicate FourDigitsAt(s: string, i: nat) {
    i + 4 <= |s| && forall k :: i <= k < i + 4 ==> IsDigit(s[k])
  }

  /** End of the run of whitespace (`\s*`) that starts at i. */
  function SkipSpaces(t: string, i: nat): (j: nat)
    requires i <= |t|
    ensures i <= j <= |t| && (j == |t| || !IsSpace(t[j]))
    ensures forall k :: i <= k < j ==> IsSpace(t[k])
    decreases |t| - i
  {
    if i < |t| && IsSpace(t[i]) then SkipSpaces(t, i + 1) else i
  }

  /** End of the run of digits (`\d*`) that starts at i. */
  function SkipDigits(t: string, i: nat): (j: nat)
    requires i <= |t|
    ensures i <= j <= |t| && (j == |t| || !IsDigit(t[j]))
    ensures forall k :: i <= k < j ==> IsDigit(t[k])
    decreases |t| - i
  {
    if i < |t| && IsDigit(t[i]) then SkipDigits(t, i + 1) else i
  }

  /** The last part of the pattern, `\d{4}-\d{4}`, at position e. */
  function MatchYears(t: string, e: nat): (m: Option<nat>)
    ensures m.Some? ==> e < m.value <= |t|
  {
    if FourDigitsAt(t, e) && e + 4 < |t| && t[e + 4] == '-' && FourDigitsAt(t, e + 5)
    then Some(e + 9)
    else None
  }

  /** `Năm học\s*` followed by the years, at position d. */
  function MatchNamHoc(t: string, d: nat): (m: Option<nat>)
    ensures m.Some? ==> d < m.value <= |t|
  {
    if !LitAt(t, d, NamHoc) then None
    else MatchYears(t, SkipSpaces(t, d + |NamHoc|))
  }

  /** `-\s*` followed by the rest of the pattern, at position c. */
  function MatchDash(t: string, c: nat): (m: Option<nat>)
    requires c <= |t|
    ensures m.Some? ==> c < m.value <= |t|
  {
    if c == |t| || t[c] != '-' then None
    else MatchNamHoc(t, SkipSpaces(t, c + 1))
  }

  /** `\d+\s*` followed by the rest of the pattern, at position a. */
  function MatchNumber(t: string, a: nat): (m: Option<nat>)
    requires a <= |t|
    ensures m.Some? ==> a < m.value <= |t|
  {
    var b := SkipDigits(t, a);
    if b == a then None
    else MatchDash(t, SkipSpaces(t, b))
  }

  /** The regular expression anchored at the start of t: the end of the match, if
      any. Every quantifier is followed by a character outside its class, so the
      match at a given position is unique. */
  function MatchHeader(t: string): (m: Option<nat>)
    ensures m.Some? ==> |HocKy| < m.value <= |t| && LitAt(t, 0, HocKy)
  {
    if !LitAt(t, 0, HocKy) then None
    else MatchNumber(t, SkipSpaces(t, |HocKy|))
  }

  /** Every character of s[i..j] is whitespace. */
  predicate SpacesIn(s: string, i: nat, j: nat) {
    i <= j <= |s| && forall k :: i <= k < j ==> IsSpace(s[k])
  }

  /** Every character of s[i..j] is a digit. */
  predicate DigitsIn(s: string, i: nat, j: nat) {
    i <= j <= |s| && forall k :: i <= k < j ==> IsDigit(s[k])
  }

  /** h is read whole by the pattern, its parts split at the given positions:
      "Học kỳ", whitespace up to a, digits [a, b) (at least one), whitespace up
      to c, '-' at c, whitespace up to d, "Năm học" at d, whitespace up to e, then
      four digits, '-', four digits, and nothing after them. */
  predicate HeaderParts(h: string, a: nat, b: nat, c: nat, d: nat, e: nat) {
    && LitAt(h, 0, HocKy) && SpacesIn(h, |HocKy|, a)
    && a < b && DigitsIn(h, a, b)
    && SpacesIn(h, b, c) && c < |h| && h[c] == '-'
    && SpacesIn(h, c + 1, d) && LitAt(h, d, NamHoc)
    && SpacesIn(h, d + |NamHoc|, e)
    && e + 9 == |h| && FourDigitsAt(h, e) && h[e + 4] == '-' && FourDigitsAt(h, e + 5)
  }

  /** h is a whole semester header: the pattern reads it from its start to its end. */
  ghost predicate HeaderForm(h: string) {
    exists a: nat, b: nat, c: nat, d: nat, e: nat :: HeaderParts(h, a, b, c, d, e)
  }

  /** A run of whitespace covering [i, j) and stopped at j. */
  lemma SkipSpacesExact(t: string, i: nat, j: nat)
    requires SpacesIn(t, i, j) && (j == |t| || !IsSpace(t[j]))
    ensures SkipSpaces(t, i) == j
    decreases j - i
  {
    if i < j { SkipSpacesExact(t, i + 1, j); }
  }

  /** A run of digits covering [i, j) and stopped at j. */
  lemma SkipDigitsExact(t: string, i: nat, j: nat)
    requires DigitsIn(t, i, j) && (j == |t| || !IsDigit(t[j]))
    ensures SkipDigits(t, i) == j
    decreases j - i
  {
    if i < j { SkipDigitsExact(t, i + 1, j); }
  }

  /** Folding leaves whitespace as it is. */
  lemma FoldSpace(c: char)
    requires IsSpace(c)
    ensures Fold(c) == c
  {
  }

  /** The anchored match ends at n exactly when the first n characters are a whole
      header. */
  lemma MatchHeaderForm(t: string, n: nat)
    ensures MatchHeader(t) == Some(n) <==> n <= |t| && HeaderForm(t[..n])
  {
    if MatchHeader(t) == Some(n) {
      MatchGivesForm(t);
    }
    if n <= |t| && HeaderForm(t[..n]) {
      FormGivesMatch(t, n);
    }
  }

  /** The text the anchored match covers is a whole header. */
  lemma MatchGivesForm(t: string)
    requires MatchHeader(t).Some?
    ensures HeaderForm(t[..MatchHeader(t).value])
  {
    var n := MatchHeader(t).value;
    var h := t[..n];
    assert h[..n] == t[..n];
    MatchHeaderLocal(t, h);
    WholeMatchForm(h);
  }

  /** A whole header at the start of t is what the anchored match covers. */
  lemma FormGivesMatch(t: string, n: nat)
    requires n <= |t| && HeaderForm(t[..n])
    ensures MatchHeader(t) == Some(n)
  {
    var h := t[..n];
    FormWholeMatch(h);
    assert h[..n] == t[..n];
    MatchHeaderLocal(h, t);
  }

  /** A string the pattern reads to its end is a whole header. */
  lemma WholeMatchForm(h: string)
    requires MatchHeader(h) == Some(|h|)
    ensures HeaderForm(h)
  {
    HeaderBack(h);
    var a := SkipSpaces(h, |HocKy|);
    NumberBack(h, a);
    var b := SkipDigits(h, a);
    var c := SkipSpaces(h, b);
    DashBack(h, c);
    var d := SkipSpaces(h, c + 1);
    NamHocBack(h, d);
    var e := SkipSpaces(h, d + |NamHoc|);
    PartsForm(h, a, b, c, d, e);
  }

  lemma PartsForm(h: string, a: nat, b: nat, c: nat, d: nat, e: nat)
    requires LitAt(h, 0, HocKy) && SpacesIn(h, |HocKy|, a)
    requires a < b && DigitsIn(h, a, b)
    requires SpacesIn(h, b, c) && c < |h| && h[c] == '-'
    requires SpacesIn(h, c + 1, d) && LitAt(h, d, NamHoc)
    requires SpacesIn(h, d + |NamHoc|, e)
    requires e + 9 == |h| && FourDigitsAt(h, e) && h[e + 4] == '-' && FourDigitsAt(h, e + 5)
    ensures HeaderForm(h)
  {
    assert HeaderParts(h, a, b, c, d, e);
  }

  /** What the first stage reads when the rest of the pattern reads to the end. */
  lemma HeaderBack(h: string)
    requires MatchHeader(h) == Some(|h|)
    ensures LitAt(h, 0, HocKy)
    ensures var a := SkipSpaces(h, |HocKy|);
      SpacesIn(h, |HocKy|, a) && MatchNumber(h, a) == Some(|h|)
  {
  }

  /** What the number stage reads when the rest of the pattern reads to the end. */
  lemma NumberBack(h: string, a: nat)
    requires a <= |h| && MatchNumber(h, a) == Some(|h|)
    ensures var b := SkipDigits(h, a);
      a < b && DigitsIn(h, a, b) && SpacesIn(h, b, SkipSpaces(h, b))
      && MatchDash(h, SkipSpaces(h, b)) == Some(|h|)
  {
  }

  /** What the dash stage reads when the rest of the pattern reads to the end. */
  lemma DashBack(h: string, c: nat)
    requires c <= |h| && MatchDash(h, c) == Some(|h|)
    ensures c < |h| && h[c] == '-' && SpacesIn(h, c + 1, SkipSpaces(h, c + 1))
    ensures MatchNamHoc(h, SkipSpaces(h, c + 1)) == Some(|h|)
  {
  }

  /** What the last stages read when they read to the end. */
  lemma NamHocBack(h: string, d: nat)
    requires MatchNamHoc(h, d) == Some(|h|)
    ensures LitAt(h, d, NamHoc)
    ensures var e := SkipSpaces(h, d + |NamHoc|);
      SpacesIn(h, d + |NamHoc|, e) && e + 9 == |h| && FourDigitsAt(h, e) && h[e + 4] == '-' && FourDigitsAt(h, e + 5)
  {
  }

  /** The pattern reads a whole header to its end. */
  lemma FormWholeMatch(h: string)
    requires HeaderForm(h)
    ensures MatchHeader(h) == Some(|h|)
  {
    var a: nat, b: nat, c: nat, d: nat, e: nat :| HeaderParts(h, a, b, c, d, e);
    NumberStage(h, a, b, c, d, e);
    SkipSpacesExact(h, |HocKy|, a);
  }

  lemma NumberStage(h: string, a: nat, b: nat, c: nat, d: nat, e: nat)
    requires HeaderParts(h, a, b, c, d, e)
    ensures MatchNumber(h, a) == Some(|h|)
  {
    DashStage(h, a, b, c, d, e);
    SkipDigitsExact(h, a, b);
    SkipSpacesExact(h, b, c);
  }

  lemma DashStage(h: string, a: nat, b: nat, c: nat, d: nat, e: nat)
    requires HeaderParts(h, a, b, c, d, e)
    ensures MatchDash(h, c) == Some(|h|)
  {
    NamHocStage(h, a, b, c, d, e);
    assert !IsSpace(h[d]) by {
      assert Fold(h[d]) == Fold(NamHoc[0]);
      if IsSpace(h[d]) { FoldSpace(h[d]); }
    }
    SkipSpacesExact(h, c + 1, d);
  }

  lemma NamHocStage(h: string, a: nat, b: nat, c: nat, d: nat, e: nat)
    requires HeaderParts(h, a, b, c, d, e)
    ensures MatchNamHoc(h, d) == Some(|h|)
  {
    SkipSpacesExact(h, d + |NamHoc|, e);
  }


  /** The first position j in [i, n] at which f finds a match, with that match. */
  function FirstMatch(n: nat, i: nat, f: nat -> Option<nat>): (r: Option<(nat, nat)>)
    requires i <= n
    ensures r.Some? ==> && i <= r.value.0 <= n && f(r.value.0) == Some(r.value.1)
                        && forall j :: i <= j < r.value.0 ==> f(j).None?
    ensures r.None? ==> forall j :: i <= j <= n ==> f(j).None?
    decreases n - i
  {
    if f(i).Some? then Some((i, f(i).value))
    else if i == n then None
    else FirstMatch(n, i + 1, f)
  }

  /** The pattern tried at every position of a line. */
  function HeaderMatcher(line: string): nat -> Option<nat> {
    (j: nat) => if j <= |line| then MatchHeader(line[j..]) else None
  }

  /** The leftmost match in the line: its start and its length. */
  function SearchHeader(line: string): (r: Option<(nat, nat)>)
    ensures r.Some? ==> && r.value.0 + r.value.1 <= |line|
                        && MatchHeader(line[r.value.0..]) == Some(r.value.1)
                        && forall j :: 0 <= j < r.value.0 ==> MatchHeader(line[j..]).None?
    ensures r.None? ==> forall j :: 0 <= j <= |line| ==> MatchHeader(line[j..]).None?
  {
    var r := FirstMatch(|line|, 0, HeaderMatcher(line));
    assert forall j :: 0 <= j <= |line| ==> HeaderMatcher(line)(j) == MatchHeader(line[j..]);
    r
  }

  /** `isSemesterLine`: the pattern matches somewhere in the line. */
  predicate IsSemesterLine(line: string) {
    SearchHeader(line).Some?
  }

  /** `extractSemesterName`: the text of the leftmost match. None stands for the
      case where the source would invent a random fallback name; callers only ask
      about lines that satisfy IsSemesterLine. */
  function ExtractSemesterName(line: string): (r: Option<string>)
    ensures r.Some? <==> IsSemesterLine(line)
    ensures r.Some? ==> var (i, n) := SearchHeader(line).value; r.value == line[i..i + n]
    ensures r.Some? ==> exists i :: OccursAt(line, r.value, i)
  {
    match SearchHeader(line)
    case Some((i, n)) => assert OccursAt(line, line[i..i + n], i); Some(line[i..i + n])
    case None => None
  }

  /** The extracted name is a whole header, and no whole header starts earlier in
      the line. */
  lemma ExtractedNameForm(line: string)
    requires IsSemesterLine(line)
    ensures HeaderForm(ExtractSemesterName(line).value)
    ensures forall j: nat, m: nat :: j < SearchHeader(line).value.0 && j + m <= |line| ==> !HeaderForm(line[j..][..m])
  {
    ExtractedIsHeader(line);
    NoEarlierHeader(line);
  }

  lemma ExtractedIsHeader(line: string)
    requires IsSemesterLine(line)
    ensures HeaderForm(ExtractSemesterName(line).value)
  {
    var i, n := NameIsMatch(line);
    HeaderAt(line, i, n);
  }

  /** The extracted name is the text the anchored match covers at its start. */
  lemma NameIsMatch(line: string) returns (i: nat, n: nat)
    requires IsSemesterLine(line)
    ensures i + n <= |line| && MatchHeader(line[i..]) == Some(n)
    ensures ExtractSemesterName(line) == Some(line[i..i + n])
  {
    i, n := SearchHeader(line).value.0, SearchHeader(line).value.1;
  }

  /** Where the anchored match succeeds inside a line, the matched text is a
      whole header. */
  lemma HeaderAt(line: string, i: nat, n: nat)
    requires i + n <= |line| && MatchHeader(line[i..]) == Some(n)
    ensures HeaderForm(line[i..i + n])
  {
    var t := line[i..];
    assert t[..n] == line[i..i + n];
    MatchGivesForm(t);
  }

  lemma NoEarlierHeader(line: string)
    requires IsSemesterLine(line)
    ensures forall j: nat, m: nat :: j < SearchHeader(line).value.0 && j + m <= |line| ==> !HeaderForm(line[j..][..m])
  {
    forall j: nat, m: nat | j < SearchHeader(line).value.0 && j + m <= |line|
      ensures !HeaderForm(line[j..][..m])
    {
      NoMatchNoForm(line[j..], m);
    }
  }

  /** Where the anchored match fails, no prefix is a whole header. */
  lemma NoMatchNoForm(t: string, m: nat)
    requires MatchHeader(t).None? && m <= |t|
    ensures !HeaderForm(t[..m])
  {
    if HeaderForm(t[..m]) {
      FormGivesMatch(t, m);
    }
  }

  lemma SkipSpacesLocal(s: string, u: string, i: nat, limit: nat)
    requires i <= |s| && i <= |u| && limit <= |s| && limit <= |u| && s[..limit] == u[..limit]
    requires SkipSpaces(s, i) < limit
    ensures SkipSpaces(u, i) == SkipSpaces(s, i)
    decreases |s| - i
  {
    assert s[i] == s[..limit][i] == u[..limit][i] == u[i];
    if IsSpace(s[i]) { SkipSpacesLocal(s, u, i + 1, limit); }
  }

  lemma SkipDigitsLocal(s: string, u: string, i: nat, limit: nat)
    requires i <= |s| && i <= |u| && limit <= |s| && limit <= |u| && s[..limit] == u[..limit]
    requires SkipDigits(s, i) < limit
    ensures SkipDigits(u, i) == SkipDigits(s, i)
    decreases |s| - i
  {
    assert s[i] == s[..limit][i] == u[..limit][i] == u[i];
    if IsDigit(s[i]) { SkipDigitsLocal(s, u, i + 1, limit); }
  }

  /** t and u agree on their first limit characters. */
  predicate Agree(t: string, u: string, limit: nat) {
    limit <= |t| && limit <= |u| && t[..limit] == u[..limit]
  }

  lemma AgreeAt(t: string, u: string, limit: nat)
    requires Agree(t, u, limit)
    ensures forall k :: 0 <= k < limit ==> t[k] == u[k]
  {
    forall k | 0 <= k < limit ensures t[k] == u[k] { assert t[k] == t[..limit][k]; }
  }

  lemma MatchYearsLocal(t: string, u: string, e: nat)
    requires MatchYears(t, e).Some? && Agree(t, u, MatchYears(t, e).value)
    ensures MatchYears(u, e) == MatchYears(t, e)
  {
    AgreeAt(t, u, MatchYears(t, e).value);
  }

  lemma MatchNamHocLocal(t: string, u: string, d: nat)
    requires MatchNamHoc(t, d).Some? && Agree(t, u, MatchNamHoc(t, d).value)
    ensures MatchNamHoc(u, d) == MatchNamHoc(t, d)
  {
    var m := MatchNamHoc(t, d).value;
    AgreeAt(t, u, m);
    assert LitAt(u, d, NamHoc);
    SkipSpacesLocal(t, u, d + |NamHoc|, m);
    MatchYearsLocal(t, u, SkipSpaces(t, d + |NamHoc|));
  }

  lemma MatchDashLocal(t: string, u: string, c: nat)
    requires c <= |t| && c <= |u|
    requires MatchDash(t, c).Some? && Agree(t, u, MatchDash(t, c).value)
    ensures MatchDash(u, c) == MatchDash(t, c)
  {
    var m := MatchDash(t, c).value;
    AgreeAt(t, u, m);
    SkipSpacesLocal(t, u, c + 1, m);
    MatchNamHocLocal(t, u, SkipSpaces(t, c + 1));
  }

  lemma MatchNumberLocal(t: string, u: string, a: nat)
    requires a <= |t| && a <= |u|
    requires MatchNumber(t, a).Some? && Agree(t, u, MatchNumber(t, a).value)
    ensures MatchNumber(u, a) == MatchNumber(t, a)
  {
    var m := MatchNumber(t, a).value;
    SkipDigitsLocal(t, u, a, m);
    var b := SkipDigits(t, a);
    SkipSpacesLocal(t, u, b, m);
    MatchDashLocal(t, u, SkipSpaces(t, b));
  }

  /** The match depends only on the characters it covers. */
  lemma MatchHeaderLocal(t: string, u: string)
    requires MatchHeader(t).Some? && Agree(t, u, MatchHeader(t).value)
    ensures MatchHeader(u) == MatchHeader(t)
  {
    var m := MatchHeader(t).value;
    AgreeAt(t, u, m);
    assert LitAt(u, 0, HocKy);
    SkipSpacesLocal(t, u, |HocKy|, m);
    MatchNumberLocal(t, u, SkipSpaces(t, |HocKy|));
  }

  /** Extracting the semester name from an extracted name gives it back whole. */
  lemma ExtractSemesterNameIdempotent(line: string)
    requires IsSemesterLine(line)
    ensures ExtractSemesterName(ExtractSemesterName(line).value) == ExtractSemesterName(line)
  {
    var (i, n) := SearchHeader(line).value;
    var h := ExtractSemesterName(line).value;
    assert h == line[i..i + n];
    MatchedTextMatches(line, i, n);
    HeaderAtStart(h, n);
  }

  /** The text of the leftmost match is matched whole by the pattern. */
  lemma MatchedTextMatches(line: string, i: nat, n: nat)
    requires SearchHeader(line) == Some((i, n))
    ensures MatchHeader(line[i..i + n]) == Some(n)
  {
    var h := line[i..i + n];
    var t := line[i..];
    assert t[..n] == h[..n];
    MatchHeaderLocal(t, h);
  }

  /** A string the pattern matches from its start to its end is its own header. */
  lemma HeaderAtStart(h: string, n: nat)
    requires MatchHeader(h) == Some(n) && n == |h|
    ensures ExtractSemesterName(h) == Some(h)
  {
    assert h[0..] == h;
    assert HeaderMatcher(h)(0) == Some(n);
    assert SearchHeader(h) == Some((0, n));
    assert h[0..0 + n] == h;
  }
}
