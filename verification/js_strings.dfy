/** Models of the ECMAScript string built-ins the grade tool relies on: the `\s`
    class and `trim`, `replace(/\s+/g, ' ')`, `split(/\s+/).filter(Boolean)`,
    `indexOf`, `substring`, `slice(0, n)`, the replacement of the first occurrence
    of a character, and the decimal rendering of a non-negative integer.
    A string is a sequence of Unicode scalar values: for text inside the Basic
    Multilingual Plane one character is one UTF-16 code unit, as in ECMAScript. */
module JsStrings {

  datatype Option<+T> = None | Some(value: T)

  /** ECMAScript WhiteSpace and LineTerminator code points: exactly the set the
      regular-expression class `\s` matches and the set `trim` removes. */
  predicate IsSpace(c: char) {
    c == '\t' || c == '\n' || c == '\U{B}' || c == '\U{C}' || c == '\r' || c == ' '
    || c == '\U{A0}' || c == '\U{1680}' || ('\U{2000}' <= c <= '\U{200A}')
    || c == '\U{2028}' || c == '\U{2029}' || c == '\U{202F}' || c == '\U{205F}'
    || c == '\U{3000}' || c == '\U{FEFF}'
  }

  predicate IsNonSpace(c: char) { !IsSpace(c) }

  /** The class `\d`. */
  predicate IsDigit(c: char) { '0' <= c <= '9' }

  /** The class `[A-Z]` (no case folding). */
  predicate IsUpper(c: char) { 'A' <= c <= 'Z' }

  predicate AllDigits(s: string) { forall i :: 0 <= i < |s| ==> IsDigit(s[i]) }

  predicate NoSpace(s: string) { forall i :: 0 <= i < |s| ==> !IsSpace(s[i]) }

  /** Every character of s is of class p. */
  predicate AllIn(s: string, p: char -> bool) { forall i :: 0 <= i < |s| ==> p(s[i]) }

  /** Whitespace is normalised: every whitespace character is a plain space and
      no two whitespace characters are adjacent. */
  predicate Normal(s: string) {
    forall i :: 0 <= i < |s| && IsSpace(s[i]) ==> s[i] == ' ' && (i + 1 < |s| ==> !IsSpace(s[i + 1]))
  }

  /** Neither the first nor the last character is whitespace. */
  predicate Trimmed(s: string) {
    |s| > 0 ==> !IsSpace(s[0]) && !IsSpace(s[|s| - 1])
  }

  /** End of the run of characters of class p that starts at i. */
  function RunEnd(s: string, i: nat, p: char -> bool): (j: nat)
    requires i <= |s|
    ensures i <= j <= |s|
    ensures forall k :: i <= k < j ==> p(s[k])
    ensures j == |s| || !p(s[j])
    decreases |s| - i
  {
    if i < |s| && p(s[i]) then RunEnd(s, i + 1, p) else i
  }

  /** A run of class p covering [i, j) ends at j or later. */
  lemma RunEndAtLeast(s: string, i: nat, j: nat, p: char -> bool)
    requires i <= j <= |s|
    requires forall k :: i <= k < j ==> p(s[k])
    ensures RunEnd(s, i, p) >= j
    decreases j - i
  {
    if i < j { RunEndAtLeast(s, i + 1, j, p); }
  }

  /** A character outside class p at j bounds the run that starts at or before j. */
  lemma RunEndAtMost(s: string, i: nat, j: nat, p: char -> bool)
    requires i <= j < |s| && !p(s[j])
    ensures RunEnd(s, i, p) <= j
    decreases j - i
  {
    if i < j && p(s[i]) { RunEndAtMost(s, i + 1, j, p); }
  }

  /** A run of class p covering [i, j) and stopped at j ends exactly at j. */
  lemma RunEndExact(s: string, i: nat, j: nat, p: char -> bool)
    requires i <= j <= |s|
    requires forall k :: i <= k < j ==> p(s[k])
    requires j == |s| || !p(s[j])
    ensures RunEnd(s, i, p) == j
  {
    RunEndAtLeast(s, i, j, p);
    if j < |s| { RunEndAtMost(s, i, j, p); }
  }

  /** Start of the run of characters of class p that ends just before j. */
  function RunStart(s: string, j: nat, p: char -> bool): (i: nat)
    requires j <= |s|
    ensures i <= j
    ensures forall k :: i <= k < j ==> p(s[k])
    ensures i == 0 || !p(s[i - 1])
    decreases j
  {
    if j > 0 && p(s[j - 1]) then RunStart(s, j - 1, p) else j
  }

  /** A run of class p covering [i, j) and stopped just before i starts exactly at i. */
  lemma {:induction false} RunStartExact(s: string, j: nat, i: nat, p: char -> bool)
    requires i <= j <= |s|
    requires forall k :: i <= k < j ==> p(s[k])
    requires i == 0 || !p(s[i - 1])
    ensures RunStart(s, j, p) == i
    decreases j - i
  {
    if i < j { RunStartExact(s, j - 1, i, p); }
  }

  /** `replace(/^[p]+/, '')`: drops the leading run of class p. */
  function TrimStartBy(s: string, p: char -> bool): (r: string)
    ensures |r| <= |s| && r == s[|s| - |r|..]
    ensures |r| > 0 ==> !p(r[0])
    ensures forall k :: 0 <= k < |s| - |r| ==> p(s[k])
  {
    s[RunEnd(s, 0, p)..]
  }

  /** `replace(/[p]+$/, '')`: drops the trailing run of class p. */
  function TrimEndBy(s: string, p: char -> bool): (r: string)
    ensures |r| <= |s| && r == s[..|r|]
    ensures |r| > 0 ==> !p(r[|r| - 1])
    ensures forall k :: |r| <= k < |s| ==> p(s[k])
  {
    s[..RunStart(s, |s|, p)]
  }

  /** Dropping the leading and then the trailing run of class p keeps a slice of s
      whose surroundings are all of class p. */
  lemma TrimEndsSlice(s: string, p: char -> bool)
    ensures var r, a := TrimEndBy(TrimStartBy(s, p), p), RunEnd(s, 0, p);
      && a == |s| - |TrimStartBy(s, p)|
      && a + |r| <= |s| && r == s[a..a + |r|] && AllIn(s[..a], p) && AllIn(s[a + |r|..], p)
  {
    var t := TrimStartBy(s, p);
    var r := TrimEndBy(t, p);
    var a := RunEnd(s, 0, p);
    assert t == s[a..];
    var u, v := s[..a], s[a + |r|..];
    assert r == s[a..a + |r|];
    assert AllIn(u, p) by {
      forall k | 0 <= k < |u| ensures p(u[k]) { assert u[k] == s[k]; }
    }
    assert AllIn(v, p) by {
      forall k | 0 <= k < |v| ensures p(v[k]) { assert v[k] == t[|r| + k]; }
    }
  }

  /** Leading characters of class p, then one that is not: the leading run is
      exactly those. */
  lemma TrimStartExact(s: string, p: char -> bool, a: nat)
    requires a <= |s| && AllIn(s[..a], p)
    requires a == |s| || !p(s[a])
    ensures TrimStartBy(s, p) == s[a..]
  {
    forall k | 0 <= k < a ensures p(s[k]) { assert s[k] == s[..a][k]; }
    RunEndExact(s, 0, a, p);
  }

  /** Trailing characters of class p, preceded by one that is not: the trailing run
      is exactly those. */
  lemma TrimEndExact(s: string, p: char -> bool, n: nat)
    requires n <= |s| && AllIn(s[n..], p)
    requires n == 0 || !p(s[n - 1])
    ensures TrimEndBy(s, p) == s[..n]
  {
    forall k | n <= k < |s| ensures p(s[k]) { assert s[k] == s[n..][k - n]; }
    RunStartExact(s, |s|, n, p);
  }

  /** That slice is the only one: a slice of s that neither starts nor ends with a
      character of class p, and whose surroundings are all of class p, is what
      dropping both runs leaves. */
  lemma TrimEndsUnique(s: string, p: char -> bool, a: nat, r: string)
    requires a + |r| <= |s| && r == s[a..a + |r|]
    requires AllIn(s[..a], p) && AllIn(s[a + |r|..], p)
    requires |r| > 0 ==> !p(r[0]) && !p(r[|r| - 1])
    ensures TrimEndBy(TrimStartBy(s, p), p) == r
  {
    if |r| == 0 {
      AllInJoin(s, a, p);
      TrimStartExact(s, p, |s|);
      TrimEndExact([], p, 0);
    } else {
      assert s[a] == r[0];
      TrimStartExact(s, p, a);
      TrimEndAfter(s, p, a, r);
    }
  }

  /** Characters of class p before and from a: all of s is of class p. */
  lemma AllInJoin(s: string, a: nat, p: char -> bool)
    requires a <= |s| && AllIn(s[..a], p) && AllIn(s[a..], p)
    ensures AllIn(s[..|s|], p)
  {
    assert s[..|s|] == s[..a] + s[a..];
  }

  /** The rest s[a..] starts with r, followed by characters of class p only, and r
      ends with one that is not: trimming the end of the rest leaves r. */
  lemma TrimEndAfter(s: string, p: char -> bool, a: nat, r: string)
    requires 0 < |r| && a + |r| <= |s| && r == s[a..a + |r|]
    requires AllIn(s[a + |r|..], p) && !p(r[|r| - 1])
    ensures TrimEndBy(s[a..], p) == r
  {
    var t := s[a..];
    assert t[|r|..] == s[a + |r|..] && t[|r| - 1] == r[|r| - 1];
    TrimEndExact(t, p, |r|);
    assert t[..|r|] == r;
  }

  /** What dropping whitespace at both ends leaves: a slice surrounded by
      whitespace, itself without whitespace at its ends; normalised whitespace stays
      normalised, and a string without whitespace at its ends is left as it is. */
  lemma TrimFacts(s: string)
    ensures var r := TrimEndBy(TrimStartBy(s, IsSpace), IsSpace);
      && (exists a: nat :: a + |r| <= |s| && r == s[a..a + |r|] && AllIn(s[..a], IsSpace) && AllIn(s[a + |r|..], IsSpace))
      && Trimmed(r)
      && (Normal(s) ==> Normal(r))
      && (Trimmed(s) ==> r == s)
  {
    TrimEndsSlice(s, IsSpace);
    TrimEnds(s);
    if Normal(s) {
      TrimNormal(s);
    }
  }

  lemma TrimEnds(s: string)
    ensures var r := TrimEndBy(TrimStartBy(s, IsSpace), IsSpace);
      Trimmed(r) && (Trimmed(s) ==> r == s)
  {
    var t := TrimStartBy(s, IsSpace);
    var r := TrimEndBy(t, IsSpace);
    if |r| > 0 {
      assert r[0] == t[0];
    }
    if Trimmed(s) {
      TrimEndsUnique(s, IsSpace, 0, s);
    }
  }

  /** Dropping whitespace at both ends keeps whitespace normalised. */
  lemma TrimNormal(s: string)
    requires Normal(s)
    ensures Normal(TrimEndBy(TrimStartBy(s, IsSpace), IsSpace))
  {
    var t := TrimStartBy(s, IsSpace);
    var r := TrimEndBy(t, IsSpace);
    forall i | 0 <= i < |t| && IsSpace(t[i])
      ensures t[i] == ' ' && (i + 1 < |t| ==> !IsSpace(t[i + 1]))
    {
      assert t[i] == s[|s| - |t| + i];
    }
    forall i | 0 <= i < |r| && IsSpace(r[i])
      ensures r[i] == ' ' && (i + 1 < |r| ==> !IsSpace(r[i + 1]))
    {
      assert r[i] == t[i];
    }
  }

  /** `String.prototype.trim`. */
  function Trim(s: string): (r: string)
    ensures exists a: nat :: a + |r| <= |s| && r == s[a..a + |r|] && AllIn(s[..a], IsSpace) && AllIn(s[a + |r|..], IsSpace)
    ensures Trimmed(r)
    ensures Normal(s) ==> Normal(r)
    ensures Trimmed(s) ==> r == s
  {
    TrimFacts(s);
    TrimEndBy(TrimStartBy(s, IsSpace), IsSpace)
  }

  /** `replace(/\s+/g, ' ')`: every maximal run of whitespace becomes one space. */
  function CollapseSpaces(s: string): (r: string)
    ensures |r| == 0 <==> |s| == 0
    ensures |r| > 0 ==> (IsSpace(r[0]) <==> IsSpace(s[0]))
    ensures |s| > 0 && !IsSpace(s[|s| - 1]) ==> r[|r| - 1] == s[|s| - 1]
    ensures Normal(r)
    decreases |s|
  {
    if |s| == 0 then ""
    else if IsSpace(s[0]) then " " + CollapseSpaces(s[RunEnd(s, 0, IsSpace)..])
    else [s[0]] + CollapseSpaces(s[1..])
  }

  /** Dropping the first character keeps the whitespace normalised. */
  lemma NormalTail(s: string)
    requires |s| > 0 && Normal(s)
    ensures Normal(s[1..])
  {
    var t := s[1..];
    forall i | 0 <= i < |t| && IsSpace(t[i])
      ensures t[i] == ' ' && (i + 1 < |t| ==> !IsSpace(t[i + 1]))
    {
      assert t[i] == s[i + 1];
    }
  }

  /** A string whose whitespace is already normalised is left as it is. */
  lemma {:induction false} CollapseNormal(s: string)
    requires Normal(s)
    ensures CollapseSpaces(s) == s
    decreases |s|
  {
    if |s| > 0 {
      var t := s[1..];
      NormalTail(s);
      CollapseNormal(t);
      if IsSpace(s[0]) {
        assert RunEnd(s, 0, IsSpace) == 1 by {
          if |s| > 1 {
            assert !IsSpace(s[1]);
          }
        }
        assert CollapseSpaces(s) == " " + CollapseSpaces(t);
      } else {
        assert CollapseSpaces(s) == [s[0]] + CollapseSpaces(t);
      }
      assert s == [s[0]] + t;
    }
  }

  /** `replace(/a/g, b)` for a one-character pattern. */
  function ReplaceAll(s: string, a: char, b: char): (r: string)
    ensures |r| == |s|
    ensures forall i :: 0 <= i < |s| ==> r[i] == (if s[i] == a then b else s[i])
  {
    seq(|s|, i requires 0 <= i < |s| => if s[i] == a then b else s[i])
  }

  /** `replace(a, b)` with a one-character string pattern: only the first
      occurrence of a is replaced. */
  function ReplaceFirst(s: string, a: char, b: char): (r: string)
    ensures |r| == |s|
    ensures forall i :: 0 <= i < |s| ==> r[i] == (if s[i] == a && a !in s[..i] then b else s[i])
    decreases |s|
  {
    if |s| == 0 then ""
    else if s[0] == a then [b] + s[1..]
    else
      var r := [s[0]] + ReplaceFirst(s[1..], a, b);
      assert forall i :: 1 <= i < |s| ==> s[..i] == [s[0]] + s[1..][..i - 1];
      r
  }

  /** `split(/\s+/).filter(Boolean)`: the maximal runs of non-whitespace, in order. */
  function Tokens(s: string): (ts: seq<string>)
    ensures forall k :: 0 <= k < |ts| ==> |ts[k]| > 0 && NoSpace(ts[k])
    decreases |s|
  {
    var a := RunEnd(s, 0, IsSpace);
    if a == |s| then []
    else
      var b := RunEnd(s, a, IsNonSpace);
      [s[a..b]] + Tokens(s[b..])
  }

  /** The whitespace around and between the tokens of s: the leading run, the run
      after each token (all but the last one non-empty). */
  function Gaps(s: string): (gs: seq<string>)
    ensures |gs| == |Tokens(s)| + 1
    decreases |s|
  {
    var a := RunEnd(s, 0, IsSpace);
    if a == |s| then [s]
    else [s[..a]] + Gaps(s[RunEnd(s, a, IsNonSpace)..])
  }

  /** gs[0] + ts[0] + gs[1] + ts[1] + ... + gs[|ts|]. */
  function Interleave(gs: seq<string>, ts: seq<string>): string
    requires |gs| == |ts| + 1
    decreases |ts|
  {
    if |ts| == 0 then gs[0] else gs[0] + ts[0] + Interleave(gs[1..], ts[1..])
  }

  /** The tokens are the maximal runs of non-whitespace of s, in order: s is exactly
      its tokens interleaved with whitespace gaps, and consecutive tokens are
      separated by at least one whitespace character. */
  lemma TokensSplit(s: string)
    ensures var gs, ts := Gaps(s), Tokens(s);
      && s == Interleave(gs, ts)
      && (forall k :: 0 <= k < |gs| ==> AllIn(gs[k], IsSpace))
      && (forall k :: 0 < k < |ts| ==> |gs[k]| > 0)
  {
    TokensInterleave(s);
    GapsSpaces(s);
    GapsInner(s);
  }

  /** The first gap and token of s, and the rest after them. */
  lemma GapsUnfold(s: string, a: nat, b: nat)
    requires a == RunEnd(s, 0, IsSpace) < |s| && b == RunEnd(s, a, IsNonSpace)
    ensures Gaps(s) == [s[..a]] + Gaps(s[b..])
    ensures Tokens(s) == [s[a..b]] + Tokens(s[b..])
  {
    TokensUnfold(s, a, b);
  }

  lemma {:induction false} TokensInterleave(s: string)
    ensures s == Interleave(Gaps(s), Tokens(s))
    decreases |s|
  {
    var a := RunEnd(s, 0, IsSpace);
    if a == |s| {
      assert s[..a] == s;
    } else {
      var b := RunEnd(s, a, IsNonSpace);
      var rest := s[b..];
      TokensInterleave(rest);
      GapsUnfold(s, a, b);
      InterleaveCons(s[..a], s[a..b], Gaps(rest), Tokens(rest));
      SplitThree(s, a, b);
    }
  }

  lemma InterleaveCons(g: string, t: string, gs: seq<string>, ts: seq<string>)
    requires |gs| == |ts| + 1
    ensures Interleave([g] + gs, [t] + ts) == g + t + Interleave(gs, ts)
  {
    assert ([g] + gs)[1..] == gs && ([t] + ts)[1..] == ts;
  }

  lemma SplitThree(s: string, a: nat, b: nat)
    requires a <= b <= |s|
    ensures s == s[..a] + s[a..b] + s[b..]
  {
  }

  lemma {:induction false} GapsSpaces(s: string)
    ensures forall k :: 0 <= k < |Gaps(s)| ==> AllIn(Gaps(s)[k], IsSpace)
    decreases |s|
  {
    var a := RunEnd(s, 0, IsSpace);
    assert AllIn(s[..a], IsSpace) by {
      forall k | 0 <= k < a ensures IsSpace(s[..a][k]) { assert s[..a][k] == s[k]; }
    }
    if a == |s| {
      assert s[..a] == s;
    } else {
      var b := RunEnd(s, a, IsNonSpace);
      GapsSpaces(s[b..]);
      GapsUnfold(s, a, b);
    }
  }

  lemma {:induction false} GapsInner(s: string)
    ensures forall k :: 0 < k < |Tokens(s)| ==> |Gaps(s)[k]| > 0
    decreases |s|
  {
    var a := RunEnd(s, 0, IsSpace);
    if a < |s| {
      var b := RunEnd(s, a, IsNonSpace);
      var rest := s[b..];
      GapsInner(rest);
      GapsUnfold(s, a, b);
      if |Tokens(rest)| > 0 {
        assert b < |s| && IsSpace(rest[0]);
        GapsFirst(rest);
      }
    }
  }

  /** When s has a token and starts with whitespace, its first gap is not empty. */
  lemma GapsFirst(s: string)
    requires |Tokens(s)| > 0 && |s| > 0 && IsSpace(s[0])
    ensures |Gaps(s)[0]| > 0
  {
  }

  /** The strings joined by single spaces: `ts.join(' ')`. */
  function JoinSpaces(ts: seq<string>): string
    decreases |ts|
  {
    if |ts| == 0 then "" else if |ts| == 1 then ts[0] else ts[0] + " " + JoinSpaces(ts[1..])
  }

  /** Joining non-empty strings without whitespace neither starts nor ends with whitespace. */
  lemma {:induction false} JoinSpacesEnds(ts: seq<string>)
    requires |ts| > 0
    requires forall k :: 0 <= k < |ts| ==> |ts[k]| > 0 && NoSpace(ts[k])
    ensures var j := JoinSpaces(ts); |j| > 0 && !IsSpace(j[0]) && !IsSpace(j[|j| - 1])
    decreases |ts|
  {
    if |ts| > 1 {
      JoinSpacesEnds(ts[1..]);
    }
  }

  /** Inside a run of non-whitespace, collapsing goes character by character. */
  lemma {:induction false} CollapseWord(s: string, a: nat, b: nat)
    requires a <= b <= |s|
    requires forall k :: a <= k < b ==> !IsSpace(s[k])
    ensures CollapseSpaces(s[a..]) == s[a..b] + CollapseSpaces(s[b..])
    decreases b - a
  {
    if a == b {
      assert s[a..b] == [];
    } else {
      assert CollapseSpaces(s[a..]) == [s[a]] + CollapseSpaces(s[a + 1..]) by {
        assert s[a..][0] == s[a] && s[a..][1..] == s[a + 1..];
      }
      CollapseWord(s, a + 1, b);
      ShiftedSplit(s, a, b, CollapseSpaces(s[a..]), CollapseSpaces(s[a + 1..]), CollapseSpaces(s[b..]));
    }
  }

  /** The sequence algebra of one step of CollapseWord. */
  lemma ShiftedSplit(s: string, a: nat, b: nat, x: string, y: string, c: string)
    requires a < b <= |s|
    requires x == [s[a]] + y && y == s[a + 1..b] + c
    ensures x == s[a..b] + c
  {
    assert s[a..b] == [s[a]] + s[a + 1..b];
    assert x == [s[a]] + (s[a + 1..b] + c);
  }

  /** The tokens joined by single spaces, with one more space at either end where
      s starts or ends with whitespace; whitespace only gives one space. */
  function SpacedTokens(s: string): string {
    if Tokens(s) == [] then (if |s| > 0 then " " else "")
    else (if IsSpace(s[0]) then " " else "") + JoinSpaces(Tokens(s)) + (if IsSpace(s[|s| - 1]) then " " else "")
  }

  /** Collapsing whitespace keeps every token and puts one space wherever s has
      whitespace. */
  lemma {:induction false} CollapseTokens(s: string)
    ensures CollapseSpaces(s) == SpacedTokens(s)
    decreases |s|
  {
    var a := RunEnd(s, 0, IsSpace);
    if a == |s| {
      if |s| > 0 {
        assert s[a..] == [];
      }
    } else {
      var t := s[a..];
      var b := RunEnd(s, a, IsNonSpace);
      var rest := s[b..];
      CollapseLead(s);
      CollapseWord(s, a, b);
      CollapseTokens(rest);
      SpacedStep(s, a, b, CollapseSpaces(s), CollapseSpaces(t), CollapseSpaces(rest));
    }
  }

  /** Collapsing turns the leading run of whitespace into one space. */
  lemma CollapseLead(s: string)
    requires RunEnd(s, 0, IsSpace) < |s|
    ensures var a := RunEnd(s, 0, IsSpace);
      CollapseSpaces(s) == (if a > 0 then " " else "") + CollapseSpaces(s[a..])
  {
    if RunEnd(s, 0, IsSpace) == 0 {
      assert s[0..] == s;
    }
  }

  /** One token of CollapseTokens: a leading run, a token, and what follows it. */
  lemma SpacedStep(s: string, a: nat, b: nat, x: string, y: string, z: string)
    requires a < |s| && a == RunEnd(s, 0, IsSpace) && b == RunEnd(s, a, IsNonSpace)
    requires x == (if a > 0 then " " else "") + y
    requires y == s[a..b] + z
    requires z == SpacedTokens(s[b..])
    ensures x == SpacedTokens(s)
  {
    var rest, tok := s[b..], s[a..b];
    var ts := Tokens(rest);
    var l := if a > 0 then " " else "";
    var e := if IsSpace(s[|s| - 1]) then " " else "";
    assert Tokens(s) == [tok] + ts;
    assert IsSpace(s[0]) <==> a > 0;
    if ts == [] {
      assert JoinSpaces([tok] + ts) == tok;
      assert z == e by {
        if |rest| > 0 {
          assert s[|s| - 1] == rest[|rest| - 1];
        } else {
          assert s[|s| - 1] == s[b - 1];
        }
      }
      Regroup3(l, tok, e);
    } else {
      var j := JoinSpaces(ts);
      assert b < |s| && IsSpace(rest[0]);
      assert s[|s| - 1] == rest[|rest| - 1];
      assert z == (" " + j) + e;
      assert ([tok] + ts)[1..] == ts;
      assert JoinSpaces([tok] + ts) == (tok + " ") + j;
      Regroup5(l, tok, j, e);
    }
  }

  lemma Regroup3(l: string, t: string, e: string)
    ensures l + (t + e) == (l + t) + e
  {
  }

  lemma Regroup5(l: string, t: string, j: string, e: string)
    ensures l + (t + ((" " + j) + e)) == (l + ((t + " ") + j)) + e
  {
  }

  /** Collapsing and then trimming whitespace joins the tokens by single spaces. */
  lemma TrimCollapse(s: string)
    ensures Trim(CollapseSpaces(s)) == JoinSpaces(Tokens(s))
  {
    CollapseTokens(s);
    TrimSpaced(s);
  }

  /** Trimming the spaced tokens leaves the tokens joined by single spaces. */
  lemma TrimSpaced(s: string)
    ensures Trim(SpacedTokens(s)) == JoinSpaces(Tokens(s))
  {
    var ts := Tokens(s);
    if ts == [] {
      TrimAllSpace(SpacedTokens(s));
    } else {
      var j := JoinSpaces(ts);
      JoinSpacesEnds(ts);
      var l := if IsSpace(s[0]) then " " else "";
      var e := if IsSpace(s[|s| - 1]) then " " else "";
      assert SpacedTokens(s) == l + j + e;
      TrimPadded(SpacedTokens(s), l, j, e);
    }
  }

  /** `trim` of whitespace alone is empty. */
  lemma TrimAllSpace(c: string)
    requires AllIn(c, IsSpace)
    ensures Trim(c) == ""
  {
    TrimEndsUnique(c, IsSpace, |c|, "");
  }

  /** At most one space on either side of a string without whitespace at its ends
      is what `trim` removes. */
  lemma TrimPadded(c: string, l: string, j: string, e: string)
    requires c == l + j + e && AllIn(l, IsSpace) && AllIn(e, IsSpace)
    requires |j| > 0 && !IsSpace(j[0]) && !IsSpace(j[|j| - 1])
    ensures Trim(c) == j
  {
    assert c[..|l|] == l && c[|l|..|l| + |j|] == j && c[|l| + |j|..] == e;
    TrimEndsUnique(c, IsSpace, |l|, j);
  }

  /** A run inside the second part of w + y is the same run shifted by |w|. */
  lemma {:induction false} RunEndShift(w: string, y: string, i: nat, p: char -> bool)
    requires i <= |y|
    ensures RunEnd(w + y, |w| + i, p) == |w| + RunEnd(y, i, p)
    decreases |y| - i
  {
    if i < |y| {
      assert (w + y)[|w| + i] == y[i];
      if p(y[i]) {
        RunEndShift(w, y, i + 1, p);
      }
    }
  }

  /** A run that covers [i, j) goes on as the run from j. */
  lemma {:induction false} RunEndSkip(s: string, i: nat, j: nat, p: char -> bool)
    requires i <= j <= |s|
    requires forall k :: i <= k < j ==> p(s[k])
    ensures RunEnd(s, i, p) == RunEnd(s, j, p)
    decreases j - i
  {
    if i < j {
      RunEndSkip(s, i + 1, j, p);
    }
  }

  /** Leading characters of class p extend the run at the start by their number. */
  lemma PrefixRun(w: string, y: string, p: char -> bool)
    requires AllIn(w, p)
    ensures RunEnd(w + y, 0, p) == |w| + RunEnd(y, 0, p)
  {
    var s := w + y;
    forall k | 0 <= k < |w| ensures p(s[k]) { assert s[k] == w[k]; }
    RunEndSkip(s, 0, |w|, p);
    RunEndShift(w, y, 0, p);
  }

  lemma AppendSlices(w: string, y: string, i: nat, j: nat)
    requires i <= j <= |y|
    ensures (w + y)[|w| + i..|w| + j] == y[i..j] && (w + y)[|w| + j..] == y[j..]
  {
  }

  /** Whitespace in front of a string adds no token. */
  lemma TokensAfterSpace(w: string, y: string)
    requires AllIn(w, IsSpace)
    ensures Tokens(w + y) == Tokens(y)
  {
    var q := RunEnd(y, 0, IsSpace);
    PrefixRun(w, y, IsSpace);
    if q < |y| {
      var e := RunEnd(y, q, IsNonSpace);
      RunEndShift(w, y, q, IsNonSpace);
      AppendSlices(w, y, q, e);
      var head, rest := y[q..e], y[e..];
      TokensUnfoldTo(w + y, |w| + q, |w| + e, head, rest);
      TokensUnfoldTo(y, q, e, head, rest);
    } else {
      TokensNone(w + y);
      TokensNone(y);
    }
  }

  /** A string of whitespace has no token. */
  lemma TokensNone(s: string)
    requires RunEnd(s, 0, IsSpace) == |s|
    ensures Tokens(s) == []
  {
  }

  /** The first token of s is head, and rest follows it. */
  lemma TokensUnfoldTo(s: string, a: nat, b: nat, head: string, rest: string)
    requires a == RunEnd(s, 0, IsSpace) < |s| && b == RunEnd(s, a, IsNonSpace)
    requires head == s[a..b] && rest == s[b..]
    ensures Tokens(s) == [head] + Tokens(rest)
  {
    TokensUnfold(s, a, b);
  }

  /** The first token of s and the rest. */
  lemma TokensUnfold(s: string, a: nat, b: nat)
    requires a == RunEnd(s, 0, IsSpace) < |s| && b == RunEnd(s, a, IsNonSpace)
    ensures Tokens(s) == [s[a..b]] + Tokens(s[b..])
  {
  }

  /** A string of whitespace followed by a space is whitespace. */
  lemma SpaceAfterSpaces(x: string)
    requires RunEnd(x, 0, IsSpace) == |x|
    ensures AllIn(x + " ", IsSpace)
  {
    forall k | 0 <= k < |x| + 1 ensures IsSpace((x + " ")[k]) {
      if k < |x| { assert (x + " ")[k] == x[k]; }
    }
  }

  /** A space between two strings separates their tokens: the tokens of the whole
      are the tokens of the first followed by those of the second. */
  lemma {:induction false} TokensAppend(x: string, y: string)
    ensures Tokens(x + " " + y) == Tokens(x) + Tokens(y)
    decreases |x|
  {
    var s := x + " " + y;
    var p := RunEnd(x, 0, IsSpace);
    if p == |x| {
      SpaceAfterSpaces(x);
      TokensAfterSpace(x + " ", y);
    } else {
      var e := RunEnd(x, p, IsNonSpace);
      TokenInPrefix(x, y, p, e);
      TokensAppend(x[e..], y);
      assert Tokens(x) == [x[p..e]] + Tokens(x[e..]);
      ConsAppend(x[p..e], Tokens(x[e..]), Tokens(y));
    }
  }

  lemma ConsAppend(t: string, u: seq<string>, v: seq<string>)
    ensures [t] + (u + v) == ([t] + u) + v
  {
  }

  /** The first token of x is the first token of x + " " + y. */
  lemma TokenInPrefix(x: string, y: string, p: nat, e: nat)
    requires p < |x| && p == RunEnd(x, 0, IsSpace) && e == RunEnd(x, p, IsNonSpace)
    ensures var s := x + " " + y;
      Tokens(s) == [x[p..e]] + Tokens(x[e..] + " " + y)
  {
    var s := x + " " + y;
    forall k | 0 <= k < p ensures IsSpace(s[k]) { assert s[k] == x[k]; }
    assert s[p] == x[p];
    RunEndExact(s, 0, p, IsSpace);
    forall k | p <= k < e ensures IsNonSpace(s[k]) { assert s[k] == x[k]; }
    assert IsSpace(s[e]) by {
      if e < |x| { assert s[e] == x[e]; }
    }
    RunEndExact(s, p, e, IsNonSpace);
    assert s[p..e] == x[p..e];
    assert s[e..] == x[e..] + " " + y;
  }

  /** Where the token of index k starts in s. */
  function TokenPos(s: string, k: nat): nat
    requires k < |Tokens(s)|
    decreases |s|
  {
    var a := RunEnd(s, 0, IsSpace);
    var b := RunEnd(s, a, IsNonSpace);
    if k == 0 then a else b + TokenPos(s[b..], k - 1)
  }

  /** Every token occurs in s where TokenPos says, and every token after the first
      one starts after the end of the first. */
  lemma TokensOccur(s: string, k: nat)
    requires k < |Tokens(s)|
    ensures OccursAt(s, Tokens(s)[k], TokenPos(s, k))
    ensures k > 0 ==> TokenPos(s, k) >= RunEnd(s, RunEnd(s, 0, IsSpace), IsNonSpace)
  {
    TokenOccurs(s, k);
  }

  lemma {:induction false} TokenOccurs(s: string, k: nat)
    requires k < |Tokens(s)|
    ensures OccursAt(s, Tokens(s)[k], TokenPos(s, k))
    decreases |s|
  {
    var a := RunEnd(s, 0, IsSpace);
    var b := RunEnd(s, a, IsNonSpace);
    TokensUnfold(s, a, b);
    if k > 0 {
      TokenOccurs(s[b..], k - 1);
      TokenOccursStep(s, a, b, k);
    } else {
      assert OccursAt(s, s[a..b], a);
    }
  }

  /** A token after the first occurs in s where it occurs in the rest after the
      first token, shifted. */
  lemma TokenOccursStep(s: string, a: nat, b: nat, k: nat)
    requires a == RunEnd(s, 0, IsSpace) < |s| && b == RunEnd(s, a, IsNonSpace)
    requires 0 < k < |Tokens(s)| && k - 1 < |Tokens(s[b..])|
    requires OccursAt(s[b..], Tokens(s[b..])[k - 1], TokenPos(s[b..], k - 1))
    ensures OccursAt(s, Tokens(s)[k], TokenPos(s, k))
  {
    var rest := s[b..];
    var t, p := Tokens(rest)[k - 1], TokenPos(rest, k - 1);
    OccursShift(s, b, rest, t, p);
    TokensUnfold(s, a, b);
    assert Tokens(s)[k] == t;
    assert TokenPos(s, k) == b + p;
  }

  lemma OccursShift(s: string, b: nat, rest: string, sub: string, p: nat)
    requires b <= |s| && rest == s[b..] && OccursAt(rest, sub, p)
    ensures OccursAt(s, sub, b + p)
  {
    assert s[b + p..b + p + |sub|] == rest[p..p + |sub|];
  }

  /** sub occurs in s at position k. */
  predicate OccursAt(s: string, sub: string, k: int) {
    0 <= k && k + |sub| <= |s| && s[k..k + |sub|] == sub
  }

  /** ToIntegerOrInfinity followed by clamping into [0, n], as `indexOf` and `substring` do. */
  function Clamp(x: int, n: nat): (r: nat)
    ensures r <= n
    ensures 0 <= x <= n ==> r == x
  {
    if x < 0 then 0 else if x > n then n else x
  }

  function SearchFrom(s: string, sub: string, j: nat): (k: int)
    ensures k == -1 || (j <= k && OccursAt(s, sub, k))
    ensures forall m :: j <= m && (k == -1 || m < k) ==> !OccursAt(s, sub, m)
    decreases |s| - j
  {
    if j + |sub| > |s| then -1
    else if s[j..j + |sub|] == sub then j
    else SearchFrom(s, sub, j + 1)
  }

  /** `s.indexOf(sub, from)`: the first occurrence at or after from, or -1. */
  function IndexOf(s: string, sub: string, from: int): (k: int)
    ensures k == -1 || (Clamp(from, |s|) <= k && OccursAt(s, sub, k))
    ensures forall m :: Clamp(from, |s|) <= m && (k == -1 || m < k) ==> !OccursAt(s, sub, m)
  {
    SearchFrom(s, sub, Clamp(from, |s|))
  }

  /** `s.substring(a, b)`: both ends clamped into the string, then swapped if needed. */
  function Substring(s: string, a: int, b: int): (r: string)
    ensures var x, y := Clamp(a, |s|), Clamp(b, |s|);
            r == if x <= y then s[x..y] else s[y..x]
  {
    var x, y := Clamp(a, |s|), Clamp(b, |s|);
    if x <= y then s[x..y] else s[y..x]
  }

  /** `substring` does not depend on the order of its two ends. */
  lemma SubstringSwap(s: string, a: int, b: int)
    ensures Substring(s, a, b) == Substring(s, b, a)
  {
  }

  /** `s.slice(0, n)`. */
  function Slice(s: string, n: nat): (r: string)
    ensures |r| <= n && |r| <= |s|
    ensures |s| <= n ==> r == s
    ensures |s| > n ==> |r| == n
    ensures r == s[..|r|]
  {
    if |s| <= n then s else s[..n]
  }

  function DigitChar(d: nat): (c: char)
    requires d < 10
    ensures IsDigit(c)
  {
    ('0' as int + d) as char
  }

  /** The value of a string of decimal digits. */
  function DigitsValue(s: string): nat
    requires AllDigits(s)
    decreases |s|
  {
    if |s| == 0 then 0 else 10 * DigitsValue(s[..|s| - 1]) + (s[|s| - 1] as int - '0' as int)
  }

  /** `String(n)` for a non-negative integer n: its decimal digits, no leading zero. */
  function NatToString(n: nat): (s: string)
    ensures |s| > 0 && AllDigits(s)
    ensures |s| > 1 ==> s[0] != '0'
    decreases n
  {
    if n < 10 then [DigitChar(n)] else NatToString(n / 10) + [DigitChar(n % 10)]
  }

  /** Reading the rendering back gives the number. */
  lemma {:induction false} NatToStringRoundTrip(n: nat)
    ensures DigitsValue(NatToString(n)) == n
    decreases n
  {
    var s := NatToString(n);
    if n >= 10 {
      NatToStringRoundTrip(n / 10);
      assert s[..|s| - 1] == NatToString(n / 10);
    }
  }

  /** Different numbers render differently. */
  lemma NatToStringInjective(m: nat, n: nat)
    requires NatToString(m) == NatToString(n)
    ensures m == n
  {
    NatToStringRoundTrip(m);
    NatToStringRoundTrip(n);
  }
}
