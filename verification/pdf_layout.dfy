/** Reconstruction of text lines from the positioned text items of one PDF page:
    the items are sorted top to bottom and left to right, then grouped into lines
    wherever the vertical position jumps by more than 5 units. */
module PdfLayout {
  import opened JsStrings
  import opened PdfText

  /** A text fragment: its string and the translation part of its transform
      (x is `transform[4]`, y is `transform[5]`). */
  datatype TextItem = TextItem(str: string, x: real, y: real)

  /** The sort comparator is negative: a goes before b (higher on the page, or
      on the same baseline and further left). */
  predicate Before(a: TextItem, b: TextItem) {
    a.y > b.y || (a.y == b.y && a.x < b.x)
  }

  /** No item is strictly before an item that precedes it. */
  predicate Sorted(s: seq<TextItem>) {
    forall i, j :: 0 <= i < j < |s| ==> !Before(s[j], s[i])
  }

  /** Inserts x after every item it is not strictly before (so after the items
      with the same position: the sort is stable). */
  function Insert(s: seq<TextItem>, x: TextItem): (r: seq<TextItem>)
    ensures |r| == |s| + 1
    decreases |s|
  {
    if |s| == 0 || !Before(x, s[|s| - 1]) then s + [x]
    else Insert(s[..|s| - 1], x) + [s[|s| - 1]]
  }

  /** The order `Array.prototype.sort` produces with the comparator of the page
      parser: a stable sort, here written as insertion sort. */
  function SortItems(s: seq<TextItem>): (r: seq<TextItem>)
    ensures |r| == |s|
    decreases |s|
  {
    if |s| == 0 then [] else Insert(SortItems(s[..|s| - 1]), s[|s| - 1])
  }

  /** Insertion adds x and nothing else. */
  lemma {:induction false} InsertPermutes(s: seq<TextItem>, x: TextItem)
    ensures multiset(Insert(s, x)) == multiset(s) + multiset{x}
    decreases |s|
  {
    if |s| > 0 && Before(x, s[|s| - 1]) {
      var init := s[..|s| - 1];
      InsertPermutes(init, x);
      assert s == init + [s[|s| - 1]];
    }
  }

  /** "Not after" is transitive. */
  lemma NotAfterTransitive(a: TextItem, b: TextItem, c: TextItem)
    requires !Before(b, a) && !Before(c, b)
    ensures !Before(c, a)
  {
  }

  lemma {:induction false} InsertSorted(s: seq<TextItem>, x: TextItem)
    requires Sorted(s)
    ensures Sorted(Insert(s, x))
    decreases |s|
  {
    var r := Insert(s, x);
    if |s| == 0 || !Before(x, s[|s| - 1]) {
      forall i, j | 0 <= i < j < |r| ensures !Before(r[j], r[i]) {
        if j == |s| && i < |s| - 1 {
          NotAfterTransitive(s[i], s[|s| - 1], x);
        }
      }
    } else {
      var init, last := s[..|s| - 1], s[|s| - 1];
      InsertSorted(init, x);
      InsertPermutes(init, x);
      var m := Insert(init, x);
      assert r == m + [last];
      forall i | 0 <= i < |m| ensures !Before(last, m[i]) {
        assert m[i] in multiset(m);
        if m[i] != x {
          assert m[i] in multiset(init);
          var k :| 0 <= k < |init| && init[k] == m[i];
          assert s[k] == init[k];
        }
      }
    }
  }

  /** The sorted items are in page order and are a permutation of the input. */
  lemma {:induction false} SortItemsSorted(s: seq<TextItem>)
    ensures Sorted(SortItems(s))
    ensures multiset(SortItems(s)) == multiset(s)
    decreases |s|
  {
    if |s| > 0 {
      SortItemsSorted(s[..|s| - 1]);
      InsertSorted(SortItems(s[..|s| - 1]), s[|s| - 1]);
      InsertPermutes(SortItems(s[..|s| - 1]), s[|s| - 1]);
      assert s == s[..|s| - 1] + [s[|s| - 1]];
    }
  }

  /** The items of s at exactly position (x, y), in order. */
  function AtPosition(s: seq<TextItem>, x: real, y: real): seq<TextItem>
    decreases |s|
  {
    if |s| == 0 then []
    else AtPosition(s[..|s| - 1], x, y) + (if s[|s| - 1].x == x && s[|s| - 1].y == y then [s[|s| - 1]] else [])
  }

  lemma {:induction false} InsertStable(s: seq<TextItem>, x: TextItem, px: real, py: real)
    ensures AtPosition(Insert(s, x), px, py)
         == AtPosition(s, px, py) + (if x.x == px && x.y == py then [x] else [])
    decreases |s|
  {
    if |s| == 0 || !Before(x, s[|s| - 1]) {
      assert (s + [x])[..|s|] == s;
    } else {
      var init, last := s[..|s| - 1], s[|s| - 1];
      InsertStable(init, x, px, py);
      var r := Insert(init, x) + [last];
      assert r[..|r| - 1] == Insert(init, x);
      // last is strictly after x, so it is not at x's position
      assert x.x == px && x.y == py ==> !(last.x == px && last.y == py);
    }
  }

  /** Stability: items at one and the same position keep their relative order. */
  lemma {:induction false} SortItemsStable(s: seq<TextItem>, px: real, py: real)
    ensures AtPosition(SortItems(s), px, py) == AtPosition(s, px, py)
    decreases |s|
  {
    if |s| > 0 {
      SortItemsStable(s[..|s| - 1], px, py);
      InsertStable(SortItems(s[..|s| - 1]), s[|s| - 1], px, py);
    }
  }

  lemma InsertStep(s: seq<TextItem>, x: TextItem, j: nat)
    requires 0 < j <= |s| && Before(x, s[j - 1])
    ensures Insert(s[..j], x) == Insert(s[..j - 1], x) + [s[j - 1]]
  {
    assert s[..j][..j - 1] == s[..j - 1];
  }

  /** One pass of insertion sort: moves a[i] left past the items it is strictly
      before, so that the prefix up to i becomes the insertion of a[i] into it. */
  method InsertInPlace(a: array<TextItem>, i: nat)
    requires i < a.Length
    modifies a
    ensures a[..i + 1] == Insert(old(a[..i]), old(a[i]))
    ensures a[i + 1..] == old(a[i + 1..])
  {
    ghost var sorted := a[..i];
    ghost var rest := a[i + 1..];
    var x := a[i];
    var j := i;
    while j > 0 && Before(x, a[j - 1])
      invariant 0 <= j <= i
      invariant a[..j] == sorted[..j]
      invariant a[j + 1..i + 1] == sorted[j..]
      invariant a[i + 1..] == rest
      invariant Insert(sorted, x) == Insert(sorted[..j], x) + sorted[j..]
    {
      ghost var b := a[..];
      ShiftRight(b, sorted, rest, x, j, i);
      a[j] := a[j - 1];
      assert a[..] == b[j := b[j - 1]];
      j := j - 1;
    }
    a[j] := x;
    assert a[..i + 1] == sorted[..j] + [x] + sorted[j..];
  }

  /** One step of the pass: copying b[j - 1] one place right keeps the pass's
      invariant with j - 1 in place of j. */
  lemma ShiftRight(b: seq<TextItem>, sorted: seq<TextItem>, rest: seq<TextItem>, x: TextItem, j: nat, i: nat)
    requires 0 < j <= i < |b| && |sorted| == i
    requires b[..j] == sorted[..j] && b[j + 1..i + 1] == sorted[j..] && b[i + 1..] == rest
    requires Before(x, b[j - 1])
    requires Insert(sorted, x) == Insert(sorted[..j], x) + sorted[j..]
    ensures var c := b[j := b[j - 1]];
      && c[..j - 1] == sorted[..j - 1] && c[j..i + 1] == sorted[j - 1..] && c[i + 1..] == rest
      && Insert(sorted, x) == Insert(sorted[..j - 1], x) + sorted[j - 1..]
  {
    var c := b[j := b[j - 1]];
    assert b[j - 1] == sorted[j - 1] by { assert b[..j][j - 1] == sorted[..j][j - 1]; }
    InsertStep(sorted, x, j);
    assert sorted[j - 1..] == [sorted[j - 1]] + sorted[j..];
    assert c[j..i + 1] == [b[j - 1]] + b[j + 1..i + 1];
  }

  /** `textItems.sort(...)`: sorts the page's items in place. */
  method SortInPlace(a: array<TextItem>)
    modifies a
    ensures a[..] == SortItems(old(a[..]))
  {
    ghost var input := a[..];
    var i := 0;
    while i < a.Length
      invariant 0 <= i <= a.Length
      invariant a[..i] == SortItems(input[..i])
      invariant a[i..] == input[i..]
    {
      InsertInPlace(a, i);
      assert input[..i + 1] == input[..i] + [input[i]];
      assert input[..i + 1][..i] == input[..i];
      i := i + 1;
    }
    assert input[..a.Length] == input;
  }

  /** `Math.abs(y - lastY) > 5`: the vertical jump that starts a new line. */
  predicate Far(lastY: real, y: real) {
    (if y >= lastY then y - lastY else lastY - y) > 5.0
  }

  /** The items cut into maximal runs without a vertical jump between neighbours. */
  function Segments(items: seq<TextItem>): (segs: seq<seq<TextItem>>)
    ensures |segs| == 0 <==> |items| == 0
    decreases |items|
  {
    if |items| == 0 then []
    else
      var init, x := items[..|items| - 1], items[|items| - 1];
      if |init| == 0 || Far(init[|init| - 1].y, x.y) then Segments(init) + [[x]]
      else
        var segs := Segments(init);
        segs[..|segs| - 1] + [segs[|segs| - 1] + [x]]
  }

  function Flatten(segs: seq<seq<TextItem>>): seq<TextItem>
    decreases |segs|
  {
    if |segs| == 0 then [] else Flatten(segs[..|segs| - 1]) + segs[|segs| - 1]
  }

  lemma {:induction false} FlattenAppend(segs: seq<seq<TextItem>>, x: TextItem)
    requires |segs| > 0
    ensures Flatten(segs[..|segs| - 1] + [segs[|segs| - 1] + [x]]) == Flatten(segs) + [x]
  {
    var init, last := segs[..|segs| - 1], segs[|segs| - 1];
    var s2 := init + [last + [x]];
    assert s2[..|s2| - 1] == init;
    assert Flatten(s2) == Flatten(init) + (last + [x]);
    assert Flatten(segs) == Flatten(init) + last;
  }

  /** The next line starts with a jump of more than 5 units from the previous one. */
  predicate Jump(prev: seq<TextItem>, next: seq<TextItem>) {
    |prev| > 0 && |next| > 0 && Far(prev[|prev| - 1].y, next[0].y)
  }

  /** Every line is non-empty, neighbours inside a line are within 5 units of
      each other, and each line after the first starts with a jump of more than
      5 units from the last item of the previous line. */
  predicate WellSplit(segs: seq<seq<TextItem>>) {
    && (forall k :: 0 <= k < |segs| ==> |segs[k]| > 0)
    && (forall k, i :: 0 <= k < |segs| && 0 < i < |segs[k]| ==> !Far(segs[k][i - 1].y, segs[k][i].y))
    && (forall k :: 0 <= k < |segs| - 1 ==> Jump(segs[k], segs[k + 1]))
  }

  /** The last line ends with the last item. */
  lemma SegmentsLast(items: seq<TextItem>)
    requires |items| > 0
    ensures var segs := Segments(items);
      |segs[|segs| - 1]| > 0 && segs[|segs| - 1][|segs[|segs| - 1]| - 1] == items[|items| - 1]
  {
    var init := items[..|items| - 1];
    if |init| > 0 && !Far(init[|init| - 1].y, items[|items| - 1].y) {
      SegmentsLast(init);
    }
  }

  lemma {:induction false} SegmentsFlatten(items: seq<TextItem>)
    ensures Flatten(Segments(items)) == items
    decreases |items|
  {
    if |items| > 0 {
      var init, x := items[..|items| - 1], items[|items| - 1];
      SegmentsFlatten(init);
      var prev := Segments(init);
      if |init| == 0 || Far(init[|init| - 1].y, x.y) {
        var segs := prev + [[x]];
        assert segs[..|segs| - 1] == prev;
      } else {
        FlattenAppend(prev, x);
      }
      assert items == init + [x];
    }
  }

  /** The last line of segs ends with the item at position y. */
  predicate EndsAt(segs: seq<seq<TextItem>>, y: real) {
    |segs| > 0 && |segs[|segs| - 1]| > 0 && segs[|segs| - 1][|segs[|segs| - 1]| - 1].y == y
  }

  /** Starting a new line after a jump keeps the split well formed. */
  lemma WellSplitNewLine(prev: seq<seq<TextItem>>, x: TextItem)
    requires WellSplit(prev)
    requires |prev| > 0 ==> exists y :: EndsAt(prev, y) && Far(y, x.y)
    ensures WellSplit(prev + [[x]])
  {
    var segs := prev + [[x]];
    assert forall k :: 0 <= k < |prev| ==> segs[k] == prev[k];
    if |prev| > 0 {
      assert Jump(segs[|prev| - 1], segs[|prev|]);
    }
  }

  /** Extending the last line with a near item keeps the split well formed. */
  lemma WellSplitExtend(prev: seq<seq<TextItem>>, x: TextItem)
    requires WellSplit(prev) && |prev| > 0
    requires exists y :: EndsAt(prev, y) && !Far(y, x.y)
    ensures WellSplit(prev[..|prev| - 1] + [prev[|prev| - 1] + [x]])
  {
    var n := |prev|;
    var last := prev[n - 1] + [x];
    var segs := prev[..n - 1] + [last];
    assert forall k :: 0 <= k < n - 1 ==> segs[k] == prev[k];
    assert forall i :: 0 <= i < |prev[n - 1]| ==> last[i] == prev[n - 1][i];
    assert segs[n - 1] == last;
    if n > 1 {
      assert Jump(segs[n - 2], segs[n - 1]);
    }
  }

  lemma {:induction false} SegmentsWellSplit(items: seq<TextItem>)
    ensures WellSplit(Segments(items))
    decreases |items|
  {
    if |items| > 0 {
      var init, x := items[..|items| - 1], items[|items| - 1];
      SegmentsWellSplit(init);
      var prev := Segments(init);
      if |init| > 0 {
        SegmentsLast(init);
        assert EndsAt(prev, init[|init| - 1].y);
      }
      if |init| == 0 || Far(init[|init| - 1].y, x.y) {
        WellSplitNewLine(prev, x);
      } else {
        WellSplitExtend(prev, x);
      }
    }
  }

  /** Grouping loses and reorders nothing: the lines, read in order, hold every
      item in sorted order, and they are split exactly at the vertical jumps. */
  lemma SegmentsPartition(items: seq<TextItem>)
    ensures Flatten(Segments(items)) == items
    ensures WellSplit(Segments(items))
  {
    SegmentsFlatten(items);
    SegmentsWellSplit(items);
  }

  /** `currentLine += (currentLine ? ' ' : '') + item.str`, folded over a line. */
  function JoinLine(seg: seq<TextItem>): string
    decreases |seg|
  {
    if |seg| == 0 then ""
    else
      var acc := JoinLine(seg[..|seg| - 1]);
      acc + (if acc != "" then " " else "") + seg[|seg| - 1].str
  }

  function CleanAll(segs: seq<seq<TextItem>>): (lines: seq<string>)
    ensures |lines| == |segs|
    ensures forall k :: 0 <= k < |segs| ==> lines[k] == CleanText(JoinLine(segs[k]))
  {
    seq(|segs|, k requires 0 <= k < |segs| => CleanText(JoinLine(segs[k])))
  }

  /** The words of a line: the whitespace-free runs of each item's text, item
      after item. */
  function ItemWords(seg: seq<TextItem>): seq<string>
    decreases |seg|
  {
    if |seg| == 0 then [] else ItemWords(seg[..|seg| - 1]) + Tokens(seg[|seg| - 1].str)
  }

  /** Joining the items with single spaces neither splits nor merges words: the
      words of the joined line are the words of its items, in order. */
  lemma {:induction false} JoinLineWords(seg: seq<TextItem>)
    ensures Tokens(JoinLine(seg)) == ItemWords(seg)
    decreases |seg|
  {
    if |seg| > 0 {
      var init, x := seg[..|seg| - 1], seg[|seg| - 1];
      var acc := JoinLine(init);
      JoinLineWords(init);
      if acc != "" {
        TokensAppend(acc, x.str);
      } else {
        assert JoinLine(seg) == x.str;
        assert Tokens(acc) == [];
      }
    }
  }

  /** A cleaned line is the words of its items separated by single spaces. */
  lemma CleanLineWords(seg: seq<TextItem>)
    ensures CleanText(JoinLine(seg)) == JoinSpaces(ItemWords(seg))
  {
    JoinLineWords(seg);
  }

  /** Every cleaned line is the words of its segment separated by single spaces. */
  lemma CleanAllWords(segs: seq<seq<TextItem>>)
    ensures forall k :: 0 <= k < |segs| ==> CleanAll(segs)[k] == JoinSpaces(ItemWords(segs[k]))
  {
    forall k | 0 <= k < |segs| ensures CleanAll(segs)[k] == JoinSpaces(ItemWords(segs[k])) {
      CleanLineWords(segs[k]);
    }
  }

  /** The lines of a page: every segment cleaned; the last one is kept only when
      its joined text is not empty. */
  function Lines(items: seq<TextItem>): (lines: seq<string>)
    ensures var segs := Segments(items);
      |lines| == if |segs| > 0 && JoinLine(segs[|segs| - 1]) == "" then |segs| - 1 else |segs|
  {
    var segs := Segments(items);
    if |segs| == 0 then []
    else
      CleanAll(segs[..|segs| - 1])
      + (if JoinLine(segs[|segs| - 1]) != "" then [CleanText(JoinLine(segs[|segs| - 1]))] else [])
  }

  /** The lines of a page are its segments in order, each one the words of its
      items separated by single spaces. */
  lemma LinesWords(items: seq<TextItem>)
    ensures forall k :: 0 <= k < |Lines(items)| ==> Lines(items)[k] == JoinSpaces(ItemWords(Segments(items)[k]))
  {
    var segs, lines := Segments(items), Lines(items);
    forall k | 0 <= k < |lines| ensures lines[k] == JoinSpaces(ItemWords(segs[k])) {
      var n := |segs| - 1;
      if k < n {
        assert lines[k] == CleanAll(segs[..n])[k];
        assert segs[..n][k] == segs[k];
      } else {
        assert lines[k] == CleanText(JoinLine(segs[n]));
      }
      CleanLineWords(segs[k]);
    }
  }

  /** How one more item changes the segments: a new line after a jump (or for the
      first item), otherwise the item joins the last line. */
  lemma SegmentsSnoc(items: seq<TextItem>, i: nat)
    requires i < |items|
    ensures var prev, segs := Segments(items[..i]), Segments(items[..i + 1]);
      if i == 0 || Far(items[i - 1].y, items[i].y) then segs == prev + [[items[i]]]
      else |prev| > 0 && segs == prev[..|prev| - 1] + [prev[|prev| - 1] + [items[i]]]
  {
    assert items[..i + 1][..i] == items[..i];
  }

  lemma JoinLineSnoc(seg: seq<TextItem>, x: TextItem)
    ensures JoinLine(seg + [x]) == JoinLine(seg) + (if JoinLine(seg) != "" then " " else "") + x.str
  {
    assert (seg + [x])[..|seg|] == seg;
  }

  lemma CleanAllSnoc(segs: seq<seq<TextItem>>, t: seq<TextItem>)
    ensures CleanAll(segs + [t]) == CleanAll(segs) + [CleanText(JoinLine(t))]
  {
  }

  /** The state of the grouping loop: the lines before the last segment are
      emitted, and the last segment is the line being built. */
  predicate Pending(segs: seq<seq<TextItem>>, lines: seq<string>, currentLine: string) {
    |segs| > 0 && lines == CleanAll(segs[..|segs| - 1]) && currentLine == JoinLine(segs[|segs| - 1])
  }

  lemma PendingNewLine(segs: seq<seq<TextItem>>, lines: seq<string>, currentLine: string, x: TextItem)
    requires Pending(segs, lines, currentLine)
    ensures Pending(segs + [[x]], lines + [CleanText(currentLine)], "" + x.str)
  {
    var n := |segs|;
    assert segs[..n - 1] + [segs[n - 1]] == segs;
    CleanAllSnoc(segs[..n - 1], segs[n - 1]);
    assert CleanAll(segs) == lines + [CleanText(currentLine)];
    var s2 := segs + [[x]];
    assert s2[..|s2| - 1] == segs;
    assert JoinLine([] + [x]) == "" + x.str by { JoinLineSnoc([], x); }
    assert [] + [x] == [x];
  }

  lemma PendingExtend(segs: seq<seq<TextItem>>, lines: seq<string>, currentLine: string, x: TextItem)
    requires Pending(segs, lines, currentLine)
    ensures Pending(segs[..|segs| - 1] + [segs[|segs| - 1] + [x]], lines,
                    currentLine + (if currentLine != "" then " " else "") + x.str)
  {
    JoinLineSnoc(segs[|segs| - 1], x);
    var s2 := segs[..|segs| - 1] + [segs[|segs| - 1] + [x]];
    assert s2[..|s2| - 1] == segs[..|segs| - 1];
  }

  /** The `forEach` that groups the sorted items into cleaned lines. */
  method GroupLines(items: seq<TextItem>) returns (lines: seq<string>)
    ensures lines == Lines(items)
  {
    lines := [];
    var currentLine := "";
    var lastY: Option<real> := None;
    ghost var segs: seq<seq<TextItem>> := [];
    for i := 0 to |items|
      invariant segs == Segments(items[..i])
      invariant i == 0 ==> lastY == None && lines == [] && currentLine == ""
      invariant i > 0 ==> lastY == Some(items[i - 1].y) && Pending(segs, lines, currentLine)
    {
      var item := items[i];
      SegmentsSnoc(items, i);
      if lastY.Some? && Far(lastY.value, item.y) {
        PendingNewLine(segs, lines, currentLine, item);
        lines := lines + [CleanText(currentLine)];
        currentLine := "";
        segs := segs + [[item]];
      } else if i == 0 {
        segs := [[item]];
      } else {
        PendingExtend(segs, lines, currentLine, item);
        segs := segs[..|segs| - 1] + [segs[|segs| - 1] + [item]];
      }
      currentLine := currentLine + (if currentLine != "" then " " else "") + item.str;
      lastY := Some(item.y);
    }
    assert items[..|items|] == items;
    PendingLines(items, segs, lines, currentLine);
    if currentLine != "" {
      lines := lines + [CleanText(currentLine)];
    }
  }

  /** After the last item, the lines pushed so far and the pending line, when it
      is not empty, are the page's lines. */
  lemma PendingLines(items: seq<TextItem>, segs: seq<seq<TextItem>>, lines: seq<string>, currentLine: string)
    requires segs == Segments(items)
    requires |items| == 0 ==> lines == [] && currentLine == ""
    requires |items| > 0 ==> Pending(segs, lines, currentLine)
    ensures Lines(items) == lines + (if currentLine != "" then [CleanText(currentLine)] else [])
  {
  }
}
