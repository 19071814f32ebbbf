/** The grade-report importer: for each page, the items are sorted and grouped
    into lines, the semester name is taken from the header line (or numbered),
    and the course rows are extracted; pages without a course row contribute
    nothing. The collected semesters are then given ids and default fields. */
module PdfParser {
  import opened JsStrings
  import opened PdfText
  import opened PdfLayout
  import opened PdfRows
  import opened GradeTypes

  /** What one page contributes: the semester name and its course rows. */
  datatype PageResult = PageResult(name: string, subjects: seq<ParsedGrade>)

  /** `lines.find(isSemesterLine)`. */
  function FindSemesterLine(lines: seq<string>): (r: Option<nat>)
    ensures r.Some? ==> r.value < |lines| && IsSemesterLine(lines[r.value])
    ensures forall k :: 0 <= k < |lines| && (r.None? || k < r.value) ==> !IsSemesterLine(lines[k])
    decreases |lines|
  {
    if |lines| == 0 then None
    else if IsSemesterLine(lines[0]) then Some(0)
    else
      var rest := lines[1..];
      assert forall j :: 0 <= j < |rest| ==> rest[j] == lines[j + 1];
      match FindSemesterLine(rest)
      case None => None
      case Some(k) => Some(k + 1)
  }

  /** "Học kỳ k" for a number k. */
  function NumberedName(k: nat): string {
    HocKy + " " + NatToString(k)
  }

  /** The semester name of a page: the header found in its first header line, or
      "Học kỳ k" with k one more than the number of semesters already found. */
  function SemesterName(lines: seq<string>, emitted: nat): (name: string)
    ensures match FindSemesterLine(lines)
      case Some(k) => ExtractSemesterName(lines[k]) == Some(name)
      case None => name == NumberedName(emitted + 1)
  {
    match FindSemesterLine(lines)
    case Some(k) => ExtractSemesterName(lines[k]).value
    case None => NumberedName(emitted + 1)
  }

  /** The course rows of the lines, in line order. */
  function PageRows(lines: seq<string>, render: real -> string): (rows: seq<ParsedGrade>)
    ensures |rows| <= |lines|
  {
    RowsBy(lines, line => RowOf(line, render))
  }

  /** The rows the function row finds in the lines, in line order. */
  function RowsBy(lines: seq<string>, row: string -> Option<ParsedGrade>): (rows: seq<ParsedGrade>)
    ensures |rows| <= |lines|
    decreases |lines|
  {
    if |lines| == 0 then []
    else
      var last := row(lines[|lines| - 1]);
      RowsBy(lines[..|lines| - 1], row) + (if last.Some? then [last.value] else [])
  }

  /** The text lines of a page of items. */
  function PageLines(items: seq<TextItem>): seq<string> {
    Lines(SortItems(items))
  }

  /** What a page contributes, given the number of semesters found before it. */
  function PageSpec(items: seq<TextItem>, emitted: nat, render: real -> string): Option<PageResult> {
    var lines := PageLines(items);
    var rows := PageRows(lines, render);
    if |rows| > 0 then Some(PageResult(SemesterName(lines, emitted), rows)) else None
  }

  /** The results of the pages in order, where page(items, n) is what a page
      contributes after n results. */
  function Collect(pages: seq<seq<TextItem>>, page: (seq<TextItem>, nat) -> Option<PageResult>): (result: seq<PageResult>)
    ensures |result| <= |pages|
    decreases |pages|
  {
    if |pages| == 0 then []
    else
      var prev := Collect(pages[..|pages| - 1], page);
      match page(pages[|pages| - 1], |prev|)
      case None => prev
      case Some(p) => prev + [p]
  }

  function PageFn(render: real -> string): (seq<TextItem>, nat) -> Option<PageResult> {
    (items: seq<TextItem>, n: nat) => PageSpec(items, n, render)
  }

  /** The semesters collected from the pages, in page order. */
  function ParsedPages(pages: seq<seq<TextItem>>, render: real -> string): (result: seq<PageResult>)
    ensures |result| <= |pages|
  {
    Collect(pages, PageFn(render))
  }

  lemma CollectSnoc(pages: seq<seq<TextItem>>, i: nat, page: (seq<TextItem>, nat) -> Option<PageResult>)
    requires i < |pages|
    ensures var prev := Collect(pages[..i], page);
      Collect(pages[..i + 1], page) == match page(pages[i], |prev|)
        case None => prev
        case Some(p) => prev + [p]
  {
    assert pages[..i + 1][..i] == pages[..i];
  }

  /** Collecting one more page at the end: the earlier results, then the new
      page's result if it has one. */
  lemma CollectAppend(pages: seq<seq<TextItem>>, items: seq<TextItem>, page: (seq<TextItem>, nat) -> Option<PageResult>)
    ensures var prev := Collect(pages, page);
      Collect(pages + [items], page) == match page(items, |prev|)
        case None => prev
        case Some(p) => prev + [p]
  {
    var all := pages + [items];
    assert all[..|all| - 1] == pages;
  }

  /** A property every page result has, given its position, holds of every
      collected result at its index. */
  lemma {:induction false} CollectAll(pages: seq<seq<TextItem>>, page: (seq<TextItem>, nat) -> Option<PageResult>,
                                      ok: (PageResult, nat) -> bool)
    requires forall items, n :: page(items, n).Some? ==> ok(page(items, n).value, n)
    ensures forall i :: 0 <= i < |Collect(pages, page)| ==> ok(Collect(pages, page)[i], i)
    decreases |pages|
  {
    if |pages| > 0 {
      CollectAll(pages[..|pages| - 1], page, ok);
    }
  }

  /** The subject a course row becomes, with the default fields. */
  function ToSubject(g: ParsedGrade): Subject {
    map[
      MaHP := g.maHP, TenHP := g.tenHP, TinChi := g.tinChi,
      DiemQT := g.diemQT, DiemGK := g.diemGK, DiemTH := g.diemTH, DiemCK := g.diemCK,
      MinDiemQT := "0", MinDiemGK := "0", MinDiemTH := "0", MinDiemCK := "0",
      WeightDiemQT := "0.2", WeightDiemGK := "0.2", WeightDiemTH := "0.2", WeightDiemCK := "0.4",
      ExpectedScore := "0",
      DiemHP := OrElse(Some(g.diemHP), "0")]
  }

  /** `sem-${time}-${index}`. */
  function SemesterId(time: nat, index: nat): string {
    "sem-" + NatToString(time) + "-" + NatToString(index)
  }

  /** The final mapping; clock(i) is the time read for the semester at index i. */
  function ToSemesters(result: seq<PageResult>, clock: nat -> nat): (sems: seq<Semester>)
    ensures |sems| == |result|
    ensures forall i :: 0 <= i < |result| ==>
      && sems[i].id == Some(SemesterId(clock(i), i))
      && sems[i].name == result[i].name
      && |sems[i].subjects| == |result[i].subjects|
      && (forall j :: 0 <= j < |result[i].subjects| ==> sems[i].subjects[j] == ToSubject(result[i].subjects[j]))
  {
    seq(|result|, i requires 0 <= i < |result| =>
      Semester(Some(SemesterId(clock(i), i)), result[i].name, None, None,
               seq(|result[i].subjects|, j requires 0 <= j < |result[i].subjects| => ToSubject(result[i].subjects[j])),
               None, None))
  }

  // ---------------------------------------------------------------------
  // The imperative page loop

  /** `lines.forEach(...)` pushing the course rows. */
  method CollectRows(lines: seq<string>, render: real -> string) returns (grades: seq<ParsedGrade>)
    ensures grades == PageRows(lines, render)
  {
    grades := [];
    for i := 0 to |lines|
      invariant grades == PageRows(lines[..i], render)
    {
      assert lines[..i + 1][..i] == lines[..i];
      var row := ParseRow(lines[i], render);
      if row.Some? {
        grades := grades + [row.value];
      }
    }
    assert lines[..|lines|] == lines;
  }

  /** The body of the page loop: sort, group, name and extract. */
  method ParsePage(items: seq<TextItem>, emitted: nat, render: real -> string) returns (page: Option<PageResult>)
    ensures page == PageSpec(items, emitted, render)
  {
    var textItems := new TextItem[|items|](i requires 0 <= i < |items| => items[i]);
    assert textItems[..] == items;
    SortInPlace(textItems);
    var lines := GroupLines(textItems[..]);
    var semesterName := SemesterName(lines, emitted);
    var grades := CollectRows(lines, render);
    if |grades| > 0 {
      page := Some(PageResult(semesterName, grades));
    } else {
      page := None;
    }
  }

  /** `parseGradesFromPDF` on the text items of each page. */
  method ParseGradesFromPdf(pages: seq<seq<TextItem>>, clock: nat -> nat, render: real -> string)
    returns (semesters: seq<Semester>)
    ensures semesters == ToSemesters(ParsedPages(pages, render), clock)
  {
    var result: seq<PageResult> := [];
    for i := 0 to |pages|
      invariant result == Collect(pages[..i], PageFn(render))
    {
      CollectSnoc(pages, i, PageFn(render));
      var page := ParsePage(pages[i], |result|, render);
      assert page == PageFn(render)(pages[i], |result|);
      if page.Some? {
        result := result + [page.value];
      }
    }
    assert pages[..|pages|] == pages;
    semesters := ToSemesters(result, clock);
  }

  // ---------------------------------------------------------------------
  // Properties

  /** A page without a course row contributes no semester. */
  lemma PageWithoutRowsSkipped(pages: seq<seq<TextItem>>, items: seq<TextItem>, render: real -> string)
    requires PageRows(PageLines(items), render) == []
    ensures ParsedPages(pages + [items], render) == ParsedPages(pages, render)
  {
    CollectAppend(pages, items, PageFn(render));
    assert PageFn(render)(items, |ParsedPages(pages, render)|).None?;
  }

  /** A page with a course row contributes exactly one semester, at the end. */
  lemma PageWithRowsAppended(pages: seq<seq<TextItem>>, items: seq<TextItem>, render: real -> string)
    requires PageRows(PageLines(items), render) != []
    ensures var prev := ParsedPages(pages, render);
      ParsedPages(pages + [items], render) == prev + [PageSpec(items, |prev|, render).value]
  {
    CollectAppend(pages, items, PageFn(render));
    assert PageFn(render)(items, |ParsedPages(pages, render)|) == PageSpec(items, |ParsedPages(pages, render)|, render);
  }

  /** A page's name is a header that extracts to itself, or "Học kỳ k" with k
      one more than the semesters found before the page. */
  lemma SemesterNameShape(lines: seq<string>, emitted: nat)
    ensures var name := SemesterName(lines, emitted);
      ExtractSemesterName(name) == Some(name) || name == NumberedName(emitted + 1)
  {
    match FindSemesterLine(lines)
    case Some(k) => ExtractSemesterNameIdempotent(lines[k]);
    case None =>
  }

  /** What every page result satisfies at its index n: it has a course row, each
      row has "0" as its module grade, and it is named by a header that extracts
      to itself or "Học kỳ k" with k = n + 1. */
  predicate GoodResult(p: PageResult, n: nat) {
    && |p.subjects| > 0
    && (forall j :: 0 <= j < |p.subjects| ==> p.subjects[j].diemHP == "0")
    && (ExtractSemesterName(p.name) == Some(p.name) || p.name == NumberedName(n + 1))
  }

  lemma PageSpecGood(items: seq<TextItem>, n: nat, render: real -> string)
    requires PageSpec(items, n, render).Some?
    ensures GoodResult(PageSpec(items, n, render).value, n)
  {
    var lines := PageLines(items);
    SemesterNameShape(lines, n);
    PageRowsGradeZero(lines, render);
  }

  /** Every collected semester has a course row, each with "0" as its module
      grade, and is named either by a header line of its page or "Học kỳ k"
      where k - 1 semesters precede it. */
  lemma ParsedPagesGood(pages: seq<seq<TextItem>>, render: real -> string)
    ensures var result := ParsedPages(pages, render);
      forall i :: 0 <= i < |result| ==> GoodResult(result[i], i)
  {
    var f := PageFn(render);
    forall items, n | f(items, n).Some? ensures GoodResult(f(items, n).value, n) {
      PageSpecGood(items, n, render);
    }
    CollectAll(pages, f, GoodResult);
  }

  /** The first '-' of digits, a dash and more text is right after the digits. */
  lemma DashAfterDigits(a: string, c: string)
    requires AllDigits(a)
    ensures IndexOf(a + "-" + c, "-", 0) == |a|
  {
    var s := a + "-" + c;
    assert s[|a|..|a| + 1] == "-";
    assert OccursAt(s, "-", |a|);
    forall m | 0 <= m < |a| ensures !OccursAt(s, "-", m) {
      assert s[m..m + 1][0] == s[m] == a[m];
    }
  }

  /** The id of a semester determines the clock reading and the index. */
  lemma SemesterIdInjective(t1: nat, i1: nat, t2: nat, i2: nat)
    requires SemesterId(t1, i1) == SemesterId(t2, i2)
    ensures t1 == t2 && i1 == i2
  {
    var a, b := NatToString(t1), NatToString(t2);
    var c, d := NatToString(i1), NatToString(i2);
    var s := SemesterId(t1, i1);
    assert s == "sem-" + (a + "-" + c) && s == "sem-" + (b + "-" + d);
    var x := s[4..];
    assert x == a + "-" + c && x == b + "-" + d;
    DashAfterDigits(a, c);
    DashAfterDigits(b, d);
    assert |a| == |b|;
    assert a == x[..|a|] == b;
    assert c == x[|a| + 1..] == d;
    NatToStringInjective(t1, t2);
    NatToStringInjective(i1, i2);
  }

  /** Semesters of one import get distinct ids, whatever the clock reads. */
  lemma SemesterIdsDistinct(result: seq<PageResult>, clock: nat -> nat)
    ensures var sems := ToSemesters(result, clock);
      forall i, j :: 0 <= i < j < |sems| ==> sems[i].id != sems[j].id
  {
    var sems := ToSemesters(result, clock);
    forall i, j | 0 <= i < j < |sems| ensures sems[i].id != sems[j].id {
      if sems[i].id == sems[j].id {
        SemesterIdInjective(clock(i), i, clock(j), j);
      }
    }
  }

  /** The default fields of an imported subject. */
  predicate HasImportDefaults(sub: Subject) {
    && MinDiemQT in sub && sub[MinDiemQT] == "0" && MinDiemGK in sub && sub[MinDiemGK] == "0"
    && MinDiemTH in sub && sub[MinDiemTH] == "0" && MinDiemCK in sub && sub[MinDiemCK] == "0"
    && WeightDiemQT in sub && sub[WeightDiemQT] == "0.2" && WeightDiemGK in sub && sub[WeightDiemGK] == "0.2"
    && WeightDiemTH in sub && sub[WeightDiemTH] == "0.2" && WeightDiemCK in sub && sub[WeightDiemCK] == "0.4"
    && ExpectedScore in sub && sub[ExpectedScore] == "0" && DiemHP in sub && sub[DiemHP] == "0"
  }

  lemma RowDefaults(g: ParsedGrade)
    requires g.diemHP == "0"
    ensures HasImportDefaults(ToSubject(g))
  {
  }

  /** Every row the page parser yields has "0" as its module grade. */
  lemma RowGradeZero(line: string, render: real -> string)
    requires RowOf(line, render).Some?
    ensures RowOf(line, render).value.diemHP == "0"
  {
    RowFields(line, render);
  }

  lemma PageRowsGradeZero(lines: seq<string>, render: real -> string)
    ensures forall j :: 0 <= j < |PageRows(lines, render)| ==> PageRows(lines, render)[j].diemHP == "0"
  {
    var row := line => RowOf(line, render);
    forall line | row(line).Some? ensures row(line).value.diemHP == "0" {
      RowGradeZero(line, render);
    }
    RowsByGradeZero(lines, row);
  }

  /** Rows found by a function that only yields module grade "0" all have it. */
  lemma {:induction false} RowsByGradeZero(lines: seq<string>, row: string -> Option<ParsedGrade>)
    requires forall line :: row(line).Some? ==> row(line).value.diemHP == "0"
    ensures forall j :: 0 <= j < |RowsBy(lines, row)| ==> RowsBy(lines, row)[j].diemHP == "0"
    decreases |lines|
  {
    if |lines| > 0 {
      var init, r := lines[..|lines| - 1], row(lines[|lines| - 1]);
      RowsByGradeZero(init, row);
      GradeZeroAppend(RowsBy(init, row), if r.Some? then [r.value] else []);
    }
  }

  lemma GradeZeroAppend(prev: seq<ParsedGrade>, extra: seq<ParsedGrade>)
    requires forall j :: 0 <= j < |prev| ==> prev[j].diemHP == "0"
    requires forall j :: 0 <= j < |extra| ==> extra[j].diemHP == "0"
    ensures forall j :: 0 <= j < |prev + extra| ==> (prev + extra)[j].diemHP == "0"
  {
    forall j | 0 <= j < |prev + extra| ensures (prev + extra)[j].diemHP == "0" {
      if j >= |prev| { assert (prev + extra)[j] == extra[j - |prev|]; }
    }
  }


  /** Every imported subject carries the default minimum, weight, expected and
      module-grade fields. */
  lemma ImportedSubjectDefaults(pages: seq<seq<TextItem>>, clock: nat -> nat, render: real -> string)
    ensures var sems := ToSemesters(ParsedPages(pages, render), clock);
      forall i, j :: 0 <= i < |sems| && 0 <= j < |sems[i].subjects| ==> HasImportDefaults(sems[i].subjects[j])
  {
    var result := ParsedPages(pages, render);
    var sems := ToSemesters(result, clock);
    ParsedPagesGood(pages, render);
    forall i, j | 0 <= i < |sems| && 0 <= j < |sems[i].subjects|
      ensures HasImportDefaults(sems[i].subjects[j])
    {
      RowDefaults(result[i].subjects[j]);
    }
  }
}
