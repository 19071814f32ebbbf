/** The home page's transcript import and spreadsheet export: the processed
    transcript returned by the upload service becomes the semester list, an
    upload's outcome updates the page state, and each semester becomes one
    sheet of the exported workbook, built as rows of cells. */
module Home {
  import opened JsStrings
  import opened GradeTypes

  // ---------------------------------------------------------------------
  // Import

  /** The scores of a processed course; a score that is not there is None. */
  datatype ProcessedScores = ProcessedScores(
    progressScore: Option<real>,
    practiceScore: Option<real>,
    midtermScore: Option<real>,
    finaltermScore: Option<real>,
    totalScore: Option<real>)

  /** A processed course; every field may be missing. */
  datatype ProcessedCourse = ProcessedCourse(
    courseCode: Option<string>,
    courseNameVi: Option<string>,
    credits: Option<real>,
    scores: Option<ProcessedScores>)

  datatype ProcessedSemester = ProcessedSemester(semesterName: string, courses: seq<ProcessedCourse>)

  /** `c.scores?.x`: a course without a scores object has no score at all. */
  function ScoresOf(c: ProcessedCourse): (sc: ProcessedScores)
    ensures c.scores.Some? ==> sc == c.scores.value
    ensures c.scores.None? ==>
      && sc.progressScore.None? && sc.practiceScore.None?
      && sc.midtermScore.None? && sc.finaltermScore.None? && sc.totalScore.None?
  {
    if c.scores.Some? then c.scores.value else ProcessedScores(None, None, None, None, None)
  }

  /** `n?.toString() || fallback`, where show renders a number as `toString`
      does. */
  function NumberText(n: Option<real>, show: real -> string, fallback: string): (r: string)
    ensures n.None? ==> r == fallback
    ensures n.Some? ==> r == OrElse(Some(show(n.value)), fallback)
  {
    if n.Some? then OrElse(Some(show(n.value)), fallback) else fallback
  }

  /** The fields of the subject made from one processed course. */
  function ImportRecord(c: ProcessedCourse, id: string, show: real -> string): SubjectFields {
    var sc := ScoresOf(c);
    SubjectFields(
      id,
      OrElse(c.courseCode, ""), OrElse(c.courseNameVi, ""), NumberText(c.credits, show, "0"),
      NumberText(sc.progressScore, show, ""), NumberText(sc.practiceScore, show, ""),
      NumberText(sc.midtermScore, show, ""), NumberText(sc.finaltermScore, show, ""),
      "", "", "", "",
      "20", "20", "20", "40",
      NumberText(sc.totalScore, show, ""), "")
  }

  /** The subject made from one processed course (newer field names). */
  function ImportSubject(c: ProcessedCourse, id: string, show: real -> string): Subject {
    AsSubject(ImportRecord(c, id, show))
  }

  /** `pdf-sem-${Date.now()}-${k}`, with now the clock reading as text. */
  function SemesterId(now: string, k: nat): string {
    "pdf-sem-" + now + "-" + NatToString(k)
  }

  /** `pdf-sub-${Date.now()}-${i}`. */
  function SubjectId(now: string, i: nat): string {
    "pdf-sub-" + now + "-" + NatToString(i)
  }

  /** The semester list made from the processed transcript; semNow(k) and
      subNow(k, i) are the clock readings taken for the ids of semester k and of
      its course i. */
  function ImportSemesters(data: seq<ProcessedSemester>, show: real -> string,
                           semNow: nat -> string, subNow: (nat, nat) -> string): (r: seq<Semester>)
    ensures |r| == |data|
  {
    seq(|data|, k requires 0 <= k < |data| =>
      Semester(
        Some(SemesterId(semNow(k), k)),
        data[k].semesterName,
        None,
        None,
        seq(|data[k].courses|, i requires 0 <= i < |data[k].courses| =>
          ImportSubject(data[k].courses[i], SubjectId(subNow(k, i), i), show)),
        None,
        None))
  }

  /** The import keeps the semesters and, inside each, the courses, in their
      order and number; the name is the transcript's semester name and the
      semester carries no separate name or year field. */
  lemma ImportShape(data: seq<ProcessedSemester>, show: real -> string,
                    semNow: nat -> string, subNow: (nat, nat) -> string)
    ensures var r := ImportSemesters(data, show, semNow, subNow);
      forall k :: 0 <= k < |data| ==>
        && r[k].name == data[k].semesterName
        && r[k].semesterName.None? && r[k].year.None?
        && |r[k].subjects| == |data[k].courses|
        && forall i :: 0 <= i < |data[k].courses| ==>
             r[k].subjects[i] == ImportSubject(data[k].courses[i], SubjectId(subNow(k, i), i), show)
  {
  }

  /** Every imported subject is weighted 20/20/20/40 and has empty minimum and
      expected scores. */
  lemma ImportDefaults(c: ProcessedCourse, id: string, show: real -> string)
    ensures var s := ImportSubject(c, id, show);
      && s[ProgressWeight] == "20" && s[PracticeWeight] == "20"
      && s[MidtermWeight] == "20" && s[FinalWeight] == "40"
      && s[MinProgressScore] == "" && s[MinPracticeScore] == ""
      && s[MinMidtermScore] == "" && s[MinFinalScore] == ""
      && s[ExpectedScore] == ""
  {
    AsSubjectSettings(ImportRecord(c, id, show));
  }

  /** A missing code or name gives "", missing credits give "0", the final score
      comes from `finaltermScore` and the score from `totalScore`, and a missing
      score gives "". */
  lemma ImportFields(c: ProcessedCourse, id: string, show: real -> string)
    requires forall x :: show(x) != ""
    ensures var s, sc := ImportSubject(c, id, show), ScoresOf(c);
      && s[IdKey] == id
      && (c.courseCode.None? ==> s[CourseCode] == "")
      && (c.courseCode.Some? ==> s[CourseCode] == c.courseCode.value)
      && (c.courseNameVi.None? ==> s[CourseName] == "")
      && (c.courseNameVi.Some? ==> s[CourseName] == c.courseNameVi.value)
      && s[Credits] == (if c.credits.Some? then show(c.credits.value) else "0")
      && s[ProgressScore] == (if sc.progressScore.Some? then show(sc.progressScore.value) else "")
      && s[PracticeScore] == (if sc.practiceScore.Some? then show(sc.practiceScore.value) else "")
      && s[MidtermScore] == (if sc.midtermScore.Some? then show(sc.midtermScore.value) else "")
      && s[FinalScore] == (if sc.finaltermScore.Some? then show(sc.finaltermScore.value) else "")
      && s[Score] == (if sc.totalScore.Some? then show(sc.totalScore.value) else "")
  {
    AsSubjectCourse(ImportRecord(c, id, show));
    AsSubjectScores(ImportRecord(c, id, show));
    if c.credits.Some? {
      var v: real := c.credits.value;
      assert show(v) != "";
    }
  }

  /** In x + "-" + y with y all digits, the '-' after x is the last one. */
  lemma LastDash(x: string, y: string)
    requires AllDigits(y)
    ensures var s := x + "-" + y;
      s[|x|] == '-' && forall i :: |x| < i < |s| ==> s[i] != '-'
  {
    var s := x + "-" + y;
    forall i | |x| < i < |s| ensures s[i] != '-' {
      assert s[i] == y[i - |x| - 1];
    }
  }

  /** The digits after the last '-' can be read back. */
  lemma DashSuffix(x: string, y: string, x': string, y': string)
    requires AllDigits(y) && AllDigits(y')
    requires x + "-" + y == x' + "-" + y'
    ensures y == y'
  {
    LastDash(x, y);
    LastDash(x', y');
    var s := x + "-" + y;
    assert |x| == |x'|;
    assert y == s[|x| + 1..];
  }

  /** With clock readings written in digits, the imported semesters have
      pairwise different ids, and so do the subjects of each semester. */
  lemma ImportIdsDistinct(data: seq<ProcessedSemester>, show: real -> string,
                          semNow: nat -> string, subNow: (nat, nat) -> string)
    requires forall k :: AllDigits(semNow(k))
    requires forall k, i :: AllDigits(subNow(k, i))
    ensures var r := ImportSemesters(data, show, semNow, subNow);
      && (forall k, l :: 0 <= k < l < |r| ==> r[k].id != r[l].id)
      && forall k, i, j :: 0 <= k < |r| && 0 <= i < j < |r[k].subjects| ==>
           IdKey in r[k].subjects[i] && IdKey in r[k].subjects[j]
           && r[k].subjects[i][IdKey] != r[k].subjects[j][IdKey]
  {
    var r := ImportSemesters(data, show, semNow, subNow);
    forall k, l | 0 <= k < l < |r| ensures r[k].id != r[l].id {
      if SemesterId(semNow(k), k) == SemesterId(semNow(l), l) {
        DashSuffix("pdf-sem-" + semNow(k), NatToString(k), "pdf-sem-" + semNow(l), NatToString(l));
        NatToStringInjective(k, l);
      }
    }
    forall k, i, j | 0 <= k < |r| && 0 <= i < j < |r[k].subjects|
      ensures IdKey in r[k].subjects[i] && IdKey in r[k].subjects[j]
        && r[k].subjects[i][IdKey] != r[k].subjects[j][IdKey]
    {
      var a, b := SubjectId(subNow(k, i), i), SubjectId(subNow(k, j), j);
      assert r[k].subjects[i] == ImportSubject(data[k].courses[i], a, show);
      assert r[k].subjects[j] == ImportSubject(data[k].courses[j], b, show);
      AsSubjectCourse(ImportRecord(data[k].courses[i], a, show));
      AsSubjectCourse(ImportRecord(data[k].courses[j], b, show));
      if a == b {
        DashSuffix("pdf-sub-" + subNow(k, i), NatToString(i), "pdf-sub-" + subNow(k, j), NatToString(j));
        NatToStringInjective(i, j);
      }
    }
  }

  // ---------------------------------------------------------------------
  // Upload outcome

  /** What the upload gave: no file chosen, a failure (with the error's message,
      if it has one), or the processed transcript. */
  datatype Upload = NoFile | Failed(message: Option<string>) | Processed(semesters: seq<ProcessedSemester>)

  /** The part of the page state an upload touches. */
  datatype PageState = PageState(semesters: seq<Semester>, loadingPdf: bool, pdfError: Option<string>)

  /** "Lỗi khi đọc file PDF", the message shown for an error without one. */
  const ReadError := "L\U{1ED7}i khi \U{0111}\U{1ECD}c file PDF"

  /** `handlePdfUpload`, from the page state before to the state after. */
  function HandlePdfUpload(st: PageState, upload: Upload, show: real -> string,
                           semNow: nat -> string, subNow: (nat, nat) -> string): (r: PageState)
    ensures upload.NoFile? ==> r == st
    ensures upload.Processed? ==>
      r.semesters == ImportSemesters(upload.semesters, show, semNow, subNow) && r.pdfError.None?
    ensures upload.Failed? ==>
      && r.semesters == st.semesters
      && r.pdfError.Some? && r.pdfError.value != ""
      && (upload.message.Some? && upload.message.value != "" ==> r.pdfError.value == upload.message.value)
    ensures !upload.NoFile? ==> !r.loadingPdf
  {
    match upload
    case NoFile => st
    case Processed(data) => PageState(ImportSemesters(data, show, semNow, subNow), false, None)
    case Failed(message) => PageState(st.semesters, false, Some(OrElse(message, ReadError)))
  }

  // ---------------------------------------------------------------------
  // Export

  /** A spreadsheet cell: a number, a text, or nothing (an undefined value). */
  datatype Cell = Number(n: nat) | Text(s: string) | Blank

  /** The column labels: STT, Mã HP, Tên HP, TC, QT, GK, TH, CK, Điểm HP,
      Điểm kỳ vọng. */
  const HeaderRow: seq<Cell> := [
    Text("STT"), Text("M\U{00E3} HP"), Text("T\U{00EA}n HP"), Text("TC"),
    Text("QT"), Text("GK"), Text("TH"), Text("CK"),
    Text("\U{0110}i\U{1EC3}m HP"), Text("\U{0110}i\U{1EC3}m k\U{1EF3} v\U{1ECD}ng")]

  /** `subject.k`: the field as it is, nothing when it is not set. */
  function FieldCell(s: Subject, k: string): (c: Cell)
    ensures c.Blank? <==> k !in s
    ensures k in s ==> c == Text(s[k])
  {
    if k in s then Text(s[k]) else Blank
  }

  /** `subject.k || ''`. */
  function TextCell(s: Subject, k: string): (c: Cell)
    ensures c.Text?
    ensures k in s && s[k] != "" ==> c.s == s[k]
    ensures k !in s || s[k] == "" ==> c.s == ""
  {
    Text(OrElse(Field(s, k), ""))
  }

  /** The row of the subject at position idx. */
  function SubjectRow(s: Subject, idx: nat): seq<Cell> {
    [Number(idx + 1), FieldCell(s, CourseCode), FieldCell(s, CourseName), FieldCell(s, Credits),
     TextCell(s, ProgressScore), TextCell(s, MidtermScore), TextCell(s, PracticeScore),
     TextCell(s, FinalScore), TextCell(s, Score), TextCell(s, ExpectedScore)]
  }

  /** The rows of a semester's sheet: its name, the labels, one row per subject. */
  function SheetRows(sem: Semester): (rows: seq<seq<Cell>>)
    ensures |rows| == |sem.subjects| + 2
  {
    [[Text(sem.name)], HeaderRow]
      + seq(|sem.subjects|, idx requires 0 <= idx < |sem.subjects| => SubjectRow(sem.subjects[idx], idx))
  }

  /** A sheet of the workbook: its name and its rows. */
  datatype Sheet = Sheet(name: string, rows: seq<seq<Cell>>)

  /** The sheet of one semester, named by the first 31 characters of its name. */
  function SheetOf(sem: Semester): Sheet {
    Sheet(Slice(sem.name, 31), SheetRows(sem))
  }

  /** The sheets of the export, one per semester in order. */
  function Sheets(sems: seq<Semester>): (r: seq<Sheet>)
    ensures |r| == |sems|
  {
    seq(|sems|, k requires 0 <= k < |sems| => SheetOf(sems[k]))
  }

  /** The workbook being built. */
  class Workbook {
    var sheets: seq<Sheet>

    /** `book_new`: no sheet yet. */
    constructor ()
      ensures sheets == []
    {
      sheets := [];
    }

    /** `book_append_sheet`: the sheet goes after the others. */
    method AppendSheet(rows: seq<seq<Cell>>, name: string)
      modifies this
      ensures sheets == old(sheets) + [Sheet(name, rows)]
    {
      sheets := sheets + [Sheet(name, rows)];
    }
  }

  /** `exportToExcel`: one sheet appended per semester. */
  method ExportToExcel(sems: seq<Semester>) returns (wb: Workbook)
    ensures fresh(wb)
    ensures wb.sheets == Sheets(sems)
  {
    wb := new Workbook();
    for k := 0 to |sems|
      invariant wb.sheets == Sheets(sems[..k])
    {
      wb.AppendSheet(SheetRows(sems[k]), Slice(sems[k].name, 31));
      assert sems[..k + 1] == sems[..k] + [sems[k]];
    }
    assert sems[..|sems|] == sems;
  }

  /** Each sheet belongs to the semester at its position: named by at most the
      first 31 characters of its name (all of it when it is short enough), and
      holding the name row, the label row and one row per subject. */
  lemma SheetsShape(sems: seq<Semester>)
    ensures var r := Sheets(sems);
      forall k :: 0 <= k < |sems| ==>
        && |r[k].name| <= 31
        && r[k].name == sems[k].name[..|r[k].name|]
        && (|sems[k].name| <= 31 ==> r[k].name == sems[k].name)
        && |r[k].rows| == |sems[k].subjects| + 2
        && r[k].rows[0] == [Text(sems[k].name)]
        && r[k].rows[1] == HeaderRow
  {
  }

  /** Each subject row has ten cells: the 1-based position, the code, name and
      credits as they are, then the progress, midterm, practice and final
      scores, the score and the expected score, each '' when empty. */
  lemma SubjectRows(sem: Semester, idx: nat)
    requires idx < |sem.subjects|
    ensures var s, row := sem.subjects[idx], SheetRows(sem)[idx + 2];
      && |row| == 10
      && row[0] == Number(idx + 1)
      && row[1] == FieldCell(s, CourseCode) && row[2] == FieldCell(s, CourseName)
      && row[3] == FieldCell(s, Credits)
      && row[4] == Text(OrElse(Field(s, ProgressScore), ""))
      && row[5] == Text(OrElse(Field(s, MidtermScore), ""))
      && row[6] == Text(OrElse(Field(s, PracticeScore), ""))
      && row[7] == Text(OrElse(Field(s, FinalScore), ""))
      && row[8] == Text(OrElse(Field(s, Score), ""))
      && row[9] == Text(OrElse(Field(s, ExpectedScore), ""))
  {
    assert SheetRows(sem)[idx + 2] == SubjectRow(sem.subjects[idx], idx);
  }

  /** Exporting an imported course: every cell is there, and the row carries the
      course's code, name, credits and scores as the import wrote them. */
  lemma ImportedRow(c: ProcessedCourse, id: string, show: real -> string, idx: nat)
    ensures var s := ImportSubject(c, id, show);
      var sc := ScoresOf(c);
      SubjectRow(s, idx) == [
        Number(idx + 1),
        Text(OrElse(c.courseCode, "")), Text(OrElse(c.courseNameVi, "")),
        Text(NumberText(c.credits, show, "0")),
        Text(NumberText(sc.progressScore, show, "")), Text(NumberText(sc.midtermScore, show, "")),
        Text(NumberText(sc.practiceScore, show, "")), Text(NumberText(sc.finaltermScore, show, "")),
        Text(NumberText(sc.totalScore, show, "")), Text("")]
  {
    var f := ImportRecord(c, id, show);
    AsSubjectCourse(f);
    AsSubjectScores(f);
    AsSubjectSettings(f);
  }
}
