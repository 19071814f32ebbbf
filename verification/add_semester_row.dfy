/** The add-semester row of the grade table: a click appends one new semester
    holding one blank subject. */
module AddSemesterRow {
  import opened JsStrings
  import opened GradeTypes
  import opened GradeApp

  /** "Nhập tên học kỳ", the placeholder name of a new semester. */
  const Placeholder := "Nh\U{1EAD}p t\U{00EA}n h\U{1ECD}c k\U{1EF3}"

  /** The fields of the blank subject: only the weights are set, to
      20/20/20/40. */
  function BlankRecord(subUuid: string): SubjectFields {
    SubjectFields(
      "sub-" + subUuid,
      "", "", "",
      "", "", "", "",
      "", "", "", "",
      "20", "20", "20", "40",
      "", "")
  }

  /** The semester a click adds; semUuid and subUuid are the two generated
      uuids and year is the current year as text. */
  function NewSemester(semUuid: string, subUuid: string, year: string): Semester {
    Semester(Some("sem-" + semUuid), Placeholder, Some(Placeholder), Some(year),
             [AsSubject(BlankRecord(subUuid))], None, None)
  }

  /** The click: the list with the new semester after the others. */
  function AddSemester(sems: seq<Semester>, semUuid: string, subUuid: string, year: string)
    : (r: seq<Semester>)
    ensures |r| == |sems| + 1
    ensures r[..|sems|] == sems
  {
    sems + [NewSemester(semUuid, subUuid, year)]
  }

  /** The new semester is named "Nhập tên học kỳ" in both name fields, carries
      the year, has an id starting with "sem-" and exactly one subject, whose id
      starts with "sub-". */
  lemma AddedSemester(sems: seq<Semester>, semUuid: string, subUuid: string, year: string)
    ensures var s := AddSemester(sems, semUuid, subUuid, year)[|sems|];
      && s.name == Placeholder && s.semesterName == Some(Placeholder) && s.year == Some(year)
      && s.id.Some? && |s.id.value| >= 4 && s.id.value[..4] == "sem-"
      && |s.subjects| == 1
      && s.subjects[0].Keys == SubjectKeys
      && |s.subjects[0][IdKey]| >= 4 && s.subjects[0][IdKey][..4] == "sub-"
  {
    var f := BlankRecord(subUuid);
    AsSubjectKeys(f);
    AsSubjectCourse(f);
  }

  /** The new subject is weighted 20/20/20/40 and every other field is empty. */
  lemma BlankSubject(subUuid: string)
    ensures var sub := AsSubject(BlankRecord(subUuid));
      && sub[ProgressWeight] == "20" && sub[PracticeWeight] == "20"
      && sub[MidtermWeight] == "20" && sub[FinalWeight] == "40"
      && sub[CourseCode] == "" && sub[CourseName] == "" && sub[Credits] == ""
      && sub[ProgressScore] == "" && sub[PracticeScore] == ""
      && sub[MidtermScore] == "" && sub[FinalScore] == ""
      && sub[MinProgressScore] == "" && sub[MinPracticeScore] == ""
      && sub[MinMidtermScore] == "" && sub[MinFinalScore] == ""
      && sub[Score] == "" && sub[ExpectedScore] == ""
  {
    var f := BlankRecord(subUuid);
    AsSubjectCourse(f);
    AsSubjectScores(f);
    AsSubjectSettings(f);
  }

  /** Deleting the new semester by its id gives back the list as it was, when no
      earlier semester has that id. */
  lemma DeleteUndoesAdd(sems: seq<Semester>, semUuid: string, subUuid: string, year: string)
    requires forall s :: s in sems ==> s.id != Some("sem-" + semUuid)
    ensures DeleteSemester(AddSemester(sems, semUuid, subUuid, year), "sem-" + semUuid) == sems
  {
    var id := "sem-" + semUuid;
    var added := [NewSemester(semUuid, subUuid, year)];
    DeleteSemesterAppend(sems, added, id);
    DeleteSemesterAbsent(sems, id);
    assert added[..0] == [];
    assert DeleteSemester(added, id) == [];
  }
}
