/** The grade book's records. A subject is an open record of text fields keyed
    by name: the code uses two naming schemes for the same fields (the older
    `maHP`/`diemQT`/`weight_diemQT` keys and the newer `courseCode`/
    `progressScore`/`progressWeight` keys), and an optional `id`. */
module GradeTypes {
  import opened JsStrings

  /** A subject: field name to text; a field that is not set is absent. */
  type Subject = map<string, string>

  /** A semester's own summary: its average score and the credits it earned. */
  datatype SemesterSummary = SemesterSummary(averageScore: real, creditsEarned: real)

  /** The running totals up to a semester: credits accumulated and the GPA. */
  datatype CumulativeSummary = CumulativeSummary(totalCreditsAccumulated: real, cumulativeGpa: real)

  /** A semester: its optional id, display name, optional name and year fields,
      its subjects in table order, and its two optional summaries. */
  datatype Semester = Semester(
    id: Option<string>,
    name: string,
    semesterName: Option<string>,
    year: Option<string>,
    subjects: seq<Subject>,
    semesterSummary: Option<SemesterSummary>,
    cumulativeSummary: Option<CumulativeSummary>)

  const IdKey := "id"

  // Field names of the older scheme.
  const MaHP := "maHP"
  const TenHP := "tenHP"
  const TinChi := "tinChi"
  const DiemQT := "diemQT"
  const DiemGK := "diemGK"
  const DiemTH := "diemTH"
  const DiemCK := "diemCK"
  const MinDiemQT := "min_diemQT"
  const MinDiemGK := "min_diemGK"
  const MinDiemTH := "min_diemTH"
  const MinDiemCK := "min_diemCK"
  const WeightDiemQT := "weight_diemQT"
  const WeightDiemGK := "weight_diemGK"
  const WeightDiemTH := "weight_diemTH"
  const WeightDiemCK := "weight_diemCK"
  const DiemHP := "diemHP"
  const ExpectedScore := "expectedScore"

  // Field names of the newer scheme.
  const CourseCode := "courseCode"
  const CourseName := "courseName"
  const Credits := "credits"
  const ProgressScore := "progressScore"
  const PracticeScore := "practiceScore"
  const MidtermScore := "midtermScore"
  const FinalScore := "finalScore"
  const MinProgressScore := "minProgressScore"
  const MinPracticeScore := "minPracticeScore"
  const MinMidtermScore := "minMidtermScore"
  const MinFinalScore := "minFinalScore"
  const ProgressWeight := "progressWeight"
  const PracticeWeight := "practiceWeight"
  const MidtermWeight := "midtermWeight"
  const FinalWeight := "finalWeight"
  const Score := "score"

  /** The four score fields of the older scheme. */
  const ScoreKeys: set<string> := {DiemQT, DiemGK, DiemTH, DiemCK}

  /** `value || fallback` on an optional text field: absent and empty both give
      the fallback. */
  function OrElse(value: Option<string>, fallback: string): (r: string)
    ensures value.Some? && value.value != "" ==> r == value.value
    ensures value.None? || value.value == "" ==> r == fallback
  {
    if value.Some? && value.value != "" then value.value else fallback
  }

  /** A subject with the fields the newer scheme declares, all set. */
  datatype SubjectFields = SubjectFields(
    id: string,
    courseCode: string, courseName: string, credits: string,
    progressScore: string, practiceScore: string, midtermScore: string, finalScore: string,
    minProgressScore: string, minPracticeScore: string, minMidtermScore: string, minFinalScore: string,
    progressWeight: string, practiceWeight: string, midtermWeight: string, finalWeight: string,
    score: string, expectedScore: string)

  /** The field names of the newer scheme, id included. */
  const SubjectKeys: set<string> := {
    IdKey, CourseCode, CourseName, Credits, ProgressScore, PracticeScore, MidtermScore, FinalScore,
    MinProgressScore, MinPracticeScore, MinMidtermScore, MinFinalScore,
    ProgressWeight, PracticeWeight, MidtermWeight, FinalWeight, Score, ExpectedScore}

  /** The record as an object keyed by field name. */
  function AsSubject(f: SubjectFields): Subject {
    map[
      IdKey := f.id,
      CourseCode := f.courseCode, CourseName := f.courseName, Credits := f.credits,
      ProgressScore := f.progressScore, PracticeScore := f.practiceScore,
      MidtermScore := f.midtermScore, FinalScore := f.finalScore,
      MinProgressScore := f.minProgressScore, MinPracticeScore := f.minPracticeScore,
      MinMidtermScore := f.minMidtermScore, MinFinalScore := f.minFinalScore,
      ProgressWeight := f.progressWeight, PracticeWeight := f.practiceWeight,
      MidtermWeight := f.midtermWeight, FinalWeight := f.finalWeight,
      Score := f.score, ExpectedScore := f.expectedScore]
  }

  /** The record sets exactly the fields of the newer scheme. */
  lemma AsSubjectKeys(f: SubjectFields)
    ensures AsSubject(f).Keys == SubjectKeys
  {
  }

  /** The id and the course fields are found under their names. */
  lemma AsSubjectCourse(f: SubjectFields)
    ensures var s := AsSubject(f);
      && IdKey in s && s[IdKey] == f.id
      && CourseCode in s && s[CourseCode] == f.courseCode
      && CourseName in s && s[CourseName] == f.courseName
      && Credits in s && s[Credits] == f.credits
  {
  }

  /** The scores are found under their names. */
  lemma AsSubjectScores(f: SubjectFields)
    ensures var s := AsSubject(f);
      && ProgressScore in s && s[ProgressScore] == f.progressScore
      && PracticeScore in s && s[PracticeScore] == f.practiceScore
      && MidtermScore in s && s[MidtermScore] == f.midtermScore
      && FinalScore in s && s[FinalScore] == f.finalScore
      && Score in s && s[Score] == f.score
  {
  }

  /** The minimum scores, the weights and the expected score are found under
      their names. */
  lemma AsSubjectSettings(f: SubjectFields)
    ensures var s := AsSubject(f);
      && MinProgressScore in s && s[MinProgressScore] == f.minProgressScore
      && MinPracticeScore in s && s[MinPracticeScore] == f.minPracticeScore
      && MinMidtermScore in s && s[MinMidtermScore] == f.minMidtermScore
      && MinFinalScore in s && s[MinFinalScore] == f.minFinalScore
      && ProgressWeight in s && s[ProgressWeight] == f.progressWeight
      && PracticeWeight in s && s[PracticeWeight] == f.practiceWeight
      && MidtermWeight in s && s[MidtermWeight] == f.midtermWeight
      && FinalWeight in s && s[FinalWeight] == f.finalWeight
      && ExpectedScore in s && s[ExpectedScore] == f.expectedScore
  {
  }

  /** The field k of a subject, if set. */
  function Field(s: Subject, k: string): Option<string> {
    if k in s then Some(s[k]) else None
  }
}
