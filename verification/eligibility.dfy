/** The graduation-eligibility check: a fixed sequence of nine requirements,
    each of which, when not met, adds one reason to the answer. Numbers are
    exact reals; how a number is written inside a message is a parameter. */
module Eligibility {
  import opened JsStrings

  datatype EnglishTest = IELTS | TOEFL | TOEIC | VSTEP | UIT

  datatype EnglishProficiency = EnglishProficiency(kind: EnglishTest, score: real)

  datatype AcademicRecord = AcademicRecord(
    totalCredits: real,
    gpa: real,
    hasFGrade: bool,
    completedThesis: bool,
    thesisScore: Option<real>,
    englishProficiency: EnglishProficiency,
    completedMilitaryTraining: bool,
    completedPhysicalEducation: bool,
    completedSoftSkills: bool,
    isUnderDisciplinaryAction: bool)

  /** One requirement that can fail. */
  datatype Reason =
    | NotEnoughCredits | LowGpa | HasFGrade | ThesisNotMet | EnglishNotMet
    | NoMilitaryTraining | NoPhysicalEducation | NoSoftSkills | Disciplinary

  /** The requirements in the order the check visits them. */
  const CheckOrder: seq<Reason> := [
    NotEnoughCredits, LowGpa, HasFGrade, ThesisNotMet, EnglishNotMet,
    NoMilitaryTraining, NoPhysicalEducation, NoSoftSkills, Disciplinary]

  /** The position of a requirement in the check order. */
  function Rank(r: Reason): (k: nat)
    ensures k < |CheckOrder| && CheckOrder[k] == r
  {
    match r
    case NotEnoughCredits => 0
    case LowGpa => 1
    case HasFGrade => 2
    case ThesisNotMet => 3
    case EnglishNotMet => 4
    case NoMilitaryTraining => 5
    case NoPhysicalEducation => 6
    case NoSoftSkills => 7
    case Disciplinary => 8
  }

  /** The least score that meets the English requirement, per test. */
  function EnglishThreshold(t: EnglishTest): real {
    match t
    case IELTS => 5.5
    case TOEFL => 61.0
    case TOEIC => 600.0
    case VSTEP => 3.5
    case UIT => 60.0
  }

  /** Whether the record fails requirement r. */
  predicate Fails(rec: AcademicRecord, r: Reason) {
    match r
    case NotEnoughCredits => rec.totalCredits < 130.0
    case LowGpa => rec.gpa < 2.0
    case HasFGrade => rec.hasFGrade
    case ThesisNotMet => !rec.completedThesis || (rec.thesisScore.Some? && rec.thesisScore.value < 5.0)
    case EnglishNotMet => rec.englishProficiency.score < EnglishThreshold(rec.englishProficiency.kind)
    case NoMilitaryTraining => !rec.completedMilitaryTraining
    case NoPhysicalEducation => !rec.completedPhysicalEducation
    case NoSoftSkills => !rec.completedSoftSkills
    case Disciplinary => rec.isUnderDisciplinaryAction
  }

  /** The message of a failed requirement; show writes a number as a template
      literal does and fixed2 writes it with two decimals. */
  function Message(rec: AcademicRecord, r: Reason, show: real -> string, fixed2: real -> string): string {
    match r
    case NotEnoughCredits => "Not enough credits (" + show(rec.totalCredits) + "/130 required)"
    case LowGpa => "GPA too low (" + fixed2(rec.gpa) + "/4.00 required)"
    case HasFGrade => "Has F grade in one or more courses"
    case ThesisNotMet => "Thesis or alternative requirements not met"
    case EnglishNotMet => "English proficiency requirement not met"
    case NoMilitaryTraining => "Military training not completed"
    case NoPhysicalEducation => "Physical education not completed"
    case NoSoftSkills => "Soft skills requirement not met"
    case Disciplinary => "Student is under disciplinary action"
  }

  // ---------------------------------------------------------------------
  // Filtering and mapping sequences

  /** The elements of xs that satisfy p, in their order. */
  function Filter(xs: seq<Reason>, p: Reason -> bool): (ys: seq<Reason>)
    ensures |ys| <= |xs|
  {
    if |xs| == 0 then []
    else Filter(xs[..|xs| - 1], p) + (if p(xs[|xs| - 1]) then [xs[|xs| - 1]] else [])
  }

  /** f applied to each element of xs. */
  function Map<T, U>(xs: seq<T>, f: T -> U): (ys: seq<U>)
    ensures |ys| == |xs|
    ensures forall i :: 0 <= i < |xs| ==> ys[i] == f(xs[i])
  {
    seq(|xs|, i requires 0 <= i < |xs| => f(xs[i]))
  }

  /** Filtering keeps exactly the listed elements that satisfy p. */
  lemma {:induction false} FilterMembers(xs: seq<Reason>, p: Reason -> bool)
    ensures forall x :: x in Filter(xs, p) <==> x in xs && p(x)
  {
    if |xs| > 0 {
      var init := xs[..|xs| - 1];
      FilterMembers(init, p);
      assert xs == init + [xs[|xs| - 1]];
    }
  }

  /** Filtering a sequence in check order leaves it in check order. */
  lemma {:induction false} FilterOrdered(xs: seq<Reason>, p: Reason -> bool)
    requires forall i, j :: 0 <= i < j < |xs| ==> Rank(xs[i]) < Rank(xs[j])
    ensures forall i, j :: 0 <= i < j < |Filter(xs, p)| ==> Rank(Filter(xs, p)[i]) < Rank(Filter(xs, p)[j])
  {
    if |xs| > 0 {
      var init, last := xs[..|xs| - 1], xs[|xs| - 1];
      FilterOrdered(init, p);
      FilterMembers(init, p);
      var fi := Filter(init, p);
      var ys := Filter(xs, p);
      assert ys == fi + (if p(last) then [last] else []);
      forall i, j | 0 <= i < j < |ys| ensures Rank(ys[i]) < Rank(ys[j]) {
        assert ys[i] == fi[i];
        if j == |fi| {
          assert ys[j] == last && fi[i] in fi;
          assert fi[i] in init;
          var k :| 0 <= k < |init| && init[k] == fi[i];
          assert xs[k] == fi[i] && xs[|xs| - 1] == last;
          assert Rank(xs[k]) < Rank(xs[|xs| - 1]);
        } else {
          assert ys[j] == fi[j];
          assert Rank(fi[i]) < Rank(fi[j]);
        }
      }
    }
  }

  /** Filtering and mapping one more element. */
  lemma FilterMapSnoc<U>(xs: seq<Reason>, x: Reason, p: Reason -> bool, f: Reason -> U)
    ensures Map(Filter(xs + [x], p), f) == Map(Filter(xs, p), f) + (if p(x) then [f(x)] else [])
  {
    assert (xs + [x])[..|xs|] == xs;
  }

  // ---------------------------------------------------------------------
  // The check

  /** The requirements the record fails, as a test. */
  function FailsOn(rec: AcademicRecord): Reason -> bool {
    r => Fails(rec, r)
  }

  /** The failed requirements in check order. */
  function Failing(rec: AcademicRecord): seq<Reason> {
    Filter(CheckOrder, FailsOn(rec))
  }

  /** The messages of a list of requirements, in order. */
  function Messages(rec: AcademicRecord, rs: seq<Reason>, show: real -> string, fixed2: real -> string)
    : seq<string>
  {
    Map(rs, MessageOf(rec, show, fixed2))
  }

  /** The message of each requirement for this record. */
  function MessageOf(rec: AcademicRecord, show: real -> string, fixed2: real -> string): Reason -> string {
    r => Message(rec, r, show, fixed2)
  }

  /** The requirements visited one by one, in check order. */
  lemma VisitedAll()
    ensures [] + [NotEnoughCredits] + [LowGpa] + [HasFGrade] + [ThesisNotMet] + [EnglishNotMet] + [NoMilitaryTraining] + [NoPhysicalEducation] + [NoSoftSkills] + [Disciplinary] == CheckOrder
  {
  }

  /** Filtering the check order and mapping the kept requirements, one
      requirement at a time. */
  lemma FilterMapCheckOrder<U>(p: Reason -> bool, f: Reason -> U)
    ensures Map(Filter(CheckOrder, p), f) == []
      + (if p(NotEnoughCredits) then [f(NotEnoughCredits)] else [])
      + (if p(LowGpa) then [f(LowGpa)] else [])
      + (if p(HasFGrade) then [f(HasFGrade)] else [])
      + (if p(ThesisNotMet) then [f(ThesisNotMet)] else [])
      + (if p(EnglishNotMet) then [f(EnglishNotMet)] else [])
      + (if p(NoMilitaryTraining) then [f(NoMilitaryTraining)] else [])
      + (if p(NoPhysicalEducation) then [f(NoPhysicalEducation)] else [])
      + (if p(NoSoftSkills) then [f(NoSoftSkills)] else [])
      + (if p(Disciplinary) then [f(Disciplinary)] else [])
  {
    VisitedAll();
    var xs: seq<Reason> := [];
    FilterMapSnoc(xs, NotEnoughCredits, p, f);
    xs := xs + [NotEnoughCredits];
    FilterMapSnoc(xs, LowGpa, p, f);
    xs := xs + [LowGpa];
    FilterMapSnoc(xs, HasFGrade, p, f);
    xs := xs + [HasFGrade];
    FilterMapSnoc(xs, ThesisNotMet, p, f);
    xs := xs + [ThesisNotMet];
    FilterMapSnoc(xs, EnglishNotMet, p, f);
    xs := xs + [EnglishNotMet];
    FilterMapSnoc(xs, NoMilitaryTraining, p, f);
    xs := xs + [NoMilitaryTraining];
    FilterMapSnoc(xs, NoPhysicalEducation, p, f);
    xs := xs + [NoPhysicalEducation];
    FilterMapSnoc(xs, NoSoftSkills, p, f);
    xs := xs + [NoSoftSkills];
    FilterMapSnoc(xs, Disciplinary, p, f);
    xs := xs + [Disciplinary];
  }

  /** The test of each requirement, spelled out. */
  lemma FailsByCheck(rec: AcademicRecord)
    ensures var p := FailsOn(rec);
      && (p(NotEnoughCredits) <==> rec.totalCredits < 130.0)
      && (p(LowGpa) <==> rec.gpa < 2.0)
      && (p(HasFGrade) <==> rec.hasFGrade)
      && (p(ThesisNotMet) <==> !rec.completedThesis || (rec.thesisScore.Some? && rec.thesisScore.value < 5.0))
      && (p(EnglishNotMet) <==> rec.englishProficiency.score < EnglishThreshold(rec.englishProficiency.kind))
      && (p(NoMilitaryTraining) <==> !rec.completedMilitaryTraining)
      && (p(NoPhysicalEducation) <==> !rec.completedPhysicalEducation)
      && (p(NoSoftSkills) <==> !rec.completedSoftSkills)
      && (p(Disciplinary) <==> rec.isUnderDisciplinaryAction)
  {
  }

  /** The failed requirements' messages, check by check. */
  lemma MessagesByCheck(rec: AcademicRecord, show: real -> string, fixed2: real -> string)
    ensures Messages(rec, Failing(rec), show, fixed2) == []
      + (if rec.totalCredits < 130.0 then [Message(rec, NotEnoughCredits, show, fixed2)] else [])
      + (if rec.gpa < 2.0 then [Message(rec, LowGpa, show, fixed2)] else [])
      + (if rec.hasFGrade then [Message(rec, HasFGrade, show, fixed2)] else [])
      + (if !rec.completedThesis || (rec.thesisScore.Some? && rec.thesisScore.value < 5.0) then [Message(rec, ThesisNotMet, show, fixed2)] else [])
      + (if rec.englishProficiency.score < EnglishThreshold(rec.englishProficiency.kind) then [Message(rec, EnglishNotMet, show, fixed2)] else [])
      + (if !rec.completedMilitaryTraining then [Message(rec, NoMilitaryTraining, show, fixed2)] else [])
      + (if !rec.completedPhysicalEducation then [Message(rec, NoPhysicalEducation, show, fixed2)] else [])
      + (if !rec.completedSoftSkills then [Message(rec, NoSoftSkills, show, fixed2)] else [])
      + (if rec.isUnderDisciplinaryAction then [Message(rec, Disciplinary, show, fixed2)] else [])
  {
    FailsByCheck(rec);
    FilterMapCheckOrder(FailsOn(rec), MessageOf(rec, show, fixed2));
  }

  /** One guarded push: the message is added when the requirement is not met. */
  method PushIf(reasons: seq<string>, failed: bool, message: string) returns (r: seq<string>)
    ensures r == reasons + (if failed then [message] else [])
  {
    r := reasons;
    if failed {
      r := r + [message];
    }
  }

  /** `checkGraduationEligibility`: one guarded push per requirement. */
  method CheckGraduationEligibility(rec: AcademicRecord, show: real -> string, fixed2: real -> string)
    returns (eligible: bool, reasons: seq<string>)
    ensures reasons == Messages(rec, Failing(rec), show, fixed2)
    ensures eligible <==> |reasons| == 0
  {
    reasons := [];
    reasons := PushIf(reasons, rec.totalCredits < 130.0, Message(rec, NotEnoughCredits, show, fixed2));
    reasons := PushIf(reasons, rec.gpa < 2.0, Message(rec, LowGpa, show, fixed2));
    reasons := PushIf(reasons, rec.hasFGrade, Message(rec, HasFGrade, show, fixed2));
    reasons := PushIf(reasons, !rec.completedThesis || (rec.thesisScore.Some? && rec.thesisScore.value < 5.0), Message(rec, ThesisNotMet, show, fixed2));
    reasons := PushIf(reasons, rec.englishProficiency.score < EnglishThreshold(rec.englishProficiency.kind), Message(rec, EnglishNotMet, show, fixed2));
    reasons := PushIf(reasons, !rec.completedMilitaryTraining, Message(rec, NoMilitaryTraining, show, fixed2));
    reasons := PushIf(reasons, !rec.completedPhysicalEducation, Message(rec, NoPhysicalEducation, show, fixed2));
    reasons := PushIf(reasons, !rec.completedSoftSkills, Message(rec, NoSoftSkills, show, fixed2));
    reasons := PushIf(reasons, rec.isUnderDisciplinaryAction, Message(rec, Disciplinary, show, fixed2));
    eligible := |reasons| == 0;
    MessagesByCheck(rec, show, fixed2);
  }

  // ---------------------------------------------------------------------
  // Properties of the answer

  /** A requirement gives a reason exactly when the record fails it. */
  lemma FailingMembers(rec: AcademicRecord)
    ensures forall r :: r in Failing(rec) <==> Fails(rec, r)
  {
    FilterMembers(CheckOrder, FailsOn(rec));
    forall r ensures r in CheckOrder {
      assert CheckOrder[Rank(r)] == r;
    }
  }

  /** Each requirement gives a reason exactly when it is not met; a completed
      thesis without a score passes. */
  lemma FailingReasons(rec: AcademicRecord)
    ensures var f := Failing(rec);
      && (NotEnoughCredits in f <==> rec.totalCredits < 130.0)
      && (LowGpa in f <==> rec.gpa < 2.0)
      && (HasFGrade in f <==> rec.hasFGrade)
      && (ThesisNotMet in f <==>
            !rec.completedThesis || (rec.thesisScore.Some? && rec.thesisScore.value < 5.0))
      && (EnglishNotMet in f <==>
            rec.englishProficiency.score < EnglishThreshold(rec.englishProficiency.kind))
      && (NoMilitaryTraining in f <==> !rec.completedMilitaryTraining)
      && (NoPhysicalEducation in f <==> !rec.completedPhysicalEducation)
      && (NoSoftSkills in f <==> !rec.completedSoftSkills)
      && (Disciplinary in f <==> rec.isUnderDisciplinaryAction)
  {
    FilterMembers(CheckOrder, FailsOn(rec));
    FailsByCheck(rec);
  }

  /** The English thresholds: IELTS 5.5, TOEFL 61, TOEIC 600, VSTEP 3.5, UIT 60. */
  lemma EnglishRequirement(rec: AcademicRecord)
    ensures var p := rec.englishProficiency;
      EnglishNotMet in Failing(rec) <==>
        match p.kind
        case IELTS => p.score < 5.5
        case TOEFL => p.score < 61.0
        case TOEIC => p.score < 600.0
        case VSTEP => p.score < 3.5
        case UIT => p.score < 60.0
  {
    FailingMembers(rec);
  }

  /** Reasons come in check order, each requirement at most once, so there are
      at most nine. */
  lemma FailingInCheckOrder(rec: AcademicRecord)
    ensures var f := Failing(rec);
      && |f| <= 9
      && forall i, j :: 0 <= i < j < |f| ==> Rank(f[i]) < Rank(f[j])
  {
    forall i, j | 0 <= i < j < |CheckOrder| ensures Rank(CheckOrder[i]) < Rank(CheckOrder[j]) {
      RanksInOrder(i);
      RanksInOrder(j);
    }
    FilterOrdered(CheckOrder, FailsOn(rec));
  }

  /** The k-th requirement of the check order has rank k. */
  lemma RanksInOrder(k: nat)
    requires k < |CheckOrder|
    ensures Rank(CheckOrder[k]) == k
  {
    if k == 0 {
      assert CheckOrder[0] == NotEnoughCredits;
    } else if k == 1 {
      assert CheckOrder[1] == LowGpa;
    } else if k == 2 {
      assert CheckOrder[2] == HasFGrade;
    } else if k == 3 {
      assert CheckOrder[3] == ThesisNotMet;
    } else if k == 4 {
      assert CheckOrder[4] == EnglishNotMet;
    } else if k == 5 {
      assert CheckOrder[5] == NoMilitaryTraining;
    } else if k == 6 {
      assert CheckOrder[6] == NoPhysicalEducation;
    } else if k == 7 {
      assert CheckOrder[7] == NoSoftSkills;
    } else {
      assert CheckOrder[8] == Disciplinary;
    }
  }

  /** Eligible exactly when every requirement is met. */
  lemma EligibleIffAllMet(rec: AcademicRecord)
    ensures |Failing(rec)| == 0 <==>
      && rec.totalCredits >= 130.0 && rec.gpa >= 2.0 && !rec.hasFGrade
      && rec.completedThesis && (rec.thesisScore.None? || rec.thesisScore.value >= 5.0)
      && rec.englishProficiency.score >= EnglishThreshold(rec.englishProficiency.kind)
      && rec.completedMilitaryTraining && rec.completedPhysicalEducation
      && rec.completedSoftSkills && !rec.isUnderDisciplinaryAction
  {
    FailingReasons(rec);
    if |Failing(rec)| != 0 {
      var r := Failing(rec)[0];
      assert r in Failing(rec);
      match r
      case NotEnoughCredits =>
      case LowGpa =>
      case HasFGrade =>
      case ThesisNotMet =>
      case EnglishNotMet =>
      case NoMilitaryTraining =>
      case NoPhysicalEducation =>
      case NoSoftSkills =>
      case Disciplinary =>
    }
  }
}
