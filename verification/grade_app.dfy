/** The grade book's state operations: the theme switch, loading the saved
    semesters (or the default state), and the three edits of the semester list.
    Every edit returns a new list and leaves its argument as it was. */
module GradeApp {
  import opened JsStrings
  import opened PdfText
  import opened GradeTypes

  // ---------------------------------------------------------------------
  // Theme

  /** The initial theme: the saved one when there is a non-empty one, "dark"
      otherwise. */
  function InitialTheme(saved: Option<string>): (theme: string)
    ensures theme != ""
    ensures saved.None? || saved.value == "" ==> theme == "dark"
    ensures saved.Some? && saved.value != "" ==> theme == saved.value
  {
    OrElse(saved, "dark")
  }

  /** `toggleTheme`: "dark" becomes "light", anything else becomes "dark". */
  function ToggleTheme(prev: string): (next: string)
    ensures next == "dark" || next == "light"
    ensures next != prev || (prev != "dark" && prev != "light")
  {
    if prev == "dark" then "light" else "dark"
  }

  /** Toggling twice restores a "dark" or "light" theme. */
  lemma ToggleTwice(theme: string)
    requires theme == "dark" || theme == "light"
    ensures ToggleTheme(ToggleTheme(theme)) == theme
  {
  }

  // ---------------------------------------------------------------------
  // Loading

  /** What the saved entry holds: nothing (or the empty string), something that
      is not a list of semesters (the parse or the mapping throws), or a list. */
  datatype Stored = Absent | Unreadable | Saved(semesters: seq<Semester>)

  /** The blank subject of the default state (older field names). */
  const DefaultSubject: Subject := map[
    MaHP := "", TenHP := "", TinChi := "",
    DiemQT := "", DiemGK := "", DiemTH := "", DiemCK := "",
    MinDiemQT := "", MinDiemGK := "", MinDiemTH := "", MinDiemCK := "",
    WeightDiemQT := "20", WeightDiemGK := "20", WeightDiemTH := "20", WeightDiemCK := "40",
    DiemHP := "", ExpectedScore := ""]

  /** `s.id || generateId()`: an id that is present and non-empty is kept. */
  function EnsureId(s: Semester, freshId: string): (r: Semester)
    ensures r.id == Some(OrElse(s.id, freshId))
    ensures r.name == s.name && r.semesterName == s.semesterName && r.year == s.year
    ensures r.subjects == s.subjects
    ensures r == s.(id := r.id)
  {
    s.(id := Some(OrElse(s.id, freshId)))
  }

  /** The initial semester list; freshId(i) is the id generated for the i-th
      semester when it needs one. */
  function LoadSemesters(stored: Stored, freshId: nat -> string): (sems: seq<Semester>)
    ensures stored.Saved? ==> |sems| == |stored.semesters|
    ensures !stored.Saved? ==> |sems| == 1
  {
    match stored
    case Saved(list) => seq(|list|, i requires 0 <= i < |list| => EnsureId(list[i], freshId(i)))
    case _ => [Semester(Some(freshId(0)), HocKy + " 1", None, None, [DefaultSubject], None, None)]
  }

  /** Loading keeps the saved semesters in order, changing only the ids that are
      missing or empty. */
  lemma LoadKeepsSaved(list: seq<Semester>, freshId: nat -> string)
    ensures var sems := LoadSemesters(Saved(list), freshId);
      forall i :: 0 <= i < |list| ==>
        && sems[i] == list[i].(id := sems[i].id)
        && (list[i].id.Some? && list[i].id.value != "" ==> sems[i].id == list[i].id)
        && (list[i].id.None? || list[i].id.value == "" ==> sems[i].id == Some(freshId(i)))
  {
    var sems := LoadSemesters(Saved(list), freshId);
    forall i | 0 <= i < |list|
      ensures && sems[i] == list[i].(id := sems[i].id)
        && (list[i].id.Some? && list[i].id.value != "" ==> sems[i].id == list[i].id)
        && (list[i].id.None? || list[i].id.value == "" ==> sems[i].id == Some(freshId(i)))
    {
      assert sems[i] == EnsureId(list[i], freshId(i));
    }
  }

  /** Without a readable saved list the state is one semester "Học kỳ 1" holding
      one blank subject weighted 20/20/20/40. */
  lemma DefaultState(stored: Stored, freshId: nat -> string)
    requires !stored.Saved?
    ensures var sems := LoadSemesters(stored, freshId);
      && |sems| == 1 && sems[0].name == "H\U{1ECD}c k\U{1EF3} 1"
      && sems[0].id == Some(freshId(0))
      && |sems[0].subjects| == 1
      && var sub := sems[0].subjects[0];
      && sub[WeightDiemQT] == "20" && sub[WeightDiemGK] == "20" && sub[WeightDiemTH] == "20"
      && sub[WeightDiemCK] == "40"
      && forall k :: k in sub && k !in {WeightDiemQT, WeightDiemGK, WeightDiemTH, WeightDiemCK} ==> sub[k] == ""
  {
  }

  /** After loading, every semester has a non-empty id when the generator gives
      non-empty ids. */
  lemma LoadedIdsPresent(stored: Stored, freshId: nat -> string)
    requires forall i :: freshId(i) != ""
    ensures forall s :: s in LoadSemesters(stored, freshId) ==> s.id.Some? && s.id.value != ""
  {
  }

  // ---------------------------------------------------------------------
  // Deleting a semester

  /** `deleteSemester(id)`: keeps the semesters whose id is not id. */
  function DeleteSemester(sems: seq<Semester>, id: string): (r: seq<Semester>)
    ensures |r| <= |sems|
    decreases |sems|
  {
    if |sems| == 0 then []
    else
      var rest := DeleteSemester(sems[..|sems| - 1], id);
      var last := sems[|sems| - 1];
      if last.id != Some(id) then rest + [last] else rest
  }

  /** The kept semesters are exactly those whose id is not id. */
  lemma {:induction false} DeleteSemesterMembers(sems: seq<Semester>, id: string)
    ensures forall s :: s in DeleteSemester(sems, id) <==> s in sems && s.id != Some(id)
    decreases |sems|
  {
    if |sems| > 0 {
      var init := sems[..|sems| - 1];
      DeleteSemesterMembers(init, id);
      assert sems == init + [sems[|sems| - 1]];
    }
  }

  /** Deletion works piecewise, so the order of the kept semesters is theirs. */
  lemma {:induction false} DeleteSemesterAppend(a: seq<Semester>, b: seq<Semester>, id: string)
    ensures DeleteSemester(a + b, id) == DeleteSemester(a, id) + DeleteSemester(b, id)
    decreases |b|
  {
    if |b| == 0 {
      assert a + b == a;
    } else {
      var init := b[..|b| - 1];
      DeleteSemesterAppend(a, init, id);
      assert (a + b)[..|a + b| - 1] == a + init;
      assert (a + b)[|a + b| - 1] == b[|b| - 1];
    }
  }

  /** Deleting the same id again changes nothing. */
  lemma {:induction false} DeleteSemesterIdempotent(sems: seq<Semester>, id: string)
    ensures DeleteSemester(DeleteSemester(sems, id), id) == DeleteSemester(sems, id)
    decreases |sems|
  {
    if |sems| > 0 {
      var init := sems[..|sems| - 1];
      DeleteSemesterIdempotent(init, id);
      var last := sems[|sems| - 1];
      if last.id != Some(id) {
        var r := DeleteSemester(init, id) + [last];
        assert r[..|r| - 1] == DeleteSemester(init, id);
      }
    }
  }

  /** Without a semester of that id the list is unchanged. */
  lemma {:induction false} DeleteSemesterAbsent(sems: seq<Semester>, id: string)
    requires forall s :: s in sems ==> s.id != Some(id)
    ensures DeleteSemester(sems, id) == sems
    decreases |sems|
  {
    if |sems| > 0 {
      var init := sems[..|sems| - 1];
      assert sems == init + [sems[|sems| - 1]];
      DeleteSemesterAbsent(init, id);
    }
  }

  // ---------------------------------------------------------------------
  // Deleting a subject

  /** `filter((_, idx) => idx !== k)` on a list of subjects. */
  function WithoutIndex(subs: seq<Subject>, k: int): (r: seq<Subject>)
    ensures 0 <= k < |subs| ==> r == subs[..k] + subs[k + 1..]
    ensures !(0 <= k < |subs|) ==> r == subs
    decreases |subs|
  {
    if |subs| == 0 then []
    else
      var init := subs[..|subs| - 1];
      var r := WithoutIndex(init, k) + (if k == |subs| - 1 then [] else [subs[|subs| - 1]]);
      assert subs == init + [subs[|subs| - 1]];
      assert 0 <= k < |init| ==> init[k + 1..] + [subs[|subs| - 1]] == subs[k + 1..];
      r
  }

  /** `deleteSubject(sIdx, subIdx)`. */
  function DeleteSubject(sems: seq<Semester>, sIdx: int, subIdx: int): (r: seq<Semester>)
    ensures |r| == |sems|
  {
    seq(|sems|, i requires 0 <= i < |sems| =>
      if i != sIdx then sems[i] else sems[i].(subjects := WithoutIndex(sems[i].subjects, subIdx)))
  }

  /** Only semester sIdx changes, and only by losing its subject subIdx; the
      other subjects keep their order. */
  lemma DeleteSubjectEffect(sems: seq<Semester>, sIdx: int, subIdx: int)
    ensures var r := DeleteSubject(sems, sIdx, subIdx);
      forall i :: 0 <= i < |sems| ==>
        if i != sIdx then r[i] == sems[i]
        else
          && r[i].id == sems[i].id && r[i].name == sems[i].name
          && r[i].semesterName == sems[i].semesterName && r[i].year == sems[i].year
          && r[i] == sems[i].(subjects := r[i].subjects)
          && r[i].subjects == (if 0 <= subIdx < |sems[i].subjects|
                               then sems[i].subjects[..subIdx] + sems[i].subjects[subIdx + 1..]
                               else sems[i].subjects)
  {
  }

  /** Indices out of range leave the list as it was. */
  lemma DeleteSubjectOutOfRange(sems: seq<Semester>, sIdx: int, subIdx: int)
    requires !(0 <= sIdx < |sems|) || !(0 <= subIdx < |sems[sIdx].subjects|)
    ensures DeleteSubject(sems, sIdx, subIdx) == sems
  {
    var r := DeleteSubject(sems, sIdx, subIdx);
    forall i | 0 <= i < |sems| ensures r[i] == sems[i] {
      if i == sIdx {
        assert r[i].subjects == sems[i].subjects;
      }
    }
  }

  // ---------------------------------------------------------------------
  // Updating a field

  /** The value stored for field: normalised for the four score fields, verbatim
      for any other field. */
  function StoredValue(field: string, value: string, normalize: string -> string): string {
    if field in ScoreKeys then normalize(value) else value
  }

  /** `updateSubjectField(sIdx, subIdx, field, value)`; normalize stands for the
      score normaliser. */
  function UpdateSubjectField(sems: seq<Semester>, sIdx: int, subIdx: int, field: string, value: string,
                              normalize: string -> string): (r: seq<Semester>)
    ensures |r| == |sems|
  {
    seq(|sems|, i requires 0 <= i < |sems| =>
      if i != sIdx then sems[i]
      else sems[i].(subjects := seq(|sems[i].subjects|, j requires 0 <= j < |sems[i].subjects| =>
        if j != subIdx then sems[i].subjects[j]
        else sems[i].subjects[j][field := StoredValue(field, value, normalize)])))
  }

  /** Only key field of subject subIdx of semester sIdx changes; it holds the
      normalised value for a score field and the value itself otherwise. */
  lemma UpdateSubjectFieldEffect(sems: seq<Semester>, sIdx: int, subIdx: int, field: string, value: string,
                                 normalize: string -> string)
    ensures var r := UpdateSubjectField(sems, sIdx, subIdx, field, value, normalize);
      forall i :: 0 <= i < |sems| ==>
        && r[i].id == sems[i].id && r[i].name == sems[i].name
        && r[i].semesterName == sems[i].semesterName && r[i].year == sems[i].year
        && r[i] == sems[i].(subjects := r[i].subjects)
        && |r[i].subjects| == |sems[i].subjects|
        && forall j :: 0 <= j < |sems[i].subjects| ==>
          var before, after := sems[i].subjects[j], r[i].subjects[j];
          if i == sIdx && j == subIdx then
            && field in after
            && after[field] == (if field in ScoreKeys then normalize(value) else value)
            && after.Keys == before.Keys + {field}
            && forall k :: k in before && k != field ==> after[k] == before[k]
          else after == before
  {
    var r := UpdateSubjectField(sems, sIdx, subIdx, field, value, normalize);
    forall i, j | 0 <= i < |sems| && 0 <= j < |sems[i].subjects|
      ensures var before, after := sems[i].subjects[j], r[i].subjects[j];
          if i == sIdx && j == subIdx then
            && field in after
            && after[field] == (if field in ScoreKeys then normalize(value) else value)
            && after.Keys == before.Keys + {field}
            && forall k :: k in before && k != field ==> after[k] == before[k]
          else after == before
    {
      if i == sIdx && j == subIdx {
        var before := sems[i].subjects[j];
        assert r[i].subjects[j] == before[field := StoredValue(field, value, normalize)];
      }
    }
  }
}
