/** What the counsellor's actions promise: the gates between tasks, the list
    editing rules, the exam completion rule, the document cursor, and the
    record invariants every action keeps. */
module ActionLaws {
  import opened Common
  import opened Text
  import opened Catalog
  import opened Profiles
  import opened Progress
  import opened CountryGen
  import opened UniversityGen
  import opened ExamPlan
  import opened Actions

  // ---------------------------------------------------------------------
  // Moving between tasks
  // ---------------------------------------------------------------------

  /** `move_to_next_step` succeeds exactly when the current task is 0..3 and
      its gate is open, and then lands on the next task; otherwise it answers
      "cannot move" and changes nothing. */
  lemma MoveToNextStepGate(s: State, env: Env)
    requires env.onboarded
    ensures var k := s.progress.currentTask;
            var r := Step(s, MoveToNextStep, env);
            && (r.Accepted? <==> 0 <= k <= 3 && StageDone(s.progress, k))
            && (r.Accepted? ==> r.state.progress.currentTask == k + 1)
            && (r.Rejected? ==> r.error == CannotMoveNext && r.state == s)
  {
  }

  /** Entering task 1 keeps the country task as it was and may only fill the
      proposed university list. */
  lemma EnterUniversitiesKeepsCountry(s: State, env: Env)
    requires env.onboarded && s.progress.currentTask == 0 && s.progress.task0.finalized
    ensures var r := Step(s, MoveToNextStep, env);
            && r.Accepted?
            && r.state.progress.task0 == s.progress.task0
            && r.state.progress.task1.universityIds == s.progress.task1.universityIds
            && r.state.progress.task2 == s.progress.task2
  {
  }

  // ---------------------------------------------------------------------
  // Task 0
  // ---------------------------------------------------------------------

  /** `select_country` accepts a non-empty country that the catalog holds,
      only on task 0; it selects the country, and the proposed list gains the
      country at its end unless it was already proposed. */
  lemma SelectCountryLaw(s: State, country: string, env: Env)
    requires env.onboarded
    ensures var p := s.progress;
            var r := Step(s, SelectCountry(country), env);
            var before := p.task0.proposedCountries;
            var after := r.state.progress.task0.proposedCountries;
            && (r.Accepted? <==> p.currentTask == 0 && country != "" && CountryCount(env.catalog, country) > 0)
            && (r.Accepted? ==>
                  && r.state.progress.task0.selectedCountry == country
                  && r.state.progress.task0.finalized == p.task0.finalized
                  && Proposes(after, country)
                  && after[..|before|] == before
                  && |after| == |before| + (if Proposes(before, country) then 0 else 1))
  {
    var r := Step(s, SelectCountry(country), env);
    if r.Accepted? {
      var before := s.progress.task0.proposedCountries;
      if !Proposes(before, country) {
        assert (before + [ChosenEntry(env.catalog, country)])[..|before|] == before;
      }
    }
  }

  /** The rounding of the average tuition is the one integer within half a
      unit of the mean. */
  lemma RoundedMeanUnique(sum: int, n: int, r: int)
    requires n > 0
    requires 2 * sum - n < 2 * n * r <= 2 * sum + n
    ensures r == RoundedMean(sum, n)
  {
    var q := RoundedMean(sum, n);
    NoMultipleBetween(2 * n, r - q);
  }

  /** The only multiple of a positive `k` strictly between `-k` and `k` is zero. */
  lemma NoMultipleBetween(k: int, d: int)
    requires k > 0 && -k < k * d < k
    ensures d == 0
  {
    if d > 0 {
      MulMonotone(k, 1, d);
    } else if d < 0 {
      MulMonotone(k, d, -1);
    }
  }

  lemma MulMonotone(k: int, a: int, b: int)
    requires k > 0 && a <= b
    ensures k * a <= k * b
  {
  }

  /** `finalize_country` needs task 0 and a selection, and only sets the flag. */
  lemma FinalizeCountryLaw(s: State, env: Env)
    requires env.onboarded
    ensures var p := s.progress;
            var r := Step(s, FinalizeCountry, env);
            && (r.Accepted? <==> p.currentTask == 0 && p.task0.selectedCountry != "")
            && (r.Accepted? ==> r.state.progress == p.(task0 := p.task0.(finalized := true)))
  {
  }

  /** `reselect_country` from any later task returns to task 0 with an empty
      country and university task and a regenerated country list; it deletes
      the rows of the frozen universities and keeps the exam, document and
      essay tasks as they were. */
  lemma ReselectCountryLaw(s: State, env: Env)
    requires env.onboarded
    ensures var p := s.progress;
            var r := Step(s, ReselectCountry, env);
            var q := r.state.progress;
            && (r.Accepted? <==> p.currentTask != 0)
            && (r.Accepted? ==>
                  && q.currentTask == 0
                  && q.task0.selectedCountry == "" && !q.task0.finalized
                  && q.task1 == EmptyTask1
                  && q.task2 == p.task2 && q.task3 == p.task3 && q.task4 == p.task4
                  && (forall id :: id in r.state.links <==> id in s.links && id !in p.task1.universityIds)
                  && (forall id :: id in r.state.links ==> r.state.links[id] == s.links[id]))
  {
  }

  // ---------------------------------------------------------------------
  // Task 1: editing and freezing the list
  // ---------------------------------------------------------------------

  /** `add_university` appends the catalog record with that id, marked as
      added by hand, exactly when on task 1 with an id, fewer than five
      entries, a record with that id, and no entry with it yet. */
  lemma AddUniversityLaw(s: State, id: string, env: Env)
    requires env.onboarded
    ensures var p := s.progress;
            var list := p.task1.proposedList;
            var r := Step(s, AddUniversity(id), env);
            && (r.Accepted? <==> && p.currentTask == 1 && id != "" && |list| < 5
                                 && (exists i :: 0 <= i < |env.catalog| && env.catalog[i].id == id)
                                 && id !in ListIds(list))
            && (r.Accepted? ==>
                  exists u :: && u in env.catalog && u.id == id
                              && r.state.progress == p.(task1 := p.task1.(proposedList := list + [ListEntry(u, ManuallyAdded)])))
  {
    var r := Step(s, AddUniversity(id), env);
    if r.Accepted? {
      var u := FindById(env.catalog, id).value;
      assert r.state.progress == s.progress.(task1 := s.progress.task1.(proposedList := s.progress.task1.proposedList + [ListEntry(u, ManuallyAdded)]));
    }
  }

  /** Adding by hand keeps the list free of repeated ids and within five. */
  lemma AddUniversityKeepsDistinct(s: State, id: string, env: Env)
    requires env.onboarded && DistinctIds(s.progress.task1.proposedList)
    ensures var r := Step(s, AddUniversity(id), env);
            && DistinctIds(r.state.progress.task1.proposedList)
            && (|s.progress.task1.proposedList| <= 5 ==> |r.state.progress.task1.proposedList| <= 5)
  {
    var r := Step(s, AddUniversity(id), env);
    var list := s.progress.task1.proposedList;
    if r.Accepted? {
      var out := r.state.progress.task1.proposedList;
      assert |out| == |list| + 1;
      forall i, j | 0 <= i < j < |out|
        ensures out[i].uni.id != out[j].uni.id
      {
        if j == |list| {
          assert out[i] == list[i];
          assert list[i].uni.id in ListIds(list);
        }
      }
    }
  }

  /** `remove_university` on task 1 with an id drops every entry with that id
      and keeps the others in order; an id not on the list changes nothing. */
  lemma RemoveUniversityLaw(s: State, id: string, env: Env)
    requires env.onboarded
    ensures var p := s.progress;
            var list := p.task1.proposedList;
            var r := Step(s, RemoveUniversity(id), env);
            var out := r.state.progress.task1.proposedList;
            && (r.Accepted? <==> p.currentTask == 1 && id != "")
            && (r.Accepted? ==>
                  && id !in ListIds(out)
                  && out == Filter(list, OtherThan(id))
                  && (id !in ListIds(list) ==> out == list))
  {
    var r := Step(s, RemoveUniversity(id), env);
    var list := s.progress.task1.proposedList;
    if r.Accepted? {
      var out := r.state.progress.task1.proposedList;
      if id !in ListIds(list) {
        assert forall i :: 0 <= i < |list| ==> list[i].uni.id in ListIds(list);
      }
    }
  }

  /** Removing what was just added by hand gives back the list as it was
      (the `add_university` and `remove_university` branches, one after the other). */
  lemma AddThenRemove(s: State, id: string, cat: Catalog)
    requires AddUniversityStep(s, id, cat).Accepted?
    ensures var r := RemoveUniversityStep(AddUniversityStep(s, id, cat).state, id);
            r.Accepted? && r.state.progress == s.progress
  {
    var p := s.progress;
    var list := p.task1.proposedList;
    var keep := OtherThan(id);
    var e := ListEntry(FindById(cat, id).value, ManuallyAdded);
    var added := s.(progress := p.(task1 := p.task1.(proposedList := list + [e])));
    assert AddUniversityStep(s, id, cat) == Accepted(added);
    assert Filter(list + [e], keep) == list by {
      FilterAppend(list, [e], keep);
      assert Filter([e], keep) == [];
      NoneRemoved(list, id);
    }
    assert RemoveUniversityStep(added, id) == Accepted(s);
  }

  /** Removing an id the list does not hold keeps the list. */
  lemma NoneRemoved(list: seq<ListEntry>, id: string)
    requires id !in ListIds(list)
    ensures Filter(list, OtherThan(id)) == list
  {
    forall i | 0 <= i < |list|
      ensures OtherThan(id)(list[i])
    {
      assert list[i].uni.id in ListIds(list);
    }
  }

  /** The rows created when the list is locked: rows that existed are kept as
      they were, and every new row is a locked row for a listed university
      carrying the category of its first entry. */
  lemma {:induction false} LockAllRows(links: map<string, Link>, ids: seq<string>, list: seq<ListEntry>)
    ensures var r := LockAll(links, ids, list);
            && (forall k :: k in links ==> r[k] == links[k])
            && (forall k :: k in r && k !in links ==> k in ids && r[k] == Link(Locked, CategoryOn(list, k)))
    decreases |ids|
  {
    if ids != [] {
      var next := if ids[0] in links then links else links[ids[0] := Link(Locked, CategoryOn(list, ids[0]))];
      LockAllRows(next, ids[1..], list);
    }
  }

  /** `finalize_list` freezes the list exactly when on task 1 with five
      entries: the frozen ids are the list's ids in list order, the exam task
      becomes current, and every frozen university has a row afterwards. */
  lemma FinalizeListLaw(s: State, env: Env)
    requires env.onboarded
    ensures var p := s.progress;
            var list := p.task1.proposedList;
            var r := Step(s, FinalizeList, env);
            var q := r.state.progress;
            && (r.Accepted? <==> p.currentTask == 1 && |list| == 5)
            && (r.Rejected? ==> r.error == (if p.currentTask != 1 || |list| == 0 then NoListToFinalize else NeedExactlyFive))
            && (r.Accepted? ==>
                  && q.currentTask == 2 && q.task1.finalized
                  && |q.task1.universityIds| == 5
                  && (forall i :: 0 <= i < 5 ==> q.task1.universityIds[i] == list[i].uni.id)
                  && q.task1.proposedList == list
                  && (forall k :: k in s.links ==> k in r.state.links && r.state.links[k] == s.links[k])
                  && (forall i :: 0 <= i < 5 ==> list[i].uni.id in r.state.links)
                  && (forall k :: k in r.state.links && k !in s.links ==>
                        k in ListIds(list) && r.state.links[k] == Link(Locked, CategoryOn(list, k))))
  {
    var r := Step(s, FinalizeList, env);
    if r.Accepted? {
      var list := s.progress.task1.proposedList;
      assert r.state.links == LockAll(s.links, ListIdSeq(list), list);
      FrozenLinks(s.links, list);
    }
  }

  /** The rows after locking a list: the old rows, plus a locked row for every
      listed university that had none. */
  lemma FrozenLinks(links: map<string, Link>, list: seq<ListEntry>)
    ensures var r := LockAll(links, ListIdSeq(list), list);
            && (forall k :: k in links ==> k in r && r[k] == links[k])
            && (forall i :: 0 <= i < |list| ==> list[i].uni.id in r)
            && (forall k :: k in r && k !in links ==> k in ListIds(list) && r[k] == Link(Locked, CategoryOn(list, k)))
  {
    var ids := ListIdSeq(list);
    var r := LockAll(links, ids, list);
    forall k | k in r && k !in links
      ensures k in ListIds(list)
    {
      var i :| 0 <= i < |ids| && ids[i] == k;
    }
  }

  /** Entry `i` is the first on the list with university `id`. */
  predicate FirstWithId(list: seq<ListEntry>, i: int, id: string) {
    && 0 <= i < |list| && list[i].uni.id == id
    && forall j :: 0 <= j < i ==> list[j].uni.id != id
  }

  /** The category locked for a university is that of its first entry on the
      list, as `find` returns it. */
  lemma {:induction false} CategoryOnEntry(list: seq<ListEntry>, id: string)
    requires id in ListIds(list)
    ensures exists i :: FirstWithId(list, i, id) && list[i].uni.category == CategoryOn(list, id)
  {
    if list[0].uni.id == id {
      assert FirstWithId(list, 0, id);
    } else {
      var i :| 0 <= i < |list| && list[i].uni.id == id;
      assert list[1..][i - 1] == list[i];
      assert id in ListIds(list[1..]);
      CategoryOnEntry(list[1..], id);
      var j :| FirstWithId(list[1..], j, id) && list[1..][j].uni.category == CategoryOn(list[1..], id);
      assert list[j + 1] == list[1..][j];
      forall k | 0 <= k < j + 1
        ensures list[k].uni.id != id
      {
        if k > 0 {
          assert list[k] == list[1..][k - 1];
        }
      }
      assert FirstWithId(list, j + 1, id);
    }
  }

  /** `modify_list` and `reselect_universities` unfreeze the list from task 1
      or 2: back on task 1 with no frozen ids, the exam task emptied when it
      was current, and the frozen universities' rows deleted. Only the
      reselection discards the proposed list. */
  lemma UnfreezeLaw(s: State, env: Env, reselect: bool)
    requires env.onboarded
    ensures var p := s.progress;
            var r := Step(s, if reselect then ReselectUniversities else ModifyList, env);
            var q := r.state.progress;
            && (r.Accepted? <==> p.currentTask == 1 || p.currentTask == 2)
            && (r.Accepted? ==>
                  && q.currentTask == 1 && !q.task1.finalized && q.task1.universityIds == []
                  && q.task0 == p.task0
                  && q.task2 == (if p.currentTask == 2 then EmptyTask2 else p.task2)
                  && (!reselect ==> q.task1.proposedList == p.task1.proposedList)
                  && (forall id :: id in r.state.links <==> id in s.links && id !in p.task1.universityIds))
  {
  }

  /** `set_intake` accepts exactly the years 2025..2035 and writes the year
      to the university task and, when there is one, to the profile. */
  lemma SetIntakeLaw(s: State, year: Option<int>, env: Env)
    requires env.onboarded
    ensures var r := Step(s, SetIntake(year), env);
            && (r.Accepted? <==> year.Some? && 2025 <= year.value <= 2035)
            && (r.Accepted? ==>
                  && r.state.progress == s.progress.(task1 := s.progress.task1.(intakeYear := year))
                  && r.state.profile.Some? == s.profile.Some?
                  && (r.state.profile.Some? ==> r.state.profile.value.targetIntakeYear == year))
  {
  }

  // ---------------------------------------------------------------------
  // Task 2: exam scores
  // ---------------------------------------------------------------------

  /** The exam plan `exam_score` works against: the stored one, generated first
      when the list is frozen and no plan exists yet. */
  function Planned(s: State, env: Env): (r: Record)
    ensures r == s.progress.(task2 := r.task2)
    ensures r.task2.completedScores == s.progress.task2.completedScores
    ensures r.task2.completed == s.progress.task2.completed
  {
    EnsureExamPlan(s.progress, env.catalog, s.profile, env.ai.examReply)
  }

  /** `exam_score` is refused without a profile, without required exams, and
      for an exam whose lower-cased name matches none of them; otherwise it
      stores the score under that name, replacing an earlier one. */
  lemma ExamScoreRecords(s: State, examType: string, score: real, env: Env)
    ensures var p := Planned(s, env);
            var required := p.task2.requiredExams;
            var r := ExamScoreStep(s, examType, score, env);
            && (r.Accepted? <==> && s.profile.Some? && |required| > 0
                                 && exists i :: 0 <= i < |required| && RKey(required[i]) == Lower(examType))
            && (r.Accepted? ==>
                  && r.state.progress.task2.completedScores == p.task2.completedScores[Lower(examType) := score]
                  && r.state.progress.task2.requiredExams == required
                  && r.state.progress.task2.requiredExamsPlan == p.task2.requiredExamsPlan)
            && (r.Rejected? && s.profile.Some? ==> r.state.progress == p)
  {
    var p := Planned(s, env);
    var required := p.task2.requiredExams;
    var key := Lower(examType);
    var r := ExamScoreStep(s, examType, score, env);
    if s.profile.Some? {
      var planned := s.(progress := p);
      if |required| == 0 {
        assert r == Rejected(ExamsNotPrepared, planned);
      } else if LastWithKey(required, key).None? {
        assert r == Rejected(NotRequired(examType), planned);
      } else {
        var scores := p.task2.completedScores[key := score];
        var recorded := p.(task2 := p.task2.(completedScores := scores));
        var req := LastWithKey(required, key).value;
        if BelowMinimum(req.minScore, score) {
          assert r == Accepted(planned.(progress := recorded));
        } else if AllSatisfied(required, scores) && p.currentTask == 2 {
          assert r == Accepted(planned.(progress := recorded.(currentTask := 3, task2 := recorded.task2.(completed := true))));
        } else {
          assert r == Accepted(planned.(progress := recorded));
        }
      }
    }
  }

  /** A score under the minimum of its exam never completes the exam task. */
  lemma BelowMinimumUnsatisfied(required: seq<RequiredExam>, key: string, score: real, scores: map<string, real>)
    requires LastWithKey(required, key).Some?
    requires BelowMinimum(LastWithKey(required, key).value.minScore, score)
    ensures !AllSatisfied(required, scores[key := score])
  {
    var req := LastWithKey(required, key).value;
    var i :| 0 <= i < |required| && required[i] == req;
    assert !Satisfied(required[i], scores[key := score]);
  }

  /** An accepted score completes the exam task (and moves on to task 3)
      exactly when the current task is 2 and, with the new score stored, every
      required exam has a non-zero score that meets its minimum. */
  lemma ExamScoreCompletes(s: State, examType: string, score: real, env: Env)
    requires ExamScoreStep(s, examType, score, env).Accepted?
    ensures var p := Planned(s, env);
            var q := ExamScoreStep(s, examType, score, env).state.progress;
            var done := p.currentTask == 2 && AllSatisfied(p.task2.requiredExams, q.task2.completedScores);
            && (done ==> q.currentTask == 3 && q.task2.completed)
            && (!done ==> q.currentTask == p.currentTask && q.task2.completed == p.task2.completed)
            && q.task0 == p.task0 && q.task1 == p.task1 && q.task3 == p.task3 && q.task4 == p.task4
  {
    var p := Planned(s, env);
    var key := Lower(examType);
    var req := LastWithKey(p.task2.requiredExams, key).value;
    if BelowMinimum(req.minScore, score) {
      BelowMinimumUnsatisfied(p.task2.requiredExams, key, score, p.task2.completedScores);
    }
  }

  // ---------------------------------------------------------------------
  // Tasks 3 and 4
  // ---------------------------------------------------------------------

  /** `all_docs_available` on task 3 completes it and enters task 4, creating
      one not-started document entry per frozen university when none exist. */
  lemma AllDocsAvailableLaw(s: State, env: Env)
    requires env.onboarded
    ensures var p := s.progress;
            var r := Step(s, AllDocsAvailable, env);
            var q := r.state.progress;
            && (r.Accepted? <==> p.currentTask == 3)
            && (r.Accepted? ==>
                  && q.currentTask == 4 && q.task3.completed
                  && (|p.task4.byUniversity| == 0 && |p.task1.universityIds| > 0 ==>
                        && q.task4.byUniversity == DocsFor(WithIds(env.catalog, p.task1.universityIds))
                        && q.task4.currentUniIndex == 0 && q.task4.currentDocType == Sop))
  {
  }

  /** Going back to the documents and declaring them available again gives a
      fresh set of document entries with the cursor at the start. */
  lemma ResetDocsThenAllDocs(s: State, env: Env)
    requires env.onboarded && s.progress.currentTask == 4
    ensures var back := Step(s, ResetDocs, env);
            var again := Step(back.state, AllDocsAvailable, env);
            var q := again.state.progress;
            && back.Accepted? && back.state.progress.currentTask == 3
            && !back.state.progress.task3.completed
            && again.Accepted? && q.currentTask == 4 && q.task3.completed && !q.task4.completed
            && q.task4.currentUniIndex == 0 && q.task4.currentDocType == Sop
            && (|s.progress.task1.universityIds| > 0 ==>
                  q.task4.byUniversity == DocsFor(WithIds(env.catalog, s.progress.task1.universityIds)))
  {
  }

  /** `reset_exams` on task 3 returns to task 2 with no scores recorded and
      the exam task not complete. */
  lemma ResetExamsLaw(s: State, env: Env)
    requires env.onboarded
    ensures var p := s.progress;
            var r := Step(s, ResetExams, env);
            var q := r.state.progress;
            && (r.Accepted? <==> p.currentTask == 3)
            && (r.Accepted? ==>
                  && q.currentTask == 2 && !q.task2.completed && q.task2.completedScores == map[]
                  && q.task3 == p.task3 && q.task4 == p.task4)
  {
  }

  /** The document entries after `m` steps from a fresh start: document `d`
      of entry `j` is done exactly when `3 * j + d < m`. */
  function Expected(t0: Task4, m: nat): (r: Task4)
    ensures |r.byUniversity| == |t0.byUniversity|
    ensures forall j :: 0 <= j < |r.byUniversity| ==>
              r.byUniversity[j].universityId == t0.byUniversity[j].universityId
  {
    var n := |t0.byUniversity|;
    Task4(seq(n, j requires 0 <= j < n => t0.byUniversity[j].(sop := 3 * j < m, lors := 3 * j + 1 < m, resume := 3 * j + 2 < m)),
          m / 3,
          if m % 3 == 0 then Sop else if m % 3 == 1 then Lors else Resume,
          m == 3 * n)
  }

  /** A task-4 record straight after the entries were created. */
  predicate FreshDocs(t: Task4) {
    && |t.byUniversity| > 0
    && t.currentUniIndex == 0 && t.currentDocType == Sop && !t.completed
    && forall j :: 0 <= j < |t.byUniversity| ==>
         !t.byUniversity[j].sop && !t.byUniversity[j].lors && !t.byUniversity[j].resume
  }

  lemma ExpectedStart(t0: Task4)
    requires FreshDocs(t0)
    ensures Expected(t0, 0) == t0
  {
    assert Expected(t0, 0).byUniversity == t0.byUniversity;
  }

  /** Every document is done after `m` steps exactly when `m` reaches `3n`. */
  lemma ExpectedAllDone(t0: Task4, m: nat)
    requires m <= 3 * |t0.byUniversity|
    ensures AllDocsDone(Expected(t0, m).byUniversity) <==> m == 3 * |t0.byUniversity|
  {
    var n := |t0.byUniversity|;
    var docs := Expected(t0, m).byUniversity;
    if m < 3 * n {
      var j := m / 3;
      assert 3 * j + 2 >= m;
      assert !docs[j].resume;
    }
  }

  /** One more step from the expected record after `m < 3n` steps gives the
      expected record after `m + 1`. */
  lemma ExpectedNext(t0: Task4, m: nat)
    requires m < 3 * |t0.byUniversity|
    ensures 0 <= Expected(t0, m).currentUniIndex < |Expected(t0, m).byUniversity|
    ensures NextDoc(Expected(t0, m)) == Expected(t0, m + 1)
  {
    var n := |t0.byUniversity|;
    var e := Expected(t0, m);
    var e2 := Expected(t0, m + 1);
    var r := NextDoc(e);
    var idx := m / 3;
    assert r.byUniversity == e2.byUniversity by {
      forall j | 0 <= j < n
        ensures r.byUniversity[j] == e2.byUniversity[j]
      {
        if j != idx {
          assert r.byUniversity[j] == e.byUniversity[j];
        }
      }
    }
    ExpectedAllDone(t0, m);
    ExpectedAllDone(t0, m + 1);
  }

  /** The `move_to_next_doc` branch applied `m` times; past the onboarding
      check this is what the handler does (`MoveToNextDocDispatch`). */
  function Repeat(s: State, m: nat): State {
    if m == 0 then s else MoveToNextDocStep(Repeat(s, m - 1)).state
  }

  /** For an onboarded student the handler runs the `move_to_next_doc` branch. */
  lemma MoveToNextDocDispatch(s: State, env: Env)
    requires env.onboarded
    ensures Step(s, MoveToNextDoc, env) == MoveToNextDocStep(s)
  {
  }

  /** After `m <= 3n` steps from a fresh start the record is the expected one. */
  lemma {:induction false} RepeatIsExpected(s: State, m: nat)
    requires s.progress.currentTask == 4 && FreshDocs(s.progress.task4)
    requires m <= 3 * |s.progress.task4.byUniversity|
    ensures Repeat(s, m).progress == s.progress.(task4 := Expected(s.progress.task4, m))
  {
    var t0 := s.progress.task4;
    if m == 0 {
      ExpectedStart(t0);
    } else {
      RepeatIsExpected(s, m - 1);
      ExpectedOneMore(Repeat(s, m - 1), s.progress, t0, m);
    }
  }

  /** The inductive step: one `move_to_next_doc` from the expected record
      after `m - 1` steps gives the expected record after `m`. */
  lemma ExpectedOneMore(prev: State, base: Record, t0: Task4, m: nat)
    requires base.currentTask == 4
    requires 0 < m <= 3 * |t0.byUniversity|
    requires prev.progress == base.(task4 := Expected(t0, m - 1))
    ensures MoveToNextDocStep(prev).state.progress == base.(task4 := Expected(t0, m))
  {
    ExpectedNext(t0, m - 1);
    var after := prev.(progress := base.(task4 := Expected(t0, m)));
    assert MoveToNextDocStep(prev) == Accepted(after);
  }

  /** With `n` universities, the essay stage is completed by the `3n`-th
      `move_to_next_doc` and by no earlier one. */
  lemma DocsCompleteAfterThreeEach(s: State)
    requires s.progress.currentTask == 4 && FreshDocs(s.progress.task4)
    ensures var n := |s.progress.task4.byUniversity|;
            && (forall m :: 0 <= m < 3 * n ==> !Repeat(s, m).progress.task4.completed)
            && Repeat(s, 3 * n).progress.task4.completed
            && Repeat(s, 3 * n).progress.task4.currentUniIndex == n
  {
    var n := |s.progress.task4.byUniversity|;
    forall m | 0 <= m < 3 * n
      ensures !Repeat(s, m).progress.task4.completed
    {
      RepeatIsExpected(s, m);
    }
    RepeatIsExpected(s, 3 * n);
  }

  // ---------------------------------------------------------------------
  // The record invariants
  // ---------------------------------------------------------------------

  /** Every action, accepted or not, keeps the record consistent. */
  lemma StepKeepsConsistent(s: State, a: Action, env: Env)
    requires Consistent(s.progress)
    ensures Consistent(Step(s, a, env).state.progress)
  {
    if env.onboarded {
      match a
      case ResetDocs => ResetDocsKeepsConsistent(s); assert Step(s, a, env) == ResetDocsStep(s);
      case SelectCountry(country) =>
        SelectCountryKeepsConsistent(s, country, env.catalog);
        assert Step(s, a, env) == SelectCountryStep(s, country, env.catalog);
      case FinalizeCountry => FinalizeCountryKeepsConsistent(s); assert Step(s, a, env) == FinalizeCountryStep(s);
      case MoveToNextStep => MoveToNextStepKeepsConsistent(s, env); assert Step(s, a, env) == MoveToNextStepStep(s, env);
      case ReselectCountry => ReselectCountryKeepsConsistent(s, env); assert Step(s, a, env) == ReselectCountryStep(s, env);
      case AddUniversity(id) =>
        AddUniversityKeepsConsistent(s, id, env.catalog);
        assert Step(s, a, env) == AddUniversityStep(s, id, env.catalog);
      case RemoveUniversity(id) => RemoveUniversityKeepsConsistent(s, id); assert Step(s, a, env) == RemoveUniversityStep(s, id);
      case FinalizeList => FinalizeListKeepsConsistent(s, env); assert Step(s, a, env) == FinalizeListStep(s, env);
      case ModifyList => UnfreezeKeepsConsistent(s, env, false); assert Step(s, a, env) == UnfreezeStep(s, env, false);
      case ReselectUniversities => UnfreezeKeepsConsistent(s, env, true); assert Step(s, a, env) == UnfreezeStep(s, env, true);
      case SetIntake(year) => SetIntakeKeepsConsistent(s, year); assert Step(s, a, env) == SetIntakeStep(s, year);
      case ExamDone =>
      case ExamScore(examType, score) =>
        ExamScoreKeepsConsistent(s, examType, score, env);
        assert Step(s, a, env) == ExamScoreStep(s, examType, score, env);
      case AllDocsAvailable =>
        AllDocsAvailableKeepsConsistent(s, env.catalog);
        assert Step(s, a, env) == AllDocsAvailableStep(s, env.catalog);
      case ResetExams => ResetExamsKeepsConsistent(s, env); assert Step(s, a, env) == ResetExamsStep(s, env);
      case MoveToNextDoc => MoveToNextDocKeepsConsistent(s); assert Step(s, a, env) == MoveToNextDocStep(s);
      case Unknown(_) =>
    }
  }

  lemma ResetDocsKeepsConsistent(s: State)
    requires Consistent(s.progress)
    ensures Consistent(ResetDocsStep(s).state.progress)
  {
  }

  lemma SelectCountryKeepsConsistent(s: State, country: string, cat: Catalog)
    requires Consistent(s.progress)
    ensures Consistent(SelectCountryStep(s, country, cat).state.progress)
  {
  }

  lemma FinalizeCountryKeepsConsistent(s: State)
    requires Consistent(s.progress)
    ensures Consistent(FinalizeCountryStep(s).state.progress)
  {
  }

  lemma MoveToNextStepKeepsConsistent(s: State, env: Env)
    requires Consistent(s.progress)
    ensures Consistent(MoveToNextStepStep(s, env).state.progress)
  {
  }

  lemma ReselectCountryKeepsConsistent(s: State, env: Env)
    requires Consistent(s.progress)
    ensures Consistent(ReselectCountryStep(s, env).state.progress)
  {
  }

  lemma AddUniversityKeepsConsistent(s: State, id: string, cat: Catalog)
    requires Consistent(s.progress)
    ensures Consistent(AddUniversityStep(s, id, cat).state.progress)
  {
  }

  lemma RemoveUniversityKeepsConsistent(s: State, id: string)
    requires Consistent(s.progress)
    ensures Consistent(RemoveUniversityStep(s, id).state.progress)
  {
  }

  lemma FinalizeListKeepsConsistent(s: State, env: Env)
    requires Consistent(s.progress)
    ensures Consistent(FinalizeListStep(s, env).state.progress)
  {
  }

  lemma UnfreezeKeepsConsistent(s: State, env: Env, regenerate: bool)
    requires Consistent(s.progress)
    ensures Consistent(UnfreezeStep(s, env, regenerate).state.progress)
  {
  }

  lemma SetIntakeKeepsConsistent(s: State, year: Option<int>)
    requires Consistent(s.progress)
    ensures Consistent(SetIntakeStep(s, year).state.progress)
  {
  }

  lemma ExamScoreKeepsConsistent(s: State, examType: string, score: real, env: Env)
    requires Consistent(s.progress)
    ensures Consistent(ExamScoreStep(s, examType, score, env).state.progress)
  {
  }

  lemma AllDocsAvailableKeepsConsistent(s: State, cat: Catalog)
    requires Consistent(s.progress)
    ensures Consistent(AllDocsAvailableStep(s, cat).state.progress)
  {
  }

  lemma ResetExamsKeepsConsistent(s: State, env: Env)
    requires Consistent(s.progress)
    ensures Consistent(ResetExamsStep(s, env).state.progress)
  {
  }

  lemma MoveToNextDocKeepsConsistent(s: State)
    requires Consistent(s.progress)
    ensures Consistent(MoveToNextDocStep(s).state.progress)
  {
    var p := s.progress;
    var q := MoveToNextDocStep(s).state.progress;
    if q != p {
      var t := p.task4;
      assert forall j :: 0 <= j < |t.byUniversity| && DocsDone(t.byUniversity[j]) ==> DocsDone(q.task4.byUniversity[j]);
    }
  }
}
