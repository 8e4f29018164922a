/** The derived parts of the dashboard: the profile-strength summary, the six
    journey stages with their completed/active/pending status, the recent
    tasks, and the task counts. */
module Dashboard {
  import opened Common
  import opened Profiles
  import opened Progress

  datatype Level = Weak | Average | Strong

  function LevelRank(l: Level): nat {
    match l
    case Weak => 0
    case Average => 1
    case Strong => 2
  }

  /** `profileStrength`; `exams` reuses the three exam-status values. */
  datatype Strength = Strength(academics: Level, exams: ExamStatus, sop: SopStatus, overall: Level)

  /** Academics from the parsed GPA (`parseFloat(gpa) || 0`). */
  function Academics(gpa: real): (r: Level)
    ensures r == Strong <==> gpa >= 3.7
    ensures r == Average <==> 3.0 <= gpa < 3.7
    ensures r == Weak <==> gpa < 3.0
  {
    if gpa >= 3.7 then Strong else if gpa >= 3.0 then Average else Weak
  }

  function ExamStatuses(p: Profile): (r: seq<ExamStatus>)
    ensures |r| == 4
  {
    [p.ieltsStatus, p.toeflStatus, p.greStatus, p.gmatStatus]
  }

  /** Completed when any exam is, else in progress when any is, else not started. */
  function ExamsSummary(p: Profile): (r: ExamStatus)
    ensures r == Completed <==> Completed in ExamStatuses(p)
    ensures r == InProgress <==> Completed !in ExamStatuses(p) && InProgress in ExamStatuses(p)
    ensures r == NotStarted <==> Completed !in ExamStatuses(p) && InProgress !in ExamStatuses(p)
  {
    var statuses := ExamStatuses(p);
    if Completed in statuses then Completed
    else if InProgress in statuses then InProgress
    else NotStarted
  }

  /** How many of the three strong signals hold. */
  function StrongCount(academics: Level, exams: ExamStatus, sop: SopStatus): (r: nat)
    ensures r <= 3
  {
    (if academics == Strong then 1 else 0) + (if exams == Completed then 1 else 0) + (if sop == Ready then 1 else 0)
  }

  function Overall(count: nat): (r: Level) {
    if count >= 2 then Strong else if count >= 1 then Average else Weak
  }

  /** The summary shown for the profile, or the all-weak default without one. */
  function ProfileStrength(profile: Option<Profile>): (r: Strength)
    ensures profile.None? ==> r == Strength(Weak, NotStarted, SopNotStarted, Weak)
    ensures profile.Some? ==> && r.academics == Academics(GpaOrZero(profile.value))
                              && r.exams == ExamsSummary(profile.value)
                              && r.sop == profile.value.sopStatus
    ensures r.overall == Strong <==> StrongCount(r.academics, r.exams, r.sop) >= 2
    ensures r.overall == Weak <==> StrongCount(r.academics, r.exams, r.sop) == 0
  {
    match profile
    case None => Strength(Weak, NotStarted, SopNotStarted, Weak)
    case Some(p) =>
      var academics := Academics(GpaOrZero(p));
      var exams := ExamsSummary(p);
      Strength(academics, exams, p.sopStatus, Overall(StrongCount(academics, exams, p.sopStatus)))
  }

  /** A higher GPA never lowers the academic or the overall level. */
  lemma StrengthGpaMonotone(p: Profile, lo: real, hi: real)
    requires lo <= hi
    ensures var a := ProfileStrength(Some(p.(gpa := Some(lo))));
            var b := ProfileStrength(Some(p.(gpa := Some(hi))));
            LevelRank(a.academics) <= LevelRank(b.academics) && LevelRank(a.overall) <= LevelRank(b.overall)
  {
    var a := p.(gpa := Some(lo));
    var b := p.(gpa := Some(hi));
    assert ExamStatuses(a) == ExamStatuses(b);
  }

  // ---------------------------------------------------------------------
  // Journey stages
  // ---------------------------------------------------------------------

  datatype StageKey =
    | BuildingProfile | FinalizingCountry | FinalizingUniversities
    | TakingExams | PreparingDocuments | PreparingLorsSops

  const StageKeys: seq<StageKey> :=
    [BuildingProfile, FinalizingCountry, FinalizingUniversities, TakingExams, PreparingDocuments, PreparingLorsSops]

  datatype StageStatus = Complete | Active | Pending

  datatype Stage = Stage(key: StageKey, status: StageStatus)

  /** The done flag of each stage: a profile exists, then the five counsellor
      gates (false while there is no progress record). */
  function DoneFlags(hasProfile: bool, cp: Option<Record>): (r: seq<bool>)
    ensures |r| == 6
    ensures r[0] == hasProfile
    ensures forall k :: 0 <= k < 5 ==> r[k + 1] == (cp.Some? && StageDone(cp.value, k))
  {
    match cp
    case None => [hasProfile, false, false, false, false, false]
    case Some(p) => [hasProfile, p.task0.finalized, p.task1.finalized, p.task2.completed, p.task3.completed, p.task4.completed]
  }

  /** The status of each stage in order: done stages are complete, the first
      stage not done becomes active (unless one already is), the rest pending. */
  function Statuses(done: seq<bool>, activeAssigned: bool): (r: seq<StageStatus>)
    ensures |r| == |done|
  {
    if done == [] then []
    else if done[0] then [Complete] + Statuses(done[1..], activeAssigned)
    else if !activeAssigned then [Active] + Statuses(done[1..], true)
    else [Pending] + Statuses(done[1..], activeAssigned)
  }

  /** All stages before `i` are done. */
  predicate AllDoneBefore(done: seq<bool>, i: int) {
    forall j :: 0 <= j < i && j < |done| ==> done[j]
  }

  /** The statuses against their reference: complete iff done; active iff not
      done with every earlier stage done (and none active before the list);
      pending otherwise. */
  lemma {:induction false} StatusesSpec(done: seq<bool>, activeAssigned: bool)
    ensures var r := Statuses(done, activeAssigned);
            forall i :: 0 <= i < |done| ==>
              && (r[i] == Complete <==> done[i])
              && (r[i] == Active <==> !done[i] && !activeAssigned && AllDoneBefore(done, i))
  {
    if done != [] {
      var r := Statuses(done, activeAssigned);
      var tail := done[1..];
      var next := if !done[0] then true else activeAssigned;
      StatusesSpec(tail, next);
      forall i | 0 < i < |done|
        ensures r[i] == Statuses(tail, next)[i - 1]
        ensures AllDoneBefore(done, i) <==> done[0] && AllDoneBefore(tail, i - 1)
      {
        if AllDoneBefore(done, i) {
          forall j | 0 <= j < i - 1 ensures tail[j] { assert tail[j] == done[j + 1]; }
        }
        if done[0] && AllDoneBefore(tail, i - 1) {
          forall j | 0 <= j < i ensures done[j] { if j > 0 { assert done[j] == tail[j - 1]; } }
        }
      }
    }
  }

  /** At most one stage is active. */
  lemma AtMostOneActive(done: seq<bool>)
    ensures var r := Statuses(done, false);
            forall i, j :: 0 <= i < j < |r| && r[i] == Active ==> r[j] != Active
  {
    StatusesSpec(done, false);
  }

  function JourneyStages(hasProfile: bool, cp: Option<Record>): (r: seq<Stage>)
    ensures |r| == 6
    ensures forall i :: 0 <= i < 6 ==> r[i].key == StageKeys[i]
  {
    var statuses := Statuses(DoneFlags(hasProfile, cp), false);
    seq(6, i requires 0 <= i < 6 => Stage(StageKeys[i], statuses[i]))
  }

  /** A stage of the dashboard is complete exactly when its flag is set, and
      the active one is the first whose flag is not. */
  lemma JourneyStagesSpec(hasProfile: bool, cp: Option<Record>)
    ensures var done := DoneFlags(hasProfile, cp);
            var r := JourneyStages(hasProfile, cp);
            forall i :: 0 <= i < 6 ==>
              && (r[i].status == Complete <==> done[i])
              && (r[i].status == Active <==> !done[i] && AllDoneBefore(done, i))
              && (r[i].status == Pending <==> !done[i] && !AllDoneBefore(done, i))
  {
    StatusesSpec(DoneFlags(hasProfile, cp), false);
  }

  /** For a user with a profile and a consistent record, every stage up to the
      current counsellor task is complete. */
  lemma CurrentTaskStagesComplete(cp: Record)
    requires Consistent(cp)
    ensures var r := JourneyStages(true, Some(cp));
            forall i :: 0 <= i <= cp.currentTask ==> r[i].status == Complete
  {
    StatusesSpec(DoneFlags(true, Some(cp)), false);
  }

  predicate NotComplete(s: Stage) {
    s.status != Complete
  }

  predicate IsComplete(s: Stage) {
    s.status == Complete
  }

  /** `journeyStages.filter(s => s.status !== 'completed')`. */
  function Incomplete(stages: seq<Stage>): seq<Stage> {
    if stages == [] then []
    else (if NotComplete(stages[0]) then [stages[0]] else []) + Incomplete(stages[1..])
  }

  /** `journeyStages.filter(s => s.status === 'completed')`. */
  function CompleteStages(stages: seq<Stage>): seq<Stage> {
    if stages == [] then []
    else (if IsComplete(stages[0]) then [stages[0]] else []) + CompleteStages(stages[1..])
  }

  lemma {:induction false} IncompleteFacts(stages: seq<Stage>)
    ensures forall i :: 0 <= i < |Incomplete(stages)| ==>
              NotComplete(Incomplete(stages)[i]) && Incomplete(stages)[i] in stages
  {
    if stages != [] {
      IncompleteFacts(stages[1..]);
    }
  }

  lemma {:induction false} CompleteFacts(stages: seq<Stage>)
    ensures forall i :: 0 <= i < |CompleteStages(stages)| ==>
              IsComplete(CompleteStages(stages)[i]) && CompleteStages(stages)[i] in stages
  {
    if stages != [] {
      CompleteFacts(stages[1..]);
    }
  }

  /** The stages not complete, in order, then the last complete one, at most five. */
  function RecentTasks(stages: seq<Stage>): (r: seq<Stage>)
    ensures |r| <= 5
    ensures forall i :: 0 <= i < |r| ==> r[i] in stages
  {
    var incomplete := Incomplete(stages);
    var completed := CompleteStages(stages);
    IncompleteFacts(stages);
    CompleteFacts(stages);
    var lastCompleted := if |completed| > 0 then [completed[|completed| - 1]] else [];
    var all := incomplete + lastCompleted;
    all[..Min(5, |all|)]
  }

  /** Stage `k` is the last complete one. */
  predicate LastCompleteAt(stages: seq<Stage>, k: int) {
    && 0 <= k < |stages| && IsComplete(stages[k])
    && forall j :: k < j < |stages| ==> !IsComplete(stages[j])
  }

  /** With no complete stage collected, no stage is complete. */
  lemma {:induction false} NoneComplete(stages: seq<Stage>)
    requires CompleteStages(stages) == []
    ensures forall j :: 0 <= j < |stages| ==> !IsComplete(stages[j])
  {
    if stages != [] {
      NoneComplete(stages[1..]);
      forall j | 0 < j < |stages|
        ensures !IsComplete(stages[j])
      {
        assert stages[j] == stages[1..][j - 1];
      }
    }
  }

  /** The last complete stage collected is the last complete stage. */
  lemma {:induction false} CompleteLast(stages: seq<Stage>)
    requires CompleteStages(stages) != []
    ensures var c := CompleteStages(stages);
            exists k :: LastCompleteAt(stages, k) && stages[k] == c[|c| - 1]
  {
    var c := CompleteStages(stages);
    var rest := CompleteStages(stages[1..]);
    if rest == [] {
      NoneComplete(stages[1..]);
      forall j | 0 < j < |stages|
        ensures !IsComplete(stages[j])
      {
        assert stages[j] == stages[1..][j - 1];
      }
      assert LastCompleteAt(stages, 0);
    } else {
      CompleteLast(stages[1..]);
      var k :| LastCompleteAt(stages[1..], k) && stages[1..][k] == rest[|rest| - 1];
      forall j | k + 1 < j < |stages|
        ensures !IsComplete(stages[j])
      {
        assert stages[j] == stages[1..][j - 1];
      }
      assert LastCompleteAt(stages, k + 1);
    }
  }

  lemma {:induction false} IncompleteAppend(a: seq<Stage>, b: seq<Stage>)
    ensures Incomplete(a + b) == Incomplete(a) + Incomplete(b)
  {
    if a == [] {
      assert a + b == b;
    } else {
      var h := if NotComplete(a[0]) then [a[0]] else [];
      assert Incomplete(a + b) == h + Incomplete(a[1..] + b) by {
        assert (a + b)[0] == a[0] && (a + b)[1..] == a[1..] + b;
      }
      IncompleteAppend(a[1..], b);
    }
  }

  lemma {:induction false} IncompleteKeepsAll(a: seq<Stage>)
    requires forall i :: 0 <= i < |a| ==> NotComplete(a[i])
    ensures Incomplete(a) == a
  {
    if a != [] {
      IncompleteKeepsAll(a[1..]);
      assert a == [a[0]] + a[1..];
    }
  }

  /** A prefix of a list of stages not complete, followed by at most one
      complete stage: the stages not complete are kept, and a complete stage
      can only come last. */
  lemma CutShape(inc: seq<Stage>, last: seq<Stage>, m: nat)
    requires forall i :: 0 <= i < |inc| ==> NotComplete(inc[i])
    requires |last| <= 1 && forall i :: 0 <= i < |last| ==> IsComplete(last[i])
    requires m == Min(5, |inc| + |last|)
    ensures var r := (inc + last)[..m];
            && Incomplete(r) == inc[..Min(5, |inc|)]
            && (forall i :: 0 <= i < |r| && IsComplete(r[i]) ==> i == |r| - 1 && |last| == 1 && r[i] == last[0])
  {
    var r := (inc + last)[..m];
    if m <= |inc| {
      assert r == inc[..m];
      IncompleteKeepsAll(r);
    } else {
      assert r == inc + last;
      IncompleteAppend(inc, last);
      IncompleteKeepsAll(inc);
      assert last == [last[0]];
      assert Incomplete(last) == [] by {
        assert last[1..] == [];
      }
    }
  }

  /** The recent tasks against their description: the stages not complete,
      in stage order, as many as fit in five; then, when there is room and
      some stage is complete, the last complete stage, and no other. */
  lemma RecentTasksSpec(stages: seq<Stage>)
    ensures var r := RecentTasks(stages);
            var inc := Incomplete(stages);
            && Incomplete(r) == inc[..Min(5, |inc|)]
            && (forall i :: 0 <= i < |r| && IsComplete(r[i]) ==>
                  i == |r| - 1 && exists k :: LastCompleteAt(stages, k) && r[i] == stages[k])
            && (|inc| < 5 && (exists k :: 0 <= k < |stages| && IsComplete(stages[k])) ==>
                  |r| == |inc| + 1 && IsComplete(r[|inc|]))
  {
    var inc := Incomplete(stages);
    var completed := CompleteStages(stages);
    IncompleteFacts(stages);
    CompleteFacts(stages);
    var last := if |completed| > 0 then [completed[|completed| - 1]] else [];
    CutShape(inc, last, Min(5, |inc| + |last|));
    if |completed| > 0 {
      CompleteLast(stages);
    } else {
      NoneComplete(stages);
    }
  }

  /** The first stage collected as not complete is the first such stage. */
  lemma {:induction false} IncompleteHead(stages: seq<Stage>, k: int)
    requires 0 <= k < |stages| && NotComplete(stages[k])
    requires forall j :: 0 <= j < k ==> !NotComplete(stages[j])
    ensures Incomplete(stages) != [] && Incomplete(stages)[0] == stages[k]
  {
    if k > 0 {
      IncompleteHead(stages[1..], k - 1);
    }
  }

  /** The recent tasks start with the first stage that is not complete. */
  lemma RecentTasksHead(stages: seq<Stage>, k: int)
    requires 0 <= k < |stages| && NotComplete(stages[k])
    requires forall j :: 0 <= j < k ==> !NotComplete(stages[j])
    ensures RecentTasks(stages) != [] && RecentTasks(stages)[0] == stages[k]
  {
    IncompleteHead(stages, k);
    var incomplete := Incomplete(stages);
    var completed := CompleteStages(stages);
    var lastCompleted := if |completed| > 0 then [completed[|completed| - 1]] else [];
    var all := incomplete + lastCompleted;
    assert all[0] == stages[k];
    assert RecentTasks(stages) == all[..Min(5, |all|)];
  }

  /** The recent tasks start with the active stage when some stage is not complete. */
  lemma RecentTasksLead(hasProfile: bool, cp: Option<Record>, i: int)
    requires 0 <= i < 6 && JourneyStages(hasProfile, cp)[i].status != Complete
    ensures var r := RecentTasks(JourneyStages(hasProfile, cp));
            r != [] && r[0].status == Active
  {
    var done := DoneFlags(hasProfile, cp);
    var stages := JourneyStages(hasProfile, cp);
    JourneyStagesSpec(hasProfile, cp);
    var k := FirstNotDone(done, i);
    assert stages[k].status == Active;
    assert forall j :: 0 <= j < k ==> !NotComplete(stages[j]);
    RecentTasksHead(stages, k);
  }

  /** The first stage at or before `i` whose flag is not set. */
  function FirstNotDone(done: seq<bool>, i: int): (k: int)
    requires 0 <= i < |done| && !done[i]
    ensures 0 <= k <= i && !done[k] && AllDoneBefore(done, k)
    decreases i
  {
    if AllDoneBefore(done, i) then i
    else
      var j :| 0 <= j < i && !done[j];
      FirstNotDone(done, j)
  }

  predicate IsSet(b: bool) {
    b
  }

  /** The task counts of the dashboard. */
  datatype Counts = Counts(total: nat, completed: nat, pending: nat)

  function TaskCounts(stages: seq<Stage>): (r: Counts)
    ensures r.completed + r.pending == r.total == |stages|
  {
    var completed := Count(stages, IsComplete);
    Counts(|stages|, completed, |stages| - completed)
  }

  /** The completed count is the number of stages whose flag is set. */
  lemma CompletedCountIsDoneFlags(hasProfile: bool, cp: Option<Record>)
    ensures TaskCounts(JourneyStages(hasProfile, cp)).total == 6
    ensures TaskCounts(JourneyStages(hasProfile, cp)).completed == Count(DoneFlags(hasProfile, cp), IsSet)
  {
    var stages := JourneyStages(hasProfile, cp);
    var done := DoneFlags(hasProfile, cp);
    JourneyStagesSpec(hasProfile, cp);
    CountMatches(stages, done, 0);
  }

  /** Counting complete stages from `i` on equals counting set flags from `i` on. */
  lemma {:induction false} CountMatches(stages: seq<Stage>, done: seq<bool>, i: nat)
    requires |stages| == |done| && i <= |done|
    requires forall k :: 0 <= k < |done| ==> (stages[k].status == Complete <==> done[k])
    ensures Count(stages[i..], IsComplete) == Count(done[i..], IsSet)
    decreases |done| - i
  {
    if i < |done| {
      CountMatches(stages, done, i + 1);
      assert stages[i..][1..] == stages[i + 1..];
      assert done[i..][1..] == done[i + 1..];
    }
  }
}
