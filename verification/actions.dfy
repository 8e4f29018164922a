/** The counsellor's action endpoint: one request applies one named action to
    the user's progress record, the student profile and the user's university
    associations, or rejects it with the handler's error. The generators the
    actions trigger (countries, universities, exam plan) are the ones of the
    CountryGen, UniversityGen and ExamPlan modules, fed with a scripted AI. */
module Actions {
  import opened Common
  import opened Text
  import opened Catalog
  import opened Profiles
  import opened Progress
  import opened Oracle
  import opened CountryGen
  import opened UniversityGen
  import opened ExamPlan

  datatype LinkStatus = Shortlisted | Locked

  /** One user–university association row. The store keeps at most one row
      per (user, university), so the user's rows form a map keyed by id. */
  datatype Link = Link(status: LinkStatus, category: Category)

  /** Everything an action reads and writes for one user. */
  datatype State = State(progress: Record, profile: Option<Profile>, links: map<string, Link>)

  /** What the AI answers to each generation an action may trigger. */
  datatype AiScript = AiScript(
    countryCalls: seq<CallOutcome<Option<seq<CountryPick>>>>,
    preferredChoices: seq<nat>,
    otherChoices: seq<nat>,
    universityReply: Option<seq<UniPick>>,
    examReply: Option<seq<UniPlan>>)

  /** The world outside the user's state: the onboarding flag of the account,
      the catalog, and the AI. */
  datatype Env = Env(onboarded: bool, catalog: Catalog, ai: AiScript)

  /** The `action` field of the request, with the body fields each one reads.
      A missing text field is the empty string; `SetIntake` carries the
      result of `parseInt` (`None` for NaN). */
  datatype Action =
    | ResetDocs
    | SelectCountry(country: string)
    | FinalizeCountry
    | MoveToNextStep
    | ReselectCountry
    | AddUniversity(universityId: string)
    | RemoveUniversity(universityId: string)
    | FinalizeList
    | ModifyList
    | ReselectUniversities
    | SetIntake(year: Option<int>)
    | ExamDone
    | ExamScore(examType: string, score: real)
    | AllDocsAvailable
    | ResetExams
    | MoveToNextDoc
    | Unknown(name: string)

  /** One case per error message of the handler. `NotOnboarded` is the 403,
      `UniversityNotFound` the 404, `InternalError` the 500 of the catch
      block; every other case is a 400. */
  datatype Error =
    | NotOnboarded
    | OnlyFromTask4
    | NotOnTask(task: int)
    | CountryRequired
    | CountryNotFound(country: string)
    | SelectCountryFirst
    | CannotMoveNext
    | AlreadyOnTask0
    | UniversityIdRequired
    | ListFull
    | UniversityNotFound
    | AlreadyInList
    | NoListToFinalize
    | NeedExactlyFive
    | ModifyOnlyFromTask1Or2
    | InvalidYear
    | UseExamScore
    | ProfileNotFound
    | ExamsNotPrepared
    | NotRequired(examType: string)
    | OnlyFromTask3
    | InternalError
    | UnknownAction

  /** The state after the request: what was saved, whether or not the answer is an error. */
  datatype Response = Accepted(state: State) | Rejected(error: Error, state: State)

  // ---------------------------------------------------------------------
  // Helpers shared by several actions
  // ---------------------------------------------------------------------

  /** The association rows left after deleting those of the listed universities. */
  function Unlink(links: map<string, Link>, ids: seq<string>): (r: map<string, Link>)
    ensures forall k :: k in r <==> k in links && k !in ids
    ensures forall k :: k in r ==> r[k] == links[k]
  {
    map k | k in links && k !in ids :: links[k]
  }

  /** The category recorded for a university when the list is locked: that of
      its first entry on the list, `Target` if it has none. */
  function CategoryOn(list: seq<ListEntry>, id: string): Category {
    if list == [] then Target
    else if list[0].uni.id == id then list[0].uni.category
    else CategoryOn(list[1..], id)
  }

  /** Creates a locked row for every listed university that has no row yet,
      in list order; existing rows (shortlisted or locked) are left as they are. */
  function LockAll(links: map<string, Link>, ids: seq<string>, list: seq<ListEntry>): (r: map<string, Link>)
    ensures forall k :: k in r <==> k in links || k in ids
    ensures forall k :: k in links ==> r[k] == links[k]
    ensures forall k :: k !in links && k in ids ==> r[k] == Link(Locked, CategoryOn(list, k))
    decreases |ids|
  {
    if ids == [] then links
    else
      var next := if ids[0] in links then links else links[ids[0] := Link(Locked, CategoryOn(list, ids[0]))];
      LockAll(next, ids[1..], list)
  }

  /** Deleting the rows of the listed universities undoes locking them: the
      rows of every other university are exactly as before. */
  lemma UnlinkUndoesLock(links: map<string, Link>, ids: seq<string>, list: seq<ListEntry>)
    ensures Unlink(LockAll(links, ids, list), ids) == Unlink(links, ids)
  {
  }

  /** The proposed list's ids, in list order. */
  function ListIdSeq(list: seq<ListEntry>): (r: seq<string>)
    ensures |r| == |list|
    ensures forall i :: 0 <= i < |list| ==> r[i] == list[i].uni.id
  {
    seq(|list|, i requires 0 <= i < |list| => list[i].uni.id)
  }

  /** One not-yet-started document entry per university. */
  function DocsFor(unis: seq<University>): (r: seq<DocEntry>)
    ensures |r| == |unis|
    ensures forall i :: 0 <= i < |r| ==> r[i].universityId == unis[i].id && r[i].universityName == unis[i].name
    ensures forall i :: 0 <= i < |r| ==> !r[i].sop && !r[i].lors && !r[i].resume
  {
    seq(|unis|, i requires 0 <= i < |unis| => DocEntry(unis[i].id, unis[i].name, false, false, false))
  }

  /** On entering task 4: when there are no document entries yet but the list
      was frozen, one entry per frozen university (store order), cursor at the
      first university's SOP. */
  function Materialize(p: Record, cat: Catalog): (r: Record)
    ensures r == p.(task4 := r.task4)
    ensures r.task4.completed == p.task4.completed
    ensures |p.task4.byUniversity| > 0 || |p.task1.universityIds| == 0 ==> r == p
    ensures |p.task4.byUniversity| == 0 && |p.task1.universityIds| > 0 ==>
              r.task4.byUniversity == DocsFor(WithIds(cat, p.task1.universityIds))
              && r.task4.currentUniIndex == 0 && r.task4.currentDocType == Sop
  {
    if |p.task4.byUniversity| == 0 && |p.task1.universityIds| > 0 then
      p.(task4 := p.task4.(byUniversity := DocsFor(WithIds(cat, p.task1.universityIds)),
                           currentUniIndex := 0, currentDocType := Sop))
    else p
  }

  // ---------------------------------------------------------------------
  // select_country: the entry added for a country the user picked
  // ---------------------------------------------------------------------

  /** `tuitionFee.max || tuitionFee.min || 0`. */
  function FeeOf(u: University): int {
    if u.tuitionFee.max.Some? && u.tuitionFee.max.value != 0 then u.tuitionFee.max.value
    else if u.tuitionFee.min.Some? && u.tuitionFee.min.value != 0 then u.tuitionFee.min.value
    else 0
  }

  /** The positive fees of the universities, in order. */
  function Fees(unis: seq<University>): (r: seq<int>)
    ensures forall i :: 0 <= i < |r| ==> r[i] > 0
  {
    Filter(seq(|unis|, i requires 0 <= i < |unis| => FeeOf(unis[i])), (t: int) => t > 0)
  }

  function Sum(xs: seq<int>): int {
    if xs == [] then 0 else xs[0] + Sum(xs[1..])
  }

  /** `Math.round(sum / n)`: the integer nearest to the mean, halves rounded up. */
  function RoundedMean(sum: int, n: int): (r: int)
    requires n > 0
    ensures 2 * sum - n < 2 * n * r <= 2 * sum + n
  {
    var q := (2 * sum + n) / (2 * n);
    var m := (2 * sum + n) % (2 * n);
    assert 2 * n * q + m == 2 * sum + n;
    q
  }

  /** The average tuition shown for a chosen country: the rounded mean of the
      positive fees, or "Varies" when there is none. */
  function AverageTuition(unis: seq<University>): (r: TuitionNote)
    ensures r.Varies? <==> Fees(unis) == []
    ensures r.Dollars? ==> var fs := Fees(unis);
              2 * Sum(fs) - |fs| < 2 * |fs| * r.amount <= 2 * Sum(fs) + |fs|
  {
    var fs := Fees(unis);
    if fs == [] then Varies else Dollars(RoundedMean(Sum(fs), |fs|))
  }

  /** The entry appended when the user picks a country that is not proposed. */
  function ChosenEntry(cat: Catalog, country: string): (r: CountryEntry)
    ensures r.country == country
    ensures r.universitiesCount == CountryCount(cat, country)
    ensures r.reason == ChosenByUser(CountryCount(cat, country))
  {
    var unis := InCountry(cat, country);
    CountryEntry(country, ChosenByUser(|unis|), AverageTuition(unis), |unis|)
  }

  predicate Proposes(proposed: seq<CountryEntry>, country: string) {
    exists i :: 0 <= i < |proposed| && proposed[i].country == country
  }

  function WithChosen(proposed: seq<CountryEntry>, country: string, cat: Catalog): (r: seq<CountryEntry>)
    ensures Proposes(r, country)
    ensures Proposes(proposed, country) ==> r == proposed
    ensures !Proposes(proposed, country) ==> r == proposed + [ChosenEntry(cat, country)]
  {
    if Proposes(proposed, country) then proposed
    else
      var r := proposed + [ChosenEntry(cat, country)];
      assert r[|proposed|].country == country;
      r
  }

  // ---------------------------------------------------------------------
  // move_to_next_doc: the document cursor
  // ---------------------------------------------------------------------

  function DocOrdinal(d: DocType): nat {
    match d
    case Sop => 0
    case Lors => 1
    case Resume => 2
  }

  /** How many documents lie before the cursor: three per finished university
      plus the position within the current one. */
  function CursorPos(t: Task4): int {
    3 * t.currentUniIndex + DocOrdinal(t.currentDocType)
  }

  /** Whether document `d` of entry `e` is done. */
  function DocDone(e: DocEntry, d: DocType): bool {
    match d
    case Sop => e.sop
    case Lors => e.lors
    case Resume => e.resume
  }

  /** Marks the document under the cursor as done and advances the cursor to
      the next document; the stage is complete once every entry is done. */
  function NextDoc(t: Task4): (r: Task4)
    requires 0 <= t.currentUniIndex < |t.byUniversity|
    ensures CursorPos(r) == CursorPos(t) + 1
    ensures 0 <= r.currentUniIndex <= |r.byUniversity| == |t.byUniversity|
    ensures DocDone(r.byUniversity[t.currentUniIndex], t.currentDocType)
    ensures forall j, d :: 0 <= j < |t.byUniversity| && DocDone(t.byUniversity[j], d)
              ==> DocDone(r.byUniversity[j], d)
    ensures forall j, d :: 0 <= j < |t.byUniversity| && DocDone(r.byUniversity[j], d)
              ==> DocDone(t.byUniversity[j], d) || (j == t.currentUniIndex && d == t.currentDocType)
    ensures forall j :: 0 <= j < |t.byUniversity| ==>
              r.byUniversity[j].universityId == t.byUniversity[j].universityId
              && r.byUniversity[j].universityName == t.byUniversity[j].universityName
    ensures r.completed <==> t.completed || AllDocsDone(r.byUniversity)
  {
    var idx := t.currentUniIndex;
    var e := t.byUniversity[idx];
    match t.currentDocType
    case Sop =>
      var docs := t.byUniversity[idx := e.(sop := true)];
      Task4(docs, idx, Lors, t.completed || AllDocsDone(docs))
    case Lors =>
      var docs := t.byUniversity[idx := e.(lors := true)];
      Task4(docs, idx, Resume, t.completed || AllDocsDone(docs))
    case Resume =>
      var docs := t.byUniversity[idx := e.(resume := true)];
      Task4(docs, idx + 1, Sop, t.completed || AllDocsDone(docs))
  }

  // ---------------------------------------------------------------------
  // exam_score: the completion check
  // ---------------------------------------------------------------------

  /** The entry the score is checked against: the last required exam whose
      lower-cased name is `key` (later entries overwrite earlier ones in the map). */
  function LastWithKey(required: seq<RequiredExam>, key: string): (r: Option<RequiredExam>)
    ensures r.Some? <==> exists i :: 0 <= i < |required| && RKey(required[i]) == key
    ensures r.Some? ==> RKey(r.value) == key
    ensures r.Some? ==> exists i :: (0 <= i < |required| && required[i] == r.value
                                     && forall j :: i < j < |required| ==> RKey(required[j]) != key)
  {
    if required == [] then None
    else
      var last := required[|required| - 1];
      if RKey(last) == key then Some(last)
      else
        var r := LastWithKey(required[..|required| - 1], key);
        assert r.Some? ==> exists i :: (0 <= i < |required| - 1 && required[i] == r.value
                                        && forall j :: i < j < |required| ==> RKey(required[j]) != key);
        r
  }

  /** A score falls short of a minimum only when the minimum is truthy. */
  predicate BelowMinimum(minScore: Option<real>, score: real) {
    Truthy(minScore) && score < minScore.value
  }

  /** A required exam is satisfied by a truthy recorded score that is not
      below its minimum. */
  predicate Satisfied(req: RequiredExam, scores: map<string, real>) {
    var key := RKey(req);
    key in scores && scores[key] != 0.0 && !BelowMinimum(req.minScore, scores[key])
  }

  predicate AllSatisfied(required: seq<RequiredExam>, scores: map<string, real>) {
    forall i :: 0 <= i < |required| ==> Satisfied(required[i], scores)
  }

  /** The entries `remove_university` keeps: those with another id. */
  function OtherThan(id: string): ListEntry -> bool {
    (e: ListEntry) => e.uni.id != id
  }

  /** The one year check of `set_intake`: a number, non-zero, within 2025..2035. */
  predicate ValidYear(year: Option<int>) {
    year.Some? && year.value != 0 && 2025 <= year.value <= 2035
  }

  // ---------------------------------------------------------------------
  // The actions
  // ---------------------------------------------------------------------

  function ResetDocsStep(s: State): (r: Response)
    ensures r.Accepted? <==> s.progress.currentTask == 4
    ensures r.Rejected? ==> r.state == s
  {
    var p := s.progress;
    if p.currentTask != 4 then Rejected(OnlyFromTask4, s)
    else Accepted(s.(progress := p.(currentTask := 3, task3 := Task3(false), task4 := EmptyTask4)))
  }

  function SelectCountryStep(s: State, country: string, cat: Catalog): (r: Response)
    ensures r.Accepted? <==> s.progress.currentTask == 0 && country != "" && CountryCount(cat, country) > 0
    ensures r.Rejected? ==> r.state == s
  {
    var p := s.progress;
    if p.currentTask != 0 then Rejected(NotOnTask(0), s)
    else if country == "" then Rejected(CountryRequired, s)
    else if CountryCount(cat, country) == 0 then Rejected(CountryNotFound(country), s)
    else
      var proposed := WithChosen(p.task0.proposedCountries, country, cat);
      Accepted(s.(progress := p.(task0 := p.task0.(proposedCountries := proposed, selectedCountry := country))))
  }

  function FinalizeCountryStep(s: State): (r: Response)
    ensures r.Accepted? <==> s.progress.currentTask == 0 && s.progress.task0.selectedCountry != ""
    ensures r.Rejected? ==> r.state == s
  {
    var p := s.progress;
    if p.currentTask != 0 then Rejected(NotOnTask(0), s)
    else if p.task0.selectedCountry == "" then Rejected(SelectCountryFirst, s)
    else Accepted(s.(progress := p.(task0 := p.task0.(finalized := true))))
  }

  /** Leaves the current task when its gate is open; entering a task runs that
      task's generator (universities, exam plan) or creates the document entries. */
  function MoveToNextStepStep(s: State, env: Env): (r: Response)
    ensures r.Accepted? <==> 0 <= s.progress.currentTask <= 3 && StageDone(s.progress, s.progress.currentTask)
    ensures r.Rejected? ==> r.state == s
  {
    var p := s.progress;
    if p.currentTask == 0 && p.task0.finalized then
      Accepted(s.(progress := EnsureUniversity(p.(currentTask := 1), env.catalog, env.ai.universityReply)))
    else if p.currentTask == 1 && p.task1.finalized then
      Accepted(s.(progress := EnsureExamPlan(p.(currentTask := 2), env.catalog, s.profile, env.ai.examReply)))
    else if p.currentTask == 2 && p.task2.completed then
      Accepted(s.(progress := p.(currentTask := 3)))
    else if p.currentTask == 3 && p.task3.completed then
      Accepted(s.(progress := Materialize(p.(currentTask := 4), env.catalog)))
    else Rejected(CannotMoveNext, s)
  }

  /** Back to task 0: clears the country and university tasks (the later tasks
      keep their data), deletes the frozen universities' rows, and regenerates
      the proposed countries. */
  function ReselectCountryStep(s: State, env: Env): (r: Response)
    ensures r.Accepted? <==> s.progress.currentTask != 0
    ensures r.Rejected? ==> r.state == s
  {
    var p := s.progress;
    if p.currentTask == 0 then Rejected(AlreadyOnTask0, s)
    else
      var cleared := p.(currentTask := 0, task0 := Task0([], "", false), task1 := EmptyTask1);
      var ai := env.ai;
      var regenerated := EnsureCountry(cleared, env.catalog, s.profile, ai.countryCalls, ai.preferredChoices, ai.otherChoices);
      Accepted(State(regenerated, s.profile, Unlink(s.links, p.task1.universityIds)))
  }

  function AddUniversityStep(s: State, id: string, cat: Catalog): (r: Response)
    ensures r.Accepted? <==> && s.progress.currentTask == 1 && id != ""
                             && |s.progress.task1.proposedList| < ListSize
                             && FindById(cat, id).Some? && id !in ListIds(s.progress.task1.proposedList)
    ensures r.Rejected? ==> r.state == s
  {
    var p := s.progress;
    var list := p.task1.proposedList;
    if p.currentTask != 1 then Rejected(NotOnTask(1), s)
    else if id == "" then Rejected(UniversityIdRequired, s)
    else if |list| >= ListSize then Rejected(ListFull, s)
    else match FindById(cat, id)
      case None => Rejected(UniversityNotFound, s)
      case Some(u) =>
        if id in ListIds(list) then Rejected(AlreadyInList, s)
        else Accepted(s.(progress := p.(task1 := p.task1.(proposedList := list + [ListEntry(u, ManuallyAdded)]))))
  }

  function RemoveUniversityStep(s: State, id: string): (r: Response)
    ensures r.Accepted? <==> s.progress.currentTask == 1 && id != ""
    ensures r.Rejected? ==> r.state == s
  {
    var p := s.progress;
    if p.currentTask != 1 then Rejected(NotOnTask(1), s)
    else if id == "" then Rejected(UniversityIdRequired, s)
    else
      var kept := Filter(p.task1.proposedList, OtherThan(id));
      Accepted(s.(progress := p.(task1 := p.task1.(proposedList := kept))))
  }

  /** Freezes a list of exactly five, moves to task 2, generates the exam plan,
      and locks a row for every frozen university that has none. */
  function FinalizeListStep(s: State, env: Env): (r: Response)
    ensures r.Accepted? <==> s.progress.currentTask == 1 && |s.progress.task1.proposedList| == ListSize
    ensures r.Rejected? ==> r.state == s
  {
    var p := s.progress;
    var list := p.task1.proposedList;
    if p.currentTask != 1 || |list| == 0 then Rejected(NoListToFinalize, s)
    else if |list| != ListSize then Rejected(NeedExactlyFive, s)
    else
      var ids := ListIdSeq(list);
      var frozen := p.(currentTask := 2, task1 := p.task1.(universityIds := ids, finalized := true));
      Accepted(State(EnsureExamPlan(frozen, env.catalog, s.profile, env.ai.examReply), s.profile,
                     LockAll(s.links, ids, list)))
  }

  /** `modify_list` (`regenerate` false) and `reselect_universities` (true):
      unfreeze the list from task 1 or 2, dropping the exam task when at 2. */
  function UnfreezeStep(s: State, env: Env, regenerate: bool): (r: Response)
    ensures r.Accepted? <==> s.progress.currentTask == 1 || s.progress.currentTask == 2
    ensures r.Rejected? ==> r.state == s
  {
    var p := s.progress;
    if p.currentTask != 1 && p.currentTask != 2 then Rejected(ModifyOnlyFromTask1Or2, s)
    else
      var p1 := if p.currentTask == 2 then p.(task2 := EmptyTask2) else p;
      var p2 := p1.(currentTask := 1, task1 := p1.task1.(finalized := false, universityIds := []));
      var p3 := if regenerate
                then EnsureUniversity(p2.(task1 := p2.task1.(proposedList := [])), env.catalog, env.ai.universityReply)
                else p2;
      Accepted(State(p3, s.profile, Unlink(s.links, p.task1.universityIds)))
  }

  function SetIntakeStep(s: State, year: Option<int>): (r: Response)
    ensures r.Accepted? <==> ValidYear(year)
    ensures r.Rejected? ==> r.state == s
  {
    if !ValidYear(year) then Rejected(InvalidYear, s)
    else
      var p := s.progress;
      var profile := if s.profile.Some? then Some(s.profile.value.(targetIntakeYear := year)) else None;
      Accepted(State(p.(task1 := p.task1.(intakeYear := year)), profile, s.links))
  }

  /** Records one exam score under its lower-cased name, after making sure the
      exam plan exists; when every required exam is satisfied while on task 2,
      completes the exam task. */
  function ExamScoreStep(s: State, examType: string, score: real, env: Env): (r: Response)
    ensures s.profile.None? ==> r == Rejected(ProfileNotFound, s)
    ensures r.Accepted? ==> var scores := r.state.progress.task2.completedScores;
                            Lower(examType) in scores && scores[Lower(examType)] == score
  {
    var key := Lower(examType);
    if s.profile.None? then Rejected(ProfileNotFound, s)
    else
      var p := EnsureExamPlan(s.progress, env.catalog, s.profile, env.ai.examReply);
      var planned := s.(progress := p);
      var required := p.task2.requiredExams;
      if |required| == 0 then Rejected(ExamsNotPrepared, planned)
      else match LastWithKey(required, key)
        case None => Rejected(NotRequired(examType), planned)
        case Some(req) =>
          var scores := p.task2.completedScores[key := score];
          var recorded := p.(task2 := p.task2.(completedScores := scores));
          if BelowMinimum(req.minScore, score) then Accepted(planned.(progress := recorded))
          else if AllSatisfied(required, scores) && p.currentTask == 2 then
            Accepted(planned.(progress := recorded.(currentTask := 3, task2 := recorded.task2.(completed := true))))
          else Accepted(planned.(progress := recorded))
  }

  function AllDocsAvailableStep(s: State, cat: Catalog): (r: Response)
    ensures r.Accepted? <==> s.progress.currentTask == 3
    ensures r.Rejected? ==> r.state == s
  {
    var p := s.progress;
    if p.currentTask != 3 then Rejected(NotOnTask(3), s)
    else Accepted(s.(progress := Materialize(p.(currentTask := 4, task3 := Task3(true)), cat)))
  }

  /** Back to task 2 with an empty exam task and a regenerated plan (the
      documents flag of task 3 is kept). */
  function ResetExamsStep(s: State, env: Env): (r: Response)
    ensures r.Accepted? <==> s.progress.currentTask == 3
    ensures r.Rejected? ==> r.state == s
  {
    var p := s.progress;
    if p.currentTask != 3 then Rejected(OnlyFromTask3, s)
    else Accepted(s.(progress := EnsureExamPlan(p.(currentTask := 2, task2 := EmptyTask2), env.catalog, s.profile, env.ai.examReply)))
  }

  /** A cursor past the last entry answers with the unchanged record; a
      negative one makes the handler fail on the missing entry. */
  function MoveToNextDocStep(s: State): (r: Response)
    ensures r.Rejected? <==> s.progress.currentTask != 4 || s.progress.task4.currentUniIndex < 0
    ensures s.progress.currentTask == 4 && s.progress.task4.currentUniIndex >= |s.progress.task4.byUniversity|
            ==> r == Accepted(s)
    ensures r.Rejected? ==> r.state == s
  {
    var p := s.progress;
    var t := p.task4;
    if p.currentTask != 4 then Rejected(NotOnTask(4), s)
    else if t.currentUniIndex >= |t.byUniversity| then Accepted(s)
    else if t.currentUniIndex < 0 then Rejected(InternalError, s)
    else Accepted(s.(progress := p.(task4 := NextDoc(t))))
  }

  /** The handler: the onboarding check, then the branch of the named action. */
  function Step(s: State, a: Action, env: Env): (r: Response)
    ensures !env.onboarded ==> r == Rejected(NotOnboarded, s)
    ensures r.Rejected? && !a.ExamScore? ==> r.state == s
    ensures a.ExamDone? || a.Unknown? ==> r.Rejected?
  {
    if !env.onboarded then Rejected(NotOnboarded, s)
    else match a
      case ResetDocs => ResetDocsStep(s)
      case SelectCountry(country) => SelectCountryStep(s, country, env.catalog)
      case FinalizeCountry => FinalizeCountryStep(s)
      case MoveToNextStep => MoveToNextStepStep(s, env)
      case ReselectCountry => ReselectCountryStep(s, env)
      case AddUniversity(id) => AddUniversityStep(s, id, env.catalog)
      case RemoveUniversity(id) => RemoveUniversityStep(s, id)
      case FinalizeList => FinalizeListStep(s, env)
      case ModifyList => UnfreezeStep(s, env, false)
      case ReselectUniversities => UnfreezeStep(s, env, true)
      case SetIntake(year) => SetIntakeStep(s, year)
      case ExamDone => Rejected(UseExamScore, s)
      case ExamScore(examType, score) => ExamScoreStep(s, examType, score, env)
      case AllDocsAvailable => AllDocsAvailableStep(s, env.catalog)
      case ResetExams => ResetExamsStep(s, env)
      case MoveToNextDoc => MoveToNextDocStep(s)
      case Unknown(_) => Rejected(UnknownAction, s)
  }
}
