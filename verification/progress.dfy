/** The per-user counsellor progress record: the current task (0 country,
    1 universities, 2 exams, 3 documents, 4 SOP/LOR/resume) and one sub-record
    per task. The store's schema file is not part of this model; the shape
    below is the one the route handlers read and write. */
module Progress {
  import opened Common
  import opened Catalog

  /** `avgTuition` of a proposed country: the AI's text, the literal "Varies",
      or a rounded dollar average (its locale formatting is presentation). */
  datatype TuitionNote = Quoted(text: string) | Varies | Dollars(amount: int)

  /** Why a country was proposed; each non-AI case is one fixed message template. */
  datatype CountryReason =
    | Suggested(text: string)          // the AI's own reason
    | PopularFor(course: string)       // "Popular destination for <course>."
    | Alternative                      // "Alternative option."
    | ChosenByUser(programs: nat)      // "You selected this country. It has <n> universities available."

  datatype CountryEntry = CountryEntry(country: string, reason: CountryReason, avgTuition: TuitionNote, universitiesCount: nat)

  /** `selectedCountry` is the empty string when unset (`null`). */
  datatype Task0 = Task0(proposedCountries: seq<CountryEntry>, selectedCountry: string, finalized: bool)

  /** Why a university is on the proposed list. */
  datatype UniReason =
    | Picked(text: string)   // the AI's reason
    | AlgorithmMatch         // tier fill
    | Fallback               // leftover fill
    | ManuallyAdded          // add_university

  /** A proposed-list entry: a copy of the catalog record plus a reason. */
  datatype ListEntry = ListEntry(uni: University, reason: UniReason)

  datatype Task1 = Task1(proposedList: seq<ListEntry>, universityIds: seq<string>, finalized: bool, intakeYear: Option<int>)

  /** One exam of a per-university plan. `required` is `None` when the AI left it out. */
  datatype ExamItem = ExamItem(exam: string, minScore: Option<real>, required: Option<bool>, notes: string)

  datatype UniPlan = UniPlan(universityName: string, exams: seq<ExamItem>)

  /** One aggregated required exam; `minScore` is `None` for `null`. */
  datatype RequiredExam = RequiredExam(exam: string, minScore: Option<real>)

  datatype Task2 = Task2(requiredExamsPlan: seq<UniPlan>, requiredExams: seq<RequiredExam>,
                         completedScores: map<string, real>, completed: bool)

  datatype Task3 = Task3(completed: bool)

  datatype DocType = Sop | Lors | Resume

  datatype DocEntry = DocEntry(universityId: string, universityName: string, sop: bool, lors: bool, resume: bool)

  datatype Task4 = Task4(byUniversity: seq<DocEntry>, currentUniIndex: int, currentDocType: DocType, completed: bool)

  datatype Record = Record(currentTask: int, task0: Task0, task1: Task1, task2: Task2, task3: Task3, task4: Task4)

  const EmptyTask1: Task1 := Task1([], [], false, None)
  const EmptyTask2: Task2 := Task2([], [], map[], false)
  const EmptyTask4: Task4 := Task4([], 0, Sop, false)

  /** The record created lazily on first access (`currentTask: 0`, schema defaults). */
  const Initial: Record := Record(0, Task0([], "", false), EmptyTask1, EmptyTask2, Task3(false), EmptyTask4)

  /** All three documents of one university are done. */
  predicate DocsDone(e: DocEntry) {
    e.sop && e.lors && e.resume
  }

  predicate AllDocsDone(docs: seq<DocEntry>) {
    forall i :: 0 <= i < |docs| ==> DocsDone(docs[i])
  }

  /** Whether the gate out of task `k` is open: the flag `move_to_next_step` tests. */
  predicate StageDone(r: Record, k: int) {
    if k == 0 then r.task0.finalized
    else if k == 1 then r.task1.finalized
    else if k == 2 then r.task2.completed
    else if k == 3 then r.task3.completed
    else r.task4.completed
  }

  /** The invariants every reachable record keeps:
      the task is in 0..4; every task before the current one has its gate open;
      a finalized country has a selection; a finalized list froze five ids;
      the document cursor stays within the list; the essay stage is complete
      only when every entry is done. */
  predicate Consistent(r: Record) {
    && 0 <= r.currentTask <= 4
    && (r.currentTask > 0 ==> StageDone(r, 0))
    && (r.currentTask > 1 ==> StageDone(r, 1))
    && (r.currentTask > 2 ==> StageDone(r, 2))
    && (r.currentTask > 3 ==> StageDone(r, 3))
    && (r.task0.finalized ==> r.task0.selectedCountry != "")
    && (r.task1.finalized ==> |r.task1.universityIds| == 5)
    && 0 <= r.task4.currentUniIndex <= |r.task4.byUniversity|
    && (r.task4.completed ==> |r.task4.byUniversity| > 0 && AllDocsDone(r.task4.byUniversity))
  }

  lemma InitialConsistent()
    ensures Consistent(Initial)
  {
  }
}
