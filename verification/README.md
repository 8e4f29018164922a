# Study-abroad counsellor: a Dafny model of its core

The backend guides a student through five counsellor tasks, each stored in one
progress record per user:

- task 0: choosing a country;
- task 1: building and freezing a list of five universities;
- task 2: recording the scores of the exams those universities require;
- task 3: confirming the documents;
- task 4: stepping through an SOP, LORs and a résumé for every university.

This project models:

- the action handler `POST /api/counsellor/progress/action`, with its sixteen
  actions and its answer to an unknown action, its error answers and its writes to the progress record, the
  profile and the user's university links;
- the deterministic half of the three generators the handler calls:
  the proposed countries, the proposed university list and the exam plan
  with its aggregated required exams;
- the fit score, the Dream/Target/Safe classification and the fit-score
  ordering of `/api/universities/recommended`;
- the escaping of the listing's search term;
- the dashboard's profile strength, journey stages, recent tasks and task
  counts.

Modules:

- `Common`, `Text`: options, filtering and counting, JavaScript-style `trim`
  and ASCII lower-casing.
- `Catalog`, `Profiles`, `Progress`: the university records, the student
  profile and the progress record with its consistency invariant.
- `Oracle`: the three-attempt retry loop around the AI call. Each attempt's
  outcome is an input.
- `CountryGen`, `UniversityGen`, `ExamPlan`: the three generators. The AI's
  parsed answer and the random shuffle's choices are inputs.
- `Actions`: one function per action branch, and `Step`, which dispatches
  to them.
- `ActionLaws`: what each action does and when it refuses. Also covers the
  consistency invariant and the three-documents-per-university cursor.
- `Scoring`, `Search`: the recommendation ranking and the search pattern.
- `Dashboard`: the dashboard summary.

The handler's answer is `Accepted(state)` or `Rejected(error, state)`.
Every rejection leaves the state as it was, with one exception. `exam_score`
first saves a freshly generated exam plan, so its rejections can carry that
plan.

Three behaviours of the code that a reader might not expect are proved:

- The country top-up loop re-reads its bound `5 - length` after every push.
  So it adds ceil((5 - L) / 2) countries, not 5 - L, and from an empty list
  it stops at three (`CountryGen.TopUpAddsHalf`).
- `reselect_country` keeps the exam, document and essay tasks
  (`ActionLaws.ReselectCountryLaw`).
- `exam_score` is accepted at any task, but it completes the exam task only
  on task 2 (`ActionLaws.ExamScoreCompletes`).

## Model

| member | source | states |
|---|---|---|
| Oracle.RetryFrom | backend/routes/counsellor.routes.js:72-92 | At most three attempts. Every attempt before the last was a 429 or an empty reply. A reply is the parse of the last attempt's non-empty text. A stop before the third attempt without a reply is a non-429 error. The sleeps are exactly 2^j seconds after each rate-limited attempt j, in order. |
| Oracle.RetrySucceedsIff | backend/routes/counsellor.routes.js:72-92 | A reply is obtained iff, within three attempts, a non-empty reply comes after only 429s and empty replies. |
| Oracle.CallWithRetry | backend/routes/counsellor.routes.js:72-92 | The loop with `break` and back-off sleeps computes the same reply, attempt count and delays as the recursive definition. It makes between 1 and 3 attempts. |
| Catalog.FindById | backend/routes/counsellor.routes.js:937 | Finds a record iff one has the id; the record found is the first with that id. |
| Catalog.InCountry | backend/routes/counsellor.routes.js:833 | Exactly the store's records of the country: every result is one, and every one is a result. |
| Catalog.WithIds | backend/routes/counsellor.routes.js:364 | Exactly the store's records whose id is listed: every result is one, and every one is a result. |
| Profiles.Course | backend/routes/counsellor.routes.js:22 | The field of study if non-empty, else the major if non-empty, else "General Studies"; never empty. |
| Catalog.DistinctCountries | backend/routes/counsellor.routes.js:24 | Every country of the store exactly once, and no other. |
| Progress.InitialConsistent | backend/routes/counsellor.routes.js:805-806 | A freshly created progress record (task 0, everything empty) is consistent. |
| Text.Trim | backend/routes/university.routes.js:23 | The result is the input with leading and trailing whitespace removed, and it neither starts nor ends with whitespace. |
| Text.LowerFacts | backend/routes/counsellor.routes.js:1064 | Lower-casing keeps the length and maps each character in place. |
| ExamPlan.CountryOf | backend/routes/counsellor.routes.js:428-436 | A non-empty country comes from a university of that name. An empty name gives no country. |
| ExamPlan.AddItem | backend/routes/counsellor.routes.js:513-526 | One aggregation step keeps the lower-cased names distinct. |
| CountryGen.AvailableCountries | backend/routes/counsellor.routes.js:24-29 | The result is non-empty and has no repeats. For a non-empty store it is exactly the store's countries. |
| CountryGen.Shuffle | backend/routes/counsellor.routes.js:113-114 | The random-comparator sort yields a permutation of its input. |
| CountryGen.FallbackPicks | backend/routes/counsellor.routes.js:104-121 | Yields min(5, number of available countries) distinct available countries. Tier-1 countries come before all others, and an available tier-1 country is left out only when every pick is tier-1. Each carries the generic "popular for your course" reason and tuition "Varies". |
| CountryGen.TakeFallback | backend/routes/counsellor.routes.js:115-121 | The first min(5, n) combined countries, in order, each with the generic reason and tuition "Varies". |
| CountryGen.FromAi | backend/routes/counsellor.routes.js:99-104 | A usable AI answer is taken as is: one candidate per item, in order, with the item's country, reason and tuition text. |
| CountryGen.GroupsPartition | backend/routes/counsellor.routes.js:108-110 | The tier-1 group and the others together hold every available country exactly once. |
| CountryGen.KeepListed | backend/routes/counsellor.routes.js:123-135 | Keeps exactly the candidates the store has records for, each with the store's count. When every candidate is listed, nothing is dropped and the order is kept. |
| CountryGen.TopUp | backend/routes/counsellor.routes.js:137-151 | Keeps the kept list as a prefix. Appends only remaining countries, each with the "Alternative option" reason, tuition "Varies" and the store's count. |
| CountryGen.TopUpLength | backend/routes/counsellor.routes.js:139-150 | Gives the exact number of countries the loop appends, given that its bound shrinks with every push. |
| CountryGen.TopUpAddsHalf | backend/routes/counsellor.routes.js:137-151 | From L < 5 kept countries, with enough remaining, the list ends at L + ceil((5 - L) / 2). From empty it ends at three, so never at five for L <= 2. |
| CountryGen.RemainingIsNew | backend/routes/counsellor.routes.js:138-139 | The top-up candidates are available countries not already proposed. |
| CountryGen.RecommendFromStore | backend/routes/counsellor.routes.js:123-151 | With a non-empty store, every proposed country has records, and its count is the store's count. |
| CountryGen.FallbackSelected | backend/routes/counsellor.routes.js:104-135 | An unusable AI answer and at least five store countries give five listed candidates, tier-1 first, with the generic reason. A tier-1 store country is left out only when all five are tier-1. |
| CountryGen.FallbackGivesFive | backend/routes/counsellor.routes.js:104-151 | In the same situation, the final proposed list has exactly five countries, tier-1 first, with the generic reason. A tier-1 store country is missing only when all five are tier-1. |
| CountryGen.EnsureCountry | backend/routes/counsellor.routes.js:153-155 | The country generator writes only `task0.proposedCountries`. |
| UniversityGen.Pool | backend/routes/counsellor.routes.js:224-226 | A pool holds exactly the country's records of one category. |
| UniversityGen.Resolve | backend/routes/counsellor.routes.js:288-308 | Each resolved entry is, for some AI pick, the first catalog record with that pick's id, carrying that same pick's reason. It has no more entries than picks. |
| UniversityGen.ResolveAppend | backend/routes/counsellor.routes.js:288-308 | Resolution works pick by pick: resolving a joined run of picks gives the two resolutions joined. |
| UniversityGen.ResolveKeepsRepeats | backend/routes/counsellor.routes.js:289-308 | Resolution does not deduplicate: a repeated pick gives a repeated entry. |
| UniversityGen.FillFromPool | backend/routes/counsellor.routes.js:315-325 | Takes at most `count` records of the pool, each with an id not yet picked, and no id twice. |
| UniversityGen.FillFromPoolExhausts | backend/routes/counsellor.routes.js:315-325 | When the fill takes fewer than `count` records, every pool id was already picked or was taken. |
| UniversityGen.FillFromPoolTakesFirst | backend/routes/counsellor.routes.js:315-325 | Over a pool with distinct ids, the fill takes exactly the first `count` unpicked records, in pool order. |
| UniversityGen.FirstUnpicked | backend/routes/counsellor.routes.js:336 | Finds an unpicked record iff one exists; the record found comes after only picked ones in store order. |
| UniversityGen.FirstUnpickedIsHead | backend/routes/counsellor.routes.js:336 | The record found is the head of the untaken records, in store order. |
| UniversityGen.Leftover | backend/routes/counsellor.routes.js:335-341 | Adds fresh records up to five. If it stops short while the country has more records than the list, every record is already taken. |
| UniversityGen.LeftoverTakesFirst | backend/routes/counsellor.routes.js:335-341 | Over records with distinct ids, the loop appends exactly the first untaken records in store order, as many as both five and the record count allow. |
| UniversityGen.TierFill | backend/routes/counsellor.routes.js:327-333 | Adds nothing when the resolved list already has the category's quota (2/2/1); otherwise at most the shortfall, all fresh records of that category. |
| UniversityGen.TierFillTakesFirst | backend/routes/counsellor.routes.js:327-333 | Over records with distinct ids, the tier fill takes exactly the first unpicked records of the category's pool, as many as the shortfall allows. |
| UniversityGen.FillParts | backend/routes/counsellor.routes.js:312-341 | The records the failsafe appends are fresh, distinct records of the country. If the list stays short of five while records remain, every record is already on it. |
| UniversityGen.Fill | backend/routes/counsellor.routes.js:312-342 | The resolved entries stay in front. Every added entry is a new, distinct record of the country with reason "Algorithm Match" or "Fallback". |
| UniversityGen.Generate | backend/routes/counsellor.routes.js:288-344 | The generated list has at most five entries, all of them records of the country. |
| UniversityGen.ResolvedLead | backend/routes/counsellor.routes.js:288-344 | The first min(5, resolved) entries are the resolved AI picks. |
| UniversityGen.NoAiLength | backend/routes/counsellor.routes.js:311-344 | With unique ids and no usable AI pick, the list has exactly min(5, number of the country's records) distinct entries. |
| UniversityGen.NoAiCount | backend/routes/counsellor.routes.js:335-341 | Counting step: a fill that stops only at five or when every record is taken has between min(5, records) and the number of records entries. |
| UniversityGen.GenerateNonEmpty | backend/routes/counsellor.routes.js:311-344 | A country with records always gets a non-empty list. |
| UniversityGen.EnsureUniversity | backend/routes/counsellor.routes.js:199-221 | The university generator writes only `task1.proposedList`. |
| UniversityGen.EnsureUniversitySkips | backend/routes/counsellor.routes.js:199-221 | The record is left alone iff one of these holds: no finalized country, the list is frozen, the country has no records, or a list already exists. A written list holds at most five records of the selected country. |
| ExamPlan.NormalizeOne | backend/routes/counsellor.routes.js:440-492 | A kept item keeps its name and score and obeys the rules. An English test is required iff it is the entry's first. English tests are never dropped. An item is dropped exactly when it is nameless, or SAT/ACT for a non-Bachelor's degree. |
| ExamPlan.KeptObeysRules | backend/routes/counsellor.routes.js:440-492 | Every kept item comes from the entry and obeys the country and degree rules. |
| ExamPlan.KeptIsFilter | backend/routes/counsellor.routes.js:440-492 | Normalisation keeps exactly the undropped items, in order, with their names and scores. |
| ExamPlan.KeptAtMostOne | backend/routes/counsellor.routes.js:444-459 | At most one kept English test is required. |
| ExamPlan.KeptAtLeastOne | backend/routes/counsellor.routes.js:444-459 | An entry that names an English test keeps one as required. |
| ExamPlan.NormalizeEntry | backend/routes/counsellor.routes.js:435-508 | Keeps the university name. Every exam obeys the rules and is either from the entry or the added IELTS 6.5. |
| ExamPlan.ExactlyOneEnglish | backend/routes/counsellor.routes.js:435-508 | Every normalised entry has exactly one required English test. |
| ExamPlan.Aggregate | backend/routes/counsellor.routes.js:510-528 | The aggregated required exams have distinct lower-cased names. |
| ExamPlan.AggregateKeys | backend/routes/counsellor.routes.js:511-528 | There is one aggregated entry per lower-cased name of a counted (named, not optional) item, and no other. |
| ExamPlan.AggregateScores | backend/routes/counsellor.routes.js:518-526 | Each entry's minimum is the largest truthy minimum among its items, or none. |
| ExamPlan.AggregateOrder | backend/routes/counsellor.routes.js:511-528 | Entries appear in the order in which their names first occur among the counted items. |
| ExamPlan.IeltsKeepsMaximum | backend/routes/counsellor.routes.js:519-525 | IELTS 6.5 and IELTS 7.0 aggregate into one IELTS entry at 7.0. |
| ExamPlan.DefaultPlan | backend/routes/counsellor.routes.js:416-421 | The default plan is IELTS 6.5, required, for every frozen university. |
| ExamPlan.PlanFor | backend/routes/counsellor.routes.js:416-508 | Entry i is entry i of the AI's plan (when non-empty) or of the default plan, normalised for its university's country; it keeps that entry's university name. Every exam obeys the rules for its university's country. |
| ExamPlan.EnsureExamPlan | backend/routes/counsellor.routes.js:355-533 | The exam generator writes only the plan and the aggregated required exams. |
| ExamPlan.GeneratedPlanNeedsEnglish | backend/routes/counsellor.routes.js:358-531 | A freshly generated plan is non-empty, and its aggregated required exams include IELTS or TOEFL. |
| Actions.Step | backend/routes/counsellor.routes.js:798-1197 | A non-onboarded user is refused and nothing changes. Every refusal except `exam_score`'s keeps the state. `exam_done` and unknown actions are refused. |
| Actions.ResetDocsStep | backend/routes/counsellor.routes.js:809-818 | `reset_docs` is accepted iff on task 4; a refusal keeps the state. |
| Actions.SelectCountryStep | backend/routes/counsellor.routes.js:821-849 | `select_country` is accepted iff on task 0 with a non-empty country that some record lists; a refusal keeps the state. |
| Actions.FinalizeCountryStep | backend/routes/counsellor.routes.js:851-858 | `finalize_country` is accepted iff on task 0 with a selected country; a refusal keeps the state. |
| Actions.MoveToNextStepStep | backend/routes/counsellor.routes.js:860-906 | `move_to_next_step` is accepted iff the current task is 0 to 3 and done; a refusal keeps the state. |
| Actions.ReselectCountryStep | backend/routes/counsellor.routes.js:908-925 | `reselect_country` is accepted iff not on task 0; a refusal keeps the state. |
| Actions.AddUniversityStep | backend/routes/counsellor.routes.js:930-961 | `add_university` is accepted iff on task 1 with an id, fewer than five entries, the id in the catalog and not yet listed; a refusal keeps the state. |
| Actions.RemoveUniversityStep | backend/routes/counsellor.routes.js:964-972 | `remove_university` is accepted iff on task 1 with an id; a refusal keeps the state. |
| Actions.FinalizeListStep | backend/routes/counsellor.routes.js:974-1011 | `finalize_list` is accepted iff on task 1 with exactly five entries; a refusal keeps the state. |
| Actions.UnfreezeStep | backend/routes/counsellor.routes.js:1013-1047 | `modify_list` and `reselect_universities` are accepted iff on task 1 or 2; a refusal keeps the state. |
| Actions.SetIntakeStep | backend/routes/counsellor.routes.js:1049-1056 | `set_intake` is accepted iff the year is 2025 to 2035; a refusal keeps the state. |
| Actions.ExamScoreStep | backend/routes/counsellor.routes.js:1063-1120 | Without a profile `exam_score` is refused with the state unchanged. When accepted, the score is stored under the lower-cased exam type. |
| Actions.AllDocsAvailableStep | backend/routes/counsellor.routes.js:1123-1141 | `all_docs_available` is accepted iff on task 3; a refusal keeps the state. |
| Actions.ResetExamsStep | backend/routes/counsellor.routes.js:1143-1160 | `reset_exams` is accepted iff on task 3; a refusal keeps the state. |
| Actions.MoveToNextDocStep | backend/routes/counsellor.routes.js:1163-1191 | `move_to_next_doc` is refused iff not on task 4 or the cursor is negative, and a refusal keeps the state. With the cursor past the last entry it answers with the state unchanged. |
| Actions.RoundedMean | backend/routes/counsellor.routes.js:835-840 | `Math.round(sum / n)` lies within half of the exact mean. |
| Actions.AverageTuition | backend/routes/counsellor.routes.js:834-840 | "Varies" iff no record has a positive fee; otherwise the rounded mean of the positive fees. |
| Actions.WithChosen | backend/routes/counsellor.routes.js:830-844 | The selected country is proposed afterwards. An already proposed one leaves the list as it was; a new one is appended with the store's count. |
| Actions.NextDoc | backend/routes/counsellor.routes.js:1170-1184 | The cursor advances by exactly one document, and only the current document's flag is newly set. The stage is completed iff it already was or every document is done. |
| Actions.LastWithKey | backend/routes/counsellor.routes.js:1077-1078 | Finds the last required exam whose lower-cased name is the key, iff one exists. |
| Actions.Unlink | backend/routes/counsellor.routes.js:917 | `deleteMany` of the listed ids removes exactly their rows and leaves every other row as it was. |
| Actions.LockAll | backend/routes/counsellor.routes.js:990-1003 | Every listed id has a row afterwards. An existing row is kept as it was; an id without one gets a locked row with its list category. No other row appears. |
| Actions.UnlinkUndoesLock | backend/routes/counsellor.routes.js:990-1003 | Deleting the listed ids' rows after locking them gives the same rows as deleting them without locking. |
| Actions.DocsFor | backend/routes/counsellor.routes.js:1128-1135 | One entry per university, in order, with its id and name and no document done. |
| Actions.ChosenEntry | backend/routes/counsellor.routes.js:830-844 | The appended entry names the chosen country and carries the store's count of its records, also in its reason. |
| Actions.Materialize | backend/routes/counsellor.routes.js:1127-1138 | Without document entries, and with frozen ids, there is one fresh entry per frozen university, with the cursor at the first SOP. Otherwise the record is unchanged. |
| ActionLaws.MoveToNextStepGate | backend/routes/counsellor.routes.js:860-906 | `move_to_next_step` is accepted iff the current task (0 to 3) is done. It then enters the next task; otherwise it answers "cannot move" with the state unchanged. |
| ActionLaws.EnterUniversitiesKeepsCountry | backend/routes/counsellor.routes.js:860-906 | Entering task 1 keeps the country task and touches only the proposed university list of task 1. |
| ActionLaws.SelectCountryLaw | backend/routes/counsellor.routes.js:821-849 | Accepted iff on task 0 with a non-empty country the store lists. It then selects that country and keeps it proposed. The old list is kept as a prefix and grows by at most one. |
| ActionLaws.RoundedMeanUnique | backend/routes/counsellor.routes.js:840 | The rounded mean is the only integer within half of the mean. |
| ActionLaws.FinalizeCountryLaw | backend/routes/counsellor.routes.js:851-858 | Accepted iff on task 0 with a selection; it then only sets the finalized flag. |
| ActionLaws.ReselectCountryLaw | backend/routes/counsellor.routes.js:908-925 | Accepted iff not on task 0. It then goes back to task 0 with the country cleared and task 1 emptied, and keeps tasks 2 to 4. It deletes exactly the links of the frozen universities and keeps the others. |
| ActionLaws.AddUniversityLaw | backend/routes/counsellor.routes.js:930-961 | Accepted iff on task 1 with an id, a list below five, the id in the catalog and not on the list. It then appends that record as manually added. |
| ActionLaws.AddUniversityKeepsDistinct | backend/routes/counsellor.routes.js:930-961 | Adding by hand keeps the list within five and free of repeated ids. |
| ActionLaws.RemoveUniversityLaw | backend/routes/counsellor.routes.js:964-972 | Accepted iff on task 1 with an id. Every entry with that id is then dropped and the others are kept in order; an absent id changes nothing. |
| ActionLaws.AddThenRemove | backend/routes/counsellor.routes.js:930-972 | Removing a university just added by hand restores the progress record. |
| ActionLaws.LockAllRows | backend/routes/counsellor.routes.js:990-1003 | Locking keeps the existing links, and every listed id gets a locked link with its category. |
| ActionLaws.FinalizeListLaw | backend/routes/counsellor.routes.js:974-1011 | Accepted iff on task 1 with exactly five entries; otherwise it answers no-list or need-five. It then enters task 2 and freezes the five ids in list order. Old links are kept, every frozen id gets a link, and each new link is locked with its entry's category. |
| ActionLaws.CategoryOnEntry | backend/routes/counsellor.routes.js:994-997 | The category a locked link takes is that of the first list entry with that id. |
| ActionLaws.UnfreezeLaw | backend/routes/counsellor.routes.js:1013-1047 | Accepted iff on task 1 or 2. It then returns to task 1 with no frozen ids and keeps the country task. The exam task is emptied iff it was current, and exactly the frozen universities' links are deleted. `modify_list` keeps the proposed list. |
| ActionLaws.SetIntakeLaw | backend/routes/counsellor.routes.js:1049-1056 | Accepted iff the year is 2025 to 2035. It then writes the year to task 1 and, when a profile exists, to the profile, and changes nothing else in the record. |
| ActionLaws.Planned | backend/routes/counsellor.routes.js:1063-1070 | The plan step before an exam score changes only task 2, and keeps its scores and completion flag. |
| ActionLaws.ExamScoreRecords | backend/routes/counsellor.routes.js:1063-1120 | Accepted iff a profile exists, the plan has required exams and the lower-cased type is among them. The score is then stored under that key, replacing any old one, and a refusal carries the planned state. |
| ActionLaws.BelowMinimumUnsatisfied | backend/routes/counsellor.routes.js:1089-1095 | A score below its exam's truthy minimum never completes the exam task. |
| ActionLaws.ExamScoreCompletes | backend/routes/counsellor.routes.js:1096-1118 | An accepted score completes the exam task and enters task 3 iff on task 2 with every required exam satisfied. |
| ActionLaws.AllDocsAvailableLaw | backend/routes/counsellor.routes.js:1123-1141 | Accepted iff on task 3. It then completes task 3, enters task 4 and creates the document entries when there are none. |
| ActionLaws.ResetDocsThenAllDocs | backend/routes/counsellor.routes.js:809-818 | Going back to documents from task 4 and declaring them again gives fresh document entries and the cursor at the first SOP. |
| ActionLaws.ResetExamsLaw | backend/routes/counsellor.routes.js:1143-1160 | Accepted iff on task 3. It then returns to task 2 with no scores and the exam task not complete, keeping tasks 3 and 4. |
| ActionLaws.Expected | backend/routes/counsellor.routes.js:1163-1191 | After m steps from a fresh start, document d of entry j is done iff 3j + d < m, and the cursor is at university m / 3. |
| ActionLaws.RepeatIsExpected | backend/routes/counsellor.routes.js:1163-1191 | Repeating `move_to_next_doc` m times (m <= 3n) from fresh entries gives exactly that state. |
| ActionLaws.DocsCompleteAfterThreeEach | backend/routes/counsellor.routes.js:1163-1191 | With n universities, the essay stage is not complete before step 3n and is complete at step 3n, with the cursor at n. |
| ActionLaws.StepKeepsConsistent | backend/routes/counsellor.routes.js:798-1197 | Every action, accepted or refused, keeps the progress record consistent. Consistent means: the task index is 0 to 4, every earlier task is done, a finalized country is named, a frozen list has five ids, and the cursor is in range. |
| ActionLaws.MoveToNextDocKeepsConsistent | backend/routes/counsellor.routes.js:1163-1191 | The document cursor step keeps the record consistent: the cursor stays in range, and the stage is complete only when every entry is done. |
| Scoring.BudgetCap | backend/routes/university.routes.js:132-139 | Every budget range has a positive cap. |
| Scoring.CountryPoints | backend/routes/university.routes.js:116-118 | 20 points iff the university's country is preferred, otherwise 0. |
| Scoring.GpaPoints | backend/routes/university.routes.js:121-128 | 15 iff a truthy requirement is met; 5 iff the GPA is within 0.3 below it; otherwise 0. |
| Scoring.BudgetPoints | backend/routes/university.routes.js:131-143 | 15 iff a budget is given and the maximum tuition is within its cap, otherwise 0. |
| Scoring.AcceptancePoints | backend/routes/university.routes.js:146-149 | 10 above 60 % acceptance; 5 above 40 % up to 60 %; otherwise 0. |
| Scoring.FitScore | backend/routes/university.routes.js:112-152 | The fit score lies between 50 and 100. |
| Scoring.PreferringCountryAddsTwenty | backend/routes/university.routes.js:112-152 | Preferring the university's country raises its score by exactly 20, capped at 100. |
| Scoring.FitScoreGpaMonotone | backend/routes/university.routes.js:112-152 | A higher GPA never lowers the fit score. |
| Scoring.FitScoreBudgetMonotone | backend/routes/university.routes.js:112-152 | A larger budget never lowers the fit score. |
| Scoring.Classify | backend/routes/university.routes.js:82-92 | Dream iff a truthy ranking is within the top 50 and the GPA is below 3.5 or the acceptance rate below 30 % (missing counts as 50). Safe iff not Dream, the acceptance rate is above 60 % and the GPA is at most 0.3 below any truthy requirement. Target otherwise. |
| Scoring.NoAcceptanceNeverSafe | backend/routes/university.routes.js:84-90 | A university without an acceptance rate is never Safe. |
| Scoring.ClassifyGpaMonotone | backend/routes/university.routes.js:82-92 | A higher GPA never moves a university towards Dream. |
| Scoring.Insert | backend/routes/university.routes.js:102 | Insertion adds exactly the new element. |
| Scoring.InsertOrdered | backend/routes/university.routes.js:102 | Insertion keeps the list ordered by fit score, best first. |
| Scoring.SortByFit | backend/routes/university.routes.js:102 | The sort orders by fit score, best first, and is a permutation of its input. |
| Scoring.SortByFitStable | backend/routes/university.routes.js:102 | The sort is stable: the entries with any one fit score keep their input order. |
| Scoring.Annotate | backend/routes/university.routes.js:82-99 | Each queried university gets its own category and fit score, in query order. |
| Scoring.Recommended | backend/routes/university.routes.js:82-104 | The results are a permutation of the annotated universities, best fit first. |
| Scoring.RecommendedEntries | backend/routes/university.routes.js:82-104 | Each queried university appears, and each result is a queried university with its own category and score. |
| Search.EscapeChars | backend/routes/university.routes.js:23 | Escaping never shortens the text. |
| Search.UnescapeEscape | backend/routes/university.routes.js:23 | Every metacharacter is escaped: reading the pattern back gives the original text. |
| Search.EscapeUnescape | backend/routes/university.routes.js:23 | Every pattern that reads as literal text is the escaping of that text. |
| Search.EscapeInjective | backend/routes/university.routes.js:23 | Different search texts give different patterns. |
| Search.PlainTextUnchanged | backend/routes/university.routes.js:23 | Text without metacharacters is its own pattern. |
| Search.SearchPattern | backend/routes/university.routes.js:22-23 | No text filter iff the search is empty. Otherwise the pattern matches exactly the trimmed search text. |
| Dashboard.Academics | backend/routes/dashboard.routes.js:35-38 | Strong iff GPA >= 3.7; Average iff 3.0 <= GPA < 3.7; Weak iff GPA < 3.0. |
| Dashboard.ExamsSummary | backend/routes/dashboard.routes.js:41-52 | Completed iff some exam is completed. In progress iff none is completed and some is in progress. Otherwise not started. |
| Dashboard.StrongCount | backend/routes/dashboard.routes.js:58-62 | At most three strong signals. |
| Dashboard.ProfileStrength | backend/routes/dashboard.routes.js:26-67 | Without a profile, everything is Weak or not started. With one, the academic level is the GPA's (missing counts as 0), the exams summary is the profile's, and the SOP is the profile's status. Overall Strong iff at least two signals are strong; Weak iff none is. |
| Dashboard.StrengthGpaMonotone | backend/routes/dashboard.routes.js:35-66 | A higher GPA never lowers the academic or overall level. |
| Dashboard.DoneFlags | backend/routes/dashboard.routes.js:80-127 | Six flags. The first means a profile exists; the next five are the counsellor tasks' done flags. |
| Dashboard.Statuses | backend/routes/dashboard.routes.js:130-144 | There is one status per stage. |
| Dashboard.StatusesSpec | backend/routes/dashboard.routes.js:130-144 | A stage is complete iff done. It is active iff not done, no stage was active before, and every earlier stage is done. |
| Dashboard.AtMostOneActive | backend/routes/dashboard.routes.js:130-144 | At most one stage is active. |
| Dashboard.JourneyStages | backend/routes/dashboard.routes.js:78-144 | Six stages, in the fixed order. |
| Dashboard.JourneyStagesSpec | backend/routes/dashboard.routes.js:78-144 | Complete iff done; active iff the first not-done stage; pending iff not done after an earlier not-done stage. |
| Dashboard.CurrentTaskStagesComplete | backend/routes/dashboard.routes.js:78-144 | With a profile and a consistent record, every stage up to the current counsellor task is complete. |
| Dashboard.RecentTasks | backend/routes/dashboard.routes.js:147-150 | At most five recent tasks, all of them stages. |
| Dashboard.RecentTasksSpec | backend/routes/dashboard.routes.js:147-150 | The stages that are not complete come first, in order: all of them, or the first five. At most one complete stage follows, the last complete stage, and it is there whenever fewer than five are not complete and some stage is complete. |
| Dashboard.RecentTasksHead | backend/routes/dashboard.routes.js:147-150 | The recent tasks start with the first stage that is not complete. |
| Dashboard.RecentTasksLead | backend/routes/dashboard.routes.js:130-150 | When some stage is not complete, the recent tasks start with the active stage. |
| Dashboard.FirstNotDone | backend/routes/dashboard.routes.js:130-144 | Finds the first not-done stage at or before a not-done one. |
| Dashboard.TaskCounts | backend/routes/dashboard.routes.js:153-155 | completed + pending == total == number of stages. |
| Dashboard.CompletedCountIsDoneFlags | backend/routes/dashboard.routes.js:153-155 | The total is six, and the completed count is the number of set done flags. |
| Dashboard.CountMatches | backend/routes/dashboard.routes.js:154 | Counting complete stages equals counting set flags. |

## Left out

- AI calls, prompts, JSON extraction and parsing: each attempt's outcome and the parsed answer are inputs. The university and exam generators make a single attempt whose parsed answer is an input.
- `Math.random` in the shuffle: an input sequence of choices selects the permutation, and every permutation is reachable.
- Sleeps, clocks and the back-off delays' real time: the delays are returned as numbers.
- MongoDB persistence, `findOne`/`create` of a missing progress record, and concurrency between requests: the handler sees one state and returns the next.
- The `catch` blocks: a thrown error other than the missing document entry of a negative cursor (`InternalError`) is not modelled.
- The text of the answer messages and of the reasons: reasons and tuition labels are typed values.
- `toLocaleString` formatting of the average tuition: the model keeps the rounded number.
- Floating point: GPA, scores, acceptance rates and minimums are reals. A NaN exam score is not modelled, and a profile GPA that is missing or does not parse is `None`.
- The Todo side-effects of actions, the chat endpoint, the prompt builders and every other route.
- The `/recommended` store query (degree, field and budget filters): the model takes the queried universities as its input.
- Schema defaults not visible in the handler: `reselect_country` replaces task 1 with an empty one, which also clears its intake year. The progress schema file is not part of this model.
- The stored `null` versus a missing `tuitionFee.max`: both are `None`, so a university with `null` gets no budget points. In JavaScript, `null <= cap` would be true.
- Tuition fees and rankings are integers. A fractional fee or ranking in the store is not modelled.
- Lower-casing is ASCII-only. JavaScript's `toLowerCase` also folds other scripts.
- Catalog.DistinctCountries: lists the countries in order of first appearance in the store. MongoDB's `distinct` does not fix an order, so which countries CountryGen.TopUp appends when more remain than it needs is this model's choice.
- University ids are compared as plain strings. The model takes request ids to be canonical lower-case hex ObjectIds; a malformed id, which makes `findById` throw, is not modelled.
- Generated university entries keep the record's country. The query at backend/routes/counsellor.routes.js:208-209 selects name, city, ranking, fees, requirements and category but not the country; nothing in the modelled core reads the country of an entry.
