# Intern project auto-allocation, modelled in Dafny

This project models the auto-allocation engine of an intern/project management
web application. The engine is the `POST` handler of the allocate API route.
One allocation run does the following:

- It lists the projects whose `assigned` column is null, then every user whose role is `intern`. If either read fails, the run answers status 500 with a fixed message and writes nothing.
- It takes the listed projects in order. For each one it reads the required skills from `project_skills` and skips the project if that read fails.
- For each project it scores every intern. An intern whose `intern_skills` read fails is passed over. The score sums, over the project's required-skill rows, the rating of the first rating row for that skill. A missing row or a null rating counts 0.
- An intern is eligible when `goal_hours` is truthy and at least `estimated_hours`. The running best starts at score -1 and is replaced only by an eligible intern with a strictly greater score, so ties go to the earliest intern.
- If there is a best intern, the run inserts an `intern_projects` row `(intern, project, completed = false)` and sets the project's `assigned` flag to true.
- It answers `{ success: true }`.

Files:

- `wrappers.dfy` holds `Option`.
- `scoring.dfy` holds the rating lookup (`find` semantics), the score function, the scoring loop and their lemmas.
- `selection.dfy` holds the capacity test and the running-best fold. It proves the fold computes the first arg-max.
- `tables.dfy` holds the table rows, the filtered selects, the flag update, the no-double-assignment invariant, and the `Database` class whose two write methods change its tables in place.
- `allocation.dfy` holds the run. Read failures are a `Faults` parameter. The imperative `Allocate`/`AllocateAll`/`AllocateProject`/`BestMatch` methods are proved against the specification functions `Decide`, `Writes` and `MatchedIds`. The run-level properties are lemmas about those functions, plus three worked scenarios.

## Model

| member | source | states |
|---|---|---|
| Scoring.RatingOf | src/app/api/allocate/route.ts:48 | the rating read for one skill: the first row for the skill, null read as 0, no row read as 0 |
| Scoring.Score | src/app/api/allocate/route.ts:46-50 | the fit score: one rating term per required-skill row |
| Scoring.ComputeScore | src/app/api/allocate/route.ts:46-50 | the scoring loop yields `Score`: the sum, over the required-skill rows, of the intern's rating for each skill |
| Scoring.RatingOfFirstMatch | src/app/api/allocate/route.ts:48 | `find` semantics: the rating used is that of the first row for the skill, with null read as 0 |
| Scoring.RatingOfUnrated | src/app/api/allocate/route.ts:48 | a skill the intern has no row for contributes 0 |
| Scoring.RatingOfRange | src/app/api/allocate/route.ts:48 | with non-negative stored ratings a skill contributes at least 0; with slider ratings (1..5) at most 5 |
| Scoring.ScoreRange | src/app/api/allocate/route.ts:46-50 | the score is at least 0 under non-negative ratings, and at most 5 per required-skill row under the rating slider's 1..5 range (src/components/InternDashboard.tsx lines 125-126) |
| Scoring.ScoreConcat | src/app/api/allocate/route.ts:46-50 | the score is additive over the required-skill rows |
| Scoring.RatingOfAppend | src/app/api/allocate/route.ts:48 | a new rating row changes what `find` returns only for a skill that had no row before |
| Scoring.ScoreAddRating | src/app/api/allocate/route.ts:46-50 | adding a rating row for an unrated skill raises the score by that rating times the number of required-skill rows naming it; a row for an already-rated skill changes nothing |
| Scoring.ScoreMonotone | src/app/api/allocate/route.ts:46-50 | adding a non-negative rating never lowers the score; rating an unrated required skill positively strictly raises it |
| Selection.Eligible | src/app/api/allocate/route.ts:52 | the capacity test: `goal_hours` is non-null, non-zero and at least the estimate, with a null estimate read as 0 |
| Selection.EligibleMonotone | src/app/api/allocate/route.ts:52 | a smaller estimate keeps an intern eligible; a null or zero goal is never eligible |
| Selection.Pick | src/app/api/allocate/route.ts:35-55 | the running best is either nobody with score -1, or a read and eligible intern whose score it holds, which is at least 0 |
| Selection.PickIsMaximum | src/app/api/allocate/route.ts:52-55 | the best score is at least the score of every read, eligible intern |
| Selection.PickTieGoesToEarliest | src/app/api/allocate/route.ts:52-55 | every read, eligible intern before the winner scores strictly less than the winner |
| Selection.PickIsFirstArgMax | src/app/api/allocate/route.ts:35-55 | the winner is position k if and only if k is the first read, eligible intern with the highest score and that score is at least 0 |
| Selection.PickKeepsRaisedWinner | src/app/api/allocate/route.ts:52-55 | raising the winner's score while every other entry stays the same keeps the same winner |
| Selection.PickNoneIff | src/app/api/allocate/route.ts:35-55 | nobody is chosen if and only if every read, eligible intern scores below 0 |
| Tables.Unassigned | src/app/api/allocate/route.ts:7-10 | the listed projects are exactly the project rows whose `assigned` is null |
| Tables.UnassignedDistinct | src/app/api/allocate/route.ts:7-10 | the listed projects keep distinct ids |
| Tables.Interns | src/app/api/allocate/route.ts:17-20 | the listed users are exactly the users with role intern |
| Tables.SkillsOf | src/app/api/allocate/route.ts:27-30 | the skill ids read are exactly those of the `project_skills` rows for the project, each listed once per row that names it |
| Tables.RatingsOf | src/app/api/allocate/route.ts:39-42 | the ratings read are exactly the `intern_skills` rows of the intern |
| Tables.RatingsOfAppend | src/app/api/allocate/route.ts:39-42 | a new `intern_skills` row appears only in its own intern's ratings, at the end |
| Tables.SetAssigned | src/app/api/allocate/route.ts:67-70 | the update sets `assigned` to true on the rows with the given ids and changes nothing else |
| Tables.Database.InsertAssignment | src/app/api/allocate/route.ts:60-64 | the insert appends one `intern_projects` row; the other tables are unchanged |
| Tables.Database.MarkAssigned | src/app/api/allocate/route.ts:67-70 | the update flags the project with that id assigned; the other tables are unchanged |
| Allocation.ListUnassigned | src/app/api/allocate/route.ts:7-14 | the project read fails exactly when its fault is set, and otherwise lists exactly the rows whose `assigned` is null |
| Allocation.ListInterns | src/app/api/allocate/route.ts:17-24 | the intern read fails exactly when its fault is set, and otherwise lists exactly the users with role intern |
| Allocation.SkillLookup | src/app/api/allocate/route.ts:27-32 | a project's skill read fails exactly when its fault is set, and otherwise yields exactly the project's skill ids |
| Allocation.RatingLookup | src/app/api/allocate/route.ts:39-44 | an intern's ratings read fails exactly when its fault is set, and otherwise yields exactly that intern's `intern_skills` rows |
| Allocation.EntriesQualify | src/app/api/allocate/route.ts:38-52 | an intern takes part in the comparison exactly when its ratings were read and it passes the capacity test |
| Allocation.Decide | src/app/api/allocate/route.ts:26-56 | a project is skipped exactly when its skill read fails, and any intern it is matched with was read and is eligible |
| Allocation.Written | src/app/api/allocate/route.ts:58-64 | a project gets at most one row, gets one exactly when it is matched, and the row names the project and is not completed |
| Allocation.Writes | src/app/api/allocate/route.ts:26-64 | the rows a run inserts: each project's `Written` rows, in project order |
| Allocation.MatchedIds | src/app/api/allocate/route.ts:58-71 | only projects of the listed snapshot are flagged assigned |
| Allocation.BestMatch | src/app/api/allocate/route.ts:35-56 | the intern loop leaves `bestMatch` at the first arg-max of the fold, skipping interns whose ratings read fails |
| Allocation.Allocate | src/app/api/allocate/route.ts:4-74 | a failed list read answers 500 with its message and changes nothing; otherwise the run answers success, appends exactly `Writes`, flags exactly `MatchedIds`, leaves the other tables alone and keeps the no-double-assignment invariant |
| Allocation.AllocateAll | src/app/api/allocate/route.ts:26-72 | the project loop appends the rows of `Writes` and flags the projects of `MatchedIds` |
| Allocation.AllocateProject | src/app/api/allocate/route.ts:26-71 | one project's iteration appends its `Written` row and flags it exactly when `Decide` matches it |
| Allocation.DecideWinner | src/app/api/allocate/route.ts:35-56 | the winner was read, has a non-null non-zero goal at least the estimate, scores at least 0, at least every candidate, and more than every earlier candidate |
| Allocation.DecideMatchesIffCandidate | src/app/api/allocate/route.ts:36-56 | with non-negative ratings and a successful skill read, a project is matched if and only if some intern is a candidate |
| Allocation.DecideKeepsWinnerAfterRating | src/app/api/allocate/route.ts:38-55 | a new non-negative rating row for the chosen intern keeps that intern chosen over every other intern |
| Allocation.DecideWithoutSkills | src/app/api/allocate/route.ts:46-55 | a project with no required skills goes to the first candidate in intern order |
| Allocation.WritesJustified | src/app/api/allocate/route.ts:58-64 | every written row names a listed project and the intern `Decide` matched it with |
| Allocation.MatchedIsWritten | src/app/api/allocate/route.ts:58-71 | every matched project gets the row for its intern with `completed = false`, and its id is flagged |
| Allocation.FlaggedWasMatched | src/app/api/allocate/route.ts:58-71 | every flagged id is the id of a matched project of the list |
| Allocation.FlaggedIffMatched | src/app/api/allocate/route.ts:58-71 | with distinct project ids, a listed project is flagged exactly when it is matched |
| Allocation.RunRespectsCapacity | src/app/api/allocate/route.ts:52-64 | every written row is not completed and pairs a listed project with a listed intern whose goal hours cover the estimate |
| Allocation.WritesCount | src/app/api/allocate/route.ts:58-71 | a run writes at most one row per project: exactly one for a flagged project, none for any other |
| Allocation.RunKeepsNoDoubleAssignment | src/app/api/allocate/route.ts:7-71 | a run preserves: no project has more live assignments than its flag allows (none while null, at most one once set) |
| Allocation.ScenarioHigherScoreWins | src/app/api/allocate/route.ts:38-56 | of two eligible interns scoring 5 and 10, the one scoring 10 is matched |
| Allocation.ScenarioOverCapacity | src/app/api/allocate/route.ts:52 | a 20-hour project is not given to an intern with a 10-hour goal, whatever the skill and rating tables hold |
| Allocation.ScenarioOneInternWinsTwice | src/app/api/allocate/route.ts:26-71 | one intern can win two projects in the same run |

## Left out

- Supabase client calls, HTTP plumbing and the `try/catch` that answers "Server error" (route.ts lines 75-78). Reads are pure functions of the table contents, and a read that returns null `data` is a `Faults` entry. Thrown exceptions are not modelled.
- The write results are ignored by the handler, so the model writes unconditionally. A failed insert or update, and the partial state it would leave, is not modelled.
- Concurrent runs and interleaving with other writers are not modelled. The model is one run over one snapshot, and the no-double-assignment invariant is proved for that.
- SQL selects without `ORDER BY` have no defined row order. The model fixes table order, and tie-breaking "earliest" refers to that order.
- JavaScript numbers are floating point. The model uses integers; fractional hours and ratings, and `NaN`, are not modelled.
- Eligibility follows the code's truthiness test: a goal of 0 is never eligible, even for a project estimated at 0 hours.
- A stored negative rating is truthy and counts as given. Bounds and "some candidate means a match" are proved only under `NonNegativeRatings`, because `bestScore` starts at -1.
- Allocation.DecideKeepsWinnerAfterRating: assumes no other listed intern shares the chosen intern's id, because user ids are the primary key.
- Allocation.DecideMatchesIffCandidate: holds only for non-negative ratings. An eligible intern with a negative score is never chosen.
- Scoring.ScoreRange: the upper bound assumes stored ratings in the slider's 1..5 range. The database itself does not enforce that range.
- The winning intern is identified by its position in the intern list rather than by the row object. The written row carries that intern's id.
- The dashboards, charts, sign-up pages and the rest of the application are not part of this model.
