# Random reading groups and one-third oral-exam draws, modelled in Dafny

The repository helps an instructor with two classroom chores, driven from an
Excel workbook with one sheet per class (columns `NOM`, `PRÉNOM` and weekly
presence columns `SEMAINE n` whose cell is `Présent` for a present student):

* **Reading groups** (`pages/1_Random_reading_group.py`): shuffle the roster of
  a sheet and split it round-robin into `k` groups, retrying up to 100 times
  until the grouping differs from every earlier drawing stored for that sheet;
  the new drawing is appended to the sheet's history file. The first member of
  each group is its *rapporteur*.
* **Oral exam** (`pages/2_Random_exam.py`, and the older command-line script
  `Exam_pg_04.py` for sheet G04): draw a third (at least one) of the students
  present in the chosen week, never one already drawn for that sheet, and
  record the draw. The script first asks two yes/no questions and stops on
  a "non".

The model follows the source file by file:

| Dafny file | module | models |
|---|---|---|
| `common.dfy` | `Common` | Option/Result, distinctness, `set(list)` |
| `sheets.dfy` | `Sheets` | a sheet as columns + rows, cells, identities `prénom + " " + nom` |
| `shuffle.dfy` | `Shuffle` | `random.shuffle` as its Fisher–Yates loop, in place on an `array` |
| `round_robin.dfy` | `RoundRobin` | `[students[i::k] for i in range(k)]` |
| `reading_group.dfy` | `ReadingGroup` | `load_students_from_excel`, `generate_groups`, the rapporteur, the generate button |
| `one_third.dfy` | `OneThird` | present rows, quota, eligibility, the pandas sample, the mutable `already_selected` set |
| `random_exam.dfy` | `RandomExam` | week columns, the page's selector, the per-sheet history, the draw button |
| `pre_flight.dfy` | `PreFlight` | `pre_execution_questions` |
| `exam_g04.dfy` | `ExamG04` | the script's selector, its set-valued history, the whole script |

Randomness is a parameter. Each shuffle takes a *draw sequence* `d` with
`d[i] <= i`, the `j` that `random.shuffle` draws at step `i`; every ordering
of the roster comes from some such sequence. `DataFrame.sample` takes an
*ordering* of the eligible rows and keeps its first `n` entries, which can
give any ordered sample. Files are values: a per-sheet map of group
histories, and `Option` (None = no file) for the exam history files. Loading
a missing file gives the empty value; saving replaces the value wholesale.

The two exam selectors differ: the G04 script samples `quota` rows with no `min`, so it fails (pandas
raises) once fewer than `quota` students are eligible, instead of drawing
`min(quota, eligible count)`; see "## Findings". The confirmation gate re-prompts
on any answer other than "oui"/"non", and runs out of input if the console
closes before both questions are settled.

## Model

| member | source | states |
|---|---|---|
| `Shuffle.ShuffleInPlace` | pages/1_Random_reading_group.py:38 | shuffling in place leaves the array equal to the Fisher–Yates outcome of its old contents for the given draws |
| `Shuffle.ShuffleFromPermutes` | pages/1_Random_reading_group.py:38 | the swaps only reorder the list: its multiset of values is unchanged |
| `Shuffle.ShuffledPermutes` | pages/1_Random_reading_group.py:38 | one shuffle keeps the length and the multiset of the roster |
| `Shuffle.ShuffledTimes` | pages/1_Random_reading_group.py:38 | t successive in-place shuffles of the same list keep its length and multiset |
| `RoundRobin.Split` | pages/1_Random_reading_group.py:39 | `[s[i::k] for i in range(k)]` has exactly k groups; what each holds is stated by GroupPositions |
| `RoundRobin.SliceAt` | pages/1_Random_reading_group.py:39 | `s[start::step]` has a position j exactly when start + j·step is inside `s`, and holds that element |
| `RoundRobin.GroupPositions` | pages/1_Random_reading_group.py:39 | group i holds exactly the positions i, i+k, i+2k, … of the shuffled list, in that order |
| `RoundRobin.GroupSizes` | pages/1_Random_reading_group.py:39 | group sizes are non-increasing in i and differ by at most one |
| `RoundRobin.SliceShift` | pages/1_Random_reading_group.py:39 | dropping the first k students shifts every slice start back by k |
| `RoundRobin.SplitMembers` | pages/1_Random_reading_group.py:39 | for k > 0 the multiset union of the k groups is the multiset of the list: nobody is lost or duplicated |
| `ReadingGroup.LoadStudents` | pages/1_Random_reading_group.py:18-22 | fails exactly when NOM or PRÉNOM is missing; otherwise one identity `prénom + " " + nom` per row, in row order |
| `ReadingGroup.GenerateGroups` | pages/1_Random_reading_group.py:34-43 | at most `maxAttempts` shuffles; every earlier attempt's split was already in history; on success the split of the shuffled roster, not in the old history, is appended and nothing else changes; on exhaustion the last split collided too and the history is untouched |
| `ReadingGroup.RapporteurOfGroup` | pages/1_Random_reading_group.py:76 | the rapporteur of group i is the student at position i of the shuffled list, or "Aucun" when that group is empty |
| `ReadingGroup.GenerateForSheet` | pages/1_Random_reading_group.py:62-71 | fails exactly when a name column is missing or all 100 shuffles reproduce a prior drawing, and then saves nothing; on success it returns k groups holding the whole roster, new with respect to the prior history, and saves prior + [groups]; the groups are the split of the t-th shuffle for some t ≤ 100 whose every earlier shuffle reproduced a prior drawing; with reset the saved history is exactly that one drawing |
| `OneThird.PresentRows` | pages/2_Random_exam.py:29 | the present rows are exactly the rows whose presence cell is "Présent" |
| `OneThird.PresentRowsCount` | pages/2_Random_exam.py:29 | the filter keeps every copy of a present row and no copy of any other row |
| `OneThird.Quota` | pages/2_Random_exam.py:29 | `max(1, present // 3)`: at least 1, a third rounded down from 3 present on, never more than the present count |
| `OneThird.Eligible` | pages/2_Random_exam.py:25-28 | a row is eligible exactly when it is present and its identity was not chosen before; there are never more eligible than present |
| `OneThird.EligibleCount` | pages/2_Random_exam.py:25-28 | eligibility keeps every copy of a present, not yet chosen row and no copy of any other row |
| `OneThird.EligibleFromScratch` | pages/2_Random_exam.py:25-28 | with an empty already-selected set the eligible rows are the present rows |
| `OneThird.NobodyLeft` | pages/2_Random_exam.py:25-28 | once every present identity has been chosen, nobody is eligible |
| `OneThird.EligibleKeepsUnique` | pages/2_Random_exam.py:25-28 | eligibility keeps identities distinct when the sheet's are |
| `OneThird.Sample` | pages/2_Random_exam.py:32 | `.sample(n)` then the identity column: n identities, the j-th that of the eligible row at position j of the ordering |
| `OneThird.SampleDrawnFrom` | pages/2_Random_exam.py:32 | sampling without replacement: the sampled identities name eligible rows at pairwise different positions |
| `OneThird.SampleDistinct` | pages/2_Random_exam.py:32 | a sample from rows with distinct identities has n distinct identities |
| `OneThird.SampleFromEligible` | pages/2_Random_exam.py:32 | every sampled identity belongs to a present row and was not chosen before |
| `OneThird.SelectedSet.Update` | pages/2_Random_exam.py:33 | `set.update`: the new set is the old one joined with the drawn identities |
| `RandomExam.WeekColumns` | pages/2_Random_exam.py:78 | a column is offered exactly when it is a sheet column whose name starts with "SEMAINE" |
| `RandomExam.WeekColumnsKeepOrder` | pages/2_Random_exam.py:78 | the offered columns keep the sheet's column order |
| `RandomExam.DrawSelection` | pages/2_Random_exam.py:25-36 | draws exactly `min(quota, eligible count)` identities, none when nobody is eligible, each of a present row and not drawn before, taken from pairwise different eligible rows, all distinct when the sheet's identities are |
| `RandomExam.FirstDrawTakesQuota` | pages/2_Random_exam.py:29-32 | with nothing drawn before and someone present, exactly `quota` distinct students are drawn |
| `RandomExam.LoadStudents` | pages/2_Random_exam.py:15-36 | fails, naming the sheet and the presence column, exactly when a required column is missing, and leaves the set alone; otherwise returns the draw and updates the caller's set in place to old ∪ draw (a fresh set when none is given) |
| `RandomExam.AlreadySelectedFor` | pages/2_Random_exam.py:86 | definition only: the identities of the history entries for the sheet; RecordedForSheet and RecordedForOtherSheet state how recording changes it |
| `RandomExam.EntriesFor` | pages/2_Random_exam.py:94-95 | one history entry per drawn identity |
| `RandomExam.RecordedForSheet` | pages/2_Random_exam.py:86 | appending the entries of a draw adds exactly its identities to that sheet's already-selected set |
| `RandomExam.RecordedForOtherSheet` | pages/2_Random_exam.py:86 | it leaves the already-selected set of every other sheet unchanged |
| `RandomExam.RecordSelection` | pages/2_Random_exam.py:94-95 | the history becomes the old entries followed by one `{Identité, Feuille}` entry per drawn identity, in drawing order |
| `RandomExam.RunSelection` | pages/2_Random_exam.py:84-96 | errors and empty draws save nothing; a non-empty draw saves old history + its entries; the sheet's already-selected set grows by exactly the draw |
| `PreFlight.StripLeadingRemovesBlanks` | Exam_pg_04.py:21 | stripping the front removes exactly the leading whitespace |
| `PreFlight.StripTrailingRemovesBlanks` | Exam_pg_04.py:21 | stripping the back removes exactly the trailing whitespace |
| `PreFlight.Decisions` | Exam_pg_04.py:20-24 | a transcript gives at most one accepted answer per line |
| `PreFlight.EveryLineAnswers` | Exam_pg_04.py:20-24 | when every line is "oui" or "non" once stripped and lower-cased, each line gives exactly its own answer |
| `PreFlight.DecisionsPrefix` | Exam_pg_04.py:20-24 | answers accepted on the first lines begin the answers accepted on the whole transcript |
| `PreFlight.AskQuestion` | Exam_pg_04.py:21-23 | reads lines until one is "oui" or "non" once stripped and lower-cased and returns that answer, the lines before it adding no decision; `None` only when the console runs out first |
| `PreFlight.PreExecutionQuestions` | Exam_pg_04.py:7-29 | proceeds exactly when the first two accepted answers are "oui", aborts exactly when one of them is "non", and reads no line after that first "non" or after the second accepted "oui"; invalid answers re-ask the same question |
| `ExamG04.DrawSelection` | Exam_pg_04.py:65-83 | fails exactly when fewer students are eligible than the quota; otherwise draws exactly `quota` (never zero) identities of present rows not drawn before, from pairwise different eligible rows, distinct when the sheet's are |
| `ExamG04.AllDrawnFails` | Exam_pg_04.py:71-75 | once every present student has been drawn the script fails while the page's selector returns an empty draw |
| `ExamG04.ExhaustedRosterFails` | Exam_pg_04.py:75 | three present students, all drawn before, make the script fail with a wanted sample of 1 out of 0 |
| `ExamG04.LoadStudents` | Exam_pg_04.py:35-83 | a missing column fails, naming the sheet; otherwise the result is the script's draw; the caller's set grows by the draw on success and is untouched on error |
| `ExamG04.SaveHistory` | Exam_pg_04.py:102-111 | the saved list has no repetition and loads back to exactly the saved set |
| `ExamG04.RunScript` | Exam_pg_04.py:114-140 | nothing is read or written unless both questions are confirmed; once confirmed the result is the script's draw from the loaded history, or the missing-column error for sheet G04 and "SEMAINE 4"; an error saves nothing; a successful draw saves the old set ∪ the draw |

## Left out

- Spreadsheet reading (`pd.ExcelFile`, `read_excel`) and the "workbook not found" error: a sheet is given as a value.
- JSON encoding and `os.path.exists`: a history file is a value; `None` means no file.
- The Python random generator and pandas' `random_state` seed: the draws are parameters.
- All Streamlit rendering and widgets: the tables, messages, spinner, the history display pages, the `verif_ok` session flag of the web confirmation radio and `st.experimental_rerun`. The number input's 2–20 bound is not enforced; any `k` is modelled, and `k = 0` gives no group as `range(0)` does.
- `print` and `exit()`: the gate returns a verdict instead.
- Cells that are not strings: names are strings, and a blank presence cell reads as "" (pandas NaN never equals "Présent").
- PreFlight.Normalise: lower-cases only A–Z. This does not change which answers equal "oui" or "non".
- `ReadingGroup.LoadHistory`, `RandomExam.LoadHistory` and `ExamG04.LoadHistory` are plain lookups without a contract of their own; `ExamG04.SaveHistory` states the round trip.
- RandomExam.DrawSelection and ExamG04.DrawSelection: they always draw different rows, but the drawn identities are distinct only when the sheet's identities are. Two rows with the same first and last name may both be drawn, and the set then grows by fewer names than were drawn.
- Aliasing of the caller's roster list with the list `generate_groups` shuffles: the page never reuses it, so the model shuffles its own array.

## Findings

| source | as written | input that shows it | evidently intended | confidence | as-written member | corrected member |
|---|---|---|---|---|---|---|
| Exam_pg_04.py:71-83 | samples `n = quota` rows without `min`, so the `num_to_select > 0` guard is always true and its empty-result branch is dead | three present students, all drawn before: quota 1, no eligible row, pandas raises instead of returning `[]` | draw `min(quota, eligible)` and return `[]` when nobody is left, as the comment "si possible" and the dead branch say and as pages/2_Random_exam.py:31-32 does | medium, not executed | `ExamG04.DrawSelection` (shown by `ExamG04.ExhaustedRosterFails`, `ExamG04.AllDrawnFails`) | `RandomExam.DrawSelection` |
