# CFA-Quest-Pro bookkeeping core, modelled in Dafny

CFA-Quest-Pro is a React study app for CFA candidates. This project models the
logic behind its screens as plain data and state transitions, and proves what
each screen promises. The screens are:

- the exam session of `ExamInterface`: filtering the question pool by level and
  topic, the session start, answering, moving on, the one-second countdown and
  the score;
- the app-wide store `AppProvider`: the start-up state, `addExamResult` and the
  achievement rule table `checkAchievements`;
- the task list of `StudyPlanner`: add with blank-text rejection and
  `max + 1` ids, toggle, delete;
- the review-set scan of `ReviewMode`: two de-duplicating maps ("incorrect"
  and "marked") built over every answered question in the history, plus the
  session start and the disable rule;
- the summary statistics of `Profile`;
- the look-up and the counts of `DetailedResults`;
- the keypad state machine of `StandardCalculator` in `Calculator.js`.

Modules, one per source file, plus two shared ones:

| file | module | source |
|---|---|---|
| wrappers.dfy | `Wrappers` | the `Option` type |
| records.dfy | `Records` | the history records shared by the store and the screens |
| exam.dfy | `Exam` | src/components/ExamInterface.js |
| app_store.dfy | `AppStore` | src/contexts/AppContext.js |
| planner.dfy | `Planner` | src/components/StudyPlanner.js |
| review.dfy | `Review` | src/components/ReviewMode.js |
| profile.dfy | `ProfileStats` | src/components/Profile.js |
| details.dfy | `Details` | src/components/DetailedResults.js |
| calculator.dfy | `Calc` | src/components/Calculator.js (`StandardCalculator` only) |

Components whose handlers update state step by step are classes whose fields
are the component's state variables and whose methods are its handlers:
`Exam.ExamInterface`, `AppStore.AppProvider`, `Planner.StudyPlanner`,
`Review.ReviewMode` and `Calc.StandardCalculator`. The review scan is a
method with the source's two nested loops. The work done with `filter`, `map`
and `reduce` is written as functions, with lemmas about them.

Modelling choices:

- A JavaScript `Map` keyed by question id is the sequence of its values in
  insertion order. `Review.MapSet` is `Map.prototype.set`: an existing key keeps
  its place and takes the new value, and a new key goes at the end.
- The exam's `userAnswers` object is a `map<int, string>`.
- Percentages and accuracy are `real`; counts are `int`/`nat`.
- `String.prototype.trim` removes the ECMAScript white-space and
  line-terminator code points. `Planner.IsTrimmed` lists them explicitly.
- The calculator's numbers are an uninterpreted type `N`. `parseFloat`,
  `String(n)` and the four operations are functions the caller supplies
  (`Calc.Arith`), so only the control logic is modelled.
- Reading from storage is an `Option` input: `None` means nothing, or an
  empty string, is stored (both fall back to the defaults).
  The exam's question file is a constructor parameter of `ExamInterface`. The
  time stamp that `addExamResult` writes is the `now` argument of
  `AppProvider.AddExamResult`.
- `checkAchievements` reads `.unlocked` of `find(a => a.id === 1)`. On a list
  without id 1 that throws a `TypeError`. `AppStore.CheckAchievements` returns
  `None` for that case. `AppProvider.AddExamResult` then reports `failed`,
  keeps the achievements and still appends to the history, because the
  history update was queued before the throw.
- Parsing the route id is an input: `None` stands for `parseInt` giving
  `NaN`, which matches no exam.
- On an empty selection the running screen reads `filteredQuestions[0]`,
  which is `undefined`. `Exam.ExamInterface.CurrentQuestion` returns `None`
  there.
- Two places are modelled as written rather than as they might have been meant:
  - `ReviewMode` passes `reviewQuestions` and `reviewTitle` to `ExamInterface`,
    which takes no props. `Review.ReviewMode.OpenReviewExam` therefore opens an
    exam on its own setup screen over the whole pool, and the review
    questions play no part in it.
  - `ExamInterface` never calls `addExamResult`, so no exam session here
    touches the store.
- The description of "Ethics Virtuoso" says "over 90%", but its rule fires at
  90 or more (AppContext.js line 48). The model follows the rule.
- Two operator keys pressed in a row apply the first operator to the
  displayed number twice: `7 + -` stores the result of 7 + 7 with `-` pending
  (Calculator.js lines 77-80). The model keeps this;
  `Calc.RepeatedOperatorReapplies` states it.
- `Profile` reports 0 unlocked achievements whenever the history is empty,
  whatever the stored achievements say (Profile.js lines 10-17). The model
  keeps this.

## Model

| member | source | states |
|---|---|---|
| Exam.FilterQuestions | src/components/ExamInterface.js:25-28 | the selection is exactly the pool questions whose level and topic match, "All" matching either field, and is never longer than the pool |
| Exam.FilterAppend | src/components/ExamInterface.js:25-28 | filtering keeps pool order: the selection of a concatenation is the selection of the first part followed by that of the second |
| Exam.FilterAllKeepsPool | src/components/ExamInterface.js:25-28 | with level and topic both "All" the whole pool is selected, in order |
| Exam.CorrectQuestions | src/components/ExamInterface.js:56 | the reference for the score: exactly the questions whose recorded answer is their correct answer |
| Exam.ScoreFromCounts | src/components/ExamInterface.js:55-57 | the `reduce` from any start adds the number of correctly answered questions to it |
| Exam.ScoreIsCorrectCount | src/components/ExamInterface.js:54-58 | the score is the number of questions answered correctly, at most the session size, and full exactly when every question is answered correctly |
| Exam.AllCorrectIffFull | src/components/ExamInterface.js:54-58 | every question is answered correctly exactly when all of them are counted |
| Exam.ScoreIgnoresForeignAnswers | src/components/ExamInterface.js:55-56 | two answer maps that agree on whether each session question is answered correctly give the same score |
| Exam.ForeignAnswerKeepsScore | src/components/ExamInterface.js:55-56 | an answer stored under an id no session question has leaves the score unchanged |
| Exam.AnswerOverwrites | src/components/ExamInterface.js:37-39 | answering the same question twice keeps only the second answer, and an answer adds at most one key (none when the question already had one) |
| Exam.ExamInterface.constructor | src/components/ExamInterface.js:5-12 | the initial state: level "Level I", topic "All", nothing selected, index 0, no answers, 180 seconds, and the setup screen shown |
| Exam.ExamInterface.CurrentQuestion | src/components/ExamInterface.js:110 | there is a current question exactly when the selection is non-empty, and it is the one at the current index |
| Exam.ExamInterface.CalculateScore | src/components/ExamInterface.js:54-58 | the shown score is the number of correctly answered session questions, at most the session size |
| Exam.ExamInterface.SetLevel | src/components/ExamInterface.js:66 | the level selector sets the level and nothing else |
| Exam.ExamInterface.SetTopic | src/components/ExamInterface.js:74 | the topic selector sets the topic and nothing else |
| Exam.ExamInterface.StartExam | src/components/ExamInterface.js:24-35 | the session holds the filtered pool, index 0, no answers, results hidden, started, and 90 seconds per selected question; the running screen is shown |
| Exam.ExamInterface.HandleAnswerSelect | src/components/ExamInterface.js:37-39 | the answer map gets the option under the question's id, every other key unchanged |
| Exam.ExamInterface.HandleNextQuestion | src/components/ExamInterface.js:41-47 | before the last question the index advances by one; on the last (or an empty selection) the session finishes and the results screen is shown; the index stays in range |
| Exam.ExamInterface.HandleShowResults | src/components/ExamInterface.js:49-52 | results shown and the session stopped: the results screen is shown |
| Exam.ExamInterface.Tick | src/components/ExamInterface.js:14-22 | a running session with time left loses exactly one second; a started session at 0 seconds finishes and shows the results screen; nothing happens when no session runs |
| Exam.ExamInterface.TakeAnotherExam | src/components/ExamInterface.js:103 | back to the setup screen |
| Exam.EmptySelectionFinishesAtOnce | src/components/ExamInterface.js:14-35 | a session over an empty selection has a 0-second budget; the running screen it enters has no question to show; in the handler and timer state machine the first timer firing moves it to results, with score 0 |
| AppStore.InitialStateFromStorage | src/contexts/AppContext.js:7-21 | with nothing stored the history is empty and the achievements are five locked entries with ids 1 to 5; stored values are taken as they are |
| AppStore.FindById | src/contexts/AppContext.js:43 | `find` gives nothing exactly when no achievement has the id, and otherwise the first one that has it |
| AppStore.CheckAchievements | src/contexts/AppContext.js:39-66 | the rule table fails exactly when no achievement has id 1 |
| AppStore.UnlockIfAt | src/contexts/AppContext.js:44-59 | one `map` rewrite keeps the length and sets `unlocked` exactly on the entries with its id when its rule fires |
| AppStore.CheckAchievementsEffect | src/contexts/AppContext.js:40-65 | only `unlocked` changes (same length, order, ids, titles, descriptions); each flag ends set exactly when it was set or the rule for its id fires (id 1 when the first id-1 entry was locked, id 2 for Ethics at 90% or more, id 4 at 100%, id 5 with ten results or more); ids without a rule are untouched |
| AppStore.FirstStepUnlocked | src/contexts/AppContext.js:43-45 | after any result the first achievement with id 1 is unlocked |
| AppStore.CheckAchievementsMonotone | src/contexts/AppContext.js:40-65 | no rule locks an achievement that was unlocked |
| AppStore.QuantMasterUntouched | src/contexts/AppContext.js:40-65 | an achievement with id 3 comes out exactly as it went in |
| AppStore.CheckAchievementsIdempotent | src/contexts/AppContext.js:40-65 | applying the rule table again with the same inputs changes nothing |
| AppStore.RuleTableStable | src/contexts/AppContext.js:43-60 | a flag the rule table has decided is decided the same way a second time |
| AppStore.FindFirstAt | src/contexts/AppContext.js:43 | when position i holds the first entry with the id, `find` returns that entry |
| AppStore.AppProvider.constructor | src/contexts/AppContext.js:7-21 | the store starts from what storage held, or from the empty history and the defaults |
| AppStore.AppProvider.AddExamResult | src/contexts/AppContext.js:33-36 | the history grows by exactly the result stamped with the given date, at the end; the achievements become the rule table's value for the history including the result, or stay as they were when the table fails for lack of id 1 |
| Planner.InitialTasksDistinct | src/components/StudyPlanner.js:7-11 | three initial tasks with ids 1, 2, 3 |
| Planner.TrimStart | src/components/StudyPlanner.js:19 | the result is a suffix of the text, everything dropped is white space, and it does not start with white space |
| Planner.TrimEnd | src/components/StudyPlanner.js:19 | the result is a prefix of the text, everything dropped is white space, and it does not end with white space |
| Planner.TrimEmptyIffBlank | src/components/StudyPlanner.js:19 | the trimmed text is empty exactly when every character is white space |
| Planner.MaxId | src/components/StudyPlanner.js:22 | `Math.max` of the ids bounds every id and is one of them |
| Planner.NextId | src/components/StudyPlanner.js:22 | the new id is greater than every existing id, and 1 for an empty list |
| Planner.AddEffect | src/components/StudyPlanner.js:19-23 | blank text leaves the list unchanged; otherwise one incomplete task with the untrimmed text and an id that no earlier task has is appended, earlier tasks unchanged |
| Planner.AddKeepsIdsDistinct | src/components/StudyPlanner.js:22-23 | adding keeps the ids pairwise distinct |
| Planner.TasksWithout | src/components/StudyPlanner.js:36 | the remaining tasks are exactly those whose id differs |
| Planner.ToggleEffect | src/components/StudyPlanner.js:31 | toggling flips `completed` exactly on the tasks with the id and keeps length, order, ids and texts |
| Planner.ToggleTwiceIsIdentity | src/components/StudyPlanner.js:31 | toggling the same id twice gives the list back |
| Planner.ToggleKeepsIdsDistinct | src/components/StudyPlanner.js:31 | toggling keeps the ids pairwise distinct |
| Planner.DeleteAbsentIsNoOp | src/components/StudyPlanner.js:36 | deleting an id no task has leaves the list unchanged |
| Planner.DeleteAppend | src/components/StudyPlanner.js:36 | deleting works on each part of the list separately, so the kept tasks keep their relative order |
| Planner.DeleteLength | src/components/StudyPlanner.js:36 | with distinct ids, deleting removes exactly one task when the id is present and none otherwise, and keeps the ids distinct |
| Planner.StudyPlanner.constructor | src/components/StudyPlanner.js:7-14 | the three example tasks and an empty text field |
| Planner.StudyPlanner.SetNewTask | src/components/StudyPlanner.js:55 | typing sets the text field |
| Planner.StudyPlanner.HandleAddTask | src/components/StudyPlanner.js:17-27 | the list becomes the list after adding the typed text; the field is cleared exactly when a task was added; ids stay distinct |
| Planner.StudyPlanner.ToggleTask | src/components/StudyPlanner.js:30-32 | the list becomes the toggled list; ids stay distinct |
| Planner.StudyPlanner.DeleteTask | src/components/StudyPlanner.js:35-37 | the list loses the tasks with the id; ids stay distinct |
| Review.MapSetEffect | src/components/ReviewMode.js:22 | `Map.set` on a new key appends the value; on an existing key it replaces that entry in place and keeps the length |
| Review.AllAnsweredLength | src/components/ReviewMode.js:18-19 | the scan visits as many questions as all the exams' answered questions together |
| Review.FirstIndexMeaning | src/components/ReviewMode.js:18-28 | the first-position function finds the first question of the kind with the id, and -1 means none |
| Review.LastIndexMeaning | src/components/ReviewMode.js:18-28 | the last-position function finds the last question of the kind with the id, and -1 means none |
| Review.IndexStep | src/components/ReviewMode.js:18-28 | reading one more question moves the first and last positions of an id as expected |
| Review.StepSkip | src/components/ReviewMode.js:20-26 | a question not of the kind leaves the map's invariant intact |
| Review.StepUpdate | src/components/ReviewMode.js:22 | a question of the kind under a known id keeps the map's invariant |
| Review.StepAppend | src/components/ReviewMode.js:22 | a question of the kind under a new id keeps the map's invariant |
| Review.AppendKeys | src/components/ReviewMode.js:22 | appending a new id keeps the keys distinct and equal to the ids seen |
| Review.AppendLast | src/components/ReviewMode.js:22 | appending a new id keeps each value the last question seen under its id |
| Review.AppendOrder | src/components/ReviewMode.js:22 | appending a new id keeps the keys in order of first appearance |
| Review.CollectSpec | src/components/ReviewMode.js:18-28 | after the scan: distinct keys, exactly the ids of the questions of the kind, each value the last question of that id, keys ordered by first appearance, no more entries than questions |
| Review.ReviewListContents | src/components/ReviewMode.js:13-33 | an id is in the list of a kind exactly when some answered question of that kind in the history has it, no id twice, and the list is no longer than the number of answered questions |
| Review.ReviewListLastWins | src/components/ReviewMode.js:18-28 | each entry is an answered question of the kind that no later question of the kind with the same id follows |
| Review.ReviewListOrder | src/components/ReviewMode.js:18-31 | entries appear in the order in which their ids first appear in the history |
| Review.InBothLists | src/components/ReviewMode.js:20-26 | the two classifications are independent: a wrong and marked question is in both lists |
| Review.UpdateKeysOrder | src/components/ReviewMode.js:22 | replacing an entry in place keeps the keys, their distinctness and their order |
| Review.UpdateLast | src/components/ReviewMode.js:22 | replacing the entry of a known id keeps each value the last question seen under its id |
| Review.CollectSnoc | src/components/ReviewMode.js:19-26 | scanning one more question sets it into the map exactly when it is of the kind |
| Review.AllAnsweredSnoc | src/components/ReviewMode.js:18-19 | the questions scanned after one more exam are those before it followed by that exam's answered questions |
| Review.ScanExam | src/components/ReviewMode.js:19-27 | the inner loop over one exam continues both maps exactly as the scan of the questions before it and that exam's questions |
| Review.ReviewableQuestions | src/components/ReviewMode.js:13-34 | the two nested loops build exactly the scan of the whole history for each kind |
| Review.DisabledIffNoneOfKind | src/components/ReviewMode.js:65-72 | an option is disabled exactly when no answered question of its kind is in the history |
| Review.ReviewMode.constructor | src/components/ReviewMode.js:8-10 | no review type and no session questions at first |
| Review.ReviewMode.StartReviewSession | src/components/ReviewMode.js:37-40 | the review type is set and the session holds exactly the chosen list |
| Review.ReviewMode.OpenReviewExam | src/components/ReviewMode.js:43-45 | the exam shown is on its own setup screen with nothing selected, whatever the session questions |
| ProfileStats.UnlockedCount | src/components/Profile.js:20 | the unlocked count is the number of positions holding an unlocked achievement, so at most the number of achievements, full exactly when all are unlocked, 0 exactly when none is |
| ProfileStats.EmptyHistoryStats | src/components/Profile.js:10-17 | an empty history gives four zeros, whatever the achievements |
| ProfileStats.StatsOfHistory | src/components/Profile.js:18-27 | otherwise: the number of exams, the summed totals, an accuracy of 0 without questions and `correct / total * 100` otherwise, and the number of positions holding an unlocked achievement |
| ProfileStats.SumsAppend | src/components/Profile.js:18-19 | both sums split over a concatenation of histories |
| ProfileStats.SumsAfterAdd | src/components/Profile.js:18-19 | one more exam adds its total and its score to the sums |
| ProfileStats.SumScoreBounded | src/components/Profile.js:18-19 | when every exam scores between 0 and its total, so do the sums |
| ProfileStats.AccuracyInRange | src/components/Profile.js:25 | an accuracy over counts in range lies in [0, 100] and is 100 exactly when all are correct |
| ProfileStats.OverallAccuracyInRange | src/components/Profile.js:25 | with every score in range the overall accuracy lies in [0, 100] |
| Details.FindExam | src/components/DetailedResults.js:13-15 | the look-up finds nothing exactly when the id did not parse or no exam has it, and otherwise the first exam with that id |
| Details.IncorrectAnswersCounts | src/components/DetailedResults.js:56 | for a well-formed result `total - score` is the number of questions marked wrong, between 0 and the total |
| Details.MarkedCount | src/components/DetailedResults.js:58 | the marked count is the number of positions holding a marked question, so at most the number of questions, 0 exactly when none is marked, full exactly when all are |
| Details.PassingMeansSevenInTen | src/components/DetailedResults.js:47-48 | for a well-formed non-empty result the pass colour means at least seven correct answers in ten |
| Details.RatioThreshold | src/components/DetailedResults.js:47-48 | the 70% threshold on a ratio is the integer condition `10 * score >= 7 * total` |
| Details.EmptyExamFails | src/components/DetailedResults.js:47-48 | a well-formed result without questions is never in the pass colour |
| Details.ShowsCorrectAnswerIffWrong | src/components/DetailedResults.js:75-80 | for a well-formed result the correct answer is shown exactly when the user's answer differs from it |
| Calc.DotCountZero | src/components/Calculator.js:103 | a display has no point exactly when its point count is 0 |
| Calc.DigitWhileWaiting | src/components/Calculator.js:58-60 | a digit while an operand is awaited shows just that digit and ends the wait; value and operator stay |
| Calc.DigitAppends | src/components/Calculator.js:61-63 | otherwise the digit goes after the display, which is kept as a prefix, except that a lone "0" is replaced; only the display changes |
| Calc.TypedNumberShown | src/components/Calculator.js:57-64 | from a fresh display, typing digits that do not start with '0' shows exactly those digits |
| Calc.DecimalEffect | src/components/Calculator.js:103 | after the point key the display has a point, keeps the old display as a prefix, and has exactly one more point when it had none and no more otherwise |
| Calc.DecimalIdempotent | src/components/Calculator.js:103 | pressing the point key twice is the same as pressing it once |
| Calc.KeysKeepOnePoint | src/components/Calculator.js:57-103 | digit and point keys never give a display a second point |
| Calc.CalculateWithoutPending | src/components/Calculator.js:67-68 | with no stored value or no operator, the calculation is the display read as a number |
| Calc.OperatorEffect | src/components/Calculator.js:73-84 | an operator key ends awaiting an operand with the new operator pending; it stores the display's number when nothing was stored, and it stores and shows the pending operation's result when one was pending |
| Calc.RepeatedOperatorReapplies | src/components/Calculator.js:73-84 | two operator keys in a row after a number combine the displayed number with itself under the first operator, show that result and leave the second operator pending |
| Calc.EqualsEffect | src/components/Calculator.js:86-94 | equals without a pending operator changes nothing; with one it shows the result, clears value and operator and awaits an operand |
| Calc.EqualsIdempotent | src/components/Calculator.js:86-94 | pressing equals twice is the same as pressing it once |
| Calc.KeysKeepConsistent | src/components/Calculator.js:57-103 | every key keeps a value stored exactly when an operator is pending |
| Calc.StandardCalculator.constructor | src/components/Calculator.js:52-55 | display "0", no value, no operator, not waiting |
| Calc.StandardCalculator.HandleDigitClick | src/components/Calculator.js:57-64 | the state becomes the digit transition of the old state |
| Calc.StandardCalculator.PerformCalculation | src/components/Calculator.js:66-71 | returns the pending operation applied to the stored value and the display, or the display's number when nothing is pending |
| Calc.StandardCalculator.HandleOperatorClick | src/components/Calculator.js:73-84 | the state becomes the operator transition of the old state |
| Calc.StandardCalculator.HandleEquals | src/components/Calculator.js:86-94 | the state becomes the equals transition of the old state |
| Calc.StandardCalculator.HandleClear | src/components/Calculator.js:96-101 | display "0", no value, no operator, not waiting, whatever the state before |
| Calc.StandardCalculator.HandleDecimal | src/components/Calculator.js:103 | the state becomes the point transition of the old state |

## Left out

- Browser storage (`localStorage`, `JSON.parse`, `JSON.stringify`) and the
  effects that persist the store. Loading is an `Option` input and nothing is
  written back.
- Rendering, JSX, animation, routing (`useParams`), charts, the progress ring,
  icons and styling. `Profile` uses an icon it never imports (`FaTrophy`), a
  rendering failure outside this model.
- `setTimeout` scheduling, effect clean-up and React's batching of state
  updates. Each handler is one atomic step. The timer is one `Tick` per firing.
- The `examHistory` closure that `addExamResult` reads may be stale. The model
  reads the store's current history.
- `Date` time stamps and date formatting. The date is an opaque string input.
- Floating point. The calculator's numbers are uninterpreted and percentages
  are exact reals, so `toFixed` rounding and `NaN` are not modelled.
- The financial calculator (TVM and NPV), the sign-toggle key and the
  unconnected "%" key of the standard calculator, and the calculator's tabs.
- `useDraggable.js`, `StickyNote.js` and the presentation-only components
  (`Dashboard`, `Achievements`, `Home`, `Navbar`, `Settings`, `FormulaSheets`,
  `App`).
- The question file `questions.json` is not part of this model. It is a
  constructor parameter of `ExamInterface`.
- Exam.ExamInterface.CurrentQuestion: returns `None` where the running screen
  would fail reading a field of `undefined` for an empty selection; the
  failure itself is rendering and is not modelled.
- Exam.EmptySelectionFinishesAtOnce: describes only the handler and timer
  state machine. In the app, the running screen for an empty selection fails
  reading `currentQuestion.question` of `undefined` while rendering, so that
  render never commits, the timer effect never runs and the results screen is
  never reached; rendering and effect scheduling are not modelled.
- Details.FindExam: `parseInt` itself is not modelled; the parsed id is an
  input.
