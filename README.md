# Mental Minute: a verified model of the quiz engine

Mental Minute is a one-minute arithmetic quiz. Each question is a
times-table product or an exact division, shown with six answer choices. A
correct answer scores a point and takes one HP from an Eevee-line companion.
When a stage's HP runs out, the companion evolves into the next of nine
stages. At the end of a run the score goes into a top-five table of dated
high scores.

This project models the game logic of `components/mental-minute.tsx`. It
covers:

- the stage table;
- the distractor loop and the shuffle;
- problem generation;
- the answer handler, with its HP updater and the continuations it schedules;
- the one-second countdown;
- the "DD/MM" date label;
- the qualification test and the save;
- the end-of-game effect.

Modules:

- `Optional`: the option type.
- `Stages`: the nine stages, the HP updater, and the companion's progress over a run.
- `Dates`: `formatDate` and its inverse.
- `Options`: `generateOptions`. The rejection-sampling loop is a method with invariants; the shuffle is an index permutation.
- `Problems`: `generateProblem`'s arithmetic and the finished problem.
- `HighScores`: the seed table, `checkHighScore`'s test, `saveHighScore`'s list (append, stable sort by descending score, keep five), and the table the re-running effect leaves.
- `Controller`: the component's state as a class. Each handler, timer callback and effect is a method on it.

How the environment is modelled:

- **Randomness.** Every `Math.random()` becomes an input.
  - A draw inside `Math.floor(...)` is the integer that expression yields.
  - The coin `Math.random() > 0.5` of line 140 is the boolean `isMultiplication`.
  - The random comparator of line 134 is covered by the shuffle's permutation.
- **Distractors.** The draws come from a stream `draw: nat -> nat`. A fairness hypothesis (`Covers`) says every value of the window shows up within a finite `horizon`. That hypothesis is what proves the loop terminates.
- **Shuffle.** The order that `options.sort(() => Math.random() - 0.5)` leaves is an arbitrary index permutation.
- **Dates.** The current date and the seed dates are `Day` inputs: a day of the month and a zero-based month.
- **Storage.** What `localStorage` held at mount is an `Option<seq<Entry>>`.
- **Timers.** A continuation scheduled with `setTimeout` sits in `pending` until the environment runs it. Any pending continuation may run next.

## Model

| member | source | states |
|---|---|---|
| `Stages.LoseHp` | components/mental-minute.tsx:210-228 | An evolution is scheduled exactly when the HP would fall to 0 or below and a later stage exists. It then targets the next stage and the bar shows 0. Otherwise the HP drops by one, below 0 too at the last stage. |
| `Stages.MaxHp` | components/mental-minute.tsx:13-59 | Every stage starts with between 2 and 5 HP. |
| `Stages.AfterCorrect` | components/mental-minute.tsx:210-222 | The companion after one correct answer: the HP updater, then the evolution it schedules, if any, at the new stage's full HP. Its properties are the lemmas below; `Controller.MentalMinute.CorrectThenEvolve` shows the controller computes it. |
| `Stages.AfterCorrectDrains` | components/mental-minute.tsx:210-227 | A correct answer with at least 2 HP left, or any correct answer at the last stage, costs exactly one HP and keeps the stage. |
| `Stages.AfterCorrectEvolves` | components/mental-minute.tsx:210-222 | A correct answer that empties a stage before the last moves to the next stage at its full HP. |
| `Stages.Progress` | components/mental-minute.tsx:13-59 | After any number of correct answers the stage is a real stage and the HP does not exceed that stage's maxHp. Before the last stage the HP stays at least 1. |
| `Stages.DrainWithin` | components/mental-minute.tsx:210-227 | Once a stage is entered at full HP, each correct answer within it costs one HP. |
| `Stages.StageEntered` | components/mental-minute.tsx:13-59 | Stage k is entered at full HP after exactly the sum of the earlier stages' maxHp correct answers. |
| `Stages.EvolutionSchedule` | components/mental-minute.tsx:210-228 | Stage k is held for maxHp(k) correct answers, losing one HP each. The answer that empties it yields stage k+1 at full HP. |
| `Stages.LastThreshold` | components/mental-minute.tsx:13-59 | With the table's maxHp values (2, 3, then 5 seven times), the last stage is reached after 35 correct answers. |
| `Stages.LastStageDrains` | components/mental-minute.tsx:214-227 | At the last stage nothing floors the HP: 35 + j correct answers leave Sylveon at 5 - j. |
| `Stages.ProgressMonotone` | components/mental-minute.tsx:216-222 | The stage index never decreases as correct answers accumulate. |
| `Dates.Decimal` | components/mental-minute.tsx:87-88 | `Number.prototype.toString()` of a natural number: its decimal digits, most significant first, with no leading zero. |
| `Dates.PadStart` | components/mental-minute.tsx:87-88 | `String.prototype.padStart(width, fill)`: the fill character is prepended until the string is `width` long; a longer string is left as it is. |
| `Dates.TwoDigits` | components/mental-minute.tsx:87-88 | `toString().padStart(2, "0")`, the composition of the two; `Dates.TwoDigitsOf` gives its value. |
| `Dates.TwoDigitsOf` | components/mental-minute.tsx:87-88 | `toString().padStart(2, "0")` of a number below 100 is its tens digit followed by its units digit. |
| `Dates.FormatDate` | components/mental-minute.tsx:86-90 | The label has five characters: the day in two digits, '/', then the one-based month in two digits. |
| `Dates.FormatDateRoundTrip` | components/mental-minute.tsx:86-90 | The label reads back as the same day, so distinct days get distinct labels. |
| `Options.Accept` | components/mental-minute.tsx:129-131 | One pass of the loop body: the drawn value is pushed when it differs from the answer and is not yet in the list; otherwise the list is unchanged. |
| `Options.Gather` | components/mental-minute.tsx:121-131 | The list after n passes, starting from `[correct]`, as if the loop never stopped. `Options.GatherShape`, `Options.GatherGrows` and `Options.GatherCovers` state its properties, and `Options.CollectOptions` returns it at the first n that gives six values. |
| `Options.RangeSize` | components/mental-minute.tsx:124-126 | The draw window from min to max holds max - min + 1 integers. |
| `Options.WindowHasRoom` | components/mental-minute.tsx:124-126 | For every answer of at least 1, the window holds the answer and at least ten other values, so five distractors always exist. |
| `Options.SeqSetSize` | components/mental-minute.tsx:121-131 | Helper: a list has no more distinct values than entries. |
| `Options.SubsetSize` | components/mental-minute.tsx:121-131 | Helper: a subset is no larger than its superset. |
| `Options.GatherShape` | components/mental-minute.tsx:118-131 | After any number of draws the list starts with the correct answer and never repeats a value. Every other entry comes from the window and differs from the answer. Each draw adds at most one value. |
| `Options.GatherGrows` | components/mental-minute.tsx:129-131 | A value once pushed stays in the list. |
| `Options.GatherCovers` | components/mental-minute.tsx:121-131 | Under the fairness hypothesis, every value of the window is in the list by the horizon, so the list is at least as long as the window. |
| `Options.CollectOptions` | components/mental-minute.tsx:118-131 | The loop stops with six values, at the first draw after which six are collected, and within the horizon. Its result is the collected list. |
| `Options.Shuffle` | components/mental-minute.tsx:134 | The choices in the order an index permutation gives: position i holds the choice at `perm[i]`. |
| `Options.ShufflePermutes` | components/mental-minute.tsx:134 | Reordering by an index permutation keeps exactly the same multiset of values. |
| `Options.ShuffleDistinct` | components/mental-minute.tsx:134 | Reordering keeps the values pairwise distinct. |
| `Options.GenerateOptions` | components/mental-minute.tsx:116-135 | The result has six pairwise-distinct choices with the correct answer exactly once. Every distractor lies in max(1, answer - 10) .. answer + 10. The result is a permutation of what the loop collected. |
| `Problems.Pose` | components/mental-minute.tsx:140-165 | A multiplication is 1..10 times a multiplier from {2, 3, 4, 5, 10}, with the product as answer. A division is that divisor times a quotient 1..10, divided by a divisor from {2, 3, 5, 10}, with the quotient as answer. The answer is always at least 1. |
| `Problems.PoseReachesEveryProblem` | components/mental-minute.tsx:145-164 | Every such product and every such division is posed by some in-range draw. |
| `Problems.PoseIsExact` | components/mental-minute.tsx:157-164 | The answer is the value of the expression shown. A division leaves no remainder. |
| `Problems.MakeProblem` | components/mental-minute.tsx:138-167 | The problem has the posed question and well-formed choices around its answer. |
| `HighScores.Seed` | components/mental-minute.tsx:98-109 | The seed table of 15, 12 and 10 is already sorted and has three entries. |
| `HighScores.MinScore` | components/mental-minute.tsx:244 | `Math.min(...)` over the scores is one of the scores and no larger than any. |
| `HighScores.Qualifies` | components/mental-minute.tsx:242-250 | A score qualifies exactly when the table has fewer than five entries, or the score beats at least one stored score. |
| `HighScores.InsertDesc` | components/mental-minute.tsx:260 | One insertion step of the sort: the entry goes after every leading entry scoring at least as much, before the first that scores less. |
| `HighScores.SortDesc` | components/mental-minute.tsx:260 | `sort((a, b) => b.score - a.score)`: insertion sort by descending score whose insertions put an entry after the equal ones already placed. `HighScores.SortDescIsStableSort` states that it is a stable sort. |
| `HighScores.Save` | components/mental-minute.tsx:260 | `[...highScores, newScore]` sorted by descending score and sliced to the first five. `HighScores.SaveKeepsTable` and the lemmas after it state its properties. |
| `HighScores.InsertPosSplits` | components/mental-minute.tsx:260 | Inserting an entry splits the table at one position, with the entry between the two parts. |
| `HighScores.InsertPosBounds` | components/mental-minute.tsx:260 | Everything before that position scores at least the entry's score; the entry right after it scores less. |
| `HighScores.InsertDescPermutes` | components/mental-minute.tsx:260 | Insertion keeps every entry and adds the new one once. |
| `HighScores.InsertDescSorted` | components/mental-minute.tsx:260 | Insertion into a descending table keeps it descending. |
| `HighScores.InsertDescStable` | components/mental-minute.tsx:260 | Insertion keeps equal scores in their original order. |
| `HighScores.TiedConcat` | components/mental-minute.tsx:260 | Helper: the entries with a given score in a concatenation are those of each part, in order. |
| `HighScores.TiedNone` | components/mental-minute.tsx:260 | Helper: a descending table that starts below k has no entry scoring k. |
| `HighScores.SortDescIsStableSort` | components/mental-minute.tsx:260 | The sort by descending score is sorted and a permutation, and it is stable: equal scores keep their order. |
| `HighScores.SaveKeepsTable` | components/mental-minute.tsx:253-264 | A save yields a descending table of min(n + 1, 5) entries drawn from the old table plus the new entry. |
| `HighScores.SaveIsStable` | components/mental-minute.tsx:260 | Among equal scores, the saved table keeps an order-preserving selection. |
| `HighScores.SaveDropsLowest` | components/mental-minute.tsx:260 | Any entry cut by the slice scores no higher than every kept entry. |
| `HighScores.PrefixHoldsHighest` | components/mental-minute.tsx:260 | Helper: in a descending list, whatever lies beyond a prefix scores no higher than the prefix. |
| `HighScores.SortedIsFixed` | components/mental-minute.tsx:260 | Sorting a table that is already descending leaves it unchanged. |
| `HighScores.SortAppendSorted` | components/mental-minute.tsx:260 | Appending to a descending table and sorting is inserting the entry in place. |
| `HighScores.SaveInsertsOnce` | components/mental-minute.tsx:253-264 | A qualifying score saved once goes in at its place. All old entries are kept, except the lowest when the table was full. |
| `HighScores.CountBelowConcat` | components/mental-minute.tsx:260 | Helper: counting entries below a score is additive over concatenation. |
| `HighScores.CountBelowPositive` | components/mental-minute.tsx:244-246 | Helper: the count of entries below s is positive iff some entry scores below s. |
| `HighScores.CountBelowInsert` | components/mental-minute.tsx:260 | Inserting an entry of score s does not change the count of entries below s. |
| `HighScores.CountBelowSort` | components/mental-minute.tsx:260 | Sorting does not change the count of entries below a score. |
| `HighScores.SaveShrinksRoom` | components/mental-minute.tsx:242-264 | Each qualifying save brings the table closer to the state where the score no longer qualifies. |
| `HighScores.Settle` | components/mental-minute.tsx:285-289 | Saving again while the score still qualifies ends with a table the score does not qualify for. |
| `HighScores.InsertAfterCopies` | components/mental-minute.tsx:260 | Inserting e into k copies of e followed by lower entries puts it after the copies. |
| `HighScores.SaveOfCopies` | components/mental-minute.tsx:253-264 | Saving e into k copies of e followed by lower entries gives k + 1 copies followed by the rest, cut to five. |
| `HighScores.FillFrom` | components/mental-minute.tsx:285-289 | From k copies of e followed by lower entries, the repeated saves end at five copies. |
| `HighScores.ReentryFillsTable` | components/mental-minute.tsx:285-289 | As written, a run that beats every stored score ends with five copies of itself in the table. |
| `HighScores.FullTableExample` | components/mental-minute.tsx:242-264 | At a full table [50, 40, 30, 20, 10], 25 qualifies; saving it gives [50, 40, 30, 25, 20]. |
| `HighScores.EmptyTableExample` | components/mental-minute.tsx:242-264 | Any score qualifies against an empty table and becomes its only entry. |
| `HighScores.SeedReentryExample` | components/mental-minute.tsx:285-289 | At the seed table, a run of 20 saved once gives [20, 15, 12, 10], yet the re-running effect leaves five entries of 20. |
| `Controller.Countdown` | components/mental-minute.tsx:271-277 | The clock never goes below 0. It reaches 0 exactly when at most one second was left; otherwise it drops by one. |
| `Controller.AfterTicks` | components/mental-minute.tsx:271-277 | The clock after n runs of the interval's updater `Countdown`, starting from t. |
| `Controller.ClockFrom` | components/mental-minute.tsx:271-277 | n ticks from t seconds, with n at most t, leave t - n. |
| `Controller.SixtySecondRun` | components/mental-minute.tsx:173-175 | From the 60 set by startGame, n < 60 ticks leave 60 - n seconds. The tick that ends the game is the sixtieth, and it leaves 0. |
| `Controller.MentalMinute.Valid` | components/mental-minute.tsx:62-79 | The invariant over the component's state, listed below the table. The constructor establishes it; every other method of the class requires it and preserves it. |
| `Controller.MentalMinute.constructor` | components/mental-minute.tsx:62-113 | The mounted state: Eevee at full HP, 60 seconds, score 0, the placeholder problem, inactive, nothing pending. The table is the stored one, or the seed table when storage holds none. |
| `Controller.MentalMinute.GenerateProblem` | components/mental-minute.tsx:138-170 | A new well-formed problem with the posed question. The selection is cleared and the answer lock released; nothing else changes. |
| `Controller.MentalMinute.StartGame` | components/mental-minute.tsx:173-182 | The game is active with 60 seconds, score 0, no new-high-score flag, Eevee at full HP and a new problem. The table and the pending continuations are untouched. |
| `Controller.MentalMinute.CheckAnswer` | components/mental-minute.tsx:196-239 | Ignored while inactive or locked. Otherwise it locks and records the selection. A correct answer adds a point, applies the HP updater, and schedules the evolution it calls for, then the next problem. A wrong answer schedules only the next problem and changes neither score nor HP. |
| `Controller.MentalMinute.FireEvolve` | components/mental-minute.tsx:216-222 | The companion becomes the scheduled stage at that stage's full HP, and the continuation leaves the pool. |
| `Controller.MentalMinute.CorrectThenEvolve` | components/mental-minute.tsx:196-227 | A correct answer followed by the evolution it scheduled, if any: the companion ends as `Stages.AfterCorrect` of the one before, the step that `Stages.Progress` iterates. The score grows by one, the lock is held with the selection recorded, and only the next problem is left pending. |
| `Controller.MentalMinute.FireNextProblem` | components/mental-minute.tsx:230-238 | A new well-formed problem with the lock released, and the continuation leaves the pool. |
| `Controller.MentalMinute.Tick` | components/mental-minute.tsx:267-282 | The clock counts down. The game stays active exactly while more than one second was left. |
| `Controller.MentalMinute.SaveHighScore` | components/mental-minute.tsx:253-264 | The table becomes the save of today's dated score; nothing else changes. |
| `Controller.MentalMinute.CheckHighScore` | components/mental-minute.tsx:242-250 | One call: a qualifying score is flagged and saved once. Otherwise nothing changes. |
| `Controller.MentalMinute.SettleHighScores` | components/mental-minute.tsx:285-289 | Once the game is over at 0 seconds with a positive score, the effect runs checkHighScore again after every save. The table ends as `Settle` describes, and the flag is set iff the score first qualified. Otherwise nothing changes. |

Every method of `Controller.MentalMinute` also preserves `Valid()`:

- the stage index is a real stage, and the shown companion is that stage;
- the HP is at most the stage's maxHp, and it is negative only at the last stage;
- the clock stays within 0..60, and the score is never negative;
- the answer lock is held only while a next-problem continuation is pending;
- while a game is active, the problem shown is well formed: six distinct choices with the answer exactly once, and distractors from the window;
- every pending evolution targets a real stage after the first.

## Left out

- Rendering (JSX, Tailwind classes, the HP bar, the high-score list), the sound effects and the audio elements: they are presentation, not game logic.
- `localStorage` writes and `JSON.parse`/`JSON.stringify`.
  - The stored table is an input, an already parsed list of entries.
  - The saves to storage at lines 111 and 263 are not modelled.
- `new Date()` and the `setDate(getDate() - 1)` calendar arithmetic: the dates are inputs.
- Wall-clock time. The 83 ms, 300 ms, 500 ms and 1000 ms delays do not order the continuations in `Controller`; any pending continuation may run next.
  - This over-approximates the browser: in it an evolution (83 ms) always runs before the lock is released (300 ms).
  - `Stages.Progress` fixes that order for one run.
- Cancellation: clearing the interval on unmount or on deactivation is represented only by `Tick` requiring an active game.
  - `startGame` does not cancel continuations pending from an earlier run, and neither does the model.
- React's batching of state updates and StrictMode's double call of updaters.
  - The methods apply each handler's updates in the order written, except that `StartGame` generates the problem first. It touches fields the other setters do not, so the resulting state is the same.
  - The initial-problem effect (lines 292-294) is `GenerateProblem`, called on the constructed state.
- `app/page.tsx` only mounts the component and is not part of this model.
- `Options.CollectOptions`: requires an answer of at least 1 and a fair random source (`Covers`). Every answer `Pose` produces is at least 1. For unfair draws the source loop may run forever, and that case is not modelled.
- `Options.GenerateOptions`: the shuffle is an arbitrary permutation. The bias of sorting with a random comparator is not modelled.
- The HP at the last stage goes below 0 in the code (once no evolution is possible, line 227 returns `prevHP - 1` with no floor). The model follows the code, not a description of HP that floors at 0.
- The code comments name the tables as 2, 4, 5, 10 and the divisors as 2, 5, 10. The arrays at lines 146 and 155 also hold 3, and the model follows the arrays.

## Findings

| source | as written | input that shows it | evidently intended | confidence | as-written member | corrected member |
|---|---|---|---|---|---|---|
| components/mental-minute.tsx:242-250, 285-289 | `checkHighScore` depends on `highScores`. Every save therefore re-creates it and re-runs the end-of-game effect, which saves the same score again while it still qualifies. | The seed table [15, 12, 10] and a run scoring 20 end with [20, 20, 20, 20, 20]. | The run's score is inserted once: [20, 15, 12, 10]. | not executed | `HighScores.ReentryFillsTable` | `HighScores.SaveInsertsOnce` |
