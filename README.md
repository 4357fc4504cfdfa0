# Random duty schedule generator, modelled in Dafny

The tool builds a duty roster. For a number of days starting at a given date,
it picks two people a day from a list of names: one for the morning slot and
one for the afternoon slot. It returns the schedule and a table of how often
each person serves. This project models its core, `generate_schedule`, and
its two helpers `generate_dates` and `validate_input`. The properties it
proves are listed in the table below. Among them: the method computes exactly
the rotation described here, nobody serves two days running on a roster of
four or more, and no two people's duty counts ever differ by more than one.

The rule for day `i`, as the model states it:

- **Eligible pool.** Everybody whose last duty was before day `i - 1` is
  eligible. They keep the order of the roster after the initial shuffle.
- **Fallback.** When fewer than two are eligible, the pool is the whole roster
  in input order.
- **Choice.** The pool is sorted by duty count with Python's stable sort, and
  the first two are taken.
- **Update.** Those two get one more duty, and day `i` becomes their last duty.
- **Slot order.** A shuffle of the pair decides who takes the morning.

Modules:

- `SortByKey` (`sort_by_key.dfy`) models `sorted(xs, key=...)` as a stable
  selection sort. `LeastTwoAt` says which two elements its first two are.
- `Rotation` (`rotation.dfy`) holds the value-level model:
  - `GenerateDates` and `ValidateInput`;
  - the pool (`Eligible`, `Candidates`);
  - the choice (`Select`, `Chosen`);
  - one day of the loop (`Step`, built from `Record`);
  - `Run`, the first `k` days;
  - the statistics frame (`Stats`).
- `RotationFacts` (`rotation_facts.dfy`) holds what one day does and what holds
  after any number of days. The latter is two invariants: `Consistent` for the
  bookkeeping, and `Fair` for the balance of the counts.
- `StatsFacts` (`stats_facts.dfy`) holds the properties of the statistics
  frame.
- `Scheduler` (`scheduler.dfy`) is `generate_schedule` itself. The
  dictionaries are updated in a loop over the days. The inner loop over the
  two selected people is `Tally`. The method is proved to produce exactly
  what `Run` and `Stats` describe.

Randomness, dates and names are modelled as follows:

- **Initial shuffle.** The parameter `shuffled` stands for the shuffled roster
  and must be a permutation of the roster.
- **Daily shuffle.** A flag per day (`swaps[i]`) says whether the pair was
  exchanged.
- **Dates.** A date is its proleptic Gregorian day number, as
  `date.toordinal()` gives it. The weekday index is `(ordinal + 6) % 7`, which
  is 0 for Monday.
- **Names.** They are strings and must be distinct, since they are dictionary
  keys.

One quirk is modelled as written. `last_duty` starts at -1, and the
eligibility test is `last_duty < i - 1`. So on day 0 nobody is eligible, the
day falls back to the roster in input order, and `names[0]` and `names[1]`
serve, whatever the shuffle did. On rosters of two or three names, every later
day falls back as well. On four or more, no later day does, and nobody ever
serves two days running. On every roster, the counts stay within one of each
other.

## Model

| member | source | states |
|---|---|---|
| Rotation.GenerateDates | generate_schedule.py:22-24 | one date per day of `range(days)`, none for a non-positive count, the `i`-th being `start + i` |
| Rotation.WeekdayAdvances | generate_schedule.py:71 | the weekday index of `start + i` is that of `start` advanced by `i` modulo 7 |
| Rotation.ValidateInput | generate_schedule.py:26-33 | rejected exactly when `days < 1` or fewer than 2 names, the day count checked first; otherwise accepted, with the warning exactly when `days * 2 > len(names)` |
| RotationFacts.RepeatWarningIsExact | generate_schedule.py:32-33 | for accepted input, the warning is raised exactly when somebody ends up with two or more duties |
| Rotation.EligibleMembers | generate_schedule.py:50-51 | the candidates are exactly the names of the shuffled roster whose last duty is before `i - 1`, with no repeats |
| Rotation.EligibleKeepsOrder | generate_schedule.py:50-51 | the candidates keep the order of the shuffled roster: of two eligible names, the earlier one in the roster comes first among the candidates |
| Rotation.CandidatesMembers | generate_schedule.py:54-59 | fewer than two candidates: the pool is the input roster itself; otherwise exactly the candidates; no repeats |
| RotationFacts.RelaxedIff | generate_schedule.py:42-56 | on a consistent ledger the fallback is taken exactly on day 0 or when the roster has fewer than four names |
| RotationFacts.RelaxedExactly | generate_schedule.py:42-56 | after any number of days, the next day falls back to the whole roster exactly when it is day 0 or the roster has fewer than four names |
| RotationFacts.DayZeroTakesFirstTwo | generate_schedule.py:42-73 | day 0 puts `names[0]` and `names[1]` on duty, whatever the first shuffle did; the swap flag decides their slots |
| SortByKey.SortIsSorted | generate_schedule.py:57 | `sorted` returns its input in ascending key order |
| SortByKey.SortIsPermutation | generate_schedule.py:57 | `sorted` returns a permutation of its input |
| SortByKey.SortKeepsEqualKeys | generate_schedule.py:57 | when all keys are equal, the stable sort keeps the input order |
| SortByKey.FirstTwoOfSort | generate_schedule.py:57-59 | the first two of the sort have the least key, and then the least key among the rest; ties go to the earlier pool position |
| SortByKey.LeastTwoAtIsUnique | generate_schedule.py:57-59 | that description fixes the two positions uniquely |
| RotationFacts.StepChoice | generate_schedule.py:50-59 | the day's pair is the pool's two least-count members, ties to the earlier; the two are different roster names |
| RotationFacts.EarlierTiesLose | generate_schedule.py:50-59 | of the eligible names, one that comes before a chosen name in the shuffled roster was passed over only because its count is strictly greater |
| RotationFacts.TiesGoToEarlierInShuffle | generate_schedule.py:50-59 | on a day that does not fall back, a tie in count goes to whoever comes first in the shuffled roster |
| Scheduler.Pick | generate_schedule.py:50-59 | the method that computes the pool and the pair yields the pair `Chosen` describes: two different roster names |
| RotationFacts.StepUpdates | generate_schedule.py:62-64 | exactly the two chosen gain one duty and get day `i` as last duty; every other entry stays as it was |
| RotationFacts.StepTotal | generate_schedule.py:62-63 | each day adds exactly two to the sum of the counts |
| Scheduler.Tally | generate_schedule.py:62-64 | the inner loop adds one to the count of each selected person and sets their last duty to `i`; no other entry or key changes |
| RotationFacts.StepRow | generate_schedule.py:67-75 | a day keeps the earlier rows and appends one dated `start + i`, with its weekday index; the morning and afternoon slots are the chosen pair, exchanged when the shuffle swapped it |
| RotationFacts.StepRowFits | generate_schedule.py:67-75 | the appended row has the right date and weekday and two different roster names |
| RotationFacts.StepConsistent | generate_schedule.py:48-75 | one day keeps the invariant: counts sum to two per day, last duties agree with counts and with the latest row, every row fits, and on four or more names nobody serves two days running |
| RotationFacts.RunConsistent | generate_schedule.py:41-75 | the invariant holds after any number of days, from the initial dictionaries on |
| RotationFacts.NoBackToBack | generate_schedule.py:50-51 | consecutive days share nobody exactly when the roster has four or more names |
| RotationFacts.ChosenAreIdle | generate_schedule.py:50-59 | while two people have not served, the day picks two who have not |
| RotationFacts.SingleDutyWhenEnoughPeople | generate_schedule.py:48-64 | when `2 * days <= len(names)`, nobody serves more than once |
| RotationFacts.TwoNamesServeEveryDay | generate_schedule.py:54-64 | with exactly two names, both have a count of `k` after the first `k` days, so both serve every day |
| RotationFacts.PoolBehind | generate_schedule.py:50-59 | while the counts are balanced, nobody left out of the day's pool has a smaller count than somebody in it |
| RotationFacts.StepFair | generate_schedule.py:48-64 | one day keeps the counts within one of each other, and leaves the two who served with at least the count of everybody else |
| RotationFacts.RunFair | generate_schedule.py:41-64 | that balance holds after any number of days, from the initial dictionaries on |
| RotationFacts.CountsDifferByAtMostOne | generate_schedule.py:41-64 | after any number of days, no two people's duty counts differ by more than one |
| Scheduler.Day | generate_schedule.py:49-75 | one pass of the loop body yields exactly the ledger that `Step` describes |
| Scheduler.GenerateSchedule | generate_schedule.py:35-83 | the schedule and stats are those of `Run` and `Stats`. Rows: one per day, dated from `start`, two different roster names each. Stats: every roster name once, highest count first, counts summing to `2 * days` |
| StatsFacts.StatsListEveryName | generate_schedule.py:78-81 | the stats frame lists every roster name exactly once, including names with no duty |
| StatsFacts.StatsRanked | generate_schedule.py:81 | the stats rows go from the highest count to the lowest |
| StatsFacts.StatsTotalIsTotal | generate_schedule.py:78-81 | the count column sums to the sum of the dictionary's counts, whatever order the sort leaves |
| StatsFacts.StatsAddUpToTwoPerDay | generate_schedule.py:62-81 | after `days` days the count column sums to `2 * days` |
| StatsFacts.TwoNamesStats | generate_schedule.py:78-81 | with exactly two names, both stats rows show a count of `days` |

## Left out

- `load_names` and `main`. They are file reading, argument parsing, the
  current date, console output and the Excel export. They are I/O, not part of
  the rotation.
- `random.shuffle`. Both calls are parameters instead of a random source:
  `shuffled` for the first call, and one swap flag per day for the second.
- The pandas frames. The schedule is a sequence of `DayRow` values, and the
  statistics are a sequence of `Stat` values. `strftime` and the Chinese
  weekday labels are presentation only, so a row keeps the weekday index.
- Scheduler.GenerateSchedule: requires distinct names. With repeated names the
  dictionaries merge the repeats, and the model does not cover that case.
- Scheduler.GenerateSchedule: requires at least two names when `days > 0`.
  With an empty roster the code fails at the morning slot (`selected[0]`), and
  with one name at the afternoon slot (`selected[1]`). The model leaves those
  failures out rather than modelling them.
- StatsFacts.StatsRanked: `sort_values` defaults to quicksort, which is not
  stable. So only the descending order and the name multiset are claimed. The
  order among equal counts is fixed by the model's stable sort and is not
  claimed.
- The `OverflowError` that `date + timedelta` raises past year 9999 is not
  modelled, because dates are unbounded integers.
- The warning of `validate_input` is modelled as a flag in the result, not as
  console output.
