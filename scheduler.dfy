/**
 * `generate_schedule` as the loop it is: two dictionaries updated in place,
 * rows appended to the schedule one day at a time.  The method is proved to
 * produce what `Rotation.Run` describes, so every fact proved about `Run`
 * holds of its results.
 */
module Scheduler {
  import opened SortByKey
  import opened Rotation
  import opened RotationFacts
  import opened StatsFacts

  /**
   * `generate_schedule(names, start, days)`.  `shuffled` is what the first
   * `random.shuffle` made of the roster and `swaps[i]` whether the shuffle of
   * day `i` exchanged its two people.  The schedule and the statistics are
   * those of `Run`: one row per day, dated from `start`, two different roster
   * names a row, every roster name listed once in the statistics, highest
   * count first, the counts adding up to two per day.
   */
  method GenerateSchedule(names: seq<Name>, start: Date, days: int, shuffled: seq<Name>, swaps: seq<bool>)
    returns (schedule: seq<DayRow>, stats: seq<Stat>)
    requires Distinct(names) && IsShuffleOf(shuffled, names)
    requires days > 0 ==> |names| >= 2
    requires |swaps| == RangeLength(days)
    ensures var l := Run(names, shuffled, start, swaps, RangeLength(days));
      schedule == l.rows && stats == Stats(names, l.dutyCount)
    ensures |schedule| == RangeLength(days)
    ensures forall j | 0 <= j < |schedule| :: RowFits(names, start, schedule[j], j)
    ensures multiset(StatNames(stats)) == multiset(names)
    ensures forall p, q | 0 <= p < q < |stats| :: stats[p].count >= stats[q].count
    ensures StatsTotal(stats) == 2 * RangeLength(days)
  {
    var dates := GenerateDates(start, days);
    schedule := [];
    var dutyCount := map x | x in names :: 0;
    var lastDuty := map x | x in names :: -1;
    ShuffleFacts(shuffled, names);
    for i := 0 to |dates|
      invariant Ledger(dutyCount, lastDuty, schedule) == Run(names, shuffled, start, swaps, i)
    {
      dutyCount, lastDuty, schedule := Day(names, shuffled, start, dutyCount, lastDuty, schedule, i, dates[i], swaps[i]);
    }
    stats := Stats(names, dutyCount);
    RunConsistent(names, shuffled, start, swaps, |dates|);
    StatsListEveryName(names, dutyCount);
    StatsRanked(names, dutyCount);
    StatsAddUpToTwoPerDay(names, shuffled, start, swaps, |dates|);
  }

  /**
   * One pass of the loop of `generate_schedule`, for day `i` on `date`: the
   * candidates, the two with the least counts, their counts and last duties
   * updated, then the pair in the order the shuffle left it appended as a row.
   * It does what `Rotation.Step` describes.
   */
  method Day(names: seq<Name>, shuffled: seq<Name>, start: Date, dutyCount: map<Name, int>, lastDuty: map<Name, int>, schedule: seq<DayRow>,
             i: nat, date: Date, swap: bool)
    returns (dutyCount': map<Name, int>, lastDuty': map<Name, int>, schedule': seq<DayRow>)
    requires Distinct(names) && |names| >= 2 && IsShuffleOf(shuffled, names) && Tracks(names, Ledger(dutyCount, lastDuty, schedule))
    requires date == start + i
    ensures Ledger(dutyCount', lastDuty', schedule') == Step(names, shuffled, start, Ledger(dutyCount, lastDuty, schedule), i, swap)
  {
    ghost var l := Ledger(dutyCount, lastDuty, schedule);
    var selected := Pick(names, shuffled, dutyCount, lastDuty, schedule, i);
    dutyCount', lastDuty' := Tally(dutyCount, lastDuty, selected, i);
    var pair := selected;
    if swap {
      selected := [selected[1], selected[0]];
    }
    var row := DayRow(date, Weekday(date), selected[0], selected[1]);
    schedule' := schedule + [row];
    RecordMatches(l, pair[0], pair[1], i, row, Ledger(dutyCount', lastDuty', schedule'));
  }

  /**
   * The day's two people: the names of the shuffled roster whose last duty
   * was before day `i - 1`, or the whole roster in input order when fewer than
   * two are, sorted by count, first two taken.
   */
  method Pick(names: seq<Name>, shuffled: seq<Name>, dutyCount: map<Name, int>, lastDuty: map<Name, int>, schedule: seq<DayRow>, i: nat)
    returns (selected: seq<Name>)
    requires Distinct(names) && |names| >= 2 && IsShuffleOf(shuffled, names) && Tracks(names, Ledger(dutyCount, lastDuty, schedule))
    ensures selected == Chosen(names, shuffled, Ledger(dutyCount, lastDuty, schedule), i)
    ensures |selected| == 2 && selected[0] != selected[1] && selected[0] in names && selected[1] in names
  {
    ShuffleFacts(shuffled, names);
    var _, _ := StepChoice(names, shuffled, Ledger(dutyCount, lastDuty, schedule), i);
    var candidates := Eligible(shuffled, lastDuty, i);
    if |candidates| < 2 {
      candidates := names;
    }
    selected := Sort(candidates, ByCount(dutyCount))[..2];
  }

  /**
   * The inner loop of `generate_schedule` over the two selected people: each
   * gets one more duty and day `i` as last duty; nobody else changes.
   */
  method Tally(dutyCount: map<Name, int>, lastDuty: map<Name, int>, selected: seq<Name>, i: int)
    returns (counted: map<Name, int>, last: map<Name, int>)
    requires |selected| == 2
    requires selected[0] in dutyCount && selected[1] in dutyCount && selected[0] in lastDuty && selected[1] in lastDuty
    ensures counted.Keys == dutyCount.Keys && last.Keys == lastDuty.Keys
    ensures forall x | x in dutyCount ::
      counted[x] == dutyCount[x] + (if x == selected[0] then 1 else 0) + (if x == selected[1] then 1 else 0)
    ensures forall x | x in lastDuty :: last[x] == if x == selected[0] || x == selected[1] then i else lastDuty[x]
  {
    counted, last := dutyCount, lastDuty;
    for t := 0 to 2
      invariant counted.Keys == dutyCount.Keys && last.Keys == lastDuty.Keys
      invariant forall x | x in dutyCount ::
        counted[x] == dutyCount[x] + (if 0 < t && x == selected[0] then 1 else 0) + (if 1 < t && x == selected[1] then 1 else 0)
      invariant forall x | x in lastDuty ::
        last[x] == if (0 < t && x == selected[0]) || (1 < t && x == selected[1]) then i else lastDuty[x]
    {
      counted := counted[selected[t] := counted[selected[t]] + 1];
      last := last[selected[t] := i];
    }
  }

  /** A ledger that agrees with `Record(l, a, b, i, row)` entry by entry is that ledger. */
  lemma RecordMatches(l: Ledger, a: Name, b: Name, i: int, row: DayRow, l': Ledger)
    requires a in l.dutyCount && b in l.dutyCount && a in l.lastDuty && b in l.lastDuty
    requires l'.dutyCount.Keys == l.dutyCount.Keys && l'.lastDuty.Keys == l.lastDuty.Keys
    requires forall x | x in l.dutyCount ::
      l'.dutyCount[x] == l.dutyCount[x] + (if x == a then 1 else 0) + (if x == b then 1 else 0)
    requires forall x | x in l.lastDuty :: l'.lastDuty[x] == if x == a || x == b then i else l.lastDuty[x]
    requires l'.rows == l.rows + [row]
    ensures l' == Record(l, a, b, i, row)
  {
    var r := Record(l, a, b, i, row);
    assert l'.dutyCount == r.dutyCount;
    assert l'.lastDuty == r.lastDuty;
  }
}
