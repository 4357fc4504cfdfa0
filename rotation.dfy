/**
 * The duty rotation of `generate_schedule.py` as functions on values: the
 * day range, the input check, and one day of the greedy choice of a morning
 * and an afternoon person.  `Run` replays the loop of `generate_schedule`
 * for a number of days; the method in module Scheduler is proved equal to it.
 *
 * The two calls to `random.shuffle` are inputs here: `shuffled` is the roster
 * after the first shuffle, and `swap` says whether the second shuffle
 * exchanged the day's two people.
 */
module Rotation {
  import opened SortByKey

  type Name = string

  /**
   * A calendar date as its proleptic Gregorian ordinal, as Python's
   * `date.toordinal()` numbers them: 0001-01-01 is day 1, a Monday.  Adding
   * `timedelta(days=i)` adds `i`.
   */
  type Date = int

  /** `date.weekday()`: 0 for Monday through 6 for Sunday. */
  function Weekday(d: Date): (w: nat)
    ensures w < 7
  {
    (d + 6) % 7
  }

  /** Each day later is one weekday later, Sunday wrapping round to Monday. */
  lemma WeekdayAdvances(start: Date, i: nat)
    ensures Weekday(start + i) == (Weekday(start) + i) % 7
  {
    var q := (start + 6) / 7;
    assert start + 6 == 7 * q + Weekday(start);
    assert start + i + 6 == 7 * q + (Weekday(start) + i);
  }

  /** `len(range(days))`: a negative count gives an empty range. */
  function RangeLength(days: int): nat {
    if days > 0 then days else 0
  }

  /** `generate_dates`: the dates `start`, `start + 1`, ... for `days` days. */
  function GenerateDates(start: Date, days: int): (dates: seq<Date>)
    ensures |dates| == RangeLength(days)
    ensures forall i | 0 <= i < |dates| :: dates[i] == start + i
  {
    seq(RangeLength(days), i => start + i)
  }

  datatype InputError = NonPositiveDays | TooFewNames

  /**
   * What `validate_input` does: raise one of two errors, or return after
   * printing, or not printing, the warning that people will serve more than
   * once.
   */
  datatype Verdict = Accepted(repeatWarning: bool) | Rejected(error: InputError)

  /** `validate_input`: the day count is checked first, then the roster size. */
  function ValidateInput(names: seq<Name>, days: int): (v: Verdict)
    ensures v.Rejected? <==> days < 1 || |names| < 2
    ensures v == Rejected(NonPositiveDays) <==> days < 1
    ensures v.Accepted? ==> (v.repeatWarning <==> days * 2 > |names|)
  {
    if days < 1 then Rejected(NonPositiveDays)
    else if |names| < 2 then Rejected(TooFewNames)
    else Accepted(days * 2 > |names|)
  }

  /** No name occurs twice. */
  predicate Distinct(s: seq<Name>) {
    forall p, q | 0 <= p < q < |s| :: s[p] != s[q]
  }

  /** `shuffled` holds the names of `names`, each as often, in some order. */
  predicate IsShuffleOf(shuffled: seq<Name>, names: seq<Name>) {
    multiset(shuffled) == multiset(names)
  }

  /** A shuffle of a roster holds the same names and repeats none if the roster repeats none. */
  lemma ShuffleFacts(shuffled: seq<Name>, names: seq<Name>)
    requires IsShuffleOf(shuffled, names)
    ensures forall x :: x in shuffled <==> x in names
    ensures Distinct(names) ==> Distinct(shuffled)
  {
    forall x ensures x in shuffled <==> x in names {
      assert x in shuffled <==> x in multiset(shuffled);
      assert x in names <==> x in multiset(names);
    }
    if Distinct(names) {
      DistinctByMultiplicity(names);
      forall p, q | 0 <= p < q < |shuffled| ensures shuffled[p] != shuffled[q] {
        if shuffled[p] == shuffled[q] {
          TwiceInMultiset(shuffled, p, q);
          assert false;
        }
      }
    }
  }

  /** In a sequence without repeats every element occurs once. */
  lemma {:induction false} DistinctByMultiplicity(s: seq<Name>)
    requires Distinct(s)
    ensures forall x :: multiset(s)[x] <= 1
  {
    if s != [] {
      DistinctByMultiplicity(s[1..]);
      assert s == [s[0]] + s[1..];
      assert s[0] !in s[1..];
    }
  }

  /** An element at two positions occurs at least twice. */
  lemma TwiceInMultiset(s: seq<Name>, p: nat, q: nat)
    requires p < q < |s| && s[p] == s[q]
    ensures multiset(s)[s[p]] >= 2
  {
    assert s == s[..q] + [s[q]] + s[q + 1..];
    assert s[p] in s[..q];
  }

  /** One row of the schedule frame. */
  datatype DayRow = DayRow(date: Date, weekday: nat, morning: Name, afternoon: Name)

  /** The loop's state: the two dictionaries and the rows produced so far. */
  datatype Ledger = Ledger(dutyCount: map<Name, int>, lastDuty: map<Name, int>, rows: seq<DayRow>)

  /** Both dictionaries have an entry for every name of the roster. */
  predicate Tracks(names: seq<Name>, l: Ledger) {
    forall x | x in names :: x in l.dutyCount && x in l.lastDuty
  }

  /** The count of `x`, or 0 when `x` has none. */
  function CountOf(dutyCount: map<Name, int>, x: Name): int {
    if x in dutyCount then dutyCount[x] else 0
  }

  /** `lambda x: duty_count[x]`; every candidate is a key, so the default of `CountOf` is never used. */
  function ByCount(dutyCount: map<Name, int>): Name -> int {
    x => CountOf(dutyCount, x)
  }

  /**
   * The list comprehension that gathers the day's candidates: the names of
   * `order` whose last duty was before day `i - 1`, in the order of `order`.
   */
  function Eligible(order: seq<Name>, lastDuty: map<Name, int>, i: int): (c: seq<Name>)
    requires forall x | x in order :: x in lastDuty
    ensures |c| <= |order|
  {
    if order == [] then []
    else
      var rest := Eligible(order[1..], lastDuty, i);
      if lastDuty[order[0]] < i - 1 then [order[0]] + rest else rest
  }

  /** The candidates are exactly the names of `order` whose last duty was before day `i - 1`, and they repeat none if `order` does not. */
  lemma {:induction false} EligibleMembers(order: seq<Name>, lastDuty: map<Name, int>, i: int)
    requires forall x | x in order :: x in lastDuty
    ensures forall x :: x in Eligible(order, lastDuty, i) <==> x in order && lastDuty[x] < i - 1
    ensures Distinct(order) ==> Distinct(Eligible(order, lastDuty, i))
  {
    if order != [] {
      var rest := Eligible(order[1..], lastDuty, i);
      EligibleMembers(order[1..], lastDuty, i);
      assert order == [order[0]] + order[1..];
      assert order[0] !in order[1..] ==> order[0] !in rest;
    }
  }

  /** The first position of `x` in `s`. */
  function IndexOf(s: seq<Name>, x: Name): (k: nat)
    requires x in s
    ensures k < |s| && s[k] == x
    ensures forall j | 0 <= j < k :: s[j] != x
  {
    if s[0] == x then 0 else 1 + IndexOf(s[1..], x)
  }

  /**
   * The candidates keep the order of `order`: of two eligible names, the one
   * earlier in `order` is earlier among the candidates.
   */
  lemma {:induction false} EligibleKeepsOrder(order: seq<Name>, lastDuty: map<Name, int>, i: int)
    requires forall x | x in order :: x in lastDuty
    requires Distinct(order)
    ensures var c := Eligible(order, lastDuty, i);
      forall a, b | 0 <= a < b < |order| && lastDuty[order[a]] < i - 1 && lastDuty[order[b]] < i - 1 ::
        order[a] in c && order[b] in c && IndexOf(c, order[a]) < IndexOf(c, order[b])
  {
    EligibleMembers(order, lastDuty, i);
    if order != [] {
      var c := Eligible(order, lastDuty, i);
      var tail := order[1..];
      var rest := Eligible(tail, lastDuty, i);
      assert Distinct(tail);
      EligibleKeepsOrder(tail, lastDuty, i);
      EligibleMembers(tail, lastDuty, i);
      if lastDuty[order[0]] < i - 1 {
        assert c == [order[0]] + rest;
        forall a, b | 0 <= a < b < |order| && lastDuty[order[a]] < i - 1 && lastDuty[order[b]] < i - 1
          ensures IndexOf(c, order[a]) < IndexOf(c, order[b])
        {
          assert order[b] == tail[b - 1] && order[b] != order[0];
          IndexOfCons(order[0], rest, order[b]);
          if a > 0 {
            assert order[a] == tail[a - 1] && order[a] != order[0];
            IndexOfCons(order[0], rest, order[a]);
          }
        }
      } else {
        assert c == rest;
        forall a, b | 0 <= a < b < |order| && lastDuty[order[a]] < i - 1 && lastDuty[order[b]] < i - 1
          ensures IndexOf(c, order[a]) < IndexOf(c, order[b])
        {
          assert order[a] == tail[a - 1] && order[b] == tail[b - 1];
        }
      }
    }
  }

  /** Putting `o` in front moves the first position of any other name by one. */
  lemma IndexOfCons(o: Name, rest: seq<Name>, x: Name)
    requires x in rest && x != o
    ensures IndexOf([o] + rest, x) == 1 + IndexOf(rest, x)
  {
    assert ([o] + rest)[1..] == rest;
  }

  /** The day falls back to the whole roster: fewer than two names are eligible. */
  predicate Relaxed(order: seq<Name>, lastDuty: map<Name, int>, i: int)
    requires forall x | x in order :: x in lastDuty
  {
    |Eligible(order, lastDuty, i)| < 2
  }

  /** The day's pool: the eligible names, or the roster in its input order when fewer than two are eligible. */
  function Candidates(names: seq<Name>, order: seq<Name>, lastDuty: map<Name, int>, i: int): (pool: seq<Name>)
    requires |names| >= 2
    requires forall x | x in order :: x in lastDuty
    ensures |pool| >= 2
  {
    if Relaxed(order, lastDuty, i) then names else Eligible(order, lastDuty, i)
  }

  /**
   * The pool is the roster itself on a relaxed day, and otherwise exactly the
   * eligible names; it repeats no name when neither the roster nor `order` does.
   */
  lemma CandidatesMembers(names: seq<Name>, order: seq<Name>, lastDuty: map<Name, int>, i: int)
    requires |names| >= 2
    requires forall x | x in order :: x in lastDuty
    ensures Relaxed(order, lastDuty, i) ==> Candidates(names, order, lastDuty, i) == names
    ensures !Relaxed(order, lastDuty, i) ==> forall x :: x in Candidates(names, order, lastDuty, i) <==> x in order && lastDuty[x] < i - 1
    ensures Distinct(names) && Distinct(order) ==> Distinct(Candidates(names, order, lastDuty, i))
    ensures forall x | x in Candidates(names, order, lastDuty, i) :: x in names || x in order
  {
    EligibleMembers(order, lastDuty, i);
  }

  /** `sorted(candidates, key=lambda x: duty_count[x])[:2]`. */
  function Select(pool: seq<Name>, dutyCount: map<Name, int>): (pair: seq<Name>)
    requires |pool| >= 2
    ensures |pair| == 2 && pair[0] in pool && pair[1] in pool
  {
    SortHasSameElements(pool, ByCount(dutyCount));
    Sort(pool, ByCount(dutyCount))[..2]
  }

  /** The two names that `sorted(candidates, ...)[:2]` picks on day `i`, from the roster after the first shuffle. */
  function Chosen(names: seq<Name>, shuffled: seq<Name>, l: Ledger, i: int): (pair: seq<Name>)
    requires |names| >= 2 && IsShuffleOf(shuffled, names) && Tracks(names, l)
    ensures |pair| == 2 && pair[0] in names && pair[1] in names
  {
    ShuffleFacts(shuffled, names);
    CandidatesMembers(names, shuffled, l.lastDuty, i);
    Select(Candidates(names, shuffled, l.lastDuty, i), l.dutyCount)
  }

  /** The bookkeeping after `a` and `b` are chosen for day `i`: both counts go up, both last duties become `i`, `row` is appended. */
  function Record(l: Ledger, a: Name, b: Name, i: int, row: DayRow): (l': Ledger)
    requires a in l.dutyCount && b in l.dutyCount
    ensures l'.dutyCount.Keys == l.dutyCount.Keys
    ensures l'.lastDuty.Keys == l.lastDuty.Keys + {a, b}
    ensures forall x | x in l.dutyCount :: l'.dutyCount[x] == l.dutyCount[x] + (if x == a then 1 else 0) + (if x == b then 1 else 0)
    ensures forall x | x in l'.lastDuty :: l'.lastDuty[x] == if x == a || x == b then i else l.lastDuty[x]
    ensures l'.rows == l.rows + [row]
  {
    var counted := l.dutyCount[a := l.dutyCount[a] + 1];
    Ledger(counted[b := counted[b] + 1], l.lastDuty[a := i][b := i], l.rows + [row])
  }

  /** One pass of the loop body, for day `i`; `swap` is what the second shuffle did to the pair. */
  function Step(names: seq<Name>, shuffled: seq<Name>, start: Date, l: Ledger, i: nat, swap: bool): (l': Ledger)
    requires |names| >= 2 && IsShuffleOf(shuffled, names) && Tracks(names, l)
    ensures Tracks(names, l') && |l'.rows| == |l.rows| + 1
  {
    var pair := Chosen(names, shuffled, l, i);
    var date := start + i;
    var row := if swap then DayRow(date, Weekday(date), pair[1], pair[0]) else DayRow(date, Weekday(date), pair[0], pair[1]);
    Record(l, pair[0], pair[1], i, row)
  }

  /** Both dictionaries before the first day: every count 0, every last duty -1. */
  function Initial(names: seq<Name>): (l: Ledger)
    ensures Tracks(names, l)
  {
    Ledger(map x | x in names :: 0, map x | x in names :: -1, [])
  }

  /** The ledger after the first `k` days of the loop. */
  function Run(names: seq<Name>, shuffled: seq<Name>, start: Date, swaps: seq<bool>, k: nat): (l: Ledger)
    requires IsShuffleOf(shuffled, names) && k <= |swaps| && (k > 0 ==> |names| >= 2)
    ensures Tracks(names, l) && Tracks(shuffled, l) && |l.rows| == k
  {
    ShuffleFacts(shuffled, names);
    if k == 0 then Initial(names)
    else Step(names, shuffled, start, Run(names, shuffled, start, swaps, k - 1), k - 1, swaps[k - 1])
  }

  /** One row of the statistics frame. */
  datatype Stat = Stat(name: Name, count: int)

  /** The key of `sort_values('值班次数', ascending=False)`: highest count first. */
  function ByCountDescending(dutyCount: map<Name, int>): Name -> int {
    x => -CountOf(dutyCount, x)
  }

  /** One statistics row per name of `order`, in that order. */
  function StatRows(order: seq<Name>, dutyCount: map<Name, int>): (stats: seq<Stat>)
    requires forall x | x in order :: x in dutyCount
    ensures |stats| == |order|
    ensures forall k | 0 <= k < |stats| :: stats[k].name == order[k] && stats[k].count == dutyCount[order[k]]
  {
    if order == [] then [] else [Stat(order[0], dutyCount[order[0]])] + StatRows(order[1..], dutyCount)
  }

  /** The statistics frame: one row per roster name, sorted by count from highest to lowest. */
  function Stats(names: seq<Name>, dutyCount: map<Name, int>): (stats: seq<Stat>)
    requires forall x | x in names :: x in dutyCount
    ensures |stats| == |names|
    ensures forall k | 0 <= k < |stats| :: stats[k].name in names && stats[k].count == dutyCount[stats[k].name]
  {
    SortHasSameElements(names, ByCountDescending(dutyCount));
    StatRows(Sort(names, ByCountDescending(dutyCount)), dutyCount)
  }

  /** The sum of the counts of `names`. */
  function Total(names: seq<Name>, dutyCount: map<Name, int>): int {
    if names == [] then 0 else CountOf(dutyCount, names[0]) + Total(names[1..], dutyCount)
  }

  /** The sum of the count column of the statistics frame. */
  function StatsTotal(stats: seq<Stat>): int {
    if stats == [] then 0 else stats[0].count + StatsTotal(stats[1..])
  }
}
