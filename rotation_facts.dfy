/**
 * What one day of the rotation does to the two dictionaries and the rows, and
 * the facts that hold of the ledger after every number of days.
 */
module RotationFacts {
  import opened SortByKey
  import opened Rotation

  /**
   * When `m'` is `m` with one added for `a` and one for `b`, the sum over a
   * roster without repeats grows by one for each of them that is on it.
   */
  lemma {:induction false} TotalRaise(names: seq<Name>, m: map<Name, int>, m': map<Name, int>, a: Name, b: Name)
    requires Distinct(names)
    requires forall x | x in names :: x in m && x in m' && m'[x] == m[x] + (if x == a then 1 else 0) + (if x == b then 1 else 0)
    ensures Total(names, m') == Total(names, m) + (if a in names then 1 else 0) + (if b in names then 1 else 0)
  {
    if names != [] {
      assert Distinct(names[1..]);
      TotalRaise(names[1..], m, m', a, b);
      assert names[0] !in names[1..];
    }
  }

  /** A roster whose counts are all zero sums to zero. */
  lemma {:induction false} TotalOfZeros(names: seq<Name>, m: map<Name, int>)
    requires forall x | x in names :: x in m && m[x] == 0
    ensures Total(names, m) == 0
  {
    if names != [] {
      TotalOfZeros(names[1..], m);
    }
  }

  /**
   * The choice of day `i`: the pool positions `p` and `q` that
   * `sorted(candidates, key=...)[:2]` takes, two different roster names.
   */
  lemma StepChoice(names: seq<Name>, shuffled: seq<Name>, l: Ledger, i: nat) returns (p: nat, q: nat)
    requires Distinct(names) && |names| >= 2 && IsShuffleOf(shuffled, names)
    requires Tracks(names, l) && Tracks(shuffled, l)
    ensures var pool := Candidates(names, shuffled, l.lastDuty, i);
      && LeastTwoAt(pool, ByCount(l.dutyCount), p, q)
      && Chosen(names, shuffled, l, i) == [pool[p], pool[q]]
    ensures var pair := Chosen(names, shuffled, l, i);
      pair[0] != pair[1] && pair[0] in names && pair[1] in names
  {
    ShuffleFacts(shuffled, names);
    CandidatesMembers(names, shuffled, l.lastDuty, i);
    var pool := Candidates(names, shuffled, l.lastDuty, i);
    p, q := FirstTwoOfSort(pool, ByCount(l.dutyCount));
  }

  /**
   * On a day that does not fall back, a tie in count goes to whoever comes
   * first in the shuffled roster: an eligible name placed before a chosen one
   * was passed over only because it has strictly more duties.
   */
  lemma TiesGoToEarlierInShuffle(names: seq<Name>, shuffled: seq<Name>, l: Ledger, i: nat)
    requires Distinct(names) && |names| >= 2 && IsShuffleOf(shuffled, names)
    requires Tracks(names, l) && Tracks(shuffled, l)
    requires !Relaxed(shuffled, l.lastDuty, i)
    ensures var pair := Chosen(names, shuffled, l, i);
      forall a, b | 0 <= a < b < |shuffled| && shuffled[b] == pair[0] && l.lastDuty[shuffled[a]] < i - 1 ::
        l.dutyCount[pair[0]] < l.dutyCount[shuffled[a]]
    ensures var pair := Chosen(names, shuffled, l, i);
      forall a, b | 0 <= a < b < |shuffled| && shuffled[b] == pair[1] && shuffled[a] != pair[0] && l.lastDuty[shuffled[a]] < i - 1 ::
        l.dutyCount[pair[1]] < l.dutyCount[shuffled[a]]
  {
    ShuffleFacts(shuffled, names);
    var p, q := StepChoice(names, shuffled, l, i);
    CandidatesMembers(names, shuffled, l.lastDuty, i);
    EarlierTiesLose(shuffled, l.lastDuty, l.dutyCount, i, p, q);
  }

  /**
   * Of the eligible names of `order`, the two least by count put an eligible
   * name that comes before either of them behind only when its count is
   * strictly greater.
   */
  lemma EarlierTiesLose(order: seq<Name>, lastDuty: map<Name, int>, dutyCount: map<Name, int>, i: int, p: nat, q: nat)
    requires forall x | x in order :: x in lastDuty && x in dutyCount
    requires Distinct(order)
    requires LeastTwoAt(Eligible(order, lastDuty, i), ByCount(dutyCount), p, q)
    ensures var pool := Eligible(order, lastDuty, i);
      forall a, b | 0 <= a < b < |order| && order[b] == pool[p] && lastDuty[order[a]] < i - 1 ::
        dutyCount[pool[p]] < dutyCount[order[a]]
    ensures var pool := Eligible(order, lastDuty, i);
      forall a, b | 0 <= a < b < |order| && order[b] == pool[q] && order[a] != pool[p] && lastDuty[order[a]] < i - 1 ::
        dutyCount[pool[q]] < dutyCount[order[a]]
  {
    var pool := Eligible(order, lastDuty, i);
    EligibleMembers(order, lastDuty, i);
    EligibleKeepsOrder(order, lastDuty, i);
    PositionInDistinct(pool, p);
    PositionInDistinct(pool, q);
  }

  /** In a sequence without repeats, the first position of `s[p]` is `p`. */
  lemma PositionInDistinct(s: seq<Name>, p: nat)
    requires Distinct(s) && p < |s|
    ensures IndexOf(s, s[p]) == p
  {
  }

  /**
   * Day `i` adds one to the counts of exactly the two people chosen, sets
   * their last duty to `i`, and leaves every other entry alone.
   */
  lemma StepUpdates(names: seq<Name>, shuffled: seq<Name>, start: Date, l: Ledger, i: nat, swap: bool)
    requires Distinct(names) && |names| >= 2 && IsShuffleOf(shuffled, names)
    requires Tracks(names, l) && Tracks(shuffled, l)
    ensures var pair := Chosen(names, shuffled, l, i);
      var l' := Step(names, shuffled, start, l, i, swap);
      && (forall x | x in names :: l'.dutyCount[x] == l.dutyCount[x] + (if x == pair[0] || x == pair[1] then 1 else 0))
      && (forall x | x in names :: l'.lastDuty[x] == (if x == pair[0] || x == pair[1] then i else l.lastDuty[x]))
  {
    var _, _ := StepChoice(names, shuffled, l, i);
  }

  /** A day adds two to the total of the counts. */
  lemma StepTotal(names: seq<Name>, shuffled: seq<Name>, start: Date, l: Ledger, i: nat, swap: bool)
    requires Distinct(names) && |names| >= 2 && IsShuffleOf(shuffled, names)
    requires Tracks(names, l) && Tracks(shuffled, l)
    ensures Total(names, Step(names, shuffled, start, l, i, swap).dutyCount) == Total(names, l.dutyCount) + 2
  {
    var _, _ := StepChoice(names, shuffled, l, i);
    var pair := Chosen(names, shuffled, l, i);
    TotalRaise(names, l.dutyCount, Step(names, shuffled, start, l, i, swap).dutyCount, pair[0], pair[1]);
  }

  /** Day `i` keeps the rows so far and appends one dated `start + i` holding the two chosen, swapped when `swap` is set. */
  lemma StepRow(names: seq<Name>, shuffled: seq<Name>, start: Date, l: Ledger, i: nat, swap: bool)
    requires |names| >= 2 && IsShuffleOf(shuffled, names)
    requires Tracks(names, l) && Tracks(shuffled, l)
    ensures var pair := Chosen(names, shuffled, l, i);
      var l' := Step(names, shuffled, start, l, i, swap);
      && l'.rows[..|l.rows|] == l.rows
      && l'.rows[|l.rows|].date == start + i
      && l'.rows[|l.rows|].weekday == Weekday(start + i)
      && l'.rows[|l.rows|].morning == pair[if swap then 1 else 0]
      && l'.rows[|l.rows|].afternoon == pair[if swap then 0 else 1]
  {
    var l' := Step(names, shuffled, start, l, i, swap);
    assert l'.rows[..|l.rows|] == l.rows;
  }

  /** The row that day `i` appends fits: its date and weekday, and two different roster names. */
  lemma StepRowFits(names: seq<Name>, shuffled: seq<Name>, start: Date, l: Ledger, i: nat, swap: bool)
    requires Distinct(names) && |names| >= 2 && IsShuffleOf(shuffled, names)
    requires Tracks(names, l) && Tracks(shuffled, l) && |l.rows| == i
    ensures RowFits(names, start, Step(names, shuffled, start, l, i, swap).rows[i], i)
  {
    var _, _ := StepChoice(names, shuffled, l, i);
    StepRow(names, shuffled, start, l, i, swap);
  }

  /** Row `j` of a schedule starting on `start`: its date and weekday, and two different roster names. */
  predicate RowFits(names: seq<Name>, start: Date, row: DayRow, j: int) {
    && row.date == start + j
    && row.weekday == Weekday(start + j)
    && row.morning != row.afternoon
    && row.morning in names
    && row.afternoon in names
  }

  /** Nobody serves on both rows. */
  predicate Apart(r: DayRow, r': DayRow) {
    && r.morning != r'.morning && r.morning != r'.afternoon
    && r.afternoon != r'.morning && r.afternoon != r'.afternoon
  }

  /**
   * What holds of the ledger after the first `k` days: the counts are
   * non-negative and add up to two per day, a last duty lies between -1 and
   * `k - 1` and is -1 exactly for those who have not served, it is `k - 1`
   * exactly for the two people of the latest row, every row fits, and on a
   * roster of four or more nobody serves two days running.
   */
  ghost predicate Consistent(names: seq<Name>, start: Date, l: Ledger, k: nat)
    requires Tracks(names, l)
  {
    && |l.rows| == k
    && Total(names, l.dutyCount) == 2 * k
    && (forall x | x in names ::
          && 0 <= l.dutyCount[x]
          && -1 <= l.lastDuty[x] < k
          && (l.lastDuty[x] == -1 <==> l.dutyCount[x] == 0)
          && (k > 0 ==> (l.lastDuty[x] == k - 1 <==> x == l.rows[k - 1].morning || x == l.rows[k - 1].afternoon)))
    && (forall j | 0 <= j < k :: RowFits(names, start, l.rows[j], j))
    && (|names| >= 4 ==> forall j | 1 <= j < k :: Apart(l.rows[j - 1], l.rows[j]))
  }

  /** The names of `order` that are not eligible on day `i`. */
  ghost function Excluded(order: seq<Name>, lastDuty: map<Name, int>, i: int): set<Name>
    requires forall x | x in order :: x in lastDuty
  {
    set x | x in order && lastDuty[x] >= i - 1
  }

  /** Every name of a roster without repeats is either eligible or excluded. */
  lemma {:induction false} EligibleCount(order: seq<Name>, lastDuty: map<Name, int>, i: int)
    requires forall x | x in order :: x in lastDuty
    requires Distinct(order)
    ensures |Eligible(order, lastDuty, i)| == |order| - |Excluded(order, lastDuty, i)|
  {
    if order != [] {
      var o, rest := order[0], order[1..];
      assert Distinct(rest);
      EligibleCount(rest, lastDuty, i);
      assert order == [o] + rest;
      assert o !in rest;
      if lastDuty[o] >= i - 1 {
        assert Excluded(order, lastDuty, i) == Excluded(rest, lastDuty, i) + {o};
      } else {
        assert Excluded(order, lastDuty, i) == Excluded(rest, lastDuty, i);
      }
    }
  }

  /** When every last duty is on day `i - 1` or later, nobody is eligible. */
  lemma {:induction false} NobodyEligible(order: seq<Name>, lastDuty: map<Name, int>, i: int)
    requires forall x | x in order :: x in lastDuty && lastDuty[x] >= i - 1
    ensures Eligible(order, lastDuty, i) == []
  {
    if order != [] {
      NobodyEligible(order[1..], lastDuty, i);
    }
  }

  /**
   * The roster falls back to everyone exactly on day 0, when nobody is
   * eligible, and on rosters of fewer than four, where the two people of the
   * day before leave fewer than two.
   */
  lemma RelaxedIff(names: seq<Name>, shuffled: seq<Name>, start: Date, l: Ledger, k: nat)
    requires Distinct(names) && IsShuffleOf(shuffled, names)
    requires Tracks(names, l) && Tracks(shuffled, l) && Consistent(names, start, l, k)
    ensures Relaxed(shuffled, l.lastDuty, k) <==> k == 0 || |names| < 4
  {
    ShuffleFacts(shuffled, names);
    EligibleMembers(shuffled, l.lastDuty, k);
    var e := Eligible(shuffled, l.lastDuty, k);
    if k == 0 {
      NobodyEligible(shuffled, l.lastDuty, k);
    } else {
      assert |shuffled| == |multiset(shuffled)| == |names|;
      EligibleCount(shuffled, l.lastDuty, k);
      var row := l.rows[k - 1];
      assert RowFits(names, start, row, k - 1);
      assert Excluded(shuffled, l.lastDuty, k) == {row.morning, row.afternoon};
    }
  }

  /**
   * On a roster of four or more, the two people chosen on day `k > 0` did not
   * serve on day `k - 1`.
   */
  lemma StepApart(names: seq<Name>, shuffled: seq<Name>, start: Date, l: Ledger, k: nat, swap: bool)
    requires Distinct(names) && |names| >= 4 && IsShuffleOf(shuffled, names) && k > 0
    requires Tracks(names, l) && Tracks(shuffled, l) && Consistent(names, start, l, k)
    ensures Apart(l.rows[k - 1], Step(names, shuffled, start, l, k, swap).rows[k])
  {
    RelaxedIff(names, shuffled, start, l, k);
    CandidatesMembers(names, shuffled, l.lastDuty, k);
    StepRow(names, shuffled, start, l, k, swap);
    var pair := Chosen(names, shuffled, l, k);
    assert pair[0] in Candidates(names, shuffled, l.lastDuty, k);
    assert pair[1] in Candidates(names, shuffled, l.lastDuty, k);
  }

  /** One day keeps the ledger consistent. */
  lemma StepConsistent(names: seq<Name>, shuffled: seq<Name>, start: Date, l: Ledger, k: nat, swap: bool)
    requires Distinct(names) && |names| >= 2 && IsShuffleOf(shuffled, names)
    requires Tracks(names, l) && Tracks(shuffled, l) && Consistent(names, start, l, k)
    ensures Consistent(names, start, Step(names, shuffled, start, l, k, swap), k + 1)
  {
    var l' := Step(names, shuffled, start, l, k, swap);
    var _, _ := StepChoice(names, shuffled, l, k);
    StepUpdates(names, shuffled, start, l, k, swap);
    StepTotal(names, shuffled, start, l, k, swap);
    StepRow(names, shuffled, start, l, k, swap);
    StepRowFits(names, shuffled, start, l, k, swap);
    RowsExtend(names, start, l.rows, l'.rows);
    if |names| >= 4 {
      if k > 0 {
        StepApart(names, shuffled, start, l, k, swap);
      }
      ApartExtend(l.rows, l'.rows);
    }
  }

  /** Appending a fitting row to rows that fit keeps every row fitting. */
  lemma RowsExtend(names: seq<Name>, start: Date, rows: seq<DayRow>, rows': seq<DayRow>)
    requires |rows'| == |rows| + 1 && rows'[..|rows|] == rows
    requires forall j | 0 <= j < |rows| :: RowFits(names, start, rows[j], j)
    requires RowFits(names, start, rows'[|rows|], |rows|)
    ensures forall j | 0 <= j < |rows'| :: RowFits(names, start, rows'[j], j)
  {
    forall j | 0 <= j < |rows'| ensures RowFits(names, start, rows'[j], j) {
      if j < |rows| {
        assert rows'[j] == rows'[..|rows|][j];
      }
    }
  }

  /** Appending a row that shares nobody with the last one keeps consecutive rows apart. */
  lemma ApartExtend(rows: seq<DayRow>, rows': seq<DayRow>)
    requires |rows'| == |rows| + 1 && rows'[..|rows|] == rows
    requires forall j | 1 <= j < |rows| :: Apart(rows[j - 1], rows[j])
    requires |rows| > 0 ==> Apart(rows[|rows| - 1], rows'[|rows|])
    ensures forall j | 1 <= j < |rows'| :: Apart(rows'[j - 1], rows'[j])
  {
    forall j | 1 <= j < |rows'| ensures Apart(rows'[j - 1], rows'[j]) {
      assert rows'[j - 1] == rows'[..|rows|][j - 1];
      if j < |rows| {
        assert rows'[j] == rows'[..|rows|][j];
      }
    }
  }

  /** The ledger after any number of days is consistent. */
  lemma {:induction false} RunConsistent(names: seq<Name>, shuffled: seq<Name>, start: Date, swaps: seq<bool>, k: nat)
    requires Distinct(names) && IsShuffleOf(shuffled, names) && k <= |swaps| && (k > 0 ==> |names| >= 2)
    ensures Consistent(names, start, Run(names, shuffled, start, swaps, k), k)
  {
    if k == 0 {
      TotalOfZeros(names, Initial(names).dutyCount);
    } else {
      RunConsistent(names, shuffled, start, swaps, k - 1);
      StepConsistent(names, shuffled, start, Run(names, shuffled, start, swaps, k - 1), k - 1, swaps[k - 1]);
    }
  }

  /** Whether a day falls back to the whole roster depends only on the day and the roster size. */
  lemma RelaxedExactly(names: seq<Name>, shuffled: seq<Name>, start: Date, swaps: seq<bool>, k: nat)
    requires Distinct(names) && IsShuffleOf(shuffled, names) && k <= |swaps| && |names| >= 2
    ensures Relaxed(shuffled, Run(names, shuffled, start, swaps, k).lastDuty, k) <==> k == 0 || |names| < 4
  {
    RunConsistent(names, shuffled, start, swaps, k);
    RelaxedIff(names, shuffled, start, Run(names, shuffled, start, swaps, k), k);
  }

  /** Two rows of two different people each, drawn from three names or fewer, share someone. */
  lemma SmallRosterOverlaps(names: seq<Name>, start: Date, r: DayRow, r': DayRow, j: int)
    requires |names| < 4 && RowFits(names, start, r, j) && RowFits(names, start, r', j + 1)
    ensures !Apart(r, r')
  {
    assert |names| == 2 || |names| == 3;
  }

  /**
   * Consecutive days have nobody in common exactly when the roster has four
   * or more names; on two or three names someone always serves two days running.
   */
  lemma NoBackToBack(names: seq<Name>, shuffled: seq<Name>, start: Date, swaps: seq<bool>, k: nat)
    requires Distinct(names) && IsShuffleOf(shuffled, names) && k <= |swaps| && |names| >= 2
    ensures var rows := Run(names, shuffled, start, swaps, k).rows;
      forall j | 1 <= j < k :: Apart(rows[j - 1], rows[j]) <==> |names| >= 4
  {
    RunConsistent(names, shuffled, start, swaps, k);
    var rows := Run(names, shuffled, start, swaps, k).rows;
    if |names| < 4 {
      forall j | 1 <= j < k ensures !Apart(rows[j - 1], rows[j]) {
        SmallRosterOverlaps(names, start, rows[j - 1], rows[j], j - 1);
      }
    }
  }

  /** On day 0 the pool is the roster in input order and every count is 0, so the first two names serve. */
  lemma DayZeroTakesFirstTwo(names: seq<Name>, shuffled: seq<Name>, start: Date, swaps: seq<bool>)
    requires Distinct(names) && IsShuffleOf(shuffled, names) && 1 <= |swaps| && |names| >= 2
    ensures var row := Run(names, shuffled, start, swaps, 1).rows[0];
      && row.morning == names[if swaps[0] then 1 else 0]
      && row.afternoon == names[if swaps[0] then 0 else 1]
  {
    var l := Initial(names);
    RunConsistent(names, shuffled, start, swaps, 0);
    RelaxedIff(names, shuffled, start, l, 0);
    ShuffleFacts(shuffled, names);
    CandidatesMembers(names, shuffled, l.lastDuty, 0);
    SortKeepsEqualKeys(names, ByCount(l.dutyCount), 0);
    assert Chosen(names, shuffled, l, 0) == names[..2];
    StepRow(names, shuffled, start, l, 0, swaps[0]);
  }

  /** Everybody of `names` has served `c` times. */
  ghost predicate AllServed(names: seq<Name>, dutyCount: map<Name, int>, c: int) {
    forall x | x in names :: x in dutyCount && dutyCount[x] == c
  }

  /** With a roster of two, a day raises both counts. */
  lemma StepTwoNames(names: seq<Name>, shuffled: seq<Name>, start: Date, l: Ledger, k: nat, swap: bool, c: int)
    requires Distinct(names) && |names| == 2 && IsShuffleOf(shuffled, names)
    requires Tracks(names, l) && Tracks(shuffled, l) && AllServed(names, l.dutyCount, c)
    ensures AllServed(names, Step(names, shuffled, start, l, k, swap).dutyCount, c + 1)
  {
    var _, _ := StepChoice(names, shuffled, l, k);
    StepUpdates(names, shuffled, start, l, k, swap);
    var pair := Chosen(names, shuffled, l, k);
    BothRaised(names, l.dutyCount, Step(names, shuffled, start, l, k, swap).dutyCount, pair[0], pair[1], c);
  }

  /** Raising two different names of a roster of two raises everybody. */
  lemma BothRaised(names: seq<Name>, m: map<Name, int>, m': map<Name, int>, a: Name, b: Name, c: int)
    requires |names| == 2 && a in names && b in names && a != b
    requires AllServed(names, m, c)
    requires forall x | x in names :: x in m' && m'[x] == m[x] + (if x == a || x == b then 1 else 0)
    ensures AllServed(names, m', c + 1)
  {
    assert names == [names[0], names[1]];
  }

  /** With a roster of two, both serve every day. */
  lemma {:induction false} TwoNamesServeEveryDay(names: seq<Name>, shuffled: seq<Name>, start: Date, swaps: seq<bool>, k: nat)
    requires Distinct(names) && IsShuffleOf(shuffled, names) && k <= |swaps| && |names| == 2
    ensures AllServed(names, Run(names, shuffled, start, swaps, k).dutyCount, k)
  {
    if k > 0 {
      TwoNamesServeEveryDay(names, shuffled, start, swaps, k - 1);
      StepTwoNames(names, shuffled, start, Run(names, shuffled, start, swaps, k - 1), k - 1, swaps[k - 1], k - 1);
    }
  }

  /**
   * A roster without repeats whose counts are 0 or 1 and sum to at most one
   * less than its length has a name with count 0.
   */
  lemma {:induction false} OneIdle(names: seq<Name>, m: map<Name, int>) returns (x: Name)
    requires Distinct(names)
    requires forall y | y in names :: y in m && 0 <= m[y] <= 1
    requires Total(names, m) <= |names| - 1
    ensures x in names && m[x] == 0
  {
    if m[names[0]] == 0 {
      x := names[0];
    } else {
      assert Distinct(names[1..]);
      x := OneIdle(names[1..], m);
    }
  }

  /**
   * A roster without repeats whose counts are 0 or 1 and sum to at most two
   * less than its length has two different names with count 0.
   */
  lemma {:induction false} TwoIdle(names: seq<Name>, m: map<Name, int>) returns (x: Name, y: Name)
    requires Distinct(names)
    requires forall z | z in names :: z in m && 0 <= m[z] <= 1
    requires Total(names, m) <= |names| - 2
    ensures x in names && y in names && x != y && m[x] == 0 && m[y] == 0
  {
    assert Distinct(names[1..]);
    if m[names[0]] == 0 {
      x := names[0];
      y := OneIdle(names[1..], m);
      assert names[0] !in names[1..];
    } else {
      x, y := TwoIdle(names[1..], m);
    }
  }

  /** Counts of at most `c` sum to at most `c` per name. */
  lemma {:induction false} TotalAtMost(names: seq<Name>, m: map<Name, int>, c: int)
    requires forall z | z in names :: z in m && m[z] <= c
    ensures Total(names, m) <= c * |names|
  {
    if names != [] {
      TotalAtMost(names[1..], m, c);
    }
  }

  /**
   * While two people have not served yet, the day picks two who have not:
   * on day 0 everyone is in the pool, and later those who have not served
   * are eligible.
   */
  lemma ChosenAreIdle(names: seq<Name>, shuffled: seq<Name>, start: Date, l: Ledger, k: nat, x: Name, y: Name)
    requires Distinct(names) && |names| >= 2 && IsShuffleOf(shuffled, names)
    requires Tracks(names, l) && Tracks(shuffled, l) && Consistent(names, start, l, k)
    requires x in names && y in names && x != y && l.dutyCount[x] == 0 && l.dutyCount[y] == 0
    ensures var pair := Chosen(names, shuffled, l, k);
      l.dutyCount[pair[0]] == 0 && l.dutyCount[pair[1]] == 0
  {
    ShuffleFacts(shuffled, names);
    RelaxedIff(names, shuffled, start, l, k);
    CandidatesMembers(names, shuffled, l.lastDuty, k);
    var pool := Candidates(names, shuffled, l.lastDuty, k);
    var p, q := StepChoice(names, shuffled, l, k);
    LeastTwoAtBound(pool, ByCount(l.dutyCount), p, q, x, y, 0);
  }

  /** While two people have not served yet, a day leaves every count at most 1 if it was. */
  lemma StepKeepsSingleDuty(names: seq<Name>, shuffled: seq<Name>, start: Date, l: Ledger, k: nat, swap: bool)
    requires Distinct(names) && |names| >= 2 && IsShuffleOf(shuffled, names)
    requires Tracks(names, l) && Tracks(shuffled, l) && Consistent(names, start, l, k)
    requires forall x | x in names :: l.dutyCount[x] <= 1
    requires 2 * (k + 1) <= |names|
    ensures var l' := Step(names, shuffled, start, l, k, swap);
      forall x | x in names :: l'.dutyCount[x] <= 1
  {
    var x, y := TwoIdle(names, l.dutyCount);
    ChosenAreIdle(names, shuffled, start, l, k, x, y);
    StepUpdates(names, shuffled, start, l, k, swap);
  }

  /** When the days ask for at most one duty each, nobody serves twice. */
  lemma {:induction false} SingleDutyWhenEnoughPeople(names: seq<Name>, shuffled: seq<Name>, start: Date, swaps: seq<bool>, k: nat)
    requires Distinct(names) && IsShuffleOf(shuffled, names) && k <= |swaps| && |names| >= 2
    requires 2 * k <= |names|
    ensures var l := Run(names, shuffled, start, swaps, k);
      forall x | x in names :: l.dutyCount[x] <= 1
  {
    if k > 0 {
      SingleDutyWhenEnoughPeople(names, shuffled, start, swaps, k - 1);
      RunConsistent(names, shuffled, start, swaps, k - 1);
      StepKeepsSingleDuty(names, shuffled, start, Run(names, shuffled, start, swaps, k - 1), k - 1, swaps[k - 1]);
    }
  }

  /**
   * The warning of `validate_input` is printed exactly when somebody ends up
   * serving more than once.
   */
  lemma RepeatWarningIsExact(names: seq<Name>, shuffled: seq<Name>, start: Date, swaps: seq<bool>, days: int)
    requires Distinct(names) && IsShuffleOf(shuffled, names) && ValidateInput(names, days).Accepted?
    requires |swaps| == days
    ensures var l := Run(names, shuffled, start, swaps, days);
      ValidateInput(names, days).repeatWarning <==> exists x | x in names :: l.dutyCount[x] >= 2
  {
    var l := Run(names, shuffled, start, swaps, days);
    RunConsistent(names, shuffled, start, swaps, days);
    if 2 * days <= |names| {
      SingleDutyWhenEnoughPeople(names, shuffled, start, swaps, days);
    } else if forall x | x in names :: l.dutyCount[x] <= 1 {
      TotalAtMost(names, l.dutyCount, 1);
    }
  }

  /** No two counts of the roster differ by more than one. */
  ghost predicate Even(names: seq<Name>, dutyCount: map<Name, int>)
    requires forall x | x in names :: x in dutyCount
  {
    forall x, y | x in names && y in names :: dutyCount[x] <= dutyCount[y] + 1
  }

  /**
   * Whoever is not eligible on day `k` has at least the count of everybody
   * who is.
   */
  ghost predicate Ahead(names: seq<Name>, dutyCount: map<Name, int>, lastDuty: map<Name, int>, k: int)
    requires forall x | x in names :: x in dutyCount && x in lastDuty
  {
    forall y, z | y in names && z in names && lastDuty[y] >= k - 1 && lastDuty[z] < k - 1 :: dutyCount[z] <= dutyCount[y]
  }

  /** The invariant behind the balance of the rotation, after `k` days. */
  ghost predicate Fair(names: seq<Name>, l: Ledger, k: int)
    requires Tracks(names, l)
  {
    Even(names, l.dutyCount) && Ahead(names, l.dutyCount, l.lastDuty, k)
  }

  /**
   * Raising the two least counts of a pool keeps the counts even, when
   * nobody left out of the pool has a smaller count than somebody in it.
   */
  lemma EvenAfterChoice(names: seq<Name>, pool: seq<Name>, m: map<Name, int>, m': map<Name, int>, p: nat, q: nat)
    requires forall x | x in names :: x in m && x in m'
    requires forall x | x in pool :: x in names
    requires Even(names, m)
    requires LeastTwoAt(pool, ByCount(m), p, q)
    requires forall y, z | y in names && z in names && y !in pool && z in pool :: m[z] <= m[y]
    requires forall x | x in names :: m'[x] == m[x] + (if x == pool[p] || x == pool[q] then 1 else 0)
    ensures Even(names, m')
  {
    forall x, y | x in names && y in names ensures m'[x] <= m'[y] + 1 {
      if (x == pool[p] || x == pool[q]) && y != pool[p] && y != pool[q] && y in pool {
        var iy :| 0 <= iy < |pool| && pool[iy] == y;
        assert ByCount(m)(pool[p]) <= ByCount(m)(pool[iy]);
        assert ByCount(m)(pool[q]) <= ByCount(m)(pool[iy]);
      }
    }
  }

  /**
   * After the two people of day `k` are raised, each has at least the count
   * of everybody who did not serve that day.
   */
  lemma AheadAfterChoice(names: seq<Name>, m: map<Name, int>, m': map<Name, int>, last: map<Name, int>, last': map<Name, int>,
                         a: Name, b: Name, k: int)
    requires forall x | x in names :: x in m && x in m' && x in last && x in last'
    requires Even(names, m)
    requires forall x | x in names :: last[x] < k
    requires forall x | x in names :: m'[x] == m[x] + (if x == a || x == b then 1 else 0)
    requires forall x | x in names :: last'[x] == if x == a || x == b then k else last[x]
    ensures Ahead(names, m', last', k + 1)
  {
  }

  /** Nobody left out of day `k`'s pool has a smaller count than somebody in it. */
  lemma PoolBehind(names: seq<Name>, shuffled: seq<Name>, l: Ledger, k: nat)
    requires |names| >= 2 && IsShuffleOf(shuffled, names)
    requires Tracks(names, l) && Tracks(shuffled, l) && Fair(names, l, k)
    ensures var pool := Candidates(names, shuffled, l.lastDuty, k);
      forall y, z | y in names && z in names && y !in pool && z in pool :: l.dutyCount[z] <= l.dutyCount[y]
  {
    ShuffleFacts(shuffled, names);
    CandidatesMembers(names, shuffled, l.lastDuty, k);
  }

  /** One day keeps the counts even and the people who just served ahead. */
  lemma StepFair(names: seq<Name>, shuffled: seq<Name>, start: Date, l: Ledger, k: nat, swap: bool)
    requires Distinct(names) && |names| >= 2 && IsShuffleOf(shuffled, names)
    requires Tracks(names, l) && Tracks(shuffled, l) && Consistent(names, start, l, k) && Fair(names, l, k)
    ensures Fair(names, Step(names, shuffled, start, l, k, swap), k + 1)
  {
    var l' := Step(names, shuffled, start, l, k, swap);
    var p, q := StepChoice(names, shuffled, l, k);
    StepUpdates(names, shuffled, start, l, k, swap);
    var pool := Candidates(names, shuffled, l.lastDuty, k);
    ShuffleFacts(shuffled, names);
    CandidatesMembers(names, shuffled, l.lastDuty, k);
    PoolBehind(names, shuffled, l, k);
    EvenAfterChoice(names, pool, l.dutyCount, l'.dutyCount, p, q);
    AheadAfterChoice(names, l.dutyCount, l'.dutyCount, l.lastDuty, l'.lastDuty, pool[p], pool[q], k);
  }

  /** The invariant holds after any number of days. */
  lemma {:induction false} RunFair(names: seq<Name>, shuffled: seq<Name>, start: Date, swaps: seq<bool>, k: nat)
    requires Distinct(names) && IsShuffleOf(shuffled, names) && k <= |swaps| && (k > 0 ==> |names| >= 2)
    ensures Fair(names, Run(names, shuffled, start, swaps, k), k)
  {
    if k > 0 {
      RunFair(names, shuffled, start, swaps, k - 1);
      RunConsistent(names, shuffled, start, swaps, k - 1);
      StepFair(names, shuffled, start, Run(names, shuffled, start, swaps, k - 1), k - 1, swaps[k - 1]);
    }
  }

  /** After any number of days, no two people's counts differ by more than one. */
  lemma CountsDifferByAtMostOne(names: seq<Name>, shuffled: seq<Name>, start: Date, swaps: seq<bool>, k: nat)
    requires Distinct(names) && IsShuffleOf(shuffled, names) && k <= |swaps| && (k > 0 ==> |names| >= 2)
    ensures var l := Run(names, shuffled, start, swaps, k);
      forall x, y | x in names && y in names :: l.dutyCount[x] <= l.dutyCount[y] + 1
  {
    RunFair(names, shuffled, start, swaps, k);
  }
}
