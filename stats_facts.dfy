/**
 * The statistics frame that `generate_schedule` returns beside the schedule:
 * one row per roster name, highest count first, whose counts add up to two
 * per day.
 */
module StatsFacts {
  import opened SortByKey
  import opened Rotation
  import opened RotationFacts

  /** The name column of the statistics frame. */
  function StatNames(stats: seq<Stat>): (column: seq<Name>)
    ensures |column| == |stats|
    ensures forall k | 0 <= k < |stats| :: column[k] == stats[k].name
  {
    if stats == [] then [] else [stats[0].name] + StatNames(stats[1..])
  }

  /** The frame lists every roster name exactly as often as the roster does. */
  lemma StatsListEveryName(names: seq<Name>, dutyCount: map<Name, int>)
    requires forall x | x in names :: x in dutyCount
    ensures multiset(StatNames(Stats(names, dutyCount))) == multiset(names)
  {
    var sorted := Sort(names, ByCountDescending(dutyCount));
    SortIsPermutation(names, ByCountDescending(dutyCount));
    assert StatNames(Stats(names, dutyCount)) == sorted;
  }

  /** The rows of the frame go from the highest count to the lowest. */
  lemma StatsRanked(names: seq<Name>, dutyCount: map<Name, int>)
    requires forall x | x in names :: x in dutyCount
    ensures var stats := Stats(names, dutyCount);
      forall p, q | 0 <= p < q < |stats| :: stats[p].count >= stats[q].count
  {
    var key := ByCountDescending(dutyCount);
    var sorted := Sort(names, key);
    SortIsSorted(names, key);
    SortHasSameElements(names, key);
    var stats := Stats(names, dutyCount);
    forall p, q | 0 <= p < q < |stats| ensures stats[p].count >= stats[q].count {
      assert key(sorted[p]) <= key(sorted[q]);
    }
  }

  /** The count column of rows made in the order of `order` sums to the total over `order`. */
  lemma {:induction false} StatRowsTotal(order: seq<Name>, dutyCount: map<Name, int>)
    requires forall x | x in order :: x in dutyCount
    ensures StatsTotal(StatRows(order, dutyCount)) == Total(order, dutyCount)
  {
    if order != [] {
      StatRowsTotal(order[1..], dutyCount);
      assert StatRows(order, dutyCount)[1..] == StatRows(order[1..], dutyCount);
    }
  }

  /** Taking one name out of a roster takes its count out of the total. */
  lemma {:induction false} TotalRemoveAt(s: seq<Name>, dutyCount: map<Name, int>, k: nat)
    requires k < |s|
    ensures Total(s, dutyCount) == CountOf(dutyCount, s[k]) + Total(RemoveAt(s, k), dutyCount)
  {
    if k > 0 {
      TotalRemoveAt(s[1..], dutyCount, k - 1);
      assert RemoveAt(s, k) == [s[0]] + RemoveAt(s[1..], k - 1);
    } else {
      assert RemoveAt(s, 0) == s[1..];
    }
  }

  /** Sorting the roster does not change the sum of its counts. */
  lemma {:induction false} TotalOfSort(s: seq<Name>, dutyCount: map<Name, int>, key: Name -> int)
    ensures Total(Sort(s, key), dutyCount) == Total(s, dutyCount)
    decreases |s|
  {
    if s != [] {
      var k := FirstMin(s, key);
      var rest := RemoveAt(s, k);
      TotalOfSort(rest, dutyCount, key);
      TotalRemoveAt(s, dutyCount, k);
      var r := Sort(s, key);
      assert r[0] == s[k] && r[1..] == Sort(rest, key);
    }
  }

  /** The count column sums to the total of the counts. */
  lemma StatsTotalIsTotal(names: seq<Name>, dutyCount: map<Name, int>)
    requires forall x | x in names :: x in dutyCount
    ensures StatsTotal(Stats(names, dutyCount)) == Total(names, dutyCount)
  {
    var key := ByCountDescending(dutyCount);
    SortHasSameElements(names, key);
    TotalOfSort(names, dutyCount, key);
    StatRowsTotal(Sort(names, key), dutyCount);
  }

  /** After `days` days the count column of the frame sums to two per day. */
  lemma StatsAddUpToTwoPerDay(names: seq<Name>, shuffled: seq<Name>, start: Date, swaps: seq<bool>, days: nat)
    requires Distinct(names) && IsShuffleOf(shuffled, names) && days <= |swaps| && (days > 0 ==> |names| >= 2)
    ensures StatsTotal(Stats(names, Run(names, shuffled, start, swaps, days).dutyCount)) == 2 * days
  {
    RunConsistent(names, shuffled, start, swaps, days);
    StatsTotalIsTotal(names, Run(names, shuffled, start, swaps, days).dutyCount);
  }

  /** With a roster of two, the frame shows both with a count of `days`. */
  lemma TwoNamesStats(names: seq<Name>, shuffled: seq<Name>, start: Date, swaps: seq<bool>, days: nat)
    requires Distinct(names) && IsShuffleOf(shuffled, names) && days <= |swaps| && |names| == 2
    ensures var stats := Stats(names, Run(names, shuffled, start, swaps, days).dutyCount);
      |stats| == 2 && stats[0].count == days && stats[1].count == days
  {
    TwoNamesServeEveryDay(names, shuffled, start, swaps, days);
  }
}
