/**
 * Python's `sorted(xs, key=k)` for an integer key.  Python's sort is stable:
 * elements with equal keys keep the order they had in `xs`.  Every stable sort
 * returns the same sequence, so it is modelled here by the simplest one:
 * repeatedly take out the first element whose key is least.
 */
module SortByKey {

  /** `s` is in ascending order of key. */
  ghost predicate SortedBy<T>(s: seq<T>, key: T -> int) {
    forall p, q | 0 <= p < q < |s| :: key(s[p]) <= key(s[q])
  }

  /** `s` without its element at position `k`. */
  function RemoveAt<T>(s: seq<T>, k: nat): (r: seq<T>)
    requires k < |s|
    ensures |r| == |s| - 1
  {
    s[..k] + s[k + 1..]
  }

  /** What `RemoveAt` leaves: the elements before `k` in place, the ones after it moved down by one. */
  lemma RemoveAtContents<T>(s: seq<T>, k: nat)
    requires k < |s|
    ensures forall t | 0 <= t < k :: RemoveAt(s, k)[t] == s[t]
    ensures forall t | k <= t < |s| - 1 :: RemoveAt(s, k)[t] == s[t + 1]
  {
    var r := RemoveAt(s, k);
    forall t | k <= t < |s| - 1 ensures r[t] == s[t + 1] {
      assert r[t] == s[k + 1..][t - k];
    }
  }

  /** `RemoveAt` takes exactly one occurrence of `s[k]` out of the multiset. */
  lemma RemoveAtMultiset<T>(s: seq<T>, k: nat)
    requires k < |s|
    ensures multiset(RemoveAt(s, k)) == multiset(s) - multiset{s[k]}
  {
    assert s == s[..k] + [s[k]] + s[k + 1..];
  }

  /** The position of the first element of `s` whose key is the least. */
  function FirstMin<T>(s: seq<T>, key: T -> int): (k: nat)
    requires |s| > 0
    ensures k < |s|
    ensures forall j | 0 <= j < |s| :: key(s[k]) <= key(s[j])
    ensures forall j | 0 <= j < k :: key(s[k]) < key(s[j])
  {
    if |s| == 1 then 0
    else
      var k' := FirstMin(s[1..], key);
      if key(s[0]) <= key(s[1 + k']) then 0 else 1 + k'
  }

  /** `sorted(s, key=key)`: the first least element, then the rest sorted the same way. */
  function Sort<T>(s: seq<T>, key: T -> int): (r: seq<T>)
    ensures |r| == |s|
    decreases |s|
  {
    if s == [] then []
    else
      var k := FirstMin(s, key);
      [s[k]] + Sort(RemoveAt(s, k), key)
  }

  /** `Sort` returns a permutation of its input. */
  lemma {:induction false} SortIsPermutation<T>(s: seq<T>, key: T -> int)
    ensures multiset(Sort(s, key)) == multiset(s)
    decreases |s|
  {
    if s != [] {
      var k := FirstMin(s, key);
      RemoveAtMultiset(s, k);
      SortIsPermutation(RemoveAt(s, k), key);
      assert Sort(s, key) == [s[k]] + Sort(RemoveAt(s, k), key);
    }
  }

  /** A lower bound on the keys of `s` is one on the keys of `Sort(s)`. */
  lemma {:induction false} SortKeepsLowerBound<T>(s: seq<T>, key: T -> int, c: int)
    requires forall j | 0 <= j < |s| :: c <= key(s[j])
    ensures forall q | 0 <= q < |s| :: c <= key(Sort(s, key)[q])
    decreases |s|
  {
    if s != [] {
      var k := FirstMin(s, key);
      var rest := RemoveAt(s, k);
      RemoveAtContents(s, k);
      SortKeepsLowerBound(rest, key, c);
      assert Sort(s, key) == [s[k]] + Sort(rest, key);
    }
  }

  /** `Sort` neither adds nor drops elements. */
  lemma SortHasSameElements<T>(s: seq<T>, key: T -> int)
    ensures forall x :: x in Sort(s, key) <==> x in s
  {
    var r := Sort(s, key);
    SortIsPermutation(s, key);
    forall x ensures x in r <==> x in s {
      assert x in r <==> x in multiset(r);
      assert x in s <==> x in multiset(s);
    }
  }

  /** The result of `Sort` is in ascending key order. */
  lemma {:induction false} SortIsSorted<T>(s: seq<T>, key: T -> int)
    ensures SortedBy(Sort(s, key), key)
    decreases |s|
  {
    if s != [] {
      var k := FirstMin(s, key);
      var rest := RemoveAt(s, k);
      var r, t := Sort(s, key), Sort(rest, key);
      RemoveAtContents(s, k);
      SortIsSorted(rest, key);
      SortKeepsLowerBound(rest, key, key(s[k]));
      assert r == [s[k]] + t;
      forall p, q | 0 <= p < q < |r| ensures key(r[p]) <= key(r[q]) {
        assert r[q] == t[q - 1];
        if p > 0 {
          assert r[p] == t[p - 1];
        }
      }
    }
  }

  /** When all keys are equal the stable sort changes nothing. */
  lemma {:induction false} SortKeepsEqualKeys<T>(s: seq<T>, key: T -> int, c: int)
    requires forall x | x in s :: key(x) == c
    ensures Sort(s, key) == s
  {
    if s != [] {
      assert FirstMin(s, key) == 0;
      assert RemoveAt(s, 0) == s[1..];
      SortKeepsEqualKeys(s[1..], key, c);
      assert Sort(s, key) == [s[0]] + Sort(s[1..], key);
    }
  }

  /**
   * Positions `i` and `j` of `s` hold what `sorted(s, key)[:2]` takes: `s[i]`
   * has the least key and comes first among the elements with that key;
   * `s[j]` has the least key among the others and comes first among those of
   * them with that key.
   */
  ghost predicate LeastTwoAt<T>(s: seq<T>, key: T -> int, i: nat, j: nat) {
    && i < |s| && j < |s| && i != j
    && (forall k | 0 <= k < |s| :: key(s[i]) <= key(s[k]))
    && (forall k | 0 <= k < i :: key(s[i]) < key(s[k]))
    && (forall k | 0 <= k < |s| && k != i :: key(s[j]) <= key(s[k]))
    && (forall k | 0 <= k < j && k != i :: key(s[j]) < key(s[k]))
  }

  /** At most one pair of positions meets `LeastTwoAt`. */
  lemma LeastTwoAtIsUnique<T>(s: seq<T>, key: T -> int, i: nat, j: nat, i': nat, j': nat)
    requires LeastTwoAt(s, key, i, j) && LeastTwoAt(s, key, i', j')
    ensures i == i' && j == j'
  {
    assert key(s[i]) == key(s[i']);
    assert i == i';
    assert key(s[j]) == key(s[j']);
  }

  /** The position in `s` of the first least element once `s[FirstMin(s)]` is taken out. */
  lemma SecondMin<T>(s: seq<T>, key: T -> int) returns (j: nat)
    requires |s| >= 2
    ensures LeastTwoAt(s, key, FirstMin(s, key), j)
    ensures var rest := RemoveAt(s, FirstMin(s, key)); s[j] == rest[FirstMin(rest, key)]
  {
    var i := FirstMin(s, key);
    var rest := RemoveAt(s, i);
    var j' := FirstMin(rest, key);
    j := if j' < i then j' else j' + 1;
    RemoveAtContents(s, i);
    forall k | 0 <= k < |s| && k != i ensures key(s[j]) <= key(s[k]) {
      assert s[k] == rest[if k < i then k else k - 1];
    }
    forall k | 0 <= k < j && k != i ensures key(s[j]) < key(s[k]) {
      assert s[k] == rest[if k < i then k else k - 1];
    }
  }

  /** `sorted(s, key=key)[:2]` takes the elements at the positions meeting `LeastTwoAt`. */
  lemma FirstTwoOfSort<T>(s: seq<T>, key: T -> int) returns (i: nat, j: nat)
    requires |s| >= 2
    ensures LeastTwoAt(s, key, i, j)
    ensures Sort(s, key)[..2] == [s[i], s[j]]
  {
    i := FirstMin(s, key);
    j := SecondMin(s, key);
    var rest := RemoveAt(s, i);
    assert Sort(s, key) == [s[i]] + ([rest[FirstMin(rest, key)]] + Sort(RemoveAt(rest, FirstMin(rest, key)), key));
  }

  /**
   * When two different elements of `s` have keys of at most `c`, so do the
   * two elements that `sorted(s, key)[:2]` takes.
   */
  lemma LeastTwoAtBound<T>(s: seq<T>, key: T -> int, i: nat, j: nat, x: T, y: T, c: int)
    requires LeastTwoAt(s, key, i, j)
    requires x in s && y in s && x != y && key(x) <= c && key(y) <= c
    ensures key(s[i]) <= c && key(s[j]) <= c
  {
    var ix :| 0 <= ix < |s| && s[ix] == x;
    var iy :| 0 <= iy < |s| && s[iy] == y;
    if ix != i {
      assert key(s[j]) <= key(s[ix]);
    } else {
      assert key(s[j]) <= key(s[iy]);
    }
  }
}
