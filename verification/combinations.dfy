/**
 * getCombinations: backtracking enumeration of the size-k subsequences of an
 * array. The recursive helper pushes arr[i] onto a shared combo buffer,
 * recurses from i + 1 and pops it again; whenever combo has k elements a copy
 * of it is appended to results.
 *
 * The enumeration is specified through index tuples: Tuples(lo, n, m) lists,
 * in the order helper visits them, the strictly increasing tuples of m
 * indices drawn from [lo, n).
 */
module Combinations {

  /** Every entry of t lies in [lo, hi). */
  predicate InRange(t: seq<nat>, lo: nat, hi: nat)
  {
    forall p :: 0 <= p < |t| ==> lo <= t[p] < hi
  }

  predicate Increasing(t: seq<nat>)
  {
    forall p, q :: 0 <= p < q < |t| ==> t[p] < t[q]
  }

  /** Each tuple of ts with i put in front of it. */
  function Prefix(i: nat, ts: seq<seq<nat>>): (r: seq<seq<nat>>)
  {
    seq(|ts|, p requires 0 <= p < |ts| => [i] + ts[p])
  }

  /**
   * The index tuples helper(lo, combo) completes combo with, where m is the
   * number of elements combo still lacks: the empty tuple once m is 0,
   * otherwise, for each i from lo up, i followed by every completion from i + 1.
   */
  function Tuples(lo: nat, n: nat, m: int): seq<seq<nat>>
    requires lo <= n
    decreases n - lo, 1, 0
  {
    if m == 0 then [[]] else Range(lo, n, n, m)
  }

  /** The completions the helper's loop has produced once i has reached hi. */
  function Range(lo: nat, hi: nat, n: nat, m: int): seq<seq<nat>>
    requires lo <= hi <= n && m != 0
    decreases n - lo, 0, hi - lo
  {
    if hi == lo then [] else Range(lo, hi - 1, n, m) + Prefix(hi - 1, Tuples(hi, n, m - 1))
  }

  /**
   * The elements of arr at the indices of t, in order. An index past the end
   * of arr would pick nothing; the enumeration never yields one (TuplesShape).
   */
  function Pick<T>(arr: seq<T>, t: seq<nat>): seq<T>
  {
    if t == [] then []
    else if t[0] < |arr| then [arr[t[0]]] + Pick(arr, t[1..])
    else Pick(arr, t[1..])
  }

  /** The lists appended to results: combo followed by the elements each tuple picks. */
  function Extend<T>(combo: seq<T>, arr: seq<T>, ts: seq<seq<nat>>): seq<seq<T>>
  {
    seq(|ts|, p requires 0 <= p < |ts| => combo + Pick(arr, ts[p]))
  }

  /** What getCombinations(arr, k) returns. */
  function Combos<T>(arr: seq<T>, k: int): seq<seq<T>>
  {
    Extend([], arr, Tuples(0, |arr|, k))
  }

  /** The shared state of one getCombinations call: the combo buffer and the results list. */
  class Enumerator<T> {
    const arr: seq<T>
    const k: int
    var combo: seq<T>
    var results: seq<seq<T>>

    constructor(arr: seq<T>, k: int)
      ensures this.arr == arr && this.k == k
      ensures combo == [] && results == []
    {
      this.arr := arr;
      this.k := k;
      combo := [];
      results := [];
    }

    /**
     * helper(start, combo): appends every completion of combo from start on
     * and leaves combo as it found it.
     */
    method Helper(start: nat)
      requires start <= |arr|
      modifies this
      ensures combo == old(combo)
      ensures results == old(results) + Extend(combo, arr, Tuples(start, |arr|, k - |combo|))
      decreases |arr| - start
    {
      if |combo| == k {
        results := results + [combo];
        assert combo + Pick(arr, []) == combo;
        assert Extend(combo, arr, [[]]) == [combo];
        return;
      }
      ghost var init := results;
      for i := start to |arr|
        invariant combo == old(combo)
        invariant results == init + Extend(combo, arr, Range(start, i, |arr|, k - |combo|))
      {
        ghost var before, m := combo, k - |combo|;
        ghost var done := Extend(before, arr, Range(start, i, |arr|, m));
        ghost var added := Extend(before + [arr[i]], arr, Tuples(i + 1, |arr|, m - 1));
        ExtendRangeStep(before, arr, start, i, m);
        combo := combo + [arr[i]];
        Helper(i + 1);
        combo := combo[..|combo| - 1];
        assert combo == before;
        AppendAssoc(init, done, added);
      }
    }
  }

  /** getCombinations(arr, k): one enumerator, started from index 0 with an empty combo. */
  method GetCombinations<T>(arr: seq<T>, k: int) returns (results: seq<seq<T>>)
    ensures results == Combos(arr, k)
  {
    var e := new Enumerator(arr, k);
    e.Helper(0);
    results := e.results;
  }

  // ---------------------------------------------------------------------------
  // The loop step: one more i appends the completions that start with arr[i]

  lemma AppendAssoc<T>(a: seq<T>, b: seq<T>, c: seq<T>)
    ensures (a + b) + c == a + (b + c)
  {
  }

  lemma ExtendAppend<T>(combo: seq<T>, arr: seq<T>, a: seq<seq<nat>>, b: seq<seq<nat>>)
    ensures Extend(combo, arr, a + b) == Extend(combo, arr, a) + Extend(combo, arr, b)
  {
  }

  lemma ExtendPrefix<T>(combo: seq<T>, arr: seq<T>, i: nat, ts: seq<seq<nat>>)
    requires i < |arr|
    ensures Extend(combo, arr, Prefix(i, ts)) == Extend(combo + [arr[i]], arr, ts)
  {
    var pre := Prefix(i, ts);
    forall p | 0 <= p < |ts|
      ensures combo + Pick(arr, pre[p]) == (combo + [arr[i]]) + Pick(arr, ts[p])
    {
      assert pre[p][1..] == ts[p];
    }
  }

  lemma ExtendRangeStep<T>(combo: seq<T>, arr: seq<T>, lo: nat, i: nat, m: int)
    requires lo <= i < |arr| && m != 0
    ensures Extend(combo, arr, Range(lo, i + 1, |arr|, m)) ==
              Extend(combo, arr, Range(lo, i, |arr|, m)) + Extend(combo + [arr[i]], arr, Tuples(i + 1, |arr|, m - 1))
  {
    var ts := Tuples(i + 1, |arr|, m - 1);
    ExtendPrefix(combo, arr, i, ts);
    ExtendAppend(combo, arr, Range(lo, i, |arr|, m), Prefix(i, ts));
  }

  // ---------------------------------------------------------------------------
  // Shape, count, order and completeness of the enumeration

  /** Binomial coefficient by Pascal's rule. */
  function Choose(n: nat, m: nat): nat
  {
    if m == 0 then 1 else if n == 0 then 0 else Choose(n - 1, m - 1) + Choose(n - 1, m)
  }

  /** Lexicographic order on index tuples. */
  predicate LexLess(a: seq<nat>, b: seq<nat>)
  {
    |a| > 0 && |b| > 0 && (a[0] < b[0] || (a[0] == b[0] && LexLess(a[1..], b[1..])))
  }

  /** The loop's blocks, read from the front: the completions starting at lo, then the rest. */
  lemma {:induction false} RangeFront(lo: nat, hi: nat, n: nat, m: int)
    requires lo < hi <= n && m != 0
    ensures Range(lo, hi, n, m) == Prefix(lo, Tuples(lo + 1, n, m - 1)) + Range(lo + 1, hi, n, m)
    decreases hi
  {
    if hi > lo + 1 {
      RangeFront(lo, hi - 1, n, m);
    }
  }

  /** Every tuple of ts has m entries, strictly increasing, in [lo, n). */
  predicate Shaped(ts: seq<seq<nat>>, m: int, lo: nat, n: nat)
  {
    forall t :: t in ts ==> |t| == m && Increasing(t) && InRange(t, lo, n)
  }

  /** Each tuple has m entries, strictly increasing, in [lo, n). */
  lemma {:induction false} TuplesShape(lo: nat, n: nat, m: int)
    requires lo <= n
    ensures Shaped(Tuples(lo, n, m), m, lo, n)
    decreases n - lo
  {
    if m != 0 && lo < n {
      TuplesShape(lo + 1, n, m - 1);
      TuplesShape(lo + 1, n, m);
      TuplesShapeStep(lo, n, m);
    } else if m == 0 {
      assert Tuples(lo, n, m) == [[]];
    }
  }

  /** The tuples from lo are lo in front of shorter ones from lo + 1, then the ones from lo + 1. */
  lemma TuplesShapeStep(lo: nat, n: nat, m: int)
    requires lo < n && m != 0
    requires Shaped(Tuples(lo + 1, n, m - 1), m - 1, lo + 1, n)
    requires Shaped(Tuples(lo + 1, n, m), m, lo + 1, n)
    ensures Shaped(Tuples(lo, n, m), m, lo, n)
  {
    var inner := Tuples(lo + 1, n, m - 1);
    var rest := Tuples(lo + 1, n, m);
    RangeFront(lo, n, n, m);
    PrefixShape(lo, n, m, inner);
    ShapedWiden(rest, m, lo, n);
    ShapedAppend(Prefix(lo, inner), rest, m, lo, n);
    assert Tuples(lo, n, m) == Prefix(lo, inner) + rest;
  }

  lemma ShapedWiden(ts: seq<seq<nat>>, m: int, lo: nat, n: nat)
    requires Shaped(ts, m, lo + 1, n)
    ensures Shaped(ts, m, lo, n)
  {
  }

  lemma ShapedAppend(a: seq<seq<nat>>, b: seq<seq<nat>>, m: int, lo: nat, n: nat)
    requires Shaped(a, m, lo, n) && Shaped(b, m, lo, n)
    ensures Shaped(a + b, m, lo, n)
  {
  }

  /** Putting i in front of tuples drawn from [i + 1, n) keeps them increasing. */
  lemma PrefixShape(i: nat, n: nat, m: int, ts: seq<seq<nat>>)
    requires i < n
    requires Shaped(ts, m - 1, i + 1, n)
    ensures Shaped(Prefix(i, ts), m, i, n)
  {
    var pre := Prefix(i, ts);
    forall t | t in pre
      ensures |t| == m && Increasing(t) && InRange(t, i, n)
    {
      var p :| 0 <= p < |pre| && pre[p] == t;
      assert ts[p] in ts;
      assert t == [i] + ts[p];
    }
  }

  predicate Sorted(ts: seq<seq<nat>>)
  {
    forall p, q :: 0 <= p < q < |ts| ==> LexLess(ts[p], ts[q])
  }

  /** The tuples come in strictly increasing lexicographic order. */
  lemma {:induction false} TuplesSorted(lo: nat, n: nat, m: int)
    requires lo <= n
    ensures Sorted(Tuples(lo, n, m))
    decreases n - lo
  {
    if m > 0 && lo < n {
      TuplesSorted(lo + 1, n, m - 1);
      TuplesSorted(lo + 1, n, m);
      TuplesShape(lo + 1, n, m);
      TuplesSortedStep(lo, n, m);
    } else {
      TuplesAtMostOne(lo, n, m);
    }
  }

  /** With no index left to draw or no entry left to fill, there is at most one tuple. */
  lemma TuplesAtMostOne(lo: nat, n: nat, m: int)
    requires lo <= n && (m <= 0 || lo == n)
    ensures |Tuples(lo, n, m)| <= 1
  {
    if m < 0 {
      TuplesNegative(lo, n, m);
    } else if m == 0 {
      assert Tuples(lo, n, m) == [[]];
    } else {
      assert Tuples(lo, n, m) == [];
    }
  }

  /** The block that starts with lo is sorted, and every tuple after it starts above lo. */
  lemma TuplesSortedStep(lo: nat, n: nat, m: int)
    requires lo < n && m > 0
    requires Sorted(Tuples(lo + 1, n, m - 1)) && Sorted(Tuples(lo + 1, n, m))
    requires Shaped(Tuples(lo + 1, n, m), m, lo + 1, n)
    ensures Sorted(Tuples(lo, n, m))
  {
    RangeFront(lo, n, n, m);
    var inner := Tuples(lo + 1, n, m - 1);
    var rest := Tuples(lo + 1, n, m);
    SortedPrefix(lo, inner);
    PrefixBefore(lo, inner, rest, m, n);
    SortedAppend(Prefix(lo, inner), rest);
    assert Tuples(lo, n, m) == Prefix(lo, inner) + rest;
  }

  /** Putting the same index in front of sorted tuples keeps them sorted. */
  lemma SortedPrefix(i: nat, ts: seq<seq<nat>>)
    requires Sorted(ts)
    ensures Sorted(Prefix(i, ts))
  {
    var pre := Prefix(i, ts);
    forall p, q | 0 <= p < q < |pre|
      ensures LexLess(pre[p], pre[q])
    {
      assert pre[p][1..] == ts[p] && pre[q][1..] == ts[q];
    }
  }

  /** Tuples that start with i come before tuples that start above i. */
  lemma PrefixBefore(i: nat, ts: seq<seq<nat>>, rest: seq<seq<nat>>, m: int, n: nat)
    requires m > 0 && Shaped(rest, m, i + 1, n)
    ensures forall x, y :: x in Prefix(i, ts) && y in rest ==> LexLess(x, y)
  {
    var pre := Prefix(i, ts);
    forall x, y | x in pre && y in rest
      ensures LexLess(x, y)
    {
      var p :| 0 <= p < |pre| && pre[p] == x;
      assert x[0] == i;
      assert y[0] > i;
    }
  }

  /** Two sorted lists, every tuple of the first below every tuple of the second, make a sorted list. */
  lemma SortedAppend(a: seq<seq<nat>>, b: seq<seq<nat>>)
    requires Sorted(a) && Sorted(b)
    requires forall x, y :: x in a && y in b ==> LexLess(x, y)
    ensures Sorted(a + b)
  {
    var ab := a + b;
    forall p, q | 0 <= p < q < |ab|
      ensures LexLess(ab[p], ab[q])
    {
      if q < |a| {
        assert ab[p] == a[p] && ab[q] == a[q];
      } else if p < |a| {
        assert ab[p] == a[p] && ab[q] == b[q - |a|];
        assert a[p] in a && b[q - |a|] in b;
      } else {
        assert ab[p] == b[p - |a|] && ab[q] == b[q - |a|];
      }
    }
  }

  lemma {:induction false} LexLessIrreflexive(a: seq<nat>)
    ensures !LexLess(a, a)
    decreases |a|
  {
    if |a| > 0 {
      LexLessIrreflexive(a[1..]);
    }
  }

  /** No tuple is listed twice. */
  lemma TuplesDistinct(lo: nat, n: nat, m: int)
    requires lo <= n
    ensures forall p, q :: 0 <= p < q < |Tuples(lo, n, m)| ==> Tuples(lo, n, m)[p] != Tuples(lo, n, m)[q]
  {
    TuplesSorted(lo, n, m);
    forall a: seq<nat> {
      LexLessIrreflexive(a);
    }
  }

  lemma {:induction false} RangeContains(lo: nat, hi: nat, n: nat, m: int, i: nat, t: seq<nat>)
    requires lo <= i < hi <= n && m != 0
    requires t in Prefix(i, Tuples(i + 1, n, m - 1))
    ensures t in Range(lo, hi, n, m)
    decreases hi
  {
    if i < hi - 1 {
      RangeContains(lo, hi - 1, n, m, i, t);
    }
  }

  /** Every strictly increasing tuple of m indices in [lo, n) is enumerated. */
  lemma {:induction false} TuplesComplete(lo: nat, n: nat, t: seq<nat>)
    requires lo <= n && Increasing(t) && InRange(t, lo, n)
    ensures t in Tuples(lo, n, |t|)
    decreases |t|
  {
    if t != [] {
      var i := t[0];
      var tail := t[1..];
      TuplesComplete(i + 1, n, tail);
      var inner := Tuples(i + 1, n, |t| - 1);
      var p :| 0 <= p < |inner| && inner[p] == tail;
      assert Prefix(i, inner)[p] == t;
      RangeContains(lo, n, n, |t|, i, t);
    }
  }

  /** There are C(n - lo, m) tuples. */
  lemma {:induction false} TuplesCount(lo: nat, n: nat, m: nat)
    requires lo <= n
    ensures |Tuples(lo, n, m)| == Choose(n - lo, m)
    decreases n - lo
  {
    if m != 0 && lo < n {
      RangeFront(lo, n, n, m);
      TuplesCount(lo + 1, n, m - 1);
      TuplesCount(lo + 1, n, m);
    }
  }

  /** A negative size is never reached by the pushes: nothing is enumerated. */
  lemma {:induction false} TuplesNegative(lo: nat, n: nat, m: int)
    requires lo <= n && m < 0
    ensures Tuples(lo, n, m) == []
    decreases n - lo
  {
    if lo < n {
      RangeFront(lo, n, n, m);
      TuplesNegative(lo + 1, n, m - 1);
      TuplesNegative(lo + 1, n, m);
    }
  }

  lemma {:induction false} ChooseAbove(n: nat, m: nat)
    requires m > n
    ensures Choose(n, m) == 0
  {
    if n > 0 {
      ChooseAbove(n - 1, m - 1);
      ChooseAbove(n - 1, m);
    }
  }

  lemma {:induction false} ChooseWithin(n: nat, m: nat)
    requires m <= n
    ensures Choose(n, m) >= 1
  {
    if m > 0 {
      ChooseWithin(n - 1, m - 1);
    }
  }

  // ---------------------------------------------------------------------------
  // The same facts about the lists getCombinations returns

  /** C(n, k) lists for 0 <= k <= n, none otherwise. */
  lemma CombosCount<T>(arr: seq<T>, k: int)
    ensures 0 <= k <= |arr| ==> |Combos(arr, k)| == Choose(|arr|, k) >= 1
    ensures (k < 0 || k > |arr|) ==> Combos(arr, k) == []
  {
    if k < 0 {
      TuplesNegative(0, |arr|, k);
    } else {
      TuplesCount(0, |arr|, k);
      if k <= |arr| { ChooseWithin(|arr|, k); } else { ChooseAbove(|arr|, k); }
    }
  }

  /**
   * The p-th list is arr restricted to the p-th index tuple, which has k
   * strictly increasing entries; the tuples are in strictly increasing
   * lexicographic order.
   */
  lemma CombosShape<T>(arr: seq<T>, k: int)
    ensures |Combos(arr, k)| == |Tuples(0, |arr|, k)|
    ensures forall p :: 0 <= p < |Combos(arr, k)| ==>
              var t := Tuples(0, |arr|, k)[p];
              |t| == k && Increasing(t) && InRange(t, 0, |arr|) && Combos(arr, k)[p] == Pick(arr, t)
    ensures forall p, q :: 0 <= p < q < |Combos(arr, k)| ==> LexLess(Tuples(0, |arr|, k)[p], Tuples(0, |arr|, k)[q])
  {
    var ts := Tuples(0, |arr|, k);
    TuplesShape(0, |arr|, k);
    TuplesSorted(0, |arr|, k);
    forall p | 0 <= p < |ts|
      ensures |ts[p]| == k && Increasing(ts[p]) && InRange(ts[p], 0, |arr|) && Combos(arr, k)[p] == Pick(arr, ts[p])
    {
      assert ts[p] in ts;
      assert Combos(arr, k)[p] == [] + Pick(arr, ts[p]);
    }
  }

  /** For an in-range tuple, Pick reads arr at each index of the tuple. */
  lemma {:induction false} PickIndex<T>(arr: seq<T>, t: seq<nat>)
    requires InRange(t, 0, |arr|)
    ensures |Pick(arr, t)| == |t|
    ensures forall p :: 0 <= p < |t| ==> Pick(arr, t)[p] == arr[t[p]]
  {
    if t != [] {
      PickIndex(arr, t[1..]);
    }
  }

  /** Every choice of k strictly increasing indices of arr yields one of the lists. */
  lemma CombosComplete<T>(arr: seq<T>, t: seq<nat>)
    requires Increasing(t) && InRange(t, 0, |arr|)
    ensures Pick(arr, t) in Combos(arr, |t|)
  {
    TuplesComplete(0, |arr|, t);
    var ts := Tuples(0, |arr|, |t|);
    var p :| 0 <= p < |ts| && ts[p] == t;
    var r := Combos(arr, |t|);
    assert r[p] == [] + Pick(arr, t) == Pick(arr, t);
  }

  lemma TuplesOfLastIndex()
    ensures Tuples(2, 3, 1) == [[2]]
  {
    assert Tuples(3, 3, 0) == [[]];
    assert [2] + [] == [2];
    assert Prefix(2, [[]]) == [[2]];
    assert Range(2, 2, 3, 1) == [];
  }

  lemma TuplesOfLastTwo()
    ensures Tuples(1, 3, 1) == [[1], [2]]
  {
    assert Tuples(2, 3, 0) == [[]];
    assert [1] + [] == [1] && [2] + [] == [2];
    assert Prefix(1, [[]]) == [[1]] && Prefix(2, [[]]) == [[2]];
    assert Range(1, 2, 3, 1) == [] + [[1]];
    assert Range(1, 3, 3, 1) == [[1]] + [[2]];
  }

  /** The index tuples for 2 out of 3, in the order helper visits them. */
  lemma ThreeChooseTwoTuples()
    ensures Tuples(0, 3, 2) == [[0, 1], [0, 2], [1, 2]]
  {
    TuplesOfLastTwo();
    TuplesOfLastIndex();
    assert Tuples(3, 3, 1) == [];
    assert [0] + [1] == [0, 1] && [0] + [2] == [0, 2] && [1] + [2] == [1, 2];
    var first, second := Prefix(0, [[1], [2]]), Prefix(1, [[2]]);
    assert first == [[0, 1], [0, 2]];
    assert second == [[1, 2]];
    assert Range(0, 1, 3, 2) == [] + first;
    assert Range(0, 2, 3, 2) == first + second;
    assert Range(0, 3, 3, 2) == first + second + [];
  }

  lemma PickPair<T>(arr: seq<T>, i: nat, j: nat)
    requires i < |arr| && j < |arr|
    ensures Pick(arr, [i, j]) == [arr[i], arr[j]]
  {
    assert [i, j][1..] == [j] && [j][1..] == [];
    assert Pick(arr, [j]) == [arr[j]] + [] == [arr[j]];
    assert Pick(arr, [i, j]) == [arr[i]] + [arr[j]];
  }

  /** Choosing 2 of [a, b, c] gives [a, b], [a, c], [b, c]. */
  lemma ThreeChooseTwoExample<T>(a: T, b: T, c: T)
    ensures Combos([a, b, c], 2) == [[a, b], [a, c], [b, c]]
  {
    var arr := [a, b, c];
    var ts := Tuples(0, 3, 2);
    ThreeChooseTwoTuples();
    PickPair(arr, 0, 1);
    PickPair(arr, 0, 2);
    PickPair(arr, 1, 2);
    var r := Combos(arr, 2);
    assert |r| == 3;
    assert r[0] == [] + Pick(arr, [0, 1]) == [a, b];
    assert r[1] == [] + Pick(arr, [0, 2]) == [a, c];
    assert r[2] == [] + Pick(arr, [1, 2]) == [b, c];
  }
}
