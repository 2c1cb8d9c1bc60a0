/** The 0/1 knapsack problem as the knapsack challenge poses it, and the
    reference optimum every solver below is proved against.

    An instance carries one weight and one value per item, a capacity
    `maxWeight` and a threshold `minValue`; a solution is a list of item
    indices.  `BestOf(c, order, w)` is the best value any subset of the items
    listed in `order` can reach within capacity `w`; it is written as the
    textbook recurrence on the last listed item, which is exactly the table
    every bottom-up solver fills.  The lemmas prove that it is attained
    (`Witness`), that nothing beats it (`BestOfIsOptimal`) and that it does not
    depend on the order in which the items are listed (`BestOfOrderIrrelevant`). */
module KnapsackSpec {

  datatype Challenge = Challenge(weights: seq<nat>, values: seq<nat>, maxWeight: nat, minValue: nat)

  datatype Option<T> = None | Some(value: T)

  /** What every solver relies on: one value per weight, and no weightless item
      (the ratio sorts divide by the weight). */
  predicate WellFormed(c: Challenge) {
    |c.weights| == |c.values| && forall k :: 0 <= k < |c.weights| ==> c.weights[k] >= 1
  }

  function NumItems(c: Challenge): nat { |c.weights| }

  /** Every listed index names an item of `c`. */
  predicate InRange(c: Challenge, items: seq<nat>) {
    forall k :: 0 <= k < |items| ==> items[k] < |c.weights|
  }

  predicate Distinct(s: seq<nat>) {
    forall a, b :: 0 <= a < b < |s| ==> s[a] != s[b]
  }

  predicate StrictlyIncreasing(s: seq<nat>) {
    forall a, b :: 0 <= a < b < |s| ==> s[a] < s[b]
  }

  predicate StrictlyDecreasing(s: seq<nat>) {
    forall a, b :: 0 <= a < b < |s| ==> s[a] > s[b]
  }

  /** `order` lists every item of `c` exactly once: the result of sorting 0..n. */
  predicate IsOrder(c: Challenge, order: seq<nat>) {
    |order| == NumItems(c) && InRange(c, order) && Distinct(order)
  }

  /** 0, 1, ..., n-1. */
  function Range(n: nat): (r: seq<nat>)
    ensures |r| == n && forall k :: 0 <= k < n ==> r[k] == k
  {
    seq(n, k => k)
  }

  /** Sum of `vec[i]` over the listed indices `i` (`vec` is the weights or the values). */
  function SumOver(vec: seq<nat>, items: seq<nat>): nat
    requires forall k :: 0 <= k < |items| ==> items[k] < |vec|
  {
    if items == [] then 0 else SumOver(vec, items[..|items| - 1]) + vec[items[|items| - 1]]
  }

  function Weight(c: Challenge, items: seq<nat>): nat
    requires InRange(c, items)
  {
    SumOver(c.weights, items)
  }

  function Value(c: Challenge, items: seq<nat>): nat
    requires WellFormed(c) && InRange(c, items)
  {
    SumOver(c.values, items)
  }

  /** A valid knapsack answer: distinct items whose weight fits the capacity. */
  predicate Feasible(c: Challenge, items: seq<nat>) {
    InRange(c, items) && Distinct(items) && Weight(c, items) <= c.maxWeight
  }

  function Max(a: nat, b: nat): nat { if a >= b then a else b }

  function Min(a: nat, b: nat): nat { if a <= b then a else b }

  /** Best value of a subset of the items listed in `order` whose weight is at most `w`. */
  function BestOf(c: Challenge, order: seq<nat>, w: nat): nat
    requires WellFormed(c) && InRange(c, order)
    decreases |order|
  {
    if order == [] then 0
    else
      var rest, x := order[..|order| - 1], order[|order| - 1];
      if c.weights[x] > w then BestOf(c, rest, w)
      else Max(BestOf(c, rest, w), c.values[x] + BestOf(c, rest, w - c.weights[x]))
  }

  /** The best value of the first `n` items within `w`, by the recurrence on
      item `n - 1`: skipped when it does not fit, otherwise the better of
      skipping and taking it. */
  function Best(c: Challenge, n: nat, w: nat): nat
    requires WellFormed(c) && n <= NumItems(c)
    decreases n
  {
    if n == 0 then 0
    else if c.weights[n - 1] > w then Best(c, n - 1, w)
    else Max(Best(c, n - 1, w), c.values[n - 1] + Best(c, n - 1, w - c.weights[n - 1]))
  }

  /** The optimum of the instance: the best over all items within the capacity. */
  function Optimum(c: Challenge): nat
    requires WellFormed(c)
  {
    BestOf(c, Range(NumItems(c)), c.maxWeight)
  }

  // ---------------------------------------------------------------------------
  // Sums

  lemma {:induction false} SumOverAppend(vec: seq<nat>, a: seq<nat>, b: seq<nat>)
    requires forall k :: 0 <= k < |a| ==> a[k] < |vec|
    requires forall k :: 0 <= k < |b| ==> b[k] < |vec|
    ensures forall k :: 0 <= k < |a + b| ==> (a + b)[k] < |vec|
    ensures SumOver(vec, a + b) == SumOver(vec, a) + SumOver(vec, b)
    decreases |b|
  {
    if b != [] {
      var b' := b[..|b| - 1];
      assert (a + b)[..|a + b| - 1] == a + b';
      SumOverAppend(vec, a, b');
    } else {
      assert a + b == a;
    }
  }

  lemma {:induction false} SumOverReverse(vec: seq<nat>, s: seq<nat>)
    requires forall k :: 0 <= k < |s| ==> s[k] < |vec|
    ensures forall k :: 0 <= k < |Reversed(s)| ==> Reversed(s)[k] < |vec|
    ensures SumOver(vec, Reversed(s)) == SumOver(vec, s)
    decreases |s|
  {
    if s != [] {
      var s' := s[..|s| - 1];
      var x := s[|s| - 1];
      assert Reversed(s) == [x] + Reversed(s');
      SumOverReverse(vec, s');
      SumOverAppend(vec, [x], Reversed(s'));
      assert [x][..0] == [];
    }
  }

  /** `s` without the element at position `k`. */
  function RemoveAt(s: seq<nat>, k: nat): (r: seq<nat>)
    requires k < |s|
    ensures |r| == |s| - 1
    ensures forall j :: 0 <= j < |r| ==> r[j] == (if j < k then s[j] else s[j + 1])
    ensures Distinct(s) ==> Distinct(r) && s[k] !in r
    ensures forall y :: y in r ==> y in s
    ensures forall y :: y in s && y != s[k] ==> y in r
  {
    var r := s[..k] + s[k + 1..];
    assert Distinct(s) ==> Distinct(r) by {
      if Distinct(s) {
        forall a, b | 0 <= a < b < |r| ensures r[a] != r[b] {
          var a' := if a < k then a else a + 1;
          var b' := if b < k then b else b + 1;
          assert r[a] == s[a'] && r[b] == s[b'] && a' < b';
        }
      }
    }
    forall y | y in r ensures y in s {
      var j :| 0 <= j < |r| && r[j] == y;
      if j < k { assert s[j] == y; } else { assert s[j + 1] == y; }
    }
    forall y | y in s && y != s[k] ensures y in r {
      var j :| 0 <= j < |s| && s[j] == y;
      if j < k { assert r[j] == y; } else { assert r[j - 1] == y; }
    }
    r
  }

  /** Taking the element at position `k` out of a list removes its contribution. */
  lemma SumOverRemove(vec: seq<nat>, s: seq<nat>, k: nat)
    requires forall j :: 0 <= j < |s| ==> s[j] < |vec|
    requires k < |s|
    ensures forall j :: 0 <= j < |RemoveAt(s, k)| ==> RemoveAt(s, k)[j] < |vec|
    ensures SumOver(vec, s) == SumOver(vec, RemoveAt(s, k)) + vec[s[k]]
  {
    assert s == s[..k] + [s[k]] + s[k + 1..];
    assert RemoveAt(s, k) == s[..k] + s[k + 1..];
    SumOverAppend(vec, s[..k] + [s[k]], s[k + 1..]);
    SumOverAppend(vec, s[..k], [s[k]]);
    SumOverAppend(vec, s[..k], s[k + 1..]);
    assert [s[k]][..0] == [];
  }

  /** Lists with the same elements, each at most once, have the same sum. */
  lemma {:induction false} SumOverSameElements(vec: seq<nat>, s: seq<nat>, t: seq<nat>)
    requires forall j :: 0 <= j < |s| ==> s[j] < |vec|
    requires forall j :: 0 <= j < |t| ==> t[j] < |vec|
    requires Distinct(s) && Distinct(t)
    requires forall x :: x in s <==> x in t
    ensures SumOver(vec, s) == SumOver(vec, t)
    decreases |s|
  {
    if s == [] {
      NonEmptyHasHead(t);
    } else {
      var x := s[|s| - 1];
      var s' := s[..|s| - 1];
      assert x in s;
      var k :| 0 <= k < |t| && t[k] == x;
      var t' := RemoveAt(t, k);
      SumOverRemove(vec, t, k);
      assert s == RemoveAt(s, |s| - 1) + [x];
      assert s' == RemoveAt(s, |s| - 1);
      SumOverSameElements(vec, s', t');
    }
  }

  lemma NonEmptyHasHead(s: seq<nat>)
    ensures s != [] ==> s[0] in s
  {
  }

  /** The items of `s` in the opposite order. */
  function Reversed(s: seq<nat>): (r: seq<nat>)
    ensures |r| == |s| && forall k :: 0 <= k < |s| ==> r[k] == s[|s| - 1 - k]
  {
    if s == [] then [] else [s[|s| - 1]] + Reversed(s[..|s| - 1])
  }

  /** Sorting a strictly decreasing list reverses it: the result is strictly
      increasing and holds the same items with the same weight and value. */
  lemma ReverseOfDecreasing(c: Challenge, s: seq<nat>)
    requires WellFormed(c) && InRange(c, s) && StrictlyDecreasing(s)
    ensures StrictlyIncreasing(Reversed(s)) && Distinct(Reversed(s)) && InRange(c, Reversed(s))
    ensures forall x :: x in Reversed(s) <==> x in s
    ensures Weight(c, Reversed(s)) == Weight(c, s) && Value(c, Reversed(s)) == Value(c, s)
  {
    var r := Reversed(s);
    forall x ensures x in r <==> x in s {
      if x in r { var k :| 0 <= k < |r| && r[k] == x; assert s[|s| - 1 - k] == x; }
      if x in s { var k :| 0 <= k < |s| && s[k] == x; assert r[|s| - 1 - k] == x; }
    }
    SumOverReverse(c.weights, s);
    SumOverReverse(c.values, s);
  }

  // ---------------------------------------------------------------------------
  // BestOf: attained, optimal, independent of the order

  /** A subset of `order`, listed in the order it appears there, that reaches `BestOf`. */
  function Witness(c: Challenge, order: seq<nat>, w: nat): (r: seq<nat>)
    requires WellFormed(c) && InRange(c, order)
    ensures InRange(c, r) && Weight(c, r) <= w && Value(c, r) == BestOf(c, order, w)
    ensures forall x :: x in r ==> x in order
    ensures Distinct(order) ==> Distinct(r)
    decreases |order|
  {
    if order == [] then []
    else
      var rest, x := order[..|order| - 1], order[|order| - 1];
      if c.weights[x] > w || BestOf(c, rest, w) >= c.values[x] + BestOf(c, rest, w - c.weights[x]) then
        Witness(c, rest, w)
      else
        var r := Witness(c, rest, w - c.weights[x]) + [x];
        assert r[..|r| - 1] == Witness(c, rest, w - c.weights[x]);
        assert Distinct(order) ==> x !in rest;
        r
  }

  /** No distinct selection of listed items that fits in `w` is worth more than `BestOf`. */
  lemma {:induction false} BestOfIsOptimal(c: Challenge, order: seq<nat>, w: nat, sel: seq<nat>)
    requires WellFormed(c) && InRange(c, order) && Distinct(order)
    requires Distinct(sel) && (forall x :: x in sel ==> x in order)
    requires InRange(c, sel) && Weight(c, sel) <= w
    ensures Value(c, sel) <= BestOf(c, order, w)
    decreases |order|
  {
    if order == [] {
      NonEmptyHasHead(sel);
    } else {
      var rest, x := order[..|order| - 1], order[|order| - 1];
      if x in sel {
        var k :| 0 <= k < |sel| && sel[k] == x;
        var sel' := RemoveAt(sel, k);
        SumOverRemove(c.weights, sel, k);
        SumOverRemove(c.values, sel, k);
        assert order == RemoveAt(order, |order| - 1) + [x];
        BestOfIsOptimal(c, rest, w - c.weights[x], sel');
      } else {
        assert rest == RemoveAt(order, |order| - 1);
        BestOfIsOptimal(c, rest, w, sel);
      }
    }
  }

  /** Two listings of the same items give the same optimum: the sort order a
      solver processes items in cannot change the value it finds. */
  lemma BestOfOrderIrrelevant(c: Challenge, o1: seq<nat>, o2: seq<nat>, w: nat)
    requires WellFormed(c) && InRange(c, o1) && InRange(c, o2) && Distinct(o1) && Distinct(o2)
    requires forall x :: x in o1 <==> x in o2
    ensures BestOf(c, o1, w) == BestOf(c, o2, w)
  {
    var w1 := Witness(c, o1, w);
    var w2 := Witness(c, o2, w);
    BestOfIsOptimal(c, o2, w, w1);
    BestOfIsOptimal(c, o1, w, w2);
  }

  /** Every complete listing of the items reaches the instance optimum. */
  lemma OrderReachesOptimum(c: Challenge, order: seq<nat>, w: nat)
    requires WellFormed(c) && IsOrder(c, order)
    ensures BestOf(c, order, w) == BestOf(c, Range(NumItems(c)), w)
  {
    var n := NumItems(c);
    var r := Range(n);
    forall x ensures x in order <==> x in r {
      if x in order {
        var k :| 0 <= k < |order| && order[k] == x;
        assert r[x] == x;
      }
      if x in r {
        PigeonholeCovers(order, n, x);
      }
    }
    BestOfOrderIrrelevant(c, order, r, w);
  }

  /** n distinct indices below n include every index below n. */
  lemma PigeonholeCovers(s: seq<nat>, n: nat, x: nat)
    requires |s| == n && Distinct(s) && (forall k :: 0 <= k < |s| ==> s[k] < n)
    requires x < n
    ensures x in s
  {
    if x !in s {
      // rename n-1 to x: n distinct values below n-1, which cannot be
      var s2 := seq(|s|, k requires 0 <= k < |s| => if s[k] == n - 1 then x else s[k]);
      assert Distinct(s2) by {
        forall a, b | 0 <= a < b < |s2| ensures s2[a] != s2[b] {
          assert s[a] != s[b];
          assert s[a] != x && s[b] != x by { assert s[a] in s && s[b] in s; }
        }
      }
      forall k | 0 <= k < |s2| ensures s2[k] < n - 1 {
        assert s[k] in s;
      }
      DistinctBound(s2, n - 1);
    }
  }

  /** Distinct indices below n are at most n many. */
  lemma {:induction false} DistinctBound(s: seq<nat>, n: nat)
    requires Distinct(s) && (forall k :: 0 <= k < |s| ==> s[k] < n)
    ensures |s| <= n
    decreases n
  {
    if n == 0 {
    } else if n - 1 in s {
      var k :| 0 <= k < |s| && s[k] == n - 1;
      var s' := RemoveAt(s, k);
      forall j | 0 <= j < |s'| ensures s'[j] < n - 1 {
        assert s'[j] in s' && s'[j] in s;
      }
      DistinctBound(s', n - 1);
    } else {
      forall j | 0 <= j < |s| ensures s[j] < n - 1 {
        assert s[j] in s;
      }
      DistinctBound(s, n - 1);
    }
  }

  /** A larger capacity never lowers the optimum. */
  lemma {:induction false} BestOfMonotone(c: Challenge, order: seq<nat>, w1: nat, w2: nat)
    requires WellFormed(c) && InRange(c, order) && w1 <= w2
    ensures BestOf(c, order, w1) <= BestOf(c, order, w2)
    decreases |order|
  {
    if order != [] {
      var rest, x := order[..|order| - 1], order[|order| - 1];
      BestOfMonotone(c, rest, w1, w2);
      if c.weights[x] <= w1 {
        BestOfMonotone(c, rest, w1 - c.weights[x], w2 - c.weights[x]);
      }
    }
  }

  /** With no capacity nothing fits: every item weighs at least 1. */
  lemma {:induction false} BestOfZeroCapacity(c: Challenge, order: seq<nat>)
    requires WellFormed(c) && InRange(c, order)
    ensures BestOf(c, order, 0) == 0
    decreases |order|
  {
    if order != [] { BestOfZeroCapacity(c, order[..|order| - 1]); }
  }

  /** Growing the list of items never lowers the best value. */
  lemma {:induction false} BestOfPrefixMonotone(c: Challenge, order: seq<nat>, k: nat, w: nat)
    requires WellFormed(c) && InRange(c, order) && k <= |order|
    ensures InRange(c, order[..k]) && BestOf(c, order[..k], w) <= BestOf(c, order, w)
    decreases |order| - k
  {
    if k == |order| {
      assert order[..k] == order;
    } else {
      BestOfStep(c, order, k, w);
      BestOfPrefixMonotone(c, order, k + 1, w);
    }
  }

  /** No selection is worth more than all the listed items together. */
  lemma {:induction false} BestOfAtMostTotal(c: Challenge, order: seq<nat>, w: nat)
    requires WellFormed(c) && InRange(c, order)
    ensures BestOf(c, order, w) <= SumOver(c.values, order)
    decreases |order|
  {
    if order != [] {
      var rest := order[..|order| - 1];
      BestOfAtMostTotal(c, rest, w);
      if c.weights[order[|order| - 1]] <= w {
        BestOfAtMostTotal(c, rest, w - c.weights[order[|order| - 1]]);
      }
    }
  }

  /** Sums over a prefix grow with the prefix. */
  lemma PrefixSumMonotone(vec: seq<nat>, order: seq<nat>, j: nat, k: nat)
    requires forall i :: 0 <= i < |order| ==> order[i] < |vec|
    requires j <= k <= |order|
    ensures SumOver(vec, order[..j]) <= SumOver(vec, order[..k])
  {
    assert order[..k] == order[..j] + order[j..k];
    SumOverAppend(vec, order[..j], order[j..k]);
  }

  /** Listing one more item: the recurrence seen from the prefix. */
  lemma BestOfStep(c: Challenge, order: seq<nat>, i: nat, w: nat)
    requires WellFormed(c) && InRange(c, order) && i < |order|
    ensures InRange(c, order[..i]) && InRange(c, order[..i + 1])
    ensures BestOf(c, order[..i + 1], w) ==
      if c.weights[order[i]] > w then BestOf(c, order[..i], w)
      else Max(BestOf(c, order[..i], w), c.values[order[i]] + BestOf(c, order[..i], w - c.weights[order[i]]))
  {
    assert order[..i + 1][..i] == order[..i];
  }

  /** The recurrence for the items in index order, one item at a time. */
  lemma BestOfRangeStep(c: Challenge, i: nat, w: nat)
    requires WellFormed(c) && i < NumItems(c)
    ensures InRange(c, Range(i)) && InRange(c, Range(i + 1))
    ensures BestOf(c, Range(i + 1), w) ==
      if c.weights[i] > w then BestOf(c, Range(i), w)
      else Max(BestOf(c, Range(i), w), c.values[i] + BestOf(c, Range(i), w - c.weights[i]))
  {
    assert Range(i + 1)[..i] == Range(i);
  }

  /** The recurrence on the first `n` items is the best over them. */
  lemma {:induction false} BestIsBestOf(c: Challenge, n: nat, w: nat)
    requires WellFormed(c) && n <= NumItems(c)
    ensures InRange(c, Range(n)) && Best(c, n, w) == BestOf(c, Range(n), w)
    decreases n
  {
    if n == 0 {
      assert Range(0) == [];
    } else {
      BestIsBestOf(c, n - 1, w);
      if c.weights[n - 1] <= w {
        BestIsBestOf(c, n - 1, w - c.weights[n - 1]);
      }
      BestOfRangeStep(c, n - 1, w);
    }
  }

  // ---------------------------------------------------------------------------
  // Walking back from an optimum: the facts every reconstruction loop uses.

  /** Item `x`, listed after the items of `prefix`, strictly improves the
      best value at capacity `w`: taking it is the better branch of the recurrence. */
  predicate Improves(c: Challenge, prefix: seq<nat>, x: nat, w: nat)
    requires WellFormed(c) && InRange(c, prefix) && x < NumItems(c)
  {
    w >= c.weights[x] && c.values[x] + BestOf(c, prefix, w - c.weights[x]) > BestOf(c, prefix, w)
  }

  lemma AppendItem(c: Challenge, items: seq<nat>, x: nat)
    requires WellFormed(c) && InRange(c, items) && x < NumItems(c)
    ensures InRange(c, items + [x])
    ensures Weight(c, items + [x]) == Weight(c, items) + c.weights[x]
    ensures Value(c, items + [x]) == Value(c, items) + c.values[x]
  {
    assert (items + [x])[..|items|] == items;
  }

  /** A strictly decreasing list stays so when an item below its last one
      is appended. */
  lemma AppendBelow(s: seq<nat>, x: nat)
    requires StrictlyDecreasing(s) && (s == [] || s[|s| - 1] > x)
    ensures StrictlyDecreasing(s + [x])
  {
    var t := s + [x];
    forall a, b | 0 <= a < b < |t| ensures t[a] > t[b] {
      if b == |s| && a < |s| - 1 {
        assert t[a] == s[a] > s[|s| - 1];
      }
    }
  }

  lemma AppendSmaller(s: seq<nat>, x: nat)
    requires StrictlyDecreasing(s) && forall k :: 0 <= k < |s| ==> x < s[k]
    ensures StrictlyDecreasing(s + [x])
  {
  }

  /** What one step of the walk back relies on: where item `x` improved the
      cell, the optimum is the item plus the best of the rest at the lowered
      capacity; elsewhere the item adds nothing. */
  lemma TakeOrSkip(c: Challenge, prefix: seq<nat>, x: nat, w: nat)
    requires WellFormed(c) && InRange(c, prefix) && x < NumItems(c)
    ensures InRange(c, prefix + [x])
    ensures Improves(c, prefix, x, w) ==>
      w >= c.weights[x] && BestOf(c, prefix + [x], w) == c.values[x] + BestOf(c, prefix, w - c.weights[x])
    ensures !Improves(c, prefix, x, w) ==> BestOf(c, prefix + [x], w) == BestOf(c, prefix, w)
  {
    assert (prefix + [x])[..|prefix|] == prefix;
  }

  /** `TakeOrSkip` for the items in index order. */
  lemma TakeOrSkipRange(c: Challenge, i: nat, w: nat)
    requires WellFormed(c) && i < NumItems(c)
    ensures InRange(c, Range(i)) && InRange(c, Range(i + 1))
    ensures Improves(c, Range(i), i, w) ==>
      w >= c.weights[i] && BestOf(c, Range(i + 1), w) == c.values[i] + BestOf(c, Range(i), w - c.weights[i])
    ensures !Improves(c, Range(i), i, w) ==> BestOf(c, Range(i + 1), w) == BestOf(c, Range(i), w)
  {
    assert Range(i + 1) == Range(i) + [i];
    TakeOrSkip(c, Range(i), i, w);
  }

  /** `TakeOrSkip` for position `k` of an arbitrary order. */
  lemma TakeOrSkipAt(c: Challenge, order: seq<nat>, k: nat, w: nat)
    requires WellFormed(c) && InRange(c, order) && k < |order|
    ensures Improves(c, order[..k], order[k], w) ==>
      w >= c.weights[order[k]] && BestOf(c, order[..k + 1], w) == c.values[order[k]] + BestOf(c, order[..k], w - c.weights[order[k]])
    ensures !Improves(c, order[..k], order[k], w) ==> BestOf(c, order[..k + 1], w) == BestOf(c, order[..k], w)
  {
    assert order[..k + 1] == order[..k] + [order[k]];
    TakeOrSkip(c, order[..k], order[k], w);
  }

  /** Below its weight, position `k` leaves the best value unchanged. */
  lemma ShortCells(c: Challenge, order: seq<nat>, k: nat)
    requires WellFormed(c) && InRange(c, order) && k < |order|
    ensures forall u: nat :: u < c.weights[order[k]] ==> BestOf(c, order[..k + 1], u) == BestOf(c, order[..k], u)
  {
    assert order[..k + 1] == order[..k] + [order[k]];
    assert (order[..k] + [order[k]])[..k] == order[..k];
  }

  /** The front of `order[i..]`: the item at position `i` is skipped or, when
      it fits, taken — the branching of the depth-first searches. */
  lemma FrontChoice(c: Challenge, order: seq<nat>, i: nat, r: nat)
    requires WellFormed(c) && IsOrder(c, order) && i < |order|
    ensures BestOf(c, order[i..], r) ==
      if c.weights[order[i]] > r then BestOf(c, order[i + 1..], r)
      else Max(BestOf(c, order[i + 1..], r), c.values[order[i]] + BestOf(c, order[i + 1..], r - c.weights[order[i]]))
  {
    var x := order[i];
    var moved := order[i + 1..] + [x];
    assert Distinct(moved) by {
      forall a, b | 0 <= a < b < |moved| ensures moved[a] != moved[b] {
        assert moved[a] == order[i + 1 + a];
        if b < |moved| - 1 {
          assert moved[b] == order[i + 1 + b];
        }
      }
    }
    assert Distinct(order[i..]) by {
      forall a, b | 0 <= a < b < |order| - i ensures order[i..][a] != order[i..][b] {
        assert order[i..][a] == order[i + a] && order[i..][b] == order[i + b];
      }
    }
    forall y ensures y in order[i..] <==> y in moved {
      if y in order[i..] {
        var k :| 0 <= k < |order| - i && order[i..][k] == y;
        if k > 0 {
          assert moved[k - 1] == y;
        } else {
          assert moved[|moved| - 1] == y;
        }
      }
      if y in moved {
        var k :| 0 <= k < |moved| && moved[k] == y;
        if k < |moved| - 1 {
          assert order[i..][k + 1] == y;
        } else {
          assert order[i..][0] == y;
        }
      }
    }
    BestOfOrderIrrelevant(c, order[i..], moved, r);
    assert moved[..|moved| - 1] == order[i + 1..];
  }

  // ---------------------------------------------------------------------------
  // Selections kept as one flag per item.

  /** The indices of the flagged items in increasing order: the answer the
      solvers that keep one flag per item build by `enumerate().filter_map`. */
  function Picked(sel: seq<bool>): (r: seq<nat>)
    ensures forall k :: 0 <= k < |r| ==> r[k] < |sel|
    decreases |sel|
  {
    if sel == [] then []
    else
      var r := Picked(sel[..|sel| - 1]);
      if sel[|sel| - 1] then r + [|sel| - 1] else r
  }

  /** The picked indices are exactly the flagged ones, each once, ascending. */
  lemma {:induction false} PickedIncreasing(sel: seq<bool>)
    ensures StrictlyIncreasing(Picked(sel)) && Distinct(Picked(sel))
    ensures forall x: nat :: x in Picked(sel) <==> x < |sel| && sel[x]
    decreases |sel|
  {
    if sel != [] {
      var m := |sel| - 1;
      var p := Picked(sel[..m]);
      PickedIncreasing(sel[..m]);
      forall x: nat ensures x in Picked(sel) <==> x < |sel| && sel[x] {
        if x < m {
          assert sel[..m][x] == sel[x];
        }
      }
    }
  }

  lemma {:induction false} PickedNone(sel: seq<bool>)
    requires forall k :: 0 <= k < |sel| ==> !sel[k]
    ensures Picked(sel) == []
    decreases |sel|
  {
    if sel != [] {
      PickedNone(sel[..|sel| - 1]);
    }
  }

  /** Flagging one more item adds it once to every sum over the selection. */
  lemma {:induction false} PickedSet(vec: seq<nat>, sel: seq<bool>, x: nat)
    requires |sel| <= |vec| && x < |sel| && !sel[x]
    ensures SumOver(vec, Picked(sel[x := true])) == SumOver(vec, Picked(sel)) + vec[x]
    decreases |sel|
  {
    var m := |sel| - 1;
    var sel' := sel[x := true];
    var p := Picked(sel[..m]);
    if x == m {
      assert sel'[..m] == sel[..m];
      assert Picked(sel') == p + [m];
      assert Picked(sel) == p;
      assert (p + [m])[..|p|] == p;
    } else {
      assert sel'[..m] == sel[..m][x := true];
      var p' := Picked(sel'[..m]);
      PickedSet(vec, sel[..m], x);
      if sel[m] {
        assert Picked(sel) == p + [m];
        assert sel'[m];
        assert Picked(sel') == p' + [m];
        assert (p' + [m])[..|p'|] == p';
        assert (p + [m])[..|p|] == p;
      } else {
        assert Picked(sel') == p';
        assert Picked(sel) == p;
      }
    }
  }

  // ---------------------------------------------------------------------------
  // The greedy fill behind the fractional upper bounds.

  /** Where a greedy fill of `order[i..]` into `remaining` stops: it takes
      whole items while they fit and stops at the first that does not. */
  datatype Fill = Fill(stop: nat, value: nat, left: nat)

  function Greedy(c: Challenge, order: seq<nat>, i: nat, remaining: nat): (g: Fill)
    requires WellFormed(c) && InRange(c, order) && i <= |order|
    ensures i <= g.stop <= |order|
    ensures g.value == SumOver(c.values, order[i..g.stop])
    ensures remaining == g.left + SumOver(c.weights, order[i..g.stop])
    ensures g.stop < |order| ==> c.weights[order[g.stop]] > g.left
    decreases |order| - i
  {
    if i == |order| then Fill(i, 0, remaining)
    else
      var x := order[i];
      if c.weights[x] <= remaining then
        var g := Greedy(c, order, i + 1, remaining - c.weights[x]);
        FrontSum(c, order, i, g.stop);
        Fill(g.stop, c.values[x] + g.value, g.left)
      else Fill(i, 0, remaining)
  }

  /** Summing `order[i..j]` from the front. */
  lemma FrontSum(c: Challenge, order: seq<nat>, i: nat, j: nat)
    requires WellFormed(c) && InRange(c, order) && i < j <= |order|
    ensures SumOver(c.values, order[i..j]) == c.values[order[i]] + SumOver(c.values, order[i + 1..j])
    ensures SumOver(c.weights, order[i..j]) == c.weights[order[i]] + SumOver(c.weights, order[i + 1..j])
  {
    assert order[i..j] == [order[i]] + order[i + 1..j];
    SumOverAppend(c.values, [order[i]], order[i + 1..j]);
    SumOverAppend(c.weights, [order[i]], order[i + 1..j]);
    assert [order[i]][..0] == [];
  }

  /** The greedy fill and its bound one item at a time: an item that fits is
      taken whole and the fill goes on; the first that does not ends it. */
  lemma GreedyStep(c: Challenge, order: seq<nat>, i: nat, remaining: nat)
    requires WellFormed(c) && InRange(c, order) && i < |order|
    ensures c.weights[order[i]] <= remaining ==>
      Greedy(c, order, i, remaining).stop == Greedy(c, order, i + 1, remaining - c.weights[order[i]]).stop &&
      FractionalBound(c, order, i, remaining) == c.values[order[i]] + FractionalBound(c, order, i + 1, remaining - c.weights[order[i]])
    ensures c.weights[order[i]] > remaining ==>
      Greedy(c, order, i, remaining).stop == i &&
      FractionalBound(c, order, i, remaining) == Fraction(c.values[order[i]], remaining, c.weights[order[i]])
  {
  }

  /** The floored fraction of an item that does not fit is below its value. */
  lemma FractionBelowValue(value: nat, left: nat, weight: nat)
    requires left < weight
    ensures Fraction(value, left, weight) <= value
  {
    assert value * left <= value * weight;
    assert value * weight / weight == value;
  }

  /** The greedy fill of `order[i..]` into `remaining` plus the floored
      fraction `value * left / weight` of the first item that does not fit:
      the bound of sack_o_potatoes and knap_super_bb. */
  function FractionalBound(c: Challenge, order: seq<nat>, i: nat, remaining: nat): (b: nat)
    requires WellFormed(c) && InRange(c, order) && i <= |order|
    ensures b >= Greedy(c, order, i, remaining).value
  {
    var g := Greedy(c, order, i, remaining);
    g.value + if g.stop < |order| then Fraction(c.values[order[g.stop]], g.left, c.weights[order[g.stop]]) else 0
  }

  /** The floored fraction `value * left / weight` of an item. */
  function Fraction(value: nat, left: nat, weight: nat): nat
    requires weight > 0
  {
    value * left / weight
  }

  /** The greedy fill of `order[i..]` into `remaining` plus `part(item,
      left)` for the first item that does not fit, where `part` stands for
      the truncated float `ratio * remaining_weight` of over_knapmaxxed and
      knap_zilla. */
  function PartBound(c: Challenge, order: seq<nat>, i: nat, remaining: nat, part: (nat, nat) -> nat): (b: nat)
    requires WellFormed(c) && InRange(c, order) && i <= |order|
    ensures b >= Greedy(c, order, i, remaining).value
  {
    var g := Greedy(c, order, i, remaining);
    g.value + if g.stop < |order| then part(order[g.stop], g.left) else 0
  }

  /** `PartBound` one item at a time, as its loops compute it. */
  lemma PartStep(c: Challenge, order: seq<nat>, i: nat, remaining: nat, part: (nat, nat) -> nat)
    requires WellFormed(c) && InRange(c, order) && i < |order|
    ensures c.weights[order[i]] <= remaining ==>
      PartBound(c, order, i, remaining, part) == c.values[order[i]] + PartBound(c, order, i + 1, remaining - c.weights[order[i]], part)
    ensures c.weights[order[i]] > remaining ==>
      PartBound(c, order, i, remaining, part) == part(order[i], remaining)
  {
  }

  // ---------------------------------------------------------------------------
  // Row passes that stop early.

  /** The number of row passes a solver that stops once the full capacity
      reaches `min_value` runs: the first `k >= 1` with
      `BestOf(order[..k], max_weight) >= min_value`, or all of them. */
  function StopPoint(c: Challenge, order: seq<nat>): (k: nat)
    requires WellFormed(c) && InRange(c, order)
    ensures k <= |order| && (|order| > 0 ==> k >= 1)
    ensures forall j :: 1 <= j < k ==> BestOf(c, order[..j], c.maxWeight) < c.minValue
    ensures k < |order| ==> BestOf(c, order[..k], c.maxWeight) >= c.minValue
  {
    if |order| == 0 then 0 else StopFrom(c, order, 1)
  }

  function StopFrom(c: Challenge, order: seq<nat>, k: nat): (stop: nat)
    requires WellFormed(c) && InRange(c, order) && 1 <= k <= |order|
    requires forall j :: 1 <= j < k ==> BestOf(c, order[..j], c.maxWeight) < c.minValue
    ensures k <= stop <= |order|
    ensures forall j :: 1 <= j < stop ==> BestOf(c, order[..j], c.maxWeight) < c.minValue
    ensures stop < |order| ==> BestOf(c, order[..stop], c.maxWeight) >= c.minValue
    decreases |order| - k
  {
    if k == |order| || BestOf(c, order[..k], c.maxWeight) >= c.minValue then k
    else StopFrom(c, order, k + 1)
  }
}
