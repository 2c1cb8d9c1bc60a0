/** tig-algorithms knapsack/knap_super_bb: depth-first branch and bound over
    the items in non-increasing value/weight ratio (compared exactly by
    cross-multiplication), pruning a node whose greedy fractional bound does
    not beat the best profit so far or cannot reach `min_value`.  The current
    and best selections are flags per item, updated in place; the answer
    lists the flagged items of the best selection in index order.

    Because the order is by exact ratio, the floored fractional bound never
    falls below the best completion of a node (`BoundIsSound`, the exchange
    argument), so the search finds the optimum whenever it reaches
    `min_value`. */
module KnapSuperBb {
  import opened KnapsackSpec

  /** The comparator `(b.value * a.weight).cmp(&(a.value * b.weight))`
      sorts the items by non-increasing value/weight ratio. */
  predicate RatioSorted(c: Challenge, order: seq<nat>)
    requires WellFormed(c) && InRange(c, order)
  {
    forall a, b :: 0 <= a < b < |order| ==>
      c.values[order[b]] * c.weights[order[a]] <= c.values[order[a]] * c.weights[order[b]]
  }

  // ---------------------------------------------------------------------------
  // The exchange argument, against the ratio `vs / ws` of a pivot item.

  /** How far item `y` is worth more than its weight at the pivot ratio, scaled by `ws`. */
  function Excess(c: Challenge, vs: nat, ws: nat, y: nat): int
    requires y < NumItems(c) && WellFormed(c)
  {
    c.values[y] * ws - vs * c.weights[y]
  }

  /** The summed positive excess of the listed items. */
  function Gain(c: Challenge, vs: nat, ws: nat, items: seq<nat>): int
    requires WellFormed(c) && InRange(c, items)
    decreases |items|
  {
    if items == [] then 0
    else
      var e := Excess(c, vs, ws, items[|items| - 1]);
      Gain(c, vs, ws, items[..|items| - 1]) + if e > 0 then e else 0
  }

  /** No selection from `items` within capacity `r` is worth more, scaled by
      `ws`, than the positive excess of `items` plus `r` at the pivot ratio. */
  lemma {:induction false} GainBoundsBest(c: Challenge, vs: nat, ws: nat, items: seq<nat>, r: nat)
    requires WellFormed(c) && InRange(c, items)
    ensures ws * BestOf(c, items, r) <= Gain(c, vs, ws, items) + vs * r
    decreases |items|
  {
    if items != [] {
      var rest, x := items[..|items| - 1], items[|items| - 1];
      GainBoundsBest(c, vs, ws, rest, r);
      if c.weights[x] <= r {
        GainBoundsBest(c, vs, ws, rest, r - c.weights[x]);
        assert vs * r == vs * (r - c.weights[x]) + vs * c.weights[x];
        assert ws * (c.values[x] + BestOf(c, rest, r - c.weights[x])) ==
          ws * c.values[x] + ws * BestOf(c, rest, r - c.weights[x]);
      }
    }
  }

  lemma {:induction false} GainAppend(c: Challenge, vs: nat, ws: nat, a: seq<nat>, b: seq<nat>)
    requires WellFormed(c) && InRange(c, a) && InRange(c, b)
    ensures InRange(c, a + b)
    ensures Gain(c, vs, ws, a + b) == Gain(c, vs, ws, a) + Gain(c, vs, ws, b)
    decreases |b|
  {
    if b != [] {
      var b' := b[..|b| - 1];
      assert (a + b)[..|a + b| - 1] == a + b';
      GainAppend(c, vs, ws, a, b');
    } else {
      assert a + b == a;
    }
  }

  /** Items at or above the pivot ratio: their gain is their whole excess. */
  lemma {:induction false} GainOfAhead(c: Challenge, vs: nat, ws: nat, items: seq<nat>)
    requires WellFormed(c) && InRange(c, items)
    requires forall k :: 0 <= k < |items| ==> Excess(c, vs, ws, items[k]) >= 0
    ensures Gain(c, vs, ws, items) == ws * SumOver(c.values, items) - vs * SumOver(c.weights, items)
    decreases |items|
  {
    if items != [] {
      var rest, x := items[..|items| - 1], items[|items| - 1];
      GainOfAhead(c, vs, ws, rest);
      assert ws * SumOver(c.values, items) == ws * SumOver(c.values, rest) + ws * c.values[x];
      assert vs * SumOver(c.weights, items) == vs * SumOver(c.weights, rest) + vs * c.weights[x];
    }
  }

  /** Items at or below the pivot ratio gain nothing. */
  lemma {:induction false} GainOfBehind(c: Challenge, vs: nat, ws: nat, items: seq<nat>)
    requires WellFormed(c) && InRange(c, items)
    requires forall k :: 0 <= k < |items| ==> Excess(c, vs, ws, items[k]) <= 0
    ensures Gain(c, vs, ws, items) == 0
    decreases |items|
  {
    if items != [] {
      GainOfBehind(c, vs, ws, items[..|items| - 1]);
    }
  }

  /** An integer bound scaled by `ws` survives the floor division. */
  lemma FloorBound(x: nat, v: nat, m: nat, ws: nat)
    requires ws > 0 && ws * x <= ws * v + m
    ensures x <= v + m / ws
  {
    if x > v {
      var k := x - v;
      assert ws * x == ws * v + ws * k;
      DivLower(ws, k, m);
    }
  }

  lemma DivLower(ws: nat, k: nat, m: nat)
    requires ws > 0 && ws * k <= m
    ensures k <= m / ws
  {
    var q, rest := m / ws, m % ws;
    assert m == ws * q + rest && rest < ws;
    if q < k {
      MulLeft(ws, q + 1, k);
    }
  }

  /** The exchange argument's closing arithmetic: a selection scaled by `ws`
      is worth at most the greedy gain plus the capacity at the pivot ratio. */
  lemma ScaledBound(best: nat, value: nat, taken: nat, left: nat, r: nat, vs: nat, ws: nat, gain: int)
    requires ws > 0 && gain == ws * value - vs * taken && r == taken + left
    requires ws * best <= gain + vs * r
    ensures best <= value + vs * left / ws
  {
    assert vs * r == vs * taken + vs * left;
    FloorBound(best, value, vs * left, ws);
  }

  lemma MulLeft(a: nat, b: nat, c: nat)
    requires b <= c
    ensures a * b <= a * c
  {
    assert a * c == a * b + a * (c - b);
  }

  /** Dantzig's bound: with the items in non-increasing ratio, the greedy
      fill of `order[i..]` into `r` plus the floored fraction of the first
      misfit is at least the best value of any selection from `order[i..]`. */
  lemma BoundIsSound(c: Challenge, order: seq<nat>, i: nat, r: nat)
    requires WellFormed(c) && InRange(c, order) && RatioSorted(c, order) && i <= |order|
    ensures BestOf(c, order[i..], r) <= FractionalBound(c, order, i, r)
  {
    var g := Greedy(c, order, i, r);
    var s := g.stop;
    var best := BestOf(c, order[i..], r);
    if s == |order| {
      assert order[i..s] == order[i..];
      BestOfAtMostTotal(c, order[i..], r);
    } else {
      var x := order[s];
      var vs, ws := c.values[x], c.weights[x];
      assert order[i..] == order[i..s] + order[s..];
      GainBoundsBest(c, vs, ws, order[i..], r);
      GainAppend(c, vs, ws, order[i..s], order[s..]);
      forall k | 0 <= k < s - i ensures Excess(c, vs, ws, order[i..s][k]) >= 0 {
        assert order[i..s][k] == order[i + k];
      }
      GainOfAhead(c, vs, ws, order[i..s]);
      forall k | 0 <= k < |order| - s ensures Excess(c, vs, ws, order[s..][k]) <= 0 {
        assert order[s..][k] == order[s + k];
      }
      GainOfBehind(c, vs, ws, order[s..]);
      var taken, gain := SumOver(c.weights, order[i..s]), Gain(c, vs, ws, order[i..s]);
      assert ws * best <= Gain(c, vs, ws, order[i..]) + vs * r;
      assert Gain(c, vs, ws, order[i..]) == gain;
      assert r == taken + g.left;
      ScaledBound(best, g.value, taken, g.left, r, vs, ws, gain);
    }
  }

  // ---------------------------------------------------------------------------
  // The search.

  /** The selection in `current_solution` at node `(i, w, p)`: no item at
      position `i` or later is flagged, and the flagged items weigh `w` and
      are worth `p`. */
  predicate Holds(c: Challenge, order: seq<nat>, cur: seq<bool>, i: nat, w: nat, p: nat)
    requires WellFormed(c) && IsOrder(c, order) && i <= |order|
  {
    |cur| == NumItems(c) &&
    (forall t :: i <= t < |order| ==> !cur[order[t]]) &&
    Weight(c, Picked(cur)) == w && Value(c, Picked(cur)) == p && w <= c.maxWeight
  }

  /** `best_solution` is a feasible selection worth `best_profit`. */
  predicate Records(c: Challenge, best: seq<bool>, bestProfit: nat)
    requires WellFormed(c)
  {
    |best| == NumItems(c) && Weight(c, Picked(best)) <= c.maxWeight && Value(c, Picked(best)) == bestProfit
  }

  /** `calculate_upper_bound`: `p` plus whole items from position `i` while
      they fit into `max_weight - w`, plus the floored fraction of the first
      that does not. */
  method UpperBound(c: Challenge, order: seq<nat>, i: nat, w: nat, p: nat) returns (ub: nat)
    requires WellFormed(c) && InRange(c, order) && i <= |order| && w <= c.maxWeight
    ensures ub == p + FractionalBound(c, order, i, c.maxWeight - w)
  {
    ghost var total := p + FractionalBound(c, order, i, c.maxWeight - w);
    ub := p;
    var remaining: nat := c.maxWeight - w;
    var j := i;
    while j < |order|
      invariant i <= j <= |order|
      invariant total == ub + FractionalBound(c, order, j, remaining)
    {
      var x := order[j];
      if c.weights[x] <= remaining {
        assert FractionalBound(c, order, j, remaining) == c.values[x] + FractionalBound(c, order, j + 1, remaining - c.weights[x]) by {
          GreedyStep(c, order, j, remaining);
        }
        remaining := remaining - c.weights[x];
        ub := ub + c.values[x];
      } else {
        assert FractionalBound(c, order, j, remaining) == Fraction(c.values[x], remaining, c.weights[x]) by {
          GreedyStep(c, order, j, remaining);
        }
        ub := ub + Fraction(c.values[x], remaining, c.weights[x]);
        break;
      }
      j := j + 1;
    }
  }

  /** Taking the item at position `i` moves the node to `i + 1` with its
      weight and value added. */
  lemma HoldsTake(c: Challenge, order: seq<nat>, cur: seq<bool>, i: nat, w: nat, p: nat)
    requires WellFormed(c) && IsOrder(c, order) && i < |order|
    requires Holds(c, order, cur, i, w, p) && w + c.weights[order[i]] <= c.maxWeight
    ensures Holds(c, order, cur[order[i] := true], i + 1, w + c.weights[order[i]], p + c.values[order[i]])
  {
    var x := order[i];
    PickedSet(c.weights, cur, x);
    PickedSet(c.values, cur, x);
    forall t | i + 1 <= t < |order| ensures !cur[x := true][order[t]] {
      assert order[t] != order[i];
    }
  }

  /** Skipping the item at position `i` moves the node to `i + 1` unchanged. */
  lemma HoldsSkip(c: Challenge, order: seq<nat>, cur: seq<bool>, i: nat, w: nat, p: nat)
    requires WellFormed(c) && IsOrder(c, order) && i < |order|
    requires Holds(c, order, cur, i, w, p)
    ensures Holds(c, order, cur, i + 1, w, p)
  {
  }

  /** `branch_and_bound` at node `(i, w, p)`: returns the new best profit,
      never lower than the old; `best_solution` still records it; the
      current selection is restored; and when the best completion of the
      node reaches `min_value`, the best profit reaches that completion. */
  method BranchAndBound(c: Challenge, order: seq<nat>, i: nat, w: nat, p: nat,
                        current: array<bool>, best: array<bool>, bestProfit: nat)
      returns (bestProfit': nat)
    requires WellFormed(c) && IsOrder(c, order) && RatioSorted(c, order) && i <= |order|
    requires current != best
    requires Holds(c, order, current[..], i, w, p) && Records(c, best[..], bestProfit)
    modifies current, best
    ensures current[..] == old(current[..])
    ensures bestProfit' >= bestProfit && Records(c, best[..], bestProfit')
    ensures p + BestOf(c, order[i..], c.maxWeight - w) >= c.minValue ==>
      bestProfit' >= p + BestOf(c, order[i..], c.maxWeight - w)
    decreases |order| - i, 1
  {
    ghost var before := current[..];
    var ub := UpperBound(c, order, i, w, p);
    BoundIsSound(c, order, i, c.maxWeight - w);
    if ub <= bestProfit || ub < c.minValue {
      return bestProfit;
    }
    bestProfit' := bestProfit;
    if p > bestProfit {
      bestProfit' := p;
      forall k | 0 <= k < best.Length {
        best[k] := current[k];
      }
      assert best[..] == before;
    }
    assert current[..] == before;
    if i < |order| {
      bestProfit' := Branch(c, order, i, w, p, current, best, bestProfit');
    } else {
      assert order[i..] == [];
      assert BestOf(c, order[i..], c.maxWeight - w) == 0;
    }
  }

  /** The two descents of `branch_and_bound` from a node that was not
      pruned: with the item at position `i` flagged when it fits (unflagged
      again afterwards), then without it. */
  method Branch(c: Challenge, order: seq<nat>, i: nat, w: nat, p: nat,
                current: array<bool>, best: array<bool>, bestProfit: nat)
      returns (bestProfit': nat)
    requires WellFormed(c) && IsOrder(c, order) && RatioSorted(c, order) && i < |order|
    requires current != best
    requires Holds(c, order, current[..], i, w, p) && Records(c, best[..], bestProfit)
    modifies current, best
    ensures current[..] == old(current[..])
    ensures bestProfit' >= bestProfit && Records(c, best[..], bestProfit')
    ensures p + BestOf(c, order[i..], c.maxWeight - w) >= c.minValue ==>
      bestProfit' >= p + BestOf(c, order[i..], c.maxWeight - w)
    decreases |order| - i, 0
  {
    ghost var before := current[..];
    var x := order[i];
    ghost var r := c.maxWeight - w;
    ghost var reached := bestProfit;
    FrontChoice(c, order, i, r);
    bestProfit' := bestProfit;
    if w + c.weights[x] <= c.maxWeight {
      HoldsTake(c, order, before, i, w, p);
      current[x] := true;
      assert current[..] == before[x := true];
      bestProfit' := BranchAndBound(c, order, i + 1, w + c.weights[x], p + c.values[x], current, best, bestProfit');
      current[x] := false;
      assert current[..] == before;
      assert c.maxWeight - (w + c.weights[x]) == r - c.weights[x];
      reached := bestProfit';
    }
    HoldsSkip(c, order, before, i, w, p);
    bestProfit' := BranchAndBound(c, order, i + 1, w, p, current, best, bestProfit');
    assert bestProfit' >= reached;
  }

  /** `solve_challenge`: the search from the root with nothing flagged; the
      flagged items of the best selection when its profit reaches
      `min_value`. */
  method Solve(c: Challenge, order: seq<nat>) returns (r: Option<seq<nat>>)
    requires WellFormed(c) && IsOrder(c, order) && RatioSorted(c, order)
    ensures r.None? <==> Optimum(c) < c.minValue
    ensures r.Some? ==> Feasible(c, r.value) && Value(c, r.value) == Optimum(c) && StrictlyIncreasing(r.value)
  {
    var current := new bool[|order|](_ => false);
    var best := new bool[|order|](_ => false);
    PickedNone(current[..]);
    PickedNone(best[..]);
    var bestProfit := BranchAndBound(c, order, 0, 0, 0, current, best, 0);
    assert order[0..] == order;
    OrderReachesOptimum(c, order, c.maxWeight);
    var items := Picked(best[..]);
    PickedIncreasing(best[..]);
    forall y | y in items ensures y in Range(NumItems(c)) {
      assert Range(NumItems(c))[y] == y;
    }
    BestOfIsOptimal(c, Range(NumItems(c)), c.maxWeight, items);
    if bestProfit >= c.minValue {
      r := Some(items);
    } else {
      r := None;
    }
  }
}
