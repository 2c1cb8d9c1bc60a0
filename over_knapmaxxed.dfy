/** tig-algorithms knapsack/over_knapmaxxed: answer every item at once when
    they all fit and reach `min_value`; otherwise a greedy bound in ratio
    order (whole items while they fit, then a float fraction of the first
    misfit, here the opaque `part`), the best-value row in the same order
    stopping once a cell reaches `min_value`, and a walk back over the final
    row.  The walk as written keeps an item when `dp[w] != dp[w - weight] +
    value`, which can return a selection worth less than `min_value`;
    `SolveFixed` records the improving cells instead, as sackophone does. */
module OverKnapmaxxed {
  import opened KnapsackSpec
  import Sackophone

  // ---------------------------------------------------------------------------
  // The shortcut and the bound.

  /** Every item fits and together they reach `min_value`. */
  predicate AllItemsPass(c: Challenge)
    requires WellFormed(c)
  {
    SumOver(c.weights, Range(NumItems(c))) <= c.maxWeight && SumOver(c.values, Range(NumItems(c))) >= c.minValue
  }

  /** The bound loop: it adds whole items while they fit and, at the first
      that does not, its part and stops. */
  method UpperBound(c: Challenge, order: seq<nat>, part: (nat, nat) -> nat) returns (upperBound: nat)
    requires WellFormed(c) && InRange(c, order)
    ensures upperBound == PartBound(c, order, 0, c.maxWeight, part)
  {
    var remaining: nat := c.maxWeight;
    upperBound := 0;
    var i := 0;
    while i < |order|
      invariant i <= |order|
      invariant Greedy(c, order, i, remaining).stop == Greedy(c, order, 0, c.maxWeight).stop
      invariant Greedy(c, order, i, remaining).left == Greedy(c, order, 0, c.maxWeight).left
      invariant upperBound + Greedy(c, order, i, remaining).value == Greedy(c, order, 0, c.maxWeight).value
    {
      var x := order[i];
      if c.weights[x] <= remaining {
        upperBound := upperBound + c.values[x];
        remaining := remaining - c.weights[x];
      } else {
        upperBound := upperBound + part(x, remaining);
        return;
      }
      i := i + 1;
    }
  }

  // ---------------------------------------------------------------------------
  // The best-value row.

  /** The row pass for position `k` as written: `dp[w] = max(dp[w], dp[w -
      weight] + value)` from the top capacity down, and `max_value` the largest
      cell written so far.  Cells never decrease, and `max_value` ends as the
      best value at the full capacity. */
  method PassAsWritten(c: Challenge, order: seq<nat>, k: nat, dp: array<nat>, maxValue: nat) returns (maxValue': nat)
    requires WellFormed(c) && InRange(c, order) && k < |order| && dp.Length == c.maxWeight + 1
    requires forall u :: 0 <= u <= c.maxWeight ==> dp[u] == BestOf(c, order[..k], u)
    requires maxValue == BestOf(c, order[..k], c.maxWeight)
    modifies dp
    ensures forall u :: 0 <= u <= c.maxWeight ==> old(dp[u]) <= dp[u] == BestOf(c, order[..k + 1], u)
    ensures maxValue' == BestOf(c, order[..k + 1], c.maxWeight)
  {
    var W := c.maxWeight;
    var x := order[k];
    var wt, v := c.weights[x], c.values[x];
    maxValue' := maxValue;
    TakeOrSkipAt(c, order, k, W);
    var w: int := W;
    while w >= wt
      invariant w <= W && (wt <= W ==> wt - 1 <= w)
      invariant forall u :: 0 <= u <= W && u <= w ==> dp[u] == BestOf(c, order[..k], u)
      invariant forall u :: 0 <= u <= W && u > w ==> old(dp[u]) <= dp[u] == BestOf(c, order[..k + 1], u)
      invariant maxValue <= maxValue' <= BestOf(c, order[..k + 1], W)
      invariant w < W ==> maxValue' == BestOf(c, order[..k + 1], W)
    {
      TakeOrSkipAt(c, order, k, w);
      BestOfMonotone(c, order[..k + 1], w, W);
      dp[w] := Max(dp[w], dp[w - wt] + v);
      maxValue' := Max(maxValue', dp[w]);
      w := w - 1;
    }
    ShortCells(c, order, k);
  }

  /** The DP loop: one pass per position, stopping after the first whose
      `max_value` reaches `min_value`.  It runs `StopPoint` passes and leaves
      the best-value row over them. */
  method Passes(c: Challenge, order: seq<nat>, dp: array<nat>) returns (maxValue: nat)
    requires WellFormed(c) && InRange(c, order) && dp.Length == c.maxWeight + 1
    requires forall u :: 0 <= u <= c.maxWeight ==> dp[u] == 0
    modifies dp
    ensures forall u :: 0 <= u <= c.maxWeight ==> dp[u] == BestOf(c, order[..StopPoint(c, order)], u)
    ensures maxValue == BestOf(c, order[..StopPoint(c, order)], c.maxWeight)
  {
    ghost var stop := StopPoint(c, order);
    maxValue := 0;
    var k := 0;
    while k < |order|
      invariant k <= stop && (k == stop ==> k == |order|)
      invariant forall u :: 0 <= u <= c.maxWeight ==> dp[u] == BestOf(c, order[..k], u)
      invariant maxValue == BestOf(c, order[..k], c.maxWeight)
    {
      maxValue := PassAsWritten(c, order, k, dp, maxValue);
      k := k + 1;
      if maxValue >= c.minValue {
        break;
      }
    }
  }

  /** The best-value row over `prefix`, as a sequence. */
  function Row(c: Challenge, prefix: seq<nat>): (row: seq<nat>)
    requires WellFormed(c) && InRange(c, prefix)
    ensures |row| == c.maxWeight + 1 && forall u :: 0 <= u <= c.maxWeight ==> row[u] == BestOf(c, prefix, u)
  {
    seq(c.maxWeight + 1, u requires 0 <= u <= c.maxWeight => BestOf(c, prefix, u))
  }

  // ---------------------------------------------------------------------------
  // The walk back as written.

  /** The walk over sorted positions `j - 1` down to 0: it stops when the
      capacity `w` is 0 or every item is taken, and keeps the item when it
      fits and `row[w] != row[w - weight] + value`. */
  function WalkAsWritten(c: Challenge, order: seq<nat>, row: seq<nat>, j: nat, w: nat, items: seq<nat>): seq<nat>
    requires WellFormed(c) && InRange(c, order) && j <= |order| && w < |row|
    decreases j
  {
    if j == 0 || w == 0 || |items| == |order| then items
    else
      var x := order[j - 1];
      if w >= c.weights[x] && row[w] != row[w - c.weights[x]] + c.values[x] then
        WalkAsWritten(c, order, row, j - 1, w - c.weights[x], items + [x])
      else WalkAsWritten(c, order, row, j - 1, w, items)
  }

  /** The reconstruction loop: it follows `WalkAsWritten`, never lowers `w`
      below 0, takes each sorted position at most once and at most `n` items. */
  method ReconstructAsWritten(c: Challenge, order: seq<nat>, dp: array<nat>) returns (items: seq<nat>)
    requires WellFormed(c) && IsOrder(c, order) && dp.Length == c.maxWeight + 1
    ensures items == WalkAsWritten(c, order, dp[..], |order|, c.maxWeight, [])
    ensures Feasible(c, items) && |items| <= |order|
  {
    var n, W := |order|, c.maxWeight;
    items := [];
    var w: nat := W;
    var j := n;
    while j > 0
      invariant 0 <= j <= n && w <= W && |items| <= n - j
      invariant WalkAsWritten(c, order, dp[..], j, w, items) == WalkAsWritten(c, order, dp[..], n, W, [])
      invariant InRange(c, items) && Weight(c, items) + w == W
      invariant Distinct(items) && forall a, t :: 0 <= a < |items| && 0 <= t < j ==> items[a] != order[t]
    {
      if w == 0 || |items| == n {
        break;
      }
      var x := order[j - 1];
      if w >= c.weights[x] && dp[w] != dp[w - c.weights[x]] + c.values[x] {
        AppendItem(c, items, x);
        items := items + [x];
        w := w - c.weights[x];
      }
      j := j - 1;
    }
  }

  // ---------------------------------------------------------------------------
  // The solver as written.

  /** `solve_challenge`: all items when they fit and pass; else `None` when
      the bound or the best value over the passes run is below `min_value`;
      else the walk over the final row.  The items fit and are distinct, but
      their value is not tied to `min_value` (see `SampleAsWritten`). */
  method SolveAsWritten(c: Challenge, order: seq<nat>, part: (nat, nat) -> nat) returns (r: Option<seq<nat>>)
    requires WellFormed(c) && IsOrder(c, order)
    ensures AllItemsPass(c) ==> r == Some(Range(NumItems(c)))
    ensures !AllItemsPass(c) ==>
      (r.None? <==> PartBound(c, order, 0, c.maxWeight, part) < c.minValue || BestOf(c, order[..StopPoint(c, order)], c.maxWeight) < c.minValue)
    ensures !AllItemsPass(c) && r.Some? ==>
      r.value == WalkAsWritten(c, order, Row(c, order[..StopPoint(c, order)]), |order|, c.maxWeight, [])
    ensures r.Some? ==> Feasible(c, r.value) && |r.value| <= NumItems(c)
  {
    var n, W := |order|, c.maxWeight;
    if AllItemsPass(c) {
      AllItemsFeasible(c);
      return Some(Range(n));
    }
    var upperBound := UpperBound(c, order, part);
    if upperBound < c.minValue {
      return None;
    }
    var dp := new nat[W + 1](_ => 0);
    var maxValue := Passes(c, order, dp);
    if maxValue < c.minValue {
      return None;
    }
    assert dp[..] == Row(c, order[..StopPoint(c, order)]);
    var items := ReconstructAsWritten(c, order, dp);
    r := Some(items);
  }

  /** The shortcut's answer is feasible. */
  lemma AllItemsFeasible(c: Challenge)
    requires WellFormed(c) && AllItemsPass(c)
    ensures Feasible(c, Range(NumItems(c))) && |Range(NumItems(c))| <= NumItems(c)
  {
  }

  // ---------------------------------------------------------------------------
  // The walk that keeps the wrong items.

  /** Two items of weight 1 worth 5 and 1, capacity 1, `min_value` 5. */
  function Sample(): Challenge {
    Challenge([1, 1], [5, 1], 1, 5)
  }

  /** In ratio order `[0, 1]` the bound is at least 5 and the first pass
      reaches 5, so the answer is `Some`; but the walk meets item 1 first,
      sees `dp[1] = 5 != dp[0] + 1` and keeps it: `Some([1])`, worth 1 < 5. */
  lemma SampleAsWritten(part: (nat, nat) -> nat)
    ensures !AllItemsPass(Sample()) && PartBound(Sample(), [0, 1], 0, 1, part) >= 5
    ensures StopPoint(Sample(), [0, 1]) == 1 && BestOf(Sample(), [0, 1][..1], 1) == 5
    ensures WalkAsWritten(Sample(), [0, 1], Row(Sample(), [0, 1][..1]), 2, 1, []) == [1]
    ensures Value(Sample(), [1]) == 1 < Sample().minValue
  {
    SampleBound(part);
    SampleFirstPass();
    SampleWalk();
  }

  lemma SampleBound(part: (nat, nat) -> nat)
    ensures !AllItemsPass(Sample()) && PartBound(Sample(), [0, 1], 0, 1, part) >= 5
  {
    var c, order := Sample(), [0, 1];
    assert Range(2) == [0, 1];
    assert SumOver(c.weights, [0, 1]) == 2 by {
      assert [0, 1][..1] == [0];
      assert [0][..0] == [];
    }
    assert Greedy(c, order, 2, 0) == Fill(2, 0, 0);
    assert Greedy(c, order, 1, 0) == Fill(1, 0, 0);
    assert Greedy(c, order, 0, 1).value == 5;
  }

  lemma SampleFirstPass()
    ensures [0, 1][..1] == [0] && BestOf(Sample(), [0], 1) == 5 && BestOf(Sample(), [0], 0) == 0
    ensures StopPoint(Sample(), [0, 1]) == 1
  {
    assert [0, 1][..1] == [0];
    assert [0][..0] == [];
  }

  lemma SampleWalk()
    ensures WalkAsWritten(Sample(), [0, 1], Row(Sample(), [0, 1][..1]), 2, 1, []) == [1]
    ensures Value(Sample(), [1]) == 1
  {
    var c, order := Sample(), [0, 1];
    SampleFirstPass();
    var row := Row(c, order[..1]);
    assert row[1] == 5 && row[0] == 0;
    assert WalkAsWritten(c, order, row, 1, 0, [1]) == [1];
    assert [1][..0] == [];
  }

  /** The solver as written answers `Some([1])` on the sample, below `min_value`. */
  method SolveSampleAsWritten(part: (nat, nat) -> nat) returns (r: Option<seq<nat>>)
    ensures r == Some([1]) && Value(Sample(), r.value) < Sample().minValue
  {
    SampleAsWritten(part);
    r := SolveAsWritten(Sample(), [0, 1], part);
  }

  // ---------------------------------------------------------------------------
  // The corrected solver.

  /** `solve_challenge` with the walk driven by recorded improvements: each
      pass also sets the bit of every cell its item strictly improved (as in
      sackophone), and the walk keeps an item exactly where its bit is set.
      Its answer is then worth the best value over the passes run, so a
      `Some` always reaches `min_value`. */
  method SolveFixed(c: Challenge, order: seq<nat>, part: (nat, nat) -> nat) returns (r: Option<seq<nat>>)
    requires WellFormed(c) && IsOrder(c, order)
    ensures AllItemsPass(c) ==> r == Some(Range(NumItems(c)))
    ensures !AllItemsPass(c) ==>
      (r.None? <==> PartBound(c, order, 0, c.maxWeight, part) < c.minValue || BestOf(c, order[..StopPoint(c, order)], c.maxWeight) < c.minValue)
    ensures r.Some? ==> Feasible(c, r.value) && Value(c, r.value) >= c.minValue
    ensures !AllItemsPass(c) && r.Some? ==> Value(c, r.value) == BestOf(c, order[..StopPoint(c, order)], c.maxWeight)
  {
    var n, W := |order|, c.maxWeight;
    if AllItemsPass(c) {
      AllItemsFeasible(c);
      return Some(Range(n));
    }
    var upperBound := UpperBound(c, order, part);
    if upperBound < c.minValue {
      return None;
    }
    var dp := new nat[W + 1](_ => 0);
    var selected, flags, rows := Sackophone.NewTable(c, order);
    ghost var stop := StopPoint(c, order);
    var k := 0;
    while k < n
      invariant k <= stop && (k == stop ==> k == n)
      invariant forall u :: 0 <= u <= W ==> dp[u] == BestOf(c, order[..k], u)
      invariant Sackophone.Mirrors(selected[..], flags) && Sackophone.Packs(flags, rows, W)
      invariant Sackophone.TableAfter(c, order, rows, k)
    {
      ghost var before := rows;
      flags, rows := Sackophone.Pass(c, order, k, dp, selected, flags, rows);
      Sackophone.TableStep(c, order, before, rows, k);
      k := k + 1;
      if dp[W] >= c.minValue {
        break;
      }
    }
    if dp[W] < c.minValue {
      return None;
    }
    var items := Sackophone.WalkBack(c, order, selected, k, flags, rows);
    r := Some(items);
  }
}
