/** tig-algorithms knapsack/flat_dp: one best-value row over the items in
    ratio order, an early answer as soon as a cell reaches `min_value`, and
    otherwise a walk back that picks, at each capacity, the first item whose
    removal accounts for the cell.

    The early answer as written is the item just processed, alone, whatever
    the cell that reached `min_value` was built from: `SolveSampleAsWritten`
    shows an answer worth less than `min_value`.  `SolveFixed` keeps a list
    per cell, as `ListDp` does, and answers with the list of the cell that
    reached `min_value`. */
module FlatDp {
  import opened KnapsackSpec
  import ListDp

  /** The pass for item `order[k]` as written: every cell from the top
      capacity down to the weight takes the better of itself and
      `dp[w - weight] + value`, and the pass stops (`hit`) at the first cell
      that reaches `min_value`.  Cells never decrease; when the pass runs
      through, every cell it checked is below `min_value`. */
  method RowAsWritten(c: Challenge, order: seq<nat>, k: nat, dp: array<nat>) returns (hit: bool)
    requires WellFormed(c) && InRange(c, order) && k < |order|
    requires dp.Length == c.maxWeight + 1
    requires forall u :: 0 <= u <= c.maxWeight ==> dp[u] == BestOf(c, order[..k], u)
    modifies dp
    ensures forall u :: 0 <= u <= c.maxWeight ==> old(dp[u]) <= dp[u]
    ensures hit ==> c.weights[order[k]] <= c.maxWeight && BestOf(c, order[..k + 1], c.maxWeight) >= c.minValue
    ensures !hit ==> forall u :: 0 <= u <= c.maxWeight ==> dp[u] == BestOf(c, order[..k + 1], u)
    ensures !hit ==> forall u :: c.weights[order[k]] <= u <= c.maxWeight ==> dp[u] < c.minValue
    ensures !hit && c.weights[order[k]] > c.maxWeight ==> forall u :: 0 <= u <= c.maxWeight ==> dp[u] == old(dp[u])
  {
    var x := order[k];
    var wt, v := c.weights[x], c.values[x];
    var w: int := c.maxWeight;
    while w >= wt
      invariant w <= c.maxWeight && (wt <= c.maxWeight ==> wt - 1 <= w)
      invariant forall u :: 0 <= u <= c.maxWeight ==> old(dp[u]) <= dp[u]
      invariant wt > c.maxWeight ==> forall u :: 0 <= u <= c.maxWeight ==> dp[u] == old(dp[u])
      invariant forall u :: 0 <= u <= w ==> dp[u] == BestOf(c, order[..k], u)
      invariant forall u: nat :: w < u <= c.maxWeight ==> dp[u] == BestOf(c, order[..k + 1], u) && dp[u] < c.minValue
    {
      BestOfStep(c, order, k, w);
      dp[w] := Max(dp[w], dp[w - wt] + v);
      if dp[w] >= c.minValue {
        BestOfMonotone(c, order[..k + 1], w, c.maxWeight);
        return true;
      }
      w := w - 1;
    }
    forall u | 0 <= u <= w ensures dp[u] == BestOf(c, order[..k + 1], u) {
      BestOfStep(c, order, k, u);
    }
    return false;
  }

  /** The item that, removed from capacity `w`, accounts for `dp[w]`. */
  predicate Accounts(c: Challenge, dp: array<nat>, w: nat, x: nat)
    requires WellFormed(c) && x < NumItems(c) && w < dp.Length
    reads dp
  {
    c.weights[x] <= w && dp[w] == dp[w - c.weights[x]] + c.values[x]
  }

  /** `sorted_items.iter().find(..)`: the first position whose item accounts for `dp[w]`. */
  method FindAccounting(c: Challenge, order: seq<nat>, dp: array<nat>, w: nat) returns (found: Option<nat>)
    requires WellFormed(c) && InRange(c, order) && w < dp.Length
    ensures found.Some? ==> found.value < |order| && Accounts(c, dp, w, order[found.value])
    ensures found.Some? ==> forall j :: 0 <= j < found.value ==> !Accounts(c, dp, w, order[j])
    ensures found.None? ==> forall j :: 0 <= j < |order| ==> !Accounts(c, dp, w, order[j])
  {
    var j := 0;
    while j < |order|
      invariant j <= |order|
      invariant forall j' :: 0 <= j' < j ==> !Accounts(c, dp, w, order[j'])
    {
      if Accounts(c, dp, w, order[j]) {
        return Some(j);
      }
      j := j + 1;
    }
    return None;
  }

  /** The walk back: while the capacity is positive, take the first item that
      accounts for its cell and lower the capacity by its weight.  It never
      lowers the capacity below zero, so the items weigh at most
      `max_weight`, and they are worth what the cells they crossed lost;
      when no item fits at all, it takes nothing. */
  method Reconstruct(c: Challenge, order: seq<nat>, dp: array<nat>) returns (items: seq<nat>)
    requires WellFormed(c) && InRange(c, order) && dp.Length == c.maxWeight + 1
    ensures InRange(c, items) && Weight(c, items) <= c.maxWeight
    ensures Value(c, items) <= dp[c.maxWeight]
    ensures forall x :: x in items ==> x in order && c.weights[x] <= c.maxWeight
    ensures (forall j :: 0 <= j < |order| ==> c.weights[order[j]] > c.maxWeight) ==> items == []
  {
    items := [];
    var w: nat := c.maxWeight;
    while w > 0
      invariant InRange(c, items) && w <= c.maxWeight
      invariant Weight(c, items) + w == c.maxWeight
      invariant Value(c, items) + dp[w] == dp[c.maxWeight]
      invariant forall x :: x in items ==> x in order && c.weights[x] <= c.maxWeight
      invariant (forall j :: 0 <= j < |order| ==> c.weights[order[j]] > c.maxWeight) ==> items == []
      decreases w
    {
      var found := FindAccounting(c, order, dp, w);
      if found.None? {
        break;
      }
      var x := order[found.value];
      AppendItem(c, items, x);
      items := items + [x];
      w := w - c.weights[x];
    }
  }

  /** The pass of `order[k]` is the first to bring a cell to `min_value`:
      the item fits, the best value over the items up to it reaches
      `min_value`, and no earlier item that fits did. */
  ghost predicate FirstReach(c: Challenge, order: seq<nat>, k: nat)
    requires WellFormed(c) && InRange(c, order)
  {
    k < |order| && c.weights[order[k]] <= c.maxWeight && BestOf(c, order[..k + 1], c.maxWeight) >= c.minValue &&
    forall j :: 0 <= j < k && c.weights[order[j]] <= c.maxWeight ==> BestOf(c, order[..j + 1], c.maxWeight) < c.minValue
  }

  /** A fitting item whose pass reaches `min_value`, after no earlier
      fitting item's pass did, is the one pass that first does. */
  lemma HitIsFirst(c: Challenge, order: seq<nat>, k: nat)
    requires WellFormed(c) && InRange(c, order) && k < |order|
    requires forall j :: 0 <= j < k && c.weights[order[j]] <= c.maxWeight ==> BestOf(c, order[..j + 1], c.maxWeight) < c.minValue
    requires c.weights[order[k]] <= c.maxWeight && BestOf(c, order[..k + 1], c.maxWeight) >= c.minValue
    ensures FirstReach(c, order, k)
    ensures forall k' :: 0 <= k' < |order| && FirstReach(c, order, k') ==> k' == k
  {
  }

  /** When no fitting item's pass reaches `min_value`, no pass is the first
      to do so. */
  lemma NoneReach(c: Challenge, order: seq<nat>)
    requires WellFormed(c) && InRange(c, order)
    requires forall j :: 0 <= j < |order| && c.weights[order[j]] <= c.maxWeight ==> BestOf(c, order[..j + 1], c.maxWeight) < c.minValue
    ensures forall k :: 0 <= k < |order| ==> !FirstReach(c, order, k)
  {
  }

  /** The passes of `solve_challenge` over an all-zero row, in `order`,
      stopping at the first pass that brings a cell to `min_value`: `hit`
      names that pass, and is `None` exactly when no pass does, in which
      case the row ends as the best values over all items. */
  method PassesAsWritten(c: Challenge, order: seq<nat>, dp: array<nat>) returns (hit: Option<nat>)
    requires WellFormed(c) && InRange(c, order)
    requires dp.Length == c.maxWeight + 1 && forall u :: 0 <= u <= c.maxWeight ==> dp[u] == 0
    modifies dp
    ensures hit.Some? ==> hit.value < |order| && FirstReach(c, order, hit.value)
    ensures hit.Some? ==> forall k :: 0 <= k < |order| && FirstReach(c, order, k) ==> k == hit.value
    ensures hit.None? ==> forall k :: 0 <= k < |order| ==> !FirstReach(c, order, k)
    ensures hit.None? ==> forall u :: 0 <= u <= c.maxWeight ==> dp[u] == BestOf(c, order, u)
    ensures hit.None? ==> (forall j :: 0 <= j < |order| ==> c.weights[order[j]] > c.maxWeight) || dp[c.maxWeight] < c.minValue
  {
    assert order[..0] == [];
    forall u | 0 <= u <= c.maxWeight ensures dp[u] == BestOf(c, order[..0], u) { }
    for k := 0 to |order|
      invariant forall u :: 0 <= u <= c.maxWeight ==> dp[u] == BestOf(c, order[..k], u)
      invariant (forall j :: 0 <= j < k ==> c.weights[order[j]] > c.maxWeight) || dp[c.maxWeight] < c.minValue
      invariant forall j :: 0 <= j < k && c.weights[order[j]] <= c.maxWeight ==> BestOf(c, order[..j + 1], c.maxWeight) < c.minValue
    {
      var reached := RowAsWritten(c, order, k, dp);
      if reached {
        HitIsFirst(c, order, k);
        return Some(k);
      }
    }
    assert order[..|order|] == order;
    NoneReach(c, order);
    return None;
  }

  /** `solve_challenge` as written.  It answers `None` exactly when the optimum
      is below `min_value`.  Otherwise the answer fits the knapsack: it is the
      one item whose pass first brought a cell to `min_value`, alone, or,
      when no pass did, the walk back, which is then empty. */
  method SolveAsWritten(c: Challenge, order: seq<nat>) returns (r: Option<seq<nat>>)
    requires WellFormed(c) && IsOrder(c, order)
    ensures r.None? <==> Optimum(c) < c.minValue
    ensures r.Some? ==> Feasible(c, r.value) && |r.value| <= 1
    ensures forall k :: 0 <= k < |order| && FirstReach(c, order, k) ==> r == Some([order[k]])
    ensures r.Some? && (forall k :: 0 <= k < |order| ==> !FirstReach(c, order, k)) ==> r.value == []
  {
    var dp := new nat[c.maxWeight + 1](_ => 0);
    var hit := PassesAsWritten(c, order, dp);
    OrderReachesOptimum(c, order, c.maxWeight);
    if hit.Some? {
      var k := hit.value;
      BestOfPrefixMonotone(c, order, k + 1, c.maxWeight);
      AppendItem(c, [], order[k]);
      assert [order[k]][..0] == [];
      return Some([order[k]]);
    }
    var items := Reconstruct(c, order, dp);
    if dp[c.maxWeight] >= c.minValue {
      r := Some(items);
    } else {
      r := None;
    }
  }

  /** The instance on which the early answer goes wrong: two unit-weight
      items worth 3 each, capacity 2, threshold 6. */
  function Sample(): (c: Challenge)
    ensures WellFormed(c) && NumItems(c) == 2
  {
    Challenge([1, 1], [3, 3], 2, 6)
  }

  lemma SampleOptimum()
    ensures Optimum(Sample()) == 6
  {
    var c := Sample();
    BestOfRangeStep(c, 0, 0);
    BestOfRangeStep(c, 0, 1);
    BestOfRangeStep(c, 0, 2);
    BestOfRangeStep(c, 1, 2);
    assert Range(0) == [];
  }

  /** In either order the answer as written is a single item, worth 3,
      below the threshold 6 that both items together reach. */
  method SolveSampleAsWritten(order: seq<nat>) returns (r: Option<seq<nat>>)
    requires IsOrder(Sample(), order)
    ensures r.Some? && InRange(Sample(), r.value) && Value(Sample(), r.value) < Sample().minValue
  {
    SampleOptimum();
    r := SolveAsWritten(Sample(), order);
    if r.value != [] {
      var x := r.value[0];
      assert r.value == [x] && [x][..0] == [];
      var c := Sample();
      assert x < 2 && c.values == [3, 3];
      assert SumOver(c.values, [x]) == SumOver(c.values, []) + c.values[x] == 3;
    }
  }

  // ---------------------------------------------------------------------------
  // The early answer the threshold check calls for.

  /** The pass for `order[k]` with a list per cell, stopping at the first
      cell that reaches `min_value` and naming it. */
  method RowFixed(c: Challenge, order: seq<nat>, k: nat, dp: array<nat>, selected: array<seq<nat>>) returns (hit: Option<nat>)
    requires WellFormed(c) && InRange(c, order) && Distinct(order) && k < |order|
    requires dp.Length == c.maxWeight + 1 && selected.Length == c.maxWeight + 1
    requires forall u :: 0 <= u <= c.maxWeight ==> ListDp.Cell(c, order, k, u, dp[u], selected[u])
    modifies dp, selected
    ensures hit.Some? ==> hit.value <= c.maxWeight && dp[hit.value] >= c.minValue
    ensures hit.Some? ==> ListDp.Cell(c, order, k + 1, hit.value, dp[hit.value], selected[hit.value])
    ensures hit.None? ==> forall u :: 0 <= u <= c.maxWeight ==> ListDp.Cell(c, order, k + 1, u, dp[u], selected[u])
  {
    var x := order[k];
    var wt, v := c.weights[x], c.values[x];
    var w: int := c.maxWeight;
    while w >= wt
      invariant w <= c.maxWeight && (wt <= c.maxWeight ==> wt - 1 <= w)
      invariant forall u :: 0 <= u <= w ==> ListDp.Cell(c, order, k, u, dp[u], selected[u])
      invariant forall u: nat :: w < u <= c.maxWeight ==> ListDp.Cell(c, order, k + 1, u, dp[u], selected[u])
    {
      ListDp.StepCell(c, order, k, w, dp[w], selected[w], dp[w - wt], selected[w - wt]);
      if dp[w - wt] + v > dp[w] {
        dp[w] := dp[w - wt] + v;
        selected[w] := selected[w - wt] + [x];
      }
      if dp[w] >= c.minValue {
        return Some(w);
      }
      w := w - 1;
    }
    forall u | 0 <= u <= w ensures ListDp.Cell(c, order, k + 1, u, dp[u], selected[u]) {
      ListDp.KeepCell(c, order, k, u, dp[u], selected[u]);
    }
    return None;
  }

  /** `solve_challenge` with the early answer fixed: `None` exactly when the
      optimum is below `min_value`; otherwise a feasible selection reaching it. */
  method SolveFixed(c: Challenge, order: seq<nat>) returns (r: Option<seq<nat>>)
    requires WellFormed(c) && IsOrder(c, order)
    ensures r.None? <==> Optimum(c) < c.minValue
    ensures r.Some? ==> Feasible(c, r.value) && Value(c, r.value) >= c.minValue
  {
    var dp := new nat[c.maxWeight + 1](_ => 0);
    var selected := new seq<nat>[c.maxWeight + 1](_ => []);
    assert order[..0] == [];
    OrderReachesOptimum(c, order, c.maxWeight);
    for k := 0 to |order|
      invariant forall u :: 0 <= u <= c.maxWeight ==> ListDp.Cell(c, order, k, u, dp[u], selected[u])
    {
      var hit := RowFixed(c, order, k, dp, selected);
      if hit.Some? {
        var w := hit.value;
        ListDp.CellFeasible(c, order, k + 1, w, dp[w], selected[w]);
        BestOfMonotone(c, order[..k + 1], w, c.maxWeight);
        BestOfPrefixMonotone(c, order, k + 1, c.maxWeight);
        return Some(selected[w]);
      }
    }
    assert order[..|order|] == order;
    if dp[c.maxWeight] >= c.minValue {
      ListDp.CellFeasible(c, order, |order|, c.maxWeight, dp[c.maxWeight], selected[c.maxWeight]);
      r := Some(selected[c.maxWeight]);
    } else {
      r := None;
    }
  }
}
