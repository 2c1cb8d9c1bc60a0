/** tig-algorithms knapsack/sack_o_potatoes: a greedy fractional pre-check
    over the items in ratio order, then the list-keeping table of `ListDp`
    over the same order.  The ratio sort is the `order` argument, any
    arrangement of the items. */
module SackOPotatoes {
  import opened KnapsackSpec
  import ListDp

  /** `is_solution_possible`: whole items in order while they fit, then the
      floored fraction of the first that does not, compared with
      `min_value`; it answers `true` early once the whole items alone reach it. */
  method IsSolutionPossible(c: Challenge, order: seq<nat>) returns (possible: bool)
    requires WellFormed(c) && InRange(c, order)
    ensures possible <==> FractionalBound(c, order, 0, c.maxWeight) >= c.minValue
  {
    var remaining: nat := c.maxWeight;
    var total: nat := 0;
    var i := 0;
    while i < |order|
      invariant i <= |order|
      invariant FractionalBound(c, order, 0, c.maxWeight) == total + FractionalBound(c, order, i, remaining)
    {
      var x := order[i];
      if c.weights[x] <= remaining {
        total := total + c.values[x];
        remaining := remaining - c.weights[x];
      } else {
        var fraction := Fraction(c.values[x], remaining, c.weights[x]);
        return total + fraction >= c.minValue;
      }
      if total >= c.minValue {
        return true;
      }
      i := i + 1;
    }
    return total >= c.minValue;
  }

  /** `solve_challenge`: `None` when the pre-check fails or the optimum is
      below `min_value`; otherwise the list kept for the full capacity, which
      is feasible and optimal whatever the order. */
  method Solve(c: Challenge, order: seq<nat>) returns (r: Option<seq<nat>>)
    requires WellFormed(c) && IsOrder(c, order)
    ensures r.None? <==> FractionalBound(c, order, 0, c.maxWeight) < c.minValue || Optimum(c) < c.minValue
    ensures r.Some? ==> Feasible(c, r.value) && Value(c, r.value) == Optimum(c)
  {
    var possible := IsSolutionPossible(c, order);
    if !possible {
      return None;
    }
    var dp, selected := ListDp.FillLists(c, order);
    assert order[..|order|] == order;
    OrderReachesOptimum(c, order, c.maxWeight);
    if dp[c.maxWeight] >= c.minValue {
      ListDp.CellFeasible(c, order, |order|, c.maxWeight, dp[c.maxWeight], selected[c.maxWeight]);
      r := Some(selected[c.maxWeight]);
    } else {
      r := None;
    }
  }
}
