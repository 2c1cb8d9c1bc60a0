/** tig-algorithms knapsack/ironhat_pete: the bottom-up table of `KeepTableDp`
    over the items in index order.  The ratio sort and the greedy upper bound
    the source computes before the table only feed its debug log and do not
    reach the result, so they are not modelled. */
module IronhatPete {
  import opened KnapsackSpec
  import KeepTableDp

  /** `None` exactly when the optimum is below `min_value`; otherwise an
      optimal feasible selection, sorted ascending. */
  method Solve(c: Challenge) returns (r: Option<seq<nat>>)
    requires WellFormed(c)
    ensures r.None? <==> Optimum(c) < c.minValue
    ensures r.Some? ==> Feasible(c, r.value) && StrictlyIncreasing(r.value) && Value(c, r.value) == Optimum(c)
  {
    var dp, itemIncluded := KeepTableDp.FillTable(c);
    var optimalValue := dp[c.maxWeight];
    if optimalValue < c.minValue {
      return None;
    }
    var items := KeepTableDp.Reconstruct(c, itemIncluded);
    // `items.sort()` on a list built in strictly decreasing order
    ReverseOfDecreasing(c, items);
    r := Some(Reversed(items));
  }
}
