/** tig-algorithms knapsack/tinhat_pete: the bottom-up table of `KeepTableDp`
    (its `keep` table) over the items in index order; the source keeps the row
    in `u32`. */
module TinhatPete {
  import opened KnapsackSpec
  import KeepTableDp

  /** `None` exactly when the optimum is below `min_value`; otherwise an
      optimal feasible selection, sorted ascending. */
  method Solve(c: Challenge) returns (r: Option<seq<nat>>)
    requires WellFormed(c)
    ensures r.None? <==> Optimum(c) < c.minValue
    ensures r.Some? ==> Feasible(c, r.value) && StrictlyIncreasing(r.value) && Value(c, r.value) == Optimum(c)
  {
    var dp, keep := KeepTableDp.FillTable(c);
    if dp[c.maxWeight] < c.minValue {
      return None;
    }
    var items := KeepTableDp.Reconstruct(c, keep);
    ReverseOfDecreasing(c, items);
    r := Some(Reversed(items));
  }
}
