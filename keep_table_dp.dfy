/** The bottom-up 0/1 knapsack shared by ironhat_pete and tinhat_pete: a
    single row `dp[0..=max_weight]` rewritten once per item from the top
    capacity down, an item-by-capacity table recording where the item strictly
    improved the row, and a walk back over that table from the last item to the
    first. */
module KeepTableDp {
  import opened KnapsackSpec

  /** Runs the item loop.  Afterwards `dp[w]` is the optimum over all items within
      capacity `w`, and `keep[i, w]` holds exactly where item `i` improved `dp[w]`. */
  method FillTable(c: Challenge) returns (dp: array<nat>, keep: array2<bool>)
    requires WellFormed(c)
    ensures fresh(dp) && fresh(keep)
    ensures dp.Length == c.maxWeight + 1
    ensures keep.Length0 == NumItems(c) && keep.Length1 == c.maxWeight + 1
    ensures forall w :: 0 <= w <= c.maxWeight ==> dp[w] == BestOf(c, Range(NumItems(c)), w)
    ensures forall i, w :: 0 <= i < NumItems(c) && 0 <= w <= c.maxWeight ==> keep[i, w] == Improves(c, Range(i), i, w)
  {
    var n, W := NumItems(c), c.maxWeight;
    dp := new nat[W + 1](_ => 0);
    keep := new bool[n, W + 1]((_, _) => false);
    forall w | 0 <= w <= W ensures BestOf(c, Range(0), w) == 0 {
      assert Range(0) == [];
    }
    for i := 0 to n
      invariant forall w :: 0 <= w <= W ==> dp[w] == BestOf(c, Range(i), w)
      invariant forall k, w :: 0 <= k < n && 0 <= w <= W ==> keep[k, w] == (k < i && Improves(c, Range(k), k, w))
    {
      StepRow(c, i, dp, keep);
    }
  }

  /** One pass of the item loop: rewrites `dp` from `max_weight` down to the
      item's weight, moving every cell from the optimum over items 0..i-1 to the
      optimum over items 0..i, and marks row `i` of `keep` where it improved. */
  method StepRow(c: Challenge, i: nat, dp: array<nat>, keep: array2<bool>)
    requires WellFormed(c) && i < NumItems(c)
    requires dp.Length == c.maxWeight + 1
    requires keep.Length0 == NumItems(c) && keep.Length1 == c.maxWeight + 1
    requires forall w :: 0 <= w <= c.maxWeight ==> dp[w] == BestOf(c, Range(i), w)
    requires forall k, w :: 0 <= k < NumItems(c) && 0 <= w <= c.maxWeight ==> keep[k, w] == (k < i && Improves(c, Range(k), k, w))
    modifies dp, keep
    ensures forall w :: 0 <= w <= c.maxWeight ==> dp[w] == BestOf(c, Range(i + 1), w)
    ensures forall k, w :: 0 <= k < NumItems(c) && 0 <= w <= c.maxWeight ==> keep[k, w] == (k < i + 1 && Improves(c, Range(k), k, w))
  {
    var n, W := NumItems(c), c.maxWeight;
    var wt, v := c.weights[i], c.values[i];
    BestOfRangeStep(c, i, 0);
    var w: int := W;
    while w >= wt
      invariant w <= W && (wt <= W ==> wt - 1 <= w)
      invariant forall u :: 0 <= u <= W && u <= w ==> dp[u] == BestOf(c, Range(i), u)
      invariant forall u :: 0 <= u <= W && u > w ==> dp[u] == BestOf(c, Range(i + 1), u)
      invariant forall k, u :: 0 <= k < n && k != i && 0 <= u <= W ==> keep[k, u] == old(keep[k, u])
      invariant forall u :: 0 <= u <= W ==> keep[i, u] == (u > w && Improves(c, Range(i), i, u))
    {
      BestOfRangeStep(c, i, w);
      if dp[w - wt] + v > dp[w] {
        dp[w] := dp[w - wt] + v;
        keep[i, w] := true;
      }
      w := w - 1;
    }
    forall u | 0 <= u <= W && u <= w {
      BestOfRangeStep(c, i, u);
    }
  }

  /** Walks the items from last to first, taking item `i` where `keep[i, w]` is
      set and lowering `w` by its weight.  The items it takes fit the capacity,
      are worth exactly the optimum, and come out in strictly decreasing order. */
  method Reconstruct(c: Challenge, keep: array2<bool>) returns (items: seq<nat>)
    requires WellFormed(c)
    requires keep.Length0 == NumItems(c) && keep.Length1 == c.maxWeight + 1
    requires forall i, w :: 0 <= i < NumItems(c) && 0 <= w <= c.maxWeight ==> keep[i, w] == Improves(c, Range(i), i, w)
    ensures InRange(c, items) && StrictlyDecreasing(items)
    ensures Weight(c, items) <= c.maxWeight
    ensures Value(c, items) == Optimum(c)
  {
    var n, W := NumItems(c), c.maxWeight;
    items := [];
    var w: nat := W;
    var i := n;
    while i > 0
      invariant 0 <= i <= n && w <= W
      invariant InRange(c, items) && StrictlyDecreasing(items)
      invariant forall k :: 0 <= k < |items| ==> i <= items[k]
      invariant Weight(c, items) + w == W
      invariant Value(c, items) + BestOf(c, Range(i), w) == BestOf(c, Range(n), W)
    {
      i := i - 1;
      TakeOrSkipRange(c, i, w);
      if keep[i, w] {
        AppendItem(c, items, i);
        AppendSmaller(items, i);
        items := items + [i];
        w := w - c.weights[i];
      }
    }
    assert Range(0) == [];
  }
}
