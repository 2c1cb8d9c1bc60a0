/** The bottom-up knapsack that keeps, next to each best value `dp[w]`, the
    list of items reaching it (`selected[w]`), as sack_o_potatoes and
    optimism_dollop fill it: one pass per item in a given order, capacities
    from the top down, and a cell taken over from `w - weight` plus the item
    whenever that is strictly better. */
module ListDp {
  import opened KnapsackSpec

  /** Index of the first occurrence of `x` in `order`, or `|order|` if absent. */
  function Position(order: seq<nat>, x: nat): (p: nat)
    ensures p <= |order|
    ensures p < |order| ==> order[p] == x
    ensures x in order ==> p < |order|
    ensures forall k :: 0 <= k < p ==> order[k] != x
  {
    if order == [] then 0
    else if order[0] == x then 0
    else 1 + Position(order[1..], x)
  }

  /** `s` lists its items in the order in which `order` lists them. */
  predicate FollowsOrder(s: seq<nat>, order: seq<nat>) {
    forall a, b :: 0 <= a < b < |s| ==> Position(order, s[a]) < Position(order, s[b])
  }

  /** Following index order is being strictly increasing. */
  lemma FollowsRange(s: seq<nat>, n: nat)
    requires FollowsOrder(s, Range(n)) && forall x :: x in s ==> x < n
    ensures StrictlyIncreasing(s)
  {
    forall x: nat | x < n ensures Position(Range(n), x) == x {
      assert Range(n)[x] == x;
    }
  }

  /** What a cell holds once the first `k` items of `order` are processed:
      the best value within `w`, and a list of those items, in `order`'s
      order, that weighs at most `w` and is worth exactly that. */
  predicate Cell(c: Challenge, order: seq<nat>, k: nat, w: nat, best: nat, sel: seq<nat>)
    requires WellFormed(c) && InRange(c, order) && k <= |order|
  {
    best == BestOf(c, order[..k], w) &&
    (forall x :: x in sel ==> x in order[..k]) && InRange(c, sel) && FollowsOrder(sel, order) &&
    Weight(c, sel) <= w && Value(c, sel) == best
  }

  /** A cell's list is a feasible selection when the cell is within capacity. */
  lemma CellFeasible(c: Challenge, order: seq<nat>, k: nat, w: nat, best: nat, sel: seq<nat>)
    requires WellFormed(c) && InRange(c, order) && k <= |order|
    requires Cell(c, order, k, w, best, sel) && w <= c.maxWeight
    ensures Feasible(c, sel)
  {
    forall a, b | 0 <= a < b < |sel| ensures sel[a] != sel[b] {
      assert Position(order, sel[a]) < Position(order, sel[b]);
    }
  }

  /** The items before position `k` of a duplicate-free order sit before it. */
  lemma PositionInPrefix(order: seq<nat>, k: nat, y: nat)
    requires Distinct(order) && k <= |order| && y in order[..k]
    ensures Position(order, y) < k
  {
    var j :| 0 <= j < k && order[..k][j] == y;
  }

  lemma PositionOfEntry(order: seq<nat>, k: nat)
    requires Distinct(order) && k < |order|
    ensures Position(order, order[k]) == k
  {
  }

  lemma AppendFollows(s: seq<nat>, order: seq<nat>, x: nat)
    requires FollowsOrder(s, order)
    requires forall y :: y in s ==> Position(order, y) < Position(order, x)
    ensures FollowsOrder(s + [x], order)
  {
    var t := s + [x];
    forall a, b | 0 <= a < b < |t| ensures Position(order, t[a]) < Position(order, t[b]) {
      if b < |s| {
        assert t[a] == s[a] && t[b] == s[b];
      } else {
        assert t[a] in s;
      }
    }
  }

  /** Taking over the cell at `w - weight` plus item `order[k]`. */
  lemma TakeCell(c: Challenge, order: seq<nat>, k: nat, w: nat, from: nat, fromSel: seq<nat>)
    requires WellFormed(c) && InRange(c, order) && Distinct(order) && k < |order|
    requires c.weights[order[k]] <= w
    requires Cell(c, order, k, w - c.weights[order[k]], from, fromSel)
    requires from + c.values[order[k]] >= BestOf(c, order[..k], w)
    ensures Cell(c, order, k + 1, w, from + c.values[order[k]], fromSel + [order[k]])
  {
    var x := order[k];
    BestOfStep(c, order, k, w);
    assert from + c.values[x] == BestOf(c, order[..k + 1], w);
    TakeList(c, order, k, fromSel);
    AppendItem(c, fromSel, x);
  }

  /** The list side of `TakeCell`: appending `order[k]` to a list of earlier
      items keeps it in order and within the first `k + 1` items. */
  lemma TakeList(c: Challenge, order: seq<nat>, k: nat, sel: seq<nat>)
    requires WellFormed(c) && InRange(c, order) && Distinct(order) && k < |order|
    requires (forall y :: y in sel ==> y in order[..k]) && FollowsOrder(sel, order)
    ensures (forall y :: y in sel + [order[k]] ==> y in order[..k + 1]) && FollowsOrder(sel + [order[k]], order)
  {
    var x := order[k];
    PositionOfEntry(order, k);
    forall y | y in sel ensures Position(order, y) < k {
      PositionInPrefix(order, k, y);
    }
    AppendFollows(sel, order, x);
    forall y | y in sel + [x] ensures y in order[..k + 1] {
      if y != x {
        assert y in sel && y in order[..k];
      }
    }
  }

  /** Keeping a cell through the pass of an item that does not beat it. */
  lemma KeepCell(c: Challenge, order: seq<nat>, k: nat, w: nat, best: nat, sel: seq<nat>)
    requires WellFormed(c) && InRange(c, order) && k < |order|
    requires Cell(c, order, k, w, best, sel)
    requires c.weights[order[k]] > w ||
      c.values[order[k]] + BestOf(c, order[..k], w - c.weights[order[k]]) <= best
    ensures Cell(c, order, k + 1, w, best, sel)
  {
    BestOfStep(c, order, k, w);
    assert forall y :: y in order[..k] ==> y in order[..k + 1];
  }

  /** One cell of the pass for item `order[k]` at capacity `w >= weight`:
      taking over `w - weight` plus the item when that is strictly better,
      keeping the cell otherwise, yields the cell for the first `k + 1` items. */
  lemma StepCell(c: Challenge, order: seq<nat>, k: nat, w: nat, best: nat, sel: seq<nat>, from: nat, fromSel: seq<nat>)
    requires WellFormed(c) && InRange(c, order) && Distinct(order) && k < |order|
    requires c.weights[order[k]] <= w
    requires Cell(c, order, k, w, best, sel) && Cell(c, order, k, w - c.weights[order[k]], from, fromSel)
    ensures from + c.values[order[k]] > best ==>
      Cell(c, order, k + 1, w, from + c.values[order[k]], fromSel + [order[k]])
    ensures from + c.values[order[k]] <= best ==> Cell(c, order, k + 1, w, best, sel)
  {
    if from + c.values[order[k]] > best {
      TakeCell(c, order, k, w, from, fromSel);
    } else {
      KeepCell(c, order, k, w, best, sel);
    }
  }

  /** The pass for item `order[k]`: `for w in (weight..=max_weight).rev()`. */
  method StepLists(c: Challenge, order: seq<nat>, k: nat, dp: array<nat>, selected: array<seq<nat>>)
    requires WellFormed(c) && InRange(c, order) && Distinct(order) && k < |order|
    requires dp.Length == c.maxWeight + 1 && selected.Length == c.maxWeight + 1
    requires forall u :: 0 <= u <= c.maxWeight ==> Cell(c, order, k, u, dp[u], selected[u])
    modifies dp, selected
    ensures forall u :: 0 <= u <= c.maxWeight ==> Cell(c, order, k + 1, u, dp[u], selected[u])
  {
    var x := order[k];
    var wt, v := c.weights[x], c.values[x];
    var w: int := c.maxWeight;
    while w >= wt
      invariant w <= c.maxWeight && (wt <= c.maxWeight ==> wt - 1 <= w)
      invariant forall u :: 0 <= u <= w ==> Cell(c, order, k, u, dp[u], selected[u])
      invariant forall u: nat :: w < u <= c.maxWeight ==> Cell(c, order, k + 1, u, dp[u], selected[u])
    {
      StepCell(c, order, k, w, dp[w], selected[w], dp[w - wt], selected[w - wt]);
      var take := dp[w - wt] + v;
      if take > dp[w] {
        dp[w] := take;
        selected[w] := selected[w - wt] + [x];
      }
      w := w - 1;
    }
    forall u | 0 <= u <= w ensures Cell(c, order, k + 1, u, dp[u], selected[u]) {
      KeepCell(c, order, k, u, dp[u], selected[u]);
    }
  }

  /** The whole table: every cell holds the optimum over all listed items
      within its capacity, and a list reaching it. */
  method FillLists(c: Challenge, order: seq<nat>) returns (dp: array<nat>, selected: array<seq<nat>>)
    requires WellFormed(c) && InRange(c, order) && Distinct(order)
    ensures fresh(dp) && fresh(selected)
    ensures dp.Length == c.maxWeight + 1 && selected.Length == c.maxWeight + 1
    ensures forall u :: 0 <= u <= c.maxWeight ==> Cell(c, order, |order|, u, dp[u], selected[u])
  {
    dp := new nat[c.maxWeight + 1](_ => 0);
    selected := new seq<nat>[c.maxWeight + 1](_ => []);
    assert order[..0] == [];
    for k := 0 to |order|
      invariant forall u :: 0 <= u <= c.maxWeight ==> Cell(c, order, k, u, dp[u], selected[u])
    {
      StepLists(c, order, k, dp, selected);
    }
  }
}
