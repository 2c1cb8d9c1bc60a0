/** tig-algorithms knapsack/better_knapp: a top-down knapsack memoised in a
    hash map keyed by (number of items, capacity), followed by a walk back
    over the memo from the last item to the first.

    The walk as written consults the memo at `(i, remaining_weight)`, the
    entry that already includes item `i - 1`, where the recurrence needs
    `(i - 1, remaining_weight)`; `ReconstructAsWritten` models it and
    `AsWrittenReturnsWorseSelection` exhibits an input on which the answer
    is worth less than `min_value`.  `ReconstructFixed` asks the question
    the recurrence asks and is proved to return an optimal selection. */
module BetterKnapp {
  import opened KnapsackSpec

  /** The memo: `(n, w)` maps to the best value of items 0..n-1 within `w`. */
  type Memo = map<(nat, nat), nat>

  predicate MemoSound(c: Challenge, memo: Memo)
    requires WellFormed(c)
  {
    forall key :: key in memo ==> key.0 <= NumItems(c) && memo[key] == Best(c, key.0, key.1)
  }

  /** `knapsack(weights, values, w, n, memo)`: every answer, memoised or not,
      is the optimum over the first `n` items within `w`; the memo only grows,
      stays sound, and holds the entry for `(n, w)` unless a base case answered. */
  method Knapsack(c: Challenge, w: nat, n: nat, memo: Memo) returns (result: nat, memo': Memo)
    requires WellFormed(c) && n <= NumItems(c) && MemoSound(c, memo)
    ensures result == Best(c, n, w)
    ensures n == 0 || w == 0 ==> result == 0
    ensures MemoSound(c, memo') && memo.Keys <= memo'.Keys
    ensures n > 0 && w > 0 ==> (n, w) in memo'
    decreases n
  {
    if n == 0 || w == 0 {
      BestZeroCapacity(c, n);
      return 0, memo;
    }
    if (n, w) in memo {
      return memo[(n, w)], memo;
    }
    if c.weights[n - 1] > w {
      result, memo' := Knapsack(c, w, n - 1, memo);
    } else {
      var rest, m1 := Knapsack(c, w - c.weights[n - 1], n - 1, memo);
      var included := c.values[n - 1] + rest;
      var excluded, m2 := Knapsack(c, w, n - 1, m1);
      result, memo' := Max(included, excluded), m2;
    }
    memo' := memo'[(n, w) := result];
  }

  /** Nothing fits in capacity 0. */
  lemma {:induction false} BestZeroCapacity(c: Challenge, n: nat)
    requires WellFormed(c) && n <= NumItems(c)
    ensures Best(c, n, 0) == 0
    decreases n
  {
    if n > 0 {
      BestZeroCapacity(c, n - 1);
    }
  }

  // ---------------------------------------------------------------------------
  // The walk back as written.

  /** The walk from item `i` down: stop once the remaining weight is 0;
      skip item `i - 1` when the memo holds `total` at `(i, remaining)`;
      otherwise take it.  A remaining weight that went below zero is never a
      memo key.  Yields (items, remaining weight, remaining total). */
  function Walk(c: Challenge, memo: Memo, i: nat, remaining: int, total: int, items: seq<nat>): (seq<nat>, int, int)
    requires WellFormed(c) && i <= NumItems(c)
    decreases i
  {
    if i == 0 || remaining == 0 then (items, remaining, total)
    else if remaining >= 0 && (i, remaining as nat) in memo && memo[(i, remaining as nat)] == total then
      Walk(c, memo, i - 1, remaining, total, items)
    else
      Walk(c, memo, i - 1, remaining - c.weights[i - 1], total - c.values[i - 1], items + [i - 1])
  }

  /** The bookkeeping of the walk: each item below `i` at most once, in
      decreasing order, and weight and value subtracted exactly for the items taken. */
  lemma {:induction false} WalkAccounts(c: Challenge, memo: Memo, i: nat, remaining: int, total: int, items: seq<nat>)
    requires WellFormed(c) && i <= NumItems(c)
    requires InRange(c, items) && StrictlyDecreasing(items) && forall k :: 0 <= k < |items| ==> i <= items[k]
    ensures var (out, rw, tv) := Walk(c, memo, i, remaining, total, items);
      InRange(c, out) && StrictlyDecreasing(out) && items <= out &&
      Weight(c, out) + rw == Weight(c, items) + remaining &&
      Value(c, out) + tv == Value(c, items) + total
    decreases i
  {
    if i == 0 || remaining == 0 {
    } else if remaining >= 0 && (i, remaining as nat) in memo && memo[(i, remaining as nat)] == total {
      WalkAccounts(c, memo, i - 1, remaining, total, items);
    } else {
      AppendItem(c, items, i - 1);
      AppendSmaller(items, i - 1);
      WalkAccounts(c, memo, i - 1, remaining - c.weights[i - 1], total - c.values[i - 1], items + [i - 1]);
    }
  }

  /** The `for i in (1..=num_items).rev()` loop over the memo, with the
      remaining weight and total kept as signed integers. */
  method ReconstructAsWritten(c: Challenge, maxValue: nat, memo: Memo) returns (items: seq<nat>, remaining: int, total: int)
    requires WellFormed(c)
    ensures (items, remaining, total) == Walk(c, memo, NumItems(c), c.maxWeight, maxValue, [])
    ensures InRange(c, items) && StrictlyDecreasing(items)
    ensures Weight(c, items) + remaining == c.maxWeight && Value(c, items) + total == maxValue
  {
    items, remaining, total := [], c.maxWeight, maxValue;
    var i := NumItems(c);
    while i >= 1
      invariant 0 <= i <= NumItems(c)
      invariant Walk(c, memo, i, remaining, total, items) == Walk(c, memo, NumItems(c), c.maxWeight, maxValue, [])
      decreases i
    {
      if remaining == 0 {
        break;
      }
      if remaining >= 0 && (i, remaining as nat) in memo && memo[(i, remaining as nat)] == total {
        i := i - 1;
        continue;
      }
      items := items + [i - 1];
      remaining := remaining - c.weights[i - 1];
      total := total - c.values[i - 1];
      i := i - 1;
    }
    WalkAccounts(c, memo, NumItems(c), c.maxWeight, maxValue, []);
  }

  /** What `Solve` hands back once the optimum clears `min_value`: the walk's
      items when its remaining total still does. */
  function Finish(c: Challenge, walked: (seq<nat>, int, int)): Option<seq<nat>> {
    if walked.2 >= c.minValue then Some(walked.0) else None
  }

  /** `solve_challenge` as written: `None` below `min_value`; otherwise the
      walk over the memo the top-level call left, which is sound and holds the
      top-level entry. */
  method Solve(c: Challenge) returns (r: Option<seq<nat>>)
    requires WellFormed(c)
    ensures Optimum(c) < c.minValue ==> r == None
    ensures Optimum(c) >= c.minValue ==>
      exists memo: Memo :: MemoSound(c, memo) &&
        (NumItems(c) > 0 && c.maxWeight > 0 ==> (NumItems(c), c.maxWeight) in memo) &&
        r == Finish(c, Walk(c, memo, NumItems(c), c.maxWeight, Optimum(c), []))
    ensures r.Some? ==> InRange(c, r.value) && Distinct(r.value)
  {
    var maxValue, memo := Knapsack(c, c.maxWeight, NumItems(c), map[]);
    BestIsBestOf(c, NumItems(c), c.maxWeight);
    if maxValue < c.minValue {
      return None;
    }
    var items, remaining, total := ReconstructAsWritten(c, maxValue, memo);
    if total >= c.minValue {
      r := Some(items);
    } else {
      r := None;
    }
  }

  /** The instance on which the walk as written goes wrong: two unit-weight
      items worth 1 and 10, capacity 1, threshold 5. */
  function Sample(): (c: Challenge)
    ensures WellFormed(c) && NumItems(c) == 2
  {
    Challenge([1, 1], [1, 10], 1, 5)
  }

  /** On `Sample()` the optimum is 10 (item 1), but the walk finds 10 at
      `(2, 1)`, skips item 1, then takes item 0: it returns `[0]`, worth 1,
      although 1 is below `min_value`, since the remaining total is 9. */
  lemma AsWrittenReturnsWorseSelection(memo: Memo)
    requires MemoSound(Sample(), memo) && (2, 1) in memo
    ensures Optimum(Sample()) == 10 >= Sample().minValue
    ensures Walk(Sample(), memo, 2, 1, 10, []) == ([0], 0, 9)
    ensures Finish(Sample(), Walk(Sample(), memo, 2, 1, 10, [])) == Some([0])
    ensures Value(Sample(), [0]) == 1 < Sample().minValue
  {
    var c := Sample();
    BestIsBestOf(c, 2, 1);
    assert Best(c, 1, 1) == 1;
    assert Best(c, 2, 1) == 10;
    assert Walk(c, memo, 2, 1, 10, []) == Walk(c, memo, 1, 1, 10, []);
    assert (1, 1) in memo ==> memo[(1, 1)] == 1;
    assert [] + [0] == [0];
    assert Walk(c, memo, 1, 1, 10, []) == Walk(c, memo, 0, 0, 9, [0]);
    assert [0][..0] == [];
  }

  /** Every run of `Solve` on `Sample()` answers `Some([0])`, a selection
      worth less than `min_value`. */
  method SolveSample() returns (r: Option<seq<nat>>)
    ensures r == Some([0]) && Value(Sample(), r.value) < Sample().minValue
  {
    r := Solve(Sample());
    assert Optimum(Sample()) == 10 by {
      var m: Memo := map[(2, 1) := 10];
      AsWrittenReturnsWorseSelection(m);
    }
    var memo: Memo :| MemoSound(Sample(), memo) && (2, 1) in memo &&
      r == Finish(Sample(), Walk(Sample(), memo, 2, 1, 10, []));
    AsWrittenReturnsWorseSelection(memo);
  }

  // ---------------------------------------------------------------------------
  // The walk back the recurrence calls for.

  /** The walk asking at each item whether the first `i - 1` items alone
      already reach the remaining total — through the memo, or by recursing
      when the entry is absent.  Returns an optimal selection. */
  method ReconstructFixed(c: Challenge, maxValue: nat, memo: Memo) returns (items: seq<nat>, memo': Memo)
    requires WellFormed(c) && MemoSound(c, memo)
    requires maxValue == Optimum(c)
    ensures InRange(c, items) && StrictlyDecreasing(items)
    ensures Weight(c, items) <= c.maxWeight && Value(c, items) == Optimum(c)
    ensures MemoSound(c, memo')
  {
    var n := NumItems(c);
    BestIsBestOf(c, n, c.maxWeight);
    items, memo' := [], memo;
    var remaining: nat, total: nat := c.maxWeight, maxValue;
    var i := n;
    while i >= 1
      invariant 0 <= i <= n
      invariant InRange(c, items) && StrictlyDecreasing(items)
      invariant items == [] || items[|items| - 1] >= i
      invariant total == Best(c, i, remaining)
      invariant Weight(c, items) + remaining == c.maxWeight && Value(c, items) + total == maxValue
      invariant MemoSound(c, memo')
      decreases i
    {
      if remaining == 0 {
        BestZeroCapacity(c, i);
        break;
      }
      var without;
      without, memo' := Knapsack(c, remaining, i - 1, memo');
      if without != total {
        assert c.weights[i - 1] <= remaining && total == c.values[i - 1] + Best(c, i - 1, remaining - c.weights[i - 1]);
        assert InRange(c, items + [i - 1]) && StrictlyDecreasing(items + [i - 1]) &&
          Weight(c, items + [i - 1]) == Weight(c, items) + c.weights[i - 1] &&
          Value(c, items + [i - 1]) == Value(c, items) + c.values[i - 1] by {
          AppendItem(c, items, i - 1);
          AppendBelow(items, i - 1);
        }
        items := items + [i - 1];
        remaining := remaining - c.weights[i - 1];
        total := total - c.values[i - 1];
      }
      i := i - 1;
    }
  }

  /** `solve_challenge` with the walk fixed: `None` exactly below `min_value`,
      otherwise an optimal feasible selection. */
  method SolveFixed(c: Challenge) returns (r: Option<seq<nat>>)
    requires WellFormed(c)
    ensures r.None? <==> Optimum(c) < c.minValue
    ensures r.Some? ==> Feasible(c, r.value) && Value(c, r.value) == Optimum(c)
  {
    var maxValue, memo := Knapsack(c, c.maxWeight, NumItems(c), map[]);
    BestIsBestOf(c, NumItems(c), c.maxWeight);
    if maxValue < c.minValue {
      return None;
    }
    var items, memo' := ReconstructFixed(c, maxValue, memo);
    r := Some(items);
  }
}
