/** tig-algorithms knapsack/optimism_dollop: a greedy pass over the items in
    ratio order that records two optimistic limits, a `None` when the
    estimate drawn from them is below `min_value`, and otherwise the
    list-keeping table of `ListDp` over the items in index order.

    Each limit is the float `greedy_value + remaining * value / weight` of
    one item; the model keeps the three numbers it is made of (`LimitAt`), and
    the blend `ceil(0.62 * limit1 + 0.38 * limit2)` is the `estimate` argument. */
module OptimismDollop {
  import opened KnapsackSpec
  import ListDp

  /** A limit as recorded: unset (0.0), or the greedy value, the remaining
      room and the item whose ratio extends it. */
  datatype Limit = NoLimit | LimitAt(base: nat, room: nat, item: nat)

  /** The greedy pass's variables, with the items it took. */
  datatype Scan = Scan(greedyValue: nat, remaining: nat, limit1: Limit, limit1Open: bool,
                       limit2: Limit, limit2Flag: nat, taken: seq<nat>)

  /** The greedy pass from position `i` of `order` on.  An item that fits is
      taken and clears `limit2_flag`.  The first misfit after position 0 records
      `limit1` from the item before it; every other misfit bumps the `u8`
      flag, which wraps at 256, and records `limit2` from itself when the flag is 1. */
  function ScanFrom(c: Challenge, order: seq<nat>, i: nat, s: Scan): Scan
    requires WellFormed(c) && InRange(c, order) && i <= |order|
    decreases |order| - i
  {
    if i == |order| then s
    else
      var x := order[i];
      if c.weights[x] > s.remaining then
        if s.limit1Open && i > 0 then
          ScanFrom(c, order, i + 1, s.(limit1 := LimitAt(s.greedyValue, s.remaining, order[i - 1]), limit1Open := false))
        else
          var flag := (s.limit2Flag + 1) % 256;
          ScanFrom(c, order, i + 1, s.(limit2Flag := flag,
            limit2 := if flag == 1 then LimitAt(s.greedyValue, s.remaining, x) else s.limit2))
      else
        ScanFrom(c, order, i + 1, s.(limit2Flag := 0, greedyValue := s.greedyValue + c.values[x],
          remaining := s.remaining - c.weights[x], taken := s.taken + [x]))
  }

  function GreedyScan(c: Challenge, order: seq<nat>): Scan
    requires WellFormed(c) && InRange(c, order)
  {
    ScanFrom(c, order, 0, Scan(0, c.maxWeight, NoLimit, true, NoLimit, 0, []))
  }

  /** The pass keeps its books: `greedy_value` is the value of the items
      taken, `remaining` is the capacity they leave, so it never goes below
      zero, and no item is taken twice. */
  lemma {:induction false} ScanAccounts(c: Challenge, order: seq<nat>, i: nat, s: Scan)
    requires WellFormed(c) && InRange(c, order) && Distinct(order) && i <= |order|
    requires InRange(c, s.taken) && Distinct(s.taken) && (forall x :: x in s.taken ==> x in order[..i])
    requires s.greedyValue == Value(c, s.taken) && s.remaining + Weight(c, s.taken) == c.maxWeight
    ensures var t := ScanFrom(c, order, i, s);
      InRange(c, t.taken) && Distinct(t.taken) && (forall x :: x in t.taken ==> x in order) &&
      t.greedyValue == Value(c, t.taken) && t.remaining + Weight(c, t.taken) == c.maxWeight
    decreases |order| - i
  {
    if i == |order| {
      assert order[..i] == order;
    } else {
      var x := order[i];
      PrefixGrows(order, i, s.taken);
      if c.weights[x] > s.remaining {
        if s.limit1Open && i > 0 {
          ScanAccounts(c, order, i + 1, s.(limit1 := LimitAt(s.greedyValue, s.remaining, order[i - 1]), limit1Open := false));
        } else {
          var flag := (s.limit2Flag + 1) % 256;
          ScanAccounts(c, order, i + 1, s.(limit2Flag := flag,
            limit2 := if flag == 1 then LimitAt(s.greedyValue, s.remaining, x) else s.limit2));
        }
      } else {
        AppendItem(c, s.taken, x);
        TakeNext(order, i, s.taken);
        ScanAccounts(c, order, i + 1, s.(limit2Flag := 0, greedyValue := s.greedyValue + c.values[x],
          remaining := s.remaining - c.weights[x], taken := s.taken + [x]));
      }
    }
  }

  lemma PrefixGrows(order: seq<nat>, i: nat, taken: seq<nat>)
    requires i < |order| && forall x :: x in taken ==> x in order[..i]
    ensures forall x :: x in taken ==> x in order[..i + 1]
  {
    assert forall y :: y in order[..i] ==> y in order[..i + 1];
  }

  /** Appending the item at position `i` to items from before it keeps them distinct. */
  lemma TakeNext(order: seq<nat>, i: nat, taken: seq<nat>)
    requires Distinct(order) && i < |order|
    requires Distinct(taken) && forall x :: x in taken ==> x in order[..i]
    ensures Distinct(taken + [order[i]]) && forall x :: x in taken + [order[i]] ==> x in order[..i + 1]
  {
    var x := order[i];
    assert x !in order[..i];
    var t := taken + [x];
    forall a, b | 0 <= a < b < |t| ensures t[a] != t[b] {
      if b == |taken| {
        assert t[a] in taken;
      }
    }
    PrefixGrows(order, i, taken);
  }

  /** The greedy loop of `solve_challenge`: its variables end as `GreedyScan` says. */
  method GreedyLimits(c: Challenge, order: seq<nat>) returns (greedyValue: nat, remaining: nat, limit1: Limit, limit2: Limit)
    requires WellFormed(c) && InRange(c, order) && Distinct(order)
    ensures var s := GreedyScan(c, order);
      greedyValue == s.greedyValue && remaining == s.remaining && limit1 == s.limit1 && limit2 == s.limit2
    ensures remaining <= c.maxWeight
  {
    greedyValue, remaining := 0, c.maxWeight;
    limit1, limit2 := NoLimit, NoLimit;
    var limit1Open, limit2Flag: nat := true, 0;
    ghost var taken: seq<nat> := [];
    for i := 0 to |order|
      invariant ScanFrom(c, order, i, Scan(greedyValue, remaining, limit1, limit1Open, limit2, limit2Flag, taken)) == GreedyScan(c, order)
    {
      var item := order[i];
      if c.weights[item] > remaining {
        if limit1Open && i > 0 {
          limit1 := LimitAt(greedyValue, remaining, order[i - 1]);
          limit1Open := false;
          continue;
        }
        limit2Flag := (limit2Flag + 1) % 256;
        if limit2Flag == 1 {
          limit2 := LimitAt(greedyValue, remaining, item);
        }
        continue;
      }
      limit2Flag := 0;
      greedyValue := greedyValue + c.values[item];
      remaining := remaining - c.weights[item];
      taken := taken + [item];
    }
    assert order[..0] == [];
    ScanAccounts(c, order, 0, Scan(0, c.maxWeight, NoLimit, true, NoLimit, 0, []));
  }

  /** `solve_challenge`: `None` when the estimate from the two limits is below
      `min_value` (without running the table) or the optimum is; otherwise
      the list kept for the full capacity, feasible, optimal and ascending. */
  method Solve(c: Challenge, order: seq<nat>, estimate: (Limit, Limit) -> nat) returns (r: Option<seq<nat>>)
    requires WellFormed(c) && IsOrder(c, order)
    ensures var s := GreedyScan(c, order);
      r.None? <==> estimate(s.limit1, s.limit2) < c.minValue || Optimum(c) < c.minValue
    ensures r.Some? ==> Feasible(c, r.value) && StrictlyIncreasing(r.value) && Value(c, r.value) == Optimum(c)
  {
    var greedyValue, remaining, limit1, limit2 := GreedyLimits(c, order);
    if estimate(limit1, limit2) < c.minValue {
      return None;
    }
    var n := NumItems(c);
    var dp, selected := ListDp.FillLists(c, Range(n));
    assert Range(n)[..n] == Range(n);
    if dp[c.maxWeight] >= c.minValue {
      var items := selected[c.maxWeight];
      ListDp.CellFeasible(c, Range(n), n, c.maxWeight, dp[c.maxWeight], items);
      ListDp.FollowsRange(items, n);
      r := Some(items);
    } else {
      r := None;
    }
  }
}
