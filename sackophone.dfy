/** tig-algorithms knapsack/sackophone: one pass per item in ratio order
    that both extends a greedy fractional bound (answering `None` at the first
    misfit if the bound falls short of `min_value`) and updates the best-value
    row, recording in a packed table of 64-bit words the (position, capacity)
    cells the item strictly improved; the passes stop once the full capacity
    reaches `min_value`, and a walk back over the recorded bits picks the items. */
module Sackophone {
  import opened KnapsackSpec

  // ---------------------------------------------------------------------------
  // The packed table.

  /** Bit `idx` of a table of 64-bit words. */
  function Bit(words: seq<bv64>, idx: nat): bool
    requires idx / 64 < |words|
  {
    words[idx / 64] & (1 << (idx % 64)) != 0
  }

  lemma OrBit(a: bv64, p: nat, q: nat)
    requires p < 64 && q < 64
    ensures ((a | (1 << p)) & (1 << q) != 0) == (p == q || a & (1 << q) != 0)
  {
  }

  /** `selected[idx / 64] |= 1 << (idx % 64)` sets bit `idx` and no other. */
  lemma SetBit(words: seq<bv64>, idx: nat, j: nat)
    requires idx / 64 < |words| && j / 64 < |words|
    ensures Bit(words[idx / 64 := words[idx / 64] | (1 << (idx % 64))], j) == (j == idx || Bit(words, j))
  {
    if j / 64 == idx / 64 {
      OrBit(words[idx / 64], idx % 64, j % 64);
    }
  }

  /** The packed index `i * (max_weight + 1) + w` of sorted position `i` at
      capacity `w`. */
  function Slot(W: nat, i: nat, w: nat): nat {
    i * (W + 1) + w
  }

  /** `(num_items * (max_weight + 1) + 63) / 64` words. */
  function TableWords(n: nat, W: nat): nat {
    (Slot(W, n, 0) + 63) / 64
  }

  /** Every cell of an earlier position has a smaller packed index. */
  lemma SlotBelow(W: nat, i: nat, u: nat, k: nat, w: nat)
    requires i < k && u <= W
    ensures Slot(W, i, u) < Slot(W, k, w)
  {
    MulMonotone(i + 1, k, W + 1);
    assert (i + 1) * (W + 1) == i * (W + 1) + (W + 1);
  }

  lemma MulMonotone(a: nat, b: nat, m: nat)
    requires a <= b
    ensures a * m <= b * m
  {
    assert b * m == a * m + (b - a) * m;
  }

  /** Distinct cells have distinct packed indices. */
  lemma SlotInjective(W: nat, i: nat, u: nat, k: nat, w: nat)
    requires u <= W && w <= W && Slot(W, i, u) == Slot(W, k, w)
    ensures i == k && u == w
  {
    if i < k {
      SlotBelow(W, i, u, k, w);
    } else if k < i {
      SlotBelow(W, k, w, i, u);
    }
  }

  /** `flags` lists, one by one, the first `|flags|` bits of the table. */
  predicate Mirrors(words: seq<bv64>, flags: seq<bool>) {
    (|flags| + 63) / 64 == |words| &&
    forall idx {:trigger Bit(words, idx)} :: 0 <= idx < |flags| ==> idx / 64 < |words| && Bit(words, idx) == flags[idx]
  }

  /** Setting bit `idx` in the words sets flag `idx` in the list. */
  lemma MirrorSet(words: seq<bv64>, flags: seq<bool>, idx: nat)
    requires Mirrors(words, flags) && idx < |flags|
    ensures idx / 64 < |words|
    ensures Mirrors(words[idx / 64 := words[idx / 64] | (1 << (idx % 64))], flags[idx := true])
  {
    var after := words[idx / 64 := words[idx / 64] | (1 << (idx % 64))];
    forall j | 0 <= j < |flags| ensures j / 64 < |after| && Bit(after, j) == flags[idx := true][j] {
      SetBit(words, idx, j);
    }
  }

  /** An all-zero table of `N` bits. */
  lemma MirrorZero(words: seq<bv64>, N: nat)
    requires |words| == (N + 63) / 64 && forall j :: 0 <= j < |words| ==> words[j] == 0
    ensures Mirrors(words, seq(N, _ => false))
  {
    forall idx | 0 <= idx < N ensures idx / 64 < |words| && !Bit(words, idx) {
      ZeroBit(idx % 64);
    }
  }

  lemma ZeroBit(p: nat)
    requires p < 64
    ensures (0 as bv64) & (1 << p) == 0
  {
  }

  /** The flat list `flags` packs the rows `rows` (one per sorted position,
      `max_weight + 1` cells each) at the indices `Slot`. */
  predicate Packs(flags: seq<bool>, rows: seq<seq<bool>>, W: nat) {
    |flags| == Slot(W, |rows|, 0) &&
    (forall i :: 0 <= i < |rows| ==> |rows[i]| == W + 1) &&
    forall i, u {:trigger Slot(W, i, u)} :: 0 <= i < |rows| && 0 <= u <= W ==>
      Slot(W, i, u) < |flags| && flags[Slot(W, i, u)] == rows[i][u]
  }

  /** All-false rows pack into an all-false list. */
  lemma PacksZero(n: nat, W: nat)
    ensures Packs(seq(Slot(W, n, 0), _ => false), seq(n, _ => seq(W + 1, _ => false)), W)
  {
    forall i, u | 0 <= i < n && 0 <= u <= W ensures Slot(W, i, u) < Slot(W, n, 0) {
      SlotBelow(W, i, u, n, 0);
    }
  }

  /** Setting the flag of cell `(k, w)` sets that cell of the rows and no other. */
  lemma PacksSet(flags: seq<bool>, rows: seq<seq<bool>>, W: nat, k: nat, w: nat)
    requires Packs(flags, rows, W) && k < |rows| && w <= W
    ensures Slot(W, k, w) < |flags|
    ensures Packs(flags[Slot(W, k, w) := true], rows[k := rows[k][w := true]], W)
  {
    var idx := Slot(W, k, w);
    var flags', rows' := flags[idx := true], rows[k := rows[k][w := true]];
    forall i, u | 0 <= i < |rows| && 0 <= u <= W
      ensures Slot(W, i, u) < |flags'| && flags'[Slot(W, i, u)] == rows'[i][u]
    {
      if Slot(W, i, u) == idx {
        SlotInjective(W, i, u, k, w);
      }
    }
  }

  /** Reading the packed bit of cell `(i, u)` reads that cell of the rows. */
  lemma ReadCell(words: seq<bv64>, flags: seq<bool>, rows: seq<seq<bool>>, W: nat, i: nat, u: nat)
    requires Mirrors(words, flags) && Packs(flags, rows, W) && i < |rows| && u <= W
    ensures Slot(W, i, u) / 64 < |words| && Bit(words, Slot(W, i, u)) == rows[i][u]
  {
    var idx := Slot(W, i, u);
    assert idx < |flags|;
  }

  // ---------------------------------------------------------------------------
  // One pass.

  /** The rows hold, for the first `k` positions, exactly the cells their
      item strictly improved, and nothing for the rest. */
  predicate TableAfter(c: Challenge, order: seq<nat>, rows: seq<seq<bool>>, k: nat)
    requires WellFormed(c) && InRange(c, order)
  {
    |rows| == |order| &&
    (forall i :: 0 <= i < |order| ==> |rows[i]| == c.maxWeight + 1) &&
    forall i, u {:trigger rows[i][u]} :: 0 <= i < |order| && 0 <= u <= c.maxWeight ==>
      rows[i][u] == (i < k && Improves(c, order[..i], order[i], u))
  }

  /** The row pass for position `k`: from the top capacity down to the weight,
      a cell improved by `dp[w - weight] + value` is rewritten and its bit set. */
  method Pass(c: Challenge, order: seq<nat>, k: nat, dp: array<nat>, selected: array<bv64>,
              ghost flags: seq<bool>, ghost rows: seq<seq<bool>>)
    returns (ghost flags': seq<bool>, ghost rows': seq<seq<bool>>)
    requires WellFormed(c) && InRange(c, order) && k < |order| && dp.Length == c.maxWeight + 1
    requires dp as object != selected as object
    requires forall u :: 0 <= u <= c.maxWeight ==> dp[u] == BestOf(c, order[..k], u)
    requires Mirrors(selected[..], flags) && Packs(flags, rows, c.maxWeight) && k < |rows|
    requires forall u :: 0 <= u <= c.maxWeight ==> !rows[k][u]
    modifies dp, selected
    ensures forall u :: 0 <= u <= c.maxWeight ==> dp[u] == BestOf(c, order[..k + 1], u)
    ensures Mirrors(selected[..], flags') && Packs(flags', rows', c.maxWeight)
    ensures |rows'| == |rows| && forall i :: 0 <= i < |rows| && i != k ==> rows'[i] == rows[i]
    ensures forall u :: 0 <= u <= c.maxWeight ==> rows'[k][u] == Improves(c, order[..k], order[k], u)
  {
    var W := c.maxWeight;
    var x := order[k];
    var wt, v := c.weights[x], c.values[x];
    flags', rows' := flags, rows;
    var w: int := W;
    while w >= wt
      invariant w <= W && (wt <= W ==> wt - 1 <= w)
      invariant forall u :: 0 <= u <= W && u <= w ==> dp[u] == BestOf(c, order[..k], u)
      invariant forall u :: 0 <= u <= W && u > w ==> dp[u] == BestOf(c, order[..k + 1], u)
      invariant Mirrors(selected[..], flags') && Packs(flags', rows', W)
      invariant |rows'| == |rows| && forall i :: 0 <= i < |rows| && i != k ==> rows'[i] == rows[i]
      invariant forall u :: 0 <= u <= W ==> rows'[k][u] == (u > w && Improves(c, order[..k], x, u))
    {
      TakeOrSkipAt(c, order, k, w);
      if dp[w - wt] + v > dp[w] {
        dp[w] := dp[w - wt] + v;
        flags', rows' := SetCell(selected, W, k, w, flags', rows');
      }
      w := w - 1;
    }
    ShortCells(c, order, k);
    forall u | 0 <= u <= W && u <= w ensures !Improves(c, order[..k], x, u) {
    }
  }

  /** `selected[idx / 64] |= 1 << (idx % 64)` with `idx = k * (max_weight + 1) + w`:
      the cell `(k, w)` is set and every other cell keeps its bit. */
  method SetCell(selected: array<bv64>, W: nat, k: nat, w: nat, ghost flags: seq<bool>, ghost rows: seq<seq<bool>>)
    returns (ghost flags': seq<bool>, ghost rows': seq<seq<bool>>)
    requires Mirrors(selected[..], flags) && Packs(flags, rows, W) && k < |rows| && w <= W
    modifies selected
    ensures rows' == rows[k := rows[k][w := true]]
    ensures Mirrors(selected[..], flags') && Packs(flags', rows', W)
  {
    PacksSet(flags, rows, W, k, w);
    flags' := SetBitAt(selected, Slot(W, k, w), flags);
    rows' := rows[k := rows[k][w := true]];
  }

  /** `selected[idx / 64] |= 1 << (idx % 64)`. */
  method SetBitAt(selected: array<bv64>, idx: nat, ghost flags: seq<bool>) returns (ghost flags': seq<bool>)
    requires idx < |flags| && Mirrors(selected[..], flags)
    modifies selected
    ensures flags' == flags[idx := true] && Mirrors(selected[..], flags')
  {
    MirrorSet(selected[..], flags, idx);
    selected[idx / 64] := selected[idx / 64] | (1 << (idx % 64));
    flags' := flags[idx := true];
  }

  /** One pass extends the table by the row of position `k`. */
  lemma TableStep(c: Challenge, order: seq<nat>, rows: seq<seq<bool>>, rows': seq<seq<bool>>, k: nat)
    requires WellFormed(c) && InRange(c, order) && k < |order| && TableAfter(c, order, rows, k)
    requires |rows'| == |rows| && forall i :: 0 <= i < |rows| && i != k ==> rows'[i] == rows[i]
    requires forall i :: 0 <= i < |rows'| ==> |rows'[i]| == c.maxWeight + 1
    requires forall u :: 0 <= u <= c.maxWeight ==> rows'[k][u] == Improves(c, order[..k], order[k], u)
    ensures TableAfter(c, order, rows', k + 1)
  {
  }

  /** `selected[idx / 64] & (1 << (idx % 64)) != 0`. */
  method TestBit(selected: array<bv64>, idx: nat) returns (b: bool)
    requires idx / 64 < selected.Length
    ensures b == Bit(selected[..], idx)
  {
    b := selected[idx / 64] & (1 << (idx % 64)) != 0;
  }

  // ---------------------------------------------------------------------------
  // The bound.

  /** After `i` positions, `upper_bound` and `remaining_weight` follow the
      greedy fill of the whole order: before its stop they are the value
      taken so far and the room left; past it the full bound, which then
      reached `min_value` (else the solver would have stopped). */
  predicate Tracks(c: Challenge, order: seq<nat>, i: nat, upperBound: nat, remaining: nat)
    requires WellFormed(c) && InRange(c, order) && i <= |order|
  {
    var g := Greedy(c, order, 0, c.maxWeight);
    var bound := FractionalBound(c, order, 0, c.maxWeight);
    (i <= g.stop ==> Greedy(c, order, i, remaining).stop == g.stop && bound == upperBound + FractionalBound(c, order, i, remaining)) &&
    (i > g.stop ==> upperBound == bound && remaining == 0 && bound >= c.minValue)
  }

  /** The bound step for an item that fits. */
  lemma TracksFit(c: Challenge, order: seq<nat>, i: nat, upperBound: nat, remaining: nat)
    requires WellFormed(c) && InRange(c, order) && i < |order| && Tracks(c, order, i, upperBound, remaining)
    requires c.weights[order[i]] <= remaining
    ensures Tracks(c, order, i + 1, upperBound + c.values[order[i]], remaining - c.weights[order[i]])
  {
    GreedyStep(c, order, i, remaining);
  }

  /** The bound step for an item that does not fit: the bound falls below
      `min_value` exactly at the stop of the greedy fill when the full bound does. */
  lemma TracksMisfit(c: Challenge, order: seq<nat>, i: nat, upperBound: nat, remaining: nat)
    requires WellFormed(c) && InRange(c, order) && i < |order| && Tracks(c, order, i, upperBound, remaining)
    requires c.weights[order[i]] > remaining
    ensures var x := order[i];
      var bound := upperBound + Min(Fraction(c.values[x], remaining, c.weights[x]), c.values[x]);
      (bound < c.minValue <==>
        i == Greedy(c, order, 0, c.maxWeight).stop && FractionalBound(c, order, 0, c.maxWeight) < c.minValue) &&
      (bound >= c.minValue ==> Tracks(c, order, i + 1, bound, 0))
  {
    var x := order[i];
    var bound := upperBound + Min(Fraction(c.values[x], remaining, c.weights[x]), c.values[x]);
    MisfitBound(c, order, i, upperBound, remaining);
    MisfitStop(c, order, i, upperBound, remaining);
    if bound >= c.minValue {
      TracksPast(c, order, i + 1, bound);
    }
  }

  /** An item that does not fit closes the bound: it becomes the full bound. */
  lemma MisfitBound(c: Challenge, order: seq<nat>, i: nat, upperBound: nat, remaining: nat)
    requires WellFormed(c) && InRange(c, order) && i < |order| && Tracks(c, order, i, upperBound, remaining)
    requires c.weights[order[i]] > remaining
    ensures var x := order[i];
      upperBound + Min(Fraction(c.values[x], remaining, c.weights[x]), c.values[x]) == FractionalBound(c, order, 0, c.maxWeight)
  {
    var x := order[i];
    var part := Fraction(c.values[x], remaining, c.weights[x]);
    assert Min(part, c.values[x]) == part by {
      FractionBelowValue(c.values[x], remaining, c.weights[x]);
    }
    if i <= Greedy(c, order, 0, c.maxWeight).stop {
      GreedyStep(c, order, i, remaining);
    } else {
      assert remaining == 0;
      assert part == 0 by {
        assert c.values[x] * 0 == 0;
      }
    }
  }

  /** The greedy fill stops at the first item that does not fit, unless the
      bound was already past its stop. */
  lemma MisfitStop(c: Challenge, order: seq<nat>, i: nat, upperBound: nat, remaining: nat)
    requires WellFormed(c) && InRange(c, order) && i < |order| && Tracks(c, order, i, upperBound, remaining)
    requires c.weights[order[i]] > remaining
    ensures var g := Greedy(c, order, 0, c.maxWeight);
      g.stop <= i && (g.stop < i ==> FractionalBound(c, order, 0, c.maxWeight) >= c.minValue)
  {
    if i <= Greedy(c, order, 0, c.maxWeight).stop {
      GreedyStep(c, order, i, remaining);
    }
  }

  /** Past the stop of the greedy fill, the full bound with no room left is
      tracked, once it reaches `min_value`. */
  lemma TracksPast(c: Challenge, order: seq<nat>, i: nat, bound: nat)
    requires WellFormed(c) && InRange(c, order) && i <= |order|
    requires i > Greedy(c, order, 0, c.maxWeight).stop
    requires bound == FractionalBound(c, order, 0, c.maxWeight) >= c.minValue
    ensures Tracks(c, order, i, bound, 0)
  {
  }

  /** `vec![0u64; (num_items * (max_weight + 1) + 63) / 64]`: an empty table. */
  method NewTable(c: Challenge, order: seq<nat>) returns (selected: array<bv64>, ghost flags: seq<bool>, ghost rows: seq<seq<bool>>)
    requires WellFormed(c) && InRange(c, order)
    ensures fresh(selected)
    ensures Mirrors(selected[..], flags) && Packs(flags, rows, c.maxWeight) && TableAfter(c, order, rows, 0)
  {
    var n, W := |order|, c.maxWeight;
    selected := new bv64[TableWords(n, W)](_ => 0);
    flags := seq(Slot(W, n, 0), _ => false);
    rows := seq(n, _ => seq(W + 1, _ => false));
    MirrorZero(selected[..], Slot(W, n, 0));
    PacksZero(n, W);
  }

  /** The bound step for position `i`: an item that fits adds its value and
      uses its weight; one that does not adds the floored fraction of its
      value that fills the room left (at most its value), empties the room,
      and `cut` reports a bound below `min_value`. */
  method BoundStep(c: Challenge, order: seq<nat>, i: nat, upperBound: nat, remaining: nat)
    returns (cut: bool, upperBound': nat, remaining': nat)
    requires WellFormed(c) && InRange(c, order) && i < |order| && Tracks(c, order, i, upperBound, remaining)
    ensures cut <==> i == Greedy(c, order, 0, c.maxWeight).stop && FractionalBound(c, order, 0, c.maxWeight) < c.minValue
    ensures !cut ==> Tracks(c, order, i + 1, upperBound', remaining')
  {
    var x := order[i];
    var weight, value := c.weights[x], c.values[x];
    if weight <= remaining {
      TracksFit(c, order, i, upperBound, remaining);
      cut, upperBound', remaining' := false, upperBound + value, remaining - weight;
    } else {
      TracksMisfit(c, order, i, upperBound, remaining);
      upperBound' := upperBound + Min(Fraction(value, remaining, weight), value);
      cut, remaining' := upperBound' < c.minValue, 0;
    }
  }

  /** The row pass for position `k` on a table that holds exactly the
      improved cells of the positions before it. */
  method TablePass(c: Challenge, order: seq<nat>, k: nat, dp: array<nat>, selected: array<bv64>,
                   ghost flags: seq<bool>, ghost rows: seq<seq<bool>>)
    returns (ghost flags': seq<bool>, ghost rows': seq<seq<bool>>)
    requires WellFormed(c) && InRange(c, order) && k < |order| && dp.Length == c.maxWeight + 1
    requires dp as object != selected as object
    requires forall u :: 0 <= u <= c.maxWeight ==> dp[u] == BestOf(c, order[..k], u)
    requires Mirrors(selected[..], flags) && Packs(flags, rows, c.maxWeight) && TableAfter(c, order, rows, k)
    modifies dp, selected
    ensures forall u :: 0 <= u <= c.maxWeight ==> dp[u] == BestOf(c, order[..k + 1], u)
    ensures Mirrors(selected[..], flags') && Packs(flags', rows', c.maxWeight) && TableAfter(c, order, rows', k + 1)
  {
    flags', rows' := Pass(c, order, k, dp, selected, flags, rows);
    TableStep(c, order, rows, rows', k);
  }

  // ---------------------------------------------------------------------------
  // The solver.

  /** The main loop of `solve_challenge`: per position, the greedy bound step
      (`cut` when it stops below `min_value` at the first misfit) and the row
      pass, breaking once the full capacity reaches `min_value`.  Without a
      cut, `passes` is `StopPoint`, `dp` is the best-value row over those
      positions and the table holds exactly their improved cells. */
  method RunPasses(c: Challenge, order: seq<nat>)
    returns (cut: bool, dp: array<nat>, selected: array<bv64>, passes: nat, ghost flags: seq<bool>, ghost rows: seq<seq<bool>>)
    requires WellFormed(c) && InRange(c, order)
    ensures cut <==> Greedy(c, order, 0, c.maxWeight).stop < StopPoint(c, order) && FractionalBound(c, order, 0, c.maxWeight) < c.minValue
    ensures !cut ==> passes == StopPoint(c, order) && dp.Length == c.maxWeight + 1
    ensures !cut ==> forall u :: 0 <= u <= c.maxWeight ==> dp[u] == BestOf(c, order[..passes], u)
    ensures !cut ==> Mirrors(selected[..], flags) && Packs(flags, rows, c.maxWeight) && TableAfter(c, order, rows, passes)
  {
    var n, W := |order|, c.maxWeight;
    dp := new nat[W + 1](_ => 0);
    selected, flags, rows := NewTable(c, order);
    ghost var stop := StopPoint(c, order);
    var upperBound: nat := 0;
    var remaining: nat := W;
    passes := 0;
    while passes < n
      invariant passes <= n
      invariant forall u :: 0 <= u <= W ==> dp[u] == BestOf(c, order[..passes], u)
      invariant Mirrors(selected[..], flags) && Packs(flags, rows, W) && TableAfter(c, order, rows, passes)
      invariant passes <= stop && (passes == stop ==> passes == n)
      invariant Tracks(c, order, passes, upperBound, remaining)
    {
      var cutHere;
      cutHere, upperBound, remaining := BoundStep(c, order, passes, upperBound, remaining);
      if cutHere {
        return true, dp, selected, passes, flags, rows;
      }
      flags, rows := TablePass(c, order, passes, dp, selected, flags, rows);
      passes := passes + 1;
      assert dp[W] == BestOf(c, order[..passes], W);
      PassReachesStop(c, order, passes);
      if dp[W] >= c.minValue {
        break;
      }
    }
    cut := false;
  }

  /** Pass `k` is the last one run exactly when it is the last position or
      its best value at the full capacity reaches `min_value`. */
  lemma PassReachesStop(c: Challenge, order: seq<nat>, k: nat)
    requires WellFormed(c) && InRange(c, order) && 1 <= k <= StopPoint(c, order)
    ensures k == StopPoint(c, order) <==> k == |order| || BestOf(c, order[..k], c.maxWeight) >= c.minValue
  {
  }

  /** The walk back after position `j` with `w` left: the items taken so far
      are distinct, none of them is in `order[..j]`, they use up the capacity
      not left, and with the best of `order[..j]` at `w` they make up the best
      over the passes run. */
  ghost predicate Walked(c: Challenge, order: seq<nat>, passes: nat, j: nat, w: nat, items: seq<nat>)
    requires WellFormed(c) && IsOrder(c, order) && passes <= |order| && j <= |order|
  {
    w <= c.maxWeight && InRange(c, items) && Weight(c, items) + w == c.maxWeight &&
    Distinct(items) && (forall a, t :: 0 <= a < |items| && 0 <= t < j ==> items[a] != order[t]) &&
    (j >= passes ==> items == [] && w == c.maxWeight) &&
    (j <= passes ==> Value(c, items) + BestOf(c, order[..j], w) == BestOf(c, order[..passes], c.maxWeight))
  }

  /** One step of the walk: position `j` is taken exactly when its bit is set. */
  lemma WalkStep(c: Challenge, order: seq<nat>, passes: nat, j: nat, w: nat, items: seq<nat>, bit: bool)
    requires WellFormed(c) && IsOrder(c, order) && passes <= |order| && j < |order|
    requires Walked(c, order, passes, j + 1, w, items)
    requires bit == (j < passes && Improves(c, order[..j], order[j], w))
    ensures bit ==> c.weights[order[j]] <= w && Walked(c, order, passes, j, w - c.weights[order[j]], items + [order[j]])
    ensures !bit ==> Walked(c, order, passes, j, w, items)
  {
    TakeOrSkipAt(c, order, j, w);
    if bit {
      var x := order[j];
      AppendItem(c, items, x);
      var taken := items + [x];
      forall a, b | 0 <= a < b < |taken| ensures taken[a] != taken[b] {
        if b == |items| { assert taken[a] == items[a] && items[a] != order[j]; }
      }
      forall a, t | 0 <= a < |taken| && 0 <= t < j ensures taken[a] != order[t] {
        if a == |items| { assert order[t] != order[j]; }
      }
    }
  }

  /** Once the walk reaches the front or runs out of room, its items are the
      best over the passes run. */
  lemma WalkDone(c: Challenge, order: seq<nat>, passes: nat, j: nat, w: nat, items: seq<nat>)
    requires WellFormed(c) && IsOrder(c, order) && passes <= |order| && j <= |order|
    requires Walked(c, order, passes, j, w, items) && (j == 0 || w == 0)
    ensures Feasible(c, items) && Value(c, items) == BestOf(c, order[..passes], c.maxWeight)
  {
    BestOfZeroCapacity(c, order[..j]);
    BestOfZeroCapacity(c, order[..passes]);
    assert order[..0] == [];
  }

  /** The walk back: positions from last to first, taking the item where the
      bit of the current capacity is set and lowering the capacity by its
      weight, until the capacity is 0.  The items are distinct, use up exactly
      the capacity they lower, and are worth the best value over the passes. */
  method WalkBack(c: Challenge, order: seq<nat>, selected: array<bv64>, passes: nat, ghost flags: seq<bool>, ghost rows: seq<seq<bool>>)
    returns (items: seq<nat>)
    requires WellFormed(c) && IsOrder(c, order) && passes <= |order|
    requires Mirrors(selected[..], flags) && Packs(flags, rows, c.maxWeight) && TableAfter(c, order, rows, passes)
    ensures Feasible(c, items) && Value(c, items) == BestOf(c, order[..passes], c.maxWeight)
  {
    var n, W := |order|, c.maxWeight;
    items := [];
    var w := W;
    var j := n;
    while j > 0
      invariant 0 <= j <= n
      invariant Walked(c, order, passes, j, w, items)
    {
      j := j - 1;
      ReadCell(selected[..], flags, rows, W, j, w);
      var bit := TestBit(selected, Slot(W, j, w));
      WalkStep(c, order, passes, j, w, items, bit);
      if bit {
        items := items + [order[j]];
        w := w - c.weights[order[j]];
      }
      assert Walked(c, order, passes, j, w, items);
      if w == 0 {
        break;
      }
    }
    WalkDone(c, order, passes, j, w, items);
  }

  /** `solve_challenge`: `None` when the bound cuts the passes short or the
      best value over the passes run is below `min_value`; otherwise the
      walked-back items.  They are distinct, fit the capacity and are worth
      exactly that best value, which is the optimum when every pass ran. */
  method Solve(c: Challenge, order: seq<nat>) returns (r: Option<seq<nat>>)
    requires WellFormed(c) && IsOrder(c, order)
    ensures r.None? <==>
      (Greedy(c, order, 0, c.maxWeight).stop < StopPoint(c, order) && FractionalBound(c, order, 0, c.maxWeight) < c.minValue) ||
      BestOf(c, order[..StopPoint(c, order)], c.maxWeight) < c.minValue
    ensures r.Some? ==> Feasible(c, r.value) && Value(c, r.value) == BestOf(c, order[..StopPoint(c, order)], c.maxWeight)
    ensures r.Some? ==> Value(c, r.value) >= c.minValue
    ensures r.Some? && StopPoint(c, order) == |order| ==> Value(c, r.value) == Optimum(c)
  {
    var cut, dp, selected, passes, flags, rows := RunPasses(c, order);
    if cut || dp[c.maxWeight] < c.minValue {
      return None;
    }
    var items := WalkBack(c, order, selected, passes, flags, rows);
    assert order[..|order|] == order;
    OrderReachesOptimum(c, order, c.maxWeight);
    r := Some(items);
  }
}
