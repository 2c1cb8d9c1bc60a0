/** tig-algorithms knapsack/quadratic_greedy: a greedy fill of the quadratic
    knapsack in float density order (any arrangement, the `order` argument),
    then a local search that trades a chosen item for an unchosen one
    whenever the trade fits and raises the value, until a full pass makes no
    trade.  The answer is given when the value, reinterpreted as `u32`,
    reaches `min_value`. */
module QuadraticGreedy {
  import opened QuadraticSpec
  import K = KnapsackSpec

  /** The greedy loop: each item in `order` is chosen when it still fits,
      adding its value and its interaction with every other chosen item.
      The totals are those of the final selection, and no unchosen item fits
      beside it. */
  method GreedyFill(q: QChallenge, order: seq<nat>) returns (selected: array<bool>, totalWeight: nat, totalValue: int)
    requires WellFormed(q) && IsOrder(q, order)
    ensures fresh(selected) && selected.Length == Size(q)
    ensures TotalWeight(q, selected[..]) == totalWeight <= q.maxWeight
    ensures TotalValue(q, selected[..]) == totalValue
    ensures Saturated(q, selected[..])
  {
    selected := new bool[Size(q)](_ => false);
    totalWeight, totalValue := 0, 0;
    NothingChosen(q, selected[..]);
    var t := 0;
    while t < |order|
      invariant t <= |order| && selected.Length == Size(q)
      invariant TotalWeight(q, selected[..]) == totalWeight <= q.maxWeight
      invariant TotalValue(q, selected[..]) == totalValue
      invariant forall s :: 0 <= s < t && !selected[order[s]] ==> totalWeight + q.weights[order[s]] > q.maxWeight
      invariant forall s :: t <= s < |order| ==> !selected[order[s]]
    {
      var i := order[t];
      if totalWeight + q.weights[i] <= q.maxWeight {
        ghost var before := selected[..];
        AddItem(q, before, i);
        LinkFlip(q, before, i, i, Size(q));
        selected[i] := true;
        assert selected[..] == before[i := true];
        totalWeight := totalWeight + q.weights[i];
        totalValue := totalValue + q.values[i];
        var j := 0;
        while j < Size(q)
          invariant j <= Size(q)
          invariant totalValue == TotalValue(q, before) + q.values[i] + Link(q, selected[..], i, j)
        {
          if selected[j] && j != i {
            totalValue := totalValue + q.interactions[i][j];
          }
          j := j + 1;
        }
        forall s | t < s < |order| ensures !selected[order[s]] {
          assert order[s] != order[t];
        }
      }
      t := t + 1;
    }
    forall x | 0 <= x < Size(q) && !selected[x] ensures totalWeight + q.weights[x] > q.maxWeight {
      K.PigeonholeCovers(order, Size(q), x);
    }
  }

  /** The inner loop of one pass for a fixed `i`: against every other `j`,
      while `i` is chosen and `j` is not, trade them when the new weight fits
      and the value difference is positive.  Without a trade, no trade of `i`
      for another item gains anything. */
  method TradeRow(q: QChallenge, selected: array<bool>, i: nat, currentWeight: nat, currentValue: int)
      returns (totalWeight: nat, totalValue: int, improved: bool)
    requires WellFormed(q) && selected.Length == Size(q) && i < Size(q)
    requires TotalWeight(q, selected[..]) == currentWeight <= q.maxWeight && TotalValue(q, selected[..]) == currentValue
    modifies selected
    ensures TotalWeight(q, selected[..]) == totalWeight <= q.maxWeight && TotalValue(q, selected[..]) == totalValue
    ensures Count(selected[..]) == Count(old(selected[..]))
    ensures improved ==> totalValue > currentValue
    ensures !improved ==>
      selected[..] == old(selected[..]) && totalWeight == currentWeight && totalValue == currentValue &&
      forall j :: 0 <= j < Size(q) && j != i && selected[i] && !selected[j] ==> NoGain(q, selected[..], i, j)
  {
    totalWeight, totalValue, improved := currentWeight, currentValue, false;
    var j := 0;
    while j < Size(q)
      invariant j <= Size(q)
      invariant TotalWeight(q, selected[..]) == totalWeight <= q.maxWeight && TotalValue(q, selected[..]) == totalValue
      invariant Count(selected[..]) == Count(old(selected[..]))
      invariant improved ==> totalValue > currentValue
      invariant !improved ==>
        selected[..] == old(selected[..]) && totalWeight == currentWeight && totalValue == currentValue &&
        forall j' :: 0 <= j' < j && j' != i && selected[i] && !selected[j'] ==> NoGain(q, selected[..], i, j')
    {
      if i != j && selected[i] && !selected[j] {
        ghost var sel := selected[..];
        SwapItems(q, sel, i, j);
        var weightDiff := q.weights[j] as int - q.weights[i] as int;
        if totalWeight + weightDiff <= q.maxWeight {
          var valueDiff := q.values[j] as int - q.values[i] as int;
          var k := 0;
          while k < Size(q)
            invariant k <= Size(q)
            invariant valueDiff == q.values[j] - q.values[i] + SwapGain(q, sel, i, j, k)
          {
            if selected[k] && k != i && k != j {
              valueDiff := valueDiff + (q.interactions[j][k] - q.interactions[i][k]);
            }
            k := k + 1;
          }
          if valueDiff > 0 {
            selected[i] := false;
            selected[j] := true;
            assert selected[..] == Swapped(sel, i, j);
            totalWeight := totalWeight + weightDiff;
            totalValue := totalValue + valueDiff;
            improved := true;
          }
        }
      }
      j := j + 1;
    }
  }

  /** One full pass over every `i`; without a trade the selection is locally
      optimal. */
  method TradePass(q: QChallenge, selected: array<bool>, currentWeight: nat, currentValue: int)
      returns (totalWeight: nat, totalValue: int, improved: bool)
    requires WellFormed(q) && selected.Length == Size(q)
    requires TotalWeight(q, selected[..]) == currentWeight <= q.maxWeight && TotalValue(q, selected[..]) == currentValue
    modifies selected
    ensures TotalWeight(q, selected[..]) == totalWeight <= q.maxWeight && TotalValue(q, selected[..]) == totalValue
    ensures Count(selected[..]) == Count(old(selected[..]))
    ensures improved ==> totalValue > currentValue
    ensures !improved ==> totalValue == currentValue && totalWeight == currentWeight && LocallyOptimal(q, selected[..])
  {
    totalWeight, totalValue, improved := currentWeight, currentValue, false;
    var i := 0;
    while i < Size(q)
      invariant i <= Size(q)
      invariant TotalWeight(q, selected[..]) == totalWeight <= q.maxWeight && TotalValue(q, selected[..]) == totalValue
      invariant Count(selected[..]) == Count(old(selected[..]))
      invariant improved ==> totalValue > currentValue
      invariant !improved ==>
        selected[..] == old(selected[..]) && totalWeight == currentWeight && totalValue == currentValue &&
        forall i', j :: 0 <= i' < i && 0 <= j < Size(q) && i' != j && selected[i'] && !selected[j] ==>
          NoGain(q, selected[..], i', j)
    {
      var rowImproved;
      totalWeight, totalValue, rowImproved := TradeRow(q, selected, i, totalWeight, totalValue);
      improved := improved || rowImproved;
      i := i + 1;
    }
    if !improved {
      TradesSuffice(q, selected[..]);
    }
  }

  /** The `while improved` local search: passes until one makes no trade.
      The final selection fits, keeps the number of chosen items, is worth
      at least the start and is locally optimal. */
  method LocalSearch(q: QChallenge, selected: array<bool>, currentWeight: nat, currentValue: int)
      returns (totalWeight: nat, totalValue: int)
    requires WellFormed(q) && selected.Length == Size(q)
    requires TotalWeight(q, selected[..]) == currentWeight <= q.maxWeight && TotalValue(q, selected[..]) == currentValue
    modifies selected
    ensures TotalWeight(q, selected[..]) == totalWeight <= q.maxWeight && TotalValue(q, selected[..]) == totalValue
    ensures totalValue >= currentValue
    ensures Count(selected[..]) == Count(old(selected[..]))
    ensures LocallyOptimal(q, selected[..])
  {
    totalWeight, totalValue := currentWeight, currentValue;
    var improved := true;
    ValueBelowCeiling(q, selected[..]);
    while improved
      invariant TotalWeight(q, selected[..]) == totalWeight <= q.maxWeight && TotalValue(q, selected[..]) == totalValue
      invariant totalValue >= currentValue
      invariant Count(selected[..]) == Count(old(selected[..]))
      invariant totalValue <= Ceiling(q, Size(q))
      invariant !improved ==> LocallyOptimal(q, selected[..])
      decreases Ceiling(q, Size(q)) - totalValue + if improved then 1 else 0
    {
      totalWeight, totalValue, improved := TradePass(q, selected, totalWeight, totalValue);
      ValueBelowCeiling(q, selected[..]);
    }
  }

  // ---------------------------------------------------------------------------
  // The answer.

  /** No unchosen item fits beside the chosen ones: where a greedy fill ends. */
  predicate Saturated(q: QChallenge, sel: seq<bool>)
    requires |sel| == Size(q)
  {
    forall x :: 0 <= x < |sel| && !sel[x] ==> TotalWeight(q, sel) + q.weights[x] > q.maxWeight
  }

  /** `sel` is where the local search can end from the greedy selection `g`:
      both fit, `sel` keeps `g`'s number of items, is worth at least as much,
      and is locally optimal. */
  predicate SearchOutcome(q: QChallenge, g: seq<bool>, sel: seq<bool>)
    requires WellFormed(q)
  {
    |g| == Size(q) && |sel| == Size(q) &&
    TotalWeight(q, g) <= q.maxWeight && Saturated(q, g) &&
    TotalWeight(q, sel) <= q.maxWeight && Count(sel) == Count(g) &&
    TotalValue(q, sel) >= TotalValue(q, g) && LocallyOptimal(q, sel)
  }

  /** `total_value as u32`: an `i32` reinterpreted as unsigned, so a negative
      value becomes `2^32` more. */
  function AsU32(v: int): (r: nat)
    ensures r < 0x1_0000_0000
    ensures 0 <= v < 0x1_0000_0000 ==> r == v
    ensures -0x8000_0000 <= v < 0 ==> r == v + 0x1_0000_0000
  {
    v % 0x1_0000_0000
  }

  /** `solve_challenge` as written: greedy fill, local search, and the chosen
      indices in increasing order when `total_value as u32 >= min_value`. */
  method SolveAsWritten(q: QChallenge, order: seq<nat>) returns (r: K.Option<seq<nat>>)
    requires WellFormed(q) && IsOrder(q, order)
    ensures exists g, sel :: (SearchOutcome(q, g, sel) &&
      r == (if AsU32(TotalValue(q, sel)) >= q.minValue then K.Some(K.Picked(sel)) else K.None))
  {
    var selected, totalWeight, totalValue := GreedyFill(q, order);
    ghost var g := selected[..];
    totalWeight, totalValue := LocalSearch(q, selected, totalWeight, totalValue);
    ghost var sel := selected[..];
    assert SearchOutcome(q, g, sel);
    if AsU32(totalValue) >= q.minValue {
      r := K.Some(K.Picked(selected[..]));
    } else {
      r := K.None;
    }
  }

  /** `solve_challenge` with the value compared as a signed integer: an
      answer lists, in increasing order, a selection that fits and reaches
      `min_value`; no answer means the search ended at a locally optimal
      selection below it. */
  method Solve(q: QChallenge, order: seq<nat>) returns (r: K.Option<seq<nat>>)
    requires WellFormed(q) && IsOrder(q, order)
    ensures exists g, sel :: (SearchOutcome(q, g, sel) &&
      r == (if TotalValue(q, sel) >= q.minValue then K.Some(K.Picked(sel)) else K.None))
    ensures r.Some? ==> K.StrictlyIncreasing(r.value)
  {
    var selected, totalWeight, totalValue := GreedyFill(q, order);
    ghost var g := selected[..];
    totalWeight, totalValue := LocalSearch(q, selected, totalWeight, totalValue);
    ghost var sel := selected[..];
    assert SearchOutcome(q, g, sel);
    if totalValue >= q.minValue {
      K.PickedIncreasing(sel);
      r := K.Some(K.Picked(selected[..]));
    } else {
      r := K.None;
    }
  }

  /** Every answer of `Solve` reaches `min_value` and fits. */
  lemma SolveSound(q: QChallenge, g: seq<bool>, sel: seq<bool>)
    requires WellFormed(q) && SearchOutcome(q, g, sel) && TotalValue(q, sel) >= q.minValue
    ensures K.SumOver(q.weights, K.Picked(sel)) <= q.maxWeight
    ensures forall x: nat :: x in K.Picked(sel) <==> x < |sel| && sel[x]
  {
    K.PickedIncreasing(sel);
  }

  // ---------------------------------------------------------------------------
  // The unsigned comparison accepts a negative value.

  /** Two items of weight 1 and value 0 that interact with -1, capacity 2,
      `min_value` 1. */
  function Sample(): QChallenge {
    QChallenge([1, 1], [0, 0], [[0, -1], [-1, 0]], 2, 1)
  }

  /** The items a two-flag selection `[a, b]` picks. */
  lemma PickedPair(a: bool, b: bool)
    ensures K.Picked([a, b]) == (if a then [0] else []) + (if b then [1] else [])
  {
    assert [a, b][..1] == [a] && [a][..0] == [];
    assert K.Picked([a]) == if a then [0] else [];
  }

  /** Items of weight 1 weigh as many as there are. */
  lemma {:induction false} SumOverOnes(vec: seq<nat>, items: seq<nat>)
    requires forall k :: 0 <= k < |vec| ==> vec[k] == 1
    requires forall k :: 0 <= k < |items| ==> items[k] < |vec|
    ensures K.SumOver(vec, items) == |items|
    decreases |items|
  {
    if items != [] {
      SumOverOnes(vec, items[..|items| - 1]);
    }
  }

  /** A selection `[a, b]` of the sample weighs one unit per chosen item. */
  lemma SamplePair(a: bool, b: bool)
    ensures Count([a, b]) == (if a then 1 else 0) + (if b then 1 else 0)
    ensures TotalWeight(Sample(), [a, b]) == Count([a, b])
  {
    PickedPair(a, b);
    SumOverOnes(Sample().weights, K.Picked([a, b]));
  }

  /** A selection of the sample without both items weighs at most 1. */
  lemma SampleLight(g: seq<bool>)
    ensures |g| == 2 && !(g[0] && g[1]) ==> TotalWeight(Sample(), g) <= 1
  {
    if |g| == 2 {
      assert g == [g[0], g[1]];
      SamplePair(g[0], g[1]);
    }
  }

  /** The only saturated selection of the sample is both items. */
  lemma SampleGreedy(g: seq<bool>)
    requires |g| == 2 && Saturated(Sample(), g)
    ensures g == [true, true]
  {
    SampleLight(g);
    if !(g[0] && g[1]) {
      assert false;
    }
    assert g == [g[0], g[1]];
  }

  /** Two chosen items out of two is the full selection. */
  lemma SampleFull(sel: seq<bool>)
    requires |sel| == 2 && Count(sel) == 2
    ensures sel == [true, true]
  {
    assert sel == [sel[0], sel[1]];
    SamplePair(sel[0], sel[1]);
  }

  lemma SampleValue()
    ensures WellFormed(Sample()) && TotalValue(Sample(), [true, true]) == -1
  {
    var q, sel := Sample(), [true, true];
    assert Link(q, sel, 1, 1) == -1;
    assert Worth(q, sel, 1) == 0;
  }

  /** Whatever the order, the greedy fill takes both items (the only
      saturated selection) and the search keeps the count, so it ends with
      both chosen and a value of -1 (any `SearchOutcome` meets the premise);
      the unsigned comparison sees 4294967295 >= 1 and `SolveAsWritten`
      answers `Some([0, 1])`, a selection worth less than `min_value`. */
  lemma SampleAsWritten(g: seq<bool>, sel: seq<bool>)
    requires |g| == 2 && Saturated(Sample(), g) && |sel| == 2 && Count(sel) == Count(g)
    ensures sel == [true, true] && K.Picked(sel) == [0, 1] && WellFormed(Sample())
    ensures TotalValue(Sample(), sel) == -1 < Sample().minValue
    ensures AsU32(TotalValue(Sample(), sel)) >= Sample().minValue
  {
    SampleGreedy(g);
    assert Count(sel) == Count([true, true]) == 2 by {
      SamplePair(true, true);
    }
    SampleFull(sel);
    SampleValue();
  }
}
