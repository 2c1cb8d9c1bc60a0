/** tig-algorithms knapsack/qknap_optimize: a greedy fill of the quadratic
    knapsack in float ratio order (any arrangement, the `order` argument),
    then, when the greedy value is below `min_value`, a swap search that
    exchanges one chosen and one unchosen item whenever the exchange fits and
    raises the value, until a full pass changes nothing or the value reaches
    `min_value`. */
module QknapOptimize {
  import opened QuadraticSpec
  import K = KnapsackSpec

  /** The greedy loop of `solve_challenge`: each item in `order` is chosen
      when it still fits, adding its value and its interaction with every
      chosen item.  The totals are those of the final selection, and no
      unchosen item fits beside it. */
  method GreedyFill(q: QChallenge, order: seq<nat>) returns (solution: array<bool>, totalWeight: nat, totalValue: int)
    requires WellFormed(q) && IsOrder(q, order)
    ensures fresh(solution) && solution.Length == Size(q)
    ensures TotalWeight(q, solution[..]) == totalWeight <= q.maxWeight
    ensures TotalValue(q, solution[..]) == totalValue
    ensures forall x :: 0 <= x < Size(q) && !solution[x] ==> totalWeight + q.weights[x] > q.maxWeight
  {
    solution := new bool[Size(q)](_ => false);
    totalWeight, totalValue := 0, 0;
    NothingChosen(q, solution[..]);
    var t := 0;
    while t < |order|
      invariant t <= |order| && solution.Length == Size(q)
      invariant TotalWeight(q, solution[..]) == totalWeight <= q.maxWeight
      invariant TotalValue(q, solution[..]) == totalValue
      invariant forall s :: 0 <= s < t && !solution[order[s]] ==> totalWeight + q.weights[order[s]] > q.maxWeight
      invariant forall s :: t <= s < |order| ==> !solution[order[s]]
    {
      var x := order[t];
      if totalWeight + q.weights[x] <= q.maxWeight {
        ghost var before := solution[..];
        AddItem(q, before, x);
        LinkFlip(q, before, x, x, Size(q));
        solution[x] := true;
        assert solution[..] == before[x := true];
        totalWeight := totalWeight + q.weights[x];
        totalValue := totalValue + q.values[x];
        var i := 0;
        while i < Size(q)
          invariant i <= Size(q)
          invariant totalValue == TotalValue(q, before) + q.values[x] + Link(q, solution[..], x, i)
        {
          if solution[i] {
            totalValue := totalValue + q.interactions[x][i];
          }
          i := i + 1;
        }
        forall s | t < s < |order| ensures !solution[order[s]] {
          assert order[s] != order[t];
        }
      }
      t := t + 1;
    }
    forall x | 0 <= x < Size(q) && !solution[x] ensures totalWeight + q.weights[x] > q.maxWeight {
      K.PigeonholeCovers(order, Size(q), x);
    }
  }

  /** `calculate_delta_value`: the change in value that exchanging the flags
      of `i` and `j` would make, and 0 when they are flagged alike. */
  method DeltaValue(q: QChallenge, solution: array<bool>, i: nat, j: nat) returns (delta: int)
    requires WellFormed(q) && solution.Length == Size(q) && i < Size(q) && j < Size(q)
    ensures delta == TotalValue(q, Swapped(solution[..], i, j)) - TotalValue(q, solution[..])
    ensures solution[i] == solution[j] ==> delta == 0
  {
    ghost var sel := solution[..];
    delta := 0;
    if solution[i] && !solution[j] {
      delta := delta + (q.values[j] as int - q.values[i]);
      var k := 0;
      while k < Size(q)
        invariant k <= Size(q)
        invariant delta == q.values[j] - q.values[i] + SwapGain(q, sel, i, j, k)
      {
        if k != i && k != j && solution[k] {
          delta := delta + (q.interactions[j][k] - q.interactions[i][k]);
        }
        k := k + 1;
      }
      SwapItems(q, sel, i, j);
    } else if !solution[i] && solution[j] {
      delta := delta - (q.values[j] as int - q.values[i]);
      var k := 0;
      while k < Size(q)
        invariant k <= Size(q)
        invariant delta == q.values[i] - q.values[j] + SwapGain(q, sel, j, i, k)
      {
        if k != i && k != j && solution[k] {
          delta := delta + (q.interactions[i][k] - q.interactions[j][k]);
        }
        k := k + 1;
      }
      SwapItems(q, sel, j, i);
      SwapSymmetric(sel, i, j);
    } else {
      assert Swapped(sel, i, j) == sel;
    }
  }

  /** The inner loop of one pass of `optimize_solution`: for `j` after `i`,
      take every exchange that fits and raises the value, and stop at once
      when the value reaches `min_value`.  Without a change, every pair
      `(i, j)` gains nothing. */
  method SwapRow(q: QChallenge, solution: array<bool>, i: nat, currentWeight: nat, currentValue: int)
      returns (weight: nat, value: int, improved: bool, done: bool)
    requires WellFormed(q) && solution.Length == Size(q) && i < Size(q)
    requires TotalWeight(q, solution[..]) == currentWeight <= q.maxWeight && TotalValue(q, solution[..]) == currentValue
    modifies solution
    ensures TotalWeight(q, solution[..]) == weight <= q.maxWeight && TotalValue(q, solution[..]) == value
    ensures Count(solution[..]) == Count(old(solution[..]))
    ensures improved ==> value > currentValue
    ensures done ==> improved && value >= q.minValue
    ensures !improved ==>
      solution[..] == old(solution[..]) && weight == currentWeight && value == currentValue &&
      forall j :: i < j < Size(q) ==> NoGain(q, solution[..], i, j)
  {
    weight, value, improved, done := currentWeight, currentValue, false, false;
    var j := i + 1;
    while j < Size(q)
      invariant i < j <= Size(q) || j == i + 1 == Size(q)
      invariant TotalWeight(q, solution[..]) == weight <= q.maxWeight && TotalValue(q, solution[..]) == value
      invariant Count(solution[..]) == Count(old(solution[..]))
      invariant improved ==> value > currentValue
      invariant !improved ==>
        solution[..] == old(solution[..]) && weight == currentWeight && value == currentValue &&
        forall j' :: i < j' < j ==> NoGain(q, solution[..], i, j')
    {
      ghost var sel := solution[..];
      if solution[i] != solution[j] {
        if solution[i] {
          SwapItems(q, sel, i, j);
        } else {
          SwapItems(q, sel, j, i);
          SwapSymmetric(sel, i, j);
        }
        var newWeight := if solution[i] then weight - q.weights[i] + q.weights[j] else weight + q.weights[i] - q.weights[j];
        if newWeight <= q.maxWeight {
          var delta := DeltaValue(q, solution, i, j);
          var newValue := value + delta;
          if newValue > value {
            value, weight := newValue, newWeight;
            solution[i], solution[j] := solution[j], solution[i];
            assert solution[..] == Swapped(sel, i, j);
            improved := true;
            if value >= q.minValue {
              done := true;
              return;
            }
          }
        }
      }
      j := j + 1;
    }
  }

  /** One pass of `optimize_solution` over every `i`; without a change the
      selection is locally optimal. */
  method SwapPass(q: QChallenge, solution: array<bool>, currentWeight: nat, currentValue: int)
      returns (weight: nat, value: int, improved: bool, done: bool)
    requires WellFormed(q) && solution.Length == Size(q)
    requires TotalWeight(q, solution[..]) == currentWeight <= q.maxWeight && TotalValue(q, solution[..]) == currentValue
    modifies solution
    ensures TotalWeight(q, solution[..]) == weight <= q.maxWeight && TotalValue(q, solution[..]) == value
    ensures Count(solution[..]) == Count(old(solution[..]))
    ensures improved ==> value > currentValue
    ensures done ==> improved && value >= q.minValue
    ensures !improved ==> value == currentValue && weight == currentWeight && LocallyOptimal(q, solution[..])
  {
    weight, value, improved, done := currentWeight, currentValue, false, false;
    var i := 0;
    while i < Size(q)
      invariant i <= Size(q)
      invariant TotalWeight(q, solution[..]) == weight <= q.maxWeight && TotalValue(q, solution[..]) == value
      invariant Count(solution[..]) == Count(old(solution[..]))
      invariant improved ==> value > currentValue
      invariant !improved ==>
        solution[..] == old(solution[..]) && weight == currentWeight && value == currentValue &&
        forall i', j :: 0 <= i' < i && i' < j < Size(q) ==> NoGain(q, solution[..], i', j)
    {
      var rowImproved;
      weight, value, rowImproved, done := SwapRow(q, solution, i, weight, value);
      improved := improved || rowImproved;
      if done {
        return;
      }
      i := i + 1;
    }
  }

  /** `optimize_solution`: passes until one changes nothing or the value
      reaches `min_value`.  `current_value` and `best_value` agree
      throughout; the result is the value of the final selection, which
      fits, keeps the number of chosen items, is worth at least the start,
      and is locally optimal unless it reached `min_value`. */
  method Optimize(q: QChallenge, solution: array<bool>, totalWeight: nat, totalValue: int) returns (bestValue: int)
    requires WellFormed(q) && solution.Length == Size(q)
    requires TotalWeight(q, solution[..]) == totalWeight <= q.maxWeight && TotalValue(q, solution[..]) == totalValue
    modifies solution
    ensures TotalWeight(q, solution[..]) <= q.maxWeight && TotalValue(q, solution[..]) == bestValue
    ensures bestValue >= totalValue
    ensures Count(solution[..]) == Count(old(solution[..]))
    ensures bestValue >= q.minValue || LocallyOptimal(q, solution[..])
  {
    bestValue := totalValue;
    var currentValue := bestValue;
    var currentWeight := totalWeight;
    var improved := true;
    ValueBelowCeiling(q, solution[..]);
    while improved
      invariant TotalWeight(q, solution[..]) == currentWeight <= q.maxWeight && TotalValue(q, solution[..]) == currentValue
      invariant currentValue == bestValue >= totalValue
      invariant Count(solution[..]) == Count(old(solution[..]))
      invariant bestValue <= Ceiling(q, Size(q))
      invariant !improved ==> LocallyOptimal(q, solution[..])
      decreases Ceiling(q, Size(q)) - bestValue + if improved then 1 else 0
    {
      var done;
      currentWeight, currentValue, improved, done := SwapPass(q, solution, currentWeight, currentValue);
      bestValue := currentValue;
      ValueBelowCeiling(q, solution[..]);
      if done {
        return;
      }
    }
  }

  /** `solve_challenge`: the greedy fill, the swap search when the greedy
      value is below `min_value`, and the chosen indices in increasing order
      when the value reaches `min_value`.  An answer fits and reaches
      `min_value`; no answer means the search ended at a locally optimal
      selection below it. */
  method Solve(q: QChallenge, order: seq<nat>) returns (r: K.Option<seq<nat>>)
    requires WellFormed(q) && IsOrder(q, order)
    ensures r.Some? ==> exists sel :: (|sel| == Size(q) && r.value == K.Picked(sel) &&
      TotalWeight(q, sel) <= q.maxWeight && TotalValue(q, sel) >= q.minValue)
    ensures r.Some? ==> K.StrictlyIncreasing(r.value)
    ensures r.None? ==> exists sel :: (|sel| == Size(q) && TotalWeight(q, sel) <= q.maxWeight &&
      TotalValue(q, sel) < q.minValue && LocallyOptimal(q, sel))
  {
    var solution, totalWeight, totalValue := GreedyFill(q, order);
    if totalValue < q.minValue {
      totalValue := Optimize(q, solution, totalWeight, totalValue);
    }
    ghost var sel := solution[..];
    if totalValue >= q.minValue {
      K.PickedIncreasing(sel);
      r := K.Some(K.Picked(solution[..]));
    } else {
      r := K.None;
    }
  }
}
