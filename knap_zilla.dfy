/** tig-algorithms knapsack/knap_zilla: depth-first branch and bound over the
    items in float ratio order (any arrangement, the `order` argument).  The
    search keeps the current selection as a growing list (push before the
    include branch, pop after it) and copies it into the best selection when
    its value beats the best so far and reaches `min_value`.  The float part
    of the bound, `(ratio * remaining_weight) as u32`, is the opaque `part`;
    whenever it bounds the best completion the search is exact
    (`SoundPart`). */
module KnapZilla {
  import opened KnapsackSpec

  /** `part` is a sound bound: at every node the greedy fill plus the part of
      the first misfit is at least the best completion. */
  ghost predicate SoundPart(c: Challenge, order: seq<nat>, part: (nat, nat) -> nat)
    requires WellFormed(c) && InRange(c, order)
  {
    forall i: nat, r: nat {:trigger PartBound(c, order, i, r, part)} ::
      i <= |order| ==> PartBound(c, order, i, r, part) >= BestOf(c, order[i..], r)
  }

  /** The bound loop of `branch_and_bound`: `current_value` plus whole items
      from `index` while they fit into `max_weight - current_weight`, plus
      the part of the first that does not. */
  method Bound(c: Challenge, order: seq<nat>, part: (nat, nat) -> nat, index: nat, currentWeight: nat, currentValue: nat)
      returns (upperBound: nat)
    requires WellFormed(c) && InRange(c, order) && index <= |order| && currentWeight <= c.maxWeight
    ensures upperBound == currentValue + PartBound(c, order, index, c.maxWeight - currentWeight, part)
    ensures SoundPart(c, order, part) ==>
      upperBound >= currentValue + BestOf(c, order[index..], c.maxWeight - currentWeight)
  {
    upperBound := currentValue;
    var remaining: nat := c.maxWeight - currentWeight;
    var j := index;
    while j < |order|
      invariant index <= j <= |order|
      invariant currentValue + PartBound(c, order, index, c.maxWeight - currentWeight, part) ==
        upperBound + PartBound(c, order, j, remaining, part)
    {
      var x := order[j];
      PartStep(c, order, j, remaining, part);
      if c.weights[x] <= remaining {
        upperBound := upperBound + c.values[x];
        remaining := remaining - c.weights[x];
      } else {
        upperBound := upperBound + part(x, remaining);
        break;
      }
      j := j + 1;
    }
  }

  /** The values `branch_and_bound` shares through `&mut`: the best value and
      selection so far, and the selection along the current path. */
  class Search {
    const c: Challenge
    const order: seq<nat>
    const part: (nat, nat) -> nat
    var bestValue: nat
    var bestSolution: seq<nat>
    var currentSolution: seq<nat>

    /** The best selection is feasible and worth `bestValue`; once set it
        reaches `min_value`. */
    predicate Valid()
      reads this
    {
      WellFormed(c) && IsOrder(c, order) &&
      Feasible(c, bestSolution) && Value(c, bestSolution) == bestValue &&
      (bestSolution == [] || bestValue >= c.minValue)
    }

    /** At node `(index, weight, value)` the current selection is a set of
        items from positions before `index` weighing `weight` and worth
        `value`, within the capacity. */
    predicate Path(index: nat, weight: nat, value: nat)
      reads this
      requires Valid()
    {
      index <= |order| && InRange(c, currentSolution) && Distinct(currentSolution) &&
      (forall y :: y in currentSolution ==> y in order[..index]) &&
      Weight(c, currentSolution) == weight && Value(c, currentSolution) == value &&
      weight <= c.maxWeight
    }

    constructor(c: Challenge, order: seq<nat>, part: (nat, nat) -> nat)
      requires WellFormed(c) && IsOrder(c, order)
      ensures this.c == c && this.order == order && this.part == part
      ensures Valid() && Path(0, 0, 0)
      ensures bestValue == 0 && bestSolution == [] && currentSolution == []
    {
      this.c := c;
      this.order := order;
      this.part := part;
      bestValue := 0;
      bestSolution := [];
      currentSolution := [];
    }

    /** The item at position `index` can join the path: it is not on it yet. */
    lemma Extend(index: nat, weight: nat, value: nat)
      requires Valid() && Path(index, weight, value) && index < |order|
      requires weight + c.weights[order[index]] <= c.maxWeight
      ensures InRange(c, currentSolution + [order[index]]) && Distinct(currentSolution + [order[index]])
      ensures forall y :: y in currentSolution + [order[index]] ==> y in order[..index + 1]
      ensures Weight(c, currentSolution + [order[index]]) == weight + c.weights[order[index]]
      ensures Value(c, currentSolution + [order[index]]) == value + c.values[order[index]]
    {
      var x := order[index];
      var s := currentSolution + [x];
      AppendItem(c, currentSolution, x);
      assert x !in currentSolution;
      forall a, b | 0 <= a < b < |s| ensures s[a] != s[b] {
        if b == |s| - 1 {
          assert s[a] in currentSolution;
        }
      }
      forall y | y in s ensures y in order[..index + 1] {
        if y in currentSolution {
          var k :| 0 <= k < index && order[..index][k] == y;
          assert order[..index + 1][k] == y;
        } else {
          assert order[..index + 1][index] == y;
        }
      }
    }

    /** A path through positions before `index` is also one through positions
        before `index + 1`. */
    lemma Skip(index: nat, weight: nat, value: nat)
      requires Valid() && Path(index, weight, value) && index < |order|
      ensures Path(index + 1, weight, value)
    {
      forall y | y in currentSolution ensures y in order[..index + 1] {
        var k :| 0 <= k < index && order[..index][k] == y;
        assert order[..index + 1][k] == y;
      }
    }

    /** `branch_and_bound` at node `(index, currentWeight, currentValue)`:
        the current selection is restored; the best value never falls and,
        when it stays, the best selection stays too; a current value reaching
        `min_value` is never beaten by the best; and with a sound `part` the
        best reaches every completion of the node that reaches `min_value`. */
    method BranchAndBound(index: nat, currentWeight: nat, currentValue: nat)
      requires Valid() && Path(index, currentWeight, currentValue)
      modifies this
      ensures Valid()
      ensures currentSolution == old(currentSolution)
      ensures bestValue >= old(bestValue)
      ensures bestValue == old(bestValue) ==> bestSolution == old(bestSolution)
      ensures currentValue >= c.minValue ==> bestValue >= currentValue
      ensures SoundPart(c, order, part) ==>
        (currentValue + BestOf(c, order[index..], c.maxWeight - currentWeight) >= c.minValue ==>
         bestValue >= currentValue + BestOf(c, order[index..], c.maxWeight - currentWeight))
      decreases |order| - index, 2
    {
      if currentValue > bestValue && currentValue >= c.minValue {
        bestValue := currentValue;
        bestSolution := currentSolution;
      }
      if index >= |order| {
        assert order[index..] == [];
        assert BestOf(c, order[index..], c.maxWeight - currentWeight) == 0;
        return;
      }
      var upperBound := Bound(c, order, part, index, currentWeight, currentValue);
      if upperBound <= bestValue || upperBound < c.minValue {
        return;
      }
      Descend(index, currentWeight, currentValue);
    }

    /** The two descents from a node that was not pruned: with the item at
        `index` when it fits, then without it. */
    method Descend(index: nat, currentWeight: nat, currentValue: nat)
      requires Valid() && Path(index, currentWeight, currentValue) && index < |order|
      modifies this
      ensures Valid()
      ensures currentSolution == old(currentSolution)
      ensures bestValue >= old(bestValue)
      ensures bestValue == old(bestValue) ==> bestSolution == old(bestSolution)
      ensures SoundPart(c, order, part) ==>
        (currentValue + BestOf(c, order[index..], c.maxWeight - currentWeight) >= c.minValue ==>
         bestValue >= currentValue + BestOf(c, order[index..], c.maxWeight - currentWeight))
      decreases |order| - index, 1
    {
      var x := order[index];
      ghost var r := c.maxWeight - currentWeight;
      ghost var reached := bestValue;
      ghost var fits := currentWeight + c.weights[x] <= c.maxWeight;
      ghost var take := if fits then currentValue + c.values[x] + BestOf(c, order[index + 1..], r - c.weights[x]) else 0;
      ghost var skip := currentValue + BestOf(c, order[index + 1..], r);
      assert currentValue + BestOf(c, order[index..], r) == if fits then Max(skip, take) else skip by {
        FrontChoice(c, order, index, r);
      }
      if currentWeight + c.weights[x] <= c.maxWeight {
        Include(index, currentWeight, currentValue);
        reached := bestValue;
      }
      Skip(index, currentWeight, currentValue);
      BranchAndBound(index + 1, currentWeight, currentValue);
      assert bestValue >= reached;
    }

    /** The include branch: push the item at `index`, search below, pop it. */
    method Include(index: nat, currentWeight: nat, currentValue: nat)
      requires Valid() && Path(index, currentWeight, currentValue) && index < |order|
      requires currentWeight + c.weights[order[index]] <= c.maxWeight
      modifies this
      ensures Valid()
      ensures currentSolution == old(currentSolution)
      ensures bestValue >= old(bestValue)
      ensures bestValue == old(bestValue) ==> bestSolution == old(bestSolution)
      ensures SoundPart(c, order, part) ==>
        (currentValue + c.values[order[index]] +
           BestOf(c, order[index + 1..], c.maxWeight - currentWeight - c.weights[order[index]]) >= c.minValue ==>
         bestValue >= currentValue + c.values[order[index]] +
           BestOf(c, order[index + 1..], c.maxWeight - currentWeight - c.weights[order[index]]))
      decreases |order| - index, 0
    {
      var x := order[index];
      ghost var path := currentSolution;
      Extend(index, currentWeight, currentValue);
      currentSolution := currentSolution + [x];
      BranchAndBound(index + 1, currentWeight + c.weights[x], currentValue + c.values[x]);
      currentSolution := currentSolution[..|currentSolution| - 1];
      assert currentSolution == path;
    }
  }

  /** `solve_challenge`: the search from the root with nothing chosen; the
      best selection when its value reaches `min_value`.  Any answer is
      feasible and reaches `min_value`; with a sound `part` the answer
      exists exactly when the optimum reaches `min_value`, and is optimal. */
  method Solve(c: Challenge, order: seq<nat>, part: (nat, nat) -> nat) returns (r: Option<seq<nat>>)
    requires WellFormed(c) && IsOrder(c, order)
    ensures r.Some? ==> Feasible(c, r.value) && Value(c, r.value) >= c.minValue
    ensures SoundPart(c, order, part) ==>
      (r.None? <==> Optimum(c) < c.minValue) && (r.Some? ==> Value(c, r.value) == Optimum(c))
  {
    var search := new Search(c, order, part);
    search.BranchAndBound(0, 0, 0);
    assert order[0..] == order;
    OrderReachesOptimum(c, order, c.maxWeight);
    forall y | y in search.bestSolution ensures y in Range(NumItems(c)) {
      assert Range(NumItems(c))[y] == y;
    }
    BestOfIsOptimal(c, Range(NumItems(c)), c.maxWeight, search.bestSolution);
    if search.bestValue >= c.minValue {
      r := Some(search.bestSolution);
    } else {
      r := None;
    }
  }
}
