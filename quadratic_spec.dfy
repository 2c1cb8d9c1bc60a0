/** The quadratic knapsack of qknap_optimize and quadratic_greedy: each item
    has a weight and a value, and each pair of items an interaction value
    that counts when both are chosen.  A selection is one flag per item.
    Interactions are symmetric with nothing on the diagonal, as both
    solvers' running totals take them to be. */
module QuadraticSpec {
  import opened KnapsackSpec

  datatype QChallenge = QChallenge(weights: seq<nat>, values: seq<nat>, interactions: seq<seq<int>>,
                                   maxWeight: nat, minValue: nat)

  function Size(q: QChallenge): nat { |q.weights| }

  /** One value and one row of interactions per item, no weightless item,
      symmetric interactions and a zero diagonal. */
  predicate WellFormed(q: QChallenge) {
    |q.values| == |q.weights| && |q.interactions| == |q.weights| &&
    (forall a :: 0 <= a < |q.weights| ==>
      |q.interactions[a]| == |q.weights| && q.weights[a] >= 1 && q.interactions[a][a] == 0) &&
    (forall a, b :: 0 <= a < |q.weights| && 0 <= b < |q.weights| ==> q.interactions[a][b] == q.interactions[b][a])
  }

  /** `order` lists every item exactly once: the result of a sort of 0..n. */
  predicate IsOrder(q: QChallenge, order: seq<nat>) {
    |order| == Size(q) && (forall k :: 0 <= k < |order| ==> order[k] < Size(q)) && Distinct(order)
  }

  /** The interaction of item `x` with the flagged items among the first
      `m`, other than `x` itself. */
  function Link(q: QChallenge, sel: seq<bool>, x: nat, m: nat): int
    requires WellFormed(q) && x < Size(q) && m <= |sel| <= Size(q)
    decreases m
  {
    if m == 0 then 0
    else Link(q, sel, x, m - 1) + if sel[m - 1] && m - 1 != x then q.interactions[x][m - 1] else 0
  }

  /** The value of the flagged items among the first `m`: each one's own
      value plus its interaction with the flagged items before it, so each
      chosen pair counts once. */
  function Worth(q: QChallenge, sel: seq<bool>, m: nat): int
    requires WellFormed(q) && m <= |sel| <= Size(q)
    decreases m
  {
    if m == 0 then 0
    else Worth(q, sel, m - 1) + if sel[m - 1] then q.values[m - 1] + Link(q, sel, m - 1, m - 1) else 0
  }

  function TotalValue(q: QChallenge, sel: seq<bool>): int
    requires WellFormed(q) && |sel| == Size(q)
  {
    Worth(q, sel, |sel|)
  }

  function TotalWeight(q: QChallenge, sel: seq<bool>): nat
    requires |sel| == Size(q)
  {
    SumOver(q.weights, Picked(sel))
  }

  /** The number of chosen items. */
  function Count(sel: seq<bool>): nat {
    |Picked(sel)|
  }

  /** `sel` with the flags of `i` and `j` exchanged (`solution.swap(i, j)`). */
  function Swapped(sel: seq<bool>, i: nat, j: nat): (s: seq<bool>)
    requires i < |sel| && j < |sel|
    ensures |s| == |sel| && s[i] == sel[j] && s[j] == sel[i]
    ensures forall k :: 0 <= k < |sel| && k != i && k != j ==> s[k] == sel[k]
  {
    sel[i := sel[j]][j := sel[i]]
  }

  /** The interaction gained by trading chosen `i` for unchosen `j`, summed
      over the other flagged items among the first `m`. */
  function SwapGain(q: QChallenge, sel: seq<bool>, i: nat, j: nat, m: nat): int
    requires WellFormed(q) && i < Size(q) && j < Size(q) && m <= |sel| <= Size(q)
    decreases m
  {
    if m == 0 then 0
    else
      var k := m - 1;
      SwapGain(q, sel, i, j, k) + if sel[k] && k != i && k != j then q.interactions[j][k] - q.interactions[i][k] else 0
  }

  /** Swapping the flags of `i` and `j` either changes nothing, or does not
      fit, or does not raise the value. */
  predicate NoGain(q: QChallenge, sel: seq<bool>, i: nat, j: nat)
    requires WellFormed(q) && |sel| == Size(q) && i < |sel| && j < |sel|
  {
    sel[i] != sel[j] && TotalWeight(q, Swapped(sel, i, j)) <= q.maxWeight ==>
      TotalValue(q, Swapped(sel, i, j)) <= TotalValue(q, sel)
  }

  /** No swap of two differently flagged items that still fits raises the
      value: where a full swap pass ends without a change. */
  predicate LocallyOptimal(q: QChallenge, sel: seq<bool>)
    requires WellFormed(q) && |sel| == Size(q)
  {
    forall i, j :: 0 <= i < j < |sel| ==> NoGain(q, sel, i, j)
  }

  lemma {:induction false} WorthNone(q: QChallenge, sel: seq<bool>, m: nat)
    requires WellFormed(q) && m <= |sel| == Size(q) && forall k :: 0 <= k < |sel| ==> !sel[k]
    ensures Worth(q, sel, m) == 0
    decreases m
  {
    if m > 0 {
      WorthNone(q, sel, m - 1);
    }
  }

  /** The empty selection weighs nothing, is worth nothing and counts no item. */
  lemma NothingChosen(q: QChallenge, sel: seq<bool>)
    requires WellFormed(q) && |sel| == Size(q) && forall k :: 0 <= k < |sel| ==> !sel[k]
    ensures TotalValue(q, sel) == 0 && TotalWeight(q, sel) == 0 && Count(sel) == 0
  {
    WorthNone(q, sel, |sel|);
    PickedNone(sel);
  }

  /** A trade of a chosen item for an unchosen one is the same swap read
      from either side, so ruling out every such trade is local optimality. */
  lemma TradesSuffice(q: QChallenge, sel: seq<bool>)
    requires WellFormed(q) && |sel| == Size(q)
    requires forall i, j :: 0 <= i < |sel| && 0 <= j < |sel| && i != j && sel[i] && !sel[j] ==> NoGain(q, sel, i, j)
    ensures LocallyOptimal(q, sel)
  {
    forall i, j | 0 <= i < j < |sel| ensures NoGain(q, sel, i, j) {
      if !sel[i] && sel[j] {
        assert NoGain(q, sel, j, i);
        SwapSymmetric(sel, i, j);
      }
    }
  }

  // ---------------------------------------------------------------------------
  // Adding an item.

  lemma {:induction false} LinkFlip(q: QChallenge, sel: seq<bool>, x: nat, y: nat, m: nat)
    requires WellFormed(q) && |sel| == Size(q) && x < |sel| && y < |sel| && m <= |sel| && !sel[x]
    ensures Link(q, sel[x := true], y, m) == Link(q, sel, y, m) + if x < m && x != y then q.interactions[y][x] else 0
    decreases m
  {
    if m > 0 {
      LinkFlip(q, sel, x, y, m - 1);
    }
  }

  lemma {:induction false} WorthAdd(q: QChallenge, sel: seq<bool>, x: nat, m: nat)
    requires WellFormed(q) && |sel| == Size(q) && x < |sel| && m <= |sel| && !sel[x]
    ensures Worth(q, sel[x := true], m) == Worth(q, sel, m) + if x < m then q.values[x] + Link(q, sel, x, m) else 0
    decreases m
  {
    if m > 0 {
      var t := m - 1;
      WorthAdd(q, sel, x, t);
      LinkFlip(q, sel, x, t, t);
    }
  }

  /** Choosing an unchosen item adds its weight, its value and its
      interaction with every chosen item. */
  lemma AddItem(q: QChallenge, sel: seq<bool>, x: nat)
    requires WellFormed(q) && |sel| == Size(q) && x < |sel| && !sel[x]
    ensures TotalValue(q, sel[x := true]) == TotalValue(q, sel) + q.values[x] + Link(q, sel, x, |sel|)
    ensures TotalWeight(q, sel[x := true]) == TotalWeight(q, sel) + q.weights[x]
    ensures Count(sel[x := true]) == Count(sel) + 1
  {
    WorthAdd(q, sel, x, |sel|);
    PickedSet(q.weights, sel, x);
    PickedCount(sel, x);
  }

  lemma {:induction false} PickedCount(sel: seq<bool>, x: nat)
    requires x < |sel| && !sel[x]
    ensures |Picked(sel[x := true])| == |Picked(sel)| + 1
    decreases |sel|
  {
    var m := |sel| - 1;
    var sel' := sel[x := true];
    if x == m {
      assert sel'[..m] == sel[..m];
    } else {
      assert sel'[..m] == sel[..m][x := true];
      PickedCount(sel[..m], x);
    }
  }

  // ---------------------------------------------------------------------------
  // Swapping a chosen item for an unchosen one.

  lemma {:induction false} GainSplit(q: QChallenge, sel: seq<bool>, i: nat, j: nat, m: nat)
    requires WellFormed(q) && |sel| == Size(q) && i < |sel| && j < |sel| && i != j && m <= |sel|
    requires sel[i] && !sel[j]
    ensures SwapGain(q, sel, i, j, m) == Link(q, sel[i := false], j, m) - Link(q, sel[i := false], i, m)
    decreases m
  {
    if m > 0 {
      GainSplit(q, sel, i, j, m - 1);
    }
  }

  /** Trading chosen `i` for unchosen `j` changes the value by the values'
      difference plus the interaction gained, the weight by the weights'
      difference, and keeps the count. */
  lemma SwapItems(q: QChallenge, sel: seq<bool>, i: nat, j: nat)
    requires WellFormed(q) && |sel| == Size(q) && i < |sel| && j < |sel| && sel[i] && !sel[j]
    ensures TotalValue(q, Swapped(sel, i, j)) ==
      TotalValue(q, sel) + q.values[j] - q.values[i] + SwapGain(q, sel, i, j, |sel|)
    ensures TotalWeight(q, Swapped(sel, i, j)) + q.weights[i] == TotalWeight(q, sel) + q.weights[j]
    ensures Count(Swapped(sel, i, j)) == Count(sel)
  {
    var s0 := sel[i := false];
    assert s0[i := true] == sel;
    assert s0[j := true] == Swapped(sel, i, j);
    AddItem(q, s0, i);
    AddItem(q, s0, j);
    GainSplit(q, sel, i, j, |sel|);
  }

  lemma SwapSymmetric(sel: seq<bool>, i: nat, j: nat)
    requires i < |sel| && j < |sel|
    ensures Swapped(sel, i, j) == Swapped(sel, j, i)
  {
  }

  // ---------------------------------------------------------------------------
  // A ceiling on the value, which the swap searches climb towards.

  function AbsRow(q: QChallenge, x: nat, m: nat): nat
    requires WellFormed(q) && x < Size(q) && m <= Size(q)
    decreases m
  {
    if m == 0 then 0
    else
      var a := q.interactions[x][m - 1];
      AbsRow(q, x, m - 1) + if a < 0 then -a else a
  }

  /** Every value plus every interaction in absolute value, over the first `m` items. */
  function Ceiling(q: QChallenge, m: nat): nat
    requires WellFormed(q) && m <= Size(q)
    decreases m
  {
    if m == 0 then 0 else Ceiling(q, m - 1) + q.values[m - 1] + AbsRow(q, m - 1, m - 1)
  }

  lemma {:induction false} LinkBelowAbs(q: QChallenge, sel: seq<bool>, x: nat, m: nat)
    requires WellFormed(q) && x < Size(q) && m <= |sel| == Size(q)
    ensures Link(q, sel, x, m) <= AbsRow(q, x, m)
    decreases m
  {
    if m > 0 {
      LinkBelowAbs(q, sel, x, m - 1);
    }
  }

  lemma {:induction false} WorthBelowCeiling(q: QChallenge, sel: seq<bool>, m: nat)
    requires WellFormed(q) && m <= |sel| == Size(q)
    ensures Worth(q, sel, m) <= Ceiling(q, m)
    decreases m
  {
    if m > 0 {
      WorthBelowCeiling(q, sel, m - 1);
      LinkBelowAbs(q, sel, m - 1, m - 1);
    }
  }

  /** No selection is worth more than the ceiling. */
  lemma ValueBelowCeiling(q: QChallenge, sel: seq<bool>)
    requires WellFormed(q) && |sel| == Size(q)
    ensures TotalValue(q, sel) <= Ceiling(q, Size(q))
  {
    WorthBelowCeiling(q, sel, |sel|);
  }
}
