/** tig-algorithms vehicle_routing/cw_test_wasm: the Clarke-Wright savings
    heuristic.  Every customer starts on a route of its own; the savings of
    all customer pairs are taken from the largest down, and each pair whose
    nodes are the ends of two different routes joins those routes end to end
    when their demands together fit the vehicle capacity.  Each route is
    kept under both of its end nodes (`paths`, `path_demands`); the routes
    are emitted from the slot of their first node, wrapped in depot visits. */
module CwTestWasm {
  datatype Option<T> = None | Some(value: T)

  /** Node 0 is the depot; nodes 1..numNodes-1 are the customers. */
  datatype Challenge = Challenge(distance: seq<seq<int>>, demands: seq<nat>, maxCapacity: int, numNodes: nat)

  predicate WellFormed(c: Challenge) {
    c.numNodes >= 1 && |c.distance| == c.numNodes && |c.demands| == c.numNodes &&
    forall a :: 0 <= a < c.numNodes ==> |c.distance[a]| == c.numNodes
  }

  predicate Distinct(s: seq<nat>) {
    forall a, b :: 0 <= a < b < |s| ==> s[a] != s[b]
  }

  // ---------------------------------------------------------------------------
  // Savings.

  /** A saving with the pair of customers it joins. */
  datatype Saving = Saving(saving: int, v1: nat, v2: nat)

  /** What serving `v1` and `v2` on one route saves over two depot round
      trips. */
  function SavingOf(c: Challenge, v1: nat, v2: nat): int
    requires WellFormed(c) && v1 < c.numNodes && v2 < c.numNodes
  {
    c.distance[v1][0] + c.distance[0][v2] - c.distance[v1][v2]
  }

  /** A saving of a pair of customers `v1 < v2`, at its value. */
  predicate ValidSaving(c: Challenge, s: Saving)
    requires WellFormed(c)
  {
    1 <= s.v1 < s.v2 < c.numNodes && s.saving == SavingOf(c, s.v1, s.v2)
  }

  /** The savings of `(v1, v2)`, `(v1, v2 + 1)`, … */
  function PairsFrom(c: Challenge, v1: nat, v2: nat): seq<Saving>
    requires WellFormed(c) && v1 < c.numNodes
    decreases c.numNodes - v2
  {
    if v2 >= c.numNodes then [] else [Saving(SavingOf(c, v1, v2), v1, v2)] + PairsFrom(c, v1, v2 + 1)
  }

  /** The savings of every pair whose first node is `v1` or later. */
  function RowsFrom(c: Challenge, v1: nat): seq<Saving>
    requires WellFormed(c)
    decreases c.numNodes - v1
  {
    if v1 >= c.numNodes then [] else PairsFrom(c, v1, v1 + 1) + RowsFrom(c, v1 + 1)
  }

  /** The savings list in the order it is built. */
  function SavingsList(c: Challenge): seq<Saving>
    requires WellFormed(c)
  {
    RowsFrom(c, 1)
  }

  /** Pair `(a.v1, a.v2)` comes before `(b.v1, b.v2)` in row order. */
  predicate RowBefore(a: Saving, b: Saving) {
    a.v1 < b.v1 || (a.v1 == b.v1 && a.v2 < b.v2)
  }

  lemma {:induction false} PairsFromMembers(c: Challenge, v1: nat, v2: nat)
    requires WellFormed(c) && v1 < c.numNodes
    ensures forall s :: s in PairsFrom(c, v1, v2) <==>
      s.v1 == v1 && v2 <= s.v2 < c.numNodes && s.saving == SavingOf(c, v1, s.v2)
    ensures forall a, b :: 0 <= a < b < |PairsFrom(c, v1, v2)| ==>
      PairsFrom(c, v1, v2)[a].v1 == v1 && PairsFrom(c, v1, v2)[a].v2 < PairsFrom(c, v1, v2)[b].v2
    decreases c.numNodes - v2
  {
    if v2 < c.numNodes {
      PairsFromMembers(c, v1, v2 + 1);
      var p, tail := PairsFrom(c, v1, v2), PairsFrom(c, v1, v2 + 1);
      assert p == [Saving(SavingOf(c, v1, v2), v1, v2)] + tail;
      forall a, b | 0 <= a < b < |p| ensures p[a].v1 == v1 && p[a].v2 < p[b].v2 {
        assert p[b] == tail[b - 1] && p[b] in tail;
        if a > 0 {
          assert p[a] == tail[a - 1];
        }
      }
      assert forall a, b :: 0 <= a < b < |p| ==> p[a].v1 == v1 && p[a].v2 < p[b].v2;
    } else {
      assert PairsFrom(c, v1, v2) == [];
    }
  }

  lemma {:induction false} RowsFromMembers(c: Challenge, v1: nat)
    requires WellFormed(c)
    ensures forall s :: s in RowsFrom(c, v1) <==> v1 <= s.v1 < s.v2 < c.numNodes && s.saving == SavingOf(c, s.v1, s.v2)
    ensures forall a, b :: 0 <= a < b < |RowsFrom(c, v1)| ==> RowBefore(RowsFrom(c, v1)[a], RowsFrom(c, v1)[b])
    decreases c.numNodes - v1
  {
    if v1 < c.numNodes {
      RowsFromMembers(c, v1 + 1);
      PairsFromMembers(c, v1, v1 + 1);
      var head, tail := PairsFrom(c, v1, v1 + 1), RowsFrom(c, v1 + 1);
      var r := RowsFrom(c, v1);
      assert r == head + tail;
      forall a, b | 0 <= a < b < |r| ensures RowBefore(r[a], r[b]) {
        if b < |head| {
          assert r[a] == head[a] && r[b] == head[b];
        } else if a < |head| {
          assert r[a] == head[a] && r[a] in head && r[b] == tail[b - |head|] && r[b] in tail;
        } else {
          assert r[a] == tail[a - |head|] && r[b] == tail[b - |head|];
        }
      }
    }
  }

  /** The savings list holds exactly the savings of the customer pairs, each
      once, in row order. */
  lemma SavingsListExact(c: Challenge)
    requires WellFormed(c)
    ensures forall s :: s in SavingsList(c) <==> ValidSaving(c, s)
    ensures forall a, b :: 0 <= a < b < |SavingsList(c)| ==> RowBefore(SavingsList(c)[a], SavingsList(c)[b])
  {
    RowsFromMembers(c, 1);
  }

  /** Moving one saving from the front of the pending pairs to the end of
      the list built so far leaves the whole unchanged. */
  lemma Regroup(built: seq<Saving>, s: Saving, pairs: seq<Saving>, rest: seq<Saving>)
    ensures built + [s] + pairs + rest == built + ([s] + pairs) + rest
  {
  }

  /** The double loop that builds `values`: one saving for each pair of
      customers `v1 < v2`. */
  method Savings(c: Challenge) returns (values: seq<Saving>)
    requires WellFormed(c)
    ensures values == SavingsList(c)
    ensures forall s :: s in values <==> ValidSaving(c, s)
  {
    var n := c.numNodes;
    values := [];
    var v1 := 1;
    while v1 < n
      invariant 1 <= v1 <= n
      invariant values + RowsFrom(c, v1) == RowsFrom(c, 1)
    {
      var v2 := v1 + 1;
      while v2 < n
        invariant v1 + 1 <= v2 <= n
        invariant values + PairsFrom(c, v1, v2) + RowsFrom(c, v1 + 1) == RowsFrom(c, 1)
      {
        var saving := c.distance[v1][0] + c.distance[0][v2] - c.distance[v1][v2];
        ghost var pairs, rest := PairsFrom(c, v1, v2 + 1), RowsFrom(c, v1 + 1);
        assert PairsFrom(c, v1, v2) == [Saving(saving, v1, v2)] + pairs;
        Regroup(values, Saving(saving, v1, v2), pairs, rest);
        values := values + [Saving(saving, v1, v2)];
        v2 := v2 + 1;
      }
      v1 := v1 + 1;
    }
    SavingsListExact(c);
  }

  /** `arrange` lists every position of `values` once, largest saving first:
      what the unstable sort by descending saving leaves. */
  predicate IsArrangement(values: seq<Saving>, arrange: seq<nat>) {
    |arrange| == |values| && (forall k :: 0 <= k < |arrange| ==> arrange[k] < |values|) && Distinct(arrange) &&
    forall a, b :: 0 <= a < b < |arrange| ==> values[arrange[a]].saving >= values[arrange[b]].saving
  }

  // ---------------------------------------------------------------------------
  // Routes.

  function Last(p: seq<nat>): nat
    requires p != []
  {
    p[|p| - 1]
  }

  predicate Endpoint(x: nat, p: seq<nat>) {
    p != [] && (p[0] == x || Last(p) == x)
  }

  /** Customers only, each at most once. */
  predicate Route(c: Challenge, p: seq<nat>) {
    p != [] && (forall k :: 0 <= k < |p| ==> 1 <= p[k] < c.numNodes) && Distinct(p)
  }

  /** The total demand of the customers on `p`. */
  function Load(c: Challenge, p: seq<nat>): nat
    requires WellFormed(c) && forall k :: 0 <= k < |p| ==> p[k] < c.numNodes
  {
    if p == [] then 0 else Load(c, p[..|p| - 1]) + c.demands[Last(p)]
  }

  /** `path.reverse()`. */
  function Reverse(p: seq<nat>): (r: seq<nat>)
    ensures |r| == |p| && forall k :: 0 <= k < |p| ==> r[k] == p[|p| - 1 - k]
  {
    seq(|p|, k requires 0 <= k < |p| => p[|p| - 1 - k])
  }

  /** The route of `v1` turned, if need be, so that it ends at `v1`. */
  function EndingAt(p: seq<nat>, v: nat): seq<nat>
    requires p != []
  {
    if p[0] == v then Reverse(p) else p
  }

  /** The route of `v2` turned, if need be, so that it starts at `v2`. */
  function StartingAt(p: seq<nat>, v: nat): seq<nat>
    requires p != []
  {
    if Last(p) == v then Reverse(p) else p
  }

  lemma {:induction false} LoadAppend(c: Challenge, a: seq<nat>, b: seq<nat>)
    requires WellFormed(c) && (forall k :: 0 <= k < |a| ==> a[k] < c.numNodes) && forall k :: 0 <= k < |b| ==> b[k] < c.numNodes
    ensures Load(c, a + b) == Load(c, a) + Load(c, b)
    decreases |b|
  {
    if b != [] {
      var b' := b[..|b| - 1];
      assert (a + b)[..|a + b| - 1] == a + b';
      LoadAppend(c, a, b');
    } else {
      assert a + b == a;
    }
  }

  lemma {:induction false} LoadReverse(c: Challenge, p: seq<nat>)
    requires WellFormed(c) && forall k :: 0 <= k < |p| ==> p[k] < c.numNodes
    ensures Load(c, Reverse(p)) == Load(c, p)
    decreases |p|
  {
    if p != [] {
      var front := p[..|p| - 1];
      assert Reverse(p) == [Last(p)] + Reverse(front);
      LoadReverse(c, front);
      LoadAppend(c, [Last(p)], Reverse(front));
      assert [Last(p)][..0] == [];
    }
  }

  /** Turning a route to end (or start) at one of its ends keeps its
      customers and its load, and puts its other end at the far side. */
  lemma Orient(c: Challenge, p: seq<nat>, v: nat)
    requires WellFormed(c) && Route(c, p) && Endpoint(v, p)
    ensures Last(EndingAt(p, v)) == v && StartingAt(p, v)[0] == v
    ensures Route(c, EndingAt(p, v)) && Route(c, StartingAt(p, v))
    ensures Load(c, EndingAt(p, v)) == Load(c, p) == Load(c, StartingAt(p, v))
    ensures forall y :: y in EndingAt(p, v) <==> y in p
    ensures forall y :: y in StartingAt(p, v) <==> y in p
    ensures Endpoint(EndingAt(p, v)[0], p) && Endpoint(Last(StartingAt(p, v)), p)
  {
    LoadReverse(c, p);
    ReverseRoute(c, p);
  }

  lemma ReverseRoute(c: Challenge, p: seq<nat>)
    requires Route(c, p)
    ensures Route(c, Reverse(p)) && forall y :: y in Reverse(p) <==> y in p
  {
    var r := Reverse(p);
    forall y ensures y in r <==> y in p {
      if y in p {
        var k :| 0 <= k < |p| && p[k] == y;
        assert r[|p| - 1 - k] == y;
      }
    }
    forall a, b | 0 <= a < b < |r| ensures r[a] != r[b] {
      assert r[a] == p[|p| - 1 - a] && r[b] == p[|p| - 1 - b];
    }
  }

  // ---------------------------------------------------------------------------
  // The state of the merge loop.

  /** Every customer of `p` has `p` as its route. */
  ghost predicate Closed(routeOf: seq<seq<nat>>, p: seq<nat>) {
    forall y :: y in p ==> y < |routeOf| && routeOf[y] == p
  }

  /** Customer `x` lies on its route `routeOf[x]`, and every customer of
      that route has it as its route too. */
  ghost predicate Owns(c: Challenge, routeOf: seq<seq<nat>>, x: nat)
    requires x < |routeOf|
  {
    Route(c, routeOf[x]) && x in routeOf[x] && Closed(routeOf, routeOf[x])
  }

  /** `routeOf` partitions the customers into routes. */
  ghost predicate Partition(c: Challenge, routeOf: seq<seq<nat>>) {
    |routeOf| == c.numNodes && forall x :: 1 <= x < c.numNodes ==> Owns(c, routeOf, x)
  }

  /** Two customers on different routes: the routes share no customer. */
  lemma Apart(c: Challenge, routeOf: seq<seq<nat>>, x: nat, z: nat)
    requires Partition(c, routeOf) && 1 <= x < c.numNodes && 1 <= z < c.numNodes && routeOf[x] != routeOf[z]
    ensures forall y :: y in routeOf[x] ==> y !in routeOf[z]
  {
    assert Owns(c, routeOf, x) && Owns(c, routeOf, z);
  }

  /** Slot `x` of `paths` holds the route of `x` when `x` is one of its
      ends, and nothing otherwise. */
  ghost predicate TracksAt(c: Challenge, paths: seq<Option<seq<nat>>>, routeOf: seq<seq<nat>>, x: nat)
    requires |paths| == |routeOf| == c.numNodes && x < c.numNodes
  {
    paths[x] == if Endpoint(x, routeOf[x]) then Some(routeOf[x]) else None
  }

  /** `paths` holds each route under both of its ends and nothing elsewhere;
      the depot holds nothing. */
  ghost predicate Tracks(c: Challenge, paths: seq<Option<seq<nat>>>, routeOf: seq<seq<nat>>)
    requires WellFormed(c) && Partition(c, routeOf)
  {
    |paths| == c.numNodes && paths[0] == None &&
    forall x :: 1 <= x < c.numNodes ==> TracksAt(c, paths, routeOf, x)
  }

  /** Slot `x` of `path_demands` holds the load of the route of `x` when `x`
      is one of its ends, and that route, if it has more than one customer,
      fits the capacity. */
  ghost predicate LoadsAt(c: Challenge, demands: seq<nat>, routeOf: seq<seq<nat>>, x: nat)
    requires WellFormed(c) && Partition(c, routeOf) && |demands| == c.numNodes && 1 <= x < c.numNodes
  {
    assert Owns(c, routeOf, x);
    (Endpoint(x, routeOf[x]) ==> demands[x] == Load(c, routeOf[x])) &&
    (|routeOf[x]| > 1 ==> Load(c, routeOf[x]) <= c.maxCapacity)
  }

  /** `path_demands` holds each route's load under both of its ends, and a
      route of more than one customer fits the capacity. */
  ghost predicate Loads(c: Challenge, demands: seq<nat>, routeOf: seq<seq<nat>>)
    requires WellFormed(c) && Partition(c, routeOf)
  {
    |demands| == c.numNodes && forall x :: 1 <= x < c.numNodes ==> LoadsAt(c, demands, routeOf, x)
  }

  /** `new_path`: the route `p1` turned to end at `v1`, then the route `p2`
      turned to start at `v2`. */
  function Join(p1: seq<nat>, p2: seq<nat>, v1: nat, v2: nat): seq<nat>
    requires p1 != [] && p2 != []
  {
    EndingAt(p1, v1) + StartingAt(p2, v2)
  }

  /** Every customer of the two joined routes now lies on the joined one. */
  ghost function Reassigned(routeOf: seq<seq<nat>>, p1: seq<nat>, p2: seq<nat>, joined: seq<nat>): (r: seq<seq<nat>>)
    ensures |r| == |routeOf|
  {
    seq(|routeOf|, x requires 0 <= x < |routeOf| => if x in p1 || x in p2 then joined else routeOf[x])
  }

  /** `paths` after a join: the joined route under its two ends, nothing
      under the other ends of the two routes it joined. */
  function Relinked(paths: seq<Option<seq<nat>>>, p1: seq<nat>, p2: seq<nat>, joined: seq<nat>): (r: seq<Option<seq<nat>>>)
    requires joined != []
    ensures |r| == |paths|
  {
    seq(|paths|, x requires 0 <= x < |paths| =>
      if x == joined[0] || x == Last(joined) then Some(joined)
      else if Endpoint(x, p1) || Endpoint(x, p2) then None
      else paths[x])
  }

  /** `path_demands` after a join: the merged demand under the two ends of
      the joined route. */
  function Redemanded(demands: seq<nat>, joined: seq<nat>, merged: nat): (r: seq<nat>)
    requires joined != []
    ensures |r| == |demands|
  {
    seq(|demands|, x requires 0 <= x < |demands| =>
      if x == joined[0] || x == Last(joined) then merged else demands[x])
  }

  /** Two routes with no customer in common, one after the other, form a
      route with the customers of both and their loads added. */
  lemma ConcatRoute(c: Challenge, a: seq<nat>, b: seq<nat>)
    requires WellFormed(c) && Route(c, a) && Route(c, b) && forall y :: y in a ==> y !in b
    ensures Route(c, a + b)
    ensures forall y :: y in a + b <==> y in a || y in b
    ensures Load(c, a + b) == Load(c, a) + Load(c, b)
  {
    LoadAppend(c, a, b);
    var j := a + b;
    forall s, t | 0 <= s < t < |j| ensures j[s] != j[t] {
      if t < |a| {
        assert j[s] == a[s] && j[t] == a[t];
      } else if s >= |a| {
        assert j[s] == b[s - |a|] && j[t] == b[t - |a|];
      } else {
        assert j[s] == a[s] && j[s] in a && j[t] == b[t - |a|] && j[t] in b;
      }
    }
  }

  /** Joining two routes at their ends gives a route with the customers of
      both and their loads added, `v1` right before `v2`, that starts where
      the first did not end and ends where the second did not start. */
  lemma JoinedRoute(c: Challenge, p1: seq<nat>, p2: seq<nat>, v1: nat, v2: nat)
    requires WellFormed(c) && Route(c, p1) && Route(c, p2) && Endpoint(v1, p1) && Endpoint(v2, p2)
    requires forall y :: y in p1 ==> y !in p2
    ensures Route(c, Join(p1, p2, v1, v2))
    ensures forall y :: y in Join(p1, p2, v1, v2) <==> y in p1 || y in p2
    ensures Load(c, Join(p1, p2, v1, v2)) == Load(c, p1) + Load(c, p2)
    ensures Endpoint(Join(p1, p2, v1, v2)[0], p1) && Endpoint(Last(Join(p1, p2, v1, v2)), p2)
    ensures exists k :: 0 <= k < |Join(p1, p2, v1, v2)| - 1 && Join(p1, p2, v1, v2)[k] == v1 && Join(p1, p2, v1, v2)[k + 1] == v2
  {
    Orient(c, p1, v1);
    Orient(c, p2, v2);
    ConcatRoute(c, EndingAt(p1, v1), StartingAt(p2, v2));
    var k := |EndingAt(p1, v1)| - 1;
    assert Join(p1, p2, v1, v2)[k] == v1 && Join(p1, p2, v1, v2)[k + 1] == v2;
  }

  /** After a join every customer still lies on a route of its own: the
      joined one for the customers of the two routes, the old one for the
      rest. */
  lemma ReassignedOwns(c: Challenge, routeOf: seq<seq<nat>>, p1: seq<nat>, p2: seq<nat>, joined: seq<nat>, x: nat)
    requires WellFormed(c) && Partition(c, routeOf) && 1 <= x < c.numNodes
    requires Closed(routeOf, p1) && Closed(routeOf, p2)
    requires Route(c, joined) && forall y :: y in joined <==> y in p1 || y in p2
    ensures Owns(c, Reassigned(routeOf, p1, p2, joined), x)
  {
    var r := Reassigned(routeOf, p1, p2, joined);
    assert Owns(c, routeOf, x);
    if x in p1 || x in p2 {
      forall y | y in joined ensures y < |r| && r[y] == joined {
      }
    } else {
      forall y | y in routeOf[x] ensures y < |r| && r[y] == r[x] {
        assert routeOf[y] == routeOf[x];
      }
    }
  }

  /** Joining the routes of `v1` and `v2` gives a route that holds the
      customers of both, with `v1` right before `v2`, and leaves every other
      customer where it was. */
  ghost predicate Joins(c: Challenge, routeOf: seq<seq<nat>>, routeOf': seq<seq<nat>>, v1: nat, v2: nat)
    requires WellFormed(c) && |routeOf| == |routeOf'| == c.numNodes && 1 <= v1 < c.numNodes && 1 <= v2 < c.numNodes
    requires Route(c, routeOf[v1]) && Route(c, routeOf[v2])
  {
    routeOf'[v1] == routeOf'[v2] && Route(c, routeOf'[v1]) &&
    (exists k :: 0 <= k < |routeOf'[v1]| - 1 && routeOf'[v1][k] == v1 && routeOf'[v1][k + 1] == v2) &&
    (forall y :: y in routeOf'[v1] <==> y in routeOf[v1] || y in routeOf[v2]) &&
    Load(c, routeOf'[v1]) == Load(c, routeOf[v1]) + Load(c, routeOf[v2]) &&
    forall x :: 1 <= x < c.numNodes && x !in routeOf[v1] && x !in routeOf[v2] ==> routeOf'[x] == routeOf[x]
  }

  /** After a join the customers still partition into routes. */
  lemma JoinedPartition(c: Challenge, routeOf: seq<seq<nat>>, v1: nat, v2: nat, routeOf': seq<seq<nat>>)
    requires WellFormed(c) && Partition(c, routeOf) && 1 <= v1 < c.numNodes && 1 <= v2 < c.numNodes
    requires Endpoint(v1, routeOf[v1]) && Endpoint(v2, routeOf[v2]) && routeOf[v1] != routeOf[v2]
    requires routeOf' == Reassigned(routeOf, routeOf[v1], routeOf[v2], Join(routeOf[v1], routeOf[v2], v1, v2))
    ensures Partition(c, routeOf')
  {
    assert Owns(c, routeOf, v1) && Owns(c, routeOf, v2);
    var p1, p2 := routeOf[v1], routeOf[v2];
    Apart(c, routeOf, v1, v2);
    var j := Join(p1, p2, v1, v2);
    JoinedRoute(c, p1, p2, v1, v2);
    forall x | 1 <= x < c.numNodes ensures Owns(c, routeOf', x) {
      ReassignedOwns(c, routeOf, p1, p2, j, x);
    }
  }

  /** The join is the one `Joins` describes. */
  lemma JoinedJoins(c: Challenge, routeOf: seq<seq<nat>>, p1: seq<nat>, p2: seq<nat>, v1: nat, v2: nat,
                    joined: seq<nat>, routeOf': seq<seq<nat>>)
    requires WellFormed(c) && |routeOf| == c.numNodes && 1 <= v1 < c.numNodes && 1 <= v2 < c.numNodes
    requires routeOf[v1] == p1 && routeOf[v2] == p2 && Route(c, p1) && Route(c, p2) && v1 in p1 && v2 in p2
    requires Route(c, joined) && (forall y :: y in joined <==> y in p1 || y in p2)
    requires Load(c, joined) == Load(c, p1) + Load(c, p2)
    requires exists k :: 0 <= k < |joined| - 1 && joined[k] == v1 && joined[k + 1] == v2
    requires routeOf' == Reassigned(routeOf, p1, p2, joined)
    ensures Joins(c, routeOf, routeOf', v1, v2)
  {
    assert routeOf'[v1] == joined && routeOf'[v2] == joined;
    forall x | 1 <= x < c.numNodes && x !in p1 && x !in p2 ensures routeOf'[x] == routeOf[x] {
    }
  }

  /** After a join, `paths` holds the joined route under its two ends and
      every other route where it was. */
  lemma RelinkedTracks(c: Challenge, routeOf: seq<seq<nat>>, p1: seq<nat>, p2: seq<nat>, joined: seq<nat>,
                       paths: seq<Option<seq<nat>>>, routeOf': seq<seq<nat>>, paths': seq<Option<seq<nat>>>)
    requires WellFormed(c) && Partition(c, routeOf) && Tracks(c, paths, routeOf)
    requires Closed(routeOf, p1) && Closed(routeOf, p2) && p1 != [] && p2 != []
    requires Route(c, joined) && (forall y :: y in joined <==> y in p1 || y in p2) && joined[0] in p1 && Last(joined) in p2
    requires routeOf' == Reassigned(routeOf, p1, p2, joined) && Partition(c, routeOf')
    requires paths' == Relinked(paths, p1, p2, joined)
    ensures Tracks(c, paths', routeOf')
  {
    assert p1[0] in p1 && Last(p1) in p1 && p2[0] in p2 && Last(p2) in p2;
    forall x | 1 <= x < c.numNodes ensures TracksAt(c, paths', routeOf', x) {
      assert Owns(c, routeOf, x) && TracksAt(c, paths, routeOf, x);
    }
  }

  /** After a join, `path_demands` holds the joined route's load under its
      two ends, and the joined route fits the capacity. */
  lemma RedemandedLoads(c: Challenge, routeOf: seq<seq<nat>>, p1: seq<nat>, p2: seq<nat>, joined: seq<nat>,
                        demands: seq<nat>, merged: nat, routeOf': seq<seq<nat>>, demands': seq<nat>)
    requires WellFormed(c) && Partition(c, routeOf) && Loads(c, demands, routeOf)
    requires Closed(routeOf, p1) && Closed(routeOf, p2)
    requires Route(c, joined) && (forall y :: y in joined <==> y in p1 || y in p2)
    requires merged == Load(c, joined) <= c.maxCapacity
    requires routeOf' == Reassigned(routeOf, p1, p2, joined) && Partition(c, routeOf')
    requires demands' == Redemanded(demands, joined, merged)
    ensures Loads(c, demands', routeOf')
  {
    forall x | 1 <= x < c.numNodes ensures LoadsAt(c, demands', routeOf', x) {
      assert Owns(c, routeOf, x) && Owns(c, routeOf', x) && LoadsAt(c, demands, routeOf, x);
      assert joined[0] in joined && Last(joined) in joined;
    }
  }

  /** The whole effect of one join on the merge state. */
  lemma JoinedState(c: Challenge, routeOf: seq<seq<nat>>, v1: nat, v2: nat,
                    paths: seq<Option<seq<nat>>>, demands: seq<nat>, merged: nat,
                    routeOf': seq<seq<nat>>, paths': seq<Option<seq<nat>>>, demands': seq<nat>)
    requires WellFormed(c) && Partition(c, routeOf) && 1 <= v1 < c.numNodes && 1 <= v2 < c.numNodes
    requires Endpoint(v1, routeOf[v1]) && Endpoint(v2, routeOf[v2]) && routeOf[v1] != routeOf[v2]
    requires Tracks(c, paths, routeOf) && Loads(c, demands, routeOf)
    requires assert Owns(c, routeOf, v1) && Owns(c, routeOf, v2);
      merged == Load(c, routeOf[v1]) + Load(c, routeOf[v2]) <= c.maxCapacity
    requires routeOf' == Reassigned(routeOf, routeOf[v1], routeOf[v2], Join(routeOf[v1], routeOf[v2], v1, v2))
    requires paths' == Relinked(paths, routeOf[v1], routeOf[v2], Join(routeOf[v1], routeOf[v2], v1, v2))
    requires demands' == Redemanded(demands, Join(routeOf[v1], routeOf[v2], v1, v2), merged)
    ensures Partition(c, routeOf') && Tracks(c, paths', routeOf') && Loads(c, demands', routeOf')
    ensures assert Owns(c, routeOf, v1) && Owns(c, routeOf, v2); Joins(c, routeOf, routeOf', v1, v2)
  {
    assert Owns(c, routeOf, v1) && Owns(c, routeOf, v2);
    var p1, p2 := routeOf[v1], routeOf[v2];
    var j := Join(p1, p2, v1, v2);
    assert Joins(c, routeOf, routeOf', v1, v2) by {
      Apart(c, routeOf, v1, v2);
      JoinedRoute(c, p1, p2, v1, v2);
      JoinedJoins(c, routeOf, p1, p2, v1, v2, j, routeOf');
    }
    assert Partition(c, routeOf') by {
      JoinedPartition(c, routeOf, v1, v2, routeOf');
    }
    assert Tracks(c, paths', routeOf') by {
      Apart(c, routeOf, v1, v2);
      JoinedRoute(c, p1, p2, v1, v2);
      RelinkedTracks(c, routeOf, p1, p2, j, paths, routeOf', paths');
    }
    assert Loads(c, demands', routeOf') by {
      Apart(c, routeOf, v1, v2);
      JoinedRoute(c, p1, p2, v1, v2);
      assert merged == Load(c, j);
      RedemandedLoads(c, routeOf, p1, p2, j, demands, merged, routeOf', demands');
    }
  }

  // ---------------------------------------------------------------------------
  // Which merges happen.

  /** The routes before the merge loop: every customer on a route of its
      own. */
  ghost function Singletons(c: Challenge): (routeOf: seq<seq<nat>>)
    requires WellFormed(c)
    ensures Partition(c, routeOf)
  {
    seq(c.numNodes, i => [i])
  }

  /** The routes after the saving `(v1, v2)` is tried: the routes of `v1`
      and `v2` are joined, `v1` right before `v2`, when both nodes are
      route ends, the routes differ and their loads together fit the
      capacity; otherwise nothing changes. */
  ghost function MergeStep(c: Challenge, routeOf: seq<seq<nat>>, v1: nat, v2: nat): (r: seq<seq<nat>>)
    requires WellFormed(c) && Partition(c, routeOf) && 1 <= v1 < c.numNodes && 1 <= v2 < c.numNodes
    ensures Partition(c, r)
  {
    assert Owns(c, routeOf, v1) && Owns(c, routeOf, v2);
    if Endpoint(v1, routeOf[v1]) && Endpoint(v2, routeOf[v2]) && routeOf[v1] != routeOf[v2] &&
       Load(c, routeOf[v1]) + Load(c, routeOf[v2]) <= c.maxCapacity
    then
      var r := Reassigned(routeOf, routeOf[v1], routeOf[v2], Join(routeOf[v1], routeOf[v2], v1, v2));
      JoinedPartition(c, routeOf, v1, v2, r);
      r
    else
      routeOf
  }

  /** Every saving names two customers. */
  predicate Customers(c: Challenge, sorted: seq<Saving>) {
    forall k :: 0 <= k < |sorted| ==> 1 <= sorted[k].v1 < c.numNodes && 1 <= sorted[k].v2 < c.numNodes
  }

  /** The routes after the first `k` savings of `sorted` are tried in
      order. */
  ghost function MergedUpTo(c: Challenge, sorted: seq<Saving>, k: nat, routeOf: seq<seq<nat>>): (r: seq<seq<nat>>)
    requires WellFormed(c) && Customers(c, sorted) && k <= |sorted| && Partition(c, routeOf)
    ensures Partition(c, r)
  {
    if k == 0 then routeOf
    else MergeStep(c, MergedUpTo(c, sorted, k - 1, routeOf), sorted[k - 1].v1, sorted[k - 1].v2)
  }

  /** Trying savings only ever joins routes: two customers on one route
      are still on one route after any number of savings. */
  lemma {:induction false} StaysTogether(c: Challenge, sorted: seq<Saving>, k: nat, routeOf: seq<seq<nat>>, x: nat, y: nat)
    requires WellFormed(c) && Customers(c, sorted) && k <= |sorted| && Partition(c, routeOf)
    requires 1 <= x < c.numNodes && 1 <= y < c.numNodes && routeOf[x] == routeOf[y]
    ensures MergedUpTo(c, sorted, k, routeOf)[x] == MergedUpTo(c, sorted, k, routeOf)[y]
  {
    if k > 0 {
      StaysTogether(c, sorted, k - 1, routeOf, x, y);
      var prev := MergedUpTo(c, sorted, k - 1, routeOf);
      assert Owns(c, prev, x) && Owns(c, prev, y);
      assert Owns(c, prev, sorted[k - 1].v1) && Owns(c, prev, sorted[k - 1].v2);
    }
  }

  /** The number of savings before the first negative one. */
  function NonNegativePrefix(sorted: seq<Saving>): (n: nat)
    ensures n <= |sorted| && forall k :: 0 <= k < n ==> sorted[k].saving >= 0
    ensures n < |sorted| ==> sorted[n].saving < 0
  {
    if sorted == [] || sorted[0].saving < 0 then 0 else 1 + NonNegativePrefix(sorted[1..])
  }

  /** The savings in the order `arrange` puts them. */
  function Sorted(c: Challenge, arrange: seq<nat>): (sorted: seq<Saving>)
    requires WellFormed(c) && IsArrangement(SavingsList(c), arrange)
    ensures |sorted| == |arrange| && Customers(c, sorted)
    ensures forall a, b :: 0 <= a < b < |sorted| ==> sorted[a].saving >= sorted[b].saving
  {
    SavingsListExact(c);
    var values := SavingsList(c);
    assert forall k :: 0 <= k < |arrange| ==> values[arrange[k]] in values;
    seq(|arrange|, k requires 0 <= k < |arrange| => values[arrange[k]])
  }

  /** The routes the solver ends with: every customer starts alone, and the
      savings of `arrange` up to the first negative one are tried in
      order. */
  ghost function Clustered(c: Challenge, arrange: seq<nat>): (routeOf: seq<seq<nat>>)
    requires WellFormed(c) && IsArrangement(SavingsList(c), arrange)
    ensures Partition(c, routeOf)
  {
    MergedUpTo(c, Sorted(c, arrange), NonNegativePrefix(Sorted(c, arrange)), Singletons(c))
  }

  // ---------------------------------------------------------------------------
  // The merge loop.

  /** The writes of the merge body leave `paths` as `Relinked` says. */
  lemma RelinkedIs(paths: seq<Option<seq<nat>>>, p1: seq<nat>, p2: seq<nat>, v1: nat, v2: nat, joined: seq<nat>,
                   after: seq<Option<seq<nat>>>)
    requires Endpoint(v1, p1) && Endpoint(v2, p2) && joined != []
    requires v1 < |paths| && v2 < |paths| && p1[0] < |paths| && p2[0] < |paths| && Last(p1) < |paths| && Last(p2) < |paths|
    requires joined[0] < |paths| && Last(joined) < |paths|
    requires after == paths[v1 := None][v2 := None][p1[0] := None][p2[0] := None][Last(p1) := None][Last(p2) := None]
                           [joined[0] := Some(joined)][Last(joined) := Some(joined)]
    ensures after == Relinked(paths, p1, p2, joined)
  {
    var cleared := paths[v1 := None][v2 := None][p1[0] := None][p2[0] := None][Last(p1) := None][Last(p2) := None];
    forall x | 0 <= x < |paths| ensures cleared[x] == if Endpoint(x, p1) || Endpoint(x, p2) then None else paths[x] {
    }
    forall x | 0 <= x < |paths| ensures after[x] == Relinked(paths, p1, p2, joined)[x] {
    }
  }

  /** Where the merge body finds the two ends of the joined route. */
  lemma JoinEnds(p1: seq<nat>, p2: seq<nat>, v1: nat, v2: nat)
    requires p1 != [] && p2 != []
    ensures Join(p1, p2, v1, v2)[0] == if p1[0] == v1 then Last(p1) else p1[0]
    ensures Last(Join(p1, p2, v1, v2)) == if Last(p2) == v2 then p2[0] else Last(p2)
  {
  }

  /** The writes of the merge body leave `path_demands` as `Redemanded`
      says. */
  lemma RedemandedIs(demands: seq<nat>, joined: seq<nat>, merged: nat, after: seq<nat>)
    requires joined != [] && joined[0] < |demands| && Last(joined) < |demands|
    requires after == demands[joined[0] := merged][Last(joined) := merged]
    ensures after == Redemanded(demands, joined, merged)
  {
  }

  /** The join itself (the second half of the merge body): clear the slots
      of the ends of both routes, turn the first route to end at `v1` and
      the second to start at `v2`, and store the joined route and its demand
      under its two ends. */
  method Relink(paths: array<Option<seq<nat>>>, pathDemands: array<nat>, sxPath: seq<nat>, dxPath: seq<nat>,
                v1: nat, v2: nat, mergedDemand: nat)
    requires Endpoint(v1, sxPath) && Endpoint(v2, dxPath) && pathDemands.Length == paths.Length
    requires sxPath[0] < paths.Length && Last(sxPath) < paths.Length && dxPath[0] < paths.Length && Last(dxPath) < paths.Length
    modifies paths, pathDemands
    ensures paths[..] == Relinked(old(paths[..]), sxPath, dxPath, Join(sxPath, dxPath, v1, v2))
    ensures pathDemands[..] == Redemanded(old(pathDemands[..]), Join(sxPath, dxPath, v1, v2), mergedDemand)
  {
    ghost var j := Join(sxPath, dxPath, v1, v2);
    ghost var p1, p2 := sxPath, dxPath;
    var sxPath, dxPath := sxPath, dxPath;
    var sxStartfork := sxPath[0];
    var dxStartfork := dxPath[0];
    var sxEndfork := sxPath[|sxPath| - 1];
    var dxEndfork := dxPath[|dxPath| - 1];
    Put(paths, v1, None);
    Put(paths, v2, None);
    Put(paths, sxStartfork, None);
    Put(paths, dxStartfork, None);
    Put(paths, sxEndfork, None);
    Put(paths, dxEndfork, None);
    if sxStartfork == v1 {
      sxPath := Reverse(sxPath);
      sxStartfork := sxEndfork;
    }
    if dxEndfork == v2 {
      dxPath := Reverse(dxPath);
      dxEndfork := dxStartfork;
    }
    var newPath := sxPath + dxPath;
    assert newPath == j && sxStartfork == j[0] && dxEndfork == Last(j) by {
      JoinEnds(p1, p2, v1, v2);
    }
    Put(paths, sxStartfork, Some(newPath));
    Put(paths, dxEndfork, Some(newPath));
    Put(pathDemands, sxStartfork, mergedDemand);
    Put(pathDemands, dxEndfork, mergedDemand);
    RelinkedIs(old(paths[..]), p1, p2, v1, v2, j, paths[..]);
    RedemandedIs(old(pathDemands[..]), j, mergedDemand, pathDemands[..]);
  }

  /** One slot write `a[i] = v`. */
  method Put<T>(a: array<T>, i: nat, v: T)
    requires i < a.Length
    modifies a
    ensures a[..] == old(a[..])[i := v]
  {
    a[i] := v;
  }

  /** One pass of the merge loop body for the pair `(v1, v2)`: skipped unless
      both are route ends, on different routes, whose demands together fit
      the capacity; otherwise the two routes are joined (`Relink`). */
  method Merge(c: Challenge, paths: array<Option<seq<nat>>>, pathDemands: array<nat>, v1: nat, v2: nat,
               ghost routeOf: seq<seq<nat>>)
      returns (merged: bool, ghost routeOf': seq<seq<nat>>)
    requires WellFormed(c) && 1 <= v1 < c.numNodes && 1 <= v2 < c.numNodes
    requires Partition(c, routeOf) && Tracks(c, paths[..], routeOf) && Loads(c, pathDemands[..], routeOf)
    modifies paths, pathDemands
    ensures Partition(c, routeOf') && Tracks(c, paths[..], routeOf') && Loads(c, pathDemands[..], routeOf')
    ensures merged <==>
      old(paths[v1]).Some? && old(paths[v2]).Some? && routeOf[v1] != routeOf[v2] &&
      assert Owns(c, routeOf, v1) && Owns(c, routeOf, v2);
      Load(c, routeOf[v1]) + Load(c, routeOf[v2]) <= c.maxCapacity
    ensures !merged ==> paths[..] == old(paths[..]) && pathDemands[..] == old(pathDemands[..]) && routeOf' == routeOf
    ensures merged ==> assert Owns(c, routeOf, v1) && Owns(c, routeOf, v2); Joins(c, routeOf, routeOf', v1, v2)
    ensures routeOf' == MergeStep(c, routeOf, v1, v2)
  {
    assert Owns(c, routeOf, v1) && Owns(c, routeOf, v2);
    assert paths[v1] == paths[..][v1] && paths[v2] == paths[..][v2];
    assert TracksAt(c, paths[..], routeOf, v1) && TracksAt(c, paths[..], routeOf, v2);
    if paths[v1].None? || paths[v2].None? {
      return false, routeOf;
    }
    var sxPath := paths[v1].value;
    var dxPath := paths[v2].value;
    var sxStartfork := sxPath[0];
    var dxStartfork := dxPath[0];
    assert Owns(c, routeOf, sxStartfork) && Owns(c, routeOf, dxStartfork);
    assert LoadsAt(c, pathDemands[..], routeOf, sxStartfork) && LoadsAt(c, pathDemands[..], routeOf, dxStartfork);
    assert pathDemands[sxStartfork] == Load(c, sxPath) && pathDemands[dxStartfork] == Load(c, dxPath) by {
      assert pathDemands[..][sxStartfork] == pathDemands[sxStartfork];
      assert pathDemands[..][dxStartfork] == pathDemands[dxStartfork];
    }
    var mergedDemand: nat := pathDemands[sxStartfork] + pathDemands[dxStartfork];
    if sxStartfork == dxStartfork || mergedDemand > c.maxCapacity {
      return false, routeOf;
    }
    assert sxPath == routeOf[v1] && dxPath == routeOf[v2] && routeOf[v1] != routeOf[v2];
    Relink(paths, pathDemands, sxPath, dxPath, v1, v2, mergedDemand);
    routeOf' := Reassigned(routeOf, sxPath, dxPath, Join(sxPath, dxPath, v1, v2));
    JoinedState(c, routeOf, v1, v2, old(paths[..]), old(pathDemands[..]), mergedDemand, routeOf', paths[..], pathDemands[..]);
    merged := true;
  }

  /** The loop over the sorted savings: stops at the first negative saving
      and tries every pair before it, in order, so that the routes it ends
      with are `MergedUpTo` that point. */
  method MergeAll(c: Challenge, sorted: seq<Saving>, paths: array<Option<seq<nat>>>, pathDemands: array<nat>,
                  ghost routeOf: seq<seq<nat>>)
      returns (processed: nat, ghost routeOf': seq<seq<nat>>)
    requires WellFormed(c) && Customers(c, sorted)
    requires Partition(c, routeOf) && Tracks(c, paths[..], routeOf) && Loads(c, pathDemands[..], routeOf)
    modifies paths, pathDemands
    ensures Partition(c, routeOf') && Tracks(c, paths[..], routeOf') && Loads(c, pathDemands[..], routeOf')
    ensures processed == NonNegativePrefix(sorted)
    ensures routeOf' == MergedUpTo(c, sorted, processed, routeOf)
  {
    routeOf' := routeOf;
    processed := 0;
    while processed < |sorted|
      invariant processed <= |sorted| && forall k :: 0 <= k < processed ==> sorted[k].saving >= 0
      invariant Partition(c, routeOf') && Tracks(c, paths[..], routeOf') && Loads(c, pathDemands[..], routeOf')
      invariant routeOf' == MergedUpTo(c, sorted, processed, routeOf)
    {
      var s := sorted[processed];
      if s.saving < 0 {
        break;
      }
      var _, next := Merge(c, paths, pathDemands, s.v1, s.v2, routeOf');
      routeOf' := next;
      processed := processed + 1;
    }
  }

  // ---------------------------------------------------------------------------
  // The answer.

  /** The customers of a route wrapped as `[0, …, 0]`. */
  function Inner(r: seq<nat>): seq<nat>
    requires |r| >= 2
  {
    r[1..|r| - 1]
  }

  /** Customer `x` is on one of the wrapped `routes`. */
  ghost predicate Covered(routes: seq<seq<nat>>, x: nat) {
    exists k :: 0 <= k < |routes| && |routes[k]| >= 2 && x in Inner(routes[k])
  }

  /** `x` is the first node of its route. */
  ghost predicate IsFirst(routeOf: seq<seq<nat>>, x: nat)
    requires x < |routeOf|
  {
    routeOf[x] != [] && routeOf[x][0] == x
  }

  /** `routes` are the routes of `routeOf`, each wrapped in depot visits,
      in increasing order of their first customer, and every customer is
      on one of them: each route of the partition is emitted exactly once. */
  ghost predicate Emits(c: Challenge, routes: seq<seq<nat>>, routeOf: seq<seq<nat>>)
    requires |routeOf| == c.numNodes
  {
    (forall k :: 0 <= k < |routes| ==>
      |routes[k]| >= 3 && routes[k][0] == 0 && Last(routes[k]) == 0 &&
      1 <= Inner(routes[k])[0] < c.numNodes && Inner(routes[k]) == routeOf[Inner(routes[k])[0]]) &&
    (forall a, b :: 0 <= a < b < |routes| ==> Inner(routes[a])[0] < Inner(routes[b])[0]) &&
    (forall x :: 1 <= x < c.numNodes ==> Covered(routes, x))
  }

  /** The routes output: the route stored under `i` for every slot `i` that
      is that route's first node, wrapped in depot visits.  Each is a whole
      route of the partition, they come in order of their first node, and
      every customer is on one of them. */
  method Routes(c: Challenge, paths: array<Option<seq<nat>>>, ghost routeOf: seq<seq<nat>>)
      returns (routes: seq<seq<nat>>)
    requires WellFormed(c) && Partition(c, routeOf) && Tracks(c, paths[..], routeOf)
    ensures Emits(c, routes, routeOf)
  {
    routes := [];
    ghost var firsts: seq<nat> := [];
    var i := 0;
    while i < paths.Length
      invariant i <= paths.Length && |firsts| == |routes|
      invariant forall k :: 0 <= k < |routes| ==>
        1 <= firsts[k] < i && routes[k] == [0] + routeOf[firsts[k]] + [0] && IsFirst(routeOf, firsts[k])
      invariant forall a, b :: 0 <= a < b < |firsts| ==> firsts[a] < firsts[b]
      invariant forall x :: 1 <= x < i && IsFirst(routeOf, x) ==> x in firsts
    {
      assert paths[i] == paths[..][i];
      assert i == 0 || TracksAt(c, paths[..], routeOf, i);
      if paths[i].Some? && paths[i].value[0] == i {
        routes := routes + [[0] + paths[i].value + [0]];
        firsts := firsts + [i];
      }
      i := i + 1;
    }
    FirstsCover(c, routeOf, routes, firsts);
  }

  /** The routes kept by the output loop, one per first node `firsts[k]`,
      are the routes of the partition and cover every customer. */
  lemma FirstsCover(c: Challenge, routeOf: seq<seq<nat>>, routes: seq<seq<nat>>, firsts: seq<nat>)
    requires WellFormed(c) && Partition(c, routeOf) && |firsts| == |routes|
    requires forall k :: 0 <= k < |routes| ==>
      1 <= firsts[k] < c.numNodes && routes[k] == [0] + routeOf[firsts[k]] + [0] && IsFirst(routeOf, firsts[k])
    requires forall a, b :: 0 <= a < b < |firsts| ==> firsts[a] < firsts[b]
    requires forall x :: 1 <= x < c.numNodes && IsFirst(routeOf, x) ==> x in firsts
    ensures Emits(c, routes, routeOf)
  {
    forall k | 0 <= k < |routes| ensures Inner(routes[k]) == routeOf[firsts[k]] {
      assert Inner(routes[k]) == routes[k][1..|routes[k]| - 1];
    }
    forall x | 1 <= x < c.numNodes ensures Covered(routes, x) {
      assert Owns(c, routeOf, x);
      var f := routeOf[x][0];
      assert routeOf[x][0] in routeOf[x] && Owns(c, routeOf, f) && IsFirst(routeOf, f);
      var k :| 0 <= k < |firsts| && firsts[k] == f;
      assert x in Inner(routes[k]);
    }
  }

  /** A solution in which every route leaves and ends at the depot and
      visits customers only, each once; every customer is on exactly one
      route; and a route of more than one customer fits the capacity. */
  ghost predicate ValidRoutes(c: Challenge, routes: seq<seq<nat>>)
    requires WellFormed(c)
  {
    (forall k :: 0 <= k < |routes| ==>
      |routes[k]| >= 3 && routes[k][0] == 0 && Last(routes[k]) == 0 && Route(c, Inner(routes[k])) &&
      (|Inner(routes[k])| > 1 ==> Load(c, Inner(routes[k])) <= c.maxCapacity)) &&
    (forall x :: 1 <= x < c.numNodes ==> Covered(routes, x)) &&
    (forall a, b, y :: 0 <= a < b < |routes| && y in Inner(routes[a]) ==> y !in Inner(routes[b]))
  }

  /** The emitted routes are different routes of the partition, so no
      customer is on two of them. */
  lemma EmittedOnce(c: Challenge, routeOf: seq<seq<nat>>, demands: seq<nat>, routes: seq<seq<nat>>)
    requires WellFormed(c) && Partition(c, routeOf) && Loads(c, demands, routeOf)
    requires Emits(c, routes, routeOf)
    ensures ValidRoutes(c, routes)
  {
    forall k | 0 <= k < |routes|
      ensures Route(c, Inner(routes[k])) && (|Inner(routes[k])| > 1 ==> Load(c, Inner(routes[k])) <= c.maxCapacity)
    {
      assert Owns(c, routeOf, Inner(routes[k])[0]) && LoadsAt(c, demands, routeOf, Inner(routes[k])[0]);
    }
    forall a, b, y | 0 <= a < b < |routes| && y in Inner(routes[a]) ensures y !in Inner(routes[b]) {
      var fa, fb := Inner(routes[a])[0], Inner(routes[b])[0];
      assert routeOf[fa][0] == fa && routeOf[fb][0] == fb;
      Apart(c, routeOf, fa, fb);
    }
  }

  /** `solve_challenge`: no answer when the distance pre-check fails
      (`tooFar`, a float comparison); otherwise the savings, sorted by
      `arrange`, are merged and the routes output form a valid solution. */
  method Solve(c: Challenge, tooFar: bool, arrange: seq<nat>) returns (r: Option<seq<seq<nat>>>)
    requires WellFormed(c) && IsArrangement(SavingsList(c), arrange)
    ensures r.None? <==> tooFar
    ensures r.Some? ==> ValidRoutes(c, r.value)
    ensures r.Some? ==> Emits(c, r.value, Clustered(c, arrange))
  {
    if tooFar {
      return None;
    }
    var values := Savings(c);
    var sorted := seq(|arrange|, k requires 0 <= k < |arrange| => values[arrange[k]]);
    assert sorted == Sorted(c, arrange);
    var n := c.numNodes;
    var paths := new Option<seq<nat>>[n](i => Some([i]));
    paths[0] := None;
    var pathDemands := new nat[n](i requires 0 <= i < n => c.demands[i]);
    ghost var routeOf := Singletons(c);
    forall x | 1 <= x < n ensures TracksAt(c, paths[..], routeOf, x) && LoadsAt(c, pathDemands[..], routeOf, x) {
      assert routeOf[x][..0] == [];
    }
    var _, routeOf' := MergeAll(c, sorted, paths, pathDemands, routeOf);
    var routes := Routes(c, paths, routeOf');
    EmittedOnce(c, routeOf', pathDemands[..], routes);
    r := Some(routes);
  }
}
