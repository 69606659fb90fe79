/** The exact single-firefighter solver: path cost of an index ordering, the first
    cheapest ordering, and which stops of a walk actually put a fire out. */
module Tours {
  import opened Results
  import opened Geometry
  import opened Permutations
  import opened CityModel

  /** Every entry of `path` indexes one of `m` buildings. */
  predicate ValidPath(path: seq<int>, m: nat)
  {
    forall i :: 0 <= i < |path| ==> 0 <= path[i] < m
  }

  /** The building indices 0 .. m-1 that `bruteForce` hands to `permute`. */
  function Indices(m: nat): (r: seq<int>)
    ensures |r| == m
  {
    seq(m, i => i)
  }

  /** `q` visits each of the `m` buildings exactly once. */
  predicate IsOrdering(q: seq<int>, m: nat)
  {
    multiset(q) == multiset(Indices(m))
  }

  /** The coordinates a path of building indices visits, in order. */
  function PathNodes(buildings: seq<Node>, path: seq<int>): (r: seq<Node>)
    requires ValidPath(path, |buildings|)
    ensures |r| == |path|
  {
    seq(|path|, i requires 0 <= i < |path| => buildings[path[i]])
  }

  /** Cost of a route from the fire station through the buildings in `path` order. */
  function PathCost(station: Node, buildings: seq<Node>, path: seq<int>): nat
    requires ValidPath(path, |buildings|)
  {
    RouteLength(station, PathNodes(buildings, path))
  }

  /** `calcPathCost(path, buildings)`: the first leg from the station, then every
      leg between consecutive buildings of the path. */
  method CalcPathCost(station: Node, buildings: seq<Node>, path: seq<int>) returns (cost: int)
    requires |path| > 0 && ValidPath(path, |buildings|)
    ensures cost == PathCost(station, buildings, path)
  {
    ghost var nodes := PathNodes(buildings, path);
    assert nodes[..1] == [nodes[0]];
    cost := AbsDistance(station, buildings[path[0]]);
    var i := 0;
    while i < |path| - 1
      invariant 0 <= i <= |path| - 1
      invariant cost == RouteLength(station, nodes[..i + 1])
    {
      assert nodes[..i + 2][..i + 1] == nodes[..i + 1];
      cost := cost + AbsDistance(buildings[path[i]], buildings[path[i + 1]]);
      i := i + 1;
    }
    assert nodes[..|path|] == nodes;
  }

  /** Index of the first ordering whose cost no other ordering undercuts: a later
      ordering replaces the kept one only when strictly cheaper. */
  function Cheapest(station: Node, buildings: seq<Node>, perms: seq<seq<int>>): (k: nat)
    requires |perms| > 0
    requires forall p :: p in perms ==> ValidPath(p, |buildings|)
    ensures k < |perms|
    decreases |perms|
  {
    if |perms| == 1 then 0
    else
      var n := |perms| - 1;
      var k := Cheapest(station, buildings, perms[..n]);
      if PathCost(station, buildings, perms[n]) < PathCost(station, buildings, perms[k]) then n else k
  }

  /** One more ordering considered: it is kept only when strictly cheaper. */
  lemma CheapestStep(station: Node, buildings: seq<Node>, perms: seq<seq<int>>, k: nat)
    requires k < |perms|
    requires forall p :: p in perms ==> ValidPath(p, |buildings|)
    ensures forall p :: p in perms[..k + 1] ==> ValidPath(p, |buildings|)
    ensures k == 0 ==> Cheapest(station, buildings, perms[..k + 1]) == 0
    ensures k > 0 ==>
      var c := Cheapest(station, buildings, perms[..k]);
      && c < k
      && (PathCost(station, buildings, perms[k]) < PathCost(station, buildings, perms[c]) ==>
            Cheapest(station, buildings, perms[..k + 1]) == k)
      && (PathCost(station, buildings, perms[k]) >= PathCost(station, buildings, perms[c]) ==>
            Cheapest(station, buildings, perms[..k + 1]) == c)
  {
    assert perms[..k + 1][..k] == perms[..k];
    assert perms[..k + 1][k] == perms[k];
    if k > 0 {
      var c := Cheapest(station, buildings, perms[..k]);
      assert perms[..k][c] == perms[c];
    }
  }

  /** The kept ordering costs no more than any ordering, and every ordering before it costs more. */
  lemma {:induction false} CheapestIsFirstMinimum(station: Node, buildings: seq<Node>, perms: seq<seq<int>>)
    requires |perms| > 0
    requires forall p :: p in perms ==> ValidPath(p, |buildings|)
    ensures var k := Cheapest(station, buildings, perms);
      && (forall j :: 0 <= j < |perms| ==> PathCost(station, buildings, perms[k]) <= PathCost(station, buildings, perms[j]))
      && (forall j :: 0 <= j < k ==> PathCost(station, buildings, perms[j]) > PathCost(station, buildings, perms[k]))
    decreases |perms|
  {
    if |perms| > 1 {
      var n := |perms| - 1;
      var init := perms[..n];
      CheapestIsFirstMinimum(station, buildings, init);
      assert forall j :: 0 <= j < n ==> init[j] == perms[j];
    }
  }

  /** The minimum search of `bruteForce`: the first ordering is always taken, and a
      later one replaces it only when strictly cheaper. */
  method SelectCheapest(station: Node, buildings: seq<Node>, perms: seq<seq<int>>) returns (best: nat)
    requires |perms| > 0
    requires forall p :: p in perms ==> |p| > 0 && ValidPath(p, |buildings|)
    ensures best == Cheapest(station, buildings, perms)
  {
    var minCost: Option<int> := None;
    best := 0;
    var k := 0;
    while k < |perms|
      invariant 0 <= k <= |perms|
      invariant k == 0 ==> minCost == None
      invariant k > 0 ==> best < k && best == Cheapest(station, buildings, perms[..k])
      invariant k > 0 ==> minCost == Some(PathCost(station, buildings, perms[best]))
    {
      var cost := CalcPathCost(station, buildings, perms[k]);
      CheapestStep(station, buildings, perms, k);
      if minCost.None? || cost < minCost.value {
        minCost := Some(cost);
        best := k;
      }
      k := k + 1;
    }
    assert perms[..|perms|] == perms;
  }

  /** Orderings of distinct indices 0 .. m-1 only hold valid, distinct indices. */
  lemma OrderingFacts(q: seq<int>, m: nat)
    requires IsOrdering(q, m)
    ensures |q| == m && ValidPath(q, m)
    ensures forall j :: 0 <= j < m ==> j in q
  {
    forall j | 0 <= j < m
      ensures j in q
    {
      assert Indices(m)[j] == j;
      assert j in multiset(Indices(m));
    }
    assert |q| == |multiset(q)| == |multiset(Indices(m))| == m;
    forall t | 0 <= t < |q|
      ensures 0 <= q[t] < m
    {
      assert q[t] in multiset(q);
      assert q[t] in Indices(m);
    }
  }

  /** Inserting a new value into a list without repeats keeps it without repeats. */
  lemma InsertAtDistinct(p: seq<int>, j: nat, x: int)
    requires j <= |p| && Distinct(p) && x !in p
    ensures Distinct(InsertAt(p, j, x))
  {
    var q := InsertAt(p, j, x);
    forall a, b | 0 <= a < b < |q|
      ensures q[a] != q[b]
    {
      assert q[a] == if a < j then p[a] else if a == j then x else p[a - 1];
      assert q[b] == if b < j then p[b] else if b == j then x else p[b - 1];
    }
  }

  /** Lists `permute` builds from distinct numbers have no repeated entry. */
  lemma {:induction false} GeneratedDistinct(nums: seq<int>, i: nat)
    requires 1 <= i <= |nums| && Distinct(nums)
    ensures forall p :: p in Generated(nums, i) ==> Distinct(p)
    decreases i
  {
    if i > 1 {
      GeneratedDistinct(nums, i - 1);
      GeneratedArePermutations(nums, i - 1);
      var P := Generated(nums, i - 1);
      var x := nums[i - 1];
      assert x !in nums[..i - 1];
      forall q | q in Generated(nums, i)
        ensures Distinct(q)
      {
        LayersMember(P, x, i, q);
        var k, j :| 0 <= k < |P| && 0 <= j < i && q == InsertAt(P[k], j, x);
        assert P[k] in P;
        assert x !in multiset(P[k]);
        InsertAtDistinct(P[k], j, x);
      }
    }
  }

  /** Every ordering `permute` yields for `bruteForce`: each visits all m buildings once. */
  function AllOrders(m: nat): (r: seq<seq<int>>)
    requires m >= 1
    ensures |r| > 0
    ensures forall p :: p in r ==> |p| == m && IsOrdering(p, m) && ValidPath(p, m) && Distinct(p)
  {
    var nums := Indices(m);
    assert nums[..m] == nums;
    GeneratedCount(nums, m);
    GeneratedArePermutations(nums, m);
    GeneratedDistinct(nums, m);
    forall p | p in Generated(nums, m)
      ensures ValidPath(p, m)
    {
      OrderingFacts(p, m);
    }
    Generated(nums, m)
  }

  /** The ordering `bruteForce` walks: the first cheapest of all orderings. */
  function ExactTour(station: Node, buildings: seq<Node>): (tour: seq<int>)
    requires |buildings| >= 1
    ensures |tour| == |buildings| && IsOrdering(tour, |buildings|) && ValidPath(tour, |buildings|) && Distinct(tour)
  {
    var orders := AllOrders(|buildings|);
    orders[Cheapest(station, buildings, orders)]
  }

  /** No ordering of the buildings gives a shorter route from the station than the exact tour. */
  lemma ExactTourOptimal(station: Node, buildings: seq<Node>, q: seq<int>)
    requires |buildings| >= 1 && IsOrdering(q, |buildings|)
    ensures ValidPath(q, |buildings|)
    ensures PathCost(station, buildings, ExactTour(station, buildings)) <= PathCost(station, buildings, q)
  {
    var m := |buildings|;
    OrderingFacts(q, m);
    var orders := AllOrders(m);
    assert Indices(m)[..m] == Indices(m);
    GeneratedComplete(Indices(m), m, q);
    var j :| 0 <= j < |orders| && orders[j] == q;
    CheapestIsFirstMinimum(station, buildings, orders);
  }

  /** The stops of a walk along `nodes` whose fire is actually put out, given the
      burning flags before the walk: a stop that is not burning, or was already
      put out earlier on the walk, is skipped. */
  function Visited(burning: map<Node, bool>, nodes: seq<Node>): seq<Node>
    decreases |nodes|
  {
    if nodes == [] then []
    else
      var init := nodes[..|nodes| - 1];
      var n := nodes[|nodes| - 1];
      Visited(burning, init) + (if Burning(burning, n) && n !in init then [n] else [])
  }

  /** When every stop is distinct and burning, no stop is skipped. */
  lemma {:induction false} VisitedAll(burning: map<Node, bool>, nodes: seq<Node>)
    requires Distinct(nodes)
    requires forall k :: 0 <= k < |nodes| ==> Burning(burning, nodes[k])
    ensures Visited(burning, nodes) == nodes
    decreases |nodes|
  {
    if nodes != [] {
      var init := nodes[..|nodes| - 1];
      VisitedAll(burning, init);
      assert nodes == init + [nodes[|nodes| - 1]];
    }
  }

  /** Distinct buildings visited in a distinct order are distinct stops. */
  lemma PathNodesDistinct(buildings: seq<Node>, path: seq<int>)
    requires Distinct(buildings) && Distinct(path) && ValidPath(path, |buildings|)
    ensures Distinct(PathNodes(buildings, path))
  {
  }

  /** An ordering of the buildings stops at every building and nowhere else. */
  lemma TourCoversBuildings(buildings: seq<Node>, path: seq<int>)
    requires IsOrdering(path, |buildings|)
    ensures ValidPath(path, |buildings|)
    ensures forall n :: n in PathNodes(buildings, path) <==> n in buildings
  {
    OrderingFacts(path, |buildings|);
    var tour := PathNodes(buildings, path);
    forall n | n in buildings
      ensures n in tour
    {
      var j :| 0 <= j < |buildings| && buildings[j] == n;
      assert j in path;
      var k :| 0 <= k < |path| && path[k] == j;
      assert tour[k] == n;
    }
    forall n | n in tour
      ensures n in buildings
    {
      var k :| 0 <= k < |tour| && tour[k] == n;
      assert buildings[path[k]] == n;
    }
  }

  /** When the buildings are distinct and all burning, a walk in a distinct order
      puts out a fire at every stop. */
  lemma WalkPutsOutEvery(burning: map<Node, bool>, buildings: seq<Node>, path: seq<int>)
    requires Distinct(buildings) && Distinct(path) && ValidPath(path, |buildings|)
    requires forall j :: 0 <= j < |buildings| ==> Burning(burning, buildings[j])
    ensures Visited(burning, PathNodes(buildings, path)) == PathNodes(buildings, path)
  {
    var tour := PathNodes(buildings, path);
    PathNodesDistinct(buildings, path);
    forall k | 0 <= k < |tour|
      ensures Burning(burning, tour[k])
    {
      assert tour[k] == buildings[path[k]];
    }
    VisitedAll(burning, tour);
  }

  lemma RouteLengthTwoStops(start: Node, a: Node, b: Node)
    ensures RouteLength(start, [a, b]) == AbsDistance(start, a) + AbsDistance(a, b)
  {
    assert [a, b][..1] == [a];
    assert [a][..0] == [];
    assert RouteLength(start, [a]) == AbsDistance(start, a);
    assert EndOf(start, [a]) == a;
  }

  /** A two-stop path costs its two legs. */
  lemma PairCost(station: Node, buildings: seq<Node>, a: int, b: int)
    requires 0 <= a < |buildings| && 0 <= b < |buildings|
    ensures ValidPath([a, b], |buildings|)
    ensures PathCost(station, buildings, [a, b])
         == AbsDistance(station, buildings[a]) + AbsDistance(buildings[a], buildings[b])
  {
    var r := PathNodes(buildings, [a, b]);
    assert r[0] == buildings[a] && r[1] == buildings[b];
    assert r == [buildings[a], buildings[b]];
    RouteLengthTwoStops(station, buildings[a], buildings[b]);
  }
}
