/** The library's Dijkstra test on its six-node network, and the small
    network on which the start value `infinity()` hides a reachable node. */
module DijkstraExamples {
  import opened Types
  import opened ArcSort
  import opened CompactStar
  import opened CompactStarExamples
  import opened Paths
  import opened ShortestPaths
  import opened DijkstraAlgorithms

  const G6Head: seq<nat> := [1, 2, 2, 3, 3, 4, 5, 3, 5]

  /** The test network as construction lays it out, cost sum 28. */
  const G6 := Star([0, 2, 4, 6, 7, 9, 9], [0, 0, 1, 3, 6, 7, 9], [0, 0, 1, 1, 2, 2, 3, 4, 4],
                   G6Head, [0, 1, 2, 3, 4, 7, 5, 6, 8], [6, 4, 2, 2, 1, 2, 7, 1, 3],
                   [0, 0, 0, 0, 0, 0, 0, 0, 0], 28)

  lemma G6Valid()
    ensures Valid(G6) && NumNodes(G6) == 6 && InvalidId(G6) == 6 && Infinity(G6) == 28
  {
  }

  lemma G6Ends()
    ensures Tails(ShortestPathArcs) == G6.tail && Heads(ShortestPathArcs) == G6.head
  {
  }

  lemma G6Weights()
    ensures Costs(ShortestPathArcs) == G6.costs && TotalCost(ShortestPathArcs) == 28
  {
    assert Costs(ShortestPathArcs) == G6.costs;
    assert Sum(G6.costs) == 28;
  }

  lemma G6Capacities()
    ensures Capacities(ShortestPathArcs) == G6.capacities
  {
  }

  lemma G6InArcsLow()
    ensures InArcs(G6Head, 0) == [] && InArcs(G6Head, 1) == [0] && InArcs(G6Head, 2) == [1, 2]
  {
    var h := G6Head;
    assert InArcsBelow(h, 0, 9) == [] && InArcsBelow(h, 1, 9) == [0];
    assert InArcsBelow(h, 2, 9) == [1, 2];
  }

  lemma G6InArcsHigh()
    ensures InArcs(G6Head, 3) == [3, 4, 7] && InArcs(G6Head, 4) == [5] && InArcs(G6Head, 5) == [6, 8]
  {
    var h := G6Head;
    assert InArcsBelow(h, 3, 9) == [3, 4, 7];
    assert InArcsBelow(h, 4, 9) == [5] && InArcsBelow(h, 5, 9) == [6, 8];
  }

  lemma G6Trace()
    ensures Trace(G6Head, 6) == G6.trace
    ensures |Trace(G6Head, 0)| == 0 && |Trace(G6Head, 1)| == 0 && |Trace(G6Head, 2)| == 1
    ensures |Trace(G6Head, 3)| == 3 && |Trace(G6Head, 4)| == 6 && |Trace(G6Head, 5)| == 7
    ensures |Trace(G6Head, 6)| == 9
  {
    var h := G6Head;
    G6InArcsLow();
    G6InArcsHigh();
    assert Trace(h, 1) == [] && Trace(h, 2) == [0] && Trace(h, 3) == [0, 1, 2];
    assert Trace(h, 4) == [0, 1, 2, 3, 4, 7] && Trace(h, 5) == [0, 1, 2, 3, 4, 7, 5];
  }

  lemma G6Reverse()
    ensures RPointOf(G6Head, 6) == G6.rpoint
  {
    G6Trace();
    var r := RPointOf(G6Head, 6);
    assert |r| == 7;
    forall i | 0 <= i < 7
      ensures r[i] == G6.rpoint[i]
    {
      assert r[i] == |Trace(G6Head, i)|;
    }
  }

  /** Construction from the test arcs yields this layout. */
  lemma BuildG6()
    ensures StarOf(6, ShortestPathArcs) == G6
  {
    assert SortedByTail(ShortestPathArcs);
    StarOfSorted(6, ShortestPathArcs);
    ShortestPathPoint();
    G6Ends();
    G6Weights();
    G6Capacities();
    G6Trace();
    G6Reverse();
  }

  lemma G6Adjacent()
    ensures Valid(G6)
    ensures Adjacent(G6, 0) == [1, 2] && Adjacent(G6, 1) == [2, 3] && Adjacent(G6, 2) == [3, 4]
    ensures Adjacent(G6, 3) == [5] && Adjacent(G6, 4) == [3, 5] && Adjacent(G6, 5) == []
  {
    G6Valid();
  }

  lemma G6Costs()
    ensures Cost(G6, 0, 1) == Some(6) && Cost(G6, 0, 2) == Some(4) && Cost(G6, 1, 2) == Some(2)
    ensures Cost(G6, 1, 3) == Some(2) && Cost(G6, 2, 3) == Some(1) && Cost(G6, 2, 4) == Some(2)
    ensures Cost(G6, 3, 5) == Some(7) && Cost(G6, 4, 3) == Some(1) && Cost(G6, 4, 5) == Some(3)
  {
    G6Adjacent();
  }

  /** The documented distances from node 0. */
  const G6Dist: seq<nat> := [0, 6, 4, 5, 6, 9]

  /** The documented predecessors; 6 is the invalid id. */
  const G6Pred: seq<nat> := [6, 0, 0, 2, 2, 4]

  /** A cheapest walk from node 0 to each node. */
  const G6Walks: seq<seq<nat>> := [[0], [0, 1], [0, 2], [0, 2, 3], [0, 2, 4], [0, 2, 4, 5]]

  /** No arc out of `u` offers a shortcut to the documented distances. */
  lemma G6TriangleFrom(u: nat)
    requires u < 6
    ensures Valid(G6)
    ensures forall x :: x in Adjacent(G6, u) ==> G6Dist[x] <= G6Dist[u] + ArcCost(G6, u, x)
  {
    G6Adjacent();
    G6Costs();
  }

  lemma G6Triangle()
    ensures Valid(G6) && Triangle(G6, G6Dist)
  {
    G6Valid();
    forall u | 0 <= u < 6
      ensures forall x :: x in Adjacent(G6, u) ==> G6Dist[x] <= G6Dist[u] + ArcCost(G6, u, x)
    {
      G6TriangleFrom(u);
    }
  }

  /** Each walk extends a shorter one by one arc. */
  lemma G6Walk01()
    ensures Valid(G6) && IsWalk(G6, [0, 1]) && WalkCost(G6, [0, 1]) == 6
  {
    G6Adjacent();
    G6Costs();
    assert IsWalk(G6, [0]) && WalkCost(G6, [0]) == 0;
    WalkCostSnoc(G6, [0], 1);
    assert [0] + [1] == [0, 1];
  }

  lemma G6Walk02()
    ensures Valid(G6) && IsWalk(G6, [0, 2]) && WalkCost(G6, [0, 2]) == 4
  {
    G6Adjacent();
    G6Costs();
    assert IsWalk(G6, [0]) && WalkCost(G6, [0]) == 0;
    WalkCostSnoc(G6, [0], 2);
    assert [0] + [2] == [0, 2];
  }

  lemma G6Walk023()
    ensures Valid(G6) && IsWalk(G6, [0, 2, 3]) && WalkCost(G6, [0, 2, 3]) == 5
  {
    G6Adjacent();
    G6Costs();
    G6Walk02();
    WalkCostSnoc(G6, [0, 2], 3);
    assert [0, 2] + [3] == [0, 2, 3];
  }

  lemma G6Walk024()
    ensures Valid(G6) && IsWalk(G6, [0, 2, 4]) && WalkCost(G6, [0, 2, 4]) == 6
  {
    G6Adjacent();
    G6Costs();
    G6Walk02();
    WalkCostSnoc(G6, [0, 2], 4);
    assert [0, 2] + [4] == [0, 2, 4];
  }

  lemma G6Walk0245()
    ensures Valid(G6) && IsWalk(G6, [0, 2, 4, 5]) && WalkCost(G6, [0, 2, 4, 5]) == 9
  {
    G6Adjacent();
    G6Costs();
    G6Walk024();
    WalkCostSnoc(G6, [0, 2, 4], 5);
    assert [0, 2, 4] + [5] == [0, 2, 4, 5];
  }

  /** The walk to `v` leads from node 0 to `v` and costs the documented
      distance. */
  lemma G6WalkCost(v: nat)
    requires v < 6
    ensures Valid(G6) && WalkFromTo(G6, G6Walks[v], 0, v) && WalkCost(G6, G6Walks[v]) == G6Dist[v]
  {
    G6Valid();
    if v == 0 {
      assert G6Walks[0] == [0];
      assert IsWalk(G6, [0]) && WalkCost(G6, [0]) == 0;
    } else if v == 1 {
      G6Walk01();
      assert G6Walks[1] == [0, 1];
    } else if v == 2 {
      G6Walk02();
      assert G6Walks[2] == [0, 2];
    } else if v == 3 {
      G6Walk023();
      assert G6Walks[3] == [0, 2, 3];
    } else if v == 4 {
      G6Walk024();
      assert G6Walks[4] == [0, 2, 4];
    } else {
      G6Walk0245();
      assert G6Walks[5] == [0, 2, 4, 5];
    }
  }

  /** Every documented distance is at most 28 and is the cost of the
      listed walk from node 0. */
  lemma G6WalksWitness()
    ensures Valid(G6) && |G6Walks| == 6
    ensures forall v :: 0 <= v < 6 ==>
              G6Dist[v] <= 28 && WalkFromTo(G6, G6Walks[v], 0, v) && WalkCost(G6, G6Walks[v]) == G6Dist[v]
  {
    G6Valid();
    forall v | 0 <= v < 6
      ensures G6Dist[v] <= 28 && WalkFromTo(G6, G6Walks[v], 0, v) && WalkCost(G6, G6Walks[v]) == G6Dist[v]
    {
      G6WalkCost(v);
    }
  }

  /** Any shortest-path result from node 0 of the test network, with the
      start value 28, has the documented distances. */
  lemma G6Distances(pred: seq<nat>, dist: seq<nat>)
    requires Valid(G6) && ShortestPathResult(G6, 0, 28, pred, dist)
    ensures dist == G6Dist
  {
    G6Triangle();
    G6WalksWitness();
    DistFromPotential(G6, 0, 28, pred, dist, G6Dist, G6Walks);
  }

  /** The documented predecessor of `v` is the only node with an arc into
      `v` whose distance plus the arc's cost is the distance of `v`. */
  lemma G6TightArc(v: nat, p: nat)
    requires Valid(G6) && 1 <= v < 6 && p < 6 && v in Adjacent(G6, p)
    requires G6Dist[v] == G6Dist[p] + ArcCost(G6, p, v)
    ensures p == G6Pred[v]
  {
    G6Adjacent();
    G6Costs();
  }

  lemma G6PredAt(pred: seq<nat>, dist: seq<nat>, v: nat)
    requires Valid(G6) && ShortestPathResult(G6, 0, 28, pred, dist) && dist == G6Dist
    requires 1 <= v < 6
    ensures pred[v] == G6Pred[v]
  {
    assert dist[v] < 28;
    G6TightArc(v, pred[v]);
  }

  /** With those distances the predecessor list is forced too. */
  lemma G6Predecessors(pred: seq<nat>, dist: seq<nat>)
    requires Valid(G6) && ShortestPathResult(G6, 0, 28, pred, dist)
    ensures dist == G6Dist && pred == G6Pred
  {
    G6Distances(pred, dist);
    forall v | 1 <= v < 6
      ensures pred[v] == G6Pred[v]
    {
      G6PredAt(pred, dist, v);
    }
  }

  /** The library's test, for either variant: built from its arc list, the
      test network yields the documented predecessors and distances from
      node 0. */
  method DijkstraTest(useHeap: bool) returns (pred: seq<nat>, dist: seq<nat>)
    ensures pred == G6Pred && dist == G6Dist
  {
    var g, sorted := FromEdgeVec(6, ShortestPathArcs);
    assert g == G6 && 0 < NumNodes(g) && Infinity(g) == 28 by {
      BuildG6();
      G6Valid();
    }
    pred, dist := Dijkstra(g, 0, useHeap, 29);
    G6Predecessors(pred, dist);
  }

  // ------------------------------------------------ the start value finding

  /** One arc `0 -> 1` of cost 5: the cost sum is 5, and so is the cost of
      the only path to node 1. */
  const TinyArcs := [Arc(0, 1, 5, 0)]

  const Tiny := Star([0, 1, 1], [0, 0, 1], [0], [1], [0], [5], [0], 5)

  lemma TinyLayout()
    ensures Valid(Tiny) && NumNodes(Tiny) == 2 && InvalidId(Tiny) == 2 && Infinity(Tiny) == 5
    ensures Adjacent(Tiny, 0) == [1] && Adjacent(Tiny, 1) == [] && Cost(Tiny, 0, 1) == Some(5)
  {
  }

  lemma BuildTiny()
    ensures StarOf(2, TinyArcs) == Tiny
  {
    assert SortedByTail(TinyArcs);
    StarOfSorted(2, TinyArcs);
    assert Costs(TinyArcs) == [5];
    assert InArcsBelow([1], 1, 1) == [0];
    assert Trace([1], 2) == [0];
    var r := RPointOf([1], 2);
    assert r[0] == 0 && r[1] == 0 && r[2] == 1;
    var p := PointOf(TinyArcs, 2);
    assert p[0] == 0 && p[1] == 1 && p[2] == 1;
  }

  /** Building from the one-arc list gives `Tiny`. */
  method TinyNetwork() returns (g: Star)
    ensures g == Tiny
  {
    var sorted;
    g, sorted := FromEdgeVec(2, TinyArcs);
    BuildTiny();
  }

  /** Node 1 is reachable from node 0, yet every result whose distances
      start at `infinity()` leaves it without a predecessor, at distance
      `infinity()`, exactly as an unreachable node. */
  lemma InfinityHidesReachable(pred: seq<nat>, dist: seq<nat>)
    requires Valid(Tiny) && ShortestPathResult(Tiny, 0, Infinity(Tiny), pred, dist)
    ensures Reachable(Tiny, 0, 1)
    ensures pred[1] == InvalidId(Tiny) && dist[1] == Infinity(Tiny)
  {
    TinyLayout();
    assert WalkFromTo(Tiny, [0, 1], 0, 1);
    assert 1 in Adjacent(Tiny, 0);
    assert dist[1] <= 5;
    assert pred[1] == 2;
  }

  /** Starting one above the cost sum, the only result has node 0 as the
      predecessor of node 1, at distance 5. */
  lemma CorrectedFindsReachable(pred: seq<nat>, dist: seq<nat>)
    requires Valid(Tiny) && ShortestPathResult(Tiny, 0, Infinity(Tiny) + 1, pred, dist)
    ensures pred == [2, 0] && dist == [0, 5]
  {
    TinyLayout();
    assert 1 in Adjacent(Tiny, 0);
    assert dist[1] <= 5;
    assert pred[1] != 2;
    assert 1 in Adjacent(Tiny, pred[1]);
  }

  /** Both variants, as written, on the one-arc network: node 1 is reported
      unreachable. */
  method TinyAsWritten(useHeap: bool) returns (pred: seq<nat>, dist: seq<nat>)
    ensures Valid(Tiny) && Reachable(Tiny, 0, 1) && |pred| == 2 && |dist| == 2
    ensures pred[1] == InvalidId(Tiny) && dist[1] == Infinity(Tiny)
  {
    var g := TinyNetwork();
    assert 0 < NumNodes(g) && Infinity(g) < 6 by {
      TinyLayout();
    }
    pred, dist := Dijkstra(g, 0, useHeap, 6);
    InfinityHidesReachable(pred, dist);
  }

  /** With the start value one above the cost sum, node 1 gets node 0 as its
      predecessor and distance 5. */
  method TinyCorrected(useHeap: bool) returns (pred: seq<nat>, dist: seq<nat>)
    ensures pred == [2, 0] && dist == [0, 5]
  {
    var g := TinyNetwork();
    assert 0 < NumNodes(g) && Infinity(g) + 1 < 7 by {
      TinyLayout();
    }
    pred, dist := DijkstraCorrected(g, 0, useHeap, 7);
    CorrectedFindsReachable(pred, dist);
  }
}
