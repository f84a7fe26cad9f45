/** Walks in a compact star, their costs, and reachability: the vocabulary in
    which the search and shortest-path results are specified. The cost of a
    step `u -> v` is the one the algorithms read, that of the first arc
    `u -> v` (`ArcCost`). */
module Paths {
  import opened Types
  import opened CompactStar

  /** A non-empty node sequence whose consecutive nodes are joined by arcs. */
  predicate IsWalk(g: Star, w: seq<nat>)
    requires Valid(g)
  {
    && |w| >= 1
    && (forall k :: 0 <= k < |w| ==> w[k] < NumNodes(g))
    && (forall k :: 0 <= k < |w| - 1 ==> w[k + 1] in Adjacent(g, w[k]))
  }

  predicate WalkFromTo(g: Star, w: seq<nat>, s: nat, v: nat)
    requires Valid(g)
  {
    IsWalk(g, w) && w[0] == s && w[|w| - 1] == v
  }

  ghost predicate Reachable(g: Star, s: nat, v: nat)
    requires Valid(g)
  {
    exists w :: WalkFromTo(g, w, s, v)
  }

  /** Sum of the step costs along a walk. */
  function WalkCost(g: Star, w: seq<nat>): nat
    requires Valid(g) && IsWalk(g, w)
    decreases |w|
  {
    if |w| == 1 then 0
    else
      assert IsWalk(g, w[1..]) by {
        assert forall k :: 0 <= k < |w| - 1 ==> w[1..][k] == w[k + 1];
      }
      ArcCost(g, w[0], w[1]) + WalkCost(g, w[1..])
  }

  /** Extending a walk by one arc adds that arc's cost. */
  lemma {:induction false} WalkCostSnoc(g: Star, w: seq<nat>, v: nat)
    requires Valid(g) && IsWalk(g, w)
    requires v in Adjacent(g, w[|w| - 1])
    ensures IsWalk(g, w + [v])
    ensures WalkCost(g, w + [v]) == WalkCost(g, w) + ArcCost(g, w[|w| - 1], v)
    decreases |w|
  {
    var w' := w + [v];
    assert forall k :: 0 <= k < |w| ==> w'[k] == w[k];
    if |w| > 1 {
      assert w'[1..] == w[1..] + [v];
      assert IsWalk(g, w[1..]) by {
        assert forall k :: 0 <= k < |w| - 1 ==> w[1..][k] == w[k + 1];
      }
      WalkCostSnoc(g, w[1..], v);
    }
  }

  lemma ReachRefl(g: Star, s: nat)
    requires Valid(g) && s < NumNodes(g)
    ensures Reachable(g, s, s)
  {
    assert WalkFromTo(g, [s], s, s);
  }

  /** Reachability extends along arcs. */
  lemma ReachStep(g: Star, s: nat, u: nat, v: nat)
    requires Valid(g) && Reachable(g, s, u)
    requires v in Adjacent(g, u)
    ensures Reachable(g, s, v)
  {
    var w :| WalkFromTo(g, w, s, u);
    WalkCostSnoc(g, w, v);
    assert WalkFromTo(g, w + [v], s, v);
  }

  /** A set of nodes (given by marks) that holds `s` and is closed under
      arcs holds every node reachable from `s`. */
  lemma ClosedHoldsReachable(g: Star, marks: seq<bool>, s: nat, v: nat)
    requires Valid(g) && |marks| == NumNodes(g)
    requires s < |marks| && marks[s]
    requires forall u, x :: 0 <= u < |marks| && marks[u] && x in Adjacent(g, u) ==> marks[x]
    requires Reachable(g, s, v)
    ensures v < |marks| && marks[v]
  {
    var w :| WalkFromTo(g, w, s, v);
    var k := 0;
    while k < |w| - 1
      invariant 0 <= k < |w|
      invariant marks[w[k]]
    {
      k := k + 1;
    }
  }

  /** Distances that obey the triangle inequality on every arc bound the
      cost of every walk: `dist[v] <= dist[s] + cost(w)` for a walk `s ... v`. */
  lemma {:induction false} WalkBound(g: Star, dist: seq<nat>, w: seq<nat>)
    requires Valid(g) && |dist| == NumNodes(g) && IsWalk(g, w)
    requires forall u, x :: 0 <= u < NumNodes(g) && x in Adjacent(g, u) ==> dist[x] <= dist[u] + ArcCost(g, u, x)
    ensures dist[w[|w| - 1]] <= dist[w[0]] + WalkCost(g, w)
    decreases |w|
  {
    if |w| > 1 {
      assert IsWalk(g, w[1..]) by {
        assert forall k :: 0 <= k < |w| - 1 ==> w[1..][k] == w[k + 1];
      }
      WalkBound(g, dist, w[1..]);
      assert w[1] in Adjacent(g, w[0]);
    }
  }
}
