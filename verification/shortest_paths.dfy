/** What a shortest-path run promises, independent of how it is computed:
    the predecessor and distance lists both Dijkstra variants return, the
    uniqueness of the distances, and the bound on simple walks that decides
    which initial "infinity" is large enough. */
module ShortestPaths {
  import opened Types
  import opened CompactStar
  import opened Paths

  /** No arc `u -> x` offers a shortcut: `dist[x] <= dist[u] + cost(u, x)`,
      where `cost(u, x)` is that of the first arc `u -> x` (`ArcCost`), the one
      the algorithms read; a later, cheaper parallel arc is not consulted. */
  predicate Triangle(g: Star, dist: seq<nat>)
    requires Valid(g) && |dist| == NumNodes(g)
  {
    forall u, x :: 0 <= u < NumNodes(g) && x in Adjacent(g, u) ==> dist[x] <= dist[u] + ArcCost(g, u, x)
  }

  /** The outcome of a Dijkstra run from `s` whose distances start at `inf`:
      `pred[v]` is the invalid id `n` exactly when `v` is `s` or kept the
      initial distance; otherwise it is the last node of a shortest walk to
      `v`. Each distance below `inf` is the cost of a walk from `s`, and no
      arc offers a shortcut. Steps are priced at the first arc between their
      two nodes throughout. */
  ghost predicate ShortestPathResult(g: Star, s: nat, inf: nat, pred: seq<nat>, dist: seq<nat>)
    requires Valid(g)
  {
    var n := NumNodes(g);
    && s < n && |pred| == n && |dist| == n
    && dist[s] == 0 && pred[s] == n
    && (forall v :: 0 <= v < n ==> dist[v] <= inf)
    && (forall v :: 0 <= v < n && pred[v] != n ==>
          && pred[v] < n && v in Adjacent(g, pred[v]) && dist[v] < inf
          && dist[v] == dist[pred[v]] + ArcCost(g, pred[v], v))
    && (forall v :: 0 <= v < n && v != s && pred[v] == n ==> dist[v] == inf)
    && Triangle(g, dist)
    && (forall v :: 0 <= v < n && dist[v] < inf ==>
          exists w :: WalkFromTo(g, w, s, v) && WalkCost(g, w) == dist[v])
  }

  /** No walk from `s` to `v` is cheaper than `dist[v]`, each step priced at
      the first arc between its two nodes. */
  lemma ResultBelowWalks(g: Star, s: nat, inf: nat, pred: seq<nat>, dist: seq<nat>, w: seq<nat>, v: nat)
    requires Valid(g) && ShortestPathResult(g, s, inf, pred, dist)
    requires WalkFromTo(g, w, s, v)
    ensures dist[v] <= WalkCost(g, w)
  {
    WalkBound(g, dist, w);
  }

  /** Each distance of one result is at most the matching distance of
      another result for the same source and `inf`. */
  lemma DistBelow(g: Star, s: nat, inf: nat, pred1: seq<nat>, dist1: seq<nat>,
                  pred2: seq<nat>, dist2: seq<nat>, v: nat)
    requires Valid(g) && v < NumNodes(g)
    requires ShortestPathResult(g, s, inf, pred1, dist1)
    requires ShortestPathResult(g, s, inf, pred2, dist2)
    ensures dist1[v] <= dist2[v]
  {
    if dist2[v] < inf {
      var w :| WalkFromTo(g, w, s, v) && WalkCost(g, w) == dist2[v];
      ResultBelowWalks(g, s, inf, pred1, dist1, w, v);
    }
  }

  /** The distances are determined by the network, the source and `inf`:
      two results for the same three agree on every distance, so however
      ties among equally cheap nodes are broken, only `pred` can differ. */
  lemma DistUnique(g: Star, s: nat, inf: nat, pred1: seq<nat>, dist1: seq<nat>,
                   pred2: seq<nat>, dist2: seq<nat>)
    requires Valid(g)
    requires ShortestPathResult(g, s, inf, pred1, dist1)
    requires ShortestPathResult(g, s, inf, pred2, dist2)
    ensures dist1 == dist2
  {
    forall v | 0 <= v < NumNodes(g)
      ensures dist1[v] == dist2[v]
    {
      DistBelow(g, s, inf, pred1, dist1, pred2, dist2, v);
      DistBelow(g, s, inf, pred2, dist2, pred1, dist1, v);
    }
  }

  /** A result is pinned down by a potential `pot` that satisfies the
      triangle inequality, is 0 at `s`, at most `inf`, and is met by a walk
      to each node: then `dist == pot`. */
  lemma DistFromPotential(g: Star, s: nat, inf: nat, pred: seq<nat>, dist: seq<nat>,
                          pot: seq<nat>, walks: seq<seq<nat>>)
    requires Valid(g) && ShortestPathResult(g, s, inf, pred, dist)
    requires |pot| == NumNodes(g) && |walks| == NumNodes(g) && Triangle(g, pot) && pot[s] == 0
    requires forall v :: 0 <= v < NumNodes(g) ==>
               pot[v] <= inf && WalkFromTo(g, walks[v], s, v) && WalkCost(g, walks[v]) == pot[v]
    ensures dist == pot
  {
    forall v | 0 <= v < NumNodes(g)
      ensures dist[v] == pot[v]
    {
      WalkBound(g, dist, walks[v]);
      if dist[v] < inf {
        var w :| WalkFromTo(g, w, s, v) && WalkCost(g, w) == dist[v];
        WalkBound(g, pot, w);
      }
    }
  }

  // ------------------------------------------------------------ simple walks

  predicate Simple(w: seq<nat>) {
    forall a, b :: 0 <= a < b < |w| ==> w[a] != w[b]
  }

  /** A walk splits at any of its nodes into two walks whose costs add up. */
  lemma {:induction false} WalkCostSplit(g: Star, w: seq<nat>, k: nat)
    requires Valid(g) && IsWalk(g, w) && k < |w|
    ensures IsWalk(g, w[..k + 1]) && IsWalk(g, w[k..])
    ensures WalkCost(g, w) == WalkCost(g, w[..k + 1]) + WalkCost(g, w[k..])
    decreases k
  {
    assert IsWalk(g, w[..k + 1]) by {
      assert forall m :: 0 <= m <= k ==> w[..k + 1][m] == w[m];
    }
    assert IsWalk(g, w[k..]) by {
      assert forall m :: 0 <= m < |w| - k ==> w[k..][m] == w[k + m];
    }
    if k == 0 {
      assert w[0..] == w;
    } else {
      var t := w[1..];
      assert IsWalk(g, t) by {
        assert forall m :: 0 <= m < |w| - 1 ==> t[m] == w[m + 1];
      }
      WalkCostSplit(g, t, k - 1);
      assert t[..k] == w[..k + 1][1..];
      assert t[k - 1..] == w[k..];
    }
  }

  /** Cutting the cycle between two visits of the same node leaves a walk
      with the same ends, made of the part up to the first visit and the
      part from the second. */
  lemma CutWalk(g: Star, w: seq<nat>, a: nat, b: nat)
    requires Valid(g) && IsWalk(g, w) && a < b < |w| && w[a] == w[b]
    ensures IsWalk(g, w[..a] + w[b..])
    ensures (w[..a] + w[b..])[0] == w[0] && (w[..a] + w[b..])[|w[..a] + w[b..]| - 1] == w[|w| - 1]
    ensures (w[..a] + w[b..])[..a + 1] == w[..a + 1] && (w[..a] + w[b..])[a..] == w[b..]
  {
    var cut := w[..a] + w[b..];
    assert |cut| == a + |w| - b;
    assert forall m :: 0 <= m < a ==> cut[m] == w[m];
    assert forall m :: a <= m < |cut| ==> cut[m] == w[m + b - a];
    assert cut[..a + 1] == w[..a + 1];
    assert cut[a..] == w[b..];
  }

  /** ... and the cut walk costs no more. */
  lemma CutCycle(g: Star, w: seq<nat>, a: nat, b: nat)
    requires Valid(g) && IsWalk(g, w) && a < b < |w| && w[a] == w[b]
    ensures IsWalk(g, w[..a] + w[b..])
    ensures (w[..a] + w[b..])[0] == w[0] && (w[..a] + w[b..])[|w[..a] + w[b..]| - 1] == w[|w| - 1]
    ensures WalkCost(g, w[..a] + w[b..]) <= WalkCost(g, w)
  {
    var cut := w[..a] + w[b..];
    CutWalk(g, w, a, b);
    WalkCostSplit(g, w, a);
    WalkCostSplit(g, cut, a);
    SuffixCost(g, w, a, b);
    assert WalkCost(g, cut[..a + 1]) == WalkCost(g, w[..a + 1]);
    assert WalkCost(g, cut[a..]) == WalkCost(g, w[b..]);
  }

  /** A later suffix of a walk costs no more than an earlier one. */
  lemma SuffixCost(g: Star, w: seq<nat>, a: nat, b: nat)
    requires Valid(g) && IsWalk(g, w) && a <= b < |w|
    ensures IsWalk(g, w[a..]) && IsWalk(g, w[b..]) && WalkCost(g, w[b..]) <= WalkCost(g, w[a..])
  {
    WalkCostSplit(g, w, a);
    WalkCostSplit(g, w[a..], b - a);
    assert w[a..][b - a..] == w[b..];
  }

  /** Every walk can be shortened to a simple walk with the same ends. */
  lemma {:induction false} ShortenWalk(g: Star, w: seq<nat>) returns (r: seq<nat>)
    requires Valid(g) && IsWalk(g, w)
    ensures IsWalk(g, r) && Simple(r) && r[0] == w[0] && r[|r| - 1] == w[|w| - 1]
    ensures WalkCost(g, r) <= WalkCost(g, w)
    decreases |w|
  {
    if Simple(w) {
      r := w;
    } else {
      var a, b :| 0 <= a < b < |w| && w[a] == w[b];
      CutCycle(g, w, a, b);
      r := ShortenWalk(g, w[..a] + w[b..]);
    }
  }

  /** Sum of the entries of `c` from `lo` on whose index is in `used`. */
  function MaskSum(c: seq<nat>, lo: nat, used: set<nat>): nat
    requires lo <= |c|
    decreases |c| - lo
  {
    if lo == |c| then 0 else (if lo in used then c[lo] else 0) + MaskSum(c, lo + 1, used)
  }

  lemma {:induction false} MaskSumEmpty(c: seq<nat>, lo: nat)
    requires lo <= |c|
    ensures MaskSum(c, lo, {}) == 0
    decreases |c| - lo
  {
    if lo < |c| {
      MaskSumEmpty(c, lo + 1);
    }
  }

  /** Adding an index at or after `lo` adds its entry. */
  lemma {:induction false} MaskSumAdd(c: seq<nat>, lo: nat, used: set<nat>, j: nat)
    requires lo <= |c| && j < |c| && j !in used
    ensures MaskSum(c, lo, used + {j}) == MaskSum(c, lo, used) + (if lo <= j then c[j] else 0)
    decreases |c| - lo
  {
    if lo < |c| {
      MaskSumAdd(c, lo + 1, used, j);
    }
  }

  /** A masked sum is at most the full sum. */
  lemma {:induction false} MaskSumBelow(c: seq<nat>, lo: nat, used: set<nat>)
    requires lo <= |c|
    ensures MaskSum(c, lo, used) <= Sum(c[lo..])
    decreases |c| - lo
  {
    if lo < |c| {
      MaskSumBelow(c, lo + 1, used);
      assert c[lo..][1..] == c[lo + 1..];
    }
  }

  /** The index of the first arc `u -> v`, whose cost the algorithms read. */
  function ArcIndex(g: Star, u: nat, v: nat): (r: nat)
    requires Valid(g) && v in Adjacent(g, u)
    ensures u < NumNodes(g) && g.point[u] <= r < g.point[u + 1] && r < |g.costs|
    ensures ArcCost(g, u, v) == g.costs[r]
  {
    var r := GetHead(g, u, v).value;
    assert g.point[u + 1] <= g.point[|g.point| - 1];
    r
  }

  /** The arc indices a walk uses, one per step. */
  function StepIndices(g: Star, w: seq<nat>): set<nat>
    requires Valid(g) && IsWalk(g, w)
    decreases |w|
  {
    if |w| == 1 then {}
    else
      assert IsWalk(g, w[1..]) by {
        assert forall k :: 0 <= k < |w| - 1 ==> w[1..][k] == w[k + 1];
      }
      {ArcIndex(g, w[0], w[1])} + StepIndices(g, w[1..])
  }

  /** A walk that never leaves `u` uses no index of `u`'s arc range. */
  lemma {:induction false} StepIndicesAvoid(g: Star, w: seq<nat>, u: nat, x: nat)
    requires Valid(g) && IsWalk(g, w) && u < NumNodes(g)
    requires g.point[u] <= x < g.point[u + 1]
    requires forall k :: 0 <= k < |w| ==> w[k] != u
    ensures x !in StepIndices(g, w)
    decreases |w|
  {
    if |w| > 1 {
      assert IsWalk(g, w[1..]) by {
        assert forall k :: 0 <= k < |w| - 1 ==> w[1..][k] == w[k + 1];
      }
      RangesDisjoint(g, w[0], u, ArcIndex(g, w[0], w[1]));
      StepIndicesAvoid(g, w[1..], u, x);
    }
  }

  /** Different nodes own disjoint arc ranges. */
  lemma RangesDisjoint(g: Star, u: nat, t: nat, x: nat)
    requires Valid(g) && u < NumNodes(g) && t < NumNodes(g) && u != t
    requires g.point[u] <= x < g.point[u + 1]
    ensures !(g.point[t] <= x < g.point[t + 1])
  {
    if u < t {
      assert g.point[u + 1] <= g.point[t];
    } else {
      assert g.point[t + 1] <= g.point[u];
    }
  }

  /** A simple walk pays each arc at most once: its cost is the masked sum
      of the arc costs over its step indices. */
  lemma {:induction false} SimpleWalkMask(g: Star, w: seq<nat>)
    requires Valid(g) && IsWalk(g, w) && Simple(w)
    ensures WalkCost(g, w) == MaskSum(g.costs, 0, StepIndices(g, w))
    decreases |w|
  {
    if |w| == 1 {
      MaskSumEmpty(g.costs, 0);
    } else {
      var t := w[1..];
      assert IsWalk(g, t) && Simple(t) by {
        assert forall k :: 0 <= k < |w| - 1 ==> t[k] == w[k + 1];
      }
      SimpleWalkMask(g, t);
      var j := ArcIndex(g, w[0], w[1]);
      assert forall k :: 0 <= k < |t| ==> t[k] == w[k + 1] && t[k] != w[0];
      StepIndicesAvoid(g, t, w[0], j);
      MaskSumAdd(g.costs, 0, StepIndices(g, t), j);
      assert StepIndices(g, w) == StepIndices(g, t) + {j};
    }
  }

  /** A simple walk costs at most the sum of all arc costs. */
  lemma SimpleWalkBound(g: Star, w: seq<nat>)
    requires Valid(g) && IsWalk(g, w) && Simple(w)
    ensures WalkCost(g, w) <= Sum(g.costs)
  {
    SimpleWalkMask(g, w);
    MaskSumBelow(g.costs, 0, StepIndices(g, w));
    assert g.costs[0..] == g.costs;
  }

  /** Every node reachable from `s` is reachable at a cost no greater than
      the sum of all arc costs. */
  lemma ReachableWithinSum(g: Star, s: nat, v: nat) returns (w: seq<nat>)
    requires Valid(g) && Reachable(g, s, v)
    ensures WalkFromTo(g, w, s, v) && WalkCost(g, w) <= Sum(g.costs)
  {
    var w0 :| WalkFromTo(g, w0, s, v);
    w := ShortenWalk(g, w0);
    SimpleWalkBound(g, w);
  }

  /** With `inf` above the sum of all arc costs, a result tells reachability
      exactly: `v` is reachable from `s` iff its distance is below `inf`,
      and, for `v` other than `s`, iff it has a predecessor. */
  lemma ResultReachable(g: Star, s: nat, inf: nat, pred: seq<nat>, dist: seq<nat>, v: nat)
    requires Valid(g) && ShortestPathResult(g, s, inf, pred, dist) && Sum(g.costs) < inf
    requires v < NumNodes(g)
    ensures Reachable(g, s, v) <==> dist[v] < inf
    ensures v != s ==> (Reachable(g, s, v) <==> pred[v] != NumNodes(g))
  {
    if Reachable(g, s, v) {
      var w := ReachableWithinSum(g, s, v);
      ResultBelowWalks(g, s, inf, pred, dist, w, v);
    }
    if dist[v] < inf {
      var w :| WalkFromTo(g, w, s, v) && WalkCost(g, w) == dist[v];
    }
  }
}
