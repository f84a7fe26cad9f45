/** The two Dijkstra variants of the library: the vanilla one, which scans a
    list of temporary nodes for the cheapest, and the heap one, which pops a
    lazy-deletion priority queue and skips nodes already expanded. Both
    relax the arcs of the chosen node with the same strict-improvement rule,
    and both end in a `ShortestPathResult`. */
module DijkstraAlgorithms {
  import opened Types
  import opened CompactStar
  import opened Paths
  import opened ShortestPaths
  import Heaps

  // ------------------------------------------------------------ relaxation

  /** The arc `i -> x` strictly lowers the distance of `x`. */
  predicate Improves(g: Star, i: nat, d: seq<nat>, x: nat)
    requires Valid(g) && |d| == NumNodes(g) && i < |d| && x < |d|
  {
    x in Adjacent(g, i) && d[i] + ArcCost(g, i, x) < d[x]
  }

  /** What relaxing every arc out of `i` does: an improved node gets the
      new distance and `i` as its predecessor, every other entry is kept,
      and `changed` holds exactly the improved nodes, each once. */
  ghost predicate RelaxResult(g: Star, i: nat, pred: seq<nat>, d: seq<nat>,
                              pred': seq<nat>, d': seq<nat>, changed: seq<nat>)
    requires Valid(g) && |pred| == NumNodes(g) && |d| == NumNodes(g) && i < |d|
  {
    var n := NumNodes(g);
    && |pred'| == n && |d'| == n
    && (forall x :: 0 <= x < n ==>
          d'[x] == if Improves(g, i, d, x) then d[i] + ArcCost(g, i, x) else d[x])
    && (forall x :: 0 <= x < n ==> pred'[x] == if Improves(g, i, d, x) then i else pred[x])
    && (forall x :: x in changed <==> 0 <= x < n && Improves(g, i, d, x))
  }

  /** The loop over the neighbours of `i`: an update happens only on a
      strict improvement, with the cost of the first arc `i -> j`. Also
      returns the improved nodes in the order they were improved. */
  method Relax(g: Star, i: nat, pred: seq<nat>, d: seq<nat>)
      returns (pred': seq<nat>, d': seq<nat>, changed: seq<nat>)
    requires Valid(g) && i < NumNodes(g) && |pred| == NumNodes(g) && |d| == NumNodes(g)
    ensures RelaxResult(g, i, pred, d, pred', d', changed)
    ensures forall a, b :: 0 <= a < b < |changed| ==> changed[a] != changed[b]
  {
    var n := NumNodes(g);
    var adj := Adjacent(g, i);
    pred', d', changed := pred, d, [];
    ghost var seen: set<nat> := {};
    var k := 0;
    while k < |adj|
      invariant k <= |adj| && |pred'| == n && |d'| == n
      invariant forall m :: 0 <= m < k ==> adj[m] in seen
      invariant forall x :: 0 <= x < n ==>
                  d'[x] == if x in seen && Improves(g, i, d, x) then d[i] + ArcCost(g, i, x) else d[x]
      invariant forall x :: 0 <= x < n ==>
                  pred'[x] == if x in seen && Improves(g, i, d, x) then i else pred[x]
      invariant forall x :: x in changed <==> 0 <= x < n && x in seen && Improves(g, i, d, x)
      invariant forall a, b :: 0 <= a < b < |changed| ==> changed[a] != changed[b]
    {
      var j := adj[k];
      var cost := Cost(g, i, j).value;
      if d'[j] > d'[i] + cost {
        d' := d'[j := d'[i] + cost];
        pred' := pred'[j := i];
        changed := changed + [j];
      }
      seen := seen + {j};
      k := k + 1;
    }
  }

  /** After relaxing `i`, no arc out of `i` offers a shortcut, the distance
      of `i` is unchanged, and no distance went up. */
  lemma RelaxTriangle(g: Star, i: nat, pred: seq<nat>, d: seq<nat>,
                      pred': seq<nat>, d': seq<nat>, changed: seq<nat>)
    requires Valid(g) && i < NumNodes(g) && |pred| == NumNodes(g) && |d| == NumNodes(g)
    requires RelaxResult(g, i, pred, d, pred', d', changed)
    ensures d'[i] == d[i]
    ensures forall x :: 0 <= x < NumNodes(g) ==> d'[x] <= d[x]
    ensures forall x :: x in Adjacent(g, i) ==> d'[x] <= d'[i] + ArcCost(g, i, x)
  {
  }

  // ---------------------------------------------------- find_min helpers

  /** `find_min`: scanning `toCheck` in order, the node whose distance is
      the first strictly below everything seen so far, starting from
      `limit`; `|distances|`, an invalid id, when no distance is below
      `limit`. */
  method FindMin(toCheck: seq<nat>, distances: seq<nat>, limit: nat) returns (minId: nat)
    requires forall k :: 0 <= k < |toCheck| ==> toCheck[k] < |distances|
    ensures minId == |distances| <==> forall k :: 0 <= k < |toCheck| ==> distances[toCheck[k]] >= limit
    ensures minId != |distances| ==>
              exists k :: 0 <= k < |toCheck| && toCheck[k] == minId && distances[minId] < limit
                && (forall m :: 0 <= m < |toCheck| ==> distances[minId] <= distances[toCheck[m]])
                && (forall m :: 0 <= m < k ==> distances[minId] < distances[toCheck[m]])
  {
    var min := limit;
    minId := |distances|;
    ghost var at := 0;
    var k := 0;
    while k < |toCheck|
      invariant k <= |toCheck| && min <= limit
      invariant minId == |distances| ==> min == limit && forall m :: 0 <= m < k ==> distances[toCheck[m]] >= limit
      invariant minId != |distances| ==>
                  && at < k && toCheck[at] == minId && minId < |distances| && min == distances[minId]
                  && min < limit
                  && (forall m :: 0 <= m < k ==> min <= distances[toCheck[m]])
                  && (forall m :: 0 <= m < at ==> min < distances[toCheck[m]])
    {
      var node := toCheck[k];
      if distances[node] < min {
        minId := node;
        min := distances[node];
        at := k;
      }
      k := k + 1;
    }
  }

  /** `find_min_index`: the last position of `node` in `list`, 0 when it
      does not occur. */
  method FindMinIndex(list: seq<nat>, node: nat) returns (index: nat)
    ensures node in list ==> index < |list| && list[index] == node
                             && forall m :: index < m < |list| ==> list[m] != node
    ensures node !in list ==> index == 0
  {
    index := 0;
    var i := 0;
    while i < |list|
      invariant i <= |list|
      invariant node in list[..i] ==> index < i && list[index] == node
                                      && forall m :: index < m < i ==> list[m] != node
      invariant node !in list[..i] ==> index == 0
    {
      assert list[..i + 1] == list[..i] + [list[i]];
      if list[i] == node {
        index := i;
      }
      i := i + 1;
    }
    assert list[..i] == list;
  }

  // ------------------------------------------------- the shared invariant

  /** Sizes, the source, and the default entries. */
  ghost predicate CoreBasics(g: Star, s: nat, inf: nat, pred: seq<nat>, d: seq<nat>)
    requires Valid(g)
  {
    var n := NumNodes(g);
    && s < n && |pred| == n && |d| == n && d[s] == 0 && pred[s] == n
    && (forall v :: 0 <= v < n ==> d[v] <= inf)
    && (forall v :: 0 <= v < n && v != s && pred[v] == n ==> d[v] == inf)
  }

  /** Every recorded predecessor is settled and is the tail of an arc that
      accounts for the distance. */
  ghost predicate CoreTree(g: Star, inf: nat, settled: set<nat>, pred: seq<nat>, d: seq<nat>)
    requires Valid(g) && |pred| == NumNodes(g) && |d| == NumNodes(g)
  {
    var n := NumNodes(g);
    forall v :: 0 <= v < n && pred[v] != n ==>
      && pred[v] in settled && pred[v] < n && v in Adjacent(g, pred[v]) && d[v] < inf
      && d[v] == d[pred[v]] + ArcCost(g, pred[v], v)
  }

  /** Settled nodes are no farther than unsettled ones, and their arcs
      offer no shortcut. */
  ghost predicate CoreSettled(g: Star, settled: set<nat>, d: seq<nat>)
    requires Valid(g) && |d| == NumNodes(g)
  {
    var n := NumNodes(g);
    && (forall p :: p in settled ==> p < n)
    && (forall p, t :: p in settled && 0 <= t < n && t !in settled ==> d[p] <= d[t])
    && (forall u, x :: u in settled && x in Adjacent(g, u) ==> d[x] <= d[u] + ArcCost(g, u, x))
  }

  /** A witness walk for every distance below `inf`, and for the source. */
  ghost predicate CoreWalks(g: Star, s: nat, inf: nat, d: seq<nat>, walks: seq<seq<nat>>)
    requires Valid(g) && |d| == NumNodes(g)
  {
    && |walks| == NumNodes(g)
    && forall v :: 0 <= v < NumNodes(g) && (d[v] < inf || v == s) ==>
         WalkFromTo(g, walks[v], s, v) && WalkCost(g, walks[v]) == d[v]
  }

  /** What both variants keep true; `settled` are the expanded nodes. */
  ghost predicate Core(g: Star, s: nat, inf: nat, settled: set<nat>, pred: seq<nat>, d: seq<nat>,
                       walks: seq<seq<nat>>)
    requires Valid(g)
  {
    && CoreBasics(g, s, inf, pred, d)
    && CoreTree(g, inf, settled, pred, d)
    && CoreSettled(g, settled, d)
    && CoreWalks(g, s, inf, d, walks)
  }

  /** The state both variants start from. */
  lemma InitCore(g: Star, s: nat, inf: nat)
    requires Valid(g) && s < NumNodes(g)
    ensures Core(g, s, inf, {}, seq(NumNodes(g), v => InvalidId(g)),
                 seq(NumNodes(g), v => inf)[s := 0], seq(NumNodes(g), v => [s]))
  {
    ReachRefl(g, s);
    assert WalkFromTo(g, [s], s, s);
  }

  /** Settling `i`, a cheapest unsettled node, and relaxing its arcs keeps
      the invariant; the lemma extends the witness walks. */
  lemma Settle(g: Star, s: nat, inf: nat, settled: set<nat>, pred: seq<nat>, d: seq<nat>,
               walks: seq<seq<nat>>, i: nat, pred': seq<nat>, d': seq<nat>, changed: seq<nat>)
      returns (walks': seq<seq<nat>>)
    requires Valid(g) && Core(g, s, inf, settled, pred, d, walks)
    requires i < NumNodes(g) && i !in settled
    requires forall t :: 0 <= t < NumNodes(g) && t !in settled ==> d[i] <= d[t]
    requires RelaxResult(g, i, pred, d, pred', d', changed)
    ensures Core(g, s, inf, settled + {i}, pred', d', walks')
  {
    SettleBasics(g, s, inf, settled, pred, d, walks, i, pred', d', changed);
    SettleTree(g, s, inf, settled, pred, d, walks, i, pred', d', changed);
    SettleSettled(g, s, inf, settled, pred, d, walks, i, pred', d', changed);
    walks' := SettleWalks(g, s, inf, settled, pred, d, walks, i, pred', d', changed);
  }

  lemma SettleBasics(g: Star, s: nat, inf: nat, settled: set<nat>, pred: seq<nat>, d: seq<nat>,
                     walks: seq<seq<nat>>, i: nat, pred': seq<nat>, d': seq<nat>, changed: seq<nat>)
    requires Valid(g) && Core(g, s, inf, settled, pred, d, walks)
    requires i < NumNodes(g) && RelaxResult(g, i, pred, d, pred', d', changed)
    ensures CoreBasics(g, s, inf, pred', d')
  {
    assert !Improves(g, i, d, s);
  }

  lemma SettleTree(g: Star, s: nat, inf: nat, settled: set<nat>, pred: seq<nat>, d: seq<nat>,
                   walks: seq<seq<nat>>, i: nat, pred': seq<nat>, d': seq<nat>, changed: seq<nat>)
    requires Valid(g) && Core(g, s, inf, settled, pred, d, walks)
    requires i < NumNodes(g) && i !in settled
    requires RelaxResult(g, i, pred, d, pred', d', changed)
    ensures |pred'| == NumNodes(g) && |d'| == NumNodes(g)
    ensures CoreTree(g, inf, settled + {i}, pred', d')
  {
    var n := NumNodes(g);
    assert !Improves(g, i, d, i);
    forall v | 0 <= v < n && pred'[v] != n
      ensures && pred'[v] in settled + {i} && pred'[v] < n && v in Adjacent(g, pred'[v]) && d'[v] < inf
              && d'[v] == d'[pred'[v]] + ArcCost(g, pred'[v], v)
    {
      if !Improves(g, i, d, v) {
        var p := pred[v];
        assert p in settled && d[p] <= d[i];
        assert !Improves(g, i, d, p);
      }
    }
  }

  lemma SettleSettled(g: Star, s: nat, inf: nat, settled: set<nat>, pred: seq<nat>, d: seq<nat>,
                      walks: seq<seq<nat>>, i: nat, pred': seq<nat>, d': seq<nat>, changed: seq<nat>)
    requires Valid(g) && |pred| == NumNodes(g) && |d| == NumNodes(g) && CoreSettled(g, settled, d)
    requires i < NumNodes(g) && i !in settled
    requires forall t :: 0 <= t < NumNodes(g) && t !in settled ==> d[i] <= d[t]
    requires RelaxResult(g, i, pred, d, pred', d', changed)
    ensures |d'| == NumNodes(g) && CoreSettled(g, settled + {i}, d')
  {
    var n := NumNodes(g);
    var settled' := settled + {i};
    RelaxTriangle(g, i, pred, d, pred', d', changed);
    forall p | p in settled'
      ensures p < n && d'[p] == d[p] && d[p] <= d[i]
    {
      if p != i {
        KeepSettled(g, i, d, p, d'[p]);
      }
    }
    forall t | 0 <= t < n && t !in settled'
      ensures d[i] <= d'[t]
    {
      StayAbove(g, i, d, t, d'[t]);
    }
    assert forall p, t :: p in settled' && 0 <= t < n && t !in settled' ==> d'[p] <= d'[t];
    forall u, x | u in settled' && x in Adjacent(g, u)
      ensures d'[x] <= d'[u] + ArcCost(g, u, x)
    {
    }
  }

  /** A node no farther than `i` is not improved by `i`'s arcs. */
  lemma KeepSettled(g: Star, i: nat, d: seq<nat>, p: nat, dp: nat)
    requires Valid(g) && |d| == NumNodes(g) && i < NumNodes(g) && p < NumNodes(g)
    requires d[p] <= d[i]
    requires dp == if Improves(g, i, d, p) then d[i] + ArcCost(g, i, p) else d[p]
    ensures dp == d[p]
  {
  }

  /** Relaxing `i` leaves every node at least as far as `i`. */
  lemma StayAbove(g: Star, i: nat, d: seq<nat>, t: nat, dt: nat)
    requires Valid(g) && |d| == NumNodes(g) && i < NumNodes(g) && t < NumNodes(g)
    requires d[i] <= d[t]
    requires dt == if Improves(g, i, d, t) then d[i] + ArcCost(g, i, t) else d[t]
    ensures d[i] <= dt
  {
  }

  lemma SettleWalks(g: Star, s: nat, inf: nat, settled: set<nat>, pred: seq<nat>, d: seq<nat>,
                    walks: seq<seq<nat>>, i: nat, pred': seq<nat>, d': seq<nat>, changed: seq<nat>)
      returns (walks': seq<seq<nat>>)
    requires Valid(g) && CoreBasics(g, s, inf, pred, d) && CoreWalks(g, s, inf, d, walks)
    requires i < NumNodes(g) && RelaxResult(g, i, pred, d, pred', d', changed)
    ensures |d'| == NumNodes(g) && CoreWalks(g, s, inf, d', walks')
  {
    var n := NumNodes(g);
    walks' := seq(n, v requires 0 <= v < n => if Improves(g, i, d, v) then walks[i] + [v] else walks[v]);
    forall v | 0 <= v < n && (d'[v] < inf || v == s)
      ensures WalkFromTo(g, walks'[v], s, v) && WalkCost(g, walks'[v]) == d'[v]
    {
      SettleWalkAt(g, s, inf, d, walks, i, v, d'[v]);
    }
  }

  /** The witness walk of `v` after relaxing `i`: the walk to `i` extended by
      the arc to `v` when that improved `v`, else the old one. */
  lemma SettleWalkAt(g: Star, s: nat, inf: nat, d: seq<nat>, walks: seq<seq<nat>>, i: nat, v: nat, dv: nat)
    requires Valid(g) && |d| == NumNodes(g) && i < NumNodes(g) && v < NumNodes(g)
    requires CoreWalks(g, s, inf, d, walks) && d[v] <= inf
    requires dv == if Improves(g, i, d, v) then d[i] + ArcCost(g, i, v) else d[v]
    requires dv < inf || v == s
    ensures var w := if Improves(g, i, d, v) then walks[i] + [v] else walks[v];
            WalkFromTo(g, w, s, v) && WalkCost(g, w) == dv
  {
    if Improves(g, i, d, v) {
      WalkCostSnoc(g, walks[i], v);
    }
  }

  /** When every unsettled node still has distance `inf` and is not the
      source, the lists are a shortest-path result. */
  lemma CoreResult(g: Star, s: nat, inf: nat, settled: set<nat>, pred: seq<nat>, d: seq<nat>,
                   walks: seq<seq<nat>>)
    requires Valid(g) && Core(g, s, inf, settled, pred, d, walks)
    requires forall v :: 0 <= v < NumNodes(g) && v !in settled ==> v != s && d[v] == inf
    ensures ShortestPathResult(g, s, inf, pred, d)
  {
    var n := NumNodes(g);
    forall u, x | 0 <= u < n && x in Adjacent(g, u)
      ensures d[x] <= d[u] + ArcCost(g, u, x)
    {
    }
    forall v | 0 <= v < n && d[v] < inf
      ensures exists w :: WalkFromTo(g, w, s, v) && WalkCost(g, w) == d[v]
    {
      assert WalkFromTo(g, walks[v], s, v);
    }
  }

  // ------------------------------------------------------ vanilla variant

  /** The node lists of the vanilla variant: `temporary` holds the
      unsettled nodes in increasing order, and with `permanent` it accounts
      for all `n` nodes. */
  ghost predicate Shape(n: nat, temporary: seq<nat>, permanent: seq<nat>, settled: set<nat>) {
    && (forall k :: 0 <= k < |temporary| ==> temporary[k] < n)
    && (forall a, b :: 0 <= a < b < |temporary| ==> temporary[a] < temporary[b])
    && (forall v :: 0 <= v < n ==> (v in temporary <==> v !in settled))
    && |temporary| + |permanent| == n
  }

  /** Moving the node at `index` from `temporary` to `permanent` settles
      it. */
  lemma ShapeMove(n: nat, temporary: seq<nat>, permanent: seq<nat>, settled: set<nat>, index: nat)
    requires Shape(n, temporary, permanent, settled) && index < |temporary|
    requires forall p :: p in settled ==> p < n
    ensures Shape(n, temporary[..index] + temporary[index + 1..], permanent + [temporary[index]],
                  settled + {temporary[index]})
  {
    var t := temporary[..index] + temporary[index + 1..];
    assert forall k :: 0 <= k < index ==> t[k] == temporary[k];
    assert forall k :: index <= k < |t| ==> t[k] == temporary[k + 1];
    forall v | 0 <= v < n
      ensures v in t <==> v !in settled + {temporary[index]}
    {
      if v in temporary && v != temporary[index] {
        var k :| 0 <= k < |temporary| && temporary[k] == v;
        if k < index {
          assert t[k] == v;
        } else {
          assert t[k - 1] == v;
        }
      }
      if v in t {
        var k :| 0 <= k < |t| && t[k] == v;
      }
    }
  }

  /** Every unsettled node has a distance below `limit`, so `find_min`
      returns a cheapest unsettled node, and `find_min_index` finds it. */
  lemma VanillaPick(g: Star, s: nat, inf: nat, limit: nat, settled: set<nat>, pred: seq<nat>,
                    d: seq<nat>, temporary: seq<nat>, permanent: seq<nat>, next: nat)
    requires Valid(g) && CoreBasics(g, s, inf, pred, d) && inf < limit
    requires Shape(NumNodes(g), temporary, permanent, settled) && temporary != []
    requires next != |d| ==>
               exists k :: 0 <= k < |temporary| && temporary[k] == next && d[next] < limit
                 && (forall m :: 0 <= m < |temporary| ==> d[next] <= d[temporary[m]])
    requires next == |d| <==> forall k :: 0 <= k < |temporary| ==> d[temporary[k]] >= limit
    ensures next in temporary && next < NumNodes(g) && next !in settled
    ensures forall t :: 0 <= t < NumNodes(g) && t !in settled ==> d[next] <= d[t]
  {
    assert d[temporary[0]] < limit;
    var k :| 0 <= k < |temporary| && temporary[k] == next
             && (forall m :: 0 <= m < |temporary| ==> d[next] <= d[temporary[m]]);
    forall t | 0 <= t < NumNodes(g) && t !in settled
      ensures d[next] <= d[t]
    {
      var m :| 0 <= m < |temporary| && temporary[m] == t;
    }
  }

  /** `vanilla_dijkstra` with the distances starting at `inf`; `limit`
      stands for the `INF` constant `find_min` starts from, which must
      exceed every distance. */
  method VanillaDijkstraFrom(g: Star, source: nat, inf: nat, limit: nat)
      returns (pred: seq<nat>, dist: seq<nat>)
    requires Valid(g) && source < NumNodes(g) && inf < limit
    ensures ShortestPathResult(g, source, inf, pred, dist)
  {
    var n := NumNodes(g);
    var temporary: seq<nat> := seq(n, v => v);
    var permanent: seq<nat> := [];
    pred := seq(n, v => InvalidId(g));
    dist := seq(n, v => inf)[source := 0];
    ghost var settled: set<nat> := {};
    ghost var walks: seq<seq<nat>> := seq(n, v => [source]);
    InitCore(g, source, inf);
    forall v | 0 <= v < n
      ensures v in temporary
    {
      assert temporary[v] == v;
    }
    while |permanent| < n
      invariant Core(g, source, inf, settled, pred, dist, walks)
      invariant Shape(n, temporary, permanent, settled)
      decreases n - |permanent|
    {
      var nextNode := FindMin(temporary, dist, limit);
      VanillaPick(g, source, inf, limit, settled, pred, dist, temporary, permanent, nextNode);
      var index := FindMinIndex(temporary, nextNode);
      ShapeMove(n, temporary, permanent, settled, index);
      permanent := permanent + [temporary[index]];
      temporary := temporary[..index] + temporary[index + 1..];
      var pred', dist', changed := Relax(g, nextNode, pred, dist);
      walks := Settle(g, source, inf, settled, pred, dist, walks, nextNode, pred', dist', changed);
      pred, dist := pred', dist';
      settled := settled + {nextNode};
    }
    CoreResult(g, source, inf, settled, pred, dist, walks);
  }

  // --------------------------------------------------------- heap variant

  /** Inserts `(x, d[x])` for each `x` of `xs`, in order. */
  function InsertAll(h: Heaps.BinaryHeap, xs: seq<nat>, d: seq<nat>): (r: Heaps.BinaryHeap)
    requires forall k :: 0 <= k < |xs| ==> xs[k] < |d|
    decreases |xs|
  {
    if xs == [] then h else InsertAll(Heaps.Insert(h, xs[0], d[xs[0]]), xs[1..], d)
  }

  /** `InsertAll` adds one member per inserted node, repeats included. */
  lemma {:induction false} InsertAllSize(h: Heaps.BinaryHeap, xs: seq<nat>, d: seq<nat>)
    requires forall k :: 0 <= k < |xs| ==> xs[k] < |d|
    ensures Heaps.Size(InsertAll(h, xs, d)) == Heaps.Size(h) + |xs|
    decreases |xs|
  {
    if xs != [] {
      InsertAllSize(Heaps.Insert(h, xs[0], d[xs[0]]), xs[1..], d);
    }
  }

  /** The heap after `InsertAll` holds the old members and one member per
      inserted node, with that node's distance negated. */
  lemma {:induction false} InsertAllMembers(h: Heaps.BinaryHeap, xs: seq<nat>, d: seq<nat>, e: Heaps.HeapMember)
    requires forall k :: 0 <= k < |xs| ==> xs[k] < |d|
    ensures e in InsertAll(h, xs, d).inner <==>
              e in h.inner || exists k :: 0 <= k < |xs| && e == Heaps.HeapMember(xs[k], -(d[xs[k]] as int))
    decreases |xs|
  {
    if xs != [] {
      InsertAllMembers(Heaps.Insert(h, xs[0], d[xs[0]]), xs[1..], d, e);
      Heaps.InsertMembers(h, xs[0], d[xs[0]], e);
      if exists k :: 0 <= k < |xs| && e == Heaps.HeapMember(xs[k], -(d[xs[k]] as int)) {
        var k :| 0 <= k < |xs| && e == Heaps.HeapMember(xs[k], -(d[xs[k]] as int));
        if k > 0 {
          assert xs[1..][k - 1] == xs[k];
        }
      }
      if exists k :: 0 <= k < |xs| - 1 && e == Heaps.HeapMember(xs[1..][k], -(d[xs[1..][k]] as int)) {
        var k :| 0 <= k < |xs| - 1 && e == Heaps.HeapMember(xs[1..][k], -(d[xs[1..][k]] as int));
        assert xs[1..][k] == xs[k + 1];
      }
    }
  }

  /** The heap and marks of the heap variant: `marked` is the settled set,
      no member understates its node's distance, and every unmarked node
      with a finite distance (or the source) has a member carrying exactly
      its distance. */
  ghost predicate HeapInv(g: Star, s: nat, inf: nat, heap: Heaps.BinaryHeap, marked: seq<bool>,
                          d: seq<nat>, settled: set<nat>)
    requires Valid(g) && |d| == NumNodes(g)
  {
    var n := NumNodes(g);
    && |marked| == n
    && (forall v :: 0 <= v < n ==> (marked[v] <==> v in settled))
    && (forall e :: e in heap.inner ==> e.key < n && d[e.key] <= -e.cost)
    && (forall v :: 0 <= v < n && !marked[v] && (d[v] < inf || v == s) ==>
          Heaps.HeapMember(v, -(d[v] as int)) in heap.inner)
  }

  /** The top of the heap, when its node is unmarked, is a cheapest
      unsettled node. */
  lemma HeapPick(g: Star, s: nat, inf: nat, heap: Heaps.BinaryHeap, marked: seq<bool>, pred: seq<nat>,
                 d: seq<nat>, settled: set<nat>)
    requires Valid(g) && CoreBasics(g, s, inf, pred, d) && HeapInv(g, s, inf, heap, marked, d, settled)
    requires !Heaps.IsEmpty(heap) && !marked[Heaps.Top(heap).key]
    ensures forall t :: 0 <= t < NumNodes(g) && t !in settled ==> d[Heaps.Top(heap).key] <= d[t]
  {
    var top := Heaps.Top(heap);
    forall t | 0 <= t < NumNodes(g) && t !in settled
      ensures d[top.key] <= d[t]
    {
      if d[t] < inf || t == s {
        assert Heaps.HeapMember(t, -(d[t] as int)) in heap.inner;
      }
    }
  }

  /** Popping a member whose node is already marked keeps the invariant. */
  lemma HeapSkip(g: Star, s: nat, inf: nat, heap: Heaps.BinaryHeap, marked: seq<bool>,
                 d: seq<nat>, settled: set<nat>)
    requires Valid(g) && |d| == NumNodes(g) && HeapInv(g, s, inf, heap, marked, d, settled)
    requires !Heaps.IsEmpty(heap) && marked[Heaps.Top(heap).key]
    ensures HeapInv(g, s, inf, Heaps.DeleteMin(heap), marked, d, settled)
  {
    var top := Heaps.Top(heap);
    forall e | e in Heaps.DeleteMin(heap).inner
      ensures e in heap.inner
    {
      Heaps.DeleteMinSub(heap, e);
    }
    forall v | 0 <= v < NumNodes(g) && !marked[v] && (d[v] < inf || v == s)
      ensures Heaps.HeapMember(v, -(d[v] as int)) in Heaps.DeleteMin(heap).inner
    {
      Heaps.DeleteMinKeeps(heap, Heaps.HeapMember(v, -(d[v] as int)));
    }
  }

  /** After popping `i` and pushing the improved nodes, no member
      understates its node's new distance. */
  lemma HeapExpandBound(g: Star, heap: Heaps.BinaryHeap, pred: seq<nat>, d: seq<nat>,
                        pred': seq<nat>, d': seq<nat>, changed: seq<nat>)
    requires Valid(g) && |pred| == NumNodes(g) && |d| == NumNodes(g) && !Heaps.IsEmpty(heap)
    requires forall e :: e in heap.inner ==> e.key < NumNodes(g) && d[e.key] <= -e.cost
    requires Heaps.Top(heap).key < NumNodes(g)
    requires RelaxResult(g, Heaps.Top(heap).key, pred, d, pred', d', changed)
    ensures forall k :: 0 <= k < |changed| ==> changed[k] < |d'|
    ensures forall e :: e in InsertAll(Heaps.DeleteMin(heap), changed, d').inner ==>
              e.key < NumNodes(g) && d'[e.key] <= -e.cost
  {
    var i := Heaps.Top(heap).key;
    var popped := Heaps.DeleteMin(heap);
    assert forall k :: 0 <= k < |changed| ==> changed[k] in changed;
    RelaxTriangle(g, i, pred, d, pred', d', changed);
    forall e | e in InsertAll(popped, changed, d').inner
      ensures e.key < NumNodes(g) && d'[e.key] <= -e.cost
    {
      InsertAllMembers(popped, changed, d', e);
      if e in popped.inner {
        Heaps.DeleteMinSub(heap, e);
      } else {
        var k :| 0 <= k < |changed| && e == Heaps.HeapMember(changed[k], -(d'[changed[k]] as int));
      }
    }
  }

  /** A node pushed by `InsertAll` is in the result with its distance. */
  lemma InsertedMember(h: Heaps.BinaryHeap, xs: seq<nat>, d: seq<nat>, v: nat)
    requires forall k :: 0 <= k < |xs| ==> xs[k] < |d|
    requires v in xs
    ensures v < |d| && Heaps.HeapMember(v, -(d[v] as int)) in InsertAll(h, xs, d).inner
  {
    var k :| 0 <= k < |xs| && xs[k] == v;
    InsertAllMembers(h, xs, d, Heaps.HeapMember(v, -(d[v] as int)));
  }

  /** A member other than the top survives the pop and the pushes. */
  lemma KeptMember(h: Heaps.BinaryHeap, xs: seq<nat>, d: seq<nat>, e: Heaps.HeapMember)
    requires forall k :: 0 <= k < |xs| ==> xs[k] < |d|
    requires !Heaps.IsEmpty(h) && e in h.inner && e != Heaps.Top(h)
    ensures e in InsertAll(Heaps.DeleteMin(h), xs, d).inner
  {
    Heaps.DeleteMinKeeps(h, e);
    InsertAllMembers(Heaps.DeleteMin(h), xs, d, e);
  }

  /** After popping the top and pushing the changed nodes, every node other
      than the top that is unmarked with a finite distance (or is the
      source) has a member carrying its new distance. */
  lemma HeapExpandCover(g: Star, s: nat, inf: nat, heap: Heaps.BinaryHeap, marked: seq<bool>,
                        d: seq<nat>, d': seq<nat>, changed: seq<nat>)
    requires Valid(g) && |d| == NumNodes(g) && |d'| == NumNodes(g) && |marked| == NumNodes(g)
    requires !Heaps.IsEmpty(heap)
    requires forall k :: 0 <= k < |changed| ==> changed[k] < |d'|
    requires forall x :: 0 <= x < NumNodes(g) ==> x in changed || d'[x] == d[x]
    requires forall v :: 0 <= v < NumNodes(g) && !marked[v] && (d[v] < inf || v == s) ==>
               Heaps.HeapMember(v, -(d[v] as int)) in heap.inner
    ensures forall v :: 0 <= v < NumNodes(g) && v != Heaps.Top(heap).key && !marked[v] && (d'[v] < inf || v == s) ==>
              Heaps.HeapMember(v, -(d'[v] as int)) in InsertAll(Heaps.DeleteMin(heap), changed, d').inner
  {
    forall v | 0 <= v < NumNodes(g) && v != Heaps.Top(heap).key && !marked[v] && (d'[v] < inf || v == s)
      ensures Heaps.HeapMember(v, -(d'[v] as int)) in InsertAll(Heaps.DeleteMin(heap), changed, d').inner
    {
      if v in changed {
        InsertedMember(Heaps.DeleteMin(heap), changed, d', v);
      } else {
        KeptMember(heap, changed, d', Heaps.HeapMember(v, -(d'[v] as int)));
      }
    }
  }

  /** Popping an unmarked node, marking it, relaxing its arcs and pushing
      the improved nodes keeps the invariant. */
  lemma HeapExpand(g: Star, s: nat, inf: nat, heap: Heaps.BinaryHeap, marked: seq<bool>,
                   pred: seq<nat>, d: seq<nat>, settled: set<nat>,
                   pred': seq<nat>, d': seq<nat>, changed: seq<nat>)
    requires Valid(g) && CoreBasics(g, s, inf, pred, d) && HeapInv(g, s, inf, heap, marked, d, settled)
    requires !Heaps.IsEmpty(heap) && !marked[Heaps.Top(heap).key]
    requires RelaxResult(g, Heaps.Top(heap).key, pred, d, pred', d', changed)
    ensures forall k :: 0 <= k < |changed| ==> changed[k] < |d'|
    ensures HeapInv(g, s, inf, InsertAll(Heaps.DeleteMin(heap), changed, d'),
                    marked[Heaps.Top(heap).key := true], d', settled + {Heaps.Top(heap).key})
  {
    var i := Heaps.Top(heap).key;
    HeapExpandBound(g, heap, pred, d, pred', d', changed);
    ChangedOrKept(g, i, pred, d, pred', d', changed);
    HeapExpandCover(g, s, inf, heap, marked, d, d', changed);
    MarkSettled(marked, settled, i);
  }

  /** Relaxation changes only the distances of the nodes it lists. */
  lemma ChangedOrKept(g: Star, i: nat, pred: seq<nat>, d: seq<nat>,
                      pred': seq<nat>, d': seq<nat>, changed: seq<nat>)
    requires Valid(g) && |pred| == NumNodes(g) && |d| == NumNodes(g) && i < |d|
    requires RelaxResult(g, i, pred, d, pred', d', changed)
    ensures forall x :: 0 <= x < NumNodes(g) ==> x in changed || d'[x] == d[x]
  {
  }

  /** Marking `i` keeps the marks in step with the settled set. */
  lemma MarkSettled(marked: seq<bool>, settled: set<nat>, i: nat)
    requires i < |marked|
    requires forall v :: 0 <= v < |marked| ==> (marked[v] <==> v in settled)
    ensures forall v :: 0 <= v < |marked| ==> (marked[i := true][v] <==> v in settled + {i})
  {
  }

  /** `heap_dijkstra` with the distances starting at `inf`. */
  method HeapDijkstraFrom(g: Star, source: nat, inf: nat) returns (pred: seq<nat>, dist: seq<nat>)
    requires Valid(g) && source < NumNodes(g)
    ensures ShortestPathResult(g, source, inf, pred, dist)
  {
    var n := NumNodes(g);
    var heap := Heaps.New();
    pred := seq(n, v => InvalidId(g));
    dist := seq(n, v => inf)[source := 0];
    var marked: seq<bool> := seq(n, v => false);
    heap := Heaps.Insert(heap, source, 0);
    ghost var settled: set<nat> := {};
    ghost var walks: seq<seq<nat>> := seq(n, v => [source]);
    InitCore(g, source, inf);
    assert heap.inner == [Heaps.HeapMember(source, 0)];
    while !Heaps.IsEmpty(heap)
      invariant Core(g, source, inf, settled, pred, dist, walks)
      invariant HeapInv(g, source, inf, heap, marked, dist, settled)
      decreases CountUnmarked(marked), Heaps.Size(heap)
    {
      var nextNode := Heaps.FindMin(heap).value;
      assert nextNode == Heaps.Top(heap).key;
      ghost var before := heap;
      heap := Heaps.DeleteMin(heap);
      if marked[nextNode] {
        HeapSkip(g, source, inf, before, marked, dist, settled);
        continue;
      }
      HeapPick(g, source, inf, before, marked, pred, dist, settled);
      var pred', dist', changed := Relax(g, nextNode, pred, dist);
      HeapExpand(g, source, inf, before, marked, pred, dist, settled, pred', dist', changed);
      MarkOne(marked, nextNode);
      marked := marked[nextNode := true];
      walks := Settle(g, source, inf, settled, pred, dist, walks, nextNode, pred', dist', changed);
      pred, dist := pred', dist';
      heap := InsertAll(heap, changed, dist);
      settled := settled + {nextNode};
    }
    CoreResult(g, source, inf, settled, pred, dist, walks);
  }

  // -------------------------------------------------------------- entries

  /** `vanilla_dijkstra`: the distances start at `infinity()`, the cost sum
      kept by the star; `limit` is the `INF` that `find_min` starts from. */
  method VanillaDijkstra(g: Star, source: nat, limit: nat) returns (pred: seq<nat>, dist: seq<nat>)
    requires Valid(g) && source < NumNodes(g) && Infinity(g) < limit
    ensures ShortestPathResult(g, source, Infinity(g), pred, dist)
  {
    pred, dist := VanillaDijkstraFrom(g, source, Infinity(g), limit);
  }

  /** `heap_dijkstra`: the distances start at `infinity()`. */
  method HeapDijkstra(g: Star, source: nat) returns (pred: seq<nat>, dist: seq<nat>)
    requires Valid(g) && source < NumNodes(g)
    ensures ShortestPathResult(g, source, Infinity(g), pred, dist)
  {
    pred, dist := HeapDijkstraFrom(g, source, Infinity(g));
  }

  /** `dijkstra`: the heap variant when `useHeap`, else the vanilla one. */
  method Dijkstra(g: Star, source: nat, useHeap: bool, limit: nat) returns (pred: seq<nat>, dist: seq<nat>)
    requires Valid(g) && source < NumNodes(g) && Infinity(g) < limit
    ensures ShortestPathResult(g, source, Infinity(g), pred, dist)
  {
    if useHeap {
      pred, dist := HeapDijkstra(g, source);
    } else {
      pred, dist := VanillaDijkstra(g, source, limit);
    }
  }

  /** The two variants compute the same distances. */
  method BothVariants(g: Star, source: nat, limit: nat)
      returns (vanillaDist: seq<nat>, heapDist: seq<nat>)
    requires Valid(g) && source < NumNodes(g) && Infinity(g) < limit
    ensures |vanillaDist| == NumNodes(g) && vanillaDist == heapDist
  {
    var pred1, pred2;
    pred1, vanillaDist := Dijkstra(g, source, false, limit);
    pred2, heapDist := Dijkstra(g, source, true, limit);
    DistUnique(g, source, Infinity(g), pred1, vanillaDist, pred2, heapDist);
  }

  /** The entry point with the distances starting one above the cost sum:
      then every path cost is below the start value, and a node other than
      the source has a predecessor exactly when it is reachable. */
  method DijkstraCorrected(g: Star, source: nat, useHeap: bool, limit: nat)
      returns (pred: seq<nat>, dist: seq<nat>)
    requires Valid(g) && source < NumNodes(g) && Sum(g.costs) <= Infinity(g) && Infinity(g) + 1 < limit
    ensures ShortestPathResult(g, source, Infinity(g) + 1, pred, dist)
    ensures forall v :: 0 <= v < NumNodes(g) ==> (Reachable(g, source, v) <==> dist[v] <= Infinity(g))
    ensures forall v :: 0 <= v < NumNodes(g) && v != source ==>
              (Reachable(g, source, v) <==> pred[v] != InvalidId(g))
  {
    if useHeap {
      pred, dist := HeapDijkstraFrom(g, source, Infinity(g) + 1);
    } else {
      pred, dist := VanillaDijkstraFrom(g, source, Infinity(g) + 1, limit);
    }
    forall v | 0 <= v < NumNodes(g)
      ensures Reachable(g, source, v) <==> dist[v] <= Infinity(g)
      ensures v != source ==> (Reachable(g, source, v) <==> pred[v] != InvalidId(g))
    {
      ResultReachable(g, source, Infinity(g) + 1, pred, dist, v);
    }
  }
}
