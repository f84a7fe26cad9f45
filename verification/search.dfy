/** The generic graph search behind breadth-first and depth-first search.
    One loop, parameterised by a queue or a stack: peek the current node; if
    it has an unmarked neighbour, mark the first one, record its predecessor
    and discovery number and push it; otherwise pop the current node. */
module Search {
  import opened Types
  import opened CompactStar
  import opened Collections
  import opened Paths

  /** The first candidate that is not marked. */
  function FirstUnmarked(adj: seq<nat>, marks: seq<bool>): (r: Option<nat>)
    requires forall x :: x in adj ==> x < |marks|
    ensures r.Some? ==> r.value in adj && r.value < |marks| && !marks[r.value]
    ensures r.None? ==> forall x :: x in adj ==> marks[x]
  {
    if adj == [] then None
    else if assert adj[0] in adj; !marks[adj[0]] then Some(adj[0])
    else
      assert forall x :: x in adj[1..] ==> x in adj;
      var r := FirstUnmarked(adj[1..], marks);
      assert forall x :: x in adj ==> x == adj[0] || x in adj[1..];
      r
  }

  /** The scan returns the first unmarked candidate: everything before its
      first occurrence is marked. */
  lemma {:induction false} FirstUnmarkedIsFirst(adj: seq<nat>, marks: seq<bool>)
    requires forall x :: x in adj ==> x < |marks|
    requires FirstUnmarked(adj, marks).Some?
    ensures exists k :: 0 <= k < |adj| && adj[k] == FirstUnmarked(adj, marks).value
                        && forall m :: 0 <= m < k ==> adj[m] in adj && marks[adj[m]]
    decreases |adj|
  {
    assert adj[0] in adj;
    if marks[adj[0]] {
      assert forall x :: x in adj[1..] ==> x in adj;
      FirstUnmarkedIsFirst(adj[1..], marks);
      var k :| 0 <= k < |adj[1..]| && adj[1..][k] == FirstUnmarked(adj, marks).value
               && forall m :: 0 <= m < k ==> adj[1..][m] in adj[1..] && marks[adj[1..][m]];
      assert adj[k + 1] == FirstUnmarked(adj, marks).value;
      assert forall m :: 0 <= m < k + 1 ==> adj[m] in adj && marks[adj[m]] by {
        assert forall m :: 1 <= m < k + 1 ==> adj[m] == adj[1..][m - 1];
      }
    } else {
      assert adj[0] == FirstUnmarked(adj, marks).value;
    }
  }

  /** The variables of the search loop. */
  datatype SearchState = SearchState(
    toProcess: Collection,
    marks: seq<bool>,
    pred: seq<nat>,
    order: seq<nat>,
    next: nat)

  predicate WellSized(g: Star, st: SearchState)
    requires Valid(g)
  {
    |st.marks| == NumNodes(g) && |st.pred| == NumNodes(g) && |st.order| == NumNodes(g)
  }

  /** One iteration of the loop. */
  function Step(g: Star, st: SearchState): (r: SearchState)
    requires Valid(g) && WellSized(g, st) && !IsEmpty(st.toProcess)
    ensures WellSized(g, r)
    ensures 2 * CountUnmarked(r.marks) + |r.toProcess.data|
          < 2 * CountUnmarked(st.marks) + |st.toProcess.data|
  {
    var i := Peek(st.toProcess).value;
    match FirstUnmarked(Adjacent(g, i), st.marks)
    case Some(j) =>
      MarkOne(st.marks, j);
      SearchState(Push(st.toProcess, j), st.marks[j := true], st.pred[j := i],
                  st.order[j := st.next + 1], st.next + 1)
    case None =>
      st.(toProcess := Pop(st.toProcess).1)
  }

  /** The two outcomes of `Step`, spelled out field by field. */
  lemma StepDiscover(g: Star, st: SearchState, j: nat)
    requires Valid(g) && WellSized(g, st) && !IsEmpty(st.toProcess)
    requires FirstUnmarked(Adjacent(g, Peek(st.toProcess).value), st.marks) == Some(j)
    ensures Step(g, st) == SearchState(Push(st.toProcess, j), st.marks[j := true],
                                       st.pred[j := Peek(st.toProcess).value],
                                       st.order[j := st.next + 1], st.next + 1)
  {
  }

  lemma StepFinish(g: Star, st: SearchState)
    requires Valid(g) && WellSized(g, st) && !IsEmpty(st.toProcess)
    requires FirstUnmarked(Adjacent(g, Peek(st.toProcess).value), st.marks).None?
    ensures Step(g, st) == st.(toProcess := Pop(st.toProcess).1)
  {
  }

  /** The loop, run until the container is empty. */
  function Run(g: Star, st: SearchState): (r: SearchState)
    requires Valid(g) && WellSized(g, st)
    ensures WellSized(g, r) && IsEmpty(r.toProcess)
    decreases 2 * CountUnmarked(st.marks) + |st.toProcess.data|
  {
    if IsEmpty(st.toProcess) then st else Run(g, Step(g, st))
  }

  /** The state before the loop: only `start` is marked and queued. */
  function Initial(g: Star, d: Discipline, start: nat): (r: SearchState)
    requires Valid(g) && start < NumNodes(g)
    ensures WellSized(g, r)
  {
    var n := NumNodes(g);
    SearchState(Push(WithCapacity(d, n), start),
                seq(n, v => false)[start := true],
                seq(n, v => InvalidId(g)),
                seq(n, v => 0)[start := start],
                0)
  }

  /** The discovery list: `reached` lists the marked nodes, without
      repeats, in discovery order and starting with `start`. */
  ghost predicate InvReached(g: Star, start: nat, st: SearchState, reached: seq<nat>)
    requires Valid(g)
  {
    var n := NumNodes(g);
    && WellSized(g, st) && start < n
    && |reached| == st.next + 1 && reached[0] == start
    && (forall k :: 0 <= k < |reached| ==> reached[k] < n)
    && (forall a, b :: 0 <= a < b < |reached| ==> reached[a] != reached[b])
    && (forall v :: 0 <= v < n ==> (st.marks[v] <==> v in reached))
  }

  /** The search tree: undiscovered nodes carry the defaults, and each
      discovered node has a marked predecessor with an arc to it and an
      earlier discovery number. */
  ghost predicate InvTree(g: Star, start: nat, st: SearchState, reached: seq<nat>)
    requires Valid(g)
  {
    var n := NumNodes(g);
    && InvReached(g, start, st, reached)
    && st.pred[start] == n && st.order[start] == start
    && (forall v :: 0 <= v < n && !st.marks[v] ==> st.pred[v] == n && st.order[v] == 0)
    && (forall k :: 1 <= k < |reached| ==> TreeArc(g, start, st, reached[k], k))
  }

  /** Node `v`, discovered `k`-th, hangs off a marked predecessor by an arc,
      and that predecessor is `start` or was discovered earlier. */
  ghost predicate TreeArc(g: Star, start: nat, st: SearchState, v: nat, k: nat)
    requires Valid(g)
  {
    var n := NumNodes(g);
    && WellSized(g, st) && v < n
    && st.order[v] == k
    && st.pred[v] < n
    && st.marks[st.pred[v]]
    && v in Adjacent(g, st.pred[v])
    && (st.pred[v] == start || st.order[st.pred[v]] < k)
  }

  /** The state after discovering `j` from `i`. */
  function Discovered(st: SearchState, i: nat, j: nat): SearchState
    requires j < |st.marks| && j < |st.pred| && j < |st.order|
  {
    SearchState(Push(st.toProcess, j), st.marks[j := true], st.pred[j := i],
                st.order[j := st.next + 1], st.next + 1)
  }

  /** Discovering another node keeps an earlier node's tree arc. */
  lemma DiscoverKeepsArc(g: Star, start: nat, st: SearchState, i: nat, j: nat, v: nat, k: nat)
    requires Valid(g) && TreeArc(g, start, st, v, k)
    requires j < NumNodes(g) && !st.marks[j] && v != j
    ensures TreeArc(g, start, Discovered(st, i, j), v, k)
  {
  }

  /** The newly discovered node hangs off the peeked node. */
  lemma DiscoverNewArc(g: Star, start: nat, st: SearchState, i: nat, j: nat)
    requires Valid(g) && WellSized(g, st) && i < NumNodes(g) && j < NumNodes(g)
    requires st.marks[i] && !st.marks[j] && j in Adjacent(g, i) && (i == start || st.order[i] < st.next + 1)
    ensures TreeArc(g, start, Discovered(st, i, j), j, st.next + 1)
  {
  }

  /** The container holds marked nodes only, and a marked node that has
      left it has all its neighbours marked. */
  ghost predicate InvContainer(g: Star, st: SearchState)
    requires Valid(g) && WellSized(g, st)
  {
    var n := NumNodes(g);
    && (forall x :: x in st.toProcess.data ==> x < n && st.marks[x])
    && (forall v, x :: 0 <= v < n && st.marks[v] && v !in st.toProcess.data && x in Adjacent(g, v) ==>
          st.marks[x])
  }

  /** What the loop keeps true. */
  ghost predicate Inv(g: Star, start: nat, st: SearchState, reached: seq<nat>)
    requires Valid(g)
  {
    && InvTree(g, start, st, reached)
    && InvContainer(g, st)
    && (forall v :: 0 <= v < NumNodes(g) && st.marks[v] ==> Reachable(g, start, v))
  }

  lemma InitialInv(g: Star, d: Discipline, start: nat)
    requires Valid(g) && start < NumNodes(g)
    ensures Inv(g, start, Initial(g, d, start), [start])
  {
    ReachRefl(g, start);
  }

  /** Discovering `j` from the peeked node keeps each part of the
      invariant, with `j` appended to the discovery list. */
  lemma DiscoverReached(g: Star, start: nat, st: SearchState, reached: seq<nat>, i: nat, j: nat)
    requires Valid(g) && InvReached(g, start, st, reached)
    requires j < NumNodes(g) && !st.marks[j]
    ensures InvReached(g, start, Discovered(st, i, j), reached + [j])
  {
    var reached' := reached + [j];
    assert j !in reached;
    assert forall k :: 0 <= k < |reached| ==> reached'[k] == reached[k];
  }

  lemma DiscoverTree(g: Star, start: nat, st: SearchState, reached: seq<nat>, i: nat, j: nat)
    requires Valid(g) && InvTree(g, start, st, reached)
    requires i < NumNodes(g) && j < NumNodes(g) && st.marks[i] && !st.marks[j] && j in Adjacent(g, i)
    ensures InvTree(g, start, Discovered(st, i, j), reached + [j])
  {
    DiscoverReached(g, start, st, reached, i, j);
    MarkedOrder(g, start, st, reached, i);
    DiscoverArcs(g, start, st, reached, i, j);
    DiscoverDefaults(g, start, st, reached, i, j);
  }

  /** A marked node is `start` or was discovered at a listed position. */
  lemma MarkedOrder(g: Star, start: nat, st: SearchState, reached: seq<nat>, i: nat)
    requires Valid(g) && InvTree(g, start, st, reached)
    requires i < NumNodes(g) && st.marks[i]
    ensures i == start || st.order[i] < |reached|
  {
    var m :| 0 <= m < |reached| && reached[m] == i;
    if m > 0 {
      assert TreeArc(g, start, st, reached[m], m);
    }
  }

  /** Discovering `j` leaves `start`'s entries and the undiscovered
      nodes' defaults alone. */
  lemma DiscoverDefaults(g: Star, start: nat, st: SearchState, reached: seq<nat>, i: nat, j: nat)
    requires Valid(g) && InvTree(g, start, st, reached)
    requires j < NumNodes(g) && !st.marks[j]
    ensures var st', n := Discovered(st, i, j), NumNodes(g);
            && st'.pred[start] == n && st'.order[start] == start
            && (forall v :: 0 <= v < n && !st'.marks[v] ==> st'.pred[v] == n && st'.order[v] == 0)
  {
  }

  /** Discovering `j` from `i` keeps every tree arc and adds `j`'s. */
  lemma DiscoverArcs(g: Star, start: nat, st: SearchState, reached: seq<nat>, i: nat, j: nat)
    requires Valid(g) && WellSized(g, st) && i < NumNodes(g) && j < NumNodes(g)
    requires |reached| == st.next + 1 && j !in reached
    requires forall k :: 1 <= k < |reached| ==> TreeArc(g, start, st, reached[k], k)
    requires st.marks[i] && !st.marks[j] && j in Adjacent(g, i) && (i == start || st.order[i] < st.next + 1)
    ensures forall k :: 1 <= k < |reached + [j]| ==> TreeArc(g, start, Discovered(st, i, j), (reached + [j])[k], k)
  {
    var reached' := reached + [j];
    forall k | 1 <= k < |reached'|
      ensures TreeArc(g, start, Discovered(st, i, j), reached'[k], k)
    {
      if k < |reached| {
        assert reached'[k] == reached[k];
        DiscoverKeepsArc(g, start, st, i, j, reached[k], k);
      } else {
        DiscoverNewArc(g, start, st, i, j);
      }
    }
  }

  lemma DiscoverContainer(g: Star, st: SearchState, j: nat)
    requires Valid(g) && WellSized(g, st) && InvContainer(g, st) && !IsEmpty(st.toProcess)
    requires FirstUnmarked(Adjacent(g, Peek(st.toProcess).value), st.marks) == Some(j)
    ensures InvContainer(g, Step(g, st))
  {
    StepDiscover(g, st, j);
    var st' := Step(g, st);
    var n := NumNodes(g);
    assert st'.toProcess.data == st.toProcess.data + [j];
    forall v, x | 0 <= v < n && st'.marks[v] && v !in st'.toProcess.data && x in Adjacent(g, v)
      ensures st'.marks[x]
    {
      assert v != j && v !in st.toProcess.data && st.marks[v];
      assert st.marks[x];
    }
  }

  lemma DiscoverInv(g: Star, start: nat, st: SearchState, reached: seq<nat>, j: nat)
    requires Valid(g) && Inv(g, start, st, reached) && !IsEmpty(st.toProcess)
    requires FirstUnmarked(Adjacent(g, Peek(st.toProcess).value), st.marks) == Some(j)
    ensures Inv(g, start, Step(g, st), reached + [j])
  {
    var i := Peek(st.toProcess).value;
    StepDiscover(g, st, j);
    assert Step(g, st) == Discovered(st, i, j);
    DiscoverTree(g, start, st, reached, i, j);
    DiscoverContainer(g, st, j);
    ReachStep(g, start, i, j);
  }

  /** Popping a node with no unmarked neighbour keeps the invariant. */
  lemma FinishInv(g: Star, start: nat, st: SearchState, reached: seq<nat>)
    requires Valid(g) && Inv(g, start, st, reached) && !IsEmpty(st.toProcess)
    requires FirstUnmarked(Adjacent(g, Peek(st.toProcess).value), st.marks).None?
    ensures Inv(g, start, Step(g, st), reached)
  {
    StepFinish(g, st);
    var st' := Step(g, st);
    var i := Peek(st.toProcess).value;
    assert InvTree(g, start, st', reached) by {
      ContainerKeepsTree(g, start, st, reached, st'.toProcess);
    }
    assert forall x :: x in st'.toProcess.data ==> x in st.toProcess.data;
    assert forall v :: v in st.toProcess.data && v !in st'.toProcess.data ==> v == i;
  }

  /** The search tree does not depend on the container. */
  lemma ContainerKeepsTree(g: Star, start: nat, st: SearchState, reached: seq<nat>, c: Collection)
    requires Valid(g) && InvTree(g, start, st, reached)
    ensures InvTree(g, start, st.(toProcess := c), reached)
  {
    forall k | 1 <= k < |reached|
      ensures TreeArc(g, start, st.(toProcess := c), reached[k], k)
    {
    }
  }

  /** What a finished search promises about its predecessor and order
      lists, with `n` (the number of nodes) as the invalid id. */
  ghost predicate SearchSpec(g: Star, start: nat, pred: seq<nat>, order: seq<nat>)
    requires Valid(g)
  {
    var n := NumNodes(g);
    && |pred| == n && |order| == n && start < n
    && pred[start] == n && order[start] == start
    && (forall v :: 0 <= v < n ==> (pred[v] != n <==> v != start && Reachable(g, start, v)))
    && (forall v :: 0 <= v < n && pred[v] != n ==>
          && pred[v] < n && v in Adjacent(g, pred[v])
          && 1 <= order[v] && (pred[v] == start || order[pred[v]] < order[v]))
    && (forall v :: 0 <= v < n && v != start && pred[v] == n ==> order[v] == 0)
    && (forall u, v :: 0 <= u < v < n && pred[u] != n && pred[v] != n ==> order[u] != order[v])
    && (forall v :: 0 <= v < n && pred[v] != n && order[v] > 1 ==>
          exists u :: 0 <= u < n && pred[u] != n && order[u] == order[v] - 1)
  }

  /** Once the container is empty the marked set is closed under arcs, so
      the discovered nodes are exactly the nodes reachable from `start`. */
  lemma FinalReach(g: Star, start: nat, st: SearchState, reached: seq<nat>)
    requires Valid(g) && Inv(g, start, st, reached) && IsEmpty(st.toProcess)
    ensures forall v :: 0 <= v < NumNodes(g) ==>
              (st.pred[v] != NumNodes(g) <==> v != start && Reachable(g, start, v))
  {
    forall v | 0 <= v < NumNodes(g)
      ensures st.pred[v] != NumNodes(g) <==> v != start && Reachable(g, start, v)
    {
      FinalReachAt(g, start, st, reached, v);
    }
  }

  lemma FinalReachAt(g: Star, start: nat, st: SearchState, reached: seq<nat>, v: nat)
    requires Valid(g) && Inv(g, start, st, reached) && IsEmpty(st.toProcess)
    requires v < NumNodes(g)
    ensures st.pred[v] != NumNodes(g) <==> v != start && Reachable(g, start, v)
  {
    if v != start && Reachable(g, start, v) {
      ClosedHoldsReachable(g, st.marks, start, v);
      var k :| 0 <= k < |reached| && reached[k] == v;
      assert TreeArc(g, start, st, reached[k], k);
    }
  }

  /** A node with a predecessor is in the discovery list, after `start`. */
  lemma DiscoveryIndex(g: Star, start: nat, st: SearchState, reached: seq<nat>, v: nat) returns (k: nat)
    requires Valid(g) && InvTree(g, start, st, reached)
    requires v < NumNodes(g) && st.pred[v] != NumNodes(g)
    ensures 1 <= k < |reached| && reached[k] == v && st.order[v] == k
  {
    k :| 0 <= k < |reached| && reached[k] == v;
    assert TreeArc(g, start, st, reached[k], k);
  }

  /** The discovered nodes carry distinct order numbers. */
  lemma FinalDistinct(g: Star, start: nat, st: SearchState, reached: seq<nat>)
    requires Valid(g) && InvTree(g, start, st, reached)
    ensures forall u, v :: 0 <= u < v < NumNodes(g) && st.pred[u] != NumNodes(g) && st.pred[v] != NumNodes(g) ==>
              st.order[u] != st.order[v]
  {
    var n := NumNodes(g);
    forall u, v | 0 <= u < v < n && st.pred[u] != n && st.pred[v] != n
      ensures st.order[u] != st.order[v]
    {
      var a := DiscoveryIndex(g, start, st, reached, u);
      var b := DiscoveryIndex(g, start, st, reached, v);
    }
  }

  /** The order numbers of the discovered nodes have no gaps. */
  lemma FinalConsecutive(g: Star, start: nat, st: SearchState, reached: seq<nat>)
    requires Valid(g) && InvTree(g, start, st, reached)
    ensures forall v :: 0 <= v < NumNodes(g) && st.pred[v] != NumNodes(g) && st.order[v] > 1 ==>
              exists u :: 0 <= u < NumNodes(g) && st.pred[u] != NumNodes(g) && st.order[u] == st.order[v] - 1
  {
    var n := NumNodes(g);
    forall v | 0 <= v < n && st.pred[v] != n && st.order[v] > 1
      ensures exists u :: 0 <= u < n && st.pred[u] != n && st.order[u] == st.order[v] - 1
    {
      var k := DiscoveryIndex(g, start, st, reached, v);
      assert TreeArc(g, start, st, reached[k - 1], k - 1);
    }
  }

  /** The final state meets the search specification. */
  lemma FinalFacts(g: Star, start: nat, st: SearchState, reached: seq<nat>)
    requires Valid(g) && Inv(g, start, st, reached) && IsEmpty(st.toProcess)
    ensures SearchSpec(g, start, st.pred, st.order)
  {
    FinalReach(g, start, st, reached);
    FinalDistinct(g, start, st, reached);
    FinalConsecutive(g, start, st, reached);
  }

  /** Running the loop from a state satisfying the invariant ends in a
      state whose lists meet the search specification. */
  lemma {:induction false} RunFacts(g: Star, start: nat, st: SearchState, reached: seq<nat>)
    requires Valid(g) && Inv(g, start, st, reached)
    ensures SearchSpec(g, start, Run(g, st).pred, Run(g, st).order)
    decreases 2 * CountUnmarked(st.marks) + |st.toProcess.data|
  {
    if IsEmpty(st.toProcess) {
      FinalFacts(g, start, st, reached);
    } else {
      match FirstUnmarked(Adjacent(g, Peek(st.toProcess).value), st.marks)
      case Some(j) =>
        DiscoverInv(g, start, st, reached, j);
        RunFacts(g, start, Step(g, st), reached + [j]);
      case None =>
        FinishInv(g, start, st, reached);
        RunFacts(g, start, Step(g, st), reached);
    }
  }

  /** One iteration of the `while` loop of `search`, on the loop variables. */
  method SearchStep(g: Star, st: SearchState) returns (r: SearchState)
    requires Valid(g) && WellSized(g, st) && !IsEmpty(st.toProcess)
    ensures r == Step(g, st)
  {
    var noPred := InvalidId(g);
    var toProcess, marks, predSlice, orderSlice, next := st.toProcess, st.marks, st.pred, st.order, st.next;
    var i := Peek(toProcess).value;
    var adj := Adjacent(g, i);
    var j := match FirstUnmarked(adj, marks) case Some(c) => c case None => noPred;
    if j != noPred {
      StepDiscover(g, st, j);
      marks := marks[j := true];
      predSlice := predSlice[j := i];
      next := next + 1;
      orderSlice := orderSlice[j := next];
      toProcess := Push(toProcess, j);
      assert orderSlice == st.order[j := st.next + 1];
    } else {
      StepFinish(g, st);
      toProcess := Pop(toProcess).1;
    }
    r := SearchState(toProcess, marks, predSlice, orderSlice, next);
  }

  /** The `while` loop of `search`: iterates until the container is empty
      and hands back the final state. */
  method SearchLoop(g: Star, st0: SearchState) returns (r: SearchState)
    requires Valid(g) && WellSized(g, st0)
    ensures r == Run(g, st0)
  {
    r := st0;
    while !IsEmpty(r.toProcess)
      invariant WellSized(g, r) && Run(g, r) == Run(g, st0)
      decreases 2 * CountUnmarked(r.marks) + |r.toProcess.data|
    {
      r := SearchStep(g, r);
    }
  }

  /** `search`: returns the predecessor and discovery-order lists. */
  method GenericSearch(g: Star, d: Discipline, start: nat) returns (pred: seq<nat>, order: seq<nat>)
    requires Valid(g)
    requires start < NumNodes(g)
    ensures pred == Run(g, Initial(g, d, start)).pred && order == Run(g, Initial(g, d, start)).order
    ensures |pred| == NumNodes(g) && |order| == NumNodes(g)
    ensures pred[start] == InvalidId(g) && order[start] == start
    ensures forall v :: 0 <= v < NumNodes(g) ==>
              (pred[v] != InvalidId(g) <==> v != start && Reachable(g, start, v))
    ensures forall v :: 0 <= v < NumNodes(g) && pred[v] != InvalidId(g) ==>
              && pred[v] < NumNodes(g) && v in Adjacent(g, pred[v])
              && 1 <= order[v] && (pred[v] == start || order[pred[v]] < order[v])
    ensures forall v :: 0 <= v < NumNodes(g) && v != start && pred[v] == InvalidId(g) ==> order[v] == 0
    ensures forall u, v :: 0 <= u < v < NumNodes(g) && pred[u] != InvalidId(g) && pred[v] != InvalidId(g) ==>
              order[u] != order[v]
    ensures forall v :: 0 <= v < NumNodes(g) && pred[v] != InvalidId(g) && order[v] > 1 ==>
              exists u :: 0 <= u < NumNodes(g) && pred[u] != InvalidId(g) && order[u] == order[v] - 1
  {
    var st0 := Initial(g, d, start);
    var st := SearchLoop(g, st0);
    pred, order := st.pred, st.order;
    InitialInv(g, d, start);
    RunFacts(g, start, st0, [start]);
  }

  /** `breadth_first_search`: the generic search over a queue. */
  method BreadthFirstSearch(g: Star, start: nat) returns (pred: seq<nat>, order: seq<nat>)
    requires Valid(g) && start < NumNodes(g)
    ensures pred == Run(g, Initial(g, Fifo, start)).pred && order == Run(g, Initial(g, Fifo, start)).order
    ensures SearchSpec(g, start, pred, order)
  {
    pred, order := GenericSearch(g, Fifo, start);
  }

  /** `depth_first_search`: the generic search over a stack. */
  method DepthFirstSearch(g: Star, start: nat) returns (pred: seq<nat>, order: seq<nat>)
    requires Valid(g) && start < NumNodes(g)
    ensures pred == Run(g, Initial(g, Lifo, start)).pred && order == Run(g, Initial(g, Lifo, start)).order
    ensures SearchSpec(g, start, pred, order)
  {
    pred, order := GenericSearch(g, Lifo, start);
  }

  /** Whatever the container, the search discovers the same nodes: those
      reachable from `start`. The trees and orders may differ. */
  lemma SameDiscovered(g: Star, start: nat, v: nat)
    requires Valid(g) && start < NumNodes(g) && v < NumNodes(g)
    ensures Run(g, Initial(g, Fifo, start)).pred[v] != InvalidId(g)
        <==> Run(g, Initial(g, Lifo, start)).pred[v] != InvalidId(g)
  {
    InitialInv(g, Fifo, start);
    RunFacts(g, start, Initial(g, Fifo, start), [start]);
    InitialInv(g, Lifo, start);
    RunFacts(g, start, Initial(g, Lifo, start), [start]);
  }

  /** Number of iterations the loop makes from `st`. */
  function Iterations(g: Star, st: SearchState): nat
    requires Valid(g) && WellSized(g, st)
    decreases 2 * CountUnmarked(st.marks) + |st.toProcess.data|
  {
    if IsEmpty(st.toProcess) then 0 else 1 + Iterations(g, Step(g, st))
  }

  /** Every iteration marks a node or pops one, so the loop runs at most
      twice per unmarked node plus once per queued node. */
  lemma {:induction false} IterationsBound(g: Star, st: SearchState)
    requires Valid(g) && WellSized(g, st)
    ensures Iterations(g, st) <= 2 * CountUnmarked(st.marks) + |st.toProcess.data|
    decreases 2 * CountUnmarked(st.marks) + |st.toProcess.data|
  {
    if !IsEmpty(st.toProcess) {
      IterationsBound(g, Step(g, st));
    }
  }

  lemma {:induction false} CountUnmarkedNone(n: nat)
    ensures CountUnmarked(seq(n, v => false)) == n
  {
    if n > 0 {
      assert seq(n, v => false)[1..] == seq(n - 1, v => false);
      CountUnmarkedNone(n - 1);
    }
  }

  /** A search from a valid start finishes in fewer than `2n` iterations. */
  lemma SearchTerminates(g: Star, d: Discipline, start: nat)
    requires Valid(g) && start < NumNodes(g)
    ensures Iterations(g, Initial(g, d, start)) < 2 * NumNodes(g)
  {
    CountUnmarkedNone(NumNodes(g));
    MarkOne(seq(NumNodes(g), v => false), start);
    IterationsBound(g, Initial(g, d, start));
  }
}
