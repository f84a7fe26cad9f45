/** The compact (forward and reverse) star representation of a network, after
    Ahuja, Magnanti and Orlin, "Network Flows": arcs sorted by source and
    flattened into index-aligned arrays, with `point` giving each node's
    half-open range of outgoing arcs and `rpoint`/`trace` giving, per node, the
    indices of its incoming arcs. */
module CompactStar {
  import opened Types
  import opened ArcSort

  datatype Star = Star(
    point: seq<nat>,
    rpoint: seq<nat>,
    tail: seq<nat>,
    head: seq<nat>,
    trace: seq<nat>,
    costs: seq<nat>,
    capacities: seq<nat>,
    costSum: nat)

  /** What the queries rely on: a non-decreasing `point` array that starts at
      0 and ends at the number of arcs, index-aligned arc arrays, and heads
      that are node ids. */
  predicate Valid(g: Star) {
    && |g.point| >= 1
    && g.point[0] == 0
    && g.point[|g.point| - 1] == |g.head|
    && (forall i, j :: 0 <= i <= j < |g.point| ==> g.point[i] <= g.point[j])
    && |g.tail| == |g.head| && |g.costs| == |g.head| && |g.capacities| == |g.head|
    && (forall k :: 0 <= k < |g.head| ==> g.head[k] < |g.point| - 1)
  }

  // ---------------------------------------------------------------- queries

  /** One node per `point` entry but the closing one. */
  function NumNodes(g: Star): (r: nat)
    ensures |g.point| >= 1 ==> r + 1 == |g.point|
  {
    if |g.point| > 0 then |g.point| - 1 else |g.point|
  }

  /** The length of the arc arrays; in a valid star it is where the last
      range of `point` ends. */
  function NumArcs(g: Star): (r: nat)
    ensures Valid(g) ==> r == |g.head| == g.point[|g.point| - 1]
  {
    |g.tail|
  }

  /** One past the last node id; the subtraction would underflow on an empty
      `point` array, which no valid star has. It is not a node: no arc
      enters it, and `Adjacent` gives nothing for it. */
  function InvalidId(g: Star): (r: nat)
    requires |g.point| >= 1
    ensures r == NumNodes(g)
    ensures Valid(g) ==> forall k :: 0 <= k < |g.head| ==> g.head[k] != r
  {
    |g.point| - 1
  }

  function Infinity(g: Star): nat {
    g.costSum
  }

  /** Heads of the arcs in `from`'s range; empty when `point[from]` or
      `point[from + 1]` does not exist. */
  function Adjacent(g: Star, from: nat): (r: seq<nat>)
    requires Valid(g)
    ensures from >= NumNodes(g) ==> r == []
    ensures forall x :: x in r ==> x < NumNodes(g)
  {
    if from >= |g.point| || from + 1 >= |g.point| then []
    else g.head[g.point[from]..g.point[from + 1]]
  }

  /** The first index in `[lo, hi)` whose head is `to`. */
  function FirstHead(head: seq<nat>, lo: nat, hi: nat, to: nat): (r: Option<nat>)
    requires lo <= hi <= |head|
    ensures r.Some? ==> lo <= r.value < hi && head[r.value] == to
    ensures r.Some? ==> forall k :: lo <= k < r.value ==> head[k] != to
    ensures r.None? ==> forall k :: lo <= k < hi ==> head[k] != to
    decreases hi - lo
  {
    if lo == hi then None
    else if head[lo] == to then Some(lo)
    else FirstHead(head, lo + 1, hi, to)
  }

  /** Index of the first arc `from -> to`, if any. */
  function GetHead(g: Star, from: nat, to: nat): (r: Option<nat>)
    requires Valid(g)
    ensures r.Some? <==> to in Adjacent(g, from)
    ensures r.Some? ==>
              && from < NumNodes(g)
              && g.point[from] <= r.value < g.point[from + 1]
              && g.head[r.value] == to
              && forall k :: g.point[from] <= k < r.value ==> g.head[k] != to
  {
    if from >= |g.point| || from + 1 >= |g.point| then None
    else
      var r := FirstHead(g.head, g.point[from], g.point[from + 1], to);
      assert r.Some? <==> to in Adjacent(g, from) by {
        var adj := Adjacent(g, from);
        if r.Some? {
          assert adj[r.value - g.point[from]] == to;
        }
        if to in adj {
          var m :| 0 <= m < |adj| && adj[m] == to;
          assert g.head[g.point[from] + m] == to;
        }
      }
      r
  }

  /** The entry of `vec` at the first arc `from -> to`, if any. */
  function Get(g: Star, from: nat, to: nat, vec: seq<nat>): (r: Option<nat>)
    requires Valid(g)
    requires |vec| == |g.head|
    ensures r.Some? <==> to in Adjacent(g, from)
    ensures r.Some? ==> r.value == vec[GetHead(g, from, to).value]
  {
    match GetHead(g, from, to)
    case None => None
    case Some(k) => if k < |vec| then Some(vec[k]) else None
  }

  function Cost(g: Star, i: nat, j: nat): (r: Option<nat>)
    requires Valid(g)
    ensures r.Some? <==> j in Adjacent(g, i)
  {
    Get(g, i, j, g.costs)
  }

  function Capacity(g: Star, i: nat, j: nat): (r: Option<nat>)
    requires Valid(g)
    ensures r.Some? <==> j in Adjacent(g, i)
  {
    Get(g, i, j, g.capacities)
  }

  /** The cost the algorithms read for a neighbour (the source unwraps it). */
  function ArcCost(g: Star, i: nat, j: nat): nat
    requires Valid(g)
    requires j in Adjacent(g, i)
  {
    Cost(g, i, j).value
  }

  // ------------------------------------------------- reference construction

  /** The precondition of construction: at least one node, and every endpoint
      is one of the node ids `0 .. nodes - 1`. */
  predicate ContiguousIds(nodes: nat, edges: seq<Arc>) {
    && nodes >= 1
    && forall k :: 0 <= k < |edges| ==> edges[k].tail < nodes && edges[k].head < nodes
  }

  /** Number of arcs of `s` whose tail is below `p`. */
  function CountBelow(s: seq<Arc>, p: nat): (r: nat)
    ensures r <= |s|
  {
    if s == [] then 0 else (if s[0].tail < p then 1 else 0) + CountBelow(s[1..], p)
  }

  /** The indices `k` with `h[k] == t`, in ascending order. */
  function InArcs(h: seq<nat>, t: nat): seq<nat> {
    InArcsBelow(h, t, |h|)
  }

  /** The indices `k < n` with `h[k] == t`, in ascending order. */
  function InArcsBelow(h: seq<nat>, t: nat, n: nat): seq<nat>
    requires n <= |h|
  {
    if n == 0 then [] else InArcsBelow(h, t, n - 1) + (if h[n - 1] == t then [n - 1] else [])
  }

  /** `InArcsBelow(h, t, n)` lists, in strictly ascending order, exactly the
      indices below `n` holding `t`. */
  lemma {:induction false} InArcsBelowFacts(h: seq<nat>, t: nat, n: nat)
    requires n <= |h|
    ensures forall m :: 0 <= m < |InArcsBelow(h, t, n)| ==>
              InArcsBelow(h, t, n)[m] < n && h[InArcsBelow(h, t, n)[m]] == t
    ensures forall a, b :: 0 <= a < b < |InArcsBelow(h, t, n)| ==>
              InArcsBelow(h, t, n)[a] < InArcsBelow(h, t, n)[b]
    ensures forall k :: 0 <= k < n && h[k] == t ==> k in InArcsBelow(h, t, n)
  {
    if n > 0 {
      InArcsBelowFacts(h, t, n - 1);
    }
  }

  /** `InArcs(h, t)` lists, in strictly ascending order, exactly the indices
      of `h` holding `t`. */
  lemma InArcsFacts(h: seq<nat>, t: nat)
    ensures forall m :: 0 <= m < |InArcs(h, t)| ==> InArcs(h, t)[m] < |h| && h[InArcs(h, t)[m]] == t
    ensures forall a, b :: 0 <= a < b < |InArcs(h, t)| ==> InArcs(h, t)[a] < InArcs(h, t)[b]
    ensures forall k :: 0 <= k < |h| && h[k] == t ==> k in InArcs(h, t)
  {
    InArcsBelowFacts(h, t, |h|);
  }

  /** The incoming-arc lists of the nodes `0 .. i - 1`, concatenated. */
  function Trace(h: seq<nat>, i: nat): seq<nat> {
    if i == 0 then [] else Trace(h, i - 1) + InArcs(h, i - 1)
  }

  /** The trace of the first `i` nodes holds exactly the arcs whose head is
      below `i`, each once. */
  lemma {:induction false} TraceMembers(h: seq<nat>, i: nat)
    ensures forall k :: k in Trace(h, i) <==> 0 <= k < |h| && h[k] < i
    ensures forall a, b :: 0 <= a < b < |Trace(h, i)| ==> Trace(h, i)[a] != Trace(h, i)[b]
  {
    if i > 0 {
      TraceMembers(h, i - 1);
      var r0, r1 := Trace(h, i - 1), InArcs(h, i - 1);
      assert Trace(h, i) == r0 + r1;
      InArcsFacts(h, i - 1);
      forall k | k in r1
        ensures 0 <= k < |h| && h[k] == i - 1
      {
        var m :| 0 <= m < |r1| && r1[m] == k;
      }
      assert forall b :: 0 <= b < |r1| ==> r1[b] !in r0;
    }
  }

  /** `point[p]` is the number of arcs whose tail is below `p`. */
  function PointOf(s: seq<Arc>, nodes: nat): (r: seq<nat>)
    ensures |r| == nodes + 1
    ensures forall p :: 0 <= p <= nodes ==> r[p] == CountBelow(s, p)
  {
    seq(nodes + 1, p requires 0 <= p <= nodes => CountBelow(s, p))
  }

  /** `RPointOf` is the list of trace lengths. */
  lemma RPointOfLengths(h: seq<nat>, nodes: nat, lens: seq<nat>)
    requires |lens| == nodes + 1
    requires forall i :: 0 <= i <= nodes ==> |Trace(h, i)| == lens[i]
    ensures RPointOf(h, nodes) == lens
  {
  }

  /** `rpoint[i]` is where node `i`'s incoming arcs start in the trace. */
  function RPointOf(h: seq<nat>, nodes: nat): (r: seq<nat>)
    ensures |r| == nodes + 1
    ensures forall i {:trigger r[i]} :: 0 <= i <= nodes ==> r[i] == |Trace(h, i)|
  {
    seq(nodes + 1, i requires 0 <= i <= nodes => |Trace(h, i)|)
  }

  /** The compact star of an arc list, defined field by field. */
  function StarOf(nodes: nat, edges: seq<Arc>): Star {
    var s := SortByTail(edges);
    Star(
      point := PointOf(s, nodes),
      rpoint := RPointOf(Heads(s), nodes),
      tail := Tails(s),
      head := Heads(s),
      trace := Trace(Heads(s), nodes),
      costs := Costs(s),
      capacities := Capacities(s),
      costSum := TotalCost(s))
  }

  // ------------------------------------------------------- CountBelow facts

  /** In a sorted list the arcs with tail below `p` are a prefix. */
  lemma {:induction false} CountBelowSplit(s: seq<Arc>, p: nat)
    requires SortedByTail(s)
    ensures forall j :: 0 <= j < |s| ==> (j < CountBelow(s, p) <==> s[j].tail < p)
    decreases |s|
  {
    if s != [] {
      CountBelowSplit(s[1..], p);
      if |s| > 1 {
        assert s[0].tail <= s[1].tail;
        assert 0 < CountBelow(s[1..], p) <==> s[1].tail < p;
      }
    }
  }

  /** `CountBelow(s, p)` is the position where tails reach `p`. */
  lemma CountBelowAt(s: seq<Arc>, k: nat, p: nat)
    requires SortedByTail(s)
    requires k <= |s|
    requires k == 0 || s[k - 1].tail < p
    requires k == |s| || p <= s[k].tail
    ensures CountBelow(s, p) == k
  {
    CountBelowSplit(s, p);
    assert k < |s| ==> (k < CountBelow(s, p) <==> s[k].tail < p);
    assert k > 0 ==> (k - 1 < CountBelow(s, p) <==> s[k - 1].tail < p);
  }

  lemma {:induction false} CountBelowMono(s: seq<Arc>, p: nat, q: nat)
    requires p <= q
    ensures CountBelow(s, p) <= CountBelow(s, q)
    decreases |s|
  {
    if s != [] {
      CountBelowMono(s[1..], p, q);
    }
  }

  lemma {:induction false} CountBelowAll(s: seq<Arc>, p: nat)
    requires forall k :: 0 <= k < |s| ==> s[k].tail < p
    ensures CountBelow(s, p) == |s|
    decreases |s|
  {
    if s != [] {
      CountBelowAll(s[1..], p);
    }
  }

  lemma {:induction false} CountBelowZero(s: seq<Arc>)
    ensures CountBelow(s, 0) == 0
    decreases |s|
  {
    if s != [] {
      CountBelowZero(s[1..]);
    }
  }

  /** Sorting keeps the endpoints of every arc below `nodes`. */
  lemma SortedIds(nodes: nat, edges: seq<Arc>)
    requires ContiguousIds(nodes, edges)
    ensures ContiguousIds(nodes, SortByTail(edges))
  {
    var s := SortByTail(edges);
    SortPermutes(edges);
    forall k | 0 <= k < |s|
      ensures s[k].tail < nodes && s[k].head < nodes
    {
      assert s[k] in multiset(s);
      assert s[k] in multiset(edges);
      var m :| 0 <= m < |edges| && edges[m] == s[k];
    }
  }

  // ------------------------------------------------------------ construction

  /** `compact_star_from_edge_vec`: sort the arcs by tail, make one pass
      over them (`ForwardPass`), lay out the reverse index (`ReversePass`),
      then close the `point` ranges of the nodes after the last tail. The
      source sorts the caller's vector in place; `sorted` is that vector
      afterwards (`SortEdges`). */
  method FromEdgeVec(nodes: nat, edges: seq<Arc>) returns (g: Star, sorted: seq<Arc>)
    requires ContiguousIds(nodes, edges)
    ensures g == StarOf(nodes, edges)
    ensures Valid(g)
    ensures NumNodes(g) == nodes && InvalidId(g) == nodes
    ensures NumArcs(g) == |edges| && Infinity(g) == TotalCost(edges) == Sum(g.costs)
    ensures sorted == SortByTail(edges)
  {
    var s := SortEdges(edges);
    SortedIds(nodes, edges);
    var point, tail, head, costs, capacities, costSum, inNodes, pointIndex := ForwardPass(nodes, s);
    var rpoint, trace := ReversePass(nodes, head, inNodes);
    point := ClosePoint(nodes, s, point, pointIndex);
    g := Star(point, rpoint, tail, head, trace, costs, capacities, costSum);
    assert point == PointOf(s, nodes);
    assert rpoint == RPointOf(Heads(s), nodes);
    StarOfValid(nodes, edges);
    sorted := s;
  }

  /** The main loop: each arc is appended to the flattened arrays and its
      cost to the cost sum; `point` gets the current arc index for every node
      up to the arc's tail; the arc index is filed under the arc's head. */
  method ForwardPass(nodes: nat, s: seq<Arc>)
    returns (point: seq<nat>, tail: seq<nat>, head: seq<nat>, costs: seq<nat>,
             capacities: seq<nat>, costSum: nat, inNodes: map<nat, seq<nat>>, pointIndex: nat)
    requires SortedByTail(s)
    ensures tail == Tails(s) && head == Heads(s)
    ensures costs == Costs(s) && capacities == Capacities(s)
    ensures costSum == TotalCost(s)
    ensures pointIndex == if s == [] then 0 else s[|s| - 1].tail
    ensures |point| == pointIndex + 1
    ensures forall p {:trigger point[p]} :: 0 <= p < |point| ==> point[p] == CountBelow(s, p)
    ensures forall t {:trigger inNodes[t]} :: t in inNodes ==> inNodes[t] == InArcs(head, t)
    ensures forall t :: t !in inNodes ==> InArcs(head, t) == []
  {
    point := [0];
    tail, head, costs, capacities := [], [], [], [];
    costSum := 0;
    inNodes := map[];
    pointIndex := 0;
    var tailIndex: nat := 0;
    CountBelowZero(s);
    while tailIndex < |s|
      invariant tailIndex <= |s|
      invariant ArraysUpTo(s, tailIndex, tail, head, costs, capacities, costSum)
      invariant pointIndex == if tailIndex == 0 then 0 else s[tailIndex - 1].tail
      invariant |point| == pointIndex + 1
      invariant forall p {:trigger point[p]} :: 0 <= p < |point| ==> point[p] == CountBelow(s, p)
      invariant forall t {:trigger inNodes[t]} :: t in inNodes ==> inNodes[t] == InArcs(head, t)
      invariant forall t :: t !in inNodes ==> InArcs(head, t) == []
    {
      var a := s[tailIndex];
      FileArc(inNodes, head, a.head);
      assert head + [a.head] == Heads(s)[..tailIndex + 1] by {
        ArraysSnoc(s, tailIndex);
      }
      var incoming := if a.head in inNodes then inNodes[a.head] else [];
      inNodes := inNodes[a.head := incoming + [tailIndex]];
      tail, head, costs, capacities, costSum := AppendArrays(s, tailIndex, tail, head, costs, capacities, costSum);
      point, pointIndex := OpenRanges(s, tailIndex, point, pointIndex);
      tailIndex := tailIndex + 1;
    }
    assert s[..|s|] == s;
  }

  /** The flattened arrays and the cost sum after the first `k` arcs. */
  predicate ArraysUpTo(s: seq<Arc>, k: nat, tail: seq<nat>, head: seq<nat>, costs: seq<nat>,
                       capacities: seq<nat>, costSum: nat)
    requires k <= |s|
  {
    && tail == Tails(s)[..k] && head == Heads(s)[..k]
    && costs == Costs(s)[..k] && capacities == Capacities(s)[..k]
    && costSum == Sum(costs)
  }

  /** Appends arc `k` to the flattened arrays and its cost to the sum. */
  method AppendArrays(s: seq<Arc>, k: nat, tail: seq<nat>, head: seq<nat>, costs: seq<nat>,
                      capacities: seq<nat>, costSum: nat)
    returns (tail': seq<nat>, head': seq<nat>, costs': seq<nat>, capacities': seq<nat>, costSum': nat)
    requires k < |s| && ArraysUpTo(s, k, tail, head, costs, capacities, costSum)
    ensures ArraysUpTo(s, k + 1, tail', head', costs', capacities', costSum')
    ensures head' == head + [s[k].head]
  {
    var a := s[k];
    assert Sum(costs + [a.cost]) == costSum + a.cost by {
      SumAppend(costs, [a.cost]);
    }
    ArraysSnoc(s, k);
    tail' := tail + [a.tail];
    head' := head + [a.head];
    costs' := costs + [a.cost];
    costSum' := costSum + a.cost;
    capacities' := capacities + [a.capacity];
  }

  /** The inner loop of the main pass: while the range index is below the
      tail of arc `k`, the next node's range starts at `k`. */
  method OpenRanges(s: seq<Arc>, k: nat, point0: seq<nat>, pointIndex0: nat)
    returns (point: seq<nat>, pointIndex: nat)
    requires SortedByTail(s)
    requires k < |s|
    requires pointIndex0 == if k == 0 then 0 else s[k - 1].tail
    requires |point0| == pointIndex0 + 1
    requires forall p {:trigger point0[p]} :: 0 <= p < |point0| ==> point0[p] == CountBelow(s, p)
    ensures pointIndex == s[k].tail
    ensures |point| == pointIndex + 1
    ensures forall p {:trigger point[p]} :: 0 <= p < |point| ==> point[p] == CountBelow(s, p)
  {
    point, pointIndex := point0, pointIndex0;
    assert k > 0 ==> s[k - 1].tail <= s[k].tail;
    while pointIndex < s[k].tail
      invariant pointIndex0 <= pointIndex <= s[k].tail
      invariant |point| == pointIndex + 1
      invariant forall p {:trigger point[p]} :: 0 <= p < |point| ==> point[p] == CountBelow(s, p)
    {
      CountBelowAt(s, k, pointIndex + 1);
      point := point + [k];
      pointIndex := pointIndex + 1;
    }
  }

  /** `rpoint[i]` is the running count of filed arc indices before node `i`;
      `trace` appends the indices filed under each node in turn. */
  method ReversePass(nodes: nat, head: seq<nat>, inNodes: map<nat, seq<nat>>)
    returns (rpoint: seq<nat>, trace: seq<nat>)
    requires forall t {:trigger inNodes[t]} :: t in inNodes ==> inNodes[t] == InArcs(head, t)
    requires forall t :: t !in inNodes ==> InArcs(head, t) == []
    ensures rpoint == RPointOf(head, nodes)
    ensures trace == Trace(head, nodes)
  {
    var headIndex: nat := 0;
    rpoint, trace := [], [];
    var index: nat := 0;
    while index < nodes
      invariant index <= nodes
      invariant |rpoint| == index
      invariant trace == Trace(head, index) && headIndex == |trace|
      invariant forall i {:trigger rpoint[i]} :: 0 <= i < index ==> rpoint[i] == |Trace(head, i)|
    {
      rpoint := rpoint + [headIndex];
      if index in inNodes {
        trace := trace + inNodes[index];
        headIndex := headIndex + |inNodes[index]|;
      }
      index := index + 1;
    }
    rpoint := rpoint + [headIndex];
  }

  /** Push the current arc index for the nodes after the last tail, then the
      closing entry: `point` ends with `nodes + 1` entries. */
  method ClosePoint(nodes: nat, s: seq<Arc>, point0: seq<nat>, pointIndex0: nat)
    returns (point: seq<nat>)
    requires SortedByTail(s)
    requires ContiguousIds(nodes, s)
    requires pointIndex0 == if s == [] then 0 else s[|s| - 1].tail
    requires |point0| == pointIndex0 + 1
    requires forall p {:trigger point0[p]} :: 0 <= p < |point0| ==> point0[p] == CountBelow(s, p)
    ensures point == PointOf(s, nodes)
  {
    point := point0;
    var pointIndex := pointIndex0;
    while pointIndex < nodes - 1
      invariant pointIndex <= nodes - 1
      invariant s != [] ==> s[|s| - 1].tail <= pointIndex
      invariant |point| == pointIndex + 1
      invariant forall p {:trigger point[p]} :: 0 <= p < |point| ==> point[p] == CountBelow(s, p)
    {
      CountBelowAt(s, |s|, pointIndex + 1);
      point := point + [|s|];
      pointIndex := pointIndex + 1;
    }
    CountBelowAt(s, |s|, nodes);
    point := point + [|s|];
  }

  /** The arc arrays of a one-longer prefix extend those of the prefix. */
  lemma ArraysSnoc(s: seq<Arc>, k: nat)
    requires k < |s|
    ensures Tails(s)[..k + 1] == Tails(s)[..k] + [s[k].tail]
    ensures Heads(s)[..k + 1] == Heads(s)[..k] + [s[k].head]
    ensures Costs(s)[..k + 1] == Costs(s)[..k] + [s[k].cost]
    ensures Capacities(s)[..k + 1] == Capacities(s)[..k] + [s[k].capacity]
  {
  }

  /** Filing index `|head|` under `x` keeps the map of incoming lists in
      step with the heads seen so far. */
  lemma FileArc(inNodes: map<nat, seq<nat>>, head: seq<nat>, x: nat)
    requires forall t {:trigger inNodes[t]} :: t in inNodes ==> inNodes[t] == InArcs(head, t)
    requires forall t :: t !in inNodes ==> InArcs(head, t) == []
    ensures var m := inNodes[x := (if x in inNodes then inNodes[x] else []) + [|head|]];
            && (forall t {:trigger m[t]} :: t in m ==> m[t] == InArcs(head + [x], t))
            && (forall t :: t !in m ==> InArcs(head + [x], t) == [])
  {
    InArcsSnoc(head, x);
  }

  lemma InArcsSnoc(h: seq<nat>, x: nat)
    ensures forall t :: InArcs(h + [x], t) == InArcs(h, t) + (if x == t then [|h|] else [])
  {
    forall t
      ensures InArcs(h + [x], t) == InArcs(h, t) + (if x == t then [|h|] else [])
    {
      InArcsBelowExtend(h, [x], t, |h|);
    }
  }

  /** Extending `h` does not change the indices below `n <= |h|`. */
  lemma {:induction false} InArcsBelowExtend(h: seq<nat>, e: seq<nat>, t: nat, n: nat)
    requires n <= |h|
    ensures InArcsBelow(h + e, t, n) == InArcsBelow(h, t, n)
  {
    if n > 0 {
      InArcsBelowExtend(h, e, t, n - 1);
    }
  }

  // ------------------------------------------------ properties of StarOf

  /** The star of contiguous ids is valid and answers the size queries with
      the node count, the arc count, and the cost sum. */
  lemma StarOfValid(nodes: nat, edges: seq<Arc>)
    requires ContiguousIds(nodes, edges)
    ensures Valid(StarOf(nodes, edges))
    ensures |StarOf(nodes, edges).point| == nodes + 1
    ensures StarOf(nodes, edges).point[0] == 0
    ensures StarOf(nodes, edges).point[nodes] == |edges|
    ensures NumNodes(StarOf(nodes, edges)) == nodes
    ensures InvalidId(StarOf(nodes, edges)) == nodes
    ensures NumArcs(StarOf(nodes, edges)) == |edges|
    ensures Infinity(StarOf(nodes, edges)) == TotalCost(edges)
  {
    var s := SortByTail(edges);
    var g := StarOf(nodes, edges);
    assert g.point == PointOf(s, nodes);
    assert g.head == Heads(s);
    SortSorts(edges);
    SortedIds(nodes, edges);
    CountBelowZero(s);
    CountBelowAll(s, nodes);
    assert |g.point| == nodes + 1;
    assert g.point[0] == 0;
    assert g.point[nodes] == |s|;
    forall i, j | 0 <= i <= j < |g.point|
      ensures g.point[i] <= g.point[j]
    {
      CountBelowMono(s, i, j);
    }
    SortTotalCost(edges);
  }

  /** In a sorted list the arcs leaving `i` are the slice between the number
      of tails below `i` and the number of tails below `i + 1`. */
  lemma {:induction false} OutgoingSlice(s: seq<Arc>, i: nat)
    requires SortedByTail(s)
    ensures CountBelow(s, i) <= CountBelow(s, i + 1)
    ensures Outgoing(s, i) == s[CountBelow(s, i)..CountBelow(s, i + 1)]
    decreases |s|
  {
    CountBelowMono(s, i, i + 1);
    if s != [] {
      if s[0].tail < i {
        OutgoingSlice(s[1..], i);
        assert s[1..][CountBelow(s[1..], i)..CountBelow(s[1..], i + 1)]
            == s[CountBelow(s, i)..CountBelow(s, i + 1)];
      } else if s[0].tail == i {
        CountBelowAt(s, 0, i);
        OutgoingSlice(s[1..], i);
        assert s[1..][..CountBelow(s[1..], i + 1)] == s[1..CountBelow(s, i + 1)];
      } else {
        CountBelowAt(s, 0, i);
        CountBelowAt(s, 0, i + 1);
        OutgoingBelowFirst(s, i);
      }
    }
  }

  /** The heads of a slice are the slice of the heads. */
  lemma HeadsSlice(s: seq<Arc>, lo: nat, hi: nat)
    requires lo <= hi <= |s|
    ensures Heads(s[lo..hi]) == Heads(s)[lo..hi]
  {
  }

  /** `adjacent(i)` of a constructed star lists the heads of the input arcs
      leaving `i`, in input order and with duplicates; it is empty for ids
      that are not nodes. */
  lemma StarOfAdjacent(nodes: nat, edges: seq<Arc>, i: nat)
    requires ContiguousIds(nodes, edges)
    ensures Valid(StarOf(nodes, edges))
    ensures Adjacent(StarOf(nodes, edges), i) == Heads(Outgoing(edges, i))
  {
    var s := SortByTail(edges);
    var g := StarOf(nodes, edges);
    StarOfValid(nodes, edges);
    SortSorts(edges);
    SortStable(edges, i);
    if i < nodes {
      OutgoingSlice(s, i);
      HeadsSlice(s, CountBelow(s, i), CountBelow(s, i + 1));
    } else {
      SortedIds(nodes, edges);
      OutgoingNone(s, i);
    }
  }

  /** Construction groups the arcs by source: `tail` is sorted, and
      `tail[k] == i` exactly for `k` in `[point[i], point[i + 1])`. */
  lemma StarOfGrouping(nodes: nat, edges: seq<Arc>)
    requires ContiguousIds(nodes, edges)
    ensures var g := StarOf(nodes, edges);
            && |g.point| == nodes + 1
            && (forall a, b :: 0 <= a <= b < |g.tail| ==> g.tail[a] <= g.tail[b])
            && (forall i, k :: 0 <= i < nodes && 0 <= k < |g.tail| ==>
                  (g.tail[k] == i <==> g.point[i] <= k < g.point[i + 1]))
  {
    var s := SortByTail(edges);
    var g := StarOf(nodes, edges);
    SortSorts(edges);
    assert g.tail == Tails(s) && g.point == PointOf(s, nodes);
    forall i, k | 0 <= i < nodes && 0 <= k < |g.tail|
      ensures g.tail[k] == i <==> g.point[i] <= k < g.point[i + 1]
    {
      TailRange(s, i, k);
    }
  }

  /** In a sorted list the arcs leaving `i` sit between the counts of tails
      below `i` and below `i + 1`. */
  lemma TailRange(s: seq<Arc>, i: nat, k: nat)
    requires SortedByTail(s) && k < |s|
    ensures s[k].tail == i <==> CountBelow(s, i) <= k < CountBelow(s, i + 1)
  {
    CountBelowSplit(s, i);
    CountBelowSplit(s, i + 1);
  }

  /** The first arc of `o` whose head is `j`. */
  function FirstArcTo(o: seq<Arc>, j: nat): (r: Option<Arc>)
    ensures r.Some? ==> r.value in o && r.value.head == j
    ensures r.None? <==> forall k :: 0 <= k < |o| ==> o[k].head != j
  {
    if o == [] then None
    else if o[0].head == j then Some(o[0])
    else
      var r := FirstArcTo(o[1..], j);
      assert forall k :: 1 <= k < |o| ==> o[k] == o[1..][k - 1];
      r
  }

  /** Scanning the heads of `[lo, hi)` finds the index of the first arc to
      `j` in the slice. */
  lemma {:induction false} FirstHeadArc(s: seq<Arc>, lo: nat, hi: nat, j: nat)
    requires lo <= hi <= |s|
    ensures FirstHead(Heads(s), lo, hi, j).None? <==> FirstArcTo(s[lo..hi], j).None?
    ensures FirstHead(Heads(s), lo, hi, j).Some? ==>
              s[FirstHead(Heads(s), lo, hi, j).value] == FirstArcTo(s[lo..hi], j).value
    decreases hi - lo
  {
    if lo < hi {
      assert s[lo..hi][0] == s[lo];
      assert s[lo..hi][1..] == s[lo + 1..hi];
      FirstHeadArc(s, lo + 1, hi, j);
    }
  }

  /** `cost(i, j)` and `capacity(i, j)` of a constructed star are those of
      the first input arc `i -> j`, and `None` when there is none. */
  lemma StarOfCost(nodes: nat, edges: seq<Arc>, i: nat, j: nat)
    requires ContiguousIds(nodes, edges)
    ensures Valid(StarOf(nodes, edges))
    ensures Cost(StarOf(nodes, edges), i, j)
         == match FirstArcTo(Outgoing(edges, i), j)
            case None => None
            case Some(a) => Some(a.cost)
    ensures Capacity(StarOf(nodes, edges), i, j)
         == match FirstArcTo(Outgoing(edges, i), j)
            case None => None
            case Some(a) => Some(a.capacity)
  {
    var s := SortByTail(edges);
    var g := StarOf(nodes, edges);
    StarOfValid(nodes, edges);
    SortSorts(edges);
    SortStable(edges, i);
    if i < nodes {
      OutgoingSlice(s, i);
      FirstHeadArc(s, CountBelow(s, i), CountBelow(s, i + 1), j);
    } else {
      SortedIds(nodes, edges);
      OutgoingNone(s, i);
    }
  }

  /** The trace of the first `i` nodes is a prefix of that of the first `j`. */
  lemma {:induction false} TracePrefix(h: seq<nat>, i: nat, j: nat)
    requires i <= j
    ensures |Trace(h, i)| <= |Trace(h, j)|
    ensures Trace(h, i) == Trace(h, j)[..|Trace(h, i)|]
    decreases j - i
  {
    if i < j {
      TracePrefix(h, i, j - 1);
      assert Trace(h, j) == Trace(h, j - 1) + InArcs(h, j - 1);
    }
  }

  /** A duplicate-free list holding exactly `0 .. n - 1` has length `n`. */
  lemma {:induction false} DistinctRange(s: seq<nat>, n: nat)
    requires forall a, b :: 0 <= a < b < |s| ==> s[a] != s[b]
    requires forall x: nat :: x in s <==> x < n
    ensures |s| == n
    decreases n
  {
    if s == [] {
      assert n > 0 ==> n - 1 in s;
    } else {
      assert s[0] in s;
      assert n - 1 in s;
      var m :| 0 <= m < |s| && s[m] == n - 1;
      var t := s[..m] + s[m + 1..];
      forall a, b | 0 <= a < b < |t|
        ensures t[a] != t[b]
      {
        var a', b' := if a < m then a else a + 1, if b < m then b else b + 1;
        assert t[a] == s[a'] && t[b] == s[b'];
      }
      forall x: nat
        ensures x in t <==> x < n - 1
      {
        if x in t {
          var k :| 0 <= k < |t| && t[k] == x;
          var k' := if k < m then k else k + 1;
          assert s[k'] == x && k' != m;
          assert x in s;
          assert x != n - 1 by {
            if k' < m { assert s[k'] != s[m]; } else { assert s[m] != s[k']; }
          }
        }
        if x < n - 1 {
          assert x in s;
          var k :| 0 <= k < |s| && s[k] == x;
          assert k != m;
          assert t[if k < m then k else k - 1] == x;
        }
      }
      DistinctRange(t, n - 1);
    }
  }

  /** The reverse index of a constructed star: `rpoint` has `nodes + 1`
      non-decreasing entries from 0 to the number of arcs, `trace` lists every
      arc index exactly once, and node `i`'s slice of `trace` lists, in
      ascending order, exactly the arcs whose head is `i`. */
  lemma StarOfReverse(nodes: nat, edges: seq<Arc>)
    requires ContiguousIds(nodes, edges)
    ensures var g := StarOf(nodes, edges);
            && |g.rpoint| == nodes + 1 && g.rpoint[0] == 0 && g.rpoint[nodes] == |edges|
            && (forall i, j :: 0 <= i <= j <= nodes ==> g.rpoint[i] <= g.rpoint[j])
            && |g.trace| == |edges|
            && (forall k :: 0 <= k < |edges| ==> k in g.trace)
            && (forall a, b :: 0 <= a < b < |g.trace| ==> g.trace[a] != g.trace[b])
  {
    var s := SortByTail(edges);
    var g := StarOf(nodes, edges);
    var h := Heads(s);
    SortedIds(nodes, edges);
    TraceMembers(h, nodes);
    forall i, j | 0 <= i <= j <= nodes
      ensures g.rpoint[i] <= g.rpoint[j]
    {
      TracePrefix(h, i, j);
    }
    forall x: nat
      ensures x in g.trace <==> x < |edges|
    {
      assert x < |edges| ==> h[x] < nodes;
    }
    DistinctRange(g.trace, |edges|);
  }

  /** Node `i`'s slice `trace[rpoint[i]..rpoint[i + 1]]` holds the indices
      of the arcs into `i`, in ascending order. */
  lemma StarOfTraceGroups(nodes: nat, edges: seq<Arc>, i: nat)
    requires ContiguousIds(nodes, edges)
    requires i < nodes
    ensures var g := StarOf(nodes, edges);
            && g.rpoint[i] <= g.rpoint[i + 1] <= |g.trace|
            && (forall k :: g.rpoint[i] <= k < g.rpoint[i + 1] ==>
                  g.trace[k] < |g.head| && g.head[g.trace[k]] == i)
            && (forall a, b :: g.rpoint[i] <= a < b < g.rpoint[i + 1] ==> g.trace[a] < g.trace[b])
            && (forall k :: 0 <= k < |g.head| && g.head[k] == i ==>
                  k in g.trace[g.rpoint[i]..g.rpoint[i + 1]])
  {
    var g := StarOf(nodes, edges);
    var h := Heads(SortByTail(edges));
    TracePrefix(h, i + 1, nodes);
    assert Trace(h, i + 1) == Trace(h, i) + InArcs(h, i);
    var group := g.trace[g.rpoint[i]..g.rpoint[i + 1]];
    assert group == InArcs(h, i);
    InArcsFacts(h, i);
    assert forall k :: g.rpoint[i] <= k < g.rpoint[i + 1] ==> g.trace[k] == group[k - g.rpoint[i]];
  }

  /** The star of an already sorted arc list, without the sort. */
  lemma StarOfSorted(nodes: nat, s: seq<Arc>)
    requires SortedByTail(s)
    ensures StarOf(nodes, s)
         == Star(PointOf(s, nodes), RPointOf(Heads(s), nodes), Tails(s), Heads(s),
                 Trace(Heads(s), nodes), Costs(s), Capacities(s), TotalCost(s))
  {
    SortOfSorted(s);
  }
}
