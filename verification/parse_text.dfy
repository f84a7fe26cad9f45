/** Reading an arc list from text: each line's captured node names are
    mapped to ids in order of first appearance, and each line becomes an arc
    (two when the network is undirected). The regular expression and the
    number parsing are outside the model: a line arrives as what the pattern
    captured, with the cost and capacity already parsed (`None` when the
    group is missing or does not parse). */
module ParseText {
  import opened Types
  import CompactStar

  /** The named groups of one matching line. */
  datatype Captures = Captures(from: Option<string>, to: Option<string>,
                               cost: Option<nat>, cap: Option<nat>)

  /** One line from the reader: its captures (`None` when the pattern does
      not match), or a read error. */
  datatype Line = Ok(caps: Option<Captures>) | ReadError

  /** The name-to-id map and the next free id. */
  datatype Ids = Ids(nodeToId: map<string, nat>, nextNode: nat)

  /** The ids handed out are exactly `0 .. nextNode - 1`, each to one name. */
  ghost predicate Dense(ids: Ids) {
    && |ids.nodeToId| == ids.nextNode
    && (forall name :: name in ids.nodeToId ==> ids.nodeToId[name] < ids.nextNode)
    && (forall a, b :: a in ids.nodeToId && b in ids.nodeToId && a != b ==>
          ids.nodeToId[a] != ids.nodeToId[b])
    && (forall v :: 0 <= v < ids.nextNode ==> v in ids.nodeToId.Values)
  }

  /** The state `edges_from_file` starts from. */
  const Start := Ids(map[], 0)

  lemma StartDense()
    ensures Dense(Start)
  {
  }

  // -------------------------------------------------------- resolving names

  /** The id of `name`: the one already bound, or else the counter's value,
      which is bound to `name` while the counter advances by one (what
      `inc_node_counter` does). */
  function Resolve(ids: Ids, name: string): (r: (nat, Ids))
    ensures name in r.1.nodeToId && r.1.nodeToId[name] == r.0
    ensures r.1.nodeToId.Keys == ids.nodeToId.Keys + {name}
    ensures forall n :: n in ids.nodeToId ==> n in r.1.nodeToId && r.1.nodeToId[n] == ids.nodeToId[n]
    ensures name in ids.nodeToId ==> r.1 == ids
    ensures name !in ids.nodeToId ==> r.0 == ids.nextNode && r.1.nextNode == ids.nextNode + 1
  {
    if name in ids.nodeToId then (ids.nodeToId[name], ids)
    else
      (ids.nextNode, Ids(ids.nodeToId[name := ids.nextNode], ids.nextNode + 1))
  }

  /** Resolving a name keeps the ids dense. */
  lemma ResolveDense(ids: Ids, name: string)
    requires Dense(ids)
    ensures Dense(Resolve(ids, name).1)
    ensures Resolve(ids, name).0 < Resolve(ids, name).1.nextNode
  {
    var r := Resolve(ids, name).1;
    if name !in ids.nodeToId {
      assert r.nodeToId.Keys == ids.nodeToId.Keys + {name};
      forall v | 0 <= v < r.nextNode
        ensures v in r.nodeToId.Values
      {
        if v < ids.nextNode {
          assert v in ids.nodeToId.Values;
          var n :| n in ids.nodeToId && ids.nodeToId[n] == v;
          assert r.nodeToId[n] == v;
        } else {
          assert r.nodeToId[name] == v;
        }
      }
    }
  }

  // ---------------------------------------------------------- parsing lines

  /** `parse_line`: the names default to `""` and the numbers to 0, and the
      tail's name is resolved before the head's. The arc joins the ids its
      two names are bound to afterwards; only the two names are added to
      the map, and names already bound keep their ids. */
  function ParseLine(caps: Option<Captures>, ids: Ids): (r: (Arc, Ids))
    ensures FromName(caps) in r.1.nodeToId && r.0.tail == r.1.nodeToId[FromName(caps)]
    ensures ToName(caps) in r.1.nodeToId && r.0.head == r.1.nodeToId[ToName(caps)]
    ensures r.0.cost == (if caps.Some? && caps.value.cost.Some? then caps.value.cost.value else 0)
    ensures r.0.capacity == (if caps.Some? && caps.value.cap.Some? then caps.value.cap.value else 0)
    ensures r.1.nodeToId.Keys == ids.nodeToId.Keys + {FromName(caps), ToName(caps)}
    ensures forall n :: n in ids.nodeToId ==> r.1.nodeToId[n] == ids.nodeToId[n]
  {
    var fromName := if caps.Some? then caps.value.from.GetOr("") else "";
    var toName := if caps.Some? then caps.value.to.GetOr("") else "";
    var cost := if caps.Some? then caps.value.cost.GetOr(0) else 0;
    var cap := if caps.Some? then caps.value.cap.GetOr(0) else 0;
    var (from, ids1) := Resolve(ids, fromName);
    var (to, ids2) := Resolve(ids1, toName);
    (Arc(from, to, cost, cap), ids2)
  }

  /** The captured name, or `""`. */
  function FromName(caps: Option<Captures>): string {
    if caps.Some? && caps.value.from.Some? then caps.value.from.value else ""
  }

  function ToName(caps: Option<Captures>): string {
    if caps.Some? && caps.value.to.Some? then caps.value.to.value else ""
  }

  /** Ids are handed out in order of appearance: two new, different names get
      the next two ids, tail first; one new name used for both ends gets a
      single id. */
  lemma ParseLineOrder(caps: Option<Captures>, ids: Ids)
    requires FromName(caps) !in ids.nodeToId && ToName(caps) !in ids.nodeToId
    ensures FromName(caps) != ToName(caps) ==>
              && ParseLine(caps, ids).0.tail == ids.nextNode
              && ParseLine(caps, ids).0.head == ids.nextNode + 1
              && ParseLine(caps, ids).1.nextNode == ids.nextNode + 2
    ensures FromName(caps) == ToName(caps) ==>
              && ParseLine(caps, ids).0.tail == ParseLine(caps, ids).0.head == ids.nextNode
              && ParseLine(caps, ids).1.nextNode == ids.nextNode + 1
  {
  }

  /** A line the pattern does not match becomes a zero-cost, zero-capacity
      loop at the id of the empty name. */
  lemma NonMatchingLine(ids: Ids)
    ensures var (arc, ids') := ParseLine(None, ids);
            && arc.tail == arc.head == ids'.nodeToId[""]
            && arc.cost == 0 && arc.capacity == 0
  {
  }

  /** Parsing a line keeps the ids dense, and both ends of its arc are
      handed-out ids. */
  lemma ParseLineDense(caps: Option<Captures>, ids: Ids)
    requires Dense(ids)
    ensures Dense(ParseLine(caps, ids).1)
    ensures ParseLine(caps, ids).0.tail < ParseLine(caps, ids).1.nextNode
    ensures ParseLine(caps, ids).0.head < ParseLine(caps, ids).1.nextNode
    ensures ParseLine(caps, ids).1.nextNode >= ids.nextNode
  {
    var fromName, toName := FromName(caps), ToName(caps);
    var (from, ids1) := Resolve(ids, fromName);
    ResolveDense(ids, fromName);
    ResolveDense(ids1, toName);
  }

  // ------------------------------------------------------- reading the file

  /** The arcs one line contributes: the parsed arc, then its reverse with
      the same cost and capacity when the network is undirected. */
  function LineArcs(arc: Arc, undirected: bool): seq<Arc> {
    if undirected then [arc, Arc(arc.head, arc.tail, arc.cost, arc.capacity)] else [arc]
  }

  /** The loop of `edges_from_file` over the lines after the header: each
      line read is parsed and its arcs appended; a read error ends it. */
  function Process(lines: seq<Line>, undirected: bool, ids: Ids, edges: seq<Arc>): (r: (seq<Arc>, Ids))
    ensures |edges| <= |r.0| && r.0[..|edges|] == edges
    ensures ids.nodeToId.Keys <= r.1.nodeToId.Keys
    ensures forall n :: n in ids.nodeToId ==> r.1.nodeToId[n] == ids.nodeToId[n]
    decreases |lines|
  {
    if lines == [] || lines[0].ReadError? then (edges, ids)
    else
      var (arc, ids') := ParseLine(lines[0].caps, ids);
      Process(lines[1..], undirected, ids', edges + LineArcs(arc, undirected))
  }

  /** The number of lines read before the first read error. */
  function OkPrefix(lines: seq<Line>): (r: nat)
    ensures r <= |lines|
    ensures forall k :: 0 <= k < r ==> lines[k].Ok?
    ensures r < |lines| ==> lines[r].ReadError?
  {
    if lines == [] || lines[0].ReadError? then 0 else 1 + OkPrefix(lines[1..])
  }

  /** Each line before the first read error adds one arc, or two when
      undirected; arcs already present are kept in front. */
  lemma {:induction false} ProcessLength(lines: seq<Line>, undirected: bool, ids: Ids, edges: seq<Arc>)
    ensures |Process(lines, undirected, ids, edges).0| == |edges| + (if undirected then 2 else 1) * OkPrefix(lines)
    ensures Process(lines, undirected, ids, edges).0[..|edges|] == edges
    decreases |lines|
  {
    if lines != [] && lines[0].Ok? {
      var (arc, ids') := ParseLine(lines[0].caps, ids);
      ProcessLength(lines[1..], undirected, ids', edges + LineArcs(arc, undirected));
      var r := Process(lines[1..], undirected, ids', edges + LineArcs(arc, undirected)).0;
      assert r[..|edges|] == (r[..|edges + LineArcs(arc, undirected)|])[..|edges|];
    }
  }

  /** Lines after the first read error have no effect. */
  lemma {:induction false} ProcessStops(lines: seq<Line>, undirected: bool, ids: Ids, edges: seq<Arc>)
    ensures Process(lines, undirected, ids, edges) == Process(lines[..OkPrefix(lines)], undirected, ids, edges)
    decreases |lines|
  {
    if lines != [] && lines[0].Ok? {
      var (arc, ids') := ParseLine(lines[0].caps, ids);
      ProcessStops(lines[1..], undirected, ids', edges + LineArcs(arc, undirected));
      assert lines[..OkPrefix(lines)][1..] == lines[1..][..OkPrefix(lines[1..])];
    }
  }

  /** In an undirected read every arc at an even offset past the arcs already
      present is followed by its reverse. */
  lemma {:induction false} ProcessReverses(lines: seq<Line>, ids: Ids, edges: seq<Arc>)
    ensures var r := Process(lines, true, ids, edges).0;
            forall k :: 0 <= k < OkPrefix(lines) ==>
              |edges| + 2 * k + 1 < |r| &&
              r[|edges| + 2 * k + 1] == Arc(r[|edges| + 2 * k].head, r[|edges| + 2 * k].tail,
                                             r[|edges| + 2 * k].cost, r[|edges| + 2 * k].capacity)
    decreases |lines|
  {
    ProcessLength(lines, true, ids, edges);
    if lines != [] && lines[0].Ok? {
      var (arc, ids') := ParseLine(lines[0].caps, ids);
      var edges' := edges + LineArcs(arc, true);
      ProcessReverses(lines[1..], ids', edges');
      ProcessLength(lines[1..], true, ids', edges');
      var r := Process(lines, true, ids, edges).0;
      assert r == Process(lines[1..], true, ids', edges').0;
      assert r[..|edges'|] == edges';
      assert r[|edges|] == edges'[|edges|] && r[|edges| + 1] == edges'[|edges| + 1];
      PairsShift(r, |edges|, OkPrefix(lines));
    }
  }

  /** A reversed pair at `at` followed by `count - 1` reversed pairs makes
      `count` reversed pairs from `at`. */
  lemma PairsShift(r: seq<Arc>, at: nat, count: nat)
    requires count >= 1 && at + 1 < |r|
    requires r[at + 1] == Arc(r[at].head, r[at].tail, r[at].cost, r[at].capacity)
    requires forall k :: 0 <= k < count - 1 ==>
               at + 2 + 2 * k + 1 < |r| &&
               r[at + 2 + 2 * k + 1] == Arc(r[at + 2 + 2 * k].head, r[at + 2 + 2 * k].tail,
                                            r[at + 2 + 2 * k].cost, r[at + 2 + 2 * k].capacity)
    ensures forall k :: 0 <= k < count ==>
              at + 2 * k + 1 < |r| &&
              r[at + 2 * k + 1] == Arc(r[at + 2 * k].head, r[at + 2 * k].tail,
                                       r[at + 2 * k].cost, r[at + 2 * k].capacity)
  {
    forall k | 1 <= k < count
      ensures at + 2 * k + 1 < |r| &&
              r[at + 2 * k + 1] == Arc(r[at + 2 * k].head, r[at + 2 * k].tail,
                                       r[at + 2 * k].cost, r[at + 2 * k].capacity)
    {
      assert at + 2 * k == at + 2 + 2 * (k - 1);
    }
  }

  /** Appending arcs within a grown id range keeps every arc within it. */
  lemma AppendBounded(edges: seq<Arc>, more: seq<Arc>, n: nat, n': nat)
    requires n <= n'
    requires forall k :: 0 <= k < |edges| ==> edges[k].tail < n && edges[k].head < n
    requires forall k :: 0 <= k < |more| ==> more[k].tail < n' && more[k].head < n'
    ensures forall k :: 0 <= k < |edges + more| ==> (edges + more)[k].tail < n' && (edges + more)[k].head < n'
  {
    forall k | 0 <= k < |edges + more|
      ensures (edges + more)[k].tail < n' && (edges + more)[k].head < n'
    {
      if k < |edges| {
        assert (edges + more)[k] == edges[k];
      } else {
        assert (edges + more)[k] == more[k - |edges|];
      }
    }
  }

  /** Reading keeps the ids dense, and every arc appended joins handed-out
      ids. */
  lemma {:induction false} ProcessDense(lines: seq<Line>, undirected: bool, ids: Ids, edges: seq<Arc>)
    requires Dense(ids)
    requires forall k :: 0 <= k < |edges| ==> edges[k].tail < ids.nextNode && edges[k].head < ids.nextNode
    ensures var (edges', ids') := Process(lines, undirected, ids, edges);
            && Dense(ids')
            && forall k :: 0 <= k < |edges'| ==> edges'[k].tail < ids'.nextNode && edges'[k].head < ids'.nextNode
    decreases |lines|
  {
    if lines != [] && lines[0].Ok? {
      var p := ParseLine(lines[0].caps, ids);
      StepDense(lines[0].caps, undirected, ids, edges);
      ProcessDense(lines[1..], undirected, p.1, edges + LineArcs(p.0, undirected));
      assert Process(lines, undirected, ids, edges) == Process(lines[1..], undirected, p.1, edges + LineArcs(p.0, undirected));
    }
  }

  /** One line read keeps the ids dense and the arcs within them. */
  lemma StepDense(caps: Option<Captures>, undirected: bool, ids: Ids, edges: seq<Arc>)
    requires Dense(ids)
    requires forall k :: 0 <= k < |edges| ==> edges[k].tail < ids.nextNode && edges[k].head < ids.nextNode
    ensures var p := ParseLine(caps, ids);
            var edges' := edges + LineArcs(p.0, undirected);
            && Dense(p.1)
            && forall k :: 0 <= k < |edges'| ==> edges'[k].tail < p.1.nextNode && edges'[k].head < p.1.nextNode
  {
    var p := ParseLine(caps, ids);
    ParseLineDense(caps, ids);
    LineArcsBounded(p.0, undirected, p.1.nextNode);
    AppendBounded(edges, LineArcs(p.0, undirected), ids.nextNode, p.1.nextNode);
  }

  /** The arcs of a line join the same two ids as the parsed arc. */
  lemma LineArcsBounded(arc: Arc, undirected: bool, n: nat)
    requires arc.tail < n && arc.head < n
    ensures forall k :: 0 <= k < |LineArcs(arc, undirected)| ==>
              LineArcs(arc, undirected)[k].tail < n && LineArcs(arc, undirected)[k].head < n
  {
  }

  /** Reading a whole file into an empty map and arc list, as the command
      line front end does: the ids handed out are `0 .. |map| - 1`, each
      bound to one name, and once a line is read every arc joins two of them,
      so the arcs fit a network of `|map|` nodes. */
  lemma ReadFileIds(lines: seq<Line>, undirected: bool)
    ensures var (edges, ids) := Process(lines, undirected, Start, []);
            && Dense(ids) && ids.nextNode == |ids.nodeToId|
            && (OkPrefix(lines) > 0 ==> CompactStar.ContiguousIds(|ids.nodeToId|, edges))
  {
    StartDense();
    ProcessDense(lines, undirected, Start, []);
    ProcessLength(lines, undirected, Start, []);
    var (edges, ids) := Process(lines, undirected, Start, []);
    if OkPrefix(lines) > 0 {
      assert edges[0].tail < ids.nextNode;
    }
  }

  /** `edges_from_file` once the file is open: the first `skip` lines are
      dropped whatever they hold, the counter starts at 0 whatever map is
      passed in, and the remaining lines are read up to the first read
      error. */
  method EdgesFromFile(lines: seq<Line>, undirected: bool, skip: nat,
                       nodeToId: map<string, nat>, edges: seq<Arc>)
      returns (nodeToId': map<string, nat>, edges': seq<Arc>)
    ensures var rest := if skip <= |lines| then lines[skip..] else [];
            var (e, ids) := Process(rest, undirected, Ids(nodeToId, 0), edges);
            edges' == e && nodeToId' == ids.nodeToId
  {
    var rest := if skip <= |lines| then lines[skip..] else [];
    var ids := Ids(nodeToId, 0);
    edges' := edges;
    var i := 0;
    while i < |rest|
      invariant i <= |rest|
      invariant Process(rest[i..], undirected, ids, edges') == Process(rest, undirected, Ids(nodeToId, 0), edges)
    {
      if rest[i].ReadError? {
        break;
      }
      var (arc, ids1) := ParseLine(rest[i].caps, ids);
      assert rest[i..][0] == rest[i] && rest[i..][1..] == rest[i + 1..];
      ghost var expected := edges' + LineArcs(arc, undirected);
      edges' := edges' + [arc];
      if undirected {
        edges' := edges' + [Arc(arc.head, arc.tail, arc.cost, arc.capacity)];
      }
      assert edges' == expected;
      ids := ids1;
      i := i + 1;
    }
    nodeToId' := ids.nodeToId;
  }
}
