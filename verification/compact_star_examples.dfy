/** The compact-star tests of the library, stated as lemmas about the model:
    the hand-built sample network and its queries, and construction from the
    two test arc lists. */
module CompactStarExamples {
  import opened Types
  import opened ArcSort
  import opened CompactStar

  const SamplePoint: seq<nat> := [0, 2, 3, 4, 6, 8]
  const SampleRPoint: seq<nat> := [0, 0, 2, 5, 7, 8]
  const SampleTail: seq<nat> := [0, 0, 1, 2, 3, 3, 4, 4]
  const SampleHead: seq<nat> := [1, 2, 3, 1, 2, 4, 2, 3]
  const SampleTrace: seq<nat> := [0, 3, 1, 4, 6, 2, 7, 5]
  const SampleCosts: seq<nat> := [25, 35, 15, 45, 15, 45, 25, 35]
  const SampleCapacities: seq<nat> := [30, 50, 40, 10, 30, 60, 20, 50]

  /** The five-node sample network, laid out by hand. */
  const Sample := Star(SamplePoint, SampleRPoint, SampleTail, SampleHead, SampleTrace,
                       SampleCosts, SampleCapacities, 0)

  /** The arcs the sample network is built from, in input order. */
  const SampleArcs := [
    Arc(0, 1, 25, 30), Arc(0, 2, 35, 50), Arc(1, 3, 15, 40), Arc(2, 1, 45, 10),
    Arc(3, 2, 15, 30), Arc(3, 4, 45, 60), Arc(4, 2, 25, 20), Arc(4, 3, 35, 50)]

  /** The six-node network of the second construction test. */
  const ShortestPathArcs := [
    Arc(0, 1, 6, 0), Arc(0, 2, 4, 0), Arc(1, 2, 2, 0), Arc(1, 3, 2, 0), Arc(2, 3, 1, 0),
    Arc(2, 4, 2, 0), Arc(3, 5, 7, 0), Arc(4, 3, 1, 0), Arc(4, 5, 3, 0)]

  /** Queries on the hand-built sample: the arc `3 -> 4` is arc 5, the cost
      of `4 -> 3` is 35, the capacity of `1 -> 3` is 40, and so on. */
  lemma SampleQueries()
    ensures Valid(Sample)
    ensures GetHead(Sample, 3, 4) == Some(5)
    ensures Cost(Sample, 4, 3) == Some(35)
    ensures Capacity(Sample, 1, 3) == Some(40)
    ensures NumNodes(Sample) == 5 && InvalidId(Sample) == 5
    ensures Adjacent(Sample, 0) == [1, 2] && Adjacent(Sample, 1) == [3]
    ensures Adjacent(Sample, 2) == [1] && Adjacent(Sample, 3) == [2, 4]
    ensures Adjacent(Sample, 4) == [2, 3] && Adjacent(Sample, 5) == []
  {
  }

  /** Construction from the sample arcs yields the hand-built layout, with
      cost sum 240. */
  lemma BuildSample()
    ensures StarOf(5, SampleArcs) == Sample.(costSum := 240)
  {
    assert SortedByTail(SampleArcs);
    StarOfSorted(5, SampleArcs);
    SampleForward();
    SampleReverse();
  }

  lemma SampleForward()
    ensures PointOf(SampleArcs, 5) == SamplePoint
    ensures Tails(SampleArcs) == SampleTail && Heads(SampleArcs) == SampleHead
    ensures Costs(SampleArcs) == SampleCosts && Capacities(SampleArcs) == SampleCapacities
    ensures TotalCost(SampleArcs) == 240
  {
    SamplePointOf();
    SampleArrays();
  }

  lemma SamplePointOf()
    ensures PointOf(SampleArcs, 5) == SamplePoint
  {
    SampleCounts();
  }

  lemma SampleArrays()
    ensures Tails(SampleArcs) == SampleTail && Heads(SampleArcs) == SampleHead
    ensures Costs(SampleArcs) == SampleCosts && Capacities(SampleArcs) == SampleCapacities
    ensures TotalCost(SampleArcs) == 240
  {
    assert Costs(SampleArcs) == SampleCosts;
    assert Sum(SampleCosts) == 240;
  }

  lemma SampleCounts()
    ensures CountBelow(SampleArcs, 0) == 0 && CountBelow(SampleArcs, 1) == 2
    ensures CountBelow(SampleArcs, 2) == 3 && CountBelow(SampleArcs, 3) == 4
    ensures CountBelow(SampleArcs, 4) == 6 && CountBelow(SampleArcs, 5) == 8
  {
  }

  lemma SampleReverse()
    ensures Trace(SampleHead, 5) == SampleTrace
    ensures RPointOf(SampleHead, 5) == SampleRPoint
  {
    SampleTracePrefixes();
    SampleRPointValues();
  }

  lemma SampleRPointValues()
    ensures RPointOf(SampleHead, 5) == SampleRPoint
  {
    forall i | 0 <= i <= 5
      ensures |Trace(SampleHead, i)| == SampleRPoint[i]
    {
      SampleTraceLengths();
      assert i == 0 || i == 1 || i == 2 || i == 3 || i == 4 || i == 5;
    }
    RPointOfLengths(SampleHead, 5, SampleRPoint);
  }

  lemma SampleTraceLengths()
    ensures |Trace(SampleHead, 0)| == 0 && |Trace(SampleHead, 1)| == 0 && |Trace(SampleHead, 2)| == 2
    ensures |Trace(SampleHead, 3)| == 5 && |Trace(SampleHead, 4)| == 7 && |Trace(SampleHead, 5)| == 8
  {
    SampleTracePrefixes();
  }

  /** The traces of the first one to four nodes of the sample. */
  lemma SampleTracePrefixes()
    ensures Trace(SampleHead, 1) == [] && Trace(SampleHead, 2) == [0, 3]
    ensures Trace(SampleHead, 3) == [0, 3, 1, 4, 6] && Trace(SampleHead, 4) == [0, 3, 1, 4, 6, 2, 7]
    ensures Trace(SampleHead, 5) == SampleTrace
  {
    SampleInArcs();
  }

  /** The incoming-arc lists of the sample's nodes. */
  lemma SampleInArcs()
    ensures InArcs(SampleHead, 0) == [] && InArcs(SampleHead, 1) == [0, 3]
    ensures InArcs(SampleHead, 2) == [1, 4, 6]
    ensures InArcs(SampleHead, 3) == [2, 7] && InArcs(SampleHead, 4) == [5]
  {
    var h := SampleHead;
    assert InArcsBelow(h, 0, 8) == [] && InArcsBelow(h, 1, 8) == [0, 3];
    assert InArcsBelow(h, 2, 8) == [1, 4, 6];
    assert InArcsBelow(h, 3, 8) == [2, 7] && InArcsBelow(h, 4, 8) == [5];
  }

  /** Construction of the six-node network: six nodes and the offsets
      `[0, 2, 4, 6, 7, 9, 9]`. */
  lemma BuildShortestPathNetwork()
    ensures NumNodes(StarOf(6, ShortestPathArcs)) == 6
    ensures StarOf(6, ShortestPathArcs).point == [0, 2, 4, 6, 7, 9, 9]
  {
    assert SortedByTail(ShortestPathArcs);
    StarOfSorted(6, ShortestPathArcs);
    ShortestPathPoint();
  }

  lemma ShortestPathPoint()
    ensures PointOf(ShortestPathArcs, 6) == [0, 2, 4, 6, 7, 9, 9]
  {
    ShortestPathCounts();
  }

  lemma ShortestPathCounts()
    ensures CountBelow(ShortestPathArcs, 0) == 0 && CountBelow(ShortestPathArcs, 1) == 2
    ensures CountBelow(ShortestPathArcs, 2) == 4 && CountBelow(ShortestPathArcs, 3) == 6
    ensures CountBelow(ShortestPathArcs, 4) == 7 && CountBelow(ShortestPathArcs, 5) == 9
    ensures CountBelow(ShortestPathArcs, 6) == 9
  {
  }
}
