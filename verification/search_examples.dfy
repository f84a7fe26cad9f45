/** The documented breadth-first search run on the sample network, stated as
    lemmas about the search loop, one iteration at a time. */
module SearchExamples {
  import opened Types
  import opened CompactStar
  import opened CompactStarExamples
  import opened Collections
  import opened Search

  /** The sample network as construction builds it from its arc list. */
  const Built := Sample.(costSum := 240)

  lemma BuiltAdjacent()
    ensures Valid(Built) && NumNodes(Built) == 5 && InvalidId(Built) == 5
    ensures Adjacent(Built, 0) == [1, 2] && Adjacent(Built, 1) == [3]
    ensures Adjacent(Built, 2) == [1] && Adjacent(Built, 3) == [2, 4]
    ensures Adjacent(Built, 4) == [2, 3]
  {
    SampleQueries();
  }

  /** The loop variables after each iteration of the documented run. */
  const B0 := SearchState(Collection(Fifo, [0]), [true, false, false, false, false],
                          [5, 5, 5, 5, 5], [0, 0, 0, 0, 0], 0)
  const B1 := SearchState(Collection(Fifo, [0, 1]), [true, true, false, false, false],
                          [5, 0, 5, 5, 5], [0, 1, 0, 0, 0], 1)
  const B2 := SearchState(Collection(Fifo, [0, 1, 2]), [true, true, true, false, false],
                          [5, 0, 0, 5, 5], [0, 1, 2, 0, 0], 2)
  const B3 := B2.(toProcess := Collection(Fifo, [1, 2]))
  const B4 := SearchState(Collection(Fifo, [1, 2, 3]), [true, true, true, true, false],
                          [5, 0, 0, 1, 5], [0, 1, 2, 3, 0], 3)
  const B5 := B4.(toProcess := Collection(Fifo, [2, 3]))
  const B6 := B4.(toProcess := Collection(Fifo, [3]))
  const B7 := SearchState(Collection(Fifo, [3, 4]), [true, true, true, true, true],
                          [5, 0, 0, 1, 3], [0, 1, 2, 3, 4], 4)
  const B8 := B7.(toProcess := Collection(Fifo, [4]))
  const B9 := B7.(toProcess := Collection(Fifo, []))

  lemma BfsStart()
    ensures Valid(Built) && Initial(Built, Fifo, 0) == B0
  {
    BuiltAdjacent();
    assert Push(WithCapacity(Fifo, 5), 0).data == [0];
  }

  /** Node 0 discovers 1. */
  lemma BfsStep0()
    ensures Valid(Built) && WellSized(Built, B0) && Step(Built, B0) == B1
  {
    BuiltAdjacent();
    assert FirstUnmarked([1, 2], B0.marks) == Some(1);
  }

  /** Node 0 discovers 2. */
  lemma BfsStep1()
    ensures Valid(Built) && WellSized(Built, B1) && Step(Built, B1) == B2
  {
    BuiltAdjacent();
    assert FirstUnmarked([1, 2], B1.marks) == Some(2);
  }

  /** Node 0 has no undiscovered neighbour left and is popped. */
  lemma BfsStep2()
    ensures Valid(Built) && WellSized(Built, B2) && Step(Built, B2) == B3
  {
    BuiltAdjacent();
    assert FirstUnmarked([1, 2], B2.marks) == None;
  }

  /** Node 1 discovers 3. */
  lemma BfsStep3()
    ensures Valid(Built) && WellSized(Built, B3) && Step(Built, B3) == B4
  {
    BuiltAdjacent();
    assert FirstUnmarked([3], B3.marks) == Some(3);
  }

  /** Node 1 is popped. */
  lemma BfsStep4()
    ensures Valid(Built) && WellSized(Built, B4) && Step(Built, B4) == B5
  {
    BuiltAdjacent();
    assert FirstUnmarked([3], B4.marks) == None;
  }

  /** Node 2 finds 1 discovered and is popped. */
  lemma BfsStep5()
    ensures Valid(Built) && WellSized(Built, B5) && Step(Built, B5) == B6
  {
    BuiltAdjacent();
    assert FirstUnmarked([1], B5.marks) == None;
  }

  /** Node 3 discovers 4. */
  lemma BfsStep6()
    ensures Valid(Built) && WellSized(Built, B6) && Step(Built, B6) == B7
  {
    BuiltAdjacent();
    assert FirstUnmarked([2, 4], B6.marks) == Some(4);
  }

  /** Node 3 is popped. */
  lemma BfsStep7()
    ensures Valid(Built) && WellSized(Built, B7) && Step(Built, B7) == B8
  {
    BuiltAdjacent();
    assert FirstUnmarked([2, 4], B7.marks) == None;
  }

  /** Node 4 finds 2 and 3 discovered and is popped. */
  lemma BfsStep8()
    ensures Valid(Built) && WellSized(Built, B8) && Step(Built, B8) == B9
  {
    BuiltAdjacent();
    assert FirstUnmarked([2, 3], B8.marks) == None;
  }

  /** From the fifth state on, the loop ends in the last one. */
  lemma BfsRunLate()
    ensures Valid(Built) && Run(Built, B5) == B9
  {
    BfsStep5();
    BfsStep6();
    BfsStep7();
    BfsStep8();
    assert Run(Built, B9) == B9;
    assert Run(Built, B8) == B9;
    assert Run(Built, B7) == B9;
    assert Run(Built, B6) == B9;
  }

  /** From the first state, the loop ends in the last one. */
  lemma BfsRun()
    ensures Valid(Built) && Run(Built, B0) == B9
  {
    BfsRunLate();
    BfsStep0();
    BfsStep1();
    BfsStep2();
    BfsStep3();
    BfsStep4();
    assert Run(Built, B4) == B9;
    assert Run(Built, B3) == B9;
    assert Run(Built, B2) == B9;
    assert Run(Built, B1) == B9;
  }

  /** Breadth-first search from node 0 of the sample network yields the
      predecessors `[5, 0, 0, 1, 3]` and the order `[0, 1, 2, 3, 4]`. */
  lemma BfsExample()
    ensures Valid(StarOf(5, SampleArcs))
    ensures Run(StarOf(5, SampleArcs), Initial(StarOf(5, SampleArcs), Fifo, 0)).pred == [5, 0, 0, 1, 3]
    ensures Run(StarOf(5, SampleArcs), Initial(StarOf(5, SampleArcs), Fifo, 0)).order == [0, 1, 2, 3, 4]
  {
    BuildSample();
    BfsStart();
    BfsRun();
  }
}
