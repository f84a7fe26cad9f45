/** The stable sort by source node that construction of a compact star starts
    with (`edges.sort_by` on the `from` component), and the per-source view of
    an arc list that the sort must preserve. */
module ArcSort {
  import opened Types

  predicate SortedByTail(s: seq<Arc>) {
    forall a, b :: 0 <= a < b < |s| ==> s[a].tail <= s[b].tail
  }

  /** The arcs of `s` leaving node `i`, in their order in `s`. */
  function Outgoing(s: seq<Arc>, i: nat): seq<Arc>
  {
    if s == [] then []
    else (if s[0].tail == i then [s[0]] else []) + Outgoing(s[1..], i)
  }

  lemma {:induction false} OutgoingAppend(s: seq<Arc>, t: seq<Arc>, i: nat)
    ensures Outgoing(s + t, i) == Outgoing(s, i) + Outgoing(t, i)
    decreases |s|
  {
    if s == [] {
      assert s + t == t;
    } else {
      var u := s + t;
      assert u[0] == s[0] && u[1..] == s[1..] + t;
      OutgoingAppend(s[1..], t, i);
      assert Outgoing(u, i) == (if s[0].tail == i then [s[0]] else []) + Outgoing(s[1..] + t, i);
    }
  }

  /** Inserts `x` after every arc whose tail is at most `x.tail`. */
  function Insert(x: Arc, s: seq<Arc>): (r: seq<Arc>)
    ensures multiset(r) == multiset(s) + multiset{x}
    ensures |r| == |s| + 1
  {
    if s == [] || x.tail < s[0].tail then [x] + s
    else
      assert s == [s[0]] + s[1..];
      [s[0]] + Insert(x, s[1..])
  }

  /** Stable insertion sort by tail: the last arc is inserted into the sorted
      prefix, behind the arcs with the same tail. */
  function SortByTail(s: seq<Arc>): (r: seq<Arc>)
    ensures |r| == |s|
  {
    if s == [] then [] else Insert(s[|s| - 1], SortByTail(s[..|s| - 1]))
  }

  /** Sorting a non-empty list inserts its last arc into the sorted rest. */
  lemma SortByTailLast(s: seq<Arc>)
    requires s != []
    ensures SortByTail(s) == Insert(s[|s| - 1], SortByTail(s[..|s| - 1]))
  {
  }

  /** The sort's output is ordered by tail. */
  lemma {:induction false} SortSorts(s: seq<Arc>)
    ensures SortedByTail(SortByTail(s))
    decreases |s|
  {
    if s != [] {
      SortSorts(s[..|s| - 1]);
      InsertSorted(s[|s| - 1], SortByTail(s[..|s| - 1]));
    }
  }

  /** The sort is a permutation of its input. */
  lemma {:induction false} SortPermutes(s: seq<Arc>)
    ensures multiset(SortByTail(s)) == multiset(s)
    decreases |s|
  {
    if s != [] {
      var x, init := s[|s| - 1], s[..|s| - 1];
      SortPermutes(init);
      SortByTailLast(s);
      MultisetLast(s);
    }
  }

  lemma MultisetLast(s: seq<Arc>)
    requires s != []
    ensures multiset(s) == multiset(s[..|s| - 1]) + multiset{s[|s| - 1]}
  {
    assert s == s[..|s| - 1] + [s[|s| - 1]];
  }

  lemma {:induction false} InsertSorted(x: Arc, s: seq<Arc>)
    requires SortedByTail(s)
    ensures SortedByTail(Insert(x, s))
    decreases |s|
  {
    if s == [] || x.tail < s[0].tail {
    } else {
      InsertSorted(x, s[1..]);
      var r := Insert(x, s[1..]);
      forall b | 0 <= b < |r|
        ensures s[0].tail <= r[b].tail
      {
        assert r[b] in multiset(r);
        if r[b] != x {
          assert r[b] in multiset(s[1..]);
          var k :| 0 <= k < |s[1..]| && s[1..][k] == r[b];
          assert s[k + 1] == r[b];
        }
      }
    }
  }

  /** A list with no arc leaving `i` has an empty outgoing list for `i`. */
  lemma {:induction false} OutgoingNone(s: seq<Arc>, i: nat)
    requires forall k :: 0 <= k < |s| ==> s[k].tail != i
    ensures Outgoing(s, i) == []
    decreases |s|
  {
    if s != [] {
      OutgoingNone(s[1..], i);
    }
  }

  /** A sorted list has nothing leaving `i` when its first tail is above `i`. */
  lemma OutgoingBelowFirst(s: seq<Arc>, i: nat)
    requires SortedByTail(s)
    requires s != [] && i < s[0].tail
    ensures Outgoing(s, i) == []
  {
    assert forall k :: 0 <= k < |s| ==> s[0].tail <= s[k].tail;
    OutgoingNone(s, i);
  }

  /** Inserting `x` into a sorted list appends it to the arcs leaving `x.tail`
      and leaves the arcs leaving every other node alone: this is stability. */
  lemma {:induction false} InsertOutgoing(x: Arc, s: seq<Arc>, i: nat)
    requires SortedByTail(s)
    ensures Outgoing(Insert(x, s), i) == Outgoing(s, i) + (if x.tail == i then [x] else [])
    decreases |s|
  {
    if s == [] {
      assert Insert(x, s)[1..] == [];
    } else if x.tail < s[0].tail {
      assert Insert(x, s)[1..] == s;
      if x.tail == i {
        OutgoingBelowFirst(s, i);
      }
    } else {
      assert Insert(x, s)[1..] == Insert(x, s[1..]);
      InsertOutgoing(x, s[1..], i);
    }
  }

  /** The sort is stable: for every node, the arcs leaving it keep their
      relative input order. */
  lemma {:induction false} SortStable(s: seq<Arc>, i: nat)
    ensures Outgoing(SortByTail(s), i) == Outgoing(s, i)
    decreases |s|
  {
    if s != [] {
      var x, init := s[|s| - 1], s[..|s| - 1];
      SortByTailLast(s);
      SortSorts(init);
      InsertOutgoing(x, SortByTail(init), i);
      SortStable(init, i);
      OutgoingLast(s, i);
    }
  }

  /** The arcs of a list leaving `i`: those of all but the last arc, then the
      last arc if it leaves `i`. */
  lemma OutgoingLast(s: seq<Arc>, i: nat)
    requires s != []
    ensures Outgoing(s, i) == Outgoing(s[..|s| - 1], i) + (if s[|s| - 1].tail == i then [s[|s| - 1]] else [])
  {
    var x, init := s[|s| - 1], s[..|s| - 1];
    OutgoingAppend(init, [x], i);
    assert s == init + [x];
    OutgoingSingle(x, i);
  }

  lemma OutgoingSingle(x: Arc, i: nat)
    ensures Outgoing([x], i) == if x.tail == i then [x] else []
  {
    assert [x][1..] == [];
  }

  /** A list that is already sorted is returned unchanged. */
  lemma {:induction false} SortOfSorted(s: seq<Arc>)
    requires SortedByTail(s)
    ensures SortByTail(s) == s
    decreases |s|
  {
    if s != [] {
      SortedLast(s);
      SortOfSorted(s[..|s| - 1]);
      SortByTailLast(s);
    }
  }

  /** Without its last arc a sorted list is sorted and inserting that arc
      back puts it at the end. */
  lemma SortedLast(s: seq<Arc>)
    requires SortedByTail(s) && s != []
    ensures SortedByTail(s[..|s| - 1])
    ensures Insert(s[|s| - 1], s[..|s| - 1]) == s
  {
    var x, init := s[|s| - 1], s[..|s| - 1];
    assert forall k :: 0 <= k < |init| ==> init[k].tail <= x.tail;
    InsertAtEnd(x, init);
    assert s == init + [x];
  }

  lemma {:induction false} InsertAtEnd(x: Arc, s: seq<Arc>)
    requires forall k :: 0 <= k < |s| ==> s[k].tail <= x.tail
    ensures Insert(x, s) == s + [x]
    decreases |s|
  {
    if s != [] {
      InsertAtEnd(x, s[1..]);
      assert s == [s[0]] + s[1..];
    }
  }

  /** Appending one arc adds its cost to the total. */
  lemma TotalCostSnoc(s: seq<Arc>, x: Arc)
    ensures TotalCost(s + [x]) == TotalCost(s) + x.cost
  {
    assert Costs(s + [x]) == Costs(s) + [x.cost];
    SumAppend(Costs(s), [x.cost]);
  }

  lemma TotalCostLast(s: seq<Arc>)
    requires s != []
    ensures TotalCost(s) == TotalCost(s[..|s| - 1]) + s[|s| - 1].cost
  {
    var init, x := s[..|s| - 1], s[|s| - 1];
    assert s == init + [x];
    TotalCostSnoc(init, x);
  }

  /** Prepending one arc adds its cost to the total. */
  lemma TotalCostCons(x: Arc, s: seq<Arc>)
    ensures TotalCost([x] + s) == x.cost + TotalCost(s)
  {
    assert Costs([x] + s) == [x.cost] + Costs(s);
    SumAppend([x.cost], Costs(s));
  }

  /** Sorting does not change the sum of the costs. */
  lemma {:induction false} SortTotalCost(s: seq<Arc>)
    ensures TotalCost(SortByTail(s)) == TotalCost(s)
    decreases |s|
  {
    if s != [] {
      var x, init := s[|s| - 1], s[..|s| - 1];
      SortByTailLast(s);
      assert TotalCost(SortByTail(s)) == TotalCost(SortByTail(init)) + x.cost by {
        InsertTotalCost(x, SortByTail(init));
      }
      assert TotalCost(SortByTail(init)) == TotalCost(init) by {
        SortTotalCost(init);
      }
      TotalCostLast(s);
    }
  }

  lemma {:induction false} InsertTotalCost(x: Arc, s: seq<Arc>)
    ensures TotalCost(Insert(x, s)) == TotalCost(s) + x.cost
    decreases |s|
  {
    if s == [] || x.tail < s[0].tail {
      TotalCostCons(x, s);
    } else {
      InsertTotalCost(x, s[1..]);
      TotalCostCons(s[0], Insert(x, s[1..]));
      assert s == [s[0]] + s[1..];
      TotalCostCons(s[0], s[1..]);
    }
  }

  /** The in-place `sort_by` on the caller's arc vector: afterwards it holds
      the same arcs, ordered by tail, with the arcs leaving each node in
      their input order. */
  method SortEdges(edges: seq<Arc>) returns (sorted: seq<Arc>)
    ensures sorted == SortByTail(edges)
    ensures SortedByTail(sorted) && multiset(sorted) == multiset(edges)
    ensures forall i: nat :: Outgoing(sorted, i) == Outgoing(edges, i)
  {
    sorted := SortByTail(edges);
    SortSorts(edges);
    SortPermutes(edges);
    forall i: nat
      ensures Outgoing(sorted, i) == Outgoing(edges, i)
    {
      SortStable(edges, i);
    }
  }
}
