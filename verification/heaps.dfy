/** The priority queue of the heap-based Dijkstra: a max-heap of
    `(key, cost)` members ordered by cost alone, used as a min-heap by storing
    every cost negated. The heap's contents are a sequence in insertion order;
    which of several equally cheap members comes out first is not part of the
    library's contract, and the model picks the earliest inserted. */
module Heaps {
  import opened Types

  /** A heap element; `cost` is the stored (negated) cost. */
  datatype HeapMember = HeapMember(key: nat, cost: int)

  datatype Ordering = Less | Equal | Greater

  /** The total order on members: by cost, ignoring the key. */
  function Cmp(a: HeapMember, b: HeapMember): (r: Ordering)
    ensures r == Less <==> a.cost < b.cost
    ensures r == Equal <==> a.cost == b.cost
    ensures r == Greater <==> a.cost > b.cost
  {
    if a.cost < b.cost then Less
    else if a.cost > b.cost then Greater
    else Equal
  }

  /** The comparison operators, each on cost alone. */
  predicate Lt(a: HeapMember, b: HeapMember) { a.cost < b.cost }
  predicate Le(a: HeapMember, b: HeapMember) { a.cost <= b.cost }
  predicate Gt(a: HeapMember, b: HeapMember) { a.cost > b.cost }
  predicate Ge(a: HeapMember, b: HeapMember) { a.cost >= b.cost }

  /** The operators agree with `Cmp`, `Cmp` is antisymmetric, and the keys
      play no part in the order. */
  lemma CmpConsistent(a: HeapMember, b: HeapMember, k: nat)
    ensures Lt(a, b) <==> Cmp(a, b) == Less
    ensures Gt(a, b) <==> Cmp(a, b) == Greater
    ensures Le(a, b) <==> Cmp(a, b) != Greater
    ensures Ge(a, b) <==> Cmp(a, b) != Less
    ensures Cmp(a, b) == Less <==> Cmp(b, a) == Greater
    ensures Cmp(a, b) == Cmp(a.(key := k), b) == Cmp(a, b.(key := k))
  {
  }

  /** The ordering tests: costs 0, 1 and -1 compare by cost only. */
  lemma OrderingExamples()
    ensures var m1, m2, m3 := HeapMember(0, 0), HeapMember(1, 1), HeapMember(2, -1);
            && Lt(m1, m2) && Gt(m2, m1) && Lt(m3, m2) && Lt(m3, m1) && m1 == m1
            && Cmp(m1, m2) == Less && Cmp(m2, m1) == Greater
            && Cmp(m1, m1) == Equal && Cmp(m3, m1) == Less
  {
  }

  datatype BinaryHeap = BinaryHeap(inner: seq<HeapMember>)

  function New(): (r: BinaryHeap)
    ensures IsEmpty(r) && Size(r) == 0
  {
    BinaryHeap([])
  }

  /** The capacity hint does not change the contents. */
  function WithCapacity(capacity: nat): (r: BinaryHeap)
    ensures r == New()
  {
    BinaryHeap([])
  }

  function Size(h: BinaryHeap): nat {
    |h.inner|
  }

  function IsEmpty(h: BinaryHeap): (r: bool)
    ensures r <==> Size(h) == 0
  {
    h.inner == []
  }

  /** Position of the first member with the greatest stored cost. */
  function TopIndex(s: seq<HeapMember>): (r: nat)
    requires s != []
    ensures r < |s|
  {
    if |s| == 1 then 0
    else
      var j := TopIndex(s[1..]) + 1;
      if s[0].cost >= s[j].cost then 0 else j
  }

  /** `TopIndex` points at a greatest stored cost, and every member before it
      is strictly smaller. */
  lemma {:induction false} TopIndexMax(s: seq<HeapMember>)
    requires s != []
    ensures forall k :: 0 <= k < |s| ==> s[k].cost <= s[TopIndex(s)].cost
    ensures forall k :: 0 <= k < TopIndex(s) ==> s[k].cost < s[TopIndex(s)].cost
    decreases |s|
  {
    if |s| > 1 {
      TopIndexMax(s[1..]);
      assert forall k :: 1 <= k < |s| ==> s[k] == s[1..][k - 1];
    }
  }

  /** The member a max-heap hands out: one with the greatest stored cost,
      that is, the smallest real cost. */
  function Top(h: BinaryHeap): (r: HeapMember)
    requires !IsEmpty(h)
    ensures r in h.inner
    ensures forall e :: e in h.inner ==> e.cost <= r.cost
  {
    TopIndexMax(h.inner);
    h.inner[TopIndex(h.inner)]
  }

  /** The key of a member with the smallest real cost, `None` when empty. */
  function FindMin(h: BinaryHeap): (r: Option<nat>)
    ensures r.None? <==> IsEmpty(h)
    ensures r.Some? ==> exists e :: e in h.inner && e.key == r.value &&
                          forall f :: f in h.inner ==> -e.cost <= -f.cost
  {
    if h.inner == [] then None else Some(Top(h).key)
  }

  /** Stores `cost` negated, so that the max-heap yields the cheapest first.
      Keys may repeat. */
  function Insert(h: BinaryHeap, key: nat, cost: nat): (r: BinaryHeap)
    ensures multiset(r.inner) == multiset(h.inner) + multiset{HeapMember(key, -(cost as int))}
    ensures Size(r) == Size(h) + 1
  {
    BinaryHeap(h.inner + [HeapMember(key, -(cost as int))])
  }

  /** Removes one member of smallest real cost; an empty heap is unchanged. */
  function DeleteMin(h: BinaryHeap): (r: BinaryHeap)
    ensures IsEmpty(h) ==> r == h
    ensures !IsEmpty(h) ==> multiset(r.inner) + multiset{Top(h)} == multiset(h.inner)
    ensures !IsEmpty(h) ==> Size(r) == Size(h) - 1
  {
    if h.inner == [] then h
    else
      var i := TopIndex(h.inner);
      assert h.inner == h.inner[..i] + [h.inner[i]] + h.inner[i + 1..];
      BinaryHeap(h.inner[..i] + h.inner[i + 1..])
  }

  /** A member of the heap after `DeleteMin` was a member before. */
  lemma DeleteMinSub(h: BinaryHeap, e: HeapMember)
    requires e in DeleteMin(h).inner
    ensures e in h.inner
  {
    if !IsEmpty(h) {
      assert e in multiset(DeleteMin(h).inner);
    }
  }

  /** `DeleteMin` removes only the top member: any other member stays. */
  lemma DeleteMinKeeps(h: BinaryHeap, e: HeapMember)
    requires !IsEmpty(h) && e in h.inner && e != Top(h)
    ensures e in DeleteMin(h).inner
  {
    assert e in multiset(h.inner);
    assert e in multiset(DeleteMin(h).inner);
  }

  /** A member of the heap after `Insert` is the inserted one or was there
      before. */
  lemma InsertMembers(h: BinaryHeap, key: nat, cost: nat, e: HeapMember)
    ensures e in Insert(h, key, cost).inner <==> e in h.inner || e == HeapMember(key, -(cost as int))
  {
    assert e in Insert(h, key, cost).inner <==> e in multiset(Insert(h, key, cost).inner);
  }

  /** The heap of the test after each of its steps. */
  const H1 := BinaryHeap([HeapMember(0, 0)])
  const H2 := BinaryHeap([HeapMember(1, -1)])
  const H3 := BinaryHeap([HeapMember(1, -1), HeapMember(2, -2), HeapMember(3, -3)])
  const H4 := BinaryHeap([HeapMember(1, -1), HeapMember(2, -2), HeapMember(3, -3),
                          HeapMember(4, -4), HeapMember(5, -5)])

  /** The heap test, first steps: key 0 at cost 0 is the minimum; after key 1
      at cost 1 is added, deleting the minimum removes key 0. */
  lemma HeapExampleStart()
    ensures Insert(New(), 0, 0) == H1 && FindMin(H1) == Some(0)
    ensures DeleteMin(Insert(H1, 1, 1)) == H2
  {
    assert Insert(H1, 1, 1).inner == [HeapMember(0, 0), HeapMember(1, -1)];
  }

  /** Keys 2 and 3 join key 1, which stays the minimum of three. */
  lemma HeapExampleGrow()
    ensures Insert(Insert(H2, 2, 2), 3, 3) == H3
    ensures FindMin(H3) == Some(1) && Size(H3) == 3
  {
  }

  /** With keys 4 and 5 the size is five and key 1 is still the minimum. */
  lemma HeapExampleEnd()
    ensures Insert(Insert(H3, 4, 4), 5, 5) == H4
    ensures Size(H4) == 5 && FindMin(H4) == Some(1)
  {
    assert TopIndex(H4.inner[3..]) == 0;
    assert TopIndex(H4.inner[2..]) == 0;
    assert TopIndex(H4.inner[1..]) == 0;
    assert TopIndex(H4.inner) == 0;
  }

  const H5 := BinaryHeap([HeapMember(1, -1), HeapMember(2, -2), HeapMember(3, -3),
                          HeapMember(4, -4), HeapMember(5, -5), HeapMember(0, 0)])

  /** Re-inserting key 0 at cost 0 keeps the members of keys 1 to 5. */
  lemma HeapExampleReinsert()
    ensures Insert(H4, 0, 0) == H5
  {
  }

  /** ... and makes key 0 the minimum again. */
  lemma HeapExampleLast()
    ensures FindMin(H5) == Some(0)
  {
    assert TopIndex(H5.inner) == 5;
  }
}
