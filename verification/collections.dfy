/** The two containers the graph search is generic over: a FIFO queue and a
    LIFO stack of node ids. Both push at the back; the queue pops and peeks at
    the front, the stack at the back. */
module Collections {
  import opened Types

  datatype Discipline = Fifo | Lifo

  /** A queue (`Fifo`) or a stack (`Lifo`); `data` runs from front to back. */
  datatype Collection = Collection(discipline: Discipline, data: seq<nat>)

  function New(d: Discipline): (r: Collection)
    ensures r.discipline == d && IsEmpty(r)
  {
    Collection(d, [])
  }

  /** The capacity hint does not change the contents. */
  function WithCapacity(d: Discipline, initCap: nat): (r: Collection)
    ensures r == New(d)
  {
    Collection(d, [])
  }

  /** Empty exactly when it holds nothing. */
  function IsEmpty(c: Collection): (r: bool)
    ensures r <==> Size(c) == 0
  {
    c.data == []
  }

  function Size(c: Collection): nat {
    |c.data|
  }

  /** Push at the back, whatever the discipline. */
  function Push(c: Collection, x: nat): (r: Collection)
    ensures r.discipline == c.discipline
    ensures Size(r) == Size(c) + 1 && !IsEmpty(r)
    ensures r.data[..Size(c)] == c.data && r.data[Size(c)] == x
  {
    Collection(c.discipline, c.data + [x])
  }

  /** The element `Pop` would remove: the front of a queue, the back of a
      stack, `None` when empty. */
  function Peek(c: Collection): (r: Option<nat>)
    ensures r.None? <==> IsEmpty(c)
    ensures r.Some? ==> r.value in c.data
  {
    if c.data == [] then None
    else if c.discipline == Fifo then Some(c.data[0])
    else Some(c.data[|c.data| - 1])
  }

  /** Removes and returns the element `Peek` shows; an empty collection is
      returned unchanged with `None`. */
  function Pop(c: Collection): (r: (Option<nat>, Collection))
    ensures r.0 == Peek(c)
    ensures r.1.discipline == c.discipline
    ensures r.0.None? ==> r.1 == c
    ensures r.0.Some? ==> Size(r.1) == Size(c) - 1
    ensures r.0.Some? && c.discipline == Fifo ==> c.data == [r.0.value] + r.1.data
    ensures r.0.Some? && c.discipline == Lifo ==> c.data == r.1.data + [r.0.value]
  {
    if c.data == [] then (None, c)
    else if c.discipline == Fifo then (Some(c.data[0]), Collection(Fifo, c.data[1..]))
    else (Some(c.data[|c.data| - 1]), Collection(Lifo, c.data[..|c.data| - 1]))
  }

  /** Pushes `xs` in order. */
  function PushAll(c: Collection, xs: seq<nat>): (r: Collection)
    ensures r.discipline == c.discipline
    decreases |xs|
  {
    if xs == [] then c else PushAll(Push(c, xs[0]), xs[1..])
  }

  /** Pops until empty, listing the elements in the order they come out. */
  function Drain(c: Collection): seq<nat>
    decreases |c.data|
  {
    match Pop(c)
    case (None, _) => []
    case (Some(x), rest) => [x] + Drain(rest)
  }

  function Reverse(xs: seq<nat>): (r: seq<nat>)
    ensures |r| == |xs|
  {
    if xs == [] then [] else Reverse(xs[1..]) + [xs[0]]
  }

  /** Pushing appends: the contents after `PushAll` are the old contents
      followed by `xs`. */
  lemma {:induction false} PushAllData(c: Collection, xs: seq<nat>)
    ensures PushAll(c, xs).data == c.data + xs
    decreases |xs|
  {
    if xs != [] {
      PushAllData(Push(c, xs[0]), xs[1..]);
      assert c.data + [xs[0]] + xs[1..] == c.data + xs;
    }
  }

  /** A queue hands its elements out front to back: first in, first out. */
  lemma {:induction false} DrainQueue(d: seq<nat>)
    ensures Drain(Collection(Fifo, d)) == d
    decreases |d|
  {
    if d != [] {
      DrainQueue(d[1..]);
    }
  }

  /** A stack hands its elements out back to front: last in, first out. */
  lemma {:induction false} DrainStack(d: seq<nat>)
    ensures Drain(Collection(Lifo, d)) == Reverse(d)
    decreases |d|
  {
    if d != [] {
      var init := d[..|d| - 1];
      DrainStack(init);
      ReverseSnoc(init, d[|d| - 1]);
      assert d == init + [d[|d| - 1]];
    }
  }

  lemma {:induction false} ReverseSnoc(xs: seq<nat>, x: nat)
    ensures Reverse(xs + [x]) == [x] + Reverse(xs)
    decreases |xs|
  {
    if xs != [] {
      assert (xs + [x])[1..] == xs[1..] + [x];
      ReverseSnoc(xs[1..], x);
    }
  }

  /** Popping right after a push onto a stack returns the pushed element and
      the stack as it was. */
  lemma StackPushPop(c: Collection, x: nat)
    requires c.discipline == Lifo
    ensures Pop(Push(c, x)) == (Some(x), c)
  {
    assert (c.data + [x])[..|c.data|] == c.data;
  }

  /** On a non-empty queue a push at the back and a pop at the front commute. */
  lemma QueuePushPop(c: Collection, x: nat)
    requires c.discipline == Fifo && !IsEmpty(c)
    ensures Pop(Push(c, x)) == (Pop(c).0, Push(Pop(c).1, x))
  {
    assert (c.data + [x])[1..] == c.data[1..] + [x];
  }

  /** Elements pushed onto a fresh queue come out in push order, and from a
      fresh stack in reverse push order. */
  lemma PushThenDrain(xs: seq<nat>)
    ensures Drain(PushAll(New(Fifo), xs)) == xs
    ensures Drain(PushAll(New(Lifo), xs)) == Reverse(xs)
  {
    PushAllData(New(Fifo), xs);
    PushAllData(New(Lifo), xs);
    assert [] + xs == xs;
    DrainQueue(xs);
    DrainStack(xs);
  }

  /** The queue test: push 0..4, pop gives 0, peek then shows 1, and after
      four more pops the queue is empty. */
  lemma QueueExample()
    ensures var q := PushAll(New(Fifo), [0, 1, 2, 3, 4]);
            && !IsEmpty(q)
            && Pop(q).0 == Some(0)
            && Peek(Pop(q).1) == Some(1)
            && IsEmpty(Pop(Pop(Pop(Pop(Pop(q).1).1).1).1).1)
  {
    PushAllData(New(Fifo), [0, 1, 2, 3, 4]);
  }

  /** The stack test: push 0..4, pop gives 4, peek then shows 3, and after
      four more pops the stack is empty. */
  lemma StackExample()
    ensures var s := PushAll(New(Lifo), [0, 1, 2, 3, 4]);
            && !IsEmpty(s)
            && Pop(s).0 == Some(4)
            && Peek(Pop(s).1) == Some(3)
            && IsEmpty(Pop(Pop(Pop(Pop(Pop(s).1).1).1).1).1)
  {
    PushAllData(New(Lifo), [0, 1, 2, 3, 4]);
  }
}
