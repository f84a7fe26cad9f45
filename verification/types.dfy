/** Shared vocabulary of the network library: optional results, arcs and sums.
    Node ids are `u32` in the library; here they are unbounded naturals, and
    the `f64` costs and capacities are non-negative integers. */
module Types {

  /** Rust's `Option`. */
  datatype Option<+T> = None | Some(value: T) {
    function GetOr(default: T): T {
      match this
      case Some(v) => v
      case None => default
    }
  }

  /** A directed arc `tail -> head` carrying a cost and a capacity; this is
      the `(from, to, cost, capacity)` tuple the library builds networks from. */
  datatype Arc = Arc(tail: nat, head: nat, cost: nat, capacity: nat)

  /** Sum of a sequence. */
  function Sum(xs: seq<nat>): nat {
    if xs == [] then 0 else xs[0] + Sum(xs[1..])
  }

  lemma {:induction false} SumAppend(xs: seq<nat>, ys: seq<nat>)
    ensures Sum(xs + ys) == Sum(xs) + Sum(ys)
    decreases |xs|
  {
    if xs == [] {
      assert xs + ys == ys;
    } else {
      assert (xs + ys)[1..] == xs[1..] + ys;
      SumAppend(xs[1..], ys);
    }
  }

  /** The tails, heads, costs and capacities of an arc list, index by index. */
  function Tails(s: seq<Arc>): (r: seq<nat>)
    ensures |r| == |s| && forall k :: 0 <= k < |s| ==> r[k] == s[k].tail
  {
    seq(|s|, k requires 0 <= k < |s| => s[k].tail)
  }

  function Heads(s: seq<Arc>): (r: seq<nat>)
    ensures |r| == |s| && forall k :: 0 <= k < |s| ==> r[k] == s[k].head
  {
    seq(|s|, k requires 0 <= k < |s| => s[k].head)
  }

  function Costs(s: seq<Arc>): (r: seq<nat>)
    ensures |r| == |s| && forall k :: 0 <= k < |s| ==> r[k] == s[k].cost
  {
    seq(|s|, k requires 0 <= k < |s| => s[k].cost)
  }

  function Capacities(s: seq<Arc>): (r: seq<nat>)
    ensures |r| == |s| && forall k :: 0 <= k < |s| ==> r[k] == s[k].capacity
  {
    seq(|s|, k requires 0 <= k < |s| => s[k].capacity)
  }

  /** The sum of all arc costs. */
  function TotalCost(s: seq<Arc>): nat {
    Sum(Costs(s))
  }

  /** Number of `false` entries: the unmarked nodes of a marks array. */
  function CountUnmarked(marks: seq<bool>): nat {
    if marks == [] then 0 else (if marks[0] then 0 else 1) + CountUnmarked(marks[1..])
  }

  /** Marking an unmarked node leaves one fewer unmarked. */
  lemma {:induction false} MarkOne(marks: seq<bool>, v: nat)
    requires v < |marks| && !marks[v]
    ensures CountUnmarked(marks[v := true]) == CountUnmarked(marks) - 1
    decreases |marks|
  {
    if v > 0 {
      assert marks[v := true][1..] == marks[1..][v - 1 := true];
      MarkOne(marks[1..], v - 1);
    } else {
      assert marks[v := true][1..] == marks[1..];
    }
  }
}
