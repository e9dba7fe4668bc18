/** The heap behind `TimerManager`: `std::priority_queue` over a vector of timer
    nodes, ordered by `TimerCmp` so that the earliest deadline is at the top.

    The library is written out as a binary heap on sequences because `tick` pushes
    a re-armed node before it pops the fired one, so it depends on where a push
    leaves the top.
 */
module TimerHeap {

  /** One `TimerNode`. Pointer identity (`m_timer_map[fd] == timer`) is the serial
      number that the allocation got; `callback` is a label for the stored function. */
  datatype TimerNode = TimerNode(serial: nat, id: int, callback: nat, expire: int, repeat: bool, interval: int)

  function Parent(i: nat): (p: nat)
    requires 0 < i
    ensures p < i
  {
    (i - 1) / 2
  }

  /** Heap order over the edges of the implicit tree. */
  predicate IsHeap(h: seq<TimerNode>) {
    forall i {:trigger Parent(i)} :: 0 < i < |h| ==> h[Parent(i)].expire <= h[i].expire
  }

  function Swap(h: seq<TimerNode>, i: nat, j: nat): (r: seq<TimerNode>)
    requires i < |h| && j < |h|
    ensures |r| == |h| && multiset(r) == multiset(h)
  {
    h[i := h[j]][j := h[i]]
  }

  function SiftUp(h: seq<TimerNode>, i: nat): (r: seq<TimerNode>)
    requires i < |h|
    ensures |r| == |h| && multiset(r) == multiset(h)
    decreases i
  {
    if i == 0 || h[Parent(i)].expire <= h[i].expire then h
    else SiftUp(Swap(h, i, Parent(i)), Parent(i))
  }

  /** The smaller child of `i`, or `i` itself when no child is smaller. */
  function SmallestOf(h: seq<TimerNode>, i: nat): (c: nat)
    requires i < |h|
    ensures c < |h| && (c == i || (0 < c && Parent(c) == i && h[c].expire < h[i].expire))
    ensures forall k {:trigger Parent(k)} :: 0 < k < |h| && Parent(k) == i ==> h[c].expire <= h[k].expire
  {
    var l, r := 2 * i + 1, 2 * i + 2;
    assert forall k {:trigger Parent(k)} :: 0 < k < |h| && Parent(k) == i ==> k == l || k == r;
    var c := if l < |h| && h[l].expire < h[i].expire then l else i;
    if r < |h| && h[r].expire < h[c].expire then r else c
  }

  function SiftDown(h: seq<TimerNode>, i: nat): (r: seq<TimerNode>)
    requires i < |h|
    ensures |r| == |h| && multiset(r) == multiset(h)
    decreases |h| - i
  {
    var c := SmallestOf(h, i);
    if c == i then h else SiftDown(Swap(h, i, c), c)
  }

  /** `priority_queue::push`. */
  function Push(h: seq<TimerNode>, x: TimerNode): (r: seq<TimerNode>)
    ensures r != []
  {
    SiftUp(h + [x], |h|)
  }

  /** `priority_queue::pop`: the last leaf replaces the root and sinks. */
  function Pop(h: seq<TimerNode>): (r: seq<TimerNode>)
    requires h != []
  {
    var n := |h| - 1;
    if n == 0 then [] else SiftDown([h[n]] + h[1..n], 0)
  }

  // ---- proofs ----

  /** All edges hold except the one above `i`, and `i`'s children clear `i`'s parent. */
  ghost predicate HeapAbove(h: seq<TimerNode>, i: nat)
    requires i < |h|
  {
    && (forall k {:trigger Parent(k)} :: 0 < k < |h| && k != i ==> h[Parent(k)].expire <= h[k].expire)
    && (forall k {:trigger Parent(k)} :: 0 < k < |h| && 0 < i && Parent(k) == i ==> h[Parent(i)].expire <= h[k].expire)
  }

  lemma SiftUpIsHeap(h: seq<TimerNode>, i: nat)
    requires i < |h| && HeapAbove(h, i)
    ensures IsHeap(SiftUp(h, i))
    decreases i
  {
    if i != 0 && h[Parent(i)].expire > h[i].expire {
      SiftUpIsHeap(Swap(h, i, Parent(i)), Parent(i));
    }
  }

  lemma {:induction false} SiftUpKeepsTop(h: seq<TimerNode>, i: nat)
    requires i < |h| && (i == 0 || h[0].expire <= h[i].expire)
    ensures SiftUp(h, i)[0] == h[0]
    decreases i
  {
    if i != 0 && h[Parent(i)].expire > h[i].expire {
      SiftUpKeepsTop(Swap(h, i, Parent(i)), Parent(i));
    }
  }

  lemma SiftUpRaises(h: seq<TimerNode>, i: nat)
    requires i < |h| && forall k :: 0 <= k < i ==> h[i].expire < h[k].expire
    ensures SiftUp(h, i)[0] == h[i]
    decreases i
  {
    if i != 0 {
      SiftUpRaises(Swap(h, i, Parent(i)), Parent(i));
    }
  }

  /** All edges hold except those below `i`, and `i`'s children clear `i`'s parent. */
  ghost predicate HeapBelow(h: seq<TimerNode>, i: nat)
    requires i < |h|
  {
    && (forall k {:trigger Parent(k)} :: 0 < k < |h| && Parent(k) != i ==> h[Parent(k)].expire <= h[k].expire)
    && (forall k {:trigger Parent(k)} :: 0 < k < |h| && 0 < i && Parent(k) == i ==> h[Parent(i)].expire <= h[k].expire)
  }

  lemma SiftDownIsHeap(h: seq<TimerNode>, i: nat)
    requires i < |h| && HeapBelow(h, i)
    ensures IsHeap(SiftDown(h, i))
    decreases |h| - i
  {
    var c := SmallestOf(h, i);
    if c != i {
      SiftDownIsHeap(Swap(h, i, c), c);
    }
  }

  /** The top of a heap is a node of least deadline. */
  lemma {:induction false} TopIsEarliest(h: seq<TimerNode>, i: nat)
    requires IsHeap(h) && i < |h|
    ensures h[0].expire <= h[i].expire
    decreases i
  {
    if i != 0 {
      TopIsEarliest(h, Parent(i));
    }
  }

  lemma TopIsEarliestAll(h: seq<TimerNode>)
    requires IsHeap(h) && h != []
    ensures forall n :: n in multiset(h) ==> h[0].expire <= n.expire
  {
    forall n | n in multiset(h) ensures h[0].expire <= n.expire {
      assert n in h;
      var i :| 0 <= i < |h| && h[i] == n;
      TopIsEarliest(h, i);
    }
  }

  /** A push keeps heap order, and replaces the top exactly when the new node is
      strictly earlier than it. */
  lemma PushSpec(h: seq<TimerNode>, x: TimerNode)
    requires IsHeap(h)
    ensures IsHeap(Push(h, x)) && multiset(Push(h, x)) == multiset(h) + multiset{x}
    ensures Push(h, x)[0] == if h == [] || x.expire < h[0].expire then x else h[0]
  {
    var g := h + [x];
    assert HeapAbove(g, |h|);
    SiftUpIsHeap(g, |h|);
    if h == [] || x.expire >= h[0].expire {
      SiftUpKeepsTop(g, |h|);
    } else {
      forall k | 0 <= k < |h| ensures g[|h|].expire < g[k].expire { TopIsEarliest(h, k); }
      SiftUpRaises(g, |h|);
    }
  }

  /** A pop takes out the top and keeps heap order. */
  lemma PopSpec(h: seq<TimerNode>)
    requires IsHeap(h) && h != []
    ensures IsHeap(Pop(h)) && multiset(Pop(h)) == multiset(h) - multiset{h[0]}
  {
    var n := |h| - 1;
    if n == 0 {
      assert h == [h[0]];
    } else {
      var t := [h[n]] + h[1..n];
      assert h == [h[0]] + h[1..n] + [h[n]];
      forall k | 0 < k < |t| && Parent(k) != 0 ensures t[Parent(k)].expire <= t[k].expire {
        assert h[Parent(k)].expire <= h[k].expire;
      }
      SiftDownIsHeap(t, 0);
    }
  }

  /** What `tick` relies on when it re-arms: push then pop of a heap drops the old top,
      unless the pushed node is strictly earlier, in which case it drops that node. */
  lemma PushThenPop(h: seq<TimerNode>, x: TimerNode)
    requires IsHeap(h) && h != []
    ensures IsHeap(Pop(Push(h, x)))
    ensures multiset(Pop(Push(h, x))) ==
      if x.expire < h[0].expire then multiset(h) else multiset(h) - multiset{h[0]} + multiset{x}
  {
    hide Push, Pop, IsHeap;
    PushSpec(h, x);
    PopSpec(Push(h, x));
    assert h[0] in multiset(h);
  }
}
