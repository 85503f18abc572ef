/** Delayed messages and the priority queue that `MessageQueue` keeps them in. */
module MessageHeap {
  import opened Bytes

  const HALF: int := 0x8000_0000

  // ---------- time ----------

  /** The conversion of an unsigned 32-bit value to a signed one. */
  function Int32(n: uint32): int {
    if n < HALF then n else n - WRAP
  }

  function TimeDiff(later: uint32, earlier: uint32): int {
    Int32((later - earlier) % WRAP)
  }

  predicate TimeIsLater(earlier: uint32, later: uint32) {
    0 < TimeDiff(later, earlier) < HALF
  }

  /** On times that are no more than 2^31 ms apart the 32-bit comparison is the real one. */
  lemma TimeIsLaterMeans(earlier: nat, later: nat)
    requires -HALF <= later - earlier < HALF
    ensures TimeIsLater(earlier % WRAP, later % WRAP) <==> earlier < later
    ensures TimeDiff(later % WRAP, earlier % WRAP) == later - earlier
  {
    Residue(earlier, later);
  }

  lemma Residue(a: nat, b: nat)
    ensures (b % WRAP - a % WRAP) % WRAP == (b - a) % WRAP
  {
  }

  // ---------- messages ----------

  /** Handlers and data are addresses; 0 is NULL. */
  datatype Message = Message(handler: nat, id: uint32, data: nat, tsSensitive: uint32)

  const MQID_ANY: uint32 := 0xFFFF_FFFF
  const MQID_DISPOSE: uint32 := 0xFFFF_FFFE

  predicate Match(m: Message, handler: nat, id: uint32) {
    (handler == 0 || handler == m.handler) && (id == MQID_ANY || id == m.id)
  }

  datatype DelayedMessage = DelayedMessage(delay: int, trigger: uint32, num: uint32, msg: Message)

  /** `b < a` by DelayedMessage's `operator<`: `a` is nearer to the top than `b`. */
  predicate Before(a: DelayedMessage, b: DelayedMessage) {
    a.trigger < b.trigger || (a.trigger == b.trigger && a.num < b.num)
  }

  predicate Due(now: uint32, d: DelayedMessage) {
    !TimeIsLater(now, d.trigger)
  }

  // ---------- heaps ----------

  predicate Child(c: seq<DelayedMessage>, p: nat, k: nat)
    requires p < |c|
  {
    k < |c| ==> !Before(c[k], c[p])
  }

  /** The node at `p` is not after its children. */
  predicate Node(c: seq<DelayedMessage>, p: nat)
    requires p < |c|
  {
    Child(c, p, 2 * p + 1) && Child(c, p, 2 * p + 2)
  }

  predicate HeapFrom(c: seq<DelayedMessage>, lo: nat) {
    forall p :: lo <= p < |c| ==> Node(c, p)
  }

  predicate Heap(c: seq<DelayedMessage>) {
    HeapFrom(c, 0)
  }

  /** Nothing in a heap comes before its top. */
  lemma {:induction false} TopIsFirst(c: seq<DelayedMessage>, i: nat)
    requires Heap(c) && i < |c|
    ensures !Before(c[i], c[0])
  {
    if i > 0 {
      var p := (i - 1) / 2;
      TopIsFirst(c, p);
      assert Node(c, p);
      assert i == 2 * p + 1 || i == 2 * p + 2;
    }
  }

  function Swap(c: seq<DelayedMessage>, i: nat, j: nat): (r: seq<DelayedMessage>)
    requires i < |c| && j < |c|
    ensures |r| == |c| && multiset(r) == multiset(c)
    ensures forall k :: 0 <= k < |c| ==> r[k] == if k == i then c[j] else if k == j then c[i] else c[k]
  {
    c[i := c[j]][j := c[i]]
  }

  /** All nodes from `lo` on are in order but the one at `i`, which replaced a child of `up`. */
  predicate Sinking(c: seq<DelayedMessage>, lo: nat, i: nat, up: int) {
    && lo <= i < |c|
    && (forall p :: lo <= p < |c| && p != i ==> Node(c, p))
    && (if i == lo then up < lo
        else lo <= up < i && (i == 2 * up + 1 || i == 2 * up + 2)
             && Child(c, up, 2 * i + 1) && Child(c, up, 2 * i + 2))
  }

  lemma SinkOn(c: seq<DelayedMessage>, lo: nat, i: nat, up: int, m: nat)
    requires Sinking(c, lo, i, up) && m < |c| && (m == 2 * i + 1 || m == 2 * i + 2)
    requires Before(c[m], c[i]) && Child(c, m, 2 * i + 1) && Child(c, m, 2 * i + 2)
    ensures Sinking(Swap(c, i, m), lo, m, i)
  {
    var r := Swap(c, i, m);
    assert Node(c, m);
    forall p | lo <= p < |r| && p != m
      ensures Node(r, p)
    {
      if p != i && p != up {
        assert Node(c, p);
      } else if p == up {
        assert Node(c, up);
      }
    }
  }

  /** All nodes are in order but the parent of `i`, whose child at `i` may be before it. */
  predicate Rising(c: seq<DelayedMessage>, i: nat) {
    && i < |c|
    && (forall p :: 0 <= p < |c| && !(i == 2 * p + 1 || i == 2 * p + 2) ==> Node(c, p))
    && (i > 0 ==>
      var up := (i - 1) / 2;
      && (2 * up + 1 != i ==> Child(c, up, 2 * up + 1)) && (2 * up + 2 != i ==> Child(c, up, 2 * up + 2))
      && Child(c, up, 2 * i + 1) && Child(c, up, 2 * i + 2))
  }

  lemma RiseOn(c: seq<DelayedMessage>, i: nat)
    requires Rising(c, i) && i > 0 && Before(c[i], c[(i - 1) / 2])
    ensures Rising(Swap(c, i, (i - 1) / 2), (i - 1) / 2)
  {
    var up := (i - 1) / 2;
    var r := Swap(c, i, up);
    assert Node(c, i);
    forall p | 0 <= p < |r| && !(up == 2 * p + 1 || up == 2 * p + 2)
      ensures Node(r, p)
    {
      if p != up && p != i {
        assert Node(c, p);
      }
    }
    if up > 0 {
      assert Node(c, (up - 1) / 2);
    }
  }

  lemma Risen(c: seq<DelayedMessage>, i: nat)
    requires Rising(c, i) && (i > 0 ==> !Before(c[i], c[(i - 1) / 2]))
    ensures Heap(c)
  {
    forall p | 0 <= p < |c|
      ensures Node(c, p)
    {
      if i == 2 * p + 1 || i == 2 * p + 2 {
        assert p == (i - 1) / 2;
      }
    }
  }

  /** `std::priority_queue<DelayedMessage>` with the additions of `PriorityQueue`. */
  class PriorityQueue {
    var c: seq<DelayedMessage>

    constructor ()
      ensures c == []
    {
      c := [];
    }

    /** `push`: the new element rises from the end. */
    method Push(d: DelayedMessage)
      requires Heap(c)
      modifies this
      ensures Heap(c) && multiset(c) == multiset(old(c)) + multiset{d}
    {
      var i: nat := |c|;
      assert forall p :: 0 <= p < |c| ==> Node(c, p);
      AppendedRises(c, d);
      c := c + [d];
      while i > 0 && Before(c[i], c[(i - 1) / 2])
        invariant Rising(c, i) && multiset(c) == multiset(old(c)) + multiset{d}
        decreases i
      {
        RiseOn(c, i);
        c, i := Swap(c, i, (i - 1) / 2), (i - 1) / 2;
      }
      Risen(c, i);
    }

    /** The node at `lo` sinks to where it belongs. */
    method SiftDown(lo: nat)
      requires lo < |c| && HeapFrom(c, lo + 1)
      modifies this
      ensures HeapFrom(c, lo) && |c| == old(|c|) && multiset(c) == multiset(old(c))
    {
      hide Before;
      var i := lo;
      ghost var up := -1;
      while 2 * i + 1 < |c|
        invariant |c| == old(|c|) && Sinking(c, lo, i, up) && multiset(c) == multiset(old(c))
        decreases |c| - i
      {
        var m := BestChild(i);
        if !Before(c[m], c[i]) {
          NotBeforeBest(c, i, m);
          return;
        }
        SinkOn(c, lo, i, up, m);
        c, i, up := Swap(c, i, m), m, i;
      }
      assert Node(c, i);
    }

    method BestChild(i: nat) returns (m: nat)
      requires 2 * i + 1 < |c|
      ensures m < |c| && (m == 2 * i + 1 || m == 2 * i + 2)
      ensures Child(c, m, 2 * i + 1) && Child(c, m, 2 * i + 2)
    {
      m := 2 * i + 1;
      if m + 1 < |c| && Before(c[m + 1], c[m]) {
        m := m + 1;
      }
    }

    /** `pop`. */
    method Pop() returns (top: DelayedMessage)
      requires Heap(c) && c != []
      modifies this
      ensures top == old(c[0]) && Heap(c) && multiset(old(c)) == multiset(c) + multiset{top}
      ensures forall d :: d in c ==> !Before(d, top)
    {
      top := c[0];
      ghost var before := c;
      assert forall d :: d in c ==> !Before(d, top) by { TopBeforeAll(c); }
      var last := |c| - 1;
      LastToFront(c);
      if last == 0 {
        c := [];
      } else {
        c := [c[last]] + c[1..last];
        SiftDown(0);
      }
      assert forall d :: d in c ==> d in multiset(before);
    }

    /** `reheap`, with make_heap taken as sinking every node, the last first. */
    method Reheap()
      modifies this
      ensures Heap(c) && |c| == old(|c|) && multiset(c) == multiset(old(c))
    {
      var lo: nat := |c|;
      while lo > 0
        invariant lo <= |c| == old(|c|) && HeapFrom(c, lo) && multiset(c) == multiset(old(c))
      {
        lo := lo - 1;
        SiftDown(lo);
      }
    }
  }

  lemma TopBeforeAll(c: seq<DelayedMessage>)
    requires Heap(c) && c != []
    ensures forall d :: d in c ==> !Before(d, c[0])
  {
    forall d | d in c
      ensures !Before(d, c[0])
    {
      var i :| 0 <= i < |c| && c[i] == d;
      TopIsFirst(c, i);
    }
  }

  lemma NotBeforeBest(c: seq<DelayedMessage>, i: nat, m: nat)
    requires i < |c| && m < |c| && !Before(c[m], c[i])
    requires Child(c, m, 2 * i + 1) && Child(c, m, 2 * i + 2)
    ensures Node(c, i)
  {
  }

  lemma AppendedRises(c: seq<DelayedMessage>, d: DelayedMessage)
    requires Heap(c)
    ensures Rising(c + [d], |c|)
  {
    var r, i := c + [d], |c|;
    forall p | 0 <= p < |r| && !(i == 2 * p + 1 || i == 2 * p + 2)
      ensures Node(r, p)
    {
      if p < |c| { assert Node(c, p); }
    }
    if i > 0 { assert Node(c, (i - 1) / 2); }
  }

  lemma LastToFront(c: seq<DelayedMessage>)
    requires Heap(c) && c != []
    ensures var last := |c| - 1;
      if last == 0 then c == [c[0]]
      else var r := [c[last]] + c[1..last]; HeapFrom(r, 1) && multiset(c) == multiset(r) + multiset{c[0]}
  {
    var last := |c| - 1;
    if last > 0 {
      var r := [c[last]] + c[1..last];
      forall p | 1 <= p < |r|
        ensures Node(r, p)
      {
        assert Node(c, p);
      }
      assert c == [c[0]] + c[1..last] + [c[last]];
    }
  }
}
