/** `FixedSizeLockFreeQueue`: one producer and one consumer, interleaved step by step.

Every load, slot access and counter increment is a step of its own, taken in program order by its
thread and in any order between the threads; memory is sequentially consistent.  The counters are
32 bits wide and wrap, and so does the sum in `IsFull`, `size_t` being 32 bits wide on the only
architecture for which the class defines its atomic operations. */
module LockFreeQueue {
  import opened Bytes

  /** Where the producer is inside `PushBack(v)`. */
  datatype Producer =
    | Idle
    | Checking(v: int)                      // about to load pushed_count_ in IsFull
    | Comparing(v: int, pushed: uint32)     // about to load popped_count_ and compare
    | Writing(v: int)                       // about to write the slot
    | Publishing(v: int)                    // about to increment pushed_count_

  /** Where the consumer is inside `PopFront`, or inside `PeekFront` when `peek`. */
  datatype Consumer =
    | Resting
    | Looking(peek: bool)                   // about to load pushed_count_ in IsEmpty
    | Matching(peek: bool, pushed: uint32)  // about to load popped_count_ and compare
    | Reading(peek: bool)                   // about to read the slot
    | Advancing(value: int)                 // about to increment popped_count_

  /** A value that `PeekFront` returned, after `at` pops. */
  datatype Peek = Peek(value: int, at: nat)

  /** The queue, the two threads, and the history: the values pushed, popped and peeked at so far. */
  datatype Queue = Queue(
    pushedCount: uint32, poppedCount: uint32, data: seq<int>,
    producer: Producer, consumer: Consumer,
    pushes: seq<int>, pops: seq<int>, peeks: seq<Peek>)
  {
    function Capacity(): nat { |data| }

    function Size(): uint32 { Minus(pushedCount, poppedCount) }
  }

  datatype Step =
    | PushBack(v: int) | LoadPushed | LoadPopped | WriteSlot | IncrementPushed
    | PopFront | PeekFront | FetchPushed | FetchPopped | ReadSlot | IncrementPopped

  function Plus(a: uint32, b: uint32): uint32 { (a + b) % WRAP }

  function Minus(a: uint32, b: uint32): uint32 { (a - b) % WRAP }

  function Empty(capacity: nat): Queue {
    Queue(0, 0, seq(capacity, _ => 0), Idle, Resting, [], [], [])
  }

  /** One step of the producer; a step that is not its next one does nothing. */
  function ProducerStep(q: Queue, step: Step): Queue
    requires q.Capacity() < WRAP
  {
    match (step, q.producer)
    case (PushBack(v), Idle) =>
      if q.Capacity() == 0 then q else q.(producer := Checking(v))
    case (LoadPushed, Checking(v)) => q.(producer := Comparing(v, q.pushedCount))
    case (LoadPopped, Comparing(v, pushed)) =>
      if pushed == Plus(q.poppedCount, q.Capacity()) then q.(producer := Idle)
      else q.(producer := Writing(v))
    case (WriteSlot, Writing(v)) =>
      if q.Capacity() == 0 then q
      else q.(data := q.data[q.pushedCount % q.Capacity() := v], producer := Publishing(v))
    case (IncrementPushed, Publishing(v)) =>
      q.(pushedCount := Plus(q.pushedCount, 1), producer := Idle, pushes := q.pushes + [v])
    case _ => q
  }

  function ConsumerStep(q: Queue, step: Step): Queue
    requires q.Capacity() < WRAP
  {
    match (step, q.consumer)
    case (PopFront, Resting) =>
      if q.Capacity() == 0 then q else q.(consumer := Looking(false))
    case (PeekFront, Resting) =>
      if q.Capacity() == 0 then q else q.(consumer := Looking(true))
    case (FetchPushed, Looking(peek)) => q.(consumer := Matching(peek, q.pushedCount))
    case (FetchPopped, Matching(peek, pushed)) =>
      if pushed == q.poppedCount then q.(consumer := Resting)
      else q.(consumer := Reading(peek))
    case (ReadSlot, Reading(peek)) =>
      if q.Capacity() == 0 then q
      else
        var value := q.data[q.poppedCount % q.Capacity()];
        if peek then q.(consumer := Resting, peeks := q.peeks + [Peek(value, |q.pops|)])
        else q.(consumer := Advancing(value))
    case (IncrementPopped, Advancing(value)) =>
      q.(poppedCount := Plus(q.poppedCount, 1), consumer := Resting, pops := q.pops + [value])
    case _ => q
  }

  predicate IsProducerStep(step: Step) {
    step.PushBack? || step.LoadPushed? || step.LoadPopped? || step.WriteSlot? || step.IncrementPushed?
  }

  function Apply(q: Queue, step: Step): (q': Queue)
    requires q.Capacity() < WRAP
    ensures q'.Capacity() == q.Capacity()
    ensures q.pushes <= q'.pushes && q.pops <= q'.pops && q.peeks <= q'.peeks
  {
    if IsProducerStep(step) then ProducerStep(q, step) else ConsumerStep(q, step)
  }

  function Run(q: Queue, steps: seq<Step>): (q': Queue)
    requires q.Capacity() < WRAP
    ensures q'.Capacity() == q.Capacity()
    ensures q.pushes <= q'.pushes && q.pops <= q'.pops && q.peeks <= q'.peeks
    decreases |steps|
  {
    if steps == [] then q else Run(Apply(q, steps[0]), steps[1..])
  }

  // ---------- the invariant ----------

  /** The slot of the i-th push, counting from 0. */
  function Slot(i: nat, capacity: nat): nat
    requires capacity > 0
  {
    (i % WRAP) % capacity
  }

  /** The capacity divides 2^32, or there have been fewer than 2^32 pushes. */
  predicate WrapSafe(q: Queue) {
    q.Capacity() > 0 && (WRAP % q.Capacity() == 0 || |q.pushes| < WRAP)
  }

  ghost predicate Counted(q: Queue) {
    && 0 < q.Capacity() < WRAP
    && |q.pops| <= |q.pushes| <= |q.pops| + q.Capacity()
    && q.pushedCount == |q.pushes| % WRAP
    && q.poppedCount == |q.pops| % WRAP
  }

  /** The unread values sit in their slots, and what was popped is what was pushed. */
  ghost predicate Stored(q: Queue)
    requires Counted(q)
  {
    && q.pops == q.pushes[..|q.pops|]
    && (forall k :: 0 <= k < |q.peeks| ==>
         q.peeks[k].at <= |q.pops| && q.peeks[k].at < |q.pushes| && q.peeks[k].value == q.pushes[q.peeks[k].at])
    && forall i :: |q.pops| <= i < |q.pushes| ==> q.data[Slot(i, q.Capacity())] == q.pushes[i]
  }

  ghost predicate ProducerOk(q: Queue)
    requires Counted(q)
  {
    match q.producer
    case Comparing(_, pushed) => pushed == q.pushedCount
    case Writing(_) => |q.pushes| < |q.pops| + q.Capacity()
    case Publishing(v) => |q.pushes| < |q.pops| + q.Capacity() && q.data[Slot(|q.pushes|, q.Capacity())] == v
    case _ => true
  }

  /** A `pushed_count_` the consumer loaded a while ago is stale, but not older than its own pops. */
  ghost predicate ConsumerOk(q: Queue)
    requires Counted(q)
  {
    match q.consumer
    case Matching(_, pushed) => exists p :: |q.pops| <= p <= |q.pushes| && pushed == p % WRAP
    case Reading(_) => |q.pops| < |q.pushes|
    case Advancing(value) => |q.pops| < |q.pushes| && value == q.pushes[|q.pops|]
    case _ => true
  }

  ghost predicate Inv(q: Queue) {
    Counted(q) && Stored(q) && ProducerOk(q) && ConsumerOk(q)
  }

  // ---------- arithmetic of the counters ----------

  lemma NextCount(n: nat)
    ensures (n % WRAP + 1) % WRAP == (n + 1) % WRAP
  {
  }

  lemma NextCounts(n: nat, k: nat)
    ensures (n % WRAP + k) % WRAP == (n + k) % WRAP
  {
  }

  /** Counters less than 2^32 apart are equal only if their counts are. */
  lemma SameCount(a: nat, b: nat)
    requires a <= b < a + WRAP && a % WRAP == b % WRAP
    ensures a == b
  {
  }

  lemma ModOfMod(i: nat, capacity: nat)
    requires capacity > 0 && WRAP % capacity == 0
    ensures (i % WRAP) % capacity == i % capacity
  {
    var k, m := i / WRAP, WRAP / capacity;
    assert WRAP == m * capacity;
    assert i == k * WRAP + i % WRAP;
    assert k * WRAP == (k * m) * capacity;
    ModShift(i % WRAP, k * m, capacity);
  }

  lemma {:induction false} ModShift(x: nat, k: nat, c: nat)
    requires c > 0
    ensures (k * c + x) % c == x % c
  {
    if k > 0 {
      ModShift(x, k - 1, c);
      assert k * c + x == ((k - 1) * c + x) + c;
      ModPlus((k - 1) * c + x, c);
    }
  }

  lemma MulAtLeast(d: int, c: nat)
    requires d >= 1
    ensures d * c >= c
  {
    assert d * c == (d - 1) * c + c;
  }

  lemma MulSign(d: int, c: nat)
    ensures d >= 1 ==> d * c >= c
    ensures d <= 0 ==> d * c <= 0
  {
    if d >= 1 { MulAtLeast(d, c); }
  }

  /** Quotient and remainder are unique. */
  lemma DivModUnique(x: nat, quotient: nat, remainder: nat, c: nat)
    requires remainder < c && x == quotient * c + remainder
    ensures x / c == quotient && x % c == remainder
  {
    var k, r := x / c, x % c;
    assert x == k * c + r;
    assert (k - quotient) * c == remainder - r;
    if k > quotient {
      MulAtLeast(k - quotient, c);
    } else if k < quotient {
      assert (quotient - k) * c == r - remainder;
      MulAtLeast(quotient - k, c);
    }
  }

  lemma ModPlus(y: nat, c: nat)
    requires c > 0
    ensures (y + c) % c == y % c
  {
    var k := y / c;
    assert (k + 1) * c == k * c + c;
    DivModUnique(y + c, k + 1, y % c, c);
  }

  lemma ModDistinct(i: nat, j: nat, c: nat)
    requires i < j < i + c
    ensures i % c != j % c
  {
    var k, m := i / c, j / c;
    if i % c == j % c {
      assert i == k * c + i % c && j == m * c + j % c;
      assert (m - k) * c == j - i;
      MulSign(m - k, c);
    }
  }

  /** Values that can be in the queue together have different slots. */
  lemma SlotsDiffer(i: nat, j: nat, capacity: nat)
    requires i < j < i + capacity
    requires WRAP % capacity == 0 || j < WRAP
    ensures Slot(i, capacity) != Slot(j, capacity)
  {
    if WRAP % capacity == 0 {
      ModOfMod(i, capacity);
      ModOfMod(j, capacity);
    }
    ModDistinct(i, j, capacity);
  }

  // ---------- every step keeps the invariant ----------

  lemma LoadPoppedKeeps(q: Queue)
    requires Inv(q) && q.producer.Comparing?
    ensures Inv(ProducerStep(q, LoadPopped))
  {
    NextCounts(|q.pops|, q.Capacity());
    var q' := ProducerStep(q, LoadPopped);
    assert Stored(q') && ConsumerOk(q');
  }

  lemma WriteSlotKeeps(q: Queue)
    requires Inv(q) && WrapSafe(q) && q.producer.Writing?
    ensures Inv(ProducerStep(q, WriteSlot))
  {
    var q', n := ProducerStep(q, WriteSlot), |q.pushes|;
    forall i | |q.pops| <= i < n
      ensures q'.data[Slot(i, q.Capacity())] == q.pushes[i]
    {
      SlotsDiffer(i, n, q.Capacity());
    }
  }

  lemma IncrementPushedKeeps(q: Queue)
    requires Inv(q) && q.producer.Publishing?
    ensures Inv(ProducerStep(q, IncrementPushed))
  {
    NextCount(|q.pushes|);
    var q' := ProducerStep(q, IncrementPushed);
    assert q'.pushes[..|q.pops|] == q.pushes[..|q.pops|];
  }

  lemma ProducerKeeps(q: Queue, step: Step)
    requires Inv(q) && WrapSafe(q)
    ensures Inv(ProducerStep(q, step))
  {
    match (step, q.producer)
    case (LoadPopped, Comparing(_, _)) => LoadPoppedKeeps(q);
    case (WriteSlot, Writing(_)) => WriteSlotKeeps(q);
    case (IncrementPushed, Publishing(_)) => IncrementPushedKeeps(q);
    case _ =>
  }

  lemma ConsumerKeeps(q: Queue, step: Step)
    requires Inv(q)
    ensures Inv(ConsumerStep(q, step))
  {
    match (step, q.consumer)
    case (FetchPushed, Looking(_)) =>
      assert |q.pops| <= |q.pushes| <= |q.pushes| && q.pushedCount == |q.pushes| % WRAP;
    case (FetchPopped, Matching(_, pushed)) =>
      if |q.pops| == |q.pushes| {
        var p :| |q.pops| <= p <= |q.pushes| && pushed == p % WRAP;
      }
    case (IncrementPopped, Advancing(value)) =>
      NextCount(|q.pops|);
      assert q.pushes[..|q.pops| + 1] == q.pops + [value];
    case _ =>
  }

  lemma {:induction false} RunKeeps(q: Queue, steps: seq<Step>)
    requires Inv(q) && WrapSafe(Run(q, steps))
    ensures Inv(Run(q, steps))
    decreases |steps|
  {
    if steps != [] {
      var q' := Apply(q, steps[0]);
      assert WrapSafe(q) by { assert q.pushes <= q'.pushes <= Run(q', steps[1..]).pushes; }
      if IsProducerStep(steps[0]) { ProducerKeeps(q, steps[0]); } else { ConsumerKeeps(q, steps[0]); }
      RunKeeps(q', steps[1..]);
    }
  }

  // ---------- what users see ----------

  /** What the class promises of a reachable state: first in, first out; never more than `capacity`
  values; `Size` counts them; a slot is not written while its value is unread; and the slot at
  the front holds the oldest unread value. */
  ghost predicate Safe(q: Queue) {
    && q.pops <= q.pushes
    && q.Size() == |q.pushes| - |q.pops| <= q.Capacity()
    && (q.producer.Writing? && q.Capacity() > 0 ==>
         forall i :: |q.pops| <= i < |q.pushes| ==> q.pushedCount % q.Capacity() != Slot(i, q.Capacity()))
    && (q.consumer.Reading? && q.Capacity() > 0 ==>
         |q.pops| < |q.pushes| && q.data[q.poppedCount % q.Capacity()] == q.pushes[|q.pops|])
    && (forall k :: 0 <= k < |q.peeks| ==> q.peeks[k].at < |q.pushes| && q.peeks[k].value == q.pushes[q.peeks[k].at])
  }

  lemma EmptyIsInv(capacity: nat)
    requires 0 < capacity < WRAP
    ensures Inv(Empty(capacity))
  {
  }

  /** Under every interleaving the queue is safe, for as long as the wrap-around of the counters
  does not disturb the slots. */
  lemma Safety(capacity: nat, steps: seq<Step>)
    requires 0 < capacity < WRAP
    requires WRAP % capacity == 0 || |Run(Empty(capacity), steps).pushes| < WRAP
    ensures Safe(Run(Empty(capacity), steps))
  {
    RunKeeps(Empty(capacity), steps);
    var q := Run(Empty(capacity), steps);
    SizeCounts(|q.pushes|, |q.pops|);
    if q.producer.Writing? {
      forall i | |q.pops| <= i < |q.pushes|
        ensures q.pushedCount % q.Capacity() != Slot(i, q.Capacity())
      {
        SlotsDiffer(i, |q.pushes|, q.Capacity());
      }
    }
  }

  lemma SizeCounts(pushes: nat, pops: nat)
    requires pops <= pushes < pops + WRAP
    ensures (pushes % WRAP - pops % WRAP) % WRAP == pushes - pops
  {
  }

  // ---------- whole operations among the steps of the other thread ----------

  /** `r` comes after `q`, in which the consumer started to pop or peek; what it has done since. */
  ghost predicate Taking(q: Queue, r: Queue, peek: bool) {
    var n := |q.pops|;
    && q.pushes <= r.pushes && n <= |q.pushes|
    && match r.consumer
       case Looking(p) => p == peek && r.pops == q.pops && r.peeks == q.peeks
       case Matching(p, pushed) =>
         && p == peek && r.pops == q.pops && r.peeks == q.peeks
         && exists k :: |q.pushes| <= k <= |r.pushes| && pushed == k % WRAP
       case Reading(p) => p == peek && r.pops == q.pops && r.peeks == q.peeks
       case Advancing(_) => !peek && r.pops == q.pops && r.peeks == q.peeks
       case Resting => Taken(q, r, peek)
  }

  /** A peek returned, or a pop took, the oldest value that was not popped before; or there was none. */
  ghost predicate Taken(q: Queue, r: Queue, peek: bool) {
    var n := |q.pops|;
    || (r.pops == q.pops && r.peeks == q.peeks && n == |q.pushes|)
    || (n < |r.pushes| && if peek then r.pops == q.pops && r.peeks == q.peeks + [Peek(r.pushes[n], n)]
                          else r.pops == q.pops + [r.pushes[n]] && r.peeks == q.peeks)
  }

  lemma TakeStep(q: Queue, r: Queue, peek: bool, step: Step)
    requires Inv(r) && WrapSafe(r) && Taking(q, r, peek) && !step.PopFront? && !step.PeekFront?
    ensures Taking(q, Apply(r, step), peek)
  {
    if IsProducerStep(step) {
      hide Counted, Stored, ProducerOk, ConsumerOk;
      var r' := Apply(r, step);
      assert r.pushes <= r'.pushes;
    } else {
      match (step, r.consumer)
      case (FetchPushed, Looking(_)) =>
        assert |q.pushes| <= |r.pushes| <= |r.pushes| && r.pushedCount == |r.pushes| % WRAP;
      case (FetchPopped, Matching(_, pushed)) =>
        var k :| |q.pushes| <= k <= |r.pushes| && pushed == k % WRAP;
        if pushed == r.poppedCount {
          SameCount(|r.pops|, k);
        }
      case _ =>
    }
  }

  lemma {:induction false} TakeGoesOn(q: Queue, r: Queue, peek: bool, steps: seq<Step>)
    requires Inv(r) && WrapSafe(Run(r, steps)) && Taking(q, r, peek)
    requires forall i :: 0 <= i < |steps| ==> !steps[i].PopFront? && !steps[i].PeekFront?
    ensures Taking(q, Run(r, steps), peek)
    decreases |steps|
  {
    if steps != [] {
      hide Taking, Inv;
      var r' := Apply(r, steps[0]);
      assert WrapSafe(r) by { assert r.pushes <= r'.pushes <= Run(r', steps[1..]).pushes; }
      TakeStep(q, r, peek, steps[0]);
      if IsProducerStep(steps[0]) { ProducerKeeps(r, steps[0]); } else { ConsumerKeeps(r, steps[0]); }
      TakeGoesOn(q, r', peek, steps[1..]);
    }
  }

  /** In every interleaving: until a `PeekFront` returns it has changed nothing, and then it has returned
  the oldest unread value and taken nothing away; a `PopFront` has taken just that value.  Both succeed
  if there was a value when they started, and fail if there is still none when they return. */
  lemma TakesFront(capacity: nat, before: seq<Step>, peek: bool, during: seq<Step>)
    requires 0 < capacity < WRAP && Run(Empty(capacity), before).consumer == Resting
    requires var q := Run(Empty(capacity), before + [if peek then PeekFront else PopFront] + during);
      WRAP % capacity == 0 || |q.pushes| < WRAP
    requires forall i :: 0 <= i < |during| ==> !during[i].PopFront? && !during[i].PeekFront?
    ensures var q := Run(Empty(capacity), before);
      var r := Run(Empty(capacity), before + [if peek then PeekFront else PopFront] + during);
      var n := |q.pops|;
      && (r.consumer != Resting ==> r.pops == q.pops && r.poppedCount == q.poppedCount && r.peeks == q.peeks)
      && (r.consumer == Resting && peek ==> r.pops == q.pops && r.poppedCount == q.poppedCount)
      && (r.consumer == Resting && peek ==>
           r.peeks == q.peeks || (n < |r.pushes| && r.peeks == q.peeks + [Peek(r.pushes[n], n)]))
      && (r.consumer == Resting && !peek ==>
           r.peeks == q.peeks && (r.pops == q.pops || (n < |r.pushes| && r.pops == q.pops + [r.pushes[n]])))
      && (r.consumer == Resting && n < |q.pushes| ==> (if peek then r.peeks != q.peeks else r.pops != q.pops))
      && (n == |r.pushes| ==> r.peeks == q.peeks && r.pops == q.pops)
  {
    var q, start := Run(Empty(capacity), before), if peek then PeekFront else PopFront;
    var mid := Apply(q, start);
    TwoRuns(capacity, before, start, during);
    var r := Run(mid, during);
    EmptyIsInv(capacity);
    assert q.pushes <= mid.pushes <= r.pushes;
    RunKeeps(Empty(capacity), before);
    ConsumerKeeps(q, start);
    TakeGoesOn(q, mid, peek, during);
    RunKeeps(mid, during);
    hide Run, Apply, Stored, ProducerOk, ConsumerOk;
  }

  lemma TwoRuns(capacity: nat, before: seq<Step>, start: Step, during: seq<Step>)
    requires capacity < WRAP
    ensures Run(Empty(capacity), before + [start] + during) == Run(Apply(Run(Empty(capacity), before), start), during)
  {
    var q := Run(Empty(capacity), before);
    assert before + [start] + during == before + ([start] + during);
    RunAppend(Empty(capacity), before, [start] + during);
    assert ([start] + during)[1..] == during;
  }

  /** What was peeked at is what is popped next. */
  lemma PeekThenPop(capacity: nat, steps: seq<Step>, k: nat)
    requires 0 < capacity < WRAP && k < |Run(Empty(capacity), steps).peeks|
    requires WRAP % capacity == 0 || |Run(Empty(capacity), steps).pushes| < WRAP
    ensures var q := Run(Empty(capacity), steps);
      q.peeks[k].at < |q.pops| ==> q.pops[q.peeks[k].at] == q.peeks[k].value
  {
    EmptyIsInv(capacity);
    RunKeeps(Empty(capacity), steps);
  }

  /** `r` comes after `q`, in which the producer started to push `v`. */
  ghost predicate Pushing(q: Queue, r: Queue, v: int) {
    && q.pops <= r.pops
    && match r.producer
       case Checking(w) => w == v && r.pushes == q.pushes
       case Comparing(w, _) => w == v && r.pushes == q.pushes
       case Writing(w) => w == v && r.pushes == q.pushes
       case Publishing(w) => w == v && r.pushes == q.pushes
       case Idle => r.pushes == q.pushes + [v]
                    || (r.pushes == q.pushes && |q.pushes| == |q.pops| + q.Capacity())
  }

  lemma PushStep(q: Queue, r: Queue, v: int, step: Step)
    requires Inv(q) && Inv(r) && q.Capacity() == r.Capacity() && Pushing(q, r, v) && !step.PushBack?
    ensures Pushing(q, Apply(r, step), v)
  {
    if IsProducerStep(step) {
      if step.LoadPopped? && r.producer.Comparing? && r.pushedCount == Plus(r.poppedCount, r.Capacity()) {
        assert |r.pushes| % WRAP == (|r.pops| + r.Capacity()) % WRAP by { NextCounts(|r.pops|, r.Capacity()); }
        SameCount(|r.pushes|, |r.pops| + r.Capacity());
      }
    } else {
      hide Counted, Stored, ProducerOk, ConsumerOk;
      var r' := Apply(r, step);
      assert r.pops <= r'.pops;
    }
  }

  lemma {:induction false} PushGoesOn(q: Queue, r: Queue, v: int, steps: seq<Step>)
    requires Inv(q) && Inv(r) && q.Capacity() == r.Capacity() && WrapSafe(Run(r, steps)) && Pushing(q, r, v)
    requires forall i :: 0 <= i < |steps| ==> !steps[i].PushBack?
    ensures Pushing(q, Run(r, steps), v)
    decreases |steps|
  {
    if steps != [] {
      hide Pushing, Inv;
      var r' := Apply(r, steps[0]);
      assert WrapSafe(r) by { assert r.pushes <= r'.pushes <= Run(r', steps[1..]).pushes; }
      PushStep(q, r, v, steps[0]);
      if IsProducerStep(steps[0]) { ProducerKeeps(r, steps[0]); } else { ConsumerKeeps(r, steps[0]); }
      PushGoesOn(q, r', v, steps[1..]);
    }
  }

  /** In every interleaving: until `PushBack(v)` returns it has added nothing, and then just `v` at the
  back, or nothing.  It succeeds if there was room when it started, and fails if there is still none
  when it returns. */
  lemma PushesBack(capacity: nat, before: seq<Step>, v: int, during: seq<Step>)
    requires 0 < capacity < WRAP && Run(Empty(capacity), before).producer == Idle
    requires var q := Run(Empty(capacity), before + [PushBack(v)] + during);
      WRAP % capacity == 0 || |q.pushes| < WRAP
    requires forall i :: 0 <= i < |during| ==> !during[i].PushBack?
    ensures var q := Run(Empty(capacity), before);
      var r := Run(Empty(capacity), before + [PushBack(v)] + during);
      && (r.producer != Idle ==> r.pushes == q.pushes)
      && (r.producer == Idle ==> r.pushes == q.pushes || r.pushes == q.pushes + [v])
      && (r.producer == Idle && |q.pushes| - |q.pops| < capacity ==> r.pushes != q.pushes)
      && (|q.pushes| - |r.pops| == capacity ==> r.pushes == q.pushes)
  {
    var q := Run(Empty(capacity), before);
    var mid := Apply(q, PushBack(v));
    TwoRuns(capacity, before, PushBack(v), during);
    var r := Run(mid, during);
    EmptyIsInv(capacity);
    assert q.pushes <= mid.pushes <= r.pushes;
    RunKeeps(Empty(capacity), before);
    ProducerKeeps(q, PushBack(v));
    PushGoesOn(q, mid, v, during);
    RunKeeps(mid, during);
    hide Run, Apply, Stored, ProducerOk, ConsumerOk;
  }

  // ---------- capacities that do not divide 2^32 ----------

  function PushSteps(v: int): seq<Step> {
    [PushBack(v), LoadPushed, LoadPopped, WriteSlot, IncrementPushed]
  }

  const PopSteps: seq<Step> := [PopFront, FetchPushed, FetchPopped, ReadSlot, IncrementPopped]

  lemma {:induction false} RunAppend(q: Queue, a: seq<Step>, b: seq<Step>)
    requires q.Capacity() < WRAP
    ensures Run(q, a + b) == Run(Run(q, a), b)
    decreases |a|
  {
    if a == [] {
      assert a + b == b;
    } else {
      RunAppend(Apply(q, a[0]), a[1..], b);
      assert (a + b)[1..] == a[1..] + b;
    }
  }

  lemma RunFrom(q: Queue, steps: seq<Step>, k: nat)
    requires q.Capacity() < WRAP && k < |steps|
    ensures Run(q, steps[k..]) == Run(Apply(q, steps[k]), steps[k + 1..])
  {
    assert steps[k..][1..] == steps[k + 1..];
  }

  lemma RunFive(q: Queue, steps: seq<Step>)
    requires q.Capacity() < WRAP && |steps| == 5
    ensures Run(q, steps)
            == Apply(Apply(Apply(Apply(Apply(q, steps[0]), steps[1]), steps[2]), steps[3]), steps[4])
  {
    hide Apply;
    var q1 := Apply(q, steps[0]);
    var q2 := Apply(q1, steps[1]);
    var q3 := Apply(q2, steps[2]);
    var q4 := Apply(q3, steps[3]);
    assert steps[0..] == steps && steps[5..] == [];
    RunFrom(q, steps, 0);
    RunFrom(q1, steps, 1);
    RunFrom(q2, steps, 2);
    RunFrom(q3, steps, 3);
    RunFrom(q4, steps, 4);
  }

  ghost predicate Quiet(q: Queue) {
    0 < q.Capacity() < WRAP && q.producer == Idle && q.consumer == Resting
  }

  lemma PushStates(q: Queue, v: int)
    requires Quiet(q) && q.pushedCount != Plus(q.poppedCount, q.Capacity())
    ensures Apply(q, PushBack(v)) == q.(producer := Checking(v))
    ensures Apply(q.(producer := Checking(v)), LoadPushed) == q.(producer := Comparing(v, q.pushedCount))
    ensures Apply(q.(producer := Comparing(v, q.pushedCount)), LoadPopped) == q.(producer := Writing(v))
    ensures var written := q.data[q.pushedCount % q.Capacity() := v];
      Apply(q.(producer := Writing(v)), WriteSlot) == q.(data := written, producer := Publishing(v)) &&
      Apply(q.(data := written, producer := Publishing(v)), IncrementPushed)
      == q.(data := written, pushedCount := Plus(q.pushedCount, 1), pushes := q.pushes + [v])
  {
  }

  lemma PopStates(q: Queue)
    requires Quiet(q) && q.pushedCount != q.poppedCount
    ensures Apply(q, PopFront) == q.(consumer := Looking(false))
    ensures Apply(q.(consumer := Looking(false)), FetchPushed) == q.(consumer := Matching(false, q.pushedCount))
    ensures Apply(q.(consumer := Matching(false, q.pushedCount)), FetchPopped) == q.(consumer := Reading(false))
    ensures var front := q.data[q.poppedCount % q.Capacity()];
      Apply(q.(consumer := Reading(false)), ReadSlot) == q.(consumer := Advancing(front)) &&
      Apply(q.(consumer := Advancing(front)), IncrementPopped)
      == q.(poppedCount := Plus(q.poppedCount, 1), pops := q.pops + [front])
  {
  }

  /** A whole `PushBack` that meets no interference. */
  lemma PushRuns(q: Queue, v: int)
    requires Quiet(q) && q.pushedCount != Plus(q.poppedCount, q.Capacity())
    ensures Run(q, PushSteps(v))
            == q.(data := q.data[q.pushedCount % q.Capacity() := v], pushedCount := Plus(q.pushedCount, 1),
                  pushes := q.pushes + [v])
  {
    PushStates(q, v);
    hide Apply, Run;
    RunFive(q, PushSteps(v));
  }

  lemma PopRuns(q: Queue)
    requires Quiet(q) && q.pushedCount != q.poppedCount
    ensures Run(q, PopSteps)
            == q.(poppedCount := Plus(q.poppedCount, 1), pops := q.pops + [q.data[q.poppedCount % q.Capacity()]])
  {
    PopStates(q);
    hide Apply, Run;
    RunFive(q, PopSteps);
  }

  const PeekSteps: seq<Step> := [PeekFront, FetchPushed, FetchPopped, ReadSlot]

  lemma RunThree(q: Queue, steps: seq<Step>)
    requires q.Capacity() < WRAP && |steps| >= 3
    ensures Run(q, steps) == Run(Apply(Apply(Apply(q, steps[0]), steps[1]), steps[2]), steps[3..])
  {
    hide Apply;
    assert steps[0..] == steps;
    RunFrom(q, steps, 0);
    RunFrom(Apply(q, steps[0]), steps, 1);
    RunFrom(Apply(Apply(q, steps[0]), steps[1]), steps, 2);
  }

  lemma PeekStates(q: Queue)
    requires Quiet(q) && q.pushedCount != q.poppedCount
    ensures Apply(q, PeekFront) == q.(consumer := Looking(true))
    ensures Apply(q.(consumer := Looking(true)), FetchPushed) == q.(consumer := Matching(true, q.pushedCount))
    ensures Apply(q.(consumer := Matching(true, q.pushedCount)), FetchPopped) == q.(consumer := Reading(true))
    ensures Apply(q.(consumer := Reading(true)), ReadSlot)
            == q.(peeks := q.peeks + [Peek(q.data[q.poppedCount % q.Capacity()], |q.pops|)])
  {
  }

  lemma RunOne(q: Queue, step: Step)
    requires q.Capacity() < WRAP
    ensures Run(q, [step]) == Apply(q, step)
  {
    assert [step][1..] == [];
  }

  /** A whole `PeekFront` that meets no interference returns the value in front. */
  lemma PeekRuns(q: Queue)
    requires Quiet(q) && q.pushedCount != q.poppedCount
    ensures Run(q, PeekSteps)
            == q.(peeks := q.peeks + [Peek(q.data[q.poppedCount % q.Capacity()], |q.pops|)])
  {
    PeekStates(q);
    hide Apply, Run;
    RunThree(q, PeekSteps);
    RunOne(q.(consumer := Reading(true)), ReadSlot);
    assert PeekSteps[3..] == [ReadSlot];
  }

  /** Popping and peeking fail on an empty queue and change nothing. */
  lemma EmptyRuns(q: Queue, peek: bool)
    requires Quiet(q) && q.pushedCount == q.poppedCount
    ensures Run(q, [if peek then PeekFront else PopFront, FetchPushed, FetchPopped]) == q
  {
    var steps := [if peek then PeekFront else PopFront, FetchPushed, FetchPopped];
    RunThree(q, steps);
    assert Apply(q, steps[0]) == q.(consumer := Looking(peek));
    assert Apply(q.(consumer := Looking(peek)), FetchPushed) == q.(consumer := Matching(peek, q.pushedCount));
    assert steps[3..] == [];
  }

  /** Pushing fails on a full queue and changes nothing. */
  lemma FullRuns(q: Queue, v: int)
    requires Quiet(q) && q.pushedCount == Plus(q.poppedCount, q.Capacity())
    ensures Run(q, [PushBack(v), LoadPushed, LoadPopped]) == q
  {
    var steps := [PushBack(v), LoadPushed, LoadPopped];
    RunThree(q, steps);
    assert Apply(q, PushBack(v)) == q.(producer := Checking(v));
    assert Apply(q.(producer := Checking(v)), LoadPushed) == q.(producer := Comparing(v, q.pushedCount));
    assert steps[3..] == [];
  }

  /** Without capacity nothing ever happens. */
  lemma {:induction false} NoCapacity(steps: seq<Step>)
    ensures Run(Empty(0), steps) == Empty(0)
    decreases |steps|
  {
    if steps != [] {
      NoCapacity(steps[1..]);
    }
  }

  /** A push and then a pop move both counters on by one. */
  lemma PushPopRuns(q: Queue)
    requires Quiet(q) && q.pushedCount == q.poppedCount < WRAP - 1
    ensures var q' := Run(q, PushSteps(0) + PopSteps);
      && Quiet(q') && q'.pushedCount == q'.poppedCount == q.pushedCount + 1
      && |q'.pushes| == |q.pushes| + 1 && |q'.pops| == |q.pops| + 1
  {
    hide Apply, Run;
    FullIsFar(q.pushedCount, 0, q.Capacity());
    PushRuns(q, 0);
    PopRuns(Run(q, PushSteps(0)));
    RunAppend(q, PushSteps(0), PopSteps);
  }

  /** Alternating pushes and pops of zeros move both counters to any value below 2^32. */
  lemma {:induction false} Advance(capacity: nat, n: nat) returns (steps: seq<Step>)
    requires 0 < capacity < WRAP && n < WRAP
    ensures var q := Run(Empty(capacity), steps);
      Quiet(q) && q.pushedCount == q.poppedCount == n == |q.pushes| == |q.pops|
  {
    if n == 0 {
      steps := [];
    } else {
      hide Apply, Run;
      var before := Advance(capacity, n - 1);
      PushPopRuns(Run(Empty(capacity), before));
      steps := before + (PushSteps(0) + PopSteps);
      RunAppend(Empty(capacity), before, PushSteps(0) + PopSteps);
    }
  }

  lemma FullIsFar(n: nat, k: nat, capacity: nat)
    requires k < capacity < WRAP && n < WRAP
    ensures (n + k) % WRAP != (n + capacity) % WRAP
  {
    if (n + k) % WRAP == (n + capacity) % WRAP {
      SameCount(n + k, n + capacity);
    }
  }

  /** A push to another slot than the first leaves the first alone. */
  lemma PushElsewhere(q: Queue)
    requires Quiet(q) && q.pushedCount != Plus(q.poppedCount, q.Capacity())
    requires q.pushedCount % q.Capacity() != 0
    ensures var q' := Run(q, PushSteps(0));
      && Quiet(q') && q'.pushedCount == Plus(q.pushedCount, 1) && q'.poppedCount == q.poppedCount
      && q'.pushes == q.pushes + [0] && q'.pops == q.pops && q'.data[0] == q.data[0]
  {
    hide Apply, Run;
    PushRuns(q, 0);
  }

  /** Counters at 2^32 - r, where r = 2^32 mod capacity. */
  ghost predicate AtBrink(q: Queue, r: nat) {
    && Quiet(q) && 0 < r < q.Capacity() && (WRAP - r) % q.Capacity() == 0
    && q.pushedCount == q.poppedCount == |q.pushes| == |q.pops| == WRAP - r
  }

  /** `q'` is `q` after `k` more pushes, a one and then zeros; the one is still in slot 0. */
  ghost predicate Filled(q: Queue, q': Queue, r: nat, k: nat)
    requires AtBrink(q, r)
  {
    && Quiet(q') && q'.Capacity() == q.Capacity()
    && q'.pushedCount == (WRAP - r + k) % WRAP && q'.poppedCount == q.poppedCount && q'.pops == q.pops
    && |q'.pushes| == |q.pushes| + k && k > 0 && q'.pushes[WRAP - r] == 1 && q'.data[0] == 1
  }

  lemma FillOneMore(q: Queue, mid: Queue, r: nat, k: nat)
    requires AtBrink(q, r) && 0 < k < r && Filled(q, mid, r, k)
    ensures Filled(q, Run(mid, PushSteps(0)), r, k + 1)
  {
    hide Apply, Run;
    BrinkSlot(r, k, q.Capacity());
    var n := WRAP - r + k;
    assert mid.pushedCount == n && Plus(n, 1) == (n + 1) % WRAP;
    PushElsewhere(mid);
  }

  lemma BrinkSlot(r: nat, k: nat, capacity: nat)
    requires 0 < k < r < capacity < WRAP && (WRAP - r) % capacity == 0
    ensures (WRAP - r + k) % WRAP == WRAP - r + k
    ensures (WRAP - r + k) % capacity != 0
    ensures WRAP - r + k != Plus(WRAP - r, capacity)
  {
    ModDistinct(WRAP - r, WRAP - r + k, capacity);
    FullIsFar(WRAP - r, k, capacity);
  }

  /** While the counter has not wrapped, the values go to different slots. */
  lemma {:induction false} FillUp(q: Queue, r: nat, k: nat) returns (steps: seq<Step>)
    requires AtBrink(q, r) && 1 <= k <= r
    ensures Filled(q, Run(q, steps), r, k)
  {
    if k == 1 {
      hide Apply, Run;
      FullIsFar(WRAP - r, 0, q.Capacity());
      PushRuns(q, 1);
      steps := PushSteps(1);
    } else {
      hide Apply, Run, Filled;
      var before := FillUp(q, r, k - 1);
      FillOneMore(q, Run(q, before), r, k - 1);
      steps := before + PushSteps(0);
      RunAppend(q, before, PushSteps(0));
    }
  }

  lemma RemainderDivides(capacity: nat)
    requires capacity > 0
    ensures (WRAP - WRAP % capacity) % capacity == 0
  {
    DivModUnique(WRAP - WRAP % capacity, WRAP / capacity, 0, capacity);
  }

  /** With the counter at 0 and the front value in slot 0, a push overwrites what is popped next. */
  lemma Overwrites(q: Queue)
    requires Quiet(q) && q.pushedCount == 0 && q.poppedCount % q.Capacity() == 0
    requires q.pushedCount != Plus(q.poppedCount, q.Capacity())
    requires q.pushedCount != q.poppedCount && Plus(q.pushedCount, 1) != q.poppedCount
    ensures var q' := Run(q, PushSteps(0) + PopSteps);
      q'.pushes == q.pushes + [0] && q'.pops == q.pops + [0]
  {
    hide Apply, Run, Plus;
    PushRuns(q, 0);
    var pushed := Run(q, PushSteps(0));
    assert pushed.data[q.poppedCount % q.Capacity()] == 0;
    PopRuns(pushed);
    RunAppend(q, PushSteps(0), PopSteps);
  }

  /** If the capacity does not divide 2^32, there is a run in which the wrapped counter reuses the
  slot of an unread value, and what is popped is not what was pushed. */
  lemma WrapBreaksOrder(capacity: nat) returns (steps: seq<Step>)
    requires 0 < capacity < WRAP && WRAP % capacity != 0
    ensures var q := Run(Empty(capacity), steps); !(q.pops <= q.pushes)
  {
    hide Apply, Run;
    var r := WRAP % capacity;
    RemainderDivides(capacity);
    var ahead := Advance(capacity, WRAP - r);
    var q1 := Run(Empty(capacity), ahead);
    var fill := FillUp(q1, r, r);
    var q2 := Run(q1, fill);
    FullIsFar(WRAP - r, r, capacity);
    FullIsFar(WRAP - r, 0, capacity);
    Overwrites(q2);
    RunAppend(q1, fill, PushSteps(0) + PopSteps);
    steps := ahead + (fill + (PushSteps(0) + PopSteps));
    RunAppend(Empty(capacity), ahead, fill + (PushSteps(0) + PopSteps));
    var q := Run(Empty(capacity), steps);
    assert q.pops[WRAP - r] == 0 && q.pushes[WRAP - r] == 1;
  }

  /** The queue is first in, first out in every run, however long, exactly when its capacity
  divides 2^32. */
  lemma FifoForever(capacity: nat)
    requires 0 < capacity < WRAP
    ensures (forall steps :: Run(Empty(capacity), steps).pops <= Run(Empty(capacity), steps).pushes)
            <==> WRAP % capacity == 0
  {
    if WRAP % capacity == 0 {
      forall steps
        ensures Run(Empty(capacity), steps).pops <= Run(Empty(capacity), steps).pushes
      {
        Safety(capacity, steps);
      }
    } else {
      var steps := WrapBreaksOrder(capacity);
    }
  }

  // ---------- Size from outside ----------

  /** `Size` loads `pushed_count_` (in `q`) and then `popped_count_` (in `q'`). */
  function SizeAcross(q: Queue, q': Queue): uint32 {
    Minus(q.pushedCount, q'.poppedCount)
  }

  lemma {:induction false} ConsumerOnlyPops(q: Queue, steps: seq<Step>)
    requires q.Capacity() < WRAP && forall i :: 0 <= i < |steps| ==> !IsProducerStep(steps[i])
    ensures Run(q, steps).pushes == q.pushes && Run(q, steps).pushedCount == q.pushedCount
    decreases |steps|
  {
    if steps != [] {
      ConsumerOnlyPops(Apply(q, steps[0]), steps[1..]);
    }
  }

  lemma {:induction false} ProducerOnlyPushes(q: Queue, steps: seq<Step>)
    requires q.Capacity() < WRAP && forall i :: 0 <= i < |steps| ==> IsProducerStep(steps[i])
    ensures Run(q, steps).pops == q.pops && Run(q, steps).poppedCount == q.poppedCount
    decreases |steps|
  {
    if steps != [] {
      ProducerOnlyPushes(Apply(q, steps[0]), steps[1..]);
    }
  }

  /** Called on the producer's or the consumer's own thread, where only the other one can run in
  between, `Size` is in [0, capacity], whatever the other one does. */
  lemma SizeOnOwnThread(capacity: nat, before: seq<Step>, between: seq<Step>)
    requires 0 < capacity < WRAP
    requires WrapSafe(Run(Run(Empty(capacity), before), between))
    requires || (forall i :: 0 <= i < |between| ==> IsProducerStep(between[i]))
             || (forall i :: 0 <= i < |between| ==> !IsProducerStep(between[i]))
    ensures var q := Run(Empty(capacity), before);
      var q' := Run(q, between);
      SizeAcross(q, q') == |q.pushes| - |q'.pops| <= capacity
  {
    hide Apply, Run, Stored, ProducerOk, ConsumerOk;
    var q := Run(Empty(capacity), before);
    var q' := Run(q, between);
    EmptyIsInv(capacity);
    RunKeeps(Empty(capacity), before);
    RunKeeps(q, between);
    if forall i :: 0 <= i < |between| ==> IsProducerStep(between[i]) {
      ProducerOnlyPushes(q, between);
    } else {
      ConsumerOnlyPops(q, between);
    }
    SizeCounts(|q.pushes|, |q'.pops|);
  }

  /** On a third thread the promised range can be missed: a push and a pop between the two loads
  make the size of a queue look like 2^32 - 1. */
  lemma SizeFromOutside(capacity: nat) returns (between: seq<Step>)
    requires 0 < capacity < WRAP - 1
    ensures SizeAcross(Empty(capacity), Run(Empty(capacity), between)) > capacity
  {
    var q := Empty(capacity);
    between := PushSteps(0) + PopSteps;
    FullIsFar(0, 0, capacity);
    PushRuns(q, 0);
    PopRuns(Run(q, PushSteps(0)));
    RunAppend(q, PushSteps(0), PopSteps);
  }

  /** A third thread gets a size in range exactly when no value pushed after its first load has
  been popped by its second (unless as many as 2^32 - capacity of them have). */
  lemma SizeAnywhere(capacity: nat, before: seq<Step>, between: seq<Step>)
    requires 0 < capacity < WRAP
    requires WrapSafe(Run(Run(Empty(capacity), before), between))
    requires |Run(Run(Empty(capacity), before), between).pops|
             < |Run(Empty(capacity), before).pushes| + WRAP - capacity
    ensures var q := Run(Empty(capacity), before);
      var q' := Run(q, between);
      SizeAcross(q, q') <= capacity <==> |q'.pops| <= |q.pushes|
  {
    hide Apply, Run, Stored, ProducerOk, ConsumerOk;
    var q := Run(Empty(capacity), before);
    var q' := Run(q, between);
    EmptyIsInv(capacity);
    RunKeeps(Empty(capacity), before);
    RunKeeps(q, between);
    if |q'.pops| <= |q.pushes| {
      SizeCounts(|q.pushes|, |q'.pops|);
    } else {
      SizeWraps(|q.pushes|, |q'.pops|);
    }
  }

  lemma SizeWraps(pushes: nat, pops: nat)
    requires pushes < pops < pushes + WRAP
    ensures (pushes % WRAP - pops % WRAP) % WRAP == WRAP + pushes - pops
  {
  }
}
