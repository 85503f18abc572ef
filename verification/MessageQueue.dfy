/** `MessageQueue`: a list of ready messages, a heap of delayed ones and a slot for a peeked one. */
module MessageQueues {
  import opened Bytes
  import opened MessageHeap

  const MAX_MSG_LATENCY: nat := 150
  const FOREVER: int := -1

  // ---------- the history ----------

  /** A message that joined the list of ready messages: posted, or delayed and released at the time
  `now`, when `known` delayed messages had been accepted. */
  datatype Entry =
    | Posted(msg: Message)
    | Released(what: DelayedMessage, now: uint32, known: nat)

  function MessageOf(e: Entry): Message {
    match e
    case Posted(m) => m
    case Released(d, _, _) => d.msg
  }

  datatype Fate = Queued | Peeked | Delivered | Disposed | Cleared

  predicate Final(f: Fate) {
    f == Delivered || f == Disposed || f == Cleared
  }

  /** Everything that has happened: the entries in the order in which they became ready, what has
  become of each, the positions still queued and those taken off the front; and the delayed messages
  accepted and those cleared while they were waiting. */
  datatype History = History(
    line: seq<Entry>, fates: seq<Fate>, queued: seq<nat>, taken: seq<nat>,
    delayed: seq<DelayedMessage>, dropped: multiset<DelayedMessage>)

  const NoHistory := History([], [], [], [], [], multiset{})

  predicate Increasing(s: seq<nat>) {
    forall i, j :: 0 <= i < j < |s| ==> s[i] < s[j]
  }

  /** The shape of a history: entries are taken in the order in which they became ready, and all of
  them before those still queued. */
  ghost predicate InLine(h: History) {
    && |h.fates| == |h.line|
    && Increasing(h.taken) && Increasing(h.queued)
    && (forall i :: 0 <= i < |h.taken| ==> h.taken[i] < |h.line|)
    && (forall i :: 0 <= i < |h.queued| ==> h.queued[i] < |h.line|)
    && (forall i, j :: 0 <= i < |h.taken| && 0 <= j < |h.queued| ==> h.taken[i] < h.queued[j])
  }

  /** Each entry has one fate, and the positions say the same. */
  ghost predicate FatesOk(h: History, last: int)
    requires InLine(h)
  {
    && (forall i :: 0 <= i < |h.queued| ==> h.fates[h.queued[i]] == Queued)
    && Covered(h)
    && (forall p :: 0 <= p < |h.line| ==> (h.fates[p] == Peeked <==> p == last))
    && (forall p :: 0 <= p < |h.line| ==> FateFits(MessageOf(h.line[p]), h.fates[p]))
  }

  ghost predicate Covered(h: History)
    requires |h.fates| == |h.line|
  {
    && (forall p :: 0 <= p < |h.line| && h.fates[p] == Queued ==> p in h.queued)
    && (forall p :: 0 <= p < |h.line| && Handled(h.fates[p]) ==> p in h.taken)
  }

  predicate Handled(f: Fate) {
    f == Peeked || f == Delivered || f == Disposed
  }

  /** The list of ready messages and the peek slot are what the history says. */
  ghost predicate LineOk(h: History, msgq: seq<Message>, peek: Option<Message>) {
    && InLine(h)
    && FatesOk(h, if peek.Some? then Last(h.taken) else -1)
    && |msgq| == |h.queued|
    && (forall i :: 0 <= i < |msgq| ==> msgq[i] == MessageOf(h.line[h.queued[i]]))
    && (peek.Some? ==> h.taken != [] && peek.value == MessageOf(h.line[Last(h.taken)]))
  }

  /** Messages that ask to be disposed of are never handed out, and only those are disposed of. */
  predicate FateFits(m: Message, f: Fate) {
    && (f == Disposed ==> m.id == MQID_DISPOSE)
    && (f == Delivered || f == Peeked ==> m.id != MQID_DISPOSE)
  }

  function Last(s: seq<nat>): int {
    if s == [] then -1 else s[|s| - 1]
  }

  function ReleasedOf(line: seq<Entry>): seq<DelayedMessage> {
    if line == [] then []
    else
      var init, last := ReleasedOf(line[..|line| - 1]), line[|line| - 1];
      if last.Released? then init + [last.what] else init
  }

  /** Each accepted delayed message is in the heap, in the line, or cleared; numbers count the
  acceptances; none was released early. */
  ghost predicate DelayOk(h: History, c: seq<DelayedMessage>) {
    && multiset(h.delayed) == multiset(c) + multiset(ReleasedOf(h.line)) + h.dropped
    && (forall i :: 0 <= i < |h.delayed| ==> h.delayed[i].num == i % WRAP)
    && (forall i :: 0 <= i < |h.line| && h.line[i].Released? ==>
         Due(h.line[i].now, h.line[i].what) && h.line[i].known <= |h.delayed|)
    && (|h.delayed| <= WRAP ==> ReadyOrder(h.line) && WaitingOrder(h.line, c))
  }

  /** Of two delayed messages that were pending together, the one released first is not after the
  other. */
  ghost predicate ReadyOrder(line: seq<Entry>) {
    forall i, j :: 0 <= i < j < |line| && line[i].Released? && line[j].Released? && line[j].what.num < line[i].known ==>
      !Before(line[j].what, line[i].what)
  }

  ghost predicate WaitingOrder(line: seq<Entry>, c: seq<DelayedMessage>) {
    forall i, d :: 0 <= i < |line| && line[i].Released? && d in c && d.num < line[i].known ==>
      !Before(d, line[i].what)
  }

  /** `after` is a later history: nothing is rewritten, and final fates are final. */
  predicate Later(before: History, after: History) {
    && before.line <= after.line && before.taken <= after.taken && before.delayed <= after.delayed
    && |before.fates| == |before.line| && |after.fates| == |after.line|
    && forall p :: 0 <= p < |before.line| && Final(before.fates[p]) ==> after.fates[p] == before.fates[p]
  }

  // ---------- what the operations do to the history ----------

  function Appended(h: History, e: Entry): History {
    h.(line := h.line + [e], fates := h.fates + [Queued], queued := h.queued + [|h.line|])
  }

  lemma AppendKeeps(h: History, msgq: seq<Message>, peek: Option<Message>, e: Entry)
    requires LineOk(h, msgq, peek)
    ensures LineOk(Appended(h, e), msgq + [MessageOf(e)], peek) && Later(h, Appended(h, e))
  {
    hide FatesOk, Increasing, MessageOf;
    var r := Appended(h, e);
    assert Increasing(r.queued) && InLine(r) by { AppendInLine(h, e); }
    AppendFates(h, if peek.Some? then Last(h.taken) else -1, e);
  }

  lemma AppendInLine(h: History, e: Entry)
    requires InLine(h)
    ensures InLine(Appended(h, e))
  {
  }

  lemma AppendFates(h: History, last: int, e: Entry)
    requires InLine(h) && InLine(Appended(h, e)) && FatesOk(h, last) && last < |h.line|
    ensures FatesOk(Appended(h, e), last)
  {
    hide FateFits, Increasing;
    var r := Appended(h, e);
    assert r.queued[|h.queued|] == |h.line|;
    forall p | 0 <= p < |r.line| && r.fates[p] == Queued
      ensures p in r.queued
    {
      if p < |h.line| { assert p in h.queued; }
    }
    forall p | 0 <= p < |r.line|
      ensures FateFits(MessageOf(r.line[p]), r.fates[p])
    {
      if p == |h.line| { assert FateFits(MessageOf(e), Queued) by { NothingToFit(MessageOf(e), Queued); } }
    }
  }

  lemma NothingToFit(m: Message, f: Fate)
    requires f == Queued || f == Cleared
    ensures FateFits(m, f)
  {
  }

  function FateOf(m: Message): Fate {
    if m.id == MQID_DISPOSE then Disposed else Delivered
  }

  function TookFront(h: History): History {
    if h.queued == [] || h.queued[0] >= |h.line| || |h.line| != |h.fates| then h
    else
      var p := h.queued[0];
      h.(fates := h.fates[p := FateOf(MessageOf(h.line[p]))], taken := h.taken + [p], queued := h.queued[1..])
  }

  lemma TakeKeeps(h: History, msgq: seq<Message>)
    requires LineOk(h, msgq, None) && msgq != []
    ensures LineOk(TookFront(h), msgq[1..], None) && Later(h, TookFront(h))
    ensures TookFront(h).line == h.line && TookFront(h).delayed == h.delayed
    ensures MessageOf(h.line[h.queued[0]]) == msgq[0]
  {
    hide FatesOk, Increasing, MessageOf, FateOf;
    assert InLine(TookFront(h)) by { TakeInLine(h); }
    TakeFates(h);
  }

  lemma FateOfFits(m: Message)
    ensures FateFits(m, FateOf(m)) && (FateOf(m) == Delivered || FateOf(m) == Disposed)
  {
  }

  lemma TakeInLine(h: History)
    requires InLine(h) && h.queued != []
    ensures InLine(TookFront(h))
  {
    hide FateOf;
  }

  lemma TakeFates(h: History)
    requires InLine(h) && h.queued != [] && InLine(TookFront(h)) && FatesOk(h, -1)
    ensures FatesOk(TookFront(h), -1) && h.fates[h.queued[0]] == Queued
  {
    FateOfFits(MessageOf(h.line[h.queued[0]]));
    assert Covered(TookFront(h)) by { TakeCovers(h); }
    hide MessageOf, FateFits, FateOf, Covered;
  }

  lemma TakeCovers(h: History)
    requires InLine(h) && h.queued != [] && Covered(h)
    ensures Covered(TookFront(h))
  {
    hide MessageOf, FateOf;
    var p, r := h.queued[0], TookFront(h);
    assert r.taken[|h.taken|] == p;
    forall k | 0 <= k < |r.line| && r.fates[k] == Queued
      ensures k in r.queued
    {
      assert FateOf(MessageOf(h.line[p])) != Queued by { FateOfFits(MessageOf(h.line[p])); }
      var i :| 0 <= i < |h.queued| && h.queued[i] == k;
      assert r.queued[i - 1] == k;
    }
    forall k | 0 <= k < |r.line| && Handled(r.fates[k])
      ensures k in r.taken
    {
      if k != p {
        var i :| 0 <= i < |h.taken| && h.taken[i] == k;
        assert r.taken[i] == k;
      }
    }
  }

  /** The queued entry `i` is cleared. */
  function Erased(h: History, i: nat): History {
    if i >= |h.queued| || h.queued[i] >= |h.fates| then h
    else h.(fates := h.fates[h.queued[i] := Cleared], queued := h.queued[..i] + h.queued[i + 1..])
  }

  lemma EraseKeeps(h: History, msgq: seq<Message>, peek: Option<Message>, i: nat)
    requires LineOk(h, msgq, peek) && i < |msgq|
    ensures LineOk(Erased(h, i), msgq[..i] + msgq[i + 1..], peek) && Later(h, Erased(h, i))
  {
    hide FatesOk, Increasing, MessageOf;
    assert InLine(Erased(h, i)) by { EraseInLine(h, i); }
    EraseFates(h, if peek.Some? then Last(h.taken) else -1, i);
  }

  lemma EraseInLine(h: History, i: nat)
    requires InLine(h) && i < |h.queued|
    ensures InLine(Erased(h, i))
  {
    var r := Erased(h, i);
    assert forall j :: 0 <= j < |r.queued| ==> r.queued[j] == h.queued[if j < i then j else j + 1];
  }

  lemma EraseFates(h: History, last: int, i: nat)
    requires InLine(h) && i < |h.queued| && InLine(Erased(h, i)) && FatesOk(h, last)
    ensures FatesOk(Erased(h, i), last) && h.fates[h.queued[i]] == Queued
  {
    NothingToFit(MessageOf(h.line[h.queued[i]]), Cleared);
    assert Covered(Erased(h, i)) by { EraseCovers(h, i); }
    hide MessageOf, FateFits, Covered;
  }

  lemma EraseCovers(h: History, i: nat)
    requires InLine(h) && i < |h.queued| && Covered(h)
    ensures Covered(Erased(h, i))
  {
    var r := Erased(h, i);
    forall k | 0 <= k < |r.line| && r.fates[k] == Queued
      ensures k in r.queued
    {
      var j :| 0 <= j < |h.queued| && h.queued[j] == k;
      assert r.queued[if j < i then j else j - 1] == k;
    }
  }

  /** The entry taken last gets another fate. */
  function Retook(h: History, fate: Fate): History {
    if h.taken == [] || Last(h.taken) >= |h.fates| then h
    else h.(fates := h.fates[Last(h.taken) := fate])
  }

  lemma PeekKeeps(h: History, msgq: seq<Message>)
    requires LineOk(h, msgq, None) && h.taken != [] && h.fates[Last(h.taken)] == Delivered
    ensures LineOk(Retook(h, Peeked), msgq, Some(MessageOf(h.line[Last(h.taken)])))
  {
    assert h.taken[|h.taken| - 1] == Last(h.taken);
  }

  lemma UnpeekKeeps(h: History, msgq: seq<Message>, peek: Option<Message>, fate: Fate)
    requires LineOk(h, msgq, peek) && peek.Some? && (fate == Delivered || fate == Cleared)
    ensures LineOk(Retook(h, fate), msgq, None) && Later(h, Retook(h, fate))
  {
    assert h.taken[|h.taken| - 1] == Last(h.taken);
  }

  lemma LaterReflexive(h: History, msgq: seq<Message>, peek: Option<Message>)
    requires LineOk(h, msgq, peek)
    ensures Later(h, h)
  {
  }

  lemma LaterTransitive(a: History, b: History, c: History)
    requires Later(a, b) && Later(b, c)
    ensures Later(a, c)
  {
  }

  lemma PostKeepsDelay(h: History, c: seq<DelayedMessage>, m: Message)
    requires DelayOk(h, c)
    ensures DelayOk(Appended(h, Posted(m)), c)
  {
    hide Before, Due, WaitingOrder, ReadyOrder, Increasing;
    var r := Appended(h, Posted(m));
    assert r.line[..|h.line|] == h.line;
    assert ReleasedOf(r.line) == ReleasedOf(h.line);
    OrdersAfterPost(h.line, m, c);
  }

  lemma OrdersAfterPost(line: seq<Entry>, m: Message, c: seq<DelayedMessage>)
    ensures ReadyOrder(line) ==> ReadyOrder(line + [Posted(m)])
    ensures WaitingOrder(line, c) ==> WaitingOrder(line + [Posted(m)], c)
  {
    hide Before;
  }

  lemma AcceptKeeps(h: History, c: seq<DelayedMessage>, c': seq<DelayedMessage>, d: DelayedMessage)
    requires DelayOk(h, c) && d.num == |h.delayed| % WRAP && multiset(c') == multiset(c) + multiset{d}
    ensures DelayOk(h.(delayed := h.delayed + [d]), c')
  {
    hide ReleasedOf, Before, Due, ReadyOrder, WaitingOrder;
    if |h.delayed| < WRAP {
      AcceptOrder(h.line, |h.delayed|, c, c', d);
    }
  }

  lemma AcceptOrder(line: seq<Entry>, n: nat, c: seq<DelayedMessage>, c': seq<DelayedMessage>, d: DelayedMessage)
    requires WaitingOrder(line, c) && multiset(c') == multiset(c) + multiset{d} && d.num == n
    requires forall i :: 0 <= i < |line| && line[i].Released? ==> line[i].known <= n
    ensures WaitingOrder(line, c')
  {
    hide Before;
    forall i, x | 0 <= i < |line| && line[i].Released? && x in c' && x.num < line[i].known
      ensures !Before(x, line[i].what)
    {
      assert x in multiset(c');
      assert x in c;
    }
  }

  lemma ReleaseKeeps(h: History, c: seq<DelayedMessage>, c': seq<DelayedMessage>, d: DelayedMessage, now: uint32)
    requires DelayOk(h, c) && multiset(c) == multiset(c') + multiset{d} && Due(now, d)
    requires forall x :: x in c' ==> !Before(x, d)
    ensures DelayOk(Appended(h, Released(d, now, |h.delayed|)), c')
  {
    hide Before, Due, WaitingOrder, ReadyOrder;
    var r := Appended(h, Released(d, now, |h.delayed|));
    assert r.line[..|h.line|] == h.line;
    assert ReleasedOf(r.line) == ReleasedOf(h.line) + [d];
    assert d in multiset(c);
    assert forall x :: x in c' ==> x in multiset(c);
    if |h.delayed| <= WRAP {
      OrdersAfterRelease(h.line, c, c', d, now, |h.delayed|);
    }
  }

  lemma OrdersAfterRelease(line: seq<Entry>, c: seq<DelayedMessage>, c': seq<DelayedMessage>, d: DelayedMessage,
                           now: uint32, known: nat)
    requires ReadyOrder(line) && WaitingOrder(line, c)
    requires d in c && forall x :: x in c' ==> x in c && !Before(x, d)
    ensures ReadyOrder(line + [Released(d, now, known)]) && WaitingOrder(line + [Released(d, now, known)], c')
  {
    hide Before;
  }

  lemma DropKeeps(h: History, c: seq<DelayedMessage>, c': seq<DelayedMessage>, gone: seq<DelayedMessage>)
    requires DelayOk(h, c) && multiset(c) == multiset(c') + multiset(gone)
    ensures DelayOk(h.(dropped := h.dropped + multiset(gone)), c')
  {
    hide ReleasedOf, Before, Due;
    assert forall x :: x in c' ==> x in multiset(c);
  }

  // ---------- what the history guarantees ----------

  /** The entries with a fate, in the order of the line. */
  function WithFate(line: seq<Entry>, fates: seq<Fate>, f: Fate): seq<Message>
    requires |fates| == |line|
  {
    if line == [] then []
    else
      var n := |line| - 1;
      WithFate(line[..n], fates[..n], f) + if fates[n] == f then [MessageOf(line[n])] else []
  }

  function Messages(line: seq<Entry>): seq<Message> {
    if line == [] then [] else Messages(line[..|line| - 1]) + [MessageOf(line[|line| - 1])]
  }

  /** The messages at the given positions. */
  function MessagesAt(line: seq<Entry>, at: seq<nat>): (r: seq<Message>)
    requires forall i :: 0 <= i < |at| ==> at[i] < |line|
    ensures |r| == |at|
  {
    seq(|at|, i requires 0 <= i < |at| => MessageOf(line[at[i]]))
  }

  /** `at` are the positions with the fate `f`, in order. */
  ghost predicate PositionsOf(fates: seq<Fate>, f: Fate, at: seq<nat>) {
    && Increasing(at)
    && (forall i :: 0 <= i < |at| ==> at[i] < |fates| && fates[at[i]] == f)
    && (forall p :: 0 <= p < |fates| && fates[p] == f ==> p in at)
  }

  lemma PositionInRange(fates: seq<Fate>, f: Fate, at: seq<nat>, i: nat)
    requires PositionsOf(fates, f, at) && i < |at|
    ensures at[i] < |fates|
  {
  }

  lemma PositionsWithoutLast(fates: seq<Fate>, f: Fate, at: seq<nat>)
    requires fates != [] && fates[|fates| - 1] == f && PositionsOf(fates, f, at)
    ensures at != [] && at[|at| - 1] == |fates| - 1
    ensures PositionsOf(fates[..|fates| - 1], f, at[..|at| - 1])
  {
    var n := |fates| - 1;
    var k := LastAt(at, n);
    hide Increasing;
    var rest, shorter := at[..k], fates[..n];
    forall i | 0 <= i < |rest|
      ensures rest[i] < n && shorter[rest[i]] == f
    {
      assert rest[i] == at[i];
    }
    forall p | 0 <= p < n && shorter[p] == f
      ensures p in rest
    {
      assert fates[p] == f && p in at;
    }
  }

  lemma PositionsElsewhere(fates: seq<Fate>, f: Fate, at: seq<nat>)
    requires fates != [] && fates[|fates| - 1] != f && PositionsOf(fates, f, at)
    ensures PositionsOf(fates[..|fates| - 1], f, at)
  {
    hide Increasing;
    var n := |fates| - 1;
    forall i | 0 <= i < |at|
      ensures at[i] < n && fates[..n][at[i]] == f
    {
      assert fates[at[i]] == f;
    }
    forall p | 0 <= p < n && fates[..n][p] == f
      ensures p in at
    {
      assert fates[p] == f;
    }
  }

  lemma {:induction false} Picks(line: seq<Entry>, fates: seq<Fate>, f: Fate, at: seq<nat>)
    requires |fates| == |line| && PositionsOf(fates, f, at)
    ensures forall i :: 0 <= i < |at| ==> at[i] < |line|
    ensures WithFate(line, fates, f) == MessagesAt(line, at)
  {
    if line != [] {
      var n := |line| - 1;
      WithFateUnfolds(line, fates, f);
      hide MessageOf, WithFate, MessagesAt, Increasing;
      if fates[n] == f {
        PositionsWithoutLast(fates, f, at);
        Picks(line[..n], fates[..n], f, at[..|at| - 1]);
        MessagesAtSnoc(line, at);
      } else {
        PositionsElsewhere(fates, f, at);
        Picks(line[..n], fates[..n], f, at);
        MessagesAtShorter(line, at);
      }
    } else if at != [] {
      PositionInRange(fates, f, at, 0);
      assert false;
    }
  }

  lemma WithFateUnfolds(line: seq<Entry>, fates: seq<Fate>, f: Fate)
    requires |fates| == |line| && line != []
    ensures var n := |line| - 1;
      WithFate(line, fates, f)
      == if fates[n] == f then WithFate(line[..n], fates[..n], f) + [MessageOf(line[n])]
         else WithFate(line[..n], fates[..n], f)
  {
  }

  lemma MessagesAtSnoc(line: seq<Entry>, at: seq<nat>)
    requires at != [] && at[|at| - 1] == |line| - 1 && forall i :: 0 <= i < |at| - 1 ==> at[i] < |line| - 1
    ensures MessagesAt(line, at)
            == MessagesAt(line[..|line| - 1], at[..|at| - 1]) + [MessageOf(line[|line| - 1])]
  {
  }

  lemma MessagesAtShorter(line: seq<Entry>, at: seq<nat>)
    requires line != [] && forall i :: 0 <= i < |at| ==> at[i] < |line| - 1
    ensures MessagesAt(line, at) == MessagesAt(line[..|line| - 1], at)
  {
  }

  lemma LastAt(at: seq<nat>, n: nat) returns (k: nat)
    requires Increasing(at) && n in at && forall i :: 0 <= i < |at| ==> at[i] <= n
    ensures k == |at| - 1 && at[k] == n && forall i :: 0 <= i < k ==> at[i] < n
    ensures Increasing(at[..k]) && forall p :: p in at && p != n ==> p in at[..k]
  {
    k := |at| - 1;
    var i :| 0 <= i < |at| && at[i] == n;
    assert i <= k && at[i] <= at[k];
    forall p | p in at && p != n
      ensures p in at[..k]
    {
      var j :| 0 <= j < |at| && at[j] == p;
      assert at[..k][j] == p;
    }
  }

  lemma WithFateStep(line: seq<Entry>, fates: seq<Fate>, f: Fate, m: Message)
    requires |fates| == |line| && line != []
    ensures var n := |line| - 1;
      multiset(WithFate(line, fates, f))[m]
      == multiset(WithFate(line[..n], fates[..n], f))[m] + if fates[n] == f && MessageOf(line[n]) == m then 1 else 0
  {
  }

  function CountWithFate(line: seq<Entry>, fates: seq<Fate>, f: Fate, m: Message): nat
    requires |fates| == |line|
  {
    multiset(WithFate(line, fates, f))[m]
  }

  lemma {:induction false} FatesPartition(line: seq<Entry>, fates: seq<Fate>, m: Message)
    requires |fates| == |line|
    ensures multiset(Messages(line))[m]
            == CountWithFate(line, fates, Queued, m) + CountWithFate(line, fates, Peeked, m)
             + CountWithFate(line, fates, Delivered, m) + CountWithFate(line, fates, Disposed, m)
             + CountWithFate(line, fates, Cleared, m)
  {
    if line != [] {
      hide MessageOf, WithFate;
      var n := |line| - 1;
      FatesPartition(line[..n], fates[..n], m);
      WithFateStep(line, fates, Queued, m);
      WithFateStep(line, fates, Peeked, m);
      WithFateStep(line, fates, Delivered, m);
      WithFateStep(line, fates, Disposed, m);
      WithFateStep(line, fates, Cleared, m);
    }
  }

  /** Every message that became ready is in exactly one place: in the list, in their order; in the
  peek slot; delivered; disposed of; or cleared. */
  lemma OnePlace(h: History, msgq: seq<Message>, peek: Option<Message>)
    requires LineOk(h, msgq, peek)
    ensures WithFate(h.line, h.fates, Queued) == msgq
    ensures multiset(Messages(h.line))
            == multiset(msgq) + (if peek.Some? then multiset{peek.value} else multiset{})
             + multiset(WithFate(h.line, h.fates, Delivered)) + multiset(WithFate(h.line, h.fates, Disposed))
             + multiset(WithFate(h.line, h.fates, Cleared))
  {
    hide WithFate, MessageOf, Messages, FateFits;
    assert WithFate(h.line, h.fates, Queued) == msgq by {
      Picks(h.line, h.fates, Queued, h.queued);
    }
    assert WithFate(h.line, h.fates, Peeked) == (if peek.Some? then [peek.value] else []) by {
      PeekedOnly(h, msgq, peek);
    }
    hide LineOk;
    forall m: Message
      ensures multiset(Messages(h.line))[m]
            == multiset(msgq)[m] + (if peek.Some? then multiset{peek.value} else multiset{})[m]
             + multiset(WithFate(h.line, h.fates, Delivered))[m] + multiset(WithFate(h.line, h.fates, Disposed))[m]
             + multiset(WithFate(h.line, h.fates, Cleared))[m]
    {
      FatesPartition(h.line, h.fates, m);
    }
  }

  lemma PeekedOnly(h: History, msgq: seq<Message>, peek: Option<Message>)
    requires LineOk(h, msgq, peek)
    ensures |h.fates| == |h.line|
    ensures WithFate(h.line, h.fates, Peeked) == if peek.Some? then [peek.value] else []
  {
    hide WithFate, FateFits, Covered;
    PeekedAt(h, msgq, peek);
    Picks(h.line, h.fates, Peeked, if peek.Some? then [Last(h.taken)] else []);
  }

  lemma PeekedAt(h: History, msgq: seq<Message>, peek: Option<Message>)
    requires LineOk(h, msgq, peek)
    ensures peek.Some? ==> 0 <= Last(h.taken) < |h.line|
    ensures forall p :: 0 <= p < |h.line| ==> (h.fates[p] == Peeked <==> peek.Some? && p == Last(h.taken))
  {
  }

  /** First in, first out: when an entry has been delivered, every entry that became ready before it
  has left the list, and, if it was not cleared, left it earlier. */
  lemma FirstInFirstOut(h: History, msgq: seq<Message>, peek: Option<Message>, p: nat, q: nat)
    requires LineOk(h, msgq, peek) && p < q < |h.line| && h.fates[q] == Delivered
    ensures h.fates[p] != Queued
    ensures h.fates[p] != Cleared ==>
      exists i, j :: 0 <= i < j < |h.taken| && h.taken[i] == p && h.taken[j] == q
  {
    var j :| 0 <= j < |h.taken| && h.taken[j] == q;
    if Handled(h.fates[p]) {
      var i :| 0 <= i < |h.taken| && h.taken[i] == p;
      assert i < j;
    }
  }

  /** Every delayed message that was accepted is in exactly one place: in the heap, in the line, or
  cleared (as long as the numbers have not wrapped). */
  lemma DelayedOnePlace(h: History, c: seq<DelayedMessage>, k: nat)
    requires DelayOk(h, c) && |h.delayed| <= WRAP && k < |h.delayed|
    ensures var d := h.delayed[k];
      multiset(c)[d] + multiset(ReleasedOf(h.line))[d] + h.dropped[d] == 1
  {
    hide ReleasedOf, Due, ReadyOrder, WaitingOrder;
    assert forall i :: 0 <= i < |h.delayed| ==> h.delayed[i].num == i;
    CountedOnce(h.delayed, k);
  }

  lemma CountedOnce(s: seq<DelayedMessage>, k: nat)
    requires k < |s| && forall i :: 0 <= i < |s| ==> s[i].num == i
    ensures multiset(s)[s[k]] == 1
  {
    var d, before, after := s[k], s[..k], s[k + 1..];
    assert forall i :: 0 <= i < |after| ==> after[i].num == k + 1 + i;
    assert d !in before && d !in after;
    assert multiset(before)[d] == 0 && multiset(after)[d] == 0;
    JoinAround(before, d, after);
    assert s == before + [d] + after;
  }

  lemma JoinAround(before: seq<DelayedMessage>, d: DelayedMessage, after: seq<DelayedMessage>)
    ensures multiset(before + [d] + after) == multiset(before) + multiset{d} + multiset(after)
  {
  }

  /** Of two delayed messages that were pending together, the one with the earlier trigger becomes
  ready first, and of two with the same trigger the one that was posted first. */
  lemma ReadyInOrder(h: History, c: seq<DelayedMessage>, i: nat, j: nat, a: nat, b: nat)
    requires DelayOk(h, c) && |h.delayed| <= WRAP
    requires i < j < |h.line| && h.line[i].Released? && h.line[j].Released?
    requires a < |h.delayed| && h.delayed[a] == h.line[i].what
    requires b < h.line[i].known && h.delayed[b] == h.line[j].what
    ensures h.delayed[a].trigger < h.delayed[b].trigger
            || (h.delayed[a].trigger == h.delayed[b].trigger && a <= b)
  {
    hide ReleasedOf, Due, WaitingOrder;
    assert h.delayed[a].num == a && h.delayed[b].num == b;
  }

  // ---------- releasing what is due ----------

  /** `due` are taken from `c`, none of them early, in order, and what stays behind is not before
  any of them. */
  ghost predicate Releasing(now: uint32, c: seq<DelayedMessage>, due: seq<DelayedMessage>, c': seq<DelayedMessage>) {
    && multiset(c) == multiset(due) + multiset(c')
    && (forall i :: 0 <= i < |due| ==> Due(now, due[i]))
    && (forall i, j :: 0 <= i < j < |due| ==> !Before(due[j], due[i]))
    && (forall i, x :: 0 <= i < |due| && x in c' ==> !Before(x, due[i]))
  }

  /** ... and the next one is not due. */
  ghost predicate ReleasedAll(now: uint32, c: seq<DelayedMessage>, due: seq<DelayedMessage>, c': seq<DelayedMessage>) {
    Releasing(now, c, due, c') && Heap(c') && (c' != [] ==> !Due(now, c'[0]))
  }

  lemma ReleaseOne(now: uint32, c: seq<DelayedMessage>, due: seq<DelayedMessage>, mid: seq<DelayedMessage>,
                   c': seq<DelayedMessage>, d: DelayedMessage)
    requires Releasing(now, c, due, mid) && Due(now, d) && multiset(mid) == multiset(c') + multiset{d}
    requires forall x :: x in c' ==> !Before(x, d)
    ensures Releasing(now, c, due + [d], c')
  {
    hide Before, Due;
    var longer := due + [d];
    assert d in multiset(mid);
    assert d in mid;
    forall x | x in c'
      ensures x in mid
    {
      assert x in multiset(c');
      assert x in multiset(mid);
    }
    forall i, j | 0 <= i < j < |longer|
      ensures !Before(longer[j], longer[i])
    {
      assert longer[i] == due[i] && (longer[j] == d || longer[j] == due[j]);
    }
  }

  /** No due message has a greater trigger time, as an unsigned number, than one that is not due:
  the wrap-around of the 32-bit clock does not come between them. */
  ghost predicate NoWrapBetween(now: uint32, c: seq<DelayedMessage>) {
    forall d, e :: d in c && e in c && Due(now, d) && !Due(now, e) ==> d.trigger < e.trigger
  }

  /** Every due message is released exactly if no wrap-around comes between the messages. */
  lemma NoneHeldBack(now: uint32, c: seq<DelayedMessage>, due: seq<DelayedMessage>, c': seq<DelayedMessage>)
    requires ReleasedAll(now, c, due, c')
    ensures (forall d :: d in c' ==> !Due(now, d)) <==> NoWrapBetween(now, c)
  {
    hide Heap, Due;
    assert forall x :: x in c' ==> x in multiset(c);
    if NoWrapBetween(now, c) {
      forall d | d in c'
        ensures !Due(now, d)
      {
        TopBeforeAll(c');
        assert c'[0] in c' && c'[0] in multiset(c) && d in multiset(c);
        assert c'[0] in c && d in c;
      }
    }
    if forall d :: d in c' ==> !Due(now, d) {
      forall d, e | d in c && e in c && Due(now, d) && !Due(now, e)
        ensures d.trigger < e.trigger
      {
        assert d in multiset(c) && e in multiset(c);
        assert d in multiset(due);
        var i :| 0 <= i < |due| && due[i] == d;
        assert e !in due;
        assert e in c' && !Before(e, due[i]);
        SameTriggerSameDue(now, d, e);
      }
    }
  }

  lemma SameTriggerSameDue(now: uint32, d: DelayedMessage, e: DelayedMessage)
    ensures d.trigger == e.trigger ==> (Due(now, d) <==> Due(now, e))
  {
  }

  /** It does hold something back: a message due just before the clock wraps waits behind one that
  is due long after. */
  lemma HeldBack(m: Message) returns (now: uint32, late: DelayedMessage, next: DelayedMessage, c: seq<DelayedMessage>)
    ensures Heap(c) && late in c && Due(now, late) && ReleasedAll(now, c, [], c)
  {
    now := WRAP - 1;
    late := DelayedMessage(0, WRAP - 2, 0, m);
    next := DelayedMessage(1000, 999, 1, m);
    c := [next, late];
    TimeIsLaterMeans(now, WRAP + 999);
    TimeIsLaterMeans(now, WRAP - 2);
  }

  /** PostDelayed at the time `posted`: the message counts as due at the time `at` exactly if `at` is
  up to 2^31 ms past the end of the delay, modulo 2^32 ms.  So it is never ready early, and it is
  ready from the end of the delay on; but one that is more than 2^31 ms overdue counts as early. */
  lemma NeverEarly(posted: nat, delay: nat, at: nat, d: DelayedMessage)
    requires d.trigger == (posted + delay) % WRAP
    ensures Due(at % WRAP, d) <==> (at - (posted + delay)) % WRAP <= HALF
    ensures delay < HALF && posted <= at < posted + delay ==> !Due(at % WRAP, d)
    ensures posted + delay <= at <= posted + delay + HALF ==> Due(at % WRAP, d)
    ensures posted + delay + HALF < at < posted + delay + WRAP ==> !Due(at % WRAP, d)
  {
    var trigger := posted + delay;
    Residue(at, trigger);
    Negated(at - trigger);
  }

  lemma Negated(x: int)
    ensures (-x) % WRAP == if x % WRAP == 0 then 0 else WRAP - x % WRAP
  {
    var k, r := x / WRAP, x % WRAP;
    assert -x == -k * WRAP - r == (-k - 1) * WRAP + (WRAP - r);
  }

  /** Messages that trigger in the same 2^32 ms as `now` do not hold each other back. */
  lemma SameEpoch(now: nat, c: seq<DelayedMessage>, times: seq<nat>)
    requires |times| == |c| && forall i :: 0 <= i < |c| ==>
      c[i].trigger == times[i] % WRAP && times[i] / WRAP == now / WRAP && -HALF <= times[i] - now < HALF
    ensures NoWrapBetween(now % WRAP, c)
  {
    forall d, e | d in c && e in c && Due(now % WRAP, d) && !Due(now % WRAP, e)
      ensures d.trigger < e.trigger
    {
      var i :| 0 <= i < |c| && c[i] == d;
      var j :| 0 <= j < |c| && c[j] == e;
      TimeIsLaterMeans(now, times[i]);
      TimeIsLaterMeans(now, times[j]);
      SameQuotient(times[i], times[j]);
    }
  }

  lemma SameQuotient(a: nat, b: nat)
    requires a / WRAP == b / WRAP && a < b
    ensures a % WRAP < b % WRAP
  {
  }

  /** `due` is what there is to release at the time `now`, in order. */
  ghost predicate DueAt(now: uint32, c: seq<DelayedMessage>, due: seq<DelayedMessage>) {
    exists c' :: ReleasedAll(now, c, due, c')
  }

  /** The entries that released messages make. */
  function Entries(due: seq<DelayedMessage>, now: uint32, known: nat): seq<Entry> {
    if due == [] then []
    else Entries(due[..|due| - 1], now, known) + [Released(due[|due| - 1], now, known)]
  }

  lemma EntriesSnoc(due: seq<DelayedMessage>, d: DelayedMessage, now: uint32, known: nat)
    ensures Entries(due + [d], now, known) == Entries(due, now, known) + [Released(d, now, known)]
  {
    assert (due + [d])[..|due|] == due;
  }

  function Max(a: int, b: int): int {
    if a > b then a else b
  }

  /** A wait of Get ends with the next trigger or with the time it was given, whichever comes first; it
  has no end (-1) exactly if there is neither. */
  ghost predicate WaitFits(cms: int, now: uint32, c: seq<DelayedMessage>, left: Option<nat>) {
    && (cms == -1 <==> c == [] && left == None)
    && (c != [] ==> 0 <= cms <= TimeDiff(c[0].trigger, now))
    && (left.Some? ==> 0 <= cms <= left.value)
    && (cms == -1 || (c != [] && cms == TimeDiff(c[0].trigger, now)) || left == Some(cms))
  }

  // ---------- the queue ----------

  /** How a call of Get ends: with a message, at the end of its time, because the queue is quitting,
  because the socket server failed to wait, or (when followed no further) still waiting. */
  datatype GetResult = Got(msg: Message) | TimedOut | Stopped | WaitFailed | StillWaiting

  // ---------- clearing ----------

  /** Which messages are to go: those of a handler, those of a handler with an id, those of everybody
  with an id, or all. */
  datatype Criterion = Handler(handler: nat) | HandlerAndId(handler: nat, id: uint32) | Id(id: uint32) | Anything

  predicate Hit(m: Message, k: Criterion) {
    match k
    case Handler(handler) => m.handler == handler
    case HandlerAndId(handler, id) => m.handler == handler && m.id == id
    case Id(id) => m.id == id
    case Anything => true
  }

  /** The arguments of Clear: NULL means all handlers, 0xFFFFFFFF all ids. */
  function Meant(handler: nat, id: uint32): Criterion {
    if handler != 0 then
      if id == 0xFFFF_FFFF then Handler(handler) else HandlerAndId(handler, id)
    else
      if id == 0xFFFF_FFFF then Anything else Id(id)
  }

  lemma MatchMeans(m: Message, handler: nat, id: uint32)
    ensures Match(m, handler, id) <==> Hit(m, Meant(handler, id))
  {
  }

  /** The messages that are hit, or that are not, in their order. */
  function Those(ms: seq<Message>, k: Criterion, hit: bool): seq<Message> {
    if ms == [] then []
    else
      var init, last := Those(ms[..|ms| - 1], k, hit), ms[|ms| - 1];
      if Hit(last, k) == hit then init + [last] else init
  }

  lemma {:induction false} ThoseMeans(ms: seq<Message>, k: Criterion, hit: bool)
    ensures forall m :: m in Those(ms, k, hit) <==> m in ms && Hit(m, k) == hit
  {
    if ms != [] {
      ThoseMeans(ms[..|ms| - 1], k, hit);
      assert ms == ms[..|ms| - 1] + [ms[|ms| - 1]];
    }
  }

  function MessagesOf(c: seq<DelayedMessage>): (r: seq<Message>)
    ensures |r| == |c| && forall i :: 0 <= i < |c| ==> r[i] == c[i].msg
  {
    if c == [] then [] else MessagesOf(c[..|c| - 1]) + [c[|c| - 1].msg]
  }

  /** The delayed messages that are hit, or that are not. */
  function Select(c: seq<DelayedMessage>, k: Criterion, hit: bool): seq<DelayedMessage> {
    if c == [] then []
    else
      var init, last := Select(c[..|c| - 1], k, hit), c[|c| - 1];
      if Hit(last.msg, k) == hit then init + [last] else init
  }

  lemma {:induction false} SelectMeans(c: seq<DelayedMessage>, k: Criterion, hit: bool)
    ensures forall d :: d in Select(c, k, hit) <==> d in c && Hit(d.msg, k) == hit
  {
    if c != [] {
      SelectMeans(c[..|c| - 1], k, hit);
      assert c == c[..|c| - 1] + [c[|c| - 1]];
    }
  }

  /** Messages that are handed over, and data that are deleted. */
  datatype Removal = Removal(removed: seq<Message>, deleted: seq<nat>)

  function Remove(ms: seq<Message>, collect: bool): (r: Removal)
    ensures if collect then r == Removal(ms, [])
            else r.removed == [] && |r.deleted| == |ms| && forall i :: 0 <= i < |ms| ==> r.deleted[i] == ms[i].data
  {
    if ms == [] then Removal([], [])
    else
      var init, last := Remove(ms[..|ms| - 1], collect), ms[|ms| - 1];
      if collect then init.(removed := init.removed + [last]) else init.(deleted := init.deleted + [last.data])
  }

  lemma ClearSnoc(ms: seq<Message>, i: nat, handler: nat, id: uint32)
    requires i < |ms|
    ensures var k := Meant(handler, id);
      && Those(ms[..i + 1], k, false)
         == (if Match(ms[i], handler, id) then Those(ms[..i], k, false) else Those(ms[..i], k, false) + [ms[i]])
      && Those(ms[..i + 1], k, true)
         == (if Match(ms[i], handler, id) then Those(ms[..i], k, true) + [ms[i]] else Those(ms[..i], k, true))
  {
    MatchMeans(ms[i], handler, id);
    hide Hit, Meant, Match;
    assert ms[..i + 1][..i] == ms[..i];
  }

  lemma SelectSnoc(c: seq<DelayedMessage>, i: nat, handler: nat, id: uint32, hit: bool)
    requires i < |c|
    ensures var k := Meant(handler, id);
      && Select(c[..i + 1], k, hit)
         == (if Match(c[i].msg, handler, id) == hit then Select(c[..i], k, hit) + [c[i]] else Select(c[..i], k, hit))
      && MessagesOf(Select(c[..i], k, hit) + [c[i]]) == MessagesOf(Select(c[..i], k, hit)) + [c[i].msg]
  {
    MatchMeans(c[i].msg, handler, id);
    hide Hit, Meant, Match, MessagesOf;
    assert c[..i + 1][..i] == c[..i];
    MessagesOfSnoc(Select(c[..i], Meant(handler, id), hit), c[i]);
  }

  lemma MessagesOfSnoc(c: seq<DelayedMessage>, d: DelayedMessage)
    ensures MessagesOf(c + [d]) == MessagesOf(c) + [d.msg]
  {
    assert (c + [d])[..|c|] == c;
  }

  lemma RemoveSnoc(ms: seq<Message>, m: Message, collect: bool)
    ensures var r := Remove(ms, collect);
      Remove(ms + [m], collect)
      == if collect then r.(removed := r.removed + [m]) else r.(deleted := r.deleted + [m.data])
  {
    assert (ms + [m])[..|ms|] == ms;
  }

  lemma {:induction false} SelectPartition(c: seq<DelayedMessage>, k: Criterion)
    ensures multiset(c) == multiset(Select(c, k, false)) + multiset(Select(c, k, true))
  {
    hide Hit;
    if c != [] {
      var n := |c| - 1;
      SelectPartition(c[..n], k);
      assert c == c[..n] + [c[n]];
    }
  }

  class MessageQueue {
    var fStop: bool
    var fPeekKeep: bool
    var msgPeek: Message
    var msgq: seq<Message>
    const dmsgq: PriorityQueue
    var nextNum: uint32
    ghost var h: History

    constructor ()
      ensures Valid() && fresh(dmsgq) && h == NoHistory && !fStop
    {
      fStop, fPeekKeep, msgPeek, msgq, nextNum := false, false, Message(0, 0, 0, 0), [], 0;
      dmsgq := new PriorityQueue();
      h := NoHistory;
    }

    ghost function PeekSlot(): Option<Message>
      reads this`fPeekKeep, this`msgPeek
    {
      if fPeekKeep then Some(msgPeek) else None
    }

    ghost predicate Valid()
      reads this`fPeekKeep, this`msgPeek, this`msgq, this`nextNum, this`h, dmsgq
    {
      && Heap(dmsgq.c)
      && LineOk(h, msgq, PeekSlot())
      && DelayOk(h, dmsgq.c)
      && nextNum == |h.delayed| % WRAP
    }

    lemma Unchanged()
      requires Valid()
      ensures Later(h, h)
    {
    }

    method Quit()
      modifies this`fStop
      ensures fStop
    {
      fStop := true;
    }

    method Restart()
      modifies this`fStop
      ensures !fStop
    {
      fStop := false;
    }

    /** `Post`, at the time `now`. */
    method Post(handler: nat, id: uint32, data: nat, timeSensitive: bool, now: uint32)
      requires Valid()
      modifies this`msgq, this`h
      ensures Valid() && Later(old(h), h)
      ensures var m := Message(handler, id, data, if timeSensitive then (now + MAX_MSG_LATENCY) % WRAP else 0);
        if fStop then msgq == old(msgq) && h == old(h)
        else msgq == old(msgq) + [m] && h == Appended(old(h), Posted(m))
    {
      hide Heap, LineOk, DelayOk;
      if fStop {
        LaterReflexive(h, msgq, PeekSlot());
        return;
      }
      var msg := Message(handler, id, data, 0);
      if timeSensitive {
        msg := msg.(tsSensitive := (now + MAX_MSG_LATENCY) % WRAP);
      }
      AppendKeeps(h, msgq, PeekSlot(), Posted(msg));
      PostKeepsDelay(h, dmsgq.c, msg);
      msgq := msgq + [msg];
      h := Appended(h, Posted(msg));
    }

    /** `DoDelayPost`. */
    method DoDelayPost(cmsDelay: int, tstamp: uint32, handler: nat, id: uint32, data: nat)
      requires Valid()
      modifies this`nextNum, this`h, dmsgq
      ensures Valid() && Later(old(h), h)
      ensures var d := DelayedMessage(cmsDelay, tstamp, old(nextNum), Message(handler, id, data, 0));
        if fStop then dmsgq.c == old(dmsgq.c) && h == old(h)
        else multiset(dmsgq.c) == multiset(old(dmsgq.c)) + multiset{d}
             && h == old(h).(delayed := old(h).delayed + [d])
    {
      hide Heap, DelayOk;
      if fStop {
        return;
      }
      var dmsg := DelayedMessage(cmsDelay, tstamp, nextNum, Message(handler, id, data, 0));
      ghost var before := dmsgq.c;
      dmsgq.Push(dmsg);
      AcceptKeeps(h, before, dmsgq.c, dmsg);
      h := h.(delayed := h.delayed + [dmsg]);
      nextNum := (nextNum + 1) % WRAP;
    }

    /** The first pass of Get over the delayed messages. */
    method ReleaseDue(now: uint32) returns (cmsDelayNext: int, ghost due: seq<DelayedMessage>)
      requires Valid()
      modifies this`msgq, this`h, dmsgq
      ensures Valid() && Later(old(h), h)
      ensures ReleasedAll(now, old(dmsgq.c), due, dmsgq.c)
      ensures h.line == old(h).line + Entries(due, now, |old(h).delayed|)
      ensures msgq == old(msgq) + Messages(Entries(due, now, |old(h).delayed|))
      ensures h.taken == old(h).taken && h.delayed == old(h).delayed && |old(h).fates| <= |h.fates|
      ensures h.fates[..|old(h).fates|] == old(h).fates
      ensures cmsDelayNext == if dmsgq.c == [] then FOREVER else TimeDiff(dmsgq.c[0].trigger, now)
    {
      hide Heap, LineOk, DelayOk, Entries, Messages, TimeDiff, TimeIsLater, Releasing;
      due := [];
      cmsDelayNext := FOREVER;
      ghost var known, start := |h.delayed|, h;
      ReleasingNothing(now, dmsgq.c);
      NoEntries(now, known);
      LaterReflexive(h, msgq, PeekSlot());
      while dmsgq.c != []
        invariant Valid() && Later(start, h) && h.delayed == start.delayed && h.taken == start.taken
        invariant Releasing(now, old(dmsgq.c), due, dmsgq.c)
        invariant h.line == start.line + Entries(due, now, known)
        invariant msgq == old(msgq) + Messages(Entries(due, now, known))
        invariant |start.fates| <= |h.fates| && h.fates[..|start.fates|] == start.fates
        invariant cmsDelayNext == FOREVER
        decreases |dmsgq.c|
      {
        if TimeIsLater(now, dmsgq.c[0].trigger) {
          cmsDelayNext := TimeDiff(dmsgq.c[0].trigger, now);
          break;
        }
        ghost var mid, before := dmsgq.c, h;
        var top := dmsgq.Pop();
        OneFewer(mid, dmsgq.c, top);
        ReleaseOne(now, old(dmsgq.c), due, mid, dmsgq.c, top);
        ReleaseKeeps(h, mid, dmsgq.c, top, now);
        AppendKeeps(h, msgq, PeekSlot(), Released(top, now, known));
        EntriesSnoc(due, top, now, known);
        MessagesSnoc(Entries(due, now, known), Released(top, now, known));
        msgq := msgq + [top.msg];
        h := Appended(h, Released(top, now, known));
        due := due + [top];
        LaterTransitive(start, before, h);
      }
    }

    method Erase(i: nat)
      requires Valid() && i < |msgq|
      modifies this`msgq, this`h
      ensures Valid() && Later(old(h), h) && msgq == old(msgq[..i] + msgq[i + 1..])
      ensures h.taken == old(h).taken && h.line == old(h).line && h.delayed == old(h).delayed
    {
      hide Heap, LineOk, DelayOk;
      EraseKeeps(h, msgq, PeekSlot(), i);
      EraseKeepsDelay(h, dmsgq.c, i);
      h := Erased(h, i);
      msgq := msgq[..i] + msgq[i + 1..];
    }

    /** Clearing the list of ready messages, where `before` has been removed already. */
    method ClearList(handler: nat, id: uint32, collect: bool, removal: Removal, ghost before: seq<Message>)
      returns (all: Removal)
      requires Valid() && removal == Remove(before, collect)
      modifies this`msgq, this`h
      ensures Valid() && Later(old(h), h)
      ensures msgq == Those(old(msgq), Meant(handler, id), false)
      ensures all == Remove(before + Those(old(msgq), Meant(handler, id), true), collect)
      ensures h.taken == old(h).taken && h.line == old(h).line && h.delayed == old(h).delayed
    {
      ghost var k := Meant(handler, id);
      hide Heap, LineOk, DelayOk, Match, Hit, Remove, Those, Meant, MessageQueue.Valid, Later;
      ghost var ms, done, start := msgq, 0, h;
      all := removal;
      var it := 0;
      Unchanged();
      ClearNothing(ms, before, k);
      while it < |msgq|
        invariant Valid() && Later(start, h) && done <= |ms|
        invariant msgq == Those(ms[..done], k, false) + ms[done..] && it == |Those(ms[..done], k, false)|
        invariant all == Remove(before + Those(ms[..done], k, true), collect)
        invariant h.taken == start.taken && h.line == start.line && h.delayed == start.delayed
        decreases |ms| - done
      {
        ClearSnoc(ms, done, handler, id);
        ghost var prior := h;
        Splice(Those(ms[..done], k, false), ms, done, msgq);
        if Match(msgq[it], handler, id) {
          RemoveSnoc(before + Those(ms[..done], k, true), msgq[it], collect);
          AppendedOne(before, Those(ms[..done], k, true), msgq[it]);
          if collect {
            all := all.(removed := all.removed + [msgq[it]]);
          } else {
            all := all.(deleted := all.deleted + [msgq[it].data]);
          }
          Erase(it);
          LaterTransitive(start, prior, h);
        } else {
          it := it + 1;
        }
        done := done + 1;
      }
      assert ms[..done] == ms;
      assert msgq == Those(ms, k, false);
    }

    /** Compaction of the container in place: the delayed messages to keep are moved to its front. */
    method Compact(handler: nat, id: uint32, collect: bool, removal: Removal, ghost before: seq<Message>)
      returns (all: Removal, newEnd: nat)
      requires removal == Remove(before, collect)
      modifies dmsgq
      ensures newEnd <= |dmsgq.c| && dmsgq.c[..newEnd] == Select(old(dmsgq.c), Meant(handler, id), false)
      ensures all == Remove(before + MessagesOf(Select(old(dmsgq.c), Meant(handler, id), true)), collect)
    {
      ghost var k := Meant(handler, id);
      hide Heap, LineOk, DelayOk, Match, Hit, Remove, Select, MessagesOf, Meant;
      ghost var c := dmsgq.c;
      all, newEnd := removal, 0;
      var it := 0;
      SelectNothing(c, before, k);
      while it < |dmsgq.c|
        invariant newEnd <= it <= |c| == |dmsgq.c|
        invariant dmsgq.c[..newEnd] == Select(c[..it], k, false) && dmsgq.c[it..] == c[it..]
        invariant all == Remove(before + MessagesOf(Select(c[..it], k, true)), collect)
      {
        SelectSnoc(c, it, handler, id, false);
        SelectSnoc(c, it, handler, id, true);
        var d := dmsgq.c[it];
        NextOf(dmsgq.c, c, it);
        if Match(d.msg, handler, id) {
          RemoveSnoc(before + MessagesOf(Select(c[..it], k, true)), d.msg, collect);
          AppendedOne(before, MessagesOf(Select(c[..it], k, true)), d.msg);
          if collect {
            all := all.(removed := all.removed + [d.msg]);
          } else {
            all := all.(deleted := all.deleted + [d.msg.data]);
          }
        } else {
          PutAt(dmsgq.c, newEnd, it, d);
          dmsgq.c := dmsgq.c[newEnd := d];
          newEnd := newEnd + 1;
        }
        it := it + 1;
      }
      assert c[..it] == c;
    }

    /** Clearing the delayed messages: compaction in place, then `reheap`. */
    method ClearDelayed(handler: nat, id: uint32, collect: bool, removal: Removal, ghost before: seq<Message>)
      returns (all: Removal)
      requires Valid() && removal == Remove(before, collect)
      modifies this`h, dmsgq
      ensures Valid() && Later(old(h), h)
      ensures multiset(dmsgq.c) == multiset(Select(old(dmsgq.c), Meant(handler, id), false))
      ensures all == Remove(before + MessagesOf(Select(old(dmsgq.c), Meant(handler, id), true)), collect)
      ensures h.taken == old(h).taken && h.line == old(h).line && h.delayed == old(h).delayed
    {
      ghost var k := Meant(handler, id);
      hide Heap, LineOk, DelayOk, Match, Hit, Remove, Select, MessagesOf, Meant;
      ghost var c := dmsgq.c;
      var newEnd;
      all, newEnd := Compact(handler, id, collect, removal, before);
      dmsgq.c := dmsgq.c[..newEnd];
      dmsgq.Reheap();
      SelectPartition(c, k);
      DropKeeps(h, c, dmsgq.c, Select(c, k, true));
      DropKeepsLine(h, msgq, PeekSlot(), multiset(Select(c, k, true)));
      h := h.(dropped := h.dropped + multiset(Select(c, k, true)));
    }

    /** The loop of Get that pulls messages off the list: disposals are carried out (their data
    are deleted) and skipped. */
    method TakeReady() returns (got: bool, msg: Message, deleted: seq<nat>, ghost gone: seq<Message>)
      requires Valid() && !fPeekKeep
      modifies this`msgq, this`h
      ensures Valid() && Later(old(h), h)
      ensures old(msgq) == gone + (if got then [msg] + msgq else [])
      ensures forall i :: 0 <= i < |gone| ==> gone[i].id == MQID_DISPOSE
      ensures if got then msg.id != MQID_DISPOSE else msgq == []
      ensures deleted == Remove(gone, false).deleted
      ensures h.line == old(h).line && h.delayed == old(h).delayed
      ensures AllDisposed(h, |old(h).taken|, if got then 1 else 0)
      ensures got ==> JustTook(h, msg)
    {
      hide Heap, LineOk, DelayOk, TookFront, Remove;
      got, deleted, gone, msg := false, [], [], Message(0, 0, 0, 0);
      ghost var start, ms := h, msgq;
      LaterReflexive(h, msgq, None);
      RemoveNothing();
      while msgq != []
        invariant Valid() && Later(start, h) && h.line == start.line && h.delayed == start.delayed
        invariant ms == gone + msgq
        invariant forall i :: 0 <= i < |gone| ==> gone[i].id == MQID_DISPOSE
        invariant deleted == Remove(gone, false).deleted
        invariant AllDisposed(h, |start.taken|, 0)
        decreases |msgq|
      {
        ghost var before := h;
        msg := msgq[0];
        TakeKeeps(h, msgq);
        TakeKeepsDelay(h, dmsgq.c);
        TookIt(h, msgq, |start.taken|);
        assert msgq == [msg] + msgq[1..];
        msgq := msgq[1..];
        h := TookFront(h);
        LaterTransitive(start, before, h);
        if msg.id == MQID_DISPOSE {
          RemoveSnoc(gone, msg, false);
          deleted := deleted + [msg.data];
          gone := gone + [msg];
        } else {
          got := true;
          return;
        }
      }
    }

    /** Clearing the peek slot. */
    method ClearPeek(handler: nat, id: uint32, collect: bool) returns (removal: Removal, ghost gone: seq<Message>)
      requires Valid()
      modifies this`fPeekKeep, this`h
      ensures Valid() && Later(old(h), h)
      ensures fPeekKeep == (old(fPeekKeep) && !Hit(msgPeek, Meant(handler, id)))
      ensures gone == (if old(fPeekKeep) && !fPeekKeep then [msgPeek] else []) && removal == Remove(gone, collect)
      ensures h.taken == old(h).taken && h.line == old(h).line && h.delayed == old(h).delayed
    {
      MatchMeans(msgPeek, handler, id);
      hide Heap, LineOk, DelayOk, Match, Hit, Meant;
      removal, gone := Removal([], []), [];
      LaterReflexive(h, msgq, PeekSlot());
      if fPeekKeep && Match(msgPeek, handler, id) {
        UnpeekKeeps(h, msgq, PeekSlot(), Cleared);
        UnpeekKeepsDelay(h, dmsgq.c, Cleared);
        h := Retook(h, Cleared);
        removal := if collect then Removal([msgPeek], []) else Removal([], [msgPeek.data]);
        fPeekKeep := false;
        gone := [msgPeek];
        RemoveSnoc([], msgPeek, collect);
        assert [] + [msgPeek] == gone;
      }
    }

    /** `Clear`: exactly the messages that are meant are removed (from the peek slot, the list and the
    heap, in this order); the others stay, the list in its order and the heap a heap. */
    method Clear(handler: nat, id: uint32, collect: bool) returns (removal: Removal)
      requires Valid()
      modifies this`fPeekKeep, this`msgq, this`h, dmsgq
      ensures Valid() && Later(old(h), h)
      ensures var k := Meant(handler, id);
        && fPeekKeep == (old(fPeekKeep) && !Hit(msgPeek, k))
        && msgq == Those(old(msgq), k, false)
        && multiset(dmsgq.c) == multiset(Select(old(dmsgq.c), k, false))
        && removal == Remove((if old(fPeekKeep) && !fPeekKeep then [msgPeek] else [])
                             + Those(old(msgq), k, true) + MessagesOf(Select(old(dmsgq.c), k, true)), collect)
      ensures h.taken == old(h).taken && h.line == old(h).line && h.delayed == old(h).delayed
    {
      ghost var k, start := Meant(handler, id), h;
      hide Heap, LineOk, DelayOk, Match, Hit, Meant, Those, Select, MessagesOf, Remove, MessageQueue.Valid, Later;
      ghost var gone: seq<Message>;
      removal, gone := ClearPeek(handler, id, collect);
      ghost var mid := h;
      removal := ClearList(handler, id, collect, removal, gone);
      LaterTransitive(start, mid, h);
      mid := h;
      removal := ClearDelayed(handler, id, collect, removal, gone + Those(old(msgq), k, true));
      LaterTransitive(start, mid, h);
    }

    /** What the other threads (and the handlers run by the socket server) may do to the queue while
    Get waits. */
    method OtherThreads()
      requires Valid() && !fPeekKeep
      modifies this`fStop, this`fPeekKeep, this`msgq, this`nextNum, this`h, dmsgq
      ensures Valid() && !fPeekKeep && Later(old(h), h) && h.taken == old(h).taken
    {
      hide Heap, LineOk, DelayOk, MessageQueue.Valid, Later;
      ghost var start := h;
      Unchanged();
      var steps: nat := *;
      while steps > 0
        invariant Valid() && !fPeekKeep && Later(start, h) && h.taken == start.taken
      {
        ghost var before := h;
        Unchanged();
        steps := steps - 1;
        var handler: nat, id: uint32, data: nat, time: uint32, delay: int := *, *, *, *, *;
        if {
          case true =>
            var sensitive := *;
            Post(handler, id, data, sensitive, time);
          case true => DoDelayPost(delay, time, handler, id, data);
          case true =>
            var collect := *;
            var _ := Clear(handler, id, collect);
          case true => Quit();
          case true => Restart();
        }
        LaterTransitive(start, before, h);
      }
    }

    /** `SocketServer::Wait`, which never gets to oversleep the next trigger or the time given. */
    method Wait(cms: int, ghost now: uint32, ghost left: Option<nat>) returns (ok: bool)
      requires Valid() && !fPeekKeep && WaitFits(cms, now, dmsgq.c, left)
      modifies this`fStop, this`fPeekKeep, this`msgq, this`nextNum, this`h, dmsgq
      ensures Valid() && !fPeekKeep && Later(old(h), h) && h.taken == old(h).taken
    {
      OtherThreads();
      ok := *;
    }

    /** One pass of Get: the delayed messages that are due (`due`, in their order) join the list, and
    the first message that is to be handed out is taken. */
    method Pass(now: uint32) returns (got: bool, msg: Message, cmsDelayNext: int, ghost due: seq<DelayedMessage>)
      requires Valid() && !fPeekKeep
      modifies this`msgq, this`h, dmsgq
      ensures Valid() && Later(old(h), h)
      ensures ReleasedAll(now, old(dmsgq.c), due, dmsgq.c)
      ensures FirstReady(old(msgq) + MessagesOf(due)) == if got then Some(msg) else None
      ensures msgq == AfterFirst(old(msgq) + MessagesOf(due))
      ensures AllDisposed(h, |old(h).taken|, if got then 1 else 0)
      ensures got ==> JustTook(h, msg) && msg.id != MQID_DISPOSE
      ensures !got ==> msgq == []
      ensures dmsgq.c != [] ==> !Due(now, dmsgq.c[0])
      ensures cmsDelayNext == if dmsgq.c == [] then FOREVER else TimeDiff(dmsgq.c[0].trigger, now)
    {
      hide Heap, LineOk, DelayOk, MessageQueue.Valid, Later, FirstReady, AfterFirst, Messages, MessagesOf, Entries,
        TimeDiff, Due, AllDisposed, JustTook, Releasing;
      ghost var start := h;
      cmsDelayNext, due := ReleaseDue(now);
      EntriesMessages(due, now, |start.delayed|);
      ghost var mid, ms := h, msgq;
      ghost var gone;
      var deleted;
      got, msg, deleted, gone := TakeReady();
      TookFirst(ms, gone, got, msg, msgq);
      LaterTransitive(start, mid, h);
    }

    /** `Get`.  A peeked message comes first, then the list in its order.  Without either, Get waits;
    `rounds` bounds how often that is followed.  On a queue that is quitting, what is ready is still
    delivered before Get gives up. */
    method Get(cmsWait: int, rounds: nat)
      returns (result: GetResult, ghost now: uint32, ghost start: uint32, ghost due: seq<DelayedMessage>)
      requires Valid()
      modifies this`fStop, this`fPeekKeep, this`msgq, this`nextNum, this`h, dmsgq
      ensures Valid() && !fPeekKeep && Later(old(h), h)
      ensures old(fPeekKeep) ==>
        result == Got(msgPeek) && msgq == old(msgq) && dmsgq.c == old(dmsgq.c) && h == Retook(old(h), Delivered)
      ensures !old(fPeekKeep) ==>
        && AllDisposed(h, |old(h).taken|, if result.Got? then 1 else 0)
        && (result.Got? ==> JustTook(h, result.msg) && result.msg.id != MQID_DISPOSE)
        && DueAt(start, old(dmsgq.c), due)
        && (var first := FirstReady(old(msgq) + MessagesOf(due));
            && (first.Some? ==> result == Got(first.value))
            && (first == None && (result.Got? || (result == StillWaiting && rounds > 0)) ==>
                  cmsWait == -1 || TimeDiff(now, start) < cmsWait))
      ensures result == TimedOut ==> cmsWait != -1 && TimeDiff(now, start) >= cmsWait
      ensures result == Stopped ==> fStop && msgq == [] && (dmsgq.c != [] ==> !Due(now, dmsgq.c[0]))
    {
      hide Heap, LineOk, DelayOk, FirstReady, Int32, AllDisposed, JustTook, Retook, Later, MessagesOf, ReleasedAll,
        AfterFirst;
      now, start, due := *, *, [];
      if fPeekKeep {
        UnpeekKeeps(h, msgq, PeekSlot(), Delivered);
        UnpeekKeepsDelay(h, dmsgq.c, Delivered);
        h := Retook(h, Delivered);
        fPeekKeep := false;
        return Got(msgPeek), now, start, due;
      }
      hide MessageQueue.Valid;
      var msStart: uint32 := *;
      start := msStart;
      var msCurrent, cmsElapsed := msStart, 0;
      var left: nat := rounds;
      ghost var earliest, list := h, msgq;
      Unchanged();
      DisposedNone(h);
      while true
        invariant Valid() && !fPeekKeep && Later(earliest, h) && AllDisposed(h, |earliest.taken|, 0)
        invariant if left == rounds then msgq == list && dmsgq.c == old(dmsgq.c) && msCurrent == start
                  else DueAt(start, old(dmsgq.c), due) && FirstReady(list + MessagesOf(due)) == None
        invariant left <= rounds && (left < rounds && cmsWait != -1 ==> TimeDiff(msCurrent, start) < cmsWait)
        decreases left
      {
        ghost var before := h;
        now := msCurrent;
        var got, msg, cmsDelayNext;
        ghost var released;
        got, msg, cmsDelayNext, released := Pass(msCurrent);
        if left == rounds {
          due := released;
        }
        LaterTransitive(earliest, before, h);
        DisposedOn(before, h, |earliest.taken|, if got then 1 else 0);
        if got {
          return Got(msg), now, start, due;
        }
        if fStop {
          return Stopped, now, start, due;
        }
        var cmsNext;
        if cmsWait == FOREVER {
          cmsNext := cmsDelayNext;
        } else {
          cmsNext := Max(0, cmsWait - cmsElapsed);
          if cmsDelayNext != FOREVER && cmsDelayNext < cmsNext {
            cmsNext := cmsDelayNext;
          }
        }
        if left == 0 {
          return StillWaiting, now, start, due;
        }
        left := left - 1;
        ghost var mid := h;
        var ok := Wait(cmsNext, msCurrent, if cmsWait == -1 then None else Some(Max(0, cmsWait - cmsElapsed)));
        LaterTransitive(earliest, mid, h);
        DisposedStays(mid, h, |earliest.taken|, 0);
        if !ok {
          return WaitFailed, now, start, due;
        }
        msCurrent := *;
        cmsElapsed := TimeDiff(msCurrent, msStart);
        if cmsWait != FOREVER && cmsElapsed >= cmsWait {
          return TimedOut, msCurrent, start, due;
        }
      }
    }

    /** `Peek`: the message stays, and the next Peek or Get returns it. */
    method Peek(cmsWait: int, rounds: nat) returns (result: GetResult)
      requires Valid()
      modifies this
      modifies dmsgq
      ensures Valid() && Later(old(h), h)
      ensures fPeekKeep <==> result.Got?
      ensures result.Got? ==> result.msg == msgPeek
      ensures old(fPeekKeep) ==>
        result == Got(old(msgPeek)) && h == old(h) && msgq == old(msgq) && dmsgq.c == old(dmsgq.c)
      ensures !old(fPeekKeep) && FirstReady(old(msgq)).Some? ==> result == Got(FirstReady(old(msgq)).value)
    {
      hide Heap, LineOk, DelayOk, FirstReady, MessagesOf, AllDisposed, Retook, Later;
      Unchanged();
      if fPeekKeep {
        return Got(msgPeek);
      }
      ghost var start := h;
      ghost var now, at, due;
      result, now, at, due := Get(cmsWait, rounds);
      FirstReadyOf(old(msgq), MessagesOf(due));
      if result.Got? {
        PeekKeeps(h, msgq);
        UnpeekKeepsDelay(h, dmsgq.c, Peeked);
        PeekIsLater(start, old(msgq), h, msgq);
        h := Retook(h, Peeked);
        msgPeek := result.msg;
        fPeekKeep := true;
      }
    }
  }

  /** Everything taken since the first `n`, but for the last `but`, asked to be disposed of, and was. */
  ghost predicate AllDisposed(h: History, n: nat, but: nat) {
    && n + but <= |h.taken|
    && forall i :: n <= i < |h.taken| - but ==> h.taken[i] < |h.fates| && h.fates[h.taken[i]] == Disposed
  }

  /** `msg` was taken last, and delivered. */
  ghost predicate JustTook(h: History, msg: Message) {
    && h.taken != []
    && Last(h.taken) < |h.line| == |h.fates|
    && MessageOf(h.line[Last(h.taken)]) == msg
    && h.fates[Last(h.taken)] == Delivered
  }

  lemma DisposedNone(h: History)
    ensures AllDisposed(h, |h.taken|, 0)
  {
  }

  /** One pass after another. */
  lemma DisposedOn(before: History, h: History, n: nat, but: nat)
    requires AllDisposed(before, n, 0) && AllDisposed(h, |before.taken|, but) && Later(before, h)
    ensures AllDisposed(h, n, but)
  {
    forall i | n <= i < |h.taken| - but
      ensures h.taken[i] < |h.fates| && h.fates[h.taken[i]] == Disposed
    {
      if i < |before.taken| {
        assert before.taken[i] == h.taken[i];
      }
    }
  }

  /** Peeking at what was taken just now leaves a later history than the one before taking it. */
  lemma PeekIsLater(start: History, ms: seq<Message>, h: History, msgq: seq<Message>)
    requires LineOk(start, ms, None) && LineOk(h, msgq, None) && Later(start, h) && AllDisposed(h, |start.taken|, 1)
    requires h.taken != [] && h.fates[Last(h.taken)] == Delivered
    ensures Later(start, Retook(h, Peeked))
  {
    var p := Last(h.taken);
    forall i | 0 <= i < |start.taken|
      ensures start.taken[i] != p
    {
      assert h.taken[i] == start.taken[i] && i < |h.taken| - 1;
    }
    assert p < |start.line| ==> start.fates[p] != Delivered;
  }

  lemma TookIt(h: History, msgq: seq<Message>, n: nat)
    requires LineOk(h, msgq, None) && msgq != [] && AllDisposed(h, n, 0)
    ensures var h' := TookFront(h);
      && |h'.taken| == |h.taken| + 1
      && if msgq[0].id == MQID_DISPOSE then AllDisposed(h', n, 0) else AllDisposed(h', n, 1) && JustTook(h', msgq[0])
  {
  }

  /** The first message that is to be handed out. */
  function FirstReady(ms: seq<Message>): Option<Message> {
    if ms == [] then None
    else if ms[0].id != MQID_DISPOSE then Some(ms[0])
    else FirstReady(ms[1..])
  }

  /** What is left behind it. */
  function AfterFirst(ms: seq<Message>): seq<Message> {
    if ms == [] then []
    else if ms[0].id != MQID_DISPOSE then ms[1..]
    else AfterFirst(ms[1..])
  }

  lemma {:induction false} FirstReadyIs(gone: seq<Message>, rest: seq<Message>)
    requires forall i :: 0 <= i < |gone| ==> gone[i].id == MQID_DISPOSE
    ensures FirstReady(gone + rest) == FirstReady(rest) && AfterFirst(gone + rest) == AfterFirst(rest)
  {
    if gone == [] {
      assert gone + rest == rest;
    } else {
      FirstReadyIs(gone[1..], rest);
      assert (gone + rest)[1..] == gone[1..] + rest;
    }
  }

  lemma {:induction false} FirstReadyOf(ms: seq<Message>, more: seq<Message>)
    ensures FirstReady(ms).Some? ==> FirstReady(ms + more) == FirstReady(ms)
  {
    if ms != [] {
      FirstReadyOf(ms[1..], more);
      assert (ms + more)[1..] == ms[1..] + more;
    }
  }

  lemma TookFirst(ms: seq<Message>, gone: seq<Message>, got: bool, msg: Message, left: seq<Message>)
    requires ms == gone + (if got then [msg] + left else [])
    requires forall i :: 0 <= i < |gone| ==> gone[i].id == MQID_DISPOSE
    requires if got then msg.id != MQID_DISPOSE else left == []
    ensures FirstReady(ms) == (if got then Some(msg) else None) && AfterFirst(ms) == left
  {
    FirstReadyIs(gone, if got then [msg] + left else []);
  }

  lemma DisposedStays(h: History, h': History, n: nat, but: nat)
    requires AllDisposed(h, n, but) && Later(h, h') && h'.taken == h.taken
    ensures AllDisposed(h', n, but)
  {
  }

  lemma RemoveNothing()
    ensures Remove([], false) == Removal([], [])
  {
  }

  lemma Splice(kept: seq<Message>, ms: seq<Message>, done: nat, msgq: seq<Message>)
    requires done < |ms| && msgq == kept + ms[done..]
    ensures var it := |kept|;
      it < |msgq| && msgq[it] == ms[done] && msgq[..it] + msgq[it + 1..] == kept + ms[done + 1..]
      && msgq == (kept + [ms[done]]) + ms[done + 1..]
  {
  }

  lemma EraseKeepsDelay(h: History, c: seq<DelayedMessage>, i: nat)
    requires DelayOk(h, c)
    ensures DelayOk(Erased(h, i), c)
  {
  }

  lemma UnpeekKeepsDelay(h: History, c: seq<DelayedMessage>, fate: Fate)
    requires DelayOk(h, c)
    ensures DelayOk(Retook(h, fate), c) && Retook(h, fate).delayed == h.delayed
  {
  }

  lemma TakeKeepsDelay(h: History, c: seq<DelayedMessage>)
    requires DelayOk(h, c)
    ensures DelayOk(TookFront(h), c)
  {
  }

  lemma DropKeepsLine(h: History, msgq: seq<Message>, peek: Option<Message>, gone: multiset<DelayedMessage>)
    requires LineOk(h, msgq, peek)
    ensures LineOk(h.(dropped := h.dropped + gone), msgq, peek) && Later(h, h.(dropped := h.dropped + gone))
  {
  }

  lemma ClearNothing(ms: seq<Message>, before: seq<Message>, k: Criterion)
    ensures ms == Those(ms[..0], k, false) + ms[0..] && Those(ms[..0], k, false) == []
    ensures before == before + Those(ms[..0], k, true)
  {
  }

  lemma SelectNothing(c: seq<DelayedMessage>, before: seq<Message>, k: Criterion)
    ensures Select(c[..0], k, false) == []
    ensures before == before + MessagesOf(Select(c[..0], k, true))
  {
  }

  lemma NextOf(c': seq<DelayedMessage>, c: seq<DelayedMessage>, it: nat)
    requires it < |c| == |c'| && c'[it..] == c[it..]
    ensures c'[it] == c[it] && c'[it + 1..] == c[it + 1..]
  {
    assert c'[it..][0] == c[it..][0] && c'[it..][1..] == c[it..][1..];
  }

  lemma AppendedOne(before: seq<Message>, gone: seq<Message>, m: Message)
    ensures (before + gone) + [m] == before + (gone + [m])
  {
  }

  lemma PutAt(c: seq<DelayedMessage>, end: nat, it: nat, d: DelayedMessage)
    requires end <= it < |c|
    ensures c[end := d][..end + 1] == c[..end] + [d] && c[end := d][it + 1..] == c[it + 1..]
  {
  }

  lemma OneFewer(c: seq<DelayedMessage>, c': seq<DelayedMessage>, d: DelayedMessage)
    requires multiset(c) == multiset(c') + multiset{d}
    ensures |c| == |c'| + 1
  {
    assert |multiset(c)| == |multiset(c')| + 1;
  }

  lemma MessagesSnoc(line: seq<Entry>, e: Entry)
    ensures Messages(line + [e]) == Messages(line) + [MessageOf(e)]
  {
    assert (line + [e])[..|line|] == line;
  }

  lemma {:induction false} EntriesMessages(due: seq<DelayedMessage>, now: uint32, known: nat)
    ensures Messages(Entries(due, now, known)) == MessagesOf(due)
  {
    if due != [] {
      var n := |due| - 1;
      EntriesMessages(due[..n], now, known);
      MessagesSnoc(Entries(due[..n], now, known), Released(due[n], now, known));
    }
  }

  lemma NoEntries(now: uint32, known: nat)
    ensures Entries([], now, known) == [] && Messages([]) == []
  {
  }

  lemma ReleasingNothing(now: uint32, c: seq<DelayedMessage>)
    ensures Releasing(now, c, [], c)
  {
  }
}
