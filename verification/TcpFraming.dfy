/** `AsyncTCPSocket`: packets over a byte stream, each behind a 16-bit big-endian length (the
layout of section 2 of RFC 4571). */
module TcpFraming {
  import opened Bytes

  const PACKET_LEN_SIZE: nat := 2
  const BUF_SIZE: int := 64 * 1024 + 2

  type Packet = bytes

  // ---------- the wire format ----------

  /** `HostToNetwork16(static_cast<PacketLength>(cb))`: the length truncated to 16 bits. */
  function LengthBytes(size: nat): (r: bytes)
    ensures |r| == PACKET_LEN_SIZE
  {
    [size / 256 % 256, size % 256]
  }

  /** `GetBE16`. */
  function GetBE16(data: bytes): nat
    requires |data| >= 2
  {
    data[0] as int * 256 + data[1] as int
  }

  function Frame(p: Packet): bytes {
    LengthBytes(|p|) + p
  }

  function Frames(ps: seq<Packet>): bytes {
    if ps == [] then [] else Frame(ps[0]) + Frames(ps[1..])
  }

  /** What the length in front of a packet can express. */
  predicate Expressible(p: Packet) {
    |p| < 0x1_0000
  }

  ghost predicate AllExpressible(ps: seq<Packet>) {
    forall i :: 0 <= i < |ps| ==> Expressible(ps[i])
  }

  /** The length of the frame at the front of `data`, if it is all there. */
  function FrontFrame(data: bytes): (r: Option<nat>)
    ensures r.Some? ==> PACKET_LEN_SIZE <= r.value <= |data|
  {
    if |data| < PACKET_LEN_SIZE then None
    else if |data| < PACKET_LEN_SIZE + GetBE16(data) then None
    else Some(PACKET_LEN_SIZE + GetBE16(data))
  }

  /** The packets a receiver takes off the front of `data`, and what remains. */
  function Unframe(data: bytes): (r: (seq<Packet>, bytes))
    ensures FrontFrame(r.1).None?
    decreases |data|
  {
    match FrontFrame(data)
    case None => ([], data)
    case Some(n) =>
      var (ps, rest) := Unframe(data[n..]);
      ([data[PACKET_LEN_SIZE..n]] + ps, rest)
  }

  /** A frame byte by byte: the length modulo 2^16, its more significant byte first, and the packet. */
  lemma FrameIs(p: Packet)
    ensures var f := Frame(p);
      |f| == |p| + 2 && f[0] as int * 256 + f[1] as int == |p| % 0x1_0000 && f[2..] == p
  {
    LengthReadsBack(p, []);
    assert Frame(p) + [] == Frame(p);
  }

  lemma LengthReadsBack(p: Packet, more: bytes)
    ensures GetBE16(Frame(p) + more) == |p| % 0x1_0000
  {
    var n := |p|;
    assert (Frame(p) + more)[0] == n / 256 % 256 && (Frame(p) + more)[1] == n % 256;
  }

  lemma FrameIsFront(p: Packet, more: bytes)
    requires Expressible(p)
    ensures FrontFrame(Frame(p) + more) == Some(|Frame(p)|)
    ensures (Frame(p) + more)[PACKET_LEN_SIZE..|Frame(p)|] == p && (Frame(p) + more)[|Frame(p)|..] == more
  {
    LengthReadsBack(p, more);
  }

  lemma {:induction false} UnframeFrames(ps: seq<Packet>, tail: bytes)
    requires AllExpressible(ps)
    ensures Unframe(Frames(ps) + tail) == (ps + Unframe(tail).0, Unframe(tail).1)
  {
    if ps == [] {
      assert Frames(ps) + tail == tail;
      assert ps + Unframe(tail).0 == Unframe(tail).0;
    } else {
      hide Frame, Frames, Unframe, FrontFrame;
      var p, rest := ps[0], ps[1..];
      assert [p] + rest == ps;
      FramesCons(p, rest);
      Associative(Frame(p), Frames(rest), tail);
      FrameIsFront(p, Frames(rest) + tail);
      UnframeStep(Frames(ps) + tail, |Frame(p)|);
      UnframeFrames(rest, tail);
      assert [p] + (rest + Unframe(tail).0) == ps + Unframe(tail).0;
    }
  }

  lemma {:induction false} FramesAppend(ps: seq<Packet>, qs: seq<Packet>)
    ensures Frames(ps + qs) == Frames(ps) + Frames(qs)
  {
    if ps == [] {
      assert ps + qs == qs;
    } else {
      hide Frame, Frames;
      var p, rest := ps[0], ps[1..];
      FramesAppend(rest, qs);
      FramesCons(p, rest);
      FramesCons(p, rest + qs);
      assert [p] + rest == ps && [p] + (rest + qs) == ps + qs;
      Associative(Frame(p), Frames(rest), Frames(qs));
    }
  }

  lemma FramesSnoc(ps: seq<Packet>, p: Packet)
    ensures Frames(ps + [p]) == Frames(ps) + Frame(p)
  {
    FramesAppend(ps, [p]);
    assert Frames([p]) == Frame(p);
  }

  lemma SplitFront(data: bytes, n: nat)
    requires FrontFrame(data) == Some(n)
    ensures data == Frame(data[PACKET_LEN_SIZE..n]) + data[n..] && Expressible(data[PACKET_LEN_SIZE..n])
  {
    var p := data[PACKET_LEN_SIZE..n];
    assert LengthBytes(|p|) == data[..PACKET_LEN_SIZE];
    assert Frame(p) == data[..n];
  }

  lemma FramesCons(p: Packet, ps: seq<Packet>)
    ensures Frames([p] + ps) == Frame(p) + Frames(ps)
  {
    assert ([p] + ps)[1..] == ps;
  }

  lemma UnframeStep(data: bytes, n: nat)
    requires FrontFrame(data) == Some(n)
    ensures Unframe(data) == ([data[PACKET_LEN_SIZE..n]] + Unframe(data[n..]).0, Unframe(data[n..]).1)
  {
  }

  lemma UnframeNothing(data: bytes)
    requires FrontFrame(data).None?
    ensures Unframe(data) == ([], data)
  {
  }

  lemma {:induction false} UnframeRefolds(data: bytes)
    ensures Frames(Unframe(data).0) + Unframe(data).1 == data && AllExpressible(Unframe(data).0)
    decreases |data|
  {
    hide Frame, FrontFrame, Frames, Unframe;
    if FrontFrame(data).None? {
      UnframeNothing(data);
      NoFrames(data);
    } else {
      var n := FrontFrame(data).value;
      var p, ps := data[PACKET_LEN_SIZE..n], Unframe(data[n..]).0;
      SplitFront(data, n);
      UnframeStep(data, n);
      UnframeRefolds(data[n..]);
      FramesCons(p, ps);
      assert Frame(p) + (Frames(ps) + Unframe(data).1) == Frame(p) + Frames(ps) + Unframe(data).1;
    }
  }

  lemma NoFrames(data: bytes)
    ensures Frames([]) + data == data
  {
  }

  /** One packet survives framing exactly when its length fits in 16 bits. */
  lemma FrameRoundTrip(p: Packet)
    requires |p| <= BUF_SIZE
    ensures Unframe(Frame(p)) == ([p], []) <==> Expressible(p)
  {
    if Expressible(p) {
      UnframeFrames([p], []);
      assert Frames([p]) + [] == Frame(p) && [p] + [] == [p];
    } else {
      assert !AllExpressible([p]) by { assert [p][0] == p; }
      UnframeRefolds(Frame(p));
    }
  }

  // ---------- the socket ----------

  /** What the operating system does with a Send: it takes some bytes, or none. */
  class Stream {
    ghost var carried: bytes
    // How often it was asked to send, and its last answer.
    ghost var asked: nat
    ghost var answer: int

    constructor ()
      ensures carried == []
    {
      carried, asked, answer := [], 0, 0;
    }

    method Send(data: bytes) returns (res: int)
      modifies this
      ensures res <= |data|
      ensures carried == if res > 0 then old(carried) + data[..res] else old(carried)
      ensures asked == old(asked) + 1 && answer == res
    {
      res := *;
      if res > |data| { res := |data|; }
      asked, answer := asked + 1, res;
      if res > 0 {
        carried := carried + data[..res];
      }
    }
  }

  datatype SendResult = TooLarge | Dropped | AssertionFailed | NoProgress(res: int) | Sent

  class Sender {
    const outbuf: array<byte>
    const socket: Stream
    var outpos: nat
    // The packets that were not dropped.
    ghost var accepted: seq<Packet>

    constructor (socket: Stream)
      requires socket.carried == []
      ensures Valid() && accepted == [] && this.socket == socket && fresh(outbuf)
    {
      outbuf := new byte[BUF_SIZE];
      outpos, accepted, this.socket := 0, [], socket;
    }

    /** What the stream has carried and what waits in the buffer are the accepted packets, framed. */
    ghost predicate Valid()
      reads this, socket, outbuf
    {
      && outbuf.Length == BUF_SIZE && outpos <= BUF_SIZE
      && AllExpressible(accepted)
      && socket.carried + outbuf[..outpos] == Frames(accepted)
    }

    method FlushOutBuffer() returns (res: int)
      requires outpos <= outbuf.Length
      modifies this`outpos, outbuf, socket
      ensures outpos <= old(outpos) && old(socket.carried) <= socket.carried
      ensures socket.carried + outbuf[..outpos] == old(socket.carried + outbuf[..outpos])
      ensures socket.asked == old(socket.asked) + 1 && res == socket.answer
      ensures if res > 0 then outpos == old(outpos) - res
              else socket.carried == old(socket.carried) && outpos == old(outpos)
    {
      ghost var carried, data := socket.carried, outbuf[..outpos];
      res := socket.Send(outbuf[..outpos]);
      if res <= 0 {
        return;
      }
      outpos := DropFrom(outbuf, outpos, res);
      assert outbuf[..outpos] == data[res..];
      Resplit(carried, data, res);
    }

    /** `Send`.  A packet is sent whole sooner or later, or it is dropped whole: because a previous
    one is still waiting, or because the stream took none of it.  The assertion in
    AppendToOutBuffer is modelled as a result of its own; it fails for exactly the sizes that
    16 bits cannot express but the buffer's size admits. */
    method Send(p: Packet) returns (result: SendResult)
      requires Valid()
      modifies this, outbuf, socket
      ensures Valid() && old(socket.carried) <= socket.carried
      ensures accepted == if result == Sent then old(accepted) + [p] else old(accepted)
      ensures result == TooLarge <==> |p| > BUF_SIZE
      ensures result == Dropped <==> |p| <= BUF_SIZE && old(outpos) > 0
      ensures result == AssertionFailed <==> |p| <= BUF_SIZE && old(outpos) == 0 && !Expressible(p)
      ensures result.NoProgress? ==> result.res <= 0 && outpos == 0
      ensures result.NoProgress? || result == Sent ==> socket.asked == old(socket.asked) + 1
      ensures result.NoProgress? ==> result.res == socket.answer
      ensures result != Sent ==> socket.carried == old(socket.carried) && outpos == old(outpos)
    {
      hide LengthBytes, Frames;
      if |p| > BUF_SIZE {
        return TooLarge;
      }
      if outpos != 0 {
        return Dropped;
      }
      if !(PACKET_LEN_SIZE + |p| < BUF_SIZE) {
        return AssertionFailed;
      }
      ghost var carried := socket.carried;
      assert carried + outbuf[..outpos] == carried;
      outpos := AppendTo(outbuf, outpos, LengthBytes(|p|));
      outpos := AppendTo(outbuf, outpos, p);
      assert outbuf[..outpos] == Frame(p);
      var res := FlushOutBuffer();
      if res <= 0 {
        outpos := 0;
        assert carried + outbuf[..outpos] == carried;
        return NoProgress(res);
      }
      FramesSnoc(accepted, p);
      accepted := accepted + [p];
      return Sent;
    }

    /** `OnWriteEvent`: true when it signals that it is ready to send. */
    method OnWriteEvent() returns (ready: bool)
      requires Valid()
      modifies this`outpos, outbuf, socket
      ensures Valid() && old(socket.carried) <= socket.carried
      ensures ready <==> socket.carried == Frames(accepted)
      ensures socket.asked == old(socket.asked) + if old(outpos) > 0 then 1 else 0
    {
      if outpos > 0 {
        var _ := FlushOutBuffer();
      }
      ready := outpos == 0;
      assert |socket.carried + outbuf[..outpos]| == |socket.carried| + outpos;
      if ready { assert socket.carried + outbuf[..outpos] == socket.carried; }
    }
  }

  /** Taking the frame at the front of `data`. */
  lemma TakeFront(packets: seq<Packet>, got: seq<Packet>, data: bytes, n: nat) returns (p: Packet)
    requires FrontFrame(data) == Some(n) && AllExpressible(packets)
    ensures p == data[PACKET_LEN_SIZE..n] && AllExpressible(packets + [p])
    ensures Frames(packets + [p]) + data[n..] == Frames(packets) + data
    ensures (got + [p]) + Unframe(data[n..]).0 == got + Unframe(data).0
  {
    hide Frame, Frames, Unframe, FrontFrame;
    p := data[PACKET_LEN_SIZE..n];
    SplitFront(data, n);
    UnframeStep(data, n);
    FramesSnoc(packets, p);
    assert Frames(packets) + Frame(p) + data[n..] == Frames(packets) + (Frame(p) + data[n..]);
  }

  class Receiver {
    const inbuf: array<byte>
    var inpos: nat
    // The bytes received and the packets signalled.
    ghost var received: bytes
    ghost var packets: seq<Packet>

    constructor ()
      ensures Valid() && packets == [] && received == [] && fresh(inbuf)
    {
      inbuf := new byte[BUF_SIZE];
      inpos, received, packets := 0, [], [];
    }

    /** The received bytes are the signalled packets, framed, and the buffer; and the buffer holds
    less than a frame, hence less than a maximal one. */
    ghost predicate Valid()
      reads this, inbuf
    {
      && inbuf.Length == BUF_SIZE && inpos < BUF_SIZE
      && AllExpressible(packets)
      && received == Frames(packets) + inbuf[..inpos]
      && FrontFrame(inbuf[..inpos]).None?
    }

    /** `ProcessInput`. */
    method ProcessInput()
      requires inbuf.Length == BUF_SIZE && inpos <= BUF_SIZE
      requires AllExpressible(packets) && received == Frames(packets) + inbuf[..inpos]
      modifies this`inpos, this`packets, inbuf
      ensures Valid() && inpos < PACKET_LEN_SIZE + 0xFFFF
      ensures packets == old(packets) + Unframe(old(inbuf[..inpos])).0
    {
      hide Frame, Frames, Unframe, AllExpressible, Expressible;
      ghost var start := inbuf[..inpos];
      ghost var got: seq<Packet> := [];
      while true
        invariant inpos <= BUF_SIZE && packets == old(packets) + got
        invariant AllExpressible(packets) && received == Frames(packets) + inbuf[..inpos]
        invariant Unframe(start).0 == got + Unframe(inbuf[..inpos]).0
        decreases inpos
      {
        ghost var data := inbuf[..inpos];
        if inpos < PACKET_LEN_SIZE {
          UnframeNothing(data);
          return;
        }
        var pktLen := inbuf[0] as int * 256 + inbuf[1] as int;
        assert pktLen == GetBE16(data);
        if inpos < PACKET_LEN_SIZE + pktLen {
          UnframeNothing(data);
          return;
        }
        ghost var p := TakeFront(packets, got, data, PACKET_LEN_SIZE + pktLen);
        packets, got := packets + [p], got + [p];
        inpos := DropFrom(inbuf, inpos, PACKET_LEN_SIZE + pktLen);
      }
    }

    /** `OnReadEvent` when the stream delivers `data`.  There is always room for at least one byte
    (the requires can be met), and the overflow branch of the source is not reached: after
    ProcessInput the buffer is never full. */
    method OnReadEvent(data: bytes)
      requires Valid() && |data| <= BUF_SIZE - inpos
      modifies this, inbuf
      ensures Valid() && received == old(received) + data
      ensures packets == Unframe(received).0
      ensures old(packets) <= packets
    {
      ghost var before, held := packets, inbuf[..inpos];
      inpos := AppendTo(inbuf, inpos, data);
      received := received + data;
      assert inbuf[..inpos] == held + data;
      assert received == Frames(before) + (held + data);
      UnframeFrames(before, held + data);
      ProcessInput();
      if inpos >= BUF_SIZE {
        assert false;
      }
    }
  }

  // ---------- end to end ----------

  lemma {:induction false} PrefixUnframes(whole: seq<Packet>, part: seq<Packet>, rest: bytes)
    requires AllExpressible(whole) && AllExpressible(part) && FrontFrame(rest).None?
    requires Frames(part) + rest <= Frames(whole)
    ensures part <= whole
    ensures Frames(part) + rest == Frames(whole) ==> part == whole && rest == []
    decreases |part|
  {
    var all := Frames(whole);
    var got := Frames(part) + rest;
    UnframeFrames(whole, []);
    assert all + [] == all;
    if part == [] {
      if got == all {
        UnframeFrames(part, rest);
        assert Unframe(rest) == ([], rest);
        assert Unframe(got) == ([], rest);
      }
    } else {
      var p := part[0];
      var more := Frames(part[1..]) + rest;
      assert got == Frame(p) + more;
      FrameIsFront(p, more);
      if whole == [] {
        assert false;
      } else {
        FrameIsFront(whole[0], Frames(whole[1..]));
        assert all[0] == got[0] && all[1] == got[1];
        assert GetBE16(all) == GetBE16(got);
        assert |Frame(p)| == |Frame(whole[0])|;
        assert p == got[PACKET_LEN_SIZE..|Frame(p)|] == all[PACKET_LEN_SIZE..|Frame(p)|] == whole[0];
        assert more == got[|Frame(p)|..] && Frames(whole[1..]) == all[|Frame(p)|..];
        PrefixUnframes(whole[1..], part[1..], rest);
        assert part == [p] + part[1..] && whole == [p] + whole[1..];
      }
    }
  }

  /** For any schedule of sends, partial flushes, write events and receive segmentation: what the
  receiver has signalled is a prefix of what the sender has not dropped, and all of it once the
  sender's buffer and the stream have drained. */
  lemma EndToEnd(s: Sender, r: Receiver)
    requires s.Valid() && r.Valid() && r.received <= s.socket.carried
    ensures r.packets <= s.accepted
    ensures r.received == s.socket.carried && s.outpos == 0 ==> r.packets == s.accepted && r.inpos == 0
  {
    var rest := r.inbuf[..r.inpos];
    assert s.socket.carried <= Frames(s.accepted);
    PrefixUnframes(s.accepted, r.packets, rest);
  }
}
