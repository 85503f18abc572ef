/** Base64 as in sections 3.5 and 4 of RFC 4648: the encoder, the decoder with all its options, and
what the strictest options accept. */
module Base64 {

  type octet = bv8
  type octets = seq<bv8>

  // ---------- the alphabet ----------

  const PAD: octet := 61  // kPad

  /** `Base64Table`, for an index below 64. */
  function Char(c: octet): octet {
    if c < 26 then c + 65
    else if c < 52 then c + 71
    else if c < 62 then c - 4
    else if c == 62 then 43
    else 47
  }

  const PD: octet := 0xFD
  const SP: octet := 0xFE
  const IL: octet := 0xFF

  /** `DecodeTable`. */
  function Table(ch: octet): octet {
    if 65 <= ch <= 90 then ch - 65
    else if 97 <= ch <= 122 then ch - 71
    else if 48 <= ch <= 57 then ch + 4
    else if ch == 43 then 62
    else if ch == 47 then 63
    else if ch == 61 then PD
    else if ch == 32 || 9 <= ch <= 13 then SP
    else IL
  }

  lemma TableOfChar(c: octet)
    requires c < 64
    ensures Table(Char(c)) == c && Char(c) != PAD
  {
  }

  /** Every character that stands for a value is that value's character. */
  lemma CharOfTable(ch: octet)
    requires Table(ch) != PD && Table(ch) != SP && Table(ch) != IL
    ensures Table(ch) < 64 && Char(Table(ch)) == ch
  {
  }

  function Chars(vals: octets): (r: octets)
    ensures |r| == |vals|
  {
    seq(|vals|, i requires 0 <= i < |vals| => Char(vals[i]))
  }

  // ---------- encoding ----------

  // The four six-bit values of three bytes.
  function Sextet0(a: octet): octet { (a >> 2) & 0x3f }
  function Sextet1(a: octet, b: octet): octet { Or(Last2(a), First4(b)) }
  function Sextet2(b: octet, c: octet): octet { Or(Last4(b), First2(c)) }
  function Sextet3(c: octet): octet { c & 0x3f }

  // Parts of a byte, in the place they take in a six-bit value.
  function Last2(a: octet): octet { (a << 4) & 0x3f }
  function First4(b: octet): octet { (b >> 4) & 0x0f }
  function Last4(b: octet): octet { (b << 2) & 0x3f }
  function First2(c: octet): octet { (c >> 6) & 0x03 }
  function Or(a: octet, b: octet): octet { a | b }

  /** The characters of the group at the front, padded if it is incomplete. */
  function FirstGroup(data: octets): (r: octets)
    requires data != []
    ensures |r| == 4
  {
    if |data| == 1 then [Char(Sextet0(data[0])), Char(Sextet1(data[0], 0)), PAD, PAD]
    else if |data| == 2 then
      [Char(Sextet0(data[0])), Char(Sextet1(data[0], data[1])), Char(Sextet2(data[1], 0)), PAD]
    else
      [Char(Sextet0(data[0])), Char(Sextet1(data[0], data[1])), Char(Sextet2(data[1], data[2])), Char(Sextet3(data[2]))]
  }

  function Encode(data: octets): octets {
    if data == [] then [] else FirstGroup(data) + Encode(data[if |data| < 3 then |data| else 3..])
  }

  // ---------- decoding ----------

  datatype ParseFlag = ParseStrict | ParseWhite | ParseAny
  datatype PadFlag = PadYes | PadAny | PadNo
  datatype TermFlag = TermBuffer | TermChar | TermAny
  datatype Flags = Flags(parse: ParseFlag, pad: PadFlag, term: TermFlag)

  const STRICT := Flags(ParseStrict, PadYes, TermBuffer)

  /** The loop of GetNextQuantum: the values collected, the pads since, where they started, and the
  position it stopped at. */
  datatype Scanned = Scanned(vals: octets, pads: nat, padStart: nat, pos: nat)

  predicate InScan(data: octets, s: Scanned) {
    s.pos <= |data| && |s.vals| <= 4 && s.padStart <= s.pos
  }

  /** What the loop does with the character at the current position; None to break out. */
  function ScanStep(parse: ParseFlag, illegalPads: bool, data: octets, s: Scanned): (r: Scanned)
    requires InScan(data, s) && s.pos < |data| && |s.vals| < 4
    ensures InScan(data, r) && (r == s || r.pos == s.pos + 1)
  {
    var v := Table(data[s.pos]);
    var skipped := if parse == ParseAny then s.(pos := s.pos + 1) else s;
    if v == IL || (illegalPads && v == PD) then skipped
    else if v == SP then
      if parse == ParseStrict then s else s.(pos := s.pos + 1)
    else if v == PD then
      if |s.vals| < 2 || |s.vals| + s.pads >= 4 then skipped
      else s.(pads := s.pads + 1, padStart := if s.pads == 0 then s.pos else s.padStart, pos := s.pos + 1)
    else if s.pads > 0 && parse != ParseAny then s
    else Scanned(s.vals + [v], 0, s.padStart, s.pos + 1)
  }

  function Scan(parse: ParseFlag, illegalPads: bool, data: octets, s: Scanned): (r: Scanned)
    requires InScan(data, s)
    ensures InScan(data, r) && s.pos <= r.pos
    decreases |data| - s.pos
  {
    if |s.vals| == 4 || s.pos == |data| then s
    else
      var next := ScanStep(parse, illegalPads, data, s);
      if next == s then s else Scan(parse, illegalPads, data, next)
  }

  /** Up to four values, whether padding completed them, and the position after them. */
  datatype Quantum = Quantum(vals: octets, padded: bool, pos: nat)

  function NextQuantum(parse: ParseFlag, illegalPads: bool, data: octets, pos: nat): (q: Quantum)
    requires pos <= |data|
    ensures q.pos <= |data| && |q.vals| <= 4
  {
    var s := Scan(parse, illegalPads, data, Scanned([], 0, 0, pos));
    var padded := |s.vals| + s.pads == 4;
    Quantum(s.vals, padded, if !padded && s.pads > 0 then s.padStart else s.pos)
  }

  /** `qbuf[i]`, the unused places being zero. */
  function At(vals: octets, i: nat): octet {
    if i < |vals| then vals[i] else 0
  }

  // The three bytes of four six-bit values.
  function Byte0(s0: octet, s1: octet): octet { (s0 << 2) | ((s1 >> 4) & 0x3) }
  function Byte1(s1: octet, s2: octet): octet { ((s1 << 4) & 0xf0) | ((s2 >> 2) & 0xf) }
  function Byte2(s2: octet, s3: octet): octet { ((s2 << 6) & 0xc0) | s3 }

  /** The bytes that a quantum decodes to. */
  function QuantumBytes(vals: octets): octets {
    var a := Byte0(At(vals, 0), At(vals, 1));
    var b := Byte1(At(vals, 1), At(vals, 2));
    var c := Byte2(At(vals, 2), At(vals, 3));
    if |vals| >= 4 then [a, b, c]
    else if |vals| == 3 then [a, b]
    else if |vals| == 2 then [a]
    else []
  }

  /** The bits of an incomplete quantum that no byte uses. */
  function UnusedBits(vals: octets): octet {
    if |vals| < 2 then Byte0(At(vals, 0), At(vals, 1))
    else if |vals| == 2 then Byte1(At(vals, 1), At(vals, 2))
    else Byte2(At(vals, 2), At(vals, 3))
  }

  datatype Decoded = Decoded(success: bool, result: octets, used: nat)

  /** `DecodeFromArrayTemplate`, from a position on. */
  function DecodeFrom(flags: Flags, data: octets, pos: nat): (r: Decoded)
    requires pos <= |data|
    ensures r.used <= |data|
    decreases |data| - pos
  {
    if pos == |data| then Decoded(true, [], pos)
    else
      var q := NextQuantum(flags.parse, flags.pad == PadNo, data, pos);
      if |q.vals| < 4 then
        Decoded((flags.term == TermAny || UnusedBits(q.vals) == 0) && (flags.pad == PadYes ==> q.padded)
                && (flags.term == TermBuffer ==> q.pos == |data|),
                QuantumBytes(q.vals), q.pos)
      else
        QuantumAdvances(flags.parse, flags.pad == PadNo, data, pos);
        var rest := DecodeFrom(flags, data, q.pos);
        rest.(result := QuantumBytes(q.vals) + rest.result)
  }

  function Decode(flags: Flags, data: octets): Decoded {
    DecodeFrom(flags, data, 0)
  }

  /** Every value takes a character, and pads that are rolled back come after the values. */
  lemma {:induction false} ScanAdvances(parse: ParseFlag, illegalPads: bool, data: octets, s: Scanned, start: nat)
    requires InScan(data, s) && start + |s.vals| <= s.pos
    requires s.pads > 0 ==> start + |s.vals| <= s.padStart
    ensures var r := Scan(parse, illegalPads, data, s);
      start + |r.vals| <= r.pos && (r.pads > 0 ==> start + |r.vals| <= r.padStart)
    decreases |data| - s.pos
  {
    if |s.vals| < 4 && s.pos < |data| {
      var next := ScanStep(parse, illegalPads, data, s);
      if next != s {
        ScanAdvances(parse, illegalPads, data, next, start);
      }
    }
  }

  lemma QuantumAdvances(parse: ParseFlag, illegalPads: bool, data: octets, pos: nat)
    requires pos <= |data|
    ensures var q := NextQuantum(parse, illegalPads, data, pos); pos + |q.vals| <= q.pos
  {
    ScanAdvances(parse, illegalPads, data, Scanned([], 0, 0, pos), pos);
  }

  // ---------- the loops of the source ----------

  /** The first two characters of a round in `EncodeFromArray`. */
  method EncodeFirst(data: octets, start: nat) returns (i: nat, two: octets)
    requires start < |data|
    ensures i == start + 1 && two == FirstGroup(data[start..])[..2]
  {
    GroupAt(data, start);
    hide Char, FirstGroup, Sextet0, Last2, First4, Or;
    i := start;
    var c := Sextet0(data[i]);
    two := [Char(c)];
    c := Last2(data[i]);
    i := i + 1;
    if i < |data| {
      c := Or(c, First4(data[i]));
    }
    two := two + [Char(c)];
  }

  /** The last two. */
  method EncodeLast(data: octets, start: nat) returns (i: nat, two: octets)
    requires start < |data|
    ensures i == if start + 3 <= |data| then start + 3 else |data|
    ensures two == FirstGroup(data[start..])[2..]
  {
    GroupAt(data, start);
    hide Char, FirstGroup, Sextet3, Last4, First2, Or;
    i := start + 1;
    var c;
    if i < |data| {
      c := Last4(data[i]);
      i := i + 1;
      if i < |data| {
        c := Or(c, First2(data[i]));
      }
      two := [Char(c)];
    } else {
      two := [PAD];
    }
    if i < |data| {
      c := Sextet3(data[i]);
      two := two + [Char(c)];
      i := i + 1;
    } else {
      two := two + [PAD];
    }
  }

  /** The characters of a group one by one. */
  lemma GroupAt(data: octets, i: nat)
    requires i < |data|
    ensures var g := FirstGroup(data[i..]);
      && g[0] == Char(Sextet0(data[i]))
      && g[1] == Char(if i + 1 < |data| then Or(Last2(data[i]), First4(data[i + 1])) else Last2(data[i]))
      && g[2] == (if i + 1 == |data| then PAD
                  else Char(if i + 2 < |data| then Or(Last4(data[i + 1]), First2(data[i + 2])) else Last4(data[i + 1])))
      && g[3] == (if i + 2 < |data| then Char(Sextet3(data[i + 2])) else PAD)
  {
    hide Char;
    if i + 1 == |data| {
      assert Sextet1(data[i], 0) == Last2(data[i]);
    } else if i + 2 == |data| {
      assert Sextet2(data[i + 1], 0) == Last4(data[i + 1]);
    }
  }

  /** The size that the result is given beforehand. */
  lemma {:induction false} EncodedLength(data: octets)
    ensures |Encode(data)| == (|data| + 2) / 3 * 4
  {
    hide FirstGroup;
    if data != [] {
      EncodedLength(data[if |data| < 3 then |data| else 3..]);
    }
  }

  /** One round moves a group from what is still to be encoded to the result. */
  lemma EncodeRound(data: octets, i: nat, done: octets)
    requires i < |data|
    ensures done + FirstGroup(data[i..]) + Encode(data[if |data| < i + 3 then |data| else i + 3..])
            == done + Encode(data[i..])
  {
    hide FirstGroup;
    var rest := data[i..];
    assert rest[if |rest| < 3 then |rest| else 3..] == data[if |data| < i + 3 then |data| else i + 3..];
  }

  /** `EncodeFromArray`. */
  method EncodeFromArray(data: octets) returns (result: octets)
    ensures result == Encode(data)
  {
    hide FirstGroup, Encode;
    result := [];
    var i := 0;
    EncodeEnds(data);
    while i < |data|
      invariant i <= |data| && result + Encode(data[i..]) == Encode(data)
    {
      ghost var start, done := i, result;
      var two, last;
      i, two := EncodeFirst(data, i);
      result := result + two;
      i, last := EncodeLast(data, i - 1);
      result := result + last;
      assert result == done + FirstGroup(data[start..]);
      EncodeRound(data, start, done);
    }
  }

  lemma EncodeEnds(data: octets)
    ensures data[0..] == data && Encode(data[|data|..]) == []
  {
  }

  lemma ScanOnce(parse: ParseFlag, illegalPads: bool, data: octets, s: Scanned)
    requires InScan(data, s) && s.pos < |data| && |s.vals| < 4
    ensures Scan(parse, illegalPads, data, s)
            == Scan(parse, illegalPads, data, ScanStep(parse, illegalPads, data, s))
    ensures ScanStep(parse, illegalPads, data, s) == s ==> Scan(parse, illegalPads, data, s) == s
  {
  }

  lemma ScanEnds(parse: ParseFlag, illegalPads: bool, data: octets, s: Scanned)
    requires InScan(data, s) && (|s.vals| == 4 || s.pos == |data|)
    ensures Scan(parse, illegalPads, data, s) == s
  {
  }

  /** The body of the loop in `GetNextQuantum`; `more` is false where the source breaks out. */
  method ScanChar(parse: ParseFlag, illegalPads: bool, data: octets, qbuf: array<octet>,
                  byteLen: nat, padLen: nat, padStart: nat, dpos: nat)
    returns (more: bool, byteLen': nat, padLen': nat, padStart': nat)
    requires qbuf.Length == 4 && byteLen < 4 && padStart <= dpos < |data|
    modifies qbuf
    ensures byteLen' <= 4 && padStart' <= dpos
    ensures var s := Scanned(old(qbuf[..byteLen]), padLen, padStart, dpos);
      ScanStep(parse, illegalPads, data, s)
      == if more then Scanned(qbuf[..byteLen'], padLen', padStart', dpos + 1) else s
    ensures !more ==> qbuf[..byteLen'] == old(qbuf[..byteLen]) && padLen' == padLen && padStart' == padStart
  {
    hide Table;
    more, byteLen', padLen', padStart' := true, byteLen, padLen, padStart;
    ghost var vals := qbuf[..byteLen];
    var v := Table(data[dpos]);
    qbuf[byteLen] := v;
    assert qbuf[..byteLen] == vals && qbuf[..byteLen + 1] == vals + [v];
    if v == IL || (illegalPads && v == PD) {
      more := parse == ParseAny;
    } else if v == SP {
      more := parse != ParseStrict;
    } else if v == PD {
      if byteLen < 2 {
        more := parse == ParseAny;
      } else if byteLen + padLen >= 4 {
        more := parse == ParseAny;
      } else {
        padLen' := padLen + 1;
        if padLen' == 1 {
          padStart' := dpos;
        }
      }
    } else {
      if padLen > 0 {
        if parse != ParseAny {
          more := false;
          return;
        }
        padLen' := 0;
      }
      byteLen' := byteLen + 1;
    }
  }

  /** `GetNextQuantum`. */
  method GetNextQuantum(parse: ParseFlag, illegalPads: bool, data: octets, start: nat, qbuf: array<octet>)
    returns (byteLen: nat, dpos: nat, padded: bool)
    requires start <= |data| && qbuf.Length == 4
    modifies qbuf
    ensures var q := NextQuantum(parse, illegalPads, data, start);
      && byteLen == |q.vals| && dpos == q.pos && padded == q.padded
      && forall i :: 0 <= i < 4 ==> qbuf[i] == At(q.vals, i)
  {
    hide Scan, ScanStep;
    var padLen: nat, padStart: nat := 0, 0;
    byteLen, dpos := 0, start;
    ghost var all := Scan(parse, illegalPads, data, Scanned([], 0, 0, start));
    var more := true;
    while more && byteLen < 4 && dpos < |data|
      invariant byteLen <= 4 && start <= dpos <= |data| && padStart <= dpos
      invariant Scan(parse, illegalPads, data, Scanned(qbuf[..byteLen], padLen, padStart, dpos)) == all
      invariant !more ==> Scanned(qbuf[..byteLen], padLen, padStart, dpos) == all
      decreases |data| - dpos, more
    {
      ScanOnce(parse, illegalPads, data, Scanned(qbuf[..byteLen], padLen, padStart, dpos));
      more, byteLen, padLen, padStart := ScanChar(parse, illegalPads, data, qbuf, byteLen, padLen, padStart, dpos);
      if more {
        dpos := dpos + 1;
      }
    }
    if more { ScanEnds(parse, illegalPads, data, Scanned(qbuf[..byteLen], padLen, padStart, dpos)); }
    ghost var vals := qbuf[..byteLen];
    for i := byteLen to 4
      invariant qbuf[..byteLen] == vals && forall k :: byteLen <= k < i ==> qbuf[k] == 0
    {
      qbuf[i] := 0;
    }
    assert forall i :: 0 <= i < byteLen ==> qbuf[i] == vals[i];
    padded := byteLen + padLen == 4;
    if !padded && padLen > 0 {
      dpos := padStart;
    }
  }

  /** The bytes of a quantum and what is left of its bits. */
  method PushBytes(qbuf: array<octet>, qlen: nat, ghost vals: octets, result: octets)
    returns (longer: octets, c: octet)
    requires qbuf.Length == 4 && qlen == |vals| <= 4 && forall i :: 0 <= i < 4 ==> qbuf[i] == At(vals, i)
    ensures longer == result + QuantumBytes(vals)
    ensures qlen < 4 ==> c == UnusedBits(vals)
  {
    hide Byte0, Byte1, Byte2;
    longer := result;
    c := Byte0(qbuf[0], qbuf[1]);
    if qlen >= 2 {
      longer := longer + [c];
      c := Byte1(qbuf[1], qbuf[2]);
      if qlen >= 3 {
        longer := longer + [c];
        c := Byte2(qbuf[2], qbuf[3]);
        if qlen >= 4 {
          longer := longer + [c];
          c := 0;
        }
      }
    }
  }

  function Prepend(before: octets, d: Decoded): Decoded {
    d.(result := before + d.result)
  }

  lemma PrependTwice(a: octets, b: octets, d: Decoded)
    ensures Prepend(a, Prepend(b, d)) == Prepend(a + b, d)
  {
    assert a + (b + d.result) == a + b + d.result;
  }

  /** A quantum that is not the last. */
  lemma DecodeOn(flags: Flags, data: octets, pos: nat)
    requires pos < |data| && |NextQuantum(flags.parse, flags.pad == PadNo, data, pos).vals| == 4
    ensures var q := NextQuantum(flags.parse, flags.pad == PadNo, data, pos);
      pos < q.pos && DecodeFrom(flags, data, pos) == Prepend(QuantumBytes(q.vals), DecodeFrom(flags, data, q.pos))
  {
    hide NextQuantum, QuantumBytes;
    QuantumAdvances(flags.parse, flags.pad == PadNo, data, pos);
  }

  /** `DecodeFromArrayTemplate`. */
  method DecodeFromArray(data: octets, flags: Flags) returns (success: bool, result: octets, used: nat)
    ensures Decoded(success, result, used) == Decode(flags, data)
  {
    hide NextQuantum, QuantumBytes, UnusedBits;
    result, success := [], true;
    var dpos := 0;
    var qbuf := new octet[4];
    ghost var all := Decode(flags, data);
    while dpos < |data|
      invariant dpos <= |data| && success
      invariant all == Prepend(result, DecodeFrom(flags, data, dpos))
      decreases |data| - dpos
    {
      ghost var start, before := dpos, result;
      ghost var q := NextQuantum(flags.parse, flags.pad == PadNo, data, dpos);
      var qlen, padded, c;
      qlen, dpos, padded := GetNextQuantum(flags.parse, flags.pad == PadNo, data, dpos, qbuf);
      result, c := PushBytes(qbuf, qlen, q.vals, result);
      if qlen < 4 {
        if flags.term != TermAny && c != 0 {
          success := false;  // unused bits
        }
        if flags.pad == PadYes && !padded {
          success := false;  // expected padding
        }
        if flags.term == TermBuffer && dpos != |data| {
          success := false;  // unused chars
        }
        return success, result, dpos;
      }
      hide DecodeFrom, Prepend;
      DecodeOn(flags, data, start);
      PrependTwice(before, QuantumBytes(q.vals), DecodeFrom(flags, data, dpos));
    }
    used := dpos;
  }

  // ---------- the strictest decoding inverts encoding, and accepts nothing else ----------

  function Pads(n: nat): (r: octets)
    ensures |r| == n
  {
    seq(n, _ => PAD)
  }

  /** The six-bit values that one to three bytes are encoded with. */
  function Sextets(data: octets): (r: octets)
    requires 1 <= |data| <= 3
    ensures |r| == |data| + 1
  {
    if |data| == 1 then [Sextet0(data[0]), Sextet1(data[0], 0)]
    else if |data| == 2 then [Sextet0(data[0]), Sextet1(data[0], data[1]), Sextet2(data[1], 0)]
    else [Sextet0(data[0]), Sextet1(data[0], data[1]), Sextet2(data[1], data[2]), Sextet3(data[2])]
  }

  ghost predicate Small(vals: octets) {
    forall i :: 0 <= i < |vals| ==> vals[i] < 64
  }

  lemma BitsA(a: octet, b: octet)
    ensures Sextet0(a) < 64 && Sextet1(a, b) < 64 && Byte0(Sextet0(a), Sextet1(a, b)) == a
  {
  }

  lemma BitsB(a: octet, b: octet, c: octet)
    ensures Sextet2(b, c) < 64 && Byte1(Sextet1(a, b), Sextet2(b, c)) == b
    ensures Byte1(Sextet1(a, 0), 0) == 0
  {
  }

  lemma BitsC(b: octet, c: octet)
    ensures Sextet3(c) < 64 && Byte2(Sextet2(b, c), Sextet3(c)) == c && Byte2(Sextet2(b, 0), 0) == 0
  {
  }

  /** The bytes come back from their values, and no bit is wasted. */
  lemma BitsOfBytes(data: octets)
    requires 1 <= |data| <= 3
    ensures var s := Sextets(data);
      Small(s) && QuantumBytes(s) == data && (|data| < 3 ==> UnusedBits(s) == 0)
  {
    hide Sextet0, Sextet1, Sextet2, Sextet3, Byte0, Byte1, Byte2;
    var b, c := At(data, 1), At(data, 2);
    BitsA(data[0], b);
    BitsB(data[0], b, c);
    BitsC(b, c);
  }

  lemma SextetsA(s0: octet, s1: octet, s2: octet)
    requires s0 < 64 && s1 < 64 && s2 < 64
    ensures Sextet0(Byte0(s0, s1)) == s0 && Sextet1(Byte0(s0, s1), Byte1(s1, s2)) == s1
    ensures Byte1(s1, 0) == 0 ==> Sextet1(Byte0(s0, s1), 0) == s1
  {
  }

  lemma SextetsB(s1: octet, s2: octet, s3: octet)
    requires s1 < 64 && s2 < 64 && s3 < 64
    ensures Sextet2(Byte1(s1, s2), Byte2(s2, s3)) == s2 && Sextet3(Byte2(s2, s3)) == s3
    ensures Byte2(s2, 0) == 0 ==> Sextet2(Byte1(s1, s2), 0) == s2
  {
  }

  /** The values come back from the bytes, if no bit is wasted. */
  lemma BitsOfSextets(vals: octets)
    requires Small(vals) && 2 <= |vals| <= 4 && (|vals| < 4 ==> UnusedBits(vals) == 0)
    ensures |QuantumBytes(vals)| == |vals| - 1 && vals == Sextets(QuantumBytes(vals))
  {
    hide Sextet0, Sextet1, Sextet2, Sextet3, Byte0, Byte1, Byte2;
    var (s0, s1, s2, s3) := (At(vals, 0), At(vals, 1), At(vals, 2), At(vals, 3));
    SextetsA(s0, s1, s2);
    SextetsB(s1, s2, s3);
  }

  /** What a strict scan has taken is the characters of its values and then pads. */
  ghost predicate Taken(data: octets, start: nat, s: Scanned) {
    && InScan(data, s) && start <= s.pos
    && data[start..s.pos] == Chars(s.vals) + Pads(s.pads)
    && Small(s.vals) && |s.vals| + s.pads <= 4 && (s.pads > 0 ==> |s.vals| >= 2)
  }

  lemma StrictStep(data: octets, start: nat, s: Scanned)
    requires Taken(data, start, s) && s.pos < |data| && |s.vals| < 4
    ensures Taken(data, start, ScanStep(ParseStrict, false, data, s))
  {
    var ch := data[s.pos];
    var v, r := Table(ch), ScanStep(ParseStrict, false, data, s);
    hide Char, Table;
    if r != s {
      assert data[start..r.pos] == data[start..s.pos] + [ch];
      if v == PD {
        PadOfTable(ch);
        assert Pads(s.pads) + [PAD] == Pads(r.pads);
      } else {
        CharOfTable(ch);
        assert Chars(s.vals) + [ch] == Chars(r.vals);
        assert Pads(0) == [];
      }
    }
  }

  lemma PadOfTable(ch: octet)
    ensures Table(ch) == PD <==> ch == PAD
  {
  }

  lemma {:induction false} StrictScan(data: octets, start: nat, s: Scanned)
    requires Taken(data, start, s)
    ensures Taken(data, start, Scan(ParseStrict, false, data, s))
    decreases |data| - s.pos
  {
    if |s.vals| < 4 && s.pos < |data| {
      hide ScanStep, Taken;
      var next := ScanStep(ParseStrict, false, data, s);
      if next != s {
        StrictStep(data, start, s);
        StrictScan(data, start, next);
      }
    }
  }

  /** The characters that a strict quantum with all its bits in use has taken. */
  lemma StrictQuantum(data: octets, pos: nat)
    requires pos <= |data|
    ensures var q := NextQuantum(ParseStrict, false, data, pos);
      var bytes := QuantumBytes(q.vals);
      q.padded && (|q.vals| < 4 ==> UnusedBits(q.vals) == 0) ==>
        pos < q.pos && bytes != [] && data[pos..q.pos] == FirstGroup(bytes)
        && (|q.vals| == 4 <==> |bytes| == 3) && |bytes| <= 3
  {
    var s := Scan(ParseStrict, false, data, Scanned([], 0, 0, pos));
    StrictScan(data, pos, Scanned([], 0, 0, pos));
    var q := NextQuantum(ParseStrict, false, data, pos);
    hide Scan, Char;
    if q.padded && (|q.vals| < 4 ==> UnusedBits(q.vals) == 0) {
      BitsOfSextets(s.vals);
      GroupIsSextets(QuantumBytes(s.vals));
    }
  }

  lemma GroupIsSextets(data: octets)
    requires 1 <= |data| <= 3
    ensures FirstGroup(data) == Chars(Sextets(data)) + Pads(3 - |data|)
  {
    hide Sextet0, Sextet1, Sextet2, Sextet3, Char;
  }

  lemma {:induction false} StrictOnlyEncoded(data: octets, pos: nat)
    requires pos <= |data| && DecodeFrom(STRICT, data, pos).success
    ensures data[pos..] == Encode(DecodeFrom(STRICT, data, pos).result)
    decreases |data| - pos
  {
    hide NextQuantum, QuantumBytes, UnusedBits, FirstGroup;
    if pos < |data| {
      var q := NextQuantum(ParseStrict, false, data, pos);
      var bytes := QuantumBytes(q.vals);
      StrictQuantum(data, pos);
      if |q.vals| == 4 {
        FullQuantumPadded(data, pos);
        StrictOnlyEncoded(data, q.pos);
        var rest := DecodeFrom(STRICT, data, q.pos).result;
        assert data[pos..] == data[pos..q.pos] + data[q.pos..];
        EncodeGroups(bytes, rest);
      } else {
        assert data[pos..q.pos] == data[pos..];
        EncodeGroups(bytes, []);
        assert bytes + [] == bytes && FirstGroup(bytes) + [] == FirstGroup(bytes);
      }
    }
  }

  lemma FullQuantumPadded(data: octets, pos: nat)
    requires pos <= |data|
    ensures var q := NextQuantum(ParseStrict, false, data, pos); |q.vals| == 4 ==> q.padded
  {
    StrictScan(data, pos, Scanned([], 0, 0, pos));
  }

  lemma EncodeGroups(bytes: octets, rest: octets)
    requires 1 <= |bytes| <= 3 && (|bytes| < 3 ==> rest == [])
    ensures Encode(bytes + rest) == FirstGroup(bytes) + Encode(rest)
  {
    hide Char, Sextet0, Sextet1, Sextet2, Sextet3;
    var all := bytes + rest;
    assert all[if |all| < 3 then |all| else 3..] == rest;
  }

  // ---------- and conversely ----------

  /** The characters of `vals` are in `data` from `start` on. */
  ghost predicate Holds(data: octets, start: nat, vals: octets) {
    start + |vals| <= |data| && Small(vals) && forall i :: 0 <= i < |vals| ==> data[start + i] == Char(vals[i])
  }

  /** A strict scan collects characters of values. */
  lemma {:induction false} ScanChars(data: octets, start: nat, vals: octets, j: nat)
    requires Holds(data, start, vals) && j <= |vals| <= 4
    ensures Scan(ParseStrict, false, data, Scanned(vals[..j], 0, 0, start + j))
            == Scan(ParseStrict, false, data, Scanned(vals, 0, 0, start + |vals|))
    decreases |vals| - j
  {
    hide Char, Table, Scan, ScanStep;
    if j == |vals| {
      assert vals[..j] == vals;
    } else {
      assert data[start + j] == Char(vals[j]);
      ScanOneChar(data, Scanned(vals[..j], 0, 0, start + j), vals[j]);
      assert vals[..j] + [vals[j]] == vals[..j + 1];
      ScanChars(data, start, vals, j + 1);
    }
  }

  lemma ScanOneChar(data: octets, s: Scanned, v: octet)
    requires InScan(data, s) && s.pads == 0 && |s.vals| < 4 && s.pos < |data|
    requires data[s.pos] == Char(v) && v < 64
    ensures Scan(ParseStrict, false, data, s)
            == Scan(ParseStrict, false, data, Scanned(s.vals + [v], 0, s.padStart, s.pos + 1))
  {
    TableOfChar(v);
    hide Char, Table;
    assert ScanStep(ParseStrict, false, data, s) == Scanned(s.vals + [v], 0, s.padStart, s.pos + 1);
    ScanOnce(ParseStrict, false, data, s);
  }

  /** A strict scan takes the pads that complete two or three values. */
  lemma {:induction false} ScanPads(data: octets, s: Scanned)
    requires InScan(data, s) && 2 <= |s.vals| < 4 && |s.vals| + s.pads <= 4
    requires s.pos + (4 - |s.vals| - s.pads) == |data|
    requires forall i :: s.pos <= i < |data| ==> data[i] == PAD
    ensures var r := Scan(ParseStrict, false, data, s);
      r.vals == s.vals && |r.vals| + r.pads == 4 && r.pos == |data|
    decreases |data| - s.pos
  {
    if s.pos < |data| {
      PadOfTable(data[s.pos]);
      hide Table;
      ScanOnce(ParseStrict, false, data, s);
      ScanPads(data, ScanStep(ParseStrict, false, data, s));
    }
  }

  lemma GroupChars(bytes: octets)
    requires 1 <= |bytes| <= 3
    ensures forall i :: 0 <= i <= |bytes| ==> FirstGroup(bytes)[i] == Char(Sextets(bytes)[i])
    ensures forall i :: |bytes| < i < 4 ==> FirstGroup(bytes)[i] == PAD
  {
    hide FirstGroup, Sextets, Char;
    GroupIsSextets(bytes);
  }

  lemma QuantumOfGroup(data: octets, pos: nat, bytes: octets)
    requires 1 <= |bytes| <= 3 && pos + 4 <= |data| && data[pos..pos + 4] == FirstGroup(bytes)
    requires |bytes| < 3 ==> pos + 4 == |data|
    ensures NextQuantum(ParseStrict, false, data, pos) == Quantum(Sextets(bytes), true, pos + 4)
  {
    hide Char, Table, Sextets, FirstGroup, Scan, Chars, Pads, ScanStep, QuantumBytes, UnusedBits;
    var vals := Sextets(bytes);
    BitsOfBytes(bytes);
    GroupInPlace(data, pos, bytes);
    ScanChars(data, pos, vals, 0);
    assert vals[..0] == [];
    var mid := Scanned(vals, 0, 0, pos + |vals|);
    if |vals| == 4 {
      ScanEnds(ParseStrict, false, data, mid);
    } else {
      ScanPads(data, mid);
    }
  }

  lemma GroupInPlace(data: octets, pos: nat, bytes: octets)
    requires 1 <= |bytes| <= 3 && pos + 4 <= |data| && data[pos..pos + 4] == FirstGroup(bytes)
    requires Small(Sextets(bytes))
    ensures Holds(data, pos, Sextets(bytes))
    ensures forall i :: pos + |bytes| < i < pos + 4 ==> data[i] == PAD
  {
    hide Char, Sextets, FirstGroup;
    GroupChars(bytes);
    var g := FirstGroup(bytes);
    assert forall i :: 0 <= i < 4 ==> data[pos + i] == data[pos..pos + 4][i] == g[i];
    forall i | pos + |bytes| < i < pos + 4
      ensures data[i] == PAD
    {
      assert data[pos + (i - pos)] == g[i - pos];
    }
  }

  lemma {:induction false} StrictDecodesEncoded(data: octets, pos: nat, x: octets)
    requires pos <= |data| && data[pos..] == Encode(x)
    ensures DecodeFrom(STRICT, data, pos) == Decoded(true, x, |data|)
    decreases |x|
  {
    hide NextQuantum, QuantumBytes, UnusedBits, FirstGroup, Sextets;
    if x != [] {
      var k := if |x| < 3 then |x| else 3;
      var bytes, rest := x[..k], x[k..];
      assert bytes + rest == x;
      EncodeGroups(bytes, rest);
      assert data[pos..pos + 4] == data[pos..][..4] == FirstGroup(bytes);
      assert data[pos + 4..] == data[pos..][4..] == Encode(rest);
      if k < 3 { assert Encode(rest) == []; }
      QuantumOfGroup(data, pos, bytes);
      BitsOfBytes(bytes);
      if k == 3 {
        StrictDecodesEncoded(data, pos + 4, rest);
      }
    }
  }

  /** Strict decoding succeeds on exactly the strings that encoding produces, and inverts it: an
  accepted string is the canonical encoding of its result. */
  lemma StrictIsInverse(data: octets)
    ensures Decode(STRICT, data).success <==> exists x :: data == Encode(x)
    ensures Decode(STRICT, data).success ==> data == Encode(Decode(STRICT, data).result)
    ensures forall x :: data == Encode(x) ==> Decode(STRICT, data) == Decoded(true, x, |data|)
  {
    hide DecodeFrom;
    assert data[0..] == data;
    if Decode(STRICT, data).success {
      StrictOnlyEncoded(data, 0);
    }
    forall x | data == Encode(x)
      ensures Decode(STRICT, data) == Decoded(true, x, |data|)
    {
      StrictDecodesEncoded(data, 0, x);
    }
  }
}
