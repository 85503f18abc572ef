/** MD5 over a message that arrives in pieces.  The compression function `MD5Transform` is a
parameter; everything around it is that of RFC 1321. */
module Md5 {
  import opened Bytes

  datatype Words = Words(a: uint32, b: uint32, c: uint32, d: uint32)

  /** The four words of section 3.3 of RFC 1321. */
  const Initial := Words(0x67452301, 0xefcdab89, 0x98badcfe, 0x10325476)

  type Transform = (Words, bytes) -> Words

  // ---------- RFC 1321 ----------

  /** `n` as `k` bytes, least significant first. */
  function LittleEndian(n: nat, k: nat): (r: bytes)
    ensures |r| == k
  {
    if k == 0 then [] else [n % 256] + LittleEndian(n / 256, k - 1)
  }

  function Zeros(n: nat): (r: bytes)
    ensures |r| == n && forall i :: 0 <= i < n ==> r[i] == 0
  {
    seq(n, _ => 0)
  }

  /** The number of zero bytes that bring a message of `n` bytes and the 0x80 to 56 modulo 64. */
  function ZeroCount(n: nat): (k: nat)
    ensures (n + 1 + k) % 64 == 56 && k < 64
    ensures (n + 1 + k + 8) % 64 == 0
  {
    var rest := n % 64;
    if rest < 56 then 55 - rest else 119 - rest
  }

  /** The length in bits of `n` bytes, modulo 2^64. */
  function BitLength(n: nat): nat {
    8 * n % (WRAP * WRAP)
  }

  /** Sections 3.1 and 3.2: a one bit, zeros, and the length in bits modulo 2^64. */
  function Padded(msg: bytes): (r: bytes)
    ensures |r| % 64 == 0
  {
    hide BitLength, LittleEndian, ZeroCount;
    msg + [0x80] + Zeros(ZeroCount(|msg|)) + LittleEndian(BitLength(|msg|), 8)
  }

  /** Section 3.4: the blocks one after the other. */
  function Fold(transform: Transform, h: Words, data: bytes): Words
    requires |data| % 64 == 0
  {
    if data == [] then h
    else transform(Fold(transform, h, data[..|data| - 64]), data[|data| - 64..])
  }

  /** Section 3.5. */
  function Digest(h: Words): bytes {
    LittleEndian(h.a, 4) + LittleEndian(h.b, 4) + LittleEndian(h.c, 4) + LittleEndian(h.d, 4)
  }

  function MD5(transform: Transform, msg: bytes): bytes {
    Digest(Fold(transform, Initial, Padded(msg)))
  }

  /** The initial words as section 3.3 prints them, low-order bytes first. */
  lemma InitialIs()
    ensures Digest(Initial) == [0x01, 0x23, 0x45, 0x67, 0x89, 0xab, 0xcd, 0xef,
                                0xfe, 0xdc, 0xba, 0x98, 0x76, 0x54, 0x32, 0x10]
  {
    hide LittleEndian;
    FourBytes(0x67452301);
    FourBytes(0xefcdab89);
    FourBytes(0x98badcfe);
    FourBytes(0x10325476);
  }

  lemma FourBytes(n: nat)
    ensures LittleEndian(n, 4) == [n % 256, n / 256 % 256, n / 256 / 256 % 256, n / 256 / 256 / 256 % 256]
  {
    assert LittleEndian(n / 256 / 256 / 256, 1) == [n / 256 / 256 / 256 % 256] + [];
    assert LittleEndian(n / 256 / 256, 2) == [n / 256 / 256 % 256] + LittleEndian(n / 256 / 256 / 256, 1);
    assert LittleEndian(n / 256, 3) == [n / 256 % 256] + LittleEndian(n / 256 / 256, 2);
  }

  lemma FoldBlock(transform: Transform, h: Words, data: bytes, block: bytes)
    requires |data| % 64 == 0 && |block| == 64
    ensures (|data| + 64) % 64 == 0
    ensures Fold(transform, h, []) == h
    ensures Fold(transform, h, data + block) == transform(Fold(transform, h, data), block)
  {
    assert (data + block)[..|data|] == data && (data + block)[|data|..] == block;
  }

  function FromLittleEndian(s: bytes): nat {
    if s == [] then 0 else s[0] + 256 * FromLittleEndian(s[1..])
  }

  lemma {:induction false} LittleEndianReadsBack(n: nat, k: nat)
    requires n < Pow256(k)
    ensures FromLittleEndian(LittleEndian(n, k)) == n
  {
    if k > 0 {
      LittleEndianReadsBack(n / 256, k - 1);
      assert LittleEndian(n, k)[1..] == LittleEndian(n / 256, k - 1);
    }
  }

  lemma {:induction false} LittleEndianJoins(lo: nat, hi: nat, j: nat, k: nat)
    requires lo < Pow256(j)
    ensures LittleEndian(lo + Pow256(j) * hi, j + k) == LittleEndian(lo, j) + LittleEndian(hi, k)
    decreases j
  {
    if j == 0 {
      assert LittleEndian(hi, k) == [] + LittleEndian(hi, k);
    } else {
      assert Pow256(j) * hi == 256 * (Pow256(j - 1) * hi);
      LowByte(lo, Pow256(j - 1) * hi);
      LittleEndianJoins(lo / 256, hi, j - 1, k);
    }
  }

  lemma LowByte(lo: nat, above: nat)
    ensures (lo + 256 * above) % 256 == lo % 256 && (lo + 256 * above) / 256 == lo / 256 + above
  {
  }

  /** A padded message byte by byte: the message, a one bit, as few zeros as make whole blocks, and the
  number of bits in 64 bits, least significant byte first. */
  lemma PaddedIs(msg: bytes)
    ensures var r, n := Padded(msg), |msg|;
      && |r| % 64 == 0 && n + 9 <= |r| < n + 9 + 64
      && r[..n] == msg && r[n] == 0x80
      && (forall i :: n < i < |r| - 8 ==> r[i] == 0)
      && FromLittleEndian(r[|r| - 8..]) == 8 * n % 0x1_0000_0000_0000_0000
  {
    hide LittleEndian, FromLittleEndian, ZeroCount;
    var r, n, k := Padded(msg), |msg|, ZeroCount(|msg|);
    assert r[|r| - 8..] == LittleEndian(BitLength(n), 8);
    assert Pow256(8) == 0x1_0000_0000_0000_0000 by {
      assert Pow256(4) == 0x1_0000_0000;
    }
    LittleEndianReadsBack(BitLength(n), 8);
    assert r == msg + ([0x80] + Zeros(k) + LittleEndian(BitLength(n), 8));
    assert forall i :: n < i < |r| - 8 ==> r[i] == Zeros(k)[i - n - 1];
  }

  /** Padding loses nothing: messages below 2^61 bytes that pad alike are alike. */
  lemma PaddingIsInjective(a: bytes, b: bytes)
    requires |a| < WRAP * WRAP / 8 && |b| < WRAP * WRAP / 8
    requires Padded(a) == Padded(b)
    ensures a == b
  {
    hide LittleEndian, FromLittleEndian;
    var p := Padded(a);
    var tailA, tailB := LittleEndian(8 * |a|, 8), LittleEndian(8 * |b|, 8);
    assert p[|p| - 8..] == tailA && p[|p| - 8..] == tailB;
    assert |a| == |b| by {
      assert Pow256(4) == WRAP;
      assert Pow256(8) == 256 * (256 * (256 * (256 * Pow256(4))));
      LittleEndianReadsBack(8 * |a|, 8);
      LittleEndianReadsBack(8 * |b|, 8);
    }
    assert a == p[..|a|] && b == p[..|b|];
  }

  // ---------- the streaming context ----------

  /** Messages before their last, incomplete block. */
  function Whole(n: nat): (m: nat)
    ensures m <= n && m % 64 == 0 && n - m == n % 64
  {
    n - n % 64
  }

  /** The two counter words hold the length in bits of `n` bytes, modulo 2^64. */
  ghost predicate IsBitLength(bits0: uint32, bits1: uint32, n: nat) {
    bits0 + WRAP * bits1 == BitLength(n)
  }

  class MD5Context {
    const transform: Transform
    var buf: Words
    var bits0: uint32
    var bits1: uint32
    const inBlock: array<byte>
    // The message so far.
    ghost var msg: bytes

    /** `MD5Init`. */
    constructor (transform: Transform)
      ensures Valid() && msg == [] && this.transform == transform && fresh(inBlock)
    {
      this.transform := transform;
      buf := Initial;
      bits0, bits1 := 0, 0;
      inBlock := new byte[64];
      msg := [];
    }

    /** The two counter words are the bit length modulo 2^64, the state is the fold over the whole
    blocks, and the incomplete block is buffered. */
    ghost predicate Valid()
      reads this, inBlock
    {
      && inBlock.Length == 64
      && IsBitLength(bits0, bits1, |msg|)
      && Chained(msg)
    }

    ghost predicate Chained(m: bytes)
      reads this`buf, inBlock
    {
      && inBlock.Length == 64
      && buf == Fold(transform, Initial, m[..Whole(|m|)])
      && inBlock[..|m| % 64] == m[Whole(|m|)..]
    }

    /** Copies `data` to the buffer at `at`. */
    method CopyIn(at: nat, data: bytes)
      requires at + |data| <= inBlock.Length
      modifies inBlock
      ensures inBlock[..] == old(inBlock[..at]) + data + old(inBlock[at + |data|..])
    {
      forall i | 0 <= i < |data| {
        inBlock[at + i] := data[i];
      }
    }

    /** Completes the buffered block with `data` and hashes it. */
    method HashBlock(ghost m: bytes, data: bytes)
      requires Chained(m) && |m| % 64 + |data| == 64
      modifies this`buf, inBlock
      ensures Chained(m + data)
    {
      ghost var done, part := m[..Whole(|m|)], inBlock[..|m| % 64];
      CopyIn(64 - |data|, data);
      assert inBlock[..] == part + data;
      FoldBlock(transform, Initial, done, part + data);
      buf := transform(buf, inBlock[..]);
      assert done + (part + data) == m + data;
      assert (m + data)[..Whole(|m + data|)] == m + data;
    }

    /** The bit counter. */
    method Count(len: nat)
      requires len < WRAP * WRAP
      requires IsBitLength(bits0, bits1, |msg|)
      modifies this`bits0, this`bits1
      ensures IsBitLength(bits0, bits1, |msg| + len)
    {
      var t := bits0;
      bits0 := (t + len % WRAP * 8 % WRAP) % WRAP;
      ghost var carry := if bits0 < t then 1 else 0;
      if bits0 < t {
        bits1 := (bits1 + 1) % WRAP;
      }
      bits1 := (bits1 + len / 0x2000_0000 % WRAP) % WRAP;
      CountAdds(t, old(bits1), len, carry, bits0, bits1, |msg|);
    }

    /** Buffers bytes that do not complete a block. */
    method Extend(ghost m: bytes, at: nat, data: bytes)
      requires Chained(m) && at == |m| % 64 && at + |data| < 64
      modifies inBlock
      ensures Chained(m + data)
    {
      hide Fold;
      CopyIn(at, data);
      assert inBlock[..|m + data| % 64] == m[Whole(|m|)..] + data;
      assert (m + data)[..Whole(|m + data|)] == m[..Whole(|m|)];
    }

    /** The rest of `MD5Update`, from a block boundary: hashes whole blocks, buffers what remains. */
    method HashRest(ghost before: bytes, data: bytes, start: nat)
      requires start <= |data| && |before + data[..start]| % 64 == 0 && Chained(before + data[..start])
      modifies this`buf, inBlock
      ensures Chained(before + data)
    {
      hide Fold, Whole, MD5Context.Chained;
      var pos := start;
      ghost var taken := before + data[..pos];
      while |data| - pos >= 64
        invariant pos <= |data| && taken == before + data[..pos] && |taken| % 64 == 0 && Chained(taken)
      {
        var block := data[pos..pos + 64];
        HashBlock(taken, block);
        Piece(before, data, pos, 64);
        taken := taken + block;
        pos := pos + 64;
      }
      Rejoin(before, data, pos);
      Extend(taken, 0, data[pos..]);
    }

    lemma Piece(before: bytes, data: bytes, pos: nat, n: nat)
      requires pos + n <= |data|
      ensures before + data[..pos] + data[pos..pos + n] == before + data[..pos + n]
    {
    }

    lemma Rejoin(before: bytes, data: bytes, pos: nat)
      requires pos <= |data|
      ensures before + data[..pos] + data[pos..] == before + data
    {
      assert data[..pos] + data[pos..] == data;
    }

    /** `MD5Update`. */
    method Update(data: bytes)
      requires Valid() && |data| < WRAP * WRAP
      modifies this, inBlock
      ensures Valid() && msg == old(msg) + data
    {
      hide Fold, Whole, IsBitLength, MD5Context.Chained;
      BytesBuffered(bits0, bits1, |msg|);
      var t := bits0 / 8 % 64;
      Count(|data|);
      ghost var before := msg;
      msg := msg + data;
      assert |msg| == |before| + |data|;
      if t != 0 {
        if |data| < 64 - t {
          Extend(before, t, data);
          return;
        }
        assert |before + data[..64 - t]| == |before| + (64 - t);
        HashBlock(before, data[..64 - t]);
        Aligned(|before|, t);
        HashRest(before, data, 64 - t);
      } else {
        assert before + data[..0] == before;
        HashRest(before, data, 0);
      }
    }

    /** Pads to 56 modulo 64. */
    method Pad(count: nat)
      requires Chained(msg) && count == |msg| % 64
      modifies this`buf, inBlock
      ensures Chained(msg + [0x80] + Zeros(ZeroCount(|msg|)))
    {
      hide Fold, Whole, MD5Context.Chained;
      var space := 64 - 1 - count;
      if space < 8 {
        HashBlock(msg, [0x80] + Zeros(space));
        ghost var m := msg + ([0x80] + Zeros(space));
        Extend(m, 0, Zeros(56));
        assert m + Zeros(56) == msg + [0x80] + Zeros(ZeroCount(|msg|));
      } else {
        Extend(msg, count, [0x80] + Zeros(space - 8));
        assert msg + ([0x80] + Zeros(space - 8)) == msg + [0x80] + Zeros(ZeroCount(|msg|));
      }
    }

    /** `MD5Final`: the digest of all that was added, and the context wiped. */
    method Final() returns (digest: bytes)
      requires Valid()
      modifies this, inBlock
      ensures digest == MD5(transform, old(msg))
      ensures buf == Words(0, 0, 0, 0) && bits0 == 0 && bits1 == 0 && inBlock[..] == Zeros(64)
    {
      hide Fold, Whole, MD5Context.Chained, LittleEndian;
      BytesBuffered(bits0, bits1, |msg|);
      var count := bits0 / 8 % 64;
      Pad(count);
      ghost var m := msg + [0x80] + Zeros(ZeroCount(|msg|));
      LengthBytes(bits0, bits1);
      HashBlock(m, LittleEndian(bits0, 4) + LittleEndian(bits1, 4));
      assert buf == Fold(transform, Initial, Padded(msg)) by { FoldedAll(Padded(msg)); }
      digest := Digest(buf);
      buf, bits0, bits1 := Words(0, 0, 0, 0), 0, 0;
      CopyIn(0, Zeros(64));
    }

    lemma FoldedAll(m: bytes)
      requires Chained(m) && |m| % 64 == 0
      ensures buf == Fold(transform, Initial, m)
    {
      assert m[..Whole(|m|)] == m;
    }
  }

  lemma LengthBytes(bits0: uint32, bits1: uint32)
    ensures LittleEndian(bits0 + WRAP * bits1, 8) == LittleEndian(bits0, 4) + LittleEndian(bits1, 4)
  {
    assert Pow256(4) == WRAP;
    LittleEndianJoins(bits0, bits1, 4, 4);
  }

  lemma Aligned(n: nat, t: nat)
    requires t == n % 64
    ensures (n + (64 - t)) % 64 == 0
  {
  }

  lemma SameModulo(a: nat, k: nat)
    ensures (a + 64 * k) % 64 == a % 64
  {
  }

  lemma BytesBuffered(bits0: uint32, bits1: uint32, n: nat)
    requires IsBitLength(bits0, bits1, n)
    ensures bits0 / 8 % 64 == n % 64
  {
    var k := 8 * n / (WRAP * WRAP);
    assert 8 * n == bits0 + WRAP * (bits1 + WRAP * k);
    var j := bits1 + WRAP * k;
    assert n == bits0 / 8 + 0x2000_0000 * j == bits0 / 8 + 64 * (0x80_0000 * j);
    SameModulo(bits0 / 8, 0x80_0000 * j);
  }

  lemma LowBits(len: nat)
    ensures len % WRAP * 8 % WRAP == len % 0x2000_0000 * 8
    ensures 8 * len == len % 0x2000_0000 * 8 + WRAP * (len / 0x2000_0000)
  {
    var hi, lo := len / 0x2000_0000, len % 0x2000_0000;
    assert len == lo + 0x2000_0000 * hi;
    assert len % WRAP == lo + 0x2000_0000 * (hi % 8);
  }

  lemma CountAdds(t: uint32, bits1: uint32, len: nat, carry: nat, low: uint32, high: uint32, n: nat)
    requires len < WRAP * WRAP
    requires t + WRAP * bits1 == 8 * n % (WRAP * WRAP)
    requires low == (t + len % WRAP * 8 % WRAP) % WRAP
    requires carry == if low < t then 1 else 0
    requires high == ((if carry == 1 then (bits1 + 1) % WRAP else bits1) + len / 0x2000_0000 % WRAP) % WRAP
    ensures low + WRAP * high == 8 * (n + len) % (WRAP * WRAP)
  {
    LowBits(len);
    var add, hi := len % 0x2000_0000 * 8, len / 0x2000_0000;
    Carry(t, add, low);
    var sum := bits1 + carry + hi;
    HighSum(if carry == 1 then bits1 + 1 else bits1, hi);
    assert high == sum % WRAP;
    var y, z := sum / WRAP, 8 * n / (WRAP * WRAP);
    assert sum == high + WRAP * y;
    assert 8 * n == t + WRAP * bits1 + WRAP * WRAP * z;
    RemainderIs(8 * (n + len), low + WRAP * high, y + z);
  }

  /** The carry out of the low word. */
  lemma Carry(t: uint32, add: uint32, low: uint32)
    requires low == (t + add) % WRAP
    ensures t + add == low + WRAP * (if low < t then 1 else 0)
  {
  }

  lemma HighSum(a: nat, b: nat)
    ensures (a % WRAP + b % WRAP) % WRAP == (a + b) % WRAP
  {
  }

  lemma RemainderIs(x: nat, r: nat, k: nat)
    requires x == r + WRAP * WRAP * k && r < WRAP * WRAP
    ensures x % (WRAP * WRAP) == r
  {
  }
}
