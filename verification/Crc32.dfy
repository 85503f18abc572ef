/** CRC-32 as in section 8 of RFC 1952: the table-driven loop, bit-at-a-time division, and the
polynomial remainder that both compute. */
module Crc32 {

  type word = bv32
  type octets = seq<bv8>

  /** The polynomial, in reversed form. */
  const POLYNOMIAL: word := 0xEDB88320

  const ONES: word := 0xFFFFFFFF

  // The operations on words have names so that proofs can do without their definitions.
  function Xor(a: word, b: word): word { a ^ b }
  function Low(c: word): word { c & 0xFF }
  function High(c: word): word { c >> 8 }
  function Up(c: word): word { c << 8 }
  function Word(b: bv8): word { b as word }

  /** One step of the division: times x, modulo the polynomial.  Bit 31 is the coefficient of x^0
  and bit 0 that of x^31. */
  function Step(c: word): word {
    if c & 1 == 1 then POLYNOMIAL ^ (c >> 1) else c >> 1
  }

  function Steps(c: word, n: nat): word
    decreases n
  {
    if n == 0 then c else Steps(Step(c), n - 1)
  }

  /** Bit-at-a-time: each byte is added to the register, which then takes eight steps. */
  function Divide(c: word, data: octets): word
    decreases |data|
  {
    if data == [] then c else Divide(Steps(Xor(c, Word(data[0])), 8), data[1..])
  }

  /** The checksum continued from `start`. */
  function Crc(start: word, data: octets): word {
    Xor(Divide(Xor(start, ONES), data), ONES)
  }

  // The register while "123456789" is divided.
  const REGISTERS: seq<word> := [
    0xFFFFFFFF, 0x7C231048, 0xB0ACBB32, 0x77B79C2D, 0x641C1F5C,
    0x340AC5E3, 0xF68D2C9E, 0xAFFC9660, 0x651F2550, 0x340BC6D9]

  /** The check value of this checksum, that of the nine digits from "1" to "9". */
  lemma CheckValue()
    ensures Crc(0, [49, 50, 51, 52, 53, 54, 55, 56, 57]) == 0xCBF43926
  {
    var d: octets := [49, 50, 51, 52, 53, 54, 55, 56, 57];
    DivideDigits(d, 0);
    assert d[0..] == d;
    hide Divide;
  }

  lemma {:induction false} DivideDigits(d: octets, i: nat)
    requires d == [49, 50, 51, 52, 53, 54, 55, 56, 57] && i <= 9
    ensures Divide(REGISTERS[i], d[i..]) == 0x340BC6D9
    decreases 9 - i
  {
    if i < 9 {
      Registers(d, i);
      hide Steps, Xor, Word, Step;
      DivideDigits(d, i + 1);
      assert d[i..][1..] == d[i + 1..];
    }
  }

  lemma Registers(d: octets, i: nat)
    requires d == [49, 50, 51, 52, 53, 54, 55, 56, 57] && i < 9
    ensures Steps(Xor(REGISTERS[i], Word(d[i])), 8) == REGISTERS[i + 1]
  {
    EightSteps(Xor(REGISTERS[i], Word(d[i])));
    hide Steps, Step, Xor, Word;
    if i < 5 {
      FirstRegisters(d, i);
    } else {
      LastRegisters(d, i);
    }
  }

  lemma FirstRegisters(d: octets, i: nat)
    requires d == [49, 50, 51, 52, 53, 54, 55, 56, 57] && i < 5
    ensures Step(Step(Step(Step(Step(Step(Step(Step(Xor(REGISTERS[i], Word(d[i]))))))))))
            == REGISTERS[i + 1]
  {
  }

  lemma LastRegisters(d: octets, i: nat)
    requires d == [49, 50, 51, 52, 53, 54, 55, 56, 57] && 5 <= i < 9
    ensures Step(Step(Step(Step(Step(Step(Step(Step(Xor(REGISTERS[i], Word(d[i]))))))))))
            == REGISTERS[i + 1]
  {
  }

  // ---------- linearity ----------

  lemma StepIsLinear(a: word, b: word)
    ensures Step(Xor(a, b)) == Xor(Step(a), Step(b))
  {
    StepOfXor(a, b);
    hide Step;
  }

  lemma StepOfXor(a: word, b: word)
    ensures Step(a ^ b) == Step(a) ^ Step(b)
  {
    ShiftOfXor(a, b);
    LowBitOfXor(a, b);
    XorRegroup(POLYNOMIAL, a >> 1, b >> 1);
  }

  lemma ShiftOfXor(a: word, b: word)
    ensures (a ^ b) >> 1 == (a >> 1) ^ (b >> 1)
  {
  }

  lemma LowBitOfXor(a: word, b: word)
    ensures (a ^ b) & 1 == 1 <==> (a & 1 == 1) != (b & 1 == 1)
  {
  }

  lemma XorRegroup(p: word, a: word, b: word)
    ensures (p ^ a) ^ b == p ^ (a ^ b) && a ^ (p ^ b) == p ^ (a ^ b) && (p ^ a) ^ (p ^ b) == a ^ b
  {
  }

  lemma {:induction false} StepsAreLinear(a: word, b: word, n: nat)
    ensures Steps(Xor(a, b), n) == Xor(Steps(a, n), Steps(b, n))
    decreases n
  {
    hide Step, Xor;
    if n > 0 {
      StepIsLinear(a, b);
      StepsAreLinear(Step(a), Step(b), n - 1);
    }
  }

  lemma {:induction false} StepsAdd(c: word, m: nat, n: nat)
    ensures Steps(c, m + n) == Steps(Steps(c, m), n)
    decreases m
  {
    hide Step;
    if m > 0 {
      StepsAdd(Step(c), m - 1, n);
    }
  }

  lemma StepLosesNothing(a: word, b: word)
    requires Step(a) == Step(b)
    ensures a == b
  {
  }

  lemma {:induction false} StepsLoseNothing(a: word, b: word, n: nat)
    requires Steps(a, n) == Steps(b, n)
    ensures a == b
    decreases n
  {
    hide Step;
    if n > 0 {
      StepsLoseNothing(Step(a), Step(b), n - 1);
      StepLosesNothing(a, b);
    }
  }

  function Twice(y: word): word { y << 1 }

  lemma StepHalves(y: word)
    requires y <= 0x7FFFFFFF
    ensures Step(Twice(y)) == y
  {
  }

  lemma TwiceGrows(y: word)
    requires y <= 0x7FFFFFFF
    ensures Twice(y) <= 0xFFFFFFFE
    ensures y <= 0x3FFFFFFF ==> Twice(y) <= 0x7FFFFFFF
    ensures y <= 0x1FFFFFFF ==> Twice(y) <= 0x3FFFFFFF
    ensures y <= 0x0FFFFFFF ==> Twice(y) <= 0x1FFFFFFF
    ensures y <= 0x07FFFFFF ==> Twice(y) <= 0x0FFFFFFF
    ensures y <= 0x03FFFFFF ==> Twice(y) <= 0x07FFFFFF
    ensures y <= 0x01FFFFFF ==> Twice(y) <= 0x03FFFFFF
    ensures y <= 0x00FFFFFF ==> Twice(y) <= 0x01FFFFFF
  {
  }

  lemma UpIsTwice(y: word)
    ensures Up(y) == Twice(Twice(Twice(Twice(Twice(Twice(Twice(Twice(y))))))))
  {
  }

  /** Eight steps just move a word whose low byte is empty. */
  lemma ShiftedOut(y: word)
    requires y <= 0xFFFFFF
    ensures Steps(Up(y), 8) == y
  {
    UpIsTwice(y);
    hide Step, Twice, Up;
    var y1 := Twice(y);
    var y2 := Twice(y1);
    var y3 := Twice(y2);
    var y4 := Twice(y3);
    var y5 := Twice(y4);
    var y6 := Twice(y5);
    var y7 := Twice(y6);
    TwiceGrows(y);  StepHalves(y);
    TwiceGrows(y1); StepHalves(y1);
    TwiceGrows(y2); StepHalves(y2);
    TwiceGrows(y3); StepHalves(y3);
    TwiceGrows(y4); StepHalves(y4);
    TwiceGrows(y5); StepHalves(y5);
    TwiceGrows(y6); StepHalves(y6);
    StepHalves(y7);
    EightSteps(Up(y));
  }

  lemma EightSteps(c: word)
    ensures Steps(c, 8) == Step(Step(Step(Step(Step(Step(Step(Step(c))))))))
  {
    hide Step;
    var d := Step(Step(Step(Step(c))));
    assert Steps(c, 8) == Steps(d, 4);
  }

  lemma SplitByte(c: word)
    ensures Xor(Low(c), Up(High(c))) == c && High(c) <= 0xFFFFFF
  {
  }

  /** The step from byte to byte that the table stands for. */
  lemma ByteStep(c: word)
    ensures Steps(c, 8) == Xor(Steps(Low(c), 8), High(c))
  {
    hide Steps, Xor, Low, High, Up;
    SplitByte(c);
    StepsAreLinear(Low(c), Up(High(c)), 8);
    ShiftedOut(High(c));
  }

  // ---------- the polynomial remainder ----------

  /** The bits of a byte, least significant first, the order in which they are coefficients. */
  function LowBits(b: word, n: nat): (r: seq<bool>)
    ensures |r| == n
    decreases n
  {
    if n == 0 then [] else [b & 1 == 1] + LowBits(b >> 1, n - 1)
  }

  function Bits(data: octets): (r: seq<bool>)
    ensures |r| == 8 * |data|
  {
    if data == [] then [] else LowBits(Word(data[0]), 8) + Bits(data[1..])
  }

  /** x^0. */
  const UNIT: word := 0x80000000

  /** The polynomial with these coefficients, highest first, modulo the CRC polynomial (Horner's rule). */
  function Remainder(bits: seq<bool>): word {
    if bits == [] then 0
    else Xor(Step(Remainder(bits[..|bits| - 1])), if bits[|bits| - 1] then UNIT else 0)
  }

  /** The register after these bits. */
  function DivideBits(c: word, bits: seq<bool>): word
    decreases |bits|
  {
    if bits == [] then c
    else Step(Xor(DivideBits(c, bits[..|bits| - 1]), if bits[|bits| - 1] then 1 else 0))
  }

  lemma {:induction false} DivideBitsAppend(c: word, a: seq<bool>, b: seq<bool>)
    ensures DivideBits(c, a + b) == DivideBits(DivideBits(c, a), b)
    decreases |b|
  {
    hide Step, Xor;
    if b == [] {
      assert a + b == a;
    } else {
      assert (a + b)[..|a + b| - 1] == a + b[..|b| - 1];
      DivideBitsAppend(c, a, b[..|b| - 1]);
    }
  }

  lemma UnitPower()
    ensures Steps(UNIT, 32) == POLYNOMIAL
  {
    ShiftedOut(0x800000);
    ShiftedOut(0x8000);
    ShiftedOut(0x80);
    assert Up(0x800000) == UNIT && Up(0x8000) == 0x800000 && Up(0x80) == 0x8000;
    EightSteps(0x80);
    assert Steps(0x80, 8) == POLYNOMIAL by {
      assert Step(0x80) == 0x40 && Step(0x40) == 0x20 && Step(0x20) == 0x10 && Step(0x10) == 8;
      assert Step(8) == 4 && Step(4) == 2 && Step(2) == 1 && Step(1) == POLYNOMIAL;
      hide Step;
    }
    hide Step, Up;
    StepsAdd(UNIT, 8, 24);
    StepsAdd(0x800000, 8, 16);
    StepsAdd(0x8000, 8, 8);
  }

  lemma XorZero(a: word)
    ensures Xor(a, 0) == a && Xor(0, a) == a
  {
  }

  lemma XorExchange(a: word, b: word, c: word)
    ensures Xor(Xor(a, b), c) == Xor(a, Xor(b, c)) && Xor(Xor(a, b), c) == Xor(Xor(a, c), b)
  {
    XorAssociates(a, b, c);
    XorAssociates(a, c, b);
    XorCommutes(b, c);
    hide Xor;
  }

  lemma XorAssociates(a: word, b: word, c: word)
    ensures Xor(Xor(a, b), c) == Xor(a, Xor(b, c))
  {
    XorRegroup(a, b, c);
  }

  lemma XorCommutes(a: word, b: word)
    ensures Xor(a, b) == Xor(b, a)
  {
  }

  lemma ZeroSteps()
    ensures Step(0) == 0 && Step(1) == POLYNOMIAL
  {
  }

  lemma {:induction false} StepsOfZero(n: nat)
    ensures Steps(0, n) == 0
  {
    ZeroSteps();
    hide Step;
    if n > 0 { StepsOfZero(n - 1); }
  }

  /** The register holds the initial value times x^n plus the message times x^32, all modulo the
  polynomial. */
  lemma {:induction false} RegisterIsRemainder(c: word, bits: seq<bool>)
    ensures DivideBits(c, bits) == Xor(Steps(c, |bits|), Steps(Remainder(bits), 32))
  {
    hide Step, Xor;
    if bits == [] {
      StepsOfZero(32);
      XorZero(c);
    } else {
      var init, last := bits[..|bits| - 1], bits[|bits| - 1];
      var r, s, n := Remainder(init), Steps(c, |init|), |init|;
      RegisterIsRemainder(c, init);
      UnitPower();
      ZeroSteps();
      StepsOfZero(32);
      var low: word, unit: word := if last then 1 else 0, if last then UNIT else 0;
      assert Steps(unit, 32) == Step(low);
      StepsAreLinear(Step(r), unit, 32);
      StepCommutes(r, 32);
      StepCommutes(c, n);
      StepIsLinear(Xor(s, Steps(r, 32)), low);
      StepIsLinear(s, Steps(r, 32));
      XorExchange(Step(s), Step(Steps(r, 32)), Step(low));
    }
  }

  lemma StepCommutes(c: word, n: nat)
    ensures Steps(Step(c), n) == Step(Steps(c, n)) && Steps(c, n + 1) == Step(Steps(c, n))
  {
    hide Step;
    StepsAdd(c, 1, n);
    StepsAdd(c, n, 1);
    assert Steps(Steps(c, n), 1) == Step(Steps(c, n));
    assert Steps(c, 1) == Step(c);
  }

  lemma SplitBit(b: word)
    ensures b == Xor(if b & 1 == 1 then 1 else 0, Twice(b >> 1)) && b >> 1 <= 0x7FFFFFFF
  {
    if b & 1 == 1 { OddWord(b); } else { EvenWord(b); }
  }

  lemma OddWord(b: word)
    requires b & 1 == 1
    ensures b == 1 ^ ((b >> 1) << 1)
  {
  }

  lemma EvenWord(b: word)
    requires b & 1 == 0
    ensures b == 0 ^ ((b >> 1) << 1)
  {
  }

  predicate Fits(b: word, n: nat)
    decreases n
  {
    if n == 0 then b == 0 else Fits(b >> 1, n - 1)
  }

  lemma ByteFits(b: bv8)
    ensures Fits(Word(b), 8)
  {
    var w := Word(b);
    EightHalves(w);
    assert Fits(w, 8) == Fits((((w >> 1) >> 1) >> 1) >> 1, 4);
  }

  lemma EightHalves(w: word)
    requires w <= 0xFF
    ensures (((((((w >> 1) >> 1) >> 1) >> 1) >> 1) >> 1) >> 1) >> 1 == 0
  {
  }

  lemma {:induction false} ByteByBits(c: word, b: word, n: nat)
    requires Fits(b, n)
    ensures Steps(Xor(c, b), n) == DivideBits(c, LowBits(b, n))
    decreases n
  {
    if n == 0 {
      XorZero(c);
    } else {
      SplitBit(b);
      var bit: word, half := if b & 1 == 1 then 1 else 0, b >> 1;
      var next := Step(Xor(c, bit));
      hide Step, Xor, Twice;
      XorExchange(c, bit, Twice(half));
      StepIsLinear(Xor(c, bit), Twice(half));
      StepHalves(half);
      ByteByBits(next, half, n - 1);
      DivideBitsAppend(c, [b & 1 == 1], LowBits(half, n - 1));
      var one := [b & 1 == 1];
      assert one[..0] == [];
      assert DivideBits(c, one) == next;
    }
  }

  lemma {:induction false} DivideIsBits(c: word, data: octets)
    ensures Divide(c, data) == DivideBits(c, Bits(data))
    decreases |data|
  {
    hide Step, Xor, Word, LowBits, Steps, Fits;
    if data != [] {
      ByteFits(data[0]);
      ByteByBits(c, Word(data[0]), 8);
      DivideIsBits(Steps(Xor(c, Word(data[0])), 8), data[1..]);
      DivideBitsAppend(c, LowBits(Word(data[0]), 8), Bits(data[1..]));
    }
  }

  /** The checksum is a polynomial remainder: of the message times x^32, plus the complemented
  start times x^n; complemented. */
  lemma CrcIsRemainder(start: word, data: octets)
    ensures Crc(start, data)
            == Xor(Xor(Steps(Xor(start, ONES), 8 * |data|), Steps(Remainder(Bits(data)), 32)), ONES)
  {
    hide Step, Xor, Steps;
    DivideIsBits(Xor(start, ONES), data);
    RegisterIsRemainder(Xor(start, ONES), Bits(data));
  }

  // ---------- piece by piece ----------

  lemma {:induction false} DivideAppend(c: word, a: octets, b: octets)
    ensures Divide(c, a + b) == Divide(Divide(c, a), b)
    decreases |a|
  {
    hide Step, Steps, Xor, Word;
    if a == [] {
      assert a + b == b;
    } else {
      assert (a + b)[1..] == a[1..] + b;
      DivideAppend(Steps(Xor(c, Word(a[0])), 8), a[1..], b);
    }
  }

  lemma XorTwice(a: word)
    ensures Xor(Xor(a, ONES), ONES) == a
  {
  }

  /** Continuing a checksum is checksumming the concatenation. */
  lemma CrcAppend(start: word, a: octets, b: octets)
    ensures Crc(Crc(start, a), b) == Crc(start, a + b)
  {
    hide Xor, Divide;
    DivideAppend(Xor(start, ONES), a, b);
    XorTwice(Divide(Xor(start, ONES), a));
  }

  // ---------- what it detects ----------

  lemma {:induction false} DivideLosesNothing(c: word, d: word, data: octets)
    requires Divide(c, data) == Divide(d, data)
    ensures c == d
    decreases |data|
  {
    hide Step, Steps, Xor, Word;
    if data != [] {
      var w := Word(data[0]);
      DivideLosesNothing(Steps(Xor(c, w), 8), Steps(Xor(d, w), 8), data[1..]);
      StepsLoseNothing(Xor(c, w), Xor(d, w), 8);
      XorCancels(c, d, w);
    }
  }

  lemma XorCancels(a: word, b: word, w: word)
    ensures Xor(a, w) == Xor(b, w) ==> a == b
    ensures Xor(w, a) == Xor(w, b) ==> a == b
  {
  }

  /** Up to four bytes as a word, the first one lowest. */
  function Packed(data: octets): word
    requires |data| <= 4
  {
    if data == [] then 0 else Xor(Word(data[0]), Up(Packed(data[1..])))
  }

  lemma {:induction false} PackedFits(data: octets)
    requires |data| <= 3
    ensures Packed(data) <= 0xFFFFFF
    ensures |data| <= 2 ==> Packed(data) <= 0xFFFF
    ensures |data| <= 1 ==> Packed(data) <= 0xFF
  {
    if data != [] {
      PackedFits(data[1..]);
      PackGrows(data[0], Packed(data[1..]));
    }
  }

  lemma PackGrows(b: bv8, rest: word)
    ensures rest == 0 ==> Xor(Word(b), Up(rest)) <= 0xFF
    ensures rest <= 0xFF ==> Xor(Word(b), Up(rest)) <= 0xFFFF
    ensures rest <= 0xFFFF ==> Xor(Word(b), Up(rest)) <= 0xFFFFFF
  {
  }

  lemma PackLosesNothing(a: bv8, b: bv8, x: word, y: word)
    requires x <= 0xFFFFFF && y <= 0xFFFFFF && Xor(Word(a), Up(x)) == Xor(Word(b), Up(y))
    ensures a == b && x == y
  {
  }

  /** Up to four bytes act on the register as one word. */
  lemma {:induction false} DividePacked(c: word, data: octets)
    requires |data| <= 4
    ensures Divide(c, data) == Steps(Xor(c, Packed(data)), 8 * |data|)
    decreases |data|
  {
    if data == [] {
      XorZero(c);
    } else {
      hide Step, Steps, Xor, Word, Up;
      var w, rest := Word(data[0]), Packed(data[1..]);
      PackedFits(data[1..]);
      DividePacked(Steps(Xor(c, w), 8), data[1..]);
      XorExchange(c, w, Up(rest));
      StepsAreLinear(Xor(c, w), Up(rest), 8);
      ShiftedOut(rest);
      StepsAdd(Xor(c, Packed(data)), 8, 8 * |data| - 8);
    }
  }

  lemma {:induction false} PackedLosesNothing(a: octets, b: octets)
    requires |a| == |b| <= 4 && Packed(a) == Packed(b)
    ensures a == b
    decreases |a|
  {
    if a != [] {
      PackedFits(a[1..]);
      PackedFits(b[1..]);
      PackLosesNothing(a[0], b[0], Packed(a[1..]), Packed(b[1..]));
      PackedLosesNothing(a[1..], b[1..]);
      assert a == [a[0]] + a[1..] && b == [b[0]] + b[1..];
    }
  }

  /** Two messages that differ only within up to four consecutive bytes have different checksums. */
  lemma DetectsBursts(start: word, before: octets, a: octets, b: octets, after: octets)
    requires |a| == |b| <= 4 && a != b
    ensures Crc(start, before + a + after) != Crc(start, before + b + after)
  {
    hide Xor, Divide, Steps, Step, Packed;
    if Crc(start, before + a + after) == Crc(start, before + b + after) {
      var c := Divide(Xor(start, ONES), before);
      DivideAppend(Xor(start, ONES), before + a, after);
      DivideAppend(Xor(start, ONES), before + b, after);
      DivideAppend(Xor(start, ONES), before, a);
      DivideAppend(Xor(start, ONES), before, b);
      XorCancels(Divide(Divide(c, a), after), Divide(Divide(c, b), after), ONES);
      DivideLosesNothing(Divide(c, a), Divide(c, b), after);
      DividePacked(c, a);
      DividePacked(c, b);
      StepsLoseNothing(Xor(c, Packed(a)), Xor(c, Packed(b)), 8 * |a|);
      XorCancels(Packed(a), Packed(b), c);
      PackedLosesNothing(a, b);
    }
  }

  // ---------- the table ----------

  /** `kCrc32Table`, zero until first used. */
  class Table {
    const entries: array<word>

    constructor ()
      ensures Valid() && fresh(entries)
    {
      entries := new word[256](_ => 0);
    }

    ghost predicate Filled()
      reads entries
    {
      entries.Length == 256 && forall i :: 0 <= i < 256 ==> entries[i] == Steps(i as word, 8)
    }

    ghost predicate Valid()
      reads entries
    {
      entries.Length == 256 && (entries[255] == 0 || Filled())
    }

    /** `EnsureCrc32TableInited`. */
    method EnsureInited()
      requires Valid()
      modifies entries
      ensures Filled()
    {
      hide Step, Steps;
      if entries[255] != 0 {
        return;
      }
      for i := 0 to 256
        invariant forall k :: 0 <= k < i ==> entries[k] == Steps(k as word, 8)
      {
        entries[i] := TableEntry(i as word);
      }
    }

    /** The inner loop of `EnsureCrc32TableInited`. */
    method TableEntry(i: word) returns (c: word)
      ensures c == Steps(i, 8)
    {
      c := i;
      for j := 0 to 8
        invariant Steps(c, 8 - j) == Steps(i, 8)
      {
        if c & 1 == 1 {
          c := POLYNOMIAL ^ (c >> 1);
        } else {
          c := c >> 1;
        }
      }
    }

    /** `UpdateCrc32`. */
    method Update(start: word, data: octets) returns (crc: word)
      requires Valid()
      modifies entries
      ensures Valid() && crc == Crc(start, data)
    {
      hide Step, Steps, Xor;
      EnsureInited();
      var c := Xor(start, ONES);
      for i := 0 to |data|
        invariant Filled()
        invariant Divide(c, data[i..]) == Divide(Xor(start, ONES), data)
      {
        var x := Xor(c, Word(data[i]));
        ByteStep(x);
        HighOfXor(c, data[i]);
        var k := Low(x) as int;
        assert k as word == Low(x);
        c := Xor(entries[k], High(c));
        assert data[i..][1..] == data[i + 1..];
      }
      crc := Xor(c, ONES);
    }
  }

  lemma HighOfXor(c: word, b: bv8)
    ensures High(Xor(c, Word(b))) == High(c)
  {
  }
}
