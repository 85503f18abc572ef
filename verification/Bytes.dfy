/** Bytes, byte strings and the few character classes the wire formats rely on. */
module Bytes {

  type byte = b: int | 0 <= b < 256

  type bytes = seq<byte>

  const WRAP: int := 0x1_0000_0000

  type uint32 = n: nat | n < WRAP

  function Pow256(k: nat): nat {
    if k == 0 then 1 else 256 * Pow256(k - 1)
  }

  datatype Option<+T> = None | Some(value: T)

  const LF: byte := 10
  const CR: byte := 13
  const SPACE: byte := 32
  const COLON: byte := 58
  const CRLF: bytes := [CR, LF]

  /** The bytes of an ASCII literal. */
  function Ascii(s: string): (r: bytes)
    requires forall i :: 0 <= i < |s| ==> s[i] as int < 128
    ensures |r| == |s|
  {
    seq(|s|, i requires 0 <= i < |s| => s[i] as int)
  }

  /** C's `isspace` in the "C" locale. */
  predicate IsSpace(b: byte) {
    b == 32 || 9 <= b <= 13
  }

  function Lower(b: byte): byte {
    if 65 <= b <= 90 then b + 32 else b
  }

  predicate EqualsIgnoreCase(a: bytes, b: bytes) {
    |a| == |b| && forall i :: 0 <= i < |a| ==> Lower(a[i]) == Lower(b[i])
  }

  /** The same, byte by byte, but that a letter may stand for the same letter in the other case. */
  predicate SameButCase(a: bytes, b: bytes) {
    && |a| == |b|
    && forall i :: 0 <= i < |a| ==>
         a[i] == b[i] || (65 <= a[i] <= 90 && b[i] == a[i] + 32) || (65 <= b[i] <= 90 && a[i] == b[i] + 32)
  }

  lemma EqualsIgnoreCaseMeans(a: bytes, b: bytes)
    ensures EqualsIgnoreCase(a, b) <==> SameButCase(a, b)
  {
    if EqualsIgnoreCase(a, b) {
      forall i | 0 <= i < |a|
        ensures a[i] == b[i] || (65 <= a[i] <= 90 && b[i] == a[i] + 32) || (65 <= b[i] <= 90 && a[i] == b[i] + 32)
      {
        assert Lower(a[i]) == Lower(b[i]);
      }
    }
  }

  /** `s` without its trailing white space. */
  function TrimRight(s: bytes): (r: bytes)
    ensures r <= s
    ensures r != [] ==> !IsSpace(r[|r| - 1])
  {
    if s == [] || !IsSpace(s[|s| - 1]) then s else TrimRight(s[..|s| - 1])
  }

  /** `s` without its leading white space. */
  function TrimLeft(s: bytes): (r: bytes)
    ensures |r| <= |s| && r == s[|s| - |r|..]
    ensures r != [] ==> !IsSpace(r[0])
  {
    if s == [] || !IsSpace(s[0]) then s else TrimLeft(s[1..])
  }

  /** All of `parts`, one after the other. */
  function Concat(parts: seq<bytes>): bytes {
    if parts == [] then [] else Concat(parts[..|parts| - 1]) + parts[|parts| - 1]
  }

  lemma ConcatSnoc(parts: seq<bytes>, last: bytes)
    ensures Concat(parts + [last]) == Concat(parts) + last
  {
    assert (parts + [last])[..|parts|] == parts;
  }

  lemma Resplit(a: bytes, b: bytes, n: nat)
    requires n <= |b|
    ensures (a + b[..n]) + b[n..] == a + b
  {
  }

  lemma Associative(a: bytes, b: bytes, c: bytes)
    ensures a + (b + c) == (a + b) + c
  {
  }

  // ---------- buffers ----------

  /** Appends to the `len` bytes that a buffer holds (`memcpy`). */
  method AppendTo(buffer: array<byte>, len: nat, data: bytes) returns (newLen: nat)
    requires len + |data| <= buffer.Length
    modifies buffer
    ensures newLen == len + |data| && buffer[..newLen] == old(buffer[..len]) + data
  {
    forall i | 0 <= i < |data| {
      buffer[len + i] := data[i];
    }
    newLen := len + |data|;
  }

  /** Drops the first `n` of the `len` bytes that a buffer holds (`memmove`). */
  method DropFrom(buffer: array<byte>, len: nat, n: nat) returns (newLen: nat)
    requires n <= len <= buffer.Length
    modifies buffer
    ensures newLen == len - n && buffer[..newLen] == old(buffer[n..len])
  {
    newLen := len - n;
    forall i | 0 <= i < newLen {
      buffer[i] := buffer[i + n];
    }
  }
}
