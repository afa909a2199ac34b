/** Bytes, big-endian words and the growable byte vector both encoders append to. */
module Bytes {
  type Byte = x: int | 0 <= x < 256

  type U16 = x: int | 0 <= x < 0x1_0000
  type U32 = x: int | 0 <= x < 0x1_0000_0000
  type U64 = x: int | 0 <= x < 0x1_0000_0000_0000_0000
  type I32 = x: int | -0x8000_0000 <= x < 0x8000_0000
  type I64 = x: int | -0x8000_0000_0000_0000 <= x < 0x8000_0000_0000_0000

  /** Big-endian bytes of the low 16, 32 or 64 bits: every cast truncates, as in the source. */
  function Be16(n: nat): (s: seq<Byte>)
    ensures |s| == 2
  {
    [n / 0x100 % 256, n % 256]
  }

  function Be32(n: nat): (s: seq<Byte>)
    ensures |s| == 4
  {
    [n / 0x100_0000 % 256, n / 0x1_0000 % 256, n / 0x100 % 256, n % 256]
  }

  function Be64(n: nat): (s: seq<Byte>)
    ensures |s| == 8
  {
    Be32(n / 0x1_0000_0000) + Be32(n % 0x1_0000_0000)
  }

  function FromBe16(s: seq<Byte>): U16
    requires |s| == 2
  {
    s[0] as int * 0x100 + s[1]
  }

  function FromBe32(s: seq<Byte>): U32
    requires |s| == 4
  {
    s[0] as int * 0x100_0000 + s[1] as int * 0x1_0000 + s[2] as int * 0x100 + s[3]
  }

  function FromBe64(s: seq<Byte>): U64
    requires |s| == 8
  {
    FromBe32(s[..4]) * 0x1_0000_0000 + FromBe32(s[4..])
  }

  lemma Be16RoundTrip(n: U16)
    ensures FromBe16(Be16(n)) == n
  {
  }

  lemma Be32RoundTrip(n: U32)
    ensures FromBe32(Be32(n)) == n
  {
    var a, b, c := n / 0x100_0000, n / 0x1_0000, n / 0x100;
    assert b == 256 * a + b % 256;
    assert c == 256 * b + c % 256;
  }

  lemma Be64RoundTrip(n: U64)
    ensures FromBe64(Be64(n)) == n
  {
    var hi, lo := n / 0x1_0000_0000, n % 0x1_0000_0000;
    Be32RoundTrip(hi);
    Be32RoundTrip(lo);
    assert Be64(n)[..4] == Be32(hi) && Be64(n)[4..] == Be32(lo);
  }

  /** Two's complement: the unsigned word with the same bits, and back. */
  function ToU32(i: I32): U32 {
    if i < 0 then i + 0x1_0000_0000 else i
  }

  function FromU32(u: U32): I32 {
    if u < 0x8000_0000 then u else u - 0x1_0000_0000
  }

  function ToU64(i: I64): U64 {
    if i < 0 then i + 0x1_0000_0000_0000_0000 else i
  }

  function FromU64(u: U64): I64 {
    if u < 0x8000_0000_0000_0000 then u else u - 0x1_0000_0000_0000_0000
  }

  function Zeros(n: nat): (s: seq<Byte>)
    ensures |s| == n && forall i :: 0 <= i < n ==> s[i] == 0
  {
    seq(n, _ => 0)
  }

  /** True when `part` stands at offset `pos` of `data`. */
  ghost predicate At(data: seq<Byte>, pos: nat, part: seq<Byte>) {
    pos + |part| <= |data| && data[pos..pos + |part|] == part
  }

  /** A concatenation stands at an offset exactly when its two halves stand one after the other. */
  lemma AtSplit(data: seq<Byte>, pos: nat, a: seq<Byte>, b: seq<Byte>)
    requires At(data, pos, a + b)
    ensures At(data, pos, a) && At(data, pos + |a|, b)
  {
    assert data[pos..pos + |a|] == data[pos..pos + |a + b|][..|a|];
    assert data[pos + |a|..pos + |a| + |b|] == data[pos..pos + |a + b|][|a|..];
  }

  /** A growable byte vector: one field, appended to and patched in place. */
  class Buffer {
    var bytes: seq<Byte>

    constructor ()
      ensures bytes == []
    {
      bytes := [];
    }

    method Push(b: Byte)
      modifies this
      ensures bytes == old(bytes) + [b]
    {
      bytes := bytes + [b];
    }

    method Extend(s: seq<Byte>)
      modifies this
      ensures bytes == old(bytes) + s
    {
      bytes := bytes + s;
    }

    /** Overwrites the bytes from `start` on with `s`. */
    method Patch(start: nat, s: seq<Byte>)
      requires start + |s| <= |bytes|
      modifies this
      ensures bytes == old(bytes)[..start] + s + old(bytes)[start + |s|..]
    {
      bytes := bytes[..start] + s + bytes[start + |s|..];
    }
  }
}
