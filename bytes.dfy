/**
  Byte-level vocabulary shared by every record layout: the fixed-width
  unsigned field types, big-endian integer fields, zero-terminated strings,
  and the clamping that BinData applies when a value is assigned to an
  integer field that is too narrow for it.
 */
module Bytes {

  type Byte = x: int | 0 <= x < 0x100
  type Bit = x: int | 0 <= x < 2
  type Nibble = x: int | 0 <= x < 0x10
  type U16 = x: int | 0 <= x < 0x1_0000
  type U32 = x: int | 0 <= x < 0x1_0000_0000

  /** Outcome of reading a field from the front of a buffer: the value and the
      bytes after it, or running off the end of the input. */
  datatype Parse<T> = Parsed(value: T, rest: seq<Byte>) | EndOfInput

  /** BinData clamps an out-of-range assignment to the nearest end of the range. */
  function Clamp(n: int, max: nat): (r: int)
    ensures 0 <= r <= max
    ensures 0 <= n <= max ==> r == n
    ensures n > max ==> r == max
    ensures n < 0 ==> r == 0
  {
    if n < 0 then 0 else if n > max then max else n
  }

  function ClampU16(n: int): U16 { Clamp(n, 0xFFFF) }

  function ClampU32(n: int): U32 { Clamp(n, 0xFFFF_FFFF) }

  // ---------------------------------------------------------------- bit fields

  function Pow2(n: nat): (r: nat)
    ensures r >= 1
  {
    if n == 0 then 1 else 2 * Pow2(n - 1)
  }

  /** The `n` low bits of `x`, most significant first: the order in which
      BinData lays out consecutive `bitN` fields under `endian :big`. */
  function ToBits(x: nat, n: nat): (r: seq<Bit>)
    ensures |r| == n
  {
    if n == 0 then [] else ToBits(x / 2, n - 1) + [x % 2]
  }

  /** The number whose bits, most significant first, are `bs`. */
  function FromBits(bs: seq<Bit>): (r: nat)
    ensures r < Pow2(|bs|)
  {
    if bs == [] then 0 else 2 * FromBits(bs[..|bs| - 1]) + bs[|bs| - 1]
  }

  lemma {:induction false} FromToBits(x: nat, n: nat)
    requires x < Pow2(n)
    ensures FromBits(ToBits(x, n)) == x
  {
    if n > 0 {
      FromToBits(x / 2, n - 1);
      assert ToBits(x, n)[..n - 1] == ToBits(x / 2, n - 1);
    }
  }

  lemma {:induction false} ToFromBits(bs: seq<Bit>)
    ensures ToBits(FromBits(bs), |bs|) == bs
  {
    if bs != [] {
      var init := bs[..|bs| - 1];
      ToFromBits(init);
      assert FromBits(bs) / 2 == FromBits(init);
      assert init + [bs[|bs| - 1]] == bs;
    }
  }

  // ---------------------------------------------------------------- uint16

  /** The value of two bytes read most significant first. */
  function Word(hi: Byte, lo: Byte): int { hi as int * 0x100 + lo as int }

  /** A `uint16` field with `endian :big`: most significant byte first. */
  function EncodeU16(x: U16): (r: seq<Byte>)
    ensures |r| == 2
    ensures Word(r[0], r[1]) == x
  {
    [x / 0x100, x % 0x100]
  }

  function DecodeU16(b: seq<Byte>): (r: Parse<U16>)
    ensures r.Parsed? <==> |b| >= 2
    ensures r.Parsed? ==> r.value == Word(b[0], b[1]) && r.rest == b[2..]
  {
    if |b| < 2 then EndOfInput else Parsed(Word(b[0], b[1]), b[2..])
  }

  lemma U16RoundTrip(x: U16, rest: seq<Byte>)
    ensures DecodeU16(EncodeU16(x) + rest) == Parsed(x, rest)
  {
    assert (EncodeU16(x) + rest)[2..] == rest;
  }

  /** Any two bytes are the big-endian encoding of the word they read as. */
  lemma U16Splits(hi: Byte, lo: Byte)
    ensures EncodeU16(Word(hi, lo)) == [hi, lo]
  {
  }

  /** Any two leading bytes are the encoding of the word read from them. */
  lemma U16Reencodes(b: seq<Byte>)
    requires |b| >= 2
    ensures EncodeU16(DecodeU16(b).value) + DecodeU16(b).rest == b
  {
    U16Splits(b[0], b[1]);
    assert b == b[..2] + b[2..];
  }

  lemma Regroup(a: seq<Byte>, b: seq<Byte>, c: seq<Byte>)
    ensures a + b + c == a + (b + c)
  {
  }

  /** Two fields read one after another: the bytes are the two fields'
      bytes followed by what the second left over. */
  lemma TwoFields(b: seq<Byte>, f1: seq<Byte>, r1: seq<Byte>, f2: seq<Byte>, r2: seq<Byte>)
    requires f1 + r1 == b && f2 + r2 == r1
    ensures f1 + f2 + r2 == b
  {
  }

  /** Three fields read one after another: the bytes are the three fields'
      bytes followed by what the third left over. */
  lemma ThreeFields(b: seq<Byte>, f1: seq<Byte>, r1: seq<Byte>, f2: seq<Byte>, r2: seq<Byte>, f3: seq<Byte>, r3: seq<Byte>)
    requires f1 + r1 == b && f2 + r2 == r1 && f3 + r3 == r2
    ensures f1 + f2 + f3 + r3 == b
  {
    assert f1 + (f2 + (f3 + r3)) == f1 + f2 + f3 + r3;
  }

  /** The field that starts some bytes is their prefix of its length. */
  lemma FieldAtFront(b: seq<Byte>, f: seq<Byte>, r: seq<Byte>)
    requires f + r == b
    ensures |f| <= |b| && b[..|f|] == f
  {
  }

  /** A field between two others sits at the first one's length. */
  lemma FieldInMiddle(b: seq<Byte>, f1: seq<Byte>, f: seq<Byte>, f2: seq<Byte>)
    requires f1 + f + f2 == b
    ensures |f1| + |f| <= |b| && b[|f1|..|f1| + |f|] == f
  {
    assert b[|f1|..] == f + f2;
  }

  // ---------------------------------------------------------------- uint32

  /** A `uint32` field with `endian :big`: the high 16 bits, then the low 16 bits. */
  function EncodeU32(x: U32): (r: seq<Byte>)
    ensures |r| == 4
    ensures Word(r[0], r[1]) * 0x1_0000 + Word(r[2], r[3]) == x
  {
    EncodeU16(x / 0x1_0000) + EncodeU16(x % 0x1_0000)
  }

  function DecodeU32(b: seq<Byte>): (r: Parse<U32>)
    ensures r.Parsed? <==> |b| >= 4
    ensures r.Parsed? ==> r.value == Word(b[0], b[1]) * 0x1_0000 + Word(b[2], b[3])
    ensures r.Parsed? ==> r.rest == b[4..]
  {
    if |b| < 4 then EndOfInput
    else Parsed(Word(b[0], b[1]) * 0x1_0000 + Word(b[2], b[3]), b[4..])
  }

  lemma U32RoundTrip(x: U32, rest: seq<Byte>)
    ensures DecodeU32(EncodeU32(x) + rest) == Parsed(x, rest)
  {
    assert (EncodeU32(x) + rest)[4..] == rest;
  }

  /** A 32-bit value built from two 16-bit halves splits back into them. */
  lemma HalvesSplit(hi: U16, lo: U16)
    ensures (hi * 0x1_0000 + lo) / 0x1_0000 == hi && (hi * 0x1_0000 + lo) % 0x1_0000 == lo
  {
  }

  /** Four bytes are the encoding of the `uint32` they read as. */
  lemma U32Splits(b0: Byte, b1: Byte, b2: Byte, b3: Byte)
    ensures EncodeU32(Word(b0, b1) * 0x1_0000 + Word(b2, b3)) == [b0, b1, b2, b3]
  {
    HalvesSplit(Word(b0, b1), Word(b2, b3));
    U16Splits(b0, b1);
    U16Splits(b2, b3);
  }

  /** Any four leading bytes are the encoding of the `uint32` read from them. */
  lemma U32Reencodes(b: seq<Byte>)
    requires |b| >= 4
    ensures EncodeU32(DecodeU32(b).value) + DecodeU32(b).rest == b
  {
    var r := DecodeU32(b);
    assert EncodeU32(r.value) == b[..4] by {
      U32Splits(b[0], b[1], b[2], b[3]);
      assert [b[0], b[1], b[2], b[3]] == b[..4];
    }
    assert r.rest == b[4..];
    assert b[..4] + b[4..] == b;
  }

  // ---------------------------------------------------------------- stringz

  /** The bytes of a `stringz` value before its first zero byte: BinData trims
      an assigned string there. */
  function UntilZero(s: seq<Byte>): (r: seq<Byte>)
    ensures 0 !in r
    ensures r <= s
    ensures |r| < |s| ==> s[|r|] == 0
    ensures 0 !in s ==> r == s
  {
    if s == [] || s[0] == 0 then [] else [s[0]] + UntilZero(s[1..])
  }

  /** A `stringz` field on the wire: the value up to its first zero byte, then
      one terminating zero byte. */
  function EncodeStringz(s: seq<Byte>): (r: seq<Byte>)
    ensures |r| == |UntilZero(s)| + 1 && r[|r| - 1] == 0
    ensures 0 !in s ==> r == s + [0]
  {
    UntilZero(s) + [0]
  }

  /** Reading a `stringz` field: every byte up to the first zero, which is
      consumed and dropped; input that ends before a zero byte fails. */
  function DecodeStringz(b: seq<Byte>): (r: Parse<seq<Byte>>)
    ensures r.Parsed? <==> 0 in b
    ensures r.Parsed? ==> 0 !in r.value && b == r.value + [0] + r.rest
  {
    if b == [] then EndOfInput
    else if b[0] == 0 then Parsed([], b[1..])
    else match DecodeStringz(b[1..])
      case EndOfInput => EndOfInput
      case Parsed(s, rest) => Parsed([b[0]] + s, rest)
  }

  /** Decoding undoes encoding for every value without a zero byte. */
  lemma {:induction false} StringzRoundTrip(s: seq<Byte>, rest: seq<Byte>)
    requires 0 !in s
    ensures DecodeStringz(EncodeStringz(s) + rest) == Parsed(s, rest)
  {
    if s == [] {
      assert EncodeStringz(s) + rest == [0] + rest;
    } else {
      StringzRoundTrip(s[1..], rest);
      assert EncodeStringz(s) + rest == [s[0]] + (EncodeStringz(s[1..]) + rest);
    }
  }

  /** Encoding what was decoded gives back exactly the bytes consumed. */
  lemma StringzReencodes(b: seq<Byte>)
    requires DecodeStringz(b).Parsed?
    ensures EncodeStringz(DecodeStringz(b).value) + DecodeStringz(b).rest == b
  {
  }
}
