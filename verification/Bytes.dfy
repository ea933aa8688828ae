/** Octets and the fixed-width integers of the wire formats.
    The host is taken to be little-endian, so native order is least significant byte first. */
module Bytes {
  import opened Wrappers

  type byte = b: int | 0 <= b < 256
  type bytes = seq<byte>

  const U16 := 0x1_0000
  const U32 := 0x1_0000_0000
  const U64 := 0x1_0000_0000_0000_0000
  const U64_MAX := U64 - 1

  type u16 = x: int | 0 <= x < U16
  type u32 = x: int | 0 <= x < U32
  type u64 = x: int | 0 <= x < U64

  function Zeros(n: nat): bytes {
    seq(n, _ => 0)
  }

  /** 256 to the power n. */
  function Radix(n: nat): (r: nat)
    ensures r >= 1
  {
    if n == 0 then 1 else 256 * Radix(n - 1)
  }

  function ToLE(x: nat, n: nat): (s: bytes)
    ensures |s| == n
  {
    if n == 0 then [] else [x % 256] + ToLE(x / 256, n - 1)
  }

  function FromLE(s: bytes): (x: nat)
    ensures x < Radix(|s|)
  {
    if s == [] then 0 else s[0] + 256 * FromLE(s[1..])
  }

  function ToBE(x: nat, n: nat): (s: bytes)
    ensures |s| == n
  {
    if n == 0 then [] else ToBE(x / 256, n - 1) + [x % 256]
  }

  function FromBE(s: bytes): (x: nat)
    ensures x < Radix(|s|)
  {
    if s == [] then 0 else 256 * FromBE(s[..|s| - 1]) + s[|s| - 1]
  }

  lemma {:induction false} RadixValues()
    ensures Radix(1) == 256 && Radix(2) == U16 && Radix(4) == U32 && Radix(8) == U64
  {
    assert Radix(1) == 256 && Radix(2) == 256 * Radix(1) && Radix(3) == 256 * Radix(2) && Radix(4) == 256 * Radix(3);
    assert Radix(5) == 256 * Radix(4) && Radix(6) == 256 * Radix(5) && Radix(7) == 256 * Radix(6);
  }

  /** Both byte orders lose nothing on the integers that fit. */
  lemma {:induction false} IntegerRoundTrip(x: nat, n: nat)
    requires x < Radix(n)
    ensures FromLE(ToLE(x, n)) == x && FromBE(ToBE(x, n)) == x
  {
    if n > 0 {
      IntegerRoundTrip(x / 256, n - 1);
      assert ToLE(x, n)[1..] == ToLE(x / 256, n - 1);
      assert ToBE(x, n)[..n - 1] == ToBE(x / 256, n - 1);
    }
  }

  // ---- The scalar readers: a short payload gives None, a long one is read from its front ----

  function ReadLE(p: bytes, n: nat): (r: Option<nat>)
    ensures r.Some? <==> n <= |p|
    ensures r.Some? ==> r.value < Radix(n)
  {
    if n <= |p| then Some(FromLE(p[..n])) else None
  }

  function ReadBE(p: bytes, n: nat): (r: Option<nat>)
    ensures r.Some? <==> n <= |p|
    ensures r.Some? ==> r.value < Radix(n)
  {
    if n <= |p| then Some(FromBE(p[..n])) else None
  }

  function ReadU8(p: bytes): Option<byte> {
    if |p| > 0 then Some(p[0]) else None
  }

  function ReadU16(p: bytes): Option<u16> {
    RadixValues(); ReadLE(p, 2)
  }

  function ReadU32(p: bytes): Option<u32> {
    RadixValues(); ReadLE(p, 4)
  }

  function ReadU64(p: bytes): Option<u64> {
    RadixValues(); ReadLE(p, 8)
  }

  function ReadU16BE(p: bytes): Option<u16> {
    RadixValues(); ReadBE(p, 2)
  }

  function ReadU32BE(p: bytes): Option<u32> {
    RadixValues(); ReadBE(p, 4)
  }

  function ReadU64BE(p: bytes): Option<u64> {
    RadixValues(); ReadBE(p, 8)
  }

  /** A reader of n octets sees the value written at the front of the payload, whatever follows. */
  lemma {:induction false} ReadersInvertWriters(x: nat, n: nat, rest: bytes)
    requires x < Radix(n)
    ensures ReadLE(ToLE(x, n) + rest, n) == Some(x)
    ensures ReadBE(ToBE(x, n) + rest, n) == Some(x)
  {
    IntegerRoundTrip(x, n);
    assert (ToLE(x, n) + rest)[..n] == ToLE(x, n);
    assert (ToBE(x, n) + rest)[..n] == ToBE(x, n);
  }

  lemma {:induction false} FromLECons(b: byte, s: bytes)
    ensures FromLE([b] + s) == b + 256 * FromLE(s)
  {
    assert ([b] + s)[1..] == s;
  }

  lemma {:induction false} FromBESnoc(s: bytes, b: byte)
    ensures FromBE(s + [b]) == 256 * FromBE(s) + b
  {
    assert (s + [b])[..|s|] == s;
  }

  /** The weights of the octets in both orders. */
  lemma {:induction false} OctetWeights(a: byte, b: byte, c: byte, d: byte)
    ensures FromLE([a, b]) == a + 256 * b && FromBE([a, b]) == 256 * a + b
    ensures FromLE([a, b, c, d]) == a + 256 * b + 65536 * c + 16777216 * d
    ensures FromBE([a, b, c, d]) == 16777216 * a + 65536 * b + 256 * c + d
  {
    hide FromLE, FromBE;
    NoOctets();
    FromLECons(d, []); FromLECons(c, [d]); FromLECons(b, [c, d]); FromLECons(a, [b, c, d]);
    FromBESnoc([], a); FromBESnoc([a], b); FromBESnoc([a, b], c); FromBESnoc([a, b, c], d);
    FromLECons(b, []); FromLECons(a, [b]);
    assert [d] == [d] + [] && [c, d] == [c] + [d] && [b, c, d] == [b] + [c, d] && [a, b, c, d] == [a] + [b, c, d];
    assert [a] == [] + [a] && [a, b] == [a] + [b] && [a, b, c] == [a, b] + [c] && [a, b, c, d] == [a, b, c] + [d];
    assert [b] == [b] + [];
  }

  lemma {:induction false} NoOctets()
    ensures FromLE([]) == 0 && FromBE([]) == 0
  {
  }

  /** Eight octets are two halves of four. */
  lemma {:induction false} HalvesOfEight(low: bytes, high: bytes)
    requires |low| == |high| == 4
    ensures FromLE(low + high) == FromLE(low) + 4294967296 * FromLE(high)
    ensures FromBE(high + low) == 4294967296 * FromBE(high) + FromBE(low)
  {
    hide FromLE, FromBE;
    var a, b, c, d := low[0], low[1], low[2], low[3];
    assert low == [a, b, c, d];
    OctetWeights(a, b, c, d);
    FromLECons(d, high); FromLECons(c, [d] + high); FromLECons(b, [c, d] + high); FromLECons(a, [b, c, d] + high);
    assert low + high == [a] + ([b, c, d] + high) && [b, c, d] + high == [b] + ([c, d] + high);
    assert [c, d] + high == [c] + ([d] + high);
    FromBESnoc(high, a); FromBESnoc(high + [a], b); FromBESnoc(high + [a, b], c); FromBESnoc(high + [a, b, c], d);
    assert high + low == high + [a, b, c] + [d] && high + [a, b, c] == high + [a, b] + [c];
    assert high + [a, b] == high + [a] + [b];
  }

  // ---- Bit operations on unsigned words ----

  /** `x & (2^k)` tested against zero, for the single bit of weight w. */
  predicate HasBit(x: nat, w: nat)
    requires w > 0
  {
    x / w % 2 == 1
  }

  /** `x | w` for the single bit of weight w. */
  function WithBit(x: nat, w: nat): nat
    requires w > 0
  {
    if HasBit(x, w) then x else x + w
  }

  /** The bit of weight w, whatever bits stand above and below it. */
  lemma {:induction false} BitAmongOthers(w: nat, high: nat, low: nat)
    requires low < w
    ensures HasBit(2 * w * high + w + low, w) && !HasBit(2 * w * high + low, w)
  {
    QuotientOf(2 * w * high + w + low, w, 2 * high + 1, low);
    QuotientOf(2 * w * high + low, w, 2 * high, low);
  }

  lemma {:induction false} TimesGrows(w: nat, a: int, b: int)
    requires a <= b
    ensures w * a <= w * b
  {
  }

  lemma {:induction false} QuotientOf(x: nat, w: nat, q: nat, low: nat)
    requires low < w && x == w * q + low
    ensures x / w == q
  {
    var k := x / w;
    assert x == w * k + x % w;
    if k < q {
      TimesGrows(w, k + 1, q);
      assert false;
    } else if k > q {
      TimesGrows(w, q + 1, k);
      assert false;
    }
  }

  function SatAdd(a: nat, b: nat): u64 {
    if a + b < U64 then a + b else U64_MAX
  }

  function Min(a: int, b: int): int {
    if a <= b then a else b
  }

  /** A wrapping 64-bit sum. */
  function Wrapped(x: nat): u64 {
    x % U64
  }

  lemma {:induction false} WrappedTwice(a: nat, b: nat, c: nat)
    ensures Wrapped(Wrapped(a + b) + c) == Wrapped(a + (b + c))
    ensures a < U64 ==> Wrapped(a + 0) == a
  {
  }
}
