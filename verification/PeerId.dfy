/** Peer identifiers of crates/nlx-netlink/src/collectors/wireguard.rs: the 64-bit FNV-1a hash of a public
    key, in hex. */
module PeerId {
  import opened Bytes
  import opened Text

  const FNV_OFFSET: u64 := 0xcbf2_9ce4_8422_2325
  const FNV_PRIME := 0x0000_0100_0000_01b3
  /** FNV_PRIME * FNV_INVERSE == 1 modulo 2^64. */
  const FNV_INVERSE := 0xce96_5057_aff6_957b

  // ---- Exclusive or ----

  function Xor(x: nat, y: nat): nat {
    if x == 0 && y == 0 then 0 else (if x % 2 != y % 2 then 1 else 0) + 2 * Xor(x / 2, y / 2)
  }

  lemma {:induction false} XorUndoes(x: nat, y: nat)
    ensures Xor(Xor(x, y), y) == x
  {
    if x != 0 || y != 0 {
      XorUndoes(x / 2, y / 2);
    }
  }

  function Bits(n: nat): nat {
    if n == 0 then 1 else 2 * Bits(n - 1)
  }

  lemma {:induction false} XorBound(x: nat, y: nat, n: nat)
    requires x < Bits(n) && y < Bits(n)
    ensures Xor(x, y) < Bits(n)
  {
    if n > 0 {
      XorBound(x / 2, y / 2, n - 1);
    }
  }

  lemma {:induction false} FourBits(n: nat)
    ensures Bits(n + 4) == 16 * Bits(n)
  {
    assert Bits(n + 4) == 2 * Bits(n + 3) && Bits(n + 3) == 2 * Bits(n + 2) && Bits(n + 2) == 2 * Bits(n + 1);
  }

  lemma {:induction false} SixtyFourBits()
    ensures Bits(64) == U64
  {
    hide Bits;
    NoBits();
    FourBits(0); FourBits(4); FourBits(8); FourBits(12);
    FourBits(16); FourBits(20); FourBits(24); FourBits(28);
    FourBits(32); FourBits(36); FourBits(40); FourBits(44);
    FourBits(48); FourBits(52); FourBits(56); FourBits(60);
  }

  lemma {:induction false} NoBits()
    ensures Bits(0) == 1
  {
  }

  function XorByte(h: u64, b: byte): u64 {
    SixtyFourBits(); XorBound(h, b, 64); Xor(h, b)
  }

  // ---- Multiplication by an odd constant ----

  function Times(h: u64, factor: nat): u64 {
    h * factor % U64
  }

  lemma {:induction false} RemainderOf(x: nat, h: u64, c: int)
    requires x == h + c * U64
    ensures x % U64 == h
  {
  }

  lemma {:induction false} PrimeUndoes(h: u64)
    ensures Times(Times(h, FNV_PRIME), FNV_INVERSE) == h
    ensures Times(Times(h, FNV_INVERSE), FNV_PRIME) == h
  {
    var k := FNV_PRIME * FNV_INVERSE / U64;
    assert FNV_PRIME * FNV_INVERSE == 1 + k * U64;
    var q := h * FNV_PRIME / U64;
    RemainderOf(Times(h, FNV_PRIME) * FNV_INVERSE, h, k * h - q * FNV_INVERSE);
    var p := h * FNV_INVERSE / U64;
    RemainderOf(Times(h, FNV_INVERSE) * FNV_PRIME, h, k * h - p * FNV_PRIME);
  }

  // ---- The hash ----

  function Step(h: u64, b: byte): u64 {
    Times(XorByte(h, b), FNV_PRIME)
  }

  function Unstep(h: u64, b: byte): u64 {
    XorByte(Times(h, FNV_INVERSE), b)
  }

  /** For a fixed octet a step permutes the 64-bit states. */
  lemma {:induction false} StepIsBijection(h: u64, b: byte)
    ensures Unstep(Step(h, b), b) == h && Step(Unstep(h, b), b) == h
  {
    PrimeUndoes(XorByte(h, b));
    PrimeUndoes(h);
    XorUndoes(h, b);
    XorUndoes(Times(h, FNV_INVERSE), b);
  }

  /** From a fixed state different octets lead to different states. */
  lemma {:induction false} StepSeparatesOctets(h: u64, b: byte, c: byte)
    requires Step(h, b) == Step(h, c)
    ensures b == c
  {
    PrimeUndoes(XorByte(h, b));
    PrimeUndoes(XorByte(h, c));
    XorCancels(h, b, c);
  }

  lemma {:induction false} XorCancels(h: nat, b: nat, c: nat)
    requires Xor(h, b) == Xor(h, c)
    ensures b == c
  {
    if h != 0 || b != 0 || c != 0 {
      XorParity(h, b);
      XorParity(h, c);
      XorCancels(h / 2, b / 2, c / 2);
    }
  }

  lemma {:induction false} XorParity(x: nat, y: nat)
    ensures Xor(x, y) / 2 == Xor(x / 2, y / 2) && (Xor(x, y) % 2 == 1 <==> x % 2 != y % 2)
  {
  }

  function HashFrom(h: u64, key: bytes): u64
    decreases |key|
  {
    if key == [] then h else HashFrom(Step(h, key[0]), key[1..])
  }

  lemma {:induction false} HashFromInjective(g: u64, h: u64, key: bytes)
    requires HashFrom(g, key) == HashFrom(h, key)
    ensures g == h
    decreases |key|
  {
    hide Step;
    if key != [] {
      HashFromInjective(Step(g, key[0]), Step(h, key[0]), key[1..]);
      StepIsBijection(g, key[0]);
      StepIsBijection(h, key[0]);
    }
  }

  lemma {:induction false} HashFromAppend(h: u64, a: bytes, b: bytes)
    ensures HashFrom(h, a + b) == HashFrom(HashFrom(h, a), b)
    decreases |a|
  {
    hide Step;
    if a == [] {
      assert a + b == b;
    } else {
      HashFromAppend(Step(h, a[0]), a[1..], b);
      assert (a + b)[1..] == a[1..] + b;
    }
  }

  // ---- The text ----

  /** The last n hexadecimal digits, zero-padded. */
  function Hex(h: nat, n: nat): (s: string)
    ensures |s| == n
  {
    if n == 0 then [] else Hex(h / 16, n - 1) + [DigitChar(h % 16)]
  }

  lemma {:induction false} HexInjective(g: nat, h: nat, n: nat)
    requires g < Bits(4 * n) && h < Bits(4 * n) && Hex(g, n) == Hex(h, n)
    ensures g == h
  {
    hide Bits, DigitChar;
    if n == 0 {
      NoBits();
    } else {
      HexStep(g, n);
      HexStep(h, n);
      DigitReadsBack(g % 16, 16);
      DigitReadsBack(h % 16, 16);
      FourBits(4 * (n - 1));
      HexInjective(g / 16, h / 16, n - 1);
    }
  }

  lemma {:induction false} HexStep(h: nat, n: nat)
    requires n > 0
    ensures Hex(h, n)[..n - 1] == Hex(h / 16, n - 1) && Hex(h, n)[n - 1] == DigitChar(h % 16)
  {
  }

  function IdOf(key: bytes): string {
    Hex(HashFrom(FNV_OFFSET, key), 16)
  }

  method PubkeyHash(key: bytes) returns (id: string)
    ensures id == IdOf(key) && |id| == 16
  {
    hide HashFrom, XorByte;
    var h := FNV_OFFSET;
    assert key[0..] == key;
    for i := 0 to |key|
      invariant HashFrom(h, key[i..]) == HashFrom(FNV_OFFSET, key)
    {
      HashFromHead(h, key[i..]);
      assert key[i..][1..] == key[i + 1..];
      h := XorByte(h, key[i]);
      h := Times(h, FNV_PRIME);
    }
    HashFromHead(h, key[|key|..]);
    id := Hex(h, 16);
  }

  lemma {:induction false} HashFromHead(h: u64, key: bytes)
    ensures HashFrom(h, key) == if key == [] then h else HashFrom(Step(h, key[0]), key[1..])
  {
  }

  // ---- Published values ----

  /** Exclusive or, bit by bit. */
  lemma {:induction false} XorBits(x: nat, y: nat, i: nat, j: nat)
    requires i < 2 && j < 2
    ensures Xor(2 * x + i, 2 * y + j) == 2 * Xor(x, y) + if i == j then 0 else 1
  {
    if x == 0 && y == 0 && i == 0 && j == 0 {
      assert Xor(0, 0) == 0;
    } else {
      assert (2 * x + i) % 2 == i && (2 * y + j) % 2 == j && (2 * x + i) / 2 == x && (2 * y + j) / 2 == y;
    }
  }

  lemma {:induction false} XorNothing(x: nat)
    ensures Xor(x, 0) == x
  {
    if x != 0 {
      XorNothing(x / 2);
    }
  }

  /** The 64-bit FNV-1a hash of no octet is the offset basis, and that of the octet "a" is 0xaf63dc4c8601ec8c. */
  lemma {:induction false} PublishedHashes()
    ensures HashFrom(FNV_OFFSET, []) == 0xcbf29ce484222325
    ensures HashFrom(FNV_OFFSET, [0x61]) == 0xaf63dc4c8601ec8c
  {
    hide Xor;
    XorNothing(0x197e539c9084446);
    XorBits(0x197e539c9084446, 0x0, 0, 1);
    XorBits(0x32fca739210888c, 0x1, 1, 1);
    XorBits(0x65f94e724211119, 0x3, 0, 0);
    XorBits(0xcbf29ce48422232, 0x6, 0, 0);
    XorBits(0x197e539c90844464, 0xc, 1, 0);
    XorBits(0x32fca739210888c9, 0x18, 0, 0);
    XorBits(0x65f94e7242111192, 0x30, 1, 1);
    assert XorByte(FNV_OFFSET, 0x61) == 0xcbf29ce484222344;
    assert Times(0xcbf29ce484222344, FNV_PRIME) == 0xaf63dc4c8601ec8c;
    assert [0x61][1..] == [];
    HashFromHead(FNV_OFFSET, [0x61]);
    HashFromHead(0xaf63dc4c8601ec8c, []);
  }

  /** As text, lower-case, most significant digit first. */
  lemma {:induction false} PublishedText()
    ensures IdOf([0x61]) == "af63dc4c8601ec8c"
  {
    PublishedHashes();
    hide HashFrom, Hex;
    HexOfNothing();
    HexStep(0xa, 1);
    assert Hex(0xa, 1) == "a";
    HexStep(0xaf, 2);
    assert Hex(0xaf, 2) == "af";
    HexStep(0xaf6, 3);
    assert Hex(0xaf6, 3) == "af6";
    HexStep(0xaf63, 4);
    assert Hex(0xaf63, 4) == "af63";
    HexStep(0xaf63d, 5);
    assert Hex(0xaf63d, 5) == "af63d";
    HexStep(0xaf63dc, 6);
    assert Hex(0xaf63dc, 6) == "af63dc";
    HexStep(0xaf63dc4, 7);
    assert Hex(0xaf63dc4, 7) == "af63dc4";
    HexStep(0xaf63dc4c, 8);
    assert Hex(0xaf63dc4c, 8) == "af63dc4c";
    HexStep(0xaf63dc4c8, 9);
    assert Hex(0xaf63dc4c8, 9) == "af63dc4c8";
    HexStep(0xaf63dc4c86, 10);
    assert Hex(0xaf63dc4c86, 10) == "af63dc4c86";
    HexStep(0xaf63dc4c860, 11);
    assert Hex(0xaf63dc4c860, 11) == "af63dc4c860";
    HexStep(0xaf63dc4c8601, 12);
    assert Hex(0xaf63dc4c8601, 12) == "af63dc4c8601";
    HexStep(0xaf63dc4c8601e, 13);
    assert Hex(0xaf63dc4c8601e, 13) == "af63dc4c8601e";
    HexStep(0xaf63dc4c8601ec, 14);
    assert Hex(0xaf63dc4c8601ec, 14) == "af63dc4c8601ec";
    HexStep(0xaf63dc4c8601ec8, 15);
    assert Hex(0xaf63dc4c8601ec8, 15) == "af63dc4c8601ec8";
    HexStep(0xaf63dc4c8601ec8c, 16);
    assert Hex(0xaf63dc4c8601ec8c, 16) == "af63dc4c8601ec8c";
  }

  lemma {:induction false} HexOfNothing()
    ensures Hex(0, 0) == []
  {
  }

  /** Keys that agree from some point on share an identifier exactly when the hashes of what is in front collide. */
  lemma {:induction false} IdsCollideIff(a: bytes, b: bytes, rest: bytes)
    ensures IdOf(a + rest) == IdOf(b + rest) <==> HashFrom(FNV_OFFSET, a) == HashFrom(FNV_OFFSET, b)
  {
    hide HashFrom, Hex;
    var g, h := HashFrom(FNV_OFFSET, a + rest), HashFrom(FNV_OFFSET, b + rest);
    HashFromAppend(FNV_OFFSET, a, rest);
    HashFromAppend(FNV_OFFSET, b, rest);
    SixtyFourBits();
    if Hex(g, 16) == Hex(h, 16) {
      HexInjective(g, h, 16);
      HashFromInjective(HashFrom(FNV_OFFSET, a), HashFrom(FNV_OFFSET, b), rest);
    }
  }

  /** Two keys of equal length that differ in exactly one octet always have different identifiers. */
  lemma {:induction false} OneOctetSeparates(k: bytes, m: bytes, i: nat)
    requires |k| == |m| && i < |k| && k[i] != m[i]
    requires forall j :: 0 <= j < |k| && j != i ==> k[j] == m[j]
    ensures IdOf(k) != IdOf(m)
  {
    hide Step, IdOf;
    var front, rest := k[..i], k[i + 1..];
    assert k == front + [k[i]] + rest && m == front + [m[i]] + rest;
    IdsCollideIff(front + [k[i]], front + [m[i]], rest);
    HashFromAppend(FNV_OFFSET, front, [k[i]]);
    HashFromAppend(FNV_OFFSET, front, [m[i]]);
    var h := HashFrom(FNV_OFFSET, front);
    if Step(h, k[i]) == Step(h, m[i]) {
      StepSeparatesOctets(h, k[i], m[i]);
    }
  }
}
