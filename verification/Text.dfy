/** Numerals, cutting strings at a character, and the text octets stand for. */
module Text {
  import opened Wrappers
  import opened Bytes

  type radix = b: int | 2 <= b <= 16 witness 10

  function DigitChar(d: nat): char
    requires d < 16
  {
    if d < 10 then '0' + d as char else 'a' + (d - 10) as char
  }

  /** The value of a digit of the base, in either case. */
  function DigitValue(c: char, base: radix): Option<nat> {
    var d :=
      if '0' <= c <= '9' then (c - '0') as int
      else if 'a' <= c <= 'f' then (c - 'a') as int + 10
      else if 'A' <= c <= 'F' then (c - 'A') as int + 10
      else 16;
    if d < base then Some(d) else None
  }

  function High(n: nat, base: radix): (q: nat)
    ensures n >= base ==> q < n
  {
    n / base
  }

  function Combined(high: nat, low: nat, base: radix): nat {
    high * base + low
  }

  function Low(n: nat, base: radix): (d: nat)
    ensures d < base && Combined(High(n, base), d, base) == n
  {
    n % base
  }

  /** `{}` or `{:x}` of an unsigned integer. */
  function Numeral(n: nat, base: radix): (s: string)
    ensures s != []
  {
    (if n < base then [] else Numeral(High(n, base), base)) + [DigitChar(Low(n, base))]
  }

  function DigitsValue(s: string, base: radix): Option<nat> {
    if s == [] then Some(0)
    else
      var high, low := DigitsValue(s[..|s| - 1], base), DigitValue(s[|s| - 1], base);
      if high.Some? && low.Some? then Some(Combined(high.value, low.value, base)) else None
  }

  /** `from_str_radix`: an optional plus sign, at least one digit, and no overflow. */
  function ParseNumeral(s: string, base: radix, bound: nat): (r: Option<nat>)
    ensures r.Some? ==> r.value < bound
  {
    var digits := if s != [] && s[0] == '+' then s[1..] else s;
    if digits == [] then None
    else
      var v := DigitsValue(digits, base);
      if v.Some? && v.value < bound then v else None
  }

  lemma {:induction false} DigitReadsBack(d: nat, base: radix)
    requires d < base
    ensures DigitValue(DigitChar(d), base) == Some(d)
  {
  }

  lemma {:induction false} SmallHigh(n: nat, base: radix)
    requires n < base
    ensures Low(n, base) == n && Combined(0, n, base) == n
  {
  }

  lemma {:induction false} NumeralDigits(n: nat, base: radix)
    ensures DigitsValue(Numeral(n, base), base) == Some(n)
  {
    hide DigitChar, DigitValue, High, Low, Combined;
    var s, d := Numeral(n, base), Low(n, base);
    DigitReadsBack(d, base);
    assert s[|s| - 1] == DigitChar(d);
    if n < base {
      SmallHigh(n, base);
      assert s[..|s| - 1] == [];
    } else {
      NumeralDigits(High(n, base), base);
      assert s[..|s| - 1] == Numeral(High(n, base), base);
    }
  }

  predicate Alphanumeric(c: char) {
    '0' <= c <= '9' || 'a' <= c <= 'f'
  }

  lemma {:induction false} NumeralIsAlphanumeric(n: nat, base: radix)
    ensures forall c :: c in Numeral(n, base) ==> Alphanumeric(c)
  {
    hide High, Low;
    if n >= base {
      NumeralIsAlphanumeric(High(n, base), base);
    }
  }

  /** Parsing inverts printing for every integer of the width. */
  lemma {:induction false} NumeralRoundTrip(n: nat, base: radix, bound: nat)
    requires n < bound
    ensures ParseNumeral(Numeral(n, base), base, bound) == Some(n)
  {
    NumeralDigits(n, base);
    NumeralIsAlphanumeric(n, base);
    assert Numeral(n, base)[0] in Numeral(n, base);
  }

  /** Decimal and hexadecimal digits, most significant first. */
  lemma {:induction false} NumeralByDigits(n: nat, d: nat)
    ensures d < 10 ==> Numeral(10 * n + d, 10) == (if n == 0 then [] else Numeral(n, 10)) + ["0123456789"[d]]
    ensures d < 16 ==> Numeral(16 * n + d, 16) == (if n == 0 then [] else Numeral(n, 16)) + ["0123456789abcdef"[d]]
  {
    if d < 16 {
      DigitsInText(d);
    }
    hide DigitChar;
    assert d < 10 ==> High(10 * n + d, 10) == n && Low(10 * n + d, 10) == d;
    assert d < 16 ==> High(16 * n + d, 16) == n && Low(16 * n + d, 16) == d;
  }

  /** Digits are printed in lower case and read in either. */
  lemma {:induction false} DigitsInText(d: nat)
    requires d < 16
    ensures DigitChar(d) == "0123456789abcdef"[d] && (d < 10 ==> DigitChar(d) == "0123456789"[d])
    ensures DigitValue("0123456789abcdef"[d], 16) == Some(d) && DigitValue("0123456789ABCDEF"[d], 16) == Some(d)
    ensures DigitValue("0123456789abcdef"[d], 10) == if d < 10 then Some(d) else None
  {
  }

  /** The part in front of the first occurrence of a character, the whole string when there is none. */
  function Before<T(==)>(s: seq<T>, c: T): (r: seq<T>)
    ensures |r| <= |s| && r == s[..|r|] && c !in r
    ensures |r| < |s| <==> c in s
    ensures |r| < |s| ==> s[|r|] == c
  {
    if s == [] || s[0] == c then [] else [s[0]] + Before(s[1..], c)
  }

  lemma {:induction false} BeforeSeparator<T>(a: seq<T>, c: T, b: seq<T>)
    requires c !in a
    ensures Before(a + [c] + b, c) == a
  {
    if a == [] {
      assert a + [c] + b == [c] + b;
    } else {
      BeforeSeparator(a[1..], c, b);
      assert (a + [c] + b)[1..] == a[1..] + [c] + b;
    }
  }

  /** A longer text has the same front up to the character. */
  lemma {:induction false} BeforeInPrefix<T>(p: seq<T>, s: seq<T>, c: T)
    requires p <= s && c in p
    ensures Before(s, c) == Before(p, c) && |Before(p, c)| < |p|
  {
    var a := Before(p, c);
    assert p == a + [c] + p[|a| + 1..];
    assert s == a + [c] + s[|a| + 1..];
    BeforeSeparator(a, c, s[|a| + 1..]);
  }

  /** The pieces between occurrences of a character; one more than there are occurrences. */
  function Split(s: string, c: char): (r: seq<string>)
    ensures r != []
    decreases |s|
  {
    var a := Before(s, c);
    if |a| == |s| then [s] else [a] + Split(s[|a| + 1..], c)
  }

  lemma {:induction false} SplitSeparator(a: string, c: char, b: string)
    requires c !in a
    ensures Split(a + [c] + b, c) == [a] + Split(b, c)
  {
    BeforeSeparator(a, c, b);
    assert (a + [c] + b)[|a| + 1..] == b;
  }

  // ---- Octets as text ----

  /** A continuation octet of UTF-8. */
  predicate Continues(b: byte) {
    0x80 <= b <= 0xBF
  }

  /** The length of a sequence by its first octet, 0 for one that starts none. */
  function LeadLength(b: byte): nat {
    if b < 0x80 then 1
    else if 0xC2 <= b <= 0xDF then 2
    else if 0xE0 <= b <= 0xEF then 3
    else if 0xF0 <= b <= 0xF4 then 4
    else 0
  }

  /** The second octet: no overlong forms, no surrogates, nothing beyond U+10FFFF. */
  predicate SecondFits(lead: byte, b: byte) {
    && Continues(b)
    && (lead == 0xE0 ==> b >= 0xA0) && (lead == 0xED ==> b <= 0x9F)
    && (lead == 0xF0 ==> b >= 0x90) && (lead == 0xF4 ==> b <= 0x8F)
  }

  /** How many octets at the front belong to a sequence of section 4 of RFC 3629, perhaps an unfinished one. */
  function GoodFront(s: bytes): (n: nat)
    ensures n <= |s| && (s != [] ==> n <= LeadLength(s[0]))
  {
    if s == [] then 0
    else
      var w := LeadLength(s[0]);
      if w == 0 then 0
      else if w == 1 || |s| < 2 || !SecondFits(s[0], s[1]) then 1
      else if w == 2 || |s| < 3 || !Continues(s[2]) then 2
      else if w == 3 || |s| < 4 || !Continues(s[3]) then 3
      else 4
  }

  /** The length of the well-formed sequence at the front, 0 when there is none. */
  function Utf8Length(s: bytes): (n: nat)
    ensures n <= |s|
  {
    if s != [] && GoodFront(s) == LeadLength(s[0]) then GoodFront(s) else 0
  }

  /** `str::from_utf8` accepts the octets. */
  predicate IsUtf8(s: bytes)
    decreases |s|
  {
    s == [] || (Utf8Length(s) > 0 && IsUtf8(s[Utf8Length(s)..]))
  }

  predicate Ascii(s: bytes) {
    forall b :: b in s ==> b < 0x80
  }

  lemma {:induction false} AsciiIsUtf8(s: bytes)
    requires Ascii(s)
    ensures IsUtf8(s)
  {
    if s != [] {
      assert s[0] in s;
      assert Utf8Length(s) == 1;
      assert forall b :: b in s[1..] ==> b in s;
      AsciiIsUtf8(s[1..]);
    }
  }

  /** A front of UTF-8 that ends in an ASCII octet is UTF-8. */
  lemma {:induction false} Utf8Front(q: bytes, p: bytes)
    requires q <= p && q != [] && q[|q| - 1] < 0x80 && IsUtf8(p)
    ensures IsUtf8(q)
    decreases |q|
  {
    hide Utf8Length;
    var n := Utf8Length(p);
    Utf8LengthInFront(q, p);
    if n < |q| {
      assert q[n..] == p[n..][..|q| - n];
      Utf8Front(q[n..], p[n..]);
    } else {
      assert q[n..] == [];
    }
  }

  lemma {:induction false} Utf8LengthInFront(q: bytes, p: bytes)
    requires q <= p && q != [] && q[|q| - 1] < 0x80 && Utf8Length(p) > 0
    ensures Utf8Length(q) == Utf8Length(p)
  {
    assert forall i :: 0 <= i < |q| ==> q[i] == p[i];
  }

  /** The six bits a continuation octet carries, behind those before it. */
  function Carry(high: nat, b: byte): (n: nat)
    requires Continues(b)
    ensures n / 0x40 == high && 0x80 + n % 0x40 == b
  {
    high * 0x40 + (b as int - 0x80)
  }

  /** The character of the sequence at the front. */
  function FrontChar(s: bytes): char
    requires Utf8Length(s) > 0
  {
    var lead: int := s[0];
    match Utf8Length(s)
    case 1 => lead as char
    case 2 => Carry(lead - 0xC0, s[1]) as char
    case 3 => Carry(Carry(lead - 0xE0, s[1]), s[2]) as char
    case _ => Carry(Carry(Carry(lead - 0xF0, s[1]), s[2]), s[3]) as char
  }

  const REPLACEMENT: char := '\U{FFFD}'

  /** `String::from_utf8_lossy`: every sequence that is not well-formed, as far as it goes, becomes U+FFFD. */
  function LossyText(s: bytes): (t: string)
    ensures t == [] <==> s == []
    decreases |s|
  {
    if s == [] then []
    else if Utf8Length(s) > 0 then [FrontChar(s)] + LossyText(s[Utf8Length(s)..])
    else [REPLACEMENT] + LossyText(s[if GoodFront(s) > 0 then GoodFront(s) else 1..])
  }

  /** `str::from_utf8` */
  function Decode(s: bytes): Option<string> {
    if IsUtf8(s) then Some(LossyText(s)) else None
  }

  function EncodeChar(c: char): bytes {
    var n := c as int;
    if n < 0x80 then [n]
    else if n < 0x800 then [0xC0 + n / 0x40, 0x80 + n % 0x40]
    else if n < 0x1_0000 then [0xE0 + n / 0x40 / 0x40, 0x80 + n / 0x40 % 0x40, 0x80 + n % 0x40]
    else [0xF0 + n / 0x40 / 0x40 / 0x40, 0x80 + n / 0x40 / 0x40 % 0x40, 0x80 + n / 0x40 % 0x40, 0x80 + n % 0x40]
  }

  /** The octets of a string. */
  function Encode(t: string): bytes {
    if t == [] then [] else EncodeChar(t[0]) + Encode(t[1..])
  }

  lemma {:induction false} FrontCharReadsBack(s: bytes)
    requires Utf8Length(s) > 0
    ensures EncodeChar(FrontChar(s)) == s[..Utf8Length(s)]
  {
    hide Carry;
  }

  lemma {:induction false} EncodedCharIsSequence(c: char, rest: bytes)
    ensures Utf8Length(EncodeChar(c) + rest) == |EncodeChar(c)|
  {
  }

  lemma {:induction false} EncodedIsUtf8(t: string)
    ensures IsUtf8(Encode(t))
  {
    hide Utf8Length, EncodeChar;
    if t != [] {
      EncodedIsUtf8(t[1..]);
      EncodedCharIsSequence(t[0], Encode(t[1..]));
      EncodedCharIsSequence(t[0], []);
    }
  }

  /** Decoding loses nothing exactly on UTF-8. */
  lemma {:induction false} LosslessIff(s: bytes)
    ensures Encode(LossyText(s)) == s <==> IsUtf8(s)
  {
    EncodedIsUtf8(LossyText(s));
    if IsUtf8(s) {
      TextReadsBack(s);
    }
  }

  lemma {:induction false} EncodeCons(c: char, t: string)
    ensures Encode([c] + t) == EncodeChar(c) + Encode(t)
  {
    hide EncodeChar;
    assert ([c] + t)[1..] == t;
  }

  lemma {:induction false} TextReadsBack(s: bytes)
    requires IsUtf8(s)
    ensures Encode(LossyText(s)) == s
    decreases |s|
  {
    hide Utf8Length, GoodFront, EncodeChar, FrontChar, Encode;
    if s == [] {
      NothingEncoded();
    } else {
      var n := Utf8Length(s);
      FrontCharReadsBack(s);
      TextReadsBack(s[n..]);
      EncodeCons(FrontChar(s), LossyText(s[n..]));
      assert s == s[..n] + s[n..];
    }
  }

  lemma {:induction false} NothingEncoded()
    ensures Encode([]) == []
  {
  }

  lemma {:induction false} DecodedApart(a: bytes, b: bytes)
    requires IsUtf8(a) && IsUtf8(b) && LossyText(a) == LossyText(b)
    ensures a == b
  {
    hide IsUtf8, LossyText, Encode;
    LosslessIff(a);
    LosslessIff(b);
  }

  lemma {:induction false} LossyCons(front: bytes, c: char, rest: bytes)
    requires front != [] && Utf8Length(front + rest) == |front| && FrontChar(front + rest) == c
    ensures LossyText(front + rest) == [c] + LossyText(rest)
  {
    hide Utf8Length, FrontChar;
    assert (front + rest)[|front|..] == rest;
  }

  /** Sequences of two, three and four octets. */
  lemma {:induction false} DecodedInNumbers(rest: bytes)
    ensures LossyText([0x41] + rest) == ['A'] + LossyText(rest)
    ensures LossyText([0xCE, 0x91] + rest) == ['\U{391}'] + LossyText(rest)
    ensures LossyText([0xE2, 0x89, 0xA2] + rest) == ['\U{2262}'] + LossyText(rest)
    ensures LossyText([0xF0, 0xA3, 0x8E, 0xB4] + rest) == ['\U{233B4}'] + LossyText(rest)
  {
    hide LossyText;
    LossyCons([0x41], 'A', rest);
    LossyCons([0xCE, 0x91], '\U{391}', rest);
    LossyCons([0xE2, 0x89, 0xA2], '\U{2262}', rest);
    LossyCons([0xF0, 0xA3, 0x8E, 0xB4], '\U{233B4}', rest);
  }

  lemma {:induction false} ReplacedCons(bad: bytes, rest: bytes)
    requires bad != [] && Utf8Length(bad + rest) == 0
    requires |bad| == if GoodFront(bad + rest) > 0 then GoodFront(bad + rest) else 1
    ensures LossyText(bad + rest) == ['\U{FFFD}'] + LossyText(rest)
  {
    hide Utf8Length, GoodFront;
    assert (bad + rest)[|bad|..] == rest;
  }

  /** One replacement for an unfinished sequence, one for each octet that begins none: overlong forms, surrogates. */
  lemma {:induction false} ReplacedInNumbers(rest: bytes)
    ensures LossyText([0xE2, 0x82] + ([0x41] + rest)) == ['\U{FFFD}', 'A'] + LossyText(rest)
    ensures LossyText([0xC0] + ([0x80] + rest)) == ['\U{FFFD}', '\U{FFFD}'] + LossyText(rest)
    ensures LossyText([0xED] + ([0xA0] + rest)) == ['\U{FFFD}', '\U{FFFD}'] + LossyText(rest)
  {
    hide LossyText;
    LossyCons([0x41], 'A', rest);
    ReplacedCons([0xE2, 0x82], [0x41] + rest);
    ReplacedCons([0x80], rest);
    ReplacedCons([0xC0], [0x80] + rest);
    ReplacedCons([0xA0], rest);
    ReplacedCons([0xED], [0xA0] + rest);
  }
}
