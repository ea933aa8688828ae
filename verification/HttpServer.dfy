/** The connection handler of crates/nlx-http/src/server.rs: request headers gathered from reads of any size, the path
    of the request line, and the pauses after failing accepts. */
module HttpServer {
  import opened Wrappers
  import opened Bytes
  import opened Text

  const READ_LEN: nat := 512
  const REQUEST_HEADER_CAP: nat := 8 * 1024
  const CR: byte := 13
  const LF: byte := 10
  const SPACE: byte := 32
  const SLASH: byte := 47
  const BLANK_LINE: bytes := [CR, LF, CR, LF]

  /** What one read delivers; a closed connection is the end of the reads. */
  type Chunk = c: bytes | 1 <= |c| <= READ_LEN witness [0]

  /** A blank line ends at e. */
  predicate BlankAt(s: bytes, e: nat) {
    4 <= e <= |s| && s[e - 4..e] == BLANK_LINE
  }

  predicate HasBlank(s: bytes) {
    exists e :: 0 <= e <= |s| && BlankAt(s, e)
  }

  function Joined(chunks: seq<Chunk>): bytes {
    if chunks == [] then [] else Joined(chunks[..|chunks| - 1]) + chunks[|chunks| - 1]
  }

  /** The octets received after k reads. */
  function Received(chunks: seq<Chunk>, k: nat): bytes
    requires k <= |chunks|
  {
    Joined(chunks[..k])
  }

  /** After k reads there is a blank line, and no earlier read was the end: no blank line yet and below the cap. */
  ghost predicate AcceptsAt(chunks: seq<Chunk>, k: nat) {
    && 0 < k <= |chunks|
    && HasBlank(Received(chunks, k))
    && forall j :: 0 < j < k ==> !HasBlank(Received(chunks, j)) && |Received(chunks, j)| < REQUEST_HEADER_CAP
  }

  /** The loop takes at least k reads: none of those before is the end. */
  ghost predicate Reaches(chunks: seq<Chunk>, k: nat) {
    k <= |chunks| && forall j :: 0 < j < k ==>
                       !HasBlank(Received(chunks, j)) && |Received(chunks, j)| < REQUEST_HEADER_CAP
  }

  /** Whatever becomes of the connection, the buffer never holds more than 8703 octets. */
  lemma {:induction false} BufferBounded(chunks: seq<Chunk>, k: nat)
    requires Reaches(chunks, k)
    ensures |Received(chunks, k)| <= REQUEST_HEADER_CAP - 1 + READ_LEN == 8703
  {
    hide HasBlank;
    NothingReceived(chunks);
    if k > 0 {
      ReceivedGrows(chunks, k - 1, k);
      hide Received;
      assert k > 1 ==> |Received(chunks, k - 1)| < REQUEST_HEADER_CAP;
    }
  }

  /** The accumulation loop. It gives the octets of the first reads that hold a blank line, unless the cap or the
      end of the connection comes first; `taken` reads are made, so the buffer has been what was received after
      each of them. */
  method ReadHeaders(chunks: seq<Chunk>) returns (r: Option<bytes>, ghost taken: nat)
    ensures r.Some? ==> AcceptsAt(chunks, taken) && r.value == Received(chunks, taken)
    ensures r.None? ==> forall k: nat :: !AcceptsAt(chunks, k)
    ensures Reaches(chunks, taken)
    ensures forall k :: 0 <= k <= taken ==> |Received(chunks, k)| <= 8703
  {
    var buf: bytes := [];
    var i := 0;
    taken := 0;
    assert chunks[..0] == [];
    while i < |chunks|
      invariant 0 <= i == taken <= |chunks| && buf == Received(chunks, i) && |buf| < REQUEST_HEADER_CAP
      invariant forall j :: 0 < j <= i ==> !HasBlank(Received(chunks, j))
      invariant forall j :: 0 <= j <= i ==> |Received(chunks, j)| < REQUEST_HEADER_CAP
    {
      assert chunks[..i + 1][..i] == chunks[..i];
      buf := buf + chunks[i];
      i := i + 1;
      taken := i;
      BufferBounded(chunks, i);
      if HasBlank(buf) {
        return Some(buf), taken;
      }
      if |buf| >= REQUEST_HEADER_CAP {
        forall k: nat ensures !AcceptsAt(chunks, k) {
          if k > i {
            assert |Received(chunks, i)| >= REQUEST_HEADER_CAP;
          }
        }
        return None, taken;
      }
    }
    return None, taken;
  }

  // ---- Which chunkings are accepted ----

  /** e is where the first blank line of the stream ends. */
  ghost predicate FirstBlank(s: bytes, e: nat) {
    BlankAt(s, e) && forall d :: 0 <= d < e ==> !BlankAt(s, d)
  }

  lemma {:induction false} ReceivedGrows(chunks: seq<Chunk>, j: nat, k: nat)
    requires j <= k <= |chunks|
    ensures Received(chunks, j) <= Received(chunks, k) <= Joined(chunks)
    ensures j < k ==> |Received(chunks, j)| < |Received(chunks, k)|
    ensures k > 0 ==> |Received(chunks, k)| <= |Received(chunks, k - 1)| + READ_LEN
    decreases |chunks| - j
  {
    assert chunks[..|chunks|] == chunks;
    if j < |chunks| {
      assert chunks[..j + 1][..j] == chunks[..j];
      if j < k {
        ReceivedGrows(chunks, j + 1, k);
      } else {
        ReceivedGrows(chunks, j + 1, j + 1);
      }
    }
    if k > 0 {
      assert chunks[..k][..k - 1] == chunks[..k - 1];
    }
  }

  lemma {:induction false} PrefixBlank(p: bytes, s: bytes, e: nat)
    requires p <= s && FirstBlank(s, e)
    ensures HasBlank(p) <==> e <= |p|
  {
    if e <= |p| {
      assert p[e - 4..e] == s[e - 4..e];
      assert BlankAt(p, e);
    }
    if d :| 0 <= d <= |p| && BlankAt(p, d) {
      assert s[d - 4..d] == p[d - 4..d];
      assert BlankAt(s, d);
    }
  }

  lemma {:induction false} LeastReaching(chunks: seq<Chunk>, e: nat) returns (k: nat)
    requires 0 < e <= |Joined(chunks)|
    ensures 0 < k <= |chunks| && e <= |Received(chunks, k)| && forall j :: 0 <= j < k ==> |Received(chunks, j)| < e
  {
    assert chunks[..|chunks|] == chunks && chunks[..0] == [];
    k := 0;
    while |Received(chunks, k)| < e
      invariant k <= |chunks|
      invariant forall j :: 0 <= j < k ==> |Received(chunks, j)| < e
      decreases |chunks| - k
    {
      k := k + 1;
    }
  }

  /** A stream whose first blank line ends at e is accepted exactly when no read ends between the cap and e. */
  lemma {:induction false} AcceptedIff(chunks: seq<Chunk>, e: nat)
    requires FirstBlank(Joined(chunks), e)
    ensures (exists k: nat :: AcceptsAt(chunks, k)) <==>
            forall j :: 0 <= j <= |chunks| ==> !(REQUEST_HEADER_CAP <= |Received(chunks, j)| < e)
  {
    hide Received, HasBlank;
    var s := Joined(chunks);
    forall j | 0 <= j <= |chunks|
      ensures Received(chunks, j) <= s && (HasBlank(Received(chunks, j)) <==> e <= |Received(chunks, j)|) {
      ReceivedGrows(chunks, j, j);
      PrefixBlank(Received(chunks, j), s, e);
    }
    if k: nat :| AcceptsAt(chunks, k) {
      forall j | 0 <= j <= |chunks| ensures !(REQUEST_HEADER_CAP <= |Received(chunks, j)| < e) {
        if j >= k {
          ReceivedGrows(chunks, k, j);
        } else if j == 0 {
          NothingReceived(chunks);
        }
      }
    }
    if forall j :: 0 <= j <= |chunks| ==> !(REQUEST_HEADER_CAP <= |Received(chunks, j)| < e) {
      var k := LeastReaching(chunks, e);
      assert AcceptsAt(chunks, k);
    }
  }

  lemma {:induction false} NothingReceived(chunks: seq<Chunk>)
    ensures Received(chunks, 0) == []
  {
    assert chunks[..0] == [];
  }

  /** Within the cap every chunking is accepted, beyond 8703 octets none is, and without a blank line none is. */
  lemma {:induction false} AcceptedByLength(chunks: seq<Chunk>)
    ensures forall e: nat :: FirstBlank(Joined(chunks), e) && e <= REQUEST_HEADER_CAP ==>
              exists k: nat :: AcceptsAt(chunks, k)
    ensures forall e: nat :: FirstBlank(Joined(chunks), e) && e > REQUEST_HEADER_CAP - 1 + READ_LEN ==>
              forall k: nat :: !AcceptsAt(chunks, k)
    ensures !HasBlank(Joined(chunks)) ==> forall k: nat :: !AcceptsAt(chunks, k)
  {
    hide Received, HasBlank;
    forall e: nat | FirstBlank(Joined(chunks), e) && e <= REQUEST_HEADER_CAP
      ensures exists k: nat :: AcceptsAt(chunks, k) {
      AcceptedIff(chunks, e);
    }
    forall e: nat, k: nat | FirstBlank(Joined(chunks), e) && e > REQUEST_HEADER_CAP - 1 + READ_LEN
      ensures !AcceptsAt(chunks, k) {
      if AcceptsAt(chunks, k) {
        ReceivedGrows(chunks, k - 1, k);
        PrefixBlank(Received(chunks, k), Joined(chunks), e);
        NothingReceived(chunks);
      }
    }
    forall k: nat | !HasBlank(Joined(chunks)) ensures !AcceptsAt(chunks, k) {
      if AcceptsAt(chunks, k) {
        ReceivedGrows(chunks, k, k);
        BlankStays(Received(chunks, k), Joined(chunks));
      }
    }
  }

  lemma {:induction false} BlankStays(p: bytes, s: bytes)
    requires p <= s && HasBlank(p)
    ensures HasBlank(s)
  {
    var e :| 0 <= e <= |p| && BlankAt(p, e);
    assert s[e - 4..e] == p[e - 4..e];
    assert BlankAt(s, e);
  }

  // ---- The cut decides ----

  /** A stream delivered in full reads. */
  function FullReads(s: bytes): (chunks: seq<Chunk>)
    decreases |s|
  {
    if s == [] then [] else if |s| <= READ_LEN then [s] else [s[..READ_LEN]] + FullReads(s[READ_LEN..])
  }

  lemma {:induction false} JoinedCons(c: Chunk, chunks: seq<Chunk>)
    ensures Joined([c] + chunks) == c + Joined(chunks)
  {
    if chunks == [] {
      assert ([c] + chunks)[..0] == [] && Joined([c]) == Joined([c][..0]) + c;
      assert [c] + chunks == [c];
    } else {
      assert ([c] + chunks)[..|chunks|] == [c] + chunks[..|chunks| - 1];
      JoinedCons(c, chunks[..|chunks| - 1]);
    }
  }

  lemma {:induction false} FullReadsJoin(s: bytes)
    ensures Joined(FullReads(s)) == s
    decreases |s|
  {
    if |s| > READ_LEN {
      FullReadsJoin(s[READ_LEN..]);
      JoinedCons(s[..READ_LEN], FullReads(s[READ_LEN..]));
    } else if s != [] {
      JoinedCons(s, []);
      assert [s] + [] == [s];
    }
  }

  /** After j full reads, j times 512 octets have come, up to the whole stream. */
  lemma {:induction false} FullReadsReceived(s: bytes, j: nat)
    requires j <= |FullReads(s)|
    ensures |Received(FullReads(s), j)| == Min(READ_LEN * j, |s|)
    decreases |s|
  {
    var chunks := FullReads(s);
    if j == 0 {
      NothingReceived(chunks);
    } else if |s| > READ_LEN {
      FullReadsReceived(s[READ_LEN..], j - 1);
      assert chunks[..j] == [chunks[0]] + FullReads(s[READ_LEN..])[..j - 1];
      JoinedCons(chunks[0], FullReads(s[READ_LEN..])[..j - 1]);
    } else {
      assert chunks[..1] == [s] + [];
      JoinedCons(s, []);
    }
  }

  lemma {:induction false} FullReadsCount(s: bytes, j: nat)
    requires READ_LEN * j <= |s|
    ensures j <= |FullReads(s)|
    decreases |s|
  {
    if j > 0 && |s| > READ_LEN {
      FullReadsCount(s[READ_LEN..], j - 1);
    }
  }

  /** One stream, two answers: whenever the first blank line ends between 8193 and 8703, full reads are dropped at the
      cap, and a first read of just the right length lets the same octets through. */
  lemma {:induction false} ChunkingDecides(s: bytes, e: nat)
    requires FirstBlank(s, e) && REQUEST_HEADER_CAP < e <= REQUEST_HEADER_CAP - 1 + READ_LEN
    ensures var first := e - REQUEST_HEADER_CAP;
            var full, shifted := FullReads(s), [s[..first]] + FullReads(s[first..]);
            && Joined(full) == Joined(shifted) == s
            && (forall k: nat :: !AcceptsAt(full, k)) && (exists k: nat :: AcceptsAt(shifted, k))
  {
    hide AcceptsAt, FullReads, Received, FirstBlank, Joined;
    assert e <= |s| by { FirstBlankFits(s, e); }
    var first := e - REQUEST_HEADER_CAP;
    var full, shifted := FullReads(s), [s[..first]] + FullReads(s[first..]);
    FullReadsJoin(s);
    FullReadsJoin(s[first..]);
    JoinedCons(s[..first], FullReads(s[first..]));
    assert s[..first] + s[first..] == s;
    FullReadsCount(s, 16);
    FullReadsReceived(s, 16);
    AcceptedIff(full, e);
    forall j | 0 <= j <= |shifted| ensures !(REQUEST_HEADER_CAP <= |Received(shifted, j)| < e) {
      ShiftedReceived(s, first, j);
    }
    AcceptedIff(shifted, e);
  }

  lemma {:induction false} FirstBlankFits(s: bytes, e: nat)
    requires FirstBlank(s, e)
    ensures e <= |s|
  {
  }

  lemma {:induction false} ShiftedReceived(s: bytes, first: nat, j: nat)
    requires 0 < first <= |s| && first <= READ_LEN && j <= 1 + |FullReads(s[first..])|
    ensures |Received([s[..first]] + FullReads(s[first..]), j)|
            == if j == 0 then 0 else first + Min(READ_LEN * (j - 1), |s| - first)
  {
    hide FullReads;
    var shifted: seq<Chunk> := [s[..first]] + FullReads(s[first..]);
    if j == 0 {
      NothingReceived(shifted);
    } else {
      assert shifted[..j] == [s[..first]] + FullReads(s[first..])[..j - 1];
      JoinedCons(s[..first], FullReads(s[first..])[..j - 1]);
      FullReadsReceived(s[first..], j - 1);
    }
  }

  // ---- The path ----

  /** The first line, without its line ending. */
  function FirstLine(s: bytes): bytes {
    var line := Before(s, LF);
    if |line| < |s| && line != [] && line[|line| - 1] == CR then line[..|line| - 1] else line
  }

  /** A line ends at a line feed, with or without a carriage return in front; a line that is not ended keeps its own. */
  lemma {:induction false} LineEndings(line: bytes, rest: bytes)
    requires 10 !in line
    ensures FirstLine(line + [13, 10] + rest) == line && FirstLine(line) == line
    ensures line == [] || line[|line| - 1] != 13 ==> FirstLine(line + [10] + rest) == line
  {
    assert line + [13, 10] + rest == line + [13] + [10] + rest;
    BeforeSeparator(line + [13], 10, rest);
    BeforeSeparator(line, 10, rest);
  }

  /** The second word of the first line, "/" without one. */
  function PathOf(buf: bytes): bytes {
    var line := if IsUtf8(buf) then FirstLine(buf) else [];
    var method_ := Before(line, SPACE);
    if |method_| == |line| then [SLASH] else Before(line[|method_| + 1..], SPACE)
  }

  /** An accepted chunking gives the path found in the octets up to the first blank line exactly when what was received,
      with any octets behind the blank line, is UTF-8, or that path is the fallback anyway: the cut never matters to an
      ASCII stream, but it does when it splits a character behind the headers. */
  lemma {:induction false} ChunkingDoesNotMatterIff(chunks: seq<Chunk>, k: nat, e: nat)
    requires FirstBlank(Joined(chunks), e) && AcceptsAt(chunks, k)
    ensures PathOf(Received(chunks, k)) == PathOf(Joined(chunks)[..e]) <==>
            IsUtf8(Received(chunks, k)) || PathOf(Joined(chunks)[..e]) == [SLASH]
    ensures Ascii(Joined(chunks)) ==> IsUtf8(Received(chunks, k))
  {
    hide Received, HasBlank, PathOf, IsUtf8;
    var s, p := Joined(chunks), Received(chunks, k);
    ReceivedGrows(chunks, k, k);
    PrefixBlank(p, s, e);
    BlankHasLine(s, e);
    if IsUtf8(p) {
      Utf8Front(s[..e], p);
      PathInPrefix(s[..e], p);
    } else {
      PathOfNoText(p);
    }
    if Ascii(s) {
      assert forall b :: b in p ==> b in s;
      AsciiIsUtf8(p);
    }
  }

  /** Two accepted chunkings of one stream: a read that ends at the blank line leads to the path of the headers, one
      that takes along half of the two octets of a character behind it to the fallback. */
  lemma {:induction false} SplitCharacterLosesPath(h: bytes, whole: seq<Chunk>, split: seq<Chunk>)
    requires Ascii(h) && FirstBlank(h, |h|) && |h| < READ_LEN
    requires whole == [h, [0xC3, 0xA9]] && split == [h + [0xC3], [0xA9]]
    ensures Joined(whole) == Joined(split) && AcceptsAt(whole, 1) && AcceptsAt(split, 1)
    ensures PathOf(Received(whole, 1)) == PathOf(h) && PathOf(Received(split, 1)) == [47]
  {
    hide PathOf, IsUtf8, Received, Joined, AcceptsAt;
    TwoReads(h, [0xC3, 0xA9], |h|);
    assert (h + [0xC3])[|h| - 4..|h|] == h[|h| - 4..];
    TwoReads(h + [0xC3], [0xA9], |h|);
    assert h + [0xC3, 0xA9] == h + [0xC3] + [0xA9];
    OpenCharacter(h);
    PathOfNoText(h + [0xC3]);
  }

  lemma {:induction false} TwoReads(a: Chunk, b: Chunk, e: nat)
    requires BlankAt(a, e)
    ensures Joined([a, b]) == a + b && Received([a, b], 1) == a && AcceptsAt([a, b], 1)
  {
    assert [a, b][..1] == [a] && [a][..0] == [];
    assert Joined([a]) == Joined([a][..0]) + a == a;
    assert HasBlank(a);
  }

  lemma {:induction false} OpenCharacter(h: bytes)
    requires Ascii(h)
    ensures !IsUtf8(h + [0xC3])
  {
    if h != [] {
      assert h[0] in h;
      assert forall b :: b in h[1..] ==> b in h;
      OpenCharacter(h[1..]);
      assert (h + [0xC3])[1..] == h[1..] + [0xC3];
    }
  }

  lemma {:induction false} PathOfNoText(buf: bytes)
    requires !IsUtf8(buf)
    ensures PathOf(buf) == [SLASH]
  {
  }

  lemma {:induction false} BlankHasLine(s: bytes, e: nat)
    requires BlankAt(s, e)
    ensures s[e - 1] == LF && LF in s[..e]
  {
    assert s[e - 4..e][3] == LF;
    assert s[..e][e - 1] == LF;
  }

  lemma {:induction false} PathInPrefix(q: bytes, p: bytes)
    requires q <= p && LF in q && IsUtf8(q) && IsUtf8(p)
    ensures PathOf(p) == PathOf(q)
  {
    hide FirstLine, Before;
    LineInPrefix(q, p);
  }

  lemma {:induction false} LineInPrefix(q: bytes, p: bytes)
    requires q <= p && LF in q
    ensures FirstLine(p) == FirstLine(q)
  {
    hide Before;
    BeforeInPrefix(q, p, LF);
  }

  /** The path of a request as clients write it is its second word. */
  lemma {:induction false} RequestPath(verb: bytes, path: bytes, version: bytes, rest: bytes)
    requires SPACE !in verb && SPACE !in path && LF !in verb && LF !in path && LF !in version
    requires IsUtf8(verb + [SPACE] + path + [SPACE] + version + [CR, LF] + rest)
    ensures PathOf(verb + [SPACE] + path + [SPACE] + version + [CR, LF] + rest) == path
  {
    hide IsUtf8;
    var line := verb + [SPACE] + (path + [SPACE] + version);
    var buf := verb + [SPACE] + path + [SPACE] + version + [CR, LF] + rest;
    assert buf == line + [CR] + [LF] + rest;
    BeforeSeparator(line + [CR], LF, rest);
    assert FirstLine(buf) == line;
    BeforeSeparator(verb, SPACE, path + [SPACE] + version);
    assert line[|verb| + 1..] == path + [SPACE] + version;
    BeforeSeparator(path, SPACE, version);
    hide Before, FirstLine;
  }

  /** A scraper's request for a path without a blank, in one read: the headers end there, and the path is found. */
  lemma {:induction false} WholeRequest(path: bytes, headers: bytes)
    requires 32 !in path && Ascii(path) && 10 !in path && Ascii(headers)
    requires |path| + |headers| <= 480
    ensures var request := [71, 69, 84] + [32] + path + [32] + [72, 84, 84, 80, 47, 49, 46, 49] + [13, 10]
                           + (headers + [13, 10, 13, 10]);
            && |request| <= READ_LEN && AcceptsAt([request], 1) && Received([request], 1) == request
            && PathOf(request) == path
  {
    hide AcceptsAt, Received, PathOf, IsUtf8;
    var verb: bytes, version: bytes := [71, 69, 84], [72, 84, 84, 80, 47, 49, 46, 49];
    var rest := headers + [13, 10, 13, 10];
    var request := verb + [32] + path + [32] + version + [13, 10] + rest;
    AsciiParts(verb, path, version, headers);
    AsciiIsUtf8(request);
    RequestPath(verb, path, version, rest);
    OneRead(request);
  }

  lemma {:induction false} AsciiParts(verb: bytes, path: bytes, version: bytes, headers: bytes)
    requires Ascii(verb) && Ascii(path) && Ascii(version) && Ascii(headers)
    ensures Ascii(verb + [32] + path + [32] + version + [13, 10] + (headers + [13, 10, 13, 10]))
  {
  }

  lemma {:induction false} OneRead(request: Chunk)
    requires |request| >= 4 && request[|request| - 4..] == [13, 10, 13, 10]
    ensures AcceptsAt([request], 1) && Received([request], 1) == request
  {
    assert [request][..1] == [request] && [request][..0] == [];
    assert Joined([request]) == [] + request == request;
    assert Received([request], 1) == request;
    assert request[|request| - 4..|request|] == BLANK_LINE;
    assert BlankAt(request, |request|) && HasBlank(request);
  }

  // ---- Pauses after failing accepts ----

  const ACCEPT_BACKOFF_INITIAL_MS: nat := 10
  const ACCEPT_BACKOFF_MAX_MS: nat := 1_000

  function Pow2(n: nat): nat {
    if n == 0 then 1 else 2 * Pow2(n - 1)
  }

  /** 10 ms doubled n times, at most 1 s. */
  function Backoff(n: nat): nat {
    Min(ACCEPT_BACKOFF_MAX_MS, ACCEPT_BACKOFF_INITIAL_MS * Pow2(n))
  }

  lemma {:induction false} BackoffDoubles(n: nat)
    ensures Backoff(0) == ACCEPT_BACKOFF_INITIAL_MS
    ensures Backoff(n + 1) == Min(Backoff(n) * 2, ACCEPT_BACKOFF_MAX_MS)
  {
  }

  /** The failures in a row at the end of some accepts. */
  function Streak(accepts: seq<bool>): nat {
    if accepts == [] || accepts[|accepts| - 1] then 0 else 1 + Streak(accepts[..|accepts| - 1])
  }

  /** The accept loop: the pause after a failure is 10 ms doubled once for each failure directly before it, at
      most 1 s. */
  method Serve(accepts: seq<bool>) returns (pauses: seq<nat>)
    ensures |pauses| == |accepts|
    ensures forall i :: 0 <= i < |accepts| ==> pauses[i] == if accepts[i] then 0 else Backoff(Streak(accepts[..i]))
  {
    hide Backoff;
    BackoffDoubles(0);
    var backoff := ACCEPT_BACKOFF_INITIAL_MS;
    pauses := [];
    assert accepts[..0] == [];
    for i := 0 to |accepts|
      invariant |pauses| == i
      invariant backoff == Backoff(Streak(accepts[..i]))
      invariant forall j :: 0 <= j < i ==> pauses[j] == if accepts[j] then 0 else Backoff(Streak(accepts[..j]))
    {
      assert accepts[..i + 1][..i] == accepts[..i];
      BackoffDoubles(Streak(accepts[..i]));
      if accepts[i] {
        backoff := ACCEPT_BACKOFF_INITIAL_MS;
        pauses := pauses + [0];
      } else {
        pauses := pauses + [backoff];
        backoff := Min(backoff * 2, ACCEPT_BACKOFF_MAX_MS);
      }
    }
  }

  /** The failures right behind the last success are the streak. */
  lemma {:induction false} StreakMeans(front: seq<bool>, n: nat)
    requires front == [] || front[|front| - 1]
    ensures Streak(front + seq(n, _ => false)) == n
  {
    var all := front + seq(n, _ => false);
    if n == 0 {
      assert all == front;
    } else {
      StreakMeans(front, n - 1);
      assert all[..|all| - 1] == front + seq(n - 1, _ => false);
    }
  }

  /** So the pauses of failures in a row are 10, 20, 40, ... milliseconds, and a second from the eighth on. */
  lemma {:induction false} PausesInNumbers(n: nat)
    ensures Backoff(n) ==
            if n == 0 then 10 else if n == 1 then 20 else if n == 2 then 40 else if n == 3 then 80
            else if n == 4 then 160 else if n == 5 then 320 else if n == 6 then 640 else 1000
  {
    SmallPowers();
    if n >= 7 {
      PowerGrows(7, n);
    }
  }

  lemma {:induction false} SmallPowers()
    ensures Pow2(0) == 1 && Pow2(1) == 2 && Pow2(2) == 4 && Pow2(3) == 8 && Pow2(4) == 16 && Pow2(5) == 32
    ensures Pow2(6) == 64 && Pow2(7) == 128
  {
    assert Pow2(2) == 2 * Pow2(1) && Pow2(3) == 2 * Pow2(2) && Pow2(4) == 2 * Pow2(3) && Pow2(5) == 2 * Pow2(4);
  }

  lemma {:induction false} PowerGrows(m: nat, n: nat)
    requires m <= n
    ensures Pow2(m) <= Pow2(n)
  {
    if m < n {
      PowerGrows(m, n - 1);
    }
  }
}
