/** Paired-line files: the parser of crates/nlx-procfs/src/netstat.rs for /proc/net/snmp and /proc/net/netstat. */
module Netstat {
  import opened Wrappers
  import opened Text
  import opened Registry

  const I64_MAX := 0x7fff_ffff_ffff_ffff

  // ---- Lines, words, numbers ----

  /** The characters with the Unicode property White_Space. */
  predicate IsSpace(c: char) {
    var n := c as int;
    || 9 <= n <= 13 || n == 0x20 || n == 0x85 || n == 0xA0 || n == 0x1680 || 0x2000 <= n <= 0x200A
    || n == 0x2028 || n == 0x2029 || n == 0x202F || n == 0x205F || n == 0x3000
  }

  /** `lines()`: cut at newlines, a carriage return in front of one dropped, no empty line at the end. */
  function LinesOf(text: string): seq<string>
    decreases |text|
  {
    if text == [] then []
    else
      var a := Before(text, '\n');
      if |a| == |text| then [a]
      else [if a != [] && a[|a| - 1] == '\r' then a[..|a| - 1] else a] + LinesOf(text[|a| + 1..])
  }

  /** The longest front without white space. */
  function Word(s: string): (w: string)
    ensures |w| <= |s|
    ensures s != [] && !IsSpace(s[0]) ==> |w| > 0
  {
    if s == [] || IsSpace(s[0]) then [] else [s[0]] + Word(s[1..])
  }

  /** `split_whitespace()` */
  function Words(s: string): seq<string>
    decreases |s|
  {
    if s == [] then [] else if IsSpace(s[0]) then Words(s[1..]) else [Word(s)] + Words(s[|Word(s)|..])
  }

  /** `parse::<i64>()` */
  function ParseInt(s: string): Option<int> {
    if s != [] && s[0] == '-' then
      var v := if |s| > 1 && s[1] == '+' then None else ParseNumeral(s[1..], 10, I64_MAX + 2);
      if v.None? then None else (var m: int := v.value; Some(-m))
    else
      var v := ParseNumeral(s, 10, I64_MAX + 1);
      if v.None? then None else Some(v.value)
  }

  function ShowInt(n: int): string {
    if n < 0 then ['-'] + Numeral(-n, 10) else Numeral(n, 10)
  }

  predicate IsI64(n: int) {
    -I64_MAX - 1 <= n <= I64_MAX
  }

  lemma {:induction false} NumeralIsWord(m: nat)
    ensures IsWord(Numeral(m, 10)) && Numeral(m, 10)[0] != '-' && Numeral(m, 10)[0] != '+'
  {
    hide Numeral;
    NumeralIsAlphanumeric(m, 10);
    assert Numeral(m, 10)[0] in Numeral(m, 10);
  }

  lemma {:induction false} IntRoundTrip(n: int)
    requires IsI64(n)
    ensures ParseInt(ShowInt(n)) == Some(n)
    ensures IsWord(ShowInt(n))
  {
    hide ParseNumeral, Numeral;
    if n < 0 {
      NumeralIsWord(-n);
      NumeralRoundTrip(-n, 10, I64_MAX + 2);
      assert ShowInt(n)[1..] == Numeral(-n, 10);
    } else {
      NumeralIsWord(n);
      NumeralRoundTrip(n, 10, I64_MAX + 1);
    }
  }

  function TrimColons(t: string): string {
    if t != [] && t[|t| - 1] == ':' then TrimColons(t[..|t| - 1]) else t
  }

  predicate EndsWithColon(t: string) {
    t != [] && t[|t| - 1] == ':'
  }

  // ---- The parser ----

  datatype Triple = Triple(protocol: string, field: string, value: int)

  predicate IsHeader(cols: seq<string>) {
    |cols| >= 2 && EndsWithColon(cols[0]) && ParseInt(cols[1]).None?
  }

  predicate SameProto(header: seq<string>, data: seq<string>)
    requires header != []
  {
    data != [] && EndsWithColon(data[0]) && TrimColons(data[0]) == TrimColons(header[0])
  }

  /** The fields and values of a header and its data line; a value that is not an integer is skipped. */
  function Pairs(protocol: string, fields: seq<string>, values: seq<string>): seq<Triple>
    requires |fields| == |values|
  {
    if fields == [] then []
    else
      var v := ParseInt(values[|values| - 1]);
      Pairs(protocol, fields[..|fields| - 1], values[..|values| - 1])
      + if v.Some? then [Triple(protocol, fields[|fields| - 1], v.value)] else []
  }

  /** What a list of lines, already split into words, yields. */
  function Triples(lines: seq<seq<string>>): seq<Triple>
    decreases |lines|
  {
    if lines == [] then []
    else
      var header := lines[0];
      if !IsHeader(header) || |lines| < 2 || !SameProto(header, lines[1]) then Triples(lines[1..])
      else if |lines[1]| != |header| then Triples(lines[2..])
      else Pairs(TrimColons(header[0]), header[1..], lines[1][1..]) + Triples(lines[2..])
  }

  function SplitAll(lines: seq<string>): seq<seq<string>> {
    seq(|lines|, i requires 0 <= i < |lines| => Words(lines[i]))
  }

  /** The gauge of a triple; `show` is how a value prints once it is a float. */
  function SampleOf(t: Triple, show: int -> Token): MetricSample {
    MetricSample("nft_netstat",
                 "Linux IP/TCP/UDP/ICMP MIB field value from /proc/net/snmp and /proc/net/netstat.",
                 Gauge, [Label("field", t.field), Label("protocol", t.protocol)], Float(show(t.value)))
  }

  function SamplesOf(ts: seq<Triple>, show: int -> Token): seq<MetricSample> {
    seq(|ts|, i requires 0 <= i < |ts| => SampleOf(ts[i], show))
  }

  lemma {:induction false} SamplesAppend(a: seq<Triple>, b: seq<Triple>, show: int -> Token)
    ensures SamplesOf(a + b, show) == SamplesOf(a, show) + SamplesOf(b, show)
  {
    hide SampleOf;
  }

  method PairColumns(protocol: string, header: seq<string>, data: seq<string>, show: int -> Token)
    returns (out: seq<MetricSample>)
    requires |header| == |data| >= 1
    ensures out == SamplesOf(Pairs(protocol, header[1..], data[1..]), show)
  {
    hide ParseInt, SampleOf;
    out := [];
    var fields, values := header[1..], data[1..];
    assert fields[..0] == [] && values[..0] == [];
    for i := 0 to |fields|
      invariant out == SamplesOf(Pairs(protocol, fields[..i], values[..i]), show)
    {
      assert fields[..i + 1][..i] == fields[..i] && values[..i + 1][..i] == values[..i];
      var v := ParseInt(values[i]);
      if v.None? {
        continue;
      }
      out := out + [SampleOf(Triple(protocol, fields[i], v.value), show)];
    }
    assert fields[..|fields|] == fields && values[..|fields|] == values;
  }

  method ParsePairedLines(text: string, show: int -> Token) returns (out: seq<MetricSample>)
    ensures out == SamplesOf(Triples(SplitAll(LinesOf(text))), show)
  {
    hide LinesOf, Words, IsHeader, SameProto, TrimColons, Pairs, SamplesOf;
    var lines := LinesOf(text);
    ghost var rows := SplitAll(lines);
    ghost var triples := [];
    out := [];
    var next := 0;
    assert rows[0..] == rows;
    NoSamples(show);
    while next < |lines|
      invariant next <= |lines| == |rows|
      invariant triples + Triples(rows[next..]) == Triples(rows) && out == SamplesOf(triples, show)
      decreases |lines| - next
    {
      TriplesAt(rows, next);
      var header := Words(lines[next]);
      next := next + 1;
      if !IsHeader(header) {
        continue;
      }
      if next == |lines| {
        continue;
      }
      var data := Words(lines[next]);
      HeaderIsNonempty(header);
      if !SameProto(header, data) {
        continue;
      }
      next := next + 1;
      if |data| != |header| {
        continue;
      }
      var protocol := TrimColons(header[0]);
      var samples := PairColumns(protocol, header, data, show);
      SamplesAppend(triples, Pairs(protocol, header[1..], data[1..]), show);
      out := out + samples;
      triples := triples + Pairs(protocol, header[1..], data[1..]);
    }
    assert rows[next..] == [] && triples + [] == triples;
  }

  lemma {:induction false} NoSamples(show: int -> Token)
    ensures SamplesOf([], show) == []
  {
  }

  lemma {:induction false} HeaderIsNonempty(cols: seq<string>)
    requires IsHeader(cols)
    ensures |cols| >= 2
  {
  }

  /** One round of the parser. */
  lemma {:induction false} TriplesAt(rows: seq<seq<string>>, i: nat)
    requires i < |rows|
    ensures var header := rows[i];
            && (!IsHeader(header) || i + 1 == |rows| ==> Triples(rows[i..]) == Triples(rows[i + 1..]))
            && (IsHeader(header) && i + 1 < |rows| ==>
                  && |header| >= 2
                  && (!SameProto(header, rows[i + 1]) ==> Triples(rows[i..]) == Triples(rows[i + 1..]))
                  && (SameProto(header, rows[i + 1]) ==> |rows[i + 1]| >= 1)
                  && (SameProto(header, rows[i + 1]) && |rows[i + 1]| != |header|
                      ==> Triples(rows[i..]) == Triples(rows[i + 2..]))
                  && (SameProto(header, rows[i + 1]) && |rows[i + 1]| == |header| ==>
                        Triples(rows[i..])
                          == Pairs(TrimColons(header[0]), header[1..], rows[i + 1][1..]) + Triples(rows[i + 2..])))
  {
    hide ParseInt, TrimColons, Pairs;
    var r := rows[i..];
    assert r[1..] == rows[i + 1..];
    if i + 1 < |rows| {
      assert r[1] == rows[i + 1] && r[2..] == rows[i + 2..];
    }
  }

  // ---- Printed files ----

  /** One protocol: its field names and their values. */
  datatype Block = Block(protocol: string, fields: seq<string>, values: seq<int>)

  predicate IsWord(w: string) {
    w != [] && forall c :: c in w ==> !IsSpace(c)
  }

  /** A block the kernel could print: at least one field, one value for each, and a first field that is not a number. */
  predicate Printable(b: Block) {
    && |b.fields| == |b.values| >= 1
    && (forall f :: f in b.fields ==> IsWord(f))
    && (forall v :: v in b.values ==> IsI64(v))
    && ParseInt(b.fields[0]).None?
    && IsWord(b.protocol) && !EndsWithColon(b.protocol)
  }

  function ShowAll(values: seq<int>): seq<string> {
    seq(|values|, i requires 0 <= i < |values| => ShowInt(values[i]))
  }

  function HeaderRow(b: Block): seq<string> {
    [b.protocol + ":"] + b.fields
  }

  function DataRow(b: Block): seq<string> {
    [b.protocol + ":"] + ShowAll(b.values)
  }

  function JoinWords(ws: seq<string>): string {
    if ws == [] then [] else if |ws| == 1 then ws[0] else ws[0] + [' '] + JoinWords(ws[1..])
  }

  function Print(blocks: seq<Block>): string {
    if blocks == [] then []
    else JoinWords(HeaderRow(blocks[0])) + ['\n'] + (JoinWords(DataRow(blocks[0])) + ['\n'] + Print(blocks[1..]))
  }

  function BlockTriples(b: Block): seq<Triple>
    requires |b.fields| == |b.values|
  {
    seq(|b.fields|, i requires 0 <= i < |b.fields| => Triple(b.protocol, b.fields[i], b.values[i]))
  }

  function AllTriples(blocks: seq<Block>): seq<Triple>
    requires forall b :: b in blocks ==> |b.fields| == |b.values|
  {
    if blocks == [] then [] else BlockTriples(blocks[0]) + AllTriples(blocks[1..])
  }

  function Rows(blocks: seq<Block>): seq<seq<string>> {
    if blocks == [] then [] else [HeaderRow(blocks[0]), DataRow(blocks[0])] + Rows(blocks[1..])
  }

  lemma {:induction false} WordReadsBack(w: string, rest: string)
    requires (forall c :: c in w ==> !IsSpace(c)) && (rest == [] || IsSpace(rest[0]))
    ensures Word(w + rest) == w
  {
    if w == [] {
      assert w + rest == rest;
    } else {
      WordReadsBack(w[1..], rest);
      assert (w + rest)[1..] == w[1..] + rest;
    }
  }

  lemma {:induction false} WordsReadBack(ws: seq<string>)
    requires forall w :: w in ws ==> IsWord(w)
    ensures Words(JoinWords(ws)) == ws
    ensures '\n' !in JoinWords(ws) && '\r' !in JoinWords(ws)
    decreases |ws|
  {
    if ws != [] {
      var w := ws[0];
      assert IsWord(w) && !IsSpace(w[0]);
      var rest := if |ws| == 1 then [] else [' '] + JoinWords(ws[1..]);
      var s := JoinWords(ws);
      assert s == w + rest;
      WordReadsBack(w, rest);
      assert s[|w|..] == rest;
      WordsReadBack(ws[1..]);
      if |ws| > 1 {
        assert rest[1..] == JoinWords(ws[1..]);
      } else {
        assert ws[1..] == [];
      }
    }
  }

  lemma {:induction false} LineReadsBack(line: string, rest: string)
    requires '\n' !in line && '\r' !in line
    ensures LinesOf(line + ['\n'] + rest) == [line] + LinesOf(rest)
  {
    BeforeSeparator(line, '\n', rest);
    assert (line + ['\n'] + rest)[|line| + 1..] == rest;
  }

  lemma {:induction false} RowsAreWords(b: Block)
    requires Printable(b)
    ensures forall w :: w in HeaderRow(b) ==> IsWord(w)
    ensures forall w :: w in DataRow(b) ==> IsWord(w)
  {
    hide ParseInt, ShowInt;
    forall w | w in ShowAll(b.values) ensures IsWord(w) {
      var i :| 0 <= i < |b.values| && w == ShowInt(b.values[i]);
      assert b.values[i] in b.values;
      IntRoundTrip(b.values[i]);
    }
  }

  lemma {:induction false} BlockReadsBack(b: Block, rest: string)
    requires Printable(b)
    ensures SplitAll(LinesOf(JoinWords(HeaderRow(b)) + ['\n'] + (JoinWords(DataRow(b)) + ['\n'] + rest)))
            == [HeaderRow(b), DataRow(b)] + SplitAll(LinesOf(rest))
  {
    hide JoinWords, HeaderRow, DataRow, Words, LinesOf, Printable, IsWord;
    var header, data := JoinWords(HeaderRow(b)), JoinWords(DataRow(b));
    RowsAreWords(b);
    WordsReadBack(HeaderRow(b));
    WordsReadBack(DataRow(b));
    LineReadsBack(header, data + ['\n'] + rest);
    LineReadsBack(data, rest);
    assert LinesOf(header + ['\n'] + (data + ['\n'] + rest)) == [header, data] + LinesOf(rest);
  }

  lemma {:induction false} PrintReadsBack(blocks: seq<Block>, text: string)
    requires forall b :: b in blocks ==> Printable(b)
    ensures SplitAll(LinesOf(Print(blocks) + text)) == Rows(blocks) + SplitAll(LinesOf(text))
    decreases |blocks|
  {
    hide JoinWords, HeaderRow, DataRow, SplitAll, LinesOf, Printable;
    if blocks == [] {
      assert Print(blocks) + text == text;
    } else {
      var b := blocks[0];
      var header, data, rest := JoinWords(HeaderRow(b)), JoinWords(DataRow(b)), Print(blocks[1..]);
      PrintReadsBack(blocks[1..], text);
      BlockReadsBack(b, rest + text);
      Associative([HeaderRow(b), DataRow(b)], Rows(blocks[1..]), SplitAll(LinesOf(text)));
      assert Print(blocks) + text == header + ['\n'] + (data + ['\n'] + (rest + text));
    }
  }

  lemma {:induction false} NoLines()
    ensures LinesOf([]) == []
  {
  }

  lemma {:induction false} PairsReadBack(protocol: string, fields: seq<string>, values: seq<int>)
    requires |fields| == |values| && forall v :: v in values ==> IsI64(v)
    ensures Pairs(protocol, fields, ShowAll(values)) == BlockTriples(Block(protocol, fields, values))
  {
    hide ParseInt, ShowInt;
    if fields != [] {
      var n := |fields| - 1;
      PairsReadBack(protocol, fields[..n], values[..n]);
      assert values[n] in values;
      IntRoundTrip(values[n]);
      assert ShowAll(values)[..n] == ShowAll(values[..n]);
    }
  }

  lemma {:induction false} ProtocolReadsBack(protocol: string)
    requires !EndsWithColon(protocol)
    ensures TrimColons(protocol + ":") == protocol && EndsWithColon(protocol + ":")
  {
    assert (protocol + ":")[..|protocol|] == protocol;
  }

  lemma {:induction false} BlockIsPair(b: Block)
    requires Printable(b)
    ensures IsHeader(HeaderRow(b)) && SameProto(HeaderRow(b), DataRow(b)) && |HeaderRow(b)| == |DataRow(b)| >= 2
    ensures HeaderRow(b)[1..] == b.fields && DataRow(b)[1..] == ShowAll(b.values)
            && TrimColons(HeaderRow(b)[0]) == b.protocol
    ensures !IsHeader(DataRow(b)) && EndsWithColon(HeaderRow(b)[0])
  {
    hide ParseInt, TrimColons, ShowInt;
    ProtocolReadsBack(b.protocol);
    assert b.values[0] in b.values;
    IntRoundTrip(b.values[0]);
    assert DataRow(b)[1] == ShowInt(b.values[0]);
  }

  lemma {:induction false} BlockTriplesFirst(b: Block, rest: seq<seq<string>>)
    requires Printable(b)
    ensures Triples([HeaderRow(b), DataRow(b)] + rest) == BlockTriples(b) + Triples(rest)
  {
    hide Printable, HeaderRow, DataRow, IsHeader, SameProto, TrimColons, Pairs, ShowAll;
    BlockIsPair(b);
    var rows := [HeaderRow(b), DataRow(b)] + rest;
    assert rows[0..] == rows && rows[2..] == rest;
    TriplesAt(rows, 0);
    PairsOfBlock(b);
  }

  lemma {:induction false} PairsOfBlock(b: Block)
    requires Printable(b)
    ensures Pairs(b.protocol, b.fields, ShowAll(b.values)) == BlockTriples(b)
  {
    hide Pairs, ShowAll, ParseInt;
    PairsReadBack(b.protocol, b.fields, b.values);
  }

  lemma {:induction false} RowsReadBack(blocks: seq<Block>, rest: seq<seq<string>>)
    requires forall b :: b in blocks ==> Printable(b) && |b.fields| == |b.values|
    ensures Triples(Rows(blocks) + rest) == AllTriples(blocks) + Triples(rest)
    decreases |blocks|
  {
    hide Printable, HeaderRow, DataRow, BlockTriples, Triples;
    if blocks == [] {
      assert Rows(blocks) + rest == rest;
    } else {
      RowsReadBack(blocks[1..], rest);
      BlockTriplesFirst(blocks[0], Rows(blocks[1..]) + rest);
      Associative([HeaderRow(blocks[0]), DataRow(blocks[0])], Rows(blocks[1..]), rest);
      Associative(BlockTriples(blocks[0]), AllTriples(blocks[1..]), Triples(rest));
    }
  }

  lemma {:induction false} NoRows()
    ensures SplitAll(LinesOf([])) == [] && Triples([]) == []
  {
    NoLines();
  }

  /** Printing any list of blocks and parsing the text gives exactly their triples, in order. */
  lemma {:induction false} FileRoundTrip(blocks: seq<Block>)
    requires forall b :: b in blocks ==> Printable(b) && |b.fields| == |b.values|
    ensures Triples(SplitAll(LinesOf(Print(blocks)))) == AllTriples(blocks)
  {
    hide Printable, Triples, Print, LinesOf;
    NoRows();
    PrintReadsBack(blocks, []);
    RowsReadBack(blocks, []);
    assert Print(blocks) + [] == Print(blocks);
    assert Rows(blocks) + [] == Rows(blocks) && AllTriples(blocks) + [] == AllTriples(blocks);
  }

  // ---- A header without its data line ----

  lemma {:induction false} PairsBounded(protocol: string, fields: seq<string>, values: seq<string>)
    requires |fields| == |values| >= 1 && ParseInt(values[0]).None?
    ensures |Pairs(protocol, fields, values)| < |fields|
  {
    hide ParseInt;
    var n := |fields| - 1;
    if n > 0 {
      PairsBounded(protocol, fields[..n], values[..n]);
    } else {
      assert fields[..n] == [] && Pairs(protocol, fields[..n], values[..n]) == [];
    }
  }

  /** An unpaired header in front of a block leaves the block intact exactly when it is of another protocol; of the same
      protocol it swallows the block's header, and the block's values are lost. */
  lemma {:induction false} OrphanIsHarmlessIff(orphan: seq<string>, b: Block, rest: seq<seq<string>>)
    requires IsHeader(orphan) && Printable(b)
    ensures Triples([orphan, HeaderRow(b), DataRow(b)] + rest) == BlockTriples(b) + Triples(rest)
            <==> TrimColons(orphan[0]) != b.protocol
  {
    var header, data := HeaderRow(b), DataRow(b);
    var rows := [orphan, header, data] + rest;
    BlockIsPair(b);
    hide ParseInt, TrimColons, Pairs, HeaderRow, DataRow, ShowAll, IsHeader;
    TriplesAt(rows, 0);
    TriplesAt(rows, 2);
    assert rows[0..] == rows && rows[3..] == rest;
    if SameProto(orphan, header) {
      if |header| == |orphan| {
        PairsBounded(TrimColons(orphan[0]), orphan[1..], header[1..]);
      }
      assert |Triples(rows)| < |b.fields| + |Triples(rest)|;
    } else {
      BlockTriplesFirst(b, rest);
      assert rows[1..] == [header, data] + rest;
    }
  }

  /** The same in a file, between any printed blocks. */
  lemma {:induction false} OrphanInFileIff(before: seq<Block>, orphan: seq<string>, b: Block, after: seq<Block>)
    requires forall c :: c in before + [b] + after ==> Printable(c) && |c.fields| == |c.values|
    requires IsHeader(orphan) && forall w :: w in orphan ==> IsWord(w)
    ensures var text := Print(before) + (JoinWords(orphan) + ['\n'] + Print([b] + after));
            Triples(SplitAll(LinesOf(text))) == AllTriples(before) + (BlockTriples(b) + AllTriples(after))
            <==> TrimColons(orphan[0]) != b.protocol
  {
    hide Printable, Triples, Print, LinesOf, JoinWords, IsHeader, TrimColons, AllTriples, BlockTriples, HeaderRow,
         DataRow, IsWord, Words;
    assert forall c :: c in before ==> c in before + [b] + after;
    assert forall c :: c in after ==> c in before + [b] + after;
    assert b in before + [b] + after;
    var line, tail := JoinWords(orphan), Print([b] + after);
    PrintReadsBack(before, line + ['\n'] + tail);
    RowsReadBack(before, SplitAll(LinesOf(line + ['\n'] + tail)));
    WordsReadBack(orphan);
    LineReadsBack(line, tail);
    RowsOfFile(b, after);
    var rest := Rows(after);
    assert SplitAll(LinesOf(line + ['\n'] + tail)) == [orphan] + ([HeaderRow(b), DataRow(b)] + rest);
    assert [orphan] + ([HeaderRow(b), DataRow(b)] + rest) == [orphan, HeaderRow(b), DataRow(b)] + rest;
    OrphanIsHarmlessIff(orphan, b, rest);
    RowsReadBack(after, []);
    NoRows();
    assert rest + [] == rest && AllTriples(after) + [] == AllTriples(after);
    Cancel(AllTriples(before), Triples([orphan, HeaderRow(b), DataRow(b)] + rest), BlockTriples(b) + AllTriples(after));
  }

  lemma {:induction false} Cancel<T>(p: seq<T>, x: seq<T>, y: seq<T>)
    ensures p + x == p + y <==> x == y
  {
    if p + x == p + y {
      assert x == (p + x)[|p|..];
      assert y == (p + y)[|p|..];
    }
  }

  lemma {:induction false} RowsOfFile(b: Block, after: seq<Block>)
    requires Printable(b) && forall c :: c in after ==> Printable(c)
    ensures SplitAll(LinesOf(Print([b] + after))) == [HeaderRow(b), DataRow(b)] + Rows(after)
  {
    hide Printable, Print, LinesOf, HeaderRow, DataRow, Words;
    PrintReadsBack([b] + after, []);
    NoLines();
    assert Print([b] + after) + [] == Print([b] + after);
    assert ([b] + after)[1..] == after;
    assert Rows([b] + after) + [] == Rows([b] + after);
  }

  // ---- The gauges of a file ----

  /** Two lines of a file, as text, give one gauge for each field: its name, its protocol without the colon,
      its value. */
  lemma {:induction false} BlockInText(b: Block, show: int -> Token, i: nat)
    requires Printable(b) && i < |b.fields|
    ensures var text := JoinWords([b.protocol + ":"] + b.fields) + "\n"
                        + (JoinWords([b.protocol + ":"] + ShowAll(b.values)) + "\n");
            var out := SamplesOf(Triples(SplitAll(LinesOf(text))), show);
            && |out| == |b.fields|
            && out[i].name == "nft_netstat" && out[i].kind == Gauge
            && out[i].labels == [Label("field", b.fields[i]), Label("protocol", b.protocol)]
            && out[i].value == Float(show(b.values[i]))
  {
    hide JoinWords, Triples, SplitAll, LinesOf, ShowAll, Printable;
    OneBlock(b);
    assert forall c :: c in [b] ==> c == b;
    FileRoundTrip([b]);
  }

  lemma {:induction false} OneBlock(b: Block)
    requires Printable(b)
    ensures Print([b]) == JoinWords([b.protocol + ":"] + b.fields) + "\n"
                          + (JoinWords([b.protocol + ":"] + ShowAll(b.values)) + "\n")
    ensures AllTriples([b]) == BlockTriples(b) && |b.fields| == |b.values|
  {
    hide JoinWords, ShowAll;
    assert [b][1..] == [] && Print([]) == [] && AllTriples([]) == [];
    var data := JoinWords([b.protocol + ":"] + ShowAll(b.values)) + "\n";
    assert data + [] == data && BlockTriples(b) + [] == BlockTriples(b);
  }

  // ---- Odd lines ----

  function Colons(n: nat): string {
    seq(n, _ => ':')
  }

  /** All colons at the end are cut off a protocol. */
  lemma {:induction false} AllColonsGo(p: string, n: nat)
    requires p == [] || p[|p| - 1] != ':'
    ensures TrimColons(p + Colons(n)) == p
  {
    var t := p + Colons(n);
    if n == 0 {
      assert t == p;
    } else {
      AllColonsGo(p, n - 1);
      assert t[..|t| - 1] == p + Colons(n - 1);
    }
  }

  /** Lines end at a newline, with or without a carriage return in front of it. */
  lemma {:induction false} CarriageReturnGoes(line: string, rest: string)
    requires '\n' !in line && (line == [] || line[|line| - 1] != '\r')
    ensures LinesOf(line + ['\n'] + rest) == [line] + LinesOf(rest)
    ensures LinesOf(line + ['\r'] + ['\n'] + rest) == [line] + LinesOf(rest)
  {
    BeforeSeparator(line, '\n', rest);
    BeforeSeparator(line + ['\r'], '\n', rest);
    assert (line + ['\n'] + rest)[|line| + 1..] == rest;
    assert (line + ['\r'] + ['\n'] + rest)[|line| + 2..] == rest;
    assert (line + ['\r'])[..|line|] == line;
  }

  /** White space in front of a word, and of an empty rest, does not matter. */
  lemma {:induction false} SpacesDoNotMatter(s: string, c: char)
    requires c == ' ' || c == '\t'
    ensures Words([c] + s) == Words(s)
  {
    assert ([c] + s)[1..] == s;
  }

  /** A plus sign is accepted in front of digits, but not behind a minus sign. */
  lemma {:induction false} SignsInText(n: nat)
    requires n <= I64_MAX
    ensures ParseInt(['+'] + Numeral(n, 10)) == Some(n) && ParseInt(['-', '+'] + Numeral(n, 10)) == None
  {
    hide Numeral, DigitsValue, IsWord;
    NumeralDigits(n, 10);
    NumeralIsWord(n);
    var digits := Numeral(n, 10);
    var plus, both := ['+'] + digits, ['-', '+'] + digits;
    assert digits != [] && plus[0] == '+' && plus[1..] == digits;
    assert both[0] == '-' && both[1] == '+';
    PlusIsSkipped(digits, I64_MAX + 1);
    hide ParseNumeral;
  }

  lemma {:induction false} PlusIsSkipped(digits: string, bound: nat)
    requires digits != [] && digits[0] != '+'
    ensures ParseNumeral(['+'] + digits, 10, bound) == ParseNumeral(digits, 10, bound)
  {
    hide DigitsValue;
    assert (['+'] + digits)[1..] == digits;
  }

  /** A header and a data line of the same protocol but of another number of columns are both passed over; a value that
      is no integer drops out alone. */
  lemma {:induction false} OddPairs(header: seq<string>, data: seq<string>, rest: seq<seq<string>>, p: string,
        f: seq<string>, v: seq<string>, field: string, bad: string)
    requires IsHeader(header) && SameProto(header, data) && |header| != |data|
    requires |f| == |v| && ParseInt(bad) == None
    ensures Triples([header, data] + rest) == Triples(rest)
    ensures Pairs(p, f + [field], v + [bad]) == Pairs(p, f, v)
  {
    hide ParseInt, TrimColons, IsHeader, SameProto;
    HeaderIsNonempty(header);
    var rows := [header, data] + rest;
    assert rows[0..] == rows && rows[2..] == rest;
    TriplesAt(rows, 0);
    assert (f + [field])[..|f|] == f && (v + [bad])[..|v|] == v;
  }
}
