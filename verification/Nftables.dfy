/** Rule frames of crates/nlx-netlink/src/collectors/nftables.rs: the record format inside the userdata attribute, the
    nested expression list, and the cap on rule series. */
module Nftables {
  import opened Wrappers
  import opened Bytes
  import opened Wire
  import opened Text
  import opened Registry
  import Exposition
  import Series

  const NFTA_RULE_TABLE: nat := 1
  const NFTA_RULE_CHAIN: nat := 2
  const NFTA_RULE_EXPRESSIONS: nat := 4
  const NFTA_RULE_USERDATA: nat := 7
  const NFTA_LIST_ELEM: nat := 1
  const NFTA_EXPR_NAME: nat := 1
  const NFTA_EXPR_DATA: nat := 2
  const NFTA_COUNTER_BYTES: nat := 1
  const NFTA_COUNTER_PACKETS: nat := 2
  const RULE_COUNTER_MAX_SERIES: nat := 1000

  /** The octets of "counter". */
  const COUNTER: bytes := [99, 111, 117, 110, 116, 101, 114]

  /** A string payload without its trailing NUL. */
  function Trimmed(p: bytes): bytes {
    if p != [] && p[|p| - 1] == 0 then p[..|p| - 1] else p
  }

  // ---- Userdata records ----

  datatype Record = Record(ty: byte, data: bytes)

  predicate StartsRecord(blob: bytes) {
    2 <= |blob| && 2 + blob[1] <= |blob|
  }

  /** The complete records at the front of a blob. */
  function Records(blob: bytes): seq<Record> {
    if !StartsRecord(blob) then []
    else [Record(blob[0], blob[2..2 + blob[1]])] + Records(blob[2 + blob[1]..])
  }

  /** A comment: type 0, and something left when the trailing NUL is gone. */
  predicate IsComment(r: Record) {
    r.ty == 0 && Trimmed(r.data) != []
  }

  function FirstComment(rs: seq<Record>): Option<bytes> {
    if rs == [] then None
    else if IsComment(rs[0]) then Some(Trimmed(rs[0].data))
    else FirstComment(rs[1..])
  }

  /** The comment of a blob. */
  method ExtractRuleComment(blob: bytes) returns (r: Option<bytes>)
    ensures r == FirstComment(Records(blob))
  {
    var pos := 0;
    assert blob[0..] == blob;
    while pos + 2 <= |blob|
      invariant pos <= |blob|
      invariant FirstComment(Records(blob)) == FirstComment(Records(blob[pos..]))
      decreases |blob| - pos
    {
      var ty := blob[pos];
      var len := blob[pos + 1];
      var end := pos + 2 + len;
      if end > |blob| {
        break;
      }
      assert blob[pos..][2..2 + len] == blob[pos + 2..end] && blob[pos..][2 + len..] == blob[end..];
      assert Records(blob[pos..])[1..] == Records(blob[end..]);
      if ty == 0 && len > 0 {
        var data := blob[pos + 2..end];
        var stripped := if data[|data| - 1] == 0 then data[..|data| - 1] else data;
        if stripped != [] {
          return Some(stripped);
        }
      }
      pos := end;
    }
    return None;
  }

  /** The comment is the first one among the records, and there is none exactly when no record is a comment. */
  lemma {:induction false} FirstCommentMeans(rs: seq<Record>)
    ensures FirstComment(rs).None? <==> forall i :: 0 <= i < |rs| ==> !IsComment(rs[i])
    ensures FirstComment(rs).Some? ==>
              exists i :: 0 <= i < |rs| && IsComment(rs[i]) && FirstComment(rs) == Some(Trimmed(rs[i].data))
                          && forall j :: 0 <= j < i ==> !IsComment(rs[j])
  {
    hide IsComment, Trimmed;
    if rs != [] && !IsComment(rs[0]) {
      var rest := rs[1..];
      FirstCommentMeans(rest);
      if FirstComment(rest).Some? {
        var i :| 0 <= i < |rest| && IsComment(rest[i]) && FirstComment(rest) == Some(Trimmed(rest[i].data))
                 && forall j :: 0 <= j < i ==> !IsComment(rest[j]);
        assert rs[i + 1] == rest[i];
        forall j | 0 <= j < i + 1 ensures !IsComment(rs[j]) {
          if j > 0 { assert rs[j] == rest[j - 1]; }
        }
      } else {
        forall i | 0 <= i < |rs| ensures !IsComment(rs[i]) {
          if i > 0 { assert rs[i] == rest[i - 1]; }
        }
      }
    }
  }

  function EncodeRecords(rs: seq<Record>): bytes
    requires forall r :: r in rs ==> |r.data| < 256
  {
    if rs == [] then [] else [rs[0].ty, |rs[0].data|] + rs[0].data + EncodeRecords(rs[1..])
  }

  lemma {:induction false} RecordsHead(r: Record, rest: bytes)
    requires |r.data| < 256
    ensures Records([r.ty, |r.data|] + r.data + rest) == [r] + Records(rest)
  {
    var b := [r.ty, |r.data|] + r.data + rest;
    assert b[2..2 + |r.data|] == r.data && b[2 + |r.data|..] == rest;
  }

  /** Records come back as written; a torn one at the end is ignored. */
  lemma {:induction false} RecordsRoundTrip(rs: seq<Record>, torn: bytes)
    requires (forall r :: r in rs ==> |r.data| < 256) && !StartsRecord(torn)
    ensures Records(EncodeRecords(rs) + torn) == rs
    decreases |rs|
  {
    hide Records;
    if rs == [] {
      assert EncodeRecords(rs) + torn == torn;
      NoRecords(torn);
    } else {
      RecordsRoundTrip(rs[1..], torn);
      RecordsHead(rs[0], EncodeRecords(rs[1..]) + torn);
      Associative([rs[0].ty, |rs[0].data|] + rs[0].data, EncodeRecords(rs[1..]), torn);
    }
  }

  lemma {:induction false} NoRecords(blob: bytes)
    requires !StartsRecord(blob)
    ensures Records(blob) == []
  {
  }

  // ---- Expressions ----

  datatype Expr = Expr(name: bytes, octets: Option<u64>, packets: Option<u64>)

  /** A big-endian counter kept in an option: an unreadable one erases an earlier one. */
  function CounterIn(nlas: seq<Nla>, ty: nat): Option<u64> {
    match Last(nlas, ty)
    case None => None
    case Some(p) => ReadU64BE(p)
  }

  /** What an expression's attributes say. */
  function ExprOf(nlas: seq<Nla>): Expr {
    var data := Inner(nlas, NFTA_EXPR_DATA);
    Expr(NameIn(nlas, NFTA_EXPR_NAME), CounterIn(data, NFTA_COUNTER_BYTES), CounterIn(data, NFTA_COUNTER_PACKETS))
  }

  /** The last string attribute of a type, empty without one. */
  function NameIn(nlas: seq<Nla>, ty: nat): bytes {
    Trimmed(Last(nlas, ty).GetOr([]))
  }

  /** The first element of an expression list that is named "counter". */
  function FirstCounter(list: seq<Nla>): Option<Expr> {
    if list == [] then None
    else
      var rest := FirstCounter(list[..|list| - 1]);
      var a := list[|list| - 1];
      if rest.Some? then rest
      else if a.ty == NFTA_LIST_ELEM && ExprOf(Attrs(a.payload)).name == COUNTER then Some(ExprOf(Attrs(a.payload)))
      else None
  }

  /** The last expression list that has a counter decides. */
  function CounterOf(nlas: seq<Nla>): Option<Expr> {
    if nlas == [] then None
    else
      var a := nlas[|nlas| - 1];
      if a.ty == NFTA_RULE_EXPRESSIONS && FirstCounter(Attrs(a.payload)).Some? then FirstCounter(Attrs(a.payload))
      else CounterOf(nlas[..|nlas| - 1])
  }

  datatype NftRuleCounter = NftRuleCounter(table: bytes, chain: bytes, comment: bytes, octets: u64, packets: u64)

  function CommentOf(nlas: seq<Nla>): Option<bytes> {
    match Last(nlas, NFTA_RULE_USERDATA)
    case None => None
    case Some(blob) => FirstComment(Records(blob))
  }

  /** A rule is reported when it has a comment and its counter carries both values. */
  function RuleOf(nlas: seq<Nla>): Option<NftRuleCounter> {
    var comment, counter := CommentOf(nlas), CounterOf(nlas);
    if comment.None? || counter.None? || counter.value.octets.None? || counter.value.packets.None? then None
    else Some(NftRuleCounter(NameIn(nlas, NFTA_RULE_TABLE), NameIn(nlas, NFTA_RULE_CHAIN), comment.value,
                             counter.value.octets.value, counter.value.packets.value))
  }

  // ---- parse_rule_frame ----

  function CounterAfter(payload: bytes, ty: nat, before: Option<u64>): Option<u64> {
    match Last(Attrs(payload), ty)
    case None => before
    case Some(p) => ReadU64BE(p)
  }

  method ReadCounterData(payload: bytes, octets0: Option<u64>, packets0: Option<u64>)
    returns (octets: Option<u64>, packets: Option<u64>)
    ensures octets == CounterAfter(payload, NFTA_COUNTER_BYTES, octets0)
    ensures packets == CounterAfter(payload, NFTA_COUNTER_PACKETS, packets0)
  {
    hide Attrs, ReadU64BE;
    octets, packets := octets0, packets0;
    var attrs := Attrs(payload);
    NothingLast();
    assert attrs[..0] == [];
    hide Last, Inner;
    for i := 0 to |attrs|
      invariant var b := Last(attrs[..i], NFTA_COUNTER_BYTES); octets == if b.Some? then ReadU64BE(b.value) else octets0
      invariant var p := Last(attrs[..i], NFTA_COUNTER_PACKETS);
                packets == if p.Some? then ReadU64BE(p.value) else packets0
    {
      LastStep(attrs, i, NFTA_COUNTER_BYTES);
      LastStep(attrs, i, NFTA_COUNTER_PACKETS);
      var a := attrs[i];
      if a.ty == NFTA_COUNTER_BYTES {
        octets := ReadU64BE(a.payload);
      } else if a.ty == NFTA_COUNTER_PACKETS {
        packets := ReadU64BE(a.payload);
      }
    }
    assert attrs[..|attrs|] == attrs;
  }

  /** How one attribute of an expression changes what the expression says. */
  lemma {:induction false} ExprStep(attrs: seq<Nla>, i: nat)
    requires i < |attrs|
    ensures var e, f, a := ExprOf(attrs[..i]), ExprOf(attrs[..i + 1]), attrs[i];
            if a.ty == NFTA_EXPR_NAME then f == e.(name := Trimmed(a.payload))
            else if a.ty == NFTA_EXPR_DATA then
              f == e.(octets := CounterAfter(a.payload, NFTA_COUNTER_BYTES, e.octets),
                      packets := CounterAfter(a.payload, NFTA_COUNTER_PACKETS, e.packets))
            else f == e
  {
    hide Attrs, Last, Inner, ReadU64BE, Trimmed;
    LastStep(attrs, i, NFTA_EXPR_NAME);
    LastStep(attrs, i, NFTA_EXPR_DATA);
    var a, data := attrs[i], Inner(attrs[..i], NFTA_EXPR_DATA);
    if a.ty == NFTA_EXPR_DATA {
      LastAppend(data, Attrs(a.payload), NFTA_COUNTER_BYTES);
      LastAppend(data, Attrs(a.payload), NFTA_COUNTER_PACKETS);
    } else {
      assert data + [] == data;
    }
  }

  method ParseExpr(payload: bytes) returns (e: Expr)
    ensures e == ExprOf(Attrs(payload))
  {
    hide Attrs;
    var attrs := Attrs(payload);
    e := Expr([], None, None);
    NothingLast();
    assert attrs[..0] == [];
    assert ExprOf([]) == e;
    hide ExprOf, Trimmed, CounterAfter;
    for i := 0 to |attrs|
      invariant e == ExprOf(attrs[..i])
    {
      ExprStep(attrs, i);
      var a := attrs[i];
      if a.ty == NFTA_EXPR_NAME {
        e := e.(name := Trimmed(a.payload));
      } else if a.ty == NFTA_EXPR_DATA {
        var octets, packets := ReadCounterData(a.payload, e.octets, e.packets);
        e := e.(octets := octets, packets := packets);
      }
    }
    assert attrs[..|attrs|] == attrs;
  }

  /** Walks an expression list up to its first counter. */
  method FindCounter(payload: bytes) returns (r: Option<Expr>)
    ensures r == FirstCounter(Attrs(payload))
  {
    hide Attrs, ExprOf;
    var list := Attrs(payload);
    r := None;
    for i := 0 to |list|
      invariant r == None && FirstCounter(list[..i]) == None
    {
      assert list[..i + 1][..i] == list[..i];
      if list[i].ty != NFTA_LIST_ELEM {
        continue;
      }
      var e := ParseExpr(list[i].payload);
      if e.name == COUNTER {
        FirstCounterStays(list, i + 1);
        return Some(e);
      }
    }
    assert list[..|list|] == list;
  }

  lemma {:induction false} FirstCounterStays(list: seq<Nla>, i: nat)
    requires i <= |list| && FirstCounter(list[..i]).Some?
    ensures FirstCounter(list) == FirstCounter(list[..i])
  {
    hide Attrs, ExprOf;
    if i < |list| {
      assert list[..|list| - 1][..i] == list[..i];
      FirstCounterStays(list[..|list| - 1], i);
    } else {
      assert list[..i] == list;
    }
  }

  /** The parser's locals. */
  datatype Rule = Rule(table: bytes, chain: bytes, comment: Option<bytes>, counter: Option<Expr>)

  function LocalsOf(nlas: seq<Nla>): Rule {
    Rule(NameIn(nlas, NFTA_RULE_TABLE), NameIn(nlas, NFTA_RULE_CHAIN), CommentOf(nlas), CounterOf(nlas))
  }

  lemma {:induction false} RuleStep(attrs: seq<Nla>, i: nat)
    requires i < |attrs|
    ensures var l, m, a := LocalsOf(attrs[..i]), LocalsOf(attrs[..i + 1]), attrs[i];
            if a.ty == NFTA_RULE_TABLE then m == l.(table := Trimmed(a.payload))
            else if a.ty == NFTA_RULE_CHAIN then m == l.(chain := Trimmed(a.payload))
            else if a.ty == NFTA_RULE_USERDATA then m == l.(comment := FirstComment(Records(a.payload)))
            else if a.ty == NFTA_RULE_EXPRESSIONS then
              var c := FirstCounter(Attrs(a.payload));
              m == if c.Some? then l.(counter := c) else l
            else m == l
  {
    hide Attrs, Last, FirstCounter, FirstComment, Records, Trimmed;
    LastStep(attrs, i, NFTA_RULE_TABLE);
    LastStep(attrs, i, NFTA_RULE_CHAIN);
    LastStep(attrs, i, NFTA_RULE_USERDATA);
    assert attrs[..i + 1][..i] == attrs[..i];
  }

  /** Parses a rule frame into exactly what its attributes say. */
  method ParseRuleFrame(frame: bytes) returns (r: Option<NftRuleCounter>)
    ensures r == if |frame| < NFGENMSG_LEN then None else RuleOf(Attrs(frame[NFGENMSG_LEN..]))
  {
    if |frame| < NFGENMSG_LEN {
      return None;
    }
    hide Attrs;
    var attrs := Attrs(frame[NFGENMSG_LEN..]);
    var rule := Rule([], [], None, None);
    NothingLast();
    assert attrs[..0] == [];
    assert LocalsOf([]) == rule;
    hide LocalsOf, FirstComment, Records, FirstCounter, Trimmed;
    for i := 0 to |attrs|
      invariant rule == LocalsOf(attrs[..i])
    {
      RuleStep(attrs, i);
      var a := attrs[i];
      if a.ty == NFTA_RULE_TABLE {
        rule := rule.(table := Trimmed(a.payload));
      } else if a.ty == NFTA_RULE_CHAIN {
        rule := rule.(chain := Trimmed(a.payload));
      } else if a.ty == NFTA_RULE_USERDATA {
        var comment := ExtractRuleComment(a.payload);
        rule := rule.(comment := comment);
      } else if a.ty == NFTA_RULE_EXPRESSIONS {
        var c := FindCounter(a.payload);
        if c.Some? {
          rule := rule.(counter := c);
        }
      }
    }
    assert attrs[..|attrs|] == attrs;
    LocalsMean(attrs);
    if rule.comment.None? || rule.counter.None? || rule.counter.value.octets.None? || rule.counter.value.packets.None? {
      return None;
    }
    r := Some(NftRuleCounter(rule.table, rule.chain, rule.comment.value, rule.counter.value.octets.value,
                             rule.counter.value.packets.value));
  }

  lemma {:induction false} LocalsMean(nlas: seq<Nla>)
    ensures LocalsOf(nlas)
            == Rule(NameIn(nlas, NFTA_RULE_TABLE), NameIn(nlas, NFTA_RULE_CHAIN), CommentOf(nlas), CounterOf(nlas))
  {
  }

  // ---- When a rule is reported ----

  /** The list has exactly one attribute of the type, with this payload. */
  predicate Only(nlas: seq<Nla>, ty: nat, p: bytes) {
    exists i :: 0 <= i < |nlas| && nlas[i] == Nla(ty, p) && forall j :: 0 <= j < |nlas| && j != i ==> nlas[j].ty != ty
  }

  lemma {:induction false} OnlyExpressions(nlas: seq<Nla>, i: nat)
    requires i < |nlas| && nlas[i].ty == NFTA_RULE_EXPRESSIONS
    requires forall j :: 0 <= j < |nlas| && j != i ==> nlas[j].ty != NFTA_RULE_EXPRESSIONS
    ensures CounterOf(nlas) == FirstCounter(Attrs(nlas[i].payload))
  {
    hide Attrs, FirstCounter;
    var init := nlas[..|nlas| - 1];
    assert forall j :: 0 <= j < |init| ==> init[j] == nlas[j];
    if i < |nlas| - 1 {
      OnlyExpressions(init, i);
    } else {
      NoExpressions(init);
    }
  }

  lemma {:induction false} NoExpressions(nlas: seq<Nla>)
    requires forall j :: 0 <= j < |nlas| ==> nlas[j].ty != NFTA_RULE_EXPRESSIONS
    ensures CounterOf(nlas) == None
  {
    hide Attrs, FirstCounter;
    if nlas != [] {
      var init := nlas[..|nlas| - 1];
      assert forall j :: 0 <= j < |init| ==> init[j] == nlas[j];
      NoExpressions(init);
    }
  }

  /** With one userdata and one expression list, a rule is reported exactly when some record of the userdata is a
      comment and the first expression named "counter" carries both values. */
  lemma {:induction false} ReportedIff(nlas: seq<Nla>, userdata: bytes, list: bytes)
    requires Only(nlas, NFTA_RULE_USERDATA, userdata) && Only(nlas, NFTA_RULE_EXPRESSIONS, list)
    ensures var c := FirstCounter(Attrs(list));
            RuleOf(nlas).Some? <==>
              (exists r :: r in Records(userdata) && IsComment(r))
              && c.Some? && c.value.octets.Some? && c.value.packets.Some?
    ensures RuleOf(nlas).Some? ==> Some(RuleOf(nlas).value.comment) == FirstComment(Records(userdata))
  {
    hide Attrs, Records, FirstCounter, IsComment, Trimmed;
    LastMeans(nlas, NFTA_RULE_USERDATA);
    var i :| 0 <= i < |nlas| && nlas[i] == Nla(NFTA_RULE_EXPRESSIONS, list)
             && forall j :: 0 <= j < |nlas| && j != i ==> nlas[j].ty != NFTA_RULE_EXPRESSIONS;
    OnlyExpressions(nlas, i);
    FirstCommentMeans(Records(userdata));
  }

  // ---- Rules as the kernel encodes them ----

  function EncodeCounter(ty: u16, value: Option<u64>): bytes {
    if value.None? then [] else EncodeNla(ty, ToBE(value.value, 8))
  }

  function EncodeData(e: Expr): bytes {
    EncodeCounter(1, e.octets) + EncodeCounter(2, e.packets)
  }

  function EncodeExpr(e: Expr): bytes {
    EncodeNla(1, e.name + [0]) + EncodeNla(NLA_F_NESTED + 2, EncodeData(e))
  }

  function EncodeExprs(es: seq<Expr>): bytes {
    if es == [] then []
    else EncodeExprs(es[..|es| - 1]) + EncodeNla(NLA_F_NESTED + 1, EncodeExpr(es[|es| - 1]))
  }

  function EncodeRule(table: bytes, chain: bytes, es: seq<Expr>, rs: seq<Record>): bytes
    requires forall r :: r in rs ==> |r.data| < 256
  {
    EncodeNla(1, table + [0]) + (EncodeNla(2, chain + [0])
    + (EncodeNla(NLA_F_NESTED + 4, EncodeExprs(es)) + EncodeNla(7, EncodeRecords(rs))))
  }

  /** The name the walk looks for, as text. */
  lemma {:induction false} CounterInText()
    ensures COUNTER == Encode("counter")
  {
    EncodeAscii("counter");
  }

  lemma {:induction false} EncodeAscii(t: string)
    requires forall c :: c in t ==> c as int < 0x80
    ensures Encode(t) == seq(|t|, i requires 0 <= i < |t| => t[i] as int)
  {
    if t != [] {
      assert t[0] in t && forall c :: c in t[1..] ==> c in t;
      EncodeAscii(t[1..]);
    }
  }

  /** A comment is the data of a type-0 record up to a trailing NUL; a record of another type, or without anything in
      front of its NUL, is passed over. */
  lemma {:induction false} CommentInOctets(ty: byte, data: bytes, rest: seq<Record>)
    requires data == [] || data[|data| - 1] != 0
    ensures FirstComment([Record(ty, data)] + rest) == if ty == 0 && data != [] then Some(data) else FirstComment(rest)
    ensures FirstComment([Record(ty, data + [0])] + rest)
         == if ty == 0 && data != [] then Some(data) else FirstComment(rest)
  {
    assert ([Record(ty, data)] + rest)[1..] == rest && ([Record(ty, data + [0])] + rest)[1..] == rest;
    assert (data + [0])[..|data|] == data;
  }

  function FirstNamed(es: seq<Expr>): Option<Expr> {
    if es == [] then None
    else
      var r := FirstNamed(es[..|es| - 1]);
      if r.Some? then r else if es[|es| - 1].name == COUNTER then Some(es[|es| - 1]) else None
  }

  lemma {:induction false} EncodedCounter(ty: u16, value: Option<u64>, rest: bytes)
    requires ty < NLA_TYPE_MODULUS
    ensures Attrs(EncodeCounter(ty, value) + rest)
         == (if value.None? then [] else [Nla(ty, ToBE(value.value, 8))]) + Attrs(rest)
    ensures value.Some? ==> ReadU64BE(ToBE(value.value, 8)) == value
  {
    hide Attrs, EncodeNla, ToBE, ReadBE;
    if value.None? {
      assert [] + rest == rest && [] + Attrs(rest) == Attrs(rest);
    } else {
      AttrsOfEncoded(ty, ToBE(value.value, 8), rest);
      RadixValues();
      ReadersInvertWriters(value.value, 8, []);
      assert ToBE(value.value, 8) + [] == ToBE(value.value, 8);
    }
  }

  lemma {:induction false} DataReadsBack(e: Expr)
    ensures var data := Attrs(EncodeData(e));
            CounterIn(data, NFTA_COUNTER_BYTES) == e.octets && CounterIn(data, NFTA_COUNTER_PACKETS) == e.packets
    ensures FitsNla(EncodeData(e))
  {
    EncodedDataFits(e);
    hide Attrs, EncodeNla, EncodeCounter, ToBE, ReadU64BE;
    EncodedCounter(NFTA_COUNTER_BYTES, e.octets, EncodeCounter(NFTA_COUNTER_PACKETS, e.packets));
    EncodedCounter(NFTA_COUNTER_PACKETS, e.packets, []);
    AttrsOfNothing();
    assert EncodeCounter(NFTA_COUNTER_PACKETS, e.packets) + [] == EncodeCounter(NFTA_COUNTER_PACKETS, e.packets);
    var b := if e.octets.None? then [] else [Nla(NFTA_COUNTER_BYTES, ToBE(e.octets.value, 8))];
    var p := if e.packets.None? then [] else [Nla(NFTA_COUNTER_PACKETS, ToBE(e.packets.value, 8))];
    assert Attrs(EncodeData(e)) == b + p;
    LastAppend(b, p, NFTA_COUNTER_BYTES);
    LastAppend(b, p, NFTA_COUNTER_PACKETS);
  }

  lemma {:induction false} EncodedDataFits(e: Expr)
    ensures FitsNla(EncodeData(e))
  {
    hide ToBE;
  }

  lemma {:induction false} TrimsNul(s: bytes)
    ensures Trimmed(s + [0]) == s
  {
  }

  lemma {:induction false} ExprReadsBack(e: Expr)
    requires FitsNla(e.name + [0])
    ensures ExprOf(Attrs(EncodeExpr(e))) == e
  {
    hide Attrs, EncodeNla, EncodeData, CounterIn, Trimmed;
    DataReadsBack(e);
    TrimsNul(e.name);
    AttrsOfTwo(NFTA_EXPR_NAME, e.name + [0], NLA_F_NESTED + NFTA_EXPR_DATA, EncodeData(e));
    var n, d := Nla(NFTA_EXPR_NAME, e.name + [0]), Nla(NFTA_EXPR_DATA, EncodeData(e));
    LastAppend([n], [d], NFTA_EXPR_NAME);
    InnerAppend([n], [d], NFTA_EXPR_DATA);
    assert Inner([n], NFTA_EXPR_DATA) == [] && Inner([d], NFTA_EXPR_DATA) == [] + Attrs(EncodeData(e));
    assert [] + ([] + Attrs(EncodeData(e))) == Attrs(EncodeData(e));
  }

  predicate FitsExpr(e: Expr) {
    FitsNla(e.name + [0]) && FitsNla(EncodeExpr(e))
  }

  /** The list of elements, whatever follows them. */
  function Elements(es: seq<Expr>): seq<Nla> {
    if es == [] then [] else Elements(es[..|es| - 1]) + [Nla(NFTA_LIST_ELEM, EncodeExpr(es[|es| - 1]))]
  }

  lemma {:induction false} ElementsReadBack(es: seq<Expr>, rest: bytes)
    requires forall e :: e in es ==> FitsExpr(e)
    ensures Attrs(EncodeExprs(es) + rest) == Elements(es) + Attrs(rest)
  {
    hide Attrs, EncodeNla, EncodeExpr;
    if es == [] {
      assert EncodeExprs(es) + rest == rest && Elements(es) + Attrs(rest) == Attrs(rest);
    } else {
      var init, last := es[..|es| - 1], es[|es| - 1];
      assert last in es && FitsExpr(last);
      var piece := EncodeNla(NLA_F_NESTED + NFTA_LIST_ELEM, EncodeExpr(last));
      AttrsOfEncoded(NLA_F_NESTED + NFTA_LIST_ELEM, EncodeExpr(last), rest);
      ElementsReadBack(init, piece + rest);
      Associative(EncodeExprs(init), piece, rest);
      Associative(Elements(init), [Nla(NFTA_LIST_ELEM, EncodeExpr(last))], Attrs(rest));
    }
  }

  lemma {:induction false} FirstCounterOfElements(es: seq<Expr>)
    requires forall e :: e in es ==> FitsExpr(e)
    ensures FirstCounter(Elements(es)) == FirstNamed(es)
  {
    hide Attrs, EncodeExpr, ExprOf;
    if es != [] {
      FirstCounterOfElements(es[..|es| - 1]);
      assert es[|es| - 1] in es;
      ExprReadsBack(es[|es| - 1]);
      var l := Elements(es);
      assert l[..|l| - 1] == Elements(es[..|es| - 1]);
    }
  }

  /** A rule in the kernel's layout is recovered through its four nesting levels: names, the first comment among any
      records, and the values of the first expression named "counter" among any expressions. */
  lemma {:induction false} RuleRoundTrip(table: bytes, chain: bytes, es: seq<Expr>, rs: seq<Record>)
    requires FitsNla(table + [0]) && FitsNla(chain + [0]) && FitsNla(EncodeExprs(es))
    requires forall e :: e in es ==> FitsExpr(e)
    requires (forall r :: r in rs ==> |r.data| < 256) && FitsNla(EncodeRecords(rs))
    ensures var rule := RuleOf(Attrs(EncodeRule(table, chain, es, rs)));
            var comment, c := FirstComment(rs), FirstNamed(es);
            rule == if comment.None? || c.None? || c.value.octets.None? || c.value.packets.None? then None
                    else Some(NftRuleCounter(table, chain, comment.value, c.value.octets.value, c.value.packets.value))
  {
    hide Attrs, EncodeNla, EncodeExprs, EncodeRecords, Records, FirstCounter, FirstNamed, FirstComment, Trimmed;
    AttrsOfRule(table, chain, es, rs);
    RecordsRoundTrip(rs, []);
    assert EncodeRecords(rs) + [] == EncodeRecords(rs);
    ElementsReadBack(es, []);
    AttrsOfNothing();
    assert EncodeExprs(es) + [] == EncodeExprs(es) && Elements(es) + [] == Elements(es);
    FirstCounterOfElements(es);
    TrimsNul(table);
    TrimsNul(chain);
    FourAttributes(table + [0], chain + [0], EncodeExprs(es), EncodeRecords(rs));
  }

  lemma {:induction false} AttrsOfRule(table: bytes, chain: bytes, es: seq<Expr>, rs: seq<Record>)
    requires FitsNla(table + [0]) && FitsNla(chain + [0]) && FitsNla(EncodeExprs(es))
    requires (forall r :: r in rs ==> |r.data| < 256) && FitsNla(EncodeRecords(rs))
    ensures Attrs(EncodeRule(table, chain, es, rs))
         == [Nla(NFTA_RULE_TABLE, table + [0]), Nla(NFTA_RULE_CHAIN, chain + [0]),
             Nla(NFTA_RULE_EXPRESSIONS, EncodeExprs(es)), Nla(NFTA_RULE_USERDATA, EncodeRecords(rs))]
  {
    hide Attrs, EncodeNla, EncodeExprs, EncodeRecords;
    var last := EncodeNla(NLA_F_NESTED + NFTA_RULE_EXPRESSIONS, EncodeExprs(es))
      + EncodeNla(NFTA_RULE_USERDATA, EncodeRecords(rs));
    AttrsOfTwo(NLA_F_NESTED + NFTA_RULE_EXPRESSIONS, EncodeExprs(es), NFTA_RULE_USERDATA, EncodeRecords(rs));
    AttrsOfEncoded(NFTA_RULE_CHAIN, chain + [0], last);
    AttrsOfEncoded(NFTA_RULE_TABLE, table + [0], EncodeNla(NFTA_RULE_CHAIN, chain + [0]) + last);
  }

  lemma {:induction false} FourAttributes(table: bytes, chain: bytes, list: bytes, userdata: bytes)
    ensures var nlas := [Nla(NFTA_RULE_TABLE, table), Nla(NFTA_RULE_CHAIN, chain),
                         Nla(NFTA_RULE_EXPRESSIONS, list), Nla(NFTA_RULE_USERDATA, userdata)];
            NameIn(nlas, NFTA_RULE_TABLE) == Trimmed(table) && NameIn(nlas, NFTA_RULE_CHAIN) == Trimmed(chain)
            && CommentOf(nlas) == FirstComment(Records(userdata)) && CounterOf(nlas) == FirstCounter(Attrs(list))
  {
    hide Attrs, FirstCounter, Records, FirstComment, Trimmed;
    var nlas := [Nla(NFTA_RULE_TABLE, table), Nla(NFTA_RULE_CHAIN, chain),
                 Nla(NFTA_RULE_EXPRESSIONS, list), Nla(NFTA_RULE_USERDATA, userdata)];
    OnlyExpressions(nlas, 2);
    OnlyLast(nlas, 0);
    OnlyLast(nlas, 1);
    OnlyLast(nlas, 3);
  }

  // ---- The cap on rule series ----

  const RULE_BYTES := "nft_rule_counter_bytes_total"
  const RULE_PACKETS := "nft_rule_counter_packets_total"
  const RULE_BYTES_HELP := "Total bytes matched by nftables rules carrying a counter expression."
  const RULE_PACKETS_HELP := "Total packets matched by nftables rules carrying a counter expression."
  const COLLECTOR_ERROR := "nft_scrape_collector_error_total"

  function RuleLabels(r: NftRuleCounter): seq<Label> {
    [Label("chain", LossyText(r.chain)), Label("comment", LossyText(r.comment)), Label("table", LossyText(r.table))]
  }

  function RuleSample(name: string, help: string, r: NftRuleCounter, value: u64): MetricSample {
    MetricSample(name, help, Counter, RuleLabels(r), UInt(value))
  }

  function OverflowSample(dropped: u64): MetricSample {
    MetricSample(COLLECTOR_ERROR, "Total errors during collection partitioned by collector and reason.", Counter,
                 [Label("collector", "nftables"), Label("reason", "cardinality_overflow")], UInt(dropped))
  }

  function RuleSamples(rules: seq<NftRuleCounter>): seq<MetricSample> {
    if rules == [] then []
    else
      var r := rules[|rules| - 1];
      RuleSamples(rules[..|rules| - 1])
      + [RuleSample(RULE_BYTES, RULE_BYTES_HELP, r, r.octets),
         RuleSample(RULE_PACKETS, RULE_PACKETS_HELP, r, r.packets)]
  }

  /** The first 1000 rules in order, and the number of the others. */
  function RuleMetrics(rules: seq<NftRuleCounter>): seq<MetricSample>
    requires |rules| < U64
  {
    if |rules| <= RULE_COUNTER_MAX_SERIES then RuleSamples(rules)
    else RuleSamples(rules[..RULE_COUNTER_MAX_SERIES]) + [OverflowSample(|rules| - RULE_COUNTER_MAX_SERIES)]
  }

  /** The rule section of the metrics. */
  method BuildRuleMetrics(rules: seq<NftRuleCounter>) returns (out: seq<MetricSample>)
    requires |rules| < U64
    ensures out == RuleMetrics(rules)
  {
    hide RuleSample;
    out := [];
    var taken := Min(|rules|, RULE_COUNTER_MAX_SERIES);
    assert rules[..0] == [];
    for i := 0 to taken
      invariant out == RuleSamples(rules[..i])
    {
      assert rules[..i + 1][..i] == rules[..i];
      out := out + [RuleSample(RULE_BYTES, RULE_BYTES_HELP, rules[i], rules[i].octets)];
      out := out + [RuleSample(RULE_PACKETS, RULE_PACKETS_HELP, rules[i], rules[i].packets)];
    }
    var dropped := if |rules| > RULE_COUNTER_MAX_SERIES then |rules| - RULE_COUNTER_MAX_SERIES else 0;
    if dropped > 0 {
      out := out + [OverflowSample(dropped)];
    } else {
      assert rules[..|rules|] == rules;
    }
  }

  /** The overflow the samples report. */
  function Reported(ss: seq<MetricSample>): nat {
    if ss == [] then 0
    else Reported(ss[..|ss| - 1])
         + if ss[|ss| - 1].name == COLLECTOR_ERROR && ss[|ss| - 1].value.UInt? then ss[|ss| - 1].value.n else 0
  }

  lemma {:induction false} RuleSamplesCount(rules: seq<NftRuleCounter>)
    ensures Count(RuleSamples(rules), RULE_BYTES) == Count(RuleSamples(rules), RULE_PACKETS) == |rules|
    ensures Reported(RuleSamples(rules)) == 0
  {
    NamesDiffer();
    if rules != [] {
      var init, r := rules[..|rules| - 1], rules[|rules| - 1];
      RuleSamplesCount(init);
      var b := RuleSample(RULE_BYTES, RULE_BYTES_HELP, r, r.octets);
      var p := RuleSample(RULE_PACKETS, RULE_PACKETS_HELP, r, r.packets);
      hide RuleLabels;
      var ss := RuleSamples(rules);
      assert ss[..|ss| - 1] == RuleSamples(init) + [b] && ss[|ss| - 1] == p;
      assert (RuleSamples(init) + [b])[..|RuleSamples(init)|] == RuleSamples(init);
    }
  }

  lemma {:induction false} NamesDiffer()
    ensures RULE_BYTES != RULE_PACKETS && RULE_BYTES != COLLECTOR_ERROR && RULE_PACKETS != COLLECTOR_ERROR
  {
    assert |RULE_BYTES| != |RULE_PACKETS| && |RULE_BYTES| != |COLLECTOR_ERROR| && |RULE_PACKETS| != |COLLECTOR_ERROR|;
  }

  /** Rule samples emitted plus rules reported as dropped is the number of parsed rules. */
  lemma {:induction false} RuleMetricsAccountForAll(rules: seq<NftRuleCounter>)
    requires |rules| < U64
    ensures var out := RuleMetrics(rules);
            && Count(out, RULE_BYTES) + Reported(out) == |rules|
            && Count(out, RULE_PACKETS) == Count(out, RULE_BYTES) <= RULE_COUNTER_MAX_SERIES
            && (Reported(out) > 0 ==> Count(out, RULE_BYTES) == RULE_COUNTER_MAX_SERIES)
  {
    hide RuleSamples;
    var out := RuleMetrics(rules);
    NamesDiffer();
    if |rules| <= RULE_COUNTER_MAX_SERIES {
      RuleSamplesCount(rules);
    } else {
      RuleSamplesCount(rules[..RULE_COUNTER_MAX_SERIES]);
      assert out[..|out| - 1] == RuleSamples(rules[..RULE_COUNTER_MAX_SERIES]);
    }
  }

  /** The two samples of rule i, with the rule's own names and values. */
  lemma {:induction false} RuleSamplesAt(rules: seq<NftRuleCounter>, i: nat)
    requires i < |rules|
    ensures |RuleSamples(rules)| == 2 * |rules|
    ensures var s, r := RuleSamples(rules)[2 * i], rules[i];
            && s.name == "nft_rule_counter_bytes_total" && s.kind == Counter && s.value == UInt(r.octets)
            && s.labels == [Label("chain", LossyText(r.chain)), Label("comment", LossyText(r.comment)),
                            Label("table", LossyText(r.table))]
    ensures var s, r := RuleSamples(rules)[2 * i + 1], rules[i];
            && s.name == "nft_rule_counter_packets_total" && s.kind == Counter && s.value == UInt(r.packets)
            && s.labels == [Label("chain", LossyText(r.chain)), Label("comment", LossyText(r.comment)),
                            Label("table", LossyText(r.table))]
  {
    hide LossyText, RULE_BYTES_HELP, RULE_PACKETS_HELP;
    RuleSamplesLength(rules);
    RuleSamplesLength(rules[..|rules| - 1]);
    if i < |rules| - 1 {
      RuleSamplesAt(rules[..|rules| - 1], i);
      hide RULE_BYTES, RULE_PACKETS;
    }
  }

  lemma {:induction false} RuleSamplesLength(rules: seq<NftRuleCounter>)
    ensures |RuleSamples(rules)| == 2 * |rules|
  {
    hide RuleSample;
    if rules != [] {
      RuleSamplesLength(rules[..|rules| - 1]);
    }
  }

  /** What is emitted: for each of the first 1000 rules its octets and its packets, and nothing else but the
      overflow. */
  lemma {:induction false} RuleMetricsAt(rules: seq<NftRuleCounter>, i: nat)
    requires |rules| < U64 && i < |rules| && i < 1000
    ensures var out := RuleMetrics(rules);
            && |out| == (if |rules| <= 1000 then 2 * |rules| else 2001)
            && out[2 * i].name == "nft_rule_counter_bytes_total" && out[2 * i].value == UInt(rules[i].octets)
            && out[2 * i + 1].name == "nft_rule_counter_packets_total" && out[2 * i + 1].value == UInt(rules[i].packets)
            && out[2 * i].labels == out[2 * i + 1].labels
            && out[2 * i].labels == [Label("chain", LossyText(rules[i].chain)),
                                     Label("comment", LossyText(rules[i].comment)),
                                     Label("table", LossyText(rules[i].table))]
  {
    hide LossyText, RuleSamples, OverflowSample;
    if |rules| <= 1000 {
      RuleSamplesAt(rules, i);
    } else {
      RuleSamplesAt(rules[..1000], i);
    }
  }

  /** The rules beyond the cap are one number. */
  lemma {:induction false} OverflowInText(rules: seq<NftRuleCounter>)
    requires 1000 < |rules| < U64
    ensures var out := RuleMetrics(rules);
            && |out| == 2001 && out[2000].name == "nft_scrape_collector_error_total" && out[2000].kind == Counter
            && out[2000].labels == [Label("collector", "nftables"), Label("reason", "cardinality_overflow")]
            && out[2000].value == UInt(|rules| - 1000)
  {
    hide RuleSamples;
    RuleSamplesAt(rules[..1000], 0);
  }

  // ---- Rules that are one series ----

  /** Two of the rules have the same labels, as the encoder's key sees them. */
  ghost predicate SharedKey(rules: seq<NftRuleCounter>) {
    exists i, j :: 0 <= i < j < |rules| && SeriesKey(RuleLabels(rules[i])) == SeriesKey(RuleLabels(rules[j]))
  }

  ghost predicate HasKey(rules: seq<NftRuleCounter>, key: string) {
    exists i :: 0 <= i < |rules| && SeriesKey(RuleLabels(rules[i])) == key
  }

  lemma {:induction false} RuleKeys(rules: seq<NftRuleCounter>, key: string)
    ensures key in Keys(RuleSamples(rules), RULE_BYTES) <==> HasKey(rules, key)
    ensures Series.Drops(RuleSamples(rules), RULE_BYTES) <==> SharedKey(rules)
  {
    hide SeriesKey, RuleLabels, Keys, Series.Drops, HasKey, SharedKey;
    NamesDiffer();
    if rules == [] {
      NothingDrops(key);
    } else {
      var init, r := rules[..|rules| - 1], rules[|rules| - 1];
      var b := RuleSample(RULE_BYTES, RULE_BYTES_HELP, r, r.octets);
      var p := RuleSample(RULE_PACKETS, RULE_PACKETS_HELP, r, r.packets);
      RuleKeys(init, key);
      RuleKeys(init, SeriesKey(RuleLabels(r)));
      Series.DropsStep(RuleSamples(init), b, RULE_BYTES);
      Series.DropsStep(RuleSamples(init) + [b], p, RULE_BYTES);
      assert RuleSamples(rules) == RuleSamples(init) + [b] + [p];
      SharedStep(init, r, key);
      assert rules == init + [r];
    }
  }

  lemma {:induction false} NothingDrops(key: string)
    ensures !Series.Drops([], RULE_BYTES) && Keys([], RULE_BYTES) == {} && !HasKey([], key) && !SharedKey([])
  {
  }

  lemma {:induction false} SharedStep(rules: seq<NftRuleCounter>, r: NftRuleCounter, key: string)
    ensures HasKey(rules + [r], key) <==> HasKey(rules, key) || SeriesKey(RuleLabels(r)) == key
    ensures SharedKey(rules + [r]) <==> SharedKey(rules) || HasKey(rules, SeriesKey(RuleLabels(r)))
  {
    hide SeriesKey, RuleLabels;
    var all := rules + [r];
    assert forall i :: 0 <= i < |rules| ==> all[i] == rules[i];
    assert all[|rules|] == r;
  }

  /** Texts that are UTF-8 and hold no U+0002 share a key only when they are the same octets. */
  predicate Plain(r: NftRuleCounter) {
    forall p :: p in {r.table, r.chain, r.comment} ==> IsUtf8(p) && Registry.STX !in LossyText(p)
  }

  lemma {:induction false} PlainRulesShareKeyIff(r: NftRuleCounter, s: NftRuleCounter)
    requires Plain(r) && Plain(s)
    ensures SeriesKey(RuleLabels(r)) == SeriesKey(RuleLabels(s)) <==>
            r.table == s.table && r.chain == s.chain && r.comment == s.comment
  {
    hide SeriesKey, LossyText, IsUtf8, RuleLabels;
    if SeriesKey(RuleLabels(r)) == SeriesKey(RuleLabels(s)) {
      PlainLabels(r);
      PlainLabels(s);
      Series.KeyInjective(RuleLabels(r), RuleLabels(s));
      DecodedApart(r.table, s.table);
      DecodedApart(r.chain, s.chain);
      DecodedApart(r.comment, s.comment);
    } else if r.table == s.table && r.chain == s.chain && r.comment == s.comment {
      SameLabels(r, s);
    }
  }

  lemma {:induction false} PlainLabels(r: NftRuleCounter)
    requires Plain(r)
    ensures IsUtf8(r.table) && IsUtf8(r.chain) && IsUtf8(r.comment)
    ensures Exposition.Keyed(RuleLabels(r)) && Series.NoSeparator(RuleLabels(r))
    ensures RuleLabels(r)[0].value == LossyText(r.chain) && RuleLabels(r)[1].value == LossyText(r.comment)
    ensures RuleLabels(r)[2].value == LossyText(r.table)
  {
    hide LossyText, IsUtf8;
    assert r.table in {r.table, r.chain, r.comment} && r.chain in {r.table, r.chain, r.comment};
  }

  lemma {:induction false} SameLabels(r: NftRuleCounter, s: NftRuleCounter)
    requires r.table == s.table && r.chain == s.chain && r.comment == s.comment
    ensures RuleLabels(r) == RuleLabels(s)
  {
  }

  /** Without that they may: two different octets that are no text become the same comment. */
  lemma {:induction false} LossyCommentsCollide(r: NftRuleCounter)
    ensures LossyText([0xFF]) == LossyText([0xFE])
    ensures SharedKey([r.(comment := [0xFF]), r.(comment := [0xFE])])
  {
    hide SeriesKey;
    var a: bytes, b: bytes := [0xFF], [0xFE];
    assert LossyText(a) == [REPLACEMENT] + LossyText(a[1..]) && LossyText(b) == [REPLACEMENT] + LossyText(b[1..]);
    assert a[1..] == b[1..];
    var rules := [r.(comment := a), r.(comment := b)];
    assert RuleLabels(rules[0]) == RuleLabels(rules[1]);
  }

  /** A sample is not yet a line: the encoder drops a rule's line exactly when two of the emitted rules share
      their key. */
  lemma {:induction false} RuleLineDroppedIff(rules: seq<NftRuleCounter>)
    requires |rules| < U64
    ensures Series.Drops(RuleMetrics(rules), RULE_BYTES) <==> SharedKey(rules[..Min(|rules|, RULE_COUNTER_MAX_SERIES)])
  {
    hide RuleSamples, SharedKey, Series.Drops, SeriesKey;
    NamesDiffer();
    if |rules| <= RULE_COUNTER_MAX_SERIES {
      RuleKeys(rules, []);
      assert rules[..|rules|] == rules;
    } else {
      var front := rules[..RULE_COUNTER_MAX_SERIES];
      RuleKeys(front, []);
      Series.DropsStep(RuleSamples(front), OverflowSample(|rules| - RULE_COUNTER_MAX_SERIES), RULE_BYTES);
    }
  }

  // ---- Attributes that come again ----

  /** A later expression list replaces the counter only if it has one; a later userdata replaces the comment anyway. */
  lemma {:induction false} LaterAttributeDecides(nlas: seq<Nla>, list: bytes, rs: seq<Record>)
    requires forall r :: r in rs ==> |r.data| < 256
    ensures CounterOf(nlas + [Nla(4, list)])
         == if FirstCounter(Attrs(list)).Some? then FirstCounter(Attrs(list)) else CounterOf(nlas)
    ensures CommentOf(nlas + [Nla(7, EncodeRecords(rs))]) == FirstComment(rs)
  {
    hide Attrs, FirstCounter, Records, EncodeRecords;
    assert (nlas + [Nla(4, list)])[..|nlas|] == nlas;
    RecordsRoundTrip(rs, []);
    assert EncodeRecords(rs) + [] == EncodeRecords(rs);
  }

  /** A counter value too short to read erases an earlier one. */
  lemma {:induction false} ShortCounterErases(data: seq<Nla>, ty: nat, short: bytes)
    requires |short| < 8
    ensures CounterIn(data + [Nla(ty, short)], ty) == None
  {
  }
}
