/** Connection-tracking frames of crates/nlx-netlink/src/collectors/conntrack.rs: flow frames read through three
    levels of nesting, and per-CPU statistics summed over frames. */
module Conntrack {
  import opened Wrappers
  import opened Bytes
  import opened Wire

  const CTA_TUPLE_ORIG: nat := 1
  const CTA_STATUS: nat := 3
  const CTA_PROTOINFO: nat := 4
  const CTA_COUNTERS_ORIG: nat := 9
  const CTA_COUNTERS_REPLY: nat := 10
  const CTA_TUPLE_PROTO: nat := 2
  const CTA_PROTO_NUM: nat := 1
  const CTA_PROTOINFO_TCP: nat := 1
  const CTA_PROTOINFO_TCP_STATE: nat := 1
  const CTA_COUNTERS_PACKETS: nat := 1
  const CTA_COUNTERS_BYTES: nat := 2

  const IPPROTO_TCP: byte := 6
  const IPS_ASSURED: nat := 4

  datatype ConntrackFlow = ConntrackFlow(
    protocol: string,
    state: string,
    origBytes: u64,
    origPackets: u64,
    replyBytes: u64,
    replyPackets: u64)

  function ProtoLabel(proto: byte): string {
    match proto
    case 6 => "tcp"
    case 17 => "udp"
    case 1 => "icmp"
    case 58 => "icmpv6"
    case 132 => "sctp"
    case 33 => "dccp"
    case 136 => "udplite"
    case _ => "other"
  }

  function TcpStateLabel(state: byte): string {
    match state
    case 0 => "none"
    case 1 => "syn_sent"
    case 2 => "syn_recv"
    case 3 => "established"
    case 4 => "fin_wait"
    case 5 => "close_wait"
    case 6 => "last_ack"
    case 7 => "time_wait"
    case 8 => "close"
    case 9 => "listen"
    case _ => "other"
  }

  function StatusLabel(status: u32): string {
    if HasBit(status, IPS_ASSURED) then "established" else "new"
  }

  /** The texts behind the numbers. */
  lemma {:induction false} LabelsInText(status: u32)
    ensures ProtoLabel(6) == "tcp" && ProtoLabel(17) == "udp" && ProtoLabel(1) == "icmp" && ProtoLabel(58) == "icmpv6"
    ensures ProtoLabel(132) == "sctp" && ProtoLabel(33) == "dccp" && ProtoLabel(136) == "udplite"
    ensures forall p: byte :: p !in {6, 17, 1, 58, 132, 33, 136} ==> ProtoLabel(p) == "other"
    ensures forall s: byte :: s < 10 ==>
              TcpStateLabel(s) == ["none", "syn_sent", "syn_recv", "established", "fin_wait", "close_wait", "last_ack",
                                   "time_wait", "close", "listen"][s]
    ensures forall s: byte :: s >= 10 ==> TcpStateLabel(s) == "other"
    ensures StatusLabel(status) == if status / 4 % 2 == 1 then "established" else "new"
  {
  }

  // ---- What a list of top-level attributes says ----

  /** The last octet that could be read from an attribute of the type. */
  function LastOctet(nlas: seq<Nla>, ty: nat): Option<byte> {
    if nlas == [] then None
    else
      var a := nlas[|nlas| - 1];
      if a.ty == ty && a.payload != [] then Some(a.payload[0]) else LastOctet(nlas[..|nlas| - 1], ty)
  }

  /** The protocol number: the last one inside the tuples of the original direction. */
  function ProtoIn(nlas: seq<Nla>): Option<byte> {
    LastOctet(Inner(Inner(nlas, CTA_TUPLE_ORIG), CTA_TUPLE_PROTO), CTA_PROTO_NUM)
  }

  /** A counter: the last one of its type inside the containers of a direction; one too short to read counts zero. */
  function CounterIn(nlas: seq<Nla>, direction: nat, ty: nat): u64 {
    match Last(Inner(nlas, direction), ty)
    case None => 0
    case Some(p) => ReadU64BE(p).GetOr(0)
  }

  /** The TCP state a protocol-info attribute carries. */
  function TcpStateIn(payload: bytes): Option<byte> {
    LastOctet(Inner(Attrs(payload), CTA_PROTOINFO_TCP), CTA_PROTOINFO_TCP_STATE)
  }

  predicate IsTcp(nlas: seq<Nla>) {
    ProtoIn(nlas) == Some(IPPROTO_TCP)
  }

  /** The state after the attributes in order: a status counts while the flow is not known to be TCP,
      a protocol info once it is. */
  function StateOf(nlas: seq<Nla>): string {
    if nlas == [] then "new"
    else
      var before, a := nlas[..|nlas| - 1], nlas[|nlas| - 1];
      if a.ty == CTA_STATUS && !IsTcp(before) && ReadU32BE(a.payload).Some? then
        StatusLabel(ReadU32BE(a.payload).value)
      else if a.ty == CTA_PROTOINFO && IsTcp(before) && TcpStateIn(a.payload).Some? then
        TcpStateLabel(TcpStateIn(a.payload).value)
      else StateOf(before)
  }

  function FlowOf(nlas: seq<Nla>): ConntrackFlow {
    ConntrackFlow(
      ProtoLabel(ProtoIn(nlas).GetOr(0)),
      StateOf(nlas),
      CounterIn(nlas, CTA_COUNTERS_ORIG, CTA_COUNTERS_BYTES),
      CounterIn(nlas, CTA_COUNTERS_ORIG, CTA_COUNTERS_PACKETS),
      CounterIn(nlas, CTA_COUNTERS_REPLY, CTA_COUNTERS_BYTES),
      CounterIn(nlas, CTA_COUNTERS_REPLY, CTA_COUNTERS_PACKETS))
  }

  lemma {:induction false} LastOctetAppend(a: seq<Nla>, b: seq<Nla>, ty: nat)
    ensures LastOctet(a + b, ty) == if LastOctet(b, ty).Some? then LastOctet(b, ty) else LastOctet(a, ty)
  {
    if b == [] {
      assert a + b == a;
    } else {
      assert (a + b)[..|a + b| - 1] == a + b[..|b| - 1];
      LastOctetAppend(a, b[..|b| - 1], ty);
    }
  }

  /** How one more top-level attribute changes the protocol number. */
  lemma {:induction false} ProtoStep(nlas: seq<Nla>, a: Nla)
    ensures ProtoIn(nlas + [a]) ==
            if a.ty == CTA_TUPLE_ORIG && TupleProto(a.payload).Some? then TupleProto(a.payload) else ProtoIn(nlas)
  {
    hide Attrs, LastOctet;
    InnerStep(nlas, a, CTA_TUPLE_ORIG);
    var x, y := Inner(nlas, CTA_TUPLE_ORIG), Inner([a], CTA_TUPLE_ORIG);
    InnerAppend(x, y, CTA_TUPLE_PROTO);
    LastOctetAppend(Inner(x, CTA_TUPLE_PROTO), Inner(y, CTA_TUPLE_PROTO), CTA_PROTO_NUM);
    if a.ty != CTA_TUPLE_ORIG {
      assert y == [];
      NothingInside();
    }
  }

  /** The protocol number inside one tuple. */
  function TupleProto(payload: bytes): Option<byte> {
    LastOctet(Inner(Attrs(payload), CTA_TUPLE_PROTO), CTA_PROTO_NUM)
  }

  lemma {:induction false} NothingInside()
    ensures forall ty: nat :: Inner([], ty) == [] && LastOctet([], ty) == None
  {
  }

  lemma {:induction false} InnerStep(nlas: seq<Nla>, a: Nla, ty: nat)
    ensures Inner(nlas + [a], ty) == Inner(nlas, ty) + Inner([a], ty)
    ensures Inner([a], ty) == if a.ty == ty then Attrs(a.payload) else []
  {
    hide Attrs;
    InnerAppend(nlas, [a], ty);
    assert [a][..0] == [];
  }

  lemma {:induction false} CounterStep(nlas: seq<Nla>, a: Nla, direction: nat, ty: nat)
    ensures CounterIn(nlas + [a], direction, ty) ==
            if a.ty == direction then CounterAfter(a.payload, ty, CounterIn(nlas, direction, ty))
            else CounterIn(nlas, direction, ty)
  {
    hide Attrs, Last, ReadBE;
    InnerStep(nlas, a, direction);
    LastAppend(Inner(nlas, direction), Inner([a], direction), ty);
    if a.ty != direction {
      NothingLast();
    }
  }

  lemma {:induction false} StateStep(nlas: seq<Nla>, a: Nla)
    ensures StateOf(nlas + [a]) ==
            if a.ty == CTA_STATUS && !IsTcp(nlas) && ReadU32BE(a.payload).Some?
               then StatusLabel(ReadU32BE(a.payload).value)
            else if a.ty == CTA_PROTOINFO && IsTcp(nlas) && TcpStateIn(a.payload).Some?
                 then TcpStateLabel(TcpStateIn(a.payload).value)
            else StateOf(nlas)
  {
    hide IsTcp, ReadBE, TcpStateIn;
    assert (nlas + [a])[..|nlas + [a]| - 1] == nlas;
  }

  // ---- parse_flow_frame ----

  /** The innermost loops that keep the last readable octet of a type. */
  method ReadLastOctet(payload: bytes, outer: nat, inner: nat, start: Option<byte>) returns (r: Option<byte>)
    ensures var o := LastOctet(Inner(Attrs(payload), outer), inner);
            r == if o.Some? then o else start
  {
    hide Attrs;
    r := start;
    var attrs := Attrs(payload);
    NothingInside();
    assert attrs[..0] == [];
    hide LastOctet, Inner;
    for i := 0 to |attrs|
      invariant var o := LastOctet(Inner(attrs[..i], outer), inner); r == if o.Some? then o else start
    {
      LastStep(attrs, i, outer);
      if attrs[i].ty == outer {
        LastOctetAppend(Inner(attrs[..i], outer), Attrs(attrs[i].payload), inner);
        r := ReadLastOctetFlat(attrs[i].payload, inner, r);
      } else {
        assert Inner(attrs[..i], outer) + [] == Inner(attrs[..i], outer);
      }
    }
    assert attrs[..|attrs|] == attrs;
  }

  method ReadLastOctetFlat(payload: bytes, ty: nat, start: Option<byte>) returns (r: Option<byte>)
    ensures var o := LastOctet(Attrs(payload), ty);
            r == if o.Some? then o else start
  {
    hide Attrs;
    r := start;
    var attrs := Attrs(payload);
    for i := 0 to |attrs|
      invariant var o := LastOctet(attrs[..i], ty); r == if o.Some? then o else start
    {
      assert attrs[..i + 1][..i] == attrs[..i];
      if attrs[i].ty == ty {
        var v := ReadU8(attrs[i].payload);
        if v.Some? {
          r := v;
        }
      }
    }
    assert attrs[..|attrs|] == attrs;
  }

  /** One direction's counters, each kept when its attribute is absent. */
  method ReadCounters(payload: bytes, packets0: u64, bytes0: u64) returns (packets: u64, octets: u64)
    ensures packets == CounterAfter(payload, CTA_COUNTERS_PACKETS, packets0)
    ensures octets == CounterAfter(payload, CTA_COUNTERS_BYTES, bytes0)
  {
    hide Attrs, ReadBE;
    packets, octets := packets0, bytes0;
    var attrs := Attrs(payload);
    NothingLast();
    assert attrs[..0] == [];
    hide Last, Inner;
    for i := 0 to |attrs|
      invariant var p := Last(attrs[..i], CTA_COUNTERS_PACKETS);
                packets == if p.Some? then ReadU64BE(p.value).GetOr(0) else packets0
      invariant var b := Last(attrs[..i], CTA_COUNTERS_BYTES);
                octets == if b.Some? then ReadU64BE(b.value).GetOr(0) else bytes0
    {
      LastStep(attrs, i, CTA_COUNTERS_PACKETS);
      LastStep(attrs, i, CTA_COUNTERS_BYTES);
      var a := attrs[i];
      if a.ty == CTA_COUNTERS_PACKETS {
        packets := ReadU64BE(a.payload).GetOr(0);
      } else if a.ty == CTA_COUNTERS_BYTES {
        octets := ReadU64BE(a.payload).GetOr(0);
      }
    }
    assert attrs[..|attrs|] == attrs;
  }

  /** The parser's locals stand for what the attributes read so far say. */
  ghost predicate Standing(nlas: seq<Nla>, proto: byte, isTcp: bool, flow: ConntrackFlow) {
    ProtoIn(nlas).GetOr(0) == proto && IsTcp(nlas) == isTcp && FlowOf(nlas) == flow.(protocol := ProtoLabel(proto))
  }

  lemma {:induction false} StandingAtStart()
    ensures Standing([], 0, false, ConntrackFlow("", "new", 0, 0, 0, 0))
  {
  }

  function CounterAfter(payload: bytes, ty: nat, before: u64): u64 {
    match Last(Attrs(payload), ty)
    case None => before
    case Some(p) => ReadU64BE(p).GetOr(0)
  }

  /** What the branch of the parser for each attribute type must do to its locals. */
  lemma {:induction false} StandingStep(nlas: seq<Nla>, a: Nla, proto: byte, isTcp: bool, flow: ConntrackFlow)
    requires Standing(nlas, proto, isTcp, flow)
    ensures a.ty == CTA_TUPLE_ORIG ==>
              var p := TupleProto(a.payload);
              if p.Some? then Standing(nlas + [a], p.value, p.value == IPPROTO_TCP, flow)
              else Standing(nlas + [a], proto, isTcp, flow)
    ensures a.ty == CTA_STATUS ==>
              var s := ReadU32BE(a.payload);
              Standing(nlas + [a], proto, isTcp,
                       if !isTcp && s.Some? then flow.(state := StatusLabel(s.value)) else flow)
    ensures a.ty == CTA_PROTOINFO ==>
              var s := TcpStateIn(a.payload);
              Standing(nlas + [a], proto, isTcp,
                       if isTcp && s.Some? then flow.(state := TcpStateLabel(s.value)) else flow)
    ensures a.ty == CTA_COUNTERS_ORIG ==>
              Standing(nlas + [a], proto, isTcp,
                       flow.(origPackets := CounterAfter(a.payload, CTA_COUNTERS_PACKETS, flow.origPackets),
                             origBytes := CounterAfter(a.payload, CTA_COUNTERS_BYTES, flow.origBytes)))
    ensures a.ty == CTA_COUNTERS_REPLY ==>
              Standing(nlas + [a], proto, isTcp,
                       flow.(replyPackets := CounterAfter(a.payload, CTA_COUNTERS_PACKETS, flow.replyPackets),
                             replyBytes := CounterAfter(a.payload, CTA_COUNTERS_BYTES, flow.replyBytes)))
    ensures a.ty !in {CTA_TUPLE_ORIG, CTA_STATUS, CTA_PROTOINFO, CTA_COUNTERS_ORIG, CTA_COUNTERS_REPLY} ==>
              Standing(nlas + [a], proto, isTcp, flow)
  {
    ProtoStep(nlas, a);
    StateStep(nlas, a);
    CounterStep(nlas, a, CTA_COUNTERS_ORIG, CTA_COUNTERS_PACKETS);
    CounterStep(nlas, a, CTA_COUNTERS_ORIG, CTA_COUNTERS_BYTES);
    CounterStep(nlas, a, CTA_COUNTERS_REPLY, CTA_COUNTERS_PACKETS);
    CounterStep(nlas, a, CTA_COUNTERS_REPLY, CTA_COUNTERS_BYTES);
    hide ProtoIn, StateOf, CounterIn, TupleProto, TcpStateIn, ReadBE, ReadU32BE, ReadU64BE, Last, Attrs, ProtoLabel,
         TcpStateLabel, StatusLabel;
  }

  /** Parses a flow frame into exactly what its attribute list says. */
  method ParseFlowFrame(frame: bytes) returns (r: Option<ConntrackFlow>)
    ensures r == if |frame| < NFGENMSG_LEN then None else Some(FlowOf(Attrs(frame[NFGENMSG_LEN..])))
  {
    hide Attrs;
    if |frame| < NFGENMSG_LEN {
      return None;
    }
    var attrs := Attrs(frame[NFGENMSG_LEN..]);
    var proto: byte := 0;
    var isTcp := false;
    var flow := ConntrackFlow("", "new", 0, 0, 0, 0);
    StandingAtStart();
    assert attrs[..0] == [];
    hide FlowOf, ProtoLabel, TcpStateLabel, StatusLabel, Last, LastOctet, Inner, ReadBE, ReadU32BE;
    for i := 0 to |attrs|
      invariant Standing(attrs[..i], proto, isTcp, flow)
    {
      var a := attrs[i];
      assert attrs[..i + 1] == attrs[..i] + [a];
      StandingStep(attrs[..i], a, proto, isTcp, flow);
      if a.ty == CTA_TUPLE_ORIG {
        var p := ReadLastOctet(a.payload, CTA_TUPLE_PROTO, CTA_PROTO_NUM, None);
        if p.Some? {
          proto := p.value;
          isTcp := p.value == IPPROTO_TCP;
        }
      } else if a.ty == CTA_STATUS {
        if !isTcp {
          var status := ReadU32BE(a.payload);
          if status.Some? {
            flow := flow.(state := StatusLabel(status.value));
          }
        }
      } else if a.ty == CTA_PROTOINFO {
        if isTcp {
          var s := ReadLastOctet(a.payload, CTA_PROTOINFO_TCP, CTA_PROTOINFO_TCP_STATE, None);
          if s.Some? {
            flow := flow.(state := TcpStateLabel(s.value));
          }
        }
      } else if a.ty == CTA_COUNTERS_ORIG {
        var packets, octets := ReadCounters(a.payload, flow.origPackets, flow.origBytes);
        flow := flow.(origPackets := packets, origBytes := octets);
      } else if a.ty == CTA_COUNTERS_REPLY {
        var packets, octets := ReadCounters(a.payload, flow.replyPackets, flow.replyBytes);
        flow := flow.(replyPackets := packets, replyBytes := octets);
      }
    }
    assert attrs[..|attrs|] == attrs;
    r := Some(flow.(protocol := ProtoLabel(proto)));
  }

  // ---- What does not matter to a flow ----

  predicate Known(ty: nat) {
    ty in {1, 3, 4, 9, 10}
  }

  ghost predicate SameFlow(x: seq<Nla>, y: seq<Nla>) {
    ProtoIn(x) == ProtoIn(y) && FlowOf(x) == FlowOf(y)
  }

  lemma {:induction false} SameFlowStep(x: seq<Nla>, y: seq<Nla>, a: Nla)
    requires SameFlow(x, y)
    ensures SameFlow(x + [a], y + [a])
  {
    ProtoStep(x, a);
    ProtoStep(y, a);
    var proto, isTcp, flow := ProtoIn(x).GetOr(0), IsTcp(x), FlowOf(x);
    assert Standing(x, proto, isTcp, flow) && Standing(y, proto, isTcp, flow);
    StandingStep(x, a, proto, isTcp, flow);
    StandingStep(y, a, proto, isTcp, flow);
    hide ProtoIn, FlowOf, TupleProto, TcpStateIn, ReadU32BE, CounterAfter, ProtoLabel, TcpStateLabel, StatusLabel;
  }

  lemma {:induction false} SameFlowThrough(x: seq<Nla>, y: seq<Nla>, rest: seq<Nla>)
    requires SameFlow(x, y)
    ensures SameFlow(x + rest, y + rest)
    decreases |rest|
  {
    hide SameFlow;
    if rest == [] {
      assert x + rest == x && y + rest == y;
    } else {
      SameFlowStep(x, y, rest[0]);
      SameFlowThrough(x + [rest[0]], y + [rest[0]], rest[1..]);
      assert x + [rest[0]] + rest[1..] == x + rest && y + [rest[0]] + rest[1..] == y + rest;
    }
  }

  /** An unknown attribute anywhere at top level changes nothing. */
  lemma {:induction false} UnknownIgnored(before: seq<Nla>, u: Nla, after: seq<Nla>)
    requires !Known(u.ty)
    ensures FlowOf(before + [u] + after) == FlowOf(before + after)
  {
    ProtoStep(before, u);
    var proto, isTcp, flow := ProtoIn(before).GetOr(0), IsTcp(before), FlowOf(before);
    StandingStep(before, u, proto, isTcp, flow);
    assert SameFlow(before + [u], before);
    SameFlowThrough(before + [u], before, after);
  }

  /** The attribute sets the state when it stands behind the others: a readable status of a flow not known to be TCP, or
      a readable protocol info of one that is. */
  predicate SetsState(before: seq<Nla>, a: Nla) {
    || (a.ty == CTA_STATUS && !IsTcp(before) && ReadU32BE(a.payload).Some?)
    || (a.ty == CTA_PROTOINFO && IsTcp(before) && TcpStateIn(a.payload).Some?)
  }

  /** No attribute of `after` sets the state where it stands. */
  predicate NoneSets(before: seq<Nla>, after: seq<Nla>) {
    forall i :: 0 <= i < |after| ==> !SetsState(before + after[..i], after[i])
  }

  lemma {:induction false} NoneSetsCons(before: seq<Nla>, after: seq<Nla>)
    requires after != []
    ensures NoneSets(before, after) <==> !SetsState(before, after[0]) && NoneSets(before + [after[0]], after[1..])
  {
    hide SetsState;
    var a, rest := after[0], after[1..];
    assert before + after[..0] == before;
    forall i | 0 <= i < |rest| ensures before + [a] + rest[..i] == before + after[..i + 1] && rest[i] == after[i + 1] {
    }
    if NoneSets(before + [a], rest) && !SetsState(before, a) {
      forall i | 0 <= i < |after| ensures !SetsState(before + after[..i], after[i]) {
        if i > 0 {
          assert !SetsState(before + [a] + rest[..i - 1], rest[i - 1]);
        }
      }
    }
  }

  /** The flows agree in everything but their state. */
  ghost predicate ApartInState(x: seq<Nla>, y: seq<Nla>) {
    ProtoIn(x) == ProtoIn(y) && FlowOf(x).(state := "") == FlowOf(y).(state := "") && StateOf(x) != StateOf(y)
  }

  /** One more attribute ends the difference exactly when it sets the state. */
  lemma {:induction false} ApartStep(x: seq<Nla>, y: seq<Nla>, a: Nla)
    requires ApartInState(x, y)
    ensures if SetsState(y, a) then SameFlow(x + [a], y + [a]) else ApartInState(x + [a], y + [a])
  {
    ProtoStep(x, a);
    ProtoStep(y, a);
    StateStep(x, a);
    StateStep(y, a);
    CounterStep(x, a, CTA_COUNTERS_ORIG, CTA_COUNTERS_PACKETS);
    CounterStep(x, a, CTA_COUNTERS_ORIG, CTA_COUNTERS_BYTES);
    CounterStep(x, a, CTA_COUNTERS_REPLY, CTA_COUNTERS_PACKETS);
    CounterStep(x, a, CTA_COUNTERS_REPLY, CTA_COUNTERS_BYTES);
    CounterStep(y, a, CTA_COUNTERS_ORIG, CTA_COUNTERS_PACKETS);
    CounterStep(y, a, CTA_COUNTERS_ORIG, CTA_COUNTERS_BYTES);
    CounterStep(y, a, CTA_COUNTERS_REPLY, CTA_COUNTERS_PACKETS);
    CounterStep(y, a, CTA_COUNTERS_REPLY, CTA_COUNTERS_BYTES);
    hide ProtoIn, StateOf, CounterIn, TupleProto, TcpStateIn, CounterAfter, ReadU32BE, ProtoLabel, TcpStateLabel,
         StatusLabel;
  }

  /** A difference in state shows in the end exactly when nothing sets the state any more. */
  lemma {:induction false} ApartThrough(x: seq<Nla>, y: seq<Nla>, after: seq<Nla>)
    requires ApartInState(x, y)
    ensures FlowOf(x + after) != FlowOf(y + after) <==> NoneSets(y, after)
    decreases |after|
  {
    hide ApartInState, SameFlow, SetsState, NoneSets, FlowOf;
    if after == [] {
      assert x + after == x && y + after == y;
      ApartMeans(x, y);
    } else {
      var a, rest := after[0], after[1..];
      ApartStep(x, y, a);
      NoneSetsCons(y, after);
      assert x + after == x + [a] + rest && y + after == y + [a] + rest;
      if SetsState(y, a) {
        SameFlowThrough(x + [a], y + [a], rest);
        SameMeansEqual(x + [a] + rest, y + [a] + rest);
      } else {
        ApartThrough(x + [a], y + [a], rest);
      }
    }
  }

  lemma {:induction false} ApartMeans(x: seq<Nla>, y: seq<Nla>)
    requires ApartInState(x, y)
    ensures FlowOf(x) != FlowOf(y) && NoneSets(y, [])
  {
  }

  lemma {:induction false} SameMeansEqual(x: seq<Nla>, y: seq<Nla>)
    requires SameFlow(x, y)
    ensures FlowOf(x) == FlowOf(y)
  {
  }

  /** A status attribute matters exactly when the flow is not yet known to be TCP where it stands, the status can be
      read and says something new there, and no later attribute sets the state: the order of the attributes decides. */
  lemma {:induction false} StatusMattersIff(before: seq<Nla>, s: Nla, after: seq<Nla>)
    requires s.ty == CTA_STATUS
    ensures FlowOf(before + [s] + after) != FlowOf(before + after) <==>
            && !IsTcp(before) && ReadU32BE(s.payload).Some?
            && StatusLabel(ReadU32BE(s.payload).value) != StateOf(before)
            && NoneSets(before, after)
  {
    ProtoStep(before, s);
    var proto, isTcp, flow := ProtoIn(before).GetOr(0), IsTcp(before), FlowOf(before);
    StandingStep(before, s, proto, isTcp, flow);
    var x := before + [s];
    hide ProtoIn, StateOf, CounterIn, TupleProto, TcpStateIn, ReadU32BE, StatusLabel, TcpStateLabel, ProtoLabel,
         NoneSets;
    if FlowOf(x) == FlowOf(before) {
      SameFlowThrough(x, before, after);
    } else {
      assert ApartInState(x, before);
      ApartThrough(x, before, after);
    }
  }

  /** Behind a TCP tuple a status attribute changes nothing, whatever follows. */
  lemma {:induction false} TcpIgnoresStatus(before: seq<Nla>, s: Nla, after: seq<Nla>)
    requires IsTcp(before) && s.ty == CTA_STATUS
    ensures FlowOf(before + [s] + after) == FlowOf(before + after)
  {
    ProtoStep(before, s);
    var proto, flow := ProtoIn(before).GetOr(0), FlowOf(before);
    StandingStep(before, s, proto, true, flow);
    assert SameFlow(before + [s], before);
    SameFlowThrough(before + [s], before, after);
  }

  lemma {:induction false} StatusFourIsAssured()
    ensures ReadU32BE([0, 0, 0, 4]) == Some(4) && StatusLabel(4) == "established" && ProtoIn([]) == None
  {
    var p: bytes := [0, 0, 0, 4];
    assert p[..4] == p && p[..3] == [0, 0, 0];
    assert FromBE([0]) == 0 && FromBE([0, 0]) == 0 by { assert [0, 0][..1] == [0]; }
    assert FromBE([0, 0, 0]) == 0 by { assert [0, 0, 0][..2] == [0, 0]; }
    assert FromBE(p) == 4;
  }

  lemma {:induction false} InnerOfOne(a: Nla)
    ensures Inner([a], a.ty) == Attrs(a.payload)
  {
    hide Attrs;
    assert [a][..0] == [];
  }

  /** A tuple as the kernel nests it: addresses, and the protocol number in front of ports or identifiers. */
  datatype Tuple = Tuple(proto: byte, addresses: bytes, ports: seq<Tree>)

  function ProtoPayload(t: Tuple): bytes {
    EncodeNla(1, [t.proto]) + EncodeTrees(t.ports)
  }

  function TuplePayload(t: Tuple): bytes {
    EncodeNla(NLA_F_NESTED + 1, t.addresses) + EncodeNla(NLA_F_NESTED + 2, ProtoPayload(t))
  }

  /** Every level fits its 16-bit length, and no port stands under the type of the protocol number. */
  predicate SoundTuple(t: Tuple) {
    && FitsNla(t.addresses) && FitsNla(ProtoPayload(t)) && FitsNla(TuplePayload(t))
    && forall p :: p in t.ports ==> FitsNla(Payload(p)) && p.ty % NLA_TYPE_MODULUS != 1
  }

  lemma {:induction false} NoOctet(ts: seq<Tree>)
    requires forall t :: t in ts ==> t.ty % NLA_TYPE_MODULUS != CTA_PROTO_NUM
    ensures LastOctet(TopLevel(ts), CTA_PROTO_NUM) == None
  {
    hide Payload;
    if ts != [] {
      NoOctet(ts[1..]);
      var a := Nla(ts[0].ty % NLA_TYPE_MODULUS, Payload(ts[0]));
      LastOctetAppend([a], TopLevel(ts[1..]), CTA_PROTO_NUM);
      assert ts[0] in ts && [a][..0] == [];
    }
  }

  lemma {:induction false} TupleReadsBack(t: Tuple)
    requires SoundTuple(t)
    ensures TupleProto(TuplePayload(t)) == Some(t.proto)
  {
    hide Attrs, EncodeNla, EncodeTrees, TopLevel, LastOctet, Inner;
    AttrsOfTwo(NLA_F_NESTED + 1, t.addresses, NLA_F_NESTED + 2, ProtoPayload(t));
    InnerOnly([Nla(1, t.addresses)] + [Nla(CTA_TUPLE_PROTO, ProtoPayload(t))], 1);
    AttrsOfEncoded(1, [t.proto], EncodeTrees(t.ports));
    AttrsOfTrees(t.ports);
    NoOctet(t.ports);
    LastOctetAppend([Nla(CTA_PROTO_NUM, [t.proto])], TopLevel(t.ports), CTA_PROTO_NUM);
    OneOctet(t.proto);
  }

  lemma {:induction false} OneOctet(b: byte)
    ensures LastOctet([Nla(CTA_PROTO_NUM, [b])], CTA_PROTO_NUM) == Some(b)
  {
  }

  /** In front of it the status stays visible: the order of the attributes is part of what the parser needs. */
  lemma {:induction false} StatusBeforeTupleShows(t: Tuple)
    requires SoundTuple(t) && t.proto == IPPROTO_TCP
    ensures var status := Nla(CTA_STATUS, [0, 0, 0, 4]);
            var tuple := Nla(CTA_TUPLE_ORIG, TuplePayload(t));
            FlowOf([status, tuple]).state == "established" && FlowOf([tuple, status]).state == "new"
            && FlowOf([tuple, status]).protocol == FlowOf([status, tuple]).protocol == "tcp"
  {
    hide Attrs, TuplePayload, ReadU32BE;
    var status := Nla(CTA_STATUS, [0, 0, 0, 4]);
    var tuple := Nla(CTA_TUPLE_ORIG, TuplePayload(t));
    TupleReadsBack(t);
    StandingAtStart();
    ProtoStep([], tuple);
    ProtoStep([], status);
    assert [] + [tuple] == [tuple] && [] + [status] == [status];
    ProtoStep([tuple], status);
    ProtoStep([status], tuple);
    assert [tuple] + [status] == [tuple, status] && [status] + [tuple] == [status, tuple];
    StateStep([], status);
    StateStep([], tuple);
    StateStep([tuple], status);
    StateStep([status], tuple);
    StatusFourIsAssured();
    assert StateOf([]) == "new";
    hide ProtoIn, StateOf, TupleProto;
  }

  // ---- Flows as the kernel encodes them ----

  /** One top-level attribute behind the tuple. */
  datatype Block =
    | Status(status: u32)
    | TcpState(tcpState: byte)
    | Counters(reply: bool, packets: u64, octets: u64)
    | Unknown(ty: u16, data: bytes)

  function BlockType(b: Block): u16 {
    match b
    case Status(_) => 3
    case TcpState(_) => NLA_F_NESTED + 4
    case Counters(reply, _, _) => NLA_F_NESTED + if reply then 10 else 9
    case Unknown(ty, _) => ty
  }

  function BlockPayload(b: Block): bytes {
    match b
    case Status(status) => ToBE(status, 4)
    case TcpState(s) => EncodeNla(NLA_F_NESTED + 1, EncodeNla(1, [s]))
    case Counters(_, packets, octets) => EncodeNla(1, ToBE(packets, 8)) + EncodeNla(2, ToBE(octets, 8))
    case Unknown(_, data) => data
  }

  /** The kernel's lengths fit, and an unknown block is really unknown. */
  predicate Sound(b: Block) {
    b.Unknown? ==> FitsNla(b.data) && !Known(b.ty % NLA_TYPE_MODULUS)
  }

  function EncodeBlocks(bs: seq<Block>): bytes {
    if bs == [] then [] else EncodeNla(BlockType(bs[0]), BlockPayload(bs[0])) + EncodeBlocks(bs[1..])
  }

  function EncodeTuple(t: Tuple): bytes {
    EncodeNla(NLA_F_NESTED + 1, TuplePayload(t))
  }

  /** What one block tells about a flow of the protocol. */
  function Told(flow: ConntrackFlow, proto: byte, b: Block): ConntrackFlow {
    match b
    case Status(status) => if proto == 6 then flow else flow.(state := StatusLabel(status))
    case TcpState(s) => if proto == 6 then flow.(state := TcpStateLabel(s)) else flow
    case Counters(reply, packets, octets) =>
      if reply then flow.(replyPackets := packets, replyBytes := octets)
      else flow.(origPackets := packets, origBytes := octets)
    case Unknown(_, _) => flow
  }

  function Meant(proto: byte, bs: seq<Block>): ConntrackFlow {
    if bs == [] then ConntrackFlow(ProtoLabel(proto), "new", 0, 0, 0, 0)
    else Told(Meant(proto, bs[..|bs| - 1]), proto, bs[|bs| - 1])
  }

  function BlockNla(b: Block): Nla {
    Nla(BlockType(b) % NLA_TYPE_MODULUS, BlockPayload(b))
  }

  function BlockNlas(bs: seq<Block>): seq<Nla> {
    seq(|bs|, i requires 0 <= i < |bs| => BlockNla(bs[i]))
  }

  lemma {:induction false} BlockFits(b: Block)
    requires Sound(b)
    ensures FitsNla(BlockPayload(b))
  {
    hide ToBE, EncodeNla;
  }

  lemma {:induction false} BlocksReadBack(bs: seq<Block>)
    requires forall b :: b in bs ==> Sound(b)
    ensures Attrs(EncodeBlocks(bs)) == BlockNlas(bs)
  {
    hide Attrs, BlockPayload, BlockType;
    if bs == [] {
      AttrsOfNothing();
    } else {
      BlockFits(bs[0]);
      AttrsOfEncoded(BlockType(bs[0]), BlockPayload(bs[0]), EncodeBlocks(bs[1..]));
      BlocksReadBack(bs[1..]);
      assert BlockNlas(bs) == [BlockNla(bs[0])] + BlockNlas(bs[1..]);
    }
  }

  lemma {:induction false} StatusReadsBack(status: u32)
    ensures ReadU32BE(ToBE(status, 4)) == Some(status)
  {
    RadixValues();
    ReadersInvertWriters(status, 4, []);
    assert ToBE(status, 4) + [] == ToBE(status, 4);
  }

  lemma {:induction false} CounterReadsBack(x: u64)
    ensures ReadU64BE(ToBE(x, 8)) == Some(x)
  {
    RadixValues();
    ReadersInvertWriters(x, 8, []);
    assert ToBE(x, 8) + [] == ToBE(x, 8);
  }

  lemma {:induction false} TcpStateReadsBack(s: byte)
    ensures TcpStateIn(EncodeNla(NLA_F_NESTED + 1, EncodeNla(1, [s]))) == Some(s)
  {
    hide Attrs, EncodeNla;
    AttrsOfOne(1, [s]);
    AttrsOfOne(NLA_F_NESTED + 1, EncodeNla(1, [s]));
    InnerOfOne(Nla(CTA_PROTOINFO_TCP, EncodeNla(1, [s])));
  }

  lemma {:induction false} CountersReadBack(packets: u64, octets: u64, before: u64)
    ensures var p := EncodeNla(1, ToBE(packets, 8)) + EncodeNla(2, ToBE(octets, 8));
            CounterAfter(p, CTA_COUNTERS_PACKETS, before) == packets
              && CounterAfter(p, CTA_COUNTERS_BYTES, before) == octets
  {
    hide Attrs, EncodeNla, ToBE, ReadU64BE;
    AttrsOfTwo(1, ToBE(packets, 8), 2, ToBE(octets, 8));
    var a, b := Nla(CTA_COUNTERS_PACKETS, ToBE(packets, 8)), Nla(CTA_COUNTERS_BYTES, ToBE(octets, 8));
    LastAppend([a], [b], CTA_COUNTERS_PACKETS);
    LastAppend([a], [b], CTA_COUNTERS_BYTES);
    CounterReadsBack(packets);
    CounterReadsBack(octets);
  }

  lemma {:induction false} BlockTold(nlas: seq<Nla>, proto: byte, flow: ConntrackFlow, b: Block)
    requires Sound(b) && Standing(nlas, proto, proto == IPPROTO_TCP, flow)
    ensures Standing(nlas + [BlockNla(b)], proto, proto == IPPROTO_TCP, Told(flow, proto, b))
  {
    hide Standing, StatusLabel, TcpStateLabel, TcpStateIn, TupleProto, CounterAfter, ToBE, EncodeNla, ReadU32BE,
         ReadU64BE, ReadBE;
    StandingStep(nlas, BlockNla(b), proto, proto == IPPROTO_TCP, flow);
    if b.Status? {
      StatusReadsBack(b.status);
    } else if b.TcpState? {
      TcpStateReadsBack(b.tcpState);
    } else if b.Counters? {
      CountersReadBack(b.packets, b.octets, if b.reply then flow.replyPackets else flow.origPackets);
      CountersReadBack(b.packets, b.octets, if b.reply then flow.replyBytes else flow.origBytes);
    }
  }

  lemma {:induction false} TupleStands(t: Tuple)
    requires SoundTuple(t)
    ensures Standing([Nla(CTA_TUPLE_ORIG, TuplePayload(t))], t.proto, t.proto == IPPROTO_TCP,
                     ConntrackFlow(ProtoLabel(t.proto), "new", 0, 0, 0, 0))
  {
    hide TuplePayload, TupleProto, ProtoLabel, FlowOf, ProtoIn, IsTcp, ReadU32BE, TcpStateIn, CounterAfter, StatusLabel,
         TcpStateLabel;
    var a := Nla(CTA_TUPLE_ORIG, TuplePayload(t));
    TupleReadsBack(t);
    StandingAtStart();
    StandingStep([], a, 0, false, ConntrackFlow("", "new", 0, 0, 0, 0));
    assert [] + [a] == [a];
  }

  lemma {:induction false} BlocksTold(t: Nla, proto: byte, bs: seq<Block>)
    requires forall b :: b in bs ==> Sound(b)
    requires Standing([t], proto, proto == IPPROTO_TCP, ConntrackFlow(ProtoLabel(proto), "new", 0, 0, 0, 0))
    ensures Standing([t] + BlockNlas(bs), proto, proto == IPPROTO_TCP, Meant(proto, bs))
  {
    hide Standing, BlockNla, Told, ProtoLabel;
    if bs == [] {
      assert [t] + BlockNlas(bs) == [t];
    } else {
      var init, last := bs[..|bs| - 1], bs[|bs| - 1];
      BlocksTold(t, proto, init);
      BlockTold([t] + BlockNlas(init), proto, Meant(proto, init), last);
      assert [t] + BlockNlas(bs) == [t] + BlockNlas(init) + [BlockNla(last)];
    }
  }

  lemma {:induction false} MeantProtocol(proto: byte, bs: seq<Block>)
    ensures Meant(proto, bs).protocol == ProtoLabel(proto)
  {
    hide ProtoLabel, StatusLabel, TcpStateLabel;
    if bs != [] {
      MeantProtocol(proto, bs[..|bs| - 1]);
    }
  }

  /** A flow whose tuple comes first, with any addresses and ports, is recovered from the octets through all three
      nesting levels: protocol, state and four counters, whatever the order of the other attributes and however many
      unknown ones stand among them. */
  lemma {:induction false} FlowRoundTrip(t: Tuple, bs: seq<Block>)
    requires SoundTuple(t) && forall b :: b in bs ==> Sound(b)
    ensures FlowOf(Attrs(EncodeTuple(t) + EncodeBlocks(bs))) == Meant(t.proto, bs)
  {
    hide Attrs, EncodeNla, EncodeBlocks, BlockNlas, TuplePayload, ProtoLabel, Told, Meant, Standing, FlowOf, ProtoIn,
         TupleProto;
    AttrsOfEncoded(NLA_F_NESTED + 1, TuplePayload(t), EncodeBlocks(bs));
    BlocksReadBack(bs);
    TupleStands(t);
    var a := Nla(CTA_TUPLE_ORIG, TuplePayload(t));
    BlocksTold(a, t.proto, bs);
    StandingMeans([a] + BlockNlas(bs), t.proto, bs);
  }

  lemma {:induction false} StandingMeans(nlas: seq<Nla>, proto: byte, bs: seq<Block>)
    requires Standing(nlas, proto, proto == IPPROTO_TCP, Meant(proto, bs))
    ensures FlowOf(nlas) == Meant(proto, bs)
  {
    hide FlowOf, ProtoIn, IsTcp, Meant, ProtoLabel;
    MeantProtocol(proto, bs);
  }

  /** For TCP the status attribute never affects the state, wherever it stands behind the tuple. */
  lemma {:induction false} TcpStateIsProtoInfo(bs: seq<Block>)
    ensures Meant(IPPROTO_TCP, bs).state == Meant(IPPROTO_TCP, Filtered(bs)).state
  {
    hide StatusLabel, TcpStateLabel;
    if bs != [] {
      var init, last := bs[..|bs| - 1], bs[|bs| - 1];
      TcpStateIsProtoInfo(init);
      if last.TcpState? {
        assert Filtered(bs)[..|Filtered(bs)| - 1] == Filtered(init);
      } else {
        assert Filtered(bs) == Filtered(init);
      }
    }
  }

  function Filtered(bs: seq<Block>): seq<Block> {
    if bs == [] then []
    else Filtered(bs[..|bs| - 1]) + if bs[|bs| - 1].TcpState? then [bs[|bs| - 1]] else []
  }

  // ---- Statistics over all processors ----

  const CTA_STATS_FOUND: nat := 2
  const CTA_STATS_INVALID: nat := 4
  const CTA_STATS_INSERT: nat := 8
  const CTA_STATS_INSERT_FAILED: nat := 9
  const CTA_STATS_DROP: nat := 10
  const CTA_STATS_EARLY_DROP: nat := 11
  const CTA_STATS_ERROR: nat := 12
  const CTA_STATS_SEARCH_RESTART: nat := 13
  const CTA_STATS_CLASH_RESOLVE: nat := 14
  const CTA_STATS_CHAIN_TOOLONG: nat := 15

  /** The sum of a statistic over a list of attributes. */
  function Total(nlas: seq<Nla>, ty: nat): nat {
    if nlas == [] then 0
    else
      var a := nlas[|nlas| - 1];
      Total(nlas[..|nlas| - 1], ty) + if a.ty == ty then ReadU32BE(a.payload).GetOr(0) else 0
  }

  predicate Seen(nlas: seq<Nla>, ty: nat) {
    exists i :: 0 <= i < |nlas| && nlas[i].ty == ty
  }

  /** An optional statistic is present exactly when some attribute carried it. */
  function OptionalTotal(nlas: seq<Nla>, ty: nat): Option<u64> {
    if Seen(nlas, ty) then Some(Wrapped(Total(nlas, ty))) else None
  }

  /** The attributes of all frames long enough to hold their generic header. */
  function AllAttrs(frames: seq<bytes>): seq<Nla> {
    if frames == [] then []
    else
      var f := frames[|frames| - 1];
      AllAttrs(frames[..|frames| - 1]) + if |f| < NFGENMSG_LEN then [] else Attrs(f[NFGENMSG_LEN..])
  }

  /** Four octets of each frame are passed over, and a frame below four altogether. */
  lemma {:induction false} FramesInOctets(frames: seq<bytes>, head: bytes, attrs: bytes)
    ensures |head| == 4 ==> AllAttrs(frames + [head + attrs]) == AllAttrs(frames) + Attrs(attrs)
    ensures |head| < 4 ==> AllAttrs(frames + [head]) == AllAttrs(frames)
  {
    hide Attrs;
    assert (frames + [head + attrs])[..|frames|] == frames && (frames + [head])[..|frames|] == frames;
    assert |head| == 4 ==> (head + attrs)[4..] == attrs;
  }

  lemma {:induction false} TotalStep(nlas: seq<Nla>, a: Nla, ty: nat)
    ensures var v := ReadU32BE(a.payload).GetOr(0);
            && Wrapped(Total(nlas + [a], ty))
               == (if a.ty == ty then Wrapped(Wrapped(Total(nlas, ty)) + v) else Wrapped(Total(nlas, ty)))
            && OptionalTotal(nlas + [a], ty)
               == if a.ty == ty then Some(Wrapped(OptionalTotal(nlas, ty).GetOr(0) + v)) else OptionalTotal(nlas, ty)
  {
    hide ReadU32BE;
    if !Seen(nlas, ty) {
      UnseenTotal(nlas, ty);
    }
    assert (nlas + [a])[..|nlas|] == nlas;
    WrappedTwice(Total(nlas, ty), 0, ReadU32BE(a.payload).GetOr(0));
    if Seen(nlas, ty) {
      var i :| 0 <= i < |nlas| && nlas[i].ty == ty;
      assert (nlas + [a])[i].ty == ty;
    } else if a.ty == ty {
      assert (nlas + [a])[|nlas|].ty == ty;
    }
  }

  lemma {:induction false} UnseenTotal(nlas: seq<Nla>, ty: nat)
    requires !Seen(nlas, ty)
    ensures Total(nlas, ty) == 0
  {
    if nlas != [] {
      var init := nlas[..|nlas| - 1];
      assert forall i :: 0 <= i < |init| ==> init[i] == nlas[i];
      UnseenTotal(init, ty);
    }
  }

  /** The accumulator's fields as one value. */
  datatype CpuStat = CpuStat(
    found: u64, invalid: u64, insert: u64, insertFailed: u64, drop: u64, earlyDrop: u64, error: u64, searchRestart: u64,
    clashResolve: Option<u64>, chainTooLong: Option<u64>)
  {
    /** The field that holds a statistic. */
    function Field(ty: nat): Option<u64> {
      if ty == CTA_STATS_FOUND then Some(found)
      else if ty == CTA_STATS_INVALID then Some(invalid)
      else if ty == CTA_STATS_INSERT then Some(insert)
      else if ty == CTA_STATS_INSERT_FAILED then Some(insertFailed)
      else if ty == CTA_STATS_DROP then Some(drop)
      else if ty == CTA_STATS_EARLY_DROP then Some(earlyDrop)
      else if ty == CTA_STATS_ERROR then Some(error)
      else if ty == CTA_STATS_SEARCH_RESTART then Some(searchRestart)
      else if ty == CTA_STATS_CLASH_RESOLVE then clashResolve
      else if ty == CTA_STATS_CHAIN_TOOLONG then chainTooLong
      else None
    }
  }

  function Mandatory(): set<nat> {
    {CTA_STATS_FOUND, CTA_STATS_INVALID, CTA_STATS_INSERT, CTA_STATS_INSERT_FAILED,
     CTA_STATS_DROP, CTA_STATS_EARLY_DROP, CTA_STATS_ERROR, CTA_STATS_SEARCH_RESTART}
  }

  /** Every field is the sum of its statistic over the attributes, modulo 2^64; an optional one is absent exactly when
      no attribute carried it. */
  ghost predicate Sums(s: CpuStat, nlas: seq<Nla>) {
    && (forall ty :: ty in Mandatory() ==> s.Field(ty) == Some(Wrapped(Total(nlas, ty))))
    && s.clashResolve == OptionalTotal(nlas, CTA_STATS_CLASH_RESOLVE)
    && s.chainTooLong == OptionalTotal(nlas, CTA_STATS_CHAIN_TOOLONG)
  }

  lemma {:induction false} SumsStep(s: CpuStat, t: CpuStat, nlas: seq<Nla>, a: Nla)
    requires Sums(s, nlas)
    requires forall ty: nat :: ty != a.ty ==> t.Field(ty) == s.Field(ty)
    requires a.ty in Mandatory() + {CTA_STATS_CLASH_RESOLVE, CTA_STATS_CHAIN_TOOLONG} ==>
               t.Field(a.ty) == Some(Wrapped(s.Field(a.ty).GetOr(0) + ReadU32BE(a.payload).GetOr(0)))
    ensures Sums(t, nlas + [a])
  {
    hide ReadU32BE, Total, OptionalTotal, Wrapped;
    TotalStep(nlas, a, CTA_STATS_CLASH_RESOLVE);
    TotalStep(nlas, a, CTA_STATS_CHAIN_TOOLONG);
    assert t.Field(CTA_STATS_CLASH_RESOLVE) == t.clashResolve && t.Field(CTA_STATS_CHAIN_TOOLONG) == t.chainTooLong;
    assert s.Field(CTA_STATS_CLASH_RESOLVE) == s.clashResolve && s.Field(CTA_STATS_CHAIN_TOOLONG) == s.chainTooLong;
    hide CpuStat.Field;
    forall ty | ty in Mandatory() ensures t.Field(ty) == Some(Wrapped(Total(nlas + [a], ty))) {
      TotalStep(nlas, a, ty);
      assert s.Field(ty) == Some(Wrapped(Total(nlas, ty)));
    }
  }

  class CpuStatSum {
    var found: u64
    var invalid: u64
    var insert: u64
    var insertFailed: u64
    var drop: u64
    var earlyDrop: u64
    var error: u64
    var searchRestart: u64
    var clashResolve: Option<u64>
    var chainTooLong: Option<u64>

    ghost function Value(): CpuStat
      reads this
    {
      CpuStat(found, invalid, insert, insertFailed, drop, earlyDrop, error, searchRestart, clashResolve, chainTooLong)
    }

    constructor ()
      ensures Sums(Value(), [])
    {
      found, invalid, insert, insertFailed, drop, earlyDrop, error, searchRestart := 0, 0, 0, 0, 0, 0, 0, 0;
      clashResolve, chainTooLong := None, None;
    }

    method Add(a: Nla)
      modifies this
      ensures forall ty: nat :: ty != a.ty ==> Value().Field(ty) == old(Value()).Field(ty)
      ensures a.ty in Mandatory() + {CTA_STATS_CLASH_RESOLVE, CTA_STATS_CHAIN_TOOLONG} ==>
                Value().Field(a.ty) == Some(Wrapped(old(Value()).Field(a.ty).GetOr(0) + ReadU32BE(a.payload).GetOr(0)))
    {
      hide ReadU32BE, Wrapped;
      var v := ReadU32BE(a.payload).GetOr(0);
      if a.ty == CTA_STATS_FOUND { found := Wrapped(found + v); }
      else if a.ty == CTA_STATS_INVALID { invalid := Wrapped(invalid + v); }
      else if a.ty == CTA_STATS_INSERT { insert := Wrapped(insert + v); }
      else if a.ty == CTA_STATS_INSERT_FAILED { insertFailed := Wrapped(insertFailed + v); }
      else if a.ty == CTA_STATS_DROP { drop := Wrapped(drop + v); }
      else if a.ty == CTA_STATS_EARLY_DROP { earlyDrop := Wrapped(earlyDrop + v); }
      else if a.ty == CTA_STATS_ERROR { error := Wrapped(error + v); }
      else if a.ty == CTA_STATS_SEARCH_RESTART { searchRestart := Wrapped(searchRestart + v); }
      else if a.ty == CTA_STATS_CLASH_RESOLVE { clashResolve := Some(Wrapped(clashResolve.GetOr(0) + v)); }
      else if a.ty == CTA_STATS_CHAIN_TOOLONG { chainTooLong := Some(Wrapped(chainTooLong.GetOr(0) + v)); }
    }

    method AddNext(a: Nla, ghost before: seq<Nla>)
      requires Sums(Value(), before)
      modifies this
      ensures Sums(Value(), before + [a])
    {
      hide Sums, Mandatory, CpuStat.Field, Value, ReadU32BE, Wrapped;
      ghost var s := Value();
      Add(a);
      SumsStep(s, Value(), before, a);
    }

    /** One processor's frame adds its attributes. */
    method Accumulate(payload: bytes, ghost before: seq<Nla>)
      requires Sums(Value(), before)
      modifies this
      ensures Sums(Value(), before + Attrs(payload))
    {
      hide Sums, Value, Attrs;
      var attrs := Attrs(payload);
      ghost var seen := before;
      for i := 0 to |attrs|
        invariant Sums(Value(), seen)
        invariant seen == before + attrs[..i]
      {
        AddNext(attrs[i], seen);
        seen := seen + [attrs[i]];
      }
      assert attrs[..|attrs|] == attrs;
    }
  }

  /** The fold over the frames of a dump sums every statistic over all frames. */
  method SumCpuStats(frames: seq<bytes>) returns (sum: CpuStatSum)
    ensures fresh(sum) && Sums(sum.Value(), AllAttrs(frames))
  {
    sum := new CpuStatSum();
    hide Attrs, Sums, CpuStatSum.Value;
    assert AllAttrs(frames[..0]) == [];
    for k := 0 to |frames|
      invariant fresh(sum) && Sums(sum.Value(), AllAttrs(frames[..k]))
    {
      assert frames[..k + 1][..k] == frames[..k];
      if |frames[k]| < NFGENMSG_LEN {
        assert AllAttrs(frames[..k]) + [] == AllAttrs(frames[..k]);
        continue;
      }
      sum.Accumulate(frames[k][NFGENMSG_LEN..], AllAttrs(frames[..k]));
    }
    assert frames[..|frames|] == frames;
  }

  /** One statistic in the kernel's layout adds its value to the total of its own type and to no other. */
  lemma {:induction false} StatisticCounts(nlas: seq<Nla>, ty: u16, v: u32, other: nat)
    ensures Total(nlas + [Nla(ty, ToBE(v, 4))], other) == Total(nlas, other) + if other == ty then v else 0
  {
    StatusReadsBack(v);
    hide ReadU32BE, ToBE;
    assert (nlas + [Nla(ty, ToBE(v, 4))])[..|nlas|] == nlas;
  }

  /** Which type goes to which field. */
  lemma {:induction false} SumsInNumbers(s: CpuStat, nlas: seq<Nla>)
    requires Sums(s, nlas)
    ensures s.found == Wrapped(Total(nlas, 2)) && s.invalid == Wrapped(Total(nlas, 4))
    ensures s.insert == Wrapped(Total(nlas, 8)) && s.insertFailed == Wrapped(Total(nlas, 9))
    ensures s.drop == Wrapped(Total(nlas, 10)) && s.earlyDrop == Wrapped(Total(nlas, 11))
    ensures s.error == Wrapped(Total(nlas, 12)) && s.searchRestart == Wrapped(Total(nlas, 13))
    ensures s.clashResolve == OptionalTotal(nlas, 14) && s.chainTooLong == OptionalTotal(nlas, 15)
  {
    hide Total, Wrapped, OptionalTotal;
    assert s.Field(2) == Some(s.found) && s.Field(4) == Some(s.invalid) && s.Field(8) == Some(s.insert);
    assert s.Field(9) == Some(s.insertFailed) && s.Field(10) == Some(s.drop) && s.Field(11) == Some(s.earlyDrop);
    assert s.Field(12) == Some(s.error) && s.Field(13) == Some(s.searchRestart);
  }

  /** A counter too short to read counts zero; an empty octet attribute is passed over. */
  lemma {:induction false} ShortAttributes(payload: bytes, ty: nat, before: u64, nlas: seq<Nla>)
    requires |payload| < 8
    ensures CounterAfter(EncodeNla(1, payload), 1, before) == 0
    ensures LastOctet(nlas + [Nla(ty, [])], ty) == LastOctet(nlas, ty)
  {
    hide Attrs, EncodeNla;
    AttrsOfOne(1, payload);
    assert (nlas + [Nla(ty, [])])[..|nlas|] == nlas;
  }

  /** The last readable octet of the type decides, and other types do not. */
  lemma {:induction false} LastOctetDecides(nlas: seq<Nla>, ty: nat, b: byte, rest: bytes, other: nat)
    ensures LastOctet(nlas + [Nla(ty, [b] + rest)], other) == if other == ty then Some(b) else LastOctet(nlas, other)
  {
    assert (nlas + [Nla(ty, [b] + rest)])[..|nlas|] == nlas;
  }
}
