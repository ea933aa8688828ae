/** Service keys of crates/nlx-netlink/src/collectors/ipvs.rs: the request that asks for a service's destinations is
    built from the text the parser made of the service. */
module Ipvs {
  import opened Wrappers
  import opened Bytes
  import opened Wire
  import opened Text

  const IPVS_CMD_GET_DEST: byte := 8
  const IPVS_GENL_VERSION: byte := 1
  const IPVS_CMD_ATTR_SERVICE: nat := 1
  const IPVS_SVC_ATTR_AF: nat := 1
  const IPVS_SVC_ATTR_PROTOCOL: nat := 2
  const IPVS_SVC_ATTR_ADDR: nat := 3
  const IPVS_SVC_ATTR_PORT: nat := 4
  const IPVS_SVC_ATTR_FWMARK: nat := 5
  const IPVS_SVC_ATTR_SCHED_NAME: nat := 6
  const IPVS_SVC_ATTR_STATS: nat := 10
  const IPVS_SVC_ATTR_STATS64: nat := 12
  const IPVS_STATS_ATTR_CONNS: nat := 1
  const IPVS_STATS_ATTR_INPKTS: nat := 2
  const IPVS_STATS_ATTR_OUTPKTS: nat := 3
  const IPVS_STATS_ATTR_INBYTES: nat := 4
  const IPVS_STATS_ATTR_OUTBYTES: nat := 5
  const IPVS_STATS_ATTR_CPS: nat := 6
  const IPVS_STATS_ATTR_INPPS: nat := 7
  const IPVS_STATS_ATTR_OUTPPS: nat := 8
  const IPVS_STATS_ATTR_INBPS: nat := 9
  const IPVS_STATS_ATTR_OUTBPS: nat := 10
  const AF_INET: u16 := 2
  const AF_INET6: u16 := 10

  // ---- Address text ----

  function ShowV4(a: bytes): string
    requires |a| == 4
  {
    Numeral(a[0], 10) + ['.'] + (Numeral(a[1], 10) + ['.'] + (Numeral(a[2], 10) + ['.'] + Numeral(a[3], 10)))
  }

  /** One octet of a dotted quad: one to three digits, no superfluous zero in front. */
  function ReadOctet(s: string): Option<byte> {
    if s == [] || |s| > 3 || (|s| > 1 && s[0] == '0') || s[0] == '+' then None else ParseNumeral(s, 10, 256)
  }

  function ReadV4(s: string): Option<bytes> {
    var p := Split(s, '.');
    if |p| != 4 then None
    else
      var a, b, c, d := ReadOctet(p[0]), ReadOctet(p[1]), ReadOctet(p[2]), ReadOctet(p[3]);
      if a.None? || b.None? || c.None? || d.None? then None else Some([a.value, b.value, c.value, d.value])
  }

  lemma {:induction false} NoLeadingZero(n: nat, base: radix)
    requires n > 0
    ensures Numeral(n, base)[0] != '0'
  {
    hide High, Low;
    if n < base {
      SmallHigh(n, base);
    } else {
      HighOfLarge(n, base);
      NoLeadingZero(High(n, base), base);
    }
  }

  lemma {:induction false} HighOfLarge(n: nat, base: radix)
    requires n >= base
    ensures High(n, base) > 0
  {
  }

  lemma {:induction false} OctetReadsBack(b: byte)
    ensures ReadOctet(Numeral(b, 10)) == Some(b)
    ensures '.' !in Numeral(b, 10)
  {
    NumeralIsAlphanumeric(b, 10);
    NumeralRoundTrip(b, 10, 256);
    var s := Numeral(b, 10);
    assert s[0] in s;
    OctetLength(b);
    if b > 0 {
      NoLeadingZero(b, 10);
    } else {
      assert |s| == 1;
    }
  }

  lemma {:induction false} OctetLength(b: byte)
    ensures |Numeral(b, 10)| <= 3 && (b < 10 ==> |Numeral(b, 10)| == 1)
  {
    assert b >= 10 ==> Numeral(b, 10) == Numeral(b / 10, 10) + [DigitChar(b % 10)];
    assert b >= 100 ==> Numeral(b / 10, 10) == Numeral(b / 10 / 10, 10) + [DigitChar(b / 10 % 10)];
  }

  lemma {:induction false} FourPieces(p: string, q: string, r: string, s: string)
    requires '.' !in p && '.' !in q && '.' !in r && '.' !in s
    ensures Split(p + ['.'] + (q + ['.'] + (r + ['.'] + s)), '.') == [p, q, r, s]
  {
    hide Split, Before;
    SplitSeparator(p, '.', q + ['.'] + (r + ['.'] + s));
    SplitSeparator(q, '.', r + ['.'] + s);
    SplitSeparator(r, '.', s);
    OnePiece(s, '.');
  }

  lemma {:induction false} OnePiece(s: string, c: char)
    requires c !in s
    ensures Split(s, c) == [s]
  {
  }

  /** Dotted quads are read as they are printed. */
  lemma {:induction false} V4RoundTrip(a: bytes)
    requires |a| == 4
    ensures ReadV4(ShowV4(a)) == Some(a) && ':' !in ShowV4(a) && ShowV4(a) != []
  {
    hide Numeral, ReadOctet, Split;
    forall i | 0 <= i < 4
      ensures ReadOctet(Numeral(a[i], 10)) == Some(a[i]) && '.' !in Numeral(a[i], 10) && ':' !in Numeral(a[i], 10) {
      OctetReadsBack(a[i]);
      NumeralIsAlphanumeric(a[i], 10);
    }
    FourPieces(Numeral(a[0], 10), Numeral(a[1], 10), Numeral(a[2], 10), Numeral(a[3], 10));
    assert a == [a[0], a[1], a[2], a[3]];
  }

  /** The text form of IPv6 addresses is the platform's: any printer with a parser that inverts it. */
  datatype V6 = V6(show: bytes -> string, read: string -> Option<bytes>) {
    ghost predicate Sound() {
      && (forall a :: |a| == 16 ==> read(show(a)) == Some(a) && ':' in show(a) && ReadV4(show(a)) == None)
      && (forall s :: read(s).Some? ==> |read(s).value| == 16)
    }
  }

  function Group(high: byte, low: byte): u16 {
    var h: int, l: int := high, low;
    h * 0x100 + l
  }

  /** Such a printer exists: groups of hexadecimal digits, as in form 1 of section 2.2 of RFC 4291. */
  function ShowGroups(a: bytes, n: nat): string
    requires |a| == 2 * n && n > 0
    decreases n
  {
    if n == 1 then Numeral(Group(a[0], a[1]), 16)
    else Numeral(Group(a[0], a[1]), 16) + [':'] + ShowGroups(a[2..], n - 1)
  }

  function ReadGroups(groups: seq<string>): (r: Option<bytes>)
    ensures r.Some? ==> |r.value| == 2 * |groups|
  {
    if groups == [] then Some([])
    else
      var n, rest := ParseNumeral(groups[0], 16, U16), ReadGroups(groups[1..]);
      if n.None? || rest.None? then None else Some([n.value / 0x100, n.value % 0x100] + rest.value)
  }

  function ReadV6(s: string): (r: Option<bytes>)
    ensures r.Some? ==> |r.value| == 16
  {
    if |Split(s, ':')| == 8 then ReadGroups(Split(s, ':')) else None
  }

  lemma {:induction false} GroupReadsBack(high: byte, low: byte)
    ensures ParseNumeral(Numeral(Group(high, low), 16), 16, U16) == Some(Group(high, low))
    ensures Group(high, low) / 0x100 == high && Group(high, low) % 0x100 == low
    ensures ':' !in Numeral(Group(high, low), 16) && '.' !in Numeral(Group(high, low), 16)
  {
    hide Numeral, ParseNumeral;
    NumeralRoundTrip(Group(high, low), 16, U16);
    NumeralIsAlphanumeric(Group(high, low), 16);
  }

  lemma {:induction false} GroupsReadBack(a: bytes, n: nat)
    requires |a| == 2 * n && n > 0
    ensures |Split(ShowGroups(a, n), ':')| == n && ReadGroups(Split(ShowGroups(a, n), ':')) == Some(a)
    ensures '.' !in ShowGroups(a, n) && (n > 1 ==> ':' in ShowGroups(a, n))
    decreases n
  {
    hide Numeral, ParseNumeral, Split, Group;
    var group := Numeral(Group(a[0], a[1]), 16);
    GroupReadsBack(a[0], a[1]);
    if n == 1 {
      OnePiece(group, ':');
      assert [group][1..] == [] && a == [a[0], a[1]] + [];
    } else {
      var pieces := Split(ShowGroups(a[2..], n - 1), ':');
      GroupsReadBack(a[2..], n - 1);
      SplitSeparator(group, ':', ShowGroups(a[2..], n - 1));
      assert ([group] + pieces)[1..] == pieces;
      assert a == [a[0], a[1]] + a[2..];
    }
  }

  const PLAIN_V6 := V6(a => if |a| == 16 then ShowGroups(a, 8) else [], s => ReadV6(s))

  lemma {:induction false} PlainV6IsSound()
    ensures PLAIN_V6.Sound()
  {
    hide ShowGroups, ReadGroups, Split;
    forall a: bytes | |a| == 16
      ensures ReadV6(ShowGroups(a, 8)) == Some(a) && ':' in ShowGroups(a, 8) && ReadV4(ShowGroups(a, 8)) == None
    {
      GroupsReadBack(a, 8);
      OnePiece(ShowGroups(a, 8), '.');
    }
  }

  // ---- Statistics ----

  datatype Stats = Stats(conns: u64, inPkts: u64, outPkts: u64, inBytes: u64, outBytes: u64,
                         cps: u64, inPps: u64, outPps: u64, inBps: u64, outBps: u64)

  const NO_STATS := Stats(0, 0, 0, 0, 0, 0, 0, 0, 0, 0)

  /** A statistic of 64 bits, or of 32; 0 when it is too short. */
  function Stat(p: bytes, wide: bool): u64 {
    if wide then ReadU64(p).GetOr(0) else ReadU32(p).GetOr(0)
  }

  function StatIn(nlas: seq<Nla>, ty: nat, wide: bool): u64 {
    match Last(nlas, ty)
    case None => 0
    case Some(p) => Stat(p, wide)
  }

  /** What a nest of statistics says. Octet counts have 64 bits in both forms. */
  function StatsIn(nlas: seq<Nla>, wide: bool): Stats {
    Stats(StatIn(nlas, IPVS_STATS_ATTR_CONNS, wide), StatIn(nlas, IPVS_STATS_ATTR_INPKTS, wide),
          StatIn(nlas, IPVS_STATS_ATTR_OUTPKTS, wide), StatIn(nlas, IPVS_STATS_ATTR_INBYTES, true),
          StatIn(nlas, IPVS_STATS_ATTR_OUTBYTES, true), StatIn(nlas, IPVS_STATS_ATTR_CPS, wide),
          StatIn(nlas, IPVS_STATS_ATTR_INPPS, wide), StatIn(nlas, IPVS_STATS_ATTR_OUTPPS, wide),
          StatIn(nlas, IPVS_STATS_ATTR_INBPS, wide), StatIn(nlas, IPVS_STATS_ATTR_OUTBPS, wide))
  }

  /** One attribute of the nest. */
  function Assigned(s: Stats, a: Nla, wide: bool): Stats {
    var v, octets := Stat(a.payload, wide), Stat(a.payload, true);
    if a.ty == IPVS_STATS_ATTR_CONNS then s.(conns := v)
    else if a.ty == IPVS_STATS_ATTR_INPKTS then s.(inPkts := v)
    else if a.ty == IPVS_STATS_ATTR_OUTPKTS then s.(outPkts := v)
    else if a.ty == IPVS_STATS_ATTR_INBYTES then s.(inBytes := octets)
    else if a.ty == IPVS_STATS_ATTR_OUTBYTES then s.(outBytes := octets)
    else if a.ty == IPVS_STATS_ATTR_CPS then s.(cps := v)
    else if a.ty == IPVS_STATS_ATTR_INPPS then s.(inPps := v)
    else if a.ty == IPVS_STATS_ATTR_OUTPPS then s.(outPps := v)
    else if a.ty == IPVS_STATS_ATTR_INBPS then s.(inBps := v)
    else if a.ty == IPVS_STATS_ATTR_OUTBPS then s.(outBps := v)
    else s
  }

  lemma {:induction false} StatStep(attrs: seq<Nla>, i: nat, wide: bool)
    requires i < |attrs|
    ensures forall ty :: StatIn(attrs[..i + 1], ty, wide)
                      == if attrs[i].ty == ty then Stat(attrs[i].payload, wide) else StatIn(attrs[..i], ty, wide)
  {
    hide Last, Stat;
    forall ty {
      LastStep(attrs, i, ty);
    }
  }

  lemma {:induction false} StatsStep(attrs: seq<Nla>, i: nat, wide: bool)
    requires i < |attrs|
    ensures StatsIn(attrs[..i + 1], wide) == Assigned(StatsIn(attrs[..i], wide), attrs[i], wide)
  {
    hide Stat, StatIn;
    StatStep(attrs, i, wide);
    StatStep(attrs, i, true);
  }

  /** The two parsers of statistics, for the 64-bit nest and for the 32-bit one. */
  method ParseStats(payload: bytes, wide: bool) returns (s: Stats)
    ensures s == StatsIn(Attrs(payload), wide)
  {
    hide Attrs, Assigned;
    var attrs := Attrs(payload);
    s := NO_STATS;
    assert attrs[..0] == [];
    assert StatsIn([], wide) == NO_STATS;
    hide StatsIn;
    for i := 0 to |attrs|
      invariant s == StatsIn(attrs[..i], wide)
    {
      StatsStep(attrs, i, wide);
      s := Assigned(s, attrs[i], wide);
    }
    assert attrs[..|attrs|] == attrs;
  }

  // ---- Services ----

  /** The part of a service that identifies it. */
  datatype ServiceKey = ServiceKey(proto: string, vip: string, port: string)

  function ProtoNumber(proto: string): u16 {
    if proto == "tcp" then 6 else if proto == "udp" then 17 else if proto == "sctp" then 132 else 0
  }

  function ProtoName(n: u16): string {
    if n == 6 then "tcp" else if n == 17 then "udp" else if n == 132 then "sctp" else "unknown"
  }

  function AddrText(af: u16, a: bytes, v6: V6): string {
    if af == AF_INET && |a| >= 4 then ShowV4(a[..4])
    else if af == AF_INET6 && |a| >= 16 then v6.show(a[..16])
    else []
  }

  function MarkText(mark: u32): string {
    "0x" + Numeral(mark, 16)
  }

  /** What the attributes of a service say about its key. */
  function KeyOf(nlas: seq<Nla>, v6: V6): ServiceKey {
    var proto := NumberIn(nlas, IPVS_SVC_ATTR_PROTOCOL, 0);
    var mark := MarkIn(nlas);
    if mark != 0 then ServiceKey(ProtoName(proto), [], MarkText(mark))
    else
      ServiceKey(ProtoName(proto),
                 AddrText(FamilyOf(nlas), Last(nlas, IPVS_SVC_ATTR_ADDR).GetOr([]), v6),
                 Numeral(PortIn(nlas), 10))
  }

  /** The last native-order 16-bit attribute of a type, the default when it is absent or too short. */
  function NumberIn(nlas: seq<Nla>, ty: nat, default: u16): u16 {
    match Last(nlas, ty)
    case None => default
    case Some(p) => ReadU16(p).GetOr(default)
  }

  /** The address family of a service. */
  function FamilyOf(nlas: seq<Nla>): u16 {
    NumberIn(nlas, IPVS_SVC_ATTR_AF, AF_INET)
  }

  function MarkIn(nlas: seq<Nla>): u32 {
    match Last(nlas, IPVS_SVC_ATTR_FWMARK)
    case None => 0
    case Some(p) => ReadU32(p).GetOr(0)
  }

  /** The port is in network order. */
  function PortIn(nlas: seq<Nla>): u16 {
    match Last(nlas, IPVS_SVC_ATTR_PORT)
    case None => 0
    case Some(p) => ReadU16BE(p).GetOr(0)
  }

  /** The parser's locals after some attributes. */
  ghost predicate ServiceLocals(nlas: seq<Nla>, af: u16, proto: u16, addr: bytes, port: u16, mark: u32) {
    && af == FamilyOf(nlas)
    && proto == NumberIn(nlas, IPVS_SVC_ATTR_PROTOCOL, 0)
    && addr == Last(nlas, IPVS_SVC_ATTR_ADDR).GetOr([])
    && port == PortIn(nlas)
    && mark == MarkIn(nlas)
  }

  lemma {:induction false} ServiceStep(attrs: seq<Nla>, i: nat, af: u16, proto: u16, addr: bytes, port: u16, mark: u32)
    requires i < |attrs| && ServiceLocals(attrs[..i], af, proto, addr, port, mark)
    ensures var a := attrs[i];
            ServiceLocals(attrs[..i + 1],
                          if a.ty == IPVS_SVC_ATTR_AF then ReadU16(a.payload).GetOr(AF_INET) else af,
                          if a.ty == IPVS_SVC_ATTR_PROTOCOL then ReadU16(a.payload).GetOr(0) else proto,
                          if a.ty == IPVS_SVC_ATTR_ADDR then a.payload else addr,
                          if a.ty == IPVS_SVC_ATTR_PORT then ReadU16BE(a.payload).GetOr(0) else port,
                          if a.ty == IPVS_SVC_ATTR_FWMARK then ReadU32(a.payload).GetOr(0) else mark)
  {
    hide Last, Attrs, ReadU16, ReadU16BE, ReadU32;
    LastStep(attrs, i, IPVS_SVC_ATTR_AF);
    LastStep(attrs, i, IPVS_SVC_ATTR_PROTOCOL);
    LastStep(attrs, i, IPVS_SVC_ATTR_ADDR);
    LastStep(attrs, i, IPVS_SVC_ATTR_PORT);
    LastStep(attrs, i, IPVS_SVC_ATTR_FWMARK);
  }

  datatype Service = Service(key: ServiceKey, sched: string, stats: Stats)

  /** What the attributes of a service say: its key, its scheduler, and its 64-bit statistics before the 32-bit ones. */
  function ServiceOf(nlas: seq<Nla>, v6: V6): Service {
    Service(KeyOf(nlas, v6), SchedulerIn(nlas), ServiceStats(nlas))
  }

  function SchedulerIn(nlas: seq<Nla>): string {
    match Last(nlas, IPVS_SVC_ATTR_SCHED_NAME)
    case None => "unknown"
    case Some(p) => TextOf(p)
  }

  function ServiceStats(nlas: seq<Nla>): Stats {
    var wide, narrow := Last(nlas, IPVS_SVC_ATTR_STATS64), Last(nlas, IPVS_SVC_ATTR_STATS);
    if wide.Some? then StatsIn(Attrs(wide.value), true)
    else if narrow.Some? then StatsIn(Attrs(narrow.value), false)
    else NO_STATS
  }

  lemma {:induction false} OtherStep(attrs: seq<Nla>, i: nat)
    requires i < |attrs|
    ensures var a := attrs[i];
            && SchedulerIn(attrs[..i + 1])
               == (if a.ty == IPVS_SVC_ATTR_SCHED_NAME then TextOf(a.payload) else SchedulerIn(attrs[..i]))
            && Last(attrs[..i + 1], IPVS_SVC_ATTR_STATS64)
               == (if a.ty == IPVS_SVC_ATTR_STATS64 then Some(a.payload) else Last(attrs[..i], IPVS_SVC_ATTR_STATS64))
            && Last(attrs[..i + 1], IPVS_SVC_ATTR_STATS)
               == (if a.ty == IPVS_SVC_ATTR_STATS then Some(a.payload) else Last(attrs[..i], IPVS_SVC_ATTR_STATS))
  {
    hide Last, TextOf;
    LastStep(attrs, i, IPVS_SVC_ATTR_SCHED_NAME);
    LastStep(attrs, i, IPVS_SVC_ATTR_STATS64);
    LastStep(attrs, i, IPVS_SVC_ATTR_STATS);
  }

  lemma {:induction false} NothingSaid()
    ensures ServiceLocals([], AF_INET, 0, [], 0, 0) && SchedulerIn([]) == "unknown"
    ensures Last([], IPVS_SVC_ATTR_STATS64) == None && Last([], IPVS_SVC_ATTR_STATS) == None
  {
  }

  /** The loop over a service's attributes. */
  method ServiceAttrs(attrs: seq<Nla>)
    returns (af: u16, proto: u16, addr: bytes, port: u16, mark: u32, sched: string, wide: Option<bytes>,
             narrow: Option<bytes>)
    ensures ServiceLocals(attrs, af, proto, addr, port, mark) && sched == SchedulerIn(attrs)
    ensures wide == Last(attrs, IPVS_SVC_ATTR_STATS64) && narrow == Last(attrs, IPVS_SVC_ATTR_STATS)
  {
    hide Attrs, ReadU16, ReadU16BE, ReadU32, ServiceLocals, SchedulerIn, Last, TextOf;
    af, proto, addr, port, mark := AF_INET, 0, [], 0, 0;
    sched, wide, narrow := "unknown", None, None;
    assert attrs[..0] == [];
    NothingSaid();
    for i := 0 to |attrs|
      invariant ServiceLocals(attrs[..i], af, proto, addr, port, mark)
      invariant sched == SchedulerIn(attrs[..i])
      invariant wide == Last(attrs[..i], IPVS_SVC_ATTR_STATS64)
      invariant narrow == Last(attrs[..i], IPVS_SVC_ATTR_STATS)
    {
      var a := attrs[i];
      ServiceStep(attrs, i, af, proto, addr, port, mark);
      OtherStep(attrs, i);
      if a.ty == IPVS_SVC_ATTR_AF {
        af := ReadU16(a.payload).GetOr(AF_INET);
      } else if a.ty == IPVS_SVC_ATTR_PROTOCOL {
        proto := ReadU16(a.payload).GetOr(0);
      } else if a.ty == IPVS_SVC_ATTR_ADDR {
        addr := a.payload;
      } else if a.ty == IPVS_SVC_ATTR_PORT {
        port := ReadU16BE(a.payload).GetOr(0);
      } else if a.ty == IPVS_SVC_ATTR_FWMARK {
        mark := ReadU32(a.payload).GetOr(0);
      } else if a.ty == IPVS_SVC_ATTR_SCHED_NAME {
        sched := TextOf(a.payload);
      } else if a.ty == IPVS_SVC_ATTR_STATS64 {
        wide := Some(a.payload);
      } else if a.ty == IPVS_SVC_ATTR_STATS {
        narrow := Some(a.payload);
      }
    }
    assert attrs[..|attrs|] == attrs;
  }

  /** Parses a service's attributes into exactly what they say. */
  method ParseService(buf: bytes, v6: V6) returns (service: Service)
    ensures service == ServiceOf(Attrs(buf), v6)
  {
    hide Attrs, Numeral, ShowV4, ServiceLocals, SchedulerIn, Last, StatsIn, KeyOf, ProtoName;
    var attrs := Attrs(buf);
    var af, proto, addr, port, mark, sched, wide, narrow := ServiceAttrs(attrs);
    var stats := NO_STATS;
    if wide.Some? {
      stats := ParseStats(wide.value, true);
    } else if narrow.Some? {
      stats := ParseStats(narrow.value, false);
    }
    LocalsGiveKey(attrs, af, proto, addr, port, mark, v6);
    var key := if mark != 0 then ServiceKey(ProtoName(proto), [], MarkText(mark))
               else ServiceKey(ProtoName(proto), AddrText(af, addr, v6), Numeral(port, 10));
    service := Service(key, sched, stats);
  }

  lemma {:induction false} LocalsGiveKey(nlas: seq<Nla>, af: u16, proto: u16, addr: bytes, port: u16, mark: u32, v6: V6)
    requires ServiceLocals(nlas, af, proto, addr, port, mark)
    ensures KeyOf(nlas, v6) == if mark != 0 then ServiceKey(ProtoName(proto), [], MarkText(mark))
                               else ServiceKey(ProtoName(proto), AddrText(af, addr, v6), Numeral(port, 10))
  {
  }

  // ---- The request ----

  /** `trim_start_matches("0x")` */
  function TrimHexPrefix(s: string): string {
    if "0x" <= s then TrimHexPrefix(s[2..]) else s
  }

  function AddrOf(vip: string, v6: V6): Option<bytes> {
    if vip == [] then None else if ReadV4(vip).Some? then ReadV4(vip) else v6.read(vip)
  }

  function Optional(ty: u16, payload: Option<bytes>): bytes {
    if payload.None? then [] else EncodeNla(ty, payload.value)
  }

  function AfOf(vip: string): u16 {
    if ':' in vip then AF_INET6 else AF_INET
  }

  /** The mark a port text names. */
  function MarkPayload(port: string): Option<bytes> {
    match ParseNumeral(TrimHexPrefix(port), 16, U32)
    case None => None
    case Some(mark) => Some(ToLE(mark, 4))
  }

  function PortPayload(port: string): Option<bytes> {
    match ParseNumeral(port, 10, U16)
    case None => None
    case Some(p) => Some(ToBE(p, 2))
  }

  /** The service-key attributes of a request. */
  function KeyAttrs(key: ServiceKey, v6: V6): bytes {
    EncodeNla(IPVS_SVC_ATTR_AF, ToLE(AfOf(key.vip), 2))
    + if "0x" <= key.port then Optional(IPVS_SVC_ATTR_FWMARK, MarkPayload(key.port))
      else EncodeNla(IPVS_SVC_ATTR_PROTOCOL, ToLE(ProtoNumber(key.proto), 2))
           + (Optional(IPVS_SVC_ATTR_ADDR, AddrOf(key.vip, v6)) + Optional(IPVS_SVC_ATTR_PORT, PortPayload(key.port)))
  }

  method PushAddr(inner: Vec<byte>, vip: string, v6: V6)
    modifies inner
    ensures inner.items == old(inner.items) + Optional(IPVS_SVC_ATTR_ADDR, AddrOf(vip, v6))
  {
    hide EncodeNla, ReadV4;
    if vip != [] {
      var v4 := ReadV4(vip);
      if v4.Some? {
        PushNla(inner, IPVS_SVC_ATTR_ADDR, v4.value);
      } else if v6.read(vip).Some? {
        PushNla(inner, IPVS_SVC_ATTR_ADDR, v6.read(vip).value);
      }
    }
  }

  method PushPort(inner: Vec<byte>, port: string)
    modifies inner
    ensures inner.items == old(inner.items) + Optional(IPVS_SVC_ATTR_PORT, PortPayload(port))
  {
    hide EncodeNla, ParseNumeral;
    var p := ParseNumeral(port, 10, U16);
    if p.Some? {
      PushNla(inner, IPVS_SVC_ATTR_PORT, ToBE(p.value, 2));
    }
  }

  method BuildDestRequest(key: ServiceKey, v6: V6) returns (buf: Vec<byte>)
    ensures fresh(buf)
    ensures buf.items == [8, 1, 0, 0] + EncodeNla(NLA_F_NESTED + 1, KeyAttrs(key, v6))
  {
    hide EncodeNla, ToLE, ToBE, ReadV4, ParseNumeral, TrimHexPrefix, AddrOf, PortPayload, ProtoNumber;
    buf := new Vec<byte>();
    buf.Extend([IPVS_CMD_GET_DEST, IPVS_GENL_VERSION, 0, 0]);
    var proto := ProtoNumber(key.proto);
    var inner := new Vec<byte>();
    var af := if ':' in key.vip then AF_INET6 else AF_INET;
    PushNla(inner, IPVS_SVC_ATTR_AF, ToLE(af, 2));
    if "0x" <= key.port {
      var mark := ParseNumeral(TrimHexPrefix(key.port), 16, U32);
      if mark.Some? {
        PushNla(inner, IPVS_SVC_ATTR_FWMARK, ToLE(mark.value, 4));
      }
    } else {
      PushNla(inner, IPVS_SVC_ATTR_PROTOCOL, ToLE(proto, 2));
      PushAddr(inner, key.vip, v6);
      PushPort(inner, key.port);
    }
    assert inner.items == KeyAttrs(key, v6);
    PushNla(buf, NLA_F_NESTED + IPVS_CMD_ATTR_SERVICE, inner.items);
  }

  // ---- The parser undoes the request ----

  lemma {:induction false} MarkReadsBack(mark: u32)
    ensures var port := MarkText(mark);
            "0x" <= port && ParseNumeral(TrimHexPrefix(port), 16, U32) == Some(mark)
  {
    hide ParseNumeral;
    NumeralRoundTrip(mark, 16, U32);
    NumeralIsAlphanumeric(mark, 16);
    var hex := Numeral(mark, 16);
    assert MarkText(mark)[2..] == hex;
    assert |hex| > 1 ==> hex[1] in hex;
    assert TrimHexPrefix(hex) == hex;
  }

  lemma {:induction false} PortReadsBack(port: u16)
    ensures PortPayload(Numeral(port, 10)) == Some(ToBE(port, 2)) && !("0x" <= Numeral(port, 10))
  {
    hide ParseNumeral;
    NumeralRoundTrip(port, 10, U16);
    NumeralIsAlphanumeric(port, 10);
    var s := Numeral(port, 10);
    assert |s| > 1 ==> s[1] in s;
  }

  lemma {:induction false} ScalarsReadBack(x: u16, port: u16, mark: u32)
    ensures ReadU16(ToLE(x, 2)) == Some(x) && ReadU16BE(ToBE(port, 2)) == Some(port)
            && ReadU32(ToLE(mark, 4)) == Some(mark)
  {
    hide ReadLE, ReadBE, ToLE, ToBE;
    RadixValues();
    ReadersInvertWriters(x, 2, []);
    ReadersInvertWriters(port, 2, []);
    ReadersInvertWriters(mark, 4, []);
    assert ToLE(x, 2) + [] == ToLE(x, 2) && ToBE(port, 2) + [] == ToBE(port, 2) && ToLE(mark, 4) + [] == ToLE(mark, 4);
  }

  lemma {:induction false} OptionalReadsBack(ty: u16, payload: Option<bytes>, rest: bytes)
    requires ty < NLA_TYPE_MODULUS && (payload.Some? ==> FitsNla(payload.value))
    ensures Attrs(Optional(ty, payload) + rest)
            == (if payload.None? then [] else [Nla(ty, payload.value)]) + Attrs(rest)
  {
    hide Attrs, EncodeNla;
    if payload.None? {
      assert [] + rest == rest && [] + Attrs(rest) == Attrs(rest);
    } else {
      AttrsOfEncoded(ty, payload.value, rest);
    }
  }

  /** The attributes of a request for a service with a mark. */
  lemma {:induction false} MarkAttrs(key: ServiceKey, mark: u32, v6: V6)
    requires key.port == MarkText(mark)
    ensures Attrs(KeyAttrs(key, v6))
            == [Nla(IPVS_SVC_ATTR_AF, ToLE(AfOf(key.vip), 2)), Nla(IPVS_SVC_ATTR_FWMARK, ToLE(mark, 4))]
  {
    hide Attrs, EncodeNla, ToLE, AfOf, ParseNumeral, TrimHexPrefix, MarkText;
    MarkReadsBack(mark);
    AttrsOfTwo(IPVS_SVC_ATTR_AF, ToLE(AfOf(key.vip), 2), IPVS_SVC_ATTR_FWMARK, ToLE(mark, 4));
  }

  /** The attributes of a request for a service with an address and a port. */
  lemma {:induction false} PortAttrs(key: ServiceKey, port: u16, v6: V6)
    requires key.port == Numeral(port, 10)
    requires AddrOf(key.vip, v6).Some? ==> FitsNla(AddrOf(key.vip, v6).value)
    ensures var addr := AddrOf(key.vip, v6);
            (Attrs(KeyAttrs(key, v6))
             == [Nla(IPVS_SVC_ATTR_AF, ToLE(AfOf(key.vip), 2))]
                + ([Nla(IPVS_SVC_ATTR_PROTOCOL, ToLE(ProtoNumber(key.proto), 2))]
                + ((if addr.None? then [] else [Nla(IPVS_SVC_ATTR_ADDR, addr.value)])
                   + [Nla(IPVS_SVC_ATTR_PORT, ToBE(port, 2))])))
  {
    hide Attrs, EncodeNla, Optional, ToLE, ToBE, AfOf, AddrOf, ProtoNumber, PortPayload, Numeral;
    PortReadsBack(port);
    var addr := AddrOf(key.vip, v6);
    var tail := Optional(IPVS_SVC_ATTR_PORT, Some(ToBE(port, 2)));
    OptionalReadsBack(IPVS_SVC_ATTR_PORT, Some(ToBE(port, 2)), []);
    AttrsOfNothing();
    assert tail + [] == tail;
    OptionalReadsBack(IPVS_SVC_ATTR_ADDR, addr, tail);
    var more := Optional(IPVS_SVC_ATTR_ADDR, addr) + tail;
    AttrsOfEncoded(IPVS_SVC_ATTR_PROTOCOL, ToLE(ProtoNumber(key.proto), 2), more);
    AttrsOfEncoded(IPVS_SVC_ATTR_AF, ToLE(AfOf(key.vip), 2),
                   EncodeNla(IPVS_SVC_ATTR_PROTOCOL, ToLE(ProtoNumber(key.proto), 2)) + more);
  }

  lemma {:induction false} ProtoReadsBack(proto: string)
    ensures ProtoName(ProtoNumber(proto)) == proto <==> proto in {"tcp", "udp", "sctp", "unknown"}
    ensures ProtoNumber(proto) == 0 ==> ProtoName(ProtoNumber(proto)) == "unknown"
  {
  }

  /** The five fields the key is read from. */
  lemma {:induction false} MarkFields(af: u16, mark: u32)
    ensures var nlas := [Nla(IPVS_SVC_ATTR_AF, ToLE(af, 2)), Nla(IPVS_SVC_ATTR_FWMARK, ToLE(mark, 4))];
            && NumberIn(nlas, IPVS_SVC_ATTR_PROTOCOL, 0) == 0 && MarkIn(nlas) == mark && PortIn(nlas) == 0
            && Last(nlas, IPVS_SVC_ATTR_ADDR) == None && FamilyOf(nlas) == af
  {
    hide Last, ToLE, ReadU16, ReadU32, ReadU16BE;
    var nlas := [Nla(IPVS_SVC_ATTR_AF, ToLE(af, 2)), Nla(IPVS_SVC_ATTR_FWMARK, ToLE(mark, 4))];
    ScalarsReadBack(af, 0, mark);
    OnlyLast(nlas, 0);
    OnlyLast(nlas, 1);
    LastMeans(nlas, IPVS_SVC_ATTR_PROTOCOL);
    LastMeans(nlas, IPVS_SVC_ATTR_PORT);
    LastMeans(nlas, IPVS_SVC_ATTR_ADDR);
  }

  lemma {:induction false} PortFields(af: u16, proto: u16, addr: Option<bytes>, port: u16)
    ensures var nlas := [Nla(IPVS_SVC_ATTR_AF, ToLE(af, 2))] + ([Nla(IPVS_SVC_ATTR_PROTOCOL, ToLE(proto, 2))]
                        + ((if addr.None? then [] else [Nla(IPVS_SVC_ATTR_ADDR, addr.value)])
                           + [Nla(IPVS_SVC_ATTR_PORT, ToBE(port, 2))]));
            (&& FamilyOf(nlas) == af && NumberIn(nlas, IPVS_SVC_ATTR_PROTOCOL, 0) == proto
             && MarkIn(nlas) == 0 && PortIn(nlas) == port && Last(nlas, IPVS_SVC_ATTR_ADDR) == addr)
  {
    hide Last, ToLE, ToBE, ReadU16, ReadU32, ReadU16BE;
    var nlas := [Nla(IPVS_SVC_ATTR_AF, ToLE(af, 2))] + ([Nla(IPVS_SVC_ATTR_PROTOCOL, ToLE(proto, 2))]
                + ((if addr.None? then [] else [Nla(IPVS_SVC_ATTR_ADDR, addr.value)])
                   + [Nla(IPVS_SVC_ATTR_PORT, ToBE(port, 2))]));
    ScalarsReadBack(af, port, 0);
    ScalarsReadBack(proto, port, 0);
    OnlyLast(nlas, 0);
    OnlyLast(nlas, 1);
    OnlyLast(nlas, |nlas| - 1);
    LastMeans(nlas, IPVS_SVC_ATTR_FWMARK);
    if addr.Some? {
      OnlyLast(nlas, 2);
    } else {
      LastMeans(nlas, IPVS_SVC_ATTR_ADDR);
    }
  }

  /** A service with a mark: mark and port text come back, the address is empty and the protocol is lost. A zero mark
      does not survive: it reads back as port 0. */
  lemma {:induction false} MarkSurvivesIff(key: ServiceKey, mark: u32, v6: V6)
    requires key.port == MarkText(mark)
    ensures var r := KeyOf(Attrs(KeyAttrs(key, v6)), v6);
            && r.vip == [] && r.proto == "unknown"
            && (r.port == key.port <==> mark != 0)
  {
    hide Attrs, KeyAttrs, ToLE, Numeral, NumberIn, MarkIn, PortIn, Last, AfOf, MarkText;
    MarkAttrs(key, mark, v6);
    MarkFields(AfOf(key.vip), mark);
    PortReadsBack(0);
    MarkReadsBack(mark);
  }

  /** A service with an IPv4 address and a port: address and port always come back, and the protocol exactly when it is
      one of the four names the parser can give. */
  lemma {:induction false} V4Survives(proto: string, a: bytes, port: u16, v6: V6)
    requires |a| == 4
    ensures var key := ServiceKey(proto, ShowV4(a), Numeral(port, 10));
            var r := KeyOf(Attrs(KeyAttrs(key, v6)), v6);
            r.vip == key.vip && r.port == key.port && (r == key <==> proto in {"tcp", "udp", "sctp", "unknown"})
  {
    hide Attrs, KeyAttrs, ToLE, ToBE, Numeral, NumberIn, MarkIn, PortIn, Last, ShowV4, ReadV4, ProtoName, ProtoNumber;
    var key := ServiceKey(proto, ShowV4(a), Numeral(port, 10));
    V4RoundTrip(a);
    PortAttrs(key, port, v6);
    PortFields(AF_INET, ProtoNumber(proto), Some(a), port);
    ProtoReadsBack(proto);
    assert a[..4] == a;
  }

  lemma {:induction false} AddressReadsBack(af: u16, a: bytes, v6: V6)
    requires v6.Sound()
    ensures var vip := AddrText(af, a, v6);
            (&& (AddrOf(vip, v6).Some? ==> |AddrOf(vip, v6).value| <= 16)
             && AddrText(AfOf(vip), AddrOf(vip, v6).GetOr([]), v6) == vip)
  {
    hide ShowV4, ReadV4;
    var vip := AddrText(af, a, v6);
    if af == AF_INET && |a| >= 4 {
      V4RoundTrip(a[..4]);
      assert a[..4][..4] == a[..4];
    } else if af == AF_INET6 && |a| >= 16 {
      assert v6.read(v6.show(a[..16])) == Some(a[..16]);
      assert a[..16][..16] == a[..16];
    }
  }

  /** Whatever the kernel said about a service, the request built from the parsed key reads back as the same key text:
      address and port come back, and the name of the protocol unless the service is known by its mark. What the text
      does not say is not asked for: `FamilySurvivesIff`, `ProtocolSurvivesIff`, `RequestAddress`. */
  lemma {:induction false} RequestKeepsKey(nlas: seq<Nla>, v6: V6)
    requires v6.Sound()
    ensures var key := KeyOf(nlas, v6);
            KeyOf(Attrs(KeyAttrs(key, v6)), v6) == if MarkIn(nlas) == 0 then key else key.(proto := "unknown")
  {
    var key := KeyOf(nlas, v6);
    var proto, mark := NumberIn(nlas, IPVS_SVC_ATTR_PROTOCOL, 0), MarkIn(nlas);
    var af, a := FamilyOf(nlas), Last(nlas, IPVS_SVC_ATTR_ADDR).GetOr([]);
    ProtoReadsBack(ProtoName(proto));
    assert ProtoName(proto) in {"tcp", "udp", "sctp", "unknown"};
    hide Attrs, KeyAttrs, ToLE, ToBE, Numeral, NumberIn, MarkIn, PortIn, Last;
    hide ShowV4, ReadV4, ProtoName, ProtoNumber, MarkText, AddrText, AddrOf, AfOf;
    if mark != 0 {
      MarkSurvivesIff(key, mark, v6);
    } else {
      AddressReadsBack(af, a, v6);
      PortAttrs(key, PortIn(nlas), v6);
      PortFields(AfOf(key.vip), ProtoNumber(key.proto), AddrOf(key.vip, v6), PortIn(nlas));
    }
  }

  /** What the request carries of a service, field by field: a mark alone, or protocol, address and port. */
  lemma {:induction false} RequestFields(nlas: seq<Nla>, v6: V6)
    requires v6.Sound()
    ensures var key := KeyOf(nlas, v6);
            var request := Attrs(KeyAttrs(key, v6));
            && FamilyOf(request) == AfOf(key.vip) && MarkIn(request) == MarkIn(nlas)
            && (MarkIn(nlas) != 0 ==>
                  && NumberIn(request, IPVS_SVC_ATTR_PROTOCOL, 0) == 0
                  && Last(request, IPVS_SVC_ATTR_ADDR) == None && PortIn(request) == 0)
            && (MarkIn(nlas) == 0 ==>
                  && NumberIn(request, IPVS_SVC_ATTR_PROTOCOL, 0) == ProtoNumber(key.proto)
                  && Last(request, IPVS_SVC_ATTR_ADDR) == AddrOf(key.vip, v6) && PortIn(request) == PortIn(nlas))
  {
    var key, mark := KeyOf(nlas, v6), MarkIn(nlas);
    var af, a := FamilyOf(nlas), Last(nlas, IPVS_SVC_ATTR_ADDR).GetOr([]);
    hide Attrs, KeyAttrs, ToLE, ToBE, Numeral, NumberIn, MarkIn, PortIn, Last, FamilyOf;
    hide ShowV4, ReadV4, ProtoName, ProtoNumber, MarkText, AddrText, AddrOf, AfOf;
    if mark != 0 {
      MarkAttrs(key, mark, v6);
      MarkFields(AfOf(key.vip), mark);
    } else {
      AddressReadsBack(af, a, v6);
      PortAttrs(key, PortIn(nlas), v6);
      PortFields(AfOf(key.vip), ProtoNumber(key.proto), AddrOf(key.vip, v6), PortIn(nlas));
    }
  }

  lemma {:induction false} TextFamily(af: u16, a: bytes, v6: V6)
    requires v6.Sound()
    ensures AfOf(AddrText(af, a, v6)) == if af == AF_INET6 && |a| >= 16 then AF_INET6 else AF_INET
  {
    hide ShowV4, ReadV4;
    if af == AF_INET && |a| >= 4 {
      V4RoundTrip(a[..4]);
    } else if af == AF_INET6 && |a| >= 16 {
      assert v6.read(v6.show(a[..16])) == Some(a[..16]);
    }
  }

  /** The request asks for the service's own family exactly when that is IPv4, or IPv6 with a whole address and no mark:
      an IPv6 service known by its mark is asked for as IPv4. */
  lemma {:induction false} FamilySurvivesIff(nlas: seq<Nla>, v6: V6)
    requires v6.Sound()
    ensures FamilyOf(Attrs(KeyAttrs(KeyOf(nlas, v6), v6))) == FamilyOf(nlas) <==>
            || FamilyOf(nlas) == 2
            || (FamilyOf(nlas) == 10 && MarkIn(nlas) == 0 && |Last(nlas, IPVS_SVC_ATTR_ADDR).GetOr([])| >= 16)
  {
    RequestFields(nlas, v6);
    TextFamily(FamilyOf(nlas), Last(nlas, IPVS_SVC_ATTR_ADDR).GetOr([]), v6);
    hide Attrs, KeyAttrs, NumberIn, MarkIn, PortIn, Last, AddrText, ShowV4, Numeral, MarkText, ProtoName;
  }

  /** One such service: the mark 1 over IPv6. */
  lemma {:induction false} MarkLosesFamily(v6: V6)
    requires v6.Sound()
    ensures var nlas := [Nla(IPVS_SVC_ATTR_AF, ToLE(AF_INET6, 2)), Nla(IPVS_SVC_ATTR_FWMARK, ToLE(1, 4))];
            FamilyOf(nlas) == AF_INET6 && FamilyOf(Attrs(KeyAttrs(KeyOf(nlas, v6), v6))) == AF_INET
  {
    hide Attrs, KeyAttrs, ToLE, NumberIn, MarkIn, PortIn, Last, MarkText, ProtoName, Numeral, ShowV4;
    var nlas := [Nla(IPVS_SVC_ATTR_AF, ToLE(AF_INET6, 2)), Nla(IPVS_SVC_ATTR_FWMARK, ToLE(1, 4))];
    MarkFields(AF_INET6, 1);
    RequestFields(nlas, v6);
  }

  /** The request asks for the service's own protocol number exactly when that is zero, or one of the three the parser
      has a name for and no mark is set: every other number reads as "unknown" and is asked for as zero. */
  lemma {:induction false} ProtocolSurvivesIff(nlas: seq<Nla>, v6: V6)
    requires v6.Sound()
    ensures var n := NumberIn(nlas, IPVS_SVC_ATTR_PROTOCOL, 0);
            NumberIn(Attrs(KeyAttrs(KeyOf(nlas, v6), v6)), IPVS_SVC_ATTR_PROTOCOL, 0) == n <==>
            n == 0 || (MarkIn(nlas) == 0 && n in {6, 17, 132})
  {
    RequestFields(nlas, v6);
    ProtoKept(NumberIn(nlas, IPVS_SVC_ATTR_PROTOCOL, 0));
    hide Attrs, KeyAttrs, NumberIn, MarkIn, PortIn, Last, AddrText, FamilyOf, Numeral, MarkText, ProtoName, ProtoNumber;
  }

  lemma {:induction false} ProtoKept(n: u16)
    ensures ProtoNumber(ProtoName(n)) == n <==> n in {0, 6, 17, 132}
  {
  }

  /** One such service: protocol 50 over IPv4, with an address and a port, is asked for as protocol 0. */
  lemma {:induction false} UnnamedProtocolIsLost(a: bytes, port: u16, v6: V6)
    requires |a| == 4 && v6.Sound()
    ensures var nlas := [Nla(IPVS_SVC_ATTR_AF, ToLE(AF_INET, 2))] + ([Nla(IPVS_SVC_ATTR_PROTOCOL, ToLE(50, 2))]
                        + ([Nla(IPVS_SVC_ATTR_ADDR, a)] + [Nla(IPVS_SVC_ATTR_PORT, ToBE(port, 2))]));
            && NumberIn(nlas, IPVS_SVC_ATTR_PROTOCOL, 0) == 50
            && NumberIn(Attrs(KeyAttrs(KeyOf(nlas, v6), v6)), IPVS_SVC_ATTR_PROTOCOL, 0) == 0
  {
    hide Attrs, KeyAttrs, ToLE, ToBE, NumberIn, MarkIn, PortIn, Last, FamilyOf, AddrText, Numeral, MarkText;
    var nlas := [Nla(IPVS_SVC_ATTR_AF, ToLE(AF_INET, 2))] + ([Nla(IPVS_SVC_ATTR_PROTOCOL, ToLE(50, 2))]
                + ([Nla(IPVS_SVC_ATTR_ADDR, a)] + [Nla(IPVS_SVC_ATTR_PORT, ToBE(port, 2))]));
    PortFields(AF_INET, 50, Some(a), port);
    RequestFields(nlas, v6);
  }

  /** The address octets a request carries: the first four of an IPv4 service, the first sixteen of an IPv6 service, and
      none when there are fewer, the family is another, or the service is known by its mark. */
  lemma {:induction false} RequestAddress(nlas: seq<Nla>, v6: V6)
    requires v6.Sound()
    ensures var af, a := FamilyOf(nlas), Last(nlas, IPVS_SVC_ATTR_ADDR).GetOr([]);
            Last(Attrs(KeyAttrs(KeyOf(nlas, v6), v6)), IPVS_SVC_ATTR_ADDR) ==
            if MarkIn(nlas) != 0 then None
            else if af == AF_INET && |a| >= 4 then Some(a[..4])
            else if af == AF_INET6 && |a| >= 16 then Some(a[..16])
            else None
  {
    RequestFields(nlas, v6);
    TextAddress(FamilyOf(nlas), Last(nlas, IPVS_SVC_ATTR_ADDR).GetOr([]), v6);
    hide Attrs, KeyAttrs, NumberIn, MarkIn, PortIn, Last, AddrText, AddrOf, FamilyOf, Numeral, MarkText, ProtoName;
  }

  lemma {:induction false} TextAddress(af: u16, a: bytes, v6: V6)
    requires v6.Sound()
    ensures AddrOf(AddrText(af, a, v6), v6) == if af == AF_INET && |a| >= 4 then Some(a[..4])
                                               else if af == AF_INET6 && |a| >= 16 then Some(a[..16])
                                               else None
  {
    hide ShowV4, ReadV4;
    if af == AF_INET && |a| >= 4 {
      V4RoundTrip(a[..4]);
    } else if af == AF_INET6 && |a| >= 16 {
      assert v6.read(v6.show(a[..16])) == Some(a[..16]);
    }
  }

  /** The attributes the kernel finds in the request's one nest are those the key was written as. */
  lemma {:induction false} RequestNest(key: ServiceKey, v6: V6)
    requires FitsNla(KeyAttrs(key, v6))
    ensures Attrs(([IPVS_CMD_GET_DEST, IPVS_GENL_VERSION, 0, 0]
                   + EncodeNla(NLA_F_NESTED + IPVS_CMD_ATTR_SERVICE, KeyAttrs(key, v6)))[GENL_HDRLEN..])
         == [Nla(IPVS_CMD_ATTR_SERVICE, KeyAttrs(key, v6))]
  {
    hide Attrs, EncodeNla, KeyAttrs;
    AttrsOfOne(NLA_F_NESTED + IPVS_CMD_ATTR_SERVICE, KeyAttrs(key, v6));
    var nest := EncodeNla(NLA_F_NESTED + IPVS_CMD_ATTR_SERVICE, KeyAttrs(key, v6));
    assert ([IPVS_CMD_GET_DEST, IPVS_GENL_VERSION, 0, 0] + nest)[GENL_HDRLEN..] == nest;
  }

  // ---- In the kernel's numbers ----

  /** The protocols that have a name, in both directions. */
  lemma {:induction false} ProtocolsInText()
    ensures ProtoName(6) == "tcp" && ProtoName(17) == "udp" && ProtoName(132) == "sctp"
    ensures ProtoNumber("tcp") == 6 && ProtoNumber("udp") == 17 && ProtoNumber("sctp") == 132
    ensures forall n: u16 :: n !in {6, 17, 132} ==> ProtoName(n) == "unknown"
  {
  }

  /** The attributes of a request for a TCP service with an IPv4 address, octet by octet: types 1 to 4, family and
      protocol least significant octet first, the port most significant first. */
  lemma {:induction false} TcpRequestInOctets(a: bytes, high: byte, low: byte, v6: V6)
    requires |a| == 4
    ensures Attrs(KeyAttrs(ServiceKey("tcp", ShowV4(a), Numeral(256 * high + low, 10)), v6))
         == [Nla(1, [2, 0]), Nla(2, [6, 0]), Nla(3, a), Nla(4, [high, low])]
  {
    hide Attrs, KeyAttrs, ShowV4, ReadV4, Numeral, ToLE, ToBE;
    var port: u16 := 256 * high + low;
    var key := ServiceKey("tcp", ShowV4(a), Numeral(port, 10));
    V4RoundTrip(a);
    PortAttrs(key, port, v6);
    SmallInOctets(high, low);
  }

  lemma {:induction false} SmallInOctets(high: byte, low: byte)
    ensures ToLE(2, 2) == [2, 0] && ToLE(6, 2) == [6, 0] && ToLE(10, 2) == [10, 0]
    ensures ToBE(256 * high + low, 2) == [high, low]
  {
    assert ToLE(0, 1) == [0] + ToLE(0, 0);
    var x: int := low;
    assert (256 * high + x) % 256 == low && (256 * high + x) / 256 == high;
    assert ToBE(high, 1) == ToBE(0, 0) + [high];
  }

  /** And of a request for a service known by its mark: the family, and the mark under type 5. */
  lemma {:induction false} MarkRequestInOctets(key: ServiceKey, mark: u32, v6: V6)
    requires key.vip == [] && key.port == MarkText(mark)
    ensures Attrs(KeyAttrs(key, v6)) == [Nla(1, [2, 0]), Nla(5, ToLE(mark, 4))]
  {
    hide Attrs, KeyAttrs, MarkText, ToLE, ToBE;
    MarkAttrs(key, mark, v6);
    SmallInOctets(0, 0);
  }

  /** The whole request: command 8, version 1, and one nest of type 1. */
  lemma {:induction false} RequestNestInOctets(key: ServiceKey, v6: V6)
    requires FitsNla(KeyAttrs(key, v6))
    ensures Attrs(([8, 1, 0, 0] + EncodeNla(NLA_F_NESTED + IPVS_CMD_ATTR_SERVICE, KeyAttrs(key, v6)))[4..])
         == [Nla(1, KeyAttrs(key, v6))]
  {
    hide Attrs, EncodeNla, KeyAttrs;
    RequestNest(key, v6);
  }

  function Values(s: Stats): (v: seq<u64>)
    ensures |v| == 10
  {
    [s.conns, s.inPkts, s.outPkts, s.inBytes, s.outBytes, s.cps, s.inPps, s.outPps, s.inBps, s.outBps]
  }

  /** How many octets statistic i has: those of octet counts always eight. */
  function StatWidth(i: nat, wide: bool): nat {
    if wide || i == 3 || i == 4 then 8 else 4
  }

  /** The ten statistics as the kernel nests them, under types 1 to 10. */
  function StatNlas(s: Stats, wide: bool): (r: seq<Nla>)
    ensures forall a :: a in r ==> a.ty < NLA_TYPE_MODULUS && FitsNla(a.payload)
  {
    seq(10, i requires 0 <= i < 10 => Nla(i + 1, ToLE(Values(s)[i], StatWidth(i, wide))))
  }

  function EncodeNlas(nlas: seq<Nla>): bytes
    requires forall a :: a in nlas ==> a.ty < NLA_TYPE_MODULUS
  {
    if nlas == [] then [] else EncodeNla(nlas[0].ty, nlas[0].payload) + EncodeNlas(nlas[1..])
  }

  function EncodeStats(s: Stats, wide: bool): bytes {
    EncodeNlas(StatNlas(s, wide))
  }

  lemma {:induction false} NlasReadBack(nlas: seq<Nla>)
    requires forall a :: a in nlas ==> a.ty < NLA_TYPE_MODULUS && FitsNla(a.payload)
    ensures Attrs(EncodeNlas(nlas)) == nlas
  {
    hide Attrs, EncodeNla;
    if nlas == [] {
      AttrsOfNothing();
    } else {
      AttrsOfEncoded(nlas[0].ty, nlas[0].payload, EncodeNlas(nlas[1..]));
      NlasReadBack(nlas[1..]);
    }
  }

  predicate FitsStats(s: Stats, wide: bool) {
    wide || (s.conns < U32 && s.inPkts < U32 && s.outPkts < U32 && s.cps < U32 && s.inPps < U32 && s.outPps < U32
             && s.inBps < U32 && s.outBps < U32)
  }

  lemma {:induction false} StatReadsBack(s: Stats, wide: bool, i: nat, w: bool, x: u64)
    requires i < 10 && x == Values(s)[i] && w == (wide || i == 3 || i == 4) && (w || x < U32)
    ensures StatIn(StatNlas(s, wide), i + 1, w) == x
  {
    hide ToLE, ReadLE, Last, Values;
    var nlas, n := StatNlas(s, wide), StatWidth(i, wide);
    OnlyLast(nlas, i);
    RadixValues();
    ReadersInvertWriters(x, n, []);
    assert nlas[i].payload + [] == nlas[i].payload;
  }

  /** The statistics come back, each in its own field. */
  lemma {:induction false} StatsRoundTrip(s: Stats, wide: bool)
    requires FitsStats(s, wide)
    ensures StatsIn(Attrs(EncodeStats(s, wide)), wide) == s
  {
    hide Attrs, StatNlas, StatIn, EncodeNlas;
    FirstStats(s, wide);
    LastStats(s, wide);
    NlasReadBack(StatNlas(s, wide));
    hide EncodeStats;
  }

  lemma {:induction false} FirstStats(s: Stats, wide: bool)
    requires FitsStats(s, wide)
    ensures var nlas := StatNlas(s, wide);
            && StatIn(nlas, 1, wide) == s.conns && StatIn(nlas, 2, wide) == s.inPkts
            && StatIn(nlas, 3, wide) == s.outPkts
            && StatIn(nlas, 4, true) == s.inBytes && StatIn(nlas, 5, true) == s.outBytes
  {
    hide StatNlas, StatIn;
    StatReadsBack(s, wide, 0, wide, s.conns);
    StatReadsBack(s, wide, 1, wide, s.inPkts);
    StatReadsBack(s, wide, 2, wide, s.outPkts);
    StatReadsBack(s, wide, 3, true, s.inBytes);
    StatReadsBack(s, wide, 4, true, s.outBytes);
  }

  lemma {:induction false} LastStats(s: Stats, wide: bool)
    requires FitsStats(s, wide)
    ensures var nlas := StatNlas(s, wide);
            && StatIn(nlas, 6, wide) == s.cps && StatIn(nlas, 7, wide) == s.inPps && StatIn(nlas, 8, wide) == s.outPps
            && StatIn(nlas, 9, wide) == s.inBps && StatIn(nlas, 10, wide) == s.outBps
  {
    hide StatNlas, StatIn;
    StatReadsBack(s, wide, 5, wide, s.cps);
    StatReadsBack(s, wide, 6, wide, s.inPps);
    StatReadsBack(s, wide, 7, wide, s.outPps);
    StatReadsBack(s, wide, 8, wide, s.inBps);
    StatReadsBack(s, wide, 9, wide, s.outBps);
  }

  /** A service as the kernel sends it: an IPv4 TCP service with its scheduler and both forms of statistics. */
  lemma {:induction false} ServiceRoundTrip(a: bytes, high: byte, low: byte, sched: bytes, wide: Stats, narrow: Stats,
        v6: V6)
    requires |a| == 4 && 0 !in sched && FitsNla(sched + [0]) && FitsStats(narrow, false)
    ensures ServiceOf([Nla(1, [2, 0]), Nla(2, [6, 0]), Nla(3, a), Nla(4, [high, low]), Nla(6, sched + [0]),
                       Nla(12, EncodeStats(wide, true)), Nla(10, EncodeStats(narrow, false))], v6)
         == Service(ServiceKey("tcp", ShowV4(a), Numeral(256 * high + low, 10)), LossyText(sched), wide)
    ensures ServiceOf([Nla(1, [2, 0]), Nla(2, [6, 0]), Nla(3, a), Nla(4, [high, low]),
                       Nla(10, EncodeStats(narrow, false))], v6)
         == Service(ServiceKey("tcp", ShowV4(a), Numeral(256 * high + low, 10)), "unknown", narrow)
  {
    hide Attrs, EncodeStats, StatsIn, KeyOf, ToLE, Last, ShowV4, Numeral, CString, LossyText;
    var full := [Nla(1, [2, 0]), Nla(2, [6, 0]), Nla(3, a), Nla(4, [high, low]), Nla(6, sched + [0]),
                 Nla(12, EncodeStats(wide, true)), Nla(10, EncodeStats(narrow, false))];
    var plain := [Nla(1, [2, 0]), Nla(2, [6, 0]), Nla(3, a), Nla(4, [high, low]),
                  Nla(10, EncodeStats(narrow, false))];
    TcpKey(full, a, high, low, v6);
    TcpKey(plain, a, high, low, v6);
    StatsRoundTrip(wide, true);
    StatsRoundTrip(narrow, false);
    OnlyLast(full, 4);
    OnlyLast(full, 5);
    OnlyLast(plain, 4);
    LastMeans(plain, IPVS_SVC_ATTR_SCHED_NAME);
    LastMeans(plain, IPVS_SVC_ATTR_STATS64);
    CStringMeans(sched, []);
    assert sched + [0] + [] == sched + [0];
  }

  lemma {:induction false} TcpKey(nlas: seq<Nla>, a: bytes, high: byte, low: byte, v6: V6)
    requires |a| == 4 && |nlas| >= 4 && nlas[..4] == [Nla(1, [2, 0]), Nla(2, [6, 0]), Nla(3, a), Nla(4, [high, low])]
    requires forall j :: 4 <= j < |nlas| ==> nlas[j].ty > 5
    ensures KeyOf(nlas, v6) == ServiceKey("tcp", ShowV4(a), Numeral(256 * high + low, 10))
  {
    hide Last, ReadLE, ReadBE, ShowV4, Numeral;
    assert nlas[0] == nlas[..4][0] && nlas[1] == nlas[..4][1] && nlas[2] == nlas[..4][2] && nlas[3] == nlas[..4][3];
    OnlyLast(nlas, 0);
    OnlyLast(nlas, 1);
    OnlyLast(nlas, 2);
    OnlyLast(nlas, 3);
    LastMeans(nlas, IPVS_SVC_ATTR_FWMARK);
    TwoRead(2, 0);
    TwoRead(6, 0);
    TwoRead(high, low);
    assert a[..4] == a;
  }

  lemma {:induction false} TwoRead(a: byte, b: byte)
    ensures ReadU16([a, b]) == Some(a + 256 * b) && ReadU16BE([a, b]) == Some(256 * a + b)
  {
    assert [a, b][..2] == [a, b];
    OctetWeights(a, b, 0, 0);
  }

  /** What is not said: IPv4, protocol zero, no address, port zero, unknown scheduler, no statistics. */
  lemma {:induction false} DefaultsInText(a: bytes, v6: V6)
    requires |a| == 4
    ensures ServiceOf([], v6) == Service(ServiceKey("unknown", "", "0"), "unknown", Stats(0, 0, 0, 0, 0, 0, 0, 0, 0, 0))
    ensures KeyOf([Nla(3, a)], v6) == ServiceKey("unknown", ShowV4(a), "0")
  {
    hide ShowV4;
    assert Numeral(0, 10) == [DigitChar(0)] == "0";
    assert [Nla(3, a)][..0] == [] && a[..4] == a;
  }

  /** What is too short to read counts as zero: a mark, a statistic of either width. */
  lemma {:induction false} ShortInText(short: bytes, ty: nat, wide: bool, v6: V6)
    requires |short| < 4
    ensures KeyOf([Nla(5, short)], v6) == ServiceKey("unknown", "", "0")
    ensures StatIn([Nla(ty, short)], ty, wide) == StatIn([], ty, wide) == 0
  {
    hide Last;
    LastMeans([Nla(5, short)], 1);
    LastMeans([Nla(5, short)], 2);
    LastMeans([Nla(5, short)], 3);
    LastMeans([Nla(5, short)], 4);
    OnlyLast([Nla(5, short)], 0);
    OnlyLast([Nla(ty, short)], 0);
    LastMeans([], ty);
    assert Numeral(0, 10) == [DigitChar(0)] == "0";
  }
}
