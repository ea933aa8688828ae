/** The drop-monitor listener of crates/nlx-netlink/src/collectors/drop_monitor.rs: summary alerts
    accumulated into two shared counters over an endless stream of datagrams. */
module DropMonitor {
  import opened Wrappers
  import opened Bytes
  import opened Wire
  import opened Framing
  import opened Dump

  const NET_DM_CMD_ALERT: byte := 1
  const NET_DM_ATTR_ALERT_UNSPEC: u16 := 0
  const NET_DM_ATTR_HW_ENTRIES: u16 := 17
  const NET_DM_ATTR_HW_ENTRY: u16 := 18
  const NET_DM_ATTR_HW_TRAP_COUNT: u16 := 19
  const NET_DM_DROP_POINT_LEN: nat := 12
  const LISTENER_BUF_LEN: nat := 64 * 1024

  // ---- The counts an alert carries ----

  /** The complete points of a payload, never more than the announced number. */
  function PointCount(p: bytes): nat
    requires 4 <= |p|
  {
    Min(ReadU32(p).value, (|p| - 4) / NET_DM_DROP_POINT_LEN)
  }

  /** The count of point i: the four octets behind its eight-octet address. */
  function PointAt(p: bytes, i: nat): u32
    requires 4 + (i + 1) * NET_DM_DROP_POINT_LEN <= |p|
  {
    ReadU32(p[4 + i * NET_DM_DROP_POINT_LEN + 8..]).value
  }

  function PointSum(p: bytes, n: nat): (r: nat)
    requires 4 + n * NET_DM_DROP_POINT_LEN <= |p|
    ensures r <= n * U32
  {
    if n == 0 then 0 else PointSum(p, n - 1) + PointAt(p, n - 1)
  }

  function SwIn(a: Nla): nat {
    if a.ty == NET_DM_ATTR_ALERT_UNSPEC && 4 <= |a.payload| then PointSum(a.payload, PointCount(a.payload)) else 0
  }

  /** Software drops of an alert: the counts of all its point lists. */
  function SwOf(nlas: seq<Nla>): nat {
    if nlas == [] then 0 else SwOf(nlas[..|nlas| - 1]) + SwIn(nlas[|nlas| - 1])
  }

  function TrapIn(a: Nla): nat {
    if a.ty == NET_DM_ATTR_HW_TRAP_COUNT then ReadU32(a.payload).GetOr(0) else 0
  }

  function TrapSum(nlas: seq<Nla>): nat {
    if nlas == [] then 0 else TrapSum(nlas[..|nlas| - 1]) + TrapIn(nlas[|nlas| - 1])
  }

  /** Hardware drops of an alert: the trap counts inside the entries of its entry lists. */
  function HwOf(nlas: seq<Nla>): nat {
    EntrySum(Inner(nlas, NET_DM_ATTR_HW_ENTRIES))
  }

  function Saturated(x: nat): u64 {
    if x < U64 then x else U64_MAX
  }

  lemma {:induction false} SumsAppend(a: seq<Nla>, b: seq<Nla>)
    ensures SwOf(a + b) == SwOf(a) + SwOf(b)
    ensures TrapSum(a + b) == TrapSum(a) + TrapSum(b)
  {
    if b == [] {
      assert a + b == a;
    } else {
      assert (a + b)[..|a + b| - 1] == a + b[..|b| - 1];
      SumsAppend(a, b[..|b| - 1]);
    }
  }

  lemma {:induction false} SumsStep(nlas: seq<Nla>, i: nat)
    requires i < |nlas|
    ensures SwOf(nlas[..i + 1]) == SwOf(nlas[..i]) + SwIn(nlas[i])
    ensures TrapSum(nlas[..i + 1]) == TrapSum(nlas[..i]) + TrapIn(nlas[i])
  {
    assert nlas[..i + 1][..i] == nlas[..i];
  }

  method SumPoints(p: bytes, start: u64) returns (sw: u64)
    requires 4 <= |p|
    ensures sw == Saturated(start + PointSum(p, PointCount(p)))
  {
    sw := start;
    var entries := ReadU32(p).value;
    for i := 0 to entries
      invariant i <= PointCount(p)
      invariant sw == Saturated(start + PointSum(p, i))
    {
      var off := 4 + i * NET_DM_DROP_POINT_LEN;
      if off + NET_DM_DROP_POINT_LEN > |p| {
        break;
      }
      var count := ReadU32(p[off + 8..]).GetOr(0);
      sw := SatAdd(sw, count);
    }
  }

  method SumTraps(entry: bytes, start: u64) returns (hw: u64)
    ensures hw == Saturated(start + TrapSum(Attrs(entry)))
  {
    hide Attrs, ReadLE;
    hw := start;
    var fields := Attrs(entry);
    assert TrapSum(fields[..0]) == 0;
    hide TrapSum;
    for i := 0 to |fields|
      invariant hw == Saturated(start + TrapSum(fields[..i]))
    {
      SumsStep(fields, i);
      if fields[i].ty == NET_DM_ATTR_HW_TRAP_COUNT {
        hw := SatAdd(hw, ReadU32(fields[i].payload).GetOr(0));
      }
    }
    assert fields[..|fields|] == fields;
  }

  /** Sums a summary alert, saturating each total at the largest 64-bit value. */
  method ParseSummaryAlert(attrsBuf: bytes) returns (sw: u64, hw: u64)
    ensures sw == Saturated(SwOf(Attrs(attrsBuf))) && hw == Saturated(HwOf(Attrs(attrsBuf)))
  {
    hide Attrs, PointSum;
    sw, hw := 0, 0;
    var attrs := Attrs(attrsBuf);
    assert SwOf(attrs[..0]) == 0 && HwOf(attrs[..0]) == 0;
    hide SwOf, HwOf, HwIn, TrapSum;
    for i := 0 to |attrs|
      invariant sw == Saturated(SwOf(attrs[..i]))
      invariant hw == Saturated(HwOf(attrs[..i]))
    {
      AlertStep(attrs, i);
      var a := attrs[i];
      if a.ty == NET_DM_ATTR_ALERT_UNSPEC {
        if |a.payload| >= 4 {
          sw := SumPoints(a.payload, sw);
        }
      } else if a.ty == NET_DM_ATTR_HW_ENTRIES {
        hw := SumEntries(a.payload, hw);
      }
    }
    assert attrs[..|attrs|] == attrs;
  }

  /** The trap counts inside the entries among a list of attributes. */
  function EntrySum(entries: seq<Nla>): nat {
    TrapSum(Inner(entries, NET_DM_ATTR_HW_ENTRY))
  }

  /** Hardware drops of one entry list. */
  function HwIn(list: bytes): nat {
    EntrySum(Attrs(list))
  }

  lemma {:induction false} AlertStep(attrs: seq<Nla>, i: nat)
    requires i < |attrs|
    ensures SwOf(attrs[..i + 1]) == SwOf(attrs[..i]) + SwIn(attrs[i])
    ensures HwOf(attrs[..i + 1]) == HwOf(attrs[..i])
            + if attrs[i].ty == NET_DM_ATTR_HW_ENTRIES then HwIn(attrs[i].payload) else 0
  {
    SumsStep(attrs, i);
    LastStep(attrs, i, NET_DM_ATTR_HW_ENTRIES);
    hide Attrs, SwOf, SwIn, TrapSum;
    var before := Inner(attrs[..i], NET_DM_ATTR_HW_ENTRIES);
    if attrs[i].ty == NET_DM_ATTR_HW_ENTRIES {
      var more := Attrs(attrs[i].payload);
      InnerAppend(before, more, NET_DM_ATTR_HW_ENTRY);
      SumsAppend(Inner(before, NET_DM_ATTR_HW_ENTRY), Inner(more, NET_DM_ATTR_HW_ENTRY));
    } else {
      assert before + [] == before;
    }
  }

  method SumEntries(list: bytes, start: u64) returns (hw: u64)
    ensures hw == Saturated(start + HwIn(list))
  {
    hide Attrs, EntrySum;
    hw := start;
    var entries := Attrs(list);
    EntriesStart(entries);
    for i := 0 to |entries|
      invariant hw == Saturated(start + EntrySum(entries[..i]))
    {
      EntryStep(entries, i);
      if entries[i].ty == NET_DM_ATTR_HW_ENTRY {
        hw := SumTraps(entries[i].payload, hw);
      }
    }
    assert entries[..|entries|] == entries;
  }

  lemma {:induction false} EntriesStart(entries: seq<Nla>)
    ensures EntrySum(entries[..0]) == 0
  {
  }

  lemma {:induction false} EntryStep(entries: seq<Nla>, i: nat)
    requires i < |entries|
    ensures EntrySum(entries[..i + 1])
         == EntrySum(entries[..i])
            + if entries[i].ty == NET_DM_ATTR_HW_ENTRY then TrapSum(Attrs(entries[i].payload)) else 0
  {
    LastStep(entries, i, NET_DM_ATTR_HW_ENTRY);
    hide Attrs, TrapSum, Inner;
    var before := Inner(entries[..i], NET_DM_ATTR_HW_ENTRY);
    if entries[i].ty == NET_DM_ATTR_HW_ENTRY {
      SumsAppend(before, Attrs(entries[i].payload));
    } else {
      assert before + [] == before;
    }
  }

  // ---- No saturation inside one datagram ----

  lemma {:induction false} SumsBounded(nlas: seq<Nla>)
    ensures SwOf(nlas) <= Weight(nlas) * U32 && TrapSum(nlas) <= Weight(nlas) * U32
  {
    if nlas != [] {
      SumsBounded(nlas[..|nlas| - 1]);
      WeightAppend(nlas[..|nlas| - 1], [nlas[|nlas| - 1]]);
      assert nlas == nlas[..|nlas| - 1] + [nlas[|nlas| - 1]];
    }
  }

  /** An alert that fits the listener's buffer cannot reach the saturation bound, so its totals are exact sums. */
  lemma {:induction false} AlertTotalsExact(attrsBuf: bytes)
    requires |attrsBuf| <= LISTENER_BUF_LEN
    ensures SwOf(Attrs(attrsBuf)) < U64 && HwOf(Attrs(attrsBuf)) < U64
  {
    var attrs := Attrs(attrsBuf);
    SumsBounded(attrs);
    InnerWeight(attrs, NET_DM_ATTR_HW_ENTRIES);
    InnerWeight(Inner(attrs, NET_DM_ATTR_HW_ENTRIES), NET_DM_ATTR_HW_ENTRY);
    SumsBounded(Inner(Inner(attrs, NET_DM_ATTR_HW_ENTRIES), NET_DM_ATTR_HW_ENTRY));
  }

  // ---- What a stream of events adds up to ----

  /** A complete alert of the family; every other message counts nothing. */
  predicate IsAlert(m: Msg, family: u16) {
    m.ty == family && 4 <= |m.payload| && m.payload[0] == NET_DM_CMD_ALERT
  }

  datatype Tally = Tally(sw: nat, hw: nat) {
    function Plus(t: Tally): Tally {
      Tally(sw + t.sw, hw + t.hw)
    }
  }

  function MsgTally(m: Msg, family: u16): Tally {
    if IsAlert(m, family) then Tally(SwOf(Attrs(m.payload[4..])), HwOf(Attrs(m.payload[4..]))) else Tally(0, 0)
  }

  function MsgsTally(msgs: seq<Msg>, family: u16): Tally {
    if msgs == [] then Tally(0, 0) else MsgTally(msgs[0], family).Plus(MsgsTally(msgs[1..], family))
  }

  /** The drops reported by a trace: the alerts of its datagrams, each cut to the buffer. Overflows and errors
      add nothing. */
  function EventsTally(events: seq<Event>, family: u16): Tally {
    if events == [] then Tally(0, 0)
    else EventTally(events[0], family).Plus(EventsTally(events[1..], family))
  }

  function EventTally(e: Event, family: u16): Tally {
    if e.Datagram? then MsgsTally(Frame(Clip(e.data, LISTENER_BUF_LEN)).msgs, family) else Tally(0, 0)
  }

  lemma {:induction false} EventsTallyAppend(a: seq<Event>, b: seq<Event>, family: u16)
    ensures EventsTally(a + b, family) == EventsTally(a, family).Plus(EventsTally(b, family))
  {
    hide EventTally;
    if a == [] {
      assert a + b == b;
    } else {
      assert (a + b)[1..] == a[1..] + b;
      EventsTallyAppend(a[1..], b, family);
    }
  }

  class DropCounters {
    var sw: u64
    var hw: u64

    constructor ()
      ensures sw == 0 && hw == 0
    {
      sw, hw := 0, 0;
    }

    /** Both counters moved from the given values by a tally, modulo 2^64. */
    ghost predicate Counted(sw0: u64, hw0: u64, t: Tally)
      reads this
    {
      Moved(sw0, hw0, t, sw, hw)
    }

    /** Walks the messages of one datagram and adds the alerts of the family to the counters. */
    method CountDatagram(data: bytes, family: u16)
      requires |data| <= LISTENER_BUF_LEN
      modifies this
      ensures Counted(old(sw), old(hw), MsgsTally(Frame(data).msgs, family))
    {
      hide StepAt, Frame, MsgsTally, Attrs, SwOf, HwOf, Wrapped;
      var pos := 0;
      assert Drop(data, 0) == data;
      ghost var t := TallyFrom(data, 0, family);
      ghost var left := t;
      while pos + NLMSG_HDRLEN <= |data|
        invariant left == TallyFrom(data, pos, family)
        invariant Wrapped(sw + left.sw) == Wrapped(old(sw) + t.sw)
        invariant Wrapped(hw + left.hw) == Wrapped(old(hw) + t.hw)
        decreases |data| - pos
      {
        StepTally(data, pos, family);
        var step := StepAt(data, pos);
        if !step.Message? {
          break;
        }
        var m := step.msg;
        left := TallyFrom(data, step.next, family);
        if IsAlert(m, family) {
          AlertTotalsExact(m.payload[4..]);
          var s, h := ParseSummaryAlert(m.payload[4..]);
          WrappedTwice(sw, s, left.sw);
          WrappedTwice(hw, h, left.hw);
          if s > 0 {
            sw := Wrapped(sw + s);
          }
          if h > 0 {
            hw := Wrapped(hw + h);
          }
        }
        pos := step.next;
      }
      StepTally(data, pos, family);
      WrappedTwice(sw, 0, 0);
      WrappedTwice(hw, 0, 0);
    }

    /** One receive of the listener, and what it adds. */
    method RecvOne(kernel: Kernel, buf: array<byte>, family: u16) returns (r: RecvResult)
      requires buf.Length == LISTENER_BUF_LEN
      modifies this, kernel, buf
      ensures kernel.host.events == Rest(old(kernel.host).events)
      ensures r == Waiting <==> old(kernel.host).events == []
      ensures r == Waiting ==> sw == old(sw) && hw == old(hw)
      ensures old(kernel.host).events != [] ==>
                (r == RecvError <==> old(kernel.host).events[0] == RecvFailed)
                && Counted(old(sw), old(hw), EventTally(old(kernel.host).events[0], family))
    {
      hide Frame, MsgsTally, Clip, Wrapped;
      WrappedTwice(sw, 0, 0);
      WrappedTwice(hw, 0, 0);
      r := kernel.Recv(buf);
      if r.Received? {
        CountDatagram(buf[..Min(r.n, buf.Length)], family);
      }
    }

    /** Receives until an error ends the loop or nothing more comes; overflows are skipped. */
    method RecvLoop(kernel: Kernel, family: u16) returns (failed: bool, ghost used: nat)
      modifies this, kernel
      ensures used <= |old(kernel.host).events| && kernel.host.events == old(kernel.host).events[used..]
      ensures if failed then used > 0 else kernel.host.events == []
      ensures Counted(old(sw), old(hw), EventsTally(old(kernel.host).events[..used], family))
    {
      hide EventTally;
      var buf := new byte[LISTENER_BUF_LEN];
      ghost var events := kernel.host.events;
      used := 0;
      NothingCounted(events, family);
      hide EventsTally, Moved;
      while true
        invariant fresh(buf) && buf.Length == LISTENER_BUF_LEN
        invariant used <= |events| && kernel.host.events == events[used..]
        invariant Counted(old(sw), old(hw), EventsTally(events[..used], family))
        decreases |kernel.host.events|
      {
        ghost var sw1, hw1 := sw, hw;
        var got := RecvOne(kernel, buf, family);
        if got == Waiting {
          return false, used;
        }
        EventsTallyStep(events, used, family);
        MovedTwice(old(sw), old(hw), EventsTally(events[..used], family), sw1, hw1, EventTally(events[used], family),
                   sw, hw);
        used := used + 1;
        if got == RecvError {
          return true, used;
        }
      }
    }

    /** The listener thread: re-enters the receive loop after every error. Over any trace of datagrams, overflows and
        errors, each counter ends at its start plus the exact sum of all alerts of the family, modulo 2^64. */
    method Listen(kernel: Kernel, family: u16)
      modifies this, kernel
      ensures kernel.host.events == []
      ensures Counted(old(sw), old(hw), EventsTally(old(kernel.host).events, family))
    {
      ghost var events := kernel.host.events;
      ghost var used: nat := 0;
      NothingCounted(events, family);
      hide *;
      while true
        invariant used <= |events| && kernel.host.events == events[used..]
        invariant Counted(old(sw), old(hw), EventsTally(events[..used], family))
        decreases |events| - used
      {
        ghost var sw1, hw1, left := sw, hw, events[used..];
        var failed;
        ghost var n;
        failed, n := RecvLoop(kernel, family);
        assert n <= |left| && kernel.host.events == left[n..];
        MoreCounted(old(sw), old(hw), events, used, sw1, hw1, n, family);
        used := used + n;
        assert kernel.host.events == events[used..];
        if !failed {
          break;
        }
      }
      assert used == |events| && events[..used] == events;
    }

    lemma {:induction false} MoreCounted(sw0: u64, hw0: u64, events: seq<Event>, used: nat, sw1: u64, hw1: u64, n: nat,
          family: u16)
      requires used + n <= |events|
      requires Moved(sw0, hw0, EventsTally(events[..used], family), sw1, hw1)
      requires Counted(sw1, hw1, EventsTally(events[used..][..n], family))
      ensures Counted(sw0, hw0, EventsTally(events[..used + n], family))
      ensures events[used..][n..] == events[used + n..]
    {
      hide EventsTally, Moved;
      EventsTallyExtend(events, used, n, family);
      MovedTwice(sw0, hw0, EventsTally(events[..used], family), sw1, hw1, EventsTally(events[used..][..n], family), sw,
                 hw);
    }

    lemma {:induction false} NothingCounted(events: seq<Event>, family: u16)
      ensures Counted(sw, hw, EventsTally(events[..0], family))
    {
    }
  }

  lemma {:induction false} EventsTallyExtend(events: seq<Event>, used: nat, n: nat, family: u16)
    requires used + n <= |events|
    ensures events[used..][n..] == events[used + n..]
    ensures EventsTally(events[..used + n], family)
         == EventsTally(events[..used], family).Plus(EventsTally(events[used..][..n], family))
  {
    hide EventsTally;
    EventsTallyAppend(events[..used], events[used..][..n], family);
    assert events[..used + n] == events[..used] + events[used..][..n];
  }

  ghost predicate Moved(sw0: u64, hw0: u64, t: Tally, sw1: u64, hw1: u64) {
    sw1 == Wrapped(sw0 + t.sw) && hw1 == Wrapped(hw0 + t.hw)
  }

  lemma {:induction false} MovedTwice(sw0: u64, hw0: u64, t: Tally, sw1: u64, hw1: u64, d: Tally, sw2: u64, hw2: u64)
    requires Moved(sw0, hw0, t, sw1, hw1) && Moved(sw1, hw1, d, sw2, hw2)
    ensures Moved(sw0, hw0, t.Plus(d), sw2, hw2)
  {
    WrappedTwice(sw0, t.sw, d.sw);
    WrappedTwice(hw0, t.hw, d.hw);
  }

  lemma {:induction false} EventsTallyStep(events: seq<Event>, i: nat, family: u16)
    requires i < |events|
    ensures EventsTally(events[..i + 1], family)
         == EventsTally(events[..i], family).Plus(EventTally(events[i], family))
  {
    hide EventTally;
    assert events[..i + 1] == events[..i] + [events[i]];
    EventsTallyAppend(events[..i], [events[i]], family);
    assert EventsTally([events[i]][1..], family) == Tally(0, 0);
  }

  ghost function TallyFrom(data: bytes, pos: nat, family: u16): Tally {
    MsgsTally(Frame(Drop(data, pos)).msgs, family)
  }

  lemma {:induction false} StepTally(data: bytes, pos: nat, family: u16)
    ensures var step := StepAt(data, pos);
            var here := TallyFrom(data, pos, family);
            if step.Message? then
              && pos < step.next && |step.msg.payload| <= |data|
              && here == MsgTally(step.msg, family).Plus(TallyFrom(data, step.next, family))
            else here == Tally(0, 0)
    ensures pos + NLMSG_HDRLEN > |data| ==> StepAt(data, pos).Exhausted?
  {
    hide MsgTally;
    StepMeans(data, pos);
    if StepAt(data, pos).Message? {
      var here := Drop(data, pos);
      var msgs := Frame(here).msgs;
      assert msgs[1..] == Frame(TailMsgs(here)).msgs;
    }
  }

  // ---- Alerts as the kernel builds them ----

  datatype Point = Point(pc: bytes, count: u32)

  function EncodePoints(ps: seq<Point>): bytes {
    if ps == [] then [] else EncodePoints(ps[..|ps| - 1]) + ps[|ps| - 1].pc + ToLE(ps[|ps| - 1].count, 4)
  }

  function EncodeTraps(counts: seq<u32>): bytes {
    if counts == [] then []
    else EncodeNla(18, EncodeNla(19, ToLE(counts[0], 4))) + EncodeTraps(counts[1..])
  }

  function SumPointCounts(ps: seq<Point>): nat {
    if ps == [] then 0 else SumPointCounts(ps[..|ps| - 1]) + ps[|ps| - 1].count
  }

  function SumCounts(counts: seq<u32>): nat {
    if counts == [] then 0 else counts[0] + SumCounts(counts[1..])
  }

  predicate WellSized(ps: seq<Point>) {
    forall i :: 0 <= i < |ps| ==> |ps[i].pc| == 8
  }

  lemma {:induction false} EncodedPointsLength(ps: seq<Point>)
    requires WellSized(ps)
    ensures |EncodePoints(ps)| == |ps| * NET_DM_DROP_POINT_LEN
  {
    hide ToLE;
    if ps != [] {
      EncodedPointsLength(ps[..|ps| - 1]);
    }
  }

  lemma {:induction false} PointBehind(front: bytes, i: nat, pc: bytes, count: u32, rest: bytes)
    requires |front| == 4 + i * NET_DM_DROP_POINT_LEN && |pc| == 8
    ensures PointAt(front + pc + ToLE(count, 4) + rest, i) == count
  {
    hide ToLE, ReadLE;
    var p := front + pc + ToLE(count, 4) + rest;
    assert p[|front| + 8..] == ToLE(count, 4) + rest;
    RadixValues();
    ReadersInvertWriters(count, 4, rest);
  }

  lemma {:induction false} EncodedPoints(ps: seq<Point>, head: bytes, rest: bytes)
    requires WellSized(ps) && |head| == 4
    ensures |EncodePoints(ps)| == |ps| * NET_DM_DROP_POINT_LEN
    ensures PointSum(head + EncodePoints(ps) + rest, |ps|) == SumPointCounts(ps)
  {
    hide ToLE, ReadLE, PointAt;
    EncodedPointsLength(ps);
    if ps != [] {
      var last := ps[|ps| - 1];
      var init := ps[..|ps| - 1];
      var tail := last.pc + ToLE(last.count, 4) + rest;
      EncodedPoints(init, head, tail);
      var front := head + EncodePoints(init);
      assert head + EncodePoints(ps) + rest == front + last.pc + ToLE(last.count, 4) + rest == front + tail;
      PointBehind(front, |init|, last.pc, last.count, rest);
    }
  }

  lemma {:induction false} EncodedTraps(counts: seq<u32>)
    ensures TrapSum(Inner(Attrs(EncodeTraps(counts)), NET_DM_ATTR_HW_ENTRY)) == SumCounts(counts)
  {
    if counts == [] {
      assert Attrs([]) == [];
    } else {
      hide ToLE, ReadLE, Attrs, EncodeNla;
      var inner := EncodeNla(NET_DM_ATTR_HW_TRAP_COUNT, ToLE(counts[0], 4));
      AttrsOfEncoded(NET_DM_ATTR_HW_TRAP_COUNT, ToLE(counts[0], 4), []);
      assert inner + [] == inner;
      AttrsOfNothing();
      AttrsOfEncoded(NET_DM_ATTR_HW_ENTRY, inner, EncodeTraps(counts[1..]));
      RadixValues();
      ReadersInvertWriters(counts[0], 4, []);
      assert ToLE(counts[0], 4) + [] == ToLE(counts[0], 4);
      var entry := Nla(NET_DM_ATTR_HW_ENTRY, inner);
      var rest := Attrs(EncodeTraps(counts[1..]));
      InnerAppend([entry], rest, NET_DM_ATTR_HW_ENTRY);
      assert Inner([entry], NET_DM_ATTR_HW_ENTRY) == [Nla(NET_DM_ATTR_HW_TRAP_COUNT, ToLE(counts[0], 4))];
      SumsAppend(Inner([entry], NET_DM_ATTR_HW_ENTRY), Inner(rest, NET_DM_ATTR_HW_ENTRY));
      EncodedTraps(counts[1..]);
    }
  }

  /** The attributes of an alert: its points, and its hardware entries. */
  function EncodeAlert(ps: seq<Point>, counts: seq<u32>): bytes {
    EncodeNla(0, ToLE(|ps| % U32, 4) + EncodePoints(ps)) + EncodeNla(17, EncodeTraps(counts))
  }

  /** An alert in the kernel's layout is read as exactly the sum of its point counts and the sum of its trap counts. */
  lemma {:induction false} AlertRoundTrip(ps: seq<Point>, counts: seq<u32>)
    requires WellSized(ps) && |ps| < U32
    requires FitsNla(ToLE(|ps|, 4) + EncodePoints(ps)) && FitsNla(EncodeTraps(counts))
    ensures var attrs := Attrs(EncodeAlert(ps, counts));
            SwOf(attrs) == SumPointCounts(ps) && HwOf(attrs) == SumCounts(counts)
  {
    hide ToLE, ReadLE, Attrs, EncodeNla, EncodePoints, EncodeTraps, PointSum, SwOf, HwOf;
    var points, traps := ToLE(|ps|, 4) + EncodePoints(ps), EncodeTraps(counts);
    var a, b := Nla(NET_DM_ATTR_ALERT_UNSPEC, points), Nla(NET_DM_ATTR_HW_ENTRIES, traps);
    AttrsOfTwo(NET_DM_ATTR_ALERT_UNSPEC, points, NET_DM_ATTR_HW_ENTRIES, traps);
    EncodedTraps(counts);
    EncodedPoints(ps, ToLE(|ps|, 4), []);
    assert points + [] == points;
    RadixValues();
    ReadersInvertWriters(|ps|, 4, EncodePoints(ps));
    assert PointCount(points) == |ps|;
    TwoAttributes(a, b);
  }

  lemma {:induction false} TwoAttributes(a: Nla, b: Nla)
    requires a.ty == NET_DM_ATTR_ALERT_UNSPEC && b.ty == NET_DM_ATTR_HW_ENTRIES
    ensures SwOf([a] + [b]) == SwIn(a) && HwOf([a] + [b]) == HwIn(b.payload)
  {
    hide Attrs, PointSum, TrapSum;
    SumsAppend([a], [b]);
    InnerAppend([a], [b], NET_DM_ATTR_HW_ENTRIES);
    assert Inner([b], NET_DM_ATTR_HW_ENTRIES) == [] + Attrs(b.payload);
    assert [] + ([] + Attrs(b.payload)) == Attrs(b.payload);
  }

  /** An alert message moves the software total by the counts of its points and the hardware total by its trap
      counts. */
  lemma {:induction false} AlertCounts(ps: seq<Point>, counts: seq<u32>, family: u16, flags: u16, genl: bytes)
    requires WellSized(ps) && |ps| < U32 && |genl| == 3
    requires FitsNla(ToLE(|ps|, 4) + EncodePoints(ps)) && FitsNla(EncodeTraps(counts))
    ensures MsgTally(Msg(family, flags, [1] + genl + EncodeAlert(ps, counts)), family)
         == Tally(SumPointCounts(ps), SumCounts(counts))
  {
    hide EncodeAlert, SwOf, HwOf, Attrs, EncodePoints, EncodeTraps, ToLE;
    AlertRoundTrip(ps, counts);
    var payload := [1] + genl + EncodeAlert(ps, counts);
    assert payload[4..] == EncodeAlert(ps, counts) && payload[0] == 1;
  }

  /** So does a datagram of at most 64 KiB that holds the alert: the listener's software counter moves by the counts of
      the points and its hardware counter by the trap counts. */
  lemma {:induction false} AlertDatagramCounts(ps: seq<Point>, counts: seq<u32>, family: u16, genl: bytes, w: Wired,
        padLast: bool)
    requires WellSized(ps) && |ps| < U32 && |genl| == 3
    requires FitsNla(ToLE(|ps|, 4) + EncodePoints(ps)) && FitsNla(EncodeTraps(counts))
    requires w.msg.ty == family && w.msg.payload == [1] + genl + EncodeAlert(ps, counts)
    requires FitsMsg(w.msg) && |EncodeDatagram([w], padLast)| <= 65536
    ensures EventTally(Datagram(EncodeDatagram([w], padLast)), family) == Tally(SumPointCounts(ps), SumCounts(counts))
  {
    hide EncodeAlert, EncodeDatagram, Frame, MsgTally, EncodePoints, EncodeTraps, ToLE;
    FramePacked([w], padLast);
    AlertCounts(ps, counts, family, w.msg.flags, genl);
    assert [w][1..] == [] && [w.msg][1..] == [];
    assert Msgs([w]) == [w.msg];
    assert MsgsTally([w.msg], family) == MsgTally(w.msg, family).Plus(MsgsTally([w.msg][1..], family));
  }

  /** Nothing else counts: another type, another command, or no whole generic header. */
  lemma {:induction false} OthersDoNotCount(m: Msg, family: u16)
    requires m.ty != family || |m.payload| < 4 || m.payload[0] != 1
    ensures MsgTally(m, family) == Tally(0, 0)
  {
  }

  /** Nor do an overflow, a failing receive, attributes of other types, and counts too short to read; and what a
      datagram holds beyond 64 KiB is not received. */
  lemma {:induction false} NothingToCount(family: u16, a: Nla, datagram: bytes)
    ensures EventTally(Enobufs, family) == EventTally(RecvFailed, family) == Tally(0, 0)
    ensures a.ty != 0 || |a.payload| < 4 ==> SwIn(a) == 0
    ensures a.ty != 19 || |a.payload| < 4 ==> TrapIn(a) == 0
    ensures |datagram| > 65536 ==>
              EventTally(Datagram(datagram), family) == EventTally(Datagram(datagram[..65536]), family)
  {
    hide Frame, MsgsTally;
  }

  /** The announced number of points is a bound, not a promise: only whole points count, and no more than announced. */
  lemma {:induction false} PointsAnnounced(ps: seq<Point>, n: nat, torn: bytes)
    requires WellSized(ps) && n < U32 && |torn| < 12
    ensures SwIn(Nla(0, ToLE(n, 4) + EncodePoints(ps) + torn)) == SumPointCounts(ps[..Min(n, |ps|)])
  {
    hide ToLE, ReadLE, EncodePoints, PointSum;
    var k := Min(n, |ps|);
    var p := ToLE(n, 4) + EncodePoints(ps) + torn;
    EncodedPointsLength(ps);
    RadixValues();
    ReadersInvertWriters(n, 4, EncodePoints(ps) + torn);
    assert p == ToLE(n, 4) + (EncodePoints(ps) + torn);
    assert PointCount(p) == k;
    PointsSplit(ps, k);
    EncodedPoints(ps[..k], ToLE(n, 4), EncodePoints(ps[k..]) + torn);
    assert p == ToLE(n, 4) + EncodePoints(ps[..k]) + (EncodePoints(ps[k..]) + torn);
  }

  lemma {:induction false} PointsSplit(ps: seq<Point>, k: nat)
    requires k <= |ps|
    ensures EncodePoints(ps) == EncodePoints(ps[..k]) + EncodePoints(ps[k..])
  {
    hide ToLE;
    if k == |ps| {
      assert ps[..k] == ps && EncodePoints(ps[k..]) == [] && EncodePoints(ps) + [] == EncodePoints(ps);
    } else {
      var n := |ps| - 1;
      PointsSplit(ps[..n], k);
      assert ps[..n][..k] == ps[..k] && ps[..n][k..] == ps[k..][..|ps[k..]| - 1] && ps[k..][|ps[k..]| - 1] == ps[n];
    }
  }
}
