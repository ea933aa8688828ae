/** Sockets over many dumps: `NetlinkSocket::dump`, the restart loops of the collectors, and single requests. */
module Sockets {
  import opened Wrappers
  import opened Bytes
  import opened Framing
  import opened Dump
  import Wire

  const MAX_DUMP_RESTARTS: nat := 8

  const NLM_F_DUMP: u16 := NLM_F_ROOT + NLM_F_MATCH

  /** `flags | NLM_F_DUMP` */
  function DumpFlags(flags: u16): u16 {
    WithBit(WithBit(flags, NLM_F_ROOT), NLM_F_MATCH) % U16
  }

  /** The two dump bits are set and no other bit is touched. */
  lemma {:induction false} DumpFlagsMean(high: nat, bits: nat, low: nat)
    requires bits < 4 && low < 0x100 && 0x400 * high + 0x100 * bits + low < 0x1_0000
    ensures DumpFlags(0x400 * high + 0x100 * bits + low) == 0x400 * high + 0x300 + low
    ensures HasBit(0x400 * high + 0x300 + low, 0x100) && HasBit(0x400 * high + 0x300 + low, 0x200)
  {
    hide HasBit;
    BitsAt(high, low);
  }

  lemma {:induction false} BitsAt(high: nat, low: nat)
    requires low < 0x100
    ensures !HasBit(0x400 * high + low, 0x100) && HasBit(0x400 * high + 0x100 + low, 0x100)
    ensures !HasBit(0x400 * high + 0x200 + low, 0x100) && HasBit(0x400 * high + 0x300 + low, 0x100)
    ensures !HasBit(0x400 * high + 0x100 + low, 0x200) && HasBit(0x400 * high + 0x300 + low, 0x200)
  {
    hide HasBit;
    BitAmongOthers(0x100, 2 * high, low);
    BitAmongOthers(0x100, 2 * high + 1, low);
    BitAmongOthers(0x200, high, 0x100 + low);
  }

  // ---- The receive-buffer bookkeeping ----

  /** The sizes a socket ever records. */
  predicate KnownSize(size: nat) {
    size == 4_194_304 || size == 8_388_608 || size == 16_777_216
  }

  /** The recorded size follows the kernel's, except that a dump that fails after growing leaves it one
      doubling behind. */
  predicate SizesAgree(size: nat, soRcvbuf: nat) {
    KnownSize(size) && (soRcvbuf == size || (size < MAX_RCVBUF && soRcvbuf == 2 * size))
  }

  /** The size a socket records after a dump: only a successful one reports back. */
  function Recorded(size: nat, outcome: Outcome): nat {
    if outcome.Frames? then outcome.rcvbuf else size
  }

  /** Over every trace: a dump keeps the sizes in step, never shrinks either of them, grows by at most one doubling,
      and at the maximum reports the first overflow without sending again. */
  lemma {:induction false} DumpKeepsSizes(h: Host, size: nat, request: bytes)
    requires SizesAgree(size, h.soRcvbuf)
    ensures var run := DumpFrom(h, size, request, false);
            && SizesAgree(Recorded(size, run.outcome), run.host.soRcvbuf)
            && h.soRcvbuf <= run.host.soRcvbuf
            && (Recorded(size, run.outcome) == size || (size < MAX_RCVBUF && Recorded(size, run.outcome) == 2 * size))
            && (size == MAX_RCVBUF && NextOk(h.sendOutcomes) && Receive(h.events).result.Overflowed? ==>
                  run.outcome == Failure(RecvBufOverflow) && |run.host.sent| == |h.sent| + 1)
  {
    hide Receive;
    var h1 := AfterSend(h, request);
    if NextOk(h.sendOutcomes) {
      var a := Receive(h.events);
      var h2 := h1.(events := h.events[a.used..]);
      assert DumpFrom(h, size, request, false) == AfterReceive(h2, a.result, size, request, false);
      if a.result.Overflowed? && Doubled(size) != size && NextOk(h.growOutcomes) {
        SecondDumpSize(AfterGrow(h2, Doubled(size)), Doubled(size), request);
      }
    }
  }

  /** The second attempt of a dump succeeds: its send does, and what is left completes it. */
  predicate SecondCompletes(h: Host) {
    NextOk(Rest(h.sendOutcomes)) && Receive(h.events[Receive(h.events).used..]).result.Complete?
  }

  /** From sizes that agree, a dump leaves the recorded size behind the kernel's exactly when it grew the buffer after
      an overflow and the second attempt did not succeed. */
  lemma {:induction false} RecordedFallsBehindIff(h: Host, size: nat, request: bytes)
    requires h.soRcvbuf == size
    ensures var run := DumpFrom(h, size, request, false);
            run.host.soRcvbuf != Recorded(size, run.outcome) <==>
            && NextOk(h.sendOutcomes) && Receive(h.events).result.Overflowed?
            && Doubled(size) != size && NextOk(h.growOutcomes) && !SecondCompletes(h)
  {
    hide Receive;
    if NextOk(h.sendOutcomes) {
      var a := Receive(h.events);
      var h2 := AfterSend(h, request).(events := h.events[a.used..]);
      assert DumpFrom(h, size, request, false) == AfterReceive(h2, a.result, size, request, false);
      if a.result.Overflowed? && Doubled(size) != size && NextOk(h.growOutcomes) {
        SecondDumpSize(AfterGrow(h2, Doubled(size)), Doubled(size), request);
      }
    }
  }

  /** It happens: one overflow, then an error. */
  lemma {:induction false} RecordedFallsBehind(request: bytes)
    ensures var h := Host([Enobufs, RecvFailed], [], [], [], MIN_RCVBUF);
            var run := DumpFrom(h, MIN_RCVBUF, request, false);
            Recorded(MIN_RCVBUF, run.outcome) == MIN_RCVBUF && run.host.soRcvbuf == 2 * MIN_RCVBUF
  {
    var h := Host([Enobufs, RecvFailed], [], [], [], MIN_RCVBUF);
    assert Receive(h.events) == Attempt(Overflowed, 1);
    assert h.events[1..] == [RecvFailed] && Receive([RecvFailed]) == Attempt(Broke(NetlinkError.Recv), 1);
    RecordedFallsBehindIff(h, MIN_RCVBUF, request);
    DumpKeepsSizes(h, MIN_RCVBUF, request);
  }

  lemma {:induction false} SecondDumpSize(h: Host, size: nat, request: bytes)
    ensures var run := DumpFrom(h, size, request, true);
            && run.host.soRcvbuf == h.soRcvbuf && Recorded(size, run.outcome) == size
            && (run.outcome.Frames? <==> NextOk(h.sendOutcomes) && Receive(h.events).result.Complete?)
  {
    hide Receive;
    if NextOk(h.sendOutcomes) {
      var a := Receive(h.events);
      assert DumpFrom(h, size, request, true)
          == AfterReceive(AfterSend(h, request).(events := h.events[a.used..]), a.result, size, request, true);
    }
  }

  /** A run of dumps on one socket, and how often the recorded size grew. */
  datatype Series = Series(host: Host, size: nat, growths: nat)

  function RunSeries(s: Series, requests: seq<bytes>): Series
    decreases |requests|
  {
    if requests == [] then s
    else
      var run := DumpFrom(s.host, s.size, requests[0], false);
      var size' := Recorded(s.size, run.outcome);
      RunSeries(Series(run.host, size', s.growths + if size' != s.size then 1 else 0), requests[1..])
  }

  /** Doublings that are still possible. */
  function Headroom(size: nat): nat {
    if size == MIN_RCVBUF then 2 else if size == 2 * MIN_RCVBUF then 1 else 0
  }

  /** Over every run of dumps on every trace: the recorded size stays one of the three, never shrinks,
      and grows no more often than there was headroom, so at most twice. */
  lemma {:induction false} SizesOverRuns(s: Series, requests: seq<bytes>)
    requires SizesAgree(s.size, s.host.soRcvbuf)
    ensures var e := RunSeries(s, requests);
            && SizesAgree(e.size, e.host.soRcvbuf)
            && s.size <= e.size && s.host.soRcvbuf <= e.host.soRcvbuf
            && e.growths + Headroom(e.size) == s.growths + Headroom(s.size)
    decreases |requests|
  {
    hide DumpFrom;
    if requests != [] {
      DumpKeepsSizes(s.host, s.size, requests[0]);
      var run := DumpFrom(s.host, s.size, requests[0], false);
      var size' := Recorded(s.size, run.outcome);
      SizesOverRuns(Series(run.host, size', s.growths + if size' != s.size then 1 else 0), requests[1..]);
    }
  }

  // ---- Restart loops ----

  function DumpRequest(msgType: u16, flags: u16, payload: bytes, seqno: u32): bytes {
    EncodeBare(Wired(RequestMsg(msgType, DumpFlags(flags), payload), seqno, 0))
  }

  /** A dump request as the collectors send it, octet by octet: length, type, the flags 0x301, sequence number, no port
      id, payload. */
  lemma {:induction false} RequestInOctets(t0: byte, t1: byte, payload: bytes, seqno: u32)
    requires 16 + |payload| < 0x1_0000_0000
    ensures DumpRequest(t0 + 256 * t1, 0, payload, seqno)
         == ToLE(16 + |payload|, 4) + [t0, t1] + [0x01, 0x03] + ToLE(seqno, 4) + [0, 0, 0, 0] + payload
  {
    hide ToLE, HasBit, DumpFlags;
    TwoOctets(t0, t1);
    TwoOctets(0x01, 0x03);
    NoPortId();
    PlainDumpFlags();
  }

  lemma {:induction false} PlainDumpFlags()
    ensures DumpFlags(0) == 0x300 && !HasBit(0x300, NLM_F_REQUEST)
  {
  }

  lemma {:induction false} NoPortId()
    ensures ToLE(0, 4) == [0, 0, 0, 0]
  {
    assert ToLE(0, 1) == [0] + ToLE(0, 0) && ToLE(0, 2) == [0] + ToLE(0, 1) && ToLE(0, 3) == [0] + ToLE(0, 2);
  }

  lemma {:induction false} TwoOctets(a: byte, b: byte)
    ensures ToLE(a + 256 * b, 2) == [a, b]
  {
    var x: int := a;
    assert (x + 256 * b) % 256 == a && (x + 256 * b) / 256 == b;
    assert ToLE(b, 1) == [b] + ToLE(0, 0);
  }

  function NextSeq(seqno: u32): u32 {
    (seqno + 1) % U32
  }

  /** At most n dumps, each with the next sequence number, going on only while dumps are interrupted. */
  function Restarting(n: nat, h: Host, size: nat, msgType: u16, payload: bytes, seqno: u32): Run
    requires n > 0
  {
    var run := DumpFrom(h, size, DumpRequest(msgType, 0, payload, seqno), false);
    if run.outcome == Failure(DumpIntr) && n > 1 then
      Restarting(n - 1, run.host, size, msgType, payload, NextSeq(seqno))
    else run
  }

  /** A restart loop of n dumps over every trace: at least one send and at most 2n; a result holds exactly the data
      payloads received since the last send; and it gives up as interrupted only after n interrupted dumps. */
  lemma {:induction false} RestartSafety(n: nat, h: Host, size: nat, msgType: u16, payload: bytes, seqno: u32)
    requires n > 0
    ensures var run := Restarting(n, h, size, msgType, payload, seqno);
            && h.sent < run.host.sent && |run.host.sent| <= |h.sent| + 2 * n
            && |run.host.events| <= |h.events| && run.host.events == h.events[|h.events| - |run.host.events|..]
            && (run.outcome.Frames? ==> HeldSinceLastSend(h, run))
            && (run.outcome == Failure(DumpIntr) ==> |h.sent| + n <= |run.host.sent|)
  {
    hide DumpFrom, HeldSinceLastSend, DumpRequest;
    var request := DumpRequest(msgType, 0, payload, seqno);
    var first := DumpFrom(h, size, request, false);
    DumpSafety(h, size, request);
    var resent :| SafeRun(h, first, request, resent);
    if first.outcome == Failure(DumpIntr) && n > 1 {
      RestartSafety(n - 1, first.host, size, msgType, payload, NextSeq(seqno));
      var run := Restarting(n - 1, first.host, size, msgType, payload, NextSeq(seqno));
      if run.outcome.Frames? {
        HeldByLaterDump(h, first.host, run);
      }
    }
  }

  lemma {:induction false} HeldByLaterDump(h: Host, mid: Host, run: Run)
    requires |mid.events| <= |h.events| && mid.events == h.events[|h.events| - |mid.events|..]
    requires HeldSinceLastSend(mid, run)
    ensures HeldSinceLastSend(h, run)
  {
    hide HeldBy;
    var used := |h.events| - |mid.events|;
    var cut := |mid.events| - run.host.sent[|run.host.sent| - 1].left;
    var end := |mid.events| - |run.host.events|;
    assert mid.events[cut..end] == h.events[used + cut..used + end];
  }

  // ---- What a retry reads ----

  lemma {:induction false} PacketFirst(p: Packet, events: seq<Event>)
    requires FitsPacket(p)
    ensures var all := [Datagram(EncodeDatagram(p.ws, p.padLast))] + events;
            LeadingMsgs(all) == Msgs(p.ws) + LeadingMsgs(events) && Ending(all) == Ending(events)
  {
    hide EncodeDatagram, Frame, Msgs;
    FramePacked(p.ws, p.padLast);
    assert ([Datagram(EncodeDatagram(p.ws, p.padLast))] + events)[1..] == events;
  }

  lemma {:induction false} DeliveredThen(ps: seq<Packet>, later: seq<Event>)
    requires forall i :: 0 <= i < |ps| ==> FitsPacket(ps[i])
    ensures LeadingMsgs(Deliver(ps) + later) == Carried(ps) + LeadingMsgs(later)
    ensures Ending(Deliver(ps) + later) == Ending(later)
  {
    hide EncodeDatagram, Msgs, FitsPacket, LeadingMsgs, Ending;
    if ps == [] {
      assert Deliver(ps) + later == later;
    } else {
      var tail := Deliver(ps[1..]) + later;
      PacketFirst(ps[0], tail);
      DeliveredThen(ps[1..], later);
      assert Deliver(ps) + later == [Datagram(EncodeDatagram(ps[0].ws, ps[0].padLast))] + tail;
      Associative(Msgs(ps[0].ws), Carried(ps[1..]), LeadingMsgs(later));
    }
  }

  /** Packets in front of other events are interpreted first, and what they leave open is answered by the rest. */
  lemma {:induction false} PacketsThen(ps: seq<Packet>, later: seq<Event>)
    requires forall i :: 0 <= i < |ps| ==> FitsPacket(ps[i])
    ensures Receive(Deliver(ps) + later).result == FollowedBy(Interpret(Carried(ps)), Receive(later).result)
  {
    hide LeadingMsgs, Ending, Carried, Deliver, Interpret, Answer, FollowedBy, Receive, FitsPacket;
    DeliveredThen(ps, later);
    ReceiveRefinesList(Deliver(ps) + later);
    ReceiveRefinesList(later);
    AnswerAppend(Carried(ps), LeadingMsgs(later), Ending(later));
  }

  /** An attempt ends with the first packet whose messages do not leave it open. */
  lemma {:induction false} AttemptStops(front: seq<Packet>, p: Packet, tail: seq<Event>)
    requires FitsPacket(p) && forall i :: 0 <= i < |front| ==> FitsPacket(front[i])
    requires Interpret(Carried(front)).verdict == More && Interpret(Msgs(p.ws)).verdict.Failed?
    ensures Receive(Deliver(front) + (Deliver([p]) + tail))
         == Attempt(Broke(Interpret(Msgs(p.ws)).verdict.error), |front| + 1)
  {
    hide EncodeDatagram, Frame, Msgs, Interpret;
    var events := Deliver(front) + (Deliver([p]) + tail);
    if front == [] {
      FramePacked(p.ws, p.padLast);
      assert events[0] == Datagram(EncodeDatagram(p.ws, p.padLast));
    } else {
      assert FitsPacket(front[0]);
      FramePacked(front[0].ws, front[0].padLast);
      InterpretAppend(Msgs(front[0].ws), Carried(front[1..]));
      AttemptStops(front[1..], p, tail);
      assert events[1..] == Deliver(front[1..]) + (Deliver([p]) + tail);
    }
  }

  lemma {:induction false} PacketTaken(p: Packet, tail: seq<Event>)
    requires FitsPacket(p) && Interpret(Msgs(p.ws)).verdict == More
    ensures Receive([Datagram(EncodeDatagram(p.ws, p.padLast))] + tail)
         == AddFrames(Interpret(Msgs(p.ws)).frames, 1, Receive(tail))
  {
    hide EncodeDatagram, ScanDatagram, Msgs, Interpret, AddFrames;
    PacketScanned(p, RECV_BUF_LEN);
    assert ([Datagram(EncodeDatagram(p.ws, p.padLast))] + tail)[1..] == tail;
  }

  /** Packets that leave an attempt open are taken one by one, and the rest goes on from there. */
  lemma {:induction false} AttemptGoesOn(front: seq<Packet>, tail: seq<Event>)
    requires forall i :: 0 <= i < |front| ==> FitsPacket(front[i])
    requires Interpret(Carried(front)).verdict == More
    ensures Receive(Deliver(front) + tail) == AddFrames(Interpret(Carried(front)).frames, |front|, Receive(tail))
  {
    hide EncodeDatagram, Receive, AddFrames, Msgs, Interpret, FitsPacket;
    if front == [] {
      InterpretNothing();
      assert Deliver(front) + tail == tail;
      AddFramesNothing(Receive(tail));
    } else {
      var m, rest := Msgs(front[0].ws), front[1..];
      InterpretAppend(m, Carried(rest));
      PacketTaken(front[0], Deliver(rest) + tail);
      AttemptGoesOn(rest, tail);
      AddFramesTwice(Interpret(m).frames, 1, Interpret(Carried(rest)).frames, |rest|, Receive(tail));
      assert Deliver(front) + tail
          == [Datagram(EncodeDatagram(front[0].ws, front[0].padLast))] + (Deliver(rest) + tail);
    }
  }

  lemma {:induction false} AddFramesNothing(a: Attempt)
    ensures AddFrames([], 0, a) == a
  {
    if a.result.Complete? {
      assert [] + a.result.frames == a.result.frames;
    }
  }

  /** The kernel refuses a dump: whatever came before and comes later, an error message with code e is the outcome,
      after one send. */
  lemma {:induction false} RefusedDump(h: Host, size: nat, request: bytes, front: seq<Packet>, w: Wired, flags: u16,
        e: nat, rest: bytes, later: seq<Event>)
    requires w.msg == Msg(2, flags, ToLE((0x1_0000_0000 - e) % 0x1_0000_0000, 4) + rest)
    requires 0 < e < 0x8000_0000 && !HasBit(flags, 0x10) && FitsPacket(Packet([w], false))
    requires forall i :: 0 <= i < |front| ==> FitsPacket(front[i])
    requires Interpret(Carried(front)).verdict == More && NextOk(h.sendOutcomes)
    requires h.events == Deliver(front) + (Deliver([Packet([w], false)]) + later)
    ensures var run := DumpFrom(h, size, request, false);
            run.outcome == Failure(KernelError(e)) && |run.host.sent| == |h.sent| + 1
  {
    hide Interpret, Carried, Deliver, FitsPacket, Receive, ToLE, HasBit;
    ErrorCode(flags, e, rest);
    OneMessage(w);
    AttemptStops(front, Packet([w], false), later);
    DumpOnce(h, size, request);
  }

  lemma {:induction false} OneMessage(w: Wired)
    requires StopOf(w.msg) != More
    ensures Msgs([w]) == [w.msg] && Interpret(Msgs([w])) == Scan([], StopOf(w.msg))
  {
    hide StopOf;
    assert [w][1..] == [];
    InterpretCons(w.msg, []);
    assert [w.msg] + [] == [w.msg];
  }

  lemma {:induction false} DumpOnce(h: Host, size: nat, request: bytes)
    requires NextOk(h.sendOutcomes) && !Receive(h.events).result.Overflowed?
    ensures var run, r := DumpFrom(h, size, request, false), Receive(h.events).result;
            && |run.host.sent| == |h.sent| + 1
            && (r.Complete? ==> run.outcome == Frames(r.frames, size)) && (r.Broke? ==> run.outcome == Failure(r.error))
            && (r.StillWaiting? ==> run.outcome == Pending)
  {
    hide Receive;
    var a := Receive(h.events);
    assert DumpFrom(h, size, request, false)
        == AfterReceive(AfterSend(h, request).(events := h.events[a.used..]), a.result, size, request, false);
  }

  /** An answer that is complete is the outcome, after one send and at the same size. */
  lemma {:induction false} CleanDump(h: Host, size: nat, request: bytes, ps: seq<Packet>, later: seq<Event>)
    requires forall i :: 0 <= i < |ps| ==> FitsPacket(ps[i])
    requires h.events == Deliver(ps) + later && NextOk(h.sendOutcomes)
    requires Interpret(Carried(ps)).verdict == Done
    ensures var run := DumpFrom(h, size, request, false);
            run.outcome == Frames(Interpret(Carried(ps)).frames, size) && |run.host.sent| == |h.sent| + 1
  {
    hide Interpret, Carried, Deliver, FitsPacket, Receive;
    PacketsThen(ps, later);
    DumpOnce(h, size, request);
  }

  /** After an overflow what was received is forgotten, the buffer doubles up to 16 MiB, the request goes out again, and
      the outcome is the answer behind the overflow alone, at the larger size. */
  lemma {:induction false} OverflowThenClean(h: Host, size: nat, request: bytes, front: seq<Packet>,
        ps: seq<Packet>, later: seq<Event>)
    requires 0 < size < 16_777_216 && h.sendOutcomes == [] && h.growOutcomes == []
    requires forall i :: 0 <= i < |front| ==> FitsPacket(front[i])
    requires forall i :: 0 <= i < |ps| ==> FitsPacket(ps[i])
    requires Interpret(Carried(front)).verdict == More && Interpret(Carried(ps)).verdict == Done
    requires h.events == Deliver(front) + ([Enobufs] + (Deliver(ps) + later))
    ensures var run, larger := DumpFrom(h, size, request, false), Min(2 * size, 16_777_216);
            && run.outcome == Frames(Interpret(Carried(ps)).frames, larger) && run.host.soRcvbuf == larger
            && |run.host.sent| == |h.sent| + 2
  {
    hide Interpret, Carried, Deliver, FitsPacket, Receive;
    PacketsThen(ps, later);
    OverflowStops(h, front, Deliver(ps) + later);
    SecondAttempt(h, size, request);
  }

  /** A second overflow is reported, after two sends. */
  lemma {:induction false} OverflowTwice(h: Host, size: nat, request: bytes, front: seq<Packet>,
        ps: seq<Packet>, later: seq<Event>)
    requires 0 < size < 16_777_216 && h.sendOutcomes == [] && h.growOutcomes == []
    requires forall i :: 0 <= i < |front| ==> FitsPacket(front[i])
    requires forall i :: 0 <= i < |ps| ==> FitsPacket(ps[i])
    requires Interpret(Carried(front)).verdict == More && Interpret(Carried(ps)).verdict == More
    requires h.events == Deliver(front) + ([Enobufs] + (Deliver(ps) + ([Enobufs] + later)))
    ensures var run := DumpFrom(h, size, request, false);
            run.outcome == Failure(RecvBufOverflow) && |run.host.sent| == |h.sent| + 2
  {
    hide Interpret, Carried, Deliver, FitsPacket, Receive;
    PacketsThen(ps, [Enobufs] + later);
    FirstEvent(later);
    OverflowStops(h, front, Deliver(ps) + ([Enobufs] + later));
    SecondAttempt(h, size, request);
  }

  lemma {:induction false} FirstEvent(later: seq<Event>)
    ensures Receive([Enobufs] + later) == Attempt(Overflowed, 1)
    ensures Receive([RecvFailed] + later) == Attempt(Broke(NetlinkError.Recv), 1)
  {
  }

  lemma {:induction false} OverflowStops(h: Host, front: seq<Packet>, later: seq<Event>)
    requires forall i :: 0 <= i < |front| ==> FitsPacket(front[i])
    requires Interpret(Carried(front)).verdict == More && h.events == Deliver(front) + ([Enobufs] + later)
    ensures Receive(h.events).result == Overflowed && h.events[Receive(h.events).used..] == later
  {
    hide Interpret, Carried, Deliver, FitsPacket, Receive;
    AttemptGoesOn(front, [Enobufs] + later);
    FirstEvent(later);
    DeliverLength(front);
  }

  lemma {:induction false} SecondAttempt(h: Host, size: nat, request: bytes)
    requires 0 < size < 16_777_216 && h.sendOutcomes == [] && h.growOutcomes == []
    requires Receive(h.events).result.Overflowed?
    ensures var run, larger := DumpFrom(h, size, request, false), Min(2 * size, 16_777_216);
            var r := Receive(h.events[Receive(h.events).used..]).result;
            && |run.host.sent| == |h.sent| + 2 && run.host.soRcvbuf == larger
            && (r.Complete? ==> run.outcome == Frames(r.frames, larger))
            && (r.Overflowed? ==> run.outcome == Failure(RecvBufOverflow))
  {
    hide Receive;
    var a, larger := Receive(h.events), Min(2 * size, 16_777_216);
    var h1 := AfterSend(h, request).(events := h.events[a.used..]);
    var h2 := AfterGrow(h1, larger);
    assert DumpFrom(h, size, request, false) == DumpFrom(h2, larger, request, true);
    var b := Receive(h2.events);
    var h3 := AfterSend(h2, request).(events := h2.events[b.used..]);
    assert DumpFrom(h2, larger, request, true) == AfterReceive(h3, b.result, larger, request, true);
  }

  /** A failing receive, or a datagram whose first length is below sixteen, ends the dump with that error. */
  lemma {:induction false} BrokenDump(h: Host, size: nat, request: bytes, front: seq<Packet>, e: Event,
        later: seq<Event>)
    requires forall i :: 0 <= i < |front| ==> FitsPacket(front[i])
    requires Interpret(Carried(front)).verdict == More && h.events == Deliver(front) + ([e] + later)
    requires NextOk(h.sendOutcomes)
    ensures e == RecvFailed ==> DumpFrom(h, size, request, false).outcome == Failure(NetlinkError.Recv)
    ensures e.Datagram? && |e.data| >= 16 && FromLE(e.data[..4]) < 16 ==>
              DumpFrom(h, size, request, false).outcome == Failure(Parse)
  {
    hide Interpret, Carried, Deliver, FitsPacket, Receive, FromLE, Frame;
    AttemptGoesOn(front, [e] + later);
    if e == RecvFailed {
      FirstEvent(later);
      DumpOnce(h, size, request);
    } else if e.Datagram? && |e.data| >= 16 && FromLE(e.data[..4]) < 16 {
      MalformedFirst(e.data, later);
      DumpOnce(h, size, request);
    }
  }

  lemma {:induction false} MalformedFirst(d: bytes, later: seq<Event>)
    requires |d| >= 16 && FromLE(d[..4]) < 16
    ensures Receive([Datagram(d)] + later) == Attempt(Broke(Parse), 1)
  {
    hide FromLE, Frame, Interpret;
    var clipped := Clip(d, RECV_BUF_LEN);
    assert clipped[..4] == d[..4];
    FramingStops(clipped);
    InterpretNothing();
  }

  /** A retry reads what the interrupted answer left in the socket, before anything that answers its own request: when
      the packets left over are complete they are the result, when they fail the retry fails, and only when they hold
      no payload and no end does the retry see just what comes later. */
  lemma {:induction false} RetryReadsLeftovers(n: nat, h: Host, size: nat, msgType: u16, payload: bytes, seqno: u32,
        front: seq<Packet>, p: Packet, rest: seq<Packet>, later: seq<Event>)
    requires n > 1 && h.events == Deliver(front) + (Deliver([p]) + (Deliver(rest) + later))
    requires FitsPacket(p) && forall i :: 0 <= i < |front| ==> FitsPacket(front[i])
    requires forall i :: 0 <= i < |rest| ==> FitsPacket(rest[i])
    requires Interpret(Carried(front)).verdict == More && Interpret(Msgs(p.ws)).verdict == Failed(DumpIntr)
    requires NextOk(h.sendOutcomes) && NextOk(Rest(h.sendOutcomes))
    ensures var run, s := Restarting(n, h, size, msgType, payload, seqno), Interpret(Carried(rest));
            && (s.verdict == Done ==> run.outcome == Frames(s.frames, size) && |run.host.sent| == |h.sent| + 2)
            && (s.verdict.Failed? && s.verdict.error != DumpIntr ==>
                  run.outcome == Failure(s.verdict.error) && |run.host.sent| == |h.sent| + 2)
            && (s == Scan([], More) && Receive(later).result.Complete? ==>
                  run.outcome == Frames(Receive(later).result.frames, size))
  {
    hide Interpret, Carried, Deliver, Msgs, FitsPacket, DumpRequest, Receive;
    var first := DumpRequest(msgType, 0, payload, seqno);
    var h1 := AfterSend(h, first).(events := Deliver(rest) + later);
    AttemptStops(front, p, Deliver(rest) + later);
    DeliverLength(front);
    DeliverLength([p]);
    assert h.events[|front| + 1..] == Deliver(rest) + later;
    assert DumpFrom(h, size, first, false) == AfterReceive(h1, Broke(DumpIntr), size, first, false);
    PacketsThen(rest, later);
    var second := DumpRequest(msgType, 0, payload, NextSeq(seqno));
    var a := Receive(Deliver(rest) + later);
    var h2 := AfterSend(h1, second).(events := h1.events[a.used..]);
    assert DumpFrom(h1, size, second, false) == AfterReceive(h2, a.result, size, second, false);
    if Interpret(Carried(rest)) == Scan([], More) && Receive(later).result.Complete? {
      assert [] + Receive(later).result.frames == Receive(later).result.frames;
    }
  }

  lemma {:induction false} DeliverLength(ps: seq<Packet>)
    ensures |Deliver(ps)| == |ps|
  {
    if ps != [] {
      DeliverLength(ps[1..]);
    }
  }

  const DONE_MSG := Msg(NLMSG_DONE, 0, [])

  const DONE_PACKET := Packet([Wired(DONE_MSG, 0, 0)], false)

  lemma {:induction false} DoneEnds()
    ensures Interpret([DONE_MSG]) == Scan([], Done)
  {
    assert StopOf(DONE_MSG) == Done;
    assert FirstStop([DONE_MSG]) == Some(0);
  }

  lemma {:induction false} DoneIsDone()
    ensures Receive(Deliver([DONE_PACKET])).result == Complete([])
  {
    hide Interpret, EncodeDatagram, Receive, Deliver, FitsPacket;
    DoneEnds();
    DoneFits();
    PackingDoesNotMatter([DONE_PACKET]);
    OneCarried(Wired(DONE_MSG, 0, 0));
  }

  lemma {:induction false} OneCarried(w: Wired)
    ensures Carried([Packet([w], false)]) == [w.msg]
  {
    assert Msgs([w]) == [w.msg] + Msgs([w][1..]);
    assert [Packet([w], false)][1..] == [] && [w][1..] == [];
  }

  lemma {:induction false} DoneFits()
    ensures FitsPacket(DONE_PACKET)
  {
    hide EncodeBare;
    assert EncodeDatagram(DONE_PACKET.ws, false) == EncodeBare(Wired(DONE_MSG, 0, 0));
  }

  /** Leftovers are harmless exactly when they hold no payload and end nothing: only then does an attempt answer,
      whatever comes later, as if they had not been there. */
  lemma {:induction false} LeftoversHarmlessIff(rest: seq<Packet>)
    requires forall i :: 0 <= i < |rest| ==> FitsPacket(rest[i])
    ensures (forall later :: Receive(Deliver(rest) + later).result == Receive(later).result)
            <==> Interpret(Carried(rest)) == Scan([], More)
  {
    hide Receive, Deliver, Carried, Interpret;
    if Interpret(Carried(rest)) == Scan([], More) {
      forall later ensures Receive(Deliver(rest) + later).result == Receive(later).result {
        PacketsThen(rest, later);
        if Receive(later).result.Complete? {
          assert [] + Receive(later).result.frames == Receive(later).result.frames;
        }
      }
    } else {
      var overflow, done := [Enobufs], Deliver([DONE_PACKET]);
      PacketsThen(rest, overflow);
      PacketsThen(rest, done);
      DoneIsDone();
      OverflowFirst();
    }
  }

  lemma {:induction false} OverflowFirst()
    ensures Receive([Enobufs]).result == Overflowed
  {
  }

  // ---- Single requests ----

  datatype Single = Reply(frame: Option<bytes>) | SingleFailed(error: NetlinkError) | SinglePending

  function First(frames: seq<bytes>): Option<bytes> {
    if frames == [] then None else Some(frames[0])
  }

  /** The receive loop of a single request: the first datagram that holds a frame or an end decides. */
  function SingleFrom(events: seq<Event>, cap: nat): Single {
    if events == [] then SinglePending
    else
      match events[0]
      case Enobufs => SingleFailed(RecvBufOverflow)
      case RecvFailed => SingleFailed(NetlinkError.Recv)
      case Datagram(d) =>
        var s := ScanDatagram(d, cap);
        if s.verdict.Failed? then SingleFailed(s.verdict.error)
        else if s.verdict == Done || s.frames != [] then Reply(First(s.frames))
        else SingleFrom(events[1..], cap)
  }

  method BlockingRequestSingle(kernel: Kernel, rcvbufSize: nat, request: bytes) returns (r: Single)
    modifies kernel
    ensures r == if NextOk(old(kernel.host).sendOutcomes)
                 then SingleFrom(old(kernel.host).events,
                                 if rcvbufSize > RECV_BUF_LEN then rcvbufSize else RECV_BUF_LEN)
                 else SingleFailed(NetlinkError.Send)
    ensures kernel.host.sent == old(kernel.host).sent + [Sent(request, |old(kernel.host).events|)]
  {
    hide InterpretFramed, Frame;
    ghost var h := kernel.host;
    var sent := kernel.Send(request);
    if !sent {
      return SingleFailed(NetlinkError.Send);
    }
    var cap := if rcvbufSize > RECV_BUF_LEN then rcvbufSize else RECV_BUF_LEN;
    var recvBuf := new byte[cap];
    var out := new Vec<bytes>();
    while true
      invariant fresh(out) && fresh(recvBuf) && recvBuf.Length == cap && out.items == []
      invariant kernel.host.sent == h.sent + [Sent(request, |h.events|)]
      invariant SingleFrom(kernel.host.events, cap) == SingleFrom(h.events, cap)
      decreases |kernel.host.events|
    {
      var got := kernel.Recv(recvBuf);
      match got {
        case Waiting => return SinglePending;
        case Overflow => return SingleFailed(RecvBufOverflow);
        case RecvError => return SingleFailed(NetlinkError.Recv);
        case Received(n) =>
          var verdict := ParseDatagram(recvBuf, n, out);
          if verdict.Failed? {
            return SingleFailed(verdict.error);
          }
          if verdict == Done || out.items != [] {
            return Reply(First(out.items));
          }
      }
    }
  }

  /** When no message of the list fails before its end, packing does not matter to a single request either:
      the reply is the first data payload, or None when the list ends without one. */
  lemma {:induction false} SingleReplyIgnoresPacking(ps: seq<Packet>, cap: nat)
    requires RECV_BUF_LEN <= cap
    requires forall i :: 0 <= i < |ps| ==> FitsPacket(ps[i])
    requires !Interpret(Carried(ps)).verdict.Failed?
    ensures var s := Interpret(Carried(ps));
            SingleFrom(Deliver(ps), cap)
              == if s.frames == [] && s.verdict == More then SinglePending else Reply(First(s.frames))
  {
    hide EncodeDatagram, Frame, Interpret, Msgs;
    if ps == [] {
      assert Interpret([]) == Scan([], More) by { InterpretNothing(); }
    } else {
      assert FitsPacket(ps[0]);
      FramePacked(ps[0].ws, ps[0].padLast);
      InterpretAppend(Msgs(ps[0].ws), Carried(ps[1..]));
      assert Deliver(ps)[1..] == Deliver(ps[1..]);
      var s0 := Interpret(Msgs(ps[0].ws));
      if s0.frames == [] && s0.verdict == More {
        SingleReplyIgnoresPacking(ps[1..], cap);
        assert [] + Interpret(Carried(ps[1..])).frames == Interpret(Carried(ps[1..])).frames;
      }
    }
  }

  /** The packets so far end nothing and hold a data payload: enough for a single request to answer. */
  predicate Answers(ps: seq<Packet>) {
    Interpret(Carried(ps)).verdict == More && Interpret(Carried(ps)).frames != []
  }

  lemma {:induction false} CarriedCons(ps: seq<Packet>, k: nat)
    requires 0 < k <= |ps|
    ensures var s0, rest := Interpret(Msgs(ps[0].ws)), Interpret(Carried(ps[1..][..k - 1]));
            Interpret(Carried(ps[..k])) == if s0.verdict == More then Prepend(s0.frames, rest) else s0
  {
    hide Interpret, Msgs;
    assert ps[..k][1..] == ps[1..][..k - 1];
    InterpretAppend(Msgs(ps[0].ws), Carried(ps[1..][..k - 1]));
  }

  lemma {:induction false} PacketScanned(p: Packet, cap: nat)
    requires RECV_BUF_LEN <= cap && FitsPacket(p)
    ensures ScanDatagram(EncodeDatagram(p.ws, p.padLast), cap) == Interpret(Msgs(p.ws))
  {
    hide EncodeDatagram, Frame, Interpret, Msgs;
    FramePacked(p.ws, p.padLast);
  }

  /** When some message fails, packing decides: the request is answered with the first data payload exactly when some
      whole packets in front hold a payload and end nothing, and fails as the list does otherwise. */
  lemma {:induction false} SingleFailingIff(ps: seq<Packet>, cap: nat)
    requires RECV_BUF_LEN <= cap
    requires forall i :: 0 <= i < |ps| ==> FitsPacket(ps[i])
    requires Interpret(Carried(ps)).verdict.Failed?
    ensures var s := Interpret(Carried(ps));
            SingleFrom(Deliver(ps), cap)
              == if exists k :: 0 <= k <= |ps| && Answers(ps[..k]) then Reply(First(s.frames))
                                            else SingleFailed(s.verdict.error)
    ensures Interpret(Carried(ps)).frames == [] ==> forall k :: 0 <= k <= |ps| ==> !Answers(ps[..k])
    decreases |ps|
  {
    hide EncodeDatagram, ScanDatagram, Interpret, Msgs;
    InterpretNothing();
    assert ps[..0] == [] && ps != [];
    var rest := ps[1..];
    assert FitsPacket(ps[0]);
    PacketScanned(ps[0], cap);
    assert Deliver(ps)[1..] == Deliver(rest);
    assert ps[..|ps|] == ps && rest[..|rest|] == rest;
    CarriedCons(ps, |ps|);
    forall k | 0 < k <= |ps| {
      CarriedCons(ps, k);
    }
    var s0 := Interpret(Msgs(ps[0].ws));
    if s0.verdict == More {
      if s0.frames == [] {
        SingleFailingIff(rest, cap);
        assert [] + Interpret(Carried(rest)).frames == Interpret(Carried(rest)).frames;
        forall k | 0 < k <= |ps| ensures Answers(ps[..k]) <==> Answers(rest[..k - 1]) {
          var f := Interpret(Carried(rest[..k - 1])).frames;
          assert [] + f == f;
        }
        if k :| 0 <= k <= |rest| && Answers(rest[..k]) {
          assert Answers(ps[..k + 1]);
        }
      } else {
        assert rest[..0] == [];
        assert Answers(ps[..1]);
      }
    }
  }

  function Singles(ws: seq<Wired>): seq<Packet> {
    if ws == [] then [] else [Packet([ws[0]], true)] + Singles(ws[1..])
  }

  lemma {:induction false} SinglesCarry(ws: seq<Wired>, k: nat)
    requires k <= |ws|
    ensures |Singles(ws)| == |ws| == |Msgs(ws)| && Carried(Singles(ws)[..k]) == Msgs(ws)[..k]
    ensures forall i :: 0 <= i < |ws| ==> Singles(ws)[i] == Packet([ws[i]], true)
  {
    if ws != [] {
      SinglesCarry(ws[1..], if k > 0 then k - 1 else 0);
      if k > 0 {
        assert Singles(ws)[..k][1..] == Singles(ws[1..])[..k - 1];
        assert Msgs([ws[0]]) == [ws[0].msg];
      }
    }
  }

  /** A reply with a failing message that fits one datagram is answered differently when every message comes alone
      exactly when a data payload stands in front of the failure. */
  lemma {:induction false} SinglePackingMattersIff(ws: seq<Wired>, cap: nat)
    requires RECV_BUF_LEN <= cap
    requires FitsPacket(Packet(ws, true)) && forall i :: 0 <= i < |ws| ==> FitsPacket(Packet([ws[i]], true))
    requires Interpret(Msgs(ws)).verdict.Failed?
    ensures SingleFrom(Deliver(Singles(ws)), cap) != SingleFrom(Deliver([Packet(ws, true)]), cap)
            <==> Interpret(Msgs(ws)).frames != []
  {
    hide FitsPacket, Interpret, Msgs, Singles, SingleFrom, Deliver;
    OnePacketFails(ws, cap);
    EachItsPacket(ws, cap);
  }

  lemma {:induction false} OnePacketFails(ws: seq<Wired>, cap: nat)
    requires RECV_BUF_LEN <= cap && FitsPacket(Packet(ws, true)) && Interpret(Msgs(ws)).verdict.Failed?
    ensures SingleFrom(Deliver([Packet(ws, true)]), cap) == SingleFailed(Interpret(Msgs(ws)).verdict.error)
  {
    hide FitsPacket, Interpret, Msgs, SingleFrom, Deliver;
    var one := [Packet(ws, true)];
    assert Carried(one[1..]) == [] && Msgs(ws) + [] == Msgs(ws);
    assert one[..0] == [] && one[..1] == one;
    InterpretNothing();
    SingleFailingIff(one, cap);
  }

  lemma {:induction false} EachItsPacket(ws: seq<Wired>, cap: nat)
    requires RECV_BUF_LEN <= cap && forall i :: 0 <= i < |ws| ==> FitsPacket(Packet([ws[i]], true))
    requires Interpret(Msgs(ws)).verdict.Failed?
    ensures var s := Interpret(Msgs(ws));
            SingleFrom(Deliver(Singles(ws)), cap)
              == if s.frames != [] then Reply(First(s.frames)) else SingleFailed(s.verdict.error)
  {
    hide FitsPacket, Interpret, Msgs, Singles, SingleFrom, Deliver, Answers;
    SinglesCarry(ws, |ws|);
    assert Singles(ws)[..|ws|] == Singles(ws) && Msgs(ws)[..|ws|] == Msgs(ws);
    SingleFailingIff(Singles(ws), cap);
    if Interpret(Msgs(ws)).frames != [] {
      PayloadsAnswer(ws);
    }
  }

  lemma {:induction false} PayloadsAnswer(ws: seq<Wired>)
    requires Interpret(Msgs(ws)).verdict.Failed? && Interpret(Msgs(ws)).frames != []
    ensures exists k :: 0 <= k <= |Singles(ws)| && Answers(Singles(ws)[..k])
  {
    var t := FirstStop(Msgs(ws)).value;
    SinglesCarry(ws, |ws|);
    SinglesCarry(ws, t);
    var front := Msgs(ws)[..t];
    assert FirstStop(front).None?;
    assert Answers(Singles(ws)[..t]);
  }

  lemma {:induction false} InterpretNothing()
    ensures Interpret([]) == Scan([], More)
  {
  }

  // ---- Generic netlink family names ----

  const CTRL_CMD_GETFAMILY: byte := 3
  const CTRL_ATTR_FAMILY_ID: nat := 1
  const CTRL_ATTR_FAMILY_NAME: u16 := 2

  /** The payload `resolve_genl_family` sends. */
  method BuildFamilyRequest(name: bytes) returns (payload: bytes)
    ensures payload == [3, 2, 0, 0] + Wire.EncodeNla(2, name + [0])
  {
    hide ToLE;
    payload := [CTRL_CMD_GETFAMILY, 2, 0, 0];
    var nlaTotal := Wire.NLA_HDRLEN + (|name| + 1);
    var nlaPadded := Wire.Align4(nlaTotal);
    payload := payload + ToLE(nlaTotal % U16, 2);
    payload := payload + ToLE(CTRL_ATTR_FAMILY_NAME, 2);
    payload := payload + name;
    payload := payload + [0];
    payload := payload + Zeros(nlaPadded - nlaTotal);
    assert Wire.EncodeNla(CTRL_ATTR_FAMILY_NAME, name + [0])
        == ToLE(nlaTotal % U16, 2) + ToLE(CTRL_ATTR_FAMILY_NAME, 2) + (name + [0]) + Zeros(nlaPadded - nlaTotal);
  }

  datatype Family = FamilyId(id: u16) | NotLoaded | FamilyError(error: NetlinkError) | FamilyPending

  /** How the reply of a family lookup is read: ENOENT is not an error, everything short of an id is. */
  method ReadFamilyReply(reply: Single) returns (r: Family)
    ensures reply == SingleFailed(KernelError(2)) ==> r == NotLoaded
    ensures reply.SingleFailed? && reply.error != KernelError(2) ==> r == FamilyError(reply.error)
    ensures reply.SinglePending? ==> r == FamilyPending
    ensures reply == Reply(None) ==> r == FamilyError(Parse)
    ensures reply.Reply? && reply.frame.Some? ==>
              var p := reply.frame.value;
              r == if |p| < 4 then FamilyError(Parse) else FamilyOf(Wire.Attrs(p[4..]))
  {
    match reply {
      case SinglePending => return FamilyPending;
      case SingleFailed(e) => return if e == KernelError(2) then NotLoaded else FamilyError(e);
      case Reply(None) => return FamilyError(Parse);
      case Reply(Some(p)) =>
        if |p| < 4 {
          return FamilyError(Parse);
        }
        var attrs := Wire.Attrs(p[4..]);
        for i := 0 to |attrs|
          invariant FamilyOf(attrs[i..]) == FamilyOf(attrs)
        {
          if attrs[i].ty == CTRL_ATTR_FAMILY_ID {
            var id := ReadU16(attrs[i].payload);
            return if id.Some? then FamilyId(id.value) else FamilyError(Parse);
          }
          assert attrs[i..][1..] == attrs[i + 1..];
        }
        return FamilyError(Parse);
    }
  }

  /** The first id attribute decides. */
  function FamilyOf(attrs: seq<Wire.Nla>): Family {
    if attrs == [] then FamilyError(Parse)
    else if attrs[0].ty == CTRL_ATTR_FAMILY_ID then
      match ReadU16(attrs[0].payload)
      case Some(id) => FamilyId(id)
      case None => FamilyError(Parse)
    else FamilyOf(attrs[1..])
  }

  /** The reply of the controller, its name attribute in front, gives the id it carries. */
  lemma {:induction false} FamilyReadsBack(name: bytes, id: u16, rest: bytes)
    requires Wire.FitsNla(name)
    ensures FamilyOf(Wire.Attrs(Wire.EncodeNla(2, name) + (Wire.EncodeNla(1, ToLE(id, 2)) + rest))) == FamilyId(id)
  {
    hide Wire.Attrs, Wire.EncodeNla, ToLE, ReadU16;
    Wire.AttrsOfEncoded(2, name, Wire.EncodeNla(1, ToLE(id, 2)) + rest);
    Wire.AttrsOfEncoded(1, ToLE(id, 2), rest);
    IdReadsBack(id);
    var tail := [Wire.Nla(1, ToLE(id, 2))] + Wire.Attrs(rest);
    assert ([Wire.Nla(2, name)] + tail)[1..] == tail;
  }

  lemma {:induction false} IdReadsBack(id: u16)
    ensures ReadU16(ToLE(id, 2)) == Some(id)
  {
    hide ToLE, ReadLE;
    RadixValues();
    ReadersInvertWriters(id, 2, []);
    assert ToLE(id, 2) + [] == ToLE(id, 2);
  }

  lemma {:induction false} PacketPassed(p: Packet, tail: seq<Event>, cap: nat)
    requires RECV_BUF_LEN <= cap && FitsPacket(p) && Interpret(Msgs(p.ws)) == Scan([], More)
    ensures SingleFrom([Datagram(EncodeDatagram(p.ws, p.padLast))] + tail, cap) == SingleFrom(tail, cap)
  {
    hide EncodeDatagram, ScanDatagram, Msgs, Interpret;
    PacketScanned(p, cap);
    assert ([Datagram(EncodeDatagram(p.ws, p.padLast))] + tail)[1..] == tail;
  }

  /** Packets that hold no payload and end nothing are passed over by a single request. */
  lemma {:induction false} SingleGoesOn(front: seq<Packet>, tail: seq<Event>, cap: nat)
    requires RECV_BUF_LEN <= cap && forall i :: 0 <= i < |front| ==> FitsPacket(front[i])
    requires Interpret(Carried(front)) == Scan([], More)
    ensures SingleFrom(Deliver(front) + tail, cap) == SingleFrom(tail, cap)
  {
    hide EncodeDatagram, SingleFrom, Msgs, Interpret, FitsPacket;
    if front == [] {
      assert Deliver(front) + tail == tail;
    } else {
      var m, rest := Msgs(front[0].ws), front[1..];
      InterpretAppend(m, Carried(rest));
      PacketPassed(front[0], Deliver(rest) + tail, cap);
      SingleGoesOn(rest, tail, cap);
      assert Deliver(front) + tail
          == [Datagram(EncodeDatagram(front[0].ws, front[0].padLast))] + (Deliver(rest) + tail);
    }
  }

  /** So an overflow or a failing receive behind them is the answer. */
  lemma {:induction false} SingleBreaks(front: seq<Packet>, later: seq<Event>, cap: nat)
    requires RECV_BUF_LEN <= cap && forall i :: 0 <= i < |front| ==> FitsPacket(front[i])
    requires Interpret(Carried(front)) == Scan([], More)
    ensures SingleFrom(Deliver(front) + ([Enobufs] + later), cap) == SingleFailed(RecvBufOverflow)
    ensures SingleFrom(Deliver(front) + ([RecvFailed] + later), cap) == SingleFailed(NetlinkError.Recv)
  {
    hide Deliver, Carried, Interpret, FitsPacket;
    SingleGoesOn(front, [Enobufs] + later, cap);
    SingleGoesOn(front, [RecvFailed] + later, cap);
  }

  class NetlinkSocket {
    const kernel: Kernel
    const counter: SeqCounter
    var rcvbufSize: nat

    ghost predicate Valid()
      reads this, kernel
    {
      SizesAgree(rcvbufSize, kernel.host.soRcvbuf)
    }

    constructor (kernel: Kernel, counter: SeqCounter)
      requires kernel.host.soRcvbuf == MIN_RCVBUF
      ensures Valid() && this.kernel == kernel && this.counter == counter && rcvbufSize == MIN_RCVBUF
    {
      this.kernel := kernel;
      this.counter := counter;
      rcvbufSize := MIN_RCVBUF;
    }

    method Dump(msgType: u16, flags: u16, payload: bytes) returns (r: Outcome)
      requires Valid()
      modifies this, kernel, counter
      ensures Valid()
      ensures Run(kernel.host, r) == DumpFrom(old(kernel.host), old(rcvbufSize),
                                              DumpRequest(msgType, flags, payload, old(counter.next)), false)
      ensures rcvbufSize == Recorded(old(rcvbufSize), r)
      ensures counter.next == NextSeq(old(counter.next))
    {
      hide DumpFrom;
      var request := BuildRequest(counter, msgType, DumpFlags(flags), payload);
      DumpKeepsSizes(kernel.host, rcvbufSize, request);
      r := BlockingDump(kernel, rcvbufSize, request);
      if r.Frames? {
        rcvbufSize := r.rcvbuf;
      }
    }

    /** nftables.rs: retries while `restarts < MAX_DUMP_RESTARTS`, so nine dumps in all. */
    method NftDump(msgType: u16, nfgenFamily: byte) returns (r: Outcome)
      requires Valid()
      modifies this, kernel, counter
      ensures Valid()
      ensures Run(kernel.host, r) == Restarting(MAX_DUMP_RESTARTS + 1, old(kernel.host), old(rcvbufSize), msgType,
                                                [nfgenFamily, 0, 0, 0], old(counter.next))
      ensures |kernel.host.sent| <= |old(kernel.host).sent| + 18
      ensures r.Frames? ==> HeldSinceLastSend(old(kernel.host), Run(kernel.host, r))
    {
      hide DumpFrom, DumpRequest, HeldSinceLastSend;
      RestartSafety(MAX_DUMP_RESTARTS + 1, kernel.host, rcvbufSize, msgType, [nfgenFamily, 0, 0, 0], counter.next);
      var payload: bytes := [nfgenFamily, 0, 0, 0];
      var restarts: nat := 0;
      ghost var all := Restarting(MAX_DUMP_RESTARTS + 1, kernel.host, rcvbufSize, msgType, payload, counter.next);
      while true
        invariant Valid() && restarts <= MAX_DUMP_RESTARTS && rcvbufSize == old(rcvbufSize)
        invariant Restarting(MAX_DUMP_RESTARTS + 1 - restarts, kernel.host, rcvbufSize, msgType, payload, counter.next)
                  == all
        decreases MAX_DUMP_RESTARTS - restarts
      {
        r := Dump(msgType, 0, payload);
        if r == Failure(DumpIntr) && restarts < MAX_DUMP_RESTARTS {
          restarts := restarts + 1;
        } else {
          return;
        }
      }
    }

    /** tc.rs, wireguard.rs and ipvs.rs: counts the restart before the cap check, so eight dumps in all. */
    method DumpWithRetries(msgType: u16, payload: bytes) returns (r: Outcome)
      requires Valid()
      modifies this, kernel, counter
      ensures Valid()
      ensures Run(kernel.host, r)
              == Restarting(MAX_DUMP_RESTARTS, old(kernel.host), old(rcvbufSize), msgType, payload, old(counter.next))
      ensures |kernel.host.sent| <= |old(kernel.host).sent| + 16
      ensures r.Frames? ==> HeldSinceLastSend(old(kernel.host), Run(kernel.host, r))
    {
      hide DumpFrom, DumpRequest, HeldSinceLastSend;
      RestartSafety(MAX_DUMP_RESTARTS, kernel.host, rcvbufSize, msgType, payload, counter.next);
      var restarts: nat := 0;
      ghost var all := Restarting(MAX_DUMP_RESTARTS, kernel.host, rcvbufSize, msgType, payload, counter.next);
      while true
        invariant Valid() && restarts < MAX_DUMP_RESTARTS && rcvbufSize == old(rcvbufSize)
        invariant Restarting(MAX_DUMP_RESTARTS - restarts, kernel.host, rcvbufSize, msgType, payload, counter.next)
                  == all
        decreases MAX_DUMP_RESTARTS - restarts
      {
        r := Dump(msgType, 0, payload);
        if r != Failure(DumpIntr) {
          return;
        }
        restarts := restarts + 1;
        if restarts >= MAX_DUMP_RESTARTS {
          return Failure(DumpIntr);
        }
      }
    }

    /** sockdiag.rs: a counted loop with the error behind it; the same as the loop above. */
    method DumpOneFamily(msgType: u16, payload: bytes) returns (r: Outcome)
      requires Valid()
      modifies this, kernel, counter
      ensures Valid()
      ensures Run(kernel.host, r)
              == Restarting(MAX_DUMP_RESTARTS, old(kernel.host), old(rcvbufSize), msgType, payload, old(counter.next))
      ensures |kernel.host.sent| <= |old(kernel.host).sent| + 16
      ensures r.Frames? ==> HeldSinceLastSend(old(kernel.host), Run(kernel.host, r))
    {
      hide DumpFrom, DumpRequest, HeldSinceLastSend;
      RestartSafety(MAX_DUMP_RESTARTS, kernel.host, rcvbufSize, msgType, payload, counter.next);
      ghost var all := Restarting(MAX_DUMP_RESTARTS, kernel.host, rcvbufSize, msgType, payload, counter.next);
      for attempt := 0 to MAX_DUMP_RESTARTS
        invariant Valid() && rcvbufSize == old(rcvbufSize)
        invariant attempt < MAX_DUMP_RESTARTS ==>
                    Restarting(MAX_DUMP_RESTARTS - attempt, kernel.host, rcvbufSize, msgType, payload, counter.next)
                      == all
        invariant attempt == MAX_DUMP_RESTARTS ==> Run(kernel.host, Failure(DumpIntr)) == all
      {
        r := Dump(msgType, 0, payload);
        if r != Failure(DumpIntr) {
          return;
        }
      }
      return Failure(DumpIntr);
    }
  }
}
