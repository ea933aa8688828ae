/** One dump over an adversarial socket: `blocking_dump` and the receive loop of
    crates/nlx-netlink/src/transport.rs. Every trace of receive results is possible. */
module Dump {
  import opened Wrappers
  import opened Bytes
  import opened Framing

  const RECV_BUF_LEN: nat := 32 * 1024
  const MIN_RCVBUF: nat := 4 * 1024 * 1024
  const MAX_RCVBUF: nat := 16 * 1024 * 1024

  /** What the kernel can answer to one receive. */
  datatype Event = Datagram(data: bytes) | Enobufs | RecvFailed

  /** The kernel side of a socket: the answers still to come, and what was asked of it so far.
      When the events are used up a receive waits; when a list of outcomes is used up calls succeed. */
  datatype Host = Host(
    events: seq<Event>,
    sendOutcomes: seq<bool>,
    growOutcomes: seq<bool>,
    sent: seq<Sent>,
    soRcvbuf: nat)

  /** A send the kernel was asked for, and how many events were still to come at that moment. */
  datatype Sent = Sent(request: bytes, left: nat)

  predicate NextOk(outcomes: seq<bool>) {
    outcomes == [] || outcomes[0]
  }

  function Rest<T>(s: seq<T>): seq<T> {
    if s == [] then [] else s[1..]
  }

  function AfterSend(h: Host, request: bytes): Host {
    h.(sendOutcomes := Rest(h.sendOutcomes), sent := h.sent + [Sent(request, |h.events|)])
  }

  function AfterGrow(h: Host, size: nat): Host {
    h.(growOutcomes := Rest(h.growOutcomes), soRcvbuf := if NextOk(h.growOutcomes) then size else h.soRcvbuf)
  }

  datatype RecvResult = Received(n: nat) | Overflow | RecvError | Waiting

  class Kernel {
    var host: Host

    constructor (host: Host)
      ensures this.host == host
    {
      this.host := host;
    }

    method Send(request: bytes) returns (ok: bool)
      modifies this
      ensures ok == NextOk(old(host).sendOutcomes) && host == AfterSend(old(host), request)
    {
      ok := NextOk(host.sendOutcomes);
      host := AfterSend(host, request);
    }

    method SetRcvbuf(size: nat) returns (ok: bool)
      modifies this
      ensures ok == NextOk(old(host).growOutcomes) && host == AfterGrow(old(host), size)
    {
      ok := NextOk(host.growOutcomes);
      host := AfterGrow(host, size);
    }

    /** Takes the next event. A datagram is cut to the buffer; octets of the buffer behind it keep their old values. */
    method Recv(buf: array<byte>) returns (r: RecvResult)
      modifies this, buf
      ensures host == old(host).(events := Rest(old(host).events))
      ensures old(host).events == [] ==> r == Waiting
      ensures old(host).events != [] ==>
                match old(host).events[0]
                case Enobufs => r == Overflow
                case RecvFailed => r == RecvError
                case Datagram(d) =>
                  r == Received(|Clip(d, buf.Length)|)
                  && buf[..Min(r.n, buf.Length)] == Clip(d, buf.Length)
    {
      if host.events == [] {
        return Waiting;
      }
      var e := host.events[0];
      host := host.(events := host.events[1..]);
      match e {
        case Enobufs => return Overflow;
        case RecvFailed => return RecvError;
        case Datagram(d) =>
          var data := Clip(d, buf.Length);
          forall i | 0 <= i < |data| {
            buf[i] := data[i];
          }
          return Received(|data|);
      }
    }
  }

  function Clip(d: bytes, cap: nat): bytes {
    if |d| <= cap then d else d[..cap]
  }

  // ---- One attempt: everything received after a send ----

  datatype Reception = Complete(frames: seq<bytes>) | Overflowed | Broke(error: NetlinkError) | StillWaiting

  /** How an attempt ended, and how many events it took. */
  datatype Attempt = Attempt(result: Reception, used: nat)

  function ScanDatagram(d: bytes, cap: nat): Scan {
    InterpretFramed(Frame(Clip(d, cap)))
  }

  function After(frames: seq<bytes>, r: Reception): Reception {
    if r.Complete? then Complete(frames + r.frames) else r
  }

  function AddFrames(frames: seq<bytes>, used: nat, a: Attempt): Attempt {
    Attempt(After(frames, a.result), used + a.used)
  }

  function Receive(events: seq<Event>): (a: Attempt)
    ensures a.used <= |events|
  {
    if events == [] then Attempt(StillWaiting, 0)
    else
      match events[0]
      case Enobufs => Attempt(Overflowed, 1)
      case RecvFailed => Attempt(Broke(NetlinkError.Recv), 1)
      case Datagram(d) =>
        var s := ScanDatagram(d, RECV_BUF_LEN);
        match s.verdict
        case Done => Attempt(Complete(s.frames), 1)
        case Failed(e) => Attempt(Broke(e), 1)
        case More => AddFrames(s.frames, 1, Receive(events[1..]))
  }

  /** What a datagram holds beyond 32 KiB is not received. */
  lemma {:induction false} LongDatagramIsCut(d: bytes, later: seq<Event>)
    requires |d| > 32768
    ensures Receive([Datagram(d)] + later) == Receive([Datagram(d[..32768])] + later)
  {
    hide Frame, InterpretFramed;
    assert ([Datagram(d)] + later)[1..] == later == ([Datagram(d[..32768])] + later)[1..];
  }

  /** An attempt takes datagrams, and an event of another kind only as its last. */
  lemma {:induction false} ReceiveShape(events: seq<Event>)
    ensures var a := Receive(events);
            && (forall i :: 0 <= i < a.used - 1 ==> events[i].Datagram?)
            && (a.result.StillWaiting? ==> forall i :: 0 <= i < a.used ==> events[i].Datagram?)
            && (!a.result.StillWaiting? ==> a.used > 0 && (a.result.Overflowed? <==> events[a.used - 1].Enobufs?))
            && (a.result.Complete? ==> events[a.used - 1].Datagram?)
  {
    hide ScanDatagram;
    if events != [] && events[0].Datagram? && ScanDatagram(events[0].data, RECV_BUF_LEN).verdict.More? {
      ReceiveShape(events[1..]);
    }
  }

  lemma {:induction false} AddFramesTwice(f: seq<bytes>, m: nat, g: seq<bytes>, n: nat, a: Attempt)
    ensures AddFrames(f, m, AddFrames(g, n, a)) == AddFrames(f + g, m + n, a)
  {
    if a.result.Complete? {
      assert f + (g + a.result.frames) == f + g + a.result.frames;
    }
  }

  // ---- The list specification of an attempt ----

  predicate WellFramed(e: Event) {
    e.Datagram? && !Frame(Clip(e.data, RECV_BUF_LEN)).malformed
  }

  /** All messages of the leading datagrams, laid out as one list; a malformed datagram ends the run with its
      good part. */
  function LeadingMsgs(events: seq<Event>): seq<Msg> {
    if events == [] || !events[0].Datagram? then []
    else
      Frame(Clip(events[0].data, RECV_BUF_LEN)).msgs
      + if WellFramed(events[0]) then LeadingMsgs(events[1..]) else []
  }

  /** What ends the leading run of datagrams. */
  function Ending(events: seq<Event>): Reception {
    if events == [] then StillWaiting
    else
      match events[0]
      case Enobufs => Overflowed
      case RecvFailed => Broke(NetlinkError.Recv)
      case Datagram(_) => if WellFramed(events[0]) then Ending(events[1..]) else Broke(Parse)
  }

  /** The answer of a message list: complete, failed, or undecided. */
  function Answer(msgs: seq<Msg>, undecided: Reception): Reception {
    var s := Interpret(msgs);
    match s.verdict
    case Done => Complete(s.frames)
    case Failed(e) => Broke(e)
    case More => undecided
  }

  /** The receive loop refines the list specification: lay out all messages first, then read the answer off the list.
      Where datagram boundaries fall does not matter. */
  lemma {:induction false} ReceiveRefinesList(events: seq<Event>)
    ensures Receive(events).result == Answer(LeadingMsgs(events), Ending(events))
    ensures !Ending(events).Complete?
  {
    if events != [] && events[0].Datagram? {
      hide Frame, Interpret, InterpretFramed;
      var f := Frame(Clip(events[0].data, RECV_BUF_LEN));
      AnswerFramed(f, Ending(events[1..]));
      if WellFramed(events[0]) {
        ReceiveRefinesList(events[1..]);
        AnswerAppend(f.msgs, LeadingMsgs(events[1..]), Ending(events[1..]));
      } else {
        assert f.msgs + [] == f.msgs;
      }
    }
  }

  /** The verdict of one datagram, followed by what the rest answers. */
  function FollowedBy(s: Scan, next: Reception): Reception {
    match s.verdict
    case Done => Complete(s.frames)
    case Failed(e) => Broke(e)
    case More => After(s.frames, next)
  }

  lemma {:induction false} AnswerAppend(a: seq<Msg>, b: seq<Msg>, undecided: Reception)
    requires !undecided.Complete?
    ensures Answer(a + b, undecided) == FollowedBy(Interpret(a), Answer(b, undecided))
  {
    hide Interpret;
    InterpretAppend(a, b);
  }

  lemma {:induction false} AnswerFramed(f: Framed, next: Reception)
    ensures !f.malformed ==> InterpretFramed(f) == Interpret(f.msgs)
    ensures f.malformed ==> FollowedBy(InterpretFramed(f), next) == Answer(f.msgs, Broke(Parse))
  {
    hide Interpret;
  }

  /** A list of messages as the kernel may pack it: any grouping into datagrams that fit the receive buffer. */
  datatype Packet = Packet(ws: seq<Wired>, padLast: bool)

  predicate FitsPacket(p: Packet) {
    && |EncodeDatagram(p.ws, p.padLast)| <= 32768
    && forall i :: 0 <= i < |p.ws| ==> FitsMsg(p.ws[i].msg)
  }

  function Deliver(ps: seq<Packet>): seq<Event> {
    if ps == [] then [] else [Datagram(EncodeDatagram(ps[0].ws, ps[0].padLast))] + Deliver(ps[1..])
  }

  function Carried(ps: seq<Packet>): seq<Msg> {
    if ps == [] then [] else Msgs(ps[0].ws) + Carried(ps[1..])
  }

  lemma {:induction false} DeliveredMsgs(ps: seq<Packet>)
    requires forall i :: 0 <= i < |ps| ==> FitsPacket(ps[i])
    ensures LeadingMsgs(Deliver(ps)) == Carried(ps) && Ending(Deliver(ps)) == StillWaiting
  {
    hide EncodeDatagram, Frame, Msgs;
    if ps != [] {
      assert FitsPacket(ps[0]);
      FramePacked(ps[0].ws, ps[0].padLast);
      var ev := Deliver(ps);
      assert ev[1..] == Deliver(ps[1..]);
      DeliveredMsgs(ps[1..]);
    }
  }

  /** However well-formed messages are packed into datagrams, the answer is that of the message list. */
  lemma {:induction false} PackingDoesNotMatter(ps: seq<Packet>)
    requires forall i :: 0 <= i < |ps| ==> FitsPacket(ps[i])
    ensures Receive(Deliver(ps)).result == Answer(Carried(ps), StillWaiting)
  {
    DeliveredMsgs(ps);
    ReceiveRefinesList(Deliver(ps));
  }

  /** Position t of the list ends the dump: a DONE or a clean ACK there, and only messages before it that the parse
      goes on after. */
  ghost predicate EndsAt(msgs: seq<Msg>, t: nat) {
    t < |msgs| && CleanEnd(msgs[t]) && forall i :: 0 <= i < t ==> Passes(msgs[i])
  }

  /** An attempt is complete exactly when some message ends it, and then it holds exactly the data payloads
      before that one. */
  lemma {:induction false} CompleteIff(msgs: seq<Msg>, undecided: Reception, frames: seq<bytes>)
    requires !undecided.Complete?
    ensures Answer(msgs, undecided) == Complete(frames)
            <==> exists t: nat :: EndsAt(msgs, t) && frames == DataPayloads(msgs[..t])
  {
    hide StopOf, CleanEnd, Passes, DataPayloads;
    forall i | 0 <= i < |msgs|
      ensures (StopOf(msgs[i]) == Done <==> CleanEnd(msgs[i])) && (StopOf(msgs[i]) == More <==> Passes(msgs[i])) {
      MessageMeans(msgs[i]);
    }
    if t: nat :| EndsAt(msgs, t) && frames == DataPayloads(msgs[..t]) {
      var f := FirstStop(msgs);
      assert Stops(msgs[t]);
      assert f.Some? && f.value == t;
    }
    if Answer(msgs, undecided) == Complete(frames) {
      assert EndsAt(msgs, FirstStop(msgs).value);
    }
  }

  // ---- One dump: an attempt, and one retry behind a larger buffer ----

  datatype Outcome = Frames(frames: seq<bytes>, rcvbuf: nat) | Failure(error: NetlinkError) | Pending

  datatype Run = Run(host: Host, outcome: Outcome)

  function Doubled(size: nat): nat {
    Min(2 * size, MAX_RCVBUF)
  }

  /** The dump from its next send on; `retried` says that the overflow allowance is spent. */
  function DumpFrom(h: Host, size: nat, request: bytes, retried: bool): Run
    decreases !retried
  {
    var h1 := AfterSend(h, request);
    if !NextOk(h.sendOutcomes) then Run(h1, Failure(NetlinkError.Send))
    else
      var a := Receive(h1.events);
      AfterReceive(h1.(events := h1.events[a.used..]), a.result, size, request, retried)
  }

  function AfterReceive(h: Host, r: Reception, size: nat, request: bytes, retried: bool): Run
    decreases !retried, 0
  {
    match r
    case Complete(frames) => Run(h, Frames(frames, size))
    case Broke(e) => Run(h, Failure(e))
    case StillWaiting => Run(h, Pending)
    case Overflowed =>
      if retried || Doubled(size) == size then Run(h, Failure(RecvBufOverflow))
      else
        var h2 := AfterGrow(h, Doubled(size));
        if !NextOk(h.growOutcomes) then Run(h2, Failure(NetlinkError.Recv))
        else DumpFrom(h2, Doubled(size), request, true)
  }

  /** The inner receive loop: receives into one reused buffer until something ends the attempt. */
  method ReceiveLoop(kernel: Kernel) returns (r: Reception)
    modifies kernel
    ensures var a := Receive(old(kernel.host).events);
            r == a.result && kernel.host == old(kernel.host).(events := old(kernel.host).events[a.used..])
  {
    hide InterpretFramed, Frame;
    var out := new Vec<bytes>();
    var recvBuf := new byte[RECV_BUF_LEN];
    ghost var h := kernel.host;
    ghost var left := Receive(h.events);
    ghost var used := 0;
    while true
      invariant fresh(out) && fresh(recvBuf) && recvBuf.Length == RECV_BUF_LEN
      invariant used <= |h.events| && kernel.host == h.(events := h.events[used..])
      invariant left == Receive(kernel.host.events)
      invariant AddFrames(out.items, used, left) == Receive(h.events)
      decreases |kernel.host.events|
    {
      ghost var before := out.items;
      var got := kernel.Recv(recvBuf);
      match got {
        case Waiting =>
          return StillWaiting;
        case Overflow =>
          return Overflowed;
        case RecvError =>
          return Broke(NetlinkError.Recv);
        case Received(n) =>
          var verdict := ParseDatagram(recvBuf, n, out);
          match verdict {
            case Done => return Complete(out.items);
            case Failed(e) => return Broke(e);
            case More =>
              left := Receive(kernel.host.events);
              AddFramesTwice(before, used, out.items[|before|..], 1, left);
              used := used + 1;
          }
      }
    }
  }

  method BlockingDump(kernel: Kernel, rcvbufSize: nat, request: bytes) returns (outcome: Outcome)
    modifies kernel
    ensures Run(kernel.host, outcome) == DumpFrom(old(kernel.host), rcvbufSize, request, false)
  {
    hide Receive;
    var size := rcvbufSize;
    var enobufsRetried := false;
    ghost var all := DumpFrom(kernel.host, rcvbufSize, request, false);
    while true
      invariant DumpFrom(kernel.host, size, request, enobufsRetried) == all
      decreases !enobufsRetried
    {
      var sent := kernel.Send(request);
      if !sent {
        return Failure(NetlinkError.Send);
      }
      var r := ReceiveLoop(kernel);
      match r {
        case Complete(frames) =>
          return Frames(frames, size);
        case Broke(e) =>
          return Failure(e);
        case StillWaiting =>
          return Pending;
        case Overflowed =>
          if enobufsRetried {
            return Failure(RecvBufOverflow);
          }
          enobufsRetried := true;
          var new_ := Min(size * 2, MAX_RCVBUF);
          if new_ == size {
            return Failure(RecvBufOverflow);
          }
          var grown := kernel.SetRcvbuf(new_);
          if !grown {
            return Failure(NetlinkError.Recv);
          }
          size := new_;
      }
    }
  }

  // ---- What every dump keeps, whatever the trace ----

  predicate AllDatagrams(events: seq<Event>) {
    forall i :: 0 <= i < |events| ==> events[i].Datagram?
  }

  /** `since` is nothing but datagrams, some message of theirs ends the dump cleanly, and `frames` are exactly
      the data payloads before that message. */
  ghost predicate HeldBy(since: seq<Event>, frames: seq<bytes>) {
    && AllDatagrams(since)
    && exists t: nat :: EndsAt(LeadingMsgs(since), t) && frames == DataPayloads(LeadingMsgs(since)[..t])
  }

  /** The result came out of the events received after the last send on record. */
  ghost predicate HeldSinceLastSend(h: Host, run: Run) {
    && run.outcome.Frames? && run.host.sent != []
    && var left := run.host.sent[|run.host.sent| - 1].left;
       && |run.host.events| <= left <= |h.events|
       && HeldBy(h.events[|h.events| - left..|h.events| - |run.host.events|], run.outcome.frames)
  }

  /** What one dump asked of the kernel and consumed from it: it sends again only right after an overflow, always
      the same octets, and no other event it goes on after is anything but a datagram. */
  ghost predicate SafeRun(h: Host, run: Run, request: bytes, resent: Option<nat>) {
    var used := |h.events| - |run.host.events|;
    && 0 <= used && run.host.events == h.events[used..]
    && run.host.sent == h.sent + [Sent(request, |h.events|)]
                        + (if resent.Some? && resent.value <= used then [Sent(request, |h.events| - resent.value)]
                           else [])
    && (resent.Some? ==> 0 < resent.value <= used && h.events[resent.value - 1].Enobufs?)
    && (forall i :: 0 <= i < used - 1 && resent != Some(i + 1) ==> h.events[i].Datagram?)
    && (run.outcome.Frames? ==> HeldSinceLastSend(h, run))
  }

  lemma {:induction false} CompleteOnItsOwn(events: seq<Event>)
    requires Receive(events).result.Complete?
    ensures var n := Receive(events).used; Receive(events[..n]).result == Receive(events).result
  {
    hide ScanDatagram;
    ReceiveShape(events);
    var n := Receive(events).used;
    assert events[..n][0] == events[0];
    if n > 1 {
      CompleteOnItsOwn(events[1..]);
      assert events[..n][1..] == events[1..][..n - 1];
    }
  }

  lemma {:induction false} CompleteIsHeld(events: seq<Event>)
    requires Receive(events).result.Complete?
    ensures HeldBy(events[..Receive(events).used], Receive(events).result.frames)
  {
    hide Receive, LeadingMsgs, Ending, Answer, DataPayloads;
    ReceiveShape(events);
    CompleteOnItsOwn(events);
    var since := events[..Receive(events).used];
    ReceiveRefinesList(since);
    CompleteIff(LeadingMsgs(since), Ending(since), Receive(events).result.frames);
  }

  /** A dump that does not go around its loop again. */
  lemma {:induction false} SingleSendSafe(h: Host, size: nat, request: bytes, retried: bool)
    requires retried || Doubled(size) == size || !NextOk(h.growOutcomes) || !NextOk(h.sendOutcomes)
             || !Receive(h.events).result.Overflowed?
    ensures SafeRun(h, DumpFrom(h, size, request, retried), request, None)
  {
    hide Receive, HeldBy;
    ReceiveShape(h.events);
    var a := Receive(h.events);
    var run := DumpFrom(h, size, request, retried);
    if NextOk(h.sendOutcomes) {
      assert run
             == AfterReceive(AfterSend(h, request).(events := h.events[a.used..]), a.result, size, request, retried);
      if a.result.Complete? {
        CompleteIsHeld(h.events);
        assert h.events[0..a.used] == h.events[..a.used];
      }
    }
  }

  /** A second attempt after an overflow: its trace follows the first one. */
  lemma {:induction false} SecondSendSafe(h: Host, h2: Host, run: Run, request: bytes)
    requires var a := Receive(h.events);
             a.result.Overflowed? && h2.events == h.events[a.used..] && h2.sent == h.sent + [Sent(request, |h.events|)]
    requires SafeRun(h2, run, request, None)
    ensures SafeRun(h, run, request, Some(Receive(h.events).used))
  {
    hide Receive, HeldBy;
    ReceiveShape(h.events);
    var cut := Receive(h.events).used;
    var used2 := |h2.events| - |run.host.events|;
    assert h2.events[0..used2] == h.events[cut..cut + used2];
    assert forall i :: cut <= i < |h.events| ==> h.events[i] == h2.events[i - cut];
  }

  /** Over every trace: a dump sends its request once or twice, always the same octets; it sends again only after
      an overflow; and the frames it returns are the data payloads received since its last send, up to a clean end
      and with no interrupted message. */
  lemma {:induction false} DumpSafety(h: Host, size: nat, request: bytes)
    ensures exists resent :: SafeRun(h, DumpFrom(h, size, request, false), request, resent)
  {
    hide Receive, SafeRun;
    var a := Receive(h.events);
    if NextOk(h.sendOutcomes) && a.result.Overflowed? && Doubled(size) != size && NextOk(h.growOutcomes) {
      var h2 := AfterGrow(AfterSend(h, request).(events := h.events[a.used..]), Doubled(size));
      SingleSendSafe(h2, Doubled(size), request, true);
      SecondSendSafe(h, h2, DumpFrom(h, size, request, false), request);
    } else {
      SingleSendSafe(h, size, request, false);
    }
  }
}
