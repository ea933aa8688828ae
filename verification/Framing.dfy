/** The netlink message framer and interpreter: `build_request` and `parse_datagram`
    of crates/nlx-netlink/src/transport.rs. */
module Framing {
  import opened Wrappers
  import opened Bytes
  import Wire

  const NLMSG_HDRLEN := 16

  const NLMSG_NOOP := 1
  const NLMSG_ERROR := 2
  const NLMSG_DONE := 3
  const NLMSG_OVERRUN := 4

  // Flag bits, by weight.
  const NLM_F_REQUEST := 0x0001
  const NLM_F_DUMP_INTR := 0x0010
  const NLM_F_ROOT := 0x0100
  const NLM_F_MATCH := 0x0200

  /** Transport errors; the message strings of the source are dropped. */
  datatype NetlinkError =
    | Open
    | DumpIntr
    | RecvBufOverflow
    | Recv
    | Send
    | KernelError(errno: int)
    | Parse

  /** The part of a message that the parser looks at. */
  datatype Msg = Msg(ty: u16, flags: u16, payload: bytes)

  /** A message with the two header fields no reader here checks. */
  datatype Wired = Wired(msg: Msg, seqno: u32, pid: u32)

  // ---- Framing ----

  /** The messages of a datagram, and whether framing ended at a length below the header size. */
  datatype Framed = Framed(msgs: seq<Msg>, malformed: bool)

  function NlmsgLen(buf: bytes): nat
    requires NLMSG_HDRLEN <= |buf|
  {
    FromLE(buf[0..4])
  }

  /** A whole message starts here. */
  predicate StartsMsg(buf: bytes) {
    NLMSG_HDRLEN <= |buf| && NLMSG_HDRLEN <= NlmsgLen(buf) <= |buf|
  }

  function HeadMsg(buf: bytes): Msg
    requires StartsMsg(buf)
  {
    RadixValues();
    Msg(FromLE(buf[4..6]), FromLE(buf[6..8]), buf[NLMSG_HDRLEN..NlmsgLen(buf)])
  }

  function TailMsgs(buf: bytes): (rest: bytes)
    requires StartsMsg(buf)
    ensures |rest| < |buf|
  {
    Wire.Drop(buf, Wire.Align4(NlmsgLen(buf)))
  }

  function Frame(buf: bytes): Framed
    decreases |buf|
  {
    if StartsMsg(buf) then
      var rest := Frame(TailMsgs(buf));
      Framed([HeadMsg(buf)] + rest.msgs, rest.malformed)
    else
      Framed([], NLMSG_HDRLEN <= |buf| && NlmsgLen(buf) < NLMSG_HDRLEN)
  }

  // ---- Interpretation: the list specification of the parser ----

  datatype Verdict = Done | More | Failed(error: NetlinkError)

  datatype Scan = Scan(frames: seq<bytes>, verdict: Verdict)

  function ToI32(x: u32): int {
    if x < 0x8000_0000 then x else x - U32
  }

  /** `i32::abs` of the release build: the one value without a positive counterpart stays as it is. */
  function AbsI32(x: int): int {
    if x < 0 && x != -0x8000_0000 then -x else x
  }

  /** What a message that ends the parse says, or More for one that lets it go on. */
  function StopOf(m: Msg): Verdict {
    if HasBit(m.flags, NLM_F_DUMP_INTR) then Failed(DumpIntr)
    else if m.ty == NLMSG_DONE then Done
    else if m.ty == NLMSG_OVERRUN then Failed(RecvBufOverflow)
    else if m.ty == NLMSG_ERROR then
      if |m.payload| < 4 then Failed(Parse)
      else
        var errno := ToI32(ReadU32(m.payload).value);
        if errno != 0 then Failed(KernelError(AbsI32(errno))) else Done
    else More
  }

  predicate Stops(m: Msg) {
    StopOf(m) != More
  }

  /** The payloads of the application messages among msgs. */
  function DataPayloads(msgs: seq<Msg>): seq<bytes> {
    if msgs == [] then []
    else (if msgs[0].ty == NLMSG_NOOP then [] else [msgs[0].payload]) + DataPayloads(msgs[1..])
  }

  /** The position of the first message that ends the parse. */
  function FirstStop(msgs: seq<Msg>): (r: Option<nat>)
    ensures r.None? <==> forall i :: 0 <= i < |msgs| ==> !Stops(msgs[i])
    ensures r.Some? ==> r.value < |msgs| && Stops(msgs[r.value]) && forall i :: 0 <= i < r.value ==> !Stops(msgs[i])
  {
    if msgs == [] then None
    else if Stops(msgs[0]) then Some(0)
    else
      match FirstStop(msgs[1..])
      case None => None
      case Some(i) => Some(i + 1)
  }

  /** The list specification: the data payloads before the first ending message, and what that message says. */
  function Interpret(msgs: seq<Msg>): Scan {
    match FirstStop(msgs)
    case None => Scan(DataPayloads(msgs), More)
    case Some(t) => Scan(DataPayloads(msgs[..t]), StopOf(msgs[t]))
  }

  /** A datagram: interpret its messages; a malformed tail counts only when no message ended the parse before it. */
  function InterpretFramed(f: Framed): Scan {
    var s := Interpret(f.msgs);
    if s.verdict == More && f.malformed then s.(verdict := Failed(Parse)) else s
  }

  // ---- What a message says, in the kernel's numbers ----

  /** A clean end: type 3, or type 2 with error code zero, and not interrupted. */
  predicate CleanEnd(m: Msg) {
    !HasBit(m.flags, 0x10) && (m.ty == 3 || (m.ty == 2 && |m.payload| >= 4 && m.payload[..4] == [0, 0, 0, 0]))
  }

  /** A message the parse goes on after: not interrupted, and of no control type but NOOP. */
  predicate Passes(m: Msg) {
    !HasBit(m.flags, 0x10) && m.ty !in {2, 3, 4}
  }

  /** What each type of message does to a parse. */
  lemma {:induction false} MessageMeans(m: Msg)
    ensures HasBit(m.flags, 0x10) ==> StopOf(m) == Failed(DumpIntr)
    ensures StopOf(m) == Done <==> CleanEnd(m)
    ensures StopOf(m) == More <==> Passes(m)
    ensures !HasBit(m.flags, 0x10) && m.ty == 4 ==> StopOf(m) == Failed(RecvBufOverflow)
    ensures !HasBit(m.flags, 0x10) && m.ty == 2 && |m.payload| < 4 ==> StopOf(m) == Failed(Parse)
    ensures DataPayloads([m]) == if m.ty == 1 then [] else [m.payload]
  {
    hide FromLE, HasBit;
    if |m.payload| >= 4 {
      var p := m.payload;
      assert p[..4] == [p[0], p[1], p[2], p[3]];
      OctetWeights(p[0], p[1], p[2], p[3]);
    }
  }

  lemma {:induction false} ErrorStops(flags: u16, payload: bytes, raw: u32)
    requires !HasBit(flags, 0x10) && ReadU32(payload) == Some(raw)
    ensures StopOf(Msg(2, flags, payload)) == if raw == 0 then Done
                                              else if raw <= 0x8000_0000 then Failed(KernelError(AbsI32(ToI32(raw))))
                                              else Failed(KernelError(0x1_0000_0000 - raw))
    ensures raw < 0x8000_0000 ==> AbsI32(ToI32(raw)) == raw
  {
    hide ReadLE, HasBit;
  }

  /** An error message: the code is negated in the message, and every code but zero ends the parse with that error. */
  lemma {:induction false} ErrorCode(flags: u16, e: nat, rest: bytes)
    requires !HasBit(flags, 0x10) && e < 0x8000_0000
    ensures StopOf(Msg(2, flags, ToLE((0x1_0000_0000 - e) % 0x1_0000_0000, 4) + rest))
         == if e == 0 then Done else Failed(KernelError(e))
    ensures StopOf(Msg(2, flags, ToLE(e, 4) + rest)) == if e == 0 then Done else Failed(KernelError(e))
  {
    hide ReadLE, ToLE, HasBit, StopOf, Radix, AbsI32, ToI32;
    RadixValues();
    var raw: u32 := if e == 0 then 0 else 0x1_0000_0000 - e;
    assert raw == (0x1_0000_0000 - e) % 0x1_0000_0000;
    ReadersInvertWriters(raw, 4, rest);
    ReadersInvertWriters(e, 4, rest);
    ErrorStops(flags, ToLE(raw, 4) + rest, raw);
    ErrorStops(flags, ToLE(e, 4) + rest, e);
  }

  function Prepend(frames: seq<bytes>, s: Scan): Scan {
    s.(frames := frames + s.frames)
  }

  lemma {:induction false} InterpretCons(m: Msg, rest: seq<Msg>)
    ensures Interpret([m] + rest) ==
            if Stops(m) then Scan([], StopOf(m)) else Prepend(DataPayloads([m]), Interpret(rest))
  {
    var msgs := [m] + rest;
    assert msgs[1..] == rest;
    if !Stops(m) && FirstStop(rest).Some? {
      var t := FirstStop(rest).value;
      assert msgs[..t + 1][1..] == rest[..t];
    }
  }

  /** Interpretation runs on over a concatenation exactly when the first part did not end it. */
  lemma {:induction false} InterpretAppend(a: seq<Msg>, b: seq<Msg>)
    ensures Interpret(a + b) ==
            if Interpret(a).verdict == More then Prepend(Interpret(a).frames, Interpret(b)) else Interpret(a)
  {
    if a == [] {
      assert a + b == b;
      assert Interpret(a) == Scan([], More);
    } else {
      assert a == [a[0]] + a[1..] && a + b == [a[0]] + (a[1..] + b);
      InterpretCons(a[0], a[1..]);
      InterpretCons(a[0], a[1..] + b);
      InterpretAppend(a[1..], b);
      PrependTwice(DataPayloads([a[0]]), Interpret(a[1..]).frames, Interpret(b));
    }
  }

  lemma {:induction false} PrependTwice(f: seq<bytes>, g: seq<bytes>, s: Scan)
    ensures Prepend(f, Prepend(g, s)) == Prepend(f + g, s)
  {
    assert f + (g + s.frames) == f + g + s.frames;
  }

  lemma {:induction false} MsgSlices(head: bytes, ids: bytes, payload: bytes, rest: bytes)
    requires |head| == |ids| == 8
    ensures var b := head + ids + payload + rest;
            && b[0..4] == head[0..4] && b[4..6] == head[4..6] && b[6..8] == head[6..8]
            && b[16..16 + |payload|] == payload && b[16 + |payload|..] == rest
  {
  }

  /** A message octet by octet: length, type and flags least significant octet first, eight octets nobody reads, the
      payload, and padding to four octets. */
  lemma {:induction false} MsgInOctets(l: bytes, t0: byte, t1: byte, f0: byte, f1: byte, ids: bytes, payload: bytes,
        padding: bytes, rest: bytes)
    requires |l| == 4 && FromLE(l) == 16 + |payload| && |ids| == 8 && |padding| == (4 - |payload| % 4) % 4
    ensures var f := Frame(rest);
            Frame(l + [t0, t1, f0, f1] + ids + payload + (padding + rest))
            == Framed([Msg(t0 + 256 * t1, f0 + 256 * f1, payload)] + f.msgs, f.malformed)
  {
    hide FromLE, Frame, TailMsgs;
    var head := l + [t0, t1, f0, f1];
    var b := head + ids + payload + (padding + rest);
    MsgSlices(head, ids, payload, padding + rest);
    assert head[0..4] == l && head[4..6] == [t0, t1] && head[6..8] == [f0, f1];
    OctetWeights(t0, t1, 0, 0);
    OctetWeights(f0, f1, 0, 0);
    TailBehind(b, 16 + |payload|, padding, rest);
    FrameHead(b);
  }

  lemma {:induction false} TailBehind(b: bytes, n: nat, padding: bytes, rest: bytes)
    requires StartsMsg(b) && NlmsgLen(b) == n && b[n..] == padding + rest && |padding| == (4 - n % 4) % 4
    ensures TailMsgs(b) == rest
  {
    hide FromLE;
    Wire.BehindPadding(b, n, padding, rest);
  }

  lemma {:induction false} FrameHead(buf: bytes)
    requires StartsMsg(buf)
    ensures var f := Frame(TailMsgs(buf)); Frame(buf) == Framed([HeadMsg(buf)] + f.msgs, f.malformed)
  {
  }

  /** Where framing stops: without a whole header, at a length below sixteen, which is malformed, or at one beyond the
      end, which is not. */
  lemma {:induction false} FramingStops(buf: bytes)
    ensures |buf| < 16 ==> Frame(buf) == Framed([], false)
    ensures |buf| >= 16 && FromLE(buf[..4]) < 16 ==> Frame(buf) == Framed([], true)
    ensures |buf| >= 16 && FromLE(buf[..4]) > |buf| ==> Frame(buf) == Framed([], false)
  {
  }

  /** One round of the parser, seen from the octets that are left. */
  lemma {:induction false} InterpretHead(buf: bytes)
    requires StartsMsg(buf)
    ensures var m := HeadMsg(buf);
            InterpretFramed(Frame(buf)) ==
            if Stops(m) then Scan([], StopOf(m))
            else Prepend(if m.ty == NLMSG_NOOP then [] else [m.payload], InterpretFramed(Frame(TailMsgs(buf))))
  {
    InterpretCons(HeadMsg(buf), Frame(TailMsgs(buf)).msgs);
    assert DataPayloads([HeadMsg(buf)]) == if HeadMsg(buf).ty == NLMSG_NOOP then [] else [HeadMsg(buf).payload];
  }

  lemma {:induction false} InterpretNoHead(buf: bytes)
    requires !StartsMsg(buf)
    ensures InterpretFramed(Frame(buf))
         == Scan([], if NLMSG_HDRLEN <= |buf| && NlmsgLen(buf) < NLMSG_HDRLEN then Failed(Parse) else More)
  {
    assert Interpret([]) == Scan([], More);
  }

  lemma {:induction false} SliceOfDrop(buf: bytes, pos: nat, i: nat, j: nat)
    requires pos <= |buf| && i <= j <= |buf| - pos
    ensures |Wire.Drop(buf, pos)| == |buf| - pos
    ensures Wire.Drop(buf, pos)[i..j] == buf[pos + i..pos + j]
  {
    assert Wire.Drop(buf, pos) == buf[pos..];
  }

  // ---- parse_datagram ----

  /** What is still to come from position pos on, which may lie beyond the end. */
  ghost function ScanFrom(buf: bytes, pos: nat): Scan {
    InterpretFramed(Frame(Wire.Drop(buf, pos)))
  }

  /** The header checks of one round at position pos. */
  datatype Step = Exhausted | Malformed | Message(msg: Msg, next: nat)

  function StepAt(buf: bytes, pos: nat): Step {
    if pos + NLMSG_HDRLEN > |buf| then Exhausted
    else
      var len := FromLE(buf[pos..pos + 4]);
      if len < NLMSG_HDRLEN then Malformed
      else if pos + len > |buf| then Exhausted
      else
        RadixValues();
        var m := Msg(FromLE(buf[pos + 4..pos + 6]), FromLE(buf[pos + 6..pos + 8]), buf[pos + NLMSG_HDRLEN..pos + len]);
        Message(m, pos + Wire.Align4(len))
  }

  lemma {:induction false} StepMeans(buf: bytes, pos: nat)
    ensures var here := Wire.Drop(buf, pos);
            match StepAt(buf, pos)
            case Message(m, next) => pos < next && StartsMsg(here) && m == HeadMsg(here)
              && TailMsgs(here) == Wire.Drop(buf, next)
            case Malformed => !StartsMsg(here) && NLMSG_HDRLEN <= |here| && NlmsgLen(here) < NLMSG_HDRLEN
            case Exhausted => !StartsMsg(here) && (NLMSG_HDRLEN <= |here| ==> NlmsgLen(here) >= NLMSG_HDRLEN)
  {
    hide FromLE;
    var here := Wire.Drop(buf, pos);
    if pos + NLMSG_HDRLEN <= |buf| {
      SliceOfDrop(buf, pos, 0, 4);
      SliceOfDrop(buf, pos, 4, 6);
      SliceOfDrop(buf, pos, 6, 8);
      var len := FromLE(buf[pos..pos + 4]);
      if NLMSG_HDRLEN <= len && pos + len <= |buf| {
        SliceOfDrop(buf, pos, NLMSG_HDRLEN, len);
        assert TailMsgs(here) == Wire.Drop(buf, pos + Wire.Align4(len));
      }
    }
  }

  lemma {:induction false} RoundAt(buf: bytes, pos: nat)
    ensures match StepAt(buf, pos)
            case Message(m, next) =>
              pos < next
              && ScanFrom(buf, pos)
                 == if Stops(m) then Scan([], StopOf(m))
                    else Prepend(if m.ty == NLMSG_NOOP then [] else [m.payload], ScanFrom(buf, next))
            case Malformed => ScanFrom(buf, pos) == Scan([], Failed(Parse))
            case Exhausted => ScanFrom(buf, pos) == Scan([], More)
    ensures pos + NLMSG_HDRLEN > |buf| ==> StepAt(buf, pos).Exhausted?
  {
    StepMeans(buf, pos);
    var here := Wire.Drop(buf, pos);
    if StepAt(buf, pos).Message? {
      InterpretHead(here);
    } else {
      InterpretNoHead(here);
    }
  }

  /** The checks on one framed message: pushes an application payload, and says whether the parse ends here. */
  method Dispatch(m: Msg, out: Vec<bytes>) returns (r: Verdict)
    modifies out
    ensures r == StopOf(m)
    ensures out.items == old(out.items) + if Stops(m) || m.ty == NLMSG_NOOP then [] else [m.payload]
  {
    if HasBit(m.flags, NLM_F_DUMP_INTR) {
      return Failed(DumpIntr);
    }
    if m.ty == NLMSG_NOOP {
    } else if m.ty == NLMSG_DONE {
      return Done;
    } else if m.ty == NLMSG_OVERRUN {
      return Failed(RecvBufOverflow);
    } else if m.ty == NLMSG_ERROR {
      if |m.payload| < 4 {
        return Failed(Parse);
      }
      var rawErrno := ToI32(ReadU32(m.payload).value);
      if rawErrno != 0 {
        return Failed(KernelError(AbsI32(rawErrno)));
      }
      return Done;
    } else {
      out.Push(m.payload);
    }
    return More;
  }

  /** Walks a datagram in the first `len` octets of a receive buffer, pushing payloads as it goes and stopping
      at the first message that ends the parse: the same as framing everything and interpreting the list. */
  method ParseDatagram(datagram: array<byte>, len: nat, out: Vec<bytes>) returns (r: Verdict)
    modifies out
    ensures var s := InterpretFramed(Frame(datagram[..Min(len, datagram.Length)]));
            out.items == old(out.items) + s.frames && r == s.verdict
  {
    var buf := datagram[..Min(len, datagram.Length)];
    assert Wire.Drop(buf, 0) == buf;
    r := ParseFrom(buf, out);
  }

  /** Pushing onto `start`, the parser stands at pos with `now` pushed so far. */
  ghost predicate Progress(start: seq<bytes>, buf: bytes, pos: nat, now: seq<bytes>) {
    && start + ScanFrom(buf, 0).frames == now + ScanFrom(buf, pos).frames
    && ScanFrom(buf, 0).verdict == ScanFrom(buf, pos).verdict
  }

  ghost predicate Finished(start: seq<bytes>, buf: bytes, now: seq<bytes>, r: Verdict) {
    start + ScanFrom(buf, 0).frames == now && ScanFrom(buf, 0).verdict == r
  }

  lemma {:induction false} ProgressRound(start: seq<bytes>, buf: bytes, pos: nat, now: seq<bytes>)
    requires Progress(start, buf, pos, now)
    ensures match StepAt(buf, pos)
            case Message(m, next) =>
              if Stops(m) then Finished(start, buf, now, StopOf(m))
              else pos < next && Progress(start, buf, next, now + if m.ty == NLMSG_NOOP then [] else [m.payload])
            case Malformed => Finished(start, buf, now, Failed(Parse))
            case Exhausted => Finished(start, buf, now, More)
    ensures pos + NLMSG_HDRLEN > |buf| ==> StepAt(buf, pos).Exhausted?
  {
    hide ScanFrom, StopOf, StepAt;
    RoundAt(buf, pos);
    match StepAt(buf, pos)
    case Message(m, next) =>
      if !Stops(m) {
        var d := if m.ty == NLMSG_NOOP then [] else [m.payload];
        assert now + (d + ScanFrom(buf, next).frames) == now + d + ScanFrom(buf, next).frames;
      }
    case _ =>
  }

  method ParseFrom(buf: bytes, out: Vec<bytes>) returns (r: Verdict)
    modifies out
    ensures Finished(old(out.items), buf, out.items, r)
  {
    var pos := 0;
    assert Progress(out.items, buf, 0, out.items);
    hide Progress, Finished, StopOf, StepAt;
    while pos + NLMSG_HDRLEN <= |buf|
      invariant Progress(old(out.items), buf, pos, out.items)
      decreases |buf| - pos
    {
      ProgressRound(old(out.items), buf, pos, out.items);
      match StepAt(buf, pos) {
        case Malformed =>
          return Failed(Parse);
        case Exhausted =>
          return More;
        case Message(m, next) =>
          r := Dispatch(m, out);
          if r != More {
            assert out.items + [] == out.items;
            return;
          }
          pos := next;
      }
    }
    ProgressRound(old(out.items), buf, pos, out.items);
    return More;
  }

  // ---- Building messages ----

  function Header(m: Msg, seqno: u32, pid: u32): (r: bytes)
    ensures |r| == NLMSG_HDRLEN
  {
    ToLE((NLMSG_HDRLEN + |m.payload|) % U32, 4) + ToLE(m.ty, 2) + ToLE(m.flags, 2) + ToLE(seqno, 4) + ToLE(pid, 4)
  }

  /** A message without the padding that would align a following one. */
  function EncodeBare(w: Wired): (r: bytes)
    ensures |r| == NLMSG_HDRLEN + |w.msg.payload|
  {
    Header(w.msg, w.seqno, w.pid) + w.msg.payload
  }

  function MsgPadding(m: Msg): nat {
    Wire.Align4(NLMSG_HDRLEN + |m.payload|) - (NLMSG_HDRLEN + |m.payload|)
  }

  /** Messages packed into one datagram. The kernel aligns every message but may leave the last one bare. */
  function EncodeDatagram(ws: seq<Wired>, padLast: bool): bytes {
    if ws == [] then []
    else if |ws| == 1 && !padLast then EncodeBare(ws[0])
    else EncodeBare(ws[0]) + Zeros(MsgPadding(ws[0].msg)) + EncodeDatagram(ws[1..], padLast)
  }

  function Msgs(ws: seq<Wired>): seq<Msg> {
    if ws == [] then [] else [ws[0].msg] + Msgs(ws[1..])
  }

  predicate FitsMsg(m: Msg) {
    NLMSG_HDRLEN + |m.payload| < U32
  }

  lemma {:induction false} Slices(len: bytes, ty: bytes, flags: bytes, ids: bytes, payload: bytes, rest: bytes)
    requires |len| == 4 && |ty| == 2 && |flags| == 2 && |ids| == 8
    ensures var b := len + ty + flags + ids + payload + rest;
            b[0..4] == len && b[4..6] == ty && b[6..8] == flags
            && b[NLMSG_HDRLEN..NLMSG_HDRLEN + |payload|] == payload
  {
  }

  lemma {:induction false} HeaderParts(w: Wired, rest: bytes)
    requires FitsMsg(w.msg)
    ensures var ids := ToLE(w.seqno, 4) + ToLE(w.pid, 4);
            EncodeBare(w) + rest
            == ToLE(NLMSG_HDRLEN + |w.msg.payload|, 4) + ToLE(w.msg.ty, 2) + ToLE(w.msg.flags, 2) + ids + w.msg.payload
               + rest
  {
    hide ToLE;
  }

  lemma {:induction false} HeaderFields(w: Wired, rest: bytes)
    requires FitsMsg(w.msg)
    ensures var b := EncodeBare(w) + rest;
            StartsMsg(b) && HeadMsg(b) == w.msg && NlmsgLen(b) == NLMSG_HDRLEN + |w.msg.payload|
  {
    hide FromLE, ToLE, EncodeBare;
    RadixValues();
    IntegerRoundTrip(NLMSG_HDRLEN + |w.msg.payload|, 4);
    IntegerRoundTrip(w.msg.ty, 2);
    IntegerRoundTrip(w.msg.flags, 2);
    HeaderParts(w, rest);
    Slices(ToLE(NLMSG_HDRLEN + |w.msg.payload|, 4), ToLE(w.msg.ty, 2), ToLE(w.msg.flags, 2),
           ToLE(w.seqno, 4) + ToLE(w.pid, 4), w.msg.payload, rest);
  }

  /** Framing reads back a packed datagram, whatever the sequence numbers and port ids are. */
  lemma {:induction false} FramePacked(ws: seq<Wired>, padLast: bool)
    requires forall i :: 0 <= i < |ws| ==> FitsMsg(ws[i].msg)
    ensures Frame(EncodeDatagram(ws, padLast)) == Framed(Msgs(ws), false)
  {
    hide EncodeBare, FromLE;
    if ws != [] {
      var w := ws[0];
      var bare := EncodeBare(w);
      if |ws| == 1 && !padLast {
        HeaderFields(w, []);
        assert bare + [] == bare;
        assert TailMsgs(bare) == [];
      } else {
        var rest := EncodeDatagram(ws[1..], padLast);
        var b := bare + Zeros(MsgPadding(w.msg)) + rest;
        assert b == bare + (Zeros(MsgPadding(w.msg)) + rest);
        HeaderFields(w, Zeros(MsgPadding(w.msg)) + rest);
        assert TailMsgs(b) == rest;
        FramePacked(ws[1..], padLast);
      }
    }
  }

  /** The process-wide request counter, a wrapping 32-bit atomic. */
  class SeqCounter {
    var next: u32

    constructor ()
      ensures next == 1
    {
      next := 1;
    }

    method FetchAdd() returns (r: u32)
      modifies this
      ensures r == old(next) && next == (old(next) + 1) % U32
    {
      r := next;
      next := (next + 1) % U32;
    }
  }

  function RequestMsg(msgType: u16, flags: u16, payload: bytes): Msg {
    Msg(msgType, if HasBit(flags, NLM_F_REQUEST) then flags else flags + NLM_F_REQUEST, payload)
  }

  /** `build_request`: a bare message carrying the next sequence number. */
  method BuildRequest(counter: SeqCounter, msgType: u16, flags: u16, payload: bytes) returns (buf: bytes)
    modifies counter
    ensures buf == EncodeBare(Wired(RequestMsg(msgType, flags, payload), old(counter.next), 0))
    ensures counter.next == (old(counter.next) + 1) % U32
  {
    hide FromLE, ToLE;
    var out := new Vec<byte>();
    var totalLen := NLMSG_HDRLEN + |payload|;
    out.Extend(ToLE(totalLen % U32, 4));
    out.Extend(ToLE(msgType, 2));
    out.Extend(ToLE(WithBit(flags, NLM_F_REQUEST), 2));
    var seqno := counter.FetchAdd();
    out.Extend(ToLE(seqno, 4));
    out.Extend(ToLE(0, 4));
    out.Extend(payload);
    buf := out.items;
  }

  /** The framer reads a built request back as the one message asked for, with the request bit set and no
      other changed. */
  lemma {:induction false} RequestReadsBack(msgType: u16, flags: u16, payload: bytes, seqno: u32)
    requires NLMSG_HDRLEN + |payload| < U32
    ensures var m := RequestMsg(msgType, flags, payload);
            && Frame(EncodeBare(Wired(m, seqno, 0))) == Framed([m], false)
            && m.ty == msgType && m.payload == payload
            && HasBit(m.flags, NLM_F_REQUEST) && m.flags / 2 == flags / 2
  {
    hide FromLE, ToLE, Frame, Header;
    var w := Wired(RequestMsg(msgType, flags, payload), seqno, 0);
    FramePacked([w], false);
  }
}
