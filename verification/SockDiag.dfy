/** Socket counts of crates/nlx-netlink/src/collectors/sockdiag.rs: frames accumulated into one bucket per protocol and
    state, with plain 64-bit additions that wrap. */
module SockDiag {
  import opened Wrappers
  import opened Bytes
  import opened Wire
  import opened Registry

  const INET_DIAG_MSG_MIN: nat := 72
  const IDIAG_STATE_OFFSET: nat := 1
  const IDIAG_RQUEUE_OFFSET: nat := 56
  const IDIAG_WQUEUE_OFFSET: nat := 60
  const INET_DIAG_INFO: nat := 2
  const INET_DIAG_SKMEMINFO: nat := 7
  const SKMEMINFO_DROP_OFFSET: nat := 32
  const TCP_INFO_TOTAL_RETRANS_OFFSET: nat := 100

  datatype Protocol = Tcp | Udp {
    function AsStr(): string {
      if this == Tcp then "tcp" else "udp"
    }
  }

  datatype SocketState =
    | Established | SynSent | SynRecv | FinWait1 | FinWait2 | TimeWait | Close | CloseWait | LastAck | Listen | Closing
    | NewSynRecv | Unconnected | Other(n: byte)
  {
    function AsStr(): string {
      match this
      case Established => "established"
      case SynSent => "syn_sent"
      case SynRecv => "syn_recv"
      case FinWait1 => "fin_wait1"
      case FinWait2 => "fin_wait2"
      case TimeWait => "time_wait"
      case Close => "close"
      case CloseWait => "close_wait"
      case LastAck => "last_ack"
      case Listen => "listen"
      case Closing => "closing"
      case NewSynRecv => "new_syn_recv"
      case Unconnected => "unconnected"
      case Other(_) => "other"
    }
  }

  function FromKernel(state: byte, isUdp: bool): SocketState {
    match state
    case 1 => Established
    case 2 => SynSent
    case 3 => SynRecv
    case 4 => FinWait1
    case 5 => FinWait2
    case 6 => TimeWait
    case 7 => if isUdp then Unconnected else Close
    case 8 => CloseWait
    case 9 => LastAck
    case 10 => Listen
    case 11 => Closing
    case 12 => NewSynRecv
    case other => Other(other)
  }

  /** Only unknown kernel states are shown under one name; within a protocol no two kernel states share a bucket. */
  lemma {:induction false} StatesAreDistinct(a: byte, b: byte, isUdp: bool)
    ensures FromKernel(a, isUdp) == FromKernel(b, isUdp) <==> a == b
    ensures FromKernel(a, isUdp).AsStr() == FromKernel(b, isUdp).AsStr() <==>
            a == b || (FromKernel(a, isUdp).Other? && FromKernel(b, isUdp).Other?)
  {
    NamesAreDistinct(FromKernel(a, isUdp), FromKernel(b, isUdp));
  }

  lemma {:induction false} NamesAreDistinct(s: SocketState, t: SocketState)
    ensures s.AsStr() == t.AsStr() <==> s == t || (s.Other? && t.Other?)
  {
    var a, b := s.AsStr(), t.AsStr();
    assert a == b
           ==> |a| == |b| && a[0] == b[0] && a[1] == b[1] && a[|a| - 1] == b[|b| - 1] && a[|a| - 2] == b[|b| - 2];
  }

  // ---- What the frames add up to ----

  datatype SockKey = SockKey(protocol: Protocol, state: SocketState)

  datatype Bucket = Bucket(count: nat, rqueue: nat, wqueue: nat) {
    function Plus(b: Bucket): Bucket {
      Bucket(count + b.count, rqueue + b.rqueue, wqueue + b.wqueue)
    }

    /** The counters as 64-bit words. */
    function Words(): Bucket {
      Bucket(Wrapped(count), Wrapped(rqueue), Wrapped(wqueue))
    }
  }

  const EMPTY := Bucket(0, 0, 0)

  /** A frame together with the protocol it was asked for. */
  datatype Frame = Frame(data: bytes, protocol: Protocol)

  predicate Complete(f: Frame) {
    |f.data| >= INET_DIAG_MSG_MIN
  }

  function KeyOf(f: Frame): SockKey
    requires Complete(f)
  {
    SockKey(f.protocol, FromKernel(f.data[IDIAG_STATE_OFFSET], f.protocol == Udp))
  }

  function WordAt(p: bytes, off: nat): u32
    requires off + 4 <= |p|
  {
    ReadU32(p[off..off + 4]).value
  }

  function Share(f: Frame): Bucket
    requires Complete(f)
  {
    Bucket(1, WordAt(f.data, IDIAG_RQUEUE_OFFSET), WordAt(f.data, IDIAG_WQUEUE_OFFSET))
  }

  /** What a frame adds to a bucket. */
  function Part(f: Frame, key: SockKey): (b: Bucket)
    ensures b == EMPTY || b.count == 1
  {
    if Complete(f) && KeyOf(f) == key then Share(f) else EMPTY
  }

  /** Exact sums of a bucket. */
  function Exact(frames: seq<Frame>, key: SockKey): Bucket {
    if frames == [] then EMPTY else Exact(frames[..|frames| - 1], key).Plus(Part(frames[|frames| - 1], key))
  }

  /** Exact sums over all complete frames. */
  function Grand(frames: seq<Frame>): Bucket {
    if frames == [] then EMPTY
    else
      var f := frames[|frames| - 1];
      Grand(frames[..|frames| - 1]).Plus(if Complete(f) then Share(f) else EMPTY)
  }

  /** The word at an offset of the attributes of a type that are long enough, summed; and whether there is any. */
  function WordSum(nlas: seq<Nla>, ty: nat, off: nat): nat {
    if nlas == [] then 0
    else
      var a := nlas[|nlas| - 1];
      WordSum(nlas[..|nlas| - 1], ty, off) + if a.ty == ty && |a.payload| >= off + 4 then WordAt(a.payload, off) else 0
  }

  predicate HasWord(nlas: seq<Nla>, ty: nat, off: nat) {
    LastSized(nlas, ty, off + 4).Some?
  }

  function AttrsIn(f: Frame): seq<Nla> {
    if Complete(f) then Attrs(f.data[INET_DIAG_MSG_MIN..]) else []
  }

  function DropSum(frames: seq<Frame>, p: Protocol): nat {
    if frames == [] then 0
    else
      var f := frames[|frames| - 1];
      DropSum(frames[..|frames| - 1], p)
      + if f.protocol == p then WordSum(AttrsIn(f), INET_DIAG_SKMEMINFO, SKMEMINFO_DROP_OFFSET) else 0
  }

  predicate HasDrops(frames: seq<Frame>, p: Protocol) {
    frames != []
    && (HasDrops(frames[..|frames| - 1], p)
        || (frames[|frames| - 1].protocol == p
            && HasWord(AttrsIn(frames[|frames| - 1]), INET_DIAG_SKMEMINFO, SKMEMINFO_DROP_OFFSET)))
  }

  function RetransSum(frames: seq<Frame>): nat {
    if frames == [] then 0
    else
      var f := frames[|frames| - 1];
      RetransSum(frames[..|frames| - 1])
      + if f.protocol == Tcp then WordSum(AttrsIn(f), INET_DIAG_INFO, TCP_INFO_TOTAL_RETRANS_OFFSET) else 0
  }

  // ---- parse_frame ----

  /** The aggregation maps a scrape fills. */
  class Totals {
    var buckets: map<SockKey, Bucket>
    var drops: Drops
    var retransmits: u64

    constructor ()
      ensures Holds([])
    {
      buckets, drops, retransmits := map[], map[], 0;
    }

    ghost predicate BucketsHold(frames: seq<Frame>)
      reads this
    {
      && (forall k :: k in buckets <==> Exact(frames, k).count > 0)
      && (forall k :: k in buckets ==> buckets[k] == Exact(frames, k).Words())
    }

    /** The maps are the sums over the frames, modulo 2^64, with an entry exactly where some frame put one. */
    ghost predicate Holds(frames: seq<Frame>)
      reads this
    {
      && BucketsHold(frames)
      && (forall p :: p in drops <==> HasDrops(frames, p))
      && (forall p :: p in drops ==> drops[p] == Wrapped(DropSum(frames, p)))
      && retransmits == Wrapped(RetransSum(frames))
    }

    method AddToBucket(f: Frame, ghost before: seq<Frame>)
      requires BucketsHold(before) && Complete(f)
      modifies this`buckets
      ensures BucketsHold(before + [f])
    {
      hide Wrapped, FromKernel, WordAt;
      var key := KeyOf(f);
      var b := if key in buckets then buckets[key] else EMPTY;
      buckets := buckets[key := Bucket(Wrapped(b.count + 1), Wrapped(b.rqueue + WordAt(f.data, IDIAG_RQUEUE_OFFSET)),
                                       Wrapped(b.wqueue + WordAt(f.data, IDIAG_WQUEUE_OFFSET)))];
      forall k ensures k in buckets <==> Exact(before + [f], k).count > 0
        ensures k in buckets ==> buckets[k] == Exact(before + [f], k).Words()
      {
        BucketStep(before, f, k);
      }
    }

    method AddAttr(protocol: Protocol, a: Nla)
      modifies this`drops, this`retransmits
      ensures drops == if a.ty == INET_DIAG_SKMEMINFO && |a.payload| >= SKMEMINFO_DROP_OFFSET + 4
                       then old(drops)[protocol := Wrapped(DropsOf(old(drops), protocol)
                                                           + WordAt(a.payload, SKMEMINFO_DROP_OFFSET))]
                       else old(drops)
      ensures retransmits
              == if a.ty == INET_DIAG_INFO && protocol == Tcp && |a.payload| >= TCP_INFO_TOTAL_RETRANS_OFFSET + 4
                             then Wrapped(old(retransmits) + WordAt(a.payload, TCP_INFO_TOTAL_RETRANS_OFFSET))
                             else old(retransmits)
    {
      hide Wrapped, WordAt;
      if a.ty == INET_DIAG_SKMEMINFO {
        if |a.payload| >= SKMEMINFO_DROP_OFFSET + 4 {
          var d := if protocol in drops then drops[protocol] else 0;
          drops := drops[protocol := Wrapped(d + WordAt(a.payload, SKMEMINFO_DROP_OFFSET))];
        }
      } else if a.ty == INET_DIAG_INFO && protocol != Udp {
        if |a.payload| >= TCP_INFO_TOTAL_RETRANS_OFFSET + 4 {
          retransmits := Wrapped(retransmits + WordAt(a.payload, TCP_INFO_TOTAL_RETRANS_OFFSET));
        }
      }
    }

    method AddAttrs(f: Frame)
      requires Complete(f)
      modifies this`drops, this`retransmits
      ensures Added(old(drops), old(retransmits), f.protocol, AttrsIn(f), drops, retransmits)
    {
      hide Attrs, Added, WordAt, Wrapped;
      var nlas := Attrs(f.data[INET_DIAG_MSG_MIN..]);
      AddedNothing(drops, retransmits, f.protocol);
      assert nlas[..0] == [];
      for i := 0 to |nlas|
        invariant Added(old(drops), old(retransmits), f.protocol, nlas[..i], drops, retransmits)
      {
        ghost var drops1, retransmits1 := drops, retransmits;
        AddAttr(f.protocol, nlas[i]);
        AddedStep(old(drops), old(retransmits), f.protocol, nlas, i, drops1, retransmits1, drops, retransmits);
      }
      assert nlas[..|nlas|] == nlas;
    }
  }

  type Drops = map<Protocol, u64>

  function DropsOf(drops: Drops, p: Protocol): nat {
    if p in drops then drops[p] else 0
  }

  /** What a list of attributes does to the drops and retransmits. */
  ghost predicate Added(drops0: Drops, retransmits0: u64, p: Protocol, nlas: seq<Nla>, drops: Drops, retransmits: u64) {
    && drops == (if HasWord(nlas, INET_DIAG_SKMEMINFO, SKMEMINFO_DROP_OFFSET)
                 then drops0[p := Wrapped(DropsOf(drops0, p)
                                           + WordSum(nlas, INET_DIAG_SKMEMINFO, SKMEMINFO_DROP_OFFSET))]
                 else drops0)
    && retransmits
       == (if p == Tcp then Wrapped(retransmits0 + WordSum(nlas, INET_DIAG_INFO, TCP_INFO_TOTAL_RETRANS_OFFSET))
                       else retransmits0)
  }

  lemma {:induction false} AddedNothing(drops: Drops, retransmits: u64, p: Protocol)
    ensures Added(drops, retransmits, p, [], drops, retransmits)
  {
    WrappedTwice(retransmits, 0, 0);
  }

  lemma {:induction false} AddedStep(drops0: Drops, retransmits0: u64, p: Protocol, nlas: seq<Nla>, i: nat,
                                     drops1: Drops, retransmits1: u64, drops2: Drops, retransmits2: u64)
    requires i < |nlas| && Added(drops0, retransmits0, p, nlas[..i], drops1, retransmits1)
    requires var a := nlas[i];
             && drops2 == (if a.ty == INET_DIAG_SKMEMINFO && |a.payload| >= SKMEMINFO_DROP_OFFSET + 4
                           then drops1[p := Wrapped(DropsOf(drops1, p) + WordAt(a.payload, SKMEMINFO_DROP_OFFSET))]
                           else drops1)
             && retransmits2
                == (if a.ty == INET_DIAG_INFO && p == Tcp && |a.payload| >= TCP_INFO_TOTAL_RETRANS_OFFSET + 4
                                 then Wrapped(retransmits1 + WordAt(a.payload, TCP_INFO_TOTAL_RETRANS_OFFSET))
                                 else retransmits1)
    ensures Added(drops0, retransmits0, p, nlas[..i + 1], drops2, retransmits2)
  {
    hide Wrapped, WordAt, WordSum, HasWord;
    var a := nlas[i];
    WordStep(nlas, i, INET_DIAG_SKMEMINFO, SKMEMINFO_DROP_OFFSET);
    WordStep(nlas, i, INET_DIAG_INFO, TCP_INFO_TOTAL_RETRANS_OFFSET);
    NoWordSum(nlas[..i], INET_DIAG_SKMEMINFO, SKMEMINFO_DROP_OFFSET);
    if a.ty == INET_DIAG_SKMEMINFO && |a.payload| >= SKMEMINFO_DROP_OFFSET + 4 {
      WrappedTwice(DropsOf(drops0, p), WordSum(nlas[..i], INET_DIAG_SKMEMINFO, SKMEMINFO_DROP_OFFSET),
                   WordAt(a.payload, SKMEMINFO_DROP_OFFSET));
    }
    if a.ty == INET_DIAG_INFO && |a.payload| >= TCP_INFO_TOTAL_RETRANS_OFFSET + 4 {
      WrappedTwice(retransmits0, WordSum(nlas[..i], INET_DIAG_INFO, TCP_INFO_TOTAL_RETRANS_OFFSET),
                   WordAt(a.payload, TCP_INFO_TOTAL_RETRANS_OFFSET));
    }
  }

  lemma {:induction false} NoWords()
    ensures forall ty: nat, off: nat :: WordSum([], ty, off) == 0 && !HasWord([], ty, off)
  {
  }

  lemma {:induction false} WordStep(nlas: seq<Nla>, i: nat, ty: nat, off: nat)
    requires i < |nlas|
    ensures var hit := nlas[i].ty == ty && |nlas[i].payload| >= off + 4;
            && WordSum(nlas[..i + 1], ty, off)
               == WordSum(nlas[..i], ty, off) + (if hit then WordAt(nlas[i].payload, off) else 0)
            && (HasWord(nlas[..i + 1], ty, off) <==> HasWord(nlas[..i], ty, off) || hit)
  {
    hide WordAt;
    assert nlas[..i + 1][..i] == nlas[..i];
  }

  lemma {:induction false} BucketStep(frames: seq<Frame>, f: Frame, k: SockKey)
    requires Complete(f)
    ensures var b, c, s := Exact(frames, k), Exact(frames + [f], k), Share(f);
            && (k != KeyOf(f) ==> c == b)
            && (k == KeyOf(f) ==> c.count == b.count + 1)
            && (k == KeyOf(f) ==>
                  c.Words() == Bucket(Wrapped((if b.count > 0 then b.Words().count else 0) + 1),
                                      Wrapped((if b.count > 0 then b.Words().rqueue else 0) + s.rqueue),
                                      Wrapped((if b.count > 0 then b.Words().wqueue else 0) + s.wqueue)))
  {
    hide Wrapped, WordAt, FromKernel;
    assert (frames + [f])[..|frames|] == frames;
    var b, s := Exact(frames, k), Share(f);
    WrappedTwice(b.count, 0, 1);
    WrappedTwice(b.rqueue, 0, s.rqueue);
    WrappedTwice(b.wqueue, 0, s.wqueue);
    if b.count == 0 {
      EmptyBucket(frames, k);
    }
  }

  lemma {:induction false} PlusNothing(a: Bucket, b: Bucket)
    requires b == EMPTY || b.count == 1
    ensures a.Plus(b).count == 0 ==> b == EMPTY && a.count == 0
    ensures a.Plus(EMPTY) == a
  {
  }

  lemma {:induction false} EmptyBucket(frames: seq<Frame>, k: SockKey)
    requires Exact(frames, k).count == 0
    ensures Exact(frames, k) == EMPTY
    decreases |frames|
  {
    hide Part, Bucket.Plus;
    if frames != [] {
      var init := frames[..|frames| - 1];
      PlusNothing(Exact(init, k), Part(frames[|frames| - 1], k));
      EmptyBucket(init, k);
    }
  }

  // ---- A whole scrape ----

  lemma {:induction false} DropsStep(frames: seq<Frame>, f: Frame, p: Protocol)
    ensures var nlas := AttrsIn(f);
            && DropSum(frames + [f], p)
               == DropSum(frames, p)
                  + (if f.protocol == p then WordSum(nlas, INET_DIAG_SKMEMINFO, SKMEMINFO_DROP_OFFSET) else 0)
            && (HasDrops(frames + [f], p) <==>
                  HasDrops(frames, p) || (f.protocol == p && HasWord(nlas, INET_DIAG_SKMEMINFO, SKMEMINFO_DROP_OFFSET)))
            && RetransSum(frames + [f])
               == RetransSum(frames)
                  + (if f.protocol == Tcp then WordSum(nlas, INET_DIAG_INFO, TCP_INFO_TOTAL_RETRANS_OFFSET) else 0)
  {
    hide WordSum, HasWord, AttrsIn;
    assert (frames + [f])[..|frames|] == frames;
  }

  lemma {:induction false} NoDrops(frames: seq<Frame>, p: Protocol)
    requires !HasDrops(frames, p)
    ensures DropSum(frames, p) == 0
  {
    hide AttrsIn, WordAt;
    if frames != [] {
      NoDrops(frames[..|frames| - 1], p);
      NoWordSum(AttrsIn(frames[|frames| - 1]), INET_DIAG_SKMEMINFO, SKMEMINFO_DROP_OFFSET);
    }
  }

  lemma {:induction false} NoWordSum(nlas: seq<Nla>, ty: nat, off: nat)
    ensures !HasWord(nlas, ty, off) ==> WordSum(nlas, ty, off) == 0
  {
    hide WordAt;
    if nlas != [] {
      NoWordSum(nlas[..|nlas| - 1], ty, off);
    }
  }

  /** Too short a frame leaves every sum alone. */
  lemma {:induction false} ShortFrame(frames: seq<Frame>, f: Frame)
    requires !Complete(f)
    ensures forall k :: Exact(frames + [f], k) == Exact(frames, k)
    ensures AttrsIn(f) == []
  {
    assert (frames + [f])[..|frames|] == frames;
  }

  method ParseFrame(totals: Totals, f: Frame, ghost before: seq<Frame>)
    requires totals.Holds(before)
    modifies totals
    ensures totals.Holds(before + [f])
  {
    hide Exact, DropSum, HasDrops, RetransSum, WordSum, HasWord, Wrapped, AttrsIn, Bucket.Words;
    ghost var nlas := AttrsIn(f);
    NoWords();
    forall p {
      DropsStep(before, f, p);
    }
    SumsGrow(before, f);
    if |f.data| < INET_DIAG_MSG_MIN {
      ShortFrame(before, f);
      return;
    }
    totals.AddToBucket(f, before);
    totals.AddAttrs(f);
  }

  /** The words of the grown sums. */
  lemma {:induction false} SumsGrow(frames: seq<Frame>, f: Frame)
    ensures var d, r := WordSum(AttrsIn(f), INET_DIAG_SKMEMINFO, SKMEMINFO_DROP_OFFSET),
                        WordSum(AttrsIn(f), INET_DIAG_INFO, TCP_INFO_TOTAL_RETRANS_OFFSET);
            && Wrapped((if HasDrops(frames, f.protocol) then Wrapped(DropSum(frames, f.protocol)) else 0) + d)
               == Wrapped(DropSum(frames, f.protocol) + d)
            && Wrapped(Wrapped(RetransSum(frames)) + r) == Wrapped(RetransSum(frames) + r)
            && Wrapped(RetransSum(frames) + 0) == Wrapped(RetransSum(frames))
            && (!HasWord(AttrsIn(f), INET_DIAG_SKMEMINFO, SKMEMINFO_DROP_OFFSET) ==> d == 0)
  {
    hide Wrapped, WordSum, HasDrops, DropSum, RetransSum, AttrsIn, HasWord;
    var d, r := WordSum(AttrsIn(f), INET_DIAG_SKMEMINFO, SKMEMINFO_DROP_OFFSET),
                WordSum(AttrsIn(f), INET_DIAG_INFO, TCP_INFO_TOTAL_RETRANS_OFFSET);
    WrappedTwice(DropSum(frames, f.protocol), 0, d);
    WrappedTwice(RetransSum(frames), 0, r);
    NoWordSum(AttrsIn(f), INET_DIAG_SKMEMINFO, SKMEMINFO_DROP_OFFSET);
    if !HasDrops(frames, f.protocol) {
      NoDrops(frames, f.protocol);
    }
  }

  /** All frames of a scrape, in the order of its four dumps. */
  method Aggregate(frames: seq<Frame>) returns (totals: Totals)
    ensures fresh(totals) && totals.Holds(frames)
  {
    hide Totals.Holds;
    totals := new Totals();
    assert frames[..0] == [];
    for i := 0 to |frames|
      invariant fresh(totals) && totals.Holds(frames[..i])
    {
      assert frames[..i + 1] == frames[..i] + [frames[i]];
      ParseFrame(totals, frames[i], frames[..i]);
    }
    assert frames[..|frames|] == frames;
  }

  // ---- Conservation ----

  function SumOver(keys: seq<SockKey>, frames: seq<Frame>): Bucket {
    if keys == [] then EMPTY else SumOver(keys[..|keys| - 1], frames).Plus(Exact(frames, keys[|keys| - 1]))
  }

  lemma {:induction false} ExactStep(frames: seq<Frame>, f: Frame, k: SockKey)
    ensures Exact(frames + [f], k) == Exact(frames, k).Plus(Part(f, k)) && Exact([], k) == EMPTY
  {
    hide Part;
    assert (frames + [f])[..|frames|] == frames;
  }

  lemma {:induction false} SumOverStep(keys: seq<SockKey>, frames: seq<Frame>, f: Frame)
    requires forall i, j :: 0 <= i < j < |keys| ==> keys[i] != keys[j]
    ensures SumOver(keys, frames + [f])
         == SumOver(keys, frames).Plus(if Complete(f) && KeyOf(f) in keys then Share(f) else EMPTY)
    decreases |keys|
  {
    hide Exact, Share, KeyOf, Complete, Bucket.Plus;
    PlusMoves(EMPTY, EMPTY, EMPTY, EMPTY);
    if keys != [] {
      var init, last := keys[..|keys| - 1], keys[|keys| - 1];
      SumOverStep(init, frames, f);
      ExactStep(frames, f, last);
      assert last !in init;
      assert forall k :: k in keys <==> k in init || k == last;
      PlusMoves(SumOver(init, frames), if Complete(f) && KeyOf(f) in init then Share(f) else EMPTY,
                Exact(frames, last), Part(f, last));
    }
  }

  lemma {:induction false} PlusMoves(a: Bucket, b: Bucket, c: Bucket, d: Bucket)
    ensures a.Plus(b).Plus(c.Plus(d)) == a.Plus(c).Plus(b.Plus(d))
    ensures b.Plus(EMPTY) == b && EMPTY.Plus(d) == d
  {
  }

  /** Every complete frame is counted in exactly one bucket: over any list of distinct buckets that covers the frames,
      the counts sum to the number of frames of at least 72 octets, and the queues to the sums of their queues. */
  lemma {:induction false} BucketsConserve(keys: seq<SockKey>, frames: seq<Frame>)
    requires forall i, j :: 0 <= i < j < |keys| ==> keys[i] != keys[j]
    requires forall f :: f in frames && Complete(f) ==> KeyOf(f) in keys
    ensures SumOver(keys, frames) == Grand(frames)
  {
    hide WordAt, FromKernel, KeyOf;
    if frames == [] {
      SumOverNothing(keys);
    } else {
      var init, f := frames[..|frames| - 1], frames[|frames| - 1];
      assert frames == init + [f];
      BucketsConserve(keys, init);
      SumOverStep(keys, init, f);
    }
  }

  lemma {:induction false} SumOverNothing(keys: seq<SockKey>)
    ensures SumOver(keys, []) == EMPTY
    decreases |keys|
  {
    hide Exact, Bucket.Plus;
    if keys != [] {
      PlusNothing(EMPTY, EMPTY);
      SumOverNothing(keys[..|keys| - 1]);
      ExactStep([], Frame([], Tcp), keys[|keys| - 1]);
    }
  }

  function CompleteFrames(frames: seq<Frame>): nat {
    if frames == [] then 0 else CompleteFrames(frames[..|frames| - 1]) + if Complete(frames[|frames| - 1]) then 1 else 0
  }

  lemma {:induction false} GrandCount(frames: seq<Frame>)
    ensures Grand(frames).count == CompleteFrames(frames)
  {
    hide WordAt;
    if frames != [] {
      GrandCount(frames[..|frames| - 1]);
    }
  }

  // ---- Conservation in the map a scrape ends with ----

  /** The keys of the map, each once. */
  ghost predicate Lists(keys: seq<SockKey>, buckets: map<SockKey, Bucket>) {
    (forall i, j :: 0 <= i < j < |keys| ==> keys[i] != keys[j]) && forall k :: k in keys <==> k in buckets
  }

  /** The sum of the words in the map. */
  function MapSum(keys: seq<SockKey>, buckets: map<SockKey, Bucket>): Bucket
    requires forall k :: k in keys ==> k in buckets
  {
    if keys == [] then EMPTY else MapSum(keys[..|keys| - 1], buckets).Plus(buckets[keys[|keys| - 1]])
  }

  /** A complete frame makes its bucket's count positive. */
  lemma {:induction false} FrameIsCounted(frames: seq<Frame>, f: Frame)
    requires f in frames && Complete(f)
    ensures Exact(frames, KeyOf(f)).count > 0
  {
    hide WordAt, FromKernel, KeyOf;
    var init, last := frames[..|frames| - 1], frames[|frames| - 1];
    if f != last {
      assert f in init;
      FrameIsCounted(init, f);
    }
  }

  lemma {:induction false} WrappedAdd(x: nat, y: nat, z: nat)
    requires Wrapped(x) == Wrapped(y)
    ensures Wrapped(x + Wrapped(z)) == Wrapped(y + z)
  {
    hide Wrapped;
    WrappedTwice(z, 0, x);
    WrappedTwice(x, 0, z);
    WrappedTwice(y, 0, z);
  }

  lemma {:induction false} WordsPlus(a: Bucket, b: Bucket, c: Bucket)
    requires a.Words() == b.Words()
    ensures a.Plus(c.Words()).Words() == b.Plus(c).Words()
  {
    hide Wrapped;
    WrappedAdd(a.count, b.count, c.count);
    WrappedAdd(a.rqueue, b.rqueue, c.rqueue);
    WrappedAdd(a.wqueue, b.wqueue, c.wqueue);
  }

  /** A sum of words is the exact sum as far as 64 bits go, and where that fits nothing is lost. */
  lemma {:induction false} MapSumWords(keys: seq<SockKey>, buckets: map<SockKey, Bucket>, frames: seq<Frame>)
    requires forall k :: k in keys ==> k in buckets && buckets[k] == Exact(frames, k).Words()
    ensures var m, e := MapSum(keys, buckets), SumOver(keys, frames);
            && m.Words() == e.Words()
            && (e.count < U64 ==> m.count == e.count)
            && (e.rqueue < U64 ==> m.rqueue == e.rqueue) && (e.wqueue < U64 ==> m.wqueue == e.wqueue)
    decreases |keys|
  {
    hide Exact, Bucket.Words, Wrapped;
    if keys != [] {
      var init, last := keys[..|keys| - 1], keys[|keys| - 1];
      MapSumWords(init, buckets, frames);
      WordsPlus(MapSum(init, buckets), SumOver(init, frames), Exact(frames, last));
      SmallWords(Exact(frames, last));
    }
  }

  lemma {:induction false} SmallWords(b: Bucket)
    ensures b.count < U64 ==> b.Words().count == b.count
    ensures b.rqueue < U64 ==> b.Words().rqueue == b.rqueue
    ensures b.wqueue < U64 ==> b.Words().wqueue == b.wqueue
  {
  }

  /** The map a scrape ends with loses no frame: the counts in it sum to the number of complete frames and the queues to
      the sums of theirs, modulo 2^64, and exactly when those fit. */
  lemma {:induction false} TotalsConserve(totals: Totals, keys: seq<SockKey>, frames: seq<Frame>)
    requires totals.Holds(frames) && Lists(keys, totals.buckets)
    ensures var m, e := MapSum(keys, totals.buckets), Grand(frames);
            && m.Words() == e.Words()
            && (e.count < U64 ==> m.count == e.count == CompleteFrames(frames))
            && (e.rqueue < U64 ==> m.rqueue == e.rqueue) && (e.wqueue < U64 ==> m.wqueue == e.wqueue)
  {
    hide KeyOf, Exact, Grand, MapSum, SumOver, Bucket.Words;
    forall f | f in frames && Complete(f) ensures KeyOf(f) in keys {
      FrameIsCounted(frames, f);
    }
    BucketsConserve(keys, frames);
    MapSumWords(keys, totals.buckets, frames);
    GrandCount(frames);
  }

  // ---- The series printed ----

  function KeyLabels(k: SockKey): seq<Label> {
    [Label("protocol", k.protocol.AsStr()), Label("state", k.state.AsStr())]
  }

  /** Two buckets print the same labels exactly when they are two unknown states of one protocol. */
  lemma {:induction false} LabelsCoincideIff(k: SockKey, l: SockKey)
    requires k != l
    ensures KeyLabels(k) == KeyLabels(l) <==> k.protocol == l.protocol && k.state.Other? && l.state.Other?
  {
    NamesAreDistinct(k.state, l.state);
    assert "tcp"[0] != "udp"[0];
    hide SocketState.AsStr;
    assert KeyLabels(k)[0].value == k.protocol.AsStr() && KeyLabels(k)[1].value == k.state.AsStr();
    assert KeyLabels(l)[0].value == l.protocol.AsStr() && KeyLabels(l)[1].value == l.state.AsStr();
  }

  // ---- Frames in the kernel's layout ----

  lemma {:induction false} WordReadsBack(front: bytes, x: u32, rest: bytes)
    ensures WordAt(front + ToLE(x, 4) + rest, |front|) == x
  {
    hide ToLE, ReadLE;
    var p := front + ToLE(x, 4) + rest;
    assert p[|front|..|front| + 4] == ToLE(x, 4) == ToLE(x, 4) + [];
    RadixValues();
    ReadersInvertWriters(x, 4, []);
  }

  /** A frame of 72 octets and attributes: the state is its second octet, the receive queue the word at 56 and the send
      queue the word at 60. */
  lemma {:induction false} FrameInOctets(family: byte, state: byte, middle: bytes, rqueue: u32, wqueue: u32,
        rest: bytes, attrs: bytes, protocol: Protocol)
    requires |middle| == 54 && |rest| == 8
    ensures var f := Frame([family, state] + middle + ToLE(rqueue, 4) + (ToLE(wqueue, 4) + rest + attrs), protocol);
            && Complete(f) && KeyOf(f) == SockKey(protocol, FromKernel(state, protocol == Udp))
            && Exact([f], KeyOf(f)) == Bucket(1, rqueue, wqueue) && AttrsIn(f) == Attrs(attrs)
  {
    hide ToLE, WordAt, FromKernel, Attrs;
    var head := [family, state] + middle;
    var data := head + ToLE(rqueue, 4) + (ToLE(wqueue, 4) + rest + attrs);
    WordReadsBack(head, rqueue, ToLE(wqueue, 4) + rest + attrs);
    WordReadsBack(head + ToLE(rqueue, 4), wqueue, rest + attrs);
    assert data == head + ToLE(rqueue, 4) + ToLE(wqueue, 4) + (rest + attrs);
    assert data[1] == state && data[72..] == attrs;
    var f := Frame(data, protocol);
    assert [f][..0] == [] && Exact([], KeyOf(f)) == EMPTY;
  }

  /** Drops are the word at 32 of attribute 7, and retransmits the word at 100 of attribute 2, of TCP alone. */
  lemma {:induction false} AttributesInOctets(f: Frame, memory: bytes, drops: u32, info: bytes, retransmits: u32,
        rest: bytes)
    requires |memory| == 32 && |info| == 100
    requires AttrsIn(f) == [Nla(7, memory + ToLE(drops, 4) + rest), Nla(2, info + ToLE(retransmits, 4) + rest)]
    ensures DropSum([f], f.protocol) == drops
    ensures RetransSum([f]) == if f.protocol == Tcp then retransmits else 0
  {
    hide ToLE, WordAt, AttrsIn;
    WordReadsBack(memory, drops, rest);
    WordReadsBack(info, retransmits, rest);
    var nlas := AttrsIn(f);
    WordSumOfTwo(nlas[0], nlas[1], 7, 32);
    WordSumOfTwo(nlas[0], nlas[1], 2, 100);
    hide WordSum;
    assert nlas == [nlas[0], nlas[1]] && [f][..0] == [];
    assert DropSum([f][..0], f.protocol) == 0 && RetransSum([f][..0]) == 0;
  }

  lemma {:induction false} WordSumOfTwo(a: Nla, b: Nla, ty: nat, off: nat)
    ensures WordSum([a, b], ty, off)
         == (if a.ty == ty && |a.payload| >= off + 4 then WordAt(a.payload, off) else 0)
            + if b.ty == ty && |b.payload| >= off + 4 then WordAt(b.payload, off) else 0
  {
    hide WordAt;
    assert [a, b][..1] == [a] && [a][..0] == [];
    assert WordSum([a][..0], ty, off) == 0;
  }

  /** Over more frames every field sums up on its own. */
  lemma {:induction false} FramesAdd(a: seq<Frame>, b: seq<Frame>, k: SockKey)
    ensures var x, y, z := Exact(a, k), Exact(b, k), Exact(a + b, k);
            z.count == x.count + y.count && z.rqueue == x.rqueue + y.rqueue && z.wqueue == x.wqueue + y.wqueue
  {
    hide Part;
    if b == [] {
      assert a + b == a;
    } else {
      assert (a + b)[..|a + b| - 1] == a + b[..|b| - 1];
      FramesAdd(a, b[..|b| - 1], k);
    }
  }

  /** The names of the kernel's states; a closed UDP socket is unconnected. */
  lemma {:induction false} StatesInText()
    ensures forall s: byte :: 1 <= s <= 12 ==>
              FromKernel(s, false).AsStr() == ["established", "syn_sent", "syn_recv", "fin_wait1", "fin_wait2",
                                               "time_wait", "close", "close_wait", "last_ack", "listen", "closing",
                                               "new_syn_recv"][s - 1]
    ensures FromKernel(7, true).AsStr() == "unconnected" && Tcp.AsStr() == "tcp" && Udp.AsStr() == "udp"
    ensures forall s: byte :: s != 7 ==> FromKernel(s, true) == FromKernel(s, false)
    ensures forall s: byte :: s == 0 || s > 12 ==> FromKernel(s, false).AsStr() == "other"
    ensures KeyLabels(SockKey(Tcp, FromKernel(10, false))) == [Label("protocol", "tcp"), Label("state", "listen")]
  {
  }

  /** A protocol has an entry for drops only once a frame of it carries them. */
  lemma {:induction false} DropsEntryIff(frames: seq<Frame>, f: Frame, p: Protocol)
    ensures HasDrops(frames + [f], p) <==>
            || HasDrops(frames, p)
            || (p == f.protocol && exists a :: a in AttrsIn(f) && a.ty == 7 && |a.payload| >= 36)
    ensures !HasDrops([], p)
  {
    hide AttrsIn;
    assert (frames + [f])[..|frames|] == frames;
    HasWordMeans(AttrsIn(f));
  }

  lemma {:induction false} HasWordMeans(nlas: seq<Nla>)
    ensures HasWord(nlas, 7, 32) <==> exists a :: a in nlas && a.ty == 7 && |a.payload| >= 36
  {
    if nlas != [] {
      HasWordMeans(nlas[..|nlas| - 1]);
      assert nlas == nlas[..|nlas| - 1] + [nlas[|nlas| - 1]];
    }
  }
}
