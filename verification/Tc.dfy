/** Queueing-discipline totals of crates/nlx-netlink/src/collectors/tc.rs: the statistics of all disciplines of one kind
    on one device, summed with saturation. */
module Tc {
  import opened Wrappers
  import opened Bytes
  import opened Text
  import opened Wire
  import opened Registry

  const TCMSG_LEN: nat := 20
  const TCA_KIND: nat := 1
  const TCA_STATS2: nat := 7
  const TCA_STATS_BASIC: nat := 1
  const TCA_STATS_QUEUE: nat := 3
  const UNKNOWN := "unknown"

  datatype QdiscStats = QdiscStats(octets: u64, packets: u32, drops: u32, overlimits: u32, backlog: u32)

  /** The 32-bit field at an offset. */
  function FieldAt(p: bytes, off: nat): u32
    requires off + 4 <= |p|
  {
    ReadU32(p[off..]).value
  }

  /** What the nested statistics say; nothing without complete basic statistics. */
  function StatsOf(nlas: seq<Nla>): Option<QdiscStats> {
    var basic, queue := LastSized(nlas, TCA_STATS_BASIC, 12), LastSized(nlas, TCA_STATS_QUEUE, 20);
    if basic.None? then None
    else
      var b := basic.value;
      if queue.None? then Some(QdiscStats(ReadU64(b).GetOr(0), FieldAt(b, 8), 0, 0, 0))
      else
        var q := queue.value;
        Some(QdiscStats(ReadU64(b).GetOr(0), FieldAt(b, 8), FieldAt(q, 8), FieldAt(q, 16), FieldAt(q, 4)))
  }

  method ParseTcaStats2(payload: bytes) returns (r: Option<QdiscStats>)
    ensures r == StatsOf(Attrs(payload))
  {
    hide Attrs, FieldAt, ReadU64;
    var attrs := Attrs(payload);
    var basic: Option<bytes>, queue: Option<bytes> := None, None;
    for i := 0 to |attrs|
      invariant basic == LastSized(attrs[..i], TCA_STATS_BASIC, 12)
      invariant queue == LastSized(attrs[..i], TCA_STATS_QUEUE, 20)
    {
      LastSizedStep(attrs, i, TCA_STATS_BASIC, 12);
      LastSizedStep(attrs, i, TCA_STATS_QUEUE, 20);
      var a := attrs[i];
      if a.ty == TCA_STATS_BASIC {
        if |a.payload| >= 12 {
          basic := Some(a.payload);
        }
      } else if a.ty == TCA_STATS_QUEUE {
        if |a.payload| >= 20 {
          queue := Some(a.payload);
        }
      }
    }
    assert attrs[..|attrs|] == attrs;
    if basic.None? {
      return None;
    }
    var octets, packets := ReadU64(basic.value).GetOr(0), FieldAt(basic.value, 8);
    var drops: u32, overlimits: u32, backlog: u32 := 0, 0, 0;
    if queue.Some? {
      backlog, drops, overlimits := FieldAt(queue.value, 4), FieldAt(queue.value, 8), FieldAt(queue.value, 16);
    }
    r := Some(QdiscStats(octets, packets, drops, overlimits, backlog));
  }

  /** The interface index is kept as its 32-bit pattern. */
  datatype QdiscEntry = QdiscEntry(ifindex: u32, kind: string, stats: Option<QdiscStats>)

  /** The text up to a NUL, unless it is not UTF-8. */
  function DecodeName(payload: bytes): Option<string> {
    Decode(CString(payload))
  }

  /** Without a kind, or with a last kind that is not text, the discipline is of the unknown kind. */
  function EntryOf(frame: bytes): Option<QdiscEntry> {
    if |frame| < TCMSG_LEN then None
    else
      var nlas := Attrs(frame[TCMSG_LEN..]);
      var kind, stats := Last(nlas, TCA_KIND), Last(nlas, TCA_STATS2);
      Some(QdiscEntry(FieldAt(frame, 4),
                      if kind.None? then UNKNOWN else DecodeName(kind.value).GetOr(UNKNOWN),
                      if stats.None? then None else StatsOf(Attrs(stats.value))))
  }

  method ParseQdiscFrame(frame: bytes) returns (r: Option<QdiscEntry>)
    ensures r == EntryOf(frame)
  {
    hide Attrs, StatsOf, FieldAt, DecodeName, Last;
    if |frame| < TCMSG_LEN {
      return None;
    }
    var attrs := Attrs(frame[TCMSG_LEN..]);
    var kind: Option<string>, stats: Option<QdiscStats> := None, None;
    assert attrs[..0] == [];
    NothingLast();
    for i := 0 to |attrs|
      invariant kind == var k := Last(attrs[..i], TCA_KIND); if k.None? then None else DecodeName(k.value)
      invariant stats == var s := Last(attrs[..i], TCA_STATS2); if s.None? then None else StatsOf(Attrs(s.value))
    {
      LastStep(attrs, i, TCA_KIND);
      LastStep(attrs, i, TCA_STATS2);
      var a := attrs[i];
      if a.ty == TCA_KIND {
        kind := DecodeName(a.payload);
      } else if a.ty == TCA_STATS2 {
        stats := ParseTcaStats2(a.payload);
      }
    }
    assert attrs[..|attrs|] == attrs;
    r := Some(QdiscEntry(FieldAt(frame, 4), kind.GetOr(UNKNOWN), stats));
  }

  // ---- Totals ----

  datatype Key = Key(device: string, kind: string)

  /** Exact sums, without any bound. */
  datatype Sums = Sums(octets: nat, packets: nat, drops: nat, overlimits: nat, backlog: nat) {
    function Plus(s: Sums): Sums {
      Sums(octets + s.octets, packets + s.packets, drops + s.drops, overlimits + s.overlimits, backlog + s.backlog)
    }

    /** Each sum, or the largest 64-bit value when it does not fit. */
    function Clamped(): Sums {
      Sums(Min(octets, U64_MAX), Min(packets, U64_MAX), Min(drops, U64_MAX), Min(overlimits, U64_MAX),
           Min(backlog, U64_MAX))
    }
  }

  const ZERO := Sums(0, 0, 0, 0, 0)

  function SumsOf(s: QdiscStats): Sums {
    Sums(s.octets, s.packets, s.drops, s.overlimits, s.backlog)
  }

  type Names = map<u32, string>

  function KeyOf(e: QdiscEntry, names: Names): Key {
    Key(if e.ifindex in names then names[e.ifindex] else UNKNOWN, e.kind)
  }

  /** A frame counts for a key: it parses, has statistics, and is of that device and kind. */
  predicate Counts(frame: bytes, names: Names, key: Key) {
    var e := EntryOf(frame);
    e.Some? && e.value.stats.Some? && KeyOf(e.value, names) == key
  }

  function Share(frame: bytes, names: Names, key: Key): Sums {
    if Counts(frame, names, key) then SumsOf(EntryOf(frame).value.stats.value) else ZERO
  }

  function Exact(frames: seq<bytes>, names: Names, key: Key): Sums {
    if frames == [] then ZERO
    else Exact(frames[..|frames| - 1], names, key).Plus(Share(frames[|frames| - 1], names, key))
  }

  /** Some frame counts for the key. */
  predicate Present(frames: seq<bytes>, names: Names, key: Key) {
    frames != [] && (Present(frames[..|frames| - 1], names, key) || Counts(frames[|frames| - 1], names, key))
  }

  class AggStats {
    var octets: u64
    var packets: u64
    var drops: u64
    var overlimits: u64
    var backlog: u64

    ghost function Value(): Sums
      reads this
    {
      Sums(octets, packets, drops, overlimits, backlog)
    }

    constructor ()
      ensures Value() == ZERO
    {
      octets, packets, drops, overlimits, backlog := 0, 0, 0, 0, 0;
    }

    method Add(s: QdiscStats)
      modifies this
      ensures Value() == old(Value()).Plus(SumsOf(s)).Clamped()
    {
      octets := SatAdd(octets, s.octets);
      packets := SatAdd(packets, s.packets);
      drops := SatAdd(drops, s.drops);
      overlimits := SatAdd(overlimits, s.overlimits);
      backlog := SatAdd(backlog, s.backlog);
    }
  }

  /** Saturating step by step is saturating once at the end. */
  lemma {:induction false} ClampedOnce(a: Sums, b: Sums)
    ensures a.Clamped().Plus(b).Clamped() == a.Plus(b).Clamped()
    ensures ZERO.Clamped() == ZERO && ZERO.Plus(b) == b && b.Plus(ZERO) == b
  {
  }

  /** The table holds, for exactly the keys present in the frames, the clamped exact sums. */
  ghost predicate Aggregated(agg: map<Key, AggStats>, frames: seq<bytes>, names: Names)
    reads agg.Values
  {
    && (forall k, l :: k in agg && l in agg && k != l ==> agg[k] != agg[l])
    && (forall k :: k in agg <==> Present(frames, names, k))
    && (forall k :: k in agg ==> agg[k].Value() == Exact(frames, names, k).Clamped())
  }

  /** How one more frame changes presence and total of a key. */
  ghost predicate StepAt(frames: seq<bytes>, i: nat, names: Names, k: Key)
    requires i < |frames|
  {
    var before, after, share :=
      Exact(frames[..i], names, k), Exact(frames[..i + 1], names, k), Share(frames[i], names, k);
    && (Present(frames[..i + 1], names, k) <==> Present(frames[..i], names, k) || Counts(frames[i], names, k))
    && (if Counts(frames[i], names, k)
        then after.Clamped()
             == (if Present(frames[..i], names, k) then before.Clamped() else ZERO).Plus(share).Clamped()
        else after == before)
  }

  lemma {:induction false} AggregateStep(frames: seq<bytes>, i: nat, names: Names, k: Key)
    requires i < |frames|
    ensures StepAt(frames, i, names, k)
  {
    hide EntryOf, Counts, Sums.Plus, Sums.Clamped;
    assert frames[..i + 1][..i] == frames[..i];
    ClampedOnce(Exact(frames[..i], names, k), Share(frames[i], names, k));
    ClampedOnce(ZERO, Exact(frames[..i], names, k));
    if !Present(frames[..i], names, k) {
      AbsentIsZero(frames[..i], names, k);
    }
  }

  lemma {:induction false} OthersShareNothing(frame: bytes, names: Names, key: Key)
    requires !Counts(frame, names, key)
    ensures Share(frame, names, key) == ZERO
  {
    hide Counts;
  }

  lemma {:induction false} AbsentIsZero(frames: seq<bytes>, names: Names, key: Key)
    requires !Present(frames, names, key)
    ensures Exact(frames, names, key) == ZERO
    decreases |frames|
  {
    hide Counts, Share, Sums.Plus;
    PlusLaws(ZERO, ZERO, ZERO);
    if frames != [] {
      AbsentIsZero(frames[..|frames| - 1], names, key);
      OthersShareNothing(frames[|frames| - 1], names, key);
    }
  }

  /** One frame into the table. */
  method AddFrame(agg: map<Key, AggStats>, frame: bytes, names: Names) returns (next: map<Key, AggStats>)
    requires forall k, l :: k in agg && l in agg && k != l ==> agg[k] != agg[l]
    modifies agg.Values
    ensures forall k :: k in next <==> k in agg || Counts(frame, names, k)
    ensures forall k :: k in agg ==> next[k] == agg[k]
    ensures forall k :: k in next && k !in agg ==> fresh(next[k])
    ensures forall k, l :: k in next && l in next && k != l ==> next[k] != next[l]
    ensures forall k :: k in next ==>
              next[k].Value() == if Counts(frame, names, k)
                                 then (if k in agg then old(agg[k].Value()) else ZERO)
                                        .Plus(Share(frame, names, k)).Clamped()
                                 else old(agg[k].Value())
  {
    hide EntryOf, Sums.Plus, Sums.Clamped;
    next := agg;
    var e := ParseQdiscFrame(frame);
    if e.None? || e.value.stats.None? {
      return;
    }
    var key := KeyOf(e.value, names);
    if key !in next {
      var acc := new AggStats();
      next := next[key := acc];
    }
    assert next[key] in next.Values;
    next[key].Add(e.value.stats.value);
  }

  method AddNext(agg: map<Key, AggStats>, frames: seq<bytes>, i: nat, names: Names) returns (next: map<Key, AggStats>)
    requires i < |frames| && Aggregated(agg, frames[..i], names)
    modifies agg.Values
    ensures Aggregated(next, frames[..i + 1], names)
    ensures forall k :: k in next ==> (k in agg && next[k] == agg[k]) || fresh(next[k])
  {
    hide Counts, Share, Exact, Present, Sums.Plus, Sums.Clamped;
    next := AddFrame(agg, frames[i], names);
    forall k ensures k in next <==> Present(frames[..i + 1], names, k)
      ensures k in next ==> next[k].Value() == Exact(frames[..i + 1], names, k).Clamped()
    {
      AggregateStep(frames, i, names, k);
    }
  }

  /** The aggregation loop: every total is the exact sum over all frames of its device and kind, or 2^64 - 1 if that
      does not fit, and there is a total for exactly the devices and kinds that have statistics. */
  method Aggregate(frames: seq<bytes>, names: Names) returns (agg: map<Key, AggStats>)
    ensures Aggregated(agg, frames, names)
    ensures forall k :: k in agg ==> fresh(agg[k])
  {
    agg := map[];
    assert frames[..0] == [];
    hide Counts, Share, Exact, Sums.Plus, Sums.Clamped;
    assert forall k :: !Present([], names, k);
    assert Aggregated(agg, [], names);
    hide Present, Aggregated;
    for i := 0 to |frames|
      invariant Aggregated(agg, frames[..i], names)
      invariant forall k :: k in agg ==> fresh(agg[k])
    {
      agg := AddNext(agg, frames, i, names);
    }
    assert frames[..|frames|] == frames;
  }

  // ---- Order of the frames ----

  lemma {:induction false} PlusLaws(a: Sums, b: Sums, c: Sums)
    ensures a.Plus(b).Plus(c) == a.Plus(b.Plus(c)) && a.Plus(b) == b.Plus(a) && a.Plus(ZERO) == a && ZERO.Plus(a) == a
  {
  }

  lemma {:induction false} ExactAppend(a: seq<bytes>, b: seq<bytes>, names: Names, k: Key)
    ensures Exact(a + b, names, k) == Exact(a, names, k).Plus(Exact(b, names, k))
    ensures Present(a + b, names, k) <==> Present(a, names, k) || Present(b, names, k)
  {
    hide Share, Counts, Sums.Plus;
    if b == [] {
      assert a + b == a;
      PlusLaws(Exact(a, names, k), ZERO, ZERO);
    } else {
      var init, last := b[..|b| - 1], b[|b| - 1];
      assert (a + b)[..|a + b| - 1] == a + init;
      ExactAppend(a, init, names, k);
      PlusLaws(Exact(a, names, k), Exact(init, names, k), Share(last, names, k));
    }
  }

  lemma {:induction false} MoveToEnd(front: seq<bytes>, f: bytes, rest: seq<bytes>, names: Names, k: Key)
    ensures Exact(front + [f] + rest, names, k) == Exact(front + rest + [f], names, k)
    ensures Present(front + [f] + rest, names, k) <==> Present(front + rest + [f], names, k)
  {
    hide Exact, Present, Share, Counts, Sums.Plus;
    ExactAppend(front, [f], names, k);
    ExactAppend(front + [f], rest, names, k);
    ExactAppend(front, rest, names, k);
    ExactAppend(front + rest, [f], names, k);
    PlusLaws(Exact(front, names, k), Exact([f], names, k), Exact(rest, names, k));
    PlusLaws(Exact(front, names, k), Exact(rest, names, k), Exact([f], names, k));
    PlusLaws(Exact([f], names, k), Exact(rest, names, k), ZERO);
  }

  /** The totals do not depend on the order in which the kernel lists the disciplines. */
  lemma {:induction false} OrderDoesNotMatter(a: seq<bytes>, b: seq<bytes>, names: Names, k: Key)
    requires multiset(a) == multiset(b)
    ensures Exact(a, names, k) == Exact(b, names, k)
    ensures Present(a, names, k) <==> Present(b, names, k)
    decreases |a|
  {
    hide Exact, Present, Share, Counts, Sums.Plus;
    if a == [] {
      assert |multiset(b)| == |b|;
    } else {
      var f := a[|a| - 1];
      var init := a[..|a| - 1];
      var front, rest := TakenOut(a, b);
      OrderDoesNotMatter(init, front + rest, names, k);
      MoveToEnd(front, f, rest, names, k);
      assert a == init + [f];
      ExactAppend(init, [f], names, k);
      ExactAppend(front + rest, [f], names, k);
    }
  }

  /** The last element of one sequence, found in a permutation of it. */
  lemma {:induction false} TakenOut<T>(a: seq<T>, b: seq<T>) returns (front: seq<T>, rest: seq<T>)
    requires a != [] && multiset(a) == multiset(b)
    ensures b == front + [a[|a| - 1]] + rest && multiset(a[..|a| - 1]) == multiset(front + rest)
  {
    var init, f := a[..|a| - 1], a[|a| - 1];
    assert f in multiset(a);
    var i :| 0 <= i < |b| && b[i] == f;
    front, rest := b[..i], b[i + 1..];
    SplitMultiset(a, |a| - 1);
    SplitMultiset(b, i);
    assert a[|a|..] == [] && init + [] == init;
    assert b == front + [f] + rest;
    Cancel(multiset(init), multiset(front + rest), f);
  }

  lemma {:induction false} SplitMultiset<T>(s: seq<T>, i: nat)
    requires i < |s|
    ensures multiset(s) == multiset(s[..i] + s[i + 1..]) + multiset{s[i]}
  {
    assert s == s[..i] + ([s[i]] + s[i + 1..]);
  }

  lemma {:induction false} Cancel<T>(m: multiset<T>, n: multiset<T>, f: T)
    requires m + multiset{f} == n + multiset{f}
    ensures m == n
  {
    assert m == m + multiset{f} - multiset{f} && n == n + multiset{f} - multiset{f};
  }

  // ---- The order of the totals ----

  /** The order of pairs of strings in a `BTreeMap`. */
  predicate KeyLess(a: Key, b: Key) {
    if a.device != b.device then Less(a.device, b.device) else Less(a.kind, b.kind)
  }

  ghost predicate InOrder(keys: seq<Key>) {
    forall i, j :: 0 <= i < j < |keys| ==> KeyLess(keys[i], keys[j])
  }

  lemma {:induction false} KeyLessTotal(a: Key, b: Key)
    ensures KeyLess(a, b) || a == b || KeyLess(b, a)
    ensures !(KeyLess(a, b) && KeyLess(b, a)) && (KeyLess(a, b) ==> a != b)
  {
    hide Less;
    LessTotal(a.device, b.device);
    LessTotal(a.kind, b.kind);
  }

  lemma {:induction false} KeyLessTransitive(a: Key, b: Key, c: Key)
    requires KeyLess(a, b) && KeyLess(b, c)
    ensures KeyLess(a, c)
  {
    hide Less;
    if a.device == b.device == c.device {
      LessTransitive(a.kind, b.kind, c.kind);
    } else if a.device != b.device && b.device != c.device {
      LessTransitive(a.device, b.device, c.device);
      LessTotal(a.device, c.device);
    }
  }

  /** The keys of a map have one order only. */
  lemma {:induction false} OrderIsCanonical(a: seq<Key>, b: seq<Key>)
    requires InOrder(a) && InOrder(b)
    requires forall k :: k in a <==> k in b
    ensures a == b
    decreases |a|
  {
    hide KeyLess;
    assert a != [] ==> a[0] in b;
    assert b != [] ==> b[0] in a;
    if a != [] && b != [] {
      var x, y := a[0], b[0];
      KeyLessTotal(x, y);
      assert x == y;
      forall k ensures k in a[1..] <==> k in b[1..] {
        assert k in a[1..] ==> k in a;
        assert k in b[1..] ==> k in b;
        KeyLessTotal(k, x);
      }
      OrderIsCanonical(a[1..], b[1..]);
    }
  }

  /** Every finite set of keys can be put in order. */
  lemma {:induction false} OrderExists(keys: set<Key>) returns (order: seq<Key>)
    ensures InOrder(order) && forall k :: k in order <==> k in keys
  {
    order := [];
    if keys != {} {
      var k :| k in keys;
      var rest := OrderExists(keys - {k});
      order := Placed(rest, k);
    }
  }

  lemma {:induction false} Placed(keys: seq<Key>, k: Key) returns (order: seq<Key>)
    requires InOrder(keys) && k !in keys
    ensures InOrder(order) && forall l :: l in order <==> l in keys || l == k
  {
    hide KeyLess;
    if keys == [] {
      order := [k];
    } else {
      KeyLessTotal(k, keys[0]);
      if KeyLess(k, keys[0]) {
        order := [k] + keys;
        forall j | 0 < j < |keys| ensures KeyLess(k, keys[j]) {
          KeyLessTransitive(k, keys[0], keys[j]);
        }
      } else {
        var rest := Placed(keys[1..], k);
        order := [keys[0]] + rest;
        forall j | 0 <= j < |rest| ensures KeyLess(keys[0], rest[j]) {
          assert rest[j] in rest;
        }
      }
    }
  }

  // ---- Emission ----

  const QDISC_NAMES := ["nft_tc_qdisc_bytes_total", "nft_tc_qdisc_packets_total", "nft_tc_qdisc_drops_total",
                        "nft_tc_qdisc_overlimits_total", "nft_tc_qdisc_backlog_bytes"]
  const QDISC_HELPS := [
    "Total bytes processed by the qdisc (summed across multi-queue child qdiscs of the same kind).",
    "Total packets processed by the qdisc (summed across multi-queue child qdiscs of the same kind).",
    "Total packets dropped by the qdisc (summed across multi-queue child qdiscs of the same kind).",
    "Total overlimit events on the qdisc (summed across multi-queue child qdiscs of the same kind).",
    "Current backlog size of the qdisc in bytes (summed across multi-queue child qdiscs of the same kind)."
  ]

  function KeyLabels(k: Key): seq<Label> {
    [Label("device", k.device), Label("kind", k.kind)]
  }

  /** The n-th sample of a total; a gauge is printed as a float. */
  function SampleOf(k: Key, s: Sums, n: nat, show: nat -> Token): MetricSample
    requires n < 5
  {
    var value := [s.octets, s.packets, s.drops, s.overlimits, s.backlog][n];
    MetricSample(QDISC_NAMES[n], QDISC_HELPS[n], if n < 4 then Counter else Gauge, KeyLabels(k),
                 if n < 4 then UInt(Min(value, U64_MAX)) else Float(show(value)))
  }

  /** Five samples for each key, in the order of the keys. */
  function Emitted(keys: seq<Key>, totals: map<Key, Sums>, show: nat -> Token): seq<MetricSample>
    requires forall k :: k in keys ==> k in totals
  {
    seq(5 * |keys|, i requires 0 <= i < 5 * |keys| => SampleOf(keys[i / 5], totals[keys[i / 5]], i % 5, show))
  }

  lemma {:induction false} EmittedStep(keys: seq<Key>, i: nat, totals: map<Key, Sums>, show: nat -> Token)
    requires i < |keys| && forall k :: k in keys ==> k in totals
    ensures forall k :: k in keys[..i] || k in keys[..i + 1] ==> k in totals
    ensures Emitted(keys[..i + 1], totals, show)
         == Emitted(keys[..i], totals, show)
            + seq(5, m requires 0 <= m < 5 => SampleOf(keys[i], totals[keys[i]], m, show))
  {
    hide SampleOf;
    var longer := Emitted(keys[..i + 1], totals, show);
    var both := Emitted(keys[..i], totals, show)
      + seq(5, m requires 0 <= m < 5 => SampleOf(keys[i], totals[keys[i]], m, show));
    forall j | 0 <= j < |longer| ensures longer[j] == both[j] {
      if j < 5 * i {
        assert j / 5 < i;
      } else {
        assert j / 5 == i && j % 5 == j - 5 * i;
      }
    }
  }

  /** The samples of one total. */
  method EmitQdiscMetrics(out: Vec<MetricSample>, k: Key, s: Sums, show: nat -> Token)
    modifies out
    ensures out.items == old(out.items) + seq(5, m requires 0 <= m < 5 => SampleOf(k, s, m, show))
  {
    hide SampleOf;
    out.Push(SampleOf(k, s, 0, show));
    out.Push(SampleOf(k, s, 1, show));
    out.Push(SampleOf(k, s, 2, show));
    out.Push(SampleOf(k, s, 3, show));
    out.Push(SampleOf(k, s, 4, show));
  }

  /** What iterating over the totals visits: their keys, in order. */
  ghost predicate Visits(keys: seq<Key>, totals: map<Key, Sums>) {
    InOrder(keys) && forall k :: k in keys <==> k in totals
  }

  /** The samples of all totals in the order of their keys. */
  method EmitAll(keys: seq<Key>, totals: map<Key, Sums>, show: nat -> Token) returns (out: Vec<MetricSample>)
    requires Visits(keys, totals)
    ensures fresh(out) && out.items == Emitted(keys, totals, show)
  {
    out := new Vec<MetricSample>();
    for i := 0 to |keys|
      invariant fresh(out)
      invariant (forall k :: k in keys[..i] ==> k in totals) && out.items == Emitted(keys[..i], totals, show)
    {
      EmittedStep(keys, i, totals, show);
      EmitQdiscMetrics(out, keys[i], totals[keys[i]], show);
    }
    assert keys[..|keys|] == keys;
  }

  lemma {:induction false} QdiscNamesDiffer(m: nat, n: nat)
    requires m < n < 5
    ensures QDISC_NAMES[m] != QDISC_NAMES[n]
  {
    var s, t := QDISC_NAMES[m], QDISC_NAMES[n];
    assert s[13] != t[13] || s[14] != t[14];
  }

  /** The totals alone decide what is emitted, and in which order: they can be visited in exactly one way. */
  lemma {:induction false} EmissionIsCanonical(totals: map<Key, Sums>)
    ensures exists keys :: Visits(keys, totals)
    ensures forall a, b :: Visits(a, totals) && Visits(b, totals) ==> a == b
  {
    hide InOrder;
    var keys := OrderExists(totals.Keys);
    assert Visits(keys, totals);
    forall a, b | Visits(a, totals) && Visits(b, totals) ensures a == b {
      OrderIsCanonical(a, b);
    }
  }

  /** No two samples emitted for different devices or kinds, or for different counters, are the same series. */
  lemma {:induction false} SeriesAreDistinct(keys: seq<Key>, totals: map<Key, Sums>, show: nat -> Token, i: nat, j: nat)
    requires Visits(keys, totals) && i < j < |Emitted(keys, totals, show)|
    ensures var s, t := Emitted(keys, totals, show)[i], Emitted(keys, totals, show)[j];
            s.name != t.name || s.labels != t.labels
  {
    hide KeyLess;
    var k, l := keys[i / 5], keys[j / 5];
    if i / 5 == j / 5 {
      QdiscNamesDiffer(i % 5, j % 5);
    } else {
      assert i / 5 < j / 5 && KeyLess(k, l);
      KeyLessTotal(k, l);
      assert KeyLabels(k)[0].value == k.device && KeyLabels(l)[0].value == l.device;
      assert KeyLabels(k)[1].value == k.kind && KeyLabels(l)[1].value == l.kind;
    }
  }

  // ---- Frames in the kernel's layout ----

  /** The statistics of a discipline: octets and packets; queue length, backlog, drops, requeues and overlimits. */
  function EncodeStats(s: QdiscStats, qlen: u32, requeues: u32): bytes
    requires s.octets < U64
  {
    EncodeNla(1, ToLE(s.octets, 8) + ToLE(s.packets, 4))
    + EncodeNla(3, ToLE(qlen, 4) + ToLE(s.backlog, 4) + ToLE(s.drops, 4) + ToLE(requeues, 4) + ToLE(s.overlimits, 4))
  }

  lemma {:induction false} FieldReadsBack(front: bytes, x: u32, rest: bytes)
    ensures FieldAt(front + ToLE(x, 4) + rest, |front|) == x
  {
    hide ToLE, ReadLE;
    assert (front + ToLE(x, 4) + rest)[|front|..] == ToLE(x, 4) + rest;
    RadixValues();
    ReadersInvertWriters(x, 4, rest);
  }

  lemma {:induction false} OctetsReadBack(x: u64, rest: bytes)
    ensures ReadU64(ToLE(x, 8) + rest) == Some(x)
  {
    hide ToLE, ReadLE;
    RadixValues();
    ReadersInvertWriters(x, 8, rest);
  }

  /** The statistics come back field by field. */
  lemma {:induction false} StatsRoundTrip(s: QdiscStats, qlen: u32, requeues: u32)
    ensures StatsOf(Attrs(EncodeStats(s, qlen, requeues))) == Some(s)
  {
    hide Attrs, EncodeNla, ToLE, FieldAt, ReadU64, LastSized;
    var basic := ToLE(s.octets, 8) + ToLE(s.packets, 4);
    var q := ToLE(qlen, 4) + ToLE(s.backlog, 4) + ToLE(s.drops, 4) + ToLE(requeues, 4) + ToLE(s.overlimits, 4);
    AttrsOfTwo(1, basic, 3, q);
    TwoSized(Nla(1, basic), Nla(3, q));
    OctetsReadBack(s.octets, ToLE(s.packets, 4));
    FieldReadsBack(ToLE(s.octets, 8), s.packets, []);
    assert basic + [] == basic;
    FieldReadsBack(ToLE(qlen, 4), s.backlog, ToLE(s.drops, 4) + ToLE(requeues, 4) + ToLE(s.overlimits, 4));
    assert q == ToLE(qlen, 4) + ToLE(s.backlog, 4) + (ToLE(s.drops, 4) + ToLE(requeues, 4) + ToLE(s.overlimits, 4));
    FieldReadsBack(ToLE(qlen, 4) + ToLE(s.backlog, 4), s.drops, ToLE(requeues, 4) + ToLE(s.overlimits, 4));
    assert q == ToLE(qlen, 4) + ToLE(s.backlog, 4) + ToLE(s.drops, 4) + (ToLE(requeues, 4) + ToLE(s.overlimits, 4));
    FieldReadsBack(ToLE(qlen, 4) + ToLE(s.backlog, 4) + ToLE(s.drops, 4) + ToLE(requeues, 4), s.overlimits, []);
    assert q + [] == q;
  }

  lemma {:induction false} TwoSized(a: Nla, b: Nla)
    requires a.ty == 1 && |a.payload| >= 12 && b.ty == 3 && |b.payload| >= 20
    ensures LastSized([a] + [b], 1, 12) == Some(a.payload) && LastSized([a] + [b], 3, 20) == Some(b.payload)
  {
    assert ([a] + [b])[..1] == [a];
  }

  function EncodeFrame(head: bytes, ifindex: u32, rest: bytes, kind: bytes, stats: bytes): bytes {
    head + ToLE(ifindex, 4) + (rest + (EncodeNla(1, kind + [0]) + EncodeNla(NLA_F_NESTED + 7, stats)))
  }

  /** A frame comes back: interface index at octet 4, kind, statistics. */
  lemma {:induction false} FrameRoundTrip(head: bytes, ifindex: u32, rest: bytes, kind: bytes, s: QdiscStats, qlen: u32,
        requeues: u32)
    requires |head| == 4 && |rest| == 12 && 0 !in kind && IsUtf8(kind) && FitsNla(kind + [0])
    ensures EntryOf(EncodeFrame(head, ifindex, rest, kind, EncodeStats(s, qlen, requeues)))
         == Some(QdiscEntry(ifindex, LossyText(kind), Some(s)))
  {
    hide Attrs, EncodeNla, ToLE, FieldAt, Last, EncodeStats, StatsOf, CString, LossyText, IsUtf8;
    var stats := EncodeStats(s, qlen, requeues);
    StatsFit(s, qlen, requeues);
    var nlas := EncodeNla(1, kind + [0]) + EncodeNla(NLA_F_NESTED + 7, stats);
    var frame := EncodeFrame(head, ifindex, rest, kind, stats);
    assert frame[20..] == nlas;
    AttrsOfTwo(1, kind + [0], NLA_F_NESTED + 7, stats);
    OnlyLast([Nla(1, kind + [0])] + [Nla(7, stats)], 0);
    OnlyLast([Nla(1, kind + [0])] + [Nla(7, stats)], 1);
    CStringMeans(kind, []);
    assert kind + [0] + [] == kind + [0];
    FieldReadsBack(head, ifindex, rest + nlas);
    StatsRoundTrip(s, qlen, requeues);
  }

  lemma {:induction false} StatsFit(s: QdiscStats, qlen: u32, requeues: u32)
    ensures FitsNla(EncodeStats(s, qlen, requeues))
  {
    hide EncodeNla, ToLE;
  }

  /** Over more frames every total sums up on its own. */
  lemma {:induction false} FramesAdd(a: seq<bytes>, b: seq<bytes>, names: Names, k: Key)
    ensures var x, y, z := Exact(a, names, k), Exact(b, names, k), Exact(a + b, names, k);
            && z.octets == x.octets + y.octets && z.packets == x.packets + y.packets && z.drops == x.drops + y.drops
            && z.overlimits == x.overlimits + y.overlimits && z.backlog == x.backlog + y.backlog
  {
    hide Share;
    if b == [] {
      assert a + b == a;
    } else {
      assert (a + b)[..|a + b| - 1] == a + b[..|b| - 1];
      FramesAdd(a, b[..|b| - 1], names, k);
    }
  }

  /** From one frame to its samples: the statistics stand under the names they belong to. */
  lemma {:induction false} SamplesOfFrame(frame: bytes, e: QdiscEntry, s: QdiscStats, names: Names, show: nat -> Token)
    requires EntryOf(frame) == Some(e) && e.stats == Some(s)
    ensures var k := Key(if e.ifindex in names then names[e.ifindex] else "unknown", e.kind);
            var t := Exact([frame], names, k);
            && SampleOf(k, t, 0, show).name == "nft_tc_qdisc_bytes_total"
            && SampleOf(k, t, 0, show).value == UInt(s.octets)
            && SampleOf(k, t, 1, show).name == "nft_tc_qdisc_packets_total"
            && SampleOf(k, t, 1, show).value == UInt(s.packets)
            && SampleOf(k, t, 2, show).name == "nft_tc_qdisc_drops_total"
            && SampleOf(k, t, 2, show).value == UInt(s.drops)
            && SampleOf(k, t, 3, show).name == "nft_tc_qdisc_overlimits_total"
            && SampleOf(k, t, 3, show).value == UInt(s.overlimits)
            && SampleOf(k, t, 4, show).name == "nft_tc_qdisc_backlog_bytes"
            && SampleOf(k, t, 4, show).value == Float(show(s.backlog))
            && forall n :: 0 <= n < 5 ==>
                 SampleOf(k, t, n, show).labels == [Label("device", k.device), Label("kind", k.kind)]
  {
    hide EntryOf, SampleOf, Exact;
    var k := Key(if e.ifindex in names then names[e.ifindex] else "unknown", e.kind);
    ExactOfOne(frame, e, s, names);
    SamplesInNumbers(k, Sums(s.octets, s.packets, s.drops, s.overlimits, s.backlog), show);
  }

  lemma {:induction false} ExactOfOne(frame: bytes, e: QdiscEntry, s: QdiscStats, names: Names)
    requires EntryOf(frame) == Some(e) && e.stats == Some(s)
    ensures Exact([frame], names, Key(if e.ifindex in names then names[e.ifindex] else "unknown", e.kind))
         == Sums(s.octets, s.packets, s.drops, s.overlimits, s.backlog)
  {
    hide EntryOf;
    var k := Key(if e.ifindex in names then names[e.ifindex] else "unknown", e.kind);
    assert [frame][..0] == [] && Exact([], names, k) == ZERO;
    assert Share(frame, names, k) == SumsOf(s);
  }

  lemma {:induction false} SamplesInNumbers(k: Key, t: Sums, show: nat -> Token)
    requires t.octets <= U64_MAX && t.packets <= U64_MAX && t.drops <= U64_MAX && t.overlimits <= U64_MAX
    ensures SampleOf(k, t, 0, show).name == "nft_tc_qdisc_bytes_total"
    ensures SampleOf(k, t, 0, show).value == UInt(t.octets)
    ensures SampleOf(k, t, 1, show).name == "nft_tc_qdisc_packets_total"
    ensures SampleOf(k, t, 1, show).value == UInt(t.packets)
    ensures SampleOf(k, t, 2, show).name == "nft_tc_qdisc_drops_total"
    ensures SampleOf(k, t, 2, show).value == UInt(t.drops)
    ensures SampleOf(k, t, 3, show).name == "nft_tc_qdisc_overlimits_total"
    ensures SampleOf(k, t, 3, show).value == UInt(t.overlimits)
    ensures SampleOf(k, t, 4, show).name == "nft_tc_qdisc_backlog_bytes"
    ensures SampleOf(k, t, 4, show).value == Float(show(t.backlog))
    ensures forall n :: 0 <= n < 5 ==>
              SampleOf(k, t, n, show).labels == [Label("device", k.device), Label("kind", k.kind)]
  {
    hide QDISC_HELPS;
  }

  /** Statistics too short to read are passed over; without queue statistics their fields are zero, without basic ones
      there are none at all. */
  lemma {:induction false} ShortStatistics(nlas: seq<Nla>, short: bytes, basic: bytes)
    ensures |short| < 12 ==> StatsOf(nlas + [Nla(1, short)]) == StatsOf(nlas)
    ensures |short| < 20 ==> StatsOf(nlas + [Nla(3, short)]) == StatsOf(nlas)
    ensures StatsOf([Nla(3, basic)]) == None
    ensures |basic| >= 12 ==>
              StatsOf([Nla(1, basic)])
              == Some(QdiscStats(ReadU64(basic).GetOr(0), FieldAt(basic, 8), 0, 0, 0))
  {
    hide ReadLE;
    assert (nlas + [Nla(1, short)])[..|nlas|] == nlas && (nlas + [Nla(3, short)])[..|nlas|] == nlas;
    OneSized(Nla(3, basic), 1, 12);
    OneSized(Nla(1, basic), 1, 12);
    OneSized(Nla(1, basic), 3, 20);
  }

  lemma {:induction false} OneSized(a: Nla, ty: nat, size: nat)
    ensures LastSized([a], ty, size) == if a.ty == ty && |a.payload| >= size then Some(a.payload) else None
  {
    assert [a][..0] == [];
  }

  /** A frame below 20 octets is no frame, and a last kind that is no text is unknown. */
  lemma {:induction false} OddFrames(frame: bytes)
    ensures |frame| < 20 <==> EntryOf(frame) == None
    ensures |frame| >= 20 ==>
              var kind := Last(Attrs(frame[20..]), 1);
              EntryOf(frame).value.kind == if kind.Some? && IsUtf8(CString(kind.value)) then TextOf(kind.value)
                                           else "unknown"
  {
    hide Attrs, StatsOf, FieldAt, CString, LossyText, IsUtf8, Last;
  }
}
