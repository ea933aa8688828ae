/** What a reader of a stored body learns about the collectors: the telemetry of a scrape survives the encoder's guard
    and reads back, collector by collector. */
module ScrapeReading {
  import opened Wrappers
  import opened Bytes
  import opened Registry
  import opened Exposition
  import opened Series
  import opened Scrape

  /** The four metrics about a collector, in the order they are emitted. */
  function TelemetryName(k: nat): string
    requires k < 4
  {
    ABOUT_COLLECTOR + Aspect(k)
  }

  function Aspect(k: nat): string
    requires k < 4
  {
    match k
    case 0 => "available"
    case 1 => "success"
    case 2 => "duration_seconds"
    case _ => "error_total"
  }

  function TelemetryValue(a: Availability, r: CollectorResult, errors: u64, k: nat): MetricValue
    requires k < 4
  {
    match k
    case 0 => Flag(Available(a, r.name))
    case 1 => Flag(r.success)
    case 2 => Float(r.seconds)
    case _ => UInt(errors)
  }

  // ---- Under the guard ----

  lemma {:induction false} NamesApart(k: nat)
    requires k < 4
    ensures forall j :: 0 <= j < 4 && j != k ==> TelemetryName(j) != TelemetryName(k)
    ensures TelemetryName(k) != "nft_up" && TelemetryName(k) != "nft_build_info"
  {
    assert forall j :: 0 <= j < 4 ==> TelemetryName(j)[21] == Aspect(j)[0];
    assert Aspect(0)[0] == 'a' && Aspect(1)[0] == 's' && Aspect(2)[0] == 'd' && Aspect(3)[0] == 'e';
    assert "nft_up"[4] == 'u' && "nft_build_info"[4] == 'b' && TelemetryName(k)[4] == 's';
  }

  lemma {:induction false} TelemetryIs(a: Availability, r: CollectorResult, errors: u64, k: nat)
    requires k < 4
    ensures var s := Telemetry(a, r, errors)[k];
            && s.name == TelemetryName(k) && s.labels == CollectorLabels(r.name)
            && s.value == TelemetryValue(a, r, errors, k)
  {
  }

  lemma {:induction false} KeptStep(ss: seq<MetricSample>, s: MetricSample, m: string)
    ensures Kept(ss + [s], m)
         == Kept(ss, m)
            + if s.name == m && SeriesKey(s.labels) !in Keys(ss, m) then [Observation(s.labels, s.value)] else []
    ensures Keys(ss + [s], m) == Keys(ss, m) + if s.name == m then {SeriesKey(s.labels)} else {}
    ensures Leader(ss + [s], m) == if Leader(ss, m).Some? then Leader(ss, m) else if s.name == m then Some(s) else None
  {
    hide SeriesKey;
    assert (ss + [s])[..|ss|] == ss;
  }

  /** Of four samples of different metrics, the guard sees one under each. */
  lemma {:induction false} FourSamples(ss: seq<MetricSample>, t: seq<MetricSample>, k: nat, m: string)
    requires k < |t| == 4 && t[k].name == m && forall j :: 0 <= j < 4 && j != k ==> t[j].name != m
    ensures Kept(ss + t, m)
         == Kept(ss, m) + if SeriesKey(t[k].labels) !in Keys(ss, m) then [Observation(t[k].labels, t[k].value)] else []
    ensures Keys(ss + t, m) == Keys(ss, m) + {SeriesKey(t[k].labels)}
    ensures Leader(ss + t, m) == if Leader(ss, m).Some? then Leader(ss, m) else Some(t[k])
  {
    hide SeriesKey, Kept, Keys, Leader;
    var s1, s2, s3 := ss + [t[0]], ss + [t[0]] + [t[1]], ss + [t[0]] + [t[1]] + [t[2]];
    KeptStep(ss, t[0], m);
    KeptStep(s1, t[1], m);
    KeptStep(s2, t[2], m);
    KeptStep(s3, t[3], m);
    assert ss + t == s3 + [t[3]];
  }

  lemma {:induction false} CollectorStep(ss: seq<MetricSample>, a: Availability, r: CollectorResult, e: u64, k: nat)
    requires k < 4
    ensures var all, m := ss + Telemetry(a, r, e), TelemetryName(k);
            var key := SeriesKey(CollectorLabels(r.name));
            && Kept(all, m) == Kept(ss, m) + (if key in Keys(ss, m) then []
                                              else [Observation(CollectorLabels(r.name), TelemetryValue(a, r, e, k))])
            && Keys(all, m) == Keys(ss, m) + {key}
            && Leader(all, m) == if Leader(ss, m).Some? then Leader(ss, m) else Some(Telemetry(a, r, e)[k])
  {
    hide Telemetry, TelemetryValue, SeriesKey, Kept, Keys, Leader, CollectorLabels, TelemetryName;
    var t := Telemetry(a, r, e);
    NamesApart(k);
    forall j | 0 <= j < 4 ensures t[j].name == TelemetryName(j) {
      TelemetryIs(a, r, e, j);
    }
    TelemetryIs(a, r, e, k);
    FourSamples(ss, t, k, TelemetryName(k));
  }

  /** The observations of one telemetry metric whose keys are not taken yet. */
  function Untaken(a: Availability, rs: seq<CollectorResult>, errors: seq<u64>, k: nat, taken: set<string>)
    : seq<Observation>
    requires |rs| == |errors| && k < 4
  {
    if rs == [] then []
    else
      var r, e := rs[|rs| - 1], errors[|rs| - 1];
      Untaken(a, rs[..|rs| - 1], errors[..|rs| - 1], k, taken)
      + if SeriesKey(CollectorLabels(r.name)) in taken then []
        else [Observation(CollectorLabels(r.name), TelemetryValue(a, r, e, k))]
  }

  lemma {:induction false} CollectorKeysApart(x: string, y: string)
    ensures SeriesKey(CollectorLabels(x)) == SeriesKey(CollectorLabels(y)) <==> x == y
  {
    var a, b := SeriesKey(CollectorLabels(x)), SeriesKey(CollectorLabels(y));
    assert CollectorLabels(x)[1..] == [] && CollectorLabels(y)[1..] == [];
    assert a == "collector" + [SOH] + x + [STX] && b == "collector" + [SOH] + y + [STX];
    assert x == a[10..|a| - 1] && y == b[10..|b| - 1];
  }

  predicate UniqueResults(rs: seq<CollectorResult>) {
    forall i, j :: 0 <= i < j < |rs| ==> rs[i].name != rs[j].name
  }

  /** Which keys a telemetry metric has after some samples and some collectors. */
  ghost predicate KeysAre(keys: set<string>, before: set<string>, rs: seq<CollectorResult>) {
    && before <= keys
    && forall name: string :: SeriesKey(CollectorLabels(name)) in keys <==>
         SeriesKey(CollectorLabels(name)) in before || exists i :: 0 <= i < |rs| && rs[i].name == name
  }

  /** What the guard leaves of a telemetry metric: all but what the samples in front have used up. */
  ghost predicate Guarded(front: seq<MetricSample>, all: seq<MetricSample>, a: Availability, rs: seq<CollectorResult>,
                          errors: seq<u64>, k: nat)
    requires |rs| == |errors| && k < 4
  {
    var m := TelemetryName(k);
    && Kept(all, m) == Kept(front, m) + Untaken(a, rs, errors, k, Keys(front, m))
    && KeysAre(Keys(all, m), Keys(front, m), rs)
    && Leader(all, m) == if Leader(front, m).Some? || rs == [] then Leader(front, m)
                         else Some(Telemetry(a, rs[0], errors[0])[k])
  }

  lemma {:induction false} UntakenStep(a: Availability, rs: seq<CollectorResult>, errors: seq<u64>,
        r: CollectorResult, e: u64, k: nat, taken: set<string>)
    requires |rs| == |errors| && k < 4
    ensures Untaken(a, rs + [r], errors + [e], k, taken)
         == Untaken(a, rs, errors, k, taken)
            + if SeriesKey(CollectorLabels(r.name)) in taken then []
              else [Observation(CollectorLabels(r.name), TelemetryValue(a, r, e, k))]
  {
    hide SeriesKey, CollectorLabels, TelemetryValue;
    assert (rs + [r])[..|rs|] == rs && (errors + [e])[..|rs|] == errors;
  }

  lemma {:induction false} GuardedStep(front: seq<MetricSample>, all: seq<MetricSample>, a: Availability,
        rs: seq<CollectorResult>, errors: seq<u64>, r: CollectorResult, e: u64, k: nat)
    requires |rs| == |errors| && k < 4 && Guarded(front, all, a, rs, errors, k) && UniqueResults(rs + [r])
    ensures Guarded(front, all + Telemetry(a, r, e), a, rs + [r], errors + [e], k)
  {
    hide Telemetry, TelemetryValue, SeriesKey, Kept, Keys, Leader, CollectorLabels, TelemetryName, KeysAre, Untaken;
    var m := TelemetryName(k);
    CollectorStep(all, a, r, e, k);
    OneMoreKey(Keys(all, m), Keys(front, m), rs, r);
    UntakenStep(a, rs, errors, r, e, k, Keys(front, m));
  }

  lemma {:induction false} TelemetryKept(front: seq<MetricSample>, a: Availability, rs: seq<CollectorResult>,
        errors: seq<u64>, k: nat)
    requires |rs| == |errors| && k < 4 && UniqueResults(rs)
    ensures Guarded(front, front + Described(a, rs, errors), a, rs, errors, k)
    decreases |rs|
  {
    hide Telemetry, TelemetryName, Guarded;
    if rs == [] {
      assert front + Described(a, rs, errors) == front;
      GuardedAtStart(front, a, k);
    } else {
      var n := |rs| - 1;
      var init, described := rs[..n], Described(a, rs[..n], errors[..n]);
      assert Described(a, rs, errors) == described + Telemetry(a, rs[n], errors[n]);
      hide Described;
      var before := front + described;
      TelemetryKept(front, a, init, errors[..n], k);
      assert rs == init + [rs[n]] && errors == errors[..n] + [errors[n]];
      GuardedStep(front, before, a, init, errors[..n], rs[n], errors[n], k);
      assert front + (described + Telemetry(a, rs[n], errors[n])) == before + Telemetry(a, rs[n], errors[n]);
    }
  }

  lemma {:induction false} GuardedAtStart(front: seq<MetricSample>, a: Availability, k: nat)
    requires k < 4
    ensures Guarded(front, front, a, [], [], k)
  {
    hide Kept, Keys, Leader, TelemetryName;
    assert Kept(front, TelemetryName(k)) + [] == Kept(front, TelemetryName(k));
  }

  lemma {:induction false} OneMoreKey(keys: set<string>, before: set<string>, rs: seq<CollectorResult>,
        r: CollectorResult)
    requires KeysAre(keys, before, rs) && UniqueResults(rs + [r])
    ensures KeysAre(keys + {SeriesKey(CollectorLabels(r.name))}, before, rs + [r])
    ensures SeriesKey(CollectorLabels(r.name)) in keys <==> SeriesKey(CollectorLabels(r.name)) in before
  {
    hide SeriesKey, CollectorLabels;
    var all := rs + [r];
    assert forall i :: 0 <= i < |rs| ==> all[i] == rs[i];
    assert all[|rs|] == r;
    forall name: string {
      CollectorKeysApart(name, r.name);
    }
  }

  // ---- Read back from the body ----

  /** What an item is about. */
  function ItemName(item: Item): string {
    match item
    case HelpItem(name, _) => name
    case TypeItem(name, _) => name
    case SampleItem(name, _, _) => name
  }

  /** The items about one metric. */
  function About(items: seq<Item>, m: string): seq<Item> {
    if items == [] then [] else (if ItemName(items[0]) == m then [items[0]] else []) + About(items[1..], m)
  }

  lemma {:induction false} NothingAbout(m: string)
    ensures About([], m) == []
  {
  }

  lemma {:induction false} AboutCons(item: Item, rest: seq<Item>, m: string)
    ensures About([item] + rest, m) == (if ItemName(item) == m then [item] else []) + About(rest, m)
  {
    hide ItemName;
    assert ([item] + rest)[1..] == rest;
  }

  lemma {:induction false} AboutAppend(a: seq<Item>, b: seq<Item>, m: string)
    ensures About(a + b, m) == About(a, m) + About(b, m)
    decreases |a|
  {
    hide ItemName;
    if a == [] {
      assert a + b == b;
    } else {
      var head := if ItemName(a[0]) == m then [a[0]] else [];
      AboutAppend(a[1..], b, m);
      AboutCons(a[0], a[1..] + b, m);
      assert a + b == [a[0]] + (a[1..] + b);
      Associative(head, About(a[1..], m), About(b, m));
    }
  }

  lemma {:induction false} AboutOne(items: seq<Item>, name: string, m: string)
    requires forall i :: i in items ==> ItemName(i) == name
    ensures About(items, m) == if m == name then items else []
  {
    hide ItemName;
    if items != [] {
      AboutOne(items[1..], name, m);
    }
  }

  lemma {:induction false} GroupIsAbout(name: string, leader: MetricSample, os: seq<Observation>)
    ensures forall i :: i in GroupItems(name, leader, os) ==> ItemName(i) == name
  {
    SamplesAreAbout(name, os);
  }

  lemma {:induction false} SamplesAreAbout(name: string, os: seq<Observation>)
    ensures forall i :: i in SampleItems(name, os) ==> ItemName(i) == name
  {
    hide StrippedLabels, ValueText;
    if os != [] {
      SamplesAreAbout(name, os[1..]);
    }
  }

  lemma {:induction false} HeadIsNew(names: seq<string>)
    requires names != [] && Ascending(names)
    ensures names[0] !in names[1..]
  {
    hide Less;
    if names[0] in names[1..] {
      var i :| 0 <= i < |names[1..]| && names[1..][i] == names[0];
      assert Less(names[0], names[i + 1]);
      LessTotal(names[0], names[0]);
    }
  }

  /** Of all the groups of a body, exactly one is about a metric that has samples. */
  lemma {:induction false} GroupOf(ss: seq<MetricSample>, names: seq<string>, m: string)
    requires (forall n :: n in names ==> Leader(ss, n).Some?) && Ascending(names)
    ensures About(ItemsOf(ss, names), m)
         == if m in names then GroupItems(m, Leader(ss, m).value, Kept(ss, m)) else []
  {
    hide GroupItems, Leader, Kept, Less, About;
    if names == [] {
      NothingAbout(m);
    } else {
      var n, rest := names[0], names[1..];
      GroupOf(ss, rest, m);
      var group := GroupItems(n, Leader(ss, n).value, Kept(ss, n));
      GroupIsAbout(n, Leader(ss, n).value, Kept(ss, n));
      AboutOne(group, n, m);
      AboutAppend(group, ItemsOf(ss, rest), m);
      HeadIsNew(names);
    }
  }

  /** A metric with samples reads back as its one group. */
  lemma {:induction false} MetricReadsBack(ss: seq<MetricSample>, m: string)
    requires Named(ss) && Leader(ss, m).Some?
    ensures ReadBody(Body(ss)).Some?
    ensures About(ReadBody(Body(ss)).value, m) == GroupItems(m, Leader(ss, m).value, Kept(ss, m))
  {
    hide Body, ReadBody, Names, Leader, Kept, ItemsOf, GroupItems, Named;
    BodyReadsBack(ss);
    GroupOf(ss, Names(ss), m);
  }

  lemma {:induction false} ExporterSamples(delivered: seq<MetricSample>, version: string, k: nat)
    requires k < 4
    ensures var front, m := delivered + [UP, BuildInfo(version)], TelemetryName(k);
            Kept(front, m) == Kept(delivered, m) && Keys(front, m) == Keys(delivered, m)
            && Leader(front, m) == Leader(delivered, m)
  {
    hide Kept, Keys, Leader, TelemetryName, SeriesKey;
    NamesApart(k);
    KeptStep(delivered, UP, TelemetryName(k));
    KeptStep(delivered + [UP], BuildInfo(version), TelemetryName(k));
    assert delivered + [UP, BuildInfo(version)] == delivered + [UP] + [BuildInfo(version)];
  }

  lemma {:induction false} NamedAppend(a: seq<MetricSample>, b: seq<MetricSample>)
    requires Named(a) && Named(b)
    ensures Named(a + b)
  {
    hide Identifier, Keyed;
  }

  lemma {:induction false} NameIsIdentifier(k: nat)
    requires k < 4
    ensures Identifier(TelemetryName(k))
  {
    AspectIsIdentifier(k);
    PrefixIsIdentifier();
    hide NameChar, Aspect, ABOUT_COLLECTOR;
  }

  lemma {:induction false} AspectIsIdentifier(k: nat)
    requires k < 4
    ensures Identifier(Aspect(k))
  {
  }

  lemma {:induction false} PrefixIsIdentifier()
    ensures Identifier(ABOUT_COLLECTOR)
  {
  }

  lemma {:induction false} TelemetryIsNamed(a: Availability, r: CollectorResult, e: u64)
    ensures Named(Telemetry(a, r, e))
  {
    hide Identifier, Telemetry, TelemetryName, TelemetryValue;
    CollectorIsKeyed(r.name);
    forall s | s in Telemetry(a, r, e) ensures Identifier(s.name) && Keyed(s.labels) {
      var k :| 0 <= k < 4 && Telemetry(a, r, e)[k] == s;
      TelemetryIs(a, r, e, k);
      NameIsIdentifier(k);
    }
  }

  lemma {:induction false} CollectorIsKeyed(name: string)
    ensures Keyed(CollectorLabels(name))
  {
    assert Identifier("collector");
  }

  lemma {:induction false} DescribedIsNamed(a: Availability, rs: seq<CollectorResult>, errors: seq<u64>)
    requires |rs| == |errors|
    ensures Named(Described(a, rs, errors))
    decreases |rs|
  {
    hide Telemetry, Named;
    if rs == [] {
      NothingNamed();
    } else {
      DescribedIsNamed(a, rs[..|rs| - 1], errors[..|rs| - 1]);
      TelemetryIsNamed(a, rs[|rs| - 1], errors[|rs| - 1]);
      NamedAppend(Described(a, rs[..|rs| - 1], errors[..|rs| - 1]), Telemetry(a, rs[|rs| - 1], errors[|rs| - 1]));
    }
  }

  lemma {:induction false} NothingNamed()
    ensures Named([])
  {
  }

  lemma {:induction false} ExporterIsNamed(version: string)
    ensures Named([UP, BuildInfo(version)])
  {
    UpIsNamed();
    BuildInfoIsNamed(version);
    hide Identifier, Keyed, BuildInfo, UP;
  }

  lemma {:induction false} UpIsNamed()
    ensures Identifier(UP.name) && Keyed(UP.labels)
  {
  }

  lemma {:induction false} BuildInfoIsNamed(version: string)
    ensures Identifier(BuildInfo(version).name) && Keyed(BuildInfo(version).labels)
  {
    assert Identifier("version");
  }

  /** In the body of the samples, a metric is this one group. */
  predicate ReadsBackAs(all: seq<MetricSample>, m: string, leader: MetricSample, os: seq<Observation>) {
    var items := ReadBody(Body(all));
    items.Some? && About(items.value, m) == GroupItems(m, leader, os)
  }

  /** The telemetry in a stored body: whatever the collectors delivered, reading the body gives for each of the four
      telemetry metrics one group, the delivered samples of that name first, then one line for each collector whose key
      no delivered sample has taken. */
  lemma {:induction false} TelemetryReadsBack(a: Availability, names: seq<string>, round: Round, version: string,
        errors: seq<u64>, k: nat)
    requires |names| == |round.outcomes| == |round.seconds| == |errors| && names != [] && Unique(names) && k < 4
    requires Named(Output(a, names, round.outcomes))
    ensures var delivered, rs := Output(a, names, round.outcomes), Results(a, names, round);
            var m := TelemetryName(k);
            ReadsBackAs(Scraped(a, names, round, version, errors), m,
                        Leader(delivered, m).GetOr(Telemetry(a, rs[0], errors[0])[k]),
                        Kept(delivered, m) + Untaken(a, rs, errors, k, Keys(delivered, m)))
  {
    hide Output, Described, Telemetry, Untaken, Kept, Keys, Leader, Body, ReadBody, GroupItems, TelemetryName;
    hide Named, KeysAre, About;
    var delivered, rs := Output(a, names, round.outcomes), Results(a, names, round);
    var front := delivered + [UP, BuildInfo(version)];
    ResultsAreUnique(a, names, round);
    ExporterSamples(delivered, version, k);
    TelemetryKept(front, a, rs, errors, k);
    ExporterIsNamed(version);
    DescribedIsNamed(a, rs, errors);
    NamedAppend(delivered, [UP, BuildInfo(version)]);
    NamedAppend(front, Described(a, rs, errors));
    MetricReadsBack(Scraped(a, names, round, version, errors), TelemetryName(k));
  }

  /** One observation for each collector, in order. */
  function AllOf(a: Availability, rs: seq<CollectorResult>, errors: seq<u64>, k: nat): seq<Observation>
    requires |rs| == |errors| && k < 4
  {
    seq(|rs|, i requires 0 <= i < |rs| =>
          Observation(CollectorLabels(rs[i].name), TelemetryValue(a, rs[i], errors[i], k)))
  }

  /** Every collector keeps its line exactly when no key of theirs is taken. */
  lemma {:induction false} AllUntakenIff(a: Availability, rs: seq<CollectorResult>, errors: seq<u64>, k: nat,
        taken: set<string>)
    requires |rs| == |errors| && k < 4
    ensures |Untaken(a, rs, errors, k, taken)| <= |rs|
    ensures Untaken(a, rs, errors, k, taken) == AllOf(a, rs, errors, k) <==>
            forall i :: 0 <= i < |rs| ==> SeriesKey(CollectorLabels(rs[i].name)) !in taken
    decreases |rs|
  {
    hide SeriesKey, CollectorLabels, TelemetryValue;
    if rs != [] {
      var n := |rs| - 1;
      AllUntakenIff(a, rs[..n], errors[..n], k, taken);
      var all := AllOf(a, rs, errors, k);
      assert all == AllOf(a, rs[..n], errors[..n], k) + [all[n]];
      if SeriesKey(CollectorLabels(rs[n].name)) !in taken {
        assert all[..n] == AllOf(a, rs[..n], errors[..n], k);
      }
    }
  }

  lemma {:induction false} NothingUnder(ss: seq<MetricSample>, m: string)
    requires forall s :: s in ss ==> s.name != m
    ensures Kept(ss, m) == [] && Keys(ss, m) == {} && Leader(ss, m) == None
  {
    hide SeriesKey;
    if ss != [] {
      assert ss[|ss| - 1] in ss;
      NothingUnder(ss[..|ss| - 1], m);
    }
  }

  /** The collectors deliver well-formed samples, none of them of the metric. */
  predicate DeliveredBeside(delivered: seq<MetricSample>, m: string) {
    Named(delivered) && forall s :: s in delivered ==> s.name != m
  }

  /** When no collector delivers samples of a telemetry metric, its group is exactly one line for each collector: with
      the error totals of a run, the body shows for each collector how many scrapes so far it failed. */
  lemma {:induction false} CleanTelemetryReadsBack(a: Availability, names: seq<string>, round: Round, version: string,
        errors: seq<u64>, k: nat)
    requires |names| == |round.outcomes| == |round.seconds| == |errors| && names != [] && Unique(names) && k < 4
    requires DeliveredBeside(Output(a, names, round.outcomes), TelemetryName(k))
    ensures var rs := Results(a, names, round);
            ReadsBackAs(Scraped(a, names, round, version, errors), TelemetryName(k),
                        Telemetry(a, rs[0], errors[0])[k], AllOf(a, rs, errors, k))
  {
    hide Output, Scraped, Telemetry, Untaken, Kept, Keys, Leader, ReadsBackAs, TelemetryName, Named, AllOf;
    var delivered, rs := Output(a, names, round.outcomes), Results(a, names, round);
    TelemetryReadsBack(a, names, round, version, errors, k);
    NothingUnder(delivered, TelemetryName(k));
    AllUntakenIff(a, rs, errors, k, {});
    assert [] + AllOf(a, rs, errors, k) == AllOf(a, rs, errors, k);
  }

  function TotalsShown(names: seq<string>, totals: seq<u64>): seq<Observation>
    requires |names| == |totals|
  {
    seq(|names|, i requires 0 <= i < |names| => Observation(CollectorLabels(names[i]), UInt(totals[i])))
  }

  predicate ShowsTotals(out: seq<MetricSample>, names: seq<string>, totals: seq<u64>)
    requires |names| == |totals| && names != []
  {
    ReadsBackAs(out, TelemetryName(3), ErrorSample(names[0], UInt(totals[0])), TotalsShown(names, totals))
  }

  /** So the body stored by the k-th scrape of a run reads back, for each collector, as the number of scrapes so far in
      which it was available and failed or timed out, modulo 2^64. */
  lemma {:induction false} ErrorTotalsReadBack(out: seq<MetricSample>, a: Availability, names: seq<string>,
        version: string, rounds: seq<Round>, k: nat)
    requires k < |rounds| && Shaped(rounds, |names|) && Shaped(rounds[..k + 1], |names|)
    requires ReportsAt(out, a, names, version, rounds, k) && names != [] && Unique(names)
    requires |rounds[k].outcomes| == |rounds[k].seconds| == |names|
    requires DeliveredBeside(Output(a, names, rounds[k].outcomes), TelemetryName(3))
    ensures ShowsTotals(out, names, ErrorTotals(a, names, rounds[..k + 1]))
  {
    hide Output, Scraped, ReadsBackAs, TelemetryName, Named, FailedScrapes, Wrapped, ErrorSample, Unique, Shaped;
    var totals, rs := ErrorTotals(a, names, rounds[..k + 1]), Results(a, names, rounds[k]);
    CleanTelemetryReadsBack(a, names, rounds[k], version, totals, 3);
    assert AllOf(a, rs, totals, 3) == TotalsShown(names, totals);
  }

  lemma {:induction false} ResultsAreUnique(a: Availability, names: seq<string>, round: Round)
    requires |names| == |round.outcomes| == |round.seconds| && Unique(names)
    ensures UniqueResults(Results(a, names, round)) && |Results(a, names, round)| == |names|
  {
  }
}
