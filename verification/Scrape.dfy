/** The scrape fan-out of crates/netlink_exporter/src/scrape.rs: collectors run one after another, a failure is counted
    and skipped, and telemetry about every collector ends the samples. */
module Scrape {
  import opened Wrappers
  import opened Bytes
  import opened Registry
  import opened Series

  /** How a call of `collect` ends, the timer included. */
  datatype Outcome = Collected(samples: seq<MetricSample>) | Failed | TimedOut

  /** One scrape as the collectors experience it: what each would return and how long it would take. */
  datatype Round = Round(outcomes: seq<Outcome>, seconds: seq<Token>)

  type Availability = map<string, bool>

  predicate Available(a: Availability, name: string) {
    name in a && a[name]
  }

  /** The collector is asked and does not deliver. */
  predicate Fails(a: Availability, name: string, o: Outcome) {
    Available(a, name) && !o.Collected?
  }

  // ---- What a scrape should give ----

  function Delivered(a: Availability, name: string, o: Outcome): seq<MetricSample> {
    if Available(a, name) && o.Collected? then o.samples else []
  }

  /** The successful collectors' samples, in collector order. */
  function Output(a: Availability, names: seq<string>, outcomes: seq<Outcome>): seq<MetricSample>
    requires |names| == |outcomes|
  {
    if names == [] then []
    else
      Output(a, names[..|names| - 1], outcomes[..|names| - 1]) + Delivered(a, names[|names| - 1], outcomes[|names| - 1])
  }

  /** How many collectors of the name fail. */
  function Failures(a: Availability, names: seq<string>, outcomes: seq<Outcome>, name: string): nat
    requires |names| == |outcomes|
  {
    if names == [] then 0
    else
      Failures(a, names[..|names| - 1], outcomes[..|names| - 1], name)
      + if names[|names| - 1] == name && Fails(a, name, outcomes[|names| - 1]) then 1 else 0
  }

  const UP := MetricSample("nft_up", "Exporter liveness: 1 if the exporter is up.", Gauge, [], Float("1"))

  function BuildInfo(version: string): MetricSample {
    MetricSample("nft_build_info", "A metric with value 1 exposing build information.", Gauge,
                 [Label("version", version)], Float("1"))
  }

  function Flag(b: bool): MetricValue {
    Float(if b then "1" else "0")
  }

  datatype CollectorResult = CollectorResult(name: string, success: bool, seconds: Token)

  /** What is recorded of a collector: one that is not available counts as a success of no duration. */
  function ResultOf(a: Availability, name: string, o: Outcome, seconds: Token): CollectorResult {
    if Available(a, name) then CollectorResult(name, o.Collected?, seconds) else CollectorResult(name, true, "0")
  }

  /** The front of the names of the metrics about collectors. */
  const ABOUT_COLLECTOR := "nft_scrape_collector_"

  function CollectorLabels(name: string): seq<Label> {
    [Label("collector", name)]
  }

  function AvailableSample(name: string, value: MetricValue): MetricSample {
    MetricSample(ABOUT_COLLECTOR + "available", "1 if the collector's kernel subsystem was available at startup.",
                 Gauge, CollectorLabels(name), value)
  }

  function SuccessSample(name: string, value: MetricValue): MetricSample {
    MetricSample(ABOUT_COLLECTOR + "success", "1 if the last scrape of this collector succeeded.",
                 Gauge, CollectorLabels(name), value)
  }

  function DurationSample(name: string, value: MetricValue): MetricSample {
    MetricSample(ABOUT_COLLECTOR + "duration_seconds",
                 "Duration of the last scrape cycle for this collector in seconds.",
                 Gauge, CollectorLabels(name), value)
  }

  function ErrorSample(name: string, value: MetricValue): MetricSample {
    MetricSample(ABOUT_COLLECTOR + "error_total",
                 "Total number of scrape errors for this collector since process start.",
                 Counter, CollectorLabels(name), value)
  }

  /** The four samples about one collector. */
  function Telemetry(a: Availability, r: CollectorResult, errors: u64): (t: seq<MetricSample>)
    ensures |t| == 4
  {
    [AvailableSample(r.name, Flag(Available(a, r.name))), SuccessSample(r.name, Flag(r.success)),
     DurationSample(r.name, Float(r.seconds)), ErrorSample(r.name, UInt(errors))]
  }

  type Stats = map<string, u64>

  function ErrorsOf(stats: Stats, name: string): u64 {
    if name in stats then stats[name] else 0
  }

  function Telemetries(a: Availability, rs: seq<CollectorResult>, stats: Stats): seq<MetricSample> {
    if rs == [] then []
    else Telemetries(a, rs[..|rs| - 1], stats) + Telemetry(a, rs[|rs| - 1], ErrorsOf(stats, rs[|rs| - 1].name))
  }

  function Results(a: Availability, names: seq<string>, round: Round): seq<CollectorResult>
    requires |names| == |round.outcomes| == |round.seconds|
  {
    seq(|names|, i requires 0 <= i < |names| => ResultOf(a, names[i], round.outcomes[i], round.seconds[i]))
  }

  /** The counters after a scrape. */
  ghost predicate Counted(before: Stats, after: Stats, a: Availability, names: seq<string>, outcomes: seq<Outcome>)
    requires |names| == |outcomes|
  {
    && before.Keys == after.Keys
    && forall n :: n in before ==> after[n] == Wrapped(before[n] + Failures(a, names, outcomes, n))
  }

  lemma {:induction false} FailuresStep(a: Availability, names: seq<string>, outcomes: seq<Outcome>, i: nat,
        name: string)
    requires i < |names| == |outcomes|
    ensures Failures(a, names[..i + 1], outcomes[..i + 1], name)
         == Failures(a, names[..i], outcomes[..i], name)
            + if names[i] == name && Fails(a, name, outcomes[i]) then 1 else 0
    ensures Output(a, names[..i + 1], outcomes[..i + 1])
         == Output(a, names[..i], outcomes[..i]) + Delivered(a, names[i], outcomes[i])
  {
    assert names[..i + 1][..i] == names[..i] && outcomes[..i + 1][..i] == outcomes[..i];
  }

  // ---- The service ----

  class ScrapeService {
    const collectors: seq<string>
    const availability: Availability
    const version: string
    const metrics: PrometheusRegistryAdapter
    var stats: Stats

    constructor (collectors: seq<string>, availability: Availability, version: string,
          metrics: PrometheusRegistryAdapter)
      ensures this.collectors == collectors && this.availability == availability && this.version == version
              && this.metrics == metrics
      ensures forall n :: n in stats <==> n in collectors
      ensures forall n :: n in stats ==> stats[n] == 0
    {
      this.collectors, this.availability, this.version, this.metrics := collectors, availability, version, metrics;
      var m: Stats := map[];
      for i := 0 to |collectors|
        invariant forall n :: n in m <==> n in collectors[..i]
        invariant forall n :: n in m ==> m[n] == 0
      {
        m := m[collectors[i] := 0];
      }
      stats := m;
    }

    /** One collector of the fan-out. */
    method CollectOne(name: string, outcome: Outcome, seconds: Token)
      returns (samples: seq<MetricSample>, result: CollectorResult)
      modifies this
      ensures samples == Delivered(availability, name, outcome)
      ensures result == ResultOf(availability, name, outcome, seconds)
      ensures stats == Bumped(old(stats), availability, name, outcome)
    {
      if !(name in availability && availability[name]) {
        return [], CollectorResult(name, true, "0");
      }
      if outcome.Collected? {
        return outcome.samples, CollectorResult(name, true, seconds);
      }
      if name in stats {
        var n: nat := stats[name];
        stats := stats[name := Wrapped(n + 1)];
      }
      return [], CollectorResult(name, false, seconds);
    }

    /** The fan-out: who delivered what, who failed, and the counters of the failures. */
    method FanOut(round: Round) returns (all: seq<MetricSample>, results: seq<CollectorResult>)
      requires |round.outcomes| == |round.seconds| == |collectors|
      modifies this
      ensures all == Output(availability, collectors, round.outcomes)
      ensures results == Results(availability, collectors, round)
      ensures Counted(old(stats), stats, availability, collectors, round.outcomes)
    {
      hide Wrapped, Fails, Failures, Output, Counted, Bumped, Delivered, ResultOf;
      all, results := [], [];
      ghost var outcomes, s0 := round.outcomes, stats;
      assert collectors[..0] == [] && outcomes[..0] == [];
      NothingYet(availability, stats);
      for i := 0 to |collectors|
        invariant all == Output(availability, collectors[..i], outcomes[..i])
        invariant |results| == i
        invariant forall j :: 0 <= j < i ==>
                    results[j] == ResultOf(availability, collectors[j], outcomes[j], round.seconds[j])
        invariant Counted(s0, stats, availability, collectors[..i], outcomes[..i])
      {
        FailuresStep(availability, collectors, outcomes, i, collectors[i]);
        CountedStep(s0, stats, availability, collectors, outcomes, i);
        var samples, result := CollectOne(collectors[i], round.outcomes[i], round.seconds[i]);
        all := all + samples;
        results := results + [result];
      }
      assert collectors[..|collectors|] == collectors && outcomes[..|collectors|] == outcomes;
    }

    /** One scrape. A failing collector changes neither the other collectors' samples nor their counters, and the
        telemetry shows the counters as they are after the fan-out. */
    method Scrape(round: Round) returns (all: seq<MetricSample>)
      requires |round.outcomes| == |round.seconds| == |collectors|
      modifies this, metrics
      ensures Counted(old(stats), stats, availability, collectors, round.outcomes)
      ensures all == Output(availability, collectors, round.outcomes) + [UP, BuildInfo(version)]
                     + Telemetries(availability, Results(availability, collectors, round), stats)
      ensures metrics.encoded == Body(all)
    {
      hide Output, Telemetries, Counted, Results, Body;
      var results;
      all, results := FanOut(round);
      all := all + [UP];
      all := all + [BuildInfo(version)];
      var telemetry := DescribeAll(availability, results, stats);
      all := all + telemetry;
      var warned := metrics.UpdateSamples(all);
    }
  }

  method DescribeAll(a: Availability, results: seq<CollectorResult>, stats: Stats) returns (out: seq<MetricSample>)
    ensures out == Telemetries(a, results, stats)
  {
    hide Telemetry;
    out := [];
    assert results[..0] == [];
    for i := 0 to |results|
      invariant out == Telemetries(a, results[..i], stats)
    {
      assert results[..i + 1][..i] == results[..i];
      out := out + Telemetry(a, results[i], ErrorsOf(stats, results[i].name));
    }
    assert results[..|results|] == results;
  }

  /** The counters after one collector. */
  function Bumped(stats: Stats, a: Availability, name: string, o: Outcome): Stats {
    if Fails(a, name, o) && name in stats then
      var n: nat := stats[name];
      stats[name := Wrapped(n + 1)]
    else stats
  }

  lemma {:induction false} CountedStep(s0: Stats, s: Stats, a: Availability, names: seq<string>, outcomes: seq<Outcome>,
        i: nat)
    requires i < |names| == |outcomes| && Counted(s0, s, a, names[..i], outcomes[..i])
    ensures Counted(s0, Bumped(s, a, names[i], outcomes[i]), a, names[..i + 1], outcomes[..i + 1])
  {
    hide Wrapped, Fails, Failures;
    var t := Bumped(s, a, names[i], outcomes[i]);
    forall n | n in s0 ensures t[n] == Wrapped(s0[n] + Failures(a, names[..i + 1], outcomes[..i + 1], n)) {
      FailuresStep(a, names, outcomes, i, n);
      WrappedTwice(s0[n], Failures(a, names[..i], outcomes[..i], n), 1);
    }
  }

  lemma {:induction false} NothingYet(a: Availability, s: Stats)
    ensures Output(a, [], []) == [] && Counted(s, s, a, [], [])
  {
    forall n | n in s ensures Wrapped(s[n] + 0) == s[n] {
      WrappedTwice(s[n], 0, 0);
    }
  }

  // ---- Runs ----

  predicate Shaped(rounds: seq<Round>, n: nat) {
    forall r :: r in rounds ==> |r.outcomes| == |r.seconds| == n
  }

  /** The scrapes in which the collector at an index was available and failed. */
  function FailedScrapes(a: Availability, names: seq<string>, rounds: seq<Round>, i: nat): nat
    requires i < |names| && Shaped(rounds, |names|)
  {
    if rounds == [] then 0
    else
      var r := rounds[|rounds| - 1];
      assert r in rounds;
      FailedScrapes(a, names, rounds[..|rounds| - 1], i) + if Fails(a, names[i], r.outcomes[i]) then 1 else 0
  }

  /** The scrapes in which it delivered. */
  function DeliveredScrapes(rounds: seq<Round>, i: nat): nat
    requires forall r :: r in rounds ==> i < |r.outcomes|
  {
    if rounds == [] then 0
    else
      var r := rounds[|rounds| - 1];
      assert r in rounds;
      DeliveredScrapes(rounds[..|rounds| - 1], i) + if r.outcomes[i].Collected? then 1 else 0
  }

  /** An available collector either delivers or is counted, whatever kept it from delivering, an error or the timer; one
      that is not available is never counted. */
  lemma {:induction false} DeliveredOrCounted(a: Availability, names: seq<string>, rounds: seq<Round>, i: nat)
    requires i < |names| && Shaped(rounds, |names|)
    ensures names[i] in a && a[names[i]] ==>
              FailedScrapes(a, names, rounds, i) + DeliveredScrapes(rounds, i) == |rounds|
    ensures names[i] !in a || !a[names[i]] ==> FailedScrapes(a, names, rounds, i) == 0
  {
    if rounds != [] {
      assert rounds[|rounds| - 1] in rounds;
      DeliveredOrCounted(a, names, rounds[..|rounds| - 1], i);
    }
  }

  /** Every collect of an available collector that does not deliver fails: an error, and a timeout. */
  lemma {:induction false} FailsMeans(a: Availability, name: string, o: Outcome)
    ensures Fails(a, name, o) <==> name in a && a[name] && (o == Failed || o == TimedOut)
    ensures Delivered(a, name, o) != [] ==> name in a && a[name] && !Fails(a, name, o)
    ensures name in a && a[name] && !Fails(a, name, o) ==> Delivered(a, name, o) == o.samples
  {
  }

  /** The four samples about a collector, as it was asked, failed or delivered. */
  lemma {:induction false} TelemetryInText(a: Availability, name: string, o: Outcome, seconds: Token, errors: u64)
    ensures var t := Telemetry(a, ResultOf(a, name, o, seconds), errors);
            var asked := name in a && a[name];
            && (forall k :: 0 <= k < 4 ==> t[k].labels == [Label("collector", name)])
            && t[0].value == Float(if asked then "1" else "0")
            && t[1].value == Float(if asked && (o == Failed || o == TimedOut) then "0" else "1")
            && t[2].value == Float(if asked then seconds else "0")
            && t[3].value == UInt(errors)
    ensures var t := Telemetry(a, ResultOf(a, name, o, seconds), errors);
            && t[0].name == "nft_scrape_collector_" + "available" && t[1].name == "nft_scrape_collector_" + "success"
            && t[2].name == "nft_scrape_collector_" + "duration_seconds"
            && t[3].name == "nft_scrape_collector_" + "error_total"
            && t[0].kind == t[1].kind == t[2].kind == Gauge && t[3].kind == Counter
  {
  }

  /** The two samples about the exporter. */
  lemma {:induction false} ExporterInText(version: string)
    ensures UP.name == "nft_up" && UP.kind == Gauge && UP.labels == [] && UP.value == Float("1")
    ensures BuildInfo(version).name == "nft_build_info" && BuildInfo(version).kind == Gauge
    ensures BuildInfo(version).labels == [Label("version", version)] && BuildInfo(version).value == Float("1")
  {
    assert [Label("version", version)][0].key == "version";
  }

  predicate Unique(names: seq<string>) {
    forall i, j :: 0 <= i < j < |names| ==> names[i] != names[j]
  }

  lemma {:induction false} AtMostOneFailure(a: Availability, names: seq<string>, outcomes: seq<Outcome>, i: nat)
    requires Unique(names) && i < |names| == |outcomes|
    ensures Failures(a, names, outcomes, names[i]) == if Fails(a, names[i], outcomes[i]) then 1 else 0
  {
    hide Fails;
    var n := |names| - 1;
    if i < n {
      AtMostOneFailure(a, names[..n], outcomes[..n], i);
    } else {
      NoFailure(a, names[..n], outcomes[..n], names[i]);
    }
  }

  lemma {:induction false} NoFailure(a: Availability, names: seq<string>, outcomes: seq<Outcome>, name: string)
    requires |names| == |outcomes| && name !in names
    ensures Failures(a, names, outcomes, name) == 0
  {
    hide Fails;
    if names != [] {
      NoFailure(a, names[..|names| - 1], outcomes[..|names| - 1], name);
    }
  }

  /** The telemetry of some results, each with an error total. */
  function Described(a: Availability, rs: seq<CollectorResult>, errors: seq<u64>): seq<MetricSample>
    requires |rs| == |errors|
  {
    if rs == [] then []
    else
      Described(a, rs[..|rs| - 1], errors[..|rs| - 1]) + Telemetry(a, rs[|rs| - 1], errors[|rs| - 1])
  }

  lemma {:induction false} DescribedIs(a: Availability, rs: seq<CollectorResult>, stats: Stats, errors: seq<u64>)
    requires |rs| == |errors| && forall i :: 0 <= i < |rs| ==> ErrorsOf(stats, rs[i].name) == errors[i]
    ensures Telemetries(a, rs, stats) == Described(a, rs, errors)
    decreases |rs|
  {
    hide Telemetry;
    if rs != [] {
      DescribedIs(a, rs[..|rs| - 1], stats, errors[..|rs| - 1]);
    }
  }

  /** The samples of a scrape with given error totals: what was delivered, then two samples about the exporter and four
      about each collector. */
  function Scraped(a: Availability, names: seq<string>, round: Round, version: string, errors: seq<u64>)
    : seq<MetricSample>
    requires |names| == |round.outcomes| == |round.seconds| == |errors|
  {
    Output(a, names, round.outcomes) + [UP, BuildInfo(version)] + Described(a, Results(a, names, round), errors)
  }

  /** The delivered samples come first, then liveness, then the build. */
  lemma {:induction false} ScrapedInOrder(a: Availability, names: seq<string>, round: Round, version: string,
        errors: seq<u64>)
    requires |names| == |round.outcomes| == |round.seconds| == |errors|
    ensures var out, n := Scraped(a, names, round, version, errors), |Output(a, names, round.outcomes)|;
            && |out| == n + 2 + 4 * |names| && out[..n] == Output(a, names, round.outcomes)
            && out[n].name == "nft_up" && out[n + 1].name == "nft_build_info"
  {
    hide Output, Described, ResultOf;
    DescribedLength(a, Results(a, names, round), errors);
  }

  lemma {:induction false} DescribedLength(a: Availability, rs: seq<CollectorResult>, errors: seq<u64>)
    requires |rs| == |errors|
    ensures |Described(a, rs, errors)| == 4 * |rs|
  {
    hide Telemetry;
    if rs != [] {
      DescribedLength(a, rs[..|rs| - 1], errors[..|rs| - 1]);
    }
  }

  function ErrorTotals(a: Availability, names: seq<string>, rounds: seq<Round>): seq<u64>
    requires Shaped(rounds, |names|)
  {
    seq(|names|, i requires 0 <= i < |names| => Wrapped(FailedScrapes(a, names, rounds, i)))
  }

  lemma {:induction false} TotalsStep(before: Stats, after: Stats, a: Availability, names: seq<string>,
        rounds: seq<Round>, k: nat, i: nat)
    requires Unique(names) && Shaped(rounds, |names|) && k < |rounds| && i < |names| && names[i] in before
    requires Shaped(rounds[..k], |names|) && Shaped(rounds[..k + 1], |names|) && |rounds[k].outcomes| == |names|
    requires ErrorsOf(before, names[i]) == Wrapped(FailedScrapes(a, names, rounds[..k], i))
    requires Counted(before, after, a, names, rounds[k].outcomes)
    ensures ErrorsOf(after, names[i]) == Wrapped(FailedScrapes(a, names, rounds[..k + 1], i))
  {
    hide Wrapped, Fails, Failures, Unique, Shaped;
    assert rounds[..k + 1][..k] == rounds[..k];
    AtMostOneFailure(a, names, rounds[k].outcomes, i);
    WrappedTwice(0, FailedScrapes(a, names, rounds[..k], i), 1);
    WrappedTwice(0, FailedScrapes(a, names, rounds[..k], i), 0);
  }

  /** The service counts every collector, and its counters are those of the scrapes so far. */
  ghost predicate Standing(service: ScrapeService, rounds: seq<Round>)
    requires Shaped(rounds, |service.collectors|)
    reads service
  {
    && (forall n :: n in service.collectors ==> n in service.stats)
    && forall i :: 0 <= i < |service.collectors| ==>
         ErrorsOf(service.stats, service.collectors[i])
           == ErrorTotals(service.availability, service.collectors, rounds)[i]
  }

  /** What the k-th scrape of a run reports. */
  ghost predicate ReportsAt(out: seq<MetricSample>, a: Availability, names: seq<string>, version: string,
                            rounds: seq<Round>, k: nat)
    requires k < |rounds| && Shaped(rounds, |names|)
  {
    ShapedPrefix(rounds, |names|, k); ShapedPrefix(rounds, |names|, k + 1);
    out == Scraped(a, names, rounds[k], version, ErrorTotals(a, names, rounds[..k + 1]))
  }

  lemma {:induction false} ShapedPrefix(rounds: seq<Round>, n: nat, k: nat)
    requires Shaped(rounds, n) && k <= |rounds|
    ensures Shaped(rounds[..k], n) && (k < |rounds| ==> |rounds[k].outcomes| == |rounds[k].seconds| == n)
  {
  }

  method ScrapeNext(service: ScrapeService, rounds: seq<Round>, k: nat) returns (all: seq<MetricSample>)
    requires Unique(service.collectors) && k < |rounds| && Shaped(rounds, |service.collectors|)
    requires Shaped(rounds[..k], |service.collectors|) && Shaped(rounds[..k + 1], |service.collectors|)
    requires |rounds[k].outcomes| == |rounds[k].seconds| == |service.collectors| && Standing(service, rounds[..k])
    modifies service, service.metrics
    ensures Standing(service, rounds[..k + 1])
    ensures ReportsAt(all, service.availability, service.collectors, service.version, rounds, k)
    ensures service.metrics.encoded == Body(all)
  {
    hide Wrapped, Body, Telemetries, Described, Output, Counted, Unique, Shaped, FailedScrapes;
    var names, a := service.collectors, service.availability;
    ghost var before := service.stats;
    all := service.Scrape(rounds[k]);
    CountedKeys(before, service.stats, a, names, rounds[k].outcomes);
    forall i | 0 <= i < |names|
      ensures ErrorsOf(service.stats, names[i]) == ErrorTotals(a, names, rounds[..k + 1])[i]
    {
      assert names[i] in before;
      assert ErrorTotals(a, names, rounds[..k])[i] == Wrapped(FailedScrapes(a, names, rounds[..k], i));
      TotalsStep(before, service.stats, a, names, rounds, k, i);
    }
    DescribedIs(a, Results(a, names, rounds[k]), service.stats, ErrorTotals(a, names, rounds[..k + 1]));
  }

  /** Any number of scrapes: with unique names, every scrape delivers exactly the successful collectors' samples, and
      its telemetry gives for each collector the number of scrapes so far in which it was available and failed or timed
      out, modulo 2^64. */
  method RunScrapes(service: ScrapeService, rounds: seq<Round>) returns (outputs: seq<seq<MetricSample>>)
    requires Unique(service.collectors) && Shaped(rounds, |service.collectors|)
    requires forall n :: n in service.stats <==> n in service.collectors
    requires forall n :: n in service.stats ==> service.stats[n] == 0
    modifies service, service.metrics
    ensures |outputs| == |rounds|
    ensures forall k :: 0 <= k < |rounds| ==>
              ReportsAt(outputs[k], service.availability, service.collectors, service.version, rounds, k)
    ensures rounds != [] ==> service.metrics.encoded == Body(outputs[|rounds| - 1])
  {
    hide Body, ReportsAt, Unique, Standing, Shaped;
    outputs := [];
    StandingAtStart(service);
    assert rounds[..0] == [];
    for k := 0 to |rounds|
      invariant |outputs| == k
      invariant Shaped(rounds[..k], |service.collectors|) && Standing(service, rounds[..k])
      invariant k > 0 ==> service.metrics.encoded == Body(outputs[k - 1])
      invariant forall j :: 0 <= j < k ==>
                  ReportsAt(outputs[j], service.availability, service.collectors, service.version, rounds, j)
    {
      ShapedPrefix(rounds, |service.collectors|, k);
      ShapedPrefix(rounds, |service.collectors|, k + 1);
      var all := ScrapeNext(service, rounds, k);
      outputs := outputs + [all];
    }
  }

  lemma {:induction false} StandingAtStart(service: ScrapeService)
    requires forall n :: n in service.stats <==> n in service.collectors
    requires forall n :: n in service.stats ==> service.stats[n] == 0
    ensures Shaped([], |service.collectors|) && Standing(service, [])
  {
    WrappedTwice(0, 0, 0);
  }

  lemma {:induction false} CountedKeys(before: Stats, after: Stats, a: Availability, names: seq<string>,
        outcomes: seq<Outcome>)
    requires |names| == |outcomes| && Counted(before, after, a, names, outcomes)
    ensures before.Keys == after.Keys
  {
  }

  // ---- Isolation ----

  lemma {:induction false} OutputAppend(a: Availability, n1: seq<string>, o1: seq<Outcome>, n2: seq<string>,
        o2: seq<Outcome>)
    requires |n1| == |o1| && |n2| == |o2|
    ensures Output(a, n1 + n2, o1 + o2) == Output(a, n1, o1) + Output(a, n2, o2)
  {
    hide Delivered;
    if n2 == [] {
      assert n1 + n2 == n1 && o1 + o2 == o1;
    } else {
      var m := |n2| - 1;
      assert (n1 + n2)[..|n1 + n2| - 1] == n1 + n2[..m] && (o1 + o2)[..|n1 + n2| - 1] == o1 + o2[..m];
      OutputAppend(a, n1, o1, n2[..m], o2[..m]);
    }
  }

  /** When a collector fails instead of delivering, exactly its own block of samples is missing. */
  lemma {:induction false} FailureIsIsolated(a: Availability, names: seq<string>, outcomes: seq<Outcome>, i: nat,
        failure: Outcome)
    requires i < |names| == |outcomes| && !failure.Collected?
    ensures var front, rest := Output(a, names[..i], outcomes[..i]), Output(a, names[i + 1..], outcomes[i + 1..]);
            && Output(a, names, outcomes) == front + Delivered(a, names[i], outcomes[i]) + rest
            && Output(a, names, outcomes[i := failure]) == front + rest
  {
    var other := outcomes[i := failure];
    OutputBlock(a, names, outcomes, i);
    OutputBlock(a, names, other, i);
    assert other[..i] == outcomes[..i] && other[i + 1..] == outcomes[i + 1..];
    var front := Output(a, names[..i], outcomes[..i]);
    assert front + [] == front;
  }

  lemma {:induction false} OutputBlock(a: Availability, names: seq<string>, outcomes: seq<Outcome>, i: nat)
    requires i < |names| == |outcomes|
    ensures Output(a, names, outcomes)
         == Output(a, names[..i], outcomes[..i]) + Delivered(a, names[i], outcomes[i])
            + Output(a, names[i + 1..], outcomes[i + 1..])
  {
    hide Output, Delivered;
    FailuresStep(a, names, outcomes, i, names[i]);
    OutputAppend(a, names[..i + 1], outcomes[..i + 1], names[i + 1..], outcomes[i + 1..]);
    assert names[..i + 1] + names[i + 1..] == names && outcomes[..i + 1] + outcomes[i + 1..] == outcomes;
  }
}
