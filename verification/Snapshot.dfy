/** Interleaved `GET /metrics` requests: crates/nlx-http/src/server.rs, crates/netlink_exporter/src/scrape.rs and
    the atomic snapshot of crates/nlx-metrics/src/registry.rs, as one state machine in which any request may take
    the next step. */
module Snapshot {
  import opened Wrappers
  import opened Bytes
  import opened Registry
  import opened Scrape

  type RequestId = nat

  /** The fixed parts of the process. */
  datatype Site = Site(names: seq<string>, availability: Availability, version: string)

  /** Where a request stands. While collecting, it holds the samples and results so far. */
  datatype Phase =
    | Collecting(all: seq<MetricSample>, results: seq<CollectorResult>)
    | Described(all: seq<MetricSample>)
    | Replaced
    | Loaded(body: string)

  datatype Served = Served(id: RequestId, body: string)

  /** The process: its counters, the encoded body everybody shares, the open requests and how many were ever accepted;
      and, in order of time, the bodies stored and the responses sent. */
  datatype State = State(stats: Stats, encoded: string, requests: map<RequestId, Phase>, accepted: nat,
                         stored: seq<Served>, responses: seq<Served>)

  datatype Step =
    | Accept(id: RequestId)
    | Collect(id: RequestId, outcome: Outcome, seconds: Token)
    | Describe(id: RequestId)
    | Replace(id: RequestId)
    | Load(id: RequestId)
    | Respond(id: RequestId)

  predicate Enabled(site: Site, s: State, step: Step) {
    match step
    case Accept(id) => id == s.accepted
    case Collect(id, _, _) => id in s.requests && s.requests[id].Collecting? && |s.requests[id].results| < |site.names|
    case Describe(id) => id in s.requests && s.requests[id].Collecting? && |s.requests[id].results| == |site.names|
    case Replace(id) => id in s.requests && s.requests[id].Described?
    case Load(id) => id in s.requests && s.requests[id].Replaced?
    case Respond(id) => id in s.requests && s.requests[id].Loaded?
  }

  function Next(site: Site, s: State, step: Step): State
    requires Enabled(site, s, step)
  {
    var p := if step.Accept? then Replaced else s.requests[step.id];
    match step
    case Accept(id) => s.(requests := s.requests[id := Collecting([], [])], accepted := s.accepted + 1)
    case Collect(id, outcome, seconds) =>
      var name := site.names[|p.results|];
      s.(stats := Bumped(s.stats, site.availability, name, outcome),
         requests := s.requests[id := Collecting(p.all + Delivered(site.availability, name, outcome),
                                                 p.results + [ResultOf(site.availability, name, outcome, seconds)])])
    case Describe(id) =>
      s.(requests := s.requests[id := Described(p.all + [UP, BuildInfo(site.version)]
                                                + Telemetries(site.availability, p.results, s.stats))])
    case Replace(id) =>
      s.(encoded := Body(p.all), requests := s.requests[id := Replaced], stored := s.stored + [Served(id, Body(p.all))])
    case Load(id) => s.(requests := s.requests[id := Loaded(s.encoded)])
    case Respond(id) => s.(requests := s.requests - {id}, responses := s.responses + [Served(id, p.body)])
  }

  // ---- What the bodies must be ----

  /** The samples of one complete scrape with the given outcomes, described with the given counters. */
  function ScrapeSamples(site: Site, round: Round, stats: Stats): seq<MetricSample>
    requires |round.outcomes| == |round.seconds| == |site.names|
  {
    Output(site.availability, site.names, round.outcomes) + [UP, BuildInfo(site.version)]
    + Telemetries(site.availability, Results(site.availability, site.names, round), stats)
  }

  predicate Whole(site: Site, round: Round) {
    |round.outcomes| == |round.seconds| == |site.names|
  }

  /** A complete scrape that some request stored. */
  datatype Entry = Entry(owner: RequestId, round: Round, stats: Stats)

  /** What each open request went through, and the version of the body each response carries. */
  datatype Trace =
    | Gathering(round: Round)
    | Ready(round: Round, stats: Stats)
    | Stored(at: nat)
    | Took(at: nat, version: nat)

  datatype History = History(log: seq<Entry>, traces: map<RequestId, Trace>, sent: seq<Trace>)

  ghost predicate Gathered(site: Site, p: Phase, round: Round) {
    var n := |round.outcomes|;
    && n == |round.seconds| <= |site.names|
    && p == Collecting(Output(site.availability, site.names[..n], round.outcomes),
                       Results(site.availability, site.names[..n], round))
  }

  /** A body is the version of the log it claims to be, and that version is no older than the request's own. */
  ghost predicate Justified(site: Site, log: seq<Entry>, id: RequestId, body: string, t: Trace) {
    && t.Took? && t.at <= t.version < |log|
    && log[t.at].owner == id
    && body == EntryBody(site, log[t.version])
  }

  function EntryBody(site: Site, e: Entry): string {
    if Whole(site, e.round) then Body(ScrapeSamples(site, e.round, e.stats)) else []
  }

  ghost predicate Unstored(log: seq<Entry>, id: RequestId) {
    forall v :: 0 <= v < |log| ==> log[v].owner != id
  }

  ghost predicate Explains(site: Site, log: seq<Entry>, id: RequestId, p: Phase, t: Trace) {
    match t
    case Gathering(round) => Unstored(log, id) && Gathered(site, p, round)
    case Ready(round, stats) => Unstored(log, id) && Whole(site, round)
      && p == Described(ScrapeSamples(site, round, stats))
    case Stored(at) => p == Replaced && at < |log| && log[at].owner == id
    case Took(_, _) => p.Loaded? && Justified(site, log, id, p.body, t)
  }

  /** The log is the sequence of stores: complete scrapes, one for each request that stored, the newest in force. */
  ghost predicate LogInv(site: Site, s: State, log: seq<Entry>) {
    && |s.stored| == |log|
    && (forall v :: 0 <= v < |log| ==>
          Whole(site, log[v].round) && log[v].owner < s.accepted
            && s.stored[v] == Served(log[v].owner, EntryBody(site, log[v])))
    && (forall v, w :: 0 <= v < w < |log| ==> log[v].owner != log[w].owner)
    && s.encoded == (if log == [] then [] else EntryBody(site, log[|log| - 1]))
  }

  ghost predicate Inv(site: Site, s: State, h: History) {
    && LogInv(site, s, h.log)
    && s.requests.Keys == h.traces.Keys
    && (forall id :: id in s.requests ==> id < s.accepted && Explains(site, h.log, id, s.requests[id], h.traces[id]))
    && |s.responses| == |h.sent|
    && (forall i :: 0 <= i < |h.sent| ==> Justified(site, h.log, s.responses[i].id, s.responses[i].body, h.sent[i]))
  }

  /** A longer log explains what a shorter one explained. */
  lemma {:induction false} LogGrows(site: Site, log: seq<Entry>, e: Entry, id: RequestId, p: Phase, t: Trace)
    requires Explains(site, log, id, p, t) && e.owner != id
    ensures Explains(site, log + [e], id, p, t)
  {
    hide EntryBody, ScrapeSamples, Gathered, Whole;
  }

  lemma {:induction false} GatherStep(site: Site, p: Phase, round: Round, outcome: Outcome, seconds: Token)
    requires Gathered(site, p, round) && |round.outcomes| < |site.names|
    ensures var name := site.names[|round.outcomes|];
            Gathered(site, Collecting(p.all + Delivered(site.availability, name, outcome),
                                      p.results + [ResultOf(site.availability, name, outcome, seconds)]),
                     Round(round.outcomes + [outcome], round.seconds + [seconds]))
  {
    var n, outcomes := |round.outcomes|, round.outcomes + [outcome];
    hide Delivered, ResultOf;
    assert outcomes[..n] == round.outcomes && site.names[..n + 1][..n] == site.names[..n];
    assert Results(site.availability, site.names[..n + 1], Round(outcomes, round.seconds + [seconds]))
        == Results(site.availability, site.names[..n], round)
           + [ResultOf(site.availability, site.names[n], outcome, seconds)];
  }

  lemma {:induction false} GatherStart(site: Site)
    ensures Gathered(site, Collecting([], []), Round([], []))
  {
    assert site.names[..0] == [];
  }

  lemma {:induction false} GatheredAll(site: Site, p: Phase, round: Round, stats: Stats)
    requires Gathered(site, p, round) && |p.results| == |site.names|
    ensures Whole(site, round)
         && p.all + [UP, BuildInfo(site.version)] + Telemetries(site.availability, p.results, stats)
            == ScrapeSamples(site, round, stats)
  {
    hide Output, Telemetries;
    assert site.names[..|site.names|] == site.names;
  }

  /** Moving one request keeps the invariant when its new place is explained. */
  lemma {:induction false} MoveRequest(site: Site, s: State, h: History, id: RequestId, p: Phase, t: Trace,
        stats: Stats)
    requires Inv(site, s, h) && id in s.requests && Explains(site, h.log, id, p, t)
    ensures Inv(site, s.(requests := s.requests[id := p], stats := stats), h.(traces := h.traces[id := t]))
  {
    hide Explains, Justified, Whole, EntryBody, ScrapeSamples;
  }

  lemma {:induction false} AcceptKeepsInv(site: Site, s: State, h: History)
    requires Inv(site, s, h)
    ensures Inv(site, s.(requests := s.requests[s.accepted := Collecting([], [])], accepted := s.accepted + 1),
                h.(traces := h.traces[s.accepted := Gathering(Round([], []))]))
  {
    hide LogInv, Explains, Justified, Whole, EntryBody, ScrapeSamples;
    var next := s.(requests := s.requests[s.accepted := Collecting([], [])], accepted := s.accepted + 1);
    NewcomerIsExplained(site, s, next, h.log);
  }

  lemma {:induction false} NewcomerIsExplained(site: Site, s: State, next: State, log: seq<Entry>)
    requires LogInv(site, s, log)
    requires next == s.(requests := next.requests, accepted := s.accepted + 1)
    ensures LogInv(site, next, log)
    ensures Explains(site, log, s.accepted, Collecting([], []), Gathering(Round([], [])))
  {
    hide Gathered, Whole, EntryBody;
    GatherStart(site);
  }

  /** Storing a complete scrape adds a version; nothing already explained is disturbed. */
  lemma {:induction false} ReplaceKeepsInv(site: Site, s: State, h: History, id: RequestId, round: Round, stats: Stats,
        body: string)
    requires Inv(site, s, h) && id in s.requests && Whole(site, round) && Unstored(h.log, id)
    requires body == EntryBody(site, Entry(id, round, stats))
    ensures Inv(site,
                s.(encoded := body, requests := s.requests[id := Replaced], stored := s.stored + [Served(id, body)]),
                h.(log := h.log + [Entry(id, round, stats)], traces := h.traces[id := Stored(|h.log|)]))
  {
    hide Explains, Justified, Whole, EntryBody, ScrapeSamples;
    var e := Entry(id, round, stats);
    forall i | i in s.requests && i != id ensures Explains(site, h.log + [e], i, s.requests[i], h.traces[i]) {
      LogGrows(site, h.log, e, i, s.requests[i], h.traces[i]);
    }
    forall i | 0 <= i < |h.sent|
      ensures Justified(site, h.log + [e], s.responses[i].id, s.responses[i].body, h.sent[i]) {
      JustifiedGrows(site, h.log, e, s.responses[i].id, s.responses[i].body, h.sent[i]);
    }
    StoredIsExplained(site, h.log + [e], id, |h.log|);
  }

  lemma {:induction false} StoredIsExplained(site: Site, log: seq<Entry>, id: RequestId, at: nat)
    requires at < |log| && log[at].owner == id
    ensures Explains(site, log, id, Replaced, Stored(at))
  {
  }

  lemma {:induction false} JustifiedGrows(site: Site, log: seq<Entry>, e: Entry, id: RequestId, body: string, t: Trace)
    requires Justified(site, log, id, body, t)
    ensures Justified(site, log + [e], id, body, t)
  {
    hide EntryBody;
  }

  lemma {:induction false} RespondKeepsInv(site: Site, s: State, h: History, id: RequestId)
    requires Inv(site, s, h) && id in s.requests && s.requests[id].Loaded?
    ensures Inv(site, s.(requests := s.requests - {id}, responses := s.responses + [Served(id, s.requests[id].body)]),
                h.(traces := h.traces - {id}, sent := h.sent + [h.traces[id]]))
  {
    hide Explains, Justified, Whole, EntryBody, ScrapeSamples;
    Located(site, h.log, id, s.requests[id], h.traces[id]);
  }

  /** What explaining a request means for each of its phases. */
  lemma {:induction false} Located(site: Site, log: seq<Entry>, id: RequestId, p: Phase, t: Trace)
    requires Explains(site, log, id, p, t)
    ensures p.Collecting?
            ==> t.Gathering? && Unstored(log, id) && Gathered(site, p, t.round) && |t.round.outcomes| == |p.results|
    ensures p.Described?
            ==> t.Ready? && Unstored(log, id) && Whole(site, t.round) && p.all == ScrapeSamples(site, t.round, t.stats)
    ensures p.Replaced? ==> t.Stored? && t.at < |log| && log[t.at].owner == id
    ensures p.Loaded? ==> Justified(site, log, id, p.body, t)
  {
    hide Output, EntryBody, ScrapeSamples;
  }

  lemma {:induction false} NewestIsExplained(site: Site, log: seq<Entry>, id: RequestId, at: nat)
    requires at < |log| && log[at].owner == id
    ensures Explains(site, log, id, Loaded(EntryBody(site, log[|log| - 1])), Took(at, |log| - 1))
  {
    hide EntryBody;
  }

  /** The history after a step. */
  ghost function Recorded(s: State, h: History, step: Step): History {
    if step.Accept? then h.(traces := h.traces[step.id := Gathering(Round([], []))])
    else if step.id !in h.traces then h
    else
      var id, t := step.id, h.traces[step.id];
      match step
      case Collect(_, outcome, seconds) =>
        if !t.Gathering? then h
        else h.(traces := h.traces[id := Gathering(Round(t.round.outcomes + [outcome], t.round.seconds + [seconds]))])
      case Describe(_) => if !t.Gathering? then h else h.(traces := h.traces[id := Ready(t.round, s.stats)])
      case Replace(_) =>
        if !t.Ready? then h
        else h.(log := h.log + [Entry(id, t.round, t.stats)], traces := h.traces[id := Stored(|h.log|)])
      case Load(_) => if !t.Stored? || h.log == [] then h else h.(traces := h.traces[id := Took(t.at, |h.log| - 1)])
      case Respond(_) => h.(traces := h.traces - {id}, sent := h.sent + [t])
  }

  /** Every step of every request keeps the invariant. */
  lemma {:induction false} StepKeepsInv(site: Site, s: State, h: History, step: Step)
    requires Inv(site, s, h) && Enabled(site, s, step)
    ensures Inv(site, Next(site, s, step), Recorded(s, h, step))
  {
    hide LogInv, Explains, Gathered, Justified, Whole, EntryBody, Body, ScrapeSamples, Output, Telemetries, Delivered,
         ResultOf, Bumped;
    var id := step.id;
    if step.Accept? {
      AcceptKeepsInv(site, s, h);
    } else {
      var p, t := s.requests[id], h.traces[id];
      Located(site, h.log, id, p, t);
      if step.Collect? {
        var u := Gathering(Round(t.round.outcomes + [step.outcome], t.round.seconds + [step.seconds]));
        CollectIsExplained(site, h.log, id, p, t, step.outcome, step.seconds);
        MoveRequest(site, s, h, id, Next(site, s, step).requests[id], u, Next(site, s, step).stats);
      } else if step.Describe? {
        DescribeIsExplained(site, h.log, id, p, t, s.stats);
        MoveRequest(site, s, h, id, Next(site, s, step).requests[id], Ready(t.round, s.stats), s.stats);
      } else if step.Replace? {
        BodyOfEntry(site, Entry(id, t.round, t.stats));
        ReplaceKeepsInv(site, s, h, id, t.round, t.stats, Body(p.all));
      } else if step.Load? {
        NewestIsExplained(site, h.log, id, t.at);
        NewestInForce(site, s, h.log);
        MoveRequest(site, s, h, id, Loaded(s.encoded), Took(t.at, |h.log| - 1), s.stats);
      } else {
        RespondKeepsInv(site, s, h, id);
      }
    }
  }

  /** A request that still collects or describes has stored nothing yet. */
  lemma {:induction false} BusyIsUnstored(site: Site, s: State, h: History, step: Step)
    requires Inv(site, s, h) && Enabled(site, s, step)
    ensures step.Collect? || step.Describe?
            ==> Unstored(h.log, step.id) && step.id in h.traces && h.traces[step.id].Gathering?
    ensures step.Replace? ==> step.id in h.traces && h.traces[step.id].Ready?
    ensures step.Accept? || step.id < s.accepted
  {
    hide LogInv, Explains, Gathered, Justified, Whole, EntryBody, ScrapeSamples, Unstored;
    if !step.Accept? {
      Located(site, h.log, step.id, s.requests[step.id], h.traces[step.id]);
    }
  }

  lemma {:induction false} BodyOfEntry(site: Site, e: Entry)
    requires Whole(site, e.round)
    ensures EntryBody(site, e) == Body(ScrapeSamples(site, e.round, e.stats))
  {
    hide Body;
  }

  lemma {:induction false} NewestInForce(site: Site, s: State, log: seq<Entry>)
    requires LogInv(site, s, log) && log != []
    ensures s.encoded == EntryBody(site, log[|log| - 1])
  {
    hide EntryBody;
  }

  lemma {:induction false} CollectIsExplained(site: Site, log: seq<Entry>, id: RequestId, p: Phase, t: Trace,
        outcome: Outcome, seconds: Token)
    requires t.Gathering? && Unstored(log, id) && Gathered(site, p, t.round) && |t.round.outcomes| < |site.names|
    ensures var name := site.names[|t.round.outcomes|];
            Explains(site, log, id,
                     Collecting(p.all + Delivered(site.availability, name, outcome),
                                p.results + [ResultOf(site.availability, name, outcome, seconds)]),
                     Gathering(Round(t.round.outcomes + [outcome], t.round.seconds + [seconds])))
  {
    GatherStep(site, p, t.round, outcome, seconds);
    hide Gathered, Delivered, ResultOf;
  }

  lemma {:induction false} DescribeIsExplained(site: Site, log: seq<Entry>, id: RequestId, p: Phase, t: Trace,
        stats: Stats)
    requires t.Gathering? && Unstored(log, id) && Gathered(site, p, t.round) && |p.results| == |site.names|
    ensures Explains(site, log, id, Described(p.all + [UP, BuildInfo(site.version)]
                                              + Telemetries(site.availability, p.results, stats)),
                     Ready(t.round, stats))
  {
    hide Gathered, ScrapeSamples, Telemetries, Whole;
    GatheredAll(site, p, t.round, stats);
  }

  // ---- Runs ----

  /** The state after some steps, or None when one of them was not possible. */
  function Run(site: Site, s: State, steps: seq<Step>): Option<State>
    decreases |steps|
  {
    if steps == [] then Some(s)
    else
      var before, last := Run(site, s, steps[..|steps| - 1]), steps[|steps| - 1];
      if before.None? || !Enabled(site, before.value, last) then None else Some(Next(site, before.value, last))
  }

  /** What the collectors delivered to a request, read off the steps alone. */
  function CollectedBy(steps: seq<Step>, id: RequestId): Round
    decreases |steps|
  {
    if steps == [] then Round([], [])
    else
      var before, last := CollectedBy(steps[..|steps| - 1], id), steps[|steps| - 1];
      if last.Collect? && last.id == id then Round(before.outcomes + [last.outcome], before.seconds + [last.seconds])
      else before
  }

  /** The counters at the moment a request described its scrape. */
  function CountersAt(site: Site, s: State, steps: seq<Step>, id: RequestId): Stats
    requires Run(site, s, steps).Some?
    decreases |steps|
  {
    if steps == [] then map[]
    else
      var init, last := steps[..|steps| - 1], steps[|steps| - 1];
      if last == Describe(id) then Run(site, s, init).value.stats else CountersAt(site, s, init, id)
  }

  const START := State(map[], [], map[], 0, [], [])

  /** The history's rounds and counters are the requests' own. */
  ghost predicate Sourced(site: Site, s0: State, steps: seq<Step>, h: History)
    requires Run(site, s0, steps).Some?
  {
    && (forall id :: id in h.traces ==> TraceSourced(site, s0, steps, id, h.traces[id]))
    && (forall v :: 0 <= v < |h.log| ==> EntrySourced(site, s0, steps, h.log[v]))
    && (forall id :: id >= Run(site, s0, steps).value.accepted ==> CollectedBy(steps, id) == Round([], []))
  }

  ghost predicate TraceSourced(site: Site, s0: State, steps: seq<Step>, id: RequestId, t: Trace)
    requires Run(site, s0, steps).Some?
  {
    && (t.Gathering? || t.Ready? ==> t.round == CollectedBy(steps, id))
    && (t.Ready? ==> t.stats == CountersAt(site, s0, steps, id))
  }

  ghost predicate EntrySourced(site: Site, s0: State, steps: seq<Step>, e: Entry)
    requires Run(site, s0, steps).Some?
  {
    e.round == CollectedBy(steps, e.owner) && e.stats == CountersAt(site, s0, steps, e.owner)
  }

  lemma {:induction false} RunStep(site: Site, s0: State, steps: seq<Step>, id: RequestId)
    requires steps != [] && Run(site, s0, steps).Some?
    ensures var init, step := steps[..|steps| - 1], steps[|steps| - 1];
            && Run(site, s0, init).Some? && Enabled(site, Run(site, s0, init).value, step)
            && Run(site, s0, steps).value == Next(site, Run(site, s0, init).value, step)
            && (!(step.Collect? && step.id == id) ==> CollectedBy(steps, id) == CollectedBy(init, id))
            && (step.Collect? && step.id == id ==>
                  CollectedBy(steps, id) == Round(CollectedBy(init, id).outcomes
                                                  + [step.outcome], CollectedBy(init, id).seconds + [step.seconds]))
            && CountersAt(site, s0, steps, id)
               == if step == Describe(id) then Run(site, s0, init).value.stats else CountersAt(site, s0, init, id)
  {
    hide Enabled, Next;
  }

  /** A step of another request leaves a request's round and counters alone, and its own step is recorded. */
  lemma {:induction false} SourcedStep(site: Site, s0: State, steps: seq<Step>, h: History)
    requires steps != [] && Run(site, s0, steps).Some? && Run(site, s0, steps[..|steps| - 1]).Some?
    requires Inv(site, Run(site, s0, steps[..|steps| - 1]).value, h) && Sourced(site, s0, steps[..|steps| - 1], h)
    ensures Sourced(site, s0, steps, Recorded(Run(site, s0, steps[..|steps| - 1]).value, h, steps[|steps| - 1]))
  {
    hide Run, CollectedBy, CountersAt, Unstored, Next, Inv, Enabled;
    var init, step := steps[..|steps| - 1], steps[|steps| - 1];
    var s := Run(site, s0, init).value;
    var next := Recorded(s, h, step);
    RunStep(site, s0, steps, step.id);
    StepAccepts(site, s, step);
    BusyIsUnstored(site, s, h, step);
    forall id | id in next.traces ensures TraceSourced(site, s0, steps, id, next.traces[id]) {
      RunStep(site, s0, steps, id);
      assert id in h.traces ==> TraceSourced(site, s0, init, id, h.traces[id]);
    }
    forall v | 0 <= v < |next.log| ensures EntrySourced(site, s0, steps, next.log[v]) {
      RunStep(site, s0, steps, next.log[v].owner);
      if v < |h.log| {
        assert EntrySourced(site, s0, init, h.log[v]);
        if step.Collect? || step.Describe? {
          OwnerStored(h.log, v, step.id);
        }
      } else {
        assert TraceSourced(site, s0, init, step.id, h.traces[step.id]);
      }
    }
    forall id | id >= Run(site, s0, steps).value.accepted ensures CollectedBy(steps, id) == Round([], []) {
      RunStep(site, s0, steps, id);
    }
  }

  lemma {:induction false} OwnerStored(log: seq<Entry>, v: nat, id: RequestId)
    requires v < |log| && Unstored(log, id)
    ensures log[v].owner != id
  {
  }

  /** Requests are numbered in the order they are accepted. */
  lemma {:induction false} StepAccepts(site: Site, s: State, step: Step)
    requires Enabled(site, s, step)
    ensures Next(site, s, step).accepted == if step.Accept? then s.accepted + 1 else s.accepted
    ensures step.Accept? ==> step.id == s.accepted
  {
    hide Body, Telemetries, Delivered, ResultOf, Bumped;
  }

  lemma {:induction false} RunKeepsInv(site: Site, s0: State, steps: seq<Step>) returns (h: History)
    requires Inv(site, s0, History([], map[], [])) && Run(site, s0, steps).Some?
    ensures Inv(site, Run(site, s0, steps).value, h) && Sourced(site, s0, steps, h)
    decreases |steps|
  {
    hide Inv, Enabled, Next, Recorded;
    if steps == [] {
      h := History([], map[], []);
    } else {
      var init, step := steps[..|steps| - 1], steps[|steps| - 1];
      RunStep(site, s0, steps, 0);
      var before := RunKeepsInv(site, s0, init);
      h := Recorded(Run(site, s0, init).value, before, step);
      StepKeepsInv(site, Run(site, s0, init).value, before, step);
      SourcedStep(site, s0, steps, before);
    }
  }

  /** Snapshot consistency: however requests interleave, every stored body is the encoding of one complete scrape,
      namely of exactly what the collectors delivered to the request that stored it and of the counters when it
      described them; each request stores once; and every response carries a body stored no earlier than the
      responder's own. */
  lemma {:induction false} ServedBodiesAreSnapshots(site: Site, s0: State, steps: seq<Step>)
      returns (own: seq<nat>, version: seq<nat>)
    requires s0 == START.(stats := s0.stats) && Run(site, s0, steps).Some?
    ensures var s := Run(site, s0, steps).value;
            && (forall v :: 0 <= v < |s.stored| ==> IsOwnScrape(site, s0, steps, s.stored[v]))
            && (forall v, w :: 0 <= v < w < |s.stored| ==> s.stored[v].id != s.stored[w].id)
            && |own| == |version| == |s.responses|
            && (forall i :: 0 <= i < |s.responses| ==>
                  && own[i] <= version[i] < |s.stored|
                  && s.stored[own[i]].id == s.responses[i].id
                  && s.responses[i].body == s.stored[version[i]].body)
  {
    hide Explains, Run, Inv, Body, ScrapeSamples, Whole, Sourced, IsOwnScrape;
    NothingAtStart(site, s0);
    var h := RunKeepsInv(site, s0, steps);
    StoredAreOwn(site, s0, steps, h);
    var s := Run(site, s0, steps).value;
    InvMeans(site, s, h);
    own := seq(|s.responses|, i requires 0 <= i < |s.responses| => h.sent[i].at);
    version := seq(|s.responses|, i requires 0 <= i < |s.responses| => h.sent[i].version);
  }

  lemma {:induction false} NothingAtStart(site: Site, s0: State)
    requires s0 == START.(stats := s0.stats)
    ensures Inv(site, s0, History([], map[], []))
  {
    hide Explains, Justified;
  }

  /** A stored body encodes the one scrape of the request that stored it: all its own outcomes, and nobody else's. */
  ghost predicate IsOwnScrape(site: Site, s0: State, steps: seq<Step>, stored: Served)
    requires Run(site, s0, steps).Some?
  {
    var round := CollectedBy(steps, stored.id);
    Whole(site, round) && stored.body == Body(ScrapeSamples(site, round, CountersAt(site, s0, steps, stored.id)))
  }

  lemma {:induction false} StoredAreOwn(site: Site, s0: State, steps: seq<Step>, h: History)
    requires Run(site, s0, steps).Some? && Inv(site, Run(site, s0, steps).value, h) && Sourced(site, s0, steps, h)
    ensures forall v :: 0 <= v < |Run(site, s0, steps).value.stored| ==>
              IsOwnScrape(site, s0, steps, Run(site, s0, steps).value.stored[v])
  {
    hide Run, Inv, Body, ScrapeSamples, Whole, CollectedBy, CountersAt;
    var s := Run(site, s0, steps).value;
    InvMeans(site, s, h);
    forall v | 0 <= v < |s.stored| ensures IsOwnScrape(site, s0, steps, s.stored[v]) {
      assert EntrySourced(site, s0, steps, h.log[v]);
    }
  }

  lemma {:induction false} InvMeans(site: Site, s: State, h: History)
    requires Inv(site, s, h)
    ensures |h.log| == |s.stored| && |h.sent| == |s.responses|
    ensures forall v :: 0 <= v < |s.stored| ==>
              Whole(site, h.log[v].round) && s.stored[v].id == h.log[v].owner
              && s.stored[v].body == Body(ScrapeSamples(site, h.log[v].round, h.log[v].stats))
    ensures forall v, w :: 0 <= v < w < |s.stored| ==> s.stored[v].id != s.stored[w].id
    ensures forall i :: 0 <= i < |s.responses| ==>
              && h.sent[i].Took? && h.sent[i].at <= h.sent[i].version < |s.stored|
              && s.stored[h.sent[i].at].id == s.responses[i].id
              && s.responses[i].body == s.stored[h.sent[i].version].body
  {
    hide Body, ScrapeSamples, Explains;
  }

  // ---- Counters shared by interleaved scrapes ----

  predicate FailsAt(site: Site, s: State, step: Step, name: string)
    requires Enabled(site, s, step)
  {
    step.Collect? && site.names[|s.requests[step.id].results|] == name && Fails(site.availability, name, step.outcome)
  }

  /** The failures of a collector among the steps, whichever requests they belong to. */
  function FailuresAlong(site: Site, s: State, steps: seq<Step>, name: string): nat
    requires Run(site, s, steps).Some?
    decreases |steps|
  {
    if steps == [] then 0
    else
      var init := steps[..|steps| - 1];
      FailuresAlong(site, s, init, name)
        + if FailsAt(site, Run(site, s, init).value, steps[|steps| - 1], name) then 1 else 0
  }

  /** No failure is lost between interleaved scrapes: each counter moves by the number of failing collects,
      modulo 2^64. */
  lemma {:induction false} NoFailureIsLost(site: Site, s: State, steps: seq<Step>, name: string)
    requires Run(site, s, steps).Some? && name in s.stats
    ensures name in Run(site, s, steps).value.stats
    ensures Run(site, s, steps).value.stats[name] == Wrapped(s.stats[name] + FailuresAlong(site, s, steps, name))
    decreases |steps|
  {
    hide Wrapped, FailsAt, Enabled, Next;
    WrappedTwice(s.stats[name], 0, 0);
    if steps != [] {
      var init := steps[..|steps| - 1];
      NoFailureIsLost(site, s, init, name);
      BumpOnce(site, Run(site, s, init).value, steps[|steps| - 1], name);
      WrappedTwice(s.stats[name], FailuresAlong(site, s, init, name), 1);
    }
  }

  lemma {:induction false} BumpOnce(site: Site, s: State, step: Step, name: string)
    requires Enabled(site, s, step) && name in s.stats
    ensures var next := Next(site, s, step);
            var n: nat := s.stats[name];
            name in next.stats && next.stats[name] == if FailsAt(site, s, step, name) then Wrapped(n + 1) else n
  {
    hide Wrapped, Body, Telemetries, Delivered, ResultOf, Fails;
  }

  /** A request loads the body stored last, by whichever request, and responds with the body it loaded. */
  lemma {:induction false} LoadTakesNewest(site: Site, s0: State, steps: seq<Step>, id: RequestId)
    requires s0 == START.(stats := s0.stats) && Run(site, s0, steps).Some?
    ensures var s := Run(site, s0, steps).value;
            && (Enabled(site, s, Load(id)) ==>
                  && s.stored != []
                  && Next(site, s, Load(id)).requests[id] == Loaded(s.stored[|s.stored| - 1].body))
            && (Enabled(site, s, Respond(id)) ==>
                  Next(site, s, Respond(id)).responses == s.responses + [Served(id, s.requests[id].body)])
  {
    hide Run, Inv, Body, ScrapeSamples, Telemetries, Delivered, ResultOf, Bumped;
    NothingAtStart(site, s0);
    var h := RunKeepsInv(site, s0, steps);
    NewestIsLoaded(site, Run(site, s0, steps).value, h);
  }

  lemma {:induction false} NewestIsLoaded(site: Site, s: State, h: History)
    requires Inv(site, s, h)
    ensures s.stored != [] ==> s.encoded == s.stored[|s.stored| - 1].body
    ensures forall id :: id in s.requests && s.requests[id].Replaced? ==> s.stored != []
  {
    hide Explains, EntryBody, ScrapeSamples, Whole;
    forall id | id in s.requests && s.requests[id].Replaced? ensures s.stored != [] {
      Located(site, h.log, id, s.requests[id], h.traces[id]);
    }
  }

  // ---- Every request can be answered ----

  lemma {:induction false} RunFront(site: Site, s: State, step: Step, rest: seq<Step>)
    requires Enabled(site, s, step) && Run(site, Next(site, s, step), rest).Some?
    ensures Run(site, s, [step] + rest) == Run(site, Next(site, s, step), rest)
    decreases |rest|
  {
    hide Enabled, Next;
    var all := [step] + rest;
    if rest == [] {
      assert all[..0] == [] && Run(site, s, all[..0]) == Some(s) && all == [step];
    } else {
      var init := rest[..|rest| - 1];
      RunFront(site, s, step, init);
      assert all[..|all| - 1] == [step] + init;
    }
  }

  /** The steps still to be taken for a request. */
  function Remaining(site: Site, p: Phase): nat {
    match p
    case Collecting(_, results) => if |results| <= |site.names| then |site.names| - |results| + 4 else 0
    case Described(_) => 3
    case Replaced => 2
    case Loaded(_) => 1
  }

  /** Whatever the other requests did, an open request can be carried on to its response, with any outcomes of the
      collectors still to be asked: none of its steps waits for another request. */
  lemma {:induction false} RequestCanFinish(site: Site, s: State, id: RequestId, o: Outcome, seconds: Token)
      returns (steps: seq<Step>)
    requires id in s.requests && (s.requests[id].Collecting? ==> |s.requests[id].results| <= |site.names|)
    ensures |steps| == Remaining(site, s.requests[id]) && forall t :: t in steps ==> t.id == id
    ensures Run(site, s, steps).Some?
    ensures var t := Run(site, s, steps).value;
            |t.responses| == |s.responses| + 1 && t.responses[|s.responses|].id == id && id !in t.requests
    decreases Remaining(site, s.requests[id])
  {
    hide Body, Telemetries, Delivered, ResultOf, Bumped, Run;
    var step := match s.requests[id]
                case Collecting(_, results) => if |results| < |site.names| then Collect(id, o, seconds)
                                             else Describe(id)
                case Described(_) => Replace(id)
                case Replaced => Load(id)
                case Loaded(_) => Respond(id);
    var next := Next(site, s, step);
    if step.Respond? {
      OneStep(site, s, step);
      steps := [step];
    } else {
      var rest := RequestCanFinish(site, next, id, o, seconds);
      RunFront(site, s, step, rest);
      steps := [step] + rest;
    }
  }

  lemma {:induction false} OneStep(site: Site, s: State, step: Step)
    requires Enabled(site, s, step)
    ensures Run(site, s, [step]) == Some(Next(site, s, step))
  {
    hide Enabled, Next;
    assert [step][..0] == [] && Run(site, s, [step][..0]) == Some(s);
  }

  /** And a new request can always be accepted. */
  lemma {:induction false} AlwaysAccepting(site: Site, s: State)
    ensures Enabled(site, s, Accept(s.accepted))
    ensures var next := Next(site, s, Accept(s.accepted));
            next.requests == s.requests[s.accepted := Collecting([], [])] && next.accepted == s.accepted + 1
  {
  }
}
