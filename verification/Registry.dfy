/** The Prometheus text encoder of crates/nlx-metrics/src/registry.rs, and a reader of the format it writes. */
module Registry {
  import opened Wrappers
  import opened Bytes
  import opened Text

  // ---- Samples ----

  datatype MetricKind = Counter | Gauge | Histogram

  /** A float is carried as the text it is printed as. */
  type Token = s: string | '\n' !in s

  datatype MetricValue = UInt(n: u64) | Float(text: Token)

  datatype Label = Label(key: string, value: string)

  /** The labels stand in the order a `BTreeMap` yields them. */
  datatype MetricSample = MetricSample(name: string, help: string, kind: MetricKind, labels: seq<Label>,
                                       value: MetricValue)

  /** The samples of a metric. */
  function Count(ss: seq<MetricSample>, name: string): nat {
    if ss == [] then 0 else Count(ss[..|ss| - 1], name) + if ss[|ss| - 1].name == name then 1 else 0
  }

  // ---- The order of `BTreeMap` keys ----

  predicate Less(a: string, b: string) {
    b != [] && (a == [] || if a[0] != b[0] then a[0] < b[0] else Less(a[1..], b[1..]))
  }

  ghost predicate Ascending(names: seq<string>) {
    forall i, j :: 0 <= i < j < |names| ==> Less(names[i], names[j])
  }

  lemma {:induction false} LessTotal(a: string, b: string)
    ensures Less(a, b) || a == b || Less(b, a)
    ensures !(Less(a, b) && Less(b, a)) && (Less(a, b) ==> a != b)
  {
    if a != [] && b != [] && a[0] == b[0] {
      LessTotal(a[1..], b[1..]);
      assert a == [a[0]] + a[1..] && b == [b[0]] + b[1..];
    }
  }

  lemma {:induction false} LessTransitive(a: string, b: string, c: string)
    requires Less(a, b) && Less(b, c)
    ensures Less(a, c)
  {
    if a != [] && a[0] == b[0] == c[0] {
      LessTransitive(a[1..], b[1..], c[1..]);
    }
  }

  /** The order is that of a dictionary: the first difference decides, by the smaller character. */
  lemma {:induction false} FirstDifferenceDecides(p: string, c: char, x: string, d: char, y: string)
    requires c < d
    ensures Less(p + [c] + x, p + [d] + y)
  {
    var a, b := p + [c] + x, p + [d] + y;
    if p == [] {
      assert a[0] == c && b[0] == d;
    } else {
      FirstDifferenceDecides(p[1..], c, x, d, y);
      assert a[1..] == p[1..] + [c] + x && b[1..] == p[1..] + [d] + y;
    }
  }

  /** A name comes before its own continuations. */
  lemma {:induction false} PrefixComesFirst(p: string, c: char, x: string)
    ensures Less(p, p + [c] + x)
  {
    if p != [] {
      PrefixComesFirst(p[1..], c, x);
      assert (p + [c] + x)[1..] == p[1..] + [c] + x;
    }
  }

  /** Inserting a key into an ordered map or set. */
  function Insert(names: seq<string>, n: string): seq<string> {
    if names == [] then [n]
    else if n == names[0] then names
    else if Less(n, names[0]) then [n] + names
    else [names[0]] + Insert(names[1..], n)
  }

  lemma {:induction false} InsertKeeps(names: seq<string>, n: string)
    requires Ascending(names)
    ensures Ascending(Insert(names, n))
    ensures forall m :: m in Insert(names, n) <==> m in names || m == n
  {
    hide Less;
    if names != [] && n != names[0] {
      var rest := names[1..];
      assert forall i, j :: 0 <= i < j < |rest| ==> rest[i] == names[i + 1] && rest[j] == names[j + 1];
      LessTotal(n, names[0]);
      if Less(n, names[0]) {
        forall j | 0 <= j < |names| ensures Less(n, names[j]) {
          if j > 0 { LessTransitive(n, names[0], names[j]); }
        }
      } else {
        InsertKeeps(rest, n);
        var r := Insert(rest, n);
        forall j | 0 <= j < |r| ensures Less(names[0], r[j]) {
          assert r[j] in r;
        }
        assert names == [names[0]] + rest;
      }
    }
  }

  // ---- Escaping ----

  predicate Control(c: char) {
    (c as int) < 0x20
  }

  function EscapeChar(c: char): string {
    if c == '\\' then "\\\\"
    else if c == '"' then "\\\""
    else if c == '\n' then "\\n"
    else if Control(c) then ""
    else [c]
  }

  function EscapeValue(s: string): string {
    if s == [] then [] else EscapeChar(s[0]) + EscapeValue(s[1..])
  }

  function EscapeHelpChar(c: char): string {
    if c == '\\' then "\\\\" else if c == '\n' then "\\n" else [c]
  }

  function EscapeHelpText(s: string): string {
    if s == [] then [] else EscapeHelpChar(s[0]) + EscapeHelpText(s[1..])
  }

  lemma {:induction false} EscapeStep(s: string, i: nat, out: string)
    requires i < |s|
    ensures out + EscapeValue(s[i..]) == (out + EscapeChar(s[i])) + EscapeValue(s[i + 1..])
    ensures out + EscapeHelpText(s[i..]) == (out + EscapeHelpChar(s[i])) + EscapeHelpText(s[i + 1..])
  {
    hide EscapeChar, EscapeHelpChar;
    assert s[i..][1..] == s[i + 1..];
  }

  method EscapeLabelValue(s: string) returns (out: string)
    ensures out == EscapeValue(s)
  {
    out := [];
    assert s[0..] == s && EscapeValue(s[|s|..]) == [];
    hide EscapeValue;
    for i := 0 to |s|
      invariant out + EscapeValue(s[i..]) == EscapeValue(s)
    {
      EscapeStep(s, i, out);
      var c := s[i];
      if c == '\\' {
        out := out + "\\\\";
      } else if c == '"' {
        out := out + "\\\"";
      } else if c == '\n' {
        out := out + "\\n";
      } else if (c as int) < 0x20 {
        assert out + "" == out;
      } else {
        out := out + [c];
      }
    }
  }

  method EscapeHelp(s: string) returns (out: string)
    ensures out == EscapeHelpText(s)
  {
    out := [];
    assert s[0..] == s && EscapeHelpText(s[|s|..]) == [];
    hide EscapeHelpText;
    for i := 0 to |s|
      invariant out + EscapeHelpText(s[i..]) == EscapeHelpText(s)
    {
      EscapeStep(s, i, out);
      var c := s[i];
      if c == '\\' {
        out := out + "\\\\";
      } else if c == '\n' {
        out := out + "\\n";
      } else {
        out := out + [c];
      }
    }
  }

  /** What survives escaping: everything but the control characters other than newline. */
  function Stripped(s: string): string {
    if s == [] then []
    else (if s[0] == '\n' || !Control(s[0]) then [s[0]] else []) + Stripped(s[1..])
  }

  predicate Clean(s: string) {
    forall c :: c in s ==> c == '\n' || !Control(c)
  }

  lemma {:induction false} StrippedMeans(s: string)
    ensures Stripped(s) == s <==> Clean(s)
    ensures |Stripped(s)| <= |s|
  {
    if s != [] {
      StrippedMeans(s[1..]);
      assert s == [s[0]] + s[1..];
    }
  }

  lemma {:induction false} EscapedStripped(s: string)
    ensures EscapeValue(Stripped(s)) == EscapeValue(s)
    ensures '\n' !in EscapeValue(s)
  {
    if s != [] {
      EscapedStripped(s[1..]);
      if s[0] == '\n' || !Control(s[0]) {
        assert Stripped(s)[1..] == Stripped(s[1..]);
      } else {
        assert Stripped(s) == Stripped(s[1..]);
      }
    }
  }

  // ---- Lines ----

  const SOH: char := 1 as char
  const STX: char := 2 as char

  function SeriesKey(labels: seq<Label>): string {
    if labels == [] then [] else labels[0].key + [SOH] + labels[0].value + [STX] + SeriesKey(labels[1..])
  }

  /** The separators of a key are U+0001 and U+0002. */
  lemma {:induction false} KeyInText(l: Label, rest: seq<Label>)
    ensures SeriesKey([l] + rest) == l.key + [1 as char] + l.value + [2 as char] + SeriesKey(rest)
  {
    assert ([l] + rest)[1..] == rest;
  }

  method BuildSeriesKey(labels: seq<Label>) returns (key: string)
    ensures key == SeriesKey(labels)
  {
    key := [];
    for i := 0 to |labels|
      invariant key + SeriesKey(labels[i..]) == SeriesKey(labels)
    {
      assert labels[i..][1..] == labels[i + 1..];
      key := key + labels[i].key;
      key := key + [SOH];
      key := key + labels[i].value;
      key := key + [STX];
    }
  }

  function LabelText(l: Label): string {
    l.key + "=\"" + EscapeValue(l.value) + "\""
  }

  function LabelsText(labels: seq<Label>): string {
    if labels == [] then []
    else LabelText(labels[0]) + if |labels| == 1 then [] else "," + LabelsText(labels[1..])
  }

  /** `name{labels}` */
  function HeadText(name: string, labels: seq<Label>): string {
    name + if labels == [] then [] else "{" + LabelsText(labels) + "}"
  }

  function ValueText(v: MetricValue): string {
    match v
    case UInt(n) => Numeral(n, 10)
    case Float(text) => text
  }

  datatype Observation = Observation(labels: seq<Label>, value: MetricValue)

  function SampleLine(name: string, o: Observation): string {
    HeadText(name, o.labels) + " " + ValueText(o.value) + "\n"
  }

  /** What is still to be written after i labels. */
  ghost function Remaining(labels: seq<Label>, i: nat): string
    requires i <= |labels|
  {
    if i == |labels| then [] else (if i == 0 then [] else ",") + LabelsText(labels[i..])
  }

  lemma {:induction false} RemainingStep(labels: seq<Label>, i: nat, out: string)
    requires i < |labels|
    ensures i == 0 ==> out + Remaining(labels, i) == (out + LabelText(labels[i])) + Remaining(labels, i + 1)
    ensures i > 0 ==> out + Remaining(labels, i) == ((out + [',']) + LabelText(labels[i])) + Remaining(labels, i + 1)
  {
    hide LabelText;
    assert labels[i..][1..] == labels[i + 1..];
  }

  method WriteLabel(out: Vec<char>, l: Label)
    modifies out
    ensures out.items == old(out.items) + LabelText(l)
  {
    hide EscapeValue;
    var escaped := EscapeLabelValue(l.value);
    out.Extend(l.key + "=\"" + escaped + "\"");
  }

  method WriteLabels(out: Vec<char>, labels: seq<Label>)
    modifies out
    ensures out.items == old(out.items) + LabelsText(labels)
  {
    hide LabelText, LabelsText, Remaining;
    var first := true;
    ghost var total := out.items + LabelsText(labels);
    RemainingEnds(labels);
    for i := 0 to |labels|
      invariant first == (i == 0)
      invariant out.items + Remaining(labels, i) == total
    {
      RemainingStep(labels, i, out.items);
      if !first {
        out.Push(',');
      }
      first := false;
      WriteLabel(out, labels[i]);
    }
    assert out.items + [] == out.items;
  }

  lemma {:induction false} RemainingEnds(labels: seq<Label>)
    ensures Remaining(labels, 0) == LabelsText(labels) && Remaining(labels, |labels|) == []
  {
    assert labels[0..] == labels;
  }

  method WriteSampleLine(out: Vec<char>, name: string, o: Observation)
    modifies out
    ensures out.items == old(out.items) + SampleLine(name, o)
  {
    hide LabelsText, ValueText;
    out.Extend(name);
    if o.labels != [] {
      out.Push('{');
      WriteLabels(out, o.labels);
      out.Push('}');
    }
    out.Push(' ');
    out.Extend(ValueText(o.value));
    out.Push('\n');
  }

  // ---- The body ----

  function KindText(kind: MetricKind): string {
    match kind
    case Counter => "counter"
    case Gauge => "gauge"
    case Histogram => "histogram"
  }

  /** The metric names in ascending order. */
  function Names(ss: seq<MetricSample>): seq<string> {
    if ss == [] then [] else Insert(Names(ss[..|ss| - 1]), ss[|ss| - 1].name)
  }

  /** The keys already seen under a name. */
  function Keys(ss: seq<MetricSample>, name: string): set<string> {
    if ss == [] then {}
    else
      var s := ss[|ss| - 1];
      Keys(ss[..|ss| - 1], name) + if s.name == name then {SeriesKey(s.labels)} else {}
  }

  /** The observations the guard keeps under a name. */
  function Kept(ss: seq<MetricSample>, name: string): seq<Observation> {
    if ss == [] then []
    else
      var s, before := ss[|ss| - 1], ss[..|ss| - 1];
      Kept(before, name)
      + if s.name == name && SeriesKey(s.labels) !in Keys(before, name) then [Observation(s.labels, s.value)] else []
  }

  /** The first sample of a name. */
  function Leader(ss: seq<MetricSample>, name: string): Option<MetricSample> {
    if ss == [] then None
    else
      var before := Leader(ss[..|ss| - 1], name);
      if before.Some? then before else if ss[|ss| - 1].name == name then Some(ss[|ss| - 1]) else None
  }

  function HelpLine(name: string, help: string): string {
    "# HELP " + name + " " + EscapeHelpText(help) + "\n"
  }

  function TypeLine(name: string, kind: MetricKind): string {
    "# TYPE " + name + " " + KindText(kind) + "\n"
  }

  function SampleLines(name: string, os: seq<Observation>): string {
    if os == [] then [] else SampleLine(name, os[0]) + SampleLines(name, os[1..])
  }

  function GroupText(name: string, leader: MetricSample, os: seq<Observation>): string {
    HelpLine(name, leader.help) + TypeLine(name, leader.kind) + SampleLines(name, os)
  }

  function GroupsText(ss: seq<MetricSample>, names: seq<string>): string
    requires forall n :: n in names ==> Leader(ss, n).Some?
  {
    if names == [] then []
    else GroupText(names[0], Leader(ss, names[0]).value, Kept(ss, names[0])) + GroupsText(ss, names[1..])
  }

  lemma {:induction false} NamesMean(ss: seq<MetricSample>)
    ensures Ascending(Names(ss))
    ensures forall n :: n in Names(ss) <==> Leader(ss, n).Some?
  {
    hide Insert;
    if ss != [] {
      NamesMean(ss[..|ss| - 1]);
      InsertKeeps(Names(ss[..|ss| - 1]), ss[|ss| - 1].name);
    }
  }

  function Body(ss: seq<MetricSample>): string {
    NamesMean(ss); GroupsText(ss, Names(ss))
  }

  /** The body of one sample, as text. */
  lemma {:induction false} BodyOfOne(name: string, help: string, kind: MetricKind, key: string, value: string, n: u64)
    ensures Body([MetricSample(name, help, kind, [Label(key, value)], UInt(n))])
         == "# HELP " + name + " " + EscapeHelpText(help) + "\n"
            + ("# TYPE " + name + " "
               + (match kind case Counter => "counter" case Gauge => "gauge" case Histogram => "histogram") + "\n")
            + (name + ("{" + (key + "=\"" + EscapeValue(value) + "\"") + "}") + " " + Numeral(n, 10) + "\n")
  {
    hide EscapeValue, EscapeHelpText, Numeral, SeriesKey;
    var s := MetricSample(name, help, kind, [Label(key, value)], UInt(n));
    var o := Observation([Label(key, value)], UInt(n));
    OnlySample(s);
    assert [o][1..] == [] && [name][1..] == [];
    assert SampleLines(name, [o]) == SampleLine(name, o) + [];
    OneLabel(Label(key, value));
    assert SampleLine(name, o) == name + ("{" + LabelText(Label(key, value)) + "}") + " " + Numeral(n, 10) + "\n";
    assert [] + [o] == [o] && GroupsText([s], [name][1..]) == [];
    assert GroupsText([s], [name]) == GroupText(name, s, [o]) + [];
  }

  lemma {:induction false} OnlySample(s: MetricSample)
    ensures Names([s]) == [s.name] && Leader([s], s.name) == Some(s)
    ensures Kept([s], s.name) == [Observation(s.labels, s.value)]
  {
    hide SeriesKey;
    assert [s][..0] == [] && Keys([], s.name) == {} && Kept([], s.name) == [];
    assert Kept([s], s.name) == Kept([s][..0], s.name) + [Observation(s.labels, s.value)];
  }

  lemma {:induction false} OneLabel(l: Label)
    ensures LabelsText([l]) == LabelText(l)
  {
    hide LabelText;
    assert LabelText(l) + [] == LabelText(l);
  }

  /** The escapes of a label value: quote, backslash and newline; other control characters vanish. */
  lemma {:induction false} EscapesInText(c: char)
    ensures EscapeValue([c]) == if c == '\\' then ['\\', '\\'] else if c == '"' then ['\\', '"']
                                else if c == '\n' then ['\\', 'n'] else if (c as int) < 32 then [] else [c]
    ensures EscapeHelpText([c]) == if c == '\\' then ['\\', '\\'] else if c == '\n' then ['\\', 'n'] else [c]
  {
    assert [c][1..] == [];
  }

  lemma {:induction false} EscapeCons(c: char, s: string)
    ensures EscapeValue([c] + s) == EscapeChar(c) + EscapeValue(s)
    ensures EscapeHelpText([c] + s) == EscapeHelpChar(c) + EscapeHelpText(s)
  {
    hide EscapeChar, EscapeHelpChar;
    assert ([c] + s)[1..] == s;
  }

  lemma {:induction false} EscapeAppend(a: string, b: string)
    ensures EscapeValue(a + b) == EscapeValue(a) + EscapeValue(b)
    ensures EscapeHelpText(a + b) == EscapeHelpText(a) + EscapeHelpText(b)
  {
    hide EscapeChar, EscapeHelpChar;
    if a == [] {
      assert a + b == b;
    } else {
      EscapeAppend(a[1..], b);
      EscapeCons(a[0], a[1..] + b);
      assert a + b == [a[0]] + (a[1..] + b);
      Associative(EscapeChar(a[0]), EscapeValue(a[1..]), EscapeValue(b));
      Associative(EscapeHelpChar(a[0]), EscapeHelpText(a[1..]), EscapeHelpText(b));
    }
  }

  datatype GroupEntry = GroupEntry(help: string, kind: MetricKind, seen: set<string>, observations: seq<Observation>)

  /** The groups hold what the samples so far say. */
  ghost predicate Grouped(groups: map<string, GroupEntry>, ss: seq<MetricSample>) {
    && (forall n :: n in groups <==> Leader(ss, n).Some?)
    && (forall n :: n in groups ==>
          groups[n] == GroupEntry(Leader(ss, n).value.help, Leader(ss, n).value.kind, Keys(ss, n), Kept(ss, n)))
  }

  lemma {:induction false} UnnamedIsEmpty(ss: seq<MetricSample>, name: string)
    requires Leader(ss, name).None?
    ensures Keys(ss, name) == {} && Kept(ss, name) == []
  {
    hide SeriesKey;
    if ss != [] {
      UnnamedIsEmpty(ss[..|ss| - 1], name);
    }
  }

  /** What one sample does to the groups. */
  lemma {:induction false} GroupedStep(groups: map<string, GroupEntry>, ss: seq<MetricSample>, s: MetricSample)
    requires Grouped(groups, ss)
    ensures var e := if s.name in groups then groups[s.name] else GroupEntry(s.help, s.kind, {}, []);
            var key := SeriesKey(s.labels);
            var f := if key in e.seen then e
                     else e.(seen := e.seen + {key}, observations := e.observations + [Observation(s.labels, s.value)]);
            Grouped(groups[s.name := f], ss + [s])
  {
    hide SeriesKey;
    assert (ss + [s])[..|ss|] == ss;
    if s.name !in groups {
      UnnamedIsEmpty(ss, s.name);
    }
  }

  method BuildGroups(samples: seq<MetricSample>) returns (groups: map<string, GroupEntry>, names: seq<string>)
    ensures Grouped(groups, samples) && names == Names(samples)
  {
    groups, names := map[], [];
    assert samples[..0] == [];
    hide Insert, Kept, Keys, SeriesKey, Grouped;
    GroupedAtStart();
    for i := 0 to |samples|
      invariant Grouped(groups, samples[..i])
      invariant names == Names(samples[..i])
    {
      var sample := samples[i];
      assert samples[..i + 1] == samples[..i] + [sample];
      assert samples[..i + 1][..i] == samples[..i];
      GroupedStep(groups, samples[..i], sample);
      var entry := if sample.name in groups then groups[sample.name] else GroupEntry(sample.help, sample.kind, {}, []);
      names := Insert(names, sample.name);
      var key := BuildSeriesKey(sample.labels);
      if key !in entry.seen {
        entry := entry.(seen := entry.seen + {key},
                        observations := entry.observations + [Observation(sample.labels, sample.value)]);
      }
      groups := groups[sample.name := entry];
    }
    assert samples[..|samples|] == samples;
  }

  lemma {:induction false} GroupedAtStart()
    ensures Grouped(map[], [])
  {
  }

  method EncodeSamples(samples: seq<MetricSample>) returns (r: string)
    ensures r == Body(samples)
  {
    var groups, names := BuildGroups(samples);
    hide GroupText, Names, Kept, Keys, Leader;
    NamesMean(samples);
    var out := new Vec<char>();
    assert names[0..] == names;
    for k := 0 to |names|
      invariant fresh(out)
      invariant out.items + GroupsText(samples, names[k..]) == Body(samples)
    {
      assert names[k..][1..] == names[k + 1..];
      assert names[k] in names;
      WriteGroup(out, names[k], groups[names[k]], Leader(samples, names[k]).value);
    }
    r := out.items;
  }

  method WriteGroup(out: Vec<char>, name: string, group: GroupEntry, ghost leader: MetricSample)
    requires group.help == leader.help && group.kind == leader.kind
    modifies out
    ensures out.items == old(out.items) + GroupText(name, leader, group.observations)
  {
    hide SampleLine, EscapeHelpText, SampleLines;
    var help := EscapeHelp(group.help);
    out.Extend("# HELP " + name + " " + help + "\n");
    out.Extend("# TYPE " + name + " " + KindText(group.kind) + "\n");
    WriteObservations(out, name, group.observations);
  }

  method WriteObservations(out: Vec<char>, name: string, os: seq<Observation>)
    modifies out
    ensures out.items == old(out.items) + SampleLines(name, os)
  {
    hide SampleLine;
    ghost var start := out.items;
    assert os[0..] == os;
    for i := 0 to |os|
      invariant out.items + SampleLines(name, os[i..]) == start + SampleLines(name, os)
    {
      assert os[i..][1..] == os[i + 1..];
      WriteSampleLine(out, name, os[i]);
    }
  }
}
