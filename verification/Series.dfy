/** When two samples are the same series: by label set, by the encoder's key, and by the line printed. */
module Series {
  import opened Wrappers
  import opened Bytes
  import opened Text
  import opened Registry
  import opened Exposition
  import opened KeyText

  predicate NoSeparator(labels: seq<Label>) {
    forall l :: l in labels ==> STX !in l.value
  }

  predicate CleanLabels(labels: seq<Label>) {
    forall l :: l in labels ==> Clean(l.value)
  }

  /** Label keys in ascending order, as a `BTreeMap` holds them. */
  ghost predicate IsLabelMap(labels: seq<Label>) {
    forall i, j :: 0 <= i < j < |labels| ==> Less(labels[i].key, labels[j].key)
  }

  /** In that order a label set has only one sequence. */
  lemma {:induction false} LabelMapIsCanonical(a: seq<Label>, b: seq<Label>)
    requires IsLabelMap(a) && IsLabelMap(b)
    requires forall l :: l in a <==> l in b
    ensures a == b
    decreases |a|
  {
    hide Less;
    assert a != [] ==> a[0] in b;
    assert b != [] ==> b[0] in a;
    if a != [] && b != [] {
      var x, y := a[0], b[0];
      assert x in b && y in a;
      LessTotal(x.key, y.key);
      LessTotal(x.key, x.key);
      LessTotal(y.key, y.key);
      assert x == y;
      forall l ensures l in a[1..] <==> l in b[1..] {
        assert l in a[1..] ==> l in a;
        assert l in b[1..] ==> l in b;
        LessTotal(l.key, x.key);
      }
      LabelMapIsCanonical(a[1..], b[1..]);
    }
  }

  // ---- The key ----

  lemma {:induction false} NoSeparatorIsUnbroken(labels: seq<Label>)
    requires NoSeparator(labels)
    ensures AllUnbroken(labels)
  {
    hide Before, Identifier;
    forall l, i | l in labels && 0 <= i < |l.value| ensures !BreaksAt(l.value, i) {
      assert l.value[i] in l.value;
    }
  }

  /** The key separates label sets whose values hold no U+0002. */
  lemma {:induction false} KeyInjective(a: seq<Label>, b: seq<Label>)
    requires Keyed(a) && Keyed(b) && NoSeparator(a) && NoSeparator(b)
    requires SeriesKey(a) == SeriesKey(b)
    ensures a == b
  {
    NoSeparatorIsUnbroken(a);
    NoSeparatorIsUnbroken(b);
    UnbrokenKeyInjective(a, b);
  }

  /** With a U+0002 in a value it does not: a one-label and a two-label set share their key. */
  lemma {:induction false} KeyCollision()
    ensures var a := [Label("a", "x" + [STX] + "b" + [SOH] + "y")];
            var b := [Label("a", "x"), Label("b", "y")];
            SeriesKey(a) == SeriesKey(b) && a != b && HeadText("m", a) != HeadText("m", b)
  {
    var v := "x" + [STX] + "b" + [SOH] + "y";
    var a := [Label("a", v)];
    var b := [Label("a", "x"), Label("b", "y")];
    assert SeriesKey(a[1..]) == [] && SeriesKey(b[1..][1..]) == [];
    assert SeriesKey(b[1..]) == "b" + [SOH] + "y" + [STX];
    assert SeriesKey(a) == SeriesKey(b);
    assert |StrippedLabels(a)| != |StrippedLabels(b)|;
    HeadsEqualIff("m", a, "m", b);
  }

  // ---- The line ----

  lemma {:induction false} StrippedSameText(labels: seq<Label>)
    ensures LabelsText(StrippedLabels(labels)) == LabelsText(labels)
  {
    hide EscapeValue, Stripped;
    if labels != [] {
      EscapedStripped(labels[0].value);
      assert StrippedLabels(labels)[1..] == StrippedLabels(labels[1..]);
      StrippedSameText(labels[1..]);
    }
  }

  /** Two samples print the same `name{labels}` exactly when they have the same name and the same labels up to
      control characters. */
  lemma {:induction false} HeadsEqualIff(n: string, a: seq<Label>, m: string, b: seq<Label>)
    requires Identifier(n) && Identifier(m) && Keyed(a) && Keyed(b)
    ensures HeadText(n, a) == HeadText(m, b) <==> n == m && StrippedLabels(a) == StrippedLabels(b)
  {
    StrippedSameText(a);
    StrippedSameText(b);
    SampleReadsBack(n, a, "");
    SampleReadsBack(m, b, "");
    hide LabelsText, ReadSample, Identifier;
  }

  lemma {:induction false} CleanIsStripped(labels: seq<Label>)
    requires CleanLabels(labels)
    ensures StrippedLabels(labels) == labels && NoSeparator(labels)
  {
    hide Stripped;
    forall i | 0 <= i < |labels| ensures StrippedLabels(labels)[i] == labels[i] && STX !in labels[i].value {
      assert labels[i] in labels;
      StrippedMeans(labels[i].value);
    }
  }

  /** On clean values the key, the label set and the printed text agree about what is the same series. */
  lemma {:induction false} KeyAndLineAgree(n: string, a: seq<Label>, b: seq<Label>)
    requires Identifier(n) && Keyed(a) && Keyed(b) && CleanLabels(a) && CleanLabels(b)
    ensures SeriesKey(a) == SeriesKey(b) <==> a == b
    ensures HeadText(n, a) == HeadText(n, b) <==> a == b
  {
    CleanIsStripped(a);
    CleanIsStripped(b);
    HeadsEqualIff(n, a, n, b);
    hide HeadText, SeriesKey;
    if SeriesKey(a) == SeriesKey(b) {
      KeyInjective(a, b);
    }
  }

  // ---- What the guard keeps ----

  /** The guard drops a line of the metric. */
  predicate Drops(ss: seq<MetricSample>, name: string) {
    |Kept(ss, name)| < Count(ss, name)
  }

  /** The first sample of every label set under a name. */
  function Firsts(ss: seq<MetricSample>, name: string): seq<Observation> {
    if ss == [] then []
    else
      var s, before := ss[|ss| - 1], ss[..|ss| - 1];
      Firsts(before, name)
      + if s.name == name && !HasSeries(before, name, s.labels) then [Observation(s.labels, s.value)] else []
  }

  predicate HasSeries(ss: seq<MetricSample>, name: string, labels: seq<Label>) {
    exists s :: s in ss && s.name == name && s.labels == labels
  }

  predicate Holds(os: seq<Observation>, labels: seq<Label>) {
    exists o :: o in os && o.labels == labels
  }

  lemma {:induction false} KeysMean(ss: seq<MetricSample>, name: string, key: string)
    ensures key in Keys(ss, name) <==> exists s :: s in ss && s.name == name && SeriesKey(s.labels) == key
  {
    hide SeriesKey;
    if ss != [] {
      KeysMean(ss[..|ss| - 1], name, key);
      assert ss == ss[..|ss| - 1] + [ss[|ss| - 1]];
    }
  }

  predicate SeparatorFree(ss: seq<MetricSample>) {
    forall s :: s in ss ==> NoSeparator(s.labels)
  }

  /** No two different label sets of the metric share a key; `KeysEqualIff` says when two do. */
  ghost predicate NoKeyClash(ss: seq<MetricSample>, name: string) {
    forall s, t :: s in ss && t in ss && s.name == t.name == name && SeriesKey(s.labels) == SeriesKey(t.labels) ==>
                     s.labels == t.labels
  }

  lemma {:induction false} ClashlessKept(ss: seq<MetricSample>, name: string)
    requires NoKeyClash(ss, name)
    ensures Kept(ss, name) == Firsts(ss, name)
  {
    hide SeriesKey;
    if ss != [] {
      var s, before := ss[|ss| - 1], ss[..|ss| - 1];
      assert ss == before + [s];
      ClashlessKept(before, name);
      KeysMean(before, name, SeriesKey(s.labels));
      assert s.name == name ==> (HasSeries(before, name, s.labels) <==> SeriesKey(s.labels) in Keys(before, name));
    }
  }

  /** Keeping by key is keeping the first sample of every label set exactly when no two label sets of the
      metric clash. */
  lemma {:induction false} KeptAreFirstsIff(ss: seq<MetricSample>, name: string)
    ensures Kept(ss, name) == Firsts(ss, name) <==> NoKeyClash(ss, name)
  {
    hide SeriesKey, Kept, Firsts, Keys;
    if NoKeyClash(ss, name) {
      ClashlessKept(ss, name);
    }
    if Kept(ss, name) == Firsts(ss, name) {
      KeptDistinct(ss, name);
      var k := Kept(ss, name);
      forall s, t | s in ss && t in ss && s.name == t.name == name && SeriesKey(s.labels) == SeriesKey(t.labels)
        ensures s.labels == t.labels
      {
        FirstsHold(ss, name, s.labels);
        FirstsHold(ss, name, t.labels);
        assert HasSeries(ss, name, s.labels) && HasSeries(ss, name, t.labels);
        var o :| o in k && o.labels == s.labels;
        var p :| p in k && p.labels == t.labels;
        var i :| 0 <= i < |k| && k[i] == o;
        var j :| 0 <= j < |k| && k[j] == p;
        assert i == j;
      }
    }
  }

  /** That is so when no value holds a U+0002. */
  lemma {:induction false} KeptAreFirsts(ss: seq<MetricSample>, name: string)
    requires Exposition.Named(ss) && SeparatorFree(ss)
    ensures Kept(ss, name) == Firsts(ss, name)
  {
    hide SeriesKey, NoSeparator, Identifier, Keyed;
    forall s, t | s in ss && t in ss && SeriesKey(s.labels) == SeriesKey(t.labels) ensures s.labels == t.labels {
      KeyInjective(s.labels, t.labels);
    }
    ClashlessKept(ss, name);
  }

  /** The sample items by label set, values exactly as collected. */
  function ExactSampleItems(name: string, os: seq<Observation>): seq<Item> {
    if os == [] then []
    else [SampleItem(name, os[0].labels, ValueText(os[0].value))] + ExactSampleItems(name, os[1..])
  }

  function ExactItems(ss: seq<MetricSample>, names: seq<string>): seq<Item>
    requires forall n :: n in names ==> Leader(ss, n).Some?
  {
    if names == [] then []
    else
      var leader := Leader(ss, names[0]).value;
      [HelpItem(names[0], leader.help), TypeItem(names[0], KindText(leader.kind))]
      + ExactSampleItems(names[0], Firsts(ss, names[0]))
      + ExactItems(ss, names[1..])
  }

  predicate CleanSamples(ss: seq<MetricSample>) {
    forall s :: s in ss ==> CleanLabels(s.labels)
  }

  lemma {:induction false} ObservationsAreCleaned(ss: seq<MetricSample>, name: string)
    requires CleanSamples(ss)
    ensures forall o :: o in Kept(ss, name) ==> CleanLabels(o.labels)
  {
    hide SeriesKey, CleanLabels;
    if ss != [] {
      ObservationsAreCleaned(ss[..|ss| - 1], name);
    }
  }

  lemma {:induction false} CleanItems(name: string, os: seq<Observation>)
    requires forall o :: o in os ==> CleanLabels(o.labels)
    ensures SampleItems(name, os) == ExactSampleItems(name, os)
  {
    hide CleanLabels, StrippedLabels, ValueText;
    if os != [] {
      CleanIsStripped(os[0].labels);
      CleanItems(name, os[1..]);
    }
  }

  lemma {:induction false} CleanGroups(ss: seq<MetricSample>, names: seq<string>)
    requires Exposition.Named(ss) && CleanSamples(ss) && SeparatorFree(ss)
    requires forall n :: n in names ==> Leader(ss, n).Some?
    ensures ItemsOf(ss, names) == ExactItems(ss, names)
  {
    hide Exposition.Named, CleanSamples, SeparatorFree, Kept, Leader, Firsts, SampleItems, ExactSampleItems,
         CleanLabels;
    if names != [] {
      CleanGroups(ss, names[1..]);
      KeptAreFirsts(ss, names[0]);
      ObservationsAreCleaned(ss, names[0]);
      CleanItems(names[0], Kept(ss, names[0]));
    }
  }

  /** On label values free of control characters other than newline the round trip is exact: the first sample of every
      series, grouped by ascending name, in first-occurrence order, one HELP and one TYPE before each group. */
  lemma {:induction false} CleanBodyReadsBack(ss: seq<MetricSample>)
    requires Exposition.Named(ss) && CleanSamples(ss)
    ensures forall n :: n in Names(ss) <==> Leader(ss, n).Some?
    ensures ReadBody(Body(ss)) == Some(ExactItems(ss, Names(ss)))
  {
    hide Body, Names, ReadBody, ItemsOf, ExactItems, Kept, Leader, Exposition.Named;
    BodyReadsBack(ss);
    forall s | s in ss ensures NoSeparator(s.labels) {
      CleanIsStripped(s.labels);
    }
    CleanGroups(ss, Names(ss));
  }

  // ---- Lines that coincide ----

  /** Every label set of a metric has one first sample. */
  lemma {:induction false} FirstsHold(ss: seq<MetricSample>, name: string, labels: seq<Label>)
    ensures Holds(Firsts(ss, name), labels) <==> HasSeries(ss, name, labels)
  {
    if ss != [] {
      var s, before := ss[|ss| - 1], ss[..|ss| - 1];
      FirstsHold(before, name, labels);
      HasStep(before, s, name, labels);
      assert ss == before + [s];
      hide HasSeries;
      if s.name == name && !HasSeries(before, name, s.labels) {
        HoldsStep(Firsts(before, name), Observation(s.labels, s.value), labels);
      }
    }
  }

  lemma {:induction false} HasStep(ss: seq<MetricSample>, s: MetricSample, name: string, labels: seq<Label>)
    ensures HasSeries(ss + [s], name, labels) <==> HasSeries(ss, name, labels) || (s.name == name && s.labels == labels)
  {
    assert s in ss + [s];
    assert forall t :: t in ss ==> t in ss + [s];
  }

  lemma {:induction false} HoldsStep(os: seq<Observation>, o: Observation, labels: seq<Label>)
    ensures Holds(os + [o], labels) <==> Holds(os, labels) || o.labels == labels
  {
    assert o in os + [o];
    assert forall p :: p in os ==> p in os + [o];
  }

  lemma {:induction false} FirstsDistinct(ss: seq<MetricSample>, name: string)
    ensures forall i, j :: 0 <= i < j < |Firsts(ss, name)| ==> Firsts(ss, name)[i].labels != Firsts(ss, name)[j].labels
  {
    if ss != [] {
      var s, before := ss[|ss| - 1], ss[..|ss| - 1];
      FirstsDistinct(before, name);
      FirstsHold(before, name, s.labels);
      hide HasSeries;
    }
  }

  /** Two printed lines of the metric are the same series. */
  ghost predicate Coincide(ss: seq<MetricSample>, name: string) {
    exists i, j :: 0 <= i < j < |Kept(ss, name)|
      && HeadText(name, Kept(ss, name)[i].labels) == HeadText(name, Kept(ss, name)[j].labels)
  }

  /** The sample at i is the first of its key under the name. */
  predicate LeadsAt(ss: seq<MetricSample>, name: string, i: nat) {
    && i < |ss| && ss[i].name == name
    && forall j :: 0 <= j < i && ss[j].name == name ==> SeriesKey(ss[j].labels) != SeriesKey(ss[i].labels)
  }

  /** The labels belong to the first sample of their key under the name. */
  ghost predicate Leads(ss: seq<MetricSample>, name: string, labels: seq<Label>) {
    exists i :: 0 <= i < |ss| && LeadsAt(ss, name, i) && ss[i].labels == labels
  }

  lemma {:induction false} LeadsStep(ss: seq<MetricSample>, s: MetricSample, name: string, labels: seq<Label>)
    ensures Leads(ss + [s], name, labels) <==>
            Leads(ss, name, labels) || (s.name == name && s.labels == labels && SeriesKey(s.labels) !in Keys(ss, name))
  {
    hide SeriesKey;
    var all, key := ss + [s], SeriesKey(s.labels);
    KeysMean(ss, name, key);
    hide Keys;
    if t :| t in ss && t.name == name && SeriesKey(t.labels) == key {
      var j :| 0 <= j < |ss| && ss[j] == t;
      assert all[j] == t;
    } else {
      assert forall j :: 0 <= j < |ss| ==> all[j] in ss;
    }
    forall i | 0 <= i < |ss| ensures LeadsAt(all, name, i) <==> LeadsAt(ss, name, i) {
      assert forall j :: 0 <= j <= i ==> all[j] == ss[j];
    }
    assert all[|ss|] == s;
    assert LeadsAt(all, name, |ss|) <==> s.name == name && key !in Keys(ss, name);
  }

  /** The guard keeps exactly the labels that lead their key, each once. */
  lemma {:induction false} KeptLead(ss: seq<MetricSample>, name: string, labels: seq<Label>)
    ensures Holds(Kept(ss, name), labels) <==> Leads(ss, name, labels)
  {
    hide SeriesKey, Leads, Holds;
    if ss == [] {
      NothingLeads(name, labels);
    } else {
      var s, before := ss[|ss| - 1], ss[..|ss| - 1];
      KeptLead(before, name, labels);
      LeadsStep(before, s, name, labels);
      assert ss == before + [s];
      if s.name == name && SeriesKey(s.labels) !in Keys(before, name) {
        HoldsStep(Kept(before, name), Observation(s.labels, s.value), labels);
      } else {
        assert Kept(ss, name) == Kept(before, name);
      }
    }
  }

  lemma {:induction false} NothingLeads(name: string, labels: seq<Label>)
    ensures !Leads([], name, labels) && !Holds([], labels)
  {
  }

  lemma {:induction false} KeptDistinct(ss: seq<MetricSample>, name: string)
    ensures forall o :: o in Kept(ss, name) ==> SeriesKey(o.labels) in Keys(ss, name)
    ensures forall i, j :: 0 <= i < j < |Kept(ss, name)| ==>
              SeriesKey(Kept(ss, name)[i].labels) != SeriesKey(Kept(ss, name)[j].labels)
  {
    hide SeriesKey;
    if ss != [] {
      KeptDistinct(ss[..|ss| - 1], name);
    }
  }

  /** Two different label sets of the metric that print alike, each the first sample of its own key. */
  ghost predicate Confusable(ss: seq<MetricSample>, name: string, a: seq<Label>, b: seq<Label>) {
    Leads(ss, name, a) && Leads(ss, name, b) && a != b && StrippedLabels(a) == StrippedLabels(b)
  }

  /** The body repeats a series of the metric exactly when two of its samples, each the first of its key, have different
      labels that differ only in control characters. */
  lemma {:induction false} CoincideIff(ss: seq<MetricSample>, name: string)
    requires Exposition.Named(ss) && Identifier(name)
    ensures Coincide(ss, name) <==> exists a, b :: Confusable(ss, name, a, b)
  {
    var k := Kept(ss, name);
    GroupIsNamed(ss, name);
    KeptDistinct(ss, name);
    hide Kept, Keys, SeriesKey, HeadText, StrippedLabels, Identifier, Keyed, Leads, Exposition.Named;
    if Coincide(ss, name) {
      var i, j :| 0 <= i < j < |k| && HeadText(name, k[i].labels) == HeadText(name, k[j].labels);
      assert k[i] in k && k[j] in k;
      HeadsEqualIff(name, k[i].labels, name, k[j].labels);
      KeptLead(ss, name, k[i].labels);
      KeptLead(ss, name, k[j].labels);
      assert Confusable(ss, name, k[i].labels, k[j].labels);
    }
    if a, b :| Confusable(ss, name, a, b) {
      KeptLead(ss, name, a);
      KeptLead(ss, name, b);
      ConfusableCoincide(ss, name, a, b);
    }
  }

  /** Without U+0002 in values every label set leads its key, so any two samples count. */
  lemma {:induction false} CoincideIffSeparatorFree(ss: seq<MetricSample>, name: string)
    requires Exposition.Named(ss) && SeparatorFree(ss) && Identifier(name)
    ensures Coincide(ss, name) <==>
            exists a, b :: HasSeries(ss, name, a) && HasSeries(ss, name, b) && a != b
              && StrippedLabels(a) == StrippedLabels(b)
  {
    CoincideIff(ss, name);
    hide Coincide, Exposition.Named, SeparatorFree, StrippedLabels, Identifier, HasSeries, Leads;
    forall labels ensures Leads(ss, name, labels) <==> HasSeries(ss, name, labels) {
      KeptAreFirsts(ss, name);
      KeptLead(ss, name, labels);
      FirstsHold(ss, name, labels);
    }
    if a, b :| HasSeries(ss, name, a) && HasSeries(ss, name, b) && a != b && StrippedLabels(a) == StrippedLabels(b) {
      assert Confusable(ss, name, a, b);
    }
  }

  lemma {:induction false} ConfusableCoincide(ss: seq<MetricSample>, name: string, a: seq<Label>, b: seq<Label>)
    requires Identifier(name) && forall o :: o in Kept(ss, name) ==> Keyed(o.labels)
    requires Holds(Kept(ss, name), a) && Holds(Kept(ss, name), b) && a != b && StrippedLabels(a) == StrippedLabels(b)
    ensures Coincide(ss, name)
  {
    hide Kept, HeadText, StrippedLabels, Identifier, Keyed;
    var k := Kept(ss, name);
    var o :| o in k && o.labels == a;
    var p :| p in k && p.labels == b;
    var i :| 0 <= i < |k| && k[i] == o;
    var j :| 0 <= j < |k| && k[j] == p;
    HeadsEqualIff(name, a, name, b);
    assert i < j || j < i;
  }

  /** The guard does not make every body valid: one control character is enough, a separator of the key or another. */
  lemma {:induction false} GuardMissesControls(n: u64, m: u64, c: char)
    requires Control(c) && c != '\n'
    ensures Coincide([MetricSample("m", "", Gauge, [Label("a", "x")], UInt(n)),
                      MetricSample("m", "", Gauge, [Label("a", "x" + [c])], UInt(m))], "m")
  {
    hide SeriesKey;
    var s := MetricSample("m", "", Gauge, [Label("a", "x")], UInt(n));
    var t := MetricSample("m", "", Gauge, [Label("a", "x" + [c])], UInt(m));
    ControlVanishes(c);
    KeysOfPair(c);
    assert LeadsAt([s, t], "m", 0) && LeadsAt([s, t], "m", 1);
    assert [s, t][0].labels == s.labels && [s, t][1].labels == t.labels;
    CoincideIff([s, t], "m");
    assert s.labels[0].value != t.labels[0].value;
    assert Confusable([s, t], "m", s.labels, t.labels);
  }

  lemma {:induction false} KeysOfPair(c: char)
    ensures SeriesKey([Label("a", "x")]) != SeriesKey([Label("a", "x" + [c])])
  {
    var a, b := [Label("a", "x")], [Label("a", "x" + [c])];
    assert SeriesKey(a[1..]) == [] && SeriesKey(b[1..]) == [];
    assert |SeriesKey(a)| == 4 && |SeriesKey(b)| == 5;
  }

  lemma {:induction false} ControlVanishes(c: char)
    requires Control(c) && c != '\n'
    ensures StrippedLabels([Label("a", "x")]) == StrippedLabels([Label("a", "x" + [c])])
  {
    assert ("x" + [c])[1..] == [c] && [c][1..] == [] && "x"[1..] == [];
    assert Stripped([c]) == [] && Stripped([]) == [];
    assert Stripped("x") == "x" && Stripped("x" + [c]) == "x";
  }

  // ---- duplicate_series ----

  lemma {:induction false} DropsStep(ss: seq<MetricSample>, s: MetricSample, n: string)
    ensures Drops(ss + [s], n) <==> Drops(ss, n) || (s.name == n && SeriesKey(s.labels) in Keys(ss, n))
    ensures Keys(ss + [s], n) == Keys(ss, n) + if s.name == n then {SeriesKey(s.labels)} else {}
  {
    hide SeriesKey;
    assert (ss + [s])[..|ss|] == ss;
    KeptIsBounded(ss, n);
  }

  lemma {:induction false} KeptIsBounded(ss: seq<MetricSample>, n: string)
    ensures |Kept(ss, n)| <= Count(ss, n)
  {
    hide SeriesKey;
    if ss != [] {
      KeptIsBounded(ss[..|ss| - 1], n);
    }
  }

  /** Reports, in ascending order, exactly the metrics for which the encoder drops a line. */
  method DuplicateSeries(samples: seq<MetricSample>) returns (dups: seq<string>)
    ensures Ascending(dups)
    ensures forall n :: n in dups <==> Drops(samples, n)
  {
    var seen: set<(string, string)> := {};
    dups := [];
    assert samples[..0] == [];
    forall n ensures !Drops([], n) && Keys([], n) == {} {
    }
    hide SeriesKey, Drops, Keys, Insert, Less;
    for i := 0 to |samples|
      invariant Ascending(dups)
      invariant forall n :: n in dups <==> Drops(samples[..i], n)
      invariant forall p :: p in seen <==> p.1 in Keys(samples[..i], p.0)
    {
      var s := samples[i];
      assert samples[..i + 1] == samples[..i] + [s];
      forall n ensures Drops(samples[..i + 1], n)
             <==> Drops(samples[..i], n) || (s.name == n && SeriesKey(s.labels) in Keys(samples[..i], n))
        ensures Keys(samples[..i + 1], n) == Keys(samples[..i], n) + if s.name == n then {SeriesKey(s.labels)} else {}
      {
        DropsStep(samples[..i], s, n);
      }
      InsertKeeps(dups, s.name);
      var key := BuildSeriesKey(s.labels);
      if (s.name, key) in seen {
        dups := Insert(dups, s.name);
      }
      seen := seen + {(s.name, key)};
    }
    assert samples[..|samples|] == samples;
  }

  // ---- The adapter ----

  class PrometheusRegistryAdapter {
    var encoded: string

    constructor ()
      ensures encoded == []
    {
      encoded := [];
    }

    /** Replaces the whole body; the metrics returned are those the warning names. */
    method UpdateSamples(samples: seq<MetricSample>) returns (warned: seq<string>)
      modifies this
      ensures encoded == Body(samples)
      ensures Ascending(warned) && forall n :: n in warned <==> Drops(samples, n)
    {
      warned := DuplicateSeries(samples);
      encoded := EncodeSamples(samples);
    }
  }
}
