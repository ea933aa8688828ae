/** A reader of the text format 0.0.4, and what it recovers from the encoder's body. */
module Exposition {
  import opened Wrappers
  import opened Text
  import opened Registry

  datatype Item =
    | HelpItem(name: string, help: string)
    | TypeItem(name: string, kind: string)
    | SampleItem(name: string, labels: seq<Label>, value: string)

  /** Something read, and what is left of the line. */
  datatype Cut<T> = Cut(value: T, rest: string)

  // ---- The reader ----

  function Unescaped(c: char): Option<char> {
    if c == '\\' || c == '"' then Some(c) else if c == 'n' then Some('\n') else None
  }

  /** A quoted label value, from behind its opening quote. */
  function ReadQuoted(s: string): (r: Option<Cut<string>>)
    ensures r.Some? ==> |r.value.rest| < |s|
  {
    if s == [] then None
    else if s[0] == '"' then Some(Cut([], s[1..]))
    else if s[0] == '\\' then
      if |s| < 2 || Unescaped(s[1]).None? then None
      else
        var r := ReadQuoted(s[2..]);
        if r.None? then None else Some(Cut([Unescaped(s[1]).value] + r.value.value, r.value.rest))
    else
      var r := ReadQuoted(s[1..]);
      if r.None? then None else Some(Cut([s[0]] + r.value.value, r.value.rest))
  }

  function ReadHelp(s: string): Option<string> {
    if s == [] then Some([])
    else if s[0] == '\\' then
      if |s| < 2 || Unescaped(s[1]).None? then None
      else
        var r := ReadHelp(s[2..]);
        if r.None? then None else Some([Unescaped(s[1]).value] + r.value)
    else
      var r := ReadHelp(s[1..]);
      if r.None? then None else Some([s[0]] + r.value)
  }

  /** The labels from behind the opening brace, through the closing one. */
  function ReadLabels(s: string): Option<Cut<seq<Label>>>
    decreases |s|
  {
    var key := Before(s, '=');
    if |s| < |key| + 2 || s[|key| + 1] != '"' then None
    else
      var v := ReadQuoted(s[|key| + 2..]);
      if v.None? || v.value.rest == [] then None
      else if v.value.rest[0] == '}' then Some(Cut([Label(key, v.value.value)], v.value.rest[1..]))
      else if v.value.rest[0] != ',' then None
      else
        var more := ReadLabels(v.value.rest[1..]);
        if more.None? then None else Some(Cut([Label(key, v.value.value)] + more.value.value, more.value.rest))
  }

  function NameOf(line: string): (r: string)
    ensures |r| <= |line|
  {
    if line == [] || line[0] == '{' || line[0] == ' ' then [] else [line[0]] + NameOf(line[1..])
  }

  function ReadSample(line: string): Option<Item> {
    var name := NameOf(line);
    var rest := line[|name|..];
    if rest == [] then None
    else if rest[0] == ' ' then Some(SampleItem(name, [], rest[1..]))
    else
      var labels := ReadLabels(rest[1..]);
      if labels.None? || labels.value.rest == [] || labels.value.rest[0] != ' ' then None
      else Some(SampleItem(name, labels.value.value, labels.value.rest[1..]))
  }

  function ReadLine(line: string): Option<Item> {
    if "# HELP " <= line then
      var name := Before(line[7..], ' ');
      if |line| < 8 + |name| then None
      else
        var help := ReadHelp(line[8 + |name|..]);
        if help.None? then None else Some(HelpItem(name, help.value))
    else if "# TYPE " <= line then
      var name := Before(line[7..], ' ');
      if |line| < 8 + |name| then None else Some(TypeItem(name, line[8 + |name|..]))
    else ReadSample(line)
  }

  /** Reads a body line by line; every line must end and must parse. */
  function ReadBody(text: string): Option<seq<Item>> {
    if text == [] then Some([])
    else
      var line := Before(text, '\n');
      if |line| == |text| then None
      else
        var item, more := ReadLine(line), ReadBody(text[|line| + 1..]);
        if item.None? || more.None? then None else Some([item.value] + more.value)
  }

  // ---- What the encoder's body should say ----

  predicate NameChar(c: char) {
    'a' <= c <= 'z' || 'A' <= c <= 'Z' || '0' <= c <= '9' || c == '_' || c == ':'
  }

  predicate Identifier(s: string) {
    s != [] && forall c :: c in s ==> NameChar(c)
  }

  predicate Keyed(labels: seq<Label>) {
    forall l :: l in labels ==> Identifier(l.key)
  }

  /** Names and label keys are identifiers; nothing is asked of help texts and label values. */
  predicate Named(ss: seq<MetricSample>) {
    forall s :: s in ss ==> Identifier(s.name) && Keyed(s.labels)
  }

  function StrippedLabels(labels: seq<Label>): seq<Label> {
    seq(|labels|, i requires 0 <= i < |labels| => Label(labels[i].key, Stripped(labels[i].value)))
  }

  function SampleItems(name: string, os: seq<Observation>): seq<Item> {
    if os == [] then []
    else [SampleItem(name, StrippedLabels(os[0].labels), ValueText(os[0].value))] + SampleItems(name, os[1..])
  }

  function GroupItems(name: string, leader: MetricSample, os: seq<Observation>): seq<Item> {
    [HelpItem(name, leader.help), TypeItem(name, KindText(leader.kind))] + SampleItems(name, os)
  }

  function ItemsOf(ss: seq<MetricSample>, names: seq<string>): seq<Item>
    requires forall n :: n in names ==> Leader(ss, n).Some?
  {
    if names == [] then []
    else GroupItems(names[0], Leader(ss, names[0]).value, Kept(ss, names[0])) + ItemsOf(ss, names[1..])
  }

  // ---- The round trip, inside out ----

  lemma {:induction false} QuotedReadsBack(v: string, rest: string)
    ensures ReadQuoted(EscapeValue(v) + "\"" + rest) == Some(Cut(Stripped(v), rest))
  {
    hide EscapeChar, ReadQuoted;
    if v == [] {
      assert EscapeValue(v) + "\"" + rest == "\"" + rest;
      ClosingQuote(rest);
    } else {
      QuotedReadsBack(v[1..], rest);
      var t := EscapeValue(v[1..]) + "\"" + rest;
      QuotedStep(v[0], t, Stripped(v[1..]), rest);
      assert EscapeValue(v) + "\"" + rest == EscapeChar(v[0]) + t;
    }
  }

  lemma {:induction false} ClosingQuote(rest: string)
    ensures ReadQuoted("\"" + rest) == Some(Cut([], rest))
  {
    assert ("\"" + rest)[1..] == rest;
  }

  lemma {:induction false} QuotedStep(c: char, t: string, v: string, rest: string)
    requires ReadQuoted(t) == Some(Cut(v, rest))
    ensures ReadQuoted(EscapeChar(c) + t) == Some(Cut((if c == '\n' || !Control(c) then [c] else []) + v, rest))
  {
    var s := EscapeChar(c) + t;
    if |EscapeChar(c)| == 2 {
      assert s[2..] == t;
    } else if |EscapeChar(c)| == 1 {
      assert s[1..] == t;
    } else {
      assert s == t;
      assert [] + v == v;
    }
  }

  lemma {:induction false} HelpReadsBack(h: string)
    ensures ReadHelp(EscapeHelpText(h)) == Some(h)
    ensures '\n' !in EscapeHelpText(h)
  {
    if h != [] {
      HelpReadsBack(h[1..]);
      var t := EscapeHelpText(h[1..]);
      var s := EscapeHelpChar(h[0]) + t;
      if |EscapeHelpChar(h[0])| == 2 {
        assert s[2..] == t;
      } else {
        assert s[1..] == t;
      }
      assert h == [h[0]] + h[1..];
    }
  }

  /** The reader over one printed label and what follows it. */
  lemma {:induction false} LabelReadsBack(l: Label, rest: string)
    requires Identifier(l.key) && rest != []
    ensures var read, own := ReadLabels(LabelText(l) + rest), Label(l.key, Stripped(l.value));
            && (rest[0] == '}' ==> read == Some(Cut([own], rest[1..])))
            && (rest[0] == ',' && ReadLabels(rest[1..]).Some? ==>
                  read == Some(Cut([own] + ReadLabels(rest[1..]).value.value, ReadLabels(rest[1..]).value.rest)))
  {
    hide EscapeValue, ReadQuoted, Stripped, Identifier, Before;
    NoEquals(l.key);
    var quoted := EscapeValue(l.value) + "\"" + rest;
    var s := LabelText(l) + rest;
    assert s == l.key + ['='] + ("\"" + quoted);
    BeforeSeparator(l.key, '=', "\"" + quoted);
    assert s[|l.key| + 2..] == quoted;
    QuotedReadsBack(l.value, rest);
  }

  lemma {:induction false} NoEquals(key: string)
    requires Identifier(key)
    ensures '=' !in key
  {
  }

  lemma {:induction false} StrippedCons(labels: seq<Label>)
    requires labels != []
    ensures StrippedLabels(labels) == [Label(labels[0].key, Stripped(labels[0].value))] + StrippedLabels(labels[1..])
    ensures StrippedLabels([]) == []
  {
  }

  lemma {:induction false} LabelsReadBack(labels: seq<Label>, rest: string)
    requires Keyed(labels) && labels != []
    ensures ReadLabels(LabelsText(labels) + "}" + rest) == Some(Cut(StrippedLabels(labels), rest))
    decreases |labels|
  {
    hide LabelText, Stripped, Identifier, StrippedLabels, ReadLabels;
    var l := labels[0];
    StrippedCons(labels);
    if |labels| == 1 {
      assert labels[1..] == [];
      assert StrippedLabels(labels) == [Label(l.key, Stripped(l.value))];
      assert LabelsText(labels) + "}" + rest == LabelText(l) + ("}" + rest);
      LabelReadsBack(l, "}" + rest);
      assert ("}" + rest)[1..] == rest;
    } else {
      var t := LabelsText(labels[1..]) + "}" + rest;
      assert LabelsText(labels) + "}" + rest == LabelText(l) + ("," + t);
      assert ("," + t)[1..] == t;
      LabelsReadBack(labels[1..], rest);
      LabelReadsBack(l, "," + t);
    }
  }

  lemma {:induction false} NameReadsBack(name: string, rest: string)
    requires Identifier(name) || name == []
    requires rest != [] && (rest[0] == ' ' || rest[0] == '{')
    ensures NameOf(name + rest) == name
  {
    if name == [] {
      assert name + rest == rest;
    } else {
      assert NameChar(name[0]);
      NameReadsBack(name[1..], rest);
      assert (name + rest)[1..] == name[1..] + rest;
    }
  }

  /** A sample line is read as its name, its labels without control characters, and its value. */
  lemma {:induction false} SampleReadsBack(name: string, labels: seq<Label>, value: string)
    requires Identifier(name) && Keyed(labels)
    ensures ReadSample(HeadText(name, labels) + " " + value) == Some(SampleItem(name, StrippedLabels(labels), value))
  {
    hide LabelsText, ReadLabels, Identifier, NameOf;
    var line := HeadText(name, labels) + " " + value;
    if labels == [] {
      var rest := " " + value;
      assert line == name + rest;
      NameReadsBack(name, rest);
      assert StrippedLabels(labels) == [];
    } else {
      var inner := LabelsText(labels) + "}" + (" " + value);
      var rest := "{" + inner;
      assert line == name + rest;
      NameReadsBack(name, rest);
      assert rest[1..] == inner;
      LabelsReadBack(labels, " " + value);
    }
  }

  lemma {:induction false} NoNewline(name: string, labels: seq<Label>)
    requires Identifier(name) && Keyed(labels)
    ensures '\n' !in HeadText(name, labels) && '\n' !in name && '#' !in name && ' ' !in name
    ensures '\n' !in LabelsText(labels)
  {
    hide EscapeValue;
    if labels != [] {
      var l := labels[0];
      assert Identifier(l.key);
      EscapedStripped(l.value);
      NoNewline(name, labels[1..]);
    }
  }

  lemma {:induction false} SampleLineReadsBack(name: string, o: Observation)
    requires Identifier(name) && Keyed(o.labels)
    ensures var line := HeadText(name, o.labels) + " " + ValueText(o.value);
            && ReadLine(line) == Some(SampleItem(name, StrippedLabels(o.labels), ValueText(o.value)))
            && '\n' !in line
  {
    hide LabelsText, Numeral, ReadSample, ReadHelp;
    NoNewline(name, o.labels);
    SampleReadsBack(name, o.labels, ValueText(o.value));
    var line := HeadText(name, o.labels) + " " + ValueText(o.value);
    assert line[0] == name[0] && name[0] in name;
    if o.value.UInt? {
      NumeralIsAlphanumeric(o.value.n, 10);
    }
  }

  lemma {:induction false} HeaderReadsBack(prefix: string, name: string, rest: string)
    requires |prefix| == 7 && Identifier(name)
    ensures var line := prefix + name + " " + rest;
            prefix <= line && Before(line[7..], ' ') == name && |line| >= 8 + |name| && line[8 + |name|..] == rest
  {
    assert ' ' !in name;
    BeforeSeparator(name, ' ', rest);
    var line := prefix + name + " " + rest;
    assert line[7..] == name + " " + rest;
  }

  lemma {:induction false} HelpLineReadsBack(name: string, help: string)
    requires Identifier(name)
    ensures var line := "# HELP " + name + " " + EscapeHelpText(help);
            ReadLine(line) == Some(HelpItem(name, help)) && '\n' !in line
  {
    hide EscapeHelpText, ReadHelp, Identifier;
    HelpReadsBack(help);
    HeaderReadsBack("# HELP ", name, EscapeHelpText(help));
    NoNewline(name, []);
  }

  lemma {:induction false} TypeLineReadsBack(name: string, kind: MetricKind)
    requires Identifier(name)
    ensures var line := "# TYPE " + name + " " + KindText(kind);
            ReadLine(line) == Some(TypeItem(name, KindText(kind))) && '\n' !in line
  {
    KindIsOneLine(kind);
    hide Identifier, KindText, ReadHelp, ReadSample;
    HeaderReadsBack("# TYPE ", name, KindText(kind));
    NoNewline(name, []);
    assert ("# TYPE " + name + " " + KindText(kind))[2] == 'T';
  }

  lemma {:induction false} KindIsOneLine(kind: MetricKind)
    ensures '\n' !in KindText(kind)
  {
  }

  lemma {:induction false} BodyCons(line: string, item: Item, rest: string)
    requires '\n' !in line && ReadLine(line) == Some(item)
    ensures ReadBody(line + "\n" + rest) == match ReadBody(rest) case None => None
            case Some(more) => Some([item] + more)
  {
    hide ReadLine;
    BeforeSeparator(line, '\n', rest);
    assert (line + "\n" + rest)[|line| + 1..] == rest;
  }

  lemma {:induction false} SamplesReadBack(name: string, os: seq<Observation>, rest: string)
    requires Identifier(name) && (forall o :: o in os ==> Keyed(o.labels)) && ReadBody(rest).Some?
    ensures ReadBody(SampleLines(name, os) + rest) == Some(SampleItems(name, os) + ReadBody(rest).value)
  {
    hide ReadBody, ReadLine, HeadText, ValueText, Identifier, Keyed, StrippedLabels;
    if os == [] {
      assert SampleLines(name, os) + rest == rest;
      assert SampleItems(name, os) + ReadBody(rest).value == ReadBody(rest).value;
    } else {
      SamplesReadBack(name, os[1..], rest);
      SampleLineReadsBack(name, os[0]);
      var line := HeadText(name, os[0].labels) + " " + ValueText(os[0].value);
      var more := SampleLines(name, os[1..]) + rest;
      var item := SampleItem(name, StrippedLabels(os[0].labels), ValueText(os[0].value));
      BodyCons(line, item, more);
      assert [item] + (SampleItems(name, os[1..]) + ReadBody(rest).value)
             == SampleItems(name, os) + ReadBody(rest).value;
      assert SampleLines(name, os) + rest == line + "\n" + more;
    }
  }

  lemma {:induction false} GroupReadsBack(name: string, leader: MetricSample, os: seq<Observation>, rest: string)
    requires Identifier(name) && (forall o :: o in os ==> Keyed(o.labels)) && ReadBody(rest).Some?
    ensures ReadBody(GroupText(name, leader, os) + rest) == Some(GroupItems(name, leader, os) + ReadBody(rest).value)
  {
    hide ReadBody, ReadLine, EscapeHelpText, KindText, SampleLines, SampleItems, Identifier, Keyed;
    SamplesReadBack(name, os, rest);
    var samples := SampleLines(name, os) + rest;
    var typeLine := "# TYPE " + name + " " + KindText(leader.kind);
    TypeLineReadsBack(name, leader.kind);
    BodyCons(typeLine, TypeItem(name, KindText(leader.kind)), samples);
    var helpLine := "# HELP " + name + " " + EscapeHelpText(leader.help);
    HelpLineReadsBack(name, leader.help);
    BodyCons(helpLine, HelpItem(name, leader.help), typeLine + "\n" + samples);
    var help, kind := HelpItem(name, leader.help), TypeItem(name, KindText(leader.kind));
    var items := SampleItems(name, os) + ReadBody(rest).value;
    assert [help] + ([kind] + items) == GroupItems(name, leader, os) + ReadBody(rest).value;
    assert GroupText(name, leader, os) + rest == helpLine + "\n" + (typeLine + "\n" + samples);
  }

  lemma {:induction false} GroupIsNamed(ss: seq<MetricSample>, name: string)
    requires Named(ss)
    ensures forall o :: o in Kept(ss, name) ==> Keyed(o.labels)
    ensures Leader(ss, name).Some? ==> Identifier(name)
  {
    hide SeriesKey, Identifier, Keyed;
    if ss != [] {
      GroupIsNamed(ss[..|ss| - 1], name);
    }
  }

  lemma {:induction false} GroupsReadBack(ss: seq<MetricSample>, names: seq<string>)
    requires Named(ss) && forall n :: n in names ==> Leader(ss, n).Some?
    ensures ReadBody(GroupsText(ss, names)) == Some(ItemsOf(ss, names))
  {
    hide GroupText, GroupItems, Kept, Leader, Identifier, Keyed, Named;
    if names == [] {
      assert ReadBody([]) == Some([]);
    } else {
      GroupsReadBack(ss, names[1..]);
      GroupIsNamed(ss, names[0]);
      GroupReadsBack(names[0], Leader(ss, names[0]).value, Kept(ss, names[0]), GroupsText(ss, names[1..]));
    }
  }

  /** Text round trip: for any samples whatever, the reader recovers per ascending metric name one HELP, one TYPE and
      the kept observations in order, the label values without their control characters. */
  lemma {:induction false} BodyReadsBack(ss: seq<MetricSample>)
    requires Named(ss)
    ensures Ascending(Names(ss))
    ensures forall n :: n in Names(ss) <==> Leader(ss, n).Some?
    ensures ReadBody(Body(ss)) == Some(ItemsOf(ss, Names(ss)))
  {
    NamesMean(ss);
    GroupsReadBack(ss, Names(ss));
  }
}
