/** When two label sets share the encoder's key: the separators it relies on may also stand inside a value. */
module KeyText {
  import opened Wrappers
  import opened Text
  import opened Registry
  import opened Exposition

  /** At i the value looks as if another label began: U+0002, an identifier, U+0001. */
  predicate BreaksAt(v: string, i: nat) {
    && i < |v| && v[i] == STX
    && |Before(v[i + 1..], SOH)| < |v| - i - 1 && Identifier(Before(v[i + 1..], SOH))
  }

  predicate Unbroken(v: string) {
    forall i :: 0 <= i < |v| ==> !BreaksAt(v, i)
  }

  function FirstBreak(v: string, from: nat): (i: nat)
    requires from <= |v|
    ensures from <= i <= |v| && (i < |v| ==> BreaksAt(v, i)) && forall j :: from <= j < i ==> !BreaksAt(v, j)
    decreases |v| - from
  {
    if from == |v| || BreaksAt(v, from) then from else FirstBreak(v, from + 1)
  }

  /** A label cut at the breaks of its value. */
  function Pieces(key: string, v: string): seq<Label>
    decreases |v|
  {
    var i := FirstBreak(v, 0);
    if i == |v| then [Label(key, v)]
    else
      var next := Before(v[i + 1..], SOH);
      [Label(key, v[..i])] + Pieces(next, v[i + 1..][|next| + 1..])
  }

  function AllPieces(labels: seq<Label>): seq<Label> {
    if labels == [] then [] else Pieces(labels[0].key, labels[0].value) + AllPieces(labels[1..])
  }

  predicate AllUnbroken(labels: seq<Label>) {
    forall l :: l in labels ==> Unbroken(l.value)
  }

  // ---- Cutting keeps the key ----

  lemma {:induction false} KeyCons(key: string, v: string, more: seq<Label>)
    ensures SeriesKey([Label(key, v)] + more) == key + [SOH] + v + [STX] + SeriesKey(more)
  {
    assert ([Label(key, v)] + more)[1..] == more;
  }

  lemma {:induction false} PiecesKeepKey(key: string, v: string, more: seq<Label>)
    ensures SeriesKey(Pieces(key, v) + more) == key + [SOH] + v + [STX] + SeriesKey(more)
    decreases |v|
  {
    hide BreaksAt, Identifier, SeriesKey, Before;
    var i := FirstBreak(v, 0);
    if i == |v| {
      KeyCons(key, v, more);
    } else {
      var next := Before(v[i + 1..], SOH);
      BreakParts(v, i);
      var tail := v[i + 1..][|next| + 1..];
      var rest := Pieces(next, tail);
      PiecesKeepKey(next, tail, more);
      Associative([Label(key, v[..i])], rest, more);
      KeyCons(key, v[..i], rest + more);
      KeyOfCut(key, v, i, next, tail, SeriesKey(more));
    }
  }

  lemma {:induction false} BreakParts(v: string, i: nat)
    requires BreaksAt(v, i)
    ensures var next := Before(v[i + 1..], SOH);
            v[i + 1..] == next + [SOH] + v[i + 1..][|next| + 1..] && v == v[..i] + [STX] + v[i + 1..]
              && Identifier(next)
  {
    hide Identifier;
  }

  lemma {:induction false} KeyOfCut(key: string, v: string, i: nat, next: string, tail: string, more: string)
    requires i < |v| && v == v[..i] + [STX] + (next + [SOH] + tail)
    ensures key + [SOH] + v[..i] + [STX] + (next + [SOH] + tail + [STX] + more) == key + [SOH] + v + [STX] + more
  {
  }

  lemma {:induction false} AllPiecesKeepKey(labels: seq<Label>)
    ensures SeriesKey(AllPieces(labels)) == SeriesKey(labels)
  {
    hide Pieces;
    if labels != [] {
      AllPiecesKeepKey(labels[1..]);
      PiecesKeepKey(labels[0].key, labels[0].value, AllPieces(labels[1..]));
    }
  }

  // ---- Pieces have no breaks left ----

  lemma {:induction false} BreakStays(v: string, i: nat, j: nat)
    requires j < i <= |v| && BreaksAt(v[..i], j)
    ensures BreaksAt(v, j)
  {
    hide Identifier, Before;
    var short, long := v[..i][j + 1..], v[j + 1..];
    assert short <= long;
    assert SOH in short;
    BeforeInPrefix(short, long, SOH);
  }

  lemma {:induction false} FrontIsUnbroken(v: string, i: nat)
    requires i <= |v| && forall j :: 0 <= j < i ==> !BreaksAt(v, j)
    ensures Unbroken(v[..i])
  {
    hide BreaksAt;
    forall j | 0 <= j < i ensures !BreaksAt(v[..i], j) {
      if BreaksAt(v[..i], j) {
        BreakStays(v, i, j);
      }
    }
  }

  lemma {:induction false} PiecesAreUnbroken(key: string, v: string)
    requires Identifier(key)
    ensures AllUnbroken(Pieces(key, v)) && Keyed(Pieces(key, v))
    decreases |v|
  {
    hide Unbroken, Identifier, BreaksAt, Before;
    var i := FirstBreak(v, 0);
    FrontIsUnbroken(v, i);
    assert v[..|v|] == v;
    if i < |v| {
      BreakParts(v, i);
      var next := Before(v[i + 1..], SOH);
      PiecesAreUnbroken(next, v[i + 1..][|next| + 1..]);
    }
  }

  lemma {:induction false} AllPiecesAreUnbroken(labels: seq<Label>)
    requires Keyed(labels)
    ensures AllUnbroken(AllPieces(labels)) && Keyed(AllPieces(labels))
  {
    hide Unbroken, Identifier, Pieces;
    if labels != [] {
      PiecesAreUnbroken(labels[0].key, labels[0].value);
      AllPiecesAreUnbroken(labels[1..]);
    }
  }

  // ---- Without breaks the key is injective ----

  lemma {:induction false} KeyFront(labels: seq<Label>)
    requires Keyed(labels) && labels != []
    ensures var key := SeriesKey(labels);
            var k := Before(key, SOH);
            && k == labels[0].key && |key| > |k|
            && key[|k| + 1..] == labels[0].value + [STX] + SeriesKey(labels[1..])
    ensures SOH !in labels[0].key && STX !in labels[0].key
  {
    var l, tail := labels[0], SeriesKey(labels[1..]);
    assert Identifier(l.key);
    hide Before;
    assert SeriesKey(labels) == l.key + [SOH] + (l.value + [STX] + tail);
    BeforeSeparator(l.key, SOH, l.value + [STX] + tail);
  }

  /** Of two values read from one text, the longer one breaks where the shorter one ends. */
  lemma {:induction false} LongerBreaks(v: string, a: seq<Label>, w: string, b: seq<Label>)
    requires Keyed(a) && |v| < |w| && v + [STX] + SeriesKey(a) == w + [STX] + SeriesKey(b)
    ensures BreaksAt(w, |v|)
  {
    hide SeriesKey, Before;
    var x, r, tail := v + [STX] + SeriesKey(a), w[|v| + 1..], SeriesKey(b);
    assert w[|v|] == x[|v|] == STX;
    assert x[|v| + 1..] == SeriesKey(a) && x[|v| + 1..] == r + [STX] + tail;
    KeyEmptyIff(a);
    KeyFront(a);
    var k := a[0].key;
    assert Identifier(k);
    KeyBegins(a);
    hide Identifier;
    FrontFits(k, SeriesKey(a), r, tail);
    BeforeSeparator(k, SOH, r[|k| + 1..]);
  }

  lemma {:induction false} KeyBegins(a: seq<Label>)
    requires a != []
    ensures a[0].key + [SOH] <= SeriesKey(a)
  {
  }

  /** A text that begins with k and U+0001, without U+0002 before, has all of that in front of its first U+0002. */
  lemma {:induction false} FrontFits(k: string, s: string, r: string, tail: string)
    requires k + [SOH] <= s && STX !in k && s == r + [STX] + tail
    ensures |k| < |r| && r == k + [SOH] + r[|k| + 1..]
  {
    assert s[|r|] == STX;
    assert s[|k|] == SOH;
    assert forall i :: 0 <= i < |k| ==> s[i] == k[i] != STX;
  }

  lemma {:induction false} KeyEmptyIff(labels: seq<Label>)
    ensures SeriesKey(labels) == [] <==> labels == []
  {
  }

  lemma {:induction false} UnbrokenKeyInjective(a: seq<Label>, b: seq<Label>)
    requires Keyed(a) && Keyed(b) && AllUnbroken(a) && AllUnbroken(b) && SeriesKey(a) == SeriesKey(b)
    ensures a == b
    decreases |a|
  {
    hide SeriesKey, Identifier, Before, BreaksAt;
    KeyEmptyIff(a);
    KeyEmptyIff(b);
    if a != [] && b != [] {
      KeyFront(a);
      KeyFront(b);
      var v, w := a[0].value, b[0].value;
      if |v| < |w| {
        LongerBreaks(v, a[1..], w, b[1..]);
      } else if |w| < |v| {
        LongerBreaks(w, b[1..], v, a[1..]);
      } else {
        SameLength(v, SeriesKey(a[1..]), w, SeriesKey(b[1..]));
        UnbrokenKeyInjective(a[1..], b[1..]);
        assert a == [a[0]] + a[1..] && b == [b[0]] + b[1..];
      }
    }
  }

  lemma {:induction false} SameLength(v: string, a: string, w: string, b: string)
    requires |v| == |w| && v + [STX] + a == w + [STX] + b
    ensures v == w && a == b
  {
    var x := v + [STX] + a;
    assert x[..|v|] == v && x[..|v|] == w && x[|v| + 1..] == a && x[|v| + 1..] == b;
  }

  /** Two label sets share their key exactly when they cut into the same pieces at their breaks. */
  lemma {:induction false} KeysEqualIff(a: seq<Label>, b: seq<Label>)
    requires Keyed(a) && Keyed(b)
    ensures SeriesKey(a) == SeriesKey(b) <==> AllPieces(a) == AllPieces(b)
  {
    hide SeriesKey, AllPieces;
    AllPiecesKeepKey(a);
    AllPiecesKeepKey(b);
    AllPiecesAreUnbroken(a);
    AllPiecesAreUnbroken(b);
    if SeriesKey(a) == SeriesKey(b) {
      UnbrokenKeyInjective(AllPieces(a), AllPieces(b));
    }
  }

  /** A label set is its own only piece list exactly when no value breaks; otherwise its pieces are another set of
      labels with the same key. */
  lemma {:induction false} CutsItselfIff(labels: seq<Label>)
    requires Keyed(labels)
    ensures AllPieces(labels) == labels <==> AllUnbroken(labels)
    ensures AllPieces(AllPieces(labels)) == AllPieces(labels)
  {
    hide SeriesKey, AllPieces, Unbroken;
    AllPiecesAreUnbroken(labels);
    AllPiecesKeepKey(labels);
    AllPiecesKeepKey(AllPieces(labels));
    AllPiecesAreUnbroken(AllPieces(labels));
    UnbrokenKeyInjective(AllPieces(AllPieces(labels)), AllPieces(labels));
    if AllUnbroken(labels) {
      UnbrokenKeyInjective(AllPieces(labels), labels);
    }
  }
}
