/** Netlink attributes: the aligned type-length-value records of crates/nlx-netlink/src/wire.rs,
    the `push_nla` builder the collectors share, and trees of nested attributes. */
module Wire {
  import opened Wrappers
  import opened Bytes
  import Text

  // The headers in front of the attributes of a message.
  const NFGENMSG_LEN: nat := 4
  const GENL_HDRLEN: nat := 4

  const NLA_HDRLEN := 4
  /** 0x1FFF keeps the low 13 bits, so masking is a remainder. */
  const NLA_TYPE_MODULUS := 0x2000
  const NLA_F_NESTED := 0x8000

  /** `(len + 3) & !3` */
  function Align4(len: nat): (r: nat)
    ensures len <= r < len + 4 && r % 4 == 0
  {
    (len + 3) / 4 * 4
  }

  /** One attribute as the iterator yields it: flags stripped, header and padding removed. */
  datatype Nla = Nla(ty: nat, payload: bytes)

  /** The octets after the first n, none when fewer are left. */
  function Drop(buf: bytes, n: nat): (rest: bytes)
    ensures |rest| <= |buf| && (n > 0 && buf != [] ==> |rest| < |buf|)
  {
    if n >= |buf| then [] else buf[n..]
  }

  /** An attribute starts here: a whole header whose length covers the header and stays inside the buffer. */
  predicate StartsAttr(buf: bytes) {
    NLA_HDRLEN <= |buf| && NLA_HDRLEN <= FromLE(buf[0..2]) <= |buf|
  }

  /** Everything the iterator yields on a buffer. */
  function Attrs(buf: bytes): (r: seq<Nla>)
    ensures Weight(r) <= |buf|
    decreases |buf|
  {
    if !StartsAttr(buf) then []
    else
      var len := FromLE(buf[0..2]);
      var r := [Nla(FromLE(buf[2..4]) % NLA_TYPE_MODULUS, buf[NLA_HDRLEN..len])] + Attrs(Drop(buf, Align4(len)));
      assert r[1..] == Attrs(Drop(buf, Align4(len)));
      r
  }

  /** The octets a list of attributes occupies without padding. */
  function Weight(nlas: seq<Nla>): nat {
    if nlas == [] then 0 else NLA_HDRLEN + |nlas[0].payload| + Weight(nlas[1..])
  }

  class NlaIter {
    var buf: bytes

    constructor (buf: bytes)
      ensures this.buf == buf
    {
      this.buf := buf;
    }

    /** Yields the attributes of the buffer one by one, and None exactly when none is left. */
    method Next() returns (r: Option<Nla>)
      modifies this
      ensures r.None? ==> Attrs(old(buf)) == [] && buf == old(buf)
      ensures r.Some? ==> Attrs(old(buf)) == [r.value] + Attrs(buf) && |buf| < |old(buf)|
    {
      if |buf| < NLA_HDRLEN {
        return None;
      }
      var nlaLen := FromLE(buf[0..2]);
      if nlaLen < NLA_HDRLEN || nlaLen > |buf| {
        return None;
      }
      var rawType := FromLE(buf[2..4]);
      var payload := buf[NLA_HDRLEN..nlaLen];
      var stride := Align4(nlaLen);
      buf := if stride >= |buf| then [] else buf[stride..];
      return Some(Nla(rawType % NLA_TYPE_MODULUS, payload));
    }
  }

  /** Draining the iterator gives the attribute list: the form the collectors' `for` loops use. */
  method Collect(buf: bytes) returns (r: seq<Nla>)
    ensures r == Attrs(buf)
  {
    hide Attrs;
    var iter := new NlaIter(buf);
    r := [];
    var next := iter.Next();
    while next.Some?
      invariant Attrs(buf) == r + (if next.Some? then [next.value] else []) + Attrs(iter.buf)
      invariant next.None? ==> Attrs(iter.buf) == []
      decreases next.Some?, |iter.buf|
    {
      r := r + [next.value];
      next := iter.Next();
    }
  }

  // ---- Building ----

  /** The octets `push_nla` appends: the length is cast to 16 bits. */
  function EncodeNla(ty: u16, payload: bytes): (r: bytes)
    ensures |r| == Align4(NLA_HDRLEN + |payload|)
  {
    ToLE((NLA_HDRLEN + |payload|) % U16, 2) + ToLE(ty, 2) + payload
    + Zeros(Align4(NLA_HDRLEN + |payload|) - (NLA_HDRLEN + |payload|))
  }

  method PushNla(buf: Vec<byte>, ty: u16, payload: bytes)
    modifies buf
    ensures buf.items == old(buf.items) + EncodeNla(ty, payload)
  {
    var nlaLen := (NLA_HDRLEN + |payload|) % U16;
    buf.Extend(ToLE(nlaLen, 2));
    buf.Extend(ToLE(ty, 2));
    buf.Extend(payload);
    var pad := Align4(NLA_HDRLEN + |payload|) - (NLA_HDRLEN + |payload|);
    buf.Extend(Zeros(pad));
    assert buf.items == old(buf.items) + EncodeNla(ty, payload);
  }

  predicate FitsNla(payload: bytes) {
    NLA_HDRLEN + |payload| < U16
  }

  lemma {:induction false} EncodedFields(ty: u16, payload: bytes, rest: bytes)
    ensures var b := EncodeNla(ty, payload) + rest;
            && FromLE(b[0..2]) == (NLA_HDRLEN + |payload|) % U16
            && FromLE(b[2..4]) == ty
            && b[4..4 + |payload|] == payload
            && b[Align4(NLA_HDRLEN + |payload|)..] == rest
  {
    hide FromLE, ToLE;
    RadixValues();
    var b := EncodeNla(ty, payload) + rest;
    IntegerRoundTrip((NLA_HDRLEN + |payload|) % U16, 2);
    IntegerRoundTrip(ty, 2);
    assert b[0..2] == ToLE((NLA_HDRLEN + |payload|) % U16, 2);
    assert b[2..4] == ToLE(ty, 2);
  }

  lemma {:induction false} AttrsHead(b: bytes, len: nat, rawType: nat)
    requires NLA_HDRLEN <= len <= |b| && FromLE(b[0..2]) == len && FromLE(b[2..4]) == rawType
    ensures Attrs(b) == [Nla(rawType % NLA_TYPE_MODULUS, b[NLA_HDRLEN..len])] + Attrs(Drop(b, Align4(len)))
  {
  }

  /** The iterator reads back what `push_nla` wrote and then whatever follows it. */
  lemma {:induction false} AttrsOfEncoded(ty: u16, payload: bytes, rest: bytes)
    requires FitsNla(payload)
    ensures Attrs(EncodeNla(ty, payload) + rest) == [Nla(ty % NLA_TYPE_MODULUS, payload)] + Attrs(rest)
  {
    EncodedFields(ty, payload, rest);
    AttrsHead(EncodeNla(ty, payload) + rest, NLA_HDRLEN + |payload|, ty);
  }

  /** The 16-bit cast is harmless exactly for the payloads whose length still fits. */
  lemma {:induction false} PushNlaSurvivesIff(ty: u16, payload: bytes)
    ensures Attrs(EncodeNla(ty, payload)) == [Nla(ty % NLA_TYPE_MODULUS, payload)] <==> FitsNla(payload)
  {
    var b := EncodeNla(ty, payload);
    assert b + [] == b;
    if FitsNla(payload) {
      AttrsOfEncoded(ty, payload, []);
    } else {
      EncodedFields(ty, payload, []);
      if StartsAttr(b) {
        assert |Attrs(b)[0].payload| < |payload|;
      }
    }
  }

  lemma {:induction false} AttrsOfNothing()
    ensures Attrs([]) == []
  {
  }

  lemma {:induction false} AttrsOfOne(ty: u16, payload: bytes)
    requires FitsNla(payload)
    ensures Attrs(EncodeNla(ty, payload)) == [Nla(ty % NLA_TYPE_MODULUS, payload)]
  {
    PushNlaSurvivesIff(ty, payload);
  }

  lemma {:induction false} AttrsOfTwo(ty1: u16, p1: bytes, ty2: u16, p2: bytes)
    requires FitsNla(p1) && FitsNla(p2)
    ensures Attrs(EncodeNla(ty1, p1) + EncodeNla(ty2, p2))
            == [Nla(ty1 % NLA_TYPE_MODULUS, p1)] + [Nla(ty2 % NLA_TYPE_MODULUS, p2)]
  {
    hide Attrs, EncodeNla;
    AttrsOfEncoded(ty1, p1, EncodeNla(ty2, p2));
    AttrsOfEncoded(ty2, p2, []);
    AttrsOfNothing();
    assert EncodeNla(ty2, p2) + [] == EncodeNla(ty2, p2);
  }

  lemma {:induction false} HeaderSlices(l0: byte, l1: byte, t0: byte, t1: byte, payload: bytes, rest: bytes)
    ensures var b := [l0, l1, t0, t1] + payload + rest;
            b[0..2] == [l0, l1] && b[2..4] == [t0, t1] && b[4..4 + |payload|] == payload && b[4 + |payload|..] == rest
  {
  }

  /** An attribute octet by octet: length and type least significant octet first, the two flag bits and bit 13 of the
      type ignored, the payload, and padding to four octets. */
  lemma {:induction false} AttrInOctets(l0: byte, l1: byte, t0: byte, t1: byte, payload: bytes, padding: bytes,
        rest: bytes)
    requires l0 + 256 * l1 == 4 + |payload| && |padding| == (4 - |payload| % 4) % 4
    ensures Attrs([l0, l1, t0, t1] + payload + (padding + rest))
         == [Nla((t0 + 256 * t1) % 8192, payload)] + Attrs(rest)
  {
    hide FromLE, Attrs, Drop, Align4;
    var b := [l0, l1, t0, t1] + payload + (padding + rest);
    OctetWeights(l0, l1, 0, 0);
    OctetWeights(t0, t1, 0, 0);
    HeaderSlices(l0, l1, t0, t1, payload, padding + rest);
    AttrsHead(b, 4 + |payload|, t0 + 256 * t1);
    BehindPadding(b, 4 + |payload|, padding, rest);
  }

  lemma {:induction false} BehindPadding(b: bytes, n: nat, padding: bytes, rest: bytes)
    requires n <= |b| && b[n..] == padding + rest && |padding| == (4 - n % 4) % 4
    ensures Drop(b, Align4(n)) == rest
  {
    assert b == b[..n] + padding + rest;
  }

  /** Nothing is read exactly when no header is left, or its length is below four or beyond the end. */
  lemma {:induction false} NoAttrsIff(buf: bytes)
    ensures |buf| < 4 ==> Attrs(buf) == []
    ensures |buf| >= 4 ==>
              var low: int, high: int := buf[0], buf[1];
              Attrs(buf) == [] <==> low + 256 * high < 4 || low + 256 * high > |buf|
  {
    if |buf| >= 4 {
      OctetWeights(buf[0], buf[1], 0, 0);
      assert buf[0..2] == [buf[0], buf[1]];
    }
  }

  // ---- Trees of nested attributes ----

  datatype Tree =
    | Leaf(ty: u16, data: bytes)
    | Nest(ty: u16, kids: seq<Tree>)

  /** Which types a reader descends into with `nested_attrs`, level by level. */
  datatype Schema = Schema(nests: map<nat, Schema>)

  function Payload(t: Tree): bytes
    decreases t, 0
  {
    match t
    case Leaf(_, data) => data
    case Nest(_, kids) => EncodeTrees(kids)
  }

  function EncodeTrees(ts: seq<Tree>): bytes {
    if ts == [] then [] else EncodeNla(ts[0].ty, Payload(ts[0])) + EncodeTrees(ts[1..])
  }

  /** The top level of a forest, as the iterator yields it. */
  function TopLevel(ts: seq<Tree>): seq<Nla> {
    if ts == [] then [] else [Nla(ts[0].ty % NLA_TYPE_MODULUS, Payload(ts[0]))] + TopLevel(ts[1..])
  }

  lemma {:induction false} AttrsOfTrees(ts: seq<Tree>)
    requires forall t :: t in ts ==> FitsNla(Payload(t))
    ensures Attrs(EncodeTrees(ts)) == TopLevel(ts)
  {
    hide Attrs, EncodeNla, Payload;
    if ts == [] {
      AttrsOfNothing();
    } else {
      AttrsOfEncoded(ts[0].ty, Payload(ts[0]), EncodeTrees(ts[1..]));
      AttrsOfTrees(ts[1..]);
    }
  }

  /** Every level fits its 16-bit length, and the containers are the ones the schema names. */
  predicate Conforms(ts: seq<Tree>, s: Schema) {
    forall i :: 0 <= i < |ts| ==> TreeConforms(ts[i], s)
  }

  predicate TreeConforms(t: Tree, s: Schema)
    decreases t, 0
  {
    && FitsNla(Payload(t))
    && (t.Nest? <==> t.ty % NLA_TYPE_MODULUS in s.nests)
    && (t.Nest? ==> Conforms(t.kids, s.nests[t.ty % NLA_TYPE_MODULUS]))
  }

  /** The same tree with the flag bits of every type cleared. */
  function Unflagged(ts: seq<Tree>): seq<Tree> {
    if ts == [] then [] else [UnflaggedTree(ts[0])] + Unflagged(ts[1..])
  }

  function UnflaggedTree(t: Tree): Tree
    decreases t, 0
  {
    match t
    case Leaf(ty, data) => Leaf(ty % NLA_TYPE_MODULUS, data)
    case Nest(ty, kids) => Nest(ty % NLA_TYPE_MODULUS, Unflagged(kids))
  }

  /** What a reader that follows the schema makes of a list of attributes. */
  function ReadTrees(nlas: seq<Nla>, s: Schema): seq<Tree>
    requires forall a :: a in nlas ==> a.ty < NLA_TYPE_MODULUS
    decreases Weight(nlas)
  {
    if nlas == [] then []
    else
      var a := nlas[0];
      AttrTypesMasked(a.payload);
      [if a.ty in s.nests then Nest(a.ty, ReadTrees(Attrs(a.payload), s.nests[a.ty])) else Leaf(a.ty, a.payload)]
      + ReadTrees(nlas[1..], s)
  }

  lemma {:induction false} AttrTypesMasked(buf: bytes)
    ensures forall a :: a in Attrs(buf) ==> a.ty < NLA_TYPE_MODULUS
    decreases |buf|
  {
    if StartsAttr(buf) {
      AttrTypesMasked(Drop(buf, Align4(FromLE(buf[0..2]))));
    }
  }

  /** Nested round trip: a forest of any depth, written with `push_nla` and read back level by level,
      comes back with the same types, payloads and order. */
  lemma {:induction false} TreeRoundTrip(ts: seq<Tree>, s: Schema)
    requires Conforms(ts, s)
    ensures forall a :: a in Attrs(EncodeTrees(ts)) ==> a.ty < NLA_TYPE_MODULUS
    ensures ReadTrees(Attrs(EncodeTrees(ts)), s) == Unflagged(ts)
  {
    AttrTypesMasked(EncodeTrees(ts));
    if ts != [] {
      var t := ts[0];
      assert TreeConforms(t, s);
      AttrsOfEncoded(t.ty, Payload(t), EncodeTrees(ts[1..]));
      var nlas := Attrs(EncodeTrees(ts));
      assert nlas[1..] == Attrs(EncodeTrees(ts[1..]));
      TreeRoundTrip(ts[1..], s);
      if t.Nest? {
        TreeRoundTrip(t.kids, s.nests[t.ty % NLA_TYPE_MODULUS]);
      }
    }
  }

  // ---- What a collector's loop sees in a list of attributes ----

  /** The payload of the last attribute of a type: what `x = read(attr.payload)` leaves in x. */
  function Last(nlas: seq<Nla>, ty: nat): Option<bytes> {
    if nlas == [] then None
    else if nlas[|nlas| - 1].ty == ty then Some(nlas[|nlas| - 1].payload)
    else Last(nlas[..|nlas| - 1], ty)
  }

  /** The attributes inside all containers of a type, in order. */
  function Inner(nlas: seq<Nla>, ty: nat): seq<Nla> {
    if nlas == [] then []
    else Inner(nlas[..|nlas| - 1], ty)
         + (if nlas[|nlas| - 1].ty == ty then Attrs(nlas[|nlas| - 1].payload) else [])
  }

  /** The last payload of a type that is long enough. */
  function LastSized(nlas: seq<Nla>, ty: nat, n: nat): (r: Option<bytes>)
    ensures r.Some? ==> |r.value| >= n
  {
    if nlas == [] then None
    else
      var a := nlas[|nlas| - 1];
      if a.ty == ty && |a.payload| >= n then Some(a.payload) else LastSized(nlas[..|nlas| - 1], ty, n)
  }

  lemma {:induction false} LastSizedStep(nlas: seq<Nla>, i: nat, ty: nat, n: nat)
    requires i < |nlas|
    ensures LastSized(nlas[..i + 1], ty, n)
         == if nlas[i].ty == ty && |nlas[i].payload| >= n then Some(nlas[i].payload) else LastSized(nlas[..i], ty, n)
  {
    assert nlas[..i + 1][..i] == nlas[..i];
  }

  /** The octets in front of the first NUL. */
  function CString(p: bytes): bytes {
    if p == [] || p[0] == 0 then [] else [p[0]] + CString(p[1..])
  }

  lemma {:induction false} CStringMeans(a: bytes, b: bytes)
    requires 0 !in a
    ensures CString(a + [0] + b) == a && CString(a) == a
  {
    if a == [] {
      assert a + [0] + b == [0] + b;
    } else {
      CStringMeans(a[1..], b);
      assert (a + [0] + b)[1..] == a[1..] + [0] + b;
    }
  }

  /** The text of a NUL-terminated string. */
  function TextOf(p: bytes): string {
    Text.LossyText(CString(p))
  }

  lemma {:induction false} LastStep(nlas: seq<Nla>, i: nat, ty: nat)
    requires i < |nlas|
    ensures Last(nlas[..i + 1], ty) == if nlas[i].ty == ty then Some(nlas[i].payload) else Last(nlas[..i], ty)
    ensures Inner(nlas[..i + 1], ty) == Inner(nlas[..i], ty) + if nlas[i].ty == ty then Attrs(nlas[i].payload) else []
  {
    assert nlas[..i + 1][..i] == nlas[..i];
  }

  /** The last attribute of a type is one of the list, and no later one has that type. */
  lemma {:induction false} LastMeans(nlas: seq<Nla>, ty: nat)
    ensures Last(nlas, ty).None? <==> forall i :: 0 <= i < |nlas| ==> nlas[i].ty != ty
    ensures Last(nlas, ty).Some? ==> exists i :: 0 <= i < |nlas| && nlas[i] == Nla(ty, Last(nlas, ty).value)
                                           && forall j :: i < j < |nlas| ==> nlas[j].ty != ty
  {
    if nlas != [] && nlas[|nlas| - 1].ty != ty {
      LastMeans(nlas[..|nlas| - 1], ty);
    }
  }

  lemma {:induction false} OnlyLast(nlas: seq<Nla>, i: nat)
    requires i < |nlas| && forall j :: 0 <= j < |nlas| && j != i ==> nlas[j].ty != nlas[i].ty
    ensures Last(nlas, nlas[i].ty) == Some(nlas[i].payload)
  {
    hide Last;
    LastMeans(nlas, nlas[i].ty);
  }

  lemma {:induction false} NothingLast()
    ensures forall ty: nat :: Last([], ty) == None && Inner([], ty) == []
  {
  }

  lemma {:induction false} InnerOnly(nlas: seq<Nla>, i: nat)
    requires i < |nlas| && forall j :: 0 <= j < |nlas| && j != i ==> nlas[j].ty != nlas[i].ty
    ensures Inner(nlas, nlas[i].ty) == Attrs(nlas[i].payload)
  {
    hide Attrs;
    var init := nlas[..|nlas| - 1];
    assert forall j :: 0 <= j < |init| ==> init[j] == nlas[j];
    if i < |init| {
      InnerOnly(init, i);
    } else {
      InnerNone(init, nlas[i].ty);
    }
  }

  lemma {:induction false} InnerNone(nlas: seq<Nla>, ty: nat)
    requires forall j :: 0 <= j < |nlas| ==> nlas[j].ty != ty
    ensures Inner(nlas, ty) == []
  {
    hide Attrs;
    if nlas != [] {
      var init := nlas[..|nlas| - 1];
      assert forall j :: 0 <= j < |init| ==> init[j] == nlas[j];
      InnerNone(init, ty);
    }
  }

  lemma {:induction false} InnerAppend(a: seq<Nla>, b: seq<Nla>, ty: nat)
    ensures Inner(a + b, ty) == Inner(a, ty) + Inner(b, ty)
  {
    hide Attrs;
    if b == [] {
      assert a + b == a;
    } else {
      assert (a + b)[..|a + b| - 1] == a + b[..|b| - 1];
      InnerAppend(a, b[..|b| - 1], ty);
    }
  }

  lemma {:induction false} LastAppend(a: seq<Nla>, b: seq<Nla>, ty: nat)
    ensures Last(a + b, ty) == if Last(b, ty).Some? then Last(b, ty) else Last(a, ty)
  {
    if b == [] {
      assert a + b == a;
    } else {
      assert (a + b)[..|a + b| - 1] == a + b[..|b| - 1];
      LastAppend(a, b[..|b| - 1], ty);
    }
  }

  lemma {:induction false} WeightAppend(a: seq<Nla>, b: seq<Nla>)
    ensures Weight(a + b) == Weight(a) + Weight(b)
  {
    if a == [] {
      assert a + b == b;
    } else {
      assert (a + b)[1..] == a[1..] + b;
      WeightAppend(a[1..], b);
    }
  }

  /** Descending a level never gains octets. */
  lemma {:induction false} InnerWeight(nlas: seq<Nla>, ty: nat)
    ensures Weight(Inner(nlas, ty)) <= Weight(nlas)
  {
    if nlas != [] {
      var init, last := nlas[..|nlas| - 1], nlas[|nlas| - 1];
      InnerWeight(init, ty);
      assert nlas == init + [last];
      WeightAppend(init, [last]);
      WeightAppend(Inner(init, ty), if last.ty == ty then Attrs(last.payload) else []);
    }
  }
}
