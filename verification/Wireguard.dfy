/** Device frames of crates/nlx-netlink/src/collectors/wireguard.rs: peers nested in containers, and one device split
    over several frames. */
module Wireguard {
  import opened Wrappers
  import opened Bytes
  import opened Wire
  import opened PeerId
  import opened Text

  const WGDEVICE_A_IFNAME: nat := 2
  const WGDEVICE_A_LISTEN_PORT: nat := 6
  const WGDEVICE_A_FWMARK: nat := 7
  const WGDEVICE_A_PEERS: nat := 8

  const WGPEER_A_PUBLIC_KEY: nat := 1
  const WGPEER_A_ENDPOINT: nat := 4
  const WGPEER_A_KEEPALIVE: nat := 5
  const WGPEER_A_LAST_HANDSHAKE_TIME: nat := 6
  const WGPEER_A_RX_BYTES: nat := 7
  const WGPEER_A_TX_BYTES: nat := 8

  /** A handshake at second zero means never. */
  datatype Peer = Peer(id: string, rx: u64, tx: u64, handshake: Option<u64>, keepalive: u16, endpoint: bool)

  datatype Device = Device(name: string, port: u16, mark: u32, peers: seq<Peer>)

  // ---- Peers ----

  function U64In(nlas: seq<Nla>, ty: nat): u64 {
    match Last(nlas, ty)
    case None => 0
    case Some(p) => ReadU64(p).GetOr(0)
  }

  function U16In(nlas: seq<Nla>, ty: nat): u16 {
    match Last(nlas, ty)
    case None => 0
    case Some(p) => ReadU16(p).GetOr(0)
  }

  function U32In(nlas: seq<Nla>, ty: nat): u32 {
    match Last(nlas, ty)
    case None => 0
    case Some(p) => ReadU32(p).GetOr(0)
  }

  /** The second of the last handshake time that is long enough to read. */
  function HandshakeIn(nlas: seq<Nla>): u64 {
    match LastSized(nlas, WGPEER_A_LAST_HANDSHAKE_TIME, 8)
    case None => 0
    case Some(p) => ReadU64(p).GetOr(0)
  }

  /** What a peer's attributes say; nothing without a public key. */
  function PeerOf(nlas: seq<Nla>): Option<Peer> {
    match Last(nlas, WGPEER_A_PUBLIC_KEY)
    case None => None
    case Some(key) =>
      var hs := HandshakeIn(nlas);
      Some(Peer(IdOf(key), U64In(nlas, WGPEER_A_RX_BYTES), U64In(nlas, WGPEER_A_TX_BYTES),
                if hs == 0 then None else Some(hs),
                U16In(nlas, WGPEER_A_KEEPALIVE), Last(nlas, WGPEER_A_ENDPOINT).GetOr([]) != []))
  }

  /** The parser's locals. */
  datatype PeerLocals = PeerLocals(id: string, rx: u64, tx: u64, hs: u64, keepalive: u16, endpoint: bool)

  function PeerLocalsOf(nlas: seq<Nla>): PeerLocals {
    PeerLocals(match Last(nlas, WGPEER_A_PUBLIC_KEY) case None => [] case Some(key) => IdOf(key),
               U64In(nlas, WGPEER_A_RX_BYTES), U64In(nlas, WGPEER_A_TX_BYTES), HandshakeIn(nlas),
               U16In(nlas, WGPEER_A_KEEPALIVE), Last(nlas, WGPEER_A_ENDPOINT).GetOr([]) != [])
  }

  lemma {:induction false} PeerStep(attrs: seq<Nla>, i: nat)
    requires i < |attrs|
    ensures var l, m, a := PeerLocalsOf(attrs[..i]), PeerLocalsOf(attrs[..i + 1]), attrs[i];
            m == if a.ty == WGPEER_A_PUBLIC_KEY then l.(id := IdOf(a.payload))
                 else if a.ty == WGPEER_A_ENDPOINT then l.(endpoint := a.payload != [])
                 else if a.ty == WGPEER_A_KEEPALIVE then l.(keepalive := ReadU16(a.payload).GetOr(0))
                 else if a.ty == WGPEER_A_LAST_HANDSHAKE_TIME then
                   if |a.payload| >= 8 then l.(hs := ReadU64(a.payload).GetOr(0)) else l
                 else if a.ty == WGPEER_A_RX_BYTES then l.(rx := ReadU64(a.payload).GetOr(0))
                 else if a.ty == WGPEER_A_TX_BYTES then l.(tx := ReadU64(a.payload).GetOr(0))
                 else l
  {
    hide Attrs, Last, LastSized, ReadU16, ReadU64, IdOf;
    LastStep(attrs, i, WGPEER_A_PUBLIC_KEY);
    LastStep(attrs, i, WGPEER_A_ENDPOINT);
    LastStep(attrs, i, WGPEER_A_KEEPALIVE);
    LastStep(attrs, i, WGPEER_A_RX_BYTES);
    LastStep(attrs, i, WGPEER_A_TX_BYTES);
    LastSizedStep(attrs, i, WGPEER_A_LAST_HANDSHAKE_TIME, 8);
  }

  method ParsePeer(buf: bytes) returns (r: Option<Peer>)
    ensures r == PeerOf(Attrs(buf))
  {
    hide Attrs, ReadU16, ReadU64, IdOf;
    var attrs := Attrs(buf);
    var l := PeerLocals([], 0, 0, 0, 0, false);
    assert attrs[..0] == [];
    assert PeerLocalsOf([]) == l;
    hide PeerLocalsOf;
    for i := 0 to |attrs|
      invariant l == PeerLocalsOf(attrs[..i])
    {
      PeerStep(attrs, i);
      var a := attrs[i];
      if a.ty == WGPEER_A_PUBLIC_KEY {
        var id := PubkeyHash(a.payload);
        l := l.(id := id);
      } else if a.ty == WGPEER_A_ENDPOINT {
        l := l.(endpoint := a.payload != []);
      } else if a.ty == WGPEER_A_KEEPALIVE {
        l := l.(keepalive := ReadU16(a.payload).GetOr(0));
      } else if a.ty == WGPEER_A_LAST_HANDSHAKE_TIME {
        if |a.payload| >= 8 {
          l := l.(hs := ReadU64(a.payload).GetOr(0));
        }
      } else if a.ty == WGPEER_A_RX_BYTES {
        l := l.(rx := ReadU64(a.payload).GetOr(0));
      } else if a.ty == WGPEER_A_TX_BYTES {
        l := l.(tx := ReadU64(a.payload).GetOr(0));
      }
    }
    assert attrs[..|attrs|] == attrs;
    LocalsGivePeer(attrs);
    r := if l.id == [] then None
         else Some(Peer(l.id, l.rx, l.tx, if l.hs == 0 then None else Some(l.hs), l.keepalive, l.endpoint));
  }

  lemma {:induction false} LocalsGivePeer(nlas: seq<Nla>)
    ensures var l := PeerLocalsOf(nlas);
            PeerOf(nlas) == if l.id == [] then None
                            else Some(Peer(l.id, l.rx, l.tx,
                                           if l.hs == 0 then None else Some(l.hs), l.keepalive, l.endpoint))
  {
    hide Last, ReadU16, ReadU64, HandshakeIn;
  }

  // ---- Devices ----

  /** The peers inside a list of containers, whatever the containers' types. */
  function PeersIn(containers: seq<Nla>): seq<Peer> {
    if containers == [] then []
    else
      var p := PeerOf(Attrs(containers[|containers| - 1].payload));
      PeersIn(containers[..|containers| - 1]) + if p.Some? then [p.value] else []
  }

  /** What a device's attributes say; nothing without a name. */
  function DeviceOf(nlas: seq<Nla>): Option<Device> {
    var d := DeviceLocalsOf(nlas);
    if d.name == [] then None else Some(d)
  }

  function DeviceLocalsOf(nlas: seq<Nla>): Device {
    Device(TextOf(Last(nlas, WGDEVICE_A_IFNAME).GetOr([])), U16In(nlas, WGDEVICE_A_LISTEN_PORT),
           U32In(nlas, WGDEVICE_A_FWMARK),
           PeersIn(Inner(nlas, WGDEVICE_A_PEERS)))
  }

  lemma {:induction false} PeersInAppend(a: seq<Nla>, b: seq<Nla>)
    ensures PeersIn(a + b) == PeersIn(a) + PeersIn(b)
  {
    hide Attrs, PeerOf;
    if b == [] {
      assert a + b == a;
    } else {
      assert (a + b)[..|a + b| - 1] == a + b[..|b| - 1];
      PeersInAppend(a, b[..|b| - 1]);
    }
  }

  method AddPeers(payload: bytes, before: seq<Peer>) returns (peers: seq<Peer>)
    ensures peers == before + PeersIn(Attrs(payload))
  {
    hide Attrs, PeerOf;
    var containers := Attrs(payload);
    peers := before;
    for i := 0 to |containers|
      invariant peers == before + PeersIn(containers[..i])
    {
      assert containers[..i + 1][..i] == containers[..i];
      var p := ParsePeer(containers[i].payload);
      if p.Some? {
        peers := peers + [p.value];
      }
    }
    assert containers[..|containers|] == containers;
  }

  lemma {:induction false} DeviceStep(attrs: seq<Nla>, i: nat)
    requires i < |attrs|
    ensures var d, e, a := DeviceLocalsOf(attrs[..i]), DeviceLocalsOf(attrs[..i + 1]), attrs[i];
            e == if a.ty == WGDEVICE_A_IFNAME then d.(name := TextOf(a.payload))
                 else if a.ty == WGDEVICE_A_LISTEN_PORT then d.(port := ReadU16(a.payload).GetOr(0))
                 else if a.ty == WGDEVICE_A_FWMARK then d.(mark := ReadU32(a.payload).GetOr(0))
                 else if a.ty == WGDEVICE_A_PEERS then d.(peers := d.peers + PeersIn(Attrs(a.payload)))
                 else d
  {
    hide Attrs, Last, Inner, ReadU16, ReadU32, TextOf, PeersIn;
    LastStep(attrs, i, WGDEVICE_A_IFNAME);
    LastStep(attrs, i, WGDEVICE_A_LISTEN_PORT);
    LastStep(attrs, i, WGDEVICE_A_FWMARK);
    LastStep(attrs, i, WGDEVICE_A_PEERS);
    var before := Inner(attrs[..i], WGDEVICE_A_PEERS);
    if attrs[i].ty == WGDEVICE_A_PEERS {
      PeersInAppend(before, Attrs(attrs[i].payload));
    } else {
      assert before + [] == before;
    }
  }

  method ParseDevice(buf: bytes) returns (r: Option<Device>)
    ensures r == DeviceOf(Attrs(buf))
  {
    hide Attrs, ReadU16, ReadU32, TextOf;
    var attrs := Attrs(buf);
    var d := Device([], 0, 0, []);
    assert attrs[..0] == [];
    assert DeviceLocalsOf([]) == d by { EmptyName(); }
    hide DeviceLocalsOf;
    for i := 0 to |attrs|
      invariant d == DeviceLocalsOf(attrs[..i])
    {
      DeviceStep(attrs, i);
      var a := attrs[i];
      if a.ty == WGDEVICE_A_IFNAME {
        d := d.(name := TextOf(a.payload));
      } else if a.ty == WGDEVICE_A_LISTEN_PORT {
        d := d.(port := ReadU16(a.payload).GetOr(0));
      } else if a.ty == WGDEVICE_A_FWMARK {
        d := d.(mark := ReadU32(a.payload).GetOr(0));
      } else if a.ty == WGDEVICE_A_PEERS {
        var peers := AddPeers(a.payload, d.peers);
        d := d.(peers := peers);
      }
    }
    assert attrs[..|attrs|] == attrs;
    r := if d.name == [] then None else Some(d);
  }

  lemma {:induction false} EmptyName()
    ensures TextOf([]) == []
  {
  }

  // ---- Frames of one device ----

  /** The frames that hold a device, in order. */
  function DevicesOf(frames: seq<bytes>): seq<Device> {
    if frames == [] then []
    else
      var f := frames[|frames| - 1];
      DevicesOf(frames[..|frames| - 1])
      + if |f| >= GENL_HDRLEN && DeviceOf(Attrs(f[GENL_HDRLEN..])).Some? then [DeviceOf(Attrs(f[GENL_HDRLEN..])).value]
        else []
  }

  function FirstPort(ds: seq<Device>): u16 {
    if ds == [] then 0
    else
      var before := FirstPort(ds[..|ds| - 1]);
      if before != 0 then before else ds[|ds| - 1].port
  }

  function FirstMark(ds: seq<Device>): u32 {
    if ds == [] then 0
    else
      var before := FirstMark(ds[..|ds| - 1]);
      if before != 0 then before else ds[|ds| - 1].mark
  }

  function AllPeers(ds: seq<Device>): seq<Peer> {
    if ds == [] then [] else AllPeers(ds[..|ds| - 1]) + ds[|ds| - 1].peers
  }

  /** The name of the first frame, the first port and mark that are not zero, and the peers of all frames in order. */
  function Merged(ds: seq<Device>): Option<Device> {
    if ds == [] then None else Some(Device(ds[0].name, FirstPort(ds), FirstMark(ds), AllPeers(ds)))
  }

  lemma {:induction false} MergeStep(ds: seq<Device>, d: Device)
    ensures var m := Merged(ds);
            Merged(ds + [d]) == if m.None? then Some(d)
                                else Some(m.value.(peers := m.value.peers + d.peers,
                                                   port := if m.value.port == 0 then d.port else m.value.port,
                                                   mark := if m.value.mark == 0 then d.mark else m.value.mark))
  {
    assert (ds + [d])[..|ds|] == ds;
    if ds == [] {
      assert FirstPort([]) == 0 && FirstMark([]) == 0 && AllPeers([]) == [];
      assert [] + d.peers == d.peers;
    }
  }

  method MergeDeviceFrames(frames: seq<bytes>) returns (dev: Option<Device>)
    ensures dev == Merged(DevicesOf(frames))
  {
    hide Attrs, DeviceOf, Merged;
    dev := None;
    assert frames[..0] == [];
    MergeStart();
    for k := 0 to |frames|
      invariant dev == Merged(DevicesOf(frames[..k]))
    {
      assert frames[..k + 1][..k] == frames[..k];
      ghost var ds := DevicesOf(frames[..k]);
      if |frames[k]| < GENL_HDRLEN {
        assert ds + [] == ds;
        continue;
      }
      var parsed := ParseDevice(frames[k][GENL_HDRLEN..]);
      if parsed.None? {
        assert ds + [] == ds;
        continue;
      }
      MergeStep(ds, parsed.value);
      if dev.None? {
        dev := parsed;
      } else {
        var d := dev.value;
        d := d.(peers := d.peers + parsed.value.peers);
        if d.port == 0 {
          d := d.(port := parsed.value.port);
        }
        if d.mark == 0 {
          d := d.(mark := parsed.value.mark);
        }
        dev := Some(d);
      }
    }
    assert frames[..|frames|] == frames;
  }

  lemma {:induction false} MergeStart()
    ensures DevicesOf([]) == [] && Merged([]) == None
  {
  }

  // ---- A peer as the kernel encodes it ----

  function EncodePeer(key: bytes, endpoint: bytes, keepalive: u16, seconds: u64, nanos: u64, rx: u64, tx: u64): bytes {
    EncodeNla(1, key) + (EncodeNla(4, endpoint) + (EncodeNla(5, ToLE(keepalive, 2))
    + (EncodeNla(6, ToLE(seconds, 8) + ToLE(nanos, 8)) + (EncodeNla(7, ToLE(rx, 8)) + EncodeNla(8, ToLE(tx, 8))))))
  }

  /** The six attributes of a peer. */
  function PeerNlas(key: bytes, endpoint: bytes, keepalive: u16, seconds: u64, nanos: u64, rx: u64, tx: u64): seq<Nla> {
    [Nla(1, key), Nla(4, endpoint), Nla(5, ToLE(keepalive, 2)), Nla(6, ToLE(seconds, 8) + ToLE(nanos, 8)),
     Nla(7, ToLE(rx, 8)), Nla(8, ToLE(tx, 8))]
  }

  lemma {:induction false} AttrsOfPeer(key: bytes, endpoint: bytes, keepalive: u16, seconds: u64, nanos: u64, rx: u64,
        tx: u64)
    requires FitsNla(key) && FitsNla(endpoint)
    ensures Attrs(EncodePeer(key, endpoint, keepalive, seconds, nanos, rx, tx))
         == PeerNlas(key, endpoint, keepalive, seconds, nanos, rx, tx)
  {
    hide Attrs, EncodeNla, ToLE;
    var last := EncodeNla(7, ToLE(rx, 8)) + EncodeNla(8, ToLE(tx, 8));
    var time := EncodeNla(6, ToLE(seconds, 8) + ToLE(nanos, 8)) + last;
    var alive := EncodeNla(5, ToLE(keepalive, 2)) + time;
    AttrsOfTwo(7, ToLE(rx, 8), 8, ToLE(tx, 8));
    AttrsOfEncoded(6, ToLE(seconds, 8) + ToLE(nanos, 8), last);
    AttrsOfEncoded(5, ToLE(keepalive, 2), time);
    AttrsOfEncoded(4, endpoint, alive);
    AttrsOfEncoded(1, key, EncodeNla(4, endpoint) + alive);
  }

  lemma {:induction false} WordsReadBack(x: u64, rest: bytes, k: u16)
    ensures ReadU64(ToLE(x, 8) + rest) == Some(x) && ReadU64(ToLE(x, 8)) == Some(x) && ReadU16(ToLE(k, 2)) == Some(k)
  {
    hide ToLE, ReadLE;
    RadixValues();
    ReadersInvertWriters(x, 8, rest);
    ReadersInvertWriters(x, 8, []);
    ReadersInvertWriters(k, 2, []);
    assert ToLE(x, 8) + [] == ToLE(x, 8) && ToLE(k, 2) + [] == ToLE(k, 2);
  }

  /** A peer comes back from its octets: identifier, received and sent octets, second of the last handshake, keepalive
      and whether it has an endpoint. */
  lemma {:induction false} PeerRoundTrip(key: bytes, endpoint: bytes, keepalive: u16, seconds: u64, nanos: u64, rx: u64,
        tx: u64)
    requires FitsNla(key) && FitsNla(endpoint)
    ensures PeerOf(Attrs(EncodePeer(key, endpoint, keepalive, seconds, nanos, rx, tx)))
         == Some(Peer(IdOf(key), rx, tx, if seconds == 0 then None else Some(seconds), keepalive, endpoint != []))
  {
    hide Attrs, EncodePeer, Last, LastSized, ToLE, ReadU64, ReadU16, IdOf;
    var nlas := PeerNlas(key, endpoint, keepalive, seconds, nanos, rx, tx);
    AttrsOfPeer(key, endpoint, keepalive, seconds, nanos, rx, tx);
    OnlyLast(nlas, 0);
    OnlyLast(nlas, 1);
    OnlyLast(nlas, 2);
    OnlyLast(nlas, 4);
    OnlyLast(nlas, 5);
    TimeIn(nlas);
    WordsReadBack(seconds, ToLE(nanos, 8), keepalive);
    WordsReadBack(rx, [], keepalive);
    WordsReadBack(tx, [], keepalive);
  }

  lemma {:induction false} TimeIn(nlas: seq<Nla>)
    requires |nlas| == 6 && nlas[3].ty == 6 && |nlas[3].payload| >= 8 && nlas[4].ty == 7 && nlas[5].ty == 8
    ensures LastSized(nlas, 6, 8) == Some(nlas[3].payload)
  {
    assert nlas[..5][..4] == nlas[..4] && nlas[..4][3] == nlas[3] && nlas[..5][4] == nlas[4];
    assert LastSized(nlas, 6, 8) == LastSized(nlas[..5], 6, 8) == LastSized(nlas[..4], 6, 8);
  }

  // ---- Splitting a device over frames ----

  const PEERS_NESTED: u16 := NLA_F_NESTED + 8
  const CONTAINER: u16 := NLA_F_NESTED

  function EncodeContainers(peers: seq<bytes>): bytes {
    if peers == [] then [] else EncodeNla(CONTAINER, peers[0]) + EncodeContainers(peers[1..])
  }

  /** What one frame of a device carries: port and mark or not, and some peers. */
  datatype Part = Part(header: bool, peers: seq<bytes>)

  function EncodeHeader(port: u16, mark: u32): bytes {
    EncodeNla(6, ToLE(port, 2)) + EncodeNla(7, ToLE(mark, 4))
  }

  function EncodeFrame(name: bytes, port: u16, mark: u32, part: Part): bytes {
    [0, 1, 0, 0] + (EncodeNla(2, name + [0]) + ((if part.header then EncodeHeader(port, mark) else [])
                                                + EncodeNla(PEERS_NESTED, EncodeContainers(part.peers))))
  }

  /** What the payloads of some peers say. */
  function PeersFrom(peers: seq<bytes>): seq<Peer> {
    if peers == [] then []
    else
      var p := PeerOf(Attrs(peers[0]));
      (if p.Some? then [p.value] else []) + PeersFrom(peers[1..])
  }

  function AllCarried(parts: seq<Part>): seq<bytes> {
    if parts == [] then [] else AllCarried(parts[..|parts| - 1]) + parts[|parts| - 1].peers
  }

  predicate SomeHeader(parts: seq<Part>) {
    parts != [] && (SomeHeader(parts[..|parts| - 1]) || parts[|parts| - 1].header)
  }

  function EncodeFrames(name: bytes, port: u16, mark: u32, parts: seq<Part>): seq<bytes> {
    if parts == [] then []
    else EncodeFrames(name, port, mark, parts[..|parts| - 1]) + [EncodeFrame(name, port, mark, parts[|parts| - 1])]
  }

  predicate FitsPart(part: Part) {
    FitsNla(EncodeContainers(part.peers)) && forall p :: p in part.peers ==> FitsNla(p)
  }

  lemma {:induction false} PeersInOne(a: Nla)
    ensures PeersIn([a]) == (var p := PeerOf(Attrs(a.payload)); if p.Some? then [p.value] else [])
    ensures PeersIn([]) == []
  {
    hide Attrs, PeerOf;
    assert [a][..0] == [];
  }

  lemma {:induction false} ContainersReadBack(peers: seq<bytes>)
    requires forall p :: p in peers ==> FitsNla(p)
    ensures PeersIn(Attrs(EncodeContainers(peers))) == PeersFrom(peers)
  {
    hide Attrs, EncodeNla, PeerOf, PeersIn;
    if peers == [] {
      AttrsOfNothing();
      PeersInOne(Nla(0, []));
    } else {
      AttrsOfEncoded(CONTAINER, peers[0], EncodeContainers(peers[1..]));
      PeersInAppend([Nla(0, peers[0])], Attrs(EncodeContainers(peers[1..])));
      PeersInOne(Nla(0, peers[0]));
      ContainersReadBack(peers[1..]);
    }
  }

  lemma {:induction false} CStringReadsBack(name: bytes)
    requires 0 !in name
    ensures CString(name + [0]) == name
  {
    if name != [] {
      CStringReadsBack(name[1..]);
      assert (name + [0])[1..] == name[1..] + [0];
    }
  }

  /** The attributes of a frame. */
  function FrameAttrs(name: bytes, port: u16, mark: u32, header: bool, list: bytes): seq<Nla> {
    [Nla(WGDEVICE_A_IFNAME, name)]
    + ((if header then [Nla(WGDEVICE_A_LISTEN_PORT, ToLE(port, 2)), Nla(WGDEVICE_A_FWMARK, ToLE(mark, 4))] else [])
       + [Nla(WGDEVICE_A_PEERS, list)])
  }

  lemma {:induction false} AttrsOfFrame(name: bytes, port: u16, mark: u32, part: Part)
    requires FitsNla(name + [0]) && FitsPart(part)
    ensures Attrs(EncodeFrame(name, port, mark, part)[GENL_HDRLEN..])
         == FrameAttrs(name + [0], port, mark, part.header, EncodeContainers(part.peers))
  {
    hide Attrs, EncodeNla, EncodeContainers, ToLE;
    var list := EncodeContainers(part.peers);
    var last := EncodeNla(PEERS_NESTED, list);
    AttrsOfOne(PEERS_NESTED, list);
    var rest := (if part.header then EncodeHeader(port, mark) else []) + last;
    if part.header {
      AttrsOfEncoded(7, ToLE(mark, 4), last);
      AttrsOfEncoded(6, ToLE(port, 2), EncodeNla(7, ToLE(mark, 4)) + last);
      Associative(EncodeNla(6, ToLE(port, 2)), EncodeNla(7, ToLE(mark, 4)), last);
    } else {
      assert [] + last == last;
    }
    AttrsOfEncoded(2, name + [0], rest);
    assert EncodeFrame(name, port, mark, part)[GENL_HDRLEN..] == EncodeNla(2, name + [0]) + rest;
  }

  lemma {:induction false} HeaderReadsBack(port: u16, mark: u32)
    ensures ReadU16(ToLE(port, 2)) == Some(port) && ReadU32(ToLE(mark, 4)) == Some(mark)
  {
    hide ToLE, ReadLE;
    RadixValues();
    ReadersInvertWriters(port, 2, []);
    ReadersInvertWriters(mark, 4, []);
    assert ToLE(port, 2) + [] == ToLE(port, 2) && ToLE(mark, 4) + [] == ToLE(mark, 4);
  }

  lemma {:induction false} FrameLocals(name: bytes, port: u16, mark: u32, header: bool, list: bytes)
    ensures DeviceLocalsOf(FrameAttrs(name, port, mark, header, list))
         == Device(TextOf(name), if header then port else 0, if header then mark else 0, PeersIn(Attrs(list)))
  {
    hide Attrs, Last, Inner, PeersIn, TextOf, ToLE, ReadU16, ReadU32;
    var nlas := FrameAttrs(name, port, mark, header, list);
    HeaderReadsBack(port, mark);
    OnlyLast(nlas, 0);
    InnerOnly(nlas, |nlas| - 1);
    if header {
      OnlyLast(nlas, 1);
      OnlyLast(nlas, 2);
    } else {
      LastMeans(nlas, WGDEVICE_A_LISTEN_PORT);
      LastMeans(nlas, WGDEVICE_A_FWMARK);
    }
  }

  lemma {:induction false} FrameReadsBack(name: bytes, port: u16, mark: u32, part: Part)
    requires name != [] && 0 !in name && FitsNla(name + [0]) && FitsPart(part)
    ensures DeviceOf(Attrs(EncodeFrame(name, port, mark, part)[GENL_HDRLEN..]))
         == Some(Device(LossyText(name), if part.header then port else 0, if part.header then mark
                        else 0, PeersFrom(part.peers)))
  {
    hide Attrs, EncodeFrame, FrameAttrs, EncodeContainers, PeersIn, PeersFrom, CString, LossyText, DeviceLocalsOf;
    ContainersReadBack(part.peers);
    CStringReadsBack(name);
    AttrsOfFrame(name, port, mark, part);
    FrameLocals(name + [0], port, mark, part.header, EncodeContainers(part.peers));
  }

  lemma {:induction false} PeersFromAppend(a: seq<bytes>, b: seq<bytes>)
    ensures PeersFrom(a + b) == PeersFrom(a) + PeersFrom(b)
  {
    hide Attrs, PeerOf;
    if a == [] {
      assert a + b == b;
    } else {
      assert (a + b)[1..] == a[1..] + b;
      PeersFromAppend(a[1..], b);
    }
  }

  lemma {:induction false} FramesReadBack(name: bytes, port: u16, mark: u32, parts: seq<Part>)
    requires name != [] && 0 !in name && FitsNla(name + [0]) && forall p :: p in parts ==> FitsPart(p)
    ensures |DevicesOf(EncodeFrames(name, port, mark, parts))| == |parts|
    ensures parts != [] ==>
              Merged(DevicesOf(EncodeFrames(name, port, mark, parts)))
              == Some(Device(LossyText(name), if SomeHeader(parts) then port else 0, if SomeHeader(parts) then mark
                             else 0,
                             PeersFrom(AllCarried(parts))))
  {
    hide Attrs, DeviceOf, EncodeFrame, PeersFrom, FitsPart, Merged;
    if parts != [] {
      var init, last := parts[..|parts| - 1], parts[|parts| - 1];
      assert last in parts;
      FramesReadBack(name, port, mark, init);
      FrameReadsBack(name, port, mark, last);
      FrameLength(name, port, mark, last);
      var frames := EncodeFrames(name, port, mark, parts);
      assert frames[..|frames| - 1] == EncodeFrames(name, port, mark, init);
      var d := Device(LossyText(name), if last.header then port else 0, if last.header then mark
                      else 0, PeersFrom(last.peers));
      MergeStep(DevicesOf(EncodeFrames(name, port, mark, init)), d);
      PeersFromAppend(AllCarried(init), last.peers);
      if init == [] {
        MergeStart();
        assert AllCarried(parts) == last.peers;
      }
    }
  }

  lemma {:induction false} FrameLength(name: bytes, port: u16, mark: u32, part: Part)
    ensures |EncodeFrame(name, port, mark, part)| >= GENL_HDRLEN
  {
    hide EncodeNla, EncodeContainers, EncodeHeader;
  }

  /** However the kernel splits a device over frames, and whichever of them carry its port and mark, the merged device
      is the same as long as one does: name, port, mark, and all peers once, in order. */
  lemma {:induction false} SplitDoesNotMatter(name: bytes, port: u16, mark: u32, parts: seq<Part>, others: seq<Part>)
    requires name != [] && 0 !in name && FitsNla(name + [0])
    requires (forall p :: p in parts ==> FitsPart(p)) && (forall p :: p in others ==> FitsPart(p))
    requires SomeHeader(parts) && SomeHeader(others) && AllCarried(parts) == AllCarried(others)
    ensures Merged(DevicesOf(EncodeFrames(name, port, mark, parts)))
            == Merged(DevicesOf(EncodeFrames(name, port, mark, others)))
         == Some(Device(LossyText(name), port, mark, PeersFrom(AllCarried(parts))))
  {
    FramesReadBack(name, port, mark, parts);
    FramesReadBack(name, port, mark, others);
    hide *;
  }

  /** A peer is reported exactly with a public key, a device exactly with a name. */
  lemma {:induction false} NeededIff(nlas: seq<Nla>, name: bytes)
    ensures PeerOf(nlas).None? <==> forall i :: 0 <= i < |nlas| ==> nlas[i].ty != 1
    ensures DeviceOf(nlas + [Nla(2, name)]).None? <==> name == [] || name[0] == 0
  {
    hide IdOf, HandshakeIn, PeersIn, LossyText, Attrs;
    LastMeans(nlas, WGPEER_A_PUBLIC_KEY);
  }

  /** What a peer or a device does not say, or says too shortly to read, is zero, never, and no endpoint. */
  lemma {:induction false} SilentPeer(key: bytes, ty: nat, short: bytes)
    requires |short| < 2 && 5 <= ty <= 8
    ensures PeerOf([Nla(1, key)]) == Some(Peer(IdOf(key), 0, 0, None, 0, false))
    ensures PeerOf([Nla(1, key), Nla(ty, short)]) == Some(Peer(IdOf(key), 0, 0, None, 0, false))
    ensures DeviceLocalsOf([]) == DeviceLocalsOf([Nla(6, short)]) == DeviceLocalsOf([Nla(7, short)])
         == Device([], 0, 0, [])
  {
    hide IdOf, Attrs;
    var one, two := [Nla(1, key)], [Nla(1, key), Nla(ty, short)];
    NothingLast();
    assert one[..0] == [] && two[..1] == one;
    assert forall t: nat :: Last(one, t) == if t == 1 then Some(key) else Last(one[..0], t);
    assert LastSized(one, 6, 8) == LastSized(one[..0], 6, 8) == None;
    assert LastSized(two, 6, 8) == None;
    assert [Nla(6, short)][..0] == [] && [Nla(7, short)][..0] == [];
  }

  /** Of two frames the first gives the name, and port and mark unless they are zero; the peers follow each other. */
  lemma {:induction false} MergeTwo(d: Device, e: Device)
    ensures Merged([d, e]) == Some(Device(d.name, if d.port != 0 then d.port else e.port,
                                          if d.mark != 0 then d.mark else e.mark, d.peers + e.peers))
  {
    MergeStep([], d);
    MergeStep([d], e);
    assert [] + [d] == [d] && [d] + [e] == [d, e];
  }

  /** The name is the text up to the first NUL, whatever follows it. */
  lemma {:induction false} NameUpToNul(nlas: seq<Nla>, name: bytes, behind: bytes)
    requires 0 !in name
    ensures DeviceLocalsOf(nlas + [Nla(2, name + [0] + behind)]).name == LossyText(name)
  {
    hide PeersIn, LossyText, Attrs, CString;
    CStringMeans(name, behind);
  }
}
