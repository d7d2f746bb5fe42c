/** The WireGuardNT configuration buffer: an 80-byte interface record followed, for each peer, by a
    136-byte peer record and its 24-byte allowed-IP records (internal/wgnt/adapter_windows.go). */
module Codec {
  import opened Text
  import opened NetIp
  import opened WireGuard

  const INTERFACE_SIZE := 80
  const PEER_SIZE := 136
  const ALLOWED_SIZE := 24
  const ENDPOINT_SIZE := 28

  const AF_INET: U16 := 2
  const AF_INET6: U16 := 23

  const INTERFACE_HAS_PUBLIC_KEY := 1
  const INTERFACE_HAS_PRIVATE_KEY := 2
  const INTERFACE_HAS_LISTEN_PORT := 4
  const INTERFACE_REPLACE_PEERS := 8
  const PEER_HAS_PUBLIC_KEY := 1
  const PEER_HAS_PERSISTENT := 4
  const PEER_HAS_ENDPOINT := 8
  const PEER_REPLACE_ALLOWED_IPS := 32

  const ZERO_KEY: Key := Zeros(32)

  datatype PeerStatus = PeerStatus(publicKey: Key, endpoint: AddrPort, allowedIPs: seq<Prefix>, tx: U64, rx: U64,
                                   lastHandshake: U64)

  /** What a buffer says about an adapter; the name, LUID and link state come from the caller. */
  datatype Status = Status(publicKey: Key, listenPort: U16, peers: seq<PeerStatus>)

  // ---------------------------------------------------------------- integers

  function Zeros(n: nat): (r: seq<Byte>)
    ensures |r| == n
  {
    seq(n, _ => 0)
  }

  function LE16(n: U16): (r: seq<Byte>) ensures |r| == 2 { [n % 256, n / 256] }

  function LE32(n: U32): (r: seq<Byte>)
    ensures |r| == 4
  {
    LE16(n % 0x1_0000) + LE16(n / 0x1_0000)
  }

  /** Network order: most significant byte first. */
  function BE32(n: U32): (r: seq<Byte>)
    ensures |r| == 4
  {
    LE16(Htons(n / 0x1_0000)) + LE16(Htons(n % 0x1_0000))
  }

  function U16At(b: seq<Byte>, o: nat): U16
    requires o + 2 <= |b|
  {
    b[o] as int + 256 * (b[o + 1] as int)
  }

  function U32At(b: seq<Byte>, o: nat): U32
    requires o + 4 <= |b|
  {
    U16At(b, o) as int + 0x1_0000 * (U16At(b, o + 2) as int)
  }

  function U64At(b: seq<Byte>, o: nat): U64
    requires o + 8 <= |b|
  {
    U32At(b, o) + TWO32 * U32At(b, o + 4)
  }

  function V4At(b: seq<Byte>, o: nat): U32
    requires o + 4 <= |b|
  {
    0x1_0000 * (Htons(U16At(b, o)) as int) + Htons(U16At(b, o + 2)) as int
  }

  function Htons(v: U16): U16 { v % 256 * 256 + v / 256 }

  predicate HasFlag(flags: U32, flag: nat)
    requires flag > 0
  {
    flags / flag % 2 == 1
  }

  lemma Swapped(v: U16)
    ensures Htons(Htons(v)) == v
  {
    Halves(v % 256, v / 256);
  }

  lemma Halves(high: Byte, low: Byte)
    ensures var w := high * 256 + low; w / 256 == high && w % 256 == low
  {
  }

  lemma ReadLE16(b: seq<Byte>, o: nat, n: U16)
    requires o + 2 <= |b| && b[o..o + 2] == LE16(n)
    ensures U16At(b, o) == n
  {
    assert b[o] == b[o..o + 2][0] && b[o + 1] == b[o..o + 2][1];
  }

  lemma ReadLE32(b: seq<Byte>, o: nat, n: U32)
    requires o + 4 <= |b| && b[o..o + 4] == LE32(n)
    ensures U32At(b, o) == n
  {
    hide LE16, U16At;
    assert b[o..o + 2] == b[o..o + 4][..2] && b[o + 2..o + 4] == b[o..o + 4][2..];
    ReadLE16(b, o, n % 0x1_0000);
    ReadLE16(b, o + 2, n / 0x1_0000);
  }

  lemma ReadBE32(b: seq<Byte>, o: nat, n: U32)
    requires o + 4 <= |b| && b[o..o + 4] == BE32(n)
    ensures V4At(b, o) == n
  {
    hide LE16, U16At, Htons;
    assert b[o..o + 2] == b[o..o + 4][..2] && b[o + 2..o + 4] == b[o..o + 4][2..];
    ReadLE16(b, o, Htons(n / 0x1_0000));
    ReadLE16(b, o + 2, Htons(n % 0x1_0000));
    Swapped(n / 0x1_0000);
    Swapped(n % 0x1_0000);
  }

  lemma ReadZeros(b: seq<Byte>, o: nat)
    requires o + 8 <= |b| && b[o..o + 8] == Zeros(8)
    ensures U64At(b, o) == 0
  {
    var s := b[o..o + 8];
    assert b[o] == s[0] && b[o + 1] == s[1] && b[o + 2] == s[2] && b[o + 3] == s[3];
    assert b[o + 4] == s[4] && b[o + 5] == s[5] && b[o + 6] == s[6] && b[o + 7] == s[7];
  }

  // ---------------------------------------------------------------- endpoints

  /** The interface index a zone names, if it names one. */
  function Scope(zone: string): Option<U32> {
    if zone == "" then Some(0)
    else match ParseDecimal(zone)
      case Some(n) => if n < TWO32 then Some(n) else None
      case None => None
  }

  function ZoneOf(scope: U32): string {
    if scope == 0 then "" else Decimal(scope)
  }

  /** The zones the buffer can carry: none, or a non-zero index in canonical decimal. */
  ghost predicate CanonicalZone(zone: string) {
    zone == "" || exists n: U32 :: n > 0 && zone == Decimal(n)
  }

  lemma ZoneRoundTrip(zone: string)
    ensures Scope(zone).Some? && ZoneOf(Scope(zone).value) == zone <==> CanonicalZone(zone)
  {
    if CanonicalZone(zone) && zone != "" {
      var n: U32 :| n > 0 && zone == Decimal(n);
      DecimalRoundTrip(n);
    }
  }

  predicate EncodableEndpoint(e: AddrPort) {
    e.addr.V6? ==> Scope(e.addr.zone).Some?
  }

  function EndpointBytes(e: AddrPort): (r: seq<Byte>)
    requires EncodableEndpoint(e)
    ensures |r| == ENDPOINT_SIZE
  {
    match e.addr
    case NoAddr => Zeros(28)
    case V4(v) => LE16(AF_INET) + LE16(Htons(e.port)) + BE32(v) + Zeros(20)
    case V6(bytes, zone) => LE16(AF_INET6) + LE16(Htons(e.port)) + Zeros(4) + bytes + LE32(Scope(zone).value)
  }

  function ParseEndpoint(b: seq<Byte>): AddrPort
    requires |b| == ENDPOINT_SIZE
  {
    if U16At(b, 0) == AF_INET then AddrPort(V4(V4At(b, 4)), Htons(U16At(b, 2)))
    else if U16At(b, 0) == AF_INET6 then AddrPort(V6(b[8..24], ZoneOf(U32At(b, 24))), Htons(U16At(b, 2)))
    else NoAddrPort
  }

  /** The endpoint a reader of the buffer gets for `e`. */
  function Recovered(e: AddrPort): AddrPort
    requires EncodableEndpoint(e)
  {
    match e.addr
    case NoAddr => NoAddrPort
    case V4(_) => e
    case V6(bytes, zone) => AddrPort(V6(bytes, ZoneOf(Scope(zone).value)), e.port)
  }

  /** The endpoints that survive: absent ones without a port, and present ones with a canonical zone. */
  ghost predicate Survives(e: AddrPort) {
    && (e.addr.NoAddr? ==> e.port == 0)
    && (e.addr.V6? ==> CanonicalZone(e.addr.zone))
  }

  lemma EndpointRoundTrip(e: AddrPort)
    requires EncodableEndpoint(e)
    ensures ParseEndpoint(EndpointBytes(e)) == Recovered(e)
    ensures Recovered(e) == e <==> Survives(e)
  {
    hide Htons, LE16, LE32, BE32, U16At, U32At, V4At, Scope, ZoneOf, CanonicalZone;
    var b := EndpointBytes(e);
    match e.addr
    case NoAddr =>
      ZeroFamily(b);
    case V4(v) =>
      ReadLE16(b, 0, AF_INET);
      ReadLE16(b, 2, Htons(e.port));
      ReadBE32(b, 4, v);
      Swapped(e.port);
    case V6(bytes, zone) =>
      var scope := Scope(zone).value;
      assert b[24..28] == LE32(scope);
      ReadLE16(b, 0, AF_INET6);
      ReadLE16(b, 2, Htons(e.port));
      ReadLE32(b, 24, scope);
      Swapped(e.port);
      assert b[8..24] == bytes;
      ZoneRoundTrip(zone);
  }

  lemma ZeroFamily(b: seq<Byte>)
    requires b == Zeros(28)
    ensures U16At(b, 0) == 0
  {
  }

  // ---------------------------------------------------------------- allowed IPs

  function AllowedBytes(p: Prefix): (r: seq<Byte>)
    requires p.IsValid()
    ensures |r| == ALLOWED_SIZE
  {
    (if p.addr.V4? then BE32(p.addr.v4) + Zeros(12) + LE16(AF_INET) else p.addr.v6 + LE16(AF_INET6))
    + [p.bits] + Zeros(5)
  }

  /** netip.PrefixFrom: a length that does not fit the address makes the prefix invalid. */
  function PrefixFrom(a: Addr, bits: nat): Prefix
    requires a != NoAddr
  {
    Prefix(a, if bits <= (if a.V4? then 32 else 128) then bits else -1)
  }

  function ParseAllowed(b: seq<Byte>): Option<Prefix>
    requires |b| == ALLOWED_SIZE
  {
    if U16At(b, 16) == AF_INET then Some(PrefixFrom(V4(V4At(b, 0)), b[18]))
    else if U16At(b, 16) == AF_INET6 then Some(PrefixFrom(V6(b[..16], ""), b[18]))
    else None
  }

  lemma AllowedRoundTrip(p: Prefix)
    requires p.IsValid()
    ensures ParseAllowed(AllowedBytes(p)) == Some(p)
  {
    hide LE16, BE32, U16At, V4At;
    var b := AllowedBytes(p);
    assert b[18] == p.bits;
    if p.addr.V4? {
      assert b[16..18] == LE16(AF_INET);
      ReadLE16(b, 16, AF_INET);
      ReadBE32(b, 0, p.addr.v4);
    } else {
      assert b[16..18] == LE16(AF_INET6);
      ReadLE16(b, 16, AF_INET6);
      assert b[..16] == p.addr.v6;
    }
  }

  predicate AllValid(ps: seq<Prefix>) {
    forall i | 0 <= i < |ps| :: ps[i].IsValid()
  }

  function EncodeAllowed(ps: seq<Prefix>): (r: seq<Byte>)
    requires AllValid(ps)
    ensures |r| == ALLOWED_SIZE * |ps|
  {
    if ps == [] then [] else AllowedBytes(ps[0]) + EncodeAllowed(ps[1..])
  }

  /** The prefixes of the first `n` allowed-IP records; records of an unknown family are skipped. */
  function DecodeAllowed(b: seq<Byte>, n: nat): seq<Prefix>
    requires ALLOWED_SIZE * n <= |b|
    decreases n
  {
    if n == 0 then []
    else
      var rest := DecodeAllowed(b[24..], n - 1);
      match ParseAllowed(b[..24])
      case Some(p) => [p] + rest
      case None => rest
  }

  lemma {:induction false} AllAllowedRoundTrip(ps: seq<Prefix>, tail: seq<Byte>)
    requires AllValid(ps)
    ensures DecodeAllowed(EncodeAllowed(ps) + tail, |ps|) == ps
  {
    hide ParseAllowed, AllowedBytes, NetIp.Prefix.IsValid;
    if ps != [] {
      var b := EncodeAllowed(ps) + tail;
      assert b == AllowedBytes(ps[0]) + (EncodeAllowed(ps[1..]) + tail);
      assert b[..24] == AllowedBytes(ps[0]) && b[24..] == EncodeAllowed(ps[1..]) + tail;
      AllowedRoundTrip(ps[0]);
      AllAllowedRoundTrip(ps[1..], tail);
    }
  }

  // ---------------------------------------------------------------- peers

  predicate EncodablePeer(p: Peer) {
    |p.allowedIPs| < TWO32 && EncodableEndpoint(p.endpoint) && AllValid(p.allowedIPs)
  }

  function PeerFlags(p: Peer): U32 {
    PEER_HAS_PUBLIC_KEY + PEER_REPLACE_ALLOWED_IPS
    + (if p.keepalive > 0 then PEER_HAS_PERSISTENT else 0) + (if p.endpoint.IsValid() then PEER_HAS_ENDPOINT else 0)
  }

  /** Whole seconds, in sixteen bits. */
  function KeepaliveSeconds(p: Peer): U16 {
    if p.keepalive > 0 then p.keepalive / SECOND % 0x1_0000 else 0
  }

  function PeerRecord(flags: U32, key: Key, keepalive: U16, endpoint: seq<Byte>, count: U32): (r: seq<Byte>)
    requires |endpoint| == ENDPOINT_SIZE
    ensures |r| == PEER_SIZE
  {
    LE32(flags) + Zeros(4) + key + Zeros(32) + LE16(keepalive) + Zeros(2) + endpoint + Zeros(24)
    + LE32(count) + Zeros(4)
  }

  function PeerBytes(p: Peer): (r: seq<Byte>)
    requires EncodablePeer(p)
    ensures |r| == PEER_SIZE
  {
    PeerRecord(PeerFlags(p), p.publicKey, KeepaliveSeconds(p), EndpointBytes(p.endpoint), |p.allowedIPs|)
  }

  /** The byte offsets of the peer record are those of the driver's structure. */
  lemma PeerLayout(flags: U32, key: Key, keepalive: U16, endpoint: seq<Byte>, count: U32, b: seq<Byte>)
    requires |endpoint| == ENDPOINT_SIZE && PeerRecord(flags, key, keepalive, endpoint, count) <= b
    ensures |b| >= PEER_SIZE
    ensures U32At(b, 0) == flags && b[8..40] == key && b[40..72] == Zeros(32) && U16At(b, 72) == keepalive
    ensures b[76..104] == endpoint && U64At(b, 104) == U64At(b, 112) == U64At(b, 120) == 0 && U32At(b, 128) == count
  {
    hide LE16, LE32, U16At, U32At, U64At;
    var r := PeerRecord(flags, key, keepalive, endpoint, count);
    assert b[..136] == r;
    assert b[0..4] == r[0..4] == LE32(flags);
    assert b[8..40] == r[8..40] == key;
    assert b[40..72] == r[40..72] == Zeros(32);
    assert b[72..74] == r[72..74] == LE16(keepalive);
    assert b[76..104] == r[76..104] == endpoint;
    assert b[104..112] == r[104..112] == Zeros(8);
    assert b[112..120] == r[112..120] == Zeros(8);
    assert b[120..128] == r[120..128] == Zeros(8);
    assert b[128..132] == r[128..132] == LE32(count);
    ReadLE32(b, 0, flags);
    ReadLE16(b, 72, keepalive);
    ReadLE32(b, 128, count);
    ReadZeros(b, 104);
    ReadZeros(b, 112);
    ReadZeros(b, 120);
  }

  predicate EncodablePeers(ps: seq<Peer>) {
    forall i | 0 <= i < |ps| :: EncodablePeer(ps[i])
  }

  function EncodePeers(ps: seq<Peer>): seq<Byte>
    requires EncodablePeers(ps)
  {
    if ps == [] then [] else PeerBytes(ps[0]) + EncodeAllowed(ps[0].allowedIPs) + EncodePeers(ps[1..])
  }

  function ParsePeer(b: seq<Byte>, allowed: seq<Prefix>): PeerStatus
    requires |b| >= PEER_SIZE
  {
    PeerStatus(b[8..40], if HasFlag(U32At(b, 0), PEER_HAS_ENDPOINT) then ParseEndpoint(b[76..104]) else NoAddrPort,
               allowed, U64At(b, 104), U64At(b, 112), U64At(b, 120))
  }

  /** The first `n` peers of a buffer, unless it is too short for them. */
  function DecodePeers(b: seq<Byte>, n: nat): Option<seq<PeerStatus>>
    decreases n
  {
    if n == 0 then Some([])
    else if |b| < PEER_SIZE then None
    else
      var count := U32At(b, 128);
      var rest := b[136..];
      if count > |rest| / ALLOWED_SIZE then None
      else match DecodePeers(rest[ALLOWED_SIZE * count..], n - 1)
        case None => None
        case Some(peers) => Some([ParsePeer(b, DecodeAllowed(rest, count))] + peers)
  }

  /** What reading the buffer back says about one peer. */
  function StatusOf(p: Peer): PeerStatus
    requires EncodableEndpoint(p.endpoint)
  {
    PeerStatus(p.publicKey, Recovered(p.endpoint), p.allowedIPs, 0, 0, 0)
  }

  function StatusesOf(ps: seq<Peer>): (r: seq<PeerStatus>)
    requires EncodablePeers(ps)
    ensures |r| == |ps|
    ensures forall i | 0 <= i < |ps| :: r[i] == StatusOf(ps[i])
  {
    if ps == [] then [] else [StatusOf(ps[0])] + StatusesOf(ps[1..])
  }

  lemma PeerRoundTrip(p: Peer, tail: seq<Byte>)
    requires EncodablePeer(p)
    ensures var b := PeerBytes(p) + EncodeAllowed(p.allowedIPs) + tail;
            && |b| >= PEER_SIZE && U32At(b, 128) == |p.allowedIPs| && b[136..] == EncodeAllowed(p.allowedIPs) + tail
            && ParsePeer(b, p.allowedIPs) == StatusOf(p)
  {
    hide U32At, U64At, ParseEndpoint, EndpointBytes, PeerRecord, HasFlag, PeerFlags, KeepaliveSeconds, EncodeAllowed;
    var b := PeerBytes(p) + EncodeAllowed(p.allowedIPs) + tail;
    PeerLayout(PeerFlags(p), p.publicKey, KeepaliveSeconds(p), EndpointBytes(p.endpoint), |p.allowedIPs|, b);
    EndpointFlag(p);
    EndpointRoundTrip(p.endpoint);
    assert b[136..] == EncodeAllowed(p.allowedIPs) + tail;
  }

  lemma EndpointFlag(p: Peer)
    ensures HasFlag(PeerFlags(p), PEER_HAS_ENDPOINT) <==> p.endpoint.IsValid()
  {
  }

  /** Reading fewer peers than were written gives the first of them. */
  lemma {:induction false} PeersRoundTrip(ps: seq<Peer>, n: nat)
    requires EncodablePeers(ps) && n <= |ps|
    ensures DecodePeers(EncodePeers(ps), n) == Some(StatusesOf(ps)[..n])
    decreases n
  {
    hide EncodablePeer, EncodeAllowed, DecodeAllowed, U32At, PeerBytes, ParsePeer, StatusOf;
    if n > 0 {
      var p, tail := ps[0], EncodePeers(ps[1..]);
      var b := EncodePeers(ps);
      EncodableParts(p);
      PeerRoundTrip(p, tail);
      AllAllowedRoundTrip(p.allowedIPs, tail);
      PeersRoundTrip(ps[1..], n - 1);
      assert b[136..][ALLOWED_SIZE * |p.allowedIPs|..] == tail;
      assert StatusesOf(ps)[..n] == [StatusOf(p)] + StatusesOf(ps[1..])[..n - 1];
    }
  }

  lemma EncodableParts(p: Peer)
    requires EncodablePeer(p)
    ensures |p.allowedIPs| < TWO32 && EncodableEndpoint(p.endpoint) && AllValid(p.allowedIPs)
  {
  }

  // ---------------------------------------------------------------- whole buffers

  function InterfaceFlags(c: Configuration): U32 {
    INTERFACE_HAS_PRIVATE_KEY + INTERFACE_HAS_LISTEN_PORT + if c.replacePeers then INTERFACE_REPLACE_PEERS else 0
  }

  /** The number of peers is kept in 32 bits. */
  function PeerCount(c: Configuration): U32 { |c.peers| % TWO32 }

  function InterfaceBytes(c: Configuration): (r: seq<Byte>)
    ensures |r| == INTERFACE_SIZE
  {
    LE32(InterfaceFlags(c)) + LE16(c.listenPort) + c.privateKey + Zeros(34) + LE32(PeerCount(c)) + Zeros(4)
  }

  /** The byte offsets of the interface record are those of the driver's structure. */
  lemma InterfaceLayout(c: Configuration, b: seq<Byte>)
    requires InterfaceBytes(c) <= b
    ensures |b| >= INTERFACE_SIZE
    ensures U32At(b, 0) == InterfaceFlags(c) && U16At(b, 4) == c.listenPort && b[6..38] == c.privateKey
    ensures b[38..70] == Zeros(32) && U32At(b, 72) == PeerCount(c)
  {
    hide LE16, LE32, U16At, U32At, InterfaceFlags, PeerCount;
    var r := InterfaceBytes(c);
    assert b[..80] == r;
    assert b[0..4] == r[0..4] == LE32(InterfaceFlags(c));
    assert b[4..6] == r[4..6] == LE16(c.listenPort);
    assert b[6..38] == r[6..38] == c.privateKey;
    assert b[38..70] == r[38..70] == Zeros(32);
    assert b[72..76] == r[72..76] == LE32(PeerCount(c));
    ReadLE32(b, 0, InterfaceFlags(c));
    ReadLE16(b, 4, c.listenPort);
    ReadLE32(b, 72, PeerCount(c));
  }

  function Encode(c: Configuration): seq<Byte>
    requires EncodablePeers(c.peers)
  {
    InterfaceBytes(c) + EncodePeers(c.peers)
  }

  function Decode(b: seq<Byte>): Option<Status> {
    if |b| < INTERFACE_SIZE then None
    else match DecodePeers(b[80..], U32At(b, 72))
      case None => None
      case Some(peers) =>
        Some(Status(if HasFlag(U32At(b, 0), INTERFACE_HAS_PUBLIC_KEY) then b[38..70] else ZERO_KEY, U16At(b, 4), peers))
  }

  /** Reading back what was written. */
  lemma RoundTrip(c: Configuration)
    requires EncodablePeers(c.peers)
    ensures Decode(Encode(c)) == Some(Status(ZERO_KEY, c.listenPort, StatusesOf(c.peers)[..PeerCount(c)]))
  {
    hide EncodePeers, DecodePeers, StatusesOf, EncodablePeers, U16At, U32At, InterfaceBytes, PeerCount;
    var b := Encode(c);
    InterfaceLayout(c, b);
    CountFits(c);
    assert b[80..] == EncodePeers(c.peers);
    PeersRoundTrip(c.peers, PeerCount(c));
  }

  lemma CountFits(c: Configuration)
    ensures PeerCount(c) <= |c.peers|
    ensures PeerCount(c) == |c.peers| <==> |c.peers| < TWO32
  {
  }

  /** What a caller hopes to read back about a peer. */
  function Wanted(p: Peer): PeerStatus { PeerStatus(p.publicKey, p.endpoint, p.allowedIPs, 0, 0, 0) }

  ghost predicate RecoversAll(c: Configuration, s: Status) {
    |s.peers| == |c.peers| && forall i | 0 <= i < |c.peers| :: s.peers[i] == Wanted(c.peers[i])
  }

  /** Every peer is recovered, in order, exactly when the peers can be counted in 32 bits and every endpoint
      is absent without a port or present with no zone or a canonical numeric one. */
  lemma RecoversExactly(c: Configuration)
    requires EncodablePeers(c.peers)
    ensures Decode(Encode(c)).Some?
    ensures RecoversAll(c, Decode(Encode(c)).value) <==>
            |c.peers| < TWO32 && forall i | 0 <= i < |c.peers| :: Survives(c.peers[i].endpoint)
  {
    hide Decode, Encode, PeerCount, Survives, Recovered, EndpointBytes, ParseEndpoint, EncodableEndpoint;
    RoundTrip(c);
    CountFits(c);
    forall i | 0 <= i < |c.peers|
      ensures EncodableEndpoint(c.peers[i].endpoint)
      ensures StatusOf(c.peers[i]) == Wanted(c.peers[i]) <==> Survives(c.peers[i].endpoint)
    {
      EncodableParts(c.peers[i]);
      EndpointRoundTrip(c.peers[i].endpoint);
    }
  }

  /** A validated configuration can be encoded exactly when its zones name interfaces and its lists can be counted. */
  lemma ValidIsEncodable(c: Configuration)
    requires ValidConfiguration(c)
    ensures EncodablePeers(c.peers) <==>
            forall i | 0 <= i < |c.peers| :: |c.peers[i].allowedIPs| < TWO32 && EncodableEndpoint(c.peers[i].endpoint)
  {
    forall i | 0 <= i < |c.peers|
      ensures AllValid(c.peers[i].allowedIPs)
    {
      assert ValidPeer(c.peers[i]);
      forall j | 0 <= j < |c.peers[i].allowedIPs|
        ensures c.peers[i].allowedIPs[j].IsValid()
      {
        assert HostPrefix(c.peers[i].allowedIPs[j]);
      }
    }
  }

  /** A zone with a leading zero is encoded but read back without it. */
  lemma LeadingZeroIsLost(bytes: Bytes16, port: U16)
    ensures var e := AddrPort(V6(bytes, "01"), port);
            EncodableEndpoint(e) && Recovered(e) == AddrPort(V6(bytes, "1"), port) != e
  {
    assert "01"[..1] == "0" && "0"[..0] == "";
    assert DigitsValue("0") == 0;
    assert DigitsValue("01") == 1;
  }

  // ---------------------------------------------------------------- the loops

  lemma {:induction false} AllowedSnoc(ps: seq<Prefix>, p: Prefix)
    requires AllValid(ps) && p.IsValid()
    ensures AllValid(ps + [p]) && EncodeAllowed(ps + [p]) == EncodeAllowed(ps) + AllowedBytes(p)
  {
    hide AllowedBytes, NetIp.Prefix.IsValid;
    if ps == [] {
      assert ps + [p] == [p] && [p][1..] == [];
    } else {
      AllowedSnoc(ps[1..], p);
      assert (ps + [p])[1..] == ps[1..] + [p];
    }
  }

  lemma {:induction false} PeersSnoc(ps: seq<Peer>, p: Peer)
    requires EncodablePeers(ps) && EncodablePeer(p)
    ensures EncodablePeers(ps + [p])
    ensures EncodePeers(ps + [p]) == EncodePeers(ps) + PeerBytes(p) + EncodeAllowed(p.allowedIPs)
  {
    hide PeerBytes, EncodablePeer, EncodeAllowed;
    EncodableParts(p);
    if ps == [] {
      assert ps + [p] == [p] && [p][1..] == [];
    } else {
      EncodableParts(ps[0]);
      PeersSnoc(ps[1..], p);
      assert (ps + [p])[1..] == ps[1..] + [p] && (ps + [p])[0] == ps[0];
      Regroup(PeerBytes(ps[0]) + EncodeAllowed(ps[0].allowedIPs), EncodePeers(ps[1..]), PeerBytes(p),
              EncodeAllowed(p.allowedIPs));
    }
  }

  lemma Regroup(a: seq<Byte>, b: seq<Byte>, c: seq<Byte>, d: seq<Byte>)
    ensures a + (b + c + d) == a + b + c + d
  {
  }

  /** buildConfiguration: appends record after record; it fails exactly on what cannot be encoded. */
  method BuildConfiguration(c: Configuration) returns (r: Option<seq<Byte>>)
    ensures r.Some? <==> EncodablePeers(c.peers)
    ensures r.Some? ==> r.value == Encode(c)
  {
    hide InterfaceBytes, PeerRecord, EndpointBytes, EncodableEndpoint, PeerFlags, KeepaliveSeconds, EncodeAllowed,
         AllValid;
    var buffer := InterfaceBytes(c);
    for i := 0 to |c.peers|
      invariant EncodablePeers(c.peers[..i])
      invariant buffer == InterfaceBytes(c) + EncodePeers(c.peers[..i])
    {
      var peer := c.peers[i];
      if |peer.allowedIPs| >= TWO32 || !EncodableEndpoint(peer.endpoint) { return None; }
      buffer := buffer + PeerRecord(PeerFlags(peer), peer.publicKey, KeepaliveSeconds(peer),
                                    EndpointBytes(peer.endpoint), |peer.allowedIPs|);
      var ok;
      buffer, ok := AppendAllowed(buffer, peer.allowedIPs);
      if !ok { return None; }
      PeersSnoc(c.peers[..i], peer);
      assert c.peers[..i + 1] == c.peers[..i] + [peer];
    }
    assert c.peers[..|c.peers|] == c.peers;
    r := Some(buffer);
  }

  method AppendAllowed(start: seq<Byte>, ps: seq<Prefix>) returns (buffer: seq<Byte>, ok: bool)
    ensures ok <==> AllValid(ps)
    ensures ok ==> buffer == start + EncodeAllowed(ps)
  {
    hide AllowedBytes, NetIp.Prefix.IsValid;
    buffer := start;
    for i := 0 to |ps|
      invariant AllValid(ps[..i])
      invariant buffer == start + EncodeAllowed(ps[..i])
    {
      if !ps[i].IsValid() { return buffer, false; }
      AllowedSnoc(ps[..i], ps[i]);
      assert ps[..i + 1] == ps[..i] + [ps[i]];
      buffer := buffer + AllowedBytes(ps[i]);
    }
    assert ps[..|ps|] == ps;
    ok := true;
  }

  function Before(peers: seq<PeerStatus>, rest: Option<seq<PeerStatus>>): Option<seq<PeerStatus>> {
    match rest
    case None => None
    case Some(more) => Some(peers + more)
  }

  /** One turn of the peer loop. */
  lemma DecodeStep(b: seq<Byte>, n: nat)
    requires n > 0
    ensures |b| < PEER_SIZE ==> DecodePeers(b, n) == None
    ensures |b| >= PEER_SIZE && U32At(b, 128) > (|b| - PEER_SIZE) / ALLOWED_SIZE ==> DecodePeers(b, n) == None
    ensures |b| >= PEER_SIZE && U32At(b, 128) <= (|b| - PEER_SIZE) / ALLOWED_SIZE ==>
              var next := PEER_SIZE + ALLOWED_SIZE * U32At(b, 128);
              && next <= |b|
              && DecodePeers(b, n) ==
                 Before([ParsePeer(b, DecodeAllowed(b[136..], U32At(b, 128)))], DecodePeers(b[next..], n - 1))
  {
    hide U32At, ParsePeer, DecodeAllowed;
    if |b| >= PEER_SIZE && U32At(b, 128) <= (|b| - PEER_SIZE) / ALLOWED_SIZE {
      SameWindow(b, 136, ALLOWED_SIZE * U32At(b, 128));
    }
  }

  lemma BeforeBoth(a: seq<PeerStatus>, b: seq<PeerStatus>, rest: Option<seq<PeerStatus>>)
    ensures Before(a, Before(b, rest)) == Before(a + b, rest)
  {
    if rest.Some? { assert a + (b + rest.value) == a + b + rest.value; }
  }

  /** parseStatus: an offset moves over any buffer whatever; no read is outside it. */
  method ParseStatus(b: seq<Byte>) returns (r: Option<Status>)
    ensures r == Decode(b)
  {
    hide U32At, U16At, U64At, ParsePeer, HasFlag, DecodePeers, DecodeAllowed;
    if |b| < INTERFACE_SIZE { return None; }
    var count, offset := U32At(b, 72), INTERFACE_SIZE;
    var peers: seq<PeerStatus> := [];
    BeforeNothing(DecodePeers(b[80..], count));
    for i := 0 to count
      invariant INTERFACE_SIZE <= offset <= |b|
      invariant DecodePeers(b[80..], count) == Before(peers, DecodePeers(b[offset..], count - i))
    {
      DecodeStep(b[offset..], count - i);
      if offset + PEER_SIZE > |b| { return None; }
      var allowedCount := U32At(b[offset..], 128);
      if allowedCount > (|b| - (offset + PEER_SIZE)) / ALLOWED_SIZE { return None; }
      SameWindow(b, offset, PEER_SIZE);
      SameWindow(b, offset, PEER_SIZE + ALLOWED_SIZE * allowedCount);
      var allowed := ParseAllowedList(b, offset + PEER_SIZE, allowedCount);
      var peer := ParsePeer(b[offset..], allowed);
      offset := offset + PEER_SIZE + ALLOWED_SIZE * allowedCount;
      BeforeBoth(peers, [peer], DecodePeers(b[offset..], count - i - 1));
      peers := peers + [peer];
    }
    NoPeersLeft(b[offset..], peers);
    var key := if HasFlag(U32At(b, 0), INTERFACE_HAS_PUBLIC_KEY) then b[38..70] else ZERO_KEY;
    r := Some(Status(key, U16At(b, 4), peers));
  }

  lemma BeforeNothing(rest: Option<seq<PeerStatus>>)
    ensures Before([], rest) == rest
  {
    if rest.Some? { assert [] + rest.value == rest.value; }
  }

  lemma NoPeersLeft(b: seq<Byte>, peers: seq<PeerStatus>)
    ensures Before(peers, DecodePeers(b, 0)) == Some(peers)
  {
    assert peers + [] == peers;
  }

  lemma SameWindow(b: seq<Byte>, o: nat, n: nat)
    requires o + n <= |b|
    ensures b[o..][n..] == b[o + n..] && b[o..][..n] == b[o..o + n]
  {
  }

  method ParseAllowedList(b: seq<Byte>, start: nat, count: nat) returns (ps: seq<Prefix>)
    requires start + ALLOWED_SIZE * count <= |b|
    ensures ps == DecodeAllowed(b[start..], count)
  {
    hide ParseAllowed, DecodeAllowed;
    ps := [];
    var offset := start;
    for i := 0 to count
      invariant offset == start + ALLOWED_SIZE * i
      invariant DecodeAllowed(b[start..], count) == ps + DecodeAllowed(b[offset..], count - i)
    {
      AllowedStep(b, offset, count - i);
      var p := ParseAllowed(b[offset..offset + ALLOWED_SIZE]);
      if p.Some? { ps := ps + [p.value]; }
      offset := offset + ALLOWED_SIZE;
    }
    NoneAllowedLeft(b[offset..]);
  }

  /** One turn of the allowed-IP loop. */
  lemma AllowedStep(b: seq<Byte>, o: nat, n: nat)
    requires n > 0 && o + ALLOWED_SIZE * n <= |b|
    ensures DecodeAllowed(b[o..], n) ==
            (match ParseAllowed(b[o..o + ALLOWED_SIZE]) case Some(p) => [p] case None => [])
            + DecodeAllowed(b[o + ALLOWED_SIZE..], n - 1)
  {
    hide ParseAllowed;
    SameWindow(b, o, ALLOWED_SIZE);
  }

  lemma NoneAllowedLeft(b: seq<Byte>)
    ensures DecodeAllowed(b, 0) == []
  {
  }
}
