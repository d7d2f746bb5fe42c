/** The driver's buffer byte by byte: numbers by their base-256 digits, records by their offsets
    (internal/wgnt/adapter_windows.go:38-79, 334-423). A buffer is what is written for a configuration exactly when its
    bytes are these. */
module Wire {
  import opened Text
  import opened NetIp
  import opened WireGuard
  import opened Codec

  // ---------------------------------------------------------------- numbers

  /** Least significant byte first. */
  ghost predicate Little16(b: seq<Byte>, o: nat, n: nat)
    requires o + 2 <= |b|
  {
    b[o] == n % 256 && b[o + 1] == n / 256
  }

  ghost predicate Little32(b: seq<Byte>, o: nat, n: nat)
    requires o + 4 <= |b|
  {
    b[o] == n % 256 && b[o + 1] == n / 256 % 256 && b[o + 2] == n / 0x1_0000 % 256 && b[o + 3] == n / 0x100_0000
  }

  /** Most significant byte first. */
  ghost predicate Big16(b: seq<Byte>, o: nat, n: nat)
    requires o + 2 <= |b|
  {
    b[o] == n / 256 && b[o + 1] == n % 256
  }

  ghost predicate Big32(b: seq<Byte>, o: nat, n: nat)
    requires o + 4 <= |b|
  {
    b[o] == n / 0x100_0000 && b[o + 1] == n / 0x1_0000 % 256 && b[o + 2] == n / 256 % 256 && b[o + 3] == n % 256
  }

  ghost predicate Zero(b: seq<Byte>, lo: nat, hi: nat)
    requires lo <= hi <= |b|
  {
    forall i | lo <= i < hi :: b[i] == 0
  }

  lemma LE16Bytes(n: U16)
    ensures LE16(n) == [n % 256, n / 256] && LE16(Htons(n)) == [n / 256, n % 256]
  {
    Halves(n % 256, n / 256);
  }

  lemma Quarters(n: U32)
    ensures n % 0x1_0000 % 256 == n % 256 && n % 0x1_0000 / 256 == n / 256 % 256
    ensures n / 0x1_0000 / 256 == n / 0x100_0000 < 256
  {
  }

  lemma LE32Bytes(n: U32)
    ensures LE32(n) == [n % 256, n / 256 % 256, n / 0x1_0000 % 256, n / 0x100_0000]
  {
    hide LE16, Htons;
    LE16Bytes(n % 0x1_0000);
    LE16Bytes(n / 0x1_0000);
    Quarters(n);
  }

  lemma BE32Bytes(n: U32)
    ensures BE32(n) == [n / 0x100_0000, n / 0x1_0000 % 256, n / 256 % 256, n % 256]
  {
    hide LE16, Htons;
    LE16Bytes(n % 0x1_0000);
    LE16Bytes(n / 0x1_0000);
    Quarters(n);
  }

  // ---------------------------------------------------------------- endpoints and allowed IPs

  /** A socket address: family 2 or 23, the port and an IPv4 address in network order, an IPv6 address as it is, and the
      interface index its zone spells. */
  ghost predicate EndpointOnWire(e: AddrPort, b: seq<Byte>)
    requires |b| == 28
  {
    match e.addr
    case NoAddr => Zero(b, 0, 28)
    case V4(v) => Little16(b, 0, 2) && Big16(b, 2, e.port) && Big32(b, 4, v) && Zero(b, 8, 28)
    case V6(bytes, zone) =>
      && Little16(b, 0, 23) && Big16(b, 2, e.port) && Zero(b, 4, 8) && b[8..24] == bytes
      && if zone == "" then Zero(b, 24, 28)
         else ParseDecimal(zone).Some? && ParseDecimal(zone).value < TWO32 && Little32(b, 24, ParseDecimal(zone).value)
  }

  lemma Parts28(b: seq<Byte>, p: seq<Byte>, q: seq<Byte>, r: seq<Byte>, s: seq<Byte>)
    requires |b| == 28 && |p| == 2 && |q| == 2 && |r| == 4 && |s| == 20
    ensures b == p + q + r + s <==>
            && b[0] == p[0] && b[1] == p[1] && b[2] == q[0] && b[3] == q[1]
            && b[4] == r[0] && b[5] == r[1] && b[6] == r[2] && b[7] == r[3] && b[8..28] == s
  {
    var w := p + q + r + s;
    assert w[8..28] == s;
    if && b[0] == p[0] && b[1] == p[1] && b[2] == q[0] && b[3] == q[1]
       && b[4] == r[0] && b[5] == r[1] && b[6] == r[2] && b[7] == r[3] && b[8..28] == s {
      forall i | 0 <= i < 28 ensures b[i] == w[i] {
        if i >= 8 { assert b[i] == b[8..28][i - 8]; }
      }
    }
  }

  lemma ZerosOn(b: seq<Byte>, lo: nat, hi: nat)
    requires lo <= hi <= |b|
    ensures b[lo..hi] == Zeros(hi - lo) <==> Zero(b, lo, hi)
  {
    if b[lo..hi] == Zeros(hi - lo) {
      forall i | lo <= i < hi ensures b[i] == 0 { assert b[i] == b[lo..hi][i - lo]; }
    }
  }

  lemma EndpointWire(e: AddrPort, b: seq<Byte>)
    requires EncodableEndpoint(e) && |b| == 28
    ensures b == EndpointBytes(e) <==> EndpointOnWire(e, b)
  {
    hide LE16, LE32, BE32, Htons, Scope, ParseDecimal, Zeros;
    match e.addr
    case NoAddr =>
      ZerosOn(b, 0, 28);
      assert b[0..28] == b;
    case V4(v) =>
      LE16Bytes(AF_INET);
      LE16Bytes(e.port);
      BE32Bytes(v);
      ZerosOn(b, 8, 28);
      Parts28(b, LE16(AF_INET), LE16(Htons(e.port)), BE32(v), Zeros(20));
    case V6(bytes, zone) =>
      LE16Bytes(AF_INET6);
      LE16Bytes(e.port);
      ScopeWire(zone, b);
      FourZeros();
      ZerosOn(b, 4, 8);
      assert Zeros(4) + bytes + LE32(Scope(zone).value) == Zeros(4) + (bytes + LE32(Scope(zone).value));
      Parts28(b, LE16(AF_INET6), LE16(Htons(e.port)), Zeros(4), bytes + LE32(Scope(zone).value));
      assert EndpointBytes(e) ==
             LE16(AF_INET6) + LE16(Htons(e.port)) + Zeros(4) + (bytes + LE32(Scope(zone).value));
      Tail20(b, bytes, LE32(Scope(zone).value));
  }

  lemma FourZeros()
    ensures Zeros(4) == [0, 0, 0, 0]
  {
  }

  lemma Tail20(b: seq<Byte>, bytes: seq<Byte>, scope: seq<Byte>)
    requires |b| == 28 && |bytes| == 16 && |scope| == 4
    ensures b[8..28] == bytes + scope <==> b[8..24] == bytes && b[24..28] == scope
  {
    assert b[8..28] == b[8..24] + b[24..28];
    assert (bytes + scope)[..16] == bytes && (bytes + scope)[16..] == scope;
  }

  lemma ScopeWire(zone: string, b: seq<Byte>)
    requires |b| == 28 && Scope(zone).Some?
    ensures b[24..28] == LE32(Scope(zone).value) <==>
            if zone == "" then Zero(b, 24, 28)
            else ParseDecimal(zone).Some? && ParseDecimal(zone).value < TWO32 && Little32(b, 24,
                                                                                          ParseDecimal(zone).value)
  {
    hide ParseDecimal, LE32;
    LE32Bytes(Scope(zone).value);
    assert b[24..28] == [b[24], b[25], b[26], b[27]];
  }

  /** An address in network order, its family, and the length of the prefix. */
  ghost predicate AllowedOnWire(p: Prefix, b: seq<Byte>)
    requires |b| == 24
  {
    && (if p.addr.V4? then Big32(b, 0, p.addr.v4) && Zero(b, 4, 16) && Little16(b, 16, 2)
        else p.addr.V6? && b[..16] == p.addr.v6 && Little16(b, 16, 23))
    && b[18] == p.bits && Zero(b, 19, 24)
  }

  lemma AllowedWire(p: Prefix, b: seq<Byte>)
    requires p.IsValid() && |b| == 24
    ensures b == AllowedBytes(p) <==> AllowedOnWire(p, b)
  {
    hide LE16, BE32, Zeros;
    var w := AllowedBytes(p);
    assert b == b[..16] + b[16..18] + b[18..19] + b[19..24];
    assert b[16..18] == [b[16], b[17]] && b[18..19] == [b[18]];
    assert w[18] == p.bits;
    ZerosOn(b, 19, 24);
    assert w[19..24] == Zeros(5);
    if p.addr.V4? {
      BE32Bytes(p.addr.v4);
      LE16Bytes(AF_INET);
      ZerosOn(b, 4, 16);
      assert w[16..18] == LE16(AF_INET) && w[..4] == BE32(p.addr.v4) && w[4..16] == Zeros(12);
      assert b[..16] == b[..4] + b[4..16] && b[..4] == [b[0], b[1], b[2], b[3]];
      assert w[..16] == w[..4] + w[4..16];
    } else {
      LE16Bytes(AF_INET6);
      assert w[16..18] == LE16(AF_INET6) && w[..16] == p.addr.v6;
    }
    assert w == w[..16] + w[16..18] + w[18..19] + w[19..24];
  }

  ghost predicate AllAllowedOnWire(ps: seq<Prefix>, b: seq<Byte>) {
    |b| == 24 * |ps| && forall j: nat | j < |ps| :: AllowedOnWire(ps[j], Chunk(b, j))
  }

  lemma {:induction false} AllAllowedWire(ps: seq<Prefix>, b: seq<Byte>)
    requires AllValid(ps)
    ensures b == EncodeAllowed(ps) <==> AllAllowedOnWire(ps, b)
  {
    hide AllowedOnWire, AllowedBytes, NetIp.Prefix.IsValid, Chunk;
    if ps != [] && |b| == 24 * |ps| {
      AllAllowedWire(ps[1..], b[24..]);
      AllowedWire(ps[0], b[..24]);
      assert b == b[..24] + b[24..];
      assert EncodeAllowed(ps)[..24] == AllowedBytes(ps[0]) && EncodeAllowed(ps)[24..] == EncodeAllowed(ps[1..]);
      FirstAndRest(ps, b);
    }
  }

  /** The j-th of the records of 24 bytes. */
  ghost function Chunk(b: seq<Byte>, j: nat): (r: seq<Byte>)
    requires 24 * (j + 1) <= |b|
    ensures |r| == 24
  {
    b[24 * j..24 * (j + 1)]
  }

  lemma NextChunk(b: seq<Byte>, j: nat)
    requires 24 * (j + 2) <= |b|
    ensures Chunk(b, j + 1) == Chunk(b[24..], j)
  {
    var c, d := Chunk(b, j + 1), Chunk(b[24..], j);
    assert |c| == 24 == |d|;
    forall i | 0 <= i < 24 ensures c[i] == d[i] {
      assert c[i] == b[24 * (j + 1) + i] && d[i] == b[24..][24 * j + i];
    }
  }

  lemma FirstAndRest(ps: seq<Prefix>, b: seq<Byte>)
    requires ps != [] && |b| == 24 * |ps|
    ensures AllAllowedOnWire(ps, b) <==> AllowedOnWire(ps[0], b[..24]) && AllAllowedOnWire(ps[1..], b[24..])
  {
    hide AllowedOnWire, Chunk;
    forall j: nat | j < |ps| - 1 ensures Chunk(b, j + 1) == Chunk(b[24..], j) && ps[j + 1] == ps[1..][j] {
      NextChunk(b, j);
    }
    FirstChunk(b);
    if AllAllowedOnWire(ps, b) {
      forall j: nat | j < |ps[1..]| ensures AllowedOnWire(ps[1..][j], Chunk(b[24..], j)) {
        assert AllowedOnWire(ps[j + 1], Chunk(b, j + 1));
      }
    }
    if AllowedOnWire(ps[0], b[..24]) && AllAllowedOnWire(ps[1..], b[24..]) {
      forall j: nat | j < |ps| ensures AllowedOnWire(ps[j], Chunk(b, j)) {
        if j > 0 {
          assert Chunk(b, j - 1 + 1) == Chunk(b[24..], j - 1);
          assert AllowedOnWire(ps[1..][j - 1], Chunk(b[24..], j - 1));
        }
      }
    }
  }

  lemma FirstChunk(b: seq<Byte>)
    requires |b| >= 24
    ensures Chunk(b, 0) == b[..24]
  {
  }

  // ---------------------------------------------------------------- peers

  /** Flags: 1 for the key, 32 for replacing the allowed IPs, 4 with a keepalive and 8 with an endpoint. */
  ghost function FlagByte(p: Peer): nat {
    33 + (if p.keepalive > 0 then 4 else 0) + (if p.endpoint.addr != NoAddr then 8 else 0)
  }

  /** A keepalive in whole seconds, as far as sixteen bits hold them. */
  ghost function Seconds(p: Peer): nat { if p.keepalive > 0 then p.keepalive / 1_000_000_000 % 0x1_0000 else 0 }

  ghost predicate PeerOnWire(p: Peer, b: seq<Byte>)
    requires |b| == 136
  {
    && b[0] == FlagByte(p) && Zero(b, 1, 8)
    && b[8..40] == p.publicKey && Zero(b, 40, 72)
    && Little16(b, 72, Seconds(p)) && Zero(b, 74, 76)
    && EndpointOnWire(p.endpoint, b[76..104]) && Zero(b, 104, 128)
    && Little32(b, 128, |p.allowedIPs|) && Zero(b, 132, 136)
  }

  lemma FlagsWire(p: Peer)
    ensures LE32(PeerFlags(p)) == [FlagByte(p), 0, 0, 0]
    ensures LE16(KeepaliveSeconds(p)) == [Seconds(p) % 256, Seconds(p) / 256]
  {
    hide LE32, LE16;
    LE32Bytes(PeerFlags(p));
    LE16Bytes(KeepaliveSeconds(p));
  }

  /** A record is its fields one after the other. */
  lemma RecordParts(b: seq<Byte>, flags: U32, key: Key, keepalive: U16, endpoint: seq<Byte>, count: U32)
    requires |b| == 136 && |endpoint| == 28
    ensures b == PeerRecord(flags, key, keepalive, endpoint, count) <==>
            && b[0..4] == LE32(flags) && b[4..8] == Zeros(4) && b[8..40] == key && b[40..72] == Zeros(32)
            && b[72..74] == LE16(keepalive) && b[74..76] == Zeros(2) && b[76..104] == endpoint
            && b[104..128] == Zeros(24) && b[128..132] == LE32(count) && b[132..136] == Zeros(4)
  {
    hide LE16, LE32, Zeros;
    var w := PeerRecord(flags, key, keepalive, endpoint, count);
    assert w[0..4] == LE32(flags) && w[4..8] == Zeros(4) && w[8..40] == key && w[40..72] == Zeros(32);
    assert w[72..74] == LE16(keepalive) && w[74..76] == Zeros(2) && w[76..104] == endpoint;
    assert w[104..128] == Zeros(24) && w[128..132] == LE32(count);
    var head := w[..132];
    assert w == head + Zeros(4);
    LastPart(head, Zeros(4));
    Pieces(b);
    Pieces(w);
  }

  lemma LastPart(head: seq<Byte>, tail: seq<Byte>)
    ensures (head + tail)[|head|..|head| + |tail|] == tail
  {
  }

  lemma Pieces(b: seq<Byte>)
    requires |b| == 136
    ensures b == b[0..4] + b[4..8] + b[8..40] + b[40..72] + b[72..74] + b[74..76] + b[76..104] + b[104..128]
                 + b[128..132] + b[132..136]
  {
  }

  lemma PeerWire(p: Peer, b: seq<Byte>)
    requires EncodablePeer(p) && |b| == 136
    ensures b == PeerBytes(p) <==> PeerOnWire(p, b)
  {
    hide LE16, LE32, Zeros, EndpointBytes, EndpointOnWire, PeerRecord, PeerFlags, KeepaliveSeconds, FlagByte, Seconds,
         EncodableEndpoint, AllValid;
    RecordParts(b, PeerFlags(p), p.publicKey, KeepaliveSeconds(p), EndpointBytes(p.endpoint), |p.allowedIPs|);
    FlagsWire(p);
    LE32Bytes(|p.allowedIPs|);
    EndpointWire(p.endpoint, b[76..104]);
    ZerosOn(b, 4, 8);
    ZerosOn(b, 40, 72);
    ZerosOn(b, 74, 76);
    ZerosOn(b, 104, 128);
    ZerosOn(b, 132, 136);
    assert b[0..4] == [b[0], b[1], b[2], b[3]] && b[72..74] == [b[72], b[73]];
    assert b[128..132] == [b[128], b[129], b[130], b[131]];
    assert Zero(b, 1, 8) <==> b[1] == 0 && b[2] == 0 && b[3] == 0 && Zero(b, 4, 8);
  }

  /** Where the record of peer i begins: after the interface and the peers before it with their allowed IPs. */
  ghost function Offset(ps: seq<Peer>, i: nat): nat
    requires i <= |ps|
  {
    if i == 0 then 80 else Offset(ps, i - 1) + 136 + 24 * |ps[i - 1].allowedIPs|
  }

  lemma {:induction false} OffsetsClimb(ps: seq<Peer>, i: nat, j: nat)
    requires i < j <= |ps|
    ensures 80 <= Offset(ps, i) && Offset(ps, i) + 136 + 24 * |ps[i].allowedIPs| <= Offset(ps, j)
    decreases j
  {
    if j - 1 > i { OffsetsClimb(ps, i, j - 1); }
    FromEighty(ps, i);
  }

  lemma {:induction false} FromEighty(ps: seq<Peer>, i: nat)
    requires i <= |ps|
    ensures 80 <= Offset(ps, i)
  {
    if i > 0 { FromEighty(ps, i - 1); }
  }

  // ---------------------------------------------------------------- the whole buffer

  /** Flags: 2 for the private key, 4 for the port and 8 for replacing peers. */
  ghost predicate InterfaceOnWire(c: Configuration, b: seq<Byte>)
    requires |b| >= 80
  {
    && b[0] == (if c.replacePeers then 14 else 6) && Zero(b, 1, 4)
    && Little16(b, 4, c.listenPort) && b[6..38] == c.privateKey && Zero(b, 38, 72)
    && Little32(b, 72, |c.peers| % TWO32) && Zero(b, 76, 80)
  }

  ghost predicate PeerAt(c: Configuration, b: seq<Byte>, i: nat)
    requires i < |c.peers|
  {
    var o, end := Offset(c.peers, i), Offset(c.peers, i + 1);
    && o + 136 <= end <= |b| && PeerOnWire(c.peers[i], b[o..o + 136])
    && AllAllowedOnWire(c.peers[i].allowedIPs, b[o + 136..end])
  }

  /** What the buffer of a configuration has to be. */
  ghost predicate OnWire(c: Configuration, b: seq<Byte>) {
    && |b| == Offset(c.peers, |c.peers|) && |b| >= 80 && InterfaceOnWire(c, b)
    && forall i: nat | i < |c.peers| :: PeerAt(c, b, i)
  }

  lemma InterfaceParts(b: seq<Byte>, flags: U32, port: U16, key: Key, count: U32)
    requires |b| == 80
    ensures b == LE32(flags) + LE16(port) + key + Zeros(34) + LE32(count) + Zeros(4) <==>
            && b[0..4] == LE32(flags) && b[4..6] == LE16(port) && b[6..38] == key && b[38..72] == Zeros(34)
            && b[72..76] == LE32(count) && b[76..80] == Zeros(4)
  {
    hide LE16, LE32, Zeros;
    var w := LE32(flags) + LE16(port) + key + Zeros(34) + LE32(count) + Zeros(4);
    assert w[0..4] == LE32(flags) && w[4..6] == LE16(port) && w[6..38] == key && w[38..72] == Zeros(34);
    assert w[72..76] == LE32(count) && w[76..80] == Zeros(4);
    assert b == b[0..4] + b[4..6] + b[6..38] + b[38..72] + b[72..76] + b[76..80];
  }

  lemma InterfaceFlagsWire(c: Configuration)
    ensures LE32(InterfaceFlags(c)) == [if c.replacePeers then 14 else 6, 0, 0, 0]
  {
    hide LE32;
    LE32Bytes(InterfaceFlags(c));
  }

  lemma InterfaceWire(c: Configuration, b: seq<Byte>)
    requires |b| == 80
    ensures b == InterfaceBytes(c) <==> InterfaceOnWire(c, b)
  {
    hide LE16, LE32, Zeros, InterfaceFlags;
    InterfaceParts(b, InterfaceFlags(c), c.listenPort, c.privateKey, PeerCount(c));
    InterfaceFlagsWire(c);
    LE16Bytes(c.listenPort);
    LE32Bytes(PeerCount(c));
    ZerosOn(b, 38, 72);
    ZerosOn(b, 76, 80);
    assert b[0..4] == [b[0], b[1], b[2], b[3]] && b[4..6] == [b[4], b[5]];
    assert b[72..76] == [b[72], b[73], b[74], b[75]];
  }

  /** What is written for the first n peers. */
  lemma {:induction false} PrefixLength(ps: seq<Peer>, n: nat)
    requires EncodablePeers(ps) && n <= |ps|
    ensures 80 + |EncodePeers(ps[..n])| == Offset(ps, n)
    ensures n < |ps| ==>
              EncodePeers(ps[..n + 1]) == EncodePeers(ps[..n]) + PeerBytes(ps[n]) + EncodeAllowed(ps[n].allowedIPs)
    decreases n
  {
    hide PeerBytes, EncodeAllowed, EncodablePeer;
    if n > 0 { PrefixLength(ps, n - 1); }
    if n < |ps| {
      PeersSnoc(ps[..n], ps[n]);
      assert ps[..n] + [ps[n]] == ps[..n + 1];
    }
    if n > 0 {
      EncodableParts(ps[n - 1]);
    } else {
      assert ps[..0] == [];
    }
  }

  /** A buffer that agrees with what is written for n peers agrees for one more exactly when that peer's bytes do. */
  lemma OneMorePeer(c: Configuration, b: seq<Byte>, n: nat)
    requires EncodablePeers(c.peers) && n < |c.peers| && Offset(c.peers, n + 1) <= |b|
    ensures 80 <= Offset(c.peers, n) <= Offset(c.peers, n + 1)
    ensures b[80..Offset(c.peers, n + 1)] == EncodePeers(c.peers[..n + 1]) <==>
            b[80..Offset(c.peers, n)] == EncodePeers(c.peers[..n]) && PeerAt(c, b, n)
  {
    hide PeerBytes, EncodeAllowed, EncodablePeer, PeerOnWire, AllAllowedOnWire, EncodePeers;
    var p, o, end := c.peers[n], Offset(c.peers, n), Offset(c.peers, n + 1);
    OffsetsClimb(c.peers, n, n + 1);
    PrefixLength(c.peers, n);
    PrefixLength(c.peers, n + 1);
    EncodableParts(p);
    PeerWire(p, b[o..o + 136]);
    AllAllowedWire(p.allowedIPs, b[o + 136..end]);
    assert b[80..end] == b[80..o] + b[o..o + 136] + b[o + 136..end];
    ThreeParts(b[80..o], b[o..o + 136], b[o + 136..end], EncodePeers(c.peers[..n]), PeerBytes(p),
               EncodeAllowed(p.allowedIPs));
  }

  lemma ThreeParts(a: seq<Byte>, b: seq<Byte>, c: seq<Byte>, x: seq<Byte>, y: seq<Byte>, z: seq<Byte>)
    requires |a| == |x| && |b| == |y| && |c| == |z|
    ensures a + b + c == x + y + z <==> a == x && b == y && c == z
  {
    var l, r := a + b + c, x + y + z;
    assert l[..|a|] == a && l[|a|..|a| + |b|] == b && l[|a| + |b|..] == c;
    assert r[..|a|] == x && r[|a|..|a| + |b|] == y && r[|a| + |b|..] == z;
  }

  lemma {:induction false} FirstPeers(c: Configuration, b: seq<Byte>, n: nat)
    requires EncodablePeers(c.peers) && n <= |c.peers| && |b| == Offset(c.peers, |c.peers|)
    ensures 80 <= Offset(c.peers, n) <= |b|
    ensures b[80..Offset(c.peers, n)] == EncodePeers(c.peers[..n]) <==> forall i: nat | i < n :: PeerAt(c, b, i)
    decreases n
  {
    hide EncodePeers, EncodablePeer, PeerAt;
    FromEighty(c.peers, n);
    if n < |c.peers| { OffsetsClimb(c.peers, n, |c.peers|); }
    if n == 0 {
      NoPeers(c.peers);
    } else {
      FirstPeers(c, b, n - 1);
      OneMorePeer(c, b, n - 1);
    }
  }

  lemma NoPeers(ps: seq<Peer>)
    ensures EncodablePeers(ps[..0]) && EncodePeers(ps[..0]) == [] && Offset(ps, 0) == 80
  {
  }

  /** A buffer is the one written for a configuration exactly when its bytes are the driver's. */
  lemma WireExactly(c: Configuration, b: seq<Byte>)
    requires EncodablePeers(c.peers)
    ensures b == Encode(c) <==> OnWire(c, b)
  {
    hide EncodePeers, EncodablePeer, PeerAt, InterfaceBytes, InterfaceOnWire;
    var n := |c.peers|;
    PrefixLength(c.peers, n);
    assert c.peers[..n] == c.peers;
    FromEighty(c.peers, n);
    if |b| == Offset(c.peers, n) {
      FirstPeers(c, b, n);
      InterfaceWire(c, b[..80]);
      assert b == b[..80] + b[80..] && b[80..Offset(c.peers, n)] == b[80..];
      assert Encode(c)[..80] == InterfaceBytes(c) && Encode(c)[80..] == EncodePeers(c.peers);
      SameInterface(c, b);
    }
  }

  lemma SameInterface(c: Configuration, b: seq<Byte>)
    requires |b| >= 80
    ensures InterfaceOnWire(c, b) <==> InterfaceOnWire(c, b[..80])
  {
    assert forall i | 0 <= i < 80 :: b[..80][i] == b[i];
    assert b[..80][6..38] == b[6..38];
  }

  // ---------------------------------------------------------------- reading

  /** The number of two or four bytes, least significant first. */
  ghost function Value2(p: int, q: int): int { p + 256 * q }

  ghost function Value4(p: int, q: int, r: int, s: int): int { p + 256 * (q + 256 * (r + 256 * s)) }

  /** The number of eight. */
  ghost function Value8(b: seq<Byte>, o: nat): int
    requires o + 8 <= |b|
  {
    Value4(b[o], b[o + 1], b[o + 2], b[o + 3])
    + 0x1_0000_0000 * Value4(b[o + 4], b[o + 5], b[o + 6], b[o + 7])
  }

  /** What the reader takes for the endpoint in a peer record. */
  ghost predicate EndpointRead(b: seq<Byte>, e: AddrPort)
    requires |b| == 28
  {
    if b[0] == 2 && b[1] == 0 then e.addr.V4? && Big32(b, 4, e.addr.v4) && Big16(b, 2, e.port)
    else if b[0] == 23 && b[1] == 0 then
      && e.addr.V6? && e.addr.v6 == b[8..24] && Big16(b, 2, e.port)
      && if Zero(b, 24, 28) then e.addr.zone == ""
         else exists n: U32 :: Little32(b, 24, n) && e.addr.zone == Decimal(n)
    else e == AddrPort(NoAddr, 0)
  }

  lemma PortRead(b: seq<Byte>, o: nat)
    requires o + 2 <= |b|
    ensures U16At(b, o) == Value2(b[o], b[o + 1]) && Htons(U16At(b, o)) == Value2(b[o + 1], b[o])
    ensures Big16(b, o, Htons(U16At(b, o)))
  {
    Halves(b[o + 1], b[o]);
    Halves(b[o], b[o + 1]);
  }

  lemma LowByte(p: Byte, m: nat)
    ensures Value2(p, m) % 256 == p && Value2(p, m) / 256 == m
  {
  }

  lemma Quotients(n: nat)
    ensures n / 256 / 256 == n / 0x1_0000 && n / 0x1_0000 / 256 == n / 0x100_0000
  {
  }

  lemma BytesOf(p: Byte, q: Byte, r: Byte, s: Byte)
    ensures var n := Value4(p, q, r, s);
            n % 256 == p && n / 256 % 256 == q && n / 0x1_0000 % 256 == r && n / 0x100_0000 == s
  {
    var m := Value2(r, s);
    LowByte(r, s);
    LowByte(q, m);
    LowByte(p, Value2(q, m));
    Quotients(Value4(p, q, r, s));
  }

  lemma WordRead(b: seq<Byte>, o: nat)
    requires o + 4 <= |b|
    ensures U32At(b, o) == Value4(b[o], b[o + 1], b[o + 2], b[o + 3])
    ensures V4At(b, o) == Value4(b[o + 3], b[o + 2], b[o + 1], b[o])
    ensures Little32(b, o, U32At(b, o)) && Big32(b, o, V4At(b, o))
  {
    hide Htons, U16At;
    PortRead(b, o);
    PortRead(b, o + 2);
    BytesOf(b[o], b[o + 1], b[o + 2], b[o + 3]);
    BytesOf(b[o + 3], b[o + 2], b[o + 1], b[o]);
  }

  lemma CounterRead(b: seq<Byte>, o: nat)
    requires o + 8 <= |b|
    ensures U64At(b, o) == Value8(b, o)
  {
    hide U32At, Value4;
    WordRead(b, o);
    WordRead(b, o + 4);
  }

  lemma EndpointIsRead(b: seq<Byte>)
    requires |b| == 28
    ensures EndpointRead(b, ParseEndpoint(b))
  {
    hide U16At, U32At, V4At, Htons, Decimal;
    PortRead(b, 0);
    PortRead(b, 2);
    WordRead(b, 4);
    WordRead(b, 24);
    assert Zero(b, 24, 28) <==> U32At(b, 24) == 0;
  }

  /** What the reader takes for a peer: its key, its endpoint if the flag says so, and the three counters in order. */
  lemma PeerIsRead(b: seq<Byte>, allowed: seq<Prefix>)
    requires |b| >= 136
    ensures var p := ParsePeer(b, allowed);
            && p.publicKey == b[8..40] && p.allowedIPs == allowed
            && p.tx == Value8(b, 104) && p.rx == Value8(b, 112) && p.lastHandshake == Value8(b, 120)
            && if b[0] / 8 % 2 == 1 then EndpointRead(b[76..104], p.endpoint) else p.endpoint == AddrPort(NoAddr, 0)
  {
    hide U32At, U64At, EndpointRead, ParseEndpoint, Value4, Value8;
    WordRead(b, 0);
    CounterRead(b, 104);
    CounterRead(b, 112);
    CounterRead(b, 120);
    EndpointIsRead(b[76..104]);
    BitInByte(b[0], b[1], b[2], b[3]);
  }

  lemma BitInByte(p: Byte, q: Byte, r: Byte, s: Byte)
    ensures Value4(p, q, r, s) / 8 % 2 == p / 8 % 2 && Value4(p, q, r, s) % 2 == p % 2
  {
    var m := Value2(q, Value2(r, s));
    assert Value4(p, q, r, s) == p + 256 * m;
    assert Value4(p, q, r, s) / 8 == p / 8 + 32 * m;
  }

  /** An allowed IP is read from its family, address and length; a length too large makes it invalid. */
  lemma AllowedIsRead(b: seq<Byte>)
    requires |b| == 24
    ensures var p := ParseAllowed(b);
            if b[16] == 2 && b[17] == 0 then
              && p.Some? && p.value.addr.V4? && Big32(b, 0, p.value.addr.v4)
              && p.value.bits == (if b[18] <= 32 then b[18] else -1)
            else if b[16] == 23 && b[17] == 0 then
              p == Some(Prefix(V6(b[..16], ""), if b[18] <= 128 then b[18] else -1))
            else p == None
  {
    hide U16At, V4At;
    PortRead(b, 16);
    WordRead(b, 0);
  }

  /** The head of a status: its port, its peers by the count, and the public key if the flag says so. */
  lemma HeadIsRead(b: seq<Byte>)
    requires |b| >= 80 && Decode(b).Some?
    ensures var s := Decode(b).value;
            && s.listenPort == Value2(b[4], b[5])
            && (if b[0] % 2 == 1 then s.publicKey == b[38..70] else forall i | 0 <= i < 32 :: s.publicKey[i] == 0)
            && Little32(b, 72, |s.peers|)
  {
    hide U16At, U32At, DecodePeers, Value2, Value4;
    PortRead(b, 4);
    WordRead(b, 0);
    WordRead(b, 72);
    BitInByte(b[0], b[1], b[2], b[3]);
    CountRead(b[80..], U32At(b, 72));
  }

  lemma {:induction false} CountRead(b: seq<Byte>, n: nat)
    ensures DecodePeers(b, n).Some? ==> |DecodePeers(b, n).value| == n
    decreases n
  {
    hide U32At, ParsePeer, DecodeAllowed;
    if n > 0 && |b| >= PEER_SIZE && U32At(b, 128) <= |b[136..]| / ALLOWED_SIZE {
      CountRead(b[136..][ALLOWED_SIZE * U32At(b, 128)..], n - 1);
    }
  }
}
