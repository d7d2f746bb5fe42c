/** The platform-neutral WireGuard configuration and its validation (internal/wgnt/api.go). */
module WireGuard {
  import opened Text
  import opened NetIp

  type Key = s: seq<Byte> | |s| == 32 witness seq(32, _ => 0)

  const SECOND := 1_000_000_000

  datatype Peer = Peer(publicKey: Key, endpoint: AddrPort, keepalive: int, allowedIPs: seq<Prefix>)

  datatype Configuration = Configuration(privateKey: Key, listenPort: U16, peers: seq<Peer>, replacePeers: bool)

  predicate IsZero(k: Key) { forall i | 0 <= i < 32 :: k[i] == 0 }

  predicate HostPrefix(p: Prefix) {
    p.IsValid() && (p.addr.V4? ==> p.bits == 32) && (p.addr.V6? ==> p.bits == 128)
  }

  predicate ValidKeepalive(keepalive: int) {
    0 <= keepalive <= 65535 * SECOND && keepalive % SECOND == 0
  }

  predicate ValidPeer(p: Peer) {
    && !IsZero(p.publicKey)
    && (p.endpoint.IsValid() ==> p.endpoint.port != 0)
    && ValidKeepalive(p.keepalive)
    && forall i | 0 <= i < |p.allowedIPs| :: HostPrefix(p.allowedIPs[i])
  }

  ghost predicate DistinctKeys(peers: seq<Peer>) {
    forall i, j | 0 <= i < j < |peers| :: peers[i].publicKey != peers[j].publicKey
  }

  ghost predicate ValidConfiguration(c: Configuration) {
    && !IsZero(c.privateKey)
    && (forall i | 0 <= i < |c.peers| :: ValidPeer(c.peers[i]))
    && DistinctKeys(c.peers)
  }

  /** A keepalive is a whole number of seconds that sixteen bits hold; an allowed IP is a single host. */
  lemma ValidMeans(c: Configuration)
    ensures ValidConfiguration(c) <==>
            && (exists i :: 0 <= i < 32 && c.privateKey[i] != 0)
            && (forall i, j | 0 <= i < j < |c.peers| :: c.peers[i].publicKey != c.peers[j].publicKey)
            && (forall i | 0 <= i < |c.peers| :: PeerIsSound(c.peers[i]))
  {
    hide ValidPeer;
    forall i | 0 <= i < |c.peers| ensures ValidPeer(c.peers[i]) <==> PeerIsSound(c.peers[i]) {
      SoundPeers(c.peers[i]);
    }
  }

  ghost predicate PeerIsSound(p: Peer) {
    && (exists i :: 0 <= i < 32 && p.publicKey[i] != 0)
    && (p.endpoint.addr == NoAddr || 1 <= p.endpoint.port <= 65535)
    && (exists seconds: nat :: seconds <= 65535 && p.keepalive == seconds * 1_000_000_000)
    && (forall j | 0 <= j < |p.allowedIPs| ::
          var a := p.allowedIPs[j];
          (a.addr.V4? && a.bits == 32) || (a.addr.V6? && a.addr.zone == "" && a.bits == 128))
  }

  lemma SoundPeers(p: Peer)
    ensures ValidPeer(p) <==> PeerIsSound(p)
  {
    if ValidPeer(p) {
      assert p.keepalive == p.keepalive / SECOND * 1_000_000_000;
      assert p.keepalive / SECOND <= 65535;
    }
  }

  /** Configuration.Validate: the loop with its set of seen keys decides validity. */
  method Validate(c: Configuration) returns (ok: bool)
    ensures ok <==> ValidConfiguration(c)
  {
    hide IsZero, ValidPeer;
    if IsZero(c.privateKey) { return false; }
    var seen: set<Key> := {};
    for i := 0 to |c.peers|
      invariant forall k :: k in seen <==> exists j :: 0 <= j < i && c.peers[j].publicKey == k
      invariant forall j | 0 <= j < i :: ValidPeer(c.peers[j])
      invariant DistinctKeys(c.peers[..i])
    {
      var peer := c.peers[i];
      if peer.publicKey in seen {
        return false;
      }
      if !ValidPeer(peer) { return false; }
      assert c.peers[..i + 1] == c.peers[..i] + [peer];
      seen := seen + {peer.publicKey};
    }
    assert c.peers[..|c.peers|] == c.peers;
    ok := true;
  }
}
