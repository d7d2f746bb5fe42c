/** From a snapshot to a WireGuard configuration, an address and host routes
    (internal/reconcile/snapshot.go:170-264). */
module Planner {
  import opened Text
  import opened NetIp
  import opened Control
  import W = WireGuard
  import R = Reconciler

  /** What NewApplier keeps. `parseKey` is base64 decoding to 32 bytes and `text` is AddrPort.String. */
  datatype Options = Options(privateKey: W.Key, listenPort: U16, keepalive: int,
                             parseKey: string -> Option<W.Key>, text: AddrPort -> string)

  /** The checks of NewApplier. */
  predicate ValidOptions(o: Options) {
    !W.IsZero(o.privateKey) && W.ValidKeepalive(o.keepalive)
  }

  // ---------------------------------------------------------------- choosing an endpoint

  predicate Eligible(e: Endpoint) {
    && e.address != NoAddr && e.port != 0 && e.observedAt != 0 && e.priority >= 0
    && e.address.IsGlobalUnicast()
    && ((e.family == IPv6 && e.address.V6?) || (e.family == IPv4 && e.address.V4?))
  }

  function Target(e: Endpoint): AddrPort { AddrPort(e.address, e.port) }

  function Rank(e: Endpoint): int { if e.address.V6? then 0 else 1 }

  /** IPv6 first, then lower priority, then the newer observation, then the smaller text. */
  predicate Before(text: AddrPort -> string, a: Endpoint, b: Endpoint) {
    if Rank(a) != Rank(b) then Rank(a) < Rank(b)
    else if a.priority != b.priority then a.priority < b.priority
    else if a.observedAt != b.observedAt then a.observedAt > b.observedAt
    else Less(text(Target(a)), text(Target(b)))
  }

  lemma BeforeTransitive(text: AddrPort -> string, a: Endpoint, b: Endpoint, c: Endpoint)
    requires Before(text, a, b) && Before(text, b, c)
    ensures Before(text, a, c)
  {
    hide Less;
    if Less(text(Target(a)), text(Target(b))) && Less(text(Target(b)), text(Target(c))) {
      LessTransitive(text(Target(a)), text(Target(b)), text(Target(c)));
    }
  }

  function RelayCandidate(peer: Peer, relay: Option<Relay>): set<Endpoint> {
    if relay.Some? && relay.value.status == RelayActive && relay.value.relayNodeId == peer.nodeId
       && relay.value.address != NoAddr && relay.value.port != 0
    then {Endpoint(peer.nodeId, relay.value.address, relay.value.port, relay.value.family, "relay", 0,
                   relay.value.assignedAt)}
    else {}
  }

  function Candidates(peer: Peer, relay: Option<Relay>): set<Endpoint> {
    peer.endpoints + RelayCandidate(peer, relay)
  }

  ghost predicate IsBest(text: AddrPort -> string, cs: set<Endpoint>, c: Endpoint) {
    c in cs && Eligible(c) && forall d | d in cs && Eligible(d) :: !Before(text, d, c)
  }

  /** The endpoint of a best candidate, or none when no candidate is eligible. */
  ghost predicate Selected(text: AddrPort -> string, cs: set<Endpoint>, r: AddrPort) {
    if exists c :: c in cs && Eligible(c) then exists c :: IsBest(text, cs, c) && r == Target(c)
    else r == NoAddrPort
  }

  method SelectEndpoint(peer: Peer, relay: Option<Relay>, text: AddrPort -> string) returns (r: AddrPort)
    ensures Selected(text, Candidates(peer, relay), r)
  {
    hide Eligible, Before, RelayCandidate;
    var all := Candidates(peer, relay);
    var rest := all;
    var best: Option<Endpoint> := None;
    while rest != {}
      invariant rest <= all
      invariant best.None? ==> forall d | d in all && d !in rest :: !Eligible(d)
      invariant best.Some? ==> IsBest(text, all - rest, best.value)
      decreases rest
    {
      var c :| c in rest;
      if Eligible(c) {
        if best.None? || Before(text, c, best.value) {
          forall d | d in all && d !in rest && Eligible(d) ensures !Before(text, d, c) {
            if Before(text, d, c) { BeforeTransitive(text, d, c, best.value); }
          }
          BeforeIrreflexive(text, c);
          best := Some(c);
        }
      }
      rest := rest - {c};
    }
    assert all - rest == all;
    if best.None? {
      r := NoAddrPort;
    } else {
      r := Target(best.value);
    }
  }

  lemma BeforeIrreflexive(text: AddrPort -> string, a: Endpoint)
    ensures !Before(text, a, a)
  {
    LessIrreflexive(text(Target(a)));
  }

  /** The selection depends on the set of candidates only: with texts that identify endpoints it is unique. */
  lemma SelectionIsUnique(text: AddrPort -> string, cs: set<Endpoint>, r: AddrPort, s: AddrPort)
    requires Selected(text, cs, r) && Selected(text, cs, s)
    requires forall c, d | c in cs && d in cs && text(Target(c)) == text(Target(d)) :: Target(c) == Target(d)
    ensures r == s
  {
    hide Eligible, Less;
    if c :| c in cs && Eligible(c) {
      var a :| IsBest(text, cs, a) && r == Target(a);
      var b :| IsBest(text, cs, b) && s == Target(b);
      LessTotal(text(Target(a)), text(Target(b)));
    }
  }

  // ---------------------------------------------------------------- the choice, told by fields

  /** What is offered for a peer: its endpoints, and the address of the relay when that peer is the active relay. */
  ghost predicate Offered(peer: Peer, relay: Option<Relay>, e: Endpoint) {
    || e in peer.endpoints
    || (&& relay.Some? && relay.value.status == RelayActive && relay.value.relayNodeId == peer.nodeId
        && relay.value.address != NoAddr && relay.value.port > 0
        && (e.nodeId, e.address, e.port, e.family) ==
           (peer.nodeId, relay.value.address, relay.value.port, relay.value.family)
        && e.interfaceName == "relay" && e.priority == 0 && e.observedAt == relay.value.assignedAt)
  }

  /** An offer that can be used: a global address of its family with a port, observed at some time. */
  ghost predicate Fit(e: Endpoint) {
    && ((e.family == IPv4 && e.address.V4?) || (e.family == IPv6 && e.address.V6?))
    && e.address.IsGlobalUnicast() && e.port > 0 && e.observedAt != 0 && e.priority >= 0
  }

  /** `e` need not give way to `f`: IPv6 goes before IPv4, then the lower priority, then the later observation, then the
      text that is not greater. */
  ghost predicate Keeps(text: AddrPort -> string, e: Endpoint, f: Endpoint) {
    && (f.address.V6? ==> e.address.V6?)
    && ((e.address.V6? <==> f.address.V6?) ==>
          && e.priority <= f.priority
          && (e.priority == f.priority ==>
                && e.observedAt >= f.observedAt
                && (e.observedAt == f.observedAt ==>
                      !Less(text(AddrPort(f.address, f.port)), text(AddrPort(e.address, e.port))))))
  }

  ghost predicate Winner(text: AddrPort -> string, peer: Peer, relay: Option<Relay>, e: Endpoint) {
    Offered(peer, relay, e) && Fit(e) && forall f | Offered(peer, relay, f) && Fit(f) :: Keeps(text, e, f)
  }

  ghost predicate Chosen(text: AddrPort -> string, peer: Peer, relay: Option<Relay>, r: AddrPort) {
    if exists e :: Offered(peer, relay, e) && Fit(e)
    then exists e :: Winner(text, peer, relay, e) && r == AddrPort(e.address, e.port)
    else r == AddrPort(NoAddr, 0)
  }

  lemma CandidatesAreOffered(peer: Peer, relay: Option<Relay>, e: Endpoint)
    ensures e in Candidates(peer, relay) <==> Offered(peer, relay, e)
  {
  }

  /** The endpoint selected for a peer is the winning offer, or none when no offer can be used. */
  lemma SelectionMeans(text: AddrPort -> string, peer: Peer, relay: Option<Relay>, r: AddrPort)
    ensures Selected(text, Candidates(peer, relay), r) <==> Chosen(text, peer, relay, r)
  {
    hide Candidates, Offered, Less, Eligible, Fit, Before, Keeps;
    var cs := Candidates(peer, relay);
    forall e ensures (e in cs <==> Offered(peer, relay, e)) && (Eligible(e) <==> Fit(e)) {
      CandidatesAreOffered(peer, relay, e);
      SameFitness(e);
    }
    forall e, f | Eligible(e) && Eligible(f) ensures !Before(text, f, e) <==> Keeps(text, e, f) {
      GivingWay(text, e, f);
    }
    forall e ensures IsBest(text, cs, e) <==> Winner(text, peer, relay, e) {}
  }

  lemma SameFitness(e: Endpoint)
    ensures Eligible(e) <==> Fit(e)
  {
  }

  lemma GivingWay(text: AddrPort -> string, e: Endpoint, f: Endpoint)
    requires Eligible(e) && Eligible(f)
    ensures !Before(text, f, e) <==> Keeps(text, e, f)
  {
    hide Less;
  }

  lemma SelectedHasPort(text: AddrPort -> string, cs: set<Endpoint>, r: AddrPort)
    requires Selected(text, cs, r)
    ensures r.IsValid() ==> r.port != 0
  {
    hide Before;
    if c :| c in cs && Eligible(c) {
      var b :| IsBest(text, cs, b) && r == Target(b);
    }
  }

  // ---------------------------------------------------------------- planning

  function RelayOf(s: Snapshot): Option<Relay> { if s.relayAssignment.None? then s.relay else s.relayAssignment }

  ghost predicate PeerAcceptable(o: Options, s: Snapshot, p: Peer) {
    && !Blank(p.nodeId) && p.nodeId != s.localNodeId
    && o.parseKey(p.publicKey).Some? && !W.IsZero(o.parseKey(p.publicKey).value)
    && p.virtualIPv4.V4? && p.virtualIPv4 != s.localVirtualIPv4
  }

  ghost predicate DistinctPeers(o: Options, peers: seq<Peer>) {
    forall i, j | 0 <= i < j < |peers| ::
      o.parseKey(peers[i].publicKey) != o.parseKey(peers[j].publicKey) && peers[i].virtualIPv4 != peers[j].virtualIPv4
  }

  /** The snapshots plan accepts. */
  ghost predicate Plannable(o: Options, s: Snapshot) {
    && !Blank(s.networkId) && !Blank(s.localNodeId) && s.localVirtualIPv4.V4?
    && (forall i | 0 <= i < |s.peers| :: PeerAcceptable(o, s, s.peers[i]))
    && DistinctPeers(o, s.peers)
  }

  /** Another node with an IPv4 address of its own and a key that is not zero. */
  ghost predicate SoundPeer(o: Options, s: Snapshot, p: Peer) {
    && !Blank(p.nodeId) && p.nodeId != s.localNodeId && p.virtualIPv4.V4? && p.virtualIPv4 != s.localVirtualIPv4
    && o.parseKey(p.publicKey).Some? && exists b :: 0 <= b < 32 && o.parseKey(p.publicKey).value[b] != 0
  }

  lemma SoundIsAcceptable(o: Options, s: Snapshot, p: Peer)
    ensures PeerAcceptable(o, s, p) <==> SoundPeer(o, s, p)
  {
    hide Blank;
  }

  /** What plan asks of a snapshot: names, an IPv4 address of its own, and sound peers with different addresses and
      different keys. */
  lemma PlannableMeans(o: Options, s: Snapshot)
    ensures Plannable(o, s) <==>
            && !Blank(s.networkId) && !Blank(s.localNodeId) && s.localVirtualIPv4.V4?
            && (forall i | 0 <= i < |s.peers| :: SoundPeer(o, s, s.peers[i]))
            && (forall i, j | 0 <= i < j < |s.peers| ::
                  && s.peers[i].virtualIPv4 != s.peers[j].virtualIPv4
                  && o.parseKey(s.peers[i].publicKey) != o.parseKey(s.peers[j].publicKey))
  {
    hide Blank, SoundPeer, PeerAcceptable;
    forall i | 0 <= i < |s.peers| ensures PeerAcceptable(o, s, s.peers[i]) <==> SoundPeer(o, s, s.peers[i]) {
      SoundIsAcceptable(o, s, s.peers[i]);
    }
  }

  ghost predicate PlannedPeer(o: Options, relay: Option<Relay>, p: Peer, w: W.Peer) {
    && o.parseKey(p.publicKey) == Some(w.publicKey)
    && Selected(o.text, Candidates(p, relay), w.endpoint)
    && w.keepalive == o.keepalive
    && w.allowedIPs == [Prefix(p.virtualIPv4, 32)]
  }

  function HostRoute(a: Addr, luid: U64): R.Route { R.Route(Prefix(a, 32), luid, NoAddr, 0) }

  datatype Plan = Rejected | Planned(config: W.Configuration, address: R.Address, routes: seq<R.Route>)

  /** Peers planned so far, one configuration entry and one route each. */
  ghost predicate PlannedSoFar(o: Options, s: Snapshot, i: nat, peers: seq<W.Peer>, routes: seq<R.Route>) {
    && i == |peers| == |routes| <= |s.peers|
    && (forall j | 0 <= j < i :: PeerAcceptable(o, s, s.peers[j]))
    && DistinctPeers(o, s.peers[..i])
    && (forall j | 0 <= j < i :: PlannedPeer(o, RelayOf(s), s.peers[j], peers[j]))
    && (forall j | 0 <= j < i :: routes[j] == HostRoute(s.peers[j].virtualIPv4, 0))
  }

  method MakePlan(o: Options, s: Snapshot) returns (r: Plan)
    requires ValidOptions(o)
    ensures r.Planned? <==> Plannable(o, s)
    ensures r.Planned? ==>
              && W.ValidConfiguration(r.config)
              && r.config.privateKey == o.privateKey && r.config.listenPort == o.listenPort && r.config.replacePeers
              && PlannedSoFar(o, s, |s.peers|, r.config.peers, r.routes)
              && r.address == R.Address(s.localVirtualIPv4, 32, 0)
  {
    hide Selected, W.IsZero, PlannedSoFar, Blank, W.ValidConfiguration, ValidOptions;
    if Blank(s.networkId) || Blank(s.localNodeId) { return Rejected; }
    if !s.localVirtualIPv4.V4? { return Rejected; }
    var peers: seq<W.Peer> := [];
    var routes: seq<R.Route> := [];
    var seenKeys: set<W.Key> := {};
    var seenAddresses: set<Addr> := {};
    PlanStart(o, s);
    for i := 0 to |s.peers|
      invariant PlannedSoFar(o, s, i, peers, routes)
      invariant forall j | 0 <= j < i :: o.parseKey(s.peers[j].publicKey).Some?
      invariant forall k :: k in seenKeys <==> exists j :: 0 <= j < i && o.parseKey(s.peers[j].publicKey) == Some(k)
      invariant forall a :: a in seenAddresses <==> exists j :: 0 <= j < i && s.peers[j].virtualIPv4 == a
    {
      var peer := s.peers[i];
      if Blank(peer.nodeId) || peer.nodeId == s.localNodeId { return Rejected; }
      var key := o.parseKey(peer.publicKey);
      if key.None? || W.IsZero(key.value) { return Rejected; }
      if key.value in seenKeys {
        ghost var j :| 0 <= j < i && o.parseKey(s.peers[j].publicKey) == key;
        return Rejected;
      }
      if !peer.virtualIPv4.V4? || peer.virtualIPv4 == s.localVirtualIPv4 { return Rejected; }
      if peer.virtualIPv4 in seenAddresses {
        ghost var j :| 0 <= j < i && s.peers[j].virtualIPv4 == peer.virtualIPv4;
        return Rejected;
      }
      seenKeys := seenKeys + {key.value};
      seenAddresses := seenAddresses + {peer.virtualIPv4};
      var endpoint := SelectEndpoint(peer, RelayOf(s), o.text);
      var planned := W.Peer(key.value, endpoint, o.keepalive, [Prefix(peer.virtualIPv4, 32)]);
      PlanStep(o, s, i, peers, routes, planned);
      peers := peers + [planned];
      routes := routes + [HostRoute(peer.virtualIPv4, 0)];
    }
    PlanEnd(o, s, peers, routes);
    var config := W.Configuration(o.privateKey, o.listenPort, peers, true);
    PlanIsValid(o, s, peers, routes, config);
    var ok := W.Validate(config);
    if !ok { return Rejected; }
    r := Planned(config, R.Address(s.localVirtualIPv4, 32, 0), routes);
  }

  lemma PlanStart(o: Options, s: Snapshot)
    ensures PlannedSoFar(o, s, 0, [], [])
  {
  }

  lemma PlanStep(o: Options, s: Snapshot, i: nat, peers: seq<W.Peer>, routes: seq<R.Route>, w: W.Peer)
    requires PlannedSoFar(o, s, i, peers, routes) && i < |s.peers|
    requires PeerAcceptable(o, s, s.peers[i]) && PlannedPeer(o, RelayOf(s), s.peers[i], w)
    requires forall j | 0 <= j < i :: o.parseKey(s.peers[j].publicKey) != o.parseKey(s.peers[i].publicKey)
                                      && s.peers[j].virtualIPv4 != s.peers[i].virtualIPv4
    ensures PlannedSoFar(o, s, i + 1, peers + [w], routes + [HostRoute(s.peers[i].virtualIPv4, 0)])
  {
    hide PeerAcceptable, PlannedPeer;
    assert s.peers[..i + 1] == s.peers[..i] + [s.peers[i]];
  }

  lemma PlanEnd(o: Options, s: Snapshot, peers: seq<W.Peer>, routes: seq<R.Route>)
    requires PlannedSoFar(o, s, |s.peers|, peers, routes)
    requires !Blank(s.networkId) && !Blank(s.localNodeId) && s.localVirtualIPv4.V4?
    ensures Plannable(o, s)
  {
    hide PeerAcceptable, PlannedPeer, Blank;
    assert s.peers[..|s.peers|] == s.peers;
  }

  /** Whatever is planned is a valid configuration, so the final Validate never rejects. */
  lemma PlanIsValid(o: Options, s: Snapshot, peers: seq<W.Peer>, routes: seq<R.Route>, config: W.Configuration)
    requires ValidOptions(o) && PlannedSoFar(o, s, |s.peers|, peers, routes)
    requires config == W.Configuration(o.privateKey, o.listenPort, peers, true)
    ensures W.ValidConfiguration(config)
  {
    hide Selected, W.IsZero, Blank, W.ValidKeepalive;
    assert s.peers[..|s.peers|] == s.peers;
    forall j | 0 <= j < |peers| ensures W.ValidPeer(peers[j]) {
      assert PeerAcceptable(o, s, s.peers[j]) && PlannedPeer(o, RelayOf(s), s.peers[j], peers[j]);
      SelectedHasPort(o.text, Candidates(s.peers[j], RelayOf(s)), peers[j].endpoint);
    }
    forall i, j | 0 <= i < j < |peers| ensures peers[i].publicKey != peers[j].publicKey {
      assert PlannedPeer(o, RelayOf(s), s.peers[i], peers[i]) && PlannedPeer(o, RelayOf(s), s.peers[j], peers[j]);
    }
  }

  // ---------------------------------------------------------------- stamping the interface

  function Stamp(a: R.Address, luid: U64): R.Address { a.(luid := luid) }

  function StampRoutes(routes: seq<R.Route>, luid: U64): (r: seq<R.Route>)
    ensures |r| == |routes| && forall i | 0 <= i < |routes| :: r[i] == routes[i].(luid := luid)
  {
    seq(|routes|, i requires 0 <= i < |routes| => routes[i].(luid := luid))
  }

  /** Once stamped with an interface, whatever was planned passes every check Reconcile makes. */
  lemma StampedIsAccepted(o: Options, s: Snapshot, peers: seq<W.Peer>, routes: seq<R.Route>, luid: U64)
    requires Plannable(o, s) && PlannedSoFar(o, s, |s.peers|, peers, routes) && luid != 0
    ensures R.Accepts(Stamp(R.Address(s.localVirtualIPv4, 32, 0), luid), StampRoutes(routes, luid))
  {
    hide PlannedPeer, Blank, W.IsZero;
    var stamped := StampRoutes(routes, luid);
    assert forall j | 0 <= j < |s.peers| :: PeerAcceptable(o, s, s.peers[j]);
    forall i, j | 0 <= i < j < |stamped| ensures stamped[i] != stamped[j] {
      assert stamped[i].destination.addr == s.peers[i].virtualIPv4;
      assert stamped[j].destination.addr == s.peers[j].virtualIPv4;
    }
  }
}
