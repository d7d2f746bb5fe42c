/** From the repository to the data plane: what a reachable repository hands out is never refused as
    invalid by the client that applies it. */
module EndToEnd {
  import opened Text
  import opened NetIp
  import opened AddressPool
  import opened Control
  import opened Relational
  import opened Memory
  import CacheKey
  import Checks
  import Constraints
  import Rows
  import P = Planner
  import W = WireGuard
  import R = Reconciler
  import A = Applier
  import Codec

  /** Members' public keys are canonical encodings of non-zero keys: decoding them loses nothing. */
  ghost predicate CanonicalKeys(o: P.Options, encode: W.Key -> string, db: Db, n: Id) {
    forall k | k in db.memberships && k.0 == n && k.1 in db.nodes :: CanonicalKey(o, encode, db.nodes[k.1].publicKey)
  }

  ghost predicate CanonicalKey(o: P.Options, encode: W.Key -> string, text: string) {
    o.parseKey(text).Some? && !W.IsZero(o.parseKey(text).value) && encode(o.parseKey(text).value) == text
  }

  /** A snapshot's peers are active members other than its reader, each once, as their rows say. */
  lemma PeerRows(db: Db, n: Id, local: Id, now: Time, maxAge: int, i: nat)
    requires BuildSnapshot(db, n, local, now, maxAge).Some?
    requires i < |BuildSnapshot(db, n, local, now, maxAge).value.peers|
    ensures var p := BuildSnapshot(db, n, local, now, maxAge).value.peers[i];
            var ids := InOrder(PeerIds(db, n, local));
            && |ids| == |BuildSnapshot(db, n, local, now, maxAge).value.peers|
            && (n, ids[i]) in db.memberships && ids[i] in db.nodes && ids[i] != local
            && p == PeerOf(db, n, ids[i], now, maxAge)
  {
    hide InOrder, PeerOf, RelayFor;
    PeerIdsInOrder(db, n, local);
    var ids := InOrder(PeerIds(db, n, local));
    assert ids[i] in Elements(ids);
  }

  lemma PeerIsAcceptable(o: P.Options, encode: W.Key -> string, db: Db, n: Id, local: Id, now: Time, maxAge: int,
                         i: nat)
    requires WellFormed(db) && CanonicalKeys(o, encode, db, n)
    requires BuildSnapshot(db, n, local, now, maxAge).Some?
    requires i < |BuildSnapshot(db, n, local, now, maxAge).value.peers|
    ensures var s := BuildSnapshot(db, n, local, now, maxAge).value;
            P.PeerAcceptable(o, s, s.peers[i])
  {
    hide InOrder, BuildSnapshot, Blank, W.IsZero, InvitesOk, EndpointsOk, RelaysOk, NetworksOk, NewPool, Contains,
         FreshEndpoints;
    PeerRows(db, n, local, now, maxAge, i);
    SnapshotHead(db, n, local, now, maxAge);
    var d := InOrder(PeerIds(db, n, local))[i];
    assert MembershipOk(db, (n, d), db.memberships[(n, d)]);
    assert CanonicalKey(o, encode, db.nodes[d].publicKey);
  }

  lemma SnapshotHead(db: Db, n: Id, local: Id, now: Time, maxAge: int)
    requires BuildSnapshot(db, n, local, now, maxAge).Some?
    ensures n in db.networks && (n, local) in db.memberships && local in db.nodes
    ensures var s := BuildSnapshot(db, n, local, now, maxAge).value;
            && s.networkId == db.networks[n].id && s.generation == db.networks[n].configVersion
            && s.localNodeId == local && s.localVirtualIPv4 == db.memberships[(n, local)].virtualIPv4
  {
    hide InOrder, PeerOf, RelayFor;
  }

  lemma PeersAreDistinct(o: P.Options, encode: W.Key -> string, db: Db, n: Id, local: Id, now: Time, maxAge: int,
                         i: nat, j: nat)
    requires WellFormed(db) && CanonicalKeys(o, encode, db, n)
    requires BuildSnapshot(db, n, local, now, maxAge).Some?
    requires i < j < |BuildSnapshot(db, n, local, now, maxAge).value.peers|
    ensures var s := BuildSnapshot(db, n, local, now, maxAge).value;
            && o.parseKey(s.peers[i].publicKey) != o.parseKey(s.peers[j].publicKey)
            && s.peers[i].virtualIPv4 != s.peers[j].virtualIPv4
  {
    hide InOrder, BuildSnapshot, Blank, W.IsZero, InvitesOk, EndpointsOk, RelaysOk, NetworksOk, NewPool, Contains,
         FreshEndpoints, ValidNode;
    PeerRows(db, n, local, now, maxAge, i);
    PeerRows(db, n, local, now, maxAge, j);
    var ids := InOrder(PeerIds(db, n, local));
    AscendingHasNoRepeats(ids, i, j);
    assert CanonicalKey(o, encode, db.nodes[ids[i]].publicKey) && CanonicalKey(o, encode, db.nodes[ids[j]].publicKey);
  }

  /** Every snapshot of a well-formed repository with canonical keys is accepted by plan. */
  lemma SnapshotsArePlannable(o: P.Options, encode: W.Key -> string, db: Db, n: Id, local: Id, now: Time, maxAge: int)
    requires WellFormed(db) && CanonicalKeys(o, encode, db, n)
    ensures var s := BuildSnapshot(db, n, local, now, maxAge);
            s.Some? ==> P.Plannable(o, s.value)
  {
    hide BuildSnapshot, Blank, InvitesOk, EndpointsOk, RelaysOk, NewPool, Contains, CanonicalKeys, P.PeerAcceptable,
         ValidNode;
    var s := BuildSnapshot(db, n, local, now, maxAge);
    if s.Some? {
      SnapshotHead(db, n, local, now, maxAge);
      LocalIsNamed(db, n, local);
      forall i | 0 <= i < |s.value.peers|
        ensures P.PeerAcceptable(o, s.value, s.value.peers[i])
      {
        PeerIsAcceptable(o, encode, db, n, local, now, maxAge, i);
      }
      forall i, j | 0 <= i < j < |s.value.peers|
        ensures o.parseKey(s.value.peers[i].publicKey) != o.parseKey(s.value.peers[j].publicKey)
                && s.value.peers[i].virtualIPv4 != s.value.peers[j].virtualIPv4
      {
        PeersAreDistinct(o, encode, db, n, local, now, maxAge, i, j);
      }
    }
  }

  lemma LocalIsNamed(db: Db, n: Id, local: Id)
    requires WellFormed(db) && n in db.networks && (n, local) in db.memberships && local in db.nodes
    ensures db.networks[n].id == n && !Blank(n) && !Blank(local) && db.memberships[(n, local)].virtualIPv4.V4?
  {
    hide Blank, InvitesOk, EndpointsOk, RelaysOk, NewPool, Contains;
    assert MembershipOk(db, (n, local), db.memberships[(n, local)]);
    assert db.nodes[local].id == local;
  }

  /** Whatever run built the repository, every snapshot it gives names its network, is accepted by plan and carries
      a generation. */
  lemma ReachableSnapshotsAreAccepted(run: seq<CacheKey.Txn>, o: P.Options, encode: W.Key -> string, n: Id, local: Id,
                                      now: Time, maxAge: int)
    requires CacheKey.RoomForRun(EmptyDb, run) && CanonicalKeys(o, encode, CacheKey.After(EmptyDb, run), n)
    ensures var s := BuildSnapshot(CacheKey.After(EmptyDb, run), n, local, now, maxAge);
            s.Some? ==> P.Plannable(o, s.value) && s.value.generation > 0 && s.value.networkId == n
  {
    hide WellFormed, BuildSnapshot, CacheKey.After, CacheKey.RoomForRun, P.Plannable, CanonicalKeys;
    var db := CacheKey.After(EmptyDb, run);
    CacheKey.EmptyIsWellFormed();
    CacheKey.ReachableIsWellFormed(run);
    Checks.RunStaysPositive(EmptyDb, run);
    SnapshotsArePlannable(o, encode, db, n, local, now, maxAge);
    if BuildSnapshot(db, n, local, now, maxAge).Some? {
      SnapshotHead(db, n, local, now, maxAge);
      LocalIsNamed(db, n, local);
    }
  }

  // ---------------------------------------------------------------- delivery

  /** No call to the system fails. */
  ghost predicate FaultFree(p: A.Plant) { forall k: nat :: !p.backendFaults(k) && !p.adapterFaults(k) }

  /** Delivering the snapshot a reachable repository hands out: it can fail because it is stale or because the
      system does, but never because it is invalid, as long as the adapter reports an interface; where no call fails,
      it succeeds. On success a snapshot of its generation is in force, this one unless that generation was in force
      already. */
  method Deliver(applier: A.Applier, lost: A.Lost, repo: MemoryRepository, n: Id, local: Id, now: Time, clock: Time,
                 ghost run: seq<CacheKey.Txn>, ghost encode: W.Key -> string) returns (s: Option<Snapshot>, e: A.Error)
    requires applier.Valid() && repo.Valid()
    requires repo.Contents() == CacheKey.After(EmptyDb, run) && CacheKey.RoomForRun(EmptyDb, run)
    requires CanonicalKeys(applier.options, encode, repo.Contents(), n)
    modifies applier.Footprint()
    ensures applier.Valid()
    ensures s == BuildSnapshot(old(repo.Contents()), n, local, if now == 0 then clock else now, repo.endpointMaxAge)
    ensures e == A.InvalidSnapshot ==> applier.adapter.device.Some? && applier.adapter.device.value.luid == 0
    ensures s.Some? && e == A.NoError ==>
              && applier.source.Some? && A.InForce(applier.options, applier.source.value, applier.state)
              && applier.generation == applier.source.value.generation == s.value.generation
              && (old(applier.generation) != s.value.generation ==> applier.source == s)
    ensures s.None? ==> applier.Now() == old(applier.Now())
    ensures s.Some? ==>
              e == if s.value.generation < old(applier.generation) then A.StaleSnapshot
                   else if s.value.generation == old(applier.generation) then A.NoError
                   else A.RenewOutcome(applier.Site(), old(applier.Now()), lost, s.value)
    ensures (&& s.Some? && FaultFree(applier.Site()) && !lost.forward
             && old(applier.Now()).Luid(applier.Site()) != 0 && old(applier.generation) <= s.value.generation)
            ==> e == A.NoError
  {
    hide A.Applier.Valid, A.InForce, P.Plannable, BuildSnapshot, MemoryRepository.Valid, MemoryRepository.Contents,
         CacheKey.After, CacheKey.RoomForRun, CanonicalKeys, A.Follows, A.Tidy, A.RenewOutcome;
    e := A.NoError;
    repo.SoundLayout();
    assert forall o | o in repo.Repr() :: allocated(o);
    s := repo.BuildSnapshotAt(n, local, now, clock);
    ReachableSnapshotsAreAccepted(run, applier.options, encode, n, local, if now == 0 then clock else now,
                                  repo.endpointMaxAge);
    if s.Some? {
      ghost var p, m := applier.Site(), applier.Now();
      applier.LogOfValid();
      if FaultFree(p) && !lost.forward && m.Luid(p) != 0 && applier.generation <= s.value.generation {
        A.WithoutFaults(p, m, lost.back, s.value);
      }
      ghost var undone;
      e, undone := applier.Apply(false, lost, s.value);
    }
  }

  // ---------------------------------------------------------------- who is reached

  /** A route to a member's address and a peer with its key. */
  ghost predicate Reaches(o: P.Options, st: A.State, node: Node, m: Membership, i: nat)
    requires i < |st.routes| == |st.config.peers|
  {
    && st.routes[i].destination == Prefix(m.virtualIPv4, 32)
    && st.config.peers[i].allowedIPs == [Prefix(m.virtualIPv4, 32)]
    && o.parseKey(node.publicKey) == Some(st.config.peers[i].publicKey)
  }

  ghost predicate ReachesSomeone(db: Db, n: Id, local: Id, o: P.Options, st: A.State, i: nat)
    requires i < |st.routes| == |st.config.peers|
  {
    exists d :: Rows.IsPeer(db, n, local, d) && Reaches(o, st, db.nodes[d], db.memberships[(n, d)], i)
  }

  /** Once a snapshot is in force, the data plane reaches exactly the other active members of the network, each through
      one route and one peer: every one of them, and nobody else. */
  lemma ReachesActiveMembers(db: Db, n: Id, local: Id, now: Time, maxAge: int, o: P.Options, s: Snapshot, st: A.State)
    requires WellFormed(db) && BuildSnapshot(db, n, local, now, maxAge) == Some(s) && A.InForce(o, s, st)
    ensures |st.routes| == |st.config.peers| == |s.peers|
    ensures forall d | Rows.IsPeer(db, n, local, d) ::
              exists i: nat :: i < |s.peers| && Reaches(o, st, db.nodes[d], db.memberships[(n, d)], i)
    ensures forall i: nat | i < |s.peers| :: ReachesSomeone(db, n, local, o, st, i)
  {
    hide WellFormed, BuildSnapshot, A.InForce, Rows.IsPeer, Reaches;
    Rows.SnapshotExactly(db, n, local, now, maxAge, s);
    InForceLengths(o, s, st);
    forall i: nat | i < |s.peers|
      ensures Reaches(o, st, db.nodes[s.peers[i].nodeId], db.memberships[(n, s.peers[i].nodeId)], i)
      ensures ReachesSomeone(db, n, local, o, st, i)
    {
      assert Rows.Listed(s, s.peers[i].nodeId);
      ReachesPeer(db, n, now, maxAge, o, s, st, i);
    }
    forall d | Rows.IsPeer(db, n, local, d)
      ensures exists i: nat :: i < |s.peers| && Reaches(o, st, db.nodes[d], db.memberships[(n, d)], i)
    {
      assert Rows.Listed(s, d);
      var i: nat :| i < |s.peers| && s.peers[i].nodeId == d;
    }
  }

  lemma InForceLengths(o: P.Options, s: Snapshot, st: A.State)
    requires A.InForce(o, s, st)
    ensures |st.routes| == |st.config.peers| == |s.peers|
  {
  }

  lemma ReachesPeer(db: Db, n: Id, now: Time, maxAge: int, o: P.Options, s: Snapshot, st: A.State, i: nat)
    requires A.InForce(o, s, st) && i < |s.peers| == |st.routes| == |st.config.peers|
    requires Rows.PeerShown(db, n, now, maxAge, s.peers[i])
    ensures Reaches(o, st, db.nodes[s.peers[i].nodeId], db.memberships[(n, s.peers[i].nodeId)], i)
  {
    hide A.InForce, P.Chosen;
    A.InForceMeans(o, s, st, i);
  }

  // ---------------------------------------------------------------- skipping is sound

  /** What is in force does not depend on LastSeen and ClientVersion. */
  lemma ErasedInForce(o: P.Options, s: Snapshot, t: Snapshot, st: A.State)
    requires CacheKey.EraseSnapshot(s) == CacheKey.EraseSnapshot(t) && A.InForce(o, s, st)
    ensures A.InForce(o, t, st)
  {
    hide P.Selected;
    var u, v := CacheKey.EraseSnapshot(s), CacheKey.EraseSnapshot(t);
    assert |s.peers| == |u.peers| == |v.peers| == |t.peers|;
    forall i | 0 <= i < |t.peers|
      ensures t.peers[i].virtualIPv4 == s.peers[i].virtualIPv4
      ensures P.PlannedPeer(o, P.RelayOf(t), t.peers[i], st.config.peers[i])
    {
      assert u.peers[i] == CacheKey.ErasePeer(s.peers[i]) && v.peers[i] == CacheKey.ErasePeer(t.peers[i]);
      assert P.PlannedPeer(o, P.RelayOf(s), s.peers[i], st.config.peers[i]);
    }
  }

  /** The reason a client may skip a snapshot whose generation it has: take any two moments of any run; if what was
      built at the first is in force and the second shows the same generation, then what the second builds at
      the same time of reading is in force already. */
  lemma SkippingIsSound(before: seq<CacheKey.Txn>, between: seq<CacheKey.Txn>, n: Id, local: Id, now: Time, maxAge: int,
                        o: P.Options, st: A.State)
    requires CacheKey.RoomForRun(CacheKey.After(EmptyDb, before), between)
    requires var a := CacheKey.After(EmptyDb, before);
             var b := CacheKey.After(a, between);
             var s, t := BuildSnapshot(a, n, local, now, maxAge), BuildSnapshot(b, n, local, now, maxAge);
             s.Some? && t.Some? && s.value.generation == t.value.generation && A.InForce(o, s.value, st)
    ensures var b := CacheKey.After(CacheKey.After(EmptyDb, before), between);
            A.InForce(o, BuildSnapshot(b, n, local, now, maxAge).value, st)
  {
    hide BuildSnapshot, CacheKey.After, CacheKey.RoomForRun, A.InForce;
    var a := CacheKey.After(EmptyDb, before);
    var b := CacheKey.After(a, between);
    SnapshotHead(a, n, local, now, maxAge);
    SnapshotHead(b, n, local, now, maxAge);
    CacheKey.VersionIsSoundCacheKey(before, between, n, local, now, maxAge);
    ErasedInForce(o, BuildSnapshot(a, n, local, now, maxAge).value, BuildSnapshot(b, n, local, now, maxAge).value, st);
  }

  // ---------------------------------------------------------------- plans fit the driver's buffer

  /** The addresses of endpoints are net.IP values, which have no zone. */
  ghost predicate ZoneFree(cs: set<Endpoint>) { forall c | c in cs :: c.address.V6? ==> c.address.zone == "" }

  ghost predicate ZoneFreeSnapshot(s: Snapshot) {
    forall i | 0 <= i < |s.peers| :: ZoneFree(P.Candidates(s.peers[i], P.RelayOf(s)))
  }

  lemma SelectedSurvives(text: AddrPort -> string, cs: set<Endpoint>, r: AddrPort)
    requires P.Selected(text, cs, r) && ZoneFree(cs)
    ensures Codec.EncodableEndpoint(r) && Codec.Survives(r)
  {
    hide P.Before;
    if c :| c in cs && P.Eligible(c) {
      var b :| P.IsBest(text, cs, b) && r == P.Target(b);
    }
  }

  lemma PlannedPeerIsEncodable(o: P.Options, relay: Option<Relay>, p: Peer, w: W.Peer)
    requires P.PlannedPeer(o, relay, p, w) && ZoneFree(P.Candidates(p, relay)) && p.virtualIPv4.V4?
    ensures Codec.EncodablePeer(w) && Codec.Survives(w.endpoint)
  {
    hide P.Selected, P.Candidates, Codec.Survives, Codec.EncodableEndpoint;
    SelectedSurvives(o.text, P.Candidates(p, relay), w.endpoint);
  }

  /** What is in force can always be written for the driver, and is read back peer by peer exactly when there are fewer
      than 2^32 of them: the configuration of a plan never fails in the encoder. */
  lemma InForceFitsDriver(o: P.Options, s: Snapshot, st: A.State)
    requires A.InForce(o, s, st) && P.Plannable(o, s) && ZoneFreeSnapshot(s)
    ensures Codec.EncodablePeers(st.config.peers) && Codec.Decode(Codec.Encode(st.config)).Some?
    ensures Codec.RecoversAll(st.config, Codec.Decode(Codec.Encode(st.config)).value) <==> |s.peers| < TWO32
  {
    hide Codec.EncodablePeer, Codec.Survives, Codec.Decode, Codec.Encode, Codec.RecoversAll, P.PlannedPeer, ZoneFree,
         Blank, W.IsZero;
    forall i | 0 <= i < |s.peers|
      ensures Codec.EncodablePeer(st.config.peers[i]) && Codec.Survives(st.config.peers[i].endpoint)
    {
      assert P.PeerAcceptable(o, s, s.peers[i]);
      PlannedPeerIsEncodable(o, P.RelayOf(s), s.peers[i], st.config.peers[i]);
    }
    Codec.RecoversExactly(st.config);
  }
}
