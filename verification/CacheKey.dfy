/** The network version is a sound cache key. A client skips a snapshot whose generation it already
    has (internal/reconcile/snapshot.go:89), so two published states that show the same version of a
    network must give every member the same snapshot of it, up to observations that are not part of
    the configuration (Node.LastSeen and Node.ClientVersion). */
module CacheKey {
  import opened Text
  import opened NetIp
  import opened AddressPool
  import opened Control
  import opened Relational
  import opened Constraints

  // ---------------------------------------------------------------- what a snapshot can see

  function EraseNode(n: Node): Node { n.(lastSeen := 0, clientVersion := "") }

  function ErasePeer(p: Peer): Peer { p.(node := EraseNode(p.node)) }

  function EraseSnapshot(s: Snapshot): Snapshot {
    s.(peers := seq(|s.peers|, i requires 0 <= i < |s.peers| => ErasePeer(s.peers[i])))
  }

  /** Snapshots that are the same when erased differ only in when peers were last seen and in client versions. */
  lemma ErasedMeans(s: Snapshot, t: Snapshot)
    ensures EraseSnapshot(s) == EraseSnapshot(t) <==>
            && s == t.(peers := s.peers) && |s.peers| == |t.peers|
            && forall i | 0 <= i < |s.peers| ::
                 var p, q := s.peers[i], t.peers[i];
                 && p == q.(node := p.node)
                 && p.node == q.node.(lastSeen := p.node.lastSeen, clientVersion := p.node.clientVersion)
  {
    var u, v := EraseSnapshot(s), EraseSnapshot(t);
    if u == v {
      assert |u.peers| == |v.peers|;
      forall i | 0 <= i < |s.peers| ensures ErasePeer(s.peers[i]) == ErasePeer(t.peers[i]) {
        assert u.peers[i] == v.peers[i];
      }
      assert s == t.(peers := s.peers) by {
        assert s == u.(peers := s.peers) && t == v.(peers := t.peers);
      }
    }
    if && s == t.(peers := s.peers) && |s.peers| == |t.peers|
       && forall i | 0 <= i < |s.peers| ::
            && s.peers[i] == t.peers[i].(node := s.peers[i].node)
            && s.peers[i].node == t.peers[i].node.(lastSeen := s.peers[i].node.lastSeen,
                                                   clientVersion := s.peers[i].node.clientVersion) {
      assert u.peers == v.peers;
    }
  }

  /** The rows of one network that any of its snapshots depends on. */
  datatype View = View(network: Network, memberships: map<Pair, Membership>, nodes: map<Pair, Node>,
                       endpoints: set<Endpoint>, relays: map<Pair, Relay>)

  ghost function ViewOf(db: Db, n: Id): View
    requires n in db.networks
  {
    View(db.networks[n], Rows(db.memberships, n), MemberNodeRows(db, n), EndpointRows(db, n), Rows(db.relays, n))
  }

  ghost function Rows<V>(m: map<Pair, V>, n: Id): map<Pair, V> {
    map k | k in m && k.0 == n :: m[k]
  }

  ghost function MemberNodeRows(db: Db, n: Id): map<Pair, Node> {
    map k | k in db.memberships && k.0 == n && k.1 in db.nodes :: EraseNode(db.nodes[k.1])
  }

  ghost function EndpointRows(db: Db, n: Id): set<Endpoint> {
    set e | e in db.endpoints && (n, e.nodeId) in db.memberships
  }

  lemma SamePeerIds(a: Db, b: Db, n: Id, local: Id)
    requires n in a.networks && n in b.networks && ViewOf(a, n) == ViewOf(b, n)
    ensures PeerIds(a, n, local) == PeerIds(b, n, local)
  {
    var u, v := ViewOf(a, n), ViewOf(b, n);
    forall d ensures d in PeerIds(a, n, local) <==> d in PeerIds(b, n, local) {
      assert d in PeerIds(a, n, local) <==>
             (n, d) in u.nodes && (n, d) in u.memberships && d != local && u.memberships[(n, d)].status == Active;
      assert d in PeerIds(b, n, local) <==>
             (n, d) in v.nodes && (n, d) in v.memberships && d != local && v.memberships[(n, d)].status == Active;
    }
  }

  lemma SamePeer(a: Db, b: Db, n: Id, d: Id, now: Time, maxAge: int)
    requires n in a.networks && n in b.networks && ViewOf(a, n) == ViewOf(b, n)
    requires (n, d) in a.memberships && d in a.nodes
    ensures (n, d) in b.memberships && d in b.nodes
    ensures ErasePeer(PeerOf(a, n, d, now, maxAge)) == ErasePeer(PeerOf(b, n, d, now, maxAge))
  {
    var u, v := ViewOf(a, n), ViewOf(b, n);
    assert (n, d) in u.memberships && (n, d) in u.nodes;
    assert (n, d) in v.memberships && (n, d) in v.nodes;
    assert EraseNode(a.nodes[d]) == u.nodes[(n, d)] == v.nodes[(n, d)] == EraseNode(b.nodes[d]);
    forall e ensures e in FreshEndpoints(a, d, now, maxAge) <==> e in FreshEndpoints(b, d, now, maxAge) {
      assert e in u.endpoints <==> e in v.endpoints;
    }
  }

  lemma SameMember(a: Db, b: Db, n: Id, d: Id)
    requires n in a.networks && n in b.networks && ViewOf(a, n) == ViewOf(b, n)
    ensures ActiveMember(a, (n, d)) == ActiveMember(b, (n, d))
    ensures (n, d) in a.memberships <==> (n, d) in b.memberships
    ensures (n, d) in a.memberships ==> a.memberships[(n, d)] == b.memberships[(n, d)]
    ensures (n, d) in a.memberships ==> (d in a.nodes <==> d in b.nodes)
  {
    var u, v := ViewOf(a, n), ViewOf(b, n);
    assert (n, d) in u.memberships <==> (n, d) in v.memberships;
    assert (n, d) in u.nodes <==> (n, d) in v.nodes;
    if (n, d) in a.memberships { assert u.memberships[(n, d)] == v.memberships[(n, d)]; }
  }

  lemma SameRelay(a: Db, b: Db, n: Id, local: Id, now: Time)
    requires n in a.networks && n in b.networks && ViewOf(a, n) == ViewOf(b, n)
    ensures RelayFor(a, n, local, now) == RelayFor(b, n, local, now)
  {
    var u, v := ViewOf(a, n), ViewOf(b, n);
    assert (n, local) in u.relays <==> (n, local) in v.relays;
    if (n, local) in a.relays {
      assert u.relays[(n, local)] == v.relays[(n, local)];
      SameMember(a, b, n, a.relays[(n, local)].nodeId);
      SameMember(a, b, n, a.relays[(n, local)].relayNodeId);
    }
  }

  ghost predicate SameSnapshot(a: Db, b: Db, n: Id, local: Id, now: Time, maxAge: int) {
    var s, t := BuildSnapshot(a, n, local, now, maxAge), BuildSnapshot(b, n, local, now, maxAge);
    && (s.Some? <==> t.Some?)
    && (s.Some? ==> EraseSnapshot(s.value) == EraseSnapshot(t.value))
  }

  /** Equal views give equal snapshots. */
  lemma ViewDeterminesSnapshot(a: Db, b: Db, n: Id, local: Id, now: Time, maxAge: int)
    requires n in a.networks && n in b.networks && ViewOf(a, n) == ViewOf(b, n)
    ensures SameSnapshot(a, b, n, local, now, maxAge)
  {
    SameMember(a, b, n, local);
    SamePeerIds(a, b, n, local);
    SameRelay(a, b, n, local, now);
    assert a.networks[n] == b.networks[n];
    PeerIdsInOrder(a, n, local);
    PeerIdsInOrder(b, n, local);
    var ids := InOrder(PeerIds(a, n, local));
    hide ViewOf, InOrder, PeerIds, RelayFor, ActiveMember;
    SamePeers(a, b, n, ids, now, maxAge);
  }

  lemma SamePeers(a: Db, b: Db, n: Id, ids: seq<Id>, now: Time, maxAge: int)
    requires n in a.networks && n in b.networks && ViewOf(a, n) == ViewOf(b, n)
    requires forall i | 0 <= i < |ids| :: (n, ids[i]) in a.memberships && ids[i] in a.nodes
    requires forall i | 0 <= i < |ids| :: (n, ids[i]) in b.memberships && ids[i] in b.nodes
    ensures forall i | 0 <= i < |ids| ::
              ErasePeer(PeersOf(a, n, ids, now, maxAge)[i]) == ErasePeer(PeersOf(b, n, ids, now, maxAge)[i])
  {
    hide ViewOf, PeersOf, PeerOf, ErasePeer;
    forall i | 0 <= i < |ids|
      ensures ErasePeer(PeersOf(a, n, ids, now, maxAge)[i]) == ErasePeer(PeersOf(b, n, ids, now, maxAge)[i])
    {
      SamePeer(a, b, n, ids[i], now, maxAge);
    }
  }

  // ---------------------------------------------------------------- one step

  /** The networks an operation publishes a new version of. */
  ghost function Affected(db: Db, op: Op): set<Id> {
    if Exec(db, op).outcome != Done then {} else
      match op
      case OpRemoveNode(d) => AffectedByRemoval(db, d)
      case OpAddMembership(m) => {m.networkId}
      case OpRemoveMembership(n, _) => {n}
      case OpReplaceEndpoints(d, _) => NetworksOf(db, d)
      case OpSetRelay(a) => {a.networkId}
      case OpRemoveRelay(n) => {n}
      case _ => {}
  }

  /** Two states that agree on every row of a network show the same view of it. */
  lemma ViewFrame(a: Db, b: Db, n: Id)
    requires n in a.networks && n in b.networks && a.networks[n] == b.networks[n]
    requires forall k: Pair | k.0 == n :: (k in a.memberships <==> k in b.memberships)
    requires forall k | k in a.memberships && k.0 == n :: a.memberships[k] == b.memberships[k]
    requires forall k | k in a.memberships && k.0 == n :: k.1 in a.nodes && k.1 in b.nodes
    requires forall k | k in a.memberships && k.0 == n :: EraseNode(a.nodes[k.1]) == EraseNode(b.nodes[k.1])
    requires forall e: Endpoint | (n, e.nodeId) in a.memberships :: (e in a.endpoints <==> e in b.endpoints)
    requires forall k: Pair | k.0 == n :: (k in a.relays <==> k in b.relays)
    requires forall k | k in a.relays && k.0 == n :: a.relays[k] == b.relays[k]
    ensures ViewOf(a, n) == ViewOf(b, n)
  {
    hide EraseNode;
    hide Rows, MemberNodeRows, EndpointRows;
    SameRows(a.memberships, b.memberships, n);
    SameRows(a.relays, b.relays, n);
    SameMemberNodes(a, b, n);
    SameEndpoints(a, b, n);
  }

  lemma SameMemberNodes(a: Db, b: Db, n: Id)
    requires forall k: Pair | k.0 == n :: (k in a.memberships <==> k in b.memberships)
    requires forall k | k in a.memberships && k.0 == n :: k.1 in a.nodes && k.1 in b.nodes
    requires forall k | k in a.memberships && k.0 == n :: EraseNode(a.nodes[k.1]) == EraseNode(b.nodes[k.1])
    ensures MemberNodeRows(a, n) == MemberNodeRows(b, n)
  {
    hide EraseNode;
    var u, v := MemberNodeRows(a, n), MemberNodeRows(b, n);
    assert forall k :: k in u <==> k in a.memberships && k.0 == n;
    assert forall k :: k in v <==> k in a.memberships && k.0 == n;
    assert forall k | k in u :: u[k] == v[k];
  }

  lemma SameEndpoints(a: Db, b: Db, n: Id)
    requires forall k: Pair | k.0 == n :: (k in a.memberships <==> k in b.memberships)
    requires forall e: Endpoint | (n, e.nodeId) in a.memberships :: (e in a.endpoints <==> e in b.endpoints)
    ensures EndpointRows(a, n) == EndpointRows(b, n)
  {
    forall e: Endpoint ensures e in EndpointRows(a, n) <==> e in EndpointRows(b, n) {
      assert (n, e.nodeId).0 == n;
    }
  }

  lemma SameRows<V>(a: map<Pair, V>, b: map<Pair, V>, n: Id)
    requires forall k: Pair | k.0 == n :: (k in a <==> k in b)
    requires forall k | k in a && k.0 == n :: a[k] == b[k]
    ensures Rows(a, n) == Rows(b, n)
  {
  }

  lemma BumpedOnly(db: Db, affected: set<Id>, db': Db, n: Id)
    requires n in db.networks && db'.networks == BumpAll(db.networks, affected)
    ensures n in db'.networks
    ensures n in affected ==> db'.networks[n] == db.networks[n].(configVersion := Bump(db.networks[n].configVersion))
    ensures n !in affected ==> db'.networks[n] == db.networks[n]
  {
    hide Bump;
  }

  /** Rows of a network that survive the removal of a node from other networks. */
  lemma RemoveNodeView(db: Db, d: Id, n: Id)
    requires WellFormed(db) && d in db.nodes && n in db.networks && n !in AffectedByRemoval(db, d)
    ensures n in RemoveNode(db, d).db.networks
    ensures ViewOf(db, n) == ViewOf(RemoveNode(db, d).db, n)
  {
    hide NetworksOk, NodesOk, MembershipsOk, InvitesOk, EndpointsOk, RelaysOk, BumpAll, AffectedByRemoval,
         ForgetConsumer, ViewOf, EraseNode, Involves;
    var db' := RemoveNode(db, d).db;
    BumpedOnly(db, AffectedByRemoval(db, d), db', n);
    NotInvolved(db, d, n);
    MemberNodes(db);
    ViewFrame(db, db', n);
  }

  lemma NotInvolved(db: Db, d: Id, n: Id)
    requires n !in AffectedByRemoval(db, d)
    ensures (n, d) !in db.memberships
    ensures forall k | k in db.memberships && k.0 == n :: k.1 != d
    ensures forall k | k in db.relays && k.0 == n :: !Involves(db.relays[k], d)
  {
    hide Involves;
    forall k | k in db.memberships && k.0 == n ensures k.1 != d {
      assert k.1 == d ==> k.0 in NetworksOf(db, d);
    }
  }

  lemma ReplaceEndpointsView(db: Db, d: Id, list: seq<Endpoint>, n: Id)
    requires WellFormed(db) && n in db.networks && n !in NetworksOf(db, d)
    requires ReplaceEndpoints(db, d, list).outcome == Done
    ensures n in ReplaceEndpoints(db, d, list).db.networks
    ensures ViewOf(db, n) == ViewOf(ReplaceEndpoints(db, d, list).db, n)
  {
    hide NetworksOk, NodesOk, MembershipsOk, InvitesOk, EndpointsOk, RelaysOk, BumpAll, NetworksOf, ViewOf, EraseNode,
         EndpointsOutcome;
    var db' := ReplaceEndpoints(db, d, list).db;
    BumpedOnly(db, NetworksOf(db, d), db', n);
    NotMember(db, d, n);
    OwnEndpoints(d, list);
    MemberNodes(db);
    ViewFrame(db, db', n);
  }

  lemma NotMember(db: Db, d: Id, n: Id)
    requires n !in NetworksOf(db, d)
    ensures (n, d) !in db.memberships
  {
    assert (n, d) in db.memberships ==> (n, d).0 in NetworksOf(db, d);
  }

  lemma OwnEndpoints(d: Id, list: seq<Endpoint>)
    requires EndpointsOutcome(d, list) == Done
    ensures forall e | e in Elements(list) :: e.nodeId == d
  {
    hide ValidEndpoint, SameEndpoint, EndpointsOutcome;
    EndpointsOutcomeMeaning(d, list);
  }

  lemma MembershipOpsView(db: Db, op: Op, n: Id)
    requires WellFormed(db) && n in db.networks && n !in Affected(db, op)
    requires op.OpAddMembership? || op.OpRemoveMembership? || op.OpSetRelay? || op.OpRemoveRelay?
    requires Exec(db, op).outcome == Done
    ensures n in Exec(db, op).db.networks
    ensures ViewOf(db, n) == ViewOf(Exec(db, op).db, n)
  {
    var db' := Exec(db, op).db;
    hide NetworksOk, NodesOk, MembershipsOk, InvitesOk, EndpointsOk, RelaysOk, BumpAll, ViewOf, EraseNode, InPool,
         ValidRelay, ValidMembership;
    MemberNodes(db);
    BumpedOnly(db, Affected(db, op), db', n);
    ViewFrame(db, db', n);
  }

  lemma QuietOpsView(db: Db, op: Op, n: Id)
    requires WellFormed(db) && n in db.networks
    requires op.OpCreateNetwork? || op.OpAddNode? || op.OpTouchNode? || op.OpUpdateClientVersion?
             || op.OpCreateInvite? || op.OpRevokeInvite? || op.OpConsumeInvite?
    ensures n in Exec(db, op).db.networks
    ensures ViewOf(db, n) == ViewOf(Exec(db, op).db, n)
  {
    hide NetworksOk, NodesOk, MembershipsOk, InvitesOk, EndpointsOk, RelaysOk, ViewOf, Exec;
    MemberNodes(db);
    QuietRows(db, op, n);
    ViewFrame(db, Exec(db, op).db, n);
  }

  lemma QuietRows(db: Db, op: Op, n: Id)
    requires n in db.networks
    requires op.OpCreateNetwork? || op.OpAddNode? || op.OpTouchNode? || op.OpUpdateClientVersion?
             || op.OpCreateInvite? || op.OpRevokeInvite? || op.OpConsumeInvite?
    ensures var db' := Exec(db, op).db;
            && n in db'.networks && db'.networks[n] == db.networks[n]
            && db'.memberships == db.memberships && db'.endpoints == db.endpoints && db'.relays == db.relays
            && (forall d | d in db.nodes :: d in db'.nodes && EraseNode(db'.nodes[d]) == EraseNode(db.nodes[d]))
  {
    hide ValidNode, ValidNetwork, ValidInvite, ClassifyMiss, Consumable, Matches, Blank;
  }

  /** Each operation either bumps a network once or leaves everything its snapshots can see alone. */
  lemma StepView(db: Db, op: Op, n: Id)
    requires WellFormed(db) && n in db.networks
    ensures n in Exec(db, op).db.networks
    ensures n in Affected(db, op) ==>
              Exec(db, op).db.networks[n].configVersion == Bump(db.networks[n].configVersion)
    ensures n !in Affected(db, op) ==> ViewOf(db, n) == ViewOf(Exec(db, op).db, n)
  {
    hide Exec, WellFormed, ViewOf, Affected;
    if Exec(db, op).outcome != Done {
      FailureChangesNothing(db, op);
      NoneAffected(db, op);
    } else if Bumping(op) {
      BumpsOnce(db, op);
      BumpedOnly(db, Affected(db, op), Exec(db, op).db, n);
      if n !in Affected(db, op) { BumpingView(db, op, n); }
    } else {
      NoneAffected(db, op);
      QuietOpsView(db, op, n);
    }
  }

  predicate Bumping(op: Op) {
    || op.OpRemoveNode? || op.OpReplaceEndpoints? || op.OpAddMembership? || op.OpRemoveMembership?
    || op.OpSetRelay? || op.OpRemoveRelay?
  }

  lemma NoneAffected(db: Db, op: Op)
    requires Exec(db, op).outcome != Done || !Bumping(op)
    ensures Affected(db, op) == {}
  {
    hide Exec;
  }

  /** A successful operation moves the versions of its affected networks by one bump and no others. */
  lemma BumpsOnce(db: Db, op: Op)
    requires Exec(db, op).outcome == Done && Bumping(op)
    ensures Exec(db, op).db.networks == BumpAll(db.networks, Affected(db, op))
  {
    hide BumpAll, AffectedByRemoval, NetworksOf, ValidRelay, ValidMembership, EndpointsOutcome, InPool;
  }

  lemma BumpingView(db: Db, op: Op, n: Id)
    requires WellFormed(db) && n in db.networks && n !in Affected(db, op)
    requires Exec(db, op).outcome == Done && Bumping(op)
    ensures n in Exec(db, op).db.networks
    ensures ViewOf(db, n) == ViewOf(Exec(db, op).db, n)
  {
    hide WellFormed, ViewOf, RemoveNode, ReplaceEndpoints, AddMembership, RemoveMembership, SetRelay, RemoveRelay,
         AffectedByRemoval, NetworksOf;
    match op
    case OpRemoveNode(d) =>
      assert d in db.nodes by { RemoveNodeFound(db, d); }
      RemoveNodeView(db, d, n);
    case OpReplaceEndpoints(d, list) => ReplaceEndpointsView(db, d, list, n);
    case _ => MembershipOpsView(db, op, n);
  }

  lemma RemoveNodeFound(db: Db, d: Id)
    requires RemoveNode(db, d).outcome == Done
    ensures d in db.nodes
  {
  }

  /** A refused operation publishes nothing. */
  lemma FailureChangesNothing(db: Db, op: Op)
    requires Exec(db, op).outcome != Done
    ensures Exec(db, op).db == db
  {
    hide Blank, NewPool, Contains, ValidNode, ValidNetwork, ValidInvite, ValidRelay, ValidMembership,
         EndpointsOutcome, ClassifyMiss, Consumable, Matches, BumpAll;
  }

  // ---------------------------------------------------------------- transactions and runs

  /** A transaction works on a copy; only a commit publishes it. Single operations are transactions of one. */
  datatype Txn = Txn(ops: seq<Op>, commit: bool)

  ghost function ExecAll(db: Db, ops: seq<Op>): Db
    decreases |ops|
  {
    if ops == [] then db else ExecAll(Exec(db, ops[0]).db, ops[1..])
  }

  ghost function Publish(db: Db, txn: Txn): Db {
    if txn.commit then ExecAll(db, txn.ops) else db
  }

  /** The published state after a run. */
  ghost function After(db: Db, run: seq<Txn>): Db
    decreases |run|
  {
    if run == [] then db else After(Publish(db, run[0]), run[1..])
  }

  /** No operation bumps a version that is already the largest int64. */
  ghost predicate RoomFor(db: Db, op: Op) {
    forall n | n in Affected(db, op) && n in db.networks :: db.networks[n].configVersion != MAX_I64
  }

  ghost predicate RoomForAll(db: Db, ops: seq<Op>)
    decreases |ops|
  {
    ops == [] || (RoomFor(db, ops[0]) && RoomForAll(Exec(db, ops[0]).db, ops[1..]))
  }

  ghost predicate RoomForRun(db: Db, run: seq<Txn>)
    decreases |run|
  {
    run == [] || ((run[0].commit ==> RoomForAll(db, run[0].ops)) && RoomForRun(Publish(db, run[0]), run[1..]))
  }

  /** Time order of two published states of a network: the version has not gone back, and as long as
      it is the same the visible rows are the same. */
  ghost predicate Later(a: Db, b: Db, n: Id) {
    && n in a.networks && n in b.networks
    && a.networks[n].configVersion <= b.networks[n].configVersion
    && (a.networks[n].configVersion == b.networks[n].configVersion ==> ViewOf(a, n) == ViewOf(b, n))
  }

  lemma LaterTransitive(a: Db, b: Db, c: Db, n: Id)
    requires Later(a, b, n) && Later(b, c, n)
    ensures Later(a, c, n)
  {
    hide ViewOf;
  }

  lemma StepIsLater(db: Db, op: Op, n: Id)
    requires WellFormed(db) && n in db.networks && RoomFor(db, op)
    ensures Later(db, Exec(db, op).db, n)
  {
    hide WellFormed, Exec, Affected, Bump;
    StepView(db, op, n);
    BumpAdvances(db.networks[n].configVersion);
    if n !in Affected(db, op) { ViewHasNetwork(db, Exec(db, op).db, n); }
  }

  lemma ViewHasNetwork(a: Db, b: Db, n: Id)
    requires n in a.networks && n in b.networks && ViewOf(a, n) == ViewOf(b, n)
    ensures a.networks[n] == b.networks[n]
  {
  }

  lemma {:induction false} ExecAllIsLater(db: Db, ops: seq<Op>, n: Id)
    requires WellFormed(db) && n in db.networks && RoomForAll(db, ops)
    ensures Later(db, ExecAll(db, ops), n)
    decreases |ops|
  {
    hide WellFormed, Exec, RoomFor, Later, ViewOf;
    if ops == [] {
      LaterReflexive(db, n);
    } else {
      var next := Exec(db, ops[0]).db;
      StepIsLater(db, ops[0], n);
      ExecKeeps(db, ops[0]);
      LaterHas(db, next, n);
      ExecAllIsLater(next, ops[1..], n);
      LaterTransitive(db, next, ExecAll(next, ops[1..]), n);
    }
  }

  lemma LaterReflexive(db: Db, n: Id)
    requires n in db.networks
    ensures Later(db, db, n)
  {
    hide ViewOf;
  }

  lemma LaterHas(a: Db, b: Db, n: Id)
    requires Later(a, b, n)
    ensures n in b.networks
  {
    hide ViewOf;
  }

  lemma {:induction false} ExecAllKeeps(db: Db, ops: seq<Op>)
    requires WellFormed(db)
    ensures WellFormed(ExecAll(db, ops))
    decreases |ops|
  {
    hide WellFormed, Exec;
    if ops != [] {
      ExecKeeps(db, ops[0]);
      ExecAllKeeps(Exec(db, ops[0]).db, ops[1..]);
    }
  }

  lemma {:induction false} AfterKeeps(db: Db, run: seq<Txn>)
    requires WellFormed(db)
    ensures WellFormed(After(db, run))
    decreases |run|
  {
    hide WellFormed, Exec;
    if run != [] {
      if run[0].commit { ExecAllKeeps(db, run[0].ops); }
      AfterKeeps(Publish(db, run[0]), run[1..]);
    }
  }

  lemma {:induction false} AfterIsLater(db: Db, run: seq<Txn>, n: Id)
    requires WellFormed(db) && n in db.networks && RoomForRun(db, run)
    ensures Later(db, After(db, run), n)
    decreases |run|
  {
    hide WellFormed, Exec, Later, ViewOf, RoomForAll;
    LaterReflexive(db, n);
    if run != [] {
      var next := Publish(db, run[0]);
      if run[0].commit {
        ExecAllIsLater(db, run[0].ops, n);
        ExecAllKeeps(db, run[0].ops);
      }
      LaterHas(db, next, n);
      AfterIsLater(next, run[1..], n);
      LaterTransitive(db, next, After(next, run[1..]), n);
    }
  }

  lemma EmptyIsWellFormed()
    ensures WellFormed(EmptyDb)
  {
  }

  /** Every reachable state is well-formed. */
  lemma ReachableIsWellFormed(run: seq<Txn>)
    ensures WellFormed(After(EmptyDb, run))
  {
    hide WellFormed;
    EmptyIsWellFormed();
    AfterKeeps(EmptyDb, run);
  }

  /** Take any two moments of any run of operations and transactions. A network seen at the first is
      still there at the second, its version has not decreased, and if the version is the same then
      every member's snapshot at any one time of reading is the same. */
  lemma VersionIsSoundCacheKey(before: seq<Txn>, between: seq<Txn>, n: Id, local: Id, now: Time, maxAge: int)
    requires n in After(EmptyDb, before).networks
    requires RoomForRun(After(EmptyDb, before), between)
    ensures var a := After(EmptyDb, before);
            var b := After(a, between);
            && n in b.networks
            && a.networks[n].configVersion <= b.networks[n].configVersion
            && (a.networks[n].configVersion == b.networks[n].configVersion ==>
                  SameSnapshot(a, b, n, local, now, maxAge))
  {
    var a := After(EmptyDb, before);
    ReachableIsWellFormed(before);
    AfterIsLater(a, between, n);
    var b := After(a, between);
    hide WellFormed, After, ViewOf, RoomForRun, SameSnapshot;
    if a.networks[n].configVersion == b.networks[n].configVersion {
      ViewDeterminesSnapshot(a, b, n, local, now, maxAge);
    }
  }

  /** One operation keeps every version from going back exactly when it has room for its bumps. */
  lemma VersionsAdvanceExactlyWithRoom(db: Db, op: Op)
    requires WellFormed(db)
    ensures RoomFor(db, op) <==>
              forall n | n in db.networks :: n in Exec(db, op).db.networks
                && db.networks[n].configVersion <= Exec(db, op).db.networks[n].configVersion
  {
    hide WellFormed, Exec, Affected, Bump, ViewOf;
    var db' := Exec(db, op).db;
    forall n | n in db.networks
      ensures n in db'.networks
      ensures db.networks[n].configVersion <= db'.networks[n].configVersion
              <==> !(n in Affected(db, op) && db.networks[n].configVersion == MAX_I64)
    {
      StepView(db, op, n);
      BumpAdvances(db.networks[n].configVersion);
      if n !in Affected(db, op) { ViewHasNetwork(db, db', n); }
    }
  }

  const LastVersion := Network("n", "n", Cidr4(0, 0), "o", MAX_I64, 1)
  const FirstNode := Node("d", "d", "k", "p", "v", 0)
  const FirstMember := Membership("n", "d", V4(1), Member, Active)
  const Created := EmptyDb.(networks := map["n" := LastVersion])
  const Added := Created.(nodes := map["d" := FirstNode])
  const Setup := Txn([OpCreateNetwork(LastVersion), OpAddNode(FirstNode)], true)

  lemma AnyAddressIsInPool(v: U32)
    ensures NewPool(Cidr4(0, 0)).Some? && InPool(V4(v), Cidr4(0, 0))
  {
    hide Pow2;
  }

  lemma SetupSucceeds()
    ensures Exec(EmptyDb, OpCreateNetwork(LastVersion)) == Result(Done, Created)
    ensures Exec(Created, OpAddNode(FirstNode)) == Result(Done, Added)
  {
    hide Blank, NewPool, InPool;
    OneLetter();
    AnyAddressIsInPool(1);
  }

  lemma JoinSucceeds()
    ensures Exec(Added, OpAddMembership(FirstMember)).outcome == Done
    ensures Exec(Added, OpAddMembership(FirstMember)).db.networks == BumpAll(Added.networks, {"n"})
  {
    hide Blank, NewPool, InPool, BumpAll;
    OneLetter();
    AnyAddressIsInPool(1);
  }

  lemma SetupReaches()
    ensures After(EmptyDb, [Setup]) == Added
  {
    hide Exec;
    SetupSucceeds();
    var ops := Setup.ops;
    assert ops[1..] == [OpAddNode(FirstNode)] && ops[1..][1..] == [];
    assert ExecAll(EmptyDb, ops) == ExecAll(Created, ops[1..]) == ExecAll(Added, []) == Added;
    assert [Setup][1..] == [];
    assert After(EmptyDb, [Setup]) == After(Publish(EmptyDb, Setup), []) == Publish(EmptyDb, Setup);
  }

  /** The room is needed: a network may be created at the largest version, and its first member makes it negative. */
  lemma VersionGoesBackWithoutRoom()
    ensures var before := After(EmptyDb, [Setup]);
            var after := Exec(before, OpAddMembership(FirstMember)).db;
            && "n" in before.networks && "n" in after.networks
            && after.networks["n"].configVersion < 0 < before.networks["n"].configVersion
            && !RoomFor(before, OpAddMembership(FirstMember))
  {
    hide Exec, After;
    SetupReaches();
    JoinSucceeds();
    assert "n" in Affected(Added, OpAddMembership(FirstMember)) && "n" in Added.networks;
  }

  lemma OneLetter()
    ensures !Blank("n") && !Blank("o") && !Blank("d") && !Blank("k") && !Blank("p") && !Blank("v")
  {
    assert "n"[0] == 'n' && "o"[0] == 'o' && "d"[0] == 'd' && "k"[0] == 'k' && "p"[0] == 'p' && "v"[0] == 'v';
  }
}
