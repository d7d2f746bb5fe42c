/** Every operation keeps keys, foreign keys, uniqueness and all row checks but the two that Checks treats. */
module Constraints {
  import opened Text
  import opened NetIp
  import opened AddressPool
  import opened Control
  import opened Relational

  // ---------------------------------------------------------------- one table at a time

  /** Every network is still there with the same pool. */
  ghost predicate KeepsPools(db: Db, db': Db) {
    forall n | n in db.networks :: n in db'.networks && db'.networks[n].pool == db.networks[n].pool
  }

  ghost predicate SubMap<K, V>(m: map<K, V>, n: map<K, V>) {
    forall k | k in m :: k in n && m[k] == n[k]
  }

  lemma MembershipsSub(db: Db, db': Db)
    requires MembershipsOk(db) && KeepsPools(db, db') && SubMap(db'.memberships, db.memberships)
    requires forall k | k in db'.memberships :: k.1 in db'.nodes
    ensures MembershipsOk(db')
  {
    hide InPool;
    forall k | k in db'.memberships ensures MembershipOk(db', k, db'.memberships[k]) {
      assert MembershipOk(db, k, db.memberships[k]);
    }
  }

  lemma InvitesSame(db: Db, db': Db)
    requires InvitesOk(db) && KeepsPools(db, db') && db'.invites == db.invites && db.nodes.Keys <= db'.nodes.Keys
    ensures InvitesOk(db')
  {
    forall i | i in db'.invites ensures InviteOk(db', i, db'.invites[i]) {
      assert InviteOk(db, i, db.invites[i]);
    }
  }

  lemma EndpointsSub(db: Db, db': Db)
    requires EndpointsOk(db) && db'.endpoints <= db.endpoints
    requires forall e | e in db'.endpoints :: e.nodeId in db'.nodes
    ensures EndpointsOk(db')
  {
    hide ValidEndpoint, SameEndpoint;
  }

  lemma RelaysSub(db: Db, db': Db)
    requires RelaysOk(db) && SubMap(db'.relays, db.relays)
    requires forall k | k in db'.relays :: k in db'.memberships && (k.0, db'.relays[k].relayNodeId) in db'.memberships
    ensures RelaysOk(db')
  {
    hide ValidRelay;
    forall k | k in db'.relays ensures RelayOk(db', k, db'.relays[k]) {
      assert RelayOk(db, k, db.relays[k]);
    }
  }

  /** Both ends of every assignment are members. */
  lemma RelayEnds(db: Db)
    requires RelaysOk(db)
    ensures forall k | k in db.relays :: k in db.memberships && (k.0, db.relays[k].relayNodeId) in db.memberships
  {
    hide ValidRelay;
    forall k | k in db.relays ensures k in db.memberships && (k.0, db.relays[k].relayNodeId) in db.memberships {
      assert RelayOk(db, k, db.relays[k]);
    }
  }

  lemma MemberNodes(db: Db)
    requires MembershipsOk(db)
    ensures forall k | k in db.memberships :: k.0 in db.networks && k.1 in db.nodes
  {
    hide InPool;
    forall k | k in db.memberships ensures k.0 in db.networks && k.1 in db.nodes {
      assert MembershipOk(db, k, db.memberships[k]);
    }
  }

  lemma EndpointNodes(db: Db)
    requires EndpointsOk(db)
    ensures forall e | e in db.endpoints :: e.nodeId in db.nodes
  {
    hide ValidEndpoint, SameEndpoint;
  }

  lemma NodesSame(db: Db, db': Db)
    requires NodesOk(db) && db'.nodes == db.nodes
    ensures NodesOk(db')
  {
    hide ValidNode;
  }

  lemma NetworksSame(db: Db, db': Db)
    requires NetworksOk(db) && db'.networks == db.networks
    ensures NetworksOk(db') && KeepsPools(db, db')
  {
    hide Blank, NewPool;
  }

  /** The tables an operation leaves alone, or only bumps, stay sound. */
  lemma Untouched(db: Db, db': Db)
    requires WellFormed(db) && NetworksOk(db') && KeepsPools(db, db')
    ensures db'.nodes == db.nodes ==> NodesOk(db')
    ensures db'.memberships == db.memberships && db.nodes.Keys <= db'.nodes.Keys ==> MembershipsOk(db')
    ensures db'.invites == db.invites && db.nodes.Keys <= db'.nodes.Keys ==> InvitesOk(db')
    ensures db'.endpoints == db.endpoints && db.nodes.Keys <= db'.nodes.Keys ==> EndpointsOk(db')
    ensures db'.relays == db.relays && db.memberships.Keys <= db'.memberships.Keys ==> RelaysOk(db')
  {
    hide NetworksOk, NodesOk, MembershipsOk, InvitesOk, EndpointsOk, RelaysOk, KeepsPools;
    if db'.nodes == db.nodes { NodesSame(db, db'); }
    if db.nodes.Keys <= db'.nodes.Keys {
      MemberNodes(db);
      EndpointNodes(db);
      if db'.memberships == db.memberships { MembershipsSub(db, db'); }
      if db'.invites == db.invites { InvitesSame(db, db'); }
      if db'.endpoints == db.endpoints { EndpointsSub(db, db'); }
    }
    if db'.relays == db.relays && db.memberships.Keys <= db'.memberships.Keys {
      RelayEnds(db);
      RelaysSub(db, db');
    }
  }

  // ---------------------------------------------------------------- one operation at a time

  lemma BumpNetworks(db: Db, affected: set<Id>, db': Db)
    requires NetworksOk(db) && db'.networks == BumpAll(db.networks, affected)
    ensures NetworksOk(db') && KeepsPools(db, db')
  {
    hide Blank, NewPool, Bump;
  }

  lemma PutNetwork(db: Db, n: Network)
    requires NetworksOk(db)
    ensures NetworksOk(CreateNetwork(db, n).db) && KeepsPools(db, CreateNetwork(db, n).db)
  {
    hide Blank, NewPool;
  }

  lemma CreateNetworkKeeps(db: Db, n: Network)
    requires WellFormed(db)
    ensures WellFormed(CreateNetwork(db, n).db)
  {
    hide NetworksOk, NodesOk, MembershipsOk, InvitesOk, EndpointsOk, RelaysOk, KeepsPools, ValidNetwork;
    PutNetwork(db, n);
    Untouched(db, CreateNetwork(db, n).db);
  }

  lemma PutNode(db: Db, node: Node, db': Db)
    requires NodesOk(db) && ValidNode(node) && db'.nodes == db.nodes[node.id := node]
    requires forall d | d in db.nodes && db.nodes[d].publicKey == node.publicKey :: d == node.id
    ensures NodesOk(db')
  {
    hide ValidNode;
  }

  /** Adding a node, or changing one without touching its identity and key. */
  lemma PutNodeKeeps(db: Db, node: Node, db': Db)
    requires WellFormed(db) && ValidNode(node)
    requires db' == db.(nodes := db.nodes[node.id := node])
    requires forall d | d in db.nodes && db.nodes[d].publicKey == node.publicKey :: d == node.id
    ensures WellFormed(db')
  {
    PutNode(db, node, db');
    hide NetworksOk, NodesOk, MembershipsOk, InvitesOk, EndpointsOk, RelaysOk, KeepsPools, ValidNode;
    NetworksSame(db, db');
    Untouched(db, db');
  }

  lemma TouchKeepsNode(node: Node, at: Time, version: string)
    requires ValidNode(node)
    ensures ValidNode(node.(lastSeen := at))
    ensures !Blank(version) ==> ValidNode(node.(clientVersion := version))
  {
    hide Blank;
  }

  lemma ForgetConsumerKeeps(db: Db, d: Id, db': Db)
    requires InvitesOk(db) && KeepsPools(db, db') && db'.nodes == db.nodes - {d}
    requires db'.invites == map i | i in db.invites :: ForgetConsumer(db.invites[i], d)
    ensures InvitesOk(db')
  {
    forall i | i in db'.invites ensures InviteOk(db', i, db'.invites[i]) {
      assert InviteOk(db, i, db.invites[i]);
    }
    assert forall i | i in db'.invites :: db'.invites[i].tokenHash == db.invites[i].tokenHash;
  }

  lemma DropNode(db: Db, d: Id, db': Db)
    requires NodesOk(db) && db'.nodes == db.nodes - {d}
    ensures NodesOk(db')
  {
    hide ValidNode;
  }

  lemma RemoveNodeKeeps(db: Db, d: Id)
    requires WellFormed(db)
    ensures WellFormed(RemoveNode(db, d).db)
  {
    hide NetworksOk, NodesOk, MembershipsOk, InvitesOk, EndpointsOk, RelaysOk, KeepsPools, BumpAll, AffectedByRemoval,
         ForgetConsumer;
    if d in db.nodes {
      var db' := RemoveNode(db, d).db;
      BumpNetworks(db, AffectedByRemoval(db, d), db');
      DropNode(db, d, db');
      MemberNodes(db);
      EndpointNodes(db);
      RelayEnds(db);
      RelayKeys(db);
      MembershipsSub(db, db');
      ForgetConsumerKeeps(db, d, db');
      EndpointsSub(db, db');
      RelaysSub(db, db');
    }
  }

  lemma AddMembershipKeeps(db: Db, m: Membership)
    requires WellFormed(db)
    ensures WellFormed(AddMembership(db, m).db)
  {
    hide NetworksOk, NodesOk, MembershipsOk, InvitesOk, EndpointsOk, RelaysOk, KeepsPools, BumpAll, InPool,
         ValidMembership;
    if AddMembership(db, m).outcome == Done {
      var db' := AddMembership(db, m).db;
      BumpNetworks(db, {m.networkId}, db');
      PutMembership(db, m, db');
      Untouched(db, db');
    }
  }

  lemma PutMembership(db: Db, m: Membership, db': Db)
    requires MembershipsOk(db) && KeepsPools(db, db') && m.networkId in db.networks && m.nodeId in db.nodes
    requires InPool(m.virtualIPv4, db.networks[m.networkId].pool) && ValidMembership(m)
    requires forall l | l in db.memberships && l.0 == m.networkId :: db.memberships[l].virtualIPv4 != m.virtualIPv4
    requires db'.memberships == db.memberships[(m.networkId, m.nodeId) := m] && db'.nodes == db.nodes
    ensures MembershipsOk(db')
  {
    hide InPool;
    forall k | k in db'.memberships ensures MembershipOk(db', k, db'.memberships[k]) {
      if k in db.memberships { assert MembershipOk(db, k, db.memberships[k]); }
    }
  }

  lemma RemoveMembershipKeeps(db: Db, n: Id, d: Id)
    requires WellFormed(db)
    ensures WellFormed(RemoveMembership(db, n, d).db)
  {
    hide NetworksOk, NodesOk, MembershipsOk, InvitesOk, EndpointsOk, RelaysOk, KeepsPools, BumpAll;
    if (n, d) in db.memberships {
      var db' := RemoveMembership(db, n, d).db;
      BumpNetworks(db, {n}, db');
      Untouched(db, db');
      MemberNodes(db);
      MembershipsSub(db, db');
      RelayEnds(db);
      RelayKeys(db);
      RelaysSub(db, db');
    }
  }

  lemma RelayKeys(db: Db)
    requires RelaysOk(db)
    ensures forall k | k in db.relays :: db.relays[k].networkId == k.0 && db.relays[k].nodeId == k.1
  {
    hide ValidRelay;
    forall k | k in db.relays ensures db.relays[k].networkId == k.0 && db.relays[k].nodeId == k.1 {
      assert RelayOk(db, k, db.relays[k]);
    }
  }

  lemma PutInvite(db: Db, i: Id, v: Invite, db': Db)
    requires InvitesOk(db) && InviteOk(db, i, v)
    requires forall j | j in db.invites && db.invites[j].tokenHash == v.tokenHash :: j == i
    requires db' == db.(invites := db.invites[i := v])
    ensures InvitesOk(db')
  {
    forall j | j in db'.invites ensures InviteOk(db', j, db'.invites[j]) {
      if j != i { assert InviteOk(db, j, db.invites[j]); }
    }
  }

  /** Adding an invite, or rewriting one in place with the same token. */
  lemma PutInviteKeeps(db: Db, i: Id, v: Invite, db': Db)
    requires WellFormed(db) && InviteOk(db, i, v)
    requires forall j | j in db.invites && db.invites[j].tokenHash == v.tokenHash :: j == i
    requires db' == db.(invites := db.invites[i := v])
    ensures WellFormed(db')
  {
    PutInvite(db, i, v, db');
    hide NetworksOk, NodesOk, MembershipsOk, InvitesOk, EndpointsOk, RelaysOk, KeepsPools, InviteOk;
    NetworksSame(db, db');
    Untouched(db, db');
  }

  /** At most one invite matches a lookup, so the UPDATE rewrites at most one row. */
  lemma ConsumeRewritesOne(db: Db, key: Id, tokenHash: string, at: Time, consumer: Id, i: Id)
    requires InvitesOk(db) && i in db.invites && Consumable(db, key, tokenHash, at, i)
    requires consumer == "" || consumer in db.nodes
    ensures ConsumeInvite(db, key, tokenHash, at, consumer) ==
            Result(Done,
                   db.(invites := db.invites[i := db.invites[i].(consumedAt := Some(at), consumedBy := consumer)]))
  {
    var r := ConsumeInvite(db, key, tokenHash, at, consumer).db.invites;
    forall j | j in db.invites && j != i ensures !Consumable(db, key, tokenHash, at, j) {
    }
    assert r == db.invites[i := db.invites[i].(consumedAt := Some(at), consumedBy := consumer)];
  }

  lemma ConsumedIsOk(db: Db, key: Id, tokenHash: string, at: Time, consumer: Id, i: Id)
    requires InvitesOk(db) && i in db.invites && Consumable(db, key, tokenHash, at, i)
    requires consumer == "" || consumer in db.nodes
    ensures InviteOk(db, i, db.invites[i].(consumedAt := Some(at), consumedBy := consumer))
    ensures forall j | j in db.invites && db.invites[j].tokenHash == db.invites[i].tokenHash :: j == i
  {
    assert InviteOk(db, i, db.invites[i]);
  }

  lemma ConsumeInviteKeeps(db: Db, key: Id, tokenHash: string, at: Time, consumer: Id)
    requires WellFormed(db)
    ensures WellFormed(ConsumeInvite(db, key, tokenHash, at, consumer).db)
  {
    hide NetworksOk, NodesOk, MembershipsOk, InvitesOk, EndpointsOk, RelaysOk, Consumable, ClassifyMiss, InviteOk;
    if && (consumer == "" || consumer in db.nodes)
       && exists i :: i in db.invites && Consumable(db, key, tokenHash, at, i) {
      var i :| i in db.invites && Consumable(db, key, tokenHash, at, i);
      ConsumeRewritesOne(db, key, tokenHash, at, consumer, i);
      ConsumedIsOk(db, key, tokenHash, at, consumer, i);
      hide ConsumeInvite;
      PutInviteKeeps(db, i, db.invites[i].(consumedAt := Some(at), consumedBy := consumer),
                     ConsumeInvite(db, key, tokenHash, at, consumer).db);
    }
  }

  lemma {:induction false} EndpointsOutcomeMeaning(d: Id, list: seq<Endpoint>)
    ensures EndpointsOutcome(d, list) == Done <==>
              && (forall i | 0 <= i < |list| :: list[i].nodeId == d && ValidEndpoint(list[i]))
              && (forall i, j | 0 <= i < j < |list| :: !SameEndpoint(list[i], list[j]))
  {
    hide ValidEndpoint;
    if list != [] {
      var front := list[..|list| - 1];
      EndpointsOutcomeMeaning(d, front);
      assert forall i | 0 <= i < |front| :: front[i] == list[i];
    }
  }

  lemma PutEndpoints(db: Db, d: Id, list: seq<Endpoint>, db': Db)
    requires EndpointsOk(db) && d in db.nodes && EndpointsOutcome(d, list) == Done && db'.nodes == db.nodes
    requires db'.endpoints == (set e | e in db.endpoints && e.nodeId != d) + Elements(list)
    ensures EndpointsOk(db')
  {
    EndpointsOutcomeMeaning(d, list);
    hide ValidEndpoint, EndpointsOutcome;
  }

  lemma ReplaceEndpointsKeeps(db: Db, d: Id, list: seq<Endpoint>)
    requires WellFormed(db)
    ensures WellFormed(ReplaceEndpoints(db, d, list).db)
  {
    hide NetworksOk, NodesOk, MembershipsOk, InvitesOk, EndpointsOk, RelaysOk, KeepsPools, BumpAll, NetworksOf,
         EndpointsOutcome;
    if d in db.nodes && EndpointsOutcome(d, list) == Done {
      var db' := ReplaceEndpoints(db, d, list).db;
      BumpNetworks(db, NetworksOf(db, d), db');
      PutEndpoints(db, d, list, db');
      Untouched(db, db');
    }
  }

  lemma PutRelay(db: Db, a: Relay, db': Db)
    requires RelaysOk(db) && ValidRelay(a) && db'.memberships == db.memberships
    requires (a.networkId, a.nodeId) in db.memberships && (a.networkId, a.relayNodeId) in db.memberships
    requires forall l | l in db.relays && db.relays[l].id == a.id :: l == (a.networkId, a.nodeId)
    requires db'.relays == db.relays[(a.networkId, a.nodeId) := a]
    ensures RelaysOk(db')
  {
    hide ValidRelay;
    forall k | k in db'.relays ensures RelayOk(db', k, db'.relays[k]) {
      if k in db.relays { assert RelayOk(db, k, db.relays[k]); }
    }
  }

  lemma SetRelayKeeps(db: Db, a: Relay)
    requires WellFormed(db)
    ensures WellFormed(SetRelay(db, a).db)
  {
    hide NetworksOk, NodesOk, MembershipsOk, InvitesOk, EndpointsOk, RelaysOk, KeepsPools, BumpAll, ValidRelay;
    if SetRelay(db, a).outcome == Done {
      var db' := SetRelay(db, a).db;
      BumpNetworks(db, {a.networkId}, db');
      PutRelay(db, a, db');
      Untouched(db, db');
    }
  }

  lemma RemoveRelayKeeps(db: Db, n: Id)
    requires WellFormed(db)
    ensures WellFormed(RemoveRelay(db, n).db)
  {
    hide NetworksOk, NodesOk, MembershipsOk, InvitesOk, EndpointsOk, RelaysOk, KeepsPools, BumpAll;
    if RemoveRelay(db, n).outcome == Done {
      var db' := RemoveRelay(db, n).db;
      BumpNetworks(db, {n}, db');
      Untouched(db, db');
      RelayEnds(db);
      RelaysSub(db, db');
    }
  }

  lemma NodeOpsKeep(db: Db, op: Op)
    requires WellFormed(db) && (op.OpAddNode? || op.OpTouchNode? || op.OpUpdateClientVersion?)
    ensures WellFormed(Exec(db, op).db)
  {
    hide MembershipsOk, InvitesOk, EndpointsOk, RelaysOk, NetworksOk, Blank;
    match op
    case OpAddNode(node) =>
      if AddNode(db, node).outcome == Done { PutNodeKeeps(db, node, AddNode(db, node).db); }
    case OpTouchNode(d, at) =>
      if TouchNode(db, d, at).outcome == Done {
        TouchKeepsNode(db.nodes[d], at, "");
        PutNodeKeeps(db, db.nodes[d].(lastSeen := at), TouchNode(db, d, at).db);
      }
    case OpUpdateClientVersion(d, v) =>
      if UpdateClientVersion(db, d, v).outcome == Done {
        TouchKeepsNode(db.nodes[d], 0, v);
        PutNodeKeeps(db, db.nodes[d].(clientVersion := v), UpdateClientVersion(db, d, v).db);
      }
  }

  lemma InviteOpsKeep(db: Db, op: Op)
    requires WellFormed(db) && (op.OpCreateInvite? || op.OpRevokeInvite?)
    ensures WellFormed(Exec(db, op).db)
  {
    hide MembershipsOk, EndpointsOk, RelaysOk, NetworksOk, NodesOk, Blank;
    match op
    case OpCreateInvite(i) =>
      if CreateInvite(db, i).outcome == Done { PutInviteKeeps(db, i.id, i, CreateInvite(db, i).db); }
    case OpRevokeInvite(i, at) =>
      if RevokeInvite(db, i, at).outcome == Done && db.invites[i].revokedAt.None? {
        assert InviteOk(db, i, db.invites[i]);
        PutInviteKeeps(db, i, db.invites[i].(revokedAt := Some(at)), RevokeInvite(db, i, at).db);
      }
  }

  /** The schema holds after every operation that starts from it. */
  lemma ExecKeeps(db: Db, op: Op)
    requires WellFormed(db)
    ensures WellFormed(Exec(db, op).db)
  {
    hide WellFormed;
    match op
    case OpCreateNetwork(n) => CreateNetworkKeeps(db, n);
    case OpAddNode(_) => NodeOpsKeep(db, op);
    case OpTouchNode(_, _) => NodeOpsKeep(db, op);
    case OpUpdateClientVersion(_, _) => NodeOpsKeep(db, op);
    case OpRemoveNode(d) => RemoveNodeKeeps(db, d);
    case OpAddMembership(m) => AddMembershipKeeps(db, m);
    case OpRemoveMembership(n, d) => RemoveMembershipKeeps(db, n, d);
    case OpCreateInvite(_) => InviteOpsKeep(db, op);
    case OpRevokeInvite(_, _) => InviteOpsKeep(db, op);
    case OpConsumeInvite(key, hash, at, consumer) => ConsumeInviteKeeps(db, key, hash, at, consumer);
    case OpReplaceEndpoints(d, list) => ReplaceEndpointsKeeps(db, d, list);
    case OpSetRelay(a) => SetRelayKeeps(db, a);
    case OpRemoveRelay(n) => RemoveRelayKeeps(db, n);
  }
}
