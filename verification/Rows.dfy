/** What the repository's operations mean, row by row: when each succeeds, what it refuses and what it leaves behind,
    told in the columns of the tables alone. */
module Rows {
  import opened Text
  import opened NetIp
  import opened AddressPool
  import opened Control
  import opened Relational
  import Checks
  import Constraints
  import Postgres
  import Storage

  // ---------------------------------------------------------------- snapshots

  /** A node may read a network's snapshot: it exists and is an active member. */
  ghost predicate Readable(db: Db, n: Id, local: Id) {
    n in db.networks && local in db.nodes && (n, local) in db.memberships && db.memberships[(n, local)].status == Active
  }

  /** `d` is to be listed for `local`: another node that exists and is an active member. */
  ghost predicate IsPeer(db: Db, n: Id, local: Id, d: Id) {
    d != local && d in db.nodes && (n, d) in db.memberships && db.memberships[(n, d)].status == Active
  }

  /** An entry shows the rows of its node, and exactly its endpoints observed in the last `maxAge`. */
  ghost predicate PeerShown(db: Db, n: Id, now: Time, maxAge: int, p: Peer) {
    var d := p.nodeId;
    && d in db.nodes && (n, d) in db.memberships
    && p.node == db.nodes[d] && p.membership == db.memberships[(n, d)]
    && p.displayName == db.nodes[d].displayName && p.publicKey == db.nodes[d].publicKey
    && p.virtualIPv4 == db.memberships[(n, d)].virtualIPv4
    && forall e :: e in p.endpoints <==>
         e in db.endpoints && e.nodeId == d && e.observedAt != 0 && now - maxAge <= e.observedAt <= now
  }

  /** An assignment serves: it is active, assigned, unexpired, and both its ends are active members. */
  ghost predicate Serves(db: Db, n: Id, a: Relay, now: Time) {
    && a.status == RelayActive && a.assignedAt <= now && (a.expiresAt.None? || now < a.expiresAt.value)
    && (n, a.nodeId) in db.memberships && db.memberships[(n, a.nodeId)].status == Active
    && (n, a.relayNodeId) in db.memberships && db.memberships[(n, a.relayNodeId)].status == Active
  }

  ghost predicate Listed(s: Snapshot, d: Id) { exists i :: 0 <= i < |s.peers| && s.peers[i].nodeId == d }

  /** What a snapshot has to show. */
  ghost predicate Shows(db: Db, n: Id, local: Id, now: Time, maxAge: int, s: Snapshot)
    requires Readable(db, n, local)
  {
    && s.networkId == n && s.generation == s.configVersion == db.networks[n].configVersion
    && s.localNodeId == local && s.localVirtualIPv4 == db.memberships[(n, local)].virtualIPv4 && s.generatedAt == now
    && (forall d :: Listed(s, d) <==> IsPeer(db, n, local, d))
    && (forall i, j | 0 <= i < j < |s.peers| :: Less(s.peers[i].nodeId, s.peers[j].nodeId))
    && (forall i | 0 <= i < |s.peers| :: PeerShown(db, n, now, maxAge, s.peers[i]))
    && s.relay == s.relayAssignment
    && s.relay == (if (n, local) in db.relays && Serves(db, n, db.relays[(n, local)], now)
                   then Some(db.relays[(n, local)]) else None)
  }

  lemma PeersByRow(db: Db, n: Id, local: Id, now: Time, maxAge: int, i: nat)
    requires WellFormed(db) && BuildSnapshot(db, n, local, now, maxAge).Some?
    requires i < |BuildSnapshot(db, n, local, now, maxAge).value.peers|
    ensures var ids, p := InOrder(PeerIds(db, n, local)), BuildSnapshot(db, n, local, now, maxAge).value.peers[i];
            && |ids| == |BuildSnapshot(db, n, local, now, maxAge).value.peers|
            && p.nodeId == ids[i] && IsPeer(db, n, local, ids[i]) && PeerShown(db, n, now, maxAge, p)
  {
    hide InOrder, RelayFor, NetworksOk, MembershipsOk, InvitesOk, EndpointsOk, RelaysOk, ValidNode;
    PeerIdsInOrder(db, n, local);
    var ids := InOrder(PeerIds(db, n, local));
    assert ids[i] in Elements(ids);
    assert db.nodes[ids[i]].id == ids[i];
  }

  lemma SnapshotShows(db: Db, n: Id, local: Id, now: Time, maxAge: int)
    requires WellFormed(db)
    ensures BuildSnapshot(db, n, local, now, maxAge).Some? <==> Readable(db, n, local)
    ensures Readable(db, n, local) ==> Shows(db, n, local, now, maxAge, BuildSnapshot(db, n, local, now, maxAge).value)
  {
    hide InOrder, PeerIds, NodesOk, MembershipsOk, InvitesOk, EndpointsOk, RelaysOk, NewPool, Blank, PeerShown, PeersOf;
    if Readable(db, n, local) {
      var s := BuildSnapshot(db, n, local, now, maxAge).value;
      var ids := InOrder(PeerIds(db, n, local));
      PeerIdsInOrder(db, n, local);
      assert |s.peers| == |ids|;
      forall i | 0 <= i < |s.peers|
        ensures s.peers[i].nodeId == ids[i] && IsPeer(db, n, local, ids[i])
        ensures PeerShown(db, n, now, maxAge, s.peers[i])
      {
        PeersByRow(db, n, local, now, maxAge, i);
      }
      forall d ensures Listed(s, d) <==> IsPeer(db, n, local, d) {
        if IsPeer(db, n, local, d) {
          IsPeerId(db, n, local, d);
          assert d in Elements(ids);
          var i :| 0 <= i < |ids| && ids[i] == d;
          assert s.peers[i].nodeId == d;
        }
      }
    }
  }

  lemma IsPeerId(db: Db, n: Id, local: Id, d: Id)
    requires IsPeer(db, n, local, d)
    ensures d in PeerIds(db, n, local)
  {
    assert (n, d).1 == d;
  }

  lemma SamePeer(db: Db, n: Id, now: Time, maxAge: int, p: Peer, q: Peer)
    requires PeerShown(db, n, now, maxAge, p) && PeerShown(db, n, now, maxAge, q) && p.nodeId == q.nodeId
    ensures p == q
  {
    assert p.endpoints == q.endpoints;
  }

  ghost function Ids(s: Snapshot): seq<Id> { seq(|s.peers|, i requires 0 <= i < |s.peers| => s.peers[i].nodeId) }

  lemma ListedIds(s: Snapshot, d: Id)
    ensures d in Elements(Ids(s)) <==> Listed(s, d)
  {
    if Listed(s, d) {
      var i :| 0 <= i < |s.peers| && s.peers[i].nodeId == d;
      assert Ids(s)[i] == d;
    }
  }

  lemma ShowsUnique(db: Db, n: Id, local: Id, now: Time, maxAge: int, s: Snapshot, t: Snapshot)
    requires Readable(db, n, local) && Shows(db, n, local, now, maxAge, s) && Shows(db, n, local, now, maxAge, t)
    ensures s == t
  {
    hide PeerShown, IsPeer, Serves, Less;
    var a, b := Ids(s), Ids(t);
    forall d ensures d in Elements(a) <==> d in Elements(b) {
      ListedIds(s, d);
      ListedIds(t, d);
    }
    assert Elements(a) == Elements(b);
    AscendingUnique(a, b);
    forall i | 0 <= i < |s.peers| ensures s.peers[i] == t.peers[i] {
      assert a[i] == b[i];
      SamePeer(db, n, now, maxAge, s.peers[i], t.peers[i]);
    }
    assert s.peers == t.peers;
  }

  /** The snapshot a node gets is the one that shows what it has to, and there is one exactly for active members. */
  lemma SnapshotExactly(db: Db, n: Id, local: Id, now: Time, maxAge: int, s: Snapshot)
    requires WellFormed(db)
    ensures BuildSnapshot(db, n, local, now, maxAge) == Some(s) <==>
            Readable(db, n, local) && Shows(db, n, local, now, maxAge, s)
  {
    hide WellFormed, BuildSnapshot, Shows;
    SnapshotShows(db, n, local, now, maxAge);
    if Readable(db, n, local) && Shows(db, n, local, now, maxAge, s) {
      ShowsUnique(db, n, local, now, maxAge, s, BuildSnapshot(db, n, local, now, maxAge).value);
    }
  }

  // ---------------------------------------------------------------- invites

  /** The row that key and hash name: by id, or by network where no invite has that id. */
  ghost predicate Named(db: Db, key: Id, tokenHash: string, i: Id) {
    && i in db.invites && db.invites[i].tokenHash == tokenHash
    && (i == key || (key !in db.invites && db.invites[i].networkId == key))
  }

  /** An invite can be consumed from its creation until just before its expiry, once, and not after a revocation. */
  ghost predicate Open(v: Invite, at: Time) {
    v.consumedAt.None? && v.revokedAt.None? && v.createdAt <= at < v.expiresAt
  }

  /** Why a row is refused. */
  ghost predicate Closed(v: Invite, at: Time, e: Error) {
    match e
    case InviteConsumed => v.consumedAt.Some?
    case InviteRevoked => v.consumedAt.None? && v.revokedAt.Some?
    case InviteExpired => v.consumedAt.None? && v.revokedAt.None? && v.expiresAt <= at
    case Validation => v.consumedAt.None? && v.revokedAt.None? && at < v.createdAt
    case _ => false
  }

  lemma NamedOnce(db: Db, key: Id, tokenHash: string, i: Id, j: Id)
    requires InvitesOk(db) && Named(db, key, tokenHash, i) && Named(db, key, tokenHash, j)
    ensures i == j
  {
  }

  /** Consuming an invite: exactly when it succeeds, what it writes, and each refusal exactly in its case. */
  lemma ConsumeMeans(db: Db, key: Id, tokenHash: string, at: Time, consumer: Id)
    requires InvitesOk(db)
    ensures var r := ConsumeInvite(db, key, tokenHash, at, consumer);
            var known := consumer == "" || consumer in db.nodes;
            && (r.outcome == Done <==> known && exists i :: Named(db, key, tokenHash, i) && Open(db.invites[i], at))
            && (r.outcome == Failed(NotFound) <==> !known || forall i :: !Named(db, key, tokenHash, i))
            && (forall e | e != NotFound :: r.outcome == Failed(e) <==>
                  known && exists i :: Named(db, key, tokenHash, i) && Closed(db.invites[i], at, e))
            && (forall i | r.outcome == Done && Named(db, key, tokenHash, i) ::
                  r.db == db.(invites := db.invites[i := db.invites[i].(consumedAt := Some(at),
                                                                        consumedBy := consumer)]))
            && (r.outcome != Done ==> r.db == db)
  {
    hide ConsumeInvite;
    if consumer != "" && consumer !in db.nodes {
      UnknownConsumer(db, key, tokenHash, at, consumer);
    } else if i :| Named(db, key, tokenHash, i) {
      Storage.ConsumeAgrees(db, key, tokenHash, at, consumer, i);
      assert InviteOk(db, i, db.invites[i]);
      forall j | Named(db, key, tokenHash, j) ensures j == i { NamedOnce(db, key, tokenHash, i, j); }
    } else {
      assert forall i | i in db.invites :: Matches(db, key, tokenHash, i) ==> Named(db, key, tokenHash, i);
      Storage.ConsumeMisses(db, key, tokenHash, at, consumer);
    }
  }

  lemma UnknownConsumer(db: Db, key: Id, tokenHash: string, at: Time, consumer: Id)
    requires consumer != "" && consumer !in db.nodes
    ensures ConsumeInvite(db, key, tokenHash, at, consumer) == Result(Failed(NotFound), db)
  {
  }

  /** Revoking marks an invite that is neither consumed nor revoked; one that is revoked stays as it is. */
  lemma RevokeMeans(db: Db, i: Id, at: Time)
    ensures var r := RevokeInvite(db, i, at);
            && (r.outcome == Failed(Validation) <==> i == "" || at == 0)
            && (r.outcome == Failed(NotFound) <==> i != "" && at != 0 && i !in db.invites)
            && (r.outcome == Failed(InviteConsumed) <==>
                  i != "" && at != 0 && i in db.invites && db.invites[i].consumedAt.Some?)
            && (r.outcome == Done <==> i != "" && at != 0 && i in db.invites && db.invites[i].consumedAt.None?)
            && r.db.invites.Keys == db.invites.Keys
            && (forall j | j in db.invites ::
                  r.db.invites[j] == if j == i && r.outcome == Done && db.invites[j].revokedAt.None?
                                     then db.invites[j].(revokedAt := Some(at)) else db.invites[j])
            && r.db == db.(invites := r.db.invites)
  {
  }

  // ---------------------------------------------------------------- records

  /** An IPv4 block whose address is a multiple of its size. */
  ghost predicate Block(pool: Cidr) { pool.Cidr4? && pool.ip % Pow2(32 - pool.ones) == 0 }

  ghost predicate InBlock(a: Addr, pool: Cidr) {
    a.V4? && pool.Cidr4? && pool.ip <= a.v4 < pool.ip + Pow2(32 - pool.ones)
  }

  lemma PoolMeans(pool: Cidr, a: Addr)
    ensures NewPool(pool).Some? <==> Block(pool)
    ensures InPool(a, pool) <==> Block(pool) && InBlock(a, pool)
  {
    hide Pow2, And, Mask;
    if pool.Cidr4? {
      CanonicalIsAligned(pool.ip, pool.ones);
      if NewPool(pool).Some? {
        PoolShape(pool, NewPool(pool).value);
        if a.V4? { ContainsIsInterval(pool, NewPool(pool).value, a.v4); }
      }
    }
  }

  ghost predicate Reachable(a: Addr, family: Family, port: U16) {
    ((family == IPv4 && a.V4?) || (family == IPv6 && a.V6?)) && 1 <= port <= 65535
  }

  /** Which records are valid, column by column. */
  lemma NetworkColumns(n: Network)
    ensures ValidNetwork(n) <==>
            && !Blank(n.id) && !Blank(n.name) && !Blank(n.ownerId)
            && Block(n.pool) && 0 <= n.configVersion && n.createdAt != 0
  {
    hide Blank, NewPool, Block;
    PoolMeans(n.pool, NoAddr);
  }

  lemma NodeColumns(n: Node)
    ensures ValidNode(n) <==>
            forall text | text in {n.id, n.displayName, n.publicKey, n.platform, n.clientVersion} :: !Blank(text)
  {
    hide Blank;
  }

  lemma MembershipColumns(m: Membership)
    ensures ValidMembership(m) <==>
            && !Blank(m.networkId) && !Blank(m.nodeId) && m.virtualIPv4.V4?
            && m.role in {Owner, Admin, Member} && m.status in {Pending, Active, Suspended, Revoked}
  {
    hide Blank;
  }

  lemma EndpointColumns(e: Endpoint)
    ensures ValidEndpoint(e) <==>
            && !Blank(e.nodeId) && !Blank(e.interfaceName) && Reachable(e.address, e.family, e.port)
            && 0 <= e.priority < 0x8000_0000 && e.observedAt != 0
  {
    hide Blank;
  }

  lemma InviteColumns(v: Invite)
    ensures ValidInvite(v) <==>
            && !Blank(v.id) && !Blank(v.networkId) && !Blank(v.tokenHash) && v.createdAt != 0 && v.expiresAt != 0
            && v.createdAt < v.expiresAt && (v.consumedAt.None? || v.revokedAt.None?)
            && (v.consumedAt.Some? ==> v.createdAt <= v.consumedAt.value)
            && (v.revokedAt.Some? ==> v.createdAt <= v.revokedAt.value)
            && (v.consumedAt.None? ==> v.consumedBy == "")
  {
    hide Blank;
  }

  lemma RelayColumns(a: Relay)
    ensures ValidRelay(a) <==>
            && !Blank(a.id) && !Blank(a.networkId) && !Blank(a.nodeId) && !Blank(a.relayNodeId)
            && a.nodeId != a.relayNodeId && Reachable(a.address, a.family, a.port)
            && a.status in {RelayActive, RelayExpired, RelayRevoked} && a.assignedAt != 0
            && (a.expiresAt.Some? ==> a.assignedAt < a.expiresAt.value)
  {
    hide Blank;
  }

  // ---------------------------------------------------------------- the other operations

  /** The network's row with the next version. */
  ghost predicate Advanced(before: map<Id, Network>, after: map<Id, Network>, affected: set<Id>) {
    && after.Keys == before.Keys
    && forall n | n in before ::
         && after[n] == before[n].(configVersion := after[n].configVersion)
         && (n !in affected ==> after[n].configVersion == before[n].configVersion)
         && (n in affected && 0 < before[n].configVersion < MAX_I64 ==>
               after[n].configVersion == before[n].configVersion + 1)
  }

  lemma BumpIsAdvance(before: map<Id, Network>, affected: set<Id>)
    ensures Advanced(before, BumpAll(before, affected), affected)
  {
  }

  lemma CreateNetworkMeans(db: Db, n: Network)
    ensures var r := CreateNetwork(db, n);
            && (r.outcome == Failed(Validation) <==> !ValidNetwork(n))
            && (r.outcome == Failed(Conflict) <==> ValidNetwork(n) && n.id in db.networks)
            && (r.outcome == Done <==> ValidNetwork(n) && n.id !in db.networks)
            && (r.outcome == Done ==>
                  && r.db.networks.Keys == db.networks.Keys + {n.id}
                  && (forall m | m in db.networks :: r.db.networks[m] == db.networks[m])
                  && r.db.networks[n.id] == n.(configVersion := if n.configVersion == 0 then 1 else n.configVersion)
                  && r.db == db.(networks := r.db.networks))
  {
    hide ValidNetwork;
  }

  lemma AddNodeMeans(db: Db, node: Node)
    ensures var r := AddNode(db, node);
            var taken := node.id in db.nodes || exists d :: d in db.nodes && db.nodes[d].publicKey == node.publicKey;
            && (r.outcome == Failed(Validation) <==> !ValidNode(node))
            && (r.outcome == Failed(Conflict) <==> ValidNode(node) && taken)
            && (r.outcome == Done <==> ValidNode(node) && !taken)
            && (r.outcome == Done ==>
                  && r.db.nodes.Keys == db.nodes.Keys + {node.id} && r.db.nodes[node.id] == node
                  && (forall d | d in db.nodes :: r.db.nodes[d] == db.nodes[d])
                  && r.db == db.(nodes := r.db.nodes))
  {
    hide ValidNode;
  }

  /** Touching and updating a node change one column of one row. */
  lemma UpdateNodeMeans(db: Db, d: Id, at: Time, version: string)
    ensures var r := TouchNode(db, d, at);
            && (r.outcome == Failed(Validation) <==> at == 0)
            && (r.outcome == Failed(NotFound) <==> at != 0 && d !in db.nodes)
            && (r.outcome == Done <==> at != 0 && d in db.nodes)
            && (r.outcome == Done ==> r.db == db.(nodes := db.nodes[d := db.nodes[d].(lastSeen := at)]))
    ensures var r := UpdateClientVersion(db, d, version);
            && (r.outcome == Failed(Validation) <==> Blank(version))
            && (r.outcome == Failed(NotFound) <==> !Blank(version) && d !in db.nodes)
            && (r.outcome == Done <==> !Blank(version) && d in db.nodes)
            && (r.outcome == Done ==> r.db == db.(nodes := db.nodes[d := db.nodes[d].(clientVersion := version)]))
  {
    hide Blank;
  }

  /** A member is added exactly when it is valid, its ends exist, its address lies in the network's block, and neither
      the node nor the address is in the network already. */
  lemma AddMembershipMeans(db: Db, m: Membership)
    requires NetworksOk(db)
    ensures var r := AddMembership(db, m);
            var ends := m.networkId in db.networks && m.nodeId in db.nodes;
            var inside := ends && InBlock(m.virtualIPv4, db.networks[m.networkId].pool);
            var taken := exists k :: && k in db.memberships && k.0 == m.networkId
                                     && (k.1 == m.nodeId || db.memberships[k].virtualIPv4 == m.virtualIPv4);
            && (r.outcome == Failed(Validation) <==> !ValidMembership(m) || (ends && !inside))
            && (r.outcome == Failed(NotFound) <==> ValidMembership(m) && !ends)
            && (r.outcome == Failed(Conflict) <==> ValidMembership(m) && inside && taken)
            && (r.outcome == Done <==> ValidMembership(m) && inside && !taken)
            && (r.outcome == Done ==>
                  && Advanced(db.networks, r.db.networks, {m.networkId})
                  && r.db.memberships == db.memberships[(m.networkId, m.nodeId) := m]
                  && r.db == db.(networks := r.db.networks, memberships := r.db.memberships))
  {
    hide ValidMembership, NewPool, InPool, Blank, BumpAll, Block, InBlock, Advanced;
    BumpIsAdvance(db.networks, {m.networkId});
    if m.networkId in db.networks {
      PoolMeans(db.networks[m.networkId].pool, m.virtualIPv4);
    }
  }

  /** Removing a member takes the assignments with it in which it is an end. */
  lemma RemoveMembershipMeans(db: Db, n: Id, d: Id)
    requires WellFormed(db)
    ensures var r := RemoveMembership(db, n, d);
            && (r.outcome == Done <==> (n, d) in db.memberships)
            && (r.outcome == Failed(NotFound) <==> (n, d) !in db.memberships)
            && (r.outcome == Done ==>
                  && Advanced(db.networks, r.db.networks, {n})
                  && r.db.memberships.Keys == db.memberships.Keys - {(n, d)}
                  && (forall k | k in r.db.memberships :: r.db.memberships[k] == db.memberships[k])
                  && (forall k :: k in r.db.relays <==>
                        k in db.relays && (k.0 != n || (k.1 != d && db.relays[k].relayNodeId != d)))
                  && (forall k | k in r.db.relays :: r.db.relays[k] == db.relays[k])
                  && r.db == db.(networks := r.db.networks, memberships := r.db.memberships, relays := r.db.relays))
  {
    hide NetworksOk, NodesOk, MembershipsOk, InvitesOk, EndpointsOk, BumpAll, ValidRelay, Advanced;
    BumpIsAdvance(db.networks, {n});
    forall k | k in db.relays ensures db.relays[k].nodeId == k.1 { assert RelayOk(db, k, db.relays[k]); }
  }

  lemma CreateInviteMeans(db: Db, v: Invite)
    ensures var r := CreateInvite(db, v);
            var ends := v.networkId in db.networks && (v.consumedBy == "" || v.consumedBy in db.nodes);
            var taken := v.id in db.invites || exists j :: j in db.invites && db.invites[j].tokenHash == v.tokenHash;
            && (r.outcome == Failed(Validation) <==> !ValidInvite(v))
            && (r.outcome == Failed(NotFound) <==> ValidInvite(v) && !ends)
            && (r.outcome == Failed(Conflict) <==> ValidInvite(v) && ends && taken)
            && (r.outcome == Done <==> ValidInvite(v) && ends && !taken)
            && (r.outcome == Done ==> r.db == db.(invites := db.invites[v.id := v]))
  {
    hide ValidInvite;
  }

  /** Two entries of one node clash when they agree in address, port and interface. */
  ghost predicate Clash(e: Endpoint, f: Endpoint) {
    e.nodeId == f.nodeId && (e.address, e.port, e.interfaceName) == (f.address, f.port, f.interfaceName)
  }

  /** A list of endpoints is taken exactly when all its entries are the node's own, valid and without a clash; then it
      takes the place of the node's rows, and each network the node is in advances. */
  lemma ReplaceEndpointsMeans(db: Db, d: Id, list: seq<Endpoint>)
    ensures var r := ReplaceEndpoints(db, d, list);
            && (r.outcome == Failed(NotFound) <==> d !in db.nodes)
            && (r.outcome == Done <==>
                  && d in db.nodes
                  && (forall i | 0 <= i < |list| :: list[i].nodeId == d && ValidEndpoint(list[i]))
                  && (forall i, j | 0 <= i < j < |list| :: !Clash(list[i], list[j])))
            && (r.outcome == Done ==>
                  && (forall e :: e in r.db.endpoints <==> e in list || (e in db.endpoints && e.nodeId != d))
                  && Advanced(db.networks, r.db.networks, set k | k in db.memberships && k.1 == d :: k.0)
                  && r.db == db.(networks := r.db.networks, endpoints := r.db.endpoints))
  {
    hide EndpointsOutcome, BumpAll, Advanced, ValidEndpoint, Postgres.SomeInvalid, Postgres.ValidRepeat;
    BumpIsAdvance(db.networks, NetworksOf(db, d));
    Constraints.EndpointsOutcomeMeaning(d, list);
    Postgres.OutcomeByPosition(d, list);
  }

  ghost predicate ActiveIn(db: Db, n: Id, d: Id) {
    (n, d) in db.memberships && db.memberships[(n, d)].status == Active
  }

  /** An assignment is stored exactly when it is valid, its ends are active members, and no other pair's assignment has
      its id. */
  lemma SetRelayMeans(db: Db, a: Relay)
    requires MembershipsOk(db)
    ensures var r := SetRelay(db, a);
            var active := ActiveIn(db, a.networkId, a.nodeId) && ActiveIn(db, a.networkId, a.relayNodeId);
            var taken := exists k :: k in db.relays && k != (a.networkId, a.nodeId) && db.relays[k].id == a.id;
            && (r.outcome == Done <==> ValidRelay(a) && active && !taken)
            && (r.outcome == Failed(Conflict) <==> ValidRelay(a) && active && taken)
            && r.outcome in {Done, Failed(Conflict), Failed(NotFound), Failed(Validation)}
  {
    hide BumpAll, ValidRelay, InPool;
    if (a.networkId, a.nodeId) in db.memberships {
      assert MembershipOk(db, (a.networkId, a.nodeId), db.memberships[(a.networkId, a.nodeId)]);
    }
    if (a.networkId, a.relayNodeId) in db.memberships {
      assert MembershipOk(db, (a.networkId, a.relayNodeId), db.memberships[(a.networkId, a.relayNodeId)]);
    }
  }

  lemma SetRelayWrites(db: Db, a: Relay)
    requires SetRelay(db, a).outcome == Done
    ensures var after := SetRelay(db, a).db;
            && Advanced(db.networks, after.networks, {a.networkId})
            && after.relays == db.relays[(a.networkId, a.nodeId) := a]
            && after == db.(networks := after.networks, relays := after.relays)
  {
    hide BumpAll, ValidRelay, Advanced;
    BumpIsAdvance(db.networks, {a.networkId});
  }

  /** Removing a node takes its memberships, endpoints and assignments with it and leaves its invites consumed by
      nobody; the networks it was in, or was an end of an assignment in, advance. */
  lemma RemoveNodeMeans(db: Db, d: Id)
    requires RelaysOk(db)
    ensures RemoveNode(db, d).outcome == if d in db.nodes then Done else Failed(NotFound)
    ensures d in db.nodes ==>
              var after := RemoveNode(db, d).db;
              && after.nodes == db.nodes - {d}
              && (forall k :: k in after.memberships <==> k in db.memberships && k.1 != d)
              && (forall k | k in after.memberships :: after.memberships[k] == db.memberships[k])
              && (forall e :: e in after.endpoints <==> e in db.endpoints && e.nodeId != d)
              && (forall k :: k in after.relays <==> k in db.relays && k.1 != d && db.relays[k].relayNodeId != d)
              && (forall k | k in after.relays :: after.relays[k] == db.relays[k])
    ensures d in db.nodes ==>
              var after := RemoveNode(db, d).db;
              && after.invites.Keys == db.invites.Keys
              && (forall i | i in db.invites ::
                    after.invites[i] == if db.invites[i].consumedBy == d then db.invites[i].(consumedBy := "")
                                        else db.invites[i])
              && Advanced(db.networks, after.networks,
                          set n | n in db.networks && ((n, d) in db.memberships || EndsIn(db, n, d)))
  {
    hide BumpAll, ValidRelay, Advanced;
    forall k | k in db.relays ensures db.relays[k].nodeId == k.1 { assert RelayOk(db, k, db.relays[k]); }
    if d in db.nodes {
      BumpIsAdvance(db.networks, AffectedByRemoval(db, d));
      SameAdvance(db.networks, RemoveNode(db, d).db.networks, AffectedByRemoval(db, d),
                  set n | n in db.networks && ((n, d) in db.memberships || EndsIn(db, n, d))) by {
        forall n | n in db.networks
          ensures n in AffectedByRemoval(db, d) <==> (n, d) in db.memberships || EndsIn(db, n, d)
        {
          RemovalAffects(db, n, d);
        }
      }
    }
  }

  /** Some assignment of the network has the node as an end. */
  ghost predicate EndsIn(db: Db, n: Id, d: Id) {
    exists k :: k in db.relays && k.0 == n && (k.1 == d || db.relays[k].relayNodeId == d)
  }

  lemma RemovalAffects(db: Db, n: Id, d: Id)
    requires forall k | k in db.relays :: db.relays[k].nodeId == k.1
    ensures n in AffectedByRemoval(db, d) <==> (n, d) in db.memberships || EndsIn(db, n, d)
  {
    if (n, d) in db.memberships { assert (n, d).1 == d && (n, d).0 in NetworksOf(db, d); }
  }

  lemma SameAdvance(before: map<Id, Network>, after: map<Id, Network>, a: set<Id>, b: set<Id>)
    requires Advanced(before, after, a) && forall n | n in before :: n in a <==> n in b
    ensures Advanced(before, after, b)
  {
  }

  lemma RemoveRelayMeans(db: Db, n: Id)
    ensures var r := RemoveRelay(db, n);
            && (r.outcome == Done <==> exists k :: k in db.relays && k.0 == n)
            && (r.outcome == Failed(NotFound) <==> r.outcome != Done)
            && (r.outcome == Done ==>
                  && Advanced(db.networks, r.db.networks, {n})
                  && (forall k :: k in r.db.relays <==> k in db.relays && k.0 != n)
                  && (forall k | k in r.db.relays :: r.db.relays[k] == db.relays[k])
                  && r.db == db.(networks := r.db.networks, relays := r.db.relays))
  {
    hide BumpAll, Advanced;
    BumpIsAdvance(db.networks, {n});
  }

  // ---------------------------------------------------------------- the schema, column by column

  /** What the row checks of the schema say about a row of each table. */
  lemma NetworkRow(db: Db, n: Id)
    requires Checks.Schema(db) && n in db.networks
    ensures db.networks[n].id == n && Block(db.networks[n].pool) && db.networks[n].configVersion > 0
  {
    hide Blank, NewPool, Block, NodesOk, MembershipsOk, InvitesOk, EndpointsOk, RelaysOk, Checks.RevokedInOrder;
    PoolMeans(db.networks[n].pool, NoAddr);
  }

  lemma MembershipRow(db: Db, k: Pair)
    requires Checks.Schema(db) && k in db.memberships
    ensures var m := db.memberships[k];
            && (m.networkId, m.nodeId) == k && k.0 in db.networks && k.1 in db.nodes
            && InBlock(m.virtualIPv4, db.networks[k.0].pool)
            && m.role in {Owner, Admin, Member} && m.status in {Pending, Active, Suspended, Revoked}
  {
    hide Blank, NewPool, InPool, Block, InBlock, NetworksOk, NodesOk, InvitesOk, EndpointsOk, RelaysOk,
         Checks.RevokedInOrder, Checks.PositiveVersions;
    assert MembershipOk(db, k, db.memberships[k]);
    PoolMeans(db.networks[k.0].pool, db.memberships[k].virtualIPv4);
  }

  lemma InviteRow(db: Db, i: Id)
    requires Checks.Schema(db) && i in db.invites
    ensures var v := db.invites[i];
            && v.id == i && v.networkId in db.networks
            && v.createdAt < v.expiresAt && (v.consumedAt.None? || v.revokedAt.None?)
            && (v.consumedAt.Some? ==> v.createdAt <= v.consumedAt.value)
            && (v.revokedAt.Some? ==> v.createdAt <= v.revokedAt.value)
            && (v.consumedBy != "" ==> v.consumedAt.Some? && v.consumedBy in db.nodes)
  {
    hide NetworksOk, NodesOk, MembershipsOk, EndpointsOk, RelaysOk, Checks.PositiveVersions;
    assert InviteOk(db, i, db.invites[i]) && Checks.RevocationOk(db.invites[i]);
  }

  lemma EndpointRow(db: Db, e: Endpoint)
    requires Checks.Schema(db) && e in db.endpoints
    ensures e.nodeId in db.nodes && Reachable(e.address, e.family, e.port) && 0 <= e.priority < 0x8000_0000
  {
    hide Blank, NetworksOk, NodesOk, MembershipsOk, InvitesOk, RelaysOk, Checks.RevokedInOrder, Checks.PositiveVersions;
  }

  lemma RelayRow(db: Db, k: Pair)
    requires Checks.Schema(db) && k in db.relays
    ensures var a := db.relays[k];
            && (a.networkId, a.nodeId) == k && a.nodeId != a.relayNodeId && Reachable(a.address, a.family, a.port)
            && a.status in {RelayActive, RelayExpired, RelayRevoked}
            && (a.expiresAt.Some? ==> a.assignedAt < a.expiresAt.value)
            && k in db.memberships && (k.0, a.relayNodeId) in db.memberships
  {
    hide Blank, NetworksOk, NodesOk, MembershipsOk, InvitesOk, EndpointsOk, Checks.RevokedInOrder,
         Checks.PositiveVersions;
    assert RelayOk(db, k, db.relays[k]);
  }
}
