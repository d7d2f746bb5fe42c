/** The control plane as tables: the constraints of internal/db/schema.sql and the statements of
    internal/db/postgres.go, executed atomically. Every operation is a function of the tables. */
module Relational {
  import opened Text
  import opened NetIp
  import opened AddressPool
  import opened Control

  type Pair = (Id, Id)

  /** Memberships and relay assignments are keyed by their UNIQUE (network_id, node_id). */
  datatype Db = Db(networks: map<Id, Network>, nodes: map<Id, Node>, memberships: map<Pair, Membership>,
                   invites: map<Id, Invite>, endpoints: set<Endpoint>, relays: map<Pair, Relay>)

  const EmptyDb := Db(map[], map[], map[], map[], {}, map[])

  datatype Result = Result(outcome: Outcome, db: Db)

  // ---------------------------------------------------------------- constraints

  ghost predicate NetworksOk(db: Db) {
    forall n | n in db.networks :: db.networks[n].id == n && !Blank(n) && NewPool(db.networks[n].pool).Some?
  }

  ghost predicate NodesOk(db: Db) {
    && (forall d | d in db.nodes :: db.nodes[d].id == d && ValidNode(db.nodes[d]))
    && (forall d, d' | d in db.nodes && d' in db.nodes && db.nodes[d].publicKey == db.nodes[d'].publicKey :: d == d')
  }

  ghost predicate MembershipOk(db: Db, k: Pair, m: Membership) {
    && m.networkId == k.0 && m.nodeId == k.1
    && k.0 in db.networks && k.1 in db.nodes
    && InPool(m.virtualIPv4, db.networks[k.0].pool)
    && m.role != OtherRole && m.status != OtherStatus
  }

  ghost predicate MembershipsOk(db: Db) {
    && (forall k | k in db.memberships :: MembershipOk(db, k, db.memberships[k]))
    && (forall k, l | k in db.memberships && l in db.memberships && k.0 == l.0
                      && db.memberships[k].virtualIPv4 == db.memberships[l].virtualIPv4 :: k == l)
  }

  ghost predicate InviteOk(db: Db, i: Id, v: Invite) {
    && v.id == i && v.networkId in db.networks
    && v.expiresAt > v.createdAt
    && (v.consumedAt.Some? ==> v.consumedAt.value >= v.createdAt)
    && !(v.consumedAt.Some? && v.revokedAt.Some?)
    && (v.consumedBy != "" ==> v.consumedAt.Some? && v.consumedBy in db.nodes)
  }

  ghost predicate InvitesOk(db: Db) {
    && (forall i | i in db.invites :: InviteOk(db, i, db.invites[i]))
    && (forall i, j | i in db.invites && j in db.invites
                      && db.invites[i].tokenHash == db.invites[j].tokenHash :: i == j)
  }

  predicate SameEndpoint(e: Endpoint, f: Endpoint) {
    e.nodeId == f.nodeId && e.address == f.address && e.port == f.port && e.interfaceName == f.interfaceName
  }

  ghost predicate EndpointsOk(db: Db) {
    && (forall e | e in db.endpoints :: ValidEndpoint(e) && e.nodeId in db.nodes)
    && (forall e, f | e in db.endpoints && f in db.endpoints && SameEndpoint(e, f) :: e == f)
  }

  ghost predicate RelayOk(db: Db, k: Pair, a: Relay) {
    && a.networkId == k.0 && a.nodeId == k.1 && ValidRelay(a)
    && k in db.memberships && (k.0, a.relayNodeId) in db.memberships
  }

  ghost predicate RelaysOk(db: Db) {
    && (forall k | k in db.relays :: RelayOk(db, k, db.relays[k]))
    && (forall k, l | k in db.relays && l in db.relays && db.relays[k].id == db.relays[l].id :: k == l)
  }

  /** Keys, foreign keys, uniqueness and the row checks that every operation keeps. The two remaining checks of the
      schema, on versions and on the order of revocations, are in Checks. */
  ghost predicate WellFormed(db: Db) {
    && NetworksOk(db) && NodesOk(db) && MembershipsOk(db)
    && InvitesOk(db) && EndpointsOk(db) && RelaysOk(db)
  }

  // ---------------------------------------------------------------- versions

  function BumpAll(networks: map<Id, Network>, affected: set<Id>): map<Id, Network> {
    map n | n in networks ::
      if n in affected then networks[n].(configVersion := Bump(networks[n].configVersion)) else networks[n]
  }

  ghost function NetworksOf(db: Db, d: Id): set<Id> {
    set k | k in db.memberships && k.1 == d :: k.0
  }

  // ---------------------------------------------------------------- statements

  ghost function CreateNetwork(db: Db, n: Network): Result {
    if !ValidNetwork(n) then Result(Failed(Validation), db)
    else if n.id in db.networks then Result(Failed(Conflict), db)
    else Result(Done, db.(networks := db.networks[n.id := if n.configVersion == 0 then n.(configVersion := 1) else n]))
  }

  ghost function AddNode(db: Db, node: Node): Result {
    if !ValidNode(node) then Result(Failed(Validation), db)
    else if node.id in db.nodes || exists d :: d in db.nodes && db.nodes[d].publicKey == node.publicKey
    then Result(Failed(Conflict), db)
    else Result(Done, db.(nodes := db.nodes[node.id := node]))
  }

  ghost function TouchNode(db: Db, d: Id, at: Time): Result {
    if at == 0 then Result(Failed(Validation), db)
    else if d !in db.nodes then Result(Failed(NotFound), db)
    else Result(Done, db.(nodes := db.nodes[d := db.nodes[d].(lastSeen := at)]))
  }

  ghost function UpdateClientVersion(db: Db, d: Id, version: string): Result {
    if Blank(version) then Result(Failed(Validation), db)
    else if d !in db.nodes then Result(Failed(NotFound), db)
    else Result(Done, db.(nodes := db.nodes[d := db.nodes[d].(clientVersion := version)]))
  }

  predicate Involves(a: Relay, d: Id) { a.nodeId == d || a.relayNodeId == d }

  function ForgetConsumer(i: Invite, d: Id): Invite {
    if i.consumedBy == d then i.(consumedBy := "") else i
  }

  ghost function AffectedByRemoval(db: Db, d: Id): set<Id> {
    NetworksOf(db, d) + set k | k in db.relays && Involves(db.relays[k], d) :: k.0
  }

  /** DELETE FROM nodes with the schema's ON DELETE CASCADE and ON DELETE SET NULL rules. */
  ghost function RemoveNode(db: Db, d: Id): Result {
    if d !in db.nodes then Result(Failed(NotFound), db)
    else Result(Done, Db(
      BumpAll(db.networks, AffectedByRemoval(db, d)),
      db.nodes - {d},
      map k | k in db.memberships && k.1 != d :: db.memberships[k],
      map i | i in db.invites :: ForgetConsumer(db.invites[i], d),
      (set e | e in db.endpoints && e.nodeId != d),
      map k | k in db.relays && !Involves(db.relays[k], d) :: db.relays[k]))
  }

  ghost function AddMembership(db: Db, m: Membership): Result {
    var k := (m.networkId, m.nodeId);
    if !ValidMembership(m) then Result(Failed(Validation), db)
    else if m.networkId !in db.networks || m.nodeId !in db.nodes then Result(Failed(NotFound), db)
    else if !InPool(m.virtualIPv4, db.networks[m.networkId].pool) then Result(Failed(Validation), db)
    else if k in db.memberships
            || exists l :: l in db.memberships && l.0 == m.networkId && db.memberships[l].virtualIPv4 == m.virtualIPv4
    then Result(Failed(Conflict), db)
    else Result(Done, db.(memberships := db.memberships[k := m], networks := BumpAll(db.networks, {m.networkId})))
  }

  ghost function RemoveMembership(db: Db, n: Id, d: Id): Result {
    if (n, d) !in db.memberships then Result(Failed(NotFound), db)
    else Result(Done, db.(
      memberships := db.memberships - {(n, d)},
      relays := map k | k in db.relays && !(k.0 == n && Involves(db.relays[k], d)) :: db.relays[k],
      networks := BumpAll(db.networks, {n})))
  }

  ghost function CreateInvite(db: Db, i: Invite): Result {
    if !ValidInvite(i) then Result(Failed(Validation), db)
    else if i.networkId !in db.networks || (i.consumedBy != "" && i.consumedBy !in db.nodes)
    then Result(Failed(NotFound), db)
    else if i.id in db.invites || exists j :: j in db.invites && db.invites[j].tokenHash == i.tokenHash
    then Result(Failed(Conflict), db)
    else Result(Done, db.(invites := db.invites[i.id := i]))
  }

  ghost function RevokeInvite(db: Db, i: Id, at: Time): Result {
    if i == "" || at == 0 then Result(Failed(Validation), db)
    else if i !in db.invites then Result(Failed(NotFound), db)
    else if db.invites[i].consumedAt.Some? then Result(Failed(InviteConsumed), db)
    else if db.invites[i].revokedAt.Some? then Result(Done, db)
    else Result(Done, db.(invites := db.invites[i := db.invites[i].(revokedAt := Some(at))]))
  }

  /** inviteLookupPredicate: the row with that id, or, when no row has it as id, a row of that network. */
  ghost predicate Matches(db: Db, key: Id, tokenHash: string, i: Id)
    requires i in db.invites
  {
    (i == key || (db.invites[i].networkId == key && key !in db.invites)) && db.invites[i].tokenHash == tokenHash
  }

  /** The WHERE clause of the consuming UPDATE. */
  ghost predicate Consumable(db: Db, key: Id, tokenHash: string, at: Time, i: Id)
    requires i in db.invites
  {
    var v := db.invites[i];
    Matches(db, key, tokenHash, i) && v.consumedAt.None? && v.revokedAt.None? && at >= v.createdAt && v.expiresAt > at
  }

  /** The conditional UPDATE, then the classification of a miss; ends in Conflict when nothing explains it. */
  ghost function ConsumeInvite(db: Db, key: Id, tokenHash: string, at: Time, consumer: Id): Result {
    if consumer != "" && consumer !in db.nodes then Result(Failed(NotFound), db)
    else if exists i :: i in db.invites && Consumable(db, key, tokenHash, at, i) then
      Result(Done, db.(invites := map i | i in db.invites ::
        if Consumable(db, key, tokenHash, at, i)
        then db.invites[i].(consumedAt := Some(at), consumedBy := consumer) else db.invites[i]))
    else Result(Failed(ClassifyMiss(db, key, tokenHash, at)), db)
  }

  ghost function ClassifyMiss(db: Db, key: Id, tokenHash: string, at: Time): Error {
    if !exists i :: i in db.invites && Matches(db, key, tokenHash, i) then NotFound
    else
      var i :| i in db.invites && Matches(db, key, tokenHash, i);
      var v := db.invites[i];
      if v.consumedAt.Some? then InviteConsumed
      else if v.revokedAt.Some? then InviteRevoked
      else if at < v.createdAt then Validation
      else if at >= v.expiresAt then InviteExpired
      else Conflict
  }

  /** The first reason to refuse a list of endpoints, reading it from the front. */
  function EndpointsOutcome(d: Id, endpoints: seq<Endpoint>): Outcome {
    if endpoints == [] then Done else
      var front, e := endpoints[..|endpoints| - 1], endpoints[|endpoints| - 1];
      var earlier := EndpointsOutcome(d, front);
      if earlier != Done then earlier
      else if e.nodeId != d || !ValidEndpoint(e) then Failed(Validation)
      else if exists i | 0 <= i < |front| :: SameEndpoint(front[i], e) then Failed(Conflict)
      else Done
  }

  ghost function ReplaceEndpoints(db: Db, d: Id, endpoints: seq<Endpoint>): Result {
    if d !in db.nodes then Result(Failed(NotFound), db)
    else if EndpointsOutcome(d, endpoints) != Done then Result(EndpointsOutcome(d, endpoints), db)
    else Result(Done, db.(
      endpoints := (set e | e in db.endpoints && e.nodeId != d) + Elements(endpoints),
      networks := BumpAll(db.networks, NetworksOf(db, d))))
  }

  ghost function ActiveMember(db: Db, k: Pair): Outcome {
    if k !in db.memberships then Failed(NotFound)
    else if db.memberships[k].status != Active then Failed(Validation)
    else Done
  }

  /** The upsert of one pair's row, refused when another pair owns the id; its statements are in Statements. */
  ghost function SetRelay(db: Db, a: Relay): Result {
    var k := (a.networkId, a.nodeId);
    if !ValidRelay(a) then Result(Failed(Validation), db)
    else if a.networkId !in db.networks || a.nodeId !in db.nodes || a.relayNodeId !in db.nodes
    then Result(Failed(NotFound), db)
    else if ActiveMember(db, k) != Done then Result(ActiveMember(db, k), db)
    else if ActiveMember(db, (a.networkId, a.relayNodeId)) != Done
    then Result(ActiveMember(db, (a.networkId, a.relayNodeId)), db)
    else if exists l :: l in db.relays && l != k && db.relays[l].id == a.id then Result(Failed(Conflict), db)
    else Result(Done, db.(relays := db.relays[k := a], networks := BumpAll(db.networks, {a.networkId})))
  }

  ghost function RemoveRelay(db: Db, n: Id): Result {
    if !exists k :: k in db.relays && k.0 == n then Result(Failed(NotFound), db)
    else Result(Done, db.(relays := map k | k in db.relays && k.0 != n :: db.relays[k],
                          networks := BumpAll(db.networks, {n})))
  }

  // ---------------------------------------------------------------- any operation

  datatype Op =
    | OpCreateNetwork(network: Network)
    | OpAddNode(node: Node)
    | OpTouchNode(d: Id, at: Time)
    | OpUpdateClientVersion(d: Id, version: string)
    | OpRemoveNode(d: Id)
    | OpAddMembership(m: Membership)
    | OpRemoveMembership(n: Id, d: Id)
    | OpCreateInvite(invite: Invite)
    | OpRevokeInvite(i: Id, at: Time)
    | OpConsumeInvite(key: Id, tokenHash: string, at: Time, consumer: Id)
    | OpReplaceEndpoints(d: Id, list: seq<Endpoint>)
    | OpSetRelay(a: Relay)
    | OpRemoveRelay(n: Id)

  ghost function Exec(db: Db, op: Op): Result {
    match op
    case OpCreateNetwork(n) => CreateNetwork(db, n)
    case OpAddNode(node) => AddNode(db, node)
    case OpTouchNode(d, at) => TouchNode(db, d, at)
    case OpUpdateClientVersion(d, v) => UpdateClientVersion(db, d, v)
    case OpRemoveNode(d) => RemoveNode(db, d)
    case OpAddMembership(m) => AddMembership(db, m)
    case OpRemoveMembership(n, d) => RemoveMembership(db, n, d)
    case OpCreateInvite(i) => CreateInvite(db, i)
    case OpRevokeInvite(i, at) => RevokeInvite(db, i, at)
    case OpConsumeInvite(key, hash, at, consumer) => ConsumeInvite(db, key, hash, at, consumer)
    case OpReplaceEndpoints(d, list) => ReplaceEndpoints(db, d, list)
    case OpSetRelay(a) => SetRelay(db, a)
    case OpRemoveRelay(n) => RemoveRelay(db, n)
  }

  // ---------------------------------------------------------------- snapshots

  ghost function PeerIds(db: Db, n: Id, local: Id): set<Id> {
    set k | && k in db.memberships && k.0 == n && k.1 != local
            && db.memberships[k].status == Active && k.1 in db.nodes :: k.1
  }

  ghost function FreshEndpoints(db: Db, d: Id, now: Time, maxAge: int): set<Endpoint> {
    set e | e in db.endpoints && e.nodeId == d && IsFresh(e, now, maxAge)
  }

  ghost function PeerOf(db: Db, n: Id, d: Id, now: Time, maxAge: int): Peer
    requires (n, d) in db.memberships && d in db.nodes
  {
    var node, m := db.nodes[d], db.memberships[(n, d)];
    Peer(node.id, node.displayName, node.publicKey, m.virtualIPv4, node, m, FreshEndpoints(db, d, now, maxAge))
  }

  ghost function PeersOf(db: Db, n: Id, ids: seq<Id>, now: Time, maxAge: int): (r: seq<Peer>)
    requires forall i | 0 <= i < |ids| :: (n, ids[i]) in db.memberships && ids[i] in db.nodes
    ensures |r| == |ids| && forall i | 0 <= i < |ids| :: r[i] == PeerOf(db, n, ids[i], now, maxAge)
  {
    seq(|ids|, i requires 0 <= i < |ids| => PeerOf(db, n, ids[i], now, maxAge))
  }

  ghost function RelayFor(db: Db, n: Id, local: Id, now: Time): Option<Relay> {
    if (n, local) !in db.relays then None else
      var a := db.relays[(n, local)];
      if a.status == RelayActive && Control.Usable(a, now)
         && ActiveMember(db, (n, a.nodeId)) == Done && ActiveMember(db, (n, a.relayNodeId)) == Done
      then Some(a) else None
  }

  lemma PeerIdsInOrder(db: Db, n: Id, local: Id)
    ensures forall i | 0 <= i < |InOrder(PeerIds(db, n, local))| ::
              (n, InOrder(PeerIds(db, n, local))[i]) in db.memberships && InOrder(PeerIds(db, n, local))[i] in db.nodes
  {
    var ids := InOrder(PeerIds(db, n, local));
    forall i | 0 <= i < |ids| ensures (n, ids[i]) in db.memberships && ids[i] in db.nodes {
      assert ids[i] in Elements(ids);
    }
  }

  /** The versioned snapshot a member may read: active peers in identifier order. */
  ghost function BuildSnapshot(db: Db, n: Id, local: Id, now: Time, maxAge: int): Option<Snapshot> {
    if n !in db.networks || ActiveMember(db, (n, local)) != Done || local !in db.nodes then None else
      PeerIdsInOrder(db, n, local);
      var network := db.networks[n];
      var relay := RelayFor(db, n, local, now);
      Some(Snapshot(network.id, network.configVersion, network.configVersion, local,
                    db.memberships[(n, local)].virtualIPv4,
                    PeersOf(db, n, InOrder(PeerIds(db, n, local)), now, maxAge), relay, relay, now))
  }
}
