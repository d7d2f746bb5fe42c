/** Control-plane records and their validation (internal/control/model.go, validation.go).
    Times are integers with 0 for the zero time; a network's pool is the parsed form of its CIDR text. */
module Control {
  import opened Text
  import opened NetIp
  import opened AddressPool

  type Time = int
  type I64 = x: int | -0x8000_0000_0000_0000 <= x < 0x8000_0000_0000_0000
  const MAX_I64 := 0x7FFF_FFFF_FFFF_FFFF

  datatype Role = Owner | Admin | Member | OtherRole
  datatype MembershipStatus = Pending | Active | Suspended | Revoked | OtherStatus
  datatype Family = IPv4 | IPv6 | OtherFamily
  datatype RelayStatus = RelayActive | RelayExpired | RelayRevoked | OtherRelayStatus

  datatype Network = Network(id: Id, name: string, pool: Cidr, ownerId: Id, configVersion: I64, createdAt: Time)
  datatype Node = Node(id: Id, displayName: string, publicKey: string, platform: string, clientVersion: string,
                       lastSeen: Time)
  datatype Membership = Membership(networkId: Id, nodeId: Id, virtualIPv4: Addr, role: Role, status: MembershipStatus)
  datatype Endpoint = Endpoint(nodeId: Id, address: Addr, port: U16, family: Family, interfaceName: string,
                               priority: int, observedAt: Time)
  datatype Invite = Invite(id: Id, networkId: Id, tokenHash: string, expiresAt: Time, consumedAt: Option<Time>,
                           revokedAt: Option<Time>, consumedBy: Id, createdAt: Time)
  datatype Relay = Relay(id: Id, networkId: Id, nodeId: Id, relayNodeId: Id, address: Addr, port: U16, family: Family,
                         status: RelayStatus, assignedAt: Time, expiresAt: Option<Time>)
  datatype Peer = Peer(nodeId: Id, displayName: string, publicKey: string, virtualIPv4: Addr, node: Node,
                       membership: Membership, endpoints: set<Endpoint>)
  datatype Snapshot = Snapshot(networkId: Id, generation: I64, configVersion: I64, localNodeId: Id,
                               localVirtualIPv4: Addr, peers: seq<Peer>, relayAssignment: Option<Relay>,
                               relay: Option<Relay>, generatedAt: Time)

  datatype Error =
    | NotFound | Conflict | Validation
    | InviteExpired | InviteConsumed | InviteRevoked
    | NetworkRevoked | PoolExhausted | RandomFailed

  datatype Outcome = Done | Failed(error: Error)

  /** ConfigVersion++ on an int64, with the source's reset of non-positive versions. */
  function Bump(version: I64): I64 {
    if version <= 0 then 1
    else if version == MAX_I64 then -0x8000_0000_0000_0000
    else version + 1
  }

  /** A bump moves the version forward exactly when it is not the largest int64, and past the first
      published version it then adds exactly one. */
  lemma BumpAdvances(version: I64)
    ensures Bump(version) > version <==> version != MAX_I64
    ensures 0 < version < MAX_I64 ==> Bump(version) == version + 1
    ensures Bump(version) > 0 <==> version != MAX_I64
  {
  }

  predicate ValidNetwork(n: Network) {
    && !Blank(n.id) && !Blank(n.name) && !Blank(n.ownerId)
    && NewPool(n.pool).Some?
    && n.configVersion >= 0 && n.createdAt != 0
  }

  predicate ValidNode(n: Node) {
    !Blank(n.id) && !Blank(n.displayName) && !Blank(n.publicKey) && !Blank(n.platform) && !Blank(n.clientVersion)
  }

  predicate ValidMembership(m: Membership) {
    && !Blank(m.networkId) && !Blank(m.nodeId) && m.virtualIPv4.V4?
    && m.role != OtherRole && m.status != OtherStatus
  }

  predicate InPool(a: Addr, pool: Cidr) {
    a.V4? && NewPool(pool).Some? && Contains(NewPool(pool).value, a)
  }

  predicate ValidEndpointAddress(a: Addr, family: Family) {
    match family
    case IPv4 => a.V4?
    case IPv6 => a.V6?
    case OtherFamily => false
  }

  predicate ValidEndpoint(e: Endpoint) {
    && !Blank(e.nodeId) && ValidEndpointAddress(e.address, e.family) && e.port != 0
    && !Blank(e.interfaceName) && 0 <= e.priority <= 0x7FFF_FFFF && e.observedAt != 0
  }

  predicate ValidInvite(i: Invite) {
    && !Blank(i.id) && !Blank(i.networkId) && !Blank(i.tokenHash)
    && i.createdAt != 0 && i.expiresAt != 0 && i.expiresAt > i.createdAt
    && (i.consumedAt.Some? ==> i.consumedAt.value >= i.createdAt)
    && (i.revokedAt.Some? ==> i.revokedAt.value >= i.createdAt)
    && !(i.consumedAt.Some? && i.revokedAt.Some?)
    && (i.consumedBy != "" ==> i.consumedAt.Some?)
  }

  predicate ValidRelay(a: Relay) {
    && !Blank(a.id) && !Blank(a.networkId) && !Blank(a.nodeId) && !Blank(a.relayNodeId)
    && a.nodeId != a.relayNodeId
    && ValidEndpointAddress(a.address, a.family) && a.port != 0
    && a.status != OtherRelayStatus && a.assignedAt != 0
    && (a.expiresAt.Some? ==> a.expiresAt.value > a.assignedAt)
  }

  predicate IsFresh(e: Endpoint, now: Time, maxAge: int) {
    maxAge >= 0 && e.observedAt != 0 && now - maxAge <= e.observedAt <= now
  }

  predicate Usable(a: Relay, now: Time) {
    a.assignedAt <= now && (a.expiresAt.Some? ==> now < a.expiresAt.value)
  }
}
