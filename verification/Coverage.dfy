/** The rows a mutation of the PostgreSQL repository locks cover the rows it changes: whoever changes the rows of a
    network or of a node holds that network's or node's row (internal/db/postgres.go:400-932). */
module Coverage {
  import opened Text
  import opened AddressPool
  import opened Control
  import opened Relational
  import CacheKey
  import Constraints
  import L = Locks

  /** The plan of an operation, with what it reads in these tables. Operations of a single statement have none. */
  ghost function Locked(db: Db, op: Op): seq<L.Row> {
    match op
    case OpRemoveNode(d) => L.PlanOf(L.RemoveNode(d, InOrder(AffectedByRemoval(db, d))))
    case OpAddMembership(m) => L.PlanOf(L.AddMembership(m.networkId, m.nodeId))
    case OpRemoveMembership(n, d) => L.PlanOf(L.RemoveMembership(n, d))
    case OpCreateInvite(i) => L.PlanOf(L.CreateInvite(i.networkId, i.consumedBy))
    case OpConsumeInvite(_, _, _, consumer) => L.PlanOf(L.ConsumeInvite(consumer))
    case OpReplaceEndpoints(d, _) => L.PlanOf(L.ReplaceEndpoints(d, InOrder(NetworksOf(db, d))))
    case OpSetRelay(a) => L.PlanOf(L.SetRelayAssignment(a.networkId, a.nodeId, a.relayNodeId, a.id, false))
    case OpRemoveRelay(n) => L.PlanOf(L.RemoveRelayAssignment(n, InOrder(RelayEnds(db, n))))
    case _ => []
  }

  /** The nodes that are an end of an assignment of the network. */
  ghost function RelayEnds(db: Db, n: Id): set<Id> {
    (set k | k in db.relays && k.0 == n :: db.relays[k].nodeId)
    + (set k | k in db.relays && k.0 == n :: db.relays[k].relayNodeId)
  }

  lemma HasNetworks(nodes: seq<L.Row>, ids: seq<Id>, rest: seq<L.Row>, n: Id)
    requires n in ids
    ensures L.NetworkRow(n) in nodes + L.LockNetworks(ids) + rest && L.NetworkRow(n) in nodes + L.LockNetworks(ids)
  {
    hide L.LockNetworks;
    L.NetworksClimb(ids);
  }

  lemma HasNode(d: Id, rest: seq<L.Row>)
    ensures L.NodeRow(d) in L.LockNodes([d]) + rest && L.NodeRow(d) in L.LockNodes([d])
  {
    hide L.LockNodes;
    L.OneNode(d);
    assert [L.NodeRow(d)][0] == L.NodeRow(d);
  }

  lemma Ordered(ids: set<Id>, n: Id)
    requires n in ids
    ensures n in InOrder(ids)
  {
    hide InOrder;
    assert n in Elements(InOrder(ids));
  }

  /** Every network an operation affects is locked by it. */
  lemma AffectedAreLocked(db: Db, op: Op, n: Id)
    requires n in CacheKey.Affected(db, op)
    ensures L.NetworkRow(n) in Locked(db, op)
  {
    hide InOrder, L.LockNodes, L.LockNetworks, L.NetworkRows, Exec, AffectedByRemoval, NetworksOf;
    match op {
      case OpRemoveNode(d) =>
        Ordered(AffectedByRemoval(db, d), n);
        var ids := InOrder(AffectedByRemoval(db, d));
        HasNetworks(L.LockNodes([d]), ids, L.NetworkRows(ids), n);
      case OpAddMembership(m) =>
        assert (L.LockNodes([m.nodeId]) + [L.NetworkRow(n)])[|L.LockNodes([m.nodeId])|] == L.NetworkRow(n);
      case OpRemoveMembership(_, d) =>
        HasNetworks(L.LockNodes([d]), [n], [L.NetworkRow(n)], n);
      case OpReplaceEndpoints(d, _) =>
        Ordered(NetworksOf(db, d), n);
        HasNetworks(L.LockNodes([d]), InOrder(NetworksOf(db, d)), [], n);
      case OpSetRelay(a) =>
        HasNetworks(L.LockNodes([a.nodeId, a.relayNodeId]), [n], [], n);
        assert L.LockNodes([a.nodeId, a.relayNodeId]) + L.LockNetworks([n]) + [] + [L.NetworkRow(n)] ==
               L.LockNodes([a.nodeId, a.relayNodeId]) + L.LockNetworks([n]) + [L.NetworkRow(n)];
      case OpRemoveRelay(_) =>
        var ends := InOrder(RelayEnds(db, n));
        HasNetworks(L.LockNodes(ends), [n], [L.NetworkRow(n)], n);
      case _ =>
    }
  }

  /** A row differs between two tables: it came, went or changed. */
  ghost predicate Differs<K, V>(before: map<K, V>, after: map<K, V>, k: K) {
    (k in before) != (k in after) || (k in before && before[k] != after[k])
  }

  /** The rows that changed are covered: networks and the assignments and members in them by the network's row, members
      and endpoints by the node's row, and a node that goes by its own. */
  ghost predicate Covered(db: Db, after: Db, plan: seq<L.Row>) {
    && (forall n | n in db.networks && Differs(db.networks, after.networks, n) :: L.NetworkRow(n) in plan)
    && (forall k | Differs(db.memberships, after.memberships, k) ::
          L.NetworkRow(k.0) in plan && L.NodeRow(k.1) in plan)
    && (forall k | Differs(db.relays, after.relays, k) :: L.NetworkRow(k.0) in plan)
    && (forall e | (e in db.endpoints) != (e in after.endpoints) :: L.NodeRow(e.nodeId) in plan)
    && (forall d | d in db.nodes && d !in after.nodes :: L.NodeRow(d) in plan)
  }

  lemma NetworksCovered(db: Db, op: Op)
    requires WellFormed(db)
    ensures forall n | n in db.networks && Differs(db.networks, Exec(db, op).db.networks, n) ::
              L.NetworkRow(n) in Locked(db, op)
  {
    hide WellFormed, Locked, CacheKey.Affected;
    forall n | n in db.networks && Differs(db.networks, Exec(db, op).db.networks, n)
      ensures L.NetworkRow(n) in Locked(db, op)
    {
      ChangedIsAffected(db, op, n);
      AffectedAreLocked(db, op, n);
    }
  }

  lemma ChangedIsAffected(db: Db, op: Op, n: Id)
    requires n in db.networks && Differs(db.networks, Exec(db, op).db.networks, n)
    ensures n in CacheKey.Affected(db, op)
  {
    hide Blank, NewPool, ValidNode, ValidInvite, ValidRelay, ValidMembership, EndpointsOutcome, ClassifyMiss,
         Consumable, InPool, AffectedByRemoval, NetworksOf, ValidNetwork;
  }

  lemma MembersCovered(db: Db, op: Op, k: Pair)
    requires Differs(db.memberships, Exec(db, op).db.memberships, k)
    ensures k.0 in CacheKey.Affected(db, op) && L.NodeRow(k.1) in Locked(db, op)
  {
    hide Blank, NewPool, ValidNode, ValidInvite, ValidRelay, ValidMembership, EndpointsOutcome, ClassifyMiss,
         Consumable, InPool, L.LockNodes, L.LockNetworks, L.NetworkRows, InOrder, BumpAll;
    match op {
      case OpRemoveNode(d) =>
        var ids := InOrder(AffectedByRemoval(db, d));
        HasNode(d, L.LockNetworks(ids));
        assert L.LockNodes([d]) + L.LockNetworks(ids) + L.NetworkRows(ids) ==
               L.LockNodes([d]) + (L.LockNetworks(ids) + L.NetworkRows(ids));
        assert k.1 == d && k.0 in NetworksOf(db, d);
      case OpAddMembership(m) =>
        HasNode(m.nodeId, [L.NetworkRow(m.networkId)]);
      case OpRemoveMembership(n, d) =>
        HasNode(d, L.LockNetworks([n]));
      case _ =>
    }
  }

  lemma RelaysCovered(db: Db, op: Op, k: Pair)
    requires RelaysOk(db) && Differs(db.relays, Exec(db, op).db.relays, k)
    ensures k.0 in CacheKey.Affected(db, op)
  {
    hide Blank, NewPool, ValidNode, ValidInvite, ValidRelay, ValidMembership, EndpointsOutcome, ClassifyMiss,
         Consumable, InPool, BumpAll;
    if op.OpRemoveNode? { assert k in db.relays && Involves(db.relays[k], op.d); }
  }

  lemma EndpointsCovered(db: Db, op: Op, e: Endpoint)
    requires (e in db.endpoints) != (e in Exec(db, op).db.endpoints)
    ensures L.NodeRow(e.nodeId) in Locked(db, op)
  {
    hide Blank, NewPool, ValidNode, ValidInvite, ValidRelay, ValidMembership, EndpointsOutcome, ClassifyMiss,
         Consumable, InPool, BumpAll, L.LockNodes, L.LockNetworks, L.NetworkRows, InOrder, ValidEndpoint;
    match op {
      case OpRemoveNode(d) =>
        var ids := InOrder(AffectedByRemoval(db, d));
        HasNode(d, L.LockNetworks(ids));
      case OpReplaceEndpoints(d, list) =>
        Constraints.EndpointsOutcomeMeaning(d, list);
        HasNode(d, L.LockNetworks(InOrder(NetworksOf(db, d))));
      case _ =>
    }
  }

  lemma NodesCovered(db: Db, op: Op, d: Id)
    requires d in db.nodes && d !in Exec(db, op).db.nodes
    ensures L.NodeRow(d) in Locked(db, op)
  {
    hide Blank, NewPool, ValidNode, ValidInvite, ValidRelay, ValidMembership, EndpointsOutcome, ClassifyMiss,
         Consumable, InPool, BumpAll, L.LockNodes, L.LockNetworks, L.NetworkRows, InOrder;
    if op.OpRemoveNode? {
      HasNode(d, L.LockNetworks(InOrder(AffectedByRemoval(db, d))));
    }
  }

  /** Every mutation holds the rows that cover what it changes. */
  lemma PlansCoverChanges(db: Db, op: Op)
    requires WellFormed(db)
    ensures Covered(db, Exec(db, op).db, Locked(db, op))
  {
    hide Exec, Locked, CacheKey.Affected, Differs, NetworksOk, NodesOk, MembershipsOk, InvitesOk, EndpointsOk, RelaysOk;
    var after := Exec(db, op).db;
    NetworksCovered(db, op);
    forall k | Differs(db.memberships, after.memberships, k)
      ensures L.NetworkRow(k.0) in Locked(db, op) && L.NodeRow(k.1) in Locked(db, op)
    {
      MembersCovered(db, op, k);
      AffectedAreLocked(db, op, k.0);
    }
    forall k | Differs(db.relays, after.relays, k) ensures L.NetworkRow(k.0) in Locked(db, op) {
      RelaysCovered(db, op, k);
      AffectedAreLocked(db, op, k.0);
    }
    forall e | (e in db.endpoints) != (e in after.endpoints) ensures L.NodeRow(e.nodeId) in Locked(db, op) {
      EndpointsCovered(db, op, e);
    }
    forall d | d in db.nodes && d !in after.nodes ensures L.NodeRow(d) in Locked(db, op) {
      NodesCovered(db, op, d);
    }
  }
}
