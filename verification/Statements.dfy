/** Where one operation of the PostgreSQL repository takes several statements on a table, or one statement has effects
    by the foreign keys of internal/db/schema.sql, the steps themselves, proved to add up. */
module Statements {
  import opened Text
  import opened NetIp
  import opened AddressPool
  import opened Control
  import opened Relational
  import Constraints

  // ---------------------------------------------------------------- the relay upsert

  /** A statement's effect: how many rows it changed, and the tables after it. */
  datatype Effect = Effect(rows: nat, db: Db)

  ghost predicate IdTaken(db: Db, id: Id) { exists l :: l in db.relays && db.relays[l].id == id }

  /** INSERT ... ON CONFLICT DO NOTHING, with its two unique keys. */
  ghost function InsertRelay(db: Db, a: Relay): Effect {
    var k := (a.networkId, a.nodeId);
    if k in db.relays || IdTaken(db, a.id) then Effect(0, db) else Effect(1, db.(relays := db.relays[k := a]))
  }

  /** SELECT network_id, node_id ... WHERE id = $1. */
  ghost function OwnerOf(db: Db, id: Id): Option<Pair> {
    if IdTaken(db, id) then
      var l :| l in db.relays && db.relays[l].id == id;
      Some((db.relays[l].networkId, db.relays[l].nodeId))
    else None
  }

  /** UPDATE ... WHERE network_id = $2 AND node_id = $3: every column but the two of the key. */
  ghost function UpdateRelay(db: Db, a: Relay): Effect {
    var k := (a.networkId, a.nodeId);
    if k !in db.relays then Effect(0, db) else
      var row := db.relays[k].(id := a.id, relayNodeId := a.relayNodeId, address := a.address, port := a.port,
                               family := a.family, status := a.status, assignedAt := a.assignedAt,
                               expiresAt := a.expiresAt);
      Effect(1, db.(relays := db.relays[k := row]))
  }

  /** How the upsert ended. */
  datatype End = Inserted | OtherOwner | Updated | NoRow

  datatype Upserted = Upserted(end: End, db: Db)

  ghost function Upsert(db: Db, a: Relay): Upserted {
    var inserted := InsertRelay(db, a);
    if inserted.rows > 0 then Upserted(Inserted, inserted.db)
    else
      var owner := OwnerOf(db, a.id);
      if owner.Some? && owner.value != (a.networkId, a.nodeId) then Upserted(OtherOwner, db)
      else
        var updated := UpdateRelay(db, a);
        if updated.rows > 0 then Upserted(Updated, updated.db) else Upserted(NoRow, db)
  }

  /** The three statements together put the row in place unless another pair owns the id; the update then always
      finds its row, so its own conflict is unreachable. */
  lemma UpsertPutsRow(db: Db, a: Relay)
    requires RelaysOk(db)
    ensures Upsert(db, a).end != NoRow
    ensures Upsert(db, a).end == OtherOwner <==>
              exists l :: l in db.relays && l != (a.networkId, a.nodeId) && db.relays[l].id == a.id
    ensures Upsert(db, a).end != OtherOwner ==>
              Upsert(db, a).db == db.(relays := db.relays[(a.networkId, a.nodeId) := a])
  {
    hide ValidRelay, RelaysOk;
    Constraints.RelayKeys(db);
    UniqueRelayIds(db);
    var k := (a.networkId, a.nodeId);
    if IdTaken(db, a.id) {
      var l :| l in db.relays && db.relays[l].id == a.id;
      assert OwnerOf(db, a.id) == Some(l);
    }
  }

  lemma UniqueRelayIds(db: Db)
    requires RelaysOk(db)
    ensures forall k, l | k in db.relays && l in db.relays && db.relays[k].id == db.relays[l].id :: k == l
  {
    hide RelayOk;
  }

  // ---------------------------------------------------------------- deleting a node

  /** One action of a foreign key: deleting a row, or clearing a column, that refers to a row that is gone. */
  datatype Action = DropMember(k: Pair) | DropRelay(k: Pair) | DropEndpoint(e: Endpoint) | ClearConsumer(i: Id)

  ghost predicate RelayDangles(db: Db, k: Pair)
    requires k in db.relays
  {
    var a := db.relays[k];
    || a.networkId !in db.networks || a.nodeId !in db.nodes || a.relayNodeId !in db.nodes
    || (a.networkId, a.nodeId) !in db.memberships || (a.networkId, a.relayNodeId) !in db.memberships
  }

  ghost predicate Due(db: Db, x: Action) {
    match x
    case DropMember(k) => k in db.memberships && (k.0 !in db.networks || k.1 !in db.nodes)
    case DropRelay(k) => k in db.relays && RelayDangles(db, k)
    case DropEndpoint(e) => e in db.endpoints && e.nodeId !in db.nodes
    case ClearConsumer(i) => i in db.invites && db.invites[i].consumedBy != "" && db.invites[i].consumedBy !in db.nodes
  }

  ghost function Act(db: Db, x: Action): Db
    requires Due(db, x)
  {
    match x
    case DropMember(k) => db.(memberships := db.memberships - {k})
    case DropRelay(k) => db.(relays := db.relays - {k})
    case DropEndpoint(e) => db.(endpoints := db.endpoints - {e})
    case ClearConsumer(i) => db.(invites := db.invites[i := db.invites[i].(consumedBy := "")])
  }

  /** Actions in turn, each when it is due. */
  ghost function ActAll(db: Db, actions: seq<Action>): Option<Db>
    decreases |actions|
  {
    if actions == [] then Some(db)
    else if Due(db, actions[0]) then ActAll(Act(db, actions[0]), actions[1..])
    else None
  }

  ghost predicate Settled(db: Db) { forall x :: !Due(db, x) }

  /** Some of the rows that name `d` are gone, and no others. */
  ghost predicate Between(db: Db, d: Id, x: Db) {
    && x.networks == db.networks && x.nodes == db.nodes - {d}
    && MembersBetween(db, d, x.memberships) && RelaysBetween(db, d, x.relays)
    && EndpointsBetween(db, d, x.endpoints) && InvitesBetween(db, d, x.invites)
  }

  ghost predicate MembersBetween(db: Db, d: Id, m: map<Pair, Membership>) {
    && (forall k | k in m :: k in db.memberships && m[k] == db.memberships[k])
    && (forall k | k in db.memberships && k.1 != d :: k in m)
  }

  ghost predicate RelaysBetween(db: Db, d: Id, m: map<Pair, Relay>) {
    && (forall k | k in m :: k in db.relays && m[k] == db.relays[k])
    && (forall k | k in db.relays && !Involves(db.relays[k], d) :: k in m)
  }

  ghost predicate EndpointsBetween(db: Db, d: Id, s: set<Endpoint>) {
    s <= db.endpoints && forall e | e in db.endpoints && e.nodeId != d :: e in s
  }

  ghost predicate InvitesBetween(db: Db, d: Id, m: map<Id, Invite>) {
    && m.Keys == db.invites.Keys
    && forall i | i in db.invites :: m[i] == db.invites[i] || m[i] == ForgetConsumer(db.invites[i], d)
  }

  lemma Referenced(db: Db)
    requires WellFormed(db)
    ensures forall k | k in db.memberships :: k.0 in db.networks && k.1 in db.nodes
    ensures forall k | k in db.relays ::
              var a := db.relays[k];
              a.networkId == k.0 && a.nodeId == k.1 && k in db.memberships && (k.0, a.relayNodeId) in db.memberships
    ensures forall e | e in db.endpoints :: e.nodeId in db.nodes
    ensures forall i | i in db.invites && db.invites[i].consumedBy != "" :: db.invites[i].consumedBy in db.nodes
  {
    hide ValidRelay, ValidNode, ValidEndpoint, InPool, Blank;
    assert forall k | k in db.memberships :: MembershipOk(db, k, db.memberships[k]);
    assert forall k | k in db.relays :: RelayOk(db, k, db.relays[k]);
    assert forall i | i in db.invites :: InviteOk(db, i, db.invites[i]);
  }

  /** A member is dropped only for the missing node, and so is a relay: its ends keep their membership otherwise. */
  lemma DropsAreOfNode(db: Db, d: Id, x: Db, y: Action)
    requires WellFormed(db) && Between(db, d, x) && Due(x, y)
    ensures y.DropMember? ==> y.k.1 == d
    ensures y.DropRelay? ==> Involves(x.relays[y.k], d)
    ensures y.DropEndpoint? ==> y.e.nodeId == d
    ensures y.ClearConsumer? ==> x.invites[y.i] == db.invites[y.i] && db.invites[y.i].consumedBy == d
  {
    hide WellFormed;
    Referenced(db);
  }

  lemma ActStaysBetween(db: Db, d: Id, x: Db, y: Action)
    requires WellFormed(db) && Between(db, d, x) && Due(x, y)
    ensures Between(db, d, Act(x, y))
  {
    hide WellFormed, RelayDangles;
    DropsAreOfNode(db, d, x, y);
    match y
    case DropMember(k) =>
      assert MembersBetween(db, d, x.memberships - {k}) by { hide RelaysBetween, EndpointsBetween, InvitesBetween; }
    case DropRelay(k) =>
      assert RelaysBetween(db, d, x.relays - {k}) by { hide MembersBetween, EndpointsBetween, InvitesBetween; }
    case DropEndpoint(e) =>
      assert EndpointsBetween(db, d, x.endpoints - {e}) by { hide MembersBetween, RelaysBetween, InvitesBetween; }
    case ClearConsumer(i) =>
      assert InvitesBetween(db, d, Act(x, y).invites) by { hide MembersBetween, EndpointsBetween, RelaysBetween; }
  }

  lemma {:induction false} RunStaysBetween(db: Db, d: Id, x: Db, actions: seq<Action>)
    requires WellFormed(db) && Between(db, d, x) && ActAll(x, actions).Some?
    ensures Between(db, d, ActAll(x, actions).value)
    decreases |actions|
  {
    hide WellFormed, Between, Due, Act;
    if actions != [] {
      ActStaysBetween(db, d, x, actions[0]);
      RunStaysBetween(db, d, Act(x, actions[0]), actions[1..]);
    }
  }

  /** The tables of RemoveNode before its version increments. */
  ghost function Cascaded(db: Db, d: Id): Db
    requires d in db.nodes
  {
    RemoveNode(db, d).db.(networks := db.networks)
  }

  lemma SettledMembers(db: Db, d: Id, x: Db)
    requires WellFormed(db) && d in db.nodes && Between(db, d, x) && Settled(x)
    ensures x.memberships == Cascaded(db, d).memberships && x.endpoints == Cascaded(db, d).endpoints
  {
    hide WellFormed, BumpAll, RelaysBetween, InvitesBetween, RelayDangles;
    forall k | k in x.memberships ensures k.1 != d { assert !Due(x, DropMember(k)); }
    forall e | e in x.endpoints ensures e.nodeId != d { assert !Due(x, DropEndpoint(e)); }
    assert x.endpoints == Cascaded(db, d).endpoints;
  }

  lemma SettledRelays(db: Db, d: Id, x: Db)
    requires WellFormed(db) && d in db.nodes && Between(db, d, x) && Settled(x)
    ensures x.relays == Cascaded(db, d).relays && x.invites == Cascaded(db, d).invites
  {
    hide WellFormed, BumpAll, MembersBetween, EndpointsBetween;
    forall k | k in x.relays ensures !Involves(x.relays[k], d) { assert !Due(x, DropRelay(k)); }
    forall i | i in db.invites ensures x.invites[i] == ForgetConsumer(db.invites[i], d) {
      assert !Due(x, ClearConsumer(i));
      EmptyIsNobody(db, d);
    }
  }

  lemma EmptyIsNobody(db: Db, d: Id)
    requires WellFormed(db) && d in db.nodes
    ensures d != ""
  {
    hide NetworksOk, MembershipsOk, InvitesOk, EndpointsOk, RelaysOk;
    assert ValidNode(db.nodes[d]) && db.nodes[d].id == d;
    assert Blank("");
  }

  lemma SettledIsCascaded(db: Db, d: Id, x: Db)
    requires WellFormed(db) && d in db.nodes && Between(db, d, x) && Settled(x)
    ensures x == Cascaded(db, d)
  {
    hide WellFormed, BumpAll, MembersBetween, RelaysBetween, EndpointsBetween, InvitesBetween, Settled;
    SettledMembers(db, d, x);
    SettledRelays(db, d, x);
  }

  /** Deleting the node's row and following the foreign keys, in whatever order, until nothing refers to a missing row,
      ends in the tables RemoveNode says. */
  lemma ForeignKeysRemoveNode(db: Db, d: Id, actions: seq<Action>)
    requires WellFormed(db) && d in db.nodes
    requires var run := ActAll(db.(nodes := db.nodes - {d}), actions); run.Some? && Settled(run.value)
    ensures ActAll(db.(nodes := db.nodes - {d}), actions).value == Cascaded(db, d)
  {
    hide WellFormed, ActAll, Settled, Cascaded;
    var start := db.(nodes := db.nodes - {d});
    RunStaysBetween(db, d, start, actions);
    SettledIsCascaded(db, d, ActAll(start, actions).value);
  }

  /** What foreign keys can still act on. */
  ghost function Size(db: Db): nat {
    |db.memberships| + |db.relays| + |db.endpoints| + |Consumed(db)|
  }

  ghost function Consumed(db: Db): set<Id> { set i | i in db.invites && db.invites[i].consumedBy != "" }

  lemma SameConsumers(db: Db, x: Db)
    requires x.invites == db.invites
    ensures Consumed(x) == Consumed(db)
  {
  }

  lemma OneConsumerLess(db: Db, i: Id, x: Db)
    requires i in db.invites && db.invites[i].consumedBy != ""
    requires x.invites == db.invites[i := db.invites[i].(consumedBy := "")]
    ensures |Consumed(x)| < |Consumed(db)|
  {
    assert Consumed(x) == Consumed(db) - {i} && i in Consumed(db);
  }

  lemma ActShrinks(db: Db, x: Action)
    requires Due(db, x)
    ensures Size(Act(db, x)) < Size(db)
  {
    hide RelayDangles, Consumed;
    match x
    case DropMember(k) =>
      assert (db.memberships - {k}).Keys == db.memberships.Keys - {k};
      SameConsumers(db, Act(db, x));
    case DropRelay(k) =>
      assert (db.relays - {k}).Keys == db.relays.Keys - {k};
      SameConsumers(db, Act(db, x));
    case DropEndpoint(e) =>
      SameConsumers(db, Act(db, x));
    case ClearConsumer(i) =>
      OneConsumerLess(db, i, Act(db, x));
  }

  /** Foreign keys always settle. */
  lemma {:induction false} ForeignKeysSettle(db: Db) returns (actions: seq<Action>)
    ensures ActAll(db, actions).Some? && Settled(ActAll(db, actions).value)
    decreases Size(db)
  {
    hide Due, Act, Size;
    actions := [];
    if x :| Due(db, x) {
      ActShrinks(db, x);
      var rest := ForeignKeysSettle(Act(db, x));
      actions := [x] + rest;
      assert actions[1..] == rest;
    }
  }
}
