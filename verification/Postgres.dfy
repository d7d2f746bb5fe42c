/** The PostgreSQL repository statement by statement (internal/db/postgres.go:225-932), with the errors of the schema's
    own checks, and exactly when it answers like the in-memory repository. */
module Postgres {
  import opened Text
  import opened NetIp
  import opened AddressPool
  import opened Control
  import opened Relational
  import opened Checks
  import Constraints
  import CacheKey
  import S = Statements

  /** What an operation returns: a result of its own, or an error of the database that undoes the transaction. */
  datatype Answer = Answered(result: Result) | Rejected

  /** The expected result, or no change at all. */
  ghost predicate Harmless(x: Answer, expected: Result, db: Db) {
    x == Answered(expected) || x == Rejected || x.result.db == db
  }

  function Fails(e: Error, db: Db): Answer { Answered(Result(Failed(e), db)) }

  function Succeeds(db: Db): Answer { Answered(Result(Done, db)) }

  // ---------------------------------------------------------------- version increments

  datatype Raised = Raised(networks: map<Id, Network>) | OutOfRange | NoNetwork

  predicate CanRaise(v: I64) { 0 < v + 1 <= MAX_I64 }

  /** UPDATE networks SET config_version = config_version + 1 WHERE id = $1. */
  function Raise(networks: map<Id, Network>, n: Id): Raised {
    if n !in networks then NoNetwork
    else if !CanRaise(networks[n].configVersion) then OutOfRange
    else Raised(networks[n := networks[n].(configVersion := networks[n].configVersion + 1)])
  }

  /** One such statement for each id. */
  function RaiseEach(networks: map<Id, Network>, ids: seq<Id>): Raised
    decreases |ids|
  {
    if ids == [] then Raised(networks)
    else match Raise(networks, ids[0])
      case Raised(next) => RaiseEach(next, ids[1..])
      case other => other
  }

  /** One statement for all rows of a set. */
  ghost function RaiseWhere(networks: map<Id, Network>, ids: set<Id>): Raised {
    if exists n :: n in networks && n in ids && !CanRaise(networks[n].configVersion) then OutOfRange
    else Raised(map n | n in networks ::
      if n in ids && CanRaise(networks[n].configVersion)
      then networks[n].(configVersion := networks[n].configVersion + 1) else networks[n])
  }

  ghost predicate AllPositive(networks: map<Id, Network>) {
    forall n | n in networks :: networks[n].configVersion > 0
  }

  ghost predicate HasRoom(networks: map<Id, Network>, ids: set<Id>) {
    forall n | n in networks && n in ids :: networks[n].configVersion != MAX_I64
  }

  lemma RaiseIsBump(networks: map<Id, Network>, n: Id)
    requires AllPositive(networks) && n in networks
    ensures Raise(networks, n) == if HasRoom(networks, {n}) then Raised(BumpAll(networks, {n})) else OutOfRange
  {
    assert HasRoom(networks, {n}) <==> networks[n].configVersion != MAX_I64;
  }

  lemma RaiseWhereIsBump(networks: map<Id, Network>, ids: set<Id>)
    requires AllPositive(networks)
    ensures RaiseWhere(networks, ids) == if HasRoom(networks, ids) then Raised(BumpAll(networks, ids)) else OutOfRange
  {
  }

  /** The loop has the effect of one statement, whatever the order; a network that is missing would be not found. */
  lemma {:induction false} RaiseEachIsBump(networks: map<Id, Network>, ids: seq<Id>)
    requires AllPositive(networks) && NoRepeats(ids) && forall i | 0 <= i < |ids| :: ids[i] in networks
    ensures RaiseEach(networks, ids) ==
            if HasRoom(networks, Elements(ids)) then Raised(BumpAll(networks, Elements(ids))) else OutOfRange
    decreases |ids|
  {
    hide Raise, Bump;
    if ids == [] {
      assert BumpAll(networks, {}) == networks;
    } else {
      var first, rest := ids[0], ids[1..];
      RaiseIsBump(networks, first);
      assert Elements(ids) == {first} + Elements(rest);
      if HasRoom(networks, {first}) {
        var next := BumpAll(networks, {first});
        BumpStaysPositive(networks, first);
        RaiseEachIsBump(next, rest);
        forall n | n in rest
          ensures n != first && next[n] == networks[n]
        {
          var i :| 0 <= i < |rest| && rest[i] == n;
          assert ids[i + 1] == n;
        }
        assert BumpAll(next, Elements(rest)) == BumpAll(networks, Elements(ids));
      }
    }
  }

  lemma BumpStaysPositive(networks: map<Id, Network>, n: Id)
    requires AllPositive(networks) && HasRoom(networks, {n})
    ensures AllPositive(BumpAll(networks, {n}))
  {
  }

  /** Ends a transaction with the increments of `raised`. */
  function Incremented(db: Db, raised: Raised): Answer {
    match raised
    case Raised(networks) => Succeeds(db.(networks := networks))
    case OutOfRange => Rejected
    case NoNetwork => Fails(NotFound, db)
  }

  // ---------------------------------------------------------------- networks and nodes

  ghost function CreateNetworkSql(db: Db, n: Network): Answer {
    if !ValidNetwork(n) then Fails(Validation, db)
    else
      var version := if n.configVersion == 0 then 1 else n.configVersion;
      if version <= 0 then Rejected
      else if n.id in db.networks then Fails(Conflict, db)
      else Succeeds(db.(networks := db.networks[n.id := n.(configVersion := version)]))
  }

  ghost function AddNodeSql(db: Db, node: Node): Answer {
    if !ValidNode(node) then Fails(Validation, db)
    else if node.id in db.nodes || exists d :: d in db.nodes && db.nodes[d].publicKey == node.publicKey
    then Fails(Conflict, db)
    else Succeeds(db.(nodes := db.nodes[node.id := node]))
  }

  ghost function TouchNodeSql(db: Db, d: Id, at: Time): Answer {
    if at == 0 then Fails(Validation, db)
    else if d !in db.nodes then Fails(NotFound, db)
    else Succeeds(db.(nodes := db.nodes[d := db.nodes[d].(lastSeen := at)]))
  }

  /** Only the empty text is refused here. */
  ghost function UpdateClientVersionSql(db: Db, d: Id, version: string): Answer {
    if version == "" then Fails(Validation, db)
    else if d !in db.nodes then Fails(NotFound, db)
    else Succeeds(db.(nodes := db.nodes[d := db.nodes[d].(clientVersion := version)]))
  }

  /** The affected networks are read first, in some order; the delete cascades; then each is incremented. */
  ghost function RemoveNodeSql(db: Db, d: Id, affected: seq<Id>): Answer {
    if d !in db.nodes then Fails(NotFound, db)
    else Incremented(S.Cascaded(db, d), RaiseEach(db.networks, affected))
  }

  // ---------------------------------------------------------------- memberships

  ghost function AddMembershipSql(db: Db, m: Membership): Answer {
    var k := (m.networkId, m.nodeId);
    if !ValidMembership(m) then Fails(Validation, db)
    else if m.nodeId !in db.nodes then Fails(NotFound, db)
    else if m.networkId !in db.networks then Fails(NotFound, db)
    else if !InPool(m.virtualIPv4, db.networks[m.networkId].pool) then Fails(Validation, db)
    else if k in db.memberships
            || exists l :: l in db.memberships && l.0 == m.networkId && db.memberships[l].virtualIPv4 == m.virtualIPv4
    then Fails(Conflict, db)
    else Incremented(db.(memberships := db.memberships[k := m]), Raise(db.networks, m.networkId))
  }

  ghost function RemoveMembershipSql(db: Db, n: Id, d: Id): Answer {
    if d !in db.nodes || n !in db.networks || (n, d) !in db.memberships then Fails(NotFound, db)
    else
      var left := map k | k in db.relays && !(k.0 == n && Involves(db.relays[k], d)) :: db.relays[k];
      Incremented(db.(memberships := db.memberships - {(n, d)}, relays := left), Raise(db.networks, n))
  }

  // ---------------------------------------------------------------- invites

  /** The row checks of the invites table. */
  ghost predicate InviteRow(v: Invite) {
    && v.expiresAt > v.createdAt && RevocationOk(v)
    && (v.consumedAt.Some? ==> v.consumedAt.value >= v.createdAt)
    && (v.consumedBy != "" ==> v.consumedAt.Some?)
    && !(v.consumedAt.Some? && v.revokedAt.Some?)
  }

  ghost function CreateInviteSql(db: Db, i: Invite): Answer {
    if !ValidInvite(i) then Fails(Validation, db)
    else if i.consumedBy != "" && i.consumedBy !in db.nodes then Fails(NotFound, db)
    else if i.networkId !in db.networks then Fails(NotFound, db)
    else if !InviteRow(i) then Rejected
    else if i.id in db.invites || exists j :: j in db.invites && db.invites[j].tokenHash == i.tokenHash
    then Fails(Conflict, db)
    else Succeeds(db.(invites := db.invites[i.id := i]))
  }

  /** The conditional update, then the read that explains a miss. */
  ghost function RevokeInviteSql(db: Db, i: Id, at: Time): Answer {
    if i == "" || at == 0 then Fails(Validation, db)
    else if i in db.invites && db.invites[i].consumedAt.None? && db.invites[i].revokedAt.None? then
      var row := db.invites[i].(revokedAt := Some(at));
      if !InviteRow(row) then Rejected else Succeeds(db.(invites := db.invites[i := row]))
    else if i !in db.invites then Fails(NotFound, db)
    else if db.invites[i].consumedAt.Some? then Fails(InviteConsumed, db)
    else if db.invites[i].revokedAt.Some? then Succeeds(db)
    else Fails(Conflict, db)
  }

  /** The row the lookup names: by id, or by network where no row has that id. */
  ghost predicate Found(db: Db, key: Id, tokenHash: string, i: Id)
    requires i in db.invites
  {
    && db.invites[i].tokenHash == tokenHash
    && (db.invites[i].id == key
        || (db.invites[i].networkId == key && !exists j :: j in db.invites && db.invites[j].id == key))
  }

  /** The WHERE clause of the update. */
  ghost predicate Updated(db: Db, key: Id, tokenHash: string, at: Time, i: Id)
    requires i in db.invites
  {
    var v := db.invites[i];
    && Found(db, key, tokenHash, i)
    && v.consumedAt == None && v.revokedAt == None && v.createdAt <= at && at < v.expiresAt
  }

  function Consumed(v: Invite, at: Time, consumer: Id): Invite { v.(consumedAt := Some(at), consumedBy := consumer) }

  /** The node is locked, the conditional update made, and a miss explained by reading the row. */
  ghost function ConsumeInviteSql(db: Db, key: Id, tokenHash: string, at: Time, consumer: Id): Answer {
    if consumer != "" && consumer !in db.nodes then Fails(NotFound, db)
    else if exists i :: i in db.invites && Updated(db, key, tokenHash, at, i) then
      if exists i :: && i in db.invites && Updated(db, key, tokenHash, at, i)
                     && !InviteRow(Consumed(db.invites[i], at, consumer))
      then Rejected
      else Succeeds(db.(invites := map i | i in db.invites ::
        if Updated(db, key, tokenHash, at, i) then Consumed(db.invites[i], at, consumer) else db.invites[i]))
    else if exists i :: i in db.invites && Found(db, key, tokenHash, i) then
      var i :| i in db.invites && Found(db, key, tokenHash, i);
      Fails(Explained(db.invites[i], at), db)
    else Fails(NotFound, db)
  }

  function Explained(v: Invite, at: Time): Error {
    if v.consumedAt.Some? then InviteConsumed
    else if v.revokedAt.Some? then InviteRevoked
    else if at < v.createdAt then Validation
    else if v.expiresAt <= at then InviteExpired
    else Conflict
  }

  // ---------------------------------------------------------------- endpoints

  ghost predicate InvalidAt(d: Id, list: seq<Endpoint>, i: int)
    requires 0 <= i < |list|
  {
    list[i].nodeId != d || !ValidEndpoint(list[i])
  }

  ghost predicate SomeInvalid(d: Id, list: seq<Endpoint>) { exists i :: 0 <= i < |list| && InvalidAt(d, list, i) }

  /** Entry j repeats an earlier one. */
  ghost predicate RepeatAt(list: seq<Endpoint>, j: int)
    requires 0 <= j < |list|
  {
    exists i :: 0 <= i < j && SameEndpoint(list[i], list[j])
  }

  ghost predicate ValidTo(d: Id, list: seq<Endpoint>, n: int)
    requires 0 <= n <= |list|
  {
    forall i | 0 <= i < n :: !InvalidAt(d, list, i)
  }

  ghost predicate SomeRepeat(list: seq<Endpoint>) { exists j :: 0 <= j < |list| && RepeatAt(list, j) }

  /** Some entry repeats an earlier one and no entry up to it is invalid. */
  ghost predicate ValidRepeat(d: Id, list: seq<Endpoint>) {
    exists j :: 0 <= j < |list| && RepeatAt(list, j) && ValidTo(d, list, j + 1)
  }

  /** The whole list is validated, then the node locked, then the rows inserted one by one. */
  ghost function ReplaceEndpointsSql(db: Db, d: Id, list: seq<Endpoint>): Answer {
    if SomeInvalid(d, list) then Fails(Validation, db)
    else if d !in db.nodes then Fails(NotFound, db)
    else if SomeRepeat(list) then Fails(Conflict, db)
    else
      var rows := (set e | e in db.endpoints && e.nodeId != d) + Elements(list);
      Incremented(db.(endpoints := rows), RaiseWhere(db.networks, NetworksOf(db, d)))
  }

  /** Looking at one entry more. */
  lemma LastEntry(d: Id, list: seq<Endpoint>)
    requires list != []
    ensures var front, n := list[..|list| - 1], |list| - 1;
            && (SomeInvalid(d, list) <==> SomeInvalid(d, front) || InvalidAt(d, list, n))
            && (SomeRepeat(list) <==> SomeRepeat(front) || RepeatAt(list, n))
            && (ValidRepeat(d, list) <==> ValidRepeat(d, front) || (RepeatAt(list, n) && !SomeInvalid(d, list)))
            && (RepeatAt(list, n) <==> exists i | 0 <= i < |front| :: SameEndpoint(front[i], list[n]))
  {
    hide ValidEndpoint, SameEndpoint;
    var front, n := list[..|list| - 1], |list| - 1;
    assert forall i | 0 <= i < n :: front[i] == list[i] && (InvalidAt(d, list, i) <==> InvalidAt(d, front, i));
    forall j | 0 <= j < n
      ensures RepeatAt(list, j) <==> RepeatAt(front, j)
      ensures ValidTo(d, list, j + 1) <==> ValidTo(d, front, j + 1)
    {
    }
    assert ValidTo(d, list, n + 1) <==> !SomeInvalid(d, list);
  }

  lemma ValidListRepeats(d: Id, list: seq<Endpoint>)
    requires !SomeInvalid(d, list)
    ensures ValidRepeat(d, list) <==> SomeRepeat(list)
  {
    hide InvalidAt, RepeatAt;
    if j :| 0 <= j < |list| && RepeatAt(list, j) {
      assert ValidTo(d, list, j + 1);
    }
  }

  /** What the entry-by-entry check of the in-memory repository answers, by positions. */
  lemma {:induction false} OutcomeByPosition(d: Id, list: seq<Endpoint>)
    ensures EndpointsOutcome(d, list) ==
            if ValidRepeat(d, list) then Failed(Conflict) else if SomeInvalid(d, list) then Failed(Validation) else Done
    ensures !SomeInvalid(d, list) ==> (ValidRepeat(d, list) <==> SomeRepeat(list))
  {
    hide ValidEndpoint, SameEndpoint, SomeInvalid, SomeRepeat, ValidRepeat, RepeatAt;
    if list == [] {
      EmptyList(d);
    } else {
      var front := list[..|list| - 1];
      OutcomeByPosition(d, front);
      LastEntry(d, list);
    }
    if !SomeInvalid(d, list) { ValidListRepeats(d, list); }
  }

  lemma EmptyList(d: Id)
    ensures !SomeInvalid(d, []) && !ValidRepeat(d, [])
  {
  }

  // ---------------------------------------------------------------- relay assignments

  ghost function SetRelaySql(db: Db, a: Relay): Answer {
    if !ValidRelay(a) then Fails(Validation, db)
    else if a.nodeId !in db.nodes || a.relayNodeId !in db.nodes then Fails(NotFound, db)
    else if a.networkId !in db.networks then Fails(NotFound, db)
    else if ActiveMember(db, (a.networkId, a.nodeId)) != Done
    then Answered(Result(ActiveMember(db, (a.networkId, a.nodeId)), db))
    else if ActiveMember(db, (a.networkId, a.relayNodeId)) != Done
    then Answered(Result(ActiveMember(db, (a.networkId, a.relayNodeId)), db))
    else
      var upserted := S.Upsert(db, a);
      if upserted.end == S.OtherOwner || upserted.end == S.NoRow then Fails(Conflict, db)
      else Incremented(upserted.db, Raise(db.networks, a.networkId))
  }

  ghost function RemoveRelaySql(db: Db, n: Id): Answer {
    if n !in db.networks then Fails(NotFound, db)
    else if !exists k :: k in db.relays && k.0 == n then Fails(NotFound, db)
    else Incremented(db.(relays := map k | k in db.relays && k.0 != n :: db.relays[k]), Raise(db.networks, n))
  }

  // ---------------------------------------------------------------- every operation

  ghost function Sql(db: Db, op: Op): Answer {
    match op
    case OpCreateNetwork(n) => CreateNetworkSql(db, n)
    case OpAddNode(node) => AddNodeSql(db, node)
    case OpTouchNode(d, at) => TouchNodeSql(db, d, at)
    case OpUpdateClientVersion(d, v) => UpdateClientVersionSql(db, d, v)
    case OpRemoveNode(d) => RemoveNodeSql(db, d, InOrder(AffectedByRemoval(db, d)))
    case OpAddMembership(m) => AddMembershipSql(db, m)
    case OpRemoveMembership(n, d) => RemoveMembershipSql(db, n, d)
    case OpCreateInvite(i) => CreateInviteSql(db, i)
    case OpRevokeInvite(i, at) => RevokeInviteSql(db, i, at)
    case OpConsumeInvite(key, hash, at, consumer) => ConsumeInviteSql(db, key, hash, at, consumer)
    case OpReplaceEndpoints(d, list) => ReplaceEndpointsSql(db, d, list)
    case OpSetRelay(a) => SetRelaySql(db, a)
    case OpRemoveRelay(n) => RemoveRelaySql(db, n)
  }

  /** The five ways in which the two repositories part. */
  ghost predicate Parts(db: Db, op: Op) {
    // an affected network is at the largest version: the increment is rejected, memory wraps
    || !CacheKey.RoomFor(db, op)
    // an effective revocation is dated before its invite: rejected, memory stores it
    || Backdated(db, op)
    // a client version of blanks: accepted, memory refuses it
    || (op.OpUpdateClientVersion? && op.version != "" && Blank(op.version))
    // an invalid list for an unknown node: validation comes first, in memory the node
    || (op.OpReplaceEndpoints? && op.d !in db.nodes && SomeInvalid(op.d, op.list))
    // a repeated endpoint before the first invalid one: the whole list is validated first, memory goes in order
    || (op.OpReplaceEndpoints? && op.d in db.nodes && SomeInvalid(op.d, op.list) && ValidRepeat(op.d, op.list))
  }

  lemma RoomMeans(db: Db, op: Op)
    ensures CacheKey.RoomFor(db, op) <==> HasRoom(db.networks, CacheKey.Affected(db, op))
  {
    hide Exec, CacheKey.Affected;
  }

  ghost predicate Plain(op: Op) {
    op.OpCreateNetwork? || op.OpAddNode? || op.OpTouchNode? || op.OpCreateInvite? || op.OpConsumeInvite?
  }

  /** Operations that bump nothing and write only what was validated. */
  lemma PlainAgrees(db: Db, op: Op)
    requires Schema(db) && Plain(op)
    ensures Sql(db, op) == Answered(Exec(db, op)) && !Parts(db, op)
  {
    hide Blank, NewPool, WellFormed, ConsumeInvite, ConsumeInviteSql;
    if op.OpConsumeInvite? { ConsumeAgrees(db, op.key, op.tokenHash, op.at, op.consumer); }
  }

  lemma SameRows(db: Db, key: Id, tokenHash: string, at: Time)
    requires InvitesOk(db)
    ensures forall i | i in db.invites ::
              && (Found(db, key, tokenHash, i) <==> Matches(db, key, tokenHash, i))
              && (Updated(db, key, tokenHash, at, i) <==> Consumable(db, key, tokenHash, at, i))
  {
    forall i | i in db.invites ensures db.invites[i].id == i { assert InviteOk(db, i, db.invites[i]); }
    if key in db.invites { assert db.invites[key].id == key; }
  }

  lemma HitAgrees(db: Db, key: Id, tokenHash: string, at: Time, consumer: Id, i: Id)
    requires WellFormed(db) && (consumer == "" || consumer in db.nodes)
    requires i in db.invites && Updated(db, key, tokenHash, at, i)
    ensures ConsumeInviteSql(db, key, tokenHash, at, consumer) ==
            Answered(ConsumeInvite(db, key, tokenHash, at, consumer))
  {
    hide NetworksOk, NodesOk, MembershipsOk, EndpointsOk, RelaysOk, Found, Updated, Matches, Consumable, InviteOk,
         InviteRow, ClassifyMiss, Explained;
    SameRows(db, key, tokenHash, at);
    ConsumedRows(db, key, tokenHash, at, consumer);
  }

  lemma MissAgrees(db: Db, key: Id, tokenHash: string, at: Time, consumer: Id)
    requires InvitesOk(db) && (consumer == "" || consumer in db.nodes)
    requires forall i | i in db.invites :: !Updated(db, key, tokenHash, at, i)
    ensures ConsumeInviteSql(db, key, tokenHash, at, consumer) ==
            Answered(ConsumeInvite(db, key, tokenHash, at, consumer))
  {
    hide Found, Updated, Matches, Consumable, InviteOk, InviteRow;
    SameRows(db, key, tokenHash, at);
    if i :| i in db.invites && Found(db, key, tokenHash, i) {
      forall j | j in db.invites && Found(db, key, tokenHash, j) ensures j == i {
        MatchesOnce(db, key, tokenHash, i, j);
      }
    }
  }

  /** The two ways of consuming an invite agree. */
  lemma ConsumeAgrees(db: Db, key: Id, tokenHash: string, at: Time, consumer: Id)
    requires WellFormed(db)
    ensures ConsumeInviteSql(db, key, tokenHash, at, consumer) ==
            Answered(ConsumeInvite(db, key, tokenHash, at, consumer))
  {
    hide NetworksOk, NodesOk, MembershipsOk, EndpointsOk, RelaysOk, InvitesOk, Updated;
    if consumer == "" || consumer in db.nodes {
      if i :| i in db.invites && Updated(db, key, tokenHash, at, i) {
        HitAgrees(db, key, tokenHash, at, consumer, i);
      } else {
        MissAgrees(db, key, tokenHash, at, consumer);
      }
    }
  }

  lemma MatchesOnce(db: Db, key: Id, tokenHash: string, i: Id, j: Id)
    requires InvitesOk(db) && i in db.invites && j in db.invites
    requires Matches(db, key, tokenHash, i) && Matches(db, key, tokenHash, j)
    ensures i == j
  {
    hide InviteOk;
  }

  /** The consuming update never violates a row check. */
  lemma ConsumedRows(db: Db, key: Id, tokenHash: string, at: Time, consumer: Id)
    requires WellFormed(db)
    ensures forall i | i in db.invites && Consumable(db, key, tokenHash, at, i) ::
              InviteRow(Consumed(db.invites[i], at, consumer))
  {
    hide NetworksOk, NodesOk, MembershipsOk, EndpointsOk, RelaysOk;
    forall i | i in db.invites && Consumable(db, key, tokenHash, at, i)
      ensures InviteRow(Consumed(db.invites[i], at, consumer))
    {
      assert InviteOk(db, i, db.invites[i]);
    }
  }

  lemma ClientVersionAgrees(db: Db, d: Id, version: string)
    ensures var op := OpUpdateClientVersion(d, version);
            Sql(db, op) == Answered(Exec(db, op)) <==> !Parts(db, op)
  {
    if version == "" { assert Blank(version); }
  }

  lemma RevokeAgrees(db: Db, i: Id, at: Time)
    requires Schema(db)
    ensures var op := OpRevokeInvite(i, at);
            Sql(db, op) == Answered(Exec(db, op)) <==> !Parts(db, op)
    ensures var op := OpRevokeInvite(i, at); Sql(db, op) == Answered(Exec(db, op)) || Sql(db, op) == Rejected
  {
    hide NetworksOk, NodesOk, MembershipsOk, EndpointsOk, RelaysOk, PositiveVersions;
    if i in db.invites { assert InviteOk(db, i, db.invites[i]) && RevocationOk(db.invites[i]); }
  }

  lemma Existing(db: Db)
    requires WellFormed(db)
    ensures forall k | k in db.memberships :: k.0 in db.networks && k.1 in db.nodes
    ensures forall k | k in db.relays :: k.0 in db.networks
  {
    hide WellFormed;
    S.Referenced(db);
  }

  lemma AddMembershipAgrees(db: Db, m: Membership)
    requires Schema(db)
    ensures AddMembershipSql(db, m) == Answered(AddMembership(db, m)) <==>
            AddMembership(db, m).outcome != Done || HasRoom(db.networks, {m.networkId})
    ensures AddMembershipSql(db, m) == Answered(AddMembership(db, m)) || AddMembershipSql(db, m) == Rejected
  {
    hide WellFormed, InPool, ValidMembership, BumpAll, Raise, HasRoom, RevokedInOrder;
    if m.networkId in db.networks { RaiseIsBump(db.networks, m.networkId); }
  }

  lemma RemoveMembershipAgrees(db: Db, n: Id, d: Id)
    requires Schema(db)
    ensures RemoveMembershipSql(db, n, d) == Answered(RemoveMembership(db, n, d)) <==>
            RemoveMembership(db, n, d).outcome != Done || HasRoom(db.networks, {n})
    ensures RemoveMembershipSql(db, n, d) in {Answered(RemoveMembership(db, n, d)), Rejected}
  {
    hide WellFormed, BumpAll, Raise, HasRoom, Involves, RevokedInOrder;
    Existing(db);
    if n in db.networks { RaiseIsBump(db.networks, n); }
  }

  lemma SetRelayAgrees(db: Db, a: Relay)
    requires Schema(db)
    ensures SetRelaySql(db, a) == Answered(SetRelay(db, a)) <==>
            SetRelay(db, a).outcome != Done || HasRoom(db.networks, {a.networkId})
    ensures SetRelaySql(db, a) == Answered(SetRelay(db, a)) || SetRelaySql(db, a) == Rejected
  {
    hide ValidRelay, BumpAll, Raise, HasRoom, S.Upsert, NetworksOk, NodesOk, MembershipsOk, InvitesOk, EndpointsOk,
         RelaysOk, RevokedInOrder;
    S.UpsertPutsRow(db, a);
    if a.networkId in db.networks { RaiseIsBump(db.networks, a.networkId); }
  }

  lemma RemoveRelayAgrees(db: Db, n: Id)
    requires Schema(db)
    ensures RemoveRelaySql(db, n) == Answered(RemoveRelay(db, n)) <==>
            RemoveRelay(db, n).outcome != Done || HasRoom(db.networks, {n})
    ensures RemoveRelaySql(db, n) == Answered(RemoveRelay(db, n)) || RemoveRelaySql(db, n) == Rejected
  {
    hide WellFormed, BumpAll, Raise, HasRoom, RevokedInOrder;
    Existing(db);
    if n in db.networks { RaiseIsBump(db.networks, n); }
  }

  /** Whatever the order in which the affected networks were read. */
  lemma RemoveNodeAgrees(db: Db, d: Id, affected: seq<Id>)
    requires Schema(db) && NoRepeats(affected) && Elements(affected) == AffectedByRemoval(db, d)
    ensures RemoveNodeSql(db, d, affected) == Answered(RemoveNode(db, d)) <==>
            RemoveNode(db, d).outcome != Done || HasRoom(db.networks, AffectedByRemoval(db, d))
    ensures RemoveNodeSql(db, d, affected) == Answered(RemoveNode(db, d)) || RemoveNodeSql(db, d, affected) == Rejected
  {
    hide WellFormed, BumpAll, HasRoom, Involves, RevokedInOrder, ForgetConsumer, Raise, RaiseEach;
    AffectedExist(db, d);
    forall i | 0 <= i < |affected|
      ensures affected[i] in db.networks
    {
      assert affected[i] in Elements(affected);
    }
    RaiseEachIsBump(db.networks, affected);
  }

  lemma AffectedExist(db: Db, d: Id)
    requires WellFormed(db)
    ensures AffectedByRemoval(db, d) <= db.networks.Keys
  {
    hide WellFormed, Involves;
    Existing(db);
  }

  lemma ReplaceEndpointsAgrees(db: Db, d: Id, list: seq<Endpoint>)
    requires Schema(db)
    ensures ReplaceEndpointsSql(db, d, list) == Answered(ReplaceEndpoints(db, d, list)) <==>
            && (ReplaceEndpoints(db, d, list).outcome == Done ==> HasRoom(db.networks, NetworksOf(db, d)))
            && (d !in db.nodes ==> !SomeInvalid(d, list))
            && (d in db.nodes ==> !(SomeInvalid(d, list) && ValidRepeat(d, list)))
    ensures Harmless(ReplaceEndpointsSql(db, d, list), ReplaceEndpoints(db, d, list), db)
  {
    hide WellFormed, BumpAll, HasRoom, RevokedInOrder, RaiseWhere, EndpointsOutcome, SomeInvalid, SomeRepeat,
         ValidRepeat, NetworksOf, Elements;
    OutcomeByPosition(d, list);
    RaiseWhereIsBump(db.networks, NetworksOf(db, d));
  }

  lemma AscendingHasNone(ids: seq<Id>)
    requires Ascending(ids)
    ensures NoRepeats(ids)
  {
    hide Less;
    forall i, j | 0 <= i < j < |ids|
      ensures ids[i] != ids[j]
    {
      AscendingHasNoRepeats(ids, i, j);
    }
  }

  /** The operations that bump. */
  lemma BumpingAgrees(db: Db, op: Op)
    requires Schema(db) && CacheKey.Bumping(op) && !op.OpReplaceEndpoints?
    ensures Sql(db, op) == Answered(Exec(db, op)) <==> CacheKey.RoomFor(db, op)
    ensures Sql(db, op) == Answered(Exec(db, op)) || Sql(db, op) == Rejected
  {
    hide Schema, HasRoom, AddMembershipSql, RemoveMembershipSql, SetRelaySql, RemoveRelaySql, RemoveNodeSql,
         AddMembership, RemoveMembership, SetRelay, RemoveRelay, RemoveNode, AffectedByRemoval, InOrder, NoRepeats,
         Ascending, CacheKey.RoomFor;
    RoomMeans(db, op);
    NoRoomNeeded(db);
    match op
    case OpRemoveNode(d) =>
      AscendingHasNone(InOrder(AffectedByRemoval(db, d)));
      RemoveNodeAgrees(db, d, InOrder(AffectedByRemoval(db, d)));
    case OpAddMembership(m) => AddMembershipAgrees(db, m);
    case OpRemoveMembership(n, d) => RemoveMembershipAgrees(db, n, d);
    case OpSetRelay(a) => SetRelayAgrees(db, a);
    case OpRemoveRelay(n) => RemoveRelayAgrees(db, n);
  }

  lemma NoRoomNeeded(db: Db)
    ensures HasRoom(db.networks, {})
  {
  }

  /** PostgreSQL gives the result and the next tables of the in-memory repository if and only if none of the five
      ways in which they part applies. */
  lemma PostgresAgreesExactly(db: Db, op: Op)
    requires Schema(db)
    ensures Sql(db, op) == Answered(Exec(db, op)) <==> !Parts(db, op)
    ensures Harmless(Sql(db, op), Exec(db, op), db) || op.OpUpdateClientVersion?
  {
    hide Schema, Sql, Exec, CacheKey.RoomFor, Backdated, SomeInvalid, ValidRepeat, Blank;
    if Plain(op) {
      PlainAgrees(db, op);
    } else if op.OpUpdateClientVersion? {
      ClientVersionAgrees(db, op.d, op.version);
    } else if op.OpRevokeInvite? {
      RevokeAgrees(db, op.i, op.at);
    } else if op.OpReplaceEndpoints? {
      EndpointsAgree(db, op.d, op.list);
    } else {
      BumpingAgrees(db, op);
      NotBackdated(db, op);
    }
  }

  lemma NotBackdated(db: Db, op: Op)
    requires !op.OpRevokeInvite?
    ensures !Backdated(db, op)
  {
  }

  lemma EndpointsAgree(db: Db, d: Id, list: seq<Endpoint>)
    requires Schema(db)
    ensures var op := OpReplaceEndpoints(d, list);
            Sql(db, op) == Answered(Exec(db, op)) <==> !Parts(db, op)
    ensures Harmless(Sql(db, OpReplaceEndpoints(d, list)), Exec(db, OpReplaceEndpoints(d, list)), db)
  {
    hide Schema, HasRoom, ReplaceEndpointsSql, ReplaceEndpoints, NetworksOf, SomeInvalid, ValidRepeat, CacheKey.RoomFor;
    RoomMeans(db, OpReplaceEndpoints(d, list));
    NoRoomNeeded(db);
    ReplaceEndpointsAgrees(db, d, list);
  }

  /** The client version of a known node is set to blanks. */
  ghost predicate StoresBlanks(db: Db, op: Op) {
    op.OpUpdateClientVersion? && op.d in db.nodes && op.version != "" && Blank(op.version)
  }

  /** What PostgreSQL answers keeps the schema, and the records valid, exactly unless it stores a client version of
      blanks. */
  lemma PostgresKeepsSchemaExactly(db: Db, op: Op)
    requires Schema(db) && Sql(db, op).Answered?
    ensures Schema(Sql(db, op).result.db) <==> !StoresBlanks(db, op)
  {
    hide Schema, Exec, Sql, CacheKey.RoomFor, Backdated, SomeInvalid, ValidRepeat, Blank;
    PostgresAgreesExactly(db, op);
    SchemaKeptExactly(db, op);
    if op.OpUpdateClientVersion? {
      QuietOp(db, op);
      BlanksBreak(db, op);
    }
  }

  lemma BlanksBreak(db: Db, op: Op)
    requires Schema(db) && op.OpUpdateClientVersion?
    ensures StoresBlanks(db, op) ==> Sql(db, op).Answered? && !Schema(Sql(db, op).result.db)
    ensures op.d !in db.nodes ==> Sql(db, op).Answered? && Sql(db, op).result.db == db
  {
    hide Blank, MembershipOk;
    if StoresBlanks(db, op) {
      assert op.d in Sql(db, op).result.db.nodes && !ValidNode(Sql(db, op).result.db.nodes[op.d]);
    }
  }

  lemma QuietOp(db: Db, op: Op)
    requires op.OpUpdateClientVersion?
    ensures CacheKey.RoomFor(db, op) && !Backdated(db, op)
  {
  }

  // ---------------------------------------------------------------- runs

  /** A rejected statement is rolled back. */
  function Next(db: Db, x: Answer): Db { if x.Rejected? then db else x.result.db }

  /** What a sequence of operations is answered by each repository. */
  ghost function SqlAnswers(db: Db, ops: seq<Op>): seq<Answer>
    decreases |ops|
  {
    if ops == [] then [] else [Sql(db, ops[0])] + SqlAnswers(Next(db, Sql(db, ops[0])), ops[1..])
  }

  ghost function MemoryAnswers(db: Db, ops: seq<Op>): seq<Answer>
    decreases |ops|
  {
    if ops == [] then [] else [Answered(Exec(db, ops[0]))] + MemoryAnswers(Exec(db, ops[0]).db, ops[1..])
  }

  ghost predicate NeverParts(db: Db, ops: seq<Op>)
    decreases |ops|
  {
    ops == [] || (!Parts(db, ops[0]) && NeverParts(Exec(db, ops[0]).db, ops[1..]))
  }

  /** Over any sequence of operations the two repositories give the same results and the same tables at every step if
      and only if none of the five ways occurs. */
  lemma {:induction false} RunsAgreeExactly(db: Db, ops: seq<Op>)
    requires Schema(db)
    ensures SqlAnswers(db, ops) == MemoryAnswers(db, ops) <==> NeverParts(db, ops)
    decreases |ops|
  {
    hide Schema, Sql, Exec, Parts;
    if ops != [] {
      PostgresAgreesExactly(db, ops[0]);
      if Parts(db, ops[0]) {
        assert SqlAnswers(db, ops)[0] != MemoryAnswers(db, ops)[0];
      } else {
        PartsCoversSchema(db, ops[0]);
        var next := Exec(db, ops[0]).db;
        RunsAgreeExactly(next, ops[1..]);
        assert SqlAnswers(db, ops)[1..] == SqlAnswers(next, ops[1..]);
        assert MemoryAnswers(db, ops)[1..] == MemoryAnswers(next, ops[1..]);
      }
    }
  }

  lemma PartsCoversSchema(db: Db, op: Op)
    requires Schema(db) && !Parts(db, op)
    ensures Schema(Exec(db, op).db)
  {
    hide Schema, Exec, CacheKey.RoomFor, Backdated, SomeInvalid, ValidRepeat, Blank;
    SchemaKeptExactly(db, op);
  }

  // ---------------------------------------------------------------- transactions

  /** The entries inserted before the first one that repeats another. */
  ghost function Inserted(list: seq<Endpoint>): seq<Endpoint>
    decreases |list|
  {
    if list == [] then []
    else
      var front := list[..|list| - 1];
      if Inserted(front) == front && !RepeatAt(list, |list| - 1) then list else Inserted(front)
  }

  /** What a replacement that stops at a repeated entry has done so far. */
  ghost function Remnant(db: Db, d: Id, list: seq<Endpoint>): Db {
    db.(endpoints := (set e | e in db.endpoints && e.nodeId != d) + Elements(Inserted(list)))
  }

  /** An operation inside a transaction. There is no savepoint: a replacement that stops at a repeated entry reports the
      conflict and leaves what it has done so far. */
  ghost function Within(db: Db, op: Op): Answer {
    if op.OpReplaceEndpoints? && Sql(db, op) == Fails(Conflict, db)
    then Answered(Result(Failed(Conflict), Remnant(db, op.d, op.list)))
    else Sql(db, op)
  }

  /** The sixth way, inside a transaction only: a replacement that stops at a repeated entry, having changed rows. */
  ghost predicate Leaves(db: Db, op: Op) {
    && op.OpReplaceEndpoints? && op.d in db.nodes && !SomeInvalid(op.d, op.list) && SomeRepeat(op.list)
    && Remnant(db, op.d, op.list) != db
  }

  lemma WithinAgreesExactly(db: Db, op: Op)
    requires Schema(db)
    ensures Within(db, op) == Answered(Exec(db, op)) <==> !Parts(db, op) && !Leaves(db, op)
  {
    hide Schema, CacheKey.RoomFor, Backdated, SomeInvalid, SomeRepeat, ValidRepeat, Blank, Remnant, EndpointsOutcome;
    PostgresAgreesExactly(db, op);
    if op.OpReplaceEndpoints? { OutcomeByPosition(op.d, op.list); }
  }

  /** What the operations of a transaction are answered. After a rejected statement all others are rejected too. */
  ghost function WorkAnswers(db: Option<Db>, ops: seq<Op>): seq<Answer>
    decreases |ops|
  {
    if ops == [] then []
    else
      var x := if db.None? then Rejected else Within(db.value, ops[0]);
      [x] + WorkAnswers(if x.Rejected? then None else Some(x.result.db), ops[1..])
  }

  /** The tables the transaction ends with, unless a statement was rejected. */
  ghost function Worked(db: Option<Db>, ops: seq<Op>): Option<Db>
    decreases |ops|
  {
    if ops == [] || db.None? then db
    else
      var x := Within(db.value, ops[0]);
      Worked(if x.Rejected? then None else Some(x.result.db), ops[1..])
  }

  /** A rejected statement undoes the whole transaction. */
  ghost function SqlPublish(db: Db, txn: CacheKey.Txn): Db {
    if txn.commit && Worked(Some(db), txn.ops).Some? then Worked(Some(db), txn.ops).value else db
  }

  ghost predicate Quiet(db: Db, ops: seq<Op>)
    decreases |ops|
  {
    ops == [] || (!Parts(db, ops[0]) && !Leaves(db, ops[0]) && Quiet(Exec(db, ops[0]).db, ops[1..]))
  }

  lemma {:induction false} TransactionAgreesExactly(db: Db, ops: seq<Op>)
    requires Schema(db)
    ensures WorkAnswers(Some(db), ops) == MemoryAnswers(db, ops) <==> Quiet(db, ops)
    ensures Quiet(db, ops) ==>
              Worked(Some(db), ops) == Some(CacheKey.ExecAll(db, ops)) && Schema(CacheKey.ExecAll(db, ops))
    decreases |ops|
  {
    hide Schema, Within, Exec, Parts, Leaves;
    if ops != [] {
      WithinAgreesExactly(db, ops[0]);
      if Parts(db, ops[0]) || Leaves(db, ops[0]) {
        assert WorkAnswers(Some(db), ops)[0] != MemoryAnswers(db, ops)[0];
      } else {
        PartsCoversSchema(db, ops[0]);
        var next := Exec(db, ops[0]).db;
        TransactionAgreesExactly(next, ops[1..]);
        assert WorkAnswers(Some(db), ops)[1..] == WorkAnswers(Some(next), ops[1..]);
        assert MemoryAnswers(db, ops)[1..] == MemoryAnswers(next, ops[1..]);
      }
    }
  }

  /** A transaction of a run: what its operations were answered, and the tables after it. */
  datatype Step = Step(answers: seq<Answer>, tables: Db)

  ghost function SqlSteps(db: Db, run: seq<CacheKey.Txn>): seq<Step>
    decreases |run|
  {
    if run == [] then []
    else [Step(WorkAnswers(Some(db), run[0].ops), SqlPublish(db, run[0]))] + SqlSteps(SqlPublish(db, run[0]), run[1..])
  }

  ghost function MemorySteps(db: Db, run: seq<CacheKey.Txn>): seq<Step>
    decreases |run|
  {
    if run == [] then []
    else [Step(MemoryAnswers(db, run[0].ops), CacheKey.Publish(db, run[0]))]
         + MemorySteps(CacheKey.Publish(db, run[0]), run[1..])
  }

  ghost predicate QuietRun(db: Db, run: seq<CacheKey.Txn>)
    decreases |run|
  {
    run == [] || (Quiet(db, run[0].ops) && QuietRun(CacheKey.Publish(db, run[0]), run[1..]))
  }

  /** Over any run of transactions, committed or not, the two repositories give every operation the same answer and
      working tables, and publish the same tables, if and only if none of the six ways occurs. */
  lemma {:induction false} TransactionsAgreeExactly(db: Db, run: seq<CacheKey.Txn>)
    requires Schema(db)
    ensures SqlSteps(db, run) == MemorySteps(db, run) <==> QuietRun(db, run)
    decreases |run|
  {
    hide Schema, Quiet, WorkAnswers, MemoryAnswers, Worked, CacheKey.ExecAll;
    if run != [] {
      TransactionAgreesExactly(db, run[0].ops);
      if !Quiet(db, run[0].ops) {
        assert SqlSteps(db, run)[0] != MemorySteps(db, run)[0];
      } else {
        var next := CacheKey.Publish(db, run[0]);
        TransactionsAgreeExactly(next, run[1..]);
        assert SqlSteps(db, run)[1..] == SqlSteps(next, run[1..]);
        assert MemorySteps(db, run)[1..] == MemorySteps(next, run[1..]);
      }
    }
  }

  // ---------------------------------------------------------------- an input for each way

  /** At the largest version. */
  lemma PartsAtLargestVersion()
    ensures Schema(CacheKey.Added) && Parts(CacheKey.Added, OpAddMembership(CacheKey.FirstMember))
    ensures Sql(CacheKey.Added, OpAddMembership(CacheKey.FirstMember)) == Rejected
    ensures var after := Exec(CacheKey.Added, OpAddMembership(CacheKey.FirstMember));
            after.outcome == Done && "n" in after.db.networks && after.db.networks["n"].configVersion < 0
  {
    hide WellFormed, CacheKey.RoomFor, CacheKey.After, Exec, Sql, Backdated;
    CacheKey.SetupReaches();
    CacheKey.ReachableIsWellFormed([CacheKey.Setup]);
    CacheKey.VersionGoesBackWithoutRoom();
    CacheKey.JoinSucceeds();
    BumpingAgrees(CacheKey.Added, OpAddMembership(CacheKey.FirstMember));
  }

  const Late := Invite("k", "n", "h", 9, None, None, "", 5)

  const Invited := EmptyDb.(networks := map["n" := Network("n", "n", Cidr4(0, 0), "o", 1, 1)],
                            invites := map["k" := Late])

  lemma InvitedIsSound()
    ensures Schema(Invited) && Backdated(Invited, OpRevokeInvite("k", 4))
  {
    hide Blank, NewPool;
    CacheKey.OneLetter();
    CacheKey.AnyAddressIsInPool(1);
  }

  /** A revocation dated before its invite. */
  lemma PartsOnBackdatedRevocation()
    ensures Schema(Invited) && Parts(Invited, OpRevokeInvite("k", 4))
    ensures Sql(Invited, OpRevokeInvite("k", 4)) == Rejected && Exec(Invited, OpRevokeInvite("k", 4)).outcome == Done
  {
    hide Schema, Sql, CacheKey.RoomFor;
    InvitedIsSound();
    RevokeAgrees(Invited, "k", 4);
  }

  /** A client version of one blank. */
  lemma PartsOnBlankVersion()
    ensures Schema(CacheKey.Added) && Parts(CacheKey.Added, OpUpdateClientVersion("d", " "))
    ensures var op := OpUpdateClientVersion("d", " ");
            && Sql(CacheKey.Added, op).Answered? && Sql(CacheKey.Added, op).result.outcome == Done
            && Exec(CacheKey.Added, op).outcome == Failed(Validation)
  {
    hide WellFormed, CacheKey.RoomFor, CacheKey.After;
    CacheKey.SetupReaches();
    CacheKey.ReachableIsWellFormed([CacheKey.Setup]);
    assert " "[0] == ' ';
  }

  const Good := Endpoint("d", V4(1), 1, IPv4, "k", 0, 1)
  const NoPort := Good.(port := 0)

  /** An invalid list for an unknown node. */
  lemma PartsOnUnknownNode()
    ensures Schema(EmptyDb) && Parts(EmptyDb, OpReplaceEndpoints("d", [NoPort]))
    ensures Sql(EmptyDb, OpReplaceEndpoints("d", [NoPort])) == Fails(Validation, EmptyDb)
    ensures Exec(EmptyDb, OpReplaceEndpoints("d", [NoPort])).outcome == Failed(NotFound)
  {
    hide CacheKey.RoomFor, Blank;
    CacheKey.EmptyIsWellFormed();
    assert InvalidAt("d", [NoPort], 0);
  }

  /** A repeated endpoint before an invalid one. */
  lemma PartsOnEarlyRepeat()
    ensures Schema(CacheKey.Added) && Parts(CacheKey.Added, OpReplaceEndpoints("d", [Good, Good, NoPort]))
    ensures ReplaceEndpointsSql(CacheKey.Added, "d", [Good, Good, NoPort]) == Fails(Validation, CacheKey.Added)
    ensures ReplaceEndpoints(CacheKey.Added, "d", [Good, Good, NoPort]).outcome == Failed(Conflict)
  {
    hide WellFormed, CacheKey.RoomFor, CacheKey.After, Exec, Backdated, Blank;
    CacheKey.SetupReaches();
    CacheKey.ReachableIsWellFormed([CacheKey.Setup]);
    CacheKey.OneLetter();
    var list := [Good, Good, NoPort];
    assert InvalidAt("d", list, 2);
    assert SameEndpoint(list[0], list[1]);
    assert RepeatAt(list, 1) && ValidTo("d", list, 2);
    OutcomeByPosition("d", list);
  }

  /** In a transaction, a replacement by a list with a repeated entry: both report the conflict, and if it is committed
      all the same, only memory leaves the rows as they were. */
  lemma LeavesInTransaction()
    ensures var db, op := CacheKey.Added, OpReplaceEndpoints("d", [Good, Good]);
            && Schema(db) && !Parts(db, op) && Leaves(db, op) && Exec(db, op) == Result(Failed(Conflict), db)
            && Good !in db.endpoints && Good in SqlPublish(db, CacheKey.Txn([op], true)).endpoints
  {
    hide WellFormed, CacheKey.RoomFor, CacheKey.After, Backdated, Blank, SomeInvalid, SomeRepeat, Inserted, ValidRepeat,
         EndpointsOutcome;
    CacheKey.SetupReaches();
    CacheKey.ReachableIsWellFormed([CacheKey.Setup]);
    GoodTwice();
    OutcomeByPosition("d", [Good, Good]);
    var db, op := CacheKey.Added, OpReplaceEndpoints("d", [Good, Good]);
    PostgresAgreesExactly(db, op);
    assert Good in Elements([Good]) && Good in Remnant(db, "d", op.list).endpoints;
    assert Within(db, op) == Answered(Result(Failed(Conflict), Remnant(db, "d", op.list)));
    assert [op][1..] == [];
    assert Worked(Some(db), [op]) == Worked(Some(Remnant(db, "d", op.list)), []);
  }

  lemma GoodTwice()
    ensures var list := [Good, Good];
            !SomeInvalid("d", list) && SomeRepeat(list) && Inserted(list) == [Good]
  {
    hide Blank;
    CacheKey.OneLetter();
    var list := [Good, Good];
    assert SameEndpoint(list[0], list[1]);
    assert RepeatAt(list, 1);
    assert list[..1] == [Good] && [Good][..0] == [];
    assert Inserted([]) == [] && Inserted([Good]) == [Good];
  }
}
