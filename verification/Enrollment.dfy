/** Enrolment: one transaction that adds a node, consumes an invite and allocates an address by a
    random-start search against repository conflicts (internal/enrollment/service.go:129-233; the same
    callback is in internal/control/http.go:467-535, with a check for revoked networks). */
module Enrollment {
  import opened Text
  import opened NetIp
  import opened AddressPool
  import opened Control
  import opened Relational
  import opened Memory
  import Constraints
  import Storage
  import CacheKey
  import Rows

  /** A request after token parsing and trimming. `revoked` is the session store's list of revoked networks. */
  datatype Request = Request(inviteKey: Id, tokenHash: string, node: Node, revoked: set<Id>)

  datatype Reply = Enrolled(network: Id, address: U32) | Refused(error: Error)

  /** Randomness: whether the k-th draw succeeds, and the number drawn. */
  datatype Random = Random(ok: nat -> bool, draw: nat -> nat)

  // ---------------------------------------------------------------- what enrolment means

  ghost function WithNode(db: Db, node: Node): Db { db.(nodes := db.nodes[node.id := node]) }

  /** The invites once the node has consumed invite i. */
  ghost function Spending(db: Db, r: Request, at: Time, i: Id): map<Id, Invite>
    requires i in db.invites
  {
    db.invites[i := db.invites[i].(consumedAt := Some(at), consumedBy := r.node.id)]
  }

  /** The node can be added and the invite consumed; i is that invite. */
  ghost predicate Admits(db: Db, r: Request, at: Time, i: Id) {
    && AddNode(db, r.node).outcome == Done
    && i in db.invites && Consumable(db, r.inviteKey, r.tokenHash, at, i)
    && db.invites[i].networkId !in r.revoked
  }

  ghost predicate Held(db: Db, n: Id, v: U32) {
    exists k :: k in db.memberships && k.0 == n && db.memberships[k].virtualIPv4 == V4(v)
  }

  ghost predicate FreeIn(db: Db, n: Id, v: U32)
    requires n in db.networks && NewPool(db.networks[n].pool).Some?
  {
    AddressPool.Usable(NewPool(db.networks[n].pool).value, V4(v)) && !Held(db, n, v)
  }

  function NewMember(n: Id, d: Id, v: U32): Membership { Membership(n, d, V4(v), Member, Active) }

  /** Exactly one node, one active membership, one consumed invite and one bump; nothing else moves. */
  ghost predicate EnrolledIn(before: Db, after: Db, r: Request, at: Time, i: Id, v: U32)
    requires i in before.invites
  {
    var n := before.invites[i].networkId;
    && after.nodes == before.nodes[r.node.id := r.node]
    && after.invites == Spending(before, r, at, i)
    && after.memberships == before.memberships[(n, r.node.id) := NewMember(n, r.node.id, v)]
    && after.networks == BumpAll(before.networks, {n})
    && after.endpoints == before.endpoints && after.relays == before.relays
  }

  // ---------------------------------------------------------------- the steps

  /** After the node is added and the invite consumed: same networks and members, and the node has none. */
  lemma AdmittedState(db: Db, r: Request, at: Time, i: Id)
    requires WellFormed(db) && AddNode(db, r.node).outcome == Done
    requires i in db.invites && Consumable(db, r.inviteKey, r.tokenHash, at, i)
    ensures ConsumeInvite(AddNode(db, r.node).db, r.inviteKey, r.tokenHash, at, r.node.id) ==
            Result(Done, WithNode(db, r.node).(invites := Spending(db, r, at, i)))
    ensures forall n :: (n, r.node.id) !in db.memberships
  {
    hide NetworksOk, NodesOk, MembershipsOk, EndpointsOk, RelaysOk, ConsumeInvite, InviteOk, ValidNode;
    var db1 := AddNode(db, r.node).db;
    Constraints.MemberNodes(db);
    Constraints.NodeOpsKeep(db, OpAddNode(r.node));
    Constraints.ConsumeRewritesOne(db1, r.inviteKey, r.tokenHash, at, r.node.id, i);
  }

  /** Adding a member to a network can only succeed or conflict, and conflicts exactly on a held address. */
  lemma OnlyAddressConflicts(db: Db, n: Id, d: Id, v: U32)
    requires n in db.networks && d in db.nodes && !Blank(n) && !Blank(d)
    requires (n, d) !in db.memberships
    requires NewPool(db.networks[n].pool).Some? && AddressPool.Usable(NewPool(db.networks[n].pool).value, V4(v))
    ensures AddMembership(db, NewMember(n, d, v)) ==
            if Held(db, n, v) then Result(Failed(Conflict), db)
            else Result(Done, db.(memberships := db.memberships[(n, d) := NewMember(n, d, v)],
                                  networks := BumpAll(db.networks, {n})))
  {
    hide Blank, NewPool, Contains, BumpAll;
    ContainsIsInterval(db.networks[n].pool, NewPool(db.networks[n].pool).value, v);
  }

  // ---------------------------------------------------------------- the allocation loop

  /** Addresses tried so far: all different, all usable, all held in the network. */
  ghost predicate Tried(db: Db, n: Id, pool: Pool, occupied: seq<Addr>) {
    && (forall i | 0 <= i < |occupied| ::
          occupied[i].V4? && AddressPool.Usable(pool, occupied[i]) && Held(db, n, occupied[i].v4))
    && NoRepeats(occupied)
  }

  lemma StartTrying(db: Db, n: Id, pool: Pool)
    requires n in db.networks && NewPool(db.networks[n].pool) == Some(pool)
    ensures Tried(db, n, pool, []) && Constructed(pool)
  {
    hide NewPool;
    PoolShape(db.networks[n].pool, pool);
  }

  /** What the loop needs to know about a usable address that is free, or about none being free. */
  lemma FreeMeans(db: Db, n: Id, pool: Pool)
    requires n in db.networks && NewPool(db.networks[n].pool) == Some(pool)
    ensures forall v: U32 :: FreeIn(db, n, v) <==> AddressPool.Usable(pool, V4(v)) && !Held(db, n, v)
    ensures forall used: set<U32>, v: U32 :: Free(pool, used, v) ==> AddressPool.Usable(pool, V4(v))
    ensures NoRepeats<Addr>([])
  {
    hide NewPool, Held, AddressPool.Usable;
  }

  lemma TriedDistinct(db: Db, n: Id, pool: Pool, occupied: seq<Addr>)
    requires Tried(db, n, pool, occupied)
    ensures NoRepeats(occupied)
  {
  }

  lemma TryAnother(db: Db, n: Id, pool: Pool, occupied: seq<Addr>, v: U32)
    requires Tried(db, n, pool, occupied) && Free(pool, Occupied(occupied), v) && Held(db, n, v)
    ensures Tried(db, n, pool, occupied + [V4(v)])
  {
    hide Held;
    forall i | 0 <= i < |occupied| ensures occupied[i] != V4(v) {
      assert occupied[i].v4 in Occupied(occupied);
    }
  }

  /** An address not tried before keeps the list of tries without repeats. */
  lemma FreshTry(occupied: seq<Addr>, pool: Pool, v: U32)
    requires NoRepeats(occupied) && Free(pool, Occupied(occupied), v)
    ensures NoRepeats(occupied + [V4(v)])
  {
    forall i | 0 <= i < |occupied| ensures occupied[i] != V4(v) {
      if occupied[i].V4? { assert occupied[i].v4 in Occupied(occupied); }
    }
  }

  lemma {:induction false} TriedCount(occupied: seq<Addr>)
    requires NoRepeats(occupied) && forall i | 0 <= i < |occupied| :: occupied[i].V4?
    ensures |Occupied(occupied)| == |occupied|
  {
    if occupied == [] {
      assert Occupied(occupied) == {};
    } else {
      var front, last := occupied[..|occupied| - 1], occupied[|occupied| - 1];
      assert occupied == front + [last];
      TriedCount(front);
      OccupiedSnoc(front, last);
    }
  }

  /** As many different tries as usable addresses: all of them are held. */
  lemma AllTried(db: Db, n: Id, pool: Pool, occupied: seq<Addr>)
    requires Constructed(pool) && Tried(db, n, pool, occupied) && |occupied| == pool.usableCount
    ensures forall v: U32 | AddressPool.Usable(pool, V4(v)) :: Held(db, n, v)
  {
    hide Held, Constructed;
    TriedCount(occupied);
    UsableRange(pool);
    var used: set<int> := Occupied(occupied);
    var all := UsableSet(pool);
    IntervalSize(pool.first, pool.usableCount);
    assert used <= all;
    SameSizeSubset(used, all);
    forall v: U32 | AddressPool.Usable(pool, V4(v)) ensures Held(db, n, v) {
      assert v in all;
      var i :| 0 <= i < |occupied| && occupied[i].V4? && occupied[i].v4 == v;
    }
  }

  lemma {:induction false} SameSizeSubset<T>(a: set<T>, b: set<T>)
    requires a <= b && |a| == |b|
    ensures a == b
    decreases a
  {
    if a == {} {
      assert b == {};
    } else {
      var x :| x in a;
      SameSizeSubset(a - {x}, b - {x});
      assert a == (a - {x}) + {x} && b == (b - {x}) + {x};
    }
  }

  /** A draw is still possible while fewer addresses were tried than there are. */
  lemma DrawExists(db: Db, n: Id, pool: Pool, occupied: seq<Addr>)
    requires Constructed(pool) && Tried(db, n, pool, occupied) && |occupied| < pool.usableCount
    ensures exists v: U32 :: Free(pool, Occupied(occupied), v)
  {
    hide Held, Constructed;
    TriedCount(occupied);
    SomeoneFree(pool, Occupied(occupied));
  }

  /** Each address tried is the first one not tried before, from a start drawn at random. */
  ghost predicate Drawn(pool: Pool, random: Random, tried: seq<Addr>) {
    pool.usableCount > 0 ==>
      forall j: nat | j < |tried| ::
        && random.ok(j) && tried[j].V4?
        && FirstFreeFrom(pool, Occupied(tried[..j]), random.draw(j) % pool.usableCount, tried[j].v4)
  }

  lemma NoneDrawn(pool: Pool, random: Random)
    ensures Drawn(pool, random, [])
  {
  }

  lemma DrawnMore(pool: Pool, random: Random, tried: seq<Addr>, v: U32)
    requires pool.usableCount > 0 && Drawn(pool, random, tried) && random.ok(|tried|)
    requires FirstFreeFrom(pool, Occupied(tried), random.draw(|tried|) % pool.usableCount, v)
    ensures Drawn(pool, random, tried + [V4(v)])
  {
    hide FirstFreeFrom;
    var more := tried + [V4(v)];
    forall j: nat | j < |more|
      ensures && random.ok(j) && more[j].V4?
              && FirstFreeFrom(pool, Occupied(more[..j]), random.draw(j) % pool.usableCount, more[j].v4)
    {
      assert more[..j] == tried[..j];
      if j == |tried| { assert tried[..j] == tried; }
    }
  }

  /** Tries random usable addresses until the repository accepts one. The draws decide: the tries are the ones drawn,
      all but an accepted last one are held, and a failed draw is the one after them. */
  method Allocate(working: MemoryRepository, pool: Pool, n: Id, d: Id, random: Random)
    returns (reply: Reply, ghost tried: seq<Addr>)
    requires working.Valid() && !Blank(n) && !Blank(d)
    requires n in working.Contents().networks && d in working.Contents().nodes
    requires (n, d) !in working.Contents().memberships
    requires NewPool(working.Contents().networks[n].pool) == Some(pool)
    modifies working.Repr()
    ensures working.Valid() && fresh(working.Repr() - old(working.Repr()))
    ensures NoRepeats(tried) && |tried| <= pool.usableCount
    ensures reply.Enrolled? ==>
              && reply.network == n && FreeIn(old(working.Contents()), n, reply.address)
              && working.Contents() == AddMembership(old(working.Contents()), NewMember(n, d, reply.address)).db
    ensures reply.Refused? ==> working.Contents() == old(working.Contents())
    ensures reply.Refused? ==> reply.error == PoolExhausted || reply.error == RandomFailed
    ensures reply == Refused(PoolExhausted) ==> forall v: U32 :: !FreeIn(old(working.Contents()), n, v)
    ensures reply == Refused(RandomFailed) ==> exists k :: !random.ok(k)
    ensures Drawn(pool, random, tried)
    ensures reply.Refused? ==> Tried(old(working.Contents()), n, pool, tried)
    ensures reply == Refused(RandomFailed) ==> !random.ok(|tried|)
    ensures reply == Refused(PoolExhausted) ==> |tried| == pool.usableCount
    ensures reply.Enrolled? ==>
              && tried != [] && tried[|tried| - 1] == V4(reply.address)
              && Tried(old(working.Contents()), n, pool, tried[..|tried| - 1])
  {
    hide MemoryRepository.Valid, MemoryRepository.Contents, Relational.AddMembership, NewPool, Constructed, Tried,
         Free, FreeIn, Held, AddressPool.Usable, Occupied, NoRepeats, NewMember, BumpAll, Blank, FirstFreeFrom, Drawn;
    ghost var db := working.Contents();
    NoneDrawn(pool, random);
    var occupied: seq<Addr> := [];
    tried := [];
    StartTrying(db, n, pool);
    FreeMeans(db, n, pool);
    var attempts := 0;
    while attempts < pool.usableCount
      invariant attempts == |occupied| <= pool.usableCount
      invariant working.Valid() && working.Contents() == db && fresh(working.Repr() - old(working.Repr()))
      invariant Tried(db, n, pool, occupied) && tried == occupied && Drawn(pool, random, occupied)
    {
      assert forall o | o in working.Repr() :: allocated(o);
      var pick := RandomNext(pool, random.ok(attempts), random.draw(attempts) % pool.usableCount, occupied);
      DrawExists(db, n, pool, occupied);
      TriedDistinct(db, n, pool, occupied);
      if pick.NoRandom? { return Refused(RandomFailed), tried; }
      if pick.Exhausted? { return Refused(PoolExhausted), tried; }
      var v := pick.value;
      FreshTry(occupied, pool, v);
      OnlyAddressConflicts(db, n, d, v);
      var o := working.AddMembership(NewMember(n, d, v));
      DrawnMore(pool, random, occupied, v);
      if o == Done {
        assert (tried + [V4(v)])[..|tried|] == tried;
        return Enrolled(n, v), tried + [V4(v)];
      }
      TryAnother(db, n, pool, occupied, v);
      occupied := occupied + [V4(v)];
      tried := occupied;
      attempts := attempts + 1;
    }
    AllTried(db, n, pool, occupied);
    TriedDistinct(db, n, pool, occupied);
    return Refused(PoolExhausted), tried;
  }

  // ---------------------------------------------------------------- the transaction

  /** Why a request is turned away before any address is tried, or Done. */
  ghost function Admission(db: Db, r: Request, at: Time): Outcome {
    var added := AddNode(db, r.node);
    if added.outcome != Done then added.outcome else
      var consumed := ConsumeInvite(added.db, r.inviteKey, r.tokenHash, at, r.node.id);
      if consumed.outcome != Done then consumed.outcome
      else if exists i :: i in db.invites && Consumable(db, r.inviteKey, r.tokenHash, at, i)
                          && db.invites[i].networkId in r.revoked
      then Failed(NetworkRevoked)
      else Done
  }

  /** A request is admitted exactly when some invite admits it. */
  lemma AdmissionMeansAdmits(db: Db, r: Request, at: Time)
    requires WellFormed(db)
    ensures Admission(db, r, at) == Done <==> exists i :: Admits(db, r, at, i)
    ensures forall i, j | Admits(db, r, at, i) && Admits(db, r, at, j) :: i == j
  {
    hide NetworksOk, NodesOk, MembershipsOk, EndpointsOk, RelaysOk, ConsumeInvite, InviteOk;
    if AddNode(db, r.node).outcome == Done {
      var db1 := AddNode(db, r.node).db;
      assert forall i | i in db.invites ::
          Consumable(db, r.inviteKey, r.tokenHash, at, i) <==> Consumable(db1, r.inviteKey, r.tokenHash, at, i);
      if i :| i in db.invites && Consumable(db, r.inviteKey, r.tokenHash, at, i) {
        AdmittedState(db, r, at, i);
        forall j | j in db.invites && Consumable(db, r.inviteKey, r.tokenHash, at, j) ensures j == i {
          ConsumableUnique(db, r.inviteKey, r.tokenHash, at, i, j);
        }
        assert Admits(db, r, at, i) <==> db.invites[i].networkId !in r.revoked;
      } else {
        NothingConsumed(db1, r.inviteKey, r.tokenHash, at, r.node.id);
      }
    }
  }

  lemma NothingConsumed(db: Db, key: Id, tokenHash: string, at: Time, consumer: Id)
    requires forall i | i in db.invites :: !Consumable(db, key, tokenHash, at, i)
    ensures ConsumeInvite(db, key, tokenHash, at, consumer).outcome != Done
  {
    hide Consumable;
  }

  lemma SameConsumable(db: Db, r: Request, at: Time, i: Id)
    requires i in AddNode(db, r.node).db.invites
    ensures i in db.invites && AddNode(db, r.node).db.invites[i] == db.invites[i]
    ensures Consumable(db, r.inviteKey, r.tokenHash, at, i) <==>
              Consumable(AddNode(db, r.node).db, r.inviteKey, r.tokenHash, at, i)
  {
    hide ValidNode;
  }

  lemma ConsumableUnique(db: Db, key: Id, tokenHash: string, at: Time, i: Id, j: Id)
    requires InvitesOk(db) && i in db.invites && j in db.invites
    requires Consumable(db, key, tokenHash, at, i) && Consumable(db, key, tokenHash, at, j)
    ensures i == j
  {
    hide InviteOk;
  }

  /** Enrolment as a whole. `at` is the request time. */
  ghost predicate Accepted(before: Db, after: Db, r: Request, at: Time, reply: Reply) {
    reply.Enrolled? && exists i ::
      && Admits(before, r, at, i)
      && reply.network == before.invites[i].networkId
      && EnrolledIn(before, after, r, at, i, reply.address)
      && CanHold(before, reply.network, reply.address)
  }

  ghost predicate CanHold(db: Db, n: Id, v: U32) {
    n in db.networks && NewPool(db.networks[n].pool).Some? && FreeIn(db, n, v)
  }

  ghost predicate Full(db: Db, n: Id) { forall v: U32 :: !CanHold(db, n, v) }

  lemma AdmissionAtNode(db: Db, r: Request, at: Time)
    requires AddNode(db, r.node).outcome != Done
    ensures Admission(db, r, at) == AddNode(db, r.node).outcome
  {
    hide AddNode, ConsumeInvite, Consumable;
  }

  lemma AdmissionAtInvite(db: Db, r: Request, at: Time)
    requires AddNode(db, r.node).outcome == Done
    requires ConsumeInvite(AddNode(db, r.node).db, r.inviteKey, r.tokenHash, at, r.node.id).outcome != Done
    ensures Admission(db, r, at) ==
            ConsumeInvite(AddNode(db, r.node).db, r.inviteKey, r.tokenHash, at, r.node.id).outcome
  {
    hide AddNode, ConsumeInvite, Consumable;
  }

  /** The working tables once node and invite are done with. */
  ghost function Prepared(db: Db, r: Request, at: Time): Db {
    ConsumeInvite(AddNode(db, r.node).db, r.inviteKey, r.tokenHash, at, r.node.id).db
  }

  lemma PreparedTables(db: Db, r: Request, at: Time, i: Id)
    requires WellFormed(db) && AddNode(db, r.node).outcome == Done
    requires i in db.invites && Consumable(db, r.inviteKey, r.tokenHash, at, i)
    ensures Prepared(db, r, at) ==
            WithNode(db, r.node).(invites := Spending(db, r, at, i))
    ensures var n := db.invites[i].networkId;
            && n in db.networks && db.networks[n].id == n && !Blank(n) && NewPool(db.networks[n].pool).Some?
            && !Blank(r.node.id) && (n, r.node.id) !in db.memberships
  {
    hide NodesOk, MembershipsOk, EndpointsOk, RelaysOk, ConsumeInvite, Consumable, Blank, NewPool;
    AdmittedState(db, r, at, i);
    assert InviteOk(db, i, db.invites[i]);
  }

  lemma RevokedOrAdmitted(db: Db, r: Request, at: Time, i: Id)
    requires WellFormed(db) && AddNode(db, r.node).outcome == Done
    requires i in db.invites && Consumable(db, r.inviteKey, r.tokenHash, at, i)
    ensures db.invites[i].networkId in r.revoked ==> Admission(db, r, at) == Failed(NetworkRevoked)
    ensures db.invites[i].networkId !in r.revoked ==> Admits(db, r, at, i) && Admission(db, r, at) == Done
  {
    hide NodesOk, MembershipsOk, EndpointsOk, RelaysOk, NetworksOk, ConsumeInvite, Consumable, AddNode, InviteOk;
    AdmittedState(db, r, at, i);
    AdmissionMeansAdmits(db, r, at);
  }

  /** Free in the working tables is free in the published ones, and storing the member completes the enrolment. */
  lemma AllocationCompletes(db: Db, r: Request, at: Time, i: Id, v: U32)
    requires WellFormed(db) && AddNode(db, r.node).outcome == Done
    requires i in db.invites && Consumable(db, r.inviteKey, r.tokenHash, at, i)
    ensures var n := db.invites[i].networkId;
            var prepared := Prepared(db, r, at);
            && n in prepared.networks && NewPool(prepared.networks[n].pool).Some?
            && (FreeIn(prepared, n, v) <==> CanHold(db, n, v))
            && (FreeIn(prepared, n, v) ==>
                  EnrolledIn(db, AddMembership(prepared, NewMember(n, r.node.id, v)).db, r, at, i, v))
  {
    hide WellFormed, AddNode, ConsumeInvite, Consumable, Blank, NewPool, AddMembership, AddressPool.Usable, Prepared,
         BumpAll, NewMember;
    PreparedTables(db, r, at, i);
    var n, prepared := db.invites[i].networkId, Prepared(db, r, at);
    assert Held(prepared, n, v) <==> Held(db, n, v);
    if FreeIn(prepared, n, v) {
      OnlyAddressConflicts(prepared, n, r.node.id, v);
    }
  }

  lemma AcceptedBy(before: Db, after: Db, r: Request, at: Time, i: Id, reply: Reply)
    requires reply.Enrolled? && Admits(before, r, at, i) && reply.network == before.invites[i].networkId
    requires EnrolledIn(before, after, r, at, i, reply.address) && CanHold(before, reply.network, reply.address)
    ensures Accepted(before, after, r, at, reply)
  {
    hide EnrolledIn, CanHold;
  }

  lemma FullMeans(db: Db, n: Id)
    ensures Full(db, n) <==> forall v: U32 :: !CanHold(db, n, v)
  {
    hide CanHold;
  }

  /** The whole effect of a transaction body on its working tables, by the tables it started from. */
  ghost predicate Transacted(before: Db, after: Db, r: Request, at: Time, random: Random, reply: Reply) {
    && (reply.Enrolled? ==> Accepted(before, after, r, at, reply))
    && (Admission(before, r, at) != Done ==> reply == Refused(Admission(before, r, at).error))
    && (Admission(before, r, at) == Done ==> Allocated(before, r, at, random, reply))
  }

  /** Admitted requests fail with exhaustion exactly when the invite's network is full, unless randomness failed. */
  ghost predicate Allocated(before: Db, r: Request, at: Time, random: Random, reply: Reply) {
    exists i ::
      && Admits(before, r, at, i)
      && (reply.Refused? ==> reply.error == PoolExhausted || reply.error == RandomFailed)
      && (reply == Refused(RandomFailed) ==> exists k :: !random.ok(k))
      && (reply != Refused(RandomFailed) ==>
            (reply == Refused(PoolExhausted) <==> Full(before, before.invites[i].networkId)))
  }

  lemma AllocatedBy(before: Db, r: Request, at: Time, random: Random, reply: Reply, i: Id)
    requires Admits(before, r, at, i)
    requires reply.Refused? ==> reply.error == PoolExhausted || reply.error == RandomFailed
    requires reply == Refused(RandomFailed) ==> exists k :: !random.ok(k)
    requires reply != Refused(RandomFailed) ==>
               (reply == Refused(PoolExhausted) <==> Full(before, before.invites[i].networkId))
    ensures Allocated(before, r, at, random, reply)
  {
    hide Admits, Full;
  }

  // ---------------------------------------------------------------- told by rows

  /** The node is valid, and neither its id nor its key is there. */
  ghost predicate NewNode(db: Db, node: Node) {
    ValidNode(node) && node.id !in db.nodes && forall d | d in db.nodes :: db.nodes[d].publicKey != node.publicKey
  }

  /** Some invite that the request names is open. */
  ghost predicate OpenFor(db: Db, r: Request, at: Time, i: Id) {
    Rows.Named(db, r.inviteKey, r.tokenHash, i) && Rows.Open(db.invites[i], at)
  }

  /** When a request gets past node and invite, and each reason for which it does not. */
  lemma AdmissionMeans(db: Db, r: Request, at: Time)
    requires WellFormed(db)
    ensures var a := Admission(db, r, at);
            && (a == Done <==>
                  NewNode(db, r.node) && exists i :: OpenFor(db, r, at, i) && db.invites[i].networkId !in r.revoked)
            && (a == Failed(NetworkRevoked) <==>
                  NewNode(db, r.node) && exists i :: OpenFor(db, r, at, i) && db.invites[i].networkId in r.revoked)
            && (a == Failed(Conflict) <==> ValidNode(r.node) && !NewNode(db, r.node))
            && (a == Failed(NotFound) <==>
                  NewNode(db, r.node) && forall i :: !Rows.Named(db, r.inviteKey, r.tokenHash, i))
            && (forall e | e in {InviteConsumed, InviteRevoked, InviteExpired} ::
                  a == Failed(e) <==> NewNode(db, r.node)
                                      && exists i :: Rows.Named(db, r.inviteKey, r.tokenHash, i)
                                                     && Rows.Closed(db.invites[i], at, e))
  {
    hide NetworksOk, NodesOk, MembershipsOk, EndpointsOk, RelaysOk, ConsumeInvite, InviteOk, ValidNode, Rows.Open,
         Rows.Closed;
    var db1 := AddNode(db, r.node).db;
    assert NewNode(db, r.node) <==> AddNode(db, r.node).outcome == Done;
    if NewNode(db, r.node) {
      NodeLeavesInvites(db, r.node);
      Rows.ConsumeMeans(db1, r.inviteKey, r.tokenHash, at, r.node.id);
      forall i ensures Rows.Named(db1, r.inviteKey, r.tokenHash, i) <==> Rows.Named(db, r.inviteKey, r.tokenHash, i) {}
      forall i | i in db.invites ensures Consumable(db, r.inviteKey, r.tokenHash, at, i) <==> OpenFor(db, r, at, i) {
        OpenIsConsumable(db, r, at, i);
      }
      forall i, j | OpenFor(db, r, at, i) && OpenFor(db, r, at, j) ensures i == j {
        Rows.NamedOnce(db, r.inviteKey, r.tokenHash, i, j);
      }
      ClosedIsNotOpen(db, r, at);
    }
  }

  lemma NodeLeavesInvites(db: Db, node: Node)
    requires InvitesOk(db) && AddNode(db, node).outcome == Done
    ensures InvitesOk(AddNode(db, node).db) && AddNode(db, node).db.invites == db.invites
    ensures node.id in AddNode(db, node).db.nodes
  {
    hide ValidNode;
    var after := AddNode(db, node).db;
    forall i | i in after.invites ensures InviteOk(after, i, after.invites[i]) {
      assert InviteOk(db, i, db.invites[i]);
    }
  }

  lemma OpenIsConsumable(db: Db, r: Request, at: Time, i: Id)
    requires i in db.invites
    ensures Consumable(db, r.inviteKey, r.tokenHash, at, i) <==> OpenFor(db, r, at, i)
  {
  }

  lemma ClosedIsNotOpen(db: Db, r: Request, at: Time)
    ensures forall i, e | i in db.invites && Rows.Closed(db.invites[i], at, e) :: !OpenFor(db, r, at, i)
    ensures forall i, e | i in db.invites && Rows.Closed(db.invites[i], at, e) :: e != Conflict && e != NetworkRevoked
  {
  }

  /** An enrolment, row by row: the node, an active ordinary membership at an address strictly inside the network's
      block that no member had, the invite, which was open at that moment, and the next version. */
  ghost predicate EnrolledByRows(before: Db, after: Db, r: Request, at: Time, i: Id, v: U32) {
    && NewNode(before, r.node) && OpenFor(before, r, at, i) && before.invites[i].networkId !in r.revoked
    && var n, d := before.invites[i].networkId, r.node.id;
    && n in before.networks && Rows.Block(before.networks[n].pool)
    && before.networks[n].pool.ip < v < before.networks[n].pool.ip + Pow2(32 - before.networks[n].pool.ones) - 1
    && (forall k | k in before.memberships && k.0 == n :: before.memberships[k].virtualIPv4 != V4(v))
    && after.nodes == before.nodes[d := r.node]
    && after.memberships == before.memberships[(n, d) := Membership(n, d, V4(v), Member, Active)]
    && after.invites == before.invites[i := before.invites[i].(consumedAt := Some(at), consumedBy := d)]
    && Rows.Advanced(before.networks, after.networks, {n})
    && after.endpoints == before.endpoints && after.relays == before.relays
  }

  lemma EnrolmentMeans(before: Db, after: Db, r: Request, at: Time, reply: Reply)
    requires WellFormed(before) && Accepted(before, after, r, at, reply)
    ensures exists i :: && EnrolledByRows(before, after, r, at, i, reply.address)
                        && reply.network == before.invites[i].networkId
                        && before.invites[i].createdAt <= at < before.invites[i].expiresAt
  {
    hide WellFormed, NewPool, ValidNode, BumpAll, Rows.Advanced, Rows.Block, AddressPool.Usable, Pow2;
    var i :| && Admits(before, r, at, i) && reply.network == before.invites[i].networkId
             && EnrolledIn(before, after, r, at, i, reply.address) && CanHold(before, reply.network, reply.address);
    var n := reply.network;
    OpenIsConsumable(before, r, at, i);
    Rows.BumpIsAdvance(before.networks, {n});
    Rows.PoolMeans(before.networks[n].pool, NoAddr);
    PoolShape(before.networks[n].pool, NewPool(before.networks[n].pool).value);
    ContainsIsInterval(before.networks[n].pool, NewPool(before.networks[n].pool).value, reply.address);
    assert EnrolledByRows(before, after, r, at, i, reply.address);
  }

  /** A network is full when every address strictly inside its block has a member. */
  lemma FullByRows(db: Db, n: Id)
    requires n in db.networks && Rows.Block(db.networks[n].pool)
    ensures Full(db, n) <==>
            var pool := db.networks[n].pool;
            forall v: U32 | pool.ip < v < pool.ip + Pow2(32 - pool.ones) - 1 :: Held(db, n, v)
  {
    hide NewPool, Pow2, AddressPool.Usable, Held;
    var pool := db.networks[n].pool;
    Rows.PoolMeans(pool, NoAddr);
    PoolShape(pool, NewPool(pool).value);
    forall v: U32
      ensures CanHold(db, n, v) <==> pool.ip < v < pool.ip + Pow2(32 - pool.ones) - 1 && !Held(db, n, v)
    {
      ContainsIsInterval(pool, NewPool(pool).value, v);
    }
  }

  /** The callback: add the node, consume the invite, find an address. */
  method Transact(working: MemoryRepository, r: Request, at: Time, random: Random) returns (reply: Reply)
    requires working.Valid()
    modifies working.Repr()
    ensures working.Valid() && fresh(working.Repr() - old(working.Repr()))
    ensures Transacted(old(working.Contents()), working.Contents(), r, at, random, reply)
  {
    hide MemoryRepository.Valid, MemoryRepository.Contents, Relational.AddNode, Relational.ConsumeInvite,
         Relational.AddMembership, NewPool, FreeIn, CanHold, Full, Held, AddressPool.Usable, NoRepeats, NewMember,
         BumpAll, Blank, Admits, EnrolledIn, Consumable, Admission, Accepted, Allocated, WellFormed, ValidNode;
    ghost var db := working.Contents();
    working.SoundContents();
    var o := working.AddNode(r.node);
    if o != Done {
      AdmissionAtNode(db, r, at);
      return Refused(o.error);
    }
    var invite;
    o, invite := working.ConsumeInviteForNode(r.inviteKey, r.tokenHash, at, r.node.id, at);
    if o != Done {
      AdmissionAtInvite(db, r, at);
      return Refused(o.error);
    }
    ghost var i := invite.value.id;
    var n := invite.value.networkId;
    SameConsumable(db, r, at, i);
    PreparedTables(db, r, at, i);
    RevokedOrAdmitted(db, r, at, i);
    working.FieldsOfContents();
    var network := working.networks[n];
    if network.id in r.revoked {
      return Refused(NetworkRevoked);
    }
    forall v: U32 ensures FreeIn(Prepared(db, r, at), n, v) <==> CanHold(db, n, v) {
      AllocationCompletes(db, r, at, i, v);
    }
    FullMeans(db, n);
    var pool := NewPool(network.pool).value;
    ghost var tried;
    reply, tried := Allocate(working, pool, n, r.node.id, random);
    AllocatedBy(db, r, at, random, reply, i);
    if reply.Enrolled? {
      AllocationCompletes(db, r, at, i, reply.address);
      AcceptedBy(db, working.Contents(), r, at, i, reply);
    }
  }

  /** Enrolment is all or nothing: a refusal publishes nothing, an acceptance publishes exactly one enrolment. */
  method Enroll(repo: MemoryRepository, r: Request, at: Time, random: Random) returns (reply: Reply)
    requires repo.Valid()
    modifies repo
    ensures repo.Valid()
    ensures reply.Refused? ==> unchanged(repo) && repo.Contents() == old(repo.Contents())
    ensures Transacted(old(repo.Contents()), repo.Contents(), r, at, random, reply)
  {
    hide MemoryRepository.Valid, MemoryRepository.Contents, Accepted, Admission, Allocated;
    assert forall o | o in repo.Repr() :: allocated(o);
    var working := repo.Clone();
    reply := Transact(working, r, at, random);
    if reply.Enrolled? { repo.Publish(working); }
  }

  // ---------------------------------------------------------------- enrolments in runs

  /** The operations of an accepted enrolment. */
  function EnrolOps(r: Request, at: Time, reply: Reply): seq<Op>
    requires reply.Enrolled?
  {
    [OpAddNode(r.node), OpConsumeInvite(r.inviteKey, r.tokenHash, at, r.node.id),
     OpAddMembership(NewMember(reply.network, r.node.id, reply.address))]
  }

  lemma ThreeOps(db: Db, a: Op, b: Op, c: Op)
    ensures CacheKey.ExecAll(db, [a, b, c]) == Exec(Exec(Exec(db, a).db, b).db, c).db
  {
    hide Exec;
    var ops := [a, b, c];
    assert ops[1..] == [b, c] && ops[1..][1..] == [c] && [c][1..] == [];
    assert CacheKey.ExecAll(db, ops) == CacheKey.ExecAll(Exec(db, a).db, [b, c]);
    assert CacheKey.ExecAll(Exec(db, a).db, [b, c]) == CacheKey.ExecAll(Exec(Exec(db, a).db, b).db, [c]);
  }

  /** An accepted enrolment is a transaction of three operations, so whatever holds of every run holds of runs with
      enrolments. */
  lemma EnrolmentIsTransaction(before: Db, after: Db, r: Request, at: Time, reply: Reply)
    requires WellFormed(before) && Accepted(before, after, r, at, reply)
    ensures after == CacheKey.ExecAll(before, EnrolOps(r, at, reply))
  {
    hide WellFormed, AddNode, ConsumeInvite, AddMembership, Consumable, CanHold, BumpAll;
    var i :| && Admits(before, r, at, i) && reply.network == before.invites[i].networkId
             && EnrolledIn(before, after, r, at, i, reply.address) && CanHold(before, reply.network, reply.address);
    AllocationCompletes(before, r, at, i, reply.address);
    var ops := EnrolOps(r, at, reply);
    ThreeOps(before, ops[0], ops[1], ops[2]);
    assert CacheKey.ExecAll(before, ops) ==
           AddMembership(Prepared(before, r, at), NewMember(reply.network, r.node.id, reply.address)).db;
  }

  /** What a store goes through: transactions of operations, and enrolments. */
  datatype Event = Transaction(txn: CacheKey.Txn) | Enrolment(request: Request, at: Time, random: Random)

  ghost predicate Within(db: Db, ids: set<Id>) { db.networks.Keys <= ids }

  ghost predicate CreatesWithin(ops: seq<Op>, ids: set<Id>) {
    forall i | 0 <= i < |ops| :: ops[i].OpCreateNetwork? ==> ops[i].network.id in ids
  }

  ghost predicate EventWithin(e: Event, ids: set<Id>) { e.Transaction? ==> CreatesWithin(e.txn.ops, ids) }

  lemma OnlyCreationAdds(db: Db, op: Op, n: Id)
    requires n in Exec(db, op).db.networks && n !in db.networks
    ensures op.OpCreateNetwork? && op.network.id == n
  {
    hide Blank, NewPool, ValidNode, ValidInvite, ValidRelay, ValidMembership, EndpointsOutcome, ClassifyMiss,
         Consumable, InPool, AffectedByRemoval, NetworksOf, Involves, ForgetConsumer, ActiveMember;
  }

  /** With separable identifiers, owner keys stay unambiguous all along. */
  lemma {:induction false} SeparableWithin(db: Db, ops: seq<Op>, ids: set<Id>)
    requires Storage.Separable(ids) && Within(db, ids) && CreatesWithin(ops, ids)
    ensures SeparableThroughout(db, ops) && Within(CacheKey.ExecAll(db, ops), ids)
    decreases |ops|
  {
    hide Exec;
    if ops != [] {
      var next := Exec(db, ops[0]).db;
      forall n | n in next.networks
        ensures n in ids
      {
        if n !in db.networks { OnlyCreationAdds(db, ops[0], n); }
      }
      SeparableWithin(next, ops[1..], ids);
    }
  }

  lemma {:induction false} AfterSnoc(db: Db, run: seq<CacheKey.Txn>, txn: CacheKey.Txn)
    ensures CacheKey.After(db, run + [txn]) == CacheKey.Publish(CacheKey.After(db, run), txn)
    decreases |run|
  {
    hide CacheKey.Publish;
    if run == [] {
      assert run + [txn] == [txn] && [txn][1..] == [];
    } else {
      AfterSnoc(CacheKey.Publish(db, run[0]), run[1..], txn);
      assert (run + [txn])[1..] == run[1..] + [txn];
    }
  }

  /** What a reply to a request did to the tables, as a transaction. */
  ghost function ReplyTxn(r: Request, at: Time, reply: Reply): CacheKey.Txn {
    if reply.Enrolled? then CacheKey.Txn(EnrolOps(r, at, reply), true) else CacheKey.Txn([], false)
  }

  /** The transaction an event stands for, given the reply if it is an enrolment. */
  ghost function EventTxn(e: Event, reply: Reply): CacheKey.Txn {
    match e
    case Transaction(txn) => txn
    case Enrolment(r, at, _) => ReplyTxn(r, at, reply)
  }

  /** The reply to an enrolment is the one its tables call for. */
  ghost predicate Replied(e: Event, reply: Reply, before: Db, after: Db) {
    e.Enrolment? ==> Transacted(before, after, e.request, e.at, e.random, reply)
  }

  lemma ReplyIsTransaction(before: Db, after: Db, r: Request, at: Time, random: Random, reply: Reply, ids: set<Id>)
    requires WellFormed(before) && Storage.Separable(ids) && Within(before, ids)
    requires Transacted(before, after, r, at, random, reply) && (reply.Refused? ==> after == before)
    ensures after == CacheKey.Publish(before, ReplyTxn(r, at, reply)) && Within(after, ids)
  {
    hide WellFormed, Accepted, Admission, Allocated, CacheKey.ExecAll, Storage.Separable;
    if reply.Enrolled? {
      EnrolmentIsTransaction(before, after, r, at, reply);
      SeparableWithin(before, EnrolOps(r, at, reply), ids);
    }
  }

  /** The reply is of no interest for a transaction. */
  method Happen(repo: MemoryRepository, e: Event, ghost ids: set<Id>) returns (reply: Reply)
    requires repo.Valid() && Storage.Separable(ids) && Within(repo.Contents(), ids) && EventWithin(e, ids)
    modifies repo
    ensures repo.Valid() && Within(repo.Contents(), ids)
    ensures repo.Contents() == CacheKey.Publish(old(repo.Contents()), EventTxn(e, reply))
    ensures Replied(e, reply, old(repo.Contents()), repo.Contents())
  {
    hide MemoryRepository.Valid, MemoryRepository.Contents, MemoryRepository.Repr, Transacted, Within,
         SeparableThroughout, WellFormed, CacheKey.ExecAll, Storage.Separable;
    ghost var before := repo.Contents();
    repo.SoundContents();
    match e {
      case Transaction(t) =>
        SeparableWithin(before, t.ops, ids);
        repo.WithTransaction(t.ops, t.commit);
        SameWithin(before, ids);
        reply := Refused(NotFound);
      case Enrolment(r, at, random) =>
        reply := Enroll(repo, r, at, random);
        ReplyIsTransaction(before, repo.Contents(), r, at, random, reply, ids);
    }
  }

  lemma SameWithin(db: Db, ids: set<Id>)
    ensures Within(db, ids) ==> Within(CacheKey.Publish(db, CacheKey.Txn([], false)), ids)
  {
  }

  /** Over any sequence of transactions and enrolments the store's contents are those of the run that takes each event
      for its transaction: its own, or the one the reply tells of. So the theorems about runs hold of it. */
  method Run(repo: MemoryRepository, events: seq<Event>, ghost ids: set<Id>)
    returns (replies: seq<Reply>, ghost run: seq<CacheKey.Txn>)
    requires repo.Valid() && Storage.Separable(ids) && Within(repo.Contents(), ids)
    requires forall i | 0 <= i < |events| :: EventWithin(events[i], ids)
    modifies repo
    ensures repo.Valid() && |run| == |replies| == |events|
    ensures repo.Contents() == CacheKey.After(old(repo.Contents()), run)
    ensures forall i | 0 <= i < |events| :: run[i] == EventTxn(events[i], replies[i])
    ensures forall i | 0 <= i < |events| :: RepliedAt(old(repo.Contents()), run, events[i], replies[i], i)
  {
    hide MemoryRepository.Valid, MemoryRepository.Contents, MemoryRepository.Repr, Within, EventWithin,
         CacheKey.Publish, EventTxn, Replied, RepliedAt, Storage.Separable, CacheKey.After;
    run, replies := [], [];
    ghost var start := repo.Contents();
    RunOfNothing(start);
    for n := 0 to |events|
      invariant repo.Valid() && Within(repo.Contents(), ids) && |run| == |replies| == n
      invariant repo.Contents() == CacheKey.After(start, run)
      invariant forall i | 0 <= i < n :: run[i] == EventTxn(events[i], replies[i])
      invariant forall i | 0 <= i < n :: RepliedAt(start, run, events[i], replies[i], i)
    {
      var reply := Happen(repo, events[n], ids);
      ghost var txn := EventTxn(events[n], reply);
      AfterSnoc(start, run, txn);
      forall i | 0 <= i < n
        ensures RepliedAt(start, run + [txn], events[i], replies[i], i)
      {
        LongerRun(start, run, txn, events[i], replies[i], i);
      }
      NewReply(start, run, txn, events[n], reply);
      run, replies := run + [txn], replies + [reply];
    }
  }

  /** The reply to event i of a run, from the tables before it and after it. */
  ghost predicate RepliedAt(start: Db, run: seq<CacheKey.Txn>, e: Event, reply: Reply, i: nat)
    requires i < |run|
  {
    Replied(e, reply, CacheKey.After(start, run[..i]), CacheKey.After(start, run[..i + 1]))
  }

  lemma RunOfNothing(start: Db)
    ensures CacheKey.After(start, []) == start
  {
  }

  lemma LongerRun(start: Db, run: seq<CacheKey.Txn>, txn: CacheKey.Txn, e: Event, reply: Reply, i: nat)
    requires i < |run| && RepliedAt(start, run, e, reply, i)
    ensures RepliedAt(start, run + [txn], e, reply, i)
  {
    hide Replied;
    assert (run + [txn])[..i] == run[..i] && (run + [txn])[..i + 1] == run[..i + 1];
  }

  lemma NewReply(start: Db, run: seq<CacheKey.Txn>, txn: CacheKey.Txn, e: Event, reply: Reply)
    requires Replied(e, reply, CacheKey.After(start, run), CacheKey.After(start, run + [txn]))
    ensures RepliedAt(start, run + [txn], e, reply, |run|)
  {
    hide Replied;
    assert (run + [txn])[..|run|] == run && (run + [txn])[..|run| + 1] == run + [txn];
  }
}
