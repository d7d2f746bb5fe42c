/** When the owner index of the in-memory repository answers like the tables (internal/db/repository.go:207-209,
    755-758): exactly when no network identifier followed by NUL starts another one. */
module Owners {
  import opened Text
  import opened NetIp
  import opened AddressPool
  import opened Control
  import opened Relational
  import opened Storage
  import Constraints
  import CacheKey

  /** An assignment that reaches the check: valid, between active members of its network. */
  ghost predicate Presentable(db: Db, a: Relay) {
    && ValidRelay(a) && a.networkId in db.networks && a.nodeId in db.nodes && a.relayNodeId in db.nodes
    && ActiveMember(db, (a.networkId, a.nodeId)) == Done && ActiveMember(db, (a.networkId, a.relayNodeId)) == Done
  }

  /** On every store with these networks the index admits what the tables admit. */
  ghost predicate IndexAgrees(ids: set<Id>) {
    forall db: Db, index: map<Id, string>, a: Relay
      | WellFormed(db) && db.networks.Keys <= ids && OwnerIndex(index, db.relays) && Presentable(db, a) ::
      IndexAdmits(index, a) <==> SetRelay(db, a).outcome == Done
  }

  lemma SeparableAgrees(ids: set<Id>, db: Db, index: map<Id, string>, a: Relay)
    requires Separable(ids) && WellFormed(db) && db.networks.Keys <= ids && OwnerIndex(index, db.relays)
    requires Presentable(db, a)
    ensures IndexAdmits(index, a) <==> SetRelay(db, a).outcome == Done
  {
    hide WellFormed, OwnerIndex, Separable, IndexAdmits, ValidRelay, BumpAll;
    RelayNetworks(db);
    OwnerLookup(ids, index, db.relays, a);
  }

  lemma RelayNetworks(db: Db)
    requires WellFormed(db)
    ensures forall k | k in db.relays :: k.0 in db.networks
  {
    hide ValidRelay, ValidNode, NetworksOk, InvitesOk, EndpointsOk, NodesOk, InPool;
    forall k | k in db.relays
      ensures k.0 in db.networks
    {
      assert RelayOk(db, k, db.relays[k]);
      assert MembershipOk(db, k, db.memberships[k]);
    }
  }

  // ---------------------------------------------------------------- two networks that share a key

  function Net(n: Id): Network { Network(n, "n", Cidr4(0, 0), "o", 1, 1) }

  function Host(d: Id): Node { Node(d, "n", d, "p", "v", 0) }

  function Member(n: Id, d: Id, v: U32): Membership { Membership(n, d, V4(v), Role.Member, Active) }

  function Via(n: Id, d: Id): Relay { Relay("p", n, d, "k", V4(1), 1, IPv4, RelayActive, 1, None) }

  /** Node `d` of network `n` relays through "k"; so may node "d" of `n'`. */
  function Twins(n: Id, n': Id, d: Id): Db {
    Db(map[n := Net(n), n' := Net(n')],
       map[d := Host(d), "d" := Host("d"), "k" := Host("k")],
       map[(n, d) := Member(n, d, 1), (n, "k") := Member(n, "k", 2),
           (n', "d") := Member(n', "d", 1), (n', "k") := Member(n', "k", 2)],
       map[], {},
       map[(n, d) := Via(n, d)])
  }

  ghost predicate Apart(n: Id, n': Id, d: Id) {
    n != n' && d != "d" && d != "k" && !Blank(n) && !Blank(n') && !Blank(d)
  }

  lemma TwinNetworks(n: Id, n': Id, d: Id)
    requires Apart(n, n', d)
    ensures NetworksOk(Twins(n, n', d))
  {
    hide Blank, NewPool;
    CacheKey.OneLetter();
    CacheKey.AnyAddressIsInPool(1);
  }

  lemma TwinNodes(n: Id, n': Id, d: Id)
    requires Apart(n, n', d)
    ensures NodesOk(Twins(n, n', d))
  {
    hide Blank, NewPool;
    CacheKey.OneLetter();
  }

  lemma TwinRows(n: Id, n': Id, d: Id)
    requires Apart(n, n', d)
    ensures var db := Twins(n, n', d);
            forall k | k in db.memberships ::
              && k.0 in {n, n'} && k.1 in {if k.0 == n then d else "d", "k"}
              && db.memberships[k] == Member(k.0, k.1, if k.1 == "k" then 2 else 1)
  {
    hide Blank;
  }

  lemma TwinMembers(n: Id, n': Id, d: Id)
    requires Apart(n, n', d)
    ensures MembershipsOk(Twins(n, n', d))
  {
    hide Blank, InPool, Twins;
    CacheKey.AnyAddressIsInPool(1);
    CacheKey.AnyAddressIsInPool(2);
    TwinRows(n, n', d);
    var db := Twins(n, n', d);
    assert db.networks == map[n := Net(n), n' := Net(n')] && db.nodes.Keys == {d, "d", "k"} by { TwinTables(n, n', d); }
    forall k | k in db.memberships
      ensures MembershipOk(db, k, db.memberships[k])
    {
      assert db.networks[k.0].pool == Cidr4(0, 0);
    }
  }

  lemma TwinTables(n: Id, n': Id, d: Id)
    ensures Twins(n, n', d).networks == map[n := Net(n), n' := Net(n')]
    ensures Twins(n, n', d).nodes.Keys == {d, "d", "k"}
  {
  }

  lemma TwinRelays(n: Id, n': Id, d: Id)
    requires Apart(n, n', d)
    ensures RelaysOk(Twins(n, n', d)) && ValidRelay(Via(n', "d"))
  {
    hide Blank;
    CacheKey.OneLetter();
  }

  lemma TwinsWellFormed(n: Id, n': Id, d: Id)
    requires Apart(n, n', d)
    ensures WellFormed(Twins(n, n', d)) && Presentable(Twins(n, n', d), Via(n', "d"))
  {
    hide Blank, NetworksOk, NodesOk, MembershipsOk, RelaysOk, ValidRelay;
    TwinNetworks(n, n', d);
    TwinNodes(n, n', d);
    TwinMembers(n, n', d);
    TwinRelays(n, n', d);
  }

  /** Where the index goes wrong: it takes the row of one network for a row of the other, admits an assignment id
      that is in use, and the tables refuse it. */
  lemma SharedKeyAdmitsTakenId(n: Id, n': Id) returns (db: Db, index: map<Id, string>, a: Relay)
    requires n + [NUL] <= n' && !Blank(n) && !Blank(n')
    ensures db.networks.Keys == {n, n'} && WellFormed(db) && OwnerIndex(index, db.relays) && Presentable(db, a)
    ensures IndexAdmits(index, a) && SetRelay(db, a).outcome == Failed(Conflict)
  {
    hide Blank, WellFormed, ValidRelay, Shadow;
    var d := Shadow(n, n');
    KeyBehind(n, n');
    TwinsWellFormed(n, n', d);
    db, a := Twins(n, n', d), Via(n', "d");
    index := map["p" := OwnerKey(n, d)];
    assert (n, d) in db.relays && (n, d) != (n', "d") && db.relays[(n, d)].id == a.id;
  }

  /** The index agrees with the tables on every store if and only if no identifier followed by NUL starts another. */
  lemma IndexAgreesExactlyWhenSeparable(ids: set<Id>)
    requires forall n | n in ids :: !Blank(n)
    ensures IndexAgrees(ids) <==> Separable(ids)
  {
    hide Blank, WellFormed, OwnerIndex, IndexAdmits, Presentable, SetRelay;
    if Separable(ids) {
      forall db: Db, index: map<Id, string>, a: Relay
        | WellFormed(db) && db.networks.Keys <= ids && OwnerIndex(index, db.relays) && Presentable(db, a)
        ensures IndexAdmits(index, a) <==> SetRelay(db, a).outcome == Done
      {
        SeparableAgrees(ids, db, index, a);
      }
    } else {
      var n, n' :| n in ids && n' in ids && n + [NUL] <= n';
      var db, index, a := SharedKeyAdmitsTakenId(n, n');
    }
  }
}
