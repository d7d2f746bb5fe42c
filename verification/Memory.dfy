/** The in-memory repository (internal/db/repository.go). The maps of each network's members and relay
    assignments are objects of their own, updated in place; every operation is proved against the
    relational statement of the same name. */
module Memory {
  import opened Text
  import opened NetIp
  import opened AddressPool
  import opened Control
  import opened Relational
  import opened Storage
  import Constraints
  import CacheKey

  /** An inner map: shared by whoever holds a reference to it. */
  class Table<V> {
    var rows: map<Id, V>

    constructor (rows: map<Id, V>)
      ensures this.rows == rows
    {
      this.rows := rows;
    }
  }

  ghost function TablesOf<V>(m: map<Id, Table<V>>): set<object> {
    set n | n in m :: m[n]
  }

  ghost function Groups<V>(m: map<Id, Table<V>>): Nested<V>
    reads TablesOf(m)
  {
    map n | n in m :: m[n].rows
  }

  ghost predicate Unshared<V>(m: map<Id, Table<V>>) {
    forall n, n' | n in m && n' in m && m[n] == m[n'] :: n == n'
  }

  ghost predicate Taken(members: map<Pair, Membership>, m: Membership) {
    || (m.networkId, m.nodeId) in members
    || exists k :: k in members && k.0 == m.networkId && members[k].virtualIPv4 == m.virtualIPv4
  }

  class MemoryRepository {
    var networks: map<Id, Network>
    var nodes: map<Id, Node>
    var publicKeys: map<string, Id>
    var memberships: map<Id, Table<Membership>>
    var invites: map<Id, Invite>
    var inviteByToken: map<string, Id>
    var endpoints: map<Id, seq<Endpoint>>
    var relayAssignments: map<Id, Table<Relay>>
    var relayAssignmentOwners: map<Id, string>
    const endpointMaxAge: int

    ghost function Repr(): set<object>
      reads this`memberships, this`relayAssignments
    {
      {this} + TablesOf(memberships) + TablesOf(relayAssignments)
    }

    ghost function Members(): map<Pair, Membership>
      reads this`memberships, TablesOf(memberships)
    {
      Flat(Groups(memberships))
    }

    ghost function Relays(): map<Pair, Relay>
      reads this`relayAssignments, TablesOf(relayAssignments)
    {
      Flat(Groups(relayAssignments))
    }

    /** The tables this repository stands for. */
    ghost function Contents(): Db
      reads this, Repr()
    {
      Db(networks, nodes, Members(), invites, EndpointTable(endpoints), Relays())
    }

    ghost predicate Layout()
      reads this`memberships, this`relayAssignments, this`endpoints
    {
      && Unshared(memberships) && Unshared(relayAssignments)
      && TablesOf(memberships) !! TablesOf(relayAssignments)
      && this !in TablesOf(memberships) && this !in TablesOf(relayAssignments)
      && OwnRows(endpoints)
    }

    /** All but the condition on network identifiers that makes owner keys unambiguous. */
    ghost predicate Sound()
      reads this, Repr()
    {
      && Layout()
      && WellFormed(Contents())
      && KeyIndex(publicKeys, nodes)
      && TokenIndex(inviteByToken, invites)
      && OwnerIndex(relayAssignmentOwners, Relays())
    }

    ghost predicate Valid()
      reads this, Repr()
    {
      Sound() && Separable(networks.Keys)
    }

    constructor (maxAge: int)
      ensures Valid() && fresh(Repr()) && Contents() == EmptyDb && endpointMaxAge == maxAge
    {
      networks, nodes, publicKeys, memberships := map[], map[], map[], map[];
      invites, inviteByToken, endpoints := map[], map[], map[];
      relayAssignments, relayAssignmentOwners := map[], map[];
      endpointMaxAge := maxAge;
      new;
      EmptyStore();
      CacheKey.EmptyIsWellFormed();
      hide WellFormed, KeyIndex, TokenIndex, OwnerIndex, Separable, Flat, EndpointTable, OwnRows;
      assert Groups(memberships) == map[] && Groups(relayAssignments) == map[] && networks.Keys == {};
    }

    /** A repository with the value fields of another one and inner maps of its own. */
    constructor From(source: MemoryRepository, members: map<Id, Table<Membership>>, relays: map<Id, Table<Relay>>)
      ensures networks == source.networks && nodes == source.nodes && publicKeys == source.publicKeys
      ensures invites == source.invites && inviteByToken == source.inviteByToken && endpoints == source.endpoints
      ensures memberships == members && relayAssignments == relays
      ensures relayAssignmentOwners == source.relayAssignmentOwners
      ensures endpointMaxAge == source.endpointMaxAge
    {
      networks, nodes, publicKeys := source.networks, source.nodes, source.publicKeys;
      invites, inviteByToken, endpoints := source.invites, source.inviteByToken, source.endpoints;
      memberships, relayAssignments, relayAssignmentOwners := members, relays, source.relayAssignmentOwners;
      endpointMaxAge := source.endpointMaxAge;
    }

    /** Same values in every field and the same rows in every inner map: the same tables. */
    lemma SameTables(other: MemoryRepository)
      requires Valid()
      requires other.networks == networks && other.nodes == nodes && other.publicKeys == publicKeys
      requires other.invites == invites && other.inviteByToken == inviteByToken && other.endpoints == endpoints
      requires other.relayAssignmentOwners == relayAssignmentOwners
      requires Groups(other.memberships) == Groups(memberships)
      requires Groups(other.relayAssignments) == Groups(relayAssignments)
      requires Unshared(other.memberships) && Unshared(other.relayAssignments)
      requires TablesOf(other.memberships) !! TablesOf(other.relayAssignments)
      ensures other.Valid() && other.Contents() == Contents()
    {
      hide WellFormed, KeyIndex, TokenIndex, OwnerIndex, Separable, Flat, EndpointTable, OwnRows, Unshared, Groups;
      assert other.Members() == Members() && other.Relays() == Relays();
    }

    // -------------------------------------------------------------- networks and nodes

    method CreateNetwork(network: Network) returns (o: Outcome)
      requires Valid()
      modifies this`networks
      ensures Result(o, Contents()) == Relational.CreateNetwork(old(Contents()), network)
      ensures Sound() && (Separable(Contents().networks.Keys) ==> Valid())
    {
      hide Blank, NewPool, WellFormed, KeyIndex, TokenIndex, OwnerIndex, Separable, Flat, MemoryRepository.Members,
           MemoryRepository.Relays, EndpointTable;
      Constraints.CreateNetworkKeeps(Contents(), network);
      if !ValidNetwork(network) { return Failed(Validation); }
      if network.id in networks { return Failed(Conflict); }
      var version := network.configVersion;
      if version <= 0 { version := 1; }
      networks := networks[network.id := network.(configVersion := version)];
      o := Done;
    }

    method AddNode(node: Node) returns (o: Outcome)
      requires Valid()
      modifies this`nodes, this`publicKeys
      ensures Valid() && Result(o, Contents()) == Relational.AddNode(old(Contents()), node)
    {
      hide ValidNode, WellFormed, KeyIndex, TokenIndex, OwnerIndex, Separable, Flat, MemoryRepository.Members,
           MemoryRepository.Relays, EndpointTable;
      Constraints.NodeOpsKeep(Contents(), OpAddNode(node));
      KeyLookup(publicKeys, nodes, node.publicKey);
      if !ValidNode(node) { return Failed(Validation); }
      if node.id in nodes { return Failed(Conflict); }
      if node.publicKey in publicKeys { return Failed(Conflict); }
      KeyPut(publicKeys, nodes, node);
      nodes := nodes[node.id := node];
      publicKeys := publicKeys[node.publicKey := node.id];
      o := Done;
    }

    method TouchNode(d: Id, lastSeen: Time) returns (o: Outcome)
      requires Valid()
      modifies this`nodes
      ensures Valid() && Result(o, Contents()) == Relational.TouchNode(old(Contents()), d, lastSeen)
    {
      hide ValidNode, WellFormed, KeyIndex, TokenIndex, OwnerIndex, Separable, Flat, MemoryRepository.Members,
           MemoryRepository.Relays, EndpointTable;
      Constraints.NodeOpsKeep(Contents(), OpTouchNode(d, lastSeen));
      if lastSeen == 0 { return Failed(Validation); }
      if d !in nodes { return Failed(NotFound); }
      KeyRewrite(publicKeys, nodes, d, nodes[d].(lastSeen := lastSeen));
      nodes := nodes[d := nodes[d].(lastSeen := lastSeen)];
      o := Done;
    }

    method UpdateNodeClientVersion(d: Id, version: string) returns (o: Outcome)
      requires Valid()
      modifies this`nodes
      ensures Valid() && Result(o, Contents()) == Relational.UpdateClientVersion(old(Contents()), d, version)
    {
      hide ValidNode, WellFormed, KeyIndex, TokenIndex, OwnerIndex, Separable, Flat, Blank, MemoryRepository.Members,
           MemoryRepository.Relays, EndpointTable;
      Constraints.NodeOpsKeep(Contents(), OpUpdateClientVersion(d, version));
      if Blank(version) { return Failed(Validation); }
      if d !in nodes { return Failed(NotFound); }
      KeyRewrite(publicKeys, nodes, d, nodes[d].(clientVersion := version));
      nodes := nodes[d := nodes[d].(clientVersion := version)];
      o := Done;
    }

    // -------------------------------------------------------------- invites

    method CreateInvite(invite: Invite) returns (o: Outcome)
      requires Valid()
      modifies this`invites, this`inviteByToken
      ensures Valid() && Result(o, Contents()) == Relational.CreateInvite(old(Contents()), invite)
    {
      hide ValidInvite, WellFormed, KeyIndex, TokenIndex, OwnerIndex, Separable, Flat, MemoryRepository.Members,
           MemoryRepository.Relays, EndpointTable;
      Constraints.InviteOpsKeep(Contents(), OpCreateInvite(invite));
      TokenLookup(inviteByToken, invites, invite.tokenHash);
      if !ValidInvite(invite) { return Failed(Validation); }
      if invite.networkId !in networks { return Failed(NotFound); }
      if invite.consumedBy != "" && invite.consumedBy !in nodes { return Failed(NotFound); }
      if invite.id in invites { return Failed(Conflict); }
      if invite.tokenHash in inviteByToken { return Failed(Conflict); }
      TokenPut(inviteByToken, invites, invite);
      invites := invites[invite.id := invite];
      inviteByToken := inviteByToken[invite.tokenHash := invite.id];
      o := Done;
    }

    method RevokeInvite(i: Id, revokedAt: Time) returns (o: Outcome)
      requires Valid()
      modifies this`invites
      ensures Valid() && Result(o, Contents()) == Relational.RevokeInvite(old(Contents()), i, revokedAt)
    {
      hide WellFormed, KeyIndex, TokenIndex, OwnerIndex, Separable, Flat, MemoryRepository.Members,
           MemoryRepository.Relays, EndpointTable;
      Constraints.InviteOpsKeep(Contents(), OpRevokeInvite(i, revokedAt));
      if i == "" || revokedAt == 0 { return Failed(Validation); }
      if i !in invites { return Failed(NotFound); }
      var invite := invites[i];
      if invite.consumedAt.Some? { return Failed(InviteConsumed); }
      if invite.revokedAt.Some? { return Done; }
      TokenRewrite(inviteByToken, invites, i, invite.(revokedAt := Some(revokedAt)));
      invites := invites[i := invite.(revokedAt := Some(revokedAt))];
      o := Done;
    }

    /** `clock` is what time.Now returns when no time is given. */
    method ConsumeInviteForNode(key: Id, tokenHash: string, consumedAt: Time, consumer: Id, clock: Time)
      returns (o: Outcome, invite: Option<Invite>)
      requires Valid()
      modifies this`invites
      ensures Valid()
      ensures var at := if consumedAt == 0 then clock else consumedAt;
              Result(o, Contents()) == Relational.ConsumeInvite(old(Contents()), key, tokenHash, at, consumer)
      ensures o == Done <==> invite.Some?
      ensures o == Done ==>
                var at := if consumedAt == 0 then clock else consumedAt;
                var i := invite.value.id;
                && i in old(Contents()).invites && Consumable(old(Contents()), key, tokenHash, at, i)
                && invite.value == old(Contents()).invites[i].(consumedAt := Some(at), consumedBy := consumer)
                && invite.value.networkId in networks
    {
      hide WellFormed, KeyIndex, TokenIndex, OwnerIndex, Separable, Flat, Matches, Consumable, Lookup, ConsumeError,
           Relational.ConsumeInvite, MemoryRepository.Members, MemoryRepository.Relays, EndpointTable;
      invite := None;
      var at := if consumedAt == 0 then clock else consumedAt;
      ghost var db := Contents();
      Constraints.ConsumeInviteKeeps(db, key, tokenHash, at, consumer);
      LookupIsMatch(db, inviteByToken, key, tokenHash);
      TokenTargets(inviteByToken, invites);
      var found := Lookup(invites, inviteByToken, key, tokenHash);
      if found.None? {
        ConsumeMisses(db, key, tokenHash, at, consumer);
        return Failed(NotFound), None;
      }
      var i := found.value;
      if consumer != "" && consumer !in nodes {
        ConsumeUnknownNode(db, key, tokenHash, at, consumer);
        return Failed(NotFound), None;
      }
      SoundInvites();
      ConsumeAgrees(db, key, tokenHash, at, consumer, i);
      var stored := invites[i];
      o := ConsumeError(stored, at);
      ConsumableMeans(db, key, tokenHash, at, i);
      if o == Done {
        var consumed := stored.(consumedAt := Some(at), consumedBy := consumer);
        TokenRewrite(inviteByToken, invites, i, consumed);
        invites := invites[i := consumed];
        invite := Some(consumed);
      }
    }

    // -------------------------------------------------------------- versions

    method IncrementNetworkVersion(n: Id)
      requires n in networks
      modifies this`networks
      ensures networks == BumpAll(old(networks), {n}) && networks.Keys == old(networks.Keys)
    {
      hide Bump;
      networks := networks[n := networks[n].(configVersion := Bump(networks[n].configVersion))];
    }

    method IncrementAll(affected: set<Id>)
      requires affected <= networks.Keys
      modifies this`networks
      ensures networks == BumpAll(old(networks), affected) && networks.Keys == old(networks.Keys)
    {
      hide BumpAll, Bump;
      var rest := affected;
      BumpNone(networks);
      assert affected - rest == {};
      while rest != {}
        invariant rest <= affected && networks == BumpAll(old(networks), affected - rest)
        invariant networks.Keys == old(networks.Keys)
        decreases rest
      {
        var n :| n in rest;
        BumpOneMore(old(networks), affected - rest, n);
        assert affected - (rest - {n}) == (affected - rest) + {n};
        networks := networks[n := networks[n].(configVersion := Bump(networks[n].configVersion))];
        rest := rest - {n};
      }
      assert affected - rest == affected;
    }

    // -------------------------------------------------------------- member tables

    ghost predicate HasMember(n: Id, d: Id)
      reads this, TablesOf(memberships)
    {
      n in memberships && d in memberships[n].rows
    }

    /** Members() read through the nested maps. */
    lemma MemberLookup()
      ensures forall k :: k in Members() <==> HasMember(k.0, k.1)
      ensures forall k | k in Members() :: Members()[k] == memberships[k.0].rows[k.1]
    {
      hide Flat;
      FlatLookup(Groups(memberships));
    }

    method EnsureMemberGroup(n: Id)
      requires Layout()
      modifies this`memberships
      ensures Layout() && n in memberships && Members() == old(Members()) && Relays() == old(Relays())
      ensures fresh(TablesOf(memberships) - old(TablesOf(memberships)))
    {
      hide Flat, OwnRows;
      if n !in memberships {
        FlatEmptyGroup(Groups(memberships), n);
        var table := new Table<Membership>(map[]);
        memberships := memberships[n := table];
        assert Groups(memberships) == old(Groups(memberships))[n := map[]];
      }
    }

    method PutMember(n: Id, m: Membership)
      requires Layout() && n in memberships
      modifies memberships[n]
      ensures Members() == old(Members())[(n, m.nodeId) := m] && Relays() == old(Relays())
    {
      hide Flat, OwnRows;
      FlatPut(Groups(memberships), n, m.nodeId, m);
      assert memberships[n] in TablesOf(memberships);
      var table := memberships[n];
      table.rows := table.rows[m.nodeId := m];
      assert Groups(memberships) == old(Groups(memberships))[n := old(Groups(memberships))[n][m.nodeId := m]];
    }

    method DeleteMember(n: Id, d: Id)
      requires Layout() && n in memberships
      modifies memberships[n]
      ensures Members() == old(Members()) - {(n, d)} && Relays() == old(Relays())
    {
      hide Flat, OwnRows;
      FlatDelete(Groups(memberships), n, d);
      assert memberships[n] in TablesOf(memberships);
      var table := memberships[n];
      table.rows := table.rows - {d};
      assert Groups(memberships) == old(Groups(memberships))[n := old(Groups(memberships))[n] - {d}];
    }

    method AddressTaken(n: Id, a: Addr) returns (taken: bool)
      requires n in memberships
      ensures taken <==> exists k :: k in Members() && k.0 == n && Members()[k].virtualIPv4 == a
    {
      hide Flat;
      MemberLookup();
      taken := false;
      var rows := memberships[n].rows;
      var rest := rows;
      while rest != map[]
        invariant rest.Keys <= rows.Keys
        invariant forall d | d in rest :: rest[d] == rows[d]
        invariant forall d | d in rows && d !in rest :: rows[d].virtualIPv4 != a
        decreases rest
      {
        var d :| d in rest;
        if rest[d].virtualIPv4 == a {
          assert (n, d) in Members();
          return true;
        }
        rest := rest - {d};
      }
    }

    method AddMembership(m: Membership) returns (o: Outcome)
      requires Valid()
      modifies Repr()
      ensures Valid() && fresh(Repr() - old(Repr()))
      ensures Result(o, Contents()) == Relational.AddMembership(old(Contents()), m)
    {
      hide ValidMembership, InPool, WellFormed, KeyIndex, TokenIndex, OwnerIndex, Separable, Flat, EndpointTable,
           OwnRows, BumpAll;
      Constraints.AddMembershipKeeps(Contents(), m);
      if !ValidMembership(m) { return Failed(Validation); }
      if m.networkId !in networks { return Failed(NotFound); }
      if m.nodeId !in nodes { return Failed(NotFound); }
      if !InPool(m.virtualIPv4, networks[m.networkId].pool) { return Failed(Validation); }
      var ok := StoreMember(m);
      o := if ok then Done else Failed(Conflict);
    }

    /** The part of AddMembership that touches the member map; false means the node or its address is taken. */
    method StoreMember(m: Membership) returns (ok: bool)
      requires Layout() && m.networkId in networks
      modifies this`memberships, this`networks, TablesOf(memberships)
      ensures Layout() && fresh(TablesOf(memberships) - old(TablesOf(memberships)))
      ensures Relays() == old(Relays()) && networks.Keys == old(networks.Keys)
      ensures ok <==> !Taken(old(Members()), m)
      ensures ok ==>
                && Members() == old(Members())[(m.networkId, m.nodeId) := m]
                && networks == BumpAll(old(networks), {m.networkId})
      ensures !ok ==> Members() == old(Members()) && networks == old(networks)
    {
      hide Flat, OwnRows, BumpAll;
      EnsureMemberGroup(m.networkId);
      MemberLookup();
      if m.nodeId in memberships[m.networkId].rows { return false; }
      var taken := AddressTaken(m.networkId, m.virtualIPv4);
      if taken { return false; }
      PutMember(m.networkId, m);
      IncrementNetworkVersion(m.networkId);
      ok := true;
    }

    // -------------------------------------------------------------- relay tables

    ghost predicate HasRelay(n: Id, d: Id)
      reads this, TablesOf(relayAssignments)
    {
      n in relayAssignments && d in relayAssignments[n].rows
    }

    lemma RelayLookup()
      ensures forall k :: k in Relays() <==> HasRelay(k.0, k.1)
      ensures forall k | k in Relays() :: Relays()[k] == relayAssignments[k.0].rows[k.1]
    {
      hide Flat;
      FlatLookup(Groups(relayAssignments));
    }

    /** Layout, owner index and unique ids: what the relay helpers keep between them. */
    ghost predicate RelaysSound()
      reads this, TablesOf(relayAssignments)
    {
      Layout() && OwnerIndex(relayAssignmentOwners, Relays()) && UniqueIds(Relays())
    }

    method DeleteRow(n: Id, d: Id)
      requires Layout() && HasRelay(n, d)
      modifies relayAssignments[n]
      ensures Relays() == old(Relays()) - {(n, d)} && Members() == old(Members())
      ensures relayAssignments[n].rows == old(relayAssignments[n].rows) - {d}
    {
      hide Flat, OwnRows;
      assert relayAssignments[n] in TablesOf(relayAssignments);
      FlatDelete(Groups(relayAssignments), n, d);
      var table := relayAssignments[n];
      table.rows := table.rows - {d};
      assert Groups(relayAssignments) == old(Groups(relayAssignments))[n := old(Groups(relayAssignments))[n] - {d}];
    }

    /** Takes one assignment and its owner entry out of a group that stays in place. */
    method DeleteRelayRow(n: Id, d: Id)
      requires RelaysSound() && HasRelay(n, d)
      modifies this`relayAssignmentOwners, relayAssignments[n]
      ensures RelaysSound() && Relays() == old(Relays()) - {(n, d)} && Members() == old(Members())
      ensures relayAssignments[n].rows == old(relayAssignments[n].rows) - {d}
    {
      hide Flat, OwnRows, OwnerIndex, UniqueIds, MemoryRepository.Members, MemoryRepository.Relays;
      RelayLookup();
      assert (n, d) in Relays() && Relays()[(n, d)] == relayAssignments[n].rows[d];
      var id := relayAssignments[n].rows[d].id;
      OwnerDropOne(relayAssignmentOwners, Relays(), (n, d));
      DeleteRow(n, d);
      relayAssignmentOwners := relayAssignmentOwners - {id};
    }

    method DropEmptyGroup(n: Id)
      requires RelaysSound()
      modifies this`relayAssignments
      ensures RelaysSound() && Relays() == old(Relays()) && Members() == old(Members())
      ensures TablesOf(relayAssignments) <= old(TablesOf(relayAssignments))
      ensures relayAssignments.Keys <= old(relayAssignments.Keys)
      ensures old(relayAssignments.Keys) - {n} <= relayAssignments.Keys
    {
      hide Flat, OwnRows, OwnerIndex, UniqueIds;
      if n in relayAssignments && relayAssignments[n].rows == map[] {
        FlatSameRows(Groups(relayAssignments), Groups(relayAssignments) - {n});
        relayAssignments := relayAssignments - {n};
        assert Groups(relayAssignments) == old(Groups(relayAssignments)) - {n};
      }
    }

    /** deleteRelayAssignmentLocked. */
    method DeleteRelayAssignment(n: Id, d: Id)
      requires RelaysSound()
      modifies this`relayAssignmentOwners, this`relayAssignments, TablesOf(relayAssignments)
      ensures RelaysSound() && Relays() == old(Relays()) - {(n, d)} && Members() == old(Members())
      ensures TablesOf(relayAssignments) <= old(TablesOf(relayAssignments))
    {
      hide Flat, OwnRows, RelaysSound;
      RelayLookup();
      if n !in relayAssignments || d !in relayAssignments[n].rows { return; }
      DeleteRelayRow(n, d);
      DropEmptyGroup(n);
    }

    /** Deletes every assignment of the network that has the node at either end. */
    method DeleteRelaysInvolving(n: Id, d: Id)
      requires RelaysSound()
      requires forall k | k in Relays() :: Relays()[k].nodeId == k.1
      modifies this`relayAssignmentOwners, this`relayAssignments, TablesOf(relayAssignments)
      ensures RelaysSound() && Members() == old(Members())
      ensures Relays() == Pruned(old(Relays()), n, d, {})
      ensures TablesOf(relayAssignments) <= old(TablesOf(relayAssignments))
    {
      hide Flat, OwnRows, RelaysSound;
      ghost var relays := Relays();
      DeleteRelayAssignment(n, d);
      RelayLookup();
      var rows: map<Id, Relay> := if n in relayAssignments then relayAssignments[n].rows else map[];
      PruneStart(relays, n, d, rows.Keys);
      assert forall x | x in rows :: (n, x) in Relays() && (n, x) in relays && relays[(n, x)] == rows[x];
      DeleteListed(n, d, rows, relays);
    }

    method DeleteListed(n: Id, d: Id, rows: map<Id, Relay>, ghost relays: map<Pair, Relay>)
      requires RelaysSound() && Relays() == Pruned(relays, n, d, rows.Keys)
      requires forall x | x in rows :: (n, x) in relays && relays[(n, x)] == rows[x]
      modifies this`relayAssignmentOwners, this`relayAssignments, TablesOf(relayAssignments)
      ensures RelaysSound() && Members() == old(Members())
      ensures Relays() == Pruned(relays, n, d, {})
      ensures TablesOf(relayAssignments) <= old(TablesOf(relayAssignments))
    {
      hide Flat, OwnRows, RelaysSound, Pruned, Involves, MemoryRepository.Members, MemoryRepository.Relays;
      var rest := rows;
      while rest != map[]
        invariant rest.Keys <= rows.Keys && forall x | x in rest :: rest[x] == rows[x]
        invariant RelaysSound() && Members() == old(Members())
        invariant TablesOf(relayAssignments) <= old(TablesOf(relayAssignments))
        invariant Relays() == Pruned(relays, n, d, rest.Keys)
        decreases rest
      {
        var x :| x in rest;
        PruneStep(relays, n, d, rest.Keys, x);
        if Involves(rest[x], d) { DeleteRelayAssignment(n, x); }
        rest := rest - {x};
      }
      assert rest.Keys == {};
    }

    method RemoveMembership(n: Id, d: Id) returns (o: Outcome)
      requires Valid()
      modifies Repr()
      ensures Valid() && fresh(Repr() - old(Repr()))
      ensures Result(o, Contents()) == Relational.RemoveMembership(old(Contents()), n, d)
    {
      hide WellFormed, KeyIndex, TokenIndex, OwnerIndex, Separable, Flat, EndpointTable, OwnRows, BumpAll, Involves,
           UniqueIds;
      Constraints.RemoveMembershipKeeps(Contents(), n, d);
      SoundRelays();
      SoundMembers();
      MemberLookup();
      if n !in memberships { return Failed(NotFound); }
      if d !in memberships[n].rows { return Failed(NotFound); }
      assert HasMember(n, d) && (n, d) in Members();
      PrunedFully(Relays(), n, d);
      hide Pruned;
      UnstoreMember(n, d);
      o := Done;
    }

    method UnstoreMember(n: Id, d: Id)
      requires RelaysSound() && n in memberships && n in networks
      requires forall k | k in Relays() :: Relays()[k].nodeId == k.1
      modifies this`networks, this`relayAssignmentOwners, this`relayAssignments
      modifies TablesOf(memberships), TablesOf(relayAssignments)
      ensures RelaysSound() && Members() == old(Members()) - {(n, d)}
      ensures Relays() == Pruned(old(Relays()), n, d, {})
      ensures networks == BumpAll(old(networks), {n}) && networks.Keys == old(networks.Keys)
      ensures TablesOf(relayAssignments) <= old(TablesOf(relayAssignments))
    {
      hide Flat, OwnRows, OwnerIndex, UniqueIds, BumpAll, Involves, Pruned;
      DeleteMember(n, d);
      DeleteRelaysInvolving(n, d);
      IncrementNetworkVersion(n);
    }

    // -------------------------------------------------------------- setting and clearing assignments

    method EnsureRelayGroup(n: Id)
      requires Layout()
      modifies this`relayAssignments
      ensures Layout() && n in relayAssignments && Relays() == old(Relays()) && Members() == old(Members())
      ensures fresh(TablesOf(relayAssignments) - old(TablesOf(relayAssignments)))
    {
      hide Flat, OwnRows;
      if n !in relayAssignments {
        FlatEmptyGroup(Groups(relayAssignments), n);
        var table := new Table<Relay>(map[]);
        relayAssignments := relayAssignments[n := table];
        assert Groups(relayAssignments) == old(Groups(relayAssignments))[n := map[]];
      }
    }

    method PutRelay(n: Id, a: Relay)
      requires Layout() && n in relayAssignments
      modifies relayAssignments[n]
      ensures Relays() == old(Relays())[(n, a.nodeId) := a] && Members() == old(Members())
    {
      hide Flat, OwnRows;
      FlatPut(Groups(relayAssignments), n, a.nodeId, a);
      assert relayAssignments[n] in TablesOf(relayAssignments);
      var table := relayAssignments[n];
      table.rows := table.rows[a.nodeId := a];
      assert Groups(relayAssignments) ==
             old(Groups(relayAssignments))[n := old(Groups(relayAssignments))[n][a.nodeId := a]];
    }

    /** The upsert through the owner index; false when another pair owns the id. */
    method StoreRelay(a: Relay) returns (ok: bool)
      requires RelaysSound() && Separable(networks.Keys) && a.networkId in networks
      requires forall k | k in Relays() :: k.0 in networks
      modifies this`networks, this`relayAssignments, this`relayAssignmentOwners, TablesOf(relayAssignments)
      ensures Layout() && OwnerIndex(relayAssignmentOwners, Relays())
      ensures fresh(TablesOf(relayAssignments) - old(TablesOf(relayAssignments)))
      ensures Members() == old(Members()) && networks.Keys == old(networks.Keys)
      ensures ok <==> !exists l :: l in old(Relays()) && l != (a.networkId, a.nodeId) && old(Relays())[l].id == a.id
      ensures ok ==>
                && Relays() == old(Relays())[(a.networkId, a.nodeId) := a]
                && networks == BumpAll(old(networks), {a.networkId})
      ensures !ok ==> Relays() == old(Relays()) && networks == old(networks)
    {
      hide Flat, OwnRows, OwnerIndex, UniqueIds, Separable, IndexAdmits, BumpAll, MemoryRepository.Members,
           MemoryRepository.Relays;
      OwnerLookup(networks.Keys, relayAssignmentOwners, Relays(), a);
      EnsureRelayGroup(a.networkId);
      if !IndexAdmits(relayAssignmentOwners, a) { return false; }
      UpsertRelay(a);
      IncrementNetworkVersion(a.networkId);
      ok := true;
    }

    method UpsertRelay(a: Relay)
      requires RelaysSound() && a.networkId in relayAssignments
      requires forall l | l in Relays() && Relays()[l].id == a.id :: l == (a.networkId, a.nodeId)
      modifies this`relayAssignmentOwners, relayAssignments[a.networkId]
      ensures Layout() && OwnerIndex(relayAssignmentOwners, Relays())
      ensures Relays() == old(Relays())[(a.networkId, a.nodeId) := a] && Members() == old(Members())
    {
      hide Flat, OwnRows, OwnerIndex, UniqueIds, OwnerKey, MemoryRepository.Members, MemoryRepository.Relays;
      RelayLookup();
      var table := relayAssignments[a.networkId];
      OwnerPut(relayAssignmentOwners, Relays(), a);
      assert HasRelay(a.networkId, a.nodeId) <==> (a.networkId, a.nodeId) in Relays();
      if a.nodeId in table.rows && table.rows[a.nodeId].id != a.id {
        relayAssignmentOwners := relayAssignmentOwners - {table.rows[a.nodeId].id};
      }
      PutRelay(a.networkId, a);
      relayAssignmentOwners := relayAssignmentOwners[a.id := OwnerKey(a.networkId, a.nodeId)];
    }

    method SetRelayAssignment(a: Relay) returns (o: Outcome)
      requires Valid()
      modifies Repr()
      ensures Valid() && fresh(Repr() - old(Repr()))
      ensures Result(o, Contents()) == Relational.SetRelay(old(Contents()), a)
    {
      hide ValidRelay, WellFormed, KeyIndex, TokenIndex, OwnerIndex, Separable, Flat, EndpointTable, OwnRows, BumpAll,
           UniqueIds, MemoryRepository.Members, MemoryRepository.Relays;
      Constraints.SetRelayKeeps(Contents(), a);
      SoundRelays();
      MemberLookup();
      if !ValidRelay(a) { return Failed(Validation); }
      if a.networkId !in networks { return Failed(NotFound); }
      if a.nodeId !in nodes { return Failed(NotFound); }
      if a.relayNodeId !in nodes { return Failed(NotFound); }
      assert HasMember(a.networkId, a.nodeId) <==> (a.networkId, a.nodeId) in Members();
      assert HasMember(a.networkId, a.relayNodeId) <==> (a.networkId, a.relayNodeId) in Members();
      if a.networkId !in memberships { return Failed(NotFound); }
      var rows := memberships[a.networkId].rows;
      if a.nodeId !in rows { return Failed(NotFound); }
      if rows[a.nodeId].status != Active { return Failed(Validation); }
      if a.relayNodeId !in rows { return Failed(NotFound); }
      if rows[a.relayNodeId].status != Active { return Failed(Validation); }
      var ok := StoreRelay(a);
      o := if ok then Done else Failed(Conflict);
    }

    /** Forgets the owners of a whole group of assignments. */
    method ForgetOwners(rows: map<Id, Relay>)
      modifies this`relayAssignmentOwners
      ensures relayAssignmentOwners == old(relayAssignmentOwners) - (set d | d in rows :: rows[d].id)
    {
      var rest := rows;
      ghost var gone: set<Id> := {};
      while rest != map[]
        invariant forall d | d in rest :: d in rows && rest[d] == rows[d]
        invariant gone + (set d | d in rest :: rest[d].id) == (set d | d in rows :: rows[d].id)
        invariant relayAssignmentOwners == old(relayAssignmentOwners) - gone
        decreases rest
      {
        var d :| d in rest;
        var id := rest[d].id;
        ghost var before := set x | x in rest :: rest[x].id;
        relayAssignmentOwners := relayAssignmentOwners - {id};
        assert before == (set x | x in rest - {d} :: (rest - {d})[x].id) + {id} by { IdsWithout(rest, d); }
        gone := gone + {id};
        rest := rest - {d};
      }
      assert (set d | d in rest :: rest[d].id) == {};
    }

    method RemoveRelayAssignment(n: Id) returns (o: Outcome)
      requires Valid()
      modifies Repr()
      ensures Valid() && fresh(Repr() - old(Repr()))
      ensures Result(o, Contents()) == Relational.RemoveRelay(old(Contents()), n)
    {
      hide WellFormed, KeyIndex, TokenIndex, OwnerIndex, Separable, Flat, EndpointTable, OwnRows, BumpAll, UniqueIds,
           MemoryRepository.Members, MemoryRepository.Relays;
      Constraints.RemoveRelayKeeps(Contents(), n);
      SoundRelays();
      RelayLookup();
      if n !in relayAssignments || relayAssignments[n].rows == map[] { return Failed(NotFound); }
      assert exists k :: k in Relays() && k.0 == n by {
        var d :| d in relayAssignments[n].rows;
        assert HasRelay(n, d) && (n, d) in Relays() && (n, d).0 == n;
      }
      DropRelayGroup(n);
      IncrementNetworkVersion(n);
      o := Done;
    }

    method DropRelayGroup(n: Id)
      requires RelaysSound() && n in relayAssignments
      modifies this`relayAssignments, this`relayAssignmentOwners
      ensures RelaysSound() && Members() == old(Members())
      ensures Relays() == map k | k in old(Relays()) && k.0 != n :: old(Relays())[k]
      ensures TablesOf(relayAssignments) <= old(TablesOf(relayAssignments))
    {
      hide Flat, OwnRows, OwnerIndex, UniqueIds, MemoryRepository.Members;
      RelayLookup();
      ghost var relays := Relays();
      FlatDropGroup(Groups(relayAssignments), n);
      var rows := relayAssignments[n].rows;
      ForgetOwners(rows);
      relayAssignments := relayAssignments - {n};
      assert Groups(relayAssignments) == old(Groups(relayAssignments)) - {n};
      assert (set k | k in relays && k !in Relays() :: relays[k].id) == (set d | d in rows :: rows[d].id) by {
        GroupIds(relays, n, rows, Relays());
      }
      OwnerDrop(old(relayAssignmentOwners), relays, relayAssignmentOwners, Relays());
    }

    // -------------------------------------------------------------- removing a node

    method ForgetInvites(d: Id)
      modifies this`invites
      ensures invites == map i | i in old(invites) :: ForgetConsumer(old(invites)[i], d)
    {
      hide ForgetConsumer;
      var rest := invites;
      while rest != map[]
        invariant rest.Keys <= invites.Keys == old(invites).Keys
        invariant forall i | i in rest :: rest[i] == old(invites)[i]
        invariant forall i | i in invites ::
                    invites[i] == if i in rest then old(invites)[i] else ForgetConsumer(old(invites)[i], d)
        decreases rest
      {
        var i :| i in rest;
        invites := invites[i := ForgetConsumer(rest[i], d)];
        rest := rest - {i};
      }
    }

    /** Takes the node out of every member map and reports the networks it was in. */
    method ForgetMembers(d: Id) returns (affected: set<Id>)
      requires Layout()
      modifies TablesOf(memberships)
      ensures Members() == WithoutMember(old(Members()), d, {})
      ensures Relays() == old(Relays())
      ensures affected == set k | k in old(Members()) && k.1 == d :: k.0
    {
      hide Flat, OwnRows, WithoutMember, MemoryRepository.Members, MemoryRepository.Relays;
      ghost var members := Members();
      affected := {};
      var rest := memberships.Keys;
      MemberLookup();
      WithoutMemberEnds(members, d, rest);
      while rest != {}
        invariant rest <= memberships.Keys
        invariant Members() == WithoutMember(members, d, rest) && Relays() == old(Relays())
        invariant affected == set k | k in members && k.1 == d && k.0 !in rest :: k.0
        decreases rest
      {
        var n :| n in rest;
        WithoutMemberStep(members, d, rest, n);
        MemberLookup();
        assert HasMember(n, d) <==> (n, d) in Members();
        AffectedStep(members, d, rest, n);
        if d in memberships[n].rows {
          assert memberships[n] in TablesOf(memberships);
          DeleteMember(n, d);
          affected := affected + {n};
        }
        rest := rest - {n};
      }
    }

    /** Takes the assignments that involve the node out of one group. */
    method PruneGroup(n: Id, d: Id) returns (hit: bool)
      requires RelaysSound() && n in relayAssignments
      modifies this`relayAssignmentOwners, relayAssignments[n]
      ensures RelaysSound() && Members() == old(Members())
      ensures Relays() == Pruned(old(Relays()), n, d, {})
      ensures hit <==> exists k :: k in old(Relays()) && k.0 == n && Involves(old(Relays())[k], d)
    {
      hide Flat, OwnRows, RelaysSound, Pruned, Involves, MemoryRepository.Members, MemoryRepository.Relays;
      ghost var relays := Relays();
      RelayLookup();
      var rows := relayAssignments[n].rows;
      assert forall x | x in rows :: HasRelay(n, x) && (n, x) in relays && relays[(n, x)] == rows[x];
      PruneNone(relays, n, d, rows.Keys);
      hit := false;
      var rest := rows;
      while rest != map[]
        invariant rest.Keys <= rows.Keys && forall x | x in rest :: rest[x] == rows[x] && HasRelay(n, x)
        invariant RelaysSound() && Members() == old(Members())
        invariant Relays() == Pruned(relays, n, d, rest.Keys)
        invariant hit <==> exists x :: x in rows && x !in rest && Involves(rows[x], d)
        decreases rest
      {
        var x :| x in rest;
        PruneStep(relays, n, d, rest.Keys, x);
        if Involves(rest[x], d) {
          DeleteRelayRow(n, x);
          hit := true;
        }
        rest := rest - {x};
      }
      assert rest.Keys == {};
      assert hit ==> exists x :: (n, x) in relays && Involves(relays[(n, x)], d);
    }

    /** Takes every assignment that involves the node away and reports the networks that had one. */
    method ForgetRelays(d: Id) returns (affected: set<Id>)
      requires RelaysSound()
      modifies this`relayAssignmentOwners, this`relayAssignments, TablesOf(relayAssignments)
      ensures RelaysSound() && Members() == old(Members())
      ensures TablesOf(relayAssignments) <= old(TablesOf(relayAssignments))
      ensures Relays() == WithoutRelays(old(Relays()), d, {})
      ensures affected == set k | k in old(Relays()) && Involves(old(Relays())[k], d) :: k.0
    {
      hide Flat, OwnRows, RelaysSound, Pruned, Involves, WithoutRelays, MemoryRepository.Members,
           MemoryRepository.Relays;
      ghost var relays := Relays();
      affected := {};
      var rest := relayAssignments.Keys;
      RelayLookup();
      WithoutRelaysEnds(relays, d, rest);
      while rest != {}
        invariant rest <= relayAssignments.Keys
        invariant RelaysSound() && Members() == old(Members())
        invariant TablesOf(relayAssignments) <= old(TablesOf(relayAssignments))
        invariant Relays() == WithoutRelays(relays, d, rest)
        invariant affected == set k | k in relays && Involves(relays[k], d) && k.0 !in rest :: k.0
        decreases rest
      {
        var n :| n in rest;
        assert relayAssignments[n] in TablesOf(relayAssignments);
        WithoutRelaysStep(relays, d, rest, n);
        RelayAffectedStep(relays, d, rest, n);
        var hit := PruneGroup(n, d);
        if hit { affected := affected + {n}; }
        DropEmptyGroup(n);
        rest := rest - {n};
      }
    }

    /** The hand-written cascade, up to the version bumps. */
    method Cascade(d: Id) returns (affected: set<Id>)
      requires RelaysSound()
      modifies this`invites, this`relayAssignmentOwners, this`relayAssignments
      modifies TablesOf(memberships), TablesOf(relayAssignments)
      ensures RelaysSound() && TablesOf(relayAssignments) <= old(TablesOf(relayAssignments))
      ensures invites == map i | i in old(invites) :: ForgetConsumer(old(invites)[i], d)
      ensures Members() == WithoutMember(old(Members()), d, {})
      ensures Relays() == WithoutRelays(old(Relays()), d, {})
      ensures affected == (set k | k in old(Members()) && k.1 == d :: k.0)
                          + (set k | k in old(Relays()) && Involves(old(Relays())[k], d) :: k.0)
    {
      hide Flat, OwnRows, Involves, WithoutMember, WithoutRelays, ForgetConsumer, OwnerIndex, UniqueIds,
           MemoryRepository.Members, MemoryRepository.Relays;
      ForgetInvites(d);
      affected := ForgetMembers(d);
      var more := ForgetRelays(d);
      affected := affected + more;
    }

    method RemoveNode(d: Id) returns (o: Outcome)
      requires Valid()
      modifies Repr()
      ensures Valid() && fresh(Repr() - old(Repr()))
      ensures Result(o, Contents()) == Relational.RemoveNode(old(Contents()), d)
    {
      hide WellFormed, KeyIndex, TokenIndex, OwnerIndex, Separable, Flat, BumpAll, UniqueIds, Involves, ForgetConsumer,
           WithoutMember, WithoutRelays, EndpointTable, OwnRows, MemoryRepository.Members, MemoryRepository.Relays;
      Constraints.RemoveNodeKeeps(Contents(), d);
      SoundRelays();
      SoundMembers();
      if d !in nodes { return Failed(NotFound); }
      CascadedTables(Contents(), d);
      KeyDrop(publicKeys, nodes, d);
      TokenForget(inviteByToken, invites, d);
      publicKeys := publicKeys - {nodes[d].publicKey};
      nodes := nodes - {d};
      Dismantle(d);
      o := Done;
    }

    method Dismantle(d: Id)
      requires RelaysSound()
      requires forall k | k in Members() :: k.0 in networks
      requires forall k | k in Relays() :: k.0 in networks
      modifies this`endpoints, this`invites, this`networks, this`relayAssignmentOwners, this`relayAssignments,
               TablesOf(memberships), TablesOf(relayAssignments)
      ensures RelaysSound() && TablesOf(relayAssignments) <= old(TablesOf(relayAssignments))
      ensures EndpointTable(endpoints) == set e | e in old(EndpointTable(endpoints)) && e.nodeId != d
      ensures invites == map i | i in old(invites) :: ForgetConsumer(old(invites)[i], d)
      ensures Members() == WithoutMember(old(Members()), d, {})
      ensures Relays() == WithoutRelays(old(Relays()), d, {})
      ensures networks.Keys == old(networks.Keys)
      ensures networks == BumpAll(old(networks), (set k | k in old(Members()) && k.1 == d :: k.0)
                                                 + (set k | k in old(Relays()) && Involves(old(Relays())[k], d) :: k.0))
    {
      hide Flat, OwnRows, EndpointTable, Involves, WithoutMember, WithoutRelays, ForgetConsumer, OwnerIndex,
           UniqueIds, BumpAll, MemoryRepository.Members, MemoryRepository.Relays;
      EndpointsDrop(endpoints, d);
      endpoints := endpoints - {d};
      var affected := Cascade(d);
      IncrementAll(affected);
    }

    // -------------------------------------------------------------- endpoints

    method CheckEndpoints(d: Id, list: seq<Endpoint>) returns (o: Outcome)
      ensures o == EndpointsOutcome(d, list)
    {
      hide ValidEndpoint;
      o := Done;
      var seen: set<(Addr, U16, string)> := {};
      for i := 0 to |list|
        invariant EndpointsOutcome(d, list[..i]) == Done
        invariant forall j | 0 <= j < i :: list[j].nodeId == d
        invariant forall j | 0 <= j < i :: (list[j].address, list[j].port, list[j].interfaceName) in seen
        invariant forall s | s in seen ::
                    exists j :: 0 <= j < i && s == (list[j].address, list[j].port, list[j].interfaceName)
      {
        var e := list[i];
        OutcomeStep(d, list, i);
        if e.nodeId != d || !ValidEndpoint(e) {
          OutcomeStays(d, list, i + 1);
          return Failed(Validation);
        }
        if (e.address, e.port, e.interfaceName) in seen {
          OutcomeStays(d, list, i + 1);
          return Failed(Conflict);
        }
        seen := seen + {(e.address, e.port, e.interfaceName)};
      }
      assert list[..|list|] == list;
    }

    /** Networks whose member map has the node. */
    method MemberNetworks(d: Id) returns (found: set<Id>)
      ensures found == set k | k in Members() && k.1 == d :: k.0
    {
      hide Flat, MemoryRepository.Members;
      MemberLookup();
      found := {};
      var rest := memberships.Keys;
      while rest != {}
        invariant rest <= memberships.Keys
        invariant found == set n | n in memberships.Keys && n !in rest && HasMember(n, d)
        decreases rest
      {
        var n :| n in rest;
        if d in memberships[n].rows { found := found + {n}; }
        rest := rest - {n};
      }
      assert forall n | HasMember(n, d) :: (n, d) in Members() && (n, d).1 == d;
    }

    method ReplaceEndpoints(d: Id, list: seq<Endpoint>) returns (o: Outcome)
      requires Valid()
      modifies this`endpoints, this`networks
      ensures Valid() && Result(o, Contents()) == Relational.ReplaceEndpoints(old(Contents()), d, list)
    {
      hide WellFormed, KeyIndex, TokenIndex, OwnerIndex, Separable, Flat, BumpAll, EndpointTable, OwnRows,
           EndpointsOutcome, ValidEndpoint, SameEndpoint, MemoryRepository.Members, MemoryRepository.Relays;
      Constraints.ReplaceEndpointsKeeps(Contents(), d, list);
      SoundMembers();
      if d !in nodes { return Failed(NotFound); }
      o := CheckEndpoints(d, list);
      if o != Done { return; }
      StoreEndpoints(d, list);
    }

    method StoreEndpoints(d: Id, list: seq<Endpoint>)
      requires Layout() && EndpointsOutcome(d, list) == Done
      requires forall k | k in Members() :: k.0 in networks
      modifies this`endpoints, this`networks
      ensures Layout() && networks.Keys == old(networks.Keys)
      ensures EndpointTable(endpoints) == (set e | e in old(EndpointTable(endpoints)) && e.nodeId != d) + Elements(list)
      ensures networks == BumpAll(old(networks), set k | k in old(Members()) && k.1 == d :: k.0)
    {
      hide Flat, BumpAll, EndpointTable, OwnRows, EndpointsOutcome, ValidEndpoint, SameEndpoint,
           MemoryRepository.Members;
      Constraints.EndpointsOutcomeMeaning(d, list);
      EndpointsPut(endpoints, d, list);
      endpoints := endpoints[d := list];
      var found := MemberNetworks(d);
      IncrementAll(found);
    }

    // -------------------------------------------------------------- snapshots

    method MemberIds(n: Id) returns (ids: seq<Id>)
      ensures Ascending(ids) && Elements(ids) == set k | k in Members() && k.0 == n :: k.1
    {
      hide Flat, MemoryRepository.Members, Sort;
      MemberLookup();
      var rows: map<Id, Membership> := if n in memberships then memberships[n].rows else map[];
      ids := [];
      var rest := rows.Keys;
      while rest != {}
        invariant rest <= rows.Keys && Elements(ids) == rows.Keys - rest && NoRepeats(ids)
        decreases rest
      {
        var d :| d in rest;
        assert forall i | 0 <= i < |ids| :: ids[i] in Elements(ids);
        assert Elements(ids + [d]) == Elements(ids) + {d};
        ids := ids + [d];
        rest := rest - {d};
      }
      SortAscends(ids);
      assert forall d | d in rows.Keys :: HasMember(n, d) && (n, d) in Members() && (n, d).0 == n;
      ids := Sort(ids);
    }

    method FreshOf(d: Id, now: Time) returns (recent: set<Endpoint>)
      requires Layout()
      ensures recent == FreshEndpoints(Contents(), d, now, endpointMaxAge)
    {
      hide Flat, MemoryRepository.Members, MemoryRepository.Relays, IsFresh;
      recent := {};
      var list: seq<Endpoint> := if d in endpoints then endpoints[d] else [];
      for i := 0 to |list|
        invariant forall e :: e in recent <==> exists j :: 0 <= j < i && list[j] == e && IsFresh(e, now, endpointMaxAge)
      {
        if IsFresh(list[i], now, endpointMaxAge) { recent := recent + {list[i]}; }
      }
      EndpointsOfNode(endpoints, d);
    }

    method RelayForLocal(n: Id, local: Id, now: Time) returns (relay: Option<Relay>)
      ensures relay == RelayFor(Contents(), n, local, now)
    {
      hide Flat, MemoryRepository.Members, MemoryRepository.Relays, Control.Usable, EndpointTable, ActiveMember;
      RelayLookup();
      assert HasRelay(n, local) <==> (n, local) in Relays();
      if n !in relayAssignments || local !in relayAssignments[n].rows { return None; }
      var a := relayAssignments[n].rows[local];
      assert (n, local) in Relays() && Relays()[(n, local)] == a;
      ActiveLookup(n, a.nodeId);
      ActiveLookup(n, a.relayNodeId);
      if && a.status == RelayActive && Control.Usable(a, now)
         && MembershipIsActive(n, a.nodeId) && MembershipIsActive(n, a.relayNodeId) {
        relay := Some(a);
      } else {
        relay := None;
      }
    }

    predicate MembershipIsActive(n: Id, d: Id)
      reads this`memberships, TablesOf(memberships)
    {
      n in memberships && d in memberships[n].rows && memberships[n].rows[d].status == Active
    }

    lemma ActiveLookup(n: Id, d: Id)
      ensures MembershipIsActive(n, d) <==> ActiveMember(Contents(), (n, d)) == Done
    {
      hide Flat, MemoryRepository.Members, MemoryRepository.Relays, EndpointTable;
      MemberLookup();
      assert HasMember(n, d) <==> (n, d) in Members();
    }

    /** The peers of the local node: active members with a node record, in identifier order. */
    method PeersFor(n: Id, local: Id, now: Time) returns (peers: seq<Peer>, ghost kept: seq<Id>)
      requires Layout()
      ensures kept == InOrder(PeerIds(Contents(), n, local))
      ensures forall i | 0 <= i < |kept| :: (n, kept[i]) in Members() && kept[i] in nodes
      ensures peers == PeersOf(Contents(), n, kept, now, endpointMaxAge)
    {
      hide Flat, MemoryRepository.Members, MemoryRepository.Relays, EndpointTable, InOrder, PeerIds, PeerOf, PeersOf,
           FreshEndpoints, Ascending, Elements;
      var ids := MemberIds(n);
      MemberLookup();
      peers, kept := [], [];
      NothingKept(Contents(), n, local, ids, now, endpointMaxAge);
      for i := 0 to |ids|
        invariant KeptSoFar(Contents(), n, local, ids, i, kept)
        invariant |peers| == |kept| && forall j | 0 <= j < |kept| ::
                    && (n, kept[j]) in Members() && kept[j] in nodes
                    && peers[j] == PeerOf(Contents(), n, kept[j], now, endpointMaxAge)
      {
        var d := ids[i];
        IsMemberId(Contents(), n, ids, i);
        var m := memberships[n].rows[d];
        if d != local && m.status == Active && d in nodes {
          var recent := FreshOf(d, now);
          var node := nodes[d];
          KeepStep(Contents(), n, local, ids, i, kept);
          PeerShape(Contents(), n, d, now, endpointMaxAge);
          peers := peers + [Peer(node.id, node.displayName, node.publicKey, m.virtualIPv4, node, m, recent)];
          kept := kept + [d];
        } else {
          SkipStep(Contents(), n, local, ids, i, kept);
        }
      }
      KeptAll(Contents(), n, local, ids, kept);
      SamePeerList(Contents(), n, kept, now, endpointMaxAge, peers);
    }

    /** `clock` is what time.Now returns when no time is given. */
    method BuildSnapshotAt(n: Id, local: Id, now: Time, clock: Time) returns (s: Option<Snapshot>)
      requires Layout()
      ensures s == BuildSnapshot(Contents(), n, local, if now == 0 then clock else now, endpointMaxAge)
    {
      hide Flat, MemoryRepository.Members, MemoryRepository.Relays, EndpointTable, InOrder, PeerIds, PeersOf, RelayFor;
      var at := if now == 0 then clock else now;
      MemberLookup();
      assert HasMember(n, local) <==> (n, local) in Members();
      if n !in networks { return None; }
      if n !in memberships || local !in memberships[n].rows { return None; }
      if memberships[n].rows[local].status != Active { return None; }
      if local !in nodes { return None; }
      var localAddress := memberships[n].rows[local].virtualIPv4;
      var peers, kept := PeersFor(n, local, at);
      var relay := RelayForLocal(n, local, at);
      var network := networks[n];
      s := Some(Snapshot(network.id, network.configVersion, network.configVersion, local, localAddress, peers,
                         relay, relay, at));
    }

    // -------------------------------------------------------------- transactions

    /** cloneMemoryRepositoryLocked: the copy shares no inner map with the original. */
    method Clone() returns (copy: MemoryRepository)
      requires Valid()
      ensures fresh(copy.Repr()) && copy.Valid() && copy.Contents() == Contents()
      ensures copy.endpointMaxAge == endpointMaxAge
    {
      hide MemoryRepository.Valid, Flat, MemoryRepository.Contents, Unshared;
      assert forall o | o in Repr() :: allocated(o);
      var members := CloneTables(memberships);
      assert Valid() && Groups(relayAssignments) == old(Groups(relayAssignments));
      var relays := CloneTables(relayAssignments);
      assert Valid() && Groups(relayAssignments) == old(Groups(relayAssignments));
      assert Groups(memberships) == old(Groups(memberships));
      assert Groups(members) == old(Groups(memberships));
      copy := new MemoryRepository.From(this, members, relays);
      SameTables(copy);
    }

    method TakeFields(working: MemoryRepository)
      requires working != this
      modifies this
      ensures networks == working.networks && nodes == working.nodes && publicKeys == working.publicKeys
      ensures invites == working.invites && inviteByToken == working.inviteByToken && endpoints == working.endpoints
      ensures memberships == working.memberships && relayAssignments == working.relayAssignments
      ensures relayAssignmentOwners == working.relayAssignmentOwners
    {
      networks, nodes, publicKeys := working.networks, working.nodes, working.publicKeys;
      memberships, invites, inviteByToken := working.memberships, working.invites, working.inviteByToken;
      endpoints, relayAssignments, relayAssignmentOwners :=
        working.endpoints, working.relayAssignments, working.relayAssignmentOwners;
    }

    /** Makes the tables of the working copy the published ones. */
    method Publish(working: MemoryRepository)
      requires working.Valid() && working != this && this !in working.Repr()
      modifies this
      ensures Valid() && Contents() == old(working.Contents())
      ensures Repr() == old(working.Repr()) - {working} + {this}
    {
      hide MemoryRepository.Valid, Flat, MemoryRepository.Contents, Unshared, Groups, OwnRows;
      working.SoundLayout();
      assert forall o | o in working.Repr() :: allocated(o);
      TakeFields(working);
      assert working.Valid() && working.Contents() == old(working.Contents());
      working.SameTables(this);
    }

    /** Any operation does to the repository what its statement does to the tables. */
    method Do(op: Op) returns (o: Outcome)
      requires Valid()
      modifies Repr()
      ensures fresh(Repr() - old(Repr()))
      ensures Result(o, Contents()) == Exec(old(Contents()), op)
      ensures Sound() && (Separable(Contents().networks.Keys) ==> Valid())
    {
      hide Sound, Separable, MemoryRepository.Contents, Relational.CreateNetwork, Relational.AddNode,
           Relational.TouchNode, Relational.UpdateClientVersion, Relational.RemoveNode, Relational.AddMembership,
           Relational.RemoveMembership, Relational.CreateInvite, Relational.RevokeInvite, Relational.ConsumeInvite,
           Relational.ReplaceEndpoints, Relational.SetRelay, Relational.RemoveRelay;
      match op {
      case OpCreateNetwork(n) => o := CreateNetwork(n);
      case OpAddNode(node) => o := AddNode(node);
      case OpTouchNode(d, at) => o := TouchNode(d, at);
      case OpUpdateClientVersion(d, v) => o := UpdateNodeClientVersion(d, v);
      case OpRemoveNode(d) => o := RemoveNode(d);
      case OpAddMembership(m) => o := AddMembership(m);
      case OpRemoveMembership(n, d) => o := RemoveMembership(n, d);
      case OpCreateInvite(i) => o := CreateInvite(i);
      case OpRevokeInvite(i, at) => o := RevokeInvite(i, at);
      case OpConsumeInvite(key, hash, at, consumer) =>
        var invite;
        o, invite := ConsumeInviteForNode(key, hash, at, consumer, at);
      case OpReplaceEndpoints(d, list) => o := ReplaceEndpoints(d, list);
      case OpSetRelay(a) => o := SetRelayAssignment(a);
      case OpRemoveRelay(n) => o := RemoveRelayAssignment(n);
      }
    }

    /** A transaction whose callback performs `ops` and then succeeds or fails as `commit` says.
        Failing leaves the published tables and their inner maps alone. */
    method WithTransaction(ops: seq<Op>, commit: bool)
      requires Valid() && SeparableThroughout(Contents(), ops)
      modifies this
      ensures Valid() && Contents() == CacheKey.Publish(old(Contents()), CacheKey.Txn(ops, commit))
      ensures !commit ==> unchanged(this)
      ensures fresh(Repr() - old(Repr()))
    {
      hide Sound, Separable, MemoryRepository.Contents, Exec, Unshared;
      assert forall o | o in Repr() :: allocated(o);
      var working := Clone();
      for i := 0 to |ops|
        invariant fresh(working.Repr()) && working.Valid() && this !in working.Repr()
        invariant unchanged(this)
        invariant SeparableThroughout(working.Contents(), ops[i..])
        invariant CacheKey.ExecAll(old(Contents()), ops) == CacheKey.ExecAll(working.Contents(), ops[i..])
      {
        ghost var rest := ops[i..];
        assert rest[0] == ops[i] && rest[1..] == ops[i + 1..];
        var o := working.Do(ops[i]);
      }
      if commit { Publish(working); }
    }

    lemma SoundRelays()
      requires Valid()
      ensures RelaysSound()
      ensures forall k | k in Relays() :: Relays()[k].nodeId == k.1 && k.0 in networks
    {
      hide NetworksOk, NodesOk, InvitesOk, EndpointsOk, Flat, ValidRelay, OwnerIndex;
      Constraints.RelayKeys(Contents());
      Constraints.RelayEnds(Contents());
      Constraints.MemberNodes(Contents());
    }

    lemma SoundMembers()
      requires Valid()
      ensures forall k | k in Members() :: k.0 in networks && k.1 in nodes
    {
      hide NetworksOk, NodesOk, InvitesOk, EndpointsOk, RelaysOk, Flat;
      Constraints.MemberNodes(Contents());
    }

    lemma FieldsOfContents()
      ensures Contents().networks == networks && Contents().nodes == nodes && Contents().invites == invites
    {
      hide MemoryRepository.Members, MemoryRepository.Relays, EndpointTable;
    }

    lemma SoundContents()
      requires Valid()
      ensures WellFormed(Contents())
    {
      hide MemoryRepository.Contents, WellFormed;
    }

    lemma SoundLayout()
      requires Valid()
      ensures Layout()
    {
      hide MemoryRepository.Contents;
    }

    lemma SoundInvites()
      requires Valid()
      ensures InvitesOk(Contents())
      ensures forall i | i in invites :: invites[i].id == i && invites[i].networkId in networks
    {
      hide NetworksOk, NodesOk, MembershipsOk, EndpointsOk, RelaysOk, Flat;
      forall i | i in invites ensures invites[i].id == i && invites[i].networkId in networks {
        assert InviteOk(Contents(), i, invites[i]);
      }
    }
  }

  lemma ConsumableMeans(db: Db, key: Id, tokenHash: string, at: Time, i: Id)
    requires i in db.invites && Matches(db, key, tokenHash, i)
    ensures Consumable(db, key, tokenHash, at, i) <==> ConsumeError(db.invites[i], at) == Done
  {
  }

  lemma ConsumeUnknownNode(db: Db, key: Id, tokenHash: string, at: Time, consumer: Id)
    requires consumer != "" && consumer !in db.nodes
    ensures Relational.ConsumeInvite(db, key, tokenHash, at, consumer) == Result(Failed(NotFound), db)
  {
  }

  /** The relational cascade, written with the functions the loops compute. */
  lemma CascadedTables(db: Db, d: Id)
    requires d in db.nodes
    ensures Relational.RemoveNode(db, d) == Result(Done, Db(
              BumpAll(db.networks, (set k | k in db.memberships && k.1 == d :: k.0)
                                   + (set k | k in db.relays && Involves(db.relays[k], d) :: k.0)),
              db.nodes - {d}, WithoutMember(db.memberships, d, {}),
              map i | i in db.invites :: ForgetConsumer(db.invites[i], d),
              (set e | e in db.endpoints && e.nodeId != d), WithoutRelays(db.relays, d, {})))
  {
    hide Involves, ForgetConsumer, BumpAll;
    WithoutMemberEnds(db.memberships, d, set k | k in db.memberships :: k.0);
    WithoutRelaysEnds(db.relays, d, set k | k in db.relays :: k.0);
  }

  lemma OutcomeStep(d: Id, list: seq<Endpoint>, i: nat)
    requires i < |list|
    ensures EndpointsOutcome(d, list[..i + 1]) ==
            if EndpointsOutcome(d, list[..i]) != Done then EndpointsOutcome(d, list[..i])
            else if list[i].nodeId != d || !ValidEndpoint(list[i]) then Failed(Validation)
            else if exists j | 0 <= j < i :: SameEndpoint(list[j], list[i]) then Failed(Conflict)
            else Done
  {
    hide ValidEndpoint, SameEndpoint;
    var s := list[..i + 1];
    assert s[..|s| - 1] == list[..i] && s[|s| - 1] == list[i];
    assert forall j | 0 <= j < i :: list[..i][j] == list[j];
  }

  /** The first refusal is the outcome of the whole list. */
  lemma {:induction false} OutcomeStays(d: Id, list: seq<Endpoint>, i: nat)
    requires i <= |list| && EndpointsOutcome(d, list[..i]) != Done
    ensures EndpointsOutcome(d, list) == EndpointsOutcome(d, list[..i])
    decreases |list| - i
  {
    hide ValidEndpoint, SameEndpoint, EndpointsOutcome;
    if i == |list| {
      assert list[..i] == list;
    } else {
      OutcomeStep(d, list, i);
      OutcomeStays(d, list, i + 1);
    }
  }

  // ---------------------------------------------------------------- collecting peers

  lemma EndpointsOfNode(m: map<Id, seq<Endpoint>>, d: Id)
    requires OwnRows(m)
    ensures forall e :: e in EndpointTable(m) && e.nodeId == d <==> d in m && e in m[d]
  {
    forall e | d in m && e in m[d] ensures e in EndpointTable(m) && e.nodeId == d {
      var i :| 0 <= i < |m[d]| && m[d][i] == e;
    }
  }

  ghost predicate Keeps(db: Db, n: Id, local: Id, d: Id) {
    (n, d) in db.memberships && d != local && db.memberships[(n, d)].status == Active && d in db.nodes
  }

  ghost predicate KeptSoFar(db: Db, n: Id, local: Id, ids: seq<Id>, i: nat, kept: seq<Id>)
    requires i <= |ids|
  {
    && Ascending(ids) && Elements(ids) == (set k | k in db.memberships && k.0 == n :: k.1)
    && Ascending(kept)
    && (forall d :: d in kept <==> d in ids[..i] && Keeps(db, n, local, d))
  }

  lemma NothingKept(db: Db, n: Id, local: Id, ids: seq<Id>, now: Time, maxAge: int)
    requires Ascending(ids) && Elements(ids) == set k | k in db.memberships && k.0 == n :: k.1
    ensures KeptSoFar(db, n, local, ids, 0, [])
  {
  }

  lemma IsMemberId(db: Db, n: Id, ids: seq<Id>, i: nat)
    requires i < |ids| && Elements(ids) == set k | k in db.memberships && k.0 == n :: k.1
    ensures (n, ids[i]) in db.memberships
  {
    assert ids[i] in Elements(ids);
    var k :| k in db.memberships && k.0 == n && k.1 == ids[i];
    assert k == (n, ids[i]);
  }

  lemma KeepStep(db: Db, n: Id, local: Id, ids: seq<Id>, i: nat, kept: seq<Id>)
    requires i < |ids| && KeptSoFar(db, n, local, ids, i, kept) && Keeps(db, n, local, ids[i])
    ensures KeptSoFar(db, n, local, ids, i + 1, kept + [ids[i]])
  {
    assert ids[..i + 1] == ids[..i] + [ids[i]];
    forall j | 0 <= j < |kept| ensures Less(kept[j], ids[i]) {
      assert kept[j] in kept;
      assert kept[j] in ids[..i];
    }
  }

  lemma SkipStep(db: Db, n: Id, local: Id, ids: seq<Id>, i: nat, kept: seq<Id>)
    requires i < |ids| && KeptSoFar(db, n, local, ids, i, kept) && !Keeps(db, n, local, ids[i])
    ensures KeptSoFar(db, n, local, ids, i + 1, kept)
  {
    assert ids[..i + 1] == ids[..i] + [ids[i]];
  }

  lemma KeptAll(db: Db, n: Id, local: Id, ids: seq<Id>, kept: seq<Id>)
    requires KeptSoFar(db, n, local, ids, |ids|, kept)
    ensures kept == InOrder(PeerIds(db, n, local))
  {
    hide InOrder;
    assert ids[..|ids|] == ids;
    forall d ensures d in kept <==> d in PeerIds(db, n, local) {
      if Keeps(db, n, local, d) {
        assert (n, d) in db.memberships && (n, d).0 == n && (n, d).1 == d;
        assert d in Elements(ids);
      }
      if d in PeerIds(db, n, local) {
        var k :| && k in db.memberships && k.0 == n && k.1 != local && db.memberships[k].status == Active
                 && k.1 in db.nodes && k.1 == d;
        assert k == (n, d);
      }
    }
    assert Elements(kept) == PeerIds(db, n, local);
    AscendingUnique(kept, InOrder(PeerIds(db, n, local)));
  }

  lemma PeerShape(db: Db, n: Id, d: Id, now: Time, maxAge: int)
    requires (n, d) in db.memberships && d in db.nodes
    ensures PeerOf(db, n, d, now, maxAge) ==
            Peer(db.nodes[d].id, db.nodes[d].displayName, db.nodes[d].publicKey, db.memberships[(n, d)].virtualIPv4,
                 db.nodes[d], db.memberships[(n, d)], FreshEndpoints(db, d, now, maxAge))
  {
  }

  lemma SamePeerList(db: Db, n: Id, kept: seq<Id>, now: Time, maxAge: int, peers: seq<Peer>)
    requires forall i | 0 <= i < |kept| :: (n, kept[i]) in db.memberships && kept[i] in db.nodes
    requires |peers| == |kept| && forall i | 0 <= i < |kept| :: peers[i] == PeerOf(db, n, kept[i], now, maxAge)
    ensures peers == PeersOf(db, n, kept, now, maxAge)
  {
    hide PeersOf, PeerOf;
  }

  // ---------------------------------------------------------------- transactions

  /** Copies every inner map into a new one. */
  method CloneTables<V>(m: map<Id, Table<V>>) returns (copy: map<Id, Table<V>>)
    ensures fresh(TablesOf(copy)) && Unshared(copy) && Groups(copy) == Groups(m)
  {
    copy := map[];
    var rest := m.Keys;
    while rest != {}
      invariant rest <= m.Keys && copy.Keys == m.Keys - rest
      invariant fresh(TablesOf(copy)) && Unshared(copy)
      invariant forall n | n in copy :: copy[n].rows == m[n].rows
      decreases rest
    {
      var n :| n in rest;
      var table := new Table<V>(m[n].rows);
      ghost var before := TablesOf(copy);
      copy := copy[n := table];
      forall o | o in TablesOf(copy) ensures o in before + {table} {
        var k :| k in copy && copy[k] == o;
      }
      rest := rest - {n};
    }
  }

  /** Owner keys stay unambiguous after each operation of a transaction. */
  ghost predicate SeparableThroughout(db: Db, ops: seq<Op>)
    decreases |ops|
  {
    ops == [] || (Separable(Exec(db, ops[0]).db.networks.Keys) && SeparableThroughout(Exec(db, ops[0]).db, ops[1..]))
  }
}
