/** How the in-memory repository lays the tables out: nested maps per network, and three inverse
    indexes kept by hand (internal/db/repository.go:35-47, 207-209). */
module Storage {
  import opened Text
  import opened NetIp
  import opened Control
  import opened Relational
  import Constraints

  // ---------------------------------------------------------------- nested maps

  type Nested<V> = map<Id, map<Id, V>>

  /** The table a nested map holds. */
  ghost function Flat<V>(g: Nested<V>): map<Pair, V> {
    map n, d | n in g && d in g[n] :: (n, d) := g[n][d]
  }

  lemma FlatLookup<V>(g: Nested<V>)
    ensures forall k :: k in Flat(g) <==> k.0 in g && k.1 in g[k.0]
    ensures forall k | k in Flat(g) :: Flat(g)[k] == g[k.0][k.1]
  {
    forall k: Pair ensures k in Flat(g) <==> k.0 in g && k.1 in g[k.0] {
      assert k == (k.0, k.1);
    }
  }

  lemma FlatEmptyGroup<V>(g: Nested<V>, n: Id)
    requires n !in g
    ensures Flat(g[n := map[]]) == Flat(g)
  {
    hide Flat;
    FlatLookup(g);
    FlatLookup(g[n := map[]]);
  }

  lemma FlatPut<V>(g: Nested<V>, n: Id, d: Id, v: V)
    requires n in g
    ensures Flat(g[n := g[n][d := v]]) == Flat(g)[(n, d) := v]
  {
    hide Flat;
    FlatLookup(g);
    FlatLookup(g[n := g[n][d := v]]);
  }

  lemma FlatDelete<V>(g: Nested<V>, n: Id, d: Id)
    requires n in g
    ensures Flat(g[n := g[n] - {d}]) == Flat(g) - {(n, d)}
  {
    hide Flat;
    FlatLookup(g);
    FlatLookup(g[n := g[n] - {d}]);
  }

  /** Dropping a group drops the rows of that network. */
  lemma FlatDropGroup<V>(g: Nested<V>, n: Id)
    ensures Flat(g - {n}) == map k | k in Flat(g) && k.0 != n :: Flat(g)[k]
  {
    hide Flat;
    FlatLookup(g);
    FlatLookup(g - {n});
  }

  /** Dropping empty groups drops nothing. */
  lemma FlatSameRows<V>(g: Nested<V>, h: Nested<V>)
    requires forall n | n in h :: n in g && h[n] == g[n]
    requires forall n | n in g && n !in h :: g[n] == map[]
    ensures Flat(h) == Flat(g)
  {
    hide Flat;
    FlatLookup(g);
    FlatLookup(h);
  }

  // ---------------------------------------------------------------- endpoint lists

  ghost function EndpointTable(m: map<Id, seq<Endpoint>>): set<Endpoint> {
    set d, i | d in m && 0 <= i < |m[d]| :: m[d][i]
  }

  ghost predicate OwnRows(m: map<Id, seq<Endpoint>>) {
    forall d, i | d in m && 0 <= i < |m[d]| :: m[d][i].nodeId == d
  }

  lemma EndpointsDrop(m: map<Id, seq<Endpoint>>, d: Id)
    requires OwnRows(m)
    ensures OwnRows(m - {d})
    ensures EndpointTable(m - {d}) == set e | e in EndpointTable(m) && e.nodeId != d
  {
    forall e | e in EndpointTable(m) && e.nodeId != d ensures e in EndpointTable(m - {d}) {
      var d', i :| d' in m && 0 <= i < |m[d']| && m[d'][i] == e;
      assert d' in m - {d} && (m - {d})[d'][i] == e;
    }
    forall e | e in EndpointTable(m - {d}) ensures e in EndpointTable(m) && e.nodeId != d {
      var d', i :| d' in m - {d} && 0 <= i < |(m - {d})[d']| && (m - {d})[d'][i] == e;
      assert m[d'][i] == e;
    }
  }

  lemma EndpointsPut(m: map<Id, seq<Endpoint>>, d: Id, list: seq<Endpoint>)
    requires OwnRows(m) && forall i | 0 <= i < |list| :: list[i].nodeId == d
    ensures OwnRows(m[d := list])
    ensures EndpointTable(m[d := list]) == (set e | e in EndpointTable(m) && e.nodeId != d) + Elements(list)
  {
    var n := m[d := list];
    forall e | e in EndpointTable(m) && e.nodeId != d ensures e in EndpointTable(n) {
      var d', i :| d' in m && 0 <= i < |m[d']| && m[d'][i] == e;
      assert n[d'][i] == e;
    }
    forall e | e in list ensures e in EndpointTable(n) {
      var i :| 0 <= i < |list| && list[i] == e;
      assert n[d][i] == e;
    }
    forall e | e in EndpointTable(n) ensures (e in EndpointTable(m) && e.nodeId != d) || e in list {
      var d', i :| d' in n && 0 <= i < |n[d']| && n[d'][i] == e;
      if d' != d { assert m[d'][i] == e; }
    }
  }

  // ---------------------------------------------------------------- owner keys

  const NUL: char := '\0'

  function OwnerKey(n: Id, d: Id): string { n + [NUL] + d }

  /** Two different networks share an owner key for some nodes, which may be any but blank, exactly when one of the
      two identifiers, followed by NUL, is a prefix of the other. */
  lemma OwnerKeyCollides(n: Id, n': Id)
    requires n != n'
    ensures (exists d: Id, d': Id :: OwnerKey(n, d) == OwnerKey(n', d') && !Blank(d) && !Blank(d')) <==>
            n + [NUL] <= n' || n' + [NUL] <= n
  {
    hide Blank;
    if n + [NUL] <= n' { KeyBehind(n, n'); }
    if n' + [NUL] <= n { KeyBehind(n', n); }
    forall d: Id, d': Id | OwnerKey(n, d) == OwnerKey(n', d')
      ensures n + [NUL] <= n' || n' + [NUL] <= n
    {
      PrefixOfKey(n, d, n', d');
    }
  }

  /** The node of network `n` that shares its owner key with node "d" of `n'`. */
  function Shadow(n: Id, n': Id): Id
    requires n + [NUL] <= n'
  {
    n'[|n| + 1..] + [NUL] + "d"
  }

  lemma KeyBehind(n: Id, n': Id)
    requires n + [NUL] <= n'
    ensures OwnerKey(n, Shadow(n, n')) == OwnerKey(n', "d") && !Blank(Shadow(n, n')) && !Blank("d")
    ensures Shadow(n, n') != "d" && Shadow(n, n') != "k" && n != n'
  {
    var d := Shadow(n, n');
    assert n' == n + [NUL] + n'[|n| + 1..];
    assert d[|d| - 1] == 'd' && |d| >= 2 && "d"[0] == 'd';
  }

  lemma PrefixOfKey(n: Id, d: Id, n': Id, d': Id)
    requires OwnerKey(n, d) == OwnerKey(n', d')
    ensures n == n' ==> d == d'
    ensures n != n' ==> n + [NUL] <= n' || n' + [NUL] <= n
  {
    var s := OwnerKey(n, d);
    assert n == s[..|n|] && n' == s[..|n'|];
    assert d == s[|n| + 1..] && d' == s[|n'| + 1..];
    assert s[|n|] == NUL && s[|n'|] == NUL;
    if |n| < |n'| { assert n'[..|n| + 1] == s[..|n| + 1] == n + [NUL]; }
    if |n'| < |n| { assert n[..|n'| + 1] == s[..|n'| + 1] == n' + [NUL]; }
  }

  /** No identifier followed by NUL starts another one. Identifiers free of NUL always qualify. */
  ghost predicate Separable(ids: set<Id>) {
    forall n, n' | n in ids && n' in ids :: !(n + [NUL] <= n')
  }

  lemma NulFreeIsSeparable(ids: set<Id>)
    requires forall n | n in ids :: NUL !in n
    ensures Separable(ids)
  {
    forall n, n' | n in ids && n' in ids ensures !(n + [NUL] <= n') {
      PrefixHasNul(n, n');
    }
  }

  lemma PrefixHasNul(n: Id, n': Id)
    ensures n + [NUL] <= n' ==> NUL in n'
  {
    if n + [NUL] <= n' {
      assert n'[|n|] == (n + [NUL])[|n|];
    }
  }

  lemma OwnerKeyInjective(ids: set<Id>, k: Pair, l: Pair)
    requires Separable(ids) && k.0 in ids && l.0 in ids
    requires OwnerKey(k.0, k.1) == OwnerKey(l.0, l.1)
    ensures k == l
  {
    PrefixOfKey(k.0, k.1, l.0, l.1);
  }

  // ---------------------------------------------------------------- indexes

  ghost predicate KeyIndex(index: map<string, Id>, nodes: map<Id, Node>) {
    && (forall d | d in nodes :: nodes[d].publicKey in index && index[nodes[d].publicKey] == d)
    && (forall p | p in index :: index[p] in nodes && nodes[index[p]].publicKey == p)
  }

  ghost predicate TokenIndex(index: map<string, Id>, invites: map<Id, Invite>) {
    && (forall i | i in invites :: invites[i].tokenHash in index && index[invites[i].tokenHash] == i)
    && (forall h | h in index :: index[h] in invites && invites[index[h]].tokenHash == h)
  }

  ghost predicate OwnerIndex(index: map<Id, string>, relays: map<Pair, Relay>) {
    && (forall k | k in relays :: relays[k].id in index && index[relays[k].id] == OwnerKey(k.0, k.1))
    && (forall a | a in index :: exists k :: k in relays && relays[k].id == a)
  }

  ghost predicate UniqueIds(relays: map<Pair, Relay>) {
    forall k, l | k in relays && l in relays && relays[k].id == relays[l].id :: k == l
  }

  /** The check of the owner index: the id is new or this pair owns it. */
  predicate IndexAdmits(index: map<Id, string>, a: Relay) {
    a.id in index ==> index[a.id] == OwnerKey(a.networkId, a.nodeId)
  }

  /** The index admits an assignment exactly when no row of another pair has its id. */
  lemma OwnerLookup(ids: set<Id>, index: map<Id, string>, relays: map<Pair, Relay>, a: Relay)
    requires OwnerIndex(index, relays) && Separable(ids) && a.networkId in ids
    requires forall k | k in relays :: k.0 in ids
    ensures IndexAdmits(index, a) <==>
            !exists l :: l in relays && l != (a.networkId, a.nodeId) && relays[l].id == a.id
  {
    hide OwnerKey;
    if l :| l in relays && l != (a.networkId, a.nodeId) && relays[l].id == a.id {
      if index[a.id] == OwnerKey(a.networkId, a.nodeId) {
        OwnerKeyInjective(ids, l, (a.networkId, a.nodeId));
      }
    }
    if a.id in index && index[a.id] != OwnerKey(a.networkId, a.nodeId) {
      var k :| k in relays && relays[k].id == a.id;
      assert k != (a.networkId, a.nodeId);
    }
  }

  /** Upserting a row: the id it replaces leaves the index, its own id enters. */
  lemma OwnerPut(index: map<Id, string>, relays: map<Pair, Relay>, a: Relay)
    requires OwnerIndex(index, relays) && UniqueIds(relays)
    requires forall l | l in relays && relays[l].id == a.id :: l == (a.networkId, a.nodeId)
    ensures var k := (a.networkId, a.nodeId);
            var trimmed := if k in relays && relays[k].id != a.id then index - {relays[k].id} else index;
            OwnerIndex(trimmed[a.id := OwnerKey(a.networkId, a.nodeId)], relays[k := a])
  {
    hide OwnerKey;
    var k := (a.networkId, a.nodeId);
    var trimmed := if k in relays && relays[k].id != a.id then index - {relays[k].id} else index;
    var index', relays' := trimmed[a.id := OwnerKey(a.networkId, a.nodeId)], relays[k := a];
    forall l | l in relays' ensures relays'[l].id in index' && index'[relays'[l].id] == OwnerKey(l.0, l.1) {
      if l != k { assert relays'[l] == relays[l]; }
    }
    forall b | b in index' ensures exists l :: l in relays' && relays'[l].id == b {
      if b == a.id {
        assert relays'[k].id == b;
      } else {
        var l :| l in relays && relays[l].id == b;
        assert l != k && relays'[l].id == b;
      }
    }
  }

  /** Dropping rows together with their ids. */
  lemma OwnerDrop(index: map<Id, string>, relays: map<Pair, Relay>, index': map<Id, string>, relays': map<Pair, Relay>)
    requires OwnerIndex(index, relays) && UniqueIds(relays)
    requires forall k | k in relays' :: k in relays && relays'[k] == relays[k]
    requires index' == index - (set k | k in relays && k !in relays' :: relays[k].id)
    ensures OwnerIndex(index', relays') && UniqueIds(relays')
  {
    hide OwnerKey;
    forall b | b in index' ensures exists l :: l in relays' && relays'[l].id == b {
      var l :| l in relays && relays[l].id == b;
      assert l in relays';
    }
  }

  lemma OwnerDropOne(index: map<Id, string>, relays: map<Pair, Relay>, k: Pair)
    requires OwnerIndex(index, relays) && UniqueIds(relays) && k in relays
    ensures OwnerIndex(index - {relays[k].id}, relays - {k}) && UniqueIds(relays - {k})
  {
    hide OwnerKey;
    assert (set l | l in relays && l !in relays - {k} :: relays[l].id) == {relays[k].id};
    OwnerDrop(index, relays, index - {relays[k].id}, relays - {k});
  }

  lemma IdsWithout(rows: map<Id, Relay>, d: Id)
    requires d in rows
    ensures (set x | x in rows :: rows[x].id) == (set x | x in rows - {d} :: (rows - {d})[x].id) + {rows[d].id}
  {
    var rest := rows - {d};
    forall x | x in rows ensures rows[x].id in (set y | y in rest :: rest[y].id) + {rows[d].id} {
      if x != d { assert rest[x] == rows[x]; }
    }
  }

  /** The ids of a whole group are the ids of the rows that go with it. */
  lemma GroupIds(relays: map<Pair, Relay>, n: Id, rows: map<Id, Relay>, left: map<Pair, Relay>)
    requires forall d | d in rows :: (n, d) in relays && relays[(n, d)] == rows[d]
    requires forall k | k in relays && k.0 == n :: k.1 in rows
    requires left == map k | k in relays && k.0 != n :: relays[k]
    ensures (set k | k in relays && k !in left :: relays[k].id) == (set d | d in rows :: rows[d].id)
  {
    var a, b := (set k | k in relays && k !in left :: relays[k].id), (set d | d in rows :: rows[d].id);
    forall id | id in a ensures id in b {
      var k :| k in relays && k !in left && relays[k].id == id;
      assert k == (n, k.1) && k.1 in rows;
    }
    forall id | id in b ensures id in a {
      var d :| d in rows && rows[d].id == id;
      assert (n, d) in relays && (n, d) !in left;
    }
  }

  // ---------------------------------------------------------------- pruning one by one

  /** The rows left when the assignments of network n that involve d are gone, except those still to visit. */
  ghost function Pruned(relays: map<Pair, Relay>, n: Id, d: Id, rest: set<Id>): map<Pair, Relay> {
    map k | k in relays && !(k.0 == n && k.1 !in rest && Involves(relays[k], d)) :: relays[k]
  }

  lemma PruneStart(relays: map<Pair, Relay>, n: Id, d: Id, rest: set<Id>)
    requires forall k | k in relays :: relays[k].nodeId == k.1
    requires forall k | k in relays && k.0 == n && k.1 != d :: k.1 in rest
    requires d !in rest
    ensures relays - {(n, d)} == Pruned(relays, n, d, rest)
  {
  }

  lemma PrunedFully(relays: map<Pair, Relay>, n: Id, d: Id)
    ensures Pruned(relays, n, d, {}) == map k | k in relays && !(k.0 == n && Involves(relays[k], d)) :: relays[k]
  {
    hide Involves;
  }

  lemma PruneStep(relays: map<Pair, Relay>, n: Id, d: Id, rest: set<Id>, x: Id)
    requires x in rest && (n, x) in relays
    ensures (if Involves(relays[(n, x)], d) then Pruned(relays, n, d, rest) - {(n, x)} else Pruned(relays, n, d, rest))
            == Pruned(relays, n, d, rest - {x})
  {
    hide Involves;
    var p, q := Pruned(relays, n, d, rest), Pruned(relays, n, d, rest - {x});
    forall k: Pair ensures k in q <==> k in p && !(k == (n, x) && Involves(relays[(n, x)], d)) {
    }
  }

  lemma PruneNone(relays: map<Pair, Relay>, n: Id, d: Id, rest: set<Id>)
    requires forall k | k in relays && k.0 == n :: k.1 in rest
    ensures Pruned(relays, n, d, rest) == relays
  {
    hide Involves;
  }

  lemma AffectedStep(members: map<Pair, Membership>, d: Id, rest: set<Id>, n: Id)
    requires n in rest
    ensures (set k | k in members && k.1 == d && k.0 !in rest - {n} :: k.0)
            == (set k | k in members && k.1 == d && k.0 !in rest :: k.0) + (if (n, d) in members then {n} else {})
  {
    var a := set k | k in members && k.1 == d && k.0 !in rest - {n} :: k.0;
    var b := set k | k in members && k.1 == d && k.0 !in rest :: k.0;
    if (n, d) in members { assert (n, d).0 in a; }
    forall x | x in a && x !in b ensures x == n && (n, d) in members {
      var k :| k in members && k.1 == d && k.0 !in rest - {n} && k.0 == x;
      assert k == (n, d);
    }
  }

  lemma RelayAffectedStep(relays: map<Pair, Relay>, d: Id, rest: set<Id>, n: Id)
    requires n in rest
    ensures var pruned := WithoutRelays(relays, d, rest);
            (set k | k in relays && Involves(relays[k], d) && k.0 !in rest - {n} :: k.0)
            == (set k | k in relays && Involves(relays[k], d) && k.0 !in rest :: k.0)
               + (if exists k :: k in pruned && k.0 == n && Involves(pruned[k], d) then {n} else {})
  {
    hide Involves;
    var pruned := WithoutRelays(relays, d, rest);
    var a, b := (set k | k in relays && Involves(relays[k], d) && k.0 !in rest - {n} :: k.0),
                (set k | k in relays && Involves(relays[k], d) && k.0 !in rest :: k.0);
    if k :| k in pruned && k.0 == n && Involves(pruned[k], d) {
      assert k in relays && k.0 in a;
    }
    forall x | x in a && x !in b ensures exists k :: k in pruned && k.0 == n && x == n && Involves(pruned[k], d) {
      var k :| k in relays && Involves(relays[k], d) && k.0 !in rest - {n} && k.0 == x;
      assert k in pruned;
    }
  }

  /** The rows left when every assignment that involves d is gone, except in networks still to visit. */
  ghost function WithoutRelays(relays: map<Pair, Relay>, d: Id, rest: set<Id>): map<Pair, Relay> {
    map k | k in relays && !(Involves(relays[k], d) && k.0 !in rest) :: relays[k]
  }

  lemma WithoutRelaysStep(relays: map<Pair, Relay>, d: Id, rest: set<Id>, n: Id)
    requires n in rest
    ensures Pruned(WithoutRelays(relays, d, rest), n, d, {}) == WithoutRelays(relays, d, rest - {n})
    ensures forall k | k in relays && k.0 == n :: k in WithoutRelays(relays, d, rest)
  {
    hide Involves;
  }

  lemma WithoutRelaysEnds(relays: map<Pair, Relay>, d: Id, all: set<Id>)
    requires forall k | k in relays :: k.0 in all
    ensures WithoutRelays(relays, d, all) == relays
    ensures WithoutRelays(relays, d, {}) == map k | k in relays && !Involves(relays[k], d) :: relays[k]
  {
    hide Involves;
  }

  /** The memberships left when those of node d are gone, except in networks still to visit. */
  ghost function WithoutMember(members: map<Pair, Membership>, d: Id, rest: set<Id>): map<Pair, Membership> {
    map k | k in members && !(k.1 == d && k.0 !in rest) :: members[k]
  }

  lemma WithoutMemberStep(members: map<Pair, Membership>, d: Id, rest: set<Id>, n: Id)
    requires n in rest
    ensures WithoutMember(members, d, rest) - {(n, d)} == WithoutMember(members, d, rest - {n})
    ensures (n, d) in WithoutMember(members, d, rest) <==> (n, d) in members
    ensures (n, d) !in members ==> WithoutMember(members, d, rest) == WithoutMember(members, d, rest - {n})
  {
    var a, b := WithoutMember(members, d, rest), WithoutMember(members, d, rest - {n});
    forall k: Pair ensures k in a && k != (n, d) <==> k in b {
      if k.0 == n && k.1 == d { assert k == (n, d); }
    }
  }

  lemma WithoutMemberEnds(members: map<Pair, Membership>, d: Id, all: set<Id>)
    requires forall k | k in members :: k.0 in all
    ensures WithoutMember(members, d, all) == members
    ensures WithoutMember(members, d, {}) == map k | k in members && k.1 != d :: members[k]
  {
  }

  // ---------------------------------------------------------------- the key and token indexes

  lemma KeyLookup(index: map<string, Id>, nodes: map<Id, Node>, p: string)
    requires KeyIndex(index, nodes)
    ensures p in index <==> exists d :: d in nodes && nodes[d].publicKey == p
  {
  }

  lemma KeyPut(index: map<string, Id>, nodes: map<Id, Node>, node: Node)
    requires KeyIndex(index, nodes) && node.id !in nodes && node.publicKey !in index
    ensures KeyIndex(index[node.publicKey := node.id], nodes[node.id := node])
  {
  }

  lemma KeyRewrite(index: map<string, Id>, nodes: map<Id, Node>, d: Id, node: Node)
    requires KeyIndex(index, nodes) && d in nodes && node.publicKey == nodes[d].publicKey
    ensures KeyIndex(index, nodes[d := node])
  {
  }

  lemma KeyDrop(index: map<string, Id>, nodes: map<Id, Node>, d: Id)
    requires KeyIndex(index, nodes) && d in nodes
    ensures KeyIndex(index - {nodes[d].publicKey}, nodes - {d})
  {
  }

  lemma TokenLookup(index: map<string, Id>, invites: map<Id, Invite>, h: string)
    requires TokenIndex(index, invites)
    ensures h in index <==> exists i :: i in invites && invites[i].tokenHash == h
  {
  }

  lemma TokenTargets(index: map<string, Id>, invites: map<Id, Invite>)
    requires TokenIndex(index, invites)
    ensures forall h | h in index :: index[h] in invites
  {
  }

  lemma TokenPut(index: map<string, Id>, invites: map<Id, Invite>, v: Invite)
    requires TokenIndex(index, invites) && v.id !in invites && v.tokenHash !in index
    ensures TokenIndex(index[v.tokenHash := v.id], invites[v.id := v])
  {
  }

  lemma TokenRewrite(index: map<string, Id>, invites: map<Id, Invite>, i: Id, v: Invite)
    requires TokenIndex(index, invites) && i in invites && v.tokenHash == invites[i].tokenHash
    ensures TokenIndex(index, invites[i := v])
  {
  }

  lemma TokenForget(index: map<string, Id>, invites: map<Id, Invite>, d: Id)
    requires TokenIndex(index, invites)
    ensures TokenIndex(index, map i | i in invites :: ForgetConsumer(invites[i], d))
  {
  }

  lemma EmptyStore()
    ensures Flat<Membership>(map[]) == map[] && Flat<Relay>(map[]) == map[] && EndpointTable(map[]) == {}
    ensures KeyIndex(map[], map[]) && TokenIndex(map[], map[]) && OwnerIndex(map[], map[])
    ensures OwnRows(map[]) && Separable({})
  {
  }

  // ---------------------------------------------------------------- consuming through the token index

  /** inviteByLookupLocked. */
  function Lookup(invites: map<Id, Invite>, index: map<string, Id>, key: Id, tokenHash: string): Option<Id>
    requires forall h | h in index :: index[h] in invites
  {
    if key in invites then
      if invites[key].tokenHash == tokenHash then Some(key) else None
    else if tokenHash in index && invites[index[tokenHash]].networkId == key then Some(index[tokenHash])
    else None
  }

  /** The index lookup finds exactly the row the SQL predicate selects. */
  lemma LookupIsMatch(db: Db, index: map<string, Id>, key: Id, tokenHash: string)
    requires TokenIndex(index, db.invites)
    ensures var r := Lookup(db.invites, index, key, tokenHash);
            forall i | i in db.invites :: Matches(db, key, tokenHash, i) <==> r == Some(i)
    ensures Lookup(db.invites, index, key, tokenHash).Some? ==>
              Lookup(db.invites, index, key, tokenHash).value in db.invites
  {
  }

  /** Checks in the order the memory repository makes them. */
  function ConsumeError(v: Invite, at: Time): Outcome {
    if v.consumedAt.Some? then Failed(InviteConsumed)
    else if v.revokedAt.Some? then Failed(InviteRevoked)
    else if at >= v.expiresAt then Failed(InviteExpired)
    else if at < v.createdAt then Failed(Validation)
    else Done
  }

  /** On a sound invite the conditional UPDATE and its classification give what the step-by-step checks
      give, although the two test expiry and creation time in opposite orders. */
  lemma ConsumeAgrees(db: Db, key: Id, tokenHash: string, at: Time, consumer: Id, i: Id)
    requires InvitesOk(db) && i in db.invites && Matches(db, key, tokenHash, i)
    requires consumer == "" || consumer in db.nodes
    ensures var r := ConsumeInvite(db, key, tokenHash, at, consumer);
            var e := ConsumeError(db.invites[i], at);
            && r.outcome == e
            && r.db == if e == Done
                       then db.(invites := db.invites[i := db.invites[i].(consumedAt := Some(at),
                                                                          consumedBy := consumer)])
                       else db
  {
    assert InviteOk(db, i, db.invites[i]);
    forall j | j in db.invites && Matches(db, key, tokenHash, j) ensures j == i {
    }
    assert Consumable(db, key, tokenHash, at, i) <==> ConsumeError(db.invites[i], at) == Done;
    if ConsumeError(db.invites[i], at) == Done {
      Constraints.ConsumeRewritesOne(db, key, tokenHash, at, consumer, i);
    } else {
      assert !exists j :: j in db.invites && Consumable(db, key, tokenHash, at, j);
    }
  }

  lemma ConsumeMisses(db: Db, key: Id, tokenHash: string, at: Time, consumer: Id)
    requires forall i | i in db.invites :: !Matches(db, key, tokenHash, i)
    ensures ConsumeInvite(db, key, tokenHash, at, consumer) == Result(Failed(NotFound), db)
  {
  }

  /** The last branch of the SQL path explains nothing that can happen. */
  lemma ConsumeNeverConflicts(db: Db, key: Id, tokenHash: string, at: Time, consumer: Id)
    requires InvitesOk(db)
    ensures ConsumeInvite(db, key, tokenHash, at, consumer).outcome != Failed(Conflict)
  {
    if consumer == "" || consumer in db.nodes {
      if i :| i in db.invites && Matches(db, key, tokenHash, i) {
        ConsumeAgrees(db, key, tokenHash, at, consumer, i);
      } else {
        ConsumeMisses(db, key, tokenHash, at, consumer);
      }
    }
  }

  // ---------------------------------------------------------------- bumping one by one

  lemma BumpNone(networks: map<Id, Network>)
    ensures BumpAll(networks, {}) == networks
  {
    hide Bump;
  }

  lemma BumpOneMore(networks: map<Id, Network>, done: set<Id>, n: Id)
    requires n in networks && n !in done
    ensures n in BumpAll(networks, done)
    ensures var bumped := BumpAll(networks, done);
            bumped[n := bumped[n].(configVersion := Bump(bumped[n].configVersion))] == BumpAll(networks, done + {n})
  {
    hide Bump;
  }
}
