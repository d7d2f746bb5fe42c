/** The explicit row locks of the PostgreSQL repository and the order in which every mutation takes
    them (internal/db/postgres.go). */
module Locks {
  import opened Text

  datatype Row = NodeRow(id: Id) | NetworkRow(id: Id) | AssignmentRow(id: Id)

  // ---------------------------------------------------------------- the order of rows

  function Rank(r: Row): nat {
    match r
    case NodeRow(_) => 0
    case NetworkRow(_) => 1
    case AssignmentRow(_) => 2
  }

  predicate Below(a: Row, b: Row) {
    Rank(a) < Rank(b) || (Rank(a) == Rank(b) && Less(a.id, b.id))
  }

  lemma BelowIrreflexive(a: Row)
    ensures !Below(a, a)
  {
    LessIrreflexive(a.id);
  }

  lemma BelowTransitive(a: Row, b: Row, c: Row)
    requires Below(a, b) && Below(b, c)
    ensures Below(a, c)
  {
    hide Less;
    if Rank(a) == Rank(c) { LessTransitive(a.id, b.id, c.id); }
  }

  lemma BelowTotal(a: Row, b: Row)
    ensures a == b || Below(a, b) || Below(b, a)
  {
    hide Less;
    LessTotal(a.id, b.id);
  }

  // ---------------------------------------------------------------- sortedUniqueStrings

  /** Sorts a copy and then compacts it in place; what is left is each string once, in order. */
  method SortedUnique(values: seq<string>) returns (r: seq<string>)
    ensures r == InOrder(Elements(values))
  {
    hide Less, Sort, InOrder;
    var sorted := Sort(values);
    var a := new string[|sorted|](i requires 0 <= i < |sorted| => sorted[i]);
    var n := 0;
    for i := 0 to a.Length
      invariant n <= i && (n == 0 <==> i == 0)
      invariant forall k | i <= k < a.Length :: a[k] == sorted[k]
      invariant n > 0 ==> a[n - 1] == sorted[i - 1]
      invariant Ascending(a[..n])
      invariant forall x :: x in a[..n] <==> x in sorted[..i]
    {
      var value := a[i];
      assert sorted[..i + 1] == sorted[..i] + [value];
      if n == 0 || a[n - 1] != value {
        if n > 0 { NextIsAbove(a[..n], sorted[i - 1], value); }
        ghost var before := a[..n];
        a[n] := value;
        assert a[..n + 1] == before + [value];
        n := n + 1;
      }
    }
    r := a[..n];
    SameElements(values, sorted);
    assert sorted[..a.Length] == sorted;
    AscendingUnique(r, InOrder(Elements(values)));
  }

  /** A larger value keeps the list ascending. */
  lemma NextIsAbove(s: seq<string>, last: string, value: string)
    requires Ascending(s) && s != [] && s[|s| - 1] == last && Less(last, value)
    ensures Ascending(s + [value])
  {
    hide Less;
    forall i | 0 <= i < |s|
      ensures Less(s[i], value)
    {
      if i < |s| - 1 { LessTransitive(s[i], last, value); }
    }
  }

  lemma SameElements(s: seq<string>, r: seq<string>)
    requires multiset(r) == multiset(s)
    ensures forall x :: x in r <==> x in s
  {
    forall x
      ensures x in r <==> x in s
    {
      assert x in multiset(r) <==> x in multiset(s);
    }
  }

  // ---------------------------------------------------------------- lock plans

  /** Every row asked for is held already or lies above all rows held. */
  ghost predicate Climbs(plan: seq<Row>) {
    forall i | 0 <= i < |plan| :: plan[i] in plan[..i] || AboveAll(plan[i], plan[..i])
  }

  ghost predicate AboveAll(r: Row, held: seq<Row>) {
    forall j | 0 <= j < |held| :: Below(held[j], r)
  }

  function NodeRows(ids: seq<Id>): seq<Row> { seq(|ids|, i requires 0 <= i < |ids| => NodeRow(ids[i])) }

  function NetworkRows(ids: seq<Id>): seq<Row> { seq(|ids|, i requires 0 <= i < |ids| => NetworkRow(ids[i])) }

  /** The mutations, with what they read while they run: any list of ids at all. */
  datatype Operation =
    | RemoveNode(node: Id, affected: seq<Id>)
    | AddMembership(network: Id, node: Id)
    | RemoveMembership(network: Id, node: Id)
    | CreateInvite(network: Id, consumer: Id)
    | ConsumeInvite(consumer: Id)
    | ReplaceEndpoints(node: Id, networks: seq<Id>)
    | SetRelayAssignment(network: Id, node: Id, relayNode: Id, assignment: Id, conflicting: bool)
    | RemoveRelayAssignment(network: Id, nodes: seq<Id>)
    | Enroll(network: Id, node: Id, attempts: nat)

  ghost function LockNodes(ids: seq<Id>): seq<Row> { NodeRows(InOrder(Elements(ids))) }

  ghost function LockNetworks(ids: seq<Id>): seq<Row> { NetworkRows(InOrder(Elements(ids))) }

  /** The membership attempts of one enrolment: each locks the node and the network again. */
  function Attempts(network: Id, node: Id, n: nat): seq<Row> {
    if n == 0 then [] else Attempts(network, node, n - 1) + [NodeRow(node), NetworkRow(network), NetworkRow(network)]
  }

  /** The rows one transaction asks for, in order; version increments ask again for rows already held. */
  ghost function PlanOf(op: Operation): seq<Row> {
    match op
    case RemoveNode(node, affected) => LockNodes([node]) + LockNetworks(affected) + NetworkRows(affected)
    case AddMembership(network, node) => LockNodes([node]) + [NetworkRow(network)] + [NetworkRow(network)]
    case RemoveMembership(network, node) => LockNodes([node]) + LockNetworks([network]) + [NetworkRow(network)]
    case CreateInvite(network, consumer) =>
      (if consumer == "" then [] else LockNodes([consumer])) + LockNetworks([network])
    case ConsumeInvite(consumer) => if consumer == "" then [] else LockNodes([consumer])
    case ReplaceEndpoints(node, networks) => LockNodes([node]) + LockNetworks(networks)
    case SetRelayAssignment(network, node, relayNode, assignment, conflicting) =>
      LockNodes([node, relayNode]) + LockNetworks([network])
      + (if conflicting then [AssignmentRow(assignment)] else []) + [NetworkRow(network)]
    case RemoveRelayAssignment(network, nodes) => LockNodes(nodes) + LockNetworks([network]) + [NetworkRow(network)]
    case Enroll(network, node, attempts) => LockNodes([node]) + Attempts(network, node, attempts)
  }

  /** What may follow a climbing plan: rows it holds, or a climbing plan above it. */
  lemma ClimbOn(p: seq<Row>, q: seq<Row>)
    requires Climbs(p) && Climbs(q)
    requires forall j | 0 <= j < |q| :: q[j] in p || AboveAll(q[j], p)
    ensures Climbs(p + q)
  {
    hide Below;
    forall i | 0 <= i < |p + q|
      ensures (p + q)[i] in (p + q)[..i] || AboveAll((p + q)[i], (p + q)[..i])
    {
      if i < |p| {
        assert (p + q)[..i] == p[..i];
      } else {
        var j := i - |p|;
        assert (p + q)[..i] == p + q[..j];
        assert q[j] in q[..j] || AboveAll(q[j], q[..j]);
      }
    }
  }

  lemma HeldAgain(p: seq<Row>, q: seq<Row>)
    requires Climbs(p) && forall j | 0 <= j < |q| :: q[j] in p
    ensures Climbs(p + q)
    decreases |q|
  {
    hide Below;
    forall i | 0 <= i < |p + q|
      ensures (p + q)[i] in (p + q)[..i] || AboveAll((p + q)[i], (p + q)[..i])
    {
      if i < |p| {
        assert (p + q)[..i] == p[..i];
      } else {
        assert (p + q)[..i] == p + q[..i - |p|];
      }
    }
  }

  lemma NodesClimb(ids: seq<Id>)
    ensures Climbs(LockNodes(ids)) && forall i | 0 <= i < |LockNodes(ids)| :: LockNodes(ids)[i].NodeRow?
  {
    hide Less;
  }

  lemma NetworksClimb(ids: seq<Id>)
    ensures Climbs(LockNetworks(ids)) && forall i | 0 <= i < |LockNetworks(ids)| :: LockNetworks(ids)[i].NetworkRow?
    ensures forall id | id in ids :: NetworkRow(id) in LockNetworks(ids)
  {
    hide Less;
    var order := InOrder(Elements(ids));
    forall id | id in ids
      ensures NetworkRow(id) in LockNetworks(ids)
    {
      assert id in Elements(order);
      var i :| 0 <= i < |order| && order[i] == id;
      assert LockNetworks(ids)[i] == NetworkRow(id);
    }
  }

  lemma RowsOfKind(p: seq<Row>, q: seq<Row>)
    requires Climbs(p) && Climbs(q)
    requires forall i, j | 0 <= i < |p| && 0 <= j < |q| :: Rank(p[i]) < Rank(q[j])
    ensures Climbs(p + q)
  {
    hide Less;
    forall j | 0 <= j < |q|
      ensures AboveAll(q[j], p)
    {
    }
    ClimbOn(p, q);
  }

  lemma OneClimbs(r: Row)
    ensures Climbs([r])
  {
  }

  lemma OneNode(id: Id)
    ensures LockNodes([id]) == [NodeRow(id)]
  {
    hide Less, InOrder;
    assert Ascending([id]) && Elements([id]) == {id};
    AscendingUnique(InOrder(Elements([id])), [id]);
  }

  /** One more membership attempt: rows held already, and the network the first time. */
  lemma AttemptClimbs(past: seq<Row>, first: Row, net: Row)
    requires Climbs(past) && first in past && Below(first, net) && forall r | r in past :: r == first || r == net
    ensures Climbs(past + [first] + [net] + [net])
  {
    hide Below, Climbs;
    HeldAgain(past, [first]);
    if net in past {
      HeldAgain(past + [first], [net]);
    } else {
      OneClimbs(net);
      forall j | 0 <= j < |past + [first]|
        ensures Below((past + [first])[j], net)
      {
        if j < |past| { assert past[j] in past; }
      }
      ClimbOn(past + [first], [net]);
    }
    assert (past + [first] + [net])[|past| + 1] == net;
    HeldAgain(past + [first] + [net], [net]);
  }

  lemma {:induction false} AttemptsHold(network: Id, node: Id, n: nat)
    ensures Climbs([NodeRow(node)] + Attempts(network, node, n))
    ensures forall r | r in Attempts(network, node, n) :: r == NodeRow(node) || r == NetworkRow(network)
  {
    hide Less, Climbs;
    var first, net := NodeRow(node), NetworkRow(network);
    if n == 0 {
      assert [first] + [] == [first];
      OneClimbs(first);
    } else {
      var past := [first] + Attempts(network, node, n - 1);
      AttemptsHold(network, node, n - 1);
      assert past[0] == first;
      AttemptClimbs(past, first, net);
      assert [first] + Attempts(network, node, n) == past + [first] + [net] + [net];
    }
  }

  /** Every mutation climbs, whatever it reads on the way. */
  lemma PlansClimb(op: Operation)
    ensures Climbs(PlanOf(op))
  {
    hide Climbs, LockNodes, LockNetworks, Below;
    match op
    case RemoveNode(node, affected) =>
      NodesThenNetworks([node], affected);
      HeldAgain(LockNodes([node]) + LockNetworks(affected), NetworkRows(affected));
    case AddMembership(network, node) =>
      NodesClimb([node]);
      OneClimbs(NetworkRow(network));
      RowsOfKind(LockNodes([node]), [NetworkRow(network)]);
      HeldAgain(LockNodes([node]) + [NetworkRow(network)], [NetworkRow(network)]);
    case RemoveMembership(network, node) =>
      NodesThenNetworks([node], [network]);
      HeldAgain(LockNodes([node]) + LockNetworks([network]), [NetworkRow(network)]);
    case CreateInvite(network, consumer) =>
      NodesThenNetworks([consumer], [network]);
      NetworksClimb([network]);
      assert [] + LockNetworks([network]) == LockNetworks([network]);
    case ConsumeInvite(consumer) =>
      NodesClimb([consumer]);
      NothingClimbs();
    case ReplaceEndpoints(node, networks) =>
      NodesThenNetworks([node], networks);
    case SetRelayAssignment(network, node, relayNode, assignment, conflicting) =>
      NodesThenNetworks([node, relayNode], [network]);
      var p := LockNodes([node, relayNode]) + LockNetworks([network]);
      var q := if conflicting then [AssignmentRow(assignment)] else [];
      OneClimbs(AssignmentRow(assignment));
      NothingClimbs();
      RowsOfKind(p, q);
      HeldAgain(p + q, [NetworkRow(network)]);
    case RemoveRelayAssignment(network, nodes) =>
      NodesThenNetworks(nodes, [network]);
      HeldAgain(LockNodes(nodes) + LockNetworks([network]), [NetworkRow(network)]);
    case Enroll(network, node, attempts) =>
      OneNode(node);
      AttemptsHold(network, node, attempts);
  }

  lemma NothingClimbs()
    ensures Climbs([])
  {
  }

  lemma NodesThenNetworks(nodes: seq<Id>, networks: seq<Id>)
    ensures var p := LockNodes(nodes) + LockNetworks(networks);
            && Climbs(p)
            && (forall id | id in networks :: NetworkRow(id) in p)
            && (forall i | 0 <= i < |p| :: Rank(p[i]) < 2)
  {
    hide Climbs, LockNodes, LockNetworks, Below;
    NodesClimb(nodes);
    NetworksClimb(networks);
    RowsOfKind(LockNodes(nodes), LockNetworks(networks));
  }

  // ---------------------------------------------------------------- concurrent transactions

  /** A transaction holds the first `taken` rows of its plan. */
  datatype Txn = Txn(plan: seq<Row>, taken: nat) {
    predicate Done() { taken >= |plan| }

    function Wanted(): Row
      requires !Done()
    {
      plan[taken]
    }
  }

  datatype Sys = Sys(txns: map<nat, Txn>, owner: map<Row, nat>)

  datatype Event = Arrive(t: nat, op: Operation) | Acquire(t: nat) | Finish(t: nat) | Abort(t: nat)

  const Quiet := Sys(map[], map[])

  /** A row can be taken when nobody else holds it. */
  predicate Enabled(s: Sys, e: Event) {
    match e
    case Arrive(t, _) => t !in s.txns
    case Acquire(t) =>
      && t in s.txns && !s.txns[t].Done()
      && (s.txns[t].Wanted() in s.owner ==> s.owner[s.txns[t].Wanted()] == t)
    case Finish(t) => t in s.txns && s.txns[t].Done()
    case Abort(t) => t in s.txns
  }

  function Released(s: Sys, t: nat): Sys {
    Sys(s.txns - {t}, map r | r in s.owner && s.owner[r] != t :: s.owner[r])
  }

  ghost function Step(s: Sys, e: Event): Sys
    requires Enabled(s, e)
  {
    match e
    case Arrive(t, op) => s.(txns := s.txns[t := Txn(PlanOf(op), 0)])
    case Acquire(t) => Sys(s.txns[t := s.txns[t].(taken := s.txns[t].taken + 1)], s.owner[s.txns[t].Wanted() := t])
    case Finish(t) => Released(s, t)
    case Abort(t) => Released(s, t)
  }

  ghost predicate TxnOk(s: Sys, t: nat)
    requires t in s.txns
  {
    var x := s.txns[t];
    && x.taken <= |x.plan| && Climbs(x.plan)
    && forall i | 0 <= i < x.taken :: x.plan[i] in s.owner && s.owner[x.plan[i]] == t
  }

  /** Each transaction owns what it has taken, and owners have taken what they own. */
  ghost predicate Consistent(s: Sys) {
    && (forall t | t in s.txns :: TxnOk(s, t))
    && (forall r | r in s.owner :: s.owner[r] in s.txns && r in s.txns[s.owner[r]].plan[..Min(s.txns[s.owner[r]])])
  }

  function Min(x: Txn): nat { if x.taken <= |x.plan| then x.taken else |x.plan| }

  lemma ArriveKeeps(s: Sys, t: nat, op: Operation)
    requires Consistent(s) && Enabled(s, Arrive(t, op))
    ensures Consistent(Step(s, Arrive(t, op)))
  {
    hide Climbs, PlanOf;
    PlansClimb(op);
    var s' := Step(s, Arrive(t, op));
    forall u | u in s'.txns
      ensures TxnOk(s', u)
    {
      if u != t { assert TxnOk(s, u); }
    }
  }

  lemma AcquireKeeps(s: Sys, t: nat)
    requires Consistent(s) && Enabled(s, Acquire(t))
    ensures Consistent(Step(s, Acquire(t)))
  {
    hide Climbs, PlanOf;
    var s' := Step(s, Acquire(t));
    var r0 := s.txns[t].Wanted();
    forall u | u in s'.txns
      ensures TxnOk(s', u)
    {
      assert TxnOk(s, u);
    }
    assert TxnOk(s, t);
    assert s'.txns[t].plan[..s'.txns[t].taken] == s.txns[t].plan[..s.txns[t].taken] + [r0];
  }

  lemma ReleaseKeeps(s: Sys, t: nat)
    requires Consistent(s) && t in s.txns
    ensures Consistent(Released(s, t))
  {
    hide Climbs, PlanOf;
    var s' := Released(s, t);
    forall u | u in s'.txns
      ensures TxnOk(s', u)
    {
      assert TxnOk(s, u);
    }
  }

  lemma StepKeeps(s: Sys, e: Event)
    requires Consistent(s) && Enabled(s, e)
    ensures Consistent(Step(s, e))
  {
    hide Consistent, PlanOf;
    match e
    case Arrive(t, op) => ArriveKeeps(s, t, op);
    case Acquire(t) => AcquireKeeps(s, t);
    case Finish(t) => ReleaseKeeps(s, t);
    case Abort(t) => ReleaseKeeps(s, t);
  }

  /** Running a sequence of events, as long as each is enabled in its turn. */
  ghost function After(s: Sys, events: seq<Event>): Option<Sys> {
    if events == [] then Some(s)
    else match After(s, events[..|events| - 1])
      case None => None
      case Some(x) => if Enabled(x, events[|events| - 1]) then Some(Step(x, events[|events| - 1])) else None
  }

  lemma {:induction false} RunKeeps(s: Sys, events: seq<Event>)
    requires Consistent(s)
    ensures After(s, events).Some? ==> Consistent(After(s, events).value)
  {
    hide Consistent, Step, Enabled;
    if events != [] {
      var past, e := events[..|events| - 1], events[|events| - 1];
      RunKeeps(s, past);
      var x := After(s, past);
      if x.Some? && Enabled(x.value, e) { StepKeeps(x.value, e); }
    }
  }

  // ---------------------------------------------------------------- no deadlock

  predicate Waiting(s: Sys, t: nat) { t in s.txns && !s.txns[t].Done() }

  /** `t` wants a row that `u` holds. */
  predicate WaitsFor(s: Sys, t: nat, u: nat) {
    Waiting(s, t) && t != u && s.txns[t].Wanted() in s.owner && s.owner[s.txns[t].Wanted()] == u
  }

  /** Whoever holds a row and waits, waits for a higher one. */
  lemma WaitsClimb(s: Sys, t: nat, u: nat)
    requires Consistent(s) && WaitsFor(s, t, u) && Waiting(s, u)
    requires !Enabled(s, Acquire(u))
    ensures Below(s.txns[t].Wanted(), s.txns[u].Wanted())
  {
    hide Below;
    assert TxnOk(s, u);
    var y := s.txns[u];
    var r := s.txns[t].Wanted();
    assert r in y.plan[..y.taken];
    assert y.plan[y.taken] in y.plan[..y.taken] || AboveAll(y.plan[y.taken], y.plan[..y.taken]);
  }

  ghost predicate WaitPath(s: Sys, p: seq<nat>) {
    forall i, j | 0 <= i < |p| - 1 && j == i + 1 :: WaitsFor(s, p[i], p[j])
  }

  lemma {:induction false} PathClimbs(s: Sys, p: seq<nat>)
    requires Consistent(s) && |p| >= 2 && WaitPath(s, p)
    requires !Enabled(s, Acquire(p[|p| - 1])) && Waiting(s, p[|p| - 1])
    ensures Waiting(s, p[0])
    ensures Below(s.txns[p[0]].Wanted(), s.txns[p[|p| - 1]].Wanted())
  {
    hide Below, Consistent;
    assert WaitsFor(s, p[0], p[1]);
    if |p| == 2 {
      WaitsClimb(s, p[0], p[1]);
    } else {
      assert WaitsFor(s, p[1], p[2]);
      WaitsClimb(s, p[0], p[1]);
      forall i, j | 0 <= i < |p[1..]| - 1 && j == i + 1
        ensures WaitsFor(s, p[1..][i], p[1..][j])
      {
        assert WaitsFor(s, p[i + 1], p[j + 1]);
      }
      PathClimbs(s, p[1..]);
      BelowTransitive(s.txns[p[0]].Wanted(), s.txns[p[1]].Wanted(), s.txns[p[|p| - 1]].Wanted());
    }
  }

  /** In no reachable state is there a cycle of transactions that wait for each other. */
  lemma NoDeadlock(events: seq<Event>, cycle: seq<nat>)
    requires After(Quiet, events).Some? && |cycle| >= 2 && cycle[0] == cycle[|cycle| - 1]
    ensures !WaitPath(After(Quiet, events).value, cycle)
  {
    hide Below, Consistent, After;
    QuietIsConsistent();
    RunKeeps(Quiet, events);
    var s := After(Quiet, events).value;
    if WaitPath(s, cycle) {
      assert WaitsFor(s, cycle[0], cycle[1]);
      PathClimbs(s, cycle);
      BelowIrreflexive(s.txns[cycle[0]].Wanted());
    }
  }

  lemma QuietIsConsistent()
    ensures Consistent(Quiet)
  {
  }

  // ---------------------------------------------------------------- everybody finishes

  lemma {:induction false} HighestRow(rows: set<Row>) returns (m: Row)
    requires rows != {}
    ensures m in rows && forall r | r in rows :: r == m || Below(r, m)
    decreases |rows|
  {
    hide Below;
    m :| m in rows;
    var rest := rows - {m};
    if rest != {} {
      var n := HighestRow(rest);
      BelowTotal(m, n);
      if Below(m, n) {
        m := n;
      } else {
        forall r | r in rest && r != n
          ensures Below(r, m)
        {
          BelowTransitive(r, n, m);
        }
      }
    }
  }

  /** While a transaction is open, one can take its next row or commit. */
  lemma SomeoneMoves(s: Sys) returns (e: Event)
    requires Consistent(s) && s.txns != map[]
    ensures Enabled(s, e) && (e.Acquire? || e.Finish?)
  {
    hide Below, Consistent;
    if t :| t in s.txns && s.txns[t].Done() {
      e := Finish(t);
    } else {
      var some :| some in s.txns;
      var wishes := set t | t in s.txns :: s.txns[t].Wanted();
      assert s.txns[some].Wanted() in wishes;
      var highest := HighestRow(wishes);
      var m :| m in s.txns && s.txns[m].Wanted() == highest;
      e := Acquire(m);
      if !Enabled(s, e) {
        HolderIsOpen(s, m);
        var u := s.owner[highest];
        assert s.txns[u].Wanted() in wishes;
        e := Acquire(u);
        if !Enabled(s, e) {
          WaitsClimb(s, m, u);
          BelowAsymmetric(highest, s.txns[u].Wanted());
          assert false;
        }
      }
    }
  }

  lemma BelowAsymmetric(a: Row, b: Row)
    ensures !(Below(a, b) && (a == b || Below(b, a)))
  {
    hide Below;
    BelowIrreflexive(a);
    if Below(a, b) && Below(b, a) { BelowTransitive(a, b, a); }
  }

  lemma HolderIsOpen(s: Sys, t: nat)
    requires Consistent(s) && Waiting(s, t) && s.txns[t].Wanted() in s.owner
    ensures s.owner[s.txns[t].Wanted()] in s.txns
  {
  }

  /** What is still to be done: the rows not yet taken, and a commit each. */
  ghost function Left(s: Sys): set<(nat, nat)> {
    set t, i | t in s.txns && s.txns[t].taken <= i <= |s.txns[t].plan| :: (t, i)
  }

  lemma LessIsLeft(s: Sys, e: Event)
    requires Consistent(s) && Enabled(s, e) && (e.Acquire? || e.Finish?)
    ensures Left(Step(s, e)) < Left(s)
  {
    hide Climbs;
    assert TxnOk(s, e.t);
    var gone := if e.Acquire? then (e.t, s.txns[e.t].taken) else (e.t, |s.txns[e.t].plan|);
    assert gone in Left(s) && gone !in Left(Step(s, e));
  }

  /** From every consistent state, whatever the transactions so far have taken, all of them can commit. */
  lemma {:induction false} AllComplete(s: Sys) returns (events: seq<Event>)
    requires Consistent(s)
    ensures (forall i | 0 <= i < |events| :: events[i].Acquire? || events[i].Finish?)
    ensures After(s, events) == Some(Sys(map[], map[]))
    decreases Left(s)
  {
    hide Consistent, Enabled, Step, Left;
    if s.txns == map[] {
      NothingHeld(s);
      events := [];
    } else {
      var e := SomeoneMoves(s);
      LessIsLeft(s, e);
      StepKeeps(s, e);
      var rest := AllComplete(Step(s, e));
      events := [e] + rest;
      RunCons(s, e, rest);
    }
  }

  lemma NothingHeld(s: Sys)
    requires Consistent(s) && s.txns == map[]
    ensures s.owner == map[]
  {
  }

  lemma {:induction false} RunCons(s: Sys, e: Event, rest: seq<Event>)
    requires Enabled(s, e)
    ensures After(s, [e] + rest) == After(Step(s, e), rest)
  {
    hide Enabled, Step;
    if rest == [] {
      assert [e] + rest == [e] && [e][..0] == [];
    } else {
      var past, last := rest[..|rest| - 1], rest[|rest| - 1];
      assert ([e] + rest)[..|rest|] == [e] + past;
      RunCons(s, e, past);
    }
  }
}
