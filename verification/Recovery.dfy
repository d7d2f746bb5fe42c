/** Enrolment at the control plane's boundary: a session is issued as the last step of the transaction, and
    a commit that reports an error is settled by reading back (internal/control/http.go:120-131, 443-576). */
module Recovery {
  import opened Text
  import opened NetIp
  import opened AddressPool
  import opened Control
  import opened Relational
  import opened Memory
  import opened Enrollment

  /** The live session tokens. */
  class Sessions {
    var live: set<string>

    constructor ()
      ensures live == {}
    {
      live := {};
    }
  }

  datatype Answer = Success(token: string, node: Node) | InDoubt(token: string) | Rejected

  // ---------------------------------------------------------------- reading back

  datatype NodeRead = NodeFound(node: Node) | NodeMissing | NodeUnclear

  datatype NetworksRead = Networks(ids: seq<Id>) | NetworksMissing | NetworksUnclear

  /** One attempt: whether its delay ended before the deadline, and what GetNode and GetNodeNetworkIDs said. */
  datatype Reading = Reading(inTime: bool, node: NodeRead, networks: NetworksRead) {
    predicate Conclusive() { inTime && !node.NodeUnclear? && !networks.NetworksUnclear? }

    /** It shows the enrolment in network `n`. */
    predicate Confirms(n: Id) { node.NodeFound? && networks == Networks([n]) }

    /** It shows that there is none. */
    predicate Denies() { node.NodeMissing? && networks.NetworksMissing? }
  }

  /** Some attempt confirms the enrolment before the deadline passes. */
  ghost predicate Confirmed(readings: nat -> Reading, attempts: nat, n: Id) {
    exists k: nat :: && k < attempts && readings(k).node.NodeFound? && readings(k).networks == Networks([n])
                     && forall j: nat | 0 < j <= k :: readings(j).inTime
  }

  /** All attempts are made in time and deny it. */
  ghost predicate Denied(readings: nat -> Reading, attempts: nat) {
    forall k: nat | k < attempts ::
      && readings(k).node.NodeMissing? && readings(k).networks.NetworksMissing?
      && (k > 0 ==> readings(k).inTime)
  }

  /** A read is truthful or inconclusive. */
  ghost predicate Truthful(r: Reading, db: Db, d: Id) {
    && (r.node.NodeFound? ==> d in db.nodes && r.node.node == db.nodes[d])
    && (r.node.NodeMissing? ==> d !in db.nodes)
    && (r.networks.Networks? ==> d in db.nodes && r.networks.ids == InOrder(NetworksOf(db, d)))
    && (r.networks.NetworksMissing? ==> d !in db.nodes)
  }

  /** The enrolment of `node` in `n` is there, or there is no trace of the node. */
  ghost predicate Present(db: Db, node: Node, n: Id) {
    node.id in db.nodes && db.nodes[node.id] == node && NetworksOf(db, node.id) == {n}
  }

  ghost predicate Absent(db: Db, node: Node) { node.id !in db.nodes }

  ghost predicate Fate(db: Db, node: Node, n: Id, committed: bool) {
    if committed then Present(db, node, n) else Absent(db, node)
  }

  lemma OneInOrder(n: Id)
    ensures InOrder({n}) == [n]
  {
    hide InOrder;
    assert Elements([n]) == {n};
    AscendingUnique(InOrder({n}), [n]);
  }

  /** recoverEnrollmentCommit. `world` is the database at each attempt: others may have changed it, but every
      attempt sees the same fate of the enrolment. */
  method Recover(sessions: Sessions, token: string, node: Node, n: Id, attempts: nat, readings: nat -> Reading,
                 ghost world: nat -> Db, ghost committed: bool) returns (a: Answer)
    requires attempts > 0 && token in sessions.live
    requires forall k :: Fate(world(k), node, n, committed) && Truthful(readings(k), world(k), node.id)
    modifies sessions
    // a committed enrolment keeps its session, and the caller gets the token
    ensures committed ==> a != Rejected
    ensures a != Rejected ==> a.token == token && sessions.live == old(sessions.live)
    // success is reported only for a committed enrolment
    ensures a.Success? ==> committed && a.node == node
    // without a token the enrolment was rolled back and its session is gone
    ensures a == Rejected ==> !committed && sessions.live == old(sessions.live) - {token}
    // conclusive readings leave nothing in doubt
    ensures (forall k | 0 <= k < attempts :: readings(k).Conclusive()) ==>
              (if committed then a.Success? else a == Rejected)
    // the readings decide
    ensures a.Success? <==> Confirmed(readings, attempts, n)
    ensures a == Rejected <==> Denied(readings, attempts)
  {
    hide InOrder, NetworksOf;
    OneInOrder(n);
    var uncertain := false;
    for k := 0 to attempts
      invariant sessions.live == old(sessions.live)
      invariant uncertain ==> exists j :: 0 <= j < k && !readings(j).Conclusive()
      invariant committed && k > 0 ==> uncertain
      invariant forall j: nat | j < k :: !readings(j).Confirms(n) && (j > 0 ==> readings(j).inTime)
      invariant uncertain <==> exists j: nat :: j < k && !readings(j).Denies()
    {
      assert Fate(world(k), node, n, committed) && Truthful(readings(k), world(k), node.id);
      var r := readings(k);
      if k > 0 && !r.inTime { return InDoubt(token); }
      if r.Confirms(n) { return Success(token, r.node.node); }
      if !r.Denies() { uncertain := true; }
    }
    if uncertain { return InDoubt(token); }
    sessions.live := sessions.live - {token};
    a := Rejected;
  }

  // ---------------------------------------------------------------- the whole request

  /** What the store does with the transaction, and whether it says so. */
  datatype Commit = Committed | CommittedWithError | RolledBack

  /** Others may change anything but what concerns `node`. */
  ghost predicate LeavesAlone(others: (nat, Db) -> Db, node: Node) {
    forall k, db, n, committed | Fate(db, node, n, committed) :: Fate(others(k, db), node, n, committed)
  }

  /** Whatever the fate of the enrolment, readings do not misreport it. */
  ghost predicate Honest(readings: (nat, Id, bool) -> Reading, node: Node) {
    forall k, n, committed, db | Fate(db, node, n, committed) :: Truthful(readings(k, n, committed), db, node.id)
  }

  /** After an accepted enrolment the node is there with exactly its network; before it there was no trace of it. */
  lemma AcceptedIsPresent(before: Db, after: Db, r: Request, at: Time, reply: Reply)
    requires WellFormed(before) && Accepted(before, after, r, at, reply)
    ensures Fate(after, r.node, reply.network, true) && Fate(before, r.node, reply.network, false)
  {
    hide WellFormed, ConsumeInvite, Consumable, BumpAll, CanHold, ValidNode;
    var i :| && Admits(before, r, at, i) && reply.network == before.invites[i].networkId
             && EnrolledIn(before, after, r, at, i, reply.address);
    AdmittedState(before, r, at, i);
    assert (reply.network, r.node.id) in after.memberships;
  }

  /** Runs the transaction body on a working copy; the store itself is not touched. */
  method Stage(repo: MemoryRepository, r: Request, at: Time, random: Random)
    returns (working: MemoryRepository, reply: Reply)
    requires repo.Valid()
    ensures working.Valid() && fresh(working.Repr())
    ensures reply.Enrolled? ==> Accepted(repo.Contents(), working.Contents(), r, at, reply)
    ensures Transacted(repo.Contents(), working.Contents(), r, at, random, reply)
  {
    hide MemoryRepository.Valid, MemoryRepository.Contents, Accepted, Admission, Allocated;
    assert forall o | o in repo.Repr() :: allocated(o);
    working := repo.Clone();
    reply := Transact(working, r, at, random);
  }

  /** The end of the transaction: whether the working copy becomes the store's contents. */
  method End(repo: MemoryRepository, working: MemoryRepository, commit: Commit)
    requires repo.Valid() && working.Valid() && working != repo && repo !in working.Repr()
    modifies repo
    ensures repo.Valid()
    ensures repo.Contents() == if commit == RolledBack then old(repo.Contents()) else old(working.Contents())
  {
    hide MemoryRepository.Valid, MemoryRepository.Contents, MemoryRepository.Repr;
    if commit != RolledBack { repo.Publish(working); }
  }

  /** The end of a request: `issued` is the session token if one could be issued, and `published` says whether
      the enrolment is in the store. */
  ghost predicate Concluded(before: Db, after: Db, liveBefore: set<string>, live: set<string>, r: Request, at: Time,
                            issued: Option<string>, conclusive: bool, a: Answer, published: bool, reply: Reply)
  {
    && (!published ==> after == before)
    && (published ==> Accepted(before, after, r, at, reply))
    // a published enrolment has a live session whose token the caller holds
    && (published ==> issued.Some? && a != Rejected && a.token == issued.value && live == liveBefore + {issued.value})
    // success means published; an answer without a token means rolled back, with no session left behind
    && (a.Success? ==> published)
    && (a == Rejected ==> !published && live == liveBefore)
    // conclusive readings leave nothing in doubt
    && (conclusive ==> if published then a.Success? else a == Rejected)
  }

  function Readings(readings: (nat, Id, bool) -> Reading, n: Id, committed: bool): nat -> Reading {
    (k: nat) => readings(k, n, committed)
  }

  /** The answer the readings call for. */
  ghost predicate ReadBack(readings: (nat, Id, bool) -> Reading, attempts: nat, n: Id, committed: bool, a: Answer) {
    && (a.Success? <==> Confirmed(Readings(readings, n, committed), attempts, n))
    && (a == Rejected <==> Denied(Readings(readings, n, committed), attempts))
  }

  /** What decides the end of a request: the callback answers what the tables call for, an accepted enrolment with a
      session is published unless it is rolled back, a commit that reports no error is a success, and otherwise the
      readings decide; conclusive ones find out what happened. */
  ghost predicate Decided(before: Db, r: Request, at: Time, random: Random, issued: Option<string>, commit: Commit,
                          readings: (nat, Id, bool) -> Reading, attempts: nat, a: Answer, published: bool,
                          reply: Reply)
  {
    && (exists staged :: Transacted(before, staged, r, at, random, reply))
    && (published <==> reply.Enrolled? && issued.Some? && commit != RolledBack)
    && (reply.Refused? || issued.None? ==> a == Rejected)
    && (published && commit == Committed ==> a == Success(issued.value, r.node))
    && (reply.Enrolled? && issued.Some? && commit != Committed ==>
          ReadBack(readings, attempts, reply.network, published, a) && (a.Success? ==> a.node == r.node))
    && (Conclusive(readings, attempts) && reply.Enrolled? && issued.Some? ==>
          if commit == RolledBack then a == Rejected else a == Success(issued.value, r.node))
  }

  /** Every reading of the recovery is in time and says something. */
  ghost predicate Conclusive(readings: (nat, Id, bool) -> Reading, attempts: nat) {
    forall k, n, committed | 0 <= k < attempts :: readings(k, n, committed).Conclusive()
  }

  lemma Refuse(before: Db, staged: Db, live: set<string>, r: Request, at: Time, random: Random, issued: Option<string>,
               commit: Commit, readings: (nat, Id, bool) -> Reading, attempts: nat, reply: Reply)
    requires Transacted(before, staged, r, at, random, reply) && (reply.Refused? || issued.None?)
    ensures Concluded(before, before, live, live, r, at, issued, Conclusive(readings, attempts), Rejected, false, reply)
    ensures Decided(before, r, at, random, issued, commit, readings, attempts, Rejected, false, reply)
  {
    hide Transacted, Accepted, ReadBack, Conclusive;
  }

  lemma Conclude(before: Db, staged: Db, after: Db, liveBefore: set<string>, live: set<string>, r: Request, at: Time,
                 random: Random, issued: Option<string>, commit: Commit, readings: (nat, Id, bool) -> Reading,
                 attempts: nat, a: Answer, reply: Reply)
    requires Transacted(before, staged, r, at, random, reply) && reply.Enrolled? && issued.Some?
    requires Accepted(before, staged, r, at, reply) && after == (if commit == RolledBack then before else staged)
    requires issued.value !in liveBefore
    requires a == Rejected ==> commit == RolledBack && live == liveBefore + {issued.value} - {issued.value}
    requires a != Rejected ==> a.token == issued.value && live == liveBefore + {issued.value}
    requires a.Success? ==> commit != RolledBack && a.node == r.node
    requires commit == Committed ==> a.Success?
    requires Conclusive(readings, attempts) ==> if commit == RolledBack then a == Rejected else a.Success?
    requires commit != Committed ==> ReadBack(readings, attempts, reply.network, commit != RolledBack, a)
    ensures Concluded(before, after, liveBefore, live, r, at, issued, Conclusive(readings, attempts), a,
                      commit != RolledBack, reply)
    ensures Decided(before, r, at, random, issued, commit, readings, attempts, a, commit != RolledBack, reply)
  {
    hide Transacted, Accepted, ReadBack, Conclusive;
  }

  /** enrollControl. */
  method EnrollControl(repo: MemoryRepository, sessions: Sessions, r: Request, at: Time, random: Random,
                       issued: Option<string>, commit: Commit, attempts: nat,
                       readings: (nat, Id, bool) -> Reading, ghost others: (nat, Db) -> Db)
    returns (a: Answer, ghost published: bool, ghost reply: Reply)
    requires repo.Valid() && attempts > 0 && (issued.Some? ==> issued.value !in sessions.live)
    requires LeavesAlone(others, r.node) && Honest(readings, r.node)
    modifies repo, sessions
    ensures repo.Valid()
    ensures Concluded(old(repo.Contents()), repo.Contents(), old(sessions.live), sessions.live, r, at, issued,
                      Conclusive(readings, attempts), a, published, reply)
    ensures Decided(old(repo.Contents()), r, at, random, issued, commit, readings, attempts, a, published, reply)
  {
    hide MemoryRepository.Valid, MemoryRepository.Contents, Accepted, Honest, LeavesAlone, Fate, Truthful, WellFormed,
         Conclusive, Transacted, Concluded, Decided, ReadBack;
    assert forall o | o in repo.Repr() :: allocated(o);
    repo.SoundContents();
    ghost var before := repo.Contents();
    var working, answer := Stage(repo, r, at, random);
    reply := answer;
    ghost var staged, live := working.Contents(), sessions.live;
    if answer.Refused? || issued.None? {
      Refuse(before, staged, live, r, at, random, issued, commit, readings, attempts, reply);
      return Rejected, false, reply;
    }
    AcceptedIsPresent(before, working.Contents(), r, at, answer);
    assert sessions !in repo.Repr() && sessions !in working.Repr();
    sessions.live := sessions.live + {issued.value};
    End(repo, working, commit);
    assert sessions !in repo.Repr();
    a := Settle(sessions, r, issued.value, answer.network, commit, attempts, readings, repo.Contents(), others);
    published := commit != RolledBack;
    Conclude(before, staged, repo.Contents(), live, sessions.live, r, at, random, issued, commit, readings, attempts,
             a, reply);
  }

  /** The answer, after reading back if the store reported an error. */
  method Settle(sessions: Sessions, r: Request, token: string, n: Id, commit: Commit, attempts: nat,
                readings: (nat, Id, bool) -> Reading, ghost db: Db, ghost others: (nat, Db) -> Db) returns (a: Answer)
    requires attempts > 0 && token in sessions.live
    requires LeavesAlone(others, r.node) && Honest(readings, r.node)
    requires Fate(db, r.node, n, commit != RolledBack)
    modifies sessions
    ensures commit != RolledBack ==> a != Rejected
    ensures a != Rejected ==> a.token == token && sessions.live == old(sessions.live)
    ensures a.Success? ==> commit != RolledBack
    ensures a == Rejected ==> commit == RolledBack && sessions.live == old(sessions.live) - {token}
    ensures Conclusive(readings, attempts) ==> (if commit == RolledBack then a == Rejected else a.Success?)
    ensures commit == Committed ==> a.Success?
    ensures a.Success? ==> a.node == r.node
    ensures commit != Committed ==> ReadBack(readings, attempts, n, commit != RolledBack, a)
  {
    hide Honest, LeavesAlone, Fate, Truthful;
    if commit == Committed { return Success(token, r.node); }
    var committed := commit != RolledBack;
    Settled(others, readings, db, r.node, n, committed);
    a := Recover(sessions, token, r.node, n, attempts, Readings(readings, n, committed), (k: nat) => others(k, db),
                 committed);
  }

  lemma Settled(others: (nat, Db) -> Db, readings: (nat, Id, bool) -> Reading, db: Db, node: Node, n: Id,
                committed: bool)
    requires LeavesAlone(others, node) && Honest(readings, node) && Fate(db, node, n, committed)
    ensures forall k: nat ::
              Fate(others(k, db), node, n, committed) && Truthful(readings(k, n, committed), others(k, db), node.id)
  {
    hide Fate, Truthful;
    forall k: nat
      ensures Fate(others(k, db), node, n, committed) && Truthful(readings(k, n, committed), others(k, db), node.id)
    {
      assert Fate(others(k, db), node, n, committed);
    }
  }
}
