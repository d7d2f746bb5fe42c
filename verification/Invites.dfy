/** An invitation is used at most once over any run (internal/db/repository.go:589-657). */
module Invites {
  import opened Text
  import opened Control
  import opened Relational
  import opened CacheKey

  ghost predicate Spent(db: Db, i: Id) {
    i in db.invites && (db.invites[i].consumedAt.Some? || db.invites[i].revokedAt.Some?)
  }

  /** The operation consumes invite i. */
  ghost predicate Consumes(db: Db, op: Op, i: Id) {
    && op.OpConsumeInvite? && Exec(db, op).outcome == Done
    && i in db.invites && Consumable(db, op.key, op.tokenHash, op.at, i)
  }

  /** No operation makes a spent invite usable again, and none rewrites when it was spent. */
  lemma SpentStays(db: Db, op: Op, i: Id)
    requires Spent(db, i)
    ensures Spent(Exec(db, op).db, i)
    ensures Exec(db, op).db.invites[i].consumedAt == db.invites[i].consumedAt
    ensures Exec(db, op).db.invites[i].revokedAt == db.invites[i].revokedAt || db.invites[i].revokedAt.None?
  {
    hide Blank, ValidNode, ValidNetwork, ValidInvite, ValidRelay, ValidMembership, InPool, EndpointsOutcome,
         ClassifyMiss, Matches, BumpAll, Involves;
  }

  lemma {:induction false} SpentStaysInTransaction(db: Db, ops: seq<Op>, i: Id)
    requires Spent(db, i)
    ensures Spent(ExecAll(db, ops), i)
    decreases |ops|
  {
    hide Exec, Spent;
    if ops != [] {
      SpentStays(db, ops[0], i);
      SpentStaysInTransaction(Exec(db, ops[0]).db, ops[1..], i);
    }
  }

  lemma {:induction false} SpentStaysInRun(db: Db, run: seq<Txn>, i: Id)
    requires Spent(db, i)
    ensures Spent(After(db, run), i)
    decreases |run|
  {
    hide ExecAll, Spent;
    if run != [] {
      SpentStaysInTransaction(db, run[0].ops, i);
      SpentStaysInRun(Publish(db, run[0]), run[1..], i);
    }
  }

  lemma ConsumingSpends(db: Db, op: Op, i: Id)
    requires Consumes(db, op, i)
    ensures !Spent(db, i) && Spent(Exec(db, op).db, i)
  {
    hide ClassifyMiss, Matches;
  }

  /** Once an operation has consumed an invite, no operation of any later transaction of any run,
      committed or not, consumes it again. */
  lemma ConsumedAtMostOnce(db: Db, op: Op, between: seq<Txn>, prefix: seq<Op>, again: Op, i: Id)
    requires Consumes(db, op, i)
    ensures !Consumes(ExecAll(After(Exec(db, op).db, between), prefix), again, i)
  {
    hide Exec, ExecAll, After, Consumes, Spent;
    ConsumingSpends(db, op, i);
    SpentStaysInRun(Exec(db, op).db, between, i);
    SpentStaysInTransaction(After(Exec(db, op).db, between), prefix, i);
    var later := ExecAll(After(Exec(db, op).db, between), prefix);
    if Consumes(later, again, i) {
      ConsumingSpends(later, again, i);
    }
  }
}
