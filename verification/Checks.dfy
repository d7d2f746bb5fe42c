/** The two row checks of internal/db/schema.sql that the in-memory operations do not always keep (lines 18 and 43),
    and exactly when they do. */
module Checks {
  import opened Text
  import opened NetIp
  import opened AddressPool
  import opened Control
  import opened Relational
  import Constraints
  import CacheKey

  /** CHECK (config_version > 0). */
  ghost predicate PositiveVersions(db: Db) {
    forall n | n in db.networks :: db.networks[n].configVersion > 0
  }

  /** CHECK (revoked_at IS NULL OR revoked_at >= created_at). */
  ghost predicate RevokedInOrder(db: Db) {
    forall i | i in db.invites :: RevocationOk(db.invites[i])
  }

  ghost predicate RevocationOk(v: Invite) { v.revokedAt.Some? ==> v.revokedAt.value >= v.createdAt }

  /** Every constraint of the schema. */
  ghost predicate Schema(db: Db) { WellFormed(db) && PositiveVersions(db) && RevokedInOrder(db) }

  // ---------------------------------------------------------------- versions

  lemma NewNetworksArePositive(db: Db, op: Op, n: Id)
    requires n in Exec(db, op).db.networks && n !in db.networks
    ensures Exec(db, op).db.networks[n].configVersion > 0
  {
    hide Blank, NewPool, ValidNode, ValidInvite, ValidRelay, ValidMembership, EndpointsOutcome, ClassifyMiss,
         Consumable, InPool, AffectedByRemoval, NetworksOf, Involves, ForgetConsumer, ActiveMember;
  }

  /** Versions stay positive exactly when no affected network is at the largest one. */
  lemma VersionsStayPositiveExactlyWithRoom(db: Db, op: Op)
    requires WellFormed(db) && PositiveVersions(db)
    ensures PositiveVersions(Exec(db, op).db) <==> CacheKey.RoomFor(db, op)
  {
    hide WellFormed, Exec, CacheKey.Affected, Bump, CacheKey.ViewOf;
    var after := Exec(db, op).db;
    forall n | n in db.networks
      ensures n in after.networks
      ensures after.networks[n].configVersion > 0 <==>
              !(n in CacheKey.Affected(db, op) && db.networks[n].configVersion == MAX_I64)
    {
      CacheKey.StepView(db, op, n);
      BumpAdvances(db.networks[n].configVersion);
      if n !in CacheKey.Affected(db, op) { CacheKey.ViewHasNetwork(db, after, n); }
    }
    forall n | n in after.networks && n !in db.networks
      ensures after.networks[n].configVersion > 0
    {
      NewNetworksArePositive(db, op, n);
    }
  }

  lemma {:induction false} AllStayPositive(db: Db, ops: seq<Op>)
    requires WellFormed(db) && PositiveVersions(db) && CacheKey.RoomForAll(db, ops)
    ensures PositiveVersions(CacheKey.ExecAll(db, ops)) && WellFormed(CacheKey.ExecAll(db, ops))
    decreases |ops|
  {
    hide WellFormed, Exec, CacheKey.RoomFor, PositiveVersions;
    if ops != [] {
      VersionsStayPositiveExactlyWithRoom(db, ops[0]);
      Constraints.ExecKeeps(db, ops[0]);
      AllStayPositive(Exec(db, ops[0]).db, ops[1..]);
    }
  }

  lemma {:induction false} RunStaysPositive(db: Db, run: seq<CacheKey.Txn>)
    requires WellFormed(db) && PositiveVersions(db) && CacheKey.RoomForRun(db, run)
    ensures PositiveVersions(CacheKey.After(db, run))
    decreases |run|
  {
    hide WellFormed, PositiveVersions, CacheKey.RoomForAll, CacheKey.ExecAll;
    if run != [] {
      if run[0].commit { AllStayPositive(db, run[0].ops); }
      RunStaysPositive(CacheKey.Publish(db, run[0]), run[1..]);
    }
  }

  // ---------------------------------------------------------------- revocations

  /** A revocation that takes effect and is dated before the invite. */
  ghost predicate Backdated(db: Db, op: Op) {
    && op.OpRevokeInvite? && op.i != "" && op.at != 0 && op.i in db.invites
    && db.invites[op.i].consumedAt.None? && db.invites[op.i].revokedAt.None? && op.at < db.invites[op.i].createdAt
  }

  /** No operation but a revocation writes a revocation, except for new invites, whose dates are validated. */
  lemma OtherRevocations(db: Db, op: Op, i: Id)
    requires !op.OpRevokeInvite? && i in Exec(db, op).db.invites
    ensures i in db.invites ==>
              && Exec(db, op).db.invites[i].revokedAt == db.invites[i].revokedAt
              && Exec(db, op).db.invites[i].createdAt == db.invites[i].createdAt
    ensures i !in db.invites ==> RevocationOk(Exec(db, op).db.invites[i])
  {
    hide Blank, NewPool, ValidNode, ValidRelay, ValidMembership, EndpointsOutcome, ClassifyMiss, Consumable, InPool,
         AffectedByRemoval, NetworksOf, Involves, ActiveMember, BumpAll;
  }

  /** Revocations stay in order exactly when none that takes effect is dated before its invite. */
  lemma RevocationsStayInOrderExactly(db: Db, op: Op)
    requires RevokedInOrder(db)
    ensures RevokedInOrder(Exec(db, op).db) <==> !Backdated(db, op)
  {
    if op.OpRevokeInvite? {
      Revoking(db, op.i, op.at);
    } else {
      hide Exec;
      forall i | i in Exec(db, op).db.invites
        ensures RevocationOk(Exec(db, op).db.invites[i])
      {
        OtherRevocations(db, op, i);
      }
    }
  }

  lemma Revoking(db: Db, i: Id, at: Time)
    requires RevokedInOrder(db)
    ensures RevokedInOrder(RevokeInvite(db, i, at).db) <==> !Backdated(db, OpRevokeInvite(i, at))
  {
    var after := RevokeInvite(db, i, at).db;
    if Backdated(db, OpRevokeInvite(i, at)) {
      assert i in after.invites && !RevocationOk(after.invites[i]);
    } else {
      forall j | j in after.invites
        ensures RevocationOk(after.invites[j])
      {
        assert j in db.invites && RevocationOk(db.invites[j]);
      }
    }
  }

  /** An operation keeps the whole schema exactly when it has room and dates no revocation back. */
  lemma SchemaKeptExactly(db: Db, op: Op)
    requires Schema(db)
    ensures Schema(Exec(db, op).db) <==> CacheKey.RoomFor(db, op) && !Backdated(db, op)
  {
    hide WellFormed, PositiveVersions, RevokedInOrder, Exec, CacheKey.RoomFor, Backdated;
    Constraints.ExecKeeps(db, op);
    VersionsStayPositiveExactlyWithRoom(db, op);
    RevocationsStayInOrderExactly(db, op);
  }
}
