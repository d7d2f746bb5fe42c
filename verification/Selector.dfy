/** The Direct/Suspect/Relay/Disconnected path selector (internal/path/selector.go). Times are integers
    and zero is the zero time. */
module Selector {

  datatype State = Direct | Suspect | Relay | Disconnected

  datatype Observation = Observation(at: int, directHealthy: bool, relayHealthy: bool, memberActive: bool) {
    predicate Good() { memberActive && directHealthy }
    predicate Bad() { memberActive && !directHealthy }
  }

  datatype Thresholds = Thresholds(failure: nat, recovery: nat) {
    ghost predicate Positive() { failure > 0 && recovery > 0 }
  }

  // ---------------------------------------------------------------- the selector without counters

  /** How many of the last observations in a row were healthy. */
  function GoodRun(h: seq<Observation>): nat {
    if h == [] || !h[|h| - 1].Good() then 0 else GoodRun(h[..|h| - 1]) + 1
  }

  function BadRun(h: seq<Observation>): nat {
    if h == [] || !h[|h| - 1].Bad() then 0 else BadRun(h[..|h| - 1]) + 1
  }

  function Fallback(o: Observation): State {
    if o.relayHealthy then Relay else Disconnected
  }

  /** The state after `o`, where `good` and `bad` are the lengths of the runs `o` ends. */
  function Next(t: Thresholds, s: State, o: Observation, good: nat, bad: nat): State {
    if !o.memberActive then Disconnected
    else if o.directHealthy then
      if s == Direct || good >= t.recovery then Direct else if s == Relay then Relay else Suspect
    else match s
      case Direct => if bad >= t.failure then Fallback(o) else Suspect
      case Suspect => if bad >= t.failure then Fallback(o) else Suspect
      case Relay => Fallback(o)
      case Disconnected => Fallback(o)
  }

  /** The state after a history, told by runs of observations alone. */
  function After(t: Thresholds, initial: State, h: seq<Observation>): State {
    if h == [] then initial
    else Next(t, After(t, initial, h[..|h| - 1]), h[|h| - 1], GoodRun(h), BadRun(h))
  }

  /** Leaving Direct or Suspect because direct probes kept failing. */
  predicate IsExit(before: State, o: Observation, after: State) {
    o.memberActive && (before == Direct || before == Suspect) && (after == Relay || after == Disconnected)
  }

  predicate IsEntry(before: State, after: State) { before != Direct && after == Direct }

  function Exits(t: Thresholds, initial: State, h: seq<Observation>): nat {
    if h == [] then 0
    else
      var past := h[..|h| - 1];
      Exits(t, initial, past) + if IsExit(After(t, initial, past), h[|h| - 1], After(t, initial, h)) then 1 else 0
  }

  function Entries(t: Thresholds, initial: State, h: seq<Observation>): nat {
    if h == [] then 0
    else
      var past := h[..|h| - 1];
      Entries(t, initial, past) + if IsEntry(After(t, initial, past), After(t, initial, h)) then 1 else 0
  }

  /** One more observation. */
  lemma Snoc(t: Thresholds, initial: State, h: seq<Observation>, o: Observation)
    ensures GoodRun(h + [o]) == if o.Good() then GoodRun(h) + 1 else 0
    ensures BadRun(h + [o]) == if o.Bad() then BadRun(h) + 1 else 0
    ensures After(t, initial, h + [o]) == Next(t, After(t, initial, h), o, GoodRun(h + [o]), BadRun(h + [o]))
  {
    assert (h + [o])[..|h|] == h;
  }

  lemma SnocCounts(t: Thresholds, initial: State, h: seq<Observation>, o: Observation)
    ensures Exits(t, initial, h + [o]) ==
            Exits(t, initial, h) + if IsExit(After(t, initial, h), o, After(t, initial, h + [o])) then 1 else 0
    ensures Entries(t, initial, h + [o]) ==
            Entries(t, initial, h) + if IsEntry(After(t, initial, h), After(t, initial, h + [o])) then 1 else 0
  {
    hide After, IsExit, IsEntry;
    assert (h + [o])[..|h|] == h;
  }

  // ---------------------------------------------------------------- bounds over every history

  /** What the state says about the runs. */
  lemma {:induction false} RunsFit(t: Thresholds, initial: State, h: seq<Observation>)
    requires t.Positive()
    ensures After(t, initial, h) == Direct ==> BadRun(h) == 0
    ensures After(t, initial, h) == Suspect ==> BadRun(h) < t.failure && GoodRun(h) < t.recovery
    ensures After(t, initial, h) == Relay ==> GoodRun(h) < t.recovery
    ensures After(t, initial, h) == Disconnected ==> GoodRun(h) == 0
    ensures GoodRun(h) == 0 || BadRun(h) == 0
  {
    if h != [] { RunsFit(t, initial, h[..|h| - 1]); }
  }

  /** Observations already spent on the next exit or entry. */
  function Pending(s: State, h: seq<Observation>): nat {
    match s
    case Suspect => GoodRun(h) + BadRun(h)
    case Relay => GoodRun(h)
    case _ => 0
  }

  lemma Distributes(a: nat, b: nat)
    ensures a * (b + 1) == a * b + a
  {
  }

  /** Every exit costs a full run of failures and every entry a full run of successes. */
  lemma {:induction false} Amortised(t: Thresholds, initial: State, h: seq<Observation>)
    requires t.Positive()
    ensures t.failure * Exits(t, initial, h) + t.recovery * Entries(t, initial, h)
            + Pending(After(t, initial, h), h) <= |h|
  {
    hide After;
    if h != [] {
      var past, o := h[..|h| - 1], h[|h| - 1];
      assert h == past + [o];
      Snoc(t, initial, past, o);
      Amortised(t, initial, past);
      RunsFit(t, initial, past);
      Distributes(t.failure, Exits(t, initial, past));
      Distributes(t.recovery, Entries(t, initial, past));
    }
  }

  lemma HysteresisBound(t: Thresholds, initial: State, h: seq<Observation>)
    requires t.Positive()
    ensures t.failure * Exits(t, initial, h) + t.recovery * Entries(t, initial, h) <= |h|
  {
    Amortised(t, initial, h);
  }

  // ---------------------------------------------------------------- the bound is attained

  const BadProbe := Observation(1, false, true, true)
  const GoodProbe := Observation(1, true, true, true)

  function Failing(h: seq<Observation>, n: nat): seq<Observation> {
    if n == 0 then h else Failing(h, n - 1) + [BadProbe]
  }

  function Recovering(h: seq<Observation>, n: nat): seq<Observation> {
    if n == 0 then h else Recovering(h, n - 1) + [GoodProbe]
  }

  lemma {:induction false} FailingLeaves(t: Thresholds, h: seq<Observation>, n: nat)
    requires t.Positive() && n <= t.failure && After(t, Direct, h) == Direct && BadRun(h) == 0
    ensures |Failing(h, n)| == |h| + n && BadRun(Failing(h, n)) == n
    ensures After(t, Direct, Failing(h, n)) == if n == 0 then Direct else if n < t.failure then Suspect else Relay
    ensures Exits(t, Direct, Failing(h, n)) == Exits(t, Direct, h) + if n < t.failure then 0 else 1
    ensures Entries(t, Direct, Failing(h, n)) == Entries(t, Direct, h)
    ensures n > 0 ==> GoodRun(Failing(h, n)) == 0
  {
    hide After, GoodRun, BadRun, Exits, Entries;
    if n > 0 {
      FailingLeaves(t, h, n - 1);
      Snoc(t, Direct, Failing(h, n - 1), BadProbe);
      SnocCounts(t, Direct, Failing(h, n - 1), BadProbe);
    }
  }

  lemma {:induction false} RecoveringReturns(t: Thresholds, h: seq<Observation>, n: nat)
    requires t.Positive() && n <= t.recovery && After(t, Direct, h) == Relay && GoodRun(h) == 0
    ensures |Recovering(h, n)| == |h| + n && GoodRun(Recovering(h, n)) == n
    ensures After(t, Direct, Recovering(h, n)) == if n < t.recovery then Relay else Direct
    ensures Entries(t, Direct, Recovering(h, n)) == Entries(t, Direct, h) + if n < t.recovery then 0 else 1
    ensures Exits(t, Direct, Recovering(h, n)) == Exits(t, Direct, h)
    ensures n > 0 ==> BadRun(Recovering(h, n)) == 0
  {
    hide After, GoodRun, BadRun, Exits, Entries;
    if n > 0 {
      RecoveringReturns(t, h, n - 1);
      Snoc(t, Direct, Recovering(h, n - 1), GoodProbe);
      SnocCounts(t, Direct, Recovering(h, n - 1), GoodProbe);
    }
  }

  lemma NoHistory(t: Thresholds)
    ensures After(t, Direct, []) == Direct && BadRun([]) == 0 && Exits(t, Direct, []) == Entries(t, Direct, []) == 0
  {
  }

  /** No smaller bound holds: a link that fails and recovers as fast as it can uses every observation. */
  lemma {:induction false} BoundIsAttained(t: Thresholds, rounds: nat) returns (h: seq<Observation>)
    requires t.Positive()
    ensures Exits(t, Direct, h) == Entries(t, Direct, h) == rounds
    ensures t.failure * Exits(t, Direct, h) + t.recovery * Entries(t, Direct, h) == |h|
    ensures After(t, Direct, h) == Direct && BadRun(h) == 0
  {
    hide After, GoodRun, BadRun, Exits, Entries;
    h := [];
    NoHistory(t);
    if rounds > 0 {
      var past := BoundIsAttained(t, rounds - 1);
      FailingLeaves(t, past, t.failure);
      h := Failing(past, t.failure);
      RecoveringReturns(t, h, t.recovery);
      h := Recovering(h, t.recovery);
      Distributes(t.failure, rounds - 1);
      Distributes(t.recovery, rounds - 1);
    }
  }

  // ---------------------------------------------------------------- told by runs

  ghost predicate AllGood(h: seq<Observation>) { forall i | 0 <= i < |h| :: h[i].memberActive && h[i].directHealthy }

  ghost predicate AllBad(h: seq<Observation>) { forall i | 0 <= i < |h| :: h[i].memberActive && !h[i].directHealthy }

  /** An inactive member is disconnected at once. */
  lemma InactiveDisconnects(t: Thresholds, initial: State, h: seq<Observation>)
    requires h != [] && !h[|h| - 1].memberActive
    ensures After(t, initial, h) == Disconnected
  {
  }

  /** The path is direct exactly when the last `recovery` observations were all healthy, or when it was from the start
      and all of them were. */
  lemma {:induction false} DirectExactly(t: Thresholds, initial: State, h: seq<Observation>)
    requires t.Positive()
    ensures After(t, initial, h) == Direct <==>
            (|h| >= t.recovery && AllGood(h[|h| - t.recovery..])) || (initial == Direct && AllGood(h))
  {
    hide GoodRun, BadRun, After, Next;
    if h == [] {
      NoneYet(t, initial);
    } else {
      var past, o := h[..|h| - 1], h[|h| - 1];
      assert h == past + [o];
      DirectExactly(t, initial, past);
      Snoc(t, initial, past, o);
      GoodRunIs(h, t.recovery);
      DirectNext(t, After(t, initial, past), o, GoodRun(h), BadRun(h));
      assert AllGood(h) <==> AllGood(past) && o.Good();
      if o.Good() && |past| >= t.recovery && AllGood(past[|past| - t.recovery..]) { GoodTail(past, o, t.recovery); }
    }
  }

  lemma NoneYet(t: Thresholds, initial: State)
    ensures After(t, initial, []) == initial
  {
  }

  lemma DirectNext(t: Thresholds, s: State, o: Observation, good: nat, bad: nat)
    ensures Next(t, s, o, good, bad) == Direct ==> o.Good() && (s == Direct || good >= t.recovery)
    ensures o.Good() && (s == Direct || good >= t.recovery) ==> Next(t, s, o, good, bad) == Direct
    ensures s == Direct && o.Bad() ==> Next(t, s, o, good, bad) != Direct
  {
  }

  /** A run is as long as the observations at the end that it counts. */
  lemma {:induction false} GoodRunIs(h: seq<Observation>, n: nat)
    ensures GoodRun(h) >= n <==> |h| >= n && AllGood(h[|h| - n..])
    decreases n
  {
    if n > 0 && h != [] {
      var past, o := h[..|h| - 1], h[|h| - 1];
      GoodRunIs(past, n - 1);
      if |h| >= n {
        assert h[|h| - n..] == past[|past| - (n - 1)..] + [o];
        assert h[|h| - n..][n - 1] == o;
        assert AllGood(h[|h| - n..]) <==> AllGood(past[|past| - (n - 1)..]) && o.Good();
      }
    }
  }

  lemma GoodTail(past: seq<Observation>, o: Observation, n: nat)
    requires 0 < n <= |past| && AllGood(past[|past| - n..]) && o.Good()
    ensures AllGood((past + [o])[|past| + 1 - n..])
  {
    assert (past + [o])[|past| + 1 - n..] == past[|past| - n + 1..] + [o];
  }

  /** After an inactive observation, direct again means `recovery` healthy observations in a row since. */
  lemma RecoveryIsEarned(t: Thresholds, initial: State, h: seq<Observation>, i: nat)
    requires t.Positive() && i < |h| && !h[i].memberActive && After(t, initial, h) == Direct
    ensures i + t.recovery < |h| && forall j | |h| - t.recovery <= j < |h| :: h[j].memberActive && h[j].directHealthy
  {
    hide After;
    DirectExactly(t, initial, h);
    var tail := h[|h| - t.recovery..];
    assert forall j | |h| - t.recovery <= j < |h| :: h[j] == tail[j - (|h| - t.recovery)];
  }

  /** A run of failures after something else: the path is suspect while it may still be direct, and then the relay
      decides at every failure. */
  lemma {:induction false} FailingRun(t: Thresholds, initial: State, past: seq<Observation>, run: seq<Observation>)
    requires t.Positive() && run != [] && AllBad(run)
    requires past != [] ==> !past[|past| - 1].memberActive || past[|past| - 1].directHealthy
    ensures After(t, initial, past + run) ==
            if After(t, initial, past) in {Direct, Suspect} && |run| < t.failure then Suspect
            else if run[|run| - 1].relayHealthy then Relay else Disconnected
    ensures BadRun(past + run) == |run|
    decreases |run|
  {
    hide After, BadRun, GoodRun;
    var front, o := run[..|run| - 1], run[|run| - 1];
    assert past + run == past + front + [o];
    Snoc(t, initial, past + front, o);
    if front == [] {
      assert past + front == past;
      NoBadRun(past);
    } else {
      FailingRun(t, initial, past, front);
    }
  }

  lemma NoBadRun(h: seq<Observation>)
    requires h != [] ==> !h[|h| - 1].memberActive || h[|h| - 1].directHealthy
    ensures BadRun(h) == 0
  {
  }

  /** A run of healthy observations after something else: direct when it was, or once the run is long enough; until then
      a relayed path stays relayed and any other is suspect. */
  lemma {:induction false} HealthyRun(t: Thresholds, initial: State, past: seq<Observation>, run: seq<Observation>)
    requires t.Positive() && run != [] && AllGood(run)
    requires past != [] ==> !past[|past| - 1].memberActive || !past[|past| - 1].directHealthy
    ensures After(t, initial, past + run) ==
            if After(t, initial, past) == Direct || |run| >= t.recovery then Direct
            else if After(t, initial, past) == Relay then Relay else Suspect
    ensures GoodRun(past + run) == |run|
    decreases |run|
  {
    hide After, BadRun, GoodRun;
    var front, o := run[..|run| - 1], run[|run| - 1];
    assert past + run == past + front + [o];
    Snoc(t, initial, past + front, o);
    if front == [] {
      assert past + front == past;
      NoGoodRun(past);
    } else {
      HealthyRun(t, initial, past, front);
    }
  }

  lemma NoGoodRun(h: seq<Observation>)
    requires h != [] ==> !h[|h| - 1].memberActive || !h[|h| - 1].directHealthy
    ensures GoodRun(h) == 0
  {
  }

  // ---------------------------------------------------------------- the selector

  function OrDefault(threshold: int): nat { if threshold <= 0 then 2 else threshold }

  class Selector {
    const thresholds: Thresholds
    const initial: State
    var state: State
    var directFailures: nat
    var directSuccesses: nat
    var lastAt: int
    /** The accepted observations. */
    ghost var history: seq<Observation>

    /** The state is what the accepted history alone determines, and each counter is the run it stands for
        in the states that use it. */
    ghost predicate Valid()
      reads this
    {
      && thresholds.Positive()
      && state == After(thresholds, initial, history)
      && (state == Direct || state == Suspect ==> directFailures == BadRun(history))
      && (state != Direct ==> directSuccesses == GoodRun(history))
    }

    constructor (failureThreshold: int, recoveryThreshold: int, initial: State)
      ensures Valid() && state == this.initial == initial && history == [] && lastAt == 0
      ensures thresholds == Thresholds(if failureThreshold <= 0 then 2 else failureThreshold,
                                       if recoveryThreshold <= 0 then 2 else recoveryThreshold)
    {
      thresholds := Thresholds(OrDefault(failureThreshold), OrDefault(recoveryThreshold));
      this.initial, state := initial, initial;
      directFailures, directSuccesses, lastAt, history := 0, 0, 0, [];
    }

    /** Accepts an observation that is not older than the last one; an observation without a time is taken
        to be made at `clock`. A rejected observation changes nothing. */
    method Observe(o: Observation, clock: int) returns (current: State, ok: bool)
      requires Valid()
      modifies this
      ensures Valid() && current == state
      ensures var at := if o.at == 0 then clock else o.at;
              && (ok <==> old(lastAt) == 0 || at >= old(lastAt))
              && (ok ==> lastAt == at && history == old(history) + [o])
      ensures !ok ==> unchanged(this)
      ensures ok && !o.memberActive ==> state == Disconnected
      ensures ok && o.memberActive && o.directHealthy ==> state != Disconnected
      ensures ok && o.memberActive && !o.directHealthy ==>
                state == Suspect || state == if o.relayHealthy then Relay else Disconnected
    {
      hide After, GoodRun, BadRun;
      RunsFit(thresholds, initial, history);
      Snoc(thresholds, initial, history, o);
      var at := if o.at == 0 then clock else o.at;
      if lastAt != 0 && at < lastAt { return state, false; }
      lastAt := at;
      history := history + [o];
      ok := true;
      if !o.memberActive {
        state, directFailures, directSuccesses := Disconnected, 0, 0;
        return state, true;
      }
      match state {
        case Direct =>
          if o.directHealthy {
            directFailures, directSuccesses := 0, 0;
            return state, true;
          }
          directSuccesses := 0;
          directFailures := directFailures + 1;
          if directFailures < thresholds.failure {
            state := Suspect;
          } else if o.relayHealthy {
            state := Relay;
          } else {
            state := Disconnected;
          }
        case Suspect =>
          if o.directHealthy {
            directFailures := 0;
            directSuccesses := directSuccesses + 1;
            if directSuccesses >= thresholds.recovery { state := Direct; }
            return state, true;
          }
          directSuccesses := 0;
          directFailures := directFailures + 1;
          if directFailures >= thresholds.failure {
            if o.relayHealthy { state := Relay; } else { state := Disconnected; }
          }
        case Relay =>
          if o.directHealthy {
            directFailures := 0;
            directSuccesses := directSuccesses + 1;
            if directSuccesses >= thresholds.recovery { state := Direct; }
            return state, true;
          }
          directSuccesses, directFailures := 0, 0;
          if !o.relayHealthy { state := Disconnected; }
        case Disconnected =>
          if o.directHealthy {
            directFailures := 0;
            directSuccesses := directSuccesses + 1;
            if directSuccesses >= thresholds.recovery { state := Direct; } else { state := Suspect; }
          } else if o.relayHealthy {
            directFailures, directSuccesses := 0, 0;
            state := Relay;
          }
      }
      current := state;
    }
  }
}
