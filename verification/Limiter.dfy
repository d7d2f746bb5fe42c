/** The windowed room-join limiter (internal/control/room.go:18-24, 53-99). Times are nanoseconds
    since the zero time. */
module Limiter {
  import opened Text

  const MINUTE := 60_000_000_000
  const TTL := 2 * MINUTE

  datatype Caps = Caps(perIP: nat, global: nat) {
    ghost predicate Positive() { perIP > 0 && global > 0 }
  }

  datatype Entry = Entry(window: nat, count: nat, lastSeen: nat)

  datatype State = State(globalWindow: nat, globalCount: nat, sources: map<string, Entry>)

  datatype Call = Call(now: nat, source: string)

  const Fresh := State(0, 0, map[])

  function Window(now: nat): nat { now - now % MINUTE }

  // ---------------------------------------------------------------- one call

  function Kept(sources: map<string, Entry>, now: nat): map<string, Entry> {
    map s | s in sources && now - sources[s].lastSeen <= TTL :: sources[s]
  }

  function EntryFor(sources: map<string, Entry>, source: string, window: nat): Entry {
    if source in sources && sources[source].window == window then sources[source] else Entry(window, 0, 0)
  }

  function CountIn(st: State, window: nat): nat { if st.globalWindow == window then st.globalCount else 0 }

  predicate Admits(c: Caps, st: State, call: Call) {
    var w := Window(call.now);
    CountIn(st, w) < c.global && EntryFor(Kept(st.sources, call.now), call.source, w).count < c.perIP
  }

  function Step(c: Caps, st: State, call: Call): State {
    var w := Window(call.now);
    var kept := Kept(st.sources, call.now);
    if Admits(c, st, call) then
      State(w, CountIn(st, w) + 1, kept[call.source := Entry(w, EntryFor(kept, call.source, w).count + 1, call.now)])
    else State(w, CountIn(st, w), kept)
  }

  // ---------------------------------------------------------------- runs

  function After(c: Caps, calls: seq<Call>): State {
    if calls == [] then Fresh else Step(c, After(c, calls[..|calls| - 1]), calls[|calls| - 1])
  }

  /** The calls that were admitted. */
  function Admitted(c: Caps, calls: seq<Call>): seq<Call> {
    if calls == [] then []
    else
      var past := calls[..|calls| - 1];
      var last := calls[|calls| - 1];
      Admitted(c, past) + if Admits(c, After(c, past), last) then [last] else []
  }

  /** How many of `log` fall in a window, in all or from one source. */
  function Total(log: seq<Call>, w: nat): nat {
    if log == [] then 0 else Total(log[..|log| - 1], w) + if Window(log[|log| - 1].now) == w then 1 else 0
  }

  function Count(log: seq<Call>, w: nat, s: string): nat {
    if log == [] then 0
    else Count(log[..|log| - 1], w, s) + if Window(log[|log| - 1].now) == w && log[|log| - 1].source == s then 1 else 0
  }

  /** The calls of each window follow one another: once left, a window does not come back. */
  ghost predicate Consecutive(calls: seq<Call>) {
    forall i, j, k | 0 <= i < j < k < |calls| && Window(calls[i].now) == Window(calls[k].now) ::
      Window(calls[j].now) == Window(calls[i].now)
  }

  /** The clock may stand still, and within one window even step back, but no reading falls in an earlier window. */
  ghost predicate Orderly(calls: seq<Call>) {
    forall i, j | 0 <= i < j < |calls| :: Window(calls[i].now) <= Window(calls[j].now)
  }

  lemma OrderlyIsConsecutive(calls: seq<Call>)
    requires Orderly(calls)
    ensures Consecutive(calls)
  {
    hide Window;
  }

  lemma LogSnoc(log: seq<Call>, x: Call, w: nat)
    ensures Total(log + [x], w) == Total(log, w) + if Window(x.now) == w then 1 else 0
    ensures forall s ::
              Count(log + [x], w, s) == Count(log, w, s) + if Window(x.now) == w && x.source == s then 1 else 0
  {
    hide Window;
    assert (log + [x])[..|log|] == log;
  }

  /** What the limiter remembers of the admitted calls: every count of the current window, and no wrong one. */
  ghost predicate Remembers(c: Caps, st: State, log: seq<Call>) {
    && st.globalCount == Total(log, st.globalWindow)
    && (forall w :: Total(log, w) <= c.global)
    && (forall w, s :: Count(log, w, s) <= c.perIP)
    && (forall s | s in st.sources :: EntryFits(st.sources[s], s, log))
    && (forall s | Count(log, st.globalWindow, s) > 0 :: s in st.sources && st.sources[s].window == st.globalWindow)
  }

  ghost predicate EntryFits(e: Entry, s: string, log: seq<Call>) {
    e.window == Window(e.lastSeen) && e.count == Count(log, e.window, s) > 0
  }

  lemma FreshRemembers(c: Caps)
    ensures Remembers(c, Fresh, [])
  {
  }

  /** A reading that is at most two minutes old is at most two windows old. */
  lemma WindowAge(t: nat, now: nat)
    ensures Window(t) == Window(now) ==> now - t <= TTL
    ensures Window(t) <= Window(now) && now - t <= TTL ==> Window(now) <= Window(t) + TTL
  {
    WindowBounds(t);
    WindowBounds(now);
    WindowGap(t, now);
  }

  lemma WindowBounds(now: nat)
    ensures Window(now) <= now < Window(now) + MINUTE
    ensures Window(now) == now / MINUTE * MINUTE
  {
  }

  /** Windows start a whole number of minutes apart. */
  lemma WindowGap(t: nat, now: nat)
    ensures Window(now) < Window(t) + 3 * MINUTE ==> Window(now) <= Window(t) + 2 * MINUTE
  {
    WindowBounds(t);
    WindowBounds(now);
  }

  /** No admitted call of a window yet. */
  ghost predicate Unseen(log: seq<Call>, w: nat) {
    Total(log, w) == 0 && forall s :: Count(log, w, s) == 0
  }

  /** Moving to the window of `now`, the current or a new one, and pruning forgets no live count. */
  lemma RollRemembers(c: Caps, st: State, log: seq<Call>, now: nat)
    requires Remembers(c, st, log) && (st.globalWindow == Window(now) || Unseen(log, Window(now)))
    ensures Remembers(c, State(Window(now), CountIn(st, Window(now)), Kept(st.sources, now)), log)
  {
    hide Window, Total, Count;
    var w, kept := Window(now), Kept(st.sources, now);
    forall s | Count(log, w, s) > 0
      ensures s in kept && kept[s].window == w
    {
      WindowAge(st.sources[s].lastSeen, now);
    }
  }

  /** Recording an admission within both caps keeps everything in step. */
  lemma AddRemembers(c: Caps, st: State, log: seq<Call>, call: Call)
    requires Remembers(c, st, log) && st.globalWindow == Window(call.now) && st.globalCount < c.global
    requires EntryFor(st.sources, call.source, st.globalWindow).count < c.perIP
    ensures var e := EntryFor(st.sources, call.source, st.globalWindow);
            var added := st.sources[call.source := Entry(st.globalWindow, e.count + 1, call.now)];
            Remembers(c, State(st.globalWindow, st.globalCount + 1, added), log + [call])
  {
    hide Window, Total, Count;
    var w, s0 := st.globalWindow, call.source;
    var e := EntryFor(st.sources, s0, w);
    var added := Entry(w, e.count + 1, call.now);
    forall v: nat
      ensures Total(log + [call], v) == Total(log, v) + if v == w then 1 else 0
    {
      LogSnoc(log, call, v);
    }
    forall v: nat, s
      ensures Count(log + [call], v, s) == Count(log, v, s) + if v == w && s == s0 then 1 else 0
    {
      LogSnoc(log, call, v);
    }
    assert e.count == Count(log, w, s0);
    forall s | s in st.sources && s != s0
      ensures EntryFits(st.sources[s], s, log + [call])
    {
    }
    assert EntryFits(added, s0, log + [call]);
  }

  lemma StepRemembers(c: Caps, st: State, log: seq<Call>, call: Call)
    requires Remembers(c, st, log) && (st.globalWindow == Window(call.now) || Unseen(log, Window(call.now)))
    ensures Remembers(c, Step(c, st, call), log + if Admits(c, st, call) then [call] else [])
  {
    hide Window, Remembers, EntryFor, Kept, Unseen;
    RollRemembers(c, st, log, call.now);
    var w := Window(call.now);
    if Admits(c, st, call) {
      AddRemembers(c, State(w, CountIn(st, w), Kept(st.sources, call.now)), log, call);
    } else {
      assert log + [] == log;
    }
  }

  lemma {:induction false} NotCalled(c: Caps, calls: seq<Call>, w: nat)
    requires forall i | 0 <= i < |calls| :: Window(calls[i].now) != w
    ensures Unseen(Admitted(c, calls), w)
  {
    hide Window, Admits, After;
    if calls != [] {
      var past, last := calls[..|calls| - 1], calls[|calls| - 1];
      NotCalled(c, past, w);
      LogSnoc(Admitted(c, past), last, w);
      assert Admitted(c, past) + [] == Admitted(c, past);
    }
  }

  /** The state is in the window of the last call. */
  lemma LastWindow(c: Caps, calls: seq<Call>)
    ensures After(c, calls).globalWindow == if calls == [] then 0 else Window(calls[|calls| - 1].now)
  {
    hide Window, Admits, Kept;
  }

  lemma {:induction false} RunRemembers(c: Caps, calls: seq<Call>)
    requires Consecutive(calls)
    ensures Remembers(c, After(c, calls), Admitted(c, calls))
  {
    hide Window, Remembers, Admits, Unseen;
    if calls == [] {
      FreshRemembers(c);
    } else {
      var past, last := calls[..|calls| - 1], calls[|calls| - 1];
      RunRemembers(c, past);
      LastWindow(c, past);
      if past == [] || Window(past[|past| - 1].now) != Window(last.now) {
        forall i | 0 <= i < |past|
          ensures Window(past[i].now) != Window(last.now)
        {
          assert past[i] == calls[i] && past[|past| - 1] == calls[|past| - 1];
        }
        NotCalled(c, past, Window(last.now));
      }
      StepRemembers(c, After(c, past), Admitted(c, past), last);
    }
  }

  // ---------------------------------------------------------------- who is admitted

  /** A call arrives in the window of the state or in one that was never seen. */
  lemma Arrives(c: Caps, calls: seq<Call>, call: Call)
    requires Consecutive(calls + [call])
    ensures Consecutive(calls)
    ensures After(c, calls).globalWindow == Window(call.now) || Unseen(Admitted(c, calls), Window(call.now))
  {
    hide Window, Unseen, After, Admitted;
    var all := calls + [call];
    assert forall i | 0 <= i < |calls| :: all[i] == calls[i];
    LastWindow(c, calls);
    if calls == [] || Window(calls[|calls| - 1].now) != Window(call.now) {
      forall i | 0 <= i < |calls| ensures Window(calls[i].now) != Window(call.now) {
        assert all[i] == calls[i] && all[|calls| - 1] == calls[|calls| - 1] && all[|calls|] == call;
      }
      NotCalled(c, calls, Window(call.now));
    }
  }

  /** While no window comes back, a call is admitted exactly when fewer calls than the global cap were admitted in its
      minute, and fewer of its source than the cap per source. */
  lemma AdmittedExactly(c: Caps, calls: seq<Call>, call: Call)
    requires Consecutive(calls + [call])
    ensures var w, log := call.now / 60_000_000_000 * 60_000_000_000, Admitted(c, calls);
            Admitted(c, calls + [call]) ==
            if Total(log, w) < c.global && Count(log, w, call.source) < c.perIP then log + [call] else log
  {
    hide Window, Total, Count, After, Admitted, Consecutive, Unseen;
    Arrives(c, calls, call);
    RunRemembers(c, calls);
    WindowBounds(call.now);
    RollRemembers(c, After(c, calls), Admitted(c, calls), call.now);
    RunSnoc(c, calls, call);
    assert Admitted(c, calls) + [] == Admitted(c, calls);
  }

  // ---------------------------------------------------------------- ages

  /** Entries of the current window or of the two before it. */
  ghost predicate Aged(st: State) {
    forall s | s in st.sources :: st.sources[s].window <= st.globalWindow <= st.sources[s].window + TTL
  }

  lemma StepAges(c: Caps, st: State, log: seq<Call>, call: Call)
    requires Remembers(c, st, log) && Aged(st) && st.globalWindow <= Window(call.now)
    ensures Aged(Step(c, st, call))
  {
    hide Window, Total, Count, Admits;
    var kept := Kept(st.sources, call.now);
    forall s | s in kept
      ensures kept[s].window <= Window(call.now) <= kept[s].window + TTL
    {
      assert EntryFits(st.sources[s], s, log);
      WindowAge(kept[s].lastSeen, call.now);
    }
  }

  lemma {:induction false} RunAges(c: Caps, calls: seq<Call>)
    requires Orderly(calls)
    ensures Aged(After(c, calls))
  {
    hide Window, Remembers, Step, Consecutive;
    if calls != [] {
      var past, last := calls[..|calls| - 1], calls[|calls| - 1];
      RunAges(c, past);
      OrderlyIsConsecutive(past);
      RunRemembers(c, past);
      LastWindow(c, past);
      if past != [] { assert Window(past[|past| - 1].now) <= Window(last.now); }
      StepAges(c, After(c, past), Admitted(c, past), last);
    }
  }

  // ---------------------------------------------------------------- sums over sources

  ghost function Sum(keys: set<string>, f: string -> nat): nat {
    if keys == {} then 0 else
      var k :| k in keys;
      f(k) + Sum(keys - {k}, f)
  }

  lemma {:induction false} SumSplit(keys: set<string>, f: string -> nat, k: string)
    requires k in keys
    ensures Sum(keys, f) == f(k) + Sum(keys - {k}, f)
    decreases |keys|
  {
    var first :| first in keys && Sum(keys, f) == f(first) + Sum(keys - {first}, f);
    if first != k {
      SumSplit(keys - {first}, f, k);
      SumSplit(keys - {k}, f, first);
      assert keys - {first} - {k} == keys - {k} - {first};
    }
  }

  lemma {:induction false} SumSame(keys: set<string>, f: string -> nat, g: string -> nat)
    requires forall k | k in keys :: f(k) == g(k)
    ensures Sum(keys, f) == Sum(keys, g)
  {
    if keys != {} {
      var k :| k in keys;
      SumSplit(keys, f, k);
      SumSplit(keys, g, k);
      SumSame(keys - {k}, f, g);
    }
  }

  lemma {:induction false} SumAtLeast(keys: set<string>, f: string -> nat)
    requires forall k | k in keys :: f(k) >= 1
    ensures |keys| <= Sum(keys, f)
  {
    if keys != {} {
      var k :| k in keys;
      SumSplit(keys, f, k);
      SumAtLeast(keys - {k}, f);
    }
  }

  lemma {:induction false} SumZero(keys: set<string>, f: string -> nat)
    requires forall k | k in keys :: f(k) == 0
    ensures Sum(keys, f) == 0
  {
    if keys != {} {
      var k :| k in keys;
      SumSplit(keys, f, k);
      SumZero(keys - {k}, f);
    }
  }

  /** Counting a window source by source, or all at once. */
  lemma {:induction false} SumOfCounts(keys: set<string>, log: seq<Call>, w: nat)
    ensures Sum(keys, s => Count(log, w, s)) <= Total(log, w)
    ensures (forall s | Count(log, w, s) > 0 :: s in keys) ==> Sum(keys, s => Count(log, w, s)) == Total(log, w)
  {
    hide Window;
    var f := s => Count(log, w, s);
    if log == [] {
      SumZero(keys, f);
    } else {
      var past, x := log[..|log| - 1], log[|log| - 1];
      var g := s => Count(past, w, s);
      assert log == past + [x];
      LogSnoc(past, x, w);
      SumOfCounts(keys, past, w);
      if Window(x.now) == w && x.source in keys {
        SumSplit(keys, f, x.source);
        SumSplit(keys, g, x.source);
        SumSame(keys - {x.source}, f, g);
      } else {
        SumSame(keys, f, g);
      }
    }
  }

  // ---------------------------------------------------------------- what every run keeps

  /** The counts held for the current window, source by source. */
  ghost function CurrentSum(st: State): nat {
    Sum(st.sources.Keys, s => EntryFor(st.sources, s, st.globalWindow).count)
  }

  /** The counts the limiter holds for the current window add up to the global one. */
  lemma CountsAddUp(c: Caps, calls: seq<Call>)
    requires Consecutive(calls)
    ensures After(c, calls).globalCount == CurrentSum(After(c, calls))
  {
    hide Window, Count, Total, Admits, After, Admitted;
    RunRemembers(c, calls);
    var st, log := After(c, calls), Admitted(c, calls);
    SumOfCounts(st.sources.Keys, log, st.globalWindow);
    SumSame(st.sources.Keys, s => EntryFor(st.sources, s, st.globalWindow).count, s => Count(log, st.globalWindow, s));
  }

  ghost function SourcesOf(st: State, w: int): set<string> {
    set s | s in st.sources && st.sources[s].window == w
  }

  lemma SourcesInWindow(c: Caps, st: State, log: seq<Call>, w: int)
    requires Remembers(c, st, log)
    ensures |SourcesOf(st, w)| <= c.global
  {
    hide Window, Count, Total;
    var keys := SourcesOf(st, w);
    if w >= 0 {
      SumAtLeast(keys, s => Count(log, w, s));
      SumOfCounts(keys, log, w);
    } else {
      assert keys == {};
    }
  }

  lemma Union3(a: set<string>, b: set<string>, d: set<string>)
    ensures |a + b + d| <= |a| + |b| + |d|
  {
    assert |a + b| == |a| + |b| - |a * b|;
    assert |a + b + d| == |a + b| + |d| - |(a + b) * d|;
  }

  /** An entry's window is one of the last three. */
  lemma ThreeWindows(st: State, log: seq<Call>, s: string)
    requires s in st.sources && EntryFits(st.sources[s], s, log) && Aged(st)
    requires st.globalWindow == Window(st.globalWindow)
    ensures st.sources[s].window in {st.globalWindow, st.globalWindow - MINUTE, st.globalWindow - 2 * MINUTE}
  {
    WindowBounds(st.sources[s].lastSeen);
    WindowBounds(st.globalWindow);
  }

  lemma SourcesInThreeWindows(c: Caps, st: State, log: seq<Call>)
    requires Remembers(c, st, log) && Aged(st) && st.globalWindow == Window(st.globalWindow)
    ensures var w := st.globalWindow;
            st.sources.Keys == SourcesOf(st, w) + SourcesOf(st, w - MINUTE) + SourcesOf(st, w - 2 * MINUTE)
  {
    hide Window, Count, Total;
    forall s | s in st.sources
      ensures st.sources[s].window in {st.globalWindow, st.globalWindow - MINUTE, st.globalWindow - 2 * MINUTE}
    {
      ThreeWindows(st, log, s);
    }
  }

  lemma SourcesAreFew(c: Caps, calls: seq<Call>)
    requires Orderly(calls)
    ensures |After(c, calls).sources| <= 3 * c.global
  {
    hide Window, Remembers, After, Admitted, SourcesOf, Aged, Consecutive;
    OrderlyIsConsecutive(calls);
    RunRemembers(c, calls);
    RunAges(c, calls);
    var st, log := After(c, calls), Admitted(c, calls);
    var w := st.globalWindow;
    WindowIsStart(c, calls);
    SourcesInThreeWindows(c, st, log);
    SourcesInWindow(c, st, log, w);
    SourcesInWindow(c, st, log, w - MINUTE);
    SourcesInWindow(c, st, log, w - 2 * MINUTE);
    Union3(SourcesOf(st, w), SourcesOf(st, w - MINUTE), SourcesOf(st, w - 2 * MINUTE));
    assert |st.sources| == |st.sources.Keys|;
  }

  lemma WindowIsStart(c: Caps, calls: seq<Call>)
    ensures Window(After(c, calls).globalWindow) == After(c, calls).globalWindow
  {
    hide Admits, Kept;
    if calls != [] { WindowTwice(calls[|calls| - 1].now); }
  }

  lemma WindowTwice(now: nat)
    ensures Window(Window(now)) == Window(now)
  {
    WindowBounds(now);
    WindowBounds(Window(now));
  }

  // ---------------------------------------------------------------- exactly when the caps hold

  /** Every window admits at most the caps. */
  ghost predicate Capped(c: Caps, calls: seq<Call>) {
    && (forall w :: Total(Admitted(c, calls), w) <= c.global)
    && (forall w, s :: Count(Admitted(c, calls), w, s) <= c.perIP)
  }

  lemma CapsHold(c: Caps, calls: seq<Call>)
    requires Consecutive(calls)
    ensures Capped(c, calls)
  {
    hide Window, Count, Total, After, Admitted, Consecutive;
    RunRemembers(c, calls);
  }

  lemma RunSnoc(c: Caps, calls: seq<Call>, call: Call)
    ensures After(c, calls + [call]) == Step(c, After(c, calls), call)
    ensures Admitted(c, calls + [call]) == Admitted(c, calls) + if Admits(c, After(c, calls), call) then [call] else []
  {
    hide Step, Admits;
    assert (calls + [call])[..|calls|] == calls;
  }

  ghost predicate DifferentSources(calls: seq<Call>) {
    forall i, j | 0 <= i < j < |calls| :: calls[i].source != calls[j].source
  }

  lemma {:induction false} SourcesWereSeen(c: Caps, calls: seq<Call>, s: string)
    requires s in After(c, calls).sources
    ensures exists i :: 0 <= i < |calls| && calls[i].source == s
  {
    hide Window, Admits;
    var past, last := calls[..|calls| - 1], calls[|calls| - 1];
    if s != last.source {
      SourcesWereSeen(c, past, s);
      var i :| 0 <= i < |past| && past[i].source == s;
      assert calls[i].source == s;
    }
  }

  /** A call that opens a window anew begins at a count of zero; with a source of its own it is admitted. */
  lemma OpeningIsAdmitted(calls: seq<Call>, m: nat)
    requires DifferentSources(calls) && m < |calls|
    requires m > 0 ==> Window(calls[m - 1].now) != Window(calls[m].now)
    ensures Admits(Caps(1, 1), After(Caps(1, 1), calls[..m]), calls[m])
  {
    hide Window, After;
    var c, past := Caps(1, 1), calls[..m];
    LastWindow(c, past);
    if m == 0 { NothingYet(c); }
    if calls[m].source in After(c, past).sources {
      SourcesWereSeen(c, past, calls[m].source);
    }
  }

  lemma NothingYet(c: Caps)
    ensures After(c, []) == Fresh && Admitted(c, []) == []
  {
  }

  lemma {:induction false} TotalGrows(c: Caps, calls: seq<Call>, m: nat, w: nat)
    requires m <= |calls|
    ensures Total(Admitted(c, calls[..m]), w) <= Total(Admitted(c, calls), w)
    decreases |calls|
  {
    hide Window, After, Admits, Total;
    if m == |calls| {
      assert calls[..m] == calls;
    } else {
      var past, last := calls[..|calls| - 1], calls[|calls| - 1];
      assert past[..m] == calls[..m];
      TotalGrows(c, past, m, w);
      LogSnoc(Admitted(c, past), last, w);
      assert Admitted(c, past) + [] == Admitted(c, past);
    }
  }

  lemma OpeningCounts(calls: seq<Call>, m: nat)
    requires DifferentSources(calls) && m < |calls|
    requires m > 0 ==> Window(calls[m - 1].now) != Window(calls[m].now)
    ensures var c, w := Caps(1, 1), Window(calls[m].now);
            Total(Admitted(c, calls[..m + 1]), w) == Total(Admitted(c, calls[..m]), w) + 1
  {
    hide Window, After, Admits, Total, Admitted;
    var c := Caps(1, 1);
    OpeningIsAdmitted(calls, m);
    assert calls[..m + 1] == calls[..m] + [calls[m]];
    RunSnoc(c, calls[..m], calls[m]);
    LogSnoc(Admitted(c, calls[..m]), calls[m], Window(calls[m].now));
  }

  /** Where the unbroken stretch of one window that contains `m` begins. */
  lemma Opening(calls: seq<Call>, m: nat) returns (p: nat)
    requires m < |calls|
    ensures p <= m && forall i | p <= i <= m :: Window(calls[i].now) == Window(calls[m].now)
    ensures p > 0 ==> Window(calls[p - 1].now) != Window(calls[p].now)
  {
    hide Window;
    p := m;
    while p > 0 && Window(calls[p - 1].now) == Window(calls[m].now)
      invariant p <= m && forall i | p <= i <= m :: Window(calls[i].now) == Window(calls[m].now)
    {
      p := p - 1;
    }
  }

  /** A window that comes back admits one call more than its cap. */
  lemma ReturnExceeds(calls: seq<Call>, i: nat, j: nat, k: nat)
    requires DifferentSources(calls) && i < j < k < |calls|
    requires Window(calls[i].now) == Window(calls[k].now) != Window(calls[j].now)
    ensures Total(Admitted(Caps(1, 1), calls), Window(calls[i].now)) >= 2
  {
    hide Window, Total, Admitted, DifferentSources;
    var c, w := Caps(1, 1), Window(calls[i].now);
    var p := Opening(calls, i);
    var q := Opening(calls, k);
    assert p <= i < j < q;
    OpeningCounts(calls, p);
    OpeningCounts(calls, q);
    assert calls[..q][..p + 1] == calls[..p + 1];
    TotalGrows(c, calls[..q], p + 1, w);
    TotalGrows(c, calls, q + 1, w);
  }

  /** Calls at the given readings. */
  function CallsAt(readings: seq<nat>, sources: seq<string>): (calls: seq<Call>)
    requires |readings| == |sources|
    ensures |calls| == |readings|
    ensures forall i | 0 <= i < |calls| :: calls[i] == Call(readings[i], sources[i])
  {
    seq(|readings|, i requires 0 <= i < |readings| => Call(readings[i], sources[i]))
  }

  function Numbered(n: nat): (r: seq<string>)
    ensures |r| == n && forall i | 0 <= i < n :: r[i] == Decimal(i)
  {
    seq(n, i requires 0 <= i < n => Decimal(i))
  }

  ghost predicate ConsecutiveWindows(readings: seq<nat>) {
    forall i, j, k | 0 <= i < j < k < |readings| && Window(readings[i]) == Window(readings[k]) ::
      Window(readings[j]) == Window(readings[i])
  }

  /** The caps hold whatever they are and whoever calls. */
  ghost predicate AlwaysCapped(readings: seq<nat>) {
    forall c: Caps, sources: seq<string> | c.Positive() && |sources| == |readings| ::
      Capped(c, CallsAt(readings, sources))
  }

  lemma NumberedDiffer(readings: seq<nat>)
    ensures DifferentSources(CallsAt(readings, Numbered(|readings|)))
  {
    hide Decimal;
    var calls := CallsAt(readings, Numbered(|readings|));
    forall a, b | 0 <= a < b < |calls|
      ensures calls[a].source != calls[b].source
    {
      if Decimal(a) == Decimal(b) { DecimalInjective(a, b); }
    }
  }

  lemma ReturnBreaksCaps(readings: seq<nat>, i: nat, j: nat, k: nat)
    requires i < j < k < |readings| && Window(readings[i]) == Window(readings[k]) != Window(readings[j])
    ensures !AlwaysCapped(readings)
  {
    hide Window, Total, Count, Admitted, DifferentSources, CallsAt, Numbered;
    var sources := Numbered(|readings|);
    NumberedDiffer(readings);
    ReturnExceeds(CallsAt(readings, sources), i, j, k);
    assert Caps(1, 1).Positive() && !Capped(Caps(1, 1), CallsAt(readings, sources));
  }

  /** Clock readings in lock order keep every cap, for all callers, exactly when no window comes back after another. */
  lemma CapsHoldExactlyWhenConsecutive(readings: seq<nat>)
    ensures AlwaysCapped(readings) <==> ConsecutiveWindows(readings)
  {
    hide Window, Capped, CallsAt, AlwaysCapped;
    if ConsecutiveWindows(readings) {
      ConsecutiveIsCapped(readings);
    } else {
      var i, j, k :| 0 <= i < j < k < |readings| && Window(readings[i]) == Window(readings[k]) != Window(readings[j]);
      ReturnBreaksCaps(readings, i, j, k);
    }
  }

  /** A clock that steps back breaks the caps once it returns, and not before. */
  lemma SteppingBackAndForth()
    ensures !AlwaysCapped([MINUTE, 0, MINUTE]) && AlwaysCapped([MINUTE, 0])
  {
    hide AlwaysCapped;
    assert Window(0) == 0 && Window(MINUTE) == MINUTE;
    ReturnBreaksCaps([MINUTE, 0, MINUTE], 0, 1, 2);
    ConsecutiveIsCapped([MINUTE, 0]);
  }

  lemma ConsecutiveIsCapped(readings: seq<nat>)
    requires ConsecutiveWindows(readings)
    ensures AlwaysCapped(readings)
  {
    hide Window, Capped, CallsAt;
    forall c: Caps, sources: seq<string> | c.Positive() && |sources| == |readings|
      ensures Capped(c, CallsAt(readings, sources))
    {
      CapsHold(c, CallsAt(readings, sources));
    }
  }

  // ---------------------------------------------------------------- memory without an orderly clock

  /** n calls, each a minute earlier than the one before and from a source of its own. */
  function Descending(n: nat, top: nat): seq<Call>
    requires n <= top
  {
    if n == 0 then [] else Descending(n - 1, top) + [Call((top - n) * MINUTE, Decimal(n))]
  }

  lemma WindowOfMinutes(k: nat)
    ensures Window(k * MINUTE) == k * MINUTE
  {
    WindowBounds(k * MINUTE);
  }

  ghost predicate NumberedUpTo(s: string, n: nat) { exists i: nat :: 0 < i <= n && s == Decimal(i) }

  /** One entry for each of n calls, all seen no earlier than the last of them. */
  ghost predicate HoldsAll(st: State, n: nat, top: nat)
    requires n <= top
  {
    && |st.sources| == n
    && (forall s | s in st.sources :: st.sources[s].lastSeen >= (top - n) * MINUTE && NumberedUpTo(s, n))
    && (n == 0 ==> st == Fresh)
    && (n > 0 ==> st.globalWindow == (top - n) * MINUTE)
  }

  lemma NextIsNew(n: nat)
    ensures !NumberedUpTo(Decimal(n + 1), n) && NumberedUpTo(Decimal(n + 1), n + 1)
    ensures forall s | NumberedUpTo(s, n) :: NumberedUpTo(s, n + 1)
  {
    hide Decimal;
    forall i: nat | 0 < i <= n ensures Decimal(n + 1) != Decimal(i) {
      if Decimal(n + 1) == Decimal(i) { DecimalInjective(n + 1, i); }
    }
  }

  /** Entries seen later than now are never old, so a call a minute back prunes none of them and is admitted. */
  lemma EarlierCallIsHeld(c: Caps, st: State, n: nat, top: nat)
    requires c.Positive() && n < top && HoldsAll(st, n, top)
    ensures HoldsAll(Step(c, st, Call((top - n - 1) * MINUTE, Decimal(n + 1))), n + 1, top)
  {
    hide Decimal, Window, NumberedUpTo;
    var call := Call((top - n - 1) * MINUTE, Decimal(n + 1));
    WindowOfMinutes(top - n - 1);
    NextIsNew(n);
    assert Kept(st.sources, call.now) == st.sources;
    assert call.source !in st.sources;
    assert CountIn(st, call.now) == 0;
    assert Admits(c, st, call);
    assert Step(c, st, call).sources.Keys == st.sources.Keys + {call.source};
  }

  lemma {:induction false} MemoryGrowsBackwards(c: Caps, n: nat, top: nat)
    requires c.Positive() && n <= top
    ensures HoldsAll(After(c, Descending(n, top)), n, top)
  {
    hide Decimal, After, HoldsAll, Step;
    if n == 0 {
      NothingYet(c);
      assert HoldsAll(Fresh, 0, top) by { FreshHoldsNone(top); }
    } else {
      MemoryGrowsBackwards(c, n - 1, top);
      EarlierCallIsHeld(c, After(c, Descending(n - 1, top)), n - 1, top);
      RunSnoc(c, Descending(n - 1, top), Call((top - n) * MINUTE, Decimal(n)));
    }
  }

  lemma FreshHoldsNone(top: nat)
    ensures HoldsAll(Fresh, 0, top)
  {
  }

  /** The bound on memory needs the clock: under any caps, enough calls that each fall a window back hold more. */
  lemma NoBoundBackwards(c: Caps)
    requires c.Positive()
    ensures var n := 3 * c.global + 1;
            |After(c, Descending(n, n)).sources| > 3 * c.global && !Orderly(Descending(n, n))
  {
    hide After, Descending;
    var n := 3 * c.global + 1;
    MemoryGrowsBackwards(c, n, n);
    if Orderly(Descending(n, n)) { SourcesAreFew(c, Descending(n, n)); }
  }

  // ---------------------------------------------------------------- the limiter

  class JoinLimiter {
    const caps: Caps
    var globalWindow: nat
    var globalCount: nat
    var sources: map<string, Entry>
    /** The calls that carried a source, in the order they took the lock. */
    ghost var calls: seq<Call>

    ghost predicate Valid()
      reads this
    {
      caps.Positive() && State(globalWindow, globalCount, sources) == After(caps, calls)
    }

    constructor (perIP: int, global: int)
      ensures Valid() && calls == []
      ensures caps == Caps(if perIP <= 0 then 10 else perIP, if global <= 0 then 100 else global)
    {
      caps := Caps(if perIP <= 0 then 10 else perIP, if global <= 0 then 100 else global);
      globalWindow, globalCount, sources, calls := 0, 0, map[], [];
    }

    method Prune(now: nat)
      modifies this`sources
      ensures sources == Kept(old(sources), now)
      ensures forall s :: s in sources <==> s in old(sources) && now - old(sources)[s].lastSeen <= 120_000_000_000
    {
      var rest := sources;
      while rest != map[]
        invariant rest.Keys <= sources.Keys <= old(sources).Keys
        invariant forall s | s in sources :: sources[s] == old(sources)[s]
        invariant forall s | s in rest :: rest[s] == old(sources)[s]
        invariant forall s | s in old(sources) && s !in rest :: s in sources <==> now - old(sources)[s].lastSeen <= TTL
        decreases |rest|
      {
        var s :| s in rest;
        if now - rest[s].lastSeen > TTL { sources := sources - {s}; }
        rest := rest - {s};
      }
    }

    /** `source` is the host part of the remote address, if it has one. */
    method Allow(source: Option<string>, now: nat) returns (ok: bool)
      requires Valid()
      modifies this
      ensures Valid()
      ensures source.None? || Blank(source.value) ==> !ok && unchanged(this)
      ensures source.Some? && !Blank(source.value) ==>
                && calls == old(calls) + [Call(now, source.value)]
                && Admitted(caps, calls) == Admitted(caps, old(calls)) + if ok then [Call(now, source.value)] else []
      // the answer, by what was admitted in this minute
      ensures source.Some? && !Blank(source.value) && Consecutive(calls) ==>
                var w, log := now / 60_000_000_000 * 60_000_000_000, Admitted(caps, old(calls));
                ok <==> Total(log, w) < caps.global && Count(log, w, source.value) < caps.perIP
    {
      hide Window, Blank, After, Admitted, Consecutive, Total, Count;
      if source.None? || Blank(source.value) { return false; }
      if Consecutive(calls + [Call(now, source.value)]) { AdmittedExactly(caps, calls, Call(now, source.value)); }
      var window := Window(now);
      ghost var call := Call(now, source.value);
      RunSnoc(caps, calls, call);
      calls := calls + [call];
      Prune(now);
      if globalWindow != window {
        globalWindow, globalCount := window, 0;
      }
      var entry := if source.value in sources then sources[source.value] else Entry(0, 0, 0);
      if entry.window != window { entry := Entry(window, 0, 0); }
      if globalCount >= caps.global || entry.count >= caps.perIP { return false; }
      globalCount := globalCount + 1;
      sources := sources[source.value := Entry(window, entry.count + 1, now)];
      ok := true;
    }

    /** What holds of a limiter whose windows did not come back, and the bound on its memory when none fell behind. */
    lemma Keeps()
      requires Valid() && Consecutive(calls)
      ensures Capped(caps, calls)
      ensures globalCount == CurrentSum(State(globalWindow, globalCount, sources))
      ensures Orderly(calls) ==> |sources| <= 3 * caps.global
    {
      hide Window, Total, Count, Admitted, After, CurrentSum, Capped, Consecutive, Orderly;
      CapsHold(caps, calls);
      CountsAddUp(caps, calls);
      if Orderly(calls) { SourcesAreFew(caps, calls); }
    }
  }
}
