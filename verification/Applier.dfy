/** Applying snapshots on top of the route reconciler and the WireGuard adapter: two stacked
    compensating transactions (internal/reconcile/snapshot.go:74-159, 266-291). */
module Applier {
  import opened Text
  import opened NetIp
  import opened Control
  import opened Planner
  import W = WireGuard
  import R = Reconciler

  datatype Device = Device(handle: nat, luid: U64, config: Option<W.Configuration>, up: bool)

  /** The adapter of the fixed interface name. Any call may fail, and a failed call changes nothing. */
  class Adapter {
    const faults: nat -> bool
    const luids: nat -> U64
    var calls: nat
    var next: nat
    var device: Option<Device>

    constructor (faults: nat -> bool, luids: nat -> U64)
      ensures device == None && next == 1
    {
      this.faults, this.luids, calls, next, device := faults, luids, 0, 1, None;
    }

    /** Some call fails. */
    ghost predicate Faulty() { exists k :: faults(k) }

    /** Some new device has no interface identifier. */
    ghost predicate Nameless() { exists h :: luids(h) == 0 }

    /** Reuses the open adapter or creates one. */
    method Ensure() returns (handle: nat, ok: bool)
      modifies this
      ensures ok ==> device.Some? && device.value.handle == handle
      ensures old(device).Some? ==> ok && device == old(device)
      ensures ok && old(device) == None ==> device.value.config == None && !device.value.up
      ensures !ok ==> device == old(device)
      ensures ok && old(device) == None ==> device.value.luid == luids(handle)
      ensures old(device).Some? ==> calls == old(calls) && handle == old(device).value.handle
      ensures old(device) == None ==> calls == old(calls) + 1 && ok == !faults(old(calls)) && handle == old(next)
      ensures !ok ==> Faulty()
    {
      if device.Some? { return device.value.handle, true; }
      ok := !faults(calls);
      calls := calls + 1;
      handle := next;
      if ok {
        device := Some(Device(next, luids(next), None, false));
        next := next + 1;
      }
    }

    method Luid(handle: nat) returns (luid: U64, ok: bool)
      modifies this`calls
      ensures ok ==> device.Some? && device.value.handle == handle && luid == device.value.luid
      ensures calls == old(calls) + 1
      ensures ok <==> !faults(old(calls)) && device.Some? && device.value.handle == handle
    {
      ok := !faults(calls) && device.Some? && device.value.handle == handle;
      calls := calls + 1;
      luid := if ok then device.value.luid else 0;
    }

    method Configure(handle: nat, config: W.Configuration) returns (ok: bool)
      modifies this`calls, this`device
      ensures ok ==>
                && old(device).Some?
                && old(device).value.handle == handle
                && device == Some(old(device).value.(config := Some(config)))
      ensures !ok ==> device == old(device)
      ensures calls == old(calls) + 1
      ensures ok <==> !faults(old(calls)) && old(device).Some? && old(device).value.handle == handle
    {
      ok := !faults(calls) && device.Some? && device.value.handle == handle;
      calls := calls + 1;
      if ok { device := Some(device.value.(config := Some(config))); }
    }

    method SetState(handle: nat, up: bool) returns (ok: bool)
      modifies this`calls, this`device
      ensures ok ==>
                old(device).Some? && old(device).value.handle == handle && device == Some(old(device).value.(up := up))
      ensures !ok ==> device == old(device)
      ensures calls == old(calls) + 1
      ensures ok <==> !faults(old(calls)) && old(device).Some? && old(device).value.handle == handle
    {
      ok := !faults(calls) && device.Some? && device.value.handle == handle;
      calls := calls + 1;
      if ok { device := Some(device.value.(up := up)); }
    }

    /** Configures the device and brings it up. */
    method Bring(handle: nat, config: W.Configuration) returns (ok: bool)
      requires device.Some? && device.value.handle == handle
      modifies this`calls, this`device
      ensures device.Some?
      ensures ok ==> device == Some(old(device).value.(config := Some(config), up := true))
      ensures !ok ==> device == Some(old(device).value.(config := device.value.config))
      ensures R.Ran(faults, old(calls), calls, 2, ok)
    {
      ok := Configure(handle, config);
      if ok { ok := SetState(handle, true); }
    }

    method Delete(handle: nat) returns (ok: bool)
      modifies this`calls, this`device
      ensures ok ==> old(device).Some? && old(device).value.handle == handle && device == None
      ensures !ok ==> device == old(device)
      ensures calls == old(calls) + 1
      ensures ok <==> !faults(old(calls)) && old(device).Some? && old(device).value.handle == handle
    {
      ok := !faults(calls) && device.Some? && device.value.handle == handle;
      calls := calls + 1;
      if ok { device := None; }
    }

    /** Brings the device down and deletes it, whether or not the first succeeds. */
    method TakeDown(handle: nat) returns (ok: bool)
      modifies this`calls, this`device
      ensures ok ==> device == None
      ensures calls == old(calls) + 2
      ensures ok <==> R.Clean(faults, old(calls), calls) && old(device).Some? && old(device).value.handle == handle
    {
      var down := SetState(handle, false);
      var deleted := Delete(handle);
      ok := down && deleted;
    }
  }

  datatype State = State(applied: bool, handle: nat, up: bool, config: W.Configuration, address: R.Address,
                         routes: seq<R.Route>, networkId: Id)

  function NoKey(): W.Key { seq(32, _ => 0) }

  const NoState := State(false, 0, false, W.Configuration(NoKey(), 0, [], false), R.Address(NoAddr, 0, 0),
                         [], "")

  datatype Error = NoError | Cancelled | InvalidSnapshot | StaleSnapshot | AdapterFailed | RoutesFailed

  /** Whether the context is cancelled by the time the reconciler is called: on the way forward, and when undoing. */
  datatype Lost = Lost(forward: bool, back: bool)

  /** `st` is what the plan of snapshot `s` asks for, on the interface of its address: the local address, one
      host route and one configured peer for each peer of the snapshot, in order. */
  ghost predicate InForce(o: Options, s: Snapshot, st: State) {
    && st.applied && st.up && st.networkId == s.networkId
    && st.address == R.Address(s.localVirtualIPv4, 32, st.address.luid) && st.address.luid != 0
    && |st.routes| == |st.config.peers| == |s.peers|
    && (forall i | 0 <= i < |s.peers| :: st.routes[i] == HostRoute(s.peers[i].virtualIPv4, st.address.luid))
    && (forall i | 0 <= i < |s.peers| :: PlannedPeer(o, RelayOf(s), s.peers[i], st.config.peers[i]))
    && st.config.privateKey == o.privateKey && st.config.listenPort == o.listenPort && st.config.replacePeers
  }

  /** What is in force, field by field: the local address as a single host; for each peer a route to its address alone,
      through the interface itself, and an entry with its key, that address, and the endpoint chosen for it. */
  lemma InForceMeans(o: Options, s: Snapshot, st: State, i: nat)
    requires InForce(o, s, st) && i < |s.peers|
    ensures st.address.ip == s.localVirtualIPv4 && st.address.prefixLength == 32 && st.address.luid > 0
    ensures |st.routes| == |st.config.peers| == |s.peers|
    ensures var r, w, p := st.routes[i], st.config.peers[i], s.peers[i];
            && r.destination == Prefix(p.virtualIPv4, 32) && r.luid == st.address.luid
            && r.nextHop == NoAddr && r.metric == 0
            && Some(w.publicKey) == o.parseKey(p.publicKey) && w.allowedIPs == [r.destination]
            && w.keepalive == o.keepalive
            && Chosen(o.text, p, if s.relayAssignment.Some? then s.relayAssignment else s.relay, w.endpoint)
    ensures st.config.privateKey == o.privateKey && st.config.listenPort == o.listenPort && st.config.replacePeers
  {
    hide Selected, Chosen, Candidates;
    assert PlannedPeer(o, RelayOf(s), s.peers[i], st.config.peers[i]);
    SelectionMeans(o.text, s.peers[i], RelayOf(s), st.config.peers[i].endpoint);
  }

  /** Stamping a finished plan gives what the snapshot asks for. */
  lemma PlanInForce(o: Options, s: Snapshot, plan: Plan, handle: nat, luid: U64)
    requires plan.Planned? && PlannedSoFar(o, s, |s.peers|, plan.config.peers, plan.routes) && luid != 0
    requires plan.address == R.Address(s.localVirtualIPv4, 32, 0)
    requires plan.config.privateKey == o.privateKey && plan.config.listenPort == o.listenPort
    requires plan.config.replacePeers
    ensures InForce(o, s, State(true, handle, true, plan.config, Stamp(plan.address, luid),
                                StampRoutes(plan.routes, luid), s.networkId))
  {
    hide PlannedPeer, PeerAcceptable, DistinctPeers;
  }

  ghost predicate StrictlyUp(log: seq<Snapshot>) {
    forall i, j | 0 <= i < j < |log| :: log[i].generation < log[j].generation
  }

  lemma NamesNetwork(o: Options, s: Snapshot, st: State)
    requires InForce(o, s, st)
    ensures st.applied && st.networkId == s.networkId
  {
  }

  // ---------------------------------------------------------------- what decides

  /** What does not change: the options and the schedules of faults and interface identifiers. */
  datatype Plant = Plant(options: Options, backendFaults: nat -> bool, adapterFaults: nat -> bool, luids: nat -> U64)

  /** A state of a run: the record, the registry, the device, and the numbers of the next calls. */
  datatype Moment = Moment(log: seq<Snapshot>, state: State, broken: bool, owned: map<string, R.Route>,
                           address: Option<R.Address>, calls: nat, device: Option<Device>, next: nat,
                           adapterCalls: nat)
  {
    ghost function Generation(): int { if log == [] then 0 else log[|log| - 1].generation }

    /** Opening the device and reading its identifier. */
    ghost function Opening(): nat { if device.Some? then 1 else 2 }

    ghost function Handle(): nat { if device.Some? then device.value.handle else next }

    ghost function Luid(p: Plant): U64 { if device.Some? then device.value.luid else p.luids(next) }
  }

  ghost function HostRoutes(s: Snapshot, luid: U64): seq<R.Route> {
    seq(|s.peers|, i requires 0 <= i < |s.peers| => HostRoute(s.peers[i].virtualIPv4, luid))
  }

  /** How many calls the routes of a snapshot take. */
  ghost function Work(owned: map<string, R.Route>, address: Option<R.Address>, s: Snapshot, luid: U64): nat {
    R.Steps(owned, address, R.Address(s.localVirtualIPv4, 32, luid), R.KeysOf(Elements(HostRoutes(s, luid))))
  }

  /** Routes that take `work` calls, then the two calls that configure the device and bring it up. */
  ghost function Driven(p: Plant, calls: nat, work: nat, adapterCalls: nat, lost: bool): Error {
    if lost || !R.Clean(p.backendFaults, calls, calls + work) then RoutesFailed
    else if !R.Clean(p.adapterFaults, adapterCalls, adapterCalls + 2) then AdapterFailed
    else NoError
  }

  /** Whether what failed that way is put back: no later call fails, the context lives, and the device is the one
      to be restored. */
  ghost predicate PutBack(p: Plant, calls: nat, work: nat, calls': nat, adapterCalls: nat, adapterCalls': nat,
                          lost: Lost,
                          same: bool, e: Error)
  {
    match e
    case RoutesFailed => lost.forward || R.Undone(p.backendFaults, calls, calls', work)
    case AdapterFailed =>
      && !lost.back && same
      && R.Clean(p.backendFaults, calls + work, calls')
      && R.Clean(p.adapterFaults, R.FirstFault(p.adapterFaults, adapterCalls, adapterCalls + 2) + 1, adapterCalls')
    case _ => true
  }

  lemma RoutesDecide(p: Plant, start: nat, work: nat, end: nat, first: nat, lost: Lost, same: bool, ok: bool,
                     undone: bool)
    requires if lost.forward then !ok && undone else R.Decided(p.backendFaults, start, end, work, ok, undone)
    ensures !ok ==> Driven(p, start, work, first, lost.forward) == RoutesFailed
    ensures !ok ==> (undone <==> PutBack(p, start, work, end, first, first, lost, same, RoutesFailed))
    ensures ok ==> end == start + work && R.Clean(p.backendFaults, start, start + work)
  {
    hide R.Clean, R.FirstFault;
  }

  lemma DeviceDecides(p: Plant, start: nat, work: nat, end: nat, first: nat, mid: nat, last: nat, lost: Lost,
                      same: bool,
                      ok: bool, undone: bool)
    requires !lost.forward && R.Clean(p.backendFaults, start, start + work) && R.Ran(p.adapterFaults, first, mid, 2, ok)
    requires if ok then undone
             else undone <==> && !lost.back && same && R.Clean(p.backendFaults, start + work, end)
                              && R.Clean(p.adapterFaults, mid, last)
    ensures Driven(p, start, work, first, false) == if ok then NoError else AdapterFailed
    ensures undone <==>
            PutBack(p, start, work, end, first, last, lost, same, if ok then NoError else AdapterFailed)
  {
    if !ok {
      assert p.adapterFaults(mid - 1);
      assert R.FirstFault(p.adapterFaults, first, first + 2) == mid - 1;
    }
  }

  lemma StampedWork(o: Options, s: Snapshot, plan: Plan, luid: U64, owned: map<string, R.Route>,
                    address: Option<R.Address>)
    requires plan.Planned? && PlannedSoFar(o, s, |s.peers|, plan.config.peers, plan.routes)
    requires plan.address == R.Address(s.localVirtualIPv4, 32, 0)
    ensures Work(owned, address, s, luid) ==
            R.Steps(owned, address, Stamp(plan.address, luid), R.KeysOf(Elements(StampRoutes(plan.routes, luid))))
  {
    hide PlannedPeer, PeerAcceptable, DistinctPeers, R.Steps, R.KeysOf;
    assert StampRoutes(plan.routes, luid) == HostRoutes(s, luid);
  }

  ghost predicate Opens(p: Plant, m: Moment) {
    R.Clean(p.adapterFaults, m.adapterCalls, m.adapterCalls + m.Opening())
  }

  /** What Apply answers. */
  ghost function ApplyOutcome(p: Plant, m: Moment, cancelled: bool, lost: Lost, s: Snapshot): Error {
    if cancelled then Cancelled
    else if s.generation <= 0 then InvalidSnapshot
    else if s.generation < m.Generation() then StaleSnapshot
    else if s.generation == m.Generation() then NoError
    else if !Plannable(p.options, s) then InvalidSnapshot
    else RenewOutcome(p, m, lost, s)
  }

  ghost function RenewOutcome(p: Plant, m: Moment, lost: Lost, s: Snapshot): Error {
    if !Opens(p, m) then AdapterFailed
    else if m.Luid(p) == 0 then InvalidSnapshot
    else Driven(p, m.calls, Work(m.owned, m.address, s, m.Luid(p)), m.adapterCalls + m.Opening(), lost.forward)
  }

  /** Where no call fails and contexts live, every plannable snapshot that is not stale can be applied. */
  lemma WithoutFaults(p: Plant, m: Moment, back: bool, s: Snapshot)
    requires forall k: nat :: !p.backendFaults(k) && !p.adapterFaults(k)
    requires m.Luid(p) != 0 && Plannable(p.options, s) && 0 < s.generation && m.Generation() <= s.generation
    ensures ApplyOutcome(p, m, false, Lost(false, back), s) == NoError
  {
    hide Plannable, Work;
  }

  /** The reasons of each answer. */
  lemma OutcomeReasons(p: Plant, m: Moment, cancelled: bool, lost: Lost, s: Snapshot)
    ensures var e := ApplyOutcome(p, m, cancelled, lost, s);
            && (e == Cancelled <==> cancelled)
            && (e == StaleSnapshot <==> !cancelled && 0 < s.generation < m.Generation())
            && (!cancelled && 0 < s.generation == m.Generation() ==> e == NoError)
            && (e == RoutesFailed ==> lost.forward || exists k: nat :: p.backendFaults(k))
            && (e == AdapterFailed ==> exists k: nat :: p.adapterFaults(k))
            && (lost.forward && s.generation > m.Generation() ==> e != NoError)
            && (e == InvalidSnapshot ==> s.generation <= 0 || !Plannable(p.options, s) || m.Luid(p) == 0)
  {
    hide Work, Plannable;
  }

  /** Whether Apply leaves nothing half done. */
  ghost predicate Tidy(p: Plant, m: Moment, after: Moment, lost: Lost, s: Snapshot, e: Error) {
    || (e == AdapterFailed && !Opens(p, m))
    || PutBack(p, m.calls, Work(m.owned, m.address, s, m.Luid(p)), after.calls, m.adapterCalls + m.Opening(),
               after.adapterCalls, lost, m.state.applied ==> m.Handle() == m.state.handle, e)
  }

  lemma NothingBegun(p: Plant, m: Moment, lost: Lost, s: Snapshot, e: Error)
    requires e != RoutesFailed && e != AdapterFailed
    ensures forall after :: Tidy(p, m, after, lost, s, e)
  {
  }

  /** What Clear answers. */
  ghost function ClearOutcome(p: Plant, m: Moment, cancelled: bool, lost: bool): Error {
    if cancelled then Cancelled
    else if m.log == [] then NoError
    else if (&& !lost && R.Clean(p.backendFaults, m.calls, m.calls + R.Holdings(m.owned, m.address))
             && R.Clean(p.adapterFaults, m.adapterCalls, m.adapterCalls + 2)
             && m.device.Some? && m.device.value.handle == m.state.handle) then NoError
    else AdapterFailed
  }

  datatype Command = DoApply(cancelled: bool, lost: Lost, snapshot: Snapshot) | DoClear(cancelled: bool, late: bool)

  ghost function OutcomeOf(p: Plant, c: Command, m: Moment): Error {
    match c
    case DoApply(cancelled, lost, s) => ApplyOutcome(p, m, cancelled, lost, s)
    case DoClear(cancelled, late) => ClearOutcome(p, m, cancelled, late)
  }

  /** The state after a Clear that succeeds. */
  ghost function Emptied(m: Moment): Moment {
    if m.log == [] then m
    else Moment([], NoState, m.broken, map[], None, m.calls + R.Holdings(m.owned, m.address), None, m.next,
                m.adapterCalls + 2)
  }

  /** The state after a successful Apply: nothing changed at the generation that is in force, and otherwise the
      snapshot joins the log, the record is what it asks for and the device runs it. */
  ghost predicate Applied(p: Plant, s: Snapshot, before: Moment, after: Moment) {
    if before.Generation() == s.generation then after == before
    else && after.log == before.log + [s] && InForce(p.options, s, after.state)
         && after.device == Some(Device(after.state.handle, after.state.address.luid, Some(after.state.config), true))
  }

  /** What a command answers and does: the answer follows from the state before it and the calls that fail. A failure
      leaves the record, and one that leaves nothing half done leaves registry and device as well. */
  ghost predicate Follows(p: Plant, c: Command, e: Error, before: Moment, after: Moment) {
    && e == OutcomeOf(p, c, before)
    && (e == NoError ==> if c.DoApply? then Applied(p, c.snapshot, before, after) else after == Emptied(before))
    && (after.broken <==>
          || before.broken
          || (if c.DoApply? then !Tidy(p, before, after, c.lost, c.snapshot, e) else e == AdapterFailed))
    && (e != NoError ==> after.log == before.log && after.state == before.state)
    && (e != NoError && !after.broken ==>
          && after.owned == before.owned && after.address == before.address
          && (before.state.applied ==> after.device == before.device))
  }

  class Applier {
    const adapter: Adapter
    const routes: R.RouteReconciler
    const options: Options
    var state: State
    var generation: int
    /** Set when a compensating or cleanup call has failed. */
    ghost var broken: bool
    /** The snapshots put in force since the last effective Clear, and the last of them. */
    ghost var log: seq<Snapshot>
    ghost var source: Option<Snapshot>

    ghost function Footprint(): set<object>
    {
      {this, adapter, routes, routes.backend}
    }

    ghost function Site(): Plant { Plant(options, routes.backend.faults, adapter.faults, adapter.luids) }

    ghost function Now(): Moment
      reads this, adapter, routes, routes.backend
    {
      Moment(log, state, broken, routes.ownedRoutes, routes.address, routes.backend.calls, adapter.device, adapter.next,
             adapter.calls)
    }

    /** Kernel, registry and device are what the recorded state says. */
    ghost predicate InSync()
      reads this, adapter, routes, routes.backend
    {
      && routes.Exact()
      && (state.applied ==>
            routes.Canonical(state.address, Elements(state.routes)) && Configured())
      && (!state.applied ==> routes.ownedRoutes == map[] && routes.address == None)
    }

    /** The device of the recorded handle and interface runs the recorded configuration. */
    ghost predicate Configured()
      reads this, adapter
    {
      adapter.device == Some(Device(state.handle, state.address.luid, Some(state.config), state.up))
    }

    ghost predicate Valid()
      reads this, adapter, routes, routes.backend
    {
      && ValidOptions(options)
      && routes.Valid()
      && (generation > 0 <==> state.applied) && generation >= 0
      && (state.applied ==> R.Accepts(state.address, state.routes) && W.ValidConfiguration(state.config) && state.up)
      && (state.applied <==> source.Some?) && StrictlyUp(log)
      && source == (if log == [] then None else Some(log[|log| - 1]))
      && (source.Some? ==> InForce(options, source.value, state) && generation == source.value.generation)
      && (!broken ==> !routes.compensationFailed && InSync())
    }

    constructor (options: Options, adapter: Adapter, routes: R.RouteReconciler)
      requires ValidOptions(options) && routes.Valid() && !routes.compensationFailed
      requires routes.ownedRoutes == map[] && routes.address == None
      ensures Valid() && !broken && !state.applied && generation == 0 && log == []
      ensures this.options == options && this.adapter == adapter && this.routes == routes
    {
      this.options, this.adapter, this.routes := options, adapter, routes;
      state, generation, broken, source, log := NoState, 0, false, None, [];
    }

    twostate predicate RecordUnchanged()
      reads this
    {
      state == old(state) && generation == old(generation) && source == old(source) && log == old(log)
    }

    /** Puts the last good configuration back, or clears everything when there was none. */
    method Rollback(handle: nat, lost: bool) returns (ghost undone: bool)
      requires routes.Valid()
      requires state.applied ==> R.Accepts(state.address, state.routes)
      modifies this`broken, adapter, routes, routes.backend
      ensures routes.Valid()
      ensures routes.compensationFailed ==> old(routes.compensationFailed) || !undone
      ensures broken == (old(broken) || !undone)
      ensures undone && old(routes.Exact()) && state.applied ==>
                routes.Exact() && routes.Canonical(state.address, Elements(state.routes))
      ensures undone && old(routes.Exact()) && !state.applied ==>
                routes.Exact() && routes.ownedRoutes == map[] && routes.address == None
      ensures undone && state.applied ==>
                && old(adapter.device).Some? && old(adapter.device).value.handle == state.handle
                && adapter.device == Some(old(adapter.device).value.(config := Some(state.config),
                                                                     up := state.up || old(adapter.device).value.up))
      ensures undone && !state.applied ==> adapter.device == None
      // it works exactly when the context lives, no call fails and the device is the one to be restored
      ensures old(routes.backend.calls) <= routes.backend.calls && old(adapter.calls) <= adapter.calls
      ensures undone <==>
              && !lost && R.Clean(routes.backend.faults, old(routes.backend.calls), routes.backend.calls)
              && R.Clean(adapter.faults, old(adapter.calls), adapter.calls)
              && old(adapter.device).Some?
              && old(adapter.device).value.handle == if state.applied then state.handle else handle
    {
      hide R.Accepts, R.RouteReconciler.Canonical, R.RouteReconciler.Exact, R.RouteReconciler.Valid, Elements,
           R.Decided, R.Steps, R.KeysOf, R.Holdings;
      if state.applied {
        ghost var n := R.Steps(routes.ownedRoutes, routes.address, state.address, R.KeysOf(Elements(state.routes)));
        var e, u := routes.Reconcile(lost, state.address, state.routes);
        if !lost {
          R.AllOrSome(routes.backend.faults, old(routes.backend.calls), routes.backend.calls, n, e == R.NoError, u);
        }
        if e == R.NoError && old(routes.Exact()) { routes.CanonicalIsExact(state.address, Elements(state.routes)); }
        var ok := adapter.Configure(state.handle, state.config);
        if ok && state.up {
          ok := adapter.SetState(state.handle, true);
        }
        undone := e == R.NoError && u && ok;
      } else {
        var e := routes.Clear(lost);
        var ok := adapter.TakeDown(handle);
        undone := e == R.NoError && ok;
      }
      broken := broken || !undone;
    }

    /** The registry and the kernel are what they were. */
    twostate predicate RoutesUnchanged()
      reads routes, routes.backend
    {
      && routes.address == old(routes.address) && routes.addressOwned == old(routes.addressOwned)
      && routes.ownedRoutes == old(routes.ownedRoutes)
      && routes.backend.routes == old(routes.backend.routes)
      && routes.backend.addresses == old(routes.backend.addresses)
    }

    /** Undoing brought back registry and kernel as they were before the attempt. */
    twostate lemma Restored()
      requires old(routes.Valid()) && old(InSync()) && state == old(state)
      requires routes.Valid() && routes.Exact()
      requires state.applied ==> routes.Canonical(state.address, Elements(state.routes))
      requires !state.applied ==> routes.ownedRoutes == map[] && routes.address == None
      ensures RoutesUnchanged()
    {
      hide R.Keyed, R.RoutesOf, Elements, R.Backend.Safe;
      if state.applied {
        routes.CanonicalRegistry(state.address, Elements(state.routes), old(routes.ownedRoutes), old(routes.address));
      }
    }

    twostate lemma StillInSync()
      requires old(InSync()) && RecordUnchanged() && RoutesUnchanged() && adapter.device == old(adapter.device)
      ensures InSync()
    {
      hide R.RoutesOf, Elements;
    }

    lemma LogOfValid()
      requires Valid()
      ensures StrictlyUp(log) && (!broken ==> InSync())
      ensures log == [] ==> !state.applied && generation == 0
      ensures log != [] <==> state.applied
      ensures log != [] ==>
                && generation == log[|log| - 1].generation > 0
                && InForce(options, log[|log| - 1], state)
    {
      hide InForce, InSync, W.ValidConfiguration, ValidOptions, R.Accepts, R.RouteReconciler.Valid, StrictlyUp;
    }

    lemma Parts()
      requires Valid()
      ensures ValidOptions(options) && routes.Valid() && StrictlyUp(log) && 0 <= generation
      ensures state.applied ==> R.Accepts(state.address, state.routes) && state.up
      ensures source == (if log == [] then None else Some(log[|log| - 1]))
      ensures source.Some? ==> generation == source.value.generation
      ensures !broken ==>
                !routes.compensationFailed && InSync() && routes.Exact() && (state.applied ==> Configured())
    {
      hide InForce, W.ValidConfiguration, ValidOptions, R.Accepts, R.RouteReconciler.Valid, R.RouteReconciler.Canonical,
           R.RouteReconciler.Exact, StrictlyUp, Elements;
    }

    lemma InSyncFrom()
      requires routes.Exact()
      requires state.applied ==> routes.Canonical(state.address, Elements(state.routes)) && Configured()
      requires !state.applied ==> routes.ownedRoutes == map[] && routes.address == None
      ensures InSync()
    {
      hide R.RouteReconciler.Canonical, R.RouteReconciler.Exact, Elements;
    }

    /** An unchanged record stays good while the data plane matches it or is known to be broken. */
    twostate lemma StillValid()
      requires old(Valid()) && RecordUnchanged() && routes.Valid()
      requires !broken ==> !routes.compensationFailed && InSync()
      ensures Valid()
    {
      hide InForce, W.ValidConfiguration, ValidOptions, R.Accepts, R.RouteReconciler.Valid, Applier.InSync, StrictlyUp;
    }

    /** Address and routes of a plan, or none of them. */
    method SetRoutes(lost: Lost, s: Snapshot, plan: Plan, luid: U64, ghost same: bool)
      returns (ok: bool, ghost undone: bool)
      requires Valid() && luid != 0 && plan.Planned? && Plannable(options, s)
      requires PlannedSoFar(options, s, |s.peers|, plan.config.peers, plan.routes)
      requires plan.address == R.Address(s.localVirtualIPv4, 32, 0)
      modifies this`broken, routes, routes.backend
      ensures routes.Valid() && broken == (old(broken) || !undone)
      ensures !ok ==> Valid() && (!old(broken) && undone ==> RoutesUnchanged())
      ensures var work := Work(old(routes.ownedRoutes), old(routes.address), s, luid);
              var start := old(routes.backend.calls);
              if ok then undone && !lost.forward && routes.backend.calls == start + work
                         && R.Clean(routes.backend.faults, start, start + work)
              else && Driven(Site(), start, work, adapter.calls, lost.forward) == RoutesFailed
                   && (undone <==> PutBack(Site(), start, work, routes.backend.calls, adapter.calls, adapter.calls,
                                           lost, same, RoutesFailed))
      ensures ok ==> routes.compensationFailed == old(routes.compensationFailed)
      ensures ok && old(routes.Exact()) ==>
                routes.Exact() && routes.Canonical(Stamp(plan.address, luid), Elements(StampRoutes(plan.routes, luid)))
    {
      hide InForce, Plannable, PlannedSoFar, W.ValidConfiguration, ValidOptions, R.Accepts, R.Keyed, R.RoutesOf,
           R.Backend.Safe, Elements, R.RouteReconciler.Valid, R.RouteReconciler.Canonical, R.RouteReconciler.Exact,
           StrictlyUp, R.Decided, R.Undone, R.Clean, R.Steps, R.KeysOf, PutBack, Driven, Work, Applier.Valid,
           Applier.InSync, StampRoutes;
      Parts();
      StampedIsAccepted(options, s, plan.config.peers, plan.routes, luid);
      StampedWork(options, s, plan, luid, routes.ownedRoutes, routes.address);
      var address, rs := Stamp(plan.address, luid), StampRoutes(plan.routes, luid);
      ghost var start, work := routes.backend.calls, Work(routes.ownedRoutes, routes.address, s, luid);
      var e, u := routes.Reconcile(lost.forward, address, rs);
      ok, undone := e == R.NoError, u;
      RoutesDecide(Site(), start, work, routes.backend.calls, adapter.calls, lost, same, ok, u);
      if ok {
        if old(routes.Exact()) { routes.CanonicalIsExact(address, Elements(rs)); }
      } else {
        broken := broken || !u;
        if !broken { StillInSync(); }
        StillValid();
      }
    }

    /** Routes, configuration and link state, in that order; the first failure undoes what came before. */
    method Install(lost: Lost, s: Snapshot, plan: Plan, handle: nat, luid: U64) returns (e: Error, ghost undone: bool)
      requires Valid() && s.generation > generation && luid != 0
      requires plan.Planned? && Plannable(options, s)
      requires PlannedSoFar(options, s, |s.peers|, plan.config.peers, plan.routes)
      requires plan.address == R.Address(s.localVirtualIPv4, 32, 0) && W.ValidConfiguration(plan.config)
      requires plan.config.privateKey == options.privateKey && plan.config.listenPort == options.listenPort
      requires plan.config.replacePeers
      requires adapter.device.Some? && adapter.device.value.handle == handle && adapter.device.value.luid == luid
      modifies Footprint()
      ensures Valid()
      ensures broken == (old(broken) || !undone)
      ensures e == NoError || e == RoutesFailed || e == AdapterFailed
      ensures e != NoError ==> RecordUnchanged()
      ensures e != NoError && !old(broken) && undone ==>
                RoutesUnchanged() && (state.applied ==> adapter.device == old(adapter.device))
      ensures e == RoutesFailed ==> adapter.device == old(adapter.device)
      ensures e == AdapterFailed && undone && !state.applied ==> adapter.device == None
      ensures e == NoError ==> undone && source == Some(s) && InForce(options, s, state) && generation == s.generation
      ensures e == NoError ==> Configured() && log == old(log) + [s]
      // all of it is decided by the calls that fail
      ensures e == Driven(Site(), old(routes.backend.calls),
                          Work(old(routes.ownedRoutes), old(routes.address), s, luid), old(adapter.calls), lost.forward)
      ensures undone <==>
              PutBack(Site(), old(routes.backend.calls), Work(old(routes.ownedRoutes), old(routes.address), s, luid),
                      routes.backend.calls, old(adapter.calls), adapter.calls, lost,
                      old(state.applied) ==> handle == old(state.handle), e)
    {
      hide InForce, Plannable, PlannedSoFar, W.ValidConfiguration, ValidOptions, R.Accepts, R.Keyed, R.RoutesOf,
           R.Backend.Safe, Elements, R.RouteReconciler.Valid, R.RouteReconciler.Canonical, R.RouteReconciler.Exact,
           StrictlyUp, R.Decided, R.Undone, R.Clean, R.Ran, R.Steps, R.KeysOf, PutBack,
           Driven, Work, Applier.Valid, Applier.InSync, StampRoutes;
      Parts();
      PlanInForce(options, s, plan, handle, luid);
      StampedIsAccepted(options, s, plan.config.peers, plan.routes, luid);
      ghost var start, first := routes.backend.calls, adapter.calls;
      ghost var work := Work(routes.ownedRoutes, routes.address, s, luid);
      ghost var same := state.applied ==> handle == state.handle;
      var ok;
      ok, undone := SetRoutes(lost, s, plan, luid, same);
      if !ok { return RoutesFailed, undone; }
      ghost var mid := routes.backend.calls;
      ok := adapter.Bring(handle, plan.config);
      ghost var brought := adapter.calls;
      if !ok {
        undone := Rollback(handle, lost.back);
        DeviceDecides(Site(), start, work, routes.backend.calls, first, brought, adapter.calls, lost, same, false,
                      undone);
        if !broken {
          Restored();
          InSyncFrom();
        }
        StillValid();
        return AdapterFailed, undone;
      }
      DeviceDecides(Site(), start, work, mid, first, brought, brought, lost, same, true, true);
      Record(s, State(true, handle, true, plan.config, Stamp(plan.address, luid), StampRoutes(plan.routes, luid),
                      s.networkId));
      e := NoError;
    }

    /** Records what is now in force. */
    method Record(s: Snapshot, st: State)
      requires ValidOptions(options) && routes.Valid() && StrictlyUp(log) && 0 <= generation < s.generation
      requires source == (if log == [] then None else Some(log[|log| - 1]))
      requires source.Some? ==> source.value.generation == generation
      requires InForce(options, s, st) && st.applied && st.up
      requires R.Accepts(st.address, st.routes) && W.ValidConfiguration(st.config)
      requires adapter.device == Some(Device(st.handle, st.address.luid, Some(st.config), st.up))
      requires !broken ==>
                 !routes.compensationFailed && routes.Exact() && routes.Canonical(st.address, Elements(st.routes))
      modifies this`state, this`generation, this`source, this`log
      ensures Valid() && Configured() && state == st && generation == s.generation
      ensures source == Some(s) && log == old(log) + [s]
    {
      hide InForce, W.ValidConfiguration, ValidOptions, R.Accepts, R.RoutesOf, R.Backend.Safe, Elements,
           R.RouteReconciler.Valid, R.RouteReconciler.Canonical, R.RouteReconciler.Exact;
      state, generation, source, log := st, s.generation, Some(s), log + [s];
    }

    /** Opens the device, reads its identifier and installs the plan of a newer snapshot on it. */
    method Renew(lost: Lost, s: Snapshot, plan: Plan) returns (e: Error, ghost undone: bool)
      requires Valid() && s.generation > generation
      requires plan.Planned? && Plannable(options, s)
      requires PlannedSoFar(options, s, |s.peers|, plan.config.peers, plan.routes)
      requires plan.address == R.Address(s.localVirtualIPv4, 32, 0) && W.ValidConfiguration(plan.config)
      requires plan.config.privateKey == options.privateKey && plan.config.listenPort == options.listenPort
      requires plan.config.replacePeers
      modifies Footprint()
      ensures Valid()
      ensures broken == (old(broken) || !undone)
      ensures e != NoError ==> RecordUnchanged()
      ensures e != NoError && !old(broken) && undone ==>
                RoutesUnchanged() && (state.applied ==> adapter.device == old(adapter.device))
      ensures e != NoError && undone && !state.applied ==>
                || adapter.device == None || adapter.device == old(adapter.device)
                || (old(adapter.device) == None && adapter.device.value.config == None && !adapter.device.value.up)
      ensures e == NoError ==> undone && source == Some(s) && InForce(options, s, state) && generation == s.generation
      ensures e == NoError ==> Configured() && log == old(log) + [s]
      ensures e == RoutesFailed ==> adapter.device.Some?
      ensures e == InvalidSnapshot ==> adapter.device.Some? && adapter.device.value.luid == 0
      ensures e == RenewOutcome(Site(), old(Now()), lost, s)
      ensures undone <==> Tidy(Site(), old(Now()), Now(), lost, s, e)
    {
      hide InForce, Plannable, PlannedSoFar, W.ValidConfiguration, ValidOptions, R.Accepts, Elements, Driven, PutBack,
           R.RouteReconciler.Valid, R.RouteReconciler.Canonical, R.RouteReconciler.Exact, Work, StrictlyUp;
      ghost var m := Now();
      var handle, ok := adapter.Ensure();
      var luid := 0;
      if ok { luid, ok := adapter.Luid(handle); }
      assert ok <==> Opens(Site(), m);
      if !ok { return AdapterFailed, true; }
      if luid == 0 {
        NothingBegun(Site(), m, lost, s, InvalidSnapshot);
        return InvalidSnapshot, true;
      }
      e, undone := Install(lost, s, plan, handle, luid);
    }

    /** Applies a newer snapshot, or leaves the record alone and puts the data plane back. */
    method Apply(cancelled: bool, lost: Lost, s: Snapshot) returns (e: Error, ghost undone: bool)
      requires Valid()
      modifies Footprint()
      ensures Valid()
      ensures broken == (old(broken) || !undone)
      // failure: the record is untouched, and so is the data plane if every compensating call succeeded
      ensures e != NoError ==> RecordUnchanged()
      ensures e != NoError && !old(broken) && undone ==>
                RoutesUnchanged() && (state.applied ==> adapter.device == old(adapter.device))
      // with nothing applied before, a device is at most left open, unconfigured and down
      ensures e != NoError && undone && !state.applied ==>
                || adapter.device == None || adapter.device == old(adapter.device)
                || (old(adapter.device) == None && adapter.device.value.config == None && !adapter.device.value.up)
      // success: a snapshot of the generation is in force, the given one unless that generation was already
      ensures e == NoError ==> undone && source.Some? && source.value.generation == generation == s.generation > 0
      ensures e == NoError ==> InForce(options, source.value, state) && old(generation) <= generation
      ensures e == NoError && s.generation != old(generation) ==>
                source == Some(s) && log == old(log) + [s] && Plannable(options, s) && Configured()
      ensures !cancelled && 0 < s.generation == old(generation) ==> e == NoError
      ensures e == NoError && s.generation == old(generation) ==>
                RecordUnchanged() && RoutesUnchanged() && adapter.device == old(adapter.device)
      // exactly when the network in force is the one the snapshot names
      ensures e == NoError ==>
                (state.networkId == s.networkId <==>
                   s.generation != old(generation) || old(state.networkId) == s.networkId)
      ensures e == InvalidSnapshot ==>
                s.generation <= 0 || !Plannable(options, s) || (adapter.device.Some? && adapter.device.value.luid == 0)
      ensures e == StaleSnapshot <==> !cancelled && 0 < s.generation < old(generation)
      ensures e == Cancelled <==> cancelled
      // nothing else fails unless a call does or the context is cancelled on the way
      ensures e == RoutesFailed ==> lost.forward || routes.backend.Faulty()
      ensures e == AdapterFailed ==> adapter.Faulty()
      ensures lost.forward && s.generation > old(generation) ==> e != NoError
      ensures e == RoutesFailed ==> adapter.device.Some?
      ensures e == InvalidSnapshot && 0 < s.generation && Plannable(options, s) ==>
                old(adapter.device).Some? || adapter.Nameless()
      // the state before it and the calls that fail decide what it answers and whether all is put back
      ensures e == ApplyOutcome(Site(), old(Now()), cancelled, lost, s)
      ensures undone <==> Tidy(Site(), old(Now()), Now(), lost, s, e)
      ensures Follows(Site(), DoApply(cancelled, lost, s), e, old(Now()), Now())
    {
      hide InForce, Plannable, PlannedSoFar, W.ValidConfiguration, ValidOptions, R.Accepts, Elements, Driven, PutBack,
           R.RouteReconciler.Valid, R.RouteReconciler.Canonical, R.RouteReconciler.Exact, Opens, Work, StrictlyUp,
           RenewOutcome, Tidy;
      undone := true;
      LogOfValid();
      ghost var m := Now();
      OutcomeReasons(Site(), m, cancelled, lost, s);
      NothingBegun(Site(), m, lost, s, Cancelled);
      NothingBegun(Site(), m, lost, s, InvalidSnapshot);
      NothingBegun(Site(), m, lost, s, StaleSnapshot);
      NothingBegun(Site(), m, lost, s, NoError);
      if cancelled { return Cancelled, true; }
      if s.generation <= 0 { return InvalidSnapshot, true; }
      if s.generation < generation { return StaleSnapshot, true; }
      if s.generation == generation { return NoError, true; }
      var plan := MakePlan(options, s);
      if plan.Rejected? { return InvalidSnapshot, true; }
      e, undone := Renew(lost, s, plan);
      if e == NoError { NamesNetwork(options, s, state); }
    }

    /** Releases everything that is applied; a partial failure keeps the record so that it can be retried. */
    method Clear(cancelled: bool, lost: bool) returns (e: Error)
      requires Valid()
      modifies Footprint()
      ensures Valid()
      ensures e == NoError ==> !state.applied && generation == 0 && source == None && log == [] && broken == old(broken)
      ensures e == NoError && old(state.applied) ==> routes.ownedRoutes == map[] && routes.address == None
      // what success leaves behind, exactly: nothing is touched when nothing was applied
      ensures e == NoError ==> (adapter.device == None <==> old(state.applied) || old(adapter.device) == None)
      ensures e == NoError ==> (routes.ownedRoutes == map[] <==> old(state.applied) || old(routes.ownedRoutes) == map[])
      ensures e == NoError ==> (routes.address == None <==> old(state.applied) || old(routes.address) == None)
      ensures e == NoError && !old(state.applied) ==>
                RecordUnchanged() && RoutesUnchanged() && adapter.device == old(adapter.device)
      ensures e != NoError ==> RecordUnchanged()
      ensures cancelled ==>
                e == Cancelled && RoutesUnchanged() && adapter.device == old(adapter.device) && broken == old(broken)
      ensures !cancelled && !old(state.applied) ==> e == NoError
      ensures !cancelled && e != NoError ==> broken
      ensures e in {NoError, Cancelled, AdapterFailed} && (e == Cancelled <==> cancelled)
      ensures e == ClearOutcome(Site(), old(Now()), cancelled, lost)
      ensures Follows(Site(), DoClear(cancelled, lost), e, old(Now()), Now())
    {
      hide InForce, W.ValidConfiguration, ValidOptions, R.Accepts, R.Keyed, R.RoutesOf, R.Backend.Safe, Elements,
           R.RouteReconciler.Valid, R.RouteReconciler.Canonical, R.RouteReconciler.Exact, R.Holdings, R.Clean,
           Applier.Valid, Applier.InSync, StrictlyUp;
      Parts();
      LogOfValid();
      if cancelled { return Cancelled; }
      if !state.applied { return NoError; }
      var re := routes.Clear(lost);
      var ok := adapter.TakeDown(state.handle);
      if re == R.NoError && ok {
        Forget();
        e := NoError;
      } else {
        broken := true;
        StillValid();
        e := AdapterFailed;
      }
    }

    /** Records that nothing is applied. */
    method Forget()
      requires ValidOptions(options) && routes.Valid()
      requires !broken ==>
                 !routes.compensationFailed && routes.Exact() && routes.ownedRoutes == map[] && routes.address == None
      modifies this`state, this`generation, this`source, this`log
      ensures Valid() && state == NoState && generation == 0 && source == None && log == []
    {
      hide InForce, W.ValidConfiguration, ValidOptions, R.Accepts, R.RouteReconciler.Valid, R.RouteReconciler.Canonical,
           R.RouteReconciler.Exact;
      state, generation, source, log := NoState, 0, None, [];
    }
  }

  method Do(applier: Applier, c: Command) returns (e: Error)
    requires applier.Valid()
    modifies applier.Footprint()
    ensures applier.Valid() && Follows(applier.Site(), c, e, old(applier.Now()), applier.Now())
  {
    hide InForce, W.ValidConfiguration, ValidOptions, R.Accepts, R.RouteReconciler.Valid, R.RouteReconciler.Canonical,
         R.RouteReconciler.Exact, Plannable, StrictlyUp, ApplyOutcome, ClearOutcome, Tidy, Applier.Valid;
    applier.LogOfValid();
    match c {
      case DoApply(cancelled, lost, s) =>
        ghost var undone;
        e, undone := applier.Apply(cancelled, lost, s);
      case DoClear(cancelled, late) =>
        e := applier.Clear(cancelled, late);
    }
  }

  /** Any run. `moments` are the states before each command and at the end: each answer and the state after it follow
      from the command, the state before it and the calls that fail. Generations in the log strictly increase at every
      moment, and the last snapshot of it is in force, or nothing is applied when it is empty. While nothing that undoes
      or cleans up has failed, kernel, registry and device match the record. */
  method Run(applier: Applier, commands: seq<Command>) returns (ghost moments: seq<Moment>, results: seq<Error>)
    requires applier.Valid()
    modifies applier.Footprint()
    ensures applier.Valid()
    ensures |moments| == |commands| + 1 && |results| == |commands|
    ensures moments[0] == old(applier.Now()) && moments[|commands|] == applier.Now()
    ensures forall i | 0 <= i <= |commands| :: StrictlyUp(moments[i].log)
    ensures forall i, j | 0 <= i < |commands| && j == i + 1 ::
              Follows(applier.Site(), commands[i], results[i], moments[i], moments[j])
    ensures applier.log == [] ==> !applier.state.applied && applier.generation == 0
    ensures applier.log != [] ==>
              && applier.generation == applier.log[|applier.log| - 1].generation > 0
              && InForce(applier.options, applier.log[|applier.log| - 1], applier.state)
    ensures !applier.broken ==> applier.InSync()
  {
    hide InForce, Applier.Valid, Applier.InSync, StrictlyUp, Follows;
    moments, results := [applier.Now()], [];
    applier.LogOfValid();
    for n := 0 to |commands|
      invariant applier.Valid()
      invariant |moments| == n + 1 && |results| == n && moments[0] == old(applier.Now()) && moments[n] == applier.Now()
      invariant forall i | 0 <= i <= n :: StrictlyUp(moments[i].log)
      invariant forall i, j | 0 <= i < n && j == i + 1 ::
                  Follows(applier.Site(), commands[i], results[i], moments[i], moments[j])
    {
      var e := Do(applier, commands[n]);
      applier.LogOfValid();
      moments, results := moments + [applier.Now()], results + [e];
    }
    applier.LogOfValid();
  }

  /** A Clear that succeeds may leave things behind when nothing was applied. A first snapshot whose context is
      cancelled before the routes are set leaves its device open; Clear then reports success and does not touch it. */
  method DeviceLeftOpen(applier: Applier, s: Snapshot) returns (first: Error, second: Error)
    requires applier.Valid() && !applier.state.applied && applier.adapter.device == None
    requires !applier.adapter.Faulty() && !applier.adapter.Nameless()
    requires s.generation > 0 && Plannable(applier.options, s)
    modifies applier.Footprint()
    ensures applier.Valid()
    ensures first == RoutesFailed && second == NoError && applier.adapter.device.Some?
  {
    hide InForce, W.ValidConfiguration, ValidOptions, R.Accepts, R.RouteReconciler.Valid, R.RouteReconciler.Canonical,
         R.RouteReconciler.Exact, Plannable, StrictlyUp, Adapter.Faulty, Adapter.Nameless;
    ghost var undone;
    first, undone := applier.Apply(false, Lost(true, false), s);
    second := applier.Clear(false, false);
  }
}
