/** Ownership-tracking route reconciliation over a backend that may fail at any
    call (internal/netwin/route_reconciler.go). */
module Reconciler {
  import opened Text
  import opened NetIp

  datatype Address = Address(ip: Addr, prefixLength: Byte, luid: U64)
  datatype Route = Route(destination: Prefix, luid: U64, nextHop: Addr, metric: U32)

  datatype Error = NoError | InvalidRoute | DefaultRoute | Cancelled | BackendFailed

  // ---------------------------------------------------------------- validation and keys

  predicate ValidAddress(a: Address) {
    a.ip.V4? && a.prefixLength == 32 && a.luid != 0
  }

  function ValidateRoute(r: Route): Error {
    if r.destination.IsValid() && r.destination.bits == 0 then DefaultRoute
    else if !r.destination.IsValid() || !r.destination.addr.V4? || r.destination.bits != 32 || r.luid == 0
    then InvalidRoute
    else if r.nextHop.V6? then InvalidRoute
    else NoError
  }

  predicate ValidRoute(r: Route) { ValidateRoute(r) == NoError }

  function DottedQuad(v: U32): string {
    Decimal(v / 0x100_0000) + "."
    + (Decimal(v / 0x1_0000 % 256) + "." + (Decimal(v / 256 % 256) + "." + Decimal(v % 256)))
  }

  function HopText(a: Addr): string
    requires !a.V6?
  {
    if a.V4? then DottedQuad(a.v4) else ""
  }

  function RouteKey(r: Route): string
    requires ValidRoute(r)
  {
    Decimal(r.luid) + "|"
    + ((DottedQuad(r.destination.addr.v4) + "/32") + "|" + (HopText(r.nextHop) + "|" + Decimal(r.metric)))
  }

  lemma DottedQuadInjective(v: U32, w: U32)
    requires DottedQuad(v) == DottedQuad(w)
    ensures v == w
  {
    var a1, a2, a3, a4 := v / 0x100_0000, v / 0x1_0000 % 256, v / 256 % 256, v % 256;
    var b1, b2, b3, b4 := w / 0x100_0000, w / 0x1_0000 % 256, w / 256 % 256, w % 256;
    forall n: nat ensures '.' !in Decimal(n) { DecimalHasOnlyDigits(n, '.'); }
    SplitUnique('.', Decimal(a1), Decimal(a2) + "." + (Decimal(a3) + "." + Decimal(a4)),
                Decimal(b1), Decimal(b2) + "." + (Decimal(b3) + "." + Decimal(b4)));
    SplitUnique('.', Decimal(a2), Decimal(a3) + "." + Decimal(a4), Decimal(b2), Decimal(b3) + "." + Decimal(b4));
    SplitUnique('.', Decimal(a3), Decimal(a4), Decimal(b3), Decimal(b4));
    DecimalInjective(a1, b1);
    DecimalInjective(a2, b2);
    DecimalInjective(a3, b3);
    DecimalInjective(a4, b4);
    QuadValue(v);
    QuadValue(w);
  }

  lemma QuadValue(v: U32)
    ensures v == v / 0x100_0000 * 0x100_0000 + v / 0x1_0000 % 256 * 0x1_0000 + v / 256 % 256 * 256 + v % 256
  {
  }

  lemma DottedQuadChars(v: U32, c: char)
    requires !IsDigit(c) && c != '.'
    ensures c !in DottedQuad(v)
  {
    forall n: nat ensures c !in Decimal(n) { DecimalHasOnlyDigits(n, c); }
  }

  lemma DottedQuadNonEmpty(v: U32)
    ensures DottedQuad(v) != ""
  {
  }

  lemma HopInjective(a: Addr, b: Addr)
    requires !a.V6? && !b.V6? && HopText(a) == HopText(b)
    ensures a == b
  {
    if a.V4? { DottedQuadNonEmpty(a.v4); }
    if b.V4? { DottedQuadNonEmpty(b.v4); }
    if a.V4? && b.V4? { DottedQuadInjective(a.v4, b.v4); }
  }

  /** The registry key identifies a validated route. */
  lemma RouteKeyInjective(r: Route, s: Route)
    requires ValidRoute(r) && ValidRoute(s)
    requires RouteKey(r) == RouteKey(s)
    ensures r == s
  {
    var d, e := DottedQuad(r.destination.addr.v4) + "/32", DottedQuad(s.destination.addr.v4) + "/32";
    forall n: nat ensures '|' !in Decimal(n) { DecimalHasOnlyDigits(n, '|'); }
    DottedQuadChars(r.destination.addr.v4, '|');
    DottedQuadChars(s.destination.addr.v4, '|');
    if r.nextHop.V4? { DottedQuadChars(r.nextHop.v4, '|'); }
    if s.nextHop.V4? { DottedQuadChars(s.nextHop.v4, '|'); }
    SplitUnique('|', Decimal(r.luid), d + "|" + (HopText(r.nextHop) + "|" + Decimal(r.metric)),
                Decimal(s.luid), e + "|" + (HopText(s.nextHop) + "|" + Decimal(s.metric)));
    SplitUnique('|', d, HopText(r.nextHop) + "|" + Decimal(r.metric), e, HopText(s.nextHop) + "|" + Decimal(s.metric));
    SplitUnique('|', HopText(r.nextHop), Decimal(r.metric), HopText(s.nextHop), Decimal(s.metric));
    DecimalInjective(r.luid, s.luid);
    DecimalInjective(r.metric, s.metric);
    HopInjective(r.nextHop, s.nextHop);
    assert d[..|d| - 3] == DottedQuad(r.destination.addr.v4) && e[..|e| - 3] == DottedQuad(s.destination.addr.v4);
    DottedQuadInjective(r.destination.addr.v4, s.destination.addr.v4);
  }

  ghost predicate AllValid(routes: seq<Route>) {
    forall i | 0 <= i < |routes| :: ValidRoute(routes[i])
  }

  ghost predicate Distinct(routes: seq<Route>) {
    forall i, j | 0 <= i < j < |routes| :: routes[i] != routes[j]
  }

  /** The checks Reconcile makes before it touches anything. */
  ghost predicate Accepts(address: Address, routes: seq<Route>) {
    ValidAddress(address) && AllValid(routes) && Distinct(routes)
  }

  /** A request is acceptable when its address is a single IPv4 host on an interface and its routes are different IPv4
      hosts on interfaces, each with an IPv4 next hop or none. */
  lemma AcceptsMeans(address: Address, routes: seq<Route>)
    ensures Accepts(address, routes) <==>
            && address.ip.V4? && address.prefixLength == 32 && address.luid > 0
            && (forall i | 0 <= i < |routes| ::
                  && routes[i].destination.addr.V4? && routes[i].destination.bits == 32 && routes[i].luid > 0
                  && (routes[i].nextHop == NoAddr || routes[i].nextHop.V4?))
            && (forall i, j | 0 <= i < j < |routes| :: routes[i] != routes[j])
  {
  }

  lemma DesireStep(routes: seq<Route>, i: nat)
    requires i < |routes| && AllValid(routes[..i]) && Distinct(routes[..i])
    ensures Elements(routes[..i + 1]) == Elements(routes[..i]) + {routes[i]}
    ensures !ValidRoute(routes[i]) ==> !AllValid(routes)
    ensures ValidRoute(routes[i]) ==> AllValid(routes[..i + 1])
    ensures routes[i] in Elements(routes[..i]) ==> !Distinct(routes)
    ensures routes[i] !in Elements(routes[..i]) ==> Distinct(routes[..i + 1])
  {
    assert routes[..i + 1] == routes[..i] + [routes[i]];
    assert forall j | 0 <= j < i :: routes[..i][j] == routes[j];
    if routes[i] in routes[..i] {
      var j :| 0 <= j < i && routes[j] == routes[i];
    }
  }

  // ---------------------------------------------------------------- schedules of faults

  /** None of the calls number lo to hi - 1 fails. */
  ghost predicate Clean(faults: nat -> bool, lo: nat, hi: nat) { forall k: nat | lo <= k < hi :: !faults(k) }

  /** The first call that fails among those number lo to hi - 1, or hi. */
  ghost function FirstFault(faults: nat -> bool, lo: nat, hi: nat): (j: nat)
    requires lo <= hi
    ensures lo <= j <= hi && Clean(faults, lo, j) && (j < hi ==> faults(j))
    decreases hi - lo
  {
    if lo == hi || faults(lo) then lo else FirstFault(faults, lo + 1, hi)
  }

  /** A plan of n calls, started at call number lo and given up at the first failure, ended before call hi. */
  ghost predicate Ran(faults: nat -> bool, lo: nat, hi: nat, n: nat, ok: bool) {
    if ok then hi == lo + n && Clean(faults, lo, hi)
    else lo < hi <= lo + n && faults(hi - 1) && Clean(faults, lo, hi - 1)
  }

  /** n calls were all made, and ok says that none failed. */
  ghost predicate Tried(faults: nat -> bool, lo: nat, hi: nat, n: nat, ok: bool) {
    hi == lo + n && (ok <==> Clean(faults, lo, hi))
  }

  /** The end of a reconciliation that takes n calls from number `start` on, and ended before call `end`: it succeeds
      exactly when none of them fails, and otherwise all is undone exactly when no call after the first failing one
      fails. */
  ghost predicate Decided(faults: nat -> bool, start: nat, end: nat, n: nat, ok: bool, undone: bool) {
    && (ok <==> Clean(faults, start, start + n))
    && (if ok then end == start + n else FirstFault(faults, start, start + n) < end)
    && (undone <==> Undone(faults, start, end, n))
  }

  ghost predicate Undone(faults: nat -> bool, start: nat, end: nat, n: nat) {
    var j := FirstFault(faults, start, start + n);
    j == start + n || Clean(faults, j + 1, end)
  }

  /** So it succeeded exactly when none of the calls it made failed. */
  lemma AllOrSome(faults: nat -> bool, start: nat, end: nat, n: nat, ok: bool, undone: bool)
    requires Decided(faults, start, end, n, ok, undone)
    ensures start <= end && (ok <==> Clean(faults, start, end))
  {
  }

  lemma DecidedUndone(faults: nat -> bool, start: nat, end: nat, n: nat, ok: bool, undone: bool)
    requires Decided(faults, start, end, n, ok, undone)
    ensures undone == Undone(faults, start, end, n)
  {
  }

  /** A plan that ran to `mid`, followed by what undoes it if it was given up. */
  lemma RanDecides(faults: nat -> bool, lo: nat, mid: nat, end: nat, n: nat, ok: bool, undone: bool)
    requires Ran(faults, lo, mid, n, ok)
    requires if ok || end == mid then end == mid && undone else mid < end && (undone <==> Clean(faults, mid, end))
    ensures Decided(faults, lo, end, n, ok, undone)
  {
    if !ok { assert faults(mid - 1); }
  }

  lemma NoCalls(faults: nat -> bool, lo: nat)
    ensures Ran(faults, lo, lo, 0, true) && Tried(faults, lo, lo, 0, true)
  {
  }

  lemma OneMore(faults: nat -> bool, lo: nat, mid: nat, n: nat, total: nat, ok: bool)
    requires Ran(faults, lo, mid, n, true) && n < total && ok == !faults(mid)
    ensures if ok then Ran(faults, lo, mid + 1, n + 1, true) else Ran(faults, lo, mid + 1, total, false)
  {
  }

  lemma OneTried(faults: nat -> bool, lo: nat, mid: nat, n: nat, before: bool, ok: bool)
    requires Tried(faults, lo, mid, n, before) && ok == !faults(mid)
    ensures Tried(faults, lo, mid + 1, n + 1, before && ok)
  {
  }

  lemma RanOnce(faults: nat -> bool, lo: nat, hi: nat, n: nat)
    requires Ran(faults, lo, hi, n, false) && n <= 1
    ensures hi == lo + 1
  {
  }

  lemma RanThen(faults: nat -> bool, lo: nat, mid: nat, hi: nat, n: nat, m: nat, first: bool, second: bool)
    requires Ran(faults, lo, mid, n, first) && (if first then Ran(faults, mid, hi, m, second) else hi == mid)
    ensures Ran(faults, lo, hi, n + m, first && second)
  {
  }

  // ---------------------------------------------------------------- the backend

  /** Windows IP Helper cut at its interface. Any call may fail, and a failed call changes nothing.
      `foreign*` is what existed before this process; `created*` and `removal*` are the history of
      what was created through it and of what removal was asked for. */
  class Backend {
    const faults: nat -> bool
    var calls: nat
    var routes: set<Route>
    var addresses: set<Address>
    ghost const foreignRoutes: set<Route>
    ghost const foreignAddresses: set<Address>
    ghost var createdRoutes: set<Route>
    ghost var createdAddresses: set<Address>
    ghost var removalRoutes: set<Route>
    ghost var removalAddresses: set<Address>

    constructor (faults: nat -> bool, routes: set<Route>, addresses: set<Address>)
      ensures this.routes == routes == foreignRoutes && this.addresses == addresses == foreignAddresses
      ensures createdRoutes == {} == removalRoutes && createdAddresses == {} == removalAddresses
    {
      this.faults, calls := faults, 0;
      this.routes, this.addresses := routes, addresses;
      foreignRoutes, foreignAddresses := routes, addresses;
      createdRoutes, createdAddresses := {}, {};
      removalRoutes, removalAddresses := {}, {};
    }

    method EnsureAddress(a: Address) returns (created: bool, ok: bool)
      modifies this`calls, this`addresses, this`createdAddresses
      ensures ok ==> created == (a !in old(addresses)) && addresses == old(addresses) + {a}
      ensures !ok ==> !created && addresses == old(addresses)
      ensures createdAddresses == old(createdAddresses) + (if created then {a} else {})
      ensures old(Safe()) ==> Safe()
      ensures calls == old(calls) + 1 && ok == !faults(old(calls))
      ensures !ok ==> Faulty()
    {
      ok := !faults(calls);
      calls := calls + 1;
      created := ok && a !in addresses;
      if created {
        addresses := addresses + {a};
        createdAddresses := createdAddresses + {a};
      }
    }

    method RemoveAddress(a: Address) returns (ok: bool)
      modifies this`calls, this`addresses, this`removalAddresses
      ensures addresses == if ok then old(addresses) - {a} else old(addresses)
      ensures removalAddresses == old(removalAddresses) + {a}
      ensures old(Safe()) && a in createdAddresses ==> Safe()
      ensures calls == old(calls) + 1 && ok == !faults(old(calls))
      ensures !ok ==> Faulty()
    {
      ok := !faults(calls);
      calls := calls + 1;
      removalAddresses := removalAddresses + {a};
      if ok { addresses := addresses - {a}; }
    }

    method EnsureRoute(r: Route) returns (created: bool, ok: bool)
      modifies this`calls, this`routes, this`createdRoutes
      ensures ok ==> created == (r !in old(routes)) && routes == old(routes) + {r}
      ensures !ok ==> !created && routes == old(routes)
      ensures createdRoutes == old(createdRoutes) + (if created then {r} else {})
      ensures old(Safe()) ==> Safe()
      ensures calls == old(calls) + 1 && ok == !faults(old(calls))
      ensures !ok ==> Faulty()
    {
      ok := !faults(calls);
      calls := calls + 1;
      created := ok && r !in routes;
      if created {
        routes := routes + {r};
        createdRoutes := createdRoutes + {r};
      }
    }

    method RemoveRoute(r: Route) returns (ok: bool)
      modifies this`calls, this`routes, this`removalRoutes
      ensures routes == if ok then old(routes) - {r} else old(routes)
      ensures removalRoutes == old(removalRoutes) + {r}
      ensures old(Safe()) && r in createdRoutes ==> Safe()
      ensures calls == old(calls) + 1 && ok == !faults(old(calls))
      ensures !ok ==> Faulty()
    {
      ok := !faults(calls);
      calls := calls + 1;
      removalRoutes := removalRoutes + {r};
      if ok { routes := routes - {r}; }
    }

    /** Some call fails. */
    ghost predicate Faulty() { exists k :: faults(k) }

    /** Whatever failed so far: nothing foreign was touched, and removal was only ever asked for
        things created here. */
    ghost predicate Safe()
      reads this
    {
      && createdRoutes !! foreignRoutes
      && foreignRoutes <= routes <= foreignRoutes + createdRoutes
      && removalRoutes <= createdRoutes
      && createdAddresses !! foreignAddresses
      && foreignAddresses <= addresses <= foreignAddresses + createdAddresses
      && removalAddresses <= createdAddresses
    }
  }

  // ---------------------------------------------------------------- registries

  /** The routes held in a keyed registry. */
  ghost function RoutesOf(m: map<string, Route>): set<Route> {
    set k | k in m :: m[k]
  }

  ghost predicate Keyed(m: map<string, Route>) {
    forall k | k in m :: ValidRoute(m[k]) && RouteKey(m[k]) == k
  }

  lemma EmptyRoutes()
    ensures RoutesOf(map[]) == {} && Keyed(map[])
  {
  }

  lemma SubRoutes(m: map<string, Route>, n: map<string, Route>)
    requires forall k | k in m :: k in n && m[k] == n[k]
    ensures RoutesOf(m) <= RoutesOf(n)
  {
  }

  /** One partial swap: some owned routes are gone from the kernel, some new ones have come. */
  ghost predicate Swapped(before: set<Route>, after: set<Route>, previous: map<string, Route>,
                          removed: map<string, Route>, added: map<string, Route>)
  {
    && RoutesOf(removed) <= RoutesOf(previous)
    && RoutesOf(added) !! (before - RoutesOf(removed))
    && after == before - RoutesOf(removed) + RoutesOf(added)
  }

  lemma RoutesOfUpdate(m: map<string, Route>, k: string, r: Route)
    requires k !in m
    ensures RoutesOf(m[k := r]) == RoutesOf(m) + {r}
  {
    var n := m[k := r];
    assert n[k] == r;
    forall x | x in RoutesOf(m) ensures x in RoutesOf(n) {
      var j :| j in m && m[j] == x;
      assert n[j] == x;
    }
  }

  lemma RoutesOfRemove(m: map<string, Route>, k: string)
    requires Keyed(m) && k in m
    ensures Keyed(m - {k}) && m[k] in RoutesOf(m)
    ensures RoutesOf(m - {k}) == RoutesOf(m) - {m[k]}
  {
    hide RouteKey, ValidRoute;
    var n := m - {k};
    assert forall j | j in n :: n[j] == m[j];
    forall x | x in RoutesOf(m) && x != m[k] ensures x in RoutesOf(n) {
      var j :| j in m && m[j] == x;
      assert j in n;
    }
  }

  /** A keyed registry is determined by the routes it holds. */
  lemma KeyedDetermined(m: map<string, Route>, n: map<string, Route>)
    requires Keyed(m) && Keyed(n) && RoutesOf(m) == RoutesOf(n)
    ensures m == n
  {
    hide RouteKey, ValidRoute;
    forall k ensures (k in m <==> k in n) && (k in m && k in n ==> m[k] == n[k]) {
      if k in m { assert m[k] in RoutesOf(n); HeldByKey(n, m[k]); }
      if k in n { assert n[k] in RoutesOf(m); HeldByKey(m, n[k]); }
    }
  }

  /** In a keyed registry a valid route is held exactly when its key is. */
  lemma HeldByKey(m: map<string, Route>, r: Route)
    requires Keyed(m) && ValidRoute(r)
    ensures r in RoutesOf(m) <==> RouteKey(r) in m
    ensures RouteKey(r) in m ==> m[RouteKey(r)] == r
  {
    if RouteKey(r) in m {
      RouteKeyInjective(m[RouteKey(r)], r);
    }
  }

  /** The registry keys of a set of routes. */
  ghost function KeysOf(routes: set<Route>): set<string> { set r | r in routes && ValidRoute(r) :: RouteKey(r) }

  lemma KeyedKeys(m: map<string, Route>)
    requires Keyed(m)
    ensures m.Keys == KeysOf(RoutesOf(m))
  {
    hide RouteKey, ValidRoute;
    forall k | k in m ensures k in KeysOf(RoutesOf(m)) { assert m[k] in RoutesOf(m); }
  }

  ghost function Size(keys: set<string>): nat { |keys| }

  lemma OneLess(keys: set<string>, k: string)
    requires k in keys
    ensures Size(keys) == Size(keys - {k}) + 1
  {
  }

  lemma NoKeys()
    ensures Size({}) == 0
  {
  }

  /** How many calls it takes to get from an owned address and registry to another: one for each stale and each
      missing route, one for a new address and one for the old one that goes. */
  ghost function Steps(owned: map<string, Route>, address: Option<Address>, a: Address, keys: set<string>): nat {
    Ups(address, a) + Swaps(owned, keys) + Downs(address, a)
  }

  ghost function Ups(address: Option<Address>, a: Address): nat { if address == Some(a) then 0 else 1 }

  ghost function Swaps(owned: map<string, Route>, keys: set<string>): nat {
    Size(owned.Keys - keys) + Size(keys - owned.Keys)
  }

  ghost function Dropped(address: Option<Address>, a: Address): set<Address> {
    if address.Some? && address != Some(a) then {address.value} else {}
  }

  ghost function Downs(address: Option<Address>, a: Address): nat {
    if address.Some? && address != Some(a) then 1 else 0
  }

  /** How many calls it takes to remove all that is owned. */
  ghost function Holdings(owned: map<string, Route>, address: Option<Address>): nat {
    Size(owned.Keys) + if address.Some? then 1 else 0
  }

  ghost function UndoneAddresses(addresses: set<Address>, previousAddress: Option<Address>, previousOwned: bool,
                                 newAddress: Address, newOwned: bool): set<Address>
  {
    var kept := newOwned && previousAddress == Some(newAddress);
    addresses - (if newOwned && !kept then {newAddress} else {})
    + (if previousOwned && previousAddress.Some? && !kept then {previousAddress.value} else {})
  }

  /** The new address is in place; `newOwned` says whether this reconciler is the one that owns it. */
  ghost predicate Placed(before: set<Address>, previousAddress: Option<Address>, a: Address, newOwned: bool,
                         after: set<Address>) {
    if previousAddress == Some(a) then after == before && newOwned
    else after == before + {a} && newOwned == (a !in before)
  }

  lemma AddressesRestored(before: set<Address>, previousAddress: Option<Address>, a: Address, newOwned: bool,
                          after: set<Address>)
    requires previousAddress.Some? ==> previousAddress.value in before
    requires Placed(before, previousAddress, a, newOwned, after)
    ensures UndoneAddresses(after, previousAddress, previousAddress.Some?, a, newOwned) == before
  {
  }

  lemma AddressesCanonical(foreign: set<Address>, previousAddress: Option<Address>, a: Address, newOwned: bool,
                           before: set<Address>, after: set<Address>)
    requires before == foreign + (if previousAddress.Some? then {previousAddress.value} else {})
    requires previousAddress.Some? ==> previousAddress.value !in foreign
    requires Placed(before, previousAddress, a, newOwned, after)
    ensures after - Dropped(previousAddress, a) == foreign + {a}
    ensures newOwned <==> a !in foreign
  {
  }

  lemma RoutesRestored(before: set<Route>, after: set<Route>, previous: map<string, Route>,
                       removed: map<string, Route>, added: map<string, Route>)
    requires Swapped(before, after, previous, removed, added) && RoutesOf(previous) <= before
    ensures after - RoutesOf(added) + RoutesOf(removed) == before
  {
  }

  lemma Drained(foreign: set<Route>, before: set<Route>, after: set<Route>, owned: set<Route>, gone: set<Route>,
                left: set<Route>)
    requires owned !! foreign && gone <= owned && left == owned - gone && after == before - gone
    ensures left <= owned && after == before - (owned - left)
    ensures before == foreign + owned ==> after == foreign + left
  {
  }

  lemma CommitExact(foreign: set<Route>, desired: set<Route>, addresses: set<Address>, a: Address)
    ensures foreign + desired == foreign + (desired - foreign)
    ensures addresses + {a} == addresses + (if a !in addresses then {a} else {})
  {
  }

  ghost function Kept(added: map<string, Route>, previous: map<string, Route>,
                      desired: map<string, Route>): map<string, Route>
  {
    added + (map k | k in previous && k in desired :: previous[k])
  }

  lemma KeptKeyed(added: map<string, Route>, previous: map<string, Route>, desired: map<string, Route>)
    requires Keyed(added) && Keyed(previous)
    ensures Keyed(Kept(added, previous, desired))
    ensures RoutesOf(Kept(added, previous, desired)) <= RoutesOf(added) + RoutesOf(previous)
  {
    hide RouteKey, ValidRoute;
    var kept := Kept(added, previous, desired);
    forall x | x in RoutesOf(kept) ensures x in RoutesOf(added) + RoutesOf(previous) {
      var k :| k in kept && kept[k] == x;
      if k in previous && k in desired { assert previous[k] == x; } else { assert added[k] == x; }
    }
  }

  /** Removing the stale routes and adding the missing ones gives the same kernel and registry in
      whatever order the two loops ran. */
  lemma CanonicalRoutes(foreign: set<Route>, previous: map<string, Route>, desired: map<string, Route>,
                        removed: map<string, Route>, added: map<string, Route>, kernel: set<Route>)
    requires Keyed(previous) && Keyed(desired) && Keyed(added) && Keyed(removed)
    requires RoutesOf(previous) !! foreign && RoutesOf(added) !! foreign
    requires forall k | k in removed :: k in previous && k !in desired && removed[k] == previous[k]
    requires removed.Keys == previous.Keys - desired.Keys
    requires forall k | k in added :: k in desired && k !in previous && added[k] == desired[k]
    requires kernel == foreign + RoutesOf(previous) - RoutesOf(removed) + RoutesOf(added)
    requires forall k | k in desired && k !in previous :: desired[k] in kernel
    ensures kernel == foreign + RoutesOf(desired)
    ensures RoutesOf(Kept(added, previous, desired)) == RoutesOf(desired) - foreign
  {
    hide RouteKey, ValidRoute;
    KeptKeyed(added, previous, desired);
    var kept := Kept(added, previous, desired);
    forall r ensures r in kernel <==> r in foreign + RoutesOf(desired)
             ensures r in RoutesOf(kept) <==> r in RoutesOf(desired) - foreign
    {
      if ValidRoute(r) {
        HeldByKey(previous, r);
        HeldByKey(desired, r);
        HeldByKey(removed, r);
        HeldByKey(added, r);
        HeldByKey(kept, r);
      }
    }
  }

  // ---------------------------------------------------------------- the reconciler

  class RouteReconciler {
    const backend: Backend
    var address: Option<Address>
    var addressOwned: bool
    var ownedRoutes: map<string, Route>
    /** Set when a call made to undo an earlier one failed. */
    ghost var compensationFailed: bool

    ghost predicate Valid()
      reads this, backend
    {
      && backend.Safe()
      && Keyed(ownedRoutes)
      && RoutesOf(ownedRoutes) <= backend.createdRoutes
      && (addressOwned <==> address.Some?)
      && (address.Some? ==> address.value in backend.createdAddresses)
      && (!compensationFailed ==> Exact())
    }

    ghost function OwnedRoutes(): set<Route>
      reads this
    {
      RoutesOf(ownedRoutes)
    }

    ghost function OwnedAddresses(): set<Address>
      reads this
    {
      if address.Some? then {address.value} else {}
    }

    /** Registry and kernel agree: the kernel holds the foreign resources and the owned ones. */
    ghost predicate Exact()
      reads this, backend
    {
      && backend.routes == backend.foreignRoutes + OwnedRoutes()
      && backend.addresses == backend.foreignAddresses + OwnedAddresses()
    }

    constructor (backend: Backend)
      requires backend.Safe() && backend.createdRoutes == {} && backend.createdAddresses == {}
      ensures this.backend == backend && address == None && !addressOwned && ownedRoutes == map[]
      ensures Valid() && !compensationFailed
    {
      this.backend := backend;
      address, addressOwned, ownedRoutes := None, false, map[];
      compensationFailed := false;
    }

    /** Fills the desired map, or reports the first route that is invalid or repeated. */
    method Desire(routes: seq<Route>) returns (desired: map<string, Route>, e: Error)
      ensures e == NoError || e == InvalidRoute || e == DefaultRoute
      ensures e == NoError <==> AllValid(routes) && Distinct(routes)
      ensures e == NoError ==> Keyed(desired) && RoutesOf(desired) == Elements(routes)
    {
      desired, e := map[], NoError;
      for i := 0 to |routes|
        invariant e == NoError
        invariant AllValid(routes[..i]) && Distinct(routes[..i])
        invariant Keyed(desired) && RoutesOf(desired) == Elements(routes[..i])
      {
        DesireStep(routes, i);
        e := ValidateRoute(routes[i]);
        if e != NoError { return; }
        var key := RouteKey(routes[i]);
        HeldByKey(desired, routes[i]);
        if key in desired {
          e := InvalidRoute;
          return;
        }
        RoutesOfUpdate(desired, key, routes[i]);
        desired := desired[key := routes[i]];
      }
      assert routes[..|routes|] == routes;
    }

    /** Removes the owned routes that are no longer desired, stopping at the first failure. */
    method RemoveStale(previous: map<string, Route>, desired: map<string, Route>)
      returns (removed: map<string, Route>, ok: bool)
      requires backend.Safe() && Keyed(previous) && RoutesOf(previous) <= backend.createdRoutes
      modifies backend`calls, backend`routes, backend`removalRoutes
      ensures backend.Safe() && Keyed(removed)
      ensures forall k | k in removed :: k in previous && k !in desired && removed[k] == previous[k]
      ensures ok ==> removed.Keys == previous.Keys - desired.Keys
      ensures backend.routes == old(backend.routes) - RoutesOf(removed)
      ensures old(backend.removalRoutes) <= backend.removalRoutes
      ensures Ran(backend.faults, old(backend.calls), backend.calls, Size(previous.Keys - desired.Keys), ok)
    {
      hide RouteKey, ValidRoute, Backend.Safe, Ran, Size;
      removed, ok := map[], true;
      ghost var n := 0;
      NoCalls(backend.faults, backend.calls);
      var rest := previous;
      while rest != map[]
        invariant rest.Keys <= previous.Keys && removed.Keys <= previous.Keys - desired.Keys
        invariant rest.Keys !! removed.Keys
        invariant forall k | k in previous :: k in rest || k in desired || k in removed
        invariant forall k | k in rest :: rest[k] == previous[k]
        invariant forall k | k in removed :: removed[k] == previous[k]
        invariant backend.Safe() && Keyed(removed) && old(backend.removalRoutes) <= backend.removalRoutes
        invariant backend.routes == old(backend.routes) - RoutesOf(removed)
        invariant n + Size(rest.Keys - desired.Keys) == Size(previous.Keys - desired.Keys)
        invariant Ran(backend.faults, old(backend.calls), backend.calls, n, true)
        decreases rest
      {
        var key :| key in rest;
        var route := rest[key];
        ghost var pending := rest.Keys - desired.Keys;
        rest := rest - {key};
        assert rest.Keys - desired.Keys == if key in desired then pending else pending - {key};
        if key !in desired {
          assert route in RoutesOf(previous);
          OneLess(pending, key);
          OneMore(backend.faults, old(backend.calls), backend.calls, n, Size(previous.Keys - desired.Keys),
                  !backend.faults(backend.calls));
          ok := backend.RemoveRoute(route);
          if !ok { return; }
          n := n + 1;
          RoutesOfUpdate(removed, key, route);
          removed := removed[key := route];
        }
      }
      NoKeys();
      assert rest.Keys - desired.Keys == {};
    }

    /** Ensures the desired routes that are not owned yet, stopping at the first failure. */
    method AddMissing(previous: map<string, Route>, desired: map<string, Route>)
      returns (added: map<string, Route>, ok: bool)
      requires backend.Safe() && Keyed(desired)
      modifies backend`calls, backend`routes, backend`createdRoutes
      ensures backend.Safe() && Keyed(added) && RoutesOf(added) <= backend.createdRoutes
      ensures old(backend.createdRoutes) <= backend.createdRoutes
      ensures forall k | k in added :: k in desired && k !in previous && added[k] == desired[k]
      ensures RoutesOf(added) !! old(backend.routes)
      ensures backend.routes == old(backend.routes) + RoutesOf(added)
      ensures ok ==> forall k | k in desired && k !in previous :: desired[k] in backend.routes
      ensures Ran(backend.faults, old(backend.calls), backend.calls, Size(desired.Keys - previous.Keys), ok)
    {
      hide RouteKey, ValidRoute, Backend.Safe, Ran, Size, RoutesOf;
      EmptyRoutes();
      added, ok := map[], true;
      ghost var n := 0;
      NoCalls(backend.faults, backend.calls);
      var rest := desired;
      while rest != map[]
        invariant rest.Keys <= desired.Keys && added.Keys <= desired.Keys - previous.Keys
        invariant rest.Keys !! added.Keys
        invariant forall k | k in rest :: rest[k] == desired[k]
        invariant forall k | k in added :: added[k] == desired[k]
        invariant backend.Safe() && Keyed(added) && RoutesOf(added) <= backend.createdRoutes
        invariant old(backend.createdRoutes) <= backend.createdRoutes
        invariant RoutesOf(added) !! old(backend.routes)
        invariant backend.routes == old(backend.routes) + RoutesOf(added)
        invariant forall k | k in desired && k !in previous && k !in rest :: desired[k] in backend.routes
        invariant n + Size(rest.Keys - previous.Keys) == Size(desired.Keys - previous.Keys)
        invariant Ran(backend.faults, old(backend.calls), backend.calls, n, true)
        decreases rest
      {
        var key :| key in rest;
        var route := rest[key];
        ghost var pending := rest.Keys - previous.Keys;
        rest := rest - {key};
        assert rest.Keys - previous.Keys == if key in previous then pending else pending - {key};
        if key !in previous {
          OneLess(pending, key);
          OneMore(backend.faults, old(backend.calls), backend.calls, n, Size(desired.Keys - previous.Keys),
                  !backend.faults(backend.calls));
          var created;
          created, ok := backend.EnsureRoute(route);
          if !ok { return; }
          n := n + 1;
          if created {
            RoutesOfUpdate(added, key, route);
            added := added[key := route];
          }
        }
      }
      NoKeys();
      assert rest.Keys - previous.Keys == {};
    }

    /** The new registry: what was just created plus what was owned and stays desired. */
    method Keep(added: map<string, Route>, previous: map<string, Route>, desired: map<string, Route>)
      returns (owned: map<string, Route>)
      ensures owned == Kept(added, previous, desired)
    {
      owned := added;
      var rest := previous;
      while rest != map[]
        invariant forall k | k in rest :: k in previous && rest[k] == previous[k]
        invariant forall k | k in owned :: k in added || (k in previous && k in desired)
        invariant forall k | k in added :: k in owned
        invariant forall k | k in previous && k in desired :: k in rest || (k in owned && owned[k] == previous[k])
        invariant forall k | k in added && !(k in previous && k in desired) :: owned[k] == added[k]
        decreases rest
      {
        var key :| key in rest;
        if key in desired { owned := owned[key := rest[key]]; }
        rest := rest - {key};
      }
    }

    /** Brings the new address up unless it is the owned one already. */
    method PlaceAddress(a: Address) returns (newOwned: bool, ok: bool)
      requires backend.Safe() && (addressOwned <==> address.Some?)
      requires address.Some? ==> address.value in backend.createdAddresses
      modifies backend`calls, backend`addresses, backend`createdAddresses
      ensures backend.Safe() && old(backend.createdAddresses) <= backend.createdAddresses
      ensures !ok ==> backend.addresses == old(backend.addresses)
      ensures ok && newOwned ==> a in backend.createdAddresses
      ensures ok ==> Placed(old(backend.addresses), address, a, newOwned, backend.addresses)
      ensures Ran(backend.faults, old(backend.calls), backend.calls, Ups(address, a), ok)
    {
      ok := true;
      newOwned := addressOwned && address == Some(a);
      var addressChanged := addressOwned && address != Some(a);
      if addressChanged || !newOwned {
        newOwned, ok := backend.EnsureAddress(a);
      }
    }

    /** Stale routes go first, then missing ones come; stops at the first failure. */
    method SwapRoutes(previous: map<string, Route>, desired: map<string, Route>)
      returns (removed: map<string, Route>, added: map<string, Route>, ok: bool)
      requires backend.Safe() && Keyed(previous) && Keyed(desired) && RoutesOf(previous) <= backend.createdRoutes
      modifies backend`calls, backend`routes, backend`removalRoutes, backend`createdRoutes
      ensures backend.Safe() && Keyed(removed) && Keyed(added)
      ensures old(backend.createdRoutes) <= backend.createdRoutes && RoutesOf(added) <= backend.createdRoutes
      ensures Swapped(old(backend.routes), backend.routes, previous, removed, added)
      ensures ok && old(backend.routes) == backend.foreignRoutes + RoutesOf(previous) ==>
                && backend.routes == backend.foreignRoutes + RoutesOf(desired)
                && RoutesOf(Kept(added, previous, desired)) == RoutesOf(desired) - backend.foreignRoutes
      ensures old(backend.removalRoutes) <= backend.removalRoutes
      ensures Ran(backend.faults, old(backend.calls), backend.calls, Swaps(previous, desired.Keys), ok)
    {
      hide RouteKey, ValidRoute, Kept, Keyed, RoutesOf, Ran, Size;
      added := map[];
      ghost var stale, missing := Size(previous.Keys - desired.Keys), Size(desired.Keys - previous.Keys);
      removed, ok := RemoveStale(previous, desired);
      ghost var mid := backend.calls;
      SubRoutes(removed, previous);
      EmptyRoutes();
      if !ok {
        RanThen(backend.faults, old(backend.calls), mid, mid, stale, missing, false, true);
        return;
      }
      added, ok := AddMissing(previous, desired);
      RanThen(backend.faults, old(backend.calls), mid, backend.calls, stale, missing, true, ok);
      if ok && old(backend.routes) == backend.foreignRoutes + RoutesOf(previous) {
        CanonicalRoutes(backend.foreignRoutes, previous, desired, removed, added, backend.routes);
      }
    }

    method RemoveAll(m: map<string, Route>) returns (ok: bool)
      requires backend.Safe() && Keyed(m) && RoutesOf(m) <= backend.createdRoutes
      modifies backend`calls, backend`routes, backend`removalRoutes
      ensures backend.Safe()
      ensures ok ==> backend.routes == old(backend.routes) - RoutesOf(m)
      ensures old(backend.removalRoutes) <= backend.removalRoutes
      ensures Tried(backend.faults, old(backend.calls), backend.calls, Size(m.Keys), ok)
    {
      hide RouteKey, ValidRoute, Keyed, RoutesOf, Backend.Safe, Tried, Size;
      ok := true;
      ghost var n := 0;
      NoCalls(backend.faults, backend.calls);
      var rest := m;
      while rest != map[]
        invariant Keyed(rest) && RoutesOf(rest) <= backend.createdRoutes
        invariant backend.Safe() && old(backend.removalRoutes) <= backend.removalRoutes
        invariant ok ==> backend.routes - RoutesOf(rest) == old(backend.routes) - RoutesOf(m)
        invariant n + Size(rest.Keys) == Size(m.Keys)
        invariant Tried(backend.faults, old(backend.calls), backend.calls, n, ok)
        decreases rest
      {
        var key :| key in rest;
        RoutesOfRemove(rest, key);
        OneLess(rest.Keys, key);
        OneTried(backend.faults, old(backend.calls), backend.calls, n, ok, !backend.faults(backend.calls));
        var done := backend.RemoveRoute(rest[key]);
        ok, n := ok && done, n + 1;
        assert (rest - {key}).Keys == rest.Keys - {key};
        rest := rest - {key};
      }
      NoKeys();
      assert rest.Keys == {};
      EmptyRoutes();
    }

    method EnsureAll(m: map<string, Route>) returns (ok: bool)
      requires backend.Safe() && Keyed(m)
      modifies backend`calls, backend`routes, backend`createdRoutes
      ensures backend.Safe() && old(backend.createdRoutes) <= backend.createdRoutes
      ensures ok ==> backend.routes == old(backend.routes) + RoutesOf(m)
      ensures Tried(backend.faults, old(backend.calls), backend.calls, Size(m.Keys), ok)
    {
      hide RouteKey, ValidRoute, Keyed, RoutesOf, Backend.Safe, Tried, Size;
      ok := true;
      ghost var n := 0;
      NoCalls(backend.faults, backend.calls);
      var rest := m;
      while rest != map[]
        invariant Keyed(rest)
        invariant backend.Safe() && old(backend.createdRoutes) <= backend.createdRoutes
        invariant ok ==> backend.routes + RoutesOf(rest) == old(backend.routes) + RoutesOf(m)
        invariant n + Size(rest.Keys) == Size(m.Keys)
        invariant Tried(backend.faults, old(backend.calls), backend.calls, n, ok)
        decreases rest
      {
        var key :| key in rest;
        RoutesOfRemove(rest, key);
        OneLess(rest.Keys, key);
        OneTried(backend.faults, old(backend.calls), backend.calls, n, ok, !backend.faults(backend.calls));
        var created, done := backend.EnsureRoute(rest[key]);
        ok, n := ok && done, n + 1;
        assert (rest - {key}).Keys == rest.Keys - {key};
        rest := rest - {key};
      }
      NoKeys();
      assert rest.Keys == {};
      EmptyRoutes();
    }

    /** Takes the new address down if it was brought up here, and the previous one up again. */
    method ReturnAddress(previousAddress: Option<Address>, newAddress: Address, newOwned: bool) returns (ok: bool)
      requires backend.Safe() && (newOwned ==> newAddress in backend.createdAddresses)
      modifies backend`calls, backend`addresses, backend`createdAddresses, backend`removalAddresses
      ensures backend.Safe() && old(backend.createdAddresses) <= backend.createdAddresses
      ensures old(backend.removalAddresses) <= backend.removalAddresses
      ensures ok ==>
                backend.addresses == UndoneAddresses(old(backend.addresses), previousAddress, previousAddress.Some?,
                                                          newAddress, newOwned)
      ensures ok <==> Clean(backend.faults, old(backend.calls), backend.calls)
      ensures old(backend.calls) <= backend.calls <= old(backend.calls) + 2
    {
      hide Backend.Safe;
      ok := true;
      if newOwned && previousAddress != Some(newAddress) {
        ok := backend.RemoveAddress(newAddress);
      }
      if previousAddress.Some? && (!newOwned || previousAddress != Some(newAddress)) {
        var created, done := backend.EnsureAddress(previousAddress.value);
        ok := ok && done;
      }
    }

    /** Undoes a partial reconciliation. `undone` says that every compensating call succeeded: one for each route
        added or removed, and at most two for the address. */
    method Rollback(previousAddress: Option<Address>, previousOwned: bool,
                    added: map<string, Route>, removed: map<string, Route>,
                    newAddress: Address, newOwned: bool,
                    ghost routes0: set<Route>, ghost addresses0: set<Address>)
      returns (ghost undone: bool)
      requires backend.Safe() && Keyed(added) && Keyed(removed)
      requires RoutesOf(added) <= backend.createdRoutes
      requires newOwned ==> newAddress in backend.createdAddresses
      requires previousOwned <==> previousAddress.Some?
      requires Swapped(routes0, backend.routes, ownedRoutes, removed, added)
      requires Placed(addresses0, previousAddress, newAddress, newOwned, backend.addresses)
      modifies this`compensationFailed, backend
      ensures backend.Safe()
      ensures old(backend.createdRoutes) <= backend.createdRoutes
      ensures old(backend.createdAddresses) <= backend.createdAddresses
      ensures compensationFailed == (old(compensationFailed) || !undone)
      ensures undone && RoutesOf(ownedRoutes) <= routes0 ==> backend.routes == routes0
      ensures undone && (previousOwned ==> previousAddress.value in addresses0) ==> backend.addresses == addresses0
      ensures old(backend.removalRoutes) <= backend.removalRoutes
      ensures old(backend.removalAddresses) <= backend.removalAddresses
      ensures undone <==> Clean(backend.faults, old(backend.calls), backend.calls)
      ensures backend.calls == old(backend.calls) ==> undone
      ensures old(backend.calls) <= backend.calls
      ensures backend.calls <= old(backend.calls) + Size(added.Keys) + Size(removed.Keys) + 2
    {
      hide RouteKey, ValidRoute, Keyed, RoutesOf, Backend.Safe, Swapped, Placed, Size;
      if RoutesOf(ownedRoutes) <= routes0 {
        RoutesRestored(routes0, backend.routes, ownedRoutes, removed, added);
      }
      if previousOwned ==> previousAddress.value in addresses0 {
        AddressesRestored(addresses0, previousAddress, newAddress, newOwned, backend.addresses);
      }
      var ok := RemoveAll(added);
      undone := ok;
      ok := EnsureAll(removed);
      undone := undone && ok;
      ok := ReturnAddress(previousAddress, newAddress, newOwned);
      undone := undone && ok;
      compensationFailed := compensationFailed || !undone;
    }

    /** Takes the old address down if it was owned and is not the new one. */
    method DropAddress(a: Address) returns (ok: bool)
      requires backend.Safe() && (addressOwned <==> address.Some?)
      requires address.Some? ==> address.value in backend.createdAddresses
      modifies backend`calls, backend`addresses, backend`removalAddresses
      ensures backend.Safe() && old(backend.removalAddresses) <= backend.removalAddresses
      ensures backend.addresses == if ok then old(backend.addresses) - Dropped(address, a) else old(backend.addresses)
      ensures Ran(backend.faults, old(backend.calls), backend.calls, Downs(address, a), ok)
    {
      hide Backend.Safe;
      ok := true;
      if addressOwned && address != Some(a) {
        ok := backend.RemoveAddress(address.value);
      }
    }

    lemma ValidParts()
      requires Valid()
      ensures backend.Safe() && Keyed(ownedRoutes) && RoutesOf(ownedRoutes) <= backend.createdRoutes
      ensures addressOwned <==> address.Some?
      ensures address.Some? ==>
                address.value in backend.createdAddresses && address.value !in backend.foreignAddresses
      ensures Exact() ==>
                && backend.routes == backend.foreignRoutes + RoutesOf(ownedRoutes)
                && backend.addresses == backend.foreignAddresses + OwnedAddresses()
      ensures !compensationFailed ==> Exact()
    {
      hide RouteKey, ValidRoute, Keyed, RoutesOf;
    }

    lemma ValidFrom()
      requires backend.Safe() && Keyed(ownedRoutes) && RoutesOf(ownedRoutes) <= backend.createdRoutes
      requires (addressOwned <==> address.Some?) && (address.Some? ==> address.value in backend.createdAddresses)
      requires !compensationFailed ==>
                 && backend.routes == backend.foreignRoutes + RoutesOf(ownedRoutes)
                 && backend.addresses == backend.foreignAddresses + OwnedAddresses()
      ensures Valid()
    {
      hide RouteKey, ValidRoute, Keyed, RoutesOf, Backend.Safe;
    }

    lemma CanonicalFrom(a: Address, desired: set<Route>)
      requires backend.routes == backend.foreignRoutes + desired
      requires RoutesOf(ownedRoutes) == desired - backend.foreignRoutes
      requires backend.addresses == backend.foreignAddresses + {a}
      requires address == if a in backend.foreignAddresses then None else Some(a)
      ensures Canonical(a, desired)
    {
      hide RoutesOf;
    }

    /** Swaps the routes and takes the old address down. */
    method Move(a: Address, desired: map<string, Route>)
      returns (removed: map<string, Route>, added: map<string, Route>, ok: bool)
      requires backend.Safe() && Keyed(desired) && Keyed(ownedRoutes) && RoutesOf(ownedRoutes) <= backend.createdRoutes
      requires (addressOwned <==> address.Some?) && (address.Some? ==> address.value in backend.createdAddresses)
      modifies backend`calls, backend`routes, backend`createdRoutes, backend`removalRoutes
      modifies backend`addresses, backend`removalAddresses
      ensures backend.Safe() && Keyed(removed) && Keyed(added)
      ensures old(backend.createdRoutes) <= backend.createdRoutes && RoutesOf(added) <= backend.createdRoutes
      ensures Swapped(old(backend.routes), backend.routes, ownedRoutes, removed, added)
      ensures ok && old(backend.routes) == backend.foreignRoutes + RoutesOf(ownedRoutes) ==>
                && backend.routes == backend.foreignRoutes + RoutesOf(desired)
                && RoutesOf(Kept(added, ownedRoutes, desired)) == RoutesOf(desired) - backend.foreignRoutes
      ensures backend.addresses == if ok then old(backend.addresses) - Dropped(address, a) else old(backend.addresses)
      ensures old(backend.removalRoutes) <= backend.removalRoutes
      ensures old(backend.removalAddresses) <= backend.removalAddresses
      ensures Ran(backend.faults, old(backend.calls), backend.calls,
                  Swaps(ownedRoutes, desired.Keys) + Downs(address, a), ok)
    {
      hide RouteKey, ValidRoute, Keyed, RoutesOf, Kept, Swapped, Backend.Safe, Ran, Swaps, Dropped;
      ghost var start := backend.calls;
      ghost var swaps := Swaps(ownedRoutes, desired.Keys);
      removed, added, ok := SwapRoutes(ownedRoutes, desired);
      ghost var swapped := backend.calls;
      if !ok {
        RanThen(backend.faults, start, swapped, swapped, swaps, Downs(address, a), false, true);
        return;
      }
      ok := DropAddress(a);
      RanThen(backend.faults, start, swapped, backend.calls, swaps, Downs(address, a), true, ok);
    }

    /** The forward half of Reconcile: new address up, routes swapped, old address down. */
    method Attempt(a: Address, desired: map<string, Route>)
      returns (started: bool, newOwned: bool, removed: map<string, Route>, added: map<string, Route>, ok: bool)
      requires Valid() && Keyed(desired)
      modifies backend
      ensures backend.Safe() && Keyed(removed) && Keyed(added)
      ensures old(backend.createdRoutes) <= backend.createdRoutes && RoutesOf(added) <= backend.createdRoutes
      ensures old(backend.createdAddresses) <= backend.createdAddresses
      ensures !started ==> !ok && KernelUnchanged()
      ensures started && newOwned ==> a in backend.createdAddresses
      ensures started && !ok ==>
                && Swapped(old(backend.routes), backend.routes, ownedRoutes, removed, added)
                && Placed(old(backend.addresses), address, a, newOwned, backend.addresses)
      ensures ok && old(Exact()) ==>
                && backend.routes == backend.foreignRoutes + RoutesOf(desired)
                && RoutesOf(Kept(added, ownedRoutes, desired)) == RoutesOf(desired) - backend.foreignRoutes
                && backend.addresses == backend.foreignAddresses + {a}
                && (newOwned <==> a !in backend.foreignAddresses)
      ensures old(backend.removalRoutes) <= backend.removalRoutes
      ensures old(backend.removalAddresses) <= backend.removalAddresses
      ensures Ran(backend.faults, old(backend.calls), backend.calls, Steps(ownedRoutes, address, a, desired.Keys), ok)
      ensures !started ==> backend.calls == old(backend.calls) + 1
    {
      hide RouteKey, ValidRoute, Keyed, RoutesOf, Kept, Swapped, Placed, Backend.Safe, Ran, Swaps, Dropped,
           RouteReconciler.Valid, RouteReconciler.Exact;
      ValidParts();
      EmptyRoutes();
      removed, added := map[], map[];
      ghost var start := backend.calls;
      ghost var rest := Swaps(ownedRoutes, desired.Keys) + Downs(address, a);
      newOwned, started := PlaceAddress(a);
      ok := started;
      ghost var placed := backend.calls;
      if !started {
        RanThen(backend.faults, start, placed, placed, Ups(address, a), rest, false, true);
        RanOnce(backend.faults, start, placed, Ups(address, a));
        return;
      }
      if old(Exact()) {
        AddressesCanonical(backend.foreignAddresses, address, a, newOwned, old(backend.addresses), backend.addresses);
      }
      removed, added, ok := Move(a, desired);
      RanThen(backend.faults, start, placed, backend.calls, Ups(address, a), rest, true, ok);
    }

    /** The part of Reconcile after its checks. */
    method Replace(a: Address, desired: map<string, Route>) returns (e: Error, ghost undone: bool)
      requires Valid() && Keyed(desired)
      modifies this, backend
      ensures Valid()
      ensures e == NoError || e == BackendFailed
      ensures compensationFailed == (old(compensationFailed) || !undone)
      ensures e != NoError ==> RegistryUnchanged() && (old(Exact()) && undone ==> KernelUnchanged())
      ensures e == NoError ==> undone
      ensures e == NoError && old(Exact()) ==> Canonical(a, RoutesOf(desired))
      ensures old(backend.removalRoutes) <= backend.removalRoutes
      ensures old(backend.removalAddresses) <= backend.removalAddresses
      ensures Decided(backend.faults, old(backend.calls), backend.calls,
                      Steps(old(ownedRoutes), old(address), a, desired.Keys), e == NoError, undone)
    {
      hide RouteKey, ValidRoute, Keyed, RoutesOf, Kept, Swapped, Placed, Backend.Safe, Ran, Steps, Decided, Clean,
           RouteReconciler.Valid, RouteReconciler.Exact, RouteReconciler.Canonical;
      ValidParts();
      undone, e := true, NoError;
      ghost var start, n := backend.calls, Steps(ownedRoutes, address, a, desired.Keys);
      var started, newOwned, removed, added, ok := Attempt(a, desired);
      ghost var mid := backend.calls;
      if started && !ok {
        undone := Rollback(address, addressOwned, added, removed, a, newOwned, old(backend.routes),
                           old(backend.addresses));
      }
      RanDecides(backend.faults, start, mid, backend.calls, n, ok, undone);
      if !ok {
        ValidFrom();
        return BackendFailed, undone;
      }
      var owned := Keep(added, ownedRoutes, desired);
      KeptKeyed(added, ownedRoutes, desired);
      if old(Exact()) {
        assert RoutesOf(owned) == RoutesOf(desired) - backend.foreignRoutes;
        CommitExact(backend.foreignRoutes, RoutesOf(desired), backend.foreignAddresses, a);
      }
      Commit(a, newOwned, owned);
      if old(Exact()) { CanonicalFrom(a, RoutesOf(desired)); }
    }

    method Commit(a: Address, newOwned: bool, owned: map<string, Route>)
      requires backend.Safe() && Keyed(owned) && RoutesOf(owned) <= backend.createdRoutes
      requires newOwned ==> a in backend.createdAddresses
      requires !compensationFailed ==>
                 && backend.routes == backend.foreignRoutes + RoutesOf(owned)
                 && backend.addresses == backend.foreignAddresses + (if newOwned then {a} else {})
      modifies this`address, this`addressOwned, this`ownedRoutes
      ensures Valid() && ownedRoutes == owned && address == if newOwned then Some(a) else None
    {
      address := if newOwned then Some(a) else None;
      addressOwned := newOwned;
      ownedRoutes := owned;
    }

    twostate predicate RegistryUnchanged()
      reads this
    {
      address == old(address) && addressOwned == old(addressOwned) && ownedRoutes == old(ownedRoutes)
    }

    twostate predicate KernelUnchanged()
      reads backend
    {
      backend.routes == old(backend.routes) && backend.addresses == old(backend.addresses)
    }

    /** The one state a success can end in. */
    ghost predicate Canonical(a: Address, desired: set<Route>)
      reads this, backend
    {
      && backend.routes == backend.foreignRoutes + desired
      && OwnedRoutes() == desired - backend.foreignRoutes
      && backend.addresses == backend.foreignAddresses + {a}
      && OwnedAddresses() == {a} - backend.foreignAddresses
    }

    lemma CanonicalIsExact(a: Address, desired: set<Route>)
      requires Canonical(a, desired)
      ensures Exact()
    {
      hide RoutesOf;
    }

    /** Two canonical states for the same request have the same registry. */
    lemma CanonicalRegistry(a: Address, desired: set<Route>, owned: map<string, Route>, addr: Option<Address>)
      requires Canonical(a, desired) && Keyed(ownedRoutes) && Keyed(owned)
      requires RoutesOf(owned) == desired - backend.foreignRoutes
      requires (if addr.Some? then {addr.value} else {}) == {a} - backend.foreignAddresses
      ensures ownedRoutes == owned && address == addr
    {
      KeyedDetermined(ownedRoutes, owned);
    }

    /** Applies the requested address and host routes, or puts everything back. */
    method Reconcile(cancelled: bool, a: Address, routes: seq<Route>) returns (e: Error, ghost undone: bool)
      requires Valid()
      modifies this, backend
      ensures Valid()
      ensures e == InvalidRoute || e == DefaultRoute <==> !Accepts(a, routes)
      ensures compensationFailed == (old(compensationFailed) || !undone)
      // a failure leaves the registry alone, and also the kernel when every compensating call succeeded
      ensures e != NoError ==> RegistryUnchanged() && (old(Exact()) && undone ==> KernelUnchanged())
      // success has one outcome whatever the iteration order was
      ensures e == NoError ==> undone
      ensures e == NoError && old(Exact()) ==> Canonical(a, Elements(routes))
      ensures e == Cancelled <==> cancelled && Accepts(a, routes)
      // what happens otherwise depends on the calls that fail
      ensures cancelled || !Accepts(a, routes) ==> undone && backend.calls == old(backend.calls) && KernelUnchanged()
      ensures !cancelled && Accepts(a, routes) ==>
                && e in {NoError, BackendFailed}
                && Decided(backend.faults, old(backend.calls), backend.calls,
                           Steps(old(ownedRoutes), old(address), a, KeysOf(Elements(routes))), e == NoError, undone)
      ensures e == BackendFailed ==> backend.Faulty()
      ensures old(backend.removalRoutes) <= backend.removalRoutes
      ensures old(backend.removalAddresses) <= backend.removalAddresses
    {
      hide RouteKey, ValidRoute, Keyed, RoutesOf, Steps, KeysOf;
      undone := true;
      if !ValidAddress(a) { return InvalidRoute, true; }
      var desired;
      desired, e := Desire(routes);
      if e != NoError { return; }
      if cancelled { return Cancelled, true; }
      KeyedKeys(desired);
      e, undone := Replace(a, desired);
    }

    /** Removes what this reconciler owns; whatever could not be removed stays in the registry. */
    method Clear(cancelled: bool) returns (e: Error)
      requires Valid()
      modifies this, backend
      ensures Valid() && compensationFailed == old(compensationFailed)
      ensures old(Exact()) ==> Exact()
      ensures OwnedRoutes() <= old(OwnedRoutes()) && OwnedAddresses() <= old(OwnedAddresses())
      ensures cancelled ==> e == Cancelled && RegistryUnchanged() && KernelUnchanged()
      ensures !cancelled ==>
                && backend.routes == old(backend.routes) - (old(OwnedRoutes()) - OwnedRoutes())
                && backend.addresses == old(backend.addresses) - (old(OwnedAddresses()) - OwnedAddresses())
      ensures e == NoError <==> !cancelled && ownedRoutes == map[] && address == None
      ensures !cancelled ==>
                Tried(backend.faults, old(backend.calls), backend.calls, Holdings(old(ownedRoutes), old(address)),
                      e == NoError)
      ensures cancelled ==> backend.calls == old(backend.calls)
      ensures e in {NoError, Cancelled, BackendFailed} && (e == Cancelled <==> cancelled)
      ensures e == BackendFailed ==> backend.Faulty()
      ensures old(backend.removalRoutes) <= backend.removalRoutes
      ensures old(backend.removalAddresses) <= backend.removalAddresses
    {
      hide RouteKey, ValidRoute, Keyed, RoutesOf, Backend.Safe;
      if cancelled { return Cancelled; }
      var routesGone := ClearRoutes();
      var addressGone := ClearAddress();
      e := if routesGone && addressGone then NoError else BackendFailed;
    }

    method ClearAddress() returns (ok: bool)
      requires Valid()
      modifies this`address, this`addressOwned, backend`calls, backend`addresses, backend`removalAddresses
      ensures Valid() && (ok <==> address == None)
      ensures old(Exact()) ==> Exact()
      ensures OwnedAddresses() <= old(OwnedAddresses())
      ensures backend.addresses == old(backend.addresses) - (old(OwnedAddresses()) - OwnedAddresses())
      ensures old(backend.removalAddresses) <= backend.removalAddresses
      ensures Tried(backend.faults, old(backend.calls), backend.calls, if old(address).Some? then 1 else 0, ok)
    {
      assert address.Some? ==> address.value !in backend.foreignAddresses;
      hide RouteKey, ValidRoute, Keyed, RoutesOf, Backend.Safe;
      ok := true;
      if addressOwned && address.Some? {
        ok := backend.RemoveAddress(address.value);
        if ok { address, addressOwned := None, false; }
      }
    }

    method ClearRoutes() returns (ok: bool)
      requires Valid()
      modifies this`ownedRoutes, backend`calls, backend`routes, backend`removalRoutes
      ensures Valid() && (ok <==> ownedRoutes == map[])
      ensures old(Exact()) ==> Exact()
      ensures OwnedRoutes() <= old(OwnedRoutes())
      ensures backend.routes == old(backend.routes) - (old(OwnedRoutes()) - OwnedRoutes())
      ensures old(backend.removalRoutes) <= backend.removalRoutes
      ensures Tried(backend.faults, old(backend.calls), backend.calls, Size(old(ownedRoutes).Keys), ok)
    {
      assert RoutesOf(ownedRoutes) !! backend.foreignRoutes;
      hide RouteKey, ValidRoute, Keyed, RoutesOf, Backend.Safe, Tried, Size;
      ghost var before, owned := backend.routes, RoutesOf(ownedRoutes);
      var left;
      ghost var gone;
      ok, left, gone := Drain(ownedRoutes);
      Drained(backend.foreignRoutes, before, backend.routes, owned, gone, RoutesOf(left));
      Shrink(left);
    }

    method Shrink(left: map<string, Route>)
      requires backend.Safe() && Keyed(left) && RoutesOf(left) <= backend.createdRoutes
      requires (addressOwned <==> address.Some?) && (address.Some? ==> address.value in backend.createdAddresses)
      requires !compensationFailed ==>
                 && backend.routes == backend.foreignRoutes + RoutesOf(left)
                 && backend.addresses == backend.foreignAddresses + OwnedAddresses()
      modifies this`ownedRoutes
      ensures Valid() && ownedRoutes == left
    {
      ownedRoutes := left;
    }

    /** Removes the routes of a registry one by one; a failing one is skipped and stays in it. */
    method Drain(owned: map<string, Route>) returns (ok: bool, left: map<string, Route>, ghost gone: set<Route>)
      requires backend.Safe() && Keyed(owned) && RoutesOf(owned) <= backend.createdRoutes
      modifies backend`calls, backend`routes, backend`removalRoutes
      ensures backend.Safe() && Keyed(left) && (ok <==> left == map[])
      ensures gone <= RoutesOf(owned) && RoutesOf(left) == RoutesOf(owned) - gone
      ensures backend.routes == old(backend.routes) - gone
      ensures old(backend.removalRoutes) <= backend.removalRoutes
      ensures Tried(backend.faults, old(backend.calls), backend.calls, Size(owned.Keys), ok)
    {
      hide RouteKey, ValidRoute, Keyed, RoutesOf, Backend.Safe, Tried, Size;
      ok, left, gone := true, owned, {};
      ghost var n := 0;
      NoCalls(backend.faults, backend.calls);
      var rest := owned;
      while rest != map[]
        invariant rest.Keys <= left.Keys && forall k | k in rest :: rest[k] == left[k]
        invariant if ok then left.Keys == rest.Keys else exists k :: k in left && k !in rest
        invariant Keyed(left) && gone <= RoutesOf(owned) && RoutesOf(left) == RoutesOf(owned) - gone
        invariant backend.Safe() && backend.routes == old(backend.routes) - gone
        invariant old(backend.removalRoutes) <= backend.removalRoutes
        invariant n + Size(rest.Keys) == Size(owned.Keys)
        invariant Tried(backend.faults, old(backend.calls), backend.calls, n, ok)
        decreases rest
      {
        var key :| key in rest;
        RoutesOfRemove(left, key);
        OneLess(rest.Keys, key);
        OneTried(backend.faults, old(backend.calls), backend.calls, n, ok, !backend.faults(backend.calls));
        var done := backend.RemoveRoute(rest[key]);
        assert (rest - {key}).Keys == rest.Keys - {key};
        rest, n := rest - {key}, n + 1;
        if done {
          left, gone := left - {key}, gone + {left[key]};
        } else {
          ok := false;
        }
      }
      NoKeys();
      assert rest.Keys == {};
    }

    ghost function Now(): Moment
      reads this, backend
    {
      Moment(ownedRoutes, address, backend.routes, backend.addresses, backend.calls, Exact())
    }

    twostate lemma StillExact()
      requires RegistryUnchanged() && KernelUnchanged()
      ensures Exact() == old(Exact())
    {
      hide RoutesOf;
    }

    lemma CanonicalMeans(a: Address, desired: set<Route>)
      requires Valid() && Canonical(a, desired)
      ensures Keyed(ownedRoutes) && RoutesOf(ownedRoutes) == desired - backend.foreignRoutes
      ensures (if address.Some? then {address.value} else {}) == {a} - backend.foreignAddresses
      ensures address == if a in backend.foreignAddresses then None else Some(a)
      ensures backend.routes == backend.foreignRoutes + desired && backend.addresses == backend.foreignAddresses + {a}
      ensures addressOwned <==> address.Some?
    {
      hide RouteKey, ValidRoute, RoutesOf, Keyed, Backend.Safe;
      if a !in backend.foreignAddresses { assert a in OwnedAddresses(); }
    }

    /** Going to another configuration and back ends exactly where it started. */
    method SwitchAndBack(a: Address, routes: seq<Route>, b: Address, others: seq<Route>) returns (ok: bool)
      requires Valid() && Exact() && Canonical(a, Elements(routes))
      modifies this, backend
      ensures Valid()
      ensures ok ==> RegistryUnchanged() && KernelUnchanged()
      // it succeeds exactly when both requests are acceptable and no call fails
      ensures ok <==> Accepts(b, others) && Accepts(a, routes)
                      && Clean(backend.faults, old(backend.calls), backend.calls)
    {
      hide RouteReconciler.Valid, RouteReconciler.Canonical, RouteReconciler.Exact, Accepts, Decided, Steps, KeysOf,
           Elements, Keyed, RoutesOf;
      CanonicalMeans(a, Elements(routes));
      ghost var start, n := backend.calls, Steps(ownedRoutes, address, b, KeysOf(Elements(others)));
      var e, undone := Reconcile(false, b, others);
      ghost var mid := backend.calls;
      if Accepts(b, others) { AllOrSome(backend.faults, start, mid, n, e == NoError, undone); }
      if e != NoError { return false; }
      CanonicalIsExact(b, Elements(others));
      n := Steps(ownedRoutes, address, a, KeysOf(Elements(routes)));
      e, undone := Reconcile(false, a, routes);
      if Accepts(a, routes) { AllOrSome(backend.faults, mid, backend.calls, n, e == NoError, undone); }
      ok := e == NoError;
      if ok {
        CanonicalMeans(a, Elements(routes));
        CanonicalRegistry(a, Elements(routes), old(ownedRoutes), old(address));
      }
    }
  }

  datatype Command = DoReconcile(cancelled: bool, a: Address, routes: seq<Route>) | DoClear(cancelled: bool)

  /** A state of a run: registry, kernel, the number of the next call, and whether registry and kernel agree. */
  datatype Moment = Moment(owned: map<string, Route>, address: Option<Address>, routes: set<Route>,
                           addresses: set<Address>, calls: nat, exact: bool)

  /** What a reconciliation answers and leaves behind. */
  ghost predicate Reconciled(b: Backend, cancelled: bool, a: Address, routes: seq<Route>, e: Error, before: Moment,
                             after: Moment)
  {
    && (e == InvalidRoute || e == DefaultRoute <==> !Accepts(a, routes))
    && (e == Cancelled <==> cancelled && Accepts(a, routes))
    && (cancelled || !Accepts(a, routes) ==> after == before)
    && (!cancelled && Accepts(a, routes) ==>
          var n := Steps(before.owned, before.address, a, KeysOf(Elements(routes)));
          var undone := Undone(b.faults, before.calls, after.calls, n);
          && Decided(b.faults, before.calls, after.calls, n, e == NoError, undone)
          && (e != NoError && undone && before.exact ==> after == before.(calls := after.calls)))
    && (e != NoError ==> after.owned == before.owned && after.address == before.address)
    && (e == NoError && before.exact ==>
          && after.exact && after.routes == b.foreignRoutes + Elements(routes)
          && RoutesOf(after.owned) == Elements(routes) - b.foreignRoutes
          && after.addresses == b.foreignAddresses + {a}
          && (after.address == if a in b.foreignAddresses then None else Some(a)))
  }

  /** What clearing answers and leaves behind. */
  ghost predicate Cleared(b: Backend, cancelled: bool, e: Error, before: Moment, after: Moment) {
    && (e == Cancelled <==> cancelled)
    && (cancelled ==> after == before)
    && (!cancelled ==>
          Tried(b.faults, before.calls, after.calls, Holdings(before.owned, before.address), e == NoError))
    && (e == NoError <==> !cancelled && after.owned == map[] && after.address == None)
    && (before.exact ==> after.exact)
  }

  ghost predicate Follows(b: Backend, c: Command, e: Error, before: Moment, after: Moment) {
    match c
    case DoReconcile(cancelled, a, routes) => Reconciled(b, cancelled, a, routes, e, before, after)
    case DoClear(cancelled) => Cleared(b, cancelled, e, before, after)
  }

  method Do(reconciler: RouteReconciler, c: Command) returns (e: Error)
    requires reconciler.Valid()
    modifies reconciler, reconciler.backend
    ensures reconciler.Valid()
    ensures Follows(reconciler.backend, c, e, old(reconciler.Now()), reconciler.Now())
    ensures old(reconciler.backend.removalRoutes) <= reconciler.backend.removalRoutes
    ensures old(reconciler.backend.removalAddresses) <= reconciler.backend.removalAddresses
  {
    hide RouteReconciler.Valid, RouteReconciler.Exact, RouteReconciler.Canonical, Accepts, Decided, Undone, Tried,
         Steps, KeysOf, Elements, Holdings, RoutesOf, Keyed;
    match c {
      case DoReconcile(cancelled, a, routes) =>
        ghost var undone;
        e, undone := reconciler.Reconcile(cancelled, a, routes);
        if e == NoError && old(reconciler.Exact()) {
          reconciler.CanonicalIsExact(a, Elements(routes));
          reconciler.CanonicalMeans(a, Elements(routes));
        }
        if Accepts(a, routes) && !cancelled {
          DecidedUndone(reconciler.backend.faults, old(reconciler.backend.calls), reconciler.backend.calls,
                        Steps(old(reconciler.ownedRoutes), old(reconciler.address), a, KeysOf(Elements(routes))),
                        e == NoError, undone);
        }
        if e != NoError && reconciler.KernelUnchanged() { reconciler.StillExact(); }
      case DoClear(cancelled) =>
        e := reconciler.Clear(cancelled);
        if cancelled { reconciler.StillExact(); }
    }
  }

  /** Any run of commands, under any failure pattern, including failing rollbacks. `moments` are the states before each
      command and at the end: each result and the state after it follow from the command, the state before it and the
      calls that fail. Removal was only ever asked for resources this process created, and every foreign resource is
      still there. While no compensating call has failed, the kernel is exactly foreign plus owned. */
  method Run(reconciler: RouteReconciler, commands: seq<Command>)
    returns (results: seq<Error>, ghost moments: seq<Moment>)
    requires reconciler.Valid()
    modifies reconciler, reconciler.backend
    ensures reconciler.Valid()
    ensures |results| == |commands| && |moments| == |commands| + 1
    ensures moments[0] == old(reconciler.Now()) && moments[|commands|] == reconciler.Now()
    ensures forall i, j | 0 <= i < |commands| && j == i + 1 ::
              Follows(reconciler.backend, commands[i], results[i], moments[i], moments[j])
    // nothing is forgotten: the history only grows
    ensures old(reconciler.backend.removalRoutes) <= reconciler.backend.removalRoutes
    ensures old(reconciler.backend.removalAddresses) <= reconciler.backend.removalAddresses
    ensures reconciler.backend.removalRoutes <= reconciler.backend.createdRoutes
    ensures reconciler.backend.removalAddresses <= reconciler.backend.createdAddresses
    ensures reconciler.backend.removalRoutes !! reconciler.backend.foreignRoutes
    ensures reconciler.backend.removalAddresses !! reconciler.backend.foreignAddresses
    ensures reconciler.backend.foreignRoutes <= reconciler.backend.routes
    ensures reconciler.backend.foreignAddresses <= reconciler.backend.addresses
    ensures !reconciler.compensationFailed ==> reconciler.Exact()
  {
    hide Follows, RouteReconciler.Now, RouteReconciler.Exact, RoutesOf, Keyed;
    results, moments := [], [reconciler.Now()];
    for n := 0 to |commands|
      invariant reconciler.Valid()
      invariant |results| == n && |moments| == n + 1
      invariant moments[0] == old(reconciler.Now()) && moments[n] == reconciler.Now()
      invariant forall i, j | 0 <= i < n && j == i + 1 ::
                  Follows(reconciler.backend, commands[i], results[i], moments[i], moments[j])
      invariant old(reconciler.backend.removalRoutes) <= reconciler.backend.removalRoutes
      invariant old(reconciler.backend.removalAddresses) <= reconciler.backend.removalAddresses
    {
      var e := Do(reconciler, commands[n]);
      results, moments := results + [e], moments + [reconciler.Now()];
    }
  }
}
