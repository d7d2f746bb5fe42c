/** Virtual IPv4 pools: CIDR arithmetic on 32-bit words, enumeration and the
    random-start search for a free address (internal/address/pool.go). */
module AddressPool {
  import opened Text
  import opened NetIp

  type Ones = x: int | 0 <= x <= 32

  /** What net.ParseCIDR makes of a pool text. */
  datatype Cidr = BadCidr | Cidr6 | Cidr4(ip: U32, ones: Ones)

  datatype Pool = Pool(network: U32, prefix: Ones, first: U32, last: U32, usableCount: nat)

  function Pow2(k: nat): (r: nat)
    ensures r >= 1
  {
    if k == 0 then 1 else 2 * Pow2(k - 1)
  }

  /** Bitwise and. */
  function And(x: nat, y: nat): nat {
    if x == 0 || y == 0 then 0 else 2 * And(x / 2, y / 2) + if x % 2 == 1 && y % 2 == 1 then 1 else 0
  }

  /** ^uint32(0) << (32 - ones), with the source's separate case for a zero prefix. */
  function Mask(ones: Ones): nat {
    if ones > 0 then (0xFFFF_FFFF * Pow2(32 - ones)) % TWO32 else 0
  }

  /** Number of addresses of a prefix, usable or not. */
  function BlockSize(ones: Ones): nat { Pow2(32 - ones) }

  function NewPool(cidr: Cidr): Option<Pool> {
    match cidr
    case BadCidr => None
    case Cidr6 => None
    case Cidr4(ip, ones) =>
      if And(ip, Mask(ones)) != ip then None
      else
        var size := Pow2(32 - ones);
        if size > 2 then
          Some(Pool(ip, ones, (ip + 1) % TWO32, (ip + (size - 2) % TWO32) % TWO32, size - 2))
        else
          Some(Pool(ip, ones, 0, 0, 0))
  }

  predicate Contains(pool: Pool, a: Addr) {
    a.V4? && And(a.v4, Mask(pool.prefix)) == And(pool.network, Mask(pool.prefix))
  }

  predicate Usable(pool: Pool, a: Addr) {
    a.V4? && pool.usableCount > 0 && pool.first <= a.v4 <= pool.last
  }

  // ---------------------------------------------------------------- masks are intervals

  lemma {:induction false} AndAllOnes(x: nat, w: nat)
    requires x < Pow2(w)
    ensures And(x, Pow2(w) - 1) == x
  {
    hide And;
    AndStep(x, Pow2(w) - 1);
    if w > 0 {
      assert (Pow2(w) - 1) / 2 == Pow2(w - 1) - 1;
      AndAllOnes(x / 2, w - 1);
    } else {
      AndZero(0);
    }
  }

  lemma AndZero(x: nat)
    ensures And(x, 0) == 0
  {
  }

  lemma AndEven(x: nat, m: nat)
    ensures And(x, 2 * m) == 2 * And(x / 2, m)
  {
    hide And;
    AndStep(x, 2 * m);
    assert 2 * m / 2 == m && 2 * m % 2 == 0;
  }

  /** The bits of an and, from the lowest. */
  lemma AndStep(x: nat, y: nat)
    ensures And(x, y) == 2 * And(x / 2, y / 2) + if x % 2 == 1 && y % 2 == 1 then 1 else 0
  {
  }

  lemma ModDouble(x: nat, p: nat)
    requires p > 0
    ensures x % (2 * p) == 2 * ((x / 2) % p) + x % 2
  {
    var q, r := (x / 2) / p, (x / 2) % p;
    assert x / 2 == q * p + r;
    assert x == 2 * (x / 2) + x % 2;
    assert x == q * (2 * p) + (2 * r + x % 2);
    ModUnique(x, 2 * p, q, 2 * r + x % 2);
  }

  lemma MulGap(a: nat, b: nat, m: nat)
    requires a < b
    ensures a * m + m <= b * m
  {
    assert b * m == a * m + (b - a) * m;
    assert (b - a) * m == m + (b - a - 1) * m;
  }

  lemma ModUnique(x: nat, m: nat, q: nat, r: nat)
    requires m > 0 && x == q * m + r && r < m
    ensures x % m == r && x / m == q
  {
    var q', r' := x / m, x % m;
    assert x == q' * m + r' && r' < m;
    if q' < q {
      MulGap(q', q, m);
      assert false;
    } else if q' > q {
      MulGap(q, q', m);
      assert false;
    }
  }

  lemma {:induction false} AndHighOnes(x: nat, k: nat, w: nat)
    requires k <= w && x < Pow2(w)
    ensures Pow2(k) <= Pow2(w)
    ensures And(x, Pow2(w) - Pow2(k)) == x - x % Pow2(k)
  {
    hide And;
    if k == 0 {
      AndAllOnes(x, w);
    } else {
      AndHighOnes(x / 2, k - 1, w - 1);
      AndEven(x, Pow2(w - 1) - Pow2(k - 1));
      ModDouble(x, Pow2(k - 1));
    }
  }

  lemma Pow2Values()
    ensures Pow2(32) == TWO32 && Pow2(1) == 2 && Pow2(2) == 4
  {
    assert Pow2(8) == 256;
    assert Pow2(16) == 0x1_0000 by { assert Pow2(12) == 0x1000; }
    assert Pow2(24) == 0x100_0000 by { assert Pow2(20) == 0x10_0000; }
    assert Pow2(28) == 0x1000_0000;
  }

  lemma {:induction false} Pow2Monotone(j: nat, k: nat)
    requires j <= k
    ensures Pow2(j) <= Pow2(k)
  {
    if j < k { Pow2Monotone(j, k - 1); }
  }

  lemma MaskIsHighOnes(ones: Ones)
    ensures BlockSize(ones) <= TWO32
    ensures Mask(ones) == TWO32 - BlockSize(ones)
  {
    Pow2Values();
    Pow2Monotone(32 - ones, 32);
    if ones > 0 {
      var p := Pow2(32 - ones);
      Pow2Monotone(32 - ones, 31);
      assert 0xFFFF_FFFF * p == (p - 1) * TWO32 + (TWO32 - p);
      ModUnique(0xFFFF_FFFF * p, TWO32, p - 1, TWO32 - p);
    }
  }

  /** Masking rounds down to a block boundary. */
  lemma AndMask(x: U32, ones: Ones)
    ensures And(x, Mask(ones)) == x - x % BlockSize(ones)
  {
    hide And;
    MaskIsHighOnes(ones);
    Pow2Values();
    AndHighOnes(x, 32 - ones, 32);
  }

  predicate Aligned(ip: U32, ones: Ones) { ip % BlockSize(ones) == 0 }

  lemma CanonicalIsAligned(ip: U32, ones: Ones)
    ensures And(ip, Mask(ones)) == ip <==> Aligned(ip, ones)
  {
    hide Pow2, And, Mask;
    AndMask(ip, ones);
  }

  /** A constructed pool covers exactly one aligned block, and its usable part lies strictly inside. */
  lemma PoolShape(cidr: Cidr, pool: Pool)
    requires NewPool(cidr) == Some(pool)
    ensures cidr.Cidr4? && pool.network == cidr.ip && pool.prefix == cidr.ones
    ensures Aligned(pool.network, pool.prefix)
    ensures pool.network + BlockSize(pool.prefix) <= TWO32
    ensures pool.usableCount == if pool.prefix <= 30 then BlockSize(pool.prefix) - 2 else 0
    ensures pool.usableCount > 0 <==> pool.prefix <= 30
    ensures pool.usableCount > 0 ==>
              && pool.first == pool.network + 1
              && pool.last == pool.network + BlockSize(pool.prefix) - 2
              && pool.last - pool.first + 1 == pool.usableCount
  {
    hide Pow2, And, Mask, Aligned;
    var ip, ones := cidr.ip, cidr.ones;
    CanonicalIsAligned(ip, ones);
    AlignedBlockFits(ip, ones);
    if ones <= 30 {
      LargeBlock(ones);
    } else {
      SmallBlock(ones);
    }
  }

  lemma LargeBlock(ones: Ones)
    requires ones <= 30
    ensures BlockSize(ones) >= 4
  {
    Pow2Values();
    Pow2Monotone(2, 32 - ones);
  }

  lemma AlignedBlockFits(ip: U32, ones: Ones)
    requires Aligned(ip, ones)
    ensures ip + BlockSize(ones) <= TWO32
  {
    Pow2Sum(32 - ones, ones);
    Pow2Values();
    NextMultiple(ip, BlockSize(ones), Pow2(ones));
  }

  lemma NextMultiple(x: nat, p: nat, blocks: nat)
    requires p > 0 && x % p == 0 && x < p * blocks
    ensures x + p <= p * blocks
  {
    var q := x / p;
    assert x == q * p;
    if q > blocks {
      MulGap(blocks, q, p);
    } else if q < blocks {
      MulGap(q, blocks, p);
    }
  }

  lemma {:induction false} Pow2Sum(j: nat, k: nat)
    ensures Pow2(j) * Pow2(k) == Pow2(j + k)
  {
    if j > 0 { Pow2Sum(j - 1, k); }
  }

  /** Contains is exactly the interval of the prefix; usable addresses are exactly its interior. */
  lemma ContainsIsInterval(cidr: Cidr, pool: Pool, v: U32)
    requires NewPool(cidr) == Some(pool)
    ensures Contains(pool, V4(v)) <==> pool.network <= v < pool.network + BlockSize(pool.prefix)
    ensures Usable(pool, V4(v)) <==> pool.network < v < pool.network + BlockSize(pool.prefix) - 1
    ensures Usable(pool, V4(v)) ==> Contains(pool, V4(v))
  {
    PoolShape(cidr, pool);
    var p, n: nat := BlockSize(pool.prefix), pool.network;
    assert Contains(pool, V4(v)) <==> v - v % p == n by {
      AndMask(v, pool.prefix);
      AndMask(n, pool.prefix);
    }
    AlignedInterval(n, p, v);
    if pool.prefix > 30 { SmallBlock(pool.prefix); }
  }

  lemma SmallBlock(ones: Ones)
    requires ones > 30
    ensures BlockSize(ones) <= 2
  {
    Pow2Values();
    Pow2Monotone(32 - ones, 1);
  }

  lemma AlignedInterval(n: nat, p: nat, v: nat)
    requires p > 0 && n % p == 0
    ensures v - v % p == n <==> n <= v < n + p
  {
    if n <= v < n + p {
      assert n == (n / p) * p;
      ModUnique(v, p, n / p, v - n);
    }
  }

  // ---------------------------------------------------------------- enumeration and search

  ghost predicate Constructed(pool: Pool) {
    NewPool(Cidr4(pool.network, pool.prefix)) == Some(pool)
  }

  lemma UsableRange(pool: Pool)
    requires Constructed(pool)
    ensures pool.usableCount > 0 ==> pool.first + pool.usableCount == pool.last + 1
    ensures forall v: U32 :: Usable(pool, V4(v)) <==> pool.first <= v < pool.first + pool.usableCount
    ensures pool.usableCount > 0 ==> pool.network < pool.first && pool.last < pool.network + BlockSize(pool.prefix) - 1
  {
    hide Pow2, And, Mask, Aligned, NewPool;
    PoolShape(Cidr4(pool.network, pool.prefix), pool);
  }

  ghost predicate Free(pool: Pool, used: set<U32>, v: U32) {
    Usable(pool, V4(v)) && v !in used
  }

  /** Visits usable addresses in ascending order until the visitor stops. */
  method ForEachCandidate(pool: Pool, stop: U32 -> bool) returns (visited: seq<U32>, stopped: bool)
    requires Constructed(pool)
    ensures |visited| <= pool.usableCount
    ensures forall i | 0 <= i < |visited| :: visited[i] == pool.first + i
    ensures stopped ==> visited != [] && stop(visited[|visited| - 1])
    ensures !stopped ==> |visited| == pool.usableCount
    ensures forall i | 0 <= i < |visited| - (if stopped then 1 else 0) :: !stop(visited[i])
  {
    UsableRange(pool);
    visited, stopped := [], false;
    if pool.usableCount == 0 { return; }
    var value: U32 := pool.first;
    while true
      invariant pool.first <= value <= pool.last
      invariant !stopped && |visited| == value - pool.first
      invariant forall i | 0 <= i < |visited| :: visited[i] == pool.first + i && !stop(visited[i])
      decreases pool.last - value
    {
      visited := visited + [value];
      if stop(value) { stopped := true; return; }
      if value == pool.last { break; }
      value := value + 1;
    }
  }

  /** addOccupied over a list of addresses: entries that are not IPv4 are ignored. */
  ghost function Occupied(occupied: seq<Addr>): set<U32> {
    set i | 0 <= i < |occupied| && occupied[i].V4? :: occupied[i].v4
  }

  method AddOccupied(occupied: seq<Addr>) returns (used: set<U32>)
    ensures used == Occupied(occupied)
  {
    used := {};
    for i := 0 to |occupied|
      invariant used == Occupied(occupied[..i])
    {
      assert occupied[..i + 1] == occupied[..i] + [occupied[i]];
      assert Occupied(occupied[..i + 1]) ==
             Occupied(occupied[..i]) + (if occupied[i].V4? then {occupied[i].v4} else {}) by {
        OccupiedSnoc(occupied[..i], occupied[i]);
      }
      if occupied[i].V4? { used := used + {occupied[i].v4}; }
    }
    assert occupied[..|occupied|] == occupied;
  }

  lemma OccupiedSnoc(s: seq<Addr>, a: Addr)
    ensures Occupied(s + [a]) == Occupied(s) + (if a.V4? then {a.v4} else {})
  {
    var t := s + [a];
    forall x | x in Occupied(s) ensures x in Occupied(t) {
      var i :| 0 <= i < |s| && s[i].V4? && s[i].v4 == x;
      assert t[i] == s[i];
    }
    if a.V4? { assert t[|s|] == a; }
  }

  /** The least free address, or nothing exactly when the pool is exhausted. */
  method Next(pool: Pool, occupied: seq<Addr>) returns (r: Option<U32>)
    requires Constructed(pool)
    ensures r.Some? ==> Free(pool, Occupied(occupied), r.value)
    ensures r.Some? ==> forall v: U32 | Free(pool, Occupied(occupied), v) :: r.value <= v
    ensures r.None? <==> forall v: U32 :: !Free(pool, Occupied(occupied), v)
  {
    UsableRange(pool);
    var used := AddOccupied(occupied);
    var visited, stopped := ForEachCandidate(pool, v => v !in used);
    forall v: U32 | Usable(pool, V4(v)) && v - pool.first < |visited| ensures visited[v - pool.first] == v {}
    if stopped {
      r := Some(visited[|visited| - 1]);
      assert Free(pool, used, r.value);
    } else {
      r := None;
    }
  }

  datatype Pick = Picked(value: U32) | Exhausted | NoRandom

  /** The k-th address of the walk. */
  function SlotAddr(pool: Pool, start: nat, k: nat): int
    requires pool.usableCount > 0
  {
    pool.first + Slot(start, k, pool.usableCount)
  }

  function Slot(start: nat, k: nat, n: nat): (r: nat)
    requires n > 0
    ensures r < n
  {
    (start + k) % n
  }

  /** v is the first free address met when walking the pool cyclically from the given offset. */
  ghost predicate FirstFreeFrom(pool: Pool, used: set<U32>, start: nat, v: U32)
    requires pool.usableCount > 0
  {
    exists k: nat :: FirstFreeAt(pool, used, start, k, v)
  }

  ghost predicate FirstFreeAt(pool: Pool, used: set<U32>, start: nat, k: nat, v: U32)
    requires pool.usableCount > 0
  {
    && k < pool.usableCount
    && v == SlotAddr(pool, start, k)
    && Free(pool, used, v)
    && forall j: nat | j < k :: SlotAddr(pool, start, j) in used
  }

  /** The first free address from a start: going up from it, all before it are used; if the search wrapped, that is all
      from the start to the last address and all from the first one up to it. */
  lemma FirstFreeMeans(pool: Pool, used: set<U32>, start: nat, v: U32)
    requires Constructed(pool) && start < pool.usableCount && FirstFreeFrom(pool, used, start, v)
    ensures Free(pool, used, v)
    ensures var from := pool.first + start;
            if from <= v then forall u: U32 | from <= u < v :: u in used
            else && (forall u: U32 | from <= u <= pool.last :: u in used)
                 && (forall u: U32 | pool.first <= u < v :: u in used)
  {
    hide Slot;
    UsableRange(pool);
    var n := pool.usableCount;
    var k: nat :| FirstFreeAt(pool, used, start, k, v);
    SlotIs(start, k, n);
    forall u: U32 | pool.first + start <= u <= pool.last && (v < pool.first + start || u < v) ensures u in used {
      SlotIs(start, u - pool.first - start, n);
      assert SlotAddr(pool, start, u - pool.first - start) == u;
    }
    if v < pool.first + start {
      forall u: U32 | pool.first <= u < v ensures u in used {
        SlotIs(start, n - start + (u - pool.first), n);
        assert SlotAddr(pool, start, n - start + (u - pool.first)) == u;
      }
    }
  }

  lemma SlotIs(start: nat, k: nat, n: nat)
    requires start < n && k < n
    ensures Slot(start, k, n) == if start + k < n then start + k else start + k - n
  {
  }

  /** A full turn of the pool that met only used addresses leaves none free. */
  lemma FullTurn(pool: Pool, used: set<U32>, start: nat)
    requires Constructed(pool) && start < pool.usableCount
    requires forall j: nat | j < pool.usableCount :: SlotAddr(pool, start, j) in used
    ensures forall v: U32 :: !Free(pool, used, v)
  {
    hide Slot;
    UsableRange(pool);
    forall v: U32 | Usable(pool, V4(v)) ensures v in used {
      var j := WrapCovers(pool.usableCount, start, v - pool.first);
      assert SlotAddr(pool, start, j) in used;
    }
  }

  /** Random-start search. `start` is the drawn offset; `randomOk` is false when the reader failed. */
  method RandomNext(pool: Pool, randomOk: bool, start: nat, occupied: seq<Addr>) returns (r: Pick)
    requires Constructed(pool)
    requires pool.usableCount > 0 ==> start < pool.usableCount
    ensures r.NoRandom? <==> pool.usableCount > 0 && !randomOk
    ensures r.Picked? ==> pool.usableCount > 0 && FirstFreeFrom(pool, Occupied(occupied), start, r.value)
    ensures r.Picked? ==> Free(pool, Occupied(occupied), r.value)
    ensures randomOk ==> (r.Exhausted? <==> forall v: U32 :: !Free(pool, Occupied(occupied), v))
  {
    hide NewPool, Constructed, Occupied, Slot;
    if pool.usableCount == 0 { return Exhausted; }
    var used := AddOccupied(occupied);
    if !randomOk { return NoRandom; }
    r := Search(pool, used, start);
  }

  lemma SlotInRange(pool: Pool, start: nat, k: nat)
    requires Constructed(pool) && pool.usableCount > 0
    ensures pool.first <= SlotAddr(pool, start, k) <= pool.last
  {
    hide Slot;
    UsableRange(pool);
  }

  lemma FoundAt(pool: Pool, used: set<U32>, start: nat, k: nat, v: U32)
    requires Constructed(pool) && k < pool.usableCount && v !in used
    requires v == SlotAddr(pool, start, k)
    requires forall j: nat | j < k :: SlotAddr(pool, start, j) in used
    ensures FirstFreeFrom(pool, used, start, v) && Free(pool, used, v)
  {
    hide Slot;
    UsableRange(pool);
    assert FirstFreeAt(pool, used, start, k, v);
  }

  method Search(pool: Pool, used: set<U32>, start: nat) returns (r: Pick)
    requires Constructed(pool) && start < pool.usableCount
    ensures !r.NoRandom?
    ensures r.Picked? ==> FirstFreeFrom(pool, used, start, r.value) && Free(pool, used, r.value)
    ensures r.Exhausted? ==> forall v: U32 :: !Free(pool, used, v)
  {
    hide *;
    var offset := 0;
    while offset < pool.usableCount
      invariant 0 <= offset <= pool.usableCount
      invariant forall j: nat | j < offset :: SlotAddr(pool, start, j) in used
    {
      SlotInRange(pool, start, offset);
      var value: U32 := SlotAddr(pool, start, offset);
      if value !in used {
        FoundAt(pool, used, start, offset, value);
        return Picked(value);
      }
      offset := offset + 1;
    }
    FullTurn(pool, used, start);
    r := Exhausted;
  }

  lemma WrapCovers(n: nat, start: nat, d: nat) returns (j: nat)
    requires start < n && d < n
    ensures j < n && Slot(start, j, n) == d
  {
    if d >= start {
      j := d - start;
      ModUnique(start + j, n, 0, d);
    } else {
      j := d + n - start;
      ModUnique(start + j, n, 1, d);
    }
  }

  /** Every free address is the answer for some drawn start. */
  lemma RandomNextReaches(pool: Pool, used: set<U32>, v: U32, w: U32)
    requires Constructed(pool) && Free(pool, used, v)
    requires FirstFreeFrom(pool, used, v - pool.first, w)
    ensures w == v
  {
    UsableRange(pool);
    var n, start: nat := pool.usableCount, v - pool.first;
    ModUnique(start, n, 0, start);
    assert SlotAddr(pool, start, 0) == v;
    hide SlotAddr;
    var k: nat :| FirstFreeAt(pool, used, start, k, w);
  }

  // ---------------------------------------------------------------- counting

  ghost predicate InInterval(x: int, lo: int, n: nat) { lo <= x < lo + n }

  ghost function Interval(lo: int, n: nat): set<int> {
    set x: int {:trigger InInterval(x, lo, n)} | lo <= x < lo + n && InInterval(x, lo, n)
  }

  lemma {:induction false} IntervalSize(lo: int, n: nat)
    ensures |Interval(lo, n)| == n
  {
    if n > 0 {
      IntervalSize(lo, n - 1);
      assert Interval(lo, n) == Interval(lo, n - 1) + {lo + n - 1};
    }
  }

  ghost function UsableSet(pool: Pool): set<int> { Interval(pool.first, pool.usableCount) }

  /** Fewer excluded addresses than usable ones leave a free one. */
  lemma SomeoneFree(pool: Pool, used: set<U32>)
    requires Constructed(pool) && |used| < pool.usableCount
    ensures exists v: U32 :: Free(pool, used, v)
  {
    UsableRange(pool);
    var all := UsableSet(pool);
    IntervalSize(pool.first, pool.usableCount);
    var taken: set<int> := used;
    if all <= taken {
      SubsetSize(all, taken);
      assert false;
    }
    var v :| v in all && v !in taken;
    assert Free(pool, used, v);
  }

  lemma {:induction false} SubsetSize<T>(a: set<T>, b: set<T>)
    requires a <= b
    ensures |a| <= |b|
    decreases a
  {
    if a != {} {
      var x :| x in a;
      SubsetSize(a - {x}, b - {x});
    }
  }
}
