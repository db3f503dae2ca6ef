/** The buddy physical page allocator of kern/mm/pmm/buddy.c. */
module Buddy {
  import opened Words
  import opened Blocks
  import opened ListHead
  import opened BuddySpec
  import opened BuddyTheorems

  const SIZE_MAX := 0x1_0000_0000
  const ADDR_MAX := 0x1_0000_0000_0000_0000

  /** The largest `1 << order` that an `int` holds. */
  const MAX_PAGES := 0x4000_0000

  /** The return value -1 of `malloc`, as an `addr_t`. */
  const NO_MEMORY: nat := ADDR_MAX - 1

  /** The three index macros, on the words `index` and `1 << order`. */
  function GetBuddy(index: nat, order: nat): nat { Xor(index, Pow2(order)) }
  function GetLowIndex(index: nat, order: nat): nat { AndNot(index, Pow2(order)) }
  function GetHighIndex(index: nat, order: nat): nat { Or(index, Pow2(order)) }

  /** DIV_ROUND_UP in 64 bits, stored in a 32-bit `size_t`. */
  function PageCnt(size: nat, pageSize: nat): nat
    requires pageSize > 0
  {
    (size + pageSize - 1) % ADDR_MAX / pageSize % SIZE_MAX
  }

  /** The least order from `t` on whose blocks hold `cnt` pages. */
  function OrderFrom(cnt: nat, t: nat): nat
    decreases cnt - Pow2(t)
  {
    if cnt <= Pow2(t) then t else OrderFrom(cnt, t + 1)
  }

  lemma {:induction false} OrderFits(cnt: nat, t: nat)
    ensures t <= OrderFrom(cnt, t) && cnt <= Pow2(OrderFrom(cnt, t))
    ensures OrderFrom(cnt, t) > t ==> Pow2(OrderFrom(cnt, t) - 1) < cnt
    decreases cnt - Pow2(t)
  {
    if cnt > Pow2(t) { OrderFits(cnt, t + 1); }
  }

  /** What the allocator is built on: whole pages of a power of two, below 2^32 bytes of them, inside
      the physical address space, few enough that `1 << order` is an `int`. */
  ghost predicate Geometry(base: nat, pageSize: nat, pageCount: nat) {
    && IsPowOf2(pageSize) && pageSize < SIZE_MAX && base % pageSize == 0
    && pageSize * pageCount < SIZE_MAX && base + pageSize * pageCount < ADDR_MAX
    && pageCount < MAX_PAGES
  }

  // ---------------------------------------------------------------- steps of the two loops

  lemma InitRings(links: Links, lists: seq<seq<int>>)
    requires Rings(links, lists) && forall k :: 0 <= k < |lists| ==> lists[k] == []
    ensures Rings(Initialised(links, Head(|lists|)), lists + [[]])
  {
    forall k | 0 <= k < |lists| ensures Ring(Initialised(links, Head(|lists|)), Head(k), lists[k]) {
      RingInit(links, Head(|lists|), Head(k), lists[k]);
    }
  }

  /** Every page a live block of its own. */
  ghost function AllLive(n: nat): LiveMap {
    map i | i in Span(0, n) :: Live(0, 1, 0)
  }

  lemma InitialState(z: Zone, live: LiveMap)
    requires live == AllLive(|z.recs|)
    requires forall i :: 0 <= i < |z.recs| ==> z.recs[i] == BuddyPage(0, 0, true, 1)
    requires 0 < |z.lists| && |z.recs| < Pow2(|z.lists|)
    requires Rings(z.links, z.lists) && forall k :: 0 <= k < |z.lists| ==> z.lists[k] == []
    ensures FreePages(|z.recs|, live) == {}
    ensures Rep(z, live, FreePages(|z.recs|, live))
    ensures Waste(live, |z.recs|) == 0
  {
    forall p: nat | p < |z.recs| ensures Owned(live, p) { assert Owns(live, p, p); }
    forall i: nat, k: nat ensures !Maximal({}, i, k) { }
    NoWaste(live, |z.recs|);
  }

  lemma {:induction false} NoWaste(live: LiveMap, n: nat)
    requires forall h | h in live :: live[h] == Live(0, 1, 0)
    ensures Waste(live, n) == 0
  {
    if n > 0 { NoWaste(live, n - 1); }
  }

  lemma TakenRun(z: Zone, live: LiveMap, free: set<nat>, i: nat, k: nat, t: nat)
    requires Rep(z, live, free) && Maximal(free, i, k) && t <= k
    ensures i + Pow2(k) <= |z.recs| && FreeRun(free, i, k) && FreeRun(free, i, t) && i !in live && i in free
  {
    ListedBlock(z, live, free, i, k);
    AlignedCoarser(i, t, k);
    SubRun(free, i, k, i, t);
    assert !Owns(live, i, i);
  }

  lemma CountersAfterMalloc(n: nat, live: LiveMap, i: nat, b: Live)
    requires i !in live && FreeRun(FreePages(n, live), i, b.order) && b.count <= Pow2(b.order)
    ensures FreePages(n, live[i := b]) == FreePages(n, live) - Pages(i, b.order)
    ensures |FreePages(n, live[i := b])| == |FreePages(n, live)| - Pow2(b.order)
    ensures Waste(live[i := b], n) == Waste(live, n) + (Pow2(b.order) - b.count)
  {
    FreeAfterLive(n, live, i, b);
    FreeRunIsSubset(FreePages(n, live), i, b.order);
    WasteAdd(live, i, b, n);
    assert i in FreePages(n, live);
  }

  lemma CountersAfterFree(n: nat, live: LiveMap, i: nat)
    requires LiveOk(n, live) && i in live
    ensures FreePages(n, live - {i}) == FreePages(n, live) + Pages(i, live[i].order)
    ensures |FreePages(n, live - {i})| == |FreePages(n, live)| + Pow2(live[i].order) <= n
    ensures Waste(live - {i}, n) == Waste(live, n) - (Pow2(live[i].order) - live[i].count)
  {
    FreeAfterFree(n, live, i);
    WasteRemove(live, i, n);
    SubsetSize(FreePages(n, live - {i}), Span(0, n));
  }

  lemma SubsetSize(a: set<nat>, b: set<nat>)
    requires a <= b
    ensures |a| <= |b|
  {
    assert b == a + (b - a);
  }

  lemma HandSmaller(n: nat, live: LiveMap, free: set<nat>, i: nat, k: nat, t: nat)
    requires InHand(n, live, free, i, k) && t <= k
    ensures InHand(n, live, free, i, t)
  {
    AlignedCoarser(i, t, k);
    Pow2Grows(t, k);
    DownAll(t, k);
  }

  lemma UpperHalf(i: nat, k: nat)
    requires Aligned(i, k + 1)
    ensures Aligned(i, k) && GetHighIndex(i, k) == i + Pow2(k) == Buddy(i, k)
    ensures Aligned(i + Pow2(k), k) && Buddy(i + Pow2(k), k) == i && Down(i, k + 1) == i
    ensures Pages(i + Pow2(k), k) <= Pages(i, k + 1)
    ensures Pages(i, k + 1) - Pages(i + Pow2(k), k) == Pages(i, k)
  {
    OrAddsBit(i, k);
    AlignedCoarser(i, k, k + 1);
    BuddyValue(i, k);
    BuddyHalves(i, k, i);
  }

  /** One turn of the split loop: the upper half of the run in hand, of order `k`, is in range and can
      be put back, because the lower half is not free. */
  lemma SplitHalf(n: nat, live: LiveMap, free: set<nat>, b: Live, i: nat, k: nat)
    requires FreeRun(free, i, k + 1) && b.order <= k && i + Pow2(k + 1) <= n
    requires forall p | p in free :: !Owned(live, p)
    ensures var h, rest := GetHighIndex(i, k), free - Pages(i, k + 1);
            && h == i + Pow2(k) < n
            && InHand(n, live[i := b], rest, h, k) && !Maximal(rest, Buddy(h, k), k)
            && rest + Pages(h, k) == free - Pages(i, k)
    ensures FreeRun(free, i, k)
  {
    hide Pages, Words.Buddy, Or;
    UpperHalf(i, k);
    SubRun(free, i, k + 1, i, k);
    var h, rest, live' := i + Pow2(k), free - Pages(i, k + 1), live[i := b];
    AllInPages(h, k);
    FreeRunIsSubset(free, i, k + 1);
    InPages(i, k + 1, i);
    DownAll(b.order, k);
    forall p: nat | Down(p, k) == h ensures p !in rest && !Owned(live', p) {
      assert p in free;
      forall g ensures !Owns(live', g, p) {
        assert !Owns(live, g, p);
        assert g == i ==> Down(Down(p, b.order), k) == h;
      }
    }
  }

  lemma ListedRecord(z: Zone, live: LiveMap, free: set<nat>, k: nat, pos: nat)
    requires Rep(z, live, free) && k < |z.lists| && pos < |z.lists[k]|
    ensures var i := z.lists[k][pos]; 0 <= i < |z.recs| && !z.recs[i].inUse && z.recs[i].order == k
  {
    assert Listed(z.lists, z.lists[k][pos], k);
  }

  lemma FrontOfList(z: Zone, live: LiveMap, free: set<nat>, k: nat)
    requires Rep(z, live, free) && k < |z.lists| && z.lists[k] != []
    ensures Head(k) in z.links.next && z.links.next[Head(k)] == z.lists[k][0] && 0 <= z.lists[k][0] < |z.recs|
  {
    ListedRecord(z, live, free, k, 0);
    assert Ring(z.links, Head(k), z.lists[k]);
  }

  lemma HasRings(z: Zone, live: LiveMap, free: set<nat>)
    requires Rep(z, live, free)
    ensures Rings(z.links, z.lists)
  {
  }

  lemma HandInRange(n: nat, live: LiveMap, free: set<nat>, i: nat, k: nat)
    requires InHand(n, live, free, i, k)
    ensures Aligned(i, k) && i + Pow2(k) <= n
  {
  }

  lemma ListedIs(z: Zone, live: LiveMap, free: set<nat>, i: nat, k: nat)
    requires Rep(z, live, free)
    ensures Maximal(free, i, k) <==> k < |z.lists| && i in z.lists[k]
  {
    assert Listed(z.lists, i, k) <==> Maximal(free, i, k);
  }

  lemma ListedOnce(z: Zone, live: LiveMap, free: set<nat>, k: nat)
    requires Rep(z, live, free) && k < |z.lists|
    ensures NoDup(z.lists[k])
  {
  }

  /** One turn of the merge loop: the block in hand and its buddy, taken off its list, are one block. */
  lemma HandBoth(n: nat, live: LiveMap, free: set<nat>, i: nat, k: nat)
    requires InHand(n, live, free, i, k)
    requires var b := Words.Buddy(i, k); Maximal(free, b, k) && InHand(n, live, free - Pages(b, k), b, k)
    ensures GetLowIndex(i, k) == Down(i, k + 1)
    ensures var b, low := Words.Buddy(i, k), Down(i, k + 1);
            && InHand(n, live, free - Pages(b, k), low, k + 1)
            && free - Pages(b, k) + Pages(low, k + 1) == free + Pages(i, k)
  {
    hide FreePages, AndNot, Pages, Words.Buddy, Down, Owned;
    var b, low := Words.Buddy(i, k), Down(i, k + 1);
    AndNotClearsBit(i, k);
    DownDown(i, k + 1, k + 1);
    BuddyValue(i, k);
    AllInPages(i, k);
    AllInPages(b, k);
    AllInPages(low, k + 1);
    forall p: nat ensures Down(p, k + 1) == low <==> Down(p, k) == i || Down(p, k) == b { BuddyHalves(i, k, p); }
    FreeRunIsSubset(free, b, k);
    assert free - Pages(b, k) + Pages(low, k + 1) == free + Pages(i, k);
  }

  // ---------------------------------------------------------------- addresses

  lemma AddressFits(base: nat, pageSize: nat, pageCount: nat, index: nat)
    requires pageSize * pageCount < SIZE_MAX && base + pageSize * pageCount < ADDR_MAX
    requires 0 < pageSize && index < pageCount
    ensures (pageSize * index) % SIZE_MAX == pageSize * index
    ensures base + pageSize * index < NO_MEMORY
  {
    MulMonotone(pageSize, index + 1, pageCount);
    assert pageSize * (index + 1) == pageSize * index + pageSize;
  }

  lemma SizeFits(base: nat, pageSize: nat, pageCount: nat)
    requires Geometry(base, pageSize, pageCount)
    ensures 0 < pageSize < SIZE_MAX
  {
  }

  lemma AddressOk(base: nat, pageSize: nat, pageCount: nat, index: nat)
    requires Geometry(base, pageSize, pageCount) && index < pageCount
    ensures (pageSize * index) % SIZE_MAX == pageSize * index
    ensures base + pageSize * index < NO_MEMORY
  {
    AddressFits(base, pageSize, pageCount, index);
  }

  /** The address `malloc` returns for page `index`: the product is a 32-bit `size_t`. */
  function AddressReturned(base: nat, pageSize: nat, index: nat): nat {
    base + (pageSize * index) % SIZE_MAX
  }

  /** Why a zone must not be larger: every page gets its own address exactly when the last one starts less
      than 2^32 bytes after the first. */
  lemma AddressExact(base: nat, pageSize: nat, pageCount: nat)
    requires 0 < pageSize && 0 < pageCount
    ensures (forall i: nat | i < pageCount :: AddressReturned(base, pageSize, i) == base + pageSize * i)
            <==> pageSize * (pageCount - 1) < SIZE_MAX
  {
    if pageSize * (pageCount - 1) < SIZE_MAX {
      forall i: nat | i < pageCount ensures AddressReturned(base, pageSize, i) == base + pageSize * i {
        MulMonotone(pageSize, i, pageCount - 1);
      }
    } else {
      assert AddressReturned(base, pageSize, pageCount - 1) < base + pageSize * (pageCount - 1);
    }
  }

  /** In a larger zone the page 2^32 bytes after the first one gets the address of the first. */
  lemma LargeZoneCollides(base: nat, pageSize: nat) returns (i: nat)
    requires IsPowOf2(pageSize) && pageSize <= SIZE_MAX
    ensures 0 < i && pageSize * i == SIZE_MAX && AddressReturned(base, pageSize, i) == AddressReturned(base, pageSize, 0)
  {
    hide IsPowOf2, Pow2;
    var k := IsPowOf2Sound(pageSize);
    SmallPowers();
    Pow2Add(10, 10);
    Pow2Add(12, 20);
    if k > 32 { Pow2Grows(32, k); assert false; }
    i := Pow2(32 - k);
    Pow2Add(k, 32 - k);
  }

  /** The asserts of `free` on the record of a live block. */
  lemma LiveRecord(z: Zone, pageSize: nat, live: LiveMap, free: set<nat>, i: nat)
    requires Rep(z, live, free) && i in live && |z.recs| <= MAX_PAGES
    ensures i < |z.recs| && i % SIZE_MAX == i && LiveOk(|z.recs|, live)
    ensures z.recs[i] == BuddyPage(live[i].bytes, live[i].order, true, live[i].count)
    ensures And(i, Pow2(live[i].order) - 1) == 0 && live[i].order < |z.lists|
  {
    AndMaskIsOffset(i, live[i].order);
    if live[i].order >= |z.lists| { Pow2Grows(|z.lists|, live[i].order); assert false; }
  }

  function Max(a: nat, b: nat): (m: nat)
    ensures m >= a && m >= b && (m == a || m == b)
  {
    if a > b then a else b
  }

  /** A block of order `o` holds `size` bytes, and no smaller block does. */
  ghost predicate LeastBlock(pageSize: nat, size: nat, o: nat) {
    size <= pageSize * Pow2(o) && (o > 0 ==> pageSize * Pow2(o - 1) < size)
  }

  lemma {:induction false} LeastIsOne(pageSize: nat, size: nat, o: nat, p: nat)
    requires LeastBlock(pageSize, size, o) && LeastBlock(pageSize, size, p)
    ensures o == p
  {
    hide Pow2;
    if o < p {
      Pow2Grows(o, p - 1);
      MulMonotone(pageSize, Pow2(o), Pow2(p - 1));
      assert false;
    }
    if p < o {
      Pow2Grows(p, o - 1);
      MulMonotone(pageSize, Pow2(p), Pow2(o - 1));
      assert false;
    }
  }

  /** The order the loop finds is that of the least block that holds the request, as long as the page
      count is not cut. */
  lemma LeastBlockFound(pageSize: nat, size: nat)
    requires 0 < pageSize < SIZE_MAX && size <= pageSize * (SIZE_MAX - 1)
    ensures LeastBlock(pageSize, size, OrderFrom(PageCnt(size, pageSize), 0))
    ensures var cnt := PageCnt(size, pageSize); size <= pageSize * cnt < size + pageSize
  {
    hide PageCnt, Pow2, OrderFrom;
    RoundUpFits(size, pageSize);
    var cnt := PageCnt(size, pageSize);
    OrderFits(cnt, 0);
    var o := OrderFrom(cnt, 0);
    MulMonotone(pageSize, cnt, Pow2(o));
    if o > 0 { OnePageLess(pageSize, Pow2(o - 1), cnt); }
  }

  lemma OnePageLess(d: nat, x: nat, y: nat)
    requires x < y
    ensures d * x + d <= d * y
  {
    MulMonotone(d, x + 1, y);
    assert d * (x + 1) == d * x + d;
  }

  /** `i` is in front of the first list from order `o` on that has a block. */
  ghost predicate FrontBlock(lists: seq<seq<int>>, o: nat, i: nat) {
    exists k :: o <= k < |lists| && lists[k] != [] && lists[k][0] == i && forall j :: o <= j < k ==> lists[j] == []
  }

  /** The page allocator gave out page `i` as the head of the least block for `size` bytes, taken from the
      front of the first list that has one, and nothing else changed hands. */
  ghost predicate GivenOut(pageSize: nat, live: LiveMap, lists: seq<seq<int>>, size: nat, i: nat, live': LiveMap) {
    && i !in live && i in live' && live' == live[i := live'[i]]
    && live'[i].bytes == size && size <= pageSize * live'[i].count < size + pageSize
    && LeastBlock(pageSize, size, live'[i].order) && FrontBlock(lists, live'[i].order, i)
  }

  lemma BestFitIsFront(lists: seq<seq<int>>, t: nat)
    requires BestFit(lists, t) < |lists| && lists[BestFit(lists, t)] != [] && lists[BestFit(lists, t)][0] >= 0
    requires t <= BestFit(lists, t)
    ensures FrontBlock(lists, t, lists[BestFit(lists, t)][0])
  {
    var k := BestFit(lists, t);
    forall j | t <= j < k ensures lists[j] == [] { BestFitSkips(lists, t, j); }
  }

  /** What the relation of `malloc` says, without the way it is computed. */
  lemma MallocGives(n: nat, base: nat, pageSize: nat, live: LiveMap, lists: seq<seq<int>>, size: nat, addr: nat, live': LiveMap)
    requires MallocSpec(n, base, pageSize, live, lists, size, addr, live')
    requires pageSize < SIZE_MAX && size <= pageSize * (SIZE_MAX - 1)
    ensures forall o: nat | LeastBlock(pageSize, size, o) :: addr == NO_MEMORY <==> !HasRun(FreePages(n, live), o)
    ensures addr != NO_MEMORY ==>
              base <= addr && var i := (addr - base) / pageSize;
              addr == base + pageSize * i && GivenOut(pageSize, live, lists, size, i, live')
  {
    LeastBlockFound(pageSize, size);
    var t := OrderFrom(PageCnt(size, pageSize), 0);
    hide FreePages, HasRun, Maximal, FreeRun, OrderFrom, PageCnt, LeastBlock, BestFit, FrontBlock;
    forall o: nat | LeastBlock(pageSize, size, o) ensures addr == NO_MEMORY <==> !HasRun(FreePages(n, live), o) {
      LeastIsOne(pageSize, size, o, t);
    }
    if addr != NO_MEMORY {
      BestFitIsFront(lists, t);
      DivUnique(addr - base, pageSize, lists[BestFit(lists, t)][0], 0);
    }
  }

  /** The pages counted for a request hold it exactly when their number needs no more than the 32 bits
      of `size_t`; beyond that the count is silently cut and the block is too small. */
  lemma CountIsEnough(size: nat, pageSize: nat)
    requires 0 < pageSize < SIZE_MAX && size < ADDR_MAX
    ensures size <= pageSize * PageCnt(size, pageSize) <==> size <= pageSize * (SIZE_MAX - 1)
  {
    var cnt := PageCnt(size, pageSize);
    MulMonotone(pageSize, cnt, SIZE_MAX - 1);
    if size <= pageSize * (SIZE_MAX - 1) {
      RoundUpFits(size, pageSize);
    }
  }

  /** `(x + d - 1) / d` is `x / d` rounded up. */
  lemma RoundUp(x: nat, d: nat) returns (q: nat)
    requires d > 0
    ensures q == (x + d - 1) / d && x <= d * q < x + d
  {
    q := (x + d - 1) / d;
    var r := (x + d - 1) % d;
    assert x + d - 1 == d * q + r;
  }

  lemma RoundUpFits(size: nat, pageSize: nat)
    requires 0 < pageSize < SIZE_MAX && size <= pageSize * (SIZE_MAX - 1)
    ensures var q := (size + pageSize - 1) / pageSize;
            PageCnt(size, pageSize) == q && size <= pageSize * q < size + pageSize
  {
    var q := RoundUp(size, pageSize);
    MulMonotone(pageSize, SIZE_MAX, q);
    assert size + pageSize - 1 < pageSize * SIZE_MAX <= ADDR_MAX;
  }

  /** Powers of two: the smaller divides the larger. */
  lemma {:induction false} Pow2Divides(k: nat, m: nat, q: nat)
    requires k <= m
    ensures (Pow2(m) * q) % Pow2(k) == 0
  {
    Pow2Add(k, m - k);
    assert Pow2(m) * q == Pow2(k) * (Pow2(m - k) * q);
    DivUnique(Pow2(m) * q, Pow2(k), Pow2(m - k) * q, 0);
  }

  lemma SumDivides(a: nat, b: nat, d: nat)
    requires d > 0 && a % d == 0 && b % d == 0
    ensures (a + b) % d == 0
  {
    assert a == d * (a / d) && b == d * (b / d);
    assert a + b == d * (a / d + b / d);
    DivUnique(a + b, d, a / d + b / d, 0);
  }

  lemma BlockAddressAligned(base: nat, s: nat, a: nat, t: nat, i: nat)
    requires base % Pow2(a) == 0 && a <= s + t && Aligned(i, t)
    ensures (base + Pow2(s) * i) % Pow2(a) == 0
  {
    hide Pow2, Shr, Down;
    ShrIsDiv(i, t);
    Pow2Add(s, t);
    MulAssociates(Pow2(s), Pow2(t), Shr(i, t));
    Pow2Divides(a, s + t, Shr(i, t));
    SumDivides(base, Pow2(s) * i, Pow2(a));
  }

  lemma {:induction false} SmallOffsetMisaligned(base: nat, align: nat, x: nat)
    requires 0 < x < align && base % align == 0
    ensures (base + x) % align == x
  {
    assert base == align * (base / align);
    DivUnique(base + x, align, base / align, x);
  }

  /** `base` and `pageSize` are as in a zone of `n` pages, `align` a power of two that `base` has: the
      addresses of all blocks of order `t` have the alignment exactly when it is at most the size of such
      a block, or the zone has room for the first one only. */
  lemma AlignmentExact(n: nat, base: nat, pageSize: nat, align: nat, t: nat)
    requires IsPowOf2(pageSize) && IsPowOf2(align) && base % align == 0
    ensures align <= pageSize * Pow2(t) || n < 2 * Pow2(t) <==>
            forall i: nat | InRange(n, i, t) :: (base + pageSize * i) % align == 0
  {
    assert 0 < align && 0 < pageSize;
    hide IsPowOf2;
    if align <= pageSize * Pow2(t) {
      forall i: nat | InRange(n, i, t) ensures (base + pageSize * i) % align == 0 {
        LargeBlockAligned(base, pageSize, align, t, i);
      }
    } else if n < 2 * Pow2(t) {
      forall i: nat | InRange(n, i, t) ensures (base + pageSize * i) % align == 0 {
        OnlyFirstBlock(n, i, t);
        assert pageSize * 0 == 0;
      }
    } else {
      DownOfPow2(t);
      assert InRange(n, Pow2(t), t);
      SecondBlockMisaligned(base, pageSize, align, t);
    }
  }

  lemma LargeBlockAligned(base: nat, pageSize: nat, align: nat, t: nat, i: nat)
    requires IsPowOf2(pageSize) && IsPowOf2(align) && base % align == 0
    requires align <= pageSize * Pow2(t) && Aligned(i, t)
    ensures (base + pageSize * i) % align == 0
  {
    hide IsPowOf2, Pow2, Down;
    var s := IsPowOf2Sound(pageSize);
    var a := IsPowOf2Sound(align);
    Pow2Add(s, t);
    if s + t < a { Pow2Grows(s + t, a); assert false; }
    BlockAddressAligned(base, s, a, t, i);
  }

  lemma OnlyFirstBlock(n: nat, i: nat, t: nat)
    requires InRange(n, i, t) && n < 2 * Pow2(t)
    ensures i == 0
  {
    hide Pow2, Down;
    if i > 0 {
      ZeroAligned(t);
      AlignedStep(0, i, t);
      assert false;
    }
  }

  lemma ZeroAligned(t: nat)
    ensures Aligned(0, t)
  {
    DownBounds(0, t);
  }

  lemma SecondBlockMisaligned(base: nat, pageSize: nat, align: nat, t: nat)
    requires 0 < pageSize && 0 < align && base % align == 0 && pageSize * Pow2(t) < align
    ensures (base + pageSize * Pow2(t)) % align != 0
  {
    hide Pow2;
    MulMonotone(pageSize, 1, Pow2(t));
    SmallOffsetMisaligned(base, align, pageSize * Pow2(t));
  }

  lemma {:induction false} DownOfPow2(t: nat)
    ensures Aligned(Pow2(t), t)
  {
    if t > 0 { DownOfPow2(t - 1); }
  }

  /** The blocks of the order that a request of `size` bytes gets are large enough for `align`, or there
      is only one place for such a block. */
  predicate AlignmentKept(n: nat, pageSize: nat, size: nat, align: nat)
    requires pageSize > 0
  {
    var t := OrderFrom(PageCnt(size, pageSize), 0);
    align <= pageSize * Pow2(t) || n < 2 * Pow2(t)
  }

  /** Requests whose page count is not cut keep every alignment up to their size. */
  lemma UncutRequestKeepsAlignment(n: nat, pageSize: nat, size: nat, align: nat)
    requires 0 < pageSize < SIZE_MAX && align <= size <= pageSize * (SIZE_MAX - 1) && size < ADDR_MAX
    ensures AlignmentKept(n, pageSize, size, align)
  {
    hide PageCnt, Pow2;
    var cnt := PageCnt(size, pageSize);
    CountIsEnough(size, pageSize);
    OrderFits(cnt, 0);
    MulMonotone(pageSize, cnt, Pow2(OrderFrom(cnt, 0)));
  }

  /** A request of 2^44 bytes in pages of 4096: the count is cut to 0 and the block has one page, so an
      alignment to its size is not kept. One to 4096 bytes is. */
  lemma CutRequestLosesAlignment(n: nat)
    requires n >= 2
    ensures PageCnt(0x1000_0000_0000, 4096) == 0
    ensures !AlignmentKept(n, 4096, 0x1000_0000_0000, 0x1000_0000_0000)
    ensures AlignmentKept(n, 4096, 0x1000_0000_0000, 4096)
  {
    DivUnique(0x1000_0000_0000 + 4095, 4096, SIZE_MAX, 4095);
    DivUnique(0x1000_0000_0000 + 4095, ADDR_MAX, 0, 0x1000_0000_0000 + 4095);
    hide PageCnt;
    assert OrderFrom(0, 0) == 0;
  }

  lemma BaseAligned(base: nat, align: nat)
    requires IsPowOf2(align) && And(base, align - 1) == 0
    ensures base % align == 0
  {
    var a := IsPowOf2Sound(align);
    hide IsPowOf2, And, Pow2;
    AndMaskIsOffset(base, a);
    ShrIsDiv(base, a);
  }

  lemma AlignedAddress(n: nat, base: nat, pageSize: nat, live: LiveMap, lists: seq<seq<int>>,
                       size: nat, addr: nat, live': LiveMap, align: nat)
    requires MallocSpec(n, base, pageSize, live, lists, size, addr, live') && Geometry(base, pageSize, n)
    requires IsPowOf2(align) && And(base, align - 1) == 0 && addr != NO_MEMORY
    ensures AlignmentKept(n, pageSize, size, align) ==> addr % align == 0
  {
    BaseAligned(base, align);
    var t := OrderFrom(PageCnt(size, pageSize), 0);
    var i := lists[BestFit(lists, t)][0];
    RunInRange(n, live, i, t);
    hide IsPowOf2, And, PageCnt, OrderFrom, FreeRun, Maximal, HasRun, FreePages, InRange;
    AlignmentExact(n, base, pageSize, align, t);
  }

  lemma RunInRange(n: nat, live: LiveMap, i: nat, t: nat)
    requires FreeRun(FreePages(n, live), i, t)
    ensures InRange(n, i, t)
  {
    hide Down, Pow2, Owned;
    FreeRunIsSubset(FreePages(n, live), i, t);
    assert i + Pow2(t) - 1 in Pages(i, t);
  }

  lemma PtrIsAligned(base: nat, pageSize: nat, pageCount: nat, ptr: nat)
    requires pageSize > 0 && Geometry(base, pageSize, pageCount) && ptr >= base && ptr == base + pageSize * ((ptr - base) / pageSize)
    ensures ptr % pageSize == 0
  {
    var q := base / pageSize + (ptr - base) / pageSize;
    assert ptr == pageSize * q;
    DivUnique(ptr, pageSize, q, 0);
  }

  lemma FreeBytesFit(n: nat, pageSize: nat, live: LiveMap)
    requires pageSize * n < SIZE_MAX
    ensures (|FreePages(n, live)| * pageSize) % SIZE_MAX == pageSize * |FreePages(n, live)|
  {
    hide FreePages;
    SubsetSize(FreePages(n, live), Span(0, n));
    BytesFit(|FreePages(n, live)|, pageSize, n);
  }

  lemma BytesFit(f: nat, pageSize: nat, n: nat)
    requires f <= n && pageSize * n < SIZE_MAX
    ensures (f * pageSize) % SIZE_MAX == pageSize * f
  {
    MulMonotone(pageSize, f, n);
  }

  /** The largest order a zone of `pageCount` pages can have a block of. */
  method FindMaxOrder(pageCount: nat) returns (order: nat)
    ensures pageCount < Pow2(order + 1) && (order > 0 ==> Pow2(order) <= pageCount)
  {
    order := 0;
    while Pow2(order + 1) <= pageCount
      invariant order > 0 ==> Pow2(order) <= pageCount
      decreases pageCount - Pow2(order)
    {
      order := order + 1;
    }
  }

  /** What `malloc` promises, as a relation of the live blocks before and after, the lists before, and
      the address returned. It fails exactly when there is no aligned run of free pages of the order
      wanted; otherwise the new live block is such a run, at the start of the front block of the first
      list that has one. */
  ghost predicate MallocSpec(n: nat, base: nat, pageSize: nat, live: LiveMap, lists: seq<seq<int>>,
                             size: nat, addr: nat, live': LiveMap)
  {
    pageSize > 0
    && var cnt := PageCnt(size, pageSize);
       var free, t := FreePages(n, live), OrderFrom(cnt, 0);
       var o := BestFit(lists, t);
       && (addr == NO_MEMORY <==> !HasRun(free, t))
       && (addr == NO_MEMORY ==> live' == live)
       && (addr != NO_MEMORY ==>
             t <= o < |lists| && lists[o] != []
             && var i := lists[o][0];
                i >= 0 && addr == base + pageSize * i && i < n
                && Maximal(free, i, o) && FreeRun(free, i, t)
                && i !in live && live' == live[i := Live(t, cnt, size)])
  }

  class BuddyPmalloc {
    const base: nat
    const pageSize: nat
    const pageCount: nat
    const pages: array<BuddyPage>
    const mem: ListMem
    const maxOrder: nat
    var freePageCount: nat
    var wastePageCount: nat
    ghost var live: LiveMap
    ghost var lists: seq<seq<int>>

    ghost function Snap(): Zone
      reads this, pages, mem
    {
      Zone(pages[..], mem.links, lists)
    }

    ghost function FreeSet(): set<nat>
      reads this
    {
      FreePages(pageCount, live)
    }

    ghost predicate Valid()
      reads this, pages, mem
    {
      && pageSize > 0 && pageCount < MAX_PAGES && Geometry(base, pageSize, pageCount)
      && pages.Length == pageCount && |lists| == maxOrder + 1
      && (maxOrder > 0 ==> Pow2(maxOrder) <= pageCount)
      && Rep(Snap(), live, FreeSet())
      && freePageCount == |FreeSet()|
      && wastePageCount == Waste(live, pageCount)
    }

    ghost function AddrOf(index: nat): nat {
      base + pageSize * index
    }

    /** All pages start out live, each a block of its own. */
    constructor (base: nat, pageSize: nat, pageCount: nat)
      requires Geometry(base, pageSize, pageCount)
      ensures Valid() && fresh(pages) && fresh(mem)
      ensures this.base == base && this.pageSize == pageSize && this.pageCount == pageCount
      ensures live == AllLive(pageCount)
    {
      hide Rep, Pow2, FreePages, Waste, AllLive;
      this.base, this.pageSize, this.pageCount := base, pageSize, pageCount;
      freePageCount, wastePageCount := 0, 0;
      pages := new BuddyPage[pageCount](_ => BuddyPage(0, 0, false, 0));
      mem := new ListMem();
      lists := [];
      live := AllLive(pageCount);
      var order := FindMaxOrder(pageCount);
      maxOrder := order;
      new;
      MarkAllInUse();
      InitLists();
      InitialState(Snap(), live);
    }

    method MarkAllInUse()
      requires pages.Length == pageCount && forall i :: 0 <= i < pageCount ==> pages[i].byteSize == 0
      modifies pages
      ensures forall i :: 0 <= i < pageCount ==> pages[i] == BuddyPage(0, 0, true, 1)
    {
      for i := 0 to pageCount
        invariant forall j :: 0 <= j < i ==> pages[j] == BuddyPage(0, 0, true, 1)
        invariant forall j :: i <= j < pageCount ==> pages[j].byteSize == 0
      {
        pages[i] := pages[i].(order := 0, inUse := true, curPageCount := 1);
      }
    }

    method InitLists()
      requires lists == []
      modifies this`lists, mem
      ensures |lists| == maxOrder + 1 && forall k :: 0 <= k < |lists| ==> lists[k] == []
      ensures Rings(mem.links, lists)
    {
      for order := 0 to maxOrder + 1
        invariant |lists| == order && forall k :: 0 <= k < order ==> lists[k] == []
        invariant Rings(mem.links, lists)
      {
        InitRings(mem.links, lists);
        mem.InitListHead(Head(order));
        lists := lists + [[]];
      }
    }

    /** The smallest order that holds `cnt` pages. */
    method TargetOrder(cnt: nat) returns (targetOrder: nat)
      ensures targetOrder == OrderFrom(cnt, 0)
    {
      targetOrder := 0;
      while Pow2(targetOrder) < cnt
        invariant OrderFrom(cnt, targetOrder) == OrderFrom(cnt, 0)
        decreases cnt - Pow2(targetOrder)
      {
        targetOrder := targetOrder + 1;
      }
    }

    /** The first order from `targetOrder` on with a free block. */
    method FindList(targetOrder: nat) returns (order: nat)
      requires Rings(mem.links, lists) && |lists| == maxOrder + 1
      ensures order <= maxOrder <==> BestFit(lists, targetOrder) < |lists|
      ensures order <= maxOrder ==> order == BestFit(lists, targetOrder)
    {
      hide NoDup, After, Before;
      order := targetOrder;
      while order <= maxOrder
        invariant targetOrder <= order
        invariant BestFit(lists, order) == BestFit(lists, targetOrder)
      {
        assert Ring(mem.links, Head(order), lists[order]);
        if !mem.ListEmpty(Head(order)) { break; }
        order := order + 1;
      }
    }

    method Malloc(size: nat) returns (addr: nat)
      requires Valid() && size < ADDR_MAX && PageCnt(size, pageSize) <= MAX_PAGES
      modifies this, pages, mem
      ensures Valid()
      ensures MallocSpec(pageCount, base, pageSize, old(live), old(lists), size, addr, live)
      ensures lists == MallocLists(old(lists), OrderFrom(PageCnt(size, pageSize), 0))
      ensures addr == NO_MEMORY ==> Snap() == old(Snap())
      ensures size <= (SIZE_MAX - 1) * pageSize ==>
                && (forall o: nat | LeastBlock(pageSize, size, o) :: addr == NO_MEMORY <==> !HasRun(old(FreeSet()), o))
                && (addr != NO_MEMORY ==>
                      addr == AddrOf(IndexAt(addr)) && GivenOut(pageSize, old(live), old(lists), size, IndexAt(addr), live))
    {
      hide Rep, InHand, Maximal, FreeRun, Pow2, Pages, FreePages, Waste, Geometry, OrderFrom, BestFit, PageCnt, Rings, SplitLists;
      var cnt := PageCnt(size, pageSize);
      var targetOrder := TargetOrder(cnt);
      SearchComplete(Snap(), live, FreeSet(), targetOrder);
      BestFitFound(lists, targetOrder);
      HasRings(Snap(), live, FreeSet());
      var order := FindList(targetOrder);
      SizeFits(base, pageSize, pageCount);
      if order > maxOrder {
        if size <= (SIZE_MAX - 1) * pageSize {
          MallocGives(pageCount, base, pageSize, live, lists, size, NO_MEMORY, live);
        }
        return NO_MEMORY;
      }
      FrontOfList(Snap(), live, FreeSet(), order);
      var index := mem.links.next[Head(order)];
      OrderFits(cnt, 0);
      Hand(index, order, targetOrder, cnt, size);
      Split(index, order, targetOrder, old(FreeSet()), old(live));
      AddressOk(base, pageSize, pageCount, index);
      addr := AddressReturned(base, pageSize, index);
      if size <= (SIZE_MAX - 1) * pageSize {
        MallocGives(pageCount, base, pageSize, old(live), old(lists), size, addr, live);
      }
    }

    /** The record of a free block, and `list_add` to the list of its order. */
    method PutOnList(index: nat, order: nat, ghost free: set<nat>)
      requires pages.Length == pageCount
      requires Rep(Snap(), live, free) && InHand(pageCount, live, free, index, order)
      requires !Maximal(free, Words.Buddy(index, order), order)
      modifies this`lists, pages, mem
      ensures order < |old(lists)| && lists == old(lists)[order := [index] + old(lists)[order]]
      ensures Rep(Snap(), live, free + Pages(index, order))
    {
      hide Rep, InHand, Maximal;
      ghost var z := Snap();
      HandInRange(pageCount, live, free, index, order);
      PutBlock(z, live, free, index, order, z.recs[index].(inUse := false, order := order));
      pages[index] := pages[index].(inUse := false, order := order);
      mem.ListAdd(index, Head(order));
      lists := lists[order := [index] + lists[order]];
      assert Snap().recs == z.recs[index := z.recs[index].(inUse := false, order := order)];
    }

    /** `list_del` of a free block. */
    method TakeOffList(index: nat, order: nat, ghost free: set<nat>)
      requires pages.Length == pageCount
      requires Rep(Snap(), live, free) && Maximal(free, index, order)
      modifies this`lists, mem
      ensures order < |old(lists)| && lists == old(lists)[order := Removed(old(lists)[order], index)]
      ensures Rep(Snap(), live, free - Pages(index, order))
      ensures InHand(pageCount, live, free - Pages(index, order), index, order)
    {
      hide Rep, InHand, Maximal;
      ListedIs(Snap(), live, free, index, order);
      ghost var pos :| 0 <= pos < |lists[order]| && lists[order][pos] == index;
      TakeBlock(Snap(), live, free, order, pos);
      ListedOnce(Snap(), live, free, order);
      RemovedIs(lists[order], pos);
      mem.ListDel(index);
      lists := lists[order := Without(lists[order], pos)];
    }

    /** Lines 74 to 88: the record and the counters of the block found, and its removal from its list. */
    method Hand(index: nat, order: nat, targetOrder: nat, cnt: nat, size: nat)
      requires Valid() && targetOrder <= order <= maxOrder && cnt <= Pow2(targetOrder)
      requires lists[order] != [] && lists[order][0] == index
      modifies this, pages, mem
      ensures pages.Length == pageCount && |lists| == maxOrder + 1
      ensures lists == old(lists)[order := old(lists)[order][1..]]
      ensures Maximal(old(FreeSet()), index, order)
      ensures FreeRun(old(FreeSet()), index, order) && FreeRun(old(FreeSet()), index, targetOrder)
      ensures index !in old(live) && index + Pow2(order) <= pageCount
      ensures live == old(live)[index := Live(targetOrder, cnt, size)]
      ensures Rep(Snap(), live, old(FreeSet()) - Pages(index, order))
      ensures FreeSet() == old(FreeSet()) - Pages(index, targetOrder)
      ensures freePageCount == |FreeSet()| && wastePageCount == Waste(live, pageCount)
    {
      hide Rep, InHand, Maximal, FreeRun, Pow2, Pages, FreePages, Waste;
      ghost var z0, live0, free := Snap(), live, FreeSet();
      ghost var rest, b := free - Pages(index, order), Live(targetOrder, cnt, size);
      TakeBlock(z0, live, free, order, 0);
      TakenRun(z0, live, free, index, order, targetOrder);
      CountersAfterMalloc(pageCount, live, index, b);
      ListedRecord(z0, live, free, order, 0);
      assert !pages[index].inUse;
      assert freePageCount >= cnt;
      pages[index] := BuddyPage(size, targetOrder, true, cnt);
      wastePageCount := wastePageCount + (Pow2(targetOrder) - cnt);
      freePageCount := freePageCount - Pow2(targetOrder);
      mem.ListDel(index);
      WithoutFirst(lists[order]);
      lists := lists[order := Without(lists[order], 0)];
      live := live[index := b];
      ghost var z1 := Zone(z0.recs, mem.links, lists);
      HandSmaller(pageCount, live0, rest, index, order, targetOrder);
      RecordLive(z1, live0, rest, index, targetOrder, b);
      assert Snap() == z1.(recs := z1.recs[index := BuddyPage(size, targetOrder, true, cnt)]);
    }

    /** Lines 89 to 99: the upper halves go back to the lists until the block has the order wanted. */
    method Split(index: nat, order: nat, targetOrder: nat, ghost free: set<nat>, ghost live0: LiveMap)
      requires pages.Length == pageCount && |lists| == maxOrder + 1 && targetOrder <= order
      requires FreeRun(free, index, order) && index + Pow2(order) <= pageCount
      requires forall p | p in free :: !Owned(live0, p)
      requires index in live && live[index].order == targetOrder && live == live0[index := live[index]]
      requires Rep(Snap(), live, free - Pages(index, order))
      requires order < |lists|
      modifies this`lists, pages, mem
      ensures |lists| == maxOrder + 1 && lists == SplitLists(old(lists), index, order, targetOrder)
      ensures Rep(Snap(), live, free - Pages(index, targetOrder))
    {
      hide Rep, InHand, Maximal, FreeRun, Or, Pow2, Pages, FreePages;
      var order := order;
      ghost var order0 := order;
      while order > targetOrder
        invariant targetOrder <= order < |lists| == maxOrder + 1
        invariant SplitLists(lists, index, order, targetOrder) == SplitLists(old(lists), index, order0, targetOrder)
        invariant Rep(Snap(), live, free - Pages(index, order))
        invariant FreeRun(free, index, order) && index + Pow2(order) <= pageCount
      {
        order := order - 1;
        var highIndex := GetHighIndex(index, order);
        SplitHalf(pageCount, live0, free, live[index], index, order);
        assert highIndex < pageCount;
        if highIndex < pageCount {
          PutOnList(highIndex, order, free - Pages(index, order + 1));
        }
      }
    }

    /** Panics on an alignment that is not a power of two, or that the zone's base does not have. */
    method AlignedMalloc(size: nat, align: nat) returns (panicked: bool, addr: nat)
      requires Valid() && size < ADDR_MAX && align < ADDR_MAX
      requires PageCnt(Max(size, align), pageSize) <= MAX_PAGES
      modifies this, pages, mem
      ensures panicked <==> !(IsPowOf2(align) && And(base, align - 1) == 0)
      ensures panicked ==> live == old(live) && lists == old(lists) && Snap() == old(Snap())
      ensures Valid()
      ensures !panicked ==> MallocSpec(pageCount, base, pageSize, old(live), old(lists), Max(size, align), addr, live)
      ensures !panicked ==> lists == MallocLists(old(lists), OrderFrom(PageCnt(Max(size, align), pageSize), 0))
      ensures !panicked && addr == NO_MEMORY ==> Snap() == old(Snap())
      ensures var want := if align > size then align else size;
              !panicked && want <= (SIZE_MAX - 1) * pageSize ==>
                && (forall o: nat | LeastBlock(pageSize, want, o) :: addr == NO_MEMORY <==> !HasRun(old(FreeSet()), o))
                && (addr != NO_MEMORY ==>
                      addr == AddrOf(IndexAt(addr)) && GivenOut(pageSize, old(live), old(lists), want, IndexAt(addr), live))
      ensures !panicked && addr != NO_MEMORY && AlignmentKept(pageCount, pageSize, Max(size, align), align) ==> addr % align == 0
    {
      hide Rep, MallocSpec, MallocLists, Geometry, PageCnt, OrderFrom, FreePages, And, AlignmentKept;
      addr := NO_MEMORY;
      panicked := true;
      if !IsPowOf2(align) || And(base, align - 1) != 0 {
        return;
      }
      panicked := false;
      if align > size {
        addr := Malloc(align);
      } else {
        addr := Malloc(size);
      }
      if addr != NO_MEMORY { AlignedAddress(pageCount, base, pageSize, old(live), old(lists), Max(size, align), addr, live, align); }
    }

    /** The page at the address, if it is one of the zone. */
    ghost function IndexAt(addr: nat): nat {
      if addr < base || pageSize == 0 then 0 else (addr - base) / pageSize
    }

    ghost function IndexOf(ptr: nat): nat
      requires base <= ptr && pageSize > 0
    {
      (ptr - base) / pageSize
    }

    /** `ptr` is the address of a live block. */
    ghost predicate IsLive(ptr: nat)
      reads this
    {
      base <= ptr && pageSize > 0 && IndexOf(ptr) in live && ptr == AddrOf(IndexOf(ptr))
    }

    method Free(ptr: nat)
      requires Valid() && IsLive(ptr)
      modifies this, pages, mem
      ensures Valid()
      ensures live == old(live) - {IndexOf(ptr)}
      ensures lists == FreeLists(old(lists), IndexOf(ptr), old(live)[IndexOf(ptr)].order)
    {
      hide Rep, InHand, Maximal, FreeRun, Pow2, Pages, FreePages, Waste, Geometry, And, Words.Buddy;
      PtrIsAligned(base, pageSize, pageCount, ptr);
      assert ptr % pageSize == 0;
      LiveRecord(Snap(), pageSize, live, FreeSet(), IndexOf(ptr));
      var index := (ptr - base) / pageSize % SIZE_MAX;
      assert index < pageCount;
      var order := pages[index].order;
      assert And(index, Pow2(order) - 1) == 0;
      assert pages[index].inUse;

      CountersAfterFree(pageCount, live, index);
      freePageCount := freePageCount + Pow2(order);
      wastePageCount := wastePageCount - (Pow2(order) - pages[index].curPageCount);
      assert freePageCount <= pageCount;

      ForgetLive(Snap(), live, FreeSet(), index);
      ghost var free := FreeSet();
      live := live - {index};
      index, order, free := Merge(index, order, free);
      PutOnList(index, order, free);
    }

    /** Lines 138 to 153: as long as the buddy of the block in hand is a free block of the same order,
        take it off its list and go on with both. */
    method Merge(index0: nat, order0: nat, ghost free0: set<nat>) returns (index: nat, order: nat, ghost free: set<nat>)
      requires pages.Length == pageCount && |lists| == maxOrder + 1 && order0 <= maxOrder
      requires Rep(Snap(), live, free0) && InHand(pageCount, live, free0, index0, order0)
      requires free0 + Pages(index0, order0) == FreeSet()
      modifies this`lists, mem
      ensures |lists| == maxOrder + 1 && order <= maxOrder
      ensures Rep(Snap(), live, free) && InHand(pageCount, live, free, index, order)
      ensures free + Pages(index, order) == FreeSet()
      ensures !Maximal(free, Words.Buddy(index, order), order)
      ensures FreeLists(old(lists), index0, order0) == lists[order := [index] + lists[order]]
    {
      hide Rep, InHand, Maximal, FreePages, Xor, AndNot, Words.Buddy, Down, Pow2, Pages;
      index, order, free := index0, order0, free0;
      while order < maxOrder
        invariant order <= maxOrder && |lists| == maxOrder + 1
        invariant Rep(Snap(), live, free) && InHand(pageCount, live, free, index, order)
        invariant free + Pages(index, order) == FreeSet()
        invariant FreeLists(lists, index, order) == FreeLists(old(lists), index0, order0)
      {
        var buddyIndex := GetBuddy(index, order);
        XorIsBuddy(index, order);
        BuddyRecord(Snap(), live, free, index, order);
        ListedIs(Snap(), live, free, buddyIndex, order);
        if buddyIndex >= pageCount { return; }
        if pages[buddyIndex].inUse { return; }
        if pages[buddyIndex].order != order { return; }
        TakeOffList(buddyIndex, order, free);
        HandBoth(pageCount, live, free, index, order);
        free := free - Pages(buddyIndex, order);
        index := GetLowIndex(index, order);
        order := order + 1;
      }
      TopHasNoBuddy(Snap(), live, free, index);
    }

    /** The size asked for, for every live block. */
    method GetSize(ptr: nat) returns (size: nat)
      requires Valid() && IsLive(ptr)
      ensures size == live[IndexOf(ptr)].bytes
    {
      hide Rep, FreePages, Waste, Geometry, LiveOk, And;
      LiveRecord(Snap(), pageSize, live, FreeSet(), IndexOf(ptr));
      var index := (ptr - base) / pageSize % SIZE_MAX;
      size := pages[index].byteSize;
    }

    method GetFreeBytes() returns (size: nat)
      requires Valid()
      ensures size == pageSize * |FreeSet()|
    {
      FreeBytesFit(pageCount, pageSize, live);
      size := (freePageCount * pageSize) % SIZE_MAX;
    }
  }

  /** `free` undoes `malloc`: the live blocks, the lists as sets and both counters are as before. */
  method FreeUndoesMalloc(b: BuddyPmalloc, size: nat) returns (addr: nat)
    requires b.Valid() && size < ADDR_MAX && PageCnt(size, b.pageSize) <= MAX_PAGES
    modifies b, b.pages, b.mem
    ensures b.Valid() && b.live == old(b.live)
    ensures |b.lists| == |old(b.lists)| && SameAsSets(b.lists, old(b.lists))
    ensures b.freePageCount == old(b.freePageCount) && b.wastePageCount == old(b.wastePageCount)
  {
    hide Rep, FreePages, PageCnt, Geometry, BestFit, OrderFrom, Maximal, FreeRun, Waste;
    ghost var z := b.Snap();
    addr := b.Malloc(size);
    if addr != NO_MEMORY {
      ghost var i := old(b.lists)[BestFit(old(b.lists), OrderFrom(PageCnt(size, b.pageSize), 0))][0];
      DivUnique(addr - b.base, b.pageSize, i, 0);
      b.Free(addr);
      assert b.live == old(b.live);
    }
    Canonical(b.Snap(), z, b.live);
  }

  // ---------------------------------------------------------------- what holds between any two calls

  lemma SameTop(n: nat, k: nat, m: nat)
    requires n < Pow2(k + 1) && n < Pow2(m + 1)
    requires (k > 0 ==> Pow2(k) <= n) && (m > 0 ==> Pow2(m) <= n)
    ensures k == m
  {
    if k < m { Pow2Grows(k + 1, m); assert false; }
    if m < k { Pow2Grows(m + 1, k); assert false; }
  }

  /** The free lists, as sets, and both counters depend on the live blocks alone: not on the order of the
      calls, nor on what else was allocated and freed on the way. */
  lemma SameLiveSameState(b: BuddyPmalloc, c: BuddyPmalloc)
    requires b.Valid() && c.Valid() && b.pageCount == c.pageCount && b.live == c.live
    ensures SameAsSets(b.lists, c.lists)
    ensures b.freePageCount == c.freePageCount && b.wastePageCount == c.wastePageCount
  {
    hide FreePages, Geometry, Lists, Rings, FreeRecs, LiveRecs, LiveOk, Waste, Pow2;
    SameTop(b.pageCount, b.maxOrder, c.maxOrder);
    Canonical(b.Snap(), c.Snap(), b.live);
  }

  /** Conservation: the pages of the listed blocks are counted by the one counter, the unused pages at
      the ends of the live blocks by the other; free and live pages are all pages. */
  lemma Conservation(b: BuddyPmalloc)
    requires b.Valid()
    ensures b.freePageCount == ListPages(b.lists, |b.lists|)
    ensures b.freePageCount + LivePages(b.live, b.pageCount) == b.pageCount
    ensures b.wastePageCount == Waste(b.live, b.pageCount)
    ensures b.freePageCount + b.wastePageCount <= b.pageCount
  {
    hide FreePages, Geometry, Lists, Rings, FreeRecs, LiveRecs, LiveOk, Pow2, Waste, LivePages, ListPages;
    ListsCountFreePages(b.lists, b.FreeSet(), b.pageCount);
    PagesConserved(b.pageCount, b.live);
    WasteInLive(b.live, b.pageCount);
  }

  lemma {:induction false} WasteInLive(live: LiveMap, n: nat)
    ensures Waste(live, n) <= LivePages(live, n)
  {
    if n > 0 { WasteInLive(live, n - 1); }
  }

  /** Of two live addresses the block at the lower one ends before the other begins, inside the zone. */
  lemma NoDoubleAllocation(b: BuddyPmalloc, p: nat, q: nat)
    requires b.Valid() && b.IsLive(p) && b.IsLive(q) && p < q
    ensures p + b.pageSize * Pow2(b.live[b.IndexOf(p)].order) <= q
    ensures q + b.pageSize * Pow2(b.live[b.IndexOf(q)].order) <= b.base + b.pageSize * b.pageCount
  {
    hide FreePages, Geometry, Lists, Rings, FreeRecs, LiveRecs, Pow2, Waste;
    var i, j := b.IndexOf(p), b.IndexOf(q);
    MulMonotone(b.pageSize, j, i);
    LiveBlocksApart(b.pageCount, b.live, i, j);
    ScaledSum(b.pageSize, i, Pow2(b.live[i].order), j);
    ScaledSum(b.pageSize, j, Pow2(b.live[j].order), b.pageCount);
  }

  lemma ScaledSum(d: nat, x: nat, y: nat, z: nat)
    requires x + y <= z
    ensures d * x + d * y <= d * z
  {
    MulMonotone(d, x + y, z);
  }

  /** With everything freed the lists are the binary expansion of the number of pages. */
  lemma EverythingFreed(b: BuddyPmalloc, k: nat)
    requires b.Valid() && b.live == map[] && k <= b.maxOrder
    ensures b.lists[k] == if Shr(b.pageCount, k) % 2 == 1 then [Down(b.pageCount, k + 1)] else []
    ensures b.freePageCount == b.pageCount && b.wastePageCount == 0
  {
    hide FreePages, Geometry, Lists, Rings, FreeRecs, LiveRecs, LiveOk, Pow2, Waste;
    AllFreed(b.Snap(), k);
    Conservation(b);
    LivePagesNone(b.live, b.pageCount);
  }

  // ---------------------------------------------------------------- where the alignment is not kept

  /** The live blocks of a zone built with all pages live, when those from `lo` up to `hi` are freed. */
  ghost function AllLiveBut(n: nat, lo: nat, hi: nat): LiveMap {
    map i | i in Span(0, n) && !(lo <= i < hi) :: Live(0, 1, 0)
  }

  lemma FreeOneMore(n: nat, lo: nat, hi: nat)
    requires lo <= hi < n
    ensures hi in AllLiveBut(n, lo, hi) && AllLiveBut(n, lo, hi + 1) == AllLiveBut(n, lo, hi) - {hi}
  {
  }

  lemma FreeOnlyThese(n: nat, t: nat)
    requires 2 * Pow2(t) <= n
    ensures FreePages(n, AllLiveBut(n, Pow2(t), 2 * Pow2(t))) == Pages(Pow2(t), t)
    ensures HasRun(Pages(Pow2(t), t), t)
  {
    hide Down, Pow2, Owned, AllLiveBut;
    var live := AllLiveBut(n, Pow2(t), 2 * Pow2(t));
    forall p: nat ensures Owned(live, p) <==> p < n && p !in Pages(Pow2(t), t) { OwnedIsLive(n, Pow2(t), 2 * Pow2(t), p); }
    DownOfPow2(t);
    FreeRunIsSubset(Pages(Pow2(t), t), Pow2(t), t);
  }

  lemma OwnedIsLive(n: nat, lo: nat, hi: nat, p: nat)
    ensures Owned(AllLiveBut(n, lo, hi), p) <==> p < n && !(lo <= p < hi)
  {
    hide Owns;
    var live := AllLiveBut(n, lo, hi);
    if p in live { OwnsItself(live, p); }
    if h :| Owns(live, h, p) { OwnerIsLive(live, h, p); SingleOwner(live, h, p); }
  }

  lemma OwnerIsLive(live: LiveMap, h: nat, p: nat)
    requires Owns(live, h, p)
    ensures h in live
  {
  }

  lemma OwnsItself(live: LiveMap, p: nat)
    requires p in live && live[p].order == 0
    ensures Owns(live, p, p)
  {
  }

  lemma SingleOwner(live: LiveMap, h: nat, p: nat)
    requires Owns(live, h, p) && live[h].order == 0
    ensures h == p
  {
  }

  lemma RunIsThis(i: nat, t: nat)
    requires FreeRun(Pages(Pow2(t), t), i, t)
    ensures i == Pow2(t)
  {
    hide Pow2;
    DownOfPow2(t);
    FreeRunIsSubset(Pages(Pow2(t), t), i, t);
    hide Down;
    InPages(i, t, i);
    InPages(Pow2(t), t, i);
  }

  /** Frees the second block of order `t`, page by page, of a zone just built. */
  method FreeSecondBlock(b: BuddyPmalloc, t: nat)
    requires b.Valid() && b.live == AllLive(b.pageCount) && 2 * Pow2(t) <= b.pageCount
    modifies b, b.pages, b.mem
    ensures b.Valid() && b.live == AllLiveBut(b.pageCount, Pow2(t), 2 * Pow2(t))
  {
    hide BuddyPmalloc.Valid, AllLive, AllLiveBut, Pow2;
    var lo := Pow2(t);
    NothingBut(b.pageCount, lo);
    SizeIsPositive(b);
    for i := lo to 2 * lo
      invariant b.Valid() && b.live == AllLiveBut(b.pageCount, lo, i)
    {
      FreeOneMore(b.pageCount, lo, i);
      MulMonotone(b.pageSize, 0, i);
      DivUnique(b.pageSize * i, b.pageSize, i, 0);
      b.Free(b.base + b.pageSize * i);
    }
  }

  lemma SizeIsPositive(b: BuddyPmalloc)
    requires b.Valid()
    ensures b.pageSize > 0
  {
    hide Rep, FreePages, Waste;
  }

  /** Whenever AlignmentKept does not hold there is a run of the allocator whose last request is answered
      with a misaligned address: the condition is exact. The run frees the second block of the order and
      asks for it. */
  method MisalignedRun(base: nat, pageSize: nat, pageCount: nat, size: nat, align: nat) returns (addr: nat)
    requires Geometry(base, pageSize, pageCount) && size < ADDR_MAX && align < ADDR_MAX
    requires PageCnt(Max(size, align), pageSize) <= MAX_PAGES
    requires IsPowOf2(align) && And(base, align - 1) == 0 && !AlignmentKept(pageCount, pageSize, Max(size, align), align)
    ensures addr != NO_MEMORY && addr % align != 0
  {
    var t := OrderFrom(PageCnt(Max(size, align), pageSize), 0);
    BaseAligned(base, align);
    SecondBlockMisaligned(base, pageSize, align, t);
    FreeOnlyThese(pageCount, t);
    hide BuddyPmalloc.Valid, FreePages, PageCnt, Geometry, IsPowOf2, And, OrderFrom, BestFit, AllLiveBut, HasRun, Pages, FreeRun, Maximal, Pow2;
    var b := new BuddyPmalloc(base, pageSize, pageCount);
    FreeSecondBlock(b, t);
    ghost var lists, live := b.lists, b.live;
    var panicked;
    panicked, addr := b.AlignedMalloc(size, align);
    SecondBlockGiven(pageCount, base, pageSize, live, lists, Max(size, align), addr, b.live);
  }

  lemma SecondBlockGiven(n: nat, base: nat, pageSize: nat, live: LiveMap, lists: seq<seq<int>>, size: nat, addr: nat, live': LiveMap)
    requires MallocSpec(n, base, pageSize, live, lists, size, addr, live')
    requires var t := OrderFrom(PageCnt(size, pageSize), 0);
             2 * Pow2(t) <= n && live == AllLiveBut(n, Pow2(t), 2 * Pow2(t))
    ensures addr != NO_MEMORY && addr == base + pageSize * Pow2(OrderFrom(PageCnt(size, pageSize), 0))
  {
    var t := OrderFrom(PageCnt(size, pageSize), 0);
    FreeOnlyThese(n, t);
    hide FreePages, PageCnt, OrderFrom, AllLiveBut, HasRun, Pages, FreeRun, Maximal, Pow2;
    RunIsThis(lists[BestFit(lists, t)][0], t);
  }

  lemma NothingBut(n: nat, lo: nat)
    ensures AllLiveBut(n, lo, lo) == AllLive(n)
  {
  }

  /** 2^44 bytes, aligned to their size, from a zone of two pages: the second page, at 4096. */
  method CutRequestRun() returns (addr: nat)
    ensures addr != NO_MEMORY && addr % 0x1000_0000_0000 != 0
  {
    CutRequestLosesAlignment(2);
    PowerOf44();
    hide AlignmentKept, PageCnt, IsPowOf2, And;
    addr := MisalignedRun(0, 4096, 2, 0x1000_0000_0000, 0x1000_0000_0000);
  }

  lemma PowerOf44()
    ensures IsPowOf2(0x1000_0000_0000) && IsPowOf2(4096) && And(0, 0x1000_0000_0000 - 1) == 0
  {
    hide IsPowOf2, And;
    SmallPowers();
    hide Pow2;
    Pow2Add(11, 11);
    Pow2Add(22, 22);
    IsPowOf2Complete(44);
    IsPowOf2Complete(12);
    AndOfZero(0x1000_0000_0000 - 1);
  }

  lemma SmallPowers()
    ensures Pow2(10) == 1024 && Pow2(11) == 2048 && Pow2(12) == 4096
  {
  }

  lemma AndOfZero(x: nat)
    ensures And(0, x) == 0
  {
  }
}
