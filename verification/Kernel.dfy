/** The memory of the kernel from boot on: vmm_bootstrap as a whole, and what it means for every object
    the kernel allocates afterwards. */
module Kernel {
  import opened Words
  import opened Blocks
  import opened BuddySpec
  import opened BuddyTheorems
  import opened Buddy
  import opened Pvbridge
  import opened Bootstrap
  import opened Handover
  import opened SlubSpec
  import opened Slub

  /** Of the pages that boot did not free none was freed since. */
  ghost predicate Withheld(live: LiveMap, base: nat, n: nat, freed: set<nat>) {
    forall i | i in Remaining(base, n, freed) :: i in live && live[i] == Live(0, 1, 0)
  }

  /** The states after boot: whatever the slub allocator and other users of the pages hold, the pages
      that boot did not free are out of reach of both. */
  ghost predicate AfterBoot(v: SlubVmalloc, freed: set<nat>)
    reads v, v.mem, v.pvbridge, v.pvbridge.palloc, v.pvbridge.palloc.pages, v.pvbridge.palloc.mem
  {
    v.Valid() && Withheld(v.Foreign(), v.pvbridge.palloc.base, v.pvbridge.palloc.pageCount, freed)
  }

  /** The global bridge and the global object allocator, over the normal zone. */
  method InstallVmalloc(zs: seq<PmmZone>, ghost normalTop: nat, ghost top: nat, ghost freed: set<nat>) returns (v: SlubVmalloc)
    requires ZonesState(zs, freed) && Tiled(zs, normalTop, top) && normalTop <= KTOP - KOFFSET
    ensures ZonesState(zs, freed) && AfterBoot(v, freed) && v.pvbridge.palloc == zs[1].allocator
    ensures v.small == map[] && v.large == map[] && fresh(v) && fresh(v.mem) && fresh(v.pvbridge)
  {
    hide BuddyPmalloc.Valid, Inv, Backed, Remaining, Others, Withheld, Window;
    assert ZoneState(zs[1], freed);
    NormalInWindow(zs[1], normalTop);
    var bridge := new KoffsetPvbridge(zs[1].allocator);
    v := new SlubVmalloc(bridge);
    WithheldAtFirst(v.pvbridge.palloc.base, v.pvbridge.palloc.pageCount, freed);
  }

  lemma NormalInWindow(z: PmmZone, normalTop: nat)
    requires ZoneOk(z) && z.base + z.size == normalTop <= KTOP - KOFFSET
    ensures Window(z.allocator.base, z.allocator.pageCount)
  {
  }

  lemma WithheldAtFirst(base: nat, n: nat, freed: set<nat>)
    ensures Withheld(Others(Remaining(base, n, freed), base, map[], map[]), base, n, freed)
  {
  }

  /** `kmalloc`. No call of this and the following methods leaves the states after boot, so the lemmas
      below hold after any sequence of calls, in any order. */
  method AllocAdapter(v: SlubVmalloc, size: nat, ghost freed: set<nat>) returns (ptr: nat)
    requires AfterBoot(v, freed) && size < SIZE_MAX
    modifies v, v.mem, v.pvbridge.palloc, v.pvbridge.palloc.pages, v.pvbridge.palloc.mem
    ensures AfterBoot(v, freed)
    ensures forall l: nat | SmallLevel(size, l) :: ptr == NULL <==> !HasSlot(old(v.Slab()), l) && old(v.pvbridge.palloc.FreeSet()) == {}
    ensures size > 1024 ==> forall o: nat | LeastBlock(PAGE, if size < BLOCK then BLOCK else size, o) ::
                              ptr == NULL <==> !HasRun(old(v.pvbridge.palloc.FreeSet()), o)
    ensures ptr != NULL ==> !Object(old(v.Slab()), old(v.large), ptr) && Object(v.Slab(), v.large, ptr)
                            && SizeOf(v.Slab(), v.large, ptr) == size
    ensures forall p :: p != ptr || ptr == NULL ==> (Object(v.Slab(), v.large, p) <==> Object(old(v.Slab()), old(v.large), p))
    ensures forall p | Object(old(v.Slab()), old(v.large), p) ::
              Object(v.Slab(), v.large, p) && SizeOf(v.Slab(), v.large, p) == SizeOf(old(v.Slab()), old(v.large), p)
  {
    hide Inv, Backed, Others, Remaining, KoffsetPvbridge.Valid, HasRun, HasSlot, OrderFrom, PageCnt, LeastBlock, GivenOut, FirstSlot,
      SmallLevel, FreePages, OnPage, PageIndex;
    AnyPageIsRun(v.pvbridge.palloc.FreeSet());
    forall l: nat | SmallLevel(size, l) ensures l == OrderFrom(size, MIN_LEVEL) && size <= 1024 { SmallLevelIs(size, l); }
    ptr := v.Malloc(size);
    if size <= 1024 && ptr != NULL { SmallIsNotLarge(v, ptr); }
  }

  /** The least slot size for `size` bytes is 2^l. */
  ghost predicate SmallLevel(size: nat, l: nat) {
    4 <= l <= 10 && size <= Pow2(l) && (l > 4 ==> Pow2(l - 1) < size)
  }

  lemma SmallLevelIs(size: nat, l: nat)
    requires SmallLevel(size, l)
    ensures l == OrderFrom(size, MIN_LEVEL) && size <= 1024
  {
    Constants();
    Pow2Grows(l, 10);
    hide Pow2;
    var o := OrderFrom(size, MIN_LEVEL);
    OrderFits(size, MIN_LEVEL);
    if o < l { Pow2Grows(o, l - 1); assert false; }
    if l < o { Pow2Grows(l, o - 1); assert false; }
  }

  lemma SmallLevelOf(size: nat) returns (l: nat)
    requires size <= 1024
    ensures SmallLevel(size, l)
  {
    l := OrderFrom(size, MIN_LEVEL);
    LevelOf(size);
    OrderFits(size, MIN_LEVEL);
  }

  lemma SmallIsNotLarge(v: SlubVmalloc, p: int)
    requires v.Valid() && p in v.small
    ensures p !in v.large
  {
    SmallNotLarge(v.Slab(), ProperPlace(v.Slab()), v.pvbridge.palloc.live, v.pvbridge.palloc.base, v.large, p);
  }

  /** `kfree`. */
  method FreeAdapter(v: SlubVmalloc, obj: nat, ghost freed: set<nat>)
    requires AfterBoot(v, freed) && (obj == NULL || Object(v.Slab(), v.large, obj)) && obj < SIZE_MAX
    modifies v, v.mem, v.pvbridge.palloc, v.pvbridge.palloc.pages, v.pvbridge.palloc.mem
    ensures AfterBoot(v, freed)
    ensures forall p :: Object(v.Slab(), v.large, p) <==> Object(old(v.Slab()), old(v.large), p) && p != obj
    ensures forall p | Object(v.Slab(), v.large, p) :: SizeOf(v.Slab(), v.large, p) == SizeOf(old(v.Slab()), old(v.large), p)
  {
    hide Inv, Backed, Others, Remaining, KoffsetPvbridge.Valid;
    v.Free(obj);
  }

  // ---------------------------------------------------------------- other users of the pages

  lemma ForeignAdded(live: LiveMap, live': LiveMap, base: nat, level: map<int, nat>, large: map<int, nat>, i: nat)
    requires Backed(live, base, level, large) && i !in live && i in live' && live' == live[i := live'[i]]
    ensures Backed(live', base, level, large)
    ensures Others(live', base, level, large) == Others(live, base, level, large)[i := live'[i]]
  {
    hide OnPage, PageIndex, Pow2;
  }

  lemma ForeignRemoved(live: LiveMap, base: nat, level: map<int, nat>, large: map<int, nat>, i: nat)
    requires Backed(live, base, level, large) && i in Others(live, base, level, large)
    ensures i in live && Backed(live - {i}, base, level, large)
    ensures Others(live - {i}, base, level, large) == Others(live, base, level, large) - {i}
  {
    assert forall b :: b in level || b in large ==> PageIndex(base, b) in Held(base, level, large) by {
      forall b | b in level || b in large ensures PageIndex(base, b) in Held(base, level, large) { HeldIs(base, level, large, b); }
    }
    hide OnPage, PageIndex, Pow2;
  }

  /** `malloc` of the bridge, called by others: cpu_init_structure. All objects stay, and the pages given
      out are new to everybody. */
  method BridgeMalloc(v: SlubVmalloc, size: nat, ghost freed: set<nat>) returns (ptr: nat)
    requires AfterBoot(v, freed) && size < ADDR_MAX && PageCnt(size, PAGE) <= MAX_PAGES
    modifies v.pvbridge.palloc, v.pvbridge.palloc.pages, v.pvbridge.palloc.mem
    ensures AfterBoot(v, freed) && v.Slab() == old(v.Slab()) && v.large == old(v.large)
    ensures ptr == NULL ==> v.Foreign() == old(v.Foreign())
    ensures ptr != NULL ==>
              var i := PageIndex(v.pvbridge.palloc.base, ptr);
              && OnPage(v.pvbridge.palloc.base, ptr) && i !in old(v.pvbridge.palloc.live) && GivenAfterBoot(v, freed, i)
              && v.Foreign() == old(v.Foreign())[i := v.Foreign()[i]]
    ensures ptr == NULL <==> !HasRun(old(v.pvbridge.palloc.FreeSet()), OrderFrom(PageCnt(size, PAGE), 0))
  {
    hide Inv, Backed, Others, Remaining, MallocSpec, Geometry, FreePages, Rep, PageCnt, OrderFrom, HasRun, OnPage, PageIndex;
    ghost var b := v.pvbridge.palloc;
    ghost var live, lists := b.live, b.lists;
    ptr := v.pvbridge.Malloc(size);
    WhenNull(b.pageCount, b.base, live, lists, size, ptr, b.live);
    if ptr != NULL {
      NewPage(b.pageCount, b.base, live, lists, size, ptr, b.live);
      WithheldIsLive(live, b.base, b.pageCount, v.level, v.large, freed);
      ForeignAdded(live, b.live, b.base, v.level, v.large, PageIndex(b.base, ptr));
    }
  }

  lemma NewPage(n: nat, base: nat, live: LiveMap, lists: seq<seq<int>>, size: nat, ptr: nat, live': LiveMap)
    requires MallocSpec(n, base, PAGE, live, lists, size, PaOf(ptr), live') && ptr != NULL && KOFFSET <= ptr < SIZE_MAX
    ensures var i := PageIndex(base, ptr); OnPage(base, ptr) && i !in live && i in live' && live' == live[i := live'[i]]
  {
    hide PageCnt, OrderFrom, BestFit, FreePages, FreeRun, Maximal, HasRun;
    PageAddress(base, lists[BestFit(lists, OrderFrom(PageCnt(size, PAGE), 0))][0]);
  }

  /** `free` of the bridge, called by others with what they got from its `malloc`. */
  method BridgeFree(v: SlubVmalloc, ptr: nat, ghost freed: set<nat>)
    requires AfterBoot(v, freed) && ptr < SIZE_MAX
    requires ptr != NULL ==> OnPage(v.pvbridge.palloc.base, ptr) && GivenAfterBoot(v, freed, PageIndex(v.pvbridge.palloc.base, ptr))
    modifies v.pvbridge.palloc, v.pvbridge.palloc.pages, v.pvbridge.palloc.mem
    ensures AfterBoot(v, freed) && v.Slab() == old(v.Slab()) && v.large == old(v.large)
    ensures v.Foreign() == if ptr == NULL then old(v.Foreign()) else old(v.Foreign()) - {PageIndex(v.pvbridge.palloc.base, ptr)}
  {
    hide Inv, Backed, Others, Remaining, Geometry, FreePages, Rep;
    ghost var b := v.pvbridge.palloc;
    if ptr != NULL {
      ForeignRemoved(b.live, b.base, v.level, v.large, PageIndex(b.base, ptr));
    }
    v.pvbridge.Free(ptr);
  }

  /** A live block of another user that is no page withheld at boot. */
  ghost predicate GivenAfterBoot(v: SlubVmalloc, freed: set<nat>, i: nat)
    reads v, v.pvbridge, v.pvbridge.palloc
  {
    i in v.Foreign() && i !in Remaining(v.pvbridge.palloc.base, v.pvbridge.palloc.pageCount, freed)
  }

  /** `alloc_pages`, over the normal zone: a physical address, or an error. */
  method PmmAllocAdapter(v: SlubVmalloc, size: nat, ghost freed: set<nat>) returns (ok: bool, pa: nat)
    requires AfterBoot(v, freed) && size < ADDR_MAX && PageCnt(size, PAGE) <= MAX_PAGES
    modifies v.pvbridge.palloc, v.pvbridge.palloc.pages, v.pvbridge.palloc.mem
    ensures AfterBoot(v, freed) && v.Slab() == old(v.Slab()) && v.large == old(v.large)
    ensures !ok ==> v.Foreign() == old(v.Foreign())
    ensures ok ==>
              var b := v.pvbridge.palloc;
              && b.IsLive(pa) && b.IndexOf(pa) !in old(b.live) && GivenAfterBoot(v, freed, b.IndexOf(pa))
              && v.Foreign()[b.IndexOf(pa)].bytes == size
              && v.Foreign() == old(v.Foreign())[b.IndexOf(pa) := v.Foreign()[b.IndexOf(pa)]]
    ensures ok <==> HasRun(old(v.pvbridge.palloc.FreeSet()), OrderFrom(PageCnt(size, PAGE), 0))
  {
    hide Inv, Backed, Others, Remaining, MallocSpec, Geometry, FreePages, Rep, PageCnt, OrderFrom, HasRun, OnPage, PageIndex;
    ghost var b := v.pvbridge.palloc;
    ghost var live, lists := b.live, b.lists;
    pa := v.pvbridge.palloc.Malloc(size);
    ok := pa != NO_MEMORY;
    GivenBlock(b.pageCount, b.base, live, lists, size, pa, b.live);
    if ok {
      ForeignAdded(live, b.live, b.base, v.level, v.large, b.IndexOf(pa));
      WithheldIsLive(live, b.base, b.pageCount, v.level, v.large, freed);
    }
  }

  lemma GivenBlock(n: nat, base: nat, live: LiveMap, lists: seq<seq<int>>, size: nat, pa: nat, live': LiveMap)
    requires MallocSpec(n, base, PAGE, live, lists, size, pa, live')
    ensures pa != NO_MEMORY <==> HasRun(FreePages(n, live), OrderFrom(PageCnt(size, PAGE), 0))
    ensures pa == NO_MEMORY ==> live' == live
    ensures pa != NO_MEMORY ==>
              base <= pa && var i := (pa - base) / PAGE;
              pa == base + PAGE * i && i !in live && i in live' && live' == live[i := live'[i]] && live'[i].bytes == size
  {
    hide PageCnt, OrderFrom, BestFit, FreePages, FreeRun, Maximal, HasRun;
    if pa != NO_MEMORY { DivUnique(pa - base, PAGE, lists[BestFit(lists, OrderFrom(PageCnt(size, PAGE), 0))][0], 0); }
  }

  lemma WithheldIsLive(live: LiveMap, base: nat, n: nat, level: map<int, nat>, large: map<int, nat>, freed: set<nat>)
    requires Withheld(Others(live, base, level, large), base, n, freed)
    ensures forall i | i in Remaining(base, n, freed) :: i in live
  {
    hide Remaining;
  }

  /** `free_pages`: panics when the size is not the one asked for. */
  method PmmFreeAdapter(v: SlubVmalloc, pa: nat, size: nat, ghost freed: set<nat>) returns (panicked: bool)
    requires AfterBoot(v, freed) && v.pvbridge.palloc.IsLive(pa) && GivenAfterBoot(v, freed, v.pvbridge.palloc.IndexOf(pa))
    modifies v.pvbridge.palloc, v.pvbridge.palloc.pages, v.pvbridge.palloc.mem
    ensures AfterBoot(v, freed) && v.Slab() == old(v.Slab()) && v.large == old(v.large)
    ensures panicked <==> size != old(v.Foreign())[v.pvbridge.palloc.IndexOf(pa)].bytes
    ensures v.Foreign() == if panicked then old(v.Foreign()) else old(v.Foreign()) - {v.pvbridge.palloc.IndexOf(pa)}
  {
    hide Inv, Backed, Others, Remaining, Geometry, FreePages, Rep;
    ghost var b := v.pvbridge.palloc;
    ForeignIs(b.live, b.base, v.level, v.large, b.IndexOf(pa));
    var curSize := v.pvbridge.palloc.GetSize(pa);
    if curSize != size {
      return true;
    }
    panicked := false;
    ForeignRemoved(b.live, b.base, v.level, v.large, b.IndexOf(pa));
    v.pvbridge.palloc.Free(pa);
  }

  // ---------------------------------------------------------------- where objects lie

  /** The page of a byte of a block of order `o` whose address is `b`. */
  lemma PageOfByte(base: nat, b: int, o: nat, x: int) returns (j: nat)
    requires base % PAGE == 0 && OnPage(base, b) && b <= x < b + PAGE * Pow2(o)
    ensures KOFFSET <= x && RoundDownPage(x - KOFFSET) == base + PAGE * j
    ensures PageIndex(base, b) <= j < PageIndex(base, b) + Pow2(o)
  {
    hide Pow2;
    var i := PageIndex(base, b);
    hide PageIndex;
    var d := x - KOFFSET - base;
    j := d / PAGE;
    DivUnique(x - KOFFSET, PAGE, base / PAGE + j, d % PAGE);
    PageBetween(i, j, d, Pow2(o));
  }

  lemma PageBetween(i: nat, j: nat, d: nat, n: nat)
    requires PAGE * i <= d < PAGE * i + PAGE * n && j == d / PAGE
    ensures i <= j < i + n
  {
  }

  /** A page of a live block that was not withheld at boot was freed at boot. */
  lemma PageWasFreed(n: nat, base: nat, live: LiveMap, freed: set<nat>, i: nat, j: nat)
    requires LiveOk(n, live) && Withheld(live, base, n, freed) && i in live && i !in Remaining(base, n, freed)
    requires i <= j < i + Pow2(live[i].order)
    ensures base + PAGE * j in freed
  {
    hide Pow2, Down;
    DownOfOffset(i, live[i].order, j);
    assert Owns(live, i, j);
    if base + PAGE * j !in freed {
      WithheldOwnsItself(n, base, live, freed, j);
      assert false;
    }
  }

  lemma WithheldOwnsItself(n: nat, base: nat, live: LiveMap, freed: set<nat>, j: nat)
    requires Withheld(live, base, n, freed) && j < n && base + PAGE * j !in freed
    ensures Owns(live, j, j) && j in Remaining(base, n, freed)
  {
    assert j in Remaining(base, n, freed);
    assert Down(j, 0) == j;
  }

  /** What the slub allocator holds was not withheld at boot. */
  lemma HeldNotWithheld(n: nat, base: nat, live: LiveMap, level: map<int, nat>, large: map<int, nat>, freed: set<nat>)
    requires Withheld(Others(live, base, level, large), base, n, freed)
    ensures Withheld(live, base, n, freed)
    ensures forall i | i in Held(base, level, large) :: i !in Remaining(base, n, freed)
  {
    hide Remaining, Held;
  }

  lemma GivenPageWasFreed(n: nat, base: nat, live: LiveMap, level: map<int, nat>, large: map<int, nat>, freed: set<nat>, i: nat, j: nat)
    requires LiveOk(n, live) && Withheld(Others(live, base, level, large), base, n, freed)
    requires i in Others(live, base, level, large) && i !in Remaining(base, n, freed)
    requires i <= j < i + Pow2(Others(live, base, level, large)[i].order)
    ensures base + PAGE * j in freed
  {
    hide LiveOk, Withheld, Remaining, Others, Held, Pow2;
    ForeignIs(live, base, level, large, i);
    HeldNotWithheld(n, base, live, level, large, freed);
    PageWasFreed(n, base, live, freed, i, j);
  }

  /** A byte of a block or a large object lies on a page that was freed at boot. */
  lemma ByteWasFreed(n: nat, base: nat, live: LiveMap, level: map<int, nat>, large: map<int, nat>, freed: set<nat>, b: int, x: int)
    requires LiveOk(n, live) && base % PAGE == 0 && Backed(live, base, level, large)
    requires Withheld(Others(live, base, level, large), base, n, freed)
    requires (b in level && b <= x < b + BLOCK) || (b in large && b <= x < b + large[b])
    ensures KOFFSET <= x && RoundDownPage(x - KOFFSET) in freed
  {
    hide Withheld, Remaining, Others, PageIndex, OnPage, Held, Pow2, Down, RoundDownPage, LiveOk, Backed;
    var i := PageIndex(base, b);
    HeldIs(base, level, large, b);
    HeldNotWithheld(n, base, live, level, large, freed);
    ByteInLive(live, base, level, large, b, x);
    var j := PageOfByte(base, b, live[i].order, x);
    PageWasFreed(n, base, live, freed, i, j);
  }

  lemma ByteInLive(live: LiveMap, base: nat, level: map<int, nat>, large: map<int, nat>, b: int, x: int)
    requires Backed(live, base, level, large)
    requires (b in level && b <= x < b + BLOCK) || (b in large && b <= x < b + large[b])
    ensures OnPage(base, b) && PageIndex(base, b) in live && b <= x < b + PAGE * Pow2(live[PageIndex(base, b)].order)
  {
    hide OnPage, PageIndex;
    assert Pow2(0) == 1;
  }

  /** What boot freed: the usable pages of the machine memory map outside [kstart, kend). */
  ghost predicate FreedAtBoot(map_: seq<Region>, kstart: nat, kend: nat, freed: set<nat>) {
    forall y: nat :: y in freed <==> UsablePage(map_, y) && !(kstart <= y < kend)
  }

  /** In every state after boot, every byte of every live object lies on a usable page of the machine
      memory map outside the range the kernel keeps for itself. */
  lemma ObjectsInUsableMemory(v: SlubVmalloc, map_: seq<Region>, kstart: nat, kend: nat, freed: set<nat>, p: int, x: int)
    requires AfterBoot(v, freed) && Object(v.Slab(), v.large, p) && p <= x < p + SizeOf(v.Slab(), v.large, p)
    requires FreedAtBoot(map_, kstart, kend, freed)
    ensures KOFFSET <= x
    ensures var page := RoundDownPage(x - KOFFSET); UsablePage(map_, page) && !(kstart <= page < kend)
  {
    hide SlubVmalloc.Valid, Inv, LiveOk, Core, Backed, Withheld, Others, UsablePage, RoundDownPage, Down;
    ValidParts(v);
    var b := v.pvbridge.palloc;
    if p in v.large {
      ByteWasFreed(b.pageCount, b.base, b.live, v.level, v.large, freed, p, x);
    } else {
      SmallObjectInBlock(v.Slab(), ProperPlace(v.Slab()), p);
      ByteWasFreed(b.pageCount, b.base, b.live, v.level, v.large, freed, BlockOf(p), x);
    }
  }

  /** The same of every page of every block that others were given after boot. */
  lemma PagesInUsableMemory(v: SlubVmalloc, map_: seq<Region>, kstart: nat, kend: nat, freed: set<nat>, i: nat, j: nat)
    requires AfterBoot(v, freed) && FreedAtBoot(map_, kstart, kend, freed) && GivenAfterBoot(v, freed, i)
    requires i <= j < i + Pow2(v.Foreign()[i].order)
    ensures var page := v.pvbridge.palloc.base + PAGE * j; UsablePage(map_, page) && !(kstart <= page < kend)
  {
    hide SlubVmalloc.Valid, Inv, LiveOk, Core, Backed, Withheld, Remaining, Others, UsablePage, Pow2;
    ValidParts(v);
    var b := v.pvbridge.palloc;
    GivenPageWasFreed(b.pageCount, b.base, b.live, v.level, v.large, freed, i, j);
  }

  // ---------------------------------------------------------------- the whole of boot

  /** Every page is free in exactly one zone if it is usable and outside [kstart, kend), and in none
      otherwise. */
  ghost predicate FreeAsMapped(map_: seq<Region>, zs: seq<PmmZone>, kstart: nat, kend: nat)
    reads Footprint(zs)
  {
    forall p: nat | p % PAGE == 0 ::
      if UsablePage(map_, p) && !(kstart <= p < kend) then FreeInOneZone(zs, p) else FreeInNoZone(zs, p)
  }

  /** The pages that the object allocator can have: those of the normal zone that are usable and outside
      [kstart, kend). */
  ghost predicate NormalAsMapped(map_: seq<Region>, zs: seq<PmmZone>, kstart: nat, kend: nat)
    reads Footprint(zs)
  {
    |zs| == 3 && forall p: nat | p % PAGE == 0 ::
      FreeIn(zs, 1, p) <==> ZoneHas(zs[1], p) && UsablePage(map_, p) && !(kstart <= p < kend)
  }

  lemma NormalFree(map_: seq<Region>, zs: seq<PmmZone>, normalTop: nat, top: nat, kstart: nat, kend: nat, freed: set<nat>)
    requires ZonesState(zs, freed) && Tiled(zs, normalTop, top) && FreedAtBoot(map_, kstart, kend, freed)
    ensures NormalAsMapped(map_, zs, kstart, kend)
  {
    hide UsablePage, BuddyPmalloc.Valid, Remaining;
    forall p: nat | p % PAGE == 0
      ensures FreeIn(zs, 1, p) <==> ZoneHas(zs[1], p) && UsablePage(map_, p) && !(kstart <= p < kend)
    {
      if ZoneHas(zs[1], p) {
        assert ZoneState(zs[1], freed);
        var i := PageOfZone(zs[1].base, zs[1].allocator.pageCount, p);
        FreeAfterBoot(map_, zs, kstart, kend, freed, 1, i);
      }
    }
  }

  /** vmm_bootstrap: panics exactly when the memory of the page allocators does not fit behind the kernel.
      After it the zones tile memory, every page is free in exactly one zone or in none, as the machine
      memory map says, and the object allocator is in a state after boot. What the bump allocator gave
      out does not overlap, lies in [kstart, kend), and is memory the machine has if the size given is
      what copy_memory_map found. */
  method VmmBootstrap(map_: seq<Region>, kernStart: nat, kernEnd: nat, sizeAfterKernel: nat)
    returns (r: Outcome<Booted>, v: SlubVmalloc?, ghost given: seq<Allocation>, ghost freed: set<nat>)
    requires Bootable(map_, kernStart, kernEnd) && kernEnd < 0x7A00_0000 && sizeAfterKernel < SIZE_MAX
    ensures r.Done? <==> v != null
    ensures var top := ZonesEnd(KOFFSET + kernEnd, NormalTop(map_, kernStart, kernEnd), RoundDownPage(MaxEnd(map_, |map_|)));
            && KOFFSET + kernEnd <= top && (r.Done? <==> top <= (KOFFSET + kernEnd + sizeAfterKernel) % SIZE_MAX)
            && (r.Done? ==> r.value.kend == RoundUpPage(RoundUpPage(kernEnd) + (top - (KOFFSET + kernEnd))))
    ensures r.Done? ==> r.value.kstart % PAGE == 0 && r.value.kstart <= kernStart < r.value.kstart + PAGE
    ensures r.Done? ==> kernEnd <= r.value.kend < kernEnd + 3 * 548 + 24 * (RoundDownPage(MaxEnd(map_, |map_|)) / PAGE) + 8 * PAGE
    ensures r.Done? ==> ZonesState(r.value.zones, freed)
    ensures r.Done? ==> ZonesAsMapped(map_, kernStart, kernEnd, r.value.zones)
    ensures r.Done? ==> Tiled(r.value.zones, NormalTop(map_, kernStart, kernEnd), RoundDownPage(MaxEnd(map_, |map_|)))
    ensures r.Done? ==> AfterBoot(v, freed) && v.pvbridge.palloc == r.value.zones[1].allocator
    ensures r.Done? ==> v.small == map[] && v.large == map[] && fresh(v) && fresh(v.mem) && fresh(v.pvbridge)
    ensures r.Done? ==> fresh(v.pvbridge.palloc) && fresh(v.pvbridge.palloc.pages) && fresh(v.pvbridge.palloc.mem)
    ensures r.Done? ==> FreedAtBoot(map_, r.value.kstart, r.value.kend, freed)
    ensures r.Done? ==> FreeAsMapped(map_, r.value.zones, r.value.kstart, r.value.kend)
    ensures r.Done? ==> NormalAsMapped(map_, r.value.zones, r.value.kstart, r.value.kend)
    ensures r.Done? ==> |given| == 6 && forall a | a in given ::
              KOFFSET + kernEnd <= a.addr && a.addr + a.size <= KOFFSET + r.value.kend
    ensures r.Done? ==> forall i, j :: 0 <= i < j < |given| ==> Disjoint(given[i], given[j])
    ensures r.Done? && sizeAfterKernel == FreeAfterKernel(map_, kernStart, kernEnd) ==> forall a | a in given :: InUsable(map_, a)
  {
    hide ZonesState, UsablePage, RoundDownPage, RoundUpPage, AfterBoot, MaxEnd, ZonesEnd, GoodMap, NormalTop, FreeAfterKernel, Disjoint, FreeInOneZone, FreeInNoZone, InUsable;
    r, given, freed := HandOverMemory(map_, kernStart, kernEnd, sizeAfterKernel);
    v := null;
    if r.Done? {
      ghost var top := RoundDownPage(MaxEnd(map_, |map_|));
      ZoneTops(map_, kernStart, kernEnd, NormalTop(map_, kernStart, kernEnd), top);
      InFootprint(r.value.zones);
      ZonesPlaced(map_, kernStart, kernEnd, r.value.zones);
      KernelRange(map_, kernStart, kernEnd, r.value.kstart, r.value.kend);
      v := InstallVmalloc(r.value.zones, NormalTop(map_, kernStart, kernEnd), top, freed);
      forall p: nat | p % PAGE == 0
        ensures if UsablePage(map_, p) && !(r.value.kstart <= p < r.value.kend) then FreeInOneZone(r.value.zones, p)
                else FreeInNoZone(r.value.zones, p)
      {
        FreeExactly(map_, r.value.zones, NormalTop(map_, kernStart, kernEnd), r.value.kstart, r.value.kend, freed, p);
      }
      NormalFree(map_, r.value.zones, NormalTop(map_, kernStart, kernEnd), top, r.value.kstart, r.value.kend, freed);
      if sizeAfterKernel == FreeAfterKernel(map_, kernStart, kernEnd) {
        forall a | a in given ensures InUsable(map_, a) { BumpInUsable(map_, kernStart, kernEnd, a); }
      }
    }
  }

  lemma InFootprint(zs: seq<PmmZone>)
    requires |zs| == 3
    ensures {zs[1].allocator, zs[1].allocator.pages, zs[1].allocator.mem} <= Footprint(zs)
  {
    assert zs[1] in zs;
  }

  /** The range the kernel keeps, from the formulas for its ends. */
  lemma KernelRange(map_: seq<Region>, kernStart: nat, kernEnd: nat, kstart: nat, kend: nat)
    requires Bootable(map_, kernStart, kernEnd) && kstart == RoundDownPage(kernStart)
    requires var top := ZonesEnd(KOFFSET + kernEnd, NormalTop(map_, kernStart, kernEnd), RoundDownPage(MaxEnd(map_, |map_|)));
             KOFFSET + kernEnd <= top && kend == RoundUpPage(RoundUpPage(kernEnd) + (top - (KOFFSET + kernEnd)))
    ensures kstart % PAGE == 0 && kstart <= kernStart < kstart + PAGE
    ensures kend < kernEnd + 3 * 548 + 24 * (RoundDownPage(MaxEnd(map_, |map_|)) / PAGE) + 8 * PAGE
  {
    var n, m := NormalTop(map_, kernStart, kernEnd), RoundDownPage(MaxEnd(map_, |map_|));
    RoundDownBound(kernStart);
    hide NormalTop, MaxEnd, ZonesEnd, RoundUpPage, RoundDownPage, Bootable;
    ZoneTops(map_, kernStart, kernEnd, n, m);
    ZonesEndTight(KOFFSET + kernEnd, n, m);
    RoundUpBound(kernEnd);
    RoundUpBound(RoundUpPage(kernEnd) + (ZonesEnd(KOFFSET + kernEnd, n, m) - (KOFFSET + kernEnd)));
  }

  lemma RoundDownBound(x: nat)
    ensures RoundDownPage(x) % PAGE == 0 && RoundDownPage(x) <= x < RoundDownPage(x) + PAGE
  {
  }

  // ---------------------------------------------------------------- the first request

  lemma AnyPageIsRun(free: set<nat>)
    ensures HasRun(free, 0) <==> free != {}
  {
    if p :| p in free { assert FreeRun(free, p, 0); }
    if i: nat :| FreeRun(free, i, 0) { assert Down(i, 0) == i; }
  }

  /** Progress: if some usable page of the normal zone lies outside what the kernel keeps, boot is followed
      by a request for a small object that succeeds. */
  method FirstRequest(map_: seq<Region>, kernStart: nat, kernEnd: nat, sizeAfterKernel: nat, size: nat, ghost p: nat)
    returns (r: Outcome<Booted>, ptr: nat)
    requires Bootable(map_, kernStart, kernEnd) && kernEnd < 0x7A00_0000 && sizeAfterKernel < SIZE_MAX && size <= 1024
    requires p % PAGE == 0 && 0x100_0000 <= p && BelowKernelTop(map_, kernStart, kernEnd, p) && UsablePage(map_, p)
    ensures r.Done? && !(r.value.kstart <= p < r.value.kend) ==> ptr != NULL
  {
    hide Bootable, BelowKernelTop, UsablePage, ZonesState, Tiled, AfterBoot, FreeAsMapped, ZonesEnd, NormalTop, MaxEnd, RoundDownPage,
      RoundUpPage, InUsable, FreeAfterKernel, FreedAtBoot, Disjoint, HasSlot;
    ptr := NULL;
    var v;
    ghost var given, freed;
    r, v, given, freed := VmmBootstrap(map_, kernStart, kernEnd, sizeAfterKernel);
    if r.Done? {
      AnyPageIsRun(v.pvbridge.palloc.FreeSet());
      ghost var l := SmallLevelOf(size);
      assert ZoneHas(r.value.zones[1], p);
      ptr := AllocAdapter(v, size, freed);
    }
  }
}
