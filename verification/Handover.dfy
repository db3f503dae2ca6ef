/** The hand-over of physical memory at boot on i386: vmm_bootstrap and the machine memory map. */
module Handover {
  import opened Words
  import opened Blocks
  import opened BuddySpec
  import opened Buddy
  import opened Pvbridge
  import opened Bootstrap

  /** `struct machine_memory_map`; a region of type 1 is usable. */
  datatype Region = Region(base: nat, size: nat, kind: nat)

  /** `struct zone`. */
  datatype PmmZone = PmmZone(base: nat, size: nat, allocator: BuddyPmalloc)

  /** What `panic` leaves: nothing. */
  datatype Outcome<+T> = Panic | Done(value: T)

  const KTOP := 0xFE00_0000
  const DMA_TOP := 0x100_0000
  const SIZEOF_BUDDY_PMALLOC := 548
  const SIZEOF_BUDDY_PAGE := 24

  predicate Usable(r: Region) { r.kind == 1 }

  /** The page at `p` lies in the region after both ends are rounded inward. */
  predicate PageIn(r: Region, p: nat) {
    p % PAGE == 0 && RoundUpPage(r.base) <= p < RoundDownPage(r.base + r.size)
  }

  /** Both ends rounded inward: the whole page lies in the region. */
  lemma PageInExact(r: Region, p: nat)
    ensures PageIn(r, p) <==> p % PAGE == 0 && r.base <= p && p + PAGE <= r.base + r.size
  {
    if p % PAGE == 0 { PageBelow(p, r.base + r.size); }
    RoundUpBound(r.base);
    RoundUpAligned(r.base);
    hide RoundDownPage, RoundUpPage;
    if p % PAGE == 0 && r.base <= p { PageStep(p, r.base, RoundUpPage(r.base)); }
  }

  lemma RoundUpAligned(x: nat)
    ensures RoundUpPage(x) % PAGE == 0
  {
  }

  lemma PageStep(p: nat, x: nat, y: nat)
    requires p % PAGE == 0 && y % PAGE == 0 && x <= p && y < x + PAGE
    ensures y <= p
  {
  }

  /** A page lies below an address wholly iff it starts below the address rounded down. */
  lemma PageBelow(p: nat, x: nat)
    requires p % PAGE == 0
    ensures p < RoundDownPage(x) <==> p + PAGE <= x
  {
  }

  ghost predicate UsablePage(map_: seq<Region>, p: nat) {
    exists i :: 0 <= i < |map_| && Usable(map_[i]) && PageIn(map_[i], p)
  }

  /** Usable regions do not overlap, and 64-bit sums do not wrap. */
  ghost predicate GoodMap(map_: seq<Region>) {
    && (forall i :: 0 <= i < |map_| ==> map_[i].base + map_[i].size + PAGE < ADDR_MAX)
    && (forall i, j :: 0 <= i < j < |map_| && Usable(map_[i]) && Usable(map_[j]) ==>
          map_[i].base + map_[i].size <= map_[j].base || map_[j].base + map_[j].size <= map_[i].base)
  }

  // ---------------------------------------------------------------- zones

  /** The live blocks of a zone from which the pages at the addresses in `freed` were freed, each once,
      after construction. */
  ghost function Remaining(base: nat, n: nat, freed: set<nat>): LiveMap {
    map i | i in Span(0, n) && base + PAGE * i !in freed :: Live(0, 1, 0)
  }

  ghost predicate ZoneOk(z: PmmZone)
    reads z.allocator
  {
    z.allocator.pageSize == PAGE && z.allocator.base == z.base && z.size == PAGE * z.allocator.pageCount
    && z.base % PAGE == 0
  }

  ghost predicate ZoneHas(z: PmmZone, p: nat) {
    z.base <= p < z.base + z.size
  }

  ghost predicate ZonesApart(zs: seq<PmmZone>) {
    forall i, j :: 0 <= i < j < |zs| ==>
      && zs[i].allocator != zs[j].allocator
      && zs[i].allocator.pages != zs[j].allocator.pages
      && zs[i].allocator.mem != zs[j].allocator.mem
      && zs[i].base + zs[i].size <= zs[j].base
  }

  ghost predicate ZoneState(z: PmmZone, freed: set<nat>)
    reads z.allocator, z.allocator.pages, z.allocator.mem
  {
    z.allocator.Valid() && ZoneOk(z) && z.allocator.live == Remaining(z.base, z.allocator.pageCount, freed)
  }

  ghost function Footprint(zs: seq<PmmZone>): set<object> {
    (set z | z in zs :: z.allocator as object) + (set z | z in zs :: z.allocator.pages as object)
    + (set z | z in zs :: z.allocator.mem as object)
  }

  ghost predicate ZonesState(zs: seq<PmmZone>, freed: set<nat>)
    reads Footprint(zs)
  {
    ZonesApart(zs) && forall i :: 0 <= i < |zs| ==> ZoneState(zs[i], freed)
  }

  lemma NotYetFreed(z: PmmZone, freed: set<nat>, p: nat) returns (i: nat)
    requires z.size == PAGE * z.allocator.pageCount && z.base % PAGE == 0
    requires ZoneHas(z, p) && p % PAGE == 0 && p !in freed
    ensures i == (p - z.base) / PAGE && p == z.base + PAGE * i && i in Remaining(z.base, z.allocator.pageCount, freed)
    ensures Remaining(z.base, z.allocator.pageCount, freed + {p}) == Remaining(z.base, z.allocator.pageCount, freed) - {i}
  {
    i := PageOfZone(z.base, z.allocator.pageCount, p);
  }

  lemma NotInZone(z: PmmZone, freed: set<nat>, p: nat)
    requires z.size == PAGE * z.allocator.pageCount && !ZoneHas(z, p)
    ensures Remaining(z.base, z.allocator.pageCount, freed + {p}) == Remaining(z.base, z.allocator.pageCount, freed)
  {
  }

  /** A page goes to the zone that has it. */
  method TryFreePage(zs: seq<PmmZone>, zone: nat, page: nat, ghost freed: set<nat>)
    requires zone < |zs| && page % PAGE == 0 && page !in freed
    requires ZonesApart(zs) && ZoneState(zs[zone], freed)
    modifies zs[zone].allocator, zs[zone].allocator.pages, zs[zone].allocator.mem
    ensures ZoneState(zs[zone], freed + {page})
  {
    hide BuddyPmalloc.Valid, Remaining;
    var z := zs[zone];
    if z.base <= page && page < z.base + z.size {
      ghost var i := NotYetFreed(z, freed, page);
      assert z.allocator.IsLive(page);
      z.allocator.Free(page);
    } else {
      NotInZone(z, freed, page);
    }
  }

  /** One turn of the page loop: all zones are tried in order. */
  method FreePage(zs: seq<PmmZone>, page: nat, ghost freed: set<nat>)
    requires ZonesState(zs, freed) && page % PAGE == 0 && page !in freed
    modifies Footprint(zs)
    ensures ZonesState(zs, freed + {page})
  {
    hide ZoneState;
    for i := 0 to |zs|
      invariant forall j :: 0 <= j < i ==> ZoneState(zs[j], freed + {page})
      invariant forall j :: i <= j < |zs| ==> ZoneState(zs[j], freed)
    {
      TryFreePage(zs, i, page, freed);
    }
  }

  /** The pages of the first `k` regions, and of region `k` below `p`, outside the kernel. */
  ghost predicate Visited(map_: seq<Region>, k: nat, p: nat, kstart: nat, kend: nat, x: nat) {
    && !(kstart <= x < kend)
    && exists j :: 0 <= j < |map_| && j <= k && Usable(map_[j]) && PageIn(map_[j], x) && (j < k || x < p)
  }

  lemma RoundedInside(r: Region, p: nat)
    requires PageIn(r, p)
    ensures r.base <= p && p + PAGE <= r.base + r.size
  {
  }

  /** The page the loop is at has not been freed before. */
  lemma NotVisited(map_: seq<Region>, k: nat, p: nat, kstart: nat, kend: nat)
    requires GoodMap(map_) && k < |map_| && Usable(map_[k]) && PageIn(map_[k], p)
    ensures !Visited(map_, k, p, kstart, kend, p)
  {
    RoundedInside(map_[k], p);
    forall j | 0 <= j < k && Usable(map_[j]) ensures !PageIn(map_[j], p) {
      if PageIn(map_[j], p) { RoundedInside(map_[j], p); assert false; }
    }
  }

  lemma VisitNext(map_: seq<Region>, k: nat, p: nat, kstart: nat, kend: nat, x: nat)
    requires k < |map_| && Usable(map_[k]) && p % PAGE == 0 && RoundUpPage(map_[k].base) <= p < RoundDownPage(map_[k].base + map_[k].size)
    ensures Visited(map_, k, p + PAGE, kstart, kend, x) <==>
            Visited(map_, k, p, kstart, kend, x) || (x == p && !(kstart <= p < kend))
  {
    hide RoundUpPage, RoundDownPage;
    if x == p && !(kstart <= p < kend) { assert PageIn(map_[k], x); }
    if x % PAGE == 0 && p <= x < p + PAGE { assert x == p; }
  }

  lemma VisitRegion(map_: seq<Region>, k: nat, p: nat, kstart: nat, kend: nat, x: nat)
    requires k < |map_| && (Usable(map_[k]) ==> p >= RoundDownPage(map_[k].base + map_[k].size))
    ensures Visited(map_, k + 1, 0, kstart, kend, x) <==> Visited(map_, k, p, kstart, kend, x)
  {
  }

  ghost predicate VisitedSet(map_: seq<Region>, k: nat, p: nat, kstart: nat, kend: nat, freed: set<nat>) {
    forall x: nat :: x in freed <==> Visited(map_, k, p, kstart, kend, x)
  }

  lemma VisitStart(map_: seq<Region>, k: nat, kstart: nat, kend: nat, freed: set<nat>)
    requires k < |map_| && VisitedSet(map_, k, 0, kstart, kend, freed)
    ensures VisitedSet(map_, k, RoundUpPage(map_[k].base), kstart, kend, freed)
  {
    forall x: nat ensures Visited(map_, k, 0, kstart, kend, x) <==> Visited(map_, k, RoundUpPage(map_[k].base), kstart, kend, x) { }
  }

  /** arch_init_free_pmm_zone: page by page, everything usable outside [kstart, kend) is freed. */
  method ArchInitFreePmmZone(map_: seq<Region>, zs: seq<PmmZone>, kstart: nat, kend: nat) returns (ghost freed: set<nat>)
    requires GoodMap(map_) && ZonesState(zs, {})
    modifies Footprint(zs)
    ensures ZonesState(zs, freed)
    ensures forall x: nat :: x in freed <==> UsablePage(map_, x) && !(kstart <= x < kend)
  {
    hide ZonesState, VisitedSet, Footprint;
    freed := {};
    VisitNone(map_, kstart, kend);
    for i := 0 to |map_|
      invariant ZonesState(zs, freed) && VisitedSet(map_, i, 0, kstart, kend, freed)
    {
      var r := map_[i];
      if r.kind == 1 {
        freed := FreeRegion(map_, i, zs, kstart, kend, freed);
      } else {
        VisitDone(map_, i, 0, kstart, kend, freed);
      }
    }
    VisitAll(map_, kstart, kend, freed);
  }

  /** The inner loop, over the pages of one usable region. */
  method FreeRegion(map_: seq<Region>, k: nat, zs: seq<PmmZone>, kstart: nat, kend: nat, ghost freed0: set<nat>)
    returns (ghost freed: set<nat>)
    requires GoodMap(map_) && k < |map_| && Usable(map_[k]) && ZonesState(zs, freed0)
    requires VisitedSet(map_, k, 0, kstart, kend, freed0)
    modifies Footprint(zs)
    ensures ZonesState(zs, freed) && VisitedSet(map_, k + 1, 0, kstart, kend, freed)
  {
    hide ZonesState, VisitedSet, Footprint;
    freed := freed0;
    var st, ed := RoundUpPage(map_[k].base) % ADDR_MAX, RoundDownPage(map_[k].base + map_[k].size);
    VisitStart(map_, k, kstart, kend, freed);
    var page := st;
    while page < ed
      invariant page % PAGE == 0 && st <= page
      invariant ZonesState(zs, freed) && VisitedSet(map_, k, page, kstart, kend, freed)
      decreases ed - page
    {
      VisitStep(map_, k, page, kstart, kend, freed);
      if !(kstart <= page && page < kend) {
        FreePage(zs, page, freed);
        freed := freed + {page};
      }
      page := page + PAGE;
    }
    VisitDone(map_, k, page, kstart, kend, freed);
  }

  lemma VisitStep(map_: seq<Region>, k: nat, p: nat, kstart: nat, kend: nat, freed: set<nat>)
    requires GoodMap(map_) && k < |map_| && Usable(map_[k]) && p % PAGE == 0
    requires RoundUpPage(map_[k].base) <= p < RoundDownPage(map_[k].base + map_[k].size)
    requires VisitedSet(map_, k, p, kstart, kend, freed)
    ensures p !in freed
    ensures VisitedSet(map_, k, p + PAGE, kstart, kend, if kstart <= p < kend then freed else freed + {p})
  {
    NotVisited(map_, k, p, kstart, kend);
    hide Visited, RoundUpPage, RoundDownPage;
    forall x: nat { VisitNext(map_, k, p, kstart, kend, x); }
  }

  lemma VisitDone(map_: seq<Region>, k: nat, p: nat, kstart: nat, kend: nat, freed: set<nat>)
    requires k < |map_| && (Usable(map_[k]) ==> p >= RoundDownPage(map_[k].base + map_[k].size))
    requires VisitedSet(map_, k, p, kstart, kend, freed)
    ensures VisitedSet(map_, k + 1, 0, kstart, kend, freed)
  {
    hide Visited;
    forall x: nat { VisitRegion(map_, k, p, kstart, kend, x); }
  }

  lemma VisitNone(map_: seq<Region>, kstart: nat, kend: nat)
    ensures VisitedSet(map_, 0, 0, kstart, kend, {})
  {
  }

  lemma VisitAll(map_: seq<Region>, kstart: nat, kend: nat, freed: set<nat>)
    requires VisitedSet(map_, |map_|, 0, kstart, kend, freed)
    ensures forall x: nat :: x in freed <==> UsablePage(map_, x) && !(kstart <= x < kend)
  {
    forall x: nat ensures Visited(map_, |map_|, 0, kstart, kend, x) <==> UsablePage(map_, x) && !(kstart <= x < kend) { }
  }

  // ---------------------------------------------------------------- the zones

  /** A usable region that holds the whole kernel image. */
  predicate HasKernel(r: Region, kernStart: nat, kernEnd: nat) {
    Usable(r) && r.base <= kernStart && kernEnd <= r.base + r.size
  }

  /** The end of the last region that holds the kernel, among the first `i`. */
  function KernelRegionEnd(map_: seq<Region>, kernStart: nat, kernEnd: nat, i: nat): nat
    requires i <= |map_|
  {
    if i == 0 then 0
    else if HasKernel(map_[i - 1], kernStart, kernEnd) then map_[i - 1].base + map_[i - 1].size
    else KernelRegionEnd(map_, kernStart, kernEnd, i - 1)
  }

  function MaxEnd(map_: seq<Region>, i: nat): nat
    requires i <= |map_|
  {
    if i == 0 then 0 else Max(MaxEnd(map_, i - 1), map_[i - 1].base + map_[i - 1].size)
  }

  /** The end of the normal zone. */
  function NormalTop(map_: seq<Region>, kernStart: nat, kernEnd: nat): nat {
    RoundDownPage(Min(KernelRegionEnd(map_, kernStart, kernEnd, |map_|), KTOP - KOFFSET))
  }

  lemma {:induction false} KernelRegionUnique(map_: seq<Region>, kernStart: nat, kernEnd: nat, i: nat, j: nat)
    requires GoodMap(map_) && kernStart < kernEnd && j < i <= |map_| && HasKernel(map_[j], kernStart, kernEnd)
    ensures KernelRegionEnd(map_, kernStart, kernEnd, i) == map_[j].base + map_[j].size
  {
    if i - 1 != j {
      assert !HasKernel(map_[i - 1], kernStart, kernEnd);
      KernelRegionUnique(map_, kernStart, kernEnd, i - 1, j);
    }
  }

  lemma {:induction false} MaxEndCovers(map_: seq<Region>, i: nat, j: nat)
    requires j < i <= |map_|
    ensures map_[j].base + map_[j].size <= MaxEnd(map_, i)
  {
    if j < i - 1 { MaxEndCovers(map_, i - 1, j); }
  }

  lemma RoundDownMonotone(x: nat, y: nat)
    requires x <= y
    ensures RoundDownPage(x) <= RoundDownPage(y) <= y && RoundDownPage(x) % PAGE == 0 && RoundDownPage(y) % PAGE == 0
  {
  }

  /** The tops of the normal and of the highmem zone. */
  method ArchInitPmmZone(map_: seq<Region>, kernStart: nat, kernEnd: nat) returns (normalTop: nat, maxPhysmem: nat)
    ensures normalTop == NormalTop(map_, kernStart, kernEnd)
    ensures maxPhysmem == RoundDownPage(MaxEnd(map_, |map_|))
  {
    normalTop, maxPhysmem := 0, 0;
    for i := 0 to |map_|
      invariant normalTop == KernelRegionEnd(map_, kernStart, kernEnd, i)
      invariant maxPhysmem == MaxEnd(map_, i)
    {
      var r := map_[i];
      if r.kind == 1 {
        if r.base <= kernStart && r.base + r.size >= kernEnd {
          normalTop := r.base + r.size;
        }
      }
      maxPhysmem := Max(maxPhysmem, r.base + r.size);
    }
    normalTop := if normalTop < KTOP - KOFFSET then normalTop else KTOP - KOFFSET;
    normalTop := RoundDownPage(normalTop);
    maxPhysmem := RoundDownPage(maxPhysmem);
  }

  /** What `size_after_kernel` is set to: the rest of the kernel's region in 32 bits, and at most the size
      of the kernel's window. */
  function FreeAfterKernel(map_: seq<Region>, kernStart: nat, kernEnd: nat): nat {
    var end := KernelRegionEnd(map_, kernStart, kernEnd, |map_|);
    Min(KTOP - KOFFSET, if end < kernEnd then 0 else (end - kernEnd) % SIZE_MAX)
  }

  /** The second half of copy_memory_map. */
  method SizeAfterKernel(map_: seq<Region>, kernStart: nat, kernEnd: nat) returns (size: Outcome<nat>)
    ensures size == if FreeAfterKernel(map_, kernStart, kernEnd) == 0 then Panic
                    else Done(FreeAfterKernel(map_, kernStart, kernEnd))
  {
    var freemem := 0;
    for i := 0 to |map_|
      invariant var end := KernelRegionEnd(map_, kernStart, kernEnd, i);
                freemem == if end < kernEnd then 0 else (end - kernEnd) % SIZE_MAX
    {
      var r := map_[i];
      if r.kind == 1 {
        if r.base <= kernStart && r.base + r.size >= kernEnd {
          freemem := (r.base + r.size - kernEnd) % SIZE_MAX;
        }
      }
    }
    freemem := if KTOP - KOFFSET < freemem then KTOP - KOFFSET else freemem;
    size := if freemem != 0 then Done(freemem) else Panic;
  }

  /** With disjoint usable regions boot gets past copy_memory_map exactly when what is left of the
      kernel's region after the kernel is no multiple of 2^32 bytes: none at all, but also 4 GB. */
  lemma NoFreeMemoryExact(map_: seq<Region>, kernStart: nat, kernEnd: nat, j: nat)
    requires GoodMap(map_) && kernStart < kernEnd && j < |map_| && HasKernel(map_[j], kernStart, kernEnd)
    ensures FreeAfterKernel(map_, kernStart, kernEnd) == 0 <==> (map_[j].base + map_[j].size - kernEnd) % SIZE_MAX == 0
    ensures FreeAfterKernel(map_, kernStart, kernEnd) <= map_[j].base + map_[j].size - kernEnd
    ensures var size, left := FreeAfterKernel(map_, kernStart, kernEnd), (map_[j].base + map_[j].size - kernEnd) % SIZE_MAX;
            size <= 0x7E00_0000 && size <= left && (size == 0x7E00_0000 || size == left)
  {
    hide KernelRegionEnd, GoodMap;
    KernelRegionUnique(map_, kernStart, kernEnd, |map_|, j);
    ModBelow(map_[j].base + map_[j].size - kernEnd);
  }

  lemma ModBelow(x: nat)
    ensures x % SIZE_MAX <= x
  {
  }

  /** The physical memory behind the allocation lies in a usable region. */
  ghost predicate InUsable(map_: seq<Region>, a: Allocation) {
    exists j :: 0 <= j < |map_| && Usable(map_[j])
      && map_[j].base <= a.addr - KOFFSET && a.addr + a.size - KOFFSET <= map_[j].base + map_[j].size
  }

  /** What the bump allocator gives out after the kernel is memory the machine has. */
  lemma BumpInUsable(map_: seq<Region>, kernStart: nat, kernEnd: nat, a: Allocation)
    requires Bootable(map_, kernStart, kernEnd) && kernEnd < KOFFSET
    requires KOFFSET + kernEnd <= a.addr
    requires a.addr + a.size <= (KOFFSET + kernEnd + FreeAfterKernel(map_, kernStart, kernEnd)) % SIZE_MAX
    ensures InUsable(map_, a)
  {
    hide FreeAfterKernel, GoodMap, KernelRegionEnd, NormalTop, MaxEnd;
    var j :| 0 <= j < |map_| && HasKernel(map_[j], kernStart, kernEnd);
    NoFreeMemoryExact(map_, kernStart, kernEnd, j);
    ModBelow(KOFFSET + kernEnd + FreeAfterKernel(map_, kernStart, kernEnd));
  }

  /** The memory map of a machine that can boot: one usable region holds the kernel and reaches past the
      DMA zone, and the highmem zone has less than 2^32 bytes. */
  ghost predicate Bootable(map_: seq<Region>, kernStart: nat, kernEnd: nat) {
    && GoodMap(map_) && kernStart < kernEnd
    && (exists j :: 0 <= j < |map_| && HasKernel(map_[j], kernStart, kernEnd) && DMA_TOP <= map_[j].base + map_[j].size)
    && MaxEnd(map_, |map_|) < NormalTop(map_, kernStart, kernEnd) + SIZE_MAX
  }

  lemma ZoneTops(map_: seq<Region>, kernStart: nat, kernEnd: nat, normalTop: nat, maxPhysmem: nat)
    requires Bootable(map_, kernStart, kernEnd)
    requires normalTop == NormalTop(map_, kernStart, kernEnd)
    requires maxPhysmem == RoundDownPage(MaxEnd(map_, |map_|))
    ensures DMA_TOP <= normalTop <= maxPhysmem < normalTop + SIZE_MAX && normalTop % PAGE == 0 && maxPhysmem % PAGE == 0
    ensures normalTop <= KTOP - KOFFSET
  {
    var j :| 0 <= j < |map_| && HasKernel(map_[j], kernStart, kernEnd) && DMA_TOP <= map_[j].base + map_[j].size;
    KernelRegionUnique(map_, kernStart, kernEnd, |map_|, j);
    MaxEndCovers(map_, |map_|, j);
    var top := KernelRegionEnd(map_, kernStart, kernEnd, |map_|);
    hide RoundDownPage;
    RoundDownMonotone(Min(top, KTOP - KOFFSET), MaxEnd(map_, |map_|));
    RoundDownMonotone(DMA_TOP, Min(top, KTOP - KOFFSET));
    assert RoundDownPage(DMA_TOP) == DMA_TOP by { DmaTopAligned(); }
    RoundDownMonotone(0, Min(top, KTOP - KOFFSET));
  }

  /** A page that lies wholly in the kernel's region and in the kernel's window. */
  ghost predicate BelowKernelTop(map_: seq<Region>, kernStart: nat, kernEnd: nat, p: nat) {
    && p + PAGE <= 0x7E00_0000
    && exists j :: 0 <= j < |map_| && HasKernel(map_[j], kernStart, kernEnd) && p + PAGE <= map_[j].base + map_[j].size
  }

  /** A page that lies wholly below the end of some region of any type. */
  ghost predicate BelowSomeEnd(map_: seq<Region>, p: nat) {
    exists j :: 0 <= j < |map_| && p + PAGE <= map_[j].base + map_[j].size
  }

  /** The normal zone ends with the last page of the kernel's region that the kernel's window has. */
  lemma NormalTopExact(map_: seq<Region>, kernStart: nat, kernEnd: nat, p: nat)
    requires Bootable(map_, kernStart, kernEnd) && p % PAGE == 0
    ensures p < NormalTop(map_, kernStart, kernEnd) <==> BelowKernelTop(map_, kernStart, kernEnd, p)
  {
    var j :| 0 <= j < |map_| && HasKernel(map_[j], kernStart, kernEnd);
    KernelRegionUnique(map_, kernStart, kernEnd, |map_|, j);
    hide GoodMap, KernelRegionEnd, MaxEnd, RoundDownPage;
    PageBelow(p, Min(KernelRegionEnd(map_, kernStart, kernEnd, |map_|), KTOP - KOFFSET));
    forall k | 0 <= k < |map_| && HasKernel(map_[k], kernStart, kernEnd)
      ensures map_[k].base + map_[k].size == KernelRegionEnd(map_, kernStart, kernEnd, |map_|)
    {
      KernelRegionUnique(map_, kernStart, kernEnd, |map_|, k);
    }
  }

  lemma {:induction false} MaxEndReached(map_: seq<Region>, i: nat) returns (j: nat)
    requires 0 < i <= |map_|
    ensures j < i && MaxEnd(map_, i) == map_[j].base + map_[j].size
  {
    if i == 1 || MaxEnd(map_, i - 1) <= map_[i - 1].base + map_[i - 1].size {
      j := i - 1;
    } else {
      j := MaxEndReached(map_, i - 1);
    }
  }

  /** The zones end with the last page below the end of a region. */
  lemma TopExact(map_: seq<Region>, p: nat)
    requires p % PAGE == 0
    ensures p < RoundDownPage(MaxEnd(map_, |map_|)) <==> BelowSomeEnd(map_, p)
  {
    PageBelow(p, MaxEnd(map_, |map_|));
    hide RoundDownPage;
    if BelowSomeEnd(map_, p) {
      var j :| 0 <= j < |map_| && p + PAGE <= map_[j].base + map_[j].size;
      MaxEndCovers(map_, |map_|, j);
    } else if p + PAGE <= MaxEnd(map_, |map_|) {
      var j := MaxEndReached(map_, |map_|);
      assert false;
    }
  }

  lemma DmaTopAligned()
    ensures RoundDownPage(DMA_TOP) == DMA_TOP
  {
  }

  lemma ZoneGeometry(base: nat, size: nat)
    requires base % PAGE == 0 && size % PAGE == 0 && base < SIZE_MAX && size < SIZE_MAX
    ensures Geometry(base, PAGE, size / PAGE) && PAGE * (size / PAGE) == size && size / PAGE < 0x10_0000
  {
    assert Pow2(12) == PAGE;
    IsPowOf2Complete(12);
  }

  /** The bump pointer after the allocator object and the page records of a zone of `size` bytes. */
  function ZoneEnd(cur: nat, size: nat): nat {
    RoundUpPage(RoundUpPage(cur) + SIZEOF_BUDDY_PMALLOC) + SIZEOF_BUDDY_PAGE * (size / PAGE)
  }

  function Above(x: nat, y: nat): nat { if x >= y then x - y else 0 }

  /** The bump pointer after all three zones. */
  function ZonesEnd(cur: nat, normalTop: nat, maxPhysmem: nat): nat {
    ZoneEnd(ZoneEnd(ZoneEnd(cur, DMA_TOP), Above(normalTop, DMA_TOP)), Above(maxPhysmem, normalTop))
  }

  /** The memory of a zone with `n` pages, from the bump allocator: the allocator object, then its
      records. */
  method BumpZone(vmalloc: BootstrapVmalloc, n: nat) returns (ok: bool)
    requires vmalloc.Valid() && 0 < vmalloc.base && vmalloc.cur + 0x200_0000 < SIZE_MAX && n < 0x10_0000
    modifies vmalloc
    ensures vmalloc.Valid() && vmalloc.cur <= old(vmalloc.cur) + 0x181_0000
    ensures ok <==> ZoneEnd(old(vmalloc.cur), PAGE * n) <= vmalloc.limit
    ensures ok ==> vmalloc.cur == ZoneEnd(old(vmalloc.cur), PAGE * n)
    ensures ok ==>
              && |vmalloc.given| == |old(vmalloc.given)| + 2 && old(vmalloc.given) <= vmalloc.given
              && vmalloc.given[|vmalloc.given| - 2].size == SIZEOF_BUDDY_PMALLOC
              && vmalloc.given[|vmalloc.given| - 1].size == SIZEOF_BUDDY_PAGE * n
  {
    hide RoundUpPage, ZoneEnd, Bumped;
    AboveBase(vmalloc);
    ZoneEndIs(vmalloc.cur, PAGE * n, n);
    RoundUpBound(vmalloc.cur);
    NoWrap(RoundUpPage(vmalloc.cur));
    NoWrap(RoundUpPage(vmalloc.cur) + SIZEOF_BUDDY_PMALLOC);
    var bpa := vmalloc.Malloc(SIZEOF_BUDDY_PMALLOC);
    if bpa == NULL {
      return false;
    }
    RoundUpBound(vmalloc.cur);
    NoWrap(RoundUpPage(vmalloc.cur));
    NoWrap(RoundUpPage(vmalloc.cur) + SIZEOF_BUDDY_PAGE * n);
    var pages := vmalloc.Malloc(SIZEOF_BUDDY_PAGE * n);
    ok := pages != NULL;
  }

  lemma AboveBase(vmalloc: BootstrapVmalloc)
    requires vmalloc.Valid()
    ensures vmalloc.base <= vmalloc.cur
  {
  }

  lemma NoWrap(x: nat)
    requires x < SIZE_MAX
    ensures x % SIZE_MAX == x
  {
  }

  /** One turn of the zone loop. */
  method NewZone(vmalloc: BootstrapVmalloc, base: nat, size: nat) returns (z: Outcome<PmmZone>)
    requires vmalloc.Valid() && 0 < vmalloc.base && vmalloc.cur + 0x200_0000 < SIZE_MAX
    requires base % PAGE == 0 && size % PAGE == 0 && base < SIZE_MAX && size < SIZE_MAX
    modifies vmalloc
    ensures vmalloc.Valid() && vmalloc.cur <= old(vmalloc.cur) + 0x181_0000
    ensures z.Done? <==> ZoneEnd(old(vmalloc.cur), size) <= vmalloc.limit
    ensures z.Done? ==> vmalloc.cur == ZoneEnd(old(vmalloc.cur), size)
    ensures z.Done? ==>
              && z.value.base == base && z.value.size == size && ZoneState(z.value, {})
              && fresh(z.value.allocator) && fresh(z.value.allocator.pages) && fresh(z.value.allocator.mem)
    ensures z.Done? ==>
              && |vmalloc.given| == |old(vmalloc.given)| + 2 && old(vmalloc.given) <= vmalloc.given
              && vmalloc.given[|vmalloc.given| - 2].size == SIZEOF_BUDDY_PMALLOC
              && vmalloc.given[|vmalloc.given| - 1].size == SIZEOF_BUDDY_PAGE * (size / PAGE)
  {
    hide BuddyPmalloc.Valid, BootstrapVmalloc.Valid, Geometry, Remaining, AllLive, ZoneEnd;
    ZoneGeometry(base, size);
    var n := size / PAGE;
    var ok := BumpZone(vmalloc, n);
    if !ok {
      return Panic;
    }
    var allocator := new BuddyPmalloc(base, PAGE, n);
    NothingFreed(base, n);
    return Done(PmmZone(base, size, allocator));
  }

  lemma ZoneEndIs(cur: nat, size: nat, n: nat)
    requires n == size / PAGE
    ensures ZoneEnd(cur, size) == RoundUpPage(RoundUpPage(cur) + SIZEOF_BUDDY_PMALLOC) + SIZEOF_BUDDY_PAGE * n
    ensures RoundUpPage(cur) + SIZEOF_BUDDY_PMALLOC <= ZoneEnd(cur, size)
  {
    hide RoundUpPage;
    RoundUpBound(RoundUpPage(cur) + SIZEOF_BUDDY_PMALLOC);
  }

  lemma RoundUpBound(x: nat)
    ensures x <= RoundUpPage(x) < x + PAGE
  {
  }

  lemma NothingFreed(base: nat, n: nat)
    ensures AllLive(n) == Remaining(base, n, {})
  {
  }

  /** What vmm_bootstrap leaves behind: the zones, and the physical range the kernel keeps. */
  datatype Booted = Booted(zones: seq<PmmZone>, kstart: nat, kend: nat)

  /** The DMA, the normal and the highmem zone cover all memory below `top` without gap. */
  ghost predicate Tiled(zs: seq<PmmZone>, normalTop: nat, top: nat) {
    && |zs| == 3 && zs[0].base == 0 && zs[1].base == DMA_TOP && zs[2].base == normalTop
    && zs[1].base == zs[0].base + zs[0].size && zs[2].base == zs[1].base + zs[1].size
    && top == zs[2].base + zs[2].size
  }

  /** Which pages belong to which zone, by the memory map: the first 16 MB to the DMA zone; above them
      what lies in the kernel's region and window to the normal zone, and what else lies below the end of
      a region to the highmem zone. */
  ghost predicate ZonesAsMapped(map_: seq<Region>, kernStart: nat, kernEnd: nat, zs: seq<PmmZone>) {
    |zs| == 3 && forall p: nat | p % PAGE == 0 ::
      && (ZoneHas(zs[0], p) <==> p < 0x100_0000)
      && (ZoneHas(zs[1], p) <==> 0x100_0000 <= p && BelowKernelTop(map_, kernStart, kernEnd, p))
      && (ZoneHas(zs[2], p) <==> 0x100_0000 <= p && !BelowKernelTop(map_, kernStart, kernEnd, p) && BelowSomeEnd(map_, p))
  }

  lemma ZonesPlaced(map_: seq<Region>, kernStart: nat, kernEnd: nat, zs: seq<PmmZone>)
    requires Bootable(map_, kernStart, kernEnd)
    requires Tiled(zs, NormalTop(map_, kernStart, kernEnd), RoundDownPage(MaxEnd(map_, |map_|)))
    ensures ZonesAsMapped(map_, kernStart, kernEnd, zs)
  {
    hide NormalTop, MaxEnd, RoundDownPage, Bootable, BelowKernelTop, BelowSomeEnd;
    ZoneTops(map_, kernStart, kernEnd, NormalTop(map_, kernStart, kernEnd), RoundDownPage(MaxEnd(map_, |map_|)));
    forall p: nat | p % PAGE == 0
      ensures ZoneHas(zs[0], p) <==> p < 0x100_0000
      ensures ZoneHas(zs[1], p) <==> 0x100_0000 <= p && BelowKernelTop(map_, kernStart, kernEnd, p)
      ensures ZoneHas(zs[2], p) <==> 0x100_0000 <= p && !BelowKernelTop(map_, kernStart, kernEnd, p) && BelowSomeEnd(map_, p)
    {
      NormalTopExact(map_, kernStart, kernEnd, p);
      TopExact(map_, p);
    }
  }

  /** What boot takes behind the kernel is little more than what it needs: the three allocator objects and
      a record for every page below the top. */
  lemma ZonesEndTight(cur: nat, normalTop: nat, maxPhysmem: nat)
    requires DMA_TOP <= normalTop <= maxPhysmem && normalTop % PAGE == 0 && maxPhysmem % PAGE == 0
    ensures ZonesEnd(cur, normalTop, maxPhysmem) < cur + 3 * SIZEOF_BUDDY_PMALLOC + SIZEOF_BUDDY_PAGE * (maxPhysmem / PAGE) + 6 * PAGE
  {
    ZonesEndIs(cur, normalTop, maxPhysmem);
    SplitPages(normalTop, maxPhysmem);
    hide ZonesEnd, ZoneEnd;
    var e1 := ZoneEnd(cur, DMA_TOP);
    var e2 := ZoneEnd(e1, normalTop - DMA_TOP);
    ZoneEndTight(cur, DMA_TOP);
    ZoneEndTight(e1, normalTop - DMA_TOP);
    ZoneEndTight(e2, maxPhysmem - normalTop);
  }

  lemma SplitPages(normalTop: nat, maxPhysmem: nat)
    requires DMA_TOP <= normalTop <= maxPhysmem && normalTop % PAGE == 0 && maxPhysmem % PAGE == 0
    ensures DMA_TOP / PAGE + (normalTop - DMA_TOP) / PAGE + (maxPhysmem - normalTop) / PAGE == maxPhysmem / PAGE
  {
  }

  lemma ZoneEndTight(cur: nat, size: nat)
    ensures ZoneEnd(cur, size) < cur + SIZEOF_BUDDY_PMALLOC + SIZEOF_BUDDY_PAGE * (size / PAGE) + 2 * PAGE
  {
    hide RoundUpPage;
    RoundUpBound(cur);
    RoundUpBound(RoundUpPage(cur) + SIZEOF_BUDDY_PMALLOC);
  }

  lemma DifferenceAligned(x: nat, y: nat)
    requires y <= x && x % PAGE == 0 && y % PAGE == 0
    ensures (x - y) % PAGE == 0
  {
  }

  lemma ZoneEndGrows(cur: nat, size: nat)
    ensures cur <= ZoneEnd(cur, size)
  {
    hide RoundUpPage;
    RoundUpBound(cur);
    RoundUpBound(RoundUpPage(cur) + SIZEOF_BUDDY_PMALLOC);
  }

  /** The zones of arch_init_pmm_zone, each with its allocator. */
  method MakeZones(vmalloc: BootstrapVmalloc, normalTop: nat, maxPhysmem: nat) returns (zs: Outcome<seq<PmmZone>>)
    requires vmalloc.Valid() && 0 < vmalloc.base && vmalloc.cur + 0x600_0000 < SIZE_MAX && vmalloc.given == []
    requires DMA_TOP <= normalTop <= maxPhysmem < normalTop + SIZE_MAX && normalTop < SIZE_MAX && normalTop % PAGE == 0 && maxPhysmem % PAGE == 0
    modifies vmalloc
    ensures vmalloc.Valid()
    ensures zs.Done? ==> ZonesState(zs.value, {}) && Tiled(zs.value, normalTop, maxPhysmem) && |vmalloc.given| == 6
    ensures zs.Done? ==> fresh(Footprint(zs.value))
    ensures zs.Done? <==> ZonesEnd(old(vmalloc.cur), normalTop, maxPhysmem) <= vmalloc.limit
    ensures zs.Done? ==> vmalloc.cur == ZonesEnd(old(vmalloc.cur), normalTop, maxPhysmem)
  {
    hide ZoneEnd, ZonesEnd, BuddyPmalloc.Valid, BootstrapVmalloc.Valid, ZoneState, Remaining;
    var normalSize, highSize := normalTop - DMA_TOP, maxPhysmem - normalTop;
    DifferenceAligned(normalTop, DMA_TOP);
    DifferenceAligned(maxPhysmem, normalTop);
    ZonesEndIs(vmalloc.cur, normalTop, maxPhysmem);
    var dma := NewZone(vmalloc, 0, DMA_TOP);
    if dma.Panic? { return Panic; }
    var normal := NewZone(vmalloc, DMA_TOP, normalSize);
    if normal.Panic? { return Panic; }
    var highmem := NewZone(vmalloc, normalTop, highSize);
    if highmem.Panic? { return Panic; }
    return Done([dma.value, normal.value, highmem.value]);
  }

  lemma ZonesEndIs(cur: nat, normalTop: nat, maxPhysmem: nat)
    requires DMA_TOP <= normalTop <= maxPhysmem
    ensures var end2 := ZoneEnd(ZoneEnd(cur, DMA_TOP), normalTop - DMA_TOP);
            ZonesEnd(cur, normalTop, maxPhysmem) == ZoneEnd(end2, maxPhysmem - normalTop)
            && ZoneEnd(cur, DMA_TOP) <= end2 <= ZonesEnd(cur, normalTop, maxPhysmem)
  {
    hide ZoneEnd;
    ZoneEndGrows(ZoneEnd(cur, DMA_TOP), normalTop - DMA_TOP);
    ZoneEndGrows(ZoneEnd(ZoneEnd(cur, DMA_TOP), normalTop - DMA_TOP), maxPhysmem - normalTop);
  }

  lemma ZonesEndGrows(cur: nat, normalTop: nat, maxPhysmem: nat)
    ensures cur <= ZonesEnd(cur, normalTop, maxPhysmem)
  {
    hide ZoneEnd;
    ZoneEndGrows(cur, DMA_TOP);
    ZoneEndGrows(ZoneEnd(cur, DMA_TOP), Above(normalTop, DMA_TOP));
    ZoneEndGrows(ZoneEnd(ZoneEnd(cur, DMA_TOP), Above(normalTop, DMA_TOP)), Above(maxPhysmem, normalTop));
  }

  /** The first part of vmm_bootstrap: panics exactly when the allocator objects and page records of the three zones do not
      fit behind the kernel image; otherwise the kernel keeps the pages from its start to the end of
      those records, and every other usable page is freed. */
  method HandOverMemory(map_: seq<Region>, kernStart: nat, kernEnd: nat, sizeAfterKernel: nat)
    returns (r: Outcome<Booted>, ghost given: seq<Allocation>, ghost freed: set<nat>)
    requires Bootable(map_, kernStart, kernEnd) && kernEnd < 0x7A00_0000 && sizeAfterKernel < SIZE_MAX
    ensures r.Done? ==> ZonesState(r.value.zones, freed)
    ensures r.Done? ==> Tiled(r.value.zones, NormalTop(map_, kernStart, kernEnd), RoundDownPage(MaxEnd(map_, |map_|)))
    ensures r.Done? ==> forall x: nat :: x in freed <==> UsablePage(map_, x) && !(r.value.kstart <= x < r.value.kend)
    ensures var top := ZonesEnd(KOFFSET + kernEnd, NormalTop(map_, kernStart, kernEnd), RoundDownPage(MaxEnd(map_, |map_|)));
            && KOFFSET + kernEnd <= top && (r.Done? <==> top <= (KOFFSET + kernEnd + sizeAfterKernel) % SIZE_MAX)
            && (r.Done? ==> r.value.kend == RoundUpPage(RoundUpPage(kernEnd) + (top - (KOFFSET + kernEnd))))
    ensures r.Done? ==> fresh(Footprint(r.value.zones))
    ensures r.Done? ==> r.value.kstart == RoundDownPage(kernStart) && kernEnd <= r.value.kend
    ensures r.Done? ==> |given| == 6 && forall i :: 0 <= i < 6 ==>
              KOFFSET + kernEnd <= given[i].addr && given[i].addr + given[i].size <= KOFFSET + r.value.kend
    ensures r.Done? ==> forall i :: 0 <= i < 6 ==> given[i].addr + given[i].size <= (KOFFSET + kernEnd + sizeAfterKernel) % SIZE_MAX
    ensures r.Done? ==> forall i, j :: 0 <= i < j < 6 ==> Disjoint(given[i], given[j])
  {
    hide ZonesState, UsablePage, GoodMap, NormalTop, MaxEnd, RoundUpPage, RoundDownPage, Tiled, Footprint, Disjoint, ZonesEnd;
    given, freed := [], {};
    var vmalloc := new BootstrapVmalloc(KOFFSET + kernEnd, sizeAfterKernel);
    var normalTop, maxPhysmem := ArchInitPmmZone(map_, kernStart, kernEnd);
    ZoneTops(map_, kernStart, kernEnd, normalTop, maxPhysmem);
    ZonesEndGrows(vmalloc.cur, normalTop, maxPhysmem);
    var zs := MakeZones(vmalloc, normalTop, maxPhysmem);
    if zs.Panic? { return Panic, given, freed; }
    given := vmalloc.given;
    var kstart := RoundDownPage(kernStart);
    var kend := RoundUpPage(kernEnd);
    var area := vmalloc.Area();
    RoundUpBound(kernEnd);
    RoundUpBound(kend + area);
    var realKend := RoundUpPage(kend + area);
    freed := ArchInitFreePmmZone(map_, zs.value, kstart, realKend);
    r := Done(Booted(zs.value, kstart, realKend));
  }

  // ---------------------------------------------------------------- the whole run

  lemma FreeInRemaining(base: nat, n: nat, freed: set<nat>, i: nat)
    ensures i in FreePages(n, Remaining(base, n, freed)) <==> i < n && base + PAGE * i in freed
  {
    var live := Remaining(base, n, freed);
    if i in live { assert Owns(live, i, i); }
    if Owned(live, i) { var h :| Owns(live, h, i); }
  }

  /** After boot a page of the zone is free iff it lies in an inward-rounded usable region and outside
      what the kernel keeps. */
  lemma FreeAfterBoot(map_: seq<Region>, zs: seq<PmmZone>, kstart: nat, kend: nat, freed: set<nat>, k: nat, i: nat)
    requires ZonesState(zs, freed) && k < |zs| && i < zs[k].allocator.pageCount
    requires forall x: nat :: x in freed <==> UsablePage(map_, x) && !(kstart <= x < kend)
    ensures var p := zs[k].base + PAGE * i;
            i in zs[k].allocator.FreeSet() <==> UsablePage(map_, p) && !(kstart <= p < kend)
  {
    hide UsablePage, BuddyPmalloc.Valid;
    FreeInRemaining(zs[k].base, zs[k].allocator.pageCount, freed, i);
  }

  /** Every usable page outside the kernel is free in exactly one zone. */
  lemma ExactlyOneZone(map_: seq<Region>, zs: seq<PmmZone>, normalTop: nat, kstart: nat, kend: nat, freed: set<nat>, p: nat) returns (k: nat)
    requires ZonesState(zs, freed) && Tiled(zs, normalTop, RoundDownPage(MaxEnd(map_, |map_|)))
    requires forall x: nat :: x in freed <==> UsablePage(map_, x) && !(kstart <= x < kend)
    requires UsablePage(map_, p) && !(kstart <= p < kend)
    ensures k < |zs| && ZoneHas(zs[k], p) && forall j :: 0 <= j < |zs| && ZoneHas(zs[j], p) ==> j == k
    ensures zs[k].allocator.pageSize == PAGE && zs[k].base <= p
    ensures (p - zs[k].base) / PAGE in zs[k].allocator.FreeSet()
  {
    hide UsablePage, BuddyPmalloc.Valid, MaxEnd, Remaining, FreePages, RoundDownPage;
    UsableBelowTop(map_, p);
    k := if p < zs[1].base then 0 else if p < zs[2].base then 1 else 2;
    assert ZoneState(zs[k], freed);
    var i := PageOfZone(zs[k].base, zs[k].allocator.pageCount, p);
    FreeAfterBoot(map_, zs, kstart, kend, freed, k, i);
  }

  /** The page at `p` belongs to zone `k` and is free there. */
  ghost predicate FreeIn(zs: seq<PmmZone>, k: nat, p: nat)
    requires k < |zs|
    reads zs[k].allocator
  {
    ZoneHas(zs[k], p) && (p - zs[k].base) / PAGE in zs[k].allocator.FreeSet()
  }

  ghost predicate FreeInOneZone(zs: seq<PmmZone>, p: nat)
    reads Footprint(zs)
  {
    exists k: nat :: k < |zs| && FreeIn(zs, k, p) && forall j: nat :: j < |zs| && FreeIn(zs, j, p) ==> j == k
  }

  ghost predicate FreeInNoZone(zs: seq<PmmZone>, p: nat)
    reads Footprint(zs)
  {
    forall k: nat :: k < |zs| ==> !FreeIn(zs, k, p)
  }

  /** After boot: a page is free in exactly one zone if it lies in an inward-rounded usable region and
      outside what the kernel keeps, and in no zone otherwise. */
  lemma FreeExactly(map_: seq<Region>, zs: seq<PmmZone>, normalTop: nat, kstart: nat, kend: nat, freed: set<nat>, p: nat)
    requires ZonesState(zs, freed) && Tiled(zs, normalTop, RoundDownPage(MaxEnd(map_, |map_|)))
    requires forall x: nat :: x in freed <==> UsablePage(map_, x) && !(kstart <= x < kend)
    requires p % PAGE == 0
    ensures if UsablePage(map_, p) && !(kstart <= p < kend) then FreeInOneZone(zs, p) else FreeInNoZone(zs, p)
  {
    hide UsablePage, BuddyPmalloc.Valid, MaxEnd, Remaining, FreePages, RoundDownPage;
    if UsablePage(map_, p) && !(kstart <= p < kend) {
      var k := ExactlyOneZone(map_, zs, normalTop, kstart, kend, freed, p);
      assert FreeIn(zs, k, p);
    } else {
      forall k: nat | k < |zs| ensures !FreeIn(zs, k, p) {
        if ZoneHas(zs[k], p) {
          assert ZoneState(zs[k], freed);
          var i := PageOfZone(zs[k].base, zs[k].allocator.pageCount, p);
          FreeAfterBoot(map_, zs, kstart, kend, freed, k, i);
        }
      }
    }
  }

  lemma PageOfZone(base: nat, n: nat, p: nat) returns (i: nat)
    requires base % PAGE == 0 && p % PAGE == 0 && base <= p < base + PAGE * n
    ensures i == (p - base) / PAGE && i < n && p == base + PAGE * i
  {
    i := (p - base) / PAGE;
  }

  lemma UsableBelowTop(map_: seq<Region>, p: nat)
    requires UsablePage(map_, p)
    ensures p % PAGE == 0 && p < RoundDownPage(MaxEnd(map_, |map_|))
  {
    var i :| 0 <= i < |map_| && Usable(map_[i]) && PageIn(map_[i], p);
    MaxEndCovers(map_, |map_|, i);
    RoundDownMonotone(map_[i].base + map_[i].size, MaxEnd(map_, |map_|));
  }
}
