/** The bridge between physical pages and kernel addresses: pvbridge.c adds and subtracts KOFFSET. */
module Pvbridge {
  import opened Words
  import opened BuddySpec
  import opened BuddyTheorems
  import opened Buddy

  const KOFFSET := 0x8000_0000
  const PAGE := 4096

  /** The pointer `NULL`. */
  const NULL := 0

  /** The zone lies where adding KOFFSET gives a 32-bit address. */
  ghost predicate Window(base: nat, pageCount: nat) {
    base + PAGE * pageCount + KOFFSET <= SIZE_MAX
  }

  /** The physical address behind a pointer; NULL stands for the failure of the page allocator. */
  function PaOf(ptr: nat): nat {
    if ptr == NULL then NO_MEMORY else if ptr < KOFFSET then 0 else ptr - KOFFSET
  }

  /** `va` is the address of page number `PageIndex(base, va)`. */
  ghost predicate OnPage(base: nat, va: int) {
    base + KOFFSET <= va && va == base + PAGE * PageIndex(base, va) + KOFFSET
  }

  ghost function PageIndex(base: nat, va: int): nat {
    if va < base + KOFFSET then 0 else (va - KOFFSET - base) / PAGE
  }

  lemma PageAddress(base: nat, i: nat)
    ensures OnPage(base, base + PAGE * i + KOFFSET) && PageIndex(base, base + PAGE * i + KOFFSET) == i
  {
    DivUnique(PAGE * i, PAGE, i, 0);
  }

  class KoffsetPvbridge {
    const palloc: BuddyPmalloc

    constructor (palloc: BuddyPmalloc)
      ensures this.palloc == palloc
    {
      this.palloc := palloc;
    }

    ghost predicate Valid()
      reads palloc, palloc.pages, palloc.mem
    {
      palloc.Valid() && palloc.pageSize == PAGE && Window(palloc.base, palloc.pageCount)
    }

    /** Sizes are `lsize_t`; the callers of the kernel pass a `size_t`. */
    method Malloc(size: nat) returns (ptr: nat)
      requires Valid() && size < ADDR_MAX && PageCnt(size, PAGE) <= MAX_PAGES
      modifies palloc, palloc.pages, palloc.mem
      ensures Valid()
      ensures MallocSpec(palloc.pageCount, palloc.base, PAGE, old(palloc.live), old(palloc.lists), size, PaOf(ptr), palloc.live)
      ensures ptr != NULL ==> KOFFSET <= ptr < SIZE_MAX
    {
      hide MallocSpec, IsPowOf2, And, Geometry, FreePages, Rep, PageCnt, LeastBlock, GivenOut, HasRun, MallocLists;
      var pa := palloc.Malloc(size);
      if pa == NO_MEMORY {
        return NULL;
      }
      InWindow(palloc.pageCount, palloc.base, old(palloc.live), old(palloc.lists), size, pa, palloc.live);
      ptr := (pa + KOFFSET) % SIZE_MAX;
    }

    method AlignedMalloc(size: nat, align: nat) returns (panicked: bool, ptr: nat)
      requires Valid() && size < SIZE_MAX && align < SIZE_MAX
      modifies palloc, palloc.pages, palloc.mem
      ensures Valid()
      ensures panicked <==> !(IsPowOf2(align) && And(palloc.base, align - 1) == 0)
      ensures panicked ==> palloc.live == old(palloc.live)
      ensures !panicked ==> MallocSpec(palloc.pageCount, palloc.base, PAGE, old(palloc.live), old(palloc.lists),
                                       Max(size, align), PaOf(ptr), palloc.live)
      ensures ptr != NULL ==> KOFFSET <= ptr < SIZE_MAX
      ensures var want := if align > size then align else size;
              ptr != NULL ==> OnPage(palloc.base, ptr)
                              && GivenOut(PAGE, old(palloc.live), old(palloc.lists), want, PageIndex(palloc.base, ptr), palloc.live)
    {
      hide OnPage, PageIndex;
      hide MallocSpec, IsPowOf2, And, Geometry, FreePages, Rep, LeastBlock, GivenOut, HasRun, MallocLists, AlignmentKept, PageCnt;
      var pa;
      CountBounded(Max(size, align));
      panicked, pa := palloc.AlignedMalloc(size, align);
      if panicked || pa == NO_MEMORY {
        return panicked, NULL;
      }
      InWindow(palloc.pageCount, palloc.base, old(palloc.live), old(palloc.lists), Max(size, align), pa, palloc.live);
      ptr := (pa + KOFFSET) % SIZE_MAX;
      NewLivePage(palloc.pageCount, palloc.base, old(palloc.live), old(palloc.lists), Max(size, align), ptr, palloc.live);
    }

    method Free(ptr: nat)
      requires Valid() && ptr < SIZE_MAX && (ptr != NULL ==> KOFFSET <= ptr && palloc.IsLive(PaOf(ptr)))
      modifies palloc, palloc.pages, palloc.mem
      ensures Valid()
      ensures ptr == NULL ==> palloc.live == old(palloc.live)
      ensures ptr != NULL ==> palloc.live == old(palloc.live) - {palloc.IndexOf(PaOf(ptr))}
    {
      hide BuddyPmalloc.Valid;
      if ptr == NULL {
        return;
      }
      var pa := (ptr + SIZE_MAX - KOFFSET) % SIZE_MAX;
      palloc.Free(pa);
    }
  }

  lemma CountBounded(size: nat)
    requires size < SIZE_MAX
    ensures size < ADDR_MAX && PageCnt(size, PAGE) <= MAX_PAGES && size <= PAGE * (SIZE_MAX - 1)
  {
  }

  lemma InWindow(n: nat, base: nat, live: LiveMap, lists: seq<seq<int>>, size: nat, addr: nat, live': LiveMap)
    requires MallocSpec(n, base, PAGE, live, lists, size, addr, live') && addr != NO_MEMORY && Window(base, n)
    ensures addr + KOFFSET < SIZE_MAX
  {
  }

  lemma PageAligned(base: nat, va: int)
    requires base % PAGE == 0 && OnPage(base, va)
    ensures 0 <= va && Aligned(va, 12)
  {
    assert va % PAGE == 0;
    ShrIsDiv(va, 12);
    assert Pow2(12) == PAGE;
  }

  /** A successful request of the slub allocator: the pointer is that of a page that was not live and
      is now the head of a live block large enough. */
  lemma NewLivePage(n: nat, base: nat, live: LiveMap, lists: seq<seq<int>>, size: nat, ptr: nat, live': LiveMap)
    requires MallocSpec(n, base, PAGE, live, lists, size, PaOf(ptr), live')
    requires ptr != NULL && KOFFSET <= ptr < SIZE_MAX && size <= PAGE * (SIZE_MAX - 1)
    ensures OnPage(base, ptr)
    ensures var i := PageIndex(base, ptr);
            && i < n && i !in live && i in live' && live' == live[i := live'[i]]
            && size <= PAGE * Pow2(live'[i].order)
            && live'[i].order == OrderFrom(PageCnt(size, PAGE), 0) && live'[i].bytes == size
            && GivenOut(PAGE, live, lists, size, i, live')
  {
    hide GivenOut;
    MallocGives(n, base, PAGE, live, lists, size, PaOf(ptr), live');
    var cnt := PageCnt(size, PAGE);
    var t := OrderFrom(cnt, 0);
    var i := lists[BestFit(lists, t)][0];
    PageAddress(base, i);
    CountIsEnough(size, PAGE);
    OrderFits(cnt, 0);
    MulMonotone(PAGE, cnt, Pow2(t));
  }
}
