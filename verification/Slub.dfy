/** The slub object allocator of kern/mm/vmm/slub.c, on top of the buddy allocator. */
module Slub {
  import opened Words
  import opened ListHead
  import opened BuddySpec
  import opened BuddyTheorems
  import opened Buddy
  import opened Pvbridge
  import opened SlubSpec

  /** The blocks and the large objects are, each, a live block of the page allocator. */
  ghost predicate Backed(live: LiveMap, base: nat, level: map<int, nat>, large: map<int, nat>) {
    && (forall b | b in level :: OnPage(base, b) && PageIndex(base, b) in live && live[PageIndex(base, b)].order == 0)
    && (forall p | p in large :: OnPage(base, p) && PageIndex(base, p) in live
                                 && large[p] <= PAGE * Pow2(live[PageIndex(base, p)].order))
    && level.Keys !! large.Keys
  }

  /** The pages behind the slub allocator. */
  ghost function Held(base: nat, level: map<int, nat>, large: map<int, nat>): set<nat> {
    set p | p in level.Keys + large.Keys :: PageIndex(base, p)
  }

  /** The live blocks of the page allocator that are not the slub allocator's. */
  ghost function Others(live: LiveMap, base: nat, level: map<int, nat>, large: map<int, nat>): LiveMap {
    live - Held(base, level, large)
  }

  ghost predicate Object(s: Slab, large: map<int, nat>, p: int) {
    p in s.small || p in large
  }

  ghost function SizeOf(s: Slab, large: map<int, nat>, p: int): nat
    requires Object(s, large, p)
  {
    if p in large then large[p] else s.small[p]
  }

  // ---------------------------------------------------------------- whole-stack safety

  lemma PageOrder(base: nat, n: nat, live: LiveMap, p: int, q: int)
    requires LiveOk(n, live) && OnPage(base, p) && OnPage(base, q) && p < q
    requires PageIndex(base, p) in live && PageIndex(base, q) in live
    ensures p + PAGE * Pow2(live[PageIndex(base, p)].order) <= q && p + PAGE <= q
  {
    hide LiveOk, Pow2;
    var i, j := PageIndex(base, p), PageIndex(base, q);
    LiveBlocksApart(n, live, i, j);
    MulMonotone(PAGE, i + Pow2(live[i].order), j);
  }

  /** Two live objects, of either kind, occupy disjoint byte ranges of the sizes asked for. */
  lemma ObjectsApart(s: Slab, place: map<int, bool>, live: LiveMap, base: nat, n: nat, large: map<int, nat>, p: int, q: int)
    requires Core(s, place) && LiveOk(n, live) && Backed(live, base, s.level, large)
    requires Object(s, large, p) && Object(s, large, q) && p < q
    ensures p + SizeOf(s, large, p) <= q
  {
    hide Core, LiveOk, OnPage, PageIndex, Pow2, Down;
    if p in large && q in large {
      PageOrder(base, n, live, p, q);
    } else if p in large {
      SmallObjectInBlock(s, place, q);
      var b := BlockOf(q);
      if b < p { PageOrder(base, n, live, b, p); assert false; }
      PageOrder(base, n, live, p, b);
    } else if q in large {
      SmallObjectInBlock(s, place, p);
      var b := BlockOf(p);
      if q < b { PageOrder(base, n, live, q, b); assert false; }
      PageOrder(base, n, live, b, q);
    } else {
      SmallObjectsApart(s, place, p, q);
    }
  }

  /** A large object shares no byte with any block: not with its header, its list node or its slots. */
  lemma LargeClearOfBlock(live: LiveMap, base: nat, n: nat, level: map<int, nat>, large: map<int, nat>, p: int, b: int)
    requires LiveOk(n, live) && Backed(live, base, level, large) && p in large && b in level
    ensures p + large[p] <= b || b + BLOCK <= p
  {
    hide LiveOk, OnPage, PageIndex, Pow2;
    if p < b { PageOrder(base, n, live, p, b); } else { PageOrder(base, n, live, b, p); }
  }

  /** An object and a block share no byte, or the object is in a slot of the block. */
  lemma ClearOfBlock(s: Slab, place: map<int, bool>, live: LiveMap, base: nat, n: nat, large: map<int, nat>, p: int, b: int)
    requires Core(s, place) && LiveOk(n, live) && Backed(live, base, s.level, large)
    requires Object(s, large, p) && b in s.level
    ensures p + SizeOf(s, large, p) <= b || b + BLOCK <= p || (p in s.small && p !in large && 0 <= p && BlockOf(p) == b && b + 32 <= p)
  {
    if p in large {
      LargeClearOfBlock(live, base, n, s.level, large, p, b);
    } else {
      SmallObjectInBlock(s, place, p);
      assert SmallOk(s, p);
      var c := BlockOf(p);
      BlockFacts(s, place, c);
      SlotInBlock(c, s.level[c], p);
      hide Core, LiveOk, OnPage, PageIndex, Pow2, Down, SmallOk;
      if c < b { PageOrder(base, n, live, c, b); }
      if b < c { PageOrder(base, n, live, b, c); }
    }
  }

  lemma ForeignIs(live: LiveMap, base: nat, level: map<int, nat>, large: map<int, nat>, i: nat)
    requires i in Others(live, base, level, large)
    ensures i in live && Others(live, base, level, large)[i] == live[i] && i !in Held(base, level, large)
  {
  }

  lemma HeldPageClear(live: LiveMap, base: nat, n: nat, level: map<int, nat>, large: map<int, nat>, b: int, i: nat)
    requires LiveOk(n, live) && OnPage(base, b) && PageIndex(base, b) in live && i in live
    requires PageIndex(base, b) in Held(base, level, large) && i !in Held(base, level, large)
    ensures var a := base + PAGE * i + KOFFSET;
            b + PAGE * Pow2(live[PageIndex(base, b)].order) <= a || a + PAGE * Pow2(live[i].order) <= b
    ensures var a := base + PAGE * i + KOFFSET; b < a ==> b + PAGE <= a
  {
    PageAddress(base, i);
    var a := base + PAGE * i + KOFFSET;
    hide LiveOk, OnPage, PageIndex, Pow2, Held;
    if b < a { PageOrder(base, n, live, b, a); } else { PageOrder(base, n, live, a, b); }
  }

  /** The pages that others hold share no byte with any object. */
  lemma ClearOfForeign(s: Slab, place: map<int, bool>, live: LiveMap, base: nat, n: nat, large: map<int, nat>, p: int, i: nat)
    requires Core(s, place) && LiveOk(n, live) && Backed(live, base, s.level, large)
    requires Object(s, large, p) && i in Others(live, base, s.level, large)
    ensures var a := base + PAGE * i + KOFFSET;
            p + SizeOf(s, large, p) <= a || a + PAGE * Pow2(Others(live, base, s.level, large)[i].order) <= p
  {
    hide Core, LiveOk, OnPage, PageIndex, Pow2, Held, Down, Others;
    ForeignIs(live, base, s.level, large, i);
    if p in large {
      HeldIs(base, s.level, large, p);
      HeldPageClear(live, base, n, s.level, large, p, i);
    } else {
      SmallObjectInBlock(s, place, p);
      HeldIs(base, s.level, large, BlockOf(p));
      HeldPageClear(live, base, n, s.level, large, BlockOf(p), i);
    }
  }

  lemma HeldIs(base: nat, level: map<int, nat>, large: map<int, nat>, b: int)
    requires b in level || b in large
    ensures PageIndex(base, b) in Held(base, level, large)
  {
    assert b in level.Keys + large.Keys;
  }

  /** A live pointer is aligned to the block size iff it came from the large-object path. */
  lemma DispatchExact(s: Slab, place: map<int, bool>, live: LiveMap, base: nat, large: map<int, nat>, p: int)
    requires Core(s, place) && Backed(live, base, s.level, large) && base % PAGE == 0
    requires Object(s, large, p)
    ensures 0 <= p && (And(p, PAGE - 1) == 0 <==> p in large) && (p in large ==> p !in s.small)
  {
    if p in large { PageAligned(base, p); }
    if p in s.small { SmallObjectInBlock(s, place, p); }
    AndMaskIsOffset(p, 12);
    Constants();
  }

  // ---------------------------------------------------------------- steps of the methods

  lemma LevelOf(size: nat)
    ensures var level := OrderFrom(size, MIN_LEVEL);
            && MIN_LEVEL <= level && size <= Pow2(level) && (level <= MAX_LEVEL <==> size <= 1024)
            && (level > MIN_LEVEL ==> Pow2(level - 1) < size)
  {
    OrderFits(size, MIN_LEVEL);
    Constants();
    var level := OrderFrom(size, MIN_LEVEL);
    if level <= MAX_LEVEL { Pow2Grows(level, MAX_LEVEL); } else { Pow2Grows(MAX_LEVEL, level - 1); }
  }

  /** The list that `malloc` looks at first. */
  lemma AvailHead(s: Slab, level: nat)
    requires Inv(s) && GoodLevel(level)
    ensures var h := BlockList(false, level - MIN_LEVEL);
            && h in s.rings && h in s.links.next
            && (s.links.next[h] == h <==> s.rings[h] == [])
            && (s.rings[h] != [] ==>
                  var b := s.rings[h][0];
                  s.links.next[h] == b && b in s.level && s.level[b] == level
                  && b + FREE_LIST in s.rings && s.rings[b + FREE_LIST] != [])
  {
    var h := BlockList(false, level - MIN_LEVEL);
    HeadLinked(s.links, h, s.rings[h]);
    if s.rings[h] != [] { assert s.rings[h][0] in s.rings[h]; }
  }

  lemma NoAvailBlock(s: Slab, level: nat)
    requires Inv(s) && GoodLevel(level) && BlockList(false, level - MIN_LEVEL) in s.rings
    ensures s.rings[BlockList(false, level - MIN_LEVEL)] == [] <==> !HasSlot(s, level)
  {
    hide Family, Slots, Smalls, Down, Heads;
    var h, place := BlockList(false, level - MIN_LEVEL), ProperPlace(s);
    forall b ensures b in s.rings[h] <==> b in s.level && s.level[b] == level && s.rings[b + FREE_LIST] != [] { }
    if s.rings[h] != [] { assert s.rings[h][0] in s.rings[h]; }
  }

  lemma BackedBlock(live: LiveMap, live': LiveMap, base: nat, level: map<int, nat>, large: map<int, nat>, b: int, l: nat)
    requires Backed(live, base, level, large) && OnPage(base, b)
    requires var i := PageIndex(base, b); i !in live && i in live' && live' == live[i := live'[i]] && live'[i].order == 0
    ensures Backed(live', base, level[b := l], large) && b !in level && b !in large
    ensures Others(live', base, level[b := l], large) == Others(live, base, level, large)
  {
    hide OnPage, PageIndex;
    assert b !in level && b !in large;
    var i := PageIndex(base, b);
    var before, after := Held(base, level, large), Held(base, level[b := l], large);
    assert (level[b := l]).Keys + large.Keys == (level.Keys + large.Keys) + {b};
    assert after == before + {i} by {
      forall j ensures j in after <==> j in before || j == i {
        if j in before { var p :| p in level.Keys + large.Keys && PageIndex(base, p) == j; assert p in level[b := l].Keys + large.Keys; }
        assert b in level[b := l].Keys + large.Keys;
      }
    }
  }

  lemma BackedLarge(live: LiveMap, live': LiveMap, base: nat, level: map<int, nat>, large: map<int, nat>, p: int, size: nat)
    requires Backed(live, base, level, large) && OnPage(base, p)
    requires var i := PageIndex(base, p); i !in live && i in live' && live' == live[i := live'[i]] && size <= PAGE * Pow2(live'[i].order)
    ensures Backed(live', base, level, large[p := size]) && p !in level && p !in large
    ensures Others(live', base, level, large[p := size]) == Others(live, base, level, large)
  {
    hide OnPage, PageIndex, Pow2;
    assert p !in level && p !in large;
    var i := PageIndex(base, p);
    var before, after := Held(base, level, large), Held(base, level, large[p := size]);
    assert after == before + {i} by {
      forall j ensures j in after <==> j in before || j == i {
        if j in before { var q :| q in level.Keys + large.Keys && PageIndex(base, q) == j; assert q in level.Keys + large[p := size].Keys; }
        assert p in level.Keys + large[p := size].Keys;
      }
    }
  }

  lemma SamePage(base: nat, p: int, q: int)
    requires OnPage(base, p) && OnPage(base, q) && PageIndex(base, p) == PageIndex(base, q)
    ensures p == q
  {
  }

  lemma BackedWithout(live: LiveMap, base: nat, level: map<int, nat>, large: map<int, nat>, p: int)
    requires Backed(live, base, level, large) && p in large
    ensures var i := PageIndex(base, p);
            && OnPage(base, p) && i in live && Backed(live - {i}, base, level, large - {p})
            && Others(live - {i}, base, level, large - {p}) == Others(live, base, level, large)
  {
    hide PageIndex, OnPage, Pow2;
    var i := PageIndex(base, p);
    forall q | (q in level || q in large) && q != p ensures PageIndex(base, q) != i {
      if PageIndex(base, q) == i { SamePage(base, p, q); assert false; }
    }
    var before, after := Held(base, level, large), Held(base, level, large - {p});
    assert before == after + {i} by {
      forall j ensures j in before <==> j in after || j == i {
        if j in before && j != i { var q :| q in level.Keys + large.Keys && PageIndex(base, q) == j; assert q in level.Keys + (large - {p}).Keys; }
        if j in after { var q :| q in level.Keys + (large - {p}).Keys && PageIndex(base, q) == j; assert q in level.Keys + large.Keys; }
        assert p in level.Keys + large.Keys;
      }
    }
  }

  /** The small objects are those of `before` and the slots of the block from number `i` on. */
  ghost predicate UnlinkedFrom(before: map<int, nat>, small: map<int, nat>, b: nat, l: nat, i: nat) {
    && (forall x :: x in small <==> x in before || (IsSlot(b, l, x) && SlotAt(b, l, i) <= x))
    && (forall x :: x in before ==> small[x] == before[x] && !IsSlot(b, l, x))
  }

  lemma InSlotMap(b: nat, l: nat, x: int)
    ensures x in SlotMap(b, l) <==> IsSlot(b, l, x)
  {
  }

  lemma NotYetSlot(s: SlubSpec.Slab, place: map<int, bool>, b: nat, l: nat, x: int)
    requires Core(s, place) && Aligned(b, 12) && b !in s.level && GoodLevel(l) && x in s.small
    ensures !IsSlot(b, l, x)
  {
    assert SmallOk(s, x);
    hide Core, Down, IsSlot;
    if IsSlot(b, l, x) { SlotInBlock(b, l, x); assert false; }
  }

  lemma StartSlots(s: SlubSpec.Slab, place: map<int, bool>, small: map<int, nat>, b: nat, l: nat)
    requires Core(s, place) && Aligned(b, 12) && b !in s.level && GoodLevel(l) && small == s.small + SlotMap(b, l)
    ensures UnlinkedFrom(s.small, small, b, l, 0)
  {
    hide Core, Down, Pow2, SlotMap, SlotsOffset;
    assert SlotAt(b, l, 0) == b + SlotsOffset(l);
    forall x ensures x in small <==> x in s.small || (IsSlot(b, l, x) && SlotAt(b, l, 0) <= x) {
      InSlotMap(b, l, x);
    }
    forall x | x in s.small ensures small[x] == s.small[x] && !IsSlot(b, l, x) {
      InSlotMap(b, l, x);
      NotYetSlot(s, place, b, l, x);
    }
  }

  lemma NextSlot(before: map<int, nat>, small: map<int, nat>, b: nat, l: nat, i: nat)
    requires GoodLevel(l) && Aligned(b, 12) && i < MaxSlots(l) && UnlinkedFrom(before, small, b, l, i)
    ensures var x := SlotAt(b, l, i);
            x in small && BlockOf(x) == b && UnlinkedFrom(before, small - {x}, b, l, i + 1)
  {
    SlotAtIsSlot(b, l, i);
    var x := SlotAt(b, l, i);
    SlotInBlock(b, l, x);
    hide Down, Or, Shr, Pow2, SlotAt, SlotsOffset;
    forall y | IsSlot(b, l, y) && SlotAt(b, l, i) <= y && y != x ensures SlotAt(b, l, i + 1) <= y {
      AlignedStep(x, y, l);
    }
    assert SlotAt(b, l, i) < SlotAt(b, l, i + 1);
  }

  lemma AllLinked(before: map<int, nat>, small: map<int, nat>, b: nat, l: nat)
    requires GoodLevel(l) && UnlinkedFrom(before, small, b, l, MaxSlots(l))
    ensures small == before
  {
    SlotsFillBlock(l);
    hide Down, Or, Shr, Pow2, SlotsOffset, MaxSlots;
    assert SlotAt(b, l, MaxSlots(l)) == b + BLOCK;
    forall x ensures x in small <==> x in before { }
    assert small.Keys == before.Keys;
    assert forall x | x in small :: small[x] == before[x];
  }

  ghost predicate HeadsUpTo(links: Links, rings: map<int, seq<int>>, n: nat) {
    && Family(links, rings)
    && (forall h :: h in rings <==> -8 - n < h <= -8 || -1 - n < h <= -1)
    && (forall h | h in rings :: rings[h] == [])
  }

  lemma NextHeads(links: Links, rings: map<int, seq<int>>, i: nat)
    requires HeadsUpTo(links, rings, i) && i < LEVELS
    ensures HeadsUpTo(Initialised(Initialised(links, BlockList(false, i)), BlockList(true, i)),
                      rings[BlockList(false, i) := []][BlockList(true, i) := []], i + 1)
  {
    hide Ring, Initialised;
    FamilyInit(links, rings, BlockList(false, i));
    FamilyInit(Initialised(links, BlockList(false, i)), rings[BlockList(false, i) := []], BlockList(true, i));
  }

  lemma NoHeads(links: Links)
    ensures HeadsUpTo(links, map[], 0)
  {
  }

  lemma NoneBacked(live: LiveMap, base: nat)
    ensures Backed(live, base, map[], map[])
  {
  }

  lemma NoBlocks(s: Slab)
    requires HeadsUpTo(s.links, s.rings, LEVELS) && s.level == map[] && s.small == map[]
    ensures Inv(s)
  {
  }

  // ---------------------------------------------------------------- the allocator

  class SlubVmalloc {
    const pvbridge: KoffsetPvbridge
    const mem: ListMem
    var levelIdx: map<int, nat>
    ghost var rings: map<int, seq<int>>
    ghost var level: map<int, nat>
    ghost var small: map<int, nat>
    ghost var large: map<int, nat>

    constructor (pvbridge: KoffsetPvbridge)
      requires pvbridge.Valid() && pvbridge.palloc.base % PAGE == 0
      ensures Valid() && fresh(mem) && this.pvbridge == pvbridge
      ensures small == map[] && large == map[] && level == map[]
    {
      hide Geometry, FreePages, Rep, Waste, Inv, HeadsUpTo, Backed, Initialised;
      this.pvbridge := pvbridge;
      mem := new ListMem();
      levelIdx, rings, level, small, large := map[], map[], map[], map[], map[];
      new;
      NoHeads(mem.links);
      for i := 0 to LEVELS
        modifies mem, this`rings
        invariant HeadsUpTo(mem.links, rings, i)
      {
        NextHeads(mem.links, rings, i);
        mem.InitListHead(BlockList(false, i));
        mem.InitListHead(BlockList(true, i));
        rings := rings[BlockList(false, i) := []][BlockList(true, i) := []];
      }
      NoBlocks(Slab());
      NoneBacked(pvbridge.palloc.live, pvbridge.palloc.base);
    }

    ghost function Slab(): SlubSpec.Slab
      reads this, mem
    {
      SlubSpec.Slab(mem.links, levelIdx, rings, level, small)
    }

    ghost predicate Linked()
      reads this, pvbridge, pvbridge.palloc, pvbridge.palloc.pages, pvbridge.palloc.mem
    {
      && pvbridge.Valid() && pvbridge.palloc.base % PAGE == 0
      && mem != pvbridge.palloc.mem
      && Backed(pvbridge.palloc.live, pvbridge.palloc.base, level, large)
    }

    ghost predicate Valid()
      reads this, mem, pvbridge, pvbridge.palloc, pvbridge.palloc.pages, pvbridge.palloc.mem
    {
      Linked() && Inv(Slab())
    }

    /** The live blocks of the page allocator that belong to somebody else. */
    ghost function Foreign(): LiveMap
      reads this, pvbridge, pvbridge.palloc
    {
      Others(pvbridge.palloc.live, pvbridge.palloc.base, level, large)
    }

    /** A page of its own for a new block: the first half of `alloc_slub`. */
    method NewPage() returns (b: nat)
      requires Linked()
      modifies pvbridge.palloc, pvbridge.palloc.pages, pvbridge.palloc.mem
      ensures pvbridge.Valid()
      ensures b == NULL ==> pvbridge.palloc.live == old(pvbridge.palloc.live)
      ensures b == NULL <==> !HasRun(old(pvbridge.palloc.FreeSet()), 0)
      ensures b != NULL ==> OnPage(pvbridge.palloc.base, b) && Aligned(b, 12)
      ensures b != NULL ==>
                var i, live, live' := PageIndex(pvbridge.palloc.base, b), old(pvbridge.palloc.live), pvbridge.palloc.live;
                i !in live && i in live' && live' == live[i := live'[i]] && live'[i].order == 0
      ensures b != NULL ==> GivenOut(PAGE, old(pvbridge.palloc.live), old(pvbridge.palloc.lists), BLOCK,
                                     PageIndex(pvbridge.palloc.base, b), pvbridge.palloc.live)
    {
      hide MallocSpec, IsPowOf2, And, Geometry, FreePages, Rep, PageCnt, OrderFrom, Backed, OnPage, PageIndex, GivenOut;
      BlockAlignment(pvbridge.palloc.base);
      var panicked;
      panicked, b := pvbridge.AlignedMalloc(BLOCK, BLOCK);
      OnePage();
      if b != NULL {
        NewLivePage(pvbridge.palloc.pageCount, pvbridge.palloc.base, old(pvbridge.palloc.live), old(pvbridge.palloc.lists),
                    BLOCK, b, pvbridge.palloc.live);
        PageAligned(pvbridge.palloc.base, b);
      }
      WhenNull(pvbridge.palloc.pageCount, pvbridge.palloc.base, old(pvbridge.palloc.live), old(pvbridge.palloc.lists),
               BLOCK, b, pvbridge.palloc.live);
    }

    /** The least level from MIN_SLUB_LEVEL on whose slots hold `size` bytes. */
    method LevelFor(size: nat) returns (l: nat)
      ensures l == OrderFrom(size, MIN_LEVEL)
    {
      l := MIN_LEVEL;
      while Pow2(l) < size
        invariant OrderFrom(size, l) == OrderFrom(size, MIN_LEVEL)
        decreases size - Pow2(l)
      {
        l := l + 1;
      }
    }

    /** A new block on the avail list of its level. */
    method Refill(l: nat) returns (ok: bool)
      requires Valid() && GoodLevel(l)
      modifies this`levelIdx, this`rings, this`level, this`small, mem
      modifies pvbridge.palloc, pvbridge.palloc.pages, pvbridge.palloc.mem
      ensures Valid() && Foreign() == old(Foreign()) && small == old(small)
      ensures ok <==> HasRun(old(pvbridge.palloc.FreeSet()), 0)
      ensures !ok ==> level == old(level) && pvbridge.palloc.live == old(pvbridge.palloc.live)
      ensures ok ==> BlockList(false, l - MIN_LEVEL) in rings && rings[BlockList(false, l - MIN_LEVEL)] != []
      ensures ok ==> var b := rings[BlockList(false, l - MIN_LEVEL)][0]; b !in old(level) && level == old(level)[b := l]
      ensures ok ==> GivenOut(PAGE, old(pvbridge.palloc.live), old(pvbridge.palloc.lists), BLOCK,
                              PageIndex(pvbridge.palloc.base, rings[BlockList(false, l - MIN_LEVEL)][0]), pvbridge.palloc.live)
      ensures ok ==> FirstSlot(Slab(), l) == SlotAt(rings[BlockList(false, l - MIN_LEVEL)][0], l, LastSlot(l))
    {
      hide Down, Backed, OnPage, PageIndex, KoffsetPvbridge.Valid, Others, Inv, FreePages, SlotAt, LastSlot, FirstSlot, GivenOut;
      var b := NewPage();
      if b == NULL {
        return false;
      }
      ok := true;
      BackedBlock(old(pvbridge.palloc.live), pvbridge.palloc.live, pvbridge.palloc.base, level, large, b, l);
      AddBlock(b, l);
    }

    /** A new block is set up and put in front of the avail list of its level. */
    method AddBlock(b: nat, l: nat)
      requires Inv(Slab()) && Aligned(b, 12) && b !in level && GoodLevel(l)
      modifies this`levelIdx, this`rings, this`level, this`small, mem
      ensures Inv(Slab()) && small == old(small) && level == old(level)[b := l]
      ensures var h := BlockList(false, l - MIN_LEVEL);
              h in old(rings) && h in rings && rings[h] == [b] + old(rings)[h]
      ensures FirstSlot(Slab(), l) == SlotAt(b, l, LastSlot(l))
    {
      hide Core, SlubSpec.Blocks, ProperPlace, Family, Down, Inv, Initialised, Added, IsSlot, Pow2, SlotAt, LastSlot, MaxSlots, SlotsOffset;
      ghost var s, place := Slab(), ProperPlace(Slab());
      InvPlace(s);
      AvailHead(s, l);
      InitBlock(b, l);
      Link(b, l - MIN_LEVEL, false, place);
      BackInPlace(s, Slab(), place[b := false], b);
    }

    /** The front of the free list of a block; there is one. */
    method MallocFromSlub(slub: nat, size: nat) returns (ptr: nat)
      requires Inv(Slab()) && slub in level && size <= Pow2(level[slub])
      requires slub + FREE_LIST in rings && rings[slub + FREE_LIST] != []
      modifies this`rings, this`small, mem
      ensures Core(Slab(), ProperPlace(old(Slab()))) && ptr !in old(small) && small == old(small)[ptr := size]
      ensures BlockOf(ptr) == slub
      ensures ptr == old(rings)[slub + FREE_LIST][0] && rings == old(rings)[slub + FREE_LIST := old(rings)[slub + FREE_LIST][1..]]
    {
      hide Core, SlubSpec.Blocks, ProperPlace, Down, Deleted, Without, IsSlot, Pow2, Ring;
      ghost var s, place := Slab(), ProperPlace(Slab());
      PopSlot(s, place, slub, size);
      FreeListHead(s, place, slub);
      assert !mem.ListEmpty(slub + FREE_LIST);
      WithoutFirst(rings[slub + FREE_LIST]);
      ptr := mem.links.next[slub + FREE_LIST];
      mem.ListDel(ptr);
      rings := rings[slub + FREE_LIST := Without(rings[slub + FREE_LIST], 0)];
      small := small[ptr := size];
    }

    /** A slot of the first block of an avail list, which moves to the full list when that was its last
        free slot. */
    method TakeSlot(l: nat, size: nat) returns (ptr: nat)
      requires Valid() && GoodLevel(l) && size <= Pow2(l)
      requires BlockList(false, l - MIN_LEVEL) in rings && rings[BlockList(false, l - MIN_LEVEL)] != []
      modifies this`rings, this`small, mem
      ensures Valid() && ptr != NULL && ptr !in old(small) && ptr !in large && small == old(small)[ptr := size]
      ensures BlockOf(ptr) == old(rings)[BlockList(false, l - MIN_LEVEL)][0] && ptr == FirstSlot(old(Slab()), l)
      ensures BlockOf(ptr) in level && level[BlockOf(ptr)] == l
      ensures var h := BlockOf(ptr) + FREE_LIST;
              h in old(rings) && old(rings)[h] != [] &&
              var taken := old(rings)[h := old(rings)[h][1..]];
              rings == if taken[h] == [] then MovedRings(taken, BlockOf(ptr), l - MIN_LEVEL, false) else taken
    {
      hide Core, SlubSpec.Blocks, ProperPlace, Down, Backed, OnPage, PageIndex, Inv, IsSlot, Pow2, KoffsetPvbridge.Valid, Ring, MovedRings;
      ghost var s := Slab();
      AvailHead(s, l);
      InvPlace(s);
      ghost var place := ProperPlace(s);
      var slub := mem.links.next[BlockList(false, l - MIN_LEVEL)];
      ptr := MallocFromSlub(slub, size);
      FreeListHead(Slab(), place, slub);
      SmallNotLarge(Slab(), place, pvbridge.palloc.live, pvbridge.palloc.base, large, ptr);
      if mem.ListEmpty(slub + FREE_LIST) {
        MoveBlock(slub, false, place, s);
      } else {
        BackInPlace(s, Slab(), place, slub);
      }
    }

    /** `list_del` and `list_add` of a block, from the one list of its level to the other. */
    method MoveBlock(b: nat, full: bool, ghost place: map<int, bool>, ghost s: SlubSpec.Slab)
      requires b in level && GoodLevel(level[b])
      requires Core(Slab(), place) && b in place && place[b] == full
      requires Inv(s) && place == ProperPlace(s) && level == s.level
      requires b + FREE_LIST in rings && (rings[b + FREE_LIST] == [] <==> !full)
      requires OthersKept(s.rings, rings, level, b)
      modifies this`rings, mem
      ensures Inv(Slab()) && rings == MovedRings(old(rings), b, level[b] - MIN_LEVEL, full)
      ensures forall h | h in old(rings) && 0 <= h :: h in rings && rings[h] == old(rings)[h]
    {
      hide Core, SlubSpec.Blocks, ProperPlace, Down, Inv, Pow2, MovedRings, OthersKept, Removed;
      InvPlace(s);
      HasFreeLists(Slab(), place);
      FieldLevel(Slab(), place, b);
      HasBlockLists(Slab(), place, level[b]);
      MovedIs(rings, b, level[b] - MIN_LEVEL, full);
      Unlink(b, place);
      Link(b, levelIdx[b + LEVEL_IDX], !full, place - {b});
      assert (place - {b})[b := !full] == place[b := !full];
      KeptStill(s.rings, old(rings), rings, level, b);
      BackInPlace(s, Slab(), place[b := !full], b);
    }

    /** `list_del` of a block: it is on neither list. */
    method Unlink(b: nat, ghost place: map<int, bool>)
      requires Core(Slab(), place) && b in place
      modifies this`rings, mem
      ensures Core(Slab(), place - {b})
      ensures b in level && MIN_LEVEL <= level[b]
      ensures var h := BlockList(place[b], level[b] - MIN_LEVEL);
              h in old(rings) && rings == old(rings)[h := Removed(old(rings)[h], b)]
    {
      hide Core, Deleted, Without;
      ghost var k := UnlinkBlock(Slab(), place, b);
      ghost var h := LevelList(Slab(), b, place[b]);
      RingOnce(Slab(), place, h);
      RemovedIs(rings[h], k);
      mem.ListDel(b);
      rings := rings[h := Without(rings[h], k)];
    }

    /** `list_add` of a block: it is in front of that list of its level. */
    method Link(b: nat, levelIndex: nat, full: bool, ghost place: map<int, bool>)
      requires Core(Slab(), place) && b in level && b !in place && level[b] == levelIndex + MIN_LEVEL
      modifies this`rings, mem
      ensures Core(Slab(), place[b := full])
      ensures var h := BlockList(full, levelIndex);
              h in old(rings) && rings == old(rings)[h := [b] + old(rings)[h]]
    {
      hide Core, Added;
      LinkBlock(Slab(), place, b, full);
      mem.ListAdd(b, BlockList(full, levelIndex));
      ghost var h := BlockList(full, levelIndex);
      rings := rings[h := [b] + rings[h]];
    }

    /** The header and the slots of a new block: the second half of `alloc_slub`. */
    method InitBlock(b: nat, l: nat)
      requires Inv(Slab()) && Aligned(b, 12) && b !in level && GoodLevel(l)
      modifies this`levelIdx, this`rings, this`level, this`small, mem
      ensures Core(Slab(), ProperPlace(old(Slab())))
      ensures level == old(level)[b := l] && small == old(small)
      ensures b + FREE_LIST in rings && rings[b + FREE_LIST] != []
      ensures rings[b + FREE_LIST][0] == SlotAt(b, l, LastSlot(l))
      ensures forall h | h in old(rings) :: h in rings && rings[h] == old(rings)[h]
    {
      hide Core, Initialised, Down, IsSlot, ProperPlace, UnlinkedFrom, SlotMap, SlotAt, LastSlot, SlubSpec.Blocks;
      ghost var s, place := Slab(), ProperPlace(Slab());
      NewBlock(s, place, b, l);
      FreeListUnused(s, place, b);
      levelIdx := levelIdx[b + LEVEL_IDX := l - MIN_LEVEL];
      mem.InitListHead(b + FREE_LIST);
      rings := rings[b + FREE_LIST := []];
      level := level[b := l];
      small := small + SlotMap(b, l);
      StartSlots(s, place, small, b, l);
      LinkSlots(b, l, s.small, place);
    }

    /** All slots go to the free list, each in front of the ones before. */
    method LinkSlots(b: nat, l: nat, ghost before: map<int, nat>, ghost place: map<int, bool>)
      requires Core(Slab(), place) && Aligned(b, 12) && GoodLevel(l) && UnlinkedFrom(before, small, b, l, 0)
      requires b + FREE_LIST in rings && rings[b + FREE_LIST] == []
      modifies this`rings, this`small, mem
      ensures Core(Slab(), place) && small == before
      ensures b + FREE_LIST in rings && rings == old(rings)[b + FREE_LIST := rings[b + FREE_LIST]]
      ensures rings[b + FREE_LIST] != [] && rings[b + FREE_LIST][0] == SlotAt(b, l, LastSlot(l))
    {
      hide Core, Added, Down, Pow2, IsSlot, UnlinkedFrom, MaxSlots, SlotsOffset, SmallOk;
      SlotsFillBlock(l);
      var maxSolts := MaxSlots(l);
      var soltsBase := b + SlotsOffset(l);
      var soltSize := Pow2(l);
      for i := 0 to maxSolts
        invariant Core(Slab(), place) && UnlinkedFrom(before, small, b, l, i)
        invariant b + FREE_LIST in rings && rings == old(rings)[b + FREE_LIST := rings[b + FREE_LIST]]
        invariant i > 0 ==> rings[b + FREE_LIST] != [] && rings[b + FREE_LIST][0] == SlotAt(b, l, i - 1)
      {
        var solt := soltsBase + soltSize * i;
        NextSlot(before, small, b, l, i);
        PushSlot(Slab(), place, solt);
        mem.ListAdd(solt, b + FREE_LIST);
        rings := rings[b + FREE_LIST := [solt] + rings[b + FREE_LIST]];
        small := small - {solt};
      }
      AllLinked(before, small, b, l);
    }

    method Malloc(size: nat) returns (ptr: nat)
      requires Valid() && size < SIZE_MAX
      modifies this, mem, pvbridge.palloc, pvbridge.palloc.pages, pvbridge.palloc.mem
      ensures Valid() && Foreign() == old(Foreign())
      ensures ptr == NULL ==> small == old(small) && large == old(large)
      ensures ptr == NULL ==> level == old(level) && pvbridge.palloc.live == old(pvbridge.palloc.live)
      ensures ptr != NULL ==> ptr !in old(small) && ptr !in old(large)
      ensures ptr != NULL && size <= 1024 ==> small == old(small)[ptr := size] && large == old(large)
      ensures ptr != NULL && size > 1024 ==> large == old(large)[ptr := size] && small == old(small) && level == old(level)
      ensures ptr != NULL && size <= 1024 ==> BlockOf(ptr) in level && level[BlockOf(ptr)] == OrderFrom(size, MIN_LEVEL)
      ensures ptr != NULL && size <= 1024 ==>
                if HasSlot(old(Slab()), OrderFrom(size, MIN_LEVEL))
                then ptr == FirstSlot(old(Slab()), OrderFrom(size, MIN_LEVEL))
                     && level == old(level) && pvbridge.palloc.live == old(pvbridge.palloc.live)
                else ptr == SlotAt(BlockOf(ptr), OrderFrom(size, MIN_LEVEL), LastSlot(OrderFrom(size, MIN_LEVEL)))
                     && BlockOf(ptr) !in old(level) && level == old(level)[BlockOf(ptr) := OrderFrom(size, MIN_LEVEL)]
      ensures size <= 1024 ==>
                (ptr == NULL <==> !HasSlot(old(Slab()), OrderFrom(size, MIN_LEVEL)) && !HasRun(old(pvbridge.palloc.FreeSet()), 0))
      ensures size > 1024 ==>
                (ptr == NULL <==> !HasRun(old(pvbridge.palloc.FreeSet()), OrderFrom(PageCnt(Max(size, BLOCK), PAGE), 0)))
      ensures size > 1024 ==>
                var want := if size < BLOCK then BLOCK else size;
                && (forall o: nat | LeastBlock(PAGE, want, o) :: ptr == NULL <==> !HasRun(old(pvbridge.palloc.FreeSet()), o))
                && (ptr != NULL ==>
                      OnPage(pvbridge.palloc.base, ptr)
                      && GivenOut(PAGE, old(pvbridge.palloc.live), old(pvbridge.palloc.lists), want,
                                  PageIndex(pvbridge.palloc.base, ptr), pvbridge.palloc.live))
      ensures ptr != NULL && size <= 1024 && !HasSlot(old(Slab()), OrderFrom(size, MIN_LEVEL)) ==>
                GivenOut(PAGE, old(pvbridge.palloc.live), old(pvbridge.palloc.lists), BLOCK,
                         PageIndex(pvbridge.palloc.base, BlockOf(ptr)), pvbridge.palloc.live)
    {
      hide Inv, Backed, KoffsetPvbridge.Valid, Others, FreePages, HasRun, HasSlot, OrderFrom, PageCnt, Pow2;
      hide LeastBlock, GivenOut, OnPage, PageIndex;
      var l := LevelFor(size);
      LevelOf(size);
      if l > MAX_LEVEL {
        ptr := MallocLarge(size);
        return;
      }
      ghost var s := Slab();
      AvailHead(s, l);
      NoAvailBlock(s, l);
      if mem.ListEmpty(BlockList(false, l - MIN_LEVEL)) {
        var ok := Refill(l);
        if !ok { return NULL; }
      }
      ptr := TakeSlot(l, size);
    }

    /** Too big for a slot: whole pages, aligned to the block size. */
    method MallocLarge(size: nat) returns (ptr: nat)
      requires Valid() && size < SIZE_MAX
      modifies this`large, pvbridge.palloc, pvbridge.palloc.pages, pvbridge.palloc.mem
      ensures Valid() && Foreign() == old(Foreign())
      ensures ptr == NULL ==> large == old(large) && pvbridge.palloc.live == old(pvbridge.palloc.live)
      ensures ptr != NULL ==> ptr !in old(small) && ptr !in old(large) && large == old(large)[ptr := size]
      ensures ptr == NULL <==> !HasRun(old(pvbridge.palloc.FreeSet()), OrderFrom(PageCnt(Max(size, BLOCK), PAGE), 0))
      ensures var want := if size < BLOCK then BLOCK else size;
              && (forall o: nat | LeastBlock(PAGE, want, o) :: ptr == NULL <==> !HasRun(old(pvbridge.palloc.FreeSet()), o))
              && (ptr != NULL ==>
                    OnPage(pvbridge.palloc.base, ptr)
                    && GivenOut(PAGE, old(pvbridge.palloc.live), old(pvbridge.palloc.lists), want,
                                PageIndex(pvbridge.palloc.base, ptr), pvbridge.palloc.live))
    {
      hide MallocSpec, IsPowOf2, And, Geometry, FreePages, Rep, PageCnt, OrderFrom, Backed, OnPage, PageIndex, Inv, Others, HasRun, Pow2, LeastBlock, GivenOut;
      BlockAlignment(pvbridge.palloc.base);
      var panicked;
      panicked, ptr := pvbridge.AlignedMalloc(size, BLOCK);
      ghost var n, base := pvbridge.palloc.pageCount, pvbridge.palloc.base;
      ghost var live, lists, live' := old(pvbridge.palloc.live), old(pvbridge.palloc.lists), pvbridge.palloc.live;
      WhenNull(n, base, live, lists, Max(size, BLOCK), ptr, live');
      LeastOrder(Max(size, BLOCK), if size < BLOCK then BLOCK else size);
      if ptr != NULL {
        NewLivePage(n, base, live, lists, Max(size, BLOCK), ptr, live');
        BackedLarge(live, live', base, level, large, ptr, size);
        PageNotSmall(Slab(), base, ptr);
        large := large[ptr := size];
      }
    }

    method Free(ptr: nat)
      requires Valid() && (ptr == NULL || ptr in small || ptr in large) && ptr < SIZE_MAX
      modifies this, mem, pvbridge.palloc, pvbridge.palloc.pages, pvbridge.palloc.mem
      ensures Valid() && Foreign() == old(Foreign())
      ensures small == old(small) - {ptr} && large == old(large) - {ptr} && level == old(level)
      ensures ptr in old(small) ==>
                var b, h := BlockOf(ptr), BlockOf(ptr) + FREE_LIST;
                b in level && MIN_LEVEL <= level[b] && h in old(rings) &&
                var put := old(rings)[h := [ptr] + old(rings)[h]];
                rings == if old(rings)[h] == [] then MovedRings(put, b, level[b] - MIN_LEVEL, true) else put
      ensures ptr in old(small) && BlockOf(ptr) + FREE_LIST in old(rings) && old(rings)[BlockOf(ptr) + FREE_LIST] == [] ==>
                BlockOf(ptr) in level && FirstSlot(Slab(), level[BlockOf(ptr)]) == ptr && HasSlot(Slab(), level[BlockOf(ptr)])
      ensures pvbridge.palloc.live ==
              if ptr in old(large) then old(pvbridge.palloc.live) - {PageIndex(pvbridge.palloc.base, ptr)} else old(pvbridge.palloc.live)
    {
      hide Inv, Core, Backed, KoffsetPvbridge.Valid, Others, FreePages, Down, And, OnPage, PageIndex, ProperPlace, SlubSpec.Blocks;
      ghost var s := Slab();
      InvPlace(s);
      ghost var place := ProperPlace(s);
      NoObjectAtNull(s, place, pvbridge.palloc.live, pvbridge.palloc.base, large);
      if ptr != NULL { DispatchExact(s, place, pvbridge.palloc.live, pvbridge.palloc.base, large, ptr); }
      NullIsAligned();
      if And(ptr, BLOCK - 1) == 0 {
        FreeLarge(ptr);
        return;
      }
      PutSlot(ptr);
      HasSlotIn(Slab(), BlockOf(ptr));
    }

    /** The slot goes in front of the free list of its block, which moves to the avail list if it had no
        free slot. */
    method PutSlot(ptr: nat)
      requires Inv(Slab()) && ptr in small
      modifies this`rings, this`small, mem
      ensures Inv(Slab()) && small == old(small) - {ptr}
      ensures var h := BlockOf(ptr) + FREE_LIST;
              h in old(rings) && h in rings && rings[h] == [ptr] + old(rings)[h]
      ensures BlockOf(ptr) in level && MIN_LEVEL <= level[BlockOf(ptr)]
      ensures var h := BlockOf(ptr) + FREE_LIST;
              var put := old(rings)[h := [ptr] + old(rings)[h]];
              rings == if old(rings)[h] == [] then MovedRings(put, BlockOf(ptr), level[BlockOf(ptr)] - MIN_LEVEL, true) else put
      ensures old(rings)[BlockOf(ptr) + FREE_LIST] == [] ==> FirstSlot(Slab(), level[BlockOf(ptr)]) == ptr
    {
      hide Inv, Core, Down, ProperPlace, SlubSpec.Blocks, MovedRings;
      ghost var s := Slab();
      InvPlace(s);
      ghost var place := ProperPlace(s);
      var slub, moveFlag := LinkSlot(ptr);
      HasBlockLists(Slab(), place, level[slub]);
      if moveFlag {
        MovedToFront(rings, slub, level[slub] - MIN_LEVEL);
        MoveBlock(slub, true, place, s);
      } else {
        BackInPlace(s, Slab(), place, slub);
      }
    }

    /** The first half: whether the block was full, and the slot on its free list. */
    method LinkSlot(ptr: nat) returns (slub: nat, moveFlag: bool)
      requires Inv(Slab()) && ptr in small
      modifies this`rings, this`small, mem
      ensures Core(Slab(), ProperPlace(old(Slab()))) && small == old(small) - {ptr}
      ensures slub == BlockOf(ptr) && slub in level && GoodLevel(level[slub])
      ensures slub + FREE_LIST in old(rings) && moveFlag == (old(rings)[slub + FREE_LIST] == [])
      ensures rings == old(rings)[slub + FREE_LIST := [ptr] + old(rings)[slub + FREE_LIST]]
    {
      hide Inv, Core, Down, And, AndNot, IsSlot, Pow2, ProperPlace, SlubSpec.Blocks, Added, SmallOk;
      ghost var s := Slab();
      InvPlace(s);
      ghost var place := ProperPlace(s);
      slub := AndNot(ptr, BLOCK - 1);
      BlockStart(ptr);
      PushSlot(s, place, ptr);
      SmallObjectInBlock(s, place, ptr);
      FreeListHead(s, place, slub);
      moveFlag := mem.ListEmpty(slub + FREE_LIST);
      mem.ListAdd(ptr, slub + FREE_LIST);
      rings := rings[slub + FREE_LIST := [ptr] + rings[slub + FREE_LIST]];
      small := small - {ptr};
      FieldLevel(Slab(), place, slub);
    }

    method FreeLarge(ptr: nat)
      requires Valid() && (ptr == NULL || ptr in large) && ptr < SIZE_MAX
      modifies this`large, pvbridge.palloc, pvbridge.palloc.pages, pvbridge.palloc.mem
      ensures Valid() && Foreign() == old(Foreign()) && large == old(large) - {ptr}
      ensures pvbridge.palloc.live ==
              if ptr in old(large) then old(pvbridge.palloc.live) - {PageIndex(pvbridge.palloc.base, ptr)} else old(pvbridge.palloc.live)
    {
      hide MallocSpec, Geometry, FreePages, Rep, Backed, Inv, Others, Pow2;
      ghost var live, base := pvbridge.palloc.live, pvbridge.palloc.base;
      if ptr != NULL { BackedWithout(live, base, level, large, ptr); }
      NoLargeAtNull(live, base, level, large);
      pvbridge.Free(ptr);
      assert ptr == NULL ==> large - {ptr} == large;
      large := large - {ptr};
    }
  }

  /** A block leaves the one list of its level and goes to the front of the other; nothing else moves. */
  ghost function MovedRings(rings: map<int, seq<int>>, b: int, levelIndex: nat, full: bool): map<int, seq<int>> {
    var from, to := BlockList(full, levelIndex), BlockList(!full, levelIndex);
    if from in rings && to in rings then rings[from := Removed(rings[from], b)][to := [b] + rings[to]] else rings
  }

  /** The free lists of all blocks but `b` are the same. */
  ghost predicate OthersKept(r: map<int, seq<int>>, r': map<int, seq<int>>, level: map<int, nat>, b: int) {
    forall c | c in level && c != b :: c + FREE_LIST in r && c + FREE_LIST in r' ==> r'[c + FREE_LIST] == r[c + FREE_LIST]
  }

  lemma KeptStill(r: map<int, seq<int>>, r1: map<int, seq<int>>, r2: map<int, seq<int>>, level: map<int, nat>, b: int)
    requires OthersKept(r, r1, level, b) && forall c | c in level :: 0 <= c && c + FREE_LIST in r1
    requires forall h | h in r1 && 0 <= h :: h in r2 && r2[h] == r1[h]
    ensures OthersKept(r, r2, level, b)
  {
  }

  lemma MovedIs(rings: map<int, seq<int>>, b: int, levelIndex: nat, full: bool)
    requires BlockList(full, levelIndex) in rings && BlockList(!full, levelIndex) in rings
    ensures var from, to, moved := BlockList(full, levelIndex), BlockList(!full, levelIndex), MovedRings(rings, b, levelIndex, full);
            var less := rings[from := Removed(rings[from], b)];
            to in less && moved == less[to := [b] + less[to]]
    ensures forall h | h in rings && 0 <= h :: h in MovedRings(rings, b, levelIndex, full) && MovedRings(rings, b, levelIndex, full)[h] == rings[h]
  {
    hide Removed;
  }

  lemma MovedToFront(rings: map<int, seq<int>>, b: int, levelIndex: nat)
    requires BlockList(false, levelIndex) in rings && BlockList(true, levelIndex) in rings && b + FREE_LIST in rings && 0 <= b
    ensures var moved, h := MovedRings(rings, b, levelIndex, true), BlockList(false, levelIndex);
            && h in moved && moved[h] == [b] + rings[h]
            && b + FREE_LIST in moved && moved[b + FREE_LIST] == rings[b + FREE_LIST]
  {
  }

  lemma RingOnce(s: SlubSpec.Slab, place: map<int, bool>, h: int)
    requires Core(s, place) && h in s.rings
    ensures NoDup(s.rings[h])
  {
    RingNoDup(s.links, h, s.rings[h]);
  }

  lemma HasBlockLists(s: SlubSpec.Slab, place: map<int, bool>, l: nat)
    requires Core(s, place) && GoodLevel(l)
    ensures BlockList(false, l - MIN_LEVEL) in s.rings && BlockList(true, l - MIN_LEVEL) in s.rings
  {
  }

  lemma HasSlotIn(s: SlubSpec.Slab, b: int)
    requires b in s.level && b + FREE_LIST in s.rings && s.rings[b + FREE_LIST] != []
    ensures HasSlot(s, s.level[b])
  {
  }

  /** A slot freed in a block that had none is what the next request of that level gets. */
  method ReuseFreedSlot(v: SlubVmalloc, ptr: nat, size: nat) returns (again: nat)
    requires v.Valid() && ptr in v.small && ptr < SIZE_MAX && size <= 1024
    requires BlockOf(ptr) in v.level && v.level[BlockOf(ptr)] == OrderFrom(size, MIN_LEVEL)
    requires BlockOf(ptr) + FREE_LIST in v.rings && v.rings[BlockOf(ptr) + FREE_LIST] == []
    modifies v, v.mem, v.pvbridge.palloc, v.pvbridge.palloc.pages, v.pvbridge.palloc.mem
    ensures v.Valid() && again == ptr && v.small == old(v.small)[ptr := size] && v.large == old(v.large) && v.level == old(v.level)
  {
    hide Inv, Backed, KoffsetPvbridge.Valid, Others, FreePages, HasRun, HasSlot, OrderFrom, PageCnt, LeastBlock, GivenOut, FirstSlot, MovedRings;
    NotNullNotLarge(v, ptr);
    v.Free(ptr);
    again := v.Malloc(size);
  }

  lemma NotNullNotLarge(v: SlubVmalloc, ptr: nat)
    requires v.Valid() && ptr in v.small
    ensures ptr != NULL && ptr !in v.large
  {
    hide SlubVmalloc.Valid, Core, Backed;
    ValidParts(v);
    SmallNotLarge(v.Slab(), ProperPlace(v.Slab()), v.pvbridge.palloc.live, v.pvbridge.palloc.base, v.large, ptr);
  }

  /** The number of the last slot of a block: the list of a new block is filled from the front. */
  function LastSlot(l: nat): nat {
    if MaxSlots(l) == 0 then 0 else MaxSlots(l) - 1
  }

  /** The front of the free list of the first block with free slots. */
  ghost function FirstSlot(s: SlubSpec.Slab, l: nat): int {
    var h := BlockList(false, if l < MIN_LEVEL then 0 else l - MIN_LEVEL);
    if h in s.rings && s.rings[h] != [] && s.rings[h][0] + FREE_LIST in s.rings && s.rings[s.rings[h][0] + FREE_LIST] != []
    then s.rings[s.rings[h][0] + FREE_LIST][0]
    else NULL
  }

  /** Some block of the level has a free slot. */
  ghost predicate HasSlot(s: SlubSpec.Slab, l: nat) {
    exists b :: b in s.level && s.level[b] == l && b + FREE_LIST in s.rings && s.rings[b + FREE_LIST] != []
  }

  /** A change of the free list of one block changes where that block belongs, and nothing else. */
  lemma ProperAfter(s: SlubSpec.Slab, s': SlubSpec.Slab, b: int)
    requires SlubSpec.Blocks(s) && SlubSpec.Blocks(s') && b in s'.level && s'.level.Keys == s.level.Keys + {b}
    requires forall c | c in s.level && c != b :: s'.rings[c + FREE_LIST] == s.rings[c + FREE_LIST]
    ensures ProperPlace(s') == ProperPlace(s)[b := s'.rings[b + FREE_LIST] == []]
  {
    hide Down;
    var place, place' := ProperPlace(s)[b := s'.rings[b + FREE_LIST] == []], ProperPlace(s');
    assert place.Keys == place'.Keys;
    forall c | c in place' ensures place'[c] == place[c] { }
  }

  lemma InvPlace(s: SlubSpec.Slab)
    requires Inv(s)
    ensures SlubSpec.Blocks(s) && Core(s, ProperPlace(s)) && ProperPlace(s).Keys == s.level.Keys
    ensures forall b | b in s.level :: 0 <= b && b + FREE_LIST in s.rings && ProperPlace(s)[b] == (s.rings[b + FREE_LIST] == [])
  {
  }

  /** Back to the invariant after the free list of `b` changed. */
  lemma BackInPlace(s: SlubSpec.Slab, s': SlubSpec.Slab, place: map<int, bool>, b: int)
    requires Inv(s) && Core(s', place) && b in s'.level && s'.level.Keys == s.level.Keys + {b}
    requires OthersKept(s.rings, s'.rings, s.level, b)
    requires b + FREE_LIST in s'.rings
    requires place == ProperPlace(s)[b := s'.rings[b + FREE_LIST] == []]
    ensures Inv(s')
  {
    hide Core;
    CoreBlocks(s', place);
    InvPlace(s);
    ProperAfter(s, s', b);
  }

  lemma HasFreeLists(s: SlubSpec.Slab, place: map<int, bool>)
    requires Core(s, place)
    ensures forall b | b in s.level :: 0 <= b && b + FREE_LIST in s.rings
  {
    hide Family, Slots, Smalls, Placed, Heads, Aligned;
  }

  lemma CoreBlocks(s: SlubSpec.Slab, place: map<int, bool>)
    requires Core(s, place)
    ensures SlubSpec.Blocks(s)
  {
  }

  lemma FreeListHead(s: SlubSpec.Slab, place: map<int, bool>, b: int)
    requires Core(s, place) && b in s.level
    ensures b + FREE_LIST in s.rings && b + FREE_LIST in s.links.next
    ensures s.links.next[b + FREE_LIST] == b + FREE_LIST <==> s.rings[b + FREE_LIST] == []
  {
    BlockFacts(s, place, b);
    HeadLinked(s.links, b + FREE_LIST, s.rings[b + FREE_LIST]);
  }

  lemma FieldLevel(s: SlubSpec.Slab, place: map<int, bool>, b: int)
    requires Core(s, place) && b in s.level
    ensures GoodLevel(s.level[b]) && b + LEVEL_IDX in s.levelIdx && s.levelIdx[b + LEVEL_IDX] == s.level[b] - MIN_LEVEL
  {
  }

  lemma SmallNotLarge(s: SlubSpec.Slab, place: map<int, bool>, live: LiveMap, base: nat, large: map<int, nat>, p: int)
    requires Core(s, place) && Backed(live, base, s.level, large) && base % PAGE == 0 && p in s.small
    ensures p !in large && p != NULL
  {
    DispatchExact(s, place, live, base, large, p);
    SmallObjectInBlock(s, place, p);
  }

  lemma BlockAlignment(base: nat)
    requires base % PAGE == 0
    ensures IsPowOf2(BLOCK) && And(base, BLOCK - 1) == 0
  {
    Constants();
    IsPowOf2Complete(12);
    AndMaskIsOffset(base, 12);
    ShrIsDiv(base, 12);
  }

  lemma BlockStart(p: nat)
    ensures AndNot(p, BLOCK - 1) == BlockOf(p)
  {
    AndNotMaskIsDown(p, 12);
    Constants();
  }

  lemma NullIsAligned()
    ensures And(NULL, BLOCK - 1) == 0
  {
  }

  lemma NoLargeAtNull(live: LiveMap, base: nat, level: map<int, nat>, large: map<int, nat>)
    requires Backed(live, base, level, large)
    ensures NULL !in large
  {
  }

  lemma NoObjectAtNull(s: SlubSpec.Slab, place: map<int, bool>, live: LiveMap, base: nat, large: map<int, nat>)
    requires Core(s, place) && Backed(live, base, s.level, large) && base % PAGE == 0
    ensures NULL !in s.small && NULL !in large
  {
    NoLargeAtNull(live, base, s.level, large);
    if NULL in s.small { SmallNotLarge(s, place, live, base, large, NULL); assert false; }
  }

  /** A page that is no block holds no small object at its start. */
  lemma PageNotSmall(s: SlubSpec.Slab, base: nat, p: int)
    requires Inv(s) && base % PAGE == 0 && OnPage(base, p)
    ensures p !in s.small
  {
    PageAligned(base, p);
    if p in s.small { SmallObjectInBlock(s, ProperPlace(s), p); assert false; }
  }

  lemma OnePage()
    ensures OrderFrom(PageCnt(BLOCK, PAGE), 0) == 0
  {
  }

  /** The order asked for is that of the least block. */
  lemma LeastOrder(m: nat, size: nat)
    requires m == size < SIZE_MAX
    ensures forall o: nat | LeastBlock(PAGE, size, o) :: o == OrderFrom(PageCnt(m, PAGE), 0)
    ensures LeastBlock(PAGE, size, OrderFrom(PageCnt(m, PAGE), 0))
  {
    hide PageCnt, LeastBlock, OrderFrom;
    LeastBlockFound(PAGE, size);
    forall o: nat | LeastBlock(PAGE, size, o) ensures o == OrderFrom(PageCnt(m, PAGE), 0) {
      LeastIsOne(PAGE, size, o, OrderFrom(PageCnt(m, PAGE), 0));
    }
  }

  lemma WhenNull(n: nat, base: nat, live: LiveMap, lists: seq<seq<int>>, size: nat, ptr: nat, live': LiveMap)
    requires MallocSpec(n, base, PAGE, live, lists, size, PaOf(ptr), live') && ptr < SIZE_MAX
    requires ptr != NULL ==> KOFFSET <= ptr
    ensures ptr == NULL <==> !HasRun(FreePages(n, live), OrderFrom(PageCnt(size, PAGE), 0))
    ensures ptr == NULL ==> live' == live
  {
    assert PaOf(ptr) == NO_MEMORY <==> ptr == NULL;
  }

  /** The parts of the invariant, and the live blocks behind them. */
  lemma ValidParts(v: SlubVmalloc)
    requires v.Valid()
    ensures var b := v.pvbridge.palloc;
            && Inv(v.Slab()) && Core(v.Slab(), ProperPlace(v.Slab())) && LiveOk(b.pageCount, b.live)
            && Backed(b.live, b.base, v.level, v.large) && b.base % PAGE == 0 && b.pageSize == PAGE
  {
    hide Core, Backed, Rep, Geometry, LiveOk, Waste, FreePages, ProperPlace;
    LiveIsOk(v.pvbridge.palloc.Snap(), v.pvbridge.palloc.live, v.pvbridge.palloc.FreeSet());
  }

  /** Whole-stack safety, in every state the allocator can be in: two live objects occupy disjoint byte
      ranges of at least the sizes asked for, and alignment tells the two kinds apart. */
  lemma WholeStackSafe(v: SlubVmalloc, p: int, q: int)
    requires v.Valid() && Object(v.Slab(), v.large, p) && Object(v.Slab(), v.large, q) && p < q
    ensures p + SizeOf(v.Slab(), v.large, p) <= q
    ensures And(p, BLOCK - 1) == 0 <==> p in v.large
    ensures And(q, BLOCK - 1) == 0 <==> q in v.large
  {
    hide SlubVmalloc.Valid, Inv, ProperPlace, LiveOk, Core, Backed, And;
    ValidParts(v);
    var s, place, b := v.Slab(), ProperPlace(v.Slab()), v.pvbridge.palloc;
    ObjectsApart(s, place, b.live, b.base, b.pageCount, v.large, p, q);
    DispatchExact(s, place, b.live, b.base, v.large, p);
    DispatchExact(s, place, b.live, b.base, v.large, q);
  }

  /** No live object touches what the allocator keeps: a large object is clear of every block; a small
      one of every block but its own, of whose header and free slots it is clear. */
  lemma ObjectsClearOfBlocks(v: SlubVmalloc, p: int, b: int)
    requires v.Valid() && Object(v.Slab(), v.large, p) && b in v.level
    ensures var end := p + SizeOf(v.Slab(), v.large, p);
            || end <= b || b + BLOCK <= p
            || (p in v.small && b + HEADER <= p && end <= b + BLOCK
                && forall x :: IsFree(v.Slab(), b, x) ==> end <= x || x + Pow2(v.level[b]) <= p)
  {
    hide SlubVmalloc.Valid, Inv, ProperPlace, LiveOk, Core, Backed, Down, Pow2;
    ValidParts(v);
    var s, place, a := v.Slab(), ProperPlace(v.Slab()), v.pvbridge.palloc;
    ClearOfBlock(s, place, a.live, a.base, a.pageCount, v.large, p, b);
    if p in v.small && p !in v.large && 0 <= p && BlockOf(p) == b {
      SmallObjectInBlock(s, place, p);
      forall x | IsFree(s, b, x) ensures p + v.small[p] <= x || x + Pow2(v.level[b]) <= p {
        ClearOfFreeSlot(s, place, p, x);
      }
    }
  }

  /** `x` is a free slot of the block at `b`. */
  ghost predicate IsFree(s: SlubSpec.Slab, b: int, x: int) {
    b + FREE_LIST in s.rings && x in s.rings[b + FREE_LIST]
  }

  lemma ClearOfFreeSlot(s: SlubSpec.Slab, place: map<int, bool>, p: int, x: int)
    requires Core(s, place) && p in s.small && 0 <= p && BlockOf(p) in s.level && IsFree(s, BlockOf(p), x)
    ensures p + s.small[p] <= x || x + Pow2(s.level[BlockOf(p)]) <= p
  {
    hide Core, Down, Pow2, IsSlot;
    var b := BlockOf(p);
    BothAreSlots(s, place, p, x);
    BlockFacts(s, place, b);
    SlotInBlock(b, s.level[b], x);
    SlotInBlock(b, s.level[b], p);
    SlotAligned(b, s.level[b], x);
    SlotAligned(b, s.level[b], p);
    if x < p { AlignedStep(x, p, s.level[b]); } else { AlignedStep(p, x, s.level[b]); }
  }

  lemma BothAreSlots(s: SlubSpec.Slab, place: map<int, bool>, p: int, x: int)
    requires Core(s, place) && p in s.small && 0 <= p && BlockOf(p) in s.level && IsFree(s, BlockOf(p), x)
    ensures var b := BlockOf(p);
            IsSlot(b, s.level[b], p) && s.small[p] <= Pow2(s.level[b]) && IsSlot(b, s.level[b], x) && x != p
  {
    hide Down, IsSlot, Pow2;
    assert SmallOk(s, p) && SlotOk(s, BlockOf(p), x);
  }

  lemma SlotAligned(b: int, l: nat, x: int)
    requires IsSlot(b, l, x)
    ensures 0 <= x && Aligned(x, l)
  {
  }

  /** No live object touches a page that another user of the page allocator holds. */
  lemma ObjectsClearOfForeign(v: SlubVmalloc, p: int, i: nat)
    requires v.Valid() && Object(v.Slab(), v.large, p) && i in v.Foreign()
    ensures var a := v.pvbridge.palloc.AddrOf(i) + KOFFSET;
            p + SizeOf(v.Slab(), v.large, p) <= a || a + PAGE * Pow2(v.Foreign()[i].order) <= p
  {
    hide SlubVmalloc.Valid, Inv, ProperPlace, LiveOk, Core, Backed, Pow2, Others;
    ValidParts(v);
    var s, place, b := v.Slab(), ProperPlace(v.Slab()), v.pvbridge.palloc;
    ClearOfForeign(s, place, b.live, b.base, b.pageCount, v.large, p, i);
  }

  lemma LiveIsOk(z: Zone, live: LiveMap, free: set<nat>)
    requires Rep(z, live, free)
    ensures LiveOk(|z.recs|, live)
  {
  }

  // ---------------------------------------------------------------- writing into objects

  /** The field or node of `width` bytes at `x` shares no byte with the `size` bytes at `p`. */
  predicate ClearOf(x: int, width: nat, p: int, size: nat) {
    x + width <= p || p + size <= x
  }

  ghost predicate SameNode(l: Links, l': Links, x: int) {
    && (x in l.next <==> x in l'.next) && (x in l.next && x in l'.next ==> l.next[x] == l'.next[x])
    && (x in l.prev <==> x in l'.prev) && (x in l.prev && x in l'.prev ==> l.prev[x] == l'.prev[x])
  }

  ghost predicate SameField(f: map<int, nat>, g: map<int, nat>, x: int) {
    (x in f <==> x in g) && (x in f && x in g ==> f[x] == g[x])
  }

  /** A node takes 8 bytes, a level_idx field 4; `t` differs from `s` at most in those that share a byte
      with the `size` bytes at `p`. */
  ghost predicate WrittenAt(s: SlubSpec.Slab, t: SlubSpec.Slab, p: int, size: nat) {
    && t == s.(links := t.links, levelIdx := t.levelIdx)
    && (forall x :: ClearOf(x, 8, p, size) ==> SameNode(s.links, t.links, x))
    && (forall x :: ClearOf(x, 4, p, size) ==> SameField(s.levelIdx, t.levelIdx, x))
  }

  /** Every node on a list of the allocator is clear of every live object. */
  lemma NodeClear(s: SlubSpec.Slab, place: map<int, bool>, live: LiveMap, base: nat, n: nat, large: map<int, nat>, p: int, h: int, x: int)
    requires Core(s, place) && LiveOk(n, live) && Backed(live, base, s.level, large)
    requires Object(s, large, p) && h in s.rings && OnRing(h, s.rings[h], x)
    ensures ClearOf(x, 8, p, SizeOf(s, large, p))
  {
    ObjectIsPointer(s, place, live, base, large, p);
    if h < 0 {
      OnBlockList(s, place, h, x);
      if x >= 0 {
        PlacedIsBlock(s, place, x);
        ClearOfBlock(s, place, live, base, n, large, p, x);
      }
    } else {
      OnFreeList(s, place, h, x);
      var b := h - FREE_LIST;
      ClearOfBlock(s, place, live, base, n, large, p, b);
      if x != h {
        assert IsFree(s, b, x);
        BlockFacts(s, place, b);
        SlotInBlock(b, s.level[b], x);
        SixteenFits(s.level[b]);
        hide Core, LiveOk, Backed, Pow2, Down, IsSlot, OnRing;
        if p in s.small && p !in large && 0 <= p && BlockOf(p) == b { ClearOfFreeSlot(s, place, p, x); }
      }
    }
  }

  lemma SixteenFits(level: nat)
    requires GoodLevel(level)
    ensures 16 <= Pow2(level)
  {
    LevelSizes(level);
  }

  /** No object starts below the first header size. */
  lemma ObjectIsPointer(s: SlubSpec.Slab, place: map<int, bool>, live: LiveMap, base: nat, large: map<int, nat>, p: int)
    requires Core(s, place) && Backed(live, base, s.level, large) && Object(s, large, p)
    ensures HEADER <= p
  {
    if p in s.small { SmallObjectInBlock(s, place, p); }
  }

  lemma RingUnwritten(l: Links, l': Links, h: int, s: seq<int>)
    requires Ring(l, h, s) && forall x :: OnRing(h, s, x) ==> SameNode(l, l', x)
    ensures Ring(l', h, s)
  {
    assert OnRing(h, s, h);
    forall i | 0 <= i < |s| ensures OnRing(h, s, s[i]) { }
  }

  /** The invariant survives whatever its owner writes into a live object: no list pointer and no field
      of a header lies there. */
  lemma WritesHarmless(s: SlubSpec.Slab, t: SlubSpec.Slab, live: LiveMap, base: nat, n: nat, large: map<int, nat>, p: int)
    requires Inv(s) && LiveOk(n, live) && Backed(live, base, s.level, large) && Object(s, large, p)
    requires WrittenAt(s, t, p, SizeOf(s, large, p))
    ensures Inv(t)
  {
    hide Ring, LiveOk, Backed, ClearOf, SameNode, Down, IsSlot;
    var place, size := ProperPlace(s), SizeOf(s, large, p);
    forall h | h in s.rings ensures Ring(t.links, h, s.rings[h]) {
      forall x | OnRing(h, s.rings[h], x) ensures SameNode(s.links, t.links, x) {
        NodeClear(s, place, live, base, n, large, p, h, x);
        assert ClearOf(x, 8, p, size);
      }
      RingUnwritten(s.links, t.links, h, s.rings[h]);
    }
    forall b | b in s.level ensures b + LEVEL_IDX in t.levelIdx && t.levelIdx[b + LEVEL_IDX] == s.level[b] - MIN_LEVEL {
      FieldClear(s, place, live, base, n, large, p, b);
      BlockFacts(s, place, b);
    }
    HeaderUnwritten(s, t, place);
    SamePlaces(s, t);
  }

  lemma FieldClear(s: SlubSpec.Slab, place: map<int, bool>, live: LiveMap, base: nat, n: nat, large: map<int, nat>, p: int, b: int)
    requires Core(s, place) && LiveOk(n, live) && Backed(live, base, s.level, large) && Object(s, large, p) && b in s.level
    ensures ClearOf(b + LEVEL_IDX, 4, p, SizeOf(s, large, p))
  {
    ClearOfBlock(s, place, live, base, n, large, p, b);
  }

  lemma HeaderUnwritten(s: SlubSpec.Slab, t: SlubSpec.Slab, place: map<int, bool>)
    requires Core(s, place) && t == s.(links := t.links, levelIdx := t.levelIdx)
    requires forall h | h in s.rings :: Ring(t.links, h, s.rings[h])
    requires forall b | b in s.level :: b + LEVEL_IDX in t.levelIdx && t.levelIdx[b + LEVEL_IDX] == s.level[b] - MIN_LEVEL
    ensures Core(t, place)
  {
    hide Ring, Family, Heads, SlubSpec.Blocks, Slots, Smalls, Placed;
    FamilyUnwritten(s.links, t.links, s.rings);
    BlocksUnwritten(s, t);
    SlotsUnwritten(s, t);
    PlacedUnwritten(s, t, place);
  }

  lemma FamilyUnwritten(l: Links, l': Links, rings: map<int, seq<int>>)
    requires Family(l, rings) && forall h | h in rings :: Ring(l', h, rings[h])
    ensures Family(l', rings)
  {
    hide Ring;
  }

  lemma BlocksUnwritten(s: SlubSpec.Slab, t: SlubSpec.Slab)
    requires SlubSpec.Blocks(s) && t.rings == s.rings && t.level == s.level
    requires forall b | b in s.level :: b + LEVEL_IDX in t.levelIdx && t.levelIdx[b + LEVEL_IDX] == s.level[b] - MIN_LEVEL
    ensures SlubSpec.Blocks(t)
  {
    hide Down;
  }

  lemma SlotsUnwritten(s: SlubSpec.Slab, t: SlubSpec.Slab)
    requires Slots(s) && Smalls(s) && t == s.(links := t.links, levelIdx := t.levelIdx)
    ensures Slots(t) && Smalls(t)
  {
    hide IsSlot, SmallOk;
    forall b, x | b in t.level && b + FREE_LIST in t.rings ensures SlotOk(t, b, x) { assert SlotOk(s, b, x); }
    forall x | x in t.small ensures SmallOk(t, x) { SmallUnwritten(s, t, x); }
  }

  lemma SmallUnwritten(s: SlubSpec.Slab, t: SlubSpec.Slab, x: int)
    requires Smalls(s) && t == s.(links := t.links, levelIdx := t.levelIdx) && x in s.small
    ensures SmallOk(t, x)
  {
    assert SmallOk(s, x);
  }

  lemma PlacedUnwritten(s: SlubSpec.Slab, t: SlubSpec.Slab, place: map<int, bool>)
    requires Placed(s, place) && t.rings == s.rings && t.level == s.level
    ensures Placed(t, place)
  {
  }

  lemma SamePlaces(s: SlubSpec.Slab, t: SlubSpec.Slab)
    requires t.rings == s.rings && t.level == s.level && SlubSpec.Blocks(s)
    ensures ProperPlace(t) == ProperPlace(s)
  {
  }

  /** The same of the allocator itself. */
  lemma WritesKeepValid(v: SlubVmalloc, t: SlubSpec.Slab, p: int)
    requires v.Valid() && Object(v.Slab(), v.large, p) && WrittenAt(v.Slab(), t, p, SizeOf(v.Slab(), v.large, p))
    ensures Inv(t)
  {
    hide SlubVmalloc.Valid, Inv, LiveOk, Core, Backed, WrittenAt;
    ValidParts(v);
    var b := v.pvbridge.palloc;
    WritesHarmless(v.Slab(), t, b.live, b.base, b.pageCount, v.large, p);
  }
}
