/** The queue of early mappings of kern/mm/kmmap/early_kmmap.c. */
module EarlyMapping {
  import opened Words

  const KERN_BASE := 0x8000_0000
  const KMMAP_BASE := 0xF000_0000
  const RESERVED_BASE := 0xFFFF_F000
  const WORD := 0x1_0000_0000
  const BIGPAGE := 0x20_0000
  const QUEUE_LENGTH := 10
  const ENOMEM := 12
  const EINVAL := 22
  const NULL := 0

  /** The values of `type`. */
  const MEMORY := 0
  const KMMAP := 1
  const DEVICE := 4
  const FRAMEBUFFER := 5

  datatype Mapping = Mapping(paddr: nat, vaddr: nat, size: nat, kind: nat)

  /** The widths of the fields. */
  predicate Fits(m: Mapping) {
    m.paddr < WORD * WORD && m.vaddr < WORD && m.size < WORD
  }

  /** BIGPAGE_OFF. */
  function BigPageOff(x: nat): nat { And(x, BIGPAGE - 1) }

  predicate EarlyMappingValid(m: Mapping) {
    BigPageOff(m.paddr) == 0 && BigPageOff(m.vaddr) == 0 && BigPageOff(m.size) == 0
  }

  /** OVERLAP on 32-bit pointers, whose sums wrap. */
  predicate Overlap(st1: nat, len1: nat, st2: nat, len2: nat) {
    (st1 > st2 && st1 < (st2 + len2) % WORD) || (st2 > st1 && st2 < (st1 + len1) % WORD)
  }

  predicate Collides(a: Mapping, b: Mapping) {
    Overlap(a.vaddr, a.size, b.vaddr, b.size)
  }

  /** The distance from the start of the mapping up to `va`, around the 32-bit address space. */
  function Distance(m: Mapping, va: nat): nat { (va + WORD - m.vaddr % WORD) % WORD }

  /** Addresses wrap: a mapping that passes the top goes on at 0. */
  predicate Covers(m: Mapping, va: nat) { Distance(m, va) < m.size }

  /** The two mappings have an address in common. */
  ghost predicate Intersect(a: Mapping, b: Mapping) {
    exists x: nat :: x < WORD && Covers(a, x) && Covers(b, x)
  }

  // ---------------------------------------------------------------- alignment

  lemma BigPageValue()
    ensures Pow2(21) == BIGPAGE && Pow2(9) == 512 && Pow2(12) == 4096
  {
    Pow2Add(9, 12);
  }

  lemma BigPageAligned(x: nat)
    ensures BigPageOff(x) == x % BIGPAGE
    ensures BigPageOff(x) == 0 <==> Aligned(x, 21)
  {
    hide Pow2, And, Down;
    BigPageValue();
    AndMaskIsOffset(x, 21);
    ShrIsDiv(x, 21);
  }

  // ---------------------------------------------------------------- what OVERLAP misses

  lemma DistanceIs(m: Mapping, va: nat)
    requires va < WORD
    ensures var v := m.vaddr % WORD; Distance(m, va) == if va >= v then va - v else va + WORD - v
  {
  }

  /** Two mappings intersect exactly when one of them covers the start of the other. */
  lemma IntersectExact(a: Mapping, b: Mapping)
    requires Fits(a) && Fits(b) && 0 < a.size && 0 < b.size
    ensures Intersect(a, b) <==> Covers(a, b.vaddr) || Covers(b, a.vaddr)
  {
    hide Distance;
    DistanceIs(a, a.vaddr);
    DistanceIs(b, b.vaddr);
    DistanceIs(a, b.vaddr);
    DistanceIs(b, a.vaddr);
    if x: nat :| x < WORD && Covers(a, x) && Covers(b, x) {
      DistanceIs(a, x);
      DistanceIs(b, x);
    }
    if Covers(a, b.vaddr) { assert Covers(b, b.vaddr); }
    if Covers(b, a.vaddr) { assert Covers(a, a.vaddr); }
  }

  /** `u` starts above `l`: they intersect and the test does not see it when `l` reaches the top of the
      address space, or when `u` passes the top and comes down to the start of `l` only there. */
  predicate MissedAbove(l: Mapping, u: Mapping) {
    l.vaddr < u.vaddr
    && (WORD <= l.vaddr + l.size || (l.vaddr + l.size <= u.vaddr && WORD + l.vaddr < u.vaddr + u.size))
  }

  predicate Missed(a: Mapping, b: Mapping) {
    0 < a.size && 0 < b.size && (a.vaddr == b.vaddr || MissedAbove(a, b) || MissedAbove(b, a))
  }

  lemma EmptyMeetsNothing(a: Mapping, b: Mapping)
    requires a.size == 0
    ensures !Intersect(a, b) && !Intersect(b, a)
  {
  }

  /** The test of the queue, for any two mappings: which intersections it misses, and which empty
      mappings it takes for one. */
  lemma OverlapMisses(a: Mapping, b: Mapping)
    requires Fits(a) && Fits(b)
    ensures Intersect(a, b) && !Collides(a, b) <==> Missed(a, b)
    ensures Collides(a, b) && !Intersect(a, b) <==>
            || (a.size == 0 && b.vaddr < a.vaddr < b.vaddr + b.size < WORD)
            || (b.size == 0 && a.vaddr < b.vaddr < a.vaddr + a.size < WORD)
  {
    hide Distance, Intersect;
    DistanceIs(a, b.vaddr);
    DistanceIs(b, a.vaddr);
    if a.size == 0 { EmptyMeetsNothing(a, b); }
    if b.size == 0 { EmptyMeetsNothing(b, a); }
    if 0 < a.size && 0 < b.size { IntersectExact(a, b); }
    EndOf(a);
    EndOf(b);
  }

  lemma EndOf(m: Mapping)
    requires Fits(m)
    ensures var end := m.vaddr + m.size; end % WORD == if end < WORD then end else end - WORD
  {
  }

  /** The same mapping twice: both copies pass. */
  lemma SameStartPasses()
    ensures var a := Mapping(0, KERN_BASE, BIGPAGE, MEMORY);
            EarlyMappingValid(a) && !Collides(a, a) && Intersect(a, a)
  {
    hide BigPageOff;
    BigPageAligned(0);
    BigPageAligned(KERN_BASE);
    BigPageAligned(BIGPAGE);
    OverlapMisses(Mapping(0, KERN_BASE, BIGPAGE, MEMORY), Mapping(0, KERN_BASE, BIGPAGE, MEMORY));
  }

  // ---------------------------------------------------------------- the queue

  /** The mappings follow each other without gap from `bottom` to `top`. */
  ghost predicate Contiguous(ms: seq<Mapping>, bottom: nat, top: nat) {
    if ms == [] then top == bottom
    else
      var last := ms[|ms| - 1];
      last.vaddr + last.size == top && Contiguous(ms[..|ms| - 1], bottom, last.vaddr)
  }

  ghost predicate Accepted(q: seq<Mapping>) {
    && (forall i :: 0 <= i < |q| ==> Fits(q[i]) && EarlyMappingValid(q[i]))
    && (forall i, j :: 0 <= i < j < |q| ==> !Collides(q[j], q[i]))
  }

  class EarlyMappings {
    const queue: array<Mapping>
    var queueSize: nat
    var memTop: nat
    var kmmapTop: nat
    ghost var memory: seq<Mapping>
    ghost var kmmap: seq<Mapping>

    ghost function Entries(): seq<Mapping>
      requires queueSize <= queue.Length
      reads this, queue
    {
      queue[..queueSize]
    }

    /** There is room in the queue, the entry is aligned, and the test of the queue finds no collision. */
    ghost predicate Accepts(entry: Mapping)
      requires queueSize <= queue.Length
      reads this, queue
    {
      queueSize < QUEUE_LENGTH && EarlyMappingValid(entry) && forall m | m in Entries() :: !Collides(entry, m)
    }

    /** The ranges given by the two cursors, and what the queue let pass. */
    ghost predicate Valid()
      reads this, queue
    {
      && queue.Length == QUEUE_LENGTH && queueSize <= QUEUE_LENGTH
      && Accepted(Entries())
      && Contiguous(memory, KERN_BASE, memTop) && KERN_BASE <= memTop <= KMMAP_BASE
      && Contiguous(kmmap, KMMAP_BASE, kmmapTop) && KMMAP_BASE <= kmmapTop <= RESERVED_BASE
      && (forall m | m in memory + kmmap :: m in Entries())
    }

    constructor ()
      ensures Valid() && Entries() == [] && memTop == KERN_BASE && kmmapTop == KMMAP_BASE
      ensures memory == [] && kmmap == [] && fresh(queue)
    {
      queue := new Mapping[QUEUE_LENGTH](_ => Mapping(0, 0, 0, 0));
      queueSize, memTop, kmmapTop := 0, KERN_BASE, KMMAP_BASE;
      memory, kmmap := [], [];
    }

    method Clear()
      requires Valid()
      modifies this
      ensures Valid() && Entries() == [] && memTop == KERN_BASE && kmmapTop == KMMAP_BASE
      ensures memory == [] && kmmap == []
    {
      queueSize, memTop, kmmapTop := 0, KERN_BASE, KMMAP_BASE;
      memory, kmmap := [], [];
    }

    method Add(entry: Mapping) returns (r: int)
      requires Valid() && Fits(entry)
      modifies this`queueSize, queue
      ensures Valid()
      ensures r == 0 || r == -ENOMEM || r == -EINVAL
      ensures r == -ENOMEM <==> old(queueSize) == QUEUE_LENGTH
      ensures r == 0 <==> old(Accepts(entry))
      ensures Entries() == if r == 0 then old(Entries()) + [entry] else old(Entries())
    {
      hide EarlyMappingValid, Collides, Contiguous, Fits;
      if queueSize == QUEUE_LENGTH {
        return -ENOMEM;
      }
      if !EarlyMappingValid(entry) {
        return -EINVAL;
      }
      for i := 0 to queueSize
        modifies {}
        invariant forall j :: 0 <= j < i ==> !Collides(entry, queue[j])
      {
        CollidesIs(entry, queue[i]);
        if Overlap(entry.vaddr, entry.size, queue[i].vaddr, queue[i].size) {
          assert queue[i] in Entries();
          return -EINVAL;
        }
      }
      forall m | m in Entries() ensures !Collides(entry, m) {
        var j :| 0 <= j < queueSize && queue[j] == m;
      }
      queue[queueSize] := entry;
      queueSize := queueSize + 1;
      assert Entries() == old(Entries()) + [entry];
      r := 0;
    }

    /** A linear mapping at the memory cursor, cut to what is left below KMMAP_BASE; the size mapped, or
        0 and no change of the cursor. */
    method AddMemory(base: nat, size: nat) returns (n: nat)
      requires Valid() && base < WORD * WORD && size < WORD
      modifies this, queue
      ensures Valid() && kmmap == old(kmmap) && kmmapTop == old(kmmapTop)
      ensures var left := KMMAP_BASE - old(memTop);
              var entry := Mapping(base, old(memTop), if size > left then left else size, MEMORY);
              if left > 0 && old(Accepts(entry))
              then n == entry.size && memTop == old(memTop) + n
                   && memory == old(memory) + [entry] && Entries() == old(Entries()) + [entry]
              else n == 0 && memTop == old(memTop) && memory == old(memory) && Entries() == old(Entries())
    {
      hide EarlyMappingValid, Collides;
      if memTop >= KMMAP_BASE {
        return 0;
      }
      var sz := if size > KMMAP_BASE - memTop then KMMAP_BASE - memTop else size;
      var entry := Mapping(base, memTop, sz, MEMORY);
      var r := Add(entry);
      if r < 0 {
        return 0;
      }
      memory := memory + [entry];
      assert memory[..|memory| - 1] == old(memory);
      memTop := memTop + sz;
      n := sz;
    }

    /** A mapping at the kmmap cursor; its address, or NULL and no change at all. */
    method AddKmmap(base: nat, size: nat) returns (ptr: nat)
      requires Valid() && base < WORD * WORD && size < WORD
      modifies this, queue
      ensures Valid() && memory == old(memory) && memTop == old(memTop)
      ensures var entry := Mapping(base, old(kmmapTop), size, KMMAP);
              if old(kmmapTop) < RESERVED_BASE && size <= RESERVED_BASE - old(kmmapTop) && old(Accepts(entry))
              then ptr == old(kmmapTop) && kmmapTop == ptr + size
                   && kmmap == old(kmmap) + [entry] && Entries() == old(Entries()) + [entry]
              else ptr == NULL && kmmapTop == old(kmmapTop) && kmmap == old(kmmap) && Entries() == old(Entries())
    {
      hide EarlyMappingValid, Collides;
      if kmmapTop >= RESERVED_BASE {
        return NULL;
      }
      if size > RESERVED_BASE - kmmapTop {
        return NULL;
      }
      var entry := Mapping(base, kmmapTop, size, KMMAP);
      var r := Add(entry);
      if r < 0 {
        return NULL;
      }
      kmmap := kmmap + [entry];
      assert kmmap[..|kmmap| - 1] == old(kmmap);
      kmmapTop := kmmapTop + size;
      ptr := entry.vaddr;
    }

    /** The iterator: the index of the first entry for None, of the next one otherwise; None at the end. */
    function Next(base: int): (next: int)
      reads this
    {
      var tmp := if base < 0 then 0 else base + 1;
      if tmp >= queueSize then -1 else tmp
    }
  }

  /** ROUNDUP to 2 MB in 64 bits, stored in the 32 bits of the field. */
  function JumpSize(x: nat): nat { (x + BIGPAGE - 1) % (WORD * WORD) / BIGPAGE * BIGPAGE % WORD }

  /** The identity mapping and the mapping at KERN_BASE of low memory; panics when one is refused. */
  method InitJmphighMapping(em: EarlyMappings, lowSize: nat, highSize: nat) returns (panicked: bool)
    requires em.Valid() && lowSize < WORD * WORD && highSize < WORD * WORD
    modifies em, em.queue
    ensures em.Valid()
    ensures !panicked ==> em.Entries() == old(em.Entries()) + [Mapping(0, 0, JumpSize(lowSize), MEMORY)]
                                          + [Mapping(0, KERN_BASE, JumpSize(highSize), MEMORY)]
    ensures old(em.Entries()) == [] ==> (panicked <==> JumpSize(lowSize) > KERN_BASE)
  {
    hide EarlyMappingValid, JumpSize, Collides;
    JmphighValid(lowSize);
    JmphighValid(highSize);
    var r := em.Add(Mapping(0, 0, JumpSize(lowSize), MEMORY));
    if r < 0 { return true; }
    JmphighApart(JumpSize(lowSize), JumpSize(highSize));
    assert old(em.Entries()) == [] ==> em.Entries() == [Mapping(0, 0, JumpSize(lowSize), MEMORY)];
    r := em.Add(Mapping(0, KERN_BASE, JumpSize(highSize), MEMORY));
    panicked := r < 0;
  }

  lemma JmphighApart(low: nat, high: nat)
    requires low < WORD
    ensures Collides(Mapping(0, KERN_BASE, high, MEMORY), Mapping(0, 0, low, MEMORY)) <==> low > KERN_BASE
  {
  }

  lemma JmphighValid(size: nat)
    ensures JumpSize(size) < WORD
    ensures EarlyMappingValid(Mapping(0, 0, JumpSize(size), MEMORY))
    ensures EarlyMappingValid(Mapping(0, KERN_BASE, JumpSize(size), MEMORY))
  {
    hide BigPageOff;
    BigPageAligned(0);
    BigPageAligned(KERN_BASE);
    BigPageAligned(JumpSize(size));
    JumpSizeAligned((size + BIGPAGE - 1) % (WORD * WORD) / BIGPAGE);
  }

  /** Rounded up to the next 2 MB, as long as that fits the field. */
  lemma JumpSizeExact(x: nat)
    requires x + BIGPAGE <= WORD
    ensures JumpSize(x) % BIGPAGE == 0 && x <= JumpSize(x) < x + BIGPAGE
  {
    var y := x + BIGPAGE - 1;
    DivUnique(y, WORD * WORD, 0, y);
    DivUnique(y / BIGPAGE * BIGPAGE, WORD, 0, y / BIGPAGE * BIGPAGE);
    JumpSizeAligned(y / BIGPAGE);
  }

  lemma JumpSizeAligned(x: nat)
    ensures x * BIGPAGE % WORD % BIGPAGE == 0
  {
    var q := x / 2048;
    DivUnique(x * BIGPAGE, WORD, q, x % 2048 * BIGPAGE);
    DivUnique(x % 2048 * BIGPAGE, BIGPAGE, x % 2048, 0);
  }

  lemma CollidesIs(a: Mapping, b: Mapping)
    ensures Collides(a, b) <==> Overlap(a.vaddr, a.size, b.vaddr, b.size)
  {
  }

  /** Ranges given by one cursor lie between its start and where it stands, one after the other. */
  lemma {:induction false} CursorRanges(ms: seq<Mapping>, bottom: nat, top: nat, i: nat, j: nat)
    requires Contiguous(ms, bottom, top) && i <= j < |ms|
    ensures bottom <= ms[i].vaddr && ms[j].vaddr + ms[j].size <= top
    ensures i < j ==> ms[i].vaddr + ms[i].size <= ms[j].vaddr
  {
    var last := ms[|ms| - 1];
    if j < |ms| - 1 {
      CursorRanges(ms[..|ms| - 1], bottom, last.vaddr, i, j);
    } else if i < j {
      CursorRanges(ms[..|ms| - 1], bottom, last.vaddr, i, |ms| - 2);
    } else {
      CursorAbove(ms, bottom, top);
    }
  }

  lemma {:induction false} CursorAbove(ms: seq<Mapping>, bottom: nat, top: nat)
    requires Contiguous(ms, bottom, top)
    ensures bottom <= top && (ms != [] ==> bottom <= ms[|ms| - 1].vaddr)
  {
    if ms != [] { CursorAbove(ms[..|ms| - 1], bottom, ms[|ms| - 1].vaddr); }
  }

  /** Two accepted mappings intersect exactly when the test of the queue misses them: with distinct starts
      and below the top of the address space they are disjoint. */
  lemma AcceptedApart(q: seq<Mapping>, i: nat, j: nat)
    requires Accepted(q) && i < j < |q|
    ensures Intersect(q[j], q[i]) <==> Missed(q[j], q[i])
    ensures q[i].vaddr != q[j].vaddr && q[i].vaddr + q[i].size < WORD && q[j].vaddr + q[j].size < WORD ==> !Intersect(q[j], q[i])
  {
    hide Intersect, Collides;
    OverlapMisses(q[j], q[i]);
  }
}
