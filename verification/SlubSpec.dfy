/** What the memory of the slub allocator stands for: 4 KB blocks cut into slots of one size, each with
    a header that threads its free slots, and two lists of blocks for every size. */
module SlubSpec {
  import opened Words
  import opened ListHead

  const BLOCK := 4096
  const MIN_LEVEL := 4
  const MAX_LEVEL := 10
  const LEVELS := MAX_LEVEL - MIN_LEVEL + 1

  /** `sizeof(struct slub_header)` on the 32-bit target: two list heads and an int. */
  const HEADER := 20

  /** SOLTS_OFFSET: the header size rounded up to the slot size. */
  function SlotsOffset(level: nat): nat { Or(HEADER - 1, Pow2(level) - 1) + 1 }

  /** CALC_MAXSOLTS. */
  function MaxSlots(level: nat): nat { Shr(BLOCK - HEADER, level) }

  function SlotAt(b: nat, level: nat, i: nat): nat { b + SlotsOffset(level) + Pow2(level) * i }

  /** `x` is the address of a slot of the block at `b`. */
  ghost predicate IsSlot(b: int, level: nat, x: int) {
    0 <= b && b + SlotsOffset(level) <= x < b + BLOCK && Aligned(x, level)
  }

  function BlockOf(x: int): int
    requires 0 <= x
  {
    Down(x, 12)
  }

  ghost predicate GoodLevel(level: nat) { MIN_LEVEL <= level <= MAX_LEVEL }

  // ---------------------------------------------------------------- arithmetic of slots

  lemma Constants()
    ensures Pow2(4) == 16 && Pow2(10) == 1024 && Pow2(12) == BLOCK
  {
  }

  lemma LevelSizes(level: nat)
    requires GoodLevel(level)
    ensures Pow2(level) in {16, 32, 64, 128, 256, 512, 1024}
  {
    assert Pow2(4) == 16;
    assert Pow2(7) == 128;
    assert Pow2(10) == 1024;
  }

  lemma LevelSums(level: nat)
    requires GoodLevel(level)
    ensures Down(HEADER - 1, level) + Pow2(level) + Down(BLOCK - HEADER, level) == BLOCK
    ensures 32 <= Down(HEADER - 1, level) + Pow2(level) && Pow2(level) <= 1024 && 0 < Down(BLOCK - HEADER, level)
  {
    hide Pow2, Down;
    LevelSizes(level);
    ShrIsDiv(HEADER - 1, level);
    ShrIsDiv(BLOCK - HEADER, level);
  }

  /** The slots fill the block to its last byte, whatever their size. */
  lemma SlotsFillBlock(level: nat)
    requires GoodLevel(level)
    ensures SlotsOffset(level) + Pow2(level) * MaxSlots(level) == BLOCK
    ensures 32 <= SlotsOffset(level) && Aligned(SlotsOffset(level), level) && Pow2(level) <= 1024
    ensures SlotsOffset(level) < HEADER + Pow2(level)
    ensures 0 < MaxSlots(level)
  {
    hide Or, Shr, Pow2, Down;
    LevelSums(level);
    OrMaskFillsRun(HEADER - 1, level);
    ShrIsDiv(BLOCK - HEADER, level);
    DownDown(HEADER - 1, level, level);
    AlignedMultiple(level, 1);
    AlignedSum(Down(HEADER - 1, level), Pow2(level) * 1, level);
  }

  lemma Aligned16(x: nat, k: nat)
    requires Aligned(x, k) && 4 <= k
    ensures x % 16 == 0
  {
    AlignedCoarser(x, 4, k);
    ShrIsDiv(x, 4);
    Constants();
  }

  lemma SlotInBlock(b: nat, level: nat, x: int)
    requires GoodLevel(level) && Aligned(b, 12) && IsSlot(b, level, x)
    ensures b + 32 <= x && x + Pow2(level) <= b + BLOCK
    ensures BlockOf(x) == b && x % 16 == 0 && !Aligned(x, 12)
  {
    SlotsFillBlock(level);
    Constants();
    DownOfOffset(b, 12, x);
    Aligned16(x, level);
    DownOfOffset(0, level, 0);
    AlignedCoarser(b, level, 12);
    AlignedMultiple(12, 1);
    AlignedSum(b, BLOCK, 12);
    AlignedCoarser(b + BLOCK, level, 12);
    AlignedStep(x, b + BLOCK, level);
  }

  lemma SlotAtIsSlot(b: nat, level: nat, i: nat)
    requires GoodLevel(level) && Aligned(b, 12) && i < MaxSlots(level)
    ensures IsSlot(b, level, SlotAt(b, level, i))
    ensures SlotAt(b, level, i + 1) == SlotAt(b, level, i) + Pow2(level)
  {
    hide Or, Shr, Down, Pow2;
    SlotsFillBlock(level);
    AlignedCoarser(b, level, 12);
    AlignedMultiple(level, i);
    AlignedSum(b, SlotsOffset(level), level);
    AlignedSum(b + SlotsOffset(level), Pow2(level) * i, level);
    MulMonotone(Pow2(level), i + 1, MaxSlots(level));
  }

  // ---------------------------------------------------------------- the state

  /** The lists of the blocks of one level with free slots, and of those without. */
  function BlockList(full: bool, i: nat): int { if full then -8 - i else -1 - i }

  /** Offsets in `struct slub_header`: `node` is at 0. */
  const FREE_LIST := 8
  const LEVEL_IDX := 16

  /** All list pointers, all level_idx fields, what every list holds, the level of every block, and the
      size asked for of every small object. */
  datatype Slab = Slab(links: Links, levelIdx: map<int, nat>, rings: map<int, seq<int>>,
                       level: map<int, nat>, small: map<int, nat>)

  ghost predicate Heads(rings: map<int, seq<int>>, level: map<int, nat>) {
    && (forall f, i :: 0 <= i < LEVELS ==> BlockList(f, i) in rings)
    && (forall h | h in rings :: if h < 0 then -14 <= h else h - FREE_LIST in level)
  }

  ghost predicate Blocks(s: Slab) {
    forall b | b in s.level ::
      0 <= b && Aligned(b, 12) && GoodLevel(s.level[b]) && b + FREE_LIST in s.rings
      && b + LEVEL_IDX in s.levelIdx && s.levelIdx[b + LEVEL_IDX] == s.level[b] - MIN_LEVEL
  }

  ghost predicate SlotOk(s: Slab, b: int, x: int)
    requires b in s.level && b + FREE_LIST in s.rings
  {
    x in s.rings[b + FREE_LIST] <==> IsSlot(b, s.level[b], x) && x !in s.small
  }

  /** Every slot of every block is either on the free list of its block or a small object. */
  ghost predicate Slots(s: Slab) {
    forall b, x | b in s.level && b + FREE_LIST in s.rings :: SlotOk(s, b, x)
  }

  ghost predicate SmallOk(s: Slab, x: int) {
    x in s.small && 0 <= x && BlockOf(x) in s.level
    && IsSlot(BlockOf(x), s.level[BlockOf(x)], x) && s.small[x] <= Pow2(s.level[BlockOf(x)])
  }

  ghost predicate Smalls(s: Slab) {
    forall x | x in s.small :: SmallOk(s, x)
  }

  /** `place` says of every block that is on a list which of the two lists of its level it is on. */
  ghost predicate Placed(s: Slab, place: map<int, bool>) {
    && place.Keys <= s.level.Keys
    && forall f, i, b :: 0 <= i < LEVELS && BlockList(f, i) in s.rings ==>
         (b in s.rings[BlockList(f, i)] <==> b in place && place[b] == f && s.level[b] == i + MIN_LEVEL)
  }

  ghost predicate Core(s: Slab, place: map<int, bool>) {
    && Family(s.links, s.rings) && Heads(s.rings, s.level) && Blocks(s)
    && Slots(s) && Smalls(s) && Placed(s, place)
  }

  /** Every block is on the list where it belongs: on the full list iff it has no free slot. */
  ghost function ProperPlace(s: Slab): map<int, bool> {
    map b | b in s.level :: b + FREE_LIST in s.rings && s.rings[b + FREE_LIST] == []
  }

  ghost predicate Inv(s: Slab) {
    Core(s, ProperPlace(s))
  }

  lemma BlockFacts(s: Slab, place: map<int, bool>, b: int)
    requires Core(s, place) && b in s.level
    ensures 0 <= b && Aligned(b, 12) && GoodLevel(s.level[b]) && b + FREE_LIST in s.rings
    ensures b + LEVEL_IDX in s.levelIdx && s.levelIdx[b + LEVEL_IDX] == s.level[b] - MIN_LEVEL
  {
  }

  /** A location on a free list is the list head in a block or a slot that is not in use. */
  lemma OnFreeList(s: Slab, place: map<int, bool>, h: int, x: int)
    requires Core(s, place) && h in s.rings && 0 <= h && OnRing(h, s.rings[h], x)
    ensures h - FREE_LIST in s.level && (x == h || (IsSlot(h - FREE_LIST, s.level[h - FREE_LIST], x) && x !in s.small))
  {
    hide Family, Blocks, Smalls, IsSlot, Down, Placed;
    var b := h - FREE_LIST;
    assert b + FREE_LIST == h;
    assert SlotOk(s, b, x);
  }

  /** A location on a list of blocks is its head or a placed block. */
  lemma OnBlockList(s: Slab, place: map<int, bool>, h: int, x: int)
    requires Core(s, place) && h in s.rings && h < 0 && OnRing(h, s.rings[h], x)
    ensures x < 0 || x in place
  {
    hide Family, Blocks, Smalls, Slots, Down;
    var f, i := h <= -8, if h <= -8 then -8 - h else -1 - h;
    assert BlockList(f, i) == h;
  }

  lemma NotHeader(s: Slab, place: map<int, bool>, h: int, x: int)
    requires Core(s, place) && h - FREE_LIST in s.level && 0 <= x && x % 16 == 0
    ensures x != h
  {
    hide Core, Down;
    BlockFacts(s, place, h - FREE_LIST);
    Aligned16(h - FREE_LIST, 12);
  }

  /** The slot of a small object is on no ring. */
  lemma SmallUnused(s: Slab, place: map<int, bool>, x: int)
    requires Core(s, place) && x in s.small
    ensures SmallOk(s, x) && Unused(s.rings, x) && BlockOf(x) + FREE_LIST in s.rings
  {
    assert SmallOk(s, x);
    var b := BlockOf(x);
    BlockFacts(s, place, b);
    SlotInBlock(b, s.level[b], x);
    assert x !in place by { if x in place { BlockFacts(s, place, x); assert false; } }
    hide Core, Down, IsSlot;
    forall h | h in s.rings ensures !OnRing(h, s.rings[h], x) {
      if OnRing(h, s.rings[h], x) {
        if h < 0 {
          OnBlockList(s, place, h, x);
        } else {
          OnFreeList(s, place, h, x);
          NotHeader(s, place, h, x);
        }
        assert false;
      }
    }
  }

  /** A block that is on neither list of its level is on no ring. */
  lemma BlockUnused(s: Slab, place: map<int, bool>, b: int)
    requires Core(s, place) && 0 <= b && Aligned(b, 12) && b !in place
    ensures Unused(s.rings, b)
  {
    hide Core, Down, IsSlot;
    Aligned16(b, 12);
    forall h | h in s.rings ensures !OnRing(h, s.rings[h], b) {
      if OnRing(h, s.rings[h], b) {
        if h < 0 {
          OnBlockList(s, place, h, b);
        } else {
          OnFreeList(s, place, h, b);
          NotHeader(s, place, h, b);
          BlockFacts(s, place, h - FREE_LIST);
          SlotInBlock(h - FREE_LIST, s.level[h - FREE_LIST], b);
        }
        assert false;
      }
    }
  }

  function Popped(s: Slab, b: int, size: nat): Slab
    requires b + FREE_LIST in s.rings && s.rings[b + FREE_LIST] != []
    requires s.rings[b + FREE_LIST][0] in s.links.next && s.rings[b + FREE_LIST][0] in s.links.prev
  {
    var x := s.rings[b + FREE_LIST][0];
    s.(links := Deleted(s.links, x), rings := s.rings[b + FREE_LIST := Without(s.rings[b + FREE_LIST], 0)],
       small := s.small[x := size])
  }

  /** A change of one free list that keeps slots and small objects in order keeps everything in order. */
  lemma FreeListChange(s: Slab, s': Slab, place: map<int, bool>, b: int, t: seq<int>)
    requires Core(s, place) && b in s.level
    requires s'.level == s.level && s'.levelIdx == s.levelIdx && s'.rings == s.rings[b + FREE_LIST := t]
    requires Family(s'.links, s'.rings) && Slots(s') && Smalls(s')
    ensures Core(s', place)
  {
    hide Family, Slots, Smalls, Aligned;
    BlockFacts(s, place, b);
    assert forall f, i: nat :: 0 <= i < LEVELS ==> BlockList(f, i) != b + FREE_LIST;
  }

  /** `malloc_from_slub`: the first free slot becomes a small object. */
  lemma PopSlot(s: Slab, place: map<int, bool>, b: int, size: nat)
    requires Core(s, place) && b in s.level && b + FREE_LIST in s.rings && s.rings[b + FREE_LIST] != []
    requires size <= Pow2(s.level[b])
    ensures var x := s.rings[b + FREE_LIST][0];
            && b + FREE_LIST in s.links.next && s.links.next[b + FREE_LIST] == x
            && x in s.links.next && x in s.links.prev
            && x !in s.small && 0 <= x && BlockOf(x) == b && IsSlot(b, s.level[b], x)
            && Core(Popped(s, b, size), place)
  {
    var h := b + FREE_LIST;
    var x := s.rings[h][0];
    HeadLinked(s.links, h, s.rings[h]);
    FamilyDel(s.links, s.rings, h, 0);
    assert SlotOk(s, b, x) && x in s.rings[h];
    BlockFacts(s, place, b);
    SlotInBlock(b, s.level[b], x);
    PoppedRest(s, place, b, size);
    FreeListChange(s, Popped(s, b, size), place, b, Without(s.rings[h], 0));
  }

  lemma PoppedRest(s: Slab, place: map<int, bool>, b: int, size: nat)
    requires Core(s, place) && b in s.level && b + FREE_LIST in s.rings && s.rings[b + FREE_LIST] != []
    requires NoDup(s.rings[b + FREE_LIST]) && size <= Pow2(s.level[b])
    requires s.rings[b + FREE_LIST][0] in s.links.next && s.rings[b + FREE_LIST][0] in s.links.prev
    ensures Slots(Popped(s, b, size)) && Smalls(Popped(s, b, size))
  {
    var x, s' := s.rings[b + FREE_LIST][0], Popped(s, b, size);
    assert SlotOk(s, b, x) && x in s.rings[b + FREE_LIST];
    BlockFacts(s, place, b);
    SlotInBlock(b, s.level[b], x);
    forall c, y | c in s'.level && c + FREE_LIST in s'.rings ensures SlotOk(s', c, y) {
      BlockFacts(s, place, c);
      PoppedSlot(s, place, b, size, c, y);
    }
    forall y | y in s'.small ensures SmallOk(s', y) {
      hide Family, IsSlot, Down, Slots, Placed, Heads;
      assert y != x ==> SmallOk(s, y);
    }
  }

  lemma PoppedSlot(s: Slab, place: map<int, bool>, b: int, size: nat, c: int, y: int)
    requires Core(s, place) && b in s.level && b + FREE_LIST in s.rings && s.rings[b + FREE_LIST] != []
    requires NoDup(s.rings[b + FREE_LIST]) && c in s.level && c + FREE_LIST in s.rings
    requires s.rings[b + FREE_LIST][0] in s.links.next && s.rings[b + FREE_LIST][0] in s.links.prev
    ensures SlotOk(Popped(s, b, size), c, y)
  {
    var h := b + FREE_LIST;
    var x := s.rings[h][0];
    assert SlotOk(s, c, y) && SlotOk(s, b, x);
    assert x in s.rings[h];
    BlockFacts(s, place, b);
    BlockFacts(s, place, c);
    SlotInBlock(b, s.level[b], x);
    hide Core, Down, Without, Deleted;
    if c == b {
      WithoutElements(s.rings[h], 0);
    } else if IsSlot(c, s.level[c], y) {
      SlotInBlock(c, s.level[c], y);
    }
  }

  function Pushed(s: Slab, x: int): Slab
    requires 0 <= x && BlockOf(x) + FREE_LIST in s.rings && BlockOf(x) + FREE_LIST in s.links.next
  {
    var h := BlockOf(x) + FREE_LIST;
    s.(links := Added(s.links, x, h), rings := s.rings[h := [x] + s.rings[h]], small := s.small - {x})
  }

  /** `list_add` of the slot of a small object to the free list of its block. */
  lemma PushSlot(s: Slab, place: map<int, bool>, x: int)
    requires Core(s, place) && x in s.small
    ensures SmallOk(s, x) && BlockOf(x) + FREE_LIST in s.rings && BlockOf(x) + FREE_LIST in s.links.next
    ensures Core(Pushed(s, x), place)
  {
    SmallUnused(s, place, x);
    var b := BlockOf(x);
    var h := b + FREE_LIST;
    FamilyAdd(s.links, s.rings, h, x);
    PushedRest(s, place, x);
    FreeListChange(s, Pushed(s, x), place, b, [x] + s.rings[h]);
  }

  lemma PushedRest(s: Slab, place: map<int, bool>, x: int)
    requires Core(s, place) && x in s.small && SmallOk(s, x)
    requires BlockOf(x) + FREE_LIST in s.rings && BlockOf(x) + FREE_LIST in s.links.next
    ensures Slots(Pushed(s, x)) && Smalls(Pushed(s, x))
  {
    var s' := Pushed(s, x);
    forall c, y | c in s'.level && c + FREE_LIST in s'.rings ensures SlotOk(s', c, y) {
      BlockFacts(s, place, c);
      PushedSlot(s, place, x, c, y);
    }
    forall y | y in s'.small ensures SmallOk(s', y) {
      hide Family, IsSlot, Down, Slots, Placed, Heads, Added;
      assert SmallOk(s, y);
    }
  }

  lemma PushedSlot(s: Slab, place: map<int, bool>, x: int, c: int, y: int)
    requires Core(s, place) && x in s.small && SmallOk(s, x)
    requires c in s.level && c + FREE_LIST in s.rings
    requires BlockOf(x) + FREE_LIST in s.rings && BlockOf(x) + FREE_LIST in s.links.next
    ensures SlotOk(Pushed(s, x), c, y)
  {
    assert SlotOk(s, c, y);
    BlockFacts(s, place, c);
    hide Core, Down, Added;
    if IsSlot(c, s.level[c], y) { SlotInBlock(c, s.level[c], y); }
  }

  function LevelList(s: Slab, b: int, full: bool): int
    requires b in s.level && GoodLevel(s.level[b])
  {
    BlockList(full, s.level[b] - MIN_LEVEL)
  }

  /** A change of one list of blocks touches no free list and no small object. */
  lemma BlockListChange(s: Slab, s': Slab, place: map<int, bool>, place': map<int, bool>, h: int, t: seq<int>)
    requires Core(s, place) && h in s.rings && h < 0
    requires s' == s.(links := s'.links, rings := s.rings[h := t])
    requires Family(s'.links, s'.rings) && Placed(s', place')
    ensures Core(s', place')
  {
    hide Family, Placed, Ring, Aligned, IsSlot;
    forall c, y | c in s'.level && c + FREE_LIST in s'.rings ensures SlotOk(s', c, y) { assert SlotOk(s, c, y); }
    forall x | x in s'.small ensures SmallOk(s', x) { assert SmallOk(s, x); }
  }

  lemma BlockListsDistinct(f: bool, i: nat, g: bool, j: nat)
    requires i < LEVELS && j < LEVELS && BlockList(f, i) == BlockList(g, j)
    ensures f == g && i == j
  {
  }

  /** `list_del` of a block from the list it is on. */
  lemma UnlinkBlock(s: Slab, place: map<int, bool>, b: int) returns (k: nat)
    requires Core(s, place) && b in place
    ensures b in s.level && GoodLevel(s.level[b])
    ensures var h := LevelList(s, b, place[b]);
            && h in s.rings && k < |s.rings[h]| && s.rings[h][k] == b
            && b in s.links.next && b in s.links.prev
            && Core(s.(links := Deleted(s.links, b), rings := s.rings[h := Without(s.rings[h], k)]), place - {b})
  {
    BlockFacts(s, place, b);
    var h := LevelList(s, b, place[b]);
    assert b in s.rings[h];
    k :| 0 <= k < |s.rings[h]| && s.rings[h][k] == b;
    FamilyDel(s.links, s.rings, h, k);
    var t := Without(s.rings[h], k);
    var s' := s.(links := Deleted(s.links, b), rings := s.rings[h := t]);
    UnlinkPlaced(s, s', place, b, k);
    hide Core, Family, Deleted, Without;
    BlockListChange(s, s', place, place - {b}, h, t);
  }

  lemma UnlinkPlaced(s: Slab, s': Slab, place: map<int, bool>, b: int, k: nat)
    requires Placed(s, place) && b in place && b in s.level && GoodLevel(s.level[b])
    requires var h := LevelList(s, b, place[b]);
             h in s.rings && k < |s.rings[h]| && s.rings[h][k] == b && NoDup(s.rings[h])
             && s'.rings == s.rings[h := Without(s.rings[h], k)] && s'.level == s.level
    ensures Placed(s', place - {b})
  {
    hide Without;
    var h := LevelList(s, b, place[b]);
    WithoutElements(s.rings[h], k);
    forall f, i: nat, c | i < LEVELS && BlockList(f, i) in s'.rings
      ensures c in s'.rings[BlockList(f, i)] <==> c in place - {b} && place[c] == f && s.level[c] == i + MIN_LEVEL
    {
      assert c in s.rings[BlockList(f, i)] <==> c in place && place[c] == f && s.level[c] == i + MIN_LEVEL;
      if BlockList(f, i) == h { BlockListsDistinct(f, i, place[b], s.level[b] - MIN_LEVEL); }
    }
  }

  /** `list_add` of a block to one of the lists of its level. */
  lemma LinkBlock(s: Slab, place: map<int, bool>, b: int, full: bool)
    requires Core(s, place) && b in s.level && b !in place
    ensures GoodLevel(s.level[b])
    ensures var h := LevelList(s, b, full);
            && h in s.rings && h in s.links.next
            && Core(s.(links := Added(s.links, b, h), rings := s.rings[h := [b] + s.rings[h]]), place[b := full])
  {
    BlockFacts(s, place, b);
    var h := LevelList(s, b, full);
    BlockUnused(s, place, b);
    assert h in s.rings;
    FamilyAdd(s.links, s.rings, h, b);
    var s' := s.(links := Added(s.links, b, h), rings := s.rings[h := [b] + s.rings[h]]);
    LinkPlaced(s, s', place, b, full);
    hide Core, Family, Added;
    BlockListChange(s, s', place, place[b := full], h, [b] + s.rings[h]);
  }

  lemma LinkPlaced(s: Slab, s': Slab, place: map<int, bool>, b: int, full: bool)
    requires Placed(s, place) && b !in place && b in s.level && GoodLevel(s.level[b])
    requires var h := LevelList(s, b, full);
             h in s.rings && s'.rings == s.rings[h := [b] + s.rings[h]] && s'.level == s.level
    ensures Placed(s', place[b := full])
  {
    var h, place' := LevelList(s, b, full), place[b := full];
    forall f, i: nat, c | i < LEVELS && BlockList(f, i) in s'.rings
      ensures c in s'.rings[BlockList(f, i)] <==> c in place' && place'[c] == f && s.level[c] == i + MIN_LEVEL
    {
      assert c in s.rings[BlockList(f, i)] <==> c in place && place[c] == f && s.level[c] == i + MIN_LEVEL;
      if BlockList(f, i) == h { BlockListsDistinct(f, i, full, s.level[b] - MIN_LEVEL); }
    }
  }

  // ---------------------------------------------------------------- a new block

  /** All slots of a block, as small objects of size 0. */
  ghost function SlotMap(b: int, level: nat): map<int, nat> {
    map x: int | b <= x < b + BLOCK && IsSlot(b, level, x) :: 0
  }

  /** The block at `b` with its header set up and none of its slots on the free list yet: until they
      are, they count as small objects. */
  ghost function WithBlock(s: Slab, b: int, level: nat): Slab
    requires GoodLevel(level)
  {
    Slab(Initialised(s.links, b + FREE_LIST), s.levelIdx[b + LEVEL_IDX := level - MIN_LEVEL],
         s.rings[b + FREE_LIST := []], s.level[b := level], s.small + SlotMap(b, level))
  }

  lemma PlacedIsBlock(s: Slab, place: map<int, bool>, b: int)
    requires Core(s, place) && b in place
    ensures b in s.level
  {
  }

  lemma HeaderNotPlaced(s: Slab, place: map<int, bool>, b: int)
    requires Core(s, place) && 0 <= b && Aligned(b, 12) && b !in s.level
    ensures b !in place && b + FREE_LIST !in place
  {
    hide Core, Down;
    Aligned16(b, 12);
    if b in place { PlacedIsBlock(s, place, b); }
    if b + FREE_LIST in place {
      PlacedIsBlock(s, place, b + FREE_LIST);
      BlockFacts(s, place, b + FREE_LIST);
      Aligned16(b + FREE_LIST, 12);
      assert false;
    }
  }

  lemma FreeListUnused(s: Slab, place: map<int, bool>, b: int)
    requires Core(s, place) && 0 <= b && Aligned(b, 12) && b !in s.level
    ensures b !in place && Unused(s.rings, b + FREE_LIST)
  {
    hide Core, Down, IsSlot;
    HeaderNotPlaced(s, place, b);
    Aligned16(b, 12);
    forall h | h in s.rings ensures !OnRing(h, s.rings[h], b + FREE_LIST) {
      if OnRing(h, s.rings[h], b + FREE_LIST) {
        if h < 0 {
          OnBlockList(s, place, h, b + FREE_LIST);
        } else {
          OnFreeList(s, place, h, b + FREE_LIST);
          BlockFacts(s, place, h - FREE_LIST);
          SlotInBlock(h - FREE_LIST, s.level[h - FREE_LIST], b + FREE_LIST);
        }
        assert false;
      }
    }
  }

  lemma NewBlockSlots(s: Slab, place: map<int, bool>, b: int, level: nat)
    requires Core(s, place) && 0 <= b && Aligned(b, 12) && b !in s.level && GoodLevel(level)
    ensures Slots(WithBlock(s, b, level)) && Smalls(WithBlock(s, b, level))
  {
    var s' := WithBlock(s, b, level);
    forall c, y | c in s'.level && c + FREE_LIST in s'.rings ensures SlotOk(s', c, y) {
      if c != b {
        assert SlotOk(s, c, y);
        BlockFacts(s, place, c);
        hide Core, Down, Initialised;
        if IsSlot(c, s.level[c], y) { SlotInBlock(c, s.level[c], y); }
        if IsSlot(b, level, y) { SlotInBlock(b, level, y); }
      }
    }
    forall y | y in s'.small ensures SmallOk(s', y) {
      hide Family, Slots, Placed, Heads, Initialised;
      if y in SlotMap(b, level) {
        SlotInBlock(b, level, y);
      } else {
        assert SmallOk(s, y);
      }
    }
  }

  lemma NewBlockRest(s: Slab, place: map<int, bool>, b: int, level: nat)
    requires Core(s, place) && 0 <= b && Aligned(b, 12) && b !in s.level && GoodLevel(level)
    ensures var s' := WithBlock(s, b, level); Heads(s'.rings, s'.level) && Blocks(s') && Placed(s', place)
  {
    hide Family, Slots, Smalls, Aligned, Initialised, SlotMap, Placed;
    assert forall f, i: nat :: 0 <= i < LEVELS ==> BlockList(f, i) != b + FREE_LIST;
    NewBlockPlaced(s, WithBlock(s, b, level), place, b, level);
  }

  lemma NewBlockPlaced(s: Slab, s': Slab, place: map<int, bool>, b: int, level: nat)
    requires Placed(s, place) && 0 <= b && b !in s.level
    requires s'.level == s.level[b := level] && s'.rings == s.rings[b + FREE_LIST := []]
    ensures Placed(s', place)
  {
  }

  lemma NewBlock(s: Slab, place: map<int, bool>, b: int, level: nat)
    requires Core(s, place) && 0 <= b && Aligned(b, 12) && b !in s.level && GoodLevel(level)
    ensures Core(WithBlock(s, b, level), place) && b !in place
  {
    hide Family, Slots, Smalls, Heads, Placed, Blocks, Aligned, Initialised, SlotMap;
    FreeListUnused(s, place, b);
    FamilyInit(s.links, s.rings, b + FREE_LIST);
    NewBlockSlots(s, place, b, level);
    NewBlockRest(s, place, b, level);
  }

  // ---------------------------------------------------------------- safety of small objects

  /** Two small objects never overlap; no small object touches the header of any block, and none
      reaches past the end of its block. */
  lemma SmallObjectsApart(s: Slab, place: map<int, bool>, x: int, y: int)
    requires Core(s, place) && x in s.small && y in s.small && x < y
    ensures x + s.small[x] <= y
  {
    assert SmallOk(s, x) && SmallOk(s, y);
    var b, c := BlockOf(x), BlockOf(y);
    BlockFacts(s, place, b);
    BlockFacts(s, place, c);
    SlotInBlock(b, s.level[b], x);
    SlotInBlock(c, s.level[c], y);
    hide Core;
    if b == c {
      AlignedStep(x, y, s.level[b]);
    } else {
      Constants();
      if c < b { AlignedStep(c, b, 12); assert false; }
      AlignedStep(b, c, 12);
    }
  }

  lemma SmallObjectInBlock(s: Slab, place: map<int, bool>, x: int)
    requires Core(s, place) && x in s.small
    ensures 0 <= x && var b := BlockOf(x);
            b in s.level && b + HEADER <= x && x + s.small[x] <= b + BLOCK && !Aligned(x, 12)
  {
    assert SmallOk(s, x);
    BlockFacts(s, place, BlockOf(x));
    SlotInBlock(BlockOf(x), s.level[BlockOf(x)], x);
  }
}
