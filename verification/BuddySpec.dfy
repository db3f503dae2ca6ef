/** What the records and lists of the buddy allocator stand for. The page records are meaningful only
    at the head of a block, so every statement goes through two things that the records do not hold:
    the live blocks, and the set of free pages whose maximal blocks the lists must hold. */
module BuddySpec {
  import opened Words
  import opened Blocks
  import opened ListHead

  /** `struct buddy_page`; its list node is named by the page index. */
  datatype BuddyPage = BuddyPage(byteSize: nat, order: nat, inUse: bool, curPageCount: nat)

  /** A block handed out and not yet freed: its order, the pages and the bytes asked for. */
  datatype Live = Live(order: nat, count: nat, bytes: nat)

  type LiveMap = map<nat, Live>

  /** All page records, all list pointers, and what each order's list holds, front first. */
  datatype Zone = Zone(recs: seq<BuddyPage>, links: Links, lists: seq<seq<int>>)

  /** The location of `list[k]`. */
  function Head(k: nat): int { -1 - k }

  ghost predicate Owns(live: LiveMap, h: nat, p: nat) {
    h in live && Down(p, live[h].order) == h
  }

  ghost predicate Owned(live: LiveMap, p: nat) {
    exists h :: Owns(live, h, p)
  }

  /** The pages that belong to no live block. */
  ghost function FreePages(n: nat, live: LiveMap): (s: set<nat>)
    ensures forall p: nat :: p in s <==> p < n && !Owned(live, p)
  {
    set p | p in Span(0, n) && !Owned(live, p)
  }

  /** Live blocks are aligned to their order, in range, at least as large as asked for, and disjoint. */
  ghost predicate LiveOk(n: nat, live: LiveMap) {
    && (forall h | h in live ::
          Aligned(h, live[h].order) && h + Pow2(live[h].order) <= n && live[h].count <= Pow2(live[h].order))
    && (forall h, g, p: nat :: Owns(live, h, p) && Owns(live, g, p) ==> h == g)
  }

  ghost predicate Listed(lists: seq<seq<int>>, i: int, k: nat) {
    k < |lists| && i in lists[k]
  }

  /** The lists hold exactly the maximal blocks of `free`, each once. */
  ghost predicate Lists(lists: seq<seq<int>>, free: set<nat>) {
    && (forall k :: 0 <= k < |lists| ==> NoDup(lists[k]) && forall x | x in lists[k] :: 0 <= x)
    && (forall i: nat, k: nat :: Listed(lists, i, k) <==> Maximal(free, i, k))
  }

  ghost predicate Rings(links: Links, lists: seq<seq<int>>) {
    forall k :: 0 <= k < |lists| ==> Ring(links, Head(k), lists[k])
  }

  ghost predicate FreeRecs(recs: seq<BuddyPage>, lists: seq<seq<int>>) {
    forall i: int, k: nat :: Listed(lists, i, k) ==> 0 <= i < |recs| && !recs[i].inUse && recs[i].order == k
  }

  ghost predicate LiveRecs(recs: seq<BuddyPage>, live: LiveMap) {
    forall h | h in live :: h < |recs| && recs[h] == BuddyPage(live[h].bytes, live[h].order, true, live[h].count)
  }

  /** The zone represents the live blocks `live` and the free pages `free`; pages in neither are in
      the hands of the operation under way, and their records say nothing. */
  ghost predicate Rep(z: Zone, live: LiveMap, free: set<nat>) {
    && 0 < |z.lists| && |z.recs| < Pow2(|z.lists|)
    && (forall p | p in free :: p < |z.recs| && !Owned(live, p))
    && LiveOk(|z.recs|, live)
    && Lists(z.lists, free)
    && Rings(z.links, z.lists)
    && FreeRecs(z.recs, z.lists)
    && LiveRecs(z.recs, live)
  }

  /** The pages of the block at (i, k) are in hand: in range, not free and not live. */
  ghost predicate InHand(n: nat, live: LiveMap, free: set<nat>, i: nat, k: nat) {
    && Aligned(i, k) && i + Pow2(k) <= n
    && forall p: nat | Down(p, k) == i :: p !in free && !Owned(live, p)
  }

  lemma InHandPages(n: nat, live: LiveMap, free: set<nat>, i: nat, k: nat)
    requires InHand(n, live, free, i, k)
    ensures Pages(i, k) !! free
  {
    AllInPages(i, k);
  }

  lemma ListsApart(lists: seq<seq<int>>, free: set<nat>, k: nat, m: nat)
    requires Lists(lists, free) && k < |lists| && m < |lists| && k != m
    ensures Apart(Head(k), lists[k], Head(m), lists[m])
  {
    forall x | x in lists[k] && x in lists[m] ensures false {
      assert Listed(lists, x, k) && Listed(lists, x, m);
      MaximalUnique(free, x, k, x, m, x);
    }
  }

  lemma ListedBlock(z: Zone, live: LiveMap, free: set<nat>, i: nat, k: nat)
    requires Rep(z, live, free) && Maximal(free, i, k)
    ensures Listed(z.lists, i, k) && i + Pow2(k) <= |z.recs| && InHand(|z.recs|, live, free - Pages(i, k), i, k)
  {
    AllInPages(i, k);
    assert i + Pow2(k) - 1 in Pages(i, k);
  }

  // ---------------------------------------------------------------- the two list operations

  lemma TakeRings(z: Zone, free: set<nat>, k: nat, pos: nat)
    requires Lists(z.lists, free) && Rings(z.links, z.lists) && k < |z.lists| && pos < |z.lists[k]|
    ensures var e := z.lists[k][pos];
            e in z.links.next && e in z.links.prev && Rings(Deleted(z.links, e), z.lists[k := Without(z.lists[k], pos)])
  {
    var l := z.lists[k];
    forall m | 0 <= m < |z.lists|
      ensures Ring(Deleted(z.links, l[pos]), Head(m), z.lists[k := Without(l, pos)][m])
    {
      if m == k {
        RingDel(z.links, Head(k), l, pos);
      } else {
        ListsApart(z.lists, free, k, m);
        RingDelFrame(z.links, Head(k), l, pos, Head(m), z.lists[m]);
      }
    }
  }

  lemma TakeLists(lists: seq<seq<int>>, free: set<nat>, k: nat, pos: nat)
    requires Lists(lists, free) && k < |lists| && pos < |lists[k]|
    ensures var i := lists[k][pos];
            i >= 0 && Maximal(free, i, k) && Lists(lists[k := Without(lists[k], pos)], free - Pages(i, k))
    ensures forall i: int, m: nat :: Listed(lists[k := Without(lists[k], pos)], i, m) ==> Listed(lists, i, m)
  {
    var e := lists[k][pos];
    assert e in lists[k];
    assert Listed(lists, e, k);
    RemoveMaximal(free, e, k);
    WithoutElements(lists[k], pos);
    var lists' := lists[k := Without(lists[k], pos)];
    forall i: nat, m: nat ensures Listed(lists', i, m) <==> Maximal(free - Pages(e, k), i, m) {
      assert Listed(lists', i, m) <==> Listed(lists, i, m) && !(i == e && m == k);
    }
  }

  /** `list_del` on the node of a listed block takes exactly its pages out of the free ones. */
  lemma TakeBlock(z: Zone, live: LiveMap, free: set<nat>, k: nat, pos: nat)
    requires Rep(z, live, free) && k < |z.lists| && pos < |z.lists[k]|
    ensures var i := z.lists[k][pos];
            && 0 <= i < |z.recs| && i in z.links.next && i in z.links.prev
            && Maximal(free, i, k)
            && var z' := Zone(z.recs, Deleted(z.links, i), z.lists[k := Without(z.lists[k], pos)]);
               Rep(z', live, free - Pages(i, k)) && InHand(|z'.recs|, live, free - Pages(i, k), i, k)
  {
    var i := z.lists[k][pos];
    TakeRings(z, free, k, pos);
    TakeLists(z.lists, free, k, pos);
    ListedBlock(z, live, free, i, k);
    var lists' := z.lists[k := Without(z.lists[k], pos)];
    assert FreeRecs(z.recs, lists') by {
      forall j: int, m: nat | Listed(lists', j, m) ensures Listed(z.lists, j, m) { }
    }
  }

  lemma PutRings(z: Zone, free: set<nat>, i: nat, k: nat)
    requires Lists(z.lists, free) && Rings(z.links, z.lists) && k < |z.lists|
    requires forall m: nat :: !Listed(z.lists, i, m)
    ensures Head(k) in z.links.next && Rings(Added(z.links, i, Head(k)), z.lists[k := [i] + z.lists[k]])
  {
    assert Ring(z.links, Head(k), z.lists[k]);
    forall m | 0 <= m < |z.lists|
      ensures Ring(Added(z.links, i, Head(k)), Head(m), z.lists[k := [i] + z.lists[k]][m])
    {
      assert !Listed(z.lists, i, m);
      if m == k {
        RingAdd(z.links, Head(k), z.lists[k], i);
      } else {
        ListsApart(z.lists, free, k, m);
        RingAddFrame(z.links, Head(k), z.lists[k], i, Head(m), z.lists[m]);
      }
    }
  }

  lemma PutLists(lists: seq<seq<int>>, free: set<nat>, i: nat, k: nat)
    requires Lists(lists, free) && k < |lists| && forall m: nat :: !Listed(lists, i, m)
    requires Aligned(i, k) && Pages(i, k) !! free && !Maximal(free, Buddy(i, k), k)
    ensures Lists(lists[k := [i] + lists[k]], free + Pages(i, k))
    ensures forall j: int, m: nat :: Listed(lists[k := [i] + lists[k]], j, m) <==> Listed(lists, j, m) || (j == i && m == k)
  {
    AddMaximal(free, i, k);
    var lists' := lists[k := [i] + lists[k]];
    assert !Listed(lists, i, k);
    forall j: int, m: nat ensures Listed(lists', j, m) <==> Listed(lists, j, m) || (j == i && m == k) { }
  }

  lemma PutRecs(z: Zone, live: LiveMap, free: set<nat>, i: nat, k: nat, r: BuddyPage)
    requires FreeRecs(z.recs, z.lists) && LiveRecs(z.recs, live)
    requires i < |z.recs| && k < |z.lists| && r.order == k && !r.inUse
    requires i !in live && forall m: nat :: !Listed(z.lists, i, m)
    ensures FreeRecs(z.recs[i := r], z.lists[k := [i] + z.lists[k]])
    ensures LiveRecs(z.recs[i := r], live)
  {
    var lists' := z.lists[k := [i] + z.lists[k]];
    forall j: int, m: nat | Listed(lists', j, m) ensures Listed(z.lists, j, m) || (j == i && m == k) { }
  }

  /** `list_add` of a block whose buddy is not a free block of the same order, with its record set. */
  lemma PutBlock(z: Zone, live: LiveMap, free: set<nat>, i: nat, k: nat, r: BuddyPage)
    requires Rep(z, live, free) && InHand(|z.recs|, live, free, i, k) && !Maximal(free, Buddy(i, k), k)
    requires r.order == k && !r.inUse
    ensures k < |z.lists| && i < |z.recs| && Head(k) in z.links.next
    ensures Rep(Zone(z.recs[i := r], Added(z.links, i, Head(k)), z.lists[k := [i] + z.lists[k]]), live, free + Pages(i, k))
  {
    if k >= |z.lists| { Pow2Grows(|z.lists|, k); assert false; }
    InHandPages(|z.recs|, live, free, i, k);
    AllInPages(i, k);
    assert !Owned(live, i) && i !in free && !Owns(live, i, i);
    forall m: nat ensures !Listed(z.lists, i, m) { }
    PutRings(z, free, i, k);
    PutLists(z.lists, free, i, k);
    PutRecs(z, live, free, i, k, r);
  }

  // ---------------------------------------------------------------- live blocks

  /** Recording the block at (i, k) as handed out. */
  lemma RecordLive(z: Zone, live: LiveMap, free: set<nat>, i: nat, k: nat, b: Live)
    requires Rep(z, live, free) && InHand(|z.recs|, live, free, i, k) && b.order == k && b.count <= Pow2(k)
    ensures i !in live && i < |z.recs|
    ensures Rep(z.(recs := z.recs[i := BuddyPage(b.bytes, k, true, b.count)]), live[i := b], free)
  {
    assert i !in free && !Owned(live, i);
    assert !Owns(live, i, i);
    var live' := live[i := b];
    forall h, p: nat ensures Owns(live', h, p) <==> Owns(live, h, p) || (h == i && Down(p, k) == i) { }
    forall p | p in free ensures !Owned(live', p) {
      forall h ensures !Owns(live', h, p) { assert !Owns(live, h, p); }
    }
    forall h, g, p: nat | Owns(live', h, p) && Owns(live', g, p) ensures h == g {
      assert !Owned(live, p) ==> !Owns(live, h, p) && !Owns(live, g, p);
    }
    forall j: int, m: nat | Listed(z.lists, j, m) ensures j != i { }
  }

  lemma ForgetLive(z: Zone, live: LiveMap, free: set<nat>, i: nat)
    requires Rep(z, live, free) && i in live
    ensures Rep(z, live - {i}, free) && InHand(|z.recs|, live - {i}, free, i, live[i].order)
  {
    var live' := live - {i};
    forall h, p: nat ensures Owns(live', h, p) <==> Owns(live, h, p) && h != i { }
    forall p | p in free ensures !Owned(live', p) { }
    forall p: nat | Down(p, live[i].order) == i ensures p !in free && !Owned(live', p) {
      assert Owns(live, i, p);
    }
  }

  /** The free pages lost to a new live block. */
  lemma FreeAfterLive(n: nat, live: LiveMap, i: nat, b: Live)
    requires i !in live && Aligned(i, b.order)
    ensures FreePages(n, live[i := b]) == FreePages(n, live) - Pages(i, b.order)
  {
    AllInPages(i, b.order);
    var live' := live[i := b];
    forall p: nat ensures Owned(live', p) <==> Owned(live, p) || p in Pages(i, b.order) {
      if Owned(live, p) { var h :| Owns(live, h, p); assert Owns(live', h, p); }
      if Owned(live', p) { var h :| Owns(live', h, p); assert h != i ==> Owns(live, h, p); }
      if p in Pages(i, b.order) { assert Owns(live', i, p); }
    }
  }

  /** The free pages won back with a freed block. */
  lemma FreeAfterFree(n: nat, live: LiveMap, i: nat)
    requires LiveOk(n, live) && i in live
    ensures FreePages(n, live - {i}) == FreePages(n, live) + Pages(i, live[i].order)
    ensures FreePages(n, live) !! Pages(i, live[i].order)
  {
    var k, live' := live[i].order, live - {i};
    AllInPages(i, k);
    forall p: nat ensures Owned(live, p) <==> Owned(live', p) || p in Pages(i, k) {
      if Owned(live, p) { var h :| Owns(live, h, p); assert h != i ==> Owns(live', h, p); }
      if Owned(live', p) { var h :| Owns(live', h, p); assert Owns(live, h, p); }
      if p in Pages(i, k) { assert Owns(live, i, p); }
    }
    forall p | p in Pages(i, k) ensures !Owned(live', p) {
      assert Owns(live, i, p);
      forall h ensures !Owns(live', h, p) { assert Owns(live', h, p) ==> Owns(live, h, p) && h != i; }
    }
  }

  // ---------------------------------------------------------------- the record that free looks at

  /** Two aligned runs of different order that share a page: the one starts inside the other. */
  lemma HeadOf(b: nat, k: nat, h: nat, o: nat)
    requires Aligned(b, k) && Down(b, o) == h && o <= k
    ensures h == b
  {
    DownDown(b, o, k);
    DownBounds(h, k);
    DownBounds(b, o);
  }

  lemma BuddyInside(i: nat, k: nat, h: nat, o: nat)
    requires Aligned(i, k) && Down(Buddy(i, k), o) == h && k < o
    ensures Down(i, o) == h
  {
    BuddyHalves(i, k, i);
    DownDown(i, k + 1, o);
    DownDown(Buddy(i, k), k + 1, o);
  }

  /** The block at (i, k) is in hand and every other page is free or live: then the record of its
      buddy page is that of a block head, and the three tests of `free` on it are exactly the
      question whether the buddy is a free block of the same order. Stale interior records are never
      acted upon. */
  lemma BuddyRecord(z: Zone, live: LiveMap, free: set<nat>, i: nat, k: nat)
    requires Rep(z, live, free) && InHand(|z.recs|, live, free, i, k)
    requires free + Pages(i, k) == FreePages(|z.recs|, live)
    ensures var b := Buddy(i, k);
            Maximal(free, b, k) <==> b < |z.recs| && !z.recs[b].inUse && z.recs[b].order == k
  {
    var b := Buddy(i, k);
    BuddyHalves(i, k, b);
    InPages(i, k, b);
    if b < |z.recs| {
      if Owned(live, b) {
        var h :| Owns(live, h, b);
        if live[h].order <= k {
          HeadOf(b, k, h, live[h].order);
        } else {
          BuddyInside(i, k, h, live[h].order);
          assert Owns(live, h, i);
          assert Owned(live, i);
          assert false;
        }
      } else {
        assert FreeRun(free, b, 0);
        var j, m := InsideMaximal(free, |z.recs|, b, 0);
        assert Listed(z.lists, j, m);
        if m <= k {
          HeadOf(b, k, j, m);
          if Maximal(free, b, k) { MaximalUnique(free, b, k, j, m, b); }
        } else {
          BuddyInside(i, k, j, m);
          assert false;
        }
      }
    }
  }

  /** At the top order nothing can merge. */
  lemma TopHasNoBuddy(z: Zone, live: LiveMap, free: set<nat>, i: nat)
    requires Rep(z, live, free) && InHand(|z.recs|, live, free, i, |z.lists| - 1)
    ensures !Maximal(free, Buddy(i, |z.lists| - 1), |z.lists| - 1)
  {
    hide LiveOk, Lists, Rings, FreeRecs, LiveRecs, Maximal, Listed, Pages, Down;
    var k := |z.lists| - 1;
    var b := Buddy(i, k);
    if Maximal(free, b, k) {
      ListedBlock(z, live, free, b, k);
      BuddyValue(i, k);
      assert false;
    }
  }
}
