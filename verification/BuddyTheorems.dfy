/** What the representation of a buddy zone implies for its users: completeness of the search,
    the canonical form of the lists, and conservation of pages. */
module BuddyTheorems {
  import opened Words
  import opened Blocks
  import opened ListHead
  import opened BuddySpec

  // ---------------------------------------------------------------- searching

  /** The first order from `t` on whose list is not empty, or the number of lists. */
  function BestFit(lists: seq<seq<int>>, t: nat): nat
    decreases |lists| - t
  {
    if t >= |lists| then |lists| else if lists[t] != [] then t else BestFit(lists, t + 1)
  }

  lemma {:induction false} BestFitSkips(lists: seq<seq<int>>, t: nat, k: nat)
    requires t <= k < BestFit(lists, t) && k < |lists|
    ensures lists[k] == []
    decreases k - t
  {
    if t < k { BestFitSkips(lists, t + 1, k); }
  }

  lemma {:induction false} BestFitFound(lists: seq<seq<int>>, t: nat)
    ensures t <= BestFit(lists, t) <= |lists| || BestFit(lists, t) == |lists| < t
    ensures BestFit(lists, t) < |lists| ==> lists[BestFit(lists, t)] != []
    decreases |lists| - t
  {
    if t < |lists| && lists[t] == [] { BestFitFound(lists, t + 1); }
  }

  /** There is a naturally aligned run of 2^t free pages. */
  ghost predicate HasRun(free: set<nat>, t: nat) {
    exists i: nat :: FreeRun(free, i, t)
  }

  /** The search fails exactly when the zone has no naturally aligned run of 2^t free pages. */
  lemma SearchComplete(z: Zone, live: LiveMap, free: set<nat>, t: nat)
    requires Rep(z, live, free)
    ensures t <= |z.lists| ==> (BestFit(z.lists, t) == |z.lists| <==> !HasRun(free, t))
    ensures t > |z.lists| ==> !HasRun(free, t)
  {
    if i: nat :| FreeRun(free, i, t) {
      var j, m := InsideMaximal(free, |z.recs|, i, t);
      assert Listed(z.lists, j, m);
      BestFitFound(z.lists, t);
      if m < BestFit(z.lists, t) { BestFitSkips(z.lists, t, m); }
    } else if BestFit(z.lists, t) != |z.lists| && t < |z.lists| {
      BestFitFound(z.lists, t);
      var k := BestFit(z.lists, t);
      var j := z.lists[k][0];
      assert Listed(z.lists, j, k);
      AlignedCoarser(j, t, k);
      SubRun(free, j, k, j, t);
      assert false;
    }
  }

  // ---------------------------------------------------------------- how the lists change

  /** `s` without the first occurrence of `x`. */
  function Removed(s: seq<int>, x: int): seq<int> {
    if s == [] then [] else if s[0] == x then s[1..] else [s[0]] + Removed(s[1..], x)
  }

  lemma WithoutFirst(s: seq<int>)
    requires s != []
    ensures Without(s, 0) == s[1..]
  {
  }

  lemma WithoutLater(s: seq<int>, k: nat)
    requires 0 < k < |s|
    ensures Without(s, k) == [s[0]] + Without(s[1..], k - 1)
  {
  }

  lemma NoDupTail(s: seq<int>)
    requires NoDup(s) && s != []
    ensures NoDup(s[1..])
  {
  }

  lemma RemovedStep(s: seq<int>, x: int)
    requires s != []
    ensures Removed(s, x) == if s[0] == x then s[1..] else [s[0]] + Removed(s[1..], x)
  {
  }

  lemma {:induction false} RemovedIs(s: seq<int>, k: nat)
    requires NoDup(s) && k < |s|
    ensures Removed(s, s[k]) == Without(s, k)
  {
    RemovedStep(s, s[k]);
    WithoutFirst(s);
    if k > 0 {
      assert s[0] != s[k];
      WithoutLater(s, k);
      NoDupTail(s);
      hide Without, NoDup, Removed;
      RemovedIs(s[1..], k - 1);
    }
  }

  /** The lists after a block of order `k` at `i` was cut down to order `t`: every upper half is in
      front of its list. */
  function SplitLists(lists: seq<seq<int>>, i: nat, k: nat, t: nat): seq<seq<int>>
    decreases k
  {
    if k <= t || k > |lists| then lists
    else SplitLists(lists[k - 1 := [i + Pow2(k - 1)] + lists[k - 1]], i, k - 1, t)
  }

  /** The lists after an allocation of order `t`: the best fit, first in first, is cut down. */
  function MallocLists(lists: seq<seq<int>>, t: nat): seq<seq<int>> {
    var o := BestFit(lists, t);
    if o < |lists| && lists[o] != [] && lists[o][0] >= 0
    then SplitLists(lists[o := lists[o][1..]], lists[o][0], o, t)
    else lists
  }

  /** The lists after the block of order `k` at `i` was freed: as long as its buddy is listed, both
      become one; what results is in front of its list. */
  function FreeLists(lists: seq<seq<int>>, i: nat, k: nat): seq<seq<int>>
    decreases |lists| - k
  {
    if k >= |lists| then lists
    else if k + 1 < |lists| && Words.Buddy(i, k) in lists[k] then
      FreeLists(lists[k := Removed(lists[k], Words.Buddy(i, k))], Down(i, k + 1), k + 1)
    else lists[k := [i] + lists[k]]
  }

  /** Last freed, first used: a block that does not merge is what the next request of its order gets. */
  lemma FreedIsFirst(lists: seq<seq<int>>, i: nat, k: nat)
    requires k < |lists| && (k + 1 == |lists| || Words.Buddy(i, k) !in lists[k])
    ensures var freed := FreeLists(lists, i, k); BestFit(freed, k) == k < |freed| && freed[k] != [] && freed[k][0] == i
  {
  }

  // ---------------------------------------------------------------- conservation

  /** The pages held by the lists of the orders below `k`. */
  function ListPages(lists: seq<seq<int>>, k: nat): nat
    requires k <= |lists|
  {
    if k == 0 then 0 else ListPages(lists, k - 1) + |lists[k - 1]| * Pow2(k - 1)
  }

  lemma {:induction false} ListPagesWithout(lists: seq<seq<int>>, k: nat, s: seq<int>, m: nat)
    requires k < |lists| && m <= |lists| && |s| + 1 == |lists[k]|
    ensures ListPages(lists[k := s], m) == ListPages(lists, m) - if k < m then Pow2(k) else 0
  {
    if m > 0 {
      ListPagesWithout(lists, k, s, m - 1);
      if m - 1 == k { assert (|s| + 1) * Pow2(k) == |s| * Pow2(k) + Pow2(k); }
    }
  }

  lemma {:induction false} ListPagesZero(lists: seq<seq<int>>, m: nat)
    requires m <= |lists| && forall k :: 0 <= k < |lists| ==> lists[k] == []
    ensures ListPages(lists, m) == 0
  {
    if m > 0 { ListPagesZero(lists, m - 1); }
  }

  /** The free pages are counted by the lists: the sum of 2^order over all listed blocks. */
  lemma {:induction false} ListsCountFreePages(lists: seq<seq<int>>, free: set<nat>, n: nat)
    requires Lists(lists, free) && forall p | p in free :: p < n
    ensures ListPages(lists, |lists|) == |free|
    decreases |free|
  {
    if k :| 0 <= k < |lists| && lists[k] != [] {
      var i := lists[k][0];
      TakeLists(lists, free, k, 0);
      FreeRunIsSubset(free, i, k);
      assert |free - Pages(i, k)| == |free| - Pow2(k);
      ListsCountFreePages(lists[k := Without(lists[k], 0)], free - Pages(i, k), n);
      ListPagesWithout(lists, k, Without(lists[k], 0), |lists|);
    } else {
      ListPagesZero(lists, |lists|);
      assert forall j: nat, m: nat :: !Listed(lists, j, m);
      if p :| p in free {
        assert FreeRun(free, p, 0);
        var j, m := InsideMaximal(free, n, p, 0);
        assert false;
      }
    }
  }

  /** The unused pages at the end of the live block at `h`. */
  function Slack(live: LiveMap, h: nat): nat {
    if h in live && live[h].count <= Pow2(live[h].order) then Pow2(live[h].order) - live[h].count else 0
  }

  /** The waste of the live blocks that start below `n`. */
  function Waste(live: LiveMap, n: nat): nat {
    if n == 0 then 0 else Waste(live, n - 1) + Slack(live, n - 1)
  }

  lemma {:induction false} WasteAdd(live: LiveMap, i: nat, b: Live, n: nat)
    requires i !in live
    ensures Waste(live[i := b], n) == Waste(live, n) + if i < n then Slack(live[i := b], i) else 0
  {
    if n > 0 { WasteAdd(live, i, b, n - 1); }
  }

  lemma {:induction false} WasteRemove(live: LiveMap, i: nat, n: nat)
    ensures Waste(live - {i}, n) == Waste(live, n) - if i < n then Slack(live, i) else 0
  {
    if n > 0 { WasteRemove(live, i, n - 1); }
  }

  /** The pages of the live blocks that start below `n`. */
  function LivePages(live: LiveMap, n: nat): nat {
    if n == 0 then 0 else LivePages(live, n - 1) + if n - 1 in live then Pow2(live[n - 1].order) else 0
  }

  lemma {:induction false} LivePagesRemove(live: LiveMap, i: nat, n: nat)
    requires i in live
    ensures LivePages(live - {i}, n) == LivePages(live, n) - if i < n then Pow2(live[i].order) else 0
  {
    if n > 0 { LivePagesRemove(live, i, n - 1); }
  }

  lemma {:induction false} LivePagesNone(live: LiveMap, n: nat)
    requires live == map[]
    ensures LivePages(live, n) == 0
  {
    if n > 0 { LivePagesNone(live, n - 1); }
  }

  /** Every page is free or in a live block, and counted once. */
  lemma {:induction false} PagesConserved(n: nat, live: LiveMap)
    requires LiveOk(n, live)
    ensures |FreePages(n, live)| + LivePages(live, n) == n
    decreases |live|
  {
    hide FreePages, Pow2, Pages, LivePages, Owned, LiveOk;
    if live == map[] {
      LivePagesNone(live, n);
      AllPagesFree(n, live);
    } else {
      var i :| i in live;
      LiveOkWithout(n, live, i);
      FreeAfterFree(n, live, i);
      LivePagesRemove(live, i, n);
      PagesConserved(n, live - {i});
      PagesCount(i, live[i].order);
    }
  }

  lemma AllPagesFree(n: nat, live: LiveMap)
    requires live == map[]
    ensures FreePages(n, live) == Span(0, n)
  {
    forall p: nat ensures !Owned(live, p) { forall h ensures !Owns(live, h, p) { } }
  }

  lemma LiveOkWithout(n: nat, live: LiveMap, i: nat)
    requires LiveOk(n, live) && i in live
    ensures LiveOk(n, live - {i}) && i < n
  {
    forall h, p: nat ensures Owns(live - {i}, h, p) ==> Owns(live, h, p) { }
  }

  lemma PagesCount(i: nat, k: nat)
    ensures |Pages(i, k)| == Pow2(k)
  {
  }

  /** No double allocation: of two live blocks the one ends before the other begins. */
  lemma LiveBlocksApart(n: nat, live: LiveMap, h: nat, g: nat)
    requires LiveOk(n, live) && h in live && g in live && h < g
    ensures h + Pow2(live[h].order) <= g
  {
    if g < h + Pow2(live[h].order) {
      DownOfOffset(h, live[h].order, g);
      assert Owns(live, h, g) && Owns(live, g, g);
      assert false;
    }
  }

  // ---------------------------------------------------------------- the canonical state

  ghost predicate SameAsSets(a: seq<seq<int>>, b: seq<seq<int>>) {
    |a| == |b| && forall k, i :: 0 <= k < |a| ==> (i in a[k] <==> i in b[k])
  }

  /** The lists, as sets, are a function of the live blocks alone: two zones of the same size that went
      through any histories whatever and have the same live blocks have the same free lists. */
  lemma Canonical(z: Zone, z': Zone, live: LiveMap)
    requires |z.recs| == |z'.recs| && |z.lists| == |z'.lists|
    requires Rep(z, live, FreePages(|z.recs|, live)) && Rep(z', live, FreePages(|z.recs|, live))
    ensures SameAsSets(z.lists, z'.lists)
    ensures forall k :: 0 <= k < |z.lists| ==> |z.lists[k]| == |z'.lists[k]|
  {
    forall k, i | 0 <= k < |z.lists| ensures i in z.lists[k] <==> i in z'.lists[k] {
      if i in z.lists[k] { assert Listed(z.lists, i, k); assert Listed(z'.lists, i, k); }
      if i in z'.lists[k] { assert Listed(z'.lists, i, k); assert Listed(z.lists, i, k); }
    }
    forall k | 0 <= k < |z.lists| ensures |z.lists[k]| == |z'.lists[k]| {
      SameElementsSameLength(z.lists[k], z'.lists[k]);
    }
  }

  ghost function Elements(s: seq<int>): set<int> {
    set x | x in s
  }

  lemma {:induction false} ElementsCount(s: seq<int>)
    requires NoDup(s)
    ensures |Elements(s)| == |s|
  {
    if s != [] {
      ElementsCount(s[1..]);
      assert Elements(s) == Elements(s[1..]) + {s[0]};
    }
  }

  lemma SameElementsSameLength(s: seq<int>, t: seq<int>)
    requires NoDup(s) && NoDup(t) && forall x :: x in s <==> x in t
    ensures |s| == |t|
  {
    ElementsCount(s);
    ElementsCount(t);
    assert Elements(s) == Elements(t);
  }

  lemma AtMostOne(s: seq<int>, x: int, there: bool)
    requires NoDup(s) && forall y :: y in s <==> there && y == x
    ensures s == if there then [x] else []
  {
    SameElementsSameLength(s, if there then [x] else []);
    assert forall k :: 0 <= k < |s| ==> s[k] in s;
  }

  /** With every page freed, list `k` holds exactly one block if bit `k` of the page count is set, the
      one above all higher bits, and none otherwise. */
  lemma AllFreed(z: Zone, k: nat)
    requires Rep(z, map[], FreePages(|z.recs|, map[])) && k < |z.lists|
    ensures z.lists[k] == if Shr(|z.recs|, k) % 2 == 1 then [Down(|z.recs|, k + 1)] else []
  {
    var n, free := |z.recs|, FreePages(|z.recs|, map[]);
    assert free == Span(0, n) by {
      forall p: nat ensures !Owned(map[], p) { forall h ensures !Owns(map[], h, p) { } }
    }
    forall i ensures i in z.lists[k] <==> Shr(n, k) % 2 == 1 && i == Down(n, k + 1) {
      if i >= 0 {
        MaximalOfAll(n, i, k);
        assert Listed(z.lists, i, k) <==> Maximal(free, i, k);
      }
    }
    AtMostOne(z.lists[k], Down(n, k + 1), Shr(n, k) % 2 == 1);
  }
}
