/** Naturally aligned blocks of pages, and the maximal free ones among them. Nothing here knows how
    an allocator keeps its lists: the module says which free blocks a set of free pages determines. */
module Blocks {
  import opened Words

  /** The `n` page numbers from `i` on. */
  ghost function Span(i: nat, n: nat): (s: set<nat>)
    ensures forall p: nat :: p in s <==> i <= p < i + n
    ensures |s| == n
  {
    if n == 0 then {} else Span(i, n - 1) + {i + n - 1}
  }

  /** The pages of the block of order `k` that starts at `i`. */
  ghost function Pages(i: nat, k: nat): set<nat> {
    Span(i, Pow2(k))
  }

  /** The block of order `k` at `i` is naturally aligned and all its pages are in `free`. */
  ghost predicate FreeRun(free: set<nat>, i: nat, k: nat) {
    Aligned(i, k) && forall p: nat | Down(p, k) == i :: p in free
  }

  /** A free run that is not half of a larger free run. */
  ghost predicate Maximal(free: set<nat>, i: nat, k: nat) {
    FreeRun(free, i, k) && !FreeRun(free, Down(i, k + 1), k + 1)
  }

  lemma InPages(i: nat, k: nat, p: nat)
    requires Aligned(i, k)
    ensures p in Pages(i, k) <==> Down(p, k) == i
  {
    DownBounds(p, k);
    if p in Pages(i, k) { DownOfOffset(i, k, p); }
  }

  lemma AllInPages(i: nat, k: nat)
    requires Aligned(i, k)
    ensures forall p: nat :: p in Pages(i, k) <==> Down(p, k) == i
  {
    forall p: nat ensures p in Pages(i, k) <==> Down(p, k) == i { InPages(i, k, p); }
  }

  lemma FreeRunIsSubset(free: set<nat>, i: nat, k: nat)
    requires Aligned(i, k)
    ensures FreeRun(free, i, k) <==> Pages(i, k) <= free
  {
    AllInPages(i, k);
  }

  lemma SubRun(free: set<nat>, j: nat, m: nat, i: nat, k: nat)
    requires k <= m && FreeRun(free, j, m) && Aligned(i, k) && Down(i, m) == j
    ensures FreeRun(free, i, k)
  {
    DownAll(k, m);
    forall p: nat | Down(p, k) == i ensures p in free {
      assert Down(p, m) == Down(Down(p, k), m);
    }
  }

  /** A maximal run cannot lie inside a larger free run. */
  lemma MaximalNotInside(free: set<nat>, i: nat, k: nat, m: nat)
    requires Maximal(free, i, k) && k < m
    ensures !FreeRun(free, Down(i, m), m)
  {
    if FreeRun(free, Down(i, m), m) {
      DownDown(i, k + 1, m);
      DownDown(i, k + 1, k + 1);
      SubRun(free, Down(i, m), m, Down(i, k + 1), k + 1);
      assert false;
    }
  }

  /** Maximal runs that share a page are the same run. */
  lemma MaximalUnique(free: set<nat>, i: nat, k: nat, j: nat, m: nat, p: nat)
    requires Maximal(free, i, k) && Maximal(free, j, m)
    requires Down(p, k) == i && Down(p, m) == j
    ensures i == j && k == m
  {
    if k < m {
      DownDown(p, k, m);
      MaximalNotInside(free, i, k, m);
      assert false;
    } else if m < k {
      DownDown(p, m, k);
      MaximalNotInside(free, j, m, k);
      assert false;
    }
  }

  /** Every free run lies in a maximal one. */
  lemma {:induction false} InsideMaximal(free: set<nat>, n: nat, i: nat, k: nat) returns (j: nat, m: nat)
    requires FreeRun(free, i, k) && forall p | p in free :: p < n
    ensures k <= m && Maximal(free, j, m) && Down(i, m) == j
    decreases n - k
  {
    var last := i + Pow2(k) - 1;
    DownOfOffset(i, k, last);
    Pow2Grows(k, k);
    assert k < n;
    if Maximal(free, i, k) {
      j, m := i, k;
    } else {
      j, m := InsideMaximal(free, n, Down(i, k + 1), k + 1);
      DownDown(i, k + 1, m);
    }
  }

  // ---------------------------------------------------------------- taking a block out, putting one in

  lemma RemoveOne(free: set<nat>, i: nat, k: nat, j: nat, m: nat)
    requires Maximal(free, i, k)
    ensures Maximal(free - Pages(i, k), j, m) <==> Maximal(free, j, m) && !(j == i && m == k)
  {
    AllInPages(i, k);
    var rest := free - Pages(i, k);
    if Maximal(free, j, m) && !(j == i && m == k) {
      forall p: nat | Down(p, m) == j ensures p in rest {
        if Down(p, k) == i { MaximalUnique(free, i, k, j, m, p); }
      }
    }
    if FreeRun(rest, j, m) {
      assert j in rest && Down(j, k) != i;
      var parent := Down(j, m + 1);
      if FreeRun(free, parent, m + 1) && !FreeRun(rest, parent, m + 1) {
        var p: nat :| Down(p, m + 1) == parent && Down(p, k) == i;
        if k <= m {
          DownDown(p, k, m + 1);
          MaximalNotInside(free, i, k, m + 1);
          assert false;
        } else {
          DownDown(p, m + 1, k);
          DownDown(j, m + 1, k);
          assert false;
        }
      }
    }
  }

  /** Taking a maximal block out leaves all the other maximal blocks, and no new ones. */
  lemma RemoveMaximal(free: set<nat>, i: nat, k: nat)
    requires Maximal(free, i, k)
    ensures forall j: nat, m: nat :: Maximal(free - Pages(i, k), j, m) <==> Maximal(free, j, m) && !(j == i && m == k)
  {
    forall j: nat, m: nat
      ensures Maximal(free - Pages(i, k), j, m) <==> Maximal(free, j, m) && !(j == i && m == k)
    {
      RemoveOne(free, i, k, j, m);
    }
  }

  /** The block at (i, k) is put in beside a buddy that is not a maximal block of the same order:
      then no free run larger than the block contains it. */
  lemma NothingAround(free: set<nat>, i: nat, k: nat, m: nat)
    requires Aligned(i, k) && Pages(i, k) !! free && !Maximal(free, Buddy(i, k), k) && k < m
    ensures !FreeRun(free + Pages(i, k), Down(i, m), m)
  {
    hide Down, Words.Buddy, Pages, Pow2;
    AllInPages(i, k);
    var all := free + Pages(i, k);
    if FreeRun(all, Down(i, m), m) {
      DownDown(i, k + 1, m);
      DownDown(i, k + 1, k + 1);
      SubRun(all, Down(i, m), m, Down(i, k + 1), k + 1);
      var b := Buddy(i, k);
      BuddyHalves(i, k, i);
      forall p: nat | Down(p, k) == b ensures p in free {
        BuddyHalves(i, k, p);
      }
      assert false;
    }
  }

  lemma KeepsMaximal(free: set<nat>, i: nat, k: nat, j: nat, m: nat)
    requires Aligned(i, k) && Pages(i, k) !! free && !Maximal(free, Buddy(i, k), k)
    requires Maximal(free, j, m)
    ensures Maximal(free + Pages(i, k), j, m)
  {
    AllInPages(i, k);
    var all := free + Pages(i, k);
    var parent := Down(j, m + 1);
    if FreeRun(all, parent, m + 1) {
      var p: nat :| Down(p, m + 1) == parent && Down(p, k) == i;
      if k <= m {
        DownDown(p, k, m + 1);
        NothingAround(free, i, k, m + 1);
      } else {
        DownDown(p, m + 1, k);
        DownDown(j, m + 1, k);
      }
      assert false;
    }
  }

  /** No other maximal block appears: one that held a page of the new block would be the new block. */
  lemma NoOtherMaximal(free: set<nat>, i: nat, k: nat, j: nat, m: nat)
    requires Aligned(i, k) && Maximal(free + Pages(i, k), i, k)
    requires Maximal(free + Pages(i, k), j, m) && !(j == i && m == k)
    ensures FreeRun(free, j, m)
  {
    hide Down, Pow2;
    var all := free + Pages(i, k);
    forall p: nat | Down(p, m) == j ensures p in free {
      InPages(i, k, p);
      if Down(p, k) == i { MaximalUnique(all, i, k, j, m, p); }
    }
  }

  lemma AddOne(free: set<nat>, i: nat, k: nat, j: nat, m: nat)
    requires Aligned(i, k) && Pages(i, k) !! free && !Maximal(free, Buddy(i, k), k)
    ensures Maximal(free + Pages(i, k), j, m) <==> Maximal(free, j, m) || (j == i && m == k)
  {
    hide Down, Pow2, Pages;
    var all := free + Pages(i, k);
    AllInPages(i, k);
    NothingAround(free, i, k, k + 1);
    assert Maximal(all, i, k);
    if Maximal(free, j, m) {
      KeepsMaximal(free, i, k, j, m);
    } else if Maximal(all, j, m) && !(j == i && m == k) {
      NoOtherMaximal(free, i, k, j, m);
    }
  }

  /** Putting a block in whose buddy is not a maximal block of the same order adds exactly that block. */
  lemma AddMaximal(free: set<nat>, i: nat, k: nat)
    requires Aligned(i, k) && Pages(i, k) !! free && !Maximal(free, Buddy(i, k), k)
    ensures forall j: nat, m: nat :: Maximal(free + Pages(i, k), j, m) <==> Maximal(free, j, m) || (j == i && m == k)
  {
    forall j: nat, m: nat
      ensures Maximal(free + Pages(i, k), j, m) <==> Maximal(free, j, m) || (j == i && m == k)
    {
      AddOne(free, i, k, j, m);
    }
  }

  // ---------------------------------------------------------------- when everything is free

  predicate InRange(n: nat, i: nat, k: nat) {
    Aligned(i, k) && i + Pow2(k) <= n
  }

  lemma FreeRunOfAll(n: nat, i: nat, k: nat)
    ensures FreeRun(Span(0, n), i, k) <==> InRange(n, i, k)
  {
    if Aligned(i, k) { FreeRunIsSubset(Span(0, n), i, k); }
    if FreeRun(Span(0, n), i, k) {
      assert i + Pow2(k) - 1 in Pages(i, k);
    }
  }

  lemma {:induction false} HighestRun(n: nat, i: nat, k: nat)
    ensures InRange(n, i, k) && !InRange(n, Down(i, k + 1), k + 1) <==> Shr(n, k) % 2 == 1 && i == Down(n, k + 1)
  {
    if k > 0 {
      HighestRun(n / 2, i / 2, k - 1);
      if i % 2 == 0 {
        assert InRange(n, i, k) <==> InRange(n / 2, i / 2, k - 1);
        assert InRange(n, Down(i, k + 1), k + 1) <==> InRange(n / 2, Down(i / 2, k), k);
      }
    }
  }

  /** With all `n` pages free there is a block of order `k` iff bit `k` of `n` is set, and only one:
      the binary expansion of `n`. */
  lemma MaximalOfAll(n: nat, i: nat, k: nat)
    ensures Maximal(Span(0, n), i, k) <==> Shr(n, k) % 2 == 1 && i == Down(n, k + 1)
  {
    FreeRunOfAll(n, i, k);
    FreeRunOfAll(n, Down(i, k + 1), k + 1);
    HighestRun(n, i, k);
  }
}
