/** Unsigned machine words as natural numbers: the C operators `&`, `|`, `^`, `& ~` and the
    alignment macros of util.h, defined bit by bit, with the arithmetic they stand for. */
module Words {

  function Pow2(k: nat): (p: nat)
    ensures p >= 1
  {
    if k == 0 then 1 else 2 * Pow2(k - 1)
  }

  /** The C expression `a & b`. */
  function And(a: nat, b: nat): nat {
    if a == 0 || b == 0 then 0
    else (if a % 2 == 1 && b % 2 == 1 then 1 else 0) + 2 * And(a / 2, b / 2)
  }

  /** The C expression `a | b`. */
  function Or(a: nat, b: nat): nat {
    if a == 0 then b else if b == 0 then a
    else (if a % 2 == 1 || b % 2 == 1 then 1 else 0) + 2 * Or(a / 2, b / 2)
  }

  /** The C expression `a ^ b`. */
  function Xor(a: nat, b: nat): nat {
    if a == 0 then b else if b == 0 then a
    else (if a % 2 != b % 2 then 1 else 0) + 2 * Xor(a / 2, b / 2)
  }

  /** The C expression `a & ~b`. */
  function AndNot(a: nat, b: nat): nat {
    if a == 0 then 0
    else (if a % 2 == 1 && b % 2 == 0 then 1 else 0) + 2 * AndNot(a / 2, b / 2)
  }

  /** `a >> k`. */
  function Shr(a: nat, k: nat): nat {
    if k == 0 then a else Shr(a / 2, k - 1)
  }

  /** `a` with its `k` low bits cleared: the start of the naturally aligned run of 2^k that holds `a`. */
  function Down(a: nat, k: nat): nat {
    if k == 0 then a else 2 * Down(a / 2, k - 1)
  }

  /** `a` is a multiple of 2^k. */
  predicate Aligned(a: nat, k: nat) {
    Down(a, k) == a
  }

  /** The other half of the run of 2^(k+1) that holds the run of 2^k at `i`. */
  function Buddy(i: nat, k: nat): nat {
    if k == 0 then (if i % 2 == 0 then i + 1 else i - 1)
    else 2 * Buddy(i / 2, k - 1) + i % 2
  }

  // ---------------------------------------------------------------- runs

  lemma {:induction false} DownBounds(a: nat, k: nat)
    ensures Down(a, k) <= a < Down(a, k) + Pow2(k)
  {
    if k > 0 { DownBounds(a / 2, k - 1); }
  }

  lemma {:induction false} DownOfOffset(i: nat, k: nat, a: nat)
    requires Aligned(i, k) && i <= a < i + Pow2(k)
    ensures Down(a, k) == i
  {
    if k > 0 { DownOfOffset(i / 2, k - 1, a / 2); }
  }

  /** Rounding in two steps is rounding by the coarser one: aligned runs nest or are disjoint. */
  lemma {:induction false} DownDown(a: nat, k: nat, m: nat)
    requires k <= m
    ensures Down(Down(a, k), m) == Down(a, m)
  {
    if k > 0 {
      DownDown(a / 2, k - 1, m - 1);
      assert Down(a, k) / 2 == Down(a / 2, k - 1);
    }
  }

  lemma DownAll(k: nat, m: nat)
    requires k <= m
    ensures forall a: nat :: Down(Down(a, k), m) == Down(a, m)
  {
    forall a: nat ensures Down(Down(a, k), m) == Down(a, m) { DownDown(a, k, m); }
  }

  lemma {:induction false} BuddyHalves(i: nat, k: nat, a: nat)
    requires Aligned(i, k)
    ensures Down(a, k + 1) == Down(i, k + 1) <==> Down(a, k) == i || Down(a, k) == Buddy(i, k)
    ensures Aligned(Buddy(i, k), k) && Buddy(i, k) != i && Buddy(Buddy(i, k), k) == i
    ensures Down(Buddy(i, k), k + 1) == Down(i, k + 1)
  {
    if k > 0 {
      BuddyHalves(i / 2, k - 1, a / 2);
      assert Buddy(i, k) / 2 == Buddy(i / 2, k - 1);
    }
  }

  lemma {:induction false} BuddyValue(i: nat, k: nat)
    requires Aligned(i, k)
    ensures Aligned(i, k + 1) ==> Buddy(i, k) == i + Pow2(k)
    ensures !Aligned(i, k + 1) ==> i == Down(i, k + 1) + Pow2(k) && Buddy(i, k) == Down(i, k + 1)
  {
    var h := i / 2;
    assert Down(i, k + 1) == 2 * Down(h, k);
    if k > 0 {
      assert Down(i, k) == 2 * Down(h, k - 1);
      assert i == 2 * h;
      BuddyValue(h, k - 1);
      assert Buddy(i, k) == 2 * Buddy(h, k - 1);
    } else {
      assert Down(h, 0) == h;
    }
  }

  lemma {:induction false} AlignedCoarser(i: nat, k: nat, m: nat)
    requires k <= m && Aligned(i, m)
    ensures Aligned(i, k)
  {
    if k > 0 { AlignedCoarser(i / 2, k - 1, m - 1); }
  }

  /** An aligned run holds its own last element, and no run can pass an aligned limit. */
  lemma {:induction false} AlignedStep(i: nat, j: nat, k: nat)
    requires Aligned(i, k) && Aligned(j, k) && i < j
    ensures i + Pow2(k) <= j
  {
    if k > 0 { AlignedStep(i / 2, j / 2, k - 1); }
  }

  lemma DownStep(a: nat, k: nat)
    ensures Down(a, k) == if k == 0 then a else 2 * Down(a / 2, k - 1)
  {
  }

  lemma {:induction false} AlignedSum(a: nat, b: nat, k: nat)
    requires Aligned(a, k) && Aligned(b, k)
    ensures Aligned(a + b, k)
  {
    hide Down;
    DownStep(a, k);
    DownStep(b, k);
    DownStep(a + b, k);
    if k > 0 {
      assert (a + b) / 2 == a / 2 + b / 2;
      AlignedSum(a / 2, b / 2, k - 1);
    }
  }

  lemma {:induction false} AlignedMultiple(k: nat, i: nat)
    ensures Aligned(Pow2(k) * i, k)
  {
    if k > 0 {
      AlignedMultiple(k - 1, i);
      assert Pow2(k) * i == 2 * (Pow2(k - 1) * i);
    }
  }

  // ---------------------------------------------------------------- the macros

  lemma {:induction false} XorIsBuddy(i: nat, k: nat)
    ensures Xor(i, Pow2(k)) == Buddy(i, k)
  {
    if k > 0 {
      if i / 2 == 0 { BuddyOfZero(k - 1); } else { XorIsBuddy(i / 2, k - 1); }
      if i == 0 { BuddyOfZero(k); }
    }
  }

  lemma {:induction false} BuddyOfZero(k: nat)
    ensures Buddy(0, k) == Pow2(k)
  {
    if k > 0 { BuddyOfZero(k - 1); }
  }

  lemma {:induction false} OrAddsBit(i: nat, k: nat)
    requires Aligned(i, k + 1)
    ensures Or(i, Pow2(k)) == i + Pow2(k)
  {
    if k > 0 && i > 0 { OrAddsBit(i / 2, k - 1); }
  }

  lemma {:induction false} AndNotClearsBit(i: nat, k: nat)
    requires Aligned(i, k)
    ensures AndNot(i, Pow2(k)) == Down(i, k + 1)
  {
    if i == 0 {
      DownBounds(0, k + 1);
    } else if k == 0 {
      AndNotZero(i / 2);
    } else {
      AndNotClearsBit(i / 2, k - 1);
    }
  }

  lemma {:induction false} AndNotZero(a: nat)
    ensures AndNot(a, 0) == a
  {
    if a > 0 { AndNotZero(a / 2); }
  }

  /** `a & (2^k - 1)` is what `a` has above its aligned run: `IS_ALIGNED`, `PAGE_OFF`, `BIGPAGE_OFF`. */
  lemma {:induction false} AndMaskIsOffset(a: nat, k: nat)
    ensures And(a, Pow2(k) - 1) == a - Down(a, k)
  {
    DownBounds(a, k);
    if a != 0 && k > 0 { AndMaskIsOffset(a / 2, k - 1); }
  }

  /** `a & ~(2^k - 1)` rounds down: `ALIGN_BELOW`, `PAGE_FN`, `BIGPAGE_FN`. */
  lemma {:induction false} AndNotMaskIsDown(a: nat, k: nat)
    ensures AndNot(a, Pow2(k) - 1) == Down(a, k)
  {
    if a == 0 { DownBounds(0, k); }
    else if k > 0 { AndNotMaskIsDown(a / 2, k - 1); }
    else { AndNotZero(a); }
  }

  lemma {:induction false} OrMaskFillsRun(a: nat, k: nat)
    ensures Or(a, Pow2(k) - 1) == Down(a, k) + Pow2(k) - 1
  {
    DownBounds(a, k);
    if k > 0 && a != 0 { OrMaskFillsRun(a / 2, k - 1); }
  }

  /** The macro IS_POW_OF_2. */
  predicate IsPowOf2(x: nat) {
    x > 0 && And(x, x - 1) == 0
  }

  /** Whatever IS_POW_OF_2 accepts is a power of two. */
  lemma {:induction false} IsPowOf2Sound(x: nat) returns (k: nat)
    requires IsPowOf2(x)
    ensures x == Pow2(k)
  {
    if x == 1 {
      k := 0;
    } else if x % 2 == 0 {
      assert (x - 1) / 2 == x / 2 - 1;
      var j := IsPowOf2Sound(x / 2);
      k := j + 1;
    } else {
      AndSelf(x / 2);
      assert false;
    }
  }

  /** Every power of two is accepted by IS_POW_OF_2. */
  lemma {:induction false} IsPowOf2Complete(k: nat)
    ensures IsPowOf2(Pow2(k))
  {
    if k > 0 {
      IsPowOf2Complete(k - 1);
      assert (Pow2(k) - 1) / 2 == Pow2(k - 1) - 1;
    }
  }

  lemma {:induction false} AndSelf(a: nat)
    ensures And(a, a) == a
  {
    if a > 0 { AndSelf(a / 2); }
  }

  // ---------------------------------------------------------------- runs, shifts and division

  lemma {:induction false} ShrIsDiv(a: nat, k: nat)
    ensures Down(a, k) == Pow2(k) * Shr(a, k)
    ensures Shr(a, k) == a / Pow2(k)
    ensures a % Pow2(k) == a - Down(a, k)
  {
    if k > 0 {
      ShrIsDiv(a / 2, k - 1);
      var q := Shr(a / 2, k - 1);
      assert 2 * (Pow2(k - 1) * q) == Pow2(k) * q;
    }
    DownBounds(a, k);
    DivUnique(a, Pow2(k), Shr(a, k), a - Down(a, k));
  }

  lemma DivUnique(a: nat, d: nat, q: nat, r: nat)
    requires d > 0 && a == d * q + r && r < d
    ensures a / d == q && a % d == r
  {
    MulMonotone(d, q + 1, a / d);
    MulMonotone(d, a / d + 1, q);
  }

  lemma MulMonotone(d: nat, x: nat, y: nat)
    ensures x <= y ==> d * x <= d * y
  {
  }

  lemma MulAssociates(x: nat, y: nat, z: nat)
    ensures x * (y * z) == (x * y) * z
  {
  }

  lemma {:induction false} Pow2Grows(k: nat, m: nat)
    requires k <= m
    ensures Pow2(k) <= Pow2(m)
    ensures k < m ==> 2 * Pow2(k) <= Pow2(m)
    ensures m < Pow2(m)
  {
    if m > k { Pow2Grows(k, m - 1); } else if k > 0 { Pow2Grows(k - 1, k - 1); }
  }

  lemma {:induction false} Pow2Add(k: nat, m: nat)
    ensures Pow2(k + m) == Pow2(k) * Pow2(m)
  {
    if k > 0 { Pow2Add(k - 1, m); }
  }
}
