/** The bump allocator of kern/mm/vmm/bootstrap.c, which serves only until the page allocator is up. */
module Bootstrap {
  import opened Buddy
  import opened Pvbridge

  /** DIV_ROUND_UP(x, PAGE) * PAGE. */
  function RoundUpPage(x: nat): nat { (x + PAGE - 1) / PAGE * PAGE }

  function RoundDownPage(x: nat): nat { x - x % PAGE }

  datatype Allocation = Allocation(addr: nat, size: nat)

  /** `a` and `b` share no byte. */
  predicate Disjoint(a: Allocation, b: Allocation) {
    a.addr + a.size <= b.addr || b.addr + b.size <= a.addr
  }

  function Min(a: nat, b: nat): nat { if a < b then a else b }

  /** What was given out lies between `base` and `cur`, page-aligned and without overlap. */
  ghost predicate Bumped(base: nat, limit: nat, cur: nat, given: seq<Allocation>) {
    && base <= cur
    && (forall i :: 0 <= i < |given| ==>
          base <= given[i].addr && given[i].addr + given[i].size <= Min(cur, limit) && given[i].addr % PAGE == 0)
    && (forall i, j :: 0 <= i < j < |given| ==> Disjoint(given[i], given[j]))
  }

  lemma BumpUp(base: nat, limit: nat, cur: nat, given: seq<Allocation>)
    requires Bumped(base, limit, cur, given)
    ensures Bumped(base, limit, RoundUpPage(cur), given) && RoundUpPage(cur) % PAGE == 0
  {
    RoundedUp(cur);
    hide RoundUpPage;
  }

  lemma RoundedUp(x: nat)
    ensures x <= RoundUpPage(x) && RoundUpPage(x) % PAGE == 0
  {
  }

  lemma BumpMore(base: nat, limit: nat, cur: nat, given: seq<Allocation>, size: nat)
    requires Bumped(base, limit, cur, given) && cur % PAGE == 0 && cur + size <= limit
    ensures Bumped(base, limit, cur + size, given + [Allocation(cur, size)])
  {
  }

  class BootstrapVmalloc {
    const base: nat
    const limit: nat
    var cur: nat
    ghost var given: seq<Allocation>

    ghost predicate Valid()
      reads this
    {
      Bumped(base, limit, cur, given)
    }

    /** Pointers are 32 bits wide, and so is the limit. */
    constructor (base: nat, maxSize: nat)
      requires base < SIZE_MAX && maxSize < SIZE_MAX
      ensures Valid() && cur == base && this.base == base && limit == (base + maxSize) % SIZE_MAX && given == []
    {
      this.base, this.cur, this.limit, given := base, base, (base + maxSize) % SIZE_MAX, [];
    }

    /** In order as long as the end of the request is a pointer. */
    method Malloc(size: nat) returns (ptr: nat)
      requires Valid() && cur < SIZE_MAX && size < SIZE_MAX
      modifies this
      ensures var at := RoundUpPage(old(cur)) % SIZE_MAX;
              if (at + size) % SIZE_MAX > limit
              then ptr == NULL && cur == at && given == old(given)
              else ptr == at && cur == (at + size) % SIZE_MAX && given == old(given) + [Allocation(at, size)]
      ensures RoundUpPage(old(cur)) + size < SIZE_MAX ==> Valid()
    {
      hide RoundUpPage, Bumped;
      BumpUp(base, limit, cur, given);
      cur := RoundUpPage(cur) % SIZE_MAX;
      ptr := cur;
      if (cur + size) % SIZE_MAX > limit {
        return NULL;
      }
      if ptr + size < SIZE_MAX && RoundUpPage(old(cur)) < SIZE_MAX { BumpMore(base, limit, ptr, given, size); }
      cur := (cur + size) % SIZE_MAX;
      given := given + [Allocation(ptr, size)];
    }

    /** The bytes used up so far, gaps included. */
    function Area(): nat
      requires base <= cur
      reads this
    {
      cur - base
    }
  }
}
