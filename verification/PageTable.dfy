/** The boot page tables: the queue of early mappings as a two-level table of 2 MB pages, in the PAE
    format of i386 and in the long-descriptor format of armv7a, and the walk the processor does. */
module PageTable {
  import opened Words
  import opened EarlyMapping

  datatype Arch = I386 | Armv7a

  const TABLES := 4
  const ENTRIES := 512
  const TABLE_BYTES := 4096

  /** PGINDEX_FN and PGMID_FN. */
  function PgindexFn(x: nat): nat { And(Shr(x, 30), 3) }
  function PgmidFn(x: nat): nat { And(Shr(x, 21), 511) }

  /** WKPGINDEX: the page the entry points to. */
  function WkPgindex(e: nat): nat { AndNot(e, TABLE_BYTES - 1) }

  /** MKPGINDEX: present, or a table descriptor. */
  function MkPgindex(arch: Arch, table: nat): nat { Or(table, if arch.I386? then 1 else 3) }

  /** MKS1LA with access flag set, AP_SYSRW, global and secure: fields that share no bit. */
  function MkS1La(sh: nat, attrIndx: nat): nat { 0x400 + sh * 0x100 + attrIndx * 4 }

  const SH_OUTER := 2
  const SH_INNER := 3

  /** The low bits of a 2 MB entry. i386: present, page size, writable, whatever the type. armv7a: block,
      shareability, access flag and memory attribute index by type; other types panic. */
  function Flags(arch: Arch, kind: nat): nat {
    if arch.I386? then 0x1 + 0x80 + 0x2
    else if kind == MEMORY then 1 + MkS1La(SH_INNER, 0)
    else if kind == DEVICE then 1 + MkS1La(SH_OUTER, 1)
    else if kind == FRAMEBUFFER then 1 + MkS1La(SH_OUTER, 2)
    else 0
  }

  predicate KnownType(arch: Arch, kind: nat) {
    arch.I386? || kind == MEMORY || kind == DEVICE || kind == FRAMEBUFFER
  }

  /** MKPGMID_BIG. */
  function MkPgmidBig(arch: Arch, pa: nat, kind: nat): nat { Or(pa, Flags(arch, kind)) }

  /** The widest physical address the format holds. */
  function AddressBits(arch: Arch): nat { if arch.I386? then 52 else 40 }

  // ---------------------------------------------------------------- the walk

  /** The attributes of a 2 MB page as the manuals lay them out (table 4-9 of the Intel SDM, volume 3A;
      section B3.6.2 of ARM DDI 0406C). `middle` are the bits between the attributes and the address,
      `upper` those above the address, among them execute-disable and execute-never. */
  datatype Attributes =
    | Pae(writable: bool, user: bool, writeThrough: bool, cacheDisable: bool, globalPage: bool, middle: nat, upper: nat)
    | Long(attrIndx: nat, nonSecure: bool, ap: nat, sh: nat, accessFlag: bool, notGlobal: bool, middle: nat, upper: nat)

  datatype Translation = NotPresent | Mapped(pa: nat, attributes: Attributes) | Other

  function Bit(x: nat, k: nat): bool { Shr(x, k) % 2 == 1 }

  /** The `w` bits of `x` from bit `k` up. */
  function Field(x: nat, k: nat, w: nat): nat
    decreases k, w
  {
    if k > 0 then Field(x / 2, k - 1, w)
    else if w == 0 then 0
    else x % 2 + 2 * Field(x / 2, 0, w - 1)
  }

  function Decoded(arch: Arch, e: nat): Attributes {
    if arch.I386? then
      Pae(Bit(e, 1), Bit(e, 2), Bit(e, 3), Bit(e, 4), Bit(e, 8), Field(e, 12, 9), Shr(e, 52))
    else
      Long(Field(e, 2, 3), Bit(e, 5), Field(e, 6, 2), Field(e, 8, 2), Bit(e, 10), Bit(e, 11), Field(e, 12, 9), Shr(e, 40))
  }

  /** What a mapping of a type is for. i386: kernel memory, to be read and written, and executed. armv7a:
      the same, of the memory attribute 0 and inner shareable for MEMORY, of attribute 1 and outer
      shareable for DEVICE, of attribute 2 and outer shareable for FRAMEBUFFER. */
  predicate RightFor(arch: Arch, kind: nat, a: Attributes) {
    if arch.I386? then
      a.Pae? && a.writable && !a.user && !a.writeThrough && !a.cacheDisable && !a.globalPage && a.middle == 0 && a.upper == 0
    else
      && a.Long? && a.accessFlag && a.ap == 0 && !a.nonSecure && !a.notGlobal && a.middle == 0 && a.upper == 0
      && (kind == MEMORY ==> a.attrIndx == 0 && a.sh == 3)
      && (kind == DEVICE ==> a.attrIndx == 1 && a.sh == 2)
      && (kind == FRAMEBUFFER ==> a.attrIndx == 2 && a.sh == 2)
  }

  /** The bits of a first-level entry that must be clear: reserved (PAE, where they fault, write-through
      and cache-disable included), or that would restrict the pages below (long descriptors). */
  function Forbidden(arch: Arch, e: nat): nat {
    if arch.I386? then Field(e, 1, 11) + Shr(e, 52) else Field(e, 2, 10) + Shr(e, 40)
  }

  /** Bits 51:12 (PAE) or 39:12 (long descriptors) of a first-level entry have the address of the
      second-level table; -1 if the entry is not present, of another kind, or says more. */
  function TableOf(arch: Arch, e: nat): (table: int) {
    if Bit(e, 0) && (arch.I386? || Bit(e, 1)) && Forbidden(arch, e) == 0 then Down(e, 12) % Pow2(AddressBits(arch)) else -1
  }

  /** The second level: a 2 MB page if the present bit and the page-size bit are set (section 4.4.2 of
      the Intel SDM, volume 3A), or if the two low bits are 01 (section B3.6 of ARM DDI 0406C); the
      address is bits 51:21, respectively 39:21, followed by bits 20:0 of `va`. */
  function BigPage(arch: Arch, e: nat, va: nat): Translation {
    if !Bit(e, 0) then NotPresent
    else if arch.I386? && !Bit(e, 7) then Other
    else if arch.Armv7a? && Bit(e, 1) then Other
    else Mapped(Down(e, 21) % Pow2(AddressBits(arch)) + va % BIGPAGE, Decoded(arch, e))
  }

  /** The second-level tables lie one after the other from `midBase` on; an address outside them is
      read as an absent entry. */
  function ReadMid(mid: seq<nat>, midBase: nat, table: nat, k: nat): nat {
    if midBase <= table && (table - midBase) / 8 + k < |mid| then mid[(table - midBase) / 8 + k] else 0
  }

  /** The translation of the 32-bit address `va`. */
  function Walk(arch: Arch, index: seq<nat>, mid: seq<nat>, midBase: nat, va: nat): Translation
    requires |index| == TABLES
  {
    var table := TableOf(arch, index[va / 0x4000_0000 % 4]);
    if table < 0 then NotPresent
    else BigPage(arch, ReadMid(mid, midBase, table, va / BIGPAGE % 512), va)
  }

  // ---------------------------------------------------------------- what the queue says

  /** The attributes that a mapping of the type gets. */
  function TypeAttributes(arch: Arch, kind: nat): Attributes {
    if arch.I386? then Pae(true, false, false, false, false, 0, 0)
    else if kind == MEMORY then Long(0, false, 0, 3, true, false, 0, 0)
    else Long(if kind == DEVICE then 1 else 2, false, 0, 2, true, false, 0, 0)
  }

  lemma TypesAreRight(arch: Arch, kind: nat, a: Attributes)
    requires KnownType(arch, kind)
    ensures RightFor(arch, kind, a) <==> a == TypeAttributes(arch, kind)
  {
  }

  /** The last queued mapping that covers `va` decides. */
  function Translate(arch: Arch, q: seq<Mapping>, va: nat): Translation {
    if q == [] then NotPresent
    else
      var m := q[|q| - 1];
      if Covers(m, va) then Mapped(m.paddr + Distance(m, va), TypeAttributes(arch, m.kind))
      else Translate(arch, q[..|q| - 1], va)
  }

  /** Mapping `i` covers `va` and no later one does. */
  predicate Decides(q: seq<Mapping>, i: nat, va: nat) {
    i < |q| && Covers(q[i], va) && forall j :: i < j < |q| ==> !Covers(q[j], va)
  }

  lemma {:induction false} LastDecides(arch: Arch, q: seq<Mapping>, i: nat, va: nat)
    requires Decides(q, i, va)
    ensures Translate(arch, q, va) == Mapped(q[i].paddr + Distance(q[i], va), TypeAttributes(arch, q[i].kind))
  {
    hide Covers, TypeAttributes, Distance;
    if i < |q| - 1 {
      assert !Covers(q[|q| - 1], va);
      LastDecides(arch, q[..|q| - 1], i, va);
    }
  }

  lemma {:induction false} NoneDecides(arch: Arch, q: seq<Mapping>, va: nat)
    requires forall j :: 0 <= j < |q| ==> !Covers(q[j], va)
    ensures Translate(arch, q, va) == NotPresent
  {
    hide Covers, TypeAttributes;
    if q != [] { NoneDecides(arch, q[..|q| - 1], va); }
  }

  /** What the second-level entry number `s` of all four tables must hold. */
  function EntryFor(arch: Arch, q: seq<Mapping>, s: nat): nat {
    if q == [] then 0
    else
      var m := q[|q| - 1];
      if Covers(m, s * BIGPAGE) then m.paddr + Distance(m, s * BIGPAGE) + Flags(arch, m.kind)
      else EntryFor(arch, q[..|q| - 1], s)
  }

  /** A mapping the tables can hold: aligned to 2 MB, and its physical range within the format. */
  ghost predicate Mappable(arch: Arch, m: Mapping) {
    && Fits(m) && EarlyMappingValid(m) && KnownType(arch, m.kind)
    && m.paddr + m.size <= Pow2(AddressBits(arch))
  }

  // ---------------------------------------------------------------- bits of entries

  lemma {:induction false} OrAdds(a: nat, b: nat, k: nat)
    requires Aligned(a, k) && b < Pow2(k)
    ensures Or(a, b) == a + b
  {
    if a != 0 && b != 0 { OrAdds(a / 2, b / 2, k - 1); }
  }

  lemma {:induction false} DownAdds(a: nat, b: nat, k: nat)
    requires Aligned(a, k) && b < Pow2(k)
    ensures Down(a + b, k) == a
  {
    if k > 0 { DownAdds(a / 2, b / 2, k - 1); }
  }

  lemma {:induction false} BitOfLow(a: nat, b: nat, n: nat, k: nat)
    requires Aligned(a, n) && b < Pow2(n) && k < n
    ensures Bit(a + b, k) == Bit(b, k)
  {
    if k > 0 { BitOfLow(a / 2, b / 2, n - 1, k - 1); }
  }

  lemma FieldStep(x: nat, k: nat, w: nat)
    ensures Field(x, k, w) == if k > 0 then Field(x / 2, k - 1, w) else if w == 0 then 0 else x % 2 + 2 * Field(x / 2, 0, w - 1)
  {
  }

  lemma LowHalf(a: nat, b: nat, n: nat)
    requires Aligned(a, n) && b < Pow2(n) && n > 0
    ensures Aligned(a / 2, n - 1) && b / 2 < Pow2(n - 1)
    ensures (a + b) / 2 == a / 2 + b / 2 && (a + b) % 2 == b % 2
  {
  }

  lemma {:induction false} FieldOfLow(a: nat, b: nat, n: nat, k: nat, w: nat)
    requires Aligned(a, n) && b < Pow2(n) && k + w <= n
    ensures Field(a + b, k, w) == Field(b, k, w)
    decreases k, w
  {
    hide Down, Pow2, Field;
    FieldStep(a + b, k, w);
    FieldStep(b, k, w);
    if k + w > 0 { LowHalf(a, b, n); }
    if k > 0 {
      FieldOfLow(a / 2, b / 2, n - 1, k - 1, w);
    } else if w > 0 {
      FieldOfLow(a / 2, b / 2, n - 1, 0, w - 1);
    }
  }

  lemma NothingUpper(x: nat, k: nat)
    requires x < Pow2(k)
    ensures Shr(x, k) == 0
  {
    hide Shr, Pow2, Down;
    ShrIsDiv(x, k);
  }

  /** The attribute bits that the types get. */
  lemma FlagsDecoded(arch: Arch, kind: nat)
    requires KnownType(arch, kind)
    ensures Decoded(arch, Flags(arch, kind)) == TypeAttributes(arch, kind)
  {
    hide Shr, Field;
    if arch.I386? { Bits83(); }
    else if kind == MEMORY { Bits701(); }
    else if kind == DEVICE { Bits605(); }
    else { Bits609(); }
  }

  lemma {:induction false} FieldAfterShift(x: nat, k: nat, w: nat)
    ensures Field(x, k, w) == Field(Shr(x, k), 0, w)
  {
    if k > 0 { FieldAfterShift(x / 2, k - 1, w); }
  }

  lemma NoField(x: nat)
    requires x < 0x1000
    ensures Field(x, 12, 9) == 0
  {
    BigPageValue();
    NothingUpper(x, 12);
    FieldAfterShift(x, 12, 9);
    hide Shr;
    assert Field(0, 0, 9) == 0;
  }

  lemma Bits83()
    ensures Bit(0x83, 1) && !Bit(0x83, 2) && !Bit(0x83, 3) && !Bit(0x83, 4) && !Bit(0x83, 8)
    ensures Field(0x83, 12, 9) == 0 && Shr(0x83, 52) == 0
  {
    hide Field;
    ShrSmall(0x83);
    NoField(0x83);
    assert Shr(0x83, 4) == 8 && Shr(0x83, 8) == 0;
  }

  lemma Bits701()
    ensures Field(0x701, 2, 3) == 0 && !Bit(0x701, 5) && Field(0x701, 6, 2) == 0 && Field(0x701, 8, 2) == 3
    ensures Bit(0x701, 10) && !Bit(0x701, 11) && Field(0x701, 12, 9) == 0 && Shr(0x701, 40) == 0
  {
    ShrSmall(0x701);
    NoField(0x701);
    FieldAfterShift(0x701, 2, 3);
    FieldAfterShift(0x701, 6, 2);
    FieldAfterShift(0x701, 8, 2);
    Shifts701();
    hide Shr;
    assert Field(0x1C0, 0, 3) == 0 && Field(0x1C, 0, 2) == 0 && Field(0x7, 0, 2) == 3;
  }

  lemma Shifts701()
    ensures Shr(0x701, 2) == 0x1C0 && Shr(0x701, 5) == 0x38 && Shr(0x701, 6) == 0x1C && Shr(0x701, 8) == 0x7
    ensures Shr(0x701, 10) == 1 && Shr(0x701, 11) == 0
  {
  }

  lemma Bits605()
    ensures Field(0x605, 2, 3) == 1 && !Bit(0x605, 5) && Field(0x605, 6, 2) == 0 && Field(0x605, 8, 2) == 2
    ensures Bit(0x605, 10) && !Bit(0x605, 11) && Field(0x605, 12, 9) == 0 && Shr(0x605, 40) == 0
  {
    ShrSmall(0x605);
    NoField(0x605);
    FieldAfterShift(0x605, 2, 3);
    FieldAfterShift(0x605, 6, 2);
    FieldAfterShift(0x605, 8, 2);
    Shifts605();
    hide Shr;
    assert Field(0x181, 0, 3) == 1 && Field(0x18, 0, 2) == 0 && Field(0x6, 0, 2) == 2;
  }

  lemma Shifts605()
    ensures Shr(0x605, 2) == 0x181 && Shr(0x605, 5) == 0x30 && Shr(0x605, 6) == 0x18 && Shr(0x605, 8) == 0x6
    ensures Shr(0x605, 10) == 1 && Shr(0x605, 11) == 0
  {
  }

  lemma Bits609()
    ensures Field(0x609, 2, 3) == 2 && !Bit(0x609, 5) && Field(0x609, 6, 2) == 0 && Field(0x609, 8, 2) == 2
    ensures Bit(0x609, 10) && !Bit(0x609, 11) && Field(0x609, 12, 9) == 0 && Shr(0x609, 40) == 0
  {
    ShrSmall(0x609);
    NoField(0x609);
    FieldAfterShift(0x609, 2, 3);
    FieldAfterShift(0x609, 6, 2);
    FieldAfterShift(0x609, 8, 2);
    Shifts609();
    hide Shr;
    assert Field(0x182, 0, 3) == 2 && Field(0x18, 0, 2) == 0 && Field(0x6, 0, 2) == 2;
  }

  lemma Shifts609()
    ensures Shr(0x609, 2) == 0x182 && Shr(0x609, 5) == 0x30 && Shr(0x609, 6) == 0x18 && Shr(0x609, 8) == 0x6
    ensures Shr(0x609, 10) == 1 && Shr(0x609, 11) == 0
  {
  }

  lemma ShrSmall(x: nat)
    requires x < 0x1000
    ensures Shr(x, 52) == 0 && Shr(x, 40) == 0
  {
    BigPageValue();
    Pow2Grows(12, 40);
    Pow2Grows(12, 52);
    hide Shr, Pow2;
    NothingUpper(x, 40);
    NothingUpper(x, 52);
  }

  /** An entry has the attributes of its low bits. */
  lemma LowBitsDecide(arch: Arch, base: nat, f: nat)
    requires Aligned(base, 21) && base < Pow2(AddressBits(arch)) && f < TABLE_BYTES
    ensures Decoded(arch, base + f) == Decoded(arch, f)
  {
    hide Down, Pow2, Shr, Field, Bit;
    BigPageValue();
    BitOfLow(base, f, 21, 1);
    BitOfLow(base, f, 21, 2);
    BitOfLow(base, f, 21, 3);
    BitOfLow(base, f, 21, 4);
    BitOfLow(base, f, 21, 5);
    BitOfLow(base, f, 21, 8);
    BitOfLow(base, f, 21, 10);
    BitOfLow(base, f, 21, 11);
    FieldOfLow(base, f, 21, 2, 3);
    FieldOfLow(base, f, 21, 6, 2);
    FieldOfLow(base, f, 21, 8, 2);
    FieldOfLow(base, f, 21, 12, 9);
    BelowNext(base, f, AddressBits(arch));
    NothingUpper(base + f, AddressBits(arch));
    ShrSmall(f);
  }

  lemma BelowNext(base: nat, f: nat, k: nat)
    requires Aligned(base, 21) && base < Pow2(k) && f < TABLE_BYTES && k >= 21
    ensures base + f < Pow2(k)
  {
    hide Down, Pow2;
    BigPageValue();
    AlignedMultiple(k, 1);
    AlignedCoarser(Pow2(k), 21, k);
    AlignedStep(base, Pow2(k), 21);
  }

  lemma FlagBits(arch: Arch, kind: nat)
    requires KnownType(arch, kind)
    ensures var f := Flags(arch, kind);
            f < TABLE_BYTES && Bit(f, 0) && (arch.I386? ==> Bit(f, 7)) && (arch.Armv7a? ==> !Bit(f, 1))
  {
    assert Shr(0x83, 7) == 1;
    assert Shr(0x701, 1) == 0x380 && Shr(0x605, 1) == 0x302 && Shr(0x609, 1) == 0x304;
  }

  lemma AddressPowers()
    ensures Pow2(52) == 0x10_0000_0000_0000 && Pow2(40) == 0x100_0000_0000
  {
    BigPageValue();
    Pow2Add(9, 21);
    Pow2Add(30, 9);
    Pow2Add(1, 39);
    Pow2Add(40, 12);
  }

  /** A 2 MB entry is decoded to the page it was made for. */
  lemma BigPageDecodes(arch: Arch, base: nat, kind: nat, va: nat)
    requires KnownType(arch, kind) && base % BIGPAGE == 0 && base < Pow2(AddressBits(arch))
    ensures BigPage(arch, base + Flags(arch, kind), va) == Mapped(base + va % BIGPAGE, TypeAttributes(arch, kind))
  {
    hide Down, Pow2, Shr, Flags, BigPageOff, Bit, Field, Decoded, TypeAttributes;
    var f := Flags(arch, kind);
    FlagBits(arch, kind);
    BigPageValue();
    BigPageAligned(base);
    BitOfLow(base, f, 21, 0);
    BitOfLow(base, f, 21, 1);
    BitOfLow(base, f, 21, 7);
    DownAdds(base, f, 21);
    LowBitsDecide(arch, base, f);
    FlagsDecoded(arch, kind);
    ModSmall(base, Pow2(AddressBits(arch)));
  }

  lemma ModSmall(x: nat, m: nat)
    requires x < m
    ensures x % m == x
  {
  }

  lemma LowBits()
    ensures Bit(1, 0) && Bit(3, 0) && Bit(3, 1) && Field(1, 1, 11) == 0 && Field(3, 2, 10) == 0
  {
    hide Field;
    FieldAfterShift(1, 1, 11);
    FieldAfterShift(3, 2, 10);
    assert Shr(1, 1) == 0 && Shr(3, 2) == 0;
    NoBits(11);
    NoBits(10);
  }

  lemma {:induction false} NoBits(w: nat)
    ensures Field(0, 0, w) == 0
  {
    if w > 0 { NoBits(w - 1); }
  }

  lemma TableBelowNext(table: nat, f: nat, k: nat)
    requires Aligned(table, 12) && table < Pow2(k) && f < TABLE_BYTES && k >= 12
    ensures table + f < Pow2(k)
  {
    hide Down, Pow2;
    BigPageValue();
    AlignedMultiple(k, 1);
    AlignedCoarser(Pow2(k), 12, k);
    AlignedStep(table, Pow2(k), 12);
  }

  /** A first-level entry leads back to the table it was made for. */
  lemma TableDecodes(arch: Arch, table: nat)
    requires Aligned(table, 12) && table < Pow2(AddressBits(arch))
    ensures TableOf(arch, MkPgindex(arch, table)) == table && WkPgindex(MkPgindex(arch, table)) == table
  {
    hide Down, Pow2, Bit, Or, AndNot, Field, Shr;
    var f := if arch.I386? then 1 else 3;
    LowBits();
    BigPageValue();
    ModSmall(table, Pow2(AddressBits(arch)));
    OrAdds(table, f, 12);
    DownAdds(table, f, 12);
    BitOfLow(table, f, 12, 0);
    BitOfLow(table, f, 12, 1);
    FieldOfLow(table, f, 12, 1, 11);
    FieldOfLow(table, f, 12, 2, 10);
    TableBelowNext(table, f, AddressBits(arch));
    NothingUpper(table + f, AddressBits(arch));
    AndNotMaskIsDown(table + f, 12);
  }

  lemma FrameNumbers(x: nat)
    ensures PgindexFn(x) == x / 0x4000_0000 % 4 && PgmidFn(x) == x / BIGPAGE % 512
  {
    hide Shr, And, Pow2, Down;
    BigPageValue();
    PowersOfTwo();
    ShrIsDiv(x, 30);
    ShrIsDiv(x, 21);
    AndMaskIsOffset(x / 0x4000_0000, 2);
    ShrIsDiv(x / 0x4000_0000, 2);
    AndMaskIsOffset(x / BIGPAGE, 9);
    ShrIsDiv(x / BIGPAGE, 9);
  }

  lemma PowersOfTwo()
    ensures Pow2(30) == 0x4000_0000 && Pow2(2) == 4
  {
    BigPageValue();
    Pow2Add(9, 21);
  }

  // ---------------------------------------------------------------- distances and slots

  lemma SlotNumber(va: nat)
    ensures va / 0x4000_0000 % 4 * ENTRIES + va / BIGPAGE % 512 == va / BIGPAGE % 2048
  {
    var x, r := va / BIGPAGE, va % BIGPAGE;
    var q, l := x / 512, x % 512;
    DivUnique(va, 0x4000_0000, q, BIGPAGE * l + r);
    DivUnique(x, 2048, q / 4, 512 * (q % 4) + l);
  }

  lemma StartInPage(v: nat)
    requires v % BIGPAGE == 0
    ensures v % WORD % BIGPAGE == 0
  {
    assert v % WORD == v - BIGPAGE * (2048 * (v / WORD));
  }

  /** Distances are measured to the 2 MB page first, then inside it. */
  lemma DistanceInPage(m: Mapping, va: nat)
    requires m.vaddr % BIGPAGE == 0 && va < WORD
    ensures Distance(m, va) == Distance(m, va / BIGPAGE * BIGPAGE) + va % BIGPAGE
    ensures Distance(m, va / BIGPAGE * BIGPAGE) % BIGPAGE == 0
    ensures m.size % BIGPAGE == 0 ==> (Covers(m, va) <==> Covers(m, va / BIGPAGE * BIGPAGE))
  {
    hide Distance;
    DistanceIs(m, va);
    DistanceIs(m, va / BIGPAGE * BIGPAGE);
    StartInPage(m.vaddr);
    var v, p, r := m.vaddr % WORD, va / BIGPAGE, va % BIGPAGE;
    PageBelow(v / BIGPAGE, p, r);
    assert v == BIGPAGE * (v / BIGPAGE);
    var d := if p * BIGPAGE >= v then p - v / BIGPAGE else p + 2048 - v / BIGPAGE;
    assert Distance(m, p * BIGPAGE) == d * BIGPAGE;
  }

  lemma PageBelow(w: nat, p: nat, r: nat)
    requires r < BIGPAGE
    ensures p * BIGPAGE + r >= w * BIGPAGE <==> p >= w
  {
  }

  lemma DistanceOfSlot(m: Mapping, va: nat, done: nat)
    requires m.vaddr % BIGPAGE == 0 && va == m.vaddr + done && done % BIGPAGE == 0 && done < WORD
    ensures Distance(m, va / BIGPAGE % 2048 * BIGPAGE) == done
  {
    var x := va / BIGPAGE;
    assert va == x * BIGPAGE;
    DivUnique(va, WORD, x / 2048, x % 2048 * BIGPAGE);
    DistanceIs(m, va % WORD);
    hide Distance;
    DivUnique(m.vaddr, WORD, m.vaddr / WORD, m.vaddr % WORD);
  }

  lemma SlotOfDistance(m: Mapping, va: nat, done: nat, t: nat)
    requires m.vaddr % BIGPAGE == 0 && va == m.vaddr + done && done % BIGPAGE == 0 && done < WORD && t < 2048
    ensures Distance(m, t * BIGPAGE) < done + BIGPAGE <==> Distance(m, t * BIGPAGE) < done || t == va / BIGPAGE % 2048
  {
    DistanceOfSlot(m, va, done);
    var s := va / BIGPAGE % 2048;
    assert Distance(m, t * BIGPAGE) % BIGPAGE == 0;
    assert Distance(m, t * BIGPAGE) == Distance(m, s * BIGPAGE) ==> t == s;
  }

  lemma CoveredDecodes(arch: Arch, m: Mapping, va: nat)
    requires Mappable(arch, m) && Covers(m, va) && va < WORD
    ensures var d := Distance(m, va / BIGPAGE * BIGPAGE);
            BigPage(arch, m.paddr + d + Flags(arch, m.kind), va) == Mapped(m.paddr + Distance(m, va), TypeAttributes(arch, m.kind))
  {
    hide Flags, TypeAttributes, Pow2, BigPage, BigPageOff, Down, Distance;
    Assertions(arch, m);
    DistanceInPage(m, va);
    BigPageDecodes(arch, m.paddr + Distance(m, va / BIGPAGE * BIGPAGE), m.kind, va);
  }

  lemma AbsentEntry(arch: Arch, va: nat)
    ensures BigPage(arch, 0, va) == NotPresent
  {
    assert !Bit(0, 0);
  }

  /** The entry the processor finds for `va` is decoded to what the queue says about `va`. */
  lemma {:induction false} EntryTranslates(arch: Arch, q: seq<Mapping>, va: nat)
    requires va < WORD && forall i :: 0 <= i < |q| ==> Mappable(arch, q[i])
    ensures BigPage(arch, EntryFor(arch, q, va / BIGPAGE), va) == Translate(arch, q, va)
  {
    hide Flags, TypeAttributes, BigPage, Distance, Mappable, Bit;
    if q != [] {
      var m := q[|q| - 1];
      Assertions(arch, m);
      DistanceInPage(m, va);
      if Covers(m, va) {
        CoveredDecodes(arch, m, va);
      } else {
        EntryTranslates(arch, q[..|q| - 1], va);
      }
    } else {
      AbsentEntry(arch, va);
    }
  }

  // ---------------------------------------------------------------- the tables

  /** First-level entry `i` leads to second-level table `i`. */
  ghost predicate Rooted(arch: Arch, index: seq<nat>, midBase: nat) {
    |index| == TABLES && forall i :: 0 <= i < TABLES ==> index[i] == MkPgindex(arch, midBase + i * TABLE_BYTES)
  }

  ghost predicate Holds(arch: Arch, mid: seq<nat>, q: seq<Mapping>) {
    |mid| == TABLES * ENTRIES && forall s :: 0 <= s < TABLES * ENTRIES ==> mid[s] == EntryFor(arch, q, s)
  }

  lemma TableAddress(arch: Arch, midBase: nat, i: nat)
    requires Aligned(midBase, 12) && midBase + TABLES * TABLE_BYTES <= WORD && i < TABLES
    ensures var t := midBase + i * TABLE_BYTES;
            TableOf(arch, MkPgindex(arch, t)) == t && WkPgindex(MkPgindex(arch, t)) == t
  {
    hide Pow2, Down, MkPgindex, TableOf, WkPgindex;
    BigPageValue();
    AddressPowers();
    AlignedPage(midBase, i);
    TableDecodes(arch, midBase + i * TABLE_BYTES);
  }

  lemma AlignedPage(midBase: nat, i: nat)
    requires Aligned(midBase, 12)
    ensures Aligned(midBase + i * TABLE_BYTES, 12)
  {
    hide Down, Pow2;
    BigPageValue();
    AlignedMultiple(12, i);
    AlignedSum(midBase, Pow2(12) * i, 12);
  }

  /** The page table refines the queue: for every 32-bit address the walk gives what the last mapping
      that covers it says, and "not present" when none does. */
  lemma WalkRefinesQueue(arch: Arch, index: seq<nat>, mid: seq<nat>, midBase: nat, q: seq<Mapping>, va: nat)
    requires Rooted(arch, index, midBase) && Holds(arch, mid, q)
    requires Aligned(midBase, 12) && midBase + TABLES * TABLE_BYTES <= WORD
    requires va < WORD && forall i :: 0 <= i < |q| ==> Mappable(arch, q[i])
    ensures Walk(arch, index, mid, midBase, va) == Translate(arch, q, va)
  {
    hide EntryFor, Translate, BigPage, TableOf, MkPgindex, WkPgindex, Down, Pow2;
    var i := va / 0x4000_0000 % 4;
    TableAddress(arch, midBase, i);
    SlotNumber(va);
    assert i * TABLE_BYTES / 8 == i * ENTRIES;
    EntryTranslates(arch, q, va);
  }

  class BootPageTable {
    const arch: Arch
    const midBase: nat
    const index: array<nat>
    const mid: array<nat>

    ghost predicate Valid()
      reads this
    {
      && index.Length == TABLES && mid.Length == TABLES * ENTRIES && index != mid
      && Aligned(midBase, 12) && midBase + TABLES * TABLE_BYTES <= WORD
    }

    constructor (arch: Arch, midBase: nat)
      requires Aligned(midBase, 12) && midBase + TABLES * TABLE_BYTES <= WORD
      ensures Valid() && fresh(index) && fresh(mid) && this.arch == arch && this.midBase == midBase
    {
      this.arch, this.midBase := arch, midBase;
      index := new nat[TABLES];
      mid := new nat[TABLES * ENTRIES];
    }

    method PageIndexClear()
      requires Valid()
      modifies index, mid
      ensures Rooted(arch, index[..], midBase) && Holds(arch, mid[..], [])
    {
      for i := 0 to TABLES
        invariant forall j :: 0 <= j < i ==> index[j] == MkPgindex(arch, midBase + j * TABLE_BYTES)
      {
        index[i] := MkPgindex(arch, midBase + i * TABLE_BYTES);
      }
      for i := 0 to mid.Length
        modifies mid
        invariant forall j :: 0 <= j < i ==> mid[j] == 0
      {
        mid[i] := 0;
      }
    }

    /** One entry, found through the first-level table. */
    method MapBigPage(pa: nat, va: nat, kind: nat)
      requires Valid() && Rooted(arch, index[..], midBase)
      modifies mid
      ensures mid[..] == old(mid[..])[va / BIGPAGE % 2048 := MkPgmidBig(arch, pa, kind)]
    {
      hide Pow2, Down, MkPgindex, WkPgindex, MkPgmidBig, PgindexFn, PgmidFn;
      FrameNumbers(va);
      SlotNumber(va);
      TableAddress(arch, midBase, PgindexFn(va));
      var pgmid := WkPgindex(index[PgindexFn(va)]);
      assert (pgmid - midBase) / 8 == PgindexFn(va) * ENTRIES;
      mid[(pgmid - midBase) / 8 + PgmidFn(va)] := MkPgmidBig(arch, pa, kind);
    }

    /** The 2 MB pages of one mapping; a type the format does not know panics before any write. */
    method PageIndexEarlyMap(m: Mapping, ghost q: seq<Mapping>) returns (panicked: bool)
      requires Valid() && Rooted(arch, index[..], midBase) && Holds(arch, mid[..], q)
      requires KnownType(arch, m.kind) ==> Mappable(arch, m)
      modifies mid
      ensures panicked <==> !KnownType(arch, m.kind)
      ensures !panicked ==> Holds(arch, mid[..], q + [m])
    {
      panicked := !KnownType(arch, m.kind);
      if panicked {
        return;
      }
      hide EntryFor, Pow2, Down, BigPageOff, Distance, MkPgindex, MkPgmidBig, Flags, KnownType, Progress, Mappable;
      Assertions(arch, m);
      ghost var was := mid[..];
      NoEntries(arch, was, m);
      var pa, va := m.paddr, m.vaddr;
      while pa < m.paddr + m.size
        invariant m.paddr <= pa <= m.paddr + m.size && va - m.vaddr == pa - m.paddr && (pa - m.paddr) % BIGPAGE == 0
        invariant Progress(arch, mid[..], was, m, pa - m.paddr)
      {
        PagesFit(m, pa);
        NextEntry(arch, mid[..], was, m, pa - m.paddr);
        MapBigPage(pa, va, m.kind);
        pa, va := pa + BIGPAGE, va + BIGPAGE;
      }
      AllEntries(arch, mid[..], was, m, q);
    }

    /** page_index_init: the whole queue, in order. */
    method PageIndexInit(em: EarlyMappings) returns (panicked: bool)
      requires Valid() && em.Valid()
      requires forall m | m in em.Entries() && KnownType(arch, m.kind) :: Mappable(arch, m)
      modifies index, mid
      ensures panicked <==> exists m :: m in em.Entries() && !KnownType(arch, m.kind)
      ensures !panicked ==> forall va: nat :: va < WORD ==>
                Walk(arch, index[..], mid[..], midBase, va) == Translate(arch, em.Entries(), va)
      ensures !panicked ==> forall va: nat, i: nat :: va < WORD && i < |em.Entries()| && Decides(em.Entries(), i, va) ==>
                var m, t := em.Entries()[i], Walk(arch, index[..], mid[..], midBase, va);
                t.Mapped? && t.pa == m.paddr + Distance(m, va) && RightFor(arch, m.kind, t.attributes)
    {
      hide Decides, RightFor, TypeAttributes, Distance;
      hide Walk, Translate, EntryFor, Mappable, KnownType;
      PageIndexClear();
      ghost var q := em.Entries();
      panicked := false;
      var mapping := em.Next(-1);
      while mapping != -1
        invariant mapping == -1 || 0 <= mapping < |q|
        invariant Rooted(arch, index[..], midBase)
        invariant q == em.Entries() && em.Valid()
        invariant var done := if mapping == -1 then |q| else mapping;
                  Holds(arch, mid[..], q[..done]) && forall i :: 0 <= i < done ==> KnownType(arch, q[i].kind)
        decreases if mapping == -1 then 0 else |q| - mapping
      {
        var m := em.queue[mapping];
        assert m == q[mapping] && q[..mapping + 1] == q[..mapping] + [m];
        panicked := PageIndexEarlyMap(m, q[..mapping]);
        if panicked {
          return;
        }
        mapping := em.Next(mapping);
      }
      assert q[..|q|] == q;
      forall va: nat | va < WORD ensures Walk(arch, index[..], mid[..], midBase, va) == Translate(arch, q, va) {
        WalkRefinesQueue(arch, index[..], mid[..], midBase, q, va);
      }
      forall va: nat, i: nat | va < WORD && i < |q| && Decides(q, i, va)
        ensures var t := Walk(arch, index[..], mid[..], midBase, va);
                t.Mapped? && t.pa == q[i].paddr + Distance(q[i], va) && RightFor(arch, q[i].kind, t.attributes)
      {
        LastDecides(arch, q, i, va);
        TypesAreRight(arch, q[i].kind, TypeAttributes(arch, q[i].kind));
      }
    }
  }

  /** The asserts at the start of the mapping loop. */
  lemma Assertions(arch: Arch, m: Mapping)
    requires Mappable(arch, m)
    ensures m.paddr % BIGPAGE == 0 && m.vaddr % BIGPAGE == 0 && m.size % BIGPAGE == 0 && Fits(m)
  {
    hide BigPageOff, Down, Pow2;
    BigPageAligned(m.paddr);
    BigPageAligned(m.vaddr);
    BigPageAligned(m.size);
  }

  /** The entries at distances below `done` are written, the others as they were. */
  ghost predicate Progress(arch: Arch, mid: seq<nat>, was: seq<nat>, m: Mapping, done: nat) {
    && |mid| == |was| == TABLES * ENTRIES
    && forall s :: 0 <= s < TABLES * ENTRIES ==>
         mid[s] == if Distance(m, s * BIGPAGE) < done then m.paddr + Distance(m, s * BIGPAGE) + Flags(arch, m.kind) else was[s]
  }

  lemma NoEntries(arch: Arch, mid: seq<nat>, m: Mapping)
    requires |mid| == TABLES * ENTRIES
    ensures Progress(arch, mid, mid, m, 0)
  {
  }

  lemma PagesFit(m: Mapping, pa: nat)
    requires m.size % BIGPAGE == 0 && m.paddr <= pa < m.paddr + m.size && (pa - m.paddr) % BIGPAGE == 0
    ensures pa + BIGPAGE <= m.paddr + m.size
  {
  }

  lemma NextEntry(arch: Arch, mid: seq<nat>, was: seq<nat>, m: Mapping, done: nat)
    requires Mappable(arch, m) && m.paddr % BIGPAGE == 0 && m.vaddr % BIGPAGE == 0
    requires done % BIGPAGE == 0 && done < m.size && Progress(arch, mid, was, m, done)
    ensures var s := (m.vaddr + done) / BIGPAGE % 2048;
            Progress(arch, mid[s := MkPgmidBig(arch, m.paddr + done, m.kind)], was, m, done + BIGPAGE)
  {
    hide Distance, Pow2, Down, Or, Flags;
    var s := (m.vaddr + done) / BIGPAGE % 2048;
    EntryValue(arch, m.paddr + done, m.kind);
    DistanceOfSlot(m, m.vaddr + done, done);
    forall t: nat | t < 2048
      ensures Distance(m, t * BIGPAGE) < done + BIGPAGE <==> Distance(m, t * BIGPAGE) < done || t == s
    {
      SlotOfDistance(m, m.vaddr + done, done, t);
    }
  }

  lemma EntryValue(arch: Arch, pa: nat, kind: nat)
    requires pa % BIGPAGE == 0 && KnownType(arch, kind)
    ensures MkPgmidBig(arch, pa, kind) == pa + Flags(arch, kind)
  {
    hide Pow2, Down, Or, BigPageOff;
    FlagBits(arch, kind);
    BigPageValue();
    BigPageAligned(pa);
    OrAdds(pa, Flags(arch, kind), 21);
  }

  lemma AllEntries(arch: Arch, mid: seq<nat>, was: seq<nat>, m: Mapping, q: seq<Mapping>)
    requires Progress(arch, mid, was, m, m.size) && Holds(arch, was, q)
    ensures Holds(arch, mid, q + [m])
  {
    hide Distance, Flags;
    assert (q + [m])[..|q|] == q;
  }

  /** Low memory at its own address and again at KERN_BASE, for the kernel to read, write and execute,
      nothing else. */
  function LowMemory(arch: Arch, low: nat, high: nat, va: nat): Translation {
    var a := if arch.I386? then Pae(true, false, false, false, false, 0, 0) else Long(0, false, 0, 3, true, false, 0, 0);
    if va < low then Mapped(va, a)
    else if KERN_BASE <= va < KERN_BASE + high then Mapped(va - KERN_BASE, a)
    else NotPresent
  }

  /** What the two mappings of init_jmphigh_mapping say. */
  lemma KernelView(arch: Arch, low: nat, high: nat, va: nat)
    requires low <= KERN_BASE && high <= WORD - KERN_BASE && va < WORD
    ensures Translate(arch, [Mapping(0, 0, low, MEMORY), Mapping(0, KERN_BASE, high, MEMORY)], va) == LowMemory(arch, low, high, va)
  {
    hide Distance, Translate;
    var a, b := Mapping(0, 0, low, MEMORY), Mapping(0, KERN_BASE, high, MEMORY);
    DistanceIs(a, va);
    DistanceIs(b, va);
    TranslateLast(arch, [], a, va);
    TranslateLast(arch, [a], b, va);
    assert [] + [a] == [a] && [a] + [b] == [a, b];
    TranslateNothing(arch, va);
  }

  lemma TranslateLast(arch: Arch, q: seq<Mapping>, m: Mapping, va: nat)
    ensures Translate(arch, q + [m], va) ==
            if Covers(m, va) then Mapped(m.paddr + Distance(m, va), TypeAttributes(arch, m.kind)) else Translate(arch, q, va)
  {
    assert (q + [m])[..|q|] == q;
  }

  lemma TranslateNothing(arch: Arch, va: nat)
    ensures Translate(arch, [], va) == NotPresent
  {
  }

  /** KTOP - KOFFSET, the size of the kernel's window on i386. */
  const KSIZE := 0x7E00_0000

  /** early_mm_init on i386, from the queue just cleared: whatever the tables held before, the processor
      then sees low memory at its own address and again at KERN_BASE, and nothing else. */
  method EarlyMmInit(em: EarlyMappings, pt: BootPageTable) returns (panicked: bool)
    requires em.Valid() && em.Entries() == [] && pt.Valid() && pt.arch == I386
    modifies em, em.queue, pt.index, pt.mid
    ensures !panicked && em.Valid()
    ensures forall va: nat :: va < WORD ==> Walk(I386, pt.index[..], pt.mid[..], pt.midBase, va) == LowMemory(I386, KSIZE, KSIZE, va)
  {
    hide Walk, Translate, Mappable, JumpSize, LowMemory;
    WindowSize();
    panicked := InitJmphighMapping(em, KSIZE, KSIZE);
    ghost var q := [Mapping(0, 0, KSIZE, MEMORY), Mapping(0, KERN_BASE, KSIZE, MEMORY)];
    assert em.Entries() == q;
    WindowMappable();
    panicked := pt.PageIndexInit(em);
    assert em.Entries() == q;
    forall va: nat | va < WORD
      ensures Walk(I386, pt.index[..], pt.mid[..], pt.midBase, va) == LowMemory(I386, KSIZE, KSIZE, va)
    {
      assert Walk(I386, pt.index[..], pt.mid[..], pt.midBase, va) == Translate(I386, q, va);
      KernelView(I386, KSIZE, KSIZE, va);
    }
  }

  lemma WindowSize()
    ensures JumpSize(KSIZE) == KSIZE
  {
  }

  lemma WindowMappable()
    ensures Mappable(I386, Mapping(0, 0, KSIZE, MEMORY)) && Mappable(I386, Mapping(0, KERN_BASE, KSIZE, MEMORY))
  {
    hide BigPageOff, Pow2;
    BigPageAligned(0);
    BigPageAligned(KERN_BASE);
    BigPageAligned(KSIZE);
    AddressPowers();
  }
}
