/** Loading the kernel image: the sector loop of boot/arch/i386/kernreader.c and the program-header
    loop of boot/bootmain.c. The disk is a sequence of bytes; reading past it panics. */
module BootLoader {

  type Byte = bv8

  const SECTSIZE := 512
  const WORD := 0x1_0000_0000

  /** The fields of `elf_phdr` that the loop looks at. */
  datatype Phdr = Phdr(offset: nat, vaddr: nat, paddr: nat, filesz: nat, memsz: nat)

  /** `old` with `data` written at `at`. */
  function Written(old_: seq<Byte>, at: nat, data: seq<Byte>): seq<Byte>
    requires at + |data| <= |old_|
  {
    old_[..at] + data + old_[at + |data|..]
  }

  method MemCopy(mem: array<Byte>, at: nat, data: seq<Byte>)
    requires at + |data| <= mem.Length
    modifies mem
    ensures mem[..] == Written(old(mem[..]), at, data)
  {
    for i := 0 to |data|
      invariant mem[..] == Written(old(mem[..]), at, data[..i])
    {
      assert data[..i + 1] == data[..i] + [data[i]];
      mem[at + i] := data[i];
    }
    assert data[..|data|] == data;
  }

  function Zeros(n: nat): (z: seq<Byte>)
    ensures |z| == n
  {
    seq(n, _ => 0)
  }

  /** The end of the last sector that a read of `size` bytes at byte `start` of the disk touches; a read
      of no bytes inside a sector still reads that sector. */
  function SectorsEnd(start: nat, size: nat): nat {
    if start % SECTSIZE + size == 0 then 0 else (start + size + SECTSIZE - 1) / SECTSIZE * SECTSIZE
  }

  class KernReader {
    const disk: seq<Byte>
    const kdiskoffset: nat

    constructor (disk: seq<Byte>, kdiskoffset: nat)
      ensures this.disk == disk && this.kdiskoffset == kdiskoffset
    {
      this.disk, this.kdiskoffset := disk, kdiskoffset;
    }

    /** One sector, or a panic. */
    method ReadSect(sect: nat) returns (ok: bool, data: seq<Byte>)
      ensures ok <==> (sect + 1) * SECTSIZE <= |disk|
      ensures ok ==> data == disk[sect * SECTSIZE..(sect + 1) * SECTSIZE]
    {
      ok := (sect + 1) * SECTSIZE <= |disk|;
      data := if ok then disk[sect * SECTSIZE..(sect + 1) * SECTSIZE] else [];
    }

    /** Where on the disk byte `offset` of the image is, in 32 bits. */
    function DiskStart(offset: nat): nat { (offset + kdiskoffset) % WORD }

    /** kernreader_readfile is a plain copy of a byte range of the disk, for every offset and every size
        that a memory of less than 2^32 bytes has room for; it panics exactly when a sector it touches is
        not there. */
    method ReadFile(mem: array<Byte>, buf: nat, size: nat, offset: nat) returns (ok: bool)
      requires buf + size <= mem.Length && size + SECTSIZE <= WORD
      modifies mem
      ensures ok <==> SectorsEnd(DiskStart(offset), size) <= |disk|
      ensures ok ==> DiskStart(offset) + size <= |disk| || size == 0
      ensures ok ==> mem[..] == if size == 0 then old(mem[..])
                                else Written(old(mem[..]), buf, disk[DiskStart(offset)..DiskStart(offset) + size])
    {
      hide Written, SectorsEnd;
      var at := DiskStart(offset);
      ghost var start, n := at, 0;
      var skip: nat := at % SECTSIZE;
      var sector: nat := at / SECTSIZE;
      var left: nat := size + skip;
      var cur := buf;
      ghost var total := left;
      WrittenNothing(mem[..], buf);
      assert Part(start, 0) == [];
      while left != 0
        invariant n >= 0 && sector == start / SECTSIZE + n && SECTSIZE * n < total + SECTSIZE
        invariant left == if total > SECTSIZE * n then total - SECTSIZE * n else 0
        invariant if n == 0 then skip == start % SECTSIZE && cur == buf
                  else skip == 0 && cur - buf == (if total > SECTSIZE * n then SECTSIZE * n else total) - start % SECTSIZE
        invariant n > 0 ==> sector * SECTSIZE <= |disk|
        invariant mem[..] == Written(old(mem[..]), buf, Part(start, cur - buf))
        decreases left
      {
        var curSize: nat := if left < SECTSIZE then left else SECTSIZE;
        var ok', sectbuf := ReadSect(sector);
        if !ok' {
          SectorMissing(start, size, n);
          return false;
        }
        WriteMore(old(mem[..]), buf, Part(start, cur - buf), sectbuf[skip..curSize]);
        PartMore(start, cur - buf, sector, skip, curSize, sectbuf);
        MemCopy(mem, cur, sectbuf[skip..curSize]);
        left := left - curSize;
        cur := cur + (curSize - skip);
        skip := 0;
        sector := sector + 1;
        n := n + 1;
      }
      ok := true;
      AllSectorsRead(start, size, n);
    }

    lemma PartMore(start: nat, k: nat, sector: nat, skip: nat, curSize: nat, sectbuf: seq<Byte>)
      requires sector * SECTSIZE + skip == start + k && skip <= curSize <= SECTSIZE && (sector + 1) * SECTSIZE <= |disk|
      requires sectbuf == disk[sector * SECTSIZE..(sector + 1) * SECTSIZE]
      ensures Part(start, k) + sectbuf[skip..curSize] == Part(start, k + (curSize - skip))
    {
      var at := sector * SECTSIZE;
      SliceOfSlice(disk, at, at + SECTSIZE, skip, curSize);
      assert sectbuf == disk[at..at + SECTSIZE];
      SlicesMeet(disk, start, start + k, start + k + (curSize - skip));
    }

    ghost function Part(start: nat, n: nat): seq<Byte> {
      if start + n <= |disk| then disk[start..start + n] else []
    }
  }

  lemma SliceOfSlice(s: seq<Byte>, i: nat, j: nat, a: nat, b: nat)
    requires a <= b && i <= j <= |s| && i + b <= j
    ensures s[i..j][a..b] == s[i + a..i + b]
  {
    var l, r := s[i..j][a..b], s[i + a..i + b];
    assert |l| == |r| && forall k :: 0 <= k < |l| ==> l[k] == s[i + a + k] == r[k];
  }

  lemma SlicesMeet(s: seq<Byte>, i: nat, j: nat, k: nat)
    requires i <= j <= k <= |s|
    ensures s[i..j] + s[j..k] == s[i..k]
  {
  }

  lemma SectorMissing(start: nat, size: nat, n: nat)
    requires start % SECTSIZE + size > SECTSIZE * n
    ensures SectorsEnd(start, size) >= (start / SECTSIZE + n + 1) * SECTSIZE
  {
    var q, r := start / SECTSIZE, start % SECTSIZE;
    assert start + size + SECTSIZE - 1 >= SECTSIZE * (q + n + 1);
  }

  /** The loop stops after as many sectors as the range needs. */
  lemma AllSectorsRead(start: nat, size: nat, n: nat)
    requires start % SECTSIZE + size <= SECTSIZE * n < start % SECTSIZE + size + SECTSIZE
    ensures SectorsEnd(start, size) == if n == 0 then 0 else (start / SECTSIZE + n) * SECTSIZE
    ensures start + size <= (start / SECTSIZE + n) * SECTSIZE
  {
    var q, r := start / SECTSIZE, start % SECTSIZE;
    assert start == SECTSIZE * q + r;
    var x := start + size + SECTSIZE - 1;
    assert SECTSIZE * (q + n) <= x < SECTSIZE * (q + n + 1);
  }

  lemma WrittenNothing(m: seq<Byte>, at: nat)
    requires at <= |m|
    ensures Written(m, at, []) == m
  {
  }

  lemma WriteMore(m: seq<Byte>, at: nat, a: seq<Byte>, b: seq<Byte>)
    requires at + |a| + |b| <= |m|
    ensures |Written(m, at, a)| == |m| && Written(Written(m, at, a), at + |a|, b) == Written(m, at, a + b)
  {
  }

  // ---------------------------------------------------------------- the program headers

  /** The end of the last sector touched, without the rounding: the least multiple of the sector size at or
      above the end of the range. */
  lemma SectorsEndExact(start: nat, size: nat)
    ensures size > 0 ==> SectorsEnd(start, size) % SECTSIZE == 0 && start + size <= SectorsEnd(start, size) < start + size + SECTSIZE
    ensures size == 0 ==> SectorsEnd(start, size) == if start % SECTSIZE == 0 then 0 else start - start % SECTSIZE + SECTSIZE
  {
  }

  /** The bytes of memory a segment has. */
  predicate Target(ph: Phdr, x: nat) {
    ph.paddr <= x < ph.paddr + ph.filesz || ph.paddr <= x < ph.paddr + ph.memsz
  }

  /** Where the file bytes of a segment start on the disk. */
  function SegmentStart(kd: nat, ph: Phdr): nat { (ph.offset + kd) % WORD }

  /** What loading one segment makes of byte `x`, which was `was`: a file byte up to the file size, zero
      from there up to the memory size. */
  function SegmentByte(disk: seq<Byte>, kd: nat, ph: Phdr, was: Byte, x: nat): Byte {
    var start := SegmentStart(kd, ph);
    if ph.paddr <= x < ph.paddr + ph.filesz && start + (x - ph.paddr) < |disk| then disk[start + (x - ph.paddr)]
    else if Target(ph, x) then 0
    else was
  }

  /** What the loop leaves in byte `x`: the last segment that has it decides. */
  function Loaded(disk: seq<Byte>, kd: nat, phs: seq<Phdr>, old_: seq<Byte>, x: nat): Byte
    requires x < |old_|
  {
    if phs == [] then old_[x]
    else SegmentByte(disk, kd, phs[|phs| - 1], Loaded(disk, kd, phs[..|phs| - 1], old_, x), x)
  }

  /** The headers a loader can be given: segments inside memory. */
  predicate Loadable(memLen: nat, phs: seq<Phdr>) {
    forall i :: 0 <= i < |phs| ==>
      && phs[i].paddr + phs[i].filesz <= memLen && phs[i].paddr + phs[i].memsz <= memLen
      && phs[i].filesz + SECTSIZE <= WORD
  }

  /** The entry point after the headers: moved to the physical address of every segment, in turn, whose
      virtual range has it. */
  function AdjustedEntry(phs: seq<Phdr>, entry: int): int {
    if phs == [] then entry
    else AdjustOnce(phs[|phs| - 1], AdjustedEntry(phs[..|phs| - 1], entry))
  }

  /** The tests and sums are on 32-bit pointers. */
  predicate InSegment(ph: Phdr, e: int) { ph.vaddr <= e < (ph.vaddr + ph.memsz) % WORD }

  function AdjustOnce(ph: Phdr, e: int): int {
    if InSegment(ph, e) then (e - ph.vaddr + ph.paddr) % WORD else e
  }

  /** The loop of bootmain over the program headers. */
  method LoadSegments(r: KernReader, mem: array<Byte>, phs: seq<Phdr>, entry0: int) returns (ok: bool, entry: int)
    requires Loadable(mem.Length, phs)
    modifies mem
    ensures ok <==> forall i :: 0 <= i < |phs| ==> SectorsEnd(SegmentStart(r.kdiskoffset, phs[i]), phs[i].filesz) <= |r.disk|
    ensures ok ==> forall x: nat :: x < mem.Length ==> mem[x] == Loaded(r.disk, r.kdiskoffset, phs, old(mem[..]), x)
    ensures ok ==> entry == AdjustedEntry(phs, entry0)
  {
    hide SectorsEnd, SegmentByte, AdjustOnce;
    entry := entry0;
    assert phs[..0] == [];
    for i := 0 to |phs|
      invariant forall j :: 0 <= j < i ==> SectorsEnd(SegmentStart(r.kdiskoffset, phs[j]), phs[j].filesz) <= |r.disk|
      invariant forall x: nat :: x < mem.Length ==> mem[x] == Loaded(r.disk, r.kdiskoffset, phs[..i], old(mem[..]), x)
      invariant entry == AdjustedEntry(phs[..i], entry0)
    {
      hide Loaded, AdjustedEntry;
      ghost var m := mem[..];
      assert phs[..i + 1][..i] == phs[..i];
      ok, entry := LoadSegment(r, mem, phs[i], entry);
      if !ok {
        return;
      }
      forall x: nat | x < mem.Length
        ensures mem[x] == Loaded(r.disk, r.kdiskoffset, phs[..i + 1], old(mem[..]), x)
      {
        LoadedStep(r.disk, r.kdiskoffset, phs[..i + 1], old(mem[..]), x);
        assert m[x] == Loaded(r.disk, r.kdiskoffset, phs[..i], old(mem[..]), x);
      }
      AdjustedStep(phs[..i + 1], entry0);
    }
    ok := true;
    assert phs[..|phs|] == phs;
  }

  /** One round of the loop: the segment and its effect on the entry point. */
  method LoadSegment(r: KernReader, mem: array<Byte>, ph: Phdr, entry0: int) returns (ok: bool, entry: int)
    requires Loadable(mem.Length, [ph])
    modifies mem
    ensures ok <==> SectorsEnd(SegmentStart(r.kdiskoffset, ph), ph.filesz) <= |r.disk|
    ensures ok ==> forall x: nat :: x < mem.Length ==> mem[x] == SegmentByte(r.disk, r.kdiskoffset, ph, old(mem[x]), x)
    ensures ok ==> entry == AdjustOnce(ph, entry0)
    ensures ok ==> entry == if ph.vaddr <= entry0 && entry0 < (ph.vaddr + ph.memsz) % WORD
                            then (entry0 - ph.vaddr + ph.paddr) % WORD else entry0
  {
    hide SegmentByte, SectorsEnd, Written, Zeros;
    assert [ph][0] == ph;
    entry := entry0;
    ghost var m := mem[..];
    ok := r.ReadFile(mem, ph.paddr, ph.filesz, ph.offset);
    if !ok {
      return;
    }
    ghost var m1 := mem[..];
    if ph.memsz > ph.filesz {
      MemCopy(mem, ph.paddr + ph.filesz, Zeros(ph.memsz - ph.filesz));
    }
    ghost var m2 := mem[..];
    forall x: nat | x < mem.Length
      ensures mem[x] == SegmentByte(r.disk, r.kdiskoffset, ph, old(mem[x]), x)
    {
      SegmentWritten(r.disk, r.kdiskoffset, ph, m, m1, m2, x);
      assert m[x] == old(mem[x]) && m2[x] == mem[x];
    }
    if InSegment(ph, entry) {
      entry := (entry - ph.vaddr + ph.paddr) % WORD;
    }
  }

  lemma LoadedStep(disk: seq<Byte>, kd: nat, phs: seq<Phdr>, old_: seq<Byte>, x: nat)
    requires phs != [] && x < |old_|
    ensures Loaded(disk, kd, phs, old_, x)
         == SegmentByte(disk, kd, phs[|phs| - 1], Loaded(disk, kd, phs[..|phs| - 1], old_, x), x)
  {
  }

  lemma AdjustedStep(phs: seq<Phdr>, entry: int)
    requires phs != []
    ensures AdjustedEntry(phs, entry) == AdjustOnce(phs[|phs| - 1], AdjustedEntry(phs[..|phs| - 1], entry))
  {
  }

  lemma SegmentWritten(disk: seq<Byte>, kd: nat, ph: Phdr, m: seq<Byte>, m1: seq<Byte>, m2: seq<Byte>, x: nat)
    requires x < |m| == |m1| == |m2|
    requires ph.paddr + ph.filesz <= |m| && ph.paddr + ph.memsz <= |m|
    requires ph.filesz > 0 ==> SegmentStart(kd, ph) + ph.filesz <= |disk|
    requires m1 == if ph.filesz == 0 then m
                   else Written(m, ph.paddr, disk[SegmentStart(kd, ph)..SegmentStart(kd, ph) + ph.filesz])
    requires m2 == if ph.memsz > ph.filesz then Written(m1, ph.paddr + ph.filesz, Zeros(ph.memsz - ph.filesz)) else m1
    ensures m2[x] == SegmentByte(disk, kd, ph, m[x], x)
  {
    hide Written;
    if ph.filesz > 0 { WrittenByte(m, ph.paddr, disk[SegmentStart(kd, ph)..SegmentStart(kd, ph) + ph.filesz], x); }
    if ph.memsz > ph.filesz { WrittenByte(m1, ph.paddr + ph.filesz, Zeros(ph.memsz - ph.filesz), x); }
  }

  lemma WrittenByte(m: seq<Byte>, at: nat, data: seq<Byte>, x: nat)
    requires at + |data| <= |m| && x < |m|
    ensures x < |Written(m, at, data)| && Written(m, at, data)[x] == if at <= x < at + |data| then data[x - at] else m[x]
  {
  }

  lemma SectorsCover(start: nat, size: nat)
    requires size > 0
    ensures start + size <= SectorsEnd(start, size)
  {
  }

  /** With disjoint targets every segment is in memory as the file has it: its file bytes, then zeros up
      to its memory size; and nothing outside the targets is written. */
  lemma {:induction false} SegmentsIntact(disk: seq<Byte>, kd: nat, phs: seq<Phdr>, old_: seq<Byte>, k: nat, x: nat)
    requires k < |phs| && x < |old_| && Target(phs[k], x)
    requires forall i, j :: 0 <= i < j < |phs| ==> !(Target(phs[i], x) && Target(phs[j], x))
    requires forall i :: 0 <= i < |phs| ==> SectorsEnd(SegmentStart(kd, phs[i]), phs[i].filesz) <= |disk|
    ensures x < phs[k].paddr + phs[k].filesz ==> (phs[k].offset + kd) % WORD + phs[k].filesz <= |disk|
    ensures Loaded(disk, kd, phs, old_, x) ==
            if x < phs[k].paddr + phs[k].filesz then disk[(phs[k].offset + kd) % WORD + (x - phs[k].paddr)] else 0
  {
    hide SectorsEnd;
    if phs[k].filesz > 0 { SectorsCover(SegmentStart(kd, phs[k]), phs[k].filesz); }
    if k < |phs| - 1 {
      assert !Target(phs[|phs| - 1], x);
      SegmentsIntact(disk, kd, phs[..|phs| - 1], old_, k, x);
    }
  }

  lemma {:induction false} NothingElseWritten(disk: seq<Byte>, kd: nat, phs: seq<Phdr>, old_: seq<Byte>, x: nat)
    requires x < |old_| && forall i :: 0 <= i < |phs| ==> !Target(phs[i], x)
    ensures Loaded(disk, kd, phs, old_, x) == old_[x]
  {
    if phs != [] { NothingElseWritten(disk, kd, phs[..|phs| - 1], old_, x); }
  }

  // ---------------------------------------------------------------- the entry point

  /** How often the entry point is moved. */
  function Moves(phs: seq<Phdr>, entry: int): nat {
    if phs == [] then 0
    else Moves(phs[..|phs| - 1], entry) + if InSegment(phs[|phs| - 1], AdjustedEntry(phs[..|phs| - 1], entry)) then 1 else 0
  }

  lemma {:induction false} FirstMove(phs: seq<Phdr>, entry: int, k: nat)
    requires k < |phs| && InSegment(phs[k], entry) && forall i :: 0 <= i < k ==> !InSegment(phs[i], entry)
    ensures var e := AdjustOnce(phs[k], entry);
            && Moves(phs, entry) >= 1
            && (Moves(phs, entry) == 1 <==> forall i :: k < i < |phs| ==> !InSegment(phs[i], e))
            && (Moves(phs, entry) == 1 ==> AdjustedEntry(phs, entry) == e)
  {
    hide InSegment, AdjustOnce;
    var front := phs[..|phs| - 1];
    AdjustedStep(phs, entry);
    AdjustIfInside(phs[|phs| - 1], AdjustedEntry(front, entry));
    if k == |phs| - 1 {
      NoMove(front, entry);
    } else {
      FirstMove(front, entry, k);
      assert forall i :: 0 <= i < |front| ==> phs[i] == front[i];
    }
  }

  lemma AdjustIfInside(ph: Phdr, e: int)
    ensures !InSegment(ph, e) ==> AdjustOnce(ph, e) == e
  {
  }

  lemma {:induction false} NoMove(phs: seq<Phdr>, entry: int)
    ensures Moves(phs, entry) == 0 <==> forall i :: 0 <= i < |phs| ==> !InSegment(phs[i], entry)
    ensures Moves(phs, entry) == 0 ==> AdjustedEntry(phs, entry) == entry
  {
    hide InSegment, AdjustOnce;
    if phs != [] {
      var front := phs[..|phs| - 1];
      NoMove(front, entry);
      AdjustedStep(phs, entry);
      AdjustIfInside(phs[|phs| - 1], entry);
      assert forall i :: 0 <= i < |front| ==> phs[i] == front[i];
    }
  }

  /** Segment `k` is the first with the entry point. The entry point is moved once, to the physical
      address of its byte, exactly when no later segment has that address in its virtual range. */
  lemma MovedOnce(phs: seq<Phdr>, entry: int, k: nat)
    requires k < |phs| && phs[k].vaddr <= entry < (phs[k].vaddr + phs[k].memsz) % WORD
    requires forall i :: 0 <= i < k ==> !(phs[i].vaddr <= entry < (phs[i].vaddr + phs[i].memsz) % WORD)
    ensures var e := (entry - phs[k].vaddr + phs[k].paddr) % WORD;
            && Moves(phs, entry) >= 1
            && (Moves(phs, entry) == 1 <==> forall i :: k < i < |phs| ==> !(phs[i].vaddr <= e < (phs[i].vaddr + phs[i].memsz) % WORD))
            && (Moves(phs, entry) == 1 ==> AdjustedEntry(phs, entry) == e)
  {
    hide Moves, AdjustedEntry;
    FirstMove(phs, entry, k);
  }

  /** Without such a segment it stays where it is. */
  lemma NotMoved(phs: seq<Phdr>, entry: int)
    ensures Moves(phs, entry) == 0 <==> forall i :: 0 <= i < |phs| ==> !(phs[i].vaddr <= entry < (phs[i].vaddr + phs[i].memsz) % WORD)
    ensures Moves(phs, entry) == 0 ==> AdjustedEntry(phs, entry) == entry
  {
    hide Moves, AdjustedEntry;
    NoMove(phs, entry);
  }

  /** Two segments, the second at the virtual address where the first is loaded: the entry point of the
      first is moved into the second. */
  lemma MovedTwice()
    ensures var phs := [Phdr(0, 0x8000_0000, 0x10_0000, 16, 16), Phdr(16, 0x10_0000, 0x50_0000, 16, 16)];
            Moves(phs, 0x8000_0000) == 2 && AdjustedEntry(phs, 0x8000_0000) == 0x50_0000
  {
    var phs := [Phdr(0, 0x8000_0000, 0x10_0000, 16, 16), Phdr(16, 0x10_0000, 0x50_0000, 16, 16)];
    assert phs[..1] == [phs[0]] && phs[..1][..0] == [];
    assert AdjustedEntry([phs[0]], 0x8000_0000) == 0x10_0000;
  }
}
