/** CRC-32 with a table of 256 entries, as in boot/crc32.c, against division bit by bit. */
module Crc32 {

  /** X^32 + X^26 + ... + 1 with the highest-order term in the lowest bit. */
  const POLY: bv32 := 0xEDB88320

  // ---------------------------------------------------------------- the table, sixteen entries a row

  function Row0(j: bv8): bv32 {
    if j == 0 then 0x00000000 else if j == 1 then 0x77073096 else if j == 2 then 0xee0e612c else if j == 3 then 0x990951ba
    else if j == 4 then 0x076dc419 else if j == 5 then 0x706af48f else if j == 6 then 0xe963a535 else if j == 7 then 0x9e6495a3
    else if j == 8 then 0x0edb8832 else if j == 9 then 0x79dcb8a4 else if j == 10 then 0xe0d5e91e else if j == 11 then 0x97d2d988
    else if j == 12 then 0x09b64c2b else if j == 13 then 0x7eb17cbd else if j == 14 then 0xe7b82d07 else 0x90bf1d91
  }

  function Row1(j: bv8): bv32 {
    if j == 0 then 0x1db71064 else if j == 1 then 0x6ab020f2 else if j == 2 then 0xf3b97148 else if j == 3 then 0x84be41de
    else if j == 4 then 0x1adad47d else if j == 5 then 0x6ddde4eb else if j == 6 then 0xf4d4b551 else if j == 7 then 0x83d385c7
    else if j == 8 then 0x136c9856 else if j == 9 then 0x646ba8c0 else if j == 10 then 0xfd62f97a else if j == 11 then 0x8a65c9ec
    else if j == 12 then 0x14015c4f else if j == 13 then 0x63066cd9 else if j == 14 then 0xfa0f3d63 else 0x8d080df5
  }

  function Row2(j: bv8): bv32 {
    if j == 0 then 0x3b6e20c8 else if j == 1 then 0x4c69105e else if j == 2 then 0xd56041e4 else if j == 3 then 0xa2677172
    else if j == 4 then 0x3c03e4d1 else if j == 5 then 0x4b04d447 else if j == 6 then 0xd20d85fd else if j == 7 then 0xa50ab56b
    else if j == 8 then 0x35b5a8fa else if j == 9 then 0x42b2986c else if j == 10 then 0xdbbbc9d6 else if j == 11 then 0xacbcf940
    else if j == 12 then 0x32d86ce3 else if j == 13 then 0x45df5c75 else if j == 14 then 0xdcd60dcf else 0xabd13d59
  }

  function Row3(j: bv8): bv32 {
    if j == 0 then 0x26d930ac else if j == 1 then 0x51de003a else if j == 2 then 0xc8d75180 else if j == 3 then 0xbfd06116
    else if j == 4 then 0x21b4f4b5 else if j == 5 then 0x56b3c423 else if j == 6 then 0xcfba9599 else if j == 7 then 0xb8bda50f
    else if j == 8 then 0x2802b89e else if j == 9 then 0x5f058808 else if j == 10 then 0xc60cd9b2 else if j == 11 then 0xb10be924
    else if j == 12 then 0x2f6f7c87 else if j == 13 then 0x58684c11 else if j == 14 then 0xc1611dab else 0xb6662d3d
  }

  function Row4(j: bv8): bv32 {
    if j == 0 then 0x76dc4190 else if j == 1 then 0x01db7106 else if j == 2 then 0x98d220bc else if j == 3 then 0xefd5102a
    else if j == 4 then 0x71b18589 else if j == 5 then 0x06b6b51f else if j == 6 then 0x9fbfe4a5 else if j == 7 then 0xe8b8d433
    else if j == 8 then 0x7807c9a2 else if j == 9 then 0x0f00f934 else if j == 10 then 0x9609a88e else if j == 11 then 0xe10e9818
    else if j == 12 then 0x7f6a0dbb else if j == 13 then 0x086d3d2d else if j == 14 then 0x91646c97 else 0xe6635c01
  }

  function Row5(j: bv8): bv32 {
    if j == 0 then 0x6b6b51f4 else if j == 1 then 0x1c6c6162 else if j == 2 then 0x856530d8 else if j == 3 then 0xf262004e
    else if j == 4 then 0x6c0695ed else if j == 5 then 0x1b01a57b else if j == 6 then 0x8208f4c1 else if j == 7 then 0xf50fc457
    else if j == 8 then 0x65b0d9c6 else if j == 9 then 0x12b7e950 else if j == 10 then 0x8bbeb8ea else if j == 11 then 0xfcb9887c
    else if j == 12 then 0x62dd1ddf else if j == 13 then 0x15da2d49 else if j == 14 then 0x8cd37cf3 else 0xfbd44c65
  }

  function Row6(j: bv8): bv32 {
    if j == 0 then 0x4db26158 else if j == 1 then 0x3ab551ce else if j == 2 then 0xa3bc0074 else if j == 3 then 0xd4bb30e2
    else if j == 4 then 0x4adfa541 else if j == 5 then 0x3dd895d7 else if j == 6 then 0xa4d1c46d else if j == 7 then 0xd3d6f4fb
    else if j == 8 then 0x4369e96a else if j == 9 then 0x346ed9fc else if j == 10 then 0xad678846 else if j == 11 then 0xda60b8d0
    else if j == 12 then 0x44042d73 else if j == 13 then 0x33031de5 else if j == 14 then 0xaa0a4c5f else 0xdd0d7cc9
  }

  function Row7(j: bv8): bv32 {
    if j == 0 then 0x5005713c else if j == 1 then 0x270241aa else if j == 2 then 0xbe0b1010 else if j == 3 then 0xc90c2086
    else if j == 4 then 0x5768b525 else if j == 5 then 0x206f85b3 else if j == 6 then 0xb966d409 else if j == 7 then 0xce61e49f
    else if j == 8 then 0x5edef90e else if j == 9 then 0x29d9c998 else if j == 10 then 0xb0d09822 else if j == 11 then 0xc7d7a8b4
    else if j == 12 then 0x59b33d17 else if j == 13 then 0x2eb40d81 else if j == 14 then 0xb7bd5c3b else 0xc0ba6cad
  }

  function Row8(j: bv8): bv32 {
    if j == 0 then 0xedb88320 else if j == 1 then 0x9abfb3b6 else if j == 2 then 0x03b6e20c else if j == 3 then 0x74b1d29a
    else if j == 4 then 0xead54739 else if j == 5 then 0x9dd277af else if j == 6 then 0x04db2615 else if j == 7 then 0x73dc1683
    else if j == 8 then 0xe3630b12 else if j == 9 then 0x94643b84 else if j == 10 then 0x0d6d6a3e else if j == 11 then 0x7a6a5aa8
    else if j == 12 then 0xe40ecf0b else if j == 13 then 0x9309ff9d else if j == 14 then 0x0a00ae27 else 0x7d079eb1
  }

  function Row9(j: bv8): bv32 {
    if j == 0 then 0xf00f9344 else if j == 1 then 0x8708a3d2 else if j == 2 then 0x1e01f268 else if j == 3 then 0x6906c2fe
    else if j == 4 then 0xf762575d else if j == 5 then 0x806567cb else if j == 6 then 0x196c3671 else if j == 7 then 0x6e6b06e7
    else if j == 8 then 0xfed41b76 else if j == 9 then 0x89d32be0 else if j == 10 then 0x10da7a5a else if j == 11 then 0x67dd4acc
    else if j == 12 then 0xf9b9df6f else if j == 13 then 0x8ebeeff9 else if j == 14 then 0x17b7be43 else 0x60b08ed5
  }

  function RowA(j: bv8): bv32 {
    if j == 0 then 0xd6d6a3e8 else if j == 1 then 0xa1d1937e else if j == 2 then 0x38d8c2c4 else if j == 3 then 0x4fdff252
    else if j == 4 then 0xd1bb67f1 else if j == 5 then 0xa6bc5767 else if j == 6 then 0x3fb506dd else if j == 7 then 0x48b2364b
    else if j == 8 then 0xd80d2bda else if j == 9 then 0xaf0a1b4c else if j == 10 then 0x36034af6 else if j == 11 then 0x41047a60
    else if j == 12 then 0xdf60efc3 else if j == 13 then 0xa867df55 else if j == 14 then 0x316e8eef else 0x4669be79
  }

  function RowB(j: bv8): bv32 {
    if j == 0 then 0xcb61b38c else if j == 1 then 0xbc66831a else if j == 2 then 0x256fd2a0 else if j == 3 then 0x5268e236
    else if j == 4 then 0xcc0c7795 else if j == 5 then 0xbb0b4703 else if j == 6 then 0x220216b9 else if j == 7 then 0x5505262f
    else if j == 8 then 0xc5ba3bbe else if j == 9 then 0xb2bd0b28 else if j == 10 then 0x2bb45a92 else if j == 11 then 0x5cb36a04
    else if j == 12 then 0xc2d7ffa7 else if j == 13 then 0xb5d0cf31 else if j == 14 then 0x2cd99e8b else 0x5bdeae1d
  }

  function RowC(j: bv8): bv32 {
    if j == 0 then 0x9b64c2b0 else if j == 1 then 0xec63f226 else if j == 2 then 0x756aa39c else if j == 3 then 0x026d930a
    else if j == 4 then 0x9c0906a9 else if j == 5 then 0xeb0e363f else if j == 6 then 0x72076785 else if j == 7 then 0x05005713
    else if j == 8 then 0x95bf4a82 else if j == 9 then 0xe2b87a14 else if j == 10 then 0x7bb12bae else if j == 11 then 0x0cb61b38
    else if j == 12 then 0x92d28e9b else if j == 13 then 0xe5d5be0d else if j == 14 then 0x7cdcefb7 else 0x0bdbdf21
  }

  function RowD(j: bv8): bv32 {
    if j == 0 then 0x86d3d2d4 else if j == 1 then 0xf1d4e242 else if j == 2 then 0x68ddb3f8 else if j == 3 then 0x1fda836e
    else if j == 4 then 0x81be16cd else if j == 5 then 0xf6b9265b else if j == 6 then 0x6fb077e1 else if j == 7 then 0x18b74777
    else if j == 8 then 0x88085ae6 else if j == 9 then 0xff0f6a70 else if j == 10 then 0x66063bca else if j == 11 then 0x11010b5c
    else if j == 12 then 0x8f659eff else if j == 13 then 0xf862ae69 else if j == 14 then 0x616bffd3 else 0x166ccf45
  }

  function RowE(j: bv8): bv32 {
    if j == 0 then 0xa00ae278 else if j == 1 then 0xd70dd2ee else if j == 2 then 0x4e048354 else if j == 3 then 0x3903b3c2
    else if j == 4 then 0xa7672661 else if j == 5 then 0xd06016f7 else if j == 6 then 0x4969474d else if j == 7 then 0x3e6e77db
    else if j == 8 then 0xaed16a4a else if j == 9 then 0xd9d65adc else if j == 10 then 0x40df0b66 else if j == 11 then 0x37d83bf0
    else if j == 12 then 0xa9bcae53 else if j == 13 then 0xdebb9ec5 else if j == 14 then 0x47b2cf7f else 0x30b5ffe9
  }

  function RowF(j: bv8): bv32 {
    if j == 0 then 0xbdbdf21c else if j == 1 then 0xcabac28a else if j == 2 then 0x53b39330 else if j == 3 then 0x24b4a3a6
    else if j == 4 then 0xbad03605 else if j == 5 then 0xcdd70693 else if j == 6 then 0x54de5729 else if j == 7 then 0x23d967bf
    else if j == 8 then 0xb3667a2e else if j == 9 then 0xc4614ab8 else if j == 10 then 0x5d681b02 else if j == 11 then 0x2a6f2b94
    else if j == 12 then 0xb40bbe37 else if j == 13 then 0xc30c8ea1 else if j == 14 then 0x5a05df1b else 0x2d02ef8d
  }

  /** Entry `i` of crc32_tab. */
  function Crc32Tab(i: bv8): bv32 {
    Row(i >> 4, i & 15)
  }

  function Row(h: bv8, j: bv8): bv32 {
    if h == 0 then Row0(j)
    else if h == 1 then Row1(j)
    else if h == 2 then Row2(j)
    else if h == 3 then Row3(j)
    else if h == 4 then Row4(j)
    else if h == 5 then Row5(j)
    else if h == 6 then Row6(j)
    else if h == 7 then Row7(j)
    else if h == 8 then Row8(j)
    else if h == 9 then Row9(j)
    else if h == 10 then RowA(j)
    else if h == 11 then RowB(j)
    else if h == 12 then RowC(j)
    else if h == 13 then RowD(j)
    else if h == 14 then RowE(j)
    else RowF(j)
  }

  // ---------------------------------------------------------------- the checksum

  /** Addition of polynomials with coefficients modulo 2. */
  function Sum(a: bv32, b: bv32): bv32 { a ^ b }

  function Half(c: bv32): bv32 { c >> 1 }

  function Low(c: bv32): bool { c & 1 == 1 }

  function Feedback(b: bool): bv32 { if b then POLY else 0 }

  /** One step of the division: the next message bit meets the lowest bit of the register; if the two
      differ the polynomial is subtracted. */
  function StepBit(c: bv32, bit: bool): bv32 {
    Sum(Half(c), Feedback(Low(c) != bit))
  }

  function DivideBits(c: bv32, bits: seq<bool>): bv32
    decreases |bits|
  {
    if bits == [] then c else DivideBits(StepBit(c, bits[0]), bits[1..])
  }

  /** The `n` lowest bits of `m`, lowest first. */
  function LowBits(m: bv32, n: nat): (bits: seq<bool>)
    ensures |bits| == n
    decreases n
  {
    if n == 0 then [] else [Low(m)] + LowBits(Half(m), n - 1)
  }

  function ByteBits(b: bv8): (bits: seq<bool>)
    ensures |bits| == 8
  {
    LowBits(Wide(b), 8)
  }

  function Bits(buf: seq<bv8>): (bits: seq<bool>)
    ensures |bits| == 8 * |buf|
  {
    if buf == [] then [] else ByteBits(buf[0]) + Bits(buf[1..])
  }

  /** The checksum as defined: division bit by bit, with the register complemented before and after. */
  function Crc(seed: bv32, buf: seq<bv8>): bv32 {
    Sum(DivideBits(Sum(seed, 0xFFFFFFFF), Bits(buf)), 0xFFFFFFFF)
  }

  /** The checksum as computed: a table look-up for every byte. */
  method ComputeCrc32(seed: bv32, buf: seq<bv8>) returns (crc: bv32)
    ensures crc == Crc(seed, buf)
  {
    hide Crc32Tab, DivideBits, Sum;
    crc := Sum(seed, 0xFFFFFFFF);
    ghost var start := crc;
    for i := 0 to |buf|
      invariant DivideBits(start, Bits(buf)) == DivideBits(crc, Bits(buf[i..]))
    {
      assert buf[i..][1..] == buf[i + 1..];
      ByteStep(crc, buf[i], Bits(buf[i + 1..]));
      crc := Sum(Crc32Tab(TabIndex(crc, buf[i])), Above(crc));
    }
    DivideNothing(crc);
    crc := Sum(crc, 0xFFFFFFFF);
  }

  function Wide(b: bv8): bv32 { b as bv32 }

  function LowByte(x: bv32): bv8 { (x & 0xFF) as bv8 }

  function Above(x: bv32): bv32 { x >> 8 }

  /** `(crc ^ *p) & 0xFF`. */
  function TabIndex(c: bv32, b: bv8): bv8 {
    LowByte(Sum(c, Wide(b)))
  }

  // ---------------------------------------------------------------- polynomials modulo 2

  lemma SumAssociates(a: bv32, b: bv32, c: bv32)
    ensures Sum(Sum(a, b), c) == Sum(a, Sum(b, c))
  {
  }

  lemma SumCommutes(a: bv32, b: bv32)
    ensures Sum(a, b) == Sum(b, a)
  {
  }

  lemma SumZero(a: bv32)
    ensures Sum(a, 0) == a
  {
  }

  lemma SumSelf(a: bv32)
    ensures Sum(a, a) == 0
  {
  }

  lemma SumSwaps(a: bv32, b: bv32, c: bv32, d: bv32)
    ensures Sum(Sum(a, b), Sum(c, d)) == Sum(Sum(a, c), Sum(b, d))
  {
    hide Sum;
    SumAssociates(a, b, Sum(c, d));
    SumAssociates(b, c, d);
    SumCommutes(b, c);
    SumAssociates(c, b, d);
    SumAssociates(a, c, Sum(b, d));
  }

  lemma HalfLinear(a: bv32, b: bv32)
    ensures Half(Sum(a, b)) == Sum(Half(a), Half(b))
  {
  }

  lemma LowLinear(a: bv32, b: bv32)
    ensures Low(Sum(a, b)) == (Low(a) != Low(b))
  {
  }

  lemma FeedbackLinear(x: bool, y: bool)
    ensures Feedback(x != y) == Sum(Feedback(x), Feedback(y))
  {
  }

  /** The register is linear in itself and the message. */
  lemma StepLinear(a: bv32, b: bv32, x: bool, y: bool)
    ensures StepBit(Sum(a, b), x != y) == Sum(StepBit(a, x), StepBit(b, y))
  {
    HalfLinear(a, b);
    LowLinear(a, b);
    FeedbackLinear(Low(a) != x, Low(b) != y);
    SumSwaps(Half(a), Half(b), Feedback(Low(a) != x), Feedback(Low(b) != y));
    hide Sum, Half, Low, Feedback;
  }

  // ---------------------------------------------------------------- a byte at a time

  function Shift(c: bv32, n: nat): bv32
    decreases n
  {
    if n == 0 then c else Shift(StepBit(c, false), n - 1)
  }

  function Drop(m: bv32, n: nat): bv32
    decreases n
  {
    if n == 0 then m else Drop(Half(m), n - 1)
  }

  lemma StepAhead(c: bv32, m: bv32)
    ensures StepBit(Sum(c, m), false) == Sum(StepBit(c, Low(m)), Half(m))
  {
    HalfLinear(c, m);
    LowLinear(c, m);
    var f := Feedback(Low(c) != Low(m));
    SumAssociates(Half(c), Half(m), f);
    SumCommutes(Half(m), f);
    SumAssociates(Half(c), f, Half(m));
    hide Sum, Half, Low, Feedback;
  }

  /** Message bits can be added to the register ahead of time. */
  lemma {:induction false} AddAhead(c: bv32, m: bv32, n: nat)
    ensures Shift(Sum(c, m), n) == Sum(DivideBits(c, LowBits(m, n)), Drop(m, n))
    decreases n
  {
    if n > 0 {
      hide Sum, Half, Low, StepBit;
      StepAhead(c, m);
      AddAhead(StepBit(c, Low(m)), Half(m), n - 1);
      assert LowBits(m, n)[1..] == LowBits(Half(m), n - 1);
    }
  }

  lemma {:induction false} DivideAppend(c: bv32, xs: seq<bool>, ys: seq<bool>)
    ensures DivideBits(c, xs + ys) == DivideBits(DivideBits(c, xs), ys)
    decreases |xs|
  {
    hide StepBit;
    if xs == [] {
      assert xs + ys == ys;
    } else {
      assert (xs + ys)[1..] == xs[1..] + ys;
      DivideAppend(StepBit(c, xs[0]), xs[1..], ys);
    }
  }

  lemma DivideNothing(c: bv32)
    ensures DivideBits(c, Bits([])) == c
  {
  }

  function Zeros(n: nat): (z: seq<bool>)
    ensures |z| == n
  {
    if n == 0 then [] else [false] + Zeros(n - 1)
  }

  lemma {:induction false} DivideZeros(c: bv32, n: nat)
    ensures DivideBits(c, Zeros(n)) == Shift(c, n)
    decreases n
  {
    hide StepBit;
    if n > 0 {
      assert Zeros(n)[1..] == Zeros(n - 1);
      DivideZeros(StepBit(c, false), n - 1);
    }
  }

  lemma {:induction false} ShiftLinear(a: bv32, b: bv32, n: nat)
    ensures Shift(Sum(a, b), n) == Sum(Shift(a, n), Shift(b, n))
    decreases n
  {
    hide Sum, StepBit;
    if n > 0 {
      StepLinear(a, b, false, false);
      ShiftLinear(StepBit(a, false), StepBit(b, false), n - 1);
    }
  }

  lemma Drop8(m: bv32)
    ensures Drop(m, 8) == Above(m)
  {
  }

  function Upper(x: bv32): bv32 { x & 0xFFFFFF00 }

  lemma UpperHasNoLowBits(x: bv32)
    ensures LowBits(Upper(x), 8) == Zeros(8)
  {
  }

  /** A register is its low byte and the rest. */
  lemma SplitRegister(x: bv32)
    ensures x == Sum(Wide(LowByte(x)), Upper(x))
  {
  }

  lemma AboveUpper(x: bv32)
    ensures Above(Upper(x)) == Above(x)
  {
  }

  lemma AboveByte(c: bv32, b: bv8)
    ensures Above(Sum(c, Wide(b))) == Above(c)
  {
  }

  lemma NothingAbove(b: bv8)
    ensures Above(Wide(b)) == 0
  {
  }

  /** What the loop does for a byte is eight steps of the division. */
  lemma ByteDivides(c: bv32, b: bv8)
    ensures DivideBits(c, ByteBits(b)) == Sum(Crc32Tab(TabIndex(c, b)), Above(c))
  {
    hide Sum, Half, Low, StepBit, DivideBits, LowBits, Shift, Drop, Crc32Tab, Zeros, Wide, LowByte, Above, Upper;
    var x := Sum(c, Wide(b));
    AddAhead(c, Wide(b), 8);
    Drop8(Wide(b));
    NothingAbove(b);
    SumZero(DivideBits(c, ByteBits(b)));
    SplitRegister(x);
    AddAhead(Wide(LowByte(x)), Upper(x), 8);
    UpperHasNoLowBits(x);
    DivideZeros(Wide(LowByte(x)), 8);
    TableIsDivision(LowByte(x));
    Drop8(Upper(x));
    AboveUpper(x);
    AboveByte(c, b);
  }

  lemma ByteStep(c: bv32, b: bv8, rest: seq<bool>)
    ensures DivideBits(c, ByteBits(b) + rest) == DivideBits(Sum(Crc32Tab(TabIndex(c, b)), Above(c)), rest)
  {
    hide Crc32Tab, Sum, DivideBits, LowBits, TabIndex;
    DivideAppend(c, ByteBits(b), rest);
    ByteDivides(c, b);
  }

  // ---------------------------------------------------------------- the table is eight steps

  /** What the low and the high four bits of a byte contribute to its table entry. */
  function LowNibble(j: bv8): bv32 {
    (if j & 1 == 1 then 0x77073096 else 0) ^ (if j & 2 == 2 then 0xEE0E612C else 0) ^
    (if j & 4 == 4 then 0x076DC419 else 0) ^ (if j & 8 == 8 then 0x0EDB8832 else 0)
  }

  function HighNibble(j: bv8): bv32 {
    (if j & 1 == 1 then 0x1DB71064 else 0) ^ (if j & 2 == 2 then 0x3B6E20C8 else 0) ^
    (if j & 4 == 4 then 0x76DC4190 else 0) ^ (if j & 8 == 8 then 0xEDB88320 else 0)
  }

  function If(b: bool, v: bv32): bv32 { if b then v else 0 }

  /** The sum of four contributions, by the bits of `j`. */
  function Four(j: bv8, a: bv32, b: bv32, c: bv32, d: bv32): bv32 {
    Sum(Sum(If(j & 1 == 1, a), If(j & 2 == 2, b)), Sum(If(j & 4 == 4, c), If(j & 8 == 8, d)))
  }

  lemma LowNibbleIsFour(j: bv8)
    ensures LowNibble(j) == Four(j, 0x77073096, 0xEE0E612C, 0x076DC419, 0x0EDB8832)
  {
  }

  lemma HighNibbleIsFour(j: bv8)
    ensures HighNibble(j) == Four(j, 0x1DB71064, 0x3B6E20C8, 0x76DC4190, 0xEDB88320)
  {
  }

  function Nibble(j: bv8): bv32 {
    (if j & 1 == 1 then 1 else 0) ^ (if j & 2 == 2 then 2 else 0) ^ (if j & 4 == 4 then 4 else 0) ^ (if j & 8 == 8 then 8 else 0)
  }

  function Nibble16(j: bv8): bv32 {
    (if j & 1 == 1 then 16 else 0) ^ (if j & 2 == 2 then 32 else 0) ^ (if j & 4 == 4 then 64 else 0) ^ (if j & 8 == 8 then 128 else 0)
  }

  lemma NibbleIsFour(j: bv8)
    ensures Nibble(j) == Four(j, 1, 2, 4, 8)
  {
  }

  lemma Nibble16IsFour(j: bv8)
    ensures Nibble16(j) == Four(j, 16, 32, 64, 128)
  {
  }

  lemma ByteValue(i: bv8)
    ensures Wide(i) == Sum(Nibble(i & 15), Nibble16(i >> 4))
  {
  }

  lemma RowsAreSums(j: bv8)
    requires j < 16
    ensures Row0(j) == Sum(LowNibble(j), HighNibble(0)) && Row1(j) == Sum(LowNibble(j), HighNibble(1))
    ensures Row2(j) == Sum(LowNibble(j), HighNibble(2)) && Row3(j) == Sum(LowNibble(j), HighNibble(3))
    ensures Row4(j) == Sum(LowNibble(j), HighNibble(4)) && Row5(j) == Sum(LowNibble(j), HighNibble(5))
    ensures Row6(j) == Sum(LowNibble(j), HighNibble(6)) && Row7(j) == Sum(LowNibble(j), HighNibble(7))
    ensures Row8(j) == Sum(LowNibble(j), HighNibble(8)) && Row9(j) == Sum(LowNibble(j), HighNibble(9))
    ensures RowA(j) == Sum(LowNibble(j), HighNibble(10)) && RowB(j) == Sum(LowNibble(j), HighNibble(11))
    ensures RowC(j) == Sum(LowNibble(j), HighNibble(12)) && RowD(j) == Sum(LowNibble(j), HighNibble(13))
    ensures RowE(j) == Sum(LowNibble(j), HighNibble(14)) && RowF(j) == Sum(LowNibble(j), HighNibble(15))
  {
  }

  lemma RowIs(h: bv8, j: bv8)
    requires h < 16
    ensures (h == 0 ==> Row(h, j) == Row0(j)) && (h == 1 ==> Row(h, j) == Row1(j)) && (h == 2 ==> Row(h, j) == Row2(j)) && (h == 3 ==> Row(h, j) == Row3(j))
    ensures (h == 4 ==> Row(h, j) == Row4(j)) && (h == 5 ==> Row(h, j) == Row5(j)) && (h == 6 ==> Row(h, j) == Row6(j)) && (h == 7 ==> Row(h, j) == Row7(j))
    ensures (h == 8 ==> Row(h, j) == Row8(j)) && (h == 9 ==> Row(h, j) == Row9(j)) && (h == 10 ==> Row(h, j) == RowA(j)) && (h == 11 ==> Row(h, j) == RowB(j))
    ensures (h == 12 ==> Row(h, j) == RowC(j)) && (h == 13 ==> Row(h, j) == RowD(j)) && (h == 14 ==> Row(h, j) == RowE(j)) && (h == 15 ==> Row(h, j) == RowF(j))
  {
    hide Row0, Row1, Row2, Row3, Row4, Row5, Row6, Row7, Row8, Row9, RowA, RowB, RowC, RowD, RowE, RowF;
  }

  lemma RowIsSum(h: bv8, j: bv8)
    requires h < 16 && j < 16
    ensures Row(h, j) == Sum(LowNibble(j), HighNibble(h))
  {
    RowsAreSums(j);
    RowIs(h, j);
    hide Sum, LowNibble, HighNibble, Row, Row0, Row1, Row2, Row3, Row4, Row5, Row6, Row7, Row8, Row9, RowA, RowB, RowC, RowD, RowE, RowF;
  }

  lemma StepHalves()
    ensures StepBit(128, false) == 64 && StepBit(64, false) == 32 && StepBit(32, false) == 16 && StepBit(16, false) == 8
    ensures StepBit(8, false) == 4 && StepBit(4, false) == 2 && StepBit(2, false) == 1 && StepBit(1, false) == 0xEDB88320
    ensures StepBit(0, false) == 0
  {
  }

  lemma StepPowers()
    ensures StepBit(0xEDB88320, false) == 0x76DC4190 && StepBit(0x76DC4190, false) == 0x3B6E20C8
    ensures StepBit(0x3B6E20C8, false) == 0x1DB71064 && StepBit(0x1DB71064, false) == 0x0EDB8832
    ensures StepBit(0x0EDB8832, false) == 0x076DC419 && StepBit(0x076DC419, false) == 0xEE0E612C
    ensures StepBit(0xEE0E612C, false) == 0x77073096
  {
  }

  lemma EightShifts()
    ensures Shift(1, 8) == 0x77073096 && Shift(2, 8) == 0xEE0E612C && Shift(4, 8) == 0x076DC419 && Shift(8, 8) == 0x0EDB8832
    ensures Shift(16, 8) == 0x1DB71064 && Shift(32, 8) == 0x3B6E20C8 && Shift(64, 8) == 0x76DC4190 && Shift(128, 8) == 0xEDB88320
    ensures Shift(0, 8) == 0
  {
    StepHalves();
    StepPowers();
    hide StepBit;
  }

  lemma ShiftIf(b: bool, v: bv32)
    ensures Shift(If(b, v), 8) == If(b, Shift(v, 8))
  {
    EightShifts();
    hide Shift;
  }

  lemma ShiftFour(j: bv8, a: bv32, b: bv32, c: bv32, d: bv32)
    ensures Shift(Four(j, a, b, c, d), 8) == Four(j, Shift(a, 8), Shift(b, 8), Shift(c, 8), Shift(d, 8))
  {
    hide Shift, Sum, If;
    var p, q, r, s := If(j & 1 == 1, a), If(j & 2 == 2, b), If(j & 4 == 4, c), If(j & 8 == 8, d);
    ShiftIf(j & 1 == 1, a);
    ShiftIf(j & 2 == 2, b);
    ShiftIf(j & 4 == 4, c);
    ShiftIf(j & 8 == 8, d);
    ShiftLinear(p, q, 8);
    ShiftLinear(r, s, 8);
    ShiftLinear(Sum(p, q), Sum(r, s), 8);
  }

  /** All 256 entries: the table holds what eight steps make of the byte. */
  lemma TableIsDivision(i: bv8)
    ensures Crc32Tab(i) == Shift(Wide(i), 8)
  {
    hide Shift, Sum, Four, Row, Wide, Nibble, Nibble16, LowNibble, HighNibble;
    var j, h := i & 15, i >> 4;
    ByteValue(i);
    RowIsSum(h, j);
    LowNibbleIsFour(j);
    HighNibbleIsFour(h);
    EightShifts();
    NibbleIsFour(j);
    Nibble16IsFour(h);
    ShiftFour(j, 1, 2, 4, 8);
    ShiftFour(h, 16, 32, 64, 128);
    ShiftLinear(Nibble(j), Nibble16(h), 8);
  }

  // ---------------------------------------------------------------- continuing a checksum

  lemma {:induction false} BitsAppend(a: seq<bv8>, b: seq<bv8>)
    ensures Bits(a + b) == Bits(a) + Bits(b)
    decreases |a|
  {
    hide LowBits;
    if a == [] {
      assert a + b == b;
    } else {
      assert (a + b)[1..] == a[1..] + b;
      BitsAppend(a[1..], b);
    }
  }

  lemma SumTwice(a: bv32, b: bv32)
    ensures Sum(Sum(a, b), b) == a
  {
  }

  /** The checksum of a part is the seed for the rest. */
  lemma CrcContinues(seed: bv32, a: seq<bv8>, b: seq<bv8>)
    ensures Crc(Crc(seed, a), b) == Crc(seed, a + b)
  {
    hide Sum, DivideBits, Bits;
    var c := DivideBits(Sum(seed, 0xFFFFFFFF), Bits(a));
    SumTwice(c, 0xFFFFFFFF);
    BitsAppend(a, b);
    DivideAppend(Sum(seed, 0xFFFFFFFF), Bits(a), Bits(b));
  }

  // ---------------------------------------------------------------- burst errors

  function Diff(xs: seq<bool>, ys: seq<bool>): (ds: seq<bool>)
    requires |xs| == |ys|
    ensures |ds| == |xs| && forall i :: 0 <= i < |ds| ==> ds[i] == (xs[i] != ys[i])
  {
    seq(|xs|, i requires 0 <= i < |xs| => xs[i] != ys[i])
  }

  /** The difference of two checksums depends on the difference of the messages only. */
  lemma {:induction false} DivideLinear(a: bv32, b: bv32, xs: seq<bool>, ys: seq<bool>)
    requires |xs| == |ys|
    ensures Sum(DivideBits(a, xs), DivideBits(b, ys)) == DivideBits(Sum(a, b), Diff(xs, ys))
    decreases |xs|
  {
    hide Sum, StepBit;
    if xs != [] {
      StepLinear(a, b, xs[0], ys[0]);
      DivideLinear(StepBit(a, xs[0]), StepBit(b, ys[0]), xs[1..], ys[1..]);
      assert Diff(xs, ys)[1..] == Diff(xs[1..], ys[1..]);
    }
  }

  /** `v` moved up by one bit, with `d` below. */
  function Join(v: bv32, d: bool): bv32 { (v << 1) ^ (if d then 1 else 0) }

  lemma JoinParts(c: bv32)
    ensures Join(Half(c), Low(c)) == c
  {
  }

  predicate TopClear(v: bv32) { v & 0x80000000 == 0 }

  predicate Within(v: bv32, m: bv32) { v & !m == 0 }

  lemma JoinWithin(v: bv32, m: bv32, d: bool)
    requires Within(v, m)
    ensures Within(Join(v, d), Join(m, true))
  {
  }

  lemma JoinZero(v: bv32, d: bool)
    requires TopClear(v) && Join(v, d) == 0
    ensures v == 0 && !d
  {
  }

  lemma WithinTransitive(u: bv32, v: bv32, w: bv32)
    requires Within(u, v) && Within(v, w)
    ensures Within(u, w)
  {
  }

  /** The register before a step whose result has a clear top bit. */
  lemma StepBack(c: bv32, d: bool)
    requires TopClear(StepBit(c, d))
    ensures StepBit(c, d) == Half(c) && Low(c) == d
  {
    PolyOnTop(Half(c), Low(c) != d);
    hide Sum;
    HalfClear(c);
    SumZero(Half(c));
  }

  lemma HalfClear(c: bv32)
    ensures TopClear(Half(c))
  {
  }

  lemma PolyOnTop(h: bv32, b: bool)
    requires TopClear(h)
    ensures TopClear(Sum(h, Feedback(b))) ==> !b
  {
  }

  function Ones(n: nat): bv32 {
    if n == 0 then 0 else Join(Ones(n - 1), true)
  }

  lemma {:induction false} OnesGrow(n: nat)
    ensures Within(Ones(n), Ones(n + 1))
  {
    if n == 0 {
      NothingWithin(Ones(1));
    } else {
      hide Within, Join;
      OnesGrow(n - 1);
      JoinWithin(Ones(n - 1), Ones(n), true);
    }
  }

  lemma NothingWithin(m: bv32)
    ensures Within(0, m)
  {
  }

  lemma WithinItself(m: bv32)
    ensures Within(m, m)
  {
  }

  lemma {:induction false} OnesBelow(n: nat)
    requires n <= 31
    ensures Within(Ones(n), Ones(31))
    decreases 31 - n
  {
    hide Within, Join;
    if n == 31 {
      WithinItself(Ones(31));
    } else {
      OnesBelow(n + 1);
      OnesGrow(n);
      WithinTransitive(Ones(n), Ones(n + 1), Ones(31));
    }
  }

  lemma OnesTop()
    ensures Ones(31) == 0x7FFFFFFF
  {
    assert Ones(8) == 0xFF;
    assert Ones(16) == 0xFFFF;
    assert Ones(24) == 0xFFFFFF;
  }

  lemma WithinClear(v: bv32)
    requires Within(v, 0x7FFFFFFF)
    ensures TopClear(v)
  {
  }

  /** The bits `ds`, lowest first, as a register. */
  function ValueOf(ds: seq<bool>): bv32 {
    if ds == [] then 0 else Join(ValueOf(ds[1..]), ds[0])
  }

  lemma {:induction false} ValueWithin(ds: seq<bool>)
    ensures Within(ValueOf(ds), Ones(|ds|))
  {
    if ds == [] {
      NothingWithin(Ones(0));
    } else {
      hide Within, Join;
      ValueWithin(ds[1..]);
      JoinWithin(ValueOf(ds[1..]), Ones(|ds| - 1), ds[0]);
    }
  }

  lemma ValueTopClear(ds: seq<bool>)
    requires |ds| <= 31
    ensures TopClear(ValueOf(ds))
  {
    hide Within, Join, TopClear, ValueOf, Ones;
    ValueWithin(ds);
    OnesBelow(|ds|);
    OnesTop();
    WithinTransitive(ValueOf(ds), Ones(|ds|), Ones(31));
    WithinClear(ValueOf(ds));
  }

  /** Only one register is taken to zero by at most 32 given message bits: those bits themselves. */
  lemma {:induction false} OnlyOneReachesZero(c: bv32, ds: seq<bool>)
    requires |ds| <= 32 && DivideBits(c, ds) == 0
    ensures c == ValueOf(ds)
    decreases |ds|
  {
    if ds != [] {
      hide StepBit, Join, Half, Low, TopClear;
      var v := StepBit(c, ds[0]);
      OnlyOneReachesZero(v, ds[1..]);
      ValueTopClear(ds[1..]);
      StepBack(c, ds[0]);
      JoinParts(c);
    }
  }

  lemma {:induction false} ValueZero(ds: seq<bool>)
    requires |ds| <= 32 && ValueOf(ds) == 0
    ensures ds == Zeros(|ds|)
    decreases |ds|
  {
    if ds != [] {
      hide Join, TopClear;
      ValueTopClear(ds[1..]);
      JoinZero(ValueOf(ds[1..]), ds[0]);
      ValueZero(ds[1..]);
      assert ds == [ds[0]] + ds[1..];
    }
  }

  /** Zero bits never bring a register to zero. */
  lemma {:induction false} ZerosKeepNonZero(c: bv32, n: nat)
    requires Shift(c, n) == 0
    ensures c == 0
    decreases n
  {
    if n > 0 {
      hide StepBit, Join, Half, Low, TopClear;
      ZerosKeepNonZero(StepBit(c, false), n - 1);
      ZeroClear();
      StepBack(c, false);
      JoinParts(c);
      JoinOfZero();
    }
  }

  lemma ZeroClear()
    ensures TopClear(0)
  {
  }

  lemma JoinOfZero()
    ensures Join(0, false) == 0
  {
  }

  lemma {:induction false} ShiftZero(n: nat)
    ensures Shift(0, n) == 0
    decreases n
  {
    hide StepBit;
    if n > 0 {
      StepHalves();
      ShiftZero(n - 1);
    }
  }

  lemma {:induction false} AllZeros(ds: seq<bool>)
    requires forall i :: 0 <= i < |ds| ==> !ds[i]
    ensures ds == Zeros(|ds|)
  {
    if ds != [] {
      AllZeros(ds[1..]);
      assert ds == [ds[0]] + ds[1..];
    }
  }

  lemma {:induction false} ZerosAre(n: nat)
    ensures forall i :: 0 <= i < n ==> !Zeros(n)[i]
  {
    if n > 0 { ZerosAre(n - 1); }
  }

  /** A difference confined to 32 consecutive bits leaves a trace in the register. */
  lemma BurstLeavesTrace(ds: seq<bool>, start: nat, end: nat)
    requires start <= end <= |ds| && end <= start + 32 && DivideBits(0, ds) == 0
    requires forall i :: 0 <= i < |ds| && !(start <= i < end) ==> !ds[i]
    ensures forall i :: 0 <= i < |ds| ==> !ds[i]
  {
    hide DivideBits, Shift, ValueOf, Zeros;
    var before, burst, after := ds[..start], ds[start..end], ds[end..];
    assert ds == before + (burst + after);
    AllZeros(before);
    AllZeros(after);
    DivideAppend(0, before, burst + after);
    DivideZeros(0, |before|);
    ShiftZero(|before|);
    DivideAppend(0, burst, after);
    DivideZeros(DivideBits(0, burst), |after|);
    ZerosKeepNonZero(DivideBits(0, burst), |after|);
    OnlyOneReachesZero(0, burst);
    ValueZero(burst);
    ZerosAre(|burst|);
    forall i | start <= i < end ensures !ds[i] { assert ds[i] == burst[i - start]; }
  }

  /** The message bits and what is left above them, as a register again. */
  function FromBits(bits: seq<bool>, top: bv32): bv32 {
    if bits == [] then top else Join(FromBits(bits[1..], top), bits[0])
  }

  lemma {:induction false} LowBitsDetermine(m: bv32, n: nat)
    ensures m == FromBits(LowBits(m, n), Drop(m, n))
    decreases n
  {
    if n > 0 {
      hide Join, Half, Low;
      LowBitsDetermine(Half(m), n - 1);
      JoinParts(m);
      assert LowBits(m, n)[1..] == LowBits(Half(m), n - 1);
    }
  }

  lemma WideInjective(x: bv8, y: bv8)
    requires Wide(x) == Wide(y)
    ensures x == y
  {
  }

  lemma {:induction false} BitsDetermine(a: seq<bv8>, b: seq<bv8>)
    requires |a| == |b| && Bits(a) == Bits(b)
    ensures a == b
    decreases |a|
  {
    if a != [] {
      hide LowBits, Drop, FromBits, Wide, Above;
      assert Bits(a)[..8] == ByteBits(a[0]) && Bits(b)[..8] == ByteBits(b[0]);
      assert Bits(a)[8..] == Bits(a[1..]) && Bits(b)[8..] == Bits(b[1..]);
      LowBitsDetermine(Wide(a[0]), 8);
      LowBitsDetermine(Wide(b[0]), 8);
      Drop8(Wide(a[0]));
      Drop8(Wide(b[0]));
      NothingAbove(a[0]);
      NothingAbove(b[0]);
      WideInjective(a[0], b[0]);
      BitsDetermine(a[1..], b[1..]);
      assert a == [a[0]] + a[1..] && b == [b[0]] + b[1..];
    }
  }

  lemma SumCancels(a: bv32, b: bv32, c: bv32)
    requires Sum(a, c) == Sum(b, c)
    ensures a == b
  {
  }

  /** Two buffers of the same length that differ, but only inside a window of 32 consecutive bits
      counted from the lowest bit of each byte, have different checksums. */
  lemma BurstDetected(seed: bv32, a: seq<bv8>, b: seq<bv8>, start: nat)
    requires |a| == |b| && a != b
    requires forall i :: 0 <= i < 8 * |a| && !(start <= i < start + 32) ==> Bits(a)[i] == Bits(b)[i]
    ensures Crc(seed, a) != Crc(seed, b)
  {
    hide Sum, DivideBits, Bits, Diff;
    if Crc(seed, a) == Crc(seed, b) {
      var c := Sum(seed, 0xFFFFFFFF);
      var xs, ys := Bits(a), Bits(b);
      var ds := Diff(xs, ys);
      SumCancels(DivideBits(c, xs), DivideBits(c, ys), 0xFFFFFFFF);
      SumSelf(DivideBits(c, xs));
      SumSelf(c);
      DivideLinear(c, c, xs, ys);
      var s := if start < |ds| then start else |ds|;
      var e := if start + 32 < |ds| then start + 32 else |ds|;
      BurstLeavesTrace(ds, s, e);
      assert xs == ys;
      BitsDetermine(a, b);
      assert false;
    }
  }
}
