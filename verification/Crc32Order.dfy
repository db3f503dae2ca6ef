/** The polynomial of the CRC is primitive: a register comes back to itself after a run of zero bits only
    when their number is a multiple of 2^32 - 1. That is why the register does not start at zero, and
    what it takes for zero bytes in front of a message to go unnoticed. */
module Crc32Order {
  import opened Words
  import opened Crc32

  /** The register that stands for the polynomial 1; a step multiplies by X. */
  const ONE: bv32 := 0x80000000

  /** What division starts from with seed 0. */
  const ONES: bv32 := 0xFFFFFFFF

  const ORDER := 0xFFFF_FFFF

  /** X^n modulo the polynomial. */
  function Power(n: nat): bv32 { Shift(ONE, n) }

  function TwoSteps(c: bv32): bv32 { StepBit(StepBit(c, false), false) }

  // ---------------------------------------------------------------- powers

  lemma {:induction false} ShiftAdd(c: bv32, m: nat, n: nat)
    ensures Shift(c, m + n) == Shift(Shift(c, m), n)
    decreases m
  {
    hide StepBit;
    if m > 0 { ShiftAdd(StepBit(c, false), m - 1, n); }
  }

  lemma PowerZero()
    ensures Power(0) == ONE
  {
  }

  lemma PowerStep(n: nat)
    ensures Power(n + 1) == StepBit(Power(n), false)
  {
    ShiftAdd(ONE, n, 1);
    OneStep(Shift(ONE, n));
    hide Shift, StepBit;
  }

  lemma OneStep(c: bv32)
    ensures Shift(c, 1) == StepBit(c, false)
  {
    hide StepBit;
    assert Shift(StepBit(c, false), 0) == StepBit(c, false);
  }

  function FlatStep(c: bv32): bv32 { (c >> 1) ^ (if c & 1 == 1 then POLY else 0) }

  lemma FlatStepIs(c: bv32)
    ensures FlatStep(c) == StepBit(c, false)
  {
    if c & 1 == 1 {
      assert Low(c);
    } else {
      assert !Low(c);
    }
  }

  lemma TwoUp(n: nat, c: bv32, d: bv32)
    requires Power(n) == c && d == FlatStep(c)
    ensures Power(n + 2) == FlatStep(d) == TwoSteps(c)
  {
    hide Power, StepBit, FlatStep;
    FlatStepIs(c);
    FlatStepIs(d);
    PowerStep(n);
    PowerStep(n + 1);
  }

  lemma PowerAdd(m: nat, n: nat)
    ensures Power(m + n) == Shift(Power(m), n)
  {
    hide Shift;
    ShiftAdd(ONE, m, n);
  }

  lemma PowerTo16()
    ensures Power(16) == 0x00008000
  {
    hide Power;
    PowerZero();
    TwoUp(0, 0x80000000, 0x40000000);
    TwoUp(2, 0x20000000, 0x10000000);
    TwoUp(4, 0x08000000, 0x04000000);
    TwoUp(6, 0x02000000, 0x01000000);
    TwoUp(8, 0x00800000, 0x00400000);
    TwoUp(10, 0x00200000, 0x00100000);
    TwoUp(12, 0x00080000, 0x00040000);
    TwoUp(14, 0x00020000, 0x00010000);
  }

  lemma PowerTo32()
    ensures Power(32) == 0xEDB88320
  {
    hide Power;
    PowerTo16();
    TwoUp(16, 0x00008000, 0x00004000);
    TwoUp(18, 0x00002000, 0x00001000);
    TwoUp(20, 0x00000800, 0x00000400);
    TwoUp(22, 0x00000200, 0x00000100);
    TwoUp(24, 0x00000080, 0x00000040);
    TwoUp(26, 0x00000020, 0x00000010);
    TwoUp(28, 0x00000008, 0x00000004);
    TwoUp(30, 0x00000002, 0x00000001);
  }

  lemma PowerTo48()
    ensures Power(48) == 0xE1351B80
  {
    hide Power;
    PowerTo32();
    TwoUp(32, 0xEDB88320, 0x76DC4190);
    TwoUp(34, 0x3B6E20C8, 0x1DB71064);
    TwoUp(36, 0x0EDB8832, 0x076DC419);
    TwoUp(38, 0xEE0E612C, 0x77073096);
    TwoUp(40, 0x3B83984B, 0xF0794F05);
    TwoUp(42, 0x958424A2, 0x4AC21251);
    TwoUp(44, 0xC8D98A08, 0x646CC504);
    TwoUp(46, 0x32366282, 0x191B3141);
  }

  lemma PowerTo64()
    ensures Power(64) == 0xB1E6B092
  {
    hide Power;
    PowerTo48();
    TwoUp(48, 0xE1351B80, 0x709A8DC0);
    TwoUp(50, 0x384D46E0, 0x1C26A370);
    TwoUp(52, 0x0E1351B8, 0x0709A8DC);
    TwoUp(54, 0x0384D46E, 0x01C26A37);
    TwoUp(56, 0xED59B63B, 0x9B14583D);
    TwoUp(58, 0xA032AF3E, 0x5019579F);
    TwoUp(60, 0xC5B428EF, 0x8F629757);
    TwoUp(62, 0xAA09C88B, 0xB8BC6765);
  }

  // ---------------------------------------------------------------- squares

  /** The square of a polynomial: every term X^i becomes X^2i. The lowest bit stands for X^(n-1). */
  function Square(a: bv32, n: nat): bv32
    decreases n
  {
    if n == 0 then 0 else Sum(If(Low(a), Power(2 * (n - 1))), Square(Half(a), n - 1))
  }

  lemma IfLinear(x: bool, y: bool, v: bv32)
    ensures If(x != y, v) == Sum(If(x, v), If(y, v))
  {
    hide Sum;
    SumZero(v);
    SumZero(0);
    SumSelf(v);
    SumCommutes(0, v);
  }

  lemma {:induction false} SquareLinear(a: bv32, b: bv32, n: nat)
    ensures Square(Sum(a, b), n) == Sum(Square(a, n), Square(b, n))
    decreases n
  {
    hide Sum, Half, Low, If, Power;
    if n == 0 {
      SumZero(0);
    } else {
      HalfLinear(a, b);
      LowLinear(a, b);
      IfLinear(Low(a), Low(b), Power(2 * (n - 1)));
      SquareLinear(Half(a), Half(b), n - 1);
      SumSwaps(If(Low(a), Power(2 * (n - 1))), If(Low(b), Power(2 * (n - 1))), Square(Half(a), n - 1), Square(Half(b), n - 1));
    }
  }

  lemma TwoStepsLinear(a: bv32, b: bv32)
    ensures TwoSteps(Sum(a, b)) == Sum(TwoSteps(a), TwoSteps(b))
  {
    hide Sum, StepBit;
    StepLinear(a, b, false, false);
    StepLinear(StepBit(a, false), StepBit(b, false), false, false);
  }

  lemma TwoStepsOfZero()
    ensures TwoSteps(0) == 0
  {
    StepHalves();
    hide StepBit;
  }

  lemma TwoStepsOfIf(b: bool, n: nat)
    ensures TwoSteps(If(b, Power(n))) == If(b, Power(n + 2))
  {
    hide Power, TwoSteps;
    TwoStepsOfZero();
    TwoUp(n, Power(n), FlatStep(Power(n)));
  }

  /** Multiplied by X^2, the square has one more place for the bit above. */
  lemma {:induction false} SquareUp(b: bv32, n: nat)
    ensures Square(b, n + 1) == Sum(TwoSteps(Square(b, n)), If(Low(Drop(b, n)), ONE))
    decreases n
  {
    hide Sum, Half, Low, If, Power, TwoSteps;
    if n == 0 {
      PowerZero();
      TwoStepsOfZero();
      SumCommutes(If(Low(b), ONE), 0);
    } else {
      var t, s := If(Low(b), Power(2 * (n - 1))), Square(Half(b), n - 1);
      TwoStepsOfIf(Low(b), 2 * (n - 1));
      TwoStepsLinear(t, s);
      SquareUp(Half(b), n - 1);
      SumAssociates(TwoSteps(t), TwoSteps(s), If(Low(Drop(b, n)), ONE));
    }
  }

  lemma {:induction false} DropAdd(m: bv32, i: nat, n: nat)
    ensures Drop(m, i + n) == Drop(Drop(m, i), n)
    decreases i
  {
    hide Half;
    if i > 0 { DropAdd(Half(m), i - 1, n); }
  }

  lemma NothingLeft(m: bv32)
    ensures Drop(m, 32) == 0
  {
    hide Drop;
    DropAdd(m, 8, 24);
    DropAdd(Drop(m, 8), 8, 16);
    DropAdd(Drop(Drop(m, 8), 8), 8, 8);
    Drop8(m);
    Drop8(Above(m));
    Drop8(Above(Above(m)));
    Drop8(Above(Above(Above(m))));
    FourBytes(m);
  }

  lemma FourBytes(m: bv32)
    ensures Above(Above(Above(Above(m)))) == 0
  {
  }

  lemma {:induction false} SquareOfZero(n: nat)
    ensures Square(0, n) == 0
    decreases n
  {
    hide Power;
    if n > 0 {
      assert Half(0) == 0;
      SquareOfZero(n - 1);
    }
  }

  lemma LowOfZero()
    ensures !Low(0)
  {
  }

  lemma SquareOfHalf(a: bv32)
    ensures Square(Half(a), 32) == TwoSteps(Square(Half(a), 31))
  {
    hide Square, Half, Low, Sum, TwoSteps;
    SquareUp(Half(a), 31);
    NothingLeft(a);
    DropOne(a, 31);
    LowOfZero();
    SumZero(TwoSteps(Square(Half(a), 31)));
  }

  lemma DropOne(a: bv32, n: nat)
    ensures Drop(a, n + 1) == Drop(Half(a), n)
  {
  }

  lemma SquareFirst(a: bv32, n: nat)
    requires n > 0
    ensures Square(a, n) == Sum(If(Low(a), Power(2 * (n - 1))), Square(Half(a), n - 1))
  {
  }

  lemma SquareOfFeedback(b: bool)
    ensures Square(Feedback(b), 32) == If(b, Power(64))
  {
    hide Square, Power, SquareTable;
    SquareOfZero(32);
    SquareIsTable(POLY);
    PowerTo64();
    TableOfPoly();
  }

  lemma TableOfPoly()
    ensures SquareTable(POLY) == 0xB1E6B092
  {
  }

  lemma TableOfOne()
    ensures SquareTable(ONE) == ONE
  {
  }

  /** The square of a multiple of X. */
  lemma SquareOfStep(a: bv32)
    ensures Square(StepBit(a, false), 32) == TwoSteps(Square(a, 32))
  {
    hide Square, Half, Low, Sum, TwoSteps, Power, If, Feedback;
    SquareLinear(Half(a), Feedback(Low(a)), 32);
    SquareOfHalf(a);
    SquareOfFeedback(Low(a));
    SquareFirst(a, 32);
    TwoStepsLinear(If(Low(a), Power(62)), Square(Half(a), 31));
    TwoStepsOfIf(Low(a), 62);
    SumCommutes(If(Low(a), Power(64)), TwoSteps(Square(Half(a), 31)));
  }

  lemma {:induction false} SquareOfPower(n: nat)
    ensures Square(Power(n), 32) == Power(2 * n)
  {
    hide Square, Power, TwoSteps, SquareTable, StepBit, FlatStep;
    if n == 0 {
      PowerZero();
      SquareIsTable(ONE);
      TableOfOne();
    } else {
      SquareOfPower(n - 1);
      PowerStep(n - 1);
      SquareOfStep(Power(n - 1));
      TwoUp(2 * (n - 1), Power(2 * (n - 1)), FlatStep(Power(2 * (n - 1))));
    }
  }

  // ---------------------------------------------------------------- squares by table

  function SquareNibble(a: bv32, v0: bv32, v1: bv32, v2: bv32, v3: bv32, rest: bv32): bv32 {
    Sum(If(a & 1 == 1, v0), Sum(If(a & 2 == 2, v1), Sum(If(a & 4 == 4, v2), Sum(If(a & 8 == 8, v3), rest))))
  }

  lemma LowIs(a: bv32)
    ensures Low(a) == (a & 1 == 1)
  {
  }

  lemma LowOfHalf(a: bv32)
    ensures Low(Half(a)) == (a & 2 == 2)
  {
  }

  function Down2(a: bv32): bv32 { a >> 2 }

  function Down4(a: bv32): bv32 { a >> 4 }

  lemma HalfTwice(a: bv32)
    ensures Half(Half(a)) == Down2(a) && (Down2(a) & 1 == 1) == (a & 4 == 4) && (Down2(a) & 2 == 2) == (a & 8 == 8)
    ensures Down2(Down2(a)) == Down4(a)
  {
  }

  lemma HalfBits(a: bv32)
    ensures Low(a) == (a & 1 == 1) && Low(Half(a)) == (a & 2 == 2) && Low(Half(Half(a))) == (a & 4 == 4)
    ensures Low(Half(Half(Half(a)))) == (a & 8 == 8) && Half(Half(Half(Half(a)))) == Down4(a)
  {
    hide Low, Half, Down2, Down4;
    LowIs(a);
    LowOfHalf(a);
    HalfTwice(a);
    LowIs(Down2(a));
    LowOfHalf(Down2(a));
    HalfTwice(Down2(a));
  }

  lemma SquareIsNibble(a: bv32, n: nat)
    requires n >= 4
    ensures Square(a, n) ==
            SquareNibble(a, Power(2 * (n - 1)), Power(2 * (n - 2)), Power(2 * (n - 3)), Power(2 * (n - 4)), Square(Down4(a), n - 4))
  {
    hide Square, Half, Low, Sum, Power, If, Down4;
    HalfBits(a);
    SquareFirst(a, n);
    SquareFirst(Half(a), n - 1);
    SquareFirst(Half(Half(a)), n - 2);
    SquareFirst(Half(Half(Half(a))), n - 3);
  }

  lemma SquareAt32(a: bv32)
    ensures Square(a, 32) == SquareNibble(a, 0xAA09C88B, 0xC5B428EF, 0xA032AF3E, 0xED59B63B, Square(Down4(a), 28))
  {
    hide Square, Power, SquareNibble, Down4;
    PowerTo48();
    TwoUp(48, 0xE1351B80, 0x709A8DC0);
    TwoUp(50, 0x384D46E0, 0x1C26A370);
    TwoUp(52, 0x0E1351B8, 0x0709A8DC);
    TwoUp(54, 0x0384D46E, 0x01C26A37);
    TwoUp(56, 0xED59B63B, 0x9B14583D);
    TwoUp(58, 0xA032AF3E, 0x5019579F);
    TwoUp(60, 0xC5B428EF, 0x8F629757);
    SquareIsNibble(a, 32);
  }

  lemma SquareAt28(a: bv32)
    ensures Square(a, 28) == SquareNibble(a, 0x0384D46E, 0x0E1351B8, 0x384D46E0, 0xE1351B80, Square(Down4(a), 24))
  {
    hide Square, Power, SquareNibble, Down4;
    PowerTo48();
    TwoUp(48, 0xE1351B80, 0x709A8DC0);
    TwoUp(50, 0x384D46E0, 0x1C26A370);
    TwoUp(52, 0x0E1351B8, 0x0709A8DC);
    SquareIsNibble(a, 28);
  }

  lemma SquareAt24(a: bv32)
    ensures Square(a, 24) == SquareNibble(a, 0x32366282, 0xC8D98A08, 0x958424A2, 0x3B83984B, Square(Down4(a), 20))
  {
    hide Square, Power, SquareNibble, Down4;
    PowerTo32();
    TwoUp(32, 0xEDB88320, 0x76DC4190);
    TwoUp(34, 0x3B6E20C8, 0x1DB71064);
    TwoUp(36, 0x0EDB8832, 0x076DC419);
    TwoUp(38, 0xEE0E612C, 0x77073096);
    TwoUp(40, 0x3B83984B, 0xF0794F05);
    TwoUp(42, 0x958424A2, 0x4AC21251);
    TwoUp(44, 0xC8D98A08, 0x646CC504);
    SquareIsNibble(a, 24);
  }

  lemma SquareAt20(a: bv32)
    ensures Square(a, 20) == SquareNibble(a, 0xEE0E612C, 0x0EDB8832, 0x3B6E20C8, 0xEDB88320, Square(Down4(a), 16))
  {
    hide Square, Power, SquareNibble, Down4;
    PowerTo32();
    TwoUp(32, 0xEDB88320, 0x76DC4190);
    TwoUp(34, 0x3B6E20C8, 0x1DB71064);
    TwoUp(36, 0x0EDB8832, 0x076DC419);
    SquareIsNibble(a, 20);
  }

  lemma SquareAt16(a: bv32)
    ensures Square(a, 16) == SquareNibble(a, 0x00000002, 0x00000008, 0x00000020, 0x00000080, Square(Down4(a), 12))
  {
    hide Square, Power, SquareNibble, Down4;
    PowerTo16();
    TwoUp(16, 0x00008000, 0x00004000);
    TwoUp(18, 0x00002000, 0x00001000);
    TwoUp(20, 0x00000800, 0x00000400);
    TwoUp(22, 0x00000200, 0x00000100);
    TwoUp(24, 0x00000080, 0x00000040);
    TwoUp(26, 0x00000020, 0x00000010);
    TwoUp(28, 0x00000008, 0x00000004);
    SquareIsNibble(a, 16);
  }

  lemma SquareAt12(a: bv32)
    ensures Square(a, 12) == SquareNibble(a, 0x00000200, 0x00000800, 0x00002000, 0x00008000, Square(Down4(a), 8))
  {
    hide Square, Power, SquareNibble, Down4;
    PowerTo16();
    TwoUp(16, 0x00008000, 0x00004000);
    TwoUp(18, 0x00002000, 0x00001000);
    TwoUp(20, 0x00000800, 0x00000400);
    SquareIsNibble(a, 12);
  }

  lemma SquareAt8(a: bv32)
    ensures Square(a, 8) == SquareNibble(a, 0x00020000, 0x00080000, 0x00200000, 0x00800000, Square(Down4(a), 4))
  {
    hide Square, Power, SquareNibble, Down4;
    PowerZero();
    TwoUp(0, 0x80000000, 0x40000000);
    TwoUp(2, 0x20000000, 0x10000000);
    TwoUp(4, 0x08000000, 0x04000000);
    TwoUp(6, 0x02000000, 0x01000000);
    TwoUp(8, 0x00800000, 0x00400000);
    TwoUp(10, 0x00200000, 0x00100000);
    TwoUp(12, 0x00080000, 0x00040000);
    SquareIsNibble(a, 8);
  }

  lemma SquareAt4(a: bv32)
    ensures Square(a, 4) == SquareNibble(a, 0x02000000, 0x08000000, 0x20000000, 0x80000000, Square(Down4(a), 0))
  {
    hide Square, Power, SquareNibble, Down4;
    PowerZero();
    TwoUp(0, 0x80000000, 0x40000000);
    TwoUp(2, 0x20000000, 0x10000000);
    TwoUp(4, 0x08000000, 0x04000000);
    SquareIsNibble(a, 4);
  }

  /** Digit `k` of the table: the masks and the squares of single bits written out. */
  function Digit0(a: bv32): bv32 {
    (if a & 0x1 == 0x1 then 0xAA09C88B else 0) ^ (if a & 0x2 == 0x2 then 0xC5B428EF else 0) ^
    (if a & 0x4 == 0x4 then 0xA032AF3E else 0) ^ (if a & 0x8 == 0x8 then 0xED59B63B else 0)
  }

  function Digit1(a: bv32): bv32 {
    (if a & 0x10 == 0x10 then 0x0384D46E else 0) ^ (if a & 0x20 == 0x20 then 0x0E1351B8 else 0) ^
    (if a & 0x40 == 0x40 then 0x384D46E0 else 0) ^ (if a & 0x80 == 0x80 then 0xE1351B80 else 0)
  }

  function Digit2(a: bv32): bv32 {
    (if a & 0x100 == 0x100 then 0x32366282 else 0) ^ (if a & 0x200 == 0x200 then 0xC8D98A08 else 0) ^
    (if a & 0x400 == 0x400 then 0x958424A2 else 0) ^ (if a & 0x800 == 0x800 then 0x3B83984B else 0)
  }

  function Digit3(a: bv32): bv32 {
    (if a & 0x1000 == 0x1000 then 0xEE0E612C else 0) ^ (if a & 0x2000 == 0x2000 then 0x0EDB8832 else 0) ^
    (if a & 0x4000 == 0x4000 then 0x3B6E20C8 else 0) ^ (if a & 0x8000 == 0x8000 then 0xEDB88320 else 0)
  }

  function Digit4(a: bv32): bv32 {
    (if a & 0x10000 == 0x10000 then 0x00000002 else 0) ^ (if a & 0x20000 == 0x20000 then 0x00000008 else 0) ^
    (if a & 0x40000 == 0x40000 then 0x00000020 else 0) ^ (if a & 0x80000 == 0x80000 then 0x00000080 else 0)
  }

  function Digit5(a: bv32): bv32 {
    (if a & 0x100000 == 0x100000 then 0x00000200 else 0) ^ (if a & 0x200000 == 0x200000 then 0x00000800 else 0) ^
    (if a & 0x400000 == 0x400000 then 0x00002000 else 0) ^ (if a & 0x800000 == 0x800000 then 0x00008000 else 0)
  }

  function Digit6(a: bv32): bv32 {
    (if a & 0x1000000 == 0x1000000 then 0x00020000 else 0) ^ (if a & 0x2000000 == 0x2000000 then 0x00080000 else 0) ^
    (if a & 0x4000000 == 0x4000000 then 0x00200000 else 0) ^ (if a & 0x8000000 == 0x8000000 then 0x00800000 else 0)
  }

  function Digit7(a: bv32): bv32 {
    (if a & 0x10000000 == 0x10000000 then 0x02000000 else 0) ^ (if a & 0x20000000 == 0x20000000 then 0x08000000 else 0) ^
    (if a & 0x40000000 == 0x40000000 then 0x20000000 else 0) ^ (if a & 0x80000000 == 0x80000000 then 0x80000000 else 0)
  }

  function Chain(d0: bv32, d1: bv32, d2: bv32, d3: bv32, d4: bv32, d5: bv32, d6: bv32, d7: bv32): bv32 {
    d0 ^ d1 ^ d2 ^ d3 ^ d4 ^ d5 ^ d6 ^ d7
  }

  function SquareTable(a: bv32): bv32 {
    Digit0(a) ^ Digit1(a) ^ Digit2(a) ^ Digit3(a) ^ Digit4(a) ^ Digit5(a) ^ Digit6(a) ^ Digit7(a)
  }

  lemma TableIsChain(a: bv32)
    ensures SquareTable(a) == Chain(Digit0(a), Digit1(a), Digit2(a), Digit3(a), Digit4(a), Digit5(a), Digit6(a), Digit7(a))
  {
    hide Digit0, Digit1, Digit2, Digit3, Digit4, Digit5, Digit6, Digit7;
  }

  lemma Digit0Is(a: bv32)
    ensures Digit0(a) == SquareNibble(a, 0xAA09C88B, 0xC5B428EF, 0xA032AF3E, 0xED59B63B, 0)
  {
  }

  lemma Digit1Is(a: bv32)
    ensures Digit1(a) == SquareNibble(a >> 4, 0x0384D46E, 0x0E1351B8, 0x384D46E0, 0xE1351B80, 0)
  {
  }

  lemma Digit2Is(a: bv32)
    ensures Digit2(a) == SquareNibble(a >> 8, 0x32366282, 0xC8D98A08, 0x958424A2, 0x3B83984B, 0)
  {
  }

  lemma Digit3Is(a: bv32)
    ensures Digit3(a) == SquareNibble(a >> 12, 0xEE0E612C, 0x0EDB8832, 0x3B6E20C8, 0xEDB88320, 0)
  {
  }

  lemma Digit4Is(a: bv32)
    ensures Digit4(a) == SquareNibble(a >> 16, 0x00000002, 0x00000008, 0x00000020, 0x00000080, 0)
  {
  }

  lemma Digit5Is(a: bv32)
    ensures Digit5(a) == SquareNibble(a >> 20, 0x00000200, 0x00000800, 0x00002000, 0x00008000, 0)
  {
  }

  lemma Digit6Is(a: bv32)
    ensures Digit6(a) == SquareNibble(a >> 24, 0x00020000, 0x00080000, 0x00200000, 0x00800000, 0)
  {
  }

  lemma Digit7Is(a: bv32)
    ensures Digit7(a) == SquareNibble(a >> 28, 0x02000000, 0x08000000, 0x20000000, 0x80000000, 0)
  {
  }

  lemma NibbleRest(a: bv32, v0: bv32, v1: bv32, v2: bv32, v3: bv32, rest: bv32)
    ensures SquareNibble(a, v0, v1, v2, v3, rest) == Sum(SquareNibble(a, v0, v1, v2, v3, 0), rest)
  {
    FourRest(If(a & 1 == 1, v0), If(a & 2 == 2, v1), If(a & 4 == 4, v2), If(a & 8 == 8, v3), rest);
    hide Sum, If;
  }

  lemma FourRest(s: bv32, t: bv32, u: bv32, v: bv32, rest: bv32)
    ensures Sum(s, Sum(t, Sum(u, Sum(v, rest)))) == Sum(Sum(s, Sum(t, Sum(u, Sum(v, 0)))), rest)
  {
    hide Sum;
    SumZero(v);
    SumAssociates(u, v, rest);
    SumAssociates(t, Sum(u, v), rest);
    SumAssociates(s, Sum(t, Sum(u, v)), rest);
  }

  lemma Down4Twice(a: bv32)
    ensures Down4(a) == a >> 4 && Down4(a >> 4) == a >> 8 && Down4(a >> 8) == a >> 12 && Down4(a >> 12) == a >> 16
    ensures Down4(a >> 16) == a >> 20 && Down4(a >> 20) == a >> 24 && Down4(a >> 24) == a >> 28
  {
  }

  lemma SquareFrom32(a: bv32)
    ensures Square(a, 32) == Sum(Digit0(a), Square(a >> 4, 28))
  {
    hide Square, Sum, SquareNibble, Digit0, Down4;
    SquareAt32(a);
    Down4Twice(a);
    NibbleRest(a, 0xAA09C88B, 0xC5B428EF, 0xA032AF3E, 0xED59B63B, Square(a >> 4, 28));
    Digit0Is(a);
  }

  lemma SquareFrom28(a: bv32)
    ensures Square(a >> 4, 28) == Sum(Digit1(a), Square(a >> 8, 24))
  {
    hide Square, Sum, SquareNibble, Digit1, Down4;
    SquareAt28(a >> 4);
    Down4Twice(a);
    NibbleRest(a >> 4, 0x0384D46E, 0x0E1351B8, 0x384D46E0, 0xE1351B80, Square(a >> 8, 24));
    Digit1Is(a);
  }

  lemma SquareFrom24(a: bv32)
    ensures Square(a >> 8, 24) == Sum(Digit2(a), Square(a >> 12, 20))
  {
    hide Square, Sum, SquareNibble, Digit2, Down4;
    SquareAt24(a >> 8);
    Down4Twice(a);
    NibbleRest(a >> 8, 0x32366282, 0xC8D98A08, 0x958424A2, 0x3B83984B, Square(a >> 12, 20));
    Digit2Is(a);
  }

  lemma SquareFrom20(a: bv32)
    ensures Square(a >> 12, 20) == Sum(Digit3(a), Square(a >> 16, 16))
  {
    hide Square, Sum, SquareNibble, Digit3, Down4;
    SquareAt20(a >> 12);
    Down4Twice(a);
    NibbleRest(a >> 12, 0xEE0E612C, 0x0EDB8832, 0x3B6E20C8, 0xEDB88320, Square(a >> 16, 16));
    Digit3Is(a);
  }

  lemma SquareFrom16(a: bv32)
    ensures Square(a >> 16, 16) == Sum(Digit4(a), Square(a >> 20, 12))
  {
    hide Square, Sum, SquareNibble, Digit4, Down4;
    SquareAt16(a >> 16);
    Down4Twice(a);
    NibbleRest(a >> 16, 0x00000002, 0x00000008, 0x00000020, 0x00000080, Square(a >> 20, 12));
    Digit4Is(a);
  }

  lemma SquareFrom12(a: bv32)
    ensures Square(a >> 20, 12) == Sum(Digit5(a), Square(a >> 24, 8))
  {
    hide Square, Sum, SquareNibble, Digit5, Down4;
    SquareAt12(a >> 20);
    Down4Twice(a);
    NibbleRest(a >> 20, 0x00000200, 0x00000800, 0x00002000, 0x00008000, Square(a >> 24, 8));
    Digit5Is(a);
  }

  lemma SquareFrom8(a: bv32)
    ensures Square(a >> 24, 8) == Sum(Digit6(a), Square(a >> 28, 4))
  {
    hide Square, Sum, SquareNibble, Digit6, Down4;
    SquareAt8(a >> 24);
    Down4Twice(a);
    NibbleRest(a >> 24, 0x00020000, 0x00080000, 0x00200000, 0x00800000, Square(a >> 28, 4));
    Digit6Is(a);
  }

  lemma SquareFrom4(a: bv32)
    ensures Square(a >> 28, 4) == Digit7(a)
  {
    hide Square, Sum, SquareNibble, Digit7, Down4;
    SquareAt4(a >> 28);
    NoSquare(Down4(a >> 28));
    Digit7Is(a);
  }

  lemma NoSquare(a: bv32)
    ensures Square(a, 0) == 0
  {
  }

  lemma SquareLowHalf(a: bv32)
    ensures Square(a, 32) == Sum(Digit0(a), Sum(Digit1(a), Sum(Digit2(a), Sum(Digit3(a), Square(a >> 16, 16)))))
  {
    hide Square, Digit0, Digit1, Digit2, Digit3, Sum;
    SquareFrom32(a);
    SquareFrom28(a);
    SquareFrom24(a);
    SquareFrom20(a);
  }

  lemma SquareHighHalf(a: bv32)
    ensures Square(a >> 16, 16) == Sum(Digit4(a), Sum(Digit5(a), Sum(Digit6(a), Digit7(a))))
  {
    hide Square, Digit4, Digit5, Digit6, Digit7, Sum;
    SquareFrom16(a);
    SquareFrom12(a);
    SquareFrom8(a);
    SquareFrom4(a);
  }

  lemma SquareIsTable(a: bv32)
    ensures Square(a, 32) == SquareTable(a)
  {
    hide Square, Digit0, Digit1, Digit2, Digit3, Digit4, Digit5, Digit6, Digit7, Sum, Chain, SquareTable;
    TableIsChain(a);
    SquareLowHalf(a);
    SquareHighHalf(a);
    EightSums(Digit0(a), Digit1(a), Digit2(a), Digit3(a), Digit4(a), Digit5(a), Digit6(a), Digit7(a));
  }

  /** A sum from the right is the plain exclusive or from the left. */
  lemma EightSums(d0: bv32, d1: bv32, d2: bv32, d3: bv32, d4: bv32, d5: bv32, d6: bv32, d7: bv32)
    ensures Sum(d0, Sum(d1, Sum(d2, Sum(d3, Sum(d4, Sum(d5, Sum(d6, d7))))))) == Chain(d0, d1, d2, d3, d4, d5, d6, d7)
  {
    hide Sum;
    RightToLeft(d0, d1, d2, d3, d4, d5, d6, d7);
    var t2 := Sum(d0, d1);
    Xor2(d0, d1, d0);
    var t3 := Sum(t2, d2);
    Xor3(d0, d1, d2, t2);
    var t4 := Sum(t3, d3);
    Xor4(d0, d1, d2, d3, t3);
    var t5 := Sum(t4, d4);
    Xor5(d0, d1, d2, d3, d4, t4);
    var t6 := Sum(t5, d5);
    Xor6(d0, d1, d2, d3, d4, d5, t5);
    var t7 := Sum(t6, d6);
    Xor7(d0, d1, d2, d3, d4, d5, d6, t6);
    var t8 := Sum(t7, d7);
    Xor8(d0, d1, d2, d3, d4, d5, d6, d7, t7);
  }

  lemma RightToLeft(d0: bv32, d1: bv32, d2: bv32, d3: bv32, d4: bv32, d5: bv32, d6: bv32, d7: bv32)
    ensures Sum(d0, Sum(d1, Sum(d2, Sum(d3, Sum(d4, Sum(d5, Sum(d6, d7)))))))
         == Sum(Sum(Sum(Sum(Sum(Sum(Sum(d0, d1), d2), d3), d4), d5), d6), d7)
  {
    hide Sum;
    var r5 := Sum(d6, d7);
    var r4 := Sum(d5, r5);
    var r3 := Sum(d4, r4);
    var r2 := Sum(d3, r3);
    var r1 := Sum(d2, r2);
    var l2 := Sum(d0, d1);
    var l3 := Sum(l2, d2);
    var l4 := Sum(l3, d3);
    var l5 := Sum(l4, d4);
    var l6 := Sum(l5, d5);
    SumAssociates(d0, d1, r1);
    SumAssociates(l2, d2, r2);
    SumAssociates(l3, d3, r3);
    SumAssociates(l4, d4, r4);
    SumAssociates(l5, d5, r5);
    SumAssociates(l6, d6, d7);
  }

  lemma Xor2(d0: bv32, d1: bv32, t: bv32)
    requires t == d0
    ensures Sum(t, d1) == d0 ^ d1
  {
  }

  lemma Xor3(d0: bv32, d1: bv32, d2: bv32, t: bv32)
    requires t == d0 ^ d1
    ensures Sum(t, d2) == d0 ^ d1 ^ d2
  {
  }

  lemma Xor4(d0: bv32, d1: bv32, d2: bv32, d3: bv32, t: bv32)
    requires t == d0 ^ d1 ^ d2
    ensures Sum(t, d3) == d0 ^ d1 ^ d2 ^ d3
  {
  }

  lemma Xor5(d0: bv32, d1: bv32, d2: bv32, d3: bv32, d4: bv32, t: bv32)
    requires t == d0 ^ d1 ^ d2 ^ d3
    ensures Sum(t, d4) == d0 ^ d1 ^ d2 ^ d3 ^ d4
  {
  }

  lemma Xor6(d0: bv32, d1: bv32, d2: bv32, d3: bv32, d4: bv32, d5: bv32, t: bv32)
    requires t == d0 ^ d1 ^ d2 ^ d3 ^ d4
    ensures Sum(t, d5) == d0 ^ d1 ^ d2 ^ d3 ^ d4 ^ d5
  {
  }

  lemma Xor7(d0: bv32, d1: bv32, d2: bv32, d3: bv32, d4: bv32, d5: bv32, d6: bv32, t: bv32)
    requires t == d0 ^ d1 ^ d2 ^ d3 ^ d4 ^ d5
    ensures Sum(t, d6) == d0 ^ d1 ^ d2 ^ d3 ^ d4 ^ d5 ^ d6
  {
  }

  lemma Xor8(d0: bv32, d1: bv32, d2: bv32, d3: bv32, d4: bv32, d5: bv32, d6: bv32, d7: bv32, t: bv32)
    requires t == d0 ^ d1 ^ d2 ^ d3 ^ d4 ^ d5 ^ d6
    ensures Sum(t, d7) == d0 ^ d1 ^ d2 ^ d3 ^ d4 ^ d5 ^ d6 ^ d7
  {
  }

  // ---------------------------------------------------------------- high powers, bit by bit

  function Up(c: bv32, bit: bool): bv32 {
    if bit then FlatStep(SquareTable(c)) else SquareTable(c)
  }

  lemma UpIs(n: nat, c: bv32, bit: bool)
    requires Power(n) == c
    ensures Power(2 * n + if bit then 1 else 0) == Up(c, bit)
  {
    hide Power, Square, SquareTable, StepBit, FlatStep;
    FlatStepIs(SquareTable(c));
    SquareOfPower(n);
    SquareIsTable(c);
    PowerStep(2 * n);
  }

  /** One hexadecimal digit of the exponent. */
  lemma Climb(n: nat, c: bv32, digit: nat, c3: bv32, c2: bv32, c1: bv32, c0: bv32)
    requires Power(n) == c && digit < 16
    requires c3 == Up(c, digit >= 8) && c2 == Up(c3, digit / 4 % 2 == 1)
    requires c1 == Up(c2, digit / 2 % 2 == 1) && c0 == Up(c1, digit % 2 == 1)
    ensures Power(16 * n + digit) == c0
  {
    hide Power, Up;
    UpIs(n, c, digit >= 8);
    var n3 := 2 * n + if digit >= 8 then 1 else 0;
    UpIs(n3, c3, digit / 4 % 2 == 1);
    var n2 := 2 * n3 + if digit / 4 % 2 == 1 then 1 else 0;
    UpIs(n2, c2, digit / 2 % 2 == 1);
    var n1 := 2 * n2 + if digit / 2 % 2 == 1 then 1 else 0;
    UpIs(n1, c1, digit % 2 == 1);
  }

  lemma PowerAtFF()
    ensures Power(0xFF) == 0x01B5FD1D
  {
    hide Power;
    PowerZero();
    Climb(0x0, 0x80000000, 15, 0x40000000, 0x10000000, 0x01000000, 0x00010000);
    Climb(0xF, 0x00010000, 15, 0x00000001, 0xB8BC6765, 0x9BA54C6F, 0x01B5FD1D);
  }

  lemma PowerAtFFFF()
    ensures Power(0xFFFF) == 0xDC7B5C5F
  {
    hide Power;
    PowerAtFF();
    Climb(0xFF, 0x01B5FD1D, 15, 0xCAD38E8F, 0x7406FA95, 0x03F9F863, 0xC78C44A1);
    Climb(0xFFF, 0xC78C44A1, 15, 0xC84F001C, 0x9A8F75C0, 0x13FCA91E, 0xDC7B5C5F);
  }

  lemma PowerAtFFFFFF()
    ensures Power(0xFFFFFF) == 0xAEC31A2F
  {
    hide Power;
    PowerAtFFFF();
    Climb(0xFFFF, 0xDC7B5C5F, 15, 0x606C5E34, 0xF6B53986, 0x63FD82D2, 0xE4A90215);
    Climb(0xFFFFF, 0xE4A90215, 15, 0xD91BDB88, 0x2BAD0E9A, 0xBFBCF49C, 0xAEC31A2F);
  }

  lemma PowerAtFFFFFFFF()
    ensures Power(0xFFFFFFFF) == 0x80000000
  {
    hide Power;
    PowerAtFFFFFF();
    Climb(0xFFFFFF, 0xAEC31A2F, 15, 0x5C9CBDDE, 0x9D574428, 0x8A39E3C1, 0x85352D3C);
    Climb(0xFFFFFFF, 0x85352D3C, 15, 0x291A6054, 0x53664BE1, 0x52B55E39, 0x80000000);
  }

  lemma PowerAt55()
    ensures Power(0x55) == 0xF44F2413
  {
    hide Power;
    PowerZero();
    Climb(0x0, 0x80000000, 5, 0x80000000, 0x40000000, 0x20000000, 0x04000000);
    Climb(0x5, 0x04000000, 5, 0x00200000, 0x00000400, 0x958424A2, 0xF44F2413);
  }

  lemma PowerAt5555()
    ensures Power(0x5555) == 0xEBA0264A
  {
    hide Power;
    PowerAt55();
    Climb(0x55, 0xF44F2413, 5, 0x5D46B830, 0xE15528E5, 0x400A5936, 0x4A625CD1);
    Climb(0x555, 0x4A625CD1, 5, 0x2B1A9480, 0x3FC6EFD3, 0x330EB6FB, 0xEBA0264A);
  }

  lemma PowerAt555555()
    ensures Power(0x555555) == 0x4281464D
  {
    hide Power;
    PowerAt5555();
    Climb(0x5555, 0xEBA0264A, 5, 0xEBAC76AC, 0xABA85D50, 0xFA128581, 0xB8678921);
    Climb(0x55555, 0xB8678921, 5, 0xCA97C8F0, 0xA121B3BF, 0xB1F4ED81, 0x4281464D);
  }

  lemma PowerAt55555555()
    ensures Power(0x55555555) == 0xC736EB52
  {
    hide Power;
    PowerAt555555();
    Climb(0x555555, 0x4281464D, 5, 0x9914990E, 0xED9796A7, 0xD6E0CBEE, 0x98ABA02D);
    Climb(0x5555555, 0x98ABA02D, 5, 0x889203AE, 0x0ECB08A8, 0x3954C4C2, 0xC736EB52);
  }

  lemma PowerAt33()
    ensures Power(0x33) == 0x1C26A370
  {
    hide Power;
    PowerZero();
    Climb(0x0, 0x80000000, 3, 0x80000000, 0x80000000, 0x40000000, 0x10000000);
    Climb(0x3, 0x10000000, 3, 0x02000000, 0x00080000, 0x00000040, 0x1C26A370);
  }

  lemma PowerAt3333()
    ensures Power(0x3333) == 0xC1A99CF7
  {
    hide Power;
    PowerAt33();
    Climb(0x33, 0x1C26A370, 3, 0x2EF62886, 0xB9432600, 0x6C820349, 0x56A92869);
    Climb(0x333, 0x56A92869, 3, 0x667EF113, 0x402436D6, 0xFCC1A385, 0xC1A99CF7);
  }

  lemma PowerAt333333()
    ensures Power(0x333333) == 0xC6A740B1
  {
    hide Power;
    PowerAt3333();
    Climb(0x3333, 0xC1A99CF7, 3, 0x16D3418B, 0x68A1AD9F, 0x4BDAB5FA, 0x3B2BE47A);
    Climb(0x33333, 0x3B2BE47A, 3, 0x5A345A10, 0x07368DE9, 0x9D7491A5, 0xC6A740B1);
  }

  lemma PowerAt33333333()
    ensures Power(0x33333333) == 0x84011278
  {
    hide Power;
    PowerAt333333();
    Climb(0x333333, 0xC6A740B1, 3, 0xDDEDFE3F, 0xDD3EA802, 0x5FFB588F, 0x07D548E2);
    Climb(0x3333333, 0x07D548E2, 3, 0x12183E96, 0x03349540, 0x4E21F476, 0x84011278);
  }

  lemma PowerAtF()
    ensures Power(0xF) == 0x00010000
  {
    hide Power;
    PowerZero();
    Climb(0x0, 0x80000000, 15, 0x40000000, 0x10000000, 0x01000000, 0x00010000);
  }

  lemma PowerAtF0F()
    ensures Power(0xF0F) == 0xE01F9DCF
  {
    hide Power;
    PowerAtF();
    Climb(0xF, 0x00010000, 0, 0x00000002, 0xC5B428EF, 0x60C76FE0, 0x9E36506B);
    Climb(0xF0, 0x9E36506B, 15, 0x9C018645, 0xEDA1054E, 0x5FC15C94, 0xE01F9DCF);
  }

  lemma PowerAtF0F0F()
    ensures Power(0xF0F0F) == 0xAF69585A
  {
    hide Power;
    PowerAtF0F();
    Climb(0xF0F, 0xE01F9DCF, 0, 0xCC299ACC, 0xC45FBCA8, 0x0135087E, 0x868460B5);
    Climb(0xF0F0, 0x868460B5, 15, 0xC43AEBBC, 0x0C446B60, 0x8CAB7481, 0xAF69585A);
  }

  lemma PowerAtF0F0F0F()
    ensures Power(0xF0F0F0F) == 0x8C283CA0
  {
    hide Power;
    PowerAtF0F0F();
    Climb(0xF0F0F, 0xAF69585A, 0, 0x756DFD77, 0x7A453053, 0x9E29BBD6, 0xF1D31CA2);
    Climb(0xF0F0F0, 0xF1D31CA2, 15, 0x604C8E8C, 0x079C4BF2, 0x75B99178, 0x8C283CA0);
  }

  lemma PowerAtFF00()
    ensures Power(0xFF00) == 0x3EF534D3
  {
    hide Power;
    PowerAtFF();
    Climb(0xFF, 0x01B5FD1D, 0, 0x4ED61B5F, 0x16D5D82A, 0x278D37C1, 0xF4E5307F);
    Climb(0xFF0, 0xF4E5307F, 0, 0x5DF97B6B, 0x8CCF5292, 0xBA1C8C47, 0x3EF534D3);
  }

  lemma PowerAtFF00FF()
    ensures Power(0xFF00FF) == 0x351C22C9
  {
    hide Power;
    PowerAtFF00();
    Climb(0xFF00, 0x3EF534D3, 15, 0x655C077A, 0x2D3F59B5, 0x19772432, 0xC54796E1);
    Climb(0xFF00F, 0xC54796E1, 15, 0xAC6D574F, 0xF9A08E57, 0x8769F32A, 0x351C22C9);
  }

  lemma PowerAtB8()
    ensures Power(0xB8) == 0x6BF1402C
  {
    hide Power;
    PowerZero();
    Climb(0x0, 0x80000000, 11, 0x40000000, 0x20000000, 0x04000000, 0x00100000);
    Climb(0xB, 0x00100000, 8, 0x00000100, 0x32366282, 0xD3E51BB5, 0x6BF1402C);
  }

  lemma PowerAtB844()
    ensures Power(0xB844) == 0x27844665
  {
    hide Power;
    PowerAtB8();
    Climb(0xB8, 0x6BF1402C, 4, 0x509CC277, 0x632D1396, 0xBBDCC93B, 0xDA9A2808);
    Climb(0xB84, 0xDA9A2808, 4, 0x7A8924CA, 0x202177D3, 0x09916496, 0x27844665);
  }

  lemma PowerAtB84490()
    ensures Power(0xB84490) == 0x8EBE6540
  {
    hide Power;
    PowerAtB844();
    Climb(0xB844, 0x27844665, 9, 0xC486BC77, 0xF91FDA93, 0xEC0CFDA7, 0xFCA54B8F);
    Climb(0xB8449, 0xFCA54B8F, 0, 0x93413ACA, 0x601018EB, 0xA802A1E0, 0x8EBE6540);
  }

  lemma PowerAtB8449066()
    ensures Power(0xB8449066) == 0xFFFFFFFF
  {
    hide Power;
    PowerAtB84490();
    Climb(0xB84490, 0x8EBE6540, 6, 0x2AE22292, 0x997F25B9, 0x400C822F, 0x29A4A151);
    Climb(0xB844906, 0x29A4A151, 6, 0x4817BBB5, 0x050C709B, 0xB05EAB43, 0xFFFFFFFF);
  }

  // ---------------------------------------------------------------- the order

  /** After `n` zero bits the register that stands for 1 is as before. */
  predicate Returns(n: nat) { Power(n) == ONE }

  lemma ReturnsSum(m: nat, n: nat)
    requires Returns(m)
    ensures Returns(m + n) <==> Returns(n)
  {
    hide Shift;
    PowerAdd(m, n);
  }

  lemma {:induction false} ReturnsMod(m: nat, n: nat)
    requires Returns(m) && Returns(n) && n > 0
    ensures Returns(m % n)
    decreases m
  {
    hide Power;
    if m < n {
      SmallMod(m, n);
    } else {
      ReturnsSum(n, m - n);
      ReturnsMod(m - n, n);
      LessOnce(m, n);
    }
  }

  lemma SmallMod(m: nat, n: nat)
    requires m < n
    ensures m % n == m
  {
  }

  lemma LessOnce(m: nat, n: nat)
    requires m >= n > 0
    ensures m % n == (m - n) % n
  {
    var q, r := m / n, m % n;
    assert m == n * q + r;
    MulMonotone(n, q, 0);
    assert n * (q - 1) == n * q - n;
    DivUnique(m - n, n, q - 1, r);
  }

  lemma {:induction false} ReturnsTimes(d: nat, k: nat)
    requires Returns(d)
    ensures Returns(d * k)
  {
    hide Power;
    if k == 0 {
      PowerZero();
      assert d * k == 0;
    } else {
      ReturnsTimes(d, k - 1);
      ReturnsSum(d, d * (k - 1));
      assert d * k == d + d * (k - 1);
    }
  }

  /** Euclid's algorithm stays among the numbers that return. */
  lemma {:induction false} CommonReturn(m: nat, n: nat) returns (d: nat, k: nat, l: nat)
    requires Returns(m) && Returns(n) && m > 0
    ensures d > 0 && Returns(d) && m == d * k && n == d * l
    decreases n
  {
    hide Power, Returns;
    if n == 0 {
      d, k, l := m, 1, 0;
    } else {
      ReturnsMod(m, n);
      d, k, l := CommonReturn(n, m % n);
      Regroup(d, k, l, m, n);
      k, l := k * (m / n) + l, k;
    }
  }

  lemma Regroup(d: nat, k: nat, l: nat, m: nat, n: nat)
    requires n > 0 && n == d * k && m % n == d * l
    ensures m == d * (k * (m / n) + l)
  {
    var q := m / n;
    assert m == n * q + m % n;
    assert d * (k * q + l) == (d * k) * q + d * l;
  }

  ghost predicate Prime(p: nat) {
    p >= 2 && forall j: nat :: 2 <= j < p ==> p % j != 0
  }

  /** A prime that divides a product divides a factor. */
  lemma {:induction false} PrimeDivides(p: nat, a: nat, b: nat)
    requires Prime(p) && 0 < a < p && (a * b) % p == 0
    ensures b % p == 0
    decreases a
  {
    if a > 1 {
      var q, r := p / a, p % a;
      assert r != 0;
      Remainder(p, a, b, q, r);
      PrimeDivides(p, r, b);
    }
  }

  lemma Remainder(p: nat, a: nat, b: nat, q: nat, r: nat)
    requires p > 0 && p == a * q + r && (a * b) % p == 0
    ensures (r * b) % p == 0
  {
    var k := (a * b) / p;
    assert a * b == p * k;
    assert r * b == p * b - (a * b) * q == p * (b - k * q);
    MultipleOf(p, b - k * q, r * b);
  }

  lemma MultipleOf(p: nat, k: int, x: nat)
    requires p > 0 && x == p * k
    ensures x % p == 0
  {
    NotNegative(p, k);
    DivUnique(x, p, k, 0);
  }

  lemma NotNegative(p: nat, k: int)
    requires p > 0 && p * k >= 0
    ensures k >= 0
  {
  }

  /** What divides `p * m` and not the prime `p` divides `m`. */
  lemma Cancel(p: nat, d: nat, e: nat, m: nat) returns (d': nat)
    requires Prime(p) && d * e == p * m && e % p != 0
    ensures d' * e == m
  {
    var r := e % p;
    var q := e / p;
    assert e == p * q + r;
    assert r * d == p * (m - q * d);
    MultipleOf(p, m - q * d, r * d);
    PrimeDivides(p, r, d);
    d' := d / p;
    assert d == p * d';
    assert p * (d' * e) == p * m;
    SameFactor(p, d' * e, m);
  }

  lemma SameFactor(p: nat, x: nat, y: nat)
    requires p > 0 && p * x == p * y
    ensures x == y
  {
    MulMonotone(p, x + 1, y);
    MulMonotone(p, y + 1, x);
    assert p * (x + 1) == p * x + p && p * (y + 1) == p * y + p;
  }

  function NoDivisorUpTo(p: nat, k: nat): bool {
    k < 2 || (p % k != 0 && NoDivisorUpTo(p, k - 1))
  }

  lemma {:induction false} NoDivisor(p: nat, k: nat, j: nat)
    requires NoDivisorUpTo(p, k) && 2 <= j <= k
    ensures p % j != 0
  {
    if j < k { NoDivisor(p, k - 1, j); }
  }

  lemma Trial(p: nat, k: nat)
    requires p >= 2 && NoDivisorUpTo(p, k) && p < (k + 1) * (k + 1)
    ensures Prime(p)
  {
    hide NoDivisorUpTo;
    forall j: nat | 2 <= j < p ensures p % j != 0 {
      if p % j == 0 {
        var q := Cofactor(p, j);
        OneIsSmall(p, j, q, k);
        if j <= k { NoDivisor(p, k, j); } else { NoDivisor(p, k, q); }
      }
    }
  }

  lemma Cofactor(p: nat, j: nat) returns (q: nat)
    requires p > 0 && j > 0 && p % j == 0
    ensures p == j * q && q > 0 && p % q == 0
  {
    q := p / j;
    assert p == j * q;
    MulMonotone(j, q, 0);
    DivUnique(p, q, j, 0);
  }

  lemma OneIsSmall(p: nat, j: nat, q: nat, k: nat)
    requires p == j * q && 2 <= j < p && p < (k + 1) * (k + 1)
    ensures q >= 2 && (j <= k || q <= k)
  {
    MulMonotone(j, k + 1, q);
    MulMonotone(k + 1, k + 1, j);
    MulMonotone(j, q, 1);
  }

  /** Sixteen candidates at a time, by their remainders. */
  lemma Sixteen(p: nat, k: nat)
    requires NoDivisorUpTo(p, k) && k >= 2
    requires p % (k + 1) != 0 && p % (k + 2) != 0 && p % (k + 3) != 0 && p % (k + 4) != 0
    requires p % (k + 5) != 0 && p % (k + 6) != 0 && p % (k + 7) != 0 && p % (k + 8) != 0
    requires p % (k + 9) != 0 && p % (k + 10) != 0 && p % (k + 11) != 0 && p % (k + 12) != 0
    requires p % (k + 13) != 0 && p % (k + 14) != 0 && p % (k + 15) != 0 && p % (k + 16) != 0
    ensures NoDivisorUpTo(p, k + 16)
  {
    forall j: nat | k < j <= k + 16 ensures p % j != 0 {
      var d := j - k;
      assert d == 1 || d == 2 || d == 3 || d == 4 || d == 5 || d == 6 || d == 7 || d == 8
          || d == 9 || d == 10 || d == 11 || d == 12 || d == 13 || d == 14 || d == 15 || d == 16;
    }
    NoDivisorRange(p, k, k + 16);
  }

  lemma {:induction false} NoDivisorRange(p: nat, lo: nat, hi: nat)
    requires lo <= hi && NoDivisorUpTo(p, lo) && forall j: nat :: lo < j <= hi ==> p % j != 0
    ensures NoDivisorUpTo(p, hi)
  {
    if lo < hi { NoDivisorRange(p, lo, hi - 1); }
  }

  lemma NoDivisorBelow64()
    ensures NoDivisorUpTo(65537, 64)
  {
    assert NoDivisorUpTo(65537, 16);
    hide NoDivisorUpTo;
    Sixteen(65537, 16);
    Sixteen(65537, 32);
    Sixteen(65537, 48);
  }

  lemma NoDivisorBelow128()
    ensures NoDivisorUpTo(65537, 128)
  {
    hide NoDivisorUpTo;
    NoDivisorBelow64();
    Sixteen(65537, 64);
    Sixteen(65537, 80);
    Sixteen(65537, 96);
    Sixteen(65537, 112);
  }

  lemma NoDivisorBelow192()
    ensures NoDivisorUpTo(65537, 192)
  {
    hide NoDivisorUpTo;
    NoDivisorBelow128();
    Sixteen(65537, 128);
    Sixteen(65537, 144);
    Sixteen(65537, 160);
    Sixteen(65537, 176);
  }

  lemma NoDivisorBelow256()
    ensures NoDivisorUpTo(65537, 256)
  {
    hide NoDivisorUpTo;
    NoDivisorBelow192();
    Sixteen(65537, 192);
    Sixteen(65537, 208);
    Sixteen(65537, 224);
    Sixteen(65537, 240);
  }

  lemma Primes()
    ensures Prime(3) && Prime(5) && Prime(17) && Prime(257) && Prime(65537)
  {
    hide Prime;
    Trial(3, 1);
    Trial(5, 2);
    Trial(17, 4);
    assert NoDivisorUpTo(257, 16);
    Trial(257, 16);
    NoDivisorBelow256();
    Trial(65537, 256);
  }

  /** A proper divisor of the order divides one of the five quotients of it by a prime. */
  lemma SomePrime(d: nat, e: nat)
    requires d * e == ORDER && e > 1
    ensures e % 3 == 0 || e % 5 == 0 || e % 17 == 0 || e % 257 == 0 || e % 65537 == 0
  {
    hide Prime;
    Primes();
    if e % 3 != 0 && e % 5 != 0 && e % 17 != 0 && e % 257 != 0 && e % 65537 != 0 {
      var d1 := Cancel(3, d, e, 0x5555_5555);
      var d2 := Cancel(5, d1, e, 0x1111_1111);
      var d3 := Cancel(17, d2, e, 0x101_0101);
      var d4 := Cancel(257, d3, e, 65537);
      var d5 := Cancel(65537, d4, e, 1);
      NotOne(d5, e);
      assert false;
    }
  }

  lemma NotOne(d: nat, e: nat)
    requires e > 1
    ensures d * e != 1
  {
    MulMonotone(e, 1, d);
  }

  lemma QuotientReturns(d: nat, e: nat, p: nat, m: nat)
    requires Returns(d) && d * e == p * m && p > 0 && e % p == 0
    ensures Returns(m)
  {
    hide Power, Returns;
    var k := e / p;
    assert e == p * k;
    assert p * (d * k) == p * m;
    SameFactor(p, d * k, m);
    ReturnsTimes(d, k);
  }

  lemma QuotientsDoNotReturn()
    ensures !Returns(0x5555_5555) && !Returns(0x3333_3333) && !Returns(0xF0F_0F0F)
    ensures !Returns(0xFF_00FF) && !Returns(0xFFFF) && Returns(ORDER)
  {
    hide Power;
    PowerAt55555555();
    PowerAt33333333();
    PowerAtF0F0F0F();
    PowerAtFF00FF();
    PowerAtFFFF();
    PowerAtFFFFFFFF();
  }

  /** The polynomial is primitive: X^n is 1 exactly for the multiples of 2^32 - 1. */
  lemma Primitive(n: nat)
    ensures Power(n) == ONE <==> n % ORDER == 0
  {
    hide Power, Returns;
    ReturnsIs(n);
    QuotientsDoNotReturn();
    if n % ORDER == 0 {
      ReturnsTimes(ORDER, n / ORDER);
    } else if Returns(n) {
      ReturnsMod(n, ORDER);
      var d, e, l := CommonReturn(ORDER, n % ORDER);
      OneIsAll(d, e, l, n % ORDER);
      SomePrime(d, e);
      if e % 3 == 0 { QuotientReturns(d, e, 3, 0x5555_5555); }
      else if e % 5 == 0 { QuotientReturns(d, e, 5, 0x3333_3333); }
      else if e % 17 == 0 { QuotientReturns(d, e, 17, 0xF0F_0F0F); }
      else if e % 257 == 0 { QuotientReturns(d, e, 257, 0xFF_00FF); }
      else { QuotientReturns(d, e, 65537, 0xFFFF); }
      assert false;
    }
  }

  lemma ReturnsIs(n: nat)
    ensures Returns(n) <==> Power(n) == ONE
  {
  }

  lemma OneIsAll(d: nat, e: nat, l: nat, r: nat)
    requires d * e == ORDER && d * l == r && 0 < r < ORDER
    ensures e > 1
  {
    MulMonotone(d, e, 1);
    MulMonotone(d, l, 0);
    MulMonotone(d, 1, l);
  }

  // ---------------------------------------------------------------- zero bytes in front

  lemma SumIsZero(a: bv32, b: bv32)
    ensures Sum(a, b) == 0 <==> a == b
  {
    hide Sum;
    SumSelf(b);
    if Sum(a, b) == 0 { SumCancels(a, b, b); }
  }

  lemma ShiftInjective(a: bv32, b: bv32, n: nat)
    requires Shift(a, n) == Shift(b, n)
    ensures a == b
  {
    hide Shift, Sum;
    ShiftLinear(a, b, n);
    SumIsZero(Shift(a, n), Shift(b, n));
    ZerosKeepNonZero(Sum(a, b), n);
    SumIsZero(a, b);
  }

  lemma NoDifference(xs: seq<bool>)
    ensures Diff(xs, xs) == Zeros(|xs|)
  {
    AllZeros(Diff(xs, xs));
  }

  /** The same message takes different registers to different registers. */
  lemma DivideInjective(a: bv32, b: bv32, xs: seq<bool>)
    requires DivideBits(a, xs) == DivideBits(b, xs)
    ensures a == b
  {
    hide Shift, Sum, DivideBits, Diff;
    DivideLinear(a, b, xs, xs);
    NoDifference(xs);
    DivideZeros(Sum(a, b), |xs|);
    SumIsZero(DivideBits(a, xs), DivideBits(b, xs));
    ZerosKeepNonZero(Sum(a, b), |xs|);
    SumIsZero(a, b);
  }

  /** The register that division starts from comes back exactly after multiples of 2^32 - 1 zero bits. */
  lemma OnesReturn(n: nat)
    ensures Shift(ONES, n) == ONES <==> n % ORDER == 0
  {
    hide Power, Shift;
    Primitive(n);
    PowerAtB8449066();
    PowerAdd(0xB844_9066, n);
    PowerAdd(n, 0xB844_9066);
    PowerAdd(0, 0xB844_9066);
    PowerZero();
    if Shift(ONES, n) == ONES { ShiftInjective(Power(n), ONE, 0xB844_9066); }
  }

  function ZeroBytes(m: nat): (z: seq<bv8>)
    ensures |z| == m
  {
    if m == 0 then [] else [0] + ZeroBytes(m - 1)
  }

  lemma {:induction false} ZeroByteBits(m: nat)
    ensures Bits(ZeroBytes(m)) == Zeros(8 * m)
  {
    if m > 0 {
      ZeroByteBits(m - 1);
      OneZeroByte();
      ZerosAppend(8, 8 * (m - 1));
      hide LowBits;
      assert ZeroBytes(m)[1..] == ZeroBytes(m - 1);
    }
  }

  lemma OneZeroByte()
    ensures ByteBits(0) == Zeros(8)
  {
    UpperHasNoLowBits(0);
    assert Upper(0) == 0 == Wide(0);
    hide LowBits;
  }

  lemma {:induction false} ZerosAppend(i: nat, n: nat)
    ensures Zeros(i) + Zeros(n) == Zeros(i + n)
  {
    if i > 0 {
      ZerosAppend(i - 1, n);
      assert [false] + Zeros(i - 1) + Zeros(n) == [false] + (Zeros(i - 1) + Zeros(n));
    } else {
      assert [] + Zeros(n) == Zeros(n);
    }
  }

  lemma EightTimes(m: nat)
    ensures (8 * m) % ORDER == 0 <==> m % ORDER == 0
  {
    if (8 * m) % ORDER == 0 {
      var k := (8 * m) / ORDER;
      MultipleOf(ORDER, 0x2000_0000 * k - m, m);
    }
    if m % ORDER == 0 { MultipleOf(ORDER, 8 * (m / ORDER), 8 * m); }
  }

  /** Zero bytes in front of a buffer change its checksum, unless their number is a multiple of 2^32 - 1. */
  lemma LeadingZeros(buf: seq<bv8>, m: nat)
    ensures Crc(0, ZeroBytes(m) + buf) == Crc(0, buf) <==> m % ORDER == 0
  {
    hide DivideBits, Sum, Bits, Shift;
    BitsAppend(ZeroBytes(m), buf);
    ZeroByteBits(m);
    DivideAppend(ONES, Zeros(8 * m), Bits(buf));
    DivideZeros(ONES, 8 * m);
    OnesReturn(8 * m);
    EightTimes(m);
    StartsWithOnes();
    var a, b := DivideBits(Shift(ONES, 8 * m), Bits(buf)), DivideBits(ONES, Bits(buf));
    if Crc(0, ZeroBytes(m) + buf) == Crc(0, buf) {
      SumCancels(a, b, 0xFFFFFFFF);
      DivideInjective(Shift(ONES, 8 * m), ONES, Bits(buf));
    }
  }

  lemma StartsWithOnes()
    ensures Sum(0, 0xFFFFFFFF) == ONES
  {
  }

  // ---------------------------------------------------------------- the checksum behind its buffer

  /** The four bytes of a checksum, lowest first. */
  function LittleEndian(c: bv32): seq<bv8> {
    [LowByte(c), LowByte(Above(c)), LowByte(Above(Above(c))), LowByte(Above(Above(Above(c))))]
  }

  lemma {:induction false} LowBitsAdd(m: bv32, i: nat, n: nat)
    ensures LowBits(m, i + n) == LowBits(m, i) + LowBits(Drop(m, i), n)
    decreases i
  {
    hide Half, Low;
    if i > 0 {
      LowBitsAdd(Half(m), i - 1, n);
    } else {
      assert [] + LowBits(m, n) == LowBits(m, n);
    }
  }

  lemma ByteOf(c: bv32)
    ensures ByteBits(LowByte(c)) == LowBits(c, 8)
  {
  }

  lemma LittleEndianBits(c: bv32)
    ensures Bits(LittleEndian(c)) == LowBits(c, 32)
  {
    hide LowBits, Drop, Above, LowByte;
    ByteOf(c);
    ByteOf(Above(c));
    ByteOf(Above(Above(c)));
    ByteOf(Above(Above(Above(c))));
    Drop8(c);
    Drop8(Above(c));
    Drop8(Above(Above(c)));
    LowBitsAdd(c, 8, 24);
    LowBitsAdd(Above(c), 8, 16);
    LowBitsAdd(Above(Above(c)), 8, 8);
    FourByteBits(LowByte(c), LowByte(Above(c)), LowByte(Above(Above(c))), LowByte(Above(Above(Above(c)))));
  }

  lemma FourByteBits(p: bv8, q: bv8, r: bv8, s: bv8)
    ensures Bits([p, q, r, s]) == ByteBits(p) + (ByteBits(q) + (ByteBits(r) + ByteBits(s)))
  {
    hide LowBits, ByteBits;
    assert [p, q, r, s][1..] == [q, r, s] && [q, r, s][1..] == [r, s] && [r, s][1..] == [s] && [s][1..] == [];
    assert Bits([s]) == ByteBits(s);
    assert Bits([r, s]) == ByteBits(r) + Bits([s]);
    assert Bits([q, r, s]) == ByteBits(q) + Bits([r, s]);
  }

  lemma SumOfComplement(r: bv32)
    ensures Sum(r, Sum(r, 0xFFFFFFFF)) == ONES
  {
  }

  /** A buffer followed by its own checksum, lowest byte first, has a checksum that does not depend on it,
      whatever the seed. */
  lemma Residue(seed: bv32, buf: seq<bv8>)
    ensures Crc(seed, buf + LittleEndian(Crc(seed, buf))) == 0x2144DF1C
  {
    hide DivideBits, Sum, Bits, LittleEndian, LowBits, Shift, Drop;
    var start := Sum(seed, 0xFFFFFFFF);
    var r := DivideBits(start, Bits(buf));
    var c := Sum(r, 0xFFFFFFFF);
    BitsAppend(buf, LittleEndian(c));
    LittleEndianBits(c);
    DivideAppend(start, Bits(buf), LowBits(c, 32));
    AddAhead(r, c, 32);
    SumOfComplement(r);
    NothingLeft(c);
    SumZero(DivideBits(r, LowBits(c, 32)));
    OnesAfter32();
  }

  lemma EightFlat(c: bv32, c1: bv32, c2: bv32, c3: bv32, c4: bv32, c5: bv32, c6: bv32, c7: bv32, c8: bv32)
    requires c1 == FlatStep(c) && c2 == FlatStep(c1) && c3 == FlatStep(c2) && c4 == FlatStep(c3)
    requires c5 == FlatStep(c4) && c6 == FlatStep(c5) && c7 == FlatStep(c6) && c8 == FlatStep(c7)
    ensures Shift(c, 8) == c8
  {
    hide Shift, FlatStep, StepBit;
    FlatStepIs(c);
    FlatStepIs(c1);
    FlatStepIs(c2);
    FlatStepIs(c3);
    FlatStepIs(c4);
    FlatStepIs(c5);
    FlatStepIs(c6);
    FlatStepIs(c7);
    ShiftStep(c, 8);
    ShiftStep(c1, 7);
    ShiftStep(c2, 6);
    ShiftStep(c3, 5);
    ShiftStep(c4, 4);
    ShiftStep(c5, 3);
    ShiftStep(c6, 2);
    ShiftStep(c7, 1);
    NoShift(c8);
  }

  lemma ShiftStep(c: bv32, n: nat)
    requires n > 0
    ensures Shift(c, n) == Shift(StepBit(c, false), n - 1)
  {
    hide StepBit;
  }

  lemma NoShift(c: bv32)
    ensures Shift(c, 0) == c
  {
  }

  /** One byte of the message, from the register `c`. */
  lemma NextByte(c: bv32, buf: seq<bv8>, k: nat, x: bv32, c1: bv32, c2: bv32, c3: bv32, c4: bv32, c5: bv32, c6: bv32, c7: bv32, c8: bv32)
    requires k < |buf| && x == Sum(c, Wide(buf[k]))
    requires c1 == FlatStep(x) && c2 == FlatStep(c1) && c3 == FlatStep(c2) && c4 == FlatStep(c3)
    requires c5 == FlatStep(c4) && c6 == FlatStep(c5) && c7 == FlatStep(c6) && c8 == FlatStep(c7)
    ensures DivideBits(c, Bits(buf[k..])) == DivideBits(c8, Bits(buf[k + 1..]))
  {
    hide DivideBits, Shift, FlatStep, Sum, Drop, LowBits, Wide;
    EightFlat(x, c1, c2, c3, c4, c5, c6, c7, c8);
    AddAhead(c, Wide(buf[k]), 8);
    Drop8(Wide(buf[k]));
    NothingAbove(buf[k]);
    SumZero(DivideBits(c, ByteBits(buf[k])));
    assert buf[k..][1..] == buf[k + 1..];
    DivideAppend(c, ByteBits(buf[k]), Bits(buf[k + 1..]));
  }

  lemma OnesAfter32()
    ensures Sum(Shift(ONES, 32), 0xFFFFFFFF) == 0x2144DF1C
  {
    hide Shift;
    ShiftAdd(ONES, 8, 24);
    ShiftAdd(Shift(ONES, 8), 8, 16);
    ShiftAdd(Shift(Shift(ONES, 8), 8), 8, 8);
    EightFlat(0xFFFFFFFF, 0x92477CDF, 0xA49B3D4F, 0xBFF51D87, 0xB2420DE3, 0xB49985D1, 0xB7F441C8, 0x5BFA20E4, 0x2DFD1072);
    EightFlat(0x2DFD1072, 0x16FE8839, 0xE6C7C73C, 0x7363E39E, 0x39B1F1CF, 0xF1607BC7, 0x9508BEC3, 0xA73CDC41, 0xBE26ED00);
    EightFlat(0xBE26ED00, 0x5F137680, 0x2F89BB40, 0x17C4DDA0, 0x0BE26ED0, 0x05F13768, 0x02F89BB4, 0x017C4DDA, 0x00BE26ED);
    EightFlat(0x00BE26ED, 0xEDE79056, 0x76F3C82B, 0xD6C16735, 0x86D830BA, 0x436C185D, 0xCC0E8F0E, 0x66074787, 0xDEBB20E3);
  }

  /** The check value of the algorithm, of the digits 1 to 9. */
  lemma CheckValue()
    ensures Crc(0, [0x31, 0x32, 0x33, 0x34, 0x35, 0x36, 0x37, 0x38, 0x39]) == 0xCBF43926
  {
    hide DivideBits, Shift, Bits;
    var buf: seq<bv8> := [0x31, 0x32, 0x33, 0x34, 0x35, 0x36, 0x37, 0x38, 0x39];
    StartsWithOnes();
    assert buf[0..] == buf && buf[9..] == [];
    NextByte(0xFFFFFFFF, buf, 0, 0xFFFFFFCE, 0x7FFFFFE7, 0xD2477CD3, 0x849B3D49, 0xAFF51D84, 0x57FA8EC2, 0x2BFD4761, 0xF8462090, 0x7C231048);
    NextByte(0x7C231048, buf, 1, 0x7C23107A, 0x3E11883D, 0xF2B0473E, 0x7958239F, 0xD11492EF, 0x8532CA57, 0xAF21E60B, 0xBA287025, 0xB0ACBB32);
    NextByte(0xB0ACBB32, buf, 2, 0xB0ACBB01, 0xB5EEDEA0, 0x5AF76F50, 0x2D7BB7A8, 0x16BDDBD4, 0x0B5EEDEA, 0x05AF76F5, 0xEF6F385A, 0x77B79C2D);
    NextByte(0x77B79C2D, buf, 3, 0x77B79C19, 0xD6634D2C, 0x6B31A696, 0x3598D34B, 0xF774EA85, 0x9602F662, 0x4B017B31, 0xC8383EB8, 0x641C1F5C);
    NextByte(0x641C1F5C, buf, 4, 0x641C1F69, 0xDFB68C94, 0x6FDB464A, 0x37EDA325, 0xF64E52B2, 0x7B272959, 0xD02B178C, 0x68158BC6, 0x340AC5E3);
    NextByte(0x340AC5E3, buf, 5, 0x340AC5D5, 0xF7BDE1CA, 0x7BDEF0E5, 0xD057FB52, 0x682BFDA9, 0xD9AD7DF4, 0x6CD6BEFA, 0x366B5F7D, 0xF68D2C9E);
    NextByte(0xF68D2C9E, buf, 6, 0xF68D2CA9, 0x96FE1574, 0x4B7F0ABA, 0x25BF855D, 0xFF67418E, 0x7FB3A0C7, 0xD2615343, 0x84882A81, 0xAFFC9660);
    NextByte(0xAFFC9660, buf, 7, 0xAFFC9658, 0x57FE4B2C, 0x2BFF2596, 0x15FF92CB, 0xE7474A45, 0x9E1B2602, 0x4F0D9301, 0xCA3E4AA0, 0x651F2550);
    NextByte(0x651F2550, buf, 8, 0x651F2569, 0xDF371194, 0x6F9B88CA, 0x37CDC465, 0xF65E6112, 0x7B2F3089, 0xD02F1B64, 0x68178DB2, 0x340BC6D9);
    DivideNothing(0x340BC6D9);
  }
}
