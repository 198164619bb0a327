/** CRC-32C (section 12.1 of RFC 3720) and the sliced, aligned loop of util/crc32c.cc. */
module Crc32c {
  import opened Crc32cTables

  // ---- The bit-at-a-time reference -------------------------------------------------

  const POLY: bv32 := 0x82f6_3b78

  /** One shift of the reflected register, dividing by the Castagnoli polynomial. */
  function Shift(x: bv32): bv32 {
    if x & 1 == 1 then (x >> 1) ^ POLY else x >> 1
  }

  /** The n lowest bits of b enter the register one at a time, lowest first. */
  function FeedBits(l: bv32, b: bv8, n: nat): bv32
    decreases n
  {
    if n == 0 then l else FeedBits(Shift(l ^ ((b & 1) as bv32)), b >> 1, n - 1)
  }

  function FeedByte(l: bv32, b: bv8): bv32 {
    FeedBits(l, b, 8)
  }

  /** The register after every bit of s has entered it. */
  function Feed(l: bv32, s: seq<bv8>): bv32
    decreases |s|
  {
    if s == [] then l else Feed(FeedByte(l, s[0]), s[1..])
  }

  /** The register is complemented on the way in and on the way out. */
  function Flip(x: bv32): bv32 {
    x ^ 0xffff_ffff
  }

  /** The checksum of A ++ s, where init is the checksum of A. */
  function Extended(init: bv32, s: seq<bv8>): bv32 {
    Flip(Feed(Flip(init), s))
  }

  /** crc32c::Value. */
  function Value(s: seq<bv8>): bv32 {
    Extended(0, s)
  }

  // ---- Eight shifts at once, and the tables ----------------------------------------

  function Shifts(x: bv32, n: nat): bv32
    decreases n
  {
    if n == 0 then x else Shifts(Shift(x), n - 1)
  }

  function Shift8(x: bv32): bv32 {
    Shifts(x, 8)
  }

  /** Xor as a function of its own: proofs that hide it reason by substitution, not by bits. */
  function Xor(x: bv32, y: bv32): bv32 {
    x ^ y
  }

  lemma XorIs(x: bv32, y: bv32)
    ensures Xor(x, y) == x ^ y
  {
  }

  lemma XorAssoc(x: bv32, y: bv32, z: bv32)
    ensures Xor(Xor(x, y), z) == Xor(x, Xor(y, z))
  {
  }

  lemma XorCommutes(x: bv32, y: bv32)
    ensures Xor(x, y) == Xor(y, x)
  {
  }

  lemma XorSelf(x: bv32, y: bv32)
    ensures Xor(Xor(x, y), y) == x
  {
  }

  function Half(x: bv32): bv32 {
    x >> 1
  }

  predicate Odd(x: bv32) {
    x & 1 == 1
  }

  lemma ShiftByCases(x: bv32)
    ensures Shift(x) == if Odd(x) then Xor(Half(x), POLY) else Half(x)
  {
  }

  lemma HalfLinear(x: bv32, y: bv32)
    ensures Half(Xor(x, y)) == Xor(Half(x), Half(y))
  {
  }

  lemma OddLinear(x: bv32, y: bv32)
    ensures Odd(Xor(x, y)) == (Odd(x) != Odd(y))
  {
  }

  lemma ShiftLinear(x: bv32, y: bv32)
    ensures Shift(Xor(x, y)) == Xor(Shift(x), Shift(y))
  {
    hide *;
    ShiftByCases(x);
    ShiftByCases(y);
    ShiftByCases(Xor(x, y));
    HalfLinear(x, y);
    OddLinear(x, y);
    var u, v := Half(x), Half(y);
    XorAssoc(u, v, POLY);
    XorAssoc(u, POLY, v);
    XorCommutes(POLY, v);
    XorAssoc(Xor(u, POLY), v, POLY);
    XorSelf(Xor(u, v), POLY);
  }

  lemma {:induction false} ShiftsLinear(x: bv32, y: bv32, n: nat)
    ensures Shifts(Xor(x, y), n) == Xor(Shifts(x, n), Shifts(y, n))
    decreases n
  {
    hide Shift, Xor;
    if n != 0 {
      ShiftLinear(x, y);
      ShiftsLinear(Shift(x), Shift(y), n - 1);
    }
  }

  lemma Shift8Linear(x: bv32, y: bv32)
    ensures Shift8(Xor(x, y)) == Xor(Shift8(x), Shift8(y))
  {
    hide Shifts, Xor;
    ShiftsLinear(x, y, 8);
  }

  function Twice(z: bv32): bv32 {
    z << 1
  }

  /** z is zero under the mask m. */
  predicate Clear(z: bv32, m: bv32) {
    z & m == 0
  }

  lemma ShiftOfTwice(z: bv32, m: bv32)
    requires Clear(z, m) && m & 0x8000_0000 == 0x8000_0000
    ensures Shift(Twice(z)) == z
    ensures Clear(Twice(z), m << 1)
  {
    assert z & 0x8000_0000 == 0;
  }

  function Up8(z: bv32): bv32 {
    z << 8
  }

  lemma Up8IsTwices(z: bv32)
    ensures Up8(z) == Twice(Twice(Twice(Twice(Twice(Twice(Twice(Twice(z))))))))
  {
  }

  lemma Shift8Unroll(x: bv32)
    ensures Shift8(x) == Shift(Shift(Shift(Shift(Shift(Shift(Shift(Shift(x))))))))
  {
    hide Shift;
    assert Shifts(Shift(Shift(Shift(Shift(x)))), 4)
        == Shift(Shift(Shift(Shift(Shift(Shift(Shift(Shift(x))))))));
  }

  /** Eight zero bits at the bottom just fall out. */
  lemma Shift8OfUp8(z: bv32)
    requires Clear(z, 0xff00_0000)
    ensures Shift8(Up8(z)) == z
  {
    hide *;
    Up8IsTwices(z);
    Shift8Unroll(Up8(z));
    var z1 := Twice(z);
    var z2 := Twice(z1);
    var z3 := Twice(z2);
    var z4 := Twice(z3);
    var z5 := Twice(z4);
    var z6 := Twice(z5);
    var z7 := Twice(z6);
    ShiftOfTwice(z, 0xff00_0000);
    ShiftOfTwice(z1, 0xfe00_0000);
    ShiftOfTwice(z2, 0xfc00_0000);
    ShiftOfTwice(z3, 0xf800_0000);
    ShiftOfTwice(z4, 0xf000_0000);
    ShiftOfTwice(z5, 0xe000_0000);
    ShiftOfTwice(z6, 0xc000_0000);
    ShiftOfTwice(z7, 0x8000_0000);
  }

  function Wide(b: bv8): bv32 {
    b as bv32
  }

  lemma LowestBitSplits(b: bv8)
    ensures Wide(b) == Xor(Wide(b & 1), Twice(Wide(b >> 1)))
    ensures Clear(Wide(b >> 1), 0x8000_0000)
  {
  }

  lemma WideZero(l: bv32)
    ensures Xor(l, Wide(0)) == l
  {
  }

  /** A byte with no bits from n up, as a recursion on n. */
  predicate Below(b: bv8, n: nat)
    decreases n
  {
    if n == 0 then b == 0 else Below(b >> 1, n - 1)
  }

  lemma BelowEight(b: bv8)
    ensures Below(b, 8)
  {
    assert Below(b >> 1 >> 1 >> 1 >> 1, 4);
  }

  lemma FeedBitsUnfold(l: bv32, b: bv8, n: nat)
    requires n != 0
    ensures FeedBits(l, b, n) == FeedBits(Shift(Xor(l, Wide(b & 1))), b >> 1, n - 1)
  {
    hide Shift;
  }

  /** Feeding n bits one at a time is one xor and n shifts. */
  lemma {:induction false} FeedBitsIsShifts(l: bv32, b: bv8, n: nat)
    requires Below(b, n)
    ensures FeedBits(l, b, n) == Shifts(Xor(l, Wide(b)), n)
    decreases n
  {
    hide Xor, Wide, Shift, Twice, Clear;
    if n == 0 {
      WideZero(l);
    } else {
      var low, rest := Wide(b & 1), Wide(b >> 1);
      FeedBitsUnfold(l, b, n);
      LowestBitSplits(b);
      XorAssoc(l, low, Twice(rest));
      ShiftLinear(Xor(l, low), Twice(rest));
      ShiftOfTwice(rest, 0x8000_0000);
      FeedBitsIsShifts(Shift(Xor(l, low)), b >> 1, n - 1);
    }
  }

  /** Feeding a byte bit by bit is one xor and eight shifts. */
  lemma FeedByteIsShift8(l: bv32, b: bv8)
    ensures FeedByte(l, b) == Shift8(Xor(l, Wide(b)))
  {
    hide FeedBits, Shifts, Xor, Wide, Below;
    BelowEight(b);
    FeedBitsIsShifts(l, b, 8);
  }

  /** Eight shifts in a row. */
  function Eight(x: bv32): bv32 {
    Shift(Shift(Shift(Shift(Shift(Shift(Shift(Shift(x))))))))
  }

  lemma EightIsShift8(x: bv32)
    ensures Eight(x) == Shift8(x)
  {
    hide Shift;
    Shift8Unroll(x);
  }

  lemma Table0Rows0(j: bv8)
    requires j < 16
    ensures Table0Row0(j) == Eight(Wide(j | 0))
    ensures Table0Row1(j) == Eight(Wide(j | 16))
    ensures Table0Row2(j) == Eight(Wide(j | 32))
    ensures Table0Row3(j) == Eight(Wide(j | 48))
  {
  }

  lemma Table0Rows1(j: bv8)
    requires j < 16
    ensures Table0Row4(j) == Eight(Wide(j | 64))
    ensures Table0Row5(j) == Eight(Wide(j | 80))
    ensures Table0Row6(j) == Eight(Wide(j | 96))
    ensures Table0Row7(j) == Eight(Wide(j | 112))
  {
  }

  lemma Table0Rows2(j: bv8)
    requires j < 16
    ensures Table0Row8(j) == Eight(Wide(j | 128))
    ensures Table0Row9(j) == Eight(Wide(j | 144))
    ensures Table0Row10(j) == Eight(Wide(j | 160))
    ensures Table0Row11(j) == Eight(Wide(j | 176))
  {
  }

  lemma Table0Rows3(j: bv8)
    requires j < 16
    ensures Table0Row12(j) == Eight(Wide(j | 192))
    ensures Table0Row13(j) == Eight(Wide(j | 208))
    ensures Table0Row14(j) == Eight(Wide(j | 224))
    ensures Table0Row15(j) == Eight(Wide(j | 240))
  {
  }

  /** Table 0 is a byte advanced by one byte. */
  lemma Table0Entry(i: bv8)
    ensures Table0(i) == Shift8(Wide(i))
  {
    hide Shift, Wide, Eight, Shift8, Table0Row0, Table0Row1, Table0Row2, Table0Row3, Table0Row4, Table0Row5,
      Table0Row6, Table0Row7, Table0Row8, Table0Row9, Table0Row10, Table0Row11, Table0Row12, Table0Row13,
      Table0Row14, Table0Row15;
    Table0Rows0(i & 15);
    Table0Rows1(i & 15);
    Table0Rows2(i & 15);
    Table0Rows3(i & 15);
    EightIsShift8(Wide(i));
  }

  lemma Table1Rows0(j: bv8)
    requires j < 16
    ensures Table1Row0(j) == Eight(Table0Row0(j))
    ensures Table1Row1(j) == Eight(Table0Row1(j))
    ensures Table1Row2(j) == Eight(Table0Row2(j))
    ensures Table1Row3(j) == Eight(Table0Row3(j))
  {
  }

  lemma Table1Rows1(j: bv8)
    requires j < 16
    ensures Table1Row4(j) == Eight(Table0Row4(j))
    ensures Table1Row5(j) == Eight(Table0Row5(j))
    ensures Table1Row6(j) == Eight(Table0Row6(j))
    ensures Table1Row7(j) == Eight(Table0Row7(j))
  {
  }

  lemma Table1Rows2(j: bv8)
    requires j < 16
    ensures Table1Row8(j) == Eight(Table0Row8(j))
    ensures Table1Row9(j) == Eight(Table0Row9(j))
    ensures Table1Row10(j) == Eight(Table0Row10(j))
    ensures Table1Row11(j) == Eight(Table0Row11(j))
  {
  }

  lemma Table1Rows3(j: bv8)
    requires j < 16
    ensures Table1Row12(j) == Eight(Table0Row12(j))
    ensures Table1Row13(j) == Eight(Table0Row13(j))
    ensures Table1Row14(j) == Eight(Table0Row14(j))
    ensures Table1Row15(j) == Eight(Table0Row15(j))
  {
  }

  /** Table 1 is table 0 advanced by one byte. */
  lemma Table1Step(i: bv8)
    ensures Table1(i) == Shift8(Table0(i))
  {
    hide Shift, Wide, Eight, Shift8, Table1Row0, Table1Row1, Table1Row2, Table1Row3, Table1Row4, Table1Row5,
      Table1Row6, Table1Row7, Table1Row8, Table1Row9, Table1Row10, Table1Row11, Table1Row12, Table1Row13,
      Table1Row14, Table1Row15, Table0Row0, Table0Row1, Table0Row2, Table0Row3, Table0Row4, Table0Row5, Table0Row6,
      Table0Row7, Table0Row8, Table0Row9, Table0Row10, Table0Row11, Table0Row12, Table0Row13, Table0Row14,
      Table0Row15;
    Table1Rows0(i & 15);
    Table1Rows1(i & 15);
    Table1Rows2(i & 15);
    Table1Rows3(i & 15);
    EightIsShift8(Table0(i));
  }

  lemma Table2Rows0(j: bv8)
    requires j < 16
    ensures Table2Row0(j) == Eight(Table1Row0(j))
    ensures Table2Row1(j) == Eight(Table1Row1(j))
    ensures Table2Row2(j) == Eight(Table1Row2(j))
    ensures Table2Row3(j) == Eight(Table1Row3(j))
  {
  }

  lemma Table2Rows1(j: bv8)
    requires j < 16
    ensures Table2Row4(j) == Eight(Table1Row4(j))
    ensures Table2Row5(j) == Eight(Table1Row5(j))
    ensures Table2Row6(j) == Eight(Table1Row6(j))
    ensures Table2Row7(j) == Eight(Table1Row7(j))
  {
  }

  lemma Table2Rows2(j: bv8)
    requires j < 16
    ensures Table2Row8(j) == Eight(Table1Row8(j))
    ensures Table2Row9(j) == Eight(Table1Row9(j))
    ensures Table2Row10(j) == Eight(Table1Row10(j))
    ensures Table2Row11(j) == Eight(Table1Row11(j))
  {
  }

  lemma Table2Rows3(j: bv8)
    requires j < 16
    ensures Table2Row12(j) == Eight(Table1Row12(j))
    ensures Table2Row13(j) == Eight(Table1Row13(j))
    ensures Table2Row14(j) == Eight(Table1Row14(j))
    ensures Table2Row15(j) == Eight(Table1Row15(j))
  {
  }

  /** Table 2 is table 1 advanced by one byte. */
  lemma Table2Step(i: bv8)
    ensures Table2(i) == Shift8(Table1(i))
  {
    hide Shift, Wide, Eight, Shift8, Table2Row0, Table2Row1, Table2Row2, Table2Row3, Table2Row4, Table2Row5,
      Table2Row6, Table2Row7, Table2Row8, Table2Row9, Table2Row10, Table2Row11, Table2Row12, Table2Row13,
      Table2Row14, Table2Row15, Table1Row0, Table1Row1, Table1Row2, Table1Row3, Table1Row4, Table1Row5, Table1Row6,
      Table1Row7, Table1Row8, Table1Row9, Table1Row10, Table1Row11, Table1Row12, Table1Row13, Table1Row14,
      Table1Row15;
    Table2Rows0(i & 15);
    Table2Rows1(i & 15);
    Table2Rows2(i & 15);
    Table2Rows3(i & 15);
    EightIsShift8(Table1(i));
  }

  lemma Table3Rows0(j: bv8)
    requires j < 16
    ensures Table3Row0(j) == Eight(Table2Row0(j))
    ensures Table3Row1(j) == Eight(Table2Row1(j))
    ensures Table3Row2(j) == Eight(Table2Row2(j))
    ensures Table3Row3(j) == Eight(Table2Row3(j))
  {
  }

  lemma Table3Rows1(j: bv8)
    requires j < 16
    ensures Table3Row4(j) == Eight(Table2Row4(j))
    ensures Table3Row5(j) == Eight(Table2Row5(j))
    ensures Table3Row6(j) == Eight(Table2Row6(j))
    ensures Table3Row7(j) == Eight(Table2Row7(j))
  {
  }

  lemma Table3Rows2(j: bv8)
    requires j < 16
    ensures Table3Row8(j) == Eight(Table2Row8(j))
    ensures Table3Row9(j) == Eight(Table2Row9(j))
    ensures Table3Row10(j) == Eight(Table2Row10(j))
    ensures Table3Row11(j) == Eight(Table2Row11(j))
  {
  }

  lemma Table3Rows3(j: bv8)
    requires j < 16
    ensures Table3Row12(j) == Eight(Table2Row12(j))
    ensures Table3Row13(j) == Eight(Table2Row13(j))
    ensures Table3Row14(j) == Eight(Table2Row14(j))
    ensures Table3Row15(j) == Eight(Table2Row15(j))
  {
  }

  /** Table 3 is table 2 advanced by one byte. */
  lemma Table3Step(i: bv8)
    ensures Table3(i) == Shift8(Table2(i))
  {
    hide Shift, Wide, Eight, Shift8, Table3Row0, Table3Row1, Table3Row2, Table3Row3, Table3Row4, Table3Row5,
      Table3Row6, Table3Row7, Table3Row8, Table3Row9, Table3Row10, Table3Row11, Table3Row12, Table3Row13,
      Table3Row14, Table3Row15, Table2Row0, Table2Row1, Table2Row2, Table2Row3, Table2Row4, Table2Row5, Table2Row6,
      Table2Row7, Table2Row8, Table2Row9, Table2Row10, Table2Row11, Table2Row12, Table2Row13, Table2Row14,
      Table2Row15;
    Table3Rows0(i & 15);
    Table3Rows1(i & 15);
    Table3Rows2(i & 15);
    Table3Rows3(i & 15);
    EightIsShift8(Table2(i));
  }

  lemma {:induction false} ShiftsSum(x: bv32, m: nat, n: nat)
    ensures Shifts(x, m + n) == Shifts(Shifts(x, m), n)
    decreases m
  {
    hide Shift;
    if m > 0 {
      ShiftsSum(Shift(x), m - 1, n);
    }
  }

  /** An entry of table 1, 2 or 3 is its index advanced by two, three or four bytes. */
  lemma Table1Entry(i: bv8)
    ensures Table1(i) == Shifts(Wide(i), 16)
  {
    hide Table0, Table1, Wide, Shifts;
    Table0Entry(i);
    Table1Step(i);
    ShiftsSum(Wide(i), 8, 8);
  }

  lemma Table2Entry(i: bv8)
    ensures Table2(i) == Shifts(Wide(i), 24)
  {
    hide Table1, Table2, Wide, Shifts;
    Table1Entry(i);
    Table2Step(i);
    ShiftsSum(Wide(i), 16, 8);
  }

  lemma Table3Entry(i: bv8)
    ensures Table3(i) == Shifts(Wide(i), 32)
  {
    hide Table2, Table3, Wide, Shifts;
    Table2Entry(i);
    Table3Step(i);
    ShiftsSum(Wide(i), 24, 8);
  }

  // ---- The loop bodies of Extend ---------------------------------------------------

  /** STEP1: one byte through table 0. */
  function Step1(l: bv32, b: bv8): bv32 {
    Table0((l & 0xff) as bv8 ^ b) ^ (l >> 8)
  }

  /** LE_LOAD32. */
  function Load32(b0: bv8, b1: bv8, b2: bv8, b3: bv8): bv32 {
    (b0 as bv32) | (b1 as bv32 << 8) | (b2 as bv32 << 16) | (b3 as bv32 << 24)
  }

  /** The bytes of a register, lowest first. */
  function Byte0(c: bv32): bv8 { (c & 0xff) as bv8 }
  function Byte1(c: bv32): bv8 { ((c >> 8) & 0xff) as bv8 }
  function Byte2(c: bv32): bv8 { ((c >> 16) & 0xff) as bv8 }
  function Byte3(c: bv32): bv8 { (c >> 24) as bv8 }

  /** What STEP4 looks up. */
  function FourTables(c: bv32): bv32 {
    Xor(Xor(Xor(Table3(Byte0(c)), Table2(Byte1(c))), Table1(Byte2(c))), Table0(Byte3(c)))
  }

  /** STEP4: four bytes through four tables. */
  function Step4(l: bv32, word: bv32): bv32 {
    FourTables(l ^ word)
  }

  lemma SplitLow(l: bv32, b: bv8)
    ensures Xor(l, Wide(b)) == Xor(Wide((l & 0xff) as bv8 ^ b), Up8(l >> 8))
    ensures Clear(l >> 8, 0xff00_0000)
  {
  }

  lemma Step1Unfold(l: bv32, b: bv8)
    ensures Step1(l, b) == Xor(Table0((l & 0xff) as bv8 ^ b), l >> 8)
  {
    hide Table0;
  }

  lemma Step1FeedsOneByte(l: bv32, b: bv8)
    ensures Step1(l, b) == FeedByte(l, b)
  {
    hide *;
    FeedByteIsShift8(l, b);
    SplitLow(l, b);
    Step1Unfold(l, b);
    Shift8Waiting(Wide((l & 0xff) as bv8 ^ b), l >> 8);
    Table0Entry((l & 0xff) as bv8 ^ b);
  }

  /** Bits waiting eight places up meet the register after eight shifts. */
  lemma Shift8Waiting(x: bv32, y: bv32)
    requires Clear(y, 0xff00_0000)
    ensures Shift8(Xor(x, Up8(y))) == Xor(Shift8(x), y)
  {
    hide *;
    Shift8Linear(x, Up8(y));
    Shift8OfUp8(y);
  }

  /** A word with low byte lo and the rest hi. */
  function Word(lo: bv8, hi: bv32): bv32 {
    (lo as bv32) | (hi << 8)
  }

  lemma WordIs(lo: bv8, hi: bv32)
    ensures Word(lo, hi) == Xor(Wide(lo), Up8(hi))
  {
  }

  lemma WordSplits(m: bv32, lo: bv8, hi: bv32)
    ensures Xor(m, Word(lo, hi)) == Xor(Xor(m, Wide(lo)), Up8(hi))
  {
    hide *;
    WordIs(lo, hi);
    XorAssoc(m, Wide(lo), Up8(hi));
  }

  lemma Load32IsNested(b0: bv8, b1: bv8, b2: bv8, b3: bv8)
    ensures Load32(b0, b1, b2, b3) == Word(b0, Word(b1, Word(b2, Wide(b3))))
  {
  }

  lemma NestedIsClear(b1: bv8, b2: bv8, b3: bv8)
    ensures Clear(Wide(b3), 0xff00_0000)
    ensures Clear(Word(b2, Wide(b3)), 0xff00_0000)
    ensures Clear(Word(b1, Word(b2, Wide(b3))), 0xff00_0000)
  {
  }

  lemma LoadOfBytes(c: bv32)
    ensures Load32(Byte0(c), Byte1(c), Byte2(c), Byte3(c)) == c
  {
  }

  /** Eight shifts of a register holding a whole word feed its low byte. */
  lemma Shift8FeedsLowByte(m: bv32, lo: bv8, hi: bv32)
    requires Clear(hi, 0xff00_0000)
    ensures Shift8(Xor(m, Word(lo, hi))) == Xor(FeedByte(m, lo), hi)
  {
    hide *;
    WordSplits(m, lo, hi);
    Shift8Waiting(Xor(m, Wide(lo)), hi);
    FeedByteIsShift8(m, lo);
  }

  lemma FeedByteByTable(m: bv32, lo: bv8)
    ensures FeedByte(m, lo) == Xor(Shift8(m), Table0(lo))
  {
    hide *;
    FeedByteIsShift8(m, lo);
    Shift8Linear(m, Wide(lo));
    Table0Entry(lo);
  }

  function Shift32(x: bv32): bv32 {
    Shift8(Shift8(Shift8(Shift8(x))))
  }

  lemma Shift32Unfold(x: bv32)
    ensures Shift32(x) == Shift8(Shift8(Shift8(Shift8(x))))
  {
    hide Shift8;
  }

  /** Thirty-two shifts of a register meeting a word are four fed bytes. */
  lemma Shift32IsFourBytes(l: bv32, b0: bv8, b1: bv8, b2: bv8, b3: bv8)
    ensures Shift32(Xor(l, Load32(b0, b1, b2, b3)))
            == FeedByte(FeedByte(FeedByte(FeedByte(l, b0), b1), b2), b3)
  {
    hide *;
    Shift32Unfold(Xor(l, Load32(b0, b1, b2, b3)));
    Load32IsNested(b0, b1, b2, b3);
    NestedIsClear(b1, b2, b3);
    var l1 := FeedByte(l, b0);
    var l2 := FeedByte(l1, b1);
    var l3 := FeedByte(l2, b2);
    Shift8FeedsLowByte(l, b0, Word(b1, Word(b2, Wide(b3))));
    Shift8FeedsLowByte(l1, b1, Word(b2, Wide(b3)));
    Shift8FeedsLowByte(l2, b2, Wide(b3));
    FeedByteIsShift8(l3, b3);
  }

  lemma XorZero(x: bv32)
    ensures Xor(0, x) == x
  {
  }

  lemma FourTablesUnfold(c: bv32)
    ensures FourTables(c)
            == Xor(Xor(Xor(Table3(Byte0(c)), Table2(Byte1(c))), Table1(Byte2(c))),
                   Table0(Byte3(c)))
  {
    hide Table0, Table1, Table2, Table3, Xor, Byte0, Byte1, Byte2, Byte3;
  }

  lemma Shift8OfZero()
    ensures Shift8(0) == 0
  {
  }

  /** Feeding the register's own bytes to zero looks each of them up in its table. */
  lemma FourBytesIsFourTables(c: bv32)
    ensures Shift32(c) == FourTables(c)
  {
    hide *;
    var c0, c1, c2, c3 := Byte0(c), Byte1(c), Byte2(c), Byte3(c);
    LoadOfBytes(c);
    XorZero(c);
    Shift32IsFourBytes(0, c0, c1, c2, c3);
    FourTablesUnfold(c);
    Shift8OfZero();
    XorZero(Table0(c0));
    FeedByteByTable(0, c0);
    FeedByteByTable(Table0(c0), c1);
    Table1Step(c0);
    var t1 := Xor(Table1(c0), Table0(c1));
    FeedByteByTable(t1, c2);
    Shift8Linear(Table1(c0), Table0(c1));
    Table2Step(c0); Table1Step(c1);
    var t2 := Xor(Xor(Table2(c0), Table1(c1)), Table0(c2));
    FeedByteByTable(t2, c3);
    Shift8Linear(Xor(Table2(c0), Table1(c1)), Table0(c2));
    Shift8Linear(Table2(c0), Table1(c1));
    Table3Step(c0); Table2Step(c1); Table1Step(c2);
  }

  lemma Step4Unfold(l: bv32, word: bv32)
    ensures Step4(l, word) == FourTables(Xor(l, word))
  {
    hide FourTables, Xor;
    XorIs(l, word);
  }

  /** The four-table step is four byte steps: what slicing rests on. */
  lemma Step4FeedsFourBytes(l: bv32, b0: bv8, b1: bv8, b2: bv8, b3: bv8)
    ensures Step4(l, Load32(b0, b1, b2, b3))
            == FeedByte(FeedByte(FeedByte(FeedByte(l, b0), b1), b2), b3)
  {
    hide *;
    var w := Load32(b0, b1, b2, b3);
    Step4Unfold(l, w);
    FourBytesIsFourTables(Xor(l, w));
    Shift32IsFourBytes(l, b0, b1, b2, b3);
  }

  // ---- Concatenation ---------------------------------------------------------------

  lemma {:induction false} FeedConcat(l: bv32, a: seq<bv8>, b: seq<bv8>)
    ensures Feed(l, a + b) == Feed(Feed(l, a), b)
    decreases |a|
  {
    if a == [] {
      assert a + b == b;
    } else {
      assert (a + b)[0] == a[0] && (a + b)[1..] == a[1..] + b;
      FeedConcat(FeedByte(l, a[0]), a[1..], b);
    }
  }

  lemma FlipTwice(m: bv32)
    ensures Flip(Flip(m)) == m
  {
  }

  lemma FeedNothing(l: bv32, s: seq<bv8>)
    ensures Feed(l, s[..0]) == l
  {
  }

  /** Extending the checksum of A by a and then by b is extending it by a ++ b: the
      writer's type byte and payload, fed in two calls, checksum like the reader's one. */
  lemma ExtendConcat(init: bv32, a: seq<bv8>, b: seq<bv8>)
    ensures Extended(Extended(init, a), b) == Extended(init, a + b)
  {
    hide Feed, Flip;
    FeedConcat(Flip(init), a, b);
    FlipTwice(Feed(Flip(init), a));
  }

  lemma FeedSnoc(l: bv32, s: seq<bv8>, p: nat)
    requires p < |s|
    ensures Feed(l, s[..p + 1]) == FeedByte(Feed(l, s[..p]), s[p])
  {
    assert s[..p + 1] == s[..p] + [s[p]];
    FeedConcat(l, s[..p], [s[p]]);
  }

  // ---- The complements -------------------------------------------------------------

  lemma ValueIsComplement(s: seq<bv8>)
    ensures Value(s) == Xor(Feed(0xffff_ffff, s), 0xffff_ffff)
  {
    hide Feed;
    assert Flip(0) == 0xffff_ffff;
  }

  lemma FeedFirst(l: bv32, s: seq<bv8>)
    requires s != []
    ensures Feed(l, s) == Feed(FeedByte(l, s[0]), s[1..])
  {
    hide FeedByte;
  }

  lemma FeedFour(l: bv32, s: seq<bv8>)
    requires |s| >= 4
    ensures Feed(l, s) == Feed(Shift32(Xor(l, Load32(s[0], s[1], s[2], s[3]))), s[4..])
  {
    hide Feed, FeedByte, Shift32, Xor, Load32;
    Shift32IsFourBytes(l, s[0], s[1], s[2], s[3]);
    var (s1, s2, s3) := (s[1..], s[2..], s[3..]);
    assert s1[1..] == s2 && s2[1..] == s3 && s3[1..] == s[4..];
    var l1 := FeedByte(l, s[0]);
    var l2 := FeedByte(l1, s[1]);
    var l3 := FeedByte(l2, s[2]);
    FeedFirst(l, s);
    FeedFirst(l1, s1);
    FeedFirst(l2, s2);
    FeedFirst(l3, s3);
  }

  lemma OnesAdvanced()
    ensures Shift32(0xffff_ffff) == 0xb798_b438
  {
    hide Shift32, FourTables;
    FourBytesIsFourTables(0xffff_ffff);
    TablesOfOnes();
  }

  lemma TablesOfOnes()
    ensures FourTables(0xffff_ffff) == 0xb798_b438
  {
    hide Table0, Table1, Table2, Table3;
    LastEntries();
  }

  lemma LastEntries()
    ensures Table0(0xff) == 0xad7d_5351 && Table1(0xff) == 0xa3e3_2483
    ensures Table2(0xff) == 0x9105_2ba8 && Table3(0xff) == 0x2803_e842
  {
    hide Table0Row0, Table1Row0, Table2Row0, Table3Row0;
  }

  /** The bytes of a word, lowest first, as a checksum is sent. */
  function Sent(x: bv32): seq<bv8> {
    [(x & 0xff) as bv8, ((x >> 8) & 0xff) as bv8, ((x >> 16) & 0xff) as bv8, (x >> 24) as bv8]
  }

  lemma LoadOfSent(x: bv32)
    ensures Load32(Sent(x)[0], Sent(x)[1], Sent(x)[2], Sent(x)[3]) == x
  {
  }

  lemma XorComplement(x: bv32)
    ensures Xor(x, Xor(x, 0xffff_ffff)) == 0xffff_ffff
  {
  }

  /** The residue law: whatever the string, feeding it and then its checksum to a register of ones
      leaves the same word. */
  lemma Residue(s: seq<bv8>)
    ensures Feed(0xffff_ffff, s + Sent(Value(s))) == 0xb798_b438
  {
    var l, v := Feed(0xffff_ffff, s), Value(s);
    ValueIsComplement(s);
    hide Feed, Value, Xor, Load32, Shift32, FeedByte;
    FeedConcat(0xffff_ffff, s, Sent(v));
    FeedFour(l, Sent(v));
    LoadOfSent(v);
    XorComplement(l);
    OnesAdvanced();
    FeedNothing(Shift32(0xffff_ffff), Sent(v));
    assert Sent(v)[4..] == Sent(v)[..0] == [];
  }

  lemma LoadComplemented(b0: bv8, b1: bv8, b2: bv8, b3: bv8)
    ensures Load32(b0 ^ 0xff, b1 ^ 0xff, b2 ^ 0xff, b3 ^ 0xff) == Load32(b0, b1, b2, b3) ^ 0xffff_ffff
  {
  }

  lemma XorWithOnes(x: bv32)
    ensures Xor(0, x ^ 0xffff_ffff) == Xor(0xffff_ffff, x)
  {
  }

  function Complemented(b: bv8): bv8 {
    b ^ 0xff
  }

  lemma LoadOfComplemented(b0: bv8, b1: bv8, b2: bv8, b3: bv8)
    ensures Xor(0, Load32(Complemented(b0), Complemented(b1), Complemented(b2), Complemented(b3)))
            == Xor(0xffff_ffff, Load32(b0, b1, b2, b3))
  {
    hide Load32, Xor;
    LoadComplemented(b0, b1, b2, b3);
    XorWithOnes(Load32(b0, b1, b2, b3));
  }

  /** The message with its first 32 bits complemented. */
  function StartComplemented(s: seq<bv8>): (t: seq<bv8>)
    requires |s| >= 4
  {
    [Complemented(s[0]), Complemented(s[1]), Complemented(s[2]), Complemented(s[3])] + s[4..]
  }

  lemma FeedComplemented(s: seq<bv8>)
    requires |s| >= 4
    ensures Feed(0, StartComplemented(s)) == Feed(0xffff_ffff, s)
  {
    hide Feed, Load32, Shift32, Xor, Complemented;
    var t := StartComplemented(s);
    assert t[4..] == s[4..];
    FeedFour(0xffff_ffff, s);
    FeedFour(0, t);
    LoadOfComplemented(s[0], s[1], s[2], s[3]);
  }

  /** Section 12.1 of RFC 3720 complements the first 32 bits of the message and starts from zero,
      and complements the remainder. */
  lemma StartsComplemented(s: seq<bv8>)
    requires |s| >= 4
    ensures Value(s) == Xor(Feed(0, StartComplemented(s)), 0xffff_ffff)
  {
    hide Feed, Value, StartComplemented, Xor;
    ValueIsComplement(s);
    FeedComplemented(s);
  }

  // ---- Extend ----------------------------------------------------------------------

  /** STEP4 at offset p of the buffer. */
  method StepWord(start: bv32, l: bv32, buf: seq<bv8>, p: nat) returns (l': bv32)
    requires p + 4 <= |buf| && l == Feed(start, buf[..p])
    ensures l' == Feed(start, buf[..p + 4])
  {
    l' := Step4(l, Load32(buf[p], buf[p + 1], buf[p + 2], buf[p + 3]));
    Step4FeedsFourBytes(l, buf[p], buf[p + 1], buf[p + 2], buf[p + 3]);
    FeedSnoc(start, buf, p);
    FeedSnoc(start, buf, p + 1);
    FeedSnoc(start, buf, p + 2);
    FeedSnoc(start, buf, p + 3);
  }

  /** STEP1 at offset p of the buffer. */
  method StepByte(start: bv32, l: bv32, buf: seq<bv8>, p: nat) returns (l': bv32)
    requires p < |buf| && l == Feed(start, buf[..p])
    ensures l' == Feed(start, buf[..p + 1])
  {
    l' := Step1(l, buf[p]);
    Step1FeedsOneByte(l, buf[p]);
    FeedSnoc(start, buf, p);
  }

  /** crc32c::Extend for a buffer that starts at address pval: bytes up to the first aligned
      address if that lies in the buffer, then 16 and 4 bytes at a time, then the tail. */
  method Extend(crc: bv32, buf: seq<bv8>, pval: nat) returns (r: bv32)
    ensures r == Extended(crc, buf)
  {
    hide Feed, Flip;
    var start := Flip(crc);
    var l := start;
    var p, e := 0, |buf|;
    var x := (pval + 3) / 4 * 4 - pval;
    FeedNothing(start, buf);
    if x <= e {
      while p != x
        invariant 0 <= p <= x
        invariant l == Feed(start, buf[..p])
        decreases x - p
      {
        l := StepByte(start, l, buf, p);
        p := p + 1;
      }
    }
    while e - p >= 16
      invariant 0 <= p <= e
      invariant l == Feed(start, buf[..p])
    {
      l := StepWord(start, l, buf, p);
      l := StepWord(start, l, buf, p + 4);
      l := StepWord(start, l, buf, p + 8);
      l := StepWord(start, l, buf, p + 12);
      p := p + 16;
    }
    while e - p >= 4
      invariant 0 <= p <= e
      invariant l == Feed(start, buf[..p])
    {
      l := StepWord(start, l, buf, p);
      p := p + 4;
    }
    while p != e
      invariant 0 <= p <= e
      invariant l == Feed(start, buf[..p])
      decreases e - p
    {
      l := StepByte(start, l, buf, p);
      p := p + 1;
    }
    assert buf[..e] == buf;
    r := Flip(l);
  }

  // ---- Masking ---------------------------------------------------------------------

  const MASK_DELTA: bv32 := 0xa282_ead8

  function RotateRight15(x: bv32): bv32 {
    (x >> 15) | (x << 17)
  }

  function RotateRight17(x: bv32): bv32 {
    (x >> 17) | (x << 15)
  }

  /** crc32c::Mask. */
  function Mask(crc: bv32): bv32 {
    RotateRight15(crc) + MASK_DELTA
  }

  /** crc32c::Unmask. */
  function Unmask(masked: bv32): bv32 {
    RotateRight17(masked - MASK_DELTA)
  }

  lemma RotateRoundTrip(x: bv32)
    ensures RotateRight17(RotateRight15(x)) == x && RotateRight15(RotateRight17(x)) == x
  {
  }

  lemma AddThenSubtract(x: bv32)
    ensures (x + MASK_DELTA) - MASK_DELTA == x && (x - MASK_DELTA) + MASK_DELTA == x
  {
  }

  /** Masking is a bijection and Unmask is its inverse, on both sides. */
  lemma MaskRoundTrip(crc: bv32)
    ensures Unmask(Mask(crc)) == crc && Mask(Unmask(crc)) == crc
  {
    hide RotateRight15, RotateRight17;
    AddThenSubtract(RotateRight15(crc));
    AddThenSubtract(crc);
    RotateRoundTrip(crc);
    RotateRoundTrip(crc - MASK_DELTA);
  }

  /** The checksum of no bytes, masked. */
  lemma MaskedNothing()
    ensures Mask(Value([])) == 0xa282_ead8
  {
    assert Value([]) == 0;
  }

  /** Bit 15 goes to the bottom and the bottom to bit 17, before the constant is added. */
  lemma MaskRotates()
    ensures Mask(0x8000) == 0xa282_ead9 && Mask(1) == 0xa284_ead8
  {
  }
}
