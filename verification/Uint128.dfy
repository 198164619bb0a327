/** uint128 (base/int128.h): two 64-bit halves against arithmetic modulo 2^128. */
module Uint128 {
  import opened Division

  const B: nat := 0x1_0000_0000
  const W: nat := 0x1_0000_0000_0000_0000
  const M: nat := 0x1_0000_0000_0000_0000_0000_0000_0000_0000

  type U64 = n: nat | n < W

  /** A value of the type. */
  datatype U128 = U128(hi: U64, lo: U64) {
    function Value(): (v: nat)
      ensures v < M
    {
      hi * W + lo
    }
  }

  // ---- Words -----------------------------------------------------------------------

  function Power2(n: nat): (p: nat)
    ensures p >= 1
  {
    if n == 0 then 1 else 2 * Power2(n - 1)
  }

  lemma PowerStep(n: nat)
    ensures Power2(n + 1) == 2 * Power2(n)
  {
  }

  lemma {:induction false} PowerSum(m: nat, n: nat)
    ensures Power2(m + n) == Power2(m) * Power2(n)
    decreases n
  {
    if n == 0 {
      assert Power2(0) == 1;
    } else {
      hide Power2;
      PowerSum(m, n - 1);
      PowerStep(m + n - 1);
      PowerStep(n - 1);
      Regroup(2, Power2(m), Power2(n - 1));
      assert Power2(m) * (2 * Power2(n - 1)) == 2 * (Power2(m) * Power2(n - 1));
    }
  }

  /** Squaring, on known values. */
  lemma PowerTwice(n: nat, v: nat)
    requires Power2(n) == v
    ensures Power2(2 * n) == v * v
  {
    PowerSum(n, n);
  }

  lemma PowersOfWords()
    ensures Power2(32) == B && Power2(64) == W && Power2(128) == M
  {
    assert Power2(4) == 16;
    hide Power2;
    PowerTwice(4, 16);
    PowerTwice(8, 256);
    PowerTwice(16, 65536);
    PowerTwice(32, B);
    PowerTwice(64, W);
  }

  /** x << n and x >> n on 64-bit words; the C operators are defined for n < 64. */
  function Left(x: U64, n: nat): U64 {
    x * Power2(n) % W
  }

  function Right(x: U64, n: nat): (r: U64) {
    Quotient(x, Power2(n));
    x / Power2(n)
  }

  /** x | y, bit by bit. */
  function Or(x: nat, y: nat): nat {
    if x == 0 then y else 2 * Or(x / 2, y / 2) + if x % 2 == 1 || y % 2 == 1 then 1 else 0
  }

  /** With no bit in common, | is +. */
  lemma {:induction false} OrIsSum(x: nat, k: nat, n: nat, y: nat)
    requires x == k * Power2(n) && y < Power2(n)
    ensures Or(x, y) == x + y
    decreases n
  {
    if x != 0 {
      if n == 0 {
        OrZero(x);
      } else {
        var p := Power2(n - 1);
        assert k * (2 * p) == 2 * (k * p);
        OrIsSum(k * p, k, n - 1, y / 2);
      }
    }
  }

  lemma {:induction false} OrZero(x: nat)
    ensures Or(x, 0) == x
  {
    if x != 0 {
      OrZero(x / 2);
    }
  }

  // ---- Expressions -----------------------------------------------------------------

  function Less(a: U128, b: U128): bool {
    if a.hi == b.hi then a.lo < b.lo else a.hi < b.hi
  }

  function Greater(a: U128, b: U128): bool {
    if a.hi == b.hi then a.lo > b.lo else a.hi > b.hi
  }

  function GreaterOrEqual(a: U128, b: U128): bool {
    if a.hi == b.hi then a.lo >= b.lo else a.hi >= b.hi
  }

  function LessOrEqual(a: U128, b: U128): bool {
    if a.hi == b.hi then a.lo <= b.lo else a.hi <= b.hi
  }

  /** Two values are equal exactly if both halves are, and ordered by the high halves first. */
  lemma Comparisons(a: U128, b: U128)
    ensures (a.lo == b.lo && a.hi == b.hi) <==> a.Value() == b.Value()
    ensures Less(a, b) <==> a.Value() < b.Value()
    ensures Greater(a, b) <==> a.Value() > b.Value()
    ensures GreaterOrEqual(a, b) <==> a.Value() >= b.Value()
    ensures LessOrEqual(a, b) <==> a.Value() <= b.Value()
  {
  }

  function Flip(x: U64): U64 {
    W - 1 - x
  }

  function Negated(a: U128): U128 {
    var hiFlip, loFlip := Flip(a.hi), Flip(a.lo);
    var loAdd := (loFlip + 1) % W;
    if loAdd < loFlip then U128((hiFlip + 1) % W, loAdd) else U128(hiFlip, loAdd)
  }

  lemma NegationIsExact(a: U128)
    ensures Negated(a).Value() == (M - a.Value()) % M
  {
    if a.lo == 0 {
      assert a.hi == 0 ==> (M - a.Value()) % M == 0;
    }
  }

  function ShiftLeft(a: U128, n: nat): U128 {
    if n < 64 then
      if n == 0 then a
      else
        LeftHalves(a, n);
        U128(Or(Left(a.hi, n), Right(a.lo, 64 - n)), Left(a.lo, n))
    else if n < 128 then U128(Left(a.lo, n - 64), 0)
    else U128(0, 0)
  }

  function ShiftRight(a: U128, n: nat): U128 {
    if n < 64 then
      if n == 0 then a
      else
        RightHalves(a, n);
        U128(Right(a.hi, n), Or(Right(a.lo, n), Left(a.hi, 64 - n)))
    else if n < 128 then U128(0, Right(a.hi, n - 64))
    else U128(0, 0)
  }

  /** A word is split by a shift: low is the part that stays, high what is shifted out. */
  lemma Split(x: nat, p: nat, q: nat, w: nat, high: nat, low: nat)
    requires p * q == w && x < w && x == high * q + low && low < q
    ensures high < p && x * p == high * w + low * p && low * p + p <= w
  {
    Below(high, q, p);
    Distribute(high * q, low, p);
    Regroup(high, q, p);
    Distribute(low, 1, p);
    Monotone(low + 1, q, p);
  }

  lemma WordPowers(n: nat)
    requires n <= 64
    ensures Power2(n) * Power2(64 - n) == W
  {
    PowersOfWords();
    PowerSum(n, 64 - n);
  }

  lemma LeftParts(x: U64, n: nat)
    requires 0 < n < 64
    ensures var (p, q) := (Power2(n), Power2(64 - n));
            var (high, low) := (Right(x, 64 - n), x % q);
            && p * q == W && x == high * q + low && low < q && high < p
            && Left(x, n) == low * p && x * p == high * W + low * p && low * p + p <= W
  {
    hide Power2;
    WordPowers(n);
    var p, q := Power2(n), Power2(64 - n);
    Quotient(x, q);
    Split(x, p, q, W, x / q, x % q);
    DivMod(x * p, W, x / q, x % q * p);
  }

  lemma LeftHalves(a: U128, n: nat)
    requires 0 < n < 64
    ensures Or(Left(a.hi, n), Right(a.lo, 64 - n)) == Left(a.hi, n) + Right(a.lo, 64 - n) < W
  {
    LeftParts(a.hi, n);
    LeftParts(a.lo, n);
    OrIsSum(Left(a.hi, n), a.hi % Power2(64 - n), n, Right(a.lo, 64 - n));
  }

  lemma {:induction false} OrCommutes(x: nat, y: nat)
    ensures Or(x, y) == Or(y, x)
  {
    if x == 0 || y == 0 {
      OrZero(x);
      OrZero(y);
    } else {
      OrCommutes(x / 2, y / 2);
    }
  }

  lemma RightHalves(a: U128, n: nat)
    requires 0 < n < 64
    ensures Or(Right(a.lo, n), Left(a.hi, 64 - n)) == Right(a.lo, n) + Left(a.hi, 64 - n) < W
  {
    LeftParts(a.hi, 64 - n);
    LeftParts(a.lo, 64 - n);
    OrCommutes(Right(a.lo, n), Left(a.hi, 64 - n));
    OrIsSum(Left(a.hi, 64 - n), a.hi % Power2(n), 64 - n, Right(a.lo, n));
  }

  lemma LeftWord(x: U64, n: nat)
    requires n < 64
    ensures x * Power2(n) == (x * Power2(n) / W) * W + Left(x, n)
  {
  }

  lemma ShiftLeftSmall(a: U128, n: nat)
    requires 0 < n < 64
    ensures ShiftLeft(a, n).Value() == a.Value() * Power2(n) % M
  {
    hide Power2, Or, Left, Right;
    LeftHalves(a, n);
    LeftParts(a.hi, n);
    LeftParts(a.lo, n);
    var p := Power2(n);
    Distribute(a.hi * W, a.lo, p);
    Regroup(a.hi, W, p);
    DivMod(a.Value() * p, M, Right(a.hi, 64 - n), ShiftLeft(a, n).Value());
  }

  lemma ShiftLeftLarge(a: U128, n: nat)
    requires 64 <= n < 128
    ensures ShiftLeft(a, n).Value() == a.Value() * Power2(n) % M
  {
    hide Power2, Left;
    PowersOfWords();
    PowerSum(n - 64, 64);
    LeftWord(a.lo, n - 64);
    LargeShift(a.hi, a.lo, Power2(n - 64), a.lo * Power2(n - 64) / W, Left(a.lo, n - 64));
  }

  /** The low half shifted by whole words and p; the high half leaves the 128 bits. */
  lemma LargeShift(hi: nat, lo: nat, p: nat, lost: nat, kept: nat)
    requires lo * p == lost * W + kept && kept < W
    ensures (hi * W + lo) * (p * W) % M == kept * W
  {
    Distribute(hi * W, lo, p * W);
    Regroup(hi, W, p * W);
    Regroup(hi, p, W);
    Regroup(lo, p, W);
    DivMod((hi * W + lo) * (p * W), M, hi * p + lost, kept * W);
  }

  lemma ShiftLeftGone(a: U128, n: nat)
    requires n >= 128
    ensures 0 == a.Value() * Power2(n) % M
  {
    hide Power2;
    PowersOfWords();
    PowerSum(n - 128, 128);
    Regroup(a.Value(), Power2(n - 128), M);
    DivMod(a.Value() * Power2(n), M, a.Value() * Power2(n - 128), 0);
  }

  /** << multiplies by the power of two, modulo 2^128, whatever the amount. */
  lemma ShiftLeftIsExact(a: U128, n: nat)
    ensures ShiftLeft(a, n).Value() == a.Value() * Power2(n) % M
  {
    if n == 0 {
      assert Power2(0) == 1 && a.Value() % M == a.Value();
    } else if n < 64 {
      ShiftLeftSmall(a, n);
    } else if n < 128 {
      ShiftLeftLarge(a, n);
    } else {
      ShiftLeftGone(a, n);
    }
  }

  lemma ShiftRightSmall(a: U128, n: nat)
    requires 0 < n < 64
    ensures ShiftRight(a, n).Value() == a.Value() / Power2(n)
  {
    hide Power2, Or, Left, Right;
    RightHalves(a, n);
    LeftParts(a.hi, 64 - n);
    LeftParts(a.lo, 64 - n);
    var p, q := Power2(n), Power2(64 - n);
    SmallShift(Right(a.hi, n), a.hi % p, Right(a.lo, n), a.lo % p, p, q);
  }

  /** Dividing both halves: the remainder of the high one goes to the top of the low one. */
  lemma SmallShift(high: nat, h: nat, low: nat, l: nat, p: nat, q: nat)
    requires p * q == W && l < p
    ensures ((high * p + h) * W + (low * p + l)) / p == high * W + (low + h * q)
  {
    Distribute(high * W, low + h * q, p);
    Distribute(low, h * q, p);
    Distribute(high * p, h, W);
    Regroup(high, W, p);
    Regroup(high, p, W);
    Regroup(h, q, p);
    DivMod((high * p + h) * W + (low * p + l), p, high * W + (low + h * q), l);
  }

  lemma ShiftRightLarge(a: U128, n: nat)
    requires 64 <= n < 128
    ensures Right(a.hi, n - 64) == a.Value() / Power2(n)
  {
    hide Power2;
    PowersOfWords();
    PowerSum(n - 64, 64);
    var p := Power2(n - 64);
    Quotient(a.hi, p);
    var (q, r) := (a.hi / p, a.hi % p);
    Regroup(q, p, W);
    DivMod(a.Value(), p * W, q, r * W + a.lo);
  }

  lemma ShiftRightGone(a: U128, n: nat)
    requires n >= 128
    ensures 0 == a.Value() / Power2(n)
  {
    hide Power2;
    PowersOfWords();
    PowerSum(n - 128, 128);
    Multiples(Power2(n - 128), M);
    DivMod(a.Value(), Power2(n), 0, a.Value());
  }

  /** >> divides by the power of two, whatever the amount. */
  lemma ShiftRightIsExact(a: U128, n: nat)
    ensures ShiftRight(a, n).Value() == a.Value() / Power2(n)
  {
    if n == 0 {
      assert Power2(0) == 1;
    } else if n < 64 {
      ShiftRightSmall(a, n);
    } else if n < 128 {
      ShiftRightLarge(a, n);
    } else {
      ShiftRightGone(a, n);
    }
  }

  // ---- Multiplication by 32-bit limbs ----------------------------------------------

  const B2: nat := B * B
  const B3: nat := B * B * B

  /** The limbs of a value, the least significant last. */
  function Limb(a: U128, i: nat): (l: nat)
    ensures l < B
  {
    if i == 0 then a.lo % B
    else if i == 1 then a.lo / B
    else if i == 2 then a.hi % B
    else if i == 3 then a.hi / B
    else 0
  }

  lemma LimbsOf(a: U128)
    ensures a.Value() == Limb(a, 3) * B3 + Limb(a, 2) * B2 + Limb(a, 1) * B + Limb(a, 0)
    ensures a.hi == Limb(a, 3) * B + Limb(a, 2) && a.lo == Limb(a, 1) * B + Limb(a, 0)
  {
  }

  /** Products of limbs, kept apart from linear arithmetic. */
  function Times(x: nat, y: nat): nat {
    x * y
  }

  lemma TimesLimbs(x: nat, b: U128)
    ensures x * b.Value() == Times(x, Limb(b, 3)) * B3 + Times(x, Limb(b, 2)) * B2 + Times(x, Limb(b, 1)) * B
                             + Times(x, Limb(b, 0))
  {
    LimbsOf(b);
    hide Limb;
    Distribute(Limb(b, 3) * B3, Limb(b, 2) * B2 + Limb(b, 1) * B + Limb(b, 0), x);
    Distribute(Limb(b, 2) * B2, Limb(b, 1) * B + Limb(b, 0), x);
    Distribute(Limb(b, 1) * B, Limb(b, 0), x);
    Regroup(x, Limb(b, 3), B3);
    Regroup(x, Limb(b, 2), B2);
    Regroup(x, Limb(b, 1), B);
  }

  lemma LimbsTimes(a: U128, v: nat)
    ensures a.Value() * v == Limb(a, 3) * v * B3 + Limb(a, 2) * v * B2 + Limb(a, 1) * v * B + Limb(a, 0) * v
  {
    LimbsOf(a);
    hide Limb;
    Distribute(Limb(a, 3) * B3, Limb(a, 2) * B2 + Limb(a, 1) * B + Limb(a, 0), v);
    Distribute(Limb(a, 2) * B2, Limb(a, 1) * B + Limb(a, 0), v);
    Distribute(Limb(a, 1) * B, Limb(a, 0), v);
    Regroup(Limb(a, 3), B3, v);
    Regroup(Limb(a, 2), B2, v);
    Regroup(Limb(a, 1), B, v);
  }

  function P(a: U128, i: nat, b: U128, j: nat): nat {
    Times(Limb(a, i), Limb(b, j))
  }

  function Column2(a: U128, b: U128): nat {
    P(a, 2, b, 0) + P(a, 1, b, 1) + P(a, 0, b, 2)
  }

  function Column3(a: U128, b: U128): nat {
    P(a, 3, b, 0) + P(a, 2, b, 1) + P(a, 1, b, 2) + P(a, 0, b, 3)
  }

  /** The columns that matter modulo 2^128. */
  function LowColumns(a: U128, b: U128): nat {
    P(a, 0, b, 0) + P(a, 1, b, 0) * B + P(a, 0, b, 1) * B + (Column2(a, b) + Column3(a, b) * B) * W
  }

  function HighColumns(a: U128, b: U128): nat {
    P(a, 3, b, 1) + P(a, 2, b, 2) + P(a, 1, b, 3) + (P(a, 3, b, 2) + P(a, 2, b, 3)) * B + P(a, 3, b, 3) * B2
  }

  lemma Expansion(a: U128, b: U128)
    ensures (a.Value() * b.Value()) % M == LowColumns(a, b) % M
  {
    hide Times, Limb;
    var v := b.Value();
    TimesLimbs(Limb(a, 3), b);
    TimesLimbs(Limb(a, 2), b);
    TimesLimbs(Limb(a, 1), b);
    TimesLimbs(Limb(a, 0), b);
    LimbsTimes(a, v);
    Same(a.Value() * v, LowColumns(a, b), HighColumns(a, b));
  }

  lemma Same(x: int, y: int, k: int)
    requires x == y + k * M
    ensures x % M == y % M
  {
  }

  lemma Wrap(x: nat)
    requires x < 2 * W
    ensures x % W == if x < W then x else x - W
  {
  }

  function Sum(a: U128, b: U128): U128 {
    var lolo := (a.lo + b.lo) % W;
    U128(((a.hi + b.hi) % W + if lolo < a.lo then 1 else 0) % W, lolo)
  }

  /** The carry out of the low halves shows as a sum below its operand. */
  lemma Carry(x: U64, y: U64) returns (c: nat)
    ensures c == if (x + y) % W < x then 1 else 0
    ensures x + y == c * W + (x + y) % W
  {
    Wrap(x + y);
    c := if (x + y) % W < x then 1 else 0;
  }

  lemma SumIsExact(a: U128, b: U128)
    ensures Sum(a, b).Value() == (a.Value() + b.Value()) % M
  {
    var c := Carry(a.lo, b.lo);
    var h := (a.hi + b.hi) / W;
    var g := ((a.hi + b.hi) % W + c) / W;
    assert a.hi + b.hi + c == (h + g) * W + Sum(a, b).hi;
    var s := Sum(a, b).Value();
    assert a.Value() + b.Value() == (h + g) * M + s;
    hide Sum;
    Same(a.Value() + b.Value(), s, h + g);
    Small(s);
  }

  lemma Small(x: nat)
    requires x < M
    ensures x % M == x
  {
  }

  lemma SumCases(a: U128, b: U128)
    ensures Sum(a, b)
            == U128(if (a.lo + b.lo) % W < a.lo then ((a.hi + b.hi) % W + 1) % W else (a.hi + b.hi) % W,
                    (a.lo + b.lo) % W)
  {
  }

  lemma DifferenceCases(a: U128, b: U128)
    ensures Difference(a, b)
            == U128(if b.lo > a.lo then ((a.hi - b.hi) % W - 1) % W else (a.hi - b.hi) % W, (a.lo - b.lo) % W)
  {
  }

  function Difference(a: U128, b: U128): U128 {
    U128(((a.hi - b.hi) % W - if b.lo > a.lo then 1 else 0) % W, (a.lo - b.lo) % W)
  }

  /** The borrow is found by comparing the low halves. */
  lemma Borrow(x: U64, y: U64) returns (c: nat)
    ensures c == if y > x then 1 else 0
    ensures x - y == (x - y) % W - c * W
  {
    c := if y > x then 1 else 0;
  }

  lemma DifferenceIsExact(a: U128, b: U128)
    ensures Difference(a, b).Value() == (a.Value() - b.Value()) % M
  {
    var c := Borrow(a.lo, b.lo);
    var h := (a.hi - b.hi) / W;
    var g := ((a.hi - b.hi) % W - c) / W;
    assert a.hi - b.hi - c == (h + g) * W + Difference(a, b).hi;
    var d := Difference(a, b).Value();
    assert a.Value() - b.Value() == (h + g) * M + d;
    hide Difference;
    Same(a.Value() - b.Value(), d, h + g);
    Small(d);
  }

  /** Products of two limbs fit a word. */
  lemma ProductFits(x: nat, y: nat)
    requires x < B && y < B
    ensures Times(x, y) < W
  {
    Monotone(x, B - 1, y);
    Monotone(y, B - 1, B - 1);
  }

  /** The two halves of a word. */
  function Upper(x: U64): (h: nat)
    ensures h < B
  {
    x / B
  }

  function Lower(x: U64): (l: nat)
    ensures l < B
  {
    x % B
  }

  lemma ColumnsOf(a: U128, b: U128)
    ensures Column3(a, b) == Times(Upper(a.hi), Lower(b.lo)) + Times(Lower(a.hi), Upper(b.lo))
                             + Times(Upper(a.lo), Lower(b.hi)) + Times(Lower(a.lo), Upper(b.hi))
    ensures Column2(a, b) == Times(Lower(a.hi), Lower(b.lo)) + Times(Upper(a.lo), Upper(b.lo))
                             + Times(Lower(a.lo), Lower(b.hi))
    ensures P(a, 1, b, 0) == Times(Upper(a.lo), Lower(b.lo)) && P(a, 0, b, 1) == Times(Lower(a.lo), Upper(b.lo))
    ensures P(a, 0, b, 0) == Times(Lower(a.lo), Lower(b.lo))
  {
    hide Times;
  }

  lemma LowColumnsOf(a: U128, b: U128)
    ensures LowColumns(a, b)
            == P(a, 0, b, 0) + P(a, 1, b, 0) * B + P(a, 0, b, 1) * B + (Column2(a, b) + Column3(a, b) * B) * W
  {
  }

  /** What a sum leaves in a word. */
  function Word(x: nat): U64 {
    x % W
  }

  lemma HighWord(c3: nat, c2: nat)
    ensures Word(Left(Word(c3), 32) + Word(c2)) == Word(c2 + c3 * B)
  {
    PowersOfWords();
    hide Power2;
    var (q3, q2) := (c3 / W, c2 / W);
    var r := (c3 % W) * B / W;
    SameWord(Left(c3 % W, 32) + c2 % W, c2 + c3 * B, 0 - (q3 * B + r + q2));
  }

  lemma SameWord(x: int, y: int, k: int)
    requires x == y + k * W
    ensures x % W == y % W
  {
  }

  lemma MiddleWord(c: U64)
    ensures ShiftLeft(U128(0, c), 32).Value() == c * B
  {
    PowersOfWords();
    ShiftLeftIsExact(U128(0, c), 32);
    Small(c * B);
  }

  lemma SumOfWords(z: nat, x: nat, y: nat, w: nat)
    ensures ((((z % W) * W + x) % M + y) % M + w) % M == (w + x + y + z * W) % M
  {
    var q := z / W;
    var v0 := (z % W) * W + x;
    var v1 := v0 % M + y;
    var (k0, k1) := (v0 / M, v1 / M);
    Same(v1 % M + w, w + x + y + z * W, 0 - (q + k0 + k1));
  }

  lemma LowValue(l: U64)
    ensures U128(0, l).Value() == l
  {
  }

  /** The sums of the multiplication, in the order the code makes them. */
  function InSteps(v: nat, m1: nat, m2: nat, low: nat): nat {
    (((v + m1 * B) % M + m2 * B) % M + low) % M
  }

  lemma ProductInSteps(x: U128, y: U128)
    ensures InSteps(U128(Word(Column2(x, y) + Column3(x, y) * B), 0).Value(),
                    P(x, 1, y, 0), P(x, 0, y, 1), P(x, 0, y, 0))
            == x.Value() * y.Value() % M
  {
    hide Column2, Column3, P, LowColumns;
    SumOfWords(Column2(x, y) + Column3(x, y) * B, P(x, 1, y, 0) * B, P(x, 0, y, 1) * B, P(x, 0, y, 0));
    LowColumnsOf(x, y);
    Expansion(x, y);
  }

  // ---- Compound assignments --------------------------------------------------------

  class Uint128 {
    var hi: U64
    var lo: U64

    function Current(): U128
      reads this
    {
      U128(hi, lo)
    }

    constructor (hi: U64, lo: U64)
      ensures Current() == U128(hi, lo)
    {
      this.hi, this.lo := hi, lo;
    }

    /** operator+=; b may be this object itself. */
    method AddAssign(b: Uint128)
      modifies this
      ensures Current().Value() == (old(Current().Value()) + old(b.Current().Value())) % M
    {
      hide U128.Value, Sum;
      SumIsExact(Current(), b.Current());
      SumCases(Current(), b.Current());
      hi := (hi + b.hi) % W;
      var lolo := (lo + b.lo) % W;
      if lolo < lo {
        hi := (hi + 1) % W;
      }
      lo := lolo;
      assert Current() == Sum(old(Current()), old(b.Current()));
    }

    /** operator-=; b may be this object itself. */
    method SubAssign(b: Uint128)
      modifies this
      ensures Current().Value() == (old(Current().Value()) - old(b.Current().Value())) % M
    {
      hide U128.Value, Difference;
      DifferenceIsExact(Current(), b.Current());
      DifferenceCases(Current(), b.Current());
      ghost var (x, y) := (Current(), b.Current());
      hi := (hi - b.hi) % W;
      if b.lo > lo {
        hi := (hi - 1) % W;
      }
      lo := (lo - b.lo) % W;
      assert Current() == Difference(x, y);
    }

    /** operator*=; b may be this object itself, as all limbs are taken first.  The additions of
        the code's 64-bit sums wrap around, which is the Word here. */
    method MulAssign(b: Uint128)
      modifies this
      ensures Current().Value() == (old(Current().Value()) * old(b.Current().Value())) % M
    {
      hide Power2, Left, ShiftLeft, Times, Column2, Column3, P, LowColumns, Limb, U128.Value, Word, Upper, Lower,
        InSteps;
      ghost var (x, y) := (Current(), b.Current());
      var (a96, a64, a32, a00) := (Upper(hi), Lower(hi), Upper(lo), Lower(lo));
      var (b96, b64, b32, b00) := (Upper(b.hi), Lower(b.hi), Upper(b.lo), Lower(b.lo));
      ProductFits(a32, b00);
      ProductFits(a00, b32);
      ProductFits(a00, b00);
      ColumnsOf(x, y);
      var c96 := Word(Times(a96, b00) + Times(a64, b32) + Times(a32, b64) + Times(a00, b96));
      var c64 := Word(Times(a64, b00) + Times(a32, b32) + Times(a00, b64));
      HighWord(Column3(x, y), Column2(x, y));
      hi := Word(Left(c96, 32) + c64);
      lo := 0;
      AddProducts(Times(a32, b00), Times(a00, b32), Times(a00, b00));
      ProductInSteps(x, y);
    }

    /** The three additions that end the multiplication. */
    method AddProducts(m1: U64, m2: U64, low: U64)
      modifies this
      ensures Current().Value() == InSteps(old(Current().Value()), m1, m2, low)
    {
      hide U128.Value;
      AddMiddle(m1);
      AddMiddle(m2);
      var last := new Uint128(0, low);
      LowValue(low);
      AddAssign(last);
    }

    /** *this += uint128(c) << 32. */
    method AddMiddle(c: U64)
      modifies this
      ensures Current().Value() == (old(Current().Value()) + c * B) % M
    {
      hide ShiftLeft;
      MiddleWord(c);
      var shifted := ShiftLeft(U128(0, c), 32);
      var middle := new Uint128(shifted.hi, shifted.lo);
      AddAssign(middle);
    }

    /** operator<<=. */
    method ShiftLeftAssign(n: nat)
      modifies this
      ensures Current() == ShiftLeft(old(Current()), n)
    {
      if n < 64 {
        if n != 0 {
          LeftHalves(Current(), n);
          hi := Or(Left(hi, n), Right(lo, 64 - n));
          lo := Left(lo, n);
        }
      } else if n < 128 {
        hi := Left(lo, n - 64);
        lo := 0;
      } else {
        hi := 0;
        lo := 0;
      }
    }

    /** operator>>=. */
    method ShiftRightAssign(n: nat)
      modifies this
      ensures Current() == ShiftedInPlace(old(Current()), n)
    {
      if n < 64 {
        if n != 0 {
          RightHalves(Current(), n);
          lo := Or(Right(lo, n), Left(hi, 64 - n));
          hi := Right(hi, n);
        }
      } else if n < 128 {
        hi := 0;
        QuotientZero(0, Power2(n - 64));
        lo := Right(hi, n - 64);
      } else {
        hi := 0;
        lo := 0;
      }
    }
  }

  /** What >>= leaves: for 64 <= n < 128 the code clears hi_ before it reads it. */
  function ShiftedInPlace(a: U128, n: nat): U128 {
    if 64 <= n < 128 then U128(0, 0) else ShiftRight(a, n)
  }

  /** So >>= and >> agree exactly when no bit of the high half has to reach the low one. */
  lemma ShiftRightAssignIsExactIff(a: U128, n: nat)
    ensures ShiftedInPlace(a, n).Value() == a.Value() / Power2(n) <==>
              n < 64 || n >= 128 || a.hi < Power2(n - 64)
  {
    ShiftRightIsExact(a, n);
    if 64 <= n < 128 {
      QuotientZero(a.hi, Power2(n - 64));
    }
  }

  /** The smallest case in which it goes wrong: 2^64 >>= 64 is 0, not 1. */
  lemma ShiftRightAssignLosesBits()
    ensures var a := U128(1, 0);
            a.Value() / Power2(64) == 1 && ShiftedInPlace(a, 64).Value() == 0
  {
    PowersOfWords();
    DivMod(W, W, 1, 0);
  }

  lemma QuotientZero(x: nat, p: nat)
    requires p >= 1
    ensures x / p == 0 <==> x < p
    ensures 0 / p == 0
  {
    Quotient(x, p);
    if x < p {
      DivMod(x, p, 0, x);
    } else {
      Multiples(x / p, p);
    }
    DivMod(0, p, 0, 0);
  }
}
