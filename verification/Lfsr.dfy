/** The six-bit shift register that orders the page frames of the virtual-memory tests. */
module Lfsr {
  import opened Bits
  import opened BitLoops

  const PERIOD := 63

  /** The register, lowest bit first. */
  datatype Reg = Reg(b0: bool, b1: bool, b2: bool, b3: bool, b4: bool, b5: bool)

  const STUCK := Reg(false, false, false, false, false, false)

  function Weight(b: bool, w: nat): nat {
    if b then w else 0
  }

  function Value(r: Reg): (x: nat)
    ensures x < 64 && (r != STUCK ==> 0 < x)
  {
    Weight(r.b0, 1) + Weight(r.b1, 2) + Weight(r.b2, 4) + Weight(r.b3, 8) + Weight(r.b4, 16) + Weight(r.b5, 32)
  }

  /** The register that holds a number. */
  function OfValue(x: nat): Reg {
    var x1 := x / 2;
    var x2 := x1 / 2;
    var x3 := x2 / 2;
    var x4 := x3 / 2;
    var x5 := x4 / 2;
    Reg(x % 2 == 1, x1 % 2 == 1, x2 % 2 == 1, x3 % 2 == 1, x4 % 2 == 1, x5 % 2 == 1)
  }

  lemma ValueOfValue(x: nat)
    requires x < 64
    ensures Value(OfValue(x)) == x
  {
  }

  lemma ValueInjective(r: Reg, s: Reg)
    requires Value(r) == Value(s)
    ensures r == s
  {
  }

  /** `LFSR_NEXT` on numbers: the low bit of `x ^ (x >> 1)` becomes bit 5 of `x >> 1`. */
  function NextValue(x: nat): nat {
    (x + x / 2) % 2 * 32 + x / 2
  }

  /** `LFSR_NEXT` with its own operators, in a 64-bit word. */
  function Macro(x: nat): nat {
    Or(Shl(And(Xor(x, Shr(x, 1)), 1), 5, 64), Shr(x, 1))
  }

  lemma NextValueIsMacro(x: nat)
    requires x < 64
    ensures NextValue(x) == Macro(x)
  {
    var half, bit := x / 2, (x + x / 2) % 2;
    NextIs(x, half, bit);
    hide *;
    ShiftedOnce(x);
    LowOfXor(x, half);
    OrFive(half, bit);
    MacroIs(x, half, bit);
  }

  lemma NextIs(x: nat, half: nat, bit: nat)
    requires half == x / 2 && bit == (x + x / 2) % 2
    ensures NextValue(x) == half + 32 * bit
  {
  }

  lemma MacroIs(x: nat, half: nat, bit: nat)
    requires Shr(x, 1) == half && And(Xor(x, half), 1) == bit
    requires Cut(Shift(bit, 5), 64) == Shift(bit, 5) && Or(Shift(bit, 5), half) == half + 32 * bit
    ensures Macro(x) == half + 32 * bit
  {
    hide Or, Cut, Shift, Shr, And, Xor;
  }

  lemma OrFive(half: nat, bit: nat)
    requires half < 32 && bit < 2
    ensures Cut(Shift(bit, 5), 64) == Shift(bit, 5) == 32 * bit
    ensures Or(Shift(bit, 5), half) == half + 32 * bit
  {
    Powers5();
    hide *;
    ShiftIsProduct(bit, 5);
    assert bit * Pow2(5) == 32 * bit;
    CutKeepsIff(Shift(bit, 5), 64);
    OrDisjoint(half, bit, 5);
    OrSwap(half, Shift(bit, 5));
  }

  lemma ShiftedOnce(x: nat)
    ensures Shr(x, 1) == x / 2
  {
    assert Shr(x / 2, 0) == x / 2;
  }

  lemma LowOfXor(x: nat, y: nat)
    ensures And(Xor(x, y), 1) == (x + y) % 2
  {
    LowBit(Xor(x, y));
    hide And;
    LowestOfXor(x, y);
    ParityOfSum(x, y);
    hide Xor;
  }

  lemma LowestOfXor(x: nat, y: nat)
    ensures Bit(Xor(x, y), 0) <==> x % 2 != y % 2
  {
    if x + y != 0 {
      var rest := Xor(x / 2, y / 2);
      assert Xor(x, y) == FromBit(x % 2 != y % 2) + 2 * rest;
    }
  }

  lemma ParityOfSum(x: nat, y: nat)
    ensures (x + y) % 2 == if x % 2 != y % 2 then 1 else 0
  {
  }

  lemma Powers5()
    ensures Pow2(5) == 32 < Pow2(64)
  {
    Pow2Monotonic(5, 64);
  }

  function Next(r: Reg): Reg {
    Reg(r.b1, r.b2, r.b3, r.b4, r.b5, r.b0 != r.b1)
  }

  lemma NextIsLfsrNext(r: Reg)
    ensures Value(Next(r)) == NextValue(Value(r))
  {
    var half := Weight(r.b1, 1) + Weight(r.b2, 2) + Weight(r.b3, 4) + Weight(r.b4, 8) + Weight(r.b5, 16);
    var low, next := Weight(r.b0, 1), Weight(r.b1, 1);
    assert Value(r) == low + 2 * half;
    assert Value(Next(r)) == half + Weight(r.b0 != r.b1, 32);
    LowBits(low, half, next);
  }

  lemma LowBits(low: nat, half: nat, next: nat)
    requires low < 2 && next < 2 && half % 2 == next
    ensures NextValue(low + 2 * half) == half + if low == next then 0 else 32
  {
    assert (low + 2 * half) / 2 == half;
  }

  function Iterate(r: Reg, n: nat): Reg
    decreases n
  {
    if n == 0 then r else Iterate(Next(r), n - 1)
  }

  lemma {:induction false} IterateSum(r: Reg, m: nat, n: nat)
    ensures Iterate(r, m + n) == Iterate(Iterate(r, m), n)
    decreases m
  {
    if 0 < m {
      IterateSum(Next(r), m - 1, n);
    }
  }

  lemma IterateLast(r: Reg, n: nat)
    ensures Iterate(r, n + 1) == Next(Iterate(r, n))
  {
    IterateSum(r, n, 1);
    assert Iterate(Next(Iterate(r, n)), 0) == Next(Iterate(r, n));
  }

  lemma {:induction false} IterateMultiple(r: Reg, d: nat, q: nat)
    requires Iterate(r, d) == r
    ensures Iterate(r, d * q) == r
  {
    if 0 < q {
      IterateMultiple(r, d, q - 1);
      IterateSum(r, d, d * (q - 1));
      assert d + d * (q - 1) == d * q;
    }
  }

  function Next3(r: Reg): Reg {
    Next(Next(Next(r)))
  }

  function Next9(r: Reg): (s: Reg)
    ensures s == Reg(r.b3 != r.b4, r.b4 != r.b5, (r.b0 != r.b1) != r.b5, r.b0 != r.b2, r.b1 != r.b3, r.b2 != r.b4)
  {
    Next3(Next3(Next3(r)))
  }

  function Next21(r: Reg): (s: Reg)
    ensures s == Reg((((r.b0 != r.b1) != r.b3) != r.b4) != r.b5, ((r.b0 != r.b2) != r.b4) != r.b5,
                     (r.b0 != r.b3) != r.b5, r.b0 != r.b4, r.b1 != r.b5, (r.b0 != r.b1) != r.b2)
  {
    Next9(Next9(Next3(r)))
  }

  lemma Unrolled(r: Reg)
    ensures Iterate(r, 3) == Next3(r) && Iterate(r, 9) == Next9(r)
    ensures Iterate(r, 21) == Next21(r) && Iterate(r, 63) == Next21(Next21(Next21(r)))
  {
    hide Next;
    Three(r);
    Nine(r);
    TwentyOne(r);
    TwentyOne(Next21(r));
    TwentyOne(Next21(Next21(r)));
    IterateSum(r, 21, 42);
    IterateSum(Next21(r), 21, 21);
  }

  lemma Three(r: Reg)
    ensures Iterate(r, 3) == Next3(r)
  {
    hide Next;
    assert Iterate(Next3(r), 0) == Next3(r);
    assert Iterate(Next(Next(r)), 1) == Next3(r);
    assert Iterate(Next(r), 2) == Next3(r);
  }

  lemma Nine(r: Reg)
    ensures Iterate(r, 9) == Next9(r)
  {
    hide Next3;
    Three(r);
    Three(Next3(r));
    Three(Next3(Next3(r)));
    IterateSum(r, 3, 6);
    IterateSum(Next3(r), 3, 3);
  }

  lemma TwentyOne(r: Reg)
    ensures Iterate(r, 21) == Next21(r)
  {
    hide Next3, Next9;
    Three(r);
    Nine(Next3(r));
    Nine(Next9(Next3(r)));
    IterateSum(r, 3, 18);
    IterateSum(Next3(r), 9, 9);
  }

  /** 63 steps lead back; 9 and 21 do so only from the stuck register. */
  lemma KeyPeriods(r: Reg)
    ensures Next21(Next21(Next21(r))) == r
    ensures Next9(r) == r || Next21(r) == r ==> r == STUCK
  {
    hide Next9, Next21;
  }

  /** No shorter period: it would leave a remainder that is a shorter one still, or divide 63 and
      with it 9 or 21. */
  lemma {:induction false} NoShorterPeriod(r: Reg, d: nat)
    requires 0 < d < PERIOD && Iterate(r, d) == r
    ensures r == STUCK
    decreases d
  {
    hide Next9, Next21, Iterate;
    Unrolled(r);
    KeyPeriods(r);
    var e := PERIOD % d;
    Remainder(r, d, PERIOD);
    if 0 < e {
      NoShorterPeriod(r, e);
    } else {
      Remainder(r, d, 9);
      Remainder(r, d, 21);
      IterateNone(r);
      DivisorsOf63(d, PERIOD / d);
    }
  }

  lemma IterateNone(r: Reg)
    ensures Iterate(r, 0) == r
  {
  }

  /** Whole periods drop out. */
  lemma Remainder(r: Reg, d: nat, n: nat)
    requires 0 < d && Iterate(r, d) == r
    ensures Iterate(r, n % d) == Iterate(r, n)
  {
    IterateMultiple(r, d, n / d);
    IterateSum(r, d * (n / d), n % d);
    assert d * (n / d) + n % d == n;
  }

  lemma DivisorsOf63(d: nat, q: nat)
    requires 0 < d < 63 && d * q == 63
    ensures 9 % d == 0 || 21 % d == 0
  {
    assert 2 <= q;
    assert d <= 31;
  }

  /** From any start but 0 the register takes 63 different values before it repeats. */
  lemma OrbitDistinct(r: Reg, i: nat, j: nat)
    requires r != STUCK && i < j < PERIOD
    ensures Value(Iterate(r, i)) != Value(Iterate(r, j))
  {
    var s := Iterate(r, i);
    IterateSum(r, i, j - i);
    NeverStuck(r, i);
    if Value(s) == Value(Iterate(r, j)) {
      ValueInjective(s, Iterate(r, j));
      NoShorterPeriod(s, j - i);
    }
  }

  lemma {:induction false} NeverStuck(r: Reg, i: nat)
    requires r != STUCK
    ensures Iterate(r, i) != STUCK
    decreases i
  {
    if 0 < i {
      NeverStuck(Next(r), i - 1);
    }
  }

  /** The period is 63 exactly. */
  lemma PeriodIs63(r: Reg, n: nat)
    requires r != STUCK && 0 < n <= PERIOD
    ensures Iterate(r, n) == r <==> n == PERIOD
  {
    Unrolled(r);
    KeyPeriods(r);
    if n < PERIOD && Iterate(r, n) == r {
      NoShorterPeriod(r, n);
    }
  }
}
