/** Machine words as numbers, and the C operators on them, bit by bit. */
module Bits {

  function Pow2(n: nat): (r: nat)
    ensures 0 < r
  {
    if n == 0 then 1 else 2 * Pow2(n - 1)
  }

  lemma {:induction false} Pow2Sum(m: nat, n: nat)
    ensures Pow2(m + n) == Pow2(m) * Pow2(n)
  {
    if 0 < m {
      Pow2Sum(m - 1, n);
      assert Pow2(m + n) == 2 * Pow2(m - 1 + n);
      assert 2 * (Pow2(m - 1) * Pow2(n)) == 2 * Pow2(m - 1) * Pow2(n);
    }
  }

  lemma {:induction false} Pow2Monotonic(m: nat, n: nat)
    requires m <= n
    ensures Pow2(m) <= Pow2(n) && (m < n ==> 2 * Pow2(m) <= Pow2(n))
    decreases n
  {
    if m < n {
      Pow2Monotonic(m, n - 1);
    }
  }

  predicate Bit(x: nat, i: nat)
    decreases i
  {
    if i == 0 then x % 2 == 1 else Bit(x / 2, i - 1)
  }

  function FromBit(b: bool): nat {
    if b then 1 else 0
  }

  /** `x & y` */
  function And(x: nat, y: nat): nat {
    if x == 0 then 0 else FromBit(x % 2 == 1 && y % 2 == 1) + 2 * And(x / 2, y / 2)
  }

  /** `x | y` */
  function Or(x: nat, y: nat): nat
    decreases x + y
  {
    if x + y == 0 then 0 else FromBit(x % 2 == 1 || y % 2 == 1) + 2 * Or(x / 2, y / 2)
  }

  /** `~x` in a word of `w` bits. */
  function Not(x: nat, w: nat): nat
    decreases w
  {
    if w == 0 then 0 else FromBit(x % 2 == 0) + 2 * Not(x / 2, w - 1)
  }

  /** `x >> n` */
  function Shr(x: nat, n: nat): nat
    decreases n
  {
    if n == 0 then x else Shr(x / 2, n - 1)
  }

  /** `x << n` before it is cut to the word. */
  function Shift(x: nat, n: nat): nat
    decreases n
  {
    if n == 0 then x else 2 * Shift(x, n - 1)
  }

  /** The low `w` bits. */
  function Cut(x: nat, w: nat): nat
    decreases w
  {
    if w == 0 then 0 else x % 2 + 2 * Cut(x / 2, w - 1)
  }

  /** `x << n` in a word of `w` bits. */
  function Shl(x: nat, n: nat, w: nat): nat {
    Cut(Shift(x, n), w)
  }

  // What the operators do to each bit.

  lemma {:induction false} BitOfZero(i: nat)
    ensures !Bit(0, i)
  {
    if 0 < i {
      BitOfZero(i - 1);
    }
  }

  lemma {:induction false} BitAnd(x: nat, y: nat, i: nat)
    ensures Bit(And(x, y), i) <==> Bit(x, i) && Bit(y, i)
    decreases i
  {
    if x == 0 {
      BitOfZero(i);
    } else {
      AndSplits(x, y);
      hide And;
      if 0 < i {
        BitAnd(x / 2, y / 2, i - 1);
      }
    }
  }

  lemma AndSplits(x: nat, y: nat)
    requires x != 0
    ensures And(x, y) % 2 == (if x % 2 == 1 && y % 2 == 1 then 1 else 0) && And(x, y) / 2 == And(x / 2, y / 2)
  {
    var rest := And(x / 2, y / 2);
    assert And(x, y) == FromBit(x % 2 == 1 && y % 2 == 1) + 2 * rest;
  }

  lemma {:induction false} BitOr(x: nat, y: nat, i: nat)
    ensures Bit(Or(x, y), i) <==> Bit(x, i) || Bit(y, i)
    decreases i
  {
    if x + y == 0 {
      BitOfZero(i);
    } else {
      OrSplits(x, y);
      hide Or;
      if 0 < i {
        BitOr(x / 2, y / 2, i - 1);
      }
    }
  }

  lemma OrSplits(x: nat, y: nat)
    requires x + y != 0
    ensures Or(x, y) % 2 == (if x % 2 == 1 || y % 2 == 1 then 1 else 0) && Or(x, y) / 2 == Or(x / 2, y / 2)
  {
    var rest := Or(x / 2, y / 2);
    assert Or(x, y) == FromBit(x % 2 == 1 || y % 2 == 1) + 2 * rest;
  }

  lemma NotSplits(x: nat, w: nat)
    requires 0 < w
    ensures Not(x, w) % 2 == (if x % 2 == 0 then 1 else 0) && Not(x, w) / 2 == Not(x / 2, w - 1)
  {
    var rest := Not(x / 2, w - 1);
    assert Not(x, w) == FromBit(x % 2 == 0) + 2 * rest;
  }

  lemma {:induction false} BitNot(x: nat, w: nat, i: nat)
    ensures Bit(Not(x, w), i) <==> i < w && !Bit(x, i)
    decreases i
  {
    if w == 0 {
      BitOfZero(i);
    } else {
      NotSplits(x, w);
      hide Not;
      if 0 < i {
        BitNot(x / 2, w - 1, i - 1);
      }
    }
  }

  lemma {:induction false} BitShr(x: nat, n: nat, i: nat)
    ensures Bit(Shr(x, n), i) <==> Bit(x, i + n)
    decreases n
  {
    if 0 < n {
      BitShr(x / 2, n - 1, i);
    }
  }

  lemma {:induction false} BitShift(x: nat, n: nat, i: nat)
    ensures Bit(Shift(x, n), i) <==> n <= i && Bit(x, i - n)
    decreases n
  {
    if 0 < n && 0 < i {
      BitShift(x, n - 1, i - 1);
      assert Shift(x, n) / 2 == Shift(x, n - 1);
    }
  }

  lemma {:induction false} BitCut(x: nat, w: nat, i: nat)
    ensures Bit(Cut(x, w), i) <==> i < w && Bit(x, i)
    decreases i
  {
    if w == 0 {
      BitOfZero(i);
    } else if 0 < i {
      BitCut(x / 2, w - 1, i - 1);
      assert Cut(x, w) / 2 == Cut(x / 2, w - 1);
    }
  }

  lemma BitShl(x: nat, n: nat, w: nat, i: nat)
    ensures Bit(Shl(x, n, w), i) <==> n <= i < w && Bit(x, i - n)
  {
    BitCut(Shift(x, n), w, i);
    BitShift(x, n, i);
  }

  lemma {:induction false} BitPow2(k: nat, i: nat)
    ensures Bit(Pow2(k), i) <==> i == k
  {
    if k == 0 {
      if 0 < i {
        BitOfZero(i - 1);
      }
    } else if 0 < i {
      BitPow2(k - 1, i - 1);
      assert Pow2(k) / 2 == Pow2(k - 1);
    }
  }

  /** A mask of `k` ones. */
  lemma {:induction false} BitMask(k: nat, i: nat)
    ensures Bit(Pow2(k) - 1, i) <==> i < k
    decreases i
  {
    if k == 0 {
      BitOfZero(i);
    } else {
      assert Pow2(k) - 1 == 1 + 2 * (Pow2(k - 1) - 1);
      if 0 < i {
        BitMask(k - 1, i - 1);
        assert (Pow2(k) - 1) / 2 == Pow2(k - 1) - 1;
      }
    }
  }

  /** Numbers with the same bits are equal. */
  lemma {:induction false} SameBits(x: nat, y: nat)
    requires forall i: nat :: Bit(x, i) == Bit(y, i)
    ensures x == y
    decreases x + y
  {
    assert Bit(x, 0) == Bit(y, 0);
    if x + y != 0 {
      forall i: nat ensures Bit(x / 2, i) == Bit(y / 2, i) {
        assert Bit(x, i + 1) == Bit(y, i + 1);
      }
      SameBits(x / 2, y / 2);
    }
  }

  lemma {:induction false} BitsBeyond(x: nat, w: nat, i: nat)
    requires x < Pow2(w) && w <= i
    ensures !Bit(x, i)
    decreases w
  {
    if w == 0 {
      BitOfZero(i);
    } else {
      BitsBeyond(x / 2, w - 1, i - 1);
    }
  }

  lemma {:induction false} BoundFromBits(x: nat, w: nat)
    requires forall i: nat | w <= i :: !Bit(x, i)
    ensures x < Pow2(w)
    decreases w, x
  {
    if x != 0 {
      if w == 0 {
        var i := SomeBit(x);
      } else {
        forall i: nat | w - 1 <= i ensures !Bit(x / 2, i) {
          assert !Bit(x, i + 1);
        }
        BoundFromBits(x / 2, w - 1);
      }
    }
  }

  lemma {:induction false} SomeBit(x: nat) returns (i: nat)
    requires x != 0
    ensures Bit(x, i)
  {
    if x % 2 == 1 {
      i := 0;
    } else {
      i := SomeBit(x / 2);
      i := i + 1;
    }
  }

  lemma ShiftedOne(k: nat, w: nat)
    requires k < w
    ensures Shl(1, k, w) == Pow2(k)
  {
    forall i: nat ensures Bit(Shl(1, k, w), i) == Bit(Pow2(k), i) {
      BitShl(1, k, w, i);
      BitPow2(k, i);
      if k <= i {
        BitPow2(0, i - k);
      }
    }
    SameBits(Shl(1, k, w), Pow2(k));
  }

  lemma {:induction false} CutKeepsIff(x: nat, w: nat)
    ensures Cut(x, w) == x <==> x < Pow2(w)
    decreases w
  {
    if w != 0 {
      CutKeepsIff(x / 2, w - 1);
    }
  }

  lemma Pow2Double(n: nat, x: nat)
    requires Pow2(n) == x
    ensures Pow2(n + n) == x * x
  {
    Pow2Sum(n, n);
  }

  lemma Pow2Of8()
    ensures Pow2(8) == 0x100
  {
  }

  lemma Pow2Of31()
    ensures Pow2(32) == 2 * Pow2(31)
  {
  }

  lemma Powers()
    ensures Pow2(8) == 0x100 && Pow2(16) == 0x1_0000 && Pow2(31) == 0x8000_0000 && Pow2(32) == 0x1_0000_0000
    ensures Pow2(64) == 0x1_0000_0000_0000_0000
  {
    hide Pow2;
    Pow2Of8();
    Pow2Double(8, 0x100);
    Pow2Double(16, 0x1_0000);
    Pow2Double(32, 0x1_0000_0000);
    Pow2Of31();
  }

  // The lowest set bit.

  function Lowest(x: nat): (i: nat)
    requires x != 0
    ensures Bit(x, i)
    ensures forall k: nat | k < i :: !Bit(x, k)
  {
    if x % 2 == 1 then 0
    else
      var i := Lowest(x / 2) + 1;
      assert forall k: nat | k < i :: !Bit(x, k) by {
        forall k: nat | k < i ensures !Bit(x, k) {
          if 0 < k {
            assert !Bit(x / 2, k - 1);
          }
        }
      }
      i
  }

  lemma LowestIs(x: nat, i: nat)
    requires x != 0 && Bit(x, i) && forall k: nat | k < i :: !Bit(x, k)
    ensures Lowest(x) == i
  {
  }

  /** An or of words without common bits is a sum. */
  lemma {:induction false} OrDisjoint(x: nat, y: nat, n: nat)
    requires x < Pow2(n)
    ensures Or(x, Shift(y, n)) == x + Shift(y, n)
    decreases n
  {
    if n == 0 {
      OrZero(y);
    } else {
      OrDisjoint(x / 2, y, n - 1);
    }
  }

  lemma {:induction false} OrZero(y: nat)
    ensures Or(0, y) == y
  {
    if y != 0 {
      OrZero(y / 2);
    }
  }

  lemma {:induction false} ShiftIsProduct(x: nat, n: nat)
    ensures Shift(x, n) == x * Pow2(n)
    decreases n
  {
    if 0 < n {
      ShiftIsProduct(x, n - 1);
      assert x * (2 * Pow2(n - 1)) == 2 * (x * Pow2(n - 1));
    }
  }

  lemma {:induction false} OrSwap(x: nat, y: nat)
    ensures Or(x, y) == Or(y, x)
    decreases x + y
  {
    if x + y != 0 {
      OrSwap(x / 2, y / 2);
    }
  }

  /** `x ^ y` */
  function Xor(x: nat, y: nat): nat
    decreases x + y
  {
    if x + y == 0 then 0 else FromBit(x % 2 != y % 2) + 2 * Xor(x / 2, y / 2)
  }

  lemma {:induction false} BitXor(x: nat, y: nat, i: nat)
    ensures Bit(Xor(x, y), i) <==> Bit(x, i) != Bit(y, i)
    decreases i
  {
    if x + y == 0 {
      BitOfZero(i);
    } else {
      var rest := Xor(x / 2, y / 2);
      assert Xor(x, y) == FromBit(x % 2 != y % 2) + 2 * rest;
      hide Xor;
      if 0 < i {
        BitXor(x / 2, y / 2, i - 1);
      }
    }
  }

  /** The low bits and the rest make up the number. */
  lemma {:induction false} SplitAt(x: nat, n: nat)
    ensures Cut(x, n) < Pow2(n) && x == Pow2(n) * Shr(x, n) + Cut(x, n)
    decreases n
  {
    if 0 < n {
      SplitAt(x / 2, n - 1);
      var half, low := x / 2, x % 2;
      var p, s, c := Pow2(n - 1), Shr(half, n - 1), Cut(half, n - 1);
      assert Pow2(n) == 2 * p && Shr(x, n) == s && Cut(x, n) == low + 2 * c;
      hide *;
      Doubled(x, half, low, p, s, c);
    }
  }

  lemma Doubled(x: nat, half: nat, low: nat, p: nat, s: nat, c: nat)
    requires x == 2 * half + low && low < 2 && c < p && half == p * s + c
    ensures low + 2 * c < 2 * p && x == 2 * p * s + (low + 2 * c)
  {
    assert 2 * p * s == 2 * (p * s);
  }

  /** Shifting right divides, cutting takes the remainder. */
  lemma QuotientAndRemainder(x: nat, n: nat)
    ensures Shr(x, n) == x / Pow2(n) && Cut(x, n) == x % Pow2(n)
  {
    SplitAt(x, n);
    hide Shr, Cut, Pow2;
    Quotient(x, Pow2(n), Shr(x, n), Cut(x, n));
  }

  lemma Quotient(v: nat, d: nat, q: nat, r: nat)
    requires v == d * q + r && r < d
    ensures v / d == q && v % d == r
  {
    assert d * (v / d) + v % d == d * q + r;
    if q != v / d {
      Uneven(d, q, r, v / d, v % d);
    }
  }

  lemma Uneven(d: nat, q: nat, r: nat, p: nat, s: nat)
    requires r < d && s < d && q != p
    ensures d * q + r != d * p + s
  {
    if q < p {
      Further(d, q, p);
    } else {
      Further(d, p, q);
    }
  }

  lemma Further(d: nat, q: nat, p: nat)
    requires q < p
    ensures d * q + d <= d * p
  {
    var k := p - q;
    assert d * p == d * q + d * k;
    assert d * k == d + d * (k - 1);
  }

  /** Numbers that agree from a bit on lie in the same aligned interval. */
  lemma {:induction false} Interval(a: nat, base: nat, n: nat)
    requires forall i: nat | i < n :: !Bit(base, i)
    ensures Shr(a, n) == Shr(base, n) <==> base <= a < base + Pow2(n)
    decreases n
  {
    if 0 < n {
      forall i: nat | i < n - 1 ensures !Bit(base / 2, i) {
        assert !Bit(base, i + 1);
      }
      assert !Bit(base, 0);
      Interval(a / 2, base / 2, n - 1);
    }
  }

  lemma LowBitClear(x: nat, n: nat, i: nat)
    requires Cut(x, n) == 0 && i < n
    ensures !Bit(x, i)
  {
    BitCut(x, n, i);
    BitOfZero(i);
  }

  lemma LowBitSet(x: nat, n: nat) returns (i: nat)
    requires Cut(x, n) != 0
    ensures i < n && Bit(x, i)
  {
    i := SomeBit(Cut(x, n));
    BitCut(x, n, i);
  }

  lemma HighBitSet(x: nat, n: nat) returns (i: nat)
    requires Pow2(n) <= x
    ensures n <= i && Bit(x, i)
  {
    SplitAt(x, n);
    var k := SomeBit(Shr(x, n));
    BitShr(x, n, k);
    i := n + k;
  }

  /** The remainders by four and eight, bit by bit. */
  lemma Halving(x: nat)
    ensures x % 4 == x % 2 + 2 * (x / 2 % 2) && x % 8 == x % 4 + 4 * (x / 2 / 2 % 2)
  {
    var y := x / 2;
    var z := y / 2;
    var b0, b1, b2, q := x % 2, y % 2, z % 2, z / 2;
    assert z == b2 + 2 * q && y == b1 + 2 * z && x == b0 + 2 * y;
    SmallRemainder(b0 + 2 * b1, z, 4);
    SmallRemainder(b0 + 2 * b1 + 4 * b2, q, 8);
  }

  lemma SmallRemainder(r: nat, q: nat, d: nat)
    requires r < d && (d == 4 || d == 8)
    ensures (r + d * q) % d == r
  {
  }

  lemma Pow2Of12()
    ensures Pow2(12) == 4096
  {
    Pow2Of8();
    assert Pow2(9) == 2 * Pow2(8) && Pow2(10) == 2 * Pow2(9) && Pow2(11) == 2 * Pow2(10);
  }
}
