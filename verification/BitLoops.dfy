/** The bit loops of the compatibility header: reversal and counting of zeros. */
module BitLoops {
  import opened Bits

  lemma LowBit(x: nat)
    ensures And(x, 1) != 0 <==> Bit(x, 0)
    ensures And(x, 1) == FromBit(Bit(x, 0))
  {
    if x != 0 {
      AndZero(x / 2);
    }
  }

  lemma {:induction false} AndZero(x: nat)
    ensures And(x, 0) == 0
  {
    if x != 0 {
      AndZero(x / 2);
    }
  }

  lemma TestBit(x: nat, k: nat)
    ensures And(x, Pow2(k)) != 0 <==> Bit(x, k)
  {
    if And(x, Pow2(k)) != 0 {
      var i := SomeBit(And(x, Pow2(k)));
      BitAnd(x, Pow2(k), i);
      BitPow2(k, i);
    } else {
      BitAnd(x, Pow2(k), k);
      BitPow2(k, k);
      BitOfZero(k);
    }
  }

  /** Bit `i` of one word is bit 31 - `i` of the other. */
  ghost predicate Reversed(r: nat, x: nat) {
    r < Pow2(32) && forall i: nat | i < 32 :: Bit(r, i) == Bit(x, 31 - i)
  }

  /** The loop of `__RBIT` after `j` steps: the low `j` + 1 bits are in their new order. */
  ghost predicate Reversing(result: nat, value: nat, j: nat) {
    forall i: nat | i <= j :: Bit(result, i) == Bit(value, j - i)
  }

  lemma ReversingBit(result: nat, value: nat, j: nat, i: nat)
    requires Reversing(result, value, j) && j < 31 && i <= j + 1
    ensures Bit(Or(Shl(result, 1, 32), And(Shr(value, j + 1), 1)), i) == Bit(value, j + 1 - i)
  {
    hide Bit, Or, Shl, And, Shr;
    BitOr(Shl(result, 1, 32), And(Shr(value, j + 1), 1), i);
    BitShl(result, 1, 32, i);
    BitAnd(Shr(value, j + 1), 1, i);
    BitShr(value, j + 1, i);
    BitMask(1, i);
    if 0 < i {
      assert Bit(result, i - 1) == Bit(value, j - (i - 1));
    }
  }

  lemma ReversingStep(result: nat, value: nat, j: nat)
    requires Reversing(result, value, j) && j < 31
    ensures Reversing(Or(Shl(result, 1, 32), And(Shr(value, j + 1), 1)), value, j + 1)
  {
    var next := Or(Shl(result, 1, 32), And(Shr(value, j + 1), 1));
    forall i: nat | i <= j + 1 ensures Bit(next, i) == Bit(value, j + 1 - i) {
      ReversingBit(result, value, j, i);
    }
  }

  lemma {:induction false} ShrSum(x: nat, m: nat, n: nat)
    ensures Shr(Shr(x, m), n) == Shr(x, m + n)
    decreases m
  {
    if 0 < m {
      ShrSum(x / 2, m - 1, n);
    }
  }

  /** Bits that were shifted out of a word that is zero afterwards. */
  lemma NothingAbove(value: nat, n: nat)
    requires Shr(value, n) == 0
    ensures forall i: nat | n <= i :: !Bit(value, i)
  {
    forall i: nat | n <= i ensures !Bit(value, i) {
      BitShr(value, n, i - n);
      BitOfZero(i - n);
    }
  }

  lemma ShrTooFar(value: nat, n: nat)
    requires value < Pow2(n)
    ensures Shr(value, n) == 0
  {
    forall i: nat ensures Bit(Shr(value, n), i) == Bit(0, i) {
      BitShr(value, n, i);
      BitsBeyond(value, n, i + n);
      BitOfZero(i);
    }
    SameBits(Shr(value, n), 0);
  }

  /** `__RBIT`. The loop ends once no bits are left; the last shift makes up for the missing steps. */
  method Rbit(value: nat) returns (result: nat)
    requires value < Pow2(32)
    ensures Reversed(result, value)
  {
    hide Bit, Shr, Shl, And, Or, Pow2, Reversing;
    result := value;
    var s := 31;
    var v := Shr(value, 1);
    ReversingStart(value);
    while v != 0
      invariant 0 <= s <= 31 && v == Shr(value, 32 - s) && Reversing(result, value, 31 - s)
      decreases s, v
    {
      if s == 0 {
        ShrTooFar(value, 32);
      }
      ReversingStep(result, value, 31 - s);
      ShrSum(value, 32 - s, 1);
      result := Shl(result, 1, 32);
      result := Or(result, And(v, 1));
      s := s - 1;
      v := Shr(v, 1);
    }
    ReversingEnd(result, value, s);
    result := Shl(result, s, 32);
  }

  lemma ReversingStart(value: nat)
    ensures Reversing(value, value, 0)
  {
  }

  lemma ReversingEnd(result: nat, value: nat, s: nat)
    requires s <= 31 && Shr(value, 32 - s) == 0 && Reversing(result, value, 31 - s)
    ensures Reversed(Shl(result, s, 32), value)
  {
    NothingAbove(value, 32 - s);
    forall i: nat ensures Bit(Shl(result, s, 32), i) == (i < 32 && Bit(value, 31 - i)) {
      BitShl(result, s, 32, i);
      if s <= i < 32 {
        assert Bit(result, i - s) == Bit(value, 31 - s - (i - s));
      }
    }
    BoundFromBits(Shl(result, s, 32), 32);
  }

  /** Reversing twice gives the word back. */
  lemma ReversalInvolutive(x: nat, r: nat, q: nat)
    requires x < Pow2(32) && Reversed(r, x) && Reversed(q, r)
    ensures q == x
  {
    forall i: nat ensures Bit(q, i) == Bit(x, i) {
      if i < 32 {
        assert Bit(r, 31 - i) == Bit(x, 31 - (31 - i));
      } else {
        BitsBeyond(q, 32, i);
        BitsBeyond(x, 32, i);
      }
    }
    SameBits(q, x);
  }

  /** The number of zero bits above the highest one of a 32-bit word, 32 for zero. */
  ghost predicate LeadingZeros(x: nat, n: nat) {
    n <= 32 && (forall i: nat | 32 - n <= i < 32 :: !Bit(x, i)) && (n < 32 ==> Bit(x, 31 - n))
  }

  /** The complement after `n` shifts. */
  ghost predicate Shifted(temp: nat, data: nat, n: nat) {
    forall i: nat :: Bit(temp, i) <==> n <= i < 32 && !Bit(data, i - n)
  }

  lemma ShiftedStep(temp: nat, data: nat, n: nat)
    requires Shifted(temp, data, n)
    ensures Shifted(Shl(temp, 1, 32), data, n + 1)
  {
    forall i: nat ensures Bit(Shl(temp, 1, 32), i) <==> n + 1 <= i < 32 && !Bit(data, i - (n + 1)) {
      BitShl(temp, 1, 32, i);
    }
  }

  /** `__CLZ`; it needs at most 32 steps, also for zero. */
  method Clz(data: nat) returns (ret: nat)
    requires data < Pow2(32)
    ensures LeadingZeros(data, ret)
  {
    hide Shl, And, Pow2, Not;
    ret := 0;
    var temp := Not(data, 32);
    forall i: nat ensures Bit(temp, i) <==> i < 32 && !Bit(data, i) {
      BitNot(data, 32, i);
    }
    Powers();
    TestBit(temp, 31);
    while And(temp, 0x8000_0000) != 0
      invariant ret <= 32 && Shifted(temp, data, ret)
      invariant forall i: nat | 32 - ret <= i < 32 :: !Bit(data, i)
      invariant And(temp, 0x8000_0000) != 0 <==> Bit(temp, 31)
      decreases 32 - ret
    {
      assert ret <= 31 && !Bit(data, 31 - ret);
      ShiftedStep(temp, data, ret);
      temp := Shl(temp, 1, 32);
      ret := ret + 1;
      TestBit(temp, 31);
    }
    assert Bit(temp, 31) <==> ret <= 31 && !Bit(data, 31 - ret);
  }

  /** `__CTZ`; it never ends on zero. */
  method Ctz(data: nat) returns (ret: nat)
    requires data != 0
    ensures ret == Lowest(data)
  {
    ret := 0;
    var rest := data;
    LowBit(rest);
    while And(rest, 1) == 0
      invariant rest != 0 && ret + Lowest(rest) == Lowest(data)
      invariant And(rest, 1) == FromBit(Bit(rest, 0))
      decreases rest
    {
      ret := ret + 1;
      rest := Shr(rest, 1);
      LowBit(rest);
    }
  }

  /** Counting leading zeros is counting trailing zeros of the reversed word. */
  lemma LeadingIsTrailingOfReversed(x: nat, r: nat, n: nat)
    requires 0 < x < Pow2(32) && Reversed(r, x) && LeadingZeros(x, n)
    ensures r != 0 && Lowest(r) == n
  {
    if n == 32 {
      var i := SomeBit(x);
      if 32 <= i {
        BitsBeyond(x, 32, i);
      }
    }
    assert Bit(r, n) == Bit(x, 31 - n);
    BitOfZero(n);
    forall k: nat | k < n ensures !Bit(r, k) {
      assert Bit(r, k) == Bit(x, 31 - k);
    }
    LowestIs(r, n);
  }
}
