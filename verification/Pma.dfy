/** Physical memory attributes: a region as a mask and a base register. */
module Pma {
  import opened Bits
  import opened BitLoops

  const PAGE_BITS := 12
  const TYPE_MASK := 0x0E

  /** `regionType` and `enable` are separate fields of the request, one register of the hardware. */
  datatype Region = Region(base: nat, size: nat, regionType: nat, enable: nat)

  /** `(x >> 12) << 12` in a word. */
  function PageAligned(x: nat, xlen: nat): nat {
    Shl(Shr(x, PAGE_BITS), PAGE_BITS, xlen)
  }

  /** The mask register; the subtraction wraps for a size of zero. */
  function MaskOf(size: nat, xlen: nat): nat {
    Not(if size == 0 then Pow2(xlen) - 1 else size - 1, xlen)
  }

  function BaseWord(r: Region, xlen: nat): nat {
    Or(Or(r.regionType, PageAligned(r.base, xlen)), r.enable)
  }

  /** What is read back from a mask and a base register of a machine with `paSize` address bits. */
  function Decode(mask: nat, base: nat, xlen: nat, paSize: nat): Region {
    Region(PageAligned(base, xlen), Shl(1, if mask == 0 then paSize else Lowest(mask), xlen),
           And(base, TYPE_MASK), And(base, 1))
  }

  lemma PageAlignedBits(x: nat, xlen: nat, i: nat)
    ensures Bit(PageAligned(x, xlen), i) <==> PAGE_BITS <= i < xlen && Bit(x, i)
  {
    hide Bit, Shl, Shr;
    BitShl(Shr(x, PAGE_BITS), PAGE_BITS, xlen, i);
    if PAGE_BITS <= i {
      BitShr(x, PAGE_BITS, i - PAGE_BITS);
    }
  }

  /** Subtracting one turns the lowest set bit and the zeros below it around. */
  lemma {:induction false} PredecessorBits(x: nat, i: nat)
    requires x != 0
    ensures Bit(x - 1, i) <==> if i <= Lowest(x) then i < Lowest(x) else Bit(x, i)
    decreases i
  {
    if x % 2 == 1 {
      if 0 < i {
        assert (x - 1) / 2 == x / 2;
      }
    } else if 0 < i {
      assert (x - 1) / 2 == x / 2 - 1;
      PredecessorBits(x / 2, i - 1);
    }
  }

  lemma MaskBits(size: nat, xlen: nat, i: nat)
    requires size < Pow2(xlen)
    ensures Bit(MaskOf(size, xlen), i) <==>
            i < xlen && size != 0 && (i == Lowest(size) || (Lowest(size) < i && !Bit(size, i)))
  {
    hide Bit, Pow2, Lowest, Not;
    if size == 0 {
      BitNot(Pow2(xlen) - 1, xlen, i);
      BitMask(xlen, i);
    } else {
      BitNot(size - 1, xlen, i);
      PredecessorBits(size, i);
    }
  }

  lemma {:induction false} LowestBelow(x: nat, w: nat)
    requires 0 < x < Pow2(w)
    ensures Lowest(x) < w
  {
    if w <= Lowest(x) {
      BitsBeyond(x, w, Lowest(x));
    }
  }

  /** The implemented part of the mask register loses only what exceeds the address space. */
  lemma MaskLowest(size: nat, xlen: nat, paSize: nat)
    requires size < Pow2(xlen) && paSize <= xlen
    ensures var mask := Cut(MaskOf(size, xlen), paSize);
            && (mask == 0 <==> size == 0 || paSize <= Lowest(size))
            && (mask != 0 ==> Lowest(mask) == Lowest(size))
  {
    hide Bit, Pow2, Lowest, Not, Cut, MaskOf;
    var mask := Cut(MaskOf(size, xlen), paSize);
    forall i: nat
      ensures Bit(mask, i) <==>
              i < paSize && size != 0 && (i == Lowest(size) || (Lowest(size) < i && !Bit(size, i)))
    {
      BitCut(MaskOf(size, xlen), paSize, i);
      MaskBits(size, xlen, i);
    }
    if mask != 0 {
      var i := SomeBit(mask);
      LowestIs(mask, Lowest(size));
    } else if size != 0 {
      BitOfZero(Lowest(size));
    }
  }

  ghost predicate PageMultiple(x: nat) {
    forall i: nat | i < PAGE_BITS :: !Bit(x, i)
  }

  lemma PageMultipleIff(x: nat)
    ensures PageMultiple(x) <==> x % 4096 == 0
  {
    Pow2Of12();
    QuotientAndRemainder(x, 12);
    hide Pow2, Cut, Shr, Bit;
    if x % 4096 == 0 {
      forall i: nat | i < PAGE_BITS ensures !Bit(x, i) {
        LowBitClear(x, 12, i);
      }
    } else {
      var i := LowBitSet(x, 12);
      assert i < PAGE_BITS && Bit(x, i);
    }
  }

  lemma PageAlignedIs(x: nat, xlen: nat)
    requires x < Pow2(xlen)
    ensures PageAligned(x, xlen) < Pow2(xlen)
    ensures PageAligned(x, xlen) == x <==> PageMultiple(x)
  {
    hide Bit, Pow2, PageAligned;
    forall i: nat
      ensures Bit(PageAligned(x, xlen), i) <==> PAGE_BITS <= i < xlen && Bit(x, i)
      ensures xlen <= i ==> !Bit(x, i)
    {
      PageAlignedBits(x, xlen, i);
      if xlen <= i {
        BitsBeyond(x, xlen, i);
      }
    }
    BoundFromBits(PageAligned(x, xlen), xlen);
    if PageMultiple(x) {
      SameBits(PageAligned(x, xlen), x);
    } else {
      var i: nat :| i < PAGE_BITS && Bit(x, i);
      assert !Bit(PageAligned(x, xlen), i);
    }
  }

  /** A power of two of at least a page that the address space can hold. */
  ghost predicate GoodSize(size: nat, paSize: nat) {
    exists k: nat :: PAGE_BITS <= k <= paSize && size == Pow2(k)
  }

  lemma LowestOfPow2(k: nat)
    ensures Lowest(Pow2(k)) == k
  {
    hide Bit, Lowest;
    forall i: nat ensures Bit(Pow2(k), i) <==> i == k {
      BitPow2(k, i);
    }
    LowestIs(Pow2(k), k);
  }

  /** The size read back after a request: the lowest set bit of the requested size, or the whole
      address space. It is the requested size exactly for a power of two of at least a page. */
  lemma SizeBackIff(size: nat, xlen: nat, paSize: nat)
    requires size < Pow2(xlen) && PAGE_BITS <= paSize < xlen
    ensures var s := PageAligned(size, xlen);
            var back := Decode(Cut(MaskOf(s, xlen), paSize), 0, xlen, paSize).size;
            && back == (if s == 0 || paSize <= Lowest(s) then Pow2(paSize) else Pow2(Lowest(s)))
            && (back == size <==> GoodSize(size, paSize))
  {
    hide Bit, Pow2, Lowest, Not, Cut, MaskOf, PageAligned;
    var s := PageAligned(size, xlen);
    PageAlignedIs(size, xlen);
    MaskLowest(s, xlen, paSize);
    if s != 0 {
      LowestBelow(s, xlen);
      ShiftedOne(Lowest(s), xlen);
    }
    ShiftedOne(paSize, xlen);
    var k := if s == 0 || paSize <= Lowest(s) then paSize else Lowest(s);
    if s != 0 {
      PageAlignedBits(size, xlen, Lowest(s));
    }
    if GoodSize(size, paSize) {
      var n: nat :| PAGE_BITS <= n <= paSize && size == Pow2(n);
      LowestOfPow2(n);
      forall i: nat | i < PAGE_BITS ensures !Bit(size, i) {
        BitPow2(n, i);
      }
    } else {
      assert size != Pow2(k);
    }
  }

  /** A type within its field. */
  predicate GoodFields(r: Region) {
    r.enable <= 1 && And(r.regionType, TYPE_MASK) == r.regionType
  }

  lemma TypeMaskBits(i: nat)
    ensures Bit(TYPE_MASK, i) <==> 1 <= i <= 3
  {
    if 4 <= i {
      assert TYPE_MASK < Pow2(4);
      BitsBeyond(TYPE_MASK, 4, i);
    }
  }

  lemma BaseWordBits(r: Region, xlen: nat, i: nat)
    requires GoodFields(r)
    ensures Bit(BaseWord(r, xlen), i) <==>
            if i == 0 then r.enable == 1
            else if i <= 3 then Bit(r.regionType, i)
            else PAGE_BITS <= i < xlen && Bit(r.base, i)
  {
    hide Bit, Or, And, Pow2, PageAligned;
    BitOr(Or(r.regionType, PageAligned(r.base, xlen)), r.enable, i);
    BitOr(r.regionType, PageAligned(r.base, xlen), i);
    PageAlignedBits(r.base, xlen, i);
    BitAnd(r.regionType, TYPE_MASK, i);
    TypeMaskBits(i);
    SmallBit(r.enable, i);
  }

  lemma SmallBit(x: nat, i: nat)
    requires x <= 1
    ensures Bit(x, i) <==> i == 0 && x == 1
  {
    if 0 < i {
      BitOfZero(i - 1);
    }
  }

  lemma OneBit(i: nat)
    ensures Bit(1, i) <==> i == 0
  {
    SmallBit(1, i);
  }

  /** Type, enable flag and page-aligned base are read back; a lower base is rounded down. */
  lemma FieldsBack(r: Region, mask: nat, xlen: nat, paSize: nat)
    requires GoodFields(r) && r.base < Pow2(xlen) && PAGE_BITS <= xlen
    ensures var back := Decode(mask, BaseWord(r, xlen), xlen, paSize);
            && back.regionType == r.regionType && back.enable == r.enable
            && back.base == PageAligned(r.base, xlen)
            && (back.base == r.base <==> PageMultiple(r.base))
  {
    hide Bit, Or, And, Pow2, PageAligned, BaseWord, Shl, Lowest;
    var word := BaseWord(r, xlen);
    forall i: nat
      ensures Bit(And(word, TYPE_MASK), i) == Bit(r.regionType, i)
      ensures Bit(And(word, 1), i) == Bit(r.enable, i)
      ensures Bit(PageAligned(word, xlen), i) == Bit(PageAligned(r.base, xlen), i)
    {
      BaseWordBits(r, xlen, i);
      BitAnd(word, TYPE_MASK, i);
      BitAnd(r.regionType, TYPE_MASK, i);
      TypeMaskBits(i);
      BitAnd(word, 1, i);
      OneBit(i);
      SmallBit(r.enable, i);
      PageAlignedBits(word, xlen, i);
      PageAlignedBits(r.base, xlen, i);
    }
    SameBits(And(word, TYPE_MASK), r.regionType);
    SameBits(And(word, 1), r.enable);
    SameBits(PageAligned(word, xlen), PageAligned(r.base, xlen));
    PageAlignedIs(r.base, xlen);
  }

  /** A region that was set is read back exactly when its size is a power of two the machine can
      hold and its base is page-aligned. */
  lemma RegionBackIff(r: Region, xlen: nat, paSize: nat)
    requires GoodFields(r) && r.base < Pow2(xlen) && r.size < Pow2(xlen) && PAGE_BITS <= paSize < xlen
    ensures var mask := Cut(MaskOf(PageAligned(r.size, xlen), xlen), paSize);
            Decode(mask, BaseWord(r, xlen), xlen, paSize) == r <==> GoodSize(r.size, paSize) && PageMultiple(r.base)
  {
    var mask := Cut(MaskOf(PageAligned(r.size, xlen), xlen), paSize);
    SizeBackIff(r.size, xlen, paSize);
    FieldsBack(r, mask, xlen, paSize);
    hide Bit, Pow2, Lowest, Not, Cut, MaskOf, PageAligned, BaseWord, And, Shl, GoodSize, PageMultiple, GoodFields;
  }

  /** The base register is the page-aligned base with the enable flag in bit 0 and the type above it. */
  lemma BaseWordIs(r: Region, xlen: nat)
    requires GoodFields(r) && r.base < Pow2(xlen) && PageMultiple(r.base) && r.regionType < 16
    ensures BaseWord(r, xlen) == r.base + r.regionType + r.enable
  {
    PageAlignedIs(r.base, xlen);
    hide PageAligned, Pow2;
    EvenType(r.regionType);
    OrLowest(r.base, r.regionType, r.enable);
  }

  lemma EvenType(t: nat)
    requires t < 16 && And(t, TYPE_MASK) == t
    ensures t % 2 == 0
  {
    assert And(t, 14) % 2 == 0;
  }

  /** Small numbers or-ed into a multiple of a page are added. */
  lemma OrLowest(base: nat, t: nat, e: nat)
    requires PageMultiple(base) && t < 16 && t % 2 == 0 && e <= 1
    ensures Or(Or(t, base), e) == base + t + e
  {
    ShiftedBase(base, 4);
    var q := base / 16;
    hide *;
    OrDisjoint(t, q, 4);
    EvenSum(t, q);
    OrLowBit(t + 16 * q, e);
  }

  lemma EvenSum(t: nat, q: nat)
    requires t % 2 == 0
    ensures (t + 16 * q) % 2 == 0
  {
  }

  lemma OrLowBit(x: nat, e: nat)
    requires x % 2 == 0 && e <= 1
    ensures Or(x, e) == x + e
  {
    var half := x / 2;
    assert Pow2(1) == 2 && Shift(half, 1) == 2 * Shift(half, 0) == x;
    hide Or;
    OrSwap(x, e);
    OrDisjoint(e, half, 1);
  }

  lemma ShiftedBase(base: nat, n: nat)
    requires PageMultiple(base) && n == 4
    ensures Pow2(n) == 16 && Shift(base / 16, n) == base == 16 * (base / 16)
  {
    assert Pow2(4) == 16;
    QuotientAndRemainder(base, 4);
    if Cut(base, 4) != 0 {
      var i := LowBitSet(base, 4);
    }
    ShiftIsProduct(base / 16, 4);
  }

  /** The mask register of a region of 2^k bytes: ones from bit `k` up, as many as there are address bits. */
  lemma MaskIs(k: nat, xlen: nat, paSize: nat, i: nat)
    requires PAGE_BITS <= k <= paSize < xlen
    ensures var mask := Cut(MaskOf(PageAligned(Pow2(k), xlen), xlen), paSize);
            Bit(mask, i) <==> k <= i < paSize
  {
    hide Bit, Pow2, Lowest, Cut, MaskOf, PageAligned;
    Pow2Monotonic(k, xlen);
    PageAlignedIs(Pow2(k), xlen);
    forall j: nat | j < PAGE_BITS ensures !Bit(Pow2(k), j) {
      BitPow2(k, j);
    }
    LowestOfPow2(k);
    BitCut(MaskOf(Pow2(k), xlen), paSize, i);
    MaskBits(Pow2(k), xlen, i);
    BitPow2(k, i);
  }

  /** An address is in the region exactly when it agrees with the base under the mask. */
  lemma RegionMatches(r: Region, k: nat, xlen: nat, paSize: nat, a: nat)
    requires PAGE_BITS <= k <= paSize < xlen && r.size == Pow2(k) && r.base < Pow2(paSize) && a < Pow2(paSize)
    requires forall i: nat | i < k :: !Bit(r.base, i)
    ensures var mask := Cut(MaskOf(PageAligned(r.size, xlen), xlen), paSize);
            And(a, mask) == And(r.base, mask) <==> r.base <= a < r.base + r.size
  {
    hide Bit, Pow2, And, Shr, Cut, MaskOf, PageAligned;
    var mask := Cut(MaskOf(PageAligned(r.size, xlen), xlen), paSize);
    Interval(a, r.base, k);
    forall i: nat
      ensures Bit(And(a, mask), i) <==> Bit(a, i) && k <= i
      ensures Bit(And(r.base, mask), i) <==> Bit(r.base, i) && k <= i
      ensures Bit(Shr(a, k), i) == Bit(a, k + i) && Bit(Shr(r.base, k), i) == Bit(r.base, k + i)
    {
      MaskIs(k, xlen, paSize, i);
      BitAnd(a, mask, i);
      BitAnd(r.base, mask, i);
      BitShr(a, k, i);
      BitShr(r.base, k, i);
      if paSize <= i {
        BitsBeyond(a, paSize, i);
        BitsBeyond(r.base, paSize, i);
      }
    }
    if And(a, mask) == And(r.base, mask) {
      forall i: nat ensures Bit(Shr(a, k), i) == Bit(Shr(r.base, k), i) {
        assert Bit(And(a, mask), k + i) == Bit(And(r.base, mask), k + i);
      }
      SameBits(Shr(a, k), Shr(r.base, k));
    } else if Shr(a, k) == Shr(r.base, k) {
      forall i: nat ensures Bit(And(a, mask), i) == Bit(And(r.base, mask), i) {
        if k <= i {
          assert Bit(Shr(a, k), i - k) == Bit(Shr(r.base, k), i - k);
        }
      }
      SameBits(And(a, mask), And(r.base, mask));
    }
  }

  class PmaUnit {
    const xlen: nat
    const paSize: nat
    const entries: nat
    const mask: array<nat>
    const base: array<nat>

    ghost predicate Valid()
      reads mask, base
    {
      && (xlen == 32 || xlen == 64) && PAGE_BITS <= paSize < xlen && entries <= 8
      && mask.Length == base.Length == 8 && mask != base
    }

    constructor (xlen: nat, paSize: nat, entries: nat)
      requires (xlen == 32 || xlen == 64) && PAGE_BITS <= paSize < xlen && entries <= 8
      ensures Valid() && this.xlen == xlen && this.paSize == paSize && this.entries == entries
      ensures fresh(mask) && fresh(base)
    {
      this.xlen, this.paSize, this.entries := xlen, paSize, entries;
      mask, base := new nat[8](_ => 0), new nat[8](_ => 0);
    }

    /** `PMA_SetRegion` */
    method SetRegion(entry: nat, r: Region) returns (rc: int)
      requires Valid() && r.size < Pow2(xlen) && r.base < Pow2(xlen)
      modifies mask, base
      ensures rc == if entry < entries then 0 else -1
      ensures rc == -1 ==> mask[..] == old(mask[..]) && base[..] == old(base[..])
      ensures rc == 0 ==>
                && entry < 8
                && mask[..] == old(mask[..])[entry := Cut(MaskOf(PageAligned(r.size, xlen), xlen), paSize)]
                && base[..] == old(base[..])[entry := BaseWord(r, xlen)]
    {
      hide Pow2, Shl, Shr, Or, Not, Cut;
      var size := Shl(Shr(r.size, 12), 12, xlen);
      var baseAddr := Shl(Shr(r.base, 12), 12, xlen);
      if entry + 1 > entries {
        return -1;
      }
      var maskWord := Not(if size == 0 then Pow2(xlen) - 1 else size - 1, xlen);
      mask[entry] := Cut(maskWord, paSize);
      base[entry] := Or(Or(r.regionType, baseAddr), r.enable);
      return 0;
    }

    /** `PMA_GetRegion` */
    method GetRegion(entry: nat) returns (rc: int, r: Region)
      requires Valid()
      ensures rc == if entry < entries then 0 else -1
      ensures rc == 0 ==> entry < 8 && r == Decode(mask[entry], base[entry], xlen, paSize)
    {
      hide Shl, Shr, And, Lowest;
      r := Region(0, 0, 0, 0);
      if entry + 1 > entries {
        return -1, r;
      }
      var bits := paSize;
      if mask[entry] != 0 {
        bits := Ctz(mask[entry]);
      }
      return 0, Region(Shl(Shr(base[entry], 12), 12, xlen), Shl(1, bits, xlen), And(base[entry], 0x0E), And(base[entry], 0x01));
    }
  }
}
