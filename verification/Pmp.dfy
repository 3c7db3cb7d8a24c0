/** Physical memory protection: encoding a region into an address and a configuration register and
    reading it back, for both word sizes. */
module Pmp {
  import opened Bytes
  import opened Bits
  import opened BitLoops

  const PMP_SHIFT := 2
  const PMP_A := 0x18
  const PMP_A_NA4 := 0x10
  const PMP_A_NAPOT := 0x18
  const REGISTERS := 16

  /** The configuration register of an entry; on 64-bit machines only the even ones exist. */
  function CfgReg(xlen: nat, entry: nat): nat {
    if xlen == 32 then entry / 4 else entry / 4 / 2 * 2
  }

  /** The place of an entry's byte in that register. */
  function CfgShift(xlen: nat, entry: nat): nat {
    entry % (if xlen == 32 then 4 else 8) * 8
  }

  lemma EntriesDistinct(xlen: nat, e: nat, f: nat)
    requires (xlen == 32 || xlen == 64) && e < REGISTERS && f < REGISTERS && e != f
    ensures CfgReg(xlen, e) < 4 && CfgShift(xlen, e) + 8 <= xlen
    ensures CfgReg(xlen, e) != CfgReg(xlen, f) || CfgShift(xlen, e) + 8 <= CfgShift(xlen, f)
         || CfgShift(xlen, f) + 8 <= CfgShift(xlen, e)
  {
    if xlen == 32 {
      assert e / 4 != f / 4 || e % 4 != f % 4;
    } else {
      assert e / 4 / 2 == e / 8 && f / 4 / 2 == f / 8;
      assert e / 8 != f / 8 || e % 8 != f % 8;
    }
  }

  /** Bit `b` of an entry's configuration byte. */
  predicate CfgBit(cfg: seq<nat>, xlen: nat, entry: nat, b: nat)
    requires |cfg| == 4 && CfgReg(xlen, entry) < 4
  {
    Bit(cfg[CfgReg(xlen, entry)], CfgShift(xlen, entry) + b)
  }

  function ModeOf(order: nat): nat {
    if order == PMP_SHIFT then PMP_A_NA4 else PMP_A_NAPOT
  }

  /** The configuration register with one byte replaced. */
  function NewCfg(was: nat, prot: nat, shift: nat, xlen: nat): nat {
    var cfgmask := Not(Shl(0xFF, shift, xlen), xlen);
    Or(And(was, cfgmask), And(Shl(prot, shift, xlen), Not(cfgmask, xlen)))
  }

  lemma Byte()
    ensures Pow2(8) - 1 == 0xFF
  {
  }

  lemma NewCfgBits(was: nat, prot: nat, shift: nat, xlen: nat, i: nat)
    requires shift + 8 <= xlen && i < xlen
    ensures Bit(NewCfg(was, prot, shift, xlen), i) <==>
            if shift <= i < shift + 8 then Bit(prot, i - shift) else Bit(was, i)
  {
    hide Bit, Not, Shl, Or, And, Pow2;
    var field := Shl(0xFF, shift, xlen);
    var cfgmask := Not(field, xlen);
    Byte();
    BitShl(0xFF, shift, xlen, i);
    if shift <= i {
      BitMask(8, i - shift);
    }
    BitNot(field, xlen, i);
    BitNot(cfgmask, xlen, i);
    BitAnd(was, cfgmask, i);
    BitShl(prot, shift, xlen, i);
    BitAnd(Shl(prot, shift, xlen), Not(cfgmask, xlen), i);
    BitOr(And(was, cfgmask), And(Shl(prot, shift, xlen), Not(cfgmask, xlen)), i);
  }

  /** The address register for a region. */
  function NewAddr(base: nat, order: nat, xlen: nat): nat
    requires PMP_SHIFT <= order <= xlen
  {
    if order == PMP_SHIFT then Shr(base, PMP_SHIFT)
    else
      ShiftedOne(order - PMP_SHIFT, xlen);
      var addrmask := Shl(1, order - PMP_SHIFT, xlen) - 1;
      Or(And(Shr(base, PMP_SHIFT), Not(addrmask, xlen)), Shr(addrmask, 1))
  }

  /** Below the region's size the register holds ones up to one place short of it, then a zero. */
  lemma NewAddrBits(base: nat, order: nat, xlen: nat, i: nat)
    requires PMP_SHIFT <= order <= xlen && i < xlen
    ensures Bit(NewAddr(base, order, xlen), i) <==>
            (order - PMP_SHIFT <= i && Bit(base, i + PMP_SHIFT)) || i + 1 < order - PMP_SHIFT
  {
    hide Bit, Not, Shl, Or, And, Pow2, Shr;
    BitShr(base, PMP_SHIFT, i);
    if order != PMP_SHIFT {
      var k := order - PMP_SHIFT;
      ShiftedOne(k, xlen);
      var addrmask := Pow2(k) - 1;
      BitMask(k, i);
      BitMask(k, i + 1);
      BitNot(addrmask, xlen, i);
      BitAnd(Shr(base, PMP_SHIFT), Not(addrmask, xlen), i);
      BitShr(addrmask, 1, i);
      BitOr(And(Shr(base, PMP_SHIFT), Not(addrmask, xlen)), Shr(addrmask, 1), i);
    }
  }

  // Reading back.

  datatype Config = Config(protection: nat, order: nat, base: nat)

  function EntryByte(cfg: seq<nat>, xlen: nat, entry: nat): nat
    requires |cfg| == 4 && CfgReg(xlen, entry) < 4
  {
    Shr(And(cfg[CfgReg(xlen, entry)], Shl(0xFF, CfgShift(xlen, entry), xlen)), CfgShift(xlen, entry))
  }

  /** The address scan stops: the register is not all ones. */
  predicate HasZero(pmpaddr: nat, xlen: nat) {
    Not(pmpaddr, xlen) != 0
  }

  function IsNapot(prot: nat): bool {
    And(prot, PMP_A) == PMP_A_NAPOT
  }

  function TrailingOnes(pmpaddr: nat, xlen: nat): (t: nat)
    requires HasZero(pmpaddr, xlen)
    ensures t < xlen && !Bit(pmpaddr, t)
    ensures forall i: nat | i < t :: Bit(pmpaddr, i)
  {
    var t := Lowest(Not(pmpaddr, xlen));
    BitNot(pmpaddr, xlen, t);
    assert forall i: nat | i < t :: Bit(pmpaddr, i) by {
      forall i: nat | i < t ensures Bit(pmpaddr, i) {
        BitNot(pmpaddr, xlen, i);
      }
    }
    t
  }

  lemma TrailingOnesIs(pmpaddr: nat, xlen: nat, t: nat)
    requires t < xlen && !Bit(pmpaddr, t) && forall i: nat | i < t :: Bit(pmpaddr, i)
    ensures HasZero(pmpaddr, xlen) && TrailingOnes(pmpaddr, xlen) == t
  {
    BitNot(pmpaddr, xlen, t);
    BitOfZero(t);
    var u := TrailingOnes(pmpaddr, xlen);
  }

  function BaseOf(pmpaddr: nat, ones: nat, xlen: nat): nat
    requires ones < xlen
  {
    ShiftedOne(ones, xlen);
    Shl(And(pmpaddr, Not(Shl(1, ones, xlen) - 1, xlen)), PMP_SHIFT, xlen)
  }

  predicate Decodable(cfg: seq<nat>, addr: seq<nat>, xlen: nat, entry: nat) {
    && |cfg| == 4 && |addr| == REGISTERS && entry < REGISTERS && CfgReg(xlen, entry) < 4
    && (IsNapot(EntryByte(cfg, xlen, entry)) ==> HasZero(addr[entry], xlen))
  }

  function Decode(cfg: seq<nat>, addr: seq<nat>, xlen: nat, entry: nat): Config
    requires Decodable(cfg, addr, xlen, entry)
  {
    var prot, pmpaddr := EntryByte(cfg, xlen, entry), addr[entry];
    if IsNapot(prot) then
      var ones := TrailingOnes(pmpaddr, xlen);
      Config(prot, ones + PMP_SHIFT + 1, BaseOf(pmpaddr, ones, xlen))
    else Config(prot, PMP_SHIFT, Shl(pmpaddr, PMP_SHIFT, xlen))
  }

  lemma BaseOfBits(pmpaddr: nat, ones: nat, xlen: nat, i: nat)
    requires ones < xlen
    ensures Bit(BaseOf(pmpaddr, ones, xlen), i) <==>
            PMP_SHIFT <= i < xlen && ones <= i - PMP_SHIFT && Bit(pmpaddr, i - PMP_SHIFT)
  {
    hide Bit, Not, Shl, And, Pow2;
    ShiftedOne(ones, xlen);
    var kept := And(pmpaddr, Not(Pow2(ones) - 1, xlen));
    BitShl(kept, PMP_SHIFT, xlen, i);
    if PMP_SHIFT <= i {
      BitAnd(pmpaddr, Not(Pow2(ones) - 1, xlen), i - PMP_SHIFT);
      BitNot(Pow2(ones) - 1, xlen, i - PMP_SHIFT);
      BitMask(ones, i - PMP_SHIFT);
    }
  }

  lemma EntryByteBits(cfg: seq<nat>, xlen: nat, entry: nat, b: nat)
    requires |cfg| == 4 && (xlen == 32 || xlen == 64) && entry < REGISTERS && CfgReg(xlen, entry) < 4
    ensures Bit(EntryByte(cfg, xlen, entry), b) <==> b < 8 && CfgBit(cfg, xlen, entry, b)
  {
    hide Bit, Shl, And, Pow2, Shr;
    var reg, shift := cfg[CfgReg(xlen, entry)], CfgShift(xlen, entry);
    BitShr(And(reg, Shl(0xFF, shift, xlen)), shift, b);
    BitAnd(reg, Shl(0xFF, shift, xlen), b + shift);
    BitShl(0xFF, shift, xlen, b + shift);
    Byte();
    BitMask(8, b);
  }

  lemma NapotBits(prot: nat)
    ensures IsNapot(prot) <==> Bit(prot, 3) && Bit(prot, 4)
  {
    assert PMP_A == 0x18;
    ABits();
    if IsNapot(prot) {
      BitAnd(prot, PMP_A, 3);
      BitAnd(prot, PMP_A, 4);
    } else if Bit(prot, 3) && Bit(prot, 4) {
      forall i: nat ensures Bit(And(prot, PMP_A), i) == Bit(PMP_A, i) {
        BitAnd(prot, PMP_A, i);
        ABit(i);
      }
      SameBits(And(prot, PMP_A), PMP_A);
    }
  }

  lemma ABits()
    ensures Bit(PMP_A, 3) && Bit(PMP_A, 4) && Bit(PMP_A_NA4, 4) && !Bit(PMP_A_NA4, 3)
  {
  }

  lemma ABit(i: nat)
    ensures Bit(PMP_A, i) <==> i == 3 || i == 4
    ensures Bit(PMP_A_NA4, i) <==> i == 4
  {
    if 5 <= i {
      assert PMP_A < Pow2(5);
      BitsBeyond(PMP_A, 5, i);
      BitsBeyond(PMP_A_NA4, 5, i);
    }
  }

  // Writing, as far as the address register is implemented.

  predicate Sizes(xlen: nat, addrBits: nat) {
    (xlen == 32 && addrBits == 32) || (xlen == 64 && addrBits == 54)
  }

  function Stored(base: nat, order: nat, xlen: nat, addrBits: nat): nat
    requires PMP_SHIFT <= order <= xlen
  {
    Cut(NewAddr(base, order, xlen), addrBits)
  }

  lemma StoredBits(base: nat, order: nat, xlen: nat, addrBits: nat, i: nat)
    requires PMP_SHIFT <= order <= xlen && Sizes(xlen, addrBits)
    ensures Bit(Stored(base, order, xlen, addrBits), i) <==>
            i < addrBits && ((order - PMP_SHIFT <= i && Bit(base, i + PMP_SHIFT)) || i + 1 < order - PMP_SHIFT)
  {
    hide NewAddr, Cut, Bit;
    BitCut(NewAddr(base, order, xlen), addrBits, i);
    if i < addrBits {
      NewAddrBits(base, order, xlen, i);
    }
  }

  /** The order comes back exactly when it does not exceed the largest region an address register
      can describe. */
  lemma OrderBackIff(base: nat, order: nat, xlen: nat, addrBits: nat)
    requires PMP_SHIFT < order <= xlen && Sizes(xlen, addrBits)
    ensures var r := Stored(base, order, xlen, addrBits);
            && HasZero(r, xlen)
            && TrailingOnes(r, xlen) == if order <= addrBits + 3 then order - 3 else addrBits
  {
    hide Stored, Bit, Pow2, HasZero, TrailingOnes;
    var r := Stored(base, order, xlen, addrBits);
    var t := if order <= addrBits + 3 then order - 3 else addrBits;
    StoredBits(base, order, xlen, addrBits, t);
    forall i: nat | i < t ensures Bit(r, i) {
      StoredBits(base, order, xlen, addrBits, i);
    }
    TrailingOnesIs(r, xlen, t);
  }

  /** A base the hardware can hold: a multiple of the region's size, within the address range. */
  ghost predicate GoodBase(base: nat, order: nat, addrBits: nat) {
    && (forall i: nat | i < order :: !Bit(base, i))
    && (forall i: nat | addrBits + PMP_SHIFT <= i :: !Bit(base, i))
  }

  /** That is: aligned to the size, and below four times the range of the address register. */
  lemma GoodBaseIff(base: nat, order: nat, addrBits: nat)
    ensures GoodBase(base, order, addrBits) <==> base % Pow2(order) == 0 && base < Pow2(addrBits + 2)
  {
    QuotientAndRemainder(base, order);
    hide Pow2, Cut, Shr, Bit;
    if base % Pow2(order) != 0 {
      var i := LowBitSet(base, order);
      assert !GoodBase(base, order, addrBits);
    } else if Pow2(addrBits + 2) <= base {
      var i := HighBitSet(base, addrBits + 2);
      assert !GoodBase(base, order, addrBits);
    } else {
      forall i: nat | i < order ensures !Bit(base, i) {
        LowBitClear(base, order, i);
      }
      forall i: nat | addrBits + 2 <= i ensures !Bit(base, i) {
        BitsBeyond(base, addrBits + 2, i);
      }
    }
  }

  /** What is read back as base of a stored region; `ones` is 0 for a four-byte region. */
  lemma BaseBackBits(base: nat, order: nat, xlen: nat, addrBits: nat, i: nat)
    requires PMP_SHIFT <= order <= xlen && order <= addrBits + 3 && Sizes(xlen, addrBits)
    ensures var r, ones := Stored(base, order, xlen, addrBits), if order == PMP_SHIFT then 0 else order - 3;
            Bit(BaseOf(r, ones, xlen), i) <==> order <= i < xlen && i < addrBits + PMP_SHIFT && Bit(base, i)
  {
    hide Stored, Bit, BaseOf;
    var r, ones := Stored(base, order, xlen, addrBits), if order == PMP_SHIFT then 0 else order - 3;
    BaseOfBits(r, ones, xlen, i);
    if PMP_SHIFT <= i {
      StoredBits(base, order, xlen, addrBits, i - PMP_SHIFT);
    }
  }

  lemma BaseBackIff(base: nat, order: nat, xlen: nat, addrBits: nat)
    requires PMP_SHIFT <= order <= xlen && order <= addrBits + 3 && Sizes(xlen, addrBits) && base < Pow2(xlen)
    ensures var r, ones := Stored(base, order, xlen, addrBits), if order == PMP_SHIFT then 0 else order - 3;
            BaseOf(r, ones, xlen) == base <==> GoodBase(base, order, addrBits)
  {
    hide Stored, BaseOf, Pow2, Bit;
    var r, ones := Stored(base, order, xlen, addrBits), if order == PMP_SHIFT then 0 else order - 3;
    var back := BaseOf(r, ones, xlen);
    forall i: nat
      ensures Bit(back, i) <==> order <= i < xlen && i < addrBits + PMP_SHIFT && Bit(base, i)
      ensures xlen <= i ==> !Bit(base, i)
    {
      BaseBackBits(base, order, xlen, addrBits, i);
      if xlen <= i {
        BitsBeyond(base, xlen, i);
      }
    }
    if GoodBase(base, order, addrBits) {
      SameBits(back, base);
    }
  }

  // Setting an entry and reading it back.

  function CfgAfter(cfg: seq<nat>, xlen: nat, entry: nat, prot: nat): (r: seq<nat>)
    requires |cfg| == 4 && CfgReg(xlen, entry) < 4
    ensures |r| == 4
  {
    cfg[CfgReg(xlen, entry) := NewCfg(cfg[CfgReg(xlen, entry)], prot, CfgShift(xlen, entry), xlen)]
  }

  lemma ByteAfter(cfg: seq<nat>, xlen: nat, entry: nat, prot: nat)
    requires |cfg| == 4 && (xlen == 32 || xlen == 64) && entry < REGISTERS && CfgReg(xlen, entry) < 4
    ensures EntryByte(CfgAfter(cfg, xlen, entry, prot), xlen, entry) == Cut(prot, 8)
  {
    hide EntryByte, NewCfg, Bit, Cut;
    var after := CfgAfter(cfg, xlen, entry, prot);
    EntriesDistinct(xlen, entry, if entry == 0 then 1 else 0);
    forall b: nat ensures Bit(EntryByte(after, xlen, entry), b) == Bit(Cut(prot, 8), b) {
      EntryByteBits(after, xlen, entry, b);
      BitCut(prot, 8, b);
      if b < 8 {
        NewCfgBits(cfg[CfgReg(xlen, entry)], prot, CfgShift(xlen, entry), xlen, CfgShift(xlen, entry) + b);
      }
    }
    SameBits(EntryByte(after, xlen, entry), Cut(prot, 8));
  }

  /** The other entries keep their bytes. */
  lemma OtherByteAfter(cfg: seq<nat>, xlen: nat, entry: nat, prot: nat, other: nat)
    requires |cfg| == 4 && (xlen == 32 || xlen == 64) && entry < REGISTERS && other < REGISTERS && other != entry
    requires CfgReg(xlen, entry) < 4 && CfgReg(xlen, other) < 4
    ensures EntryByte(CfgAfter(cfg, xlen, entry, prot), xlen, other) == EntryByte(cfg, xlen, other)
  {
    hide EntryByte, NewCfg, Bit;
    var after := CfgAfter(cfg, xlen, entry, prot);
    EntriesDistinct(xlen, entry, other);
    EntriesDistinct(xlen, other, entry);
    forall b: nat ensures Bit(EntryByte(after, xlen, other), b) == Bit(EntryByte(cfg, xlen, other), b) {
      EntryByteBits(after, xlen, other, b);
      EntryByteBits(cfg, xlen, other, b);
      if b < 8 && CfgReg(xlen, other) == CfgReg(xlen, entry) {
        NewCfgBits(cfg[CfgReg(xlen, entry)], prot, CfgShift(xlen, entry), xlen, CfgShift(xlen, other) + b);
      }
    }
    SameBits(EntryByte(after, xlen, other), EntryByte(cfg, xlen, other));
  }

  /** The byte with the address-matching mode filled in. */
  lemma ModeBits(protection: nat, order: nat)
    ensures var byte := Cut(Or(protection, ModeOf(order)), 8);
            && (IsNapot(byte) <==> order != PMP_SHIFT || Bit(protection, 3))
            && (byte == Or(protection, ModeOf(order)) <==> protection < Pow2(8))
  {
    hide Bit, Cut, Or, IsNapot, Pow2;
    var mode := ModeOf(order);
    var prot := Or(protection, mode);
    NapotBits(Cut(prot, 8));
    forall i: nat
      ensures Bit(prot, i) <==> Bit(protection, i) || i == 4 || (i == 3 && order != PMP_SHIFT)
    {
      BitOr(protection, mode, i);
      ABit(i);
    }
    BitCut(prot, 8, 3);
    BitCut(prot, 8, 4);
    CutKeepsIff(prot, 8);
    SmallIff(prot, protection);
  }

  lemma SmallIff(x: nat, y: nat)
    requires forall i: nat | 8 <= i :: Bit(x, i) == Bit(y, i)
    ensures x < Pow2(8) <==> y < Pow2(8)
  {
    hide Bit, Pow2;
    if x < Pow2(8) {
      forall i: nat | 8 <= i ensures !Bit(y, i) {
        BitsBeyond(x, 8, i);
      }
      BoundFromBits(y, 8);
    } else if y < Pow2(8) {
      forall i: nat | 8 <= i ensures !Bit(x, i) {
        BitsBeyond(y, 8, i);
      }
      BoundFromBits(x, 8);
    }
  }

  /** What a caller has to respect for a region to come back as it was set. */
  ghost predicate RoundTrips(c: Config, xlen: nat, addrBits: nat) {
    && c.protection < Pow2(8) && (c.order == PMP_SHIFT ==> !Bit(c.protection, 3))
    && c.order <= addrBits + 3 && GoodBase(c.base, c.order, addrBits)
  }

  lemma FourByteHasZero(base: nat, xlen: nat, addrBits: nat)
    requires Sizes(xlen, addrBits) && base < Pow2(xlen)
    ensures HasZero(Stored(base, PMP_SHIFT, xlen, addrBits), xlen)
  {
    hide Stored, Pow2, Bit;
    var r := Stored(base, PMP_SHIFT, xlen, addrBits);
    StoredBits(base, PMP_SHIFT, xlen, addrBits, xlen - 1);
    BitsBeyond(base, xlen, xlen + 1);
    BitNot(r, xlen, xlen - 1);
    BitOfZero(xlen - 1);
  }

  lemma NoMask(pmpaddr: nat, xlen: nat)
    requires 0 < xlen && pmpaddr < Pow2(xlen)
    ensures BaseOf(pmpaddr, 0, xlen) == Shl(pmpaddr, PMP_SHIFT, xlen)
  {
    hide BaseOf, Shl, Pow2, Bit;
    forall i: nat ensures Bit(BaseOf(pmpaddr, 0, xlen), i) == Bit(Shl(pmpaddr, PMP_SHIFT, xlen), i) {
      BaseOfBits(pmpaddr, 0, xlen, i);
      BitShl(pmpaddr, PMP_SHIFT, xlen, i);
    }
    SameBits(BaseOf(pmpaddr, 0, xlen), Shl(pmpaddr, PMP_SHIFT, xlen));
  }

  lemma StoredBound(base: nat, order: nat, xlen: nat, addrBits: nat)
    requires PMP_SHIFT <= order <= xlen && Sizes(xlen, addrBits)
    ensures Stored(base, order, xlen, addrBits) < Pow2(addrBits) <= Pow2(xlen)
  {
    hide Stored, Bit, Pow2;
    forall i: nat | addrBits <= i ensures !Bit(Stored(base, order, xlen, addrBits), i) {
      StoredBits(base, order, xlen, addrBits, i);
    }
    BoundFromBits(Stored(base, order, xlen, addrBits), addrBits);
    Pow2Monotonic(addrBits, xlen);
  }

  /** A region that was set is read back, with its mode filled in, exactly when it respects the
      hardware's limits. */
  lemma RegionBackIff(cfg: seq<nat>, addr: seq<nat>, xlen: nat, addrBits: nat, entry: nat, c: Config)
    requires |cfg| == 4 && |addr| == REGISTERS && entry < REGISTERS && CfgReg(xlen, entry) < 4
    requires Sizes(xlen, addrBits) && PMP_SHIFT <= c.order <= xlen && c.base < Pow2(xlen)
    ensures var prot := Or(c.protection, ModeOf(c.order));
            var cfg', addr' := CfgAfter(cfg, xlen, entry, prot), addr[entry := Stored(c.base, c.order, xlen, addrBits)];
            && Decodable(cfg', addr', xlen, entry)
            && (Decode(cfg', addr', xlen, entry) == c.(protection := prot) <==> RoundTrips(c, xlen, addrBits))
  {
    hide Pow2, Bit, Stored, CfgAfter, EntryByte, HasZero, TrailingOnes, BaseOf, GoodBase, Cut, Or, Shl, IsNapot;
    var prot := Or(c.protection, ModeOf(c.order));
    var r := Stored(c.base, c.order, xlen, addrBits);
    ByteAfter(cfg, xlen, entry, prot);
    ModeBits(c.protection, c.order);
    StoredBound(c.base, c.order, xlen, addrBits);
    if c.order == PMP_SHIFT {
      FourByteHasZero(c.base, xlen, addrBits);
      NoMask(r, xlen);
    } else {
      OrderBackIff(c.base, c.order, xlen, addrBits);
    }
    if c.order <= addrBits + 3 {
      BaseBackIff(c.base, c.order, xlen, addrBits);
    }
  }

  /** On 64-bit machines every order above 57 is accepted and comes back as 57. */
  lemma TooLargeComesBackSmaller(cfg: seq<nat>, addr: seq<nat>, entry: nat, c: Config)
    requires |cfg| == 4 && |addr| == REGISTERS && entry < REGISTERS && CfgReg(64, entry) < 4
    requires 57 < c.order <= 64
    ensures var cfg', addr' := CfgAfter(cfg, 64, entry, Or(c.protection, ModeOf(c.order))), addr[entry := Stored(c.base, c.order, 64, 54)];
            Decodable(cfg', addr', 64, entry) && Decode(cfg', addr', 64, entry).order == 57
  {
    hide Pow2, Bit, Stored, CfgAfter, EntryByte, HasZero, TrailingOnes, BaseOf, Cut, Or, IsNapot;
    ByteAfter(cfg, 64, entry, Or(c.protection, ModeOf(c.order)));
    ModeBits(c.protection, c.order);
    OrderBackIff(c.base, c.order, 64, 54);
  }

  lemma OtherRegionsKept(cfg: seq<nat>, addr: seq<nat>, xlen: nat, entry: nat, prot: nat, value: nat, other: nat)
    requires (xlen == 32 || xlen == 64) && |cfg| == 4 && |addr| == REGISTERS && entry < REGISTERS && other != entry
    requires CfgReg(xlen, entry) < 4 && Decodable(cfg, addr, xlen, other)
    ensures Decodable(CfgAfter(cfg, xlen, entry, prot), addr[entry := value], xlen, other)
    ensures Decode(CfgAfter(cfg, xlen, entry, prot), addr[entry := value], xlen, other) == Decode(cfg, addr, xlen, other)
  {
    hide CfgAfter, EntryByte, HasZero, TrailingOnes, BaseOf;
    OtherByteAfter(cfg, xlen, entry, prot, other);
  }

  // Where the bytes lie.

  /** The configuration registers laid end to end, as the architecture numbers their bytes: four
      registers of four bytes, or the two even ones of eight. */
  function ConfigBytes(cfg: seq<nat>, xlen: nat): (b: seq<byte>)
    requires |cfg| == 4
    ensures |b| == 16
  {
    if xlen == 32 then Le(cfg[0], 4) + Le(cfg[1], 4) + Le(cfg[2], 4) + Le(cfg[3], 4)
    else Le(cfg[0], 8) + Le(cfg[2], 8)
  }

  /** Byte `k` of a number. */
  lemma {:induction false} LeBits(v: nat, n: nat, k: nat, b: nat)
    requires k < n
    ensures Bit(Le(v, n)[k], b) <==> b < 8 && Bit(v, 8 * k + b)
    decreases n
  {
    Pow2Of8();
    QuotientAndRemainder(v, 8);
    hide Bit, Shr, Cut, Pow2;
    if k == 0 {
      BitCut(v, 8, b);
    } else {
      LeBits(v / 256, n - 1, k - 1, b);
      BitShr(v, 8, 8 * (k - 1) + b);
    }
  }

  lemma EntryIsByteOf(cfg: seq<nat>, xlen: nat, e: nat, n: nat, k: nat)
    requires |cfg| == 4 && (xlen == 32 || xlen == 64) && e < REGISTERS && CfgReg(xlen, e) < 4
    requires k < n && CfgShift(xlen, e) == 8 * k
    ensures EntryByte(cfg, xlen, e) == Le(cfg[CfgReg(xlen, e)], n)[k]
  {
    hide EntryByte, Bit, Le, CfgReg, CfgShift;
    var byte := Le(cfg[CfgReg(xlen, e)], n)[k];
    forall b: nat ensures Bit(EntryByte(cfg, xlen, e), b) == Bit(byte, b) {
      EntryByteBits(cfg, xlen, e, b);
      LeBits(cfg[CfgReg(xlen, e)], n, k, b);
    }
    SameBits(EntryByte(cfg, xlen, e), byte);
  }

  /** Entry `e` is byte `e` of the registers. */
  lemma EntryIsByte(cfg: seq<nat>, xlen: nat, e: nat)
    requires |cfg| == 4 && (xlen == 32 || xlen == 64) && e < REGISTERS
    ensures CfgReg(xlen, e) < 4 && EntryByte(cfg, xlen, e) == ConfigBytes(cfg, xlen)[e]
  {
    EntriesDistinct(xlen, e, if e == 0 then 1 else 0);
    PlaceOfByte(cfg, xlen, e);
    hide EntryByte, ConfigBytes, Le, CfgReg, CfgShift;
    if xlen == 32 {
      EntryIsByteOf(cfg, xlen, e, 4, e % 4);
    } else {
      EntryIsByteOf(cfg, xlen, e, 8, e % 8);
    }
  }

  lemma PlaceOfByte(cfg: seq<nat>, xlen: nat, e: nat)
    requires |cfg| == 4 && (xlen == 32 || xlen == 64) && e < REGISTERS
    ensures xlen == 32 ==> ConfigBytes(cfg, xlen)[e] == Le(cfg[e / 4], 4)[e % 4] && CfgReg(xlen, e) == e / 4 && CfgShift(xlen, e) == 8 * (e % 4)
    ensures xlen == 64 ==> ConfigBytes(cfg, xlen)[e] == Le(cfg[e / 8 * 2], 8)[e % 8] && CfgReg(xlen, e) == e / 8 * 2 && CfgShift(xlen, e) == 8 * (e % 8)
  {
    hide Le;
  }

  /** Setting an entry writes its byte and no other. */
  lemma OneByteWritten(cfg: seq<nat>, xlen: nat, entry: nat, prot: nat)
    requires |cfg| == 4 && (xlen == 32 || xlen == 64) && entry < REGISTERS && CfgReg(xlen, entry) < 4
    ensures Cut(prot, 8) < 256
    ensures ConfigBytes(CfgAfter(cfg, xlen, entry, prot), xlen) == ConfigBytes(cfg, xlen)[entry := Cut(prot, 8)]
  {
    var after := CfgAfter(cfg, xlen, entry, prot);
    SplitAt(prot, 8);
    Pow2Of8();
    hide EntryByte, Cut, Shr, ConfigBytes, CfgAfter;
    forall e: nat | e < 16
      ensures ConfigBytes(after, xlen)[e] == if e == entry then Cut(prot, 8) else ConfigBytes(cfg, xlen)[e]
    {
      EntryIsByte(cfg, xlen, e);
      EntryIsByte(after, xlen, e);
      if e == entry {
        ByteAfter(cfg, xlen, entry, prot);
      } else {
        OtherByteAfter(cfg, xlen, entry, prot, e);
      }
    }
  }

  // What the hardware makes of a region.

  /** Address matching, section 3.6.1 of the RISC-V Privileged Architecture. The matching mode is in bits 3
      and 4 of the entry's byte: off, top of a range, four bytes, or a naturally aligned power of two,
      whose register ends in a zero and as many ones as its size says. */
  predicate Protects(cfg: seq<nat>, addr: seq<nat>, xlen: nat, entry: nat, a: nat)
    requires |cfg| == 4 && |addr| == 16 && entry < 16
  {
    var pmpaddr := addr[entry];
    match ConfigBytes(cfg, xlen)[entry] / 8 % 4
    case 0 => false
    case 1 => (entry == 0 || 4 * addr[entry - 1] <= a) && a < 4 * pmpaddr
    case 2 => a / 4 == pmpaddr
    case _ =>
      HasZero(pmpaddr, xlen) ==>
        var ones := TrailingOnes(pmpaddr, xlen);
        Shr(a, ones + 3) == Shr(pmpaddr, ones + 1)
  }

  /** The mode of a byte as a number. */
  lemma ModeNumber(b: byte)
    ensures b / 8 % 4 == FromBit(Bit(b, 3)) + 2 * FromBit(Bit(b, 4))
  {
    QuotientAndRemainder(b, 3);
    assert Pow2(3) == 8;
    BitShr(b, 3, 0);
    BitShr(b, 3, 1);
    hide Pow2, Shr, Cut;
    LowTwo(Shr(b, 3));
    hide Bit;
  }

  lemma LowTwo(q: nat)
    ensures q % 4 == FromBit(Bit(q, 0)) + 2 * FromBit(Bit(q, 1))
  {
    assert Bit(q, 1) == Bit(q / 2, 0);
    assert Bit(q, 0) == (q % 2 == 1) && Bit(q / 2, 0) == (q / 2 % 2 == 1);
    hide Bit;
    Halving(q);
  }

  /** The byte written for a region that respects the limits has the mode for its order. */
  lemma ModeWritten(c: Config)
    requires c.protection < Pow2(8) && (c.order == PMP_SHIFT ==> !Bit(c.protection, 3))
    ensures var b := Cut(Or(c.protection, ModeOf(c.order)), 8);
            b < 256 && b / 8 % 4 == if c.order == PMP_SHIFT then 2 else 3
  {
    var prot := Or(c.protection, ModeOf(c.order));
    var b := Cut(prot, 8);
    SplitAt(prot, 8);
    Pow2Of8();
    hide Cut, Or, Pow2, Shr;
    ModeNumber(b);
    hide Bit;
    BitCut(prot, 8, 3);
    BitCut(prot, 8, 4);
    BitOr(c.protection, ModeOf(c.order), 3);
    BitOr(c.protection, ModeOf(c.order), 4);
    ABit(3);
    ABit(4);
  }

  /** The stored address selects the region, whichever mode it has. */
  lemma AddressSelects(xlen: nat, addrBits: nat, c: Config, a: nat)
    requires Sizes(xlen, addrBits) && PMP_SHIFT <= c.order <= xlen && c.base < Pow2(xlen) && RoundTrips(c, xlen, addrBits)
    ensures var r := Stored(c.base, c.order, xlen, addrBits);
            Shr(a, c.order) == Shr(r, c.order - PMP_SHIFT) <==> c.base <= a < c.base + Pow2(c.order)
  {
    hide Pow2, Bit, Stored, Shr;
    var r, drop := Stored(c.base, c.order, xlen, addrBits), c.order - PMP_SHIFT;
    Interval(a, c.base, c.order);
    forall i: nat ensures Bit(Shr(r, drop), i) == Bit(Shr(c.base, c.order), i) {
      BitShr(r, drop, i);
      BitShr(c.base, c.order, i);
      StoredBits(c.base, c.order, xlen, addrBits, i + drop);
    }
    SameBits(Shr(r, drop), Shr(c.base, c.order));
  }

  /** After an entry is set, the hardware protects exactly the bytes of the region with it. */
  lemma RegionMatches(cfg: seq<nat>, addr: seq<nat>, xlen: nat, addrBits: nat, entry: nat, c: Config, a: nat)
    requires |cfg| == 4 && |addr| == 16 && entry < 16 && CfgReg(xlen, entry) < 4
    requires Sizes(xlen, addrBits) && PMP_SHIFT <= c.order <= xlen && c.base < Pow2(xlen) && RoundTrips(c, xlen, addrBits)
    ensures var cfg' := CfgAfter(cfg, xlen, entry, Or(c.protection, ModeOf(c.order)));
            var addr' := addr[entry := Stored(c.base, c.order, xlen, addrBits)];
            Protects(cfg', addr', xlen, entry, a) <==> c.base <= a < c.base + Pow2(c.order)
  {
    hide Pow2, Bit, Stored, HasZero, TrailingOnes, Or, Shr, Cut, ConfigBytes, CfgAfter, GoodBase;
    var r := Stored(c.base, c.order, xlen, addrBits);
    OneByteWritten(cfg, xlen, entry, Or(c.protection, ModeOf(c.order)));
    ModeWritten(c);
    AddressSelects(xlen, addrBits, c, a);
    if c.order == PMP_SHIFT {
      ShrNothing(r);
      ShrTwo(a);
    } else {
      OrderBackIff(c.base, c.order, xlen, addrBits);
    }
  }

  lemma ShrTwo(a: nat)
    ensures Shr(a, 2) == a / 4
  {
    assert Shr(a, 2) == Shr(a / 2, 1) == Shr(a / 2 / 2, 0);
  }

  lemma ShrNothing(x: nat)
    ensures Shr(x, 0) == x
  {
  }

  class PmpUnit {
    const xlen: nat
    const addrBits: nat
    const entries: nat
    const cfg: array<nat>
    const addr: array<nat>

    ghost predicate Valid()
      reads cfg, addr
    {
      && Sizes(xlen, addrBits) && entries <= REGISTERS && cfg.Length == 4 && addr.Length == REGISTERS && cfg != addr
    }

    constructor (xlen: nat, entries: nat)
      requires (xlen == 32 || xlen == 64) && entries <= REGISTERS
      ensures Valid() && this.xlen == xlen && this.entries == entries
      ensures fresh(cfg) && fresh(addr)
    {
      this.xlen, this.entries, this.addrBits := xlen, entries, if xlen == 32 then 32 else 54;
      cfg, addr := new nat[4](_ => 0), new nat[REGISTERS](_ => 0);
    }

    /** `__set_PMPENTRYx`: the address first, then the configuration byte. */
    method SetEntry(entry: nat, c: Config)
      requires Valid() && c.base < Pow2(xlen)
      modifies cfg, addr
      ensures entry >= entries || c.order > xlen || c.order < PMP_SHIFT ==>
                cfg[..] == old(cfg[..]) && addr[..] == old(addr[..])
      ensures entry < entries && PMP_SHIFT <= c.order <= xlen ==>
                && CfgReg(xlen, entry) < 4
                && addr[..] == old(addr[..])[entry := Stored(c.base, c.order, xlen, addrBits)]
                && cfg[..] == CfgAfter(old(cfg[..]), xlen, entry, Or(c.protection, ModeOf(c.order)))
    {
      hide Pow2, Shl, Shr, And, Or, Not, Cut;
      if entry >= entries || c.order > xlen || c.order < PMP_SHIFT {
        return;
      }
      var csrCfgNum := if xlen == 32 then 4 else 8;
      var cfgCsrIdx := if xlen == 32 then entry / 4 else entry / 4 / 2 * 2;
      var cfgShift := entry % csrCfgNum * 8;
      EntriesDistinct(xlen, entry, if entry == 0 then 1 else 0);
      var protection := Or(c.protection, if PMP_SHIFT == c.order then PMP_A_NA4 else PMP_A_NAPOT);
      var cfgmask := Not(Shl(0xFF, cfgShift, xlen), xlen);
      var pmpcfg := And(cfg[cfgCsrIdx], cfgmask);
      pmpcfg := Or(pmpcfg, And(Shl(protection, cfgShift, xlen), Not(cfgmask, xlen)));
      var pmpaddr;
      if PMP_SHIFT == c.order {
        pmpaddr := Shr(c.base, PMP_SHIFT);
      } else {
        ShiftedOne(c.order - PMP_SHIFT, xlen);
        var addrmask := Shl(1, c.order - PMP_SHIFT, xlen) - 1;
        pmpaddr := And(Shr(c.base, PMP_SHIFT), Not(addrmask, xlen));
        pmpaddr := Or(pmpaddr, Shr(addrmask, 1));
      }
      addr[entry] := Cut(pmpaddr, addrBits);
      cfg[cfgCsrIdx] := pmpcfg;
    }

    /** `__get_PMPENTRYx`. On an address register of all ones the scan for the lowest zero never ends,
        which `hangs` reports. */
    method GetEntry(entry: nat) returns (hangs: bool, rc: int, c: Config)
      requires Valid()
      ensures hangs <==> entry < entries && !Decodable(cfg[..], addr[..], xlen, entry)
      ensures rc == if entry < entries then 0 else -1
      ensures rc == 0 && !hangs ==> c == Decode(cfg[..], addr[..], xlen, entry)
    {
      hide Pow2, Shl, Shr, And, Not, Lowest;
      hangs, c := false, Config(0, 0, 0);
      if entry >= entries {
        return false, -1, c;
      }
      var csrCfgNum := if xlen == 32 then 4 else 8;
      var cfgCsrIdx := if xlen == 32 then entry / 4 else entry / 4 / 2 * 2;
      var cfgShift := entry % csrCfgNum * 8;
      var cfgmask := Shl(0xFF, cfgShift, xlen);
      var prot := Shr(And(cfg[cfgCsrIdx], cfgmask), cfgShift);
      var pmpaddr := addr[entry];
      var base, order;
      if PMP_A_NAPOT == And(prot, PMP_A) {
        if Not(pmpaddr, xlen) == 0 {
          return true, 0, c;
        }
        var t1 := Ctz(Not(pmpaddr, xlen));
        assert t1 == TrailingOnes(pmpaddr, xlen);
        ShiftedOne(t1, xlen);
        base := Shl(And(pmpaddr, Not(Shl(1, t1, xlen) - 1, xlen)), PMP_SHIFT, xlen);
        order := t1 + PMP_SHIFT + 1;
      } else {
        base := Shl(pmpaddr, PMP_SHIFT, xlen);
        order := PMP_SHIFT;
      }
      return false, 0, Config(prot, order, base);
    }
  }
}
