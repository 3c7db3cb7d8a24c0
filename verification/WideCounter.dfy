/** 64-bit registers reached in 32-bit halves: the counters, the timer and its compare register. */
module WideCounter {
  const Half: nat := 0x1_0000_0000
  const Full: nat := 0x1_0000_0000_0000_0000

  function High(v: nat): nat {
    v % Full / Half
  }

  function Low(v: nat): nat {
    v % Half
  }

  /** The register after `n` ticks from `v`; it wraps. */
  function Ticked(v: nat, n: nat): (r: nat)
    ensures r < Full
  {
    (v + n) % Full
  }

  /** The register showed `full` at some moment of the `n` ticks that follow `v`. */
  ghost predicate Held(full: nat, v: nat, n: nat) {
    exists t: nat :: t <= n && Ticked(v, t) == full
  }

  lemma HalvesMakeWhole(v: nat)
    requires v < Full
    ensures High(v) < Half && Low(v) < Half && High(v) * Half + Low(v) == v
  {
  }

  lemma DivMod(q: nat, l: nat)
    requires l < Half
    ensures (q * Half + l) / Half == q && (q * Half + l) % Half == l
  {
  }

  /** Counting past the top does not change what the halves show. */
  lemma HalvesOfTicked(v: nat, n: nat)
    ensures High(Ticked(v, n)) == High(v + n) && Low(Ticked(v, n)) == Low(v + n)
    ensures High(v + n) == (v + n) / Half % Half
  {
    var x := v + n;
    var q, r := x / Full, x % Full;
    var h, l := r / Half, r % Half;
    assert x == (q * Half + h) * Half + l && h < Half;
    DivMod(q * Half + h, l);
    assert r % Full == r;
  }

  /** The halves of any moment in the same 2^32 ticks are those of a moment. */
  lemma Joined(block: nat, low: nat)
    requires low < Half
    ensures (block * Half + low) % Full == block % Half * Half + low
  {
    var q := block / Half;
    assert block == q * Half + block % Half;
    assert block * Half + low == q * Full + (block % Half * Half + low);
  }

  /** Two low halves read around an unchanged high half go wrong in one way only. */
  predicate Torn(v: nat, t1: nat, t2: nat) {
    && t1 + t2 < Full
    && High(v + t1 + t2) == High(v)
    && Low(v + t1 + t2) < Low(v + t1) < Low(v)
  }

  /** What the reads of high, low, high put together, with the low half read again if the highs differ. */
  ghost predicate IsReading(full: nat, v: nat, t1: nat, t2: nat, t3: nat) {
    var high := High(v + t1 + t2);
    full == high * Half + (if high != High(v) then Low(v + t1 + t2 + t3) else Low(v + t1))
  }

  lemma LaterBlock(v: nat, middle: nat, last: nat)
    requires v <= middle <= last && v / Half != middle / Half
    ensures v < middle / Half * Half && middle / Half * Half + Low(last) <= last
  {
    assert v / Half < middle / Half <= last / Half;
    assert last == last / Half * Half + Low(last);
  }

  /** With a carry between the high reads, the low half read last belongs to a moment after that carry. */
  lemma RereadIsHeld(v: nat, t1: nat, t2: nat, t3: nat)
    requires High(v) != High(v + t1 + t2)
    ensures Held(High(v + t1 + t2) * Half + Low(v + t1 + t2 + t3), v, t1 + t2 + t3)
  {
    var middle, last := v + t1 + t2, v + t1 + t2 + t3;
    var block := middle / Half;
    HalvesOfTicked(v, 0);
    HalvesOfTicked(v, t1 + t2);
    Joined(block, Low(last));
    LaterBlock(v, middle, last);
    hide High, Low;
    var t := block * Half + Low(last) - v;
    assert v + t == block * Half + Low(last);
    assert Ticked(v, t) == High(middle) * Half + Low(last);
  }

  /** Without a carry the parts read are those of the moment of the low read. */
  lemma SteadyIsHeld(v: nat, t1: nat, t2: nat)
    requires v / Half == (v + t1 + t2) / Half
    ensures Held(High(v) * Half + Low(v + t1), v, t1 + t2) && !Torn(v, t1, t2)
  {
    HalvesOfTicked(v, 0);
    Joined(v / Half, Low(v + t1));
    assert v / Half <= (v + t1) / Half <= (v + t1 + t2) / Half;
    assert Ticked(v, t1) == High(v) * Half + Low(v + t1);
  }

  /** When the high half came all the way round, it did so once. */
  lemma OneRound(v: nat, n: nat)
    requires v < Full && n < Full && High(v) == High(v + n) && v / Half != (v + n) / Half
    ensures v + n == v / Half * Half + Full + Low(v + n)
    ensures v == High(v) * Half + Low(v) && v / Half == High(v)
  {
    HalvesOfTicked(v, 0);
    HalvesOfTicked(v, n);
    hide High;
    var from, to := v / Half, (v + n) / Half;
    assert from < to <= from + Half;
    assert to - from == (to / Half - from / Half) * Half;
  }

  /** `full` in the same 2^32 values as `v`, and fewer than a whole round of ticks that end in
      these values again. */
  lemma HeldAfterRoundIff(v: nat, full: nat, n: nat)
    requires v < Full && full < Full && n < Full <= v + n
    ensures Held(full, v, n) <==> v <= full || full + Full <= v + n
  {
    if v <= full {
      assert Ticked(v, full - v) == full;
    } else if full + Full <= v + n {
      assert Ticked(v, full + Full - v) == full;
    } else {
      forall t: nat | t <= n ensures Ticked(v, t) != full {
        assert v + t < full + Full;
      }
    }
  }

  /** When the high half came all the way round, the parts belong together unless the read is torn. */
  lemma RoundIsHeldIff(v: nat, t1: nat, t2: nat)
    requires v < Full && t1 + t2 < Full && High(v) == High(v + t1 + t2) && v / Half != (v + t1 + t2) / Half
    ensures Held(High(v) * Half + Low(v + t1), v, t1 + t2) <==> !Torn(v, t1, t2)
  {
    OneRound(v, t1 + t2);
    HalvesMakeWhole(v);
    HeldAfterRoundIff(v, High(v) * Half + Low(v + t1), t1 + t2);
    hide High, Held;
  }

  lemma EverythingIsHeldInAFullRound(full: nat, v: nat, n: nat)
    requires full < Full && v < Full && Full <= n
    ensures Held(full, v, n)
  {
    var t: nat := if v <= full then full - v else full + Full - v;
    assert Ticked(v, t) == full;
  }

  /** A reading is a value the register had during the call, unless it is torn. */
  lemma ReadingHeldIff(full: nat, v: nat, t1: nat, t2: nat, t3: nat)
    requires v < Full && IsReading(full, v, t1, t2, t3)
    ensures var n := if High(v + t1 + t2) != High(v) then t1 + t2 + t3 else t1 + t2;
            Held(full, v, n) <==> !Torn(v, t1, t2)
  {
    hide Held;
    if High(v + t1 + t2) != High(v) {
      RereadIsHeld(v, t1, t2, t3);
    } else if v / Half == (v + t1 + t2) / Half {
      SteadyIsHeld(v, t1, t2);
    } else if t1 + t2 < Full {
      RoundIsHeldIff(v, t1, t2);
    } else {
      HalvesMakeWhole(v);
      HalvesOfTicked(v, 0);
      EverythingIsHeldInAFullRound(full, v, t1 + t2);
    }
  }

  /** Tearing needs nearly a whole round of the counter between the first and the third read. */
  lemma TornTakesARound(v: nat, t1: nat, t2: nat)
    requires v < Full && t1 + t2 <= Full - Half
    ensures !Torn(v, t1, t2)
  {
    if v / Half == (v + t1 + t2) / Half {
      SteadyIsHeld(v, t1, t2);
    } else if High(v) == High(v + t1 + t2) {
      OneRound(v, t1 + t2);
    }
  }

  /** The bound cannot be dropped: this reading is 1, which the counter never was. */
  lemma ATornReading()
    ensures IsReading(1, 2, Half - 1, Full - Half - 1, 0) && Torn(2, Half - 1, Full - Half - 1)
    ensures !Held(1, 2, Full - 2)
  {
    assert High(Full) == 0 && Low(Full) == 0 && Low(2 + (Half - 1)) == 1;
    ReadingHeldIff(1, 2, Half - 1, Full - Half - 1, 0);
  }

  /** A register that counts by itself, reached by halves. */
  class CountingRegister {
    var value: nat

    ghost predicate Valid()
      reads this
    {
      value < Full
    }

    method Wait(ticks: nat)
      requires Valid()
      modifies this
      ensures Valid() && value == Ticked(old(value), ticks)
    {
      value := (value + ticks) % Full;
    }

    method ReadHigh() returns (h: nat)
      requires Valid()
      ensures h == High(value)
    {
      h := value / Half;
    }

    method ReadLow() returns (l: nat)
      requires Valid()
      ensures l == Low(value)
    {
      l := value % Half;
    }

    method WriteHigh(h: nat)
      requires Valid() && h < Half
      modifies this
      ensures Valid() && value == h * Half + Low(old(value))
    {
      value := h * Half + value % Half;
    }

    method WriteLow(l: nat)
      requires Valid() && l < Half
      modifies this
      ensures Valid() && value == High(old(value)) * Half + l
    {
      value := value / Half * Half + l;
    }

    /** Reads the whole register while `t1`, `t2` and `t3` ticks pass between the accesses. */
    method Get(t1: nat, t2: nat, t3: nat) returns (full: nat)
      requires Valid()
      modifies this
      ensures Valid() && full < Full
      ensures exists n: nat {:trigger Held(full, old(value), n)} :: n <= t1 + t2 + t3 && value == Ticked(old(value), n)
                && (Held(full, old(value), n) <==> !Torn(old(value), t1, t2))
      ensures t1 + t2 <= 0x1_0000_0000_0000_0000 - 0x1_0000_0000 ==> Held(full, old(value), t1 + t2 + t3)
    {
      hide Held, Torn, High, Low;
      ghost var v := value;
      var high0 := ReadHigh();
      Wait(t1);
      var low := ReadLow();
      HalvesOfTicked(v, t1);
      Wait(t2);
      TickedTwice(v, t1, t2);
      var high := ReadHigh();
      HalvesOfTicked(v, t1 + t2);
      ghost var n := t1 + t2;
      if high0 != high {
        Wait(t3);
        TickedTwice(v, t1 + t2, t3);
        low := ReadLow();
        HalvesOfTicked(v, t1 + t2 + t3);
        n := t1 + t2 + t3;
      }
      full := high * Half + low;
      ReadingIsWhole(v, t1, t2, t3, high, low);
      ReadingHeldIff(full, v, t1, t2, t3);
      if t1 + t2 <= Full - Half {
        TornTakesARound(v, t1, t2);
        HeldLonger(full, v, n, t1 + t2 + t3);
      }
    }

    /** Writes the whole register; it ends up as written if no carry comes between the last two writes. */
    method Set(v: nat, t1: nat, t2: nat)
      requires Valid() && v < 0x1_0000_0000_0000_0000
      modifies this
      ensures Valid()
      ensures value == v <==> (t1 % 0x1_0000_0000 + t2) / 0x1_0000_0000 % 0x1_0000_0000 == 0
      ensures t1 + t2 < 0x1_0000_0000 ==> value == v
    {
      hide High, Low, Ticked;
      HalvesMakeWhole(v);
      HalvesAre(v);
      ghost var high, high0 := High(v), High(value);
      WriteLow(0);
      Wait(t1);
      LowAfter(high0, t1);
      WriteHigh(v / Half);
      Wait(t2);
      HighAfter(high, t1 % Half, t2);
      WriteLow(v % Half);
      WrittenIff(high, Low(v), t1, t2);
    }
  }

  lemma HalvesAre(v: nat)
    requires v < Full
    ensures v / Half == High(v) && v % Half == Low(v)
  {
  }

  lemma LowOfJoined(high: nat, low: nat)
    requires high < Half && low < Half
    ensures High(high * Half + low) == high && Low(high * Half + low) == low
  {
    Joined(high, low);
    HalvesOfTicked(high * Half + low, 0);
  }

  lemma LowAfter(high: nat, t: nat)
    ensures Low(Ticked(high * Half, t)) == t % Half
  {
    HalvesOfTicked(high * Half, t);
    assert (high * Half + t) % Half == t % Half;
  }

  lemma HighAfter(high: nat, low: nat, t: nat)
    ensures High(Ticked(high * Half + low, t)) == (high + (low + t) / Half) % Half
  {
    HalvesOfTicked(high * Half + low, t);
    assert (high * Half + low + t) / Half == high + (low + t) / Half;
  }

  /** The high half is as written unless a carry from the ticks in between shows in it. */
  lemma WrittenIff(high: nat, low: nat, t1: nat, t2: nat)
    requires high < Half && low < Half
    ensures (high + (t1 % Half + t2) / Half) % Half * Half + low == high * Half + low <==> (t1 % Half + t2) / Half % Half == 0
    ensures t1 + t2 < Half ==> (t1 % Half + t2) / Half % Half == 0
  {
    var carries := (t1 % Half + t2) / Half;
    assert carries == carries / Half * Half + carries % Half;
    assert (high + carries) % Half == high <==> carries % Half == 0;
  }

  lemma TickedTwice(v: nat, a: nat, b: nat)
    ensures Ticked(Ticked(v, a), b) == Ticked(v, a + b)
  {
  }

  lemma HeldLonger(full: nat, v: nat, n: nat, m: nat)
    requires Held(full, v, n) && n <= m
    ensures Held(full, v, m)
  {
    var t: nat :| t <= n && Ticked(v, t) == full;
    assert t <= m;
  }

  lemma ReadingIsWhole(v: nat, t1: nat, t2: nat, t3: nat, high: nat, low: nat)
    requires high == High(v + t1 + t2)
    requires low == if high != High(v) then Low(v + t1 + t2 + t3) else Low(v + t1)
    ensures high * Half + low < Full && IsReading(high * Half + low, v, t1, t2, t3)
  {
  }

  // The compare register, which does not count.

  function Min(a: nat, b: nat): nat {
    if a <= b then a else b
  }

  /** The timer interrupt is asserted. */
  predicate Pending(time: nat, compare: nat) {
    compare <= time
  }

  /** The values the compare register takes, in order, while `v` replaces `was`. */
  function UpdateTrace(was: nat, v: nat): seq<nat> {
    [High(was) * Half + (Half - 1), High(v) * Half + (Half - 1), v]
  }

  /** On the way to its new value the register never falls below both values. */
  lemma NeverBelowBoth(was: nat, v: nat, i: nat)
    requires was < Full && v < Full && i < 3
    ensures Min(was, v) <= UpdateTrace(was, v)[i] < Full
  {
    HalvesMakeWhole(was);
    HalvesMakeWhole(v);
  }

  /** At no moment of the update is there an interrupt that neither value justifies. */
  lemma NoUnjustifiedInterrupt(was: nat, v: nat, i: nat, time: nat)
    requires was < Full && v < Full && i < 3 && Pending(time, UpdateTrace(was, v)[i])
    ensures Pending(time, was) || Pending(time, v)
  {
    NeverBelowBoth(was, v, i);
  }

  /** The compare register of a hart, with the values it took. */
  class CompareRegister {
    var value: nat
    ghost var history: seq<nat>

    ghost predicate Valid()
      reads this
    {
      value < Full
    }

    method WriteHigh(h: nat)
      requires Valid() && h < Half
      modifies this
      ensures Valid() && value == h * Half + Low(old(value)) && history == old(history) + [value]
    {
      value := h * Half + value % Half;
      history := history + [value];
    }

    method WriteLow(l: nat)
      requires Valid() && l < Half
      modifies this
      ensures Valid() && value == High(old(value)) * Half + l && history == old(history) + [value]
    {
      value := value / Half * Half + l;
      history := history + [value];
    }

    method SetHartCompareValue(v: nat)
      requires Valid() && v < 0x1_0000_0000_0000_0000
      modifies this
      ensures Valid() && value == v
      ensures history == old(history) + UpdateTrace(old(value), v)
      ensures forall i | |old(history)| <= i < |history| :: Min(old(value), v) <= history[i]
    {
      HalvesMakeWhole(v);
      HalvesMakeWhole(value);
      HalvesAre(v);
      ghost var high, next := High(value), High(v);
      LowOfJoined(high, Half - 1);
      LowOfJoined(next, Half - 1);
      hide High, Low;
      WriteLow(Half - 1);
      WriteHigh(v / Half);
      WriteLow(v % Half);
      forall i: nat | i < 3 ensures Min(old(value), v) <= UpdateTrace(old(value), v)[i] {
        NeverBelowBoth(old(value), v, i);
      }
    }
  }
}
