/** The call-graph profiler seen as plain values: what `_mcount` and
    `gprof_sample` do to lists of arcs, and what a whole run of them records.
    The arrays that hold these lists are in Gprof.dfy. */
module ArcTable {

  const ON := 0
  const BUSY := 1
  const ERROR := 2
  const OFF := 3

  datatype Arc = Arc(selfpc: nat, count: nat)

  type Chain = seq<Arc>

  /** The place of a callee in a chain, or the chain's length when it is absent. */
  function Find(chain: Chain, selfpc: nat): (i: nat)
    ensures i <= |chain|
    ensures i < |chain| ==> chain[i].selfpc == selfpc
    ensures forall k | 0 <= k < i :: chain[k].selfpc != selfpc
  {
    if chain == [] || chain[0].selfpc == selfpc then 0 else 1 + Find(chain[1..], selfpc)
  }

  /** One recorded call: the callee's arc goes to the front with its count raised. */
  function Touch(chain: Chain, selfpc: nat): Chain {
    var i := Find(chain, selfpc);
    if i < |chain| then [Arc(selfpc, chain[i].count + 1)] + chain[..i] + chain[i + 1..]
    else [Arc(selfpc, 1)] + chain
  }

  /** How many calls a chain has recorded for a callee. */
  function Lookup(chain: Chain, selfpc: nat): nat {
    var i := Find(chain, selfpc);
    if i < |chain| then chain[i].count else 0
  }

  /** `link` is the link field of the first `tos` entry, the number of entries handed out. */
  datatype Profile = Profile(
    state: int,
    lowpc: nat,
    textsize: nat,
    tolimit: nat,
    link: nat,
    scale: nat,
    chains: seq<Chain>,
    kcount: seq<nat>)

  predicate InText(p: Profile, pc: nat) {
    p.lowpc <= pc < p.lowpc + p.textsize
  }

  function Slot(p: Profile, frompc: nat): nat
    requires p.lowpc <= frompc
  {
    (frompc - p.lowpc) / 4
  }

  /** One counter and one chain for every four bytes of text. */
  predicate WellSized(p: Profile) {
    && p.textsize % 4 == 0
    && |p.chains| == |p.kcount| == p.textsize / 4
    && 0 < p.tolimit
    && (0 < p.textsize ==> p.scale == 32768)
  }

  /** The effect of one `_mcount` call whose call site is not the first address past the text. */
  function Call(p: Profile, frompc: nat, selfpc: nat): (q: Profile)
    requires WellSized(p)
    ensures WellSized(q)
    ensures q == p.(state := q.state, link := q.link, chains := q.chains)
  {
    if p.state != ON || !InText(p, frompc) then p
    else
      var s := Slot(p, frompc);
      var isNew := Find(p.chains[s], selfpc) == |p.chains[s]|;
      if isNew && p.link + 1 >= p.tolimit then p.(state := ERROR, link := p.link + 1)
      else p.(link := if isNew then p.link + 1 else p.link,
              chains := p.chains[s := Touch(p.chains[s], selfpc)])
  }

  /** The index computation of the 64-bit build, which splits the product to stay in range. */
  function ProfIdx64(pc: nat, base: nat, scale: nat): nat
    requires base <= pc
  {
    var i := (pc - base) / 2;
    i / 65536 * scale + i % 65536 * scale / 65536
  }

  /** The index computation of the 32-bit build. */
  function ProfIdx32(pc: nat, base: nat, scale: nat): nat
    requires base <= pc
  {
    (pc - base) / 2 * scale / 65536
  }

  function ProfAddr(idx: nat, base: nat, scale: nat): nat
    requires 0 < scale
  {
    base + idx * 65536 / scale * 2
  }

  /** Both index forms are one function, at every scale. */
  lemma SplitIndexIsExact(pc: nat, base: nat, scale: nat)
    requires base <= pc
    ensures ProfIdx64(pc, base, scale) == ProfIdx32(pc, base, scale)
  {
    var i := (pc - base) / 2;
    var h, l := i / 65536, i % 65536;
    assert i * scale == 65536 * (h * scale) + l * scale;
  }

  /** With the scale chosen at start-up each counter stands for exactly four bytes of text. */
  lemma SampleIndexBracketsPc(p: Profile, pc: nat)
    requires WellSized(p) && InText(p, pc)
    ensures ProfIdx32(pc, p.lowpc, p.scale) == (pc - p.lowpc) / 4 < |p.kcount|
    ensures var a := ProfAddr((pc - p.lowpc) / 4, p.lowpc, p.scale); a <= pc < a + 4
  {
  }

  /** The effect of one `gprof_sample`; counters are 16 bits wide. */
  function Sample(p: Profile, pc: nat): (q: Profile)
    requires WellSized(p)
    ensures WellSized(q)
    ensures q == p.(kcount := q.kcount)
  {
    if p.state != ON || !InText(p, pc) then p
    else
      SampleIndexBracketsPc(p, pc);
      var i := ProfIdx32(pc, p.lowpc, p.scale);
      p.(kcount := p.kcount[i := (p.kcount[i] + 1) % 65536])
  }

  /** A tick in the text raises the counter of its four bytes, whichever index form is used. */
  lemma SampleCountsSlot(p: Profile, pc: nat)
    requires WellSized(p) && p.state == ON && InText(p, pc)
    ensures ProfIdx64(pc, p.lowpc, p.scale) == ProfIdx32(pc, p.lowpc, p.scale) == Slot(p, pc) < |p.kcount|
    ensures Sample(p, pc) == p.(kcount := p.kcount[Slot(p, pc) := (p.kcount[Slot(p, pc)] + 1) % 65536])
  {
    SplitIndexIsExact(pc, p.lowpc, p.scale);
    SampleIndexBracketsPc(p, pc);
  }

  datatype Event = CallFrom(frompc: nat, selfpc: nat) | Tick(pc: nat)

  function Step(p: Profile, e: Event): (q: Profile)
    requires WellSized(p)
    ensures WellSized(q)
    ensures p.state != ON ==> q == p
  {
    match e
    case CallFrom(frompc, selfpc) => Call(p, frompc, selfpc)
    case Tick(pc) => Sample(p, pc)
  }

  function Run(p: Profile, es: seq<Event>): (q: Profile)
    requires WellSized(p)
    ensures WellSized(q)
    ensures q == p.(state := q.state, link := q.link, chains := q.chains, kcount := q.kcount)
  {
    if es == [] then p else Step(Run(p, es[..|es| - 1]), es[|es| - 1])
  }

  // What an observer of the calls alone would write down; no table is consulted.

  predicate IsCall(p: Profile, e: Event) {
    e.CallFrom? && InText(p, e.frompc)
  }

  predicate IsArc(p: Profile, e: Event, slot: nat, selfpc: nat) {
    IsCall(p, e) && Slot(p, e.frompc) == slot && e.selfpc == selfpc
  }

  /** How often an arc was called. */
  function Occurrences(p: Profile, es: seq<Event>, slot: nat, selfpc: nat): nat {
    if es == [] then 0
    else Occurrences(p, es[..|es| - 1], slot, selfpc) + if IsArc(p, es[|es| - 1], slot, selfpc) then 1 else 0
  }

  /** The position just after an arc's latest call, 0 if it was never called. */
  function LastCall(p: Profile, es: seq<Event>, slot: nat, selfpc: nat): (n: nat)
    ensures n <= |es|
  {
    if es == [] then 0
    else if IsArc(p, es[|es| - 1], slot, selfpc) then |es|
    else LastCall(p, es[..|es| - 1], slot, selfpc)
  }

  /** The distinct arcs called. */
  function Arcs(p: Profile, es: seq<Event>): set<(nat, nat)> {
    if es == [] then {}
    else
      var e := es[|es| - 1];
      Arcs(p, es[..|es| - 1]) + if IsCall(p, e) then {(Slot(p, e.frompc), e.selfpc)} else {}
  }

  function CallsInText(p: Profile, es: seq<Event>): nat {
    if es == [] then 0
    else CallsInText(p, es[..|es| - 1]) + if IsCall(p, es[|es| - 1]) then 1 else 0
  }

  function TicksAt(p: Profile, es: seq<Event>, i: nat): nat {
    if es == [] then 0
    else
      var e := es[|es| - 1];
      TicksAt(p, es[..|es| - 1], i) + if e.Tick? && InText(p, e.pc) && Slot(p, e.pc) == i then 1 else 0
  }

  function TotalLength(chains: seq<Chain>): nat {
    if chains == [] then 0 else |chains[0]| + TotalLength(chains[1..])
  }

  function ChainCalls(chain: Chain): nat {
    if chain == [] then 0 else chain[0].count + ChainCalls(chain[1..])
  }

  function TotalCalls(chains: seq<Chain>): nat {
    if chains == [] then 0 else ChainCalls(chains[0]) + TotalCalls(chains[1..])
  }

  // Touch, chain by chain.

  predicate Distinct(chain: Chain) {
    forall k, l | 0 <= k < l < |chain| :: chain[k].selfpc != chain[l].selfpc
  }

  lemma FindInDistinct(chain: Chain, k: nat)
    requires Distinct(chain) && k < |chain|
    ensures Find(chain, chain[k].selfpc) == k
  {
  }

  lemma TouchKeepsDistinct(chain: Chain, selfpc: nat)
    requires Distinct(chain)
    ensures Distinct(Touch(chain, selfpc))
  {
  }

  /** A recorded call raises its own callee by one and no other. */
  lemma TouchLookup(chain: Chain, selfpc: nat, other: nat)
    requires Distinct(chain)
    ensures Lookup(Touch(chain, selfpc), other) == Lookup(chain, other) + if other == selfpc then 1 else 0
    ensures Find(Touch(chain, selfpc), other) < |Touch(chain, selfpc)| <==>
            Find(chain, other) < |chain| || other == selfpc
  {
    var i, c := Find(chain, selfpc), Touch(chain, selfpc);
    TouchKeepsDistinct(chain, selfpc);
    if other == selfpc {
      assert c[0].selfpc == selfpc;
    } else {
      var j := Find(chain, other);
      if j < |chain| {
        var k := if i < |chain| && i < j then j else j + 1;
        assert c[k] == chain[j];
        FindInDistinct(c, k);
      } else {
        forall k | 0 <= k < |c| ensures c[k].selfpc != other {
          if 0 < k {
            assert c[k] == chain[if i < |chain| && i < k then k else k - 1];
          }
        }
      }
    }
  }

  lemma {:induction false} ChainCallsConcat(a: Chain, b: Chain)
    ensures ChainCalls(a + b) == ChainCalls(a) + ChainCalls(b)
  {
    if a == [] {
      assert a + b == b;
    } else {
      ChainCallsConcat(a[1..], b);
      assert (a + b)[1..] == a[1..] + b;
    }
  }

  lemma TouchCalls(chain: Chain, selfpc: nat)
    ensures ChainCalls(Touch(chain, selfpc)) == ChainCalls(chain) + 1
  {
    var i := Find(chain, selfpc);
    if i < |chain| {
      ChainCallsConcat(chain[..i], chain[i..]);
      assert chain[..i] + chain[i..] == chain;
      assert chain[i..][1..] == chain[i + 1..];
      var front := [Arc(selfpc, chain[i].count + 1)];
      ChainCallsConcat(front, chain[..i]);
      ChainCallsConcat(front + chain[..i], chain[i + 1..]);
    } else {
      assert Touch(chain, selfpc)[1..] == chain;
    }
  }

  lemma {:induction false} TotalsAfterUpdate(chains: seq<Chain>, s: nat, c: Chain)
    requires s < |chains|
    ensures TotalLength(chains[s := c]) == TotalLength(chains) - |chains[s]| + |c|
    ensures TotalCalls(chains[s := c]) == TotalCalls(chains) - ChainCalls(chains[s]) + ChainCalls(c)
  {
    if s == 0 {
      assert chains[s := c][1..] == chains[1..];
    } else {
      TotalsAfterUpdate(chains[1..], s - 1, c);
      assert chains[s := c][1..] == chains[1..][s - 1 := c];
    }
  }

  lemma {:induction false} TotalsOfEmpty(chains: seq<Chain>)
    requires forall s | 0 <= s < |chains| :: chains[s] == []
    ensures TotalLength(chains) == TotalCalls(chains) == 0
  {
    if chains != [] {
      TotalsOfEmpty(chains[1..]);
    }
  }

  // Whole runs.

  /** A profile as `monstartup` leaves it. */
  predicate Fresh(p: Profile) {
    && WellSized(p) && p.state == ON && p.link == 0
    && (forall s | 0 <= s < |p.chains| :: p.chains[s] == [])
    && (forall i | 0 <= i < |p.kcount| :: p.kcount[i] == 0)
  }

  /** A chain holds one entry for each callee called from its slot, with the number of calls. */
  ghost predicate RecordsSlot(p: Profile, es: seq<Event>, s: nat, chain: Chain) {
    && Distinct(chain)
    && forall f: nat ::
         && Lookup(chain, f) == Occurrences(p, es, s, f)
         && (Find(chain, f) < |chain| <==> (s, f) in Arcs(p, es))
  }

  /** `q` records exactly the events `es` seen since the fresh profile `p`. */
  ghost predicate Records(p: Profile, es: seq<Event>, q: Profile) {
    && (forall s: nat | s < |q.chains| :: RecordsSlot(p, es, s, q.chains[s]))
    && (forall i: nat | i < |q.kcount| :: q.kcount[i] == TicksAt(p, es, i) % 65536)
    && TotalLength(q.chains) == q.link == |Arcs(p, es)|
    && TotalCalls(q.chains) == CallsInText(p, es)
  }

  lemma {:induction false} ArcsGrow(p: Profile, es: seq<Event>, n: nat)
    requires n <= |es|
    ensures Arcs(p, es[..n]) <= Arcs(p, es) && |Arcs(p, es[..n])| <= |Arcs(p, es)|
    decreases |es|
  {
    if n < |es| {
      ArcsGrow(p, es[..|es| - 1], n);
      assert es[..|es| - 1][..n] == es[..n];
      var a, b := Arcs(p, es[..|es| - 1]), Arcs(p, es);
      assert b == a + (b - a);
    } else {
      assert es[..n] == es;
    }
  }

  lemma {:induction false} ArcCalledOften(p: Profile, es: seq<Event>, slot: nat, selfpc: nat)
    ensures (slot, selfpc) in Arcs(p, es) <==> 0 < Occurrences(p, es, slot, selfpc)
    ensures (slot, selfpc) in Arcs(p, es) <==> 0 < LastCall(p, es, slot, selfpc)
  {
    if es != [] {
      ArcCalledOften(p, es[..|es| - 1], slot, selfpc);
    }
  }

  /** `q` is a profile reached from `p` without an error. */
  predicate Reached(p: Profile, q: Profile) {
    && WellSized(q) && p.state == ON && |p.chains| == |q.chains| && |p.kcount| == |q.kcount|
    && q == p.(link := q.link, chains := q.chains, kcount := q.kcount)
  }

  lemma ArcsAfterCall(p: Profile, es: seq<Event>, e: Event)
    requires IsCall(p, e)
    ensures var a, b, arc := Arcs(p, es), Arcs(p, es + [e]), (Slot(p, e.frompc), e.selfpc);
            b == a + {arc} && |b| == |a| + if arc in a then 0 else 1
  {
    assert (es + [e])[..|es|] == es;
    var a, arc := Arcs(p, es), (Slot(p, e.frompc), e.selfpc);
    if arc in a {
      assert a + {arc} == a;
    }
  }

  lemma CallRecordsSlot(p: Profile, es: seq<Event>, e: Event, t: nat, chain: Chain)
    requires IsCall(p, e) && RecordsSlot(p, es, t, chain)
    ensures RecordsSlot(p, es + [e], t, if t == Slot(p, e.frompc) then Touch(chain, e.selfpc) else chain)
  {
    assert (es + [e])[..|es|] == es;
    ArcsAfterCall(p, es, e);
    TouchKeepsDistinct(chain, e.selfpc);
    var r := if t == Slot(p, e.frompc) then Touch(chain, e.selfpc) else chain;
    forall f: nat
      ensures Lookup(r, f) == Occurrences(p, es + [e], t, f)
      ensures Find(r, f) < |r| <==> (t, f) in Arcs(p, es + [e])
    {
      TouchLookup(chain, e.selfpc, f);
      assert Lookup(chain, f) == Occurrences(p, es, t, f);
    }
  }

  lemma OtherRecordsSlot(p: Profile, es: seq<Event>, e: Event, t: nat, chain: Chain)
    requires !IsCall(p, e) && RecordsSlot(p, es, t, chain)
    ensures RecordsSlot(p, es + [e], t, chain)
  {
    assert (es + [e])[..|es|] == es;
    forall f: nat ensures Lookup(chain, f) == Occurrences(p, es + [e], t, f) {
      assert Lookup(chain, f) == Occurrences(p, es, t, f);
    }
  }

  lemma OtherRecordsTick(p: Profile, es: seq<Event>, q: Profile, e: Event, i: nat)
    requires Reached(p, q) && !IsCall(p, e) && i < |q.kcount| && q.kcount[i] == TicksAt(p, es, i) % 65536
    ensures Reached(p, Step(q, e)) && Step(q, e).chains == q.chains && Step(q, e).link == q.link
    ensures Step(q, e).kcount[i] == TicksAt(p, es + [e], i) % 65536
  {
    assert (es + [e])[..|es|] == es;
    if e.Tick? && InText(p, e.pc) {
      SampleIndexBracketsPc(q, e.pc);
    }
  }

  /** What a call that fits does to the profile. */
  lemma FittingCall(q: Profile, e: Event)
    requires WellSized(q) && q.state == ON && IsCall(q, e)
    requires var chain := q.chains[Slot(q, e.frompc)];
             Find(chain, e.selfpc) < |chain| || q.link + 1 < q.tolimit
    ensures var s := Slot(q, e.frompc);
            Step(q, e) == q.(link := if Find(q.chains[s], e.selfpc) < |q.chains[s]| then q.link else q.link + 1,
                             chains := q.chains[s := Touch(q.chains[s], e.selfpc)])
  {
    hide Touch, Find;
  }

  lemma NotATick(p: Profile, es: seq<Event>, e: Event, i: nat)
    requires e.CallFrom?
    ensures TicksAt(p, es + [e], i) == TicksAt(p, es, i)
  {
    assert (es + [e])[..|es|] == es;
  }

  lemma OneCallMore(p: Profile, es: seq<Event>, e: Event)
    requires IsCall(p, e)
    ensures CallsInText(p, es + [e]) == CallsInText(p, es) + 1
  {
    assert (es + [e])[..|es|] == es;
  }

  lemma TouchLength(chain: Chain, selfpc: nat)
    ensures |Touch(chain, selfpc)| == |chain| + if Find(chain, selfpc) < |chain| then 0 else 1
  {
  }

  lemma RecordsCall(p: Profile, es: seq<Event>, q: Profile, e: Event)
    requires Reached(p, q) && Records(p, es, q)
    requires IsCall(p, e) && |Arcs(p, es + [e])| < p.tolimit
    ensures Reached(p, Step(q, e)) && Records(p, es + [e], Step(q, e))
  {
    var es', s, r := es + [e], Slot(p, e.frompc), Step(q, e);
    ArcsAfterCall(p, es, e);
    assert RecordsSlot(p, es, s, q.chains[s]);
    assert Find(q.chains[s], e.selfpc) < |q.chains[s]| <==> (s, e.selfpc) in Arcs(p, es);
    hide Touch, Step, Arcs, TicksAt, CallsInText, RecordsSlot;
    FittingCall(q, e);
    TotalsAfterUpdate(q.chains, s, r.chains[s]);
    TouchCalls(q.chains[s], e.selfpc);
    TouchLength(q.chains[s], e.selfpc);
    OneCallMore(p, es, e);
    forall t: nat | t < |r.chains| ensures RecordsSlot(p, es', t, r.chains[t]) {
      CallRecordsSlot(p, es, e, t, q.chains[t]);
    }
    forall i: nat ensures TicksAt(p, es', i) == TicksAt(p, es, i) {
      NotATick(p, es, e, i);
    }
  }

  lemma RecordsOther(p: Profile, es: seq<Event>, q: Profile, e: Event)
    requires Reached(p, q) && Records(p, es, q) && !IsCall(p, e)
    ensures Reached(p, Step(q, e)) && Records(p, es + [e], Step(q, e))
  {
    var es', r := es + [e], Step(q, e);
    assert es'[..|es|] == es;
    assert Arcs(p, es') == Arcs(p, es);
    assert Reached(p, r) && r.chains == q.chains;
    forall t: nat | t < |r.chains| ensures RecordsSlot(p, es', t, r.chains[t]) {
      OtherRecordsSlot(p, es, e, t, q.chains[t]);
    }
    forall i: nat | i < |r.kcount| ensures r.kcount[i] == TicksAt(p, es', i) % 65536 {
      OtherRecordsTick(p, es, q, e, i);
    }
  }

  lemma FreshRecordsNothing(p: Profile)
    requires Fresh(p)
    ensures Reached(p, p) && Records(p, [], p)
  {
    TotalsOfEmpty(p.chains);
  }

  /** While fewer distinct arcs than the limit have been called, the table is a plain map
      from arcs to call counts, and the histogram counts the ticks. */
  lemma {:induction false} RunRecordsEverything(p: Profile, es: seq<Event>)
    requires Fresh(p) && |Arcs(p, es)| < p.tolimit
    ensures Reached(p, Run(p, es)) && Records(p, es, Run(p, es))
  {
    hide Records, Arcs;
    if es == [] {
      FreshRecordsNothing(p);
    } else {
      var n := |es| - 1;
      var before, e := es[..n], es[n];
      assert es == before + [e];
      ArcsGrow(p, es, n);
      RunRecordsEverything(p, before);
      if IsCall(p, e) {
        RecordsCall(p, before, Run(p, before), e);
      } else {
        RecordsOther(p, before, Run(p, before), e);
      }
    }
  }

  lemma NewArcStops(p: Profile, es: seq<Event>, q: Profile, e: Event)
    requires Reached(p, q) && Records(p, es, q)
    requires |Arcs(p, es)| < p.tolimit <= |Arcs(p, es + [e])|
    ensures |Arcs(p, es)| == p.tolimit - 1 && |Arcs(p, es + [e])| == p.tolimit
    ensures Step(q, e) == q.(state := ERROR, link := p.tolimit)
  {
    NoCallNoArc(p, es, e);
    ArcsAfterCall(p, es, e);
    var s := Slot(p, e.frompc);
    assert RecordsSlot(p, es, s, q.chains[s]);
    hide Touch, RecordsSlot, Arcs, TotalLength, TotalCalls;
    FullCall(q, e);
  }

  lemma NoCallNoArc(p: Profile, es: seq<Event>, e: Event)
    ensures IsCall(p, e) || Arcs(p, es + [e]) == Arcs(p, es)
  {
    assert (es + [e])[..|es|] == es;
  }

  /** A call of a new arc when the entries are used up. */
  lemma FullCall(q: Profile, e: Event)
    requires WellSized(q) && q.state == ON && IsCall(q, e) && q.link + 1 == q.tolimit
    requires Find(q.chains[Slot(q, e.frompc)], e.selfpc) == |q.chains[Slot(q, e.frompc)]|
    ensures Step(q, e) == q.(state := ERROR, link := q.tolimit)
  {
    hide Touch, Find;
  }

  /** Event `n` is the call that adds one arc too many; nothing after it is recorded. */
  ghost predicate FreezesAt(p: Profile, es: seq<Event>, n: nat)
    requires WellSized(p)
  {
    && n < |es| && |Arcs(p, es[..n])| == p.tolimit - 1 && |Arcs(p, es[..n + 1])| == p.tolimit
    && Run(p, es) == Run(p, es[..n]).(state := ERROR, link := p.tolimit)
    && Records(p, es[..n], Run(p, es[..n]))
  }

  lemma FrozenForGood(p: Profile, es: seq<Event>, n: nat, e: Event)
    requires WellSized(p) && FreezesAt(p, es, n)
    ensures FreezesAt(p, es + [e], n)
  {
    hide Arcs, Records;
    RunOneMore(p, es, e);
    var es' := es + [e];
    assert es'[..n] == es[..n] && es'[..n + 1] == es[..n + 1] && es'[..|es|] == es;
  }

  lemma FreezesNow(p: Profile, es: seq<Event>, e: Event)
    requires Fresh(p) && |Arcs(p, es)| < p.tolimit <= |Arcs(p, es + [e])|
    ensures FreezesAt(p, es + [e], |es|)
  {
    assert WellSized(p);
    hide *;
    RunRecordsEverything(p, es);
    NewArcStops(p, es, Run(p, es), e);
    RunOneMore(p, es, e);
    var es', n := es + [e], |es|;
    assert Run(p, es') == Run(p, es).(state := ERROR, link := p.tolimit);
    FreezesHere(p, es', n, es);
  }

  lemma RunOneMore(p: Profile, es: seq<Event>, e: Event)
    requires WellSized(p)
    ensures Run(p, es + [e]) == Step(Run(p, es), e)
    ensures (es + [e])[..|es|] == es && (es + [e])[..|es| + 1] == es + [e]
  {
    hide Step, WellSized;
    assert (es + [e])[..|es|] == es;
  }

  lemma FreezesHere(p: Profile, es: seq<Event>, n: nat, before: seq<Event>)
    requires WellSized(p) && |es| == n + 1 && before == es[..n] && es == es[..n + 1]
    requires |Arcs(p, before)| == p.tolimit - 1 && |Arcs(p, es)| == p.tolimit
    requires Run(p, es) == Run(p, before).(state := ERROR, link := p.tolimit)
    requires Records(p, before, Run(p, before))
    ensures FreezesAt(p, es, n)
  {
    hide Records, WellSized, Run, Arcs;
  }

  /** Recording stops for good at the call that would add one arc too many, and only there. */
  lemma {:induction false} OverflowFreezes(p: Profile, es: seq<Event>) returns (n: nat)
    requires Fresh(p) && p.tolimit <= |Arcs(p, es)|
    ensures FreezesAt(p, es, n)
  {
    n := |es| - 1;
    var before, e := es[..n], es[n];
    assert before + [e] == es;
    hide Records, FreezesAt;
    if p.tolimit <= |Arcs(p, before)| {
      n := OverflowFreezes(p, before);
      FrozenForGood(p, before, n, e);
    } else {
      FreezesNow(p, before, e);
    }
  }

  /** The profiler reports an error exactly when the text has too many distinct arcs. */
  lemma OverflowIffTooManyArcs(p: Profile, es: seq<Event>)
    requires Fresh(p)
    ensures Run(p, es).state == ERROR <==> p.tolimit <= |Arcs(p, es)|
    ensures Run(p, es).state == ON || Run(p, es).state == ERROR
    ensures Run(p, es).link <= p.tolimit
  {
    if p.tolimit <= |Arcs(p, es)| {
      var n := OverflowFreezes(p, es);
    } else {
      RunRecordsEverything(p, es);
    }
  }

  /** A chain lists its callees from the latest called to the earliest. */
  predicate Recent(p: Profile, es: seq<Event>, slot: nat, chain: Chain) {
    forall k, l | 0 <= k < l < |chain| ::
      LastCall(p, es, slot, chain[l].selfpc) < LastCall(p, es, slot, chain[k].selfpc)
  }

  lemma LastCallStep(p: Profile, es: seq<Event>, e: Event, slot: nat, selfpc: nat)
    ensures LastCall(p, es + [e], slot, selfpc)
         == if IsArc(p, e, slot, selfpc) then |es| + 1 else LastCall(p, es, slot, selfpc)
  {
    assert (es + [e])[..|es|] == es;
  }

  /** The entry of a touched chain, past the front, is an entry of the chain before. */
  lemma TouchOrder(chain: Chain, selfpc: nat, k: nat) returns (j: nat)
    requires Distinct(chain) && 0 < k < |Touch(chain, selfpc)|
    ensures j < |chain| && Touch(chain, selfpc)[k] == chain[j] && chain[j].selfpc != selfpc
    ensures j == if Find(chain, selfpc) < k then k else k - 1
  {
    j := if Find(chain, selfpc) < k then k else k - 1;
  }

  lemma TouchIsRecent(p: Profile, es: seq<Event>, e: Event, chain: Chain)
    requires IsCall(p, e) && Distinct(chain) && Recent(p, es, Slot(p, e.frompc), chain)
    ensures Recent(p, es + [e], Slot(p, e.frompc), Touch(chain, e.selfpc))
  {
    hide LastCall, Touch;
    var s, c := Slot(p, e.frompc), Touch(chain, e.selfpc);
    forall k, l | 0 <= k < l < |c|
      ensures LastCall(p, es + [e], s, c[l].selfpc) < LastCall(p, es + [e], s, c[k].selfpc)
    {
      LastCallStep(p, es, e, s, c[k].selfpc);
      LastCallStep(p, es, e, s, c[l].selfpc);
      var j := TouchOrder(chain, e.selfpc, l);
      if 0 < k {
        var i := TouchOrder(chain, e.selfpc, k);
      } else {
        TouchFront(chain, e.selfpc);
      }
    }
  }

  lemma TouchFront(chain: Chain, selfpc: nat)
    ensures Touch(chain, selfpc) != [] && Touch(chain, selfpc)[0].selfpc == selfpc
  {
  }

  /** A step leaves a chain alone or touches it. */
  lemma StepOfChain(p: Profile, q: Profile, e: Event, slot: nat)
    requires Reached(p, q) && Step(q, e).state == ON && slot < |q.chains|
    ensures |Step(q, e).chains| == |q.chains|
    ensures Step(q, e).chains[slot] ==
              if IsCall(p, e) && Slot(p, e.frompc) == slot then Touch(q.chains[slot], e.selfpc) else q.chains[slot]
  {
    hide Touch;
  }

  lemma StepIsRecent(p: Profile, es: seq<Event>, q: Profile, e: Event, slot: nat)
    requires Reached(p, q) && Step(q, e).state == ON && slot < |q.chains|
    requires RecordsSlot(p, es, slot, q.chains[slot]) && Recent(p, es, slot, q.chains[slot])
    ensures Recent(p, es + [e], slot, Step(q, e).chains[slot])
  {
    assert Distinct(q.chains[slot]);
    StepOfChain(p, q, e, slot);
    hide Touch, RecordsSlot, Distinct, Step, Reached, LastCall;
    if IsCall(p, e) && Slot(p, e.frompc) == slot {
      TouchIsRecent(p, es, e, q.chains[slot]);
    } else {
      forall f: nat ensures LastCall(p, es + [e], slot, f) == LastCall(p, es, slot, f) {
        LastCallStep(p, es, e, slot, f);
      }
    }
  }

  lemma {:induction false} FittingChainsAreRecent(p: Profile, es: seq<Event>, slot: nat)
    requires Fresh(p) && |Arcs(p, es)| < p.tolimit && slot < |p.chains|
    ensures |Run(p, es).chains| == |p.chains| && Recent(p, es, slot, Run(p, es).chains[slot])
  {
    RunRecordsEverything(p, es);
    if es != [] {
      var n := |es| - 1;
      var before, e := es[..n], es[n];
      assert es == before + [e];
      ArcsGrow(p, es, n);
      FittingChainsAreRecent(p, before, slot);
      RunRecordsEverything(p, before);
      hide Arcs, Recent, RecordsSlot, Step;
      StepIsRecent(p, before, Run(p, before), e, slot);
    }
  }

  /** The part of a run that is recorded: its longest beginning whose arcs fit the table. */
  function Kept(p: Profile, es: seq<Event>): (k: seq<Event>)
    ensures k <= es
  {
    if es == [] || |Arcs(p, es)| < p.tolimit then es else Kept(p, es[..|es| - 1])
  }

  lemma {:induction false} KeptIs(p: Profile, es: seq<Event>, n: nat)
    requires n < |es| && |Arcs(p, es[..n])| < p.tolimit <= |Arcs(p, es[..n + 1])|
    ensures Kept(p, es) == es[..n]
  {
    ArcsGrow(p, es, n + 1);
    var before := es[..|es| - 1];
    assert before[..n] == es[..n];
    if n < |before| {
      assert before[..n + 1] == es[..n + 1];
      KeptIs(p, before, n);
    } else {
      assert before == es[..n];
    }
  }

  /** In every run from a fresh profile, overflow or not, the table holds exactly the recorded part;
      the state tells whether that is the whole run. */
  lemma RunRecordsKept(p: Profile, es: seq<Event>)
    requires Fresh(p)
    ensures var k := Kept(p, es);
            && |Arcs(p, k)| < p.tolimit && Records(p, k, Run(p, k)) && Reached(p, Run(p, k))
            && (k == es <==> |Arcs(p, es)| < p.tolimit)
            && Run(p, es) == if k == es then Run(p, k) else Run(p, k).(state := ERROR, link := p.tolimit)
  {
    hide Records, Reached, Arcs;
    if p.tolimit <= |Arcs(p, es)| {
      var n := OverflowFreezes(p, es);
      KeptIs(p, es, n);
      RunRecordsEverything(p, es[..n]);
    } else {
      RunRecordsEverything(p, es);
    }
  }

  /** In every reachable table each chain is ordered most recently called first. */
  lemma ChainsAreRecent(p: Profile, es: seq<Event>, slot: nat)
    requires Fresh(p) && slot < |p.chains|
    ensures |Run(p, es).chains| == |p.chains| && Recent(p, Kept(p, es), slot, Run(p, es).chains[slot])
  {
    hide Recent, Records, Reached;
    RunRecordsKept(p, es);
    FittingChainsAreRecent(p, Kept(p, es), slot);
  }

  // Export.

  datatype RawArc = RawArc(frompc: nat, selfpc: nat, count: nat)

  function ExportChain(frompc: nat, chain: Chain): (r: seq<RawArc>)
    ensures |r| == |chain|
    ensures forall k | 0 <= k < |r| :: r[k] == RawArc(frompc, chain[k].selfpc, chain[k].count)
  {
    seq(|chain|, k requires 0 <= k < |chain| => RawArc(frompc, chain[k].selfpc, chain[k].count))
  }

  /** The arcs of the first `n` chains, in the order `gprof_collect` emits them. */
  function ExportFirst(p: Profile, n: nat): seq<RawArc>
    requires n <= |p.chains|
  {
    if n == 0 then [] else ExportFirst(p, n - 1) + ExportChain(p.lowpc + 4 * (n - 1), p.chains[n - 1])
  }

  function Export(p: Profile): seq<RawArc> {
    ExportFirst(p, |p.chains|)
  }

  function SumCounts(r: seq<RawArc>): nat {
    if r == [] then 0 else SumCounts(r[..|r| - 1]) + r[|r| - 1].count
  }

  lemma {:induction false} SumCountsChain(r: seq<RawArc>, frompc: nat, chain: Chain)
    ensures SumCounts(r + ExportChain(frompc, chain)) == SumCounts(r) + ChainCalls(chain)
    decreases |chain|
  {
    if chain == [] {
      assert r + ExportChain(frompc, chain) == r;
    } else {
      var n := |chain| - 1;
      var whole := r + ExportChain(frompc, chain);
      assert whole[..|whole| - 1] == r + ExportChain(frompc, chain[..n]);
      SumCountsChain(r, frompc, chain[..n]);
      ChainCallsConcat(chain[..n], chain[n..]);
      assert chain[..n] + chain[n..] == chain;
      assert chain[n..] == [chain[n]];
    }
  }

  lemma {:induction false} TotalsConcat(a: seq<Chain>, b: seq<Chain>)
    ensures TotalLength(a + b) == TotalLength(a) + TotalLength(b)
    ensures TotalCalls(a + b) == TotalCalls(a) + TotalCalls(b)
  {
    if a == [] {
      assert a + b == b;
    } else {
      TotalsConcat(a[1..], b);
      assert (a + b)[1..] == a[1..] + b;
    }
  }

  lemma {:induction false} ExportFirstTotals(p: Profile, n: nat)
    requires n <= |p.chains|
    ensures |ExportFirst(p, n)| == TotalLength(p.chains[..n])
    ensures SumCounts(ExportFirst(p, n)) == TotalCalls(p.chains[..n])
  {
    if 0 < n {
      var front, frompc := ExportFirst(p, n - 1), p.lowpc + 4 * (n - 1);
      assert ExportFirst(p, n) == front + ExportChain(frompc, p.chains[n - 1]);
      hide *;
      ExportFirstTotals(p, n - 1);
      TotalsOfFirst(p.chains, n);
      SumCountsChain(front, frompc, p.chains[n - 1]);
    } else {
      assert p.chains[..0] == [];
    }
  }

  lemma TotalsOfFirst(chains: seq<Chain>, n: nat)
    requires 0 < n <= |chains|
    ensures TotalLength(chains[..n]) == TotalLength(chains[..n - 1]) + |chains[n - 1]|
    ensures TotalCalls(chains[..n]) == TotalCalls(chains[..n - 1]) + ChainCalls(chains[n - 1])
  {
    var last := [chains[n - 1]];
    assert last[1..] == [] && TotalLength(last[1..]) == TotalCalls(last[1..]) == 0;
    assert chains[..n - 1] + last == chains[..n];
    TotalsConcat(chains[..n - 1], last);
  }

  /** `raw` is entry `k` of chain `s`. */
  predicate IsEntry(p: Profile, s: nat, k: nat, raw: RawArc) {
    s < |p.chains| && k < |p.chains[s]| && raw == RawArc(p.lowpc + 4 * s, p.chains[s][k].selfpc, p.chains[s][k].count)
  }

  function RawOf(p: Profile, s: nat, selfpc: nat, count: nat): RawArc {
    RawArc(p.lowpc + 4 * s, selfpc, count)
  }

  /** A record is exported exactly when it is an entry of the chain of its call-site group. */
  lemma {:induction false} ExportFirstMembers(p: Profile, n: nat, r: RawArc)
    requires n <= |p.chains|
    ensures r in ExportFirst(p, n) <==> exists s: nat, k: nat :: s < n && IsEntry(p, s, k, r)
  {
    if 0 < n {
      ExportFirstMembers(p, n - 1, r);
      var last := ExportChain(p.lowpc + 4 * (n - 1), p.chains[n - 1]);
      assert r in ExportFirst(p, n) <==> r in ExportFirst(p, n - 1) || r in last;
      if r in last {
        var k :| 0 <= k < |last| && last[k] == r;
        assert IsEntry(p, n - 1, k, r);
      }
      var m := n - 1;
      if exists k: nat :: IsEntry(p, m, k, r) {
        var k: nat :| IsEntry(p, m, k, r);
        assert last[k] == r;
      }
    }
  }

  /** No arc is exported twice. */
  lemma {:induction false} ExportFirstOnce(p: Profile, n: nat, i: nat, j: nat)
    requires n <= |p.chains| && forall s: nat | s < n :: Distinct(p.chains[s])
    requires i < j < |ExportFirst(p, n)|
    ensures var r := ExportFirst(p, n); r[i].frompc != r[j].frompc || r[i].selfpc != r[j].selfpc
  {
    var front := ExportFirst(p, n - 1);
    if j < |front| {
      ExportFirstOnce(p, n - 1, i, j);
    } else if i < |front| {
      var r := front[i];
      ExportFirstMembers(p, n - 1, r);
    } else {
      var chain := p.chains[n - 1];
      assert chain[i - |front|].selfpc != chain[j - |front|].selfpc;
    }
  }

  /** A recorded call is exported with its site rounded down to four bytes. */
  lemma SiteIsRoundedDown(p: Profile, frompc: nat, selfpc: nat, count: nat)
    requires p.lowpc <= frompc && p.lowpc % 4 == 0
    ensures RawOf(p, Slot(p, frompc), selfpc, count).frompc == frompc / 4 * 4
  {
    var off := frompc - p.lowpc;
    assert frompc == 4 * (p.lowpc / 4 + off / 4) + off % 4;
  }

  /** One record for each arc ever called, its call site rounded down to four bytes, its count the
      number of calls; nothing else, nothing twice. */
  ghost predicate Exports(p: Profile, es: seq<Event>, r: seq<RawArc>) {
    && |r| == |Arcs(p, es)|
    && SumCounts(r) == CallsInText(p, es)
    && (forall i, j | 0 <= i < j < |r| :: r[i].frompc != r[j].frompc || r[i].selfpc != r[j].selfpc)
    && (forall s: nat, f: nat, c: nat | s < |p.chains| ::
          RawOf(p, s, f, c) in r <==> 0 < c == Occurrences(p, es, s, f))
  }

  /** The export of any run within the limit is exact. */
  lemma ExportIsExact(p: Profile, es: seq<Event>)
    requires Fresh(p) && |Arcs(p, es)| < p.tolimit
    ensures Exports(p, es, Export(Run(p, es)))
  {
    var q := Run(p, es);
    RunRecordsEverything(p, es);
    ExportFirstTotals(q, |q.chains|);
    assert q.chains[..|q.chains|] == q.chains;
    var r := Export(q);
    forall i: nat, j: nat | i < j < |r| ensures r[i].frompc != r[j].frompc || r[i].selfpc != r[j].selfpc {
      ExportFirstOnce(q, |q.chains|, i, j);
    }
    forall s: nat, f: nat, c: nat | s < |p.chains|
      ensures RawOf(p, s, f, c) in r <==> 0 < c == Occurrences(p, es, s, f)
    {
      ExportedOnceCalled(p, es, q, s, f, c);
    }
  }

  lemma ExportedOnceCalled(p: Profile, es: seq<Event>, q: Profile, s: nat, f: nat, c: nat)
    requires WellSized(p) && WellSized(q) && p.lowpc == q.lowpc
    requires |p.chains| == |q.chains| && |p.kcount| == |q.kcount| && Records(p, es, q) && s < |p.chains|
    ensures RawOf(p, s, f, c) in Export(q) <==> 0 < c == Occurrences(p, es, s, f)
  {
    var raw, chain := RawOf(p, s, f, c), q.chains[s];
    assert RecordsSlot(p, es, s, chain);
    ExportFirstMembers(q, |q.chains|, raw);
    ArcCalledOften(p, es, s, f);
    var i := Find(chain, f);
    if raw in Export(q) {
      var t: nat, k: nat :| t < |q.chains| && IsEntry(q, t, k, raw);
      assert t == s;
      FindInDistinct(chain, k);
      assert Lookup(chain, f) == c;
    } else if 0 < c == Occurrences(p, es, s, f) {
      assert Lookup(chain, f) == c && i < |chain|;
      assert IsEntry(q, s, i, raw);
    }
  }
}
