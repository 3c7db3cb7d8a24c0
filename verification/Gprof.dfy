/** The call-graph profiler: its tables in memory, updated in place. */
module Gprof {
  import opened Bytes
  import opened ArcTable
  import opened LinkedArcs
  import opened HexDump
  import opened DumpRoundTrip
  import LogParser

  const MINARCS := 50
  const MAXARCS := 65534
  const ARCDENSITY := 2
  const GMONVERSION := 0x51879
  const PROF_HZ := 1000
  const GMON_OUT := "gmon.out"

  /** The address after the largest one of a machine with `wordBytes`-byte words. */
  function Word(wordBytes: nat): nat {
    if wordBytes == 4 then 0x1_0000_0000 else 0x1_0000_0000_0000_0000
  }

  function RoundDown4(x: nat): nat {
    x / 4 * 4
  }

  function RoundUp4(x: nat): nat {
    (x + 3) / 4 * 4
  }

  function Clamp(x: nat): nat {
    if x < MINARCS then MINARCS else if MAXARCS < x then MAXARCS else x
  }

  /** What profiling starts from when the text lies between `low` and `high`. */
  function Startup(wordBytes: nat, low: nat, high: nat): Profile
    requires low <= high
  {
    var textsize := RoundUp4(high) - RoundDown4(low);
    Profile(ON, RoundDown4(low), textsize, Clamp(textsize * ARCDENSITY % Word(wordBytes) / 100), 0,
            if textsize / 2 < textsize then 32768 else 65536,
            seq(textsize / 4, _ => []), seq(textsize / 4, _ => 0))
  }

  lemma StartupIsFresh(wordBytes: nat, low: nat, high: nat)
    requires low <= high
    ensures Fresh(Startup(wordBytes, low, high))
    ensures MINARCS <= Startup(wordBytes, low, high).tolimit <= MAXARCS
  {
  }

  /** The profiled range is the program's, rounded outwards to four bytes; there is room for as many
      arcs as two percent of its bytes, at least 50 and at most 65534. The product wraps at the word. */
  lemma StartupLimits(wordBytes: nat, low: nat, high: nat)
    requires low <= high && (wordBytes == 4 || wordBytes == 8)
    ensures var p := Startup(wordBytes, low, high);
            && p.lowpc % 4 == 0 && p.textsize % 4 == 0
            && p.lowpc <= low < p.lowpc + 4 && high <= p.lowpc + p.textsize < high + 4
            && 4 * |p.chains| == p.textsize && 4 * |p.kcount| == p.textsize
    ensures var p := Startup(wordBytes, low, high);
            var d := 2 * p.textsize % Pow256(wordBytes);
            if d < 5000 then p.tolimit == 50
            else if 6553500 <= d then p.tolimit == 65534
            else p.tolimit * 100 <= d < (p.tolimit + 1) * 100
  {
    assert Pow256(4) == 0x1_0000_0000 && Pow256(8) == 0x1_0000_0000_0000_0000;
    StartupSizes(wordBytes, low, high);
    hide Startup;
    LimitOf(Startup(wordBytes, low, high).textsize * ARCDENSITY % Word(wordBytes));
  }

  lemma LimitOf(d: nat)
    ensures var t := Clamp(d / 100);
            if d < 5000 then t == 50 else if 6553500 <= d then t == 65534 else t * 100 <= d < (t + 1) * 100
  {
  }

  lemma StartupSizes(wordBytes: nat, low: nat, high: nat)
    requires low <= high
    ensures var p := Startup(wordBytes, low, high);
            && WellSized(p) && p.state == ON && p.link == 0
            && p.lowpc == RoundDown4(low) && p.textsize == RoundUp4(high) - RoundDown4(low)
            && MINARCS <= p.tolimit == Clamp(p.textsize * ARCDENSITY % Word(wordBytes) / 100) <= MAXARCS
            && p.scale == if 0 < p.textsize then 32768 else 65536
  {
    hide Word;
    var down, up := low / 4, (high + 3) / 4;
    assert down <= up && RoundUp4(high) - RoundDown4(low) == 4 * (up - down);
  }

  /** The range check that is needed is strict: the one `_mcount` makes lets through exactly one
      offset without a chain head, that of the first address past the text. */
  lemma RangeCheckAdmitsOneTooMany(p: Profile, off: nat)
    requires WellSized(p)
    ensures off / 4 < |p.chains| <==> off < p.textsize
    ensures off <= p.textsize && off / 4 >= |p.chains| <==> off == p.textsize
  {
  }

  // The exported bytes.

  function HeaderSize(wordBytes: nat): nat {
    2 * wordBytes + 24
  }

  function ArcSize(wordBytes: nat): nat {
    3 * wordBytes
  }

  /** `spare` is the part of the header that is never written. */
  function HeaderBytes(lowpc: nat, highpc: nat, kcountsize: nat, wordBytes: nat, spare: seq<byte>): (b: seq<byte>)
    requires |spare| == 12
    ensures |b| == HeaderSize(wordBytes)
  {
    Le(lowpc, wordBytes) + Le(highpc, wordBytes) + Le(kcountsize + HeaderSize(wordBytes), 4)
    + Le(GMONVERSION, 4) + Le(PROF_HZ, 4) + spare
  }

  function HeaderOf(p: Profile, wordBytes: nat, spare: seq<byte>): (b: seq<byte>)
    requires |spare| == 12
    ensures |b| == HeaderSize(wordBytes)
  {
    HeaderBytes(p.lowpc, p.lowpc + p.textsize, p.textsize / 2, wordBytes, spare)
  }

  function CounterBytes(kcount: seq<nat>): (b: seq<byte>)
    ensures |b| == 2 * |kcount|
  {
    if kcount == [] then [] else Le(kcount[0], 2) + CounterBytes(kcount[1..])
  }

  function ArcBytes(wordBytes: nat, r: RawArc): (b: seq<byte>)
    ensures |b| == ArcSize(wordBytes)
  {
    Le(r.frompc, wordBytes) + Le(r.selfpc, wordBytes) + Le(r.count, wordBytes)
  }

  function ArcPieces(wordBytes: nat, r: seq<RawArc>): (pieces: seq<seq<byte>>)
    ensures |pieces| == |r|
    ensures forall i | 0 <= i < |r| :: pieces[i] == ArcBytes(wordBytes, r[i])
  {
    seq(|r|, i requires 0 <= i < |r| => ArcBytes(wordBytes, r[i]))
  }

  /** The buffers `gprof_collect` hands out, in order. */
  function Pieces(p: Profile, wordBytes: nat, spare: seq<byte>): seq<seq<byte>>
    requires |spare| == 12
  {
    [HeaderOf(p, wordBytes, spare), CounterBytes(p.kcount)] + ArcPieces(wordBytes, Export(p))
  }

  /** The size of the buffer that is allocated for them. */
  function Capacity(p: Profile, wordBytes: nat): nat {
    HeaderSize(wordBytes) + p.textsize / 2 + p.tolimit * ArcSize(wordBytes)
  }

  /** The capacity is what header, counters and `tolimit` arcs take. */
  lemma CapacityHolds(p: Profile, wordBytes: nat, spare: seq<byte>, raw: RawArc)
    requires WellSized(p) && |spare| == 12
    ensures Capacity(p, wordBytes)
         == |HeaderOf(p, wordBytes, spare)| + |CounterBytes(p.kcount)| + p.tolimit * |ArcBytes(wordBytes, raw)|
  {
  }

  lemma {:induction false} ArcPiecesLength(wordBytes: nat, r: seq<RawArc>)
    ensures |Flatten(ArcPieces(wordBytes, r))| == |r| * ArcSize(wordBytes)
  {
    if r != [] {
      var n := |r| - 1;
      ArcPiecesLength(wordBytes, r[..n]);
      assert ArcPieces(wordBytes, r)[..n] == ArcPieces(wordBytes, r[..n]);
      MultiplySuccessor(n, ArcSize(wordBytes));
    }
  }

  lemma MultiplySuccessor(n: nat, c: nat)
    ensures (n + 1) * c == n * c + c
  {
  }

  lemma FlattenTwo(a: seq<byte>, b: seq<byte>)
    ensures Flatten([a, b]) == a + b
  {
    assert [a, b][..1] == [a];
    assert [a][..0] == [];
    assert Flatten([a]) == Flatten([]) + a == a;
  }

  lemma PiecesLength(p: Profile, wordBytes: nat, spare: seq<byte>, n: nat)
    requires |spare| == 12 && n <= |Export(p)|
    ensures |Flatten(Pieces(p, wordBytes, spare)[..2 + n])|
         == HeaderSize(wordBytes) + 2 * |p.kcount| + n * ArcSize(wordBytes)
  {
    var h, c, r := HeaderOf(p, wordBytes, spare), CounterBytes(p.kcount), Export(p)[..n];
    assert Pieces(p, wordBytes, spare)[..2 + n] == [h, c] + ArcPieces(wordBytes, r);
    FlattenConcat([h, c], ArcPieces(wordBytes, r));
    ArcPiecesLength(wordBytes, r);
    FlattenTwo(h, c);
  }

  /** What is collected fits the buffer allocated for it. */
  lemma ImageFits(p: Profile, wordBytes: nat, spare: seq<byte>)
    requires |spare| == 12 && |p.kcount| == p.textsize / 4 && p.textsize % 4 == 0
    requires |Export(p)| <= p.tolimit
    ensures |Flatten(Pieces(p, wordBytes, spare))| <= Capacity(p, wordBytes)
  {
    hide Pieces, Export, HeaderSize, ArcSize;
    var n := |Export(p)|;
    PiecesLength(p, wordBytes, spare, n);
    PiecesCount(p, wordBytes, spare);
    assert Pieces(p, wordBytes, spare)[..2 + n] == Pieces(p, wordBytes, spare);
    MultiplyMonotonic(n, p.tolimit, ArcSize(wordBytes));
  }

  lemma PiecesCount(p: Profile, wordBytes: nat, spare: seq<byte>)
    requires |spare| == 12
    ensures |Pieces(p, wordBytes, spare)| == 2 + |Export(p)|
  {
  }

  lemma MultiplyMonotonic(a: nat, b: nat, c: nat)
    requires a <= b
    ensures a * c <= b * c
  {
  }

  /** A buffer allocated before profiling started holds no more than the header: it is too small
      for what is collected later exactly when there is any text to profile. */
  lemma EarlyBufferFitsIffNoText(p: Profile, wordBytes: nat, spare: seq<byte>)
    requires WellSized(p) && |spare| == 12
    ensures |Flatten(Pieces(p, wordBytes, spare))| <= HeaderSize(wordBytes) <==> p.textsize == 0
  {
    hide Pieces, Export, ArcSize;
    var n := |Export(p)|;
    PiecesCount(p, wordBytes, spare);
    PiecesLength(p, wordBytes, spare, n);
    assert Pieces(p, wordBytes, spare)[..2 + n] == Pieces(p, wordBytes, spare);
    if p.textsize == 0 {
      NoChainsNoExport(p);
    } else {
      MultiplyMonotonic(0, n, ArcSize(wordBytes));
    }
  }

  lemma NoChainsNoExport(p: Profile)
    requires p.chains == []
    ensures |Export(p)| == 0
  {
  }

  /** The console dump, read back by the log parser, is the file that is written directly. */
  lemma ConsoleDumpIsFile(log: string, pieces: seq<seq<byte>>)
    ensures var parsed := RunText(LogParser.START, log + DumpText(PROFILING_START, [Section(GMON_OUT, pieces)], PROFILING_END));
            parsed.files == RunText(LogParser.START, log).files[GMON_OUT := Flatten(pieces)]
  {
    var ss := [Section(GMON_OUT, pieces)];
    hide RunText, Opens, Closes, GoodName, DumpText, Flatten;
    MarkersRecognised();
    GmonNameIsGood();
    assert GoodSections(ss);
    DumpParses(LogParser.START, log, PROFILING_START, ss, PROFILING_END);
    assert ss[1..] == [];
  }

  lemma GmonNameIsGood()
    ensures GoodName(GMON_OUT)
  {
    hide LogParser.IsSpace, LogParser.Marker;
    LogParserNames();
    NoDump(GMON_OUT, "start");
    NoDump(GMON_OUT, "finish");
  }

  lemma LogParserNames()
    ensures !LogParser.IsSpace('g') && !LogParser.IsSpace('t')
  {
  }

  lemma {:induction false} PiecesTextAppend(pieces: seq<seq<byte>>, piece: seq<byte>)
    ensures PiecesText(pieces + [piece]) == PiecesText(pieces) + HexLines(piece)
    decreases |pieces|
  {
    hide HexLines;
    if pieces == [] {
      assert (pieces + [piece])[1..] == [];
    } else {
      PiecesTextAppend(pieces[1..], piece);
      assert (pieces + [piece])[1..] == pieces[1..] + [piece];
    }
  }

  // What the arrays hold, as a profile.

  /** The arrays of `t` and the counters hold the profile `p`. The link field of entry 0 counts the
      entries handed out; the entry that would exceed the table is counted but not there. */
  ghost predicate Represents(t: Table, kcount: seq<nat>, p: Profile) {
    && WellSized(p) && |t.tos| == p.tolimit && kcount == p.kcount
    && Shape(t) && ChainsOf(t) == p.chains
    && p.link == t.tos[0].link <= p.tolimit
    && (p.state == ERROR <==> p.link == p.tolimit)
    && t.used == TotalLength(p.chains) == if p.state == ERROR then p.link - 1 else p.link
  }

  lemma Walk(t: Table, kcount: seq<nat>, p: Profile, slot: nat)
    requires Represents(t, kcount, p) && slot < |p.chains|
    ensures Shape(t)
    ensures |t.froms| == |t.nodes| == |p.chains| && |t.tos| == |t.slotOf| == p.tolimit
    ensures ChainShape(t.tos, t.froms[slot], t.nodes[slot]) && Owned(t.nodes[slot], t.used, t.slotOf, slot)
    ensures p.chains[slot] == ChainOf(t.tos, t.nodes[slot])
  {
  }

  lemma LinkedEnds(tos: seq<Tostruct>, head: nat, ids: seq<nat>, k: nat)
    requires ChainShape(tos, head, ids)
    ensures head == 0 <==> ids == []
    ensures head != 0 ==> head == ids[0]
    ensures k < |ids| ==> tos[ids[k]].link == Next(ids, k)
  {
  }

  /** A profile that differs only in its state is represented by the same arrays. */
  lemma StateRepresents(t: Table, kcount: seq<nat>, p: Profile, state: int)
    requires Represents(t, kcount, p) && p.state != ERROR && state != ERROR
    ensures Represents(t, kcount, p.(state := state))
  {
  }

  lemma AbsentFromChain(tos: seq<Tostruct>, ids: seq<nat>, selfpc: nat)
    requires InRange(tos, ids) && forall k | 0 <= k < |ids| :: tos[ids[k]].selfpc != selfpc
    ensures Find(ChainOf(tos, ids), selfpc) == |ids|
  {
  }

  lemma PresentInChain(tos: seq<Tostruct>, ids: seq<nat>, k: nat)
    requires InRange(tos, ids) && DistinctCallees(tos, ids) && k < |ids|
    ensures Find(ChainOf(tos, ids), tos[ids[k]].selfpc) == k
  {
    FindInDistinct(ChainOf(tos, ids), k);
  }

  lemma CountersRepresent(t: Table, kcount: seq<nat>, p: Profile, kcount': seq<nat>)
    requires Represents(t, kcount, p) && |kcount'| == |kcount|
    ensures Represents(t, kcount', p.(kcount := kcount'))
  {
  }

  /** The walk came to the end of the chain, and there was room for a new entry. */
  lemma InsertRepresents(t: Table, kcount: seq<nat>, p: Profile, frompc: nat, selfpc: nat, tos': seq<Tostruct>)
    requires Represents(t, kcount, p) && p.state == ON && InText(p, frompc) && p.link + 1 < p.tolimit
    requires |t.nodes| == |t.froms| == |p.chains| && |t.tos| == |tos'| == p.tolimit && t.used == p.link
    requires var slot := Slot(p, frompc);
             && InRange(t.tos, t.nodes[slot])
             && (forall k | 0 <= k < |t.nodes[slot]| :: t.tos[t.nodes[slot][k]].selfpc != selfpc)
             && tos' == t.tos[0 := t.tos[0].(link := p.link + 1)][p.link + 1 := Tostruct(selfpc, 1, t.froms[slot])]
    ensures Shape(t) && Represents(Inserted(t, Slot(p, frompc), tos'), kcount, Call(p, frompc, selfpc))
    ensures Call(p, frompc, selfpc).state == ON
  {
    hide Touch, Shape, Linked, DistinctCallees, Owned;
    var slot := Slot(p, frompc);
    InsertKeepsShape(t, slot, selfpc, tos');
    AbsentFromChain(t.tos, t.nodes[slot], selfpc);
    TouchAbsent(p.chains[slot], selfpc);
    TotalsAfterUpdate(p.chains, slot, Touch(p.chains[slot], selfpc));
  }

  /** The walk came to the end of the chain, and the table was full. */
  lemma OverflowRepresents(t: Table, kcount: seq<nat>, p: Profile, frompc: nat, selfpc: nat, tos': seq<Tostruct>)
    requires Represents(t, kcount, p) && p.state == ON && InText(p, frompc) && p.tolimit <= p.link + 1
    requires |t.nodes| == |t.froms| == |p.chains| && |t.tos| == p.tolimit
    requires var slot := Slot(p, frompc);
             && InRange(t.tos, t.nodes[slot])
             && (forall k | 0 <= k < |t.nodes[slot]| :: t.tos[t.nodes[slot][k]].selfpc != selfpc)
             && tos' == t.tos[0 := t.tos[0].(link := p.link + 1)]
    ensures Represents(t.(tos := tos'), kcount, Call(p, frompc, selfpc))
    ensures Call(p, frompc, selfpc).state == ERROR
  {
    hide Touch;
    var slot, u := Slot(p, frompc), t.(tos := tos');
    AbsentFromChain(t.tos, t.nodes[slot], selfpc);
    forall s | 0 <= s < |t.nodes|
      ensures ChainShape(tos', t.froms[s], t.nodes[s]) && ChainOf(tos', t.nodes[s]) == ChainOf(t.tos, t.nodes[s])
    {
      ChainUnaffected(t.tos, tos', t.froms[s], t.nodes[s]);
    }
    assert Shape(u);
    assert ChainsOf(u) == ChainsOf(t);
  }

  /** The walk found the callee at place `k`. */
  lemma MoveRepresents(t: Table, kcount: seq<nat>, p: Profile, frompc: nat, k: nat, tos': seq<Tostruct>)
    requires Represents(t, kcount, p) && p.state == ON && InText(p, frompc)
    requires |t.nodes| == |t.froms| == |p.chains| && |t.tos| == |tos'| == p.tolimit
    requires var slot := Slot(p, frompc);
             && k < |t.nodes[slot]| && InRange(t.tos, t.nodes[slot])
             && Moved(t.tos, tos', t.froms[slot], t.nodes[slot], k)
    ensures Shape(t)
    ensures Represents(Promoted(t, Slot(p, frompc), k, tos'), kcount,
                       Call(p, frompc, t.tos[t.nodes[Slot(p, frompc)][k]].selfpc))
  {
    hide Touch, Linked, Owned;
    var slot := Slot(p, frompc);
    var ids := t.nodes[slot];
    Walk(t, kcount, p, slot);
    MoveKeepsShape(t, slot, k, tos');
    PresentInChain(t.tos, ids, k);
    EntryZeroKept(t, slot, k, tos');
    TouchLength(p.chains[slot], t.tos[ids[k]].selfpc);
    TotalsAfterUpdate(p.chains, slot, Touch(p.chains[slot], t.tos[ids[k]].selfpc));
  }

  lemma EntryZeroKept(t: Table, slot: nat, k: nat, tos': seq<Tostruct>)
    requires slot < |t.nodes| == |t.froms| && k < |t.nodes[slot]| && InRange(t.tos, t.nodes[slot]) && 0 < |t.tos|
    requires |tos'| == |t.tos| && Moved(t.tos, tos', t.froms[slot], t.nodes[slot], k)
    ensures tos'[0] == t.tos[0]
  {
  }

  lemma EmptyRepresents(t: Table, kcount: seq<nat>, p: Profile)
    requires Fresh(p) && kcount == p.kcount && p.tolimit == |t.tos| == |t.slotOf| && |t.froms| == |t.nodes| == |p.chains|
    requires t.used == 0 == t.tos[0].link
    requires forall s | 0 <= s < |t.froms| :: t.froms[s] == 0 && t.nodes[s] == []
    ensures Represents(t, kcount, p)
  {
    TotalsOfEmpty(p.chains);
  }

  /** The unsigned subtraction and comparison of `_mcount` accept the text and one address more. */
  lemma OffsetInText(word: nat, lowpc: nat, textsize: nat, frompc: nat)
    requires frompc < word && lowpc + textsize < word
    ensures (frompc - lowpc) % word <= textsize <==> lowpc <= frompc <= lowpc + textsize
    ensures lowpc <= frompc ==> (frompc - lowpc) % word == frompc - lowpc
  {
    if frompc < lowpc {
      assert (frompc - lowpc) % word == frompc - lowpc + word;
    }
  }

  lemma RepresentsSizes(t: Table, kcount: seq<nat>, p: Profile)
    requires Represents(t, kcount, p)
    ensures |t.froms| == |t.nodes| == |p.chains| == |p.kcount| == p.textsize / 4
    ensures |t.tos| == |t.slotOf| == p.tolimit && p.link == t.tos[0].link <= p.tolimit
    ensures p.state != ERROR ==> t.used == p.link < p.tolimit
  {
  }

  lemma InsertedIs(t: Table, slot: nat, tos': seq<Tostruct>, u: Table)
    requires Shape(t) && slot < |t.froms| && t.used + 1 < |t.tos| && |t.slotOf| == |t.tos| && |t.nodes| == |t.froms|
    requires u == Table(t.froms[slot := t.used + 1], tos', t.used + 1,
                        t.nodes[slot := [t.used + 1] + t.nodes[slot]], t.slotOf[t.used + 1 := slot])
    ensures u == Inserted(t, slot, tos')
  {
  }

  /** The callee led its chain: only its count changes. */
  lemma FrontCounted(t: Table, slot: nat, tos': seq<Tostruct>, u: Table)
    requires Shape(t) && slot < |t.froms| && t.nodes[slot] != []
    requires ChainShape(t.tos, t.froms[slot], t.nodes[slot]) && u == t.(tos := tos')
    requires var top := t.froms[slot]; tos' == t.tos[top := t.tos[top].(count := t.tos[top].count + 1)]
    ensures Moved(t.tos, tos', t.froms[slot], t.nodes[slot], 0) && u == Promoted(t, slot, 0, tos')
  {
    hide Linked, DistinctCallees, Owned;
    var ids := t.nodes[slot];
    LinkedEnds(t.tos, t.froms[slot], ids, 0);
    assert ToFront(ids, 0) == ids;
    assert t.froms[slot := ids[0]] == t.froms;
    assert t.nodes[slot := ids] == t.nodes;
  }

  /** The callee was found further down: it is unlinked and put first. */
  lemma FoundMoved(t: Table, slot: nat, k: nat, tos': seq<Tostruct>, u: Table)
    requires Shape(t) && slot < |t.froms| && 0 < k < |t.nodes[slot]|
    requires ChainShape(t.tos, t.froms[slot], t.nodes[slot])
    requires var ids := t.nodes[slot];
             && u == Table(t.froms[slot := ids[k]], tos', t.used, t.nodes[slot := ToFront(ids, k)], t.slotOf)
             && tos' == t.tos[ids[k - 1] := t.tos[ids[k - 1]].(link := t.tos[ids[k]].link)]
                             [ids[k] := Tostruct(t.tos[ids[k]].selfpc, t.tos[ids[k]].count + 1, t.froms[slot])]
    ensures Moved(t.tos, tos', t.froms[slot], t.nodes[slot], k) && u == Promoted(t, slot, k, tos')
  {
    hide Linked, Owned;
    var ids := t.nodes[slot];
    assert t.tos[ids[k - 1]].selfpc != t.tos[ids[k]].selfpc;
  }

  lemma StartupRepresents(t: Table, kcount: seq<nat>, wordBytes: nat, low: nat, high: nat)
    requires low <= high && |t.tos| == |t.slotOf| == Startup(wordBytes, low, high).tolimit
    requires |kcount| == |t.froms| == |t.nodes| == Startup(wordBytes, low, high).textsize / 4
    requires t.used == 0 && 0 < |t.tos| && t.tos[0].link == 0
    requires forall s | 0 <= s < |t.froms| :: t.froms[s] == 0 && t.nodes[s] == []
    requires forall i | 0 <= i < |kcount| :: kcount[i] == 0
    ensures kcount == Startup(wordBytes, low, high).kcount
    ensures Represents(t, kcount, Startup(wordBytes, low, high))
  {
    StartupIsFresh(wordBytes, low, high);
    hide Represents;
    EmptyRepresents(t, kcount, Startup(wordBytes, low, high));
  }

  // Collecting.

  /** What has gone out so far: the buffer position, or that the buffer was overrun, the file, the
      console. */
  datatype Sink = Sink(overrun: bool, bufptr: nat, file: seq<byte>, console: string)

  const EMPTY_SINK := Sink(false, 0, [], "")

  /** How a collection ends. The code goes on writing where the model stops with `Overrun`. */
  datatype Collected = Failed | Overrun | Done

  function ArcsSent(p: Profile, wordBytes: nat, spare: seq<byte>, raws: seq<RawArc>): seq<seq<byte>>
    requires |spare| == 12
  {
    [HeaderOf(p, wordBytes, spare), CounterBytes(p.kcount)] + ArcPieces(wordBytes, raws)
  }

  lemma ArcsSentStep(p: Profile, wordBytes: nat, spare: seq<byte>, raws: seq<RawArc>, raw: RawArc)
    requires |spare| == 12
    ensures ArcsSent(p, wordBytes, spare, raws + [raw]) == ArcsSent(p, wordBytes, spare, raws) + [ArcBytes(wordBytes, raw)]
  {
    hide HeaderOf, CounterBytes, ArcBytes;
    assert ArcPieces(wordBytes, raws + [raw]) == ArcPieces(wordBytes, raws) + [ArcBytes(wordBytes, raw)];
  }

  lemma FlattenAppend(pieces: seq<seq<byte>>, piece: seq<byte>)
    ensures Flatten(pieces + [piece]) == Flatten(pieces) + piece
  {
    assert (pieces + [piece])[..|pieces|] == pieces;
  }

  lemma ExportChainStep(frompc: nat, chain: Chain, k: nat)
    requires k < |chain|
    ensures ExportChain(frompc, chain[..k + 1]) ==
            ExportChain(frompc, chain[..k]) + [RawArc(frompc, chain[k].selfpc, chain[k].count)]
  {
  }

  lemma RepresentsTotal(t: Table, kcount: seq<nat>, p: Profile)
    requires Represents(t, kcount, p) && p.state != ERROR
    ensures TotalLength(p.chains) == p.link < p.tolimit
  {
  }

  lemma ExportBelowLimit(t: Table, kcount: seq<nat>, p: Profile)
    requires Represents(t, kcount, p) && p.state != ERROR
    ensures |Export(p)| < p.tolimit
  {
    hide Represents, TotalLength;
    RepresentsTotal(t, kcount, p);
    ExportFirstTotals(p, |p.chains|);
    assert p.chains[..|p.chains|] == p.chains;
  }

  lemma SampleIgnored(p: Profile, pc: nat)
    requires p.state != ON || !InText(p, pc)
    ensures WellSized(p) ==> Sample(p, pc) == p
  {
  }

  lemma ExportChainEnds(p: Profile, frompc: nat, n: nat)
    requires n < |p.chains| && frompc == p.lowpc + 4 * n
    ensures ExportFirst(p, n) + ExportChain(frompc, p.chains[n][..0]) == ExportFirst(p, n)
    ensures ExportFirst(p, n) + ExportChain(frompc, p.chains[n][..|p.chains[n]|]) == ExportFirst(p, n + 1)
  {
    assert p.chains[n][..|p.chains[n]|] == p.chains[n];
  }

  lemma EmptyChain(t: Table, kcount: seq<nat>, p: Profile, n: nat)
    requires Represents(t, kcount, p) && n < |p.chains| && n < |t.froms| && t.froms[n] == 0
    ensures ExportFirst(p, n + 1) == ExportFirst(p, n)
  {
    hide Represents;
    Walk(t, kcount, p, n);
    LinkedEnds(t.tos, t.froms[n], t.nodes[n], 0);
    assert p.chains[n] == [];
  }

  /** The bytes sent so far are in the buffer, unless they do not fit. */
  ghost predicate InBuffer(buf: seq<byte>, sink: Sink, sent: seq<byte>) {
    && (sink.overrun <==> |sent| > |buf|)
    && (!sink.overrun ==> sink.bufptr == |sent| && buf[..sink.bufptr] == sent)
  }

  lemma Appended(was: seq<byte>, buf: seq<byte>, at: nat, piece: seq<byte>)
    requires |was| == |buf| && at + |piece| <= |buf|
    requires forall i | 0 <= i < |buf| :: buf[i] == if at <= i < at + |piece| then piece[i - at] else was[i]
    ensures buf[..at + |piece|] == was[..at] + piece
  {
  }

  /** A call site that passes the range check without having a chain head. */
  predicate Strays(p: Profile, frompc: nat) {
    p.state == ON && frompc == p.lowpc + p.textsize
  }

  lemma ConsoleText(opening: string, name: string, text: string, pieces: seq<seq<byte>>, closing: string)
    requires text == PiecesText(pieces)
    ensures "\n" + opening + "\n" + text + "\n" + CreateLine(name) + "\n" + "\n" + closing + "\n"
         == DumpText(opening, [Section(name, pieces)], closing)
  {
    hide CreateLine, PiecesText;
    OneSection(Section(name, pieces));
  }

  lemma OneSection(s: Section)
    ensures SectionsText([s]) == SectionText(s)
  {
    assert [s][1..] == [];
  }

  class Gmon {
    const wordBytes: nat
    const programLow: nat
    const programHigh: nat

    var state: int
    var alreadySetup: bool
    var kcount: array<nat>
    var kcountsize: nat
    var froms: array<nat>
    var fromssize: nat
    var tos: array<Tostruct>
    var tolimit: nat
    var lowpc: nat
    var highpc: nat
    var textsize: nat
    var scale: nat

    var gprofBuf: array?<byte>
    var gprofSize: nat

    /** The recorded profile, and how it lies in the arrays. */
    ghost var profile: Profile
    ghost var nodes: seq<seq<nat>>
    ghost var slotOf: seq<nat>

    ghost predicate ProgramOk() {
      (wordBytes == 4 || wordBytes == 8) && programLow <= programHigh && programHigh + 4 <= Word(wordBytes)
    }

    ghost predicate Mapped()
      reads `tos
    {
      0 < tos.Length
    }

    ghost function Linking(): Table
      requires Mapped()
      reads `froms, `tos, `nodes, `slotOf, froms, tos
    {
      Table(froms[..], tos[..], if tos[0].link < tos.Length then tos[0].link else tos.Length - 1, nodes, slotOf)
    }

    /** The tables hold the profile; the state word may be changing. */
    ghost predicate TablesValid()
      requires Mapped()
      reads `alreadySetup, `kcount, `kcountsize, `froms, `fromssize, `tos, `tolimit, `lowpc, `highpc,
            `textsize, `scale, `profile, `nodes, `slotOf, kcount, froms, tos
    {
      && ProgramOk() && kcount != froms
      && alreadySetup
      && lowpc == RoundDown4(programLow) && highpc == RoundUp4(programHigh) && textsize == highpc - lowpc
      && kcountsize == fromssize == textsize / 2
      && kcount.Length == froms.Length == textsize / 4
      && tolimit == tos.Length && MINARCS <= tolimit <= MAXARCS
      && profile == Profile(profile.state, lowpc, textsize, tolimit, tos[0].link, scale, profile.chains, kcount[..])
      && Represents(Linking(), kcount[..], profile)
    }

    ghost predicate Unmapped()
      reads `state, `alreadySetup, `kcount, `kcountsize, `froms, `fromssize, `tos, `tolimit, `lowpc, `highpc,
            `textsize, `scale, `profile, `nodes, `slotOf, kcount, froms, tos
    {
      && state == (if alreadySetup then ERROR else OFF)
      && kcount.Length == froms.Length == tos.Length == 0
      && (!alreadySetup ==> kcountsize == fromssize == tolimit == lowpc == highpc == textsize == scale == 0)
      && profile == Profile(state, lowpc, textsize, tolimit, 0, scale, [], [])
    }

    ghost predicate Valid()
      reads `state, `alreadySetup, `kcount, `kcountsize, `froms, `fromssize, `tos, `tolimit, `lowpc, `highpc,
            `textsize, `scale, `profile, `nodes, `slotOf, kcount, froms, tos
    {
      && ProgramOk() && kcount != froms && 0 <= state <= 3 && profile.state == state
      && if Mapped() then TablesValid() && WellSized(profile) else Unmapped()
    }

    lemma SetupMapped()
      requires Valid()
      ensures !alreadySetup ==> !Mapped() && profile == Profile(OFF, 0, 0, 0, 0, 0, [], [])
      ensures Mapped() ==> alreadySetup && WellSized(profile)
    {
      hide Represents;
    }

    lemma StartupWellSized()
      requires Valid()
      ensures WellSized(Startup(wordBytes, programLow, programHigh))
    {
      StartupSizes(wordBytes, programLow, programHigh);
    }

    constructor (wordBytes: nat, programLow: nat, programHigh: nat)
      requires wordBytes == 4 || wordBytes == 8
      requires programLow <= programHigh && programHigh + 4 <= Word(wordBytes)
      ensures Valid() && !alreadySetup && gprofBuf == null
      ensures this.wordBytes == wordBytes && this.programLow == programLow && this.programHigh == programHigh
      ensures fresh(kcount) && fresh(froms) && fresh(tos)
    {
      this.wordBytes, this.programLow, this.programHigh := wordBytes, programLow, programHigh;
      state, alreadySetup := OFF, false;
      kcount, froms, tos := new nat[0], new nat[0], new Tostruct[0];
      kcountsize, fromssize, tolimit, lowpc, highpc, textsize, scale := 0, 0, 0, 0, 0, 0, 0;
      gprofBuf, gprofSize := null, 0;
      nodes, slotOf := [], [];
      profile := Profile(OFF, 0, 0, 0, 0, 0, [], []);
    }

    method Moncontrol(mode: bool)
      modifies this`state
      ensures state == if mode then ON else OFF
    {
      state := if mode then ON else OFF;
    }

    /** The sizes of all tables are settled. */
    ghost predicate Measured()
      reads this
    {
      && ProgramOk() && alreadySetup
      && lowpc == RoundDown4(programLow) && highpc == RoundUp4(programHigh) && textsize == highpc - lowpc
      && kcountsize == fromssize == textsize / 2
      && tolimit == Clamp(textsize * ARCDENSITY % Word(wordBytes) / 100)
    }

    /** Zeroed tables of the settled sizes. */
    method AllocateTables()
      requires Measured()
      modifies this`kcount, this`froms, this`tos, this`nodes, this`slotOf
      ensures fresh(kcount) && fresh(froms) && fresh(tos) && kcount != froms && Mapped()
      ensures kcount.Length == froms.Length == textsize / 4 && tos.Length == tolimit && tos[0].link == 0
      ensures kcount[..] == Startup(wordBytes, programLow, programHigh).kcount
      ensures Represents(Linking(), kcount[..], Startup(wordBytes, programLow, programHigh))
    {
      hide Represents, Startup, Clamp, RoundDown4, RoundUp4, Word;
      StartupSizes(wordBytes, programLow, programHigh);
      NewArrays();
      StartupRepresents(Linking(), kcount[..], wordBytes, programLow, programHigh);
    }

    method NewArrays()
      requires 0 < tolimit
      modifies this`kcount, this`froms, this`tos, this`nodes, this`slotOf
      ensures fresh(kcount) && fresh(froms) && fresh(tos) && kcount != froms
      ensures kcount.Length == kcountsize / 2 && froms.Length == fromssize / 2 && tos.Length == tolimit
      ensures |nodes| == froms.Length && |slotOf| == tolimit && tos[0].link == 0
      ensures forall i | 0 <= i < kcount.Length :: kcount[i] == 0
      ensures forall s | 0 <= s < froms.Length :: froms[s] == 0 && nodes[s] == []
    {
      tos := new Tostruct[tolimit](_ => Tostruct(0, 0, 0));
      kcount := new nat[kcountsize / 2](_ => 0);
      froms := new nat[fromssize / 2](_ => 0);
      nodes, slotOf := seq(froms.Length, _ => []), seq(tolimit, _ => 0);
    }

    /** Tables that hold the fresh profile. */
    method InstallTables()
      requires Measured()
      modifies this`kcount, this`froms, this`tos, this`scale, this`profile, this`nodes, this`slotOf
      ensures fresh(kcount) && fresh(froms) && fresh(tos)
      ensures Mapped() && TablesValid() && profile == Startup(wordBytes, programLow, programHigh)
    {
      hide Represents, Startup;
      StartupSizes(wordBytes, programLow, programHigh);
      AllocateTables();
      if kcountsize < highpc - lowpc {
        scale := 32768;
      } else {
        scale := 65536;
      }
      profile := Startup(wordBytes, programLow, programHigh);
    }

    method Measure()
      requires ProgramOk() && alreadySetup
      modifies this`lowpc, this`highpc, this`textsize, this`kcountsize, this`fromssize, this`tolimit
      ensures Measured()
    {
      lowpc := RoundDown4(programLow);
      highpc := RoundUp4(programHigh);
      textsize := highpc - lowpc;
      kcountsize := textsize / 2;
      fromssize := textsize / 2;
      tolimit := textsize * ARCDENSITY % Word(wordBytes) / 100;
      if tolimit < MINARCS {
        tolimit := MINARCS;
      } else if MAXARCS < tolimit {
        tolimit := MAXARCS;
      }
    }

    method Monstartup(mallocOk: bool)
      requires ProgramOk() && alreadySetup && kcount != froms && kcount.Length == froms.Length == tos.Length == 0
      modifies this
      ensures Valid() && alreadySetup && gprofBuf == old(gprofBuf) && gprofSize == old(gprofSize)
      ensures mallocOk ==> fresh(kcount) && fresh(froms) && fresh(tos)
      ensures mallocOk ==> Mapped() && profile == Startup(wordBytes, programLow, programHigh)
      ensures !mallocOk ==> !Mapped() && state == ERROR
    {
      hide Startup, TablesValid, Clamp, RoundUp4, RoundDown4, Word, WellSized;
      Measure();
      if !mallocOk {
        state := ERROR;
        profile := Profile(state, lowpc, textsize, tolimit, 0, scale, [], []);
        return;
      }
      InstallTables();
      StartupSizes(wordBytes, programLow, programHigh);
      Moncontrol(true);
      TablesDistinct();
    }

    lemma TablesDistinct()
      requires Mapped() && TablesValid()
      ensures ProgramOk() && kcount != froms
    {
    }

    /** Puts a new entry at the head of a chain that has none for the callee, if there is room. */
    method AddArc(slot: nat, selfpc: nat, ghost frompc: nat) returns (full: bool)
      requires Mapped() && TablesValid() && profile.state == ON && InText(profile, frompc)
      requires WellSized(profile) && slot == Slot(profile, frompc)
      requires |nodes| == froms.Length && InRange(tos[..], nodes[slot])
      requires forall k | 0 <= k < |nodes[slot]| :: tos[nodes[slot][k]].selfpc != selfpc
      modifies this`profile, this`nodes, this`slotOf, froms, tos
      ensures TablesValid() && profile == Call(old(profile), frompc, selfpc)
      ensures profile.state == if full then ERROR else ON
    {
      hide Represents, Call, Linked, DistinctCallees, Inserted, Shape;
      ghost var t, p, kc := Linking(), profile, kcount[..];
      RepresentsSizes(t, kc, p);
      profile := Call(profile, frompc, selfpc);
      tos[0] := tos[0].(link := (tos[0].link + 1) % 65536);
      var toindex := tos[0].link;
      assert toindex == p.link + 1;
      full := toindex >= tolimit;
      if full {
        OverflowRepresents(t, kc, p, frompc, selfpc, tos[..]);
        assert Linking() == t.(tos := tos[..]);
        RepresentsSizes(Linking(), kc, profile);
        return;
      }
      tos[toindex] := Tostruct(selfpc, 1, froms[slot]);
      froms[slot] := toindex;
      nodes, slotOf := nodes[slot := [toindex] + nodes[slot]], slotOf[toindex := slot];
      InsertRepresents(t, kc, p, frompc, selfpc, tos[..]);
      InsertedIs(t, slot, tos[..], Linking());
      RepresentsSizes(Linking(), kc, profile);
    }

    /** Counts a call of the callee at the head of a chain. */
    method CountFront(slot: nat, ghost frompc: nat)
      requires Mapped() && TablesValid() && profile.state == ON && InText(profile, frompc)
      requires WellSized(profile) && slot == Slot(profile, frompc)
      requires |nodes| == froms.Length && nodes[slot] != [] && 0 < froms[slot] < tos.Length
      modifies this`profile, tos
      ensures TablesValid() && profile == Call(old(profile), frompc, old(tos[froms[slot]].selfpc))
      ensures profile.state == ON
    {
      hide Represents, Touch, Find, Linked, DistinctCallees, Moved, Promoted, Shape;
      ghost var t, p, kc := Linking(), profile, kcount[..];
      RepresentsSizes(t, kc, p);
      Walk(t, kc, p, slot);
      LinkedEnds(t.tos, t.froms[slot], nodes[slot], 0);
      var top := froms[slot];
      profile := Call(profile, frompc, tos[top].selfpc);
      tos[top] := tos[top].(count := tos[top].count + 1);
      FrontCounted(t, slot, tos[..], Linking());
      MoveRepresents(t, kc, p, frompc, 0, tos[..]);
      RepresentsSizes(Linking(), kc, profile);
    }

    /** Counts a call of the callee at place `k` of a chain and moves its entry to the head. */
    method CountAndMove(slot: nat, prevtop: nat, top: nat, ghost k: nat, ghost frompc: nat)
      requires Mapped() && TablesValid() && profile.state == ON && InText(profile, frompc)
      requires WellSized(profile) && slot == Slot(profile, frompc)
      requires |nodes| == froms.Length && 0 < k < |nodes[slot]| && prevtop == nodes[slot][k - 1] && top == nodes[slot][k]
      requires prevtop < tos.Length && top < tos.Length
      modifies this`profile, this`nodes, froms, tos
      ensures TablesValid() && profile == Call(old(profile), frompc, old(tos[top].selfpc))
      ensures profile.state == ON
    {
      hide Represents, Touch, Find, Linked, Moved, Promoted, Shape;
      ghost var t, p, kc := Linking(), profile, kcount[..];
      RepresentsSizes(t, kc, p);
      Walk(t, kc, p, slot);
      LinkedEnds(t.tos, t.froms[slot], nodes[slot], k - 1);
      profile := Call(profile, frompc, tos[top].selfpc);
      tos[top] := tos[top].(count := tos[top].count + 1);
      var toindex := tos[prevtop].link;
      tos[prevtop] := tos[prevtop].(link := tos[top].link);
      tos[top] := tos[top].(link := froms[slot]);
      froms[slot] := toindex;
      nodes := nodes[slot := ToFront(nodes[slot], k)];
      FoundMoved(t, slot, k, tos[..], Linking());
      MoveRepresents(t, kc, p, frompc, k, tos[..]);
      RepresentsSizes(Linking(), kc, profile);
    }

    /** Records one call in the chain of its call-site group. */
    method Traverse(slot: nat, selfpc: nat, ghost frompc: nat) returns (full: bool)
      requires Mapped() && TablesValid() && profile.state == ON && InText(profile, frompc)
      requires WellSized(profile) && slot == Slot(profile, frompc)
      modifies this`profile, this`nodes, this`slotOf, froms, tos
      ensures TablesValid() && profile == Call(old(profile), frompc, selfpc)
      ensures profile.state == if full then ERROR else ON
    {
      hide Represents, Touch, Find, Linked, DistinctCallees, Moved, Promoted, Shape;
      ghost var t, p, kc := Linking(), profile, kcount[..];
      RepresentsSizes(t, kc, p);
      Walk(t, kc, p, slot);
      ghost var ids := nodes[slot];
      var toindex := froms[slot];
      LinkedEnds(t.tos, t.froms[slot], ids, 0);
      if toindex == 0 {
        full := AddArc(slot, selfpc, frompc);
        return;
      }
      full := false;
      var top := toindex;
      if tos[top].selfpc == selfpc {
        CountFront(slot, frompc);
        return;
      }
      ghost var k := 0;
      while true
        invariant Linking() == t && kcount[..] == kc && profile == p && TablesValid()
        invariant k < |ids| && top == ids[k]
        invariant forall j | 0 <= j <= k :: tos[ids[j]].selfpc != selfpc
        decreases |ids| - k
      {
        LinkedEnds(t.tos, t.froms[slot], ids, k);
        if tos[top].link == 0 {
          full := AddArc(slot, selfpc, frompc);
          return;
        }
        var prevtop := top;
        top := tos[top].link;
        k := k + 1;
        if tos[top].selfpc == selfpc {
          CountAndMove(slot, prevtop, top, k, frompc);
          return;
        }
      }
    }

    /** `_mcount` past its test of the state: marks the tables busy, and halts for good when full. It
        gives up where the code would go on with a chain head that does not exist. */
    method CountArc(frompc: nat, selfpc: nat) returns (ok: bool)
      requires Valid() && state == ON && frompc < Word(wordBytes)
      modifies this`state, this`profile, this`nodes, this`slotOf, froms, tos
      ensures ok == !Strays(old(profile), frompc)
      ensures ok ==> Valid() && Mapped() && profile == Call(old(profile), frompc, selfpc)
    {
      hide Represents, Touch, Find;
      ok := true;
      state := state + 1;
      assert state == BUSY;
      var off := (frompc - lowpc) % Word(wordBytes);
      OffsetInText(Word(wordBytes), lowpc, textsize, frompc);
      if off > textsize {
        state := state - 1;
        return;
      }
      if off / 4 >= froms.Length {
        return false;
      }
      var full := Traverse(off / 4, selfpc, frompc);
      if full {
        state := state + 1;
      } else {
        state := state - 1;
      }
    }

    /** Counts one call from `frompc` to `selfpc`, creating the tables at the first call ever. */
    method Mcount(frompc: nat, selfpc: nat, mallocOk: bool) returns (ok: bool)
      requires Valid() && frompc < Word(wordBytes)
      modifies this, froms, tos
      ensures alreadySetup && gprofBuf == old(gprofBuf)
      ensures old(alreadySetup) ==> kcount == old(kcount) && froms == old(froms) && tos == old(tos)
      ensures !old(alreadySetup) && mallocOk ==> fresh(kcount) && fresh(froms) && fresh(tos)
      ensures ok == !Strays(old(Before(mallocOk)), frompc)
      ensures ok ==> Valid() && gprofSize == old(gprofSize)
      ensures ok && old(alreadySetup && !Mapped()) ==> profile == old(profile)
      ensures ok && (old(alreadySetup && Mapped()) || (!old(alreadySetup) && mallocOk)) ==>
                Mapped() && WellSized(old(Before(mallocOk))) && profile == Call(old(Before(mallocOk)), frompc, selfpc)
      ensures ok && !old(alreadySetup) && !mallocOk ==> !Mapped() && state == ERROR
    {
      hide Represents, Startup, Touch, Find;
      if !alreadySetup {
        alreadySetup := true;
        Monstartup(mallocOk);
        StartupSizes(wordBytes, programLow, programHigh);
      }
      if state != ON {
        return true;
      }
      ok := CountArc(frompc, selfpc);
    }

    /** The profile a call finds. */
    ghost function Before(mallocOk: bool): Profile
      requires Valid()
      reads `state, `alreadySetup, `kcount, `kcountsize, `froms, `fromssize, `tos, `tolimit, `lowpc, `highpc,
            `textsize, `scale, `profile, `nodes, `slotOf, kcount, froms, tos
    {
      if alreadySetup || !mallocOk then profile else Startup(wordBytes, programLow, programHigh)
    }

    /** Counts one timer tick at `pc`. */
    method GprofSample(pc: nat)
      requires Valid()
      modifies this`profile, kcount
      ensures Valid()
      ensures Mapped() ==> profile == Sample(old(profile), pc)
      ensures !Mapped() ==> profile == old(profile)
    {
      hide Represents, Sample, ProfIdx32, ProfIdx64;
      if state != ON || !InText(profile, pc) {
        SampleIgnored(profile, pc);
      }
      if state == ON {
        if lowpc <= pc && pc < highpc {
          SampleCountsSlot(profile, pc);
          var idx := if wordBytes == 4 then ProfIdx32(pc, lowpc, scale) else ProfIdx64(pc, lowpc, scale);
          ghost var t, p, kc := Linking(), profile, kcount[..];
          RepresentsSizes(t, kc, p);
          profile := Sample(profile, pc);
          kcount[idx] := (kcount[idx] + 1) % 65536;
          CountersRepresent(t, kc, p, kcount[..]);
        }
      }
    }

    /** `pieces` have gone to the chosen place: 0 the buffer, 1 the file, otherwise the console. */
    ghost predicate Sent(interface: nat, sink: Sink, pieces: seq<seq<byte>>)
      reads `gprofBuf, gprofBuf
    {
      if interface == 0 then gprofBuf != null && InBuffer(gprofBuf[..], sink, Flatten(pieces))
      else if interface == 1 then sink.file == Flatten(pieces)
      else sink.console == PiecesText(pieces)
    }

    /** A `memcpy` to the buffer position. */
    method SendToBuffer(sink: Sink, piece: seq<byte>, ghost sent: seq<byte>) returns (r: Sink)
      requires gprofBuf != null && InBuffer(gprofBuf[..], sink, sent)
      modifies gprofBuf
      ensures InBuffer(gprofBuf[..], r, sent + piece)
    {
      if sink.overrun || sink.bufptr + |piece| > gprofBuf.Length {
        return sink.(overrun := true);
      }
      ghost var was := gprofBuf[..];
      forall i | 0 <= i < |piece| {
        gprofBuf[sink.bufptr + i] := piece[i];
      }
      r := sink.(bufptr := sink.bufptr + |piece|);
      Appended(was, gprofBuf[..], sink.bufptr, piece);
    }

    /** One `memcpy`, `write` or `hexdumpbuf` of a collection. */
    method Send(interface: nat, sink: Sink, piece: seq<byte>, ghost pieces: seq<seq<byte>>) returns (r: Sink)
      requires Sent(interface, sink, pieces)
      modifies gprofBuf
      ensures Sent(interface, r, pieces + [piece])
    {
      hide HexLines, Flatten, InBuffer, PiecesText;
      FlattenAppend(pieces, piece);
      PiecesTextAppend(pieces, piece);
      r := sink;
      if interface == 0 {
        r := SendToBuffer(sink, piece, Flatten(pieces));
      } else if interface == 1 {
        r := sink.(file := sink.file + piece);
      } else {
        var text := HexDumpBuf(piece);
        r := sink.(console := sink.console + text);
      }
    }

    /** `raws` are the arcs sent so far. */
    ghost predicate SentArcs(interface: nat, sink: Sink, spare: seq<byte>, raws: seq<RawArc>)
      requires |spare| == 12
      reads `gprofBuf, `profile, gprofBuf
    {
      Sent(interface, sink, ArcsSent(profile, wordBytes, spare, raws))
    }

    method SendArc(interface: nat, sink: Sink, raw: RawArc, ghost spare: seq<byte>, ghost raws: seq<RawArc>)
      returns (r: Sink)
      requires |spare| == 12 && SentArcs(interface, sink, spare, raws)
      modifies gprofBuf
      ensures SentArcs(interface, r, spare, raws + [raw])
    {
      hide Sent, ArcsSent, ArcBytes;
      ArcsSentStep(profile, wordBytes, spare, raws, raw);
      r := Send(interface, sink, ArcBytes(wordBytes, raw), ArcsSent(profile, wordBytes, spare, raws));
    }

    /** The arcs of one chain, most recently called first. */
    method SendChain(interface: nat, sink: Sink, fromindex: nat, ghost spare: seq<byte>) returns (r: Sink)
      requires Valid() && Mapped() && fromindex < froms.Length && |spare| == 12
      requires fromindex < |profile.chains| && SentArcs(interface, sink, spare, ExportFirst(profile, fromindex))
      modifies gprofBuf
      ensures SentArcs(interface, r, spare, ExportFirst(profile, fromindex + 1))
    {
      hide Represents, SentArcs, Linked, DistinctCallees, ExportChain, ExportFirst;
      ghost var t, p := Linking(), profile;
      RepresentsSizes(t, kcount[..], p);
      Walk(t, kcount[..], p, fromindex);
      ghost var ids, chain := nodes[fromindex], p.chains[fromindex];
      ghost var before := ExportFirst(p, fromindex);
      LinkedEnds(t.tos, froms[fromindex], ids, 0);
      var frompc := lowpc + fromindex * 4;
      ExportChainEnds(p, frompc, fromindex);
      r := sink;
      var toindex := froms[fromindex];
      ghost var k := 0;
      while toindex != 0
        invariant k <= |ids| && toindex == if k < |ids| then ids[k] else 0
        invariant SentArcs(interface, r, spare, before + ExportChain(frompc, chain[..k]))
        decreases |ids| - k
      {
        ExportChainStep(frompc, chain, k);
        LinkedEnds(t.tos, froms[fromindex], ids, k);
        var raw := RawArc(frompc, tos[toindex].selfpc, tos[toindex].count);
        r := SendArc(interface, r, raw, spare, before + ExportChain(frompc, chain[..k]));
        assert before + ExportChain(frompc, chain[..k]) + [raw] == before + (ExportChain(frompc, chain[..k]) + [raw]);
        toindex := tos[toindex].link;
        k := k + 1;
      }
    }

    /** The arcs of all chains, in the order of the chain heads. */
    method SendArcs(interface: nat, sink: Sink, ghost spare: seq<byte>) returns (r: Sink)
      requires Valid() && Mapped() && |spare| == 12 && SentArcs(interface, sink, spare, [])
      modifies gprofBuf
      ensures SentArcs(interface, r, spare, Export(profile))
    {
      hide Represents, SentArcs;
      RepresentsSizes(Linking(), kcount[..], profile);
      r := sink;
      var endfrom := fromssize / 2;
      for fromindex := 0 to endfrom
        invariant SentArcs(interface, r, spare, ExportFirst(profile, fromindex))
      {
        if froms[fromindex] == 0 {
          EmptyChain(Linking(), kcount[..], profile, fromindex);
          continue;
        }
        r := SendChain(interface, r, fromindex, spare);
      }
    }

    /** The header and the counters. */
    method SendHeader(interface: nat, spare: seq<byte>) returns (r: Sink)
      requires Valid() && state != ERROR && |spare| == 12
      requires interface == 0 ==> gprofBuf != null
      modifies gprofBuf
      ensures SentArcs(interface, r, spare, [])
    {
      hide Represents, Flatten, Le, PiecesText, HeaderBytes, Shape, WellSized;
      HeaderIs(spare);
      ValidCounters();
      r := EMPTY_SINK;
      SentNothing(interface, r);
      var header := HeaderBytes(lowpc, highpc, kcountsize, wordBytes, spare);
      r := Send(interface, r, header, []);
      r := Send(interface, r, CounterBytes(kcount[..]), [] + [header]);
      assert [] + [header] + [CounterBytes(kcount[..])] == ArcsSent(profile, wordBytes, spare, []);
    }

    lemma HeaderIs(spare: seq<byte>)
      requires Valid() && state != ERROR && |spare| == 12
      ensures HeaderBytes(lowpc, highpc, kcountsize, wordBytes, spare) == HeaderOf(profile, wordBytes, spare)
    {
      hide Represents, HeaderBytes, WellSized;
    }

    lemma ValidCounters()
      requires Valid()
      ensures kcount[..] == profile.kcount && 2 * |profile.kcount| <= profile.textsize / 2
    {
    }

    lemma SentNothing(interface: nat, sink: Sink)
      requires sink == EMPTY_SINK && (interface == 0 ==> gprofBuf != null)
      ensures Sent(interface, sink, [])
    {
    }

    /** Stops profiling and hands out what was recorded: in a buffer (0), in a file (1) or on the
        console. `spare` stands for the part of the header that is never written. */
    method GprofCollect(interface: nat, spare: seq<byte>, mallocOk: bool, openOk: bool)
      returns (rc: Collected, file: seq<byte>, console: string)
      requires Valid() && |spare| == 12
      modifies this`state, this`profile, this`gprofBuf, this`gprofSize, gprofBuf
      ensures Valid()
      ensures profile == if old(state) == ERROR then old(profile) else old(profile).(state := OFF)
      ensures rc == Failed <==> || old(state) == ERROR
                                || (interface == 0 && old(gprofBuf) == null && !mallocOk)
                                || (interface == 1 && !openOk)
      ensures rc != Failed && interface == 0 ==>
                && gprofBuf != null && (old(gprofBuf) != null ==> gprofBuf == old(gprofBuf))
                && (old(gprofBuf) == null ==> fresh(gprofBuf) && gprofBuf.Length == Capacity(profile, wordBytes))
                && (rc == Overrun <==> |Flatten(Pieces(profile, wordBytes, spare))| > gprofBuf.Length)
      ensures rc == Overrun ==> interface == 0 && old(gprofBuf) != null
      ensures rc == Done && interface == 0 ==>
                gprofSize <= gprofBuf.Length && gprofBuf[..gprofSize] == Flatten(Pieces(profile, wordBytes, spare))
      ensures rc == Done && interface == 1 ==> file == Flatten(Pieces(profile, wordBytes, spare))
      ensures rc == Done && 1 < interface ==>
                console == DumpText(PROFILING_START, [Section(GMON_OUT, Pieces(profile, wordBytes, spare))], PROFILING_END)
      ensures interface != 0 || rc == Failed ==> gprofBuf == old(gprofBuf)
    {
      hide TablesValid, Unmapped, Capacity, Pieces, DumpText, Flatten, PiecesText, CreateLine, HeaderSize, ArcSize;
      rc, file, console := Failed, [], "";
      if state == ERROR {
        return;
      }
      Stop();
      if interface == 0 {
        var ok := KeepBuffer(spare, mallocOk);
        if !ok {
          return;
        }
      } else if interface == 1 {
        if !openOk {
          return;
        }
      } else {
        console := "\n" + PROFILING_START + "\n";
      }
      var sink := SendAll(interface, spare);
      if interface == 0 {
        if sink.overrun {
          rc := Overrun;
          return;
        }
        gprofSize := sink.bufptr;
      } else if interface == 1 {
        file := sink.file;
      } else {
        ConsoleText(PROFILING_START, GMON_OUT, sink.console, Pieces(profile, wordBytes, spare), PROFILING_END);
        console := console + sink.console + "\n" + CreateLine(GMON_OUT) + "\n" + "\n" + PROFILING_END + "\n";
      }
      rc := Done;
    }

    /** The buffer for the image: the one kept from an earlier collection, or a new one. */
    method KeepBuffer(ghost spare: seq<byte>, mallocOk: bool) returns (ok: bool)
      requires Valid() && state != ERROR && |spare| == 12
      requires Capacity(profile, wordBytes) == HeaderSize(wordBytes) + kcountsize + tolimit * ArcSize(wordBytes)
      modifies this`gprofBuf, this`gprofSize
      ensures ok == (old(gprofBuf) != null || mallocOk)
      ensures !ok || old(gprofBuf) != null ==> gprofBuf == old(gprofBuf)
      ensures ok && old(gprofBuf) == null ==>
                && gprofBuf != null && fresh(gprofBuf) && gprofBuf.Length == Capacity(profile, wordBytes)
                && |Flatten(Pieces(profile, wordBytes, spare))| <= gprofBuf.Length
    {
      hide TablesValid, Unmapped, Capacity, Pieces, Flatten, HeaderSize, ArcSize;
      gprofSize := 0;
      if gprofBuf == null {
        if !mallocOk {
          return false;
        }
        gprofBuf := new byte[HeaderSize(wordBytes) + kcountsize + tolimit * ArcSize(wordBytes)];
        ImageFitsCapacity(spare);
      }
      return true;
    }

    /** A buffer allocated for this image holds it. */
    lemma ImageFitsCapacity(spare: seq<byte>)
      requires Valid() && state != ERROR && |spare| == 12
      ensures |Flatten(Pieces(profile, wordBytes, spare))| <= Capacity(profile, wordBytes)
    {
      hide Represents, Capacity, Pieces, Flatten;
      ValidCounters();
      if Mapped() {
        ExportBelowLimit(Linking(), kcount[..], profile);
      } else {
        NoChainsNoExport(profile);
      }
      ImageFits(profile, wordBytes, spare);
    }

    method SendAll(interface: nat, spare: seq<byte>) returns (r: Sink)
      requires Valid() && state != ERROR && |spare| == 12
      requires interface == 0 ==> gprofBuf != null
      modifies gprofBuf
      ensures Sent(interface, r, Pieces(profile, wordBytes, spare))
    {
      hide Represents, Flatten, Sent;
      r := SendHeader(interface, spare);
      var endfrom := fromssize / 2;
      if 0 < endfrom {
        r := SendArcs(interface, r, spare);
      } else {
        NothingExported();
      }
      assert ArcsSent(profile, wordBytes, spare, Export(profile)) == Pieces(profile, wordBytes, spare);
    }

    lemma NothingExported()
      requires Valid() && state != ERROR && fromssize / 2 == 0
      ensures Export(profile) == []
    {
      hide Represents;
    }

    method Stop()
      requires Valid() && state != ERROR
      modifies this`state, this`profile
      ensures Valid() && profile == old(profile).(state := OFF)
      ensures Capacity(profile, wordBytes) == old(Capacity(profile, wordBytes))
      ensures Capacity(profile, wordBytes) == HeaderSize(wordBytes) + kcountsize + tolimit * ArcSize(wordBytes)
    {
      hide Represents;
      if 0 < tos.Length {
        StateRepresents(Linking(), kcount[..], profile, OFF);
      }
      Moncontrol(false);
      profile := profile.(state := OFF);
    }
  }
}
