/** Whole sessions of the call-graph profiler, from boot: calls, timer ticks and collections. */
module GprofSession {
  import opened Bytes
  import opened ArcTable
  import opened DumpRoundTrip
  import opened Gprof
  import opened GmonFile

  /** Something that happens to the profiler. */
  datatype Act = Do(e: Event) | Collect(interface: nat)

  /** Before the first call nothing is set up. `buffer` is the size of the buffer that was kept. */
  datatype Session = Session(started: bool, profile: Profile, buffer: Option<nat>)

  const BLANK := Profile(OFF, 0, 0, 0, 0, 0, [], [])

  const BOOTED := Session(false, BLANK, None)

  function Off(p: Profile): Profile {
    if p.state == ERROR then p else p.(state := OFF)
  }

  function ImageSize(p: Profile, w: nat): nat {
    HeaderSize(w) + 2 * |p.kcount| + |Export(p)| * ArcSize(w)
  }

  /** The session after `a`, or nothing when `a` reaches outside the tables or the buffer. */
  function ActStep(start: Profile, w: nat, s: Session, a: Act): Option<Session>
    requires WellSized(start) && (s.started ==> WellSized(s.profile))
    ensures var r := ActStep(start, w, s, a); r.Some? && r.value.started ==> WellSized(r.value.profile)
  {
    match a
    case Do(CallFrom(frompc, selfpc)) =>
      var p := if s.started then s.profile else start;
      if Strays(p, frompc) then None else Some(Session(true, Call(p, frompc, selfpc), s.buffer))
    case Do(Tick(pc)) =>
      if s.started then Some(s.(profile := Sample(s.profile, pc))) else Some(s)
    case Collect(interface) =>
      var stopped := s.(profile := Off(s.profile));
      if s.profile.state == ERROR || interface != 0 then Some(stopped)
      else if s.buffer == None then Some(stopped.(buffer := Some(Capacity(stopped.profile, w))))
      else if ImageSize(stopped.profile, w) > s.buffer.value then None
      else Some(stopped)
  }

  function SessionRun(start: Profile, w: nat, acts: seq<Act>): (r: Option<Session>)
    requires WellSized(start)
    ensures r.Some? && r.value.started ==> WellSized(r.value.profile)
  {
    if acts == [] then Some(BOOTED)
    else
      match SessionRun(start, w, acts[..|acts| - 1])
      case None => None
      case Some(s) => ActStep(start, w, s, acts[|acts| - 1])
  }

  // What an observer of the acts alone would write down.

  /** The events from the first call to the first collection after it; `early` tells whether a
      collection into memory came before the first call. */
  datatype Observed = Observed(started: bool, stopped: bool, early: bool, es: seq<Event>)

  function Observe(acts: seq<Act>): Observed {
    if acts == [] then Observed(false, false, false, [])
    else
      var o := Observe(acts[..|acts| - 1]);
      match acts[|acts| - 1]
      case Do(e) =>
        if o.stopped || (!o.started && e.Tick?) then o else o.(started := true, es := o.es + [e])
      case Collect(interface) =>
        if o.started then o.(stopped := true) else o.(early := o.early || interface == 0)
  }

  /** The session is what the observer expects: the table that of the plain run, and any buffer of
      one of two sizes. */
  predicate AsObserved(start: Profile, w: nat, o: Observed, s: Session)
    requires WellSized(start)
  {
    && s.started == o.started
    && s.profile == (if !o.started then BLANK else if o.stopped then Off(Run(start, o.es)) else Run(start, o.es))
    && (o.early ==> s.buffer == Some(HeaderSize(w)))
    && (!o.early && s.buffer != None ==> o.started && s.buffer == Some(Capacity(start, w)))
    && (!o.started ==> o.es == [])
  }

  lemma CapacityIsFixed(start: Profile, es: seq<Event>, w: nat)
    requires WellSized(start)
    ensures Capacity(Run(start, es), w) == Capacity(Off(Run(start, es)), w) == Capacity(start, w)
    ensures Capacity(BLANK, w) == HeaderSize(w)
  {
    hide Run, HeaderSize;
  }

  lemma StoppedStays(p: Profile, e: Event)
    requires WellSized(p) && WellSized(Off(p))
    ensures Step(Off(p), e) == Off(p)
  {
    hide WellSized;
  }

  lemma OffSized(p: Profile)
    ensures WellSized(Off(p)) == WellSized(p)
  {
  }

  /** What an event does to a session, whether it is a call or a tick. */
  lemma DoIsStep(start: Profile, w: nat, s: Session, e: Event)
    requires WellSized(start) && (s.started ==> WellSized(s.profile)) && ActStep(start, w, s, Do(e)).Some?
    ensures ActStep(start, w, s, Do(e)).value ==
            if s.started then s.(profile := Step(s.profile, e))
            else if e.CallFrom? then Session(true, Step(start, e), s.buffer) else s
  {
    hide WellSized, Call, Sample, Strays;
  }

  lemma DoAsObserved(start: Profile, w: nat, o: Observed, s: Session, e: Event, o': Observed)
    requires WellSized(start) && start.state == ON && AsObserved(start, w, o, s) && (o.stopped ==> o.started)
    requires o' == if o.stopped || (!o.started && e.Tick?) then o else o.(started := true, es := o.es + [e])
    requires s.started ==> WellSized(s.profile)
    ensures var r := ActStep(start, w, s, Do(e)); r.Some? ==> AsObserved(start, w, o', r.value)
  {
    RunOneMore(start, o.es, e);
    RunNothing(start);
    hide WellSized, HeaderSize, Capacity, Run, Step, ActStep, Off;
    if ActStep(start, w, s, Do(e)).Some? {
      DoIsStep(start, w, s, e);
      if o.stopped {
        OffSized(Run(start, o.es));
        StoppedStays(Run(start, o.es), e);
      }
    }
  }

  lemma RunNothing(start: Profile)
    requires WellSized(start)
    ensures Run(start, []) == start
  {
  }

  lemma CollectAsObserved(start: Profile, w: nat, o: Observed, s: Session, interface: nat)
    requires WellSized(start) && start.state == ON && AsObserved(start, w, o, s)
    requires s.started ==> WellSized(s.profile)
    ensures var r := ActStep(start, w, s, Collect(interface));
            var o' := if o.started then o.(stopped := true) else o.(early := o.early || interface == 0);
            r.Some? ==> AsObserved(start, w, o', r.value)
  {
    CapacityIsFixed(start, o.es, w);
    hide WellSized, Run, HeaderSize, Capacity, ImageSize;
  }

  lemma {:induction false} StoppedStarted(acts: seq<Act>)
    ensures Observe(acts).stopped ==> Observe(acts).started
  {
    if acts != [] {
      StoppedStarted(acts[..|acts| - 1]);
    }
  }

  /** Every session leaves the table of the plain run over the observed events. */
  lemma {:induction false} SessionIsRun(start: Profile, w: nat, acts: seq<Act>)
    requires WellSized(start) && start.state == ON && SessionRun(start, w, acts).Some?
    ensures AsObserved(start, w, Observe(acts), SessionRun(start, w, acts).value)
  {
    hide WellSized, ActStep, AsObserved;
    if acts == [] {
      AtBoot(start, w);
    } else {
      var before, a := acts[..|acts| - 1], acts[|acts| - 1];
      SessionIsRun(start, w, before);
      StoppedStarted(before);
      var s := SessionRun(start, w, before).value;
      match a
      case Do(e) => DoAsObserved(start, w, Observe(before), s, e, Observe(acts));
      case Collect(interface) => CollectAsObserved(start, w, Observe(before), s, interface);
    }
  }

  lemma AtBoot(start: Profile, w: nat)
    requires WellSized(start)
    ensures AsObserved(start, w, Observed(false, false, false, []), BOOTED)
  {
  }

  /** What holds of the table of any session: it records exactly the observed events that fit, the
      state tells whether all did, and the chains are in order of recency. */
  ghost predicate TableRecords(start: Profile, es: seq<Event>, p: Profile)
    requires WellSized(start)
  {
    var k := Kept(start, es);
    && |Arcs(start, k)| < start.tolimit && Records(start, k, Run(start, k))
    && p.chains == Run(start, k).chains && p.kcount == Run(start, k).kcount
    && (k == es <==> |Arcs(start, es)| < start.tolimit)
    && (p.state == ERROR <==> start.tolimit <= |Arcs(start, es)|)
    && (forall slot: nat | slot < |p.chains| :: Recent(start, k, slot, p.chains[slot]))
  }

  lemma RunTableRecords(start: Profile, es: seq<Event>)
    requires Fresh(start)
    ensures TableRecords(start, es, Run(start, es)) && TableRecords(start, es, Off(Run(start, es)))
  {
    hide Records, Recent, Arcs, Run, Reached;
    RunRecordsKept(start, es);
    OverflowIffTooManyArcs(start, es);
    var q := Run(start, es);
    assert |q.chains| == |start.chains| by { ChainCount(start, es); }
    forall slot: nat | slot < |q.chains| ensures Recent(start, Kept(start, es), slot, q.chains[slot]) {
      ChainsAreRecent(start, es, slot);
    }
  }

  lemma ChainCount(start: Profile, es: seq<Event>)
    requires WellSized(start)
    ensures |Run(start, es).chains| == |start.chains|
  {
    hide Run;
  }

  // The kept buffer.

  /** An act goes wrong in two ways only: a call from the first address past the text while recording,
      and a collection into a buffer kept from before the first call, if there is any text. */
  lemma GoesWrongIff(start: Profile, w: nat, acts: seq<Act>, a: Act)
    requires Fresh(start) && (w == 4 || w == 8) && SessionRun(start, w, acts).Some?
    ensures var o, p := Observe(acts), SessionRun(start, w, acts).value.profile;
            ActStep(start, w, SessionRun(start, w, acts).value, a) == None <==>
              match a
              case Do(CallFrom(frompc, _)) => Strays(if o.started then p else start, frompc)
              case Do(Tick(_)) => false
              case Collect(interface) => interface == 0 && o.early && o.started && p.state != ERROR && start.textsize != 0
  {
    hide Run, Export, Capacity, ImageSize, HeaderSize, Call, Sample, Records, Arcs;
    var s, o := SessionRun(start, w, acts).value, Observe(acts);
    SessionIsRun(start, w, acts);
    if a.Collect? && s.profile.state != ERROR {
      if o.started {
        ImageOfRun(start, w, o.es);
        SizesOfRun(start, o.es);
      } else {
        BlankImage(w);
      }
    }
  }

  lemma SizesOfRun(start: Profile, es: seq<Event>)
    requires WellSized(start)
    ensures var q := Run(start, es); q.textsize == start.textsize && |q.kcount| == start.textsize / 4
  {
    hide Run;
  }

  lemma BlankImage(w: nat)
    ensures ImageSize(BLANK, w) == HeaderSize(w) && Off(BLANK) == BLANK
  {
    assert Export(BLANK) == [];
  }

  /** The image of a run fits a buffer allocated for it; it fits the header's size alone exactly when
      there is no text. */
  lemma ImageOfRun(start: Profile, w: nat, es: seq<Event>)
    requires Fresh(start) && Run(start, es).state != ERROR
    ensures var p := Off(Run(start, es));
            && ImageSize(p, w) <= Capacity(start, w)
            && (ImageSize(p, w) <= HeaderSize(w) <==> start.textsize == 0)
  {
    var q := Run(start, es);
    RunRecordsKept(start, es);
    hide Run, Records, Arcs, HeaderSize, ArcSize;
    SizesOfRun(start, es);
    ExportFirstTotals(q, |q.chains|);
    assert q.chains[..|q.chains|] == q.chains;
    assert Export(Off(q)) == Export(q) by { ExportOfOff(q, |q.chains|); }
    MultiplyMonotonic(|Export(q)|, start.tolimit, ArcSize(w));
    MultiplyMonotonic(0, |Export(q)|, ArcSize(w));
    if start.textsize == 0 {
      NoChainsNoExport(q);
    }
  }

  lemma {:induction false} ExportOfOff(p: Profile, n: nat)
    requires n <= |p.chains|
    ensures ExportFirst(Off(p), n) == ExportFirst(p, n)
  {
    if 0 < n {
      ExportOfOff(p, n - 1);
    }
  }

  // Sessions on the arrays.

  /** The arrays and the kept buffer hold a session. */
  ghost predicate Holds(g: Gmon, s: Session)
    reads g, g.kcount, g.froms, g.tos
  {
    && g.Valid() && g.alreadySetup == s.started && g.profile == s.profile && (s.started ==> g.Mapped())
    && (s.buffer == None <==> g.gprofBuf == null)
    && (g.gprofBuf != null ==> s.buffer == Some(g.gprofBuf.Length))
  }

  /** Callers pass addresses. */
  predicate Addresses(w: nat, acts: seq<Act>) {
    forall i | 0 <= i < |acts| && acts[i].Do? && acts[i].e.CallFrom? :: acts[i].e.frompc < Word(w)
  }

  lemma HeldWhileRunning(g: Gmon, s: Session)
    requires Holds(g, s)
    ensures g.Valid() && (s.started <==> g.alreadySetup) && g.profile == s.profile
    ensures !s.started ==> !g.Mapped() && g.profile == BLANK
    ensures s.started ==> g.Mapped() && WellSized(s.profile)
    ensures (s.profile.state == ERROR) == (g.state == ERROR)
  {
    hide Represents;
    g.SetupMapped();
  }

  /** One act on the arrays; `ok` is false when it reaches outside them. */
  method Perform(g: Gmon, a: Act, spare: seq<byte>, ghost s: Session) returns (ok: bool)
    requires Holds(g, s) && |spare| == 12 && Addresses(g.wordBytes, [a])
    modifies g, g.kcount, g.froms, g.tos, g.gprofBuf
    ensures WellSized(Startup(g.wordBytes, g.programLow, g.programHigh)) && (s.started ==> WellSized(s.profile))
    ensures var r := ActStep(Startup(g.wordBytes, g.programLow, g.programHigh), g.wordBytes, s, a);
            ok == r.Some? && (ok ==> Holds(g, r.value))
    ensures g.kcount == old(g.kcount) || fresh(g.kcount)
    ensures g.froms == old(g.froms) || fresh(g.froms)
    ensures g.tos == old(g.tos) || fresh(g.tos)
    ensures g.gprofBuf == old(g.gprofBuf) || fresh(g.gprofBuf)
  {
    hide Startup, WellSized, Call, Sample, Capacity, Strays, Export, Off, ImageSize;
    HeldWhileRunning(g, s);
    g.StartupWellSized();
    match a
    case Do(CallFrom(frompc, selfpc)) =>
      assert [a][0] == a;
      ok := g.Mcount(frompc, selfpc, true);
    case Do(Tick(pc)) =>
      g.GprofSample(pc);
      ok := true;
    case Collect(interface) =>
      ok := PerformCollect(g, interface, spare, s);
  }

  method PerformCollect(g: Gmon, interface: nat, spare: seq<byte>, ghost s: Session) returns (ok: bool)
    requires Holds(g, s) && |spare| == 12
    modifies g, g.gprofBuf
    ensures WellSized(Startup(g.wordBytes, g.programLow, g.programHigh)) && (s.started ==> WellSized(s.profile))
    ensures var r := ActStep(Startup(g.wordBytes, g.programLow, g.programHigh), g.wordBytes, s, Collect(interface));
            ok == r.Some? && (ok ==> Holds(g, r.value))
    ensures g.kcount == old(g.kcount) && g.froms == old(g.froms) && g.tos == old(g.tos)
    ensures g.gprofBuf == old(g.gprofBuf) || fresh(g.gprofBuf)
  {
    hide Startup, WellSized, Capacity, Pieces, ImageSize, Flatten, DumpText;
    HeldWhileRunning(g, s);
    g.StartupWellSized();
    var rc, file, console := g.GprofCollect(interface, spare, true, true);
    PiecesSize(g.profile, g.wordBytes, spare);
    ok := rc != Overrun;
  }

  lemma PiecesSize(p: Profile, w: nat, spare: seq<byte>)
    requires |spare| == 12
    ensures |Flatten(Pieces(p, w, spare))| == ImageSize(p, w)
  {
    PiecesCount(p, w, spare);
    PiecesLength(p, w, spare, |Export(p)|);
    assert Pieces(p, w, spare)[..2 + |Export(p)|] == Pieces(p, w, spare);
  }

  /** Any session from boot, through the arrays: it is the session of the specification, up to the
      first act that reaches outside the tables or the buffer, and once there was a call the arrays
      hold the record of what was observed. */
  method RunSession(w: nat, low: nat, high: nat, acts: seq<Act>, spare: seq<byte>) returns (g: Gmon, ok: bool)
    requires (w == 4 || w == 8) && low <= high && high + 4 <= Word(w) && |spare| == 12 && Addresses(w, acts)
    ensures fresh(g) && fresh(g.kcount) && fresh(g.froms) && fresh(g.tos) && (g.gprofBuf == null || fresh(g.gprofBuf))
    ensures g.wordBytes == w && g.programLow == low && g.programHigh == high && WellSized(Startup(w, low, high))
    ensures ok <==> SessionRun(Startup(w, low, high), w, acts).Some?
    ensures ok ==> Holds(g, SessionRun(Startup(w, low, high), w, acts).value)
    ensures ok && Observe(acts).started ==> g.Mapped() && TableRecords(Startup(w, low, high), Observe(acts).es, g.profile)
  {
    hide Startup, WellSized, ActStep, Holds, Addresses, Word, TableRecords, Run;
    g := new Gmon(w, low, high);
    BootHolds(g);
    g.StartupWellSized();
    ok := true;
    for n := 0 to |acts|
      invariant fresh(g) && fresh(g.kcount) && fresh(g.froms) && fresh(g.tos) && (g.gprofBuf == null || fresh(g.gprofBuf))
      invariant SessionRun(Startup(w, low, high), w, acts[..n]).Some?
      invariant Holds(g, SessionRun(Startup(w, low, high), w, acts[..n]).value)
    {
      ghost var s := SessionRun(Startup(w, low, high), w, acts[..n]).value;
      assert acts[..n + 1][..n] == acts[..n];
      OneAddress(w, acts, n);
      ok := Perform(g, acts[n], spare, s);
      if !ok {
        WrongForGood(Startup(w, low, high), w, acts, n + 1);
        return;
      }
    }
    assert acts[..|acts|] == acts;
    StartupIsFresh(w, low, high);
    SessionIsRun(Startup(w, low, high), w, acts);
    HeldWhileRunning(g, SessionRun(Startup(w, low, high), w, acts).value);
    RunTableRecords(Startup(w, low, high), Observe(acts).es);
  }

  lemma BootHolds(g: Gmon)
    requires g.Valid() && !g.alreadySetup && g.gprofBuf == null
    ensures Holds(g, BOOTED)
  {
    hide Represents;
    g.SetupMapped();
  }

  lemma OneAddress(w: nat, acts: seq<Act>, n: nat)
    requires Addresses(w, acts) && n < |acts|
    ensures Addresses(w, [acts[n]])
  {
  }

  lemma {:induction false} WrongForGood(start: Profile, w: nat, acts: seq<Act>, n: nat)
    requires WellSized(start) && n <= |acts| && SessionRun(start, w, acts[..n]) == None
    ensures SessionRun(start, w, acts) == None
    decreases |acts|
  {
    hide WellSized, ActStep;
    if n < |acts| {
      assert acts[..|acts| - 1][..n] == acts[..n];
      WrongForGood(start, w, acts[..|acts| - 1], n);
    } else {
      assert acts[..n] == acts;
    }
  }

  /** What a collection at the end of a session hands out. */
  ghost predicate Exact(start: Profile, es: seq<Event>, w: nat, spare: seq<byte>, image: seq<byte>, q: Profile)
    requires (w == 4 || w == 8) && |spare| == 12 && WellSized(start) && WellSized(q)
  {
    && TableRecords(start, es, q) && Exports(start, es, Export(q))
    && image == Flatten(Pieces(q, w, spare))
    && (ReadImage(image, w) == Some(FileOf(q, spare)) <==> ImageHolds(q, w))
  }

  lemma CollectedIsExact(start: Profile, es: seq<Event>, w: nat, spare: seq<byte>)
    requires (w == 4 || w == 8) && |spare| == 12 && Fresh(start) && |Arcs(start, es)| < start.tolimit
    ensures var q := Off(Run(start, es)); WellSized(q) && Exact(start, es, w, spare, Flatten(Pieces(q, w, spare)), q)
  {
    var q := Off(Run(start, es));
    OffSized(Run(start, es));
    RunTableRecords(start, es);
    ExportIsExact(start, es);
    ExportOfOff(Run(start, es), |start.chains|);
    ChainCount(start, es);
    assert Export(q) == Export(Run(start, es));
    hide TableRecords, Exports, Flatten, Pieces, Run, ReadImage, FileOf, ImageHolds, Arcs, WellSized, Export;
    ReadImageBackIff(q, w, spare);
  }

  /** A program that is profiled from boot and collected at the end, whatever it collected before:
      collecting fails exactly when there were too many arcs; otherwise what it hands out, to memory,
      file or console, is the exact record of the calls from the first on, and a reader of the image
      gets it back when the numbers fit their fields. */
  method ProfileProgram(w: nat, low: nat, high: nat, acts: seq<Act>, interface: nat, spare: seq<byte>)
    returns (ok: bool, rc: Collected, image: seq<byte>, console: string, ghost q: Profile)
    requires (w == 4 || w == 8) && low <= high && high + 4 <= Word(w) && |spare| == 12 && Addresses(w, acts)
    ensures WellSized(Startup(w, low, high))
    ensures ok <==> SessionRun(Startup(w, low, high), w, acts).Some?
    ensures var start, o := Startup(w, low, high), Observe(acts);
            ok && o.started ==>
              && (rc == Failed <==> start.tolimit <= |Arcs(start, o.es)|)
              && (rc == Overrun <==> interface == 0 && o.early && start.textsize != 0 && |Arcs(start, o.es)| < start.tolimit)
              && (rc == Done ==> WellSized(q) && q == Off(Run(start, o.es)))
              && (rc == Done && interface <= 1 ==> Exact(start, o.es, w, spare, image, q))
              && (rc == Done && interface > 1 ==>
                    && console == DumpText(PROFILING_START, [Section(GMON_OUT, Pieces(q, w, spare))], PROFILING_END)
                    && Exact(start, o.es, w, spare, Flatten(Pieces(q, w, spare)), q))
  {
    ghost var start, o := Startup(w, low, high), Observe(acts);
    hide Startup, WellSized, Holds, Pieces, Flatten, DumpText, Exact, Run, Arcs, Capacity, HeaderSize, ImageSize, Word, SessionRun;
    image, console, rc, q := [], "", Failed, BLANK;
    var g;
    g, ok := RunSession(w, low, high, acts, spare);
    if !ok {
      return;
    }
    ghost var s := SessionRun(start, w, acts).value;
    var file;
    HoldsValid(g, s);
    rc, file, console := g.GprofCollect(interface, spare, true, true);
    q := g.profile;
    image := file;
    if rc == Done && interface == 0 {
      image := g.gprofBuf[..g.gprofSize];
    }
    if o.started {
      StartupIsFresh(w, low, high);
      SessionIsRun(start, w, acts);
      EndOfSession(start, w, o, s, spare);
    }
  }

  lemma HoldsValid(g: Gmon, s: Session)
    requires Holds(g, s)
    ensures g.Valid() && g.profile == s.profile && (g.state == ERROR <==> s.profile.state == ERROR)
    ensures (s.buffer == None <==> g.gprofBuf == null) && (g.gprofBuf != null ==> s.buffer == Some(g.gprofBuf.Length))
  {
    HeldWhileRunning(g, s);
  }

  /** What the final collection finds. */
  lemma EndOfSession(start: Profile, w: nat, o: Observed, s: Session, spare: seq<byte>)
    requires (w == 4 || w == 8) && |spare| == 12 && Fresh(start) && AsObserved(start, w, o, s) && o.started
    ensures s.profile.state == ERROR <==> start.tolimit <= |Arcs(start, o.es)|
    ensures Off(s.profile) == Off(Run(start, o.es)) && WellSized(Off(s.profile))
    ensures s.profile.state != ERROR ==>
              && Off(s.profile) == s.profile.(state := OFF)
              && Exact(start, o.es, w, spare, Flatten(Pieces(Off(s.profile), w, spare)), Off(s.profile))
              && (s.buffer.Some? ==>
                    (|Flatten(Pieces(Off(s.profile), w, spare))| > s.buffer.value <==> o.early && start.textsize != 0))
  {
    hide Run, Arcs, Exact, Pieces, Flatten, ImageSize, Capacity, HeaderSize, WellSized;
    OverflowIffTooManyArcs(start, o.es);
    OffSized(Run(start, o.es));
    if s.profile.state != ERROR {
      CollectedIsExact(start, o.es, w, spare);
      ImageOfRun(start, w, o.es);
      PiecesSize(Off(s.profile), w, spare);
    }
  }

  /** The shortest session that overruns the kept buffer: collect, call, collect. */
  method EarlyCollectOverruns(w: nat, low: nat, high: nat, frompc: nat, selfpc: nat, spare: seq<byte>)
    returns (g: Gmon, rc: Collected)
    requires (w == 4 || w == 8) && low <= high && high + 4 <= Word(w) && |spare| == 12
    requires RoundDown4(low) != RoundUp4(high) && frompc < Word(w) && frompc != RoundUp4(high)
    ensures rc == Overrun && g.gprofBuf != null && g.gprofBuf.Length == HeaderSize(w)
    ensures |Flatten(Pieces(g.profile, w, spare))| > g.gprofBuf.Length
  {
    hide Startup, Call, Capacity, Pieces, Flatten, DumpText, HeaderSize, RoundUp4, RoundDown4, Word, WellSized, Strays;
    g := new Gmon(w, low, high);
    BootHolds(g);
    HeldWhileRunning(g, BOOTED);
    CapacityIsFixed(Startup(w, low, high), [], w) by { g.StartupWellSized(); }
    FirstCall(w, low, high, frompc, selfpc);
    var file, console;
    rc, file, console := g.GprofCollect(0, spare, true, true);
    assert g.profile == BLANK;
    var ok := g.Mcount(frompc, selfpc, true);
    rc, file, console := g.GprofCollect(0, spare, true, true);
    EarlyBufferFitsIffNoText(g.profile, w, spare);
  }

  lemma FirstCall(w: nat, low: nat, high: nat, frompc: nat, selfpc: nat)
    requires low <= high && RoundDown4(low) != RoundUp4(high) && frompc != RoundUp4(high)
    ensures var p := Startup(w, low, high);
            && WellSized(p) && !Strays(p, frompc)
            && Call(p, frompc, selfpc).state != ERROR && Call(p, frompc, selfpc).textsize != 0
            && WellSized(Call(p, frompc, selfpc).(state := OFF))
  {
    StartupSizes(w, low, high);
    hide Startup, Clamp, Word, RoundDown4, RoundUp4, Find, Touch;
  }
}
