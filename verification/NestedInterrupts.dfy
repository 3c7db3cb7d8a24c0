/** Interrupt handlers bracketed by SAVE_IRQ_CSR_CONTEXT and RESTORE_IRQ_CSR_CONTEXT, nested to any
    depth at any point where interrupts are enabled. */
module NestedInterrupts {

  const MACHINE_MODE := 3
  const INTERRUPT_TYPE := 1

  /** `mcause` with the previous interrupt-enable, privilege-mode and interrupt-level fields it
      holds. */
  datatype Cause = Cause(code: nat, mpie: bool, mpp: nat, mpil: nat)

  const NO_CAUSE := Cause(0, false, 0, 0)

  /** The current and the previous trap type. */
  datatype Submode = Submode(typ: nat, ptyp: nat)

  datatype Csrs = Csrs(mcause: Cause, mepc: nat, msubm: Submode)

  /** The next macro step of a handler. */
  datatype Stage = ReadCause | ReadEpc | ReadSubm | Enable | Body | WriteSubm | WriteEpc | WriteCause | Mret

  /** What a program interrupted anywhere must find again. */
  datatype Context = Context(pc: nat, mode: nat, mie: bool, level: nat, typ: nat)

  /** One active handler: its stage and local variables, and for the record what it interrupted and
      the registers as it found them. */
  datatype Frame = Frame(stage: Stage, mcause: Cause, mepc: nat, msubm: Submode, context: Context, entry: Csrs)

  /** `early` is false for the macros as they are; it is true of a system whose handlers would enable
      interrupts before they save. */
  datatype Machine = Machine(early: bool, pc: nat, mode: nat, mie: bool, level: nat, csr: Csrs, stack: seq<Frame>)

  /** `pc` is where the running code goes on. */
  datatype Label =
    | Interrupt(code: nat, level: nat, pc: nat)
    | Work(pc: nat)
    | SetMie(mie: bool)
    | HandlerStep(pc: nat)

  function ContextOf(s: Machine): Context {
    Context(s.pc, s.mode, s.mie, s.level, s.csr.msubm.typ)
  }

  function Top(s: Machine): Frame
    requires s.stack != []
  {
    s.stack[|s.stack| - 1]
  }

  function Below(s: Machine): seq<Frame>
    requires s.stack != []
  {
    s.stack[..|s.stack| - 1]
  }

  /** Work is done by the main program and by handler bodies; both may set the interrupt enable. */
  predicate Enabled(s: Machine, l: Label) {
    match l
    case Interrupt(_, _, _) => s.mie
    case Work(_) => s.stack == [] || Top(s).stage == Body
    case SetMie(_) => s.stack == [] || Top(s).stage == Body
    case HandlerStep(_) => s.stack != []
  }

  function FirstStage(s: Machine): Stage {
    if s.early then Enable else ReadCause
  }

  /** What the hardware does on an interrupt. */
  function Enter(s: Machine, code: nat, level: nat, pc: nat): Machine {
    var csr := Csrs(Cause(code, s.mie, s.mode, s.level), s.pc, Submode(INTERRUPT_TYPE, s.csr.msubm.typ));
    Machine(s.early, pc, MACHINE_MODE, false, level, csr,
            s.stack + [Frame(FirstStage(s), NO_CAUSE, 0, Submode(0, 0), ContextOf(s), csr)])
  }

  /** What the hardware does on the return: everything comes from the registers. */
  function Leave(s: Machine): Machine
    requires s.stack != []
  {
    var csr := s.csr;
    Machine(s.early, csr.mepc, csr.mcause.mpp, csr.mcause.mpie, csr.mcause.mpil,
            csr.(msubm := Submode(csr.msubm.ptyp, 0)), Below(s))
  }

  function WithTop(s: Machine, f: Frame): Machine
    requires s.stack != []
  {
    s.(stack := Below(s) + [f])
  }

  /** The two macros, one register access at a time. */
  function Advance(s: Machine, pc: nat): Machine
    requires s.stack != []
  {
    var f := Top(s);
    var s := s.(pc := pc);
    match f.stage
    case ReadCause => WithTop(s, f.(stage := ReadEpc, mcause := s.csr.mcause))
    case ReadEpc => WithTop(s, f.(stage := ReadSubm, mepc := s.csr.mepc))
    case ReadSubm => WithTop(s, f.(stage := if s.early then Body else Enable, msubm := s.csr.msubm))
    case Enable => WithTop(s.(mie := true), f.(stage := if s.early then ReadCause else Body))
    case Body => WithTop(s.(mie := false), f.(stage := WriteSubm))
    case WriteSubm => WithTop(s.(csr := s.csr.(msubm := f.msubm)), f.(stage := WriteEpc))
    case WriteEpc => WithTop(s.(csr := s.csr.(mepc := f.mepc)), f.(stage := WriteCause))
    case WriteCause => WithTop(s.(csr := s.csr.(mcause := f.mcause)), f.(stage := Mret))
    case Mret => Leave(s)
  }

  function Next(s: Machine, l: Label): Machine
    requires Enabled(s, l)
  {
    match l
    case Interrupt(code, level, pc) => Enter(s, code, level, pc)
    case Work(pc) => s.(pc := pc)
    case SetMie(mie) => s.(mie := mie)
    case HandlerStep(pc) => Advance(s, pc)
  }

  /** The registers a handler found describe the context it interrupted. */
  predicate Faithful(f: Frame) {
    && f.entry.mepc == f.context.pc && f.entry.mcause.mpie == f.context.mie
    && f.entry.mcause.mpp == f.context.mode && f.entry.mcause.mpil == f.context.level
    && f.entry.msubm.ptyp == f.context.typ
  }

  predicate Saved(f: Frame) {
    f.mcause == f.entry.mcause && f.mepc == f.entry.mepc && f.msubm == f.entry.msubm
  }

  /** How far the running handler is with saving or restoring. */
  predicate TopOk(f: Frame, csr: Csrs, mie: bool) {
    match f.stage
    case ReadCause => !mie && csr == f.entry
    case ReadEpc => !mie && csr == f.entry && f.mcause == csr.mcause
    case ReadSubm => !mie && csr == f.entry && f.mcause == csr.mcause && f.mepc == csr.mepc
    case Enable => !mie && Saved(f)
    case Body => Saved(f)
    case WriteSubm => !mie && Saved(f)
    case WriteEpc => !mie && Saved(f) && csr.msubm == f.entry.msubm
    case WriteCause => !mie && Saved(f) && csr.msubm == f.entry.msubm && csr.mepc == f.entry.mepc
    case Mret => !mie && csr == f.entry
  }

  /** Handlers that were themselves interrupted wait in their bodies, everything saved. */
  predicate Inv(s: Machine) {
    && !s.early
    && (forall i | 0 <= i < |s.stack| :: Faithful(s.stack[i]))
    && (forall i | 0 <= i < |s.stack| - 1 :: s.stack[i].stage == Body && Saved(s.stack[i]))
    && (forall i | 0 < i < |s.stack| :: s.stack[i].context.mie)
    && (s.stack != [] ==> TopOk(Top(s), s.csr, s.mie))
  }

  lemma EnterKeepsInv(s: Machine, code: nat, level: nat, pc: nat)
    requires Inv(s) && s.mie
    ensures Inv(Enter(s, code, level, pc))
  {
    assert s.stack != [] ==> Top(s) == s.stack[|s.stack| - 1];
  }

  lemma WithTopKeepsInv(s: Machine, f: Frame, s': Machine)
    requires Inv(s) && s.stack != [] && f.context == Top(s).context && f.entry == Top(s).entry
    requires s'.stack == Below(s) + [f] && TopOk(f, s'.csr, s'.mie) && !s'.early
    ensures Inv(s')
  {
    assert Faithful(s.stack[|s.stack| - 1]) && s'.stack[|s.stack| - 1] == f;
    assert forall i | 0 <= i < |s.stack| - 1 :: s'.stack[i] == s.stack[i];
    assert 1 < |s.stack| ==> s.stack[|s.stack| - 1].context.mie;
  }

  lemma LeaveKeepsInv(s: Machine)
    requires Inv(s) && s.stack != [] && Top(s).stage == Mret
    ensures Inv(Leave(s))
  {
    assert Faithful(s.stack[|s.stack| - 1]);
    if 1 < |s.stack| {
      assert s.stack[|s.stack| - 1].context.mie;
    }
  }

  lemma StepKeepsInv(s: Machine, l: Label)
    requires Inv(s) && Enabled(s, l)
    ensures Inv(Next(s, l))
  {
    var r := Next(s, l);
    hide Inv;
    match l
    case Interrupt(code, level, pc) => EnterKeepsInv(s, code, level, pc);
    case HandlerStep(pc) =>
      TopIsOk(s);
      if Top(s).stage == Mret {
        LeaveKeepsInv(s);
        LeaveIgnoresPc(s, pc);
      } else {
        WithTopKeepsInv(s, Top(r), r);
      }
    case _ =>
      InvIgnoresPc(s, r);
  }

  lemma LeaveIgnoresPc(s: Machine, pc: nat)
    requires s.stack != []
    ensures Leave(s.(pc := pc)) == Leave(s)
  {
  }

  lemma TopIsOk(s: Machine)
    requires Inv(s) && s.stack != []
    ensures TopOk(Top(s), s.csr, s.mie) && !s.early
  {
  }

  lemma InvIgnoresPc(s: Machine, r: Machine)
    requires Inv(s) && r == s.(pc := r.pc, mie := r.mie)
    requires r.mie == s.mie || s.stack == [] || Top(s).stage == Body
    ensures Inv(r)
  {
  }

  predicate Legal(s: Machine, ls: seq<Label>)
    decreases |ls|, 0
  {
    ls == [] || (Legal(s, ls[..|ls| - 1]) && Enabled(Exec(s, ls[..|ls| - 1]), ls[|ls| - 1]))
  }

  function Exec(s: Machine, ls: seq<Label>): Machine
    requires Legal(s, ls)
    decreases |ls|, 1
  {
    if ls == [] then s else Next(Exec(s, ls[..|ls| - 1]), ls[|ls| - 1])
  }

  lemma {:induction false} RunKeepsInv(s: Machine, ls: seq<Label>)
    requires Inv(s) && Legal(s, ls)
    ensures Inv(Exec(s, ls))
  {
    if ls != [] {
      RunKeepsInv(s, ls[..|ls| - 1]);
      StepKeepsInv(Exec(s, ls[..|ls| - 1]), ls[|ls| - 1]);
    }
  }

  /** The run never returns below the given depth. */
  predicate StaysAbove(s: Machine, ls: seq<Label>, depth: nat)
    requires Legal(s, ls)
  {
    |Exec(s, ls).stack| > depth && (ls == [] || StaysAbove(s, ls[..|ls| - 1], depth))
  }

  /** A step leaves the stack alone, puts a handler on it, takes the top one off, or changes the top
      one but not its record. */
  lemma StackAfter(s: Machine, l: Label)
    requires Enabled(s, l)
    ensures var r := Next(s, l).stack;
            || r == s.stack
            || (|r| == |s.stack| + 1 && r[..|s.stack|] == s.stack)
            || (s.stack != [] && r == Below(s))
            || (s.stack != [] && |r| == |s.stack| && r[..|r| - 1] == Below(s)
                && r[|r| - 1].context == Top(s).context && r[|r| - 1].entry == Top(s).entry)
  {
    if l.HandlerStep? && Top(s).stage == Mret {
      LeaveIgnoresPc(s, l.pc);
    }
  }

  /** A handler keeps its record, and everything below it is left alone, until it returns. */
  lemma StepKeepsBelow(s: Machine, l: Label, depth: nat)
    requires Enabled(s, l) && |s.stack| > depth && |Next(s, l).stack| > depth
    ensures Next(s, l).stack[..depth] == s.stack[..depth]
    ensures var f, g := s.stack[depth], Next(s, l).stack[depth]; g.context == f.context && g.entry == f.entry
  {
    StackAfter(s, l);
    hide Next, Enabled;
    var r := Next(s, l).stack;
    if |r| > |s.stack| {
      assert r[..|s.stack|][..depth] == r[..depth] && r[..|s.stack|][depth] == r[depth];
    } else if r != s.stack && |r| == |s.stack| {
      assert r[..|r| - 1][..depth] == r[..depth] && Below(s)[..depth] == s.stack[..depth];
      assert depth < |r| - 1 ==> r[depth] == r[..|r| - 1][depth] == Below(s)[depth] == s.stack[depth];
    }
  }

  lemma {:induction false} RunKeepsBelow(s: Machine, ls: seq<Label>, depth: nat)
    requires Legal(s, ls) && StaysAbove(s, ls, depth)
    ensures |s.stack| > depth
    ensures Exec(s, ls).stack[..depth] == s.stack[..depth]
    ensures Exec(s, ls).stack[depth].context == s.stack[depth].context
    ensures Exec(s, ls).stack[depth].entry == s.stack[depth].entry
  {
    if ls != [] {
      RunKeepsBelow(s, ls[..|ls| - 1], depth);
      StepKeepsBelow(Exec(s, ls[..|ls| - 1]), ls[|ls| - 1], depth);
    }
  }

  /** Only a return takes a handler away. */
  lemma ReturnIsMret(s: Machine, pc: nat)
    requires s.stack != [] && |Next(s, HandlerStep(pc)).stack| < |s.stack|
    ensures Top(s).stage == Mret && Next(s, HandlerStep(pc)) == Leave(s)
  {
    LeaveIgnoresPc(s, pc);
  }

  /** A handler about to return has the registers as it found them, and they describe what it
      interrupted. */
  lemma ReturnRestores(s: Machine)
    requires Inv(s) && s.stack != [] && Top(s).stage == Mret
    ensures s.csr == Top(s).entry && ContextOf(Leave(s)) == Top(s).context && Leave(s).stack == Below(s)
  {
    assert Faithful(s.stack[|s.stack| - 1]);
  }

  lemma Entered(s: Machine, code: nat, level: nat, pc: nat)
    ensures var e := Enter(s, code, level, pc);
            && |e.stack| == |s.stack| + 1 && e.stack[..|s.stack|] == s.stack
            && e.stack[|s.stack|].entry == e.csr && e.stack[|s.stack|].context == ContextOf(s)
  {
  }

  /** An interrupt is invisible: from its arrival to the return of its handler, whatever nested in
      between, the registers at the return are those of the arrival, and the interrupted code goes on
      at the same place, in the same mode, with the same interrupt enable, level and trap type. */
  lemma InterruptIsTransparent(s: Machine, code: nat, level: nat, handler: nat, ls: seq<Label>, pc: nat)
    requires Inv(s) && s.mie
    requires Handled(Enter(s, code, level, handler), ls, pc, |s.stack|)
    ensures var e := Enter(s, code, level, handler);
            && Exec(e, ls).csr == e.csr
            && ContextOf(Next(Exec(e, ls), HandlerStep(pc))) == ContextOf(s)
            && Next(Exec(e, ls), HandlerStep(pc)).stack == s.stack
  {
    var e := Enter(s, code, level, handler);
    Entered(s, code, level, handler);
    EnterKeepsInv(s, code, level, handler);
    hide Inv, Enter, Leave, Next, Exec, Legal, StaysAbove, ContextOf;
    RunKeepsInv(e, ls);
    RunKeepsBelow(e, ls, |s.stack|);
    var last := Exec(e, ls);
    ReturnIsMret(last, pc);
    ReturnRestores(last);
  }

  /** The run `ls` and one more handler step are what happens from the entry of the handler at the
      given depth to its return. */
  predicate Handled(e: Machine, ls: seq<Label>, pc: nat, depth: nat) {
    && Legal(e, ls) && StaysAbove(e, ls, depth) && |Exec(e, ls).stack| == depth + 1
    && Enabled(Exec(e, ls), HandlerStep(pc)) && |Next(Exec(e, ls), HandlerStep(pc)).stack| == depth
  }

  /** Why a handler must save before it enables: after a nested handler the registers describe the
      body that was interrupted, not what the outer handler has to return to. */
  lemma NestedHandlerLeavesItsOwn(s: Machine, pc: nat)
    requires Inv(s) && |s.stack| >= 2 && Top(s).stage == Mret
    ensures var r := Next(s, HandlerStep(pc));
            r.csr.mepc == r.pc && r.csr.mcause.mpie && Top(r).stage == Body
  {
  }

  // The macros do enable nesting.

  /** The labels of handlers at work: interrupts and handler steps, no hand-set enable. */
  predicate Unaided(ls: seq<Label>) {
    forall i | 0 <= i < |ls| :: ls[i].Interrupt? || ls[i].HandlerStep?
  }

  /** The stages of the macros as they are. */
  function Following(stage: Stage): Stage {
    match stage
    case ReadCause => ReadEpc
    case ReadEpc => ReadSubm
    case ReadSubm => Enable
    case Enable => Body
    case Body => WriteSubm
    case WriteSubm => WriteEpc
    case WriteEpc => WriteCause
    case _ => Mret
  }

  /** The run `ls` has brought the handler at the given depth to a stage. */
  ghost predicate Reaches(e: Machine, ls: seq<Label>, stage: Stage, depth: nat) {
    && Legal(e, ls) && StaysAbove(e, ls, depth) && !Exec(e, ls).early
    && |Exec(e, ls).stack| == depth + 1 && Top(Exec(e, ls)).stage == stage
    && (stage == Body ==> Exec(e, ls).mie)
  }

  lemma ReachesNext(e: Machine, ls: seq<Label>, stage: Stage, pc: nat, depth: nat)
    requires Reaches(e, ls, stage, depth) && stage != Mret
    ensures Reaches(e, ls + [HandlerStep(pc)], Following(stage), depth)
  {
    var q, step := Exec(e, ls), HandlerStep(pc);
    var r := Next(q, step);
    assert |r.stack| == depth + 1 && Top(r).stage == Following(stage) && !r.early && (stage == Enable ==> r.mie);
    hide Next, Legal, StaysAbove, Exec;
    OneMore(e, ls, step, depth);
  }

  lemma ReachesFirst(s: Machine, code: nat, level: nat, pc: nat)
    requires Inv(s) && s.mie
    ensures Reaches(Enter(s, code, level, pc), [], ReadCause, |s.stack|)
  {
    EmptyRun(Enter(s, code, level, pc), |s.stack|);
  }

  /** A handler that is left alone reaches its body after four steps, and there the next interrupt is
      accepted. */
  lemma BodyAcceptsInterrupts(s: Machine, code: nat, level: nat, pc: nat) returns (ls: seq<Label>)
    requires Inv(s) && s.mie
    ensures ls == [HandlerStep(pc), HandlerStep(pc), HandlerStep(pc), HandlerStep(pc)]
    ensures Reaches(Enter(s, code, level, pc), ls, Body, |s.stack|)
    ensures forall c, l, p :: Enabled(Exec(Enter(s, code, level, pc), ls), Interrupt(c, l, p))
  {
    var e, step := Enter(s, code, level, pc), HandlerStep(pc);
    ReachesFirst(s, code, level, pc);
    hide Enter, Next, Legal, StaysAbove, Exec, Reaches;
    ReachesNext(e, [], ReadCause, pc, |s.stack|);
    ReachesNext(e, [] + [step], ReadEpc, pc, |s.stack|);
    ReachesNext(e, [] + [step] + [step], ReadSubm, pc, |s.stack|);
    ReachesNext(e, [] + [step] + [step] + [step], Enable, pc, |s.stack|);
    ls := [] + [step] + [step] + [step] + [step];
    BodyIsOpen(e, ls, |s.stack|);
  }

  lemma BodyIsOpen(e: Machine, ls: seq<Label>, depth: nat)
    requires Reaches(e, ls, Body, depth)
    ensures Legal(e, ls) && Exec(e, ls).mie && |Exec(e, ls).stack| == depth + 1
    ensures forall c, l, p :: Enabled(Exec(e, ls), Interrupt(c, l, p))
  {
  }

  /** From its body a handler that is left alone returns after five more steps; the whole handling of
      an interrupt can be done by handler steps alone. */
  lemma HandlerAloneReturns(s: Machine, code: nat, level: nat, pc: nat) returns (ls: seq<Label>)
    requires Inv(s) && s.mie
    ensures Unaided(ls) && Handled(Enter(s, code, level, pc), ls, pc, |s.stack|)
  {
    var e, step, depth := Enter(s, code, level, pc), HandlerStep(pc), |s.stack|;
    ls := BodyAcceptsInterrupts(s, code, level, pc);
    hide Enter, Next, Legal, StaysAbove, Exec, Reaches, Handled;
    ReachesNext(e, ls, Body, pc, depth);
    ReachesNext(e, ls + [step], WriteSubm, pc, depth);
    ReachesNext(e, ls + [step] + [step], WriteEpc, pc, depth);
    ReachesNext(e, ls + [step] + [step] + [step], WriteCause, pc, depth);
    ls := ls + [step] + [step] + [step] + [step];
    MretReturns(e, ls, pc, depth);
  }

  lemma MretReturns(e: Machine, ls: seq<Label>, pc: nat, depth: nat)
    requires Reaches(e, ls, Mret, depth)
    ensures Handled(e, ls, pc, depth)
  {
    LeaveIgnoresPc(Exec(e, ls), pc);
  }

  /** A run goes on with another. */
  lemma {:induction false} RunsJoin(s: Machine, a: seq<Label>, b: seq<Label>)
    requires Legal(s, a) && Legal(Exec(s, a), b)
    ensures Legal(s, a + b) && Exec(s, a + b) == Exec(Exec(s, a), b)
    decreases |b|
  {
    hide Next, Enabled;
    if b == [] {
      assert a + b == a;
    } else {
      var n := |b| - 1;
      RunsJoin(s, a, b[..n]);
      assert (a + b)[..|a + b| - 1] == a + b[..n];
    }
  }

  /** Interrupts nest to any depth, without any handler setting the enable by hand. */
  lemma {:induction false} AnyDepthIsReached(s: Machine, n: nat) returns (ls: seq<Label>)
    requires Inv(s) && s.mie
    ensures Unaided(ls) && Legal(s, ls) && |Exec(s, ls).stack| == |s.stack| + n && Exec(s, ls).mie
  {
    ls := [];
    if 0 < n {
      var before := AnyDepthIsReached(s, n - 1);
      RunKeepsInv(s, before);
      var q := Exec(s, before);
      var steps := BodyAcceptsInterrupts(q, 0, 0, 0);
      BodyIsOpen(Enter(q, 0, 0, 0), steps, |q.stack|);
      hide Enter, Next, StaysAbove, Reaches, Enabled;
      Arrives(q, 0, 0, 0);
      RunsJoin(q, [Interrupt(0, 0, 0)], steps);
      RunsJoin(s, before, [Interrupt(0, 0, 0)] + steps);
      ls := before + ([Interrupt(0, 0, 0)] + steps);
    }
  }

  lemma Arrives(s: Machine, code: nat, level: nat, pc: nat)
    requires s.mie
    ensures Legal(s, [Interrupt(code, level, pc)]) && Exec(s, [Interrupt(code, level, pc)]) == Enter(s, code, level, pc)
  {
    assert [Interrupt(code, level, pc)][..0] == [];
    assert Legal(s, []) && Exec(s, []) == s;
  }

  // Enabling before saving.

  /** One more step of a run. */
  lemma OneMore(s: Machine, ls: seq<Label>, l: Label, depth: nat)
    requires Legal(s, ls) && StaysAbove(s, ls, depth) && Enabled(Exec(s, ls), l)
    requires |Next(Exec(s, ls), l).stack| > depth
    ensures Legal(s, ls + [l]) && StaysAbove(s, ls + [l], depth)
    ensures Exec(s, ls + [l]) == Next(Exec(s, ls), l)
  {
    hide Next, Enabled;
    assert (ls + [l])[..|ls|] == ls;
  }

  /** The stages from the first save to the last restore, without interruption. */
  function NextStage(stage: Stage): Stage {
    match stage
    case ReadCause => ReadEpc
    case ReadEpc => ReadSubm
    case ReadSubm => Body
    case Body => WriteSubm
    case WriteSubm => WriteEpc
    case WriteEpc => WriteCause
    case _ => Mret
  }

  /** What an undisturbed handler has saved so far of registers that stay as they are. */
  predicate Saving(s: Machine, csr: Csrs, stage: Stage) {
    && s.early && s.stack != [] && s.csr == csr && Top(s).stage == stage
    && (stage in {ReadEpc, ReadSubm, Body, WriteSubm, WriteEpc, WriteCause, Mret} ==> Top(s).mcause == csr.mcause)
    && (stage in {ReadSubm, Body, WriteSubm, WriteEpc, WriteCause, Mret} ==> Top(s).mepc == csr.mepc)
    && (stage in {Body, WriteSubm, WriteEpc, WriteCause, Mret} ==> Top(s).msubm == csr.msubm)
  }

  lemma SavingStep(s: Machine, csr: Csrs, stage: Stage, pc: nat)
    requires Saving(s, csr, stage) && stage != Enable && stage != Mret
    ensures var r := Next(s, HandlerStep(pc));
            Saving(r, csr, NextStage(stage)) && |r.stack| == |s.stack| && r.stack[..|s.stack| - 1] == Below(s)
  {
  }

  function StagesLeft(stage: Stage): nat {
    match stage
    case ReadCause => 7
    case ReadEpc => 6
    case ReadSubm => 5
    case Body => 4
    case WriteSubm => 3
    case WriteEpc => 2
    case WriteCause => 1
    case _ => 0
  }

  lemma {:induction false} RunsUndisturbed(e: Machine, ls: seq<Label>, csr: Csrs, stage: Stage, pc: nat, depth: nat)
    returns (ls': seq<Label>)
    requires Legal(e, ls) && StaysAbove(e, ls, depth) && Saving(Exec(e, ls), csr, stage) && stage != Enable
    ensures Legal(e, ls') && StaysAbove(e, ls', depth) && Saving(Exec(e, ls'), csr, Mret)
    ensures |Exec(e, ls').stack| == |Exec(e, ls).stack| && Below(Exec(e, ls')) == Below(Exec(e, ls))
    decreases StagesLeft(stage)
  {
    ls' := ls;
    if stage != Mret {
      AboveDepth(e, ls, depth);
      SavingStep(Exec(e, ls), csr, stage, pc);
      hide Saving, Legal, Exec, StaysAbove, Next;
      OneMore(e, ls, HandlerStep(pc), depth);
      ls' := RunsUndisturbed(e, ls + [HandlerStep(pc)], csr, NextStage(stage), pc, depth);
    }
  }

  lemma AboveDepth(e: Machine, ls: seq<Label>, depth: nat)
    requires Legal(e, ls) && StaysAbove(e, ls, depth)
    ensures |Exec(e, ls).stack| > depth
  {
  }

  /** The interrupt that comes right after the early enable, and the return of its handler: the
      registers now describe the outer handler, which then saves them as its own. */
  lemma NestedEarly(e: Machine, code: nat, level: nat, inner: nat) returns (ls: seq<Label>)
    requires e.early && e.stack != [] && Top(e).stage == Enable
    ensures Legal(e, ls) && StaysAbove(e, ls, |e.stack| - 1)
    ensures Saving(Exec(e, ls), Exec(e, ls).csr, ReadCause)
    ensures Exec(e, ls).csr.mepc == inner && |Exec(e, ls).stack| == |e.stack|
  {
    var depth := |e.stack| - 1;
    var enable, again := HandlerStep(inner), Interrupt(code, level, inner);
    var s1 := Next(e, enable);
    var s2 := Next(s1, again);
    var s3 := Next(s2, enable);
    EmptyRun(e, depth);
    OneMore(e, [], enable, depth);
    OneMore(e, [] + [enable], again, depth);
    OneMore(e, [] + [enable] + [again], enable, depth);
    ls := [] + [enable] + [again] + [enable];
    assert Exec(e, ls) == s3;
    assert Saving(s3, s2.csr, ReadCause) && |s3.stack| == |e.stack| + 1 && Top(s1).stage == ReadCause;
    assert Below(s3) == s1.stack;
    ls := RunsUndisturbed(e, ls, s2.csr, ReadCause, inner, depth);
    var s4 := Exec(e, ls);
    assert Next(s4, enable) == Leave(s4.(pc := inner));
    OneMore(e, ls, enable, depth);
    ls := ls + [enable];
  }

  lemma EmptyRun(e: Machine, depth: nat)
    requires |e.stack| > depth
    ensures Legal(e, []) && StaysAbove(e, [], depth) && Exec(e, []) == e
  {
  }

  /** With the enable first there is, for every interrupt of every program, a run of its handler
      that returns into the handler instead. */
  lemma EnableFirstReturnsElsewhere(s: Machine, code: nat, level: nat, handler: nat) returns (ls: seq<Label>, pc: nat)
    requires s.early && handler != s.pc
    ensures Handled(Enter(s, code, level, handler), ls, pc, |s.stack|)
    ensures Next(Exec(Enter(s, code, level, handler), ls), HandlerStep(pc)).pc == handler != s.pc
  {
    var e := Enter(s, code, level, handler);
    Entered(s, code, level, handler);
    assert Top(e).stage == Enable;
    pc := handler;
    ls := NestedEarly(e, code, level, handler);
    ls := RunsUndisturbed(e, ls, Exec(e, ls).csr, ReadCause, pc, |s.stack|);
    var last := Exec(e, ls);
    assert Next(last, HandlerStep(pc)) == Leave(last.(pc := pc));
  }
}
