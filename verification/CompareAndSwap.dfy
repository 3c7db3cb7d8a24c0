/** Compare-and-swap built from load-reserved and store-conditional: every interleaving of any
    number of harts that run the retry loop, and of plain stores in between. */
module CompareAndSwap {

  /** The instruction a hart is about to execute. */
  datatype Pc = Idle | AtLr | AtBne | AtSc | AtBnez | Returning

  /** `result` and `rc` are the two output registers of the assembly sequence; `reserved` is the
      hart's reservation on the word, section 8.2 of the RISC-V Unprivileged ISA. */
  datatype Hart = Hart(pc: Pc, oldval: nat, newval: nat, result: nat, rc: nat, reserved: bool)

  datatype State = State(mem: nat, harts: seq<Hart>)

  /** One step of the system. A store-conditional may fail for any reason; it may succeed only
      while the reservation holds. Plain stores come from harts that are outside the sequence. */
  datatype Label =
    | Invoke(h: nat, oldval: nat, newval: nat)
    | Lr(h: nat)
    | Bne(h: nat)
    | ScSucceeds(h: nat)
    | ScFails(h: nat)
    | Bnez(h: nat)
    | Return(h: nat)
    | Store(h: nat, value: nat)

  predicate Enabled(s: State, l: Label) {
    && l.h < |s.harts|
    && var t := s.harts[l.h];
       match l
       case Invoke(_, _, _) => t.pc == Idle
       case Lr(_) => t.pc == AtLr
       case Bne(_) => t.pc == AtBne
       case ScSucceeds(_) => t.pc == AtSc && t.reserved
       case ScFails(_) => t.pc == AtSc
       case Bnez(_) => t.pc == AtBnez
       case Return(_) => t.pc == Returning
       case Store(_, _) => t.pc == Idle
  }

  /** A write to the word takes away every reservation on it. */
  function Unreserved(harts: seq<Hart>): (r: seq<Hart>)
    ensures |r| == |harts|
    ensures forall i | 0 <= i < |r| :: r[i] == harts[i].(reserved := false)
  {
    seq(|harts|, i requires 0 <= i < |harts| => harts[i].(reserved := false))
  }

  function Next(s: State, l: Label): (r: State)
    requires Enabled(s, l)
    ensures |r.harts| == |s.harts|
  {
    var h, t := l.h, s.harts[l.h];
    match l
    case Invoke(_, o, n) => s.(harts := s.harts[h := t.(pc := AtLr, oldval := o, newval := n)])
    case Lr(_) => s.(harts := s.harts[h := t.(pc := AtBne, result := s.mem, reserved := true)])
    case Bne(_) => s.(harts := s.harts[h := t.(pc := if t.result != t.oldval then Returning else AtSc)])
    case ScSucceeds(_) => State(t.newval, Unreserved(s.harts)[h := t.(pc := AtBnez, rc := 0, reserved := false)])
    case ScFails(_) => s.(harts := s.harts[h := t.(pc := AtBnez, rc := 1, reserved := false)])
    case Bnez(_) => s.(harts := s.harts[h := t.(pc := if t.rc != 0 then AtLr else Returning)])
    case Return(_) => s.(harts := s.harts[h := t.(pc := Idle)])
    case Store(_, v) => State(v, Unreserved(s.harts))
  }

  predicate Legal(s: State, ls: seq<Label>)
    decreases |ls|, 0
  {
    ls == [] || (Legal(s, ls[..|ls| - 1]) && Enabled(Exec(s, ls[..|ls| - 1]), ls[|ls| - 1]))
  }

  function Exec(s: State, ls: seq<Label>): (r: State)
    requires Legal(s, ls)
    ensures |r.harts| == |s.harts|
    decreases |ls|, 1
  {
    if ls == [] then s else Next(Exec(s, ls[..|ls| - 1]), ls[|ls| - 1])
  }

  predicate Initial(s: State) {
    forall h | 0 <= h < |s.harts| :: s.harts[h].pc == Idle && !s.harts[h].reserved
  }

  /** A reservation vouches for the value read: nobody has written since. */
  ghost predicate Inv(s: State) {
    forall h | 0 <= h < |s.harts| ::
      var t := s.harts[h];
      && (t.reserved ==> t.result == s.mem)
      && (t.pc == AtSc ==> t.result == t.oldval)
      && (t.pc == AtBnez && t.rc == 0 ==> t.result == t.oldval)
  }

  lemma StepKeepsInv(s: State, l: Label)
    requires Inv(s) && Enabled(s, l)
    ensures Inv(Next(s, l))
  {
  }

  lemma {:induction false} RunKeepsInv(s: State, ls: seq<Label>)
    requires Initial(s) && Legal(s, ls)
    ensures Inv(Exec(s, ls))
  {
    if ls != [] {
      RunKeepsInv(s, ls[..|ls| - 1]);
      StepKeepsInv(Exec(s, ls[..|ls| - 1]), ls[|ls| - 1]);
    }
  }

  // The atomic operation.

  /** An instant at which something happens to the word as a whole. */
  datatype Atomic = Cas(h: nat, oldval: nat, newval: nat, returned: nat) | Write(value: nat)

  /** The word after an atomic operation. */
  function Apply(mem: nat, a: Atomic): nat {
    match a
    case Cas(_, o, n, _) => if mem == o then n else mem
    case Write(v) => v
  }

  /** An atomic compare-and-swap returns the value it finds. */
  predicate Correct(mem: nat, a: Atomic) {
    a.Cas? ==> a.returned == mem
  }

  /** The instant of a step, if it has one: a failing call takes effect when it reads, a
      succeeding one when it writes. */
  function Instant(s: State, l: Label): seq<Atomic>
    requires Enabled(s, l)
  {
    var t := s.harts[l.h];
    match l
    case Lr(h) => if s.mem != t.oldval then [Cas(h, t.oldval, t.newval, s.mem)] else []
    case ScSucceeds(h) => [Cas(h, t.oldval, t.newval, t.result)]
    case Store(_, v) => [Write(v)]
    case _ => []
  }

  function Instants(s: State, ls: seq<Label>): seq<Atomic>
    requires Legal(s, ls)
  {
    if ls == [] then []
    else Instants(s, ls[..|ls| - 1]) + Instant(Exec(s, ls[..|ls| - 1]), ls[|ls| - 1])
  }

  function Replay(mem: nat, log: seq<Atomic>): nat {
    if log == [] then mem else Apply(Replay(mem, log[..|log| - 1]), log[|log| - 1])
  }

  predicate AllCorrect(mem: nat, log: seq<Atomic>) {
    forall i | 0 <= i < |log| :: Correct(Replay(mem, log[..i]), log[i])
  }

  lemma ReplayAppend(mem: nat, log: seq<Atomic>, more: seq<Atomic>)
    requires AllCorrect(mem, log) && |more| <= 1
    requires more != [] ==> Correct(Replay(mem, log), more[0])
    ensures AllCorrect(mem, log + more)
    ensures Replay(mem, log + more) == if more == [] then Replay(mem, log) else Apply(Replay(mem, log), more[0])
  {
    var all := log + more;
    if more == [] {
      assert all == log;
    } else {
      assert all[..|log|] == log;
      forall i | 0 <= i < |all| ensures Correct(Replay(mem, all[..i]), all[i]) {
        assert i < |log| ==> all[..i] == log[..i];
      }
    }
  }

  lemma InstantIsAtomic(s: State, l: Label)
    requires Inv(s) && Enabled(s, l)
    ensures var a := Instant(s, l);
            && |a| <= 1
            && (a == [] ==> Next(s, l).mem == s.mem)
            && (a != [] ==> Correct(s.mem, a[0]) && Next(s, l).mem == Apply(s.mem, a[0]))
  {
  }

  /** Executed one after the other, the instants of any run return what the calls return and leave
      the word as the run does. */
  lemma {:induction false} InstantsExplainMemory(s: State, ls: seq<Label>)
    requires Initial(s) && Legal(s, ls)
    ensures AllCorrect(s.mem, Instants(s, ls))
    ensures Replay(s.mem, Instants(s, ls)) == Exec(s, ls).mem
  {
    if ls != [] {
      var before, l := ls[..|ls| - 1], ls[|ls| - 1];
      InstantsExplainMemory(s, before);
      RunKeepsInv(s, before);
      InstantIsAtomic(Exec(s, before), l);
      ReplayAppend(s.mem, Instants(s, before), Instant(Exec(s, before), l));
    }
  }

  // Calls and their instants.

  /** The call that a step completes, if it completes one: arguments as invoked, result as returned. */
  function Returned(s: State, l: Label): seq<Atomic>
    requires Enabled(s, l)
  {
    var t := s.harts[l.h];
    if l.Return? then [Cas(l.h, t.oldval, t.newval, t.result)] else []
  }

  /** The completed calls of a hart. */
  function Calls(s: State, ls: seq<Label>, h: nat): seq<Atomic>
    requires Legal(s, ls)
  {
    if ls == [] then []
    else
      var before, l := ls[..|ls| - 1], ls[|ls| - 1];
      Calls(s, before, h) + if l.h == h then Returned(Exec(s, before), l) else []
  }

  /** The instants of one hart's calls. */
  function InstantsOf(s: State, ls: seq<Label>, h: nat): seq<Atomic>
    requires Legal(s, ls)
  {
    if ls == [] then []
    else
      var before, l := ls[..|ls| - 1], ls[|ls| - 1];
      InstantsOf(s, before, h) + if l.h == h && !l.Store? then Instant(Exec(s, before), l) else []
  }

  /** The call a hart is in has had its instant. */
  predicate TookEffect(t: Hart) {
    match t.pc
    case AtBne => t.result != t.oldval
    case AtBnez => t.rc == 0
    case Returning => true
    case _ => false
  }

  function Pending(h: nat, t: Hart): seq<Atomic> {
    if TookEffect(t) then [Cas(h, t.oldval, t.newval, t.result)] else []
  }

  lemma OwnStep(s: State, l: Label)
    requires Inv(s) && Enabled(s, l) && !l.Store?
    ensures Pending(l.h, s.harts[l.h]) + Instant(s, l) == Returned(s, l) + Pending(l.h, Next(s, l).harts[l.h])
  {
  }

  lemma OtherStep(s: State, l: Label, h: nat)
    requires Enabled(s, l) && h < |s.harts| && (l.h != h || l.Store?)
    ensures Pending(h, Next(s, l).harts[h]) == Pending(h, s.harts[h])
  {
  }

  /** Every completed call has exactly one instant, with its own arguments and result, between its
      invocation and its return: before a call starts its hart's instants are those of its completed
      calls, and when it returns they include it. */
  lemma {:induction false} OneInstantPerCall(s: State, ls: seq<Label>, h: nat)
    requires Initial(s) && Legal(s, ls) && h < |s.harts|
    ensures InstantsOf(s, ls, h) == Calls(s, ls, h) + Pending(h, Exec(s, ls).harts[h])
  {
    if ls != [] {
      var before, l := ls[..|ls| - 1], ls[|ls| - 1];
      var q := Exec(s, before);
      OneInstantPerCall(s, before, h);
      RunKeepsInv(s, before);
      if l.h == h && !l.Store? {
        OwnStep(q, l);
        hide Next, Instant, Pending, Inv, Enabled;
        Regrouped(Calls(s, before, h), Pending(h, q.harts[h]), Instant(q, l), Returned(q, l), Pending(h, Next(q, l).harts[h]));
      } else {
        OtherStep(q, l, h);
        hide Next, Instant, Pending, Inv, Enabled;
      }
    }
  }

  lemma Regrouped(calls: seq<Atomic>, pending: seq<Atomic>, now: seq<Atomic>, returned: seq<Atomic>, after: seq<Atomic>)
    requires pending + now == returned + after
    ensures calls + pending + now == calls + returned + after
  {
    assert calls + pending + now == calls + (pending + now);
    assert calls + returned + after == calls + (returned + after);
  }

  /** A hart's own instants, in the order of the run, are what the whole log says about it. */
  function OfHart(log: seq<Atomic>, h: nat): seq<Atomic> {
    if log == [] then []
    else OfHart(log[..|log| - 1], h) + if log[|log| - 1].Cas? && log[|log| - 1].h == h then [log[|log| - 1]] else []
  }

  lemma {:induction false} InstantsOfIsProjection(s: State, ls: seq<Label>, h: nat)
    requires Initial(s) && Legal(s, ls)
    ensures InstantsOf(s, ls, h) == OfHart(Instants(s, ls), h)
  {
    if ls != [] {
      var before, l := ls[..|ls| - 1], ls[|ls| - 1];
      InstantsOfIsProjection(s, before, h);
      var q, log := Exec(s, before), Instants(s, before);
      RunKeepsInv(s, before);
      InstantIsAtomic(q, l);
      var a := Instant(q, l);
      if a == [] {
        assert log + a == log;
      } else {
        assert (log + a)[..|log|] == log;
      }
    }
  }

  predicate AllLegal(s: State, ls: seq<Label>) {
    forall m: nat | m <= |ls| :: Legal(s, ls[..m])
  }

  /** The state before step `m`. */
  function At(s: State, ls: seq<Label>, m: nat): (r: State)
    requires AllLegal(s, ls) && m <= |ls|
    ensures |r.harts| == |s.harts|
  {
    Exec(s, ls[..m])
  }

  /** Step `k` is the instant of a call that took the old value and the new value and found `was`. */
  predicate ActsAt(s: State, ls: seq<Label>, k: nat, oldval: nat, newval: nat, was: nat)
    requires AllLegal(s, ls) && k < |ls|
  {
    At(s, ls, k).mem == was && At(s, ls, k + 1).mem == if was == oldval then newval else was
  }

  /** Between steps `i` and `n`, hart `h` leaves the word alone, except perhaps at step `k`. */
  predicate QuietBut(s: State, ls: seq<Label>, h: nat, i: nat, n: nat, k: int)
    requires AllLegal(s, ls) && n <= |ls|
  {
    forall m: nat | i < m < n && ls[m].h == h && m != k :: At(s, ls, m + 1).mem == At(s, ls, m).mem
  }

  /** The call invoked at step `i` and returning at step `j` acts at one step `k` in between: it
      returns what the word held then, and replaces it by the new value exactly when it returns the
      old one. Its hart's other steps leave the word alone. */
  lemma CallTakesEffectOnce(s: State, ls: seq<Label>, h: nat, i: nat, j: nat) returns (k: nat)
    requires Initial(s) && Legal(s, ls) && i < j == |ls| - 1
    requires ls[i].Invoke? && ls[i].h == h && ls[j] == Return(h)
    requires forall m | i < m < j :: ls[m].h == h ==> !ls[m].Invoke? && !ls[m].Return?
    ensures AllLegal(s, ls) && h < |s.harts| && i < k < j
    ensures ActsAt(s, ls, k, ls[i].oldval, ls[i].newval, At(s, ls, j).harts[h].result)
    ensures QuietBut(s, ls, h, i, j, k)
  {
    hide TookEffect, Next, ActsAt, QuietBut;
    forall m: nat | m <= |ls| ensures Legal(s, ls[..m]) {
      PrefixLegal(s, ls, m);
    }
    k := EffectSoFar(s, ls, h, i, j);
    AtStep(s, ls, j);
    ReturningTookEffect(At(s, ls, j).harts[h]);
  }

  lemma ReturningTookEffect(t: Hart)
    requires t.pc == Returning
    ensures TookEffect(t)
  {
  }

  lemma AtStep(s: State, ls: seq<Label>, m: nat)
    requires m < |ls| && AllLegal(s, ls)
    ensures Enabled(At(s, ls, m), ls[m]) && At(s, ls, m + 1) == Next(At(s, ls, m), ls[m])
  {
    assert ls[..m + 1][..m] == ls[..m];
    assert Legal(s, ls[..m + 1]);
  }

  /** What one step of the calling hart does for its call. */
  lemma CallStep(s: State, l: Label)
    requires Inv(s) && Enabled(s, l) && s.harts[l.h].pc != Idle && !l.Return?
    ensures var t, t', r := s.harts[l.h], Next(s, l).harts[l.h], Next(s, l);
            && t'.pc != Idle && t'.oldval == t.oldval && t'.newval == t.newval
            && (TookEffect(t) ==> TookEffect(t') && t'.result == t.result && r.mem == s.mem)
            && (!TookEffect(t) && TookEffect(t') ==>
                  t'.result == s.mem && r.mem == if s.mem == t.oldval then t.newval else s.mem)
            && (!TookEffect(t') ==> r.mem == s.mem)
  {
  }

  lemma OtherHartStep(s: State, l: Label, h: nat)
    requires Enabled(s, l) && h < |s.harts| && l.h != h
    ensures Next(s, l).harts[h] == s.harts[h].(reserved := Next(s, l).harts[h].reserved)
  {
  }

  /** The call that began at step `i`, just before step `n`: `k` is its instant, if it had it. */
  predicate Tracks(s: State, ls: seq<Label>, h: nat, i: nat, n: nat, k: nat)
    requires AllLegal(s, ls) && i < n <= |ls| && ls[i].Invoke? && h < |s.harts|
  {
    var t := At(s, ls, n).harts[h];
    && t.pc != Idle && t.oldval == ls[i].oldval && t.newval == ls[i].newval
    && (TookEffect(t) ==> i < k < n && ActsAt(s, ls, k, t.oldval, t.newval, t.result))
    && QuietBut(s, ls, h, i, n, if TookEffect(t) then k else -1)
  }

  lemma {:induction false} EffectSoFar(s: State, ls: seq<Label>, h: nat, i: nat, n: nat) returns (k: nat)
    requires Initial(s) && AllLegal(s, ls) && i < n <= |ls| && ls[i].Invoke? && ls[i].h == h
    requires forall m | i < m < n :: ls[m].h == h ==> !ls[m].Invoke? && !ls[m].Return?
    ensures h < |s.harts| && Tracks(s, ls, h, i, n, k)
    decreases n
  {
    AtStep(s, ls, n - 1);
    if n == i + 1 {
      k := n;
    } else {
      hide Tracks, At;
      var before := EffectSoFar(s, ls, h, i, n - 1);
      k := TrackStep(s, ls, h, i, n, before);
    }
  }

  lemma TrackStep(s: State, ls: seq<Label>, h: nat, i: nat, n: nat, before: nat) returns (k: nat)
    requires Initial(s) && AllLegal(s, ls) && i + 1 < n <= |ls| && ls[i].Invoke? && h < |s.harts|
    requires ls[n - 1].h == h ==> !ls[n - 1].Invoke? && !ls[n - 1].Return?
    requires Tracks(s, ls, h, i, n - 1, before)
    ensures Tracks(s, ls, h, i, n, k)
  {
    var q, l := At(s, ls, n - 1), ls[n - 1];
    AtStep(s, ls, n - 1);
    RunKeepsInv(s, ls[..n - 1]);
    hide Next, TookEffect, Enabled, At, Inv, AllLegal, QuietBut;
    k := before;
    var done := TookEffect(q.harts[h]);
    if l.h == h {
      CallStep(q, l);
      if !done && TookEffect(Next(q, l).harts[h]) {
        k := n - 1;
      }
    } else {
      OtherHartStep(q, l, h);
      SameEffect(q.harts[h], Next(q, l).harts[h]);
    }
    QuietGrows(s, ls, h, i, n, if done then before else -1, if TookEffect(At(s, ls, n).harts[h]) then k else -1);
  }

  lemma QuietGrows(s: State, ls: seq<Label>, h: nat, i: nat, n: nat, k: int, k': int)
    requires AllLegal(s, ls) && 0 < n <= |ls| && QuietBut(s, ls, h, i, n - 1, k)
    requires k' == k || (k == -1 && k' == n - 1)
    requires ls[n - 1].h == h && n - 1 != k' ==> At(s, ls, n).mem == At(s, ls, n - 1).mem
    ensures QuietBut(s, ls, h, i, n, k')
  {
    hide At, AllLegal;
  }

  lemma SameEffect(t: Hart, t': Hart)
    requires t' == t.(reserved := t'.reserved)
    ensures TookEffect(t') == TookEffect(t)
  {
  }

  lemma {:induction false} PrefixLegal(s: State, ls: seq<Label>, m: nat)
    requires Legal(s, ls) && m <= |ls|
    ensures Legal(s, ls[..m])
    decreases |ls|
  {
    if m == |ls| {
      assert ls[..m] == ls;
    } else {
      PrefixLegal(s, ls[..|ls| - 1], m);
      assert ls[..|ls| - 1][..m] == ls[..m];
    }
  }

  // A call gets through.

  lemma Extended(s: State, ls: seq<Label>, l: Label)
    requires Legal(s, ls) && Enabled(Exec(s, ls), l)
    ensures Legal(s, ls + [l]) && Exec(s, ls + [l]) == Next(Exec(s, ls), l)
  {
    hide Next, Enabled;
    assert (ls + [l])[..|ls|] == ls;
  }

  /** The run `ls` leads to `q`, and the hart has completed these calls. */
  ghost predicate Leads(s: State, ls: seq<Label>, q: State, h: nat, calls: seq<Atomic>) {
    Legal(s, ls) && Exec(s, ls) == q && Calls(s, ls, h) == calls
  }

  lemma LeadsOn(s: State, ls: seq<Label>, q: State, h: nat, calls: seq<Atomic>, l: Label)
    requires Leads(s, ls, q, h, calls) && Enabled(q, l) && l.h == h
    ensures Leads(s, ls + [l], Next(q, l), h, calls + Returned(q, l))
  {
    Extended(s, ls, l);
    hide Next, Enabled;
    assert (ls + [l])[..|ls|] == ls;
  }

  /** A hart with a call that has read the word and compares it. */
  lemma AloneReads(s: State, h: nat, oldval: nat, newval: nat) returns (q: State)
    requires h < |s.harts| && s.harts[h].pc == Idle
    ensures Leads(s, [Invoke(h, oldval, newval), Lr(h), Bne(h)], q, h, [])
    ensures |q.harts| == |s.harts| && q.mem == s.mem
    ensures q.harts[h] == s.harts[h].(pc := if s.mem != oldval then Returning else AtSc,
                                      oldval := oldval, newval := newval, result := s.mem, reserved := true)
  {
    var s1 := Next(s, Invoke(h, oldval, newval));
    var s2 := Next(s1, Lr(h));
    q := Next(s2, Bne(h));
    assert Leads(s, [], s, h, []);
    var none: seq<Atomic> := [];
    LeadsOn(s, [], s, h, none, Invoke(h, oldval, newval));
    LeadsOn(s, [] + [Invoke(h, oldval, newval)], s1, h, none + [], Lr(h));
    LeadsOn(s, [] + [Invoke(h, oldval, newval)] + [Lr(h)], s2, h, none + [] + [], Bne(h));
    hide Leads;
    assert [] + [Invoke(h, oldval, newval)] + [Lr(h)] + [Bne(h)] == [Invoke(h, oldval, newval), Lr(h), Bne(h)];
    assert none + [] + [] + [] == none;
  }

  /** A call that nobody disturbs ends, with one attempt: it swaps exactly when the word holds the old
      value, and returns what the word held. */
  lemma AloneCallCompletes(s: State, h: nat, oldval: nat, newval: nat) returns (ls: seq<Label>, q: State)
    requires h < |s.harts| && s.harts[h].pc == Idle
    ensures ls == [Invoke(h, oldval, newval), Lr(h), Bne(h)]
               + (if s.mem == oldval then [ScSucceeds(h), Bnez(h)] else []) + [Return(h)]
    ensures Leads(s, ls, q, h, [Cas(h, oldval, newval, s.mem)])
    ensures q.mem == if s.mem == oldval then newval else s.mem
    ensures h < |q.harts| && q.harts[h].pc == Idle
  {
    q := AloneReads(s, h, oldval, newval);
    hide Leads;
    ls := [Invoke(h, oldval, newval), Lr(h), Bne(h)];
    var calls: seq<Atomic> := [];
    if s.mem == oldval {
      var q1 := Next(q, ScSucceeds(h));
      var q2 := Next(q1, Bnez(h));
      LeadsOn(s, ls, q, h, calls, ScSucceeds(h));
      LeadsOn(s, ls + [ScSucceeds(h)], q1, h, calls + [], Bnez(h));
      ls, q, calls := ls + [ScSucceeds(h)] + [Bnez(h)], q2, calls + [] + [];
      assert [Invoke(h, oldval, newval), Lr(h), Bne(h)] + [ScSucceeds(h), Bnez(h)] == ls;
    }
    LeadsOn(s, ls, q, h, calls, Return(h));
    ls, q := ls + [Return(h)], Next(q, Return(h));
    assert calls + [Cas(h, oldval, newval, s.mem)] == [Cas(h, oldval, newval, s.mem)];
  }

  /** A store-conditional that fails leads back to the load. */
  lemma FailedStoreRetries(s: State, h: nat)
    requires h < |s.harts| && s.harts[h].pc == AtSc
    ensures Enabled(s, ScFails(h)) && Enabled(Next(s, ScFails(h)), Bnez(h))
    ensures var r := Next(Next(s, ScFails(h)), Bnez(h));
            r.harts[h].pc == AtLr && r.mem == s.mem && Enabled(r, Lr(h))
  {
  }
}
