/** The demand pager of the virtual-memory test environment: boot, page faults, user accesses and
    the final eviction, on the memory the handlers update. */
module Pager {
  import opened Bytes
  import opened PageTables
  import opened PagedMemory
  import opened Lfsr
  import opened PagerState
  import opened CString

  const CAUSE_ILLEGAL_INSTRUCTION := 2
  const CAUSE_USER_ECALL := 8
  const CAUSE_FETCH_PAGE_FAULT := 12
  const CAUSE_LOAD_PAGE_FAULT := 13
  const CAUSE_STORE_PAGE_FAULT := 15

  /** A handler returns to the user or ends the test, with an exit code or, with code 3, at a failed
      assertion. */
  datatype Outcome = Resume | Terminated(code: int) | AssertionFailed

  function CauseOf(kind: Kind): int {
    match kind
    case Fetch => CAUSE_FETCH_PAGE_FAULT
    case Load => CAUSE_LOAD_PAGE_FAULT
    case Store => CAUSE_STORE_PAGE_FAULT
  }

  /** What the hardware lets supervisor code do in user pages while SUM is set. */
  predicate KernelPermits(pte: Pte, store: bool) {
    pte.v && pte.r && pte.a && (store ==> pte.w && pte.d)
  }

  predicate InFrames(ppn: nat) {
    DRAM_PPN + MAX_TEST_PAGES < ppn < DRAM_PPN + PAGES
  }

  /** The asserts of `handle_fault` after the range check: a present entry faults only for want of
      its accessed bit, or of its dirty bit on a store. */
  predicate FaultExplained(pte: Pte, cause: int) {
    pte == ZERO || !pte.a || (!pte.d && cause == CAUSE_STORE_PAGE_FAULT)
  }

  /** The handler takes exactly the faults the hardware raises: those of accesses the entry does not
      permit. */
  lemma ExplainedIffNotPermitted(pte: Pte, kind: Kind)
    requires pte == ZERO || pte == UserLeaf(pte.ppn, pte.a, pte.d)
    ensures FaultExplained(pte, match kind case Fetch => 12 case Load => 13 case Store => 15) <==> !Permits(pte, kind)
  {
  }

  /** The entry after a fault was handled. */
  function FaultedEntry(pte: Pte, frame: nat): Pte {
    if pte == ZERO then UserLeaf(DRAM_PPN + frame, false, false)
    else if !pte.a then pte.(a := true)
    else pte.(d := true)
  }

  lemma BootedInv(m: Machine, seed: Reg, lay: Layout, home: seq<Page>)
    requires seed != STUCK && Sized(m) && GoodLayout(lay) && |home| == MAX_TEST_PAGES
    requires HomesOk(m.llpt, m.pages, lay, home)
    requires forall n | 0 <= n < PTES_PER_PT :: m.llpt[n] == ZERO
    requires forall n | 0 <= n < MAX_TEST_PAGES :: m.mapping[n] == NO_NODE
    requires forall k | 0 <= k < MAX_TEST_PAGES :: m.nodes[k] == ListNode(seed, k)
    requires m.head == Free(0) && m.tail == Free(MAX_TEST_PAGES - 1)
    ensures Inv(m, seed, lay, home, []) && Agree(lay, View(m), home)
  {
  }

  // What a run of accesses leaves in the entries.

  predicate AnyTouches(ops: seq<Access>, n: nat) {
    exists i | 0 <= i < |ops| :: Touches(ops[i], n)
  }

  predicate AnyStores(ops: seq<Access>, n: nat) {
    exists i | 0 <= i < |ops| :: ops[i].kind == Store && Touches(ops[i], n)
  }

  /** An entry after an access of its page, as far as the user can tell. */
  predicate EntryAfter(was: Pte, pte: Pte, kind: Kind) {
    pte.a && pte != ZERO && (pte.d <==> was.d || kind == Store)
  }

  /** Entries after one access: those of its pages are settled, the others as they were. */
  predicate EntriesAfter(was: seq<Pte>, llpt: seq<Pte>, a: Access)
    requires |was| == |llpt|
  {
    forall n: nat | n < |llpt| :: if Touches(a, n) then EntryAfter(was[n], llpt[n], a.kind) else llpt[n] == was[n]
  }

  /** Entries after a run of accesses since boot. */
  predicate EntriesTell(llpt: seq<Pte>, ops: seq<Access>) {
    forall n: nat | n < |llpt| ::
      (llpt[n] != ZERO <==> AnyTouches(ops, n)) && (llpt[n].d <==> AnyStores(ops, n)) && (llpt[n] != ZERO ==> llpt[n].a)
  }

  lemma EntriesTellStep(was: seq<Pte>, llpt: seq<Pte>, ops: seq<Access>, a: Access)
    requires |was| == |llpt| && EntriesTell(was, ops) && EntriesAfter(was, llpt, a)
    ensures EntriesTell(llpt, ops + [a])
  {
    forall n: nat
      ensures AnyTouches(ops + [a], n) <==> AnyTouches(ops, n) || Touches(a, n)
      ensures AnyStores(ops + [a], n) <==> AnyStores(ops, n) || (a.kind == Store && Touches(a, n))
    {
      AnyMore(ops, a, n);
    }
    hide AnyTouches, AnyStores, Touches;
  }

  lemma AnyMore(ops: seq<Access>, a: Access, n: nat)
    ensures AnyTouches(ops + [a], n) <==> AnyTouches(ops, n) || Touches(a, n)
    ensures AnyStores(ops + [a], n) <==> AnyStores(ops, n) || (a.kind == Store && Touches(a, n))
  {
    hide Touches;
    var all := ops + [a];
    assert forall i | 0 <= i < |ops| :: all[i] == ops[i];
    assert all[|ops|] == a;
  }

  /** The node of page `n` is cleared, and the node that was last links to it. */
  predicate Queued(last: Ref, nodes: seq<Node>, mapping: seq<Node>, nodes': seq<Node>, mapping': seq<Node>, n: nat)
    requires RefOk(last) && |nodes| == |mapping| == MAX_TEST_PAGES && n < MAX_TEST_PAGES
  {
    var cleared := mapping[n := mapping[n].(addr := 0)];
    && nodes' == (if last.Free? then nodes[last.index := nodes[last.index].(next := User(n))] else nodes)
    && mapping' == if last.User? then cleared[last.index := cleared[last.index].(next := User(n))] else cleared
  }

  lemma AddressesQueued(last: Ref, nodes: seq<Node>, mapping: seq<Node>, nodes': seq<Node>, mapping': seq<Node>, n: nat)
    requires RefOk(last) && |nodes| == |mapping| == MAX_TEST_PAGES && n < MAX_TEST_PAGES
    requires Queued(last, nodes, mapping, nodes', mapping', n)
    ensures |nodes'| == |mapping'| == MAX_TEST_PAGES
    ensures forall p | 0 <= p < MAX_TEST_PAGES :: mapping'[p].addr == if p == n then 0 else mapping[p].addr
  {
  }

  class Pager {
    const ptPpn: nat
    const lay: Layout
    const llpt: array<Pte>
    const mapping: array<Node>
    const nodes: array<Node>
    const mem: array<byte>
    var head: Ref
    var tail: Ref

    ghost const seed: Reg
    ghost const home: seq<Page>
    ghost var order: seq<nat>

    /** The parts of memory have their sizes and do not overlap. */
    ghost predicate Laid() {
      && mem.Length == PAGES * PGSIZE && llpt.Length == PTES_PER_PT
      && mapping.Length == nodes.Length == MAX_TEST_PAGES && mapping != nodes && GoodLayout(lay)
    }

    ghost function Snapshot(): (m: Machine)
      requires Laid()
      reads `head, `tail, llpt, mapping, nodes, mem
      ensures Sized(m)
    {
      Machine(llpt[..], mapping[..], nodes[..], head, tail, PagesOf(mem[..]))
    }

    ghost predicate Valid()
      reads `head, `tail, `order, llpt, mapping, nodes, mem
    {
      Laid() && Inv(Snapshot(), seed, lay, home, order)
    }

    /** The memory the user program sees. */
    ghost function UserView(): (v: seq<Page>)
      requires Laid()
      reads `head, `tail, llpt, mapping, nodes, mem
      ensures |v| == MAX_TEST_PAGES
    {
      View(Snapshot())
    }

    /** `vm_boot`: the page tables, and the free list in the order of the shift register. */
    constructor (ptPpn: nat, lay: Layout, entropy: nat, memory: seq<byte>)
      requires IsMemory(memory) && GoodLayout(lay)
      ensures Valid() && this.lay == lay && order == [] && home == PagesOf(memory)[..MAX_TEST_PAGES]
      ensures forall n | 0 <= n < PTES_PER_PT :: llpt[n] == ZERO
      ensures seed != STUCK && Value(seed) == 1 + entropy % 63
      ensures forall k | 0 <= k < MAX_TEST_PAGES :: nodes[k].addr == 0x8000_0000 + (63 + Value(Iterate(seed, k))) * 0x1000
      ensures Agree(lay, UserView(), home)
      ensures fresh(llpt) && fresh(mapping) && fresh(nodes) && fresh(mem)
    {
      this.ptPpn, this.lay := ptPpn, lay;
      var random := 1 + entropy % MAX_TEST_PAGES;
      llpt := new Pte[PTES_PER_PT](_ => ZERO);
      mapping := new Node[MAX_TEST_PAGES](_ => NO_NODE);
      nodes := new Node[MAX_TEST_PAGES](_ => NO_NODE);
      mem := new byte[PAGES * PGSIZE](i requires 0 <= i < PAGES * PGSIZE => memory[i]);
      head, tail := Free(0), Free(MAX_TEST_PAGES - 1);
      home, order := PagesOf(memory)[..MAX_TEST_PAGES], [];
      ValueOfValue(random);
      seed := OfValue(random);
      new;
      hide Value, OfValue, PageAt, TablePage;
      assert mem[..] == memory;
      SyncTable();
      BuildFreeList(random);
      BootedInv(Snapshot(), seed, lay, home);
    }

    /** Chains all list nodes, their frames in the order of the shift register. */
    method BuildFreeList(start: nat)
      requires nodes.Length == MAX_TEST_PAGES && seed != STUCK && start == Value(seed)
      modifies nodes
      ensures forall k | 0 <= k < MAX_TEST_PAGES :: nodes[k] == ListNode(seed, k)
      ensures forall k | 0 <= k < MAX_TEST_PAGES :: nodes[k].addr == 0x8000_0000 + (63 + Value(Iterate(seed, k))) * 0x1000
    {
      hide Value, Next, NextValue, Iterate;
      var random := start;
      IterateNone(seed);
      for i := 0 to MAX_TEST_PAGES
        invariant random == Value(Iterate(seed, i))
        invariant forall k | 0 <= k < i :: nodes[k] == Node(FrameAddr(seed, k), Free(k + 1))
      {
        nodes[i] := Node(DRAM_BASE + (MAX_TEST_PAGES + random) * PGSIZE, Free(i + 1));
        NextIsLfsrNext(Iterate(seed, i));
        IterateLast(seed, i);
        random := NextValue(random);
      }
      nodes[MAX_TEST_PAGES - 1] := nodes[MAX_TEST_PAGES - 1].(next := Null);
    }

    // Kernel data in home pages.

    /** The table and its page are the same memory. */
    method SyncTable()
      requires Laid()
      modifies mem
      ensures PagesOf(mem[..]) ==
              if lay.table < MAX_TEST_PAGES then old(PagesOf(mem[..]))[lay.table := TablePage(llpt[..])] else old(PagesOf(mem[..]))
    {
      hide TablePage, PageAt, Patched;
      if lay.table < MAX_TEST_PAGES {
        var page := TablePage(llpt[..]);
        WriteBytes(lay.table * PGSIZE, page);
        PagePatched(old(mem[..]), lay.table, page);
      }
    }

    method WriteBytes(at: nat, data: seq<byte>)
      requires at + |data| <= mem.Length
      modifies mem
      ensures mem[..] == Patched(old(mem[..]), at, data)
    {
      forall i | 0 <= i < |data| {
        mem[at + i] := data[i];
      }
      assert mem[..at] == old(mem[..at]);
      assert mem[at..at + |data|] == data;
      assert mem[at + |data|..] == old(mem[at + |data|..]);
      assert mem[..] == mem[..at] + mem[at..at + |data|] + mem[at + |data|..];
    }

    method WriteEntry(n: nat, pte: Pte)
      requires Laid() && n < PTES_PER_PT
      modifies llpt, mem
      ensures llpt[..] == old(llpt[..])[n := pte]
      ensures PagesOf(mem[..]) ==
              if lay.table < MAX_TEST_PAGES then old(PagesOf(mem[..]))[lay.table := TablePage(llpt[..])] else old(PagesOf(mem[..]))
    {
      hide TablePage, PageAt;
      llpt[n] := pte;
      SyncTable();
    }

    /** The kernel writes whatever it likes into its other pages: registers saved on a trap, its stack,
        its lists. */
    method KernelWrites()
      requires Laid()
      modifies mem
      ensures forall p: nat | p < PAGES && (p !in lay.kernel || p == lay.table) :: PagesOf(mem[..])[p] == old(PagesOf(mem[..]))[p]
    {
      for n := 0 to MAX_TEST_PAGES
        invariant forall p: nat | p < PAGES && (p !in lay.kernel || p == lay.table) :: PagesOf(mem[..])[p] == old(PagesOf(mem[..]))[p]
      {
        if n in lay.kernel && n != lay.table {
          hide PageAt, Patched;
          ghost var was := mem[..];
          var page := ArbitraryPage();
          WriteBytes(n * PGSIZE, page);
          PagePatched(was, n, page);
        }
      }
    }

    method ArbitraryPage() returns (page: Page) {
      assert |seq(PGSIZE, _ => 0 as byte)| == PGSIZE;
      page :| |page| == PGSIZE;
    }

    /** The physical page behind a virtual page, counted from the start of memory. */
    method PhysicalPage(va: nat) returns (k: nat)
      requires Laid() && UserEntries(llpt[..])
      requires var t := Walk(BootTables(ptPpn, llpt[..]), va);
               t.Mapped? && DRAM_PPN <= t.pa / PGSIZE < DRAM_PPN + PAGES
      ensures k < PAGES && k == Walk(BootTables(ptPpn, llpt[..]), va).pa / PGSIZE - DRAM_PPN
    {
      k := Walk(BootTables(ptPpn, llpt[..]), va).pa / PGSIZE - DRAM_PPN;
    }

    /** `memcpy` of one page between kernel-accessible virtual addresses. */
    method CopyPage(dst: nat, src: nat)
      requires Laid() && UserEntries(llpt[..])
      requires UserPage(dst) && dst % PGSIZE == 0 && KernelPermits(llpt[dst / PGSIZE], true)
      requires InFrames(llpt[dst / PGSIZE].ppn) && src == Uva2Kva(dst)
      modifies mem
      ensures PagesOf(mem[..]) == old(PagesOf(mem[..]))[llpt[dst / PGSIZE].ppn - DRAM_PPN := old(PagesOf(mem[..])[dst / PGSIZE])]
    {
      hide Walk, BootTables, PageAt;
      BootTranslation(ptPpn, llpt[..], dst);
      KernelAddressesTranslate(ptPpn, llpt[..], DRAM_BASE, dst);
      var to := PhysicalPage(dst);
      var from := PhysicalPage(src);
      CopyPhysical(to, from);
    }

    method CopyPhysical(to: nat, from: nat)
      requires Laid() && to < PAGES && from < PAGES && to != from
      modifies mem
      ensures PagesOf(mem[..]) == old(PagesOf(mem[..]))[to := old(PagesOf(mem[..])[from])]
    {
      hide Patched, PageAt;
      ghost var was := mem[..];
      Memcpy(mem, 8, to * PGSIZE, from * PGSIZE, PGSIZE);
      SliceOfMemory(was, from);
      PagePatched(was, to, PagesOf(was)[from]);
    }

    lemma SliceOfMemory(was: seq<byte>, k: nat)
      requires IsMemory(was) && k < PAGES
      ensures was[k * PGSIZE..k * PGSIZE + PGSIZE] == PagesOf(was)[k]
    {
    }

    /** `memcmp` of a page with its home. */
    method PageDiffers(va: nat, kva: nat) returns (differ: bool)
      requires Laid() && UserEntries(llpt[..])
      requires UserPage(va) && va % PGSIZE == 0 && KernelPermits(llpt[va / PGSIZE], false)
      requires InFrames(llpt[va / PGSIZE].ppn) && kva == Uva2Kva(va)
      ensures differ <==> PagesOf(mem[..])[llpt[va / PGSIZE].ppn - DRAM_PPN] != PagesOf(mem[..])[va / PGSIZE]
    {
      hide Walk, BootTables, Compare, PageAt;
      BootTranslation(ptPpn, llpt[..], va);
      KernelAddressesTranslate(ptPpn, llpt[..], DRAM_BASE, va);
      var a := PhysicalPage(va);
      var b := PhysicalPage(kva);
      differ := ComparePages(a, b);
    }

    method ComparePages(a: nat, b: nat) returns (differ: bool)
      requires Laid() && a < PAGES && b < PAGES
      ensures differ <==> PagesOf(mem[..])[a] != PagesOf(mem[..])[b]
    {
      hide Compare, PageAt;
      var r := Memcmp(mem, 8, a * PGSIZE, b * PGSIZE, PGSIZE);
      SliceOfMemory(mem[..], a);
      SliceOfMemory(mem[..], b);
      CompareZeroIffEqual(PagesOf(mem[..])[a], PagesOf(mem[..])[b]);
      differ := r != 0;
    }

    // Page faults.

    /** `handle_fault`. It ends the test exactly when the address is not a test page or the fault
        has no reason the handler knows; otherwise memory looks the same to the user as before. */
    method HandleFault(va: nat, cause: int) returns (o: Outcome)
      requires Valid()
      modifies `head, `tail, `order, llpt, mapping, mem
      ensures Valid() && Agree(lay, UserView(), old(UserView()))
      ensures o == if UserPage(va) && FaultExplained(old(llpt[va / PGSIZE]), cause) then Resume else AssertionFailed
      ensures o != Resume ==> llpt[..] == old(llpt[..]) && order == old(order)
      ensures o == Resume ==> Faulted(old(llpt[..]), old(order), va / PGSIZE)
    {
      hide Inv, View, PageAt, Agree;
      ghost var m := Snapshot();
      KernelWrites();
      KernelKeepsInv(m, seed, lay, home, order, Snapshot());
      ghost var w := UserView();
      if !(PGSIZE <= va < MAX_TEST_PAGES * PGSIZE) {
        return AssertionFailed;
      }
      var addr := va / PGSIZE * PGSIZE;
      var n := addr / PGSIZE;
      assert n == va / PGSIZE;
      OrderBound(m);
      if llpt[n] != ZERO {
        o := SetFlag(n, cause);
      } else {
        o := MapPage(addr);
      }
      AgreeTwice(lay, UserView(), w, View(m));
    }

    lemma OrderBound(m: Machine)
      requires Inv(m, seed, lay, home, order)
      ensures |order| < MAX_TEST_PAGES && seed != STUCK
    {
    }

    /** The entry is present: its accessed or dirty bit was missing. */
    method SetFlag(n: nat, cause: int) returns (o: Outcome)
      requires Valid() && n < MAX_TEST_PAGES && llpt[n] != ZERO
      modifies llpt, mem
      ensures Valid() && Agree(lay, UserView(), old(UserView()))
      ensures o == if FaultExplained(old(llpt[n]), cause) then Resume else AssertionFailed
      ensures o != Resume ==> llpt[..] == old(llpt[..])
      ensures o == Resume ==> llpt[..] == old(llpt[..])[n := FaultedEntry(old(llpt[n]), Frame(seed, |order|))]
    {
      hide Inv, View, PageAt, TablePage;
      ghost var m := Snapshot();
      InvSized(m, seed, lay, home, order);
      if !llpt[n].a {
        WriteEntry(n, llpt[n].(a := true));
      } else {
        if !(!llpt[n].d && cause == CAUSE_STORE_PAGE_FAULT) {
          return AssertionFailed;
        }
        WriteEntry(n, llpt[n].(d := true));
      }
      FlagKeepsInv(m, seed, lay, home, order, n, llpt[n], Snapshot());
      return Resume;
    }

    method TakeNode() returns (node: Node)
      requires nodes.Length == MAX_TEST_PAGES && head.Free? && head.index < MAX_TEST_PAGES
      modifies `head, `tail
      ensures node == nodes[old(head.index)] && head == node.next
      ensures tail == if node.next == old(tail) then Null else old(tail)
    {
      node := nodes[head.index];
      head := node.next;
      if head == tail {
        tail := Null;
      }
    }

    /** The home of a page reaches its frame; the kernel writes its own pages before and after. The
        entry is dirty while the kernel copies, and clean for the user afterwards. */
    method FillFrame(addr: nat, newPte: Pte)
      requires Laid() && UserEntries(llpt[..]) && UserPage(addr) && addr % PGSIZE == 0
      requires newPte == UserLeaf(newPte.ppn, false, false) && InFrames(newPte.ppn) && |home| == MAX_TEST_PAGES
      requires HomesOk(llpt[..], PagesOf(mem[..]), lay, home)
      modifies llpt, mem
      ensures llpt[..] == old(llpt[..])[addr / PGSIZE := newPte]
      ensures HomesOk(llpt[..], PagesOf(mem[..]), lay, home)
      ensures CleanFrame(PagesOf(mem[..])[newPte.ppn - DRAM_PPN], lay, home, addr / PGSIZE)
      ensures forall f: nat | MAX_TEST_PAGES <= f < PAGES && DRAM_PPN + f != newPte.ppn ::
                PagesOf(mem[..])[f] == old(PagesOf(mem[..])[f])
    {
      hide PageAt, TablePage, DirtyByte;
      var n := addr / PGSIZE;
      WriteEntry(n, newPte.(a := true, d := true));
      ghost var dirty := llpt[..];
      KernelWrites();
      CopyPage(addr, Uva2Kva(addr));
      TableByte(dirty, n);
      assert CleanFrame(PagesOf(mem[..])[newPte.ppn - DRAM_PPN], lay, home, n);
      KernelWrites();
      WriteEntry(n, newPte);
      assert llpt[..] == old(llpt[..])[n := newPte];
    }

    /** The page is touched for the first time: it gets the next free frame and a copy of its home. */
    method MapPage(addr: nat) returns (o: Outcome)
      requires Valid() && UserPage(addr) && addr % PGSIZE == 0 && llpt[addr / PGSIZE] == ZERO
      modifies `head, `tail, `order, llpt, mapping, mem
      ensures Valid() && Agree(lay, UserView(), old(UserView())) && o == Resume
      ensures llpt[..] == old(llpt[..])[addr / PGSIZE := UserLeaf(DRAM_PPN + Frame(seed, old(|order|)), false, false)]
      ensures order == old(order) + [addr / PGSIZE]
    {
      hide Inv, View, PageAt, TablePage, HomesOk, CleanFrame;
      ghost var m := Snapshot();
      var n := addr / PGSIZE;
      InvSized(m, seed, lay, home, order);
      NextNode(m, seed, lay, home, order, n);
      if head == Null {
        return AssertionFailed;
      }
      var node := TakeNode();
      if mapping[n].addr != 0 {
        return AssertionFailed;
      }
      mapping[n] := node;
      var newPte := UserLeaf(node.addr / PGSIZE, false, false);
      assert newPte.ppn == DRAM_PPN + Frame(seed, |order|);
      FillFrame(addr, newPte);
      order := order + [n];
      MapKeepsInv(m, seed, lay, home, order[..|order| - 1], n, Snapshot());
      return Resume;
    }

    // Traps.

    /** `handle_trap`: an environment call (8) evicts and reports the exit code, a misplaced
        floating-point instruction (2) ends the test with code 1, a page fault on a fetch (12), load (13)
        or store (15) is handled; everything else fails an assertion. */
    method HandleTrap(cause: int, badvaddr: nat, epc: nat, touchesFpu: bool, code: int) returns (o: Outcome)
      requires Valid()
      modifies `head, `tail, `order, llpt, nodes, mapping, mem
      ensures o != Resume ==> llpt[..] == old(llpt[..])
      ensures cause == 8 ==>
                && (o == Terminated(code) || o == AssertionFailed)
                && (Settled(old(Snapshot())) && (forall n | n in lay.kernel :: llpt[n] == ZERO || llpt[n].d) ==>
                      o == Terminated(code))
                && (!Settled(old(Snapshot())) || (llpt[lay.table] != ZERO && !llpt[lay.table].d) ==> o == AssertionFailed)
                && (o == Terminated(code) ==> Agree(lay, UserView(), home))
      ensures cause == 2 ==> o == if epc % 4 == 0 && touchesFpu then Terminated(1) else AssertionFailed
      ensures cause in {12, 13, 15} ==>
                && Valid() && Agree(lay, UserView(), old(UserView()))
                && o == (if 0x1000 <= badvaddr < 0x3f000 && FaultExplained(old(llpt[badvaddr / 0x1000]), cause) then Resume
                         else AssertionFailed)
                && (o == Resume ==> Faulted(old(llpt[..]), old(order), badvaddr / 0x1000))
      ensures cause !in {2, 8, 12, 13, 15} ==> o == AssertionFailed
    {
      hide Inv, View, Settled, PageAt, Agree;
      if cause == CAUSE_USER_ECALL {
        o := UserEcall(code);
      } else if cause == CAUSE_ILLEGAL_INSTRUCTION {
        if epc % 4 != 0 {
          return AssertionFailed;
        }
        o := if touchesFpu then Terminated(1) else AssertionFailed;
      } else if cause == CAUSE_FETCH_PAGE_FAULT || cause == CAUSE_LOAD_PAGE_FAULT || cause == CAUSE_STORE_PAGE_FAULT {
        o := HandleFault(badvaddr, cause);
      } else {
        o := AssertionFailed;
      }
    }

    /** The entries after the fault of page `n` was handled. */
    ghost predicate Faulted(was: seq<Pte>, before: seq<nat>, n: nat)
      requires Laid() && seed != STUCK && |was| == PTES_PER_PT && n < PTES_PER_PT
      reads `order, llpt
    {
      && |before| < MAX_TEST_PAGES
      && llpt[..] == was[n := FaultedEntry(was[n], Frame(seed, |before|))]
      && order == if was[n] == ZERO then before + [n] else before
    }

    // User accesses.

    /** Retries an access until the hardware lets it through on every page or a handler ends the
        test. The first page that does not permit it faults. */
    method Retry(a: Access) returns (faults: nat, o: Outcome)
      requires Valid() && Settled(Snapshot()) && IsAccess(a)
      modifies `head, `tail, `order, llpt, nodes, mapping, mem
      ensures Valid() && Agree(lay, UserView(), old(UserView()))
      ensures o == if UserAccess(a) then Resume else AssertionFailed
      ensures o == Resume ==>
                && Permits(llpt[a.va / PGSIZE], a.kind) && Permits(llpt[LastByte(a) / PGSIZE], a.kind)
                && EntriesAfter(old(llpt[..]), llpt[..], a) && Settled(Snapshot())
                && faults == FaultsNeeded(old(llpt[a.va / PGSIZE]), a.kind)
                           + (if LastByte(a) / PGSIZE == a.va / PGSIZE then 0
                              else FaultsNeeded(old(llpt[LastByte(a) / PGSIZE]), a.kind))
    {
      hide Inv, View, PageAt, Agree;
      ghost var before := llpt[..];
      AgreeSelf(lay, UserView());
      o := Resume;
      faults, o := RetryPage(a.kind, a.va);
      if o != Resume {
        return;
      }
      ghost var v, middle := UserView(), llpt[..];
      var last := LastByte(a) / PGSIZE * PGSIZE;
      if last / PGSIZE != a.va / PGSIZE {
        assert last / PGSIZE == LastByte(a) / PGSIZE;
        var more;
        more, o := RetryPage(a.kind, last);
        AgreeTwice(lay, UserView(), v, old(UserView()));
        faults := faults + more;
        if o == Resume {
          assert last / PGSIZE == LastByte(a) / PGSIZE && UserPage(LastByte(a));
        }
      }
    }

    /** What the hardware makes of an access of a page. */
    method Attempt(kind: Kind, va: nat) returns (through: bool)
      requires Valid() && va < ADDRESSES
      ensures through <==> UserPage(va) && Permits(llpt[va / PGSIZE], kind)
      ensures UserPage(va) ==> var pte := llpt[va / PGSIZE]; pte == ZERO || pte == UserLeaf(pte.ppn, pte.a, pte.d)
    {
      hide Inv, Walk, BootTables, PageAt;
      AccessGoesThroughIff(Snapshot(), seed, lay, home, order, ptPpn, va, kind);
      if UserPage(va) {
        EntryShape(Snapshot(), seed, lay, home, order, va / PGSIZE);
      }
      var t := Walk(BootTables(ptPpn, llpt[..]), va);
      through := t.Mapped? && Permits(t.pte, kind);
    }

    /** The same for one page of the access. */
    method RetryPage(kind: Kind, va: nat) returns (faults: nat, o: Outcome)
      requires Valid() && Settled(Snapshot()) && va < ADDRESSES
      modifies `head, `tail, `order, llpt, nodes, mapping, mem
      ensures Valid() && Agree(lay, UserView(), old(UserView()))
      ensures o == if UserPage(va) then Resume else AssertionFailed
      ensures forall p: nat | p < PTES_PER_PT && p != va / PGSIZE :: llpt[p] == old(llpt[p])
      ensures o == Resume ==>
                && Permits(llpt[va / PGSIZE], kind) && EntryAfter(old(llpt[va / PGSIZE]), llpt[va / PGSIZE], kind)
                && Settled(Snapshot()) && faults == FaultsNeeded(old(llpt[va / PGSIZE]), kind) <= 3
    {
      hide Inv, View, PageAt, Agree, UserEntries;
      ghost var n, v := va / PGSIZE, UserView();
      faults, o := 0, Resume;
      AgreeSelf(lay, v);
      InvSized(Snapshot(), seed, lay, home, order);
      while true
        invariant Valid() && Agree(lay, UserView(), v) && UserEntries(llpt[..]) && o == Resume
        invariant UserPage(va) ==> faults + FaultsNeeded(llpt[n], kind) == FaultsNeeded(old(llpt[n]), kind)
        invariant UserPage(va) ==> (llpt[n].d ==> old(llpt[n].d) || kind == Store) && (old(llpt[n].d) ==> llpt[n].d)
        invariant forall p: nat | p < PTES_PER_PT && p != n :: llpt[p] == old(llpt[p])
        decreases if UserPage(va) then FaultsNeeded(llpt[n], kind) else 0
      {
        var through := Attempt(kind, va);
        if through {
          return;
        }
        ghost var u := UserView();
        o := HandleTrap(CauseOf(kind), va, 0, false, 0);
        AgreeTwice(lay, UserView(), u, v);
        InvSized(Snapshot(), seed, lay, home, order);
        if o != Resume {
          return;
        }
        faults := faults + 1;
      }
    }

    /** One byte of an access, once the hardware lets it through. */
    method PerformByte(kind: Kind, va: nat, value: byte) returns (r: byte)
      requires Valid() && UserPage(va) && Permits(llpt[va / PGSIZE], kind)
      modifies mem
      ensures Valid() && UserView() == if kind == Store then FlatPut(old(UserView()), va, value) else old(UserView())
      ensures r == if kind == Store then value else FlatByte(old(UserView()), va)
    {
      hide Inv, Walk, BootTables, View, PageAt, FlatByte, FlatPut;
      ghost var m := Snapshot();
      AccessGoesThroughIff(m, seed, lay, home, order, ptPpn, va, kind);
      Located(m, va, kind);
      var k := PhysicalPage(va);
      var off := va % PGSIZE;
      if kind == Store {
        PutByte(k, off, value);
        StorePut(m, va, k, value, Snapshot());
        r := value;
      } else {
        r := mem[k * PGSIZE + off];
        ByteOfPage(mem[..], k, off);
      }
    }

    method PutByte(k: nat, off: nat, value: byte)
      requires Laid() && k < PAGES && off < PGSIZE
      modifies mem
      ensures PagesOf(mem[..]) == old(PagesOf(mem[..]))[k := old(PagesOf(mem[..])[k])[off := value]]
    {
      hide PageAt;
      ghost var was := mem[..];
      ByteWritten(was, k, off, value);
      mem[k * PGSIZE + off] := value;
      assert mem[..] == was[k * PGSIZE + off := value];
    }

    /** Where a permitted byte lies, and that the user sees it there. */
    lemma Located(m: Machine, va: nat, kind: Kind)
      requires Inv(m, seed, lay, home, order) && UserPage(va) && Sized(m) && Permits(m.llpt[va / PGSIZE], kind)
      ensures var k := m.llpt[va / PGSIZE].ppn - DRAM_PPN;
              && 0 <= k < PAGES && (m.llpt[va / PGSIZE].ppn * PGSIZE + va % PGSIZE) / PGSIZE - DRAM_PPN == k
              && FlatByte(View(m), va) == m.pages[k][va % PGSIZE]
    {
      EntryShape(m, seed, lay, home, order, va / PGSIZE);
      hide Inv;
    }

    lemma StorePut(m: Machine, va: nat, k: nat, value: byte, m': Machine)
      requires Inv(m, seed, lay, home, order) && UserPage(va) && Sized(m) && Permits(m.llpt[va / PGSIZE], Store)
      requires k < PAGES && m.llpt[va / PGSIZE].ppn == DRAM_PPN + k
      requires m' == m.(pages := m.pages[k := m.pages[k][va % PGSIZE := value]])
      ensures Inv(m', seed, lay, home, order) && View(m') == FlatPut(View(m), va, value)
    {
      EntryShape(m, seed, lay, home, order, va / PGSIZE);
      hide Inv, ViewOf;
      StoreKeepsInv(m, seed, lay, home, order, va / PGSIZE, m'.pages[k], m');
    }

    lemma ByteOfPage(bytes: seq<byte>, k: nat, off: nat)
      requires IsMemory(bytes) && k < PAGES && off < PGSIZE
      ensures bytes[k * PGSIZE + off] == PagesOf(bytes)[k][off]
    {
    }

    /** All bytes of an access, once the hardware lets it through. */
    method Perform(a: Access) returns (r: seq<byte>)
      requires Valid() && UserAccess(a)
      requires Permits(llpt[a.va / PGSIZE], a.kind) && Permits(llpt[LastByte(a) / PGSIZE], a.kind)
      modifies mem
      ensures Valid() && UserView() == FlatStep(old(UserView()), a)
      ensures BytesFlat(lay, UserView(), a, r)
    {
      hide Inv, View, FlatPut, FlatByte, FlatPart, FlatStep, PageAt, Permits, BytesFlat, Got;
      ghost var v := UserView();
      FlatPartEnds(v, a);
      r := [];
      for i := 0 to |a.data|
        invariant Valid() && |r| == i && UserView() == FlatPart(v, a, i)
        invariant forall j: nat | j < i :: Got(v, a, r, j)
      {
        ByteOnPage(a, i);
        FlatPartStep(v, a, i);
        PartKept(v, a, i);
        var b := PerformByte(a.kind, a.va + i, a.data[i]);
        GotMore(v, a, r, b);
        r := r + [b];
      }
      ReadBack(lay, v, a, r);
    }

    lemma PartKept(v: seq<Page>, a: Access, i: nat)
      requires |v| == MAX_TEST_PAGES && UserAccess(a) && i < |a.data|
      ensures UserPage(a.va + i) && (a.kind != Store ==> FlatPart(v, a, i) == v)
    {
    }

    lemma GotMore(v: seq<Page>, a: Access, r: seq<byte>, b: byte)
      requires |v| == MAX_TEST_PAGES && |r| < |a.data| && UserPage(a.va + |r|)
      requires forall j: nat | j < |r| :: Got(v, a, r, j)
      requires b == if a.kind == Store then a.data[|r|] else FlatByte(v, a.va + |r|)
      ensures forall j: nat | j < |r| + 1 :: Got(v, a, r + [b], j)
    {
      hide FlatByte;
      forall j: nat | j < |r| + 1 ensures Got(v, a, r + [b], j) {
        assert j < |r| ==> Got(v, a, r, j);
      }
    }

    /** One user-mode access: at most three faults a page, and the effect on flat memory. */
    method Do(a: Access) returns (r: seq<byte>, faults: nat, o: Outcome)
      requires Valid() && Settled(Snapshot()) && IsAccess(a)
      modifies `head, `tail, `order, llpt, nodes, mapping, mem
      ensures Valid()
      ensures o == if UserAccess(a) then Resume else AssertionFailed
      ensures o == Resume ==>
                && Settled(Snapshot()) && EntriesAfter(old(llpt[..]), llpt[..], a)
                && faults == FaultsNeeded(old(llpt[a.va / PGSIZE]), a.kind)
                           + (if LastByte(a) / PGSIZE == a.va / PGSIZE then 0
                              else FaultsNeeded(old(llpt[LastByte(a) / PGSIZE]), a.kind)) <= 6
                && Agree(lay, UserView(), FlatStep(old(UserView()), a))
                && BytesFlat(lay, FlatStep(old(UserView()), a), a, r)
      ensures o != Resume ==> Agree(lay, UserView(), old(UserView()))
    {
      hide Inv, View, PageAt, Agree, EntriesAfter, Permits, BytesFlat, FlatStep;
      r := [];
      ghost var v := UserView();
      faults, o := Retry(a);
      if o == Resume {
        ghost var u := UserView();
        r := Perform(a);
        AgreeStep(lay, u, v, a);
        AgreeBytes(lay, FlatStep(u, a), FlatStep(v, a), a, r);
        PageFaults(a);
      }
    }

    lemma PageFaults(a: Access)
      ensures forall pte :: FaultsNeeded(pte, a.kind) <= 3
    {
    }

    /** Any run of a user program on test pages: on pages the kernel leaves alone it reads what flat
        memory would give. */
    method RunUser(ops: seq<Access>) returns (results: seq<seq<byte>>)
      requires Valid() && EntriesTell(llpt[..], []) && UserRun(ops)
      modifies `head, `tail, `order, llpt, nodes, mapping, mem
      ensures Valid() && EntriesTell(llpt[..], ops)
      ensures Agree(lay, UserView(), FlatRun(old(UserView()), ops))
      ensures |results| == |ops|
      ensures forall i | 0 <= i < |ops| :: ReadsFlat(lay, old(UserView()), ops, i, results[i])
    {
      hide Inv, View, FlatStep, PageAt, Agree, EntriesTell, EntriesAfter, BytesFlat, UserPage;
      results := [];
      ghost var flat := UserView();
      AgreeSelf(lay, flat);
      for n := 0 to |ops|
        invariant Valid() && EntriesTell(llpt[..], ops[..n]) && |results| == n
        invariant Agree(lay, UserView(), FlatRun(flat, ops[..n]))
        invariant forall i | 0 <= i < n :: ReadsFlat(lay, flat, ops, i, results[i])
      {
        ghost var v, was := UserView(), llpt[..];
        TellsSettled(llpt[..], ops[..n]);
        var r, faults, o := Do(ops[n]);
        assert ops[..n + 1][..n] == ops[..n] && ops[..n + 1] == ops[..n] + [ops[n]];
        EntriesTellStep(was, llpt[..], ops[..n], ops[n]);
        AgreeStep(lay, v, FlatRun(flat, ops[..n]), ops[n]);
        AgreeTwice(lay, UserView(), FlatStep(v, ops[n]), FlatRun(flat, ops[..n + 1]));
        AgreeBytes(lay, FlatStep(v, ops[n]), FlatRun(flat, ops[..n + 1]), ops[n], r);
        results := results + [r];
      }
      assert ops[..|ops|] == ops;
    }

    lemma TellsSettled(entries: seq<Pte>, ops: seq<Access>)
      requires Laid() && entries == llpt[..] && EntriesTell(entries, ops)
      ensures Settled(Snapshot())
    {
    }

    // The end of the test.

    method SetNext(r: Ref, next: Ref)
      requires r != Null && r.index < MAX_TEST_PAGES && nodes.Length == mapping.Length == MAX_TEST_PAGES
      requires mapping != nodes
      modifies nodes, mapping
      ensures nodes[..] == if r.Free? then old(nodes[..])[r.index := old(nodes[r.index]).(next := next)] else old(nodes[..])
      ensures mapping[..] == if r.User? then old(mapping[..])[r.index := old(mapping[r.index]).(next := next)] else old(mapping[..])
    {
      match r
      case Free(k) => nodes[k] := nodes[k].(next := next);
      case User(k) => mapping[k] := mapping[k].(next := next);
    }

    /** Appends a page's node to the free list, its frame address cleared: the last node, if there is
        one, links to it, and it is the last one now. */
    method Queue(n: nat)
      requires n < MAX_TEST_PAGES == nodes.Length == mapping.Length && RefOk(tail) && mapping != nodes
      modifies `head, `tail, nodes, mapping
      ensures tail == User(n) && head == if old(tail) == Null then User(n) else old(head)
      ensures Queued(old(tail), old(nodes[..]), old(mapping[..]), nodes[..], mapping[..], n)
    {
      mapping[n] := mapping[n].(addr := 0);
      if tail == Null {
        head, tail := User(n), User(n);
      } else {
        SetNext(tail, User(n));
        tail := User(n);
      }
    }

    /** `evict` for a test page, with the pages below it already evicted from `m0`. It ends the
        test when the page was mapped but never accessed since, or is clean and differs from its home;
        the latter cannot be for a page the kernel leaves alone, and is so for the page of the table. */
    method Evict(va: nat, ghost m0: Machine) returns (o: Outcome)
      requires Laid() && UserPage(va) && Evicted(Snapshot(), m0, seed, lay, home, order, va / PGSIZE)
      modifies `head, `tail, nodes, mapping, mem
      ensures o == Resume || o == AssertionFailed
      ensures var n, pte := va / PGSIZE, m0.llpt[va / PGSIZE];
              && (pte == ZERO || (pte.a && (pte.d || n !in lay.kernel)) ==> o == Resume)
              && (pte != ZERO && (!pte.a || (!pte.d && n == lay.table)) ==> o == AssertionFailed)
      ensures o == Resume ==> Evicted(Snapshot(), m0, seed, lay, home, order, va / PGSIZE + 1)
      ensures o == Resume ==> tail == if m0.llpt[va / PGSIZE] != ZERO then User(va / PGSIZE) else old(tail)
      ensures o == Resume ==> head == if m0.llpt[va / PGSIZE] != ZERO && old(tail) == Null then User(va / PGSIZE) else old(head)
    {
      hide Evicted, EvictsPage, HomesOk, PageAt, FoundMapped;
      var addr := va / PGSIZE * PGSIZE;
      var n := addr / PGSIZE;
      ghost var was := Snapshot();
      KernelWrites();
      ghost var m := Snapshot();
      KernelKeepsEvicted(was, m0, seed, lay, home, order, n, m);
      EvictedPage(m, m0, seed, lay, home, order, n);
      EvictedFacts(m, m0, n);
      if mapping[n].addr != 0 {
        o := EvictNode(n);
        if o != Resume {
          return;
        }
      } else {
        NothingEvicted(m, n);
      }
      EvictionStep(m, m0, seed, lay, home, order, n, Snapshot());
      return Resume;
    }

    /** The same for a page that is mapped. */
    method EvictNode(n: nat) returns (o: Outcome)
      requires Laid() && UserEntries(llpt[..]) && 1 <= n < MAX_TEST_PAGES == |home| && RefOk(tail) && llpt[n] != ZERO
      requires FoundMapped(Snapshot(), lay, n) && HomesOk(llpt[..], PagesOf(mem[..]), lay, home)
      modifies `head, `tail, nodes, mapping, mem
      ensures o == Resume || o == AssertionFailed
      ensures llpt[n].a && (llpt[n].d || n !in lay.kernel) ==> o == Resume
      ensures !llpt[n].a || (!llpt[n].d && n == lay.table) ==> o == AssertionFailed
      ensures o == Resume ==> EvictsPage(old(Snapshot()), lay, home, n, Snapshot())
      ensures o == Resume ==> tail == User(n) && head == if old(tail) == Null then User(n) else old(head)
    {
      hide HomesOk, PageAt, FoundMapped, Queued;
      ghost var m := Snapshot();
      if !llpt[n].a {
        return AssertionFailed;
      }
      FoundIs(m, n);
      assert n * PGSIZE / PGSIZE == n;
      var ok := RestorePage(n * PGSIZE);
      if !ok {
        return AssertionFailed;
      }
      ghost var last, nodesBefore, before := tail, nodes[..], mapping[..];
      Queue(n);
      AddressesQueued(last, nodesBefore, before, nodes[..], mapping[..], n);
      RestoredHomes(m, n, Snapshot());
      return Resume;
    }

    lemma NothingEvicted(m: Machine, n: nat)
      requires Sized(m) && n < MAX_TEST_PAGES == |home| && RefOk(m.tail) && HomesOk(m.llpt, m.pages, lay, home)
      requires m.llpt[n] == ZERO && m.mapping[n].addr == 0
      ensures EvictsPage(m, lay, home, n, m)
    {
      hide HomesOk;
    }

    lemma EvictedFacts(m: Machine, m0: Machine, n: nat)
      requires Evicted(m, m0, seed, lay, home, order, n)
      ensures Sized(m) && m.llpt == m0.llpt && RefOk(m.tail) && |home| == MAX_TEST_PAGES
      ensures HomesOk(m.llpt, m.pages, lay, home)
    {
      InvSized(m0, seed, lay, home, order);
    }

    lemma FoundIs(m: Machine, n: nat)
      requires Sized(m) && n < MAX_TEST_PAGES && FoundMapped(m, lay, n)
      ensures var pte := m.llpt[n];
              && InFrames(pte.ppn) && pte == UserLeaf(pte.ppn, pte.a, pte.d)
              && (!pte.d && n !in lay.kernel ==> m.pages[pte.ppn - DRAM_PPN] == m.pages[n])
              && (!pte.d && n == lay.table ==> m.pages[pte.ppn - DRAM_PPN] != m.pages[n])
    {
    }

    lemma RestoredHomes(m: Machine, n: nat, m': Machine)
      requires Sized(m) && Sized(m') && n < MAX_TEST_PAGES == |home| && InFrames(m.llpt[n].ppn) && GoodLayout(lay)
      requires HomesOk(m.llpt, m.pages, lay, home) && m'.llpt == m.llpt
      requires m'.pages == m.pages[m.llpt[n].ppn - DRAM_PPN := m.pages[n]]
      ensures HomesOk(m'.llpt, m'.pages, lay, home)
      ensures n !in lay.kernel ==> m'.pages[m.llpt[n].ppn - DRAM_PPN] == home[n]
    {
    }

    /** A frame that differs from its home must be dirty; it is overwritten with its home. */
    method RestorePage(addr: nat) returns (ok: bool)
      requires Laid() && UserEntries(llpt[..])
      requires UserPage(addr) && addr % PGSIZE == 0 && KernelPermits(llpt[addr / PGSIZE], llpt[addr / PGSIZE].d)
      requires InFrames(llpt[addr / PGSIZE].ppn)
      modifies mem
      ensures var n, f := addr / PGSIZE, llpt[addr / PGSIZE].ppn - DRAM_PPN;
              && ok == (llpt[n].d || old(PagesOf(mem[..])[f]) == old(PagesOf(mem[..])[n]))
              && (ok ==> PagesOf(mem[..]) == old(PagesOf(mem[..]))[f := old(PagesOf(mem[..])[n])])
    {
      hide PageAt;
      var differ := PageDiffers(addr, Uva2Kva(addr));
      if differ {
        if !llpt[addr / PGSIZE].d {
          return false;
        }
        CopyPage(addr, Uva2Kva(addr));
      }
      return true;
    }

    /** The environment call that ends a test: every page is evicted, then the test's exit code is
        reported. What the program stored is gone: each frame holds its page's home again. An
        assertion fails on the way when a touched page was not accessed, or when the page of the table
        was touched and not stored to; none fails when every touched page that the kernel writes was
        stored to. */
    method UserEcall(code: int) returns (o: Outcome)
      requires Valid()
      modifies `head, `tail, nodes, mapping, mem
      ensures llpt[..] == old(llpt[..])
      ensures o == Terminated(code) || o == AssertionFailed
      ensures Settled(old(Snapshot())) && (forall n | n in lay.kernel :: llpt[n] == ZERO || llpt[n].d) ==> o == Terminated(code)
      ensures !Settled(old(Snapshot())) || (llpt[lay.table] != ZERO && !llpt[lay.table].d) ==> o == AssertionFailed
      ensures o == Terminated(code) ==> Agree(lay, UserView(), home)
    {
      hide Inv, Evicted, View, PageAt, Agree;
      ghost var m0 := Snapshot();
      InvSized(m0, seed, lay, home, order);
      EvictionStarts(m0, seed, lay, home, order);
      forall n: nat | n < PTES_PER_PT && (n == 0 || MAX_TEST_PAGES <= n) ensures m0.llpt[n] == ZERO {
        EntryShape(m0, seed, lay, home, order, n);
      }
      var i := 1;
      while i < MAX_TEST_PAGES
        invariant 1 <= i <= MAX_TEST_PAGES && Evicted(Snapshot(), m0, seed, lay, home, order, i)
        invariant forall n | 0 <= n < i :: m0.llpt[n] == ZERO || (m0.llpt[n].a && (m0.llpt[n].d || n != lay.table))
      {
        assert i * PGSIZE / PGSIZE == i;
        o := Evict(i * PGSIZE, m0);
        if o != Resume {
          return;
        }
        i := i + 1;
      }
      EvictionDone(Snapshot(), m0, seed, lay, home, order);
      return Terminated(code);
    }
  }

  /** Access `i` of a run reads what flat memory would give. */
  predicate ReadsFlat(lay: Layout, flat: seq<Page>, ops: seq<Access>, i: nat, r: seq<byte>)
    requires |flat| == MAX_TEST_PAGES && UserRun(ops) && i < |ops|
  {
    BytesFlat(lay, FlatRun(flat, ops[..i + 1]), ops[i], r)
  }
}
