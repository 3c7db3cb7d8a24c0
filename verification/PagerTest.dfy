/** Whole tests in the virtual-memory environment: boot, a user program, the environment call. */
module PagerTest {
  import opened Bytes
  import opened PageTables
  import opened PagedMemory
  import opened PagerState
  import opened Vm = Pager

  function HomesIn(memory: seq<byte>): (home: seq<Page>)
    requires IsMemory(memory)
    ensures |home| == MAX_TEST_PAGES
  {
    PagesOf(memory)[..MAX_TEST_PAGES]
  }

  lemma {:induction false} AgreeRun(lay: Layout, v: seq<Page>, w: seq<Page>, ops: seq<Access>)
    requires Agree(lay, v, w) && UserRun(ops)
    ensures Agree(lay, FlatRun(v, ops), FlatRun(w, ops))
  {
    hide FlatStep;
    if ops != [] {
      var front, a := ops[..|ops| - 1], ops[|ops| - 1];
      AgreeRun(lay, v, w, front);
      AgreeStep(lay, FlatRun(v, front), FlatRun(w, front), a);
    } else {
      assert FlatRun(v, ops) == v && FlatRun(w, ops) == w;
    }
  }

  lemma ReadsFlatAgree(lay: Layout, v: seq<Page>, w: seq<Page>, ops: seq<Access>, i: nat, r: seq<byte>)
    requires Agree(lay, v, w) && UserRun(ops) && i < |ops| && ReadsFlat(lay, v, ops, i, r)
    ensures ReadsFlat(lay, w, ops, i, r)
  {
    hide BytesFlat, FlatRun;
    AgreeRun(lay, v, w, ops[..i + 1]);
    AgreeBytes(lay, FlatRun(v, ops[..i + 1]), FlatRun(w, ops[..i + 1]), ops[i], r);
  }

  /** Every page the kernel writes is stored to if it is touched. */
  predicate KernelPagesStored(lay: Layout, ops: seq<Access>) {
    forall n | n in lay.kernel :: AnyTouches(ops, n) ==> AnyStores(ops, n)
  }

  /** The page of the table is touched, but only loaded or fetched from. */
  predicate TableReadOnly(lay: Layout, ops: seq<Access>) {
    lay.table != ELSEWHERE && AnyTouches(ops, lay.table) && !AnyStores(ops, lay.table)
  }

  /** A test from boot to its environment call, for any program of accesses to test pages. On pages
      the kernel leaves alone every byte read is that of flat memory started from the homes. The test
      ends with its exit code if every touched page the kernel writes is stored to, and at a failed
      assertion if the page of the table is touched without. */
  method RunTest(ptPpn: nat, lay: Layout, entropy: nat, memory: seq<byte>, ops: seq<Access>, code: int)
    returns (results: seq<seq<byte>>, o: Outcome)
    requires IsMemory(memory) && GoodLayout(lay) && UserRun(ops)
    ensures |results| == |ops|
    ensures forall i: nat | i < |ops| :: ReadsFlat(lay, HomesIn(memory), ops, i, results[i])
    ensures o == Terminated(code) || o == AssertionFailed
    ensures KernelPagesStored(lay, ops) ==> o == Terminated(code)
    ensures TableReadOnly(lay, ops) ==> o == AssertionFailed
    ensures lay.kernel <= {lay.table} ==> (o == AssertionFailed <==> TableReadOnly(lay, ops))
  {
    hide ReadsFlat, AnyTouches, AnyStores, Inv, View, Agree, EntriesTell, FlatRun, PageAt;
    var p := new Vm.Pager(ptPpn, lay, entropy, memory);
    NothingTold(p.llpt[..]);
    ghost var v, home := p.UserView(), HomesIn(memory);
    results := p.RunUser(ops);
    forall i: nat | i < |ops| ensures ReadsFlat(lay, home, ops, i, results[i]) {
      ReadsFlatAgree(lay, v, home, ops, i, results[i]);
    }
    ghost var entries := p.llpt[..];
    p.TellsSettled(entries, ops);
    Told(entries, lay, ops);
    if lay.kernel <= {lay.table} {
      TableIsKernel(lay, ops);
    }
    o := p.HandleTrap(8, 0, 0, false, code);
  }

  lemma NothingTold(entries: seq<Pte>)
    requires forall n | 0 <= n < |entries| :: entries[n] == ZERO
    ensures EntriesTell(entries, [])
  {
  }

  /** What the entries say at the environment call. */
  lemma Told(entries: seq<Pte>, lay: Layout, ops: seq<Access>)
    requires |entries| == PTES_PER_PT && EntriesTell(entries, ops) && GoodLayout(lay)
    ensures (forall n | n in lay.kernel :: n < PTES_PER_PT && (entries[n] == ZERO || entries[n].d)) <==> KernelPagesStored(lay, ops)
    ensures lay.table != ELSEWHERE ==> (entries[lay.table] != ZERO && !entries[lay.table].d <==> TableReadOnly(lay, ops))
  {
    hide AnyTouches, AnyStores;
  }

  lemma TableIsKernel(lay: Layout, ops: seq<Access>)
    requires GoodLayout(lay) && lay.kernel <= {lay.table}
    ensures KernelPagesStored(lay, ops) <==> !TableReadOnly(lay, ops)
  {
    hide AnyTouches, AnyStores;
  }

  /** The failing input: a load from the page that holds the table of user entries, then the
      environment call. */
  method LoadFromTable(ptPpn: nat, lay: Layout, entropy: nat, memory: seq<byte>, off: nat, code: int) returns (o: Outcome)
    requires IsMemory(memory) && GoodLayout(lay) && 1 <= lay.table != ELSEWHERE && off < PGSIZE
    ensures o == AssertionFailed
  {
    var load := Access(Load, lay.table * PGSIZE + off, [0]);
    assert load.va / PGSIZE == lay.table && UserAccess(load);
    assert Touches([load][0], lay.table);
    var results;
    results, o := RunTest(ptPpn, lay, entropy, memory, [load], code);
  }
}
