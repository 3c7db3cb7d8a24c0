/** The demand pager of the virtual-memory test environment as plain values: the invariant its
    handlers keep, and the flat memory a user program sees through it. */
module PagerState {
  import opened Bytes
  import opened PageTables
  import opened PagedMemory
  import opened Lfsr

  /** Where the kernel's own data lie: the home pages it writes, and among them the one that holds the
      table of user entries, or `ELSEWHERE`. Code and data of a test are linked together with the
      kernel's, so some home pages do hold them. */
  datatype Layout = Layout(kernel: set<nat>, table: nat)

  const ELSEWHERE := MAX_TEST_PAGES

  predicate GoodLayout(lay: Layout) {
    && (forall n | n in lay.kernel :: n < MAX_TEST_PAGES)
    && lay.table <= ELSEWHERE && (lay.table != ELSEWHERE ==> lay.table in lay.kernel)
  }

  /** A pointer to a list node: one of `freelist_nodes`, one of `user_mapping`, or null. */
  datatype Ref = Null | Free(index: nat) | User(index: nat)

  datatype Node = Node(addr: nat, next: Ref)

  const NO_NODE := Node(0, Null)

  /** `pages` are the physical pages from the start of memory. */
  datatype Machine = Machine(
    llpt: seq<Pte>,
    mapping: seq<Node>,
    nodes: seq<Node>,
    head: Ref,
    tail: Ref,
    pages: seq<Page>)

  /** The physical page of the frame in list node `k`, counted from the start of memory. */
  function Frame(seed: Reg, k: nat): (f: nat)
    requires seed != STUCK
    ensures MAX_TEST_PAGES < f < PAGES
  {
    NeverStuck(seed, k);
    MAX_TEST_PAGES + Value(Iterate(seed, k))
  }

  function FrameAddr(seed: Reg, k: nat): nat
    requires seed != STUCK
  {
    DRAM_BASE + Frame(seed, k) * PGSIZE
  }

  lemma FramesDistinct(seed: Reg, i: nat, j: nat)
    requires seed != STUCK && i < MAX_TEST_PAGES && j < MAX_TEST_PAGES && i != j
    ensures Frame(seed, i) != Frame(seed, j)
  {
    OrbitDistinct(seed, if i < j then i else j, if i < j then j else i);
  }

  predicate Sized(m: Machine) {
    && |m.llpt| == PTES_PER_PT && |m.mapping| == |m.nodes| == MAX_TEST_PAGES && |m.pages| == PAGES
  }

  function ListNode(seed: Reg, k: nat): Node
    requires seed != STUCK
  {
    Node(FrameAddr(seed, k), if k + 1 < MAX_TEST_PAGES then Free(k + 1) else Null)
  }

  /** The pages that were mapped, in the order of their first touch. */
  predicate Touched(order: seq<nat>) {
    && (forall k | 0 <= k < |order| :: 1 <= order[k] < MAX_TEST_PAGES)
    && (forall k, l | 0 <= k < l < |order| :: order[k] != order[l])
  }

  /** The free list is the suffix of the nodes not yet handed out. Its tail is forgotten when one
      node is left. */
  predicate FreeList(m: Machine, seed: Reg, handed: nat)
    requires seed != STUCK && Sized(m)
  {
    && handed < MAX_TEST_PAGES
    && (forall k | 0 <= k < MAX_TEST_PAGES :: m.nodes[k] == ListNode(seed, k))
    && m.head == Free(handed)
    && m.tail == if handed + 1 < MAX_TEST_PAGES then Free(MAX_TEST_PAGES - 1) else Null
  }

  /** A frame that was filled and not stored to since. That of the table's page was filled while the
      entry for it was dirty. */
  predicate CleanFrame(page: Page, lay: Layout, home: seq<Page>, n: nat)
    requires n < MAX_TEST_PAGES == |home|
  {
    && (n !in lay.kernel ==> page == home[n])
    && (n == lay.table ==> DirtyByte(page[8 * n]))
  }

  /** The page touched as number `k` lies in the frame of node `k`. */
  predicate InFrame(m: Machine, seed: Reg, lay: Layout, home: seq<Page>, n: nat, k: nat)
    requires seed != STUCK && Sized(m) && n < MAX_TEST_PAGES == |home|
  {
    var pte := m.llpt[n];
    && pte == UserLeaf(DRAM_PPN + Frame(seed, k), pte.a, pte.d)
    && m.mapping[n] == ListNode(seed, k)
    && (!pte.d ==> CleanFrame(m.pages[Frame(seed, k)], lay, home, n))
  }

  /** The home pages the kernel leaves alone are as they were, and the table's page is the table. */
  predicate HomesOk(llpt: seq<Pte>, pages: seq<Page>, lay: Layout, home: seq<Page>)
    requires |llpt| == PTES_PER_PT && |pages| == PAGES && |home| == MAX_TEST_PAGES
  {
    && (forall n | 0 <= n < MAX_TEST_PAGES && n !in lay.kernel :: pages[n] == home[n])
    && (lay.table < MAX_TEST_PAGES ==> pages[lay.table] == TablePage(llpt))
  }

  ghost predicate Inv(m: Machine, seed: Reg, lay: Layout, home: seq<Page>, order: seq<nat>) {
    && seed != STUCK && Sized(m) && GoodLayout(lay) && |home| == MAX_TEST_PAGES && Touched(order)
    && FreeList(m, seed, |order|)
    && HomesOk(m.llpt, m.pages, lay, home)
    && (forall k | 0 <= k < |order| :: InFrame(m, seed, lay, home, order[k], k))
    && (forall n: nat | n < PTES_PER_PT && n !in order :: m.llpt[n] == ZERO)
    && (forall n: nat | n < MAX_TEST_PAGES && n !in order :: m.mapping[n] == NO_NODE)
  }

  lemma {:induction false} PagesBound(order: seq<nat>, top: nat)
    requires forall k | 0 <= k < |order| :: 1 <= order[k] <= top
    requires forall k, l | 0 <= k < l < |order| :: order[k] != order[l]
    ensures |order| <= top
    decreases top
  {
    if order != [] {
      assert 1 <= order[0] <= top;
      if k :| 0 <= k < |order| && order[k] == top {
        PagesBound(order[..k] + order[k + 1..], top - 1);
      } else {
        PagesBound(order, top - 1);
      }
    }
  }

  /** A page not touched yet leaves a node for it. */
  lemma RoomForPage(order: seq<nat>, n: nat)
    requires Touched(order) && 1 <= n < MAX_TEST_PAGES && n !in order
    ensures Touched(order + [n]) && |order| + 1 < MAX_TEST_PAGES
  {
    PagesBound(order + [n], MAX_TEST_PAGES - 1);
  }

  /** What a user sees at page `n`: its frame, or its home while it has none. */
  function ViewOf(m: Machine, n: nat): Page
    requires Sized(m) && n < MAX_TEST_PAGES
  {
    var pte := m.llpt[n];
    if pte == ZERO || pte.ppn < DRAM_PPN || DRAM_PPN + PAGES <= pte.ppn then m.pages[n]
    else m.pages[pte.ppn - DRAM_PPN]
  }

  function View(m: Machine): (v: seq<Page>)
    requires Sized(m)
    ensures |v| == MAX_TEST_PAGES
    ensures forall n | 0 <= n < |v| :: v[n] == ViewOf(m, n)
  {
    seq(MAX_TEST_PAGES, n requires 0 <= n < MAX_TEST_PAGES => ViewOf(m, n))
  }

  /** Two memories are the same but for the pages the kernel writes. */
  predicate Agree(lay: Layout, v: seq<Page>, w: seq<Page>) {
    |v| == |w| == MAX_TEST_PAGES && forall n | 0 <= n < MAX_TEST_PAGES && n !in lay.kernel :: v[n] == w[n]
  }

  lemma MappedPage(m: Machine, seed: Reg, lay: Layout, home: seq<Page>, order: seq<nat>, n: nat) returns (k: nat)
    requires Inv(m, seed, lay, home, order) && n < PTES_PER_PT && m.llpt[n] != ZERO
    ensures 1 <= n < MAX_TEST_PAGES && k < |order| && order[k] == n && InFrame(m, seed, lay, home, n, k)
    ensures ViewOf(m, n) == m.pages[Frame(seed, k)]
  {
    assert n in order;
    k :| 0 <= k < |order| && order[k] == n;
    assert InFrame(m, seed, lay, home, order[k], k);
  }

  lemma InvSized(m: Machine, seed: Reg, lay: Layout, home: seq<Page>, order: seq<nat>)
    requires Inv(m, seed, lay, home, order)
    ensures seed != STUCK && Sized(m) && |home| == MAX_TEST_PAGES && UserEntries(m.llpt) && GoodLayout(lay)
    ensures HomesOk(m.llpt, m.pages, lay, home)
  {
    forall n: nat | n < PTES_PER_PT ensures m.llpt[n] == ZERO || (m.llpt[n].v && m.llpt[n].r) {
      if m.llpt[n] != ZERO {
        var k := MappedPage(m, seed, lay, home, order, n);
      }
    }
  }

  /** The head of the free list always has a frame for a page that has none. */
  lemma NextNode(m: Machine, seed: Reg, lay: Layout, home: seq<Page>, order: seq<nat>, n: nat)
    requires Inv(m, seed, lay, home, order) && 1 <= n < MAX_TEST_PAGES && m.llpt[n] == ZERO
    ensures |order| < MAX_TEST_PAGES && m.head == Free(|order|)
    ensures m.nodes[|order|].addr == FrameAddr(seed, |order|) && m.mapping[n] == NO_NODE
    ensures n !in order
  {
    forall k | 0 <= k < |order| ensures order[k] != n {
      assert InFrame(m, seed, lay, home, order[k], k);
    }
  }

  /** What happens to another page and another frame does not concern a mapped page. */
  lemma OtherFrameKept(m: Machine, seed: Reg, lay: Layout, home: seq<Page>, order: seq<nat>, i: nat, m': Machine)
    requires Inv(m, seed, lay, home, order) && i < |order| && Sized(m')
    requires m'.llpt[order[i]] == m.llpt[order[i]] && m'.mapping[order[i]] == m.mapping[order[i]]
    requires m'.pages[Frame(seed, i)] == m.pages[Frame(seed, i)]
    ensures InFrame(m', seed, lay, home, order[i], i) && ViewOf(m', order[i]) == ViewOf(m, order[i])
  {
    hide Frame, ListNode, CleanFrame;
    assert InFrame(m, seed, lay, home, order[i], i);
  }

  /** The machine after the first touch of page `n`. */
  predicate MapsPage(m: Machine, seed: Reg, lay: Layout, home: seq<Page>, n: nat, k: nat, m': Machine)
    requires seed != STUCK && Sized(m) && n < MAX_TEST_PAGES == |home| && k < MAX_TEST_PAGES
  {
    && Sized(m')
    && m'.llpt == m.llpt[n := UserLeaf(DRAM_PPN + Frame(seed, k), false, false)]
    && m'.mapping == m.mapping[n := m.nodes[k]] && m'.nodes == m.nodes
    && m'.head == m.nodes[k].next && m'.tail == (if m.nodes[k].next == m.tail then Null else m.tail)
    && HomesOk(m'.llpt, m'.pages, lay, home)
    && CleanFrame(m'.pages[Frame(seed, k)], lay, home, n)
    && (forall f: nat | MAX_TEST_PAGES <= f < PAGES && f != Frame(seed, k) :: m'.pages[f] == m.pages[f])
  }

  lemma MapKeepsInv(m: Machine, seed: Reg, lay: Layout, home: seq<Page>, order: seq<nat>, n: nat, m': Machine)
    requires Inv(m, seed, lay, home, order) && 1 <= n < MAX_TEST_PAGES && m.llpt[n] == ZERO
    requires MapsPage(m, seed, lay, home, n, |order|, m')
    ensures n !in order && Inv(m', seed, lay, home, order + [n])
    ensures Agree(lay, View(m'), View(m))
  {
    NextNode(m, seed, lay, home, order, n);
    RoomForPage(order, n);
    forall i: nat | i <= |order| ensures InFrame(m', seed, lay, home, (order + [n])[i], i) {
      if i < |order| {
        FramesDistinct(seed, i, |order|);
        OtherFrameKept(m, seed, lay, home, order, i, m');
      } else {
        assert InFrame(m', seed, lay, home, n, i);
      }
    }
    MapKeepsView(m, seed, lay, home, order, n, m');
    hide InFrame, ViewOf, Frame, FrameAddr, ListNode, CleanFrame, HomesOk;
  }

  /** A page that gets a frame with its home in it looks as before, and so do all others. */
  lemma MapKeepsView(m: Machine, seed: Reg, lay: Layout, home: seq<Page>, order: seq<nat>, n: nat, m': Machine)
    requires Inv(m, seed, lay, home, order) && 1 <= n < MAX_TEST_PAGES && m.llpt[n] == ZERO
    requires MapsPage(m, seed, lay, home, n, |order|, m')
    ensures Agree(lay, View(m'), View(m))
  {
    hide Frame, ListNode;
    forall p: nat | p < MAX_TEST_PAGES && p !in lay.kernel ensures ViewOf(m', p) == ViewOf(m, p) {
      if p != n && m.llpt[p] != ZERO {
        var i := MappedPage(m, seed, lay, home, order, p);
        FramesDistinct(seed, i, |order|);
        OtherFrameKept(m, seed, lay, home, order, i, m');
      }
    }
  }

  /** The kernel's own writes. */
  lemma KernelKeepsInv(m: Machine, seed: Reg, lay: Layout, home: seq<Page>, order: seq<nat>, m': Machine)
    requires Inv(m, seed, lay, home, order) && Sized(m') && m' == m.(pages := m'.pages)
    requires forall p: nat | p < PAGES && (p !in lay.kernel || p == lay.table) :: m'.pages[p] == m.pages[p]
    ensures Inv(m', seed, lay, home, order) && Agree(lay, View(m'), View(m))
  {
    hide Frame, ListNode, CleanFrame;
    forall i: nat | i < |order| ensures InFrame(m', seed, lay, home, order[i], i) {
      OtherFrameKept(m, seed, lay, home, order, i, m');
    }
    forall p: nat | p < MAX_TEST_PAGES && p !in lay.kernel ensures ViewOf(m', p) == ViewOf(m, p) {
      if m.llpt[p] != ZERO {
        var i := MappedPage(m, seed, lay, home, order, p);
      }
    }
    hide InFrame, Frame, ListNode, ViewOf;
  }

  /** Setting an accessed or dirty bit. */
  lemma FlagKeepsInv(m: Machine, seed: Reg, lay: Layout, home: seq<Page>, order: seq<nat>, n: nat, pte: Pte, m': Machine)
    requires Inv(m, seed, lay, home, order) && n < PTES_PER_PT && m.llpt[n] != ZERO
    requires pte == m.llpt[n].(a := pte.a, d := pte.d) && (m.llpt[n].d ==> pte.d)
    requires Sized(m') && m' == m.(llpt := m.llpt[n := pte], pages := m'.pages)
    requires HomesOk(m'.llpt, m'.pages, lay, home)
    requires forall f: nat | MAX_TEST_PAGES <= f < PAGES :: m'.pages[f] == m.pages[f]
    ensures Inv(m', seed, lay, home, order)
    ensures Agree(lay, View(m'), View(m))
  {
    hide Frame, ListNode, HomesOk, CleanFrame;
    var j := MappedPage(m, seed, lay, home, order, n);
    forall i: nat | i < |order| ensures InFrame(m', seed, lay, home, order[i], i) {
      assert InFrame(m, seed, lay, home, order[i], i);
      assert order[i] == n ==> i == j;
    }
    FlagKeepsView(m, seed, lay, home, order, n, pte, m');
    hide InFrame, ViewOf;
  }

  lemma FlagKeepsView(m: Machine, seed: Reg, lay: Layout, home: seq<Page>, order: seq<nat>, n: nat, pte: Pte, m': Machine)
    requires Inv(m, seed, lay, home, order) && n < PTES_PER_PT && m.llpt[n] != ZERO
    requires pte == m.llpt[n].(a := pte.a, d := pte.d)
    requires Sized(m') && m'.llpt == m.llpt[n := pte] && HomesOk(m'.llpt, m'.pages, lay, home)
    requires forall f: nat | MAX_TEST_PAGES <= f < PAGES :: m'.pages[f] == m.pages[f]
    ensures Agree(lay, View(m'), View(m))
  {
    hide Frame, ListNode;
    forall p: nat | p < MAX_TEST_PAGES && p !in lay.kernel ensures ViewOf(m', p) == ViewOf(m, p) {
      if m.llpt[p] != ZERO {
        var i := MappedPage(m, seed, lay, home, order, p);
      }
    }
  }

  /** A store through a dirty entry changes the page it is meant for and no other. */
  lemma StoreKeepsInv(m: Machine, seed: Reg, lay: Layout, home: seq<Page>, order: seq<nat>, n: nat, data: Page, m': Machine)
    requires Inv(m, seed, lay, home, order) && n < PTES_PER_PT && m.llpt[n] != ZERO && m.llpt[n].d
    requires DRAM_PPN <= m.llpt[n].ppn < DRAM_PPN + PAGES
    requires m' == m.(pages := m.pages[m.llpt[n].ppn - DRAM_PPN := data])
    ensures n < MAX_TEST_PAGES && Inv(m', seed, lay, home, order)
    ensures View(m') == View(m)[n := data]
  {
    hide CleanFrame;
    var j := MappedPage(m, seed, lay, home, order, n);
    forall i: nat | i < |order| ensures InFrame(m', seed, lay, home, order[i], i) {
      assert InFrame(m, seed, lay, home, order[i], i);
      if i != j {
        FramesDistinct(seed, i, j);
      }
    }
    StoreView(m, seed, lay, home, order, n, data, m');
    hide InFrame, ViewOf, Frame, ListNode;
  }

  lemma StoreView(m: Machine, seed: Reg, lay: Layout, home: seq<Page>, order: seq<nat>, n: nat, data: Page, m': Machine)
    requires Inv(m, seed, lay, home, order) && n < PTES_PER_PT && m.llpt[n] != ZERO
    requires DRAM_PPN <= m.llpt[n].ppn < DRAM_PPN + PAGES
    requires m' == m.(pages := m.pages[m.llpt[n].ppn - DRAM_PPN := data])
    ensures n < MAX_TEST_PAGES && View(m') == View(m)[n := data]
  {
    hide Frame, ListNode, CleanFrame;
    var j := MappedPage(m, seed, lay, home, order, n);
    forall p: nat | p < MAX_TEST_PAGES ensures ViewOf(m', p) == if p == n then data else ViewOf(m, p) {
      if p != n && m.llpt[p] != ZERO {
        var i := MappedPage(m, seed, lay, home, order, p);
        FramesDistinct(seed, i, j);
      }
    }
  }

  // Memory as the user means it.

  datatype Kind = Fetch | Load | Store

  /** A user-mode access; of `data` only the length matters unless it is a store. */
  datatype Access = Access(kind: Kind, va: nat, data: seq<byte>)

  predicate UserPage(va: nat) {
    PGSIZE <= va < MAX_TEST_PAGES * PGSIZE
  }

  function LastByte(a: Access): nat
    requires a.data != []
  {
    a.va + |a.data| - 1
  }

  /** One to eight bytes, which may straddle two pages. */
  predicate IsAccess(a: Access) {
    1 <= |a.data| <= 8 && a.va + |a.data| <= ADDRESSES
  }

  predicate UserAccess(a: Access) {
    IsAccess(a) && UserPage(a.va) && UserPage(LastByte(a))
  }

  predicate Touches(a: Access, n: nat) {
    IsAccess(a) && (a.va / PGSIZE == n || LastByte(a) / PGSIZE == n)
  }

  /** Flat memory: no translation, no faults. */
  function FlatByte(flat: seq<Page>, va: nat): byte
    requires |flat| == MAX_TEST_PAGES && UserPage(va)
  {
    flat[va / PGSIZE][va % PGSIZE]
  }

  function FlatPut(flat: seq<Page>, va: nat, b: byte): (r: seq<Page>)
    requires |flat| == MAX_TEST_PAGES && UserPage(va)
    ensures |r| == MAX_TEST_PAGES
  {
    flat[va / PGSIZE := flat[va / PGSIZE][va % PGSIZE := b]]
  }

  function FlatWrite(flat: seq<Page>, va: nat, data: seq<byte>): (r: seq<Page>)
    requires |flat| == MAX_TEST_PAGES && (data != [] ==> UserPage(va) && UserPage(va + |data| - 1))
    ensures |r| == MAX_TEST_PAGES
  {
    if data == [] then flat
    else FlatPut(FlatWrite(flat, va, data[..|data| - 1]), va + |data| - 1, data[|data| - 1])
  }

  function FlatStep(flat: seq<Page>, a: Access): (r: seq<Page>)
    requires |flat| == MAX_TEST_PAGES && UserAccess(a)
    ensures |r| == MAX_TEST_PAGES
  {
    if a.kind == Store then FlatWrite(flat, a.va, a.data) else flat
  }

  predicate UserRun(ops: seq<Access>) {
    forall i | 0 <= i < |ops| :: UserAccess(ops[i])
  }

  function FlatRun(flat: seq<Page>, ops: seq<Access>): (r: seq<Page>)
    requires |flat| == MAX_TEST_PAGES && UserRun(ops)
    ensures |r| == MAX_TEST_PAGES
  {
    if ops == [] then flat else FlatStep(FlatRun(flat, ops[..|ops| - 1]), ops[|ops| - 1])
  }

  lemma AgreePut(lay: Layout, v: seq<Page>, w: seq<Page>, va: nat, b: byte)
    requires Agree(lay, v, w) && UserPage(va)
    ensures Agree(lay, FlatPut(v, va, b), FlatPut(w, va, b))
  {
  }

  /** A byte put somewhere is the byte read there, and no other byte changes. */
  lemma FlatPutIs(flat: seq<Page>, va: nat, b: byte, other: nat)
    requires |flat| == MAX_TEST_PAGES && UserPage(va) && UserPage(other)
    ensures FlatByte(FlatPut(flat, va, b), other) == if other == va then b else FlatByte(flat, other)
  {
    assert other == other / PGSIZE * PGSIZE + other % PGSIZE && va == va / PGSIZE * PGSIZE + va % PGSIZE;
  }

  /** A written range reads as the data, everything else as before. */
  lemma {:induction false} FlatWriteIs(flat: seq<Page>, va: nat, data: seq<byte>, other: nat)
    requires |flat| == MAX_TEST_PAGES && (data != [] ==> UserPage(va) && UserPage(va + |data| - 1)) && UserPage(other)
    ensures FlatByte(FlatWrite(flat, va, data), other)
         == if va <= other < va + |data| then data[other - va] else FlatByte(flat, other)
  {
    hide FlatByte, FlatPut;
    if data != [] {
      var front := data[..|data| - 1];
      FlatWriteIs(flat, va, front, other);
      FlatPutIs(FlatWrite(flat, va, front), va + |data| - 1, data[|data| - 1], other);
    }
  }

  lemma {:induction false} AgreeWrite(lay: Layout, v: seq<Page>, w: seq<Page>, va: nat, data: seq<byte>)
    requires Agree(lay, v, w) && (data != [] ==> UserPage(va) && UserPage(va + |data| - 1))
    ensures Agree(lay, FlatWrite(v, va, data), FlatWrite(w, va, data))
  {
    hide FlatPut;
    if data != [] {
      var front := data[..|data| - 1];
      AgreeWrite(lay, v, w, va, front);
      AgreePut(lay, FlatWrite(v, va, front), FlatWrite(w, va, front), va + |data| - 1, data[|data| - 1]);
    }
  }

  /** Byte `j` of an access is that of flat memory. */
  predicate ByteFlat(flat: seq<Page>, a: Access, r: seq<byte>, j: nat)
    requires |flat| == MAX_TEST_PAGES && j < |r|
  {
    UserPage(a.va + j) && r[j] == FlatByte(flat, a.va + j)
  }

  predicate OnPages(pages: set<nat>, a: Access, j: nat) {
    (a.va + j) / PGSIZE in pages
  }

  /** The bytes of an access are those of flat memory, on pages the kernel leaves alone. */
  predicate BytesFlat(lay: Layout, flat: seq<Page>, a: Access, r: seq<byte>)
    requires |flat| == MAX_TEST_PAGES
  {
    |r| == |a.data| && forall j: nat | j < |r| :: OnPages(lay.kernel, a, j) || ByteFlat(flat, a, r, j)
  }

  lemma AgreeBytes(lay: Layout, v: seq<Page>, w: seq<Page>, a: Access, r: seq<byte>)
    requires Agree(lay, v, w) && BytesFlat(lay, v, a, r)
    ensures BytesFlat(lay, w, a, r)
  {
    forall j: nat | j < |r| ensures OnPages(lay.kernel, a, j) || ByteFlat(w, a, r, j) {
      assert OnPages(lay.kernel, a, j) || ByteFlat(v, a, r, j);
    }
  }

  /** Flat memory after the first `i` bytes of an access. */
  function FlatPart(flat: seq<Page>, a: Access, i: nat): (r: seq<Page>)
    requires |flat| == MAX_TEST_PAGES && UserAccess(a) && i <= |a.data|
    ensures |r| == MAX_TEST_PAGES
  {
    if a.kind == Store then FlatWrite(flat, a.va, a.data[..i]) else flat
  }

  lemma FlatPartStep(flat: seq<Page>, a: Access, i: nat)
    requires |flat| == MAX_TEST_PAGES && UserAccess(a) && i < |a.data|
    ensures UserPage(a.va + i)
    ensures FlatPart(flat, a, i + 1)
         == if a.kind == Store then FlatPut(FlatPart(flat, a, i), a.va + i, a.data[i]) else FlatPart(flat, a, i)
  {
    hide FlatPut;
    assert a.data[..i + 1][..i] == a.data[..i];
  }

  lemma FlatPartEnds(flat: seq<Page>, a: Access)
    requires |flat| == MAX_TEST_PAGES && UserAccess(a)
    ensures FlatPart(flat, a, 0) == flat && FlatPart(flat, a, |a.data|) == FlatStep(flat, a)
  {
    assert a.data[..|a.data|] == a.data;
  }

  /** Byte `j` got out of an access: what it stored, or what was there. */
  predicate Got(flat: seq<Page>, a: Access, r: seq<byte>, j: nat)
    requires |flat| == MAX_TEST_PAGES && j < |r| && j < |a.data|
  {
    UserPage(a.va + j) && r[j] == if a.kind == Store then a.data[j] else FlatByte(flat, a.va + j)
  }

  lemma ReadBack(lay: Layout, v: seq<Page>, a: Access, r: seq<byte>)
    requires |v| == MAX_TEST_PAGES && UserAccess(a) && |r| == |a.data|
    requires forall j: nat | j < |r| :: Got(v, a, r, j)
    ensures BytesFlat(lay, FlatStep(v, a), a, r)
  {
    hide FlatByte, FlatWrite;
    forall j: nat | j < |r| ensures ByteFlat(FlatStep(v, a), a, r, j) {
      assert Got(v, a, r, j);
      FlatWriteIs(v, a.va, a.data, a.va + j);
    }
  }

  lemma AgreeSelf(lay: Layout, v: seq<Page>)
    requires |v| == MAX_TEST_PAGES
    ensures Agree(lay, v, v)
  {
  }

  lemma AgreeTwice(lay: Layout, u: seq<Page>, v: seq<Page>, w: seq<Page>)
    requires Agree(lay, u, v) && Agree(lay, v, w)
    ensures Agree(lay, u, w)
  {
  }

  lemma AgreeStep(lay: Layout, v: seq<Page>, w: seq<Page>, a: Access)
    requires Agree(lay, v, w) && UserAccess(a)
    ensures Agree(lay, FlatStep(v, a), FlatStep(w, a))
  {
    AgreeWrite(lay, v, w, a.va, a.data);
  }

  /** Every byte of an access is on one of its two pages. */
  lemma ByteOnPage(a: Access, i: nat)
    requires UserAccess(a) && i < |a.data|
    ensures UserPage(a.va + i)
    ensures (a.va + i) / PGSIZE == a.va / PGSIZE || (a.va + i) / PGSIZE == LastByte(a) / PGSIZE
  {
  }

  // Access checks, section 4.3.1 of the RISC-V Privileged Architecture.

  /** What the hardware lets a user-mode access do without a page fault. */
  predicate Permits(pte: Pte, kind: Kind) {
    && pte.v && pte.u && pte.a
    && match kind
       case Fetch => pte.x
       case Load => pte.r
       case Store => pte.w && pte.d
  }

  /** The faults an access still has to take on a page: to map it, to set A, to set D. */
  function FaultsNeeded(pte: Pte, kind: Kind): nat {
    (if pte == ZERO then 1 else 0) + (if pte.a then 0 else 1) + (if kind == Store && !pte.d then 1 else 0)
  }

  /** Every page that has been touched has been accessed since, as it has between user accesses. */
  predicate Settled(m: Machine) {
    forall n | 0 <= n < |m.llpt| :: m.llpt[n] == ZERO || m.llpt[n].a
  }

  /** Entries of test pages are absent or full user leaves; there are no others. */
  lemma EntryShape(m: Machine, seed: Reg, lay: Layout, home: seq<Page>, order: seq<nat>, n: nat)
    requires Inv(m, seed, lay, home, order) && n < PTES_PER_PT
    ensures m.llpt[n] == ZERO || m.llpt[n] == UserLeaf(m.llpt[n].ppn, m.llpt[n].a, m.llpt[n].d)
    ensures m.llpt[n] != ZERO ==> 1 <= n < MAX_TEST_PAGES && DRAM_PPN + MAX_TEST_PAGES < m.llpt[n].ppn < DRAM_PPN + PAGES
    ensures m.llpt[n] != ZERO ==> ViewOf(m, n) == m.pages[m.llpt[n].ppn - DRAM_PPN]
  {
    if m.llpt[n] != ZERO {
      var k := MappedPage(m, seed, lay, home, order, n);
    }
  }

  /** The page walk lets a user access through exactly when the entry of a test page permits it. */
  lemma AccessGoesThroughIff(m: Machine, seed: Reg, lay: Layout, home: seq<Page>, order: seq<nat>, ptPpn: nat, va: nat, kind: Kind)
    requires Inv(m, seed, lay, home, order) && va < ADDRESSES
    ensures UserEntries(m.llpt) && Sized(m)
    ensures var t := Walk(BootTables(ptPpn, m.llpt), va);
            && (t.Mapped? && Permits(t.pte, kind) <==> UserPage(va) && Permits(m.llpt[va / PGSIZE], kind))
            && (UserPage(va) && Permits(m.llpt[va / PGSIZE], kind) ==>
                  t.pa == m.llpt[va / PGSIZE].ppn * PGSIZE + va % PGSIZE)
  {
    InvSized(m, seed, lay, home, order);
    hide Inv, Walk, BootTables;
    BootTranslation(ptPpn, m.llpt, va);
    if va < MEGAPAGE_SIZE {
      EntryShape(m, seed, lay, home, order, va / PGSIZE);
    }
  }

  // Eviction at the end of the test.

  predicate RefOk(r: Ref) {
    r == Null || r.index < MAX_TEST_PAGES
  }

  /** `m` is `m0` with the pages below `top` evicted: their frames hold their homes again. */
  ghost predicate Evicted(m: Machine, m0: Machine, seed: Reg, lay: Layout, home: seq<Page>, order: seq<nat>, top: nat) {
    && Inv(m0, seed, lay, home, order) && Sized(m) && m.llpt == m0.llpt && RefOk(m.tail)
    && HomesOk(m.llpt, m.pages, lay, home)
    && (forall k | 0 <= k < |order| && order[k] >= top :: m.pages[Frame(seed, k)] == m0.pages[Frame(seed, k)])
    && (forall k | 0 <= k < |order| && order[k] < top && order[k] !in lay.kernel ::
          m.pages[Frame(seed, k)] == home[order[k]])
    && (forall n | 0 <= n < MAX_TEST_PAGES :: m.mapping[n].addr == if n < top then 0 else m0.mapping[n].addr)
  }

  lemma EvictionStarts(m: Machine, seed: Reg, lay: Layout, home: seq<Page>, order: seq<nat>)
    requires Inv(m, seed, lay, home, order)
    ensures Evicted(m, m, seed, lay, home, order, 1)
  {
    forall k | 0 <= k < |order| ensures order[k] != 0 {
    }
    assert m.mapping[0] == NO_NODE;
  }

  lemma KernelKeepsEvicted(m: Machine, m0: Machine, seed: Reg, lay: Layout, home: seq<Page>, order: seq<nat>, top: nat, m': Machine)
    requires Evicted(m, m0, seed, lay, home, order, top) && Sized(m') && m' == m.(pages := m'.pages)
    requires forall p: nat | p < PAGES && (p !in lay.kernel || p == lay.table) :: m'.pages[p] == m.pages[p]
    ensures Evicted(m', m0, seed, lay, home, order, top)
  {
    hide Inv;
    assert GoodLayout(lay) && seed != STUCK by { InvSized(m0, seed, lay, home, order); }
    hide Frame;
  }

  /** What eviction finds at a mapped page. A clean frame equals its home, if the kernel leaves that
      alone; the frame of the table's page never does. */
  predicate FoundMapped(m: Machine, lay: Layout, n: nat)
    requires Sized(m) && n < MAX_TEST_PAGES
  {
    var pte := m.llpt[n];
    && DRAM_PPN + MAX_TEST_PAGES < pte.ppn < DRAM_PPN + PAGES
    && pte == UserLeaf(pte.ppn, pte.a, pte.d)
    && (!pte.d && n !in lay.kernel ==> m.pages[pte.ppn - DRAM_PPN] == m.pages[n])
    && (!pte.d && n == lay.table ==> m.pages[pte.ppn - DRAM_PPN] != m.pages[n])
  }

  lemma FoundInFrame(m: Machine, m0: Machine, seed: Reg, lay: Layout, home: seq<Page>, n: nat, k: nat)
    requires seed != STUCK && Sized(m) && Sized(m0) && |home| == MAX_TEST_PAGES && n < MAX_TEST_PAGES
    requires m.llpt == m0.llpt && HomesOk(m.llpt, m.pages, lay, home) && InFrame(m0, seed, lay, home, n, k)
    requires m.pages[Frame(seed, k)] == m0.pages[Frame(seed, k)]
    ensures FoundMapped(m, lay, n)
  {
    hide TablePage, Frame, ListNode;
    TableByte(m.llpt, n);
  }

  /** A page has a node exactly when it was touched. */
  lemma EvictedPage(m: Machine, m0: Machine, seed: Reg, lay: Layout, home: seq<Page>, order: seq<nat>, n: nat)
    requires Evicted(m, m0, seed, lay, home, order, n) && 1 <= n < MAX_TEST_PAGES
    ensures m.mapping[n].addr != 0 <==> m.llpt[n] != ZERO
    ensures UserEntries(m.llpt) && (m.llpt[n] != ZERO ==> FoundMapped(m, lay, n))
  {
    InvSized(m0, seed, lay, home, order);
    if m0.llpt[n] != ZERO {
      var k := MappedPage(m0, seed, lay, home, order, n);
      hide Inv, HomesOk, FoundMapped, CleanFrame, Frame;
      FoundInFrame(m, m0, seed, lay, home, n, k);
    } else {
      NextNode(m0, seed, lay, home, order, n);
    }
  }

  /** The machine after page `n` was evicted. */
  predicate EvictsPage(m: Machine, lay: Layout, home: seq<Page>, n: nat, m': Machine)
    requires Sized(m) && n < MAX_TEST_PAGES == |home|
  {
    && Sized(m') && m'.llpt == m.llpt && RefOk(m'.tail) && HomesOk(m'.llpt, m'.pages, lay, home)
    && (forall p | 0 <= p < MAX_TEST_PAGES :: m'.mapping[p].addr == if p == n then 0 else m.mapping[p].addr)
    && (forall f: nat | MAX_TEST_PAGES <= f < PAGES && (m.llpt[n] == ZERO || m.llpt[n].ppn != DRAM_PPN + f) ::
          m'.pages[f] == m.pages[f])
    && (m.llpt[n] != ZERO && DRAM_PPN <= m.llpt[n].ppn < DRAM_PPN + PAGES && n !in lay.kernel ==>
          m'.pages[m.llpt[n].ppn - DRAM_PPN] == home[n])
  }

  lemma EvictionStep(m: Machine, m0: Machine, seed: Reg, lay: Layout, home: seq<Page>, order: seq<nat>, n: nat, m': Machine)
    requires Evicted(m, m0, seed, lay, home, order, n) && 1 <= n < MAX_TEST_PAGES
    requires |home| == MAX_TEST_PAGES && EvictsPage(m, lay, home, n, m')
    ensures Evicted(m', m0, seed, lay, home, order, n + 1)
  {
    InvSized(m0, seed, lay, home, order);
    forall k: nat | k < |order|
      ensures order[k] != n ==> m'.pages[Frame(seed, k)] == m.pages[Frame(seed, k)]
      ensures order[k] == n && n !in lay.kernel ==> m'.pages[Frame(seed, k)] == home[n]
    {
      EvictionFrame(m, m0, seed, lay, home, order, n, m', k);
    }
    hide Inv, Frame, HomesOk;
  }

  lemma EvictionFrame(m: Machine, m0: Machine, seed: Reg, lay: Layout, home: seq<Page>, order: seq<nat>, n: nat, m': Machine, k: nat)
    requires Inv(m0, seed, lay, home, order) && Sized(m) && m.llpt == m0.llpt && n < MAX_TEST_PAGES && k < |order|
    requires EvictsPage(m, lay, home, n, m')
    ensures order[k] != n ==> m'.pages[Frame(seed, k)] == m.pages[Frame(seed, k)]
    ensures order[k] == n && n !in lay.kernel ==> m'.pages[Frame(seed, k)] == home[n]
  {
    hide HomesOk, CleanFrame, ListNode, Frame;
    assert InFrame(m0, seed, lay, home, order[k], k);
    if order[k] != n && m0.llpt[n] != ZERO {
      var j := MappedPage(m0, seed, lay, home, order, n);
      FramesDistinct(seed, k, j);
    }
  }

  lemma EvictionDone(m: Machine, m0: Machine, seed: Reg, lay: Layout, home: seq<Page>, order: seq<nat>)
    requires Evicted(m, m0, seed, lay, home, order, MAX_TEST_PAGES)
    ensures Agree(lay, View(m), home)
  {
    forall n: nat | n < MAX_TEST_PAGES && n !in lay.kernel ensures ViewOf(m, n) == home[n] {
      if m.llpt[n] != ZERO {
        var k := MappedPage(m0, seed, lay, home, order, n);
      }
    }
  }
}
