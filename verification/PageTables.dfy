/** The Sv39 page tables that the virtual-memory test environment boots with, and how the
    hardware walks them. */
module PageTables {

  const PGSIZE := 0x1000
  const PTES_PER_PT := 512
  const MEGAPAGE_SIZE := 0x20_0000
  const DRAM_BASE := 0x8000_0000
  const DRAM_PPN := 0x8_0000
  const ADDRESSES := 0x1_0000_0000_0000_0000

  datatype Pte = Pte(ppn: nat, v: bool, r: bool, w: bool, x: bool, u: bool, a: bool, d: bool)

  const ZERO := Pte(0, false, false, false, false, false, false, false)

  /** An entry that leads to the next level. */
  function Branch(ppn: nat): Pte {
    Pte(ppn, true, false, false, false, false, false, false)
  }

  function UserLeaf(ppn: nat, a: bool, d: bool): Pte {
    Pte(ppn, true, true, true, true, true, a, d)
  }

  const KERNEL_LEAF := Pte(DRAM_PPN, true, true, true, true, false, true, true)

  /** Consecutive page-table pages; `ppn` is the page number of the first. */
  datatype Tables = Tables(ppn: nat, pages: seq<seq<Pte>>)

  predicate WellFormed(t: Tables) {
    forall k | 0 <= k < |t.pages| :: |t.pages[k]| == PTES_PER_PT
  }

  function EmptyTable(): seq<Pte> {
    seq(PTES_PER_PT, _ => ZERO)
  }

  /** The four tables as `vm_boot` fills them; the last holds the user's pages. */
  function BootTables(ppn: nat, user: seq<Pte>): (t: Tables)
    requires |user| == PTES_PER_PT
    ensures WellFormed(t) && t.ppn == ppn
  {
    Tables(ppn, [
      EmptyTable()[0 := Branch(ppn + 1)][PTES_PER_PT - 1 := Branch(ppn + 2)],
      EmptyTable()[0 := Branch(ppn + 3)],
      EmptyTable()[PTES_PER_PT - 1 := KERNEL_LEAF],
      user])
  }

  function Entry(t: Tables, ppn: nat, index: nat): Pte
    requires WellFormed(t) && index < PTES_PER_PT
  {
    if t.ppn <= ppn < t.ppn + |t.pages| then t.pages[ppn - t.ppn][index] else ZERO
  }

  /** The number of pages an entry of a level spans. */
  function LevelPages(level: nat): nat
    requires level < 3
  {
    if level == 0 then 1 else if level == 1 then 512 else 262144
  }

  function LevelSize(level: nat): nat
    requires level < 3
  {
    if level == 0 then PGSIZE else if level == 1 then MEGAPAGE_SIZE else 0x4000_0000
  }

  function Vpn(va: nat, level: nat): nat
    requires level < 3
  {
    va / LevelSize(level) % PTES_PER_PT
  }

  /** Bits 63 to 39 of a virtual address equal bit 38. */
  predicate Canonical(va: nat) {
    va < 0x40_0000_0000 || ADDRESSES - 0x40_0000_0000 <= va < ADDRESSES
  }

  /** The leaf entry a walk ends at, and the physical address it yields. */
  datatype Translation = Fault | Mapped(pte: Pte, pa: nat)

  /** Steps 2 to 8 of the address translation process, section 4.3.2 of the RISC-V Privileged
      Architecture, from the table at page `ppn`; permissions are left to the caller. */
  function WalkFrom(t: Tables, ppn: nat, va: nat, level: nat): Translation
    requires WellFormed(t) && level < 3
    decreases level
  {
    var pte := Entry(t, ppn, Vpn(va, level));
    if !pte.v || (!pte.r && pte.w) then Fault
    else if pte.r || pte.x then
      if pte.ppn % LevelPages(level) != 0 then Fault else Mapped(pte, pte.ppn * PGSIZE + va % LevelSize(level))
    else if level == 0 then Fault
    else WalkFrom(t, pte.ppn, va, level - 1)
  }

  function Walk(t: Tables, va: nat): Translation
    requires WellFormed(t)
  {
    if Canonical(va) then WalkFrom(t, t.ppn, va, 2) else Fault
  }

  /** The kernel's own address for a physical one, with the wrap-around of the subtraction. */
  function Pa2Kva(pa: int): nat {
    (pa - DRAM_BASE - MEGAPAGE_SIZE) % ADDRESSES
  }

  /** The kernel's address for the memory a user page is loaded from. */
  function Uva2Kva(va: int): nat {
    (va - MEGAPAGE_SIZE) % ADDRESSES
  }

  /** User entries are absent or leaves, never branches. */
  predicate UserEntries(user: seq<Pte>) {
    |user| == PTES_PER_PT && forall i | 0 <= i < |user| :: user[i] == ZERO || (user[i].v && user[i].r)
  }

  predicate InKernelWindow(va: nat) {
    ADDRESSES - MEGAPAGE_SIZE <= va < ADDRESSES
  }

  lemma TopIndex(va: nat)
    requires Canonical(va)
    ensures Vpn(va, 2) == 0 <==> va < 0x4000_0000
    ensures Vpn(va, 2) == 511 <==> ADDRESSES - 0x4000_0000 <= va
  {
  }

  lemma MiddleIndexLow(va: nat)
    requires va < 0x4000_0000
    ensures Vpn(va, 1) == 0 <==> va < MEGAPAGE_SIZE
    ensures va < MEGAPAGE_SIZE ==> Vpn(va, 0) == va / PGSIZE
  {
  }

  lemma MiddleIndexHigh(va: nat)
    requires ADDRESSES - 0x4000_0000 <= va < ADDRESSES
    ensures Vpn(va, 1) == 511 <==> InKernelWindow(va)
    ensures InKernelWindow(va) ==> va % MEGAPAGE_SIZE == va - (ADDRESSES - MEGAPAGE_SIZE)
  {
  }

  lemma BootEntries(ppn: nat, user: seq<Pte>, index: nat)
    requires |user| == PTES_PER_PT && index < PTES_PER_PT
    ensures var t := BootTables(ppn, user);
            && Entry(t, ppn, index) == (if index == 0 then Branch(ppn + 1) else if index == 511 then Branch(ppn + 2) else ZERO)
            && Entry(t, ppn + 1, index) == (if index == 0 then Branch(ppn + 3) else ZERO)
            && Entry(t, ppn + 2, index) == (if index == 511 then KERNEL_LEAF else ZERO)
            && Entry(t, ppn + 3, index) == user[index]
  {
  }

  function Index(va: nat, level: nat): (i: nat)
    requires level < 3
    ensures i == Vpn(va, level) < PTES_PER_PT
  {
    Vpn(va, level)
  }

  /** Low addresses: the page's own entry decides, and nothing else. */
  lemma WalkLow(ppn: nat, user: seq<Pte>, va: nat)
    requires UserEntries(user) && va < 0x4000_0000
    ensures Walk(BootTables(ppn, user), va) ==
            if va < MEGAPAGE_SIZE && user[va / PGSIZE] != ZERO
            then Mapped(user[va / PGSIZE], user[va / PGSIZE].ppn * PGSIZE + va % PGSIZE)
            else Fault
  {
    hide BootTables, Entry, Vpn;
    var t := BootTables(ppn, user);
    TopIndex(va);
    MiddleIndexLow(va);
    BootEntries(ppn, user, Index(va, 2));
    BootEntries(ppn, user, Index(va, 1));
    BootEntries(ppn, user, Index(va, 0));
    assert WalkFrom(t, ppn, va, 2) == WalkFrom(t, ppn + 1, va, 1);
    if va < MEGAPAGE_SIZE {
      assert WalkFrom(t, ppn + 1, va, 1) == WalkFrom(t, ppn + 3, va, 0);
    }
  }

  /** High addresses: the last megapage reaches the start of memory, the rest nothing. */
  lemma WalkHigh(ppn: nat, user: seq<Pte>, va: nat)
    requires UserEntries(user) && ADDRESSES - 0x4000_0000 <= va < ADDRESSES
    ensures Walk(BootTables(ppn, user), va) ==
            if InKernelWindow(va) then Mapped(KERNEL_LEAF, DRAM_BASE + (va - (ADDRESSES - MEGAPAGE_SIZE))) else Fault
  {
    hide BootTables, Entry, Vpn;
    var t := BootTables(ppn, user);
    TopIndex(va);
    MiddleIndexHigh(va);
    BootEntries(ppn, user, Index(va, 2));
    BootEntries(ppn, user, Index(va, 1));
    assert WalkFrom(t, ppn, va, 2) == WalkFrom(t, ppn + 2, va, 1);
  }

  /** The boot tables translate exactly the kernel's megapage and the present user pages. */
  lemma BootTranslation(ppn: nat, user: seq<Pte>, va: nat)
    requires UserEntries(user) && va < ADDRESSES
    ensures Walk(BootTables(ppn, user), va) ==
            if va < MEGAPAGE_SIZE && user[va / PGSIZE] != ZERO
            then Mapped(user[va / PGSIZE], user[va / PGSIZE].ppn * PGSIZE + va % PGSIZE)
            else if InKernelWindow(va) then Mapped(KERNEL_LEAF, DRAM_BASE + (va - (ADDRESSES - MEGAPAGE_SIZE)))
            else Fault
  {
    hide BootTables, WalkFrom;
    if va < 0x4000_0000 {
      WalkLow(ppn, user, va);
    } else if ADDRESSES - 0x4000_0000 <= va {
      WalkHigh(ppn, user, va);
    } else if Canonical(va) {
      NoGigapage(ppn, user, va);
    }
  }

  lemma NoGigapage(ppn: nat, user: seq<Pte>, va: nat)
    requires UserEntries(user) && Canonical(va) && 0x4000_0000 <= va < ADDRESSES - 0x4000_0000
    ensures WalkFrom(BootTables(ppn, user), ppn, va, 2) == Fault
  {
    hide BootTables, Entry, Vpn;
    TopIndex(va);
    BootEntries(ppn, user, Index(va, 2));
  }

  /** The kernel's addresses lead back to the physical addresses they were made from, and the
      kernel's address for a user page to the memory the page is loaded from. */
  lemma KernelAddressesTranslate(ppn: nat, user: seq<Pte>, pa: int, va: int)
    requires UserEntries(user) && DRAM_BASE <= pa < DRAM_BASE + MEGAPAGE_SIZE && 0 <= va < MEGAPAGE_SIZE
    ensures Walk(BootTables(ppn, user), Pa2Kva(pa)) == Mapped(KERNEL_LEAF, pa)
    ensures Walk(BootTables(ppn, user), Uva2Kva(va)) == Mapped(KERNEL_LEAF, DRAM_BASE + va)
    ensures var k := KERNEL_LEAF; k.v && k.r && k.w && k.x && k.a && k.d && !k.u
  {
    hide BootTables, Walk;
    assert Pa2Kva(pa) == pa - DRAM_BASE - MEGAPAGE_SIZE + ADDRESSES;
    assert Uva2Kva(va) == va - MEGAPAGE_SIZE + ADDRESSES;
    BootTranslation(ppn, user, Pa2Kva(pa));
    BootTranslation(ppn, user, Uva2Kva(va));
  }
}
