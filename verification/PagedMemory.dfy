/** The physical memory of the virtual-memory tests, as bytes and as pages. */
module PagedMemory {
  import opened Bytes
  import opened PageTables
  import opened CString

  const MAX_TEST_PAGES := 63

  /** 63 home pages, then the page that no frame uses, then the 63 frames. */
  const PAGES := 2 * MAX_TEST_PAGES + 1

  type Page = p: seq<byte> | |p| == PGSIZE ghost witness seq(PGSIZE, _ => 0)

  predicate IsMemory(bytes: seq<byte>) {
    |bytes| == PAGES * PGSIZE
  }

  function PageAt(bytes: seq<byte>, k: nat): Page
    requires IsMemory(bytes) && k < PAGES
  {
    bytes[k * PGSIZE..k * PGSIZE + PGSIZE]
  }

  function PagesOf(bytes: seq<byte>): (pages: seq<Page>)
    requires IsMemory(bytes)
    ensures |pages| == PAGES
    ensures forall k | 0 <= k < PAGES :: pages[k] == PageAt(bytes, k)
  {
    seq(PAGES, k requires 0 <= k < PAGES => PageAt(bytes, k))
  }

  /** Writing a page of bytes replaces that page. */
  lemma PagePatched(bytes: seq<byte>, k: nat, page: Page)
    requires IsMemory(bytes) && k < PAGES
    ensures k * PGSIZE + |page| <= |bytes| && IsMemory(Patched(bytes, k * PGSIZE, page))
    ensures PagesOf(Patched(bytes, k * PGSIZE, page)) == PagesOf(bytes)[k := page]
  {
    var after := Patched(bytes, k * PGSIZE, page);
    forall p: nat | p < PAGES ensures PageAt(after, p) == if p == k then page else PageAt(bytes, p) {
      if p != k {
        PatchedElsewhere(bytes, k * PGSIZE, page, p * PGSIZE, PGSIZE);
      }
    }
  }

  /** Writing one byte changes one page. */
  lemma ByteWritten(bytes: seq<byte>, k: nat, off: nat, b: byte)
    requires IsMemory(bytes) && k < PAGES && off < PGSIZE
    ensures var after := bytes[k * PGSIZE + off := b];
            IsMemory(after) && PagesOf(after) == PagesOf(bytes)[k := PagesOf(bytes)[k][off := b]]
  {
    var after := bytes[k * PGSIZE + off := b];
    forall p: nat | p < PAGES ensures PageAt(after, p) == if p == k then PageAt(bytes, p)[off := b] else PageAt(bytes, p) {
    }
  }

  // The page that holds a page table.

  function Flag(b: bool, n: nat): nat {
    if b then n else 0
  }

  /** The flag bits of an entry, which are its lowest byte. */
  function Flags(pte: Pte): byte {
    Flag(pte.v, 0x01) + Flag(pte.r, 0x02) + Flag(pte.w, 0x04) + Flag(pte.x, 0x08) + Flag(pte.u, 0x10)
    + Flag(pte.a, 0x40) + Flag(pte.d, 0x80)
  }

  function PteWord(pte: Pte): nat {
    0x400 * pte.ppn + Flags(pte)
  }

  /** The words `vm_boot` and `handle_fault` store: page number above ten flag bits. */
  lemma LeafWords(ppn: nat, a: bool, d: bool)
    ensures PteWord(UserLeaf(ppn, a, d)) == ppn * 1024 + 0x1f + (if a then 0x40 else 0) + (if d then 0x80 else 0)
    ensures PteWord(KERNEL_LEAF) == 0x80000 * 1024 + 0xcf
    ensures PteWord(Branch(ppn)) == ppn * 1024 + 1 && PteWord(ZERO) == 0
  {
  }

  /** A table as it lies in memory, eight bytes an entry. */
  function TablePage(llpt: seq<Pte>): Page
    requires |llpt| == PTES_PER_PT
  {
    seq(PGSIZE, i requires 0 <= i < PGSIZE => Le(PteWord(llpt[i / 8]), 8)[i % 8])
  }

  /** The dirty bit in the lowest byte of an entry. */
  predicate DirtyByte(b: byte) {
    0x80 <= b
  }

  lemma LowestByte(pte: Pte)
    ensures Le(PteWord(pte), 8)[0] == Flags(pte)
  {
    LeFirst(PteWord(pte));
    hide Le, Flags;
    assert PteWord(pte) == 256 * (4 * pte.ppn) + Flags(pte);
  }

  lemma LeFirst(v: nat)
    ensures Le(v, 8)[0] == v % 256
  {
  }

  lemma FlagsDirty(pte: Pte)
    ensures DirtyByte(Flags(pte)) <==> pte.d
  {
  }

  lemma TableByte(llpt: seq<Pte>, n: nat)
    requires |llpt| == PTES_PER_PT && n < PTES_PER_PT
    ensures DirtyByte(TablePage(llpt)[8 * n]) <==> llpt[n].d
  {
    hide Le, Flags, PteWord, DirtyByte;
    assert 8 * n / 8 == n && 8 * n % 8 == 0;
    assert TablePage(llpt)[8 * n] == Le(PteWord(llpt[n]), 8)[0];
    LowestByte(llpt[n]);
    FlagsDirty(llpt[n]);
  }
}
