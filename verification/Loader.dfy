/** The loader of ELF segments into the simulated memories of the test bench. */
module Loader {
  import opened Bytes

  // Windows of physical addresses, and where each starts in the simulated address space.
  const IlmBase: nat := 0x6000_0000
  const IlmSize: nat := 0x1_0000
  const DlmBase: nat := 0x6800_0000
  const DlmSize: nat := 0x1_0000
  const SysmemBase: nat := 0x8000_0000
  const SysmemSize: nat := 0x1000_0000
  const XipBase: nat := 0x2000_0000
  const XipSize: nat := 0x1000_0000

  datatype Window = Window(base: nat, size: nat, target: nat)

  /** The window that holds an address. */
  function WindowOf(address: nat): Option<Window> {
    if IlmBase <= address < IlmBase + IlmSize then Some(Window(IlmBase, IlmSize, 0))
    else if DlmBase <= address < DlmBase + DlmSize then Some(Window(DlmBase, DlmSize, 0x0800_0000))
    else if SysmemBase <= address < SysmemBase + SysmemSize then Some(Window(SysmemBase, SysmemSize, 0x1000_0000))
    else if XipBase <= address < XipBase + XipSize then Some(Window(XipBase, XipSize, 0x2000_0000))
    else None
  }

  /** Where a physical address lies in the simulated memories. */
  function Translate(address: nat): Option<nat> {
    match WindowOf(address)
    case Some(w) => Some(w.target + address - w.base)
    case None => None
  }

  /** The simulated addresses each window occupies. */
  lemma WindowsOccupy(address: nat)
    ensures Translate(address) ==
            if 0x6000_0000 <= address < 0x6001_0000 then Some(address - 0x6000_0000)
            else if 0x6800_0000 <= address < 0x6801_0000 then Some(address - 0x6000_0000)
            else if 0x8000_0000 <= address < 0x9000_0000 then Some(address - 0x7000_0000)
            else if 0x2000_0000 <= address < 0x3000_0000 then Some(address)
            else None
    ensures Translate(address) != None ==>
              var at := Translate(address).value;
              at < 0x1_0000 || 0x0800_0000 <= at < 0x0801_0000 || 0x1000_0000 <= at < 0x3000_0000
  {
  }

  /** No two physical addresses share a place. */
  lemma TranslateInjective(a: nat, b: nat)
    requires Translate(a) != None && Translate(a) == Translate(b)
    ensures a == b
  {
  }

  /** A program header as the file holds it. */
  datatype Header = Header(paddr: nat, offset: nat, filesz: nat)

  /** Assignment to a C `int`. */
  function Int32(v: nat): (i: int)
    ensures -0x8000_0000 <= i < 0x8000_0000 && (v - i) % 0x1_0000_0000 == 0
  {
    var low := v % 0x1_0000_0000;
    if low < 0x8000_0000 then low else low - 0x1_0000_0000
  }

  /** How many bytes are loaded for a header. */
  function Size(h: Header): (n: nat) {
    if WindowOf(h.paddr) != None && 0 < Int32(h.filesz) then Int32(h.filesz) else 0
  }

  /** Where its first byte goes. */
  function Start(h: Header): nat {
    match Translate(h.paddr)
    case Some(at) => at
    case None => 0
  }

  /** The bytes to load lie in the file. */
  predicate Readable(file: seq<byte>, h: Header) {
    0 < Size(h) ==> 0 <= Int32(h.offset) && Int32(h.offset) + Size(h) <= |file|
  }

  /** The whole segment lies in the window its first byte is in. */
  predicate Fits(h: Header) {
    0 < Size(h) ==> h.paddr + Size(h) <= WindowOf(h.paddr).value.base + WindowOf(h.paddr).value.size
  }

  predicate Writes(h: Header, q: nat) {
    Start(h) <= q < Start(h) + Size(h)
  }

  function ByteFor(file: seq<byte>, h: Header, q: nat): byte
    requires Readable(file, h) && Writes(h, q)
  {
    file[Int32(h.offset) + (q - Start(h))]
  }

  predicate AllReadable(file: seq<byte>, hs: seq<Header>) {
    forall h | h in hs :: Readable(file, h)
  }

  type Memory = map<nat, byte>

  function FileByte(file: seq<byte>, from: nat, at: nat, q: nat): byte
    requires at <= q && from + (q - at) < |file|
  {
    file[from + (q - at)]
  }

  /** `size` bytes of the file, placed from `at` on. */
  function Placed(file: seq<byte>, from: nat, at: nat, size: nat): Memory
    requires from + size <= |file|
  {
    map q: nat | at <= q < at + size :: FileByte(file, from, at, q)
  }

  function LoadedOne(mem: Memory, file: seq<byte>, h: Header): Memory
    requires Readable(file, h)
  {
    if Size(h) == 0 then mem else mem + Placed(file, Int32(h.offset), Start(h), Size(h))
  }

  /** The memory after the headers have been loaded in order. */
  function Loaded(mem: Memory, file: seq<byte>, hs: seq<Header>): Memory
    requires AllReadable(file, hs)
  {
    if hs == [] then mem
    else LoadedOne(Loaded(mem, file, hs[..|hs| - 1]), file, hs[|hs| - 1])
  }

  /** Two memories hold the same at `q`. */
  predicate SameAt(m: Memory, n: Memory, q: nat) {
    (q in m <==> q in n) && (q in m ==> m[q] == n[q])
  }

  lemma SameEverywhere(m: Memory, n: Memory)
    requires forall q: nat :: SameAt(m, n, q)
    ensures m == n
  {
    forall q: nat ensures q in m <==> q in n {
      assert SameAt(m, n, q);
    }
    assert m.Keys == n.Keys;
    forall q | q in m ensures m[q] == n[q] {
      assert SameAt(m, n, q);
    }
  }

  lemma OneAt(mem: Memory, file: seq<byte>, h: Header, q: nat)
    requires Readable(file, h)
    ensures !Writes(h, q) ==> SameAt(LoadedOne(mem, file, h), mem, q)
    ensures Writes(h, q) ==> q in LoadedOne(mem, file, h) && LoadedOne(mem, file, h)[q] == ByteFor(file, h, q)
  {
  }

  /** Nothing changes where no header writes; elsewhere the last writer decides. */
  lemma {:induction false} LastWriterDecides(mem: Memory, file: seq<byte>, hs: seq<Header>, q: nat, i: nat)
    requires AllReadable(file, hs)
    ensures (forall h | h in hs :: !Writes(h, q)) ==> SameAt(Loaded(mem, file, hs), mem, q)
    ensures i < |hs| && Writes(hs[i], q) && (forall h | h in hs[i + 1..] :: !Writes(h, q)) ==>
              q in Loaded(mem, file, hs) && Loaded(mem, file, hs)[q] == ByteFor(file, hs[i], q)
  {
    hide Writes, Readable, LoadedOne, ByteFor;
    if hs != [] {
      var front, last := hs[..|hs| - 1], hs[|hs| - 1];
      assert hs == front + [last];
      LastWriterDecides(mem, file, front, q, i);
      OneAt(Loaded(mem, file, front), file, last, q);
      assert i < |front| ==> hs[i + 1..] == front[i + 1..] + [last];
    }
  }

  /** Different headers cover different physical addresses. */
  predicate Disjoint(hs: seq<Header>) {
    forall g, h | g in hs && h in hs && g != h && 0 < Size(g) && 0 < Size(h) ::
      g.paddr + Size(g) <= h.paddr || h.paddr + Size(h) <= g.paddr
  }

  predicate AllFit(hs: seq<Header>) {
    forall h | h in hs :: Fits(h)
  }

  /** A place written for a segment inside its window is that of the physical address. */
  lemma PlaceIsTranslation(h: Header, q: nat)
    requires Fits(h) && Writes(h, q)
    ensures Translate(h.paddr + (q - Start(h))) == Some(q)
  {
  }

  /** Byte `j` is put where its address translates to. */
  predicate ArrivesAt(h: Header, j: nat) {
    Translate(h.paddr + j) == Some(Start(h) + j)
  }

  /** Exactly the segments inside their window put every byte where its address translates to. */
  lemma FitsIffTranslated(h: Header)
    ensures Fits(h) <==> forall j: nat | j < Size(h) :: ArrivesAt(h, j)
  {
    if !Fits(h) {
      var w := WindowOf(h.paddr).value;
      var j: nat := w.base + w.size - h.paddr;
      assert WindowOf(h.paddr + j) == None;
      assert !ArrivesAt(h, j);
    }
  }

  /** No place is written for two headers. */
  lemma OneWriter(hs: seq<Header>, g: Header, h: Header, q: nat)
    requires Disjoint(hs) && AllFit(hs) && g in hs && h in hs && Writes(g, q) && Writes(h, q)
    ensures g == h
  {
    PlaceIsTranslation(g, q);
    PlaceIsTranslation(h, q);
    TranslateInjective(g.paddr + (q - Start(g)), h.paddr + (q - Start(h)));
  }

  /** The last of the headers that write a place. */
  lemma {:induction false} LastWriter(hs: seq<Header>, q: nat) returns (i: nat)
    requires exists h | h in hs :: Writes(h, q)
    ensures i < |hs| && Writes(hs[i], q) && forall h | h in hs[i + 1..] :: !Writes(h, q)
  {
    var n := |hs| - 1;
    if Writes(hs[n], q) {
      i := n;
    } else {
      var h :| h in hs && Writes(h, q);
      assert hs == hs[..n] + [hs[n]];
      assert h in hs[..n];
      i := LastWriter(hs[..n], q);
      assert hs[i + 1..] == hs[..n][i + 1..] + [hs[n]];
    }
  }

  /** Headers that write a common place bring the same byte there. */
  ghost predicate Agree(file: seq<byte>, hs: seq<Header>)
    requires AllReadable(file, hs)
  {
    forall g, h, q: nat | g in hs && h in hs && Writes(g, q) && Writes(h, q) :: ByteFor(file, g, q) == ByteFor(file, h, q)
  }

  /** When all writers of a place agree, any of them decides what it holds. */
  lemma WriterDecides(mem: Memory, file: seq<byte>, hs: seq<Header>, h: Header, q: nat)
    requires AllReadable(file, hs) && Agree(file, hs) && h in hs && Writes(h, q)
    ensures q in Loaded(mem, file, hs) && Loaded(mem, file, hs)[q] == ByteFor(file, h, q)
  {
    var i := LastWriter(hs, q);
    hide Writes, ByteFor, Readable;
    LastWriterDecides(mem, file, hs, q, i);
  }

  /** Disjoint segments inside their windows have no place in common. */
  lemma DisjointAgree(file: seq<byte>, hs: seq<Header>)
    requires AllReadable(file, hs) && Disjoint(hs) && AllFit(hs)
    ensures Agree(file, hs)
  {
    hide Disjoint, AllFit, Writes, ByteFor, Readable;
    forall g, h, q: nat | g in hs && h in hs && Writes(g, q) && Writes(h, q)
      ensures ByteFor(file, g, q) == ByteFor(file, h, q)
    {
      OneWriter(hs, g, h, q);
    }
  }

  /** Byte `j` of the segment is at the place of its physical address. */
  predicate Arrived(mem: Memory, file: seq<byte>, h: Header, j: nat)
    requires Readable(file, h) && j < Size(h)
  {
    var at := Translate(h.paddr + j);
    at != None && at.value in mem && mem[at.value] == file[Int32(h.offset) + j]
  }

  /** Every byte of every segment is at the place of its address; all other memory is as before. */
  lemma EveryByteArrives(mem: Memory, file: seq<byte>, hs: seq<Header>)
    requires AllReadable(file, hs) && Disjoint(hs) && AllFit(hs)
    ensures forall h: Header, j: nat | h in hs && j < Size(h) :: Arrived(Loaded(mem, file, hs), file, h, j)
    ensures forall q: nat | forall h | h in hs :: !Writes(h, q) :: SameAt(Loaded(mem, file, hs), mem, q)
  {
    hide Loaded;
    DisjointAgree(file, hs);
    forall h: Header, j: nat | h in hs && j < Size(h)
      ensures Arrived(Loaded(mem, file, hs), file, h, j)
    {
      PlaceIsTranslation(h, Start(h) + j);
      WriterDecides(mem, file, hs, h, Start(h) + j);
    }
    forall q: nat | forall h | h in hs :: !Writes(h, q) ensures SameAt(Loaded(mem, file, hs), mem, q) {
      LastWriterDecides(mem, file, hs, q, 0);
    }
  }

  lemma SameHeadersSameMemory(mem: Memory, file: seq<byte>, hs: seq<Header>, other: seq<Header>)
    requires AllReadable(file, hs) && Agree(file, hs)
    requires forall h :: h in hs <==> h in other
    ensures AllReadable(file, other) && Loaded(mem, file, hs) == Loaded(mem, file, other)
  {
    hide Loaded, Writes, ByteFor, Readable;
    assert Agree(file, other);
    forall q: nat ensures SameAt(Loaded(mem, file, hs), Loaded(mem, file, other), q) {
      if h :| h in hs && Writes(h, q) {
        WriterDecides(mem, file, hs, h, q);
        WriterDecides(mem, file, other, h, q);
      } else {
        LastWriterDecides(mem, file, hs, q, 0);
        LastWriterDecides(mem, file, other, q, 0);
      }
    }
    SameEverywhere(Loaded(mem, file, hs), Loaded(mem, file, other));
  }

  /** The order of disjoint segments does not matter, nor does loading one twice. */
  lemma OrderDoesNotMatter(mem: Memory, file: seq<byte>, hs: seq<Header>, other: seq<Header>)
    requires AllReadable(file, hs) && Disjoint(hs) && AllFit(hs)
    requires forall h :: h in hs <==> h in other
    ensures AllReadable(file, other) && Loaded(mem, file, hs) == Loaded(mem, file, other)
  {
    DisjointAgree(file, hs);
    SameHeadersSameMemory(mem, file, hs, other);
  }

  /** Every reordering of some headers loads to the memory they load to. */
  ghost predicate OrderFree(mem: Memory, file: seq<byte>, hs: seq<Header>)
    requires AllReadable(file, hs)
  {
    forall other | multiset(other) == multiset(hs) ::
      AllReadable(file, other) && Loaded(mem, file, other) == Loaded(mem, file, hs)
  }

  lemma SameMembers(hs: seq<Header>, other: seq<Header>)
    requires multiset(hs) == multiset(other)
    ensures forall h :: h in hs <==> h in other
  {
    forall h ensures h in hs <==> h in other {
      assert h in hs <==> h in multiset(hs);
      assert h in other <==> h in multiset(other);
    }
  }

  lemma MovedToEnd(hs: seq<Header>, h: Header) returns (rest: seq<Header>)
    requires h in hs
    ensures multiset(rest + [h]) == multiset(hs)
  {
    var i :| 0 <= i < |hs| && hs[i] == h;
    rest := hs[..i] + hs[i + 1..];
    assert hs == hs[..i] + [h] + hs[i + 1..];
  }

  /** The later of two writers at the end of the list decides. */
  lemma EndDecides(mem: Memory, file: seq<byte>, rest: seq<Header>, h: Header, q: nat)
    requires AllReadable(file, rest + [h]) && Writes(h, q)
    ensures Readable(file, h)
    ensures q in Loaded(mem, file, rest + [h]) && Loaded(mem, file, rest + [h])[q] == ByteFor(file, h, q)
  {
    hide Readable, Writes, ByteFor, Loaded;
    var all := rest + [h];
    assert all[|rest|] == h && all[|rest| + 1..] == [];
    LastWriterDecides(mem, file, all, q, |rest|);
  }

  lemma DisagreementShows(mem: Memory, file: seq<byte>, hs: seq<Header>, g: Header, h: Header, q: nat)
    requires AllReadable(file, hs) && g in hs && h in hs && Writes(g, q) && Writes(h, q)
    requires ByteFor(file, g, q) != ByteFor(file, h, q)
    ensures !OrderFree(mem, file, hs)
  {
    hide Writes, ByteFor, Readable, Loaded;
    var some := MovedToEnd(hs, g);
    SameMembers(hs, some + [g]);
    var rest := MovedToEnd(some, h);
    var one, two := rest + [h] + [g], rest + [g] + [h];
    assert multiset(one) == multiset(hs) && multiset(two) == multiset(hs);
    SameMembers(one, hs);
    SameMembers(two, hs);
    EndDecides(mem, file, rest + [h], g, q);
    EndDecides(mem, file, rest + [g], h, q);
  }

  /** The order of the headers matters to no memory exactly when writers of a common place bring
      the same byte there. */
  lemma OrderFreeIff(mem: Memory, file: seq<byte>, hs: seq<Header>)
    requires AllReadable(file, hs)
    ensures OrderFree(mem, file, hs) <==> Agree(file, hs)
  {
    hide Writes, ByteFor, Readable, Loaded;
    if Agree(file, hs) {
      forall other | multiset(other) == multiset(hs)
        ensures AllReadable(file, other) && Loaded(mem, file, other) == Loaded(mem, file, hs)
      {
        SameMembers(hs, other);
        SameHeadersSameMemory(mem, file, hs, other);
      }
    } else {
      var g, h, q: nat :|
        g in hs && h in hs && Writes(g, q) && Writes(h, q) && ByteFor(file, g, q) != ByteFor(file, h, q);
      DisagreementShows(mem, file, hs, g, h, q);
    }
  }

  // Two segments apart from each other; the first runs over the end of its window.
  const Long: Header := Header(SysmemBase + SysmemSize - 1, 0, 2)
  const Short: Header := Header(XipBase, 2, 1)

  lemma LongReachesShort(file: seq<byte>)
    requires file == [1, 2, 3]
    ensures Readable(file, Long) && Readable(file, Short) && !Fits(Long)
    ensures Disjoint([Long, Short])
    ensures Writes(Long, 0x2000_0000) && ByteFor(file, Long, 0x2000_0000) == 2
    ensures Writes(Short, 0x2000_0000) && ByteFor(file, Short, 0x2000_0000) == 3
  {
    assert Size(Long) == 2 && Size(Short) == 1;
    assert Start(Short) == 0x2000_0000 && Start(Long) == 0x1fff_ffff;
  }

  /** The order of disjoint segments matters when one runs over the end of its window. */
  lemma OverrunOverwrites(mem: Memory, file: seq<byte>)
    requires file == [1, 2, 3]
    ensures !Fits(Long) && Disjoint([Long, Short])
    ensures AllReadable(file, [Long, Short]) && AllReadable(file, [Short, Long])
    ensures Loaded(mem, file, [Long, Short]) != Loaded(mem, file, [Short, Long])
  {
    hide *;
    LongReachesShort(file);
    OverrunDecides(mem, file, Long, Short, 0x2000_0000);
    OverrunDecides(mem, file, Short, Long, 0x2000_0000);
  }

  lemma OverrunDecides(mem: Memory, file: seq<byte>, g: Header, h: Header, q: nat)
    requires Readable(file, g) && Readable(file, h) && Writes(h, q)
    ensures AllReadable(file, [g, h])
    ensures q in Loaded(mem, file, [g, h]) && Loaded(mem, file, [g, h])[q] == ByteFor(file, h, q)
  {
    hide Readable, Writes, ByteFor, Loaded;
    assert [g, h][1] == h && [g, h][2..] == [];
    LastWriterDecides(mem, file, [g, h], q, 1);
  }

  /** The simulated memory, written a byte at a time. */
  class TestBench {
    var memory: Memory

    method WriteByte(address: nat, data: byte)
      requires address < 0x1_0000_0000
      modifies this
      ensures memory == old(memory)[address := data]
    {
      memory := memory[address := data];
    }

    method LoadBytes(file: seq<byte>, from: nat, at: nat, size: nat)
      requires from + size <= |file| && at + size <= 0x1_0000_0000
      modifies this
      ensures memory == old(memory) + Placed(file, from, at, size)
    {
      var j := 0;
      while j < size
        invariant j <= size
        invariant memory == old(memory) + Placed(file, from, at, j)
      {
        assert Placed(file, from, at, j + 1) == Placed(file, from, at, j)[at + j := file[from + j]];
        WriteByte(at + j, file[from + j]);
        j := j + 1;
      }
    }

    method LoadSegment(file: seq<byte>, h: Header)
      requires Readable(file, h)
      modifies this
      ensures memory == LoadedOne(old(memory), file, h)
    {
      hide Placed;
      var size := Int32(h.filesz);
      if 0 < size && IlmBase <= h.paddr < IlmBase + IlmSize {
        LoadBytes(file, Int32(h.offset), h.paddr - IlmBase, size);
      } else if 0 < size && DlmBase <= h.paddr < DlmBase + DlmSize {
        LoadBytes(file, Int32(h.offset), 0x0800_0000 + (h.paddr - DlmBase), size);
      } else if 0 < size && SysmemBase <= h.paddr < SysmemBase + SysmemSize {
        LoadBytes(file, Int32(h.offset), 0x1000_0000 + (h.paddr - SysmemBase), size);
      } else if 0 < size && XipBase <= h.paddr < XipBase + XipSize {
        LoadBytes(file, Int32(h.offset), 0x2000_0000 + (h.paddr - XipBase), size);
      }
    }

    method LoadAll(file: seq<byte>, hs: seq<Header>)
      requires AllReadable(file, hs)
      modifies this
      ensures memory == Loaded(old(memory), file, hs)
    {
      hide LoadedOne, Readable;
      var i := 0;
      assert hs[..0] == [];
      while i < |hs|
        invariant i <= |hs|
        invariant memory == Loaded(old(memory), file, hs[..i])
      {
        assert hs[i] in hs;
        LoadSegment(file, hs[i]);
        i := i + 1;
        assert hs[..i][..i - 1] == hs[..i - 1];
      }
      assert hs[..i] == hs;
    }
  }
}
