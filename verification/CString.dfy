/** The word-at-a-time memory routines of the test environment, on a byte memory. */
module CString {
  import opened Bytes
  import opened Bits
  import opened BitLoops

  /** `s` with `data` in place from index `at` on. */
  function Patched(s: seq<byte>, at: nat, data: seq<byte>): (r: seq<byte>)
    requires at + |data| <= |s|
    ensures |r| == |s|
  {
    s[..at] + data + s[at + |data|..]
  }

  /** The first `k` bytes of `data` are in place. */
  lemma PatchedStep(s: seq<byte>, at: nat, data: seq<byte>, more: seq<byte>)
    requires at + |data| + |more| <= |s|
    ensures Patched(Patched(s, at, data), at + |data|, more) == Patched(s, at, data + more)
  {
  }

  predicate WordSize(w: nat) {
    w == 4 || w == 8
  }

  function LoadWord(s: seq<byte>, at: nat, w: nat): nat
    requires at + w <= |s|
  {
    FromLe(s[at..at + w])
  }

  method StoreWord(mem: array<byte>, at: nat, w: nat, v: nat)
    requires at + w <= mem.Length
    modifies mem
    ensures mem[..] == Patched(old(mem[..]), at, Le(v, w))
  {
    var data := Le(v, w);
    forall i | 0 <= i < w {
      mem[at + i] := data[i];
    }
    assert mem[..at] == old(mem[..at]);
    assert mem[at..at + w] == data;
    assert mem[at + w..] == old(mem[at + w..]);
    assert mem[..] == mem[..at] + mem[at..at + w] + mem[at + w..];
  }

  predicate WholeWords(n: nat, w: nat)
    requires WordSize(w)
  {
    n % w == 0
  }

  /** The mask test for alignment. */
  lemma AlignedIff(x: nat, w: nat)
    requires WordSize(w)
    ensures And(x, w - 1) == 0 <==> WholeWords(x, w)
  {
    AndOnes(x, w / 2 - 1);
    AndOnes(x / 2, w / 4 - 1);
    hide And;
    LowBit(x / 2 / 2);
    if w == 8 {
      AndOnes(x / 2 / 2, 0);
      AndZero(x / 2 / 2 / 2);
    } else {
      AndZero(x / 2 / 2);
    }
    Halving(x);
  }

  lemma AndOnes(x: nat, m: nat)
    ensures And(x, 2 * m + 1) == x % 2 + 2 * And(x / 2, m)
  {
    var n := 2 * m + 1;
    assert n % 2 == 1 && n / 2 == m;
    var rest := And(x / 2, m);
    if x == 0 {
      assert rest == 0;
    } else {
      assert And(x, n) == FromBit(x % 2 == 1) + 2 * rest;
    }
  }

  /** One test for several numbers. */
  lemma {:induction false} AndOrZeroIff(x: nat, y: nat, m: nat)
    ensures And(Or(x, y), m) == 0 <==> And(x, m) == 0 && And(y, m) == 0
    decreases x + y
  {
    if x + y != 0 {
      AndOrZeroIff(x / 2, y / 2, m / 2);
      assert Or(x, y) / 2 == Or(x / 2, y / 2);
    }
  }

  lemma BothAligned(x: nat, y: nat, w: nat)
    requires WordSize(w)
    ensures And(Or(x, y), w - 1) == 0 <==> WholeWords(x, w) && WholeWords(y, w)
  {
    AndOrZeroIff(x, y, w - 1);
    AlignedIff(x, w);
    AlignedIff(y, w);
  }

  lemma AllAligned(x: nat, y: nat, z: nat, w: nat)
    requires WordSize(w)
    ensures And(Or(Or(x, y), z), w - 1) == 0 <==> WholeWords(x, w) && WholeWords(y, w) && WholeWords(z, w)
  {
    AndOrZeroIff(Or(x, y), z, w - 1);
    BothAligned(x, y, w);
    AlignedIff(z, w);
  }

  predicate Apart(a: nat, b: nat, len: nat) {
    a + len <= b || b + len <= a
  }

  /** The next `n` bytes of the source are still there, and copying them continues the patch. */
  lemma CopyStep(was: seq<byte>, dest: nat, src: nat, k: nat, n: nat, len: nat)
    requires dest + len <= |was| && src + len <= |was| && Apart(dest, src, len) && k + n <= len
    ensures var done := Patched(was, dest, was[src..src + k]);
            && done[src + k..src + k + n] == was[src + k..src + k + n]
            && Patched(done, dest + k, was[src + k..src + k + n]) == Patched(was, dest, was[src..src + (k + n)])
  {
    hide Patched;
    PatchedElsewhere(was, dest, was[src..src + k], src + k, n);
    PatchedStep(was, dest, was[src..src + k], was[src + k..src + k + n]);
    assert was[src..src + k] + was[src + k..src + k + n] == was[src..src + (k + n)];
  }

  lemma CopyByteStep(was: seq<byte>, dest: nat, src: nat, k: nat, len: nat)
    requires dest + len <= |was| && src + len <= |was| && Apart(dest, src, len) && k < len
    ensures var done := Patched(was, dest, was[src..src + k]);
            done[dest + k := done[src + k]] == Patched(was, dest, was[src..src + (k + 1)])
  {
    hide Patched;
    CopyStep(was, dest, src, k, 1, len);
    var done := Patched(was, dest, was[src..src + k]);
    assert done[src + k] == done[src + k..src + k + 1][0] == was[src + k];
    assert was[src + k..src + k + 1] == [was[src + k]];
    PatchedOne(done, dest + k, was[src + k]);
  }

  /** Both the word loop and the byte loop copy; nothing outside the destination changes. */
  method Memcpy(mem: array<byte>, w: nat, dest: nat, src: nat, len: nat)
    requires WordSize(w) && dest + len <= mem.Length && src + len <= mem.Length && Apart(dest, src, len)
    modifies mem
    ensures mem[..] == Patched(old(mem[..]), dest, old(mem[src..src + len]))
  {
    hide Patched, Le, FromLe, And, Or;
    ghost var was := mem[..];
    PatchedNothing(was, dest);
    assert was[src..src + 0] == [];
    var k := 0;
    AllAligned(dest, src, len, w);
    if And(Or(Or(dest, src), len), w - 1) == 0 {
      while k < len
        invariant k <= len && WholeWords(k, w)
        invariant mem[..] == Patched(was, dest, was[src..src + k])
      {
        WordsFit(k, len, w);
        CopyStep(was, dest, src, k, w, len);
        FromLeRoundTrip(was[src + k..src + k + w]);
        var v := LoadWord(mem[..], src + k, w);
        StoreWord(mem, dest + k, w, v);
        k := k + w;
      }
    } else {
      while k < len
        invariant k <= len
        invariant mem[..] == Patched(was, dest, was[src..src + k])
      {
        CopyByteStep(was, dest, src, k, len);
        mem[dest + k] := mem[src + k];
        k := k + 1;
      }
    }
  }

  lemma PatchedNothing(s: seq<byte>, at: nat)
    requires at <= |s|
    ensures Patched(s, at, []) == s
  {
  }

  lemma PatchedOne(s: seq<byte>, at: nat, b: byte)
    requires at < |s|
    ensures Patched(s, at, [b]) == s[at := b]
  {
  }

  /** A patch does not reach other places. */
  lemma PatchedElsewhere(s: seq<byte>, at: nat, data: seq<byte>, other: nat, n: nat)
    requires at + |data| <= |s| && other + n <= |s| && (other + n <= at || at + |data| <= other)
    ensures Patched(s, at, data)[other..other + n] == s[other..other + n]
    ensures forall i | other <= i < other + n :: Patched(s, at, data)[i] == s[i]
  {
  }

  lemma WordsFit(k: nat, len: nat, w: nat)
    requires WordSize(w) && k < len && WholeWords(k, w) && WholeWords(len, w)
    ensures k + w <= len && WholeWords(k + w, w)
  {
  }

  // memset

  function Repeated(b: byte, n: nat): (s: seq<byte>)
    ensures |s| == n && forall i | 0 <= i < n :: s[i] == b
  {
    seq(n, _ => b)
  }

  function RepeatedNumber(b: byte, n: nat): nat {
    if n == 0 then 0 else b + 256 * RepeatedNumber(b, n - 1)
  }

  lemma {:induction false} RepeatedNumberBytes(b: byte, n: nat)
    ensures Le(RepeatedNumber(b, n), n) == Repeated(b, n)
  {
    if 0 < n {
      RepeatedNumberBytes(b, n - 1);
      assert RepeatedNumber(b, n) / 256 == RepeatedNumber(b, n - 1);
    }
  }

  /** The byte spread over a word by shifting and or-ing. */
  function Spread(b: byte, w: nat): nat {
    var bits := 8 * w;
    var w1 := Or(b, Shl(b, 8, bits));
    var w2 := Or(w1, Shl(w1, 16, bits));
    Or(w2, Shl(Shl(w2, 16, bits), 16, bits))
  }

  lemma OrStep(x: nat, y: nat, n: nat, w: nat)
    requires x < Pow2(n) && y * Pow2(n) < Pow2(w)
    ensures Shl(y, n, w) == y * Pow2(n)
    ensures Or(x, Shl(y, n, w)) == x + y * Pow2(n)
  {
    hide Pow2, Shift, Cut, Or;
    ShiftIsProduct(y, n);
    CutKeepsIff(Shift(y, n), w);
    OrDisjoint(x, y, n);
  }

  /** Two shifts by half of a 32-bit word leave nothing. */
  lemma ShiftedOut(x: nat)
    ensures Shl(Shl(x, 16, 32), 16, 32) == 0
  {
    hide Shl, Bit;
    forall i: nat ensures Bit(Shl(Shl(x, 16, 32), 16, 32), i) == Bit(0, i) {
      BitShl(Shl(x, 16, 32), 16, 32, i);
      if 16 <= i {
        BitShl(x, 16, 32, i - 16);
      }
      BitOfZero(i);
    }
    SameBits(Shl(Shl(x, 16, 32), 16, 32), 0);
  }

  lemma OrNothing(x: nat)
    ensures Or(x, 0) == x
  {
    hide Or, Bit;
    forall i: nat ensures Bit(Or(x, 0), i) == Bit(x, i) {
      BitOr(x, 0, i);
      BitOfZero(i);
    }
    SameBits(Or(x, 0), x);
  }

  /** Every byte of the spread word is the byte. */
  lemma SpreadBytes(b: byte, w: nat)
    requires WordSize(w)
    ensures Le(Spread(b, w), w) == Repeated(b, w)
  {
    SpreadNumber(b, w);
    RepeatedNumberBytes(b, w);
  }

  lemma SpreadNumber(b: byte, w: nat)
    requires WordSize(w)
    ensures Spread(b, w) == RepeatedNumber(b, w)
  {
    hide Pow2, Or, Shl;
    Powers();
    var bits := 8 * w;
    OrStep(b, b, 8, bits);
    var w1 := Or(b, Shl(b, 8, bits));
    OrStep(w1, w1, 16, bits);
    var w2 := Or(w1, Shl(w1, 16, bits));
    if w == 4 {
      ShiftedOut(w2);
      OrNothing(w2);
    } else {
      OrStep(0, w2, 16, bits);
      OrStep(0, w2 * 0x1_0000, 16, bits);
      OrStep(w2, w2, 32, bits);
    }
    RepeatedNumbers(b);
  }

  lemma RepeatedNumbers(b: byte)
    ensures RepeatedNumber(b, 4) == b * 0x0101_0101
    ensures RepeatedNumber(b, 8) == b * 0x0101_0101_0101_0101
  {
    assert RepeatedNumber(b, 1) == b;
    assert RepeatedNumber(b, 2) == b * 0x0101;
    assert RepeatedNumber(b, 3) == b * 0x01_0101;
    assert RepeatedNumber(b, 4) == b * 0x0101_0101;
    assert RepeatedNumber(b, 5) == b * 0x01_0101_0101;
    assert RepeatedNumber(b, 6) == b * 0x0101_0101_0101;
    assert RepeatedNumber(b, 7) == b * 0x01_0101_0101_0101;
  }

  lemma SetStep(was: seq<byte>, dest: nat, b: byte, k: nat, n: nat)
    requires dest + k + n <= |was|
    ensures Patched(Patched(was, dest, Repeated(b, k)), dest + k, Repeated(b, n)) == Patched(was, dest, Repeated(b, k + n))
    ensures n == 1 ==> Patched(was, dest, Repeated(b, k))[dest + k := b] == Patched(was, dest, Repeated(b, k + n))
  {
    hide Patched;
    PatchedStep(was, dest, Repeated(b, k), Repeated(b, n));
    assert Repeated(b, k) + Repeated(b, n) == Repeated(b, k + n);
    if n == 1 {
      assert Repeated(b, n) == [b];
      PatchedOne(Patched(was, dest, Repeated(b, k)), dest + k, b);
    }
  }

  /** The word loop stores the spread byte, the byte loop the byte; the range reads the same. */
  method Memset(mem: array<byte>, w: nat, dest: nat, value: int, len: nat)
    requires WordSize(w) && dest + len <= mem.Length
    modifies mem
    ensures mem[..] == Patched(old(mem[..]), dest, Repeated(value % 256, len))
  {
    hide Patched, Le, Spread, Repeated, And, Or;
    ghost var was := mem[..];
    var b: byte := value % 256;
    PatchedNothing(was, dest);
    assert Repeated(b, 0) == [];
    var k := 0;
    BothAligned(dest, len, w);
    if And(Or(dest, len), w - 1) == 0 {
      var word := Spread(b, w);
      SpreadBytes(b, w);
      while k < len
        invariant k <= len && WholeWords(k, w)
        invariant mem[..] == Patched(was, dest, Repeated(b, k))
      {
        WordsFit(k, len, w);
        SetStep(was, dest, b, k, w);
        StoreWord(mem, dest + k, w, word);
        k := k + w;
      }
    } else {
      while k < len
        invariant k <= len
        invariant mem[..] == Patched(was, dest, Repeated(b, k))
      {
        SetStep(was, dest, b, k, 1);
        mem[dest + k] := b;
        k := k + 1;
      }
    }
  }

  // memcmp

  /** The difference of the first bytes that differ, 0 if none do. */
  function Compare(a: seq<byte>, b: seq<byte>): int
    requires |a| == |b|
  {
    if a == [] then 0 else if a[0] != b[0] then a[0] - b[0] else Compare(a[1..], b[1..])
  }

  lemma {:induction false} CompareZeroIffEqual(a: seq<byte>, b: seq<byte>)
    requires |a| == |b|
    ensures Compare(a, b) == 0 <==> a == b
  {
    if a != [] && a[0] == b[0] {
      CompareZeroIffEqual(a[1..], b[1..]);
      assert a == [a[0]] + a[1..] && b == [b[0]] + b[1..];
    }
  }

  lemma {:induction false} CompareSkip(a: seq<byte>, b: seq<byte>, k: nat)
    requires |a| == |b| && k <= |a| && a[..k] == b[..k]
    ensures Compare(a, b) == Compare(a[k..], b[k..])
  {
    if 0 < k {
      assert a[0] == a[..k][0] && b[0] == b[..k][0];
      assert a[1..][..k - 1] == a[..k][1..] && b[1..][..k - 1] == b[..k][1..];
      CompareSkip(a[1..], b[1..], k - 1);
      assert a[1..][k - 1..] == a[k..] && b[1..][k - 1..] == b[k..];
    }
  }

  /** The first place where the bytes differ decides. */
  lemma FirstDifferenceDecides(a: seq<byte>, b: seq<byte>, k: nat)
    requires |a| == |b| && k < |a| && a[..k] == b[..k] && a[k] != b[k]
    ensures Compare(a, b) == a[k] as int - b[k] as int
  {
    CompareSkip(a, b, k);
  }

  lemma WordsEqualIff(a: seq<byte>, b: seq<byte>)
    requires |a| == |b|
    ensures FromLe(a) == FromLe(b) <==> a == b
  {
    FromLeRoundTrip(a);
    FromLeRoundTrip(b);
  }

  /** A part of a part of the memory is a part of the memory. */
  lemma PartOfRange(mem: seq<byte>, at: nat, n: nat, k: nat, w: nat)
    requires at + n <= |mem| && k + w <= n
    ensures mem[at..at + n][k..k + w] == mem[at + k..at + k + w]
  {
    var part, whole := mem[at..at + n][k..k + w], mem[at + k..at + k + w];
    forall i | 0 <= i < w ensures part[i] == whole[i] {
      assert mem[at..at + n][k + i] == mem[at + k + i];
    }
  }

  lemma PrefixSplits(a: seq<byte>, k: nat, w: nat)
    requires k + w <= |a|
    ensures a[..k + w] == a[..k] + a[k..k + w] && a[..k + w][k..] == a[k..k + w]
  {
  }

  /** Equal prefixes grow by equal words, and the words of a range are those of the memory. */
  lemma EqualStep(mem: seq<byte>, s1: nat, s2: nat, n: nat, k: nat, w: nat)
    requires s1 + n <= |mem| && s2 + n <= |mem| && k + w <= n
    ensures var a, b := mem[s1..s1 + n], mem[s2..s2 + n];
            a[..k] == b[..k] ==>
              (a[..k + w] == b[..k + w] <==> LoadWord(mem, s1 + k, w) == LoadWord(mem, s2 + k, w))
  {
    hide FromLe;
    var a, b := mem[s1..s1 + n], mem[s2..s2 + n];
    WordsEqualIff(mem[s1 + k..s1 + k + w], mem[s2 + k..s2 + k + w]);
    PartOfRange(mem, s1, n, k, w);
    PartOfRange(mem, s2, n, k, w);
    PrefixSplits(a, k, w);
    PrefixSplits(b, k, w);
  }

  lemma FirstDifference(mem: seq<byte>, s1: nat, s2: nat, n: nat, k: nat)
    requires s1 + n <= |mem| && s2 + n <= |mem| && k < n && mem[s1..s1 + n][..k] == mem[s2..s2 + n][..k]
    ensures mem[s1 + k] != mem[s2 + k] ==>
              Compare(mem[s1..s1 + n], mem[s2..s2 + n]) == mem[s1 + k] as int - mem[s2 + k] as int
    ensures mem[s1 + k] == mem[s2 + k] ==> mem[s1..s1 + n][..k + 1] == mem[s2..s2 + n][..k + 1]
  {
    var a, b := mem[s1..s1 + n], mem[s2..s2 + n];
    CompareSkip(a, b, k);
    assert a[..k + 1] == a[..k] + [a[k]] && b[..k + 1] == b[..k] + [b[k]];
  }

  /** Where the whole words of `n` bytes end. */
  function WordsEnd(n: nat, w: nat): (end: nat)
    requires WordSize(w)
    ensures end <= n < end + w && WholeWords(end, w) && WholeWords(0, w)
  {
    n / w * w
  }

  /** The word loop skips equal words; the byte loop finds the difference. */
  method Memcmp(mem: array<byte>, w: nat, s1: nat, s2: nat, n: nat) returns (r: int)
    requires WordSize(w) && s1 + n <= mem.Length && s2 + n <= mem.Length
    ensures r == Compare(mem[..][s1..s1 + n], mem[..][s2..s2 + n])
  {
    hide LoadWord, Compare, And, Or, WholeWords;
    ghost var a, b := mem[..][s1..s1 + n], mem[..][s2..s2 + n];
    var k := 0;
    if And(Or(s1, s2), w - 1) == 0 {
      var end := WordsEnd(n, w);
      while k < end
        invariant k <= end <= n && WholeWords(k, w) && a[..k] == b[..k]
      {
        WordsFit(k, end, w);
        EqualStep(mem[..], s1, s2, n, k, w);
        if LoadWord(mem[..], s1 + k, w) != LoadWord(mem[..], s2 + k, w) {
          break;
        }
        k := k + w;
      }
    }
    while k < n
      invariant k <= n && a[..k] == b[..k]
    {
      FirstDifference(mem[..], s1, s2, n, k);
      if mem[s1 + k] != mem[s2 + k] {
        return mem[s1 + k] as int - mem[s2 + k] as int;
      }
      k := k + 1;
    }
    CompareZeroIffEqual(a, b);
    assert a[..n] == a && b[..n] == b;
    return 0;
  }
}
