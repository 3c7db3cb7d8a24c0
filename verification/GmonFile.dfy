/** The collected profile as a reader of the file format sees it. */
module GmonFile {
  import opened Bytes
  import opened ArcTable
  import opened Gprof

  datatype GmonFile = GmonFile(lowpc: nat, highpc: nat, rate: nat, spare: seq<byte>, kcount: seq<nat>, arcs: seq<RawArc>)

  function ReadCounters(b: seq<byte>): (k: seq<nat>)
    requires |b| % 2 == 0
    ensures |k| == |b| / 2
  {
    if b == [] then [] else [FromLe(b[..2])] + ReadCounters(b[2..])
  }

  /** Records of three words each, to the end. */
  function ReadArcs(b: seq<byte>, w: nat): Option<seq<RawArc>>
    requires 0 < w
    decreases |b|
  {
    if b == [] then Some([])
    else if |b| < 3 * w then None
    else
      match ReadArcs(b[3 * w..], w)
      case None => None
      case Some(more) => Some([RawArc(FromLe(b[..w]), FromLe(b[w..2 * w]), FromLe(b[2 * w..3 * w]))] + more)
  }

  /** Counters and arcs, once the header is read. */
  function ReadBody(low: nat, high: nat, rate: nat, spare: seq<byte>, counters: seq<byte>, arcs: seq<byte>, w: nat)
    : Option<GmonFile>
    requires 0 < w
  {
    if |counters| % 2 != 0 then None
    else
      match ReadArcs(arcs, w)
      case None => None
      case Some(a) => Some(GmonFile(low, high, rate, spare, ReadCounters(counters), a))
  }

  function Field(b: seq<byte>, at: nat, n: nat): nat
    requires at + n <= |b|
  {
    FromLe(b[at..at + n])
  }

  /** The header says how many bytes header and counters take; arcs fill the rest. */
  function ReadImage(b: seq<byte>, w: nat): Option<GmonFile>
    requires w == 4 || w == 8
  {
    var h := HeaderSize(w);
    if |b| < h then None
    else
      var ncnt := Field(b, 2 * w, 4);
      if Field(b, 2 * w + 4, 4) != GMONVERSION || ncnt < h || |b| < ncnt then None
      else
        ReadBody(Field(b, 0, w), Field(b, w, w), Field(b, 2 * w + 8, 4), b[2 * w + 12..h], b[h..ncnt], b[ncnt..], w)
  }

  // What fits.

  lemma FitsIff(v: nat, n: nat)
    ensures FromLe(Le(v, n)) == v <==> v < Pow256(n)
  {
    FromLeBound(Le(v, n));
    if v < Pow256(n) {
      LeRoundTrip(v, n);
    }
  }

  predicate ArcFits(r: RawArc, w: nat) {
    r.frompc < Pow256(w) && r.selfpc < Pow256(w) && r.count < Pow256(w)
  }

  predicate ArcsFit(r: seq<RawArc>, w: nat) {
    forall i | 0 <= i < |r| :: ArcFits(r[i], w)
  }

  predicate CountersFit(k: seq<nat>) {
    forall i | 0 <= i < |k| :: k[i] < Pow256(2)
  }

  predicate HeaderFits(p: Profile, w: nat) {
    && p.lowpc + p.textsize < Pow256(w)
    && p.textsize / 2 + HeaderSize(w) < Pow256(4)
  }

  /** Every number of the image fits the field it is stored in. */
  predicate ImageHolds(p: Profile, w: nat) {
    HeaderFits(p, w) && CountersFit(p.kcount) && ArcsFit(Export(p), w)
  }

  // Round trips.

  lemma {:induction false} CountersBackIff(k: seq<nat>)
    ensures ReadCounters(CounterBytes(k)) == k <==> CountersFit(k)
  {
    hide FromLe, Le, Pow256;
    if k != [] {
      var b, rest := CounterBytes(k), k[1..];
      CountersBackIff(rest);
      FitsIff(k[0], 2);
      assert b[..2] == Le(k[0], 2) && b[2..] == CounterBytes(rest);
      assert k == [k[0]] + rest;
      assert CountersFit(k) <==> k[0] < Pow256(2) && CountersFit(rest) by {
        assert CountersFit(k) ==> CountersFit(rest) by {
          assert forall i | 0 <= i < |rest| :: rest[i] == k[i + 1];
        }
      }
      var read := ReadCounters(b);
      assert read == [FromLe(b[..2])] + ReadCounters(b[2..]);
      assert read[1..] == ReadCounters(b[2..]) && read[0] == FromLe(b[..2]);
    }
  }

  /** The arcs of an image, front first. */
  function ArcImage(r: seq<RawArc>, w: nat): (b: seq<byte>)
    ensures |b| == |r| * (3 * w)
  {
    if r == [] then []
    else
      MultiplySuccessor(|r| - 1, 3 * w);
      ArcBytes(w, r[0]) + ArcImage(r[1..], w)
  }

  lemma {:induction false} ArcImageIs(r: seq<RawArc>, w: nat)
    ensures Flatten(ArcPieces(w, r)) == ArcImage(r, w)
  {
    hide ArcBytes;
    if r != [] {
      ArcImageIs(r[1..], w);
      FlattenConcat([ArcBytes(w, r[0])], ArcPieces(w, r[1..]));
      assert ArcPieces(w, r) == [ArcBytes(w, r[0])] + ArcPieces(w, r[1..]);
      FlattenOne(ArcBytes(w, r[0]));
    }
  }

  lemma ArcBackIff(r: RawArc, w: nat, rest: seq<byte>)
    requires 0 < w
    ensures var b := ArcBytes(w, r) + rest;
            && b[3 * w..] == rest && b != []
            && (RawArc(FromLe(b[..w]), FromLe(b[w..2 * w]), FromLe(b[2 * w..3 * w])) == r <==> ArcFits(r, w))
  {
    hide FromLe, Le, Pow256;
    FitsIff(r.frompc, w);
    FitsIff(r.selfpc, w);
    FitsIff(r.count, w);
    var b := ArcBytes(w, r) + rest;
    assert b[..w] == Le(r.frompc, w) && b[w..2 * w] == Le(r.selfpc, w) && b[2 * w..3 * w] == Le(r.count, w);
  }

  lemma {:induction false} ArcsBackIff(r: seq<RawArc>, w: nat)
    requires 0 < w
    ensures ReadArcs(ArcImage(r, w), w) == Some(r) <==> ArcsFit(r, w)
  {
    hide FromLe, ArcFits;
    if r != [] {
      var rest, b := r[1..], ArcImage(r, w);
      ArcsBackIff(rest, w);
      ArcBackIff(r[0], w, ArcImage(rest, w));
      assert b == ArcBytes(w, r[0]) + ArcImage(rest, w);
      hide ArcBytes;
      ArcsFitSplit(r, w);
      var more := ReadArcs(ArcImage(rest, w), w);
      if more.Some? {
        var first := RawArc(FromLe(b[..w]), FromLe(b[w..2 * w]), FromLe(b[2 * w..3 * w]));
        assert ReadArcs(b, w) == Some([first] + more.value);
        assert [first] + more.value == r <==> first == r[0] && more.value == rest by {
          assert ([first] + more.value)[1..] == more.value && r == [r[0]] + rest;
        }
      }
    }
  }

  lemma ArcsFitSplit(r: seq<RawArc>, w: nat)
    requires r != []
    ensures ArcsFit(r, w) <==> ArcFits(r[0], w) && ArcsFit(r[1..], w)
  {
    hide ArcFits;
    assert forall i | 0 <= i < |r| - 1 :: r[1..][i] == r[i + 1];
  }

  /** The fields of the header, each where the reader looks for it. */
  lemma HeaderPlaces(low: nat, high: nat, kcountsize: nat, w: nat, spare: seq<byte>, rest: seq<byte>)
    requires |spare| == 12
    ensures var b, h := HeaderBytes(low, high, kcountsize, w, spare) + rest, HeaderSize(w);
            && |b| == h + |rest|
            && Field(b, 0, w) == FromLe(Le(low, w)) && Field(b, w, w) == FromLe(Le(high, w))
            && Field(b, 2 * w, 4) == FromLe(Le(kcountsize + h, 4))
            && Field(b, 2 * w + 4, 4) == FromLe(Le(GMONVERSION, 4))
            && Field(b, 2 * w + 8, 4) == FromLe(Le(PROF_HZ, 4))
            && b[2 * w + 12..h] == spare && b[h..] == rest
  {
    hide Le, FromLe;
    var b, h := HeaderBytes(low, high, kcountsize, w, spare) + rest, HeaderSize(w);
    assert b[0..w] == Le(low, w) && b[w..w + w] == Le(high, w);
    assert b[2 * w..2 * w + 4] == Le(kcountsize + h, 4) && b[2 * w + 4..2 * w + 4 + 4] == Le(GMONVERSION, 4);
    assert b[2 * w + 8..2 * w + 8 + 4] == Le(PROF_HZ, 4);
  }

  lemma FixedNumbers()
    ensures FromLe(Le(GMONVERSION, 4)) == GMONVERSION && FromLe(Le(PROF_HZ, 4)) == PROF_HZ
  {
    FitsIff(GMONVERSION, 4);
    FitsIff(PROF_HZ, 4);
    assert Pow256(4) == 0x1_0000_0000;
  }

  /** A header, byte for byte: a 32-bit text from 0x80000000 to 0x80001000, its length of header and
      counters, the version and the rate. */
  lemma AHeader(spare: seq<byte>)
    requires |spare| == 12
    ensures HeaderBytes(0x8000_0000, 0x8000_1000, 0x800, 4, spare)
         == [0, 0, 0, 0x80] + [0, 0x10, 0, 0x80] + [0x20, 0x08, 0, 0] + [0x79, 0x18, 0x05, 0] + [0xe8, 0x03, 0, 0] + spare
  {
    Word4(0x8000_0000, 0, 0, 0, 0x80);
    Word4(0x8000_1000, 0, 0x10, 0, 0x80);
    Word4(0x820, 0x20, 0x08, 0, 0);
    Word4(0x51879, 0x79, 0x18, 0x05, 0);
    Word4(1000, 0xe8, 0x03, 0, 0);
    hide Le;
  }

  lemma Word4(v: nat, b0: byte, b1: byte, b2: byte, b3: byte)
    requires v == b0 + 256 * (b1 + 256 * (b2 + 256 * b3))
    ensures Le(v, 4) == [b0, b1, b2, b3]
  {
    LeByte(b3, 0, 0);
    LeByte(b2, b3, 1);
    LeByte(b1, b2 + 256 * b3, 2);
    LeByte(b0, b1 + 256 * (b2 + 256 * b3), 3);
    assert Le(0, 0) == [];
    hide Le;
  }

  lemma LeByte(b: byte, rest: nat, n: nat)
    ensures Le(b + 256 * rest, n + 1) == [b] + Le(rest, n)
  {
    var v := b + 256 * rest;
    assert v % 256 == b && v / 256 == rest;
  }

  function FileOf(p: Profile, spare: seq<byte>): GmonFile {
    GmonFile(p.lowpc, p.lowpc + p.textsize, PROF_HZ, spare, p.kcount, Export(p))
  }

  lemma ImageIs(p: Profile, w: nat, spare: seq<byte>)
    requires |spare| == 12 && WellSized(p)
    ensures |CounterBytes(p.kcount)| == p.textsize / 2
    ensures Flatten(Pieces(p, w, spare)) ==
            HeaderBytes(p.lowpc, p.lowpc + p.textsize, p.textsize / 2, w, spare) + (CounterBytes(p.kcount) + ArcImage(Export(p), w))
  {
    hide HeaderBytes, CounterBytes, ArcPieces, ArcImage, Export;
    var h, c := HeaderOf(p, w, spare), CounterBytes(p.kcount);
    FlattenConcat([h, c], ArcPieces(w, Export(p)));
    FlattenTwo(h, c);
    ArcImageIs(Export(p), w);
  }

  lemma Sections(b: seq<byte>, h: nat, counters: seq<byte>, arcs: seq<byte>)
    requires h <= |b| && b[h..] == counters + arcs
    ensures h + |counters| <= |b| && b[h..h + |counters|] == counters && b[h + |counters|..] == arcs
  {
    assert b[h..h + |counters|] == b[h..][..|counters|];
    assert b[h + |counters|..] == b[h..][|counters|..];
  }

  /** What is read when the length word holds the length. */
  lemma ReadParts(low: nat, high: nat, w: nat, spare: seq<byte>, counters: seq<byte>, arcs: seq<byte>)
    requires (w == 4 || w == 8) && |spare| == 12 && |counters| + HeaderSize(w) < Pow256(4)
    ensures ReadImage(HeaderBytes(low, high, |counters|, w, spare) + (counters + arcs), w)
         == ReadBody(FromLe(Le(low, w)), FromLe(Le(high, w)), PROF_HZ, spare, counters, arcs, w)
  {
    var h := HeaderSize(w);
    var b := HeaderBytes(low, high, |counters|, w, spare) + (counters + arcs);
    HeaderPlaces(low, high, |counters|, w, spare, counters + arcs);
    FixedNumbers();
    FitsIff(|counters| + h, 4);
    Sections(b, h, counters, arcs);
    hide Field, FromLe, Le, Pow256, HeaderBytes, ReadBody, HeaderSize;
  }

  /** And that it does not go well when the length word wrapped. */
  lemma ReadWrapped(low: nat, high: nat, w: nat, spare: seq<byte>, counters: seq<byte>, arcs: seq<byte>)
    requires (w == 4 || w == 8) && |spare| == 12 && |counters| + HeaderSize(w) >= Pow256(4)
    ensures var r := ReadImage(HeaderBytes(low, high, |counters|, w, spare) + (counters + arcs), w);
            r.Some? ==> 2 * |r.value.kcount| != |counters|
  {
    hide *;
    HeaderPlaces(low, high, |counters|, w, spare, counters + arcs);
    FitsIff(|counters| + HeaderSize(w), 4);
    ReadLength(HeaderBytes(low, high, |counters|, w, spare) + (counters + arcs), w);
  }

  /** The counters read are as many as the length word says. */
  lemma ReadLength(b: seq<byte>, w: nat)
    requires (w == 4 || w == 8) && HeaderSize(w) <= |b|
    ensures 2 * w + 4 <= |b|
    ensures var r := ReadImage(b, w); r.Some? ==> 2 * |r.value.kcount| + HeaderSize(w) == Field(b, 2 * w, 4)
  {
    var h, ncnt := HeaderSize(w), Field(b, 2 * w, 4);
    if h <= ncnt <= |b| {
      BodyLength(Field(b, 0, w), Field(b, w, w), Field(b, 2 * w + 8, 4), b[2 * w + 12..h], b[h..ncnt], b[ncnt..], w);
    }
    hide ReadBody, Field;
  }

  lemma BodyLength(low: nat, high: nat, rate: nat, spare: seq<byte>, counters: seq<byte>, arcs: seq<byte>, w: nat)
    requires 0 < w
    ensures var r := ReadBody(low, high, rate, spare, counters, arcs, w);
            r.Some? ==> 2 * |r.value.kcount| == |counters|
  {
    hide ReadArcs, ReadCounters;
  }

  lemma BodyIs(p: Profile, spare: seq<byte>, low: nat, high: nat, counters: seq<byte>, arcs: seq<byte>, w: nat)
    requires 0 < w && |counters| % 2 == 0
    ensures ReadBody(low, high, PROF_HZ, spare, counters, arcs, w) == Some(FileOf(p, spare))
       <==> low == p.lowpc && high == p.lowpc + p.textsize && ReadCounters(counters) == p.kcount && ReadArcs(arcs, w) == Some(Export(p))
  {
    hide Export, ReadArcs, ReadCounters;
  }

  lemma ShortImageBackIff(p: Profile, w: nat, spare: seq<byte>, image: seq<byte>)
    requires (w == 4 || w == 8) && |spare| == 12 && |CounterBytes(p.kcount)| + HeaderSize(w) < Pow256(4)
    requires image == HeaderBytes(p.lowpc, p.lowpc + p.textsize, |CounterBytes(p.kcount)|, w, spare)
                      + (CounterBytes(p.kcount) + ArcImage(Export(p), w))
    ensures ReadImage(image, w) == Some(FileOf(p, spare)) <==>
            p.lowpc + p.textsize < Pow256(w) && CountersFit(p.kcount) && ArcsFit(Export(p), w)
  {
    hide *;
    var high, counters, arcs := p.lowpc + p.textsize, CounterBytes(p.kcount), ArcImage(Export(p), w);
    ReadParts(p.lowpc, high, w, spare, counters, arcs);
    FitsIff(p.lowpc, w);
    FitsIff(high, w);
    CountersBackIff(p.kcount);
    ArcsBackIff(Export(p), w);
    BodyIs(p, spare, FromLe(Le(p.lowpc, w)), FromLe(Le(high, w)), counters, arcs, w);
  }

  lemma LongImageLost(p: Profile, w: nat, spare: seq<byte>, image: seq<byte>)
    requires (w == 4 || w == 8) && |spare| == 12 && |CounterBytes(p.kcount)| + HeaderSize(w) >= Pow256(4)
    requires image == HeaderBytes(p.lowpc, p.lowpc + p.textsize, |CounterBytes(p.kcount)|, w, spare)
                      + (CounterBytes(p.kcount) + ArcImage(Export(p), w))
    ensures ReadImage(image, w) != Some(FileOf(p, spare))
  {
    FileCounters(p, spare);
    hide *;
    ReadWrapped(p.lowpc, p.lowpc + p.textsize, w, spare, CounterBytes(p.kcount), ArcImage(Export(p), w));
  }

  lemma FileCounters(p: Profile, spare: seq<byte>)
    ensures FileOf(p, spare).kcount == p.kcount
  {
    hide Export;
  }

  /** From the collected bytes a reader recovers the text range, every counter and every arc exactly
      when each number fits its field: addresses and call counts a word, the length 32 bits. */
  lemma ReadImageBackIff(p: Profile, w: nat, spare: seq<byte>)
    requires (w == 4 || w == 8) && WellSized(p) && |spare| == 12
    ensures ReadImage(Flatten(Pieces(p, w, spare)), w) == Some(FileOf(p, spare)) <==> ImageHolds(p, w)
  {
    ImageIs(p, w, spare);
    hide CountersFit, ArcsFit, HeaderSize, ReadImage, Pow256, Flatten, Pieces, FileOf, HeaderBytes, CounterBytes, ArcImage, Export;
    if |CounterBytes(p.kcount)| + HeaderSize(w) < Pow256(4) {
      ShortImageBackIff(p, w, spare, Flatten(Pieces(p, w, spare)));
    } else {
      LongImageLost(p, w, spare, Flatten(Pieces(p, w, spare)));
    }
  }
}
