/** The coverage data file: how counters are laid out as words and bytes, and how a reader that
    knows only tags and lengths gets them back. */
module Gcda {
  import opened Bytes

  type u32 = x: int | 0 <= x < 0x1_0000_0000
  type u64 = x: int | 0 <= x < 0x1_0000_0000_0000_0000

  const GCOV_DATA_MAGIC: u32 := 0x67636461
  const GCOV_TAG_FUNCTION: u32 := 0x01000000
  const GCOV_TAG_COUNTER_BASE: u32 := 0x01a10000
  const GCOV_TAG_FUNCTION_LENGTH := 3
  const MAX_COUNTERS := 10

  /** One instrumented function; `ctrs` has the values of each active counter type, in order. */
  datatype FnInfo = FnInfo(ident: u32, linenoChecksum: u32, cfgChecksum: u32, ctrs: seq<seq<u64>>)

  /** One object file; `active` tells which counter types have a merge function. */
  datatype Info = Info(version: u32, stamp: u32, active: seq<bool>, functions: seq<FnInfo>)

  /** From GCC 12 on lengths are in bytes and the header has a checksum word. */
  function UnitSize(gcc12: bool): nat {
    if gcc12 then 4 else 1
  }

  function ActiveFrom(active: seq<bool>, t: nat): nat
    requires t <= |active|
    decreases |active| - t
  {
    if t == |active| then 0 else (if active[t] then 1 else 0) + ActiveFrom(active, t + 1)
  }

  /** What the compiler guarantees: few enough counter types, values for each active one. */
  predicate WellFormed(info: Info) {
    && |info.active| <= MAX_COUNTERS
    && forall f | 0 <= f < |info.functions| :: ActiveFrom(info.active, 0) <= |info.functions[f].ctrs|
  }

  function TagForCounter(t: nat): u32
    requires t < MAX_COUNTERS
  {
    GCOV_TAG_COUNTER_BASE + t * 0x2_0000
  }

  // Layout.

  /** 64-bit numbers are stored low half first. */
  function U64Words(v: u64): seq<u32> {
    [v % 0x1_0000_0000, v / 0x1_0000_0000]
  }

  function ValueWords(values: seq<u64>): (ws: seq<u32>)
    ensures |ws| == 2 * |values|
  {
    if values == [] then [] else U64Words(values[0]) + ValueWords(values[1..])
  }

  function CounterLength(values: seq<u64>, gcc12: bool): u32 {
    |values| * 2 * UnitSize(gcc12) % 0x1_0000_0000
  }

  function CounterHead(t: nat, values: seq<u64>, gcc12: bool): seq<u32>
    requires t < MAX_COUNTERS
  {
    [TagForCounter(t), CounterLength(values, gcc12)]
  }

  /** The records of the counter types from `t` on; `k` active ones came before. */
  function CounterWords(active: seq<bool>, ctrs: seq<seq<u64>>, t: nat, k: nat, gcc12: bool): seq<u32>
    requires t <= |active| <= MAX_COUNTERS && k + ActiveFrom(active, t) <= |ctrs|
    decreases |active| - t
  {
    if t == |active| then []
    else if active[t] then
      CounterHead(t, ctrs[k], gcc12) + (ValueWords(ctrs[k]) + CounterWords(active, ctrs, t + 1, k + 1, gcc12))
    else CounterWords(active, ctrs, t + 1, k, gcc12)
  }

  function FunctionHead(fn: FnInfo, gcc12: bool): seq<u32> {
    [GCOV_TAG_FUNCTION, GCOV_TAG_FUNCTION_LENGTH * UnitSize(gcc12), fn.ident, fn.linenoChecksum, fn.cfgChecksum]
  }

  function FunctionWords(info: Info, f: nat, gcc12: bool): seq<u32>
    requires WellFormed(info) && f <= |info.functions|
    decreases |info.functions| - f
  {
    if f == |info.functions| then []
    else
      var fn := info.functions[f];
      FunctionHead(fn, gcc12) + (CounterWords(info.active, fn.ctrs, 0, 0, gcc12) + FunctionWords(info, f + 1, gcc12))
  }

  function HeaderWords(info: Info, gcc12: bool): seq<u32> {
    [GCOV_DATA_MAGIC, info.version, info.stamp] + if gcc12 then [0] else []
  }

  function FileWords(info: Info, gcc12: bool): seq<u32>
    requires WellFormed(info)
  {
    HeaderWords(info, gcc12) + FunctionWords(info, 0, gcc12)
  }

  function WordBytes(ws: seq<u32>): (b: seq<byte>)
    ensures |b| == 4 * |ws|
  {
    if ws == [] then [] else WordBytes(ws[..|ws| - 1]) + Le(ws[|ws| - 1], 4)
  }

  // Reading by tag and length.

  datatype Counter = Counter(kind: nat, values: seq<u64>)

  datatype FnRecord = FnRecord(ident: u32, linenoChecksum: u32, cfgChecksum: u32, counters: seq<Counter>)

  datatype DataFile = DataFile(version: u32, stamp: u32, functions: seq<FnRecord>)

  function ReadValues(ws: seq<u32>): seq<u64>
    requires |ws| % 2 == 0
  {
    if ws == [] then [] else [ws[0] as int + 0x1_0000_0000 * ws[1] as int] + ReadValues(ws[2..])
  }

  predicate IsCounterTag(w: u32) {
    && GCOV_TAG_COUNTER_BASE <= w && (w - GCOV_TAG_COUNTER_BASE) % 0x2_0000 == 0
    && (w - GCOV_TAG_COUNTER_BASE) / 0x2_0000 < MAX_COUNTERS
  }

  /** The counter records a word sequence starts with, and what follows them. */
  function ReadCounters(ws: seq<u32>, gcc12: bool): (r: Option<(seq<Counter>, seq<u32>)>)
    ensures r.Some? ==> |r.value.1| <= |ws|
    decreases |ws|
  {
    if ws == [] || !IsCounterTag(ws[0]) then Some(([], ws))
    else if |ws| < 2 || ws[1] % (2 * UnitSize(gcc12)) != 0 || |ws| - 2 < ws[1] / UnitSize(gcc12) then None
    else
      var n := ws[1] / UnitSize(gcc12);
      match ReadCounters(ws[2 + n..], gcc12)
      case None => None
      case Some((more, rest)) =>
        EvenLength(ws[1], UnitSize(gcc12));
        Some(([Counter((ws[0] - GCOV_TAG_COUNTER_BASE) / 0x2_0000, ReadValues(ws[2..2 + n]))] + more, rest))
  }

  lemma EvenLength(l: nat, unit: nat)
    requires unit == 1 || unit == 4
    requires l % (2 * unit) == 0
    ensures l / unit % 2 == 0
  {
  }

  /** The length word says where the function record ends; identity and checksums are its first three
      words, the rest of it is skipped. */
  function ReadFunctions(ws: seq<u32>, gcc12: bool): Option<seq<FnRecord>>
    decreases |ws|
  {
    if ws == [] then Some([])
    else if |ws| < 2 || ws[0] != GCOV_TAG_FUNCTION || ws[1] % UnitSize(gcc12) != 0
            || ws[1] / UnitSize(gcc12) < 3 || |ws| - 2 < ws[1] / UnitSize(gcc12) then None
    else
      match ReadCounters(ws[2 + ws[1] / UnitSize(gcc12)..], gcc12)
      case None => None
      case Some((counters, rest)) =>
        match ReadFunctions(rest, gcc12)
        case None => None
        case Some(more) => Some([FnRecord(ws[2], ws[3], ws[4], counters)] + more)
  }

  function ReadWords(ws: seq<u32>, gcc12: bool): Option<DataFile> {
    var n := if gcc12 then 4 else 3;
    if |ws| < n || ws[0] != GCOV_DATA_MAGIC || (gcc12 && ws[3] != 0) then None
    else
      match ReadFunctions(ws[n..], gcc12)
      case None => None
      case Some(fns) => Some(DataFile(ws[1], ws[2], fns))
  }

  function ToWords(b: seq<byte>): seq<u32>
    requires |b| % 4 == 0
  {
    if b == [] then []
    else
      FromLeBound(b[|b| - 4..]);
      ToWords(b[..|b| - 4]) + [FromLe(b[|b| - 4..])]
  }

  function ReadFile(b: seq<byte>, gcc12: bool): Option<DataFile> {
    if |b| % 4 != 0 then None else ReadWords(ToWords(b), gcc12)
  }

  // Round trip.

  /** What a reader should find: the values of the k-th active type come from `ctrs[k]`. */
  function CountersOf(active: seq<bool>, ctrs: seq<seq<u64>>, t: nat, k: nat): seq<Counter>
    requires t <= |active| && k + ActiveFrom(active, t) <= |ctrs|
    decreases |active| - t
  {
    if t == |active| then []
    else if active[t] then [Counter(t, ctrs[k])] + CountersOf(active, ctrs, t + 1, k + 1)
    else CountersOf(active, ctrs, t + 1, k)
  }

  function RecordsOf(info: Info, f: nat): seq<FnRecord>
    requires WellFormed(info) && f <= |info.functions|
    decreases |info.functions| - f
  {
    if f == |info.functions| then []
    else
      var fn := info.functions[f];
      [FnRecord(fn.ident, fn.linenoChecksum, fn.cfgChecksum, CountersOf(info.active, fn.ctrs, 0, 0))]
      + RecordsOf(info, f + 1)
  }

  /** The length word of a counter record counts its values correctly exactly when there are few
      enough of them. */
  lemma CounterLengthExactIff(values: seq<u64>, gcc12: bool)
    ensures CounterLength(values, gcc12) == |values| * 2 * UnitSize(gcc12)
       <==> Fits(values, gcc12)
  {
  }

  /** So many values are announced as none. */
  lemma LongCounterAnnouncedEmpty(values: seq<u64>)
    requires |values| == 0x2000_0000
    ensures CounterLength(values, true) == 0 && !Fits(values, true)
  {
    assert |values| * 2 * 4 == 0x1_0000_0000;
  }

  predicate Fits(values: seq<u64>, gcc12: bool) {
    |values| < if gcc12 then 0x2000_0000 else 0x8000_0000
  }

  /** The values of all active types from `t` on fit their length words. */
  predicate AllFit(active: seq<bool>, ctrs: seq<seq<u64>>, t: nat, k: nat, gcc12: bool)
    requires t <= |active| && k + ActiveFrom(active, t) <= |ctrs|
    decreases |active| - t
  {
    if t == |active| then true
    else if active[t] then Fits(ctrs[k], gcc12) && AllFit(active, ctrs, t + 1, k + 1, gcc12)
    else AllFit(active, ctrs, t + 1, k, gcc12)
  }

  predicate FileFits(info: Info, f: nat, gcc12: bool)
    requires WellFormed(info)
  {
    forall g | f <= g < |info.functions| :: AllFit(info.active, info.functions[g].ctrs, 0, 0, gcc12)
  }

  lemma {:induction false} ReadValuesBack(values: seq<u64>)
    ensures ReadValues(ValueWords(values)) == values
  {
    if values != [] {
      ReadValuesBack(values[1..]);
      var ws := ValueWords(values);
      assert ws[2..] == ValueWords(values[1..]);
      assert ws[0] as int + 0x1_0000_0000 * ws[1] as int == values[0];
    }
  }

  /** Words after which a run of counter records ends. */
  predicate EndsCounters(rest: seq<u32>) {
    rest == [] || !IsCounterTag(rest[0])
  }

  lemma ReadCounterBack(t: nat, values: seq<u64>, rest: seq<u32>, gcc12: bool)
    requires t < MAX_COUNTERS && Fits(values, gcc12)
    ensures ReadCounters(CounterHead(t, values, gcc12) + (ValueWords(values) + rest), gcc12)
         == match ReadCounters(rest, gcc12)
            case None => None
            case Some((more, after)) => Some(([Counter(t, values)] + more, after))
  {
    hide ValueWords, ReadValues;
    var ws := CounterHead(t, values, gcc12) + (ValueWords(values) + rest);
    var n := 2 * |values|;
    CounterLengthBack(values, gcc12);
    TagBack(t);
    ReadValuesBack(values);
    assert ws[0] == TagForCounter(t) && ws[1] == CounterLength(values, gcc12);
    assert ws[2..2 + n] == ValueWords(values);
    assert ws[2 + n..] == rest;
    hide CounterHead, TagForCounter, IsCounterTag, CounterLength, UnitSize;
  }

  lemma TagBack(t: nat)
    requires t < MAX_COUNTERS
    ensures IsCounterTag(TagForCounter(t)) && (TagForCounter(t) - GCOV_TAG_COUNTER_BASE) / 0x2_0000 == t
  {
  }

  lemma CounterLengthBack(values: seq<u64>, gcc12: bool)
    requires Fits(values, gcc12)
    ensures var l := CounterLength(values, gcc12);
            l % (2 * UnitSize(gcc12)) == 0 && l / UnitSize(gcc12) == 2 * |values|
  {
    CounterLengthExactIff(values, gcc12);
    if gcc12 {
      assert CounterLength(values, gcc12) == 8 * |values|;
    } else {
      assert CounterLength(values, gcc12) == 2 * |values|;
    }
  }

  lemma {:induction false} ReadValuesLength(ws: seq<u32>)
    requires |ws| % 2 == 0
    ensures |ReadValues(ws)| == |ws| / 2
  {
    if ws != [] {
      ReadValuesLength(ws[2..]);
    }
  }

  /** With a wrapped length word the reader finds some other number of values. */
  lemma ReadCounterMisfit(t: nat, values: seq<u64>, rest: seq<u32>, gcc12: bool)
    requires t < MAX_COUNTERS && !Fits(values, gcc12)
    ensures var r := ReadCounters(CounterHead(t, values, gcc12) + (ValueWords(values) + rest), gcc12);
            r.Some? ==> r.value.0 != [] && |r.value.0[0].values| != |values|
  {
    hide ValueWords, ReadValues;
    var ws := CounterHead(t, values, gcc12) + (ValueWords(values) + rest);
    var l, unit := CounterLength(values, gcc12), UnitSize(gcc12);
    CounterLengthExactIff(values, gcc12);
    TagBack(t);
    assert ws[0] == TagForCounter(t) && ws[1] == l;
    if l % (2 * unit) == 0 && l / unit <= |ws| - 2 {
      EvenLength(l, unit);
      ReadValuesLength(ws[2..2 + l / unit]);
      assert l / unit / 2 != |values| by {
        HalfLength(l, unit);
      }
    }
    hide CounterHead, TagForCounter, IsCounterTag, CounterLength, UnitSize;
  }

  lemma HalfLength(l: nat, unit: nat)
    requires (unit == 1 || unit == 4) && l % (2 * unit) == 0
    ensures l == l / unit / 2 * 2 * unit
  {
  }

  lemma {:induction false} ReadCountersBack(active: seq<bool>, ctrs: seq<seq<u64>>, t: nat, k: nat, rest: seq<u32>, gcc12: bool)
    requires t <= |active| <= MAX_COUNTERS && k + ActiveFrom(active, t) <= |ctrs| && EndsCounters(rest)
    ensures var r := ReadCounters(CounterWords(active, ctrs, t, k, gcc12) + rest, gcc12);
            if AllFit(active, ctrs, t, k, gcc12) then r == Some((CountersOf(active, ctrs, t, k), rest))
            else r.Some? ==> r.value.0 != CountersOf(active, ctrs, t, k)
    decreases |active| - t
  {
    hide CounterHead, ValueWords, ReadCounters, Fits;
    if t == |active| {
      assert CounterWords(active, ctrs, t, k, gcc12) + rest == rest;
      ReadNoCounters(rest, gcc12);
    } else if active[t] {
      var more := CounterWords(active, ctrs, t + 1, k + 1, gcc12) + rest;
      assert CounterWords(active, ctrs, t, k, gcc12) + rest
          == CounterHead(t, ctrs[k], gcc12) + (ValueWords(ctrs[k]) + more);
      if Fits(ctrs[k], gcc12) {
        ReadCounterBack(t, ctrs[k], more, gcc12);
        ReadCountersBack(active, ctrs, t + 1, k + 1, rest, gcc12);
        var r := ReadCounters(more, gcc12);
        if r.Some? {
          assert ([Counter(t, ctrs[k])] + r.value.0)[1..] == r.value.0;
          assert CountersOf(active, ctrs, t, k)[1..] == CountersOf(active, ctrs, t + 1, k + 1);
        }
      } else {
        ReadCounterMisfit(t, ctrs[k], more, gcc12);
      }
    } else {
      ReadCountersBack(active, ctrs, t + 1, k, rest, gcc12);
    }
  }

  lemma ReadNoCounters(rest: seq<u32>, gcc12: bool)
    requires EndsCounters(rest)
    ensures ReadCounters(rest, gcc12) == Some(([], rest))
  {
  }

  /** The length word of a function record counts the words up to the next tag. */
  lemma FunctionLength(fn: FnInfo, gcc12: bool)
    ensures FunctionHead(fn, gcc12)[1] == (|FunctionHead(fn, gcc12)| - 2) * if gcc12 then 4 else 1
  {
  }

  /** What an image starts with, byte for byte: "adcg", version, stamp, and from GCC 12 on a zero
      checksum. */
  lemma ImageStarts(info: Info, gcc12: bool)
    requires WellFormed(info)
    ensures var b := WordBytes(FileWords(info, gcc12));
            && 12 <= |b| && b[..4] == [0x61, 0x64, 0x63, 0x67]
            && b[4..8] == Le(info.version, 4) && b[8..12] == Le(info.stamp, 4)
            && (gcc12 ==> 16 <= |b| && b[12..16] == [0, 0, 0, 0])
  {
    hide FunctionWords, Le;
    var ws := FileWords(info, gcc12);
    WordAt(ws, 0);
    WordAt(ws, 1);
    WordAt(ws, 2);
    if gcc12 {
      WordAt(ws, 3);
    }
    LiteralWords();
  }

  lemma LiteralWords()
    ensures Le(0x67636461, 4) == [0x61, 0x64, 0x63, 0x67] && Le(0, 4) == [0, 0, 0, 0]
    ensures Le(0x01000000, 4) == [0, 0, 0, 1] && Le(0x01a10000, 4) == [0, 0, 0xa1, 1]
  {
    assert Le(0, 1) == [0] && Le(1, 1) == [1] && Le(0x67, 1) == [0x67];
    assert Le(0, 2) == [0, 0] && Le(0x100, 2) == [0, 1] && Le(0x1a1, 2) == [0xa1, 1] && Le(0x6763, 2) == [0x63, 0x67];
    assert Le(0x67_6364, 3) == [0x64, 0x63, 0x67] && Le(0, 3) == [0, 0, 0];
    assert Le(0x01_0000, 3) == [0, 0, 1] && Le(0x01_a100, 3) == [0, 0xa1, 1];
  }

  lemma {:induction false} WordAt(ws: seq<u32>, i: nat)
    requires i < |ws|
    ensures WordBytes(ws)[4 * i..4 * i + 4] == Le(ws[i], 4)
    decreases |ws|
  {
    hide Le;
    var n := |ws| - 1;
    assert WordBytes(ws) == WordBytes(ws[..n]) + Le(ws[n], 4);
    if i < n {
      WordAt(ws[..n], i);
      assert WordBytes(ws)[4 * i..4 * i + 4] == WordBytes(ws[..n])[4 * i..4 * i + 4];
    }
  }

  /** The heads of records: a function with its length in units, a counter type with its tag. */
  lemma RecordHeads(fn: FnInfo, t: nat, values: seq<u64>)
    requires t < MAX_COUNTERS
    ensures FunctionHead(fn, false) == [0x01000000, 3, fn.ident, fn.linenoChecksum, fn.cfgChecksum]
    ensures FunctionHead(fn, true) == [0x01000000, 12, fn.ident, fn.linenoChecksum, fn.cfgChecksum]
    ensures CounterHead(t, values, false) == [0x01a10000 + 0x20000 * t, 2 * |values| % 0x1_0000_0000]
    ensures CounterHead(t, values, true) == [0x01a10000 + 0x20000 * t, 8 * |values| % 0x1_0000_0000]
  {
  }

  /** A value is laid out as its eight bytes, lowest first. */
  lemma ValueBytes(v: u64)
    ensures WordBytes(U64Words(v)) == Le(v, 8)
  {
    hide Le;
    var lo, hi := v % 0x1_0000_0000, v / 0x1_0000_0000;
    WordBytesLast([], lo);
    WordBytesLast([lo], hi);
    assert [] + [lo] == [lo] && [lo] + [hi] == U64Words(v);
    HalvesOfU64(v);
    NoWords();
  }

  /** The two halves of a 64-bit number, laid out, are the number laid out. */
  lemma HalvesOfU64(v: u64)
    ensures Le(v % 0x1_0000_0000, 4) + Le(v / 0x1_0000_0000, 4) == Le(v, 8)
  {
    var lo, hi := v % 0x1_0000_0000, v / 0x1_0000_0000;
    assert Pow256(4) == 0x1_0000_0000;
    hide *;
    WordBack(lo);
    WordBack(hi);
    FromLeConcat(Le(lo, 4), Le(hi, 4));
    FromLeRoundTrip(Le(lo, 4) + Le(hi, 4));
  }

  lemma ReadFunctionBack(fn: FnInfo, body: seq<u32>, gcc12: bool)
    ensures ReadFunctions(FunctionHead(fn, gcc12) + body, gcc12)
         == match ReadCounters(body, gcc12)
            case None => None
            case Some((counters, rest)) =>
              match ReadFunctions(rest, gcc12)
              case None => None
              case Some(more) => Some([FnRecord(fn.ident, fn.linenoChecksum, fn.cfgChecksum, counters)] + more)
  {
    hide ReadCounters;
    assert (FunctionHead(fn, gcc12) + body)[5..] == body;
  }

  lemma FunctionsEndCounters(info: Info, f: nat, gcc12: bool)
    requires WellFormed(info) && f <= |info.functions|
    ensures EndsCounters(FunctionWords(info, f, gcc12))
  {
  }

  lemma {:induction false} ReadFunctionsBack(info: Info, f: nat, gcc12: bool)
    requires WellFormed(info) && f <= |info.functions|
    ensures ReadFunctions(FunctionWords(info, f, gcc12), gcc12) == Some(RecordsOf(info, f)) <==> FileFits(info, f, gcc12)
    decreases |info.functions| - f
  {
    hide ReadCounters, CounterWords, CountersOf, FunctionHead, AllFit;
    if f == |info.functions| {
    } else {
      var fn, rest := info.functions[f], FunctionWords(info, f + 1, gcc12);
      FunctionsEndCounters(info, f + 1, gcc12);
      ReadCountersBack(info.active, fn.ctrs, 0, 0, rest, gcc12);
      ReadFunctionBack(fn, CounterWords(info.active, fn.ctrs, 0, 0, gcc12) + rest, gcc12);
      ReadFunctionsBack(info, f + 1, gcc12);
      assert FileFits(info, f, gcc12) <==> AllFit(info.active, fn.ctrs, 0, 0, gcc12) && FileFits(info, f + 1, gcc12);
      var r := ReadFunctions(FunctionWords(info, f, gcc12), gcc12);
      if r.Some? {
        assert RecordsOf(info, f)[1..] == RecordsOf(info, f + 1);
        assert r.value != [] ==> [r.value[0]] + r.value[1..] == r.value;
      }
    }
  }

  lemma NoWords()
    ensures ToWords([]) == [] && WordBytes([]) == []
  {
  }

  lemma ToWordsAppend(b: seq<byte>, w: u32)
    requires |b| % 4 == 0
    ensures ToWords(b + Le(w, 4)) == ToWords(b) + [w]
  {
    WordBack(w);
    hide Le, FromLe;
    var all := b + Le(w, 4);
    assert all[..|all| - 4] == b && all[|all| - 4..] == Le(w, 4);
  }

  lemma {:induction false} ToWordsBack(ws: seq<u32>)
    ensures ToWords(WordBytes(ws)) == ws
  {
    NoWords();
    if ws != [] {
      var front, last := ws[..|ws| - 1], ws[|ws| - 1];
      ToWordsBack(front);
      WordBytesLast(front, last);
      hide *;
      assert front + [last] == ws;
      ToWordsAppend(WordBytes(front), last);
    }
  }

  lemma WordBytesLast(front: seq<u32>, last: u32)
    ensures WordBytes(front + [last]) == WordBytes(front) + Le(last, 4)
  {
    hide Le;
    assert (front + [last])[..|front|] == front;
  }

  lemma WordBack(v: u32)
    ensures FromLe(Le(v, 4)) == v
  {
    assert Pow256(4) == 0x1_0000_0000;
    LeRoundTrip(v, 4);
  }

  /** A reader that follows tags and lengths recovers every identity, checksum and counter exactly
      when every length word holds its length. */
  lemma ReadFileBackIff(info: Info, gcc12: bool)
    requires WellFormed(info)
    ensures ReadFile(WordBytes(FileWords(info, gcc12)), gcc12)
         == Some(DataFile(info.version, info.stamp, RecordsOf(info, 0)))
       <==> FileFits(info, 0, gcc12)
  {
    hide FunctionWords, ReadFunctions, FileFits, RecordsOf;
    var ws := FileWords(info, gcc12);
    ToWordsBack(ws);
    ReadFunctionsBack(info, 0, gcc12);
    assert ws[if gcc12 then 4 else 3..] == FunctionWords(info, 0, gcc12);
  }
}
