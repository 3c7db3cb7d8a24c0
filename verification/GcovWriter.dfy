/** Writing coverage data into memory and dumping it on the console. */
module GcovWriter {
  import opened Bytes
  import opened Gcda

  /** The buffer, when there is one, holds the words `done` from its start and is otherwise as it was. */
  ghost predicate Stored(buffer: array?<byte>, done: seq<u32>, was: seq<byte>)
    reads buffer
  {
    buffer != null ==>
      && 4 * |done| <= buffer.Length == |was|
      && buffer[..4 * |done|] == WordBytes(done) && buffer[4 * |done|..] == was[4 * |done|..]
  }

  /** Stores one number, or only counts its bytes when there is no buffer. */
  method StoreU32(buffer: array?<byte>, off: nat, v: u32, ghost done: seq<u32>, ghost was: seq<byte>) returns (n: nat)
    requires Stored(buffer, done, was) && off == 4 * |done|
    requires buffer != null ==> off + 4 <= buffer.Length
    modifies buffer
    ensures n == 4 && Stored(buffer, done + [v], was)
  {
    hide WordBytes, Le;
    WordBytesLast(done, v);
    if buffer != null {
      var data := Le(v, 4);
      forall i | 0 <= i < 4 {
        buffer[off + i] := data[i];
      }
      assert buffer[..off] == old(buffer[..off]);
      assert buffer[..off + 4] == buffer[..off] + data;
    }
    n := 4;
  }

  method StoreU64(buffer: array?<byte>, off: nat, v: u64, ghost done: seq<u32>, ghost was: seq<byte>) returns (n: nat)
    requires Stored(buffer, done, was) && off == 4 * |done|
    requires buffer != null ==> off + 8 <= buffer.Length
    modifies buffer
    ensures n == 8 && Stored(buffer, done + U64Words(v), was)
  {
    hide Stored;
    var lo := StoreU32(buffer, off, v % 0x1_0000_0000, done, was);
    var hi := StoreU32(buffer, off + lo, v / 0x1_0000_0000, done + [v % 0x1_0000_0000], was);
    assert done + [v % 0x1_0000_0000] + [v / 0x1_0000_0000] == done + U64Words(v);
    n := lo + hi;
  }

  /** `target` is what will have been written in the end, `rest` what is still to come. */
  ghost predicate Writing(buffer: array?<byte>, done: seq<u32>, rest: seq<u32>, target: seq<u32>, was: seq<byte>)
    reads buffer
  {
    && Stored(buffer, done, was) && done + rest == target
    && (buffer != null ==> 4 * |target| <= buffer.Length)
  }

  /** Stores the next word that is due. */
  method Put(buffer: array?<byte>, pos: nat, v: u32, ghost done: seq<u32>, ghost rest: seq<u32>,
             ghost target: seq<u32>, ghost was: seq<byte>)
    returns (n: nat, ghost done': seq<u32>)
    requires Writing(buffer, done, rest, target, was) && pos == 4 * |done| && rest != [] && rest[0] == v
    modifies buffer
    ensures n == 4 && pos + n == 4 * |done'| && Writing(buffer, done', rest[1..], target, was)
  {
    hide Stored;
    assert |target| == |done| + |rest|;
    n := StoreU32(buffer, pos, v, done, was);
    done' := done + [v];
    assert done' + rest[1..] == target;
  }

  /** Stores a run of due words, the head of a record. */
  method PutHead(buffer: array?<byte>, pos: nat, head: seq<u32>, ghost done: seq<u32>, ghost rest: seq<u32>,
                 ghost target: seq<u32>, ghost was: seq<byte>)
    returns (pos': nat, ghost done': seq<u32>)
    requires Writing(buffer, done, head + rest, target, was) && pos == 4 * |done|
    modifies buffer
    ensures pos' == 4 * |done'| && Writing(buffer, done', rest, target, was)
  {
    hide Writing;
    pos', done' := pos, done;
    ghost var due := head + rest;
    for i := 0 to |head|
      invariant due == head[i..] + rest
      invariant pos' == 4 * |done'| && Writing(buffer, done', due, target, was)
    {
      var n;
      n, done' := Put(buffer, pos', head[i], done', due, target, was);
      due := due[1..];
      pos' := pos' + n;
    }
    assert due == rest;
  }

  /** The values of one counter record, after its tag and length. */
  method PutValues(buffer: array?<byte>, pos: nat, values: seq<u64>, ghost done: seq<u32>, ghost rest: seq<u32>,
                   ghost target: seq<u32>, ghost was: seq<byte>)
    returns (pos': nat, ghost done': seq<u32>)
    requires Writing(buffer, done, ValueWords(values) + rest, target, was) && pos == 4 * |done|
    modifies buffer
    ensures pos' == 4 * |done'| && Writing(buffer, done', rest, target, was)
  {
    pos', done' := pos, done;
    for i := 0 to |values|
      invariant pos' == 4 * |done'| && Writing(buffer, done', ValueWords(values[i..]) + rest, target, was)
    {
      hide Stored;
      ghost var more := ValueWords(values[i + 1..]) + rest;
      assert values[i..][1..] == values[i + 1..];
      assert done' + (ValueWords(values[i..]) + rest) == (done' + U64Words(values[i])) + more;
      var n := StoreU64(buffer, pos', values[i], done', was);
      done' := done' + U64Words(values[i]);
      pos' := pos' + n;
    }
    assert ValueWords(values[|values|..]) + rest == rest;
  }

  /** The counter records of one function: the next element of `ctrs` for each active type. */
  method PutCounters(buffer: array?<byte>, pos: nat, active: seq<bool>, ctrs: seq<seq<u64>>, gcc12: bool,
                     ghost done: seq<u32>, ghost rest: seq<u32>, ghost target: seq<u32>, ghost was: seq<byte>)
    returns (pos': nat, ghost done': seq<u32>)
    requires |active| <= MAX_COUNTERS && ActiveFrom(active, 0) <= |ctrs|
    requires Writing(buffer, done, CounterWords(active, ctrs, 0, 0, gcc12) + rest, target, was) && pos == 4 * |done|
    modifies buffer
    ensures pos' == 4 * |done'| && Writing(buffer, done', rest, target, was)
  {
    hide Writing, CounterHead, ValueWords;
    pos', done' := pos, done;
    var ci := 0;
    for t := 0 to |active|
      invariant ci + ActiveFrom(active, t) <= |ctrs| && pos' == 4 * |done'|
      invariant Writing(buffer, done', CounterWords(active, ctrs, t, ci, gcc12) + rest, target, was)
    {
      if !active[t] {
        continue;
      }
      ghost var more := CounterWords(active, ctrs, t + 1, ci + 1, gcc12) + rest;
      assert CounterWords(active, ctrs, t, ci, gcc12) + rest
          == CounterHead(t, ctrs[ci], gcc12) + (ValueWords(ctrs[ci]) + more);
      pos', done' := PutHead(buffer, pos', CounterHead(t, ctrs[ci], gcc12), done', ValueWords(ctrs[ci]) + more, target, was);
      pos', done' := PutValues(buffer, pos', ctrs[ci], done', more, target, was);
      ci := ci + 1;
    }
    assert CounterWords(active, ctrs, |active|, ci, gcc12) + rest == rest;
  }

  /** `convert_to_gcda`: the sizing pass without a buffer and the writing pass agree on the size, and
      the writing pass fills exactly that much of the buffer. */
  method ConvertToGcda(buffer: array?<byte>, info: Info, gcc12: bool) returns (pos: nat)
    requires WellFormed(info)
    requires buffer != null ==> 4 * |FileWords(info, gcc12)| <= buffer.Length
    modifies buffer
    ensures pos == 4 * |FileWords(info, gcc12)|
    ensures buffer != null ==>
              buffer[..pos] == WordBytes(FileWords(info, gcc12)) && buffer[pos..] == old(buffer[pos..])
  {
    ghost var target, was := FileWords(info, gcc12), if buffer == null then [] else buffer[..];
    hide FileWords, WordBytes, HeaderWords, FunctionHead, CounterWords;
    ghost var done: seq<u32> := [];
    pos := 0;
    StartWriting(buffer, info, gcc12, was);
    pos, done := PutHead(buffer, pos, HeaderWords(info, gcc12), done, FunctionWords(info, 0, gcc12), target, was);
    for f := 0 to |info.functions|
      invariant pos == 4 * |done| && Writing(buffer, done, FunctionWords(info, f, gcc12), target, was)
    {
      var fn := info.functions[f];
      ghost var rest := FunctionWords(info, f + 1, gcc12);
      pos, done := PutHead(buffer, pos, FunctionHead(fn, gcc12), done,
                           CounterWords(info.active, fn.ctrs, 0, 0, gcc12) + rest, target, was);
      pos, done := PutCounters(buffer, pos, info.active, fn.ctrs, gcc12, done, rest, target, was);
    }
    assert done == target;
  }

  lemma StartWriting(buffer: array?<byte>, info: Info, gcc12: bool, was: seq<byte>)
    requires WellFormed(info)
    requires buffer != null ==> 4 * |FileWords(info, gcc12)| <= buffer.Length && was == buffer[..]
    ensures Writing(buffer, [], HeaderWords(info, gcc12) + FunctionWords(info, 0, gcc12), FileWords(info, gcc12), was)
  {
  }
}
