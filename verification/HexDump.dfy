/** Printing bytes on the console, twenty to a line. */
module HexDump {
  import opened Bytes

  const OCTETS_PER_LINE := 20

  function HexDigit(n: nat): char
    requires n < 16
  {
    if n < 10 then ('0' as int + n) as char else ('a' as int + n - 10) as char
  }

  function HexByte(b: byte): (s: string)
    ensures |s| == 2
  {
    [HexDigit(b / 16), HexDigit(b % 16)]
  }

  function Hex(bs: seq<byte>): string {
    if bs == [] then "" else Hex(bs[..|bs| - 1]) + HexByte(bs[|bs| - 1])
  }

  lemma {:induction false} HexConcat(a: seq<byte>, b: seq<byte>)
    ensures Hex(a + b) == Hex(a) + Hex(b)
  {
    if b == [] {
      assert a + b == a;
    } else {
      HexConcat(a, b[..|b| - 1]);
      assert (a + b)[..|a + b| - 1] == a + b[..|b| - 1];
    }
  }

  /** The console text of a buffer. */
  function HexLines(bs: seq<byte>): string {
    if bs == [] then ""
    else
      var n := if |bs| < OCTETS_PER_LINE then |bs| else OCTETS_PER_LINE;
      Hex(bs[..n]) + "\n" + HexLines(bs[n..])
  }

  /** Two lower-case digits, the high half first. */
  lemma HexByteIs(b: byte)
    ensures HexByte(b) == ["0123456789abcdef"[b / 16], "0123456789abcdef"[b % 16]]
  {
    DigitIs(b / 16);
    DigitIs(b % 16);
  }

  lemma DigitIs(n: nat)
    requires n < 16
    ensures HexDigit(n) == "0123456789abcdef"[n]
  {
    if n < 10 {
      assert "0123456789abcdef"[..10] == "0123456789";
      assert n == 0 || n == 1 || n == 2 || n == 3 || n == 4 || n == 5 || n == 6 || n == 7 || n == 8 || n == 9;
    } else {
      assert n == 10 || n == 11 || n == 12 || n == 13 || n == 14 || n == 15;
    }
  }

  lemma {:induction false} HexLength(bs: seq<byte>)
    ensures |Hex(bs)| == 2 * |bs|
  {
    if bs != [] {
      HexLength(bs[..|bs| - 1]);
    }
  }

  /** The two digits of `b` are at `at`. */
  predicate DigitsAt(text: string, at: nat, b: byte) {
    at + 1 < |text| && text[at] == HexByte(b)[0] && text[at + 1] == HexByte(b)[1]
  }

  lemma {:induction false} HexAt(bs: seq<byte>, i: nat)
    requires i < |bs|
    ensures |Hex(bs)| == 2 * |bs| && DigitsAt(Hex(bs), 2 * i, bs[i])
    decreases |bs|
  {
    hide HexByte;
    var front := bs[..|bs| - 1];
    HexLength(front);
    if i < |front| {
      HexAt(front, i);
    }
  }

  /** Byte `b` is printed at `at`, and a line break follows it if it ends a line. */
  predicate PrintedAt(text: string, at: nat, b: byte, ends: bool) {
    DigitsAt(text, at, b) && at + 2 < |text| && (text[at + 2] == '\n' <==> ends)
  }

  lemma PrintedFromLine(line: string, rest: string, at: nat, b: byte, last: bool, next: byte)
    requires DigitsAt(line, at, b) && (if last then at + 2 == |line| else DigitsAt(line, at + 2, next))
    ensures PrintedAt(line + ("\n" + rest), at, b, last)
  {
    NoBreak(next);
    hide HexByte;
    var text := line + ("\n" + rest);
    assert text[at] == line[at] && text[at + 1] == line[at + 1];
    assert text[at + 2] == if last then '\n' else line[at + 2];
  }

  lemma PrintedInLine(bs: seq<byte>, rest: string, i: nat)
    requires i < |bs|
    ensures PrintedAt(Hex(bs) + ("\n" + rest), 2 * i, bs[i], i == |bs| - 1)
  {
    hide *;
    HexAt(bs, i);
    if i < |bs| - 1 {
      HexAt(bs, i + 1);
      PrintedFromLine(Hex(bs), rest, 2 * i, bs[i], false, bs[i + 1]);
    } else {
      PrintedFromLine(Hex(bs), rest, 2 * i, bs[i], true, bs[i]);
    }
  }

  lemma PrintedLater(front: string, rest: string, at: nat, b: byte, ends: bool)
    requires PrintedAt(rest, at, b, ends)
    ensures PrintedAt(front + rest, |front| + at, b, ends)
  {
    hide HexByte;
  }

  lemma NoBreak(b: byte)
    ensures HexByte(b)[0] != '\n'
  {
  }

  /** Where byte `i` is printed: after the digits of the bytes before it and one line break for every
      twenty. A break follows every twentieth byte and the last one, and no other. */
  lemma {:induction false} HexLinesLayout(bs: seq<byte>, i: nat)
    requires i < |bs|
    ensures PrintedAt(HexLines(bs), 2 * i + i / 20, bs[i], i % 20 == 19 || i == |bs| - 1)
    ensures |HexLines(bs)| == 2 * |bs| + (|bs| + 19) / 20
    decreases |bs|
  {
    var n := if |bs| < 20 then |bs| else 20;
    var line, rest := Hex(bs[..n]), HexLines(bs[n..]);
    HexLinesSplit(bs, n);
    hide *;
    LinesLength(bs);
    HexLength(bs[..n]);
    if i < n {
      PrintedInLine(bs[..n], rest, i);
    } else {
      HexLinesLayout(bs[n..], i - n);
      PrintedLater(line + "\n", rest, 2 * (i - n) + (i - n) / 20, bs[i], i % 20 == 19 || i == |bs| - 1);
      NextLine(i);
    }
  }

  lemma HexLinesSplit(bs: seq<byte>, n: nat)
    requires bs != [] && n == if |bs| < 20 then |bs| else 20
    ensures HexLines(bs) == Hex(bs[..n]) + ("\n" + HexLines(bs[n..])) == (Hex(bs[..n]) + "\n") + HexLines(bs[n..])
  {
    var line, rest := Hex(bs[..n]), HexLines(bs[n..]);
    assert HexLines(bs) == line + "\n" + rest;
    hide *;
    Regroup(line, "\n", rest);
  }

  lemma Regroup(a: string, b: string, c: string)
    ensures a + b + c == a + (b + c)
  {
  }

  lemma NextLine(i: nat)
    requires 20 <= i
    ensures 41 + (2 * (i - 20) + (i - 20) / 20) == 2 * i + i / 20 && (i - 20) % 20 == i % 20
  {
  }

  lemma {:induction false} LinesLength(bs: seq<byte>)
    ensures |HexLines(bs)| == 2 * |bs| + (|bs| + 19) / 20
    decreases |bs|
  {
    if bs != [] {
      var n := if |bs| < 20 then |bs| else 20;
      HexLength(bs[..n]);
      LinesLength(bs[n..]);
      hide Hex;
    }
  }

  method HexDumpBuf(buf: seq<byte>) returns (out: string)
    ensures out == HexLines(buf)
  {
    hide Hex, HexByte, HexLines;
    HexLinesNone();
    out := "";
    var cur := 0;
    while cur < |buf|
      invariant cur <= |buf|
      invariant out + HexLines(buf[cur..]) == HexLines(buf)
    {
      assert |buf[cur..]| == |buf| - cur;
      var rem := if |buf| - cur < OCTETS_PER_LINE then |buf| - cur else OCTETS_PER_LINE;
      ghost var before := out;
      HexStep(buf, cur, 0);
      var i := 0;
      while i < rem
        invariant i <= rem
        invariant out == before + Hex(buf[cur..cur + i])
      {
        HexStep(buf, cur, i);
        out := out + HexByte(buf[cur + i]);
        i := i + 1;
      }
      out := out + "\n";
      HexLinesStep(buf, cur, rem);
      Rejoin(before, Hex(buf[cur..cur + rem]), "\n", HexLines(buf[cur + rem..]));
      cur := cur + rem;
    }
    assert buf[cur..] == [] && out + "" == out;
  }

  lemma Rejoin(a: string, b: string, c: string, d: string)
    ensures a + b + c + d == a + (b + c + d)
  {
  }

  lemma HexLinesNone()
    ensures HexLines([]) == ""
  {
  }

  lemma HexStep(buf: seq<byte>, cur: nat, i: nat)
    requires cur + i < |buf|
    ensures Hex(buf[cur..cur]) == ""
    ensures Hex(buf[cur..cur + i + 1]) == Hex(buf[cur..cur + i]) + HexByte(buf[cur + i])
  {
    assert buf[cur..cur + i + 1][..i] == buf[cur..cur + i];
  }

  lemma HexLinesStep(buf: seq<byte>, cur: nat, rem: nat)
    requires cur < |buf| && rem == if |buf| - cur < OCTETS_PER_LINE then |buf| - cur else OCTETS_PER_LINE
    ensures HexLines(buf[cur..]) == Hex(buf[cur..cur + rem]) + "\n" + HexLines(buf[cur + rem..])
  {
    assert buf[cur..][..rem] == buf[cur..cur + rem] && buf[cur..][rem..] == buf[cur + rem..];
  }
}
