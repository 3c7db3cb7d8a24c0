/** What the console dumps print, the log parser reads back. */
module DumpRoundTrip {
  import opened Bytes
  import opened HexDump
  import opened LogParser

  /** One file of a dump: its name and the buffers that were printed for it, in order. */
  datatype Section = Section(name: string, pieces: seq<seq<byte>>)

  function PiecesText(pieces: seq<seq<byte>>): string {
    if pieces == [] then "" else HexLines(pieces[0]) + PiecesText(pieces[1..])
  }

  function SectionText(s: Section): string {
    PiecesText(s.pieces) + "\n" + CreateLine(s.name) + "\n"
  }

  function CreateLine(name: string): (s: string)
    ensures |s| == 8 + |name| && s[0] == 'C' && s[7] == ' ' && s[8..] == name
    ensures forall i | 0 <= i < 7 :: InCreate(s[i])
  {
    "CREATE: " + name
  }

  function SectionsText(ss: seq<Section>): string {
    if ss == [] then "" else SectionText(ss[0]) + SectionsText(ss[1..])
  }

  function ClosingText(closing: string): string {
    "\n" + closing + "\n"
  }

  function DumpText(opening: string, ss: seq<Section>, closing: string): string {
    "\n" + (opening + "\n" + (SectionsText(ss) + ClosingText(closing)))
  }

  const COVERAGE_START := "Dump coverage data start"
  const COVERAGE_END := "Dump coverage data finish"
  const PROFILING_START := "Dump profiling data start"
  const PROFILING_END := "Dump profiling data finished"

  /** The texts the two profilers print. */
  lemma PrintedTexts(ss: seq<Section>, s: Section)
    ensures DumpText(COVERAGE_START, ss, COVERAGE_END)
         == ("\n" + "Dump coverage data start" + "\n") + SectionsText(ss) + ("\n" + "Dump coverage data finish" + "\n")
    ensures DumpText(PROFILING_START, ss, PROFILING_END)
         == ("\n" + "Dump profiling data start" + "\n") + SectionsText(ss) + ("\n" + "Dump profiling data finished" + "\n")
    ensures SectionText(s) == PiecesText(s.pieces) + "\n" + ("CREATE: " + s.name) + "\n"
  {
    Joined(COVERAGE_START, ss, COVERAGE_END);
    Joined(PROFILING_START, ss, PROFILING_END);
    hide SectionsText, PiecesText, DumpText;
  }

  lemma Joined(a: string, ss: seq<Section>, c: string)
    ensures DumpText(a, ss, c) == ("\n" + a + "\n") + SectionsText(ss) + ("\n" + c + "\n")
  {
    hide SectionsText;
  }

  /** The files a dump is meant to leave behind; a repeated name keeps its last contents. */
  function Recreated(files: Files, ss: seq<Section>): Files
    decreases |ss|
  {
    if ss == [] then files else Recreated(files[ss[0].name := Flatten(ss[0].pieces)], ss[1..])
  }

  predicate OneLine(s: string) {
    forall i | 0 <= i < |s| :: !IsBreak(s[i])
  }

  /** A name that survives the two strips the parser applies to it. */
  predicate CleanName(name: string) {
    name != "" && !IsSpace(name[0]) && !IsSpace(name[|name| - 1]) && !InCreate(name[|name| - 1])
  }

  predicate GoodName(name: string) {
    OneLine(name) && CleanName(name) && !Marker(name, "start") && !Marker(name, "finish")
  }

  // Lines.

  lemma {:induction false} LinesAfterText(part: string, a: string, t: string)
    requires OneLine(a)
    ensures LinesAfter(part, a + t) == LinesAfter(part + a, t)
    decreases |a|
  {
    if a == "" {
      assert a + t == t && part + a == part;
    } else {
      LinesAfterText(part + [a[0]], a[1..], t);
      assert (a + t)[1..] == a[1..] + t;
      assert part + [a[0]] + a[1..] == part + a;
    }
  }

  lemma {:induction false} LinesConcat(part: string, a: string, t: string)
    ensures LinesAfter(part, a + "\n" + t) == LinesAfter(part, a) + Lines(t)
    decreases |a|
  {
    var whole := a + "\n" + t;
    if a == "" {
      assert whole[1..] == t;
    } else {
      assert whole[0] == a[0] && whole[1..] == a[1..] + "\n" + t;
      if IsBreak(a[0]) {
        LinesConcat("", a[1..], t);
        assert [part] + (LinesAfter("", a[1..]) + Lines(t)) == [part] + LinesAfter("", a[1..]) + Lines(t);
      } else {
        LinesConcat(part + [a[0]], a[1..], t);
      }
    }
  }

  lemma {:induction false} RunLinesConcat(p: Parser, a: seq<string>, b: seq<string>)
    ensures RunLines(p, a + b) == RunLines(RunLines(p, a), b)
  {
    hide StepLine;
    if b == [] {
      assert a + b == a;
    } else {
      var n := |b| - 1;
      RunLinesConcat(p, a, b[..n]);
      assert (a + b)[..|a + b| - 1] == a + b[..n];
    }
  }

  function RunText(p: Parser, text: string): Parser {
    RunLines(p, Lines(text))
  }

  /** Text up to a line feed is parsed on its own. */
  lemma TextConcat(p: Parser, a: string, t: string)
    ensures RunText(p, a + "\n" + t) == RunText(RunText(p, a), t)
  {
    LinesConcat("", a, t);
    RunLinesConcat(p, Lines(a), Lines(t));
  }

  lemma OneLineText(p: Parser, line: string)
    requires OneLine(line)
    ensures RunText(p, line) == StepLine(p, line)
  {
    LinesAfterText("", line, "");
    assert line + "" == line && "" + line == line;
    assert Lines(line) == [line];
    assert RunLines(p, [line]) == StepLine(RunLines(p, []), line);
  }

  /** The parser consumes one line. */
  lemma TextLine(p: Parser, line: string, t: string)
    requires OneLine(line)
    ensures RunText(p, line + "\n" + t) == RunText(StepLine(p, line), t)
  {
    TextConcat(p, line, t);
    OneLineText(p, line);
  }

  lemma BlankStep(p: Parser)
    ensures StepLine(p, "") == p
  {
  }

  lemma BlankText(p: Parser, t: string)
    ensures RunText(p, "\n" + t) == RunText(p, t)
  {
    hide StepLine;
    TextLine(p, "", t);
    BlankStep(p);
    assert "" + "\n" + t == "\n" + t;
  }

  // Hex digits.

  predicate IsHexChar(c: char) {
    '0' <= c <= '9' || 'a' <= c <= 'f'
  }

  lemma {:induction false} HexChars(bs: seq<byte>)
    ensures |Hex(bs)| == 2 * |bs|
    ensures forall i | 0 <= i < |Hex(bs)| :: IsHexChar(Hex(bs)[i])
  {
    if bs != [] {
      HexChars(bs[..|bs| - 1]);
    }
  }

  lemma FromHexByte(b: byte, s: string)
    ensures FromHex(HexByte(b) + s) ==
            match FromHex(s) case None => None case Some(rest) => Some([b] + rest)
  {
    var t := HexByte(b) + s;
    assert t[2..] == s;
  }

  lemma HexOfOne(b: byte)
    ensures Hex([b]) == HexByte(b)
  {
    assert [b][..0] == [];
    assert Hex([b]) == Hex([]) + HexByte(b);
  }

  lemma {:induction false} FromHexRoundTrip(bs: seq<byte>)
    ensures FromHex(Hex(bs)) == Some(bs)
  {
    if bs == [] {
    } else {
      FromHexRoundTrip(bs[1..]);
      HexConcat(bs[..1], bs[1..]);
      assert bs[..1] + bs[1..] == bs;
      HexOfOne(bs[0]);
      assert bs[..1] == [bs[0]];
      FromHexByte(bs[0], Hex(bs[1..]));
    }
  }

  lemma NoDump(line: string, word: string)
    requires 'D' !in line
    ensures !Marker(line, word)
  {
    forall i: nat ensures !At(line, i, "Dump") {
      if i + 4 <= |line| {
        assert line[i..i + 4][0] == line[i] != 'D';
      }
    }
  }

  lemma HexLineStep(p: Parser, bs: seq<byte>)
    requires p.state == 1
    ensures StepLine(p, Hex(bs)) == p.(hexstr := p.hexstr + Hex(bs))
  {
    hide Hex;
    var line := Hex(bs);
    HexChars(bs);
    if line == "" {
      BlankStep(p);
      assert p.hexstr + line == p.hexstr;
    } else {
      assert Strip(line) == line;
      NoDump(line, "start");
      NoDump(line, "finish");
      assert !At(line, 0, "CREATE") by {
        assert line[0] != 'C';
      }
    }
  }

  lemma HexLinesFirst(bs: seq<byte>, n: nat, t: string)
    requires bs != [] && n == if |bs| < OCTETS_PER_LINE then |bs| else OCTETS_PER_LINE
    ensures HexLines(bs) + t == Hex(bs[..n]) + "\n" + (HexLines(bs[n..]) + t)
  {
    hide Hex;
  }

  lemma {:induction false} HexLinesText(p: Parser, bs: seq<byte>, t: string)
    requires p.state == 1
    ensures RunText(p, HexLines(bs) + t) == RunText(p.(hexstr := p.hexstr + Hex(bs)), t)
    decreases |bs|
  {
    hide StepLine, Hex, RunText;
    if bs == [] {
      HexChars([]);
      assert HexLines(bs) + t == t && p.hexstr + Hex(bs) == p.hexstr;
    } else {
      var n := if |bs| < OCTETS_PER_LINE then |bs| else OCTETS_PER_LINE;
      var a, b := bs[..n], bs[n..];
      assert a + b == bs;
      HexChars(a);
      HexLinesFirst(bs, n, t);
      TextLine(p, Hex(a), HexLines(b) + t);
      HexLineStep(p, a);
      HexLinesText(p.(hexstr := p.hexstr + Hex(a)), b, t);
      HexConcat(a, b);
      assert p.hexstr + Hex(a) + Hex(b) == p.hexstr + Hex(bs);
    }
  }

  /** Only the bytes matter, not how they were split over print calls. */
  lemma {:induction false} PiecesParse(p: Parser, pieces: seq<seq<byte>>, t: string)
    requires p.state == 1
    ensures RunText(p, PiecesText(pieces) + t) == RunText(p.(hexstr := p.hexstr + Hex(Flatten(pieces))), t)
    decreases |pieces|
  {
    hide RunText, Hex, HexLines;
    if pieces == [] {
      HexChars([]);
      assert PiecesText(pieces) + t == t && p.hexstr + Hex(Flatten(pieces)) == p.hexstr;
    } else {
      var head, tail := pieces[0], pieces[1..];
      assert PiecesText(pieces) + t == HexLines(head) + (PiecesText(tail) + t);
      HexLinesText(p, head, PiecesText(tail) + t);
      PiecesParse(p.(hexstr := p.hexstr + Hex(head)), tail, t);
      FlattenConcat([head], tail);
      assert [head] + tail == pieces && Flatten([head]) == head;
      HexConcat(head, Flatten(tail));
      assert p.hexstr + Hex(head) + Hex(Flatten(tail)) == p.hexstr + Hex(Flatten(pieces));
    }
  }

  // Names.

  lemma {:induction false} TrimLeftMany(s: string, n: nat)
    requires |s| > n && (forall i | 0 <= i < n :: InCreate(s[i])) && !InCreate(s[n])
    ensures TrimLeft(s, InCreate) == s[n..]
  {
    if 0 < n {
      TrimLeftMany(s[1..], n - 1);
    }
  }

  lemma CreateLineStrip(name: string)
    requires name != "" && !IsSpace(name[|name| - 1])
    ensures Strip(CreateLine(name)) == CreateLine(name)
    ensures TrimLeft(CreateLine(name), InCreate) == " " + name
  {
    hide CreateLine, TrimRight, TrimLeft;
    var line := CreateLine(name);
    assert line[|line| - 1] == line[8..][|name| - 1];
    TrimLeftMany(line, 7);
    assert line[7..] == " " + name;
  }

  lemma SpacedStrip(name: string)
    requires CleanName(name)
    ensures Strip(" " + name) == name
  {
    hide IsSpace, InCreate, TrimRight;
    var spaced := " " + name;
    assert spaced[1..] == name;
    SpaceIsSpace();
    assert TrimLeft(spaced, IsSpace) == TrimLeft(name, IsSpace) == name;
  }

  lemma SpaceIsSpace()
    ensures IsSpace(' ') && !InCreate(' ')
  {
  }

  lemma CleanNameSurvives(name: string)
    requires CleanName(name)
    ensures GenName(CreateLine(name)) == name
  {
    hide IsSpace, InCreate, TrimRight, TrimLeft, CreateLine, Strip;
    var spaced := " " + name;
    CreateLineStrip(name);
    assert spaced[|spaced| - 1] == name[|name| - 1];
    assert Trim(CreateLine(name), InCreate) == spaced;
    SpacedStrip(name);
  }

  lemma SpacedShorter(s: string)
    requires s != "" ==> s[0] == ' '
    ensures s == "" ==> Strip(s) == ""
    ensures s != "" ==> |Strip(s)| < |s|
  {
    if s != "" {
      hide TrimRight, TrimLeft, Trim;
    }
  }

  lemma CreateEndedNameLost(name: string)
    requires name != "" && !IsSpace(name[|name| - 1]) && InCreate(name[|name| - 1])
    ensures GenName(CreateLine(name)) != name
  {
    hide IsSpace, InCreate, TrimRight, TrimLeft, CreateLine, Strip;
    var spaced := " " + name;
    CreateLineStrip(name);
    assert spaced[|spaced| - 1] == name[|name| - 1];
    var kept := TrimRight(spaced, InCreate);
    assert |kept| <= |name|;
    assert kept != "" ==> kept[0] == spaced[0] == ' ';
    SpacedShorter(kept);
  }

  /** A name comes back from its CREATE line exactly when neither strip eats into it. */
  lemma NameSurvivesIff(name: string)
    ensures GenName(Strip(CreateLine(name))) == name && name != "" <==> CleanName(name)
  {
    hide TrimLeft, TrimRight, Trim, IsSpace, InCreate, CreateLine;
    if name != "" && !IsSpace(name[|name| - 1]) {
      CreateLineStrip(name);
      if CleanName(name) {
        CleanNameSurvives(name);
      } else if InCreate(name[|name| - 1]) {
        CreateEndedNameLost(name);
      }
    }
  }

  // Whole dumps.

  /** The word "Dump" is not in the part of the line before the name. */
  lemma CreateLineHas(name: string, i: nat)
    requires At(CreateLine(name), i, "Dump")
    ensures 8 <= i
  {
    var line := CreateLine(name);
    assert line[i..i + 4][0] == line[i] == 'D';
  }

  lemma AtName(name: string, i: nat, word: string)
    requires At(CreateLine(name), 8 + i, word)
    ensures At(name, i, word)
  {
    hide CreateLine;
    var line := CreateLine(name);
    forall k | 0 <= k < |word| ensures name[i + k] == word[k] {
      assert line[8 + i + k] == line[8..][i + k] == line[8 + i..8 + i + |word|][k];
    }
    assert name[i..i + |word|] == word;
  }

  lemma SpaceAtName(name: string, i: nat)
    requires SpaceAt(CreateLine(name), 8 + i)
    ensures SpaceAt(name, i)
  {
    hide CreateLine, IsSpace;
    assert CreateLine(name)[8 + i] == CreateLine(name)[8..][i];
  }

  lemma CreateLineMarker(name: string, word: string)
    requires Marker(CreateLine(name), word)
    ensures Marker(name, word)
  {
    hide At, SpaceAt, CreateLine;
    var line := CreateLine(name);
    var i: nat, e: nat :| i <= |line| && e <= |line| &&
      At(line, i, "Dump") && SpaceAt(line, i + 4) && i + 7 <= e && SpaceAt(line, e - 1) && At(line, e, word);
    hide Marker;
    CreateLineHas(name, i);
    AtName(name, i - 8, "Dump");
    SpaceAtName(name, i - 8 + 4);
    SpaceAtName(name, e - 8 - 1);
    AtName(name, e - 8, word);
    MarkerAt(name, i - 8, e - 8, word);
  }

  lemma CreateStep(p: Parser, name: string, data: seq<byte>)
    requires p.state == 1 && p.genfilename == "" && p.hexstr == Hex(data) && GoodName(name)
    ensures StepLine(p, CreateLine(name)) == Parser(1, "", "", p.files[name := data])
  {
    hide Marker, IsSpace, InCreate, GenName, Strip, FromHex, Hex;
    var line := CreateLine(name);
    CreateLineStrip(name);
    CleanNameSurvives(name);
    if Marker(line, "start") {
      CreateLineMarker(name, "start");
    }
    if Marker(line, "finish") {
      CreateLineMarker(name, "finish");
    }
    FromHexRoundTrip(data);
    assert line[0..6] == "CREATE";
  }

  // Hex that does not parse.

  /** A visible character that is no hex digit spoils the whole string. */
  lemma {:induction false} BadDigitNoBytes(s: string, i: nat)
    requires i < |s| && HexValue(s[i]) == None && s[i] != ' ' && !('\t' <= s[i] <= '\r')
    ensures FromHex(s) == None
    decreases |s|
  {
    hide HexValue;
    if s[0] == ' ' || '\t' <= s[0] <= '\r' {
      BadDigitNoBytes(s[1..], i - 1);
    } else if 2 <= i {
      BadDigitNoBytes(s[2..], i - 2);
    }
  }

  lemma CreateStepBadHex(p: Parser, name: string)
    requires p.state == 1 && p.genfilename == "" && FromHex(p.hexstr) == None && GoodName(name)
    ensures StepLine(p, CreateLine(name)) == Parser(1, "", "", p.files)
  {
    hide Marker, IsSpace, InCreate, GenName, Strip, FromHex;
    var line := CreateLine(name);
    CreateLineStrip(name);
    CleanNameSurvives(name);
    if Marker(line, "start") {
      CreateLineMarker(name, "start");
    }
    if Marker(line, "finish") {
      CreateLineMarker(name, "finish");
    }
    assert line[0..6] == "CREATE";
  }

  /** A stray line in a dump: neither hex nor a marker nor a file name. */
  predicate Junk(line: string, i: nat) {
    && OneLine(line) && Strip(line) == line && 'D' !in line && i < |line| && line[0] != 'C'
    && HexValue(line[i]) == None && line[i] != ' ' && !('\t' <= line[i] <= '\r')
  }

  lemma JunkStep(p: Parser, line: string, i: nat)
    requires p == Parser(1, "", "", p.files) && Junk(line, i)
    ensures StepLine(p, line) == p.(hexstr := line)
  {
    JunkIs(line, i);
    hide Marker, Strip, Junk, At, FromHex, GenName, IsSpace;
    NoDump(line, "start");
    NoDump(line, "finish");
    if At(line, 0, "CREATE") {
      StartsWithC(line);
    }
    assert "" + line == line;
  }

  lemma JunkIs(line: string, i: nat)
    requires Junk(line, i)
    ensures Strip(line) == line && 'D' !in line && line != "" && line[0] != 'C'
  {
    hide Strip, HexValue;
  }

  lemma StartsWithC(line: string)
    requires At(line, 0, "CREATE")
    ensures line != "" && line[0] == 'C'
  {
    assert line[0..6][0] == 'C';
  }

  /** A section whose hex does not parse leaves the files as they were, and the next section is read
      as if it had not been there. */
  lemma BrokenSectionIsSkipped(p: Parser, junk: string, i: nat, s: Section, t: string)
    requires p == Parser(1, "", "", p.files) && Junk(junk, i) && GoodName(s.name)
    ensures RunText(p, junk + "\n" + (SectionText(s) + t)) == RunText(p, t)
  {
    hide StepLine, RunText, Hex, PiecesText, CreateLine, Flatten, Marker, GoodName, Junk;
    var data, rest := Flatten(s.pieces), CreateLine(s.name) + "\n" + t;
    assert OneLine(junk) && OneLine(s.name) by { JunkIsOneLine(junk, i, s.name); }
    TextLine(p, junk, SectionText(s) + t);
    JunkStep(p, junk, i);
    assert SectionText(s) + t == PiecesText(s.pieces) + ("\n" + rest);
    PiecesParse(p.(hexstr := junk), s.pieces, "\n" + rest);
    var q := p.(hexstr := junk + Hex(data));
    BlankText(q, rest);
    CreateLineIsOneLine(s.name);
    TextLine(q, CreateLine(s.name), t);
    JunkSpoils(junk, i, Hex(data));
    CreateStepBadHex(q, s.name);
  }

  lemma JunkIsOneLine(junk: string, i: nat, name: string)
    requires Junk(junk, i) && GoodName(name)
    ensures OneLine(junk) && OneLine(name)
  {
  }

  lemma JunkSpoils(junk: string, i: nat, more: string)
    requires Junk(junk, i)
    ensures FromHex(junk + more) == None
  {
    hide HexValue, FromHex, Strip;
    assert (junk + more)[i] == junk[i];
    BadDigitNoBytes(junk + more, i);
  }

  /** Outside a dump nothing is collected. */
  lemma {:induction false} NothingOutsideDumps(p: Parser, lines: seq<string>)
    requires p.state == 0
    requires forall i | 0 <= i < |lines| :: var l := Strip(lines[i]);
               !Marker(l, "start") && !Marker(l, "finish") && !At(l, 0, "CREATE")
    ensures RunLines(p, lines) == p
  {
    hide Marker, Strip, At;
    if lines != [] {
      NothingOutsideDumps(p, lines[..|lines| - 1]);
      var l := Strip(lines[|lines| - 1]);
      assert !Marker(l, "start") && !Marker(l, "finish") && !At(l, 0, "CREATE");
    }
  }

  lemma SectionParse(p: Parser, s: Section, t: string)
    requires p == Parser(1, "", "", p.files) && GoodName(s.name)
    ensures RunText(p, SectionText(s) + t) == RunText(Parser(1, "", "", p.files[s.name := Flatten(s.pieces)]), t)
  {
    hide StepLine, RunText, Hex, PiecesText, CreateLine, Flatten, Marker;
    var data, rest := Flatten(s.pieces), CreateLine(s.name) + "\n" + t;
    assert SectionText(s) + t == PiecesText(s.pieces) + ("\n" + rest);
    PiecesParse(p, s.pieces, "\n" + rest);
    var q := p.(hexstr := "" + Hex(data));
    assert "" + Hex(data) == Hex(data);
    BlankText(q, rest);
    CreateLineIsOneLine(s.name);
    TextLine(q, CreateLine(s.name), t);
    CreateStep(q, s.name, data);
  }

  lemma CreateLineIsOneLine(name: string)
    requires OneLine(name)
    ensures OneLine(CreateLine(name))
  {
    var line := CreateLine(name);
    forall i | 0 <= i < |line| ensures !IsBreak(line[i]) {
      if 8 <= i {
        assert line[i] == line[8..][i - 8];
      }
    }
  }

  lemma {:induction false} SectionsParse(p: Parser, ss: seq<Section>, t: string)
    requires p == Parser(1, "", "", p.files) && GoodSections(ss)
    ensures RunText(p, SectionsText(ss) + t) == RunText(Parser(1, "", "", Recreated(p.files, ss)), t)
    decreases |ss|
  {
    hide StepLine, RunText, SectionText, Flatten, GoodName;
    if ss == [] {
      assert SectionsText(ss) + t == t;
    } else {
      assert SectionsText(ss) + t == SectionText(ss[0]) + (SectionsText(ss[1..]) + t);
      SectionParse(p, ss[0], SectionsText(ss[1..]) + t);
      SectionsParse(Parser(1, "", "", p.files[ss[0].name := Flatten(ss[0].pieces)]), ss[1..], t);
    }
  }

  predicate GoodSections(ss: seq<Section>) {
    forall i | 0 <= i < |ss| :: GoodName(ss[i].name)
  }

  predicate Opens(line: string) {
    OneLine(line) && Strip(line) == line && Marker(line, "start")
  }

  predicate Closes(line: string) {
    OneLine(line) && Strip(line) == line && !Marker(line, "start") && Marker(line, "finish")
  }

  predicate GoodDump(opening: string, ss: seq<Section>, closing: string) {
    Opens(opening) && Closes(closing) && GoodSections(ss)
  }

  lemma OpenStep(p: Parser, line: string)
    requires Opens(line)
    ensures StepLine(p, line) == Parser(1, "", "", p.files)
  {
    hide Marker, Strip;
    NoMarkerInBlank("start");
  }

  lemma CloseStep(p: Parser, line: string)
    requires Closes(line)
    ensures StepLine(p, line) == p.(state := 0)
  {
    hide Marker, Strip;
    NoMarkerInBlank("finish");
  }

  lemma NoMarkerInBlank(word: string)
    ensures !Marker("", word)
  {
  }

  lemma ClosingParses(p: Parser, closing: string)
    requires Closes(closing)
    ensures RunText(p, ClosingText(closing)) == p.(state := 0)
  {
    hide StepLine, RunText, Marker, Strip;
    assert ClosingText(closing) == "\n" + (closing + "\n" + "");
    BlankText(p, closing + "\n" + "");
    TextLine(p, closing, "");
    CloseStep(p, closing);
    EmptyText(p.(state := 0));
  }

  lemma OpeningParses(p: Parser, opening: string, t: string)
    requires Opens(opening)
    ensures RunText(p, opening + "\n" + t) == RunText(Parser(1, "", "", p.files), t)
  {
    hide StepLine, RunText, Marker, Strip;
    TextLine(p, opening, t);
    OpenStep(p, opening);
  }

  lemma LogThenDump(p: Parser, log: string, opening: string, t: string)
    requires Opens(opening)
    ensures RunText(p, log + ("\n" + (opening + "\n" + t))) == RunText(Parser(1, "", "", RunText(p, log).files), t)
  {
    hide StepLine, RunText, Opens;
    assert log + ("\n" + (opening + "\n" + t)) == log + "\n" + (opening + "\n" + t);
    TextConcat(p, log, opening + "\n" + t);
    OpeningParses(RunText(p, log), opening, t);
  }

  /** Whatever the log held before, parsing a dump leaves exactly the dumped files behind, each
      with the concatenation of the buffers printed for it, and the parser idle. */
  lemma DumpParses(p: Parser, log: string, opening: string, ss: seq<Section>, closing: string)
    requires GoodDump(opening, ss, closing)
    ensures RunText(p, log + DumpText(opening, ss, closing))
         == Parser(0, "", "", Recreated(RunText(p, log).files, ss))
  {
    hide RunText, Opens, Closes, GoodSections, SectionsText, ClosingText;
    var files := RunText(p, log).files;
    LogThenDump(p, log, opening, SectionsText(ss) + ClosingText(closing));
    SectionsParse(Parser(1, "", "", files), ss, ClosingText(closing));
    ClosingParses(Parser(1, "", "", Recreated(files, ss)), closing);
  }

  lemma EmptyText(p: Parser)
    ensures RunText(p, "") == p
  {
    hide StepLine;
    BlankStep(p);
    assert Lines("") == [""];
    assert RunLines(p, [""]) == StepLine(RunLines(p, []), "");
  }

  lemma MarkerAt(line: string, i: nat, e: nat, word: string)
    requires At(line, i, "Dump") && SpaceAt(line, i + 4) && i + 7 <= e && SpaceAt(line, e - 1) && At(line, e, word)
    ensures Marker(line, word)
  {
  }

  lemma OpensIf(line: string, e: nat)
    requires OneLine(line) && At(line, 0, "Dump") && SpaceAt(line, 4) && 7 <= e && SpaceAt(line, e - 1)
    requires At(line, e, "start") && !IsSpace(line[0]) && !IsSpace(line[|line| - 1])
    ensures Opens(line)
  {
    hide TrimLeft, TrimRight, IsSpace;
    MarkerAt(line, 0, e, "start");
  }

  lemma ClosesIf(line: string, e: nat)
    requires OneLine(line) && At(line, 0, "Dump") && SpaceAt(line, 4) && 7 <= e && SpaceAt(line, e - 1)
    requires At(line, e, "finish") && !IsSpace(line[0]) && !IsSpace(line[|line| - 1])
    requires forall e | 0 <= e < |line| - 1 :: line[e] == 's' ==> line[e + 1] != 't'
    ensures Closes(line)
  {
    hide TrimLeft, TrimRight, IsSpace;
    MarkerAt(line, 0, e, "finish");
    NoStart(line);
  }

  lemma NoStart(line: string)
    requires forall e | 0 <= e < |line| - 1 :: line[e] == 's' ==> line[e + 1] != 't'
    ensures !Marker(line, "start")
  {
    hide IsSpace;
    forall e: nat ensures !At(line, e, "start") {
      if e + 5 <= |line| {
        assert line[e..e + 5][0] == line[e] && line[e..e + 5][1] == line[e + 1];
      }
    }
  }

  lemma CoverageStart()
    ensures Opens(COVERAGE_START)
  {
    hide Opens;
    OpensIf(COVERAGE_START, 19);
  }

  lemma CoverageEnd()
    ensures Closes(COVERAGE_END)
  {
    hide Closes;
    ClosesIf(COVERAGE_END, 19);
  }

  lemma ProfilingStart()
    ensures Opens(PROFILING_START)
  {
    hide Opens;
    OpensIf(PROFILING_START, 20);
  }

  lemma ProfilingEnd()
    ensures Closes(PROFILING_END)
  {
    hide Closes;
    ClosesIf(PROFILING_END, 20);
  }

  /** Between "Dump" and the word there are at least three characters, the first and the last white. */
  lemma MarkerExamples()
    ensures Marker("x Dump a  start y", "start") && Marker("Dump   finished", "finish")
    ensures !Marker("Dump  start", "start") && !Marker("Dumps a start", "start") && !Marker("Dump a restart", "start")
  {
    hide Marker;
    MatchingLines();
    OneWayOnly("Dump  start", 6);
    OneWayOnly("Dumps a start", 8);
    OneWayOnly("Dump a restart", 9);
  }

  lemma MatchingLines()
    ensures Marker("x Dump a  start y", "start") && Marker("Dump   finished", "finish")
  {
    hide Marker;
    assert "x Dump a  start y"[2..6] == "Dump" && "x Dump a  start y"[10..15] == "start";
    MarkerAt("x Dump a  start y", 2, 10, "start");
    assert "Dump   finished"[0..4] == "Dump" && "Dump   finished"[7..13] == "finish";
    MarkerAt("Dump   finished", 0, 7, "finish");
  }

  /** A line that starts with its only "Dump" and has its only "start" at `e`, where the pattern needs
      more in between. */
  lemma OneWayOnly(line: string, e: nat)
    requires forall i | 1 <= i < |line| :: line[i] != 'D'
    requires forall i | 0 <= i < |line| - 1 && i != e :: line[i] != 's' || line[i + 1] != 't'
    requires e < 7 || e > |line| || !SpaceAt(line, 4) || !SpaceAt(line, e - 1)
    ensures !Marker(line, "start")
  {
    hide IsSpace;
    forall i: nat, w: nat | i <= |line| && w <= |line| && At(line, i, "Dump") && At(line, w, "start")
      ensures i == 0 && w == e
    {
      assert line[i..i + 4][0] == line[i] == 'D';
      assert line[w..w + 5][0] == line[w] && line[w..w + 5][1] == line[w + 1];
    }
  }

  lemma FromHexPair(s: string, rest: seq<byte>, hi: nat, lo: nat)
    requires 2 <= |s| && FromHex(s[2..]) == Some(rest) && hi < 16 && lo < 16
    requires HexValue(s[0]) == Some(hi) && HexValue(s[1]) == Some(lo)
    ensures FromHex(s) == Some([16 * hi + lo] + rest)
  {
  }

  /** Digits come in pairs; white space may stand between pairs only. */
  lemma FromHexExamples()
    ensures FromHex(" 1f\t2A") == Some([0x1f, 0x2a]) && FromHex("1 f") == None && FromHex("1f2") == None
  {
    assert FromHex("") == Some([]);
    assert " 1f\t2A"[1..] == "1f\t2A" && "1f\t2A"[2..] == "\t2A" && "\t2A"[1..] == "2A" && "2A"[2..] == "";
    FromHexPair("2A", [], 2, 10);
    assert [16 * 2 + 10] + [] == [0x2a];
    assert FromHex("\t2A") == FromHex("2A") == Some([0x2a]);
    FromHexPair("1f\t2A", [0x2a], 1, 15);
    assert [16 * 1 + 15] + [0x2a] == [0x1f, 0x2a];
    assert FromHex(" 1f\t2A") == FromHex("1f\t2A");
    assert "1f2"[2..] == "2";
    assert FromHex("2") == None;
  }

  /** The four marker lines the two profilers print are recognised for what they are. */
  lemma MarkersRecognised()
    ensures Opens(COVERAGE_START) && Closes(COVERAGE_END) && Opens(PROFILING_START) && Closes(PROFILING_END)
  {
    hide Opens, Closes;
    CoverageStart();
    CoverageEnd();
    ProfilingStart();
    ProfilingEnd();
  }

  predicate DistinctNames(ss: seq<Section>) {
    forall i, j | 0 <= i < j < |ss| :: ss[i].name != ss[j].name
  }

  /** With distinct names every section's file is there with its own contents, and no other file
      has changed. */
  lemma {:induction false} RecreatedExactly(files: Files, ss: seq<Section>)
    requires DistinctNames(ss)
    ensures var r := Recreated(files, ss);
            && (forall i | 0 <= i < |ss| :: ss[i].name in r && r[ss[i].name] == Flatten(ss[i].pieces))
            && (forall n | (forall i | 0 <= i < |ss| :: ss[i].name != n) ::
                  (n in r <==> n in files) && (n in files ==> r[n] == files[n]))
    decreases |ss|
  {
    hide Flatten;
    if ss != [] {
      RecreatedExactly(files[ss[0].name := Flatten(ss[0].pieces)], ss[1..]);
    }
  }
}
