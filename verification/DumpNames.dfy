/** Which file names a dump may use: exactly those for which the parser recreates the files. */
module DumpNames {
  import opened Bytes
  import opened HexDump
  import opened LogParser
  import opened DumpRoundTrip

  /** The line makes the parser create a file of this name. */
  predicate Creates(raw: string, name: string) {
    var line := Strip(raw);
    && At(line, 0, "CREATE") && !Marker(line, "start") && !Marker(line, "finish")
    && GenName(line) == name && name != ""
  }

  /** Between lines no name is pending, and each line creates at most its own file. */
  lemma StepFiles(p: Parser, raw: string)
    requires p.genfilename == ""
    ensures StepLine(p, raw).genfilename == ""
    ensures forall n | n in StepLine(p, raw).files :: n in p.files || Creates(raw, n)
  {
    hide Strip, GenName, Marker, FromHex, At;
  }

  ghost predicate CreatedBy(lines: seq<string>, name: string) {
    exists i | 0 <= i < |lines| :: Creates(lines[i], name)
  }

  ghost predicate AllCreated(files: Files, lines: seq<string>) {
    forall n | n in files :: CreatedBy(lines, n)
  }

  lemma CreatedByMore(before: seq<string>, last: string, name: string)
    ensures CreatedBy(before, name) || Creates(last, name) ==> CreatedBy(before + [last], name)
  {
    hide Creates;
    var lines := before + [last];
    if CreatedBy(before, name) {
      var i :| 0 <= i < |before| && Creates(before[i], name);
      assert lines[i] == before[i];
    }
    assert lines[|before|] == last;
  }

  lemma StepCreates(p: Parser, before: seq<string>, last: string)
    requires p.genfilename == "" && AllCreated(p.files, before)
    ensures StepLine(p, last).genfilename == "" && AllCreated(StepLine(p, last).files, before + [last])
  {
    hide StepLine, Creates, CreatedBy;
    StepFiles(p, last);
    forall n | n in StepLine(p, last).files ensures CreatedBy(before + [last], n) {
      CreatedByMore(before, last, n);
    }
  }

  lemma {:induction false} FilesCreated(lines: seq<string>)
    ensures RunLines(START, lines).genfilename == ""
    ensures AllCreated(RunLines(START, lines).files, lines)
  {
    hide StepLine, CreatedBy;
    if lines != [] {
      var before, last := lines[..|lines| - 1], lines[|lines| - 1];
      assert lines == before + [last];
      FilesCreated(before);
      hide AllCreated;
      StepCreates(RunLines(START, before), before, last);
    }
  }

  // Names have no line breaks.

  lemma TrimKeepsOneLine(s: string, drop: char -> bool)
    requires OneLine(s)
    ensures OneLine(Trim(s, drop))
  {
    var left := TrimLeft(s, drop);
    assert left == s[|s| - |left|..];
    assert TrimRight(left, drop) <= left;
  }

  lemma CreatedNameIsOneLine(raw: string, name: string)
    requires OneLine(raw) && Creates(raw, name)
    ensures OneLine(name)
  {
    hide Trim, OneLine, Marker, IsSpace, InCreate;
    TrimKeepsOneLine(raw, IsSpace);
    TrimKeepsOneLine(Strip(raw), InCreate);
    TrimKeepsOneLine(Trim(Strip(raw), InCreate), IsSpace);
  }

  lemma {:induction false} LinesAreLines(part: string, text: string)
    requires OneLine(part)
    ensures forall l | l in LinesAfter(part, text) :: OneLine(l)
    decreases |text|
  {
    if text != "" {
      LinesAreLines(if IsBreak(text[0]) then "" else part + [text[0]], text[1..]);
    }
  }

  /** A name with a line break is never created. */
  lemma BrokenNameLost(text: string, name: string)
    requires !OneLine(name)
    ensures name !in RunText(START, text).files
  {
    hide OneLine, Creates;
    FilesCreated(Lines(text));
    assert OneLine("") by { EmptyIsOneLine(); }
    LinesAreLines("", text);
    if name in RunText(START, text).files {
      var i :| 0 <= i < |Lines(text)| && Creates(Lines(text)[i], name);
      CreatedNameIsOneLine(Lines(text)[i], name);
    }
  }

  lemma EmptyIsOneLine()
    ensures OneLine("")
  {
  }

  // The lines of a dump.

  predicate IsHexLine(line: string) {
    forall i | 0 <= i < |line| :: IsHexChar(line[i])
  }

  predicate IsCreateLine(line: string, ss: seq<Section>) {
    exists i | 0 <= i < |ss| :: line == CreateLine(ss[i].name)
  }

  predicate DumpLine(line: string, ss: seq<Section>) {
    IsHexLine(line) || IsCreateLine(line, ss)
  }

  lemma LinesSplit(a: string, t: string)
    requires OneLine(a)
    ensures Lines(a + "\n" + t) == [a] + Lines(t)
  {
    LinesConcat("", a, t);
    LinesAfterText("", a, "");
    assert a + "" == a && "" + a == a;
  }

  lemma {:induction false} HexLinesLines(bs: seq<byte>, t: string)
    ensures forall l | l in Lines(HexLines(bs) + t) :: IsHexLine(l) || l in Lines(t)
    decreases |bs|
  {
    hide Hex, LinesAfter;
    if bs == [] {
      assert HexLines(bs) + t == t;
    } else {
      var n := if |bs| < OCTETS_PER_LINE then |bs| else OCTETS_PER_LINE;
      HexChars(bs[..n]);
      HexLinesFirst(bs, n, t);
      LinesSplit(Hex(bs[..n]), HexLines(bs[n..]) + t);
      HexLinesLines(bs[n..], t);
    }
  }

  lemma {:induction false} PiecesLines(pieces: seq<seq<byte>>, t: string)
    ensures forall l | l in Lines(PiecesText(pieces) + t) :: IsHexLine(l) || l in Lines(t)
    decreases |pieces|
  {
    hide HexLines, LinesAfter, IsHexLine;
    if pieces == [] {
      assert PiecesText(pieces) + t == t;
    } else {
      assert PiecesText(pieces) + t == HexLines(pieces[0]) + (PiecesText(pieces[1..]) + t);
      HexLinesLines(pieces[0], PiecesText(pieces[1..]) + t);
      PiecesLines(pieces[1..], t);
    }
  }

  lemma SectionLines(s: Section, t: string)
    requires OneLine(s.name)
    ensures forall l | l in Lines(SectionText(s) + t) :: IsHexLine(l) || l == CreateLine(s.name) || l in Lines(t)
  {
    hide PiecesText, CreateLine, Lines;
    var rest := CreateLine(s.name) + "\n" + t;
    assert SectionText(s) + t == PiecesText(s.pieces) + ("" + "\n" + rest);
    PiecesLines(s.pieces, "" + "\n" + rest);
    LinesSplit("", rest);
    CreateLineIsOneLine(s.name);
    LinesSplit(CreateLine(s.name), t);
  }

  predicate OneLineNames(ss: seq<Section>) {
    forall i | 0 <= i < |ss| :: OneLine(ss[i].name)
  }

  lemma {:induction false} SectionsLines(ss: seq<Section>, t: string)
    requires OneLineNames(ss)
    ensures forall l | l in Lines(SectionsText(ss) + t) :: DumpLine(l, ss) || l in Lines(t)
    decreases |ss|
  {
    hide SectionText, Lines, OneLine, CreateLine, IsHexLine;
    if ss == [] {
      assert SectionsText(ss) + t == t;
    } else {
      var more := SectionsText(ss[1..]) + t;
      assert SectionsText(ss) + t == SectionText(ss[0]) + more;
      SectionLines(ss[0], more);
      SectionsLines(ss[1..], t);
      forall l | l in Lines(SectionsText(ss) + t) ensures DumpLine(l, ss) || l in Lines(t) {
        if IsCreateLine(l, ss[1..]) {
          var i :| 0 <= i < |ss[1..]| && l == CreateLine(ss[1..][i].name);
          assert l == CreateLine(ss[i + 1].name);
        }
        if l == CreateLine(ss[0].name) {
          assert IsCreateLine(l, ss);
        }
      }
    }
  }

  lemma DumpLines(opening: string, ss: seq<Section>, closing: string)
    requires OneLineNames(ss) && OneLine(opening) && OneLine(closing)
    ensures forall l | l in Lines(DumpText(opening, ss, closing)) :: DumpLine(l, ss) || l == opening || l == closing
  {
    hide SectionsText, Lines, OneLine, IsCreateLine;
    EmptyIsOneLine();
    var body := SectionsText(ss) + ClosingText(closing);
    assert DumpText(opening, ss, closing) == "" + "\n" + (opening + "\n" + body);
    LinesSplit("", opening + "\n" + body);
    LinesSplit(opening, body);
    SectionsLines(ss, ClosingText(closing));
    assert ClosingText(closing) == "" + "\n" + (closing + "\n" + "");
    LinesSplit("", closing + "\n" + "");
    LinesSplit(closing, "");
    assert Lines("") == [""] by { NoLines(); }
  }

  lemma NoLines()
    ensures Lines("") == [""]
  {
  }

  // What becomes of a name.

  lemma HexLineCreatesNothing(line: string, name: string)
    requires IsHexLine(line)
    ensures !Creates(line, name)
  {
    hide GenName, Marker, IsSpace;
    var left := TrimLeft(line, IsSpace);
    var s := Strip(line);
    assert s <= left;
    assert s != "" ==> s[0] == line[|line| - |left|];
    if At(s, 0, "CREATE") {
      StartsWithC(s);
    }
  }

  lemma MarkerCreatesNothing(line: string, name: string)
    requires Opens(line) || Closes(line)
    ensures !Creates(line, name)
  {
    hide GenName, Marker, Strip;
  }

  /** The name a CREATE line yields is the name itself or a shorter one. */
  lemma GenNameShorter(name: string)
    ensures var g := GenName(Strip(CreateLine(name))); g == name || |g| < |name|
  {
    var s := Strip(CreateLine(name));
    CreateLineKept(name);
    hide IsSpace, InCreate, Trim, Strip, CreateLine;
    if |s| < 8 {
      AllCreateTrimmed(s);
    } else {
      KeywordTrimmed(s, name);
      StripsToTail(Trim(s, InCreate), name);
    }
  }

  /** Trimming takes the keyword off, and perhaps something at the end. */
  lemma KeywordTrimmed(s: string, name: string)
    requires s <= CreateLine(name) && 8 < |s|
    ensures Trim(s, InCreate) <= " " + name
  {
    hide InCreate, TrimRight, TrimLeft, CreateLine;
    var line := CreateLine(name);
    FirstLetter();
    assert forall i | 0 <= i < 7 :: s[i] == line[i];
    TrimLeftMany(s, 7);
    assert line[7..] == " " + name;
    assert s[7..] <= line[7..];
  }

  /** Stripping a CREATE line only shortens it at the end; the space before the name stays unless
      nothing follows it. */
  lemma CreateLineKept(name: string)
    ensures var s := Strip(CreateLine(name));
            && s <= CreateLine(name)
            && (forall i | 0 <= i < |s| && i < 7 :: InCreate(s[i]))
            && (8 <= |s| ==> !InCreate(s[7])) && |s| != 8
  {
    hide TrimRight, TrimLeft, CreateLine;
    var line := CreateLine(name);
    FirstLetter();
    assert TrimLeft(line, IsSpace) == line;
  }

  lemma FirstLetter()
    ensures !IsSpace('C') && IsSpace(' ') && !InCreate(' ')
  {
  }

  lemma AllCreateTrimmed(s: string)
    requires forall i | 0 <= i < |s| :: InCreate(s[i])
    ensures GenName(s) == ""
  {
    hide IsSpace, InCreate;
    NothingLeft(s);
  }

  lemma {:induction false} NothingLeft(s: string)
    requires forall i | 0 <= i < |s| :: InCreate(s[i])
    ensures TrimLeft(s, InCreate) == ""
  {
    hide InCreate;
    if s != "" {
      NothingLeft(s[1..]);
    }
  }

  /** A stripped name is the one printed or shorter. */
  lemma StripsToTail(spaced: string, name: string)
    requires spaced <= " " + name
    ensures Strip(spaced) == name || |Strip(spaced)| < |name|
  {
    hide IsSpace, TrimRight, TrimLeft;
    FirstLetter();
    var left := TrimLeft(spaced, IsSpace);
    var right := Strip(spaced);
    assert right <= left && left == spaced[|spaced| - |left|..];
    if spaced == "" {
      assert right == "";
    } else {
      assert spaced[0] == ' ' && |left| < |spaced|;
      if |right| == |name| {
        assert right == left == spaced[1..] == name;
      }
    }
  }

  lemma MarkerInName(name: string, word: string)
    requires Marker(name, word) && word != "" && !IsSpace(word[|word| - 1])
    ensures Marker(Strip(CreateLine(name)), word)
  {
    hide IsSpace, InCreate, CreateLine, Strip;
    var i: nat, e: nat :| i <= |name| && e <= |name| &&
      At(name, i, "Dump") && SpaceAt(name, i + 4) && i + 7 <= e && SpaceAt(name, e - 1) && At(name, e, word);
    var line := CreateLine(name);
    var s := Strip(line);
    LongEnough(line, e + 8 + |word|, word);
    AtFront(name, line, s, i, "Dump");
    AtFront(name, line, s, e, word);
    assert s[i + 8 + 4] == name[i + 4] && s[e + 8 - 1] == name[e - 1];
    assert SpaceAt(s, i + 8 + 4) && SpaceAt(s, e + 8 - 1);
    hide At, SpaceAt, Marker;
    MarkerAt(s, i + 8, e + 8, word);
  }

  /** Stripping does not reach past the last visible character. */
  lemma LongEnough(line: string, end: nat, word: string)
    requires line != "" && line[0] == 'C' && 0 < end <= |line| && !IsSpace(line[end - 1])
    ensures Strip(line) <= line && end <= |Strip(line)|
  {
    hide IsSpace, TrimRight, TrimLeft;
    FirstLetter();
    assert TrimLeft(line, IsSpace) == line;
    TrimRightKeeps(line, end);
  }

  lemma {:induction false} TrimRightKeeps(s: string, end: nat)
    requires 0 < end <= |s| && !IsSpace(s[end - 1])
    ensures end <= |TrimRight(s, IsSpace)|
  {
    hide IsSpace;
    if end < |s| {
      TrimRightKeeps(s[..|s| - 1], end);
    }
  }

  lemma AtFront(name: string, line: string, s: string, i: nat, word: string)
    requires |line| == 8 + |name| && line[8..] == name && s <= line && At(name, i, word) && i + 8 + |word| <= |s|
    ensures At(s, i + 8, word)
  {
    assert s[i + 8..i + 8 + |word|] == line[i + 8..i + 8 + |word|] == line[8..][i..i + |word|];
  }

  /** A CREATE line creates the file it names exactly when the name is clean and hides no marker. */
  lemma CreatesOwnIff(name: string)
    requires OneLine(name)
    ensures Creates(CreateLine(name), name) ==> GoodName(name)
  {
    hide IsSpace, InCreate, CreateLine, Strip, GenName, Marker, CleanName;
    if Creates(CreateLine(name), name) {
      NameSurvivesIff(name);
      VisibleWords();
      if Marker(name, "start") {
        MarkerInName(name, "start");
      }
      if Marker(name, "finish") {
        MarkerInName(name, "finish");
      }
    }
  }

  lemma VisibleWords()
    ensures !IsSpace('t') && !IsSpace('h')
  {
  }

  // Whole dumps.

  function Longest(ss: seq<Section>): (n: nat)
    ensures forall i | 0 <= i < |ss| :: |ss[i].name| <= n
  {
    if ss == [] then 0
    else
      var n := Longest(ss[..|ss| - 1]);
      if |ss[|ss| - 1].name| <= n then n else |ss[|ss| - 1].name|
  }

  /** A bad name that is there must come from a longer bad one. */
  lemma BadNameHasMaker(opening: string, ss: seq<Section>, closing: string, name: string) returns (i: nat)
    requires Opens(opening) && Closes(closing) && OneLineNames(ss) && !GoodName(name) && OneLine(name)
    requires name in RunText(START, DumpText(opening, ss, closing)).files
    ensures i < |ss| && !GoodName(ss[i].name) && |name| < |ss[i].name|
  {
    hide IsSpace, InCreate, CreateLine, Strip, GenName, Marker, OneLine, IsHexLine, RunText, DumpText, Lines, CleanName;
    var text := DumpText(opening, ss, closing);
    assert name in RunLines(START, Lines(text)).files by { RunTextIs(text); }
    FilesCreated(Lines(text));
    DumpLines(opening, ss, closing);
    var k :| 0 <= k < |Lines(text)| && Creates(Lines(text)[k], name);
    var l := Lines(text)[k];
    if l == opening || l == closing {
      MarkerCreatesNothing(l, name);
    }
    if IsHexLine(l) {
      HexLineCreatesNothing(l, name);
    }
    assert l in Lines(text) && DumpLine(l, ss);
    var j :| 0 <= j < |ss| && l == CreateLine(ss[j].name);
    i := j;
    GenNameShorter(ss[i].name);
    CreatesOwnIff(name);
    if GoodName(ss[i].name) {
      NameSurvivesIff(ss[i].name);
    }
  }

  lemma RunTextIs(text: string)
    ensures RunText(START, text) == RunLines(START, Lines(text))
  {
  }

  ghost predicate AllThere(files: Files, ss: seq<Section>) {
    forall i | 0 <= i < |ss| :: ss[i].name in files
  }

  lemma {:induction false} AllThereAllGood(opening: string, ss: seq<Section>, closing: string, i: nat)
    requires Opens(opening) && Closes(closing) && OneLineNames(ss) && i < |ss|
    requires AllThere(RunText(START, DumpText(opening, ss, closing)).files, ss)
    ensures GoodName(ss[i].name)
    decreases Longest(ss) - |ss[i].name|
  {
    hide Opens, Closes, GoodName, OneLine, RunText, DumpText;
    if !GoodName(ss[i].name) {
      var j := BadNameHasMaker(opening, ss, closing, ss[i].name);
      AllThereAllGood(opening, ss, closing, j);
    }
  }

  lemma {:induction false} RecreatedNames(files: Files, ss: seq<Section>)
    ensures AllThere(Recreated(files, ss), ss)
    ensures forall n | n in files :: n in Recreated(files, ss)
    decreases |ss|
  {
    hide Flatten;
    if ss != [] {
      var next := files[ss[0].name := Flatten(ss[0].pieces)];
      RecreatedNames(next, ss[1..]);
      forall i | 0 <= i < |ss| ensures ss[i].name in Recreated(files, ss) {
        if 0 < i {
          assert ss[i] == ss[1..][i - 1];
        }
      }
    }
  }

  /** A dump leaves exactly the files it names, with their contents, if and only if all its names are
      good: without line breaks, outer white space and markers, and not ending in one of the
      characters of the CREATE keyword. */
  lemma DumpParsesIff(opening: string, ss: seq<Section>, closing: string)
    requires Opens(opening) && Closes(closing)
    ensures RunText(START, DumpText(opening, ss, closing)).files == Recreated(map[], ss) <==> GoodSections(ss)
  {
    hide Opens, Closes, GoodName, OneLine, RunText, DumpText;
    var text := DumpText(opening, ss, closing);
    if GoodSections(ss) {
      EmptyText(START);
      assert "" + text == text;
      DumpParses(START, "", opening, ss, closing);
    } else if RunText(START, text).files == Recreated(map[], ss) {
      RecreatedNames(map[], ss);
      var i :| 0 <= i < |ss| && !GoodName(ss[i].name);
      forall j | 0 <= j < |ss| ensures OneLine(ss[j].name) {
        if !OneLine(ss[j].name) {
          BrokenNameLost(text, ss[j].name);
        }
      }
      AllThereAllGood(opening, ss, closing, i);
    }
  }

  /** For one file. */
  lemma FileSurvivesIff(opening: string, name: string, pieces: seq<seq<byte>>, closing: string)
    requires Opens(opening) && Closes(closing)
    ensures RunText(START, DumpText(opening, [Section(name, pieces)], closing)).files == map[name := Flatten(pieces)]
       <==> GoodName(name)
  {
    hide Opens, Closes, GoodName, RunText, DumpText, Flatten;
    var ss := [Section(name, pieces)];
    DumpParsesIff(opening, ss, closing);
    assert ss[1..] == [];
    assert Recreated(map[], ss) == Recreated(map[name := Flatten(pieces)], []);
  }

  /** No dump of a file of this name leaves that file. */
  ghost predicate AlwaysLost(name: string) {
    forall opening, pieces, closing | Opens(opening) && Closes(closing) ::
      RunText(START, DumpText(opening, [Section(name, pieces)], closing)).files != map[name := Flatten(pieces)]
  }

  lemma LostIfBad(name: string)
    requires !GoodName(name)
    ensures AlwaysLost(name)
  {
    hide Opens, Closes, GoodName, RunText, DumpText, Flatten;
    forall opening, pieces, closing | Opens(opening) && Closes(closing)
      ensures RunText(START, DumpText(opening, [Section(name, pieces)], closing)).files != map[name := Flatten(pieces)]
    {
      FileSurvivesIff(opening, name, pieces, closing);
    }
  }

  /** One name for each way to fail. */
  lemma NamesAreLost()
    ensures AlwaysLost("") && AlwaysLost(" a.gcda") && AlwaysLost("a.gcda ") && AlwaysLost("prof.DATA")
    ensures AlwaysLost("a\nb") && AlwaysLost("Dump a start") && AlwaysLost("Dump a finish")
  {
    hide AlwaysLost;
    BadNames();
    LostIfBad("");
    LostIfBad(" a.gcda");
    LostIfBad("a.gcda ");
    LostIfBad("prof.DATA");
    LostIfBad("a\nb");
    LostIfBad("Dump a start");
    LostIfBad("Dump a finish");
  }

  lemma BadNames()
    ensures !GoodName("") && !GoodName(" a.gcda") && !GoodName("a.gcda ") && !GoodName("prof.DATA")
    ensures !GoodName("a\nb") && !GoodName("Dump a start") && !GoodName("Dump a finish")
  {
    hide IsSpace, Marker;
    FirstLetter();
    assert IsBreak("a\nb"[1]);
    MarkerNames();
  }

  lemma MarkerNames()
    ensures Marker("Dump a start", "start") && Marker("Dump a finish", "finish")
  {
    hide Marker;
    assert "Dump a start"[7..12] == "start" && "Dump a start"[0..4] == "Dump";
    assert "Dump a finish"[7..13] == "finish" && "Dump a finish"[0..4] == "Dump";
    MarkerAt("Dump a start", 0, 7, "start");
    MarkerAt("Dump a finish", 0, 7, "finish");
  }
}
