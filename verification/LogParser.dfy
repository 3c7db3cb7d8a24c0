/** The script that turns a console log back into files: a state machine over lines. */
module LogParser {
  import opened Bytes

  /** White space as Python's `str.strip` and `\s` understand it. */
  predicate IsSpace(c: char) {
    || '\t' <= c <= '\r' || '\U{1c}' <= c <= ' ' || c == '\U{85}' || c == '\U{a0}' || c == '\U{1680}'
    || '\U{2000}' <= c <= '\U{200a}' || c == '\U{2028}' || c == '\U{2029}' || c == '\U{202f}'
    || c == '\U{205f}' || c == '\U{3000}'
  }

  predicate InCreate(c: char) {
    c == 'C' || c == 'R' || c == 'E' || c == 'A' || c == 'T' || c == ':'
  }

  function TrimLeft(s: string, drop: char -> bool): (t: string)
    ensures |t| <= |s| && t == s[|s| - |t|..]
    ensures t != "" ==> !drop(t[0])
    ensures s != "" ==> (t == s <==> !drop(s[0]))
  {
    if s != "" && drop(s[0]) then TrimLeft(s[1..], drop) else s
  }

  function TrimRight(s: string, drop: char -> bool): (t: string)
    ensures t <= s
    ensures t != "" ==> !drop(t[|t| - 1])
    ensures s != "" ==> (t == s <==> !drop(s[|s| - 1]))
  {
    if s != "" && drop(s[|s| - 1]) then TrimRight(s[..|s| - 1], drop) else s
  }

  function Trim(s: string, drop: char -> bool): (t: string)
    ensures t != "" ==> !drop(t[0]) && !drop(t[|t| - 1])
    ensures s != "" && drop(s[0]) ==> |t| < |s|
    ensures s != "" && !drop(s[0]) && !drop(s[|s| - 1]) ==> t == s
  {
    TrimRight(TrimLeft(s, drop), drop)
  }

  function Strip(s: string): string {
    Trim(s, IsSpace)
  }

  predicate At(line: string, i: nat, word: string) {
    i + |word| <= |line| && line[i..i + |word|] == word
  }

  predicate SpaceAt(line: string, i: nat) {
    i < |line| && IsSpace(line[i])
  }

  /** A search for the pattern "Dump", white space, anything, white space, `word`. */
  predicate Marker(line: string, word: string) {
    exists i: nat, e: nat | i <= |line| && e <= |line| ::
      At(line, i, "Dump") && SpaceAt(line, i + 4) && i + 7 <= e && SpaceAt(line, e - 1) && At(line, e, word)
  }

  function HexValue(c: char): (r: Option<nat>)
    ensures r.Some? ==> r.value < 16
  {
    if '0' <= c <= '9' then Some(c as int - '0' as int)
    else if 'a' <= c <= 'f' then Some(c as int - 'a' as int + 10)
    else if 'A' <= c <= 'F' then Some(c as int - 'A' as int + 10)
    else None
  }

  /** `bytes.fromhex`: pairs of digits, white space allowed between pairs. */
  function FromHex(s: string): Option<seq<byte>> {
    if s == "" then Some([])
    else if s[0] == ' ' || '\t' <= s[0] <= '\r' then FromHex(s[1..])
    else if |s| == 1 then None
    else
      var hi, lo := HexValue(s[0]), HexValue(s[1]);
      if hi.None? || lo.None? then None
      else
        match FromHex(s[2..])
        case None => None
        case Some(rest) => Some([16 * hi.value + lo.value] + rest)
  }

  type Files = map<string, seq<byte>>

  /** `state` is 0 outside a dump, 1 while collecting hex, 2 once a file name has been read. */
  datatype Parser = Parser(state: nat, hexstr: string, genfilename: string, files: Files)

  const START := Parser(0, "", "", map[])

  /** The file name on a line that starts with "CREATE". */
  function GenName(line: string): string {
    Strip(Trim(line, InCreate))
  }

  function Emit(p: Parser): Parser {
    var files := match FromHex(p.hexstr)
      case None => p.files
      case Some(data) => p.files[p.genfilename := data];
    Parser(1, "", "", files)
  }

  function StepLine(p: Parser, raw: string): Parser {
    var line := Strip(raw);
    if line == "" then p
    else if Marker(line, "start") then Parser(1, "", "", p.files)
    else if Marker(line, "finish") then p.(state := 0)
    else
      var q := if At(line, 0, "CREATE") then p.(state := 2, genfilename := GenName(line)) else p;
      var r := if q.state == 1 then q.(hexstr := q.hexstr + line) else q;
      if r.state == 2 && r.genfilename != "" then Emit(r) else r
  }

  function RunLines(p: Parser, lines: seq<string>): Parser {
    if lines == [] then p else StepLine(RunLines(p, lines[..|lines| - 1]), lines[|lines| - 1])
  }

  predicate IsBreak(c: char) {
    c == '\n' || c == '\r'
  }

  /** The lines of a log. A carriage return and line feed pair yields one blank line more than
      `readlines` does; blank lines have no effect. */
  function Lines(text: string): seq<string> {
    LinesAfter("", text)
  }

  function LinesAfter(part: string, text: string): seq<string>
    decreases |text|
  {
    if text == "" then [part]
    else if IsBreak(text[0]) then [part] + LinesAfter("", text[1..])
    else LinesAfter(part + [text[0]], text[1..])
  }

  method GenerateBinaryFromLog(lines: seq<string>) returns (files: Files)
    ensures files == RunLines(START, lines).files
  {
    var state, hexstr, genfilename := 0, "", "";
    files := map[];
    for n := 0 to |lines|
      invariant Parser(state, hexstr, genfilename, files) == RunLines(START, lines[..n])
    {
      assert lines[..n + 1][..n] == lines[..n];
      var line := Strip(lines[n]);
      if line == "" {
        continue;
      }
      if Marker(line, "start") {
        state, hexstr, genfilename := 1, "", "";
        continue;
      }
      if Marker(line, "finish") {
        state := 0;
        continue;
      }
      if At(line, 0, "CREATE") {
        state := 2;
        genfilename := GenName(line);
      }
      if state == 1 {
        hexstr := hexstr + line;
      }
      if state == 2 && genfilename != "" {
        var data := FromHex(hexstr);
        if data.Some? {
          files := files[genfilename := data.value];
        }
        hexstr, genfilename, state := "", "", 1;
      }
    }
    assert lines[..|lines|] == lines;
  }
}
