/** The list of instrumented object files and its console dump. */
module GcovDump {
  import opened Bytes
  import opened Gcda
  import opened GcovWriter
  import opened HexDump
  import opened DumpRoundTrip
  import LogParser

  class GcovInfo {
    const info: Info
    const filename: string
    var next: GcovInfo?

    constructor (info: Info, filename: string)
      ensures this.info == info && this.filename == filename && next == null
    {
      this.info, this.filename, this.next := info, filename, null;
    }
  }

  function ImageOf(info: Info, gcc12: bool): seq<byte>
    requires WellFormed(info)
  {
    WordBytes(FileWords(info, gcc12))
  }

  ghost function After(objects: seq<GcovInfo>, i: nat): GcovInfo? {
    if i + 1 < |objects| then objects[i + 1] else null
  }

  /** The objects of a list, first to last. */
  ghost predicate ListFrom(head: GcovInfo?, objects: seq<GcovInfo>)
    reads objects
  {
    && head == (if objects == [] then null else objects[0])
    && forall i | 0 <= i < |objects| :: objects[i].next == After(objects, i)
  }

  ghost predicate AllWellFormed(objects: seq<GcovInfo>) {
    forall i | 0 <= i < |objects| :: WellFormed(objects[i].info)
  }

  ghost function SectionOf(o: GcovInfo, gcc12: bool): Section
    requires WellFormed(o.info)
  {
    Section(o.filename, [ImageOf(o.info, gcc12)])
  }

  ghost function Sections(objects: seq<GcovInfo>, gcc12: bool): (ss: seq<Section>)
    requires AllWellFormed(objects)
    ensures |ss| == |objects|
    ensures forall i | 0 <= i < |ss| :: ss[i] == SectionOf(objects[i], gcc12)
  {
    seq(|objects|, i requires 0 <= i < |objects| => SectionOf(objects[i], gcc12))
  }

  /** The text of one file: the sizing pass, the writing pass, the hex dump, the name. */
  method DumpInfo(info: Info, filename: string, gcc12: bool) returns (text: string)
    requires WellFormed(info)
    ensures text == SectionText(Section(filename, [ImageOf(info, gcc12)]))
  {
    hide FileWords, WordBytes, HexLines, CreateLine;
    var sz := ConvertToGcda(null, info, gcc12);
    var bufptr := new byte[sz];
    sz := ConvertToGcda(bufptr, info, gcc12);
    assert bufptr[..sz] == ImageOf(info, gcc12);
    text := HexDumpBuf(bufptr[..sz]);
    OnePiece(ImageOf(info, gcc12));
    text := text + "\n" + CreateLine(filename) + "\n";
  }

  lemma OnePiece(piece: seq<byte>)
    ensures PiecesText([piece]) == HexLines(piece)
  {
    hide HexLines;
    assert [piece][1..] == [];
  }

  lemma {:induction false} SectionsTextAppend(ss: seq<Section>, s: Section)
    ensures SectionsText(ss + [s]) == SectionsText(ss) + SectionText(s)
    decreases |ss|
  {
    hide SectionText;
    if ss == [] {
      assert (ss + [s])[1..] == [];
    } else {
      SectionsTextAppend(ss[1..], s);
      assert (ss + [s])[1..] == ss[1..] + [s];
    }
  }

  class Registry {
    var head: GcovInfo?
    ghost var objects: seq<GcovInfo>

    ghost predicate Valid()
      reads this, objects
    {
      && ListFrom(head, objects) && AllWellFormed(objects)
      && forall i, j | 0 <= i < j < |objects| :: objects[i] != objects[j]
    }

    constructor ()
      ensures Valid() && objects == []
    {
      head, objects := null, [];
    }

    /** `gcov_info_link`, called once for each object file: the newest comes first. */
    method Link(o: GcovInfo)
      requires Valid() && o !in objects && WellFormed(o.info)
      modifies this, o
      ensures Valid() && objects == [o] + old(objects)
    {
      ghost var was := objects;
      o.next := head;
      head := o;
      objects := [o] + was;
      forall i | 0 <= i < |objects| ensures objects[i].next == After(objects, i) {
        if 0 < i {
          assert was[i - 1] != o;
          assert was[i - 1].next == After(was, i - 1);
        }
      }
    }

    /** `gcov_dump`: nothing at all for an empty list, otherwise every file once, newest first. */
    method Dump(gcc12: bool) returns (console: string)
      requires Valid()
      ensures objects == [] ==> console == ""
      ensures objects != [] ==> console == DumpText(COVERAGE_START, Sections(objects, gcc12), COVERAGE_END)
    {
      hide ImageOf, SectionText;
      console := "";
      if head == null {
        return;
      }
      var text := "";
      var info := head;
      ghost var i, ss := 0, Sections(objects, gcc12);
      while info != null
        invariant i <= |objects| && info == if i < |objects| then objects[i] else null
        invariant text == SectionsText(ss[..i])
        decreases |objects| - i
      {
        var section := DumpInfo(info.info, info.filename, gcc12);
        SectionsTextAppend(ss[..i], ss[i]);
        assert ss[..i + 1] == ss[..i] + [ss[i]];
        text := text + section;
        assert objects[i].next == After(objects, i);
        info := info.next;
        i := i + 1;
      }
      assert ss[..|ss|] == ss;
      console := "\n" + (COVERAGE_START + "\n" + (text + ("\n" + COVERAGE_END + "\n")));
    }
  }

  /** From counters in memory to the reader of the recreated file: dumped on the console, parsed out
      of the log and read by tag and length, every counter is back. */
  lemma CoverageSurvives(log: string, names: seq<string>, infos: seq<Info>, gcc12: bool, i: nat)
    requires i < |infos| == |names|
    requires forall j | 0 <= j < |infos| :: WellFormed(infos[j]) && GoodName(names[j])
    requires forall j, k | 0 <= j < k < |names| :: names[j] != names[k]
    requires FileFits(infos[i], 0, gcc12)
    ensures var ss := seq(|infos|, j requires 0 <= j < |infos| => Section(names[j], [ImageOf(infos[j], gcc12)]));
            var files := RunText(LogParser.START, log + DumpText(COVERAGE_START, ss, COVERAGE_END)).files;
            && names[i] in files
            && ReadFile(files[names[i]], gcc12)
            == Some(DataFile(infos[i].version, infos[i].stamp, RecordsOf(infos[i], 0)))
  {
    hide RunText, ReadFile, FileWords, WordBytes, DumpText, GoodName, Opens, Closes, RecordsOf;
    var ss := seq(|infos|, j requires 0 <= j < |infos| => Section(names[j], [ImageOf(infos[j], gcc12)]));
    MarkersRecognised();
    DumpParses(LogParser.START, log, COVERAGE_START, ss, COVERAGE_END);
    var before := RunText(LogParser.START, log).files;
    RecreatedExactly(before, ss);
    FlattenOne(ss[i].pieces[0]);
    ReadFileBackIff(infos[i], gcc12);
  }
}
