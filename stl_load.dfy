/** loadStl as a whole: the file is sniffed by its first line, then read by
    the ASCII line loop or by the binary record loop. */
module StlLoad {
  import opened StlTypes
  import opened Text
  import opened AsciiStl
  import opened BinaryStl

  /** The word an ASCII STL file is expected to start with. */
  const SolidKw: string := "solid"

  /** The bytes left in the stream once the first getline has consumed the
      first line and its newline. */
  function AfterFirstLine(bs: seq<Byte>): (rest: seq<Byte>)
    ensures bs != [] ==> |rest| < |bs|
    ensures bs == [] ==> rest == []
  {
    var k := NewlineIndex(bs);
    if k == |bs| then [] else bs[k + 1..]
  }

  /** The lines of the file are its first line, then the lines of what the
      first getline leaves in the stream. */
  lemma LinesAfterFirstLine(bs: seq<Byte>)
    requires bs != []
    ensures GetLines(bs) == [FirstLine(bs)] + GetLines(AfterFirstLine(bs))
  {
    var k := NewlineIndex(bs);
    if k == |bs| {
      assert AfterFirstLine(bs) == [];
      assert GetLines(bs) == [Chars(bs[..k])] + [];
    } else {
      assert AfterFirstLine(bs) == bs[k + 1..];
      assert GetLines(bs) == [Chars(bs[..k])] + GetLines(bs[k + 1..]);
    }
  }

  /** The file is read as ASCII when its first line contains "solid". */
  predicate IsAscii(bs: seq<Byte>)
  {
    Contains(FirstLine(bs), SolidKw)
  }

  /** What loadStl appends to the store and what it reports. */
  datatype LoadOutcome = LoadOutcome(emitted: seq<Facet>, status: Status)

  /** loadStl on a file that may or may not open. Each error comes from one
      path only: an unterminated solid or a number std::stof rejects from
      the ASCII loop, an empty count or a short file from the binary loop. */
  function LoadStlSpec(file: Option<seq<Byte>>, stof: Stof): LoadOutcome
  {
    match file
    case None => LoadOutcome([], Failure(CannotOpen))
    case Some(bs) =>
      if IsAscii(bs) then
        var a := AsciiRun(GetLines(AfterFirstLine(bs)), stof);
        LoadOutcome(a.emitted, a.status)
      else
        var b := BinaryLoad(bs);
        LoadOutcome(b.emitted, b.status)
  }

  /** Each outcome of loadStl comes from one path only: a file that does not
      open stores nothing; an unterminated solid or a number std::stof
      rejects comes from the ASCII loop; an empty count or a short file from
      the binary loop, and an empty count stores nothing. */
  lemma LoadStlErrors(file: Option<seq<Byte>>, stof: Stof)
    ensures var r := LoadStlSpec(file, stof);
      && (r.status == Failure(CannotOpen) <==> file.None?)
      && (file.None? ==> r.emitted == [])
      && (r.status == Failure(UnterminatedSolid) || r.status == Failure(NumericParseError) ==>
            file.Some? && IsAscii(file.value))
      && (r.status == Failure(EmptyMesh) || r.status == Failure(Truncated) ==>
            file.Some? && !IsAscii(file.value))
      && (r.status == Failure(EmptyMesh) ==> r.emitted == [])
  {
  }

  // ---- sniffing ----

  /** The ASCII loop starts on the line after the first: whatever the first
      line holds besides "solid" (a `facet normal`, an `endsolid`) is never
      looked at. */
  lemma FirstLineIgnored(a1: seq<Byte>, a2: seq<Byte>, rest: seq<Byte>, stof: Stof)
    requires Newline !in a1 && Newline !in a2
    requires Contains(Chars(a1), SolidKw) && Contains(Chars(a2), SolidKw)
    ensures LoadStlSpec(Some(a1 + [Newline] + rest), stof) == LoadStlSpec(Some(a2 + [Newline] + rest), stof)
    ensures LoadStlSpec(Some(a1 + [Newline] + rest), stof).status == AsciiRun(GetLines(rest), stof).status
  {
    GetLinesAtNewline(a1, rest);
    GetLinesAtNewline(a2, rest);
  }

  /** An ASCII file: a first line containing "solid", well-formed facet
      blocks, then a line that ends the solid; it loads with success and
      stores one facet per block, in order, whatever follows. */
  lemma AsciiFileLoads(a: seq<Byte>, rest: seq<Byte>, bs: seq<FacetText>, e: string, tail: seq<string>, stof: Stof)
    requires Newline !in a && Contains(Chars(a), SolidKw)
    requires GetLines(rest) == AllLines(bs) + [e] + tail
    requires forall i :: 0 <= i < |bs| ==> WellFormed(bs[i], stof)
    requires Classify(e, stof) == EndsolidInfo
    ensures LoadStlSpec(Some(a + [Newline] + rest), stof).status == Success
    ensures |LoadStlSpec(Some(a + [Newline] + rest), stof).emitted| == |bs|
    ensures forall i :: 0 <= i < |bs| ==> LoadStlSpec(Some(a + [Newline] + rest), stof).emitted[i] == BlockFacet(bs[i], stof)
  {
    AsciiFileRuns(a, rest, stof);
    WellFormedBlocksLoad(bs, e, tail, stof);
  }

  /** A file whose first line contains "solid" loads as the ASCII loop over
      the lines after it. */
  lemma AsciiFileRuns(a: seq<Byte>, rest: seq<Byte>, stof: Stof)
    requires Newline !in a && Contains(Chars(a), SolidKw)
    ensures var r := AsciiRun(GetLines(rest), stof);
      LoadStlSpec(Some(a + [Newline] + rest), stof) == LoadOutcome(r.emitted, r.status)
  {
    GetLinesAtNewline(a, rest);
  }

  /** A file that starts with a header holding a newline, with no "solid"
      before that newline, is sniffed as binary, whatever follows. */
  lemma HeaderSniffedBinary(header: seq<Byte>, bs: seq<Byte>)
    requires |header| <= |bs| && bs[..|header|] == header
    requires Newline in header && !Contains(Chars(header[..NewlineIndex(header)]), SolidKw)
    ensures !IsAscii(bs)
  {
    var k := NewlineIndex(header);
    assert header[k] in header[..k + 1];
    assert bs[..k] == header[..k] && bs[k] == Newline;
    NewlineIndexOfPrefix(bs, header[..k]);
  }

  /** A binary file whose header has a newline with no "solid" before it
      is read as binary, and loading it stores its facets back. */
  lemma BinaryFileLoads(header: seq<Byte>, fs: seq<Facet>, stof: Stof)
    requires |header| == HeaderSize && 0 < |fs| < 0x1_0000_0000
    requires Newline in header && !Contains(Chars(header[..NewlineIndex(header)]), SolidKw)
    ensures LoadStlSpec(Some(EncodeStl(header, fs)), stof) == LoadOutcome(fs, Success)
  {
    EncodedFileIsBinary(header, fs);
    SniffedBinaryLoads(header, fs, stof);
  }

  /** Whatever the header holds, an encoded file whose first line does not
      contain "solid" is read as binary and stores its facets back. */
  lemma SniffedBinaryLoads(header: seq<Byte>, fs: seq<Facet>, stof: Stof)
    requires |header| == HeaderSize && 0 < |fs| < 0x1_0000_0000
    requires !IsAscii(EncodeStl(header, fs))
    ensures LoadStlSpec(Some(EncodeStl(header, fs)), stof) == LoadOutcome(fs, Success)
  {
    EncodeStlLoads(header, fs);
  }

  lemma EncodedFileIsBinary(header: seq<Byte>, fs: seq<Facet>)
    requires |header| == HeaderSize && |fs| < 0x1_0000_0000
    requires Newline in header && !Contains(Chars(header[..NewlineIndex(header)]), SolidKw)
    ensures !IsAscii(EncodeStl(header, fs))
  {
    var bs := EncodeStl(header, fs);
    assert bs[..HeaderSize] == header;
    HeaderSniffedBinary(header, bs);
  }
}
