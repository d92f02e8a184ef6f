# libcutsim FileIO: STL and mesh ingestion

libcutsim's `FileIO` object collects triangles (facets: a normal and three
vertices) from three places and keeps them in an append-only store:

- `loadStl` opens an STL file and reads its first line. If that line contains
  `solid`, the rest is read as ASCII STL, line by line. Four substring tests
  (`facet normal`, `vertex`, `endfacet`, `endsolid`) drive a small state
  machine. `parseStlLine` turns a line into three coordinates via
  `replace_all`, `trim`, `split` and `std::stof`. Otherwise the file is read
  as binary STL: an 80-byte header, a triangle count, then 50-byte records
  read by `parseStlData`.
- `loadMesh` takes a list of entries. Each entry of length 4 becomes a
  facet; every other entry is skipped.
- `getFacets` returns the store.

The Dafny project models this as follows:

- `types.dfy`: the value types.
- `text.dfy`: the string and line primitives: boost's `contains`,
  `replace_all`, `trim` and `split(is_space())`, and `std::getline` over the
  file's bytes.
- `ascii_stl.dfy`: the tokenizer and the ASCII state machine, as functions
  over the lines.
- `binary_stl.dfy`: the binary reader, with an encoder as its inverse.
- `stl_load.dfy`: the format sniffing and `loadStl` as a whole.
- `mesh_load.dfy`: `loadMesh` as a function.
- `file_io.dfy`: the `FileIO` class. Its methods run the loops of the source
  on a `facets` field. Each method is proved to append exactly what the
  matching function says and to return its status.

The model's choices:

- A float is kept as its 32-bit pattern.
- `std::stof` is a parameter of type `string -> Option<Float32>`, where
  `None` means it throws.
- The file is an `Option` of its bytes, where `None` means it does not open.
- `true` is `Success`. Each `false` return gets its own `LoadError`.
- An exception out of `std::stof` is `Failure(NumericParseError)`. Facets
  already pushed stay stored.

## Model

| member | source | states |
|---|---|---|
| Cutsim.FileIO.constructor | src/fileio.cpp:31-33 | A new FileIO holds no facets. |
| Cutsim.FileIO.GetFacets | src/fileio.cpp:39-43 | Returns the store as it stands, oldest facet first, and changes nothing. |
| Cutsim.FileIO.LoadStl | src/fileio.cpp:45-185 | Appends to the store exactly the facets of `StlLoad.LoadStlSpec` and returns its outcome. Earlier facets are untouched. The first line picks the ASCII or binary branch. The binary branch uses the corrected 32-bit count from "## Findings"; `BinaryStl.SourceBinaryLoad` is that branch as written. |
| Cutsim.FileIO.LoadAscii | src/fileio.cpp:68-128 | The `while (getline ...)` loop over the lines after the first appends exactly the facets of the line machine, in order. It returns success at the first `endsolid` line, `UnterminatedSolid` when the lines run out, and `NumericParseError` when `std::stof` throws. |
| Cutsim.FileIO.ReadLine | src/fileio.cpp:89-123 | One iteration of the loop body, with its four tests in source order. Its result is the step of the line. It pushes the facet of an `endfacet` line exactly when three vertices are pending. |
| Cutsim.FileIO.LoadBinary | src/fileio.cpp:136-184 | The binary branch appends exactly the records the record loop reads, in file order, and returns its outcome. The count is read as the 32-bit little-endian word (corrected; see Findings). |
| Cutsim.FileIO.LoadMesh | src/fileio.cpp:223-265 | Refuses an empty list and stores nothing. Otherwise it copies each entry of length 4 through the four-slot buffer, appends its facet in input order, and succeeds. |
| Cutsim.StepIs | src/fileio.cpp:89-123 | The body's statements, as written, compute the step function of the line. |
| Cutsim.Advance | src/fileio.cpp:77-127 | One loop turn. A throwing `std::stof` ends the load with nothing more stored. An `endsolid` line stores its facet, if any, and succeeds. Any other line stores its facet, if any, and the loop goes on from the next line. |
| Cutsim.ReadRecordStep | src/fileio.cpp:167-178 | One record turn. A record whose data is not all in the file ends the load, reporting truncation. A whole record stores the facet read at its offset, and the loop goes on. |
| AsciiStl.Pieces | src/fileio.cpp:207-210 | The pieces `parseStlLine` looks at: the line with every occurrence of the keyword removed, trimmed, then split at each whitespace character. |
| AsciiStl.ParseStlLine | src/fileio.cpp:202-221 | A line that does not split into exactly three pieces gives the default vertex (0,0,0). With three pieces the result is absent (`std::stof` throws) exactly when one of them does not parse. |
| AsciiStl.FieldOf | src/fileio.cpp:90-99 | A keyword test fires exactly when the line contains the keyword. It throws exactly when it fires and `parseStlLine` throws. Otherwise it yields the parsed vertex. |
| AsciiStl.Classify | src/fileio.cpp:89-121 | What one loop iteration learns from a line: its `facet normal` and `vertex` tests, each absent, throwing or read (see `AsciiStl.FieldOf`), and whether the line contains `endfacet` and `endsolid`. |
| AsciiStl.FormattedLinePieces | src/fileio.cpp:207-210 | Removing the keyword, trimming and splitting a line `w kw a b c u` yields exactly the tokens `[a, b, c]`. |
| AsciiStl.FormattedLineParses | src/fileio.cpp:202-221 | A well-formed line parses to the `std::stof` values of its three tokens. |
| AsciiStl.VertexLineParses | src/fileio.cpp:96-99 | A `vertex` line whose tokens do not spell `vertex` parses to its three coordinates. |
| AsciiStl.NormalLineParses | src/fileio.cpp:90-93 | A `facet normal` line whose tokens do not spell `normal` parses to its three coordinates. |
| AsciiStl.DoubleSpaceGivesOrigin | src/fileio.cpp:207-219 | `split` does not compress runs of whitespace. A double space between tokens makes four pieces, so the line silently yields (0,0,0). |
| AsciiStl.Step | src/fileio.cpp:89-123 | One iteration aborts exactly when one of its two parses throws. |
| AsciiStl.StepEffect | src/fileio.cpp:89-123 | Describes one iteration that does not throw: see the list below the table. |
| AsciiStl.Run | src/fileio.cpp:77-127 | The loop reads no more lines than there are. It fails as unterminated only after reading every line, and succeeds only after reading at least one. It never stores more facets than `endfacet` lines it counted. |
| AsciiStl.AsciiRun | src/fileio.cpp:70-127 | The loop over a file's lines from the initial state: normal (0,0,0), no pending vertex, all counters zero. Its properties are those of `AsciiStl.Run`. |
| AsciiStl.SuccessStopsAtFirstEndsolid | src/fileio.cpp:118-123 | A successful load stops at the first line containing `endsolid`, and no earlier line contains it. |
| AsciiStl.EndsolidStopsReading | src/fileio.cpp:118-123 | Lines after the first `endsolid` line never change the outcome. |
| AsciiStl.NormalPersists | src/fileio.cpp:70-108 | With no `facet normal` line at all, every stored facet has the default normal (0,0,0). |
| AsciiStl.RunAppend | src/fileio.cpp:70-127 | Lines read through without `endsolid` or an exception, followed by more lines: the loop continues from the state the first lines left, and stores the first lines' facets followed by those of the rest. |
| AsciiStl.NormalPersistsAfter | src/fileio.cpp:89-116 | The normal `n` is never reset between facets: after a `facet normal` line reading `v`, every facet stored until the next such line has normal `v`, and the facets stored before it are unchanged. |
| AsciiStl.CountersCountLines | src/fileio.cpp:72-115 | Unless `std::stof` threw, `vertexTotal` counts the `vertex` lines read and `facetTotal` counts the `endfacet` lines read. |
| AsciiStl.TrackerStaysInSync | src/fileio.cpp:72-114 | `vertexTracker` always equals the number of pending vertices. |
| AsciiStl.NormalLineInfo | src/fileio.cpp:89-121 | An indented `facet normal` line with three numbers fires only the `facet normal` test, and that test reads the three numbers. |
| AsciiStl.VertexLineInfo | src/fileio.cpp:89-121 | An indented `vertex` line with three numbers fires only the `vertex` test, and that test reads the three numbers. |
| AsciiStl.OuterLoopInfo | src/fileio.cpp:89-121 | An indented `outer loop` line fires none of the four tests. |
| AsciiStl.EndloopInfo | src/fileio.cpp:89-121 | An indented `endloop` line fires none of the four tests. |
| AsciiStl.EndfacetInfo | src/fileio.cpp:89-121 | An indented `endfacet` line fires only the `endfacet` test. |
| AsciiStl.EndsolidLineInfo | src/fileio.cpp:89-121 | An indented `endsolid` line followed by a solid name without `f` or `v` fires only the `endsolid` test. |
| AsciiStl.FormattedBlockWellFormed | src/fileio.cpp:79-121 | A facet block laid out as in the source's "typical facet definition" is well-formed, and it describes the facet of its twelve numbers. This holds for any indentation, with single spaces before the coordinates and numbers written with digits, signs, `.` and `e` that `std::stof` reads. |
| AsciiStl.WellFormedBlocksLoad | src/fileio.cpp:77-123 | Well-formed seven-line facet blocks followed by an `endsolid` line load with success. They store exactly one facet per block, in file order, whatever follows. |
| AsciiStl.OneBlockLoads | src/fileio.cpp:77-123 | A single well-formed block before a line that only ends the solid loads with success and stores exactly its facet. |
| AsciiStl.FormattedFacetLoads | src/fileio.cpp:77-123 | The source's one-facet example end to end: a block laid out as in its comment, then `endsolid <name>`, loads with success and stores exactly the facet of the block's twelve numbers, whatever follows. |
| Text.Contains | src/fileio.cpp:62 | boost's `contains`: a left-to-right scan for the keyword (characterised by `Text.ContainsIffOccurs`). |
| Text.ContainsIffOccurs | src/fileio.cpp:62 | boost's `contains` scan holds exactly when the keyword occurs at some index. |
| Text.ReplaceAll | src/fileio.cpp:207 | boost's `replace_all(line, kw, "")`: scanning left to right, every occurrence is removed and removed text is not rescanned. |
| Text.ReplaceAllAbsent | src/fileio.cpp:207 | `replace_all` leaves a line without the keyword unchanged. |
| Text.ReplaceAllAroundSpace | src/fileio.cpp:207 | A keyword free of whitespace is removed on each side of a whitespace character independently. |
| Text.Trim | src/fileio.cpp:208 | boost's `trim`: whitespace removed from both ends (characterised by the three trimming lemmas below). |
| Text.TrimLeftSplits | src/fileio.cpp:208 | Left trimming removes a whitespace prefix and nothing else. The result starts with non-whitespace or is empty. |
| Text.TrimRightSplits | src/fileio.cpp:208 | Right trimming removes a whitespace suffix and nothing else. The result ends with non-whitespace or is empty. |
| Text.TrimPadding | src/fileio.cpp:208 | Trimming whitespace padding gives back the padded text. |
| Text.Split | src/fileio.cpp:210 | boost's `split` on `is_space`, without compressing runs: a piece ends at each whitespace character, so it always yields at least one piece. |
| Text.SplitPieces | src/fileio.cpp:210 | `split` on `is_space` yields pieces without whitespace, one more than there are whitespace characters. |
| Text.SplitAroundSpace | src/fileio.cpp:210 | Splitting at a whitespace character splits the two sides independently. |
| Text.FirstSpace | src/fileio.cpp:210 | Gives the first whitespace index (or the length): no whitespace comes before it. |
| Text.NewlineIndex | src/fileio.cpp:59 | Gives the first newline index (or the length): no newline comes before it. |
| Text.GetLines | src/fileio.cpp:59-77 | The lines successive `getline` calls return: a non-empty file has at least one line, and a final newline does not start an empty line. |
| Text.LinesHaveNoNewline | src/fileio.cpp:77 | No line that `getline` returns holds a newline. |
| Text.GetLinesAtNewline | src/fileio.cpp:59-77 | `getline` splits the file at its first newline. The first line is what precedes it. The later lines are the lines of what follows. |
| StlLoad.IsAscii | src/fileio.cpp:59-66 | The sniffing test: the file is read as ASCII exactly when its first line contains `solid`. |
| StlLoad.LoadStlSpec | src/fileio.cpp:45-185 | `loadStl` as a function of the file's contents: a file that does not open fails; otherwise the first line picks the ASCII loop over the lines after it or the binary reader (with the corrected count of "## Findings"). |
| StlLoad.LinesAfterFirstLine | src/fileio.cpp:59-77 | The lines of a non-empty file are its first line followed by the lines the loop reads. |
| StlLoad.LoadStlErrors | src/fileio.cpp:45-185 | See the list below the table. |
| StlLoad.FirstLineIgnored | src/fileio.cpp:57-77 | On the ASCII path the first line is only sniffed: its other contents never affect the load. |
| StlLoad.AsciiFileLoads | src/fileio.cpp:57-128 | A file whose first line contains `solid`, followed by well-formed blocks and an `endsolid` line, loads with success and stores one facet per block, in order. |
| StlLoad.HeaderSniffedBinary | src/fileio.cpp:59-66 | A file whose header holds a newline with no `solid` before it is read as binary, whatever follows. |
| StlLoad.BinaryFileLoads | src/fileio.cpp:57-184 | Round trip through `loadStl` with its binary branch's corrected loader (the 32-bit count of "## Findings"): a binary file written from facets `fs` loads with success and stores exactly `fs`. This holds for any header that holds a newline with no `solid` before it. |
| StlLoad.SniffedBinaryLoads | src/fileio.cpp:57-184 | The exact condition: whatever the header holds, an encoded file whose first line does not contain `solid` loads its facets back with success through the corrected loader. |
| BinaryStl.Word | src/fileio.cpp:193-197 | One `reinterpret_cast` read: the 32-bit pattern of the four bytes at the cursor, little-endian. |
| BinaryStl.ParseStlData | src/fileio.cpp:187-200 | `parseStlData`: three such reads, x then y then z, and the cursor moves 12 bytes on. |
| BinaryStl.WordRoundTrip | src/fileio.cpp:193-197 | Reading a 32-bit word back from its four little-endian bytes gives the word. |
| BinaryStl.WordEncodes | src/fileio.cpp:193-197 | The other half of the round trip: the four bytes a word is read from are the bytes it is written as. |
| BinaryStl.VertexInside | src/fileio.cpp:187-200 | An encoded vertex, wherever it sits in the file, reads back as that vertex. |
| BinaryStl.ReadFacet | src/fileio.cpp:169-172 | The facet read from a record's 48 data bytes: normal, v1, v2, v3, one `parseStlData` each. |
| BinaryStl.FacetInside | src/fileio.cpp:169-172 | An encoded record, wherever it sits, reads back as its facet: normal, then v1, v2, v3. |
| BinaryStl.TriangleCount | src/fileio.cpp:147-157 | The corrected count: the 32-bit little-endian unsigned integer at bytes 80-83 (see "## Findings"). |
| BinaryStl.Records | src/fileio.cpp:167-178 | The record loop either stores one facet per record and succeeds, or reports truncation with fewer stored, stopping at a record not wholly in the file. |
| BinaryStl.BinaryLoad | src/fileio.cpp:136-184 | A zero count fails and stores nothing. Success means the file was long enough and exactly `count` facets were stored. |
| BinaryStl.RecordsLayout | src/fileio.cpp:167-178 | Stored facet `k` is record `k`, read at byte 84 + 50k, and that record was whole. |
| BinaryStl.BinaryLoadLayout | src/fileio.cpp:157-178 | A load with a non-zero count succeeds exactly when the last record is whole. It stores the records in file order. |
| BinaryStl.EncodedCount | src/fileio.cpp:146-157 | The count field of an encoded file is its number of facets. |
| BinaryStl.RecordsOfEncoded | src/fileio.cpp:167-178 | Over an encoded file, the record loop with any count stores the first `count` facets. If the file holds fewer, it stores all of them and reports truncation. |
| BinaryStl.EncodeStlLoads | src/fileio.cpp:136-184 | Round trip: decoding an encoded non-empty facet list gives it back, with success. |
| BinaryStl.HeaderAndAttributesIgnored | src/fileio.cpp:146-177 | The header and the 2-byte attributes never affect the load, for files of the same length: files that agree on the count and on every record's 48 data bytes load the same. |
| BinaryStl.SourceTriangleCount | src/fileio.cpp:157 | The count as written: the first count byte as a signed `char`, converted to `unsigned int`, so a byte of 128 or more becomes 2^32 - 256 + byte. |
| BinaryStl.SourceBinaryLoad | src/fileio.cpp:157-178 | The binary branch as written: the record loop runs for `BinaryStl.SourceTriangleCount`. |
| BinaryStl.SourceLoadAgreesBelow128 | src/fileio.cpp:157-178 | Below 128 triangles, and on files too short for a count, the branch as written loads exactly what the corrected reader loads. |
| BinaryStl.SourceCountAgreesBelow128 | src/fileio.cpp:157 | For counts below 128 the source's first-byte read equals the 32-bit count. |
| BinaryStl.SourceCountDropsHighBytes | src/fileio.cpp:157 | A declared count of 300 is read by the source as 44. |
| BinaryStl.SourceCountSignExtends | src/fileio.cpp:157 | A declared count of 128 is read by the source as 4294967168. |
| BinaryStl.SourceLoadDrops256 | src/fileio.cpp:157-178 | For a well-formed file of 300 facets, the source as written stores only the first 44 and reports success. The corrected reader stores all 300. |
| BinaryStl.SourceLoadOverruns128 | src/fileio.cpp:157-178 | For a well-formed file of 128 facets, the source as written runs past the end of the file. The corrected reader stores all 128. |
| MeshLoad.MeshFacets | src/fileio.cpp:240-260 | The facets the loop appends: one per entry of length 4, in input order, so never more facets than entries. |
| MeshLoad.ToFacet | src/fileio.cpp:257 | The facet of a 4-vertex entry is its vertices in order, normal first. |
| MeshLoad.LoadMeshSpec | src/fileio.cpp:229-264 | An empty list is refused and stores nothing. Any other list succeeds and stores the facets of its length-4 entries. |
| MeshLoad.MeshFacetsAppend | src/fileio.cpp:240-260 | The facets of two lists, one after the other, are the facets of each. |
| MeshLoad.SkippedEntry | src/fileio.cpp:242 | An entry whose length is not 4 adds nothing, wherever it stands. |
| MeshLoad.AllQuadsLoad | src/fileio.cpp:240-259 | When every entry has length 4, stored facet `k` is built from entry `k`. |
| MeshLoad.FacetsComeFromQuads | src/fileio.cpp:240-259 | Every stored facet comes from a length-4 entry, and every length-4 entry gives a stored facet. |
| MeshLoad.FacetCountIsQuadCount | src/fileio.cpp:240-259 | The number of stored facets is the number of length-4 entries. |

`AsciiStl.StepEffect` states, for one iteration where `std::stof` does not throw:

- Only an `endsolid` line stops the loop.
- Only a `facet normal` line replaces the normal.
- A `vertex` line appends to the pending vertices and counts.
- An `endfacet` line stores a facet exactly when three vertices are pending, then clears them and counts.
- `vertexTracker` stays equal to the number of pending vertices.

`StlLoad.LoadStlErrors` states where each outcome of `loadStl` comes from:

- A file that does not open stores nothing.
- `UnterminatedSolid` and `NumericParseError` come only from the ASCII path.
- `EmptyMesh` and `Truncated` come only from the binary path.
- `EmptyMesh` stores nothing.

## Left out

- Console output (`std::cout`), the destructor, and converting the Python path string to a file name. The file's contents are a parameter: `None` when it does not open.
- The second open of the file in binary mode (src/fileio.cpp:138-144): the model takes it to give the same bytes as the first.
- `std::stof` itself, including its acceptance of numeric prefixes and its `out_of_range` exception. It is the parameter `stof`. Coordinates are opaque 32-bit patterns, and no floating-point arithmetic is modelled.
- A C++ exception out of `parseStlLine` propagates out of `loadStl`. The model reports it as `Failure(NumericParseError)` and keeps the facets already pushed.
- BinaryStl.Records: the source reads past the end of a short file and goes on pushing facets of indeterminate values, then returns true. The model stops at the first record whose 48 data bytes are not all present and reports `Truncated`. A final record missing only its 2-byte attribute still succeeds, as in the source.
- BinaryStl.BinaryLoad: a file shorter than the 84 bytes of header and count leaves the source's count buffer partly indeterminate. The model reports `Truncated` and stores nothing.
- Cutsim.FileIO.LoadStl: its binary branch reads the count as the 32-bit little-endian word (the corrected behaviour of "## Findings"), not the first byte as a signed `char`, so a 300-facet file stores 300 facets where the source stores 44. `BinaryStl.SourceBinaryLoad` models the branch as written. Short binary files report `Truncated` here too, as under `BinaryStl.Records` and `BinaryStl.BinaryLoad`.
- Cutsim.FileIO.LoadBinary: follows `BinaryLoad` on short files, so the two deviations above apply to it.
- BinaryStl.SourceTriangleCount: takes `char` to be signed, as on x86 and most ARM Linux ABIs. Where `char` is unsigned, a count byte of 128 reads as 128 and `BinaryStl.SourceCountSignExtends` does not apply.
- BinaryStl.Word: takes the host to be little-endian, as the binary STL format's byte order is. `reinterpret_cast` reads the bytes in host order, so on a big-endian host the source reads each float byte-swapped.
- The header string is built only to be printed (src/fileio.cpp:151-154), so it is not modelled.
- MeshLoad.LoadMeshSpec: entries arrive already converted to vertices. `boost::python::extract<float>` is not modelled: no conversion from Python numbers, no exception on malformed items, and no check that each item has three coordinates.
- Facets are stored as values, not as `new Facet` heap objects. The store is never shared, so aliasing does not arise.
- `getline` reads the file in text mode on a POSIX system: only `\n` ends a line. A `\r` stays in the line, where `trim` removes it before splitting.

## Findings

| source | as written | input that shows it | evidently intended | confidence | as-written member | corrected member |
|---|---|---|---|---|---|---|
| src/fileio.cpp:157 | `static_cast<unsigned int>(*triangleData)` converts only the first count byte, as a signed `char`. | A well-formed binary file of 300 facets (count bytes 2C 01 00 00): only the first 44 facets are stored and `true` is returned. With 128 facets (80 00 00 00) the count becomes 4294967168 and the loop reads far past the end. | The count is the 32-bit little-endian unsigned integer at bytes 80-83, as the binary STL format defines it. | high; not executed | BinaryStl.SourceLoadDrops256 | BinaryStl.EncodeStlLoads |
