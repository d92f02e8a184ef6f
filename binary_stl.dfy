/** The binary STL reader of loadStl: an 80-byte header, a triangle count,
    then one 50-byte record per triangle (normal, three vertices, each three
    little-endian 32-bit floats, and a 2-byte attribute that is skipped). */
module BinaryStl {
  import opened StlTypes

  const HeaderSize: nat := 80
  /** Where the records start: after the header and the 4-byte count. */
  const RecordsStart: nat := 84
  const RecordSize: nat := 50
  /** The part of a record that is read: four 12-byte vertices. */
  const RecordData: nat := 48

  /** The four bytes at `pos`, little-endian. */
  function Word(bs: seq<Byte>, pos: nat): Word32
    requires pos + 4 <= |bs|
  {
    var b0: int, b1: int, b2: int, b3: int := bs[pos], bs[pos + 1], bs[pos + 2], bs[pos + 3];
    b0 + 256 * b1 + 65536 * b2 + 16777216 * b3
  }

  /** parseStlData: three floats read off the stream at the cursor, which
      moves 12 bytes on. */
  function ParseStlData(bs: seq<Byte>, pos: nat): (r: (Vertex, nat))
    requires pos + 12 <= |bs|
    ensures r.1 == pos + 12
  {
    (Vertex(Word(bs, pos), Word(bs, pos + 4), Word(bs, pos + 8)), pos + 12)
  }

  /** Where record `i` starts. */
  function RecordAt(i: nat): nat
  {
    RecordsStart + RecordSize * i
  }

  /** Record `i` can be read: its 48 data bytes are all in the file. */
  predicate Readable(bs: seq<Byte>, i: nat)
  {
    RecordAt(i) + RecordData <= |bs|
  }

  /** The facet read from the 48 bytes at `pos`: normal, v1, v2, v3. */
  function ReadFacet(bs: seq<Byte>, pos: nat): Facet
    requires pos + RecordData <= |bs|
  {
    var (normal, p1) := ParseStlData(bs, pos);
    var (v1, p2) := ParseStlData(bs, p1);
    var (v2, p3) := ParseStlData(bs, p2);
    var (v3, _) := ParseStlData(bs, p3);
    Facet(normal, v1, v2, v3)
  }

  /** The triangle count as the binary STL format defines it: the 32-bit
      little-endian unsigned integer after the header. */
  function TriangleCount(bs: seq<Byte>): Word32
    requires RecordsStart <= |bs|
  {
    Word(bs, HeaderSize)
  }

  /** The count as loadStl computes it: `*triangleData` is the first count
      byte as a (signed) char, converted to a 32-bit unsigned int, so a byte
      of 128 or more wraps to 2^32 - 256 + byte. */
  function SourceTriangleCount(bs: seq<Byte>): nat
    requires RecordsStart <= |bs|
  {
    var b: int := bs[HeaderSize];
    if b < 128 then b else b + 0x1_0000_0000 - 256
  }

  /** The facets the record loop stores and what loadStl then reports. */
  datatype BinaryOutcome = BinaryOutcome(emitted: seq<Facet>, status: Status)

  /** The record loop from record `i` up to `count`, stopping at the first
      record whose data is not all in the file. */
  function Records(bs: seq<Byte>, i: nat, count: nat): (r: BinaryOutcome)
    requires i <= count
    ensures r.status == Success || r.status == Failure(Truncated)
    ensures |r.emitted| <= count - i
    ensures r.status == Success <==> |r.emitted| == count - i
    ensures r.status == Failure(Truncated) ==> !Readable(bs, i + |r.emitted|)
    decreases count - i
  {
    if i == count then BinaryOutcome([], Success)
    else if !Readable(bs, i) then BinaryOutcome([], Failure(Truncated))
    else
      var rest := Records(bs, i + 1, count);
      BinaryOutcome([ReadFacet(bs, RecordAt(i))] + rest.emitted, rest.status)
  }

  /** The binary branch of loadStl, with the count read as the format defines it. */
  function BinaryLoad(bs: seq<Byte>): (r: BinaryOutcome)
    ensures r.status == Success || r.status == Failure(EmptyMesh) || r.status == Failure(Truncated)
    ensures r.status == Failure(EmptyMesh) <==> |bs| >= RecordsStart && TriangleCount(bs) == 0
    ensures r.status == Success ==> |bs| >= RecordsStart && |r.emitted| == TriangleCount(bs) > 0
    ensures |bs| < RecordsStart || TriangleCount(bs) == 0 ==> r.emitted == []
  {
    if |bs| < RecordsStart then BinaryOutcome([], Failure(Truncated))
    else if TriangleCount(bs) == 0 then BinaryOutcome([], Failure(EmptyMesh))
    else Records(bs, 0, TriangleCount(bs))
  }

  // ---- layout ----

  /** Stored facet j - i is record j, read in file order, and that record
      was readable. */
  lemma {:induction false} RecordsLayout(bs: seq<Byte>, i: nat, count: nat, j: nat)
    requires i <= j && i <= count && j - i < |Records(bs, i, count).emitted|
    ensures Readable(bs, j)
    ensures Records(bs, i, count).emitted[j - i] == ReadFacet(bs, RecordAt(j))
    decreases j - i
  {
    var r := Records(bs, i, count);
    assert i < count;
    assert Readable(bs, i);
    var rest := Records(bs, i + 1, count);
    assert r.emitted == [ReadFacet(bs, RecordAt(i))] + rest.emitted;
    if j > i {
      assert r.emitted[j - i] == rest.emitted[j - (i + 1)];
      RecordsLayout(bs, i + 1, count, j);
    }
  }

  /** A binary load stores nothing and fails on a zero count; otherwise it
      stores the records in order, all `count` of them exactly when the file
      holds the data of every record. */
  lemma BinaryLoadLayout(bs: seq<Byte>)
    requires |bs| >= RecordsStart
    ensures TriangleCount(bs) == 0 ==> BinaryLoad(bs) == BinaryOutcome([], Failure(EmptyMesh))
    ensures TriangleCount(bs) > 0 ==>
              var r := BinaryLoad(bs);
              (r.status == Success <==> Readable(bs, TriangleCount(bs) - 1)) &&
              (r.status == Success ==> |r.emitted| == TriangleCount(bs)) &&
              forall k :: 0 <= k < |r.emitted| ==> Readable(bs, k) && r.emitted[k] == ReadFacet(bs, RecordAt(k))
  {
    var n := TriangleCount(bs);
    if n > 0 {
      var r := Records(bs, 0, n);
      assert BinaryLoad(bs) == r;
      forall k | 0 <= k < |r.emitted|
        ensures Readable(bs, k) && r.emitted[k] == ReadFacet(bs, RecordAt(k))
      {
        RecordsLayout(bs, 0, n, k);
      }
      if r.status == Success {
        RecordsLayout(bs, 0, n, n - 1);
      } else {
        assert !Readable(bs, |r.emitted|);
        ReadableDownward(bs, |r.emitted|, n - 1);
      }
    }
  }

  lemma ReadableDownward(bs: seq<Byte>, i: nat, j: nat)
    requires i <= j && !Readable(bs, i)
    ensures !Readable(bs, j)
  {
  }

  // ---- the count field ----

  /** For every count below 128 the source's first-byte read is right. */
  lemma SourceCountAgreesBelow128(bs: seq<Byte>)
    requires |bs| >= RecordsStart && TriangleCount(bs) < 128
    ensures SourceTriangleCount(bs) == TriangleCount(bs)
  {
  }

  /** A file declaring 300 triangles (bytes 2C 01 00 00) is read as 44. */
  lemma SourceCountDropsHighBytes(bs: seq<Byte>)
    requires |bs| >= RecordsStart && TriangleCount(bs) == 300
    ensures SourceTriangleCount(bs) == 44
  {
  }

  /** A file declaring 128 triangles (bytes 80 00 00 00) is read as 4294967168. */
  lemma SourceCountSignExtends(bs: seq<Byte>)
    requires |bs| >= RecordsStart && TriangleCount(bs) == 128
    ensures SourceTriangleCount(bs) == 4294967168
  {
  }

  // ---- encoding, the inverse of the reader ----

  /** The `n` low bytes of `w`, least significant first. */
  function LeBytes(w: nat, n: nat): (bs: seq<Byte>)
    ensures |bs| == n
    decreases n
  {
    if n == 0 then [] else [w % 256] + LeBytes(w / 256, n - 1)
  }

  /** A 32-bit word as four little-endian bytes. */
  function EncodeWord(w: Word32): (bs: seq<Byte>)
    ensures |bs| == 4
  {
    LeBytes(w, 4)
  }

  lemma WordRoundTrip(w: Word32)
    ensures Word(EncodeWord(w), 0) == w
  {
    var q1 := w / 256;
    var q2 := q1 / 256;
    var q3 := q2 / 256;
    assert LeBytes(q3, 1) == [q3 % 256];
    assert LeBytes(q2, 2) == [q2 % 256] + LeBytes(q3, 1);
    assert LeBytes(q1, 3) == [q1 % 256] + LeBytes(q2, 2);
    var b := EncodeWord(w);
    assert b == [w % 256] + LeBytes(q1, 3);
    assert w == w % 256 + 256 * q1;
    assert q1 == q1 % 256 + 256 * q2;
    assert q2 == q2 % 256 + 256 * q3;
    assert q3 < 256;
  }

  function EncodeVertex(v: Vertex): (bs: seq<Byte>)
    ensures |bs| == 12
  {
    EncodeWord(v.x) + EncodeWord(v.y) + EncodeWord(v.z)
  }

  /** A byte and a quotient: the byte is the remainder by 256. */
  lemma ByteDigit(b: int, q: nat)
    requires 0 <= b < 256
    ensures (b + 256 * q) % 256 == b && (b + 256 * q) / 256 == q
  {
  }

  /** The other half of the round trip: the four bytes a word is read from
      are the bytes it is written as. */
  lemma WordEncodes(bs: seq<Byte>, pos: nat)
    requires pos + 4 <= |bs|
    ensures EncodeWord(Word(bs, pos)) == bs[pos..pos + 4]
  {
    var b0: int, b1: int, b2: int, b3: int := bs[pos], bs[pos + 1], bs[pos + 2], bs[pos + 3];
    var q2 := b2 + 256 * b3;
    var q1 := b1 + 256 * q2;
    var w := b0 + 256 * q1;
    assert Word(bs, pos) == w;
    ByteDigit(b0, q1);
    ByteDigit(b1, q2);
    ByteDigit(b2, b3);
    ByteDigit(b3, 0);
    assert LeBytes(b3, 1) == [b3 as Byte];
    assert LeBytes(q2, 2) == [b2 as Byte] + LeBytes(b3, 1);
    assert LeBytes(q1, 3) == [b1 as Byte] + LeBytes(q2, 2);
    assert LeBytes(w, 4) == [b0 as Byte] + LeBytes(q1, 3);
  }

  /** One 50-byte record; the attribute is written as zero. */
  function EncodeFacet(f: Facet): (bs: seq<Byte>)
    ensures |bs| == RecordSize
  {
    EncodeVertex(f.normal) + EncodeVertex(f.v1) + EncodeVertex(f.v2) + EncodeVertex(f.v3) + [0, 0]
  }

  function EncodeFacets(fs: seq<Facet>): (bs: seq<Byte>)
    ensures |bs| == RecordSize * |fs|
  {
    if fs == [] then [] else EncodeFacet(fs[0]) + EncodeFacets(fs[1..])
  }

  /** A binary STL file holding `fs` after the given header. */
  function EncodeStl(header: seq<Byte>, fs: seq<Facet>): (bs: seq<Byte>)
    requires |header| == HeaderSize && |fs| < 0x1_0000_0000
    ensures |bs| == RecordAt(|fs|)
  {
    header + EncodeWord(|fs|) + EncodeFacets(fs)
  }

  /** The reader only looks at the bytes it reads. */
  lemma WordLocal(bs: seq<Byte>, pos: nat, cs: seq<Byte>, q: nat)
    requires pos + 4 <= |bs| && q + 4 <= |cs| && bs[pos..pos + 4] == cs[q..q + 4]
    ensures Word(bs, pos) == Word(cs, q)
  {
    assert bs[pos] == bs[pos..pos + 4][0] && bs[pos + 1] == bs[pos..pos + 4][1];
    assert bs[pos + 2] == bs[pos..pos + 4][2] && bs[pos + 3] == bs[pos..pos + 4][3];
    assert cs[q] == cs[q..q + 4][0] && cs[q + 1] == cs[q..q + 4][1];
    assert cs[q + 2] == cs[q..q + 4][2] && cs[q + 3] == cs[q..q + 4][3];
  }

  lemma WordSliceLocal(bs: seq<Byte>, pos: nat, cs: seq<Byte>, q: nat, n: nat, j: nat)
    requires j + 4 <= n && pos + n <= |bs| && q + n <= |cs| && bs[pos..pos + n] == cs[q..q + n]
    ensures Word(bs, pos + j) == Word(cs, q + j)
  {
    SliceOfSlice(bs, pos, pos + n, j, j + 4);
    SliceOfSlice(cs, q, q + n, j, j + 4);
    WordLocal(bs, pos + j, cs, q + j);
  }

  lemma VertexSliceLocal(bs: seq<Byte>, pos: nat, cs: seq<Byte>, q: nat, j: nat)
    requires j + 12 <= RecordData && pos + RecordData <= |bs| && q + RecordData <= |cs|
    requires bs[pos..pos + RecordData] == cs[q..q + RecordData]
    ensures ParseStlData(bs, pos + j).0 == ParseStlData(cs, q + j).0
  {
    SliceOfSlice(bs, pos, pos + RecordData, j, j + 12);
    SliceOfSlice(cs, q, q + RecordData, j, j + 12);
    ParseStlDataLocal(bs, pos + j, cs, q + j);
  }

  lemma ParseStlDataLocal(bs: seq<Byte>, pos: nat, cs: seq<Byte>, q: nat)
    requires pos + 12 <= |bs| && q + 12 <= |cs| && bs[pos..pos + 12] == cs[q..q + 12]
    ensures ParseStlData(bs, pos).0 == ParseStlData(cs, q).0
  {
    WordSliceLocal(bs, pos, cs, q, 12, 0);
    WordSliceLocal(bs, pos, cs, q, 12, 4);
    WordSliceLocal(bs, pos, cs, q, 12, 8);
  }

  lemma ReadFacetLocal(bs: seq<Byte>, pos: nat, cs: seq<Byte>, q: nat)
    requires pos + RecordData <= |bs| && q + RecordData <= |cs|
    requires bs[pos..pos + RecordData] == cs[q..q + RecordData]
    ensures ReadFacet(bs, pos) == ReadFacet(cs, q)
  {
    VertexSliceLocal(bs, pos, cs, q, 0);
    VertexSliceLocal(bs, pos, cs, q, 12);
    VertexSliceLocal(bs, pos, cs, q, 24);
    VertexSliceLocal(bs, pos, cs, q, 36);
  }

  /** Four bytes placed after `a` read back as the word they hold. */
  lemma WordInside(a: seq<Byte>, b: seq<Byte>, c: seq<Byte>)
    requires |b| == 4
    ensures Word(a + b + c, |a|) == Word(b, 0)
  {
    InfixAt(a, b, c, 0);
    InfixAt(a, b, c, 1);
    InfixAt(a, b, c, 2);
    InfixAt(a, b, c, 3);
  }

  /** An encoded vertex, wherever it sits, reads back as that vertex. */
  lemma VertexInside(a: seq<Byte>, v: Vertex, c: seq<Byte>)
    ensures |a| + 12 <= |a + EncodeVertex(v) + c|
    ensures ParseStlData(a + EncodeVertex(v) + c, |a|).0 == v
  {
    var x, y, z := EncodeWord(v.x), EncodeWord(v.y), EncodeWord(v.z);
    Regroup(a, x, y, z, c);
    WordInside(a, x, y + z + c);
    WordInside(a + x, y, z + c);
    WordInside(a + x + y, z, c);
    WordRoundTrip(v.x);
    WordRoundTrip(v.y);
    WordRoundTrip(v.z);
  }

  /** An encoded record, wherever it sits, reads back as its facet. */
  lemma FacetInside(a: seq<Byte>, f: Facet, c: seq<Byte>)
    ensures |a| + RecordData <= |a + EncodeFacet(f) + c|
    ensures ReadFacet(a + EncodeFacet(f) + c, |a|) == f
  {
    var n, p, q, r := EncodeVertex(f.normal), EncodeVertex(f.v1), EncodeVertex(f.v2), EncodeVertex(f.v3);
    var t: seq<Byte> := [0, 0];
    RegroupRecord(a, n, p, q, r, t, c);
    VertexInside(a, f.normal, p + q + r + (t + c));
    VertexInside(a + n, f.v1, q + r + (t + c));
    VertexInside(a + n + p, f.v2, r + (t + c));
    VertexInside(a + n + p + q, f.v3, t + c);
  }

  lemma {:induction false} EncodeFacetsAppend(a: seq<Facet>, b: seq<Facet>)
    ensures EncodeFacets(a + b) == EncodeFacets(a) + EncodeFacets(b)
  {
    if a == [] {
      assert a + b == b;
    } else {
      assert (a + b)[0] == a[0] && (a + b)[1..] == a[1..] + b;
      EncodeFacetsAppend(a[1..], b);
      Assoc(EncodeFacet(a[0]), EncodeFacets(a[1..]), EncodeFacets(b));
    }
  }

  /** The encoding of `fs` around record k. */
  lemma EncodeFacetsSplit(fs: seq<Facet>, k: nat)
    requires k < |fs|
    ensures EncodeFacets(fs) == EncodeFacets(fs[..k]) + EncodeFacet(fs[k]) + EncodeFacets(fs[k + 1..])
  {
    var rest := fs[k..];
    assert fs[..k] + rest == fs;
    assert rest[0] == fs[k] && rest[1..] == fs[k + 1..];
    EncodeFacetsAppend(fs[..k], rest);
    Assoc(EncodeFacets(fs[..k]), EncodeFacet(fs[k]), EncodeFacets(fs[k + 1..]));
  }

  /** Facet k of an encoded file reads back as fs[k]. */
  lemma EncodedRecordReads(header: seq<Byte>, fs: seq<Facet>, k: nat)
    requires |header| == HeaderSize && |fs| < 0x1_0000_0000 && k < |fs|
    ensures Readable(EncodeStl(header, fs), k)
    ensures ReadFacet(EncodeStl(header, fs), RecordAt(k)) == fs[k]
  {
    var w, e1, post := EncodeWord(|fs|), EncodeFacets(fs[..k]), EncodeFacets(fs[k + 1..]);
    var bs, pre := EncodeStl(header, fs), header + w + e1;
    EncodeFacetsSplit(fs, k);
    assert bs == header + w + (e1 + EncodeFacet(fs[k]) + post);
    AppendRegroup(header, w, e1, EncodeFacet(fs[k]), post);
    assert |pre| == RecordAt(k);
    FacetInside(pre, fs[k], post);
  }

  /** `bs` ends right after its records, and those records hold `fs`. */
  ghost predicate HoldsRecords(bs: seq<Byte>, fs: seq<Facet>)
  {
    |bs| == RecordAt(|fs|) &&
    forall k :: 0 <= k < |fs| ==> Readable(bs, k) && ReadFacet(bs, RecordAt(k)) == fs[k]
  }

  /** The record loop over a file holding `fs`, for any count: it stores the
      first `count` facets and succeeds when the file holds that many, and
      otherwise stores all of them and reports truncation. */
  lemma {:induction false} RecordsOfHeld(bs: seq<Byte>, fs: seq<Facet>, i: nat, count: nat)
    requires HoldsRecords(bs, fs) && i <= count && i <= |fs|
    ensures Records(bs, i, count) ==
              if count <= |fs| then BinaryOutcome(fs[i..count], Success)
              else BinaryOutcome(fs[i..], Failure(Truncated))
    decreases count - i
  {
    if i < count && i < |fs| {
      RecordsOfHeld(bs, fs, i + 1, count);
      SliceCons(fs, i, if count <= |fs| then count else |fs|);
    } else if i < count {
      assert !Readable(bs, i);
    }
  }

  /** An encoded file holds exactly the facets it was written from. */
  lemma EncodedHoldsRecords(header: seq<Byte>, fs: seq<Facet>)
    requires |header| == HeaderSize && |fs| < 0x1_0000_0000
    ensures HoldsRecords(EncodeStl(header, fs), fs)
  {
    forall k | 0 <= k < |fs|
      ensures Readable(EncodeStl(header, fs), k) && ReadFacet(EncodeStl(header, fs), RecordAt(k)) == fs[k]
    {
      EncodedRecordReads(header, fs, k);
    }
  }

  /** The record loop over an encoded file, for any count. */
  lemma RecordsOfEncoded(header: seq<Byte>, fs: seq<Facet>, count: nat)
    requires |header| == HeaderSize && |fs| < 0x1_0000_0000
    ensures Records(EncodeStl(header, fs), 0, count) ==
              if count <= |fs| then BinaryOutcome(fs[..count], Success)
              else BinaryOutcome(fs, Failure(Truncated))
  {
    EncodedHoldsRecords(header, fs);
    RecordsOfHeld(EncodeStl(header, fs), fs, 0, count);
    assert fs[0..] == fs;
    if count <= |fs| {
      assert fs[0..count] == fs[..count];
    }
  }

  /** Round trip: loading a binary STL file written from `fs` stores exactly
      `fs`, in order, and succeeds, whatever the header. */
  lemma EncodeStlLoads(header: seq<Byte>, fs: seq<Facet>)
    requires |header| == HeaderSize && 0 < |fs| < 0x1_0000_0000
    ensures BinaryLoad(EncodeStl(header, fs)) == BinaryOutcome(fs, Success)
  {
    var bs := EncodeStl(header, fs);
    EncodedCount(header, fs);
    RecordsOfEncoded(header, fs, |fs|);
    assert fs[..|fs|] == fs;
  }

  /** The count field of an encoded file is the number of facets. */
  lemma EncodedCount(header: seq<Byte>, fs: seq<Facet>)
    requires |header| == HeaderSize && |fs| < 0x1_0000_0000
    ensures TriangleCount(EncodeStl(header, fs)) == |fs|
  {
    WordInside(header, EncodeWord(|fs|), EncodeFacets(fs));
    WordRoundTrip(|fs|);
  }

  /** The binary branch as loadStl is written: the record loop runs for the
      count taken from the first count byte alone. */
  function SourceBinaryLoad(bs: seq<Byte>): BinaryOutcome
  {
    if |bs| < RecordsStart then BinaryOutcome([], Failure(Truncated))
    else if SourceTriangleCount(bs) == 0 then BinaryOutcome([], Failure(EmptyMesh))
    else Records(bs, 0, SourceTriangleCount(bs))
  }

  /** Wherever the first count byte alone gives the count, in particular
      below 128 triangles, and on files too short for a count, the branch as
      written loads exactly what the corrected reader loads. */
  lemma SourceLoadAgreesBelow128(bs: seq<Byte>)
    ensures |bs| < RecordsStart || TriangleCount(bs) < 128 ==> SourceBinaryLoad(bs) == BinaryLoad(bs)
  {
    if |bs| >= RecordsStart && TriangleCount(bs) < 128 {
      SourceCountAgreesBelow128(bs);
    }
  }

  /** A well-formed file of 300 facets: as written, loadStl stores only the
      first 44 and reports success; the corrected reader stores all 300. */
  lemma SourceLoadDrops256(header: seq<Byte>, fs: seq<Facet>)
    requires |header| == HeaderSize && |fs| == 300
    ensures SourceBinaryLoad(EncodeStl(header, fs)) == BinaryOutcome(fs[..44], Success)
    ensures BinaryLoad(EncodeStl(header, fs)) == BinaryOutcome(fs, Success)
  {
    var bs := EncodeStl(header, fs);
    EncodedCount(header, fs);
    SourceCountDropsHighBytes(bs);
    RecordsOfEncoded(header, fs, 44);
    EncodeStlLoads(header, fs);
  }

  /** A well-formed file of 128 facets: as written, loadStl reads a count of
      4294967168, runs off the end of the file after the 128 records (here:
      reports truncation); the corrected reader succeeds with all 128. */
  lemma SourceLoadOverruns128(header: seq<Byte>, fs: seq<Facet>)
    requires |header| == HeaderSize && |fs| == 128
    ensures SourceBinaryLoad(EncodeStl(header, fs)) == BinaryOutcome(fs, Failure(Truncated))
    ensures BinaryLoad(EncodeStl(header, fs)) == BinaryOutcome(fs, Success)
  {
    var bs := EncodeStl(header, fs);
    EncodedCount(header, fs);
    SourceCountSignExtends(bs);
    RecordsOfEncoded(header, fs, 4294967168);
    EncodeStlLoads(header, fs);
  }

  /** Record j, when `bs` holds its data, has the same data in `cs`. */
  predicate SameRecordData(bs: seq<Byte>, cs: seq<Byte>, j: nat)
    requires |bs| == |cs|
  {
    Readable(bs, j) ==> bs[RecordAt(j)..RecordAt(j) + RecordData] == cs[RecordAt(j)..RecordAt(j) + RecordData]
  }

  /** The record loop reads only the 48 data bytes of each record. */
  lemma {:induction false} RecordsIgnoreAttributes(bs: seq<Byte>, cs: seq<Byte>, i: nat, count: nat)
    requires |bs| == |cs| && i <= count
    requires forall j :: SameRecordData(bs, cs, j)
    ensures Records(bs, i, count) == Records(cs, i, count)
    decreases count - i
  {
    if i < count && Readable(bs, i) {
      assert SameRecordData(bs, cs, i);
      SameFacetAt(bs, cs, i);
      RecordsIgnoreAttributes(bs, cs, i + 1, count);
    }
  }

  lemma SameFacetAt(bs: seq<Byte>, cs: seq<Byte>, i: nat)
    requires |bs| == |cs| && Readable(bs, i) && SameRecordData(bs, cs, i)
    ensures ReadFacet(bs, RecordAt(i)) == ReadFacet(cs, RecordAt(i))
  {
    ReadFacetLocal(bs, RecordAt(i), cs, RecordAt(i));
  }

  /** The header and the 2-byte attribute of each record are read but never
      affect the load: two files of the same length that agree on the count
      and on every record's 48 data bytes load the same. */
  lemma HeaderAndAttributesIgnored(bs: seq<Byte>, cs: seq<Byte>)
    requires |bs| == |cs| && |bs| >= RecordsStart
    requires bs[HeaderSize..RecordsStart] == cs[HeaderSize..RecordsStart]
    requires forall j :: SameRecordData(bs, cs, j)
    ensures BinaryLoad(bs) == BinaryLoad(cs)
  {
    WordLocal(bs, HeaderSize, cs, HeaderSize);
    RecordsIgnoreAttributes(bs, cs, 0, TriangleCount(bs));
  }
}
