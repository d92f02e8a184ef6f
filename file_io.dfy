/** The FileIO object: a store of facets that loadStl and loadMesh only ever
    append to, and getFacets reads. */
module Cutsim {
  import opened StlTypes
  import opened Text
  import opened AsciiStl
  import opened BinaryStl
  import opened MeshLoad
  import opened StlLoad

  class FileIO {
    /** The facets loaded so far, oldest first. */
    var facets: seq<Facet>

    constructor ()
      ensures facets == []
    {
      facets := [];
    }

    /** getFacets: the store, as it stands. */
    method GetFacets() returns (fs: seq<Facet>)
      ensures fs == facets
    {
      fs := facets;
    }

    /** loadStl: open the file, read its first line, then read the rest as
        ASCII when that line contains "solid", and as binary otherwise. */
    method LoadStl(file: Option<seq<Byte>>, stof: Stof) returns (status: Status)
      modifies this
      ensures facets == old(facets) + LoadStlSpec(file, stof).emitted
      ensures status == LoadStlSpec(file, stof).status
    {
      if file.None? {
        return Failure(CannotOpen);
      }
      var bs := file.value;
      var line := FirstLine(bs);
      if Contains(line, SolidKw) {
        status := LoadAscii(GetLines(AfterFirstLine(bs)), stof);
      } else {
        status := LoadBinary(bs);
      }
    }

    /** The while (getline ...) loop of loadStl over the lines after the
        first; `st` holds the loop's locals: the normal `n`, the pending
        `vertices` and the three counters. */
    method LoadAscii(lines: seq<string>, stof: Stof) returns (status: Status)
      modifies this
      ensures facets == old(facets) + AsciiRun(lines, stof).emitted
      ensures status == AsciiRun(lines, stof).status
    {
      var st := Initial;
      ghost var target := facets + AsciiRun(lines, stof).emitted;
      ghost var outcome := AsciiRun(lines, stof).status;
      ResumesAtStart(facets, lines, stof);
      var i := 0;
      while i < |lines|
        invariant 0 <= i <= |lines|
        invariant Resumes(target, outcome, facets, Classified(lines[i..], stof), st)
      {
        ClassifiedCons(lines, i, stof);
        Advance(target, outcome, facets, Classify(lines[i], stof), Classified(lines[i + 1..], stof), st);
        var r := ReadLine(lines[i], stof, st);
        match r {
          case Abort =>
            return Failure(NumericParseError);
          case Stop(_, _) =>
            return Success;
          case Next(st', _) =>
            st := st';
        }
        i := i + 1;
      }
      assert lines[i..] == [];
      return Failure(UnterminatedSolid);
    }

    /** The body of the ASCII loop on one line: the `facet normal`,
        `vertex`, `endfacet` and `endsolid` tests, in that order, each on the
        whole line. A throwing std::stof leaves the body at once. */
    method ReadLine(line: string, stof: Stof, st: ParseState) returns (r: StepResult)
      modifies this
      ensures r == Step(st, Classify(line, stof))
      ensures facets == old(facets) + (if r.Abort? then [] else r.emitted)
    {
      var n := st.normal;
      var vertices := st.pending;
      var vertexTracker := st.vertexTracker;
      var vertexTotal := st.vertexTotal;
      var facetTotal := st.facetTotal;
      ghost var info := Classify(line, stof);
      // facet normal
      if Contains(line, FacetNormalKw) {
        var p := ParseStlLine(line, FacetNormalKw, stof);
        if p.None? {
          return Abort;
        }
        n := p.value;
      }
      // vertex
      if Contains(line, VertexKw) {
        var v := ParseStlLine(line, VertexKw, stof);
        if v.None? {
          return Abort;
        }
        vertices := vertices + [v.value];
        vertexTotal := vertexTotal + 1;
        vertexTracker := vertexTracker + 1;
      }
      var e: seq<Facet> := [];
      // endfacet
      if Contains(line, EndfacetKw) {
        if |vertices| == 3 {
          var f := Facet(n, vertices[0], vertices[1], vertices[2]);
          facets := facets + [f];
          e := [f];
        }
        vertexTracker := 0;
        vertices := [];
        facetTotal := facetTotal + 1;
      }
      var st' := ParseState(n, vertices, vertexTracker, vertexTotal, facetTotal);
      StepIs(st, info, st', e);
      // endsolid
      if Contains(line, EndsolidKw) {
        return Stop(st', e);
      }
      return Next(st', e);
    }

    /** The binary branch of loadStl: the count after the 80-byte header,
        then one record per triangle, read at a cursor that moves 50 bytes
        per record (48 data bytes and the skipped attribute). */
    method LoadBinary(bs: seq<Byte>) returns (status: Status)
      modifies this
      ensures facets == old(facets) + BinaryLoad(bs).emitted
      ensures status == BinaryLoad(bs).status
    {
      if |bs| < RecordsStart {
        return Failure(Truncated);
      }
      var triangleCount: nat := TriangleCount(bs);
      if triangleCount == 0 {
        return Failure(EmptyMesh);
      }
      ghost var target := facets + BinaryLoad(bs).emitted;
      ghost var outcome := BinaryLoad(bs).status;
      var pos := RecordsStart;
      for i := 0 to triangleCount
        invariant pos == RecordAt(i)
        invariant RecordsResume(target, outcome, facets, bs, i, triangleCount)
      {
        ReadRecordStep(target, outcome, facets, bs, i, triangleCount);
        if pos + RecordData > |bs| {
          return Failure(Truncated);
        }
        var (normal, p1) := ParseStlData(bs, pos);
        var (v1, p2) := ParseStlData(bs, p1);
        var (v2, p3) := ParseStlData(bs, p2);
        var (v3, p4) := ParseStlData(bs, p3);
        facets := facets + [Facet(normal, v1, v2, v3)];
        pos := p4 + 2;
      }
      return Success;
    }

    /** loadMesh: refuse an empty list; otherwise copy each entry of length
        4 into the four-slot buffer and append the facet it makes. */
    method LoadMesh(entries: seq<MeshEntry>) returns (status: Status)
      modifies this
      ensures facets == old(facets) + LoadMeshSpec(entries).emitted
      ensures status == LoadMeshSpec(entries).status
    {
      if |entries| == 0 {
        return Failure(EmptyMesh);
      }
      var vertexData := new Vertex[4](_ => Origin);
      for i := 0 to |entries|
        invariant facets == old(facets) + MeshFacets(entries[..i])
      {
        var entry := entries[i];
        assert entries[..i + 1][..i] == entries[..i];
        if |entry| == 4 {
          for j := 0 to 4
            modifies vertexData
            invariant forall t :: 0 <= t < j ==> vertexData[t] == entry[t]
          {
            vertexData[j] := entry[j];
          }
          facets := facets + [Facet(vertexData[0], vertexData[1], vertexData[2], vertexData[3])];
          assert facets[|facets| - 1] == ToFacet(entries[..i + 1][i]);
        }
      }
      assert entries[..|entries|] == entries;
      return Success;
    }
  }

  /** The loop body's effect, line by line, is the step of the line. */
  lemma StepIs(st: ParseState, info: LineInfo, st': ParseState, e: seq<Facet>)
    requires !info.normal.Threw? && !info.vertex.Threw?
    requires st'.normal == if info.normal.Read? then info.normal.v else st.normal
    requires st'.vertexTotal == st.vertexTotal + if info.vertex.Read? then 1 else 0
    requires var p := st.pending + if info.vertex.Read? then [info.vertex.v] else [];
             && st'.pending == (if info.endfacet then [] else p)
             && st'.vertexTracker == (if info.endfacet then 0 else st.vertexTracker + if info.vertex.Read? then 1 else 0)
             && st'.facetTotal == st.facetTotal + (if info.endfacet then 1 else 0)
             && e == if info.endfacet && |p| == 3 then [Facet(st'.normal, p[0], p[1], p[2])] else []
    ensures Step(st, info) == if info.endsolid then Stop(st', e) else Next(st', e)
  {
  }

  /** The binary loop has stored `stored` so far and, from record `i` on,
      goes on to store exactly `target` and report `status`. */
  ghost predicate RecordsResume(target: seq<Facet>, status: Status, stored: seq<Facet>,
                                bs: seq<Byte>, i: nat, count: nat)
  {
    i <= count && target == stored + Records(bs, i, count).emitted && status == Records(bs, i, count).status
  }

  /** One turn of the binary loop: a record cut short ends it with nothing
      more stored; a whole record stores the facet read at its start. */
  lemma ReadRecordStep(target: seq<Facet>, status: Status, stored: seq<Facet>,
                       bs: seq<Byte>, i: nat, count: nat)
    requires RecordsResume(target, status, stored, bs, i, count) && i < count
    ensures !Readable(bs, i) ==> target == stored && status == Failure(Truncated)
    ensures Readable(bs, i) ==>
              RecordsResume(target, status, stored + [ReadFacet(bs, RecordAt(i))], bs, i + 1, count)
  {
    if Readable(bs, i) {
      var f := ReadFacet(bs, RecordAt(i));
      var rest := Records(bs, i + 1, count);
      assert stored + ([f] + rest.emitted) == (stored + [f]) + rest.emitted;
    }
  }

  /** The loop has stored `stored` so far and, from state `st` over the
      lines `rest`, goes on to store exactly `target` and report `status`. */
  ghost predicate Resumes(target: seq<Facet>, status: Status, stored: seq<Facet>, rest: seq<LineInfo>, st: ParseState)
  {
    target == stored + Run(rest, st).emitted && status == Run(rest, st).status
  }

  lemma ResumesAtStart(stored: seq<Facet>, lines: seq<string>, stof: Stof)
    ensures Resumes(stored + AsciiRun(lines, stof).emitted, AsciiRun(lines, stof).status,
                    stored, Classified(lines[0..], stof), Initial)
  {
    assert lines[0..] == lines;
  }

  /** The classified lines from `i` on: line `i`, then those after it. */
  lemma ClassifiedCons(lines: seq<string>, i: nat, stof: Stof)
    requires i < |lines|
    ensures Classified(lines[i..], stof) == [Classify(lines[i], stof)] + Classified(lines[i + 1..], stof)
  {
    assert lines[i..][0] == lines[i] && lines[i..][1..] == lines[i + 1..];
  }

  /** One turn of the loop: a line whose number std::stof rejects ends it
      with nothing more stored; a line that ends the solid stores its facet,
      if any, and succeeds; any other line stores its facet, if any, and
      leaves the rest of the lines to the next turn. */
  lemma Advance(target: seq<Facet>, status: Status, stored: seq<Facet>, info: LineInfo,
                rest: seq<LineInfo>, st: ParseState)
    requires Resumes(target, status, stored, [info] + rest, st)
    ensures Step(st, info).Abort? ==> target == stored && status == Failure(NumericParseError)
    ensures Step(st, info).Stop? ==> target == stored + Step(st, info).emitted && status == Success
    ensures Step(st, info).Next? ==>
              Resumes(target, status, stored + Step(st, info).emitted, rest, Step(st, info).state)
  {
    assert ([info] + rest)[0] == info && ([info] + rest)[1..] == rest;
    var r := Step(st, info);
    if r.Next? {
      assert target == stored + (r.emitted + Run(rest, r.state).emitted);
      assert stored + (r.emitted + Run(rest, r.state).emitted) == (stored + r.emitted) + Run(rest, r.state).emitted;
    }
  }
}
