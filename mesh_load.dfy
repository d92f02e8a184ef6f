/** loadMesh: facets handed over as a list of entries, each entry the list
    of its vertices [normal, v1, v2, v3]. Entries of length 4 become facets;
    every other entry is skipped without a word. */
module MeshLoad {
  import opened StlTypes

  /** One entry of the input list: its vertices, already converted to floats. */
  type MeshEntry = seq<Vertex>

  /** The facet built from an entry of length 4: normal first. */
  function ToFacet(e: MeshEntry): (f: Facet)
    requires |e| == 4
    ensures [f.normal, f.v1, f.v2, f.v3] == e
  {
    Facet(e[0], e[1], e[2], e[3])
  }

  /** The facets the loop appends, in input order; defined from the last
      entry, as the loop meets it last. */
  function MeshFacets(entries: seq<MeshEntry>): (fs: seq<Facet>)
    ensures |fs| <= |entries|
    decreases |entries|
  {
    if entries == [] then []
    else
      var last := entries[|entries| - 1];
      MeshFacets(entries[..|entries| - 1]) + (if |last| == 4 then [ToFacet(last)] else [])
  }

  /** What loadMesh appends and what it reports. */
  datatype MeshOutcome = MeshOutcome(emitted: seq<Facet>, status: Status)

  /** loadMesh: an empty list is refused and appends nothing; any other list
      is accepted, whatever its entries hold. */
  function LoadMeshSpec(entries: seq<MeshEntry>): (r: MeshOutcome)
    ensures r.status == Success || r.status == Failure(EmptyMesh)
    ensures r.status == Failure(EmptyMesh) <==> |entries| == 0
    ensures r.status == Failure(EmptyMesh) ==> r.emitted == []
    ensures r.status == Success ==> r.emitted == MeshFacets(entries)
  {
    if |entries| == 0 then MeshOutcome([], Failure(EmptyMesh))
    else MeshOutcome(MeshFacets(entries), Success)
  }

  /** The facets of two lists one after the other are those of each. */
  lemma {:induction false} MeshFacetsAppend(a: seq<MeshEntry>, b: seq<MeshEntry>)
    ensures MeshFacets(a + b) == MeshFacets(a) + MeshFacets(b)
    decreases |b|
  {
    if b != [] {
      var b' := b[..|b| - 1];
      assert (a + b)[..|a + b| - 1] == a + b';
      assert (a + b)[|a + b| - 1] == b[|b| - 1];
      MeshFacetsAppend(a, b');
    } else {
      assert a + b == a;
    }
  }

  /** An entry whose length is not 4 adds nothing, wherever it stands. */
  lemma SkippedEntry(a: seq<MeshEntry>, e: MeshEntry, b: seq<MeshEntry>)
    requires |e| != 4
    ensures MeshFacets(a + [e] + b) == MeshFacets(a + b)
  {
    MeshFacetsAppend(a + [e], b);
    MeshFacetsAppend(a, [e]);
    assert [e][..0] == [];
    MeshFacetsAppend(a, b);
  }

  /** When every entry has length 4, facet k is built from entry k. */
  lemma {:induction false} AllQuadsLoad(entries: seq<MeshEntry>)
    requires forall k :: 0 <= k < |entries| ==> |entries[k]| == 4
    ensures |MeshFacets(entries)| == |entries|
    ensures forall k :: 0 <= k < |entries| ==> MeshFacets(entries)[k] == ToFacet(entries[k])
    decreases |entries|
  {
    if entries != [] {
      var init := entries[..|entries| - 1];
      assert forall k :: 0 <= k < |init| ==> init[k] == entries[k];
      AllQuadsLoad(init);
    }
  }

  /** Every stored facet comes from an entry of length 4, and every entry of
      length 4 gives a stored facet. */
  lemma {:induction false} FacetsComeFromQuads(entries: seq<MeshEntry>)
    ensures forall f :: f in MeshFacets(entries) ==>
              exists k :: 0 <= k < |entries| && |entries[k]| == 4 && f == ToFacet(entries[k])
    ensures forall k :: 0 <= k < |entries| && |entries[k]| == 4 ==> ToFacet(entries[k]) in MeshFacets(entries)
    decreases |entries|
  {
    if entries != [] {
      var n := |entries| - 1;
      var init := entries[..n];
      FacetsComeFromQuads(init);
      assert forall k :: 0 <= k < n ==> init[k] == entries[k];
    }
  }

  /** The number of facets is the number of entries of length 4. */
  function QuadCount(entries: seq<MeshEntry>): nat
  {
    if entries == [] then 0
    else (if |entries[0]| == 4 then 1 else 0) + QuadCount(entries[1..])
  }

  lemma {:induction false} FacetCountIsQuadCount(entries: seq<MeshEntry>)
    ensures |MeshFacets(entries)| == QuadCount(entries)
    decreases |entries|
  {
    if entries != [] {
      assert entries == [entries[0]] + entries[1..];
      MeshFacetsAppend([entries[0]], entries[1..]);
      assert [entries[0]][..0] == [];
      FacetCountIsQuadCount(entries[1..]);
    }
  }
}
