/** The ASCII STL reader: the line tokenizer `parseStlLine` and the
    line-by-line state machine of `loadStl`, as functions over the lines
    that follow the first one. */
module AsciiStl {
  import opened StlTypes
  import opened Text

  const FacetNormalKw: string := "facet normal"
  const VertexKw: string := "vertex"
  const EndfacetKw: string := "endfacet"
  const EndsolidKw: string := "endsolid"

  /** std::stof on one token: the bit pattern of the float it returns, or
      None where it throws. It is outside this model, so it is a parameter. */
  type Stof = string -> Option<Float32>

  /** The pieces `parseStlLine` looks at: the line with every occurrence of
      the keyword removed, trimmed, then split at each whitespace character. */
  function Pieces(line: string, kw: string): seq<string>
    requires |kw| > 0
  {
    Split(Trim(ReplaceAll(line, kw)))
  }

  /** parseStlLine: three pieces give the three parsed coordinates (None if
      std::stof throws on one); any other number of pieces gives the default
      vertex (0, 0, 0) and nothing is parsed. */
  function ParseStlLine(line: string, kw: string, stof: Stof): (r: Option<Vertex>)
    requires |kw| > 0
    ensures |Pieces(line, kw)| != 3 ==> r == Some(Origin)
    ensures r.None? <==>
              |Pieces(line, kw)| == 3 &&
              (stof(Pieces(line, kw)[0]).None? || stof(Pieces(line, kw)[1]).None? ||
               stof(Pieces(line, kw)[2]).None?)
  {
    var p := Pieces(line, kw);
    if |p| != 3 then Some(Origin)
    else
      match (stof(p[0]), stof(p[1]), stof(p[2]))
      case (Some(x), Some(y), Some(z)) => Some(Vertex(x, y, z))
      case _ => None
  }

  // ---- lemmas about the tokenizer ----

  /** With a keyword free of whitespace, an occurrence in `x c y` for a
      whitespace `c` lies in `x` or in `y`. */
  lemma {:induction false} ContainsAroundSpace(x: string, c: char, y: string, k: string)
    requires |k| > 0 && NoSpace(k) && IsSpace(c)
    ensures Contains(x + [c] + y, k) ==> Contains(x, k) || Contains(y, k)
    decreases |x|
  {
    var s := x + [c] + y;
    if Contains(s, k) {
      if x == [] {
        assert s[..|k|][0] != k[0];
        assert s[1..] == y;
      } else {
        if |x| < |k| {
          assert s[..|k|][|x|] != k[|x|];
        }
        if s[..|k|] == k {
          assert x[..|k|] == s[..|k|];
        } else {
          assert s[1..] == x[1..] + [c] + y;
          ContainsAroundSpace(x[1..], c, y, k);
        }
      }
    }
  }

  /** Whatever holds `k2` at the end of an occurrence of `k1 + k2` holds `k2`. */
  lemma ContainsTail(s: string, k1: string, k2: string)
    requires Contains(s, k1 + k2)
    ensures Contains(s, k2)
  {
    ContainsIffOccurs(s, k1 + k2);
    ContainsIffOccurs(s, k2);
    var i: nat :| OccursAt(s, k1 + k2, i);
    assert s[i + |k1|..i + |k1| + |k2|] == (k1 + k2)[|k1|..];
    assert OccursAt(s, k2, i + |k1|);
  }

  /** Removing a keyword that does not start with whitespace leaves leading
      whitespace in place. */
  lemma {:induction false} ReplaceAllAfterSpace(w: string, z: string, k: string)
    requires |k| > 0 && !IsSpace(k[0]) && AllSpace(w)
    ensures ReplaceAll(w + z, k) == w + ReplaceAll(z, k)
    decreases |w|
  {
    if w == [] {
      assert w + z == z;
    } else {
      var s := w + z;
      if |s| >= |k| {
        assert s[..|k|][0] == w[0];
        assert s[..|k|] != k;
        assert s[1..] == w[1..] + z;
        ReplaceAllAfterSpace(w[1..], z, k);
        assert ReplaceAll(s, k) == [w[0]] + (w[1..] + ReplaceAll(z, k));
        assert w == [w[0]] + w[1..];
      } else {
        assert ReplaceAll(z, k) == z;
      }
    }
  }

  /** The text of a well-formed line after its keyword: three tokens, each
      preceded by a single space, then trailing whitespace. */
  function Coordinates(a: string, b: string, c: string, u: string): string
  {
    " " + a + " " + b + " " + c + u
  }

  predicate Token(t: string)
  {
    |t| > 0 && NoSpace(t)
  }

  /** Three tokens free of a whitespace-free keyword give coordinate text free of it. */
  lemma CoordinatesLackKeyword(a: string, b: string, c: string, u: string, k: string)
    requires |k| > 0 && NoSpace(k) && AllSpace(u)
    requires !Contains(a, k) && !Contains(b, k) && !Contains(c, k)
    ensures !Contains(Coordinates(a, b, c, u), k)
  {
    AllSpaceHasNoKeyword(u, k);
    AllSpaceHasNoKeyword([], k);
    var cu := c + u;
    assert !Contains(cu, k) by {
      if u == [] {
        assert cu == c;
      } else {
        assert cu == c + [u[0]] + u[1..];
        AllSpaceHasNoKeyword(u[1..], k);
        ContainsAroundSpace(c, u[0], u[1..], k);
      }
    }
    assert " " + a + " " + b + " " + c + u == [] + [' '] + (a + [' '] + (b + [' '] + cu));
    ContainsAroundSpace(b, ' ', cu, k);
    ContainsAroundSpace(a, ' ', b + [' '] + cu, k);
    ContainsAroundSpace([], ' ', a + [' '] + (b + [' '] + cu), k);
  }

  /** Removing the keyword from `w kw text`, where the text lacks it,
      leaves `w text`. */
  lemma KeywordRemoved(w: string, kw: string, body: string)
    requires |kw| > 0 && !IsSpace(kw[0]) && AllSpace(w) && !Contains(body, kw)
    ensures ReplaceAll(w + kw + body, kw) == w + body
  {
    ReplaceAllAfterSpace(w, kw + body, kw);
    assert (kw + body)[..|kw|] == kw && (kw + body)[|kw|..] == body;
    ReplaceAllAbsent(body, kw);
    assert w + kw + body == w + (kw + body);
  }

  /** Three tokens separated by single spaces split into those tokens. */
  lemma ThreeTokensSplit(a: string, b: string, c: string)
    requires Token(a) && Token(b) && Token(c)
    ensures Split(a + " " + b + " " + c) == [a, b, c]
  {
    var bc := b + [' '] + c;
    SplitAroundSpace(b, ' ', c);
    SplitNoSpace(b);
    SplitNoSpace(c);
    assert Split(bc) == [b, c];
    SplitAroundSpace(a, ' ', bc);
    SplitNoSpace(a);
    assert Split(a + [' '] + bc) == [a, b, c];
    assert a + " " + b + " " + c == a + [' '] + bc;
  }

  /** Tokenizing a well-formed line `w kw a b c u` (whitespace w and u, single
      spaces between tokens) yields exactly the three tokens. */
  lemma FormattedLinePieces(w: string, kw: string, a: string, b: string, c: string, u: string)
    requires |kw| > 0 && !IsSpace(kw[0])
    requires AllSpace(w) && AllSpace(u) && Token(a) && Token(b) && Token(c)
    requires !Contains(Coordinates(a, b, c, u), kw)
    ensures Pieces(w + kw + Coordinates(a, b, c, u), kw) == [a, b, c]
  {
    var body := Coordinates(a, b, c, u);
    var core := a + " " + b + " " + c;
    KeywordRemoved(w, kw, body);
    CoordinatesTrim(w, a, b, c, u);
    ThreeTokensSplit(a, b, c);
    assert Trim(ReplaceAll(w + kw + body, kw)) == core;
  }

  /** The coordinate text, after leading whitespace, trims to its tokens. */
  lemma CoordinatesTrim(w: string, a: string, b: string, c: string, u: string)
    requires AllSpace(w) && AllSpace(u) && Token(a) && Token(b) && Token(c)
    ensures Trim(w + Coordinates(a, b, c, u)) == a + " " + b + " " + c
  {
    var core := a + " " + b + " " + c;
    assert w + Coordinates(a, b, c, u) == (w + " ") + core + u;
    assert core[0] == a[0] && core[|core| - 1] == c[|c| - 1];
    TrimPadding(w + " ", core, u);
  }

  /** parseStlLine on a well-formed line returns the coordinates std::stof
      gives for its three tokens. */
  lemma FormattedLineParses(w: string, kw: string, a: string, b: string, c: string, u: string, stof: Stof)
    requires |kw| > 0 && !IsSpace(kw[0])
    requires AllSpace(w) && AllSpace(u) && Token(a) && Token(b) && Token(c)
    requires !Contains(Coordinates(a, b, c, u), kw)
    requires stof(a).Some? && stof(b).Some? && stof(c).Some?
    ensures ParseStlLine(w + kw + Coordinates(a, b, c, u), kw, stof)
         == Some(Vertex(stof(a).value, stof(b).value, stof(c).value))
  {
    FormattedLinePieces(w, kw, a, b, c, u);
  }

  /** A `vertex` line whose numeric tokens do not spell `vertex` parses to
      their three coordinates. */
  lemma VertexLineParses(w: string, a: string, b: string, c: string, u: string, stof: Stof)
    requires AllSpace(w) && AllSpace(u) && Token(a) && Token(b) && Token(c)
    requires !Contains(a, VertexKw) && !Contains(b, VertexKw) && !Contains(c, VertexKw)
    requires stof(a).Some? && stof(b).Some? && stof(c).Some?
    ensures ParseStlLine(w + VertexKw + Coordinates(a, b, c, u), VertexKw, stof)
         == Some(Vertex(stof(a).value, stof(b).value, stof(c).value))
  {
    CoordinatesLackKeyword(a, b, c, u, VertexKw);
    FormattedLineParses(w, VertexKw, a, b, c, u, stof);
  }

  /** A `facet normal` line whose tokens do not spell `normal` parses to
      their three coordinates. */
  lemma NormalLineParses(w: string, a: string, b: string, c: string, u: string, stof: Stof)
    requires AllSpace(w) && AllSpace(u) && Token(a) && Token(b) && Token(c)
    requires !Contains(a, "normal") && !Contains(b, "normal") && !Contains(c, "normal")
    requires stof(a).Some? && stof(b).Some? && stof(c).Some?
    ensures ParseStlLine(w + FacetNormalKw + Coordinates(a, b, c, u), FacetNormalKw, stof)
         == Some(Vertex(stof(a).value, stof(b).value, stof(c).value))
  {
    CoordinatesLackKeyword(a, b, c, u, "normal");
    assert FacetNormalKw == "facet " + "normal";
    if Contains(Coordinates(a, b, c, u), FacetNormalKw) {
      ContainsTail(Coordinates(a, b, c, u), "facet ", "normal");
    }
    FormattedLineParses(w, FacetNormalKw, a, b, c, u, stof);
  }

  /** The coordinate text of a line with a double space after its first token. */
  function DoubleSpaced(a: string, b: string, c: string): string
  {
    " " + a + "  " + b + " " + c
  }

  lemma DoubleSpacedLacksKeyword(a: string, b: string, c: string, k: string)
    requires |k| > 0 && NoSpace(k)
    requires !Contains(a, k) && !Contains(b, k) && !Contains(c, k)
    ensures !Contains(DoubleSpaced(a, b, c), k)
  {
    var bc := b + [' '] + c;
    assert DoubleSpaced(a, b, c) == [] + [' '] + (a + [' '] + ([] + [' '] + bc));
    AllSpaceHasNoKeyword([], k);
    ContainsAroundSpace(b, ' ', c, k);
    ContainsAroundSpace([], ' ', bc, k);
    ContainsAroundSpace(a, ' ', [] + [' '] + bc, k);
    ContainsAroundSpace([], ' ', a + [' '] + ([] + [' '] + bc), k);
  }

  lemma DoubleSpacedShape(a: string, b: string, c: string)
    ensures DoubleSpaced(a, b, c) == " " + (a + [' '] + ([] + [' '] + (b + [' '] + c))) + []
  {
  }

  lemma DoubleSpacedSplits(a: string, b: string, c: string)
    requires Token(a) && Token(b) && Token(c)
    ensures Split(Trim(DoubleSpaced(a, b, c))) == [a, "", b, c]
  {
    var bc := b + [' '] + c;
    var tail := [] + [' '] + bc;
    var core := a + [' '] + tail;
    DoubleSpacedShape(a, b, c);
    assert core[0] == a[0] && core[|core| - 1] == c[|c| - 1];
    TrimPadding(" ", core, []);
    DoubleSpacedCoreSplits(a, b, c);
  }

  lemma DoubleSpacedCoreSplits(a: string, b: string, c: string)
    requires Token(a) && Token(b) && Token(c)
    ensures Split(a + [' '] + ([] + [' '] + (b + [' '] + c))) == [a, "", b, c]
  {
    var bc := b + [' '] + c;
    SplitAroundSpace(b, ' ', c);
    SplitAroundSpace([], ' ', bc);
    SplitAroundSpace(a, ' ', [] + [' '] + bc);
  }

  /** Whitespace runs are not compressed: a double space between the first two
      tokens makes four pieces, and the line yields the default vertex. */
  lemma DoubleSpaceGivesOrigin(kw: string, a: string, b: string, c: string, stof: Stof)
    requires |kw| > 0 && NoSpace(kw)
    requires Token(a) && Token(b) && Token(c)
    requires !Contains(a, kw) && !Contains(b, kw) && !Contains(c, kw)
    ensures Pieces(kw + DoubleSpaced(a, b, c), kw) == [a, "", b, c]
    ensures ParseStlLine(kw + DoubleSpaced(a, b, c), kw, stof) == Some(Origin)
  {
    var body := DoubleSpaced(a, b, c);
    DoubleSpacedLacksKeyword(a, b, c, kw);
    assert (kw + body)[..|kw|] == kw && (kw + body)[|kw|..] == body;
    ReplaceAllAbsent(body, kw);
    assert ReplaceAll(kw + body, kw) == body;
    DoubleSpacedSplits(a, b, c);
  }

  // ---- the line state machine of loadStl ----

  /** What one of the two parsing tests of the loop body finds on a line:
      the keyword is absent, parseStlLine threw, or it returned a vertex. */
  datatype Field = Absent | Threw | Read(v: Vertex)

  function FieldOf(line: string, kw: string, stof: Stof): (f: Field)
    requires |kw| > 0
    ensures f.Absent? <==> !Contains(line, kw)
    ensures f.Threw? <==> Contains(line, kw) && ParseStlLine(line, kw, stof).None?
    ensures f.Read? ==> ParseStlLine(line, kw, stof) == Some(f.v)
  {
    if !Contains(line, kw) then Absent
    else match ParseStlLine(line, kw, stof)
      case None => Threw
      case Some(v) => Read(v)
  }

  /** Everything the loop body learns from one line: its four containment
      tests, in the order the body runs them, and the two parses. */
  datatype LineInfo = LineInfo(normal: Field, vertex: Field, endfacet: bool, endsolid: bool)

  function Classify(line: string, stof: Stof): LineInfo
  {
    LineInfo(FieldOf(line, FacetNormalKw, stof), FieldOf(line, VertexKw, stof),
             Contains(line, EndfacetKw), Contains(line, EndsolidKw))
  }

  /** The lines as the loop body sees them. */
  function Classified(lines: seq<string>, stof: Stof): (infos: seq<LineInfo>)
    ensures |infos| == |lines|
    decreases |lines|
  {
    if lines == [] then [] else [Classify(lines[0], stof)] + Classified(lines[1..], stof)
  }

  /** Line k of the classified lines is line k, classified. */
  lemma {:induction false} ClassifiedAt(lines: seq<string>, stof: Stof, k: nat)
    requires k < |lines|
    ensures Classified(lines, stof)[k] == Classify(lines[k], stof)
    decreases k
  {
    if k > 0 {
      ClassifiedAt(lines[1..], stof, k - 1);
    }
  }

  lemma {:induction false} ClassifiedAppend(a: seq<string>, b: seq<string>, stof: Stof)
    ensures Classified(a + b, stof) == Classified(a, stof) + Classified(b, stof)
    decreases |a|
  {
    if a == [] {
      assert a + b == b;
    } else {
      assert (a + b)[0] == a[0] && (a + b)[1..] == a[1..] + b;
      ClassifiedAppend(a[1..], b, stof);
    }
  }

  /** The loop's local state: the current normal `n` (never reset between
      facets), the pending `vertices`, and the three counters. */
  datatype ParseState = ParseState(
    normal: Vertex,
    pending: seq<Vertex>,
    vertexTracker: nat,
    vertexTotal: nat,
    facetTotal: nat)

  /** The state before the first line after the header line. */
  const Initial: ParseState := ParseState(Origin, [], 0, 0, 0)

  /** `vertexTracker` always counts the pending vertices. */
  predicate TrackerInSync(st: ParseState)
  {
    st.vertexTracker == |st.pending|
  }

  /** What one line does: go on, stop with success (`endsolid`), or abort
      because std::stof threw. */
  datatype StepResult =
    | Next(state: ParseState, emitted: seq<Facet>)
    | Stop(state: ParseState, emitted: seq<Facet>)
    | Abort

  /** One iteration of the loop body. The four tests each look at the whole
      line, so one line may act several times. */
  function Step(st: ParseState, info: LineInfo): (r: StepResult)
    ensures r.Abort? <==> info.normal.Threw? || info.vertex.Threw?
  {
    if info.normal.Threw? || info.vertex.Threw? then Abort
    else
      var st1 := if info.normal.Read? then st.(normal := info.normal.v) else st;
      var st2 :=
        if info.vertex.Read? then
          st1.(pending := st1.pending + [info.vertex.v],
               vertexTotal := st1.vertexTotal + 1,
               vertexTracker := st1.vertexTracker + 1)
        else st1;
      var emitted :=
        if info.endfacet && |st2.pending| == 3 then
          [Facet(st2.normal, st2.pending[0], st2.pending[1], st2.pending[2])]
        else [];
      var st3 :=
        if info.endfacet then
          st2.(pending := [], vertexTracker := 0, facetTotal := st2.facetTotal + 1)
        else st2;
      if info.endsolid then Stop(st3, emitted) else Next(st3, emitted)
  }

  /** What one step does when std::stof does not throw: `endsolid` stops the
      loop; the normal is replaced only by a `facet normal` line; a `vertex`
      line appends to the pending vertices and counts; an `endfacet` line
      stores a facet exactly when three vertices are pending, then clears
      them and counts. */
  lemma StepEffect(st: ParseState, info: LineInfo)
    requires !Step(st, info).Abort?
    ensures Step(st, info).Stop? <==> info.endsolid
    ensures Step(st, info).state.normal == if info.normal.Read? then info.normal.v else st.normal
    ensures var p := st.pending + if info.vertex.Read? then [info.vertex.v] else [];
      && Step(st, info).emitted == (if info.endfacet && |p| == 3 then [Facet(Step(st, info).state.normal, p[0], p[1], p[2])] else [])
      && Step(st, info).state.pending == (if info.endfacet then [] else p)
    ensures Step(st, info).state.vertexTotal == st.vertexTotal + (if info.vertex.Read? then 1 else 0)
    ensures Step(st, info).state.vertexTracker ==
              if info.endfacet then 0 else st.vertexTracker + if info.vertex.Read? then 1 else 0
    ensures Step(st, info).state.facetTotal == st.facetTotal + (if info.endfacet then 1 else 0)
    ensures TrackerInSync(st) ==> TrackerInSync(Step(st, info).state)
  {
  }

  /** The outcome of the loop over the remaining lines: the facets it pushed,
      the value loadStl reports, the state it ended in, and how many lines
      it read. */
  datatype AsciiOutcome = AsciiOutcome(emitted: seq<Facet>, status: Status, final: ParseState, consumed: nat)

  /** The loop from state `st` over the remaining lines. */
  function Run(infos: seq<LineInfo>, st: ParseState): (r: AsciiOutcome)
    ensures r.consumed <= |infos|
    ensures r.status == Success || r.status == Failure(UnterminatedSolid) || r.status == Failure(NumericParseError)
    ensures r.status == Failure(UnterminatedSolid) ==> r.consumed == |infos|
    ensures r.status == Success ==> 1 <= r.consumed
    ensures st.facetTotal + |r.emitted| <= r.final.facetTotal
    decreases |infos|
  {
    if infos == [] then AsciiOutcome([], Failure(UnterminatedSolid), st, 0)
    else
      match Step(st, infos[0])
      case Abort => AsciiOutcome([], Failure(NumericParseError), st, 1)
      case Stop(st', e) => AsciiOutcome(e, Success, st', 1)
      case Next(st', e) =>
        var rest := Run(infos[1..], st');
        AsciiOutcome(e + rest.emitted, rest.status, rest.final, rest.consumed + 1)
  }

  /** A successful loop stops at the first `endsolid` line and at no line
      before it. */
  lemma {:induction false} SuccessStopsAtFirstEndsolid(infos: seq<LineInfo>, st: ParseState)
    requires Run(infos, st).status == Success
    ensures var n := Run(infos, st).consumed;
      infos[n - 1].endsolid && forall j :: 0 <= j < n - 1 ==> !infos[j].endsolid
    decreases |infos|
  {
    var s := Step(st, infos[0]);
    if s.Next? {
      SuccessStopsAtFirstEndsolid(infos[1..], s.state);
    }
  }

  /** The ASCII loop of loadStl over the lines after the first. */
  function AsciiRun(lines: seq<string>, stof: Stof): AsciiOutcome
  {
    Run(Classified(lines, stof), Initial)
  }

  /** The lines after the first `endsolid` are never read. */
  lemma {:induction false} EndsolidStopsReadingInfos(
    a: seq<LineInfo>, e: LineInfo, t1: seq<LineInfo>, t2: seq<LineInfo>, st: ParseState)
    requires e.endsolid
    ensures Run(a + [e] + t1, st) == Run(a + [e] + t2, st)
    decreases |a|
  {
    var s1, s2 := a + [e] + t1, a + [e] + t2;
    if a == [] {
      assert s1[0] == e && s2[0] == e;
    } else {
      assert s1[0] == a[0] && s2[0] == a[0];
      assert s1[1..] == a[1..] + [e] + t1 && s2[1..] == a[1..] + [e] + t2;
      if Step(st, a[0]).Next? {
        EndsolidStopsReadingInfos(a[1..], e, t1, t2, Step(st, a[0]).state);
      }
    }
  }

  /** Whatever follows the first `endsolid` line, the load is the same. */
  lemma EndsolidStopsReading(a: seq<string>, e: string, t1: seq<string>, t2: seq<string>, stof: Stof)
    requires Contains(e, EndsolidKw)
    ensures AsciiRun(a + [e] + t1, stof) == AsciiRun(a + [e] + t2, stof)
  {
    ClassifiedAppend(a + [e], t1, stof);
    ClassifiedAppend(a + [e], t2, stof);
    ClassifiedAppend(a, [e], stof);
    assert Classified([e], stof) == [Classify(e, stof)];
    EndsolidStopsReadingInfos(Classified(a, stof), Classify(e, stof), Classified(t1, stof), Classified(t2, stof), Initial);
  }

  /** A run of lines without a `facet normal` line stores every facet with the
      normal held before the run: the normal is never reset. */
  lemma {:induction false} NormalPersistsInfos(infos: seq<LineInfo>, st: ParseState)
    requires forall j :: 0 <= j < |infos| ==> infos[j].normal.Absent?
    ensures forall f :: f in Run(infos, st).emitted ==> f.normal == st.normal
    decreases |infos|
  {
    if infos != [] {
      var r := Step(st, infos[0]);
      if r.Next? {
        NormalPersistsInfos(infos[1..], r.state);
      }
    }
  }

  /** With no `facet normal` line at all, every facet stored carries the
      default normal (0, 0, 0). */
  lemma NormalPersists(lines: seq<string>, stof: Stof)
    requires forall j :: 0 <= j < |lines| ==> !Contains(lines[j], FacetNormalKw)
    ensures forall f :: f in AsciiRun(lines, stof).emitted ==> f.normal == Origin
  {
    var infos := Classified(lines, stof);
    forall j | 0 <= j < |infos|
      ensures infos[j].normal.Absent?
    {
      ClassifiedAt(lines, stof, j);
    }
    NormalPersistsInfos(infos, Initial);
  }

  /** Lines read through without ending the load, then more lines: the loop
      goes on from the state the first lines left it in. */
  lemma {:induction false} RunAppend(a: seq<LineInfo>, b: seq<LineInfo>, st: ParseState)
    requires Run(a, st).status == Failure(UnterminatedSolid)
    ensures Run(a + b, st).emitted == Run(a, st).emitted + Run(b, Run(a, st).final).emitted
    ensures Run(a + b, st).status == Run(b, Run(a, st).final).status
    decreases |a|
  {
    if a == [] {
      assert a + b == b;
    } else {
      assert (a + b)[0] == a[0] && (a + b)[1..] == a[1..] + b;
      var s := Step(st, a[0]);
      RunAppend(a[1..], b, s.state);
      Assoc(s.emitted, Run(a[1..], s.state).emitted, Run(b, Run(a, st).final).emitted);
    }
  }

  /** The normal is never reset: once a `facet normal` line has been read,
      every facet stored from then on, until the next such line, carries the
      normal that line gave. */
  lemma NormalPersistsAfter(a: seq<string>, l: string, b: seq<string>, v: Vertex, stof: Stof)
    requires AsciiRun(a, stof).status == Failure(UnterminatedSolid)
    requires Classify(l, stof).normal == Read(v)
    requires forall j :: 0 <= j < |b| ==> !Contains(b[j], FacetNormalKw)
    ensures var r, ra := AsciiRun(a + [l] + b, stof), AsciiRun(a, stof);
      |ra.emitted| <= |r.emitted| && r.emitted[..|ra.emitted|] == ra.emitted &&
      forall f :: f in r.emitted[|ra.emitted|..] ==> f.normal == v
  {
    var ia, i, ib := Classified(a, stof), Classify(l, stof), Classified(b, stof);
    ClassifiedAppend(a + [l], b, stof);
    ClassifiedAppend(a, [l], stof);
    assert Classified([l], stof) == [i];
    assert ia + [i] + ib == ia + ([i] + ib);
    RunAppend(ia, [i] + ib, Initial);
    var st := Run(ia, Initial).final;
    var s := Step(st, i);
    var tail := Run([i] + ib, st);
    assert ([i] + ib)[0] == i && ([i] + ib)[1..] == ib;
    if !s.Abort? {
      StepEffect(st, i);
      if s.Next? {
        forall j | 0 <= j < |ib|
          ensures ib[j].normal.Absent?
        {
          ClassifiedAt(b, stof, j);
        }
        NormalPersistsInfos(ib, s.state);
      }
    }
    assert forall f :: f in tail.emitted ==> f.normal == v;
    var r, ra := AsciiRun(a + [l] + b, stof), AsciiRun(a, stof);
    assert r.emitted == ra.emitted + tail.emitted;
    assert r.emitted[|ra.emitted|..] == tail.emitted;
  }

  /** The number of lines whose `vertex` test fired, and of `endfacet` lines. */
  function VertexLines(infos: seq<LineInfo>): nat
    decreases |infos|
  {
    if infos == [] then 0 else (if infos[0].vertex.Absent? then 0 else 1) + VertexLines(infos[1..])
  }

  function EndfacetLines(infos: seq<LineInfo>): nat
    decreases |infos|
  {
    if infos == [] then 0 else (if infos[0].endfacet then 1 else 0) + EndfacetLines(infos[1..])
  }

  /** Unless std::stof threw, `vertexTotal` counts the `vertex` lines read and
      `facetTotal` the `endfacet` lines read. */
  lemma {:induction false} CountersCountLines(infos: seq<LineInfo>, st: ParseState)
    requires Run(infos, st).status != Failure(NumericParseError)
    ensures var r := Run(infos, st);
      r.final.vertexTotal == st.vertexTotal + VertexLines(infos[..r.consumed]) &&
      r.final.facetTotal == st.facetTotal + EndfacetLines(infos[..r.consumed])
    decreases |infos|
  {
    var r := Run(infos, st);
    if infos != [] {
      var s := Step(st, infos[0]);
      StepEffect(st, infos[0]);
      assert infos[..r.consumed][0] == infos[0];
      if s.Next? {
        var rest := Run(infos[1..], s.state);
        CountersCountLines(infos[1..], s.state);
        assert infos[..r.consumed][1..] == infos[1..][..rest.consumed];
      } else {
        assert infos[..r.consumed][1..] == [];
      }
    }
  }

  /** `vertexTracker` stays equal to the number of pending vertices. */
  lemma {:induction false} TrackerStaysInSync(infos: seq<LineInfo>, st: ParseState)
    requires TrackerInSync(st)
    ensures TrackerInSync(Run(infos, st).final)
    decreases |infos|
  {
    if infos != [] {
      var s := Step(st, infos[0]);
      if s.Next? {
        TrackerStaysInSync(infos[1..], s.state);
      }
    }
  }

  // ---- well-formed ASCII text ----

  /** A line none of the four tests reacts to (`outer loop`, `endloop`, ...). */
  const PlainInfo: LineInfo := LineInfo(Absent, Absent, false, false)

  /** The seven lines of one facet block. */
  datatype FacetText = FacetText(
    normal: string, outerLoop: string, v1: string, v2: string, v3: string, endLoop: string, endFacet: string)

  /** Each line of the block fires exactly its own test, and the three
      coordinates of each `facet normal` and `vertex` line parse. */
  predicate WellFormed(b: FacetText, stof: Stof)
  {
    var n := Classify(b.normal, stof);
    n.normal.Read? && n.vertex.Absent? && !n.endfacet && !n.endsolid &&
    Classify(b.outerLoop, stof) == PlainInfo &&
    VertexOnly(Classify(b.v1, stof)) && VertexOnly(Classify(b.v2, stof)) && VertexOnly(Classify(b.v3, stof)) &&
    Classify(b.endLoop, stof) == PlainInfo &&
    Classify(b.endFacet, stof) == LineInfo(Absent, Absent, true, false)
  }

  predicate VertexOnly(info: LineInfo)
  {
    info.normal.Absent? && info.vertex.Read? && !info.endfacet && !info.endsolid
  }

  function BlockLines(b: FacetText): seq<string>
  {
    [b.normal, b.outerLoop, b.v1, b.v2, b.v3, b.endLoop, b.endFacet]
  }

  /** The facet a well-formed block describes. */
  function BlockFacet(b: FacetText, stof: Stof): Facet
    requires WellFormed(b, stof)
  {
    Facet(Classify(b.normal, stof).normal.v,
          Classify(b.v1, stof).vertex.v, Classify(b.v2, stof).vertex.v, Classify(b.v3, stof).vertex.v)
  }

  // ---- blocks laid out as STL writers lay them out ----

  /** The characters a number is written with, as in `-1.5e+02`. */
  const NumberChars: string := "0123456789+-.eE"

  predicate NumberToken(t: string)
  {
    |t| > 0 && forall i :: 0 <= i < |t| ==> t[i] in NumberChars
  }

  /** A facet block with each line indented by its own whitespace and single
      spaces before the coordinates: `w0 facet normal t0 t1 t2`, `w1 outer loop`,
      three `vertex` lines, `w5 endloop`, `w6 endfacet`. */
  function FormattedBlock(w: seq<string>, t: seq<string>): FacetText
    requires |w| == 7 && |t| == 12
  {
    FacetText(w[0] + FacetNormalKw + Coordinates(t[0], t[1], t[2], ""),
              w[1] + "outer loop",
              w[2] + VertexKw + Coordinates(t[3], t[4], t[5], ""),
              w[3] + VertexKw + Coordinates(t[6], t[7], t[8], ""),
              w[4] + VertexKw + Coordinates(t[9], t[10], t[11], ""),
              w[5] + "endloop",
              w[6] + EndfacetKw)
  }

  /** Every letter of an occurring word is a letter of the text, so a text
      lacks every word holding a letter it does not have. */
  lemma OccurringLetter(s: string, k: string, j: nat)
    requires j < |k|
    ensures Contains(s, k) ==> k[j] in s
  {
    ContainsIffOccurs(s, k);
    if Contains(s, k) {
      var i: nat :| OccursAt(s, k, i);
      assert s[i..i + |k|][j] == s[i + j];
    }
  }

  lemma IndentHas(w: string, k: string, rest: string)
    ensures Contains(w + k + rest, k)
  {
    ContainsIffOccurs(w + k + rest, k);
    assert OccursAt(w + k + rest, k, |w|);
  }

  /** A text lacks a word holding a letter the text does not have. */
  lemma LacksLetter(s: string, k: string, j: nat)
    requires j < |k| && k[j] !in s
    ensures !Contains(s, k)
  {
    OccurringLetter(s, k, j);
  }

  /** How the loop body sees a line, from its four containment tests and the parse. */
  lemma ClassifyOf(line: string, normal: Field, vertex: Field, endfacet: bool, endsolid: bool, stof: Stof)
    requires normal.Absent? <==> !Contains(line, FacetNormalKw)
    requires normal.Read? ==> Contains(line, FacetNormalKw) && ParseStlLine(line, FacetNormalKw, stof) == Some(normal.v)
    requires !normal.Threw? && !vertex.Threw?
    requires vertex.Absent? <==> !Contains(line, VertexKw)
    requires vertex.Read? ==> Contains(line, VertexKw) && ParseStlLine(line, VertexKw, stof) == Some(vertex.v)
    requires endfacet == Contains(line, EndfacetKw) && endsolid == Contains(line, EndsolidKw)
    ensures Classify(line, stof) == LineInfo(normal, vertex, endfacet, endsolid)
  {
  }

  /** A number is a token, and has none of the letters that tell the
      keywords apart. */
  lemma NumberLetters(t: string)
    requires NumberToken(t)
    ensures Token(t)
    ensures 'n' !in t && 'v' !in t && 'd' !in t
  {
    assert 'n' !in NumberChars && 'v' !in NumberChars && 'd' !in NumberChars;
  }

  /** A letter that is not whitespace and occurs neither in the keyword nor
      in the tokens does not occur in the laid-out line. */
  lemma LineLetters(w: string, kw: string, a: string, b: string, c: string, x: char)
    requires AllSpace(w) && !IsSpace(x) && x !in kw && x !in a && x !in b && x !in c
    ensures x !in w + kw + Coordinates(a, b, c, "")
  {
    assert x !in w;
  }

  /** The letters that tell the keywords apart. */
  lemma KeywordLetters()
    ensures FacetNormalKw[0] == 'f' && FacetNormalKw[6] == 'n' && FacetNormalKw[7] == 'o'
    ensures VertexKw[0] == 'v' && "normal"[0] == 'n'
    ensures EndfacetKw[1] == 'n' && EndfacetKw[2] == 'd' && EndfacetKw[3] == 'f'
    ensures EndsolidKw[1] == 'n' && EndsolidKw[2] == 'd' && EndsolidKw[3] == 's'
    ensures 'v' !in FacetNormalKw && 'd' !in FacetNormalKw && 'n' !in VertexKw
    ensures 'o' !in EndfacetKw && 'v' !in EndfacetKw && 's' !in EndfacetKw
    ensures 'f' !in "outer loop" && 'v' !in "outer loop" && 'n' !in "outer loop"
    ensures 'f' !in "endloop" && 'v' !in "endloop" && 's' !in "endloop"
  {
  }

  /** A laid-out `facet normal` line fires only the normal test, which reads
      its three coordinates. */
  lemma NormalLineInfo(w: string, a: string, b: string, c: string, stof: Stof)
    requires AllSpace(w) && NumberToken(a) && NumberToken(b) && NumberToken(c)
    requires stof(a).Some? && stof(b).Some? && stof(c).Some?
    ensures Classify(w + FacetNormalKw + Coordinates(a, b, c, ""), stof)
         == LineInfo(Read(Vertex(stof(a).value, stof(b).value, stof(c).value)), Absent, false, false)
  {
    KeywordLetters();
    var line := w + FacetNormalKw + Coordinates(a, b, c, "");
    IndentHas(w, FacetNormalKw, Coordinates(a, b, c, ""));
    NumberLetters(a);
    NumberLetters(b);
    NumberLetters(c);
    LacksLetter(a, "normal", 0);
    LacksLetter(b, "normal", 0);
    LacksLetter(c, "normal", 0);
    NormalLineParses(w, a, b, c, "", stof);
    LineLetters(w, FacetNormalKw, a, b, c, 'v');
    LineLetters(w, FacetNormalKw, a, b, c, 'd');
    LacksLetter(line, VertexKw, 0);
    LacksLetter(line, EndfacetKw, 2);
    LacksLetter(line, EndsolidKw, 2);
    ClassifyOf(line, Read(Vertex(stof(a).value, stof(b).value, stof(c).value)), Absent, false, false, stof);
  }

  /** A laid-out `vertex` line fires only the vertex test, which reads its
      three coordinates. */
  lemma VertexLineInfo(w: string, a: string, b: string, c: string, stof: Stof)
    requires AllSpace(w) && NumberToken(a) && NumberToken(b) && NumberToken(c)
    requires stof(a).Some? && stof(b).Some? && stof(c).Some?
    ensures Classify(w + VertexKw + Coordinates(a, b, c, ""), stof)
         == LineInfo(Absent, Read(Vertex(stof(a).value, stof(b).value, stof(c).value)), false, false)
  {
    KeywordLetters();
    var line := w + VertexKw + Coordinates(a, b, c, "");
    IndentHas(w, VertexKw, Coordinates(a, b, c, ""));
    NumberLetters(a);
    NumberLetters(b);
    NumberLetters(c);
    LacksLetter(a, VertexKw, 0);
    LacksLetter(b, VertexKw, 0);
    LacksLetter(c, VertexKw, 0);
    VertexLineParses(w, a, b, c, "", stof);
    LineLetters(w, VertexKw, a, b, c, 'n');
    LacksLetter(line, FacetNormalKw, 6);
    LacksLetter(line, EndfacetKw, 1);
    LacksLetter(line, EndsolidKw, 1);
    ClassifyOf(line, Absent, Read(Vertex(stof(a).value, stof(b).value, stof(c).value)), false, false, stof);
  }

  /** `outer loop` fires no test. */
  lemma OuterLoopInfo(w: string, stof: Stof)
    requires AllSpace(w)
    ensures Classify(w + "outer loop", stof) == PlainInfo
  {
    KeywordLetters();
    var line := w + "outer loop";
    LacksLetter(line, FacetNormalKw, 0);
    LacksLetter(line, VertexKw, 0);
    LacksLetter(line, EndfacetKw, 1);
    LacksLetter(line, EndsolidKw, 1);
    ClassifyOf(line, Absent, Absent, false, false, stof);
  }

  /** `endloop` fires no test. */
  lemma EndloopInfo(w: string, stof: Stof)
    requires AllSpace(w)
    ensures Classify(w + "endloop", stof) == PlainInfo
  {
    KeywordLetters();
    var line := w + "endloop";
    LacksLetter(line, FacetNormalKw, 0);
    LacksLetter(line, VertexKw, 0);
    LacksLetter(line, EndfacetKw, 3);
    LacksLetter(line, EndsolidKw, 3);
    ClassifyOf(line, Absent, Absent, false, false, stof);
  }

  /** `endfacet` fires only its own test. */
  lemma EndfacetInfo(w: string, stof: Stof)
    requires AllSpace(w)
    ensures Classify(w + EndfacetKw, stof) == LineInfo(Absent, Absent, true, false)
  {
    KeywordLetters();
    var line := w + EndfacetKw;
    IndentHas(w, EndfacetKw, "");
    assert w + EndfacetKw + "" == line;
    LacksLetter(line, FacetNormalKw, 7);
    LacksLetter(line, VertexKw, 0);
    LacksLetter(line, EndsolidKw, 3);
    ClassifyOf(line, Absent, Absent, true, false, stof);
  }

  /** `endsolid` followed by a solid name without the letters `f` and `v`
      fires only the `endsolid` test. */
  lemma EndsolidLineInfo(w: string, name: string, stof: Stof)
    requires AllSpace(w) && 'f' !in name && 'v' !in name
    ensures Classify(w + EndsolidKw + name, stof) == EndsolidInfo
  {
    KeywordLetters();
    var line := w + EndsolidKw + name;
    IndentHas(w, EndsolidKw, name);
    assert 'f' !in w && 'v' !in w && 'f' !in EndsolidKw && 'v' !in EndsolidKw;
    LacksLetter(line, FacetNormalKw, 0);
    LacksLetter(line, VertexKw, 0);
    LacksLetter(line, EndfacetKw, 3);
    ClassifyOf(line, Absent, Absent, false, true, stof);
  }

  /** A block laid out as writers lay it out, with coordinates std::stof
      reads, is well-formed and describes the facet of those coordinates. */
  lemma FormattedBlockWellFormed(w: seq<string>, t: seq<string>, stof: Stof)
    requires |w| == 7 && |t| == 12
    requires forall i :: 0 <= i < 7 ==> AllSpace(w[i])
    requires forall i :: 0 <= i < 12 ==> NumberToken(t[i]) && stof(t[i]).Some?
    ensures WellFormed(FormattedBlock(w, t), stof)
    ensures BlockFacet(FormattedBlock(w, t), stof) ==
      Facet(Vertex(stof(t[0]).value, stof(t[1]).value, stof(t[2]).value),
            Vertex(stof(t[3]).value, stof(t[4]).value, stof(t[5]).value),
            Vertex(stof(t[6]).value, stof(t[7]).value, stof(t[8]).value),
            Vertex(stof(t[9]).value, stof(t[10]).value, stof(t[11]).value))
  {
    NormalLineInfo(w[0], t[0], t[1], t[2], stof);
    OuterLoopInfo(w[1], stof);
    VertexLineInfo(w[2], t[3], t[4], t[5], stof);
    VertexLineInfo(w[3], t[6], t[7], t[8], stof);
    VertexLineInfo(w[4], t[9], t[10], t[11], stof);
    EndloopInfo(w[5], stof);
    EndfacetInfo(w[6], stof);
  }

  function AllLines(bs: seq<FacetText>): seq<string>
  {
    if bs == [] then [] else BlockLines(bs[0]) + AllLines(bs[1..])
  }

  /** Unfolding the loop by one line that does not end it. */
  lemma RunNext(i: LineInfo, rest: seq<LineInfo>, st: ParseState, st': ParseState, e: seq<Facet>)
    requires Step(st, i) == Next(st', e)
    ensures Run([i] + rest, st).emitted == e + Run(rest, st').emitted
    ensures Run([i] + rest, st).status == Run(rest, st').status
  {
    assert ([i] + rest)[0] == i && ([i] + rest)[1..] == rest;
  }

  /** Unfolding the loop by three lines that neither end it nor store a facet. */
  lemma RunSilent3(a: LineInfo, b: LineInfo, c: LineInfo, tail: seq<LineInfo>,
                   st: ParseState, s1: ParseState, s2: ParseState, s3: ParseState)
    requires Step(st, a) == Next(s1, []) && Step(s1, b) == Next(s2, []) && Step(s2, c) == Next(s3, [])
    ensures Run([a, b, c] + tail, st).emitted == Run(tail, s3).emitted
    ensures Run([a, b, c] + tail, st).status == Run(tail, s3).status
  {
    var t2 := [c] + tail;
    var t1 := [b] + t2;
    assert [a, b, c] + tail == [a] + t1;
    RunNext(c, tail, s2, s3, []);
    RunNext(b, t2, s1, s2, []);
    RunNext(a, t1, st, s1, []);
  }

  /** The seven lines of a block as the loop body sees them, for facet `f`. */
  predicate BlockShape(c: seq<LineInfo>, f: Facet)
  {
    |c| == 7 &&
    c[0] == LineInfo(Read(f.normal), Absent, false, false) &&
    c[1] == PlainInfo &&
    c[2] == LineInfo(Absent, Read(f.v1), false, false) &&
    c[3] == LineInfo(Absent, Read(f.v2), false, false) &&
    c[4] == LineInfo(Absent, Read(f.v3), false, false) &&
    c[5] == PlainInfo &&
    c[6] == LineInfo(Absent, Absent, true, false)
  }

  lemma WellFormedShape(b: FacetText, stof: Stof)
    requires WellFormed(b, stof)
    ensures BlockShape(Classified(BlockLines(b), stof), BlockFacet(b, stof))
  {
    var ls := BlockLines(b);
    ClassifiedAt(ls, stof, 0);
    ClassifiedAt(ls, stof, 1);
    ClassifiedAt(ls, stof, 2);
    ClassifiedAt(ls, stof, 3);
    ClassifiedAt(ls, stof, 4);
    ClassifiedAt(ls, stof, 5);
    ClassifiedAt(ls, stof, 6);
  }

  /** A block read with nothing pending stores exactly its facet and leaves
      nothing pending. */
  lemma BlockRun(c: seq<LineInfo>, f: Facet, tail: seq<LineInfo>, st: ParseState) returns (st': ParseState)
    requires BlockShape(c, f) && st.pending == []
    ensures st'.pending == []
    ensures Run(c + tail, st).emitted == [f] + Run(tail, st').emitted
    ensures Run(c + tail, st).status == Run(tail, st').status
  {
    var t2 := [c[6]] + tail;
    var t1 := [c[3], c[4], c[5]] + t2;
    assert c + tail == [c[0], c[1], c[2]] + t1;
    var s1 := st.(normal := f.normal);
    var s3 := s1.(pending := [f.v1], vertexTotal := s1.vertexTotal + 1, vertexTracker := s1.vertexTracker + 1);
    var s4 := s3.(pending := [f.v1, f.v2], vertexTotal := s3.vertexTotal + 1, vertexTracker := s3.vertexTracker + 1);
    var s5 := s4.(pending := [f.v1, f.v2, f.v3], vertexTotal := s4.vertexTotal + 1, vertexTracker := s4.vertexTracker + 1);
    st' := s5.(pending := [], vertexTracker := 0, facetTotal := s5.facetTotal + 1);
    RunNext(c[6], tail, s5, st', [f]);
    RunSilent3(c[3], c[4], c[5], t2, s3, s4, s5, s5);
    RunSilent3(c[0], c[1], c[2], t1, st, s1, s1, s3);
  }

  /** The line that ends a solid and does nothing else. */
  const EndsolidInfo: LineInfo := LineInfo(Absent, Absent, false, true)

  function Flatten(cs: seq<seq<LineInfo>>): seq<LineInfo>
  {
    if cs == [] then [] else cs[0] + Flatten(cs[1..])
  }

  /** Blocks, each read with nothing pending, followed by a line that only ends
      the solid: exactly their facets are stored, in order, and the load succeeds. */
  lemma {:induction false} BlocksRun(cs: seq<seq<LineInfo>>, fs: seq<Facet>, tail: seq<LineInfo>, st: ParseState)
    requires |cs| == |fs| && forall i :: 0 <= i < |cs| ==> BlockShape(cs[i], fs[i])
    requires |tail| > 0 && tail[0] == EndsolidInfo && st.pending == []
    ensures Run(Flatten(cs) + tail, st).emitted == fs
    ensures Run(Flatten(cs) + tail, st).status == Success
    decreases |cs|
  {
    if cs == [] {
      assert Flatten(cs) + tail == tail;
    } else {
      var later := Flatten(cs[1..]) + tail;
      assert Flatten(cs) + tail == cs[0] + later;
      var st' := BlockRun(cs[0], fs[0], later, st);
      BlocksRun(cs[1..], fs[1..], tail, st');
      assert fs == [fs[0]] + fs[1..];
    }
  }

  /** The blocks' lines as the loop body sees them, block by block. */
  function BlockInfos(bs: seq<FacetText>, stof: Stof): (cs: seq<seq<LineInfo>>)
    ensures |cs| == |bs| && forall i :: 0 <= i < |bs| ==> cs[i] == Classified(BlockLines(bs[i]), stof)
  {
    seq(|bs|, i requires 0 <= i < |bs| => Classified(BlockLines(bs[i]), stof))
  }

  lemma {:induction false} ClassifiedAllLines(bs: seq<FacetText>, stof: Stof)
    ensures Classified(AllLines(bs), stof) == Flatten(BlockInfos(bs, stof))
    decreases |bs|
  {
    if bs != [] {
      ClassifiedAppend(BlockLines(bs[0]), AllLines(bs[1..]), stof);
      ClassifiedAllLines(bs[1..], stof);
      assert BlockInfos(bs, stof)[1..] == BlockInfos(bs[1..], stof);
    }
  }

  lemma ClassifiedFile(bs: seq<FacetText>, e: string, rest: seq<string>, stof: Stof)
    ensures Classified(AllLines(bs) + [e] + rest, stof) ==
              Flatten(BlockInfos(bs, stof)) + Classified([e] + rest, stof)
    ensures Classified([e] + rest, stof)[0] == Classify(e, stof)
  {
    assert AllLines(bs) + [e] + rest == AllLines(bs) + ([e] + rest);
    ClassifiedAppend(AllLines(bs), [e] + rest, stof);
    ClassifiedAllLines(bs, stof);
  }

  lemma ShapesOf(bs: seq<FacetText>, stof: Stof) returns (fs: seq<Facet>)
    requires forall i :: 0 <= i < |bs| ==> WellFormed(bs[i], stof)
    ensures |fs| == |bs| && forall i :: 0 <= i < |bs| ==> fs[i] == BlockFacet(bs[i], stof)
    ensures forall i :: 0 <= i < |bs| ==> BlockShape(BlockInfos(bs, stof)[i], fs[i])
  {
    fs := seq(|bs|, i requires 0 <= i < |bs| => BlockFacet(bs[i], stof));
    forall i | 0 <= i < |bs| ensures BlockShape(BlockInfos(bs, stof)[i], fs[i]) {
      WellFormedShape(bs[i], stof);
    }
  }

  /** Well-formed blocks followed by a line that only ends the solid load
      successfully and store exactly one facet per block, in file order,
      whatever follows. */
  lemma WellFormedBlocksLoad(bs: seq<FacetText>, e: string, rest: seq<string>, stof: Stof)
    requires forall i :: 0 <= i < |bs| ==> WellFormed(bs[i], stof)
    requires Classify(e, stof) == EndsolidInfo
    ensures AsciiRun(AllLines(bs) + [e] + rest, stof).status == Success
    ensures |AsciiRun(AllLines(bs) + [e] + rest, stof).emitted| == |bs|
    ensures forall i :: 0 <= i < |bs| ==> AsciiRun(AllLines(bs) + [e] + rest, stof).emitted[i] == BlockFacet(bs[i], stof)
  {
    ClassifiedFile(bs, e, rest, stof);
    var fs := ShapesOf(bs, stof);
    BlocksRun(BlockInfos(bs, stof), fs, Classified([e] + rest, stof), Initial);
  }

  /** One facet block laid out as writers lay it out, then an `endsolid`
      line: the load succeeds and stores exactly the facet of the block's
      twelve numbers, whatever follows. */
  lemma FormattedFacetLoads(w: seq<string>, t: seq<string>, we: string, name: string, rest: seq<string>, stof: Stof)
    requires |w| == 7 && |t| == 12
    requires forall i :: 0 <= i < 7 ==> AllSpace(w[i])
    requires forall i :: 0 <= i < 12 ==> NumberToken(t[i]) && stof(t[i]).Some?
    requires AllSpace(we) && 'f' !in name && 'v' !in name
    ensures var r := AsciiRun(BlockLines(FormattedBlock(w, t)) + [we + EndsolidKw + name] + rest, stof);
      r.status == Success &&
      r.emitted == [Facet(Vertex(stof(t[0]).value, stof(t[1]).value, stof(t[2]).value),
                          Vertex(stof(t[3]).value, stof(t[4]).value, stof(t[5]).value),
                          Vertex(stof(t[6]).value, stof(t[7]).value, stof(t[8]).value),
                          Vertex(stof(t[9]).value, stof(t[10]).value, stof(t[11]).value))]
  {
    var b, e := FormattedBlock(w, t), we + EndsolidKw + name;
    FormattedBlockWellFormed(w, t, stof);
    EndsolidLineInfo(we, name, stof);
    OneBlockLoads(b, e, rest, stof);
  }

  /** A single well-formed block before a line that only ends the solid. */
  lemma OneBlockLoads(b: FacetText, e: string, rest: seq<string>, stof: Stof)
    requires WellFormed(b, stof) && Classify(e, stof) == EndsolidInfo
    ensures var r := AsciiRun(BlockLines(b) + [e] + rest, stof);
      r.status == Success && r.emitted == [BlockFacet(b, stof)]
  {
    var ls := AllLines([b]);
    assert [b][1..] == [];
    assert ls == BlockLines(b) + AllLines([]);
    assert ls == BlockLines(b);
    WellFormedBlocksLoad([b], e, rest, stof);
    var r := AsciiRun(ls + [e] + rest, stof);
    assert |r.emitted| == 1 && r.emitted[0] == BlockFacet(b, stof);
    assert r.emitted == [BlockFacet(b, stof)];
  }
}
