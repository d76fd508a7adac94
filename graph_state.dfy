/** The state of a doubled de Bruijn graph as a value, the well-formedness
    invariants the graph keeps, and the four primitive changes of state (add or
    remove a vertex pair, add or remove an edge pair) that every mutation of the
    graph is made of. A handle maps to the record of the object it points to. */
module GraphStates {
  import opened Nucleotides
  import opened Handles
  import opened Incidence
  import opened Overlaps
  import opened MergePaths

  /** A Vertex object: its conjugate and its outgoing_edges_ in insertion order. */
  datatype Vertex = Vertex(conjugate: VertexId, outgoing: seq<EdgeId>)

  /** An Edge object: its end vertex, its conjugate, its sequence and coverage. */
  datatype Edge = Edge(end: VertexId, conjugate: EdgeId, nucls: Nucls, coverage: nat)

  datatype GraphState = GraphState(
    k: nat,
    vertices: map<VertexId, Vertex>,
    edges: map<EdgeId, Edge>,
    nextVertex: nat,
    nextEdge: nat)
  {
    ghost predicate VertexValid(v: VertexId)
      requires v in vertices
    {
      var c := vertices[v].conjugate;
      c in vertices && c != v && vertices[c].conjugate == v && v < nextVertex
    }

    ghost predicate EdgeValid(e: EdgeId)
      requires e in edges
    {
      var d := edges[e];
      && d.end in vertices
      && d.conjugate in edges
      && edges[d.conjugate].conjugate == e
      && |d.nucls| > k
      && edges[d.conjugate].nucls == ReverseComplement(d.nucls)
      && (d.conjugate == e <==> d.nucls == ReverseComplement(d.nucls))
      && edges[d.conjugate].coverage == d.coverage
      && e < nextEdge
    }

    /** EdgeStart: the conjugate of the end of the twin (in a well-formed
        state the twin and its end always exist; otherwise the edge's own
        handle stands in). */
    function Start(e: EdgeId): VertexId
      requires e in edges
    {
      var rc := edges[e].conjugate;
      if rc in edges && edges[rc].end in vertices then vertices[edges[rc].end].conjugate else e
    }

    ghost predicate HandlesValid() {
      && (forall v {:trigger VertexValid(v)} :: v in vertices ==> VertexValid(v))
      && (forall e {:trigger EdgeValid(e)} :: e in edges ==> EdgeValid(e))
    }

    /** Every listed outgoing edge exists and starts where it is listed. */
    ghost predicate OutgoingStart() {
      forall v, e :: v in vertices && e in vertices[v].outgoing ==> e in edges && Start(e) == v
    }

    /** Every edge is listed at its start. */
    ghost predicate EdgesListed() {
      forall e :: e in edges ==> Start(e) in vertices && e in vertices[Start(e)].outgoing
    }

    ghost predicate ListsDistinct() {
      forall v :: v in vertices ==> NoDuplicates(vertices[v].outgoing)
    }

    ghost predicate Valid() {
      HandlesValid() && OutgoingStart() && EdgesListed() && ListsDistinct()
    }

    /** The conjugate links of the edges, as one map. */
    function EdgeConjugates(): (m: map<EdgeId, EdgeId>)
      ensures m.Keys == edges.Keys
      ensures forall e :: e in edges ==> m[e] == edges[e].conjugate
    {
      map e | e in edges :: edges[e].conjugate
    }

    /** HiddenAddVertex: two fresh vertices without edges, each the other's
        conjugate. */
    function AddVertexPair(): GraphState {
      var v, c := nextVertex, nextVertex + 1;
      this.(vertices := vertices[v := Vertex(c, [])][c := Vertex(v, [])],
            nextVertex := nextVertex + 2)
    }

    /** HiddenAddEdge: a fresh edge from v1 to v2 and, unless nucls is its own
        reverse complement, a fresh twin from conjugate(v2) to conjugate(v1);
        AddSingleEdge appends each to its start's outgoing list. */
    function AddEdgePair(v1: VertexId, v2: VertexId, nucls: Nucls, coverage: nat): GraphState
      requires v1 in vertices && v2 in vertices && vertices[v2].conjugate in vertices
    {
      var e := nextEdge;
      var c := if nucls == ReverseComplement(nucls) then e else nextEdge + 1;
      var vs1 := vertices[v1 := vertices[v1].(outgoing := vertices[v1].outgoing + [e])];
      var w := vertices[v2].conjugate;
      this.(edges := edges[e := Edge(v2, c, nucls, coverage)]
                          [c := Edge(vertices[v1].conjugate, e, ReverseComplement(nucls), coverage)],
            vertices := if c == e then vs1 else vs1[w := vs1[w].(outgoing := vs1[w].outgoing + [c])],
            nextEdge := c + 1)
    }

    /** The removal part of DeleteEdge: the edge leaves its start's list, its
        twin leaves the list of the twin's start, and both are released (once,
        if the edge is its own twin). */
    function RemoveEdgePair(e: EdgeId): GraphState
      requires HandlesValid() && e in edges
    {
      assert EdgeValid(e) && EdgeValid(edges[e].conjugate);
      var rc := edges[e].conjugate;
      assert VertexValid(edges[e].end) && VertexValid(edges[rc].end);
      var rcStart := vertices[edges[e].end].conjugate;
      var start := vertices[edges[rc].end].conjugate;
      var vs1 := vertices[start := vertices[start].(outgoing := RemoveFirst(vertices[start].outgoing, e))];
      this.(vertices := vs1[rcStart := vs1[rcStart].(outgoing := RemoveFirst(vs1[rcStart].outgoing, rc))],
            edges := edges - {e, rc})
    }

    /** The state once the edges of d are released and taken out of every
        outgoing list; DeleteAllOutgoing and ForceDeleteVertex in one step. */
    function RemoveEdges(d: set<EdgeId>): GraphState {
      this.(vertices := map x | x in vertices :: vertices[x].(outgoing := Without(vertices[x].outgoing, d)),
            edges := edges - d)
    }

    /** The conjugate links of the vertices, as one map. */
    function VertexConjugates(): (m: map<VertexId, VertexId>)
      ensures m.Keys == vertices.Keys
      ensures forall v :: v in vertices ==> m[v] == vertices[v].conjugate
    {
      map v | v in vertices :: vertices[v].conjugate
    }

    /** The state once the vertices of d are released. */
    function RemoveVertices(d: set<VertexId>): GraphState {
      this.(vertices := vertices - d)
    }

    /** The vertices inside a path: the start of every edge but the first. */
    function InteriorStarts(path: seq<EdgeId>): (r: seq<VertexId>)
      requires forall e :: e in path ==> e in edges
      ensures |r| == if path == [] then 0 else |path| - 1
      ensures forall i :: 0 <= i < |r| ==> r[i] == Start(path[i + 1])
    {
      if path == [] then [] else seq(|path| - 1, i requires 0 <= i < |path| - 1 => Start(path[i + 1]))
    }

    /** What DeleteVertex demands of each vertex DeletePath(path) deletes:
        once the path's edges and their twins are gone, no edge leaves it or
        its conjugate. */
    ghost predicate CanDeletePath(path: seq<EdgeId>)
      requires forall e :: e in path ==> e in edges
    {
      var d := ConjClosure(Elems(path), EdgeConjugates());
      forall x :: x in InteriorStarts(path) && x in vertices ==>
        && (forall f :: f in vertices[x].outgoing ==> f in d)
        && (vertices[x].conjugate in vertices ==> forall f :: f in vertices[vertices[x].conjugate].outgoing ==> f in d)
    }

    /** The sequences of the edges of a path, in order. */
    function PathNucls(path: seq<EdgeId>): (ss: seq<Nucls>)
      requires HandlesValid() && forall e :: e in path ==> e in edges
      ensures |ss| == |path| && AllEdgeSequences(ss, k)
      ensures forall i :: 0 <= i < |path| ==> ss[i] == edges[path[i]].nucls
    {
      assert forall i :: 0 <= i < |path| ==> EdgeValid(path[i]);
      seq(|path|, i requires 0 <= i < |path| => edges[path[i]].nucls)
    }

    /** The removal part of DeleteVertex: v and its conjugate leave the graph. */
    function RemoveVertexPair(v: VertexId): GraphState
      requires v in vertices
    {
      this.(vertices := vertices - {v, vertices[v].conjugate})
    }
  }

  /** Every handle in use is below the next one handed out. */
  lemma HandlesBelowNext(s: GraphState)
    requires s.HandlesValid()
    ensures forall v :: v in s.vertices ==> v < s.nextVertex
    ensures forall e :: e in s.edges ==> e < s.nextEdge
  {
    forall v | v in s.vertices ensures v < s.nextVertex {
      assert s.VertexValid(v);
    }
    forall e | e in s.edges ensures e < s.nextEdge {
      assert s.EdgeValid(e);
    }
  }

  /** A vertex stays well formed in a state that keeps it and its conjugate
      with the same conjugate links and hands out no lower handles. */
  lemma VertexFrame(s: GraphState, t: GraphState, x: VertexId)
    requires x in s.vertices && s.VertexValid(x)
    requires s.nextVertex <= t.nextVertex
    requires x in t.vertices && t.vertices[x].conjugate == s.vertices[x].conjugate
    requires var c := s.vertices[x].conjugate; c in t.vertices && t.vertices[c].conjugate == s.vertices[c].conjugate
    ensures t.VertexValid(x)
  {
  }

  /** An edge stays well formed, and keeps its start, in a state that keeps
      its record, its twin's record and the conjugate links of the vertices
      they end at. */
  lemma EdgeFrame(s: GraphState, t: GraphState, f: EdgeId)
    requires s.HandlesValid() && f in s.edges
    requires t.k == s.k && s.nextEdge <= t.nextEdge
    requires f in t.edges && t.edges[f] == s.edges[f]
    requires var c := s.edges[f].conjugate; c in s.edges && c in t.edges && t.edges[c] == s.edges[c]
    requires var d := s.edges[f]; d.end in s.vertices && d.end in t.vertices
    requires var v := s.edges[s.edges[f].conjugate].end;
             v in s.vertices && v in t.vertices && t.vertices[v].conjugate == s.vertices[v].conjugate
    ensures t.EdgeValid(f) && t.Start(f) == s.Start(f)
  {
    assert s.EdgeValid(f);
  }

  lemma AddVertexPairHandles(s: GraphState)
    requires s.HandlesValid()
    ensures s.nextVertex !in s.vertices && s.nextVertex + 1 !in s.vertices
    ensures s.AddVertexPair().HandlesValid()
    ensures forall e :: e in s.edges ==> s.AddVertexPair().Start(e) == s.Start(e)
  {
    var t := s.AddVertexPair();
    var v, c := s.nextVertex, s.nextVertex + 1;
    HandlesBelowNext(s);
    forall x | x in t.vertices ensures t.VertexValid(x) {
      if x != v && x != c {
        assert s.VertexValid(x);
        VertexFrame(s, t, x);
      }
    }
    forall e | e in t.edges ensures t.EdgeValid(e) && t.Start(e) == s.Start(e) {
      assert s.EdgeValid(e) && s.EdgeValid(s.edges[e].conjugate);
      EdgeFrame(s, t, e);
    }
  }

  /** HiddenAddVertex keeps the graph well formed and adds exactly two new
      vertices, each the conjugate of the other, neither with edges. */
  lemma AddVertexPairValid(s: GraphState)
    requires s.Valid()
    ensures var t := s.AddVertexPair(); var v := s.nextVertex;
            && t.Valid()
            && v !in s.vertices && t.vertices[v].conjugate !in s.vertices
            && t.vertices.Keys == s.vertices.Keys + {v, t.vertices[v].conjugate}
            && t.vertices[v].conjugate != v && t.vertices[t.vertices[v].conjugate].conjugate == v
            && t.vertices[v].outgoing == [] && t.vertices[t.vertices[v].conjugate].outgoing == []
            && t.edges == s.edges
  {
    var t := s.AddVertexPair();
    AddVertexPairHandles(s);
    assert t.OutgoingStart() by {
      forall x, f | x in t.vertices && f in t.vertices[x].outgoing ensures f in t.edges && t.Start(f) == x {
      }
    }
    assert t.EdgesListed() by {
      forall e | e in t.edges ensures t.Start(e) in t.vertices && e in t.vertices[t.Start(e)].outgoing {
      }
    }
  }

  /** The coverage HiddenAddEdge gives an edge when no coverage is passed.
      The default argument is declared in debruijn_graph.hpp, which is not
      part of this model; nothing in the model depends on its value. */
  const DefaultCoverage: nat := 0

  /** What HiddenAddEdge demands: both endpoints exist, the sequence is longer
      than k, and a sequence that is its own reverse complement (whose twin is
      the edge itself) runs from a vertex to its conjugate. */
  ghost predicate CanAddEdge(s: GraphState, v1: VertexId, v2: VertexId, nucls: Nucls)
    requires s.HandlesValid()
  {
    && v1 in s.vertices && v2 in s.vertices && |nucls| > s.k
    && (nucls == ReverseComplement(nucls) ==> v2 == s.vertices[v1].conjugate)
  }

  /** The new edge and its twin are fresh and well formed. */
  lemma AddEdgePairNew(s: GraphState, v1: VertexId, v2: VertexId, nucls: Nucls, coverage: nat)
    requires s.HandlesValid() && CanAddEdge(s, v1, v2, nucls)
    ensures s.vertices[v2].conjugate in s.vertices
    ensures var t := s.AddEdgePair(v1, v2, nucls, coverage);
            var e := s.nextEdge; var c := t.edges[e].conjugate;
            && e in t.edges && c in t.edges
            && e !in s.edges && c !in s.edges
            && t.EdgeValid(e) && t.EdgeValid(c)
            && t.Start(e) == v1 && t.Start(c) == s.vertices[v2].conjugate
  {
    assert s.VertexValid(v2);
    assert s.VertexValid(v1) && s.VertexValid(v2);
    HandlesBelowNext(s);
    var t := s.AddEdgePair(v1, v2, nucls, coverage);
    var e := s.nextEdge;
    var pal := nucls == ReverseComplement(nucls);
    var c := if pal then e else e + 1;
    ReverseComplementInvolution(nucls);
    assert t.edges[e].conjugate == c;
    assert t.edges[c] == Edge(s.vertices[v1].conjugate, e, ReverseComplement(nucls), coverage);
    assert t.vertices.Keys == s.vertices.Keys;
    assert t.EdgeValid(c) by {
      if !pal {
        assert ReverseComplement(nucls) != ReverseComplement(ReverseComplement(nucls));
      }
    }
  }

  /** The edges already present keep their records and their starts. */
  lemma AddEdgePairOld(s: GraphState, v1: VertexId, v2: VertexId, nucls: Nucls, coverage: nat, f: EdgeId)
    requires s.HandlesValid() && CanAddEdge(s, v1, v2, nucls) && f in s.edges
    ensures s.vertices[v2].conjugate in s.vertices
    ensures var t := s.AddEdgePair(v1, v2, nucls, coverage);
            f in t.edges && t.edges[f] == s.edges[f] && t.EdgeValid(f) && t.Start(f) == s.Start(f)
  {
    assert s.VertexValid(v2);
    HandlesBelowNext(s);
    assert s.EdgeValid(f) && s.EdgeValid(s.edges[f].conjugate);
    EdgeFrame(s, s.AddEdgePair(v1, v2, nucls, coverage), f);
  }

  lemma AddEdgePairVertex(s: GraphState, v1: VertexId, v2: VertexId, nucls: Nucls, coverage: nat, x: VertexId)
    requires s.HandlesValid() && CanAddEdge(s, v1, v2, nucls) && x in s.vertices
    ensures s.vertices[v2].conjugate in s.vertices
    ensures var t := s.AddEdgePair(v1, v2, nucls, coverage);
            x in t.vertices && t.vertices[x].conjugate == s.vertices[x].conjugate && t.VertexValid(x)
  {
    assert s.VertexValid(v2);
    assert s.VertexValid(x);
    VertexFrame(s, s.AddEdgePair(v1, v2, nucls, coverage), x);
  }

  lemma AddEdgePairHandles(s: GraphState, v1: VertexId, v2: VertexId, nucls: Nucls, coverage: nat)
    requires s.HandlesValid() && CanAddEdge(s, v1, v2, nucls)
    ensures s.vertices[v2].conjugate in s.vertices
    ensures var t := s.AddEdgePair(v1, v2, nucls, coverage);
            var e := s.nextEdge; var c := t.edges[e].conjugate;
            && e !in s.edges && c !in s.edges
            && t.HandlesValid()
            && t.Start(e) == v1 && t.Start(c) == s.vertices[v2].conjugate
            && (forall f :: f in s.edges ==> t.Start(f) == s.Start(f))
  {
    assert s.VertexValid(v2);
    var t := s.AddEdgePair(v1, v2, nucls, coverage);
    var e := s.nextEdge;
    AddEdgePairNew(s, v1, v2, nucls, coverage);
    var c := t.edges[e].conjugate;
    forall x | x in t.vertices ensures t.VertexValid(x) {
      AddEdgePairVertex(s, v1, v2, nucls, coverage, x);
    }
    forall f | f in t.edges ensures t.EdgeValid(f) {
      if f != e && f != c {
        AddEdgePairOld(s, v1, v2, nucls, coverage, f);
      }
    }
    forall f | f in s.edges ensures t.Start(f) == s.Start(f) {
      AddEdgePairOld(s, v1, v2, nucls, coverage, f);
    }
    AddEdgePairVertex(s, v1, v2, nucls, coverage, v1);
    AddEdgePairVertex(s, v1, v2, nucls, coverage, v2);
  }

  /** AddSingleEdge appends the new edge to v1's list and its twin, when it is
      a separate edge, to the list of conjugate(v2); no other list changes. */
  lemma AddEdgePairOutgoing(s: GraphState, v1: VertexId, v2: VertexId, nucls: Nucls, coverage: nat, x: VertexId)
    requires s.HandlesValid() && CanAddEdge(s, v1, v2, nucls) && x in s.vertices
    ensures s.vertices[v2].conjugate in s.vertices
    ensures var t := s.AddEdgePair(v1, v2, nucls, coverage);
            var e := s.nextEdge; var c := t.edges[e].conjugate; var w := s.vertices[v2].conjugate;
            && x in t.vertices
            && t.vertices[x].outgoing
               == s.vertices[x].outgoing + (if x == v1 then [e] else []) + (if c != e && x == w then [c] else [])
  {
    assert s.VertexValid(v2);
  }

  lemma AddEdgePairStartsAt(s: GraphState, v1: VertexId, v2: VertexId, nucls: Nucls, coverage: nat,
                            x: VertexId, f: EdgeId)
    requires s.HandlesValid() && s.OutgoingStart() && CanAddEdge(s, v1, v2, nucls)
    requires s.vertices[v2].conjugate in s.vertices
    requires var t := s.AddEdgePair(v1, v2, nucls, coverage); x in t.vertices && f in t.vertices[x].outgoing
    ensures var t := s.AddEdgePair(v1, v2, nucls, coverage); f in t.edges && t.Start(f) == x
  {
    assert s.VertexValid(v2);
    AddEdgePairOutgoing(s, v1, v2, nucls, coverage, x);
    if f in s.vertices[x].outgoing {
      AddEdgePairOld(s, v1, v2, nucls, coverage, f);
    } else {
      AddEdgePairNew(s, v1, v2, nucls, coverage);
    }
  }

  lemma AddEdgePairStarts(s: GraphState, v1: VertexId, v2: VertexId, nucls: Nucls, coverage: nat)
    requires s.HandlesValid() && s.OutgoingStart() && CanAddEdge(s, v1, v2, nucls)
    ensures s.vertices[v2].conjugate in s.vertices
    ensures s.AddEdgePair(v1, v2, nucls, coverage).OutgoingStart()
  {
    assert s.VertexValid(v2);
    var t := s.AddEdgePair(v1, v2, nucls, coverage);
    forall x, f | x in t.vertices && f in t.vertices[x].outgoing ensures f in t.edges && t.Start(f) == x {
      AddEdgePairStartsAt(s, v1, v2, nucls, coverage, x, f);
    }
  }

  lemma AddEdgePairListed(s: GraphState, v1: VertexId, v2: VertexId, nucls: Nucls, coverage: nat)
    requires s.HandlesValid() && s.EdgesListed() && CanAddEdge(s, v1, v2, nucls)
    ensures s.vertices[v2].conjugate in s.vertices
    ensures s.AddEdgePair(v1, v2, nucls, coverage).EdgesListed()
  {
    assert s.VertexValid(v2);
    var t := s.AddEdgePair(v1, v2, nucls, coverage);
    AddEdgePairHandles(s, v1, v2, nucls, coverage);
    var e := s.nextEdge;
    var w := s.vertices[v2].conjugate;
    forall f | f in t.edges ensures t.Start(f) in t.vertices && f in t.vertices[t.Start(f)].outgoing {
      if f in s.edges {
        AddEdgePairOld(s, v1, v2, nucls, coverage, f);
        AddEdgePairOutgoing(s, v1, v2, nucls, coverage, s.Start(f));
      } else if f == e {
        AddEdgePairOutgoing(s, v1, v2, nucls, coverage, v1);
      } else {
        AddEdgePairOutgoing(s, v1, v2, nucls, coverage, w);
      }
    }
  }

  lemma AddEdgePairDistinct(s: GraphState, v1: VertexId, v2: VertexId, nucls: Nucls, coverage: nat)
    requires s.HandlesValid() && s.OutgoingStart() && s.ListsDistinct() && CanAddEdge(s, v1, v2, nucls)
    ensures s.vertices[v2].conjugate in s.vertices
    ensures s.AddEdgePair(v1, v2, nucls, coverage).ListsDistinct()
  {
    assert s.VertexValid(v2);
    var t := s.AddEdgePair(v1, v2, nucls, coverage);
    AddEdgePairNew(s, v1, v2, nucls, coverage);
    var e := s.nextEdge;
    var c := t.edges[e].conjugate;
    forall x | x in t.vertices ensures NoDuplicates(t.vertices[x].outgoing) {
      AddEdgePairOutgoing(s, v1, v2, nucls, coverage, x);
      var o := s.vertices[x].outgoing;
      assert e !in o && c !in o;
      NoDuplicatesSnoc(o, e);
      NoDuplicatesSnoc(o, c);
      if c != e {
        NoDuplicatesSnoc(o + [e], c);
      }
    }
  }

  /** The records HiddenAddEdge creates: the edge from v1 to v2 carrying
      nucls and, unless nucls is its own reverse complement, a second edge from
      conjugate(v2) to conjugate(v1) carrying the reverse complement; the two
      are each other's conjugate, and a palindromic edge is its own. Existing
      edges and the vertex set are untouched. */
  lemma AddEdgePairRecords(s: GraphState, v1: VertexId, v2: VertexId, nucls: Nucls, coverage: nat)
    requires s.HandlesValid() && CanAddEdge(s, v1, v2, nucls)
    ensures s.vertices[v2].conjugate in s.vertices
    ensures var t := s.AddEdgePair(v1, v2, nucls, coverage);
            var e := s.nextEdge; var c := t.edges[e].conjugate;
            && e !in s.edges && c !in s.edges
            && t.edges.Keys == s.edges.Keys + {e, c}
            && (c == e <==> nucls == ReverseComplement(nucls))
            && t.edges[e].nucls == nucls && t.edges[e].end == v2 && t.Start(e) == v1
            && t.edges[c].nucls == ReverseComplement(nucls) && t.edges[c].conjugate == e
            && t.edges[c].end == s.vertices[v1].conjugate && t.Start(c) == s.vertices[v2].conjugate
            && t.edges[c].coverage == coverage && t.edges[e].coverage == coverage
  {
    assert s.VertexValid(v2);
    AddEdgePairNew(s, v1, v2, nucls, coverage);
  }

  /** HiddenAddEdge keeps every existing edge and the vertex set. */
  lemma AddEdgePairKeeps(s: GraphState, v1: VertexId, v2: VertexId, nucls: Nucls, coverage: nat)
    requires s.HandlesValid() && CanAddEdge(s, v1, v2, nucls)
    ensures s.vertices[v2].conjugate in s.vertices
    ensures var t := s.AddEdgePair(v1, v2, nucls, coverage);
            && t.vertices.Keys == s.vertices.Keys
            && (forall f :: f in s.edges ==> f in t.edges && t.edges[f] == s.edges[f])
  {
    assert s.VertexValid(v2);
    HandlesBelowNext(s);
  }

  /** HiddenAddEdge keeps the graph well formed. */
  lemma AddEdgePairValid(s: GraphState, v1: VertexId, v2: VertexId, nucls: Nucls, coverage: nat)
    requires s.Valid() && CanAddEdge(s, v1, v2, nucls)
    ensures s.vertices[v2].conjugate in s.vertices
    ensures s.AddEdgePair(v1, v2, nucls, coverage).Valid()
  {
    assert s.VertexValid(v2);
    AddEdgePairHandles(s, v1, v2, nucls, coverage);
    AddEdgePairStarts(s, v1, v2, nucls, coverage);
    AddEdgePairListed(s, v1, v2, nucls, coverage);
    AddEdgePairDistinct(s, v1, v2, nucls, coverage);
  }

  /** The twin of an edge is listed at the conjugate of the edge's end: what
      makes the incoming edges of a vertex the twins of the outgoing edges of
      its conjugate. */
  lemma TwinListedAtConjugateEnd(s: GraphState, f: EdgeId)
    requires s.Valid() && f in s.edges
    ensures var w := s.edges[f].end;
            && w in s.vertices && s.vertices[w].conjugate in s.vertices
            && s.edges[f].conjugate in s.edges
            && s.Start(s.edges[f].conjugate) == s.vertices[w].conjugate
            && s.edges[f].conjugate in s.vertices[s.vertices[w].conjugate].outgoing
  {
    assert s.EdgeValid(f);
    var rc := s.edges[f].conjugate;
    assert s.EdgeValid(rc);
    assert s.VertexValid(s.edges[f].end);
  }

  /** The start of an edge: the vertex whose list holds it. */
  lemma StartListed(s: GraphState, f: EdgeId)
    requires s.Valid() && f in s.edges
    ensures s.Start(f) in s.vertices && f in s.vertices[s.Start(f)].outgoing
  {
  }

  // ---- RemoveEdgePair

  /** Removing an edge pair keeps every vertex with its conjugate and releases
      exactly the edge and its twin. */
  lemma RemoveEdgePairShape(s: GraphState, e: EdgeId)
    requires s.HandlesValid() && e in s.edges
    ensures var t := s.RemoveEdgePair(e);
            && t.k == s.k && t.nextEdge == s.nextEdge && t.nextVertex == s.nextVertex
            && t.vertices.Keys == s.vertices.Keys
            && (forall x :: x in s.vertices ==> t.vertices[x].conjugate == s.vertices[x].conjugate)
            && t.edges == s.edges - {e, s.edges[e].conjugate}
  {
    assert s.EdgeValid(e);
    var rc := s.edges[e].conjugate;
    assert s.EdgeValid(rc);
    assert s.VertexValid(s.edges[e].end) && s.VertexValid(s.edges[rc].end);
  }

  /** Removing an edge takes the edge and its twin, and nothing else, out of
      every outgoing list. */
  lemma RemoveEdgePairOutgoing(s: GraphState, e: EdgeId, x: VertexId)
    requires s.HandlesValid() && s.OutgoingStart() && s.ListsDistinct()
    requires e in s.edges && x in s.vertices
    ensures var t := s.RemoveEdgePair(e); var rc := s.edges[e].conjugate;
            x in t.vertices && t.vertices[x].outgoing == Without(s.vertices[x].outgoing, {e, rc})
  {
    var t := s.RemoveEdgePair(e);
    var rc := s.edges[e].conjugate;
    assert s.EdgeValid(e);
    assert s.EdgeValid(rc);
    var start := s.vertices[s.edges[rc].end].conjugate;
    var rcStart := s.vertices[s.edges[e].end].conjugate;
    assert start == s.Start(e) && rcStart == s.Start(rc);
    var o := s.vertices[x].outgoing;
    assert NoDuplicates(o);
    assert e in o ==> x == start;
    assert rc in o ==> x == rcStart;
    var o1 := if x == start then RemoveFirst(o, e) else o;
    assert t.vertices[x].outgoing == if x == rcStart then RemoveFirst(o1, rc) else o1;
    RemovePairIsWithout(o, e, rc, x == start, x == rcStart);
  }

  /** An edge other than the removed pair keeps its record, its validity and
      its start. */
  lemma RemoveEdgePairOther(s: GraphState, e: EdgeId, f: EdgeId)
    requires s.HandlesValid() && e in s.edges && f in s.edges
    requires f != e && f != s.edges[e].conjugate
    ensures var t := s.RemoveEdgePair(e);
            f in t.edges && t.edges[f] == s.edges[f] && t.EdgeValid(f) && t.Start(f) == s.Start(f)
  {
    var t := s.RemoveEdgePair(e);
    RemoveEdgePairShape(s, e);
    assert s.EdgeValid(e) && s.EdgeValid(f);
    var c := s.edges[f].conjugate;
    assert s.EdgeValid(c);
    assert c != e && c != s.edges[e].conjugate;
    EdgeFrame(s, t, f);
  }

  lemma RemoveEdgePairHandles(s: GraphState, e: EdgeId)
    requires s.HandlesValid() && e in s.edges
    ensures s.RemoveEdgePair(e).HandlesValid()
  {
    var t := s.RemoveEdgePair(e);
    RemoveEdgePairShape(s, e);
    forall x | x in t.vertices ensures t.VertexValid(x) {
      assert s.VertexValid(x);
      VertexFrame(s, t, x);
    }
    forall f | f in t.edges ensures t.EdgeValid(f) {
      RemoveEdgePairOther(s, e, f);
    }
  }

  lemma RemoveEdgePairStartsAt(s: GraphState, e: EdgeId, x: VertexId, f: EdgeId)
    requires s.HandlesValid() && s.OutgoingStart() && s.ListsDistinct() && e in s.edges
    requires var t := s.RemoveEdgePair(e); x in t.vertices && f in t.vertices[x].outgoing
    ensures var t := s.RemoveEdgePair(e); f in t.edges && t.Start(f) == x
  {
    RemoveEdgePairShape(s, e);
    RemoveEdgePairOutgoing(s, e, x);
    RemoveEdgePairOther(s, e, f);
  }

  lemma RemoveEdgePairStarts(s: GraphState, e: EdgeId)
    requires s.HandlesValid() && s.OutgoingStart() && s.ListsDistinct() && e in s.edges
    ensures s.RemoveEdgePair(e).OutgoingStart()
  {
    var t := s.RemoveEdgePair(e);
    forall x, f | x in t.vertices && f in t.vertices[x].outgoing ensures f in t.edges && t.Start(f) == x {
      RemoveEdgePairStartsAt(s, e, x, f);
    }
  }

  lemma RemoveEdgePairListed(s: GraphState, e: EdgeId)
    requires s.HandlesValid() && s.OutgoingStart() && s.ListsDistinct() && s.EdgesListed() && e in s.edges
    ensures s.RemoveEdgePair(e).EdgesListed()
  {
    var t := s.RemoveEdgePair(e);
    forall f | f in t.edges ensures t.Start(f) in t.vertices && f in t.vertices[t.Start(f)].outgoing {
      RemoveEdgePairShape(s, e);
      RemoveEdgePairOther(s, e, f);
      RemoveEdgePairOutgoing(s, e, s.Start(f));
    }
  }

  lemma RemoveEdgePairDistinct(s: GraphState, e: EdgeId)
    requires s.HandlesValid() && s.OutgoingStart() && s.ListsDistinct() && e in s.edges
    ensures s.RemoveEdgePair(e).ListsDistinct()
  {
    var t := s.RemoveEdgePair(e);
    forall x | x in t.vertices ensures NoDuplicates(t.vertices[x].outgoing) {
      RemoveEdgePairShape(s, e);
      RemoveEdgePairOutgoing(s, e, x);
    }
  }

  /** DeleteEdge keeps the graph well formed. */
  lemma RemoveEdgePairValid(s: GraphState, e: EdgeId)
    requires s.Valid() && e in s.edges
    ensures s.RemoveEdgePair(e).Valid()
  {
    RemoveEdgePairHandles(s, e);
    RemoveEdgePairStarts(s, e);
    RemoveEdgePairListed(s, e);
    RemoveEdgePairDistinct(s, e);
  }

  // ---- RemoveVertexPair

  /** IsDeadEnd and IsDeadStart: v has no outgoing and no incoming edges. */
  predicate Isolated(s: GraphState, v: VertexId)
    requires s.HandlesValid() && v in s.vertices
  {
    assert s.VertexValid(v);
    s.vertices[v].outgoing == [] && s.vertices[s.vertices[v].conjugate].outgoing == []
  }

  /** No edge ends at an isolated vertex or at its conjugate. */
  lemma IsolatedNoEnds(s: GraphState, v: VertexId, f: EdgeId)
    requires s.Valid() && v in s.vertices && Isolated(s, v) && f in s.edges
    ensures s.edges[f].end != v && s.edges[f].end != s.vertices[v].conjugate
  {
    assert s.VertexValid(v);
    TwinListedAtConjugateEnd(s, f);
    assert s.VertexValid(s.edges[f].end);
  }

  lemma RemoveVertexPairHandles(s: GraphState, v: VertexId)
    requires s.Valid() && v in s.vertices && Isolated(s, v)
    ensures var t := s.RemoveVertexPair(v);
            && t.HandlesValid()
            && t.vertices.Keys == s.vertices.Keys - {v, s.vertices[v].conjugate}
            && t.edges == s.edges
            && (forall f :: f in s.edges ==> t.Start(f) == s.Start(f))
  {
    var t := s.RemoveVertexPair(v);
    var c := s.vertices[v].conjugate;
    assert s.VertexValid(v);
    forall x | x in t.vertices ensures t.VertexValid(x) {
      assert s.VertexValid(x);
      VertexFrame(s, t, x);
    }
    forall f | f in s.edges ensures t.EdgeValid(f) && t.Start(f) == s.Start(f) {
      assert s.EdgeValid(f) && s.EdgeValid(s.edges[f].conjugate);
      IsolatedNoEnds(s, v, f);
      IsolatedNoEnds(s, v, s.edges[f].conjugate);
      EdgeFrame(s, t, f);
    }
  }

  /** DeleteVertex keeps the graph well formed and removes exactly the vertex
      and its conjugate. */
  lemma RemoveVertexPairValid(s: GraphState, v: VertexId)
    requires s.Valid() && v in s.vertices && Isolated(s, v)
    ensures var t := s.RemoveVertexPair(v);
            && t.Valid()
            && t.vertices.Keys == s.vertices.Keys - {v, s.vertices[v].conjugate}
            && t.edges == s.edges
  {
    var t := s.RemoveVertexPair(v);
    var c := s.vertices[v].conjugate;
    RemoveVertexPairHandles(s, v);
    assert t.OutgoingStart() by {
      forall x, f | x in t.vertices && f in t.vertices[x].outgoing ensures f in t.edges && t.Start(f) == x {
      }
    }
    assert t.EdgesListed() by {
      forall f | f in t.edges ensures t.Start(f) in t.vertices && f in t.vertices[t.Start(f)].outgoing {
        StartListed(s, f);
      }
    }
    assert t.ListsDistinct();
  }

  // ---- Facts about a well-formed state

  /** Conjugation of edges is an involution. */
  lemma EdgeConjugatesInvolution(s: GraphState)
    requires s.HandlesValid()
    ensures Involution(s.EdgeConjugates())
  {
    var m := s.EdgeConjugates();
    forall x | x in m ensures m[x] in m && m[m[x]] == x {
      assert s.EdgeValid(x);
    }
  }

  /** The list of v holds exactly the edges that start at v. */
  lemma OutgoingExactly(s: GraphState, v: VertexId, e: EdgeId)
    requires s.Valid() && v in s.vertices && e in s.edges
    ensures e in s.vertices[v].outgoing <==> s.Start(e) == v
  {
  }

  /** The list of v: the edges that start at v, each longer than k. */
  lemma OutgoingAll(s: GraphState, v: VertexId)
    requires s.Valid() && v in s.vertices
    ensures forall f :: f in s.vertices[v].outgoing ==> f in s.edges && s.Start(f) == v && |s.edges[f].nucls| > s.k
    ensures forall f :: f in s.edges && s.Start(f) == v ==> f in s.vertices[v].outgoing
  {
    forall f | f in s.vertices[v].outgoing ensures f in s.edges && s.Start(f) == v && |s.edges[f].nucls| > s.k {
      assert s.EdgeValid(f);
    }
  }

  /** The twin of an edge listed at conjugate(v) is an edge that ends at v. */
  lemma IncomingTwin(s: GraphState, v: VertexId, f: EdgeId)
    requires s.Valid() && v in s.vertices
    requires s.vertices[v].conjugate in s.vertices && f in s.vertices[s.vertices[v].conjugate].outgoing
    ensures f in s.edges && s.edges[f].conjugate in s.edges
    ensures s.edges[s.edges[f].conjugate].end == v && s.edges[s.edges[f].conjugate].conjugate == f
  {
    assert s.VertexValid(v);
    assert f in s.edges;
    assert s.EdgeValid(f);
    var c := s.edges[f].conjugate;
    assert s.EdgeValid(c);
    assert s.VertexValid(s.edges[c].end);
  }

  /** A self-conjugate edge runs from a vertex to that vertex's conjugate. */
  lemma SelfConjugateEnd(s: GraphState, e: EdgeId)
    requires s.HandlesValid() && e in s.edges && s.edges[e].conjugate == e
    ensures s.edges[e].end in s.vertices && s.Start(e) in s.vertices
    ensures s.edges[e].end == s.vertices[s.Start(e)].conjugate
  {
    assert s.EdgeValid(e);
    assert s.VertexValid(s.edges[e].end);
  }

  /** The edges ending at v are the twins of the edges listed at conjugate(v). */
  lemma IncomingExactly(s: GraphState, v: VertexId, x: EdgeId)
    requires s.Valid() && v in s.vertices
    ensures s.vertices[v].conjugate in s.vertices
    ensures forall f :: f in s.vertices[s.vertices[v].conjugate].outgoing ==> f in s.EdgeConjugates()
    ensures x in ConjugateAll(s.vertices[s.vertices[v].conjugate].outgoing, s.EdgeConjugates())
            <==> x in s.edges && s.edges[x].end == v
  {
    assert s.VertexValid(v);
    var cv := s.vertices[v].conjugate;
    var o := s.vertices[cv].outgoing;
    var m := s.EdgeConjugates();
    assert forall f :: f in o ==> f in m;
    var r := ConjugateAll(o, m);
    if x in r {
      var i :| 0 <= i < |r| && r[i] == x;
      IncomingTwin(s, v, o[i]);
    }
    if x in s.edges && s.edges[x].end == v {
      TwinListedAtConjugateEnd(s, x);
      assert s.EdgeValid(x);
      var i :| 0 <= i < |o| && o[i] == s.edges[x].conjugate;
      assert s.EdgeValid(o[i]);
      assert r[i] == x;
    }
  }

  /** The twins of the edges leaving conjugate(v) are exactly the edges
      ending at v. */
  lemma IncomingAll(s: GraphState, v: VertexId)
    requires s.Valid() && v in s.vertices
    ensures s.vertices[v].conjugate in s.vertices
    ensures forall f :: f in s.vertices[s.vertices[v].conjugate].outgoing ==> f in s.EdgeConjugates()
    ensures forall x :: x in ConjugateAll(s.vertices[s.vertices[v].conjugate].outgoing, s.EdgeConjugates())
                     <==> x in s.edges && s.edges[x].end == v
  {
    assert s.VertexValid(v);
    forall x ensures x in ConjugateAll(s.vertices[s.vertices[v].conjugate].outgoing, s.EdgeConjugates())
                     <==> x in s.edges && s.edges[x].end == v {
      IncomingExactly(s, v, x);
    }
  }

  ghost function StartingAt(s: GraphState, v: VertexId): set<EdgeId> {
    set e | e in s.edges && s.Start(e) == v
  }

  ghost function EndingAt(s: GraphState, v: VertexId): set<EdgeId> {
    set e | e in s.edges && s.edges[e].end == v
  }

  /** As many edges start at v as v lists. */
  lemma StartingAtCount(s: GraphState, v: VertexId)
    requires s.Valid() && v in s.vertices
    ensures StartingAt(s, v) == Elems(s.vertices[v].outgoing)
    ensures |StartingAt(s, v)| == |s.vertices[v].outgoing|
  {
    NoDuplicatesCard(s.vertices[v].outgoing);
  }

  /** As many edges end at v as conjugate(v) lists. */
  lemma EndingAtCount(s: GraphState, v: VertexId)
    requires s.Valid() && v in s.vertices
    ensures s.vertices[v].conjugate in s.vertices
    ensures |EndingAt(s, v)| == |s.vertices[s.vertices[v].conjugate].outgoing|
  {
    assert s.VertexValid(v);
    var o := s.vertices[s.vertices[v].conjugate].outgoing;
    var m := s.EdgeConjugates();
    IncomingExactly(s, v, 0);
    var r := ConjugateAll(o, m);
    forall x ensures x in EndingAt(s, v) <==> x in Elems(r) {
      IncomingExactly(s, v, x);
    }
    assert EndingAt(s, v) == Elems(r);
    EdgeConjugatesInvolution(s);
    ConjugateAllDistinct(o, m);
    NoDuplicatesCard(r);
  }

  // ---- Removing sets of edges

  /** Removing the closure of v's own list leaves v with no outgoing edge. */
  lemma RemoveOwnList(s: GraphState, v: VertexId)
    requires v in s.vertices
    ensures var r := s.RemoveEdges(ConjClosure(Elems(s.vertices[v].outgoing), s.EdgeConjugates()));
            v in r.vertices && r.vertices[v].outgoing == []
  {
    var o := s.vertices[v].outgoing;
    WithoutEverything(o, ConjClosure(Elems(o), s.EdgeConjugates()));
  }

  lemma RemoveEdgesNothing(s: GraphState)
    ensures s.RemoveEdges({}) == s
  {
    var t := s.RemoveEdges({});
    forall x | x in s.vertices ensures t.vertices[x] == s.vertices[x] {
      WithoutNothingRemoved(s.vertices[x].outgoing, {});
    }
    assert t.vertices == s.vertices;
    assert t.edges == s.edges;
  }

  /** Taking keys away twice is taking their union away. */
  lemma MapMinusUnion<K, V>(m: map<K, V>, a: set<K>, b: set<K>)
    ensures (m - a) - b == m - (a + b)
  {
  }

  lemma RemoveEdgesTwiceAt(s: GraphState, d1: set<EdgeId>, d2: set<EdgeId>, x: VertexId)
    requires x in s.vertices
    ensures x in s.RemoveEdges(d1).RemoveEdges(d2).vertices && x in s.RemoveEdges(d1 + d2).vertices
    ensures s.RemoveEdges(d1).RemoveEdges(d2).vertices[x] == s.RemoveEdges(d1 + d2).vertices[x]
  {
    var o := s.vertices[x].outgoing;
    var r1 := s.RemoveEdges(d1);
    assert r1.vertices[x] == s.vertices[x].(outgoing := Without(o, d1));
    assert s.RemoveEdges(d1).RemoveEdges(d2).vertices[x] == s.vertices[x].(outgoing := Without(Without(o, d1), d2));
    assert s.RemoveEdges(d1 + d2).vertices[x] == s.vertices[x].(outgoing := Without(o, d1 + d2));
    WithoutTwice(o, d1, d2);
  }

  lemma RemoveEdgesTwiceVertices(s: GraphState, d1: set<EdgeId>, d2: set<EdgeId>)
    ensures s.RemoveEdges(d1).RemoveEdges(d2).vertices == s.RemoveEdges(d1 + d2).vertices
  {
    var t := s.RemoveEdges(d1).RemoveEdges(d2).vertices;
    var u := s.RemoveEdges(d1 + d2).vertices;
    RemoveEdgesVertexConjugates(s, d1);
    RemoveEdgesVertexConjugates(s.RemoveEdges(d1), d2);
    RemoveEdgesVertexConjugates(s, d1 + d2);
    forall x | x in s.vertices ensures t[x] == u[x] {
      RemoveEdgesTwiceAt(s, d1, d2, x);
    }
  }

  lemma RemoveEdgesTwice(s: GraphState, d1: set<EdgeId>, d2: set<EdgeId>)
    ensures s.RemoveEdges(d1).RemoveEdges(d2) == s.RemoveEdges(d1 + d2)
  {
    RemoveEdgesTwiceVertices(s, d1, d2);
    MapMinusUnion(s.edges, d1, d2);
  }

  /** One vertex in RemoveEdgesStep. */
  lemma RemoveEdgesStepAt(s: GraphState, d: set<EdgeId>, e: EdgeId, x: VertexId)
    requires s.RemoveEdges(d).Valid() && e in s.RemoveEdges(d).edges && x in s.vertices
    ensures x in s.RemoveEdges(d).vertices
    ensures s.RemoveEdges(d).RemoveEdgePair(e).vertices[x] == s.RemoveEdges(d + {e, s.edges[e].conjugate}).vertices[x]
  {
    var t := s.RemoveEdges(d);
    var rc := s.edges[e].conjugate;
    RemoveEdgePairShape(t, e);
    RemoveEdgePairOutgoing(t, e, x);
    WithoutTwice(s.vertices[x].outgoing, d, {e, rc});
  }

  lemma RemoveEdgesStepVertices(s: GraphState, d: set<EdgeId>, e: EdgeId)
    requires s.RemoveEdges(d).Valid() && e in s.RemoveEdges(d).edges
    ensures s.RemoveEdges(d).RemoveEdgePair(e).vertices == s.RemoveEdges(d + {e, s.edges[e].conjugate}).vertices
  {
    var a := s.RemoveEdges(d).RemoveEdgePair(e);
    var b := s.RemoveEdges(d + {e, s.edges[e].conjugate});
    RemoveEdgePairShape(s.RemoveEdges(d), e);
    assert a.vertices.Keys == b.vertices.Keys;
    forall x | x in a.vertices ensures a.vertices[x] == b.vertices[x] {
      RemoveEdgesStepAt(s, d, e, x);
    }
  }

  /** Deleting one more edge pair from a state with the edges of d removed is
      removing d and the pair. */
  lemma RemoveEdgesStep(s: GraphState, d: set<EdgeId>, e: EdgeId)
    requires s.RemoveEdges(d).Valid() && e in s.RemoveEdges(d).edges
    ensures s.RemoveEdges(d).RemoveEdgePair(e) == s.RemoveEdges(d + {e, s.edges[e].conjugate})
  {
    RemoveEdgesStepVertices(s, d, e);
    RemoveEdgesStepEdges(s, d, e);
  }

  lemma RemoveEdgesStepEdges(s: GraphState, d: set<EdgeId>, e: EdgeId)
    requires s.RemoveEdges(d).HandlesValid() && e in s.RemoveEdges(d).edges
    ensures var a := s.RemoveEdges(d).RemoveEdgePair(e);
            && a.edges == s.RemoveEdges(d + {e, s.edges[e].conjugate}).edges
            && a.k == s.k && a.nextVertex == s.nextVertex && a.nextEdge == s.nextEdge
  {
    RemoveEdgePairShape(s.RemoveEdges(d), e);
  }

  /** The edges that start or end at v or at its conjugate. */
  ghost function Touching(s: GraphState, v: VertexId): set<EdgeId>
    requires v in s.vertices
  {
    var c := s.vertices[v].conjugate;
    set f | f in s.edges && (s.Start(f) == v || s.Start(f) == c || s.edges[f].end == v || s.edges[f].end == c)
  }

  /** How an edge and its twin sit at a vertex pair v, conjugate(v). */
  lemma TwinEnds(s: GraphState, v: VertexId, f: EdgeId)
    requires s.Valid() && v in s.vertices && f in s.edges
    ensures var c := s.vertices[v].conjugate; var rc := s.edges[f].conjugate;
            && c in s.vertices && rc in s.edges && s.edges[rc].conjugate == f
            && (s.Start(rc) == v <==> s.edges[f].end == c)
            && (s.Start(rc) == c <==> s.edges[f].end == v)
  {
    assert s.VertexValid(v);
    assert s.EdgeValid(f);
    TwinListedAtConjugateEnd(s, f);
    assert s.VertexValid(s.edges[f].end);
  }

  /** A hairpin: an edge e from v to conjugate(v) that is not its own twin.
      Its twin also leaves v, so v's list holds both edges of the pair, and
      once DeleteEdge(e) has released the pair the twin is no longer there
      for the DeleteEdge that follows it in the copied list. */
  lemma HairpinTwinListed(s: GraphState, e: EdgeId)
    requires s.Valid() && e in s.edges && s.edges[e].conjugate != e
    requires s.Start(e) in s.vertices && s.edges[e].end == s.vertices[s.Start(e)].conjugate
    ensures var v := s.Start(e); var rc := s.edges[e].conjugate;
            && e in s.vertices[v].outgoing && rc in s.vertices[v].outgoing
            && !PairFree(s.vertices[v].outgoing, s.EdgeConjugates())
            && rc !in s.RemoveEdgePair(e).edges
  {
    var v := s.Start(e);
    var rc := s.edges[e].conjugate;
    var o := s.vertices[v].outgoing;
    TwinEnds(s, v, e);
    StartListed(s, e);
    StartListed(s, rc);
    var i :| 0 <= i < |o| && o[i] == rc;
    var j :| 0 <= j < |o| && o[j] == e;
    assert o[i] == s.EdgeConjugates()[o[j]];
    RemoveEdgePairShape(s, e);
  }

  /** The edge f is deleted by ForceDeleteVertex(v) exactly when it touches v
      or conjugate(v). */
  lemma TouchingClosuresAt(s: GraphState, v: VertexId, f: EdgeId)
    requires s.Valid() && v in s.vertices
    ensures s.vertices[v].conjugate in s.vertices
    ensures var c := s.vertices[v].conjugate; var m := s.EdgeConjugates();
            var c1 := ConjClosure(Elems(s.vertices[v].outgoing), m);
            f in ConjClosure(Elems(Without(s.vertices[c].outgoing, c1)), m) + c1 <==> f in Touching(s, v)
  {
    assert s.VertexValid(v);
    var c := s.vertices[v].conjugate;
    var m := s.EdgeConjugates();
    EdgeConjugatesInvolution(s);
    var a := s.vertices[v].outgoing;
    var b := s.vertices[c].outgoing;
    var c1 := ConjClosure(Elems(a), m);
    var bs := Elems(Without(b, c1));
    ConjClosureMember(Elems(a), m, f);
    ConjClosureMember(bs, m, f);
    if f in s.edges {
      var rc := s.edges[f].conjugate;
      TwinEnds(s, v, f);
      OutgoingExactly(s, v, f);
      OutgoingExactly(s, c, f);
      OutgoingExactly(s, v, rc);
      OutgoingExactly(s, c, rc);
      ConjClosureMember(Elems(a), m, rc);
      assert (f in c1 || f in ConjClosure(bs, m)) <==> (f in a || rc in a || f in b || rc in b);
    }
  }

  /** ForceDeleteVertex(v) removes the edges touching v or its conjugate: the
      closure of v's list, then the closure of what remains in conjugate(v)'s. */
  lemma TouchingClosures(s: GraphState, v: VertexId)
    requires s.Valid() && v in s.vertices
    ensures s.vertices[v].conjugate in s.vertices
    ensures var c := s.vertices[v].conjugate; var m := s.EdgeConjugates();
            var c1 := ConjClosure(Elems(s.vertices[v].outgoing), m);
            ConjClosure(Elems(Without(s.vertices[c].outgoing, c1)), m) + c1 == Touching(s, v)
  {
    assert s.VertexValid(v);
    forall f ensures f in ConjClosure(Elems(Without(s.vertices[s.vertices[v].conjugate].outgoing,
                                                    ConjClosure(Elems(s.vertices[v].outgoing), s.EdgeConjugates()))),
                                      s.EdgeConjugates())
                        + ConjClosure(Elems(s.vertices[v].outgoing), s.EdgeConjugates())
                     <==> f in Touching(s, v) {
      TouchingClosuresAt(s, v, f);
    }
  }

  /** The closure of a growing prefix of a list of edges: each element adds
      itself and its twin, which were there already if it was. */
  lemma ClosureStep(s: GraphState, out: seq<EdgeId>, i: nat)
    requires s.HandlesValid() && (forall f :: f in out ==> f in s.edges) && i < |out|
    ensures var m := s.EdgeConjugates(); var c := ConjClosure(Elems(out[..i]), m);
            && ConjClosure(Elems(out[..i + 1]), m) == c + {out[i], s.edges[out[i]].conjugate}
            && (out[i] in c ==> ConjClosure(Elems(out[..i + 1]), m) == c)
  {
    var m := s.EdgeConjugates();
    EdgeConjugatesInvolution(s);
    assert out[..i + 1] == out[..i] + [out[i]];
    ConjClosureSnoc(out[..i], out[i], m);
    assert forall y :: y in Elems(out[..i]) ==> y in m;
    ConjClosureMember(Elems(out[..i]), m, out[i]);
  }

  /** One step of DeleteAllOutgoing: deleting the i-th edge of the list, when
      it is still there, removes the closure of the next prefix. */
  lemma DeleteStep(s: GraphState, out: seq<EdgeId>, i: nat)
    requires s.Valid() && (forall f :: f in out ==> f in s.edges) && i < |out|
    requires var t := s.RemoveEdges(ConjClosure(Elems(out[..i]), s.EdgeConjugates()));
             t.Valid() && out[i] in t.edges
    ensures s.RemoveEdges(ConjClosure(Elems(out[..i]), s.EdgeConjugates())).RemoveEdgePair(out[i])
            == s.RemoveEdges(ConjClosure(Elems(out[..i + 1]), s.EdgeConjugates()))
  {
    ClosureStep(s, out, i);
    RemoveEdgesStep(s, ConjClosure(Elems(out[..i]), s.EdgeConjugates()), out[i]);
  }

  /** The other step: an edge already removed leaves the closure as it is. */
  lemma SkipStep(s: GraphState, out: seq<EdgeId>, i: nat)
    requires s.Valid() && (forall f :: f in out ==> f in s.edges) && i < |out|
    requires out[i] !in s.RemoveEdges(ConjClosure(Elems(out[..i]), s.EdgeConjugates())).edges
    ensures ConjClosure(Elems(out[..i + 1]), s.EdgeConjugates()) == ConjClosure(Elems(out[..i]), s.EdgeConjugates())
  {
    ClosureStep(s, out, i);
  }

  /** In a pair-free list no edge is removed before its turn. */
  lemma PairFreeStep(s: GraphState, out: seq<EdgeId>, i: nat)
    requires s.HandlesValid() && (forall f :: f in out ==> f in s.edges) && i < |out|
    requires NoDuplicates(out) && PairFree(out, s.EdgeConjugates())
    ensures out[i] !in ConjClosure(Elems(out[..i]), s.EdgeConjugates())
  {
    var conj := s.EdgeConjugates();
    EdgeConjugatesInvolution(s);
    assert forall y :: y in Elems(out[..i]) ==> y in conj;
    ConjClosureMember(Elems(out[..i]), conj, out[i]);
    forall j | 0 <= j < i ensures out[j] != out[i] && out[j] != conj[out[i]] {
      assert out[i] != conj[out[j]];
    }
  }

  /** Whether the i-th edge of the list is still there: exactly when it is not
      in the closure of the edges before it. */
  lemma PresentStep(s: GraphState, out: seq<EdgeId>, i: nat)
    requires (forall f :: f in out ==> f in s.edges) && i < |out|
    ensures out[i] in s.RemoveEdges(ConjClosure(Elems(out[..i]), s.EdgeConjugates())).edges
            <==> out[i] !in ConjClosure(Elems(out[..i]), s.EdgeConjugates())
  {
  }

  /** Removing edges outside xs changes neither the closure of xs nor which of
      its edges come first in their pair. */
  lemma RemainingConjugates(s: GraphState, d: set<EdgeId>, xs: seq<EdgeId>)
    requires forall f :: f in xs ==> f in s.edges && f !in d
    ensures ConjClosure(Elems(xs), s.RemoveEdges(d).EdgeConjugates()) == ConjClosure(Elems(xs), s.EdgeConjugates())
    ensures FirstOfPairs(xs, s.RemoveEdges(d).EdgeConjugates()) == FirstOfPairs(xs, s.EdgeConjugates())
  {
    ConjClosureAgree(Elems(xs), s.RemoveEdges(d).EdgeConjugates(), s.EdgeConjugates());
    FirstOfPairsAgree(xs, s.RemoveEdges(d).EdgeConjugates(), s.EdgeConjugates());
  }

  /** What the first DeleteAllOutgoing call of ForceDeleteVertex(v) leaves
      in conjugate(v)'s list: the edges not yet removed, whose twins are as
      they were. */
  lemma ForceDeleteRest(s: GraphState, v: VertexId)
    requires s.Valid() && v in s.vertices
    ensures s.vertices[v].conjugate in s.vertices
    ensures var m := s.EdgeConjugates(); var c1 := ConjClosure(Elems(s.vertices[v].outgoing), m);
            var t := s.RemoveEdges(c1); var rest := t.vertices[s.vertices[v].conjugate].outgoing;
            && rest == Without(s.vertices[s.vertices[v].conjugate].outgoing, c1)
            && ConjClosure(Elems(rest), t.EdgeConjugates()) == ConjClosure(Elems(rest), m)
            && FirstOfPairs(rest, t.EdgeConjugates()) == FirstOfPairs(rest, m)
  {
    assert s.VertexValid(v);
    var m := s.EdgeConjugates();
    var c := s.vertices[v].conjugate;
    var c1 := ConjClosure(Elems(s.vertices[v].outgoing), m);
    var rest := Without(s.vertices[c].outgoing, c1);
    assert s.RemoveEdges(c1).vertices[c].outgoing == rest;
    RemainingConjugates(s, c1, rest);
  }

  /** The two DeleteAllOutgoing calls of ForceDeleteVertex(v), the second one
      working on what the first left, together remove the edges touching v. */
  lemma ForceDeleteEdges(s: GraphState, v: VertexId)
    requires s.Valid() && v in s.vertices
    ensures s.vertices[v].conjugate in s.vertices
    ensures var t := s.RemoveEdges(ConjClosure(Elems(s.vertices[v].outgoing), s.EdgeConjugates()));
            var rest := t.vertices[s.vertices[v].conjugate].outgoing;
            t.RemoveEdges(ConjClosure(Elems(rest), t.EdgeConjugates())) == s.RemoveEdges(Touching(s, v))
  {
    ForceDeleteRest(s, v);
    var m := s.EdgeConjugates();
    var c1 := ConjClosure(Elems(s.vertices[v].outgoing), m);
    var rest := s.RemoveEdges(c1).vertices[s.vertices[v].conjugate].outgoing;
    var c2 := ConjClosure(Elems(rest), m);
    RemoveEdgesTwice(s, c1, c2);
    TouchingClosures(s, v);
    assert c1 + c2 == Touching(s, v);
  }

  // ---- Deleting a path

  lemma VertexConjugatesInvolution(s: GraphState)
    requires s.HandlesValid()
    ensures Involution(s.VertexConjugates())
  {
    var m := s.VertexConjugates();
    forall x | x in m ensures m[x] in m && m[m[x]] == x {
      assert s.VertexValid(x);
    }
  }

  /** One turn of CollectPath's loop on values: the edge path[i+1] joins the
      edge representatives unless its twin is there, and its start joins the
      vertex representatives unless the start's twin is there. */
  lemma CollectFacts(s: GraphState, path: seq<EdgeId>, i: nat)
    requires s.Valid() && (forall e :: e in path ==> e in s.edges) && i + 1 < |path|
    ensures var m := s.EdgeConjugates(); var e := path[i + 1];
            Elems(FirstOfPairs(path[..i + 2], m))
              == if s.edges[e].conjugate in Elems(FirstOfPairs(path[..i + 1], m)) then Elems(FirstOfPairs(path[..i + 1], m))
                 else Elems(FirstOfPairs(path[..i + 1], m)) + {e}
    ensures var vm := s.VertexConjugates(); var starts := s.InteriorStarts(path); var v := s.Start(path[i + 1]);
            v in s.vertices &&
            Elems(FirstOfPairs(starts[..i + 1], vm))
              == if s.vertices[v].conjugate in Elems(FirstOfPairs(starts[..i], vm)) then Elems(FirstOfPairs(starts[..i], vm))
                 else Elems(FirstOfPairs(starts[..i], vm)) + {v}
  {
    EdgeConjugatesInvolution(s);
    FirstOfPairsSetStep(path, i + 1, s.EdgeConjugates());
    CollectVertexFacts(s, path, i);
  }

  lemma CollectVertexFacts(s: GraphState, path: seq<EdgeId>, i: nat)
    requires s.Valid() && (forall e :: e in path ==> e in s.edges) && i + 1 < |path|
    ensures var vm := s.VertexConjugates(); var starts := s.InteriorStarts(path); var v := s.Start(path[i + 1]);
            v in s.vertices &&
            Elems(FirstOfPairs(starts[..i + 1], vm))
              == if s.vertices[v].conjugate in Elems(FirstOfPairs(starts[..i], vm)) then Elems(FirstOfPairs(starts[..i], vm))
                 else Elems(FirstOfPairs(starts[..i], vm)) + {v}
  {
    var vm := s.VertexConjugates();
    var starts := s.InteriorStarts(path);
    VertexConjugatesInvolution(s);
    InteriorStartsListed(s, path);
    assert starts[i] == s.Start(path[i + 1]);
    FirstOfPairsSetStep(starts, i, vm);
  }

  /** The interior starts of a path are vertices. */
  lemma InteriorStartsListed(s: GraphState, path: seq<EdgeId>)
    requires s.Valid() && (forall e :: e in path ==> e in s.edges)
    ensures forall x :: x in s.InteriorStarts(path) ==> x in s.vertices
  {
    var starts := s.InteriorStarts(path);
    forall x | x in starts ensures x in s.vertices {
      var j :| 0 <= j < |starts| && starts[j] == x;
      assert path[j + 1] in s.edges;
    }
  }

  /** Removing edges leaves the vertices and their conjugates alone. */
  lemma RemoveEdgesVertexConjugates(s: GraphState, d: set<EdgeId>)
    ensures s.RemoveEdges(d).VertexConjugates() == s.VertexConjugates()
    ensures s.RemoveEdges(d).vertices.Keys == s.vertices.Keys
  {
  }

  lemma RemoveVerticesNothing(s: GraphState)
    ensures s.RemoveVertices({}) == s
  {
    assert s.vertices - {} == s.vertices;
  }

  /** A set of edges DeletePath may delete one by one: present, and holding
      at most one edge of each conjugate pair. */
  ghost predicate EdgeReps(s: GraphState, reps: set<EdgeId>) {
    s.Valid() && (forall f :: f in reps ==> f in s.edges) && SetPairFree(reps, s.EdgeConjugates())
  }

  /** A set of vertices DeletePath may delete one by one: present, holding at
      most one vertex of each conjugate pair, and each without edges, as is its
      conjugate. */
  ghost predicate VertexReps(s: GraphState, reps: set<VertexId>) {
    && s.Valid() && (forall y :: y in reps ==> y in s.vertices) && SetPairFree(reps, s.VertexConjugates())
    && (forall y :: y in reps ==> s.vertices[y].outgoing == [] && s.vertices[y].conjugate in s.vertices
                                  && s.vertices[s.vertices[y].conjugate].outgoing == [])
  }

  /** A step of DeletePath's edge loop: an edge of a pair-free set, not yet
      handled, is still there, and deleting it removes its pair. */
  lemma EdgeSetStep(s: GraphState, reps: set<EdgeId>, done: set<EdgeId>, e: EdgeId)
    requires EdgeReps(s, reps) && done <= reps && e in reps && e !in done
    requires s.RemoveEdges(ConjClosure(done, s.EdgeConjugates())).Valid()
    ensures e in s.RemoveEdges(ConjClosure(done, s.EdgeConjugates())).edges
    ensures s.RemoveEdges(ConjClosure(done, s.EdgeConjugates())).RemoveEdgePair(e)
         == s.RemoveEdges(ConjClosure(done + {e}, s.EdgeConjugates()))
  {
    var m := s.EdgeConjugates();
    EdgeConjugatesInvolution(s);
    assert forall y :: y in done ==> y in m;
    ConjClosureMember(done, m, e);
    assert forall y :: y in done ==> y != m[e];
    RemoveEdgesStep(s, ConjClosure(done, m), e);
    ConjClosureAdd(done, e, m);
  }

  /** A step of DeletePath's vertex loop: a vertex of a pair-free set, not yet
      handled, is still there with its conjugate, and deleting it removes the
      pair. */
  lemma VertexSetStep(s: GraphState, reps: set<VertexId>, done: set<VertexId>, x: VertexId)
    requires VertexReps(s, reps) && done <= reps && x in reps && x !in done
    ensures var t := s.RemoveVertices(ConjClosure(done, s.VertexConjugates()));
            && x in t.vertices && t.vertices[x] == s.vertices[x]
            && s.vertices[x].conjugate in t.vertices
            && t.vertices[s.vertices[x].conjugate] == s.vertices[s.vertices[x].conjugate]
            && t.RemoveVertexPair(x) == s.RemoveVertices(ConjClosure(done + {x}, s.VertexConjugates()))
  {
    var m := s.VertexConjugates();
    VertexConjugatesInvolution(s);
    assert s.VertexValid(x);
    assert forall y :: y in done ==> y in m;
    ConjClosureMember(done, m, x);
    ConjClosureMember(done, m, m[x]);
    assert forall y :: y in done ==> y != m[x];
    ConjClosureAdd(done, x, m);
    var t := s.RemoveVertices(ConjClosure(done, m));
    assert t.RemoveVertexPair(x).vertices == s.RemoveVertices(ConjClosure(done + {x}, m)).vertices;
  }

  /** Once the edges of a deletable path and their twins are gone, a vertex
      inside the path and its conjugate are left without edges. */
  lemma PathEmptiedAt(s: GraphState, path: seq<EdgeId>, x: VertexId)
    requires s.Valid() && (forall e :: e in path ==> e in s.edges) && s.CanDeletePath(path)
    requires x in s.InteriorStarts(path)
    ensures x in s.vertices && s.vertices[x].conjugate in s.vertices
    ensures var t := s.RemoveEdges(ConjClosure(Elems(path), s.EdgeConjugates()));
            t.vertices[x].outgoing == [] && t.vertices[s.vertices[x].conjugate].outgoing == []
  {
    var d := ConjClosure(Elems(path), s.EdgeConjugates());
    var starts := s.InteriorStarts(path);
    var i :| 0 <= i < |starts| && starts[i] == x;
    assert path[i + 1] in s.edges;
    assert x in s.vertices;
    assert s.VertexValid(x);
    var c := s.vertices[x].conjugate;
    assert forall f :: f in s.vertices[x].outgoing ==> f in d;
    assert forall f :: f in s.vertices[c].outgoing ==> f in d;
    WithoutEverything(s.vertices[x].outgoing, d);
    WithoutEverything(s.vertices[c].outgoing, d);
  }

  lemma PathEmptied(s: GraphState, path: seq<EdgeId>)
    requires s.Valid() && (forall e :: e in path ==> e in s.edges) && s.CanDeletePath(path)
    ensures forall x :: x in s.InteriorStarts(path) ==> x in s.vertices && s.vertices[x].conjugate in s.vertices
    ensures var t := s.RemoveEdges(ConjClosure(Elems(path), s.EdgeConjugates()));
            forall x :: x in s.InteriorStarts(path) ==>
              t.vertices[x].outgoing == [] && t.vertices[s.vertices[x].conjugate].outgoing == []
  {
    forall x | x in s.InteriorStarts(path)
      ensures x in s.vertices && s.vertices[x].conjugate in s.vertices
      ensures var t := s.RemoveEdges(ConjClosure(Elems(path), s.EdgeConjugates()));
              t.vertices[x].outgoing == [] && t.vertices[s.vertices[x].conjugate].outgoing == []
    {
      PathEmptiedAt(s, path, x);
    }
  }

  /** A vertex listing an edge that is not deleted with the path is not
      deleted by DeletePath, and neither is its conjugate. */
  lemma KeptByDeletePath(s: GraphState, path: seq<EdgeId>, x: VertexId, f: EdgeId)
    requires s.Valid() && (forall e :: e in path ==> e in s.edges) && s.CanDeletePath(path)
    requires x in s.vertices && f in s.vertices[x].outgoing
    requires f !in ConjClosure(Elems(path), s.EdgeConjugates())
    ensures var kill := ConjClosure(Elems(s.InteriorStarts(path)), s.VertexConjugates());
            x !in kill && s.vertices[x].conjugate !in kill
  {
    var vm := s.VertexConjugates();
    var starts := s.InteriorStarts(path);
    VertexConjugatesInvolution(s);
    assert s.VertexValid(x);
    var c := s.vertices[x].conjugate;
    assert forall y :: y in starts ==> y in s.vertices by {
      PathEmptied(s, path);
    }
    ConjClosureMember(Elems(starts), vm, x);
    ConjClosureMember(Elems(starts), vm, c);
    assert x !in starts;
    assert c !in starts;
  }
}
