/** GlueEdges as values: a copy of edge2 is added from edge2's start to its
    end, edge1 is deleted, and each end of edge1 left without edges goes with
    its conjugate. Two versions: the code as it stands, which deletes edge1
    only, and the corrected one, which deletes edge2 as well. */
module Gluing {
  import opened Nucleotides
  import opened Handles
  import opened GraphStates

  /** The HiddenAddEdge of GlueEdges is always possible: a copy of an edge,
      from its start to its end, meets every demand HiddenAddEdge makes. */
  lemma CopyAddable(s: GraphState, e2: EdgeId)
    requires s.Valid() && e2 in s.edges
    ensures CanAddEdge(s, s.Start(e2), s.edges[e2].end, s.edges[e2].nucls)
    ensures s.vertices[s.edges[e2].end].conjugate in s.vertices
  {
    StartListed(s, e2);
    assert s.EdgeValid(e2);
    assert s.VertexValid(s.edges[e2].end);
    if s.edges[e2].nucls == ReverseComplement(s.edges[e2].nucls) {
      SelfConjugateEnd(s, e2);
    }
  }

  /** The state after the HiddenAddEdge of GlueEdges. */
  function GlueAdded(s: GraphState, e2: EdgeId): GraphState
    requires s.Valid() && e2 in s.edges
  {
    CopyAddable(s, e2);
    s.AddEdgePair(s.Start(e2), s.edges[e2].end, s.edges[e2].nucls, DefaultCoverage)
  }

  /** n is an edge from v1 to v2 carrying nucls. */
  ghost predicate EdgeLike(s: GraphState, n: EdgeId, v1: VertexId, v2: VertexId, nucls: Nucls) {
    n in s.edges && s.Start(n) == v1 && s.edges[n].end == v2 && s.edges[n].nucls == nucls
  }

  /** The copy runs parallel to e2 and carries its sequence; every edge that
      was there keeps its record and its start. */
  lemma GlueAddedFacts(s: GraphState, e2: EdgeId)
    requires s.Valid() && e2 in s.edges
    ensures var t := GlueAdded(s, e2); var n := s.nextEdge;
            && t.Valid() && t.vertices.Keys == s.vertices.Keys
            && EdgeLike(t, n, s.Start(e2), s.edges[e2].end, s.edges[e2].nucls)
            && n !in s.edges && t.edges[n].conjugate !in s.edges
            && t.edges.Keys == s.edges.Keys + {n, t.edges[n].conjugate}
            && (forall f :: f in s.edges ==> f in t.edges && t.edges[f] == s.edges[f] && t.Start(f) == s.Start(f))
  {
    CopyAddable(s, e2);
    var v1, v2, nucls := s.Start(e2), s.edges[e2].end, s.edges[e2].nucls;
    AddEdgePairValid(s, v1, v2, nucls, DefaultCoverage);
    AddEdgePairRecords(s, v1, v2, nucls, DefaultCoverage);
    AddEdgePairKeeps(s, v1, v2, nucls, DefaultCoverage);
    forall f | f in s.edges
      ensures var t := GlueAdded(s, e2); f in t.edges && t.edges[f] == s.edges[f] && t.Start(f) == s.Start(f)
    {
      AddEdgePairOld(s, v1, v2, nucls, DefaultCoverage, f);
    }
  }

  /** IsDeadStart(v) && IsDeadEnd(v), then DeleteVertex(v): v and its
      conjugate go when no edge starts or ends at v. A vertex that is no
      longer there is left alone. */
  function RemoveIfDead(t: GraphState, v: VertexId): GraphState
    requires t.HandlesValid()
  {
    if v in t.vertices && Isolated(t, v) then t.RemoveVertexPair(v) else t
  }

  /** The vertex RemoveIfDead deletes, if any. */
  function DeadList(t: GraphState, v: VertexId): (r: seq<VertexId>)
    requires t.HandlesValid()
    ensures |r| <= 1
  {
    if v in t.vertices && Isolated(t, v) then [v] else []
  }

  /** RemoveIfDead keeps the graph well formed, keeps every edge and its
      start, and removes exactly the listed vertex and its conjugate. */
  lemma RemoveIfDeadKeeps(t: GraphState, v: VertexId)
    requires t.Valid()
    ensures var r := RemoveIfDead(t, v); var d := DeadList(t, v);
            && r.Valid() && r.edges == t.edges && r.nextEdge == t.nextEdge
            && (forall f :: f in t.edges ==> r.Start(f) == t.Start(f))
            && (d == [] ==> r == t)
            && (d != [] ==> v in t.vertices && r.vertices.Keys == t.vertices.Keys - {v, t.vertices[v].conjugate})
  {
    if v in t.vertices && Isolated(t, v) {
      RemoveVertexPairValid(t, v);
      RemoveVertexPairHandles(t, v);
    }
  }

  /** The two vertex checks at the end of GlueEdges, start first. */
  function GlueTail(t: GraphState, start: VertexId, end: VertexId): GraphState
    requires t.Valid()
  {
    RemoveIfDeadKeeps(t, start);
    RemoveIfDead(RemoveIfDead(t, start), end)
  }

  /** The vertices the two checks delete, in order. */
  function GlueTailDeaths(t: GraphState, start: VertexId, end: VertexId): (r: seq<VertexId>)
    requires t.Valid()
    ensures |r| <= 2
  {
    RemoveIfDeadKeeps(t, start);
    DeadList(t, start) + DeadList(RemoveIfDead(t, start), end)
  }

  /** The vertex checks keep the graph well formed and every edge with its
      start. */
  lemma GlueTailKeeps(t: GraphState, start: VertexId, end: VertexId)
    requires t.Valid()
    ensures var r := GlueTail(t, start, end);
            && r.Valid() && r.edges == t.edges && r.nextEdge == t.nextEdge
            && (forall f :: f in t.edges ==> r.Start(f) == t.Start(f))
  {
    RemoveIfDeadKeeps(t, start);
    RemoveIfDeadKeeps(RemoveIfDead(t, start), end);
  }

  /** The vertex checks one at a time; the second does nothing when its
      vertex went with the first. */
  lemma GlueTailSteps(t: GraphState, start: VertexId, end: VertexId)
    requires t.Valid()
    ensures RemoveIfDead(t, start).Valid()
    ensures GlueTail(t, start, end) == RemoveIfDead(RemoveIfDead(t, start), end)
    ensures GlueTailDeaths(t, start, end) == DeadList(t, start) + DeadList(RemoveIfDead(t, start), end)
    ensures end !in RemoveIfDead(t, start).vertices ==>
              GlueTail(t, start, end) == RemoveIfDead(t, start) && DeadList(RemoveIfDead(t, start), end) == []
  {
    RemoveIfDeadKeeps(t, start);
  }

  /** The state after the copy is added and DeleteEdge(e1) is done. */
  function GlueFirstDeleted(s: GraphState, e1: EdgeId, e2: EdgeId): GraphState
    requires s.Valid() && e1 in s.edges && e2 in s.edges
  {
    GlueAddedFacts(s, e2);
    GlueAdded(s, e2).RemoveEdgePair(e1)
  }

  lemma GlueFirstDeletedFacts(s: GraphState, e1: EdgeId, e2: EdgeId)
    requires s.Valid() && e1 in s.edges && e2 in s.edges
    ensures var t := GlueFirstDeleted(s, e1, e2);
            && t.Valid() && t.vertices.Keys == s.vertices.Keys
            && t.edges == GlueAdded(s, e2).edges - {e1, s.edges[e1].conjugate}
  {
    GlueAddedFacts(s, e2);
    var t0 := GlueAdded(s, e2);
    RemoveEdgePairValid(t0, e1);
    RemoveEdgePairShape(t0, e1);
  }

  /** GlueEdges as written: only edge1 (and its twin) is deleted. */
  function GlueAsWritten(s: GraphState, e1: EdgeId, e2: EdgeId): GraphState
    requires s.Valid() && e1 in s.edges && e2 in s.edges
  {
    GlueFirstDeletedFacts(s, e1, e2);
    GlueTail(GlueFirstDeleted(s, e1, e2), s.Start(e1), s.edges[e1].end)
  }

  function GlueAsWrittenDeaths(s: GraphState, e1: EdgeId, e2: EdgeId): (r: seq<VertexId>)
    requires s.Valid() && e1 in s.edges && e2 in s.edges
    ensures |r| <= 2
  {
    GlueFirstDeletedFacts(s, e1, e2);
    GlueTailDeaths(GlueFirstDeleted(s, e1, e2), s.Start(e1), s.edges[e1].end)
  }

  /** The state after the copy is added and both edge1 and edge2 are
      deleted; edge2 may already be gone with edge1, when it is edge1 or
      edge1's twin. */
  function GlueBothDeleted(s: GraphState, e1: EdgeId, e2: EdgeId): GraphState
    requires s.Valid() && e1 in s.edges && e2 in s.edges
  {
    GlueFirstDeletedFacts(s, e1, e2);
    var t := GlueFirstDeleted(s, e1, e2);
    if e2 in t.edges then t.RemoveEdgePair(e2) else t
  }

  /** Deleting edge2 when it survived DeleteEdge(edge1): what goes is the
      pair edge2 had before the glue. */
  lemma GlueSecondDeleted(s: GraphState, e1: EdgeId, e2: EdgeId)
    requires s.Valid() && e1 in s.edges && e2 in s.edges && e2 in GlueFirstDeleted(s, e1, e2).edges
    ensures GlueFirstDeleted(s, e1, e2).Valid()
    ensures var t := GlueFirstDeleted(s, e1, e2); var u := t.RemoveEdgePair(e2);
            && u.Valid()
            && u.edges == GlueAdded(s, e2).edges - {e1, s.edges[e1].conjugate, e2, s.edges[e2].conjugate}
  {
    GlueFirstDeletedFacts(s, e1, e2);
    var t := GlueFirstDeleted(s, e1, e2);
    RemoveEdgePairValid(t, e2);
    GlueSecondDeletedEdges(s, e1, e2);
  }

  lemma GlueSecondDeletedEdges(s: GraphState, e1: EdgeId, e2: EdgeId)
    requires s.Valid() && e1 in s.edges && e2 in s.edges && e2 in GlueFirstDeleted(s, e1, e2).edges
    requires GlueFirstDeleted(s, e1, e2).Valid()
    ensures var t := GlueFirstDeleted(s, e1, e2); var u := t.RemoveEdgePair(e2);
            u.edges == GlueAdded(s, e2).edges - {e1, s.edges[e1].conjugate, e2, s.edges[e2].conjugate}
  {
    GlueFirstDeletedFacts(s, e1, e2);
    var t0 := GlueAdded(s, e2);
    var t := GlueFirstDeleted(s, e1, e2);
    var c1, c2 := s.edges[e1].conjugate, s.edges[e2].conjugate;
    assert t.edges[e2] == s.edges[e2] by {
      GlueAddedFacts(s, e2);
    }
    RemoveEdgePairShape(t, e2);
    MapMinusUnion(t0.edges, {e1, c1}, {e2, c2});
    assert {e1, c1} + {e2, c2} == {e1, c1, e2, c2};
  }

  /** edge2 went with edge1: it was edge1 or edge1's twin. */
  lemma GlueSecondGone(s: GraphState, e1: EdgeId, e2: EdgeId)
    requires s.Valid() && e1 in s.edges && e2 in s.edges && e2 !in GlueFirstDeleted(s, e1, e2).edges
    ensures GlueFirstDeleted(s, e1, e2).Valid()
    ensures GlueFirstDeleted(s, e1, e2).edges
            == GlueAdded(s, e2).edges - {e1, s.edges[e1].conjugate, e2, s.edges[e2].conjugate}
  {
    GlueFirstDeletedFacts(s, e1, e2);
    var c1, c2 := s.edges[e1].conjugate, s.edges[e2].conjugate;
    assert s.EdgeValid(e1);
    assert {e1, c1, e2, c2} == {e1, c1};
  }

  lemma GlueBothDeletedFacts(s: GraphState, e1: EdgeId, e2: EdgeId)
    requires s.Valid() && e1 in s.edges && e2 in s.edges
    ensures var t := GlueBothDeleted(s, e1, e2);
            && t.Valid()
            && t.edges == GlueAdded(s, e2).edges - {e1, s.edges[e1].conjugate, e2, s.edges[e2].conjugate}
  {
    if e2 in GlueFirstDeleted(s, e1, e2).edges {
      GlueSecondDeleted(s, e1, e2);
    } else {
      GlueSecondGone(s, e1, e2);
    }
  }

  /** GlueEdges corrected: edge1 and edge2 are both deleted, and the copy of
      edge2 takes their place. */
  function GlueResult(s: GraphState, e1: EdgeId, e2: EdgeId): GraphState
    requires s.Valid() && e1 in s.edges && e2 in s.edges
  {
    GlueBothDeletedFacts(s, e1, e2);
    GlueTail(GlueBothDeleted(s, e1, e2), s.Start(e1), s.edges[e1].end)
  }

  function GlueDeaths(s: GraphState, e1: EdgeId, e2: EdgeId): (r: seq<VertexId>)
    requires s.Valid() && e1 in s.edges && e2 in s.edges
    ensures |r| <= 2
  {
    GlueBothDeletedFacts(s, e1, e2);
    GlueTailDeaths(GlueBothDeleted(s, e1, e2), s.Start(e1), s.edges[e1].end)
  }

  /** As written, GlueEdges leaves edge2 in the graph (unless it is edge1 or
      edge1's twin), next to its new copy: two parallel edges with the same
      sequence, although the handlers have been told that edge2 is gone. */
  lemma GlueAsWrittenKeepsSecond(s: GraphState, e1: EdgeId, e2: EdgeId)
    requires s.Valid() && e1 in s.edges && e2 in s.edges
    requires e2 != e1 && e2 != s.edges[e1].conjugate
    ensures var r := GlueAsWritten(s, e1, e2);
            && r.Valid() && e1 !in r.edges && s.nextEdge != e2
            && EdgeLike(r, e2, s.Start(e2), s.edges[e2].end, s.edges[e2].nucls)
            && EdgeLike(r, s.nextEdge, s.Start(e2), s.edges[e2].end, s.edges[e2].nucls)
  {
    GlueAddedFacts(s, e2);
    GlueFirstDeletedFacts(s, e1, e2);
    var t0 := GlueAdded(s, e2);
    var t := GlueFirstDeleted(s, e1, e2);
    GlueTailKeeps(t, s.Start(e1), s.edges[e1].end);
    assert s.EdgeValid(e1);
    var n := s.nextEdge;
    assert n != e1 && n != s.edges[e1].conjugate;
    RemoveEdgePairOther(t0, e1, e2);
    RemoveEdgePairOther(t0, e1, n);
  }

  /** DeleteEdge(edge1) keeps the copy of edge2. */
  lemma GlueCopyKeptFirst(s: GraphState, e1: EdgeId, e2: EdgeId)
    requires s.Valid() && e1 in s.edges && e2 in s.edges
    ensures EdgeLike(GlueFirstDeleted(s, e1, e2), s.nextEdge, s.Start(e2), s.edges[e2].end, s.edges[e2].nucls)
  {
    GlueAddedFacts(s, e2);
    var n := s.nextEdge;
    assert s.EdgeValid(e1);
    RemoveEdgePairOther(GlueAdded(s, e2), e1, n);
  }

  /** Deleting edge2 as well keeps the copy. */
  lemma GlueCopyKeptSecond(s: GraphState, e1: EdgeId, e2: EdgeId)
    requires s.Valid() && e1 in s.edges && e2 in s.edges && e2 in GlueFirstDeleted(s, e1, e2).edges
    requires EdgeLike(GlueFirstDeleted(s, e1, e2), s.nextEdge, s.Start(e2), s.edges[e2].end, s.edges[e2].nucls)
    ensures GlueFirstDeleted(s, e1, e2).HandlesValid()
    ensures EdgeLike(GlueFirstDeleted(s, e1, e2).RemoveEdgePair(e2), s.nextEdge, s.Start(e2), s.edges[e2].end, s.edges[e2].nucls)
  {
    GlueFirstDeletedFacts(s, e1, e2);
    var t := GlueFirstDeleted(s, e1, e2);
    assert t.edges[e2] == s.edges[e2] by {
      GlueAddedFacts(s, e2);
    }
    assert s.EdgeValid(e2);
    HandlesBelowNext(s);
    RemoveEdgePairOther(t, e2, s.nextEdge);
  }

  /** Deleting both edges keeps the copy. */
  lemma GlueCopyKept(s: GraphState, e1: EdgeId, e2: EdgeId)
    requires s.Valid() && e1 in s.edges && e2 in s.edges
    ensures EdgeLike(GlueBothDeleted(s, e1, e2), s.nextEdge, s.Start(e2), s.edges[e2].end, s.edges[e2].nucls)
  {
    GlueCopyKeptFirst(s, e1, e2);
    if e2 in GlueFirstDeleted(s, e1, e2).edges {
      GlueCopyKeptSecond(s, e1, e2);
    }
  }

  /** Which edges are left once both are deleted. */
  lemma GlueBothDeletedKeys(s: GraphState, e1: EdgeId, e2: EdgeId)
    requires s.Valid() && e1 in s.edges && e2 in s.edges
    ensures var t := GlueBothDeleted(s, e1, e2); var n := s.nextEdge;
            && n in t.edges
            && t.edges.Keys == (s.edges.Keys - {e1, s.edges[e1].conjugate, e2, s.edges[e2].conjugate})
                               + {n, t.edges[n].conjugate}
  {
    var t0 := GlueAdded(s, e2);
    var t := GlueBothDeleted(s, e1, e2);
    var n := s.nextEdge;
    var c1, c2 := s.edges[e1].conjugate, s.edges[e2].conjugate;
    GlueAddedFacts(s, e2);
    GlueBothDeletedFacts(s, e1, e2);
    assert s.EdgeValid(e1) && s.EdgeValid(e2);
    var cn := t0.edges[n].conjugate;
    assert t.edges.Keys == t0.edges.Keys - {e1, c1, e2, c2};
    assert t0.edges.Keys == s.edges.Keys + {n, cn};
    assert n !in {e1, c1, e2, c2} && cn !in {e1, c1, e2, c2} by {
      assert e1 in s.edges && c1 in s.edges && e2 in s.edges && c2 in s.edges;
      assert n !in s.edges && cn !in s.edges;
    }
    MinusThenAddOutside(s.edges.Keys, {e1, c1, e2, c2}, n, cn);
    assert t.edges[n] == t0.edges[n];
  }

  /** Corrected, GlueEdges leaves exactly the old edges but edge1, edge2 and
      their twins, plus the copy of edge2 and its twin; the copy runs where
      edge2 ran and carries its sequence. */
  lemma GlueResultEdges(s: GraphState, e1: EdgeId, e2: EdgeId)
    requires s.Valid() && e1 in s.edges && e2 in s.edges
    ensures var r := GlueResult(s, e1, e2); var n := s.nextEdge;
            && r.Valid()
            && EdgeLike(r, n, s.Start(e2), s.edges[e2].end, s.edges[e2].nucls)
            && r.edges.Keys == (s.edges.Keys - {e1, s.edges[e1].conjugate, e2, s.edges[e2].conjugate})
                               + {n, r.edges[n].conjugate}
  {
    GlueBothDeletedFacts(s, e1, e2);
    GlueCopyKept(s, e1, e2);
    GlueBothDeletedKeys(s, e1, e2);
    GlueTailKeeps(GlueBothDeleted(s, e1, e2), s.Start(e1), s.edges[e1].end);
  }
}
