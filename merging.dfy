/** MergePath as a transition of the graph state: the path is corrected, a
    new edge pair spanning the corrected path is added, and the path's edges,
    their twins, the vertices inside the path and their conjugates are
    removed. */
module Merging {
  import opened Nucleotides
  import opened Handles
  import opened Overlaps
  import opened MergePaths
  import opened GraphStates

  /** The path MergePath(path) works on: path after CorrectMergePath. */
  function MergedPath(s: GraphState, path: seq<EdgeId>): (cp: seq<EdgeId>)
    requires s.HandlesValid() && forall e :: e in path ==> e in s.edges
    ensures |cp| >= |path| && forall e :: e in cp ==> e in s.edges
  {
    EdgeConjugatesInvolution(s);
    CorrectedPathInDomain(path, s.EdgeConjugates());
    CorrectedPath(path, s.EdgeConjugates())
  }

  /** Where the edge merged from cp starts: the start of cp's first edge. */
  function MergedStart(s: GraphState, cp: seq<EdgeId>): VertexId
    requires |cp| > 0 && forall e :: e in cp ==> e in s.edges
  {
    s.Start(cp[0])
  }

  /** Where it ends: the end of cp's last edge. */
  function MergedEnd(s: GraphState, cp: seq<EdgeId>): VertexId
    requires |cp| > 0 && forall e :: e in cp ==> e in s.edges
  {
    s.edges[cp[|cp| - 1]].end
  }

  /** Its sequence: cp's edges joined on their k-base overlaps. */
  function MergedSequence(s: GraphState, cp: seq<EdgeId>): Nucls
    requires s.HandlesValid() && |cp| > 0 && forall e :: e in cp ==> e in s.edges
  {
    Joined(s.PathNucls(cp), s.k)
  }

  /** What AddMergedEdge(cp) demands: HiddenAddEdge can add the merged edge. */
  ghost predicate CanAddMerged(s: GraphState, cp: seq<EdgeId>)
    requires s.HandlesValid()
  {
    && |cp| > 0 && (forall e :: e in cp ==> e in s.edges)
    && CanAddEdge(s, MergedStart(s, cp), MergedEnd(s, cp), MergedSequence(s, cp))
  }

  /** The state after AddMergedEdge(cp). */
  function MergeAdded(s: GraphState, cp: seq<EdgeId>): (t: GraphState)
    requires s.Valid() && CanAddMerged(s, cp)
    ensures forall e :: e in s.edges ==> e in t.edges
  {
    assert s.VertexValid(MergedEnd(s, cp));
    s.AddEdgePair(MergedStart(s, cp), MergedEnd(s, cp), MergedSequence(s, cp), 0)
  }

  /** What merging the corrected path cp demands: the merged edge can be
      added, and DeletePath(cp) can then delete the vertices inside cp. */
  ghost predicate CanMerge(s: GraphState, cp: seq<EdgeId>)
    requires s.Valid()
  {
    CanAddMerged(s, cp) && MergeAdded(s, cp).CanDeletePath(cp)
  }

  /** What MergePath(path) demands. */
  ghost predicate CanMergePath(s: GraphState, path: seq<EdgeId>)
    requires s.Valid()
  {
    && |path| > 0 && (forall e :: e in path ==> e in s.edges)
    && CanMerge(s, MergedPath(s, path))
  }

  /** The state after merging cp: AddMergedEdge, then DeletePath. */
  function MergeResult(s: GraphState, cp: seq<EdgeId>): GraphState
    requires s.Valid() && CanMerge(s, cp)
  {
    var t := MergeAdded(s, cp);
    t.RemoveEdges(ConjClosure(Elems(cp), t.EdgeConjugates()))
     .RemoveVertices(ConjClosure(Elems(t.InteriorStarts(cp)), t.VertexConjugates()))
  }

  /** The corrected path covers the same conjugate pairs of edges as the path. */
  lemma MergedPathSamePairs(s: GraphState, path: seq<EdgeId>)
    requires s.HandlesValid() && forall e :: e in path ==> e in s.edges
    ensures ConjClosure(Elems(MergedPath(s, path)), s.EdgeConjugates()) == ConjClosure(Elems(path), s.EdgeConjugates())
  {
    EdgeConjugatesInvolution(s);
    CorrectedPathSamePairs(path, s.EdgeConjugates());
  }

  /** Adding the merged edge changes no old edge: cp's twins, its closure and
      its representatives are as before, and the closure holds old edges only. */
  lemma MergeEdgesKept(s: GraphState, cp: seq<EdgeId>)
    requires s.Valid() && CanAddMerged(s, cp)
    ensures var t := MergeAdded(s, cp);
            && ConjClosure(Elems(cp), t.EdgeConjugates()) == ConjClosure(Elems(cp), s.EdgeConjugates())
            && FirstOfPairs(cp, t.EdgeConjugates()) == FirstOfPairs(cp, s.EdgeConjugates())
            && forall f :: f in ConjClosure(Elems(cp), s.EdgeConjugates()) ==> f in s.edges
  {
    var t := MergeAdded(s, cp);
    var m := s.EdgeConjugates();
    assert forall f :: f in cp ==> f in t.edges && t.edges[f] == s.edges[f] by {
      AddEdgePairKeeps(s, MergedStart(s, cp), MergedEnd(s, cp), MergedSequence(s, cp), 0);
    }
    ConjClosureAgree(Elems(cp), t.EdgeConjugates(), m);
    FirstOfPairsAgree(cp, t.EdgeConjugates(), m);
    EdgeConjugatesInvolution(s);
    forall f | f in ConjClosure(Elems(cp), m) ensures f in s.edges {
      ConjClosureMember(Elems(cp), m, f);
    }
  }

  /** The edges merging removes are exactly the edges of cp and their twins;
      the merged edge and its twin are the only new ones. */
  lemma MergeRemovesPathPairs(s: GraphState, cp: seq<EdgeId>)
    requires s.Valid() && CanMerge(s, cp)
    ensures var t := MergeAdded(s, cp); var d := ConjClosure(Elems(cp), s.EdgeConjugates());
            && MergeResult(s, cp).edges == t.edges - d
            && MergeResult(s, cp).edges.Keys == (s.edges.Keys - d) + {s.nextEdge, t.edges[s.nextEdge].conjugate}
  {
    var t := MergeAdded(s, cp);
    var d := ConjClosure(Elems(cp), s.EdgeConjugates());
    MergeEdgesKept(s, cp);
    var u := t.RemoveEdges(ConjClosure(Elems(cp), t.EdgeConjugates()));
    assert u.edges == t.edges - d;
    assert MergeResult(s, cp).edges == u.edges;
    AddEdgePairRecords(s, MergedStart(s, cp), MergedEnd(s, cp), MergedSequence(s, cp), 0);
    var e := s.nextEdge;
    var c := t.edges[e].conjugate;
    assert MergeResult(s, cp).edges.Keys == t.edges.Keys - d;
    MinusThenAddOutside(s.edges.Keys, d, e, c);
  }

  /** MergePath(path) removes exactly the edges of path and their twins, and
      adds the merged edge and its twin. */
  lemma MergePathEdges(s: GraphState, path: seq<EdgeId>)
    requires s.Valid() && CanMergePath(s, path)
    ensures var r := MergeResult(s, MergedPath(s, path)); var e := s.nextEdge;
            && e in r.edges
            && r.edges.Keys == (s.edges.Keys - ConjClosure(Elems(path), s.EdgeConjugates())) + {e, r.edges[e].conjugate}
  {
    var cp := MergedPath(s, path);
    MergedPathSamePairs(s, path);
    MergeRemovesPathPairs(s, cp);
    MergeNewEdge(s, cp);
  }

  /** The merged edge survives DeletePath: it runs from the start of cp to
      its end, both still present, with the joined sequence. */
  lemma MergeNewEdge(s: GraphState, cp: seq<EdgeId>)
    requires s.Valid() && CanMerge(s, cp)
    ensures var r := MergeResult(s, cp); var e := s.nextEdge;
            && e in r.edges && r.edges[e].nucls == MergedSequence(s, cp)
            && r.edges[e].end == MergedEnd(s, cp) && MergedEnd(s, cp) in r.vertices
            && MergedStart(s, cp) in r.vertices && r.Start(e) == MergedStart(s, cp)
  {
    var t := MergeAdded(s, cp);
    var v1, v2, nucls := MergedStart(s, cp), MergedEnd(s, cp), MergedSequence(s, cp);
    var e := s.nextEdge;
    AddEdgePairValid(s, v1, v2, nucls, 0);
    AddEdgePairRecords(s, v1, v2, nucls, 0);
    var c := t.edges[e].conjugate;
    var cv1, cv2 := s.vertices[v1].conjugate, s.vertices[v2].conjugate;
    AddEdgePairVertex(s, v1, v2, nucls, 0, v1);
    AddEdgePairVertex(s, v1, v2, nucls, 0, v2);
    assert s.VertexValid(v2);
    AddEdgePairVertex(s, v1, v2, nucls, 0, cv2);
    MergeEdgesKept(s, cp);
    MergeRemovesPathPairs(s, cp);
    assert e in t.vertices[v1].outgoing;
    assert c in t.vertices[cv2].outgoing;
    KeptByDeletePath(t, cp, v1, e);
    KeptByDeletePath(t, cp, cv2, c);
    var r := MergeResult(s, cp);
    assert r.edges[e] == t.edges[e] && r.edges[c] == t.edges[c];
    assert r.vertices[cv1].conjugate == v1;
  }

  /** Merge of two edges neither of which is its own twin: the path is kept as
      it is, and the merged sequence is the first edge's followed by the
      second's without its first k bases. */
  lemma MergePlainPair(s: GraphState, e1: EdgeId, e2: EdgeId)
    requires s.Valid() && e1 in s.edges && e2 in s.edges
    requires s.edges[e1].conjugate != e1 && s.edges[e2].conjugate != e2
    ensures MergedPath(s, [e1, e2]) == [e1, e2]
    ensures |s.edges[e2].nucls| > s.k
    ensures MergedSequence(s, [e1, e2]) == s.edges[e1].nucls + s.edges[e2].nucls[s.k..]
  {
    PlainPairKept(s, e1, e2);
    PlainPairSequence(s, e1, e2);
  }

  lemma PlainPairKept(s: GraphState, e1: EdgeId, e2: EdgeId)
    requires s.Valid() && e1 in s.edges && e2 in s.edges
    requires s.edges[e1].conjugate != e1 && s.edges[e2].conjugate != e2
    ensures MergedPath(s, [e1, e2]) == [e1, e2]
  {
    EdgeConjugatesInvolution(s);
    CorrectedPathPair(e1, e2, s.EdgeConjugates());
  }

  lemma PlainPairSequence(s: GraphState, e1: EdgeId, e2: EdgeId)
    requires s.Valid() && e1 in s.edges && e2 in s.edges
    requires MergedPath(s, [e1, e2]) == [e1, e2]
    ensures |s.edges[e2].nucls| > s.k
    ensures MergedSequence(s, [e1, e2]) == s.edges[e1].nucls + s.edges[e2].nucls[s.k..]
  {
    assert s.EdgeValid(e1) && s.EdgeValid(e2);
    var ss := s.PathNucls([e1, e2]);
    assert ss == [s.edges[e1].nucls, s.edges[e2].nucls];
    JoinedPair(s.edges[e1].nucls, s.edges[e2].nucls, s.k);
  }

  /** Merging two such edges deletes the vertex between them and its
      conjugate. */
  lemma MergeRemovesMiddle(s: GraphState, e1: EdgeId, e2: EdgeId)
    requires s.Valid() && e1 in s.edges && e2 in s.edges
    requires s.edges[e1].conjugate != e1 && s.edges[e2].conjugate != e2
    requires CanMerge(s, [e1, e2])
    ensures s.Start(e2) in s.vertices && s.vertices[s.Start(e2)].conjugate in s.vertices
    ensures s.Start(e2) !in MergeResult(s, [e1, e2]).vertices
    ensures s.vertices[s.Start(e2)].conjugate !in MergeResult(s, [e1, e2]).vertices
  {
    MergePlainPair(s, e1, e2);
    var path := [e1, e2];
    var t := MergeAdded(s, path);
    StartListed(s, e2);
    var x := s.Start(e2);
    assert s.VertexValid(x);
    AddEdgePairOld(s, MergedStart(s, path), MergedEnd(s, path), MergedSequence(s, path), 0, e2);
    AddEdgePairVertex(s, MergedStart(s, path), MergedEnd(s, path), MergedSequence(s, path), 0, x);
    var starts := t.InteriorStarts(path);
    assert starts == [x];
    var kill := ConjClosure(Elems(starts), t.VertexConjugates());
    assert x in kill && t.VertexConjugates()[x] in kill;
  }
}
