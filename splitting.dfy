/** SplitEdge as a transition of the graph state: a new vertex pair, an edge
    pair for each of the two pieces of the split edge, and the split edge's
    pair removed. */
module Splitting {
  import opened Nucleotides
  import opened Handles
  import opened Overlaps
  import opened GraphStates

  /** s1: the first position + k bases of e. */
  function FirstPiece(s: GraphState, e: EdgeId, position: nat): Nucls
    requires e in s.edges && position + s.k <= |s.edges[e].nucls|
  {
    s.edges[e].nucls[..position + s.k]
  }

  /** s2: e's bases from position on. */
  function SecondPiece(s: GraphState, e: EdgeId, position: nat): Nucls
    requires e in s.edges && position <= |s.edges[e].nucls|
  {
    s.edges[e].nucls[position..]
  }

  /** What SplitEdge demands: the position lies strictly inside e, e is not
      its own twin, and neither piece is its own reverse complement (a piece
      that were would become one self-conjugate edge ending at the fresh
      vertex rather than at the conjugate of its start). */
  ghost predicate CanSplit(s: GraphState, e: EdgeId, position: nat) {
    && e in s.edges && 1 <= position && position + s.k < |s.edges[e].nucls|
    && s.edges[e].conjugate != e
    && FirstPiece(s, e, position) != ReverseComplement(FirstPiece(s, e, position))
    && SecondPiece(s, e, position) != ReverseComplement(SecondPiece(s, e, position))
  }

  /** The state after HiddenAddVertex and the first HiddenAddEdge. */
  function SplitFirstAdded(s: GraphState, e: EdgeId, position: nat): GraphState
    requires s.Valid() && CanSplit(s, e, position)
  {
    SplitVertexStep(s, e, position);
    s.AddVertexPair().AddEdgePair(s.Start(e), s.nextVertex, FirstPiece(s, e, position), DefaultCoverage)
  }

  /** The state after HiddenAddVertex and both HiddenAddEdge calls. */
  function SplitAdded(s: GraphState, e: EdgeId, position: nat): GraphState
    requires s.Valid() && CanSplit(s, e, position)
  {
    SplitFirstStep(s, e, position);
    SplitFirstAdded(s, e, position).AddEdgePair(s.nextVertex, s.edges[e].end, SecondPiece(s, e, position), DefaultCoverage)
  }

  /** The state after SplitEdge: the split edge's pair deleted last. */
  function SplitResult(s: GraphState, e: EdgeId, position: nat): GraphState
    requires s.Valid() && CanSplit(s, e, position)
  {
    SplitSecondStep(s, e, position);
    SplitAdded(s, e, position).RemoveEdgePair(e)
  }

  /** HiddenAddVertex leaves e as it was and lets the first piece be added
      from e's start to the fresh vertex. */
  lemma SplitVertexStep(s: GraphState, e: EdgeId, position: nat)
    requires s.Valid() && CanSplit(s, e, position)
    ensures var u := s.AddVertexPair(); var sv := s.nextVertex;
            && u.HandlesValid() && u.edges == s.edges && u.k == s.k && u.nextEdge == s.nextEdge
            && u.Start(e) == s.Start(e)
            && u.vertices.Keys == s.vertices.Keys + {sv, sv + 1}
            && u.vertices[sv] == Vertex(sv + 1, []) && u.vertices[sv + 1] == Vertex(sv, [])
            && (forall x :: x in s.vertices ==> u.vertices[x] == s.vertices[x])
            && CanAddEdge(u, s.Start(e), sv, FirstPiece(s, e, position))
  {
    AddVertexPairHandles(s);
    StartListed(s, e);
    HandlesBelowNext(s);
  }

  /** The first HiddenAddEdge leaves e as it was and lets the second piece be
      added from the fresh vertex to e's end. */
  lemma SplitFirstStep(s: GraphState, e: EdgeId, position: nat)
    requires s.Valid() && CanSplit(s, e, position)
    ensures var t := SplitFirstAdded(s, e, position);
            && t.HandlesValid() && t.k == s.k && e in t.edges && t.edges[e] == s.edges[e]
            && t.vertices.Keys == s.vertices.Keys + {s.nextVertex, s.nextVertex + 1}
            && (forall x :: x in s.vertices ==> t.vertices[x].conjugate == s.vertices[x].conjugate)
            && CanAddEdge(t, s.nextVertex, s.edges[e].end, SecondPiece(s, e, position))
            && t.vertices[s.edges[e].end].conjugate in t.vertices
  {
    SplitVertexStep(s, e, position);
    var u := s.AddVertexPair();
    var p1 := FirstPiece(s, e, position);
    var t := SplitFirstAdded(s, e, position);
    assert t == u.AddEdgePair(s.Start(e), s.nextVertex, p1, DefaultCoverage);
    AddEdgePairHandles(u, s.Start(e), s.nextVertex, p1, DefaultCoverage);
    AddEdgePairKeeps(u, s.Start(e), s.nextVertex, p1, DefaultCoverage);
    assert s.EdgeValid(e);
    assert s.VertexValid(s.edges[e].end);
  }

  /** The second HiddenAddEdge leaves e present. */
  lemma SplitSecondStep(s: GraphState, e: EdgeId, position: nat)
    requires s.Valid() && CanSplit(s, e, position)
    ensures var t := SplitAdded(s, e, position);
            && t.HandlesValid() && e in t.edges && t.edges[e] == s.edges[e]
  {
    SplitFirstStep(s, e, position);
    var t1 := SplitFirstAdded(s, e, position);
    var p2 := SecondPiece(s, e, position);
    AddEdgePairHandles(t1, s.nextVertex, s.edges[e].end, p2, DefaultCoverage);
    AddEdgePairKeeps(t1, s.nextVertex, s.edges[e].end, p2, DefaultCoverage);
  }

  /** The state after both HiddenAddEdge calls is well formed. */
  lemma SplitAddedValid(s: GraphState, e: EdgeId, position: nat)
    requires s.Valid() && CanSplit(s, e, position)
    ensures SplitAdded(s, e, position).Valid()
  {
    var u := s.AddVertexPair();
    var t1 := SplitFirstAdded(s, e, position);
    assert u.Valid() && t1 == u.AddEdgePair(s.Start(e), s.nextVertex, FirstPiece(s, e, position), DefaultCoverage) by {
      AddVertexPairValid(s);
    }
    assert t1.Valid() by {
      SplitVertexStep(s, e, position);
      AddEdgePairValid(u, s.Start(e), s.nextVertex, FirstPiece(s, e, position), DefaultCoverage);
    }
    SplitFirstStep(s, e, position);
    AddEdgePairValid(t1, s.nextVertex, s.edges[e].end, SecondPiece(s, e, position), DefaultCoverage);
  }

  /** SplitEdge keeps the graph well formed. */
  lemma SplitValid(s: GraphState, e: EdgeId, position: nat)
    requires s.Valid() && CanSplit(s, e, position)
    ensures SplitResult(s, e, position).Valid()
  {
    SplitAddedValid(s, e, position);
    SplitSecondStep(s, e, position);
    RemoveEdgePairValid(SplitAdded(s, e, position), e);
  }

  /** s1 and s2 overlap by k bases and together spell e's sequence. */
  lemma SplitPiecesRejoin(s: GraphState, e: EdgeId, position: nat)
    requires CanSplit(s, e, position)
    ensures |FirstPiece(s, e, position)| > s.k && |SecondPiece(s, e, position)| > s.k
    ensures Joined([FirstPiece(s, e, position), SecondPiece(s, e, position)], s.k) == s.edges[e].nucls
    ensures FirstPiece(s, e, position)[position..] == SecondPiece(s, e, position)[..s.k]
    ensures FirstPiece(s, e, position) + SecondPiece(s, e, position)[s.k..] == s.edges[e].nucls
  {
    SplitRejoins(s.edges[e].nucls, position, s.k);
    var n := s.edges[e].nucls;
    assert SecondPiece(s, e, position)[s.k..] == n[position + s.k..];
    assert n[..position + s.k] + n[position + s.k..] == n;
  }

  /** f is an edge from v1 to v2 carrying nucls, whose twin is f + 1. */
  ghost predicate NewPair(s: GraphState, f: EdgeId, v1: VertexId, v2: VertexId, nucls: Nucls) {
    && f in s.edges && s.Start(f) == v1 && s.edges[f].end == v2
    && s.edges[f].conjugate == f + 1 && s.edges[f].nucls == nucls
  }

  lemma NewPairAdded(s: GraphState, v1: VertexId, v2: VertexId, nucls: Nucls, f: EdgeId)
    requires s.HandlesValid() && CanAddEdge(s, v1, v2, nucls) && nucls != ReverseComplement(nucls)
    requires f == s.nextEdge
    ensures s.vertices[v2].conjugate in s.vertices
    ensures var t := s.AddEdgePair(v1, v2, nucls, DefaultCoverage);
            NewPair(t, f, v1, v2, nucls) && t.nextEdge == f + 2
  {
    AddEdgePairRecords(s, v1, v2, nucls, DefaultCoverage);
  }

  lemma NewPairKeptByAdd(s: GraphState, v1: VertexId, v2: VertexId, nucls: Nucls,
                         f: EdgeId, a: VertexId, b: VertexId, n: Nucls)
    requires s.HandlesValid() && CanAddEdge(s, v1, v2, nucls) && NewPair(s, f, a, b, n)
    ensures s.vertices[v2].conjugate in s.vertices
    ensures NewPair(s.AddEdgePair(v1, v2, nucls, DefaultCoverage), f, a, b, n)
  {
    AddEdgePairOld(s, v1, v2, nucls, DefaultCoverage, f);
  }

  lemma NewPairKeptByRemove(s: GraphState, e: EdgeId, f: EdgeId, a: VertexId, b: VertexId, n: Nucls)
    requires s.HandlesValid() && e in s.edges && NewPair(s, f, a, b, n)
    requires f != e && f != s.edges[e].conjugate
    ensures NewPair(s.RemoveEdgePair(e), f, a, b, n)
  {
    RemoveEdgePairOther(s, e, f);
  }

  /** The first HiddenAddEdge adds the pair for s1, whose edge starts at e's
      start and ends at the fresh vertex. */
  lemma SplitFirstEdge(s: GraphState, e: EdgeId, position: nat)
    requires s.Valid() && CanSplit(s, e, position)
    ensures var t := SplitFirstAdded(s, e, position);
            NewPair(t, s.nextEdge, s.Start(e), s.nextVertex, FirstPiece(s, e, position)) && t.nextEdge == s.nextEdge + 2
  {
    var u := s.AddVertexPair();
    SplitVertexStep(s, e, position);
    assert SplitFirstAdded(s, e, position) == u.AddEdgePair(s.Start(e), s.nextVertex, FirstPiece(s, e, position), DefaultCoverage);
    NewPairAdded(u, s.Start(e), s.nextVertex, FirstPiece(s, e, position), s.nextEdge);
  }

  /** The second HiddenAddEdge keeps the first new edge. */
  lemma SplitFirstKept(s: GraphState, e: EdgeId, position: nat)
    requires s.Valid() && CanSplit(s, e, position)
    requires NewPair(SplitFirstAdded(s, e, position), s.nextEdge, s.Start(e), s.nextVertex, FirstPiece(s, e, position))
    ensures NewPair(SplitAdded(s, e, position), s.nextEdge, s.Start(e), s.nextVertex, FirstPiece(s, e, position))
  {
    SplitFirstStep(s, e, position);
    NewPairKeptByAdd(SplitFirstAdded(s, e, position), s.nextVertex, s.edges[e].end, SecondPiece(s, e, position),
                     s.nextEdge, s.Start(e), s.nextVertex, FirstPiece(s, e, position));
  }

  /** The second HiddenAddEdge adds the pair for s2, whose edge starts at the
      fresh vertex and ends at e's end. */
  lemma SplitSecondEdge(s: GraphState, e: EdgeId, position: nat)
    requires s.Valid() && CanSplit(s, e, position)
    requires SplitFirstAdded(s, e, position).nextEdge == s.nextEdge + 2
    ensures NewPair(SplitAdded(s, e, position), s.nextEdge + 2, s.nextVertex, s.edges[e].end, SecondPiece(s, e, position))
  {
    SplitFirstStep(s, e, position);
    NewPairAdded(SplitFirstAdded(s, e, position), s.nextVertex, s.edges[e].end, SecondPiece(s, e, position), s.nextEdge + 2);
  }

  /** Deleting e keeps both new edges, and takes e and its twin. */
  lemma SplitDeleteKeeps(s: GraphState, e: EdgeId, position: nat, f: EdgeId, a: VertexId, b: VertexId, n: Nucls)
    requires s.Valid() && CanSplit(s, e, position) && f >= s.nextEdge
    requires NewPair(SplitAdded(s, e, position), f, a, b, n)
    ensures NewPair(SplitResult(s, e, position), f, a, b, n)
    ensures e !in SplitResult(s, e, position).edges && s.edges[e].conjugate !in SplitResult(s, e, position).edges
  {
    var t := SplitAdded(s, e, position);
    SplitSecondStep(s, e, position);
    HandlesBelowNext(s);
    assert s.EdgeValid(e);
    RemoveEdgePairShape(t, e);
    NewPairKeptByRemove(t, e, f, a, b, n);
  }

  /** The two new edges: the first runs from e's start to the fresh vertex
      and carries s1, the second runs from the fresh vertex to e's end and
      carries s2; e and its twin are gone. */
  lemma SplitNewEdges(s: GraphState, e: EdgeId, position: nat)
    requires s.Valid() && CanSplit(s, e, position)
    ensures var r := SplitResult(s, e, position);
            && e !in r.edges && s.edges[e].conjugate !in r.edges
            && NewPair(r, s.nextEdge, s.Start(e), s.nextVertex, FirstPiece(s, e, position))
            && NewPair(r, s.nextEdge + 2, s.nextVertex, s.edges[e].end, SecondPiece(s, e, position))
  {
    SplitFirstEdge(s, e, position);
    SplitFirstKept(s, e, position);
    SplitSecondEdge(s, e, position);
    SplitDeleteKeeps(s, e, position, s.nextEdge, s.Start(e), s.nextVertex, FirstPiece(s, e, position));
    SplitDeleteKeeps(s, e, position, s.nextEdge + 2, s.nextVertex, s.edges[e].end, SecondPiece(s, e, position));
  }

  /** After the first HiddenAddEdge the fresh vertex lists nothing and its
      conjugate lists the twin of the first new edge. */
  lemma SplitFirstLists(s: GraphState, e: EdgeId, position: nat)
    requires s.Valid() && CanSplit(s, e, position)
    ensures var t := SplitFirstAdded(s, e, position); var sv := s.nextVertex;
            && sv in t.vertices && sv + 1 in t.vertices
            && t.vertices[sv].outgoing == [] && t.vertices[sv + 1].outgoing == [s.nextEdge + 1]
  {
    var u := s.AddVertexPair();
    var sv := s.nextVertex;
    SplitVertexStep(s, e, position);
    SplitFirstEdge(s, e, position);
    var p1 := FirstPiece(s, e, position);
    assert s.Start(e) in s.vertices by {
      StartListed(s, e);
    }
    assert s.Start(e) != sv && s.Start(e) != sv + 1 by {
      HandlesBelowNext(s);
    }
    assert SplitFirstAdded(s, e, position) == u.AddEdgePair(s.Start(e), sv, p1, DefaultCoverage);
    AddEdgePairOutgoing(u, s.Start(e), sv, p1, DefaultCoverage, sv);
    AddEdgePairOutgoing(u, s.Start(e), sv, p1, DefaultCoverage, sv + 1);
  }

  /** Adding a pair changes the list of a vertex x other than the new
      twin's start only by appending the new edge when x is its start. */
  lemma AddedList(t: GraphState, v1: VertexId, v2: VertexId, nucls: Nucls, x: VertexId, before: seq<EdgeId>)
    requires t.HandlesValid() && CanAddEdge(t, v1, v2, nucls) && x in t.vertices
    requires t.vertices[v2].conjugate in t.vertices
    requires t.vertices[x].outgoing == before && x != t.vertices[v2].conjugate
    ensures var u := t.AddEdgePair(v1, v2, nucls, DefaultCoverage);
            x in u.vertices && u.vertices[x].outgoing == before + (if x == v1 then [t.nextEdge] else [])
  {
    AddEdgePairOutgoing(t, v1, v2, nucls, DefaultCoverage, x);
  }

  /** The conjugate of e's end is neither of the fresh vertices after the
      first HiddenAddEdge. */
  lemma SplitEndConjugate(s: GraphState, e: EdgeId, position: nat)
    requires s.Valid() && CanSplit(s, e, position) && s.edges[e].end in SplitFirstAdded(s, e, position).vertices
    ensures var t1 := SplitFirstAdded(s, e, position); var w := t1.vertices[s.edges[e].end].conjugate;
            w != s.nextVertex && w != s.nextVertex + 1
  {
    SplitFirstStep(s, e, position);
    assert s.EdgeValid(e);
    var end := s.edges[e].end;
    assert s.VertexValid(end);
    HandlesBelowNext(s);
    assert s.vertices[end].conjugate in s.vertices;
  }

  /** After the second HiddenAddEdge the fresh vertex lists the second new
      edge. */
  lemma SplitAddedFreshList(s: GraphState, e: EdgeId, position: nat)
    requires s.Valid() && CanSplit(s, e, position)
    ensures var t := SplitAdded(s, e, position);
            s.nextVertex in t.vertices && t.vertices[s.nextVertex].outgoing == [s.nextEdge + 2]
  {
    var t1 := SplitFirstAdded(s, e, position);
    SplitFirstLists(s, e, position);
    SplitFirstStep(s, e, position);
    SplitFirstEdge(s, e, position);
    SplitEndConjugate(s, e, position);
    assert SplitAdded(s, e, position) == t1.AddEdgePair(s.nextVertex, s.edges[e].end, SecondPiece(s, e, position), DefaultCoverage);
    AddedList(t1, s.nextVertex, s.edges[e].end, SecondPiece(s, e, position), s.nextVertex, []);
  }

  /** After the second HiddenAddEdge the fresh vertex's conjugate still lists
      only the twin of the first new edge. */
  lemma SplitAddedTwinList(s: GraphState, e: EdgeId, position: nat)
    requires s.Valid() && CanSplit(s, e, position)
    ensures var t := SplitAdded(s, e, position);
            s.nextVertex + 1 in t.vertices && t.vertices[s.nextVertex + 1].outgoing == [s.nextEdge + 1]
  {
    var t1 := SplitFirstAdded(s, e, position);
    SplitFirstLists(s, e, position);
    SplitFirstStep(s, e, position);
    SplitEndConjugate(s, e, position);
    assert SplitAdded(s, e, position) == t1.AddEdgePair(s.nextVertex, s.edges[e].end, SecondPiece(s, e, position), DefaultCoverage);
    AddedList(t1, s.nextVertex, s.edges[e].end, SecondPiece(s, e, position), s.nextVertex + 1, [s.nextEdge + 1]);
  }

  /** Deleting e leaves the lists of the fresh vertices alone. */
  lemma SplitDeleteKeepsList(s: GraphState, e: EdgeId, position: nat, x: VertexId, f: EdgeId)
    requires s.Valid() && CanSplit(s, e, position) && f >= s.nextEdge
    requires x in SplitAdded(s, e, position).vertices && SplitAdded(s, e, position).vertices[x].outgoing == [f]
    ensures x in SplitResult(s, e, position).vertices && SplitResult(s, e, position).vertices[x].outgoing == [f]
  {
    var t := SplitAdded(s, e, position);
    var c := s.edges[e].conjugate;
    SplitAddedValid(s, e, position);
    SplitSecondStep(s, e, position);
    assert f != e && f != c by {
      HandlesBelowNext(s);
      assert s.EdgeValid(e);
    }
    RemoveEdgePairOutgoing(t, e, x);
    WithoutNothingRemoved([f], {e, c});
  }

  /** v lists exactly f, and its conjugate w lists exactly g. */
  ghost predicate ListsExactly(s: GraphState, v: VertexId, w: VertexId, f: EdgeId, g: EdgeId) {
    v in s.vertices && w in s.vertices && s.vertices[v].outgoing == [f] && s.vertices[w].outgoing == [g]
  }

  /** After SplitEdge the fresh vertex has exactly one edge out, the second
      new edge, and exactly one edge in, the first (its conjugate lists only
      the first edge's twin): it is a vertex CompressVertex would merge. */
  lemma SplitVertexLists(s: GraphState, e: EdgeId, position: nat)
    requires s.Valid() && CanSplit(s, e, position)
    ensures ListsExactly(SplitResult(s, e, position), s.nextVertex, s.nextVertex + 1, s.nextEdge + 2, s.nextEdge + 1)
  {
    SplitAddedFreshList(s, e, position);
    SplitAddedTwinList(s, e, position);
    SplitDeleteKeepsList(s, e, position, s.nextVertex, s.nextEdge + 2);
    SplitDeleteKeepsList(s, e, position, s.nextVertex + 1, s.nextEdge + 1);
  }
}
