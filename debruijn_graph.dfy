/** The doubled de Bruijn graph DeBruijnGraph. Every vertex and every edge has
    a conjugate, its reverse-complement twin. Only outgoing adjacency is
    stored: the incoming edges of v are the twins of the outgoing edges of
    conjugate(v), and the start of e is the conjugate of the end of e's twin.
    Vertices and edges are handles into two maps of records; a deleted handle
    is never handed out again. */
module Graph {
  import opened Nucleotides
  import opened Handles
  import opened Notifications
  import opened Overlaps
  import opened MergePaths
  import opened GraphStates
  import opened Merging
  import opened Incidence
  import opened Splitting
  import opened Gluing

  datatype Option<T> = None | Some(value: T)

  class DeBruijnGraph {
    /** k_: the length of the k-mers labelling the vertices. */
    const k: nat
    /** action_handler_list_ and applier_: the observers and what they were told. */
    const dispatcher: Dispatcher

    /** vertices_, each handle with its Vertex object. */
    var vertices: map<VertexId, Vertex>
    /** The Edge objects, by handle. */
    var edges: map<EdgeId, Edge>
    /** Handles at or above these have never been handed out. */
    var nextVertex: nat
    var nextEdge: nat

    function State(): GraphState
      reads this
    {
      GraphState(k, vertices, edges, nextVertex, nextEdge)
    }

    ghost predicate Valid()
      reads this
    {
      State().Valid()
    }

    /** The empty graph. */
    constructor(k: nat, handlers: seq<HandlerId>)
      ensures Valid()
      ensures this.k == k && vertices == map[] && edges == map[]
      ensures dispatcher.handlers == handlers && dispatcher.log == []
    {
      this.k := k;
      dispatcher := new Dispatcher(handlers);
      vertices := map[];
      edges := map[];
      nextVertex := 0;
      nextEdge := 0;
    }

    // ---- Readers

    /** conjugate(VertexId): the twin vertex, whose twin is v again. */
    function ConjugateVertex(v: VertexId): (c: VertexId)
      reads this
      requires Valid() && v in vertices
      ensures c in vertices && c != v && vertices[c].conjugate == v
    {
      assert State().VertexValid(v);
      vertices[v].conjugate
    }

    /** conjugate(EdgeId): the twin edge. It carries the reverse complement,
        its twin is e again, and it is e itself exactly when e's sequence is
        its own reverse complement. */
    function ConjugateEdge(e: EdgeId): (c: EdgeId)
      reads this
      requires Valid() && e in edges
      ensures c in edges && edges[c].conjugate == e
      ensures edges[c].nucls == ReverseComplement(edges[e].nucls)
      ensures c == e <==> edges[e].nucls == ReverseComplement(edges[e].nucls)
    {
      assert State().EdgeValid(e);
      edges[e].conjugate
    }

    /** EdgeStart: the vertex whose outgoing list holds e. */
    function EdgeStart(e: EdgeId): (v: VertexId)
      reads this
      requires Valid() && e in edges
      ensures v in vertices && e in vertices[v].outgoing
    {
      State().Start(e)
    }

    /** EdgeEnd: the end of e; the twin of e leaves from its conjugate. */
    function EdgeEnd(e: EdgeId): (v: VertexId)
      reads this
      requires Valid() && e in edges
      ensures v in vertices && vertices[v].conjugate in vertices
      ensures edges[e].conjugate in vertices[vertices[v].conjugate].outgoing
    {
      TwinListedAtConjugateEnd(State(), e);
      edges[e].end
    }

    /** EdgeNucls: the sequence of e, longer than k and the reverse complement
        of its twin's. */
    function EdgeNucls(e: EdgeId): (r: Nucls)
      reads this
      requires Valid() && e in edges
      ensures |r| > k
      ensures edges[e].conjugate in edges && r == ReverseComplement(edges[edges[e].conjugate].nucls)
    {
      assert State().EdgeValid(e);
      assert State().EdgeValid(edges[e].conjugate);
      edges[e].nucls
    }

    /** length: the number of (k+1)-mers of e, at least one. */
    function Length(e: EdgeId): (n: nat)
      reads this
      requires Valid() && e in edges
      ensures n >= 1 && n + k == |edges[e].nucls|
    {
      EdgeLength(EdgeNucls(e), k)
    }

    /** OutgoingEdges: exactly the edges that start at v, each once. */
    function OutgoingEdges(v: VertexId): (r: seq<EdgeId>)
      reads this
      requires Valid() && v in vertices
      ensures NoDuplicates(r)
      ensures forall e :: e in r <==> e in edges && EdgeStart(e) == v
    {
      vertices[v].outgoing
    }

    /** The conjugate links of all edges, an involution. */
    function Twins(): (m: map<EdgeId, EdgeId>)
      reads this
      requires Valid()
      ensures Involution(m) && m == State().EdgeConjugates()
    {
      EdgeConjugatesInvolution(State());
      State().EdgeConjugates()
    }

    /** The conjugate links of all vertices, an involution. */
    function VertexTwins(): (m: map<VertexId, VertexId>)
      reads this
      requires Valid()
      ensures Involution(m) && m == State().VertexConjugates()
    {
      VertexConjugatesInvolution(State());
      State().VertexConjugates()
    }

    /** IsDeadEnd: no edge starts at v. */
    function IsDeadEnd(v: VertexId): (r: bool)
      reads this
      requires Valid() && v in vertices
      ensures r <==> forall e :: e in edges ==> EdgeStart(e) != v
    {
      if |vertices[v].outgoing| == 0 then
        true
      else
        assert EdgeStart(vertices[v].outgoing[0]) == v;
        false
    }

    /** IsDeadStart: no edge ends at v. */
    function IsDeadStart(v: VertexId): (r: bool)
      reads this
      requires Valid() && v in vertices
      ensures r <==> forall e :: e in edges ==> EdgeEnd(e) != v
    {
      var c := ConjugateVertex(v);
      if |vertices[c].outgoing| == 0 then
        assert forall e :: e in edges ==> EdgeEnd(e) != v by {
          forall e | e in edges ensures edges[e].end != v {
            TwinListedAtConjugateEnd(State(), e);
          }
        }
        true
      else
        IncomingTwin(State(), v, vertices[c].outgoing[0]);
        false
    }
 
    /** GetUniqueOutgoingEdge: the one edge that starts at v. */
    function GetUniqueOutgoingEdge(v: VertexId): (e: EdgeId)
      reads this
      requires Valid() && v in vertices && |vertices[v].outgoing| == 1
      ensures e in edges && EdgeStart(e) == v
      ensures forall f :: f in edges && EdgeStart(f) == v ==> f == e
    {
      assert vertices[v].outgoing[0] in vertices[v].outgoing;
      vertices[v].outgoing[0]
    }

    /** GetUniqueIncomingEdge: the one edge that ends at v, the twin of the one
        edge that starts at conjugate(v). */
    function GetUniqueIncomingEdge(v: VertexId): (e: EdgeId)
      reads this
      requires Valid() && v in vertices && |vertices[ConjugateVertex(v)].outgoing| == 1
      ensures e in edges && EdgeEnd(e) == v
      ensures forall f :: f in edges && EdgeEnd(f) == v ==> f == e
    {
      var c := ConjugateVertex(v);
      var g := vertices[c].outgoing[0];
      IncomingTwin(State(), v, g);
      assert forall f :: f in edges && edges[f].end == v ==> f == edges[g].conjugate by {
        forall f | f in edges && edges[f].end == v ensures f == edges[g].conjugate {
          TwinListedAtConjugateEnd(State(), f);
          assert State().EdgeValid(f);
        }
      }
      edges[g].conjugate
    }

    /** CanCompressVertex: exactly one edge leaves v and exactly one enters it. */
    function CanCompressVertex(v: VertexId): (r: bool)
      reads this
      requires Valid() && v in vertices
      ensures r <==> |StartingAt(State(), v)| == 1 && |EndingAt(State(), v)| == 1
    {
      StartingAtCount(State(), v);
      EndingAtCount(State(), v);
      |vertices[v].outgoing| == 1 && |vertices[ConjugateVertex(v)].outgoing| == 1
    }

    /** VertexNucls: the k-mer of v, read off the first outgoing edge, or, when
        v has none, off the first incoming edge, whose last k bases it is. */
    function VertexNucls(v: VertexId): (r: Nucls)
      reads this
      requires Valid() && v in vertices
      requires |vertices[v].outgoing| > 0 || |vertices[ConjugateVertex(v)].outgoing| > 0
      ensures |r| == k
      ensures |vertices[v].outgoing| > 0 ==> r == EdgeNucls(vertices[v].outgoing[0])[..k]
      ensures |vertices[v].outgoing| == 0 ==>
                var g := vertices[ConjugateVertex(v)].outgoing[0];
                var f := ConjugateEdge(g);
                r == EdgeNucls(f)[|EdgeNucls(f)| - k..]
      decreases if |vertices[v].outgoing| > 0 then 0 else 1
    {
      if |vertices[v].outgoing| > 0 then
        EdgeNucls(vertices[v].outgoing[0])[..k]
      else
        var c := ConjugateVertex(v);
        var g := vertices[c].outgoing[0];
        var f := ConjugateEdge(g);
        assert EdgeStart(g) == c;
        ReverseComplementSuffix(EdgeNucls(g), k);
        ReverseComplement(VertexNucls(c))
    }

    /** AreLinkable: nucls begins with the k-mer of v1 and ends with the k-mer
        whose reverse complement labels conjugate(v2). */
    function AreLinkable(v1: VertexId, v2: VertexId, nucls: Nucls): (r: bool)
      reads this
      requires Valid() && v1 in vertices && v2 in vertices && |nucls| >= k
      requires |vertices[v1].outgoing| > 0 || |vertices[ConjugateVertex(v1)].outgoing| > 0
      requires VertexNucls(v1) == nucls[..k] ==>
                 |vertices[v2].outgoing| > 0 || |vertices[ConjugateVertex(v2)].outgoing| > 0
      ensures r <==> VertexNucls(v1) == nucls[..k]
                     && ReverseComplement(VertexNucls(ConjugateVertex(v2))) == nucls[|nucls| - k..]
    {
      VertexNucls(v1) == nucls[..k]
      && var w := VertexNucls(ConjugateVertex(v2));
         ReverseComplementPrefixMatch(w, nucls, k);
         w == ReverseComplement(nucls)[..k]
    }

    /** The membership test the source writes out as an inner loop: scan s
        until x is met. */
    static method Find(s: seq<EdgeId>, x: EdgeId) returns (found: bool)
      ensures found <==> x in s
    {
      found := false;
      var j := 0;
      while j < |s|
        invariant 0 <= j <= |s|
        invariant forall t :: 0 <= t < j ==> s[t] != x
      {
        if s[j] == x {
          found := true;
          break;
        }
        j := j + 1;
      }
    }

    /** OutgoingEdges counterpart that copies: IncomingEdges, the twins of the
        edges leaving conjugate(v), in that order; exactly the edges ending at v. */
    method IncomingEdges(v: VertexId) returns (result: seq<EdgeId>)
      requires Valid() && v in vertices
      ensures result == ConjugateAll(vertices[ConjugateVertex(v)].outgoing, State().EdgeConjugates())
      ensures forall e :: e in result <==> e in edges && EdgeEnd(e) == v
    {
      IncomingAll(State(), v);
      var rcv := ConjugateVertex(v);
      result := ConjugateEach(vertices[rcv].outgoing, Twins());
    }

    /** IncomingEdges' loop: the twin of each edge of es, in order. */
    static method ConjugateEach(es: seq<EdgeId>, conj: map<EdgeId, EdgeId>) returns (result: seq<EdgeId>)
      requires forall f :: f in es ==> f in conj
      ensures result == ConjugateAll(es, conj)
    {
      result := [];
      for i := 0 to |es|
        invariant |result| == i
        invariant forall t :: 0 <= t < i ==> result[t] == conj[es[t]]
      {
        result := result + [conj[es[i]]];
      }
    }

    /** The second loop of IncidentEdges as written: for each edge f of ins
        the twin conj[f] is appended unless f itself is already listed. */
    static method ScanTwins(acc: seq<EdgeId>, ins: seq<EdgeId>, conj: map<EdgeId, EdgeId>)
      returns (result: seq<EdgeId>)
      requires forall f :: f in ins ==> f in conj
      ensures result == IncidentScan(acc, ins, conj)
    {
      result := acc;
      for i := 0 to |ins|
        invariant result == IncidentScan(acc, ins[..i], conj)
      {
        assert ins[..i + 1] == ins[..i] + [ins[i]];
        IncidentScanSnoc(acc, ins[..i], ins[i], conj);
        var found := Find(result, ins[i]);
        if !found {
          result := result + [conj[ins[i]]];
        }
      }
      assert ins[..|ins|] == ins;
    }

    /** The corrected second loop: the twin conj[f] is appended unless the twin
        is already listed. */
    static method AppendTwins(acc: seq<EdgeId>, ins: seq<EdgeId>, conj: map<EdgeId, EdgeId>)
      returns (result: seq<EdgeId>)
      requires forall f :: f in ins ==> f in conj
      ensures result == AppendNew(acc, ConjugateAll(ins, conj))
    {
      ghost var cs := ConjugateAll(ins, conj);
      result := acc;
      for i := 0 to |ins|
        invariant result == AppendNew(acc, cs[..i])
      {
        assert cs[..i + 1] == cs[..i] + [cs[i]];
        AppendNewSnoc(acc, cs[..i], cs[i]);
        var c := conj[ins[i]];
        var found := Find(result, c);
        if !found {
          result := result + [c];
        }
      }
      assert cs[..|ins|] == cs;
    }

    /** The loop of NeighbouringEdges: the members of xs not yet listed are
        appended, in order. */
    static method AppendAbsent(acc: seq<EdgeId>, xs: seq<EdgeId>) returns (result: seq<EdgeId>)
      ensures result == AppendNew(acc, xs)
    {
      result := acc;
      for i := 0 to |xs|
        invariant result == AppendNew(acc, xs[..i])
      {
        assert xs[..i + 1] == xs[..i] + [xs[i]];
        AppendNewSnoc(acc, xs[..i], xs[i]);
        var found := Find(result, xs[i]);
        if !found {
          result := result + [xs[i]];
        }
      }
      assert xs[..|xs|] == xs;
    }

    /** IncidentEdges as written: the outgoing edges of v, then the twin of
        every edge leaving conjugate(v), skipped when that edge itself (rather
        than its twin) is already listed. Everything listed touches v. */
    method IncidentEdges(v: VertexId) returns (result: seq<EdgeId>)
      requires Valid() && v in vertices
      ensures result == IncidentScan(vertices[v].outgoing, vertices[ConjugateVertex(v)].outgoing,
                                     State().EdgeConjugates())
      ensures forall e :: e in result ==> e in edges && (EdgeStart(e) == v || EdgeEnd(e) == v)
    {
      var out := vertices[v].outgoing;
      var ins := vertices[ConjugateVertex(v)].outgoing;
      var m := State().EdgeConjugates();
      IncomingExactly(State(), v, 0);
      result := ScanTwins(out, ins, m);
      forall e | e in result ensures e in edges && (EdgeStart(e) == v || EdgeEnd(e) == v) {
        IncidentScanWithin(out, ins, m, e);
        IncomingExactly(State(), v, e);
      }
    }

    /** IncidentEdges with the duplicate test applied to the edge about to be
        added: every edge that starts or ends at v, each exactly once. */
    method IncidentEdgesCorrected(v: VertexId) returns (result: seq<EdgeId>)
      requires Valid() && v in vertices
      ensures result == AppendNew(vertices[v].outgoing,
                                  ConjugateAll(vertices[ConjugateVertex(v)].outgoing, State().EdgeConjugates()))
      ensures NoDuplicates(result)
      ensures forall e :: e in result <==> e in edges && (EdgeStart(e) == v || EdgeEnd(e) == v)
    {
      var out := vertices[v].outgoing;
      var ins := vertices[ConjugateVertex(v)].outgoing;
      var m := State().EdgeConjugates();
      IncomingExactly(State(), v, 0);
      result := AppendTwins(out, ins, m);
      AppendNewDistinct(out, ConjugateAll(ins, m));
      forall e ensures e in result <==> e in edges && (EdgeStart(e) == v || EdgeEnd(e) == v) {
        IncomingExactly(State(), v, e);
      }
    }

    /** NeighbouringEdges as written: IncidentEdges of the start of e, then the
        members of IncidentEdges of the end of e not listed yet. It inherits
        both defects of IncidentEdges; everything listed touches an end of e. */
    method NeighbouringEdges(e: EdgeId) returns (result: seq<EdgeId>)
      requires Valid() && e in edges
      ensures var m := State().EdgeConjugates();
              var vIn := EdgeStart(e);
              var vOut := EdgeEnd(e);
              result == AppendNew(IncidentScan(vertices[vIn].outgoing, vertices[ConjugateVertex(vIn)].outgoing, m),
                                  IncidentScan(vertices[vOut].outgoing, vertices[ConjugateVertex(vOut)].outgoing, m))
      ensures forall x :: x in result ==>
                x in edges && (EdgeStart(x) == EdgeStart(e) || EdgeEnd(x) == EdgeStart(e)
                               || EdgeStart(x) == EdgeEnd(e) || EdgeEnd(x) == EdgeEnd(e))
    {
      var vOut := EdgeEnd(e);
      var vIn := EdgeStart(e);
      var first := IncidentEdges(vIn);
      var outRes := IncidentEdges(vOut);
      result := AppendAbsent(first, outRes);
    }

    /** NeighbouringEdges built on IncidentEdgesCorrected: the edges incident
        to the start or to the end of e, each once. */
    method NeighbouringEdgesCorrected(e: EdgeId) returns (result: seq<EdgeId>)
      requires Valid() && e in edges
      ensures NoDuplicates(result)
      ensures forall x :: x in result <==>
                x in edges && (EdgeStart(x) == EdgeStart(e) || EdgeEnd(x) == EdgeStart(e)
                               || EdgeStart(x) == EdgeEnd(e) || EdgeEnd(x) == EdgeEnd(e))
    {
      var vOut := EdgeEnd(e);
      var vIn := EdgeStart(e);
      var first := IncidentEdgesCorrected(vIn);
      var outRes := IncidentEdgesCorrected(vOut);
      result := AppendAbsent(first, outRes);
      AppendNewDistinct(first, outRes);
      forall x ensures x in result <==> x in first || x in outRes {
      }
    }
    /** OutgoingEdge: the first edge leaving v whose base after the k-mer of v
        is nucl, if there is one. */
    method OutgoingEdge(v: VertexId, nucl: char) returns (r: Option<EdgeId>)
      requires Valid() && v in vertices
      ensures r.Some? ==> r.value in edges && EdgeStart(r.value) == v && EdgeNucls(r.value)[k] == nucl
      ensures r.Some? ==> exists j :: 0 <= j < |vertices[v].outgoing| && vertices[v].outgoing[j] == r.value
                            && forall t :: 0 <= t < j ==> EdgeNucls(vertices[v].outgoing[t])[k] != nucl
      ensures r.None? <==> forall f :: f in edges && EdgeStart(f) == v ==> EdgeNucls(f)[k] != nucl
    {
      OutgoingAll(State(), v);
      var es := vertices[v].outgoing;
      for i := 0 to |es|
        invariant forall t :: 0 <= t < i ==> edges[es[t]].nucls[k] != nucl
      {
        var lastNucl := EdgeNucls(es[i])[k];
        if lastNucl == nucl {
          return Some(es[i]);
        }
      }
      return None;
    }
 
    // ---- Merging

    /** CorrectMergePath, over the conjugate links of the edges: a path that
        runs through a self-conjugate edge is replaced by the path centred on
        the first such edge, its tail filled with the twins of the edges
        mirrored across the centre. */
    static method CorrectMergePath(path: seq<EdgeId>, conj: map<EdgeId, EdgeId>) returns (result: seq<EdgeId>)
      requires Involution(conj) && forall e :: e in path ==> e in conj
      ensures result == CorrectedPath(path, conj)
    {
      var i := 0;
      while i < |path| && path[i] != conj[path[i]]
        invariant 0 <= i <= |path|
        invariant forall j :: 0 <= j < i ==> conj[path[j]] != path[j]
      {
        i := i + 1;
      }
      if i == |path| {
        CorrectedPathPlain(path, conj);
        return path;
      }
      FirstSelfConjugateAt(path, conj, i);
      CorrectedPathPadded(path, conj, i);
      var mid := i;
      if i < |path| - 1 - i {
        result := TwinPath(path, conj);
        mid := |path| - 1 - i;
      } else {
        result := path;
      }
      result := PadWithTwins(result, 2 * mid + 1, conj);
    }

    /** The first loop of CorrectMergePath's mirrored case: the twins of the
        path's edges, last edge first. */
    static method TwinPath(path: seq<EdgeId>, conj: map<EdgeId, EdgeId>) returns (result: seq<EdgeId>)
      requires forall e :: e in path ==> e in conj
      ensures result == ConjugateReverse(path, conj)
    {
      result := [];
      for j := 0 to |path|
        invariant |result| == j
        invariant forall h :: 0 <= h < j ==> result[h] == conj[path[|path| - 1 - h]]
      {
        result := result + [conj[path[|path| - 1 - j]]];
      }
    }

    /** The second loop: until the path has size edges, each new position j
        takes the twin of the edge at size-1-j. */
    static method PadWithTwins(r: seq<EdgeId>, size: nat, conj: map<EdgeId, EdgeId>) returns (result: seq<EdgeId>)
      requires forall e :: e in r ==> e in conj
      requires |r| <= size <= 2 * |r|
      ensures result == PadMirror(r, size, conj)
    {
      result := r;
      for j := |r| to size
        invariant |result| == j
        invariant forall h :: 0 <= h < |r| ==> result[h] == r[h]
        invariant forall h :: |r| <= h < j ==> result[h] == conj[r[size - 1 - h]]
      {
        result := result + [conj[result[size - 1 - j]]];
      }
    }

    /** The SequenceBuilder of AddMergedEdge: the first k bases of the first
        edge, then each edge of the path without its first k bases. */
    method MergedNucls(path: seq<EdgeId>) returns (sb: Nucls)
      requires Valid() && |path| > 0 && forall f :: f in path ==> f in edges
      ensures sb == Joined(State().PathNucls(path), k)
    {
      ghost var ss := State().PathNucls(path);
      sb := EdgeNucls(path[0])[..k];
      for i := 0 to |path|
        invariant sb == ss[0][..k] + Tails(ss[..i], k)
      {
        HeadTailsStep(ss, i, k);
        assert EdgeNucls(path[i]) == ss[i];
        sb := sb + EdgeNucls(path[i])[k..];
      }
      assert ss[..|path|] == ss;
      JoinedIsHeadAndTails(ss, k);
    }

    /** AddMergedEdge: a new edge pair from the start of the path's first edge
        to the end of its last, whose sequence is the first k bases of the
        first edge followed by every edge without its first k bases. The
        coverage is left at 0 and the handlers are not told. */
    method AddMergedEdge(path: seq<EdgeId>) returns (e: EdgeId)
      requires Valid() && CanAddMerged(State(), path)
      modifies this
      ensures State() == MergeAdded(old(State()), path)
      ensures Valid() && e == old(nextEdge) && e !in old(edges)
    {
      ghost var s := State();
      var v1 := EdgeStart(path[0]);
      var v2 := EdgeEnd(path[|path| - 1]);
      var sb := MergedNucls(path);
      e := HiddenAddEdge(v1, v2, sb, 0);
    }

    /** MergePath: the corrected path is replaced by one new edge pair. The
        handlers hear of the merge once the new edge exists, then of the
        deletions DeletePath makes, and last of the new edge. */
    method MergePath(path: seq<EdgeId>) returns (newEdge: EdgeId, ghost edgeOrder: seq<EdgeId>, ghost vertexOrder: seq<VertexId>)
      requires Valid() && CanMergePath(State(), path)
      modifies this, dispatcher
      ensures State() == MergeResult(old(State()), MergedPath(old(State()), path)) && Valid()
      ensures newEdge == old(nextEdge)
      ensures Elems(edgeOrder) == Elems(FirstOfPairs(MergedPath(old(State()), path), old(Twins())))
      ensures dispatcher.log == old(dispatcher.log)
                + Broadcast(dispatcher.handlers, Merged(MergedPath(old(State()), path), newEdge))
                + BroadcastAll(dispatcher.handlers, EdgeDeletions(edgeOrder))
                + BroadcastAll(dispatcher.handlers, VertexDeletions(vertexOrder))
                + Broadcast(dispatcher.handlers, EdgeAdded(newEdge))
    {
      var correctedPath := CorrectMergePath(path, Twins());
      newEdge, edgeOrder, vertexOrder := MergeCorrected(correctedPath);
    }

    /** The part of MergePath after CorrectMergePath, on the corrected path. */
    method MergeCorrected(path: seq<EdgeId>) returns (newEdge: EdgeId, ghost edgeOrder: seq<EdgeId>, ghost vertexOrder: seq<VertexId>)
      requires Valid() && CanMerge(State(), path)
      modifies this, dispatcher
      ensures State() == MergeResult(old(State()), path) && Valid()
      ensures newEdge == old(nextEdge)
      ensures Elems(edgeOrder) == Elems(FirstOfPairs(path, old(Twins())))
      ensures dispatcher.log == old(dispatcher.log)
                + Broadcast(dispatcher.handlers, Merged(path, newEdge))
                + BroadcastAll(dispatcher.handlers, EdgeDeletions(edgeOrder))
                + BroadcastAll(dispatcher.handlers, VertexDeletions(vertexOrder))
                + Broadcast(dispatcher.handlers, EdgeAdded(newEdge))
    {
      ghost var s := State();
      MergeEdgesKept(s, path);
      newEdge := AddMergedEdge(path);
      ghost var log1 := dispatcher.log + Broadcast(dispatcher.handlers, Merged(path, newEdge));
      dispatcher.Fire(Merged(path, newEdge));
      edgeOrder, vertexOrder := DeletePath(path);
      ghost var log2 := log1 + BroadcastAll(dispatcher.handlers, EdgeDeletions(edgeOrder))
                             + BroadcastAll(dispatcher.handlers, VertexDeletions(vertexOrder));
      assert dispatcher.log == log2;
      dispatcher.Fire(EdgeAdded(newEdge));
    }

    /** Merge: the two-edge path edge1, edge2, which must meet at a vertex. */
    method Merge(edge1: EdgeId, edge2: EdgeId) returns (ghost edgeOrder: seq<EdgeId>, ghost vertexOrder: seq<VertexId>)
      requires Valid() && edge1 in edges && edge2 in edges && EdgeEnd(edge1) == EdgeStart(edge2)
      requires CanMergePath(State(), [edge1, edge2])
      modifies this, dispatcher
      ensures State() == MergeResult(old(State()), MergedPath(old(State()), [edge1, edge2])) && Valid()
      ensures dispatcher.log == old(dispatcher.log)
                + Broadcast(dispatcher.handlers, Merged(MergedPath(old(State()), [edge1, edge2]), old(nextEdge)))
                + BroadcastAll(dispatcher.handlers, EdgeDeletions(edgeOrder))
                + BroadcastAll(dispatcher.handlers, VertexDeletions(vertexOrder))
                + Broadcast(dispatcher.handlers, EdgeAdded(old(nextEdge)))
    {
      var toCompress := [edge1, edge2];
      var _, eo, vo := MergePath(toCompress);
      edgeOrder, vertexOrder := eo, vo;
    }

    /** CompressVertex: a vertex with one edge in and one edge out is merged
        away; any other vertex is left alone. */
    method CompressVertex(v: VertexId) returns (ghost edgeOrder: seq<EdgeId>, ghost vertexOrder: seq<VertexId>)
      requires Valid() && v in vertices
      requires CanCompressVertex(v) ==> CanMergePath(State(), [GetUniqueIncomingEdge(v), GetUniqueOutgoingEdge(v)])
      modifies this, dispatcher
      ensures Valid()
      ensures !old(CanCompressVertex(v)) ==> State() == old(State()) && dispatcher.log == old(dispatcher.log)
      ensures old(CanCompressVertex(v)) ==>
                State() == MergeResult(old(State()), MergedPath(old(State()), [old(GetUniqueIncomingEdge(v)), old(GetUniqueOutgoingEdge(v))]))
      ensures old(CanCompressVertex(v)) && old(ConjugateEdge(GetUniqueIncomingEdge(v))) != old(GetUniqueIncomingEdge(v))
              && old(ConjugateEdge(GetUniqueOutgoingEdge(v))) != old(GetUniqueOutgoingEdge(v))
              ==> v !in vertices && old(ConjugateVertex(v)) !in vertices
    {
      edgeOrder, vertexOrder := [], [];
      if CanCompressVertex(v) {
        ghost var s := State();
        var e1 := GetUniqueIncomingEdge(v);
        var e2 := GetUniqueOutgoingEdge(v);
        if ConjugateEdge(e1) != e1 && ConjugateEdge(e2) != e2 {
          MergePlainPair(s, e1, e2);
          MergeRemovesMiddle(s, e1, e2);
        }
        edgeOrder, vertexOrder := Merge(e1, e2);
      }
    }

    // ---- Adding

    /** HiddenAddVertex: a new vertex and its new conjugate, without edges and
        without notification. */
    method HiddenAddVertex() returns (v: VertexId)
      requires Valid()
      modifies this
      ensures State() == old(State()).AddVertexPair()
      ensures Valid() && v == old(nextVertex)
      ensures v !in old(vertices) && ConjugateVertex(v) !in old(vertices)
      ensures vertices.Keys == old(vertices.Keys) + {v, ConjugateVertex(v)}
      ensures vertices[v].outgoing == [] && vertices[ConjugateVertex(v)].outgoing == []
      ensures edges == old(edges)
    {
      ghost var s := State();
      v := nextVertex;
      var v2 := nextVertex + 1;
      vertices := vertices[v := Vertex(v2, [])];
      vertices := vertices[v2 := Vertex(v, [])];
      nextVertex := nextVertex + 2;
      AddVertexPairValid(s);
    }

    /** AddVertex: HiddenAddVertex, then the handlers are told. */
    method AddVertex() returns (v: VertexId)
      requires Valid()
      modifies this, dispatcher
      ensures State() == old(State()).AddVertexPair()
      ensures Valid() && v == old(nextVertex)
      ensures dispatcher.log == old(dispatcher.log) + Broadcast(dispatcher.handlers, VertexAdded(v))
    {
      v := HiddenAddVertex();
      dispatcher.Fire(VertexAdded(v));
    }

    /** AddSingleEdge: a new edge record, listed at the end of v1's outgoing
        edges. Its conjugate is not set yet; the record points at the edge
        itself until HiddenAddEdge links the pair. */
    method AddSingleEdge(v1: VertexId, v2: VertexId, s: Nucls, coverage: nat) returns (e: EdgeId)
      requires v1 in vertices
      modifies this
      ensures e == old(nextEdge) && nextEdge == e + 1 && nextVertex == old(nextVertex)
      ensures edges == old(edges)[e := Edge(v2, e, s, coverage)]
      ensures vertices == old(vertices)[v1 := old(vertices)[v1].(outgoing := old(vertices)[v1].outgoing + [e])]
    {
      e := nextEdge;
      nextEdge := nextEdge + 1;
      edges := edges[e := Edge(v2, e, s, coverage)];
      vertices := vertices[v1 := vertices[v1].(outgoing := vertices[v1].outgoing + [e])];
    }

    /** HiddenAddEdge: an edge v1 -> v2 with the given sequence and, unless the
        sequence is its own reverse complement, a twin conjugate(v2) ->
        conjugate(v1) carrying the reverse complement; the two are linked as
        conjugates. No notification. */
    method HiddenAddEdge(v1: VertexId, v2: VertexId, nucls: Nucls, coverage: nat) returns (e: EdgeId)
      requires Valid() && CanAddEdge(State(), v1, v2, nucls)
      modifies this
      ensures old(vertices[v2].conjugate) in old(vertices)
      ensures State() == old(State()).AddEdgePair(v1, v2, nucls, coverage)
      ensures Valid() && e == old(nextEdge) && e !in old(edges)
    {
      ghost var s := State();
      assert s.VertexValid(v1) && s.VertexValid(v2);
      HandlesBelowNext(s);
      AddEdgePairValid(s, v1, v2, nucls, coverage);
      e := AddEdgeAndTwin(v1, v2, nucls, coverage);
    }

    /** The body of HiddenAddEdge: AddSingleEdge for the edge and, unless the
        sequence is a palindrome, for its twin, then the conjugate links. */
    method AddEdgeAndTwin(v1: VertexId, v2: VertexId, nucls: Nucls, coverage: nat) returns (e: EdgeId)
      requires v1 in vertices && v2 in vertices && vertices[v2].conjugate in vertices
      requires nucls == ReverseComplement(nucls) ==> v2 == vertices[v1].conjugate
      modifies this
      ensures State() == old(State()).AddEdgePair(v1, v2, nucls, coverage)
      ensures e == old(nextEdge)
    {
      ghost var s := State();
      var c1 := vertices[v1].conjugate;
      var c2 := vertices[v2].conjugate;
      e := AddSingleEdge(v1, v2, nucls, coverage);
      var rcEdge := e;
      if nucls != ReverseComplement(nucls) {
        rcEdge := AddSingleEdge(c2, c1, ReverseComplement(nucls), coverage);
      }
      edges := edges[e := edges[e].(conjugate := rcEdge)];
      edges := edges[rcEdge := edges[rcEdge].(conjugate := e)];
      ghost var t := s.AddEdgePair(v1, v2, nucls, coverage);
      assert rcEdge == t.edges[e].conjugate;
      assert edges == t.edges;
      assert vertices == t.vertices;
    }

    /** AddEdge: HiddenAddEdge, then the handlers are told of the new edge
        (not of its twin). */
    method AddEdge(v1: VertexId, v2: VertexId, nucls: Nucls, coverage: nat) returns (e: EdgeId)
      requires Valid() && CanAddEdge(State(), v1, v2, nucls)
      modifies this, dispatcher
      ensures old(vertices[v2].conjugate) in old(vertices)
      ensures State() == old(State()).AddEdgePair(v1, v2, nucls, coverage)
      ensures Valid() && e == old(nextEdge)
      ensures dispatcher.log == old(dispatcher.log) + Broadcast(dispatcher.handlers, EdgeAdded(e))
    {
      e := HiddenAddEdge(v1, v2, nucls, coverage);
      dispatcher.Fire(EdgeAdded(e));
    }

    // ---- Deleting

    /** Vertex::RemoveOutgoingEdge: the first occurrence of e leaves v's list. */
    method RemoveOutgoingEdge(v: VertexId, e: EdgeId)
      requires v in vertices
      modifies this
      ensures vertices == old(vertices)[v := old(vertices)[v].(outgoing := RemoveFirst(old(vertices)[v].outgoing, e))]
      ensures edges == old(edges) && nextVertex == old(nextVertex) && nextEdge == old(nextEdge)
    {
      vertices := vertices[v := vertices[v].(outgoing := RemoveFirst(vertices[v].outgoing, e))];
    }

    /** DeleteEdge: the handlers are told first; then the edge pair is
        removed as HiddenDeleteEdge does. */
    method DeleteEdge(e: EdgeId)
      requires Valid() && e in edges
      modifies this, dispatcher
      ensures State() == old(State()).RemoveEdgePair(e)
      ensures Valid()
      ensures edges == old(edges) - {e, old(edges[e].conjugate)}
      ensures vertices.Keys == old(vertices.Keys)
      ensures dispatcher.log == old(dispatcher.log) + Broadcast(dispatcher.handlers, EdgeDeleted(e))
    {
      dispatcher.Fire(EdgeDeleted(e));
      HiddenDeleteEdge(e);
    }

    /** The removal part of DeleteEdge, without notification: the edge and
        its twin leave the lists of their starts, and both records are
        released (once, for an edge that is its own twin). */
    method HiddenDeleteEdge(e: EdgeId)
      requires Valid() && e in edges
      modifies this
      ensures State() == old(State()).RemoveEdgePair(e)
      ensures Valid()
      ensures edges == old(edges) - {e, old(edges[e].conjugate)}
      ensures vertices.Keys == old(vertices.Keys)
    {
      ghost var s := State();
      var rcEdge := ConjugateEdge(e);
      var rcStart := ConjugateVertex(EdgeEnd(e));
      var start := ConjugateVertex(EdgeEnd(rcEdge));
      RemoveOutgoingEdge(start, e);
      RemoveOutgoingEdge(rcStart, rcEdge);
      if e != rcEdge {
        edges := edges - {rcEdge};
      }
      edges := edges - {e};
      ghost var t := s.RemoveEdgePair(e);
      assert edges == t.edges;
      assert vertices == t.vertices;
      assert State() == t;
      RemoveEdgePairValid(s, e);
      RemoveEdgePairShape(s, e);
    }

    /** DeleteVertex: v must have no edges in or out; the handlers are told,
        then v and its conjugate are released. */
    method DeleteVertex(v: VertexId)
      requires Valid() && v in vertices && IsDeadEnd(v) && IsDeadStart(v)
      modifies this, dispatcher
      ensures State() == old(State()).RemoveVertexPair(v)
      ensures Valid()
      ensures vertices.Keys == old(vertices.Keys) - {v, old(vertices[v].conjugate)}
      ensures edges == old(edges)
      ensures dispatcher.log == old(dispatcher.log) + Broadcast(dispatcher.handlers, VertexDeleted(v))
    {
      ghost var s := State();
      DeadIsIsolated(v);
      dispatcher.Fire(VertexDeleted(v));
      var conjugate := ConjugateVertex(v);
      vertices := vertices - {v};
      vertices := vertices - {conjugate};
      RemoveVertexPairValid(s, v);
    }

    /** A vertex without incoming or outgoing edges has empty lists, and so
        has its conjugate. */
    lemma DeadIsIsolated(v: VertexId)
      requires Valid() && v in vertices && IsDeadEnd(v) && IsDeadStart(v)
      ensures Isolated(State(), v)
    {
      StartingAtCount(State(), v);
      EndingAtCount(State(), v);
      assert StartingAt(State(), v) == {};
      assert EndingAt(State(), v) == {};
    }
 
    /** DeleteAllOutgoing as written: DeleteEdge on every edge of a copy of
        v's list. Deleting an edge deletes its twin too, so the copy must not
        hold both edges of a conjugate pair. */
    method DeleteAllOutgoingAsWritten(v: VertexId)
      requires Valid() && v in vertices
      requires PairFree(OutgoingEdges(v), State().EdgeConjugates())
      modifies this, dispatcher
      ensures State() == old(State()).RemoveEdges(ConjClosure(Elems(old(vertices[v].outgoing)), old(State().EdgeConjugates())))
      ensures Valid() && v in vertices && vertices[v].outgoing == []
      ensures dispatcher.log == old(dispatcher.log) + BroadcastAll(dispatcher.handlers, EdgeDeletions(old(vertices[v].outgoing)))
    {
      ghost var s := State();
      ghost var log0 := dispatcher.log;
      var out := vertices[v].outgoing;
      assert forall f :: f in out ==> f in s.edges;
      RemoveEdgesNothing(s);
      ClosureOfNothing(out, s.EdgeConjugates());
      LogNothing(log0, dispatcher.handlers, out, s.EdgeConjugates());
      for i := 0 to |out|
        invariant Valid() && v in vertices
        invariant State() == s.RemoveEdges(ConjClosure(Elems(out[..i]), s.EdgeConjugates()))
        invariant dispatcher.log == log0 + BroadcastAll(dispatcher.handlers, EdgeDeletions(out[..i]))
      {
        var e := out[i];
        PairFreeStep(s, out, i);
        DeleteStep(s, out, i);
        LogDeletionsStep(log0, dispatcher.handlers, out, i);
        DeleteEdge(e);
      }
      WholeSlice(out);
      RemoveOwnList(s, v);
    }

    /** DeleteAllOutgoing, skipping an edge that an earlier deletion already
        took along as a twin: every edge leaving v goes, and the handlers
        hear of each conjugate pair once. */
    method DeleteAllOutgoing(v: VertexId)
      requires Valid() && v in vertices
      modifies this, dispatcher
      ensures State() == old(State()).RemoveEdges(ConjClosure(Elems(old(vertices[v].outgoing)), old(State().EdgeConjugates())))
      ensures Valid() && v in vertices && vertices[v].outgoing == []
      ensures dispatcher.log == old(dispatcher.log)
                + BroadcastAll(dispatcher.handlers, EdgeDeletions(FirstOfPairs(old(vertices[v].outgoing), old(State().EdgeConjugates()))))
    {
      ghost var s := State();
      ghost var log0 := dispatcher.log;
      var out := vertices[v].outgoing;
      assert forall f :: f in out ==> f in s.edges;
      RemoveEdgesNothing(s);
      ClosureOfNothing(out, s.EdgeConjugates());
      LogNothing(log0, dispatcher.handlers, out, s.EdgeConjugates());
      for i := 0 to |out|
        invariant Valid() && v in vertices
        invariant State() == s.RemoveEdges(ConjClosure(Elems(out[..i]), s.EdgeConjugates()))
        invariant dispatcher.log == log0 + BroadcastAll(dispatcher.handlers, EdgeDeletions(FirstOfPairs(out[..i], s.EdgeConjugates())))
      {
        DeleteOutgoingAt(s, out, i, log0);
      }
      WholeSlice(out);
      RemoveOwnList(s, v);
    }

    /** One turn of DeleteAllOutgoing's loop: the i-th edge of the copied list
        is deleted unless an earlier deletion already took it along as a twin. */
    method DeleteOutgoingAt(ghost s: GraphState, out: seq<EdgeId>, i: nat, ghost log0: seq<Notification>)
      requires s.Valid() && (forall f :: f in out ==> f in s.edges) && i < |out|
      requires Valid() && State() == s.RemoveEdges(ConjClosure(Elems(out[..i]), s.EdgeConjugates()))
      requires dispatcher.log == log0 + BroadcastAll(dispatcher.handlers, EdgeDeletions(FirstOfPairs(out[..i], s.EdgeConjugates())))
      modifies this, dispatcher
      ensures Valid() && State() == s.RemoveEdges(ConjClosure(Elems(out[..i + 1]), s.EdgeConjugates()))
      ensures dispatcher.log == log0 + BroadcastAll(dispatcher.handlers, EdgeDeletions(FirstOfPairs(out[..i + 1], s.EdgeConjugates())))
    {
      var e := out[i];
      LogFirstOfPairsStep(log0, dispatcher.handlers, out, i, s.EdgeConjugates());
      PresentStep(s, out, i);
      if e in edges {
        DeleteStep(s, out, i);
        DeleteEdge(e);
      } else {
        SkipStep(s, out, i);
      }
    }

    /** ForceDeleteVertex: every edge leaving v, then every edge leaving
        conjugate(v) (so every edge touching the pair), then the pair itself. */
    method ForceDeleteVertex(v: VertexId)
      requires Valid() && v in vertices
      modifies this, dispatcher
      ensures State() == old(State()).RemoveEdges(Touching(old(State()), v)).RemoveVertexPair(v)
      ensures Valid()
      ensures vertices.Keys == old(vertices.Keys) - {v, old(vertices[v].conjugate)}
      ensures edges.Keys == old(edges.Keys) - Touching(old(State()), v)
      ensures var m := old(State().EdgeConjugates());
              var first := old(vertices[v].outgoing);
              var second := Without(old(vertices[ConjugateVertex(v)].outgoing), ConjClosure(Elems(first), m));
              dispatcher.log == old(dispatcher.log)
                + BroadcastAll(dispatcher.handlers, EdgeDeletions(FirstOfPairs(first, m)))
                + BroadcastAll(dispatcher.handlers, EdgeDeletions(FirstOfPairs(second, m)))
                + Broadcast(dispatcher.handlers, VertexDeleted(v))
    {
      ghost var s := State();
      var c := ConjugateVertex(v);
      ForceDeleteRest(s, v);
      ForceDeleteEdges(s, v);
      ghost var m := s.EdgeConjugates();
      ghost var first := s.vertices[v].outgoing;
      ghost var second := Without(s.vertices[c].outgoing, ConjClosure(Elems(first), m));
      ghost var log1 := dispatcher.log + BroadcastAll(dispatcher.handlers, EdgeDeletions(FirstOfPairs(first, m)));
      DeleteAllOutgoing(v);
      assert dispatcher.log == log1;
      DeleteAllOutgoing(c);
      assert dispatcher.log == log1 + BroadcastAll(dispatcher.handlers, EdgeDeletions(FirstOfPairs(second, m)));
      DeleteVertex(v);
    }

    /** The two sets DeletePath collects: one edge of each conjugate pair on
        the path (the first edge always), and one vertex of each conjugate
        pair among the starts of the edges after the first. */
    method CollectPath(path: seq<EdgeId>) returns (edgesToDelete: set<EdgeId>, verticesToDelete: set<VertexId>)
      requires Valid() && |path| > 0 && forall e :: e in path ==> e in edges
      ensures edgesToDelete == Elems(FirstOfPairs(path, Twins()))
      ensures verticesToDelete == Elems(FirstOfPairs(State().InteriorStarts(path), VertexTwins()))
    {
      ghost var starts := State().InteriorStarts(path);
      FirstOfPairsStart(path, Twins());
      assert starts[..0] == [];
      edgesToDelete := {path[0]};
      verticesToDelete := {};
      for i := 0 to |path| - 1
        invariant edgesToDelete == Elems(FirstOfPairs(path[..i + 1], Twins()))
        invariant verticesToDelete == Elems(FirstOfPairs(starts[..i], VertexTwins()))
      {
        edgesToDelete, verticesToDelete := CollectStep(path, i, edgesToDelete, verticesToDelete);
      }
      assert path[..|path|] == path && starts[..|path| - 1] == starts;
    }

    /** One turn of CollectPath's loop, for the edge path[i+1]. */
    method CollectStep(path: seq<EdgeId>, i: nat, es: set<EdgeId>, vs: set<VertexId>)
      returns (es': set<EdgeId>, vs': set<VertexId>)
      requires Valid() && (forall e :: e in path ==> e in edges) && i + 1 < |path|
      requires es == Elems(FirstOfPairs(path[..i + 1], Twins()))
      requires vs == Elems(FirstOfPairs(State().InteriorStarts(path)[..i], VertexTwins()))
      ensures es' == Elems(FirstOfPairs(path[..i + 2], Twins()))
      ensures vs' == Elems(FirstOfPairs(State().InteriorStarts(path)[..i + 1], VertexTwins()))
    {
      CollectFacts(State(), path, i);
      var e := path[i + 1];
      es' := es;
      if ConjugateEdge(e) !in es {
        es' := es + {e};
      }
      var v := EdgeStart(e);
      vs' := vs;
      if ConjugateVertex(v) !in vs {
        vs' := vs + {v};
      }
    }

    /** The first loop of DeletePath: DeleteEdge on each member of a set
        holding at most one edge of each conjugate pair, in the set's order. */
    method DeleteEdgeSet(reps: set<EdgeId>) returns (ghost order: seq<EdgeId>)
      requires Valid() && (forall e :: e in reps ==> e in edges) && SetPairFree(reps, Twins())
      modifies this, dispatcher
      ensures State() == old(State()).RemoveEdges(ConjClosure(reps, old(Twins())))
      ensures Valid() && Elems(order) == reps
      ensures dispatcher.log == old(dispatcher.log) + BroadcastAll(dispatcher.handlers, EdgeDeletions(order))
    {
      ghost var s := State();
      ghost var m := Twins();
      ghost var log0 := dispatcher.log;
      var rest := reps;
      order := [];
      RemoveEdgesNothing(s);
      assert ConjClosure(reps - rest, m) == {};
      assert EdgeReps(s, reps);
      while rest != {}
        invariant rest <= reps && Valid()
        invariant State() == s.RemoveEdges(ConjClosure(reps - rest, m))
        invariant Elems(order) == reps - rest
        invariant dispatcher.log == log0 + BroadcastAll(dispatcher.handlers, EdgeDeletions(order))
        decreases rest
      {
        var e :| e in rest;
        SetWorkStep(reps, rest, order, e);
        DeleteEdgeOfSet(s, reps, reps - rest, e, log0, order);
        order := order + [e];
        rest := rest - {e};
      }
      assert reps - rest == reps;
    }

    /** One turn of DeleteEdgeSet's loop: e, not handled yet, is deleted. */
    method DeleteEdgeOfSet(ghost s: GraphState, ghost reps: set<EdgeId>, ghost done: set<EdgeId>, e: EdgeId,
                           ghost log0: seq<Notification>, ghost order: seq<EdgeId>)
      requires EdgeReps(s, reps) && done <= reps && e in reps && e !in done
      requires Valid() && State() == s.RemoveEdges(ConjClosure(done, s.EdgeConjugates()))
      requires dispatcher.log == log0 + BroadcastAll(dispatcher.handlers, EdgeDeletions(order))
      modifies this, dispatcher
      ensures Valid() && State() == s.RemoveEdges(ConjClosure(done + {e}, s.EdgeConjugates()))
      ensures dispatcher.log == log0 + BroadcastAll(dispatcher.handlers, EdgeDeletions(order + [e]))
    {
      EdgeSetStep(s, reps, done, e);
      LogEdgeDeletionsSnoc(log0, dispatcher.handlers, order, e);
      DeleteEdge(e);
    }

    /** The second loop of DeletePath: DeleteVertex on each member of a set
        holding at most one vertex of each conjugate pair, each with its
        conjugate already left without edges. */
    method DeleteVertexSet(reps: set<VertexId>) returns (ghost order: seq<VertexId>)
      requires Valid() && (forall x :: x in reps ==> x in vertices) && SetPairFree(reps, VertexTwins())
      requires forall x :: x in reps ==> vertices[x].outgoing == [] && vertices[ConjugateVertex(x)].outgoing == []
      modifies this, dispatcher
      ensures State() == old(State()).RemoveVertices(ConjClosure(reps, old(VertexTwins())))
      ensures Valid() && Elems(order) == reps
      ensures dispatcher.log == old(dispatcher.log) + BroadcastAll(dispatcher.handlers, VertexDeletions(order))
    {
      ghost var s := State();
      ghost var m := VertexTwins();
      ghost var log0 := dispatcher.log;
      var rest := reps;
      order := [];
      RemoveVerticesNothing(s);
      assert ConjClosure(reps - rest, m) == {};
      assert VertexReps(s, reps);
      while rest != {}
        invariant rest <= reps && Valid()
        invariant State() == s.RemoveVertices(ConjClosure(reps - rest, m))
        invariant Elems(order) == reps - rest
        invariant dispatcher.log == log0 + BroadcastAll(dispatcher.handlers, VertexDeletions(order))
        decreases rest
      {
        var x :| x in rest;
        SetWorkStep(reps, rest, order, x);
        DeleteVertexOfSet(s, reps, reps - rest, x, log0, order);
        order := order + [x];
        rest := rest - {x};
      }
      assert reps - rest == reps;
    }

    /** One turn of DeleteVertexSet's loop: x, not handled yet, is deleted. */
    method DeleteVertexOfSet(ghost s: GraphState, ghost reps: set<VertexId>, ghost done: set<VertexId>, x: VertexId,
                             ghost log0: seq<Notification>, ghost order: seq<VertexId>)
      requires VertexReps(s, reps) && done <= reps && x in reps && x !in done
      requires Valid() && State() == s.RemoveVertices(ConjClosure(done, s.VertexConjugates()))
      requires dispatcher.log == log0 + BroadcastAll(dispatcher.handlers, VertexDeletions(order))
      modifies this, dispatcher
      ensures Valid() && State() == s.RemoveVertices(ConjClosure(done + {x}, s.VertexConjugates()))
      ensures dispatcher.log == log0 + BroadcastAll(dispatcher.handlers, VertexDeletions(order + [x]))
    {
      VertexSetStep(s, reps, done, x);
      LogVertexDeletionsSnoc(log0, dispatcher.handlers, order, x);
      DeleteVertex(x);
    }

    /** DeletePath: every edge of the path goes with its twin, then every
        vertex the path passes through goes with its conjugate; the handlers
        hear of one edge per conjugate pair and one vertex per conjugate pair.
        std::set orders by handle address, which the model leaves open. */
    method DeletePath(path: seq<EdgeId>) returns (ghost edgeOrder: seq<EdgeId>, ghost vertexOrder: seq<VertexId>)
      requires Valid() && |path| > 0 && (forall e :: e in path ==> e in edges)
      requires State().CanDeletePath(path)
      modifies this, dispatcher
      ensures State() == old(State()).RemoveEdges(ConjClosure(Elems(path), old(Twins())))
                                     .RemoveVertices(ConjClosure(Elems(old(State()).InteriorStarts(path)), old(VertexTwins())))
      ensures Valid()
      ensures Elems(edgeOrder) == Elems(FirstOfPairs(path, old(Twins())))
      ensures Elems(vertexOrder) == Elems(FirstOfPairs(old(State()).InteriorStarts(path), old(VertexTwins())))
      ensures dispatcher.log == old(dispatcher.log) + BroadcastAll(dispatcher.handlers, EdgeDeletions(edgeOrder))
                                + BroadcastAll(dispatcher.handlers, VertexDeletions(vertexOrder))
    {
      ghost var s := State();
      ghost var m := Twins();
      ghost var vm := VertexTwins();
      ghost var starts := s.InteriorStarts(path);
      ghost var d := ConjClosure(Elems(path), m);
      var edgesToDelete, verticesToDelete := CollectPath(path);
      FirstOfPairsSetPairFree(path, m);
      FirstOfPairsClosure(path, m);
      FirstOfPairsSetPairFree(starts, vm);
      FirstOfPairsClosure(starts, vm);
      PathEmptied(s, path);
      RemoveEdgesVertexConjugates(s, d);
      ghost var log0 := dispatcher.log;
      edgeOrder := DeleteEdgeSet(edgesToDelete);
      ghost var log1 := dispatcher.log;
      assert log1 == log0 + BroadcastAll(dispatcher.handlers, EdgeDeletions(edgeOrder));
      assert State() == s.RemoveEdges(d);
      vertexOrder := DeleteVertexSet(verticesToDelete);
    }

    // ---- Splitting

    /** SplitEdge: edge becomes two edges through a fresh vertex, the first
        carrying its first position + k bases, the second everything from
        position on; the two overlap by k bases. The handlers hear of the
        split, of the fresh vertex and of both new edges before the old edge
        is deleted (which they are told of too). */
    method SplitEdge(edge: EdgeId, position: nat) returns (newEdge1: EdgeId, newEdge2: EdgeId)
      requires Valid() && CanSplit(State(), edge, position)
      modifies this, dispatcher
      ensures State() == SplitResult(old(State()), edge, position) && Valid()
      ensures newEdge1 == old(nextEdge) && newEdge2 == old(nextEdge) + 2
      ensures dispatcher.log == old(dispatcher.log)
                + Broadcast(dispatcher.handlers, Split(edge, newEdge1, newEdge2))
                + Broadcast(dispatcher.handlers, VertexAdded(old(nextVertex)))
                + Broadcast(dispatcher.handlers, EdgeAdded(newEdge1))
                + Broadcast(dispatcher.handlers, EdgeAdded(newEdge2))
                + Broadcast(dispatcher.handlers, EdgeDeleted(edge))
    {
      ghost var s := State();
      var s1 := EdgeNucls(edge)[..position + k];
      var s2 := EdgeNucls(edge)[position..];
      SplitPiecesRejoin(s, edge, position);
      assert s1 + s2[k..] == EdgeNucls(edge);
      SplitVertexStep(s, edge, position);
      var splitVertex := HiddenAddVertex();
      newEdge1 := HiddenAddEdge(EdgeStart(edge), splitVertex, s1, DefaultCoverage);
      SplitFirstStep(s, edge, position);
      SplitSecondStep(s, edge, position);
      assert State() == SplitFirstAdded(s, edge, position);
      newEdge2 := HiddenAddEdge(splitVertex, EdgeEnd(edge), s2, DefaultCoverage);
      assert State() == SplitAdded(s, edge, position);
      SplitValid(s, edge, position);
      dispatcher.Fire(Split(edge, newEdge1, newEdge2));
      dispatcher.Fire(VertexAdded(splitVertex));
      dispatcher.Fire(EdgeAdded(newEdge1));
      dispatcher.Fire(EdgeAdded(newEdge2));
      DeleteEdge(edge);
    }

    // ---- Gluing

    /** The first half of GlueEdges: a copy of edge2 from its start to its
        end, and the handlers told of the glue, of the deletion of both edges
        and of the copy. */
    method GlueCopy(edge1: EdgeId, edge2: EdgeId) returns (newEdge: EdgeId)
      requires Valid() && edge1 in edges && edge2 in edges
      modifies this, dispatcher
      ensures State() == GlueAdded(old(State()), edge2) && Valid()
      ensures newEdge == old(nextEdge)
      ensures dispatcher.log == old(dispatcher.log)
                + Broadcast(dispatcher.handlers, Glued(newEdge, edge1, edge2))
                + Broadcast(dispatcher.handlers, EdgeDeleted(edge1))
                + Broadcast(dispatcher.handlers, EdgeDeleted(edge2))
                + Broadcast(dispatcher.handlers, EdgeAdded(newEdge))
    {
      CopyAddable(State(), edge2);
      newEdge := HiddenAddEdge(EdgeStart(edge2), EdgeEnd(edge2), EdgeNucls(edge2), DefaultCoverage);
      dispatcher.Fire(Glued(newEdge, edge1, edge2));
      dispatcher.Fire(EdgeDeleted(edge1));
      dispatcher.Fire(EdgeDeleted(edge2));
      dispatcher.Fire(EdgeAdded(newEdge));
    }

    /** IsDeadStart(v) && IsDeadEnd(v), then DeleteVertex(v); a vertex
        already released is skipped. */
    method DeleteIfDead(v: VertexId) returns (ghost deleted: seq<VertexId>)
      requires Valid()
      modifies this, dispatcher
      ensures State() == RemoveIfDead(old(State()), v) && Valid()
      ensures deleted == DeadList(old(State()), v)
      ensures dispatcher.log == old(dispatcher.log) + BroadcastAll(dispatcher.handlers, VertexDeletions(deleted))
    {
      deleted := [];
      if v in vertices && IsDeadStart(v) && IsDeadEnd(v) {
        DeadIsIsolated(v);
        DeleteVertex(v);
        deleted := [v];
        assert VertexDeletions([v]) == [VertexDeleted(v)];
        BroadcastAllSnoc(dispatcher.handlers, [], VertexDeleted(v));
      }
    }

    /** The end of GlueEdges: the start of edge1, then its end, is deleted
        when it is left without edges (the end is skipped when it went with
        the start). */
    method GlueFinish(start: VertexId, end: VertexId) returns (ghost deleted: seq<VertexId>)
      requires Valid()
      modifies this, dispatcher
      ensures State() == GlueTail(old(State()), start, end) && Valid()
      ensures deleted == GlueTailDeaths(old(State()), start, end)
      ensures dispatcher.log == old(dispatcher.log) + BroadcastAll(dispatcher.handlers, VertexDeletions(deleted))
    {
      ghost var s := State();
      GlueTailSteps(s, start, end);
      LogVertexDeletionsAppend(dispatcher.log, dispatcher.handlers, DeadList(s, start), DeadList(RemoveIfDead(s, start), end));
      var d1 := DeleteIfDead(start);
      var d2 := DeleteIfDead(end);
      deleted := d1 + d2;
    }

    /** GlueEdges as written: edge1 is replaced by a copy of edge2. The
        handlers are told that edge2 is deleted, but only edge1 is; and
        DeleteEdge tells them of edge1 a second time. */
    method GlueEdges(edge1: EdgeId, edge2: EdgeId) returns (ghost deleted: seq<VertexId>)
      requires Valid() && edge1 in edges && edge2 in edges
      modifies this, dispatcher
      ensures State() == GlueAsWritten(old(State()), edge1, edge2) && Valid()
      ensures deleted == GlueAsWrittenDeaths(old(State()), edge1, edge2)
      ensures dispatcher.log == old(dispatcher.log)
                + Broadcast(dispatcher.handlers, Glued(old(nextEdge), edge1, edge2))
                + Broadcast(dispatcher.handlers, EdgeDeleted(edge1))
                + Broadcast(dispatcher.handlers, EdgeDeleted(edge2))
                + Broadcast(dispatcher.handlers, EdgeAdded(old(nextEdge)))
                + Broadcast(dispatcher.handlers, EdgeDeleted(edge1))
                + BroadcastAll(dispatcher.handlers, VertexDeletions(deleted))
    {
      ghost var s := State();
      GlueAddedFacts(s, edge2);
      GlueFirstDeletedFacts(s, edge1, edge2);
      var _ := GlueCopy(edge1, edge2);
      var start := EdgeStart(edge1);
      var end := EdgeEnd(edge1);
      DeleteEdge(edge1);
      assert State() == GlueFirstDeleted(s, edge1, edge2);
      deleted := GlueFinish(start, end);
    }

    /** GlueEdges corrected: both edge1 and edge2 are deleted (without
        further notification), so that the copy of edge2 takes the place of
        both. */
    method GlueEdgesCorrected(edge1: EdgeId, edge2: EdgeId) returns (ghost deleted: seq<VertexId>)
      requires Valid() && edge1 in edges && edge2 in edges
      modifies this, dispatcher
      ensures State() == GlueResult(old(State()), edge1, edge2) && Valid()
      ensures deleted == GlueDeaths(old(State()), edge1, edge2)
      ensures dispatcher.log == old(dispatcher.log)
                + Broadcast(dispatcher.handlers, Glued(old(nextEdge), edge1, edge2))
                + Broadcast(dispatcher.handlers, EdgeDeleted(edge1))
                + Broadcast(dispatcher.handlers, EdgeDeleted(edge2))
                + Broadcast(dispatcher.handlers, EdgeAdded(old(nextEdge)))
                + BroadcastAll(dispatcher.handlers, VertexDeletions(deleted))
    {
      ghost var s := State();
      GlueAddedFacts(s, edge2);
      GlueFirstDeletedFacts(s, edge1, edge2);
      GlueBothDeletedFacts(s, edge1, edge2);
      var _ := GlueCopy(edge1, edge2);
      ghost var log1 := dispatcher.log;
      var start := EdgeStart(edge1);
      var end := EdgeEnd(edge1);
      HiddenDeleteBoth(s, edge1, edge2);
      assert dispatcher.log == log1;
      deleted := GlueFinish(start, end);
    }

    /** The deletions of the corrected GlueEdges: edge1, then edge2 unless it
        went with edge1. */
    method HiddenDeleteBoth(ghost s: GraphState, edge1: EdgeId, edge2: EdgeId)
      requires s.Valid() && edge1 in s.edges && edge2 in s.edges
      requires Valid() && State() == GlueAdded(s, edge2)
      modifies this
      ensures State() == GlueBothDeleted(s, edge1, edge2) && Valid()
    {
      GlueAddedFacts(s, edge2);
      GlueFirstDeletedFacts(s, edge1, edge2);
      HiddenDeleteEdge(edge1);
      assert State() == GlueFirstDeleted(s, edge1, edge2);
      if edge2 in edges {
        HiddenDeleteEdge(edge2);
      }
    }
  }
}
