/** The list computations behind IncomingEdges, IncidentEdges and
    NeighbouringEdges: twin lists, and appending the members of one list that
    another does not hold yet. */
module Incidence {
  import opened Handles

  /** The twins of the edges of fs, in order. */
  function ConjugateAll(fs: seq<EdgeId>, conj: map<EdgeId, EdgeId>): (r: seq<EdgeId>)
    requires forall f :: f in fs ==> f in conj
    ensures |r| == |fs|
    ensures forall i :: 0 <= i < |fs| ==> r[i] == conj[fs[i]]
  {
    seq(|fs|, i requires 0 <= i < |fs| => conj[fs[i]])
  }

  /** Twins of distinct edges are distinct. */
  lemma ConjugateAllDistinct(fs: seq<EdgeId>, conj: map<EdgeId, EdgeId>)
    requires Involution(conj) && (forall f :: f in fs ==> f in conj) && NoDuplicates(fs)
    ensures NoDuplicates(ConjugateAll(fs, conj))
  {
    var r := ConjugateAll(fs, conj);
    forall i, j | 0 <= i < j < |r| ensures r[i] != r[j] {
      assert conj[r[i]] == fs[i] && conj[r[j]] == fs[j];
    }
  }

  /** The loop of NeighbouringEdges: each member of xs not yet in the result
      is appended, in order. */
  function AppendNew(acc: seq<EdgeId>, xs: seq<EdgeId>): (r: seq<EdgeId>)
    ensures |r| >= |acc| && r[..|acc|] == acc
    ensures forall x :: x in r <==> x in acc || x in xs
  {
    if xs == [] then acc
    else
      var p := xs[..|xs| - 1];
      var last := xs[|xs| - 1];
      var rest := AppendNew(acc, p);
      assert forall x :: x in p ==> x in xs;
      assert forall x :: x in xs ==> x in p || x == last;
      if last in rest then rest else rest + [last]
  }

  lemma ConjugateAllSnoc(fs: seq<EdgeId>, f: EdgeId, conj: map<EdgeId, EdgeId>)
    requires (forall x :: x in fs ==> x in conj) && f in conj
    ensures ConjugateAll(fs + [f], conj) == ConjugateAll(fs, conj) + [conj[f]]
  {
  }

  /** One more candidate: it is appended exactly when it is new. */
  lemma AppendNewSnoc(acc: seq<EdgeId>, xs: seq<EdgeId>, x: EdgeId)
    ensures AppendNew(acc, xs + [x]) == if x in AppendNew(acc, xs) then AppendNew(acc, xs) else AppendNew(acc, xs) + [x]
  {
    assert (xs + [x])[..|xs|] == xs;
  }

  /** AppendNew introduces no repetition. */
  lemma {:induction false} AppendNewDistinct(acc: seq<EdgeId>, xs: seq<EdgeId>)
    requires NoDuplicates(acc)
    ensures NoDuplicates(AppendNew(acc, xs))
  {
    if xs != [] {
      var p := xs[..|xs| - 1];
      AppendNewDistinct(acc, p);
      var rest := AppendNew(acc, p);
      if xs[|xs| - 1] !in rest {
        NoDuplicatesSnoc(rest, xs[|xs| - 1]);
      }
    }
  }

  /** The second loop of IncidentEdges as written: for each edge f of ins, in
      order, the twin of f is appended unless f itself already occurs. */
  function IncidentScan(acc: seq<EdgeId>, ins: seq<EdgeId>, conj: map<EdgeId, EdgeId>): (r: seq<EdgeId>)
    requires forall f :: f in ins ==> f in conj
    ensures |r| >= |acc| && r[..|acc|] == acc
  {
    if ins == [] then acc
    else
      var p := ins[..|ins| - 1];
      var f := ins[|ins| - 1];
      assert forall x :: x in p ==> x in ins;
      var rest := IncidentScan(acc, p, conj);
      if f in rest then rest else rest + [conj[f]]
  }

  lemma IncidentScanSnoc(acc: seq<EdgeId>, ins: seq<EdgeId>, f: EdgeId, conj: map<EdgeId, EdgeId>)
    requires (forall x :: x in ins ==> x in conj) && f in conj
    ensures IncidentScan(acc, ins + [f], conj) ==
            if f in IncidentScan(acc, ins, conj) then IncidentScan(acc, ins, conj) else IncidentScan(acc, ins, conj) + [conj[f]]
  {
    assert (ins + [f])[..|ins|] == ins;
  }

  /** Everything IncidentScan lists is in acc or is the twin of an edge of
      ins. */
  lemma {:induction false} IncidentScanWithin(acc: seq<EdgeId>, ins: seq<EdgeId>, conj: map<EdgeId, EdgeId>, x: EdgeId)
    requires forall f :: f in ins ==> f in conj
    requires x in IncidentScan(acc, ins, conj)
    ensures x in acc || x in ConjugateAll(ins, conj)
  {
    if ins != [] {
      var p := ins[..|ins| - 1];
      var f := ins[|ins| - 1];
      assert forall y :: y in p ==> y in ins;
      var rest := IncidentScan(acc, p, conj);
      if x in rest {
        IncidentScanWithin(acc, p, conj, x);
        if x !in acc {
          var i :| 0 <= i < |p| && ConjugateAll(p, conj)[i] == x;
          assert ConjugateAll(ins, conj)[i] == x;
        }
      } else {
        assert x == conj[f] == ConjugateAll(ins, conj)[|ins| - 1];
      }
    }
  }

  /** A loop v -> v that is not its own twin is listed twice: once as an
      outgoing edge, and again as the twin of its twin, which is compared
      with the result instead of the edge it would add. */
  lemma IncidentScanLoopTwice(e: EdgeId, c: EdgeId, conj: map<EdgeId, EdgeId>)
    requires c in conj && conj[c] == e && c != e
    ensures IncidentScan([e], [c], conj) == [e, e]
  {
    assert [c][..0] == [];
  }

  /** The repetition survives NeighbouringEdges' loop, which keeps the list it
      appends to as its prefix: whatever the second list ys, the result of
      NeighbouringEdges at such a loop is not duplicate-free. */
  lemma NeighbouringLoopTwice(e: EdgeId, c: EdgeId, conj: map<EdgeId, EdgeId>, ys: seq<EdgeId>)
    requires c in conj && conj[c] == e && c != e
    ensures var r := AppendNew(IncidentScan([e], [c], conj), ys);
            |r| >= 2 && r[0] == e && r[1] == e && !NoDuplicates(r)
  {
    IncidentScanLoopTwice(e, c, conj);
    var r := AppendNew(IncidentScan([e], [c], conj), ys);
    assert r[..2] == [e, e];
    assert r[0] == r[..2][0] && r[1] == r[..2][1];
  }

  /** A pair of twins e, c that both run from conjugate(v) to v: the scan of
      conjugate(v)'s list [e, c] keeps only c, and e is lost. */
  lemma IncidentScanHairpinLoses(e: EdgeId, c: EdgeId, conj: map<EdgeId, EdgeId>)
    requires e in conj && c in conj && conj[e] == c && conj[c] == e && c != e
    ensures IncidentScan([], [e, c], conj) == [c]
    ensures e !in IncidentScan([], [e, c], conj)
  {
    assert [e][..0] == [];
    assert IncidentScan([], [e], conj) == [c];
    assert [e, c][..1] == [e];
  }
}
