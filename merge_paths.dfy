/** The correction MergePath applies to a path before merging it. In the doubled
    graph a path may run through a self-conjugate edge and continue along its
    own mirror image; the corrected path is centred on the first self-conjugate
    edge and its tail is completed with the twins of the edges before it, so the
    merged edge is its own reverse complement exactly where the path is. */
module MergePaths {
  import opened Handles

  /** Index of the first self-conjugate edge of p, or |p| when there is none. */
  function FirstSelfConjugate(p: seq<EdgeId>, conj: map<EdgeId, EdgeId>): (i: nat)
    requires forall e :: e in p ==> e in conj
    ensures i <= |p|
    ensures forall j :: 0 <= j < i ==> conj[p[j]] != p[j]
    ensures i < |p| ==> conj[p[i]] == p[i]
  {
    if p == [] then 0
    else if conj[p[0]] == p[0] then 0
    else 1 + FirstSelfConjugate(p[1..], conj)
  }

  /** The scan of CorrectMergePath stops at the first self-conjugate edge. */
  lemma {:induction false} FirstSelfConjugateAt(p: seq<EdgeId>, conj: map<EdgeId, EdgeId>, i: nat)
    requires forall e :: e in p ==> e in conj
    requires i < |p| && conj[p[i]] == p[i]
    requires forall j :: 0 <= j < i ==> conj[p[j]] != p[j]
    ensures FirstSelfConjugate(p, conj) == i
  {
    if i > 0 {
      assert forall e :: e in p[1..] ==> e in p;
      FirstSelfConjugateAt(p[1..], conj, i - 1);
    }
  }

  /** The twin path: the twins of p's edges in reverse order. */
  function ConjugateReverse(p: seq<EdgeId>, conj: map<EdgeId, EdgeId>): (r: seq<EdgeId>)
    requires forall e :: e in p ==> e in conj
    ensures |r| == |p|
    ensures forall j :: 0 <= j < |p| ==> r[j] == conj[p[|p| - 1 - j]]
  {
    seq(|p|, j requires 0 <= j < |p| => conj[p[|p| - 1 - j]])
  }

  /** r extended to length size, position j of the extension holding the twin
      of position size-1-j (which always lies within r). */
  function PadMirror(r: seq<EdgeId>, size: nat, conj: map<EdgeId, EdgeId>): (out: seq<EdgeId>)
    requires forall e :: e in r ==> e in conj
    requires |r| <= size <= 2 * |r|
    ensures |out| == size
    ensures forall j :: 0 <= j < |r| ==> out[j] == r[j]
    ensures forall j :: |r| <= j < size ==> out[j] == conj[r[size - 1 - j]]
  {
    seq(size, j requires 0 <= j < size => if j < |r| then r[j] else conj[r[size - 1 - j]])
  }

  /** CorrectMergePath, as a function of the path and the edge conjugate map. */
  function CorrectedPath(p: seq<EdgeId>, conj: map<EdgeId, EdgeId>): (r: seq<EdgeId>)
    requires Involution(conj)
    requires forall e :: e in p ==> e in conj
    ensures |r| >= |p|
  {
    assert forall e :: e in ConjugateReverse(p, conj) ==> e in conj;
    var i := FirstSelfConjugate(p, conj);
    if i == |p| then p
    else if i < |p| - 1 - i then PadMirror(ConjugateReverse(p, conj), 2 * (|p| - 1 - i) + 1, conj)
    else PadMirror(p, 2 * i + 1, conj)
  }

  /** With a self-conjugate edge at i, the path or its twin is padded. */
  lemma CorrectedPathPadded(p: seq<EdgeId>, conj: map<EdgeId, EdgeId>, i: nat)
    requires Involution(conj)
    requires forall e :: e in p ==> e in conj
    requires i == FirstSelfConjugate(p, conj) && i < |p|
    ensures forall e :: e in ConjugateReverse(p, conj) ==> e in conj
    ensures i < |p| - 1 - i ==> CorrectedPath(p, conj) == PadMirror(ConjugateReverse(p, conj), 2 * (|p| - 1 - i) + 1, conj)
    ensures i >= |p| - 1 - i ==> CorrectedPath(p, conj) == PadMirror(p, 2 * i + 1, conj)
  {
    var r := ConjugateReverse(p, conj);
    forall e | e in r ensures e in conj {
      var j :| 0 <= j < |r| && r[j] == e;
      assert p[|p| - 1 - j] in p;
    }
  }

  /** Without a self-conjugate edge the path is kept as it is. */
  lemma CorrectedPathPlain(p: seq<EdgeId>, conj: map<EdgeId, EdgeId>)
    requires Involution(conj)
    requires forall e :: e in p ==> e in conj
    requires forall j :: 0 <= j < |p| ==> conj[p[j]] != p[j]
    ensures CorrectedPath(p, conj) == p
  {
    assert FirstSelfConjugate(p, conj) == |p|;
  }

  /** Two edges, neither its own twin, are kept as they are. */
  lemma CorrectedPathPair(e1: EdgeId, e2: EdgeId, conj: map<EdgeId, EdgeId>)
    requires Involution(conj) && e1 in conj && e2 in conj
    requires conj[e1] != e1 && conj[e2] != e2
    ensures CorrectedPath([e1, e2], conj) == [e1, e2]
  {
    var p := [e1, e2];
    assert forall j :: 0 <= j < |p| ==> conj[p[j]] != p[j] by {
      assert conj[p[0]] != p[0] && conj[p[1]] != p[1];
    }
    CorrectedPathPlain(p, conj);
  }

  /** The first self-conjugate edge i lies in the second half: the path is kept
      and padded to length 2i+1, so edge i is in the middle. */
  lemma CorrectedPathKeeps(p: seq<EdgeId>, conj: map<EdgeId, EdgeId>, i: nat)
    requires Involution(conj)
    requires forall e :: e in p ==> e in conj
    requires i == FirstSelfConjugate(p, conj) && i < |p| && |p| - 1 - i <= i
    ensures |CorrectedPath(p, conj)| == 2 * i + 1
    ensures forall j :: 0 <= j < |p| ==> CorrectedPath(p, conj)[j] == p[j]
    ensures forall j :: |p| <= j < 2 * i + 1 ==> CorrectedPath(p, conj)[j] == conj[p[2 * i - j]]
  {
  }

  /** The first self-conjugate edge i lies in the first half: the twin path is
      used instead, its self-conjugate edge sitting at |p|-1-i, and it is padded
      to length 2(|p|-1-i)+1, so that edge is in the middle. */
  lemma CorrectedPathMirrors(p: seq<EdgeId>, conj: map<EdgeId, EdgeId>, i: nat)
    requires Involution(conj)
    requires forall e :: e in p ==> e in conj
    requires i == FirstSelfConjugate(p, conj) && i < |p| - 1 - i
    ensures |CorrectedPath(p, conj)| == 2 * (|p| - 1 - i) + 1
    ensures forall j :: 0 <= j < |p| ==> CorrectedPath(p, conj)[j] == conj[p[|p| - 1 - j]]
    ensures forall j :: |p| <= j < 2 * (|p| - 1 - i) + 1 ==> CorrectedPath(p, conj)[j] == p[j - |p| + 2 * i + 1]
  {
    var m := |p| - 1 - i;
    var cr := ConjugateReverse(p, conj);
    var r := CorrectedPath(p, conj);
    forall j | |p| <= j < 2 * m + 1 ensures r[j] == p[j - |p| + 2 * i + 1] {
      assert r[j] == conj[cr[2 * m - j]] == conj[conj[p[j - |p| + 2 * i + 1]]];
    }
  }

  /** With a self-conjugate edge on the path, the corrected path has odd length
      and a self-conjugate edge in its middle. */
  lemma CorrectedPathCentred(p: seq<EdgeId>, conj: map<EdgeId, EdgeId>)
    requires Involution(conj)
    requires forall e :: e in p ==> e in conj
    requires FirstSelfConjugate(p, conj) < |p|
    ensures var r := CorrectedPath(p, conj);
            |r| % 2 == 1 && r[|r| / 2] in conj && conj[r[|r| / 2]] == r[|r| / 2]
  {
    var i := FirstSelfConjugate(p, conj);
    var r := CorrectedPath(p, conj);
    var c := if i < |p| - 1 - i then |p| - 1 - i else i;
    if i < |p| - 1 - i {
      CorrectedPathMirrors(p, conj, i);
      assert r[c] == conj[p[i]];
    } else {
      CorrectedPathKeeps(p, conj, i);
      assert r[c] == p[i];
    }
    assert |r| == 2 * c + 1 && |r| / 2 == c;
  }

  /** Every position the correction appends holds the twin of its mirror
      position. */
  lemma CorrectedPathMirrorTail(p: seq<EdgeId>, conj: map<EdgeId, EdgeId>)
    requires Involution(conj)
    requires forall e :: e in p ==> e in conj
    ensures var r := CorrectedPath(p, conj);
            forall i, j :: 0 <= i < |r| && |p| <= j < |r| && i + j == |r| - 1 ==> r[i] in conj && r[j] == conj[r[i]]
  {
    var i := FirstSelfConjugate(p, conj);
    var r := CorrectedPath(p, conj);
    if i < |p| && i < |p| - 1 - i {
      CorrectedPathMirrors(p, conj, i);
      forall h, j | 0 <= h < |r| && |p| <= j < |r| && h + j == |r| - 1 ensures r[h] in conj && r[j] == conj[r[h]] {
        assert r[h] == conj[p[j - |p| + 2 * i + 1]];
      }
    } else if i < |p| {
      CorrectedPathKeeps(p, conj, i);
      forall h, j | 0 <= h < |r| && |p| <= j < |r| && h + j == |r| - 1 ensures r[h] in conj && r[j] == conj[r[h]] {
        assert r[h] == p[2 * i - j];
      }
    }
  }

  /** Every edge of the corrected path is an edge of the path or a twin of one. */
  lemma CorrectedPathWithin(p: seq<EdgeId>, conj: map<EdgeId, EdgeId>, x: EdgeId)
    requires Involution(conj)
    requires forall e :: e in p ==> e in conj
    requires x in CorrectedPath(p, conj)
    ensures x in p || (x in conj && conj[x] in p)
  {
    var i := FirstSelfConjugate(p, conj);
    var r := CorrectedPath(p, conj);
    var j :| 0 <= j < |r| && r[j] == x;
    if i < |p| && i < |p| - 1 - i {
      CorrectedPathMirrors(p, conj, i);
      if j < |p| {
        assert conj[x] == p[|p| - 1 - j];
      }
    } else if i < |p| {
      CorrectedPathKeeps(p, conj, i);
      if j >= |p| {
        assert conj[x] == p[2 * i - j];
      }
    }
  }

  /** Every edge of the path is on the corrected path, itself or as its twin. */
  lemma CorrectedPathCovers(p: seq<EdgeId>, conj: map<EdgeId, EdgeId>, x: EdgeId)
    requires Involution(conj)
    requires forall e :: e in p ==> e in conj
    requires x in p
    ensures x in CorrectedPath(p, conj) || conj[x] in CorrectedPath(p, conj)
  {
    var i := FirstSelfConjugate(p, conj);
    var r := CorrectedPath(p, conj);
    var j :| 0 <= j < |p| && p[j] == x;
    if i < |p| && i < |p| - 1 - i {
      CorrectedPathMirrors(p, conj, i);
      assert r[|p| - 1 - j] == conj[x];
    } else if i < |p| {
      CorrectedPathKeeps(p, conj, i);
      assert r[j] == x;
    }
  }

  /** The corrected path covers the same conjugate pairs of edges as the path,
      so merging it deletes exactly the path's edges and their twins. */
  lemma CorrectedPathSamePairs(p: seq<EdgeId>, conj: map<EdgeId, EdgeId>)
    requires Involution(conj)
    requires forall e :: e in p ==> e in conj
    ensures ConjClosure(Elems(CorrectedPath(p, conj)), conj) == ConjClosure(Elems(p), conj)
  {
    var r := CorrectedPath(p, conj);
    forall x | x in ConjClosure(Elems(r), conj) ensures x in ConjClosure(Elems(p), conj) {
      if x in r {
        CorrectedPathWithin(p, conj, x);
      } else {
        var y :| y in r && y in conj && conj[y] == x;
        CorrectedPathWithin(p, conj, y);
      }
    }
    forall x | x in ConjClosure(Elems(p), conj) ensures x in ConjClosure(Elems(r), conj) {
      if x in p {
        CorrectedPathCovers(p, conj, x);
      } else {
        var y :| y in p && y in conj && conj[y] == x;
        CorrectedPathCovers(p, conj, y);
      }
    }
  }

  /** The corrected path uses only edges that have twins. */
  lemma CorrectedPathInDomain(p: seq<EdgeId>, conj: map<EdgeId, EdgeId>)
    requires Involution(conj)
    requires forall e :: e in p ==> e in conj
    ensures forall x :: x in CorrectedPath(p, conj) ==> x in conj
  {
    forall x | x in CorrectedPath(p, conj) ensures x in conj {
      CorrectedPathWithin(p, conj, x);
    }
  }
}
