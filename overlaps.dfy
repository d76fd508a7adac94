/** Sequence arithmetic of merging and splitting edges. An edge sequence has at
    least k+1 bases; consecutive edges of a path share k bases (the k-mer of the
    vertex between them), so a merged edge keeps the first edge whole and drops
    the first k bases of every later one. */
module Overlaps {
  import opened Nucleotides

  /** The graph's length of an edge: its number of (k+1)-mers. */
  function EdgeLength(s: Nucls, k: nat): nat
    requires |s| >= k
  {
    |s| - k
  }

  ghost predicate AllEdgeSequences(ss: seq<Nucls>, k: nat) {
    forall i :: 0 <= i < |ss| ==> |ss[i]| > k
  }

  /** Consecutive sequences overlap by k bases: the last k of one are the first
      k of the next, as along a walk in the graph. */
  ghost predicate Overlapping(ss: seq<Nucls>, k: nat)
    requires AllEdgeSequences(ss, k)
  {
    forall i :: 0 <= i < |ss| - 1 ==> ss[i][|ss[i]| - k..] == ss[i + 1][..k]
  }

  /** Sum of the edge lengths. */
  function TotalLength(ss: seq<Nucls>, k: nat): nat
    requires AllEdgeSequences(ss, k)
  {
    if ss == [] then 0 else TotalLength(ss[..|ss| - 1], k) + EdgeLength(ss[|ss| - 1], k)
  }

  /** The sequence of the edge that replaces a merged path. */
  function Joined(ss: seq<Nucls>, k: nat): (r: Nucls)
    requires |ss| > 0 && AllEdgeSequences(ss, k)
    ensures |r| >= |ss[0]|
  {
    if |ss| == 1 then ss[0]
    else
      var p := ss[..|ss| - 1];
      assert p[0] == ss[0];
      Joined(p, k) + ss[|ss| - 1][k..]
  }

  /** Every sequence without its first k bases, one after the other. */
  function Tails(ss: seq<Nucls>, k: nat): Nucls
    requires AllEdgeSequences(ss, k)
  {
    if ss == [] then [] else Tails(ss[..|ss| - 1], k) + ss[|ss| - 1][k..]
  }

  lemma TailsStep(ss: seq<Nucls>, i: nat, k: nat)
    requires AllEdgeSequences(ss, k) && i < |ss|
    ensures Tails(ss[..i + 1], k) == Tails(ss[..i], k) + ss[i][k..]
  {
    assert ss[..i + 1][..i] == ss[..i];
  }

  /** One turn of AddMergedEdge's loop: the tail of the i-th edge is appended. */
  lemma HeadTailsStep(ss: seq<Nucls>, i: nat, k: nat)
    requires AllEdgeSequences(ss, k) && i < |ss|
    ensures ss[0][..k] + Tails(ss[..i + 1], k) == (ss[0][..k] + Tails(ss[..i], k)) + ss[i][k..]
  {
    TailsStep(ss, i, k);
    var a, b, c := ss[0][..k], Tails(ss[..i], k), ss[i][k..];
    assert a + (b + c) == (a + b) + c;
  }

  /** The merged sequence is the first k bases of the first edge followed by
      the tail of every edge: how AddMergedEdge builds it. */
  lemma {:induction false} JoinedIsHeadAndTails(ss: seq<Nucls>, k: nat)
    requires |ss| > 0 && AllEdgeSequences(ss, k)
    ensures Joined(ss, k) == ss[0][..k] + Tails(ss, k)
  {
    if |ss| == 1 {
      assert ss[..0] == [];
      assert ss[0][..k] + ss[0][k..] == ss[0];
    } else {
      var p := ss[..|ss| - 1];
      var last := ss[|ss| - 1];
      JoinedIsHeadAndTails(p, k);
      assert p[0] == ss[0];
      assert Joined(ss, k) == Joined(p, k) + last[k..];
      assert Tails(ss, k) == Tails(p, k) + last[k..];
    }
  }

  /** For two edges the merge is the first sequence followed by the second
      without its first k bases. */
  lemma JoinedPair(a: Nucls, b: Nucls, k: nat)
    requires |a| > k && |b| > k
    ensures Joined([a, b], k) == a + b[k..]
  {
    assert [a, b][..1] == [a];
  }

  /** The merged edge is as long as its parts together. */
  lemma {:induction false} JoinedLength(ss: seq<Nucls>, k: nat)
    requires |ss| > 0 && AllEdgeSequences(ss, k)
    ensures EdgeLength(Joined(ss, k), k) == TotalLength(ss, k)
  {
    if |ss| == 1 {
      assert ss[..0] == [];
    } else {
      JoinedLength(ss[..|ss| - 1], k);
    }
  }

  lemma TotalLengthStep(ss: seq<Nucls>, i: nat, k: nat)
    requires AllEdgeSequences(ss, k) && i < |ss|
    ensures TotalLength(ss[..i + 1], k) == TotalLength(ss[..i], k) + EdgeLength(ss[i], k)
  {
    assert ss[..i + 1][..i] == ss[..i];
  }

  lemma {:induction false} TotalLengthMonotone(ss: seq<Nucls>, i: nat, k: nat)
    requires AllEdgeSequences(ss, k) && i <= |ss|
    ensures TotalLength(ss[..i], k) <= TotalLength(ss, k)
    decreases |ss| - i
  {
    if i < |ss| {
      TotalLengthMonotone(ss, i + 1, k);
      TotalLengthStep(ss, i, k);
    } else {
      assert ss[..i] == ss;
    }
  }

  lemma SliceOfAppend(j: Nucls, t: Nucls, lo: nat, hi: nat)
    requires lo <= hi <= |j|
    ensures (j + t)[lo..hi] == j[lo..hi]
  {
  }

  /** Appending last without its first k bases to a sequence that ends with
      those k bases: the result ends with the last k bases of last. */
  lemma AppendTailSuffix(j: Nucls, last: Nucls, k: nat)
    requires |j| >= k && |last| > k && j[|j| - k..] == last[..k]
    ensures (j + last[k..])[|j + last[k..]| - k..] == last[|last| - k..]
  {
    if |last| - k < k {
      var d := |last| - k;
      assert (j + last[k..])[|j| + d - k..] == j[|j| - (k - d)..] + last[k..];
      assert j[|j| - (k - d)..] == j[|j| - k..][d..];
      assert last[|last| - k..] == last[..k][d..] + last[k..];
    } else {
      assert (j + last[k..])[|j| + |last| - k - k..] == last[k..][|last| - k - k..];
    }
  }

  /** The last k bases of the merge are the last k bases of the last edge. */
  lemma {:induction false} JoinedSuffix(ss: seq<Nucls>, k: nat)
    requires |ss| > 0 && AllEdgeSequences(ss, k) && Overlapping(ss, k)
    ensures Joined(ss, k)[|Joined(ss, k)| - k..] == ss[|ss| - 1][|ss[|ss| - 1]| - k..]
  {
    var n := |ss|;
    if n > 1 {
      var p := ss[..n - 1];
      var j := Joined(p, k);
      var last := ss[n - 1];
      assert Joined(ss, k) == j + last[k..];
      assert AllEdgeSequences(p, k) && Overlapping(p, k);
      JoinedSuffix(p, k);
      assert p[|p| - 1] == ss[n - 2];
      assert j[|j| - k..] == last[..k];
      AppendTailSuffix(j, last, k);
    }
  }

  /** Appending last without its first k bases to a sequence whose last k
      bases are last's first k: last reappears whole there. */
  lemma AppendTailContains(j: Nucls, last: Nucls, k: nat)
    requires |j| >= k && |last| > k && j[|j| - k..] == last[..k]
    ensures |j| - k + |last| == |j + last[k..]|
    ensures (j + last[k..])[|j| - k..|j| - k + |last|] == last
  {
    var off := |j| - k;
    assert (j + last[k..])[off..] == j[off..] + last[k..];
    assert last[..k] + last[k..] == last;
  }

  /** A walk of one edge merges into that edge's sequence. */
  lemma JoinedSingle(ss: seq<Nucls>, k: nat)
    requires |ss| == 1 && AllEdgeSequences(ss, k) && Overlapping(ss, k)
    ensures TotalLength(ss[..0], k) == 0 && Joined(ss, k) == ss[0]
  {
    assert ss[..0] == [];
  }

  /** The last sequence of a walk reappears whole at the end of the merge. */
  lemma JoinedContainsLast(ss: seq<Nucls>, k: nat)
    requires |ss| > 1 && AllEdgeSequences(ss, k) && Overlapping(ss, k)
    ensures TotalLength(ss[..|ss| - 1], k) + |ss[|ss| - 1]| <= |Joined(ss, k)|
    ensures Joined(ss, k)[TotalLength(ss[..|ss| - 1], k)..TotalLength(ss[..|ss| - 1], k) + |ss[|ss| - 1]|] == ss[|ss| - 1]
  {
    var n := |ss|;
    var p := ss[..n - 1];
    var j := Joined(p, k);
    var last := ss[n - 1];
    assert AllEdgeSequences(p, k) && Overlapping(p, k);
    JoinedLength(p, k);
    assert Joined(ss, k) == j + last[k..];
    JoinedSuffix(p, k);
    assert p[|p| - 1] == ss[n - 2];
    assert TotalLength(p, k) == |j| - k;
    AppendTailContains(j, last, k);
  }

  /** An earlier sequence of a walk keeps its place when the walk grows. */
  lemma JoinedContainsEarlier(ss: seq<Nucls>, k: nat, i: nat)
    requires |ss| > 1 && AllEdgeSequences(ss, k) && Overlapping(ss, k)
    requires i < |ss| - 1
    requires TotalLength(ss[..i], k) + |ss[i]| <= |Joined(ss[..|ss| - 1], k)|
    requires Joined(ss[..|ss| - 1], k)[TotalLength(ss[..i], k)..TotalLength(ss[..i], k) + |ss[i]|] == ss[i]
    ensures TotalLength(ss[..i], k) + |ss[i]| <= |Joined(ss, k)|
    ensures Joined(ss, k)[TotalLength(ss[..i], k)..TotalLength(ss[..i], k) + |ss[i]|] == ss[i]
  {
    var n := |ss|;
    var j := Joined(ss[..n - 1], k);
    var last := ss[n - 1];
    assert Joined(ss, k) == j + last[k..];
    var off := TotalLength(ss[..i], k);
    SliceOfAppend(j, last[k..], off, off + |ss[i]|);
  }

  /** Along a walk, every edge's sequence reappears whole in the merged
      sequence, starting at the summed length of the edges before it. */
  lemma {:induction false} JoinedContains(ss: seq<Nucls>, k: nat, i: nat)
    requires |ss| > 0 && AllEdgeSequences(ss, k) && Overlapping(ss, k)
    requires i < |ss|
    ensures TotalLength(ss[..i], k) + |ss[i]| <= |Joined(ss, k)|
    ensures Joined(ss, k)[TotalLength(ss[..i], k)..TotalLength(ss[..i], k) + |ss[i]|] == ss[i]
    decreases |ss|, 1
  {
    if |ss| == 1 {
      JoinedSingle(ss, k);
    } else if i < |ss| - 1 {
      JoinedContainsInit(ss, k, i);
    } else {
      JoinedContainsLast(ss, k);
    }
  }

  /** An edge before the last: it sits where it sat in the walk without the
      last edge. */
  lemma {:induction false} JoinedContainsInit(ss: seq<Nucls>, k: nat, i: nat)
    requires |ss| > 1 && AllEdgeSequences(ss, k) && Overlapping(ss, k)
    requires i < |ss| - 1
    ensures TotalLength(ss[..i], k) + |ss[i]| <= |Joined(ss, k)|
    ensures Joined(ss, k)[TotalLength(ss[..i], k)..TotalLength(ss[..i], k) + |ss[i]|] == ss[i]
    decreases |ss|, 0
  {
    var p := ss[..|ss| - 1];
    assert AllEdgeSequences(p, k) && Overlapping(p, k);
    JoinedContains(p, k, i);
    assert p[..i] == ss[..i] && p[i] == ss[i];
    JoinedContainsEarlier(ss, k, i);
  }

  /** SplitEdge's halves: the prefix [0, position + k) and the suffix from
      position. They overlap by k bases and merge back into the original. */
  lemma SplitRejoins(s: Nucls, position: nat, k: nat)
    requires 1 <= position < |s| - k
    ensures |s[..position + k]| > k && |s[position..]| > k
    ensures s[..position + k] + s[position..][k..] == s
    ensures Joined([s[..position + k], s[position..]], k) == s
    ensures Overlapping([s[..position + k], s[position..]], k)
    ensures EdgeLength(s[..position + k], k) + EdgeLength(s[position..], k) == EdgeLength(s, k)
    ensures EdgeLength(s[..position + k], k) == position
  {
    var s1, s2 := s[..position + k], s[position..];
    assert s2[k..] == s[position + k..];
    assert s1 + s2[k..] == s;
    JoinedPair(s1, s2, k);
    assert s1[|s1| - k..] == s[position..position + k] == s2[..k];
  }

  /** Merging two overlapping edges and taking the reverse complement gives the
      merge of the twin path: the twin of the second edge, then the twin of the
      first. */
  lemma JoinedPairReverseComplement(a: Nucls, b: Nucls, k: nat)
    requires |a| > k && |b| > k
    requires a[|a| - k..] == b[..k]
    ensures |ReverseComplement(b)| > k && |ReverseComplement(a)| > k
    ensures ReverseComplement(Joined([a, b], k))
         == Joined([ReverseComplement(b), ReverseComplement(a)], k)
  {
    var ra, rb := ReverseComplement(a), ReverseComplement(b);
    JoinedPair(a, b, k);
    JoinedPair(rb, ra, k);
    OverlapShift(a, b, k);
    ReverseComplementConcat(a[..|a| - k], b);
    ReverseComplementDrop(a, k);
  }

  /** The shared k bases can be counted with either edge. */
  lemma OverlapShift(a: Nucls, b: Nucls, k: nat)
    requires |a| >= k && |b| >= k && a[|a| - k..] == b[..k]
    ensures a + b[k..] == a[..|a| - k] + b
  {
    assert a == a[..|a| - k] + a[|a| - k..];
    assert b == b[..k] + b[k..];
  }
}
