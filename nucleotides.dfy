/** Nucleotide sequences and their reverse complement (the `!s` of the graph's
    Sequence type). A sequence holds only the four bases. */
module Nucleotides {

  type Nucl = c: char | c == 'A' || c == 'C' || c == 'G' || c == 'T' witness 'A'

  type Nucls = seq<Nucl>

  /** Watson-Crick complement of one base. */
  function Complement(c: Nucl): (r: Nucl)
    ensures r != c
  {
    if c == 'A' then 'T'
    else if c == 'T' then 'A'
    else if c == 'C' then 'G'
    else 'C'
  }

  lemma ComplementInvolution(c: Nucl)
    ensures Complement(Complement(c)) == c
  {
  }

  /** Reverse complement: the complemented bases of s in reverse order. */
  function ReverseComplement(s: Nucls): (r: Nucls)
    ensures |r| == |s|
  {
    if s == [] then [] else [Complement(s[|s| - 1])] + ReverseComplement(s[..|s| - 1])
  }

  /** Base i of !s pairs with base |s|-1-i of s. */
  lemma {:induction false} ReverseComplementAt(s: Nucls, i: nat)
    requires i < |s|
    ensures ReverseComplement(s)[i] == Complement(s[|s| - 1 - i])
  {
    if i > 0 {
      var p := s[..|s| - 1];
      ReverseComplementAt(p, i - 1);
      assert p[|p| - 1 - (i - 1)] == s[|s| - 1 - i];
    }
  }

  /** The twin of the twin strand is the strand itself. */
  lemma ReverseComplementInvolution(s: Nucls)
    ensures ReverseComplement(ReverseComplement(s)) == s
  {
    var r := ReverseComplement(ReverseComplement(s));
    forall i | 0 <= i < |s| ensures r[i] == s[i] {
      ReverseComplementAt(ReverseComplement(s), i);
      ReverseComplementAt(s, |s| - 1 - i);
      ComplementInvolution(s[i]);
    }
  }

  /** Reverse complement is injective, so `a != b` survives it. */
  lemma ReverseComplementInjective(a: Nucls, b: Nucls)
    requires ReverseComplement(a) == ReverseComplement(b)
    ensures a == b
  {
    ReverseComplementInvolution(a);
    ReverseComplementInvolution(b);
  }

  /** Reverse complement turns a concatenation around. */
  lemma ReverseComplementConcat(a: Nucls, b: Nucls)
    ensures ReverseComplement(a + b) == ReverseComplement(b) + ReverseComplement(a)
  {
    var l, r := ReverseComplement(a + b), ReverseComplement(b) + ReverseComplement(a);
    forall i | 0 <= i < |a + b| ensures l[i] == r[i] {
      ReverseComplementAt(a + b, i);
      if i < |b| {
        ReverseComplementAt(b, i);
        assert (a + b)[|a + b| - 1 - i] == b[|b| - 1 - i];
      } else {
        ReverseComplementAt(a, i - |b|);
        assert (a + b)[|a + b| - 1 - i] == a[|a| - 1 - (i - |b|)];
      }
    }
  }

  /** Dropping the first k bases of !s leaves the reverse complement of s
      without its last k bases. */
  lemma {:induction false} ReverseComplementDrop(s: Nucls, k: nat)
    requires k <= |s|
    ensures ReverseComplement(s)[k..] == ReverseComplement(s[..|s| - k])
  {
    if k == 0 {
      assert s[..|s|] == s;
    } else {
      var p := s[..|s| - 1];
      var c := [Complement(s[|s| - 1])];
      assert ReverseComplement(s) == c + ReverseComplement(p);
      ReverseComplementDrop(p, k - 1);
      assert (c + ReverseComplement(p))[k..] == ReverseComplement(p)[k - 1..];
      assert p[..|p| - (k - 1)] == s[..|s| - k];
    }
  }

  /** The first k bases of !s are the reverse complement of the last k bases of s. */
  lemma {:induction false} ReverseComplementPrefix(s: Nucls, k: nat)
    requires k <= |s|
    ensures ReverseComplement(s)[..k] == ReverseComplement(s[|s| - k..])
  {
    if k > 0 {
      var p := s[..|s| - 1];
      var c := [Complement(s[|s| - 1])];
      var w := s[|s| - k..];
      assert ReverseComplement(s) == c + ReverseComplement(p);
      ReverseComplementPrefix(p, k - 1);
      assert (c + ReverseComplement(p))[..k] == c + ReverseComplement(p)[..k - 1];
      assert w[|w| - 1] == s[|s| - 1];
      assert w[..|w| - 1] == p[|p| - (k - 1)..];
      assert ReverseComplement(w) == c + ReverseComplement(w[..|w| - 1]);
    }
  }

  /** The last k bases of !s are the reverse complement of the first k bases of s. */
  lemma ReverseComplementSuffix(s: Nucls, k: nat)
    requires k <= |s|
    ensures ReverseComplement(s)[|s| - k..] == ReverseComplement(s[..k])
  {
    ReverseComplementDrop(s, |s| - k);
  }

  /** A k-mer equals the first k bases of !s exactly when its reverse
      complement equals the last k bases of s. */
  lemma ReverseComplementPrefixMatch(w: Nucls, s: Nucls, k: nat)
    requires |w| == k <= |s|
    ensures w == ReverseComplement(s)[..k] <==> ReverseComplement(w) == s[|s| - k..]
  {
    ReverseComplementPrefix(s, k);
    ReverseComplementInvolution(w);
    ReverseComplementInvolution(s[|s| - k..]);
  }

  /** An odd-length sequence is never its own reverse complement: its middle
      base would have to be its own complement. */
  lemma OddLengthIsNoPalindrome(s: Nucls)
    requires |s| % 2 == 1
    ensures s != ReverseComplement(s)
  {
    var m := |s| / 2;
    assert |s| - 1 - m == m;
    ReverseComplementAt(s, m);
    assert ReverseComplement(s)[m] != s[m];
  }
}
