/** Handles for vertices, edges and observers, and the list and pairing
    operations the graph performs on them. A handle stands for the pointer
    the graph hands out; a conjugate map pairs every handle with its twin. */
module Handles {

  type VertexId = nat
  type EdgeId = nat
  type HandlerId = nat

  // The helpers below work on any handle kind, so they are stated over nat.

  predicate NoDuplicates(s: seq<nat>) {
    forall i, j :: 0 <= i < j < |s| ==> s[i] != s[j]
  }

  lemma NoDuplicatesSnoc(s: seq<nat>, x: nat)
    requires NoDuplicates(s) && x !in s
    ensures NoDuplicates(s + [x])
  {
  }

  function Elems(s: seq<nat>): set<nat> {
    set x | x in s
  }

  /** A list without repetitions has as many members as elements. */
  lemma {:induction false} NoDuplicatesCard(s: seq<nat>)
    requires NoDuplicates(s)
    ensures |Elems(s)| == |s|
  {
    if s != [] {
      var p := s[..|s| - 1];
      NoDuplicatesCard(p);
      assert Elems(s) == Elems(p) + {s[|s| - 1]};
      assert s[|s| - 1] !in Elems(p);
    }
  }

  /** s with every element of d filtered out, order kept. */
  function Without(s: seq<nat>, d: set<nat>): (r: seq<nat>)
    ensures forall x :: x in r <==> x in s && x !in d
    ensures |r| <= |s|
    ensures NoDuplicates(s) ==> NoDuplicates(r)
  {
    if s == [] then []
    else
      var rest := Without(s[..|s| - 1], d);
      assert forall x :: x in s[..|s| - 1] ==> x in s;
      if s[|s| - 1] in d then rest else rest + [s[|s| - 1]]
  }

  lemma WithoutEverything(s: seq<nat>, d: set<nat>)
    requires forall x :: x in s ==> x in d
    ensures Without(s, d) == []
  {
  }

  lemma WithoutNothingRemoved(s: seq<nat>, d: set<nat>)
    requires forall x :: x in s ==> x !in d
    ensures Without(s, d) == s
  {
    if s != [] {
      WithoutNothingRemoved(s[..|s| - 1], d);
      assert s[..|s| - 1] + [s[|s| - 1]] == s;
    }
  }

  lemma {:induction false} WithoutAppend(s: seq<nat>, t: seq<nat>, d: set<nat>)
    ensures Without(s + t, d) == Without(s, d) + Without(t, d)
    decreases |t|
  {
    if t == [] {
      assert s + t == s;
    } else {
      var t' := t[..|t| - 1];
      assert (s + t)[..|s + t| - 1] == s + t';
      WithoutAppend(s, t', d);
    }
  }

  lemma {:induction false} WithoutTwice(s: seq<nat>, d1: set<nat>, d2: set<nat>)
    ensures Without(Without(s, d1), d2) == Without(s, d1 + d2)
  {
    if s != [] {
      var p := s[..|s| - 1];
      WithoutTwice(p, d1, d2);
      assert s == p + [s[|s| - 1]];
      WithoutAppend(Without(p, d1), [s[|s| - 1]], d2);
    }
  }

  /** Filtering out a handle that does not occur changes nothing. */
  lemma WithoutAbsent(s: seq<nat>, d: set<nat>, x: nat)
    requires x !in s
    ensures Without(s, d + {x}) == Without(s, d)
  {
    WithoutTwice(s, d, {x});
    WithoutNothingRemoved(Without(s, d), {x});
  }

  /** Vertex::RemoveOutgoingEdge: drop the first occurrence of x, if any. */
  function RemoveFirst(s: seq<nat>, x: nat): (r: seq<nat>)
    ensures x !in s ==> r == s
    ensures x in s ==> |r| == |s| - 1
    ensures forall y :: y in r ==> y in s
  {
    if s == [] then []
    else if s[0] == x then s[1..]
    else [s[0]] + RemoveFirst(s[1..], x)
  }

  /** Removing x from a list that gains an element other than x at its end. */
  lemma {:induction false} RemoveFirstSnoc(p: seq<nat>, y: nat, x: nat)
    requires y != x
    ensures RemoveFirst(p + [y], x) == RemoveFirst(p, x) + [y]
  {
    if p != [] {
      assert (p + [y])[1..] == p[1..] + [y];
      if p[0] != x {
        RemoveFirstSnoc(p[1..], y, x);
      }
    }
  }

  /** Removing x from a list whose only x is the last element. */
  lemma {:induction false} RemoveFirstLast(p: seq<nat>, x: nat)
    requires x !in p
    ensures RemoveFirst(p + [x], x) == p
  {
    if p != [] {
      assert (p + [x])[1..] == p[1..] + [x];
      assert x !in p[1..];
      RemoveFirstLast(p[1..], x);
      assert [p[0]] + p[1..] == p;
    }
  }

  /** On a list without duplicates, removing by identity is filtering. */
  lemma {:induction false} RemoveFirstIsWithout(s: seq<nat>, x: nat)
    requires NoDuplicates(s)
    ensures RemoveFirst(s, x) == Without(s, {x})
  {
    if s != [] {
      var p, y := s[..|s| - 1], s[|s| - 1];
      assert s == p + [y];
      assert NoDuplicates(p);
      if y == x {
        assert x !in p;
        RemoveFirstLast(p, x);
        WithoutNothingRemoved(p, {x});
      } else {
        RemoveFirstSnoc(p, y, x);
        RemoveFirstIsWithout(p, x);
      }
    }
  }

  /** Removing e from a list where it may occur (atE) and then rc where it
      may occur (atRc), on a list without duplicates, filters out both. */
  lemma RemovePairIsWithout(o: seq<nat>, e: nat, rc: nat, atE: bool, atRc: bool)
    requires NoDuplicates(o) && (e in o ==> atE) && (rc in o ==> atRc)
    ensures var o1 := if atE then RemoveFirst(o, e) else o;
            (if atRc then RemoveFirst(o1, rc) else o1) == Without(o, {e, rc})
  {
    assert {e} + {rc} == {e, rc} && {rc} + {e} == {e, rc};
    if atE && atRc {
      RemoveFirstIsWithout(o, e);
      RemoveFirstIsWithout(Without(o, {e}), rc);
      WithoutTwice(o, {e}, {rc});
    } else if atE {
      RemoveFirstIsWithout(o, e);
      WithoutAbsent(o, {e}, rc);
    } else if atRc {
      RemoveFirstIsWithout(o, rc);
      WithoutAbsent(o, {rc}, e);
    } else {
      WithoutNothingRemoved(o, {e, rc});
    }
  }

  /** The conjugate map pairs handles: it is its own inverse on its keys. */
  ghost predicate Involution(m: map<nat, nat>) {
    forall x :: x in m ==> m[x] in m && m[m[x]] == x
  }

  /** A set together with the twins of its members. */
  function ConjClosure(xs: set<nat>, m: map<nat, nat>): (r: set<nat>)
    ensures xs <= r
    ensures forall x :: x in xs && x in m ==> m[x] in r
  {
    xs + set x | x in xs && x in m :: m[x]
  }

  /** No two distinct positions of s hold twins of each other. */
  ghost predicate PairFree(s: seq<nat>, m: map<nat, nat>)
    requires forall x :: x in s ==> x in m
  {
    forall i, j :: 0 <= i < |s| && 0 <= j < |s| && i != j ==> s[i] != m[s[j]]
  }

  /** The elements of s kept when one walks s left to right and skips every
      element whose twin or itself has been seen already: one representative
      per conjugate pair, the one that occurs first. */
  function FirstOfPairs(s: seq<nat>, m: map<nat, nat>): (r: seq<nat>)
    ensures forall x :: x in r ==> x in s
  {
    if s == [] then []
    else
      var p := s[..|s| - 1];
      var rest := FirstOfPairs(p, m);
      assert forall x :: x in p ==> x in s;
      if s[|s| - 1] in ConjClosure(Elems(p), m) then rest else rest + [s[|s| - 1]]
  }

  lemma {:induction false} FirstOfPairsClosure(s: seq<nat>, m: map<nat, nat>)
    requires Involution(m)
    requires forall x :: x in s ==> x in m
    ensures ConjClosure(Elems(FirstOfPairs(s, m)), m) == ConjClosure(Elems(s), m)
  {
    if s != [] {
      var p := s[..|s| - 1];
      var last := s[|s| - 1];
      assert forall x :: x in p ==> x in s;
      FirstOfPairsClosure(p, m);
      assert Elems(s) == Elems(p) + {last};
      if last in ConjClosure(Elems(p), m) {
        assert m[last] in ConjClosure(Elems(p), m);
      } else {
        assert Elems(FirstOfPairs(s, m)) == Elems(FirstOfPairs(p, m)) + {last};
      }
    }
  }

  /** The representatives are pairwise distinct and pairwise not twins. */
  lemma {:induction false} FirstOfPairsPairFree(s: seq<nat>, m: map<nat, nat>)
    requires Involution(m)
    requires forall x :: x in s ==> x in m
    ensures NoDuplicates(FirstOfPairs(s, m))
    ensures PairFree(FirstOfPairs(s, m), m)
  {
    if s != [] {
      var p := s[..|s| - 1];
      var last := s[|s| - 1];
      assert forall x :: x in p ==> x in s;
      FirstOfPairsPairFree(p, m);
      if last !in ConjClosure(Elems(p), m) {
        var rest := FirstOfPairs(p, m);
        var r := rest + [last];
        forall x | x in rest ensures x != last && m[x] != last && x != m[last] {
          assert x in Elems(p);
        }
        forall i, j | 0 <= i < |r| && 0 <= j < |r| && i != j ensures r[i] != m[r[j]] {
          if i == |rest| {
            assert r[j] in rest;
          } else if j == |rest| {
            assert r[i] in rest;
          }
        }
      }
    }
  }

  /** On a list that repeats no element and holds no two twins, every element
      represents its own pair: skipping twins already taken changes nothing. */
  lemma {:induction false} FirstOfPairsOfPairFree(s: seq<nat>, m: map<nat, nat>)
    requires forall x :: x in s ==> x in m
    requires NoDuplicates(s) && PairFree(s, m)
    ensures FirstOfPairs(s, m) == s
  {
    if s != [] {
      var p := s[..|s| - 1];
      var last := s[|s| - 1];
      assert forall x :: x in p ==> x in s;
      forall i, j | 0 <= i < |p| && 0 <= j < |p| && i != j ensures p[i] != m[p[j]] {
        assert p[i] == s[i] && p[j] == s[j];
      }
      FirstOfPairsOfPairFree(p, m);
      forall x | x in Elems(p) ensures x != last && m[x] != last {
        var j :| 0 <= j < |p| && p[j] == x;
        assert s[j] == x;
      }
      assert last !in ConjClosure(Elems(p), m);
      assert s == p + [last];
    }
  }

  /** The first element always represents its pair. */
  lemma {:induction false} FirstOfPairsHead(s: seq<nat>, m: map<nat, nat>)
    requires s != []
    ensures FirstOfPairs(s, m) != [] && FirstOfPairs(s, m)[0] == s[0]
  {
    if |s| > 1 {
      var p := s[..|s| - 1];
      FirstOfPairsHead(p, m);
      assert p[0] == s[0];
    } else {
      assert s[..0] == [];
      assert Elems(s[..0]) == {};
    }
  }

  /** Keeping the representatives of s + [x] appends x exactly when x and its
      twin do not occur in s. */
  lemma FirstOfPairsSnoc(s: seq<nat>, x: nat, m: map<nat, nat>)
    ensures FirstOfPairs(s + [x], m)
         == FirstOfPairs(s, m) + (if x in ConjClosure(Elems(s), m) then [] else [x])
  {
    assert (s + [x])[..|s + [x]| - 1] == s;
  }

  /** Membership in the closure under an involution: a handle or its twin is
      in the set. */
  lemma ConjClosureMember(xs: set<nat>, m: map<nat, nat>, x: nat)
    requires Involution(m) && (forall y :: y in xs ==> y in m)
    ensures x in ConjClosure(xs, m) <==> x in xs || (x in m && m[x] in xs)
  {
    if x in ConjClosure(xs, m) && x !in xs {
      var y :| y in xs && y in m && m[y] == x;
    }
  }

  /** One more element adds itself and its twin to the closure. */
  lemma ConjClosureSnoc(s: seq<nat>, x: nat, m: map<nat, nat>)
    requires x in m
    ensures ConjClosure(Elems(s + [x]), m) == ConjClosure(Elems(s), m) + {x, m[x]}
  {
    assert Elems(s + [x]) == Elems(s) + {x};
  }

  /** The closure of a set only looks at the twins of its own members. */
  lemma ConjClosureAgree(xs: set<nat>, m1: map<nat, nat>, m2: map<nat, nat>)
    requires forall x :: x in xs ==> x in m1 && x in m2 && m1[x] == m2[x]
    ensures ConjClosure(xs, m1) == ConjClosure(xs, m2)
  {
  }

  /** Neither do the representatives of a sequence. */
  lemma {:induction false} FirstOfPairsAgree(s: seq<nat>, m1: map<nat, nat>, m2: map<nat, nat>)
    requires forall x :: x in s ==> x in m1 && x in m2 && m1[x] == m2[x]
    ensures FirstOfPairs(s, m1) == FirstOfPairs(s, m2)
  {
    if s != [] {
      var p := s[..|s| - 1];
      assert forall x :: x in p ==> x in s;
      FirstOfPairsAgree(p, m1, m2);
      ConjClosureAgree(Elems(p), m1, m2);
    }
  }

  /** The empty prefix has an empty closure. */
  lemma ClosureOfNothing(s: seq<nat>, m: map<nat, nat>)
    ensures ConjClosure(Elems(s[..0]), m) == {}
  {
    assert Elems(s[..0]) == {};
  }

  lemma WholeSlice(s: seq<nat>)
    ensures s[..|s|] == s
  {
  }

  /** No member of xs is the twin of another member. */
  ghost predicate SetPairFree(xs: set<nat>, m: map<nat, nat>) {
    forall x, y :: x in xs && y in xs && x in m && x != y ==> y != m[x]
  }

  /** The representatives, as a set, are pair-free. */
  lemma FirstOfPairsSetPairFree(s: seq<nat>, m: map<nat, nat>)
    requires Involution(m)
    requires forall x :: x in s ==> x in m
    ensures SetPairFree(Elems(FirstOfPairs(s, m)), m)
  {
    var r := FirstOfPairs(s, m);
    FirstOfPairsPairFree(s, m);
    forall x, y | x in Elems(r) && y in Elems(r) && x in m && x != y ensures y != m[x] {
      var i :| 0 <= i < |r| && r[i] == x;
      var j :| 0 <= j < |r| && r[j] == y;
      assert r[j] != m[r[i]];
    }
  }

  /** The set of representatives grows by the i-th element exactly when its
      twin is not among them yet: the test DeletePath makes. */
  lemma FirstOfPairsSetStep(s: seq<nat>, i: nat, m: map<nat, nat>)
    requires Involution(m) && (forall x :: x in s ==> x in m) && i < |s|
    ensures Elems(FirstOfPairs(s[..i + 1], m))
         == if m[s[i]] in Elems(FirstOfPairs(s[..i], m)) then Elems(FirstOfPairs(s[..i], m))
            else Elems(FirstOfPairs(s[..i], m)) + {s[i]}
  {
    var p := s[..i];
    var x := s[i];
    assert s[..i + 1] == p + [x];
    assert forall y :: y in p ==> y in m;
    FirstOfPairsSnoc(p, x, m);
    FirstOfPairsClosure(p, m);
    var r := Elems(FirstOfPairs(p, m));
    assert forall y :: y in r ==> y in m;
    ConjClosureMember(r, m, x);
  }

  /** Adding two members outside d commutes with taking d away. */
  lemma MinusThenAddOutside(a: set<nat>, d: set<nat>, x: nat, y: nat)
    requires x !in d && y !in d
    ensures (a + {x, y}) - d == (a - d) + {x, y}
  {
  }

  /** Handling one more member of a set being worked through. */
  lemma SetWorkStep(all: set<nat>, rest: set<nat>, order: seq<nat>, x: nat)
    requires rest <= all && x in rest && Elems(order) == all - rest
    ensures all - (rest - {x}) == (all - rest) + {x}
    ensures Elems(order + [x]) == all - (rest - {x})
  {
  }

  /** The first element is always a representative. */
  lemma FirstOfPairsStart(s: seq<nat>, m: map<nat, nat>)
    requires |s| > 0
    ensures Elems(FirstOfPairs(s[..1], m)) == {s[0]}
  {
    assert s[..1][..0] == [];
  }

  /** One more member adds itself and its twin to the closure. */
  lemma ConjClosureAdd(xs: set<nat>, x: nat, m: map<nat, nat>)
    requires x in m
    ensures ConjClosure(xs + {x}, m) == ConjClosure(xs, m) + {x, m[x]}
  {
  }
}
