/** `itertools.permutations(xs)`: every ordering of `xs`, in the order the
    library yields them (the first element taken in turn from each position
    of `xs`, then the orderings of what is left). */
module Permutations {
  import opened Orders

  function RemoveAt(xs: seq<nat>, i: nat): (r: seq<nat>)
    requires i < |xs|
    ensures |r| == |xs| - 1
  {
    xs[..i] + xs[i + 1..]
  }

  /** `x` put in front of every sequence of `P`. */
  function Prepend(x: nat, P: seq<seq<nat>>): (Q: seq<seq<nat>>)
    ensures |Q| == |P|
  {
    seq(|P|, k requires 0 <= k < |P| => [x] + P[k])
  }

  function Perms(xs: seq<nat>): seq<seq<nat>>
    decreases |xs|, 1, 0
  {
    if xs == [] then [[]] else PermsFrom(xs, 0)
  }

  /** The orderings of `xs` whose first element is taken from position `i`
      or later. */
  function PermsFrom(xs: seq<nat>, i: nat): seq<seq<nat>>
    requires i <= |xs|
    decreases |xs|, 0, |xs| - i
  {
    if i == |xs| then [] else Prepend(xs[i], Perms(RemoveAt(xs, i))) + PermsFrom(xs, i + 1)
  }

  /** `range(n)` */
  function Range(n: nat): (r: seq<nat>)
    ensures |r| == n && forall i :: 0 <= i < n ==> r[i] == i
  {
    seq(n, i requires 0 <= i < n => i)
  }

  /** `p` lists `0 .. n-1`, each once. */
  predicate IsPermutation(p: seq<nat>, n: nat) {
    |p| == n && multiset(p) == multiset(Range(n))
  }

  predicate Distinct(xs: seq<nat>) {
    forall i, j :: 0 <= i < j < |xs| ==> xs[i] != xs[j]
  }

  lemma PrependSorted(x: nat, P: seq<seq<nat>>)
    requires LexSorted(P)
    ensures LexSorted(Prepend(x, P))
  {
    var Q := Prepend(x, P);
    forall i, j | 0 <= i < j < |Q| ensures LexLess(Q[i], Q[j]) {
      assert Q[i][1..] == P[i] && Q[j][1..] == P[j];
    }
  }

  lemma ConcatSorted(A: seq<seq<nat>>, B: seq<seq<nat>>)
    requires LexSorted(A) && LexSorted(B)
    requires forall a, b :: a in A && b in B ==> LexLess(a, b)
    ensures LexSorted(A + B)
  {
    var C := A + B;
    forall i, j | 0 <= i < j < |C| ensures LexLess(C[i], C[j]) {
      if j < |A| {
        assert C[i] == A[i] && C[j] == A[j];
      } else if i >= |A| {
        assert C[i] == B[i - |A|] && C[j] == B[j - |A|];
      } else {
        assert C[i] == A[i] && C[j] == B[j - |A|];
      }
    }
  }

  // ---------------------------------------------------------------- what is listed

  lemma PrependMember(x: nat, P: seq<seq<nat>>, q: seq<nat>)
    ensures q in Prepend(x, P) <==> |q| > 0 && q[0] == x && q[1..] in P
  {
    var Q := Prepend(x, P);
    if q in Q {
      var k :| 0 <= k < |Q| && Q[k] == q;
      assert q[1..] == P[k];
    }
    if |q| > 0 && q[0] == x && q[1..] in P {
      var k :| 0 <= k < |P| && P[k] == q[1..];
      assert Q[k] == q;
    }
  }

  lemma RemoveAtMultiset(xs: seq<nat>, i: nat)
    requires i < |xs|
    ensures multiset(RemoveAt(xs, i)) == multiset(xs) - multiset{xs[i]}
  {
    assert xs == xs[..i] + [xs[i]] + xs[i + 1..];
  }

  /** Every listed sequence is an ordering of `xs`: the same elements, as
      often. */
  lemma {:induction false} PermsSound(xs: seq<nat>)
    ensures forall p: seq<nat> :: p in Perms(xs) ==> multiset(p) == multiset(xs)
    decreases |xs|, 1, 0
  {
    if xs != [] {
      PermsFromSound(xs, 0);
    }
  }

  lemma {:induction false} PermsFromSound(xs: seq<nat>, i: nat)
    requires i <= |xs|
    ensures forall p: seq<nat> :: p in PermsFrom(xs, i) ==> multiset(p) == multiset(xs) && p != [] && p[0] in xs[i..]
    decreases |xs|, 0, |xs| - i
  {
    if i < |xs| {
      var rest := RemoveAt(xs, i);
      PermsSound(rest);
      PermsFromSound(xs, i + 1);
      RemoveAtMultiset(xs, i);
      forall p: seq<nat> | p in Prepend(xs[i], Perms(rest))
        ensures multiset(p) == multiset(xs) && p != [] && p[0] in xs[i..]
      {
        PrependMember(xs[i], Perms(rest), p);
        assert p == [xs[i]] + p[1..];
        assert xs[i..][0] == xs[i];
      }
      forall p: seq<nat> | p in PermsFrom(xs, i + 1) ensures p[0] in xs[i..] {
        assert xs[i + 1..] == xs[i..][1..];
      }
    }
  }

  lemma {:induction false} PermsFromGrows(xs: seq<nat>, j: nat, i: nat, q: seq<nat>)
    requires j <= i < |xs| && q in Prepend(xs[i], Perms(RemoveAt(xs, i)))
    ensures q in PermsFrom(xs, j)
    decreases i - j
  {
    if j < i {
      PermsFromGrows(xs, j + 1, i, q);
    }
  }

  lemma RemoveAtDistinct(xs: seq<nat>, i: nat)
    requires i < |xs| && Distinct(xs)
    ensures Distinct(RemoveAt(xs, i))
  {
    var rest := RemoveAt(xs, i);
    forall a, b | 0 <= a < b < |rest| ensures rest[a] != rest[b] {
      var a' := if a < i then a else a + 1;
      var b' := if b < i then b else b + 1;
      assert rest[a] == xs[a'] && rest[b] == xs[b'];
    }
  }

  /** Taking the first element of `p` off, found at position `i` of `xs`,
      leaves an ordering of what is left of `xs`. */
  lemma TailMultiset(xs: seq<nat>, p: seq<nat>, i: nat)
    requires i < |xs| && p != [] && xs[i] == p[0] && multiset(p) == multiset(xs)
    ensures multiset(p[1..]) == multiset(RemoveAt(xs, i))
  {
    RemoveAtMultiset(xs, i);
    assert p == [p[0]] + p[1..];
  }

  /** For distinct elements, every ordering of `xs` is listed. */
  lemma {:induction false} PermsComplete(xs: seq<nat>, p: seq<nat>)
    requires Distinct(xs) && multiset(p) == multiset(xs)
    ensures p in Perms(xs)
    decreases |xs|
  {
    assert |p| == |multiset(p)| == |xs|;
    if xs != [] {
      assert p[0] in multiset(xs);
      var i :| 0 <= i < |xs| && xs[i] == p[0];
      var rest := RemoveAt(xs, i);
      TailMultiset(xs, p, i);
      RemoveAtDistinct(xs, i);
      PermsComplete(rest, p[1..]);
      PrependMember(xs[i], Perms(rest), p);
      PermsFromGrows(xs, 0, i, p);
    }
  }

  /** For increasing elements the orderings come in strictly increasing
      lexicographic order. */
  lemma {:induction false} PermsSorted(xs: seq<nat>)
    requires Increasing(xs)
    ensures LexSorted(Perms(xs))
    decreases |xs|, 1, 0
  {
    if xs != [] {
      PermsFromSorted(xs, 0);
    }
  }

  lemma {:induction false} PermsFromSorted(xs: seq<nat>, i: nat)
    requires i <= |xs| && Increasing(xs)
    ensures LexSorted(PermsFrom(xs, i))
    decreases |xs|, 0, |xs| - i
  {
    if i < |xs| {
      var rest := RemoveAt(xs, i);
      assert Increasing(rest) by {
        forall a, b | 0 <= a < b < |rest| ensures rest[a] < rest[b] {
          var a' := if a < i then a else a + 1;
          var b' := if b < i then b else b + 1;
          assert rest[a] == xs[a'] && rest[b] == xs[b'];
        }
      }
      PermsSorted(rest);
      PrependSorted(xs[i], Perms(rest));
      PermsFromSorted(xs, i + 1);
      PermsFromSound(xs, i + 1);
      var A, B := Prepend(xs[i], Perms(rest)), PermsFrom(xs, i + 1);
      forall a, b | a in A && b in B ensures LexLess(a, b) {
        PrependMember(xs[i], Perms(rest), a);
        var m :| 0 <= m < |xs[i + 1..]| && xs[i + 1..][m] == b[0];
        assert b[0] == xs[i + 1 + m];
      }
      ConcatSorted(A, B);
    }
  }

  /** The permutations of `range(n)`, in the order `itertools` yields them:
      each exactly once, and nothing else, in increasing lexicographic order. */
  lemma PermsOfRange(n: nat)
    ensures forall p: seq<nat> :: p in Perms(Range(n)) <==> IsPermutation(p, n)
    ensures LexSorted(Perms(Range(n)))
  {
    var r := Range(n);
    PermsSound(r);
    forall p: seq<nat> | IsPermutation(p, n) ensures p in Perms(r) {
      PermsComplete(r, p);
    }
    forall p: seq<nat> | p in Perms(r) ensures |p| == n {
      assert |p| == |multiset(p)| == |multiset(r)|;
    }
    PermsSorted(r);
  }

  /** An element of a permutation of `range(n)` is below `n`. */
  lemma PermutationBounds(p: seq<nat>, n: nat)
    requires IsPermutation(p, n)
    ensures forall i :: 0 <= i < |p| ==> p[i] < n
  {
    forall i | 0 <= i < |p| ensures p[i] < n {
      assert p[i] in multiset(Range(n));
      var k :| 0 <= k < n && Range(n)[k] == p[i];
    }
  }
}
