/** `pair_by_overlap` of cf.py: pair the spin-up eigenvectors with the
    spin-down ones by the permutation of largest total squared overlap. */
module OverlapPairing {
  import opened Wrappers
  import opened Reals
  import opened Permutations
  import opened Orders

  predicate Square(M: Matrix, n: nat) {
    |M| == n && forall i :: 0 <= i < n ==> |M[i]| == n
  }

  /** Entry `(i, j)` of `up.T @ dn` summed over the first `m` rows:
      `up[0][i] * dn[0][j] + … + up[m-1][i] * dn[m-1][j]`. */
  function Dot(up: Matrix, dn: Matrix, n: nat, i: nat, j: nat, m: nat): real
    requires Square(up, n) && Square(dn, n) && i < n && j < n && m <= n
  {
    if m == 0 then 0.0 else Dot(up, dn, n, i, j, m - 1) + up[m - 1][i] * dn[m - 1][j]
  }

  /** `np.abs(evecs_up.T @ evecs_dn)**2` */
  function Overlap2(up: Matrix, dn: Matrix, n: nat): (S2: Matrix)
    requires Square(up, n) && Square(dn, n)
    ensures Square(S2, n)
  {
    seq(n, i requires 0 <= i < n =>
      seq(n, j requires 0 <= j < n => Abs(Dot(up, dn, n, i, j, n)) * Abs(Dot(up, dn, n, i, j, n))))
  }

  /** `p` can index the rows of `S2`: `S2[i, p[i]]` exists for each `i`. */
  predicate Fits(S2: Matrix, p: seq<nat>) {
    |p| <= |S2| && forall i :: 0 <= i < |p| ==> p[i] < |S2[i]|
  }

  predicate AllFit(S2: Matrix, P: seq<seq<nat>>) {
    forall k :: 0 <= k < |P| ==> Fits(S2, P[k])
  }

  /** `sum(S2[i, perm[i]] for i in range(m))`, added left to right. */
  function ScoreTo(S2: Matrix, p: seq<nat>, m: nat): real
    requires m <= |p| && Fits(S2, p)
  {
    if m == 0 then 0.0 else ScoreTo(S2, p, m - 1) + S2[m - 1][p[m - 1]]
  }

  /** The score of a pairing `p`: `p[i]` is the spin-down partner of spin-up
      state `i`. */
  function Score(S2: Matrix, p: seq<nat>): real
    requires Fits(S2, p)
  {
    ScoreTo(S2, p, |p|)
  }

  predicate NonNegative(S2: Matrix) {
    forall i, j :: 0 <= i < |S2| && 0 <= j < |S2[i]| ==> S2[i][j] >= 0.0
  }

  lemma SquareNonNegative(a: real)
    requires a >= 0.0
    ensures a * a >= 0.0
  {
  }

  /** Squared overlaps are never negative. */
  lemma Overlap2NonNegative(up: Matrix, dn: Matrix, n: nat)
    requires Square(up, n) && Square(dn, n)
    ensures NonNegative(Overlap2(up, dn, n))
  {
    var S2 := Overlap2(up, dn, n);
    forall i, j | 0 <= i < n && 0 <= j < n ensures S2[i][j] >= 0.0 {
      var a := Abs(Dot(up, dn, n, i, j, n));
      assert S2[i][j] == a * a;
      SquareNonNegative(a);
    }
  }

  lemma {:induction false} ScoreToNonNegative(S2: Matrix, p: seq<nat>, m: nat)
    requires m <= |p| && Fits(S2, p) && NonNegative(S2)
    ensures ScoreTo(S2, p, m) >= 0.0
  {
    if m > 0 {
      ScoreToNonNegative(S2, p, m - 1);
    }
  }

  /** Every permutation of `range(n)` can be scored against an `n` by `n`
      matrix. */
  lemma PermsFit(S2: Matrix, n: nat)
    requires Square(S2, n)
    ensures AllFit(S2, Perms(Range(n)))
  {
    var P := Perms(Range(n));
    PermsOfRange(n);
    forall k | 0 <= k < |P| ensures Fits(S2, P[k]) {
      assert P[k] in P;
      PermutationBounds(P[k], n);
    }
  }

  /** `P[b]` scores at least as much as every entry of `P`, and strictly
      more than every entry before it. */
  predicate FirstBest(S2: Matrix, P: seq<seq<nat>>, b: nat)
    requires AllFit(S2, P)
  {
    && b < |P|
    && (forall k :: 0 <= k < |P| ==> Score(S2, P[k]) <= Score(S2, P[b]))
    && (forall k :: 0 <= k < b ==> Score(S2, P[k]) < Score(S2, P[b]))
  }

  /** `pair_by_overlap(evecs_up, evecs_dn)`: the first permutation, in
      `itertools` order, of largest score, and the matrix of squared
      overlaps.  The best so far starts as None with score -1.0 and is
      replaced only by a strictly larger score, so it is None exactly when
      every score is at most -1.0, which squared overlaps never allow. */
  method PairByOverlap(up: Matrix, dn: Matrix, n: nat) returns (best: Option<seq<nat>>, S2: Matrix)
    requires Square(up, n) && Square(dn, n)
    ensures S2 == Overlap2(up, dn, n) && AllFit(S2, Perms(Range(n)))
    ensures best.None? <==> forall k :: 0 <= k < |Perms(Range(n))| ==> Score(S2, Perms(Range(n))[k]) <= -1.0
    ensures best.Some?
    ensures best.Some? ==> exists b: nat :: FirstBest(S2, Perms(Range(n)), b) && best.value == Perms(Range(n))[b]
  {
    S2 := Overlap2(up, dn, n);
    var N := |S2|;
    var perms := Perms(Range(N));
    PermsFit(S2, N);
    best := None;
    var bestScore := -1.0;
    ghost var b := 0;
    var t := 0;
    while t < |perms|
      invariant 0 <= t <= |perms|
      invariant best.None? ==> bestScore == -1.0
      invariant best.Some? ==> b < t && best.value == perms[b] && bestScore == Score(S2, perms[b])
      invariant forall k :: 0 <= k < t ==> Score(S2, perms[k]) <= bestScore
      invariant best.Some? ==> forall k :: 0 <= k < b ==> Score(S2, perms[k]) < bestScore
    {
      var perm := perms[t];
      var score := Score(S2, perm);
      if score > bestScore {
        best, bestScore := Some(perm), score;
        b := t;
      }
      t := t + 1;
    }
    Overlap2NonNegative(up, dn, n);
    PermsNonEmpty(N);
    ScoreToNonNegative(S2, perms[0], |perms[0]|);
    if best.Some? {
      assert FirstBest(S2, perms, b);
    }
  }

  lemma PermsNonEmpty(n: nat)
    ensures |Perms(Range(n))| > 0
  {
    PermsOfRange(n);
    assert IsPermutation(Range(n), n);
  }

  /** The pairing found is the lexicographically smallest permutation of
      largest score: no permutation scores more, every other one that
      scores as much comes after it in lexicographic order, and every one
      before it scores less. */
  lemma FirstBestIsLexFirst(S2: Matrix, n: nat, b: nat, q: seq<nat>)
    requires Square(S2, n) && AllFit(S2, Perms(Range(n))) && FirstBest(S2, Perms(Range(n)), b)
    requires IsPermutation(q, n) && Fits(S2, q)
    ensures Score(S2, q) <= Score(S2, Perms(Range(n))[b])
    ensures Score(S2, q) == Score(S2, Perms(Range(n))[b]) ==> q == Perms(Range(n))[b] || LexLess(Perms(Range(n))[b], q)
    ensures !LexLess(q, Perms(Range(n))[b]) || Score(S2, q) < Score(S2, Perms(Range(n))[b])
  {
    var P := Perms(Range(n));
    PermsOfRange(n);
    var k :| 0 <= k < |P| && P[k] == q;
    if k > b {
      assert LexLess(P[b], P[k]);
      LexAsymmetric(P[b], P[k]);
    } else if k == b {
      LexIrreflexive(q);
    }
  }
}
