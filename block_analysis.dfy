/** The front half of `analyze_block` in cf.py (the shape checks, the
    symmetrisation and the two diagnostics; the eigen-decomposition is not
    modelled) and the index selection of `dominant_desc`. */
module BlockAnalysis {
  import opened Wrappers
  import opened Reals

  /** `|H|` rows of `cols` entries each: the shape of a two-dimensional
      numpy array. */
  predicate Rectangular(H: Matrix, cols: nat) {
    forall i :: 0 <= i < |H| ==> |H[i]| == cols
  }

  predicate Symmetric(H: Matrix)
    requires Rectangular(H, |H|)
  {
    forall i, j :: 0 <= i < |H| && 0 <= j < |H| ==> H[i][j] == H[j][i]
  }

  /** No entry off the diagonal is non-zero. */
  predicate Diagonal(H: Matrix)
    requires Rectangular(H, |H|)
  {
    forall i, j :: 0 <= i < |H| && 0 <= j < |H| && i != j ==> H[i][j] == 0.0
  }

  /** `(H + H.T) / 2.0` */
  function Symmetrised(H: Matrix): (U: Matrix)
    requires Rectangular(H, |H|)
    ensures |U| == |H| && Rectangular(U, |H|)
  {
    seq(|H|, i requires 0 <= i < |H| =>
      seq(|H|, j requires 0 <= j < |H| => (H[i][j] + H[j][i]) / 2.0))
  }

  /** `H - H.T` */
  function Antisymmetric(H: Matrix): (A: Matrix)
    requires Rectangular(H, |H|)
    ensures |A| == |H| && Rectangular(A, |H|)
  {
    seq(|H|, i requires 0 <= i < |H| =>
      seq(|H|, j requires 0 <= j < |H| => H[i][j] - H[j][i]))
  }

  /** `U - np.diag(np.diag(U))`: the diagonal set to zero. */
  function OffDiagonal(U: Matrix): (O: Matrix)
    requires Rectangular(U, |U|)
    ensures |O| == |U| && Rectangular(O, |U|)
  {
    seq(|U|, i requires 0 <= i < |U| =>
      seq(|U|, j requires 0 <= j < |U| => if i == j then 0.0 else U[i][j]))
  }

  /** The largest absolute entry of a row, 0.0 for an empty row. */
  function MaxAbsRow(r: seq<real>): real {
    if r == [] then 0.0 else Max(Abs(r[0]), MaxAbsRow(r[1..]))
  }

  /** The largest absolute entry of a matrix, 0.0 when it has none: on a
      non-empty matrix this is `np.max(np.abs(M))`, every candidate being at
      least 0.0. */
  function MaxAbs(M: Matrix): real {
    if M == [] then 0.0 else Max(MaxAbsRow(M[0]), MaxAbs(M[1..]))
  }

  datatype AnalysisError =
    | NotSquare     // "Block not square"
    | DimMismatch   // "Dim mismatch vs basis"

  /** The entries of the returned dictionary that this model computes. */
  datatype Analysis = Analysis(
    H: Matrix,
    used: Matrix,          // H_used
    maxAntiherm: real,     // max |H - H.T|
    maxOffdiag: real,      // max |off-diagonal entry of H_used|
    basis: seq<string>)

  datatype Outcome = Ok(analysis: Analysis) | Err(error: AnalysisError)

  /** `analyze_block(H, basis_labels, symmetrize)` for an array `H` of shape
      `(|H|, cols)`, up to the eigen-decomposition. */
  function Analyze(H: Matrix, cols: nat, basis: seq<string>, symmetrize: bool): (r: Outcome)
    requires Rectangular(H, cols)
    ensures r == Err(NotSquare) <==> |H| != cols
    ensures r == Err(DimMismatch) <==> |H| == cols && |H| != |basis|
    ensures r.Ok? ==>
      && r.analysis.H == H && r.analysis.basis == basis
      && |r.analysis.used| == |H| && Rectangular(r.analysis.used, |H|)
  {
    if |H| != cols then Err(NotSquare)
    else if |H| != |basis| then Err(DimMismatch)
    else
      var used := if symmetrize then Symmetrised(H) else H;
      var anti := Antisymmetric(H);
      var off := OffDiagonal(used);
      // `H.size` is |H| * |H| once the block is square
      var size := |H|;
      Ok(Analysis(H, used,
        if size != 0 then MaxAbs(anti) else 0.0,
        if size != 0 then MaxAbs(off) else 0.0,
        basis))
  }

  // ---------------------------------------------------------------- the diagnostics

  lemma {:induction false} MaxAbsRowBound(r: seq<real>)
    ensures MaxAbsRow(r) >= 0.0
    ensures forall j :: 0 <= j < |r| ==> Abs(r[j]) <= MaxAbsRow(r)
    ensures MaxAbsRow(r) == 0.0 <==> forall j :: 0 <= j < |r| ==> r[j] == 0.0
  {
    if r != [] {
      MaxAbsRowBound(r[1..]);
      assert forall j :: 1 <= j < |r| ==> r[j] == r[1..][j - 1];
    }
  }

  /** The maximum bounds every entry and is 0.0 exactly for a zero matrix. */
  lemma {:induction false} MaxAbsBound(M: Matrix)
    ensures MaxAbs(M) >= 0.0
    ensures forall i, j :: 0 <= i < |M| && 0 <= j < |M[i]| ==> Abs(M[i][j]) <= MaxAbs(M)
    ensures MaxAbs(M) == 0.0 <==> forall i, j :: 0 <= i < |M| && 0 <= j < |M[i]| ==> M[i][j] == 0.0
  {
    if M != [] {
      MaxAbsRowBound(M[0]);
      MaxAbsBound(M[1..]);
      assert forall i :: 1 <= i < |M| ==> M[i] == M[1..][i - 1];
    }
  }

  lemma {:induction false} MaxAbsRowAttained(r: seq<real>) returns (j: nat)
    requires r != []
    ensures j < |r| && MaxAbsRow(r) == Abs(r[j])
  {
    if r[1..] == [] || MaxAbsRow(r[1..]) <= Abs(r[0]) {
      j := 0;
    } else {
      var j' := MaxAbsRowAttained(r[1..]);
      j := j' + 1;
    }
  }

  /** On a matrix with an entry, the maximum is the absolute value of one
      entry, `M[i][j]`: it is `np.max` of the absolute values. */
  lemma {:induction false} MaxAbsAttained(M: Matrix, cols: nat) returns (i: nat, j: nat)
    requires M != [] && cols > 0 && Rectangular(M, cols)
    ensures i < |M| && j < |M[i]| && MaxAbs(M) == Abs(M[i][j])
  {
    if M[1..] == [] || MaxAbs(M[1..]) <= MaxAbsRow(M[0]) {
      i := 0;
      j := MaxAbsRowAttained(M[0]);
    } else {
      var i', j' := MaxAbsAttained(M[1..], cols);
      i, j := i' + 1, j';
    }
  }

  /** The shape checks: the error raised, and when none is, the dimensions. */
  lemma AnalyzeShape(H: Matrix, cols: nat, basis: seq<string>, symmetrize: bool)
    requires Rectangular(H, cols)
    ensures Analyze(H, cols, basis, symmetrize).Ok? <==> |H| == cols == |basis|
  {
  }

  /** With symmetrisation on, `H_used` is symmetric, and it is `H` itself
      exactly when `H` is symmetric; with it off, `H_used` is `H`. */
  lemma UsedMatrix(H: Matrix, basis: seq<string>, symmetrize: bool)
    requires Rectangular(H, |H|) && |basis| == |H|
    ensures var a := Analyze(H, |H|, basis, symmetrize).analysis;
      && (symmetrize ==> Symmetric(a.used) && (a.used == H <==> Symmetric(H)))
      && (!symmetrize ==> a.used == H)
  {
    var a := Analyze(H, |H|, basis, symmetrize).analysis;
    if symmetrize {
      var U := a.used;
      assert Symmetric(U) by {
        forall i, j | 0 <= i < |H| && 0 <= j < |H| ensures U[i][j] == U[j][i] {
          assert U[i][j] == (H[i][j] + H[j][i]) / 2.0;
          assert U[j][i] == (H[j][i] + H[i][j]) / 2.0;
        }
      }
      if Symmetric(H) {
        forall i | 0 <= i < |H| ensures U[i] == H[i] {
          assert forall j :: 0 <= j < |H| ==> U[i][j] == (H[i][j] + H[j][i]) / 2.0;
        }
      }
    }
  }

  /** The antisymmetric diagnostic is 0.0 exactly for a symmetric `H`. */
  lemma AntihermZeroIffSymmetric(H: Matrix, basis: seq<string>, symmetrize: bool)
    requires Rectangular(H, |H|) && |basis| == |H|
    ensures Analyze(H, |H|, basis, symmetrize).analysis.maxAntiherm == 0.0 <==> Symmetric(H)
  {
    var A := Antisymmetric(H);
    MaxAbsBound(A);
    if Symmetric(H) {
      assert forall i, j :: 0 <= i < |A| && 0 <= j < |A[i]| ==> A[i][j] == H[i][j] - H[j][i];
    } else if |H| != 0 {
      var i, j :| 0 <= i < |H| && 0 <= j < |H| && H[i][j] != H[j][i];
      assert A[i][j] == H[i][j] - H[j][i];
    }
  }

  /** The off-diagonal diagnostic bounds every off-diagonal entry of `H_used`
      and is 0.0 exactly when `H_used` is diagonal. */
  lemma OffdiagBounds(H: Matrix, basis: seq<string>, symmetrize: bool)
    requires Rectangular(H, |H|) && |basis| == |H|
    ensures var a := Analyze(H, |H|, basis, symmetrize).analysis;
      && (forall i, j :: 0 <= i < |H| && 0 <= j < |H| && i != j ==> Abs(a.used[i][j]) <= a.maxOffdiag)
      && (a.maxOffdiag == 0.0 <==> Diagonal(a.used))
  {
    var a := Analyze(H, |H|, basis, symmetrize).analysis;
    var O := OffDiagonal(a.used);
    MaxAbsBound(O);
    assert forall i, j :: 0 <= i < |H| && 0 <= j < |H| && i != j ==> O[i][j] == a.used[i][j];
    assert forall i, j :: 0 <= i < |H| && 0 <= j < |H| && i == j ==> O[i][j] == 0.0;
  }

  /** The off-diagonal diagnostic ignores the diagonal: two blocks that
      differ only on the diagonal get the same value. */
  lemma OffdiagIgnoresDiagonal(H: Matrix, H': Matrix, basis: seq<string>, symmetrize: bool)
    requires Rectangular(H, |H|) && |basis| == |H| == |H'| && Rectangular(H', |H|)
    requires forall i, j :: 0 <= i < |H| && 0 <= j < |H| && i != j ==> H[i][j] == H'[i][j]
    ensures Analyze(H, |H|, basis, symmetrize).analysis.maxOffdiag
         == Analyze(H', |H|, basis, symmetrize).analysis.maxOffdiag
  {
    var U := Analyze(H, |H|, basis, symmetrize).analysis.used;
    var U' := Analyze(H', |H|, basis, symmetrize).analysis.used;
    assert forall i, j :: 0 <= i < |H| && 0 <= j < |H| && i != j ==> U[i][j] == U'[i][j];
    var O, O' := OffDiagonal(U), OffDiagonal(U');
    forall i | 0 <= i < |H| ensures O[i] == O'[i] {
      assert forall j :: 0 <= j < |H| ==> O[i][j] == O'[i][j];
    }
    assert O == O';
  }

  // ---------------------------------------------------------------- dominant_desc

  /** `np.where(perc >= thr)[0]`, from index `k` on. */
  function AtLeast(perc: seq<real>, thr: real, k: nat): seq<nat>
    requires k <= |perc|
    decreases |perc| - k
  {
    if k == |perc| then []
    else if perc[k] >= thr then [k] + AtLeast(perc, thr, k + 1)
    else AtLeast(perc, thr, k + 1)
  }

  /** `np.argmax(perc[:n])`: the first index of the largest value. */
  function ArgMax(perc: seq<real>, n: nat): (a: nat)
    requires 0 < n <= |perc|
    ensures a < n
  {
    if n == 1 then 0
    else
      var a := ArgMax(perc, n - 1);
      if perc[n - 1] > perc[a] then n - 1 else a
  }

  /** The indices `dominant_desc` describes: those at or above the
      threshold, or else the first maximum; None where `np.argmax` raises on
      an empty array. */
  function DominantIndices(perc: seq<real>, thr: real): Option<seq<nat>> {
    var idx := AtLeast(perc, thr, 0);
    if idx != [] then Some(idx)
    else if perc == [] then None
    else Some([ArgMax(perc, |perc|)])
  }

  /** `np.where` lists exactly the indices at or above the threshold, in
      increasing order. */
  lemma {:induction false} AtLeastSpec(perc: seq<real>, thr: real, k: nat)
    requires k <= |perc|
    ensures forall m :: m in AtLeast(perc, thr, k) <==> k <= m < |perc| && perc[m] >= thr
    ensures forall x, y :: 0 <= x < y < |AtLeast(perc, thr, k)| ==>
      AtLeast(perc, thr, k)[x] < AtLeast(perc, thr, k)[y]
    decreases |perc| - k
  {
    if k < |perc| {
      AtLeastSpec(perc, thr, k + 1);
      var rest := AtLeast(perc, thr, k + 1);
      assert forall y :: 0 <= y < |rest| ==> rest[y] in rest;
    }
  }

  /** `np.argmax` gives a largest value, and no earlier index holds it. */
  lemma {:induction false} ArgMaxSpec(perc: seq<real>, n: nat)
    requires 0 < n <= |perc|
    ensures ArgMax(perc, n) < n
    ensures forall m :: 0 <= m < n ==> perc[m] <= perc[ArgMax(perc, n)]
    ensures forall m :: 0 <= m < ArgMax(perc, n) ==> perc[m] < perc[ArgMax(perc, n)]
  {
    if n > 1 {
      ArgMaxSpec(perc, n - 1);
    }
  }

  /** `dominant_desc` describes every component at or above the threshold,
      in index order, and when there is none, the first largest one. */
  lemma DominantSpec(perc: seq<real>, thr: real)
    ensures DominantIndices(perc, thr).None? <==> perc == []
    ensures (exists m :: 0 <= m < |perc| && perc[m] >= thr) ==>
      && DominantIndices(perc, thr).Some?
      && var idx := DominantIndices(perc, thr).value;
         && (forall m :: m in idx <==> 0 <= m < |perc| && perc[m] >= thr)
         && (forall x, y :: 0 <= x < y < |idx| ==> idx[x] < idx[y])
    ensures perc != [] && (forall m :: 0 <= m < |perc| ==> perc[m] < thr) ==>
      && DominantIndices(perc, thr).Some?
      && var idx := DominantIndices(perc, thr).value;
         && |idx| == 1 && idx[0] < |perc|
         && (forall m :: 0 <= m < |perc| ==> perc[m] <= perc[idx[0]])
         && (forall m :: 0 <= m < idx[0] ==> perc[m] < perc[idx[0]])
  {
    AtLeastSpec(perc, thr, 0);
    var idx := AtLeast(perc, thr, 0);
    if idx != [] {
      assert idx[0] in idx;
    }
    if perc != [] {
      ArgMaxSpec(perc, |perc|);
    }
  }

}
