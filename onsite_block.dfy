/** The on-site block locator of cf.py: `parse_floats_from_line`,
    `nearly_zero_vec`, `atoms_match` and `find_onsite_block`.

    The two compiled patterns HEADER_RE and RADIUS_VEC_RE are given as
    functions from a line to what they capture; they are independent of the
    concrete blank test and of the number scanner, which are applied to any
    line, headers included. */
module OnsiteBlock {
  import opened Wrappers
  import opened Text
  import opened FloatTokens
  import opened Reals

  /** The groups of a HEADER_RE match: atom labels `a`, `b` and the sphere index. */
  datatype Header = Header(a: string, b: string, sphere: nat)

  /** The three components of a RADIUS_VEC_RE match, converted with `float`. */
  datatype Vec3 = Vec3(x: real, y: real, z: real)

  datatype LinePatterns = LinePatterns(
    header: string -> Option<Header>,       // HEADER_RE.match(line)
    radiusVector: string -> Option<Vec3>)   // RADIUS_VEC_RE.match(line)

  /** The default `tol` of `nearly_zero_vec`, 1e-8. */
  const Tolerance: real := 0.00000001

  predicate NearlyZeroVec(v: Vec3, tol: real) {
    Abs(v.x) < tol && Abs(v.y) < tol && Abs(v.z) < tol
  }

  /** The largest absolute component of `v`. */
  function MaxNorm(v: Vec3): real {
    Max(Abs(v.x), Max(Abs(v.y), Abs(v.z)))
  }

  /** `nearly_zero_vec` holds exactly when the maximum norm of the vector is
      below the tolerance; a vector passing it also passes with any larger
      tolerance and after a change of sign. */
  lemma NearlyZeroVecMaxNorm(v: Vec3, tol: real, tol': real)
    ensures NearlyZeroVec(v, tol) <==> MaxNorm(v) < tol
    ensures NearlyZeroVec(v, tol) && tol <= tol' ==> NearlyZeroVec(v, tol')
    ensures NearlyZeroVec(v, tol) <==> NearlyZeroVec(Vec3(-v.x, -v.y, -v.z), tol)
  {
  }

  // ---------------------------------------------------------------- atoms_match

  /** `s.replace(" ", "").lower()` */
  function Canonical(s: string): string {
    Lower(RemoveBlanks(s))
  }

  predicate AtomsMatch(pair: string, a: string, b: string) {
    var p := Canonical(pair);
    p == Canonical(a + "-" + b) || p == Canonical(b + "-" + a)
  }

  lemma {:induction false} CanonicalConcat(x: string, y: string)
    ensures Canonical(x + y) == Canonical(x) + Canonical(y)
  {
    if x != [] {
      assert (x + y)[1..] == x[1..] + y;
      CanonicalConcat(x[1..], y);
    } else {
      assert x + y == y;
    }
  }

  lemma {:induction false} CanonicalIdempotent(s: string)
    ensures Canonical(Canonical(s)) == Canonical(s)
  {
    if s != [] {
      CanonicalIdempotent(s[1..]);
      if s[0] != ' ' {
        CanonicalConcat([LowerChar(s[0])], Canonical(s[1..]));
        assert Canonical([LowerChar(s[0])]) == [LowerChar(s[0])];
      }
    }
  }

  /** `atoms_match` depends only on the labels with their blanks removed and
      their letters lower-cased, and the two atoms may come in either order. */
  lemma AtomsMatchCanonical(pair: string, a: string, b: string)
    ensures AtomsMatch(pair, a, b) <==>
      Canonical(pair) == Canonical(a) + "-" + Canonical(b) || Canonical(pair) == Canonical(b) + "-" + Canonical(a)
    ensures AtomsMatch(pair, a, b) == AtomsMatch(pair, b, a)
    ensures AtomsMatch(pair, a, b) == AtomsMatch(Canonical(pair), Canonical(a), Canonical(b))
  {
    assert Canonical("-") == "-";
    CanonicalConcat(a, "-");
    CanonicalConcat(a + "-", b);
    CanonicalConcat(b, "-");
    CanonicalConcat(b + "-", a);
    var p, ca, cb := Canonical(pair), Canonical(a), Canonical(b);
    CanonicalIdempotent(pair);
    CanonicalIdempotent(a);
    CanonicalIdempotent(b);
    CanonicalConcat(ca, "-");
    CanonicalConcat(ca + "-", cb);
    CanonicalConcat(cb, "-");
    CanonicalConcat(cb + "-", ca);
  }

  // ---------------------------------------------------------------- parse_floats_from_line

  /** One token of `parse_floats_from_line`: its exponent letter rewritten,
      then `float()`. */
  function TokenValue(tok: string): Option<real> {
    ParseFloat(FortranToE(tok))
  }

  /** The conversion loop of `parse_floats_from_line`, with the conversion
      of one token as a parameter: None as soon as one token fails. */
  function ConvertAll(convert: string -> Option<real>, toks: seq<string>): (r: Option<seq<real>>)
    ensures r.Some? ==> |r.value| == |toks|
  {
    if toks == [] then Some([])
    else match convert(toks[0])
      case None => None
      case Some(v) =>
        match ConvertAll(convert, toks[1..])
        case None => None
        case Some(vs) => Some([v] + vs)
  }

  function ParseFloats(line: string): Option<seq<real>> {
    var toks := FindAll(FloatRe, Strip(line));
    if toks == [] then None else ConvertAll(TokenValue, toks)
  }

  /** The conversion loop succeeds exactly when every token converts, and
      then gives the tokens' values in order. */
  lemma {:induction false} ConvertAllSpec(convert: string -> Option<real>, toks: seq<string>)
    ensures ConvertAll(convert, toks).Some? <==> forall k :: 0 <= k < |toks| ==> convert(toks[k]).Some?
    ensures ConvertAll(convert, toks).Some? ==>
      forall k :: 0 <= k < |toks| ==> convert(toks[k]) == Some(ConvertAll(convert, toks).value[k])
  {
    if toks != [] {
      ConvertAllSpec(convert, toks[1..]);
      assert forall k :: 1 <= k < |toks| ==> toks[k] == toks[1..][k - 1];
    }
  }

  /** `parse_floats_from_line` gives None exactly when the line holds no
      digit (no FLOAT_RE token), and otherwise one value per token, in
      order. */
  lemma ParseFloatsSpec(line: string)
    ensures ParseFloats(line).None? <==> !HasDigit(line)
    ensures ParseFloats(line).Some? ==>
      && |ParseFloats(line).value| == |FindAll(FloatRe, Strip(line))| > 0
      && forall k :: 0 <= k < |FindAll(FloatRe, Strip(line))| ==>
           TokenValue(FindAll(FloatRe, Strip(line))[k]) == Some(ParseFloats(line).value[k])
  {
    var s := Strip(line);
    var toks := FindAll(FloatRe, s);
    FindAllEmptyIffNoDigit(FloatRe, s);
    StripKeepsDigits(line);
    TokensConvert(FloatRe, s, 0);
    assert forall k :: 0 <= k < |toks| ==> toks[k] in toks;
    ConvertAllSpec(TokenValue, toks);
  }

  function Prefixed(vals: seq<real>, rest: Option<seq<real>>): Option<seq<real>> {
    match rest
    case None => None
    case Some(vs) => Some(vals + vs)
  }

  lemma PrefixedStep(vals: seq<real>, x: real, rest: Option<seq<real>>)
    ensures Prefixed(vals, Prefixed([x], rest)) == Prefixed(vals + [x], rest)
  {
    if rest.Some? {
      assert vals + ([x] + rest.value) == (vals + [x]) + rest.value;
    }
  }

  method ParseFloatsFromLine(line: string) returns (r: Option<seq<real>>)
    ensures r == ParseFloats(line)
  {
    var toks := FindAll(FloatRe, Strip(line));
    if toks == [] {
      return None;
    }
    var vals: seq<real> := [];
    var t := 0;
    assert toks[0..] == toks;
    assert ConvertAll(TokenValue, toks) == Prefixed([], ConvertAll(TokenValue, toks)) by {
      if ConvertAll(TokenValue, toks).Some? {
        assert [] + ConvertAll(TokenValue, toks).value == ConvertAll(TokenValue, toks).value;
      }
    }
    while t < |toks|
      invariant 0 <= t <= |toks|
      invariant ConvertAll(TokenValue, toks) == Prefixed(vals, ConvertAll(TokenValue, toks[t..]))
    {
      assert toks[t..][1..] == toks[t + 1..];
      var v := TokenValue(toks[t]);
      if v.None? {
        return None;
      }
      PrefixedStep(vals, v.value, ConvertAll(TokenValue, toks[t + 1..]));
      vals := vals + [v.value];
      t := t + 1;
    }
    assert vals + [] == vals;
    return Some(vals);
  }

  // ---------------------------------------------------------------- find_onsite_block

  /** `not line.strip()` */
  predicate IsBlank(line: string) {
    Strip(line) == []
  }

  /** What the locator can see of one line: the two pattern matches, the
      numbers `parse_floats_from_line` finds and whether it is blank.  The
      four are taken independently: every one of them is applied to any line. */
  datatype LineView = LineView(
    header: Option<Header>,
    radiusVector: Option<Vec3>,
    numbers: Option<seq<real>>,
    blank: bool)

  function View(pats: LinePatterns, line: string): LineView {
    LineView(pats.header(line), pats.radiusVector(line), ParseFloats(line), IsBlank(line))
  }

  function Views(pats: LinePatterns, lines: seq<string>): (vs: seq<LineView>)
    ensures |vs| == |lines|
  {
    if lines == [] then [] else [View(pats, lines[0])] + Views(pats, lines[1..])
  }

  /** The two pattern views of line `k`. */
  lemma PatternsAt(pats: LinePatterns, lines: seq<string>, k: nat)
    requires k < |lines|
    ensures Views(pats, lines)[k].header == pats.header(lines[k])
    ensures Views(pats, lines)[k].radiusVector == pats.radiusVector(lines[k])
  {
    ViewAt(pats, lines, k);
  }

  lemma {:induction false} ViewAt(pats: LinePatterns, lines: seq<string>, k: nat)
    requires k < |lines|
    ensures Views(pats, lines)[k] == View(pats, lines[k])
  {
    if k > 0 {
      ViewAt(pats, lines[1..], k - 1);
    }
  }

  /** Lines `lo` up to, not including, `hi` are blank. */
  predicate BlankBetween(vs: seq<LineView>, lo: nat, hi: nat)
    requires hi <= |vs|
  {
    forall t :: lo <= t < hi ==> vs[t].blank
  }

  /** Where the blank-skipping loops stop: the first non-blank line at or
      after `j`, or the end of the lines. */
  function NextNonBlank(vs: seq<LineView>, j: nat): (r: nat)
    requires j <= |vs|
    ensures j <= r <= |vs|
    ensures r < |vs| ==> !vs[r].blank
    ensures forall t :: j <= t < r ==> vs[t].blank
    decreases |vs| - j
  {
    if j < |vs| && vs[j].blank then NextNonBlank(vs, j + 1) else j
  }

  /** A header naming the target pair, in either order, in sphere 0. */
  predicate IsCandidate(vs: seq<LineView>, pair: string, i: nat)
    requires i < |vs|
  {
    match vs[i].header
    case None => false
    case Some(h) => AtomsMatch(pair, h.a, h.b) && h.sphere == 0
  }

  /** The rows the accumulation loop appends from line `k` on: at most
      `want` consecutive lines, each with exactly `n` numbers. */
  function RowRun(vs: seq<LineView>, k: nat, n: nat, want: nat): (rows: Matrix)
    requires k <= |vs|
    ensures |rows| <= want && k + |rows| <= |vs|
    decreases want
  {
    if want == 0 || k == |vs| then []
    else match vs[k].numbers
      case Some(row) =>
        if row != [] && |row| == n then [row] + RowRun(vs, k + 1, n, want - 1) else []
      case None => []
  }

  /** What examining a candidate header leads to. */
  datatype Verdict =
    | Found(m: Matrix)   // the block is returned
    | Rejected           // the scan resumes at the line after the header
    | Exhausted          // the lines ran out while skipping blanks: the search stops

  function Examine(vs: seq<LineView>, i: nat): Verdict
    requires i < |vs|
  {
    var j := NextNonBlank(vs, i + 1);
    if j >= |vs| then Exhausted
    else match vs[j].radiusVector
      case None => Rejected
      case Some(v) => if NearlyZeroVec(v, Tolerance) then ExamineMatrix(vs, j + 1) else Rejected
  }

  /** The part of `Examine` after an accepted radius vector: the matrix
      starts at the next non-blank line at or after `from`. */
  function ExamineMatrix(vs: seq<LineView>, from: nat): Verdict
    requires from <= |vs|
  {
    var k := NextNonBlank(vs, from);
    if k >= |vs| then Exhausted
    else match vs[k].numbers
      case None => Rejected
      case Some(first) => if first == [] then Rejected else SquareFrom(vs, k, first)
  }

  /** The block whose first row, `first`, is on line `k`: the accumulated
      rows must reach `|first|` of them. */
  function SquareFrom(vs: seq<LineView>, k: nat, first: seq<real>): Verdict
    requires k < |vs| && first != []
  {
    var mat := [first] + RowRun(vs, k + 1, |first|, |first| - 1);
    if |mat| == |first| then Found(mat) else Rejected
  }

  /** The outcome of `find_onsite_block` with its cursor `i` at the given line. */
  function Locate(vs: seq<LineView>, pair: string, i: nat): Option<Matrix>
    requires i <= |vs|
    decreases |vs| - i
  {
    if i == |vs| then None
    else if IsCandidate(vs, pair, i) then
      match Examine(vs, i)
      case Found(m) => Some(m)
      case Exhausted => None
      case Rejected => Locate(vs, pair, i + 1)
    else Locate(vs, pair, i + 1)
  }

  /** Rows `mat` collected before line `k`, out of `n`: with the run
      still to come they make up `total`. */
  predicate Collecting(vs: seq<LineView>, mat: Matrix, k: nat, n: nat, total: Matrix) {
    k <= |vs| && |mat| <= n && mat + RowRun(vs, k, n, n - |mat|) == total
  }

  /** One accepted row moves from the run to the rows so far. */
  lemma RowRunStep(vs: seq<LineView>, mat: Matrix, k: nat, n: nat, row: seq<real>, total: Matrix)
    requires Collecting(vs, mat, k, n, total) && k < |vs| && |mat| < n
    requires vs[k].numbers == Some(row) && row != [] && |row| == n
    ensures Collecting(vs, mat + [row], k + 1, n, total)
  {
    var want := n - |mat|;
    var rest := RowRun(vs, k + 1, n, want - 1);
    assert RowRun(vs, k, n, want) == [row] + rest;
    assert (mat + [row]) + rest == mat + ([row] + rest);
    assert n - |mat + [row]| == want - 1;
  }

  /** A rejected row, the end of the lines or a full matrix ends the run. */
  lemma RowRunStop(vs: seq<LineView>, mat: Matrix, k: nat, n: nat, total: Matrix)
    requires Collecting(vs, mat, k, n, total)
    requires k == |vs| || |mat| == n || match vs[k].numbers
      case Some(row) => row == [] || |row| != n
      case None => true
    ensures mat == total
  {
    assert RowRun(vs, k, n, n - |mat|) == [];
    assert mat + [] == mat;
  }

  /** `parse_floats_from_line(lines[k])`, as the locator sees it. */
  method NumbersAt(pats: LinePatterns, lines: seq<string>, k: nat) returns (r: Option<seq<real>>)
    requires k < |lines|
    ensures r == Views(pats, lines)[k].numbers
  {
    r := ParseFloatsFromLine(lines[k]);
    ViewAt(pats, lines, k);
  }

  /** The accumulation loop of `find_onsite_block`: starting from the
      first row `first`, found on line `k0`, append the following lines
      while each has exactly `|first|` numbers, until `|first|` rows are
      collected. */
  method AccumulateRows(pats: LinePatterns, lines: seq<string>, k0: nat, first: seq<real>) returns (mat: Matrix)
    requires k0 < |lines| && first != []
    ensures mat == [first] + RowRun(Views(pats, lines), k0 + 1, |first|, |first| - 1)
  {
    ghost var vs := Views(pats, lines);
    var nlines, N := |lines|, |first|;
    ghost var total := [first] + RowRun(vs, k0 + 1, N, N - 1);
    mat := [first];
    var k := k0 + 1;
    while k < nlines && |mat| < N
      invariant k == k0 + |mat| <= nlines
      invariant 1 <= |mat| <= N
      invariant Collecting(vs, mat, k, N, total)
    {
      var row := NumbersAt(pats, lines, k);
      if row.Some? && row.value != [] && |row.value| == N {
        RowRunStep(vs, mat, k, N, row.value, total);
        mat := mat + [row.value];
        k := k + 1;
      } else {
        break;
      }
    }
    RowRunStop(vs, mat, k, N, total);
  }

  /** `while j < nlines and not lines[j].strip(): j += 1` */
  method SkipBlank(pats: LinePatterns, lines: seq<string>, j0: nat) returns (j: nat)
    requires j0 <= |lines|
    ensures j == NextNonBlank(Views(pats, lines), j0)
  {
    ghost var vs := Views(pats, lines);
    j := j0;
    while j < |lines| && IsBlank(lines[j])
      invariant j0 <= j <= |lines|
      invariant NextNonBlank(vs, j) == NextNonBlank(vs, j0)
    {
      ViewAt(pats, lines, j);
      j := j + 1;
    }
    if j < |lines| {
      ViewAt(pats, lines, j);
    }
  }

  /** The steps of `find_onsite_block` after an accepted radius vector on
      line `from - 1`: skip blanks, read the first row, accumulate the rest. */
  method ReadBlock(pats: LinePatterns, lines: seq<string>, from: nat) returns (v: Verdict)
    requires from <= |lines|
    ensures v == ExamineMatrix(Views(pats, lines), from)
  {
    ghost var vs := Views(pats, lines);
    var k := SkipBlank(pats, lines, from);
    if k >= |lines| {
      return Exhausted;
    }
    var first := NumbersAt(pats, lines, k);
    if first.None? || first.value == [] {
      return Rejected;
    }
    assert ExamineMatrix(vs, from) == SquareFrom(vs, k, first.value);
    var mat := AccumulateRows(pats, lines, k, first.value);
    if |mat| == |first.value| {
      return Found(mat);
    }
    return Rejected;
  }

  /** The steps of `find_onsite_block` for a candidate header on line `i`:
      skip blanks, test the radius vector, read the block. */
  method ExamineCandidate(pats: LinePatterns, lines: seq<string>, i: nat) returns (v: Verdict)
    requires i < |lines|
    ensures v == Examine(Views(pats, lines), i)
  {
    ghost var vs := Views(pats, lines);
    var j := SkipBlank(pats, lines, i + 1);
    if j >= |lines| {
      return Exhausted;
    }
    PatternsAt(pats, lines, j);
    var rv := pats.radiusVector(lines[j]);
    if rv.None? {
      return Rejected;
    }
    var R := rv.value;
    if !NearlyZeroVec(R, Tolerance) {
      return Rejected;
    }
    v := ReadBlock(pats, lines, j + 1);
  }

  method FindOnsiteBlock(pats: LinePatterns, lines: seq<string>, pair: string) returns (r: Option<Matrix>)
    ensures r == Locate(Views(pats, lines), pair, 0)
  {
    ghost var vs := Views(pats, lines);
    var i, nlines := 0, |lines|;
    while i < nlines
      invariant 0 <= i <= nlines
      invariant Locate(vs, pair, i) == Locate(vs, pair, 0)
    {
      PatternsAt(pats, lines, i);
      var m := pats.header(lines[i]);
      if m.Some? {
        var a, b := m.value.a, m.value.b;
        var sphere := m.value.sphere;
        if AtomsMatch(pair, a, b) && sphere == 0 {
          var verdict := ExamineCandidate(pats, lines, i);
          match verdict
          case Exhausted =>
            break;
          case Found(mat) =>
            return Some(mat);
          case Rejected =>
        }
      }
      i := i + 1;
    }
    return None;
  }

  // ---------------------------------------------------------------- what the locator promises

  /** A line holding a number is never blank. */
  lemma NumbersNotBlank(line: string)
    ensures ParseFloats(line).Some? ==> !IsBlank(line)
  {
    ParseFloatsSpec(line);
    StripEmptyIffAllSpace(line);
    if AllSpace(line) {
      SpacesHaveNoDigit(line);
    }
  }

  /** The rows taken by the accumulation loop are the number lists of
      consecutive lines, each of length `n`; the loop stops early only at a
      line that does not hold exactly `n` numbers. */
  lemma {:induction false} RowRunRows(vs: seq<LineView>, k: nat, n: nat, want: nat)
    requires k <= |vs|
    ensures var rows := RowRun(vs, k, n, want);
      forall r :: 0 <= r < |rows| ==> |rows[r]| == n && vs[k + r].numbers == Some(rows[r])
    ensures var rows := RowRun(vs, k, n, want);
      |rows| < want && k + |rows| < |vs| ==>
        match vs[k + |rows|].numbers
        case Some(row) => row == [] || |row| != n
        case None => true
    decreases want
  {
    if want > 0 && k < |vs| {
      match vs[k].numbers
      case Some(row) =>
        if row != [] && |row| == n {
          RowRunRows(vs, k + 1, n, want - 1);
          var rows := RowRun(vs, k, n, want);
          assert rows == [row] + RowRun(vs, k + 1, n, want - 1);
          forall r | 1 <= r < |rows|
            ensures |rows[r]| == n && vs[k + r].numbers == Some(rows[r])
          {
            assert rows[r] == RowRun(vs, k + 1, n, want - 1)[r - 1];
          }
        }
      case None =>
    }
  }

  /** Conversely, `want` consecutive lines of `n` numbers each are all taken. */
  lemma {:induction false} RowRunOfRows(vs: seq<LineView>, k: nat, n: nat, rows: Matrix)
    requires n > 0 && k + |rows| <= |vs|
    requires forall r :: 0 <= r < |rows| ==> |rows[r]| == n && vs[k + r].numbers == Some(rows[r])
    ensures RowRun(vs, k, n, |rows|) == rows
    decreases |rows|
  {
    if rows != [] {
      assert vs[k].numbers == Some(rows[0]);
      RowRunOfRows(vs, k + 1, n, rows[1..]);
      assert rows == [rows[0]] + rows[1..];
    }
  }

  /** The layout of an accepted block: the header on line `h`, blank lines,
      on line `j` a radius vector within the tolerance of zero, blank lines,
      then from line `k` on the `|m|` rows of the square matrix `m`, one
      line each. */
  predicate BlockAt(vs: seq<LineView>, h: nat, j: nat, k: nat, m: Matrix) {
    && h < j < k && k + |m| <= |vs| && |m| > 0
    && BlankBetween(vs, h + 1, j) && !vs[j].blank
    && vs[j].radiusVector.Some? && NearlyZeroVec(vs[j].radiusVector.value, Tolerance)
    && BlankBetween(vs, j + 1, k) && !vs[k].blank
    && forall r :: 0 <= r < |m| ==> |m[r]| == |m| && vs[k + r].numbers == Some(m[r])
  }

  /** What examining a header accepts is a block laid out as `BlockAt` says;
      `j` and `k` are its radius-vector line and its first row. */
  lemma FoundShape(vs: seq<LineView>, h: nat, m: Matrix) returns (j: nat, k: nat)
    requires h < |vs| && Examine(vs, h) == Found(m)
    ensures BlockAt(vs, h, j, k, m)
  {
    j := NextNonBlank(vs, h + 1);
    k := NextNonBlank(vs, j + 1);
    var first := vs[k].numbers.value;
    var rows := RowRun(vs, k + 1, |first|, |first| - 1);
    RowRunRows(vs, k + 1, |first|, |first| - 1);
    assert m == [first] + rows;
    forall r | 0 <= r < |m|
      ensures |m[r]| == |m| && vs[k + r].numbers == Some(m[r])
    {
      if r > 0 {
        assert m[r] == rows[r - 1];
      }
    }
  }

  /** Every block laid out as `BlockAt` says is accepted. */
  lemma FoundFromShape(vs: seq<LineView>, h: nat, j: nat, k: nat, m: Matrix)
    requires BlockAt(vs, h, j, k, m)
    ensures Examine(vs, h) == Found(m)
  {
    assert NextNonBlank(vs, h + 1) == j by {
      NextNonBlankSkips(vs, h + 1, j);
    }
    assert NextNonBlank(vs, j + 1) == k by {
      NextNonBlankSkips(vs, j + 1, k);
    }
    var first := m[0];
    assert vs[k].numbers == Some(first);
    RowRunOfRows(vs, k + 1, |first|, m[1..]);
    assert [first] + m[1..] == m;
  }

  lemma {:induction false} NextNonBlankSkips(vs: seq<LineView>, lo: nat, hi: nat)
    requires lo <= hi < |vs| && BlankBetween(vs, lo, hi) && !vs[hi].blank
    ensures NextNonBlank(vs, lo) == hi
    decreases hi - lo
  {
    if lo < hi {
      NextNonBlankSkips(vs, lo + 1, hi);
    }
  }

  /** The search returns the block of the first candidate header, at or
      after line `i`, whose examination is not a rejection; `h` is that
      header's line. */
  lemma {:induction false} LocateSound(vs: seq<LineView>, pair: string, i: nat) returns (h: nat)
    requires i <= |vs| && Locate(vs, pair, i).Some?
    ensures i <= h < |vs| && IsCandidate(vs, pair, h)
    ensures Examine(vs, h) == Found(Locate(vs, pair, i).value)
    ensures forall c :: i <= c < h && IsCandidate(vs, pair, c) ==> Examine(vs, c) == Rejected
    decreases |vs| - i
  {
    if IsCandidate(vs, pair, i) && Examine(vs, i).Found? {
      h := i;
    } else {
      h := LocateSound(vs, pair, i + 1);
    }
  }

  /** Conversely: when every candidate before line `h` is rejected and the
      one on line `h` is accepted, the search returns that block. */
  lemma {:induction false} LocateComplete(vs: seq<LineView>, pair: string, i: nat, h: nat, m: Matrix)
    requires i <= h < |vs| && IsCandidate(vs, pair, h) && Examine(vs, h) == Found(m)
    requires forall c :: i <= c < h && IsCandidate(vs, pair, c) ==> Examine(vs, c) == Rejected
    ensures Locate(vs, pair, i) == Some(m)
    decreases h - i
  {
    if i < h {
      LocateComplete(vs, pair, i + 1, h, m);
    }
  }

  /** The two patterns never match the same line, and a header line is not blank. */
  predicate PatternsDisjoint(vs: seq<LineView>) {
    forall t :: 0 <= t < |vs| && vs[t].header.Some? ==> !vs[t].blank && vs[t].radiusVector.None?
  }

  lemma {:induction false} NoHeaderNone(vs: seq<LineView>, pair: string, i: nat)
    requires i <= |vs|
    requires forall t :: i <= t < |vs| ==> vs[t].header.None?
    ensures Locate(vs, pair, i) == None
    decreases |vs| - i
  {
    if i < |vs| {
      NoHeaderNone(vs, pair, i + 1);
    }
  }

  /** Stopping the search when the lines run out after a candidate header
      (the two `break`s) returns what scanning on would: only blank lines
      and at most one radius-vector line remain, and none of them is a
      header. */
  lemma ExhaustedEndsSearch(vs: seq<LineView>, pair: string, i: nat)
    requires i < |vs| && Examine(vs, i) == Exhausted && PatternsDisjoint(vs)
    ensures Locate(vs, pair, i + 1) == None
  {
    var j := NextNonBlank(vs, i + 1);
    if j < |vs| {
      var k := NextNonBlank(vs, j + 1);
      assert k == |vs|;
    }
    NoHeaderNone(vs, pair, i + 1);
  }

  /** A candidate exhausts the lines exactly when only blank lines follow its
      header, or only blank lines follow its accepted radius vector. */
  lemma ExhaustedIffBlankTail(vs: seq<LineView>, i: nat)
    requires i < |vs|
    ensures Examine(vs, i) == Exhausted <==>
      || BlankBetween(vs, i + 1, |vs|)
      || var j := NextNonBlank(vs, i + 1);
         && j < |vs| && vs[j].radiusVector.Some? && NearlyZeroVec(vs[j].radiusVector.value, Tolerance)
         && BlankBetween(vs, j + 1, |vs|)
  {
    var j := NextNonBlank(vs, i + 1);
    if j < |vs| {
      assert !BlankBetween(vs, i + 1, |vs|);
      if vs[j].radiusVector.Some? && NearlyZeroVec(vs[j].radiusVector.value, Tolerance) {
        var k := NextNonBlank(vs, j + 1);
        if k < |vs| {
          assert !BlankBetween(vs, j + 1, |vs|);
          if vs[k].numbers.Some? && vs[k].numbers.value != [] {
            var first := vs[k].numbers.value;
            assert SquareFrom(vs, k, first) != Exhausted;
          }
        }
      }
    }
  }
}
