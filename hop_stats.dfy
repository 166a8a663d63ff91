/** The summaries print_hop.py draws from the parsed blocks: the largest
    magnitude among the numbers of a block (`max_abs_from_lines`) and the
    grouping of hopping rows into shells of nearby distance
    (`group_by_distance`). */
module HopStats {
  import opened Wrappers
  import opened Reals
  import opened Text
  import opened FloatTokens

  // ---------------------------------------------------------------- max_abs_from_lines

  predicate AllConvert(toks: seq<string>) {
    forall k :: 0 <= k < |toks| ==> ParseFloat(toks[k]).Some?
  }

  /** Every NUM_RE token of a line converts with `float`. */
  lemma NumTokensConvert(line: string)
    ensures AllConvert(FindAll(NumRe, line))
  {
    var toks := FindAll(NumRe, line);
    TokensConvert(NumRe, line, 0);
    forall k | 0 <= k < |toks| ensures ParseFloat(toks[k]).Some? {
      assert toks[k] in FindAllFrom(NumRe, line, 0);
    }
  }

  /** `abs(float(s))` for every token `s`, in order. */
  function TokenMagnitudes(toks: seq<string>): (ms: seq<real>)
    requires AllConvert(toks)
    ensures |ms| == |toks|
    ensures forall k :: 0 <= k < |toks| ==> ms[k] == Abs(ParseFloat(toks[k]).value)
  {
    seq(|toks|, k requires 0 <= k < |toks| => Abs(ParseFloat(toks[k]).value))
  }

  /** The magnitudes of the NUM_RE tokens of one line. */
  function LineMagnitudes(line: string): (ms: seq<real>)
    ensures |ms| == |FindAll(NumRe, line)|
  {
    NumTokensConvert(line);
    TokenMagnitudes(FindAll(NumRe, line))
  }

  /** The magnitudes of the tokens of all lines, line by line. */
  function Magnitudes(lines: seq<string>): seq<real> {
    if lines == [] then [] else Magnitudes(lines[..|lines| - 1]) + LineMagnitudes(lines[|lines| - 1])
  }

  lemma MagnitudesStep(lines: seq<string>, i: nat)
    requires i < |lines|
    ensures Magnitudes(lines[..i + 1]) == Magnitudes(lines[..i]) + LineMagnitudes(lines[i])
  {
    assert lines[..i + 1][..i] == lines[..i];
  }

  /** The running maximum of `vs`, started at 0.0 and replaced by a value
      only when the value is strictly larger. */
  function RunningMax(vs: seq<real>): real {
    if vs == [] then 0.0 else Max(RunningMax(vs[..|vs| - 1]), vs[|vs| - 1])
  }

  predicate NonNegative(vs: seq<real>) {
    forall k :: 0 <= k < |vs| ==> vs[k] >= 0.0
  }

  /** The running maximum is at least 0.0 and every value; it is 0.0 for no
      values, and one of the values when they are all non-negative. */
  lemma {:induction false} RunningMaxSpec(vs: seq<real>)
    ensures RunningMax(vs) >= 0.0
    ensures forall v :: v in vs ==> v <= RunningMax(vs)
    ensures vs == [] ==> RunningMax(vs) == 0.0
    ensures vs != [] && NonNegative(vs) ==> RunningMax(vs) in vs
  {
    if vs != [] {
      var front := vs[..|vs| - 1];
      RunningMaxSpec(front);
      assert vs == front + [vs[|vs| - 1]];
      if front == [] || !NonNegative(vs) {
      } else {
        assert RunningMax(front) in front;
      }
    }
  }

  lemma {:induction false} MagnitudesNonNegative(lines: seq<string>)
    ensures NonNegative(Magnitudes(lines))
  {
    if lines != [] {
      MagnitudesNonNegative(lines[..|lines| - 1]);
    }
  }

  /** There are no magnitudes exactly when no line holds a digit. */
  lemma {:induction false} MagnitudesEmpty(lines: seq<string>)
    ensures Magnitudes(lines) == [] <==> forall i :: 0 <= i < |lines| ==> !HasDigit(lines[i])
  {
    if lines != [] {
      var front, last := lines[..|lines| - 1], lines[|lines| - 1];
      MagnitudesEmpty(front);
      FindAllEmptyIffNoDigit(NumRe, last);
      assert forall i :: 0 <= i < |front| ==> front[i] == lines[i];
    }
  }

  /** Every token of every line has its magnitude listed. */
  lemma {:induction false} MagnitudesListed(lines: seq<string>)
    ensures forall i, k :: 0 <= i < |lines| && 0 <= k < |FindAll(NumRe, lines[i])| ==>
      LineMagnitudes(lines[i])[k] in Magnitudes(lines)
  {
    if lines != [] {
      var front, last := lines[..|lines| - 1], lines[|lines| - 1];
      MagnitudesListed(front);
      var ms := Magnitudes(lines);
      assert ms == Magnitudes(front) + LineMagnitudes(last);
      forall i, k | 0 <= i < |lines| && 0 <= k < |FindAll(NumRe, lines[i])|
        ensures LineMagnitudes(lines[i])[k] in ms
      {
        if i < |front| {
          assert lines[i] == front[i];
        }
      }
    }
  }

  lemma PrefixStep(done: seq<real>, mags: seq<real>, j: nat)
    requires j < |mags|
    ensures done + mags[..j + 1] == (done + mags[..j]) + [mags[j]]
  {
    assert mags[..j + 1] == mags[..j] + [mags[j]];
  }

  lemma RunningMaxStep(vs: seq<real>, v: real)
    ensures RunningMax(vs + [v]) == Max(RunningMax(vs), v)
  {
    assert (vs + [v])[..|vs|] == vs;
  }

  /** What `max_abs_from_lines` promises, stated on the token magnitudes:
      0.0 when no line holds a number, otherwise the magnitude of one of
      the tokens and at least that of every token. */
  lemma MaxAbsSpec(lines: seq<string>)
    ensures RunningMax(Magnitudes(lines)) >= 0.0
    ensures forall i, k :: 0 <= i < |lines| && 0 <= k < |FindAll(NumRe, lines[i])| ==>
      LineMagnitudes(lines[i])[k] <= RunningMax(Magnitudes(lines))
    ensures (forall i :: 0 <= i < |lines| ==> !HasDigit(lines[i])) ==> RunningMax(Magnitudes(lines)) == 0.0
    ensures (exists i :: 0 <= i < |lines| && HasDigit(lines[i])) ==> RunningMax(Magnitudes(lines)) in Magnitudes(lines)
  {
    var ms := Magnitudes(lines);
    RunningMaxSpec(ms);
    MagnitudesNonNegative(lines);
    MagnitudesEmpty(lines);
    MagnitudesListed(lines);
  }

  /** `max_abs_from_lines(matrix_lines)`: the running maximum of
      `abs(float(s))` over the NUM_RE tokens `s` of the lines, from 0.0. */
  method MaxAbsFromLines(lines: seq<string>) returns (m: real)
    ensures m == RunningMax(Magnitudes(lines))
  {
    m := 0.0;
    for i := 0 to |lines|
      invariant m == RunningMax(Magnitudes(lines[..i]))
    {
      var toks := FindAll(NumRe, lines[i]);
      NumTokensConvert(lines[i]);
      ghost var done := Magnitudes(lines[..i]);
      ghost var mags := TokenMagnitudes(toks);
      assert done + mags[..0] == done;
      for j := 0 to |toks|
        invariant m == RunningMax(done + mags[..j])
      {
        var v := Abs(ParseFloat(toks[j]).value);
        PrefixStep(done, mags, j);
        RunningMaxStep(done + mags[..j], v);
        if v > m {
          m := v;
        }
      }
      assert mags[..|toks|] == mags == LineMagnitudes(lines[i]);
      MagnitudesStep(lines, i);
    }
    assert lines[..|lines|] == lines;
  }

  // ---------------------------------------------------------------- group_by_distance

  /** One printed row: the pair label, the hopping magnitude and the
      distance. */
  datatype Row = Row(pair: string, hop: real, dist: real)

  predicate Ordered(s: seq<Row>, i: nat, j: nat)
    requires i < |s| && j < |s|
  {
    s[i].dist <= s[j].dist
  }

  predicate SortedByDist(s: seq<Row>) {
    forall i, j :: 0 <= i < j < |s| ==> Ordered(s, i, j)
  }

  /** `x` placed before the first row of `t` whose distance is not smaller. */
  function Insert(x: Row, t: seq<Row>): (r: seq<Row>)
    ensures |r| == |t| + 1
  {
    if t == [] || x.dist <= t[0].dist then [x] + t else [t[0]] + Insert(x, t[1..])
  }

  /** `sorted(rows, key=lambda r: r[2])`: a stable sort by distance. */
  function SortByDist(s: seq<Row>): (r: seq<Row>)
    ensures |r| == |s|
  {
    if s == [] then [] else Insert(s[0], SortByDist(s[1..]))
  }

  /** The rows of `s` at distance `d`, in order. */
  function AtDist(d: real, s: seq<Row>): seq<Row> {
    if s == [] then [] else (if s[0].dist == d then [s[0]] else []) + AtDist(d, s[1..])
  }

  lemma SortedTail(t: seq<Row>)
    requires t != [] && SortedByDist(t)
    ensures SortedByDist(t[1..])
  {
    forall i, j | 0 <= i < j < |t| - 1 ensures Ordered(t[1..], i, j) {
      assert Ordered(t, i + 1, j + 1);
    }
  }

  /** A row followed by a sorted sequence that does not start below it is
      sorted. */
  lemma SortedCons(x: Row, t: seq<Row>)
    requires SortedByDist(t) && (t == [] || x.dist <= t[0].dist)
    ensures SortedByDist([x] + t)
  {
    var r := [x] + t;
    forall i, j | 0 <= i < j < |r| ensures Ordered(r, i, j) {
      if i == 0 {
        if j > 1 {
          assert Ordered(t, 0, j - 1);
        }
      } else {
        assert Ordered(t, i - 1, j - 1);
      }
    }
  }

  lemma {:induction false} InsertHead(x: Row, t: seq<Row>)
    requires t != []
    ensures Insert(x, t)[0] == x || Insert(x, t)[0] == t[0]
  {
  }

  lemma {:induction false} InsertSorted(x: Row, t: seq<Row>)
    requires SortedByDist(t)
    ensures SortedByDist(Insert(x, t))
  {
    if t == [] || x.dist <= t[0].dist {
      SortedCons(x, t);
    } else {
      SortedTail(t);
      InsertSorted(x, t[1..]);
      if |t| > 1 {
        InsertHead(x, t[1..]);
        assert Ordered(t, 0, 1);
      }
      SortedCons(t[0], Insert(x, t[1..]));
    }
  }

  lemma {:induction false} InsertMultiset(x: Row, t: seq<Row>)
    ensures multiset(Insert(x, t)) == multiset(t) + multiset{x}
  {
    if t != [] && x.dist > t[0].dist {
      InsertMultiset(x, t[1..]);
      assert t == [t[0]] + t[1..];
    }
  }

  /** Inserting `x` into a sorted sequence puts it before the other rows of
      its distance. */
  lemma AtDistCons(d: real, y: Row, t: seq<Row>)
    ensures AtDist(d, [y] + t) == (if y.dist == d then [y] else []) + AtDist(d, t)
  {
    assert ([y] + t)[1..] == t;
  }

  lemma {:induction false} InsertAtDist(x: Row, t: seq<Row>, d: real)
    requires SortedByDist(t)
    ensures AtDist(d, Insert(x, t)) == (if x.dist == d then [x] else []) + AtDist(d, t)
  {
    if t == [] || x.dist <= t[0].dist {
      AtDistCons(d, x, t);
    } else {
      var y, rest := t[0], t[1..];
      SortedTail(t);
      InsertAtDist(x, rest, d);
      AtDistCons(d, y, Insert(x, rest));
      assert t == [y] + rest;
      AtDistCons(d, y, rest);
      if x.dist == d {
        assert y.dist != d;
      }
    }
  }

  lemma {:induction false} SortByDistSorted(s: seq<Row>)
    ensures SortedByDist(SortByDist(s))
  {
    if s != [] {
      SortByDistSorted(s[1..]);
      InsertSorted(s[0], SortByDist(s[1..]));
    }
  }

  lemma {:induction false} SortByDistMultiset(s: seq<Row>)
    ensures multiset(SortByDist(s)) == multiset(s)
  {
    if s != [] {
      SortByDistMultiset(s[1..]);
      InsertMultiset(s[0], SortByDist(s[1..]));
      assert s == [s[0]] + s[1..];
    }
  }

  lemma {:induction false} SortByDistStable(s: seq<Row>, d: real)
    ensures AtDist(d, SortByDist(s)) == AtDist(d, s)
  {
    if s != [] {
      SortByDistStable(s[1..], d);
      SortByDistSorted(s[1..]);
      InsertAtDist(s[0], SortByDist(s[1..]), d);
    }
  }

  /** The stable sort orders the rows by distance, keeps every row as often
      as it occurs, and keeps the rows of equal distance in input order. */
  lemma SortByDistSpec(s: seq<Row>)
    ensures SortedByDist(SortByDist(s))
    ensures multiset(SortByDist(s)) == multiset(s)
    ensures forall d :: AtDist(d, SortByDist(s)) == AtDist(d, s)
  {
    SortByDistSorted(s);
    SortByDistMultiset(s);
    forall d ensures AtDist(d, SortByDist(s)) == AtDist(d, s) {
      SortByDistStable(s, d);
    }
  }

  /** The rows of the groups, group after group. */
  function Flatten(groups: seq<seq<Row>>): seq<Row> {
    if groups == [] then [] else groups[0] + Flatten(groups[1..])
  }

  lemma {:induction false} FlattenAppend(groups: seq<seq<Row>>, g: seq<Row>)
    ensures Flatten(groups + [g]) == Flatten(groups) + g
  {
    if groups != [] {
      assert (groups + [g])[1..] == groups[1..] + [g];
      FlattenAppend(groups[1..], g);
    }
  }

  /** Rows `j` and `j + 1` of `g` are at most `bound` apart in distance. */
  predicate Near(g: seq<Row>, j: nat, bound: real)
    requires j + 1 < |g|
  {
    g[j + 1].dist - g[j].dist <= bound
  }

  predicate Close(g: seq<Row>, bound: real) {
    forall j :: 0 <= j < |g| - 1 ==> Near(g, j, bound)
  }

  /** Group `k` starts more than `bound` beyond the end of group `k - 1`. */
  predicate Cut(groups: seq<seq<Row>>, k: nat, bound: real)
    requires 0 < k < |groups|
  {
    groups[k] != [] && groups[k - 1] != [] && groups[k][0].dist - groups[k - 1][|groups[k - 1]| - 1].dist > bound
  }

  predicate Apart(groups: seq<seq<Row>>, bound: real) {
    forall k :: 0 < k < |groups| ==> Cut(groups, k, bound)
  }

  predicate AllRuns(groups: seq<seq<Row>>, bound: real) {
    forall k :: 0 <= k < |groups| ==> groups[k] != [] && Close(groups[k], bound)
  }

  /** `groups` cuts `xs` into non-empty runs, at exactly the places where
      the distance jumps by more than `bound`. */
  predicate IsRunSplit(xs: seq<Row>, groups: seq<seq<Row>>, bound: real) {
    Flatten(groups) == xs && AllRuns(groups, bound) && Apart(groups, bound)
  }

  /** Where the first run of a split of `xs` ends, the distance jumps. */
  lemma CutAfterHead(xs: seq<Row>, A: seq<seq<Row>>, bound: real)
    requires IsRunSplit(xs, A, bound) && A != [] && |A[0]| < |xs|
    ensures |A[0]| > 0 && xs[|A[0]|].dist - xs[|A[0]| - 1].dist > bound
  {
    var n := |A[0]|;
    assert xs == A[0] + Flatten(A[1..]);
    assert |A| > 1;
    assert Flatten(A[1..]) == A[1] + Flatten(A[2..]) by {
      assert A[1..][0] == A[1] && A[1..][1..] == A[2..];
    }
    assert Cut(A, 1, bound);
  }

  /** Inside the first run of a split of `xs`, the distance does not jump. */
  lemma NoCutInHead(xs: seq<Row>, B: seq<seq<Row>>, n: nat, bound: real)
    requires IsRunSplit(xs, B, bound) && B != [] && 0 < n < |B[0]|
    ensures xs[n].dist - xs[n - 1].dist <= bound
  {
    assert xs == B[0] + Flatten(B[1..]);
    assert Near(B[0], n - 1, bound);
  }

  lemma RunSplitTail(xs: seq<Row>, A: seq<seq<Row>>, bound: real)
    requires IsRunSplit(xs, A, bound) && A != []
    ensures IsRunSplit(xs[|A[0]|..], A[1..], bound)
  {
    assert xs == A[0] + Flatten(A[1..]);
    forall k | 0 < k < |A| - 1 ensures Cut(A[1..], k, bound) {
      assert Cut(A, k + 1, bound);
    }
  }

  /** A sequence has one split into runs only: the cuts are forced. */
  lemma {:induction false} RunSplitUnique(xs: seq<Row>, A: seq<seq<Row>>, B: seq<seq<Row>>, bound: real)
    requires IsRunSplit(xs, A, bound) && IsRunSplit(xs, B, bound)
    ensures A == B
    decreases |A|
  {
    if A != [] && B != [] {
      var a, b := A[0], B[0];
      assert xs == a + Flatten(A[1..]) && xs == b + Flatten(B[1..]);
      if |a| < |b| {
        CutAfterHead(xs, A, bound);
        NoCutInHead(xs, B, |a|, bound);
      }
      if |b| < |a| {
        CutAfterHead(xs, B, bound);
        NoCutInHead(xs, A, |b|, bound);
      }
      assert a == xs[..|a|] == b;
      RunSplitTail(xs, A, bound);
      RunSplitTail(xs, B, bound);
      RunSplitUnique(xs[|a|..], A[1..], B[1..], bound);
      assert A == [a] + A[1..] && B == [b] + B[1..];
    }
  }

  /** A single row is a single run. */
  lemma RunSplitSingle(x: Row, bound: real)
    ensures IsRunSplit([x], [[x]], bound)
  {
    assert Flatten([[x]]) == [x] + Flatten([]);
  }

  /** A row near the end of the last run joins that run. */
  lemma RunSplitExtend(xs: seq<Row>, gs: seq<seq<Row>>, c: seq<Row>, x: Row, bound: real)
    requires IsRunSplit(xs, gs + [c], bound) && c != [] && x.dist - c[|c| - 1].dist <= bound
    ensures IsRunSplit(xs + [x], gs + [c + [x]], bound)
  {
    var before, after := gs + [c], gs + [c + [x]];
    FlattenAppend(gs, c);
    FlattenAppend(gs, c + [x]);
    assert AllRuns(after, bound) by {
      forall k | 0 <= k < |after| ensures after[k] != [] && Close(after[k], bound) {
        if k < |gs| {
          assert after[k] == before[k];
        } else {
          assert before[|gs|] == c;
          forall j | 0 <= j < |c| ensures Near(c + [x], j, bound) {
            if j < |c| - 1 {
              assert Near(c, j, bound);
            }
          }
        }
      }
    }
    forall k | 0 < k < |after| ensures Cut(after, k, bound) {
      assert Cut(before, k, bound);
      assert after[k - 1] == before[k - 1];
      assert after[k][0] == before[k][0];
    }
  }

  /** A row far beyond the end of the last run opens a new one. */
  lemma RunSplitOpen(xs: seq<Row>, gs: seq<seq<Row>>, x: Row, bound: real)
    requires IsRunSplit(xs, gs, bound) && gs != [] && x.dist - gs[|gs| - 1][|gs[|gs| - 1]| - 1].dist > bound
    ensures IsRunSplit(xs + [x], gs + [[x]], bound)
  {
    var after := gs + [[x]];
    FlattenAppend(gs, [x]);
    assert AllRuns(after, bound) by {
      forall k | 0 <= k < |after| ensures after[k] != [] && Close(after[k], bound) {
        if k < |gs| {
          assert after[k] == gs[k];
        }
      }
    }
    forall k | 0 < k < |after| ensures Cut(after, k, bound) {
      if k < |gs| {
        assert Cut(gs, k, bound);
        assert after[k - 1] == gs[k - 1] && after[k] == gs[k];
      }
    }
  }

  /** `group_by_distance(rows, gap, eps)`: the rows sorted by distance, cut
      wherever the distance grows by more than `gap + eps` from one row to
      the next. */
  method GroupByDistance(rows: seq<Row>, gap: real, eps: real) returns (groups: seq<seq<Row>>)
    ensures IsRunSplit(SortByDist(rows), groups, gap + eps)
  {
    var sorted := SortByDist(rows);
    var bound := gap + eps;
    groups := [];
    var cur: seq<Row> := [];
    var lastD: Option<real> := None;
    for i := 0 to |sorted|
      invariant i == 0 ==> groups == [] && cur == [] && lastD.None?
      invariant i > 0 ==> cur != [] && cur[|cur| - 1] == sorted[i - 1] && lastD == Some(sorted[i - 1].dist)
      invariant i > 0 ==> IsRunSplit(sorted[..i], groups + [cur], bound)
    {
      var r := sorted[i];
      var d := r.dist;
      assert sorted[..i + 1] == sorted[..i] + [r];
      if lastD.None? || d - lastD.value <= bound {
        if i == 0 {
          RunSplitSingle(r, bound);
        } else {
          RunSplitExtend(sorted[..i], groups, cur, r, bound);
        }
        cur := cur + [r];
      } else {
        if cur != [] {
          groups := groups + [cur];
        }
        RunSplitOpen(sorted[..i], groups, r, bound);
        cur := [r];
      }
      lastD := Some(d);
    }
    if cur != [] {
      groups := groups + [cur];
    }
    assert sorted[..|sorted|] == sorted;
  }
}
