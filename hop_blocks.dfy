/** `parse_blocks` of print_hop.py: cut a hopping listing into blocks, one
    per header line, each holding the numeric lines printed after its
    "Radius vector is:" line.

    The header and radius-vector regular expressions are parameters (see
    `HopPatterns`); the number search, the strip and the label cleaning are
    modelled concretely. */
module HopBlocks {
  import opened Wrappers
  import opened Text
  import opened FloatTokens
  import opened PairLabel
  import opened Orders

  /** What `HEADER_RE` captures from a header line: the raw `pair` group and
      `float(radius)`. */
  datatype HeaderMatch = HeaderMatch(pair: string, radius: real)

  /** `HEADER_RE.match` and `RADIUS_VEC_RE.match`. */
  datatype HopPatterns = HopPatterns(header: string -> Option<HeaderMatch>, radiusVector: string -> bool)

  /** One yielded dictionary: `pair`, `radius`, `matrix_lines`. */
  datatype Block = Block(pair: string, radius: real, matrixLines: seq<string>)

  /** `raw.rstrip("\n")` */
  function TrimNewlines(raw: string): (r: string)
    ensures r <= raw && (r == [] || r[|r| - 1] != '\n')
    ensures forall k :: |r| <= k < |raw| ==> raw[k] == '\n'
  {
    if raw != [] && raw[|raw| - 1] == '\n' then TrimNewlines(raw[..|raw| - 1]) else raw
  }

  function Line(lines: seq<string>, t: nat): string
    requires t < |lines|
  {
    TrimNewlines(lines[t])
  }

  /** `not line.strip() or line.strip() == '--'` */
  predicate Closes(line: string) {
    Strip(line) == [] || Strip(line) == "--"
  }

  /** `NUM_RE.search(line)` */
  predicate HasNumber(line: string) {
    SearchFrom(NumRe, line, 0)
  }

  /** How `parse_blocks` treats a line, tested in its order: a header, the
      radius-vector line, a separator (blank or `--`), a line with a
      number, anything else. */
  datatype LineKind = Header(m: HeaderMatch) | RadiusVector | Separator | Numeric | Other

  function Classify(pats: HopPatterns, line: string): LineKind {
    match pats.header(line)
    case Some(m) => Header(m)
    case None =>
      if pats.radiusVector(line) then RadiusVector
      else if Closes(line) then Separator
      else if HasNumber(line) then Numeric
      else Other
  }

  /** The kind of every line of the input. */
  function Kinds(pats: HopPatterns, lines: seq<string>): (kinds: seq<LineKind>)
    ensures |kinds| == |lines|
  {
    if lines == [] then [] else [Classify(pats, TrimNewlines(lines[0]))] + Kinds(pats, lines[1..])
  }

  /** The tests `parse_blocks` makes on line `t`, in its order, decide
      the kind of the line. */
  lemma KindTests(pats: HopPatterns, lines: seq<string>, t: nat)
    requires t < |lines|
    ensures pats.header(Line(lines, t)).Some? ==> Kinds(pats, lines)[t] == Header(pats.header(Line(lines, t)).value)
    ensures pats.header(Line(lines, t)).None? && pats.radiusVector(Line(lines, t)) ==> Kinds(pats, lines)[t] == RadiusVector
    ensures pats.header(Line(lines, t)).None? && !pats.radiusVector(Line(lines, t)) && Closes(Line(lines, t)) ==>
      Kinds(pats, lines)[t] == Separator
    ensures pats.header(Line(lines, t)).None? && !pats.radiusVector(Line(lines, t)) && !Closes(Line(lines, t)) ==>
      Kinds(pats, lines)[t] == (if HasNumber(Line(lines, t)) then Numeric else Other)
  {
    KindAt(pats, lines, t);
  }

  lemma {:induction false} KindAt(pats: HopPatterns, lines: seq<string>, t: nat)
    requires t < |lines|
    ensures Kinds(pats, lines)[t] == Classify(pats, Line(lines, t))
  {
    if t > 0 {
      KindAt(pats, lines[1..], t - 1);
    }
  }

  /** The indices of the lines collected from line `t` on by a block that
      has (`armed`) or has not yet seen its radius-vector line and already
      has (`any`) or has no matrix lines.  Collection stops at the next
      header, at a separator once something was collected, or at the end. */
  function Rows(kinds: seq<LineKind>, t: nat, armed: bool, any: bool): (rows: seq<nat>)
    requires t <= |kinds|
    decreases |kinds| - t
  {
    if t == |kinds| || kinds[t].Header? then []
    else if kinds[t] == RadiusVector then Rows(kinds, t + 1, true, any)
    else if kinds[t] == Separator then (if any then [] else Rows(kinds, t + 1, armed, any))
    else if armed && kinds[t] == Numeric then [t] + Rows(kinds, t + 1, armed, true)
    else Rows(kinds, t + 1, armed, any)
  }

  /** The block opened by the header at line `header`, with the lines it
      collects. */
  datatype Segment = Segment(header: nat, m: HeaderMatch, rows: seq<nat>)

  predicate InRange(n: nat, rows: seq<nat>) {
    forall k :: 0 <= k < |rows| ==> rows[k] < n
  }

  predicate AllInRange(n: nat, segs: seq<Segment>) {
    forall k :: 0 <= k < |segs| ==> InRange(n, segs[k].rows)
  }

  /** The blocks yielded for the headers at line `t` or later, in order:
      one per header that collects at least one line. */
  function SegmentsFrom(kinds: seq<LineKind>, t: nat): (segs: seq<Segment>)
    requires t <= |kinds|
    decreases |kinds| - t
  {
    if t == |kinds| then []
    else match kinds[t]
      case Header(m) =>
        var rows := Rows(kinds, t + 1, false, false);
        (if rows == [] then [] else [Segment(t, m, rows)]) + SegmentsFrom(kinds, t + 1)
      case _ => SegmentsFrom(kinds, t + 1)
  }

  function LinesAt(lines: seq<string>, rows: seq<nat>): (r: seq<string>)
    requires InRange(|lines|, rows)
    ensures |r| == |rows|
  {
    if rows == [] then [] else [Line(lines, rows[0])] + LinesAt(lines, rows[1..])
  }

  /** The block a header line opens. */
  function Opened(m: HeaderMatch): Block {
    Block(CleanPairLabel(Strip(m.pair)), m.radius, [])
  }

  function BlockOf(lines: seq<string>, s: Segment): Block
    requires InRange(|lines|, s.rows)
  {
    Opened(s.m).(matrixLines := LinesAt(lines, s.rows))
  }

  function Render(lines: seq<string>, segs: seq<Segment>): (bs: seq<Block>)
    requires AllInRange(|lines|, segs)
    ensures |bs| == |segs|
  {
    if segs == [] then [] else [BlockOf(lines, segs[0])] + Render(lines, segs[1..])
  }

  /** Block `k` is the one segment `k` describes. */
  lemma {:induction false} RenderAt(lines: seq<string>, segs: seq<Segment>)
    requires AllInRange(|lines|, segs)
    ensures forall k :: 0 <= k < |segs| ==> Render(lines, segs)[k] == BlockOf(lines, segs[k])
  {
    if segs != [] {
      RenderAt(lines, segs[1..]);
      assert forall k :: 0 < k < |segs| ==> segs[1..][k - 1] == segs[k];
    }
  }

  /** Collected lines lie between the start and the end of the input. */
  lemma {:induction false} RowsInRange(kinds: seq<LineKind>, t: nat, armed: bool, any: bool)
    requires t <= |kinds|
    ensures InRange(|kinds|, Rows(kinds, t, armed, any))
    ensures forall k :: 0 <= k < |Rows(kinds, t, armed, any)| ==> t <= Rows(kinds, t, armed, any)[k]
    decreases |kinds| - t
  {
    if t < |kinds| && !kinds[t].Header? {
      if kinds[t] == RadiusVector {
        assert Rows(kinds, t, armed, any) == Rows(kinds, t + 1, true, any);
        RowsInRange(kinds, t + 1, true, any);
      } else if kinds[t] == Separator {
        assert any || Rows(kinds, t, armed, any) == Rows(kinds, t + 1, armed, any);
        RowsInRange(kinds, t + 1, armed, any);
      } else if armed && kinds[t] == Numeric {
        var rest := Rows(kinds, t + 1, armed, true);
        assert Rows(kinds, t, armed, any) == [t] + rest;
        RowsInRange(kinds, t + 1, armed, true);
        assert forall k :: 0 < k < |rest| + 1 ==> ([t] + rest)[k] == rest[k - 1];
      } else {
        assert Rows(kinds, t, armed, any) == Rows(kinds, t + 1, armed, any);
        RowsInRange(kinds, t + 1, armed, any);
      }
    }
  }

  lemma {:induction false} SegmentsInRange(kinds: seq<LineKind>, t: nat)
    requires t <= |kinds|
    ensures AllInRange(|kinds|, SegmentsFrom(kinds, t))
    decreases |kinds| - t
  {
    if t < |kinds| {
      SegmentsInRange(kinds, t + 1);
      SegmentsStep(kinds, t);
      RowsInRange(kinds, t + 1, false, false);
    }
  }

  /** The blocks of the headers at line `t` or later. */
  function RenderFrom(kinds: seq<LineKind>, lines: seq<string>, t: nat): seq<Block>
    requires |kinds| == |lines| && t <= |lines|
  {
    SegmentsInRange(kinds, t);
    Render(lines, SegmentsFrom(kinds, t))
  }

  /** What `parse_blocks(lines)` yields, header by header. */
  function ExpectedBlocks(pats: HopPatterns, lines: seq<string>): seq<Block> {
    RenderFrom(Kinds(pats, lines), lines, 0)
  }

  // ---------------------------------------------------------------- the generator

  /** What the block being built will still add to the output once lines
      `t ..` have been read. */
  function Pending(kinds: seq<LineKind>, lines: seq<string>, current: Option<Block>, armed: bool, t: nat): seq<Block>
    requires |kinds| == |lines| && t <= |lines|
  {
    match current
    case None => []
    case Some(b) =>
      RowsInRange(kinds, t, armed, b.matrixLines != []);
      var more := LinesAt(lines, Rows(kinds, t, armed, b.matrixLines != []));
      if b.matrixLines + more == [] then [] else [b.(matrixLines := b.matrixLines + more)]
  }

  lemma {:induction false} RenderConcat(lines: seq<string>, a: seq<Segment>, b: seq<Segment>)
    requires AllInRange(|lines|, a) && AllInRange(|lines|, b)
    ensures AllInRange(|lines|, a + b)
    ensures Render(lines, a + b) == Render(lines, a) + Render(lines, b)
  {
    assert forall k :: 0 <= k < |a + b| ==> (a + b)[k] == if k < |a| then a[k] else b[k - |a|];
    RenderAt(lines, a);
    RenderAt(lines, b);
    RenderAt(lines, a + b);
  }

  /** The output the remaining lines produce, from the state the generator
      is in before line `t`. */
  function Ahead(kinds: seq<LineKind>, lines: seq<string>, current: Option<Block>, armed: bool, t: nat): seq<Block>
    requires |kinds| == |lines| && t <= |lines|
  {
    Pending(kinds, lines, current, armed, t) + RenderFrom(kinds, lines, t)
  }

  /** At a header line the block being built has nothing more to collect. */
  lemma PendingAtHeader(kinds: seq<LineKind>, lines: seq<string>, current: Option<Block>, armed: bool, t: nat)
    requires |kinds| == |lines| && t < |lines| && kinds[t].Header?
    ensures Pending(kinds, lines, current, armed, t)
      == if current.Some? && current.value.matrixLines != [] then [current.value] else []
  {
    if current.Some? {
      assert current.value.matrixLines + [] == current.value.matrixLines;
    }
  }

  /** The block a header opens is the first of those from that header on. */
  lemma RenderAtHeader(kinds: seq<LineKind>, lines: seq<string>, t: nat, m: HeaderMatch)
    requires |kinds| == |lines| && t < |lines| && kinds[t] == Header(m)
    ensures RenderFrom(kinds, lines, t)
      == Pending(kinds, lines, Some(Opened(m)), false, t + 1) + RenderFrom(kinds, lines, t + 1)
  {
    SegmentsInRange(kinds, t + 1);
    SegmentsStep(kinds, t);
    RowsInRange(kinds, t + 1, false, false);
    var rows := Rows(kinds, t + 1, false, false);
    var head := if rows == [] then [] else [Segment(t, m, rows)];
    RenderConcat(lines, head, SegmentsFrom(kinds, t + 1));
    assert [] + LinesAt(lines, rows) == LinesAt(lines, rows);
  }

  /** A header line flushes the block being built and opens a fresh one. */
  lemma AheadHeader(kinds: seq<LineKind>, lines: seq<string>, current: Option<Block>, armed: bool, t: nat, m: HeaderMatch)
    requires |kinds| == |lines| && t < |lines| && kinds[t] == Header(m)
    ensures Ahead(kinds, lines, current, armed, t)
      == (if current.Some? && current.value.matrixLines != [] then [current.value] else [])
        + Ahead(kinds, lines, Some(Opened(m)), false, t + 1)
  {
    PendingAtHeader(kinds, lines, current, armed, t);
    RenderAtHeader(kinds, lines, t, m);
  }

  /** Outside any block, a line other than a header is ignored. */
  lemma AheadIgnored(kinds: seq<LineKind>, lines: seq<string>, armed: bool, t: nat)
    requires |kinds| == |lines| && t < |lines| && !kinds[t].Header?
    ensures Ahead(kinds, lines, None, armed, t) == Ahead(kinds, lines, None, armed, t + 1)
  {
  }

  /** A radius-vector line arms the block. */
  lemma AheadRadius(kinds: seq<LineKind>, lines: seq<string>, b: Block, armed: bool, t: nat)
    requires |kinds| == |lines| && t < |lines| && kinds[t] == RadiusVector
    ensures Ahead(kinds, lines, Some(b), armed, t) == Ahead(kinds, lines, Some(b), true, t + 1)
  {
  }

  /** A separator ends a block that has lines. */
  lemma AheadSeparatorEnds(kinds: seq<LineKind>, lines: seq<string>, b: Block, armed: bool, t: nat)
    requires |kinds| == |lines| && t < |lines| && kinds[t] == Separator && b.matrixLines != []
    ensures Ahead(kinds, lines, Some(b), armed, t) == [b] + Ahead(kinds, lines, None, armed, t + 1)
  {
    assert Rows(kinds, t, armed, true) == [];
    assert b.matrixLines + [] == b.matrixLines;
  }

  /** A block that has no lines yet reads past a separator. */
  lemma AheadSeparatorSkipped(kinds: seq<LineKind>, lines: seq<string>, b: Block, armed: bool, t: nat)
    requires |kinds| == |lines| && t < |lines| && kinds[t] == Separator && b.matrixLines == []
    ensures Ahead(kinds, lines, Some(b), armed, t) == Ahead(kinds, lines, Some(b), armed, t + 1)
  {
    assert Rows(kinds, t, armed, false) == Rows(kinds, t + 1, armed, false);
  }

  /** A numeric line read after the radius-vector line is collected. */
  lemma AheadCollect(kinds: seq<LineKind>, lines: seq<string>, b: Block, t: nat)
    requires |kinds| == |lines| && t < |lines| && kinds[t] == Numeric
    ensures Ahead(kinds, lines, Some(b), true, t)
      == Ahead(kinds, lines, Some(b.(matrixLines := b.matrixLines + [Line(lines, t)])), true, t + 1)
  {
    var rest := Rows(kinds, t + 1, true, true);
    RowsInRange(kinds, t + 1, true, true);
    assert Rows(kinds, t, true, b.matrixLines != []) == [t] + rest;
    assert LinesAt(lines, [t] + rest) == [Line(lines, t)] + LinesAt(lines, rest) by {
      assert ([t] + rest)[1..] == rest;
    }
    assert b.matrixLines + ([Line(lines, t)] + LinesAt(lines, rest))
      == (b.matrixLines + [Line(lines, t)]) + LinesAt(lines, rest);
  }

  /** Any other line leaves the block as it is. */
  lemma AheadSkip(kinds: seq<LineKind>, lines: seq<string>, b: Block, armed: bool, t: nat)
    requires |kinds| == |lines| && t < |lines|
    requires kinds[t] == Other || (kinds[t] == Numeric && !armed)
    ensures Ahead(kinds, lines, Some(b), armed, t) == Ahead(kinds, lines, Some(b), armed, t + 1)
  {
  }

  /** After the last line only the tail flush is left. */
  lemma AheadAtEnd(kinds: seq<LineKind>, lines: seq<string>, current: Option<Block>, armed: bool)
    requires |kinds| == |lines|
    ensures Ahead(kinds, lines, current, armed, |lines|)
      == if current.Some? && current.value.matrixLines != [] then [current.value] else []
    ensures Ahead(kinds, lines, None, false, 0) == RenderFrom(kinds, lines, 0)
  {
    if current.Some? {
      assert current.value.matrixLines + [] == current.value.matrixLines;
    }
  }

  /** `blocks` already yielded and the block `current` being built, with
      the radius-vector flag `armed`, before line `t`: together with what
      the rest of the lines produce they make up `total`. */
  predicate Reading(kinds: seq<LineKind>, lines: seq<string>, blocks: seq<Block>, current: Option<Block>, armed: bool, t: nat, total: seq<Block>) {
    |kinds| == |lines| && t <= |lines| && blocks + Ahead(kinds, lines, current, armed, t) == total
  }

  /** Regrouping three runs of blocks. */
  lemma Regroup(a: seq<Block>, b: seq<Block>, c: seq<Block>)
    ensures (a + b) + c == a + (b + c)
  {
  }

  /** The block a header flushes, if it has lines. */
  function Flushed(current: Option<Block>): seq<Block> {
    if current.Some? && current.value.matrixLines != [] then [current.value] else []
  }

  lemma StepHeader(kinds: seq<LineKind>, lines: seq<string>, blocks: seq<Block>, current: Option<Block>, armed: bool, t: nat, total: seq<Block>, m: HeaderMatch)
    requires Reading(kinds, lines, blocks, current, armed, t, total) && t < |lines| && kinds[t] == Header(m)
    ensures Reading(kinds, lines, blocks + Flushed(current), Some(Opened(m)), false, t + 1, total)
  {
    var rest := Ahead(kinds, lines, Some(Opened(m)), false, t + 1);
    AheadHeader(kinds, lines, current, armed, t, m);
    Regroup(blocks, Flushed(current), rest);
  }

  lemma StepIgnored(kinds: seq<LineKind>, lines: seq<string>, blocks: seq<Block>, armed: bool, t: nat, total: seq<Block>)
    requires Reading(kinds, lines, blocks, None, armed, t, total) && t < |lines| && !kinds[t].Header?
    ensures Reading(kinds, lines, blocks, None, armed, t + 1, total)
  {
    AheadIgnored(kinds, lines, armed, t);
  }

  lemma StepRadius(kinds: seq<LineKind>, lines: seq<string>, blocks: seq<Block>, b: Block, armed: bool, t: nat, total: seq<Block>)
    requires Reading(kinds, lines, blocks, Some(b), armed, t, total) && t < |lines| && kinds[t] == RadiusVector
    ensures Reading(kinds, lines, blocks, Some(b), true, t + 1, total)
  {
    AheadRadius(kinds, lines, b, armed, t);
  }

  lemma StepSeparatorEnds(kinds: seq<LineKind>, lines: seq<string>, blocks: seq<Block>, b: Block, armed: bool, t: nat, total: seq<Block>)
    requires Reading(kinds, lines, blocks, Some(b), armed, t, total) && t < |lines| && kinds[t] == Separator
    requires b.matrixLines != []
    ensures Reading(kinds, lines, blocks + [b], None, armed, t + 1, total)
  {
    AheadSeparatorEnds(kinds, lines, b, armed, t);
    Regroup(blocks, [b], Ahead(kinds, lines, None, armed, t + 1));
  }

  lemma StepSeparatorSkipped(kinds: seq<LineKind>, lines: seq<string>, blocks: seq<Block>, b: Block, armed: bool, t: nat, total: seq<Block>)
    requires Reading(kinds, lines, blocks, Some(b), armed, t, total) && t < |lines| && kinds[t] == Separator
    requires b.matrixLines == []
    ensures Reading(kinds, lines, blocks, Some(b), armed, t + 1, total)
  {
    AheadSeparatorSkipped(kinds, lines, b, armed, t);
  }

  lemma StepCollect(kinds: seq<LineKind>, lines: seq<string>, blocks: seq<Block>, b: Block, t: nat, total: seq<Block>)
    requires Reading(kinds, lines, blocks, Some(b), true, t, total) && t < |lines| && kinds[t] == Numeric
    ensures Reading(kinds, lines, blocks, Some(b.(matrixLines := b.matrixLines + [Line(lines, t)])), true, t + 1, total)
  {
    AheadCollect(kinds, lines, b, t);
  }

  lemma StepSkip(kinds: seq<LineKind>, lines: seq<string>, blocks: seq<Block>, b: Block, armed: bool, t: nat, total: seq<Block>)
    requires Reading(kinds, lines, blocks, Some(b), armed, t, total) && t < |lines|
    requires kinds[t] == Other || (kinds[t] == Numeric && !armed)
    ensures Reading(kinds, lines, blocks, Some(b), armed, t + 1, total)
  {
    AheadSkip(kinds, lines, b, armed, t);
  }

  lemma StepEnd(kinds: seq<LineKind>, lines: seq<string>, blocks: seq<Block>, current: Option<Block>, armed: bool, total: seq<Block>)
    requires Reading(kinds, lines, blocks, current, armed, |lines|, total)
    ensures blocks + Flushed(current) == total
  {
    AheadAtEnd(kinds, lines, current, armed);
  }

  /** `list(parse_blocks(lines))`: one block per header that collects a
      line, in order. */
  method ParseBlocks(pats: HopPatterns, lines: seq<string>) returns (blocks: seq<Block>)
    ensures blocks == ExpectedBlocks(pats, lines)
  {
    blocks := [];
    var current: Option<Block> := None;
    var afterRadius := false;
    ghost var kinds := Kinds(pats, lines);
    ghost var total := RenderFrom(kinds, lines, 0);
    AheadAtEnd(kinds, lines, None, false);
    for t := 0 to |lines|
      invariant Reading(kinds, lines, blocks, current, afterRadius, t, total)
    {
      var line := TrimNewlines(lines[t]);
      KindTests(pats, lines, t);
      var m := pats.header(line);
      if m.Some? {
        StepHeader(kinds, lines, blocks, current, afterRadius, t, total, m.value);
        var flushed := if current.Some? && current.value.matrixLines != [] then [current.value] else [];
        blocks := blocks + flushed;
        current := Some(Opened(m.value));
        afterRadius := false;
      } else if current.None? {
        StepIgnored(kinds, lines, blocks, afterRadius, t, total);
      } else if pats.radiusVector(line) {
        StepRadius(kinds, lines, blocks, current.value, afterRadius, t, total);
        afterRadius := true;
      } else if Closes(line) {
        if current.value.matrixLines != [] {
          StepSeparatorEnds(kinds, lines, blocks, current.value, afterRadius, t, total);
          blocks := blocks + [current.value];
          current := None;
        } else {
          StepSeparatorSkipped(kinds, lines, blocks, current.value, afterRadius, t, total);
        }
      } else if afterRadius && HasNumber(line) {
        StepCollect(kinds, lines, blocks, current.value, t, total);
        current := Some(current.value.(matrixLines := current.value.matrixLines + [line]));
      } else {
        StepSkip(kinds, lines, blocks, current.value, afterRadius, t, total);
      }
    }
    StepEnd(kinds, lines, blocks, current, afterRadius, total);
    if current.Some? && current.value.matrixLines != [] {
      blocks := blocks + [current.value];
    }
  }

  // ---------------------------------------------------------------- what the blocks hold

  /** No header line among lines `a ..= b`. */
  predicate NoHeaderIn(kinds: seq<LineKind>, a: nat, b: nat)
    requires b < |kinds|
  {
    forall u :: a <= u <= b ==> !kinds[u].Header?
  }

  /** A radius-vector line among lines `a .. b-1`. */
  predicate RadiusIn(kinds: seq<LineKind>, a: nat, b: nat)
    requires b <= |kinds|
  {
    exists r :: a <= r < b && kinds[r] == RadiusVector
  }

  /** Collected lines come in file order. */
  lemma {:induction false} RowsIncreasing(kinds: seq<LineKind>, t: nat, armed: bool, any: bool)
    requires t <= |kinds|
    ensures Increasing(Rows(kinds, t, armed, any))
    decreases |kinds| - t
  {
    if t < |kinds| && !kinds[t].Header? {
      if kinds[t] == RadiusVector {
        assert Rows(kinds, t, armed, any) == Rows(kinds, t + 1, true, any);
        RowsIncreasing(kinds, t + 1, true, any);
      } else if kinds[t] == Separator {
        assert any || Rows(kinds, t, armed, any) == Rows(kinds, t + 1, armed, any);
        RowsIncreasing(kinds, t + 1, armed, any);
      } else if armed && kinds[t] == Numeric {
        var rest := Rows(kinds, t + 1, armed, true);
        assert Rows(kinds, t, armed, any) == [t] + rest;
        RowsIncreasing(kinds, t + 1, armed, true);
        RowsInRange(kinds, t + 1, armed, true);
        assert forall k :: 0 < k < |rest| + 1 ==> ([t] + rest)[k] == rest[k - 1];
      } else {
        assert Rows(kinds, t, armed, any) == Rows(kinds, t + 1, armed, any);
        RowsIncreasing(kinds, t + 1, armed, any);
      }
    }
  }

  /** A collected line is a numeric line that comes after a radius-vector
      line of its block (or the block was already past it), with no header
      between the start and it. */
  predicate SoundRows(kinds: seq<LineKind>, t: nat, armed: bool, rows: seq<nat>) {
    forall k :: 0 <= k < |rows| ==>
      && rows[k] < |kinds|
      && kinds[rows[k]] == Numeric
      && (armed || RadiusIn(kinds, t, rows[k]))
      && NoHeaderIn(kinds, t, rows[k])
  }

  lemma {:induction false} RowsSound(kinds: seq<LineKind>, t: nat, armed: bool, any: bool)
    requires t <= |kinds|
    ensures SoundRows(kinds, t, armed, Rows(kinds, t, armed, any))
    decreases |kinds| - t
  {
    RowsInRange(kinds, t, armed, any);
    if t < |kinds| && !kinds[t].Header? {
      var rows := Rows(kinds, t, armed, any);
      if kinds[t] == RadiusVector {
        assert Rows(kinds, t, armed, any) == Rows(kinds, t + 1, true, any);
        RowsSound(kinds, t + 1, true, any);
      } else if kinds[t] == Separator {
        assert any || Rows(kinds, t, armed, any) == Rows(kinds, t + 1, armed, any);
        RowsSound(kinds, t + 1, armed, any);
        forall k | 0 <= k < |rows| && !armed ensures RadiusIn(kinds, t, rows[k]) {
          var r :| t + 1 <= r < rows[k] && kinds[r] == RadiusVector;
        }
      } else if armed && kinds[t] == Numeric {
        var rest := Rows(kinds, t + 1, armed, true);
        assert Rows(kinds, t, armed, any) == [t] + rest;
        RowsSound(kinds, t + 1, armed, true);
        assert forall k :: 0 < k < |rows| ==> rows[k] == rest[k - 1];
      } else {
        assert Rows(kinds, t, armed, any) == Rows(kinds, t + 1, armed, any);
        RowsSound(kinds, t + 1, armed, any);
        forall k | 0 <= k < |rows| && !armed ensures RadiusIn(kinds, t, rows[k]) {
          var r :| t + 1 <= r < rows[k] && kinds[r] == RadiusVector;
        }
      }
    }
  }

  /** Once a block has collected a line, the lines up to the next collected
      one are radius-vector lines or lines without a number. */
  lemma {:induction false} RowsGap(kinds: seq<LineKind>, t: nat)
    requires t <= |kinds|
    ensures Rows(kinds, t, true, true) != [] ==>
      forall u :: t <= u < Rows(kinds, t, true, true)[0] && u < |kinds| ==> kinds[u] == RadiusVector || kinds[u] == Other
    decreases |kinds| - t
  {
    if t < |kinds| && (kinds[t] == RadiusVector || kinds[t] == Other) {
      RowsGap(kinds, t + 1);
    }
  }

  /** Between two consecutive collected lines of a block there is no
      separator, no header and no other numeric line. */
  predicate Contiguous(kinds: seq<LineKind>, rows: seq<nat>) {
    forall k, u :: 0 <= k < |rows| - 1 && rows[k] < u < rows[k + 1] && u < |kinds| ==>
      kinds[u] == RadiusVector || kinds[u] == Other
  }

  lemma {:induction false} RowsContiguous(kinds: seq<LineKind>, t: nat, armed: bool, any: bool)
    requires t <= |kinds|
    ensures Contiguous(kinds, Rows(kinds, t, armed, any))
    decreases |kinds| - t
  {
    if t < |kinds| && !kinds[t].Header? {
      var rows := Rows(kinds, t, armed, any);
      if kinds[t] == RadiusVector {
        assert Rows(kinds, t, armed, any) == Rows(kinds, t + 1, true, any);
        RowsContiguous(kinds, t + 1, true, any);
      } else if kinds[t] == Separator {
        assert any || Rows(kinds, t, armed, any) == Rows(kinds, t + 1, armed, any);
        RowsContiguous(kinds, t + 1, armed, any);
      } else if armed && kinds[t] == Numeric {
        var rest := Rows(kinds, t + 1, armed, true);
        assert Rows(kinds, t, armed, any) == [t] + rest;
        RowsContiguous(kinds, t + 1, armed, true);
        RowsGap(kinds, t + 1);
        assert forall k :: 0 < k < |rows| ==> rows[k] == rest[k - 1];
      } else {
        assert Rows(kinds, t, armed, any) == Rows(kinds, t + 1, armed, any);
        RowsContiguous(kinds, t + 1, armed, any);
      }
    }
  }

  /** One segment per header line that collects something, in header order,
      holding the lines a fresh block opened at that header collects;
      nothing else. */
  /** Each segment belongs to a header at `t` or later and holds what a
      fresh block opened there collects, which is not nothing. */
  predicate SegmentsFaithful(kinds: seq<LineKind>, t: nat, segs: seq<Segment>) {
    forall k :: 0 <= k < |segs| ==>
      && t <= segs[k].header < |kinds|
      && kinds[segs[k].header] == Header(segs[k].m)
      && segs[k].rows == Rows(kinds, segs[k].header + 1, false, false)
      && segs[k].rows != []
  }

  predicate HeadersIncreasing(segs: seq<Segment>) {
    forall i, j :: 0 <= i < j < |segs| ==> segs[i].header < segs[j].header
  }

  /** Every header at `t` or later whose block collects something has a
      segment. */
  predicate SegmentsComplete(kinds: seq<LineKind>, t: nat, segs: seq<Segment>) {
    forall h :: t <= h < |kinds| && kinds[h].Header? && Rows(kinds, h + 1, false, false) != [] ==>
      exists k :: 0 <= k < |segs| && segs[k].header == h
  }

  /** One step of `SegmentsFrom`. */
  lemma SegmentsStep(kinds: seq<LineKind>, t: nat)
    requires t < |kinds|
    ensures SegmentsFrom(kinds, t)
      == (if kinds[t].Header? && Rows(kinds, t + 1, false, false) != []
          then [Segment(t, kinds[t].m, Rows(kinds, t + 1, false, false))] else [])
        + SegmentsFrom(kinds, t + 1)
  {
  }

  /** A faithful segment in front of faithful segments. */
  lemma SegmentsFaithfulCons(kinds: seq<LineKind>, t: nat, seg: Segment, rest: seq<Segment>)
    requires t < |kinds| && seg.header == t && kinds[t] == Header(seg.m)
    requires seg.rows == Rows(kinds, t + 1, false, false) && seg.rows != []
    requires SegmentsFaithful(kinds, t + 1, rest)
    ensures SegmentsFaithful(kinds, t, [seg] + rest)
  {
    var segs := [seg] + rest;
    forall k | 0 <= k < |segs|
      ensures t <= segs[k].header < |kinds| && kinds[segs[k].header] == Header(segs[k].m)
      ensures segs[k].rows == Rows(kinds, segs[k].header + 1, false, false) && segs[k].rows != []
    {
      if k > 0 {
        assert segs[k] == rest[k - 1];
      }
    }
  }

  lemma {:induction false} SegmentsFaithfulFrom(kinds: seq<LineKind>, t: nat)
    requires t <= |kinds|
    ensures SegmentsFaithful(kinds, t, SegmentsFrom(kinds, t))
    decreases |kinds| - t, 1
  {
    if t < |kinds| {
      if kinds[t].Header? && Rows(kinds, t + 1, false, false) != [] {
        SegmentsFaithfulOpens(kinds, t);
      } else {
        SegmentsFaithfulSkips(kinds, t);
      }
    }
  }

  lemma {:induction false} SegmentsFaithfulOpens(kinds: seq<LineKind>, t: nat)
    requires t < |kinds| && kinds[t].Header? && Rows(kinds, t + 1, false, false) != []
    ensures SegmentsFaithful(kinds, t, SegmentsFrom(kinds, t))
    decreases |kinds| - t, 0
  {
    var rest := SegmentsFrom(kinds, t + 1);
    SegmentsFaithfulFrom(kinds, t + 1);
    SegmentsStep(kinds, t);
    var seg := Segment(t, kinds[t].m, Rows(kinds, t + 1, false, false));
    assert SegmentsFrom(kinds, t) == [seg] + rest;
    SegmentsFaithfulCons(kinds, t, seg, rest);
  }

  lemma {:induction false} SegmentsFaithfulSkips(kinds: seq<LineKind>, t: nat)
    requires t < |kinds| && !(kinds[t].Header? && Rows(kinds, t + 1, false, false) != [])
    ensures SegmentsFaithful(kinds, t, SegmentsFrom(kinds, t))
    decreases |kinds| - t, 0
  {
    var rest := SegmentsFrom(kinds, t + 1);
    SegmentsFaithfulFrom(kinds, t + 1);
    SegmentsStep(kinds, t);
    assert SegmentsFrom(kinds, t) == rest;
    SegmentsFaithfulLower(kinds, t, rest);
  }

  /** Segments faithful from `t + 1` on are faithful from `t` on. */
  lemma SegmentsFaithfulLower(kinds: seq<LineKind>, t: nat, segs: seq<Segment>)
    requires SegmentsFaithful(kinds, t + 1, segs)
    ensures SegmentsFaithful(kinds, t, segs)
  {
  }

  lemma {:induction false} HeadersIncreasingFrom(kinds: seq<LineKind>, t: nat)
    requires t <= |kinds|
    ensures HeadersIncreasing(SegmentsFrom(kinds, t))
    decreases |kinds| - t
  {
    if t < |kinds| {
      var rest := SegmentsFrom(kinds, t + 1);
      HeadersIncreasingFrom(kinds, t + 1);
      SegmentsFaithfulFrom(kinds, t + 1);
      SegmentsStep(kinds, t);
      var rows := Rows(kinds, t + 1, false, false);
      if kinds[t].Header? && rows != [] {
        var segs := [Segment(t, kinds[t].m, rows)] + rest;
        forall i, j | 0 <= i < j < |segs| ensures segs[i].header < segs[j].header {
          assert segs[j] == rest[j - 1];
          if i > 0 {
            assert segs[i] == rest[i - 1];
          }
        }
      }
    }
  }

  lemma {:induction false} SegmentsCompleteFrom(kinds: seq<LineKind>, t: nat)
    requires t <= |kinds|
    ensures SegmentsComplete(kinds, t, SegmentsFrom(kinds, t))
    decreases |kinds| - t
  {
    if t < |kinds| {
      var rest := SegmentsFrom(kinds, t + 1);
      SegmentsCompleteFrom(kinds, t + 1);
      SegmentsStep(kinds, t);
      var segs := SegmentsFrom(kinds, t);
      forall h | t <= h < |kinds| && kinds[h].Header? && Rows(kinds, h + 1, false, false) != []
        ensures exists k :: 0 <= k < |segs| && segs[k].header == h
      {
        if h == t {
          assert segs[0].header == h;
        } else {
          var k :| 0 <= k < |rest| && rest[k].header == h;
          assert segs[|segs| - |rest| + k] == rest[k];
        }
      }
    }
  }

  /** One segment per header line that collects something, in header order,
      holding the lines a fresh block opened at that header collects;
      nothing else. */
  lemma SegmentsSpec(kinds: seq<LineKind>)
    ensures SegmentsFaithful(kinds, 0, SegmentsFrom(kinds, 0))
    ensures HeadersIncreasing(SegmentsFrom(kinds, 0))
    ensures SegmentsComplete(kinds, 0, SegmentsFrom(kinds, 0))
  {
    SegmentsFaithfulFrom(kinds, 0);
    HeadersIncreasingFrom(kinds, 0);
    SegmentsCompleteFrom(kinds, 0);
  }

  /** A numeric line is one that matches neither pattern, is not a
      separator and holds a number. */
  lemma NumericLine(pats: HopPatterns, line: string)
    requires Classify(pats, line) == Numeric
    ensures pats.header(line).None? && !pats.radiusVector(line) && !Closes(line) && HasNumber(line)
    ensures Strip(line) != [] && HasDigit(line)
  {
    FindAllEmptyIffNoDigit(NumRe, line);
  }

  /** A radius-vector line matches the second pattern and not the first. */
  lemma RadiusLine(pats: HopPatterns, lines: seq<string>, r: nat)
    requires r < |lines| && Kinds(pats, lines)[r] == RadiusVector
    ensures pats.header(Line(lines, r)).None? && pats.radiusVector(Line(lines, r))
  {
    KindAt(pats, lines, r);
  }

  /** A header line matches the header pattern, with the match recorded. */
  lemma HeaderLine(pats: HopPatterns, lines: seq<string>, t: nat)
    requires t < |lines| && Kinds(pats, lines)[t].Header?
    ensures pats.header(Line(lines, t)) == Some(Kinds(pats, lines)[t].m)
  {
    KindAt(pats, lines, t);
  }

  /** A numeric line at `t`, stated on the line itself. */
  lemma NumericAt(pats: HopPatterns, lines: seq<string>, t: nat)
    requires t < |lines| && Kinds(pats, lines)[t] == Numeric
    ensures var L := Line(lines, t);
      pats.header(L).None? && !pats.radiusVector(L) && !Closes(L) && HasNumber(L)
  {
    KindAt(pats, lines, t);
    NumericLine(pats, Line(lines, t));
  }

  /** Lines whose kind is not a header do not match the header pattern. */
  lemma NoHeaderLines(pats: HopPatterns, lines: seq<string>, a: nat, b: nat)
    requires b < |lines| && NoHeaderIn(Kinds(pats, lines), a, b)
    ensures forall u :: a <= u <= b ==> pats.header(Line(lines, u)).None?
  {
    forall u | a <= u <= b ensures pats.header(Line(lines, u)).None? {
      KindAt(pats, lines, u);
    }
  }

  /** Every block `parse_blocks` yields comes from a header line, carries
      that header's cleaned pair label and radius, and holds at least one
      line. */
  lemma ExpectedBlockHeader(pats: HopPatterns, lines: seq<string>, k: nat)
    requires k < |ExpectedBlocks(pats, lines)|
    ensures var s := SegmentsFrom(Kinds(pats, lines), 0)[k];
      var b := ExpectedBlocks(pats, lines)[k];
      && s.header < |lines|
      && pats.header(Line(lines, s.header)) == Some(s.m)
      && b.pair == CleanPairLabel(Strip(s.m.pair)) && b.radius == s.m.radius
      && |b.matrixLines| == |s.rows| && b.matrixLines != []
  {
    var kinds := Kinds(pats, lines);
    SegmentsFaithfulFrom(kinds, 0);
    SegmentsInRange(kinds, 0);
    RenderAt(lines, SegmentsFrom(kinds, 0));
    HeaderLine(pats, lines, SegmentsFrom(kinds, 0)[k].header);
  }

  /** Line `i` of block `k` is the line `rows[i]` of its segment: a
      numeric line after the header, with a radius-vector line and no
      header between the two. */
  lemma ExpectedBlockRow(pats: HopPatterns, lines: seq<string>, k: nat, i: nat)
    requires k < |ExpectedBlocks(pats, lines)| && i < |ExpectedBlocks(pats, lines)[k].matrixLines|
    ensures var kinds := Kinds(pats, lines);
      var s := SegmentsFrom(kinds, 0)[k];
      && i < |s.rows| && s.header < s.rows[i] < |lines|
      && ExpectedBlocks(pats, lines)[k].matrixLines[i] == Line(lines, s.rows[i])
      && kinds[s.rows[i]] == Numeric
      && RadiusIn(kinds, s.header + 1, s.rows[i]) && NoHeaderIn(kinds, s.header + 1, s.rows[i])
  {
    var kinds := Kinds(pats, lines);
    var segs := SegmentsFrom(kinds, 0);
    SegmentsInRange(kinds, 0);
    assert ExpectedBlocks(pats, lines) == Render(lines, segs);
    RenderAt(lines, segs);
    var s := segs[k];
    var b := ExpectedBlocks(pats, lines)[k];
    assert b == BlockOf(lines, s);
    SegmentsFaithfulFrom(kinds, 0);
    assert s.header < |kinds| && s.rows == Rows(kinds, s.header + 1, false, false);
    LinesAtSpec(lines, s.rows);
    assert i < |s.rows| && b.matrixLines[i] == Line(lines, s.rows[i]);
    RowsSound(kinds, s.header + 1, false, false);
    assert SoundRows(kinds, s.header + 1, false, s.rows);
  }

  /** Line `i` of block `k` is the line `rows[i]` of its segment: it comes
      after the header, holds a number, is neither a header, a
      radius-vector line nor a separator, and follows a radius-vector line
      of the same block with no header in between. */
  lemma ExpectedBlockLine(pats: HopPatterns, lines: seq<string>, k: nat, i: nat)
    requires k < |ExpectedBlocks(pats, lines)| && i < |ExpectedBlocks(pats, lines)[k].matrixLines|
    ensures var s := SegmentsFrom(Kinds(pats, lines), 0)[k];
      var L := ExpectedBlocks(pats, lines)[k].matrixLines[i];
      && i < |s.rows| && s.header < s.rows[i] < |lines|
      && L == Line(lines, s.rows[i])
      && pats.header(L).None? && !pats.radiusVector(L) && !Closes(L) && HasNumber(L)
      && (exists r :: s.header < r < s.rows[i] && pats.radiusVector(Line(lines, r)))
      && (forall u :: s.header < u <= s.rows[i] ==> pats.header(Line(lines, u)).None?)
  {
    var kinds := Kinds(pats, lines);
    ExpectedBlockRow(pats, lines, k, i);
    var s := SegmentsFrom(kinds, 0)[k];
    var row := s.rows[i];
    NumericAt(pats, lines, row);
    var r :| s.header + 1 <= r < row && kinds[r] == RadiusVector;
    RadiusLine(pats, lines, r);
    NoHeaderLines(pats, lines, s.header + 1, row);
  }

  lemma {:induction false} LinesAtSpec(lines: seq<string>, rows: seq<nat>)
    requires InRange(|lines|, rows)
    ensures forall i :: 0 <= i < |rows| ==> LinesAt(lines, rows)[i] == Line(lines, rows[i])
  {
    if rows != [] {
      LinesAtSpec(lines, rows[1..]);
    }
  }
}
