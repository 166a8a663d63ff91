/** `clean_pair_label` of print_hop.py: two substitutions and a strip.

    `re.sub` tries the pattern at each position from left to right; where it
    matches, the match is replaced and the scan resumes after it, and where
    it does not, one character is kept.  Neither pattern matches the empty
    string, and in both a `\s*` run is followed by a character that is not
    whitespace, so a match at `i` exists exactly when the text after the
    whitespace run at `i` fits the rest of the pattern. */
module PairLabel {
  import opened Text

  /** First `)` at or after `k`, or `|s|`. */
  function CloseFrom(s: string, k: nat): (c: nat)
    requires k <= |s|
    ensures k <= c <= |s| && (c < |s| ==> s[c] == ')')
    ensures forall t :: k <= t < c ==> s[t] != ')'
    decreases |s| - k
  {
    if k == |s| || s[k] == ')' then k else CloseFrom(s, k + 1)
  }

  /** `\s*\([^)]*\)` matches at `i`: after the whitespace run comes `(`, and
      a `)` follows somewhere. */
  predicate GroupAt(s: string, i: nat)
    requires i <= |s|
  {
    var w := LeadEnd(s, i);
    w < |s| && s[w] == '(' && CloseFrom(s, w + 1) < |s|
  }

  /** `re.sub(r'\s*\([^)]*\)', '', s[i:])` */
  function DropGroupsFrom(s: string, i: nat): string
    requires i <= |s|
    decreases |s| - i
  {
    if i == |s| then []
    else if GroupAt(s, i) then DropGroupsFrom(s, CloseFrom(s, LeadEnd(s, i) + 1) + 1)
    else [s[i]] + DropGroupsFrom(s, i + 1)
  }

  function DropGroups(s: string): string {
    DropGroupsFrom(s, 0)
  }

  predicate IsArrowAt(s: string, p: nat) {
    p + 4 <= |s| && s[p] == '<' && s[p + 1] == '-' && s[p + 2] == '-' && s[p + 3] == '>'
  }

  /** `\s*<-->\s*` matches at `i`. */
  predicate ArrowAt(s: string, i: nat)
    requires i <= |s|
  {
    IsArrowAt(s, LeadEnd(s, i))
  }

  /** `re.sub(r'\s*<-->\s*', '<-->', s[i:])` */
  function ArrowsFrom(s: string, i: nat): string
    requires i <= |s|
    decreases |s| - i
  {
    if i == |s| then []
    else if ArrowAt(s, i) then "<-->" + ArrowsFrom(s, LeadEnd(s, LeadEnd(s, i) + 4))
    else [s[i]] + ArrowsFrom(s, i + 1)
  }

  function NormalizeArrows(s: string): string {
    ArrowsFrom(s, 0)
  }

  /** `clean_pair_label(raw_pair)` */
  function CleanPairLabel(raw: string): string {
    Strip(NormalizeArrows(DropGroups(raw)))
  }

  /** No `(` is followed, anywhere later, by a `)`. */
  predicate NoGroup(s: string) {
    forall a, b :: 0 <= a < b < |s| && s[a] == '(' ==> s[b] != ')'
  }

  /** No whitespace next to any `<-->`. */
  predicate ArrowsTight(s: string) {
    forall p :: 0 <= p < |s| && IsArrowAt(s, p) ==>
      (p == 0 || !IsSpace(s[p - 1])) && (p + 4 == |s| || !IsSpace(s[p + 4]))
  }

  // ---------------------------------------------------------------- dropping groups

  /** Dropping groups only keeps characters of the text. */
  lemma {:induction false} DropGroupsChars(s: string, i: nat)
    requires i <= |s|
    ensures forall c :: c in DropGroupsFrom(s, i) ==> c in s[i..]
    decreases |s| - i
  {
    if i < |s| {
      if GroupAt(s, i) {
        var e := CloseFrom(s, LeadEnd(s, i) + 1) + 1;
        DropGroupsChars(s, e);
        assert forall c :: c in s[e..] ==> c in s[i..] by {
          forall c | c in s[e..] ensures c in s[i..] {
            var t :| e <= t < |s| && s[t] == c && s[e..][t - e] == c;
            assert s[i..][t - i] == c;
          }
        }
      } else {
        DropGroupsChars(s, i + 1);
        assert s[i..] == [s[i]] + s[i + 1..];
      }
    }
  }

  /** After the first substitution no `( … )` group is left. */
  lemma {:induction false} DropGroupsNoGroup(s: string, i: nat)
    requires i <= |s|
    ensures NoGroup(DropGroupsFrom(s, i))
    decreases |s| - i
  {
    if i < |s| {
      if GroupAt(s, i) {
        DropGroupsNoGroup(s, CloseFrom(s, LeadEnd(s, i) + 1) + 1);
      } else {
        var rest := DropGroupsFrom(s, i + 1);
        DropGroupsNoGroup(s, i + 1);
        var r := [s[i]] + rest;
        if s[i] == '(' {
          assert LeadEnd(s, i) == i;
          assert CloseFrom(s, i + 1) == |s|;
          DropGroupsChars(s, i + 1);
          assert ')' !in s[i + 1..];
          assert ')' !in rest;
        }
        forall a, b | 0 <= a < b < |r| && r[a] == '(' ensures r[b] != ')' {
          if a == 0 {
            assert r[b] in rest by { assert r[b] == rest[b - 1]; }
          } else {
            assert r[a] == rest[a - 1] && r[b] == rest[b - 1];
          }
        }
      }
    }
  }

  /** Text without a group is left alone. */
  lemma {:induction false} DropGroupsNoOp(s: string, i: nat)
    requires i <= |s| && NoGroup(s)
    ensures DropGroupsFrom(s, i) == s[i..]
    decreases |s| - i
  {
    if i < |s| {
      DropGroupsNoOp(s, i + 1);
      assert s[i..] == [s[i]] + s[i + 1..];
    }
  }

  // ---------------------------------------------------------------- arrows

  /** The second substitution keeps characters of the text and adds those
      of `<-->`. */
  lemma {:induction false} ArrowsChars(s: string, i: nat)
    requires i <= |s|
    ensures forall c :: c in ArrowsFrom(s, i) ==> c in s[i..] || c in "<-->"
    decreases |s| - i
  {
    if i < |s| {
      if ArrowAt(s, i) {
        var j := LeadEnd(s, LeadEnd(s, i) + 4);
        ArrowsChars(s, j);
        forall c | c in s[j..] ensures c in s[i..] {
          var t :| j <= t < |s| && s[t] == c && s[j..][t - j] == c;
          assert s[i..][t - i] == c;
        }
      } else {
        ArrowsChars(s, i + 1);
        assert s[i..] == [s[i]] + s[i + 1..];
      }
    }
  }

  /** The first character of the rewritten rest: `<` where the pattern
      matches, the character itself where it does not. */
  lemma ArrowsHead(s: string, i: nat)
    requires i < |s|
    ensures ArrowsFrom(s, i) != []
    ensures ArrowAt(s, i) ==> IsArrowAt(ArrowsFrom(s, i), 0)
    ensures !ArrowAt(s, i) ==> ArrowsFrom(s, i)[0] == s[i]
  {
  }

  /** Where the pattern does not match, the rewritten rest does not start
      with `<-->` either: its first four characters would be copied from the
      text, and the pattern would match there. */
  lemma NoArrowNoStart(s: string, i: nat)
    requires i <= |s| && !ArrowAt(s, i)
    ensures !IsArrowAt(ArrowsFrom(s, i), 0)
  {
    var r := ArrowsFrom(s, i);
    if i < |s| && 4 <= |r| && r[0] == '<' && r[1] == '-' && r[2] == '-' {
      ArrowsHead(s, i);
      assert r[0] == s[i] == '<';
      assert LeadEnd(s, i) == i;
      var r1 := ArrowsFrom(s, i + 1);
      assert r1 == r[1..];
      ArrowsHead(s, i + 1);
      assert r1[0] == s[i + 1];
      var r2 := ArrowsFrom(s, i + 2);
      assert r2 == r1[1..];
      ArrowsHead(s, i + 2);
      assert r2[0] == s[i + 2];
      var r3 := ArrowsFrom(s, i + 3);
      assert r3 == r2[1..];
      ArrowsHead(s, i + 3);
      assert r[3] != '>';
    }
  }

  /** The rewritten rest starts with `<-->` only where the pattern matches. */
  lemma ArrowsStart(s: string, i: nat)
    requires i <= |s| && IsArrowAt(ArrowsFrom(s, i), 0)
    ensures ArrowAt(s, i)
  {
    if !ArrowAt(s, i) {
      NoArrowNoStart(s, i);
    }
  }

  /** A character in front of a match, where the pattern does not match
      itself, is not whitespace. */
  lemma NoSpaceBeforeArrow(s: string, i: nat)
    requires i + 1 <= |s| && !ArrowAt(s, i) && ArrowAt(s, i + 1)
    ensures !IsSpace(s[i])
  {
  }

  /** After the second substitution no whitespace is next to a `<-->`. */
  lemma {:induction false} ArrowsTightFrom(s: string, i: nat)
    requires i <= |s|
    ensures ArrowsTight(ArrowsFrom(s, i))
    decreases |s| - i, 1
  {
    if i < |s| {
      if ArrowAt(s, i) {
        ArrowsTightMatch(s, i);
      } else {
        ArrowsTightPlain(s, i);
      }
    }
  }

  /** A match is rewritten to a bare `<-->`, and what follows it does not
      start with whitespace. */
  lemma {:induction false} ArrowsTightMatch(s: string, i: nat)
    requires i < |s| && ArrowAt(s, i)
    ensures ArrowsTight(ArrowsFrom(s, i))
    decreases |s| - i, 0
  {
    var r := ArrowsFrom(s, i);
    var j := LeadEnd(s, LeadEnd(s, i) + 4);
    LeadEndSpec(s, LeadEnd(s, i) + 4);
    var rest := ArrowsFrom(s, j);
    ArrowsTightFrom(s, j);
    assert r == "<-->" + rest;
    if j < |s| {
      ArrowsHead(s, j);
      assert !IsSpace(rest[0]);
    }
    forall p | 0 <= p < |r| && IsArrowAt(r, p)
      ensures (p == 0 || !IsSpace(r[p - 1])) && (p + 4 == |r| || !IsSpace(r[p + 4]))
    {
      if p >= 4 {
        assert r[p] == rest[p - 4] && r[p + 1] == rest[p - 3];
        assert r[p + 2] == rest[p - 2] && r[p + 3] == rest[p - 1];
        assert IsArrowAt(rest, p - 4);
        if p > 4 { assert r[p - 1] == rest[p - 5]; }
        if p + 4 < |r| { assert r[p + 4] == rest[p]; }
      } else {
        assert p == 0;
        if 4 < |r| { assert r[4] == rest[0]; }
      }
    }
  }

  /** A copied character is whitespace only where no `<-->` follows it. */
  lemma {:induction false} ArrowsTightPlain(s: string, i: nat)
    requires i < |s| && !ArrowAt(s, i)
    ensures ArrowsTight(ArrowsFrom(s, i))
    decreases |s| - i, 0
  {
    var r := ArrowsFrom(s, i);
    var rest := ArrowsFrom(s, i + 1);
    ArrowsTightFrom(s, i + 1);
    assert r == [s[i]] + rest;
    NoArrowNoStart(s, i);
    if 0 < |rest| && IsArrowAt(rest, 0) {
      ArrowsStart(s, i + 1);
      NoSpaceBeforeArrow(s, i);
    }
    TightCons(s[i], rest);
  }

  /** A character that does not start a `<-->` put in front of a text with
      no whitespace next to a `<-->` keeps it so, unless it is whitespace
      and a `<-->` follows. */
  lemma TightCons(c: char, rest: string)
    requires ArrowsTight(rest) && !IsArrowAt([c] + rest, 0)
    requires 0 < |rest| && IsArrowAt(rest, 0) ==> !IsSpace(c)
    ensures ArrowsTight([c] + rest)
  {
    var r := [c] + rest;
    forall p | 0 <= p < |r| && IsArrowAt(r, p)
      ensures (p == 0 || !IsSpace(r[p - 1])) && (p + 4 == |r| || !IsSpace(r[p + 4]))
    {
      if p > 0 {
        assert r[p] == rest[p - 1] && r[p + 1] == rest[p];
        assert r[p + 2] == rest[p + 1] && r[p + 3] == rest[p + 2];
        assert IsArrowAt(rest, p - 1);
        if p > 1 { assert r[p - 1] == rest[p - 2]; }
        if p + 4 < |r| { assert r[p + 4] == rest[p + 3]; }
      }
    }
  }

  /** The second substitution keeps a text without groups without groups. */
  lemma {:induction false} ArrowsKeepNoGroup(s: string, i: nat)
    requires i <= |s| && NoGroup(s)
    ensures NoGroup(ArrowsFrom(s, i))
    decreases |s| - i, 1
  {
    if i < |s| {
      if ArrowAt(s, i) {
        ArrowsKeepNoGroupMatch(s, i);
      } else {
        ArrowsKeepNoGroupPlain(s, i);
      }
    }
  }

  lemma {:induction false} ArrowsKeepNoGroupMatch(s: string, i: nat)
    requires i < |s| && NoGroup(s) && ArrowAt(s, i)
    ensures NoGroup(ArrowsFrom(s, i))
    decreases |s| - i, 0
  {
    var j := LeadEnd(s, LeadEnd(s, i) + 4);
    LeadEndSpec(s, LeadEnd(s, i) + 4);
    ArrowsKeepNoGroup(s, j);
    var rest := ArrowsFrom(s, j);
    assert ArrowsFrom(s, i) == "<-->" + rest;
    NoGroupPrefix("<-->", rest);
  }

  lemma {:induction false} ArrowsKeepNoGroupPlain(s: string, i: nat)
    requires i < |s| && NoGroup(s) && !ArrowAt(s, i)
    ensures NoGroup(ArrowsFrom(s, i))
    decreases |s| - i, 0
  {
    var rest := ArrowsFrom(s, i + 1);
    ArrowsKeepNoGroup(s, i + 1);
    assert ArrowsFrom(s, i) == [s[i]] + rest;
    if s[i] == '(' {
      ArrowsChars(s, i + 1);
      assert ')' !in s[i + 1..];
      assert ')' !in rest;
    }
    NoGroupPrefix([s[i]], rest);
  }

  /** A prefix without groups, in front of a text without groups, that
      opens a parenthesis only when no `)` follows. */
  lemma NoGroupPrefix(pre: string, rest: string)
    requires NoGroup(pre) && NoGroup(rest)
    requires '(' in pre ==> ')' !in rest
    ensures NoGroup(pre + rest)
  {
    var r := pre + rest;
    forall a, b | 0 <= a < b < |r| && r[a] == '(' ensures r[b] != ')' {
      if b >= |pre| {
        assert r[b] == rest[b - |pre|];
        if a < |pre| {
          assert r[a] == pre[a];
          assert r[b] in rest;
        } else {
          assert r[a] == rest[a - |pre|];
        }
      } else {
        assert r[a] == pre[a] && r[b] == pre[b];
      }
    }
  }

  /** In a text with tight arrows, where the pattern matches at `i` and
      `i` does not follow whitespace in front of an arrow, the match is the
      arrow at `i` itself with nothing to swallow after it. */
  lemma TightMatch(s: string, i: nat)
    requires i <= |s| && ArrowsTight(s) && (i == 0 || !IsSpace(s[i - 1]) || !IsArrowAt(s, i))
    requires ArrowAt(s, i)
    ensures LeadEnd(s, i) == i && IsArrowAt(s, i) && LeadEnd(s, i + 4) == i + 4
  {
    var w := LeadEnd(s, i);
    LeadEndSpec(s, i);
    assert IsArrowAt(s, w);
    assert w == 0 || !IsSpace(s[w - 1]);
    assert w == i;
    LeadEndSpec(s, i + 4);
    assert i + 4 == |s| || !IsSpace(s[i + 4]);
  }

  /** Where the pattern does not match at `i`, the next position again
      does not follow whitespace in front of an arrow. */
  lemma TightNoMatch(s: string, i: nat)
    requires i < |s| && !ArrowAt(s, i)
    ensures !IsSpace(s[i]) || !IsArrowAt(s, i + 1)
  {
    if IsArrowAt(s, i + 1) {
      assert LeadEnd(s, i + 1) == i + 1;
      NoSpaceBeforeArrow(s, i);
    }
  }

  /** A text whose arrows are already tight is left alone. */
  lemma {:induction false} ArrowsNoOp(s: string, i: nat)
    requires i <= |s| && ArrowsTight(s) && (i == 0 || !IsSpace(s[i - 1]) || !IsArrowAt(s, i))
    ensures ArrowsFrom(s, i) == s[i..]
    decreases |s| - i, 1
  {
    if i < |s| {
      if ArrowAt(s, i) {
        ArrowsNoOpMatch(s, i);
      } else {
        ArrowsNoOpPlain(s, i);
      }
    }
  }

  /** Where the pattern matches, it replaces the arrow by itself. */
  lemma {:induction false} ArrowsNoOpMatch(s: string, i: nat)
    requires i < |s| && ArrowsTight(s) && (i == 0 || !IsSpace(s[i - 1]) || !IsArrowAt(s, i))
    requires ArrowAt(s, i)
    ensures ArrowsFrom(s, i) == s[i..]
    decreases |s| - i, 0
  {
    TightMatch(s, i);
    ArrowsNoOp(s, i + 4);
    assert s[i..] == s[i..i + 4] + s[i + 4..];
    assert s[i..i + 4] == "<-->";
  }

  /** Where the pattern does not match, the character is copied. */
  lemma {:induction false} ArrowsNoOpPlain(s: string, i: nat)
    requires i < |s| && ArrowsTight(s) && !ArrowAt(s, i)
    ensures ArrowsFrom(s, i) == s[i..]
    decreases |s| - i, 0
  {
    TightNoMatch(s, i);
    ArrowsNoOp(s, i + 1);
    assert s[i..] == [s[i]] + s[i + 1..];
  }

  // ---------------------------------------------------------------- what is kept

  /** From position `a` on, `t` holds the text `s`. */
  predicate Aligned(t: string, a: nat, s: string) {
    |t| == a + |s| && forall k :: 0 <= k < |s| ==> t[a + k] == s[k]
  }

  lemma AlignedConcat(p: string, s: string)
    ensures Aligned(p + s, |p|, s)
  {
  }

  /** Looking for the end of a whitespace run in `t` at `u`, past `a`, is
      looking for it in the text `t` holds there. */
  lemma {:induction false} LeadEndShift(t: string, a: nat, s: string, u: nat, j: nat)
    requires Aligned(t, a, s) && j <= |s| && u == a + j
    ensures LeadEnd(t, u) == a + LeadEnd(s, j)
    decreases |s| - j
  {
    if j < |s| {
      assert t[u] == s[j];
      if IsSpace(s[j]) {
        LeadEndShift(t, a, s, u + 1, j + 1);
      }
    }
  }

  lemma {:induction false} CloseFromShift(t: string, a: nat, s: string, u: nat, j: nat)
    requires Aligned(t, a, s) && j <= |s| && u == a + j
    ensures CloseFrom(t, u) == a + CloseFrom(s, j)
    decreases |s| - j
  {
    if j < |s| {
      assert t[u] == s[j];
      if s[j] != ')' {
        CloseFromShift(t, a, s, u + 1, j + 1);
      }
    }
  }

  /** The first pattern matches in `t` past `a` exactly where it matches
      in the text held there, and the match ends at the same place. */
  lemma GroupAtShift(t: string, a: nat, s: string, u: nat, j: nat)
    requires Aligned(t, a, s) && j < |s| && u == a + j
    ensures GroupAt(t, u) == GroupAt(s, j)
    ensures GroupAt(s, j) ==>
      CloseFrom(t, LeadEnd(t, u) + 1) + 1 == a + (CloseFrom(s, LeadEnd(s, j) + 1) + 1)
  {
    var w := LeadEnd(s, j);
    LeadEndShift(t, a, s, u, j);
    if w < |s| {
      assert t[a + w] == s[w];
      CloseFromShift(t, a, s, LeadEnd(t, u) + 1, w + 1);
    }
  }

  /** The first substitution of `t` from a position `u` past `a` is the
      substitution of the text held there. */
  lemma {:induction false} DropGroupsAligned(t: string, a: nat, s: string, u: nat, j: nat)
    requires Aligned(t, a, s) && j <= |s| && u == a + j
    ensures DropGroupsFrom(t, u) == DropGroupsFrom(s, j)
    decreases |s| - j, 1
  {
    if j < |s| {
      GroupAtShift(t, a, s, u, j);
      if GroupAt(s, j) {
        DropGroupsAlignedMatch(t, a, s, u, j);
      } else {
        assert t[u] == s[j];
        DropGroupsAlignedCopy(t, a, s, u, j);
      }
    }
  }

  lemma {:induction false} DropGroupsAlignedMatch(t: string, a: nat, s: string, u: nat, j: nat)
    requires Aligned(t, a, s) && j < |s| && u == a + j && GroupAt(s, j) && GroupAt(t, u)
    requires CloseFrom(t, LeadEnd(t, u) + 1) + 1 == a + (CloseFrom(s, LeadEnd(s, j) + 1) + 1)
    ensures DropGroupsFrom(t, u) == DropGroupsFrom(s, j)
    decreases |s| - j, 0
  {
    DropGroupsAligned(t, a, s, CloseFrom(t, LeadEnd(t, u) + 1) + 1, CloseFrom(s, LeadEnd(s, j) + 1) + 1);
  }

  lemma {:induction false} DropGroupsAlignedCopy(t: string, a: nat, s: string, u: nat, j: nat)
    requires Aligned(t, a, s) && j < |s| && u == a + j && !GroupAt(s, j) && !GroupAt(t, u) && t[u] == s[j]
    ensures DropGroupsFrom(t, u) == DropGroupsFrom(s, j)
    decreases |s| - j, 0
  {
    DropGroupsAligned(t, a, s, u + 1, j + 1);
  }

  /** The first substitution of a text behind a prefix, from the end of
      the prefix on, is the substitution of the text alone. */
  lemma DropGroupsShift(p: string, s: string)
    ensures DropGroupsFrom(p + s, |p|) == DropGroups(s)
  {
    AlignedConcat(p, s);
    DropGroupsAligned(p + s, |p|, s, |p|, 0);
  }

  /** Where a text without `(` ends in a character that is not whitespace,
      no group can start inside it. */
  lemma NoGroupInside(x: string, y: string, i: nat)
    requires i < |x| && '(' !in x && !IsSpace(x[|x| - 1])
    ensures !GroupAt(x + y, i)
  {
    var s := x + y;
    assert s[|x| - 1] == x[|x| - 1];
    LeadEndStops(s, i, |x| - 1);
    var w := LeadEnd(s, i);
    assert s[w] == x[w];
  }

  lemma {:induction false} DropGroupsKeepFrom(x: string, y: string, i: nat)
    requires i <= |x| && '(' !in x && (x == [] || !IsSpace(x[|x| - 1]))
    ensures DropGroupsFrom(x + y, i) == x[i..] + DropGroups(y)
    decreases |x| - i
  {
    if i < |x| {
      NoGroupInside(x, y, i);
      assert (x + y)[i] == x[i];
      DropGroupsKeepFrom(x, y, i + 1);
      assert x[i..] == [x[i]] + x[i + 1..];
    } else {
      DropGroupsShift(x, y);
    }
  }

  /** The first substitution keeps text that opens no parenthesis and does
      not end in whitespace: it is copied, and the rest is rewritten on
      its own. */
  lemma DropGroupsKeep(x: string, y: string)
    requires '(' !in x && (x == [] || !IsSpace(x[|x| - 1]))
    ensures DropGroups(x + y) == x + DropGroups(y)
  {
    DropGroupsKeepFrom(x, y, 0);
  }

  /** A stretch from `k` without `)` that ends at a `)` in `c` is closed
      at `c`. */
  lemma {:induction false} CloseFromReaches(s: string, k: nat, c: nat)
    requires k <= c < |s| && s[c] == ')'
    requires forall t :: k <= t < c ==> s[t] != ')'
    ensures CloseFrom(s, k) == c
    decreases c - k
  {
    if k < c {
      CloseFromReaches(s, k + 1, c);
    }
  }

  /** In `ws + "(" + y + ")" + z` the first pattern matches at the start,
      and the match ends with the `)`. */
  lemma GroupSpan(ws: string, y: string, z: string)
    requires AllSpace(ws) && ')' !in y
    ensures var s := ws + "(" + y + ")" + z;
      GroupAt(s, 0) && CloseFrom(s, LeadEnd(s, 0) + 1) + 1 == |ws + "(" + y + ")"|
  {
    var s := ws + "(" + y + ")" + z;
    var o := |ws|;
    var c := |ws| + 1 + |y|;
    assert forall t :: 0 <= t < o ==> s[t] == ws[t];
    assert s[o] == '(';
    LeadEndReaches(s, 0, o);
    assert forall t :: o + 1 <= t < c ==> s[t] == y[t - o - 1];
    assert s[c] == ')';
    CloseFromReaches(s, o + 1, c);
  }

  /** The first substitution removes a whitespace run followed by a
      parenthesised group, and rewrites the rest on its own. */
  lemma DropGroupsDrop(ws: string, y: string, z: string)
    requires AllSpace(ws) && ')' !in y
    ensures DropGroups(ws + "(" + y + ")" + z) == DropGroups(z)
  {
    var p := ws + "(" + y + ")";
    var s := p + z;
    assert ws + "(" + y + ")" + z == s;
    GroupSpan(ws, y, z);
    assert DropGroupsFrom(s, 0) == DropGroupsFrom(s, |p|);
    DropGroupsShift(p, z);
  }

  /** The arrow pattern matches in `t` past `a` exactly where it matches in
      the text held there, and the match ends at the same place. */
  lemma ArrowAtShift(t: string, a: nat, s: string, u: nat, j: nat)
    requires Aligned(t, a, s) && j < |s| && u == a + j
    ensures ArrowAt(t, u) == ArrowAt(s, j)
    ensures ArrowAt(s, j) ==>
      LeadEnd(t, LeadEnd(t, u) + 4) == a + LeadEnd(s, LeadEnd(s, j) + 4)
  {
    var w := LeadEnd(s, j);
    LeadEndShift(t, a, s, u, j);
    if w + 4 <= |s| {
      assert t[a + w] == s[w] && t[a + w + 1] == s[w + 1];
      assert t[a + w + 2] == s[w + 2] && t[a + w + 3] == s[w + 3];
      LeadEndShift(t, a, s, LeadEnd(t, u) + 4, w + 4);
    }
  }

  /** The second substitution of `t` from a position `u` past `a` is the
      substitution of the text held there. */
  lemma {:induction false} ArrowsAligned(t: string, a: nat, s: string, u: nat, j: nat)
    requires Aligned(t, a, s) && j <= |s| && u == a + j
    ensures ArrowsFrom(t, u) == ArrowsFrom(s, j)
    decreases |s| - j, 1
  {
    if j < |s| {
      ArrowAtShift(t, a, s, u, j);
      if ArrowAt(s, j) {
        ArrowsAlignedMatch(t, a, s, u, j);
      } else {
        assert t[u] == s[j];
        ArrowsAlignedCopy(t, a, s, u, j);
      }
    }
  }

  lemma {:induction false} ArrowsAlignedMatch(t: string, a: nat, s: string, u: nat, j: nat)
    requires Aligned(t, a, s) && j < |s| && u == a + j && ArrowAt(s, j) && ArrowAt(t, u)
    requires LeadEnd(t, LeadEnd(t, u) + 4) == a + LeadEnd(s, LeadEnd(s, j) + 4)
    ensures ArrowsFrom(t, u) == ArrowsFrom(s, j)
    decreases |s| - j, 0
  {
    ArrowsAligned(t, a, s, LeadEnd(t, LeadEnd(t, u) + 4), LeadEnd(s, LeadEnd(s, j) + 4));
  }

  lemma {:induction false} ArrowsAlignedCopy(t: string, a: nat, s: string, u: nat, j: nat)
    requires Aligned(t, a, s) && j < |s| && u == a + j && !ArrowAt(s, j) && !ArrowAt(t, u) && t[u] == s[j]
    ensures ArrowsFrom(t, u) == ArrowsFrom(s, j)
    decreases |s| - j, 0
  {
    ArrowsAligned(t, a, s, u + 1, j + 1);
  }

  /** The second substitution of a text behind a prefix, from the end of
      the prefix on, is the substitution of the text alone. */
  lemma ArrowsShift(p: string, s: string)
    ensures ArrowsFrom(p + s, |p|) == NormalizeArrows(s)
  {
    AlignedConcat(p, s);
    ArrowsAligned(p + s, |p|, s, |p|, 0);
  }

  /** Where a text without `<` ends in a character that is not whitespace,
      no arrow match can start inside it. */
  lemma NoArrowInside(x: string, y: string, i: nat)
    requires i < |x| && '<' !in x && !IsSpace(x[|x| - 1])
    ensures !ArrowAt(x + y, i)
  {
    var s := x + y;
    assert s[|x| - 1] == x[|x| - 1];
    LeadEndStops(s, i, |x| - 1);
    var w := LeadEnd(s, i);
    assert s[w] == x[w];
  }

  lemma {:induction false} ArrowsKeepFrom(x: string, y: string, i: nat)
    requires i <= |x| && '<' !in x && (x == [] || !IsSpace(x[|x| - 1]))
    ensures ArrowsFrom(x + y, i) == x[i..] + NormalizeArrows(y)
    decreases |x| - i
  {
    if i < |x| {
      NoArrowInside(x, y, i);
      assert (x + y)[i] == x[i];
      ArrowsKeepFrom(x, y, i + 1);
      assert x[i..] == [x[i]] + x[i + 1..];
    } else {
      ArrowsShift(x, y);
    }
  }

  /** The second substitution keeps text that holds no `<` and does not
      end in whitespace. */
  lemma ArrowsKeep(x: string, y: string)
    requires '<' !in x && (x == [] || !IsSpace(x[|x| - 1]))
    ensures NormalizeArrows(x + y) == x + NormalizeArrows(y)
  {
    ArrowsKeepFrom(x, y, 0);
  }

  /** In `ws + "<-->" + ws' + z`, with `z` not starting with whitespace,
      the arrow pattern matches at the start and the match ends where `z`
      begins. */
  lemma ArrowSpan(ws: string, ws': string, z: string)
    requires AllSpace(ws) && AllSpace(ws') && (z == [] || !IsSpace(z[0]))
    ensures var s := ws + "<-->" + ws' + z;
      ArrowAt(s, 0) && LeadEnd(s, LeadEnd(s, 0) + 4) == |ws + "<-->" + ws'|
  {
    var s := ws + "<-->" + ws' + z;
    var o := |ws|;
    var e := |ws| + 4 + |ws'|;
    assert forall t :: 0 <= t < o ==> s[t] == ws[t];
    assert s[o] == '<' && s[o + 1] == '-' && s[o + 2] == '-' && s[o + 3] == '>';
    LeadEndReaches(s, 0, o);
    assert forall t :: o + 4 <= t < e ==> s[t] == ws'[t - o - 4];
    assert |z| > 0 ==> s[e] == z[0];
    LeadEndReaches(s, o + 4, e);
  }

  /** The second substitution replaces an arrow and the whitespace on both
      sides of it by the bare arrow. */
  lemma ArrowsSqueeze(ws: string, ws': string, z: string)
    requires AllSpace(ws) && AllSpace(ws') && (z == [] || !IsSpace(z[0]))
    ensures NormalizeArrows(ws + "<-->" + ws' + z) == "<-->" + NormalizeArrows(z)
  {
    var p := ws + "<-->" + ws';
    var s := p + z;
    assert ws + "<-->" + ws' + z == s;
    ArrowSpan(ws, ws', z);
    assert ArrowsFrom(s, 0) == "<-->" + ArrowsFrom(s, |p|);
    ArrowsShift(p, z);
  }

  /** A label that already has the three properties of a cleaned label is
      its own cleaning, so `CleanPairLabelSpec` describes exactly the labels
      the cleaning can return. */
  lemma CleanPairLabelFixes(r: string)
    requires NoGroup(r) && ArrowsTight(r) && (r == [] || (!IsSpace(r[0]) && !IsSpace(r[|r| - 1])))
    ensures CleanPairLabel(r) == r
  {
    DropGroupsNoOp(r, 0);
    assert DropGroups(r) == r;
    ArrowsNoOp(r, 0);
    assert NormalizeArrows(r) == r;
    StripSpec(r);
    if r != [] {
      LeadEndSpec(r, 0);
      TrailStartSpec(r, StripStart(r), |r|);
      assert StripStart(r) == 0;
      assert StripStop(r) == |r|;
    }
  }

  // ---------------------------------------------------------------- the label

  /** Stripping keeps both properties. */
  lemma StripKeeps(s: string)
    requires NoGroup(s) && ArrowsTight(s)
    ensures NoGroup(Strip(s)) && ArrowsTight(Strip(s))
  {
    StripSpec(s);
    var a, b := StripStart(s), StripStop(s);
    var r := Strip(s);
    assert forall t :: 0 <= t < |r| ==> r[t] == s[a + t];
    forall p | 0 <= p < |r| && IsArrowAt(r, p)
      ensures (p == 0 || !IsSpace(r[p - 1])) && (p + 4 == |r| || !IsSpace(r[p + 4]))
    {
      assert IsArrowAt(s, a + p);
    }
  }

  /** The cleaned label holds no `( … )` group, no whitespace next to a
      `<-->`, and no whitespace at either end. */
  lemma CleanPairLabelSpec(raw: string)
    ensures var r := CleanPairLabel(raw);
      && NoGroup(r) && ArrowsTight(r)
      && (r == [] || (!IsSpace(r[0]) && !IsSpace(r[|r| - 1])))
  {
    var d := DropGroups(raw);
    DropGroupsNoGroup(raw, 0);
    ArrowsKeepNoGroup(d, 0);
    ArrowsTightFrom(d, 0);
    StripKeeps(NormalizeArrows(d));
    StripSpec(NormalizeArrows(d));
  }

  /** Cleaning a clean label changes nothing. */
  lemma CleanPairLabelIdempotent(raw: string)
    ensures CleanPairLabel(CleanPairLabel(raw)) == CleanPairLabel(raw)
  {
    CleanPairLabelSpec(raw);
    CleanPairLabelFixes(CleanPairLabel(raw));
  }
}
