/** The two number patterns of the scripts, as a hand-written scanner:
      FLOAT_RE (cf.py)        [+-]?(?:\d+\.\d*|\.\d+|\d+)(?:[eEdD][+-]?\d+)?
      NUM_RE   (print_hop.py) [-+]?(?:\d+(?:\.\d*)?|\.\d+)(?:[eE][-+]?\d+)?
    Their mantissa parts accept the same strings with the same greedy
    choices; they differ only in the exponent letters.  `findall`, `search`
    and Python's `float()` on the tokens found are modelled here. */
module FloatTokens {
  import opened Wrappers
  import opened Text

  datatype Pattern = FloatRe | NumRe

  predicate IsSign(c: char) {
    c == '+' || c == '-'
  }

  predicate IsExponentMarker(p: Pattern, c: char) {
    c == 'e' || c == 'E' || (p == FloatRe && (c == 'd' || c == 'D'))
  }

  /** End of the longest run of digits starting at `i`. */
  function DigitsEnd(s: string, i: nat): (e: nat)
    requires i <= |s|
    ensures i <= e <= |s|
    ensures e == |s| || !IsDigit(s[e])
    decreases |s| - i
  {
    if i < |s| && IsDigit(s[i]) then DigitsEnd(s, i + 1) else i
  }

  /** End of the mantissa `\d+\.\d*|\.\d+|\d+` matched at `m`, if any. */
  function MantissaEnd(s: string, m: nat): (r: Option<nat>)
    requires m <= |s|
    ensures r.Some? ==> m < r.value <= |s|
  {
    if m < |s| && IsDigit(s[m]) then
      var d := DigitsEnd(s, m);
      if d < |s| && s[d] == '.' then Some(DigitsEnd(s, d + 1)) else Some(d)
    else if m + 1 < |s| && s[m] == '.' && IsDigit(s[m + 1]) then
      Some(DigitsEnd(s, m + 1))
    else
      None
  }

  /** End of the optional exponent `[eE(dD)][+-]?\d+` tried at `e`: the
      exponent is taken whole or not at all. */
  function ExponentEnd(p: Pattern, s: string, e: nat): (r: nat)
    requires e <= |s|
    ensures e <= r <= |s|
  {
    if e < |s| && IsExponentMarker(p, s[e]) then
      var x := if e + 1 < |s| && IsSign(s[e + 1]) then e + 2 else e + 1;
      if x < |s| && IsDigit(s[x]) then DigitsEnd(s, x) else e
    else
      e
  }

  /** End of the match of the pattern anchored at `i`, if it matches there. */
  function MatchEnd(p: Pattern, s: string, i: nat): (r: Option<nat>)
    requires i <= |s|
    ensures r.Some? ==> i < r.value <= |s|
  {
    var m := if i < |s| && IsSign(s[i]) then i + 1 else i;
    match MantissaEnd(s, m)
    case None => None
    case Some(e) => Some(ExponentEnd(p, s, e))
  }

  /** A match starts wherever a digit is, and every match holds a digit;
      `k` is one. */
  lemma MatchEndDigit(p: Pattern, s: string, i: nat) returns (k: nat)
    requires i <= |s|
    ensures i < |s| && IsDigit(s[i]) ==> MatchEnd(p, s, i).Some?
    ensures MatchEnd(p, s, i).Some? ==> i <= k < MatchEnd(p, s, i).value && IsDigit(s[k])
  {
    var m := if i < |s| && IsSign(s[i]) then i + 1 else i;
    k := if m < |s| && IsDigit(s[m]) then m else m + 1;
  }

  /** `pattern.findall(s[i:])`: the leftmost non-overlapping matches, left to right. */
  function FindAllFrom(p: Pattern, s: string, i: nat): seq<string>
    requires i <= |s|
    decreases |s| - i
  {
    if i == |s| then []
    else match MatchEnd(p, s, i)
      case Some(e) => [s[i..e]] + FindAllFrom(p, s, e)
      case None => FindAllFrom(p, s, i + 1)
  }

  function FindAll(p: Pattern, s: string): seq<string> {
    FindAllFrom(p, s, 0)
  }

  /** `pattern.search(s[i:])` succeeds. */
  predicate SearchFrom(p: Pattern, s: string, i: nat)
    requires i <= |s|
    decreases |s| - i
  {
    i < |s| && (MatchEnd(p, s, i).Some? || SearchFrom(p, s, i + 1))
  }

  /** A number is found by `findall` (and by `search`) exactly when the
      text holds a digit. */
  lemma {:induction false} FindAllFromEmptyIffNoDigit(p: Pattern, s: string, i: nat)
    requires i <= |s|
    ensures FindAllFrom(p, s, i) == [] <==> !HasDigit(s[i..])
    ensures SearchFrom(p, s, i) <==> HasDigit(s[i..])
    decreases |s| - i
  {
    if i < |s| {
      FindAllFromEmptyIffNoDigit(p, s, i + 1);
      assert s[i..] == [s[i]] + s[i + 1..];
      HasDigitConcat([s[i]], s[i + 1..]);
      match MatchEnd(p, s, i)
      case Some(e) =>
        var k := MatchEndDigit(p, s, i);
        assert IsDigit(s[i..][k - i]);
      case None =>
        var _ := MatchEndDigit(p, s, i);
        assert !IsDigit(s[i]);
        assert !HasDigit([s[i]]);
    }
  }

  lemma FindAllEmptyIffNoDigit(p: Pattern, s: string)
    ensures FindAll(p, s) == [] <==> !HasDigit(s)
    ensures SearchFrom(p, s, 0) <==> HasDigit(s)
  {
    FindAllFromEmptyIffNoDigit(p, s, 0);
    assert s[0..] == s;
  }

  /** `t.replace('D','E').replace('d','E')` */
  function FortranToE(t: string): (r: string)
    ensures |r| == |t|
  {
    seq(|t|, k requires 0 <= k < |t| => if t[k] == 'D' || t[k] == 'd' then 'E' else t[k])
  }

  function DigitValue(c: char): nat {
    if IsDigit(c) then c as int - '0' as int else 0
  }

  /** The number written by a string of decimal digits. */
  function DigitsValue(ds: string): nat {
    if ds == [] then 0 else DigitsValue(ds[..|ds| - 1]) * 10 + DigitValue(ds[|ds| - 1])
  }

  /** `x` times ten to the power `e`. */
  function Shift10(x: real, e: int): real
    decreases if e >= 0 then e else -e
  {
    if e == 0 then x
    else if e > 0 then Shift10(x, e - 1) * 10.0
    else Shift10(x, e + 1) / 10.0
  }

  /** The exact value of a literal `sign digits . digits e sign digits`. */
  function LiteralValue(t: string): real {
    var m := if 0 < |t| && IsSign(t[0]) then 1 else 0;
    var d := DigitsEnd(t, m);
    var f := if d < |t| && t[d] == '.' then DigitsEnd(t, d + 1) else d;
    var frac := if f > d then t[d + 1..f] else "";
    var mantissa := DigitsValue(t[m..d]) as real + Shift10(DigitsValue(frac) as real, -|frac|);
    var x := if f + 1 < |t| && IsSign(t[f + 1]) then f + 2 else f + 1;
    var power := if x <= |t| then DigitsValue(t[x..]) else 0;
    var magnitude := Shift10(mantissa, if x == f + 2 && t[f + 1] == '-' then -power else power);
    if m == 1 && t[0] == '-' then -magnitude else magnitude
  }

  /** Python's `float(t)`, on decimal literals: it succeeds when the whole of
      `t` is one literal (exponent letter e or E) and gives its value. */
  function ParseFloat(t: string): Option<real> {
    if MatchEnd(NumRe, t, 0) == Some(|t|) then Some(LiteralValue(t)) else None
  }

  lemma {:induction false} DigitsEndSlice(s: string, i: nat, e: nat, k: nat)
    requires i <= i + k <= e <= |s|
    requires DigitsEnd(s, i + k) <= e
    ensures DigitsEnd(s[i..e], k) == DigitsEnd(s, i + k) - i
    decreases e - i - k
  {
    var t := s[i..e];
    if i + k < e && IsDigit(s[i + k]) {
      assert t[k] == s[i + k];
      DigitsEndSlice(s, i, e, k + 1);
    } else if i + k < e {
      assert t[k] == s[i + k];
    }
  }

  lemma MantissaEndSlice(s: string, i: nat, e: nat, m: nat)
    requires i <= m <= e <= |s|
    requires MantissaEnd(s, m).Some? && MantissaEnd(s, m).value <= e
    ensures MantissaEnd(s[i..e], m - i) == Some(MantissaEnd(s, m).value - i)
  {
    var t := s[i..e];
    if IsDigit(s[m]) {
      var d := DigitsEnd(s, m);
      assert t[m - i] == s[m];
      DigitsEndSlice(s, i, e, m - i);
      if d < |s| && s[d] == '.' {
        assert t[d - i] == s[d];
        DigitsEndSlice(s, i, e, d + 1 - i);
      } else if d < e {
        assert t[d - i] == s[d];
      }
    } else {
      assert t[m - i] == s[m] && t[m + 1 - i] == s[m + 1];
      DigitsEndSlice(s, i, e, m + 1 - i);
    }
  }

  lemma ExponentEndSlice(p: Pattern, s: string, i: nat, e: nat, f: nat)
    requires i <= f <= e <= |s| && ExponentEnd(p, s, f) == e
    ensures ExponentEnd(p, s[i..e], f - i) == e - i
  {
    var t := s[i..e];
    if f < e {
      assert t[f - i] == s[f];
      var x := if f + 1 < |s| && IsSign(s[f + 1]) then f + 2 else f + 1;
      assert f + 1 < e ==> t[f + 1 - i] == s[f + 1];
      assert t[x - i] == s[x];
      DigitsEndSlice(s, i, e, x - i);
    }
  }

  /** A match, cut out of its line, matches again as a whole: what
      `findall` returns is a complete literal. */
  lemma MatchEndSlice(p: Pattern, s: string, i: nat, e: nat)
    requires i <= |s| && MatchEnd(p, s, i) == Some(e)
    ensures MatchEnd(p, s[i..e], 0) == Some(e - i)
  {
    var t := s[i..e];
    var m := if i < |s| && IsSign(s[i]) then i + 1 else i;
    var f := MantissaEnd(s, m).value;
    assert t[0] == s[i];
    MantissaEndSlice(s, i, e, m);
    ExponentEndSlice(p, s, i, e, f);
    MatchEndParts(p, t, 0, m - i, f - i);
  }

  /** A match is an optional sign, a mantissa and an optional exponent. */
  lemma MatchEndParts(p: Pattern, s: string, i: nat, m: nat, f: nat)
    requires i <= |s| && m == (if i < |s| && IsSign(s[i]) then i + 1 else i)
    requires m <= |s| && MantissaEnd(s, m) == Some(f)
    ensures MatchEnd(p, s, i) == Some(ExponentEnd(p, s, f))
  {
  }

  lemma {:induction false} DigitsEndFortranToE(t: string, k: nat)
    requires k <= |t|
    ensures DigitsEnd(FortranToE(t), k) == DigitsEnd(t, k)
    decreases |t| - k
  {
    if k < |t| {
      DigitsEndFortranToE(t, k + 1);
    }
  }

  lemma MantissaEndFortranToE(t: string, m: nat)
    requires m <= |t|
    ensures MantissaEnd(FortranToE(t), m) == MantissaEnd(t, m)
  {
    DigitsEndFortranToE(t, m);
    if m < |t| && IsDigit(t[m]) {
      var d := DigitsEnd(t, m);
      if d < |t| {
        DigitsEndFortranToE(t, d + 1);
      }
    } else if m + 1 < |t| {
      DigitsEndFortranToE(t, m + 1);
    }
  }

  lemma ExponentEndFortranToE(t: string, f: nat)
    requires f <= |t|
    ensures ExponentEnd(NumRe, FortranToE(t), f) == ExponentEnd(FloatRe, t, f)
  {
    var u := FortranToE(t);
    if f < |t| {
      assert IsExponentMarker(NumRe, u[f]) == IsExponentMarker(FloatRe, t[f]);
      if f + 1 < |t| {
        assert IsSign(u[f + 1]) == IsSign(t[f + 1]);
      }
      var x := if f + 1 < |t| && IsSign(t[f + 1]) then f + 2 else f + 1;
      if x < |t| {
        assert IsDigit(u[x]) == IsDigit(t[x]);
        DigitsEndFortranToE(t, x);
      }
    }
  }

  /** Rewriting the Fortran exponent letter turns a FLOAT_RE match into
      the same NUM_RE match. */
  lemma MatchEndFortranToE(t: string, k: nat)
    requires k <= |t|
    ensures MatchEnd(NumRe, FortranToE(t), k) == MatchEnd(FloatRe, t, k)
  {
    var m := if k < |t| && IsSign(t[k]) then k + 1 else k;
    MantissaEndFortranToE(t, m);
    if MantissaEnd(t, m).Some? {
      ExponentEndFortranToE(t, MantissaEnd(t, m).value);
    }
  }

  /** Every token FLOAT_RE finds converts with `float()` once its exponent
      letter is rewritten, and every NUM_RE token converts as it is: the
      `ValueError` branch of the scripts is never taken. */
  lemma {:induction false} TokensConvert(p: Pattern, s: string, i: nat)
    requires i <= |s|
    ensures forall tok :: tok in FindAllFrom(p, s, i) ==>
      ParseFloat(if p == FloatRe then FortranToE(tok) else tok).Some?
    decreases |s| - i
  {
    if i < |s| {
      match MatchEnd(p, s, i)
      case Some(e) =>
        TokensConvert(p, s, e);
        var tok := s[i..e];
        MatchEndSlice(p, s, i, e);
        if p == FloatRe {
          MatchEndFortranToE(tok, 0);
        }
      case None =>
        TokensConvert(p, s, i + 1);
    }
  }
}
