/** Character classes and the few `str` methods the two scripts rely on:
    `str.strip()`, `str.lower()` and `str.replace(" ", "")`. */
module Text {

  /** `str.isspace()` for one character, which is also what `str.strip()`
      with no argument removes and what `\s` matches in a `str` pattern. */
  predicate IsSpace(c: char) {
    || ('\t' <= c <= '\r') || ('\U{1c}' <= c <= ' ')
    || c == '\U{85}' || c == '\U{a0}' || c == '\U{1680}'
    || ('\U{2000}' <= c <= '\U{200a}') || c == '\U{2028}' || c == '\U{2029}'
    || c == '\U{202f}' || c == '\U{205f}' || c == '\U{3000}'
  }

  /** `\d`, restricted to the ASCII digits. */
  predicate IsDigit(c: char) {
    '0' <= c <= '9'
  }

  predicate HasDigit(s: string) {
    exists k :: 0 <= k < |s| && IsDigit(s[k])
  }

  predicate AllSpace(s: string) {
    forall k :: 0 <= k < |s| ==> IsSpace(s[k])
  }

  /** Where `s.lstrip()` cuts, looking from index `i`: the first index at
      or after `i` that does not hold whitespace, or `|s|`. */
  function LeadEnd(s: string, i: nat): (a: nat)
    requires i <= |s|
    ensures i <= a <= |s|
    decreases |s| - i
  {
    if i < |s| && IsSpace(s[i]) then LeadEnd(s, i + 1) else i
  }

  /** Where `s.rstrip()` cuts, looking back from index `j` but not below
      `lo`: the index just after the last non-whitespace character. */
  function TrailStart(s: string, lo: nat, j: nat): (b: nat)
    requires lo <= j <= |s|
    ensures lo <= b <= j
    decreases j
  {
    if lo < j && IsSpace(s[j - 1]) then TrailStart(s, lo, j - 1) else j
  }

  function StripStart(s: string): nat {
    LeadEnd(s, 0)
  }

  function StripStop(s: string): (b: nat)
    ensures StripStart(s) <= b <= |s|
  {
    TrailStart(s, StripStart(s), |s|)
  }

  /** `s.strip()` */
  function Strip(s: string): string {
    s[StripStart(s)..StripStop(s)]
  }

  lemma {:induction false} LeadEndSpec(s: string, i: nat)
    requires i <= |s|
    ensures forall t :: i <= t < LeadEnd(s, i) ==> IsSpace(s[t])
    ensures LeadEnd(s, i) < |s| ==> !IsSpace(s[LeadEnd(s, i)])
    decreases |s| - i
  {
    if i < |s| && IsSpace(s[i]) {
      LeadEndSpec(s, i + 1);
    }
  }

  /** The whitespace run from `i` stops at the latest at a character that
      is not whitespace. */
  lemma {:induction false} LeadEndStops(s: string, i: nat, k: nat)
    requires i <= k < |s| && !IsSpace(s[k])
    ensures LeadEnd(s, i) <= k
    decreases k - i
  {
    if i < k && IsSpace(s[i]) {
      LeadEndStops(s, i + 1, k);
    }
  }

  /** A whitespace run from `i` that ends at `k` is cut at `k`. */
  lemma {:induction false} LeadEndReaches(s: string, i: nat, k: nat)
    requires i <= k <= |s| && (k < |s| ==> !IsSpace(s[k]))
    requires forall t :: i <= t < k ==> IsSpace(s[t])
    ensures LeadEnd(s, i) == k
    decreases k - i
  {
    if i < k {
      LeadEndReaches(s, i + 1, k);
    }
  }

  lemma {:induction false} TrailStartSpec(s: string, lo: nat, j: nat)
    requires lo <= j <= |s|
    ensures forall t :: TrailStart(s, lo, j) <= t < j ==> IsSpace(s[t])
    ensures lo < TrailStart(s, lo, j) ==> !IsSpace(s[TrailStart(s, lo, j) - 1])
    decreases j
  {
    if lo < j && IsSpace(s[j - 1]) {
      TrailStartSpec(s, lo, j - 1);
    }
  }

  /** `s.strip()` returns the text between the leading and the trailing
      whitespace, and what it returns neither starts nor ends with
      whitespace. */
  lemma StripSpec(s: string)
    ensures forall t :: 0 <= t < StripStart(s) ==> IsSpace(s[t])
    ensures forall t :: StripStop(s) <= t < |s| ==> IsSpace(s[t])
    ensures StripStart(s) < StripStop(s) ==>
      !IsSpace(s[StripStart(s)]) && !IsSpace(s[StripStop(s) - 1])
  {
    LeadEndSpec(s, 0);
    TrailStartSpec(s, StripStart(s), |s|);
  }

  /** `not s.strip()` holds exactly for the all-whitespace strings. */
  lemma StripEmptyIffAllSpace(s: string)
    ensures Strip(s) == [] <==> AllSpace(s)
  {
    StripSpec(s);
    if Strip(s) == [] {
      assert StripStart(s) == StripStop(s);
    } else {
      assert !IsSpace(s[StripStart(s)]);
    }
  }

  lemma SpacesHaveNoDigit(t: string)
    requires AllSpace(t)
    ensures !HasDigit(t)
  {
  }

  lemma HasDigitConcat(x: string, y: string)
    ensures HasDigit(x + y) <==> HasDigit(x) || HasDigit(y)
  {
    if HasDigit(x + y) {
      var k :| 0 <= k < |x + y| && IsDigit((x + y)[k]);
      if k < |x| { assert IsDigit(x[k]); } else { assert IsDigit(y[k - |x|]); }
    }
    if HasDigit(x) {
      var k :| 0 <= k < |x| && IsDigit(x[k]);
      assert IsDigit((x + y)[k]);
    }
    if HasDigit(y) {
      var k :| 0 <= k < |y| && IsDigit(y[k]);
      assert IsDigit((x + y)[|x| + k]);
    }
  }

  /** Stripping never introduces or removes a digit. */
  lemma StripKeepsDigits(s: string)
    ensures HasDigit(Strip(s)) <==> HasDigit(s)
  {
    StripSpec(s);
    var a, b := StripStart(s), StripStop(s);
    if HasDigit(s) {
      var k :| 0 <= k < |s| && IsDigit(s[k]);
      assert !IsSpace(s[k]);
      assert Strip(s)[k - a] == s[k];
    }
    if HasDigit(Strip(s)) {
      var k :| 0 <= k < b - a && IsDigit(Strip(s)[k]);
      assert s[a + k] == Strip(s)[k];
    }
  }

  /** `str.lower()` on one character; only the ASCII letters are mapped. */
  function LowerChar(c: char): char {
    if 'A' <= c <= 'Z' then (c as int - 'A' as int + 'a' as int) as char else c
  }

  function Lower(s: string): (r: string)
    ensures |r| == |s|
    ensures forall k :: 0 <= k < |s| ==> r[k] == LowerChar(s[k])
  {
    if s == [] then [] else [LowerChar(s[0])] + Lower(s[1..])
  }

  /** `s.replace(" ", "")`: every blank (U+0020 only) removed. */
  function RemoveBlanks(s: string): (r: string)
    ensures ' ' !in r
    ensures |r| <= |s|
  {
    if s == [] then []
    else if s[0] == ' ' then RemoveBlanks(s[1..])
    else [s[0]] + RemoveBlanks(s[1..])
  }
}
