/**
 * The few `java.lang.String` operations the modelled code relies on:
 * `trim`, `startsWith`, `endsWith`, `replace(CharSequence, CharSequence)` and
 * `String.valueOf(int)` for non-negative values, each with a partner that
 * pins down what its result means.
 */
module JavaStrings {

  // ---------------------------------------------------------------------
  // trim

  /** `String.trim` removes every character whose code is at most U+0020. */
  predicate IsTrimmable(c: char) {
    c <= ' '
  }

  /** `s` holds `r` as a slice whose left and right margins are all trimmable. */
  ghost predicate IsTrimmedSliceOf(s: string, r: string) {
    exists lo :: 0 <= lo <= |s| - |r| && SliceWithMargins(s, r, lo)
  }

  ghost predicate SliceWithMargins(s: string, r: string, lo: int)
    requires 0 <= lo <= |s| - |r|
  {
    && s[lo..lo + |r|] == r
    && (forall i :: 0 <= i < lo ==> IsTrimmable(s[i]))
    && (forall i :: lo + |r| <= i < |s| ==> IsTrimmable(s[i]))
  }

  /** The first index at or after `i` holding a character that is not trimmed. */
  function FirstKept(s: string, i: nat): (lo: nat)
    requires i <= |s|
    ensures i <= lo <= |s| && (lo == |s| || !IsTrimmable(s[lo]))
    ensures forall k :: i <= k < lo ==> IsTrimmable(s[k])
    decreases |s| - i
  {
    if i < |s| && IsTrimmable(s[i]) then FirstKept(s, i + 1) else i
  }

  /** The end, at most `hi` and at least `lo`, after dropping trimmable characters from the back. */
  function LastKept(s: string, lo: nat, hi: nat): (end: nat)
    requires lo <= hi <= |s|
    ensures lo <= end <= hi && (end == lo || !IsTrimmable(s[end - 1]))
    ensures forall k :: end <= k < hi ==> IsTrimmable(s[k])
    decreases hi - lo
  {
    if lo < hi && IsTrimmable(s[hi - 1]) then LastKept(s, lo, hi - 1) else hi
  }

  /**
   * `String.trim()`: skip trimmable characters from the front, then from the
   * back, and keep what lies between.
   */
  function Trim(s: string): (r: string)
    ensures r == [] || (!IsTrimmable(r[0]) && !IsTrimmable(r[|r| - 1]))
    ensures IsTrimmedSliceOf(s, r)
  {
    var lo := FirstKept(s, 0);
    var hi := LastKept(s, lo, |s|);
    assert SliceWithMargins(s, s[lo..hi], lo);
    s[lo..hi]
  }

  /** A string without surrounding trimmable characters is its own trim. */
  lemma TrimLeavesTidyString(s: string)
    requires s == [] || (!IsTrimmable(s[0]) && !IsTrimmable(s[|s| - 1]))
    ensures Trim(s) == s
  {
  }

  // ---------------------------------------------------------------------
  // startsWith / endsWith

  predicate StartsWith(s: string, prefix: string) {
    |prefix| <= |s| && s[..|prefix|] == prefix
  }

  predicate EndsWith(s: string, suffix: string) {
    |suffix| <= |s| && s[|s| - |suffix|..] == suffix
  }

  // ---------------------------------------------------------------------
  // replace(CharSequence, CharSequence)

  /** `pat` occurs in `s` starting at index `i`. */
  predicate OccursAt(s: string, pat: string, i: int)
    requires 0 <= i
  {
    i + |pat| <= |s| && s[i..i + |pat|] == pat
  }

  predicate Contains(s: string, pat: string) {
    exists i :: 0 <= i <= |s| && OccursAt(s, pat, i)
  }

  /** How many occurrences `ReplaceAll` rewrites: a left-to-right scan that skips over each match. */
  function CountMatches(s: string, pat: string): nat
    requires |pat| > 0
  {
    if |s| < |pat| then 0
    else if s[..|pat|] == pat then 1 + CountMatches(s[|pat|..], pat)
    else CountMatches(s[1..], pat)
  }

  /**
   * `s.replace(pat, rep)`: one left-to-right pass that replaces each
   * non-overlapping occurrence of `pat`; the output is not scanned again.
   */
  function ReplaceAll(s: string, pat: string, rep: string): (r: string)
    requires |pat| > 0
    ensures !Contains(s, pat) ==> r == s
  {
    if |s| < |pat| then
      assert !Contains(s, pat) ==> s == s;
      s
    else if s[..|pat|] == pat then
      assert OccursAt(s, pat, 0);
      rep + ReplaceAll(s[|pat|..], pat, rep)
    else
      assert Contains(s[1..], pat) ==> Contains(s, pat) by {
        if Contains(s[1..], pat) {
          var i :| 0 <= i <= |s[1..]| && OccursAt(s[1..], pat, i);
          assert s[i + 1..i + 1 + |pat|] == s[1..][i..i + |pat|];
          assert OccursAt(s, pat, i + 1);
        }
      }
      [s[0]] + ReplaceAll(s[1..], pat, rep)
  }

  /** Each rewritten occurrence trades `|pat|` characters for `|rep|`. */
  lemma {:induction false} ReplaceAllLength(s: string, pat: string, rep: string)
    requires |pat| > 0
    ensures |ReplaceAll(s, pat, rep)| + CountMatches(s, pat) * |pat| == |s| + CountMatches(s, pat) * |rep|
  {
    if |s| < |pat| {
    } else if s[..|pat|] == pat {
      var rest := s[|pat|..];
      ReplaceAllLength(rest, pat, rep);
      var k := CountMatches(rest, pat);
      assert ReplaceAll(s, pat, rep) == rep + ReplaceAll(rest, pat, rep);
      assert CountMatches(s, pat) == 1 + k;
      assert |s| == |pat| + |rest|;
      MulSucc(k, |pat|);
      MulSucc(k, |rep|);
    } else {
      ReplaceAllLength(s[1..], pat, rep);
      assert ReplaceAll(s, pat, rep) == [s[0]] + ReplaceAll(s[1..], pat, rep);
    }
  }

  lemma MulSucc(k: int, m: int)
    ensures (1 + k) * m == m + k * m
  {
  }

  /** Where the pattern does not start the text, its first character is copied through. */
  lemma ReplaceAllSkipsFront(s: string, pat: string, rep: string)
    requires |pat| > 0 && |s| > 0 && !StartsWith(s, pat)
    ensures ReplaceAll(s, pat, rep) == [s[0]] + ReplaceAll(s[1..], pat, rep)
  {
    if |s| < |pat| {
      assert !Contains(s[1..], pat);
      assert s == [s[0]] + s[1..];
    }
  }

  /** Text shorter than the pattern is copied through. */
  lemma ReplaceAllShort(s: string, pat: string, rep: string)
    requires |pat| > 0 && |s| < |pat|
    ensures ReplaceAll(s, pat, rep) == s
  {
  }

  /** Replacing a pattern at the very front emits the replacement first. */
  lemma ReplaceAllAtFront(pat: string, rest: string, rep: string)
    requires |pat| > 0
    ensures ReplaceAll(pat + rest, pat, rep) == rep + ReplaceAll(rest, pat, rep)
  {
    assert (pat + rest)[..|pat|] == pat;
    assert (pat + rest)[|pat|..] == rest;
  }

  /** Text in which no occurrence starts is copied through, whatever follows it. */
  lemma {:induction false} ReplaceAllPassesOver(t: string, s: string, pat: string, rep: string)
    requires |pat| > 0
    requires forall p :: 0 <= p < |t| ==> !OccursAt(t + s, pat, p)
    ensures ReplaceAll(t + s, pat, rep) == t + ReplaceAll(s, pat, rep)
    decreases |t|
  {
    if t != [] {
      var u, rest := t + s, t[1..];
      assert !StartsWith(u, pat) by {
        assert !OccursAt(u, pat, 0);
      }
      ReplaceAllSkipsFront(u, pat, rep);
      assert u[0] == t[0] && u[1..] == rest + s;
      NoOccurrenceInTail(t, s, pat);
      ReplaceAllPassesOver(rest, s, pat, rep);
      ConsAssoc(t[0], rest, t, ReplaceAll(s, pat, rep));
    } else {
      assert t + s == s && t + ReplaceAll(s, pat, rep) == ReplaceAll(s, pat, rep);
    }
  }

  lemma NoOccurrenceInTail(t: string, s: string, pat: string)
    requires |t| > 0
    requires forall p :: 0 <= p < |t| ==> !OccursAt(t + s, pat, p)
    ensures forall p :: 0 <= p < |t| - 1 ==> !OccursAt(t[1..] + s, pat, p)
  {
    var u, v := t + s, t[1..] + s;
    assert v == u[1..];
    forall p | 0 <= p < |t| - 1
      ensures !OccursAt(v, pat, p)
    {
      assert !OccursAt(u, pat, p + 1);
      if p + |pat| <= |v| {
        assert v[p..p + |pat|] == u[p + 1..p + 1 + |pat|];
      }
    }
  }

  lemma ConsAssoc(c: char, rest: string, t: string, r: string)
    requires t == [c] + rest
    ensures [c] + (rest + r) == t + r
  {
  }

  // ---------------------------------------------------------------------
  // String.valueOf(int) for non-negative values

  predicate IsDigit(c: char) {
    '0' <= c <= '9'
  }

  predicate AllDigits(s: string) {
    forall i :: 0 <= i < |s| ==> IsDigit(s[i])
  }

  function DigitChar(d: nat): (c: char)
    requires d < 10
    ensures IsDigit(c)
  {
    ['0', '1', '2', '3', '4', '5', '6', '7', '8', '9'][d]
  }

  function DigitValue(c: char): (d: nat)
    requires IsDigit(c)
    ensures d < 10
  {
    (c as int - '0' as int) as nat
  }

  lemma DigitRoundTrip(d: nat)
    requires d < 10
    ensures DigitValue(DigitChar(d)) == d
  {
  }

  /** The decimal value of a digit string, most significant digit first. */
  function DecimalValue(s: string): nat
    requires AllDigits(s)
  {
    if s == [] then 0 else 10 * DecimalValue(s[..|s| - 1]) + DigitValue(s[|s| - 1])
  }

  /** `String.valueOf(n)` for `n >= 0`: decimal digits, no sign, no leading zero. */
  function DecimalString(n: nat): (r: string)
    ensures |r| >= 1 && AllDigits(r)
    ensures r[0] == '0' ==> n == 0
  {
    if n < 10 then [DigitChar(n)] else DecimalString(n / 10) + [DigitChar(n % 10)]
  }

  /** Reading back the decimal rendering of `n` gives `n`. */
  lemma {:induction false} DecimalRoundTrip(n: nat)
    ensures DecimalValue(DecimalString(n)) == n
  {
    var r := DecimalString(n);
    if n < 10 {
      DigitRoundTrip(n);
    } else {
      DecimalRoundTrip(n / 10);
      DigitRoundTrip(n % 10);
      assert r[..|r| - 1] == DecimalString(n / 10);
    }
  }
}
