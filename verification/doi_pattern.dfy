/**
 * The fixed DOI pattern `\b10\.\d{4,9}/\S+\b` and the three ways the
 * library runs it: a match at one start position, `find` (the leftmost
 * match at or after a position) and `find_iter` (all non-overlapping matches,
 * left to right).
 *
 * The pattern's meaning is stated declaratively (`MatchesWith`, `IsMatch`,
 * `IsPreferredMatch`, `IsLeftmostMatch`); the matcher (`MatchAt`, `FindFrom`,
 * `ExtractFrom`) is proved to compute it.
 */
module DoiPattern {
  import opened Wrappers
  import opened CharClasses

  /** A match: the half-open range `[start, end)` of the haystack. */
  datatype Span = Span(start: nat, end: nat)

  /** Bounds of the `\d{4,9}` registrant code. */
  const MinRegistrantDigits: nat := 4
  const MaxRegistrantDigits: nat := 9

  /** Every character of `s[a..b]` is a digit. */
  predicate AllDigits(s: string, a: nat, b: nat) {
    a <= b <= |s| && forall t :: a <= t < b ==> IsDigit(s[t])
  }

  /** No character of `s[a..b]` is whitespace. */
  predicate AllNonSpace(s: string, a: nat, b: nat) {
    a <= b <= |s| && forall t :: a <= t < b ==> !IsWhitespace(s[t])
  }

  /** Every character of `s[a..b]` is a word character. */
  predicate AllWordChars(s: string, a: nat, b: nat) {
    a <= b <= |s| && forall t :: a <= t < b ==> IsWordChar(s[t])
  }

  /**
   * `s[i..e]`, read in the context of all of `s`, matches the pattern with a
   * registrant code of exactly `k` digits: `\b`, `10.`, `k` digits, `/`, one
   * or more non-whitespace characters, `\b`.
   */
  ghost predicate MatchesWith(s: string, i: nat, k: nat, e: nat) {
    && MinRegistrantDigits <= k <= MaxRegistrantDigits
    && i + 4 + k < e <= |s|
    && WordBoundary(s, i)
    && s[i] == '1' && s[i + 1] == '0' && s[i + 2] == '.'
    && AllDigits(s, i + 3, i + 3 + k)
    && s[i + 3 + k] == '/'
    && AllNonSpace(s, i + 4 + k, e)
    && WordBoundary(s, e)
  }

  /** Some way of running the pattern from `i` ends at `e`. */
  ghost predicate IsMatch(s: string, i: nat, e: nat) {
    exists k: nat :: MatchesWith(s, i, k, e)
  }

  /**
   * The match a leftmost-first engine reports when it starts at `i`: the
   * greedy `\S+` backtracks only as far as the last word boundary, so it is
   * the longest match from `i`.
   */
  ghost predicate IsPreferredMatch(s: string, i: nat, e: nat) {
    IsMatch(s, i, e) && forall e': nat :: IsMatch(s, i, e') ==> e' <= e
  }

  /** `s[i..e]` is what `find` reports: no match starts before `i`. */
  ghost predicate IsLeftmostMatch(s: string, i: nat, e: nat) {
    IsPreferredMatch(s, i, e) && forall i': nat, e': nat :: i' < i ==> !IsMatch(s, i', e')
  }

  /** The pattern matches somewhere in `s`. */
  ghost predicate HasMatch(s: string) {
    exists i: nat, e: nat :: IsMatch(s, i, e)
  }

  /** The length of the run of digits that starts at `j`. */
  function DigitRunLength(s: string, j: nat): (n: nat)
    requires j <= |s|
    decreases |s| - j
    ensures AllDigits(s, j, j + n)
    ensures j + n == |s| || !IsDigit(s[j + n])
  {
    if j < |s| && IsDigit(s[j]) then 1 + DigitRunLength(s, j + 1) else 0
  }

  /** The end of the run of non-whitespace characters that starts at `j`. */
  function NonSpaceRunEnd(s: string, j: nat): (m: nat)
    requires j <= |s|
    decreases |s| - j
    ensures j <= m
    ensures AllNonSpace(s, j, m)
    ensures m == |s| || IsWhitespace(s[m])
  {
    if j < |s| && !IsWhitespace(s[j]) then NonSpaceRunEnd(s, j + 1) else j
  }

  /** The end of the run of word characters that starts at `j`. */
  function WordRunEnd(s: string, j: nat): (w: nat)
    requires j <= |s|
    decreases |s| - j
    ensures j <= w
    ensures AllWordChars(s, j, w)
    ensures w == |s| || !IsWordChar(s[w])
  {
    if j < |s| && IsWordChar(s[j]) then WordRunEnd(s, j + 1) else j
  }

  /**
   * Backtracking of `\S+\b`: the last position in `(lo, hi]` where `\b`
   * holds, trying `hi` first.
   */
  function LastBoundary(s: string, lo: nat, hi: nat): (r: Option<nat>)
    requires hi <= |s|
    decreases hi
    ensures r.Some? ==> lo < r.value <= hi && WordBoundary(s, r.value)
    ensures r.Some? ==> forall e: nat :: r.value < e <= hi ==> !WordBoundary(s, e)
    ensures r.None? ==> forall e: nat :: lo < e <= hi ==> !WordBoundary(s, e)
  {
    if hi <= lo then None
    else if WordBoundary(s, hi) then Some(hi)
    else LastBoundary(s, lo, hi - 1)
  }

  /**
   * What every match from `i` looks like in terms of the runs the matcher
   * measures: the registrant code is the whole digit run, and the end lies
   * within the non-whitespace run after the `/`.
   */
  lemma MatchShape(s: string, i: nat, e: nat)
    requires IsMatch(s, i, e)
    ensures i + 3 <= |s| && s[i] == '1' && s[i + 1] == '0' && s[i + 2] == '.' && WordBoundary(s, i)
    ensures MinRegistrantDigits <= DigitRunLength(s, i + 3) <= MaxRegistrantDigits
    ensures i + 3 + DigitRunLength(s, i + 3) < |s| && s[i + 3 + DigitRunLength(s, i + 3)] == '/'
    ensures i + 4 + DigitRunLength(s, i + 3) < e <= NonSpaceRunEnd(s, i + 4 + DigitRunLength(s, i + 3))
    ensures WordBoundary(s, e)
  {
    var k :| MatchesWith(s, i, k, e);
    RegistrantDigitsFixed(s, i, k, e);
  }

  /**
   * Greedy `\d{4,9}` cannot give back digits onto the `/`: the digit count of
   * any match is the length of the digit run after `10.`.
   */
  lemma RegistrantDigitsFixed(s: string, i: nat, k: nat, e: nat)
    requires MatchesWith(s, i, k, e)
    ensures k == DigitRunLength(s, i + 3)
  {
    var n := DigitRunLength(s, i + 3);
    assert s[i + 3 + k] == '/';
    assert i + 3 + n < |s| ==> !IsDigit(s[i + 3 + n]);
  }

  /** `MatchShape` for every end from `i` at once. */
  lemma AllMatchesShaped(s: string, i: nat)
    ensures forall e: nat :: IsMatch(s, i, e) ==>
      && i + 3 <= |s|
      && MinRegistrantDigits <= DigitRunLength(s, i + 3) <= MaxRegistrantDigits
      && i + 3 + DigitRunLength(s, i + 3) < |s|
      && s[i + 3 + DigitRunLength(s, i + 3)] == '/'
      && i + 4 + DigitRunLength(s, i + 3) < e <= NonSpaceRunEnd(s, i + 4 + DigitRunLength(s, i + 3))
      && WordBoundary(s, e)
  {
    forall e: nat | IsMatch(s, i, e)
      ensures i + 3 <= |s|
      ensures MinRegistrantDigits <= DigitRunLength(s, i + 3) <= MaxRegistrantDigits
      ensures i + 3 + DigitRunLength(s, i + 3) < |s|
      ensures s[i + 3 + DigitRunLength(s, i + 3)] == '/'
      ensures i + 4 + DigitRunLength(s, i + 3) < e <= NonSpaceRunEnd(s, i + 4 + DigitRunLength(s, i + 3))
      ensures WordBoundary(s, e)
    {
      MatchShape(s, i, e);
    }
  }

  /**
   * The pattern run from start position `i`: the end of the match the
   * leftmost-first engine reports there, or `None` when no match starts at `i`.
   */
  function MatchAt(s: string, i: nat): (r: Option<nat>)
    ensures r.Some? ==> i < r.value <= |s|
    ensures r.Some? ==> IsPreferredMatch(s, i, r.value)
    ensures r.None? ==> forall e: nat :: !IsMatch(s, i, e)
  {
    AllMatchesShaped(s, i);
    if i + 3 <= |s| && s[i] == '1' && s[i + 1] == '0' && s[i + 2] == '.' && WordBoundary(s, i) then
      var n := DigitRunLength(s, i + 3);
      var slash := i + 3 + n;
      if MinRegistrantDigits <= n <= MaxRegistrantDigits && slash < |s| && s[slash] == '/' then
        var m := NonSpaceRunEnd(s, slash + 1);
        var r := LastBoundary(s, slash + 1, m);
        assert r.Some? ==> MatchesWith(s, i, n, r.value);
        r
      else
        None
    else
      None
  }

  /**
   * `find_at`: the leftmost match starting at or after `pos`. Starts before
   * `pos` are not tried, but `\b` still sees the character before `pos`.
   */
  function FindFrom(s: string, pos: nat): (r: Option<Span>)
    decreases |s| - pos
    ensures r.Some? ==> pos <= r.value.start < r.value.end <= |s|
    ensures r.Some? ==> MatchAt(s, r.value.start) == Some(r.value.end)
    ensures r.Some? ==> forall i: nat :: pos <= i < r.value.start ==> MatchAt(s, i).None?
    ensures r.None? ==> forall i: nat :: pos <= i ==> MatchAt(s, i).None?
  {
    if pos > |s| then None
    else
      match MatchAt(s, pos)
      case Some(e) => Some(Span(pos, e))
      case None => FindFrom(s, pos + 1)
  }

  /**
   * `find_iter` from `pos`: each match is the leftmost one at or after the
   * end of the previous, and the search stops when none is left.
   */
  function ExtractFrom(s: string, pos: nat): (r: seq<Span>)
    decreases |s| - pos
    ensures r == [] <==> FindFrom(s, pos).None?
    ensures r != [] ==> r[0] == FindFrom(s, pos).value
    ensures forall k :: 0 <= k < |r| - 1 ==> FindFrom(s, r[k].end) == Some(r[k + 1])
    ensures r != [] ==> FindFrom(s, r[|r| - 1].end).None?
  {
    var f := FindFrom(s, pos);
    if f.None? then []
    else [f.value] + ExtractFrom(s, f.value.end)
  }

  /** Every span `find_iter` reports from `pos` is the match the engine prefers at its start, at or after `pos`. */
  lemma {:induction false} ExtractFromMatches(s: string, pos: nat)
    decreases |s| - pos
    ensures forall k :: 0 <= k < |ExtractFrom(s, pos)| ==>
      && pos <= ExtractFrom(s, pos)[k].start < ExtractFrom(s, pos)[k].end <= |s|
      && MatchAt(s, ExtractFrom(s, pos)[k].start) == Some(ExtractFrom(s, pos)[k].end)
  {
    var f := FindFrom(s, pos);
    if f.Some? {
      ExtractFromMatches(s, f.value.end);
    }
  }

  /** The reported spans never overlap and come in strictly increasing order. */
  lemma {:induction false} ExtractFromOrdered(s: string, pos: nat)
    decreases |s| - pos
    ensures forall j, k :: 0 <= j < k < |ExtractFrom(s, pos)| ==>
      ExtractFrom(s, pos)[j].end <= ExtractFrom(s, pos)[k].start
  {
    var f := FindFrom(s, pos);
    if f.Some? {
      ExtractFromOrdered(s, f.value.end);
      ExtractFromMatches(s, f.value.end);
    }
  }

  /**
   * No match is lost: every position at or after `pos` where the pattern
   * matches lies inside one of the reported spans.
   */
  lemma {:induction false} ExtractFromCovers(s: string, pos: nat, i: nat)
    requires pos <= i && MatchAt(s, i).Some?
    decreases |s| - pos
    ensures exists k :: 0 <= k < |ExtractFrom(s, pos)| && ExtractFrom(s, pos)[k].start <= i < ExtractFrom(s, pos)[k].end
  {
    var f := FindFrom(s, pos);
    assert f.Some? && f.value.start <= i;
    var r := ExtractFrom(s, pos);
    var rest := ExtractFrom(s, f.value.end);
    assert r == [f.value] + rest;
    if i < f.value.end {
      assert r[0].start <= i < r[0].end;
    } else {
      ExtractFromCovers(s, f.value.end, i);
      var k :| 0 <= k < |rest| && rest[k].start <= i < rest[k].end;
      assert r[k + 1] == rest[k];
    }
  }

  /**
   * Because of the final `\b`, a preferred match ends on a word character
   * that is not followed by another: trailing punctuation is never captured.
   * It starts at the start of the text or after a non-word character.
   */
  lemma MatchDelimiters(s: string, i: nat, e: nat)
    requires IsPreferredMatch(s, i, e)
    ensures i == 0 || !IsWordChar(s[i - 1])
    ensures IsWordChar(s[e - 1])
    ensures e == |s| || !IsWordChar(s[e])
  {
    var k :| MatchesWith(s, i, k, e);
    if !IsWordChar(s[e - 1]) {
      var w := WordRunEnd(s, e);
      assert MatchesWith(s, i, k, w);
      assert IsMatch(s, i, w);
      assert false;
    }
  }

  /** The whole of `v` is one match of the pattern. */
  ghost predicate IsExactMatch(v: string) {
    IsMatch(v, 0, |v|)
  }

  /** The text of a preferred match, cut out of its context, is still a match of the whole pattern. */
  lemma MatchedTextIsExact(s: string, i: nat, e: nat)
    requires IsPreferredMatch(s, i, e)
    ensures i < e <= |s|
    ensures IsExactMatch(s[i..e])
  {
    var k :| MatchesWith(s, i, k, e);
    MatchDelimiters(s, i, e);
    var v := s[i..e];
    assert forall t :: 0 <= t < |v| ==> v[t] == s[i + t];
    assert MatchesWith(v, 0, k, |v|);
  }

  /**
   * A match followed by whitespace or by the end of the text cannot be
   * extended, so it is the one reported at its start.
   */
  lemma MatchAtDelimited(s: string, i: nat, e: nat)
    requires IsMatch(s, i, e)
    requires e == |s| || IsWhitespace(s[e])
    ensures MatchAt(s, i) == Some(e)
  {
    MatchShape(s, i, e);
    var r := MatchAt(s, i);
    MatchShape(s, i, r.value);
    var k :| MatchesWith(s, i, k, e);
    RegistrantDigitsFixed(s, i, k, e);
    var n := DigitRunLength(s, i + 3);
    assert NonSpaceRunEnd(s, i + 4 + n) == e;
  }

  /**
   * A registrant code of fewer than four or more than nine digits is not
   * matched at that start, whatever follows it.
   */
  lemma RegistrantOutOfRange(s: string, i: nat)
    requires i + 3 <= |s|
    requires DigitRunLength(s, i + 3) < MinRegistrantDigits || MaxRegistrantDigits < DigitRunLength(s, i + 3)
    ensures MatchAt(s, i) == None
    ensures forall e: nat :: !IsMatch(s, i, e)
  {
    forall e: nat | IsMatch(s, i, e)
      ensures false
    {
      MatchShape(s, i, e);
    }
  }

  /**
   * `find` over the whole text: it reports nothing exactly when the pattern
   * matches nowhere, and otherwise the leftmost match in its preferred form.
   */
  lemma FindLeftmost(s: string)
    ensures FindFrom(s, 0).None? <==> !HasMatch(s)
    ensures FindFrom(s, 0).Some? ==> IsLeftmostMatch(s, FindFrom(s, 0).value.start, FindFrom(s, 0).value.end)
  {
    var f := FindFrom(s, 0);
    if f.Some? {
      assert IsMatch(s, f.value.start, f.value.end);
      forall i: nat, e: nat | i < f.value.start
        ensures !IsMatch(s, i, e)
      {
        assert MatchAt(s, i).None?;
      }
    } else {
      forall i: nat, e: nat
        ensures !IsMatch(s, i, e)
      {
        assert MatchAt(s, i).None?;
      }
    }
  }

  /**
   * Every match begins with `1`, so `find_at` passes over a stretch of text
   * without that character as if it started after it.
   */
  lemma {:induction false} FindFromSkips(s: string, pos: nat, i: nat)
    requires pos <= i <= |s|
    requires forall j :: pos <= j < i ==> s[j] != '1'
    decreases i - pos
    ensures FindFrom(s, pos) == FindFrom(s, i)
  {
    if pos < i {
      assert MatchAt(s, pos).None?;
      FindFromSkips(s, pos + 1, i);
    }
  }

  /**
   * An exact match placed in a text with no word character on either side
   * of it is a match of the pattern there.
   */
  lemma ExactMatchInContext(s: string, i: nat, d: string)
    requires IsExactMatch(d)
    requires i + |d| <= |s| && s[i..i + |d|] == d
    requires i == 0 || !IsWordChar(s[i - 1])
    requires i + |d| == |s| || !IsWordChar(s[i + |d|])
    ensures IsMatch(s, i, i + |d|)
  {
    var k :| MatchesWith(d, 0, k, |d|);
    assert forall t :: 0 <= t < |d| ==> s[i + t] == d[t];
    assert forall t :: i <= t < i + |d| ==> s[t] == d[t - i];
    assert MatchesWith(s, i, k, i + |d|);
  }

  /** The digit run after `j` is determined by the text: any maximal run of digits there has its length. */
  lemma DigitRunLengthUnique(s: string, j: nat, n: nat)
    requires AllDigits(s, j, j + n)
    requires j + n == |s| || !IsDigit(s[j + n])
    ensures DigitRunLength(s, j) == n
  {
    var m := DigitRunLength(s, j);
    assert j + m < |s| ==> !IsDigit(s[j + m]);
  }
}
