/**
 * The `Doi` wrapper: a value that always holds the exact text of one match of
 * the DOI pattern, built either from the first match in a text (`New`) or
 * from every match in a text (`Extract`).
 */
module Dois {
  import opened Wrappers
  import opened CharClasses
  import opened DoiPattern
  import opened Errors

  /** A single DOI. Two DOIs are equal exactly when their texts are. */
  datatype Doi = Doi(value: string)

  /**
   * `Doi::new`: the leftmost match in `text`, or `InvalidDoi` carrying the
   * whole input when the pattern matches nowhere.
   */
  function New(text: string): (r: Result<Doi, Error>)
    ensures r.Failure? <==> !HasMatch(text)
    ensures r.Failure? ==> r.error == InvalidDoi(text)
    ensures r.Success? ==> IsExactMatch(r.value.value)
    ensures r.Success? ==>
      exists i: nat, e: nat :: i < e <= |text| && IsLeftmostMatch(text, i, e) && r.value.value == text[i..e]
  {
    FindLeftmost(text);
    match FindFrom(text, 0)
    case Some(m) =>
      MatchedTextIsExact(text, m.start, m.end);
      Success(Doi(text[m.start..m.end]))
    case None =>
      Failure(InvalidDoi(text))
  }

  /** The text of every span `find_iter` reports is, on its own, a whole DOI. */
  lemma SpansExact(text: string)
    ensures forall k :: 0 <= k < |ExtractFrom(text, 0)| ==>
      && ExtractFrom(text, 0)[k].start < ExtractFrom(text, 0)[k].end <= |text|
      && IsExactMatch(text[ExtractFrom(text, 0)[k].start..ExtractFrom(text, 0)[k].end])
  {
    ExtractFromMatches(text, 0);
    var spans := ExtractFrom(text, 0);
    forall k | 0 <= k < |spans|
      ensures IsExactMatch(text[spans[k].start..spans[k].end])
    {
      MatchedTextIsExact(text, spans[k].start, spans[k].end);
    }
  }

  /**
   * `Doi::extract`: one DOI per span that `find_iter` reports, in the same
   * order, each holding the text of its span, and each a whole DOI on its own.
   */
  function Extract(text: string): (r: seq<Doi>)
    ensures |r| == |ExtractFrom(text, 0)|
    ensures forall k :: 0 <= k < |r| ==>
      && ExtractFrom(text, 0)[k].start < ExtractFrom(text, 0)[k].end <= |text|
      && r[k].value == text[ExtractFrom(text, 0)[k].start..ExtractFrom(text, 0)[k].end]
    ensures forall k :: 0 <= k < |r| ==> IsExactMatch(r[k].value)
  {
    var spans := ExtractFrom(text, 0);
    SpansExact(text);
    seq(|spans|, k requires 0 <= k < |spans| => Doi(text[spans[k].start..spans[k].end]))
  }

  /**
   * `find` is the first step of `find_iter`: `Extract` is empty exactly when
   * `New` fails, and otherwise its first DOI is the one `New` returns.
   */
  lemma ExtractAgreesWithNew(text: string)
    ensures Extract(text) == [] <==> New(text).Failure?
    ensures Extract(text) != [] ==> New(text) == Success(Extract(text)[0])
  {
  }

  /** The extracted DOIs occupy disjoint, strictly increasing stretches of the text. */
  lemma ExtractInTextOrder(text: string)
    ensures forall j, k :: 0 <= j < k < |Extract(text)| ==>
      ExtractFrom(text, 0)[j].end <= ExtractFrom(text, 0)[k].start
  {
    ExtractFromOrdered(text, 0);
  }

  /** Every position where the pattern matches lies within one of the extracted DOIs. */
  lemma ExtractMissesNothing(text: string, i: nat)
    requires MatchAt(text, i).Some?
    ensures exists k ::
      0 <= k < |Extract(text)| && ExtractFrom(text, 0)[k].start <= i < ExtractFrom(text, 0)[k].end
  {
    ExtractFromCovers(text, 0, i);
  }

  /**
   * Text that holds no DOI and may stand before one: it has no `1`, and it is
   * empty or ends with a non-word character.
   */
  predicate Lead(t: string) {
    && (|t| == 0 || !IsWordChar(t[|t| - 1]))
    && forall j :: 0 <= j < |t| ==> t[j] != '1'
  }

  /** Text that may stand between two DOIs: a `Lead` that starts with whitespace. */
  predicate Separator(t: string) {
    0 < |t| && IsWhitespace(t[0]) && Lead(t)
  }

  /** No `1` in `s[a..b]`. */
  predicate NoOneBetween(s: string, a: nat, b: nat) {
    a <= b <= |s| && forall j :: a <= j < b ==> s[j] != '1'
  }

  /**
   * `find` from `pos` passes over text without a `1` and reports the whole
   * DOI `s[a..e]`, which follows the start or a non-word character and is
   * followed by whitespace or the end of the text.
   */
  lemma FindPlaced(s: string, pos: nat, a: nat, e: nat)
    requires a <= e <= |s| && IsExactMatch(s[a..e])
    requires NoOneBetween(s, pos, a) && (a == 0 || !IsWordChar(s[a - 1]))
    requires e == |s| || IsWhitespace(s[e])
    ensures FindFrom(s, pos) == Some(Span(a, e))
  {
    ExactMatchInContext(s, a, s[a..e]);
    MatchAtDelimited(s, a, e);
    FindFromSkips(s, pos, a);
  }

  /** `find_iter` reports exactly two spans when `find` succeeds twice and then fails. */
  lemma TwoSpans(s: string, a: nat, e: nat, b: nat)
    requires FindFrom(s, 0) == Some(Span(a, e))
    requires FindFrom(s, e) == Some(Span(b, |s|))
    ensures ExtractFrom(s, 0) == [Span(a, e), Span(b, |s|)]
  {
    assert MatchAt(s, |s|).None?;
    assert ExtractFrom(s, |s|) == [];
    assert ExtractFrom(s, e) == [Span(b, |s|)];
  }

  /** Two spans become the two DOIs they cut out of the text. */
  lemma ExtractOfTwoSpans(s: string, a: nat, e: nat, b: nat)
    requires ExtractFrom(s, 0) == [Span(a, e), Span(b, |s|)]
    ensures a < e <= b < |s|
    ensures Extract(s) == [Doi(s[a..e]), Doi(s[b..|s|])]
  {
    ExtractFromOrdered(s, 0);
    var r := Extract(s);
    assert |r| == 2;
    assert r[0] == Doi(s[a..e]) && r[1] == Doi(s[b..|s|]);
  }

  /**
   * `find_iter` over a text laid out as: text without a `1`, a DOI `s[a..e]`,
   * text from `e` to `b` without a `1` that starts with whitespace and ends
   * with a non-word character, and a DOI `s[b..]` closing the text.
   */
  lemma ExtractOfTwoPlaced(s: string, a: nat, e: nat, b: nat)
    requires a <= e < b <= |s|
    requires IsExactMatch(s[a..e]) && IsExactMatch(s[b..|s|])
    requires NoOneBetween(s, 0, a) && (a == 0 || !IsWordChar(s[a - 1]))
    requires IsWhitespace(s[e]) && NoOneBetween(s, e, b) && !IsWordChar(s[b - 1])
    ensures Extract(s) == [Doi(s[a..e]), Doi(s[b..|s|])]
  {
    assert ExtractFrom(s, 0) == [Span(a, e), Span(b, |s|)] by {
      FindPlaced(s, 0, a, e);
      FindPlaced(s, e, b, |s|);
      TwoSpans(s, a, e, b);
    }
    ExtractOfTwoSpans(s, a, e, b);
  }

  /**
   * Two DOIs separated by text that holds no DOI, after text that holds
   * none either, are extracted as exactly those two, in order.
   */
  lemma TwoDoisSeparated(pre: string, d1: string, sep: string, d2: string)
    requires IsExactMatch(d1) && IsExactMatch(d2)
    requires Lead(pre) && Separator(sep)
    ensures Extract(pre + d1 + sep + d2) == [Doi(d1), Doi(d2)]
  {
    var s := pre + d1 + sep + d2;
    var a := |pre|;
    var e := a + |d1|;
    var b := e + |sep|;
    assert forall j :: 0 <= j < a ==> s[j] == pre[j];
    assert forall j :: e <= j < b ==> s[j] == sep[j - e];
    assert a > 0 ==> s[a - 1] == pre[a - 1];
    assert s[a..e] == d1;
    assert s[e] == sep[0];
    assert s[b - 1] == sep[|sep| - 1];
    assert s[b..|s|] == d2;
    ExtractOfTwoPlaced(s, a, e, b);
  }

  /** A text that is exactly a DOI is returned unchanged by `New`. */
  lemma NewOfExactDoi(x: string)
    requires IsExactMatch(x)
    ensures New(x) == Success(Doi(x))
  {
    MatchAtDelimited(x, 0, |x|);
    assert x[0..|x|] == x;
  }

  /** `New` is idempotent: a DOI it returns is returned unchanged when given back to it. */
  lemma NewIdempotent(text: string)
    requires New(text).Success?
    ensures New(New(text).value.value) == New(text)
  {
    NewOfExactDoi(New(text).value.value);
  }

  /**
   * The match `New` returns starts at the start of the text or after a
   * non-word character, and ends on a word character not followed by
   * another: trailing punctuation is left out.
   */
  lemma NewTrimsToWordBoundaries(text: string)
    requires New(text).Success?
    ensures exists i: nat, e: nat ::
      && i < e <= |text|
      && New(text).value.value == text[i..e]
      && (i == 0 || !IsWordChar(text[i - 1]))
      && IsWordChar(text[e - 1])
      && (e == |text| || !IsWordChar(text[e]))
  {
    var m := FindFrom(text, 0).value;
    MatchDelimiters(text, m.start, m.end);
  }

  /** A text without the character `1` holds no DOI: `New` fails on it and `Extract` finds nothing. */
  lemma NoDoiWithoutOne(text: string)
    requires forall j :: 0 <= j < |text| ==> text[j] != '1'
    ensures New(text) == Failure(InvalidDoi(text))
    ensures Extract(text) == []
  {
    FindFromSkips(text, 0, |text|);
    assert MatchAt(text, |text|).None?;
  }
}
