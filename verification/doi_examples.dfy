/** The library's own test cases and documented examples, proved about the model. */
module DoiExamples {
  import opened Wrappers
  import opened CharClasses
  import opened DoiPattern
  import opened Errors
  import opened Dois

  const Nplants3: string := "10.1038/nplants.2015.3"
  const Nplants4: string := "10.1038/nplants.2015.4"

  lemma Nplants3IsExact()
    ensures IsExactMatch(Nplants3)
  {
    assert MatchesWith(Nplants3, 0, 4, |Nplants3|);
  }

  lemma Nplants4IsExact()
    ensures IsExactMatch(Nplants4)
  {
    assert MatchesWith(Nplants4, 0, 4, |Nplants4|);
  }

  /** `new_returns_a_valid_doi`. */
  lemma NewReturnsAValidDoi()
    ensures New(Nplants3) == Success(Doi(Nplants3))
  {
    Nplants3IsExact();
    NewOfExactDoi(Nplants3);
  }

  /** `new_returns_an_err_if_given_an_invalid_doi`. */
  lemma NewReturnsAnErrIfGivenAnInvalidDoi()
    ensures New("not a DOI") == Failure(InvalidDoi("not a DOI"))
  {
    NoDoiWithoutOne("not a DOI");
  }

  /** The text of `extract_returns_a_doi`. */
  const OneDoi: string := "I love " + Nplants3

  lemma OneDoiFind()
    ensures FindFrom(OneDoi, 0) == Some(Span(7, 29))
    ensures OneDoi[7..29] == Nplants3
  {
    Nplants3IsExact();
    assert OneDoi[7..29] == Nplants3;
    ExactMatchInContext(OneDoi, 7, Nplants3);
    MatchAtDelimited(OneDoi, 7, 29);
    FindFromSkips(OneDoi, 0, 7);
  }

  /** `extract_returns_a_doi`. */
  lemma ExtractReturnsADoi()
    ensures Extract(OneDoi) == [Doi(Nplants3)]
  {
    OneDoiFind();
    assert MatchAt(OneDoi, 29).None?;
    assert ExtractFrom(OneDoi, 29) == [];
    assert ExtractFrom(OneDoi, 0) == [Span(7, 29)];
  }

  /** The text of `extract_returns_multiple_dois`. */
  const TwoDois: string := "I love " + Nplants3 + " and " + Nplants4

  /** `extract_returns_multiple_dois`. */
  lemma ExtractReturnsMultipleDois()
    ensures Extract(TwoDois) == [Doi(Nplants3), Doi(Nplants4)]
  {
    Nplants3IsExact();
    Nplants4IsExact();
    TwoDoisSeparated("I love ", Nplants3, " and ", Nplants4);
  }

  /** `extract_returns_an_empty_vec`. */
  lemma ExtractReturnsAnEmptyVec()
    ensures Extract("No DOIs here") == []
  {
    NoDoiWithoutOne("No DOIs here");
  }

  /** A DOI closed by punctuation, as at the end of a sentence. */
  const Foobar: string := "10.1234/foobar"
  const Punctuated: string := "see " + Foobar + ")."

  lemma PunctuatedFind()
    ensures FindFrom(Punctuated, 0) == Some(Span(4, 18))
    ensures Punctuated[4..18] == Foobar
  {
    assert MatchesWith(Foobar, 0, 4, |Foobar|);
    assert Punctuated[4..18] == Foobar;
    ExactMatchInContext(Punctuated, 4, Foobar);
    assert !WordBoundary(Punctuated, 19) && !WordBoundary(Punctuated, 20);
    assert MatchAt(Punctuated, 4) == Some(18);
    FindFromSkips(Punctuated, 0, 4);
  }

  /** Trailing punctuation after a DOI is not part of the match. */
  lemma TrailingPunctuationLeftOut()
    ensures New(Punctuated) == Success(Doi(Foobar))
  {
    PunctuatedFind();
  }

  /** Registrant codes of three and of ten digits. */
  const ShortCode: string := "10.234/foobar"
  const LongCode: string := "10.2345678902/foobar"

  lemma ShortCodeRejected()
    ensures New(ShortCode).Failure?
  {
    assert DigitRunLength(ShortCode, 3) == 3;
    RegistrantOutOfRange(ShortCode, 0);
    NoMatchPastTheStart(ShortCode);
  }

  lemma LongCodeDigits()
    ensures DigitRunLength(LongCode, 3) == 10
  {
    assert AllDigits(LongCode, 3, 13);
    DigitRunLengthUnique(LongCode, 3, 10);
  }

  lemma LongCodeRejected()
    ensures New(LongCode).Failure?
  {
    LongCodeDigits();
    RegistrantOutOfRange(LongCode, 0);
    NoMatchPastTheStart(LongCode);
  }

  /** In a text whose only `1` is its first character, `find` can only report a match at 0. */
  lemma NoMatchPastTheStart(s: string)
    requires forall j :: 1 <= j < |s| ==> s[j] != '1'
    ensures MatchAt(s, 0).None? ==> FindFrom(s, 0).None?
  {
    if 0 < |s| {
      FindFromSkips(s, 1, |s|);
      assert MatchAt(s, |s|).None?;
    }
  }
}
