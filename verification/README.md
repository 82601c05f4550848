# DOI recogniser — a Dafny model

This project models the `identifiers` crate, a small library that recognises
Digital Object Identifiers (DOIs) in free text. The whole library is one
fixed pattern, `\b10\.\d{4,9}/\S+\b`. It is run in two ways:

- `Doi::new(text)` returns the leftmost match in `text`. If the pattern
  matches nowhere, it returns the error `InvalidDoi` carrying the whole input.
- `Doi::extract(text)` returns every non-overlapping match, left to right.

The only error kind, `Error::InvalidDoi`, has a fixed description and a
display message.

The model does not use a general regex engine. The pattern's meaning is
written out directly over `seq<char>`:

- `CharClasses` (`char_classes.dfy`) defines `\d`, `\w`, `\s` and the word
  boundary `\b`.
- `DoiPattern` (`doi_pattern.dfy`) states the pattern declaratively:
  - `MatchesWith` and `IsMatch` say which stretches of a text match it.
  - `IsPreferredMatch` says which of those a leftmost-first engine reports at
    a given start.
  - `IsLeftmostMatch` says which match `find` reports.

  It also defines a matcher and proves it computes that meaning: `MatchAt`
  matches at one start, `FindFrom` is `find_at` and `ExtractFrom` is
  `find_iter`.
- `Errors` (`errors.dfy`) models `src/lib.rs`.
- `Dois` (`doi.dfy`) models `src/doi.rs`.
- `DoiExamples` (`doi_examples.dfy`) proves the crate's own test cases, plus
  a few edge cases, about the model.
- `Wrappers` (`wrappers.dfy`) holds `Option` and `Result`.

Main facts proved:

- Greedy `\d{4,9}` cannot give digits back onto the `/`, so the digit count
  of a match is fixed by the text (`RegistrantDigitsFixed`).
- Backtracking of `\S+\b` stops at the last word boundary inside the run of
  non-whitespace after the `/`, so the match at a start is the longest one
  there (`MatchAt`).
- Every reported match ends on a word character that no other word character
  follows (`MatchDelimiters`). This is the effect of the final `\b` of the
  pattern (`src/doi.rs:11`): trailing punctuation such as `foo).` is not
  captured. `DoiExamples.TrailingPunctuationLeftOut` shows that
  `"see 10.1234/foobar)."` yields `10.1234/foobar`.

## Model

| member | source | states |
|---|---|---|
| CharClasses.IsDigit | src/doi.rs:11 | `\d` of the pattern: an ASCII decimal digit `0`-`9` |
| CharClasses.IsWordChar | src/doi.rs:11 | `\w`, the class that `\b` looks at: an ASCII letter, digit or `_` |
| CharClasses.IsWhitespace | src/doi.rs:11 | `\s`, whose complement is `\S`: space, tab, line feed, vertical tab, form feed or carriage return |
| CharClasses.WordBoundary | src/doi.rs:11 | `\b` at a position: a word character on exactly one side of it, the ends of the text counting as non-word |
| DoiPattern.MatchesWith | src/doi.rs:11 | the pattern itself, read at a start and an end with a registrant code of a given length: `\b`, `10.`, 4 to 9 digits, `/`, one or more non-whitespace characters, `\b`, with `\b` judged in the context of the whole text |
| DoiPattern.IsMatch | src/doi.rs:11 | some way of running the pattern from a start ends at a given end |
| DoiPattern.IsPreferredMatch | src/doi.rs:11 | the leftmost-first choice at one start: of all matches from that start, the one with the greatest end, which greedy `\S+` backtracking reaches first |
| DoiPattern.IsLeftmostMatch | src/doi.rs:25 | what `find` reports: the preferred match at a start before which no match begins |
| DoiPattern.DigitRunLength | src/doi.rs:11 | the greedy `\d` run: every character it covers is a digit and the character after it is not |
| DoiPattern.NonSpaceRunEnd | src/doi.rs:11 | the greedy `\S+` run: every character it covers is non-whitespace and it stops at whitespace or the end of the text |
| DoiPattern.WordRunEnd | src/doi.rs:11 | the run of `\w` characters from a position: every character it covers is a word character and the one after it is not |
| DoiPattern.LastBoundary | src/doi.rs:11 | the backtracking of `\S+\b` settles on the last position of the range where `\b` holds, and finds none exactly when `\b` holds nowhere in it |
| DoiPattern.RegistrantDigitsFixed | src/doi.rs:11 | in any match, the number of digits after `10.` equals the length of the whole digit run there: greedy `\d{4,9}` cannot give digits back onto the `/` |
| DoiPattern.MatchAt | src/doi.rs:11 | at a given start, the matcher returns an end exactly when the pattern matches there, and that end is the longest match from that start, which a leftmost-first engine prefers; it returns nothing exactly when no match starts there |
| DoiPattern.RegistrantOutOfRange | src/doi.rs:11 | after `10.`, a digit run of fewer than 4 or more than 9 digits gives no match at that start |
| DoiPattern.MatchDelimiters | src/doi.rs:11 | a reported match starts at position 0 or after a non-word character; its last character is a word character not followed by another, so trailing punctuation is left out |
| DoiPattern.MatchAtDelimited | src/doi.rs:11 | a match followed by whitespace or by the end of the text is the match reported at its start |
| DoiPattern.ExactMatchInContext | src/doi.rs:11 | a text that is wholly a DOI, placed between non-word characters or text edges, is a match at that position |
| DoiPattern.MatchedTextIsExact | src/doi.rs:26 | the text of a reported match (`mat.as_str()`), cut out of its context, is itself wholly a match of the pattern |
| DoiPattern.FindFrom | src/doi.rs:25 | `find` from a position reports the first start at or after it where the pattern matches, with the preferred end there; it reports nothing only if no later start matches |
| DoiPattern.FindFromSkips | src/doi.rs:11 | every match begins with `1`, so the search passes over text without that character unchanged |
| DoiPattern.FindLeftmost | src/doi.rs:25 | `find` on the whole text fails exactly when the pattern matches nowhere; otherwise it reports the leftmost match in its preferred form |
| DoiPattern.ExtractFrom | src/doi.rs:41 | `find_iter` returns nothing exactly when `find` fails; its first span is `find`'s match; each later span is `find`'s match from the end of the one before; after the last span `find` finds nothing |
| DoiPattern.ExtractFromMatches | src/doi.rs:41 | every span `find_iter` reports lies within the text, is non-empty and is the preferred match at its start |
| DoiPattern.ExtractFromOrdered | src/doi.rs:41 | the spans `find_iter` reports never overlap: each begins at or after the end of every earlier one |
| DoiPattern.ExtractFromCovers | src/doi.rs:41 | no match is lost: every start where the pattern matches lies inside one of the reported spans |
| DoiPattern.DigitRunLengthUnique | src/doi.rs:11 | any maximal run of digits at a position has the length the matcher measures there |
| Errors.Description | src/lib.rs:32-37 | an `InvalidDoi` error describes itself as `"invalid DOI"`, whatever text it carries |
| Errors.Display | src/lib.rs:40-45 | the display message is the carried text, byte for byte, followed by `" is not a valid DOI"` |
| Errors.DisplayRoundTrip | src/lib.rs:43 | the carried text can be read back, unmodified, from the display message |
| Errors.DisplayInjective | src/lib.rs:40-45 | two errors have the same display message exactly when they are equal |
| Errors.ErrorEquality | src/lib.rs:26-30 | two errors are equal exactly when their carried texts are equal |
| Dois.New | src/doi.rs:24-29 | `Doi::new` fails exactly when the pattern matches nowhere in the text, and then carries the input unchanged; on success the DOI's text is the leftmost match, sliced out of the input, and is wholly a match of the pattern |
| Dois.SpansExact | src/doi.rs:41 | the text of every span `find_iter` reports lies within the input and is, cut out on its own, wholly a match of the pattern |
| Dois.Extract | src/doi.rs:40-42 | `Doi::extract` returns one DOI per span `find_iter` reports, in order, each holding the text of its span; every DOI it returns is wholly a match of the pattern on its own |
| Dois.ExtractAgreesWithNew | src/doi.rs:24-42 | `extract` is empty exactly when `new` fails, and otherwise its first DOI equals `new`'s result |
| Dois.ExtractInTextOrder | src/doi.rs:40-42 | the extracted DOIs come from disjoint stretches of the text, in strictly increasing position |
| Dois.ExtractMissesNothing | src/doi.rs:40-42 | every position where a match starts falls inside one of the extracted DOIs |
| Dois.ExtractOfTwoPlaced | src/doi.rs:40-42 | a text laid out as DOI-free text, a DOI, whitespace-led DOI-free text and a final DOI is extracted as exactly those two DOIs, in order |
| Dois.TwoDoisSeparated | src/doi.rs:72-79 | for any two DOIs, any leading text without a `1` that is empty or ends in a non-word character, and any such separator that starts with whitespace, `extract` of the joined text returns exactly the two DOIs, first one first |
| Dois.NewOfExactDoi | src/doi.rs:51-55 | a text that is itself exactly a DOI is returned unchanged by `new` |
| Dois.NewIdempotent | src/doi.rs:24-29 | giving `new` a DOI it returned returns the same DOI |
| Dois.NewTrimsToWordBoundaries | src/doi.rs:11 | the DOI `new` returns is a slice of the input that starts after a non-word character or at the start, and ends on a word character followed by a non-word character or the end |
| Dois.NoDoiWithoutOne | src/doi.rs:24-29 | a text without the character `1` holds no DOI: `new` fails with that text and `extract` is empty |
| DoiExamples.NewReturnsAValidDoi | src/doi.rs:51-55 | `new("10.1038/nplants.2015.3")` returns that DOI unchanged |
| DoiExamples.NewReturnsAnErrIfGivenAnInvalidDoi | src/doi.rs:57-63 | `new("not a DOI")` fails with `InvalidDoi("not a DOI")` |
| DoiExamples.ExtractReturnsADoi | src/doi.rs:65-70 | `extract("I love 10.1038/nplants.2015.3")` is exactly that one DOI |
| DoiExamples.ExtractReturnsMultipleDois | src/doi.rs:72-79 | `extract("I love 10.1038/nplants.2015.3 and 10.1038/nplants.2015.4")` is exactly those two DOIs, in order, as an instance of `Dois.TwoDoisSeparated` |
| DoiExamples.ExtractReturnsAnEmptyVec | src/doi.rs:81-86 | `extract("No DOIs here")` is empty |
| DoiExamples.TrailingPunctuationLeftOut | src/doi.rs:11 | `new("see 10.1234/foobar).")` returns `10.1234/foobar`, without the `).` |
| DoiExamples.ShortCodeRejected | src/doi.rs:11 | a three-digit registrant code (`10.234/foobar`) is not a DOI |
| DoiExamples.LongCodeRejected | src/doi.rs:11 | a ten-digit registrant code (`10.2345678902/foobar`) is not a DOI |

## Left out

- Unicode character classes: the crate's regex uses Unicode `\d`, `\w`, `\s`
  and `\b` by default. The model uses the ASCII classes (`[0-9]`,
  `[0-9A-Za-z_]`, `[\t\n\v\f\r ]`). It agrees with the crate on ASCII text
  only. On other text it treats every non-ASCII character as a non-digit,
  non-word, non-whitespace character.
- Byte offsets: Rust strings are UTF-8 and match positions are byte offsets.
  The model indexes characters. On ASCII text the two are the same.
- The general regex engine and its one-time compilation (`lazy_static`,
  `src/doi.rs:10-12`): the fixed pattern is modelled as pure functions. The
  engine's running time is not modelled.
- `FromStr` and `Display` for `Doi`: the crate documentation shows
  `"…".parse()`, but no such implementation is in the crate's source, so none
  is modelled.
- The `std::error::Error` trait plumbing, the `Clone`/`Debug` derives and the
  `extern crate`/macro declarations: they add no behaviour. The derived
  equality is modelled by Dafny's datatype equality.
- A search that starts beyond the end of the text returns no match in the
  model. `find_iter` never searches from such a position.
