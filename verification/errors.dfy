/** The library's single error kind, with its description and display message. */
module Errors {
  import opened Wrappers

  /** The possible error conditions when building an identifier. */
  datatype Error = InvalidDoi(text: string)

  /** What the display message appends to the offending text. */
  const NotValidSuffix: string := " is not a valid DOI"

  /** `description()`: the same fixed phrase whatever text the error carries. */
  function Description(e: Error): (d: string)
    ensures d == "invalid DOI"
  {
    match e
    case InvalidDoi(_) => "invalid DOI"
  }

  /** `Display`: the offending text, unmodified, followed by the suffix. */
  function Display(e: Error): (m: string)
    ensures |m| == |e.text| + |NotValidSuffix|
    ensures m[..|e.text|] == e.text
    ensures m[|e.text|..] == NotValidSuffix
  {
    match e
    case InvalidDoi(text) => text + NotValidSuffix
  }

  /** Reads a display message back into the error it came from, if it is one. */
  function ParseDisplay(m: string): (r: Option<Error>)
    ensures r.Some? ==> Display(r.value) == m
    ensures r.None? ==> forall e: Error :: Display(e) != m
  {
    if |NotValidSuffix| <= |m| && m[|m| - |NotValidSuffix|..] == NotValidSuffix then
      Some(InvalidDoi(m[..|m| - |NotValidSuffix|]))
    else
      None
  }

  /** The carried text can always be recovered from the display message. */
  lemma DisplayRoundTrip(e: Error)
    ensures ParseDisplay(Display(e)) == Some(e)
  {
    var m := Display(e);
    assert m[|m| - |NotValidSuffix|..] == NotValidSuffix;
    assert m[..|m| - |NotValidSuffix|] == e.text;
  }

  /** Two errors display the same message exactly when they are equal. */
  lemma DisplayInjective(a: Error, b: Error)
    ensures Display(a) == Display(b) <==> a == b
  {
    if Display(a) == Display(b) {
      DisplayRoundTrip(a);
      DisplayRoundTrip(b);
    }
  }

  /** The derived equality: two errors are equal exactly when they carry the same text. */
  lemma ErrorEquality(a: Error, b: Error)
    ensures a == b <==> a.text == b.text
  {
  }
}
