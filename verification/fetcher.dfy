/** The language catalogue of the earlier revision (fetcher.go): a language is just its
    name, and the catalogue is the list of labels `First – Second` read off dict.cc's
    browse page. */
module Fetcher {
  import opened Wrappers
  import opened Text
  import opened Errors
  import Languages

  /** A language, named by its localized and native names. */
  type Language = string

  datatype LanguagePair = LanguagePair(first: Language, second: Language)
  {
    function Swapped(): LanguagePair {
      LanguagePair(second, first)
    }

    /** Order-tolerant equality, by the same swap of the two firsts as the current revision. */
    function Same(other: LanguagePair): (same: bool)
      ensures same <==> other == this || other == Swapped()
    {
      var first1, first2 :=
        if first != other.first then other.first else first,
        if first != other.first then first else other.first;
      (first1 == first2 && second == other.second) || (first1 == second && first2 == other.second)
    }

    /** `{First - Second}`. */
    function String(): (s: string)
      ensures |s| == |first| + |second| + 5
      ensures s[0] == '{' && s[|s| - 1] == '}'
      ensures s[1..|first| + 1] == first
      ensures s[|first| + 1..|first| + 4] == " - "
      ensures s[|first| + 4..|s| - 1] == second
    {
      "{" + first + " - " + second + "}"
    }
  }

  /** The pair named by a label: the two trimmed halves around its only en dash. */
  function GetLanguagePairByString(s: string): (r: Result<LanguagePair>)
    ensures r.Err? <==> multiset(s)[EnDash] != 1
    ensures r.Err? ==> r.error == UnknownLanguageFormat(s)
  {
    match Languages.SplitLanguage(s)
    case Err(e) => Err(e)
    case Ok((first, second)) => Ok(LanguagePair(first, second))
  }

  /** A label that parses names the two trimmed halves around its en dash. */
  lemma PairIsTrimmedHalves(s: string)
    requires GetLanguagePairByString(s).Ok?
    ensures exists k :: (0 <= k < |s| && s[k] == EnDash
      && GetLanguagePairByString(s).value == LanguagePair(TrimSpace(s[..k]), TrimSpace(s[k + 1..])))
  {
  }

  /** Which pair is the receiver does not matter. */
  lemma SameIsSymmetric(a: LanguagePair, b: LanguagePair)
    ensures a.Same(b) <==> b.Same(a)
  {
  }

  /** A label made of two names without en dashes reads back as the trimmed names. */
  lemma PairOfLabel(a: string, b: string)
    requires EnDash !in a && EnDash !in b
    ensures GetLanguagePairByString(a + [EnDash] + b) == Ok(LanguagePair(TrimSpace(a), TrimSpace(b)))
  {
    Languages.SplitLanguageOfTwo(a, b);
  }

  // ---------------------------------------------------------------- the catalogue

  /** The outcome of parsing each label, in page order. */
  function ParseAll(texts: seq<string>): seq<Result<LanguagePair>> {
    seq(|texts|, i requires 0 <= i < |texts| => GetLanguagePairByString(texts[i]))
  }

  /** Glue, not a property: the element facts of the comprehension in `ParseAll`, stated once
      so that the loop of `GetLanguages` and `GetLanguagesOutcome` stay cheap to verify. */
  lemma ParseAllAt(texts: seq<string>)
    ensures |ParseAll(texts)| == |texts|
    ensures forall i :: 0 <= i < |texts| ==> ParseAll(texts)[i] == GetLanguagePairByString(texts[i])
  {
  }

  /** The pairs of the outcomes that succeeded, in order. */
  function ParsedPairs(results: seq<Result<LanguagePair>>): (r: seq<LanguagePair>)
    ensures |r| <= |results|
  {
    if results == [] then []
    else
      var last := results[|results| - 1];
      ParsedPairs(results[..|results| - 1]) + (if last.Ok? then [last.value] else [])
  }

  /** The error of the last outcome that failed, if any. */
  function LastFailure(results: seq<Result<LanguagePair>>): Option<Error> {
    if results == [] then None
    else
      var last := results[|results| - 1];
      if last.Err? then Some(last.error) else LastFailure(results[..|results| - 1])
  }

  /** `GetLanguages`: the texts of the selected links of the fetched page are parsed one by
      one; a label that does not parse records its error, which a later failure replaces,
      and the catalogue is returned only when no label failed. A failed fetch is passed on. */
  method GetLanguages(document: Result<seq<string>>) returns (r: Result<seq<LanguagePair>>)
    ensures document.Err? ==> r == Err(document.error)
    ensures document.Ok? && LastFailure(ParseAll(document.value)).Some? ==>
      r == Err(LastFailure(ParseAll(document.value)).value)
    ensures document.Ok? && LastFailure(ParseAll(document.value)).None? ==>
      r == Ok(ParsedPairs(ParseAll(document.value)))
  {
    if document.Err? {
      return Err(document.error);
    }
    var texts := document.value;
    ghost var results := ParseAll(texts);
    ParseAllAt(texts);
    var pairs: seq<LanguagePair> := [];
    var langErr: Option<Error> := None;
    var i := 0;
    while i < |texts|
      invariant 0 <= i <= |texts|
      invariant pairs == ParsedPairs(results[..i])
      invariant langErr == LastFailure(results[..i])
    {
      var lang := GetLanguagePairByString(texts[i]);
      assert lang == results[i];
      OutcomeStep(results, i);
      if lang.Err? {
        langErr := Some(lang.error);
      } else {
        pairs := pairs + [lang.value];
      }
      i := i + 1;
    }
    assert results[..i] == results;
    if langErr.Some? {
      return Err(langErr.value);
    }
    return Ok(pairs);
  }

  /** One more outcome extends the pairs and the recorded failure. */
  lemma OutcomeStep(results: seq<Result<LanguagePair>>, i: nat)
    requires i < |results|
    ensures ParsedPairs(results[..i + 1])
         == ParsedPairs(results[..i]) + (if results[i].Ok? then [results[i].value] else [])
    ensures LastFailure(results[..i + 1])
         == if results[i].Err? then Some(results[i].error) else LastFailure(results[..i])
  {
    assert results[..i + 1][..i] == results[..i];
    assert results[..i + 1][i] == results[i];
  }

  /** No failure is recorded exactly when every outcome succeeded. */
  lemma {:induction false} LastFailureNone(results: seq<Result<LanguagePair>>)
    ensures LastFailure(results).None? <==> forall i :: 0 <= i < |results| ==> results[i].Ok?
  {
    if results != [] {
      var init := results[..|results| - 1];
      LastFailureNone(init);
      assert forall i :: 0 <= i < |init| ==> init[i] == results[i];
    }
  }

  /** The recorded failure is the error of an outcome after which every outcome succeeded. */
  lemma {:induction false} LastFailureIsLast(results: seq<Result<LanguagePair>>)
    requires LastFailure(results).Some?
    ensures exists i :: (0 <= i < |results| && results[i] == Err(LastFailure(results).value)
      && (forall j :: i < j < |results| ==> results[j].Ok?))
  {
    var n := |results|;
    var init := results[..n - 1];
    if results[n - 1].Err? {
      assert results[n - 1] == Err(LastFailure(results).value);
    } else {
      LastFailureIsLast(init);
      var i :| 0 <= i < |init| && init[i] == Err(LastFailure(init).value)
        && (forall j :: i < j < |init| ==> init[j].Ok?);
      assert results[i] == Err(LastFailure(results).value) by {
        assert init[i] == results[i];
      }
      assert forall j :: i < j < n ==> results[j].Ok? by {
        assert forall j :: i < j < n - 1 ==> init[j] == results[j];
      }
    }
  }

  /** When every outcome succeeded, there is one pair per outcome, in order. */
  lemma {:induction false} ParsedPairsAll(results: seq<Result<LanguagePair>>)
    requires forall i :: 0 <= i < |results| ==> results[i].Ok?
    ensures |ParsedPairs(results)| == |results|
    ensures forall i :: 0 <= i < |results| ==> ParsedPairs(results)[i] == results[i].value
  {
    if results != [] {
      var init := results[..|results| - 1];
      assert forall i :: 0 <= i < |init| ==> init[i] == results[i];
      ParsedPairsAll(init);
    }
  }

  /** The catalogue, when there is one, holds the pair of every label in page order; an
      error is the one of the last label that does not parse. */
  lemma GetLanguagesOutcome(texts: seq<string>)
    ensures LastFailure(ParseAll(texts)).None? <==>
      forall i :: 0 <= i < |texts| ==> GetLanguagePairByString(texts[i]).Ok?
    ensures LastFailure(ParseAll(texts)).None? ==>
      |ParsedPairs(ParseAll(texts))| == |texts|
      && forall i :: 0 <= i < |texts| ==>
           ParsedPairs(ParseAll(texts))[i] == GetLanguagePairByString(texts[i]).value
    ensures LastFailure(ParseAll(texts)).Some? ==>
      exists i :: 0 <= i < |texts|
        && GetLanguagePairByString(texts[i]) == Err(LastFailure(ParseAll(texts)).value)
        && (forall j :: i < j < |texts| ==> GetLanguagePairByString(texts[j]).Ok?)
  {
    var results := ParseAll(texts);
    ParseAllAt(texts);
    LastFailureNone(results);
    if LastFailure(results).None? {
      ParsedPairsAll(results);
    } else {
      LastFailureIsLast(results);
    }
  }

  // ---------------------------------------------------------------- examples

  /** How the tests print a pair. */
  lemma StringExample()
    ensures LanguagePair("German", "English").String() == "{German - English}"
  {
  }

  /** The pairs the tests compare. */
  lemma SameExamples()
    ensures LanguagePair("German", "English").Same(LanguagePair("English", "German"))
    ensures LanguagePair("English", "German").Same(LanguagePair("German", "English"))
    ensures !LanguagePair("German", "English").Same(LanguagePair("German", "Spanish"))
    ensures !LanguagePair("German", "Spanish").Same(LanguagePair("German", "English"))
  {
    assert "English" != "Spanish" by { assert "English"[0] != "Spanish"[0]; }
    assert "German" != "English" by { assert "German"[0] != "English"[0]; }
  }
}
