/** The errors the language-pair code returns, with the text Go prints for each. */
module Errors {
  import Decimal

  datatype Error =
    | UnknownLanguageFormat(input: string)   // a language label without exactly one en dash
    | ParsingError(id: int)                  // `makeParsingError(id)`: the page layout changed
    | MatchCount(matches: seq<string>)       // `getAbbrev` given other than two codes
    | OutdatedLanguageFile                   // `ErrOutdatedLanguageFile`
    | NilResponse                            // the HTML reader was handed no response
    | Transport(reason: string)              // a failed fetch, passed through unchanged

  /** The value-or-error pair that the Go functions return. */
  datatype Result<+T> = Ok(value: T) | Err(error: Error)

  /** Go's `%v` rendering of a `[]string`: the elements separated by spaces, in brackets. */
  function Brackets(items: seq<string>): string {
    "[" + Spaced(items) + "]"
  }

  function Spaced(items: seq<string>): string {
    if items == [] then ""
    else if |items| == 1 then items[0]
    else items[0] + " " + Spaced(items[1..])
  }

  const ParsingErrorPrefix := "There was an error parsing the page. Are you using the latest version? (Error-ID: "

  const UnknownFormatPrefix := "Unkown language format: '"

  /** The text of each error, as Go's `Error()` returns it: a label that could not be split is
      quoted back whole, a parsing error ends with its id in decimal, a failed fetch keeps its
      own text, and the outdated-file error is the fixed sentence of `ErrOutdatedLanguageFile`. */
  function Message(e: Error): (m: string)
    ensures e.UnknownLanguageFormat? ==>
      |m| > |UnknownFormatPrefix| + |e.input| && m[..|UnknownFormatPrefix|] == UnknownFormatPrefix
      && m[|UnknownFormatPrefix|..|UnknownFormatPrefix| + |e.input|] == e.input
      && m[|UnknownFormatPrefix| + |e.input|..] == "'. Are you using the latest version?"
    ensures e.ParsingError? ==>
      |m| > |ParsingErrorPrefix| && m[..|ParsingErrorPrefix|] == ParsingErrorPrefix
      && m[|ParsingErrorPrefix|..|m| - 1] == Decimal.IntToString(e.id) && m[|m| - 1] == ')'
    ensures e.MatchCount? ==> m == "Too many/few matches given (matches: " + Brackets(e.matches) + ")."
    ensures e.OutdatedLanguageFile? ==> m == "The language pair file needs updating."
    ensures e.NilResponse? ==> m == "Response is nil pointer"
    ensures e.Transport? ==> m == e.reason
  {
    match e
    case UnknownLanguageFormat(input) =>
      Framed(UnknownFormatPrefix, input, "'. Are you using the latest version?");
      UnknownFormatPrefix + input + "'. Are you using the latest version?"
    case ParsingError(id) =>
      Framed(ParsingErrorPrefix, Decimal.IntToString(id), ")");
      ParsingErrorPrefix + Decimal.IntToString(id) + ")"
    case MatchCount(matches) => "Too many/few matches given (matches: " + Brackets(matches) + ")."
    case OutdatedLanguageFile => "The language pair file needs updating."
    case NilResponse => "Response is nil pointer"
    case Transport(reason) => reason
  }

  /** Where the middle of three joined texts sits. */
  lemma Framed(p: string, x: string, q: string)
    ensures |p + x + q| == |p| + |x| + |q|
    ensures (p + x + q)[..|p|] == p
    ensures (p + x + q)[|p|..|p| + |x|] == x
    ensures (p + x + q)[|p| + |x|..] == q
  {
  }

  /** The parsing errors of different sites print differently, so the message names the site. */
  lemma ParsingErrorMessages(a: int, b: int)
    ensures Message(ParsingError(a)) == Message(ParsingError(b)) <==> a == b
  {
    Decimal.IntToStringInjective(a, b);
  }
}
