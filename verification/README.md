# dict-cc language pairs, modelled in Dafny

The command-line client for dict.cc keeps a catalogue of language pairs. Each pair is two
languages, for example Deutsch–English. The client reads the catalogue off dict.cc's home page
and caches it on disk as a small versioned JSON record. The catalogue appears in two revisions
of the client:

- `languages.go` is the current revision. A language is a name with a two-letter code.
  - A pair is read from the address of a link (`http://ende.dict.cc`) and from the link's text.
  - The catalogue is saved to disk and loaded back.
- `fetcher.go` is the earlier revision. A language is just its name.
  - A pair is read from a label `First – Second`, which is split at its en dash (U+2013).

The two revisions redefine the same names, so each has its own module:

| file | module | what it holds |
|---|---|---|
| `languages.dfy` | `Languages` | the current revision: `Same`, `String`, `getAbbrev`, `splitLangauge`, `getLanguagePairFromString`, and the extraction loop of `GetLanguagesFromRemote` as a method with invariants |
| `language_cache.dfy` | `LanguageCache` | `languageFileFormat`, `SaveLanguagesToDisk`, `LoadLanguagesFromDisk` |
| `fetcher.dfy` | `Fetcher` | the earlier revision: `Same`, `String`, `getLanguagePairByString`, and the loop of `GetLanguages` as a method. The label split of fetcher.go:78-86 is the same as that of languages.go:200-207, so `Fetcher` reuses `Languages.SplitLanguage` rather than repeat it; this is the only dependency of the earlier revision on the later one |
| `text.dfy` | `Text` | Go's `strings.TrimSpace`, and `strings.Split` on a one-character separator |
| `json.dfy` | `Json` | the part of Go's `encoding/json` the cache relies on: the encoder's text and the decoder's scanner |
| `errors.dfy`, `decimal.dfy`, `wrappers.dfy` | `Errors`, `Decimal`, `Wrappers` | the errors with their exact texts, decimal printing, `Option` |

The extraction works on links that have already been selected from the page. Each anchor
language has one column of `(optional href, text)` nodes, and the columns come in a given order.

Loading follows Go's decoder in two stages:

1. The first JSON value of the text is scanned. Anything after it is left unread. Text that is
   not a JSON value leaves the record at its zero value and reports an error.
2. The value is stored into the record field by field. A part of the wrong type is recorded as
   an error and leaves its field unchanged, and decoding goes on with the rest.
   - Keys match fields regardless of ASCII case. Unknown keys are skipped.
   - `null` changes nothing, except that it empties a slice.
   - An array element is stored into the slice's existing element when there is one.

Some behaviour of `languages.go` worth knowing, modelled as the code has it:

- The extraction does not stop at the first parsing error (languages.go:141). It visits every
  link and reports the last error.
- Loading refuses a record of another version only when decoding also reported an error
  (languages.go:85).
- A code taken from a name is its first two characters as they are, not lowercased.
- Pairs are not deduplicated.

## Model

| member | source | states |
|---|---|---|
| Languages.LanguagePair.Same | languages.go:63-74 | two pairs are the same exactly when they are equal or one is the other swapped |
| Languages.SameIsEquivalence | languages.go:63-74 | `Same` is reflexive, symmetric and transitive |
| Languages.SameNeedsBothLanguages | languages.go:63-74 | pairs with the same first language and different second ones are not the same, in either order |
| Languages.LanguagePair.String | languages.go:76-78 | a pair prints as `{`, the first name, ` - `, the second name, `}`; each language prints as its name, as `Language.String` at languages.go:49-51 does |
| Languages.GetAbbrev | languages.go:173-184 | an error naming the matches unless there are exactly two codes; otherwise the second code when the first is the anchor's, else the first; the result is never the anchor's code when the codes differ |
| Languages.SplitLanguage | languages.go:199-210 | succeeds exactly when the label has one en dash; then gives the trimmed text before and after that dash; otherwise the unknown-format error quoting the label |
| Languages.SplitLanguageOfTwo | languages.go:199-210 | two dash-free names joined by an en dash split back into the two trimmed names |
| Languages.SplitLanguageWithoutDash | languages.go:199-204 | a label without an en dash is refused with the text `Unkown language format: '<label>'. Are you using the latest version?` |
| Languages.GetLanguagePairFromString | languages.go:186-197 | fails exactly when the split fails; otherwise the names are the trimmed halves, and each code is the first two characters of its name |
| Languages.ClassifyLink | languages.go:28-29 | the three kinds of address the callback at languages.go:151-160 tells apart: a pair page gives two codes of two ASCII letters each; otherwise the address is the home page exactly when it starts with `http://www.dict.cc` |
| Languages.HasPrefixIsPrefix | languages.go:28-29 | the prefix test used for the two link patterns is a test that the link starts with the pattern's text |
| Languages.ClassifyLinkSound | languages.go:28-29 | a pair link is `http://`, two two-letter codes and `.dict.cc`, then anything; a home-page link is `http://www.dict.cc`, then anything |
| Languages.ClassifyCodes | languages.go:28 | every `http://` + four ASCII letters + `.dict.cc` address is a pair link, and the letters give its two codes |
| Languages.ClassifyHomePage | languages.go:29 | every address starting `http://www.dict.cc` is the home page |
| Languages.NodeError | languages.go:145-162 | a link raises an error exactly when it has no address (error 1) or its address matches neither pattern (error 2) |
| Languages.NodePairsShape | languages.go:151-159 | a link contributes one pair exactly when it is a pair link: the anchor, and a language named by the trimmed link text whose code is the one `getAbbrev` picks |
| Languages.Visit | languages.go:140-163 | the callback appends the link's pair, if any, and overwrites the recorded error with the link's error, if any |
| Languages.GetLanguagesFromRemote | languages.go:120-171 | no response gives the nil-response error; otherwise the result is the extraction of all links of all columns, column after column |
| Languages.VisitColumn | languages.go:139-163 | visiting one column's links in order appends that column's pairs, and replaces the recorded error by the column's last error when it has one, keeping the earlier one otherwise |
| Languages.ColumnStep | languages.go:138-164 | after one more column the running pairs and error are those of all links visited so far |
| Languages.LastErrorAppend | languages.go:141-162 | over two runs of links, the error recorded last is the second run's last error when it has one, otherwise the first run's |
| Languages.ItemsStep | languages.go:140-163 | one more link of a column extends the running pairs and error by that link's contribution |
| Languages.FlattenStep | languages.go:138-164 | finishing a column appends all its links to those already visited |
| Languages.LastErrorNone | languages.go:166-168 | the extraction records no error exactly when no link raises one |
| Languages.LastErrorIsLast | languages.go:141-168 | the error reported is the error of a link after which no link raises one: the last error wins |
| Languages.ContributionsAppend | languages.go:138-164 | the pairs of two runs of links are the pairs of the first run, then those of the second |
| Languages.OnePairPerLink | languages.go:151-159 | when every link is a pair link, there is exactly one pair per link, in link order: the column's anchor, and a language named by the link's trimmed text and coded by the code of the address that is not the anchor's |
| Languages.HomePagesAddNothing | languages.go:145-162 | links to the home page and links that raise an error add no pair: the pairs are those of the pair links alone |
| Languages.CatalogueOfPairLinks | languages.go:137-170 | a successful extraction is the seed followed by exactly one pair per pair link, in link order, each pinned down as above |
| Languages.Extraction | languages.go:137-170 | what the extraction returns: success exactly when no link raises an error; the result is then the Deutsch/de–English/en seed followed by the links' pairs in order; otherwise it is the error recorded last |
| Languages.ExtractionStoppingAtError | languages.go:141-143 | the extraction with the guard testing the recorded error fails exactly when the extraction as written fails, and then reports the first error instead of the last; when it succeeds its result is the as-written one |
| Languages.FirstLastAgree | languages.go:141-168 | a first error exists exactly when a last error does |
| Languages.FirstErrorNone | languages.go:141-168 | there is no first error exactly when no link raises one |
| Languages.FirstErrorIsFirst | languages.go:141-168 | the first error is that of a link before which no link raises one |
| Languages.LastErrorHidesFirst | languages.go:141-162 | a link without an address followed by an unrecognised one: the code as written reports error 2, the guarded version error 1 |
| LanguageCache.LanguageText | languages.go:44-47 | a language (`LanguageToJson`) is written as `{"Name":…,"Abbrev":…}`: its fields in declaration order under their Go names |
| LanguageCache.PairText | languages.go:53-56 | a pair (`PairToJson`) is written as `{"First":…,"Second":…}`, each language as above |
| LanguageCache.FileText | languages.go:58-61 | the record (`FileToJson`) is written as `{"Version":…,"Pairs":…}`, the version in decimal, and no pairs as `null` |
| LanguageCache.SaveLanguages | languages.go:92-97 | the text written ends with the encoder's newline and decodes, without error, to the record of version 2 holding exactly the pairs given |
| LanguageCache.StorePairs | languages.go:58-61 | an array gives a slice as long as the array; `null` gives no pairs; any other value is a type error and leaves the slice unchanged |
| LanguageCache.StorePairsArray | languages.go:58-61 | for an array, element i of the slice is array element i stored into the slice's old element i, or into a zero pair past its end; decoding is clean exactly when every element stored cleanly |
| LanguageCache.StorePairItems | languages.go:58-61 | the decoded slice has one element per array element |
| LanguageCache.StorePairItemsElements | languages.go:58-61 | element i of the decoded slice is array element i stored into the prior slice's element i, or into a zero pair past its end; the elements decode cleanly exactly when each one does |
| LanguageCache.DecodeFile | languages.go:82-85 | text that is not a JSON value leaves the zero record and reports an error |
| LanguageCache.LoadLanguages | languages.go:80-90 | the cache is refused with the outdated-file error exactly when decoding reported an error and the decoded version is not 2; otherwise the decoded pairs are returned |
| LanguageCache.LoadLanguagesChecked | languages.go:84-87 | the corrected load returns the decoded pairs exactly when decoding was clean and the version is 2, and otherwise the outdated-file error |
| LanguageCache.StoreLanguageReadsBack | languages.go:44-47 | a saved language decodes back into any language value |
| LanguageCache.StorePairReadsBack | languages.go:53-56 | a saved pair decodes back into any pair value |
| LanguageCache.StorePairItemsReadBack | languages.go:58-61 | saved pairs decode back into any slice, whatever it held before |
| LanguageCache.StoreFileReadsBack | languages.go:58-61 | a record whose version fits an `int` decodes back exactly, without error |
| LanguageCache.DecodeSaved | languages.go:81-97 | the encoder's text for a record, followed by its newline, decodes to the same record without error |
| LanguageCache.LoadSaved | languages.go:81-97 | loading what `SaveLanguagesToDisk` wrote gives back the same pairs in the same order, both as written and corrected |
| LanguageCache.StaleVersionLoads | languages.go:84-89 | as written, a well-formed record with any other version loads as if current; the corrected load refuses it |
| LanguageCache.StringPairsFileLoads | languages.go:85-89 | a record of the earlier revision, whose languages are strings, is refused when its version is not 2; with version 2 it loads as one pair of empty languages |
| Fetcher.LanguagePair.Same | fetcher.go:30-41 | two pairs of names are the same exactly when they are equal or one is the other swapped |
| Fetcher.SameIsSymmetric | fetcher.go:30-41 | `Same` does not depend on which pair is the receiver |
| Fetcher.LanguagePair.String | fetcher.go:43-45 | a pair prints as `{`, the first name, ` - `, the second name, `}` |
| Fetcher.GetLanguagePairByString | fetcher.go:77-89 | fails exactly when the label does not have exactly one en dash, with the unknown-format error quoting the label |
| Fetcher.PairIsTrimmedHalves | fetcher.go:85-88 | a parsed pair is the trimmed text before and after the label's en dash, in that order |
| Fetcher.PairOfLabel | fetcher.go:77-89 | two dash-free names joined by an en dash read back as the pair of the trimmed names |
| Fetcher.GetLanguages | fetcher.go:49-75 | a failed fetch is passed on; otherwise the last parse error if any, else the pairs of all texts |
| Fetcher.OutcomeStep | fetcher.go:59-68 | one more link text appends its pair when it parses, and otherwise replaces the recorded error by its own |
| Fetcher.LastFailureNone | fetcher.go:70-74 | no error is recorded exactly when every text parses |
| Fetcher.LastFailureIsLast | fetcher.go:60-72 | the error returned is that of a text after which every text parses |
| Fetcher.ParsedPairsAll | fetcher.go:56-68 | when every text parses there is one pair per text, in text order |
| Fetcher.GetLanguagesOutcome | fetcher.go:56-74 | the catalogue succeeds exactly when every label parses; it then holds each label's pair in page order; otherwise it reports the last failing label's error |
| Fetcher.StringExample | fetcher_test.go:29-32 | `{German - English}` is how the German–English pair prints |
| Fetcher.SameExamples | fetcher_test.go:34-53 | German–English is the same as English–German, in both directions, and not the same as German–Spanish |
| Errors.Message | languages.go:33-34 | the error texts: the parsing error (languages.go:33-34) ends with its id in decimal; the unknown-format error (languages.go:202-203, fetcher.go:81-82) quotes the label whole and ends with `'. Are you using the latest version?`; the match-count error of languages.go:175 shows the matches in brackets; the outdated-file error is the sentence of languages.go:17-18; no response gives `Response is nil pointer`; a fetch error keeps its own text |
| Errors.ParsingErrorMessages | languages.go:113-116 | two parsing errors have the same message exactly when they have the same id |
| Decimal.IntToString | languages.go:33-34 | an integer prints as an optional minus followed by its decimal digits, and the digits read back as its magnitude |
| Decimal.IntToStringInjective | languages.go:113-116 | different integers print differently |
| Text.TrimSpace | languages.go:206-207 | the trimmed text is a slice of the input with only whitespace cut from either end, and starts and ends with non-whitespace |
| Text.Split | languages.go:200 | splitting at a character gives one more part than its occurrences; no part contains it; joining the parts with it gives the input back |
| Text.SplitInTwo | languages.go:200-201 | a text with one separator splits into the text before it and the text after it |
| Text.SplitOfTwo | languages.go:200 | two separator-free texts joined by the separator split back into the two texts |
| Json.SerializeReadsBack | languages.go:85-96 | the encoder's text for any value, followed by anything that cannot continue a number, is scanned back as that value, and the rest is left unread |
| Json.QuoteReadsBack | languages.go:85-96 | an escaped string reads back as itself, whatever follows its closing quote |
| Json.IntReadsBack | languages.go:85-96 | an integer's text reads back as the integer |
| Json.NegativeReadsBack | languages.go:85-96 | a minus sign followed by a natural number's digits reads back as the negated number |
| Json.DigitsReadBack | languages.go:85-96 | a natural number's digits, followed by anything that cannot continue a number, read back as the number |
| Json.HexEscapeReadsBack | languages.go:85-96 | the four hexadecimal digits the encoder writes after `\u` read back as the escaped character |
| Json.EscapeCharReadsBack | languages.go:85-96 | every character escaped by the encoder, including `<`, `>`, `&` and U+2028/U+2029, reads back as itself |

## Left out

- The HTML side is not modelled: fetching the page, goquery's parsing and the CSS selectors.
  - The extraction takes the selected links as its input, one column per anchor language.
  - The earlier revision takes the link texts as its input, and a failed fetch as an error passed through.
  - `Fetcher.GetLanguages`: the fetch at fetcher.go:50 is not modelled.
- Languages.GetLanguagesFromRemote: the order of the columns is a parameter, because Go's iteration over the `pairPathes` map is randomised.
- Languages.GetLanguagesFromRemote: the model accepts any number of columns with any anchors. The code always has exactly two, {English, en} and {Deutsch, de}; the generalisation covers that case.
- Languages.GetLanguagesFromRemote: the nil-response error, which comes from goquery, is modelled as the `None` input. Other document errors cannot occur once the nodes are given.
- The panic at languages.go:155 is not modelled. `getAbbrev` always gets the regex's two captures there, so it never fails; `Languages.NodePairsShape` shows the code it picks.
- Languages.GetLanguagePairFromString: it requires both trimmed names to have at least two characters. Go's `firstS[:2]` panics only for a name shorter than two bytes, so the requires also excludes a name of one non-ASCII character (such as `Ä`), which Go accepts.
- Languages.GetLanguagePairFromString: Go slices two bytes and the model takes two characters. The codes differ whenever either of the first two characters of a name is non-ASCII (for `Türkçe`, Go takes `T` and half of `ü`; the model takes `Tü`).
- Text.TrimSpace: whitespace is Go's `unicode.IsSpace` set, written out as a predicate. Text is a sequence of Unicode scalar values, so invalid UTF-8 is not modelled.
- The model does not distinguish a nil slice from an empty one. `LanguageCache.SaveLanguages` writes no pairs as `null`, as for a nil slice. Loading `[]` and `null` both give no pairs.
- LanguageCache.SaveLanguages: the error the writer may return from `Encode` is not modelled. Neither is reading from a failing reader.
- LanguageCache.DecodeFile: keys are matched by ASCII case folding. Non-ASCII case folding of keys, which depends on the Go release, is not modelled.
- Json.EscapeChar: backspace and form feed are written as `\u0008` and `\u000c`, as Go's encoder did before release 1.22; later releases write `\b` and `\f`. The bytes written depend on the Go release; what is read back does not.
- LanguageCache.DecodeFile: only whether an error happened is kept, not which one. `LoadLanguagesFromDisk` only tests it against nil.
- Json: numbers with a fraction or an exponent carry no value, because the record holds only integers. Storing one into an `int` is a type error in Go as in the model.
- Json: the decoder's handling of invalid UTF-8 is not modelled.
- Json: the decoder's nesting-depth limit is not modelled.
- Errors.Message: for a fetch error, the message is the transport's own text, which is a parameter.
- The debug output `fmt.Println(split)` at fetcher.go:80 is not modelled.
- commandline.go, main.go, matches.go and the test helpers are not part of this model.
  - They cover the command line, file and directory handling, and HTTP helpers.
  - `FindResult` in matches.go is a stub.
- The tests are read as statements of intent only. `languages_test.go` is written against the earlier string-valued `Language`, and its expected outputs are those of that revision.

## Findings

| source | as written | input that shows it | evidently intended | confidence | as-written member | corrected member |
|---|---|---|---|---|---|---|
| languages.go:85 | the cache is refused only when decoding fails **and** the version is not 2 | a well-formed record with `"Version":1` loads without error; a record of string-valued languages with `"Version":2` loads as one pair of empty languages | refuse the cache when decoding fails **or** the version is not 2 | medium, not executed | LanguageCache.LoadLanguages (shown by LanguageCache.StaleVersionLoads and LanguageCache.StringPairsFileLoads) | LanguageCache.LoadLanguagesChecked (LanguageCache.LoadSaved, LanguageCache.StaleVersionLoads) |
| languages.go:141 | the guard in the callback tests `err`, the document error, which is always nil there, so every link is visited and the last error wins | a link without `href` (error 1) followed by a link to `ftp://x` (error 2) reports error 2 | stop at the first recorded error (`langErr != nil`) and report it | low, not executed | Languages.GetLanguagesFromRemote, Languages.LastErrorIsLast, Languages.LastErrorHidesFirst | Languages.ExtractionStoppingAtError, Languages.FirstErrorIsFirst |
