/** The on-disk cache of the language pairs (languages.go): a record `{Version, Pairs}`
    written with Go's JSON encoder and read back with Go's JSON decoder, which stores a
    document into an existing Go value field by field. */
module LanguageCache {
  import opened Wrappers
  import opened Errors
  import opened Json
  import opened Languages
  import Decimal

  /** The version every saved file carries. */
  const FileVersion: int := 2

  /** Go's `int` on a 64-bit platform. */
  const IntMin: int := -0x8000_0000_0000_0000
  const IntMax: int := 0x7FFF_FFFF_FFFF_FFFF

  datatype LanguageFile = LanguageFile(version: int, pairs: seq<LanguagePair>)

  const NoLanguage: Language := Language("", "")
  const NoPair: LanguagePair := LanguagePair(NoLanguage, NoLanguage)
  const NoFile: LanguageFile := LanguageFile(0, [])

  // ---------------------------------------------------------------- saving

  /** A language is written as an object of its two fields, in declaration order, each
      under its Go field name. */
  function LanguageToJson(l: Language): Json {
    JObject([Member("Name", JString(l.name)), Member("Abbrev", JString(l.abbrev))])
  }

  /** A pair is written as an object of its two languages, first then second. */
  function PairToJson(p: LanguagePair): Json {
    JObject([Member("First", LanguageToJson(p.first)), Member("Second", LanguageToJson(p.second))])
  }

  /** The slice of pairs; no pairs are written as `null`, as for a nil slice. */
  function PairsToJson(pairs: seq<LanguagePair>): Json {
    if pairs == [] then JNull else JArray(PairItems(pairs))
  }

  function PairItems(pairs: seq<LanguagePair>): (r: seq<Json>)
    ensures |r| == |pairs|
  {
    if pairs == [] then [] else [PairToJson(pairs[0])] + PairItems(pairs[1..])
  }

  /** The record is written as an object of its version number and its pairs, in that order;
      no pairs are written as `null`. */
  function FileToJson(f: LanguageFile): Json {
    JObject([Member("Version", JNumber(f.version)), Member("Pairs", PairsToJson(f.pairs))])
  }

  /** The text of a language: its two fields in declaration order, each under its Go field name. */
  lemma LanguageText(l: Language)
    ensures Serialize(LanguageToJson(l))
         == "{" + (Quote("Name") + ":" + Quote(l.name)) + ("," + (Quote("Abbrev") + ":" + Quote(l.abbrev))) + "}"
  {
    TwoMemberText("Name", JString(l.name), "Abbrev", JString(l.abbrev));
  }

  /** The text of a pair: its first language, then its second. */
  lemma PairText(p: LanguagePair)
    ensures Serialize(PairToJson(p))
         == "{" + (Quote("First") + ":" + Serialize(LanguageToJson(p.first)))
          + ("," + (Quote("Second") + ":" + Serialize(LanguageToJson(p.second)))) + "}"
  {
    TwoMemberText("First", LanguageToJson(p.first), "Second", LanguageToJson(p.second));
  }

  /** The text of the record: its version number, then its pairs, `null` when there are none. */
  lemma FileText(f: LanguageFile)
    ensures Serialize(FileToJson(f))
         == "{" + (Quote("Version") + ":" + Decimal.IntToString(f.version))
          + ("," + (Quote("Pairs") + ":" + Serialize(PairsToJson(f.pairs)))) + "}"
    ensures f.pairs == [] ==> Serialize(PairsToJson(f.pairs)) == "null"
  {
    TwoMemberText("Version", JNumber(f.version), "Pairs", PairsToJson(f.pairs));
  }

  /** The text `SaveLanguagesToDisk` writes: the record in the current version, then the
      newline the encoder ends each value with. It decodes, without error, to the record of
      the current version holding the pairs given. */
  function SaveLanguages(pairs: seq<LanguagePair>): (text: string)
    ensures text != [] && text[|text| - 1] == '\n'
    ensures DecodeFile(text) == Decoded(LanguageFile(FileVersion, pairs), true)
  {
    DecodeSaved(LanguageFile(FileVersion, pairs));
    Serialize(FileToJson(LanguageFile(FileVersion, pairs))) + "\n"
  }

  // ---------------------------------------------------------------- loading

  /** A value stored into an existing one, and whether every part of the document had
      the type its destination needs. A part of the wrong type leaves its destination as
      it was, and decoding goes on with the rest. */
  datatype Decoded<T> = Decoded(value: T, ok: bool)

  /** A number into an `int`: it must be an integer literal that fits; `null` changes nothing. */
  function StoreInt(prior: int, j: Json): (r: Decoded<int>)
    ensures r.ok ==> IntMin <= r.value <= IntMax || r.value == prior
    ensures !r.ok ==> r.value == prior
  {
    match j
    case JNull => Decoded(prior, true)
    case JNumber(n) => if IntMin <= n <= IntMax then Decoded(n, true) else Decoded(prior, false)
    case _ => Decoded(prior, false)
  }

  /** A string into a `string`; `null` changes nothing. */
  function StoreString(prior: string, j: Json): (r: Decoded<string>)
    ensures !r.ok ==> r.value == prior
  {
    match j
    case JNull => Decoded(prior, true)
    case JString(s) => Decoded(s, true)
    case _ => Decoded(prior, false)
  }

  /** An object into a `Language`, member after member; unknown keys are skipped. */
  function StoreLanguage(prior: Language, j: Json): (r: Decoded<Language>)
    ensures !r.ok ==> !j.JNull?
  {
    match j
    case JNull => Decoded(prior, true)
    case JObject(members) => StoreLanguageMembers(prior, members)
    case _ => Decoded(prior, false)
  }

  function StoreLanguageMembers(prior: Language, members: seq<Member>): Decoded<Language>
    decreases members
  {
    if members == [] then Decoded(prior, true)
    else
      var m := members[0];
      var head :=
        if KeyMatches(m.key, "Name") then
          var d := StoreString(prior.name, m.value); Decoded(prior.(name := d.value), d.ok)
        else if KeyMatches(m.key, "Abbrev") then
          var d := StoreString(prior.abbrev, m.value); Decoded(prior.(abbrev := d.value), d.ok)
        else Decoded(prior, true);
      var rest := StoreLanguageMembers(head.value, members[1..]);
      Decoded(rest.value, head.ok && rest.ok)
  }

  /** An object into a `LanguagePair`. */
  function StorePair(prior: LanguagePair, j: Json): (r: Decoded<LanguagePair>)
    ensures !r.ok ==> !j.JNull?
  {
    match j
    case JNull => Decoded(prior, true)
    case JObject(members) => StorePairMembers(prior, members)
    case _ => Decoded(prior, false)
  }

  function StorePairMembers(prior: LanguagePair, members: seq<Member>): Decoded<LanguagePair>
    decreases members
  {
    if members == [] then Decoded(prior, true)
    else
      var m := members[0];
      var head :=
        if KeyMatches(m.key, "First") then
          var d := StoreLanguage(prior.first, m.value); Decoded(prior.(first := d.value), d.ok)
        else if KeyMatches(m.key, "Second") then
          var d := StoreLanguage(prior.second, m.value); Decoded(prior.(second := d.value), d.ok)
        else Decoded(prior, true);
      var rest := StorePairMembers(head.value, members[1..]);
      Decoded(rest.value, head.ok && rest.ok)
  }

  /** An array into a slice of pairs: element `i` is stored into the slice's element `i`
      when there is one and into a zero pair otherwise, and the slice ends up as long as
      the array. `null` empties the slice. */
  function StorePairs(prior: seq<LanguagePair>, j: Json): (r: Decoded<seq<LanguagePair>>)
    ensures j.JArray? ==> |r.value| == |j.items|
    ensures j.JNull? ==> r == Decoded([], true)
    ensures !j.JArray? && !j.JNull? ==> r == Decoded(prior, false)
  {
    match j
    case JNull => Decoded([], true)
    case JArray(items) => StorePairItems(prior, items)
    case _ => Decoded(prior, false)
  }

  function StorePairItems(prior: seq<LanguagePair>, items: seq<Json>): (r: Decoded<seq<LanguagePair>>)
    ensures |r.value| == |items|
  {
    if items == [] then Decoded([], true)
    else
      var head := StorePair(if prior != [] then prior[0] else NoPair, items[0]);
      var rest := StorePairItems(if prior != [] then prior[1..] else [], items[1..]);
      Decoded([head.value] + rest.value, head.ok && rest.ok)
  }

  /** An object into the file record. */
  function StoreFile(prior: LanguageFile, j: Json): (r: Decoded<LanguageFile>)
    ensures !r.ok ==> !j.JNull?
  {
    match j
    case JNull => Decoded(prior, true)
    case JObject(members) => StoreFileMembers(prior, members)
    case _ => Decoded(prior, false)
  }

  function StoreFileMembers(prior: LanguageFile, members: seq<Member>): Decoded<LanguageFile>
    decreases members
  {
    if members == [] then Decoded(prior, true)
    else
      var m := members[0];
      var head :=
        if KeyMatches(m.key, "Version") then
          var d := StoreInt(prior.version, m.value); Decoded(prior.(version := d.value), d.ok)
        else if KeyMatches(m.key, "Pairs") then
          var d := StorePairs(prior.pairs, m.value); Decoded(prior.(pairs := d.value), d.ok)
        else Decoded(prior, true);
      var rest := StoreFileMembers(head.value, members[1..]);
      Decoded(rest.value, head.ok && rest.ok)
  }

  /** What `Decode` leaves in a fresh record, and whether it reported an error. The first
      value of the text is read and the rest is left unread; text that is not a JSON
      value leaves the record untouched. */
  function DecodeFile(text: string): (r: Decoded<LanguageFile>)
    ensures ParseValue(text).None? ==> r == Decoded(NoFile, false)
  {
    match ParseValue(text)
    case None => Decoded(NoFile, false)
    case Some(p) => StoreFile(NoFile, p.value)
  }

  /** `LoadLanguagesFromDisk`, as written: the cache is refused only when decoding
      reported an error and the record's version is not the current one. */
  function LoadLanguages(text: string): (r: Result<seq<LanguagePair>>)
    ensures r.Err? <==> !DecodeFile(text).ok && DecodeFile(text).value.version != FileVersion
    ensures r.Err? ==> r.error == OutdatedLanguageFile
    ensures r.Ok? ==> r.value == DecodeFile(text).value.pairs
  {
    var d := DecodeFile(text);
    if !d.ok && d.value.version != FileVersion then Err(OutdatedLanguageFile) else Ok(d.value.pairs)
  }

  /** The load the version check was meant to give: any decoding error or any other
      version refuses the cache. */
  function LoadLanguagesChecked(text: string): (r: Result<seq<LanguagePair>>)
    ensures r.Ok? <==> DecodeFile(text).ok && DecodeFile(text).value.version == FileVersion
    ensures r.Ok? ==> r.value == DecodeFile(text).value.pairs
    ensures r.Err? ==> r.error == OutdatedLanguageFile
  {
    var d := DecodeFile(text);
    if !d.ok || d.value.version != FileVersion then Err(OutdatedLanguageFile) else Ok(d.value.pairs)
  }

  // ---------------------------------------------------------------- reading back what was saved

  /** Glue, not a property: the key matches the read-back lemmas need, stated once. */
  lemma KeysDiffer()
    ensures KeyMatches("Name", "Name") && !KeyMatches("Name", "Abbrev")
    ensures KeyMatches("Abbrev", "Abbrev")
    ensures KeyMatches("First", "First") && !KeyMatches("First", "Second")
    ensures KeyMatches("Second", "Second")
    ensures KeyMatches("Version", "Version") && !KeyMatches("Version", "Pairs")
    ensures KeyMatches("Pairs", "Pairs")
  {
    assert AsciiLower('F') != AsciiLower('S');
  }

  /** A saved language is read back into any language. */
  lemma StoreLanguageReadsBack(prior: Language, l: Language)
    ensures StoreLanguage(prior, LanguageToJson(l)) == Decoded(l, true)
  {
    KeysDiffer();
    var ms := [Member("Name", JString(l.name)), Member("Abbrev", JString(l.abbrev))];
    assert ms[1..][1..] == [];
    assert StoreLanguageMembers(l, ms[1..][1..]) == Decoded(l, true);
    assert StoreLanguageMembers(prior.(name := l.name), ms[1..]) == Decoded(l, true);
    assert StoreLanguageMembers(prior, ms) == Decoded(l, true);
  }

  /** A saved pair is read back into any pair. */
  lemma StorePairReadsBack(prior: LanguagePair, p: LanguagePair)
    ensures StorePair(prior, PairToJson(p)) == Decoded(p, true)
  {
    KeysDiffer();
    StoreLanguageReadsBack(prior.first, p.first);
    StoreLanguageReadsBack(prior.second, p.second);
    var ms := [Member("First", LanguageToJson(p.first)), Member("Second", LanguageToJson(p.second))];
    assert ms[1..][1..] == [];
    assert StorePairMembers(p, ms[1..][1..]) == Decoded(p, true);
    assert StorePairMembers(prior.(first := p.first), ms[1..]) == Decoded(p, true);
    assert StorePairMembers(prior, ms) == Decoded(p, true);
  }

  /** Saved pairs are read back into any slice, whatever it held. */
  lemma {:induction false} StorePairItemsReadBack(prior: seq<LanguagePair>, pairs: seq<LanguagePair>)
    ensures StorePairItems(prior, PairItems(pairs)) == Decoded(pairs, true)
  {
    if pairs != [] {
      var items := PairItems(pairs);
      assert items[0] == PairToJson(pairs[0]) && items[1..] == PairItems(pairs[1..]);
      StorePairReadsBack(if prior != [] then prior[0] else NoPair, pairs[0]);
      StorePairItemsReadBack(if prior != [] then prior[1..] else [], pairs[1..]);
      assert [pairs[0]] + pairs[1..] == pairs;
    }
  }

  /** The pair an array element is stored into: the slice's element at the same index when
      there is one, a zero pair otherwise. */
  function PriorAt(prior: seq<LanguagePair>, i: nat): LanguagePair {
    if i < |prior| then prior[i] else NoPair
  }

  /** Element `i` of the decoded slice is array element `i` stored into `PriorAt(prior, i)`, and
      decoding is clean exactly when every element stored cleanly. */
  lemma {:induction false} StorePairItemsElements(prior: seq<LanguagePair>, items: seq<Json>)
    ensures forall i :: 0 <= i < |items| ==>
      StorePairItems(prior, items).value[i] == StorePair(PriorAt(prior, i), items[i]).value
    ensures StorePairItems(prior, items).ok <==>
      forall i :: 0 <= i < |items| ==> StorePair(PriorAt(prior, i), items[i]).ok
  {
    if items != [] {
      var tail := if prior != [] then prior[1..] else [];
      StorePairItemsElements(tail, items[1..]);
      assert forall i :: 1 <= i < |items| ==> PriorAt(tail, i - 1) == PriorAt(prior, i) && items[1..][i - 1] == items[i];
    }
  }

  /** An array is stored into the slice element by element, as `StorePairItemsElements` says. */
  lemma StorePairsArray(prior: seq<LanguagePair>, j: Json)
    requires j.JArray?
    ensures forall i :: 0 <= i < |j.items| ==>
      StorePairs(prior, j).value[i] == StorePair(PriorAt(prior, i), j.items[i]).value
    ensures StorePairs(prior, j).ok <==>
      forall i :: 0 <= i < |j.items| ==> StorePair(PriorAt(prior, i), j.items[i]).ok
  {
    StorePairItemsElements(prior, j.items);
  }

  /** A record whose version fits an `int` is read back exactly. */
  lemma StoreFileReadsBack(f: LanguageFile)
    requires IntMin <= f.version <= IntMax
    ensures StoreFile(NoFile, FileToJson(f)) == Decoded(f, true)
  {
    KeysDiffer();
    if f.pairs != [] {
      StorePairItemsReadBack([], f.pairs);
    }
    var ms := [Member("Version", JNumber(f.version)), Member("Pairs", PairsToJson(f.pairs))];
    assert ms[1..][1..] == [];
    assert StorePairs([], PairsToJson(f.pairs)) == Decoded(f.pairs, true);
    assert StoreFileMembers(f, ms[1..][1..]) == Decoded(f, true);
    assert StoreFileMembers(NoFile.(version := f.version), ms[1..]) == Decoded(f, true);
    assert StoreFileMembers(NoFile, ms) == Decoded(f, true);
  }

  /** The text of a record decodes to the record, without error. */
  lemma DecodeSaved(f: LanguageFile)
    requires IntMin <= f.version <= IntMax
    ensures DecodeFile(Serialize(FileToJson(f)) + "\n") == Decoded(f, true)
  {
    SerializeReadsBack(FileToJson(f), "\n");
    StoreFileReadsBack(f);
  }

  /** Loading what was saved gives back the same pairs in the same order. */
  lemma LoadSaved(pairs: seq<LanguagePair>)
    ensures LoadLanguages(SaveLanguages(pairs)) == Ok(pairs)
    ensures LoadLanguagesChecked(SaveLanguages(pairs)) == Ok(pairs)
  {
    DecodeSaved(LanguageFile(FileVersion, pairs));
  }

  /** As written, a well-formed record of any other version is loaded as if current. */
  lemma StaleVersionLoads(version: int, pairs: seq<LanguagePair>)
    requires IntMin <= version <= IntMax && version != FileVersion
    ensures LoadLanguages(Serialize(FileToJson(LanguageFile(version, pairs))) + "\n") == Ok(pairs)
    ensures LoadLanguagesChecked(Serialize(FileToJson(LanguageFile(version, pairs))) + "\n")
         == Err(OutdatedLanguageFile)
  {
    DecodeSaved(LanguageFile(version, pairs));
  }

  /** A record of the earlier revision, whose languages were plain strings. */
  function StringPairsFile(version: int, first: string, second: string): Json {
    JObject([Member("Version", JNumber(version)),
             Member("Pairs", JArray([JObject([Member("First", JString(first)), Member("Second", JString(second))])]))])
  }

  /** Such a record is refused when its version differs, and otherwise loads as one pair
      of empty languages: each string is of the wrong type and leaves its language as it was. */
  lemma StringPairsFileLoads(version: int, first: string, second: string)
    requires IntMin <= version <= IntMax
    ensures version != FileVersion ==>
      LoadLanguages(Serialize(StringPairsFile(version, first, second))) == Err(OutdatedLanguageFile)
    ensures version == FileVersion ==>
      LoadLanguages(Serialize(StringPairsFile(version, first, second))) == Ok([NoPair])
  {
    var j := StringPairsFile(version, first, second);
    SerializeReadsBack(j, "");
    assert Serialize(j) + "" == Serialize(j);
    KeysDiffer();
    var pair := JObject([Member("First", JString(first)), Member("Second", JString(second))]);
    var pms := [Member("First", JString(first)), Member("Second", JString(second))];
    assert pms[1..][1..] == [];
    assert StorePairMembers(NoPair, pms[1..][1..]) == Decoded(NoPair, true);
    assert StorePairMembers(NoPair, pms[1..]) == Decoded(NoPair, false);
    assert StorePairMembers(NoPair, pms) == Decoded(NoPair, false);
    assert StorePair(NoPair, pair) == Decoded(NoPair, false);
    assert [pair][1..] == [];
    assert StorePairItems([], [pair][1..]) == Decoded([], true);
    assert [NoPair] + [] == [NoPair];
    assert StorePairItems([], [pair]) == Decoded([NoPair], false);
    var ms := j.members;
    var loaded := LanguageFile(version, [NoPair]);
    assert ms[1..][1..] == [];
    assert StoreFileMembers(loaded, ms[1..][1..]) == Decoded(loaded, true);
    assert StoreFileMembers(NoFile.(version := version), ms[1..]) == Decoded(loaded, false);
    assert StoreFileMembers(NoFile, ms) == Decoded(loaded, false);
    assert StoreFile(NoFile, j) == Decoded(loaded, false);
  }
}
