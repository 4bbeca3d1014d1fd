/** The language-pair catalogue of the current revision (languages.go): a language is a
    name with a two-letter code, a pair is an anchor language with a counterpart, and the
    catalogue is read off the links of dict.cc's home page. */
module Languages {
  import opened Wrappers
  import opened Text
  import opened Errors

  /** A language: its name and its two-letter code. Go prints it as its name. */
  datatype Language = Language(name: string, abbrev: string)

  const German: Language := Language("Deutsch", "de")
  const English: Language := Language("English", "en")

  /** The pair every extraction starts with. */
  const Seed: LanguagePair := LanguagePair(German, English)

  datatype LanguagePair = LanguagePair(first: Language, second: Language)
  {
    function Swapped(): LanguagePair {
      LanguagePair(second, first)
    }

    /** Order-tolerant equality. Go compares the firsts, swaps the two firsts when
        they differ, and then asks for equal seconds or for a crossed match. */
    function Same(other: LanguagePair): (same: bool)
      ensures same <==> other == this || other == Swapped()
    {
      var first1, first2 :=
        if first != other.first then other.first else first,
        if first != other.first then first else other.first;
      (first1 == first2 && second == other.second) || (first1 == second && first2 == other.second)
    }

    /** `{First - Second}`, each language printed as its name. */
    function String(): (s: string)
      ensures |s| == |first.name| + |second.name| + 5
      ensures s[0] == '{' && s[|s| - 1] == '}'
      ensures s[1..|first.name| + 1] == first.name
      ensures s[|first.name| + 1..|first.name| + 4] == " - "
      ensures s[|first.name| + 4..|s| - 1] == second.name
    {
      "{" + first.name + " - " + second.name + "}"
    }
  }

  /** `Same` is an equivalence: reflexive, symmetric and transitive. */
  lemma SameIsEquivalence(a: LanguagePair, b: LanguagePair, c: LanguagePair)
    ensures a.Same(a)
    ensures a.Same(b) ==> b.Same(a)
    ensures a.Same(b) && b.Same(c) ==> a.Same(c)
  {
  }

  /** Two pairs with the same first language are the same only if their second ones agree. */
  lemma SameNeedsBothLanguages(a: LanguagePair, b: LanguagePair)
    requires a.first == b.first && a.second != b.second
    ensures !a.Same(b) && !b.Same(a)
  {
  }

  // ---------------------------------------------------------------- language labels

  /** The counterpart's code among the two codes of a link: the second when the first
      is the anchor's own code, the first otherwise. */
  function GetAbbrev(anchor: Language, matches: seq<string>): (r: Result<string>)
    ensures r.Err? <==> |matches| != 2
    ensures r.Err? ==> r.error == MatchCount(matches)
    ensures r.Ok? ==> r.value in matches
    ensures r.Ok? && matches[0] == anchor.abbrev ==> r.value == matches[1]
    ensures r.Ok? && anchor.abbrev !in matches ==> r.value == matches[0]
    ensures r.Ok? && matches[0] != matches[1] ==> r.value != anchor.abbrev
  {
    if |matches| != 2 then Err(MatchCount(matches))
    else if matches[0] == anchor.abbrev then Ok(matches[1])
    else Ok(matches[0])
  }

  /** The two names of a label `First – Second`, cut at its only en dash and trimmed. */
  function SplitLanguage(s: string): (r: Result<(string, string)>)
    ensures r.Ok? <==> multiset(s)[EnDash] == 1
    ensures r.Err? ==> r.error == UnknownLanguageFormat(s)
    ensures r.Ok? ==> exists k :: 0 <= k < |s| && s[k] == EnDash
                        && r.value == (TrimSpace(s[..k]), TrimSpace(s[k + 1..]))
  {
    var parts := Split(s, EnDash);
    if |parts| != 2 then Err(UnknownLanguageFormat(s))
    else
      SplitInTwo(s, EnDash);
      var k := |parts[0]|;
      assert s[..k] == parts[0] && s[k + 1..] == parts[1];
      Ok((TrimSpace(parts[0]), TrimSpace(parts[1])))
  }

  /** A label built from two names without en dashes splits back into the trimmed names. */
  lemma SplitLanguageOfTwo(a: string, b: string)
    requires EnDash !in a && EnDash !in b
    ensures SplitLanguage(a + [EnDash] + b) == Ok((TrimSpace(a), TrimSpace(b)))
  {
    SplitOfTwo(a, b, EnDash);
  }

  /** A label without an en dash is refused, and the error quotes it. */
  lemma SplitLanguageWithoutDash(s: string)
    requires EnDash !in s
    ensures SplitLanguage(s) == Err(UnknownLanguageFormat(s))
    ensures Message(SplitLanguage(s).error)
         == "Unkown language format: '" + s + "'. Are you using the latest version?"
  {
    assert multiset(s)[EnDash] == 0;
  }

  /** The pair named by a label; each code is the first two characters of its name. */
  function GetLanguagePairFromString(s: string): (r: Result<LanguagePair>)
    requires SplitLanguage(s).Ok? ==> |SplitLanguage(s).value.0| >= 2 && |SplitLanguage(s).value.1| >= 2
    ensures r.Err? <==> multiset(s)[EnDash] != 1
    ensures r.Err? ==> r.error == UnknownLanguageFormat(s)
    ensures r.Ok? ==> r.value.first.name == SplitLanguage(s).value.0
    ensures r.Ok? ==> r.value.second.name == SplitLanguage(s).value.1
    ensures r.Ok? ==> |r.value.first.abbrev| == 2 && r.value.first.abbrev <= r.value.first.name
    ensures r.Ok? ==> |r.value.second.abbrev| == 2 && r.value.second.abbrev <= r.value.second.name
  {
    match SplitLanguage(s)
    case Err(e) => Err(e)
    case Ok((first, second)) =>
      Ok(LanguagePair(Language(first, first[..2]), Language(second, second[..2])))
  }

  // ---------------------------------------------------------------- extraction

  /** One selected link of the home page: its `href`, if it has one, and its text. */
  datatype Node = Node(href: Option<string>, text: string)

  /** The links found under one anchor language's column. */
  datatype Column = Column(anchor: Language, nodes: seq<Node>)

  /** A link together with the anchor language of its column. */
  datatype Item = Item(anchor: Language, node: Node)

  /** What a link's address is: a pair page `http://xxyy.dict.cc...` with its two codes,
      the home page `http://www.dict.cc...`, or something else. */
  datatype Link = Codes(first: string, second: string) | HomePage | Unrecognised

  predicate IsAsciiLetter(c: char) {
    'a' <= c <= 'z' || 'A' <= c <= 'Z'
  }

  predicate AllLetters(s: string) {
    forall k :: 0 <= k < |s| ==> IsAsciiLetter(s[k])
  }

  /** Whether `s` starts with `prefix`. */
  predicate HasPrefix(s: string, prefix: string) {
    prefix == [] || (s != [] && s[0] == prefix[0] && HasPrefix(s[1..], prefix[1..]))
  }

  lemma {:induction false} HasPrefixIsPrefix(s: string, prefix: string)
    ensures HasPrefix(s, prefix) <==> |prefix| <= |s| && s[..|prefix|] == prefix
  {
    if prefix != [] && s != [] {
      HasPrefixIsPrefix(s[1..], prefix[1..]);
      if s[0] == prefix[0] && |prefix| <= |s| {
        assert s[..|prefix|] == [s[0]] + s[1..][..|prefix| - 1];
        assert prefix == [prefix[0]] + prefix[1..];
      }
    }
  }

  /** The two patterns of languages.go, both anchored at the start and open at the end:
      `http://` and four ASCII letters and `.dict.cc`, capturing the letters two by two;
      failing that, `http://www.dict.cc`. */
  function ClassifyLink(link: string): (k: Link)
    ensures k.Codes? ==> |k.first| == 2 && |k.second| == 2 && AllLetters(k.first) && AllLetters(k.second)
    ensures !k.Codes? ==> (k.HomePage? <==> HasPrefix(link, "http://www.dict.cc"))
  {
    if |link| >= 19 && HasPrefix(link, "http://") && AllLetters(link[7..11]) && HasPrefix(link[11..], ".dict.cc") then
      assert forall k :: 0 <= k < 2 ==> link[7..9][k] == link[7..11][k] && link[9..11][k] == link[7..11][k + 2];
      Codes(link[7..9], link[9..11])
    else if HasPrefix(link, "http://www.dict.cc") then HomePage
    else Unrecognised
  }

  /** A link classified as a pair page spells out the first pattern with the two codes it
      gives; one classified as the home page spells out the second pattern. */
  lemma ClassifyLinkSound(link: string)
    ensures var k := ClassifyLink(link);
      && (k.Codes? ==> |k.first| == 2 && |k.second| == 2 && AllLetters(k.first + k.second))
      && (k.Codes? ==> |link| >= 19 && link == "http://" + k.first + k.second + ".dict.cc" + link[19..])
      && (k.HomePage? ==> |link| >= 18 && link == "http://www.dict.cc" + link[18..])
  {
    if ClassifyLink(link).Codes? {
      HasPrefixIsPrefix(link, "http://");
      HasPrefixIsPrefix(link[11..], ".dict.cc");
      assert link[11..][..8] == link[11..19];
      assert link == link[..7] + link[7..9] + link[9..11] + link[11..19] + link[19..];
      assert link[7..9] + link[9..11] == link[7..11];
    } else if ClassifyLink(link).HomePage? {
      HasPrefixIsPrefix(link, "http://www.dict.cc");
      assert link == link[..18] + link[18..];
    }
  }

  /** Every address of the first pattern is recognised, with its two codes. */
  lemma ClassifyCodes(a: string, b: string, rest: string)
    requires |a| == 2 && |b| == 2 && AllLetters(a + b)
    ensures ClassifyLink("http://" + a + b + ".dict.cc" + rest) == Codes(a, b)
  {
    var link := "http://" + a + b + ".dict.cc" + rest;
    assert link[..7] == "http://" && link[7..11] == a + b && link[11..][..8] == ".dict.cc";
    HasPrefixIsPrefix(link, "http://");
    HasPrefixIsPrefix(link[11..], ".dict.cc");
    assert link[7..9] == a && link[9..11] == b;
  }

  /** The home page's address is recognised as such. */
  lemma ClassifyHomePage(rest: string)
    ensures ClassifyLink("http://www.dict.cc" + rest) == HomePage
  {
    var link := "http://www.dict.cc" + rest;
    assert link[..18] == "http://www.dict.cc";
    HasPrefixIsPrefix(link, "http://www.dict.cc");
    assert link[10] == '.' && !IsAsciiLetter(link[10]);
    assert link[7..11][3] == link[10];
  }

  /** The error a link raises: 1 when it has no address, 2 when the address is neither
      a pair page nor the home page. */
  function NodeError(node: Node): (e: Option<Error>)
    ensures e.Some? <==> node.href.None? || ClassifyLink(node.href.value).Unrecognised?
    ensures e.Some? ==> e.value == ParsingError(if node.href.None? then 1 else 2)
  {
    match node.href
    case None => Some(ParsingError(1))
    case Some(link) => if ClassifyLink(link).Unrecognised? then Some(ParsingError(2)) else None
  }

  /** The pair a link contributes: the anchor with the language named by the link's
      trimmed text and coded by the link's counterpart code; nothing for other links. */
  predicate IsPairLink(node: Node) {
    node.href.Some? && ClassifyLink(node.href.value).Codes?
  }

  function NodePairs(anchor: Language, node: Node): seq<LanguagePair> {
    match node.href
    case None => []
    case Some(link) =>
      match ClassifyLink(link)
      case Codes(c1, c2) => [LanguagePair(anchor, Language(TrimSpace(node.text), GetAbbrev(anchor, [c1, c2]).value))]
      case _ => []
  }

  /** A link contributes one pair exactly when it is a pair page: the anchor with the
      language named by the link's trimmed text and coded by the counterpart code. */
  lemma NodePairsShape(anchor: Language, node: Node)
    ensures var r := NodePairs(anchor, node);
      && |r| <= 1
      && (|r| == 1 <==> IsPairLink(node))
      && (|r| == 1 ==> r[0].first == anchor && r[0].second.name == TrimSpace(node.text))
      && (|r| == 1 ==> var k := ClassifyLink(node.href.value);
                       r[0].second.abbrev == (if k.first == anchor.abbrev then k.second else k.first))
  {
  }

  /** The links of a column, each paired with the column's anchor. */
  function Items(anchor: Language, nodes: seq<Node>): seq<Item> {
    seq(|nodes|, k requires 0 <= k < |nodes| => Item(anchor, nodes[k]))
  }

  /** All links of all columns, column after column. */
  function Flatten(columns: seq<Column>): seq<Item> {
    if columns == [] then []
    else
      var last := columns[|columns| - 1];
      Flatten(columns[..|columns| - 1]) + Items(last.anchor, last.nodes)
  }

  /** The pairs contributed by the links, in order. */
  function Contributions(items: seq<Item>): seq<LanguagePair> {
    if items == [] then []
    else NodePairs(items[0].anchor, items[0].node) + Contributions(items[1..])
  }

  /** The error recorded last: each failing link overwrites the one before. */
  function LastError(items: seq<Item>): Option<Error> {
    if items == [] then None
    else
      var e := NodeError(items[|items| - 1].node);
      if e.Some? then e else LastError(items[..|items| - 1])
  }

  /** What the extraction returns for these links: the German-English seed followed by the
      pairs of the links in order when no link raises an error (links to the home page add
      nothing), and the last error otherwise. */
  function Extraction(items: seq<Item>): (r: Result<seq<LanguagePair>>)
    ensures r.Ok? <==> forall k :: 0 <= k < |items| ==> NodeError(items[k].node).None?
    ensures r.Ok? ==> r.value != [] && r.value[0] == LanguagePair(German, English)
    ensures r.Ok? ==> r.value[1..] == Contributions(items)
    ensures r.Err? ==> LastError(items) == Some(r.error)
  {
    LastErrorNone(items);
    match LastError(items)
    case Some(e) => Err(e)
    case None => Ok([Seed] + Contributions(items))
  }

  /** The callback run on each link: appends the link's pair, or records its error over
      any error recorded before. */
  method Visit(anchor: Language, node: Node, pairs: seq<LanguagePair>, langErr: Option<Error>)
    returns (pairs': seq<LanguagePair>, langErr': Option<Error>)
    ensures pairs' == pairs + NodePairs(anchor, node)
    ensures langErr' == if NodeError(node).Some? then NodeError(node) else langErr
  {
    pairs', langErr' := pairs, langErr;
    match node.href {
      case None =>
        langErr' := Some(ParsingError(1));
      case Some(link) =>
        var kind := ClassifyLink(link);
        if kind.Codes? {
          var abbrev := GetAbbrev(anchor, [kind.first, kind.second]);
          var second := Language(TrimSpace(node.text), abbrev.value);
          pairs' := pairs' + [LanguagePair(anchor, second)];
        } else if kind.Unrecognised? {
          langErr' := Some(ParsingError(2));
        }
    }
  }

  /** The callback run over one column's links in order: the column's pairs are appended,
      and its last error, if any, replaces the error recorded before. */
  method VisitColumn(column: Column, pairs: seq<LanguagePair>, langErr: Option<Error>)
    returns (pairs': seq<LanguagePair>, langErr': Option<Error>)
    ensures pairs' == pairs + Contributions(Items(column.anchor, column.nodes))
    ensures LastError(Items(column.anchor, column.nodes)).Some? ==>
      langErr' == LastError(Items(column.anchor, column.nodes))
    ensures LastError(Items(column.anchor, column.nodes)).None? ==> langErr' == langErr
  {
    pairs', langErr' := pairs, langErr;
    var i := 0;
    assert Items(column.anchor, column.nodes[..0]) == [];
    while i < |column.nodes|
      invariant 0 <= i <= |column.nodes|
      invariant pairs' == pairs + Contributions(Items(column.anchor, column.nodes[..i]))
      invariant LastError(Items(column.anchor, column.nodes[..i])).Some? ==>
        langErr' == LastError(Items(column.anchor, column.nodes[..i]))
      invariant LastError(Items(column.anchor, column.nodes[..i])).None? ==> langErr' == langErr
    {
      ItemsStep(column.anchor, column.nodes, i);
      AppendAssoc(pairs, Contributions(Items(column.anchor, column.nodes[..i])), NodePairs(column.anchor, column.nodes[i]));
      pairs', langErr' := Visit(column.anchor, column.nodes[i], pairs', langErr');
      i := i + 1;
    }
    assert column.nodes[..i] == column.nodes;
  }

  /** Reads the catalogue off the selected links, one column per anchor language, in
      whatever order the columns are given. Every link is visited, even after an error. */
  method GetLanguagesFromRemote(response: Option<seq<Column>>) returns (r: Result<seq<LanguagePair>>)
    ensures response.None? ==> r == Err(NilResponse)
    ensures response.Some? ==> r == Extraction(Flatten(response.value))
  {
    if response.None? {
      return Err(NilResponse);
    }
    var columns := response.value;
    var pairs := [Seed];
    var langErr: Option<Error> := None;
    var c := 0;
    while c < |columns|
      invariant 0 <= c <= |columns|
      invariant pairs == [Seed] + Contributions(Flatten(columns[..c]))
      invariant langErr == LastError(Flatten(columns[..c]))
    {
      var pairs', langErr' := VisitColumn(columns[c], pairs, langErr);
      ColumnStep(columns, c, pairs, langErr, pairs', langErr');
      pairs, langErr := pairs', langErr';
      c := c + 1;
    }
    assert columns[..c] == columns;
    if langErr.Some? {
      return Err(langErr.value);
    }
    return Ok(pairs);
  }

  /** One more column extends both running results by the column's own. */
  lemma ColumnStep(columns: seq<Column>, c: nat, pairs: seq<LanguagePair>, langErr: Option<Error>,
                   pairs': seq<LanguagePair>, langErr': Option<Error>)
    requires c < |columns|
    requires pairs == [Seed] + Contributions(Flatten(columns[..c]))
    requires langErr == LastError(Flatten(columns[..c]))
    requires pairs' == pairs + Contributions(Items(columns[c].anchor, columns[c].nodes))
    requires LastError(Items(columns[c].anchor, columns[c].nodes)).Some? ==>
      langErr' == LastError(Items(columns[c].anchor, columns[c].nodes))
    requires LastError(Items(columns[c].anchor, columns[c].nodes)).None? ==> langErr' == langErr
    ensures pairs' == [Seed] + Contributions(Flatten(columns[..c + 1]))
    ensures langErr' == LastError(Flatten(columns[..c + 1]))
  {
    var done := Flatten(columns[..c]);
    var items := Items(columns[c].anchor, columns[c].nodes);
    FlattenStep(columns, c);
    ContributionsAppend(done, items);
    AppendAssoc([Seed], Contributions(done), Contributions(items));
    LastErrorAppend(done, items);
  }

  lemma AppendAssoc(xs: seq<LanguagePair>, ys: seq<LanguagePair>, zs: seq<LanguagePair>)
    ensures (xs + ys) + zs == xs + (ys + zs)
  {
  }

  /** One more link of a column extends both running results. */
  lemma ItemsStep(anchor: Language, nodes: seq<Node>, i: nat)
    requires i < |nodes|
    ensures var before := Items(anchor, nodes[..i]);
            var after := Items(anchor, nodes[..i + 1]);
      && Contributions(after) == Contributions(before) + NodePairs(anchor, nodes[i])
      && LastError(after) == (if NodeError(nodes[i]).Some? then NodeError(nodes[i]) else LastError(before))
  {
    var before := Items(anchor, nodes[..i]);
    var after := Items(anchor, nodes[..i + 1]);
    var item := Item(anchor, nodes[i]);
    assert after == before + [item];
    assert after[..|after| - 1] == before;
    ContributionsAppend(before, [item]);
    assert Contributions([item]) == NodePairs(anchor, nodes[i]) + Contributions([]);
  }

  lemma FlattenStep(columns: seq<Column>, c: nat)
    requires c < |columns|
    ensures Flatten(columns[..c + 1]) == Flatten(columns[..c]) + Items(columns[c].anchor, columns[c].nodes)
  {
    assert columns[..c + 1][..c] == columns[..c];
  }

  // ---------------------------------------------------------------- what the extraction promises

  /** The extraction fails exactly when some link raises an error. */
  lemma {:induction false} LastErrorNone(items: seq<Item>)
    ensures LastError(items).None? <==> forall k :: 0 <= k < |items| ==> NodeError(items[k].node).None?
  {
    if items != [] {
      var front := items[..|items| - 1];
      LastErrorNone(front);
      assert forall k :: 0 <= k < |front| ==> front[k] == items[k];
    }
  }

  /** The error reported is the error of the last failing link. */
  lemma {:induction false} LastErrorIsLast(items: seq<Item>)
    requires LastError(items).Some?
    ensures exists k :: 0 <= k < |items| && NodeError(items[k].node) == LastError(items)
                     && forall m :: k < m < |items| ==> NodeError(items[m].node).None?
  {
    var n := |items| - 1;
    if NodeError(items[n].node).Some? {
      assert NodeError(items[n].node) == LastError(items);
    } else {
      var front := items[..n];
      LastErrorIsLast(front);
      var k :| 0 <= k < |front| && NodeError(front[k].node) == LastError(front)
               && forall m :: k < m < |front| ==> NodeError(front[m].node).None?;
      assert items[k] == front[k];
      assert forall m :: k < m < n ==> items[m] == front[m];
    }
  }

  /** The last error of two consecutive runs of links is the second run's, if it has one. */
  lemma {:induction false} LastErrorAppend(xs: seq<Item>, ys: seq<Item>)
    ensures LastError(xs + ys) == if LastError(ys).Some? then LastError(ys) else LastError(xs)
  {
    if ys == [] {
      assert xs + ys == xs;
    } else {
      var zs := xs + ys;
      var init := ys[..|ys| - 1];
      assert zs[..|zs| - 1] == xs + init;
      assert zs[|zs| - 1] == ys[|ys| - 1];
      LastErrorAppend(xs, init);
    }
  }

  /** Contributions of consecutive runs of links add up. */
  lemma {:induction false} ContributionsAppend(xs: seq<Item>, ys: seq<Item>)
    ensures Contributions(xs + ys) == Contributions(xs) + Contributions(ys)
  {
    if xs == [] {
      assert xs + ys == ys;
    } else {
      var zs := xs + ys;
      assert zs[1..] == xs[1..] + ys;
      assert zs[0] == xs[0];
      ContributionsAppend(xs[1..], ys);
      var head := NodePairs(xs[0].anchor, xs[0].node);
      calc {
        Contributions(zs);
        head + Contributions(xs[1..] + ys);
        head + (Contributions(xs[1..]) + Contributions(ys));
        (head + Contributions(xs[1..])) + Contributions(ys);
      }
    }
  }

  /** The pair a pair-page link contributes: its anchor with the language its trimmed text
      names, coded by the code of the link's address that is not the anchor's. */
  predicate PairOf(p: LanguagePair, item: Item) {
    && IsPairLink(item.node)
    && p.first == item.anchor
    && p.second.name == TrimSpace(item.node.text)
    && var k := ClassifyLink(item.node.href.value);
       p.second.abbrev == (if k.first == item.anchor.abbrev then k.second else k.first)
  }

  /** When every link is a pair page, each contributes exactly one pair, in link order. */
  lemma {:induction false} OnePairPerLink(items: seq<Item>)
    requires forall k :: 0 <= k < |items| ==> IsPairLink(items[k].node)
    ensures |Contributions(items)| == |items|
    ensures forall k :: 0 <= k < |items| ==> PairOf(Contributions(items)[k], items[k])
  {
    if items != [] {
      var tail := items[1..];
      assert forall k :: 0 <= k < |tail| ==> tail[k] == items[k + 1];
      OnePairPerLink(tail);
      var first := NodePairs(items[0].anchor, items[0].node);
      NodePairsShape(items[0].anchor, items[0].node);
      assert Contributions(items) == first + Contributions(tail);
      PairsCons(items, first, Contributions(tail));
    }
  }

  lemma PairsCons(items: seq<Item>, first: seq<LanguagePair>, rest: seq<LanguagePair>)
    requires items != [] && |first| == 1 && PairOf(first[0], items[0])
    requires |rest| == |items| - 1 && forall k :: 0 <= k < |rest| ==> PairOf(rest[k], items[1..][k])
    ensures |first + rest| == |items|
    ensures forall k :: 0 <= k < |items| ==> PairOf((first + rest)[k], items[k])
  {
    forall k | 0 <= k < |items|
      ensures PairOf((first + rest)[k], items[k])
    {
      if k > 0 {
        assert (first + rest)[k] == rest[k - 1] && items[1..][k - 1] == items[k];
      }
    }
  }

  /** The pair-page links among the links, in order. */
  function PairLinks(items: seq<Item>): (r: seq<Item>)
    ensures |r| <= |items|
    ensures forall k :: 0 <= k < |r| ==> IsPairLink(r[k].node)
  {
    if items == [] then []
    else (if IsPairLink(items[0].node) then [items[0]] else []) + PairLinks(items[1..])
  }

  /** Links to the home page, and links that raise an error, add no pair: the catalogue is
      what the pair-page links alone contribute. */
  lemma {:induction false} HomePagesAddNothing(items: seq<Item>)
    ensures Contributions(items) == Contributions(PairLinks(items))
  {
    if items != [] {
      HomePagesAddNothing(items[1..]);
      NodePairsShape(items[0].anchor, items[0].node);
      var rest := PairLinks(items[1..]);
      if IsPairLink(items[0].node) {
        assert PairLinks(items) == [items[0]] + rest;
        assert ([items[0]] + rest)[1..] == rest;
      } else {
        assert PairLinks(items) == rest;
      }
    }
  }

  /** A successful extraction is the seed followed by one pair per pair-page link, in link
      order, each the anchor with the link's trimmed text and counterpart code. */
  lemma CatalogueOfPairLinks(items: seq<Item>)
    requires Extraction(items).Ok?
    ensures |Extraction(items).value| == 1 + |PairLinks(items)|
    ensures forall k :: 0 <= k < |PairLinks(items)| ==>
      PairOf(Extraction(items).value[k + 1], PairLinks(items)[k])
  {
    HomePagesAddNothing(items);
    OnePairPerLink(PairLinks(items));
  }

  // ---------------------------------------------------------------- the evidently intended guard

  /** The error of the first failing link, the result the guard at the top of the
      callback was meant to give by skipping the links after an error. */
  function FirstError(items: seq<Item>): Option<Error> {
    if items == [] then None
    else
      var e := NodeError(items[0].node);
      if e.Some? then e else FirstError(items[1..])
  }

  /** The extraction with the guard testing the recorded error. */
  function ExtractionStoppingAtError(items: seq<Item>): (r: Result<seq<LanguagePair>>)
    ensures r.Err? <==> LastError(items).Some?
    ensures r.Err? ==> FirstError(items) == Some(r.error)
    ensures r.Ok? ==> r == Extraction(items)
  {
    FirstLastAgree(items);
    match FirstError(items)
    case Some(e) => Err(e)
    case None => Ok([Seed] + Contributions(items))
  }

  /** The first and the last error exist together. */
  lemma {:induction false} FirstLastAgree(items: seq<Item>)
    ensures FirstError(items).None? <==> LastError(items).None?
  {
    LastErrorNone(items);
    FirstErrorNone(items);
  }

  lemma {:induction false} FirstErrorNone(items: seq<Item>)
    ensures FirstError(items).None? <==> forall k :: 0 <= k < |items| ==> NodeError(items[k].node).None?
  {
    if items != [] {
      FirstErrorNone(items[1..]);
      assert forall k :: 1 <= k < |items| ==> items[1..][k - 1] == items[k];
    }
  }

  /** The corrected extraction reports the error of the first failing link. */
  lemma {:induction false} FirstErrorIsFirst(items: seq<Item>)
    requires FirstError(items).Some?
    ensures exists k :: 0 <= k < |items| && NodeError(items[k].node) == FirstError(items)
                     && forall m :: 0 <= m < k ==> NodeError(items[m].node).None?
  {
    if NodeError(items[0].node).None? {
      var tail := items[1..];
      FirstErrorIsFirst(tail);
      var k :| 0 <= k < |tail| && NodeError(tail[k].node) == FirstError(tail)
               && forall m :: 0 <= m < k ==> NodeError(tail[m].node).None?;
      assert items[k + 1] == tail[k];
      assert forall m :: 1 <= m < k + 1 ==> items[m] == tail[m - 1];
    }
  }

  /** A link without an address followed by an unrecognised one: the code as written
      reports error 2, although the first problem on the page was error 1. */
  lemma LastErrorHidesFirst()
    ensures var items := [Item(English, Node(None, "x")), Item(English, Node(Some("ftp://x"), "y"))];
      Extraction(items) == Err(ParsingError(2))
      && ExtractionStoppingAtError(items) == Err(ParsingError(1))
  {
    var items := [Item(English, Node(None, "x")), Item(English, Node(Some("ftp://x"), "y"))];
    assert ClassifyLink("ftp://x") == Unrecognised;
    assert items[..1] == [items[0]];
    assert items[1..] == [items[1]];
  }
}
