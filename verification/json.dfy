/** The part of Go's `encoding/json` that the language cache relies on: JSON values
    (RFC 8259), the encoder's text for them, and the decoder's scanner, which reads one
    value and leaves whatever follows it unread. */
module Json {
  import opened Wrappers
  import opened Decimal

  datatype Json =
    | JNull
    | JBool(b: bool)
    | JNumber(n: int)          // a number literal without fraction or exponent
    | JFloat                   // a number literal with a fraction or an exponent
    | JString(s: string)
    | JArray(items: seq<Json>)
    | JObject(members: seq<Member>)

  datatype Member = Member(key: string, value: Json)

  // ---------------------------------------------------------------- hexadecimal

  predicate IsHex(c: char) {
    '0' <= c <= '9' || 'a' <= c <= 'f' || 'A' <= c <= 'F'
  }

  predicate AllHex(s: string) {
    forall k :: 0 <= k < |s| ==> IsHex(s[k])
  }

  function HexDigitValue(c: char): (d: nat)
    requires IsHex(c)
    ensures d < 16
  {
    if '0' <= c <= '9' then c as int - '0' as int
    else if 'a' <= c <= 'f' then c as int - 'a' as int + 10
    else c as int - 'A' as int + 10
  }

  /** The lower-case hexadecimal digit the encoder writes for `d`. */
  function HexDigit(d: nat): (c: char)
    requires d < 16
    ensures IsHex(c) && HexDigitValue(c) == d
  {
    if d < 10 then ('0' as int + d) as char else ('a' as int + d - 10) as char
  }

  function HexValue(s: string): nat
    requires |s| == 4 && AllHex(s)
  {
    HexDigitValue(s[0]) * 0x1000 + HexDigitValue(s[1]) * 0x100 + HexDigitValue(s[2]) * 0x10 + HexDigitValue(s[3])
  }

  /** The four hexadecimal digits of a `\u` escape; they read back as `n`. */
  function Hex4(n: nat): (r: string)
    requires n < 0x1_0000
    ensures |r| == 4 && AllHex(r) && HexValue(r) == n
  {
    var d0, m0 := n / 0x1000, n % 0x1000;
    var d1, m1 := m0 / 0x100, m0 % 0x100;
    var d2, d3 := m1 / 0x10, m1 % 0x10;
    assert n == d0 * 0x1000 + m0 && m0 == d1 * 0x100 + m1 && m1 == d2 * 0x10 + d3;
    [HexDigit(d0), HexDigit(d1), HexDigit(d2), HexDigit(d3)]
  }

  // ---------------------------------------------------------------- writing

  /** Characters the encoder writes as `\u` escapes: control characters, the three
      characters Go escapes for safe embedding in HTML, and the two line separators. */
  predicate NeedsUnicodeEscape(c: char) {
    c < ' ' || c == '<' || c == '>' || c == '&' || c == '\U{2028}' || c == '\U{2029}'
  }

  function EscapeChar(c: char): string {
    if c == '"' then "\\\""
    else if c == '\\' then "\\\\"
    else if c == '\n' then "\\n"
    else if c == '\r' then "\\r"
    else if c == '\t' then "\\t"
    else if NeedsUnicodeEscape(c) then "\\u" + Hex4(c as int)
    else [c]
  }

  function Escape(s: string): string {
    if s == [] then [] else EscapeChar(s[0]) + Escape(s[1..])
  }

  function Quote(s: string): string {
    "\"" + Escape(s) + "\""
  }

  /** The compact text the encoder writes for a value. The encoder never produces a
      fraction; `JFloat` is written as `0.0` so that every value has a text. */
  function Serialize(j: Json): string
    decreases j, 1
  {
    match j
    case JNull => "null"
    case JBool(b) => if b then "true" else "false"
    case JNumber(n) => IntToString(n)
    case JFloat => "0.0"
    case JString(s) => Quote(s)
    case JArray(items) => "[" + SerializeItems(j, 0) + "]"
    case JObject(members) => "{" + SerializeMembers(j, 0) + "}"
  }

  /** The array elements from index `k` on, each but the first preceded by a comma. */
  function SerializeItems(j: Json, k: nat): string
    requires j.JArray? && k <= |j.items|
    decreases j, 0, |j.items| - k
  {
    if k == |j.items| then ""
    else (if k == 0 then "" else ",") + Serialize(j.items[k]) + SerializeItems(j, k + 1)
  }

  function SerializeMembers(j: Json, k: nat): string
    requires j.JObject? && k <= |j.members|
    decreases j, 0, |j.members| - k
  {
    if k == |j.members| then ""
    else (if k == 0 then "" else ",") + MemberText(j, k) + SerializeMembers(j, k + 1)
  }

  /** One member: its quoted key, a colon, its value. */
  function MemberText(j: Json, k: nat): string
    requires j.JObject? && k < |j.members|
    decreases j, 0, 0
  {
    var m := j.members[k];
    assert m.value < j;
    Quote(m.key) + ":" + Serialize(m.value)
  }

  // ---------------------------------------------------------------- reading

  datatype Parsed<+T> = Parsed(value: T, rest: string)

  predicate IsJsonSpace(c: char) {
    c == ' ' || c == '\t' || c == '\n' || c == '\r'
  }

  function SkipSpace(s: string): (r: string)
    ensures |r| <= |s|
    ensures r == [] || !IsJsonSpace(r[0])
  {
    if s != [] && IsJsonSpace(s[0]) then SkipSpace(s[1..]) else s
  }

  /** One value, after optional white space. */
  function ParseValue(s: string): (r: Option<Parsed<Json>>)
    ensures r.Some? ==> |r.value.rest| < |s|
    decreases |s|, 0
  {
    var t := SkipSpace(s);
    if t == [] then None
    else if t[0] == '{' then ParseObject(t[1..])
    else if t[0] == '[' then ParseArray(t[1..])
    else if t[0] == '"' then
      match ParseString(t[1..])
      case None => None
      case Some(p) => Some(Parsed(JString(p.value), p.rest))
    else if t[0] == '-' || IsDigit(t[0]) then ParseNumber(t)
    else ParseLiteral(t)
  }

  /** `null`, `true` or `false`. */
  function ParseLiteral(s: string): (r: Option<Parsed<Json>>)
    ensures r.Some? ==> |r.value.rest| < |s|
  {
    if |s| >= 4 && s[..4] == "null" then Some(Parsed(JNull, s[4..]))
    else if |s| >= 4 && s[..4] == "true" then Some(Parsed(JBool(true), s[4..]))
    else if |s| >= 5 && s[..5] == "false" then Some(Parsed(JBool(false), s[5..]))
    else None
  }

  /** The rest of an array, after its `[`. */
  function ParseArray(s: string): (r: Option<Parsed<Json>>)
    ensures r.Some? ==> |r.value.rest| < |s|
    decreases |s|, 2
  {
    var t := SkipSpace(s);
    if t != [] && t[0] == ']' then Some(Parsed(JArray([]), t[1..]))
    else ParseElements(t, [])
  }

  /** Elements of an array, the ones already read being `done`. */
  function ParseElements(s: string, done: seq<Json>): (r: Option<Parsed<Json>>)
    ensures r.Some? ==> |r.value.rest| < |s|
    decreases |s|, 1
  {
    match ParseValue(s)
    case None => None
    case Some(v) =>
      var t := SkipSpace(v.rest);
      if t == [] then None
      else if t[0] == ',' then ParseElements(t[1..], done + [v.value])
      else if t[0] == ']' then Some(Parsed(JArray(done + [v.value]), t[1..]))
      else None
  }

  /** The rest of an object, after its `{`. */
  function ParseObject(s: string): (r: Option<Parsed<Json>>)
    ensures r.Some? ==> |r.value.rest| < |s|
    decreases |s|, 3
  {
    var t := SkipSpace(s);
    if t != [] && t[0] == '}' then Some(Parsed(JObject([]), t[1..]))
    else ParseMembers(t, [])
  }

  /** Members of an object, the ones already read being `done`. */
  function ParseMembers(s: string, done: seq<Member>): (r: Option<Parsed<Json>>)
    ensures r.Some? ==> |r.value.rest| < |s|
    decreases |s|, 2
  {
    match ParseMember(s)
    case None => None
    case Some(m) =>
      var t := SkipSpace(m.rest);
      if t == [] then None
      else if t[0] == ',' then ParseMembers(t[1..], done + [m.value])
      else if t[0] == '}' then Some(Parsed(JObject(done + [m.value]), t[1..]))
      else None
  }

  /** One member: a key, a colon and a value, with optional white space around each. */
  function ParseMember(s: string): (r: Option<Parsed<Member>>)
    ensures r.Some? ==> |r.value.rest| < |s|
    decreases |s|, 1
  {
    var t := SkipSpace(s);
    if t == [] || t[0] != '"' then None
    else
      match ParseString(t[1..])
      case None => None
      case Some(key) =>
        var u := SkipSpace(key.rest);
        if u == [] || u[0] != ':' then None
        else
          match ParseValue(u[1..])
          case None => None
          case Some(v) => Some(Parsed(Member(key.value, v.value), v.rest))
  }

  /** The rest of a string, after its opening quote. Raw control characters are refused. */
  function ParseString(s: string): (r: Option<Parsed<string>>)
    ensures r.Some? ==> |r.value.rest| < |s|
  {
    if s == [] then None
    else if s[0] == '"' then Some(Parsed([], s[1..]))
    else if s[0] == '\\' then
      match ParseEscape(s[1..])
      case None => None
      case Some(e) =>
        match ParseString(e.rest)
        case None => None
        case Some(p) => Some(Parsed([e.value] + p.value, p.rest))
    else if s[0] < ' ' then None
    else
      match ParseString(s[1..])
      case None => None
      case Some(p) => Some(Parsed([s[0]] + p.value, p.rest))
  }

  predicate IsSurrogate(code: int) { 0xD800 <= code < 0xE000 }

  const Replacement: char := '\U{FFFD}'

  /** An escape sequence, after its backslash. A `\u` escape naming a surrogate is joined
      with an immediately following `\u` escape naming its partner; a surrogate without a
      partner reads as the replacement character U+FFFD, as Go's decoder does. */
  function ParseEscape(s: string): (r: Option<Parsed<char>>)
    ensures r.Some? ==> |r.value.rest| < |s|
  {
    if s == [] then None
    else if s[0] == '"' || s[0] == '\\' || s[0] == '/' then Some(Parsed(s[0], s[1..]))
    else if s[0] == 'b' then Some(Parsed('\U{8}', s[1..]))
    else if s[0] == 'f' then Some(Parsed('\U{C}', s[1..]))
    else if s[0] == 'n' then Some(Parsed('\n', s[1..]))
    else if s[0] == 'r' then Some(Parsed('\r', s[1..]))
    else if s[0] == 't' then Some(Parsed('\t', s[1..]))
    else if s[0] == 'u' && |s| >= 5 && AllHex(s[1..5]) then
      var code := HexValue(s[1..5]);
      var t := s[5..];
      if !IsSurrogate(code) then Some(Parsed(code as char, t))
      else if code < 0xDC00 && |t| >= 6 && t[0] == '\\' && t[1] == 'u' && AllHex(t[2..6])
              && 0xDC00 <= HexValue(t[2..6]) < 0xE000 then
        var low := HexValue(t[2..6]);
        Some(Parsed((0x1_0000 + (code - 0xD800) * 0x400 + (low - 0xDC00)) as char, t[6..]))
      else Some(Parsed(Replacement, t))
    else None
  }

  /** A number: an optional minus, an integer part without leading zeros, then an
      optional fraction and exponent. */
  function ParseNumber(s: string): (r: Option<Parsed<Json>>)
    ensures r.Some? ==> |r.value.rest| < |s|
  {
    var negative := s != [] && s[0] == '-';
    var t := if negative then s[1..] else s;
    if t == [] || !IsDigit(t[0]) then None
    else
      var whole := if t[0] == '0' then "0" else LeadingDigits(t);
      var magnitude: int := DigitsValue(whole);
      match ParseFraction(t[|whole|..])
      case None => None
      case Some(f) =>
        match ParseExponent(f.rest)
        case None => None
        case Some(e) =>
          var value := if f.value || e.value then JFloat
                       else JNumber(if negative then -magnitude else magnitude);
          Some(Parsed(value, e.rest))
  }

  /** An optional fraction; the value says whether there was one. */
  function ParseFraction(s: string): (r: Option<Parsed<bool>>)
    ensures r.Some? ==> |r.value.rest| <= |s|
  {
    if s == [] || s[0] != '.' then Some(Parsed(false, s))
    else
      var ds := LeadingDigits(s[1..]);
      if ds == [] then None else Some(Parsed(true, s[1 + |ds|..]))
  }

  /** An optional exponent; the value says whether there was one. */
  function ParseExponent(s: string): (r: Option<Parsed<bool>>)
    ensures r.Some? ==> |r.value.rest| <= |s|
  {
    if s == [] || (s[0] != 'e' && s[0] != 'E') then Some(Parsed(false, s))
    else
      var t := if |s| > 1 && (s[1] == '+' || s[1] == '-') then s[2..] else s[1..];
      var ds := LeadingDigits(t);
      if ds == [] then None else Some(Parsed(true, t[|ds|..]))
  }

  // ---------------------------------------------------------------- reading back what was written

  /** What may follow a value's text without changing how it reads: anything that
      cannot continue a number. */
  predicate Delimited(rest: string) {
    rest == [] || !(IsDigit(rest[0]) || rest[0] == '.' || rest[0] == 'e' || rest[0] == 'E')
  }

  /** What `ParseString` gives for text that starts with `c` followed by `x`'s reading. */
  function Prepended(c: char, r: Option<Parsed<string>>): Option<Parsed<string>> {
    match r
    case None => None
    case Some(p) => Some(Parsed([c] + p.value, p.rest))
  }

  lemma RawCharReadsBack(c: char, x: string)
    requires !NeedsUnicodeEscape(c) && c != '"' && c != '\\'
    ensures ParseString([c] + x) == Prepended(c, ParseString(x))
  {
    assert ([c] + x)[1..] == x;
  }

  lemma ShortEscapeReadsBack(c: char, x: string)
    requires c == '"' || c == '\\' || c == '\n' || c == '\r' || c == '\t'
    ensures ParseString(EscapeChar(c) + x) == Prepended(c, ParseString(x))
  {
    var e := EscapeChar(c);
    assert |e| == 2 && e[0] == '\\';
    assert (e + x)[1..] == [e[1]] + x;
    assert ParseEscape([e[1]] + x) == Some(Parsed(c, x)) by {
      assert ([e[1]] + x)[1..] == x;
    }
  }

  /** Four hexadecimal digits of a character outside the surrogates read back as it. */
  lemma HexEscapeReadsBack(c: char, x: string)
    requires NeedsUnicodeEscape(c)
    ensures ParseEscape(['u'] + Hex4(c as int) + x) == Some(Parsed(c, x))
  {
    var h := Hex4(c as int);
    var u := ['u'] + h + x;
    assert u[1..5] == h;
    assert u[5..] == x;
  }

  lemma UnicodeEscapeReadsBack(c: char, x: string)
    requires NeedsUnicodeEscape(c) && c != '\n' && c != '\r' && c != '\t'
    ensures ParseString(EscapeChar(c) + x) == Prepended(c, ParseString(x))
  {
    var u := ['u'] + Hex4(c as int) + x;
    assert (EscapeChar(c) + x)[0] == '\\' && (EscapeChar(c) + x)[1..] == u by {
      assert EscapeChar(c) == "\\u" + Hex4(c as int);
    }
    HexEscapeReadsBack(c, x);
  }

  /** An escaped character reads back as itself, whatever follows it. */
  lemma EscapeCharReadsBack(c: char, x: string)
    ensures ParseString(EscapeChar(c) + x) == Prepended(c, ParseString(x))
  {
    if c == '"' || c == '\\' || c == '\n' || c == '\r' || c == '\t' {
      ShortEscapeReadsBack(c, x);
    } else if NeedsUnicodeEscape(c) {
      UnicodeEscapeReadsBack(c, x);
    } else {
      RawCharReadsBack(c, x);
    }
  }

  /** A quoted string reads back as the string, leaving what follows the closing quote. */
  lemma {:induction false} QuoteReadsBack(s: string, rest: string)
    ensures ParseString(Escape(s) + "\"" + rest) == Some(Parsed(s, rest))
  {
    if s == [] {
      assert Escape(s) + "\"" + rest == "\"" + rest;
    } else {
      var x := Escape(s[1..]) + "\"" + rest;
      assert Escape(s) + "\"" + rest == EscapeChar(s[0]) + x;
      EscapeCharReadsBack(s[0], x);
      QuoteReadsBack(s[1..], rest);
      assert [s[0]] + s[1..] == s;
    }
  }

  /** Nothing that can continue a number follows it. */
  lemma NoFractionNoExponent(rest: string)
    requires Delimited(rest)
    ensures ParseFraction(rest) == Some(Parsed(false, rest))
    ensures ParseExponent(rest) == Some(Parsed(false, rest))
  {
  }

  lemma NaturalReadsBack(m: nat, rest: string)
    requires Delimited(rest)
    ensures var t := NatToString(m) + rest;
      (if t[0] == '0' then "0" else LeadingDigits(t)) == NatToString(m)
  {
    if m != 0 {
      LeadingDigitsOf(NatToString(m), rest);
    }
  }

  /** A natural number's digits read back as the number. */
  lemma DigitsReadBack(m: nat, rest: string)
    requires Delimited(rest)
    ensures ParseNumber(NatToString(m) + rest) == Some(Parsed(JNumber(m), rest))
  {
    var whole := NatToString(m);
    var t := whole + rest;
    NaturalReadsBack(m, rest);
    assert t[|whole|..] == rest;
    assert IsDigit(t[0]) && DigitsValue(whole) == m;
    NoFractionNoExponent(rest);
  }

  /** A minus sign before an integer's digits negates it. */
  lemma MinusReadsBack(t: string, m: int, rest: string)
    requires t != [] && IsDigit(t[0])
    requires ParseNumber(t) == Some(Parsed(JNumber(m), rest))
    ensures ParseNumber("-" + t) == Some(Parsed(JNumber(-m), rest))
  {
    var s := "-" + t;
    assert s[0] == '-' && s[1..] == t;
  }

  /** A negative number's text reads back as the number. */
  lemma NegativeReadsBack(m: nat, rest: string)
    requires Delimited(rest)
    ensures ParseNumber("-" + (NatToString(m) + rest)) == Some(Parsed(JNumber(-(m as int)), rest))
  {
    DigitsReadBack(m, rest);
    MinusReadsBack(NatToString(m) + rest, m, rest);
  }

  /** A negative integer is written as a minus sign and its magnitude. */
  lemma NegativeText(n: int, rest: string)
    requires n < 0
    ensures IntToString(n) + rest == "-" + (NatToString(-n) + rest)
  {
    var s := IntToString(n);
    assert s == [s[0]] + s[1..];
  }

  /** An integer's text reads back as the integer. */
  lemma IntReadsBack(n: int, rest: string)
    requires Delimited(rest)
    ensures ParseNumber(IntToString(n) + rest) == Some(Parsed(JNumber(n), rest))
  {
    if n < 0 {
      NegativeText(n, rest);
      NegativeReadsBack(-n, rest);
    } else {
      DigitsReadBack(n, rest);
    }
  }

  lemma ValueAfterSpace(s: string)
    requires s != [] && !IsJsonSpace(s[0])
    ensures SkipSpace(s) == s
  {
  }

  lemma ValueAtArray(s: string)
    requires s != [] && s[0] == '['
    ensures ParseValue(s) == ParseArray(s[1..])
  {
  }

  lemma ValueAtObject(s: string)
    requires s != [] && s[0] == '{'
    ensures ParseValue(s) == ParseObject(s[1..])
  {
  }

  lemma ValueAtNumber(s: string)
    requires s != [] && (s[0] == '-' || IsDigit(s[0]))
    ensures ParseValue(s) == ParseNumber(s)
  {
    ValueAfterSpace(s);
    assert s[0] != '{' && s[0] != '[' && s[0] != '"';
  }

  lemma ValueAtLiteral(s: string)
    requires s != [] && (s[0] == 'n' || s[0] == 't' || s[0] == 'f')
    ensures ParseValue(s) == ParseLiteral(s)
  {
    ValueAfterSpace(s);
    assert s[0] != '{' && s[0] != '[' && s[0] != '"' && s[0] != '-' && !IsDigit(s[0]);
  }

  lemma ValueAtString(s: string)
    requires s != [] && s[0] == '"'
    ensures ParseValue(s) == match ParseString(s[1..])
                             case None => None
                             case Some(p) => Some(Parsed(JString(p.value), p.rest))
  {
  }

  lemma NullReadsBack(rest: string)
    ensures ParseValue("null" + rest) == Some(Parsed(JNull, rest))
  {
    var s := "null" + rest;
    ValueAtLiteral(s);
    assert s[..4] == "null" && s[4..] == rest;
  }

  lemma TrueReadsBack(rest: string)
    ensures ParseValue("true" + rest) == Some(Parsed(JBool(true), rest))
  {
    var s := "true" + rest;
    ValueAtLiteral(s);
    assert s[..4] == "true" && s[4..] == rest;
  }

  lemma FalseReadsBack(rest: string)
    ensures ParseValue("false" + rest) == Some(Parsed(JBool(false), rest))
  {
    var s := "false" + rest;
    ValueAtLiteral(s);
    assert s[..4] != "null" && s[..4] != "true";
    assert s[..5] == "false" && s[5..] == rest;
  }

  /** The text of an object of two members: each quoted key, a colon and the value's text,
      the two members separated by a comma, all in braces. */
  lemma TwoMemberText(k1: string, v1: Json, k2: string, v2: Json)
    ensures Serialize(JObject([Member(k1, v1), Member(k2, v2)]))
         == "{" + (Quote(k1) + ":" + Serialize(v1)) + ("," + (Quote(k2) + ":" + Serialize(v2))) + "}"
  {
    var j := JObject([Member(k1, v1), Member(k2, v2)]);
    FirstMemberText(j);
    LastMemberText(j);
    MemberTextIs(j, 0);
    MemberTextIs(j, 1);
  }

  lemma MemberTextIs(j: Json, k: nat)
    requires j.JObject? && k < |j.members|
    ensures MemberText(j, k) == Quote(j.members[k].key) + ":" + Serialize(j.members[k].value)
  {
  }

  lemma FirstMemberText(j: Json)
    requires j.JObject? && |j.members| == 2
    ensures Serialize(j) == "{" + (MemberText(j, 0) + SerializeMembers(j, 1)) + "}"
  {
    var a, b := MemberText(j, 0), SerializeMembers(j, 1);
    assert "" + a == a;
  }

  lemma LastMemberText(j: Json)
    requires j.JObject? && |j.members| == 2
    ensures SerializeMembers(j, 1) == "," + MemberText(j, 1)
  {
    assert SerializeMembers(j, 2) == "";
  }

  /** A value's text starts with a character that opens a value. */
  lemma SerializeStart(j: Json)
    ensures var t := Serialize(j);
      t != [] && !IsJsonSpace(t[0]) && t[0] != ']' && t[0] != '}'
  {
    match j
    case JNumber(n) =>
    case _ =>
  }

  /** Null, booleans, numbers and strings read back. */
  lemma ScalarReadsBack(j: Json, rest: string)
    requires !j.JArray? && !j.JObject?
    requires Delimited(rest)
    ensures ParseValue(Serialize(j) + rest) == Some(Parsed(j, rest))
  {
    match j
    case JNull => NullReadsBack(rest);
    case JBool(b) => if b { TrueReadsBack(rest); } else { FalseReadsBack(rest); }
    case JNumber(n) =>
      ValueAtNumber(Serialize(j) + rest);
      IntReadsBack(n, rest);
    case JFloat =>
      ValueAtNumber(Serialize(j) + rest);
      FloatReadsBack(rest);
    case JString(str) => StringReadsBack(str, rest);
  }

  lemma FloatReadsBack(rest: string)
    requires Delimited(rest)
    ensures ParseNumber("0.0" + rest) == Some(Parsed(JFloat, rest))
  {
    var s := "0.0" + rest;
    assert s[1..] == ".0" + rest;
    LeadingDigitsOf("0", rest);
    assert s[2..] == "0" + rest;
    assert s[3..] == rest;
    NoFractionNoExponent(rest);
  }

  lemma StringReadsBack(str: string, rest: string)
    ensures ParseValue(Quote(str) + rest) == Some(Parsed(JString(str), rest))
  {
    var s := Quote(str) + rest;
    assert s[1..] == Escape(str) + "\"" + rest;
    ValueAtString(s);
    QuoteReadsBack(str, rest);
  }

  /** Every value's text reads back as the value, leaving what follows it. */
  lemma {:induction false} SerializeReadsBack(j: Json, rest: string)
    requires Delimited(rest)
    ensures ParseValue(Serialize(j) + rest) == Some(Parsed(j, rest))
    decreases j, 2
  {
    if j.JArray? {
      ValueOfArray(j, rest);
      ArrayReadsBack(j, rest);
    } else if j.JObject? {
      ValueOfObject(j, rest);
      ObjectReadsBack(j, rest);
    } else {
      ScalarReadsBack(j, rest);
    }
  }

  /** An array's text is read as an array body after its bracket. */
  lemma ValueOfArray(j: Json, rest: string)
    requires j.JArray?
    ensures ParseValue(Serialize(j) + rest) == ParseArray(SerializeItems(j, 0) + "]" + rest)
  {
    var s := Serialize(j) + rest;
    assert s[1..] == SerializeItems(j, 0) + "]" + rest;
    ValueAtArray(s);
  }

  /** An object's text is read as an object body after its brace. */
  lemma ValueOfObject(j: Json, rest: string)
    requires j.JObject?
    ensures ParseValue(Serialize(j) + rest) == ParseObject(SerializeMembers(j, 0) + "}" + rest)
  {
    var s := Serialize(j) + rest;
    assert s[1..] == SerializeMembers(j, 0) + "}" + rest;
    ValueAtObject(s);
  }

  lemma EmptyArrayReadsBack(rest: string)
    ensures ParseArray("]" + rest) == Some(Parsed(JArray([]), rest))
  {
    ValueAfterSpace("]" + rest);
  }

  lemma EmptyObjectReadsBack(rest: string)
    ensures ParseObject("}" + rest) == Some(Parsed(JObject([]), rest))
  {
    ValueAfterSpace("}" + rest);
  }

  /** An array body that starts with a value goes straight to its elements. */
  lemma ArrayStart(t: string)
    requires t != [] && !IsJsonSpace(t[0]) && t[0] != ']'
    ensures ParseArray(t) == ParseElements(t, [])
  {
    ValueAfterSpace(t);
  }

  /** An object body that starts with a key goes straight to its members. */
  lemma ObjectStart(t: string)
    requires t != [] && t[0] == '"'
    ensures ParseObject(t) == ParseMembers(t, [])
  {
    ValueAfterSpace(t);
  }

  lemma {:induction false} ArrayReadsBack(j: Json, rest: string)
    requires j.JArray?
    ensures ParseArray(SerializeItems(j, 0) + "]" + rest) == Some(Parsed(j, rest))
    decreases j, 1
  {
    var t := SerializeItems(j, 0) + "]" + rest;
    if j.items == [] {
      assert t == "]" + rest;
      EmptyArrayReadsBack(rest);
    } else {
      ItemsHead(j, rest);
      ArrayStart(t);
      ItemsReadBack(j, 0, rest);
    }
  }

  lemma {:induction false} ObjectReadsBack(j: Json, rest: string)
    requires j.JObject?
    ensures ParseObject(SerializeMembers(j, 0) + "}" + rest) == Some(Parsed(j, rest))
    decreases j, 1
  {
    var t := SerializeMembers(j, 0) + "}" + rest;
    if j.members == [] {
      assert t == "}" + rest;
      EmptyObjectReadsBack(rest);
    } else {
      MembersHead(j, rest);
      MemberTextStart(j, 0);
      ObjectStart(t);
      MembersReadBack(j, 0, rest);
    }
  }

  /** A non-empty array's text starts with its first element. */
  lemma ItemsHead(j: Json, rest: string)
    requires j.JArray? && j.items != []
    ensures SerializeItems(j, 0) + "]" + rest == Serialize(j.items[0]) + (SerializeItems(j, 1) + "]" + rest)
    ensures var t := SerializeItems(j, 0) + "]" + rest; t != [] && !IsJsonSpace(t[0]) && t[0] != ']'
    ensures j.items[..0] == []
  {
    SerializeStart(j.items[0]);
  }

  /** A non-empty object's text starts with its first member. */
  lemma MembersHead(j: Json, rest: string)
    requires j.JObject? && j.members != []
    ensures SerializeMembers(j, 0) + "}" + rest == MemberText(j, 0) + (SerializeMembers(j, 1) + "}" + rest)
    ensures j.members[..0] == []
  {
  }

  lemma PrefixStep<T>(s: seq<T>, k: nat)
    requires k < |s|
    ensures s[..k] + [s[k]] == s[..k + 1]
  {
  }

  lemma MemberTextStart(j: Json, k: nat)
    requires j.JObject? && k < |j.members|
    ensures MemberText(j, k) != [] && MemberText(j, k)[0] == '"'
  {
  }

  /** After an element, a bracket ends the array. */
  lemma ElementsEnd(s: string, v: Json, x: string, done: seq<Json>)
    requires ParseValue(s) == Some(Parsed(v, x))
    requires x != [] && x[0] == ']'
    ensures ParseElements(s, done) == Some(Parsed(JArray(done + [v]), x[1..]))
  {
    ValueAfterSpace(x);
  }

  /** After an element, a comma continues the array. */
  lemma ElementsNext(s: string, v: Json, x: string, done: seq<Json>)
    requires ParseValue(s) == Some(Parsed(v, x))
    requires x != [] && x[0] == ','
    ensures ParseElements(s, done) == ParseElements(x[1..], done + [v])
  {
    ValueAfterSpace(x);
  }

  /** After a member, a brace ends the object. */
  lemma MembersEnd(s: string, m: Member, x: string, done: seq<Member>)
    requires ParseMember(s) == Some(Parsed(m, x))
    requires x != [] && x[0] == '}'
    ensures ParseMembers(s, done) == Some(Parsed(JObject(done + [m]), x[1..]))
  {
    ValueAfterSpace(x);
  }

  /** After a member, a comma continues the object. */
  lemma MembersNext(s: string, m: Member, x: string, done: seq<Member>)
    requires ParseMember(s) == Some(Parsed(m, x))
    requires x != [] && x[0] == ','
    ensures ParseMembers(s, done) == ParseMembers(x[1..], done + [m])
  {
    ValueAfterSpace(x);
  }

  /** What follows element `k` of an array's text: a bracket after the last one, a
      comma and the next element otherwise. */
  lemma ItemsTail(j: Json, k: nat, rest: string)
    requires j.JArray? && k < |j.items|
    ensures var x := SerializeItems(j, k + 1) + "]" + rest;
      && x != [] && (x[0] == ',' || x[0] == ']')
      && (k + 1 == |j.items| ==> x == "]" + rest)
      && (k + 1 < |j.items| ==> x[0] == ',' && x[1..] == Serialize(j.items[k + 1]) + (SerializeItems(j, k + 2) + "]" + rest))
  {
    var x := SerializeItems(j, k + 1) + "]" + rest;
    if k + 1 < |j.items| {
      assert x == "," + (Serialize(j.items[k + 1]) + (SerializeItems(j, k + 2) + "]" + rest));
    }
  }

  /** What follows member `k` of an object's text. */
  lemma MembersTail(j: Json, k: nat, rest: string)
    requires j.JObject? && k < |j.members|
    ensures k + 1 == |j.members| ==> SerializeMembers(j, k + 1) + "}" + rest == "}" + rest
    ensures k + 1 < |j.members| ==>
      SerializeMembers(j, k + 1) + "}" + rest == "," + (MemberText(j, k + 1) + (SerializeMembers(j, k + 2) + "}" + rest))
  {
  }

  /** A separator followed by more text: its head and its tail. */
  lemma SeparatorCut(c: char, t: string)
    ensures ([c] + t) != [] && ([c] + t)[0] == c && ([c] + t)[1..] == t
  {
  }

  lemma {:induction false} ItemsReadBack(j: Json, k: nat, rest: string)
    requires j.JArray? && k < |j.items|
    ensures ParseElements(Serialize(j.items[k]) + (SerializeItems(j, k + 1) + "]" + rest), j.items[..k])
         == Some(Parsed(j, rest))
    decreases j, 0, |j.items| - k
  {
    var x := SerializeItems(j, k + 1) + "]" + rest;
    ItemsTail(j, k, rest);
    SerializeReadsBack(j.items[k], x);
    PrefixStep(j.items, k);
    if k + 1 == |j.items| {
      ElementsEnd(Serialize(j.items[k]) + x, j.items[k], x, j.items[..k]);
      assert j.items[..k + 1] == j.items;
    } else {
      ElementsNext(Serialize(j.items[k]) + x, j.items[k], x, j.items[..k]);
      ItemsReadBack(j, k + 1, rest);
    }
  }

  /** A key, a colon and a value make a member. */
  lemma MemberOf(s: string, key: string, y: string, v: Json, x: string)
    requires s != [] && s[0] == '"' && ParseString(s[1..]) == Some(Parsed(key, y))
    requires y != [] && y[0] == ':' && ParseValue(y[1..]) == Some(Parsed(v, x))
    ensures ParseMember(s) == Some(Parsed(Member(key, v), x))
  {
    ValueAfterSpace(s);
    ValueAfterSpace(y);
  }

  lemma {:induction false} MemberReadsBack(j: Json, k: nat, x: string)
    requires j.JObject? && k < |j.members|
    requires Delimited(x)
    ensures ParseMember(MemberText(j, k) + x) == Some(Parsed(j.members[k], x))
    decreases j, 0, 0
  {
    var m := j.members[k];
    assert m.value < j;
    var y := ":" + (Serialize(m.value) + x);
    var s := MemberText(j, k) + x;
    MemberTextCut(j, k, x);
    QuoteReadsBack(m.key, y);
    SerializeReadsBack(m.value, x);
    MemberOf(s, m.key, y, m.value, x);
  }

  /** A member's text: a quote, the escaped key, a quote, then the colon and the value. */
  lemma MemberTextCut(j: Json, k: nat, x: string)
    requires j.JObject? && k < |j.members|
    ensures var m := j.members[k];
      var s := MemberText(j, k) + x;
      var y := ":" + (Serialize(m.value) + x);
      && s != [] && s[0] == '"'
      && s[1..] == Escape(m.key) + "\"" + y
      && y[1..] == Serialize(m.value) + x
  {
    var m := j.members[k];
    var y := ":" + (Serialize(m.value) + x);
    var s := "\"" + (Escape(m.key) + "\"" + y);
    assert s == MemberText(j, k) + x;
    assert s[1..] == Escape(m.key) + "\"" + y;
  }

  lemma {:induction false} MembersReadBack(j: Json, k: nat, rest: string)
    requires j.JObject? && k < |j.members|
    ensures ParseMembers(MemberText(j, k) + (SerializeMembers(j, k + 1) + "}" + rest), j.members[..k])
         == Some(Parsed(j, rest))
    decreases j, 0, |j.members| - k
  {
    var x := SerializeMembers(j, k + 1) + "}" + rest;
    MembersTail(j, k, rest);
    MemberReadsBack(j, k, x);
    PrefixStep(j.members, k);
    if k + 1 == |j.members| {
      SeparatorCut('}', rest);
      MembersEnd(MemberText(j, k) + x, j.members[k], x, j.members[..k]);
      assert j.members[..k + 1] == j.members;
    } else {
      SeparatorCut(',', MemberText(j, k + 1) + (SerializeMembers(j, k + 2) + "}" + rest));
      MembersNext(MemberText(j, k) + x, j.members[k], x, j.members[..k]);
      MembersReadBack(j, k + 1, rest);
    }
  }

  // ---------------------------------------------------------------- field names

  function AsciiLower(c: char): char {
    if 'A' <= c <= 'Z' then (c as int - 'A' as int + 'a' as int) as char else c
  }

  /** Whether an object key selects a struct field: the decoder takes an exact match
      and otherwise a match that ignores letter case. */
  predicate KeyMatches(key: string, field: string) {
    |key| == |field| && forall k :: 0 <= k < |key| ==> AsciiLower(key[k]) == AsciiLower(field[k])
  }
}
