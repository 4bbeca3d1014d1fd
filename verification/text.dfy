/** The string helpers of Go's `strings` package that the language-pair code uses:
    `TrimSpace` and `Split` with a one-character separator. */
module Text {

  /** The separator of the site's language labels, an en dash (U+2013), not a hyphen. */
  const EnDash: char := '\U{2013}'

  /** Go's `unicode.IsSpace`: the Latin-1 white space characters and the
      characters of Unicode's White_Space property. */
  predicate IsSpace(c: char) {
    c == '\t' || c == '\n' || c == '\U{000B}' || c == '\U{000C}' || c == '\r' || c == ' '
    || c == '\U{0085}' || c == '\U{00A0}' || c == '\U{1680}'
    || ('\U{2000}' <= c <= '\U{200A}')
    || c == '\U{2028}' || c == '\U{2029}' || c == '\U{202F}' || c == '\U{205F}' || c == '\U{3000}'
  }

  /** Drops the leading white space of `s`. */
  function TrimLeft(s: string): (r: string)
    ensures |r| <= |s| && r == s[|s| - |r|..]
    ensures forall k :: 0 <= k < |s| - |r| ==> IsSpace(s[k])
    ensures r == [] || !IsSpace(r[0])
  {
    if s != [] && IsSpace(s[0]) then TrimLeft(s[1..]) else s
  }

  /** Drops the trailing white space of `s`. */
  function TrimRight(s: string): (r: string)
    ensures |r| <= |s| && r == s[..|r|]
    ensures forall k :: |r| <= k < |s| ==> IsSpace(s[k])
    ensures r == [] || !IsSpace(r[|r| - 1])
  {
    if s != [] && IsSpace(s[|s| - 1]) then TrimRight(s[..|s| - 1]) else s
  }

  /** Go's `strings.TrimSpace`: the infix `s[i..j]` left after removing white space
      from both ends; it neither starts nor ends with white space. */
  function TrimSpace(s: string): (r: string)
    ensures exists i, j :: 0 <= i <= j <= |s| && r == s[i..j]
                        && (forall k :: 0 <= k < i ==> IsSpace(s[k]))
                        && (forall k :: j <= k < |s| ==> IsSpace(s[k]))
    ensures r != [] ==> !IsSpace(r[0]) && !IsSpace(r[|r| - 1])
  {
    var l := TrimLeft(s);
    var r := TrimRight(l);
    var i := |s| - |l|;
    assert r == s[i..i + |r|];
    r
  }

  /** The inverse of `Split`: the parts glued back together with the separator. */
  function Join(parts: seq<string>, sep: char): string
    requires parts != []
  {
    if |parts| == 1 then parts[0] else parts[0] + [sep] + Join(parts[1..], sep)
  }

  /** Go's `strings.Split(s, string(sep))`: the pieces between the occurrences of `sep`.
      There is one more piece than there are separators, none of the pieces holds the
      separator, and joining them back gives `s`. */
  function Split(s: string, sep: char): (parts: seq<string>)
    ensures |parts| == multiset(s)[sep] + 1
    ensures forall k :: 0 <= k < |parts| ==> sep !in parts[k]
    ensures Join(parts, sep) == s
  {
    if s == [] then [[]]
    else
      var rest := Split(s[1..], sep);
      var parts := if s[0] == sep then [[]] + rest else [[s[0]] + rest[0]] + rest[1..];
      SplitStep(s, sep, rest, parts);
      parts
  }

  /** One step of `Split`: the pieces of `s` from the pieces of `s[1..]`. */
  lemma SplitStep(s: string, sep: char, rest: seq<string>, parts: seq<string>)
    requires s != []
    requires |rest| == multiset(s[1..])[sep] + 1
    requires forall k :: 0 <= k < |rest| ==> sep !in rest[k]
    requires Join(rest, sep) == s[1..]
    requires parts == if s[0] == sep then [[]] + rest else [[s[0]] + rest[0]] + rest[1..]
    ensures |parts| == multiset(s)[sep] + 1
    ensures forall k :: 0 <= k < |parts| ==> sep !in parts[k]
    ensures Join(parts, sep) == s
  {
    assert s == [s[0]] + s[1..];
    assert multiset(s) == multiset([s[0]]) + multiset(s[1..]);
    if s[0] == sep {
      SplitStepAtSep(s, sep, rest);
    } else {
      SplitStepInPiece(s, sep, rest);
    }
  }

  lemma SplitStepAtSep(s: string, sep: char, rest: seq<string>)
    requires s != [] && s[0] == sep && rest != []
    requires Join(rest, sep) == s[1..]
    ensures Join([[]] + rest, sep) == s
  {
    var parts := [[]] + rest;
    assert parts[1..] == rest;
    assert s == [s[0]] + s[1..];
  }

  lemma SplitStepInPiece(s: string, sep: char, rest: seq<string>)
    requires s != [] && s[0] != sep && rest != []
    requires sep !in rest[0]
    requires Join(rest, sep) == s[1..]
    ensures sep !in [s[0]] + rest[0]
    ensures Join([[s[0]] + rest[0]] + rest[1..], sep) == s
  {
    var parts := [[s[0]] + rest[0]] + rest[1..];
    assert s == [s[0]] + s[1..];
    if |rest| == 1 {
      assert Join(parts, sep) == [s[0]] + Join(rest, sep);
    } else {
      assert parts[1..] == rest[1..];
    }
  }

  /** When the separator occurs exactly once, `Split` cuts `s` at that occurrence. */
  lemma {:induction false} SplitInTwo(s: string, sep: char)
    requires multiset(s)[sep] == 1
    ensures var parts := Split(s, sep);
      |parts| == 2 && s == parts[0] + [sep] + parts[1]
      && 0 <= |parts[0]| < |s| && s[|parts[0]|] == sep
  {
    var parts := Split(s, sep);
    assert parts[1..] == [parts[1]];
    assert Join(parts[1..], sep) == parts[1];
  }

  /** A string cut at a separator that occurs in neither left part is cut at the same place. */
  lemma SameCut(a: string, b: string, c: string, d: string, sep: char)
    requires a + [sep] + b == c + [sep] + d
    requires sep !in a && sep !in c
    ensures a == c && b == d
  {
    var s := a + [sep] + b;
    assert forall i :: 0 <= i < |a| ==> s[i] == a[i] && a[i] in a;
    assert forall i :: 0 <= i < |c| ==> s[i] == c[i] && c[i] in c;
    assert s[|a|] == sep && s[|c|] == sep;
    assert a == s[..|a|] == c;
    assert b == s[|a| + 1..] == d;
  }

  /** Conversely, cutting `a + [sep] + b` where neither side holds the separator gives the two sides. */
  lemma {:induction false} SplitOfTwo(a: string, b: string, sep: char)
    requires sep !in a && sep !in b
    ensures Split(a + [sep] + b, sep) == [a, b]
  {
    var s := a + [sep] + b;
    assert multiset(s) == multiset(a) + multiset([sep]) + multiset(b);
    assert multiset(a)[sep] == 0 && multiset(b)[sep] == 0;
    SplitInTwo(s, sep);
    var parts := Split(s, sep);
    assert sep !in parts[0];
    SameCut(a, b, parts[0], parts[1], sep);
  }
}
