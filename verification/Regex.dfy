/** The regular-expression matcher of grep.c (match, matchhere, matchstar), proved to decide
    membership in the language its pattern denotes. Strings are sequences; the terminating NUL
    is the end of the sequence. */
module Regex {

  /** One pattern item: a character (or dot), or a starred one. */
  datatype Item = One(c: char) | Star(c: char)

  /** The items of a pattern, and whether it ends in the anchor $. */
  datatype Pattern = Pattern(items: seq<Item>, atEnd: bool)

  /** How the matcher reads a pattern: x* before anything else, a final $ as the anchor, and
      every other character, including * and ^ out of place, as itself. */
  function Read(re: seq<char>): Pattern {
    if re == [] then Pattern([], false)
    else if |re| > 1 && re[1] == '*' then
      var rest := Read(re[2..]);
      Pattern([Star(re[0])] + rest.items, rest.atEnd)
    else if re == ['$'] then Pattern([], true)
    else
      var rest := Read(re[1..]);
      Pattern([One(re[0])] + rest.items, rest.atEnd)
  }

  predicate CharOk(c: char, x: char) {
    c == '.' || c == x
  }

  ghost predicate ItemLang(it: Item, w: seq<char>) {
    match it
    case One(c) => |w| == 1 && CharOk(c, w[0])
    case Star(c) => forall k :: 0 <= k < |w| ==> CharOk(c, w[k])
  }

  /** The language of a list of items: concatenations of words of each. */
  ghost predicate Lang(items: seq<Item>, w: seq<char>) {
    if items == [] then w == []
    else exists k :: 0 <= k <= |w| && ItemLang(items[0], w[..k]) && Lang(items[1..], w[k..])
  }

  /** The pattern matches the first j characters of text. */
  ghost predicate Prefix(p: Pattern, text: seq<char>, j: nat) {
    j <= |text| && Lang(p.items, text[..j]) && (p.atEnd ==> j == |text|)
  }

  ghost predicate Here(re: seq<char>, text: seq<char>) {
    exists j: nat :: Prefix(Read(re), text, j)
  }

  ghost predicate StarHere(c: char, re: seq<char>, text: seq<char>) {
    exists k :: 0 <= k <= |text| && ItemLang(Star(c), text[..k]) && Here(re, text[k..])
  }

  /** match: is a substring of text (a prefix of it, for a pattern starting with ^) in the
      pattern's language, reaching the end of text if the pattern ends with $? */
  ghost predicate Matches(re: seq<char>, text: seq<char>) {
    if re != [] && re[0] == '^' then Here(re[1..], text)
    else exists i :: 0 <= i <= |text| && Here(re, text[i..])
  }

  lemma HereEmpty(text: seq<char>)
    ensures Here([], text)
  {
    assert Prefix(Read([]), text, 0);
  }

  lemma HereDollar(text: seq<char>)
    ensures Here(['$'], text) <==> text == []
  {
    if text == [] { assert Prefix(Read(['$']), text, 0); }
  }

  lemma HereStar(re: seq<char>, text: seq<char>)
    requires |re| > 1 && re[1] == '*'
    ensures Here(re, text) <==> StarHere(re[0], re[2..], text)
  {
    var p, rest := Read(re), Read(re[2..]);
    assert p.items[0] == Star(re[0]) && p.items[1..] == rest.items;
    if Here(re, text) {
      var j: nat :| Prefix(p, text, j);
      var w := text[..j];
      var k :| 0 <= k <= |w| && ItemLang(p.items[0], w[..k]) && Lang(p.items[1..], w[k..]);
      assert w[..k] == text[..k] && w[k..] == text[k..][..j - k];
      assert Prefix(rest, text[k..], j - k);
    }
    if StarHere(re[0], re[2..], text) {
      var k :| 0 <= k <= |text| && ItemLang(Star(re[0]), text[..k]) && Here(re[2..], text[k..]);
      var j: nat :| Prefix(rest, text[k..], j);
      var w := text[..k + j];
      assert w[..k] == text[..k] && w[k..] == text[k..][..j];
      assert Prefix(p, text, k + j);
    }
  }

  lemma HereOne(re: seq<char>, text: seq<char>)
    requires re != [] && !(|re| > 1 && re[1] == '*') && re != ['$']
    ensures Here(re, text) <==> text != [] && CharOk(re[0], text[0]) && Here(re[1..], text[1..])
  {
    var p, rest := Read(re), Read(re[1..]);
    assert p.items[0] == One(re[0]) && p.items[1..] == rest.items;
    if Here(re, text) {
      var j: nat :| Prefix(p, text, j);
      var w := text[..j];
      var k :| 0 <= k <= |w| && ItemLang(p.items[0], w[..k]) && Lang(p.items[1..], w[k..]);
      assert |w[..k]| == 1;
      assert w[k..] == text[1..][..j - 1];
      assert Prefix(rest, text[1..], j - 1);
    }
    if text != [] && CharOk(re[0], text[0]) && Here(re[1..], text[1..]) {
      var j: nat :| Prefix(rest, text[1..], j);
      var w := text[..j + 1];
      assert w[..1] == [text[0]] && w[1..] == text[1..][..j];
      assert ItemLang(p.items[0], w[..1]);
      assert Prefix(p, text, j + 1);
    }
  }

  method MatchHere(re: seq<char>, text: seq<char>) returns (r: bool)
    ensures r <==> Here(re, text)
    decreases |re|, 0
  {
    if re == [] {
      HereEmpty(text);
      return true;
    }
    if |re| > 1 && re[1] == '*' {
      HereStar(re, text);
      r := MatchStar(re[0], re[2..], text);
      return;
    }
    if re[0] == '$' && |re| == 1 {
      HereDollar(text);
      assert re == ['$'];
      return text == [];
    }
    HereOne(re, text);
    if text != [] && (re[0] == '.' || re[0] == text[0]) {
      r := MatchHere(re[1..], text[1..]);
      return;
    }
    return false;
  }

  method MatchStar(c: char, re: seq<char>, text: seq<char>) returns (r: bool)
    ensures r <==> StarHere(c, re, text)
    decreases |re|, 1
  {
    var i := 0;
    while true
      invariant 0 <= i <= |text| && ItemLang(Star(c), text[..i])
      invariant forall k :: 0 <= k < i ==> !Here(re, text[k..])
      decreases |text| - i
    {
      var here := MatchHere(re, text[i..]);
      if here { return true; }
      if !(i < |text| && (text[i] == c || c == '.')) { break; }
      i := i + 1;
    }
    forall k | 0 <= k <= |text| && ItemLang(Star(c), text[..k]) ensures !Here(re, text[k..]) {}
    return false;
  }

  /** The matcher decides the pattern's language, for all patterns and texts. */
  method Match(re: seq<char>, text: seq<char>) returns (r: bool)
    ensures r <==> Matches(re, text)
  {
    if re != [] && re[0] == '^' {
      r := MatchHere(re[1..], text);
      return;
    }
    var i := 0;
    while true
      invariant 0 <= i <= |text|
      invariant forall k :: 0 <= k < i ==> !Here(re, text[k..])
      decreases |text| - i
    {
      var here := MatchHere(re, text[i..]);
      if here { return true; }
      if i == |text| { break; }
      i := i + 1;
    }
    return false;
  }

  /** Matches, spelled out over substrings. */
  lemma MatchesSubstring(re: seq<char>, text: seq<char>)
    requires re == [] || re[0] != '^'
    ensures Matches(re, text) <==>
      exists i, j :: 0 <= i <= j <= |text| && Lang(Read(re).items, text[i..j]) && (Read(re).atEnd ==> j == |text|)
  {
    var p := Read(re);
    if Matches(re, text) {
      var i :| 0 <= i <= |text| && Here(re, text[i..]);
      var j: nat :| Prefix(p, text[i..], j);
      assert text[i..][..j] == text[i..i + j];
    }
    if i, j :| 0 <= i <= j <= |text| && Lang(p.items, text[i..j]) && (p.atEnd ==> j == |text|) {
      assert text[i..][..j - i] == text[i..j];
      assert Prefix(p, text[i..], j - i);
    }
  }
}
