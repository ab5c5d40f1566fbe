/** The parser reads every spelling: whatever the blanks, the signs and the order of words and
    redirections, it accepts the line and finds the tree the spelling means. */
module ShellReads {
  import opened ShellSyntax
  import opened ShellText

  // ---------------------------------------------------------------- one token

  /** Nothing to skip at the front. */
  predicate Sharp(rest: string) {
    rest == "" || !IsSpace(rest[0])
  }

  /** A word may end here. */
  predicate Breaks(rest: string) {
    rest == "" || IsSpace(rest[0]) || IsSymbol(rest[0])
  }

  ghost predicate At(s: string, i: nat, text: string) {
    i <= |s| && s[i..] == text
  }

  lemma AtSplit(s: string, i: nat, a: string, b: string)
    requires At(s, i, a + b)
    ensures At(s, i + |a|, b) && i + |a| <= |s| && s[i..i + |a|] == a
    ensures b != "" ==> i + |a| < |s| && s[i + |a|] == b[0]
    ensures b == "" ==> i + |a| == |s|
  {}

  lemma BlankAt(g: string, x: nat)
    requires Blank(g) && x < |g|
    ensures IsSpace(g[x])
  {}

  lemma WordAt(w: string, x: nat)
    requires Word(w) && x < |w|
    ensures WordChar(w[x])
  {}

  lemma {:induction false} SkipTo(s: string, i: nat, j: nat)
    requires i <= j <= |s| && (forall x :: i <= x < j ==> IsSpace(s[x])) && (j < |s| ==> !IsSpace(s[j]))
    ensures SkipSpace(s, i) == j
    decreases j - i
  {
    if i < j { SkipTo(s, i + 1, j); }
  }

  /** Blanks are skipped, and the cursor stands at what comes behind. */
  lemma SkipGap(s: string, i: nat, g: string, rest: string)
    requires At(s, i, g + rest) && Blank(g) && Sharp(rest)
    ensures SkipSpace(s, i) == i + |g| && At(s, i + |g|, rest) && i + |g| <= |s|
  {
    AtSplit(s, i, g, rest);
    forall x | i <= x < i + |g| ensures IsSpace(s[x]) {
      BlankAt(g, x - i);
      assert s[x] == s[i..i + |g|][x - i];
    }
    SkipTo(s, i, i + |g|);
  }

  lemma SharpStays(s: string, i: nat, text: string)
    requires At(s, i, text) && Sharp(text)
    ensures SkipSpace(s, i) == i
    ensures text != "" ==> i < |s| && s[i] == text[0]
    ensures text == "" ==> i == |s|
  {}

  lemma {:induction false} WordEndAt(s: string, i: nat, e: nat)
    requires i <= e <= |s| && (e < |s| ==> IsSpace(s[e]) || IsSymbol(s[e]))
    requires forall x :: i <= x < e ==> WordChar(s[x])
    ensures WordEnd(s, i) == e
    decreases e - i
  {
    if i < e {
      assert WordChar(s[i]);
      WordEndAt(s, i + 1, e);
    }
  }

  lemma WordLex(s: string, i: nat, e: nat, j: nat)
    requires i < e <= j <= |s| && (forall x :: i <= x < e ==> WordChar(s[x]))
    requires e < |s| ==> IsSpace(s[e]) || IsSymbol(s[e])
    requires SkipSpace(s, e) == j
    ensures GetToken(s, i) == Lexeme(WORD, Tok(i, e), j) && SkipSpace(s, i) == i && WordChar(s[i])
  {
    assert WordChar(s[i]);
    SkipTo(s, i, i);
    WordEndAt(s, i, e);
  }

  /** A word is one token, and the cursor lands behind its blanks. */
  lemma WordToken(s: string, i: nat, w: string, g: string, rest: string)
    requires At(s, i, w + (g + rest)) && Word(w) && Blank(g) && Sharp(rest) && Breaks(g + rest)
    ensures i < |s| && WordChar(s[i]) && SkipSpace(s, i) == i
    ensures GetToken(s, i) == Lexeme(WORD, Tok(i, i + |w|), i + |w| + |g|)
    ensures At(s, i + |w| + |g|, rest) && Text(s, Tok(i, i + |w|)) == w
  {
    hide At, SkipSpace, GetToken, WordChar, IsSpace, IsSymbol;
    AtSplit(s, i, w, g + rest);
    SkipGap(s, i + |w|, g, rest);
    forall x | i <= x < i + |w| ensures WordChar(s[x]) {
      WordAt(w, x - i);
      assert s[x] == s[i..i + |w|][x - i];
    }
    WordLex(s, i, i + |w|, i + |w| + |g|);
  }

  lemma SymbolToken(s: string, i: nat, c: char, g: string, rest: string)
    requires At(s, i, [c] + (g + rest)) && IsSymbol(c) && Blank(g) && Sharp(rest)
    requires c == '>' ==> g + rest == "" || (g + rest)[0] != '>'
    ensures SkipSpace(s, i) == i && i < |s| && s[i] == c
    ensures GetToken(s, i) == Lexeme(c, Tok(i, i + 1), i + 1 + |g|) && At(s, i + 1 + |g|, rest)
  {
    AtSplit(s, i, [c], g + rest);
    SkipGap(s, i + 1, g, rest);
  }

  lemma AppendToken(s: string, i: nat, g: string, rest: string)
    requires At(s, i, ">>" + (g + rest)) && Blank(g) && Sharp(rest)
    ensures SkipSpace(s, i) == i && i < |s| && s[i] == '>'
    ensures GetToken(s, i) == Lexeme(APPEND, Tok(i, i + 2), i + 2 + |g|) && At(s, i + 2 + |g|, rest)
  {
    AtSplit(s, i, ">>", g + rest);
    assert s[i..i + 2][1] == '>';
    SkipGap(s, i + 2, g, rest);
  }

  lemma PeekAt(s: string, i: nat, text: string, toks: string)
    requires At(s, i, text) && Sharp(text)
    ensures Peek(s, i, toks) <==> text != "" && text[0] in toks
  {}

  // ---------------------------------------------------------------- redirections and arguments

  /** What may follow a simple command or a block. */
  predicate Follows(rest: string) {
    rest == "" || rest[0] == '|' || rest[0] == ')' || rest[0] == '&' || rest[0] == ';'
  }

  /** Items start with a word or a sign, never with a blank. */
  lemma ItemsSharp(items: seq<Item>, rest: string)
    requires ItemsOk(items) && Follows(rest)
    ensures var x := ItemsText(items) + rest;
      && Sharp(x) && (x == "" || x[0] != '(')
      && (items == [] || items[0].Into? ==> Breaks(x))
      && (items != [] && items[0].Into? ==> x != "" && (x[0] == '<' || x[0] == '>'))
      && (items == [] || items[0].Arg? ==> x == "" || (x[0] != '<' && x[0] != '>'))
  {
    var x := ItemsText(items) + rest;
    if items == [] {
      assert x == rest;
    } else {
      var it := items[0];
      assert ItemOk(it);
      if it.Arg? {
        WordAt(it.word, 0);
        assert x[0] == it.word[0];
      } else {
        assert x[0] == it.sign[0];
      }
    }
  }

  /** One redirection, as one round of parseredirs reads it. */
  lemma IntoRead(s: string, i: nat, it: Item, rest: string)
    requires ItemOk(it) && it.Into? && At(s, i, ItemText(it) + rest) && Sharp(rest) && Breaks(it.gap + rest)
    ensures i < |s| && (s[i] == '<' || s[i] == '>') && SkipSpace(s, i) == i
    ensures var op := GetToken(s, i);
            var file := GetToken(s, op.next);
      && file.kind == WORD && Text(s, file.tok) == it.file && (op.kind != '<' <==> it.sign != "<")
      && file.next == i + |ItemText(it)| && At(s, file.next, rest)
  {
    hide At, GetToken, SkipSpace, Text;
    var tail := it.file + (it.gap + rest);
    assert ItemText(it) + rest == it.sign + (it.mid + tail) by { FourParts(it.sign, it.mid, it.file, it.gap, rest); }
    WordAt(it.file, 0);
    assert tail[0] == it.file[0];
    NoSign(it.mid, tail);
    if it.sign == ">>" {
      AppendToken(s, i, it.mid, tail);
    } else {
      SymbolToken(s, i, it.sign[0], it.mid, tail);
    }
    WordToken(s, i + |it.sign| + |it.mid|, it.file, it.gap, rest);
  }

  lemma FourParts(a: string, b: string, c: string, d: string, e: string)
    ensures (a + b + c + d) + e == a + (b + (c + (d + e)))
  {}

  lemma NoSign(g: string, tail: string)
    requires Blank(g) && tail != "" && WordChar(tail[0])
    ensures (g + tail)[0] != '>'
  {
    if g != "" { BlankAt(g, 0); }
  }

  lemma {:induction false} RedirsRead(s: string, i: nat, items: seq<Item>, rest: string) returns (rs: seq<Redirect>)
    requires ItemsOk(items) && (forall k :: 0 <= k < |items| ==> items[k].Into?) && At(s, i, ItemsText(items) + rest)
    requires Sharp(rest) && (rest == "" || (rest[0] != '<' && rest[0] != '>'))
    requires items != [] ==> Breaks(items[|items| - 1].gap + rest)
    ensures Redirs(s, i) == Ok(rs, i + |ItemsText(items)|) && TargetsOf(s, rs) == Targets(items)
    ensures At(s, i + |ItemsText(items)|, rest)
    decreases |items|
  {
    hide At, GetToken, SkipSpace, Redirs, ItemsText, Targets, TargetsOf, Text, ItemText, Word, Blank, Sharp, Breaks;
    if items == [] {
      RedirsNone(s, i, items, rest);
      rs := [];
    } else {
      var it, more := items[0], ItemsText(items[1..]) + rest;
      ItemsCons(items);
      Assoc(ItemText(it), ItemsText(items[1..]), rest);
      MoreSharp(items[1..], it.gap, rest);
      IntoRead(s, i, it, more);
      var op := GetToken(s, i);
      var file := GetToken(s, op.next);
      var tail := RedirsRead(s, file.next, items[1..], rest);
      rs := [Redirect(file.tok, op.kind != '<')] + tail;
      RedirsUnfold(s, i);
      TargetsCons(s, Redirect(file.tok, op.kind != '<'), tail);
    }
  }

  lemma MoreSharp(items: seq<Item>, gap: string, rest: string)
    requires ItemsOk(items) && (forall k :: 0 <= k < |items| ==> items[k].Into?) && Blank(gap) && Sharp(rest)
    requires items == [] ==> Breaks(gap + rest)
    ensures var x := ItemsText(items) + rest; Sharp(x) && Breaks(gap + x)
  {
    var x := ItemsText(items) + rest;
    if items == [] {
      assert x == rest;
    } else {
      assert x[0] == items[0].sign[0];
      if gap == "" { assert gap + x == x; } else { BlankAt(gap, 0); }
    }
  }

  lemma RedirsNone(s: string, i: nat, items: seq<Item>, rest: string)
    requires items == [] && At(s, i, ItemsText(items) + rest)
    requires Sharp(rest) && (rest == "" || (rest[0] != '<' && rest[0] != '>'))
    ensures Redirs(s, i) == Ok([], i) && |ItemsText(items)| == 0 && At(s, i, rest)
    ensures TargetsOf(s, []) == Targets(items)
  {}

  lemma TargetsCons(s: string, r: Redirect, rs: seq<Redirect>)
    ensures TargetsOf(s, [r] + rs) == [Target(Text(s, r.file), r.write)] + TargetsOf(s, rs)
  {}

  lemma RedirsUnfold(s: string, i: nat)
    requires i < |s| && SkipSpace(s, i) == i && (s[i] == '<' || s[i] == '>')
    ensures var op := GetToken(s, i);
            var file := GetToken(s, op.next);
      file.kind == WORD && Redirs(s, file.next).Ok? ==>
        Redirs(s, i) == Ok([Redirect(file.tok, op.kind != '<')] + Redirs(s, file.next).value, Redirs(s, file.next).pos)
  {}

  /** How many redirections stand at the front. */
  function Lead(items: seq<Item>): (n: nat)
    ensures n <= |items| && (n < |items| ==> items[n].Arg?) && forall k :: 0 <= k < n ==> items[k].Into?
  {
    if items == [] || items[0].Arg? then 0 else 1 + Lead(items[1..])
  }

  lemma PartsOk(items: seq<Item>, n: nat)
    requires ItemsOk(items) && n <= |items|
    ensures ItemsOk(items[..n]) && ItemsOk(items[n..]) && items == items[..n] + items[n..]
  {}

  /** A front of redirections, what comes behind it, and the whole text. */
  lemma Front(items: seq<Item>, n: nat, rest: string)
    requires ItemsOk(items) && n == Lead(items) && Follows(rest)
    ensures var x := ItemsText(items[n..]) + rest;
      && ItemsText(items) + rest == ItemsText(items[..n]) + x
      && |ItemsText(items)| == |ItemsText(items[..n])| + |ItemsText(items[n..])|
      && Words(items) == Words(items[n..]) && Targets(items) == Targets(items[..n]) + Targets(items[n..])
      && Sharp(x) && (x == "" || (x[0] != '<' && x[0] != '>')) && (n > 0 ==> Breaks(items[n - 1].gap + x))
  {
    hide ItemsText, Words, Targets;
    PartsOk(items, n);
    ItemsConcat(items[..n], items[n..]);
    NoWords(items[..n]);
    assert [] + Words(items[n..]) == Words(items[n..]);
    Assoc(ItemsText(items[..n]), ItemsText(items[n..]), rest);
    ItemsSharp(items[n..], rest);
    if n > 0 { GapBreaks(items, n, rest); }
  }

  lemma GapBreaks(items: seq<Item>, n: nat, rest: string)
    requires ItemsOk(items) && 0 < n <= |items| && Follows(rest)
    ensures Breaks(items[n - 1].gap + (ItemsText(items[n..]) + rest))
  {
    var gap, x := items[n - 1].gap, ItemsText(items[n..]) + rest;
    assert ItemOk(items[n - 1]);
    PartsOk(items, n);
    ItemsSharp(items[n..], rest);
    if gap == "" {
      assert gap + x == x;
      assert n < |items| ==> items[n].Into?;
    } else {
      BlankAt(gap, 0);
    }
  }

  lemma {:induction false} NoWords(items: seq<Item>)
    requires forall k :: 0 <= k < |items| ==> items[k].Into?
    ensures Words(items) == []
  {
    if items != [] { NoWords(items[1..]); }
  }

  /** One round of the argument loop: a word, and the redirections up to the next one. */
  lemma ArgsHead(s: string, i: nat, it: Item, mid: seq<Item>, x: string, argv: seq<Tok>, rs0: seq<Redirect>)
    returns (tok: Tok, tail: seq<Redirect>)
    requires ItemOk(it) && it.Arg? && At(s, i, it.word + (it.gap + (ItemsText(mid) + x)))
    requires Sharp(ItemsText(mid) + x) && Breaks(it.gap + (ItemsText(mid) + x))
    requires ItemsOk(mid) && (forall k :: 0 <= k < |mid| ==> mid[k].Into?)
    requires Sharp(x) && (x == "" || (x[0] != '<' && x[0] != '>')) && (mid != [] ==> Breaks(mid[|mid| - 1].gap + x))
    requires |argv| + 1 < MAXARGS
    ensures var k := i + |ItemText(it)| + |ItemsText(mid)|;
      && k <= |s| && Args(s, i, argv, rs0) == Args(s, k, argv + [tok], rs0 + tail) && At(s, k, x)
    ensures Text(s, tok) == it.word && TargetsOf(s, tail) == Targets(mid)
  {
    hide At, GetToken, SkipSpace, TargetsOf, Text, Args, Redirs, Targets, ItemsText, ItemsOk, Word, Blank;
    hide WordChar, Sharp, Breaks;
    var j := i + |it.word| + |it.gap|;
    tok := Tok(i, i + |it.word|);
    WordToken(s, i, it.word, it.gap, ItemsText(mid) + x);
    tail := RedirsRead(s, j, mid, x);
    ArgsUnfold(s, i, argv, rs0, tok, j);
    assert |ItemText(it)| == |it.word| + |it.gap|;
  }

  /** What the items of a round add up to. */
  lemma HeadParts(items: seq<Item>, n: nat, rest: string)
    requires items != [] && items[0].Arg? && n == Lead(items[1..])
    ensures var it, mid, last := items[0], items[1..][..n], items[1..][n..];
      && ItemsText(items) + rest == it.word + (it.gap + (ItemsText(mid) + (ItemsText(last) + rest)))
      && |ItemsText(items)| == |ItemText(items[0])| + |ItemsText(mid)| + |ItemsText(last)|
      && Words(items) == [items[0].word] + Words(last) && Targets(items) == Targets(mid) + Targets(last)
  {
    hide ItemsText, Words, Targets, Lead;
    var it, mid, last := items[0], items[1..][..n], items[1..][n..];
    ItemsCons(items);
    FourParts(it.word, it.gap, ItemsText(mid), ItemsText(last), rest);
    Assoc(it.word + it.gap, ItemsText(mid), ItemsText(last));
    assert items[1..] == mid + last;
    ItemsConcat(mid, last);
    NoWords(mid);
    assert [] + Words(last) == Words(last) && [] + Targets(items[1..]) == Targets(items[1..]);
  }

  /** The argument loop, from a word or the end on. */
  lemma {:induction false} ArgsRead(s: string, i: nat, items: seq<Item>, rest: string, argv: seq<Tok>,
                                    rs0: seq<Redirect>)
    returns (argv': seq<Tok>, rs: seq<Redirect>)
    requires ItemsOk(items) && (items == [] || items[0].Arg?) && At(s, i, ItemsText(items) + rest) && Follows(rest)
    requires |argv| + |Words(items)| < MAXARGS
    ensures Args(s, i, argv, rs0) == Ok(Wrap(Exec(argv'), rs), i + |ItemsText(items)|)
    ensures Texts(s, argv') == Texts(s, argv) + Words(items) && TargetsOf(s, rs) == TargetsOf(s, rs0) + Targets(items)
    decreases |items|
  {
    hide At, TargetsOf, Texts, Text, Args, Words, Targets, ItemsText, ItemText, Word, Blank, Follows, Lead;
    NoItems();
    if items == [] {
      argv', rs := argv, rs0;
      assert "" + rest == rest;
      ArgsEnd(s, i, rest, argv, rs0);
      assert Texts(s, argv) + [] == Texts(s, argv) && TargetsOf(s, rs0) + [] == TargetsOf(s, rs0);
    } else {
      var it, n := items[0], Lead(items[1..]);
      PartsOk(items, 1);
      PartsOk(items[1..], n);
      HeadParts(items, n, rest);
      var mid, last := items[1..][..n], items[1..][n..];
      RoundReady(it.gap, items[1..], n, rest);
      var tok, tail := ArgsHead(s, i, it, mid, ItemsText(last) + rest, argv, rs0);
      TextsSnoc(s, argv, tok);
      TargetsJoin(s, rs0, tail);
      argv', rs := ArgsRead(s, i + |ItemText(it)| + |ItemsText(mid)|, last, rest, argv + [tok], rs0 + tail);
      Assoc(Texts(s, argv), [it.word], Words(last));
      Assoc(TargetsOf(s, rs0), Targets(mid), Targets(last));
    }
  }

  /** The texts of a round break where they should. */
  lemma RoundReady(gap: string, more: seq<Item>, n: nat, rest: string)
    requires Blank(gap) && ItemsOk(more) && n == Lead(more) && Follows(rest)
    requires gap == "" && more != [] ==> more[0].Into?
    ensures var mid, x := more[..n], ItemsText(more[n..]) + rest;
      && ItemsOk(mid) && Sharp(ItemsText(mid) + x) && Breaks(gap + (ItemsText(mid) + x))
      && Sharp(x) && (x == "" || (x[0] != '<' && x[0] != '>')) && (mid != [] ==> Breaks(mid[n - 1].gap + x))
  {
    hide ItemsText, Lead, ItemsOk;
    PartsOk(more, n);
    Front(more, n, rest);
    var y := ItemsText(more) + rest;
    assert y == ItemsText(more[..n]) + (ItemsText(more[n..]) + rest);
    ItemsSharp(more, rest);
    if gap == "" { assert gap + y == y; } else { BlankAt(gap, 0); }
  }

  lemma ArgsUnfold(s: string, i: nat, argv: seq<Tok>, rs0: seq<Redirect>, tok: Tok, j: nat)
    requires i < |s| && SkipSpace(s, i) == i && WordChar(s[i]) && |argv| + 1 < MAXARGS
    requires GetToken(s, i) == Lexeme(WORD, tok, j)
    ensures j <= |s|
    ensures Redirs(s, j).Ok? ==>
      Args(s, i, argv, rs0) == Args(s, Redirs(s, j).pos, argv + [tok], rs0 + Redirs(s, j).value)
  {}

  lemma ArgsEnd(s: string, i: nat, rest: string, argv: seq<Tok>, rs: seq<Redirect>)
    requires At(s, i, rest) && Follows(rest)
    ensures Args(s, i, argv, rs) == Ok(Wrap(Exec(argv), rs), i)
  {}

  lemma TextsSnoc(s: string, argv: seq<Tok>, tok: Tok)
    ensures Texts(s, argv + [tok]) == Texts(s, argv) + [Text(s, tok)]
  {}

  lemma TargetsJoin(s: string, a: seq<Redirect>, b: seq<Redirect>)
    ensures TargetsOf(s, a + b) == TargetsOf(s, a) + TargetsOf(s, b)
  {}

  // ---------------------------------------------------------------- whole commands

  lemma {:induction false} ShapeWrap(s: string, c: Cmd, rs: seq<Redirect>)
    ensures Shape(s, Wrap(c, rs)) == Redirected(Shape(s, c), TargetsOf(s, rs))
    decreases |rs|
  {
    if rs != [] {
      var n := |rs| - 1;
      ShapeWrap(s, c, rs[..n]);
      assert TargetsOf(s, rs)[..n] == TargetsOf(s, rs[..n]);
    }
  }

  /** The parser for a level, started at i, arrives at j with command c. At level BACK it has
      read c but may go on to read more &. */
  ghost predicate Reads(lvl: nat, s: string, i: nat, j: nat, c: Cmd) {
    && i <= j <= |s|
    && if lvl == EXEC then ParseExec(s, i) == Ok(c, j)
       else if lvl == PIPE then ParsePipe(s, i) == Ok(c, j)
       else if lvl == BACK then
         ParsePipe(s, i).Ok? && Amps(s, ParsePipe(s, i).pos, ParsePipe(s, i).value) == Amps(s, j, c)
       else ParseLine(s, i) == Ok(c, j)
  }

  /** What may come after the text of a level. */
  predicate FollowsAt(lvl: nat, rest: string) {
    || rest == "" || rest[0] == ')'
    || (lvl >= BACK && (rest[0] == ';' || rest[0] == '&')) || (lvl == EXEC && rest[0] == '|')
  }

  /** Reading at one level more than the text needs changes nothing. */
  lemma Lift(lvl: nat, s: string, i: nat, j: nat, c: Cmd, rest: string)
    requires lvl < EXEC && Reads(lvl + 1, s, i, j, c) && At(s, j, rest) && FollowsAt(lvl, rest)
    ensures Reads(lvl, s, i, j, c)
  {
    SharpStays(s, j, rest);
    if lvl == PIPE {
      PeekAt(s, j, rest, "|");
    } else if lvl == LINE {
      PeekAt(s, j, rest, "&");
      PeekAt(s, j, rest, ";");
    }
  }

  lemma ReadPipe(s: string, i: nat, j: nat, l: Cmd, g: string, k: nat, r: Cmd, text: string)
    requires Reads(EXEC, s, i, j, l) && At(s, j, "|" + (g + text)) && Blank(g) && Sharp(text)
    requires Reads(PIPE, s, j + 1 + |g|, k, r)
    ensures Reads(PIPE, s, i, k, Pipe(l, r))
  {
    hide ParseExec;
    SymbolToken(s, j, '|', g, text);
    PeekAt(s, j, "|" + (g + text), "|");
  }

  lemma ReadList(s: string, i: nat, j: nat, l: Cmd, g: string, k: nat, r: Cmd, text: string)
    requires Reads(BACK, s, i, j, l) && At(s, j, ";" + (g + text)) && Blank(g) && Sharp(text)
    requires Reads(LINE, s, j + 1 + |g|, k, r)
    ensures Reads(LINE, s, i, k, List(l, r))
  {
    hide ParsePipe;
    SymbolToken(s, j, ';', g, text);
    PeekAt(s, j, ";" + (g + text), ";");
    PeekAt(s, j, ";" + (g + text), "&");
    assert Amps(s, j, l) == Ok(l, j);
  }

  lemma ReadBack(s: string, i: nat, j: nat, c: Cmd, g: string, rest: string)
    requires Reads(BACK, s, i, j, c) && At(s, j, "&" + (g + rest)) && Blank(g) && Sharp(rest)
    ensures Reads(BACK, s, i, j + 1 + |g|, Back(c))
  {
    hide ParsePipe;
    SymbolToken(s, j, '&', g, rest);
    PeekAt(s, j, "&" + (g + rest), "&");
  }

  /** ( line ) redirections */
  lemma ReadBlock(s: string, i: nat, g: string, j: nat, c: Cmd, g2: string, rs: seq<Redirect>, k: nat, inner: string,
                  after: string)
    requires At(s, i, "(" + (g + inner)) && Blank(g) && Sharp(inner) && Reads(LINE, s, i + 1 + |g|, j, c)
    requires At(s, j, ")" + (g2 + after)) && Blank(g2) && Sharp(after)
    requires j + 1 + |g2| <= |s| && Redirs(s, j + 1 + |g2|) == Ok(rs, k)
    ensures i <= k <= |s| && Reads(EXEC, s, i, k, Wrap(c, rs))
  {
    hide ParseLine, Redirs, Wrap, GetToken;
    SymbolToken(s, i, '(', g, inner);
    PeekAt(s, i, "(" + (g + inner), "(");
    SymbolToken(s, j, ')', g2, after);
    PeekAt(s, j, ")" + (g2 + after), ")");
  }

  lemma ReadSimple(s: string, i: nat, rs: seq<Redirect>, j: nat, text: string)
    requires At(s, i, text) && Sharp(text) && (text == "" || text[0] != '(') && Redirs(s, i) == Ok(rs, j)
    ensures j <= |s| && ParseExec(s, i) == Args(s, j, [], rs)
  {}

  lemma AtBound(s: string, i: nat, a: string, b: string)
    requires At(s, i, a + b)
    ensures i + |a| <= |s| && At(s, i + |a|, b)
  {}

  /** A simple command: words and redirections in any order. */
  lemma SimpleRead(s: string, i: nat, items: seq<Item>, rest: string) returns (c: Cmd)
    requires Spells(Simple(items)) && At(s, i, ItemsText(items) + rest) && Follows(rest)
    ensures Reads(EXEC, s, i, i + |ItemsText(items)|, c) && Shape(s, c) == Meaning(Simple(items))
  {
    hide At, ParseExec, Args, Redirs, Words, Targets, ItemsText, Texts, TargetsOf, ItemsOk, Follows, Lead, Redirected;
    var n := Lead(items);
    var x := ItemsText(items[n..]) + rest;
    PartsOk(items, n);
    Front(items, n, rest);
    var rs0 := RedirsRead(s, i, items[..n], x);
    ItemsSharp(items, rest);
    ReadSimple(s, i, rs0, i + |ItemsText(items[..n])|, ItemsText(items) + rest);
    var argv, rs := ArgsRead(s, i + |ItemsText(items[..n])|, items[n..], rest, [], rs0);
    c := Wrap(Exec(argv), rs);
    ShapeWrap(s, Exec(argv), rs);
    NoTexts(s, Words(items));
    AtBound(s, i, ItemsText(items), rest);
  }

  lemma NoTexts(s: string, ws: seq<string>)
    ensures Texts(s, []) + ws == ws
  {}

  lemma {:induction false} SharpYield(d: Syn, rest: string)
    requires Spells(d) && Follows(rest)
    ensures Sharp(Yield(d) + rest)
    decreases d
  {
    hide ItemsText, ItemsOk;
    match d
    case Simple(items) => ItemsSharp(items, rest);
    case Block(gap, body, close, tail) =>
      assert (Yield(d) + rest)[0] == '(';
    case Piped(l, gap, r) =>
      SharpYield(l, "|" + (gap + (Yield(r) + rest)));
      YieldParts(d, rest);
    case Amped(sub, gap) =>
      SharpYield(sub, "&" + (gap + rest));
      YieldParts(d, rest);
    case Listed(l, gap, r) =>
      SharpYield(l, ";" + (gap + (Yield(r) + rest)));
      YieldParts(d, rest);
  }

  /** The text of a spelling, taken apart where the parser takes it apart. */
  lemma YieldParts(d: Syn, rest: string)
    ensures d.Piped? ==> Yield(d) + rest == Yield(d.left) + ("|" + (d.gap + (Yield(d.right) + rest)))
    ensures d.Piped? ==> |Yield(d)| == |Yield(d.left)| + 1 + |d.gap| + |Yield(d.right)|
    ensures d.Listed? ==> Yield(d) + rest == Yield(d.left) + (";" + (d.gap + (Yield(d.right) + rest)))
    ensures d.Listed? ==> |Yield(d)| == |Yield(d.left)| + 1 + |d.gap| + |Yield(d.right)|
    ensures d.Amped? ==> Yield(d) + rest == Yield(d.sub) + ("&" + (d.gap + rest))
    ensures d.Amped? ==> |Yield(d)| == |Yield(d.sub)| + 1 + |d.gap|
    ensures d.Block? ==> var t := ItemsText(d.tail);
      && Yield(d) + rest == "(" + (d.gap + (Yield(d.body) + (")" + (d.close + (t + rest)))))
      && |Yield(d)| == 1 + |d.gap| + |Yield(d.body)| + 1 + |d.close| + |t|
  {
    hide ItemsText;
    match d
    case Piped(l, g, r) => FourParts(Yield(l), "|", g, Yield(r), rest);
    case Listed(l, g, r) => FourParts(Yield(l), ";", g, Yield(r), rest);
    case Amped(sub, g) => ThreeParts(Yield(sub), "&", g, rest);
    case Block(g, body, close, tail) => SixParts("(", g, Yield(body), ")", close, ItemsText(tail), rest);
    case _ =>
  }

  lemma ThreeParts(a: string, b: string, c: string, d: string)
    ensures (a + b + c) + d == a + (b + (c + d))
  {}

  lemma SixParts(a: string, b: string, c: string, d: string, e: string, f: string, g: string)
    ensures (a + b + c + d + e + f) + g == a + (b + (c + (d + (e + (f + g)))))
  {
    FourParts(a, b, c, d, e + f + g);
    ThreeParts(e, f, g, "");
    Assoc(a + b + c + d, e, f);
    Assoc(a + b + c + d, e + f, g);
    assert e + f + g == e + (f + g);
  }

  /** Reading a spelling at its level, or a looser one, gives what it means and stops behind it. */
  lemma {:induction false} ReadsSyn(d: Syn, lvl: nat, s: string, i: nat, rest: string) returns (c: Cmd)
    requires Spells(d) && lvl <= Level(d) && At(s, i, Yield(d) + rest) && FollowsAt(lvl, rest)
    ensures Reads(lvl, s, i, i + |Yield(d)|, c) && Shape(s, c) == Meaning(d)
    decreases d, Level(d) - lvl + 1
  {
    hide At, Reads, ItemsText, ItemsOk, Words, Targets, Redirected;
    AtBound(s, i, Yield(d), rest);
    if lvl < Level(d) {
      c := ReadsSyn(d, lvl + 1, s, i, rest);
      Lift(lvl, s, i, i + |Yield(d)|, c, rest);
    } else {
      match d
      case Simple(items) => c := SimpleRead(s, i, items, rest);
      case Block(_, _, _, _) => c := BlockRead(d, s, i, rest);
      case Piped(_, _, _) => c := PipedRead(d, s, i, rest);
      case Listed(_, _, _) => c := ListedRead(d, s, i, rest);
      case Amped(sub, gap) =>
        YieldParts(d, rest);
        c := ReadsSyn(sub, BACK, s, i, "&" + (gap + rest));
        AtBound(s, i, Yield(sub), "&" + (gap + rest));
        ReadBack(s, i, i + |Yield(sub)|, c, gap, rest);
        c := Back(c);
    }
  }

  /** What a spelling demands of its parts. */
  lemma SpellsParts(d: Syn)
    requires Spells(d)
    ensures d.Piped? ==> Spells(d.left) && EXEC <= Level(d.left) && Spells(d.right) && PIPE <= Level(d.right)
    ensures d.Listed? ==> Spells(d.left) && BACK <= Level(d.left) && Spells(d.right) && LINE <= Level(d.right)
    ensures d.Piped? || d.Listed? ==> Blank(d.gap)
    ensures d.Block? ==> Spells(d.body) && LINE <= Level(d.body) && Blank(d.gap) && Blank(d.close) && ItemsOk(d.tail)
    ensures d.Block? ==> forall k :: 0 <= k < |d.tail| ==> d.tail[k].Into?
  {}

  /** What a command means, from what its parts mean. */
  lemma ShapeParts(s: string, c1: Cmd, c2: Cmd, d: Syn)
    ensures d.Piped? && Shape(s, c1) == Meaning(d.left) && Shape(s, c2) == Meaning(d.right) ==>
      Shape(s, Pipe(c1, c2)) == Meaning(d)
    ensures d.Listed? && Shape(s, c1) == Meaning(d.left) && Shape(s, c2) == Meaning(d.right) ==>
      Shape(s, List(c1, c2)) == Meaning(d)
  {}

  lemma {:induction false} PipedRead(d: Syn, s: string, i: nat, rest: string) returns (c: Cmd)
    requires d.Piped? && Spells(d) && At(s, i, Yield(d) + rest) && FollowsAt(PIPE, rest)
    ensures Reads(PIPE, s, i, i + |Yield(d)|, c) && Shape(s, c) == Meaning(d)
    decreases d, 0
  {
    hide At, Reads, Yield, Level, Blank, ItemsOk, Spells, Shape, Meaning;
    SpellsParts(d);
    var l, g, r := d.left, d.gap, d.right;
    var text, j := Yield(r) + rest, i + |Yield(l)|;
    YieldParts(d, rest);
    var cl := ReadsSyn(l, EXEC, s, i, "|" + (g + text));
    AtBound(s, i, Yield(l), "|" + (g + text));
    AtBound(s, j, "|", g + text);
    AtBound(s, j + 1, g, text);
    var cr := ReadsSyn(r, PIPE, s, j + 1 + |g|, rest);
    SharpYield(r, rest);
    ReadPipe(s, i, j, cl, g, j + 1 + |g| + |Yield(r)|, cr, text);
    c := Pipe(cl, cr);
    ShapeParts(s, cl, cr, d);
  }

  lemma {:induction false} ListedRead(d: Syn, s: string, i: nat, rest: string) returns (c: Cmd)
    requires d.Listed? && Spells(d) && At(s, i, Yield(d) + rest) && FollowsAt(LINE, rest)
    ensures Reads(LINE, s, i, i + |Yield(d)|, c) && Shape(s, c) == Meaning(d)
    decreases d, 0
  {
    hide At, Reads, Yield, Level, Blank, ItemsOk, Spells, Shape, Meaning;
    SpellsParts(d);
    var l, g, r := d.left, d.gap, d.right;
    var text, j := Yield(r) + rest, i + |Yield(l)|;
    YieldParts(d, rest);
    var cl := ReadsSyn(l, BACK, s, i, ";" + (g + text));
    AtBound(s, i, Yield(l), ";" + (g + text));
    AtBound(s, j, ";", g + text);
    AtBound(s, j + 1, g, text);
    var cr := ReadsSyn(r, LINE, s, j + 1 + |g|, rest);
    SharpYield(r, rest);
    ReadList(s, i, j, cl, g, j + 1 + |g| + |Yield(r)|, cr, text);
    c := List(cl, cr);
    ShapeParts(s, cl, cr, d);
  }

  lemma AtBlock(s: string, i: nat, g: string, body: string, g2: string, after: string)
    requires At(s, i, "(" + (g + (body + (")" + (g2 + after)))))
    ensures var k := i + 1 + |g|; var j := k + |body|;
      && At(s, k, body + (")" + (g2 + after))) && At(s, j, ")" + (g2 + after)) && At(s, j + 1 + |g2|, after)
  {
    hide At;
    var k := i + 1 + |g|;
    AtBound(s, i, "(", g + (body + (")" + (g2 + after))));
    AtBound(s, i + 1, g, body + (")" + (g2 + after)));
    AtBound(s, k, body, ")" + (g2 + after));
    AtBound(s, k + |body|, ")", g2 + after);
    AtBound(s, k + |body| + 1, g2, after);
  }

  lemma {:induction false} BlockRead(d: Syn, s: string, i: nat, rest: string) returns (c: Cmd)
    requires d.Block? && Spells(d) && At(s, i, Yield(d) + rest) && Follows(rest)
    ensures Reads(EXEC, s, i, i + |Yield(d)|, c) && Shape(s, c) == Meaning(d)
    decreases d, 0
  {
    hide At, Reads, Yield, ItemsText, ItemsOk, Redirs, Targets, Redirected, Level, Blank, Spells, Shape, Wrap;
    SpellsParts(d);
    var g, g2, t := d.gap, d.close, ItemsText(d.tail);
    var after := t + rest;
    var inner := Yield(d.body) + (")" + (g2 + after));
    YieldParts(d, rest);
    var k := i + 1 + |g|;
    AtBlock(s, i, g, Yield(d.body), g2, after);
    var c1 := ReadsSyn(d.body, LINE, s, k, ")" + (g2 + after));
    var j := k + |Yield(d.body)|;
    TailReady(d.tail, rest);
    var rs := RedirsRead(s, j + 1 + |g2|, d.tail, rest);
    SharpYield(d.body, ")" + (g2 + after));
    ReadBlock(s, i, g, j, c1, g2, rs, j + 1 + |g2| + |t|, inner, after);
    c := Wrap(c1, rs);
    ShapeWrap(s, c1, rs);
  }

  lemma TailReady(items: seq<Item>, rest: string)
    requires ItemsOk(items) && Follows(rest)
    ensures Sharp(ItemsText(items) + rest) && Sharp(rest) && (rest == "" || (rest[0] != '<' && rest[0] != '>'))
    ensures items != [] ==> Breaks(items[|items| - 1].gap + rest)
  {
    hide ItemsText;
    ItemsSharp(items, rest);
    if items != [] {
      assert ItemOk(items[|items| - 1]);
      GapRest(items[|items| - 1].gap, rest);
    }
  }

  lemma GapRest(gap: string, rest: string)
    requires Blank(gap) && Follows(rest)
    ensures Breaks(gap + rest)
  {
    if gap == "" { assert gap + rest == rest; } else { BlankAt(gap, 0); }
  }

  /** Leading blanks change nothing. */
  lemma LineSkips(s: string, i: nat)
    requires i <= |s|
    ensures ParseLine(s, i) == ParseLine(s, SkipSpace(s, i))
  {
    hide GetToken, Redirs, Args, Amps;
    var j := SkipSpace(s, i);
    assert SkipSpace(s, j) == j;
    assert ParseExec(s, i) == ParseExec(s, j);
  }

  /** Every spelling is read: with any blanks in front, the parser accepts the line and yields the
      tree the spelling means. */
  lemma ParsesSpelling(lead: string, d: Syn)
    requires Blank(lead) && Spells(d)
    ensures var s := lead + Yield(d);
            var p := ParseCmd(s);
      p.Ok? && p.pos == |s| && Shape(s, p.value) == Meaning(d)
  {
    hide Yield, Spells, Meaning, Shape, ParseLine, SkipSpace;
    var s, n := lead + Yield(d), |lead|;
    assert Yield(d) + "" == Yield(d) && s[0..] == lead + (Yield(d) + "") && s[n..] == Yield(d) + "";
    SharpYield(d, "");
    SkipGap(s, 0, lead, Yield(d) + "");
    var c := ReadsSyn(d, LINE, s, n, "");
    LineSkips(s, 0);
    SharpStays(s, |s|, "");
  }
}
