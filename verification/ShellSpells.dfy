/** The converse of ShellReads: every line the parser accepts is a spelling of the tree it returns,
    so the parser accepts exactly the language of ShellText. */
module ShellSpells {
  import opened ShellSyntax
  import opened ShellText
  import opened ShellReads

  /** The cursor stands on no blank. */
  predicate Settled(s: string, i: nat) {
    i <= |s| && (i < |s| ==> !IsSpace(s[i]))
  }

  /** A word ends here. */
  predicate Ends(s: string, i: nat) {
    i == |s| || (i < |s| && IsSymbol(s[i]))
  }

  lemma Stays(s: string, i: nat)
    requires Settled(s, i)
    ensures SkipSpace(s, i) == i
  {}

  lemma Cut(s: string, i: nat, j: nat, k: nat)
    requires i <= j <= k <= |s|
    ensures s[i..k] == s[i..j] + s[j..k]
  {}

  // ---------------------------------------------------------------- tokens

  /** One of the signs | & ; ( ) with the blanks behind it. */
  lemma SignSpelled(s: string, i: nat) returns (gap: string)
    requires i < |s| && s[i] in "|&;()"
    ensures var n := GetToken(s, i).next;
      i < n && Settled(s, n) && Blank(gap) && s[i..n] == [s[i]] + gap
  {
    TokenIs(s, i);
    var n := GetToken(s, i).next;
    gap := s[i + 1..n];
    Cut(s, i, i + 1, n);
    assert s[i..i + 1] == [s[i]];
  }

  /** The blanks from i to j as a gap. */
  lemma GapSpelled(s: string, i: nat, j: nat) returns (gap: string)
    requires i <= |s| && Blanks(s, i, j)
    ensures gap == s[i..j] && Blank(gap)
  {
    gap := s[i..j];
  }

  /** A word token, with the blanks behind it. */
  lemma WordSpelled(s: string, i: nat) returns (gap: string)
    requires Line(s) && i <= |s| && GetToken(s, i).kind == WORD
    ensures var t := GetToken(s, i); var q := t.tok.q;
      && Blanks(s, i, q) && q < t.tok.eq <= t.next && Word(Text(s, t.tok)) && Blank(gap)
      && s[q..t.next] == Text(s, t.tok) + gap && Settled(s, t.next) && (gap == "" ==> Ends(s, t.next))
  {
    TokenIs(s, i);
    var t := GetToken(s, i);
    gap := GapSpelled(s, t.tok.eq, t.next);
    Cut(s, t.tok.q, t.tok.eq, t.next);
    WordFrom(s, t.tok.q, t.tok.eq);
  }

  lemma WordFrom(s: string, q: nat, e: nat)
    requires Line(s) && q < e <= |s| && forall x :: q <= x < e ==> s[x] !in " \t\r\n\U{B}<|>&;()"
    ensures Word(s[q..e])
  {}

  lemma ArgSpelled(s: string, i: nat) returns (it: Item)
    requires Line(s) && Settled(s, i) && GetToken(s, i).kind == WORD
    ensures var t := GetToken(s, i);
      && it.Arg? && ItemOk(it) && i < t.next && Settled(s, t.next) && s[i..t.next] == ItemText(it)
      && it.word == Text(s, t.tok) && (it.gap == "" ==> Ends(s, t.next))
  {
    hide Word, Blank;
    Stays(s, i);
    var gap := WordSpelled(s, i);
    it := Arg(Text(s, GetToken(s, i).tok), gap);
  }

  /** The sign < or > or >>, with the blanks behind it. */
  lemma IntoSign(s: string, i: nat) returns (sign: string)
    requires i < |s| && (s[i] == '<' || s[i] == '>')
    ensures var op := GetToken(s, i); var m := op.tok.eq;
      && i < m && Blanks(s, m, op.next) && sign == s[i..m]
      && (sign == "<" || sign == ">" || sign == ">>") && (op.kind != '<') == (sign != "<")
  {
    TokenIs(s, i);
    var m := GetToken(s, i).tok.eq;
    sign := s[i..m];
    assert sign == if s[i] == '<' then "<" else if m == i + 2 then ">>" else ">";
  }

  lemma IntoSpelled(s: string, i: nat) returns (it: Item)
    requires Line(s) && i < |s| && (s[i] == '<' || s[i] == '>')
    requires GetToken(s, GetToken(s, i).next).kind == WORD
    ensures var op := GetToken(s, i); var file := GetToken(s, op.next);
      && it.Into? && ItemOk(it) && i < file.next && Settled(s, file.next) && s[i..file.next] == ItemText(it)
      && TargetOf(it) == [Target(Text(s, file.tok), op.kind != '<')] && (it.gap == "" ==> Ends(s, file.next))
  {
    hide Word, Blank, GetToken;
    var op := GetToken(s, i);
    var file := GetToken(s, op.next);
    var m, q := op.tok.eq, file.tok.q;
    var sign := IntoSign(s, i);
    var gap := WordSpelled(s, op.next);
    NoMoreBlanks(s, m, op.next, q);
    var mid := GapSpelled(s, m, q);
    it := Into(sign, mid, Text(s, file.tok), gap);
    Cut(s, i, m, q);
    Cut(s, i, q, file.next);
    Assoc(sign + mid, Text(s, file.tok), gap);
  }

  lemma NoMoreBlanks(s: string, m: nat, n: nat, q: nat)
    requires m <= n <= |s| && Blanks(s, m, n) && Blanks(s, n, q)
    ensures Blanks(s, m, q)
  {}

  // ---------------------------------------------------------------- words and redirections

  /** If the last of the items has no blanks behind it, what comes is the end or a sign. */
  predicate Hangs(s: string, items: seq<Item>, j: nat) {
    items != [] && items[|items| - 1].gap == "" ==> Ends(s, j)
  }

  lemma JoinOk(a: seq<Item>, b: seq<Item>)
    requires ItemsOk(a) && ItemsOk(b)
    requires a != [] && b != [] && a[|a| - 1].gap == "" ==> b[0].Into?
    ensures ItemsOk(a + b)
  {}

  /** Items that spell s[i..j], what they say, and which words and targets they are. */
  ghost predicate Spelled(s: string, i: nat, j: nat, items: seq<Item>, ts: seq<Tok>, rs: seq<Redirect>) {
    && i <= j && Settled(s, j) && ItemsOk(items) && s[i..j] == ItemsText(items) && Hangs(s, items, j)
    && Words(items) == Texts(s, ts) && Targets(items) == TargetsOf(s, rs)
  }

  lemma NoneSpelled(s: string, i: nat)
    requires Settled(s, i)
    ensures Spelled(s, i, i, [], [], [])
  {}

  lemma IntoOne(s: string, i: nat, j: nat, it: Item, r: Redirect)
    requires i <= j && Settled(s, j) && it.Into? && ItemOk(it) && s[i..j] == ItemText(it)
    requires TargetOf(it) == [Target(Text(s, r.file), r.write)] && (it.gap == "" ==> Ends(s, j))
    ensures Spelled(s, i, j, [it], [], [r])
  {
    ItemsOne(it);
    assert TargetsOf(s, [r]) == [Target(Text(s, r.file), r.write)];
  }

  lemma ArgOne(s: string, i: nat, j: nat, it: Item, t: Tok)
    requires i <= j && Settled(s, j) && it.Arg? && ItemOk(it) && s[i..j] == ItemText(it)
    requires it.word == Text(s, t) && (it.gap == "" ==> Ends(s, j))
    ensures Spelled(s, i, j, [it], [t], [])
  {
    ItemsOne(it);
    assert Texts(s, [t]) == [Text(s, t)];
  }

  /** Two stretches of items, where the second does not start with a word that would touch. */
  lemma Joined(s: string, i: nat, j: nat, k: nat, a: seq<Item>, ts: seq<Tok>, rs: seq<Redirect>,
               b: seq<Item>, us: seq<Tok>, qs: seq<Redirect>)
    requires Spelled(s, i, j, a, ts, rs) && Spelled(s, j, k, b, us, qs)
    requires b != [] && b[0].Arg? ==> !Ends(s, j)
    ensures Spelled(s, i, k, a + b, ts + us, rs + qs)
  {
    hide ItemsText, ItemsOk, Words, Targets, Texts, TargetsOf;
    ItemsConcat(a, b);
    JoinOk(a, b);
    Cut(s, i, j, k);
    TextsJoin(s, ts, us, rs, qs);
    assert b == [] ==> a + b == a;
    EmptySpelled(s, j, k, b);
  }

  lemma EmptySpelled(s: string, j: nat, k: nat, b: seq<Item>)
    requires j <= k <= |s| && s[j..k] == ItemsText(b)
    ensures b == [] ==> j == k
  {}

  lemma TextsJoin(s: string, ts: seq<Tok>, us: seq<Tok>, rs: seq<Redirect>, qs: seq<Redirect>)
    ensures Texts(s, ts + us) == Texts(s, ts) + Texts(s, us)
    ensures TargetsOf(s, rs + qs) == TargetsOf(s, rs) + TargetsOf(s, qs)
  {}

  /** The redirections parseredirs reads are a stretch of the line. */
  lemma {:induction false} RedirsSpelled(s: string, i: nat) returns (items: seq<Item>)
    requires Line(s) && Settled(s, i) && Redirs(s, i).Ok?
    ensures var r := Redirs(s, i);
      && Spelled(s, i, r.pos, items, [], r.value) && (forall k :: 0 <= k < |items| ==> items[k].Into?)
      && (r.pos < |s| ==> s[r.pos] != '<' && s[r.pos] != '>')
    decreases |s| - i
  {
    hide Spelled, ItemOk, GetToken;
    Stays(s, i);
    if Peek(s, i, "<>") {
      var op := GetToken(s, i);
      var file := GetToken(s, op.next);
      var it := IntoSpelled(s, i);
      IntoOne(s, i, file.next, it, Redirect(file.tok, op.kind != '<'));
      var more := RedirsSpelled(s, file.next);
      var rest := Redirs(s, file.next);
      Joined(s, i, file.next, rest.pos, [it], [], [Redirect(file.tok, op.kind != '<')], more, [], rest.value);
      items := [it] + more;
      var none: seq<Tok> := [];
      assert none + none == none;
    } else {
      items := [];
      NoneSpelled(s, i);
    }
  }

  /** The argument loop: what it adds to the words and redirections it was given is a stretch of
      the line that starts with a word. */
  lemma {:induction false} ArgsSpelled(s: string, i: nat, argv: seq<Tok>, rs: seq<Redirect>)
    returns (items: seq<Item>, ts: seq<Tok>, qs: seq<Redirect>)
    requires Line(s) && Settled(s, i) && |argv| < 10 && Args(s, i, argv, rs).Ok?
    ensures var r := Args(s, i, argv, rs);
      && Spelled(s, i, r.pos, items, ts, qs) && |argv| + |ts| < 10 && r.value == Wrap(Exec(argv + ts), rs + qs)
    ensures items != [] ==> items[0].Arg? && !Ends(s, i)
    decreases |s| - i
  {
    hide Spelled, ItemOk, GetToken, Redirs, Wrap;
    Stays(s, i);
    var t := GetToken(s, i);
    items, ts, qs := [], [], [];
    assert argv + ts == argv && rs + qs == rs;
    if Peek(s, i, "|)&;") {
      NoneSpelled(s, i);
    } else if t.kind == NUL {
      AtEnd(s, i);
      NoneSpelled(s, i);
    } else {
      items, ts, qs := RoundSpelled(s, i, argv, rs);
    }
  }

  lemma AtEnd(s: string, i: nat)
    requires Line(s) && Settled(s, i) && GetToken(s, i).kind == NUL
    ensures i == |s| && GetToken(s, i).next == i
  {
    TokenIs(s, i);
    Stays(s, i);
  }

  /** One round of the argument loop and the rounds behind it. */
  lemma {:induction false} RoundSpelled(s: string, i: nat, argv: seq<Tok>, rs: seq<Redirect>)
    returns (items: seq<Item>, ts: seq<Tok>, qs: seq<Redirect>)
    requires Line(s) && Settled(s, i) && |argv| < 10 && Args(s, i, argv, rs).Ok?
    requires !Peek(s, i, "|)&;") && GetToken(s, i).kind != NUL
    ensures var r := Args(s, i, argv, rs);
      && Spelled(s, i, r.pos, items, ts, qs) && |argv| + |ts| < 10 && r.value == Wrap(Exec(argv + ts), rs + qs)
    ensures items != [] && items[0].Arg? && !Ends(s, i)
    decreases |s| - i, 0
  {
    hide Spelled, ItemOk, GetToken, Redirs, Wrap;
    Stays(s, i);
    var t := GetToken(s, i);
    WordStart(s, i);
    var it := ArgSpelled(s, i);
    ArgOne(s, i, t.next, it, t.tok);
    var more := Redirs(s, t.next);
    var into := RedirsSpelled(s, t.next);
    Joined(s, i, t.next, more.pos, [it], [t.tok], [], into, [], more.value);
    SpelledSettled(s, t.next, more.pos, into, [], more.value);
    var rest, ts1, qs1 := ArgsSpelled(s, more.pos, argv + [t.tok], rs + more.value);
    var end := Args(s, more.pos, argv + [t.tok], rs + more.value).pos;
    Joined(s, i, more.pos, end, [it] + into, [t.tok] + [], [] + more.value, rest, ts1, qs1);
    items, ts, qs := [it] + into + rest, [t.tok] + [] + ts1, [] + more.value + qs1;
    assert argv + ts == argv + [t.tok] + ts1 && rs + qs == rs + more.value + qs1;
  }

  lemma WordStart(s: string, i: nat)
    requires Settled(s, i) && GetToken(s, i).kind == WORD
    ensures !Ends(s, i)
  {
    Stays(s, i);
    TokenIs(s, i);
  }

  lemma SpelledSettled(s: string, i: nat, j: nat, items: seq<Item>, ts: seq<Tok>, rs: seq<Redirect>)
    requires Spelled(s, i, j, items, ts, rs)
    ensures i <= j && Settled(s, j)
  {}

  // ---------------------------------------------------------------- commands

  /** The spelling d of s[i..j], where the parser read c. */
  ghost predicate Says(lvl: nat, s: string, i: nat, j: nat, c: Cmd, d: Syn) {
    && i <= j && Settled(s, j) && Spells(d) && lvl <= Level(d)
    && s[i..j] == Yield(d) && Shape(s, c) == Meaning(d)
  }

  lemma SimpleSpelled(s: string, i: nat) returns (d: Syn)
    requires Line(s) && Settled(s, i) && !Peek(s, i, "(") && ParseExec(s, i).Ok?
    ensures Says(EXEC, s, i, ParseExec(s, i).pos, ParseExec(s, i).value, d)
  {
    hide Spelled, Redirs, Args, Wrap;
    Stays(s, i);
    var rs := Redirs(s, i);
    var into := RedirsSpelled(s, i);
    SpelledSettled(s, i, rs.pos, into, [], rs.value);
    var rest, ts, qs := ArgsSpelled(s, rs.pos, [], rs.value);
    var end := Args(s, rs.pos, [], rs.value).pos;
    Joined(s, i, rs.pos, end, into, [], rs.value, rest, ts, qs);
    d := Simple(into + rest);
    var none: seq<Tok> := [];
    assert none + ts == ts;
    SimpleSays(s, i, end, into + rest, ts, rs.value + qs);
  }

  lemma SimpleSays(s: string, i: nat, j: nat, items: seq<Item>, ts: seq<Tok>, rs: seq<Redirect>)
    requires Spelled(s, i, j, items, ts, rs) && |ts| < 10
    ensures Says(EXEC, s, i, j, Wrap(Exec(ts), rs), Simple(items))
  {
    hide ItemsText, Words, Targets, Texts, TargetsOf, Redirected, Wrap;
    ShapeWrap(s, Exec(ts), rs);
  }

  lemma {:induction false} ExecSpelled(s: string, i: nat) returns (d: Syn)
    requires Line(s) && Settled(s, i) && ParseExec(s, i).Ok?
    ensures Says(EXEC, s, i, ParseExec(s, i).pos, ParseExec(s, i).value, d)
    decreases |s| - i, 0
  {
    hide Says, Redirs, GetToken, Wrap;
    if Peek(s, i, "(") {
      Stays(s, i);
      var g := SignSpelled(s, i);
      var j := GetToken(s, i).next;
      var body := LineSpelled(s, j);
      var b := ParseLine(s, j);
      SaysSettled(LINE, s, j, b.pos, b.value, body);
      Stays(s, b.pos);
      var g2 := SignSpelled(s, b.pos);
      var k := GetToken(s, b.pos).next;
      var tail := RedirsSpelled(s, k);
      var rs := Redirs(s, k);
      d := Block(g, body, g2, tail);
      BlockSays(s, i, j, b.pos, k, rs.pos, b.value, rs.value, d);
    } else {
      d := SimpleSpelled(s, i);
    }
  }

  lemma SaysSettled(lvl: nat, s: string, i: nat, j: nat, c: Cmd, d: Syn)
    requires Says(lvl, s, i, j, c, d)
    ensures i <= j && Settled(s, j)
  {}

  lemma BlockSays(s: string, i: nat, j: nat, m: nat, k: nat, e: nat, c: Cmd, rs: seq<Redirect>, d: Syn)
    requires d.Block? && i < j <= m < k <= e <= |s| && Blank(d.gap) && s[i..j] == "(" + d.gap
    requires Says(LINE, s, j, m, c, d.body) && Blank(d.close) && s[m..k] == ")" + d.close
    requires Spelled(s, k, e, d.tail, [], rs) && forall x :: 0 <= x < |d.tail| ==> d.tail[x].Into?
    ensures Says(EXEC, s, i, e, Wrap(c, rs), d)
  {
    hide ItemsText, Words, Targets, Texts, TargetsOf, Redirected, Wrap;
    ShapeWrap(s, c, rs);
    Cut(s, i, j, m);
    Cut(s, i, m, k);
    Cut(s, i, k, e);
    Assoc("(" + d.gap + Yield(d.body), ")", d.close);
  }

  lemma {:induction false} PipeSpelled(s: string, i: nat) returns (d: Syn)
    requires Line(s) && Settled(s, i) && ParsePipe(s, i).Ok?
    ensures Says(PIPE, s, i, ParsePipe(s, i).pos, ParsePipe(s, i).value, d)
    decreases |s| - i, 1
  {
    hide Says, ParseExec, GetToken;
    var l := ParseExec(s, i);
    d := ExecSpelled(s, i);
    SaysSettled(EXEC, s, i, l.pos, l.value, d);
    Stays(s, l.pos);
    if Peek(s, l.pos, "|") {
      var g := SignSpelled(s, l.pos);
      var k := GetToken(s, l.pos).next;
      var right := PipeSpelled(s, k);
      var r := ParsePipe(s, k);
      OpSays('|', s, i, l.pos, k, r.pos, l.value, r.value, d, g, right);
      d := Piped(d, g, right);
    } else {
      LooserSays(EXEC, PIPE, s, i, l.pos, l.value, d);
    }
  }

  lemma LooserSays(lvl: nat, lvl2: nat, s: string, i: nat, j: nat, c: Cmd, d: Syn)
    requires lvl2 <= lvl && Says(lvl, s, i, j, c, d)
    ensures Says(lvl2, s, i, j, c, d)
  {}

  /** Two spellings with | or ; between them. */
  lemma OpSays(op: char, s: string, i: nat, j: nat, k: nat, e: nat, c1: Cmd, c2: Cmd, l: Syn, g: string, r: Syn)
    requires i <= j < k <= e <= |s| && s[j..k] == [op] + g && Blank(g)
    requires op == '|' || op == ';'
    requires Says(if op == '|' then EXEC else BACK, s, i, j, c1, l)
    requires Says(if op == '|' then PIPE else LINE, s, k, e, c2, r)
    ensures op == '|' ==> Says(PIPE, s, i, e, Pipe(c1, c2), Piped(l, g, r))
    ensures op == ';' ==> Says(LINE, s, i, e, List(c1, c2), Listed(l, g, r))
  {
    Cut(s, i, j, k);
    Cut(s, i, k, e);
    Assoc(Yield(l), [op], g);
    assert [op] == if op == '|' then "|" else ";";
  }

  /** Each & the loop reads goes around what was read before. */
  lemma {:induction false} AmpsSpelled(s: string, i: nat, j: nat, c: Cmd, d: Syn) returns (e: Syn)
    requires Line(s) && Says(BACK, s, i, j, c, d)
    ensures Says(BACK, s, i, Amps(s, j, c).pos, Amps(s, j, c).value, e)
    decreases |s| - j
  {
    hide Says, GetToken;
    SaysSettled(BACK, s, i, j, c, d);
    Stays(s, j);
    e := d;
    if Peek(s, j, "&") {
      var g := SignSpelled(s, j);
      var k := GetToken(s, j).next;
      BackSays(s, i, j, k, c, d, g);
      e := AmpsSpelled(s, i, k, Back(c), Amped(d, g));
    }
  }

  lemma BackSays(s: string, i: nat, j: nat, k: nat, c: Cmd, d: Syn, g: string)
    requires Says(BACK, s, i, j, c, d) && j < k && Settled(s, k) && s[j..k] == "&" + g && Blank(g)
    ensures Says(BACK, s, i, k, Back(c), Amped(d, g))
  {
    Cut(s, i, j, k);
    Assoc(Yield(d), "&", g);
  }

  lemma {:induction false} LineSpelled(s: string, i: nat) returns (d: Syn)
    requires Line(s) && Settled(s, i) && ParseLine(s, i).Ok?
    ensures Says(LINE, s, i, ParseLine(s, i).pos, ParseLine(s, i).value, d)
    decreases |s| - i, 2
  {
    hide Says, ParsePipe, GetToken, Amps;
    var p := ParsePipe(s, i);
    d := PipeSpelled(s, i);
    SaysSettled(PIPE, s, i, p.pos, p.value, d);
    LooserSays(PIPE, BACK, s, i, p.pos, p.value, d);
    d := AmpsSpelled(s, i, p.pos, p.value, d);
    var l := Amps(s, p.pos, p.value);
    SaysSettled(BACK, s, i, l.pos, l.value, d);
    Stays(s, l.pos);
    if Peek(s, l.pos, ";") {
      var g := SignSpelled(s, l.pos);
      var k := GetToken(s, l.pos).next;
      var right := LineSpelled(s, k);
      var r := ParseLine(s, k);
      OpSays(';', s, i, l.pos, k, r.pos, l.value, r.value, d, g, right);
      d := Listed(d, g, right);
    } else {
      LooserSays(BACK, LINE, s, i, l.pos, l.value, d);
    }
  }

  /** s is the spelling d with blanks in front. */
  ghost predicate SpelledBy(s: string, lead: string, d: Syn) {
    Blank(lead) && Spells(d) && s == lead + Yield(d)
  }

  /** Every line that is accepted spells the tree it is parsed to. */
  lemma AcceptedSpelled(s: string) returns (lead: string, d: Syn)
    requires Line(s) && ParseCmd(s).Ok?
    ensures SpelledBy(s, lead, d) && Shape(s, ParseCmd(s).value) == Meaning(d)
  {
    hide ParseLine;
    var n := SkipSpace(s, 0);
    SkipsBlanks(s, 0);
    lead := GapSpelled(s, 0, n);
    LineSkips(s, 0);
    d := LineSpelled(s, n);
    var r := ParseLine(s, n);
    SaysSettled(LINE, s, n, r.pos, r.value, d);
    Stays(s, r.pos);
    assert s == s[0..n] + s[n..|s|];
  }

  /** The parser accepts exactly the language, and a line has one meaning however it is spelled. */
  lemma AcceptsExactly(s: string)
    requires Line(s)
    ensures ParseCmd(s).Ok? <==> exists lead, d :: SpelledBy(s, lead, d)
    ensures forall lead, d :: SpelledBy(s, lead, d) ==> ParseCmd(s).Ok? && Shape(s, ParseCmd(s).value) == Meaning(d)
  {
    hide ParseCmd, Spells, Yield, Meaning, Shape;
    if ParseCmd(s).Ok? {
      var lead, d := AcceptedSpelled(s);
    }
    forall lead, d | SpelledBy(s, lead, d)
      ensures ParseCmd(s).Ok? && Shape(s, ParseCmd(s).value) == Meaning(d)
    {
      ParsesSpelling(lead, d);
    }
  }

  /** Two spellings of the same line mean the same tree. */
  lemma OneMeaning(lead: string, d: Syn, lead2: string, d2: Syn)
    requires Blank(lead) && Spells(d) && Blank(lead2) && Spells(d2) && lead + Yield(d) == lead2 + Yield(d2)
    ensures Meaning(d) == Meaning(d2)
  {
    ParsesSpelling(lead, d);
    ParsesSpelling(lead2, d2);
  }
}
