/** The shell's parser as it runs: a cursor that peek and gettoken push along the line, loops that
    collect redirections, arguments and ampersands, and nulterminate, which cuts the line in place
    into the C strings that exec and open are given. */
module Shell {
  import opened ShellSyntax
  import opened ShellText
  import ShellReads
  import ShellSpells

  datatype Outcome<T> = Panic | Parsed(value: T)

  /** A method that panicked or left the cursor where the grammar says. */
  ghost predicate Agrees<T>(r: Outcome<T>, ps: nat, p: Parse<T>) {
    if p.Failed? then r.Panic? else r == Parsed(p.value) && ps == p.pos
  }

  /** What is parsed from here on, with `done` collected before. */
  ghost function After(done: seq<Redirect>, p: Parse<seq<Redirect>>): Parse<seq<Redirect>> {
    if p.Failed? then Failed else Ok(done + p.value, p.pos)
  }

  lemma RedirsEnds(s: string, i: nat)
    requires i <= |s|
    ensures Redirs(s, SkipSpace(s, i)) == Redirs(s, i) == After([], Redirs(s, i))
    ensures !ShellSyntax.Peek(s, i, "<>") ==> Redirs(s, i) == Ok([], SkipSpace(s, i))
  {
    var r := Redirs(s, i);
    assert r.Ok? ==> [] + r.value == r.value;
  }

  lemma RedirsStep(s: string, i: nat, done: seq<Redirect>)
    requires i <= |s| && SkipSpace(s, i) == i && ShellSyntax.Peek(s, i, "<>")
    ensures
      var op := ShellSyntax.GetToken(s, i);
      var file := ShellSyntax.GetToken(s, op.next);
      if file.kind != WORD then Redirs(s, i).Failed?
      else After(done, Redirs(s, i)) == After(done + [Redirect(file.tok, op.kind != '<')], Redirs(s, file.next))
  {
    hide ShellSyntax.GetToken, SkipSpace, TokOk, Line;
    var op := ShellSyntax.GetToken(s, i);
    var file := ShellSyntax.GetToken(s, op.next);
    if file.kind == WORD {
      var one, rest := [Redirect(file.tok, op.kind != '<')], Redirs(s, file.next);
      if rest.Ok? { Assoc(done, one, rest.value); }
    }
  }

  class Parser {
    const line: string
    var ps: nat

    constructor (s: string)
      ensures line == s && ps == 0
    {
      line, ps := s, 0;
    }

    method SkipBlanks()
      requires ps <= |line|
      modifies this
      ensures ps == SkipSpace(line, old(ps)) && Blanks(line, old(ps), ps)
    {
      SkipsBlanks(line, ps);
      while ps < |line| && IsSpace(line[ps])
        invariant ps <= |line| && SkipSpace(line, ps) == SkipSpace(line, old(ps))
      {
        ps := ps + 1;
      }
    }

    method GetToken() returns (kind: char, tok: Tok)
      requires ps <= |line|
      modifies this
      ensures Lexeme(kind, tok, ps) == ShellSyntax.GetToken(line, old(ps))
      ensures IsToken(line, old(ps), kind, tok, ps)
    {
      hide IsToken;
      TokenIs(line, ps);
      SkipBlanks();
      var q := ps;
      if ps == |line| {
        kind := NUL;
      } else if line[ps] == '>' {
        kind, ps := '>', ps + 1;
        if ps < |line| && line[ps] == '>' {
          kind, ps := APPEND, ps + 1;
        }
      } else if IsSymbol(line[ps]) {
        kind, ps := line[ps], ps + 1;
      } else {
        kind := WORD;
        while ps < |line| && !IsSpace(line[ps]) && !IsSymbol(line[ps])
          invariant q <= ps <= |line| && WordEnd(line, ps) == WordEnd(line, q)
        {
          ps := ps + 1;
        }
      }
      tok := Tok(q, ps);
      SkipBlanks();
    }

    method Peek(toks: string) returns (found: bool)
      requires ps <= |line|
      modifies this
      ensures ps == SkipSpace(line, old(ps)) && Blanks(line, old(ps), ps)
      ensures found == ShellSyntax.Peek(line, old(ps), toks) == (ps < |line| && line[ps] in toks)
    {
      SkipBlanks();
      found := ps < |line| && line[ps] in toks;
    }

    method ParseRedirs() returns (r: Outcome<seq<Redirect>>)
      requires ps <= |line|
      modifies this
      ensures Agrees(r, ps, Redirs(line, old(ps))) && (r.Parsed? ==> old(ps) <= ps <= |line|)
      ensures r.Parsed? ==> forall k :: 0 <= k < |r.value| ==> Signed(line, r.value[k])
    {
      hide Redirs, Signed, IsToken;
      var done := [];
      var more := Peek("<>");
      RedirsEnds(line, old(ps));
      while more
        invariant old(ps) <= ps <= |line| && SkipSpace(line, ps) == ps
        invariant more == ShellSyntax.Peek(line, ps, "<>")
        invariant After(done, Redirs(line, ps)) == Redirs(line, old(ps))
        decreases |line| - ps
      {
        RedirsStep(line, ps, done);
        var op, _ := GetToken();
        var kind, file := GetToken();
        if kind != WORD { return Panic; }
        done := done + [Redirect(file, op != '<')];
        RedirsEnds(line, ps);
        more := Peek("<>");
      }
      RedirsEnds(line, ps);
      assert done + [] == done;
      RedirsSigned(line, old(ps));
      return Parsed(done);
    }

    /** The argument loop of parseexec; the redirections wrap the finished command. */
    method ParseArgs(first: seq<Redirect>) returns (r: Outcome<Cmd>)
      requires ps <= |line|
      modifies this
      ensures Agrees(r, ps, Args(line, old(ps), [], first)) && (r.Parsed? ==> old(ps) <= ps <= |line|)
    {
      var argv, rs := [], first;
      var stop := Peek("|)&;");
      while !stop
        invariant old(ps) <= ps <= |line| && SkipSpace(line, ps) == ps
        invariant stop == ShellSyntax.Peek(line, ps, "|)&;")
        invariant Args(line, ps, argv, rs) == Args(line, old(ps), [], first)
        decreases |line| - ps
      {
        var kind, tok := GetToken();
        if kind == NUL { break; }
        if kind != WORD { return Panic; }
        argv := argv + [tok];
        if |argv| >= MAXARGS { return Panic; }
        var more := ParseRedirs();
        if more.Panic? { return Panic; }
        rs := rs + more.value;
        stop := Peek("|)&;");
      }
      return Parsed(Wrap(Exec(argv), rs));
    }

    method ParseBlock() returns (r: Outcome<Cmd>)
      requires ps <= |line| && ShellSyntax.Peek(line, ps, "(")
      modifies this
      ensures Agrees(r, ps, ShellSyntax.ParseExec(line, old(ps))) && (r.Parsed? ==> old(ps) <= ps <= |line|)
      decreases |line| - ps, 0
    {
      var found := Peek("(");
      if !found { return Panic; }
      var _, _ := GetToken();
      var body := ParseLine();
      if body.Panic? { return Panic; }
      found := Peek(")");
      if !found { return Panic; }
      var _, _ := GetToken();
      var rs := ParseRedirs();
      if rs.Panic? { return Panic; }
      return Parsed(Wrap(body.value, rs.value));
    }

    method ParseExec() returns (r: Outcome<Cmd>)
      requires ps <= |line|
      modifies this
      ensures Agrees(r, ps, ShellSyntax.ParseExec(line, old(ps))) && (r.Parsed? ==> old(ps) <= ps <= |line|)
      decreases |line| - ps, 1
    {
      var block := Peek("(");
      if block {
        r := ParseBlock();
        return;
      }
      var rs := ParseRedirs();
      if rs.Panic? { return Panic; }
      r := ParseArgs(rs.value);
    }

    method ParsePipe() returns (r: Outcome<Cmd>)
      requires ps <= |line|
      modifies this
      ensures Agrees(r, ps, ShellSyntax.ParsePipe(line, old(ps))) && (r.Parsed? ==> old(ps) <= ps <= |line|)
      decreases |line| - ps, 2
    {
      r := ParseExec();
      if r.Panic? { return; }
      var bar := Peek("|");
      if bar {
        var _, _ := GetToken();
        var right := ParsePipe();
        if right.Panic? { return Panic; }
        r := Parsed(Pipe(r.value, right.value));
      }
    }

    method ParseLine() returns (r: Outcome<Cmd>)
      requires ps <= |line|
      modifies this
      ensures Agrees(r, ps, ShellSyntax.ParseLine(line, old(ps))) && (r.Parsed? ==> old(ps) <= ps <= |line|)
      decreases |line| - ps, 3
    {
      r := ParsePipe();
      if r.Panic? { return; }
      ghost var first := ShellSyntax.ParsePipe(line, old(ps));
      ghost var all := Amps(line, first.pos, first.value);
      var amp := Peek("&");
      while amp
        invariant old(ps) <= ps <= |line| && SkipSpace(line, ps) == ps
        invariant amp == ShellSyntax.Peek(line, ps, "&")
        invariant r.Parsed? && Amps(line, ps, r.value) == all
        decreases |line| - ps
      {
        var _, _ := GetToken();
        r := Parsed(Back(r.value));
        amp := Peek("&");
      }
      var semi := Peek(";");
      if semi {
        var _, _ := GetToken();
        var right := ParseLine();
        if right.Panic? { return Panic; }
        r := Parsed(List(r.value, right.value));
      }
    }
  }

  // ---------------------------------------------------------------- nulterminate

  /** Every token of a command: its arguments and its file names. */
  ghost function Toks(c: Cmd): set<Tok> {
    match c
    case Exec(argv) => set i | 0 <= i < |argv| :: argv[i]
    case Redir(sub, file, _) => Toks(sub) + {file}
    case Pipe(l, r) => Toks(l) + Toks(r)
    case List(l, r) => Toks(l) + Toks(r)
    case Back(sub) => Toks(sub)
  }

  ghost predicate EndsAt(c: Cmd, i: nat) {
    exists t :: t in Toks(c) && t.eq == i
  }

  /** The buffer with a NUL behind every token. */
  ghost function Cut(b: seq<char>, c: Cmd): (r: seq<char>)
    ensures |r| == |b|
  {
    seq(|b|, i requires 0 <= i < |b| => if EndsAt(c, i) then NUL else b[i])
  }

  lemma CutBoth(b: seq<char>, l: Cmd, r: Cmd, c: Cmd)
    requires Toks(c) == Toks(l) + Toks(r)
    ensures Cut(Cut(b, l), r) == Cut(b, c)
  {}

  lemma CutMore(b: seq<char>, c: Cmd, t: Tok, c': Cmd)
    requires Toks(c') == Toks(c) + {t} && t.eq < |b|
    ensures Cut(b, c)[t.eq := NUL] == Cut(b, c')
  {}

  /** nulterminate writes a NUL behind every token of the command and nowhere else. */
  method Nulterminate(buf: array<char>, c: Cmd)
    requires forall t :: t in Toks(c) ==> t.eq < buf.Length
    modifies buf
    ensures buf[..] == Cut(old(buf[..]), c)
    decreases c
  {
    match c
    case Exec(argv) =>
      assert buf[..] == Cut(buf[..], Exec([]));
      for i := 0 to |argv|
        invariant buf[..] == Cut(old(buf[..]), Exec(argv[..i]))
      {
        assert argv[i] in Toks(c);
        CutMore(old(buf[..]), Exec(argv[..i]), argv[i], Exec(argv[..i + 1]));
        buf[argv[i].eq] := NUL;
      }
      assert argv[..|argv|] == argv;
    case Redir(sub, file, _) =>
      Nulterminate(buf, sub);
      CutMore(old(buf[..]), sub, file, c);
      buf[file.eq] := NUL;
    case Pipe(l, r) =>
      Nulterminate(buf, l);
      Nulterminate(buf, r);
      CutBoth(old(buf[..]), l, r, c);
    case List(l, r) =>
      Nulterminate(buf, l);
      Nulterminate(buf, r);
      CutBoth(old(buf[..]), l, r, c);
    case Back(sub) =>
      Nulterminate(buf, sub);
  }

  /** The C string at q. */
  function CString(b: seq<char>, q: nat): string
    decreases |b| - q
  {
    if q < |b| && b[q] != NUL then [b[q]] + CString(b, q + 1) else ""
  }

  function CStrings(b: seq<char>, ts: seq<Tok>): (r: seq<string>)
    ensures |r| == |ts|
  {
    seq(|ts|, i requires 0 <= i < |ts| => CString(b, ts[i].q))
  }

  /** The command as runcmd sees it: every pointer followed to its NUL. */
  function Seen(b: seq<char>, c: Cmd): Tree {
    match c
    case Exec(argv) => TExec(CStrings(b, argv))
    case Redir(sub, file, write) => TRedir(Seen(b, sub), CString(b, file.q), write)
    case Pipe(l, r) => TPipe(Seen(b, l), Seen(b, r))
    case List(l, r) => TList(Seen(b, l), Seen(b, r))
    case Back(sub) => TBack(Seen(b, sub))
  }

  lemma {:induction false} CStringIs(b: seq<char>, q: nat, e: nat)
    requires q <= e < |b| && b[e] == NUL && forall x :: q <= x < e ==> b[x] != NUL
    ensures CString(b, q) == b[q..e]
    decreases e - q
  {
    if q < e { CStringIs(b, q + 1, e); }
  }

  ghost predicate AllOk(s: string, c: Cmd) {
    forall t :: t in Toks(c) ==> TokOk(s, t)
  }

  /** No cut falls inside a token: cuts are at the end of the line or at blanks and symbols. */
  lemma TokenSurvives(s: string, c: Cmd, t: Tok)
    requires Line(s) && AllOk(s, c) && t in Toks(c)
    ensures CString(Cut(s + [NUL], c), t.q) == Text(s, t)
  {
    var b := Cut(s + [NUL], c);
    assert TokOk(s, t) && EndsAt(c, t.eq);
    forall x | t.q <= x < t.eq ensures b[x] == s[x] && s[x] != NUL {
      assert WordChar(s[x]);
      assert !EndsAt(c, x);
    }
    CStringIs(b, t.q, t.eq);
    assert b[t.q..t.eq] == s[t.q..t.eq];
  }

  lemma {:induction false} SeenPart(s: string, whole: Cmd, c: Cmd)
    requires Line(s) && AllOk(s, whole) && Toks(c) <= Toks(whole)
    ensures Seen(Cut(s + [NUL], whole), c) == Shape(s, c)
    decreases c
  {
    var b := Cut(s + [NUL], whole);
    match c
    case Exec(argv) =>
      forall i | 0 <= i < |argv| ensures CStrings(b, argv)[i] == Texts(s, argv)[i] {
        assert argv[i] in Toks(c);
        TokenSurvives(s, whole, argv[i]);
      }
      assert CStrings(b, argv) == Texts(s, argv);
    case Redir(sub, file, _) => SeenPart(s, whole, sub); TokenSurvives(s, whole, file);
    case Pipe(l, r) => SeenPart(s, whole, l); SeenPart(s, whole, r);
    case List(l, r) => SeenPart(s, whole, l); SeenPart(s, whole, r);
    case Back(sub) => SeenPart(s, whole, sub);
  }

  // ---------------------------------------------------------------- tokens of a parse

  lemma {:induction false} WrapToks(s: string, c: Cmd, rs: seq<Redirect>)
    requires AllOk(s, c) && forall k :: 0 <= k < |rs| ==> TokOk(s, rs[k].file)
    ensures AllOk(s, Wrap(c, rs))
    decreases |rs|
  {
    if rs != [] { WrapToks(s, c, rs[..|rs| - 1]); }
  }

  lemma {:induction false} ArgsToks(s: string, i: nat, argv: seq<Tok>, rs: seq<Redirect>)
    requires Line(s) && i <= |s| && Args(s, i, argv, rs).Ok?
    requires forall k :: 0 <= k < |argv| ==> TokOk(s, argv[k])
    requires forall k :: 0 <= k < |rs| ==> TokOk(s, rs[k].file)
    ensures AllOk(s, Args(s, i, argv, rs).value)
    decreases |s| - i
  {
    WrapToks(s, Exec(argv), rs);
    if !ShellSyntax.Peek(s, i, "|)&;") {
      var t := ShellSyntax.GetToken(s, SkipSpace(s, i));
      if t.kind == WORD {
        var more := Redirs(s, t.next);
        ArgsToks(s, more.pos, argv + [t.tok], rs + more.value);
      }
    }
  }

  lemma Advances(s: string, i: nat, toks: string)
    requires i <= |s| && ShellSyntax.Peek(s, i, toks)
    ensures i < ShellSyntax.GetToken(s, SkipSpace(s, i)).next
  {}

  lemma {:induction false} ExecToks(s: string, i: nat)
    requires Line(s) && i <= |s| && ShellSyntax.ParseExec(s, i).Ok?
    ensures AllOk(s, ShellSyntax.ParseExec(s, i).value)
    decreases |s| - i, 0
  {
    if ShellSyntax.Peek(s, i, "(") {
      var j := ShellSyntax.GetToken(s, SkipSpace(s, i)).next;
      var body := ShellSyntax.ParseLine(s, j);
      LineToks(s, j);
      WrapToks(s, body.value, Redirs(s, ShellSyntax.GetToken(s, SkipSpace(s, body.pos)).next).value);
    } else {
      var rs := Redirs(s, SkipSpace(s, i));
      ArgsToks(s, rs.pos, [], rs.value);
    }
  }

  lemma {:induction false} PipeToks(s: string, i: nat)
    requires Line(s) && i <= |s| && ShellSyntax.ParsePipe(s, i).Ok?
    ensures AllOk(s, ShellSyntax.ParsePipe(s, i).value)
    decreases |s| - i, 1
  {
    hide TokOk, SkipSpace, ShellSyntax.GetToken, ShellSyntax.ParseExec;
    ExecToks(s, i);
    var l := ShellSyntax.ParseExec(s, i);
    if ShellSyntax.Peek(s, l.pos, "|") {
      Advances(s, l.pos, "|");
      PipeToks(s, ShellSyntax.GetToken(s, SkipSpace(s, l.pos)).next);
    }
  }

  lemma {:induction false} AmpsToks(s: string, i: nat, c: Cmd)
    requires i <= |s| && AllOk(s, c)
    ensures AllOk(s, Amps(s, i, c).value)
    decreases |s| - i
  {
    if ShellSyntax.Peek(s, i, "&") {
      AmpsToks(s, ShellSyntax.GetToken(s, SkipSpace(s, i)).next, Back(c));
    }
  }

  lemma {:induction false} LineToks(s: string, i: nat)
    requires Line(s) && i <= |s| && ShellSyntax.ParseLine(s, i).Ok?
    ensures AllOk(s, ShellSyntax.ParseLine(s, i).value)
    decreases |s| - i, 2
  {
    hide TokOk, SkipSpace, ShellSyntax.GetToken, ShellSyntax.ParsePipe, Amps;
    PipeToks(s, i);
    var p := ShellSyntax.ParsePipe(s, i);
    AmpsToks(s, p.pos, p.value);
    var l := Amps(s, p.pos, p.value);
    if ShellSyntax.Peek(s, l.pos, ";") {
      Advances(s, l.pos, ";");
      LineToks(s, ShellSyntax.GetToken(s, SkipSpace(s, l.pos)).next);
    }
  }

  // ---------------------------------------------------------------- parsecmd

  /** Cutting the line loses nothing: through the pointers of the parsed command, every string
      in the cut buffer is exactly the token the grammar found. */
  lemma CutKeepsTokens(s: string, c: Cmd)
    requires Line(s) && ShellSyntax.ParseCmd(s) == Ok(c, |s|)
    ensures AllOk(s, c) && Seen(Cut(s + [NUL], c), c) == Shape(s, c)
  {
    LineToks(s, 0);
    SeenPart(s, c, c);
  }

  lemma BlankLine(g: string)
    requires Blank(g)
    ensures Line(g)
  {
    forall i | 0 <= i < |g| ensures g[i] != NUL { assert g[i] in " \t\r\n\U{B}"; }
  }

  lemma LineJoin(a: string, b: string)
    requires Line(a) && Line(b)
    ensures Line(a + b)
  {}

  lemma {:induction false} ItemsLine(items: seq<Item>)
    requires ItemsOk(items)
    ensures Line(ItemsText(items))
    decreases |items|
  {
    if items != [] {
      var it := items[0];
      assert ItemOk(it);
      BlankLine(it.gap);
      if it.Into? { BlankLine(it.mid); }
      ItemsLine(items[1..]);
      LineJoin(ItemText(it), ItemsText(items[1..]));
    }
  }

  /** A spelling has no NUL in it. */
  lemma {:induction false} YieldLine(d: Syn)
    requires Spells(d)
    ensures Line(Yield(d))
    decreases d
  {
    hide ItemsText, ItemsOk, Blank;
    match d
    case Simple(items) => ItemsLine(items);
    case Block(gap, body, close, tail) => BlankLine(gap); BlankLine(close); YieldLine(body); ItemsLine(tail);
    case Piped(l, gap, r) => BlankLine(gap); YieldLine(l); YieldLine(r);
    case Amped(sub, gap) => BlankLine(gap); YieldLine(sub);
    case Listed(l, gap, r) => BlankLine(gap); YieldLine(l); YieldLine(r);
  }

  /** From text to what is run: any spelling, parsed and cut in place, is the tree it means. */
  lemma RunsWhatIsSpelled(lead: string, d: Syn)
    requires Blank(lead) && Spells(d)
    ensures var s := lead + Yield(d); var p := ShellSyntax.ParseCmd(s);
      p.Ok? && Seen(Cut(s + [NUL], p.value), p.value) == Meaning(d)
  {
    hide Yield, Spells, Blank, Meaning, Shape, Seen;
    ShellReads.ParsesSpelling(lead, d);
    BlankLine(lead);
    YieldLine(d);
    LineJoin(lead, Yield(d));
    CutKeepsTokens(lead + Yield(d), ShellSyntax.ParseCmd(lead + Yield(d)).value);
  }

  /** Every legal tree can be typed and is then what is run. */
  lemma RunsEveryTree(t: Tree)
    requires Legal(t)
    ensures var s := Yield(Canon(t, LINE)); var p := ShellSyntax.ParseCmd(s);
      p.Ok? && Seen(Cut(s + [NUL], p.value), p.value) == t
  {
    hide Yield, Spells, Meaning, Shape, Seen, Canon;
    Spellable(t, LINE);
    RunsWhatIsSpelled("", Canon(t, LINE));
    assert "" + Yield(Canon(t, LINE)) == Yield(Canon(t, LINE));
  }

  lemma CutFront(b: seq<char>, s: string, c: Cmd)
    requires AllOk(s, c) && |s| < |b| && b[..|s| + 1] == s + [NUL]
    ensures Cut(b, c)[..|s| + 1] == Cut(s + [NUL], c)
    ensures Cut(b, c)[|s| + 1..] == b[|s| + 1..]
  {}

  /** parsecmd on the buffer getcmd filled. */
  method ParseCmd(buf: array<char>, ghost s: string) returns (r: Outcome<Cmd>)
    requires Line(s) && |s| < buf.Length && buf[..|s| + 1] == s + [NUL]
    modifies buf
    ensures ShellSyntax.ParseCmd(s).Failed? <==> r.Panic?
    ensures r.Panic? ==> buf[..] == old(buf[..])
    ensures r.Parsed? ==> ShellSyntax.ParseCmd(s) == Ok(r.value, |s|)
    ensures r.Parsed? ==> Seen(buf[..|s| + 1], r.value) == Shape(s, r.value)
    ensures buf[|s| + 1..] == old(buf[|s| + 1..])
    ensures r.Parsed? <==> exists lead, d :: ShellSpells.SpelledBy(s, lead, d)
    ensures forall lead, d :: ShellSpells.SpelledBy(s, lead, d) ==>
      r.Parsed? && Seen(buf[..|s| + 1], r.value) == Meaning(d)
  {
    hide ShellSpells.SpelledBy;
    ShellSpells.AcceptsExactly(s);
    var n := 0;
    assert forall x :: 0 <= x <= |s| ==> buf[x] == (s + [NUL])[x];
    while buf[n] != NUL
      invariant n <= |s|
      decreases |s| - n
    {
      n := n + 1;
    }
    assert n == |s|;
    assert buf[..n] == s;
    var p := new Parser(buf[..n]);
    r := p.ParseLine();
    if r.Panic? { return; }
    var _ := p.Peek("");
    if p.ps != n { return Panic; }
    CutKeepsTokens(s, r.value);
    Nulterminate(buf, r.value);
    CutFront(old(buf[..]), s, r.value);
  }
}
