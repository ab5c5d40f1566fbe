/** The grammar of sh.c's parser as functions of the input line and a cursor into it. The line is
    the C string without its NUL; reading at its end gives the NUL. */
module ShellSyntax {

  const MAXARGS := 10
  const NUL: char := '\U{0}'

  /** What gettoken returns for a word, and for >> */
  const WORD: char := 'a'
  const APPEND: char := '+'

  predicate IsSpace(c: char) {
    c == ' ' || c == '\t' || c == '\r' || c == '\n' || c == '\U{B}'
  }

  predicate IsSymbol(c: char) {
    c == '<' || c == '|' || c == '>' || c == '&' || c == ';' || c == '(' || c == ')'
  }

  predicate WordChar(c: char) {
    !IsSpace(c) && !IsSymbol(c) && c != NUL
  }

  /** A C string: no NUL inside. */
  predicate Line(s: string) {
    forall i :: 0 <= i < |s| ==> s[i] != NUL
  }

  /** A token's place in the line: the pointers q and eq. */
  datatype Tok = Tok(q: nat, eq: nat)

  datatype Redirect = Redirect(file: Tok, write: bool)

  /** struct cmd and its variants; `mode` and `fd` follow from `write`. */
  datatype Cmd =
    | Exec(argv: seq<Tok>)
    | Redir(cmd: Cmd, file: Tok, write: bool)
    | Pipe(left: Cmd, right: Cmd)
    | List(left: Cmd, right: Cmd)
    | Back(cmd: Cmd)

  /** A parse: the command and where the cursor stands, or one of the parser's panics. */
  datatype Parse<T> = Failed | Ok(value: T, pos: nat)

  datatype Lexeme = Lexeme(kind: char, tok: Tok, next: nat)

  // ---------------------------------------------------------------- tokens

  function SkipSpace(s: string, i: nat): (r: nat)
    requires i <= |s|
    ensures i <= r <= |s| && (r < |s| ==> !IsSpace(s[r]))
    decreases |s| - i
  {
    if i < |s| && IsSpace(s[i]) then SkipSpace(s, i + 1) else i
  }

  function WordEnd(s: string, i: nat): (r: nat)
    requires i <= |s|
    ensures i <= r <= |s|
    ensures r < |s| ==> IsSpace(s[r]) || IsSymbol(s[r])
    ensures forall x :: i <= x < r ==> !IsSpace(s[x]) && !IsSymbol(s[x])
    decreases |s| - i
  {
    if i < |s| && !IsSpace(s[i]) && !IsSymbol(s[i]) then WordEnd(s, i + 1) else i
  }

  /** The word at a token: maximal, and made of word characters. */
  ghost predicate TokOk(s: string, t: Tok) {
    && t.q < t.eq <= |s| && (t.eq < |s| ==> !WordChar(s[t.eq]))
    && forall x :: t.q <= x < t.eq ==> WordChar(s[x])
  }

  /** gettoken */
  function GetToken(s: string, i: nat): (r: Lexeme)
    requires i <= |s|
    ensures i <= r.next <= |s| && r.tok.eq <= r.next
    ensures r.kind != NUL ==> i < r.next
    ensures Line(s) && r.kind == WORD ==> TokOk(s, r.tok)
  {
    var q := SkipSpace(s, i);
    var (kind, eq) :=
      if q == |s| then (NUL, q)
      else if s[q] == '>' then if q + 1 < |s| && s[q + 1] == '>' then (APPEND, q + 2) else ('>', q + 1)
      else if IsSymbol(s[q]) then (s[q], q + 1)
      else (WORD, WordEnd(s, q));
    Lexeme(kind, Tok(q, eq), SkipSpace(s, eq))
  }

  /** From i up to j there are only blanks, and what comes then is none. */
  ghost predicate Blanks(s: string, i: nat, j: nat) {
    && i <= j <= |s| && (forall x :: i <= x < j ==> s[x] in " \t\r\n\U{B}")
    && (j < |s| ==> s[j] !in " \t\r\n\U{B}")
  }

  lemma {:induction false} SkipsBlanks(s: string, i: nat)
    requires i <= |s|
    ensures Blanks(s, i, SkipSpace(s, i))
    decreases |s| - i
  {
    if i < |s| && IsSpace(s[i]) { SkipsBlanks(s, i + 1); }
  }

  /** What a token is, character by character: blanks, then the end of the line, one of the signs,
      or >> as one sign, or the longest word; then blanks. */
  ghost predicate IsToken(s: string, i: nat, kind: char, tok: Tok, next: nat) {
    var q, e := tok.q, tok.eq;
    && Blanks(s, i, q) && q <= e && Blanks(s, e, next)
    && (q == |s| ==> kind == '\U{0}' && e == q)
    && (q < |s| && s[q] in "<|&;()" ==> kind == s[q] && e == q + 1)
    && (q < |s| && s[q] == '>' ==>
          if q + 1 < |s| && s[q + 1] == '>' then kind == '+' && e == q + 2 else kind == '>' && e == q + 1)
    && (q < |s| && s[q] !in "<|>&;()" ==>
          && kind == 'a' && q < e && (forall x :: q <= x < e ==> s[x] !in " \t\r\n\U{B}<|>&;()")
          && (e < |s| ==> s[e] in " \t\r\n\U{B}<|>&;()"))
  }

  lemma TokenIs(s: string, i: nat)
    requires i <= |s|
    ensures var r := GetToken(s, i); IsToken(s, i, r.kind, r.tok, r.next)
  {
    var r := GetToken(s, i);
    SkipsBlanks(s, i);
    SkipsBlanks(s, r.tok.eq);
  }

  /** peek: is the next character past spaces one of toks? */
  predicate Peek(s: string, i: nat, toks: string)
    requires i <= |s|
  {
    var j := SkipSpace(s, i);
    j < |s| && s[j] in toks
  }

  // ---------------------------------------------------------------- commands

  /** A redirection as it stands in the line: < or > or >>, blanks, and the file name; an output if
      and only if the sign is no <. */
  ghost predicate Signed(s: string, r: Redirect) {
    exists q: nat, m: nat ::
      && q < m <= r.file.q < r.file.eq <= |s| && Blanks(s, m, r.file.q)
      && (if r.write then s[q..m] == ">" || s[q..m] == ">>" else s[q..m] == "<")
  }

  /** parseredirs: the redirections from the cursor on; each one wraps what came before. */
  function Redirs(s: string, i: nat): (r: Parse<seq<Redirect>>)
    requires i <= |s|
    ensures r.Ok? ==> i <= r.pos <= |s|
    ensures r.Ok? && Line(s) ==> forall k :: 0 <= k < |r.value| ==> TokOk(s, r.value[k].file)
    decreases |s| - i
  {
    if Peek(s, i, "<>") then
      var op := GetToken(s, SkipSpace(s, i));
      var file := GetToken(s, op.next);
      if file.kind != WORD then Failed
      else
        var rest := Redirs(s, file.next);
        if rest.Failed? then Failed
        else Ok([Redirect(file.tok, op.kind != '<')] + rest.value, rest.pos)
    else Ok([], SkipSpace(s, i))
  }

  /** The sign and the file of one round of parseredirs. */
  lemma FirstSigned(s: string, i: nat)
    requires i <= |s| && Peek(s, i, "<>")
    ensures var op := GetToken(s, SkipSpace(s, i));
            var file := GetToken(s, op.next);
      file.kind == WORD ==> Signed(s, Redirect(file.tok, op.kind != '<'))
  {
    var j := SkipSpace(s, i);
    var op := GetToken(s, j);
    var file := GetToken(s, op.next);
    TokenIs(s, j);
    TokenIs(s, op.next);
    if file.kind == WORD {
      var m := op.tok.eq;
      assert Blanks(s, m, file.tok.q);
      assert s[j..m] == if s[j] == '<' then "<" else if m == j + 2 then ">>" else ">";
    }
  }

  /** Every redirection parseredirs returns stands in the line with its sign. */
  lemma {:induction false} RedirsSigned(s: string, i: nat)
    requires i <= |s| && Redirs(s, i).Ok?
    ensures forall k :: 0 <= k < |Redirs(s, i).value| ==> Signed(s, Redirs(s, i).value[k])
    decreases |s| - i
  {
    hide Signed;
    if Peek(s, i, "<>") {
      FirstSigned(s, i);
      RedirsSigned(s, GetToken(s, GetToken(s, SkipSpace(s, i)).next).next);
    }
  }

  function Wrap(c: Cmd, rs: seq<Redirect>): Cmd
    decreases |rs|
  {
    if rs == [] then c else Redir(Wrap(c, rs[..|rs| - 1]), rs[|rs| - 1].file, rs[|rs| - 1].write)
  }

  /** The argument loop of parseexec. */
  function Args(s: string, i: nat, argv: seq<Tok>, rs: seq<Redirect>): (r: Parse<Cmd>)
    requires i <= |s|
    ensures r.Ok? ==> i <= r.pos <= |s|
    decreases |s| - i
  {
    if Peek(s, i, "|)&;") then Ok(Wrap(Exec(argv), rs), SkipSpace(s, i))
    else
      var t := GetToken(s, SkipSpace(s, i));
      if t.kind == NUL then Ok(Wrap(Exec(argv), rs), t.next)
      else if t.kind != WORD || |argv| + 1 >= MAXARGS then Failed
      else
        var more := Redirs(s, t.next);
        if more.Failed? then Failed else Args(s, more.pos, argv + [t.tok], rs + more.value)
  }

  function ParseExec(s: string, i: nat): (r: Parse<Cmd>)
    requires i <= |s|
    ensures r.Ok? ==> i <= r.pos <= |s|
    decreases |s| - i, 0
  {
    if Peek(s, i, "(") then
      var body := ParseLine(s, GetToken(s, SkipSpace(s, i)).next);
      if body.Failed? || !Peek(s, body.pos, ")") then Failed
      else
        var rs := Redirs(s, GetToken(s, SkipSpace(s, body.pos)).next);
        if rs.Failed? then Failed else Ok(Wrap(body.value, rs.value), rs.pos)
    else
      var rs := Redirs(s, SkipSpace(s, i));
      if rs.Failed? then Failed else Args(s, rs.pos, [], rs.value)
  }

  function ParsePipe(s: string, i: nat): (r: Parse<Cmd>)
    requires i <= |s|
    ensures r.Ok? ==> i <= r.pos <= |s|
    decreases |s| - i, 1
  {
    var l := ParseExec(s, i);
    if l.Failed? then Failed
    else if Peek(s, l.pos, "|") then
      var r := ParsePipe(s, GetToken(s, SkipSpace(s, l.pos)).next);
      if r.Failed? then Failed else Ok(Pipe(l.value, r.value), r.pos)
    else Ok(l.value, SkipSpace(s, l.pos))
  }

  /** The loop of parseline over &. */
  function Amps(s: string, i: nat, c: Cmd): (r: Parse<Cmd>)
    requires i <= |s|
    ensures r.Ok? && i <= r.pos <= |s|
    decreases |s| - i
  {
    if Peek(s, i, "&") then Amps(s, GetToken(s, SkipSpace(s, i)).next, Back(c)) else Ok(c, SkipSpace(s, i))
  }

  function ParseLine(s: string, i: nat): (r: Parse<Cmd>)
    requires i <= |s|
    ensures r.Ok? ==> i <= r.pos <= |s|
    decreases |s| - i, 2
  {
    var p := ParsePipe(s, i);
    if p.Failed? then Failed
    else
      var l := Amps(s, p.pos, p.value);
      if Peek(s, l.pos, ";") then
        var r := ParseLine(s, GetToken(s, SkipSpace(s, l.pos)).next);
        if r.Failed? then Failed else Ok(List(l.value, r.value), r.pos)
      else Ok(l.value, SkipSpace(s, l.pos))
  }

  /** parsecmd before nulterminate; leftovers are a syntax error. */
  function ParseCmd(s: string): Parse<Cmd> {
    var r := ParseLine(s, 0);
    if r.Failed? || SkipSpace(s, r.pos) != |s| then Failed else Ok(r.value, |s|)
  }
}
