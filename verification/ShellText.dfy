/** The shell's language, written down independently of its parser: every way to spell a command,
    and the command tree each spelling means. */
module ShellText {
  import opened ShellSyntax

  /** A command with its words written out. */
  datatype Tree =
    | TExec(words: seq<string>)
    | TRedir(sub: Tree, file: string, write: bool)
    | TPipe(left: Tree, right: Tree)
    | TList(left: Tree, right: Tree)
    | TBack(sub: Tree)

  // ---------------------------------------------------------------- spellings

  predicate Blank(g: string) {
    forall x :: 0 <= x < |g| ==> g[x] in " \t\r\n\U{B}"
  }

  predicate Word(w: string) {
    w != "" && forall x :: 0 <= x < |w| ==> w[x] !in " \t\r\n\U{B}<|>&;()" && w[x] != '\U{0}'
  }

  /** A word or a redirection of a simple command, with the blanks behind it. */
  datatype Item =
    | Arg(word: string, gap: string)
    | Into(sign: string, mid: string, file: string, gap: string)

  predicate ItemOk(it: Item) {
    match it
    case Arg(word, gap) => Word(word) && Blank(gap)
    case Into(sign, mid, file, gap) =>
      (sign == "<" || sign == ">" || sign == ">>") && Blank(mid) && Word(file) && Blank(gap)
  }

  /** Two words may not touch; a redirection may touch anything. */
  predicate ItemsOk(items: seq<Item>) {
    && (forall k :: 0 <= k < |items| ==> ItemOk(items[k]))
    && (forall k, l :: 0 <= k < |items| && 0 <= l < |items| && l == k + 1 && items[k].gap == "" ==> items[l].Into?)
  }

  function ItemText(it: Item): string {
    match it
    case Arg(word, gap) => word + gap
    case Into(sign, mid, file, gap) => sign + mid + file + gap
  }

  function ItemsText(items: seq<Item>): string {
    if items == [] then "" else ItemText(items[0]) + ItemsText(items[1..])
  }

  function WordOf(it: Item): seq<string> {
    if it.Arg? then [it.word] else []
  }

  function Words(items: seq<Item>): seq<string> {
    if items == [] then [] else WordOf(items[0]) + Words(items[1..])
  }

  datatype Target = Target(file: string, write: bool)

  /** The sign < reads the file; > and >> write it. */
  function TargetOf(it: Item): seq<Target> {
    if it.Into? then [Target(it.file, it.sign != "<")] else []
  }

  function Targets(items: seq<Item>): seq<Target> {
    if items == [] then [] else TargetOf(items[0]) + Targets(items[1..])
  }

  lemma {:induction false} ItemsConcat(a: seq<Item>, b: seq<Item>)
    ensures ItemsText(a + b) == ItemsText(a) + ItemsText(b)
    ensures Words(a + b) == Words(a) + Words(b) && Targets(a + b) == Targets(a) + Targets(b)
  {
    hide ItemText, WordOf, TargetOf, ItemsText, Words, Targets;
    NoItems();
    if a == [] {
      assert a + b == b;
      assert "" + ItemsText(b) == ItemsText(b) && [] + Words(b) == Words(b) && [] + Targets(b) == Targets(b);
    } else {
      ItemsConcat(a[1..], b);
      assert (a + b)[1..] == a[1..] + b && (a + b)[0] == a[0];
      ItemsCons(a);
      ItemsCons(a + b);
      Assoc(ItemText(a[0]), ItemsText(a[1..]), ItemsText(b));
      Assoc(WordOf(a[0]), Words(a[1..]), Words(b));
      Assoc(TargetOf(a[0]), Targets(a[1..]), Targets(b));
    }
  }

  lemma Assoc<T>(a: seq<T>, b: seq<T>, c: seq<T>)
    ensures (a + b) + c == a + (b + c)
  {}

  lemma NoItems()
    ensures ItemsText([]) == "" && Words([]) == [] && Targets([]) == []
  {}

  lemma ItemsCons(items: seq<Item>)
    requires items != []
    ensures ItemsText(items) == ItemText(items[0]) + ItemsText(items[1..])
    ensures Words(items) == WordOf(items[0]) + Words(items[1..])
    ensures Targets(items) == TargetOf(items[0]) + Targets(items[1..])
  {}

  lemma ItemsOne(it: Item)
    ensures ItemsText([it]) == ItemText(it) && Words([it]) == WordOf(it) && Targets([it]) == TargetOf(it)
  {
    hide ItemText, WordOf, TargetOf, ItemsText, Words, Targets;
    ItemsCons([it]);
    NoItems();
    assert [it][1..] == [];
    assert ItemText(it) + "" == ItemText(it) && WordOf(it) + [] == WordOf(it) && TargetOf(it) + [] == TargetOf(it);
  }

  /** A spelling: simple commands, blocks in parentheses with redirections behind, and the three
      operators, with the blanks behind each sign. */
  datatype Syn =
    | Simple(items: seq<Item>)
    | Block(gap: string, body: Syn, close: string, tail: seq<Item>)
    | Piped(left: Syn, gap: string, right: Syn)
    | Amped(sub: Syn, gap: string)
    | Listed(left: Syn, gap: string, right: Syn)

  function Yield(d: Syn): string {
    match d
    case Simple(items) => ItemsText(items)
    case Block(gap, body, close, tail) => "(" + gap + Yield(body) + ")" + close + ItemsText(tail)
    case Piped(l, gap, r) => Yield(l) + "|" + gap + Yield(r)
    case Amped(sub, gap) => Yield(sub) + "&" + gap
    case Listed(l, gap, r) => Yield(l) + ";" + gap + Yield(r)
  }

  /** Redirections wrap what stands before them, the last one outermost. */
  function Redirected(t: Tree, ts: seq<Target>): Tree
    decreases |ts|
  {
    if ts == [] then t
    else
      var n := |ts| - 1;
      TRedir(Redirected(t, ts[..n]), ts[n].file, ts[n].write)
  }

  function Meaning(d: Syn): Tree {
    match d
    case Simple(items) => Redirected(TExec(Words(items)), Targets(items))
    case Block(_, body, _, tail) => Redirected(Meaning(body), Targets(tail))
    case Piped(l, _, r) => TPipe(Meaning(l), Meaning(r))
    case Amped(sub, _) => TBack(Meaning(sub))
    case Listed(l, _, r) => TList(Meaning(l), Meaning(r))
  }

  // Operator levels, loosest first: ; then & then | then simple commands and blocks.
  const LINE := 0
  const BACK := 1
  const PIPE := 2
  const EXEC := 3

  function Level(d: Syn): nat {
    match d
    case Listed(_, _, _) => LINE
    case Amped(_, _) => BACK
    case Piped(_, _, _) => PIPE
    case _ => EXEC
  }

  /** What the language allows: ; and | nest to the right, & applies to a pipeline, and a simple
      command has at most nine words. */
  predicate Spells(d: Syn) {
    match d
    case Simple(items) => ItemsOk(items) && |Words(items)| < 10
    case Block(gap, body, close, tail) =>
      && Blank(gap) && Spells(body) && Blank(close)
      && ItemsOk(tail) && forall k :: 0 <= k < |tail| ==> tail[k].Into?
    case Piped(l, gap, r) => Spells(l) && Level(l) == EXEC && Blank(gap) && Spells(r) && Level(r) >= PIPE
    case Amped(sub, gap) => Spells(sub) && Level(sub) >= BACK && Blank(gap)
    case Listed(l, gap, r) => Spells(l) && Level(l) >= BACK && Blank(gap) && Spells(r)
  }

  // ---------------------------------------------------------------- the tree of a parse

  function Text(s: string, t: Tok): string {
    if t.q <= t.eq <= |s| then s[t.q..t.eq] else ""
  }

  function Texts(s: string, ts: seq<Tok>): (r: seq<string>)
    ensures |r| == |ts|
  {
    seq(|ts|, i requires 0 <= i < |ts| => Text(s, ts[i]))
  }

  function TargetsOf(s: string, rs: seq<Redirect>): (r: seq<Target>)
    ensures |r| == |rs|
  {
    seq(|rs|, i requires 0 <= i < |rs| => Target(Text(s, rs[i].file), rs[i].write))
  }

  /** The tree a parsed command stands for. */
  function Shape(s: string, c: Cmd): Tree {
    match c
    case Exec(argv) => TExec(Texts(s, argv))
    case Redir(c1, file, write) => TRedir(Shape(s, c1), Text(s, file), write)
    case Pipe(l, r) => TPipe(Shape(s, l), Shape(s, r))
    case List(l, r) => TList(Shape(s, l), Shape(s, r))
    case Back(c1) => TBack(Shape(s, c1))
  }

  // ---------------------------------------------------------------- every tree has a spelling

  /** Legal words, and fewer than MAXARGS arguments to each command. */
  predicate Legal(t: Tree) {
    match t
    case TExec(words) => |words| < 10 && forall i :: 0 <= i < |words| ==> Word(words[i])
    case TRedir(sub, file, _) => Legal(sub) && Word(file)
    case TPipe(l, r) => Legal(l) && Legal(r)
    case TList(l, r) => Legal(l) && Legal(r)
    case TBack(sub) => Legal(sub)
  }

  function PlainWords(ws: seq<string>): (r: seq<Item>)
    ensures |r| == |ws|
  {
    seq(|ws|, i requires 0 <= i < |ws| => Arg(ws[i], " "))
  }

  function PlainInto(file: string, write: bool): Item {
    Into(if write then ">" else "<", "", file, " ")
  }

  /** A plain spelling, with parentheses where the tree needs them. */
  function Canon(t: Tree, lvl: nat): Syn
    decreases t, 1
  {
    var d := Bare(t);
    if Level(d) < lvl then Block("", d, "", []) else d
  }

  function Bare(t: Tree): Syn
    decreases t, 0
  {
    match t
    case TExec(words) => Simple(PlainWords(words))
    case TRedir(sub, file, write) => WithInto(Canon(sub, EXEC), PlainInto(file, write))
    case TPipe(l, r) => Piped(Canon(l, EXEC), "", Canon(r, PIPE))
    case TList(l, r) => Listed(Canon(l, BACK), "", Canon(r, LINE))
    case TBack(sub) => Amped(Canon(sub, BACK), "")
  }

  /** One more redirection behind a simple command or a block. */
  function WithInto(d: Syn, it: Item): Syn {
    match d
    case Simple(items) => Simple(items + [it])
    case Block(gap, body, close, tail) => Block(gap, body, close, tail + [it])
    case _ => d
  }

  lemma {:induction false} PlainMeans(ws: seq<string>)
    ensures Words(PlainWords(ws)) == ws && Targets(PlainWords(ws)) == []
  {
    hide Words, Targets;
    NoItems();
    if ws != [] {
      var n := |ws| - 1;
      var it := Arg(ws[n], " ");
      PlainMeans(ws[..n]);
      assert PlainWords(ws) == PlainWords(ws[..n]) + [it];
      ItemsConcat(PlainWords(ws[..n]), [it]);
      ItemsOne(it);
      assert ws == ws[..n] + [ws[n]];
      assert Targets(PlainWords(ws)) == [] + TargetOf(it) == [];
    }
  }

  lemma RedirectedSnoc(t: Tree, ts: seq<Target>, x: Target)
    ensures Redirected(t, ts + [x]) == TRedir(Redirected(t, ts), x.file, x.write)
  {
    assert (ts + [x])[..|ts|] == ts;
  }

  lemma IntoMeans(items: seq<Item>, it: Item, t: Tree)
    requires ItemsOk(items) && ItemOk(it) && it.Into?
    ensures ItemsOk(items + [it]) && Words(items + [it]) == Words(items)
    ensures Redirected(t, Targets(items + [it])) == TRedir(Redirected(t, Targets(items)), it.file, it.sign != "<")
  {
    hide Words, Targets, Redirected;
    ItemsConcat(items, [it]);
    ItemsOne(it);
    assert Words(items) + [] == Words(items);
    RedirectedSnoc(t, Targets(items), Target(it.file, it.sign != "<"));
  }

  lemma WithIntoMeans(d: Syn, it: Item)
    requires Spells(d) && Level(d) == EXEC && ItemOk(it) && it.Into?
    ensures var e := WithInto(d, it);
      Spells(e) && Level(e) == EXEC && Meaning(e) == TRedir(Meaning(d), it.file, it.sign != "<")
  {
    hide Redirected, Words, Targets, ItemsOk;
    match d
    case Simple(items) => IntoMeans(items, it, TExec(Words(items)));
    case Block(_, body, _, tail) => IntoMeans(tail, it, Meaning(body));
  }

  /** Every legal tree can be spelled. */
  lemma {:induction false} Spellable(t: Tree, lvl: nat)
    requires Legal(t) && lvl <= EXEC
    ensures var d := Canon(t, lvl); Spells(d) && Level(d) >= lvl && Meaning(d) == t
    decreases t
  {
    hide Word;
    match t
    case TExec(words) => PlainMeans(words); PlainOk(words);
    case TRedir(sub, file, write) =>
      Spellable(sub, EXEC);
      WithIntoMeans(Canon(sub, EXEC), PlainInto(file, write));
    case TPipe(l, r) => Spellable(l, EXEC); Spellable(r, PIPE);
    case TList(l, r) => Spellable(l, BACK); Spellable(r, LINE);
    case TBack(sub) => Spellable(sub, BACK);
    InBlock(Bare(t));
  }

  lemma PlainOk(ws: seq<string>)
    requires forall i :: 0 <= i < |ws| ==> Word(ws[i])
    ensures ItemsOk(PlainWords(ws))
  {}

  lemma InBlock(d: Syn)
    requires Spells(d)
    ensures Spells(Block("", d, "", [])) && Meaning(Block("", d, "", [])) == Meaning(d)
  {}
}
