/** Two-level page tables in physical memory, and who owns each physical page.

    Addresses are counted in pages: a kernel pointer to a page is its physical page number, and a
    virtual page v has directory index v / 1024 and table index v % 1024. */
module PageTables {
  import opened Common

  const NPAGES: nat := 0xE000      // PHYSTOP
  const WORDS: nat := 1024         // NPDENTRIES, NPTENTRIES
  const USER: nat := 0x80000       // KERNBASE
  const VPAGES: nat := 0x100000

  const PTE_P := 1
  const PTE_W := 2
  const PTE_U := 4

  type Mem = seq<seq<nat>>

  /** What a physical page is used for; Held is a page somebody got from kalloc and has not
      mapped, Kernel one that the allocator never hands out. */
  datatype Role =
    | Kernel
    | Free
    | Held
    | Dir
    | Table(dir: nat, pdx: nat)
    | Frame(dir: nat, v: nat)

  // ---------------------------------------------------------------- words and entries

  predicate Shaped(mem: Mem) {
    |mem| == NPAGES && forall p :: 0 <= p < |mem| ==> |mem[p]| == WORDS
  }

  function Word(mem: Mem, p: nat, x: nat): nat {
    if p < |mem| && x < |mem[p]| then mem[p][x] else 0
  }

  function SetWord(mem: Mem, p: nat, x: nat, w: nat): Mem {
    if p < |mem| && x < |mem[p]| then
      var row: seq<nat> := mem[p][x := w];
      mem[p := row]
    else mem
  }

  function At(role: seq<Role>, p: nat): Role {
    if p < |role| then role[p] else Kernel
  }

  predicate Present(w: nat) { w % 2 == 1 }

  function Ppn(w: nat): nat { w / 4096 }

  function Flags(w: nat): nat { w % 4096 }

  /** pa | perm | PTE_P, with the address of physical page p in 32 bits. */
  function Entry(p: nat, perm: nat): nat {
    p % VPAGES * 4096 + if perm % 2 == 0 then perm + PTE_P else perm
  }

  lemma EntryParts(p: nat, perm: nat)
    requires perm < 4096
    ensures Present(Entry(p, perm)) && Ppn(Entry(p, perm)) == p % VPAGES && (p < NPAGES ==> Ppn(Entry(p, perm)) == p)
    ensures Flags(Entry(p, perm)) == if Present(perm) then perm else perm + PTE_P
  {}

  lemma WordSet(mem: Mem, p: nat, x: nat, w: nat, q: nat, y: nat)
    requires Shaped(mem) && p < NPAGES && x < WORDS
    ensures Shaped(SetWord(mem, p, x, w))
    ensures Word(SetWord(mem, p, x, w), q, y) == if p == q && x == y then w else Word(mem, q, y)
  {}

  function Shown(w: nat): nat {
    if Present(w) then w else 0
  }

  /** The present entry the hardware finds for virtual page v; 0 if v is not mapped. */
  function PteAt(mem: Mem, d: nat, v: nat): nat {
    var pde := Word(mem, d, v / WORDS);
    if Present(pde) then Shown(Word(mem, Ppn(pde), v % WORDS)) else 0
  }

  // ---------------------------------------------------------------- ownership

  /** A present directory entry points at a table that belongs to that entry alone. */
  ghost predicate PdeOk(mem: Mem, role: seq<Role>, d: nat, x: nat) {
    At(role, d) == Dir && Present(Word(mem, d, x)) ==> At(role, Ppn(Word(mem, d, x))) == Table(d, x)
  }

  ghost predicate TableOk(mem: Mem, role: seq<Role>, t: nat) {
    At(role, t).Table? ==>
      var d, x := At(role, t).dir, At(role, t).pdx;
      At(role, d) == Dir && Present(Word(mem, d, x)) && Ppn(Word(mem, d, x)) == t
  }

  /** A present user entry points at a frame that belongs to that entry alone. */
  ghost predicate PteOk(mem: Mem, role: seq<Role>, d: nat, v: nat) {
    At(role, d) == Dir && v < USER && Present(PteAt(mem, d, v)) ==> At(role, Ppn(PteAt(mem, d, v))) == Frame(d, v)
  }

  ghost predicate FrameOk(mem: Mem, role: seq<Role>, f: nat) {
    At(role, f).Frame? ==>
      var d, v := At(role, f).dir, At(role, f).v;
      At(role, d) == Dir && v < USER && Present(PteAt(mem, d, v)) && Ppn(PteAt(mem, d, v)) == f
  }

  ghost predicate TablesOk(mem: Mem, role: seq<Role>) {
    && (forall d: nat, x: nat :: PdeOk(mem, role, d, x))
    && forall t: nat :: TableOk(mem, role, t)
  }

  ghost predicate FramesOk(mem: Mem, role: seq<Role>) {
    && (forall d: nat, v: nat :: PteOk(mem, role, d, v))
    && forall f: nat :: FrameOk(mem, role, f)
  }

  /** Every frame has one user entry, and no page serves two purposes: it is a user frame, a
      page table, a page directory or on the free list. */
  lemma PagesApart(mem: Mem, role: seq<Role>, head: nat, free: seq<nat>, d: nat, v: nat, d': nat, v': nat)
    requires TablesOk(mem, role) && FramesOk(mem, role) && FreeOk(mem, role, head, free)
    requires At(role, d) == Dir && v < USER && Present(PteAt(mem, d, v))
    requires At(role, d') == Dir && v' < USER && Present(PteAt(mem, d', v'))
    ensures Ppn(PteAt(mem, d, v)) == Ppn(PteAt(mem, d', v')) ==> d == d' && v == v'
    ensures Ppn(PteAt(mem, d, v)) != Ppn(Word(mem, d', v' / WORDS))
    ensures Ppn(Word(mem, d, v / WORDS)) == Ppn(Word(mem, d', v' / WORDS)) ==> d == d' && v / WORDS == v' / WORDS
    ensures Ppn(PteAt(mem, d, v)) != d' && Ppn(Word(mem, d, v / WORDS)) != d'
    ensures Ppn(PteAt(mem, d, v)) !in free && Ppn(Word(mem, d, v / WORDS)) !in free && d !in free
  {
    assert forall p :: p in free ==> At(role, p) == Free by {
      forall p | p in free ensures At(role, p) == Free {
        var i :| 0 <= i < |free| && free[i] == p;
        assert LinkOk(mem, role, free, i);
      }
    }
    assert PteOk(mem, role, d, v) && PteOk(mem, role, d', v');
    assert PdeOk(mem, role, d, v / WORDS) && PdeOk(mem, role, d', v' / WORDS);
  }

  // ---------------------------------------------------------------- entries before and after

  ghost predicate SamePtes(mem: Mem, mem': Mem, role: seq<Role>) {
    forall d: nat, v: nat :: At(role, d) == Dir ==> PteAt(mem', d, v) == PteAt(mem, d, v)
  }

  /** mem' has the entries of mem, except that page v of d has entry w. */
  ghost predicate OnePte(mem: Mem, mem': Mem, role: seq<Role>, d: nat, v: nat, w: nat) {
    forall d': nat, v': nat :: At(role, d') == Dir ==>
      PteAt(mem', d', v') == if d' == d && v' == v then w else PteAt(mem, d', v')
  }

  predicate Node(r: Role) {
    r.Dir? || r.Table?
  }

  /** Other pages change hands; directories and tables keep their words. */
  ghost predicate SameTables(mem: Mem, role: seq<Role>, mem': Mem, role': seq<Role>) {
    forall p: nat | Node(At(role, p)) || Node(At(role', p)) ::
      At(role', p) == At(role, p) && forall x: nat :: Word(mem', p, x) == Word(mem, p, x)
  }

  lemma KeepsTables(mem: Mem, role: seq<Role>, mem': Mem, role': seq<Role>)
    requires TablesOk(mem, role) && SameTables(mem, role, mem', role')
    ensures TablesOk(mem', role') && SamePtes(mem, mem', role)
  {
    forall d: nat, x: nat ensures PdeOk(mem', role', d, x) {
      assert PdeOk(mem, role, d, x);
    }
    forall t: nat ensures TableOk(mem', role', t) {
      assert TableOk(mem, role, t);
    }
    forall d: nat, v: nat | At(role, d) == Dir ensures PteAt(mem', d, v) == PteAt(mem, d, v) {
      assert PdeOk(mem, role, d, v / WORDS);
    }
  }

  /** Frames only depend on the entries, the directories and the frames' own roles. */
  lemma KeepsFrames(mem: Mem, role: seq<Role>, mem': Mem, role': seq<Role>)
    requires FramesOk(mem, role)
    requires forall p: nat :: At(role, p).Dir? <==> At(role', p).Dir?
    requires forall p: nat :: At(role, p).Frame? || At(role', p).Frame? ==> At(role, p) == At(role', p)
    requires forall d: nat, v: nat :: At(role, d) == Dir && v < USER ==> PteAt(mem', d, v) == PteAt(mem, d, v)
    ensures FramesOk(mem', role')
  {
    hide PteAt;
    forall d: nat, v: nat ensures PteOk(mem', role', d, v) {
      assert PteOk(mem, role, d, v);
    }
    forall f: nat ensures FrameOk(mem', role', f) {
      assert FrameOk(mem, role, f);
    }
  }

  /** A zeroed page becomes the table of an empty directory entry: no entry changes. */
  lemma AddTable(mem: Mem, role: seq<Role>, d: nat, x: nat, t: nat)
    requires Shaped(mem) && |role| == NPAGES && TablesOk(mem, role)
    requires At(role, d) == Dir && x < WORDS && !Present(Word(mem, d, x))
    requires At(role, t) == Held && forall y: nat :: Word(mem, t, y) == 0
    ensures var mem' := SetWord(mem, d, x, Entry(t, PTE_W + PTE_U));
            TablesOk(mem', role[t := Table(d, x)]) && SamePtes(mem, mem', role)
  {
    var w := Entry(t, PTE_W + PTE_U);
    var mem', role' := SetWord(mem, d, x, w), role[t := Table(d, x)];
    EntryParts(t, PTE_W + PTE_U);
    hide Entry, SetWord, Word, Present, Ppn;
    forall d': nat, x': nat ensures PdeOk(mem', role', d', x') {
      assert PdeOk(mem, role, d', x');
      WordSet(mem, d, x, w, d', x');
    }
    forall p: nat ensures TableOk(mem', role', p) {
      assert TableOk(mem, role, p);
      if p == t { WordSet(mem, d, x, w, d, x); }
      else if At(role, p).Table? { WordSet(mem, d, x, w, At(role, p).dir, At(role, p).pdx); }
    }
    forall d': nat, v: nat | At(role, d') == Dir ensures PteAt(mem', d', v) == PteAt(mem, d', v) {
      assert PdeOk(mem, role, d', v / WORDS);
      WordSet(mem, d, x, w, d', v / WORDS);
      WordSet(mem, d, x, w, t, v % WORDS);
      WordSet(mem, d, x, w, Ppn(Word(mem, d', v / WORDS)), v % WORDS);
    }
  }

  /** Writing one word of a table changes one entry of one directory. */
  lemma WritePte(mem: Mem, role: seq<Role>, d: nat, v: nat, t: nat, w: nat)
    requires Shaped(mem) && |role| == NPAGES && TablesOk(mem, role)
    requires At(role, t) == Table(d, v / WORDS)
    ensures var mem' := SetWord(mem, t, v % WORDS, w); TablesOk(mem', role) && OnePte(mem, mem', role, d, v, Shown(w))
  {
    var y := v % WORDS;
    var mem' := SetWord(mem, t, y, w);
    assert TableOk(mem, role, t);
    assert t < NPAGES;
    hide SetWord, Word, Present, Ppn;
    forall d': nat, x': nat ensures PdeOk(mem', role, d', x') {
      assert PdeOk(mem, role, d', x');
      WordSet(mem, t, y, w, d', x');
    }
    forall p: nat ensures TableOk(mem', role, p) {
      assert TableOk(mem, role, p);
      if At(role, p).Table? { WordSet(mem, t, y, w, At(role, p).dir, At(role, p).pdx); }
    }
    forall d': nat, v': nat | At(role, d') == Dir
      ensures PteAt(mem', d', v') == if d' == d && v' == v then Shown(w) else PteAt(mem, d', v')
    {
      assert PdeOk(mem, role, d', v' / WORDS);
      WordSet(mem, t, y, w, d', v' / WORDS);
      WordSet(mem, t, y, w, Ppn(Word(mem, d', v' / WORDS)), v' % WORDS);
    }
  }

  /** A held page becomes the frame of a user page that had none. */
  lemma AddFrame(mem: Mem, role: seq<Role>, mem': Mem, d: nat, v: nat, f: nat, w: nat)
    requires FramesOk(mem, role) && OnePte(mem, mem', role, d, v, w)
    requires At(role, d) == Dir && v < USER && !Present(PteAt(mem, d, v))
    requires At(role, f) == Held && Present(w) && Ppn(w) == f
    ensures f < |role| && FramesOk(mem', role[f := Frame(d, v)])
  {
    hide PteAt, Present, Ppn;
    var role' := role[f := Frame(d, v)];
    forall d': nat, v': nat ensures PteOk(mem', role', d', v') {
      assert PteOk(mem, role, d', v');
    }
    forall p: nat ensures FrameOk(mem', role', p) {
      assert FrameOk(mem, role, p);
    }
  }

  /** Clearing a user entry frees its frame. */
  lemma DropFrame(mem: Mem, role: seq<Role>, mem': Mem, d: nat, v: nat)
    requires FramesOk(mem, role) && OnePte(mem, mem', role, d, v, 0)
    requires At(role, d) == Dir && v < USER && Present(PteAt(mem, d, v))
    ensures var f := Ppn(PteAt(mem, d, v));
            f < |role| && role[f] == Frame(d, v) && FramesOk(mem', role[f := Free])
  {
    assert PteOk(mem, role, d, v);
    var f := Ppn(PteAt(mem, d, v));
    var role' := role[f := Free];
    assert !Present(0);
    hide PteAt, Present, Ppn;
    forall d': nat, v': nat ensures PteOk(mem', role', d', v') {
      assert PteOk(mem, role, d', v');
    }
    forall p: nat ensures FrameOk(mem', role', p) {
      assert FrameOk(mem, role, p);
    }
  }

  // ---------------------------------------------------------------- the free list

  function First(s: seq<nat>): nat {
    if s == [] then 0 else s[0]
  }

  /** The list through the first words of the free pages, from `head`, is `free`: exactly the free
      pages, each once. */
  ghost predicate FreeOk(mem: Mem, role: seq<Role>, head: nat, free: seq<nat>) {
    && head == First(free)
    && (forall i :: 0 <= i < |free| ==> LinkOk(mem, role, free, i))
    && Distinct(free)
    && forall p: nat :: At(role, p) == Free ==> p in free
  }

  /** A link holds the address of the next free page, 0 at the end. */
  ghost predicate LinkOk(mem: Mem, role: seq<Role>, free: seq<nat>, i: nat)
    requires i < |free|
  {
    0 < free[i] && At(role, free[i]) == Free && Word(mem, free[i], 0) == First(free[i + 1..])
  }

  lemma KeepsFree(mem: Mem, role: seq<Role>, mem': Mem, role': seq<Role>, head: nat, free: seq<nat>)
    requires FreeOk(mem, role, head, free)
    requires forall p: nat :: At(role, p) == Free <==> At(role', p) == Free
    requires forall p: nat :: At(role, p) == Free ==> Word(mem', p, 0) == Word(mem, p, 0)
    ensures FreeOk(mem', role', head, free)
  {
    hide Word, First;
    forall i | 0 <= i < |free| ensures LinkOk(mem', role', free, i) {
      assert LinkOk(mem, role, free, i);
    }
  }

  lemma PopFree(mem: Mem, role: seq<Role>, head: nat, free: seq<nat>)
    requires FreeOk(mem, role, head, free) && free != []
    ensures head == free[0] && head < |role| && role[head] == Free && head != 0
    ensures FreeOk(mem, role[head := Held], Word(mem, head, 0), free[1..])
  {
    hide Word;
    assert LinkOk(mem, role, free, 0);
    var rest, role' := free[1..], role[head := Held];
    forall i | 0 <= i < |rest| ensures LinkOk(mem, role', rest, i) {
      assert LinkOk(mem, role, free, i + 1) && free[0] != free[i + 1];
      assert rest[i + 1..] == free[i + 2..];
    }
    forall p: nat | At(role', p) == Free ensures p in rest {
      assert At(role, p) == Free;
      assert free == [free[0]] + rest;
    }
  }

  lemma PushLink(mem: Mem, role: seq<Role>, mem': Mem, p: nat, free: seq<nat>, i: nat)
    requires 0 < p < |role| && role[p] != Free && i < |free| + 1
    requires i > 0 ==> LinkOk(mem, role, free, i - 1)
    requires forall q: nat :: q != p ==> Word(mem', q, 0) == Word(mem, q, 0)
    requires Word(mem', p, 0) == First(free)
    ensures LinkOk(mem', role[p := Free], [p] + free, i)
  {}

  lemma PushFree(mem: Mem, role: seq<Role>, mem': Mem, p: nat, head: nat, free: seq<nat>)
    requires FreeOk(mem, role, head, free) && 0 < p < |role| && role[p] != Free
    requires forall q: nat :: q != p ==> Word(mem', q, 0) == Word(mem, q, 0)
    requires Word(mem', p, 0) == head
    ensures FreeOk(mem', role[p := Free], p, [p] + free)
  {
    hide Word;
    var free', role' := [p] + free, role[p := Free];
    forall i | 0 <= i < |free'| ensures LinkOk(mem', role', free', i) {
      PushLink(mem, role, mem', p, free, i);
    }
    forall i | 0 <= i < |free| ensures free[i] != p {
      assert LinkOk(mem, role, free, i);
    }
    forall q: nat | At(role', q) == Free ensures q in free' {
      assert q == p || At(role, q) == Free;
    }
  }
}
