/** What the operations on address spaces do to memory and to the roles of pages, step by step. */
module VmSteps {
  import opened PageTables

  datatype MapResult = Mapped | NoMemory | Remap

  function Zeros(): (r: seq<nat>)
    ensures |r| == WORDS && forall x :: 0 <= x < WORDS ==> r[x] == 0
  {
    seq(WORDS, _ => 0)
  }

  /** Free pages may have become tables of directory d; nothing else changed hands. */
  ghost predicate Took(role: seq<Role>, role': seq<Role>, d: nat) {
    && |role'| == |role|
    && forall p: nat :: At(role', p) == At(role, p)
        || (At(role, p) == Free && At(role', p).Table? && At(role', p).dir == d)
  }

  /** Pages whose contents belong to somebody: user frames, held pages, the kernel's own. */
  predicate Data(r: Role) {
    r.Kernel? || r.Held? || r.Frame?
  }

  ghost predicate KeepsData(mem: Mem, mem': Mem, role: seq<Role>) {
    forall p: nat, x: nat :: Data(At(role, p)) ==> Word(mem', p, x) == Word(mem, p, x)
  }

  /** The page i pages behind v, and how far page p is behind v: after the last page comes page 0. */
  function Onward(v: nat, i: nat): int {
    if v + i < VPAGES then v + i else v + i - VPAGES
  }

  function Ahead(v: nat, p: nat): int {
    if v <= p then p - v else p - v + VPAGES
  }

  /** The entries after mapping k pages from v of d to the k physical pages from pa. */
  ghost predicate PtesSet(mem: Mem, mem': Mem, role: seq<Role>, d: nat, v: nat, k: nat, pa: nat, perm: nat) {
    forall d': nat, v': nat :: At(role, d') == Dir ==>
      PteAt(mem', d', v') ==
        if d' == d && v' < VPAGES && v < VPAGES && Ahead(v, v') < k then Entry(pa + Ahead(v, v'), perm)
        else PteAt(mem, d', v')
  }

  lemma SetOneMore(mem0: Mem, mem1: Mem, mem2: Mem, mem3: Mem, role0: seq<Role>, role1: seq<Role>,
                   role2: seq<Role>, d: nat, v: nat, k: nat, pa: nat, perm: nat)
    requires PtesSet(mem0, mem1, role0, d, v, k, pa, perm) && SamePtes(mem1, mem2, role1)
    requires v < VPAGES && k < VPAGES && OnePte(mem2, mem3, role2, d, Onward(v, k), Entry(pa + k, perm))
    requires Took(role0, role1, d) && Took(role1, role2, d)
    ensures PtesSet(mem0, mem3, role0, d, v, k + 1, pa, perm)
  {}

  lemma TookKeeps(role: seq<Role>, role': seq<Role>, d: nat, p: nat)
    requires Took(role, role', d)
    ensures At(role, p) != Free ==> At(role', p) == At(role, p)
    ensures |role'| == |role|
  {}

  lemma TookNone(mem: Mem, role: seq<Role>, d: nat)
    ensures Took(role, role, d) && KeepsData(mem, mem, role)
  {}

  lemma SetStill(mem0: Mem, mem1: Mem, mem2: Mem, role0: seq<Role>, role1: seq<Role>, d: nat, v: nat, k: nat, pa: nat,
                 perm: nat)
    requires PtesSet(mem0, mem1, role0, d, v, k, pa, perm) && SamePtes(mem1, mem2, role1) && Took(role0, role1, d)
    ensures PtesSet(mem0, mem2, role0, d, v, k, pa, perm)
  {}

  lemma TookMore(mem0: Mem, mem1: Mem, mem2: Mem, role0: seq<Role>, role1: seq<Role>, role2: seq<Role>, d: nat)
    requires Took(role0, role1, d) && Took(role1, role2, d)
    requires KeepsData(mem0, mem1, role0) && KeepsData(mem1, mem2, role1)
    ensures Took(role0, role2, d) && KeepsData(mem0, mem2, role0)
  {}

  lemma SetFew(mem: Mem, mem': Mem, role: seq<Role>, role': seq<Role>, d: nat, v: nat, k: nat, pa: nat, perm: nat)
    requires PtesSet(mem, mem', role, d, v, k, pa, perm) && Took(role, role', d) && v < VPAGES
    ensures k == 0 ==> SamePtes(mem, mem', role) && SamePtes(mem, mem', role')
    ensures k == 1 ==> OnePte(mem, mem', role, d, v, Entry(pa, perm)) && OnePte(mem, mem', role', d, v, Entry(pa, perm))
  {}

  // ---------------------------------------------------------------- shrinking

  /** PGROUNDUP, in pages */
  function Up(sz: nat): nat { (sz + 4095) / 4096 }

  /** The frames of d's pages from lo to hi are free; all else is as it was. */
  ghost function Dropped(role: seq<Role>, d: nat, lo: nat, hi: nat): (r: seq<Role>)
    ensures |r| == |role|
  {
    seq(|role|, p requires 0 <= p < |role| =>
      if role[p].Frame? && role[p].dir == d && lo <= role[p].v < hi then Free else role[p])
  }

  /** d's pages from lo to hi are not mapped; all else is as it was. */
  ghost predicate Unmapped(mem: Mem, mem': Mem, role: seq<Role>, d: nat, lo: nat, hi: nat) {
    forall d': nat, v: nat :: At(role, d') == Dir ==>
      PteAt(mem', d', v) ==
        if d' == d && lo <= v < hi then 0 else PteAt(mem, d', v)
  }

  lemma DropsNothing(mem: Mem, role: seq<Role>, d: nat, lo: nat, hi: nat)
    ensures Dropped(role, d, lo, lo) == role && Unmapped(mem, mem, role, d, lo, lo) && KeepsData(mem, mem, role)
    ensures hi <= lo ==> Dropped(role, d, lo, hi) == role && Unmapped(mem, mem, role, d, lo, hi)
  {}

  /** Pages without an entry have no frame to drop. */
  lemma SkipPages(mem0: Mem, mem1: Mem, role0: seq<Role>, d: nat, lo: nat, a: nat, b: nat)
    requires FramesOk(mem0, role0) && At(role0, d) == Dir && lo <= a <= b
    requires Unmapped(mem0, mem1, role0, d, lo, a)
    requires forall v :: a <= v < b ==> PteAt(mem1, d, v) == 0
    ensures Unmapped(mem0, mem1, role0, d, lo, b) && Dropped(role0, d, lo, b) == Dropped(role0, d, lo, a)
  {
    assert !Present(0);
    hide PteAt, Present;
    forall p | 0 <= p < |role0| ensures Dropped(role0, d, lo, b)[p] == Dropped(role0, d, lo, a)[p] {
      assert FrameOk(mem0, role0, p);
      if role0[p].Frame? && role0[p].dir == d { assert PteAt(mem1, d, role0[p].v) == PteAt(mem1, d, role0[p].v); }
    }
  }

  /** A missing table stands for a whole row of missing entries. */
  lemma SkipTable(mem0: Mem, mem1: Mem, role0: seq<Role>, d: nat, lo: nat, a: nat, b: nat)
    requires FramesOk(mem0, role0) && At(role0, d) == Dir && lo <= a <= b <= (a / WORDS + 1) * WORDS
    requires Unmapped(mem0, mem1, role0, d, lo, a) && !Present(Word(mem1, d, a / WORDS))
    ensures Unmapped(mem0, mem1, role0, d, lo, b) && Dropped(role0, d, lo, b) == Dropped(role0, d, lo, a)
  {
    forall v | a <= v < b ensures PteAt(mem1, d, v) == 0 {
      assert v / WORDS == a / WORDS;
    }
    SkipPages(mem0, mem1, role0, d, lo, a, b);
  }

  lemma DropMore(mem0: Mem, mem1: Mem, mem2: Mem, role0: seq<Role>, d: nat, lo: nat, v: nat)
    requires FramesOk(mem0, role0) && At(role0, d) == Dir && lo <= v
    requires Unmapped(mem0, mem1, role0, d, lo, v) && Present(PteAt(mem1, d, v)) && Ppn(PteAt(mem1, d, v)) < |role0|
    requires Dropped(role0, d, lo, v)[Ppn(PteAt(mem1, d, v))] == Frame(d, v)
    requires OnePte(mem1, mem2, Dropped(role0, d, lo, v), d, v, 0)
    requires KeepsData(mem0, mem1, Dropped(role0, d, lo, v))
    requires KeepsData(mem1, mem2, Dropped(role0, d, lo, v)[Ppn(PteAt(mem1, d, v)) := Free])
    ensures Unmapped(mem0, mem2, role0, d, lo, v + 1) && KeepsData(mem0, mem2, Dropped(role0, d, lo, v + 1))
    ensures Dropped(role0, d, lo, v + 1) == Dropped(role0, d, lo, v)[Ppn(PteAt(mem1, d, v)) := Free]
  {
    hide PteAt, Present, Ppn;
    var f := Ppn(PteAt(mem1, d, v));
    assert PteAt(mem1, d, v) == PteAt(mem0, d, v);
    var was, now := Dropped(role0, d, lo, v)[f := Free], Dropped(role0, d, lo, v + 1);
    forall p | 0 <= p < |role0| ensures now[p] == was[p] {
      assert FrameOk(mem0, role0, p);
    }
    forall d': nat, u: nat | At(role0, d') == Dir
      ensures PteAt(mem2, d', u) == if d' == d && lo <= u < v + 1 then 0 else PteAt(mem0, d', u)
    {
      assert At(Dropped(role0, d, lo, v), d') == Dir;
    }
  }

  /** A page fresh from kalloc has been filled: tables and data are untouched. */
  lemma Prepared(mem: Mem, role: seq<Role>, f: nat, content: seq<nat>)
    requires Shaped(mem) && |role| == NPAGES && TablesOk(mem, role) && f < NPAGES && role[f] == Free
    requires |content| == WORDS
    ensures var mem' := mem[f := content]; var role' := role[f := Held];
      && TablesOk(mem', role') && SamePtes(mem, mem', role) && KeepsData(mem, mem', role)
      && (forall x :: 0 <= x < WORDS ==> Word(mem', f, x) == content[x])
      && (forall p: nat :: p != f ==> At(role', p) == At(role, p)) && At(role', f) == Held
  {
    var mem', role' := mem[f := content], role[f := Held];
    assert forall p: nat, x: nat :: p != f ==> Word(mem', p, x) == Word(mem, p, x);
    KeepsTables(mem, role, mem', role');
  }

  lemma TookAlso(role: seq<Role>, role': seq<Role>, d: nat, f: nat, r: Role)
    requires Took(role, role', d) && f < |role|
    ensures Took(role[f := r], role'[f := r], d)
  {
    var a, b := role[f := r], role'[f := r];
    forall p: nat ensures At(b, p) == At(a, p) || (At(a, p) == Free && At(b, p).Table? && At(b, p).dir == d) {
      assert p != f ==> At(a, p) == At(role, p) && At(b, p) == At(role', p);
    }
  }

  lemma AddedPage(mem0: Mem, role0: seq<Role>, mem1: Mem, mem2: Mem, role2: seq<Role>,
                  d: nat, v: nat, f: nat, perm: nat, k: nat)
    requires FramesOk(mem0, role0) && At(role0, d) == Dir && At(role0, f) == Free && v < USER && perm < 4096
    requires f < |role0| <= NPAGES
    requires SamePtes(mem0, mem1, role0) && Took(role0[f := Held], role2, d) && k <= 1
    requires k == 0 ==> SamePtes(mem1, mem2, role2)
    requires k == 1 ==> OnePte(mem1, mem2, role2, d, v, Entry(f, perm)) && PteAt(mem1, d, v) == 0
    ensures |role2| == |role0| && At(role2, f) == Held && At(role2, d) == Dir
    ensures k == 0 ==> FramesOk(mem2, role2) && SamePtes(mem0, mem2, role0)
    ensures k == 1 ==> FramesOk(mem2, role2[f := Frame(d, v)]) && OnePte(mem0, mem2, role0, d, v, Entry(f, perm))
    ensures k == 1 ==> Took(role0[f := Frame(d, v)], role2[f := Frame(d, v)], d)
  {
    assert !Present(0);
    EntryParts(f, perm);
    hide PteAt, Entry, Present, Ppn;
    assert forall p: nat :: At(role0, p) == Dir ==> At(role2, p) == Dir;
    KeepsFrames(mem0, role0, mem1, role2);
    if k == 0 {
      KeepsFrames(mem1, role2, mem2, role2);
    } else {
      AddFrame(mem1, role2, mem2, d, v, f, Entry(f, perm));
      TookAlso(role0[f := Held], role2, d, f, Frame(d, v));
      assert role0[f := Held][f := Frame(d, v)] == role0[f := Frame(d, v)];
    }
  }

  /** allocuvm's answer: a size, or one of the two ways it returns 0, or mappages' panic. */
  datatype Growth = Size(sz: nat) | TooBig | OutOfMemory | Panic

  /** Page u of d is a new user page full of zeros. */
  ghost predicate NewPage(role0: seq<Role>, mem: Mem, role: seq<Role>, d: nat, u: nat) {
    var f := Ppn(PteAt(mem, d, u));
    && PteAt(mem, d, u) == Entry(f, PTE_W + PTE_U)
    && At(role0, f) == Free && At(role, f) == Frame(d, u)
    && forall x: nat :: Word(mem, f, x) == 0
  }

  ghost predicate GrownRole(r0: Role, r: Role, d: nat, lo: nat, v: nat) {
    r == r0 || (r0 == Free && (r.Table? || (r.Frame? && lo <= r.v < v)) && r.dir == d)
  }

  /** The pages from lo to v of d are new, from pages that were free; every other mapping of
      every directory and all data are as they were. */
  ghost predicate Grown(mem0: Mem, role0: seq<Role>, mem: Mem, role: seq<Role>, d: nat, lo: nat, v: nat) {
    && |role| == |role0|
    && (forall p: nat :: GrownRole(At(role0, p), At(role, p), d, lo, v))
    && KeepsData(mem0, mem, role0)
    && (forall d': nat, u: nat :: At(role0, d') == Dir && !(d' == d && lo <= u < v) ==>
          PteAt(mem, d', u) == PteAt(mem0, d', u))
    && forall u :: lo <= u < v ==> PteAt(mem0, d, u) == 0 && NewPage(role0, mem, role, d, u)
  }

  lemma GrownNone(mem: Mem, role: seq<Role>, d: nat, lo: nat)
    ensures Grown(mem, role, mem, role, d, lo, lo)
  {}

  lemma GrowStep(mem0: Mem, role0: seq<Role>, mem1: Mem, role1: seq<Role>, mem2: Mem, role2: seq<Role>,
                 d: nat, lo: nat, v: nat, f: nat)
    requires Grown(mem0, role0, mem1, role1, d, lo, v) && lo <= v && At(role0, d) == Dir && Shaped(mem2)
    requires At(role1, f) == Free && f < |role1| <= NPAGES && Took(role1[f := Frame(d, v)], role2, d)
    requires PteAt(mem1, d, v) == 0 && OnePte(mem1, mem2, role1, d, v, Entry(f, PTE_W + PTE_U))
    requires KeepsData(mem1, mem2, role1) && forall x :: 0 <= x < WORDS ==> Word(mem2, f, x) == Zeros()[x]
    ensures Grown(mem0, role0, mem2, role2, d, lo, v + 1)
  {
    EntryParts(f, PTE_W + PTE_U);
    var mid := role1[f := Frame(d, v)];
    assert forall x: nat :: Word(mem2, f, x) == 0;
    hide PteAt, Entry, Ppn, Word, Present;
    assert At(mid, f) == Frame(d, v) && GrownRole(At(role0, d), At(role1, d), d, lo, v);
    forall p: nat ensures GrownRole(At(role0, p), At(role2, p), d, lo, v + 1) {
      assert GrownRole(At(role0, p), At(role1, p), d, lo, v);
      assert p != f ==> At(mid, p) == At(role1, p);
    }
    assert GrownRole(At(role0, f), At(role1, f), d, lo, v);
    forall u | lo <= u < v + 1 ensures PteAt(mem0, d, u) == 0 && NewPage(role0, mem2, role2, d, u) {
      if u < v {
        var g := Ppn(PteAt(mem1, d, u));
        assert NewPage(role0, mem1, role1, d, u) && PteAt(mem2, d, u) == PteAt(mem1, d, u);
        assert At(mid, g) == Frame(d, u) == At(role2, g);
      }
    }
    forall d': nat, u: nat | At(role0, d') == Dir && !(d' == d && lo <= u < v + 1)
      ensures PteAt(mem2, d', u) == PteAt(mem0, d', u)
    {
      assert GrownRole(At(role0, d'), At(role1, d'), d, lo, v);
    }
    forall p: nat, x: nat | Data(At(role0, p)) ensures Word(mem2, p, x) == Word(mem0, p, x) {
      assert GrownRole(At(role0, p), At(role1, p), d, lo, v);
    }
  }

  /** Whatever was mapped before memory ran out is unmapped again, and only tables stay taken. */
  lemma GrowFailed(mem0: Mem, role0: seq<Role>, mem1: Mem, role1: seq<Role>, mem2: Mem, role2: seq<Role>,
                   mem3: Mem, mem4: Mem, role4: seq<Role>, d: nat, lo: nat, v: nat, hi: nat, f: nat)
    requires Grown(mem0, role0, mem1, role1, d, lo, v) && v <= hi && At(role0, d) == Dir && f < |role1|
    requires f == 0 ==> role2 == role1 && role4 == Dropped(role2, d, lo, hi) && mem4 == mem3
    requires f != 0 ==> At(role1, f) == Free && Took(role1[f := Held], role2, d)
    requires f != 0 ==> role4 == Dropped(role2, d, lo, hi)[f := Free] && SamePtes(mem3, mem4, Dropped(role2, d, lo, hi))
    requires SamePtes(mem1, mem2, role1) && KeepsData(mem1, mem2, role1)
    requires Unmapped(mem2, mem3, role2, d, lo, hi) && KeepsData(mem2, mem3, Dropped(role2, d, lo, hi))
    requires KeepsData(mem3, mem4, role4)
    ensures Unmapped(mem0, mem4, role0, d, lo, hi) && KeepsData(mem0, mem4, role4)
    ensures Took(Dropped(role0, d, lo, hi), role4, d)
  {
    hide PteAt, Word;
    var end := Dropped(role0, d, lo, hi);
    forall p: nat
      ensures At(role4, p) == At(end, p) || (At(end, p) == Free && At(role4, p).Table? && At(role4, p).dir == d)
      ensures Data(At(role4, p)) ==> At(role0, p) == At(role1, p) == At(role2, p) == At(role4, p)
      ensures At(role0, p) == Dir ==> At(role1, p) == Dir && At(role2, p) == Dir
    {
      assert GrownRole(At(role0, p), At(role1, p), d, lo, v);
      assert f != 0 && p != f ==> At(role1[f := Held], p) == At(role1, p);
      assert f != 0 && p == f ==> At(role1[f := Held], p) == Held;
    }
    forall p: nat, x: nat | Data(At(role4, p)) ensures Word(mem4, p, x) == Word(mem0, p, x) {
      assert At(role4, p) == At(Dropped(role2, d, lo, hi), p);
      assert Word(mem3, p, x) == Word(mem2, p, x) == Word(mem1, p, x);
    }
    forall d': nat, u: nat | At(role0, d') == Dir
      ensures PteAt(mem4, d', u) == if d' == d && lo <= u < hi then 0 else PteAt(mem0, d', u)
    {
      assert At(role1, d') == Dir && At(Dropped(role2, d, lo, hi), d') == Dir;
      assert PteAt(mem4, d', u) == PteAt(mem3, d', u);
      assert PteAt(mem2, d', u) == PteAt(mem1, d', u);
    }
  }

  /** A failed growth restores the user mappings exactly when none of the pages it was to add
      was mapped already. */
  lemma FailureRestores(mem: Mem, mem': Mem, role: seq<Role>, d: nat, lo: nat, hi: nat)
    requires Unmapped(mem, mem', role, d, lo, hi) && At(role, d) == Dir
    ensures SamePtes(mem, mem', role) <==> forall v :: lo <= v < hi ==> PteAt(mem, d, v) == 0
  {}

  // ---------------------------------------------------------------- freeing a directory

  /** Every page of directory d, its tables and its frames is free; all else is as it was. */
  ghost function Released(role: seq<Role>, d: nat): (r: seq<Role>)
    ensures |r| == |role|
  {
    seq(|role|, p requires 0 <= p < |role| =>
      if p == d || ((role[p].Table? || role[p].Frame?) && role[p].dir == d) then Free else role[p])
  }

  ghost function FreedTables(role: seq<Role>, d: nat, n: nat): (r: seq<Role>)
    ensures |r| == |role|
  {
    seq(|role|, p requires 0 <= p < |role| =>
      if role[p].Table? && role[p].dir == d && role[p].pdx < n then Free else role[p])
  }

  /** Only free pages have been written. */
  ghost predicate KeepsRest(mem: Mem, mem': Mem, role: seq<Role>) {
    forall p: nat, x: nat :: At(role, p) != Free ==> Word(mem', p, x) == Word(mem, p, x)
  }

  lemma FreedNone(mem: Mem, role: seq<Role>, d: nat)
    ensures FreedTables(role, d, 0) == role && KeepsRest(mem, mem, role)
  {}

  lemma FreedMore(mem1: Mem, mem2: Mem, role1: seq<Role>, d: nat, i: nat)
    requires TablesOk(mem1, role1) && At(role1, d) == Dir && KeepsRest(mem1, mem2, FreedTables(role1, d, i))
    ensures var t := Ppn(Word(mem2, d, i));
      if Present(Word(mem2, d, i)) then
        && At(FreedTables(role1, d, i), t) == Table(d, i)
        && FreedTables(role1, d, i + 1) == FreedTables(role1, d, i)[t := Free]
      else FreedTables(role1, d, i + 1) == FreedTables(role1, d, i)
  {
    assert At(FreedTables(role1, d, i), d) == Dir;
    assert Word(mem2, d, i) == Word(mem1, d, i) && PdeOk(mem1, role1, d, i);
    hide Word, Present, Ppn;
    var was, now := FreedTables(role1, d, i), FreedTables(role1, d, i + 1);
    var t := Ppn(Word(mem2, d, i));
    forall p | 0 <= p < |role1|
      ensures now[p] == if Present(Word(mem2, d, i)) && p == t then Free else was[p]
    {
      assert TableOk(mem1, role1, p);
    }
  }

  lemma RestAfterFree(mem1: Mem, mem2: Mem, mem3: Mem, role: seq<Role>, t: nat)
    requires KeepsRest(mem1, mem2, role) && t < |role| && |mem2| == |mem3| == |role|
    requires forall q :: 0 <= q < |role| && q != t ==> mem3[q] == mem2[q]
    ensures KeepsRest(mem1, mem3, role[t := Free])
  {}

  lemma DirGone(mem0: Mem, role0: seq<Role>, mem1: Mem, mem2: Mem, d: nat)
    requires Shaped(mem1) && |role0| == NPAGES && At(role0, d) == Dir && FramesOk(mem0, role0)
    requires var role1 := Dropped(role0, d, 0, USER);
      && TablesOk(mem1, role1) && FramesOk(mem1, role1) && KeepsData(mem0, mem1, role1)
      && Unmapped(mem0, mem1, role0, d, 0, USER)
      && KeepsRest(mem1, mem2, FreedTables(role1, d, WORDS)[d := Free])
    ensures var role2 := Released(role0, d);
      && FreedTables(Dropped(role0, d, 0, USER), d, WORDS)[d := Free] == role2
      && TablesOk(mem2, role2) && FramesOk(mem2, role2)
      && SamePtes(mem0, mem2, role2) && KeepsData(mem0, mem2, role2)
  {
    var role1, role2 := Dropped(role0, d, 0, USER), Released(role0, d);
    var done := FreedTables(role1, d, WORDS)[d := Free];
    forall p | 0 <= p < |role0| ensures done[p] == role2[p] {
      assert FrameOk(mem0, role0, p) && TableOk(mem1, role1, p);
    }
    assert done == role2;
    TablesGone(mem1, role1, mem2, role2, d);
    FramesGone(mem1, role1, mem2, role2, d);
    hide PteAt, Word;
    forall d': nat, v: nat | At(role2, d') == Dir ensures PteAt(mem2, d', v) == PteAt(mem0, d', v) {
      assert At(role1, d') == Dir && At(role0, d') == Dir && d' != d;
      assert PteAt(mem2, d', v) == PteAt(mem1, d', v);
    }
    forall p: nat, x: nat | Data(At(role2, p)) ensures Word(mem2, p, x) == Word(mem0, p, x) {
      assert At(role1, p) == At(role2, p);
    }
  }

  /** role2 is role1 without directory d and its tables. */
  ghost predicate Without(role1: seq<Role>, role2: seq<Role>, d: nat) {
    forall p: nat ::
      At(role2, p) == if p == d || (At(role1, p).Table? && At(role1, p).dir == d) then Free else At(role1, p)
  }

  lemma TablesGone(mem1: Mem, role1: seq<Role>, mem2: Mem, role2: seq<Role>, d: nat)
    requires TablesOk(mem1, role1) && At(role1, d) == Dir && Without(role1, role2, d) && KeepsRest(mem1, mem2, role2)
    ensures TablesOk(mem2, role2)
    ensures forall d': nat, v: nat :: At(role2, d') == Dir ==> PteAt(mem2, d', v) == PteAt(mem1, d', v)
  {
    forall d': nat, x: nat ensures PdeOk(mem2, role2, d', x) {
      assert PdeOk(mem1, role1, d', x);
    }
    forall t: nat ensures TableOk(mem2, role2, t) {
      assert TableOk(mem1, role1, t);
    }
    forall d': nat, v: nat | At(role2, d') == Dir ensures PteAt(mem2, d', v) == PteAt(mem1, d', v) {
      assert PdeOk(mem1, role1, d', v / WORDS);
    }
  }

  lemma FramesGone(mem1: Mem, role1: seq<Role>, mem2: Mem, role2: seq<Role>, d: nat)
    requires FramesOk(mem1, role1) && At(role1, d) == Dir && Without(role1, role2, d)
    requires forall p: nat :: At(role1, p).Frame? ==> At(role1, p).dir != d
    requires forall d': nat, v: nat :: At(role2, d') == Dir ==> PteAt(mem2, d', v) == PteAt(mem1, d', v)
    ensures FramesOk(mem2, role2)
  {
    hide PteAt, Present, Ppn;
    forall d': nat, v: nat ensures PteOk(mem2, role2, d', v) {
      assert PteOk(mem1, role1, d', v);
    }
    forall f: nat ensures FrameOk(mem2, role2, f) {
      assert FrameOk(mem1, role1, f);
    }
  }

  // ---------------------------------------------------------------- the kernel's part

  /** struct kmap, in pages */
  datatype Kmap = Kmap(v: nat, n: nat, pa: nat, perm: nat)

  /** kmap[]: I/O space, kernel text, kernel data and memory, devices */
  function Kmaps(data: nat): (ks: seq<Kmap>)
    requires 0x100 < data < NPAGES
    ensures |ks| == 4
  {
    [Kmap(USER, 0x100, 0, PTE_W), Kmap(USER + 0x100, data - 0x100, 0x100, 0),
     Kmap(USER + data, NPAGES - data, data, PTE_W), Kmap(0xFE000, 0x2000, 0xFE000, PTE_W)]
  }

  /** The entry of v when the first k regions are mapped. */
  ghost function MappedBy(ks: seq<Kmap>, k: nat, v: nat): nat
    requires k <= |ks|
  {
    if k == 0 then 0
    else if ks[k - 1].v <= v < ks[k - 1].v + ks[k - 1].n then Entry(ks[k - 1].pa + (v - ks[k - 1].v), ks[k - 1].perm)
    else MappedBy(ks, k - 1, v)
  }

  /** The kernel half of every address space: all physical memory at KERNBASE, text read-only,
      devices mapped at their own addresses, and nothing for the user. */
  ghost function KernelPte(data: nat, v: nat): nat {
    if USER <= v < USER + NPAGES then
      Entry(v - USER, if USER + 0x100 <= v < USER + data then 0 else PTE_W)
    else if 0xFE000 <= v < VPAGES then Entry(v, PTE_W)
    else 0
  }

  lemma KernelAll(data: nat)
    requires 0x100 < data < NPAGES
    ensures forall v: nat :: MappedBy(Kmaps(data), 4, v) == KernelPte(data, v)
  {
    var ks := Kmaps(data);
    forall v: nat ensures MappedBy(ks, 4, v) == KernelPte(data, v) {
      hide Entry;
      assert MappedBy(ks, 1, v) == if USER <= v < USER + 0x100 then KernelPte(data, v) else 0;
      assert MappedBy(ks, 2, v) == if USER <= v < USER + data then KernelPte(data, v) else 0;
      assert MappedBy(ks, 3, v) == if USER <= v < USER + NPAGES then KernelPte(data, v) else 0;
    }
  }

  /** The same in numbers, one page of 4096 bytes at a time: present is 1, writable 2, the user's 4. */
  ghost predicate KernelHalf(mem: Mem, d: nat, data: nat) {
    forall v: nat ::
      && (0x8_0000 <= v < 0x8_0100 ==> PteAt(mem, d, v) == 4096 * (v - 0x8_0000) + 1 + 2)
      && (0x8_0100 <= v < 0x8_0000 + data ==> PteAt(mem, d, v) == 4096 * (v - 0x8_0000) + 1)
      && (0x8_0000 + data <= v < 0x8_E000 ==> PteAt(mem, d, v) == 4096 * (v - 0x8_0000) + 1 + 2)
      && (0xF_E000 <= v < 0x10_0000 ==> PteAt(mem, d, v) == 4096 * v + 1 + 2)
      && (v < 0x8_0000 || 0x8_E000 <= v < 0xF_E000 || 0x10_0000 <= v ==> PteAt(mem, d, v) == 0)
  }

  lemma KernelMeans(mem: Mem, d: nat, data: nat)
    requires 0x100 < data < 0xE000 && forall v: nat :: PteAt(mem, d, v) == KernelPte(data, v)
    ensures KernelHalf(mem, d, data)
  {
    hide PteAt;
  }

  lemma KmapsApart(data: nat, k: nat)
    requires 0x100 < data < NPAGES && k < 4
    ensures var ks := Kmaps(data);
      && USER <= ks[k].v && 0 < ks[k].n && ks[k].v + ks[k].n <= VPAGES && ks[k].perm < 4096
      && forall v :: ks[k].v <= v ==> MappedBy(ks, k, v) == 0
  {
    var ks := Kmaps(data);
    hide Entry;
    forall v | ks[k].v <= v ensures MappedBy(ks, k, v) == 0 {
      assert k >= 2 ==> MappedBy(ks, 1, v) == 0;
      assert k >= 3 ==> MappedBy(ks, 2, v) == 0;
    }
  }

  /** A zeroed page becomes an empty directory. */
  lemma NewDir(mem0: Mem, role0: seq<Role>, d: nat)
    requires Shaped(mem0) && |role0| == NPAGES && TablesOk(mem0, role0) && FramesOk(mem0, role0)
    requires d < NPAGES && role0[d] == Free
    ensures var mem := mem0[d := Zeros()]; var role := role0[d := Dir];
      && TablesOk(mem, role) && FramesOk(mem, role) && SamePtes(mem0, mem, role0) && KeepsData(mem0, mem, role0)
      && (forall v: nat :: PteAt(mem, d, v) == 0) && role0[d := Held][d := Dir] == role
  {
    Prepared(mem0, role0, d, Zeros());
    var mem, held, role := mem0[d := Zeros()], role0[d := Held], role0[d := Dir];
    KeepsFrames(mem0, role0, mem, held);
    forall v: nat ensures PteAt(mem, d, v) == 0 {
      assert Word(mem, d, v / WORDS) == 0;
    }
    assert forall p: nat :: p != d ==> At(role, p) == At(held, p);
    forall d': nat, x: nat ensures PdeOk(mem, role, d', x) {
      assert PdeOk(mem, held, d', x);
    }
    forall t: nat ensures TableOk(mem, role, t) {
      assert TableOk(mem, held, t);
    }
    hide PteAt;
    assert !Present(0);
    forall d': nat, v: nat ensures PteOk(mem, role, d', v) {
      assert PteOk(mem, held, d', v);
    }
    forall f: nat ensures FrameOk(mem, role, f) {
      assert FrameOk(mem, held, f);
    }
  }

  /** Mapping kernel pages leaves the user's pages alone. */
  lemma {:induction false} KernelMapped(mem0: Mem, role0: seq<Role>, mem1: Mem, role1: seq<Role>, mem2: Mem,
                                        role2: seq<Role>, d: nat, ks: seq<Kmap>, k: nat, n: nat)
    requires k < |ks| && n <= ks[k].n && USER <= ks[k].v && ks[k].v + ks[k].n <= VPAGES && At(role1, d) == Dir
    requires At(role0, d) == Free
    requires FramesOk(mem1, role1) && Took(role1, role2, d) && KeepsData(mem1, mem2, role1)
    requires PtesSet(mem1, mem2, role1, d, ks[k].v, n, ks[k].pa, ks[k].perm)
    requires forall v: nat :: PteAt(mem1, d, v) == MappedBy(ks, k, v)
    requires SamePtes(mem0, mem1, role0) && KeepsData(mem0, mem1, role0) && |role0| == |role1|
    requires forall p: nat :: p != d ==> At(role0, p) == At(role1, p) || At(role0, p) == Free
    ensures FramesOk(mem2, role2) && SamePtes(mem0, mem2, role0) && KeepsData(mem0, mem2, role0)
    ensures n == ks[k].n ==> forall v: nat :: PteAt(mem2, d, v) == MappedBy(ks, k + 1, v)
  {
    hide PteAt, Entry, Word;
    KeepsFrames(mem1, role1, mem2, role2);
    forall d': nat, v: nat | At(role0, d') == Dir ensures PteAt(mem2, d', v) == PteAt(mem0, d', v) {
      assert At(role1, d') == Dir && PteAt(mem1, d', v) == PteAt(mem0, d', v);
    }
  }

  // ---------------------------------------------------------------- copying

  datatype Copy = Copied(dir: nat) | NoSpace | BadParent

  ghost predicate ChildRole(p: nat, r0: Role, r: Role, c: nat, hi: nat) {
    || r == r0
    || (r0 == Free && ((p == c && r == Dir) || (r.Table? && r.dir == c) || (r.Frame? && r.dir == c && r.v < hi)))
  }

  /** Directory c was made of free pages only. */
  ghost predicate ChildOf(role0: seq<Role>, role: seq<Role>, c: nat, hi: nat) {
    && |role| == |role0| && At(role0, c) == Free && At(role, c) == Dir
    && forall p: nat :: ChildRole(p, At(role0, p), At(role, p), c, hi)
  }

  /** Page v of c has the flags and the contents that page v of d had, on a page that was free. */
  ghost predicate CopiedPage(mem0: Mem, role0: seq<Role>, mem: Mem, role: seq<Role>, d: nat, c: nat, v: nat) {
    var w0, w := PteAt(mem0, d, v), PteAt(mem, c, v);
    && w0 != 0 && Present(w) && Flags(w) == Flags(w0)
    && At(role0, Ppn(w)) == Free && At(role, Ppn(w)) == Frame(c, v)
    && forall x: nat :: Word(mem, Ppn(w), x) == Word(mem0, Ppn(w0), x)
  }

  /** c is a copy of d's first hi pages over the kernel's mappings. */
  ghost predicate IsCopy(mem0: Mem, role0: seq<Role>, mem: Mem, role: seq<Role>, d: nat, c: nat, hi: nat, data: nat) {
    && ChildOf(role0, role, c, hi)
    && (forall v: nat :: v < hi ==> CopiedPage(mem0, role0, mem, role, d, c, v))
    && forall v: nat :: hi <= v ==> PteAt(mem, c, v) == KernelPte(data, v)
  }

  /** Freeing a directory that was made of free pages gives every page back. */
  lemma FreeUndoesCopy(role0: seq<Role>, role: seq<Role>, c: nat, hi: nat)
    requires ChildOf(role0, role, c, hi)
    requires forall p: nat :: At(role0, p).Table? || At(role0, p).Frame? ==> At(role0, p).dir != c
    ensures Released(role, c) == role0
  {
    forall p | 0 <= p < |role| ensures Released(role, c)[p] == role0[p] {
      assert ChildRole(p, At(role0, p), At(role, p), c, hi);
    }
  }

  /** A page that is not a directory has no tables and no frames. */
  lemma NoOrphans(mem: Mem, role: seq<Role>, c: nat)
    requires TablesOk(mem, role) && FramesOk(mem, role) && At(role, c) != Dir
    ensures forall p: nat :: At(role, p).Table? || At(role, p).Frame? ==> At(role, p).dir != c
  {
    forall p: nat | At(role, p).Table? || At(role, p).Frame? ensures At(role, p).dir != c {
      assert TableOk(mem, role, p) && FrameOk(mem, role, p);
    }
  }

  lemma CopyNone(mem0: Mem, role0: seq<Role>, mem: Mem, role: seq<Role>, d: nat, c: nat, data: nat)
    requires c < |role0| && At(role0, c) == Free && Took(role0[c := Dir], role, c)
    requires forall v: nat :: PteAt(mem, c, v) == KernelPte(data, v)
    ensures IsCopy(mem0, role0, mem, role, d, c, 0, data)
  {}

  lemma CopyDirs(mem0: Mem, role0: seq<Role>, mem: Mem, role: seq<Role>, d: nat, c: nat, v: nat, data: nat)
    requires IsCopy(mem0, role0, mem, role, d, c, v, data) && At(role0, d) == Dir && SamePtes(mem0, mem, role0)
    ensures At(role, d) == Dir && At(role, c) == Dir && c != d && PteAt(mem, d, v) == PteAt(mem0, d, v)
    ensures v < USER ==> PteAt(mem, c, v) == 0
  {}

  lemma CopyMore(mem0: Mem, role0: seq<Role>, mem1: Mem, role1: seq<Role>, mem2: Mem, role2: seq<Role>,
                 d: nat, c: nat, v: nat, data: nat, f: nat, w: nat)
    requires IsCopy(mem0, role0, mem1, role1, d, c, v, data) && SamePtes(mem0, mem1, role0)
    requires KeepsData(mem0, mem1, role0)
    requires Shaped(mem1) && Shaped(mem2) && |role1| == NPAGES && c != d
    requires w == PteAt(mem0, d, v) && Present(w) && At(role1, Ppn(w)) == Frame(d, v)
    requires At(role1, f) == Free && Took(role1[f := Frame(c, v)], role2, c)
    requires OnePte(mem1, mem2, role1, c, v, Entry(f, Flags(w))) && KeepsData(mem1, mem2, role1)
    requires forall x :: 0 <= x < WORDS ==> Word(mem2, f, x) == mem1[Ppn(w)][x]
    ensures IsCopy(mem0, role0, mem2, role2, d, c, v + 1, data)
    ensures SamePtes(mem0, mem2, role0) && KeepsData(mem0, mem2, role0)
  {
    EntryParts(f, Flags(w));
    assert Present(Flags(w));
    assert forall x: nat :: Word(mem2, f, x) == Word(mem1, Ppn(w), x);
    hide PteAt, Entry, Word, Present, Ppn, Flags;
    var mid := role1[f := Frame(c, v)];
    assert At(mid, f) == Frame(c, v) && forall p: nat :: p != f ==> At(mid, p) == At(role1, p);
    forall p: nat
      ensures ChildRole(p, At(role0, p), At(role2, p), c, v + 1)
      ensures At(role0, p) != Free ==> At(role1, p) == At(role0, p)
    {
      assert ChildRole(p, At(role0, p), At(role1, p), c, v);
      assert p != f ==> At(mid, p) == At(role1, p);
    }
    forall u: nat | u < v + 1 ensures CopiedPage(mem0, role0, mem2, role2, d, c, u) {
      assert ChildRole(f, At(role0, f), At(role1, f), c, v);
      assert ChildRole(Ppn(w), At(role0, Ppn(w)), At(role1, Ppn(w)), c, v);
      if u < v {
        assert CopiedPage(mem0, role0, mem1, role1, d, c, u) && PteAt(mem2, c, u) == PteAt(mem1, c, u);
        assert At(mid, Ppn(PteAt(mem1, c, u))) == Frame(c, u);
      }
    }
    forall d': nat, u: nat | At(role0, d') == Dir ensures PteAt(mem2, d', u) == PteAt(mem0, d', u) {
      assert PteAt(mem1, d', u) == PteAt(mem0, d', u);
    }
  }

  /** Running out of memory in the middle gives everything back but the page just taken. */
  lemma CopyFailed(mem0: Mem, role0: seq<Role>, mem1: Mem, role1: seq<Role>, mem2: Mem, role2: seq<Role>, mem3: Mem,
                   d: nat, c: nat, v: nat, data: nat, f: nat)
    requires IsCopy(mem0, role0, mem1, role1, d, c, v, data) && SamePtes(mem0, mem1, role0)
    requires KeepsData(mem0, mem1, role0)
    requires forall p: nat :: At(role0, p).Table? || At(role0, p).Frame? ==> At(role0, p).dir != c
    requires SamePtes(mem1, mem2, role1) && KeepsData(mem1, mem2, role1) && |role0| == |role2|
    requires f == 0 ==> role2 == role1
    requires f != 0 ==> At(role1, f) == Free && f < |role1| && Took(role1[f := Held], role2, c)
    requires SamePtes(mem2, mem3, Released(role2, c)) && KeepsData(mem2, mem3, Released(role2, c))
    ensures f == 0 ==> Released(role2, c) == role0
    ensures f != 0 ==> At(role0, f) == Free && Released(role2, c) == role0[f := Held]
    ensures SamePtes(mem0, mem3, role0) && KeepsData(mem0, mem3, role0)
  {
    hide PteAt, Word, Entry, Present, Ppn, Flags;
    var end := Released(role2, c);
    forall p: nat | p < |role0|
      ensures end[p] == if f != 0 && p == f then Held else role0[p]
      ensures f != 0 && p == f ==> role0[p] == Free
      ensures role0[p] != Free ==> At(role1, p) == At(role2, p) == role0[p]
    {
      assert ChildRole(p, At(role0, p), At(role1, p), c, v);
      assert f != 0 && p != f ==> At(role1[f := Held], p) == At(role1, p);
      assert f != 0 && p == f ==> At(role1[f := Held], p) == Held;
    }
    forall d': nat, u: nat | At(role0, d') == Dir ensures PteAt(mem3, d', u) == PteAt(mem0, d', u) {
      assert At(end, d') == Dir && At(role1, d') == Dir;
      assert PteAt(mem1, d', u) == PteAt(mem0, d', u) && PteAt(mem2, d', u) == PteAt(mem1, d', u);
    }
    forall p: nat, x: nat | Data(At(role0, p)) ensures Word(mem3, p, x) == Word(mem0, p, x) {
      assert At(end, p) == At(role0, p);
      assert p < |role0| ==> At(role1, p) == role0[p];
      assert Word(mem2, p, x) == Word(mem1, p, x);
    }
  }

  lemma AbsentZero()
    ensures !Present(0)
  {}

  lemma FrameOf(mem: Mem, role: seq<Role>, d: nat, v: nat)
    requires FramesOk(mem, role) && At(role, d) == Dir && v < USER && Present(PteAt(mem, d, v))
    ensures At(role, Ppn(PteAt(mem, d, v))) == Frame(d, v)
  {
    assert PteOk(mem, role, d, v);
  }
}
