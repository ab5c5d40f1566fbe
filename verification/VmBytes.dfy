/** What the operations on address spaces do to the bytes a process sees, address by address. */
module VmBytes {
  import opened Common
  import opened PageTables
  import opened VmSteps

  /** The byte the hardware finds at virtual address a of directory d; none if a is not mapped. */
  function ByteAt(mem: Mem, d: nat, a: nat): Option<nat> {
    var pte := PteAt(mem, d, a / 4096);
    if pte == 0 then None
    else
      var w := Word(mem, pte / 4096, a % 4096 / 4);
      Some(if a % 4 == 0 then w % 0x100
           else if a % 4 == 1 then w / 0x100 % 0x100
           else if a % 4 == 2 then w / 0x1_0000 % 0x100
           else w / 0x100_0000 % 0x100)
  }

  /** Page v starts below address sz exactly if it is one of the first Up(sz) pages. */
  lemma UpAt(sz: nat, v: nat)
    ensures v < Up(sz) <==> 4096 * v < sz
  {}

  lemma UpGrows(a: nat, b: nat)
    requires a <= b
    ensures Up(a) <= Up(b)
  {}

  /** User addresses with an unchanged entry whose page nobody has given back keep their byte. */
  lemma SameByte(mem: Mem, mem': Mem, role: seq<Role>, role': seq<Role>, d: nat, a: nat)
    requires FramesOk(mem, role) && At(role, d) == Dir && a < 0x8000_0000 && KeepsData(mem, mem', role')
    requires PteAt(mem', d, a / 4096) == PteAt(mem, d, a / 4096)
    requires forall p: nat :: At(role, p).Frame? && At(role, p) == Frame(d, a / 4096) ==> At(role', p) == At(role, p)
    ensures ByteAt(mem', d, a) == ByteAt(mem, d, a)
  {
    hide PteAt, Word;
    var pte := PteAt(mem, d, a / 4096);
    if pte != 0 {
      AbsentOrPresent(mem, d, a / 4096);
      assert PteOk(mem, role, d, a / 4096);
      assert At(role, Ppn(pte)) == Frame(d, a / 4096);
    }
  }

  lemma AbsentOrPresent(mem: Mem, d: nat, v: nat)
    ensures PteAt(mem, d, v) == 0 || Present(PteAt(mem, d, v))
  {}

  /** Every byte a user can see is as it was, in all address spaces, except in the pages of d that
      start from lo up to hi. */
  ghost predicate KeepsBytes(mem: Mem, mem': Mem, role: seq<Role>, d: nat, lo: nat, hi: nat) {
    forall d': nat, a: nat :: At(role, d') == Dir && a < 0x8000_0000 && !(d' == d && lo <= a / 4096 * 4096 < hi) ==>
      ByteAt(mem', d', a) == ByteAt(mem, d', a)
  }

  /** Pages of d that start from lo up to hi are not mapped. */
  ghost predicate NoPages(mem: Mem, d: nat, lo: nat, hi: nat) {
    forall v: nat :: lo <= 4096 * v < hi ==> PteAt(mem, d, v) == 0
  }

  /** deallocuvm: the pages that start at newsz or above and below oldsz are gone, their frames are
      free, and no other byte changes. */
  lemma DropBytes(mem: Mem, mem': Mem, role: seq<Role>, role': seq<Role>, d: nat, newsz: nat, oldsz: nat)
    requires FramesOk(mem, role) && At(role, d) == Dir && role' == Dropped(role, d, Up(newsz), Up(oldsz))
    requires Unmapped(mem, mem', role, d, Up(newsz), Up(oldsz)) && KeepsData(mem, mem', role')
    ensures NoPages(mem', d, newsz, oldsz) && KeepsBytes(mem, mem', role, d, newsz, oldsz)
    ensures forall p :: 0 <= p < |role| ==>
      role'[p] == if role[p].Frame? && role[p].dir == d && newsz <= 4096 * role[p].v < oldsz then Free else role[p]
  {
    hide PteAt, Word, ByteAt, Up, FramesOk;
    forall v: nat | newsz <= 4096 * v < oldsz ensures PteAt(mem', d, v) == 0 {
      UpAt(newsz, v);
      UpAt(oldsz, v);
    }
    forall p | 0 <= p < |role| && role[p].Frame?
      ensures Up(newsz) <= role[p].v < Up(oldsz) <==> newsz <= 4096 * role[p].v < oldsz
    {
      UpAt(newsz, role[p].v);
      UpAt(oldsz, role[p].v);
    }
    forall d': nat, a: nat | At(role, d') == Dir && a < 0x8000_0000 && !(d' == d && newsz <= a / 4096 * 4096 < oldsz)
      ensures ByteAt(mem', d', a) == ByteAt(mem, d', a)
    {
      UpAt(newsz, a / 4096);
      UpAt(oldsz, a / 4096);
      SameByte(mem, mem', role, role', d', a);
    }
  }

  /** allocuvm that runs out: the same, and free pages may have become tables. */
  lemma FailBytes(mem: Mem, mem': Mem, role: seq<Role>, role': seq<Role>, d: nat, oldsz: nat, newsz: nat)
    requires FramesOk(mem, role) && At(role, d) == Dir && Took(Dropped(role, d, Up(oldsz), Up(newsz)), role', d)
    requires Unmapped(mem, mem', role, d, Up(oldsz), Up(newsz)) && KeepsData(mem, mem', role')
    ensures NoPages(mem', d, oldsz, newsz) && KeepsBytes(mem, mem', role, d, oldsz, newsz)
  {
    hide PteAt, Word, ByteAt, Up, FramesOk;
    forall v: nat | oldsz <= 4096 * v < newsz ensures PteAt(mem', d, v) == 0 {
      UpAt(oldsz, v);
      UpAt(newsz, v);
    }
    forall d': nat, a: nat | At(role, d') == Dir && a < 0x8000_0000 && !(d' == d && oldsz <= a / 4096 * 4096 < newsz)
      ensures ByteAt(mem', d', a) == ByteAt(mem, d', a)
    {
      UpAt(oldsz, a / 4096);
      UpAt(newsz, a / 4096);
      SameByte(mem, mem', role, role', d', a);
    }
  }

  /** allocuvm: every address from oldsz's next page on below newsz reads 0, is writable by the user
      and was not mapped; no other entry of d changes and no other byte of anybody. */
  lemma GrowBytes(mem: Mem, mem': Mem, role: seq<Role>, role': seq<Role>, d: nat, oldsz: nat, newsz: nat)
    requires FramesOk(mem, role) && At(role, d) == Dir && Grown(mem, role, mem', role', d, Up(oldsz), Up(newsz))
    ensures forall a: nat :: oldsz <= a / 4096 * 4096 && a < newsz ==>
      ByteAt(mem, d, a) == None && ByteAt(mem', d, a) == Some(0) && PteAt(mem', d, a / 4096) % 4096 == 7
    ensures forall v: nat :: !(oldsz <= 4096 * v < newsz) ==> PteAt(mem', d, v) == PteAt(mem, d, v)
    ensures KeepsBytes(mem, mem', role, d, oldsz, newsz)
  {
    hide PteAt, Word, Up, FramesOk;
    forall a: nat | oldsz <= a / 4096 * 4096 && a < newsz
      ensures ByteAt(mem, d, a) == None && ByteAt(mem', d, a) == Some(0) && PteAt(mem', d, a / 4096) % 4096 == 7
    {
      var u := a / 4096;
      UpAt(oldsz, u);
      UpAt(newsz, u);
      assert NewPage(role, mem', role', d, u);
      EntryParts(Ppn(PteAt(mem', d, u)), PTE_W + PTE_U);
    }
    forall v: nat | !(oldsz <= 4096 * v < newsz) ensures PteAt(mem', d, v) == PteAt(mem, d, v) {
      UpAt(oldsz, v);
      UpAt(newsz, v);
    }
    hide ByteAt;
    forall d': nat, a: nat | At(role, d') == Dir && a < 0x8000_0000 && !(d' == d && oldsz <= a / 4096 * 4096 < newsz)
      ensures ByteAt(mem', d', a) == ByteAt(mem, d', a)
    {
      UpAt(oldsz, a / 4096);
      UpAt(newsz, a / 4096);
      SameByte(mem, mem', role, role, d', a);
    }
  }

  /** copyuvm: below sz the child reads what the parent did, with the same rights, and the parent and
      everybody else read on as before. */
  lemma CopyBytes(mem: Mem, mem': Mem, role: seq<Role>, role': seq<Role>, d: nat, c: nat, sz: nat, data: nat)
    requires FramesOk(mem, role) && IsCopy(mem, role, mem', role', d, c, Up(sz), data)
    requires SamePtes(mem, mem', role) && KeepsData(mem, mem', role)
    ensures forall a: nat :: a < sz ==>
      && ByteAt(mem', c, a).Some? && ByteAt(mem', c, a) == ByteAt(mem, d, a)
      && PteAt(mem', c, a / 4096) % 4096 == PteAt(mem, d, a / 4096) % 4096
    ensures forall v: nat :: sz <= 4096 * v ==> PteAt(mem', c, v) == KernelPte(data, v)
    ensures KeepsBytes(mem, mem', role, d, 0, 0)
  {
    hide PteAt, Word, Up, FramesOk, KernelPte;
    forall a: nat | a < sz
      ensures ByteAt(mem', c, a).Some? && ByteAt(mem', c, a) == ByteAt(mem, d, a)
      ensures PteAt(mem', c, a / 4096) % 4096 == PteAt(mem, d, a / 4096) % 4096
    {
      UpAt(sz, a / 4096);
      assert CopiedPage(mem, role, mem', role', d, c, a / 4096);
    }
    forall v: nat | sz <= 4096 * v ensures PteAt(mem', c, v) == KernelPte(data, v) { UpAt(sz, v); }
    hide ByteAt;
    forall d': nat, a: nat | At(role, d') == Dir && a < 0x8000_0000 ensures ByteAt(mem', d', a) == ByteAt(mem, d', a) {
      SameByte(mem, mem', role, role, d', a);
    }
  }
}
