/** The page allocator of kalloc.c and the address spaces of vm.c over one physical memory. */
module Vm {
  import opened Common
  import opened PageTables
  import opened VmSteps
  import opened VmBytes

  class Machine {
    var mem: Mem
    var freelist: nat
    ghost var free: seq<nat>
    ghost var role: seq<Role>

    /** The allocator's part of the invariant. */
    ghost predicate ListOk()
      reads this
    {
      Shaped(mem) && |role| == NPAGES && role[0] == Kernel && FreeOk(mem, role, freelist, free)
    }

    ghost predicate Sound()
      reads this
    {
      ListOk() && TablesOk(mem, role)
    }

    /** The free list holds the free pages, every table belongs to one directory entry and every
        frame to one user page. */
    ghost predicate Valid()
      reads this
    {
      Sound() && FramesOk(mem, role)
    }

    // -------------------------------------------------------------- kalloc.c

    /** Physical memory before kinit1: the pages below `end` are the kernel's, and the others are
        not on the list yet. */
    constructor (m: Mem, end: nat)
      requires Shaped(m) && 0 < end <= NPAGES
      ensures Valid() && mem == m && free == []
      ensures forall p :: 0 <= p < NPAGES ==> role[p] == if p < end then Kernel else Held
    {
      mem, freelist, free := m, 0, [];
      role := seq(NPAGES, p => if p < end then Kernel else Held);
    }

    /** freerange: the whole pages between two physical addresses go on the list. */
    method FreeRange(vstart: nat, vend: nat)
      requires Valid() && vend <= 0xE00_0000
      requires forall p :: 0 <= p < NPAGES && vstart <= 4096 * p && 4096 * (p + 1) <= vend ==> role[p] == Held
      modifies this
      ensures Valid() && SamePtes(old(mem), mem, old(role)) && KeepsData(old(mem), mem, role)
      ensures forall p :: 0 <= p < NPAGES ==>
        role[p] == if vstart <= 4096 * p && 4096 * (p + 1) <= vend then Free else old(role[p])
    {
      hide TablesOk, FreeOk, FramesOk, PteAt, Word;
      var p := Up(vstart);
      while (p + 1) * 4096 <= vend
        invariant Valid() && Up(vstart) <= p && SamePtes(old(mem), mem, old(role)) && KeepsData(old(mem), mem, role)
        invariant forall q :: 0 <= q < NPAGES ==> role[q] == if Up(vstart) <= q < p then Free else old(role[q])
        invariant 4096 * p <= vend || p == Up(vstart)
      {
        UpAt(vstart, p);
        Release(p);
        p := p + 1;
      }
      forall q: nat | q < NPAGES ensures Up(vstart) <= q < p <==> vstart <= 4096 * q && 4096 * (q + 1) <= vend {
        UpAt(vstart, q);
      }
    }

    method Kfree(p: nat)
      requires ListOk() && p < NPAGES && role[p] != Free && role[p] != Kernel
      modifies this
      ensures ListOk() && role == old(role)[p := Free] && free == [p] + old(free)
      ensures forall q :: 0 <= q < NPAGES && q != p ==> mem[q] == old(mem[q])
    {
      var junk: seq<nat> := seq(WORDS, _ => 0x01010101);
      mem := mem[p := junk];
      mem := SetWord(mem, p, 0, freelist);
      PushFree(old(mem), role, mem, p, freelist, free);
      freelist := p;
      free, role := [p] + free, role[p := Free];
    }

    method Kalloc() returns (p: nat)
      requires ListOk()
      modifies this
      ensures ListOk() && mem == old(mem)
      ensures p == 0 <==> old(free) == []
      ensures p == 0 ==> role == old(role) && free == old(free)
      ensures p != 0 ==> p < NPAGES && old(role[p]) == Free && role == old(role)[p := Held] && free == old(free)[1..]
    {
      p := freelist;
      if p != 0 {
        PopFree(mem, role, freelist, free);
        freelist := Word(mem, p, 0);
        free, role := free[1..], role[p := Held];
      } else if free != [] {
        PopFree(mem, role, freelist, free);
      }
    }

    /** memset or memmove over a whole page */
    method Fill(p: nat, content: seq<nat>)
      requires ListOk() && p < NPAGES && role[p] == Held && |content| == WORDS
      modifies this`mem
      ensures ListOk() && mem == old(mem)[p := content]
    {
      mem := mem[p := content];
      KeepsFree(old(mem), role, mem, role, freelist, free);
    }

    // -------------------------------------------------------------- walking and mapping

    /** walkpgdir: the table that holds v's entry, 0 if there is none and none can be made. */
    method WalkPgdir(d: nat, v: nat, alloc: bool) returns (t: nat)
      requires Sound() && At(role, d) == Dir && v < VPAGES
      modifies this
      ensures Sound() && Took(old(role), role, d)
      ensures SamePtes(old(mem), mem, old(role)) && KeepsData(old(mem), mem, old(role))
      ensures t != 0 ==> At(role, t) == Table(d, v / WORDS) && PteAt(mem, d, v) == Shown(Word(mem, t, v % WORDS))
      ensures t == 0 ==> !Present(Word(mem, d, v / WORDS)) && PteAt(mem, d, v) == 0 && (alloc ==> free == [])
      ensures t == 0 || !alloc ==> mem == old(mem) && role == old(role) && free == old(free)
    {
      var pde := Word(mem, d, v / WORDS);
      if Present(pde) {
        t := Ppn(pde);
        assert PdeOk(mem, role, d, v / WORDS);
        return;
      }
      if !alloc { return 0; }
      t := Kalloc();
      if t == 0 { return; }
      Fill(t, Zeros());
      ghost var mem1, role1 := mem, role;
      Prepared(old(mem), old(role), t, Zeros());
      AddTable(mem1, role1, d, v / WORDS, t);
      mem := SetWord(mem, d, v / WORDS, Entry(t, PTE_W + PTE_U));
      role := role[t := Table(d, v / WORDS)];
      KeepsFree(mem1, role1, mem, role, freelist, free);
      EntryParts(t, PTE_W + PTE_U);
    }

    /** *pte = w */
    method SetPte(d: nat, v: nat, t: nat, w: nat)
      requires Sound() && At(role, t) == Table(d, v / WORDS)
      modifies this`mem
      ensures Sound() && OnePte(old(mem), mem, role, d, v, Shown(w)) && KeepsData(old(mem), mem, role)
    {
      WritePte(mem, role, d, v, t, w);
      mem := SetWord(mem, t, v % WORDS, w);
      KeepsFree(old(mem), role, mem, role, freelist, free);
    }

    /** mappages for the n pages from v on to the physical pages from pa, round the end of the
        address space if need be; k of them are done. */
    method MapPages(d: nat, v: nat, n: nat, pa: nat, perm: nat) returns (r: MapResult, ghost k: nat)
      requires Sound() && At(role, d) == Dir && v < VPAGES && 0 < n <= VPAGES && perm < 4096
      modifies this
      ensures Sound() && Took(old(role), role, d) && KeepsData(old(mem), mem, old(role))
      ensures k <= n && (r.Mapped? <==> k == n)
      ensures PtesSet(old(mem), mem, old(role), d, v, k, pa, perm)
      ensures forall i :: 0 <= i < k ==> PteAt(old(mem), d, Onward(v, i)) == 0
      ensures r.Remap? ==> Present(PteAt(old(mem), d, Onward(v, k)))
      ensures r.NoMemory? ==> free == []
    {
      hide PteAt, TablesOk, FreeOk, Word, Present, Entry, Took, KeepsData;
      k := 0;
      var a := 0;
      TookNone(mem, role, d);
      while true
        invariant Sound() && Took(old(role), role, d) && KeepsData(old(mem), mem, old(role)) && At(role, d) == Dir
        invariant a == k < n && PtesSet(old(mem), mem, old(role), d, v, k, pa, perm)
        invariant forall i :: 0 <= i < k ==> PteAt(old(mem), d, Onward(v, i)) == 0
        decreases n - k
      {
        ghost var mem1, role1 := mem, role;
        var page := Onward(v, a);
        var t := WalkPgdir(d, page, true);
        TookMore(old(mem), mem1, mem, old(role), role1, role, d);
        TookKeeps(role1, role, d, d);
        if t == 0 { return NoMemory, k; }
        ghost var mem2 := mem;
        SetStill(old(mem), mem1, mem2, old(role), role1, d, v, k, pa, perm);
        if Present(Word(mem, t, page % WORDS)) { return Remap, k; }
        EntryParts(pa + a, perm);
        SetPte(d, page, t, Entry(pa + a, perm));
        SetOneMore(old(mem), mem1, mem2, mem, old(role), role1, role, d, v, k, pa, perm);
        TookNone(mem, role, d);
        TookMore(old(mem), mem2, mem, old(role), role, role, d);
        k := k + 1;
        if a + 1 == n { return Mapped, k; }
        a := a + 1;
      }
    }

    /** mappages of `size` bytes from address va, both any 32-bit number. It maps the pages from
        va's on to the one with the range's last address, round the end of the address space if
        that comes before; these are the pages that hold a byte of the range exactly if the range
        is not empty and does not come round to its first page again. */
    method MapRange(d: nat, va: nat, size: nat, pa: nat, perm: nat)
      returns (r: MapResult, ghost n: nat, ghost k: nat)
      requires Sound() && At(role, d) == Dir && va < VPAGES * 4096 && size < VPAGES * 4096 && perm < 4096
      modifies this
      ensures 0 < n <= VPAGES && k <= n && (r.Mapped? <==> k == n)
      ensures (forall p: nat :: p < VPAGES ==> (HoldsByteOf(va, size, p) <==> Ahead(va / 4096, p) < n))
              <==> 0 < size && va % 4096 + size <= VPAGES * 4096
      ensures Sound() && Took(old(role), role, d) && KeepsData(old(mem), mem, old(role))
      ensures PtesSet(old(mem), mem, old(role), d, va / 4096, k, pa, perm)
      ensures forall i :: 0 <= i < k ==> PteAt(old(mem), d, Onward(va / 4096, i)) == 0
      ensures r.Remap? ==> Present(PteAt(old(mem), d, Onward(va / 4096, k)))
      ensures r.NoMemory? ==> free == []
    {
      hide Sound, PteAt, Took, KeepsData, PtesSet;
      var first, last := va / 4096, (va + size - 1) % (VPAGES * 4096) / 4096;
      n := Ahead(first, last) + 1;
      PagesOfRange(va, size);
      r, k := MapPages(d, first, Ahead(first, last) + 1, pa, perm);
    }

    // -------------------------------------------------------------- shrinking

    /** The frame of a present user page goes back to the allocator and its entry is cleared. */
    method DropPage(d: nat, v: nat, t: nat)
      requires Valid() && At(role, d) == Dir && v < USER && At(role, t) == Table(d, v / WORDS)
      requires PteAt(mem, d, v) == Shown(Word(mem, t, v % WORDS)) && Present(PteAt(mem, d, v))
      modifies this
      ensures Valid() && Ppn(old(PteAt(mem, d, v))) < NPAGES && old(role)[Ppn(old(PteAt(mem, d, v)))] == Frame(d, v)
      ensures role == old(role)[Ppn(old(PteAt(mem, d, v))) := Free]
      ensures OnePte(old(mem), mem, old(role), d, v, 0) && KeepsData(old(mem), mem, role)
    {
      ghost var mem0, role0 := mem, role;
      ghost var cleared := SetWord(mem, t, v % WORDS, 0);
      WritePte(mem, role, d, v, t, 0);
      DropFrame(mem, role, cleared, d, v);
      var f := Ppn(Word(mem, t, v % WORDS));
      Kfree(f);
      ghost var freed := mem;
      mem := SetWord(mem, t, v % WORDS, 0);
      KeepsFree(freed, role, mem, role, freelist, free);
      KeepsTables(cleared, role0, mem, role);
      KeepsFrames(cleared, role, mem, role);
    }

    method DeallocUvm(d: nat, oldsz: nat, newsz: nat) returns (sz: nat)
      requires Valid() && At(role, d) == Dir && oldsz <= 0x8000_0000
      modifies this
      ensures Valid() && sz == if newsz >= oldsz then oldsz else newsz
      ensures role == Dropped(old(role), d, Up(newsz), Up(oldsz))
      ensures Unmapped(old(mem), mem, old(role), d, Up(newsz), Up(oldsz)) && KeepsData(old(mem), mem, role)
      ensures NoPages(mem, d, newsz, oldsz) && KeepsBytes(old(mem), mem, old(role), d, newsz, oldsz)
      ensures forall p :: 0 <= p < NPAGES ==>
        role[p] == var o := old(role)[p];
                   if o.Frame? && o.dir == d && newsz <= 4096 * o.v < oldsz then Free else o
    {
      hide TablesOk, FreeOk, PteAt, Unmapped, KeepsData, Up, Dropped, KeepsBytes, NoPages;
      ghost var mem0, role0 := mem, role;
      var lo, hi := Up(newsz), Up(oldsz);
      UpAt(oldsz, USER);
      DropsNothing(mem, role, d, lo, hi);
      if newsz >= oldsz {
        UpGrows(oldsz, newsz);
        DropBytes(mem0, mem, role0, role, d, newsz, oldsz);
        return oldsz;
      }
      var v := lo;
      while v < hi
        invariant Valid() && At(role, d) == Dir && lo <= v
        invariant role == Dropped(role0, d, lo, if v < hi then v else hi)
        invariant Unmapped(mem0, mem, role0, d, lo, if v < hi then v else hi) && KeepsData(mem0, mem, role)
      {
        var t := WalkPgdir(d, v, false);
        if t == 0 {
          var next := (v / WORDS + 1) * WORDS;
          SkipTable(mem0, mem, role0, d, lo, v, if next < hi then next else hi);
          v := next - 1;
        } else if Present(Word(mem, t, v % WORDS)) {
          ghost var mem1 := mem;
          DropPage(d, v, t);
          DropMore(mem0, mem1, mem, role0, d, lo, v);
        } else {
          SkipPages(mem0, mem, role0, d, lo, v, v + 1);
        }
        v := v + 1;
      }
      UpGrows(newsz, oldsz);
      DropBytes(mem0, mem, role0, role, d, newsz, oldsz);
      return newsz;
    }

    // -------------------------------------------------------------- growing

    /** One round of allocuvm and copyuvm: a new page with the given contents is mapped at v. */
    method AddPage(d: nat, v: nat, content: seq<nat>, perm: nat) returns (r: MapResult, f: nat)
      requires Valid() && At(role, d) == Dir && v < USER && |content| == WORDS && perm < 4096
      modifies this
      ensures ListOk() && KeepsData(old(mem), mem, old(role)) && (!r.Remap? ==> Valid())
      ensures r.Mapped? ==> At(old(role), f) == Free && Took(old(role)[f := Frame(d, v)], role, d)
      ensures r.Mapped? ==> old(PteAt(mem, d, v)) == 0 && OnePte(old(mem), mem, old(role), d, v, Entry(f, perm))
      ensures r.Mapped? ==> forall x :: 0 <= x < WORDS ==> Word(mem, f, x) == content[x]
      ensures r.NoMemory? ==> SamePtes(old(mem), mem, old(role)) && free == []
      ensures r.NoMemory? && f == 0 ==> role == old(role)
      ensures r.NoMemory? && f != 0 ==> At(old(role), f) == Free && Took(old(role)[f := Held], role, d)
      ensures r.Remap? ==> Present(old(PteAt(mem, d, v)))
    {
      hide TablesOk, FramesOk, FreeOk, PteAt, Entry, Word, Present;
      ghost var mem0, role0 := mem, role;
      f := Kalloc();
      if f == 0 {
        TookNone(mem, role, d);
        return NoMemory, 0;
      }
      Fill(f, content);
      ghost var mem1, role1 := mem, role;
      Prepared(mem0, role0, f, content);
      ghost var k;
      r, k := MapPages(d, v, 1, f, perm);
      SetFew(mem1, mem, role1, role, d, v, k, f, perm);
      assert k == 1 ==> PteAt(mem1, d, Onward(v, 0)) == 0;
      AddedPage(mem0, role0, mem1, mem, role, d, v, f, perm, k);
      if r.Mapped? {
        ghost var role2 := role;
        role := role[f := Frame(d, v)];
        KeepsTables(mem, role2, mem, role);
        KeepsFree(mem, role2, mem, role, freelist, free);
      }
    }

    /** kfree of a page that was never mapped. */
    method Release(f: nat)
      requires Valid() && f < NPAGES && role[f] == Held
      modifies this
      ensures Valid() && role == old(role)[f := Free]
      ensures SamePtes(old(mem), mem, old(role)) && KeepsData(old(mem), mem, role)
    {
      Kfree(f);
      KeepsTables(old(mem), old(role), mem, role);
      KeepsFrames(old(mem), old(role), mem, role);
    }

    method AllocUvm(d: nat, oldsz: nat, newsz: nat) returns (r: Growth)
      requires Valid() && At(role, d) == Dir
      modifies this
      ensures r.TooBig? <==> newsz >= 0x8000_0000
      ensures r.TooBig? || newsz < oldsz ==> mem == old(mem) && role == old(role) && free == old(free)
      ensures !r.TooBig? && newsz < oldsz ==> r == Size(oldsz)
      ensures !r.Panic? ==> Valid()
      ensures r.Size? && newsz >= oldsz ==>
        r.sz == newsz && Grown(old(mem), old(role), mem, role, d, Up(oldsz), Up(newsz))
      ensures r.Size? && newsz >= oldsz ==>
        && (forall a: nat :: oldsz <= a / 4096 * 4096 && a < newsz ==>
              && ByteAt(old(mem), d, a) == None && ByteAt(mem, d, a) == Some(0)
              && PteAt(mem, d, a / 4096) % 4096 == 7)   // present, writable, the user's
        && (forall v: nat :: !(oldsz <= 4096 * v < newsz) ==> PteAt(mem, d, v) == PteAt(old(mem), d, v))
        && KeepsBytes(old(mem), mem, old(role), d, oldsz, newsz)
      ensures r.OutOfMemory? ==>
        && Unmapped(old(mem), mem, old(role), d, Up(oldsz), Up(newsz)) && KeepsData(old(mem), mem, role)
        && Took(Dropped(old(role), d, Up(oldsz), Up(newsz)), role, d)
      ensures r.OutOfMemory? ==>
        NoPages(mem, d, oldsz, newsz) && KeepsBytes(old(mem), mem, old(role), d, oldsz, newsz)
      ensures r.Panic? ==> exists v: nat :: oldsz <= 4096 * v < newsz && PteAt(old(mem), d, v) != 0
    {
      hide TablesOk, FreeOk, FramesOk, KeepsBytes, NoPages, Up, ByteAt, PteAt, Word, NewPage;
      if newsz >= USER * 4096 { return TooBig; }
      if newsz < oldsz { return Size(oldsz); }
      ghost var mem0, role0 := mem, role;
      var lo, v := Up(oldsz), Up(oldsz);
      UpGrows(oldsz, newsz);
      UpAt(newsz, USER);
      GrownNone(mem, role, d, lo);
      while v < Up(newsz)
        invariant Valid() && At(role, d) == Dir && lo <= v <= Up(newsz)
        invariant Grown(mem0, role0, mem, role, d, lo, v)
      {
        ghost var mem1, role1 := mem, role;
        var m, f := AddPage(d, v, Zeros(), PTE_W + PTE_U);
        match m
        case Remap =>
          assert PteAt(mem0, d, v) == PteAt(mem1, d, v);
          UpAt(oldsz, v);
          UpAt(newsz, v);
          return Panic;
        case NoMemory =>
          ghost var mem2, role2 := mem, role;
          if f != 0 { TookKeeps(role1[f := Held], role2, d, f); }
          var _ := DeallocUvm(d, newsz, oldsz);
          ghost var mem3, role3 := mem, role;
          if f != 0 { Release(f); }
          GrowFailed(mem0, role0, mem1, role1, mem2, role2, mem3, mem, role, d, lo, v, Up(newsz), f);
          FailBytes(mem0, mem, role0, role, d, oldsz, newsz);
          return OutOfMemory;
        case Mapped =>
          GrowStep(mem0, role0, mem1, role1, mem, role, d, lo, v, f);
          v := v + 1;
      }
      GrowBytes(mem0, mem, role0, role, d, oldsz, newsz);
      return Size(newsz);
    }

    // -------------------------------------------------------------- freeing and copying

    method FreeVm(d: nat)
      requires Valid() && At(role, d) == Dir
      modifies this
      ensures Valid() && role == Released(old(role), d)
      ensures SamePtes(old(mem), mem, role) && KeepsData(old(mem), mem, role)
    {
      hide TablesOk, FreeOk, FramesOk, PteAt, Word, Present, Ppn;
      ghost var mem0, role0 := mem, role;
      var _ := DeallocUvm(d, USER * 4096, 0);
      ghost var mem1, role1 := mem, role;
      FreedNone(mem1, role1, d);
      for i := 0 to WORDS
        invariant ListOk() && At(role, d) == Dir && d < NPAGES
        invariant role == FreedTables(role1, d, i) && KeepsRest(mem1, mem, role)
      {
        var pde := Word(mem, d, i);
        FreedMore(mem1, mem, role1, d, i);
        if Present(pde) {
          ghost var mem2 := mem;
          Kfree(Ppn(pde));
          RestAfterFree(mem1, mem2, mem, FreedTables(role1, d, i), Ppn(pde));
        }
      }
      ghost var mem2, role2 := mem, role;
      Kfree(d);
      RestAfterFree(mem1, mem2, mem, role2, d);
      DirGone(mem0, role0, mem1, mem, d);
    }

    /** setupkvm for a kernel whose data starts at physical page `data`. A failure gives 0, and
        `lost` is the directory page it drops. */
    method SetupKvm(data: nat) returns (d: nat, ghost lost: nat)
      requires Valid() && 0x100 < data < 0xE000
      modifies this
      ensures Valid() && SamePtes(old(mem), mem, old(role)) && KeepsData(old(mem), mem, old(role))
      ensures d != 0 ==> At(old(role), d) == Free && Took(old(role)[d := Dir], role, d)
      ensures d != 0 ==> (forall v: nat :: PteAt(mem, d, v) == KernelPte(data, v)) && KernelHalf(mem, d, data)
      ensures d == 0 ==> (lost == 0 <==> old(free) == []) && free == []
      ensures d == 0 && lost == 0 ==> role == old(role)
      ensures d == 0 && lost != 0 ==> At(old(role), lost) == Free && Took(old(role)[lost := Dir], role, lost)
    {
      hide TablesOk, FreeOk, FramesOk, PteAt, Word, Present, Entry, KeepsData, KernelHalf;
      AbsentZero();
      ghost var mem0, role0 := mem, role;
      lost := 0;
      d := Kalloc();
      if d == 0 {
        TookNone(mem, role, d);
        return;
      }
      Fill(d, Zeros());
      ghost var mem1 := mem;
      NewDir(mem0, role0, d);
      role := role[d := Dir];
      KeepsFree(mem, role0[d := Held], mem, role, freelist, free);
      ghost var role1 := role;
      var ks := Kmaps(data);
      TookNone(mem, role, d);
      for k := 0 to |ks|
        invariant Valid() && Took(role1, role, d) && At(role, d) == Dir && SamePtes(mem0, mem, role0)
        invariant KeepsData(mem0, mem, role0) && forall v: nat :: PteAt(mem, d, v) == MappedBy(ks, k, v)
      {
        ghost var mem2, role2 := mem, role;
        KmapsApart(data, k);
        ghost var n;
        var r;
        r, n := MapPages(d, ks[k].v, ks[k].n, ks[k].pa, ks[k].perm);
        KernelMapped(mem0, role0, mem2, role2, mem, role, d, ks, k, n);
        TookNone(mem2, role1, d);
        TookMore(mem2, mem2, mem, role1, role2, role, d);
        if r.NoMemory? { return 0, d; }
        assert r.Mapped?;
      }
      KernelAll(data);
      KernelMeans(mem, d, data);
    }

    /** copyuvm. When memory runs out, `lost` is the page that is dropped, if any. */
    method CopyUvm(d: nat, sz: nat, data: nat) returns (r: Copy, ghost lost: nat)
      requires Valid() && At(role, d) == Dir && sz <= 0x8000_0000 && 0x100 < data < 0xE000
      modifies this
      ensures Valid() && SamePtes(old(mem), mem, old(role)) && KeepsData(old(mem), mem, old(role))
      ensures r.Copied? ==> IsCopy(old(mem), old(role), mem, role, d, r.dir, Up(sz), data)
      ensures r.Copied? ==>
        && (forall a: nat :: a < sz ==>
              && ByteAt(mem, r.dir, a).Some? && ByteAt(mem, r.dir, a) == ByteAt(old(mem), d, a)
              && PteAt(mem, r.dir, a / 4096) % 4096 == PteAt(old(mem), d, a / 4096) % 4096)
        && (forall v: nat :: sz <= 4096 * v ==> PteAt(mem, r.dir, v) == KernelPte(data, v))
        && KeepsBytes(old(mem), mem, old(role), d, 0, 0)
      ensures r.NoSpace? && lost == 0 ==> role == old(role)
      ensures r.NoSpace? && lost != 0 ==>
        At(old(role), lost) == Free && (role == old(role)[lost := Held] || Took(old(role)[lost := Dir], role, lost))
      ensures r.BadParent? ==> exists v: nat :: 4096 * v < sz && PteAt(old(mem), d, v) == 0
    {
      hide Up, ByteAt, KeepsBytes, KernelPte, KernelHalf;
      hide TablesOk, FreeOk, FramesOk, PteAt, Word, Present, Entry, KeepsData, SamePtes, IsCopy, Took, OnePte, Released;
      AbsentZero();
      ghost var mem0, role0 := mem, role;
      var c;
      c, lost := SetupKvm(data);
      if c == 0 { return NoSpace, lost; }
      CopyNone(mem0, role0, mem, role, d, c, data);
      NoOrphans(mem0, role0, c);
      UpAt(sz, USER);
      var v := 0;
      while v < Up(sz)
        invariant Valid() && 0 <= v <= Up(sz) && IsCopy(mem0, role0, mem, role, d, c, v, data)
        invariant SamePtes(mem0, mem, role0) && KeepsData(mem0, mem, role0)
      {
        ghost var mem1, role1 := mem, role;
        UpAt(sz, v);
        CopyDirs(mem0, role0, mem, role, d, c, v, data);
        var t := WalkPgdir(d, v, false);
        if t == 0 { return BadParent, 0; }
        var w := Word(mem, t, v % WORDS);
        if !Present(w) { return BadParent, 0; }
        FrameOf(mem, role, d, v);
        var m, f := AddPage(c, v, mem[Ppn(w)], Flags(w));
        if m.NoMemory? {
          ghost var mem2, role2 := mem, role;
          if f != 0 { TookKeeps(role1[f := Held], role2, c, c); }
          FreeVm(c);
          lost := f;
          CopyFailed(mem0, role0, mem1, role1, mem2, role2, mem, d, c, v, data, f);
          return NoSpace, lost;
        }
        assert m.Mapped?;
        CopyMore(mem0, role0, mem1, role1, mem, role, d, c, v, data, f, w);
        v := v + 1;
      }
      CopyBytes(mem0, mem, role0, role, d, c, sz, data);
      return Copied(c), 0;
    }
  }

  /** The page of address b, in 32 bits. */
  function PageOf(b: nat): nat { b / 4096 % VPAGES }

  /** Page p holds one of the `size` bytes from va. */
  ghost predicate HoldsByteOf(va: nat, size: nat, p: nat) {
    exists b: nat :: PageOf(b) == p && va <= b < va + size
  }

  lemma HoldsAny(va: nat, size: nat, q: nat)
    requires 0 < size && va / 4096 <= q <= (va + size - 1) / 4096
    ensures HoldsByteOf(va, size, q % VPAGES)
  {
    var b := if q * 4096 < va then va else q * 4096;
    assert PageOf(b) == q % VPAGES;
  }

  /** The pages from va's to the one with the last address, for a range that fits. */
  lemma PagesFit(va: nat, size: nat, p: nat)
    requires va < VPAGES * 4096 && 0 < size && va % 4096 + size <= VPAGES * 4096 && p < VPAGES
    ensures HoldsByteOf(va, size, p) <==> Ahead(va / 4096, p) <= (va + size - 1) / 4096 - va / 4096
  {
    var v, e := va / 4096, (va + size - 1) / 4096;
    if Ahead(v, p) <= e - v {
      var q := v + Ahead(v, p);
      assert q % VPAGES == p;
      HoldsAny(va, size, q);
    }
    if HoldsByteOf(va, size, p) {
      var b: nat :| PageOf(b) == p && va <= b < va + size;
      assert v <= b / 4096 <= e && b / 4096 < 2 * VPAGES;
    }
  }

  /** How far the last address of a range is ahead: all the way, or 0 when it comes round. */
  lemma LastPage(va: nat, size: nat)
    requires va < VPAGES * 4096 && 0 < size < VPAGES * 4096
    ensures var v, e := va / 4096, (va + size - 1) / 4096;
      Ahead(v, (va + size - 1) % (VPAGES * 4096) / 4096)
      == if va % 4096 + size <= VPAGES * 4096 then e - v else e - v - VPAGES
    ensures va % 4096 + size > VPAGES * 4096 ==> (va + size - 1) / 4096 == va / 4096 + VPAGES
  {}

  lemma PagesOfRange(va: nat, size: nat)
    requires va < VPAGES * 4096 && size < VPAGES * 4096
    ensures var n := Ahead(va / 4096, (va + size - 1) % (VPAGES * 4096) / 4096) + 1;
      && 0 < n <= VPAGES
      && ((forall p: nat :: p < VPAGES ==> (HoldsByteOf(va, size, p) <==> Ahead(va / 4096, p) < n))
          <==> 0 < size && va % 4096 + size <= VPAGES * 4096)
  {
    hide HoldsByteOf;
    var v, e := va / 4096, (va + size - 1) / 4096;
    var n := Ahead(v, (va + size - 1) % (VPAGES * 4096) / 4096) + 1;
    if size == 0 {
      assert !HoldsByteOf(va, size, v) && Ahead(v, v) < n by { NoByte(va, v); }
    } else if va % 4096 + size <= VPAGES * 4096 {
      LastPage(va, size);
      forall p: nat | p < VPAGES ensures HoldsByteOf(va, size, p) <==> Ahead(v, p) < n { PagesFit(va, size, p); }
    } else {
      LastPage(va, size);
      var p: nat := (v + 1) % VPAGES;
      assert n == 1 && Ahead(v, p) == 1;
      HoldsAny(va, size, v + 1);
    }
  }

  lemma NoByte(va: nat, p: nat)
    ensures !HoldsByteOf(va, 0, p)
  {}
}
