/** The storage allocator of umalloc.c: a circular free list in address order.

    Addresses count headers (the alignment unit of 8 bytes). `mem` holds the headers written so
    far; `base` is the static empty block, which lies below the heap. The ghost fields name the
    free list in address order, the blocks handed out, the units the list accounts for, and those
    that really came from sbrk. */
module Malloc {

  datatype Header = Header(ptr: int, size: int)

  datatype Block = Block(addr: int, size: int)

  const HEADER_BYTES := 8
  const UINT := 0x1_0000_0000
  const MIN_CORE := 4096
  const PAGE := 4096
  const SPACE := UINT / HEADER_BYTES   // where addresses wrap around

  /** Units for a request of nbytes, in 32-bit arithmetic. */
  function Units(nbytes: nat): (n: nat)
    ensures n > 0
  {
    (nbytes + HEADER_BYTES - 1) % UINT / HEADER_BYTES + 1
  }

  /** The payload covers the request exactly when rounding up does not wrap around. */
  lemma PayloadCovers(nbytes: nat)
    requires nbytes < UINT
    ensures (Units(nbytes) - 1) * HEADER_BYTES >= nbytes <==> nbytes + HEADER_BYTES - 1 < UINT
    ensures nbytes <= 0xFFFF_FFF8 ==> 8 * (Units(nbytes) - 2) < nbytes <= 8 * (Units(nbytes) - 1)
    ensures nbytes > 0xFFFF_FFF8 ==> Units(nbytes) == 1
  {}

  /** What morecore asks sbrk for. */
  function CoreUnits(nu: nat): nat {
    if nu < MIN_CORE then MIN_CORE else nu
  }

  /** The int that sbrk receives: the byte count in 32 bits, read as a signed number. */
  function Asked(nu: nat): int {
    var bytes := CoreUnits(nu) * HEADER_BYTES % UINT;
    if bytes < UINT / 2 then bytes else bytes - UINT
  }

  /** It is the signed 32-bit number that the bytes of the core are modulo 2^32. */
  lemma AskedIs(nu: nat)
    ensures -0x8000_0000 <= Asked(nu) < 0x8000_0000
    ensures (8 * (if nu < 4096 then 4096 else nu) - Asked(nu)) % 0x1_0000_0000 == 0
  {
    var bytes := CoreUnits(nu) * HEADER_BYTES;
    assert bytes == bytes / 0x1_0000_0000 * 0x1_0000_0000 + bytes % 0x1_0000_0000;
  }

  /** sbrk is asked for the units morecore will use if and only if they are fewer than 2^31 bytes,
      which is so for requests up to 2^31 - 16 bytes and for those whose rounding wraps around. In
      every other case it is asked for nothing, or to shrink. */
  lemma AskedExactly(nbytes: nat)
    requires nbytes < UINT
    ensures Asked(Units(nbytes)) == CoreUnits(Units(nbytes)) * HEADER_BYTES
            <==> CoreUnits(Units(nbytes)) * HEADER_BYTES < UINT / 2
    ensures CoreUnits(Units(nbytes)) * HEADER_BYTES < UINT / 2
            <==> nbytes <= UINT / 2 - 16 || nbytes + HEADER_BYTES - 1 >= UINT
    ensures Asked(Units(nbytes)) > 0 <==> Asked(Units(nbytes)) == CoreUnits(Units(nbytes)) * HEADER_BYTES
  {
    var q := nbytes + HEADER_BYTES - 1;
    if q >= UINT {
      assert q % UINT == q - UINT < 8;
    } else {
      assert q % UINT == q;
      assert Units(nbytes) * 8 <= UINT;
    }
  }

  /** malloc gets what it asked for, in full, exactly for requests up to 2^31 - 16 bytes. */
  lemma MallocSound(nbytes: nat)
    requires nbytes < UINT
    ensures (Units(nbytes) - 1) * HEADER_BYTES >= nbytes
            && Asked(Units(nbytes)) == CoreUnits(Units(nbytes)) * HEADER_BYTES
            <==> nbytes <= UINT / 2 - 16
  {
    PayloadCovers(nbytes);
    AskedExactly(nbytes);
  }

  /** Two requests whose payload is covered, for which sbrk gets a negative count and zero. */
  lemma AskedForNothing()
    ensures Asked(Units(0x8000_0000)) < 0 && Asked(Units(0xFFFF_FFF8)) == 0
  {}

  /** The size of the process behind an sbrk of nothing or less: growproc adds in 32 bits and never
      grows here, because deallocuvm returns the old size when the sum is not below it. */
  function Shrunk(brk: nat, nu: nat): nat {
    var sum := (brk * HEADER_BYTES + CoreUnits(nu) * HEADER_BYTES) % UINT;
    if sum < brk * HEADER_BYTES then sum else brk * HEADER_BYTES
  }

  /** The old end of the process still lies in a mapped page. */
  predicate Mapped(brk: nat, nu: nat) {
    brk * HEADER_BYTES < (Shrunk(brk, nu) + PAGE - 1) / PAGE * PAGE
  }

  /** sbrk(n) of zero or less leaves the process at its old size plus n, or at its old size if that
      is negative; its last page is the one that holds the byte below that size. */
  lemma MappedIs(brk: nat, nu: nat)
    requires Asked(nu) <= 0 && 8 * brk < 0x1_0000_0000
    ensures var size := 8 * brk + Asked(nu);
      Mapped(brk, nu) <==> 8 * brk / 4096 * 4096 < if size >= 0 then size else 8 * brk
  {
    AskedIs(nu);
    var core := 8 * (if nu < 4096 then 4096 else nu);
    var size, k := 8 * brk + Asked(nu), (core - Asked(nu)) / 0x1_0000_0000;
    assert 8 * brk + core == size + k * 0x1_0000_0000;
    var rest := if size >= 0 then size else size + 0x1_0000_0000;
    assert (8 * brk + core) % 0x1_0000_0000 == rest;
  }

  // ---------------------------------------------------------------- units

  ghost function Span(a: int, n: int): (s: set<int>)
    ensures forall u :: u in s <==> a <= u < a + n
  {
    if n <= 0 then {} else Span(a, n - 1) + {a + n - 1}
  }

  ghost function FreeUnits(fl: seq<Block>): set<int> {
    if fl == [] then {} else FreeUnits(fl[..|fl| - 1]) + Span(fl[|fl| - 1].addr, fl[|fl| - 1].size)
  }

  ghost function LiveUnits(live: map<int, int>): set<int> {
    set a, u | a in live && u in Span(a, live[a]) :: u
  }

  lemma {:induction false} FreeUnitsConcat(a: seq<Block>, b: seq<Block>)
    ensures FreeUnits(a + b) == FreeUnits(a) + FreeUnits(b)
    decreases |b|
  {
    if b == [] {
      assert a + b == a;
    } else {
      FreeUnitsConcat(a, b[..|b| - 1]);
      assert (a + b)[..|a + b| - 1] == a + b[..|b| - 1];
    }
  }

  lemma FreeUnitsOne(b: Block)
    ensures FreeUnits([b]) == Span(b.addr, b.size)
  {}

  lemma FreeUnitsMiddle(a: seq<Block>, m: seq<Block>, b: seq<Block>)
    ensures FreeUnits(a + m + b) == FreeUnits(a) + FreeUnits(m) + FreeUnits(b)
  {
    FreeUnitsConcat(a + m, b);
    FreeUnitsConcat(a, m);
  }

  lemma {:induction false} FreeUnitsHas(fl: seq<Block>, i: nat)
    requires i < |fl|
    ensures Span(fl[i].addr, fl[i].size) <= FreeUnits(fl)
  {
    if i < |fl| - 1 { FreeUnitsHas(fl[..|fl| - 1], i); }
  }

  lemma LiveUnitsRemove(live: map<int, int>, a: int)
    requires a in live
    requires forall x, y :: x in live && y in live && x != y ==> Span(x, live[x]) !! Span(y, live[y])
    ensures LiveUnits(live) == LiveUnits(live - {a}) + Span(a, live[a])
    ensures LiveUnits(live - {a}) !! Span(a, live[a])
  {
    forall u ensures u in LiveUnits(live) <==> u in LiveUnits(live - {a}) + Span(a, live[a]) {
      if u in LiveUnits(live) && u !in Span(a, live[a]) {
        var x :| x in live && u in Span(x, live[x]);
        assert x in live - {a} && u in Span(x, (live - {a})[x]);
      }
    }
  }

  lemma LiveUnitsAdd(live: map<int, int>, a: int, n: int)
    requires a !in live
    ensures LiveUnits(live[a := n]) == LiveUnits(live) + Span(a, n)
  {
    var live' := live[a := n];
    forall u ensures u in LiveUnits(live') <==> u in LiveUnits(live) + Span(a, n) {
      if u in LiveUnits(live) {
        var x :| x in live && u in Span(x, live[x]);
        assert x in live' && u in Span(x, live'[x]);
      }
      if u in Span(a, n) { assert a in live' && u in Span(a, live'[a]); }
    }
  }

  // ---------------------------------------------------------------- the free list

  function NextAddr(fl: seq<Block>, i: nat): int
    requires i < |fl|
  {
    if i + 1 < |fl| then fl[i + 1].addr else fl[0].addr
  }

  /** Address order, so blocks are disjoint. */
  ghost predicate Ordered(fl: seq<Block>) {
    && (forall i :: 0 < i < |fl| ==> fl[i].size > 0)
    && (forall i, j :: 0 <= i < j < |fl| ==> fl[i].addr < fl[j].addr && fl[i].addr + fl[i].size <= fl[j].addr)
  }

  /** Free blocks that would touch have been joined. */
  ghost predicate Joined(fl: seq<Block>) {
    forall i, j :: 0 <= i < |fl| && 0 <= j < |fl| && j == i + 1 ==> fl[i].addr + fl[i].size != fl[j].addr
  }

  /** Memory holds the list as one cycle, with the single wrap from the last block to base. */
  ghost predicate Represents(mem: map<int, Header>, fl: seq<Block>) {
    forall i {:trigger NextAddr(fl, i)} :: 0 <= i < |fl| ==>
      fl[i].addr in mem && mem[fl[i].addr] == Header(NextAddr(fl, i), fl[i].size)
  }

  ghost predicate LiveOk(base: int, mem: map<int, Header>, live: map<int, int>) {
    && (forall a :: a in live ==> a > base && live[a] > 0 && a in mem && mem[a].size == live[a])
    && (forall a, b :: a in live && b in live && a != b ==> Span(a, live[a]) !! Span(b, live[b]))
  }

  /** Every unit from sbrk is in exactly one of a free block and a live block. */
  ghost predicate Conserved(fl: seq<Block>, live: map<int, int>, core: set<int>) {
    core == FreeUnits(fl) + LiveUnits(live) && FreeUnits(fl) !! LiveUnits(live)
  }

  ghost predicate Based(base: int, fl: seq<Block>) {
    fl != [] && fl[0] == Block(base, 0)
  }

  // ---------------------------------------------------------------- steps on list and memory

  ghost function Linked(fl: seq<Block>, k: nat, b: Block): seq<Block>
    requires k < |fl|
  {
    fl[..k + 1] + [b] + fl[k + 1..]
  }

  ghost function Merged(fl: seq<Block>, i: nat): seq<Block>
    requires i + 1 < |fl|
  {
    fl[..i] + [Block(fl[i].addr, fl[i].size + fl[i + 1].size)] + fl[i + 2..]
  }

  ghost predicate Fits(fl: seq<Block>, k: nat, b: Block) {
    && k < |fl| && b.size > 0 && fl[k].addr < b.addr && fl[k].addr + fl[k].size <= b.addr
    && (k + 1 < |fl| ==> b.addr + b.size <= fl[k + 1].addr)
  }

  lemma LinkedAt(fl: seq<Block>, k: nat, b: Block)
    requires k < |fl|
    ensures |Linked(fl, k, b)| == |fl| + 1
    ensures forall i {:trigger Linked(fl, k, b)[i]} :: 0 <= i < |fl| + 1 ==>
      Linked(fl, k, b)[i] == if i <= k then fl[i] else if i == k + 1 then b else fl[i - 1]
  {}

  lemma MergedAt(fl: seq<Block>, i: nat)
    requires i + 1 < |fl|
    ensures |Merged(fl, i)| == |fl| - 1
    ensures forall j {:trigger Merged(fl, i)[j]} :: 0 <= j < |fl| - 1 ==>
      Merged(fl, i)[j] == if j < i then fl[j] else if j == i then Block(fl[i].addr, fl[i].size + fl[i + 1].size)
                          else fl[j + 1]
  {}

  lemma LinkOrder(fl: seq<Block>, k: nat, b: Block)
    requires Ordered(fl) && Fits(fl, k, b)
    ensures Ordered(Linked(fl, k, b))
  {
    hide Linked;
    LinkedAt(fl, k, b);
    var g := Linked(fl, k, b);
    forall i, j | 0 <= i < j < |g| ensures g[i].addr < g[j].addr && g[i].addr + g[i].size <= g[j].addr {
      if j <= k {
        assert g[i] == fl[i] && g[j] == fl[j];
      } else if i <= k {
        assert g[i] == fl[i] && (i < k ==> fl[i].addr + fl[i].size <= fl[k].addr);
      }
    }
    forall i | 0 < i < |g| ensures g[i].size > 0 {}
  }

  lemma LinkUnits(fl: seq<Block>, k: nat, b: Block)
    requires k < |fl|
    ensures FreeUnits(Linked(fl, k, b)) == FreeUnits(fl) + Span(b.addr, b.size)
  {
    hide FreeUnits;
    FreeUnitsMiddle(fl[..k + 1], [b], fl[k + 1..]);
    FreeUnitsConcat(fl[..k + 1], fl[k + 1..]);
    assert fl == fl[..k + 1] + fl[k + 1..];
    FreeUnitsOne(b);
  }

  lemma LinkMemory(mem: map<int, Header>, fl: seq<Block>, k: nat, b: Block)
    requires Ordered(fl) && Fits(fl, k, b) && Represents(mem, fl)
    ensures var m := mem[b.addr := Header(NextAddr(fl, k), b.size)][fl[k].addr := Header(b.addr, fl[k].size)];
            Represents(m, Linked(fl, k, b))
  {
    hide Linked;
    LinkedAt(fl, k, b);
    var g := Linked(fl, k, b);
    LinkOrder(fl, k, b);
    var m := mem[b.addr := Header(NextAddr(fl, k), b.size)][fl[k].addr := Header(b.addr, fl[k].size)];
    assert g[k] == fl[k] && g[k + 1] == b;
    forall i | 0 <= i < |g| ensures g[i].addr in m && m[g[i].addr] == Header(NextAddr(g, i), g[i].size) {
      if i < k {
        assert g[i] == fl[i] && NextAddr(g, i) == NextAddr(fl, i) && fl[i].addr < fl[k].addr;
      } else if i > k + 1 {
        assert g[i] == fl[i - 1] && NextAddr(g, i) == NextAddr(fl, i - 1) && g[k + 1].addr < g[i].addr;
      }
    }
  }

  lemma MergeOrder(fl: seq<Block>, i: nat)
    requires Ordered(fl) && i + 1 < |fl| && fl[i].addr + fl[i].size == fl[i + 1].addr
    requires 0 < i
    ensures Ordered(Merged(fl, i))
  {
    hide Merged;
    MergedAt(fl, i);
    var g := Merged(fl, i);
    assert fl[i].size > 0 && fl[i + 1].size > 0;
    forall x, y | 0 <= x < y < |g| ensures g[x].addr < g[y].addr && g[x].addr + g[x].size <= g[y].addr {
      assert g[x].addr == fl[if x <= i then x else x + 1].addr && g[y].addr == fl[if y <= i then y else y + 1].addr;
    }
    forall x | 0 < x < |g| ensures g[x].size > 0 {}
  }

  lemma MergeUnits(fl: seq<Block>, i: nat)
    requires i + 1 < |fl| && fl[i].addr + fl[i].size == fl[i + 1].addr && fl[i].size >= 0 && fl[i + 1].size >= 0
    ensures FreeUnits(Merged(fl, i)) == FreeUnits(fl)
  {
    hide FreeUnits;
    var b := Block(fl[i].addr, fl[i].size + fl[i + 1].size);
    assert fl == fl[..i] + [fl[i], fl[i + 1]] + fl[i + 2..];
    FreeUnitsMiddle(fl[..i], [fl[i], fl[i + 1]], fl[i + 2..]);
    FreeUnitsMiddle(fl[..i], [b], fl[i + 2..]);
    FreeUnitsConcat([fl[i]], [fl[i + 1]]);
    assert [fl[i], fl[i + 1]] == [fl[i]] + [fl[i + 1]];
    FreeUnitsOne(fl[i]);
    FreeUnitsOne(fl[i + 1]);
    FreeUnitsOne(b);
    assert Span(b.addr, b.size) == Span(fl[i].addr, fl[i].size) + Span(fl[i + 1].addr, fl[i + 1].size);
  }

  lemma MergeMemory(mem: map<int, Header>, fl: seq<Block>, i: nat)
    requires Ordered(fl) && i + 1 < |fl| && Represents(mem, fl)
    ensures fl[i].addr in mem && fl[i + 1].addr in mem
    ensures var m := mem[fl[i].addr := Header(mem[fl[i + 1].addr].ptr, fl[i].size + fl[i + 1].size)];
            Represents(m, Merged(fl, i))
  {
    hide Merged;
    MergedAt(fl, i);
    RepAt(mem, fl, i);
    RepAt(mem, fl, i + 1);
    var g := Merged(fl, i);
    var m := mem[fl[i].addr := Header(mem[fl[i + 1].addr].ptr, fl[i].size + fl[i + 1].size)];
    forall j | 0 <= j < |g| ensures g[j].addr in m && m[g[j].addr] == Header(NextAddr(g, j), g[j].size) {
      if j < i {
        RepAt(mem, fl, j);
        assert g[j] == fl[j] && fl[j].addr < fl[i].addr;
      } else if j > i {
        RepAt(mem, fl, j + 1);
        assert g[j] == fl[j + 1] && fl[i].addr < fl[j + 1].addr;
      }
    }
  }

  // ---------------------------------------------------------------- freeing

  predicate Touches(a: Block, b: Block) {
    a.addr + a.size == b.addr
  }

  /** The list after joining block k+1 to its successor if they touch. */
  ghost function JoinUp(g: seq<Block>, k: nat): seq<Block>
    requires k + 1 < |g|
  {
    if k + 2 < |g| && Touches(g[k + 1], g[k + 2]) then Merged(g, k + 1) else g
  }

  ghost function JoinDown(h: seq<Block>, k: nat): seq<Block>
    requires k + 1 < |h|
  {
    if Touches(h[k], h[k + 1]) then Merged(h, k) else h
  }

  /** The headers after the first if statement of free: bp's link and size are settled. */
  function Upper(mem: map<int, Header>, p: int, bp: int): map<int, Header>
    requires p in mem && bp in mem && mem[p].ptr in mem
  {
    var q := mem[p].ptr;
    if bp + mem[bp].size == q then mem[bp := Header(mem[q].ptr, mem[bp].size + mem[q].size)]
    else mem[bp := Header(q, mem[bp].size)]
  }

  /** After the second: p either swallows bp or points to it. */
  function Lower(mem: map<int, Header>, p: int, bp: int): map<int, Header>
    requires p in mem && bp in mem
  {
    if p + mem[p].size == bp then mem[p := Header(mem[bp].ptr, mem[p].size + mem[bp].size)]
    else mem[p := Header(bp, mem[p].size)]
  }

  ghost predicate ListOk(base: int, mem: map<int, Header>, fl: seq<Block>) {
    Based(base, fl) && Ordered(fl) && Represents(mem, fl)
  }

  lemma UpperStep(base: int, mem: map<int, Header>, fl: seq<Block>, k: nat, b: Block)
    requires ListOk(base, mem, fl) && Fits(fl, k, b) && b.addr in mem && mem[b.addr].size == b.size
    ensures fl[k].addr in mem && mem[fl[k].addr].ptr in mem
    ensures var m := Upper(mem, fl[k].addr, b.addr);
            ListOk(base, m[fl[k].addr := Header(b.addr, fl[k].size)], JoinUp(Linked(fl, k, b), k))
    ensures FreeUnits(JoinUp(Linked(fl, k, b), k)) == FreeUnits(fl) + Span(b.addr, b.size)
  {
    hide FreeUnits, Linked, Merged, Represents, Upper;
    var p, g := fl[k].addr, Linked(fl, k, b);
    LinkedAt(fl, k, b);
    LinkOrder(fl, k, b);
    LinkUnits(fl, k, b);
    LinkMemory(mem, fl, k, b);
    var m1 := mem[b.addr := Header(NextAddr(fl, k), b.size)][p := Header(b.addr, fl[k].size)];
    UpperMemory(base, mem, fl, k, b);
    if k + 2 < |g| && Touches(g[k + 1], g[k + 2]) {
      MergedAt(g, k + 1);
      MergeOrder(g, k + 1);
      MergeUnits(g, k + 1);
      MergeMemory(m1, g, k + 1);
    }
  }

  /** What Upper writes, in terms of the list with b already linked in. */
  lemma UpperMemory(base: int, mem: map<int, Header>, fl: seq<Block>, k: nat, b: Block)
    requires ListOk(base, mem, fl) && Fits(fl, k, b) && b.addr in mem && mem[b.addr].size == b.size
    ensures fl[k].addr in mem && mem[fl[k].addr].ptr in mem
    ensures var p, g := fl[k].addr, Linked(fl, k, b);
            var m1 := mem[b.addr := Header(NextAddr(fl, k), b.size)][p := Header(b.addr, fl[k].size)];
            var m := Upper(mem, p, b.addr)[p := Header(b.addr, fl[k].size)];
            if k + 2 < |g| && Touches(g[k + 1], g[k + 2])
            then g[k + 2].addr in m1 && m == m1[b.addr := Header(m1[g[k + 2].addr].ptr, b.size + g[k + 2].size)]
            else m == m1
  {
    hide Linked, Ordered;
    LinkedAt(fl, k, b);
    RepAt(mem, fl, k);
    if k + 1 < |fl| {
      RepAt(mem, fl, k + 1);
    } else {
      assert b.addr + b.size != base by { assert fl[0].addr <= fl[k].addr by { HeadLeast(fl, k); } }
      RepAt(mem, fl, 0);
    }
  }

  lemma HeadLeast(fl: seq<Block>, k: nat)
    requires Ordered(fl) && k < |fl|
    ensures fl[0].addr <= fl[k].addr
  {}

  lemma LowerStep(base: int, mem: map<int, Header>, h: seq<Block>, k: nat)
    requires k + 1 < |h| && h[k].addr in mem && h[k + 1].addr in mem && mem[h[k].addr].size == h[k].size
    requires ListOk(base, mem[h[k].addr := Header(h[k + 1].addr, h[k].size)], h)
    ensures ListOk(base, Lower(mem, h[k].addr, h[k + 1].addr), JoinDown(h, k))
    ensures FreeUnits(JoinDown(h, k)) == FreeUnits(h)
  {
    hide FreeUnits, Merged;
    var p, bp := h[k].addr, h[k + 1].addr;
    var m1 := mem[p := Header(bp, h[k].size)];
    assert m1[bp] == Header(NextAddr(h, k + 1), h[k + 1].size);
    if Touches(h[k], h[k + 1]) {
      assert k > 0;
      MergedAt(h, k);
      MergeOrder(h, k);
      MergeUnits(h, k);
      MergeMemory(m1, h, k);
      assert Lower(mem, p, bp) == m1[p := Header(m1[bp].ptr, h[k].size + h[k + 1].size)];
    } else {
      assert Lower(mem, p, bp) == m1;
    }
  }

  /** Nothing touches after both joins, and the freed units lie inside one free block. */
  lemma JoinsAll(fl: seq<Block>, k: nat, b: Block)
    requires Ordered(fl) && Joined(fl) && Fits(fl, k, b)
    ensures var h := JoinUp(Linked(fl, k, b), k); k + 1 < |h| && Joined(JoinDown(h, k))
    ensures var r := JoinDown(JoinUp(Linked(fl, k, b), k), k);
            exists i :: 0 <= i < |r| && r[i].size >= b.size
  {
    hide Linked, Merged;
    var g := Linked(fl, k, b);
    LinkedAt(fl, k, b);
    var h := JoinUp(g, k);
    if k + 2 < |g| && Touches(g[k + 1], g[k + 2]) { MergedAt(g, k + 1); }
    var r := JoinDown(h, k);
    if Touches(h[k], h[k + 1]) { MergedAt(h, k); }
    var i := if Touches(h[k], h[k + 1]) then k else k + 1;
    assert k > 0 ==> fl[k].size > 0;
    assert r[i].size >= b.size;
  }

  /** A block in use lies in no free block, so it is not on the list and fits in its gap. */
  lemma LiveFits(base: int, mem: map<int, Header>, fl: seq<Block>, live: map<int, int>, a: int, k: nat)
    requires Based(base, fl) && Ordered(fl) && LiveOk(base, mem, live) && FreeUnits(fl) !! LiveUnits(live)
    requires a in live && k < |fl|
    ensures fl[k].addr != a
    ensures fl[k].addr < a && (k + 1 < |fl| ==> a < fl[k + 1].addr) ==> Fits(fl, k, Block(a, live[a]))
  {
    hide FreeUnits, LiveUnits;
    LiveUnitsHas(live, a);
    FreeUnitsHas(fl, k);
    assert a in Span(a, live[a]) && a !in Span(fl[k].addr, fl[k].size);
    if k > 0 { assert fl[k].addr in Span(fl[k].addr, fl[k].size); }
    if k + 1 < |fl| {
      FreeUnitsHas(fl, k + 1);
      var x := fl[k + 1].addr;
      assert x in Span(x, fl[k + 1].size) && x !in Span(a, live[a]);
    }
  }

  lemma LiveListed(base: int, mem: map<int, Header>, fl: seq<Block>, live: map<int, int>, core: set<int>, a: int)
    requires ListOk(base, mem, fl) && LiveOk(base, mem, live) && Conserved(fl, live, core) && a in live
    ensures a > base && forall i :: 0 <= i < |fl| ==> fl[i].addr != a
  {
    forall i | 0 <= i < |fl| ensures fl[i].addr != a { LiveFits(base, mem, fl, live, a, i); }
  }

  lemma LiveGap(base: int, mem: map<int, Header>, fl: seq<Block>, live: map<int, int>, core: set<int>, a: int, k: nat)
    requires ListOk(base, mem, fl) && LiveOk(base, mem, live) && Conserved(fl, live, core) && a in live
    requires k < |fl| && fl[k].addr < a && (k + 1 < |fl| ==> a < fl[k + 1].addr)
    ensures Fits(fl, k, Block(a, live[a]))
  {
    LiveFits(base, mem, fl, live, a, k);
  }

  lemma LiveUnitsHas(live: map<int, int>, a: int)
    requires a in live
    ensures Span(a, live[a]) <= LiveUnits(live)
  {}

  lemma FreedUnits(base: int, mem: map<int, Header>, mem': map<int, Header>, fl: seq<Block>, fl': seq<Block>,
                   live: map<int, int>, core: set<int>, bp: int, k: nat)
    requires Based(base, fl) && Ordered(fl) && LiveOk(base, mem, live) && Conserved(fl, live, core)
    requires bp in live && k < |fl|
    requires FreeUnits(fl') == FreeUnits(fl) + Span(bp, live[bp])
    requires forall x :: x in mem && x != bp && x != fl[k].addr ==> x in mem' && mem'[x] == mem[x]
    ensures LiveOk(base, mem', live - {bp}) && Conserved(fl', live - {bp}, core)
  {
    hide FreeUnits, LiveUnits;
    LiveUnitsRemove(live, bp);
    forall a | a in live && a != bp ensures a in mem' && mem'[a].size == live[a] {
      LiveFits(base, mem, fl, live, a, k);
    }
  }

  ghost function Freed(fl: seq<Block>, k: nat, b: Block): seq<Block>
    requires k < |fl|
  {
    JoinDown(JoinUp(Linked(fl, k, b), k), k)
  }

  /** A block freed above all others is the end of the last one, or of none of the old ones. */
  lemma FreedTop(base: int, mem: map<int, Header>, fl: seq<Block>, b: Block)
    requires ListOk(base, mem, fl) && fl != [] && Fits(fl, |fl| - 1, b)
    ensures forall x :: x in Freed(fl, |fl| - 1, b) ==> x in fl || x.addr + x.size == b.addr + b.size
  {
    hide Linked, Merged;
    var k := |fl| - 1;
    var g := Linked(fl, k, b);
    LinkedAt(fl, k, b);
    if Touches(g[k], g[k + 1]) { MergedAt(g, k); }
  }

  lemma FreedPlace(fl: seq<Block>, k: nat, b: Block)
    requires k < |fl|
    ensures var h := JoinUp(Linked(fl, k, b), k);
            && k + 1 < |h| && h[k] == fl[k] && h[k + 1].addr == b.addr
            && k < |Freed(fl, k, b)| && Freed(fl, k, b)[k].addr == fl[k].addr
  {}

  /** Everything free does to the heap once it has found p = fl[k]. */
  lemma FreeStep(base: int, mem: map<int, Header>, fl: seq<Block>, live: map<int, int>, core: set<int>, k: nat, bp: int)
    requires ListOk(base, mem, fl) && Joined(fl) && LiveOk(base, mem, live) && Conserved(fl, live, core)
    requires bp in live && Fits(fl, k, Block(bp, live[bp]))
    ensures fl[k].addr in mem && bp in mem && mem[fl[k].addr].ptr in mem && fl[k].addr >= base
    ensures var m, r := Lower(Upper(mem, fl[k].addr, bp), fl[k].addr, bp), Freed(fl, k, Block(bp, live[bp]));
      && ListOk(base, m, r) && Joined(r) && LiveOk(base, m, live - {bp}) && Conserved(r, live - {bp}, core)
      && (exists i :: 0 <= i < |r| && r[i].addr == fl[k].addr)
      && (exists i :: 0 <= i < |r| && r[i].size >= live[bp])
      && FreeUnits(r) == FreeUnits(fl) + Span(bp, live[bp])
  {
    hide FreeUnits, LiveUnits, Linked, Merged, JoinUp, JoinDown, Joined, Conserved;
    var b := Block(bp, live[bp]);
    UpperStep(base, mem, fl, k, b);
    RepAt(mem, fl, k);
    LinkedAt(fl, k, b);
    HeadLeast(fl, k);
    var h := JoinUp(Linked(fl, k, b), k);
    FreedPlace(fl, k, b);
    JoinsAll(fl, k, b);
    LowerStep(base, Upper(mem, fl[k].addr, bp), h, k);
    FreedUnits(base, mem, Lower(Upper(mem, fl[k].addr, bp), fl[k].addr, bp), fl, Freed(fl, k, b), live, core, bp, k);
  }

  /** p is the last free block below bp. */
  ghost predicate Before(fl: seq<Block>, p: int, bp: int) {
    p < bp && exists i :: 0 <= i < |fl| && fl[i].addr == p && forall j :: i < j < |fl| ==> bp < fl[j].addr
  }

  lemma PlaceFound(fl: seq<Block>, k: nat, bp: int)
    requires Ordered(fl) && k < |fl| && fl[k].addr < bp && (k + 1 < |fl| ==> bp < fl[k + 1].addr)
    ensures Before(fl, fl[k].addr, bp)
  {
    forall j | k < j < |fl| ensures bp < fl[j].addr {
      assert j > k + 1 ==> fl[k + 1].addr < fl[j].addr;
    }
  }

  /** The index of the last free block below bp: where free's search stops. */
  lemma FindGap(fl: seq<Block>, bp: int) returns (k: nat)
    requires fl != [] && fl[0].addr < bp && forall i :: 0 <= i < |fl| ==> fl[i].addr != bp
    ensures k < |fl| && fl[k].addr < bp && (k + 1 < |fl| ==> bp < fl[k + 1].addr)
  {
    k := 0;
    while k + 1 < |fl| && fl[k + 1].addr < bp
      invariant k < |fl| && fl[k].addr < bp
    {
      k := k + 1;
    }
  }

  // ---------------------------------------------------------------- allocating

  lemma {:induction false} UnitsApart(fl: seq<Block>, x: set<int>)
    requires forall i :: 0 <= i < |fl| ==> Span(fl[i].addr, fl[i].size) !! x
    ensures FreeUnits(fl) !! x
  {
    if fl != [] {
      assert Span(fl[|fl| - 1].addr, fl[|fl| - 1].size) !! x;
      UnitsApart(fl[..|fl| - 1], x);
    }
  }

  /** The list after taking n units from block j: the block is unlinked when it fits exactly,
      else its tail end is cut off. */
  ghost function Taken(fl: seq<Block>, j: nat, n: nat): seq<Block>
    requires j < |fl|
  {
    if fl[j].size == n then fl[..j] + fl[j + 1..] else fl[j := Block(fl[j].addr, fl[j].size - n)]
  }

  lemma TakenAt(fl: seq<Block>, j: nat, n: nat)
    requires 0 < j < |fl| && fl[j].size == n
    ensures |Taken(fl, j, n)| == |fl| - 1
    ensures forall i {:trigger Taken(fl, j, n)[i]} :: 0 <= i < |fl| - 1 ==>
      Taken(fl, j, n)[i] == if i < j then fl[i] else fl[i + 1]
  {}

  lemma UnlinkList(fl: seq<Block>, j: nat)
    requires Ordered(fl) && Joined(fl) && 0 < j < |fl|
    ensures Ordered(Taken(fl, j, fl[j].size)) && Joined(Taken(fl, j, fl[j].size))
  {
    hide Taken;
    var g := Taken(fl, j, fl[j].size);
    TakenAt(fl, j, fl[j].size);
    forall i, k | 0 <= i < |g| && 0 <= k < |g| && k == i + 1 ensures g[i].addr + g[i].size != g[k].addr {
      if i < j <= k { assert fl[i].addr + fl[i].size <= fl[j].addr < fl[k + 1].addr; }
    }
  }

  lemma CutList(fl: seq<Block>, j: nat, n: nat)
    requires Ordered(fl) && Joined(fl) && 0 < j < |fl| && 0 < n < fl[j].size
    ensures Ordered(Taken(fl, j, n)) && Joined(Taken(fl, j, n))
  {}

  lemma TakeList(base: int, fl: seq<Block>, j: nat, n: nat)
    requires Based(base, fl) && Ordered(fl) && Joined(fl) && 0 < j < |fl| && 0 < n <= fl[j].size
    ensures Based(base, Taken(fl, j, n)) && Ordered(Taken(fl, j, n)) && Joined(Taken(fl, j, n))
  {
    if fl[j].size == n { UnlinkList(fl, j); } else { CutList(fl, j, n); }
  }

  lemma TakeUnits(base: int, fl: seq<Block>, j: nat, n: nat)
    requires Based(base, fl) && Ordered(fl) && Joined(fl) && 0 < j < |fl| && 0 < n <= fl[j].size
    ensures var cut := Span(fl[j].addr + fl[j].size - n, n);
            FreeUnits(fl) == FreeUnits(Taken(fl, j, n)) + cut && FreeUnits(Taken(fl, j, n)) !! cut
  {
    hide FreeUnits;
    var b, g := fl[j], Taken(fl, j, n);
    var cut := Span(b.addr + b.size - n, n);
    var rest := if b.size == n then [] else [Block(b.addr, b.size - n)];
    assert fl == fl[..j] + [b] + fl[j + 1..];
    assert g == fl[..j] + rest + fl[j + 1..];
    FreeUnitsMiddle(fl[..j], [b], fl[j + 1..]);
    FreeUnitsMiddle(fl[..j], rest, fl[j + 1..]);
    FreeUnitsOne(b);
    FreeUnitsOne(Block(b.addr, b.size - n));
    assert FreeUnits([]) == {} by { FreeUnitsNone(); }
    assert Span(b.addr, b.size) == Span(b.addr, b.size - n) + cut;
    forall i | 0 <= i < |g| ensures Span(g[i].addr, g[i].size) !! cut {
      if i > j || (i == j && rest == []) {
        var i' := if rest == [] then i + 1 else i;
        assert g[i] == fl[i'] && b.addr + b.size <= fl[i'].addr;
      } else if i < j {
        assert g[i] == fl[i] && fl[i].addr + fl[i].size <= b.addr;
      }
    }
    UnitsApart(g, cut);
  }

  lemma FreeUnitsNone()
    ensures FreeUnits([]) == {}
  {}

  /** The headers after malloc takes n units from the block at p, whose predecessor is prevp. */
  function Take(mem: map<int, Header>, prevp: int, p: int, n: int): map<int, Header>
    requires prevp in mem && p in mem
  {
    if mem[p].size == n then mem[prevp := Header(mem[p].ptr, mem[prevp].size)]
    else
      var left := mem[p].size - n;
      var m := mem[p := Header(mem[p].ptr, left)];
      m[p + left := Header(if p + left in m then m[p + left].ptr else 0, n)]
  }

  lemma UnlinkMemory(mem: map<int, Header>, fl: seq<Block>, j: nat)
    requires Ordered(fl) && Represents(mem, fl) && 0 < j < |fl|
    ensures fl[j - 1].addr in mem && fl[j].addr in mem
    ensures Represents(Take(mem, fl[j - 1].addr, fl[j].addr, fl[j].size), Taken(fl, j, fl[j].size))
  {
    hide Taken;
    TakenAt(fl, j, fl[j].size);
    var g := Taken(fl, j, fl[j].size);
    RepAt(mem, fl, j - 1);
    RepAt(mem, fl, j);
    var m := Take(mem, fl[j - 1].addr, fl[j].addr, fl[j].size);
    forall i | 0 <= i < |g| ensures g[i].addr in m && m[g[i].addr] == Header(NextAddr(g, i), g[i].size) {
      if i < j - 1 {
        assert g[i] == fl[i] && NextAddr(g, i) == NextAddr(fl, i) && fl[i].addr < fl[j - 1].addr;
      } else if i >= j {
        assert g[i] == fl[i + 1] && NextAddr(g, i) == NextAddr(fl, i + 1) && fl[j - 1].addr < fl[i + 1].addr;
      }
    }
  }

  lemma CutMemory(mem: map<int, Header>, fl: seq<Block>, j: nat, n: nat)
    requires Ordered(fl) && Represents(mem, fl) && 0 < j < |fl| && 0 < n < fl[j].size
    ensures fl[j - 1].addr in mem && fl[j].addr in mem
    ensures Represents(Take(mem, fl[j - 1].addr, fl[j].addr, n), Taken(fl, j, n))
  {
    var g := Taken(fl, j, n);
    RepAt(mem, fl, j - 1);
    RepAt(mem, fl, j);
    var m := Take(mem, fl[j - 1].addr, fl[j].addr, n);
    forall i | 0 <= i < |g| ensures g[i].addr in m && m[g[i].addr] == Header(NextAddr(g, i), g[i].size) {
      assert NextAddr(g, i) == NextAddr(fl, i);
      if i < j { assert fl[i].addr < fl[j].addr; }
      if i > j { assert fl[j].addr + fl[j].size <= fl[i].addr; }
    }
  }

  lemma TakeMemory(mem: map<int, Header>, fl: seq<Block>, j: nat, n: nat)
    requires Ordered(fl) && Represents(mem, fl) && 0 < j < |fl| && 0 < n <= fl[j].size
    ensures fl[j - 1].addr in mem && fl[j].addr in mem
    ensures Represents(Take(mem, fl[j - 1].addr, fl[j].addr, n), Taken(fl, j, n))
  {
    if fl[j].size == n { UnlinkMemory(mem, fl, j); } else { CutMemory(mem, fl, j, n); }
  }

  lemma TakeStep(base: int, mem: map<int, Header>, fl: seq<Block>, live: map<int, int>, core: set<int>, j: nat, n: nat)
    requires ListOk(base, mem, fl) && Joined(fl) && LiveOk(base, mem, live) && Conserved(fl, live, core)
    requires 0 < j < |fl| && 0 < n <= fl[j].size
    ensures fl[j - 1].addr in mem && fl[j].addr in mem && mem[fl[j].addr].size == fl[j].size
    ensures var m, r, a := Take(mem, fl[j - 1].addr, fl[j].addr, n), Taken(fl, j, n), fl[j].addr + fl[j].size - n;
      && ListOk(base, m, r) && Joined(r)
      && a !in live && LiveOk(base, m, live[a := n]) && Conserved(r, live[a := n], core)
      && (exists i :: 0 <= i < |r| && r[i].addr == fl[j - 1].addr) && fl[j - 1].addr >= base && a > base
  {
    hide FreeUnits, LiveUnits, Taken, Represents, Joined;
    TakeList(base, fl, j, n);
    TakeUnits(base, fl, j, n);
    TakeMemory(mem, fl, j, n);
    TakenPrev(fl, j, n);
    RepAt(mem, fl, j);
    var m, a := Take(mem, fl[j - 1].addr, fl[j].addr, n), fl[j].addr + fl[j].size - n;
    HeadLeast(fl, j - 1);
    HeadLeast(fl, j);
    assert a in Span(a, n);
    if a in live { LiveUnitsHas(live, a); }
    LiveUnitsAdd(live, a, n);
    forall x | x in live ensures x in m && m[x].size == live[x] && Span(x, live[x]) !! Span(a, n) {
      LiveUnitsHas(live, x);
      LiveFits(base, mem, fl, live, x, j);
      LiveFits(base, mem, fl, live, x, j - 1);
    }
  }

  lemma RepAt(mem: map<int, Header>, fl: seq<Block>, j: nat)
    requires Represents(mem, fl) && j < |fl|
    ensures fl[j].addr in mem && mem[fl[j].addr] == Header(NextAddr(fl, j), fl[j].size)
  {}

  lemma TakenPrev(fl: seq<Block>, j: nat, n: nat)
    requires 0 < j < |fl|
    ensures j - 1 < |Taken(fl, j, n)| && Taken(fl, j, n)[j - 1] == fl[j - 1]
  {}

  lemma GrantApart(base: int, mem: map<int, Header>, fl: seq<Block>, live: map<int, int>, core: set<int>, brk: int,
                   n: nat)
    requires Based(base, fl) && Ordered(fl) && Conserved(fl, live, core) && brk > base && 0 < n && Span(brk, n) !! core
    ensures forall i :: 0 <= i < |fl| ==> fl[i].addr != brk
    ensures forall x :: x in live && live[x] > 0 ==> x != brk && Span(x, live[x]) !! Span(brk, n)
  {
    hide FreeUnits, LiveUnits;
    assert brk in Span(brk, n);
    forall i | 0 <= i < |fl| ensures fl[i].addr != brk {
      FreeUnitsHas(fl, i);
      if i > 0 { assert fl[i].addr in Span(fl[i].addr, fl[i].size); }
    }
    forall x | x in live && live[x] > 0 ensures x != brk && Span(x, live[x]) !! Span(brk, n) {
      LiveUnitsHas(live, x);
      assert x in Span(x, live[x]);
    }
  }

  /** A fresh region from sbrk may be treated as a block in use, ready to be freed. */
  lemma GrantStep(base: int, mem: map<int, Header>, fl: seq<Block>, live: map<int, int>, core: set<int>, brk: int,
                  n: nat, h: Header)
    requires ListOk(base, mem, fl) && LiveOk(base, mem, live) && Conserved(fl, live, core)
    requires brk > base && 0 < n && h.size == n && Span(brk, n) !! core
    ensures ListOk(base, mem[brk := h], fl) && brk !in live
    ensures LiveOk(base, mem[brk := h], live[brk := n])
    ensures Conserved(fl, live[brk := n], core + Span(brk, n))
  {
    hide FreeUnits, LiveUnits, Ordered, Based;
    GrantApart(base, mem, fl, live, core, brk, n);
    forall i | 0 <= i < |fl|
      ensures fl[i].addr in mem[brk := h] && mem[brk := h][fl[i].addr] == Header(NextAddr(fl, i), fl[i].size)
    {
      RepAt(mem, fl, i);
    }
    LiveUnitsAdd(live, brk, n);
  }

  /** Position i of a cycle of n, for i < 2n. */
  function Wrap(i: nat, n: nat): nat {
    if i < n then i else i - n
  }

  /** Block i is among the c blocks after block f, round a cycle of n. */
  predicate Seen(f: nat, c: nat, n: nat, i: nat) {
    f < i <= f + c || i + n <= f + c
  }

  /** One step of a scan that started after block f and has passed c blocks. */
  lemma ScanAt(fl: seq<Block>, f: nat, c: nat)
    requires f < |fl| && c < |fl|
    ensures var n := |fl|; var k, j := Wrap(f + c, n), Wrap(f + 1 + c, n);
      && k < n && j < n && NextAddr(fl, k) == fl[j].addr && (j > 0 ==> k == j - 1) && (c == 0 ==> k == f)
      && (j == f <==> c == n - 1)
      && (c == n - 1 ==> forall i :: 0 <= i < n ==> Seen(f, c, n, i) || i == f)
      && (c < n - 1 ==> forall i :: 0 <= i < n && Seen(f, c + 1, n, i) ==> Seen(f, c, n, i) || i == j)
      && forall i :: 0 <= i < n ==> !Seen(f, 0, n, i)
  {}

  lemma BaseBelow(base: int, fl: seq<Block>)
    requires Based(base, fl)
    ensures fl != [] && fl[0].addr == base
  {}

  class Heap {
    const base: int
    var mem: map<int, Header>
    var freep: int               // 0 until the first malloc
    ghost var fl: seq<Block>
    ghost var live: map<int, int>
    ghost var core: set<int>
    ghost var held: set<int>

    ghost predicate Listed(p: int)
      reads this
    {
      exists i :: 0 <= i < |fl| && fl[i].addr == p
    }

    /** The list is in order and accounts, with the blocks in use, for every unit of core. */
    ghost predicate Orderly()
      reads this
    {
      && base > 0 && LiveOk(base, mem, live) && Conserved(fl, live, core)
      && if freep == 0 then fl == [] && live == map[]
         else ListOk(base, mem, fl) && Joined(fl) && Listed(freep)
    }

    /** ... and all of it came from sbrk. */
    ghost predicate Valid()
      reads this
    {
      Orderly() && core == held
    }

    constructor (addr: int)
      requires addr > 0
      ensures Valid() && base == addr && freep == 0 && core == {}
    {
      base, mem, freep := addr, map[], 0;
      fl, live, core, held := [], map[], {}, {};
    }

    /** The search loop of free. It stops on the block the list order demands: the measure is
        the distance, round the cycle, to that block. */
    method FindPlace(bp: int) returns (p: int, ghost k: nat)
      requires Orderly() && freep != 0 && bp > base && forall i :: 0 <= i < |fl| ==> fl[i].addr != bp
      ensures k < |fl| && p == fl[k].addr < bp && (k + 1 < |fl| ==> bp < fl[k + 1].addr)
      ensures Before(fl, p, bp)
    {
      hide LiveOk, Conserved, Represents, Joined, Based, Before;
      BaseBelow(base, fl);
      ghost var t := FindGap(fl, bp);
      p := freep;
      k :| 0 <= k < |fl| && fl[k].addr == freep;
      RepAt(mem, fl, k);
      while !(bp > p && bp < mem[p].ptr)
        invariant k < |fl| && p == fl[k].addr && p in mem
        decreases if k <= t then t - k else t - k + |fl|
      {
        RepAt(mem, fl, k);
        if p >= mem[p].ptr && (bp > p || bp < mem[p].ptr) { break; }
        if k < t { assert fl[k].addr < fl[k + 1].addr <= fl[t].addr; }
        if k > t { assert k + 1 < |fl| ==> fl[k].addr < fl[k + 1].addr; }
        p := mem[p].ptr;
        k := if k + 1 < |fl| then k + 1 else 0;
        RepAt(mem, fl, k);
      }
      RepAt(mem, fl, k);
      PlaceFound(fl, k, bp);
    }

    /** free(ap), for a block that malloc or morecore handed out. */
    method Free(ap: int)
      requires Orderly() && freep != 0 && ap - 1 in live
      modifies this
      ensures Orderly() && freep != 0 && core == old(core) && held == old(held) && live == old(live) - {ap - 1}
      ensures exists i :: 0 <= i < |fl| && fl[i].size >= old(live)[ap - 1]
      ensures FreeUnits(fl) == old(FreeUnits(fl)) + Span(ap - 1, old(live)[ap - 1])
      ensures (forall i :: 0 <= i < |old(fl)| ==> old(fl)[i].addr < ap - 1) ==> forall i :: 0 <= i < |fl| ==>
        fl[i] in old(fl) || fl[i].addr + fl[i].size == ap - 1 + old(live)[ap - 1]
    {
      hide LiveOk, Conserved, FreeUnits, Freed, Joined, ListOk;
      var bp := ap - 1;
      ghost var b := Block(bp, live[bp]);
      LiveListed(base, mem, fl, live, core, bp);
      var p: int;
      ghost var k;
      p, k := FindPlace(bp);
      LiveGap(base, mem, fl, live, core, bp, k);
      FreeStep(base, mem, fl, live, core, k, bp);
      if k == |fl| - 1 { FreedTop(base, mem, fl, b); }
      mem := Upper(mem, p, bp);
      mem := Lower(mem, p, bp);
      freep := p;
      fl := Freed(fl, k, b);
      live := live - {bp};
    }

    /** morecore: get at least MIN_CORE units from sbrk and free them. `granted` and `brk` stand
        for sbrk's answer, the old end of the process, behind which nothing has been obtained. If
        sbrk was asked for nothing or less, the store of the header traps unless brk lies in a
        mapped page; if it does, free links in a block that was never obtained. Such an sbrk is
        refused only when deallocuvm has unmapped the whole process, which traps too. */
    method Morecore(nu: nat, granted: bool, brk: nat) returns (p: int, trapped: bool)
      requires Orderly() && freep != 0 && nu > 0
      requires granted ==> brk > base && Span(brk, CoreUnits(nu)) !! core
      requires granted && Asked(nu) <= 0 ==> forall u :: u in core ==> u < brk
      modifies this
      ensures Orderly() && freep != 0 && live == old(live)
      ensures trapped <==> Asked(nu) <= 0 && !(granted && Mapped(brk, nu))
      ensures !granted || trapped ==>
        p == 0 && core == old(core) && held == old(held) && fl == old(fl) && freep == old(freep)
      ensures granted && !trapped ==>
        && p == freep && core == old(core) + Span(brk, CoreUnits(nu))
        && held == old(held) + (if Asked(nu) > 0 then Span(brk, CoreUnits(nu)) else {})
        && exists i :: 0 <= i < |fl| && fl[i].size >= nu
      ensures granted && !trapped ==>
        forall u :: u in core <==> u in old(core) || brk <= u < brk + if nu < 4096 then 4096 else nu
      ensures granted && !trapped && Asked(nu) <= 0 ==> forall i :: 0 <= i < |fl| ==>
        fl[i] in old(fl) || fl[i].addr + fl[i].size == brk + nu
    {
      hide LiveOk, Conserved, ListOk, Joined, FreeUnits, Asked, Mapped;
      if Asked(nu) <= 0 && !(granted && Mapped(brk, nu)) { return 0, true; }
      if !granted { return 0, false; }
      var n := CoreUnits(nu);
      var h := Header(if brk in mem then mem[brk].ptr else 0, n);
      GrantStep(base, mem, fl, live, core, brk, n, h);
      if Asked(nu) <= 0 { AllBelow(base, mem, fl, live, core, brk, nu); }
      mem := mem[brk := h];
      ghost var live0 := live;
      live := live[brk := n];
      core := core + Span(brk, n);
      held := held + if Asked(nu) > 0 then Span(brk, n) else {};
      Free(brk + 1);
      assert live == live0;
      return freep, false;
    }

    /** The branch of malloc that has found a block at p large enough: unlink it or cut its tail. */
    method Carve(prevp: int, p: int, nunits: nat, ghost j: nat) returns (r: int)
      requires Orderly() && freep != 0 && 0 < j < |fl| && p == fl[j].addr && prevp == fl[j - 1].addr
      requires 0 < nunits <= fl[j].size
      modifies this
      ensures Orderly() && freep != 0 && core == old(core) && held == old(held)
      ensures r != 0 && r - 1 !in old(live) && live == old(live)[r - 1 := nunits]
      ensures r - 1 == old(fl)[j].addr + old(fl)[j].size - nunits
    {
      hide LiveOk, Conserved, ListOk, Joined, FreeUnits, Taken;
      TakeStep(base, mem, fl, live, core, j, nunits);
      var a := p;
      var left := mem[p].size - nunits;
      if left == 0 {
        mem := mem[prevp := Header(mem[p].ptr, mem[prevp].size)];
      } else {
        mem := mem[p := Header(mem[p].ptr, left)];
        a := p + left;
        mem := mem[a := Header(if a in mem then mem[a].ptr else 0, nunits)];
      }
      freep := prevp;
      fl := Taken(fl, j, nunits);
      live := live[a := nunits];
      return a + 1;
    }

    /** The first call of malloc makes the list of the empty block base alone. */
    method FirstUse()
      requires Orderly() && freep == 0
      modifies this`mem, this`freep, this`fl
      ensures Orderly() && freep != 0 && fl == [Block(base, 0)]
    {
      FirstList(base, live, core);
      mem := mem[base := Header(base, 0)];
      freep := base;
      fl := [Block(base, 0)];
      assert fl[0].addr == freep;
    }

    /** malloc's loop stands at p after prevp, having found the c blocks after freep too small. */
    ghost predicate Scanning(prevp: int, p: int, f: nat, c: nat, nunits: nat)
      reads this
    {
      && Orderly() && freep != 0 && f < |fl| && fl[f].addr == freep && c < |fl|
      && Wrap(f + c, |fl|) < |fl| && prevp == fl[Wrap(f + c, |fl|)].addr && p == NextAddr(fl, Wrap(f + c, |fl|))
      && forall i :: 0 <= i < |fl| && Seen(f, c, |fl|, i) ==> fl[i].size < nunits
    }

    lemma StartScan(nunits: nat) returns (f: nat)
      requires Orderly() && freep != 0
      ensures freep in mem && Scanning(freep, mem[freep].ptr, f, 0, nunits)
    {
      hide LiveOk, Conserved, Joined, FreeUnits, Represents, Ordered;
      f :| 0 <= f < |fl| && fl[f].addr == freep;
      ScanAt(fl, f, 0);
      RepAt(mem, fl, f);
    }

    /** Where the scan stands, and what it knows when it is back at freep or goes on. */
    lemma ScanStep(prevp: int, p: int, f: nat, c: nat, nunits: nat) returns (j: nat)
      requires Scanning(prevp, p, f, c, nunits) && nunits > 0
      ensures j < |fl| && p == fl[j].addr && p in mem && mem[p].size == fl[j].size
      ensures fl[j].size >= nunits ==> 0 < j && prevp == fl[j - 1].addr
      ensures fl[j].size < nunits && p == freep ==> forall i :: 0 <= i < |fl| ==> fl[i].size < nunits
      ensures fl[j].size < nunits && p != freep ==> Scanning(p, mem[p].ptr, f, c + 1, nunits)
    {
      hide LiveOk, Conserved, Joined, FreeUnits, Represents, Ordered, Wrap, Seen, NextAddr;
      j := Wrap(f + 1 + c, |fl|);
      ScanAt(fl, f, c);
      RepAt(mem, fl, j);
      if p == freep {
        DistinctAddrs(fl, j, f);
      } else if c + 1 < |fl| {
        ScanAt(fl, f, c + 1);
      }
    }

    /** malloc. The result is a fresh block of the size asked for, carved from free units, all
        other blocks in use untouched. morecore runs at most once, and only when no free block
        is large enough. malloc returns 0 only when sbrk refuses. It is sound unless it needs core
        that sbrk's int cannot express; then it traps, or hands out a block of which not one unit
        was obtained. Where the end of that block would wrap round onto base nothing is promised. */
    method Malloc(nbytes: nat, granted: bool, brk: nat) returns (r: int, trapped: bool, ghost cores: nat)
      requires Valid() && nbytes < UINT
      requires granted ==> brk > base && Span(brk, CoreUnits(Units(nbytes))) !! core
      requires granted && Asked(Units(nbytes)) <= 0 ==> forall u :: u in core ==> u < brk
      modifies this
      ensures cores <= 1
      ensures cores == 1 <==> forall i :: 0 <= i < |old(fl)| ==> old(fl)[i].size < Units(nbytes)
      ensures trapped <==> cores == 1 && Asked(Units(nbytes)) <= 0 && !(granted && Mapped(brk, Units(nbytes)))
      ensures r == 0 <==> cores == 1 && (!granted || trapped)
      ensures r == 0 ==> Valid() && core == old(core) && live == old(live)
      ensures r != 0 && (cores == 0 || Asked(Units(nbytes)) > 0) ==>
        && Valid() && r - 1 !in old(live) && live == old(live)[r - 1 := Units(nbytes)]
        && core == old(core) + if cores == 1 then Span(brk, CoreUnits(Units(nbytes))) else {}
      ensures r != 0 && cores == 1 && Asked(Units(nbytes)) <= 0 && brk + Units(nbytes) != base + SPACE ==>
        && r - 1 == brk && live == old(live)[brk := Units(nbytes)]
        && held == old(held) && Span(brk, Units(nbytes)) !! held && !Valid()
    {
      hide LiveOk, Conserved, Joined, FreeUnits, Represents, Ordered, Units, Asked, Span, Wrap, Seen, NextAddr, ListOk;
      hide Mapped;
      var nunits := Units(nbytes);
      if freep == 0 { FirstUse(); }
      ghost var fl0 := fl;
      var prevp := freep;
      cores, trapped := 0, false;
      ghost var f := StartScan(nunits);
      ghost var c := 0;
      var p := mem[prevp].ptr;
      while true
        invariant Scanning(prevp, p, f, c, nunits) && freep != 0 && live == old(live) && cores <= 1 && !trapped
        invariant cores == 0 ==> fl == fl0 && core == held == old(core)
        invariant cores == 1 ==> granted && core == old(core) + Span(brk, CoreUnits(nunits))
        invariant cores == 1 ==> held == old(core) + if Asked(nunits) > 0 then Span(brk, CoreUnits(nunits)) else {}
        invariant cores == 1 ==> exists i :: 0 <= i < |fl| && fl[i].size >= nunits
        invariant cores == 1 ==> forall i :: 0 <= i < |fl0| ==> fl0[i].size < nunits
        invariant cores == 1 && Asked(nunits) <= 0 ==> Mapped(brk, nunits) && forall i :: 0 <= i < |fl| ==>
          fl[i] in fl0 || fl[i].addr + fl[i].size == brk + nunits
        decreases 1 - cores, |fl| - c
      {
        ghost var j := ScanStep(prevp, p, f, c, nunits);
        if mem[p].size >= nunits {
          assert brk in Span(brk, nunits);
          p := Carve(prevp, p, nunits, j);
          return p, false, cores;
        }
        if p == freep {
          cores := cores + 1;
          p, trapped := Morecore(nunits, granted, brk);
          if p == 0 { return 0, trapped, cores; }
          f := StartScan(nunits);
          c := 0;
        } else {
          c := c + 1;
        }
        prevp := p;
        p := mem[p].ptr;
      }
    }
  }

  /** Everything on the list lies below brk if all units do; a request beyond sbrk's int is more
      than MIN_CORE. */
  lemma AllBelow(base: int, mem: map<int, Header>, fl: seq<Block>, live: map<int, int>, core: set<int>, brk: nat,
                 nu: nat)
    requires ListOk(base, mem, fl) && Conserved(fl, live, core) && brk > base && forall u :: u in core ==> u < brk
    requires Asked(nu) <= 0
    ensures forall i :: 0 <= i < |fl| ==> fl[i].addr < brk
    ensures CoreUnits(nu) == nu
  {
    hide FreeUnits, LiveUnits;
    forall i | 0 < i < |fl| ensures fl[i].addr < brk {
      FreeUnitsHas(fl, i);
      assert fl[i].addr in Span(fl[i].addr, fl[i].size);
    }
  }

  lemma DistinctAddrs(fl: seq<Block>, i: nat, j: nat)
    requires Ordered(fl) && i < |fl| && j < |fl| && fl[i].addr == fl[j].addr
    ensures i == j
  {}

  lemma FirstList(base: int, live: map<int, int>, core: set<int>)
    requires live == map[] && Conserved([], live, core)
    ensures Conserved([Block(base, 0)], live, core) && Joined([Block(base, 0)])
  {}

  /** One block in use that takes all units leaves none free. */
  lemma AllInUse(base: int, mem: map<int, Header>, fl: seq<Block>, a: int, b: int, n: nat)
    requires ListOk(base, mem, fl) && Conserved(fl, map[b := n], Span(a, n)) && n > 0
    ensures b == a && fl == [Block(base, 0)]
  {
    hide FreeUnits;
    LiveUnitsHas(map[b := n], b);
    assert b in Span(b, n) && b + n - 1 in Span(b, n);
    LiveUnitsAdd(map[], b, n);
    if |fl| > 1 {
      assert fl[1].addr in Span(fl[1].addr, fl[1].size);
      FreeUnitsHas(fl, 1);
    }
  }

  lemma EndsInsidePage()
    ensures Units(40000) == 5001 && Units(0xFFFF_FFF8) == 0x2000_0000
    ensures Asked(5001) == 40008 && Asked(0x2000_0000) == 0 && Mapped(4096 + 5001, 0x2000_0000)
  {}

  /** malloc(40000) leaves the end of the process inside a page, and malloc(0xFFFFFFF8) then hands
      out half a billion units of which none was obtained. */
  method Unbacked() returns (heap: Heap, r: int)
    ensures r == 9098 && r - 1 in heap.live && heap.live[r - 1] == 0x2000_0000
    ensures heap.held == Span(4096, 5001) && Span(r - 1, heap.live[r - 1]) !! heap.held && !heap.Valid()
  {
    hide ListOk, Conserved, LiveOk, Joined, Units, Asked, Mapped, Span;
    heap := new Heap(512);
    var trapped: bool;
    ghost var cores;
    EndsInsidePage();
    r, trapped, cores := heap.Malloc(40000, true, 4096);
    assert heap.live == map[r - 1 := 5001] && heap.core == Span(4096, 5001);
    AllInUse(heap.base, heap.mem, heap.fl, 4096, r - 1, 5001);
    r, trapped, cores := heap.Malloc(0xFFFF_FFF8, true, 9097);
  }
}
