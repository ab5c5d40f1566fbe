/** The buffer cache of bio.c over the memory disk of memide.c.

    bcache.buf is an array of records linked into a ring through prev/next, with bcache.head
    as one more record after the last buffer. Each method is one critical section, so a run of
    any number of processes is a sequence of calls; all of them keep Valid() and say what
    happens to `view`, the block array the rest of the kernel believes it is using. */
module BufferCache {
  import opened Common
  import opened RedoLog

  /** What became of a call of bread: a locked buffer, a wait for buffer b, or a panic. */
  datatype Attempt = Ready(b: nat) | Waits(b: nat) | Stopped

  datatype Buf = Buf(valid: bool, dirty: bool, dev: nat, blockno: nat, locked: bool, refcnt: nat,
                     prev: nat, next: nat, data: Block)

  // ---------------------------------------------------------------- the ring of buffers

  ghost predicate Adjacent(buf: seq<Buf>, x: nat, y: nat) {
    x < |buf| && y < |buf| && buf[x].next == y && buf[y].prev == x
  }

  /** Following next from head visits `order` and returns to head; prev is the reverse. */
  ghost predicate Ring(buf: seq<Buf>, head: nat, order: seq<nat>) {
    && head < |buf| && head !in order && Distinct(order)
    && (forall i :: 0 <= i < |order| ==> order[i] < |buf|)
    && Adjacent(buf, head, if order == [] then head else order[0])
    && Adjacent(buf, if order == [] then head else order[|order| - 1], head)
    && (forall i, j :: 0 <= i < |order| && 0 <= j < |order| && j == i + 1 ==> Adjacent(buf, order[i], order[j]))
  }

  /** The neighbours of the k-th buffer of the ring. */
  lemma RingAt(buf: seq<Buf>, head: nat, order: seq<nat>, k: nat)
    requires Ring(buf, head, order) && k < |order|
    ensures order[k] < |buf| && order[k] != head
    ensures buf[order[k]].next == if k + 1 < |order| then order[k + 1] else head
    ensures buf[order[k]].prev == if 0 < k then order[k - 1] else head
  {}

  function SetPrev(buf: seq<Buf>, i: nat, p: nat): seq<Buf>
    requires i < |buf|
  {
    buf[i := buf[i].(prev := p)]
  }

  function SetNext(buf: seq<Buf>, i: nat, n: nat): seq<Buf>
    requires i < |buf|
  {
    buf[i := buf[i].(next := n)]
  }

  /** Removing the buffer between p and n, by the assignments n.prev = p; p.next = n. */
  function Bypass(buf: seq<Buf>, p: nat, n: nat): seq<Buf>
    requires p < |buf| && n < |buf|
  {
    SetNext(SetPrev(buf, n, p), p, n)
  }

  lemma BypassKeeps(buf: seq<Buf>, p: nat, n: nat, x: nat, y: nat)
    requires p < |buf| && n < |buf|
    requires (x == p && y == n) || (Adjacent(buf, x, y) && x != p && y != n)
    ensures Adjacent(Bypass(buf, p, n), x, y)
  {}

  lemma UnlinkRing(buf: seq<Buf>, head: nat, order: seq<nat>, k: nat)
    requires Ring(buf, head, order) && k < |order|
    ensures var n, p := buf[order[k]].next, buf[order[k]].prev;
            && n < |buf| && p < |buf| && n != order[k] && p != order[k]
            && order[k] !in Without(order, k)
            && Ring(Bypass(buf, p, n), head, Without(order, k))
  {
    RingAt(buf, head, order, k);
    var n, p := buf[order[k]].next, buf[order[k]].prev;
    var o, last := Without(order, k), |order| - 1;
    forall i | 0 <= i < |o| ensures o[i] == order[if i < k then i else i + 1] && o[i] != head && o[i] < |buf| {}
    assert Distinct(o);
    forall i, j | 0 <= i < |o| && 0 <= j < |o| && j == i + 1 ensures Adjacent(Bypass(buf, p, n), o[i], o[j]) {
      BypassKeeps(buf, p, n, o[i], o[j]);
    }
    BypassKeeps(buf, p, n, head, if o == [] then head else o[0]);
    BypassKeeps(buf, p, n, if o == [] then head else o[|o| - 1], head);
  }

  /** The four assignments that put b at the front of the ring. */
  lemma PushRing(buf: seq<Buf>, head: nat, order: seq<nat>, b: nat)
    requires Ring(buf, head, order) && b < |buf| && b != head && b !in order
    ensures var f := buf[head].next;
            f < |buf| && Ring(SetNext(SetPrev(SetPrev(SetNext(buf, b, f), b, head), f, b), head, b), head, [b] + order)
  {
    var o := [b] + order;
    var f := buf[head].next;
    assert order != [] ==> f == order[0];
    var buf' := SetNext(SetPrev(SetPrev(SetNext(buf, b, f), b, head), f, b), head, b);
    forall i, j | 0 <= i < |o| && 0 <= j < |o| && j == i + 1 ensures Adjacent(buf', o[i], o[j]) {
      if 0 < i { assert Adjacent(buf, order[i - 1], order[j - 1]); }
    }
  }

  /** The ring does not look at anything but the links. */
  lemma RingFrame(buf: seq<Buf>, buf': seq<Buf>, head: nat, order: seq<nat>)
    requires Ring(buf, head, order) && |buf'| == |buf|
    requires forall i :: 0 <= i < |buf| ==> buf'[i].next == buf[i].next && buf'[i].prev == buf[i].prev
    ensures Ring(buf', head, order)
  {}

  // ---------------------------------------------------------------- what the cache stands for

  predicate Key(b: Buf, dev: nat, blockno: nat) {
    b.dev == dev && b.blockno == blockno
  }

  predicate Holds(b: Buf, blockno: nat) {
    b.valid && Key(b, 1, blockno)
  }

  predicate Recyclable(b: Buf) {
    b.refcnt == 0 && !b.dirty
  }

  /** Everything about a buffer except its place in the ring. */
  function Core(b: Buf): Buf {
    b.(prev := 0, next := 0)
  }

  ghost predicate BufOk(b: Buf, disk: seq<Block>) {
    && (b.valid ==> b.dev == 1 && b.blockno < |disk|)
    && (b.valid && !b.dirty ==> b.data == disk[b.blockno])
    && (b.dirty ==> b.valid)
    && (b.locked ==> b.refcnt > 0)
  }

  /** Two buffers never share a key that has been assigned; unused buffers keep (0, 0). */
  ghost predicate UniqueKeys(buf: seq<Buf>, nbuf: nat)
    requires nbuf <= |buf|
  {
    forall i, j :: 0 <= i < j < nbuf && Key(buf[j], buf[i].dev, buf[i].blockno) ==> Key(buf[i], 0, 0)
  }

  ghost predicate Coherent(buf: seq<Buf>, nbuf: nat, disk: seq<Block>) {
    && nbuf <= |buf|
    && (forall i :: 0 <= i < nbuf ==> BufOk(buf[i], disk))
    && UniqueKeys(buf, nbuf)
  }

  lemma OneHolder(buf: seq<Buf>, nbuf: nat, i: nat, j: nat, n: nat)
    requires nbuf <= |buf| && UniqueKeys(buf, nbuf) && i < nbuf && j < nbuf && Key(buf[i], 1, n)
    ensures Key(buf[j], 1, n) ==> i == j
  {}

  /** The block as its readers see it: the cached copy if there is one, else the disk. */
  ghost function ViewAt(buf: seq<Buf>, nbuf: nat, disk: seq<Block>, n: nat): Block
    requires nbuf <= |buf| && n < |disk|
  {
    if exists i: nat :: i < nbuf && Holds(buf[i], n)
    then (var i: nat :| i < nbuf && Holds(buf[i], n); buf[i].data)
    else disk[n]
  }

  ghost function ViewOf(buf: seq<Buf>, nbuf: nat, disk: seq<Block>): (v: seq<Block>)
    requires nbuf <= |buf|
    ensures |v| == |disk|
  {
    seq(|disk|, n requires 0 <= n < |disk| => ViewAt(buf, nbuf, disk, n))
  }

  lemma ViewHit(buf: seq<Buf>, nbuf: nat, disk: seq<Block>, i: nat)
    requires Coherent(buf, nbuf, disk) && i < nbuf && buf[i].valid
    ensures ViewOf(buf, nbuf, disk)[buf[i].blockno] == buf[i].data
  {}

  lemma ViewMiss(buf: seq<Buf>, nbuf: nat, disk: seq<Block>, n: nat)
    requires Coherent(buf, nbuf, disk) && n < |disk|
    requires forall i :: 0 <= i < nbuf ==> !Holds(buf[i], n)
    ensures ViewOf(buf, nbuf, disk)[n] == disk[n]
  {}

  /** Only buffer b (and perhaps the disk) changes, and b together with the disk says the
      same about block n before and after: the view of n does not change. */
  lemma ViewUpdate(buf: seq<Buf>, buf': seq<Buf>, nbuf: nat, disk: seq<Block>, disk': seq<Block>, b: nat, n: nat)
    requires Coherent(buf, nbuf, disk) && Coherent(buf', nbuf, disk') && b < nbuf
    requires |disk| == |disk'| && n < |disk|
    requires forall i :: 0 <= i < nbuf && i != b ==> Core(buf'[i]) == Core(buf[i])
    requires (if Holds(buf[b], n) then buf[b].data else disk[n]) == if Holds(buf'[b], n) then buf'[b].data else disk'[n]
    ensures ViewOf(buf', nbuf, disk')[n] == ViewOf(buf, nbuf, disk)[n]
  {
    if Holds(buf[b], n) && Holds(buf'[b], n) {
      ViewHit(buf, nbuf, disk, b);
      ViewHit(buf', nbuf, disk', b);
    } else if i :| 0 <= i < nbuf && i != b && Holds(buf[i], n) {
      assert Core(buf'[i]) == Core(buf[i]);
      ViewHit(buf, nbuf, disk, i);
      ViewHit(buf', nbuf, disk', i);
    } else {
      assert forall i :: 0 <= i < nbuf && i != b ==> Core(buf'[i]) == Core(buf[i]);
      if Holds(buf[b], n) { ViewHit(buf, nbuf, disk, b); } else { ViewMiss(buf, nbuf, disk, n); }
      if Holds(buf'[b], n) { ViewHit(buf', nbuf, disk', b); } else { ViewMiss(buf', nbuf, disk', n); }
    }
  }

  /** A buffer as bget hands it out: one more reference, or recycled for the key. */
  function Taken(b: Buf, dev: nat, blockno: nat): Buf {
    if Key(b, dev, blockno) then b.(refcnt := b.refcnt + 1)
    else b.(dev := dev, blockno := blockno, valid := false, dirty := false, refcnt := 1)
  }

  lemma TakenKeepsView(buf: seq<Buf>, nbuf: nat, disk: seq<Block>, b: nat, dev: nat, blockno: nat)
    requires Coherent(buf, nbuf, disk) && b < nbuf
    requires Key(buf[b], dev, blockno)
             || (Recyclable(buf[b]) && forall i :: 0 <= i < nbuf ==> !Key(buf[i], dev, blockno))
    ensures var buf' := buf[b := Taken(buf[b], dev, blockno)];
            Coherent(buf', nbuf, disk) && ViewOf(buf', nbuf, disk) == ViewOf(buf, nbuf, disk)
  {
    var buf' := buf[b := Taken(buf[b], dev, blockno)];
    assert BufOk(buf[b], disk);
    forall i, j | 0 <= i < j < nbuf && Key(buf'[j], buf'[i].dev, buf'[i].blockno) ensures Key(buf'[i], 0, 0) {
      assert i != b && j != b ==> Key(buf[j], buf[i].dev, buf[i].blockno);
    }
    forall n | 0 <= n < |disk| ensures ViewOf(buf', nbuf, disk)[n] == ViewOf(buf, nbuf, disk)[n] {
      ViewUpdate(buf, buf', nbuf, disk, disk, b, n);
    }
  }

  /** Replacing one buffer's record, keeping its key and links. */
  lemma SetKeeps(buf: seq<Buf>, nbuf: nat, order: seq<nat>, disk: seq<Block>, disk': seq<Block>, b: nat, x: Buf)
    requires Coherent(buf, nbuf, disk) && |buf| == nbuf + 1 && b < nbuf && Ring(buf, nbuf, order)
    requires x.prev == buf[b].prev && x.next == buf[b].next && Key(x, buf[b].dev, buf[b].blockno)
    requires BufOk(x, disk') && |disk'| == |disk|
    requires forall n :: 0 <= n < |disk| && !(Key(x, 1, n) && x.valid) ==> disk'[n] == disk[n]
    requires forall n :: 0 <= n < |disk| ==>
      (if Holds(buf[b], n) then buf[b].data else disk[n]) == if Holds(x, n) then x.data else disk'[n]
    ensures Ring(buf[b := x], nbuf, order) && Coherent(buf[b := x], nbuf, disk')
    ensures ViewOf(buf[b := x], nbuf, disk') == ViewOf(buf, nbuf, disk)
  {
    var buf' := buf[b := x];
    RingFrame(buf, buf', nbuf, order);
    forall i, j | 0 <= i < j < nbuf && Key(buf'[j], buf'[i].dev, buf'[i].blockno) ensures Key(buf'[i], 0, 0) {
      assert Key(buf[j], buf[i].dev, buf[i].blockno);
    }
    forall i | 0 <= i < nbuf ensures BufOk(buf'[i], disk') {
      assert BufOk(buf[i], disk);
      assert i != b && buf[i].valid && x.valid ==> buf[i].blockno != x.blockno by {
        assert Key(buf[b], buf[i].dev, buf[i].blockno) ==> Key(buf[i], buf[b].dev, buf[b].blockno);
      }
    }
    forall n | 0 <= n < |disk| ensures ViewOf(buf', nbuf, disk')[n] == ViewOf(buf, nbuf, disk)[n] {
      ViewUpdate(buf, buf', nbuf, disk, disk', b, n);
    }
  }

  lemma PinKeeps(buf: seq<Buf>, nbuf: nat, order: seq<nat>, disk: seq<Block>, b: nat, data: Block)
    requires Coherent(buf, nbuf, disk) && |buf| == nbuf + 1 && b < nbuf && Ring(buf, nbuf, order)
    requires buf[b].valid
    ensures var buf' := buf[b := buf[b].(data := data, dirty := true)];
            && Ring(buf', nbuf, order) && Coherent(buf', nbuf, disk)
            && ViewOf(buf', nbuf, disk) == ViewOf(buf, nbuf, disk)[buf[b].blockno := data]
  {
    var buf' := buf[b := buf[b].(data := data, dirty := true)];
    assert BufOk(buf[b], disk);
    RingFrame(buf, buf', nbuf, order);
    forall i, j | 0 <= i < j < nbuf && Key(buf'[j], buf'[i].dev, buf'[i].blockno) ensures Key(buf'[i], 0, 0) {
      assert Key(buf[j], buf[i].dev, buf[i].blockno);
    }
    forall n | 0 <= n < |disk|
      ensures ViewOf(buf', nbuf, disk)[n] == ViewOf(buf, nbuf, disk)[buf[b].blockno := data][n]
    {
      if n == buf[b].blockno {
        ViewHit(buf', nbuf, disk, b);
      } else {
        ViewUpdate(buf, buf', nbuf, disk, disk, b, n);
      }
    }
  }

  /** Relinking alone changes neither coherence nor the view. */
  lemma CoreView(buf: seq<Buf>, buf': seq<Buf>, nbuf: nat, disk: seq<Block>)
    requires Coherent(buf, nbuf, disk) && |buf'| == |buf|
    requires forall i :: 0 <= i < nbuf ==> Core(buf'[i]) == Core(buf[i])
    ensures Coherent(buf', nbuf, disk) && ViewOf(buf', nbuf, disk) == ViewOf(buf, nbuf, disk)
  {}

  lemma StillListed(order: seq<nat>, order': seq<nat>, b: nat, nbuf: nat)
    requires exists k :: 0 <= k < |order| && order[k] == b && order' == [b] + Without(order, k)
    requires forall i :: 0 <= i < nbuf ==> i in order
    ensures forall i :: 0 <= i < nbuf ==> i in order'
  {
    var k :| 0 <= k < |order| && order[k] == b && order' == [b] + Without(order, k);
    forall i | 0 <= i < nbuf ensures i in order' {
      assert i in order;
      var j :| 0 <= j < |order| && order[j] == i;
      if j < k { assert order'[j + 1] == i; } else { assert order'[j] == i || j == k; }
    }
  }

  // ---------------------------------------------------------------- buffers to spare

  /** A buffer bget may recycle. */
  ghost predicate Spare(buf: seq<Buf>, nbuf: nat) {
    nbuf <= |buf| && exists i :: 0 <= i < nbuf && Recyclable(buf[i])
  }

  /** Nobody has the block's buffer locked. */
  ghost predicate Unheld(buf: seq<Buf>, nbuf: nat, n: nat) {
    nbuf <= |buf| && forall i :: 0 <= i < nbuf && Key(buf[i], 1, n) ==> !buf[i].locked
  }

  /** The blocks whose buffers B_DIRTY pins. */
  ghost function Dirty(buf: seq<Buf>, nbuf: nat): set<nat> {
    if nbuf == 0 || nbuf > |buf| then {}
    else Dirty(buf, nbuf - 1) + if buf[nbuf - 1].dirty then {buf[nbuf - 1].blockno} else {}
  }

  ghost function CountDirty(buf: seq<Buf>, nbuf: nat): nat
    requires nbuf <= |buf|
  {
    if nbuf == 0 then 0 else CountDirty(buf, nbuf - 1) + if buf[nbuf - 1].dirty then 1 else 0
  }

  /** How many buffers somebody has a reference to. */
  ghost function CountHeld(buf: seq<Buf>, nbuf: nat): nat
    requires nbuf <= |buf|
  {
    if nbuf == 0 then 0 else CountHeld(buf, nbuf - 1) + if buf[nbuf - 1].refcnt > 0 then 1 else 0
  }

  lemma {:induction false} DirtyHas(buf: seq<Buf>, nbuf: nat, n: nat)
    requires nbuf <= |buf|
    ensures n in Dirty(buf, nbuf) <==> exists i :: 0 <= i < nbuf && buf[i].dirty && buf[i].blockno == n
  {
    if nbuf > 0 {
      DirtyHas(buf, nbuf - 1, n);
      if n in Dirty(buf, nbuf) && n !in Dirty(buf, nbuf - 1) { assert buf[nbuf - 1].dirty; }
    }
  }

  lemma DirtyOnce(buf: seq<Buf>, i: nat, disk: seq<Block>)
    requires Coherent(buf, i + 1, disk)
    ensures buf[i].dirty ==> buf[i].blockno !in Dirty(buf, i)
  {
    hide Dirty;
    DirtyHas(buf, i, buf[i].blockno);
    assert forall j :: 0 <= j <= i ==> BufOk(buf[j], disk);
  }

  lemma CoherentFront(buf: seq<Buf>, nbuf: nat, disk: seq<Block>)
    requires Coherent(buf, nbuf, disk) && nbuf > 0
    ensures nbuf <= |buf| && Coherent(buf, nbuf - 1, disk)
  {}

  /** As many pinned blocks as dirty buffers, because no block has two buffers. */
  lemma {:induction false} DirtyCounts(buf: seq<Buf>, nbuf: nat, disk: seq<Block>)
    requires Coherent(buf, nbuf, disk)
    ensures |Dirty(buf, nbuf)| == CountDirty(buf, nbuf)
  {
    hide Coherent;
    if nbuf == 0 {
      assert Dirty(buf, nbuf) == {};
    } else {
      CoherentFront(buf, nbuf, disk);
      DirtyCounts(buf, nbuf - 1, disk);
      DirtyOnce(buf, nbuf - 1, disk);
    }
  }

  lemma {:induction false} NoneSpare(buf: seq<Buf>, nbuf: nat)
    requires nbuf <= |buf| && forall i :: 0 <= i < nbuf ==> !Recyclable(buf[i])
    ensures nbuf <= CountDirty(buf, nbuf) + CountHeld(buf, nbuf)
  {
    if nbuf > 0 { NoneSpare(buf, nbuf - 1); }
  }

  /** Fewer pinned blocks and referenced buffers than buffers: one can be recycled. */
  lemma SpareBuffer(buf: seq<Buf>, nbuf: nat, disk: seq<Block>)
    requires Coherent(buf, nbuf, disk) && |Dirty(buf, nbuf)| + CountHeld(buf, nbuf) < nbuf
    ensures Spare(buf, nbuf)
  {
    DirtyCounts(buf, nbuf, disk);
    if !Spare(buf, nbuf) { NoneSpare(buf, nbuf); }
  }

  lemma {:induction false} CleanOnes(buf: seq<Buf>, nbuf: nat, r: nat, i: nat)
    requires nbuf <= |buf| && r < |buf| && i < |buf| && r != i && !buf[r].dirty && !buf[i].dirty
    ensures CountDirty(buf, nbuf) <= nbuf - (if r < nbuf then 1 else 0) - (if i < nbuf then 1 else 0)
  {
    if nbuf > 0 { CleanOnes(buf, nbuf - 1, r, i); }
  }

  /** One reader is enough to take the last one: with a block pinned in every other buffer, a
      reader's reference to the clean one leaves nothing to recycle. */
  lemma ReaderTakesLast(buf: seq<Buf>, nbuf: nat, disk: seq<Block>, r: nat)
    requires Coherent(buf, nbuf, disk) && |Dirty(buf, nbuf)| == nbuf - 1 && r < nbuf
    requires buf[r].refcnt > 0 && !buf[r].dirty
    ensures !Spare(buf, nbuf)
  {
    DirtyCounts(buf, nbuf, disk);
    forall i | 0 <= i < nbuf ensures !Recyclable(buf[i]) {
      if i != r && !buf[i].dirty { CleanOnes(buf, nbuf, r, i); }
    }
  }

  // ---------------------------------------------------------------- what a user of buffers leaves

  /** A buffer after somebody has used it for a while and let it go: references and locks are as
      before, a clean unused buffer is still one, and only such a buffer may hold another block. */
  predicate Eases(o: Buf, n: Buf) {
    && n.refcnt == o.refcnt && n.locked == o.locked
    && (Recyclable(o) ==> Recyclable(n))
    && (Key(n, o.dev, o.blockno) || (o.refcnt == 0 && !n.dirty))
  }

  ghost predicate Eased(buf: seq<Buf>, buf': seq<Buf>, nbuf: nat) {
    |buf| == |buf'| && nbuf <= |buf| && forall i :: 0 <= i < nbuf ==> Eases(buf[i], buf'[i])
  }

  lemma EasedKeeps(buf: seq<Buf>, buf': seq<Buf>, nbuf: nat, disk: seq<Block>, n: nat)
    requires Eased(buf, buf', nbuf) && Coherent(buf, nbuf, disk)
    ensures Spare(buf, nbuf) ==> Spare(buf', nbuf)
    ensures Unheld(buf, nbuf, n) ==> Unheld(buf', nbuf, n)
  {
    if Spare(buf, nbuf) {
      var i :| 0 <= i < nbuf && Recyclable(buf[i]);
      assert Eases(buf[i], buf'[i]);
    }
    forall i | 0 <= i < nbuf && Key(buf'[i], 1, n) && Unheld(buf, nbuf, n) ensures !buf'[i].locked {
      assert Eases(buf[i], buf'[i]) && BufOk(buf[i], disk);
    }
  }

  /** What bread makes of buffer o when it takes it for block n. */
  predicate Grabs(o: Buf, g: Buf, n: nat) {
    && !o.locked && (Key(o, 1, n) || Recyclable(o)) && Key(g, 1, n)
    && g.refcnt == (if Key(o, 1, n) then o.refcnt else 0) + 1 && (g.dirty ==> o.dirty)
  }

  /** What brelse leaves of buffer g. */
  predicate LetsGo(g: Buf, n: Buf) {
    && n.refcnt == g.refcnt - 1 && !n.locked && n.dirty == g.dirty && Key(n, g.dev, g.blockno)
  }

  lemma GrabAndLetGo(o: Buf, g: Buf, x: Buf, n: nat)
    requires Grabs(o, g, n) && LetsGo(g, x)
    ensures Eases(o, x)
  {}

  /** One buffer changes, and with it at most the pin of its block. */
  lemma DirtyChange(buf: seq<Buf>, buf': seq<Buf>, nbuf: nat, disk: seq<Block>, b: nat)
    requires Coherent(buf, nbuf, disk) && nbuf <= |buf'| && b < nbuf
    requires forall i :: 0 <= i < nbuf && i != b ==> buf'[i].dirty == buf[i].dirty && buf'[i].blockno == buf[i].blockno
    requires buf[b].dirty ==> buf'[b].blockno == buf[b].blockno
    ensures Dirty(buf', nbuf) ==
      if buf'[b].dirty then Dirty(buf, nbuf) + {buf'[b].blockno}
      else if buf[b].dirty then Dirty(buf, nbuf) - {buf[b].blockno}
      else Dirty(buf, nbuf)
    ensures buf[b].dirty ==> buf[b].blockno in Dirty(buf, nbuf)
  {
    DirtyHas(buf, nbuf, buf[b].blockno);
    forall n: nat
      ensures n in Dirty(buf', nbuf) <==>
        (buf'[b].dirty && n == buf'[b].blockno) || (n in Dirty(buf, nbuf) && !(buf[b].dirty && buf[b].blockno == n))
    {
      DirtyHas(buf, nbuf, n);
      DirtyHas(buf', nbuf, n);
      assert forall i :: 0 <= i < nbuf ==> BufOk(buf[i], disk);
      if n in Dirty(buf, nbuf) {
        var i :| 0 <= i < nbuf && buf[i].dirty && buf[i].blockno == n;
        assert i != b ==> buf'[i].dirty && buf'[i].blockno == n;
      }
    }
  }

  lemma {:induction false} DirtySame(buf: seq<Buf>, buf': seq<Buf>, nbuf: nat)
    requires nbuf <= |buf| && nbuf <= |buf'|
    requires forall i :: 0 <= i < nbuf ==> buf'[i].dirty == buf[i].dirty && buf'[i].blockno == buf[i].blockno
    ensures Dirty(buf', nbuf) == Dirty(buf, nbuf)
  {
    if nbuf > 0 { DirtySame(buf, buf', nbuf - 1); }
  }

  lemma BreadFacts(buf: seq<Buf>, nbuf: nat, disk: seq<Block>, b: nat, blockno: nat)
    requires Coherent(buf, nbuf, disk) && b < nbuf
    requires Key(buf[b], 1, blockno) || (Recyclable(buf[b]) && forall i :: 0 <= i < nbuf ==> !Key(buf[i], 1, blockno))
    ensures Unheld(buf, nbuf, blockno) <==> !buf[b].locked
    ensures Recyclable(buf[b]) ==> Spare(buf, nbuf)
  {
    assert BufOk(buf[b], disk);
    forall i | 0 <= i < nbuf && Key(buf[i], 1, blockno) && Key(buf[b], 1, blockno)
      ensures i == b
    {
      OneHolder(buf, nbuf, i, b, blockno);
    }
  }

  class Cache {
    const nbuf: nat
    var buf: seq<Buf>          // bcache.buf[0..NBUF], then bcache.head
    var disk: seq<Block>       // memdisk
    ghost var order: seq<nat>  // most recently released first
    ghost var trace: seq<Write>
    ghost var view: seq<Block> // the blocks as their readers see them

    ghost predicate Valid()
      reads this
      ensures Valid() ==> |view| == |disk| && |buf| == nbuf + 1
    {
      && |buf| == nbuf + 1
      && Ring(buf, nbuf, order)
      && (forall i :: 0 <= i < nbuf ==> i in order)
      && Coherent(buf, nbuf, disk)
      && view == ViewOf(buf, nbuf, disk)
    }

    /** binit */
    constructor (n: nat, memdisk: seq<Block>)
      ensures Valid() && nbuf == n && disk == memdisk && view == memdisk && trace == []
      ensures |order| == n && forall i :: 0 <= i < n ==> order[i] == n - 1 - i
      ensures forall i :: 0 <= i < n ==> Recyclable(buf[i]) && !buf[i].locked
    {
      nbuf := n;
      disk := memdisk;
      trace := [];
      view := memdisk;
      order := [];
      buf := seq(n + 1, _ => Buf(false, false, 0, 0, false, 0, n, n, []));
      new;
      var b := 0;
      while b < nbuf
        invariant 0 <= b <= nbuf == n && |buf| == nbuf + 1 && disk == memdisk == view && trace == []
        invariant Ring(buf, nbuf, order)
        invariant |order| == b && forall i :: 0 <= i < b ==> order[i] == b - 1 - i
        invariant forall i :: 0 <= i < nbuf ==> Core(buf[i]) == Buf(false, false, 0, 0, false, 0, 0, 0, [])
      {
        PushFront(b);
        b := b + 1;
      }
      forall i | 0 <= i < nbuf ensures i in order { assert order[nbuf - 1 - i] == i; }
      forall i | 0 <= i < nbuf
        ensures BufOk(buf[i], disk) && Key(buf[i], 0, 0) && Recyclable(buf[i]) && !buf[i].locked
      {
        assert Core(buf[i]) == Buf(false, false, 0, 0, false, 0, 0, 0, []);
      }
      assert view == ViewOf(buf, nbuf, disk);
    }

    /** Link b in after bcache.head: the four assignments shared by binit and brelse. */
    method PushFront(b: nat)
      requires |buf| == nbuf + 1 && b < nbuf && Ring(buf, nbuf, order) && b !in order
      modifies this`buf, this`order
      ensures order == [b] + old(order) && |buf| == nbuf + 1 && Ring(buf, nbuf, order)
      ensures forall i :: 0 <= i <= nbuf ==> Core(buf[i]) == Core(old(buf[i]))
    {
      PushRing(buf, nbuf, order, b);
      var f := buf[nbuf].next;
      buf := SetNext(buf, b, f);
      buf := SetPrev(buf, b, nbuf);
      buf := SetPrev(buf, f, b);
      buf := SetNext(buf, nbuf, b);
      order := [b] + order;
    }

    /** The lookup loop of bget, from the most recently used buffer on. */
    method Lookup(dev: nat, blockno: nat) returns (b: nat)
      requires Valid()
      ensures b <= nbuf && (b < nbuf ==> Key(buf[b], dev, blockno))
      ensures b == nbuf ==> forall i :: 0 <= i < nbuf ==> !Key(buf[i], dev, blockno)
    {
      b := buf[nbuf].next;
      ghost var k := 0;
      while b != nbuf
        invariant 0 <= k <= |order| && b == if k < |order| then order[k] else nbuf
        invariant forall j :: 0 <= j < k ==> !Key(buf[order[j]], dev, blockno)
        decreases |order| - k
      {
        RingAt(buf, nbuf, order, k);
        if Key(buf[b], dev, blockno) { return; }
        b := buf[b].next;
        k := k + 1;
      }
      forall i | 0 <= i < nbuf ensures !Key(buf[i], dev, blockno) {
        assert i in order;
      }
    }

    /** The recycling loop of bget, from the least recently used buffer back. */
    method Victim() returns (b: nat, ghost k: nat)
      requires Valid()
      ensures b <= nbuf
      ensures b < nbuf ==> k < |order| && order[k] == b && Recyclable(buf[b])
                           && forall j :: k < j < |order| ==> !Recyclable(buf[order[j]])
      ensures b == nbuf ==> forall i :: 0 <= i < nbuf ==> !Recyclable(buf[i])
    {
      b := buf[nbuf].prev;
      k := |order|;
      while b != nbuf
        invariant 0 <= k <= |order| && b == if 0 < k then order[k - 1] else nbuf
        invariant forall j :: k <= j < |order| ==> !Recyclable(buf[order[j]])
        decreases k
      {
        k := k - 1;
        RingAt(buf, nbuf, order, k);
        if Recyclable(buf[b]) { return; }
        b := buf[b].prev;
      }
      forall i | 0 <= i < nbuf ensures !Recyclable(buf[i]) {
        assert i in order;
      }
    }

    /** bget under bcache.lock: the buffer holding the key if there is one, else the least
        recently used clean unreferenced buffer; None is the "no buffers" panic. No block's
        view changes, because a recycled buffer was clean and the new one is not valid yet. */
    method Bget(dev: nat, blockno: nat) returns (r: Option<nat>)
      requires Valid()
      modifies this`buf
      ensures Valid()
      ensures r.None? <==> (forall i :: 0 <= i < nbuf ==> !Key(old(buf[i]), dev, blockno) && !Recyclable(old(buf[i])))
      ensures r.None? ==> buf == old(buf)
      ensures r.Some? ==>
        && r.value < nbuf && Key(buf[r.value], dev, blockno)
        && buf == old(buf)[r.value := Taken(old(buf)[r.value], dev, blockno)]
      ensures r.Some? && !Key(old(buf)[r.value], dev, blockno) ==>
        && (forall i :: 0 <= i < nbuf ==> !Key(old(buf[i]), dev, blockno))
        && exists k :: 0 <= k < |order| && order[k] == r.value && Recyclable(old(buf)[r.value])
                       && forall j :: k < j < |order| ==> !Recyclable(old(buf)[order[j]])
    {
      ghost var buf0 := buf;
      var b := Lookup(dev, blockno);
      if b == nbuf {
        ghost var k;
        b, k := Victim();
        if b == nbuf { return None; }
        assert order[k] == b;
      }
      TakenKeepsView(buf, nbuf, disk, b, dev, blockno);
      buf := buf[b := Taken(buf[b], dev, blockno)];
      RingFrame(buf0, buf, nbuf, order);
      return Some(b);
    }

    /** acquiresleep(&b->lock): false when another process holds it, and the caller sleeps. */
    method Lock(b: nat) returns (ok: bool)
      requires Valid() && b < nbuf && buf[b].refcnt > 0
      modifies this`buf
      ensures Valid()
      ensures ok == !old(buf)[b].locked
      ensures buf == if ok then old(buf)[b := old(buf)[b].(locked := true)] else old(buf)
    {
      ok := !buf[b].locked;
      if ok {
        SetKeeps(buf, nbuf, order, disk, disk, b, buf[b].(locked := true));
        buf := buf[b := buf[b].(locked := true)];
      }
    }

    /** iderw on the memory disk; false stands for its four panics. A dirty buffer goes to
        disk, any other is filled from it; either way nobody's view changes. */
    method Iderw(b: nat) returns (ok: bool)
      requires Valid() && b < nbuf
      modifies this`buf, this`disk, this`trace
      ensures Valid() && |disk| == |old(disk)|
      ensures var o := old(buf)[b];
        && (ok <==> o.locked && !(o.valid && !o.dirty) && o.dev == 1 && o.blockno < |disk|)
        && (!ok ==> buf == old(buf) && disk == old(disk) && trace == old(trace))
        && (ok && o.dirty ==>
              && disk == old(disk)[o.blockno := o.data]
              && trace == old(trace) + [Write(o.blockno, o.data)]
              && buf == old(buf)[b := o.(dirty := false, valid := true)])
        && (ok && !o.dirty ==>
              && disk == old(disk) && trace == old(trace)
              && buf == old(buf)[b := o.(data := disk[o.blockno], valid := true)])
    {
      var o := buf[b];
      if !o.locked || (o.valid && !o.dirty) || o.dev != 1 || o.blockno >= |disk| { return false; }
      assert BufOk(o, disk);
      if o.dirty {
        var disk' := disk[o.blockno := o.data];
        SetKeeps(buf, nbuf, order, disk, disk', b, o.(dirty := false, valid := true));
        disk := disk';
        trace := trace + [Write(o.blockno, o.data)];
        buf := buf[b := o.(dirty := false, valid := true)];
      } else {
        SetKeeps(buf, nbuf, order, disk, disk, b, o.(data := disk[o.blockno], valid := true));
        buf := buf[b := o.(data := disk[o.blockno], valid := true)];
      }
      return true;
    }

    /** The rest of bread once bget has a reference to b: wait for the lock, then read the disk
        if the buffer is not valid. A process that must wait goes on here when it is woken. */
    method Resume(b: nat, blockno: nat) returns (r: Attempt)
      requires Valid() && b < nbuf && buf[b].refcnt > 0 && Key(buf[b], 1, blockno)
      modifies this`buf, this`disk, this`trace
      ensures Valid() && disk == old(disk) && trace == old(trace)
      ensures r == if old(buf)[b].locked then Waits(b) else if blockno < |disk| then Ready(b) else Stopped
      ensures r.Waits? ==> buf == old(buf)
      ensures forall i :: 0 <= i < nbuf && i != b ==> buf[i] == old(buf)[i]
      ensures r.Ready? ==>
        && buf[b].locked && Holds(buf[b], blockno) && buf[b].data == view[blockno]
        && buf[b].refcnt == old(buf)[b].refcnt && buf[b].dirty == old(buf)[b].dirty
    {
      hide Ring, UniqueKeys, ViewOf;
      assert BufOk(buf[b], disk);
      var ok := Lock(b);
      if !ok { return Waits(b); }
      if !buf[b].valid {
        assert BufOk(buf[b], disk);
        ok := Iderw(b);
        if !ok { return Stopped; }
      }
      assert BufOk(buf[b], disk);
      ViewHit(buf, nbuf, disk, b);
      return Ready(b);
    }

    /** bread: a locked buffer with the latest contents of the block, whoever wrote them last. It
        waits exactly while another process has the block's buffer locked, keeping the reference
        it has taken; it panics exactly if nothing can be recycled or there is no such block. */
    method Bread(blockno: nat) returns (r: Attempt)
      requires Valid()
      modifies this`buf, this`disk, this`trace
      ensures Valid() && disk == old(disk) && trace == old(trace)
      ensures r.Ready? ==>
        && blockno < |disk| && r.b < nbuf
        && buf[r.b].locked && Holds(buf[r.b], blockno) && buf[r.b].data == view[blockno]
        && (forall i :: 0 <= i < nbuf && i != r.b ==> buf[i] == old(buf)[i])
        && Grabs(old(buf)[r.b], buf[r.b], blockno) && Dirty(buf, nbuf) == old(Dirty(buf, nbuf))
        && (Key(old(buf)[r.b], 1, blockno) || forall i :: 0 <= i < nbuf ==> !Key(old(buf)[i], 1, blockno))
      ensures r.Waits? <==> !old(Unheld(buf, nbuf, blockno))
      ensures r.Waits? ==>
        && r.b < nbuf && Key(old(buf)[r.b], 1, blockno) && old(buf)[r.b].locked
        && buf == old(buf)[r.b := old(buf)[r.b].(refcnt := old(buf)[r.b].refcnt + 1)]
      ensures r.Stopped? <==>
        && old(Unheld(buf, nbuf, blockno))
        && (blockno >= |disk|
            || (!old(Spare(buf, nbuf)) && forall i :: 0 <= i < nbuf ==> !Key(old(buf)[i], 1, blockno)))
    {
      hide Ring, UniqueKeys, ViewOf, Coherent, Dirty;
      ghost var buf0, disk0 := buf, disk;
      var got := Bget(1, blockno);
      if got.None? { return Stopped; }
      var b := got.value;
      ghost var buf1 := buf;
      BreadFacts(buf0, nbuf, disk0, b, blockno);
      r := Resume(b, blockno);
      if r.Ready? { DirtyChange(buf0, buf, nbuf, disk0, b); }
    }

    /** The caller's memmove into b->data with B_DIRTY set: the buffer is pinned and the view
        of its block becomes the new data. */
    method Modify(b: nat, data: Block)
      requires Valid() && b < nbuf && buf[b].locked && buf[b].valid
      modifies this`buf, this`view
      ensures Valid() && buf == old(buf)[b := old(buf)[b].(data := data, dirty := true)]
      ensures old(buf)[b].blockno < |disk| && view == old(view)[old(buf)[b].blockno := data]
      ensures Dirty(buf, nbuf) == old(Dirty(buf, nbuf)) + {old(buf)[b].blockno}
    {
      assert BufOk(buf[b], disk);
      PinKeeps(buf, nbuf, order, disk, b, data);
      DirtyChange(buf, buf[b := buf[b].(data := data, dirty := true)], nbuf, disk, b);
      buf := buf[b := buf[b].(data := data, dirty := true)];
      view := view[buf[b].blockno := data];
    }

    /** memmove then bwrite: one atomic disk write. */
    method Bwrite(b: nat, data: Block)
      requires Valid() && b < nbuf && buf[b].locked && buf[b].valid
      modifies this`buf, this`disk, this`trace, this`view
      ensures Valid() && old(buf)[b].blockno < |disk| && |disk| == |old(disk)|
      ensures disk == old(disk)[old(buf)[b].blockno := data]
      ensures view == old(view)[old(buf)[b].blockno := data]
      ensures trace == old(trace) + [Write(old(buf)[b].blockno, data)]
      ensures buf == old(buf)[b := old(buf)[b].(data := data, dirty := false)]
      ensures Dirty(buf, nbuf) == old(Dirty(buf, nbuf)) - {old(buf)[b].blockno}
    {
      hide Dirty;
      assert BufOk(buf[b], disk);
      Modify(b, data);
      ghost var buf1, disk1 := buf, disk;
      var ok := Iderw(b);
      DirtyChange(buf1, buf, nbuf, disk1, b);
    }

    /** The six assignments of brelse that move b to the front of the ring. */
    method MoveToFront(b: nat)
      requires |buf| == nbuf + 1 && b < nbuf && Ring(buf, nbuf, order) && b in order
      modifies this`buf, this`order
      ensures |buf| == nbuf + 1 && Ring(buf, nbuf, order)
      ensures forall i :: 0 <= i < nbuf ==> Core(buf[i]) == Core(old(buf)[i])
      ensures exists k :: 0 <= k < |old(order)| && old(order)[k] == b && order == [b] + Without(old(order), k)
    {
      hide Ring;
      ghost var k :| 0 <= k < |order| && order[k] == b;
      UnlinkRing(buf, nbuf, order, k);
      var n, p := buf[b].next, buf[b].prev;
      buf := SetPrev(buf, n, p);
      buf := SetNext(buf, p, n);
      order := Without(order, k);
      PushFront(b);
    }

    /** The first half of brelse: releasesleep. The caller's reference stays, so the buffer cannot
        be recycled yet, and a process waiting for it may lock it. */
    method Unlock(b: nat)
      requires Valid() && b < nbuf && buf[b].locked
      modifies this`buf
      ensures Valid() && Dirty(buf, nbuf) == old(Dirty(buf, nbuf))
      ensures forall i :: 0 <= i < nbuf && i != b ==> Core(buf[i]) == Core(old(buf)[i])
      ensures Core(buf[b]) == Core(old(buf)[b]).(locked := false) && buf[b].refcnt >= 1
    {
      hide Ring, UniqueKeys, ViewOf;
      assert BufOk(buf[b], disk);
      SetKeeps(buf, nbuf, order, disk, disk, b, buf[b].(locked := false));
      buf := buf[b := buf[b].(locked := false)];
      DirtySame(old(buf), buf, nbuf);
    }

    /** The second half, under bcache.lock: drop the reference and, if it was the last, make the
        buffer the most recently used. Whoever has locked it meanwhile has a reference too. */
    method Unref(b: nat)
      requires Valid() && b < nbuf && 1 <= buf[b].refcnt && (buf[b].locked ==> 2 <= buf[b].refcnt)
      modifies this`buf, this`order
      ensures Valid()
      ensures forall i :: 0 <= i < nbuf && i != b ==> Core(buf[i]) == Core(old(buf)[i])
      ensures Core(buf[b]) == Core(old(buf)[b]).(refcnt := old(buf)[b].refcnt - 1)
      ensures Dirty(buf, nbuf) == old(Dirty(buf, nbuf))
      ensures old(buf)[b].refcnt > 1 ==> order == old(order)
      ensures old(buf)[b].refcnt == 1 ==>
        exists k :: 0 <= k < |old(order)| && old(order)[k] == b && order == [b] + Without(old(order), k)
    {
      hide Ring, UniqueKeys, ViewOf;
      assert BufOk(buf[b], disk);
      SetKeeps(buf, nbuf, order, disk, disk, b, buf[b].(refcnt := buf[b].refcnt - 1));
      buf := buf[b := buf[b].(refcnt := buf[b].refcnt - 1)];
      if buf[b].refcnt == 0 {
        ghost var buf1, order1 := buf, order;
        assert b in order;
        MoveToFront(b);
        CoreView(buf1, buf, nbuf, disk);
        StillListed(order1, order, b, nbuf);
      }
      assert forall i :: 0 <= i < nbuf ==>
        Core(buf[i]).dirty == old(buf)[i].dirty && Core(buf[i]).blockno == old(buf)[i].blockno;
      DirtySame(old(buf), buf, nbuf);
    }

    /** brelse, when nobody else comes between its two halves. */
    method Brelse(b: nat)
      requires Valid() && b < nbuf && buf[b].locked
      modifies this`buf, this`order
      ensures Valid()
      ensures forall i :: 0 <= i < nbuf && i != b ==> Core(buf[i]) == Core(old(buf)[i])
      ensures Core(buf[b]) == Core(old(buf)[b]).(locked := false, refcnt := old(buf)[b].refcnt - 1)
      ensures Dirty(buf, nbuf) == old(Dirty(buf, nbuf))
      ensures old(buf)[b].refcnt > 1 ==> order == old(order)
      ensures old(buf)[b].refcnt == 1 ==>
        exists k :: 0 <= k < |old(order)| && old(order)[k] == b && order == [b] + Without(old(order), k)
    {
      hide Ring, UniqueKeys, ViewOf, Dirty;
      Unlock(b);
      Unref(b);
    }
  }
}
