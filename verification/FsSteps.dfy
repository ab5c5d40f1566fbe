/** What single steps of fs.c do to block ownership and file contents: giving a zeroed block to
    a slot, taking one back, and copying bytes into a data block. */
module FsSteps {
  import opened FsLayout

  type Owner = map<int, (nat, nat)>

  /** balloc of block b: its bit is set and its contents are zeroed. */
  function Alloced(sb: Super, blocks: seq<Block>, b: nat): (r: seq<Block>)
    requires Shape(sb, blocks) && b < sb.size && !Bit(sb, blocks, b)
    ensures |r| == |blocks| && Shape(sb, r)
  {
    Flipped(sb, blocks, b)[b := ZeroBlock()]
  }

  ghost predicate FsOk(sb: Super, blocks: seq<Block>, inos: seq<Inode>, owner: Owner) {
    SlotsOk(sb, blocks, inos, owner) && BitsFor(sb, blocks, owner.Keys)
  }

  /** A slot depends on the inode's own addresses and on its indirect block only. */
  lemma SlotFrame(blocks: seq<Block>, blocks': seq<Block>, ino: Inode, k: nat)
    requires |blocks| == |blocks'| && |ino.addrs| == NDIRECT + 1
    requires 0 < ino.addrs[NDIRECT] < |blocks| ==> blocks'[ino.addrs[NDIRECT]] == blocks[ino.addrs[NDIRECT]]
    ensures Slot(blocks', ino, k) == Slot(blocks, ino, k)
  {}

  /** The indirect block of an inode is owned by its slot 12. */
  lemma IndirectOwned(sb: Super, blocks: seq<Block>, inos: seq<Inode>, owner: Owner, i: nat)
    requires SlotsOk(sb, blocks, inos, owner) && i < |inos| && inos[i].addrs[NDIRECT] != 0
    ensures var a := inos[i].addrs[NDIRECT];
            a in owner && owner[a] == (i, NDIRECT) && sb.nmeta <= a < sb.size <= |blocks|
  {}

  lemma FreeIsUnowned(sb: Super, blocks: seq<Block>, owner: Owner, b: nat)
    requires Shape(sb, blocks) && BitsFor(sb, blocks, owner.Keys) && b < sb.size && !Bit(sb, blocks, b)
    ensures sb.nmeta <= b && b !in owner
    ensures forall a :: 0 <= a < |blocks| && a != b && a >= sb.nmeta ==> Alloced(sb, blocks, b)[a] == blocks[a]
  {}

  lemma AllocBits(sb: Super, blocks: seq<Block>, owner: Owner, b: nat, s: (nat, nat))
    requires Shape(sb, blocks) && BitsFor(sb, blocks, owner.Keys) && b < sb.size && !Bit(sb, blocks, b)
    ensures BitsFor(sb, Alloced(sb, blocks, b), owner[b := s].Keys)
  {
    hide Bit;
    FreeIsUnowned(sb, blocks, owner, b);
    forall c | 0 <= c < sb.size
      ensures Bit(sb, Alloced(sb, blocks, b), c) <==> c < sb.nmeta || c in owner[b := s].Keys
    {
      FlippedBits(sb, blocks, b, c);
      BitFrame(sb, Flipped(sb, blocks, b), Alloced(sb, blocks, b), c);
    }
  }

  /** Bits depend on the metadata blocks only. */
  lemma BitFrame(sb: Super, blocks: seq<Block>, blocks': seq<Block>, c: nat)
    requires Shape(sb, blocks) && Shape(sb, blocks') && |blocks| == |blocks'| && c < sb.size
    requires forall a :: 0 <= a < sb.nmeta ==> blocks'[a] == blocks[a]
    ensures Bit(sb, blocks', c) == Bit(sb, blocks, c)
  {}

  ghost predicate OneSlotChanged(blocks: seq<Block>, inos: seq<Inode>, blocks': seq<Block>, inos': seq<Inode>, i: nat,
                                 k: nat, b: int)
  {
    && |inos'| == |inos| && i < |inos|
    && forall j, l :: 0 <= j < |inos| && 0 <= l < NSLOTS ==>
         SlotAt(blocks', inos', j, l) == if j == i && l == k then b else SlotAt(blocks, inos, j, l)
  }

  /** Ownership after exactly one empty slot has been given block b. */
  lemma GiveSlot(sb: Super, blocks: seq<Block>, inos: seq<Inode>, owner: Owner, blocks': seq<Block>,
                 inos': seq<Inode>, i: nat, k: nat, b: nat)
    requires SlotsOk(sb, blocks, inos, owner) && Shape(sb, blocks') && k < NSLOTS
    requires OneSlotChanged(blocks, inos, blocks', inos', i, k, b) && SlotAt(blocks, inos, i, k) == 0
    requires forall j :: 0 <= j < |inos'| ==> |inos'[j].addrs| == NDIRECT + 1
    requires sb.nmeta <= b < sb.size && b !in owner && b != 0
    ensures SlotsOk(sb, blocks', inos', owner[b := (i, k)])
  {}

  /** bmap's direct case, and the allocation of an indirect block: entry k of addrs gets b. */
  lemma AttachDirect(sb: Super, blocks: seq<Block>, inos: seq<Inode>, owner: Owner, i: nat, k: nat, b: nat)
    requires FsOk(sb, blocks, inos, owner) && i < |inos| && k <= NDIRECT && inos[i].addrs[k] == 0
    requires b < sb.size && !Bit(sb, blocks, b)
    ensures var inos' := inos[i := inos[i].(addrs := inos[i].addrs[k := b])];
      && sb.nmeta <= b && b !in owner
      && FsOk(sb, Alloced(sb, blocks, b), inos', owner[b := (i, k)])
      && OneSlotChanged(blocks, inos, Alloced(sb, blocks, b), inos', i, k, b)
      && Grown(blocks, inos, owner, Alloced(sb, blocks, b), inos', owner[b := (i, k)], i)
  {
    hide Bit, Alloced;
    var blocks' := Alloced(sb, blocks, b);
    var inos' := inos[i := inos[i].(addrs := inos[i].addrs[k := b])];
    FreeIsUnowned(sb, blocks, owner, b);
    AllocBits(sb, blocks, owner, b, (i, k));
    assert blocks'[b] == ZeroBlock() by { AllocZero(sb, blocks, b); }
    forall j, l | 0 <= j < |inos| && 0 <= l < NSLOTS
      ensures SlotAt(blocks', inos', j, l) == if j == i && l == k then b else SlotAt(blocks, inos, j, l)
    {
      if inos[j].addrs[NDIRECT] != 0 { IndirectOwned(sb, blocks, inos, owner, j); }
      if j != i || k != NDIRECT {
        SlotFrame(blocks, blocks', inos'[j], l);
      }
    }
    GiveSlot(sb, blocks, inos, owner, blocks', inos', i, k, b);
    OneSlotGrows(sb, blocks, inos, owner, blocks', inos', i, k, b);
  }

  lemma AllocZero(sb: Super, blocks: seq<Block>, b: nat)
    requires Shape(sb, blocks) && b < sb.size && !Bit(sb, blocks, b)
    ensures Alloced(sb, blocks, b)[b] == ZeroBlock()
  {}

  /** bmap's indirect case: entry j of the indirect block gets b. */
  function Linked(sb: Super, blocks: seq<Block>, ind: nat, j: nat, b: nat): (r: seq<Block>)
    requires Shape(sb, blocks) && b < sb.size && !Bit(sb, blocks, b) && sb.nmeta <= ind < |blocks| && j < NINDIRECT
    ensures |r| == |blocks| && Shape(sb, r)
  {
    var bl := Alloced(sb, blocks, b);
    bl[ind := PutU32(bl[ind], j, b)]
  }

  lemma AttachIndirect(sb: Super, blocks: seq<Block>, inos: seq<Inode>, owner: Owner, i: nat, j: nat, b: nat)
    requires FsOk(sb, blocks, inos, owner) && i < |inos| && j < NINDIRECT
    requires sb.nmeta <= inos[i].addrs[NDIRECT] < |blocks|
    requires SlotAt(blocks, inos, i, NDIRECT + 1 + j) == 0
    requires b < sb.size && !Bit(sb, blocks, b)
    ensures var ind, k := inos[i].addrs[NDIRECT], NDIRECT + 1 + j;
      && sb.nmeta <= b && b !in owner
      && FsOk(sb, Linked(sb, blocks, ind, j, b), inos, owner[b := (i, k)])
      && OneSlotChanged(blocks, inos, Linked(sb, blocks, ind, j, b), inos, i, k, b)
      && Grown(blocks, inos, owner, Linked(sb, blocks, ind, j, b), inos, owner[b := (i, k)], i)
  {
    hide Bit, Alloced, U32, PutU32;
    var ind, k := inos[i].addrs[NDIRECT], NDIRECT + 1 + j;
    var mid, blocks' := Alloced(sb, blocks, b), Linked(sb, blocks, ind, j, b);
    IndirectOwned(sb, blocks, inos, owner, i);
    FreeIsUnowned(sb, blocks, owner, b);
    AllocBits(sb, blocks, owner, b, (i, k));
    AllocZero(sb, blocks, b);
    forall c | 0 <= c < sb.size ensures Bit(sb, blocks', c) == Bit(sb, mid, c) { BitFrame(sb, mid, blocks', c); }
    forall m, l | 0 <= m < |inos| && 0 <= l < NSLOTS
      ensures SlotAt(blocks', inos, m, l) == if m == i && l == k then b else SlotAt(blocks, inos, m, l)
    {
      if inos[m].addrs[NDIRECT] != 0 { IndirectOwned(sb, blocks, inos, owner, m); }
      if m != i {
        SlotFrame(blocks, blocks', inos[m], l);
      } else if l > NDIRECT {
        GetPut(blocks[ind], j, b, l - NDIRECT - 1);
      }
    }
    GiveSlot(sb, blocks, inos, owner, blocks', inos, i, k, b);
    OneSlotGrows(sb, blocks, inos, owner, blocks', inos, i, k, b);
  }

  // ---------------------------------------------------------------- which blocks a file has

  /** Exactly the blocks below byte `e` are allocated, and the indirect block if one is needed. */
  ghost predicate Full(blocks: seq<Block>, ino: Inode, e: nat) {
    && e <= MAXFILE * BSIZE
    && (forall bn :: 0 <= bn < MAXFILE ==> (Slot(blocks, ino, SlotOf(bn)) != 0 <==> bn * BSIZE < e))
    && (Slot(blocks, ino, NDIRECT) != 0 <==> NDIRECT * BSIZE < e)
  }

  ghost predicate AllFull(blocks: seq<Block>, inos: seq<Inode>) {
    forall i :: 0 <= i < |inos| ==> Full(blocks, inos[i], inos[i].size)
  }

  /** No block is allocated at or past byte `e`; below it there may be holes. */
  ghost predicate Inside(blocks: seq<Block>, ino: Inode, e: nat) {
    && e <= MAXFILE * BSIZE
    && (forall bn :: 0 <= bn < MAXFILE && Slot(blocks, ino, SlotOf(bn)) != 0 ==> bn * BSIZE < e)
    && (Slot(blocks, ino, NDIRECT) != 0 ==> NDIRECT * BSIZE < e)
  }

  ghost predicate AllInside(blocks: seq<Block>, inos: seq<Inode>) {
    forall i :: 0 <= i < |inos| ==> Inside(blocks, inos[i], inos[i].size)
  }

  lemma FullIsInside(blocks: seq<Block>, inos: seq<Inode>)
    requires AllFull(blocks, inos)
    ensures AllInside(blocks, inos)
  {
    hide Slot;
    forall i | 0 <= i < |inos| ensures Inside(blocks, inos[i], inos[i].size) {
      assert Full(blocks, inos[i], inos[i].size);
    }
  }

  /** Allocation for inode i adds slots and disturbs nothing that was already there. */
  ghost predicate Grown(blocks: seq<Block>, inos: seq<Inode>, owner: Owner,
                        blocks': seq<Block>, inos': seq<Inode>, owner': Owner, i: nat) {
    && |inos'| == |inos| && |blocks'| == |blocks| && i < |inos|
    && (forall j :: 0 <= j < |inos| && j != i ==> inos'[j] == inos[j])
    && inos'[i] == inos[i].(addrs := inos'[i].addrs)
    && (forall j, l :: 0 <= j < |inos| && 0 <= l < NSLOTS && (j != i || SlotAt(blocks, inos, j, l) != 0) ==>
          SlotAt(blocks', inos', j, l) == SlotAt(blocks, inos, j, l))
    && (forall a :: a in owner && 0 <= a < |blocks| && owner[a].1 != NDIRECT ==>
          blocks'[a] == blocks[a] && a in owner' && owner'[a] == owner[a])
    && (forall l :: 0 <= l < NSLOTS && l != NDIRECT && SlotAt(blocks, inos, i, l) == 0 ==>
          BlankAt(blocks', SlotAt(blocks', inos', i, l)))
  }

  /** No block, or one full of zeros. */
  predicate BlankAt(blocks: seq<Block>, a: int) {
    a == 0 || (0 < a < |blocks| && blocks[a] == ZeroBlock())
  }

  lemma GrownTrans(sb: Super, b0: seq<Block>, n0: seq<Inode>, o0: Owner, b1: seq<Block>, n1: seq<Inode>, o1: Owner,
                   b2: seq<Block>, n2: seq<Inode>, o2: Owner, i: nat)
    requires Grown(b0, n0, o0, b1, n1, o1, i) && Grown(b1, n1, o1, b2, n2, o2, i) && SlotsOk(sb, b1, n1, o1)
    ensures Grown(b0, n0, o0, b2, n2, o2, i)
  {
    hide Slot;
    forall l | 0 <= l < NSLOTS && l != NDIRECT && SlotAt(b0, n0, i, l) == 0
      ensures BlankAt(b2, SlotAt(b2, n2, i, l))
    {
      var a := SlotAt(b1, n1, i, l);
      assert BlankAt(b1, a);
      if a != 0 { assert a in o1 && o1[a] == (i, l) && SlotAt(b2, n2, i, l) == a; }
    }
  }

  lemma OneSlotGrows(sb: Super, blocks: seq<Block>, inos: seq<Inode>, owner: Owner,
                     blocks': seq<Block>, inos': seq<Inode>, i: nat, k: nat, b: int)
    requires SlotsOk(sb, blocks, inos, owner) && |blocks'| == |blocks| && i < |inos| && k < NSLOTS && b !in owner
    requires OneSlotChanged(blocks, inos, blocks', inos', i, k, b) && SlotAt(blocks, inos, i, k) == 0
    requires forall j :: 0 <= j < |inos| && j != i ==> inos'[j] == inos[j]
    requires inos'[i] == inos[i].(addrs := inos'[i].addrs)
    requires forall a :: a in owner && owner[a].1 != NDIRECT ==> blocks'[a] == blocks[a]
    requires k != NDIRECT ==> BlankAt(blocks', b)
    ensures Grown(blocks, inos, owner, blocks', inos', owner[b := (i, k)], i)
  {}

  /** After file block bn, the next one, has been given a block. */
  lemma FullGrows(blocks: seq<Block>, inos: seq<Inode>, blocks': seq<Block>, inos': seq<Inode>, i: nat, bn: nat)
    requires |inos'| == |inos| && i < |inos| && bn < MAXFILE && Full(blocks, inos[i], bn * BSIZE)
    requires SlotAt(blocks', inos', i, SlotOf(bn)) != 0
    requires forall l :: 0 <= l < NSLOTS && l != SlotOf(bn) && l != NDIRECT ==>
      SlotAt(blocks', inos', i, l) == SlotAt(blocks, inos, i, l)
    requires SlotAt(blocks', inos', i, NDIRECT) != 0 <==> bn >= NDIRECT
    ensures Full(blocks', inos'[i], (bn + 1) * BSIZE)
  {
    hide Slot;
    forall n | 0 <= n < MAXFILE ensures Slot(blocks', inos'[i], SlotOf(n)) != 0 <==> n * BSIZE < (bn + 1) * BSIZE {
      if n != bn {
        assert SlotOf(n) != SlotOf(bn) && SlotOf(n) != NDIRECT;
        assert SlotAt(blocks', inos', i, SlotOf(n)) == SlotAt(blocks, inos, i, SlotOf(n));
      }
      assert Slot(blocks, inos[i], SlotOf(n)) != 0 <==> n * BSIZE < bn * BSIZE;
    }
  }

  // ---------------------------------------------------------------- what a file contains

  function ByteAt(blocks: seq<Block>, ino: Inode, x: nat): int {
    var a := Slot(blocks, ino, SlotOf(x / BSIZE));
    if 0 < a < |blocks| && |blocks[a]| == BSIZE then blocks[a][x % BSIZE] else 0
  }

  /** The first e bytes of a file; a hole reads as zeros. */
  function FileBytes(blocks: seq<Block>, ino: Inode, e: nat): (r: seq<int>)
    ensures |r| == e
  {
    seq(e, x requires 0 <= x < e => ByteAt(blocks, ino, x))
  }

  /** Writing data at offset o of a file's bytes, extending it where it runs past the end. */
  function Splice(s: seq<int>, o: nat, data: seq<int>): (r: seq<int>)
    requires o <= |s|
  {
    if o + |data| <= |s| then s[..o] + data + s[o + |data|..] else s[..o] + data
  }

  /** Growth changes no byte of any file: what fills a hole is zeroed first. */
  lemma GrownBytes(sb: Super, blocks: seq<Block>, inos: seq<Inode>, owner: Owner,
                   blocks': seq<Block>, inos': seq<Inode>, owner': Owner, i: nat, j: nat, e: nat)
    requires SlotsOk(sb, blocks, inos, owner) && Shape(sb, blocks')
    requires Grown(blocks, inos, owner, blocks', inos', owner', i) && j < |inos|
    ensures FileBytes(blocks', inos'[j], e) == FileBytes(blocks, inos[j], e)
  {
    hide U32;
    forall x | 0 <= x < e ensures ByteAt(blocks', inos'[j], x) == ByteAt(blocks, inos[j], x) {
      var l := SlotOf(x / BSIZE);
      if l < NSLOTS {
        hide Slot;
        var a := SlotAt(blocks, inos, j, l);
        if a != 0 {
          assert SlotAt(blocks', inos', j, l) == a;
          assert a in owner && owner[a] == (j, l) && l != NDIRECT;
        } else if j == i {
          assert BlankAt(blocks', SlotAt(blocks', inos', i, l));
        }
      }
    }
  }

  /** memmove(bp->data + o, data, |data|) on block a */
  function Stored(blocks: seq<Block>, a: nat, o: nat, data: seq<int>): (r: seq<Block>)
    requires a < |blocks| && |blocks[a]| == BSIZE && o + |data| <= BSIZE
    ensures |r| == |blocks|
  {
    blocks[a := blocks[a][..o] + data + blocks[a][o + |data|..]]
  }

  lemma StoredAt(blocks: seq<Block>, a: nat, o: nat, data: seq<int>)
    requires a < |blocks| && |blocks[a]| == BSIZE && o + |data| <= BSIZE
    ensures |Stored(blocks, a, o, data)[a]| == BSIZE
    ensures forall y {:trigger Stored(blocks, a, o, data)[a][y]} :: 0 <= y < BSIZE ==>
      Stored(blocks, a, o, data)[a][y] == if o <= y < o + |data| then data[y - o] else blocks[a][y]
    ensures forall c :: 0 <= c < |blocks| && c != a ==> Stored(blocks, a, o, data)[c] == blocks[c]
  {}

  /** Copying bytes into a file's data block keeps ownership and the free map, and changes
      exactly those bytes of that file. */
  lemma StoreStep(sb: Super, blocks: seq<Block>, inos: seq<Inode>, owner: Owner, i: nat, bn: nat, o: nat,
                  data: seq<int>)
    requires FsOk(sb, blocks, inos, owner) && i < |inos| && bn < MAXFILE
    requires SlotAt(blocks, inos, i, SlotOf(bn)) != 0 && o + |data| <= BSIZE
    ensures var a := SlotAt(blocks, inos, i, SlotOf(bn));
      && 0 <= a < |blocks| && |blocks[a]| == BSIZE
      && var blocks' := Stored(blocks, a, o, data);
         && FsOk(sb, blocks', inos, owner)
         && (forall j, l :: 0 <= j < |inos| && 0 <= l < NSLOTS ==>
               SlotAt(blocks', inos, j, l) == SlotAt(blocks, inos, j, l))
         && (forall j, x :: 0 <= j < |inos| && 0 <= x < MAXFILE * BSIZE ==>
               ByteAt(blocks', inos[j], x) ==
               if j == i && x / BSIZE == bn && o <= x % BSIZE < o + |data| then data[x % BSIZE - o]
               else ByteAt(blocks, inos[j], x))
  {
    hide Bit, U32, Stored;
    var a := SlotAt(blocks, inos, i, SlotOf(bn));
    assert a in owner && owner[a] == (i, SlotOf(bn));
    StoredAt(blocks, a, o, data);
    var blocks' := Stored(blocks, a, o, data);
    assert Shape(sb, blocks');
    forall c | 0 <= c < sb.size ensures Bit(sb, blocks', c) == Bit(sb, blocks, c) { BitFrame(sb, blocks, blocks', c); }
    forall j, l | 0 <= j < |inos| && 0 <= l < NSLOTS ensures SlotAt(blocks', inos, j, l) == SlotAt(blocks, inos, j, l) {
      if inos[j].addrs[NDIRECT] != 0 { IndirectOwned(sb, blocks, inos, owner, j); }
      SlotFrame(blocks, blocks', inos[j], l);
    }
    SameSlots(sb, blocks, inos, owner, blocks');
    forall j, x | 0 <= j < |inos| && 0 <= x < MAXFILE * BSIZE
      ensures ByteAt(blocks', inos[j], x) ==
              if j == i && x / BSIZE == bn && o <= x % BSIZE < o + |data| then data[x % BSIZE - o]
              else ByteAt(blocks, inos[j], x)
    {
      assert SlotAt(blocks', inos, j, SlotOf(x / BSIZE)) == SlotAt(blocks, inos, j, SlotOf(x / BSIZE));
      StoreByte(sb, blocks, inos, owner, i, bn, o, data, j, x);
    }
  }

  lemma SameSlots(sb: Super, blocks: seq<Block>, inos: seq<Inode>, owner: Owner, blocks': seq<Block>)
    requires SlotsOk(sb, blocks, inos, owner) && Shape(sb, blocks')
    requires forall j, l :: 0 <= j < |inos| && 0 <= l < NSLOTS ==>
      SlotAt(blocks', inos, j, l) == SlotAt(blocks, inos, j, l)
    ensures SlotsOk(sb, blocks', inos, owner)
  {}

  lemma StoreByte(sb: Super, blocks: seq<Block>, inos: seq<Inode>, owner: Owner, i: nat, bn: nat, o: nat,
                  data: seq<int>, j: nat, x: nat)
    requires SlotsOk(sb, blocks, inos, owner) && i < |inos| && bn < MAXFILE && j < |inos| && x < MAXFILE * BSIZE
    requires SlotAt(blocks, inos, i, SlotOf(bn)) != 0 && o + |data| <= BSIZE
    requires 0 <= SlotAt(blocks, inos, i, SlotOf(bn)) < |blocks|
    requires |blocks[SlotAt(blocks, inos, i, SlotOf(bn))]| == BSIZE
    ensures var blocks' := Stored(blocks, SlotAt(blocks, inos, i, SlotOf(bn)), o, data);
      Slot(blocks', inos[j], SlotOf(x / BSIZE)) == Slot(blocks, inos[j], SlotOf(x / BSIZE)) ==>
      ByteAt(blocks', inos[j], x) ==
      if j == i && x / BSIZE == bn && o <= x % BSIZE < o + |data| then data[x % BSIZE - o]
      else ByteAt(blocks, inos[j], x)
  {
    hide Slot, Stored;
    var a := SlotAt(blocks, inos, i, SlotOf(bn));
    StoredAt(blocks, a, o, data);
    var c := SlotAt(blocks, inos, j, SlotOf(x / BSIZE));
    if c == a {
      ReferencedOnce(sb, blocks, inos, owner, i, SlotOf(bn), j, SlotOf(x / BSIZE));
      assert x / BSIZE == bn;
    }
  }

  /** Two writes in a row are one write of the concatenation. */
  lemma SpliceSplice(s: seq<int>, o: nat, d1: seq<int>, d2: seq<int>)
    requires o <= |s|
    ensures o + |d1| <= |Splice(s, o, d1)|
    ensures Splice(Splice(s, o, d1), o + |d1|, d2) == Splice(s, o, d1 + d2)
  {}

  lemma {:induction false} SpliceNothing(s: seq<int>, o: nat)
    requires o <= |s|
    ensures Splice(s, o, []) == s
  {}

  lemma SameBlock(off: nat, t: nat)
    requires off % BSIZE + t < BSIZE
    ensures (off + t) / BSIZE == off / BSIZE && (off + t) % BSIZE == off % BSIZE + t
  {}

  /** Bytes of one block are consecutive bytes of the file. */
  lemma BlockBytes(blocks: seq<Block>, ino: Inode, e: nat, off: nat, m: nat)
    requires off % BSIZE + m <= BSIZE && off + m <= e
    requires 0 < Slot(blocks, ino, SlotOf(off / BSIZE)) < |blocks|
    requires |blocks[Slot(blocks, ino, SlotOf(off / BSIZE))]| == BSIZE
    ensures FileBytes(blocks, ino, e)[off..off + m]
            == blocks[Slot(blocks, ino, SlotOf(off / BSIZE))][off % BSIZE..off % BSIZE + m]
  {
    hide Slot;
    var a, o := Slot(blocks, ino, SlotOf(off / BSIZE)), off % BSIZE;
    var u, v := FileBytes(blocks, ino, e)[off..off + m], blocks[a][o..o + m];
    forall t | 0 <= t < m ensures u[t] == v[t] {
      SameBlock(off, t);
      assert u[t] == FileBytes(blocks, ino, e)[off + t];
    }
  }

  /** Storing data in block off/BSIZE of file i splices it into the file at off. */
  lemma StoreSplices(sb: Super, blocks: seq<Block>, inos: seq<Inode>, owner: Owner, i: nat, off: nat, data: seq<int>,
                     e: nat, e': nat)
    requires FsOk(sb, blocks, inos, owner) && i < |inos| && off + |data| <= MAXFILE * BSIZE && 0 < |data|
    requires SlotAt(blocks, inos, i, SlotOf(off / BSIZE)) != 0 && off % BSIZE + |data| <= BSIZE
    requires off <= e <= MAXFILE * BSIZE && e' == if off + |data| <= e then e else off + |data|
    ensures var a := SlotAt(blocks, inos, i, SlotOf(off / BSIZE));
      && 0 <= a < |blocks| && |blocks[a]| == BSIZE
      && FileBytes(Stored(blocks, a, off % BSIZE, data), inos[i], e')
         == Splice(FileBytes(blocks, inos[i], e), off, data)
  {
    hide Slot, Stored, FsOk;
    var bn, o := off / BSIZE, off % BSIZE;
    StoreStep(sb, blocks, inos, owner, i, bn, o, data);
    var blocks' := Stored(blocks, SlotAt(blocks, inos, i, SlotOf(bn)), o, data);
    var r := Splice(FileBytes(blocks, inos[i], e), off, data);
    forall x | 0 <= x < e' ensures FileBytes(blocks', inos[i], e')[x] == r[x] {
      assert off <= x < off + |data| <==> x / BSIZE == bn && o <= x % BSIZE < o + |data|;
      assert off <= x < off + |data| ==> x % BSIZE - o == x - off;
    }
  }

  ghost predicate SlotsStay(blocks: seq<Block>, inos: seq<Inode>, blocks': seq<Block>, inos': seq<Inode>, j: nat)
    requires j < |inos| == |inos'|
  {
    forall l :: 0 <= l < NSLOTS ==> SlotAt(blocks', inos', j, l) == SlotAt(blocks, inos, j, l)
  }

  /** The other files are untouched: same inode, same blocks, same bytes. */
  ghost predicate OthersSame(blocks: seq<Block>, inos: seq<Inode>, blocks': seq<Block>, inos': seq<Inode>, i: nat) {
    && |inos'| == |inos|
    && forall j :: 0 <= j < |inos| && j != i ==>
         && inos'[j] == inos[j] && SlotsStay(blocks, inos, blocks', inos', j)
         && FileBytes(blocks', inos'[j], inos[j].size) == FileBytes(blocks, inos[j], inos[j].size)
  }

  lemma SlotsGiveFull(blocks: seq<Block>, inos: seq<Inode>, blocks': seq<Block>, inos': seq<Inode>, j: nat, e: nat)
    requires j < |inos| == |inos'| && SlotsStay(blocks, inos, blocks', inos', j)
    ensures Full(blocks', inos'[j], e) <==> Full(blocks, inos[j], e)
    ensures Inside(blocks', inos'[j], e) <==> Inside(blocks, inos[j], e)
  {
    hide Slot;
    assert SlotAt(blocks', inos', j, NDIRECT) == SlotAt(blocks, inos, j, NDIRECT);
    forall bn | 0 <= bn < MAXFILE ensures Slot(blocks', inos'[j], SlotOf(bn)) == Slot(blocks, inos[j], SlotOf(bn)) {
      assert SlotAt(blocks', inos', j, SlotOf(bn)) == SlotAt(blocks, inos, j, SlotOf(bn));
    }
  }

  lemma GrownOthers(sb: Super, blocks: seq<Block>, inos: seq<Inode>, owner: Owner,
                    blocks': seq<Block>, inos': seq<Inode>, owner': Owner, i: nat)
    requires SlotsOk(sb, blocks, inos, owner) && Shape(sb, blocks')
    requires Grown(blocks, inos, owner, blocks', inos', owner', i)
    ensures OthersSame(blocks, inos, blocks', inos', i)
  {
    hide FileBytes, SlotsOk, Slot;
    forall j | 0 <= j < |inos| && j != i
      ensures FileBytes(blocks', inos'[j], inos[j].size) == FileBytes(blocks, inos[j], inos[j].size)
    {
      GrownBytes(sb, blocks, inos, owner, blocks', inos', owner', i, j, inos[j].size);
    }
  }

  lemma StoreOthers(sb: Super, blocks: seq<Block>, inos: seq<Inode>, owner: Owner, i: nat, bn: nat, o: nat,
                    data: seq<int>)
    requires FsOk(sb, blocks, inos, owner) && i < |inos| && bn < MAXFILE
    requires SlotAt(blocks, inos, i, SlotOf(bn)) != 0 && o + |data| <= BSIZE
    ensures var a := SlotAt(blocks, inos, i, SlotOf(bn));
      && 0 <= a < |blocks| && |blocks[a]| == BSIZE
      && var blocks' := Stored(blocks, a, o, data);
         && FsOk(sb, blocks', inos, owner) && OthersSame(blocks, inos, blocks', inos, i)
         && SlotsStay(blocks, inos, blocks', inos, i)
  {
    hide Slot, Stored, FsOk, U32;
    StoreStep(sb, blocks, inos, owner, i, bn, o, data);
    var blocks' := Stored(blocks, SlotAt(blocks, inos, i, SlotOf(bn)), o, data);
    forall j | 0 <= j < |inos| && j != i
      ensures FileBytes(blocks', inos[j], inos[j].size) == FileBytes(blocks, inos[j], inos[j].size)
    {
      forall x | 0 <= x < inos[j].size ensures ByteAt(blocks', inos[j], x) == ByteAt(blocks, inos[j], x) {
        if x >= MAXFILE * BSIZE { PastEnd(blocks, inos[j], x); PastEnd(blocks', inos[j], x); }
      }
    }
  }

  lemma PastEnd(blocks: seq<Block>, ino: Inode, x: nat)
    requires x >= MAXFILE * BSIZE
    ensures ByteAt(blocks, ino, x) == 0
  {
    assert x / BSIZE >= MAXFILE;
  }

  lemma OthersTrans(b0: seq<Block>, n0: seq<Inode>, b1: seq<Block>, n1: seq<Inode>, b2: seq<Block>, n2: seq<Inode>,
                    i: nat)
    requires OthersSame(b0, n0, b1, n1, i) && OthersSame(b1, n1, b2, n2, i)
    ensures OthersSame(b0, n0, b2, n2, i)
  {}

  // ---------------------------------------------------------------- the inode table

  /** A file system at rest: blocks owned once, the free map exact, no block past the end of its
      file, free inodes empty, and the inode table on disk equal to the one in memory. */
  ghost predicate Sound(sb: Super, blocks: seq<Block>, inos: seq<Inode>, owner: Owner) {
    && FsOk(sb, blocks, inos, owner) && AllInside(blocks, inos)
    && TableRoom(sb, |inos|) && inos == Table(sb, blocks, |inos|) && FreeEmpty(inos)
  }

  ghost predicate FreeEmpty(inos: seq<Inode>) {
    forall i :: 0 <= i < |inos| && inos[i].typ == 0 ==> inos[i].size == 0
  }

  /** Writing before the data area changes no file, and only the map looks past the table. */
  lemma MetaWrite(sb: Super, blocks: seq<Block>, inos: seq<Inode>, owner: Owner, blocks': seq<Block>)
    requires FsOk(sb, blocks, inos, owner) && Shape(sb, blocks') && |blocks'| == |blocks|
    requires forall x :: sb.bmapstart <= x < |blocks| ==> blocks'[x] == blocks[x]
    ensures FsOk(sb, blocks', inos, owner)
    ensures forall j :: 0 <= j < |inos| ==>
      && SlotsStay(blocks, inos, blocks', inos, j)
      && FileBytes(blocks', inos[j], inos[j].size) == FileBytes(blocks, inos[j], inos[j].size)
  {
    hide U32, FileBytes;
    forall c | 0 <= c < sb.size ensures Bit(sb, blocks', c) == Bit(sb, blocks, c) { MapFrame(sb, blocks, blocks', c); }
    forall j, l | 0 <= j < |inos| && 0 <= l < NSLOTS ensures SlotAt(blocks', inos, j, l) == SlotAt(blocks, inos, j, l) {
      if inos[j].addrs[NDIRECT] != 0 { IndirectOwned(sb, blocks, inos, owner, j); }
      SlotFrame(blocks, blocks', inos[j], l);
    }
    hide Bit, SlotAt;
    SameSlots(sb, blocks, inos, owner, blocks');
    forall j | 0 <= j < |inos|
      ensures FileBytes(blocks', inos[j], inos[j].size) == FileBytes(blocks, inos[j], inos[j].size)
    {
      SameBytes(sb, blocks, inos, owner, blocks', inos, j, inos[j].size);
    }
  }

  /** What holds of every file's slots still holds if they have not changed. */
  lemma AllStay(blocks: seq<Block>, inos: seq<Inode>, blocks': seq<Block>)
    requires forall j :: 0 <= j < |inos| ==> SlotsStay(blocks, inos, blocks', inos, j)
    ensures AllInside(blocks, inos) ==> AllInside(blocks', inos)
    ensures AllFull(blocks, inos) ==> AllFull(blocks', inos)
  {
    hide SlotsStay, Full, Inside;
    forall j | 0 <= j < |inos|
      ensures Inside(blocks', inos[j], inos[j].size) <==> Inside(blocks, inos[j], inos[j].size)
      ensures Full(blocks', inos[j], inos[j].size) <==> Full(blocks, inos[j], inos[j].size)
    {
      SlotsGiveFull(blocks, inos, blocks', inos, j, inos[j].size);
    }
  }

  /** Bits depend on the map blocks only. */
  lemma MapFrame(sb: Super, blocks: seq<Block>, blocks': seq<Block>, c: nat)
    requires Shape(sb, blocks) && Shape(sb, blocks') && |blocks| == |blocks'| && c < sb.size
    requires forall a :: sb.bmapstart <= a < sb.nmeta ==> blocks'[a] == blocks[a]
    ensures Bit(sb, blocks', c) == Bit(sb, blocks, c)
  {
    assert sb.bmapstart <= MapBlock(sb, c) < sb.nmeta;
  }

  /** Block numbers and sizes of an inode in use fit its record. */
  lemma OwnedFits(sb: Super, blocks: seq<Block>, inos: seq<Inode>, owner: Owner, i: nat)
    requires SlotsOk(sb, blocks, inos, owner) && i < |inos| && inos[i].size <= MAXFILE * BSIZE
    requires IsShort(inos[i].typ) && IsShort(inos[i].major) && IsShort(inos[i].minor) && IsShort(inos[i].nlink)
    ensures Fits(inos[i])
  {
    forall k | 0 <= k <= NDIRECT ensures 0 <= inos[i].addrs[k] < UINT {
      assert SlotAt(blocks, inos, i, k) == inos[i].addrs[k];
    }
  }

  // ---------------------------------------------------------------- giving blocks back

  /** The owners left when slots lo..hi of inode i are dropped. */
  ghost function Drop(owner: Owner, i: nat, lo: nat, hi: nat): Owner {
    map b | b in owner && !(owner[b].0 == i && lo <= owner[b].1 < hi) :: owner[b]
  }

  /** Dropping one more slot drops the block it names, if any. */
  lemma DropOne(sb: Super, blocks: seq<Block>, inos: seq<Inode>, owner: Owner, part: Owner, i: nat, lo: nat, k: nat)
    requires SlotsOk(sb, blocks, inos, owner) && i < |inos| && lo <= k < NSLOTS
    requires forall b :: b in part ==> b in owner && part[b] == owner[b]
    ensures var b := SlotAt(blocks, inos, i, k);
      && Drop(part, i, lo, k + 1).Keys == Drop(part, i, lo, k).Keys - {b}
      && (b != 0 && b in part ==> b in Drop(part, i, lo, k) && sb.nmeta <= b < sb.size)
      && (b != 0 ==> b in owner && owner[b] == (i, k))
      && (b == 0 ==> Drop(part, i, lo, k + 1).Keys == Drop(part, i, lo, k).Keys)
  {
    hide SlotAt;
    var b := SlotAt(blocks, inos, i, k);
    assert sb.nmeta > 0;
    forall c | c in Drop(part, i, lo, k) && c != b ensures c in Drop(part, i, lo, k + 1) {
      assert SlotAt(blocks, inos, owner[c].0, owner[c].1) == c;
    }
  }

  /** bfree of a block in use. */
  lemma FreeBits(sb: Super, blocks: seq<Block>, used: set<int>, b: nat)
    requires Shape(sb, blocks) && BitsFor(sb, blocks, used) && b in used && sb.nmeta <= b < sb.size
    ensures Bit(sb, blocks, b) && BitsFor(sb, Flipped(sb, blocks, b), used - {b})
    ensures forall x :: sb.nmeta <= x < |blocks| ==> Flipped(sb, blocks, b)[x] == blocks[x]
  {
    hide Bit;
    assert Bit(sb, blocks, b);
    forall c | 0 <= c < sb.size ensures Bit(sb, Flipped(sb, blocks, b), c) <==> c < sb.nmeta || c in used - {b} {
      FlippedBits(sb, blocks, b, c);
    }
  }

  function NoAddrs(): (r: seq<int>)
    ensures |r| == NDIRECT + 1 && forall k :: 0 <= k <= NDIRECT ==> r[k] == 0
  {
    seq(NDIRECT + 1, _ => 0)
  }

  /** An inode with every address cleared owns nothing, and everyone else owns what they did. */
  lemma Emptied(sb: Super, blocks: seq<Block>, inos: seq<Inode>, owner: Owner, blocks': seq<Block>, inos': seq<Inode>,
                i: nat)
    requires SlotsOk(sb, blocks, inos, owner) && i < |inos| == |inos'| && Shape(sb, blocks') && |blocks'| == |blocks|
    requires forall x :: sb.nmeta <= x < |blocks| ==> blocks'[x] == blocks[x]
    requires inos' == inos[i := inos'[i]] && inos'[i].addrs == NoAddrs() && inos'[i].size == 0
    ensures SlotsOk(sb, blocks', inos', Drop(owner, i, 0, NSLOTS))
    ensures OthersSame(blocks, inos, blocks', inos', i) && Inside(blocks', inos'[i], 0)
  {
    hide U32, Full, FileBytes;
    var owner' := Drop(owner, i, 0, NSLOTS);
    forall j, l | 0 <= j < |inos| && 0 <= l < NSLOTS
      ensures SlotAt(blocks', inos', j, l) == if j == i then 0 else SlotAt(blocks, inos, j, l)
    {
      if j != i {
        if inos[j].addrs[NDIRECT] != 0 { IndirectOwned(sb, blocks, inos, owner, j); }
        SlotFrame(blocks, blocks', inos[j], l);
      }
    }
    hide SlotAt, Slot;
    assert SlotsOk(sb, blocks', inos', owner') by {
      forall b | b in owner' ensures SlotAt(blocks', inos', owner'[b].0, owner'[b].1) == b {
        assert SlotAt(blocks, inos, owner[b].0, owner[b].1) == b;
      }
    }
    forall j | 0 <= j < |inos| && j != i
      ensures FileBytes(blocks', inos'[j], inos[j].size) == FileBytes(blocks, inos[j], inos[j].size)
    {
      SameBytes(sb, blocks, inos, owner, blocks', inos', j, inos[j].size);
    }
    NothingFull(blocks', inos'[i]);
  }

  lemma NothingFull(blocks: seq<Block>, ino: Inode)
    requires ino.addrs == NoAddrs()
    ensures Full(blocks, ino, 0) && Inside(blocks, ino, 0)
  {}

  lemma SameBytes(sb: Super, blocks: seq<Block>, inos: seq<Inode>, owner: Owner, blocks': seq<Block>,
                  inos': seq<Inode>, j: nat, e: nat)
    requires SlotsOk(sb, blocks, inos, owner) && Shape(sb, blocks') && |blocks'| == |blocks| && j < |inos| == |inos'|
    requires forall x :: sb.nmeta <= x < |blocks| ==> blocks'[x] == blocks[x]
    requires SlotsStay(blocks, inos, blocks', inos', j)
    ensures FileBytes(blocks', inos'[j], e) == FileBytes(blocks, inos[j], e)
  {
    hide Slot;
    forall x | 0 <= x < e ensures ByteAt(blocks', inos'[j], x) == ByteAt(blocks, inos[j], x) {
      if x < MAXFILE * BSIZE {
        var a := SlotAt(blocks, inos, j, SlotOf(x / BSIZE));
        assert SlotAt(blocks', inos', j, SlotOf(x / BSIZE)) == a;
        if a != 0 { assert a in owner; }
      } else {
        PastEnd(blocks, inos[j], x);
        PastEnd(blocks', inos'[j], x);
      }
    }
  }

  /** The three ranges itrunc frees are all the slots there are. */
  lemma DropAll(owner: Owner, i: nat)
    requires forall b :: b in owner ==> owner[b].1 < NSLOTS
    ensures Drop(Drop(Drop(owner, i, 0, NDIRECT), i, NDIRECT + 1, NSLOTS), i, NDIRECT, NDIRECT + 1)
            == Drop(owner, i, 0, NSLOTS)
  {}
}
