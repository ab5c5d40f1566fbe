/** mkfs.c: the image the kernel mounts.

    Blocks are handed out by `freeblock++` and the free map is written last, all at once, so
    until then the image has no map. The proofs follow a ghost copy of the disk, `view`, whose
    map is kept up to date; image and view differ in the map blocks only. */
module Mkfs {
  import opened Common
  import opened FsLayout
  import opened FsSteps
  import opened FileSystem

  const ROOTINO := 1
  const T_DIR := 1
  const T_FILE := 2
  const DIRSIZ := 14
  const DIRENT := 16

  function NoInode(): Inode {
    Inode(0, 0, 0, 0, 0, NoAddrs())
  }

  /** The image has an empty map and otherwise the blocks of the view. */
  ghost predicate Unmapped(sb: Super, blocks: seq<Block>, view: seq<Block>) {
    && |view| == |blocks|
    && (forall x :: 0 <= x < |blocks| && !(sb.bmapstart <= x < sb.nmeta) ==> view[x] == blocks[x])
    && (forall x :: sb.bmapstart <= x < sb.nmeta && x < |blocks| ==> blocks[x] == ZeroBlock())
  }

  /** A directory, then n files, each with one link. */
  ghost predicate Typed(inos: seq<Inode>, n: nat) {
    && 2 + n <= |inos| && inos[1].typ == 1 && inos[1].nlink == 1
    && forall j :: 2 <= j < 2 + n ==> inos[j].typ == 2 && inos[j].nlink == 1
  }

  /** The blocks in use are nmeta up to freeblock, and those from freeblock on are blank. */
  ghost predicate UpTo(sb: Super, blocks: seq<Block>, owner: Owner, freeblock: nat) {
    && sb.nmeta <= freeblock <= sb.size == |blocks|
    && (forall b :: b in owner <==> sb.nmeta <= b < freeblock)
    && (forall b :: freeblock <= b < sb.size ==> blocks[b] == ZeroBlock())
  }

  class Image {
    const sb: Super
    const ninodes: nat
    var blocks: seq<Block>
    var freeinode: nat
    var freeblock: nat
    ghost var inos: seq<Inode>
    ghost var owner: Owner
    ghost var view: seq<Block>

    /** What holds also while an inode is being changed in memory. */
    ghost predicate Core()
      reads this
    {
      && FsOk(sb, view, inos, owner) && Shape(sb, blocks) && Unmapped(sb, blocks, view)
      && UpTo(sb, blocks, owner, freeblock) && TableRoom(sb, ninodes) && |inos| == ninodes
    }

    ghost predicate Valid()
      reads this
    {
      && Core() && AllFull(view, inos) && inos == Table(sb, view, ninodes) && 1 <= freeinode
      && (forall i :: 0 <= i < |inos| && (i == 0 || freeinode <= i) ==> inos[i] == NoInode())
      && (forall i :: 0 < i < |inos| && i < freeinode ==> inos[i].typ != 0)
    }

    ghost function Contents(i: nat): seq<int>
      requires i < |inos|
      reads this
    {
      FileBytes(view, inos[i], inos[i].size)
    }

    /** Every block zeroed; the first free block is the first one after the map. */
    constructor (s: Super, n: nat)
      requires Areas(s) && TableRoom(s, n)
      ensures Valid() && sb == s && ninodes == n && freeblock == s.nmeta && freeinode == 1 && owner == map[]
    {
      sb := s;
      ninodes := n;
      blocks := seq(s.size, _ => ZeroBlock());
      freeinode := 1;
      freeblock := s.nmeta;
      inos := seq(n, _ => NoInode());
      owner := map[];
      view := MetaMarked(s, s.nmeta);
      new;
      hide FsOk, AllFull, Table, MetaMarked;
      MetaView(sb, sb.nmeta);
      EmptyImage(sb, view, inos);
    }

    /** din.addrs[k] = freeblock++ */
    method TakeDirect(i: nat, din: Inode, k: nat) returns (din': Inode)
      requires Core() && i < |inos| && inos[i] == din && k <= NDIRECT && din.addrs[k] == 0 && freeblock < sb.size
      modifies this`freeblock, this`inos, this`owner, this`view
      ensures Core() && Kept(sb, old(view), view) && freeblock == old(freeblock) + 1
      ensures din' == din.(addrs := din.addrs[k := old(freeblock)])
      ensures inos == old(inos)[i := din']
      ensures OneSlotChanged(old(view), old(inos), view, inos, i, k, old(freeblock))
      ensures Grown(old(view), old(inos), old(owner), view, inos, owner, i)
    {
      hide Bit, Slot, BitsFor, Grown;
      NextIsFree(sb, view, blocks, inos, owner, freeblock);
      AttachDirect(sb, view, inos, owner, i, k, freeblock);
      din' := din.(addrs := din.addrs[k := freeblock]);
      view := Alloced(sb, view, freeblock);
      inos := inos[i := din'];
      owner := owner[freeblock := (i, k)];
      freeblock := freeblock + 1;
    }

    /** indirect[j] = freeblock++, written back */
    method TakeIndirect(i: nat, din: Inode, j: nat) returns (x: nat)
      requires Core() && i < |inos| && inos[i] == din && j < NINDIRECT && din.addrs[NDIRECT] != 0 && freeblock < sb.size
      requires SlotAt(view, inos, i, NDIRECT + 1 + j) == 0
      modifies this`freeblock, this`blocks, this`owner, this`view
      ensures Core() && Kept(sb, old(view), view) && freeblock == old(freeblock) + 1 && x == old(freeblock)
      ensures OneSlotChanged(old(view), inos, view, inos, i, NDIRECT + 1 + j, x)
      ensures Grown(old(view), inos, old(owner), view, inos, owner, i)
    {
      hide Bit, Slot, BitsFor, Grown, PutU32;
      NextIsFree(sb, view, blocks, inos, owner, freeblock);
      IndirectOwned(sb, view, inos, owner, i);
      AttachIndirect(sb, view, inos, owner, i, j, freeblock);
      var ind := din.addrs[NDIRECT];
      x := freeblock;
      view := Linked(sb, view, ind, j, freeblock);
      blocks := blocks[ind := PutU32(blocks[ind], j, freeblock)];
      owner := owner[freeblock := (i, NDIRECT + 1 + j)];
      freeblock := freeblock + 1;
    }

    /** The entry of the indirect block for file block fbn, found or added. */
    method IndirectEntry(i: nat, din: Inode, fbn: nat) returns (x: nat, ok: bool)
      requires Core() && i < |inos| && inos[i] == din && NDIRECT <= fbn < MAXFILE
      requires |din.addrs| == NDIRECT + 1 && din.addrs[NDIRECT] != 0
      modifies this`freeblock, this`blocks, this`owner, this`view
      ensures SlotAt(old(view), inos, i, SlotOf(fbn)) != 0 ==> ok && view == old(view)
      ensures ok ==>
        && Core() && Kept(sb, old(view), view) && Grown(old(view), inos, old(owner), view, inos, owner, i)
        && SlotAt(view, inos, i, SlotOf(fbn)) == x != 0
        && forall l :: 0 <= l < NSLOTS && l != SlotOf(fbn) ==>
             SlotAt(view, inos, i, l) == SlotAt(old(view), inos, i, l)
      ensures ok <==> SlotAt(old(view), inos, i, SlotOf(fbn)) != 0 || old(freeblock) < sb.size
      ensures ok ==>
        freeblock == old(freeblock) + if SlotAt(old(view), inos, i, SlotOf(fbn)) == 0 then 1 else 0
    {
      hide FsOk, Slot, U32, Kept, Grown, Unmapped, UpTo, Shape;
      ok := true;
      GrownSame(sb, view, inos, owner, i);
      KeptSame(sb, view);
      CoreBound(sb, view, blocks, inos, owner, freeblock);
      IndirectAt(sb, view, inos, owner, i, fbn);
      SameData(sb, view, blocks, inos, owner, i);
      x := U32(blocks[din.addrs[NDIRECT]], fbn - NDIRECT);
      if x == 0 {
        if freeblock == sb.size { return 0, false; }
        x := TakeIndirect(i, din, fbn - NDIRECT);
      }
    }

    /** The block of file block fbn, as iappend finds or adds it; not ok when too few blocks are
        left, where reading past the end of the image makes mkfs give up. */
    method BlockFor(i: nat, din: Inode, fbn: nat) returns (din': Inode, x: nat, ok: bool)
      requires Core() && i < |inos| && inos[i] == din && fbn < MAXFILE
      modifies this`freeblock, this`blocks, this`inos, this`owner, this`view
      ensures SlotAt(old(view), old(inos), i, SlotOf(fbn)) != 0 ==> ok && view == old(view) && inos == old(inos)
      ensures ok ==>
        && Core() && Kept(sb, old(view), view) && inos == old(inos)[i := din'] && din' == din.(addrs := din'.addrs)
        && Grown(old(view), old(inos), old(owner), view, inos, owner, i)
        && SlotAt(view, inos, i, SlotOf(fbn)) == x && 0 < sb.nmeta <= x < sb.size
        && (forall l :: 0 <= l < NSLOTS && l != SlotOf(fbn) && (l != NDIRECT || fbn < NDIRECT) ==>
              SlotAt(view, inos, i, l) == SlotAt(old(view), old(inos), i, l))
        && (fbn >= NDIRECT ==> SlotAt(view, inos, i, NDIRECT) != 0)
      ensures ok <==> old(freeblock) + Missing(old(view), din, fbn) <= sb.size
      ensures ok ==> freeblock == old(freeblock) + Missing(old(view), din, fbn)
    {
      hide FsOk, Slot, U32, Kept, Grown, Unmapped, UpTo, Shape;
      din', x, ok := din, 0, true;
      Directs(sb, view, inos, owner, i);
      GrownSame(sb, view, inos, owner, i);
      KeptSame(sb, view);
      CoreBound(sb, view, blocks, inos, owner, freeblock);
      if SlotAt(view, inos, i, SlotOf(fbn)) != 0 { DataBlock(sb, view, inos, owner, i, fbn); }
      if fbn < NDIRECT {
        if din.addrs[fbn] == 0 {
          if freeblock == sb.size { return din, 0, false; }
          din' := TakeDirect(i, din, fbn);
          Directs(sb, view, inos, owner, i);
        }
        x := din'.addrs[fbn];
      } else {
        if din.addrs[NDIRECT] == 0 {
          NoneBeyond(view, inos, i, fbn);
          if freeblock == sb.size { return din, 0, false; }
          din' := TakeDirect(i, din, NDIRECT);
          Directs(sb, view, inos, owner, i);
        }
        ghost var v1, n1, o1 := view, inos, owner;
        x, ok := IndirectEntry(i, din', fbn);
        if !ok { return din, 0, false; }
        KeptTrans(sb, old(view), v1, view);
        SlotsOf(sb, v1, n1, o1);
        GrownTrans(sb, old(view), old(inos), old(owner), v1, n1, o1, view, inos, owner, i);
      }
      DataBlock(sb, view, inos, owner, i, fbn);
    }

    /** One round of iappend: bytes p at the end of the file, inside one block. */
    method AppendChunk(i: nat, din: Inode, off: nat, p: seq<int>) returns (din': Inode, ok: bool)
      requires Core() && i < |inos| && inos[i] == din && Full(view, din, off) && off / BSIZE < MAXFILE
      requires 0 < |p| && off % BSIZE + |p| <= BSIZE
      modifies this`freeblock, this`blocks, this`inos, this`owner, this`view
      ensures ok ==>
        && Core() && Kept(sb, old(view), view) && din' == din.(addrs := din'.addrs) && inos[i] == din'
        && OthersSame(old(view), old(inos), view, inos, i) && Full(view, din', off + |p|)
        && FileBytes(view, din', off + |p|) == FileBytes(old(view), din, off) + p
      ensures ok <==> old(freeblock) + BlocksOf(off + |p|) - BlocksOf(off) <= sb.size
      ensures ok ==> freeblock == old(freeblock) + BlocksOf(off + |p|) - BlocksOf(off)
    {
      hide Slot, FileBytes, SlotsOk, BitsFor, Full, Kept, Unmapped, UpTo, Shape, BlocksOf, Missing;
      MissingNext(view, din, off, |p|);
      var fbn, o := off / BSIZE, off % BSIZE;
      ghost var e1 := if fbn * BSIZE < off then off else (fbn + 1) * BSIZE;
      var x;
      din', x, ok := BlockFor(i, din, fbn);
      if !ok { return; }
      ghost var v1, n1 := view, inos;
      NextFull(old(view), old(inos), view, inos, i, fbn, off);
      FullBound(sb, view, inos, owner, old(view), din, off);
      GrownOthers(sb, old(view), old(inos), old(owner), view, inos, owner, i);
      GrownBytes(sb, old(view), old(inos), old(owner), view, inos, owner, i, i, off);
      StoreOthers(sb, view, inos, owner, i, fbn, o, p);
      StoreSplices(sb, view, inos, owner, i, off, p, off, off + |p|);
      StoredImage(sb, view, blocks, inos, owner, freeblock, i, fbn, o, p);
      view := Stored(view, x, o, p);
      blocks := blocks[x := blocks[x][..o] + p + blocks[x][o + |p|..]];
      StoredKept(sb, old(view), v1, x, o, p);
      OthersTrans(old(view), old(inos), v1, n1, view, inos, i);
      SlotsGiveFull(v1, n1, view, inos, i, e1);
      FullTo(view, din', fbn, e1, off + |p|);
    }

    /** winode: record i of the table becomes din. */
    method Winode(i: nat, din: Inode)
      requires Core() && i < ninodes && Fits(din)
      modifies this`blocks, this`view
      ensures Core()
      ensures Table(sb, view, ninodes) == Table(sb, old(view), ninodes)[i := din]
      ensures forall j :: 0 <= j < |inos| ==>
        && SlotsStay(old(view), inos, view, inos, j)
        && FileBytes(view, inos[j], inos[j].size) == FileBytes(old(view), inos[j], inos[j].size)
      ensures forall y :: sb.bmapstart <= y < |view| ==> view[y] == old(view)[y]
    {
      hide FsOk, FileBytes, PutDinode, GetDinode, SlotsStay;
      ShapeOf(sb, view, inos, owner);
      TableUpdate(sb, view, ninodes, i, din);
      MetaWrite(sb, view, inos, owner, Updated(sb, view, i, din));
      view := Updated(sb, view, i, din);
      blocks := Updated(sb, blocks, i, din);
    }

    /** ialloc: the next inode number, its record typed and linked once. mkfs does not look
        whether the table has that record; None says it has not. */
    method Ialloc(typ: int) returns (r: Option<nat>)
      requires Valid() && typ != 0 && IsShort(typ)
      modifies this`freeinode, this`blocks, this`inos, this`view
      ensures freeinode == old(freeinode) + 1
      ensures r.Some? <==> old(freeinode) < ninodes
      ensures r.Some? ==>
        && r.value == old(freeinode) && Valid() && inos[r.value] == Inode(typ, 0, 0, 1, 0, NoAddrs())
        && OthersSame(old(view), old(inos), view, inos, r.value)
    {
      hide FsOk, Full, FileBytes, Table, Unmapped, UpTo;
      var inum := freeinode;
      freeinode := freeinode + 1;
      if inum >= ninodes { return None; }
      ghost var n0 := inos;
      var din := Inode(typ, 0, 0, 1, 0, NoAddrs());
      inos := inos[inum := din];
      TypeOnly(sb, view, n0, owner, inos);
      ghost var v0 := view;
      OthersStay(view, n0, inum);
      SizedOthers(view, n0, view, n0, inos, inum);
      Winode(inum, din);
      AfterUpdate(v0, n0, v0, view, inos, inum);
      return Some(inum);
    }

    /** The loop of iappend, from the inode's record in memory to the one to be written back. */
    method AppendBytes(i: nat, din: Inode, data: seq<int>) returns (din': Inode, ok: bool)
      requires Core() && i < |inos| && inos[i] == din && AllFull(view, inos)
      modifies this`freeblock, this`blocks, this`inos, this`owner, this`view
      ensures ok <==>
        && din.size + |data| <= MAXFILE * BSIZE
        && old(freeblock) + BlocksOf(din.size + |data|) - BlocksOf(din.size) <= sb.size
      ensures ok ==>
        && Core() && inos[i] == din' == din.(addrs := din'.addrs) && Full(view, din', din.size + |data|)
        && Kept(sb, old(view), view) && OthersSame(old(view), old(inos), view, inos, i)
        && FileBytes(view, din', din.size + |data|) == old(Contents(i)) + data
        && freeblock == old(freeblock) + BlocksOf(din.size + |data|) - BlocksOf(din.size)
    {
      hide FsOk, Full, FileBytes, Unmapped, UpTo, Kept, BlocksOf, Shape;
      din' := din;
      var off, n := din.size, 0;
      KeptSame(sb, view);
      OthersStay(view, inos, i);
      assert data[..0] == [];
      while n < |data|
        invariant 0 <= n <= |data| && off == din.size + n
        invariant Core() && inos[i] == din' == din.(addrs := din'.addrs) && Full(view, din', off)
        invariant Kept(sb, old(view), view) && OthersSame(old(view), old(inos), view, inos, i)
        invariant FileBytes(view, din', off) == old(Contents(i)) + data[..n]
        invariant freeblock == old(freeblock) + BlocksOf(off) - BlocksOf(din.size)
        modifies this`freeblock, this`blocks, this`inos, this`owner, this`view
      {
        ghost var v1, n1 := view, inos;
        var fbn := off / BSIZE;
        if fbn >= MAXFILE { return din', false; }
        var m := if |data| - n < (fbn + 1) * BSIZE - off then |data| - n else (fbn + 1) * BSIZE - off;
        MoreBlocks(off + m, din.size + |data|);
        din', ok := AppendChunk(i, din', off, data[n..n + m]);
        if !ok { return; }
        assert data[..n] + data[n..n + m] == data[..n + m];
        KeptTrans(sb, old(view), v1, view);
        OthersTrans(old(view), old(inos), v1, n1, view, inos, i);
        n, off := n + m, off + m;
      }
      assert data[..n] == data;
      FullBound(sb, view, inos, owner, view, din', off);
      CoreBound(sb, view, blocks, inos, owner, freeblock);
      ok := true;
    }

    /** The end of iappend: the size goes up to e and the inode is written. v0 and n0 are view and
        inodes before the call. */
    method WriteSize(i: nat, din: Inode, e: nat, ghost v0: seq<Block>, ghost n0: seq<Inode>)
      requires Core() && i < |n0| == |inos| && inos[i] == din == n0[i].(addrs := din.addrs) && Full(view, din, e)
      requires OthersSame(v0, n0, view, inos, i) && AllFull(v0, n0) && Kept(sb, v0, view)
      requires Shape(sb, v0) && n0 == Table(sb, v0, ninodes)
      modifies this`blocks, this`inos, this`view
      ensures Core() && AllFull(view, inos) && inos == Table(sb, view, ninodes)
      ensures OthersSame(v0, n0, view, inos, i) && inos[i] == din.(size := e)
      ensures FileBytes(view, inos[i], e) == FileBytes(old(view), din, e)
    {
      hide FsOk, Full, FileBytes, Table, Unmapped, UpTo, Kept, SlotsStay, AllFull;
      ghost var n1, v1 := inos, view;
      inos := inos[i := din.(size := e)];
      SizeOnly(sb, view, n1, owner, inos, i);
      SizedOthers(v0, n0, view, n1, inos, i);
      AllAgain(v0, n0, view, inos, i);
      FitsOld(sb, v0, ninodes, i);
      AppendFits(sb, view, inos, owner, i);
      ShapeOf(sb, view, inos, owner);
      TableSince(sb, v0, view, ninodes);
      Winode(i, din.(size := e));
      AfterUpdate(v0, n0, v1, view, inos, i);
    }

    /** iappend: the file grows by exactly the bytes given, no other file changes, and the blocks
        in use stay nmeta up to freeblock. mkfs gives up exactly when the file would be longer than
        MAXFILE blocks or the image has too few blocks left. */
    method Iappend(i: nat, data: seq<int>) returns (ok: bool)
      requires Valid() && i < ninodes && 0 < i < freeinode
      modifies this`freeblock, this`blocks, this`inos, this`owner, this`view
      ensures ok ==>
        && Valid() && OthersSame(old(view), old(inos), view, inos, i)
        && inos[i] == old(inos[i]).(size := old(inos[i]).size + |data|, addrs := inos[i].addrs)
        && Contents(i) == old(Contents(i)) + data
        && freeblock == old(freeblock) + BlocksOf(inos[i].size) - BlocksOf(old(inos[i]).size)
      ensures var size := old(inos[i]).size;
        ok <==> size + |data| <= MAXFILE * BSIZE && old(freeblock) + BlocksOf(size + |data|) - BlocksOf(size) <= sb.size
    {
      hide FsOk, Full, FileBytes, Table, Unmapped, UpTo, Kept, BlocksOf, SlotsStay, AllFull;
      ShapeOf(sb, view, inos, owner);
      TableImage(sb, view, blocks, ninodes, i);
      FitsOld(sb, view, ninodes, i);
      var din := GetDinode(blocks[InoBlock(sb, i)], i % IPB);
      din, ok := AppendBytes(i, din, data);
      if !ok { return; }
      WriteSize(i, din, din.size + |data|, old(view), old(inos));
    }

    /** The copying loop of main: a file is appended in pieces of at most one block. */
    method AppendFile(i: nat, data: seq<int>) returns (ok: bool)
      requires Valid() && i < ninodes && 0 < i < freeinode
      modifies this`freeblock, this`blocks, this`inos, this`owner, this`view
      ensures ok ==>
        && Valid() && OthersSame(old(view), old(inos), view, inos, i)
        && inos[i] == old(inos[i]).(size := old(inos[i]).size + |data|, addrs := inos[i].addrs)
        && Contents(i) == old(Contents(i)) + data
        && freeblock == old(freeblock) + BlocksOf(inos[i].size) - BlocksOf(old(inos[i]).size)
      ensures var size := old(inos[i]).size;
        ok <==> size + |data| <= MAXFILE * BSIZE && old(freeblock) + BlocksOf(size + |data|) - BlocksOf(size) <= sb.size
    {
      hide FsOk, Shape, Unmapped, Table, Full, FileBytes, BlocksOf;
      ghost var v0, n0 := view, inos;
      OthersStay(view, inos, i);
      var at := 0;
      assert data[..0] == [];
      while at < |data|
        invariant 0 <= at <= |data| && Valid() && OthersSame(v0, n0, view, inos, i)
        invariant inos[i] == n0[i].(size := n0[i].size + at, addrs := inos[i].addrs)
        invariant Contents(i) == old(Contents(i)) + data[..at]
        invariant freeblock == old(freeblock) + BlocksOf(inos[i].size) - BlocksOf(n0[i].size)
        modifies this`freeblock, this`blocks, this`inos, this`owner, this`view
      {
        var cc := if |data| - at < BSIZE then |data| - at else BSIZE;
        ghost var v1, n1 := view, inos;
        MoreBlocks(inos[i].size + cc, n0[i].size + |data|);
        ok := Iappend(i, data[at..at + cc]);
        if !ok { return; }
        assert data[..at] + data[at..at + cc] == data[..at + cc];
        OthersTrans(v0, n0, v1, n1, view, inos, i);
        at := at + cc;
      }
      assert data[..at] == data;
      FullSize(view, inos, i);
      return true;
    }

    /** balloc: the map block with the first `used` bits set; not ok is its assertion. */
    method Balloc(used: nat) returns (ok: bool)
      requires Shape(sb, blocks) && sb.bmapstart < |blocks|
      modifies this`blocks
      ensures ok <==> used < 4096
      ensures !ok ==> blocks == old(blocks)
      ensures ok ==>
        && |blocks| == |old(blocks)| && blocks == old(blocks)[sb.bmapstart := blocks[sb.bmapstart]]
        && |blocks[sb.bmapstart]| == BSIZE
        && forall c :: 0 <= c < BPB ==> (BitOf(blocks[sb.bmapstart][c / 8], c % 8) <==> c < used)
    {
      hide BitOf, Weight;
      if used >= BPB { return false; }
      var buf, i := ZeroBlock(), 0;
      NoBits();
      while i < used
        invariant 0 <= i <= used && |buf| == BSIZE && blocks == old(blocks)
        invariant forall c :: 0 <= c < BPB ==> (BitOf(buf[c / 8], c % 8) <==> c < i)
      {
        ghost var prev := buf;
        if !BitOf(buf[i / 8], i % 8) { buf := buf[i / 8 := buf[i / 8] + Weight(i % 8)]; }
        OneMoreBit(prev, buf, i);
        i := i + 1;
      }
      blocks := blocks[sb.bmapstart := buf];
      return true;
    }

    /** The last touch: the root's size goes up to (size / BSIZE + 1) blocks. Its blocks reach
        there exactly when the size was not a whole number of blocks. */
    method FixRoot()
      requires Valid() && ROOTINO < ninodes && ROOTINO < freeinode
      modifies this`blocks, this`inos, this`view
      ensures Core() && inos == Table(sb, view, ninodes)
      ensures var was := old(inos[ROOTINO]);
        && inos == old(inos)[ROOTINO := was.(size := (was.size / BSIZE + 1) * BSIZE)]
        && (AllFull(view, inos) <==> was.size % BSIZE != 0)
        && (AllInside(view, inos) <==> was.size < MAXFILE * BSIZE)
        && FileBytes(view, inos[ROOTINO], was.size) == old(Contents(ROOTINO))
      ensures forall j :: 0 <= j < ninodes && j != ROOTINO ==>
        FileBytes(view, inos[j], inos[j].size) == FileBytes(old(view), inos[j], inos[j].size)
    {
      hide FsOk, Full, FileBytes, Table, Unmapped, UpTo, Kept, SlotsStay, AllFull, AllInside, GetDinode, Fits;
      ShapeOf(sb, view, inos, owner);
      TableImage(sb, view, blocks, ninodes, ROOTINO);
      FitsOld(sb, view, ninodes, ROOTINO);
      FullSize(view, inos, ROOTINO);
      var din := GetDinode(blocks[InoBlock(sb, ROOTINO)], ROOTINO % IPB);
      din := din.(size := (din.size / BSIZE + 1) * BSIZE);
      RoundedFits(Table(sb, view, ninodes)[ROOTINO]);
      ghost var n0, v0 := inos, view;
      Winode(ROOTINO, din);
      AllStay(v0, n0, view);
      inos := inos[ROOTINO := din];
      SizeOnly(sb, view, n0, owner, inos, ROOTINO);
      RootFull(view, n0, inos, ROOTINO);
    }

    /** The root directory with its first two entries. */
    method MakeRoot() returns (ok: bool)
      requires Valid() && freeinode == ROOTINO
      modifies this
      ensures ok <==> ROOTINO < ninodes && old(freeblock) < sb.size
      ensures ok ==> freeblock == old(freeblock) + BlocksOf(|Listing([], 0)|)
      ensures ok ==>
        && Valid() && freeinode == 2 <= ninodes == |inos| && inos[ROOTINO].size == |Listing([], 0)|
        && Contents(ROOTINO) == Listing([], 0) && Typed(inos, 0)
    {
      hide Core, Table, AllFull, FileBytes;
      var root := Ialloc(T_DIR);
      if root.None? { return false; }
      NoBytes(view, inos[ROOTINO]);
      ok := Iappend(ROOTINO, Entry(ROOTINO, [46]));
      if !ok { return; }
      ok := Iappend(ROOTINO, Entry(ROOTINO, [46, 46]));
    }

    /** One file: an inode, an entry in the root, and the bytes. */
    method AddFile(name: seq<int>, data: seq<int>) returns (ok: bool)
      requires Valid() && 2 <= freeinode && ROOTINO < ninodes
      modifies this
      ensures var root := old(inos[ROOTINO]).size;
        var more := old(freeblock) + BlocksOf(root + DIRENT) + BlocksOf(|data|);
        && (ok <==> 47 !in name && old(freeinode) < ninodes && root + DIRENT <= MAXFILE * BSIZE
                    && |data| <= MAXFILE * BSIZE && more - BlocksOf(root) <= sb.size)
        && (ok ==> freeblock == more - BlocksOf(root))
      ensures ok ==>
        && Valid() && freeinode == old(freeinode) + 1 <= ninodes == |inos|
        && inos[ROOTINO].size == old(inos[ROOTINO]).size + DIRENT
        && Contents(ROOTINO) == old(Contents(ROOTINO)) + Entry(old(freeinode), Stripped(name))
        && Contents(old(freeinode)) == data
        && forall j :: 2 <= j < old(freeinode) ==> Contents(j) == old(Contents(j))
      ensures ok && old(Typed(inos, freeinode - 2)) ==> Typed(inos, freeinode - 2)
    {
      hide Core, Table, AllFull, FileBytes, Entry, BlocksOf;
      if 47 in name { return false; }
      ghost var inum0, v0, n0 := freeinode, view, inos;
      var r := Ialloc(T_FILE);
      if r.None? { return false; }
      NoBytes(view, inos[r.value]);
      ghost var v1, n1 := view, inos;
      ok := Iappend(ROOTINO, Entry(r.value, Stripped(name)));
      if !ok { return; }
      ghost var v2, n2 := view, inos;
      ok := AppendFile(r.value, data);
      forall j | 0 <= j < inum0
        ensures ok && j != ROOTINO ==> FileBytes(view, inos[j], inos[j].size) == FileBytes(v0, n0[j], n0[j].size)
      {
        assert ok && j != ROOTINO ==> inos[j] == n2[j] == n1[j] == n0[j];
      }
    }

    lemma WithinDisk()
      requires Valid()
      ensures freeblock <= sb.size
    {}

    /** The loop over the files. */
    method AddFiles(names: seq<seq<int>>, files: seq<seq<int>>) returns (ok: bool)
      requires Valid() && freeinode == 2 <= ninodes == |inos| && |names| == |files| && freeblock == Space(sb, files, 0)
      requires Contents(ROOTINO) == Listing([], 0) && inos[ROOTINO].size == |Listing([], 0)| && Typed(inos, 0)
      modifies this
      ensures ok <==> Room(sb, ninodes, names, files, |files|)
      ensures ok ==>
        && Valid() && freeinode == 2 + |files| <= ninodes == |inos| && freeblock == Space(sb, files, |files|)
        && Contents(ROOTINO) == Listing(names, |names|) && inos[ROOTINO].size == |Listing(names, |names|)|
        && Typed(inos, |files|) && forall j :: 2 <= j < 2 + |files| ==> Contents(j) == files[j - 2]
    {
      hide Valid, FileBytes, Entry, BlocksOf, Typed;
      var k := 0;
      ListingNone(names);
      RoomStart(sb, ninodes, names, files);
      WithinDisk();
      while k < |files|
        invariant 0 <= k <= |files| && Valid() && freeinode == 2 + k <= ninodes == |inos|
        invariant freeblock == Space(sb, files, k)
        invariant Contents(ROOTINO) == Listing(names, k) && inos[ROOTINO].size == |Listing(names, k)|
        invariant Typed(inos, k) && forall j :: 2 <= j < 2 + k ==> Contents(j) == files[j - 2]
        invariant Room(sb, ninodes, names, files, k)
      {
        ok := AddFile(names[k], files[k]);
        RoomStep(sb, ninodes, names, files, k);
        if !ok {
          RoomLess(sb, ninodes, names, files, k + 1);
          return;
        }
        k := k + 1;
      }
      return true;
    }

    /** The last lines of main: the root's size and the map. */
    method WriteOut(names: seq<seq<int>>, files: seq<seq<int>>) returns (ok: bool)
      requires Valid() && |names| == |files| && freeinode == 2 + |files| <= ninodes == |inos|
      requires Contents(ROOTINO) == Listing(names, |names|) && inos[ROOTINO].size == |Listing(names, |names|)|
      requires Typed(inos, |files|) && forall j :: 2 <= j < 2 + |files| ==> Contents(j) == files[j - 2]
      modifies this
      ensures freeblock == old(freeblock) && owner == old(owner) && (ok <==> freeblock < BPB)
      ensures ok ==> Made(sb, blocks, ninodes, owner, freeblock, names, files)
    {
      hide FsOk, Shape, Unmapped, UpTo, Table, AllFull, AllInside, FileBytes, Made, Listing;
      ghost var v0, n0 := view, inos;
      FreeOnes(n0, freeinode);
      forall j | 2 <= j < 2 + |files| ensures FileBytes(v0, n0[j], n0[j].size) == files[j - 2] {
        assert Contents(j) == files[j - 2];
      }
      FixRoot();
      MapRoom(sb, blocks);
      ghost var b0 := blocks;
      ok := Balloc(freeblock);
      if ok {
        MapWritten(sb, view, b0, inos, owner, freeblock, blocks);
        ImageMade(sb, view, blocks, inos, owner, freeblock, names, files);
      }
    }

    /** main: a root directory, the files one after the other, the root's size, the map. It
        finishes exactly when there is room for everything; then the map is exact, the image holds
        the files and the directory, and it is a sound file system unless the directory has the
        largest size a file can have; it has no hole exactly when the directory's length was not a
        whole number of blocks. */
    method Fill(names: seq<seq<int>>, files: seq<seq<int>>) returns (ok: bool)
      requires Valid() && freeinode == ROOTINO && freeblock == sb.nmeta && |names| == |files|
      modifies this
      ensures ok <==> Room(sb, ninodes, names, files, |files|) && Space(sb, files, |files|) < BPB
      ensures ok ==> Made(sb, blocks, ninodes, owner, freeblock, names, files) && freeblock == Space(sb, files, |files|)
      ensures ok ==> NamesIn(FileBytes(blocks, Table(sb, blocks, ninodes)[1], 16 * (2 + |files|)), names, |names|)
    {
      hide Valid, Made, Listing, BlocksOf, Room, Space, NamesIn, FileBytes, Table;
      RoomRoot(sb, ninodes, names, files);
      ok := MakeRoot();
      if !ok { return; }
      ok := AddFiles(names, files);
      if !ok { return; }
      ok := WriteOut(names, files);
      if ok { RootNames(sb, blocks, ninodes, owner, freeblock, names, files); }
    }
  }

  lemma RootNames(sb: Super, blocks: seq<Block>, ninodes: nat, owner: Owner, freeblock: nat, names: seq<seq<int>>,
                  files: seq<seq<int>>)
    requires |names| == |files| && Made(sb, blocks, ninodes, owner, freeblock, names, files)
    requires Room(sb, ninodes, names, files, |files|)
    ensures TableRoom(sb, ninodes) && Shape(sb, blocks) && 2 <= ninodes
    ensures NamesIn(FileBytes(blocks, Table(sb, blocks, ninodes)[1], 16 * (2 + |files|)), names, |names|)
  {
    ListingNames(names, |names|);
  }

  /** How many blocks bmap adds for file block fbn. */
  function Missing(view: seq<Block>, din: Inode, fbn: nat): nat {
    (if Slot(view, din, SlotOf(fbn)) == 0 then 1 else 0)
    + if fbn >= NDIRECT && Slot(view, din, NDIRECT) == 0 then 1 else 0
  }

  /** How many blocks a file of e bytes takes, the indirect block included. */
  function BlocksOf(e: nat): nat {
    (e + BSIZE - 1) / BSIZE + if e > NDIRECT * BSIZE then 1 else 0
  }

  lemma MoreBlocks(e: nat, e': nat)
    requires e <= e'
    ensures BlocksOf(e) <= BlocksOf(e')
  {}

  /** What an append inside one block adds. */
  lemma MissingNext(view: seq<Block>, din: Inode, off: nat, n: nat)
    requires Full(view, din, off) && 0 < n && off % BSIZE + n <= BSIZE && off / BSIZE < MAXFILE
    ensures BlocksOf(off + n) == BlocksOf(off) + Missing(view, din, off / BSIZE)
  {
    hide Slot;
    var fbn := off / BSIZE;
    assert off == fbn * BSIZE + off % BSIZE;
    assert Slot(view, din, SlotOf(fbn)) != 0 <==> fbn * BSIZE < off;
  }

  /** The view of an empty image: bits below `used` set, all else zero. */
  ghost function MetaMarked(sb: Super, used: nat): (r: seq<Block>)
    requires Areas(sb) && used <= sb.size
    ensures Shape(sb, r) && |r| == sb.size
  {
    if used == 0 then seq(sb.size, _ => ZeroBlock())
    else if Bit(sb, MetaMarked(sb, used - 1), used - 1) then MetaMarked(sb, used - 1)
    else Flipped(sb, MetaMarked(sb, used - 1), used - 1)
  }

  lemma {:induction false} MetaView(sb: Super, used: nat)
    requires Areas(sb) && used <= sb.size
    ensures forall c :: 0 <= c < sb.size ==> (Bit(sb, MetaMarked(sb, used), c) <==> c < used)
    ensures forall x :: 0 <= x < sb.size && !(sb.bmapstart <= x < sb.nmeta) ==> MetaMarked(sb, used)[x] == ZeroBlock()
  {
    hide Bit, Flipped;
    if used == 0 {
      ZeroBits(sb, MetaMarked(sb, 0));
    } else {
      MetaView(sb, used - 1);
      var m := MetaMarked(sb, used - 1);
      var m' := Flipped(sb, m, used - 1);
      forall c | 0 <= c < sb.size ensures Bit(sb, m', c) <==> c < used { FlippedBits(sb, m, used - 1, c); }
    }
  }

  /** With no block owned, bits set below nmeta only, and a blank table, nothing is amiss. */
  lemma EmptyImage(sb: Super, view: seq<Block>, inos: seq<Inode>)
    requires Shape(sb, view) && TableRoom(sb, |inos|) && forall i :: 0 <= i < |inos| ==> inos[i] == NoInode()
    requires forall c :: 0 <= c < sb.size ==> (Bit(sb, view, c) <==> c < sb.nmeta)
    requires forall x :: sb.inodestart <= x < sb.bmapstart ==> view[x] == ZeroBlock()
    ensures FsOk(sb, view, inos, map[]) && AllFull(view, inos) && inos == Table(sb, view, |inos|)
  {
    hide Bit, GetDinode;
    BlankTable(sb, view, |inos|);
    forall j | 0 <= j < |inos| ensures Full(view, inos[j], 0) { NothingFull(view, inos[j]); }
    assert forall j, k :: 0 <= j < |inos| && 0 <= k < NSLOTS ==> SlotAt(view, inos, j, k) == 0;
  }

  lemma ZeroBits(sb: Super, blocks: seq<Block>)
    requires Shape(sb, blocks) && forall b :: 0 <= b < |blocks| ==> blocks[b] == ZeroBlock()
    ensures forall c :: 0 <= c < sb.size ==> !Bit(sb, blocks, c)
  {}

  lemma BlankTable(sb: Super, blocks: seq<Block>, n: nat)
    requires Shape(sb, blocks) && TableRoom(sb, n)
    requires forall x :: sb.inodestart <= x < sb.bmapstart ==> blocks[x] == ZeroBlock()
    ensures forall i :: 0 <= i < n ==> Table(sb, blocks, n)[i] == NoInode()
  {
    forall i | 0 <= i < n ensures Table(sb, blocks, n)[i] == NoInode() { BlankDinode(i % IPB); }
  }

  lemma BlankDinode(s: nat)
    requires s < IPB
    ensures GetDinode(ZeroBlock(), s) == NoInode()
  {
    hide U32, I16, ZeroBlock;
    var ino := GetDinode(ZeroBlock(), s);
    ZeroWords();
    forall k | 0 <= k <= NDIRECT ensures ino.addrs[k] == 0 { assert ino.addrs[k] == U32(ZeroBlock(), 16 * s + 3 + k); }
    assert ino.addrs == NoAddrs();
  }

  lemma ZeroWords()
    ensures forall j :: 0 <= j < NINDIRECT ==> U32(ZeroBlock(), j) == 0
    ensures forall h :: 0 <= h < 2 * NINDIRECT ==> I16(ZeroBlock(), h) == 0
  {}

  /** The block freeblock names is one the map of the view has free. */
  lemma NextIsFree(sb: Super, view: seq<Block>, blocks: seq<Block>, inos: seq<Inode>, owner: Owner, freeblock: nat)
    requires FsOk(sb, view, inos, owner) && UpTo(sb, blocks, owner, freeblock) && freeblock < sb.size
    ensures !Bit(sb, view, freeblock)
  {}

  /** How far a file's blocks reach once the block of file block bn is there, inside or next. */
  lemma NextFull(b0: seq<Block>, n0: seq<Inode>, b1: seq<Block>, n1: seq<Inode>, i: nat, bn: nat, e: nat)
    requires i < |n0| == |n1| && bn < MAXFILE && bn * BSIZE <= e && Full(b0, n0[i], e)
    requires SlotAt(b1, n1, i, SlotOf(bn)) != 0
    requires SlotAt(b0, n0, i, SlotOf(bn)) != 0 ==> b1 == b0 && n1 == n0
    requires forall l :: 0 <= l < NSLOTS && l != SlotOf(bn) && (l != NDIRECT || bn < NDIRECT) ==>
      SlotAt(b1, n1, i, l) == SlotAt(b0, n0, i, l)
    requires bn >= NDIRECT ==> SlotAt(b1, n1, i, NDIRECT) != 0
    ensures bn * BSIZE < e <==> SlotAt(b0, n0, i, SlotOf(bn)) != 0
    ensures Full(b1, n1[i], if bn * BSIZE < e then e else (bn + 1) * BSIZE)
  {
    hide Slot;
    assert Slot(b0, n0[i], SlotOf(bn)) != 0 <==> bn * BSIZE < e;
    if bn * BSIZE == e {
      assert SlotAt(b0, n0, i, NDIRECT) != 0 <==> NDIRECT * BSIZE < e;
      FullGrows(b0, n0, b1, n1, i, bn);
    }
  }

  lemma FullTo(blocks: seq<Block>, ino: Inode, bn: nat, e1: nat, e': nat)
    requires bn < MAXFILE && Full(blocks, ino, e1) && bn * BSIZE < e' <= MAXFILE * BSIZE
    requires e1 == e' || (e1 == (bn + 1) * BSIZE && e' <= e1) || (bn * BSIZE < e1 <= e' <= (bn + 1) * BSIZE)
    ensures Full(blocks, ino, e')
  {}

  lemma FullBound(sb: Super, blocks: seq<Block>, inos: seq<Inode>, owner: Owner, blocks0: seq<Block>, ino: Inode,
                  e: nat)
    requires FsOk(sb, blocks, inos, owner) && Full(blocks0, ino, e)
    ensures Shape(sb, blocks) && e <= MAXFILE * BSIZE
  {}

  lemma FullSize(blocks: seq<Block>, inos: seq<Inode>, i: nat)
    requires AllFull(blocks, inos) && i < |inos|
    ensures Full(blocks, inos[i], inos[i].size) && inos[i].size <= MAXFILE * BSIZE
  {}

  lemma CoreBound(sb: Super, view: seq<Block>, blocks: seq<Block>, inos: seq<Inode>, owner: Owner, freeblock: nat)
    requires FsOk(sb, view, inos, owner) && UpTo(sb, blocks, owner, freeblock)
    ensures 0 < sb.nmeta <= freeblock <= sb.size == |blocks|
  {}

  /** Image and view agree on the indirect block of an inode. */
  lemma SameData(sb: Super, view: seq<Block>, blocks: seq<Block>, inos: seq<Inode>, owner: Owner, i: nat)
    requires FsOk(sb, view, inos, owner) && Unmapped(sb, blocks, view) && i < |inos|
    requires |inos[i].addrs| == NDIRECT + 1 && inos[i].addrs[NDIRECT] != 0
    ensures var a := inos[i].addrs[NDIRECT]; 0 <= a < |blocks| && blocks[a] == view[a]
  {
    IndirectOwned(sb, view, inos, owner, i);
  }

  /** Storing into a block in use keeps image and view in step and the unused blocks blank. */
  lemma StoredImage(sb: Super, view: seq<Block>, blocks: seq<Block>, inos: seq<Inode>, owner: Owner, freeblock: nat,
                    i: nat, fbn: nat, o: nat, p: seq<int>)
    requires FsOk(sb, view, inos, owner) && Unmapped(sb, blocks, view) && UpTo(sb, blocks, owner, freeblock)
    requires Shape(sb, blocks)
    requires i < |inos| && fbn < MAXFILE && SlotAt(view, inos, i, SlotOf(fbn)) != 0 && o + |p| <= BSIZE
    ensures var x := SlotAt(view, inos, i, SlotOf(fbn));
      && sb.nmeta <= x < |blocks| == |view| && |blocks[x]| == |view[x]| == BSIZE
      && var blocks' := Stored(blocks, x, o, p);
         && Unmapped(sb, blocks', Stored(view, x, o, p)) && UpTo(sb, blocks', owner, freeblock) && Shape(sb, blocks')
  {
    hide Slot, BitsFor;
    assert SlotAt(view, inos, i, SlotOf(fbn)) in owner;
  }

  lemma StoredKept(sb: Super, v0: seq<Block>, v1: seq<Block>, x: nat, o: nat, p: seq<int>)
    requires Kept(sb, v0, v1) && Shape(sb, v1) && sb.nmeta <= x < |v1| && o + |p| <= BSIZE
    ensures |v1[x]| == BSIZE && Kept(sb, v0, Stored(v1, x, o, p))
  {}

  /** The record of inode i in the image. */
  lemma TableImage(sb: Super, view: seq<Block>, blocks: seq<Block>, n: nat, i: nat)
    requires Shape(sb, view) && Shape(sb, blocks) && Unmapped(sb, blocks, view) && TableRoom(sb, n) && i < n
    ensures InoBlock(sb, i) < sb.bmapstart && GetDinode(blocks[InoBlock(sb, i)], i % IPB) == Table(sb, view, n)[i]
  {
    hide GetDinode;
  }

  lemma FitsOld(sb: Super, view: seq<Block>, n: nat, i: nat)
    requires Shape(sb, view) && TableRoom(sb, n) && i < n
    ensures Fits(Table(sb, view, n)[i])
  {
    TableFits(sb, view, n);
  }

  lemma TableSince(sb: Super, v0: seq<Block>, v1: seq<Block>, n: nat)
    requires Shape(sb, v0) && Shape(sb, v1) && TableRoom(sb, n) && Kept(sb, v0, v1)
    ensures Table(sb, v1, n) == Table(sb, v0, n)
  {
    hide GetDinode;
    TableFrame(sb, v0, v1, n);
  }

  lemma AppendFits(sb: Super, view: seq<Block>, inos: seq<Inode>, owner: Owner, i: nat)
    requires FsOk(sb, view, inos, owner) && AllFull(view, inos) && i < |inos|
    requires IsShort(inos[i].typ) && IsShort(inos[i].major) && IsShort(inos[i].minor) && IsShort(inos[i].nlink)
    ensures Fits(inos[i])
  {
    OwnedFits(sb, view, inos, owner, i);
  }

  lemma NoBits()
    ensures forall c :: 0 <= c < BPB ==> !BitOf(ZeroBlock()[c / 8], c % 8)
  {}

  lemma OneMoreBit(b: Block, b': Block, i: nat)
    requires |b| == |b'| == BSIZE && i < BPB
    requires forall c :: 0 <= c < BPB ==> (BitOf(b[c / 8], c % 8) <==> c < i)
    requires b' == b[i / 8 := b[i / 8] + Weight(i % 8)]
    ensures forall c :: 0 <= c < BPB ==> (BitOf(b'[c / 8], c % 8) <==> c < i + 1)
  {
    hide BitOf, Weight;
    forall c | 0 <= c < BPB ensures BitOf(b'[c / 8], c % 8) <==> c < i + 1 {
      FlipBit(b[i / 8], i % 8, c % 8);
      assert c == i <==> c / 8 == i / 8 && c % 8 == i % 8;
    }
  }

  /** mkfs rounds the root directory's size up to (size / BSIZE + 1) blocks. Every block of the
      rounded directory is allocated exactly when the size was not a whole number of blocks;
      otherwise the directory ends in a hole. */
  lemma RootRounding(blocks: seq<Block>, ino: Inode, size: nat)
    requires Full(blocks, ino, size)
    ensures Full(blocks, ino, (size / BSIZE + 1) * BSIZE) <==> size % BSIZE != 0
    ensures Inside(blocks, ino, (size / BSIZE + 1) * BSIZE) <==> size < MAXFILE * BSIZE
  {
    hide Slot;
    var q, up := size / BSIZE, (size / BSIZE + 1) * BSIZE;
    assert size == q * BSIZE + size % BSIZE;
    if size % BSIZE != 0 {
      assert forall bn :: 0 <= bn < MAXFILE ==> (bn * BSIZE < up <==> bn * BSIZE < size);
    } else if q < MAXFILE {
      assert Slot(blocks, ino, SlotOf(q)) == 0 && q * BSIZE < up;
    }
  }

  /** Thirty files make a root directory of one whole block, and mkfs then gives it a second
      block that does not exist: reading the next entry there is reading a gap. */
  lemma RootHole(blocks: seq<Block>, ino: Inode)
    requires Full(blocks, ino, DIRENT * (2 + 30))
    ensures !Full(blocks, ino, 2 * BSIZE) && Slot(blocks, ino, SlotOf(1)) == 0
    ensures |ino.addrs| == NDIRECT + 1 && Gap(ino, BSIZE, BSIZE + DIRENT)
  {
    RootRounding(blocks, ino, 512);
    assert Slot(blocks, ino, SlotOf(1)) == 0 && Slot(blocks, ino, SlotOf(0)) != 0;
    assert ino.addrs[EntryOf(1)] == 0;
  }

  lemma RoundedFits(ino: Inode)
    requires Fits(ino) && ino.size <= MAXFILE * BSIZE
    ensures Fits(ino.(size := (ino.size / BSIZE + 1) * BSIZE))
  {}

  lemma RootFull(view: seq<Block>, n0: seq<Inode>, inos: seq<Inode>, r: nat)
    requires AllFull(view, n0) && r < |n0| == |inos|
    requires inos == n0[r := n0[r].(size := (n0[r].size / BSIZE + 1) * BSIZE)]
    ensures AllFull(view, inos) <==> n0[r].size % BSIZE != 0
    ensures AllInside(view, inos) <==> n0[r].size < MAXFILE * BSIZE
  {
    RootRounding(view, n0[r], n0[r].size);
    SameFull(view, n0[r], inos[r], inos[r].size);
    FullIsInside(view, n0);
    hide Full, Inside;
    assert forall j :: 0 <= j < |n0| && j != r ==>
      Full(view, inos[j], inos[j].size) && Inside(view, inos[j], inos[j].size);
  }

  lemma SameFull(view: seq<Block>, ino: Inode, ino': Inode, e: nat)
    requires ino'.addrs == ino.addrs
    ensures Full(view, ino', e) <==> Full(view, ino, e)
    ensures Inside(view, ino', e) <==> Inside(view, ino, e)
  {
    assert forall l: nat :: Slot(view, ino', l) == Slot(view, ino, l);
  }

  /** mkfs skips one leading underscore. */
  function Stripped(name: seq<int>): seq<int> {
    if |name| > 0 && name[0] == 95 then name[1..] else name
  }

  /** struct dirent: the inode number, and the name cut or padded to DIRSIZ bytes. */
  function Entry(inum: nat, name: seq<int>): (r: seq<int>)
    ensures |r| == DIRENT
  {
    [inum % 0x100, inum / 0x100 % 0x100] + seq(DIRSIZ, k requires 0 <= k < DIRSIZ => if k < |name| then name[k] else 0)
  }

  /** The root directory after k files. */
  function Listing(names: seq<seq<int>>, k: nat): (r: seq<int>)
    requires k <= |names|
    ensures |r| == DIRENT * (2 + k)
  {
    if k == 0 then Entry(ROOTINO, [46]) + Entry(ROOTINO, [46, 46])
    else Listing(names, k - 1) + Entry(1 + k, Stripped(names[k - 1]))
  }

  /** The bytes of a directory of n files, one by one: entry f + 2 is inode f + 2 under the name
      given, without one leading underscore, cut or padded with zeros. */
  ghost predicate NamesIn(root: seq<int>, names: seq<seq<int>>, n: nat)
    requires n <= |names|
  {
    && |root| == 16 * (2 + n)
    && root[..16] == [1, 0, 46, 0, 0, 0, 0, 0, 0, 0, 0, 0, 0, 0, 0, 0]
    && root[16..32] == [1, 0, 46, 46, 0, 0, 0, 0, 0, 0, 0, 0, 0, 0, 0, 0]
    && forall f :: 0 <= f < n ==> NameAt(root, names[f], f)
  }

  ghost predicate NameAt(root: seq<int>, name: seq<int>, f: nat)
    requires 16 * (3 + f) <= |root|
  {
    var at, kept := 16 * (2 + f), if |name| > 0 && name[0] == 95 then name[1..] else name;
    var field := root[at + 2..at + 16];
    && 0 <= root[at] < 256 && 0 <= root[at + 1] < 256 && root[at] + 256 * root[at + 1] == 2 + f
    && forall k :: 0 <= k < 14 ==> field[k] == if k < |kept| then kept[k] else 0
  }

  lemma {:induction false} ListingNames(names: seq<seq<int>>, n: nat)
    requires n <= |names| && 2 + n < 0x1_0000
    ensures NamesIn(Listing(names, n), names, n)
  {
    hide NameAt;
    if n == 0 {
      DotEntries();
    } else {
      hide Entry;
      ListingNames(names, n - 1);
      var front, e := Listing(names, n - 1), Entry(1 + n, Stripped(names[n - 1]));
      var root := front + e;
      assert root[..16] == front[..16] && root[16..32] == front[16..32];
      forall f | 0 <= f < n ensures NameAt(root, names[f], f) {
        if f < n - 1 { NameStays(front, e, names[f], f); } else { EntryBytes(front, 1 + n, names[n - 1]); }
      }
    }
  }

  lemma DotEntries()
    ensures Entry(1, [46]) == [1, 0, 46, 0, 0, 0, 0, 0, 0, 0, 0, 0, 0, 0, 0, 0]
    ensures Entry(1, [46, 46]) == [1, 0, 46, 46, 0, 0, 0, 0, 0, 0, 0, 0, 0, 0, 0, 0]
  {}

  lemma NameStays(front: seq<int>, e: seq<int>, name: seq<int>, f: nat)
    requires 16 * (3 + f) <= |front| && NameAt(front, name, f)
    ensures NameAt(front + e, name, f)
  {
    var at := 16 * (2 + f);
    assert (front + e)[at + 2..at + 16] == front[at + 2..at + 16];
  }

  lemma EntryBytes(front: seq<int>, inum: nat, name: seq<int>)
    requires 2 <= inum < 0x1_0000 && |front| == 16 * inum
    ensures NameAt(front + Entry(inum, Stripped(name)), name, inum - 2)
  {
    var e := Entry(inum, Stripped(name));
    var at := 16 * inum;
    assert (front + e)[at + 2..at + 16] == e[2..] && (front + e)[at] == e[0] && (front + e)[at + 1] == e[1];
  }

  /** The blocks taken after k files: the metadata, the root directory and the files. */
  function Space(sb: Super, files: seq<seq<int>>, k: nat): nat
    requires k <= |files|
  {
    sb.nmeta + BlocksOf(DIRENT * (2 + k)) + FileBlocks(files, k)
  }

  function FileBlocks(files: seq<seq<int>>, k: nat): nat
    requires k <= |files|
  {
    if k == 0 then 0 else FileBlocks(files, k - 1) + BlocksOf(|files[k - 1]|)
  }

  /** Inodes, blocks and addresses suffice for the first k files, and no name has a slash. */
  predicate Room(sb: Super, ninodes: nat, names: seq<seq<int>>, files: seq<seq<int>>, k: nat)
    requires k <= |files| == |names|
  {
    && 2 + k <= ninodes && DIRENT * (2 + k) <= MAXFILE * BSIZE && Space(sb, files, k) <= sb.size
    && forall f :: 0 <= f < k ==> 47 !in names[f] && |files[f]| <= MAXFILE * BSIZE
  }

  lemma RoomStart(sb: Super, ninodes: nat, names: seq<seq<int>>, files: seq<seq<int>>)
    requires |names| == |files|
    ensures Room(sb, ninodes, names, files, 0) <==> 2 <= ninodes && Space(sb, files, 0) <= sb.size
  {}

  lemma RoomStep(sb: Super, ninodes: nat, names: seq<seq<int>>, files: seq<seq<int>>, k: nat)
    requires k < |files| == |names| && Room(sb, ninodes, names, files, k)
    ensures Space(sb, files, k + 1) == Space(sb, files, k) - BlocksOf(DIRENT * (2 + k))
                                       + BlocksOf(DIRENT * (2 + k) + DIRENT) + BlocksOf(|files[k]|)
    ensures Room(sb, ninodes, names, files, k + 1) <==>
      && 47 !in names[k] && 2 + k < ninodes
      && DIRENT * (2 + k) + DIRENT <= MAXFILE * BSIZE && |files[k]| <= MAXFILE * BSIZE
      && Space(sb, files, k + 1) <= sb.size
  {
    hide BlocksOf;
    assert DIRENT * (2 + (k + 1)) == DIRENT * (2 + k) + DIRENT;
  }

  /** Room for all files is room for the first few. */
  lemma {:induction false} RoomLess(sb: Super, ninodes: nat, names: seq<seq<int>>, files: seq<seq<int>>, k: nat)
    requires k <= |files| == |names|
    ensures Room(sb, ninodes, names, files, |files|) ==> Room(sb, ninodes, names, files, k)
    decreases |files| - k
  {
    hide BlocksOf;
    if k < |files| {
      RoomLess(sb, ninodes, names, files, k + 1);
      MoreBlocks(DIRENT * (2 + k), DIRENT * (2 + (k + 1)));
    }
  }

  lemma RoomRoot(sb: Super, ninodes: nat, names: seq<seq<int>>, files: seq<seq<int>>)
    requires |names| == |files|
    ensures Space(sb, files, 0) == sb.nmeta + 1 && |Listing([], 0)| == 32 && BlocksOf(32) == 1
    ensures Room(sb, ninodes, names, files, |files|) ==> 2 <= ninodes && sb.nmeta < sb.size
  {
    RoomLess(sb, ninodes, names, files, 0);
  }

  lemma ListingNone(names: seq<seq<int>>)
    ensures Listing(names, 0) == Listing([], 0)
  {}

  lemma NoBytes(view: seq<Block>, ino: Inode)
    requires ino.size == 0
    ensures FileBytes(view, ino, ino.size) == [] && BlocksOf(ino.size) == 0
  {}

  /** A finished image: files 2, 3, ... hold the files, file 1 starts with the directory, and the
      blocks marked in use are those below freeblock. */
  ghost predicate Made(sb: Super, blocks: seq<Block>, ninodes: nat, owner: Owner, freeblock: nat,
                       names: seq<seq<int>>, files: seq<seq<int>>)
    requires |names| == |files|
  {
    && Shape(sb, blocks) && TableRoom(sb, ninodes) && 2 + |files| <= ninodes
    && (forall c :: 0 <= c < sb.size ==> (Bit(sb, blocks, c) <==> c < freeblock))
    && var inos, len := Table(sb, blocks, ninodes), |Listing(names, |names|)|;
       && FsOk(sb, blocks, inos, owner) && Typed(inos, |files|)
       && (forall j :: 2 <= j < 2 + |files| ==> FileBytes(blocks, inos[j], inos[j].size) == files[j - 2])
       && inos[ROOTINO].size == (len / BSIZE + 1) * BSIZE
       && FileBytes(blocks, inos[ROOTINO], len) == Listing(names, |names|)
       && (AllFull(blocks, inos) <==> len % BSIZE != 0)
       && (Sound(sb, blocks, inos, owner) <==> len < MAXFILE * BSIZE)
  }

  lemma FreeOnes(inos: seq<Inode>, freeinode: nat)
    requires forall i :: 0 <= i < |inos| && (i == 0 || freeinode <= i) ==> inos[i] == NoInode()
    requires forall i :: 0 < i < |inos| && i < freeinode ==> inos[i].typ != 0
    ensures FreeEmpty(inos)
  {}

  lemma MapRoom(sb: Super, blocks: seq<Block>)
    requires Shape(sb, blocks)
    ensures sb.bmapstart < |blocks|
  {}

  /** Once balloc(freeblock) has written the map, the image is the view in every respect that
      matters, and its map marks exactly the metadata and the blocks files own. */
  lemma MapWritten(sb: Super, view: seq<Block>, blocks: seq<Block>, inos: seq<Inode>, owner: Owner, freeblock: nat,
                   blocks': seq<Block>)
    requires FsOk(sb, view, inos, owner) && Shape(sb, blocks) && Unmapped(sb, blocks, view)
    requires UpTo(sb, blocks, owner, freeblock)
    requires sb.bmapstart < |blocks| == |blocks'| && blocks' == blocks[sb.bmapstart := blocks'[sb.bmapstart]]
    requires |blocks'[sb.bmapstart]| == BSIZE
    requires forall c :: 0 <= c < BPB ==> (BitOf(blocks'[sb.bmapstart][c / 8], c % 8) <==> c < freeblock)
    requires freeblock < BPB && TableRoom(sb, |inos|) && inos == Table(sb, view, |inos|)
    ensures FsOk(sb, blocks', inos, owner) && Table(sb, blocks', |inos|) == inos
    ensures forall c :: 0 <= c < sb.size ==> (Bit(sb, blocks', c) <==> c < freeblock)
    ensures AllFull(blocks', inos) <==> AllFull(view, inos)
    ensures AllInside(blocks', inos) <==> AllInside(view, inos)
    ensures forall j, e: nat :: 0 <= j < |inos| ==> FileBytes(blocks', inos[j], e) == FileBytes(view, inos[j], e)
  {
    hide BitOf, Weight, U32, GetDinode, Full, Inside, FileBytes;
    forall c | 0 <= c < sb.size
      ensures Bit(sb, blocks', c) <==> c < freeblock
    {
      MapBit(sb, blocks, freeblock, blocks', c);
    }
    forall j, l | 0 <= j < |inos| && 0 <= l < NSLOTS ensures SlotAt(blocks', inos, j, l) == SlotAt(view, inos, j, l) {
      if inos[j].addrs[NDIRECT] != 0 { IndirectOwned(sb, view, inos, owner, j); }
      SlotFrame(view, blocks', inos[j], l);
    }
    TableFrame(sb, view, blocks', |inos|);
    hide Bit, SlotAt, Table;
    SameSlots(sb, view, inos, owner, blocks');
    forall j, e: nat | 0 <= j < |inos|
      ensures FileBytes(blocks', inos[j], e) == FileBytes(view, inos[j], e)
      ensures Full(blocks', inos[j], e) <==> Full(view, inos[j], e)
      ensures Inside(blocks', inos[j], e) <==> Inside(view, inos[j], e)
    {
      DataSame(sb, view, inos, owner, blocks', j, e);
    }
  }

  lemma MapBit(sb: Super, blocks: seq<Block>, freeblock: nat, blocks': seq<Block>, c: nat)
    requires Shape(sb, blocks) && Shape(sb, blocks') && |blocks'| == |blocks| && c < sb.size && freeblock < BPB
    requires forall x :: sb.bmapstart <= x < sb.nmeta ==> blocks[x] == ZeroBlock()
    requires blocks' == blocks[sb.bmapstart := blocks'[sb.bmapstart]]
    requires forall y :: 0 <= y < BPB ==> (BitOf(blocks'[sb.bmapstart][y / 8], y % 8) <==> y < freeblock)
    ensures Bit(sb, blocks', c) <==> c < freeblock
  {
    hide Weight;
    if c >= BPB {
      assert MapBlock(sb, c) > sb.bmapstart && blocks'[MapBlock(sb, c)] == ZeroBlock();
    } else {
      hide BitOf;
      assert MapBlock(sb, c) == sb.bmapstart && c % BPB == c;
    }
  }

  lemma DataSame(sb: Super, view: seq<Block>, inos: seq<Inode>, owner: Owner, blocks': seq<Block>, j: nat, e: nat)
    requires SlotsOk(sb, view, inos, owner) && Shape(sb, blocks') && |blocks'| == |view| && j < |inos|
    requires forall x :: 0 <= x < |view| && !(sb.bmapstart <= x < sb.nmeta) ==> blocks'[x] == view[x]
    requires forall l :: 0 <= l < NSLOTS ==> SlotAt(blocks', inos, j, l) == SlotAt(view, inos, j, l)
    ensures FileBytes(blocks', inos[j], e) == FileBytes(view, inos[j], e)
    ensures Full(blocks', inos[j], e) <==> Full(view, inos[j], e)
    ensures Inside(blocks', inos[j], e) <==> Inside(view, inos[j], e)
  {
    hide U32;
    assert forall l: nat :: l >= NSLOTS ==> Slot(view, inos[j], l) == 0 && Slot(blocks', inos[j], l) == 0;
    hide Slot;
    forall l: nat ensures Slot(blocks', inos[j], l) == Slot(view, inos[j], l) {
      assert l < NSLOTS ==> SlotAt(blocks', inos, j, l) == SlotAt(view, inos, j, l);
    }
    forall x | 0 <= x < e ensures ByteAt(blocks', inos[j], x) == ByteAt(view, inos[j], x) {
      var l := SlotOf(x / BSIZE);
      assert l < NSLOTS ==> SlotAt(view, inos, j, l) == Slot(view, inos[j], l);
    }
  }

  lemma ImageMade(sb: Super, view: seq<Block>, blocks: seq<Block>, inos: seq<Inode>, owner: Owner, freeblock: nat,
                  names: seq<seq<int>>, files: seq<seq<int>>)
    requires |names| == |files| && 2 + |files| <= |inos| && TableRoom(sb, |inos|)
    requires FsOk(sb, blocks, inos, owner) && Table(sb, blocks, |inos|) == inos
    requires forall c :: 0 <= c < sb.size ==> (Bit(sb, blocks, c) <==> c < freeblock)
    requires forall j, e: nat :: 0 <= j < |inos| ==> FileBytes(blocks, inos[j], e) == FileBytes(view, inos[j], e)
    requires forall j :: 2 <= j < 2 + |files| ==> FileBytes(view, inos[j], inos[j].size) == files[j - 2]
    requires var len := |Listing(names, |names|)|;
      && inos[ROOTINO].size == (len / BSIZE + 1) * BSIZE
      && FileBytes(view, inos[ROOTINO], len) == Listing(names, |names|)
      && (AllFull(blocks, inos) <==> len % BSIZE != 0)
      && (AllInside(blocks, inos) <==> len < MAXFILE * BSIZE)
    requires FreeEmpty(inos) && Typed(inos, |files|)
    ensures Made(sb, blocks, |inos|, owner, freeblock, names, files)
  {}

  /** mkfs, then the kernel's mount: unless the directory is as long as a file can be, the file
      system starts out sound, with exactly these files. */
  method MakeAndMount(s: Super, n: nat, names: seq<seq<int>>, files: seq<seq<int>>) returns (ok: bool, fs: FileSystem?)
    requires Areas(s) && TableRoom(s, n) && |names| == |files|
    ensures ok <==> Room(s, n, names, files, |files|) && Space(s, files, |files|) < BPB
    ensures fs != null <==> ok && DIRENT * (2 + |files|) < MAXFILE * BSIZE
    ensures fs != null ==>
      && fs.Valid() && (AllFull(fs.blocks, fs.inos) <==> DIRENT * (2 + |files|) % BSIZE != 0)
      && fs.sb == s && |fs.inos| == n >= 2 + |files|
      && Typed(fs.inos, |files|) && NamesIn(FileBytes(fs.blocks, fs.inos[1], 16 * (2 + |files|)), names, |names|)
      && forall j :: 2 <= j < 2 + |files| ==> fs.Contents(j) == files[j - 2]
  {
    hide Listing, FileBytes, Table, Bit, NamesIn;
    fs := null;
    var img := new Image(s, n);
    ok := img.Fill(names, files);
    if ok && DIRENT * (2 + |files|) < MAXFILE * BSIZE {
      fs := new FileSystem(s, img.blocks, n, img.owner);
    }
  }
}
