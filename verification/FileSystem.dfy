/** balloc, bfree, bmap, readi, writei, itrunc, iput, ialloc and iupdate of fs.c.

    `blocks` is the disk as the log and the buffer cache present it, inode table included, and
    `inos` the in-memory inodes. `log` records every log_write since the mount, so `blocks` is
    always the mounted disk `base` with those writes replayed. */
module FileSystem {
  import opened Common
  import opened FsLayout
  import opened FsSteps
  import opened FsBytes
  import RedoLog

  /** writei either finishes, refuses with -1, or stops in balloc's out-of-blocks panic. */
  datatype Outcome = Done(n: nat) | Refused | Panicked

  datatype ReadOutcome = Got(bytes: seq<int>) | NotRead | Stopped

  /** The entry of addrs through which file block bn is found. */
  function EntryOf(bn: nat): nat {
    if bn < NDIRECT then bn else NDIRECT
  }

  /** One of the blocks with bytes lo up to hi has no entry in addrs. */
  ghost predicate Gap(ino: Inode, lo: nat, hi: nat)
    requires |ino.addrs| == NDIRECT + 1
  {
    lo < hi && exists bn: nat :: lo / BSIZE <= bn && bn * BSIZE < hi && ino.addrs[EntryOf(bn)] == 0
  }

  /** Entries are only added. */
  ghost predicate Extends(a: seq<int>, b: seq<int>) {
    |a| == |b| && forall k :: 0 <= k < |a| && a[k] != 0 ==> b[k] == a[k]
  }

  /** The records on disk are the inodes in memory, except that entries of addrs may be missing. */
  ghost predicate Lags(table: seq<Inode>, inos: seq<Inode>) {
    && |table| == |inos|
    && forall j :: 0 <= j < |inos| ==>
         table[j] == inos[j].(addrs := table[j].addrs) && Extends(table[j].addrs, inos[j].addrs)
  }

  /** The free map has no clear bit: the case of balloc's panic. */
  ghost predicate DiskFull(sb: Super, blocks: seq<Block>) {
    Shape(sb, blocks) && forall c :: 0 <= c < sb.size ==> Bit(sb, blocks, c)
  }

  /** Nothing before the free map, so no inode record, has changed. */
  ghost predicate Kept(sb: Super, blocks: seq<Block>, blocks': seq<Block>) {
    |blocks'| == |blocks| && forall x :: 0 <= x < sb.bmapstart && x < |blocks| ==> blocks'[x] == blocks[x]
  }

  /** The log_writes since l0 all go to the inode table or beyond it, never to the log. */
  ghost predicate Grew(sb: Super, l0: seq<RedoLog.Write>, l1: seq<RedoLog.Write>) {
    && |l0| <= |l1| && l1[..|l0|] == l0
    && forall t :: |l0| <= t < |l1| ==> sb.inodestart <= l1[t].blockno < sb.size
  }

  lemma AddrAt(blocks: seq<Block>, inos: seq<Inode>, i: nat, bn: nat)
    requires i < |inos|
    ensures SlotAt(blocks, inos, i, SlotOf(bn)) == Addr(blocks, inos[i], bn)
  {
    AddrMeans(blocks, inos[i], bn);
  }

  lemma MarkedFull(sb: Super, blocks: seq<Block>)
    requires DiskFull(sb, blocks)
    ensures AllMarked(sb, blocks)
  {
    FullMeans(sb, blocks);
  }

  lemma FreeStay(b0: seq<Block>, n0: seq<Inode>, blocks: seq<Block>, inos: seq<Inode>, i: nat)
    requires FreeEmpty(n0) && OthersSame(b0, n0, blocks, inos, i) && i < |n0|
    requires inos[i].typ != 0 || inos[i].size == 0
    ensures FreeEmpty(inos)
  {}

  class FileSystem {
    const sb: Super
    var blocks: seq<Block>
    var inos: seq<Inode>
    ghost var owner: Owner
    ghost const base: seq<Block>
    ghost var log: seq<RedoLog.Write>

    /** The disk is the mounted one after the log_writes so far. */
    ghost predicate Replays()
      reads this
    {
      blocks == RedoLog.Apply(base, log)
    }

    /** What every operation keeps, for files with holes too. */
    ghost predicate Working()
      reads this
    {
      && FsOk(sb, blocks, inos, owner) && AllInside(blocks, inos)
      && TableRoom(sb, |inos|) && Lags(Table(sb, blocks, |inos|), inos)
      && FreeEmpty(inos) && Replays() && Grew(sb, [], log)
    }

    ghost predicate Synced()
      reads this
      requires Shape(sb, blocks) && TableRoom(sb, |inos|)
    {
      inos == Table(sb, blocks, |inos|)
    }

    /** The same with every record on disk up to date. */
    ghost predicate Valid()
      reads this
    {
      Sound(sb, blocks, inos, owner) && Replays() && Grew(sb, [], log)
    }

    /** Up to date means working with nothing lagging. */
    lemma UpToDate()
      ensures Valid() <==> Working() && Synced()
    {}

    /** Mounting a sound disk: the in-memory inodes are the records of the inode table. */
    constructor (s: Super, disk: seq<Block>, ninodes: nat, ghost o: Owner)
      requires Shape(s, disk) && TableRoom(s, ninodes) && Sound(s, disk, Table(s, disk, ninodes), o)
      ensures Valid() && sb == s && blocks == disk && base == disk && owner == o && |inos| == ninodes && log == []
      ensures forall i :: 0 <= i < ninodes ==> OnDisk(s, disk, i, inos[i])
    {
      hide Sound, OnDisk;
      TableFits(s, disk, ninodes);
      forall i | 0 <= i < ninodes ensures OnDisk(s, disk, i, Table(s, disk, ninodes)[i]) {
        TableMeans(s, disk, ninodes, i, Table(s, disk, ninodes)[i]);
      }
      sb := s;
      blocks := disk;
      inos := Table(s, disk, ninodes);
      owner := o;
      base := disk;
      log := [];
    }

    /** The bytes of file i. */
    ghost function Contents(i: nat): seq<int>
      requires i < |inos|
      reads this
    {
      FileBytes(blocks, inos[i], inos[i].size)
    }

    /** log_write of a modified buffer. */
    method LogWrite(b: nat, data: Block)
      requires b < |blocks|
      modifies this`blocks, this`log
      ensures blocks == old(blocks)[b := data] && log == old(log) + [RedoLog.Write(b, data)]
      ensures old(Replays()) ==> Replays()
    {
      blocks := blocks[b := data];
      log := log + [RedoLog.Write(b, data)];
      assert log[..|log| - 1] == old(log);
    }

    /** balloc: the lowest-numbered free block, marked in use and zeroed. None is the panic. */
    method Balloc() returns (r: Option<nat>)
      requires Shape(sb, blocks)
      modifies this`blocks, this`log
      ensures Shape(sb, blocks) && (old(Replays()) ==> Replays())
      ensures r.Some? ==>
        && r.value < sb.size && !Bit(sb, old(blocks), r.value)
        && (forall c :: 0 <= c < r.value ==> Bit(sb, old(blocks), c))
        && blocks == Alloced(sb, old(blocks), r.value)
        && |log| == |old(log)| + 2 && log[..|old(log)|] == old(log)
        && log[|old(log)|].blockno == MapBlock(sb, r.value) && log[|old(log)| + 1].blockno == r.value
      ensures r.Some? ==> TakesLowest(sb, old(blocks), blocks, r.value)
      ensures r.None? ==>
        blocks == old(blocks) && log == old(log) && forall c :: 0 <= c < sb.size ==> Bit(sb, blocks, c)
      ensures r.None? ==> AllMarked(sb, blocks)
    {
      hide Bit, BitOf, Flipped, MapBlock, Weight, TakesLowest, AllMarked;
      var b := 0;
      while b < sb.size
        invariant 0 <= b && b % BPB == 0 && blocks == old(blocks) && log == old(log)
        invariant forall c :: 0 <= c < b && c < sb.size ==> Bit(sb, blocks, c)
      {
        var bi := 0;
        while bi < BPB && b + bi < sb.size
          invariant 0 <= bi <= BPB && blocks == old(blocks) && log == old(log)
          invariant forall c :: 0 <= c < b + bi && c < sb.size ==> Bit(sb, blocks, c)
        {
          var m := MapBlock(sb, b);
          InMapBlock(sb, blocks, b, bi);
          if !BitOf(blocks[m][bi / 8], bi % 8) {
            LogWrite(m, blocks[m][bi / 8 := blocks[m][bi / 8] + Weight(bi % 8)]);
            LogWrite(b + bi, ZeroBlock());
            AllocMeans(sb, old(blocks), b + bi);
            return Some(b + bi);
          }
          bi := bi + 1;
        }
        b := b + BPB;
      }
      FullMeans(sb, blocks);
      return None;
    }

    /** bfree of a block in use; freeing a free block is the panic its callers must avoid. */
    method Bfree(b: nat)
      requires Shape(sb, blocks) && b < sb.size && Bit(sb, blocks, b)
      modifies this`blocks, this`log
      ensures blocks == Flipped(sb, old(blocks), b) && (old(Replays()) ==> Replays())
      ensures Grew(sb, old(log), log) && Kept(sb, old(blocks), blocks) && Clears(sb, old(blocks), blocks, b)
    {
      hide Weight, BitOf, Clears;
      FreeMeans(sb, blocks, b);
      var m, bi := MapBlock(sb, b), b % BPB;
      LogWrite(m, blocks[m][bi / 8 := blocks[m][bi / 8] - Weight(bi % 8)]);
    }

    /** balloc on behalf of entry k of inode i's addrs. */
    method GiveDirect(i: nat, k: nat) returns (r: Option<nat>)
      requires FsOk(sb, blocks, inos, owner) && i < |inos| && k <= NDIRECT && inos[i].addrs[k] == 0 && Replays()
      modifies this`blocks, this`inos, this`owner, this`log
      ensures Replays() && Grew(sb, old(log), log) && Kept(sb, old(blocks), blocks)
      ensures r.Some? ==>
        && FsOk(sb, blocks, inos, owner) && r.value != 0
        && OneSlotChanged(old(blocks), old(inos), blocks, inos, i, k, r.value)
        && Grown(old(blocks), old(inos), old(owner), blocks, inos, owner, i)
      ensures r.None? ==> DiskFull(sb, blocks)
    {
      hide Bit, Slot, BitsFor, Alloced, Grew, Kept, Grown, TakesLowest, AllMarked;
      GrewNone(sb, log);
      KeptSame(sb, blocks);
      r := Balloc();
      if r.Some? {
        AttachDirect(sb, old(blocks), inos, owner, i, k, r.value);
        AllocTrace(sb, old(blocks), old(log), log, r.value);
        inos := inos[i := inos[i].(addrs := inos[i].addrs[k := r.value])];
        owner := owner[r.value := (i, k)];
      }
    }

    /** balloc on behalf of entry j of inode i's indirect block, then log_write of that block. */
    method GiveIndirect(i: nat, j: nat) returns (r: Option<nat>)
      requires FsOk(sb, blocks, inos, owner) && i < |inos| && j < NINDIRECT && Replays()
      requires inos[i].addrs[NDIRECT] != 0 && SlotAt(blocks, inos, i, NDIRECT + 1 + j) == 0
      modifies this`blocks, this`owner, this`log
      ensures Replays() && Grew(sb, old(log), log) && Kept(sb, old(blocks), blocks)
      ensures r.Some? ==>
        && FsOk(sb, blocks, inos, owner) && r.value != 0
        && OneSlotChanged(old(blocks), old(inos), blocks, inos, i, NDIRECT + 1 + j, r.value)
        && Grown(old(blocks), old(inos), old(owner), blocks, inos, owner, i)
      ensures r.None? ==> DiskFull(sb, blocks)
    {
      hide Bit, Slot, BitsFor, PutU32, Alloced, Grew, Kept, Grown, TakesLowest, AllMarked;
      GrewNone(sb, log);
      KeptSame(sb, blocks);
      var ind := inos[i].addrs[NDIRECT];
      IndirectOwned(sb, blocks, inos, owner, i);
      r := Balloc();
      if r.Some? {
        AttachIndirect(sb, old(blocks), inos, owner, i, j, r.value);
        AllocTrace(sb, old(blocks), old(log), log, r.value);
        ghost var b1, l1 := blocks, log;
        LogWrite(ind, PutU32(blocks[ind], j, r.value));
        StoreTrace(sb, old(blocks), b1, old(log), l1, blocks, log, ind);
        owner := owner[r.value := (i, NDIRECT + 1 + j)];
      }
    }

    /** bmap: the disk block of file block bn, for any file, with holes or without. A block that
        is there is returned and nothing changes; otherwise it is allocated, and so is the
        indirect block if it is needed and missing, and no other slot of any file changes.
        None is a panic: bn past the last block a file can have, or no free block. */
    method Bmap(i: nat, bn: nat) returns (r: Option<nat>)
      requires FsOk(sb, blocks, inos, owner) && i < |inos| && Replays()
      modifies this`blocks, this`inos, this`owner, this`log
      ensures Replays() && Grew(sb, old(log), log) && Kept(sb, old(blocks), blocks)
      ensures bn < MAXFILE && SlotAt(old(blocks), old(inos), i, SlotOf(bn)) != 0 ==>
        r.Some? && blocks == old(blocks) && inos == old(inos) && owner == old(owner) && log == old(log)
      ensures r.Some? ==>
        && FsOk(sb, blocks, inos, owner) && bn < MAXFILE && |inos| == |old(inos)|
        && Grown(old(blocks), old(inos), old(owner), blocks, inos, owner, i)
        && SlotAt(blocks, inos, i, SlotOf(bn)) == r.value && 0 < sb.nmeta <= r.value < sb.size
        && (forall l :: 0 <= l < NSLOTS && l != SlotOf(bn) && (l != NDIRECT || bn < NDIRECT) ==>
              SlotAt(blocks, inos, i, l) == SlotAt(old(blocks), old(inos), i, l))
        && (bn >= NDIRECT ==> SlotAt(blocks, inos, i, NDIRECT) != 0)
        && Extends(old(inos[i]).addrs, inos[i].addrs)
        && (inos == old(inos) <==> SlotAt(old(blocks), old(inos), i, EntryOf(bn)) != 0)
      ensures r.Some? ==> bn < 140 && Addr(blocks, inos[i], bn) == r.value
      ensures r.None? ==> if bn < 140 then DiskFull(sb, blocks) else blocks == old(blocks) && inos == old(inos)
    {
      hide FsOk, Slot, SlotAt, U32, DiskFull, Grew, Kept, Grown, Addr;
      GrewNone(sb, log);
      KeptSame(sb, blocks);
      if bn >= MAXFILE { return None; }
      Directs(sb, blocks, inos, owner, i);
      GrownSame(sb, blocks, inos, owner, i);
      if SlotAt(blocks, inos, i, SlotOf(bn)) != 0 { DataBlock(sb, blocks, inos, owner, i, bn); }
      AddrAt(blocks, inos, i, bn);
      if bn < NDIRECT {
        var a := inos[i].addrs[bn];
        if a != 0 { return Some(a); }
        r := GiveDirect(i, bn);
      } else {
        if inos[i].addrs[NDIRECT] == 0 {
          NoneBeyond(blocks, inos, i, bn);
          r := GiveDirect(i, NDIRECT);
          if r.None? { return; }
          Directs(sb, blocks, inos, owner, i);
        }
        ghost var b1, n1, o1, l1 := blocks, inos, owner, log;
        IndirectAt(sb, blocks, inos, owner, i, bn);
        AddrAt(blocks, inos, i, bn);
        var a := U32(blocks[inos[i].addrs[NDIRECT]], bn - NDIRECT);
        if a != 0 { return Some(a); }
        r := GiveIndirect(i, bn - NDIRECT);
        GrewTrans(sb, old(log), l1, log);
        KeptTrans(sb, old(blocks), b1, blocks);
        if r.Some? {
          SlotsOf(sb, b1, n1, o1);
          GrownTrans(sb, old(blocks), old(inos), old(owner), b1, n1, o1, blocks, inos, owner, i);
        }
      }
      if r.Some? {
        DataBlock(sb, blocks, inos, owner, i, bn);
        Directs(sb, blocks, inos, owner, i);
        AddrAt(blocks, inos, i, bn);
      }
    }

    /** The loop of readi. */
    method ReadBlocks(i: nat, off: nat, n: nat, size: nat) returns (ok: bool, dst: seq<int>)
      requires FsOk(sb, blocks, inos, owner) && AllInside(blocks, inos) && Replays()
      requires i < |inos| && size == inos[i].size && off + n <= size
      modifies this`blocks, this`inos, this`owner, this`log
      ensures ok ==>
        && |inos| == |old(inos)| && FsOk(sb, blocks, inos, owner) && Replays()
        && Grew(sb, old(log), log) && Kept(sb, old(blocks), blocks)
        && SameFiles(old(blocks), old(inos), blocks, inos, i) && Inside(blocks, inos[i], size)
        && FileBytes(blocks, inos[i], size) == old(Contents(i)) && dst == old(Contents(i))[off..off + n]
        && (inos == old(inos) <==> !Gap(old(inos[i]), off, off + n))
        && (old(AllFull(blocks, inos)) ==>
              blocks == old(blocks) && inos == old(inos) && owner == old(owner) && log == old(log))
      ensures !ok ==> DiskFull(sb, blocks)
    {
      hide Slot, FsOk, FileBytes, Grown, Grew, Kept, Inside, Full, DiskFull, Extends, SameFiles, Gap;
      ghost var b0, n0 := blocks, inos;
      ghost var full, bytes := AllFull(blocks, inos), Contents(i);
      var tot, at := 0, off;
      dst := [];
      SizeBound(blocks, inos, i);
      StartRead(sb, blocks, inos, owner, log, i, off);
      while tot < n
        invariant 0 <= tot <= n && at == off + tot && |inos| == |n0|
        invariant at == off || at % BSIZE == 0 || tot == n
        invariant FsOk(sb, blocks, inos, owner) && Replays() && Grew(sb, old(log), log) && Kept(sb, b0, blocks)
        invariant SameFiles(b0, n0, blocks, inos, i) && FileBytes(blocks, inos[i], size) == bytes
        invariant Inside(blocks, inos[i], size)
        invariant |n0[i].addrs| == NDIRECT + 1 && (inos == n0 <==> !Gap(n0[i], off, at))
        invariant full ==> blocks == b0 && inos == n0 && owner == old(owner) && log == old(log)
        invariant dst == bytes[off..at]
        modifies this`blocks, this`inos, this`owner, this`log
      {
        ghost var b1, n1, o1, l1 := blocks, inos, owner, log;
        if full { HasBlock(blocks, inos, i, at); }
        var a := Bmap(i, at / BSIZE);
        if a.None? { InsideAt(b1, n1[i], size, at); return false, dst; }
        var m := if n - tot < BSIZE - at % BSIZE then n - tot else BSIZE - at % BSIZE;
        ReadStep(sb, b0, n0, b1, n1, o1, blocks, inos, owner, i, off, at, m, size);
        GrewTrans(sb, old(log), l1, log);
        KeptTrans(sb, b0, b1, blocks);
        dst := dst + blocks[a.value][at % BSIZE..at % BSIZE + m];
        assert bytes[off..at] + bytes[at..at + m] == bytes[off..at + m];
        tot, at := tot + m, at + m;
      }
      return true, dst;
    }

    /** readi on a regular file or directory: exactly the slice of the file, cut at its end, with
        zeros for holes. No file changes. A hole that is read gets a block, and if its entry belongs
        in addrs, only the inode in memory knows of it: readi does not write the inode back. */
    method Readi(i: nat, off: nat, n: nat) returns (r: ReadOutcome)
      requires Working() && i < |inos| && off < UINT && n < UINT
      modifies this
      ensures r.NotRead? <==> off > old(inos[i]).size || off + n >= 0x1_0000_0000
      ensures r.NotRead? ==> blocks == old(blocks) && inos == old(inos) && owner == old(owner) && log == old(log)
      ensures r.Got? ==>
        var end := if off + n <= old(inos[i]).size then off + n else old(inos[i]).size;
        && Working() && |inos| == |old(inos)| && r.bytes == old(Contents(i))[off..end]
        && OthersSame(old(blocks), old(inos), blocks, inos, i) && Contents(i) == old(Contents(i))
        && Table(sb, blocks, |inos|) == Table(sb, old(blocks), |inos|)
        && (inos == old(inos) <==> !Gap(old(inos[i]), off, end))
        && (old(AllFull(blocks, inos)) ==>
              blocks == old(blocks) && inos == old(inos) && owner == old(owner) && log == old(log))
      ensures r.Got? ==>
        && |r.bytes| == (if off + n <= old(inos[i]).size then n else old(inos[i]).size - off)
        && forall k :: 0 <= k < |r.bytes| ==> r.bytes[k] == Byte(old(blocks), old(inos[i]), off + k)
      ensures r.Stopped? ==> DiskFull(sb, blocks) && AllMarked(sb, blocks)
    {
      hide FsOk, FileBytes, Grew, Kept, AllInside, Table, AllFull, DiskFull, Extends, OthersSame, FreeEmpty;
      hide Byte, AllMarked;
      BytesMean(blocks, inos[i], inos[i].size);
      var size := inos[i].size;
      if off > size || (off + n) % UINT < off { return NotRead; }
      ghost var b0, n0 := blocks, inos;
      var n1 := if off + n > size then size - off else n;
      ShapeOf(sb, b0, n0, owner);
      var ok, dst := ReadBlocks(i, off, n1, size);
      if !ok { MarkedFull(sb, blocks); return Stopped; }
      EndRead(sb, b0, n0, blocks, inos, owner, i);
      FreeStays(b0, n0, blocks, inos, i);
      GrewTrans(sb, [], old(log), log);
      return Got(dst);
    }

    /** One round of writei's loop: map the block, copy up to its end, log it. `e` is how far the
        file's blocks may reach. */
    method WriteChunk(i: nat, off: nat, data: seq<int>, ghost e: nat) returns (ok: bool)
      requires FsOk(sb, blocks, inos, owner) && i < |inos| && Inside(blocks, inos[i], e) && Replays()
      requires off <= e && 0 < |data| && off % BSIZE + |data| <= BSIZE && off + |data| <= MAXFILE * BSIZE
      modifies this`blocks, this`inos, this`owner, this`log
      ensures Replays() && Grew(sb, old(log), log) && Kept(sb, old(blocks), blocks)
      ensures ok ==>
        && FsOk(sb, blocks, inos, owner) && OthersSame(old(blocks), old(inos), blocks, inos, i)
        && inos[i] == old(inos[i]).(addrs := inos[i].addrs)
        && Extends(old(inos[i]).addrs, inos[i].addrs)
        && (inos == old(inos) <==> SlotAt(old(blocks), old(inos), i, EntryOf(off / BSIZE)) != 0)
        && var e' := if off + |data| <= e then e else off + |data|;
           && Inside(blocks, inos[i], e')
           && FileBytes(blocks, inos[i], e') == Splice(FileBytes(old(blocks), old(inos[i]), e), off, data)
      ensures !ok ==> DiskFull(sb, blocks)
    {
      hide Slot, FileBytes, SlotsOk, BitsFor, Inside, DiskFull, Splice, Grew, Kept, Extends;
      var bn, o := off / BSIZE, off % BSIZE;
      ghost var e' := if off + |data| <= e then e else off + |data|;
      var r := Bmap(i, bn);
      if r.None? { return false; }
      ghost var b1, n1, l1 := blocks, inos, log;
      ShapeOf(sb, b1, n1, owner);
      InsideBound(old(blocks), old(inos[i]), e);
      NextInside(old(blocks), old(inos), blocks, inos, i, bn, e, e');
      GrownOthers(sb, old(blocks), old(inos), old(owner), blocks, inos, owner, i);
      GrownBytes(sb, old(blocks), old(inos), old(owner), blocks, inos, owner, i, i, e);
      StoreOthers(sb, blocks, inos, owner, i, bn, o, data);
      StoreSplices(sb, blocks, inos, owner, i, off, data, e, e');
      LogWrite(r.value, blocks[r.value][..o] + data + blocks[r.value][o + |data|..]);
      StoreTrace(sb, old(blocks), b1, old(log), l1, blocks, log, r.value);
      OthersTrans(old(blocks), old(inos), b1, n1, blocks, inos, i);
      SlotsGiveFull(b1, n1, blocks, inos, i, e');
      return true;
    }

    /** The loop of writei. `size` is the file's size when it starts. */
    method WriteBlocks(i: nat, off: nat, src: seq<int>, size: nat) returns (ok: bool)
      requires FsOk(sb, blocks, inos, owner) && i < |inos| && Replays() && AllInside(blocks, inos)
      requires size == inos[i].size
      requires off <= size && off + |src| <= MAXFILE * BSIZE
      modifies this`blocks, this`inos, this`owner, this`log
      ensures Replays() && Grew(sb, old(log), log) && Kept(sb, old(blocks), blocks)
      ensures |old(inos[i]).addrs| == NDIRECT + 1
      ensures ok ==>
        && |inos| == |old(inos)| && FsOk(sb, blocks, inos, owner) && OthersSame(old(blocks), old(inos), blocks, inos, i)
        && inos[i] == old(inos[i]).(addrs := inos[i].addrs) && Extends(old(inos[i]).addrs, inos[i].addrs)
        && (inos == old(inos) <==> !Gap(old(inos[i]), off, off + |src|))
        && var e := if off + |src| <= size then size else off + |src|;
           Inside(blocks, inos[i], e) && FileBytes(blocks, inos[i], e) == Splice(old(Contents(i)), off, src)
      ensures !ok ==> DiskFull(sb, blocks)
    {
      hide Slot, FileBytes, FsOk, Inside, Splice, DiskFull, Grew, Kept, Extends, Gap;
      var tot, at := 0, off;
      ghost var e, b0, n0 := size, blocks, inos;
      SpliceNothing(Contents(i), off);
      StartRead(sb, blocks, inos, owner, log, i, off);
      SizeBound(blocks, inos, i);
      assert src[..0] == [];
      while tot < |src|
        invariant 0 <= tot <= |src| && at == off + tot && e == if at <= size then size else at
        invariant at == off || at % BSIZE == 0 || tot == |src|
        invariant |inos| == |n0| && FsOk(sb, blocks, inos, owner) && Inside(blocks, inos[i], e)
        invariant SameFiles(b0, n0, blocks, inos, i) && (inos == n0 <==> !Gap(n0[i], off, at))
        invariant FileBytes(blocks, inos[i], e) == Splice(old(Contents(i)), off, src[..tot])
        invariant Replays() && Grew(sb, old(log), log) && Kept(sb, b0, blocks)
        modifies this`blocks, this`inos, this`owner, this`log
      {
        var m := if |src| - tot < BSIZE - at % BSIZE then |src| - tot else BSIZE - at % BSIZE;
        ghost var b1, n1, o1, l1 := blocks, inos, owner, log;
        ok := WriteChunk(i, at, src[tot..tot + m], e);
        GrewTrans(sb, old(log), l1, log);
        KeptTrans(sb, b0, b1, blocks);
        if !ok { return; }
        SpliceSplice(old(Contents(i)), off, src[..tot], src[tot..tot + m]);
        assert src[..tot] + src[tot..tot + m] == src[..tot + m];
        SameFilesMore(sb, b0, n0, b1, n1, o1, blocks, inos, i, off, at, m);
        tot, at := tot + m, at + m;
        e := if at <= size then size else at;
      }
      assert src[..tot] == src;
      return true;
    }

    /** The end of writei when the file has grown to e bytes: the inode is written back. b0 and n0 are
        blocks and inodes before the call. */
    method SetSize(i: nat, e: nat, ghost b0: seq<Block>, ghost n0: seq<Inode>)
      requires FsOk(sb, blocks, inos, owner) && Replays() && Shape(sb, b0) && TableRoom(sb, |n0|)
      requires Lags(Table(sb, b0, |n0|), n0) && AllInside(b0, n0) && i < |n0| == |inos| && Kept(sb, b0, blocks)
      requires OthersSame(b0, n0, blocks, inos, i) && inos[i] == n0[i].(addrs := inos[i].addrs)
      requires Inside(blocks, inos[i], e)
      modifies this`blocks, this`inos, this`log
      ensures FsOk(sb, blocks, inos, owner) && Replays() && Grew(sb, old(log), log) && AllInside(blocks, inos)
      ensures |inos| == |n0| && Table(sb, blocks, |n0|) == Table(sb, b0, |n0|)[i := inos[i]]
      ensures Lags(Table(sb, blocks, |n0|), inos) && (n0 == Table(sb, b0, |n0|) ==> inos == Table(sb, blocks, |n0|))
      ensures OthersSame(b0, n0, blocks, inos, i) && inos[i] == old(inos[i]).(size := e)
      ensures FileBytes(blocks, inos[i], e) == FileBytes(old(blocks), old(inos[i]), e)
    {
      hide FileBytes, FsOk, Inside, Grew, Kept, Table, Fits, AllInside, Extends, SlotsStay, Rewrites;
      ghost var n1, b1 := inos, blocks;
      inos := inos[i := inos[i].(size := e)];
      SizeOnly(sb, blocks, n1, owner, inos, i);
      SizedOthers(b0, n0, blocks, n1, inos, i);
      AllAgain(b0, n0, blocks, inos, i);
      InsideBound(blocks, n1[i], e);
      RecordShorts(sb, b0, n0, i);
      WriteBack(sb, b0, n0, blocks, inos, owner, i);
      Iupdate(i);
      AfterUpdate(b0, n0, b1, blocks, inos, i);
    }

    /** writei on a regular file or directory: the file becomes the splice of its old bytes and
        the data, and no other file changes. The inode is written back when the size has grown, and
        only then: an entry added to addrs for a hole stays in memory. A refused write changes
        nothing. */
    method Writei(i: nat, off: nat, src: seq<int>) returns (r: Outcome)
      requires Working() && i < |inos| && inos[i].typ != 0 && off < UINT && |src| < UINT
      modifies this
      ensures |old(inos[i]).addrs| == NDIRECT + 1 && Grew(sb, old(log), log)
      ensures r.Refused? <==> off > old(inos[i]).size || off + |src| > 140 * 512
      ensures r.Refused? ==> blocks == old(blocks) && inos == old(inos) && owner == old(owner) && log == old(log)
      ensures r.Done? ==>
        && r.n == |src| && Working() && OthersSame(old(blocks), old(inos), blocks, inos, i)
        && Contents(i) == Splice(old(Contents(i)), off, src)
        && inos[i] == old(inos[i]).(size := inos[i].size, addrs := inos[i].addrs)
        && inos[i].size == (if off + |src| > old(inos[i]).size then off + |src| else old(inos[i]).size)
        && var grew, gap := inos[i].size > old(inos[i]).size, Gap(old(inos[i]), off, off + |src|);
           && (!grew ==> (inos == old(inos) <==> !gap))
           && (old(Synced()) ==> (Synced() <==> grew || !gap))
      ensures r.Done? ==> Wrote(old(blocks), old(inos[i]), blocks, inos[i], off, src)
      ensures r.Done? ==> forall j :: 0 <= j < |inos| && j != i ==>
        inos[j] == old(inos)[j] && ReadsSame(old(blocks), blocks, inos[j])
      ensures r.Panicked? ==> DiskFull(sb, blocks) && AllMarked(sb, blocks)
    {
      hide FileBytes, FsOk, Inside, Splice, Wrote, ReadsSame, AllMarked, DiskFull, Grew, Kept, Table;
      hide AllInside, Gap, Extends, FreeEmpty, OthersSame;
      var size := inos[i].size;
      SizeBound(blocks, inos, i);
      ShapeOf(sb, blocks, inos, owner);
      Directs(sb, blocks, inos, owner, i);
      GrewNone(sb, log);
      if off > size || (off + |src|) % UINT < off { return Refused; }
      if off + |src| > MAXFILE * BSIZE { return Refused; }
      var ok := WriteBlocks(i, off, src, size);
      if !ok { MarkedFull(sb, blocks); return Panicked; }
      ghost var l1 := log;
      GrewTrans(sb, [], old(log), log);
      if |src| > 0 && off + |src| > size {
        SetSize(i, off + |src|, old(blocks), old(inos));
        GrewTrans(sb, old(log), l1, log);
        GrewTrans(sb, [], old(log), log);
      } else {
        AllAgain(old(blocks), old(inos), blocks, inos, i);
        StillLags(sb, old(blocks), old(inos), blocks, inos, owner, i);
      }
      FreeStay(old(blocks), old(inos), blocks, inos, i);
      WroteMeans(old(blocks), old(inos[i]), blocks, inos[i], off, src);
      OthersMean(old(blocks), old(inos), blocks, inos, i);
      return Done(|src|);
    }

    /** iupdate: record i of the inode table becomes the in-memory inode, byte for byte, and no
        other record, no file and no map bit changes. */
    method Iupdate(i: nat)
      requires FsOk(sb, blocks, inos, owner) && TableRoom(sb, |inos|) && i < |inos| && Fits(inos[i]) && Replays()
      modifies this`blocks, this`log
      ensures FsOk(sb, blocks, inos, owner) && Replays() && Grew(sb, old(log), log)
      ensures Table(sb, blocks, |inos|) == Table(sb, old(blocks), |inos|)[i := inos[i]]
      ensures forall j :: 0 <= j < |inos| ==>
        && SlotsStay(old(blocks), inos, blocks, inos, j)
        && FileBytes(blocks, inos[j], inos[j].size) == FileBytes(old(blocks), inos[j], inos[j].size)
      ensures |blocks| == |old(blocks)| && forall x :: sb.bmapstart <= x < |blocks| ==> blocks[x] == old(blocks)[x]
      ensures Rewrites(sb, old(blocks), blocks, i, inos[i])
    {
      hide FsOk, FileBytes, PutDinode, GetDinode, SlotsStay, Rewrites;
      ShapeOf(sb, blocks, inos, owner);
      TableUpdate(sb, blocks, |inos|, i, inos[i]);
      UpdateMeans(sb, blocks, i, inos[i]);
      MetaWrite(sb, blocks, inos, owner, Updated(sb, blocks, i, inos[i]));
      LogWrite(InoBlock(sb, i), PutDinode(blocks[InoBlock(sb, i)], i % IPB, inos[i]));
    }

    /** The first loop of itrunc. */
    method TruncDirect(i: nat)
      requires Working() && i < |inos|
      modifies this`blocks, this`inos, this`log
      ensures Shape(sb, blocks) && |blocks| == |old(blocks)|
      ensures Replays() && Grew(sb, old(log), log) && Kept(sb, old(blocks), blocks)
      ensures forall x :: sb.nmeta <= x < |blocks| ==> blocks[x] == old(blocks)[x]
      ensures BitsFor(sb, blocks, Drop(owner, i, 0, NDIRECT).Keys)
      ensures |inos| == |old(inos)| && inos == old(inos)[i := old(inos)[i].(addrs := inos[i].addrs)]
      ensures |inos[i].addrs| == NDIRECT + 1
      ensures forall m :: 0 <= m <= NDIRECT ==> inos[i].addrs[m] == if m < NDIRECT then 0 else old(inos)[i].addrs[m]
    {
      hide Bit, Slot, BitsFor, Inside, FileBytes, Flipped, Drop, Grew, Kept, Table, Clears;
      hide Lags, InoBlock;
      ghost var b0, n0, o0 := blocks, inos, owner;
      DropNone(o0, i, 0);
      GrewNone(sb, log);
      KeptSame(sb, blocks);
      var k := 0;
      while k < NDIRECT
        invariant 0 <= k <= NDIRECT && Shape(sb, blocks) && |blocks| == |b0|
        invariant Replays() && Grew(sb, old(log), log) && Kept(sb, b0, blocks)
        invariant forall x :: sb.nmeta <= x < |blocks| ==> blocks[x] == b0[x]
        invariant BitsFor(sb, blocks, Drop(o0, i, 0, k).Keys)
        invariant |inos| == |n0| && inos == n0[i := n0[i].(addrs := inos[i].addrs)] && |inos[i].addrs| == NDIRECT + 1
        invariant forall m :: 0 <= m <= NDIRECT ==> inos[i].addrs[m] == if m < k then 0 else n0[i].addrs[m]
        modifies this`blocks, this`inos, this`log
      {
        DropOne(sb, b0, n0, o0, o0, i, 0, k);
        DirectSlot(b0, n0, i, k);
        if inos[i].addrs[k] != 0 {
          FreeBits(sb, blocks, Drop(o0, i, 0, k).Keys, inos[i].addrs[k]);
          ghost var b1, l1 := blocks, log;
          Bfree(inos[i].addrs[k]);
          GrewTrans(sb, old(log), l1, log);
          KeptTrans(sb, b0, b1, blocks);
          inos := inos[i := inos[i].(addrs := inos[i].addrs[k := 0])];
        }
        k := k + 1;
      }
    }

    /** The second loop of itrunc: the blocks the indirect block names. */
    method TruncIndirect(i: nat, a: Block, ghost b0: seq<Block>, ghost n0: seq<Inode>, ghost o0: Owner)
      requires SlotsOk(sb, b0, n0, o0) && i < |n0| && n0[i].addrs[NDIRECT] != 0 && Shape(sb, blocks)
      requires |blocks| == |b0| && Replays()
      requires 0 < n0[i].addrs[NDIRECT] < |b0| && a == b0[n0[i].addrs[NDIRECT]] && |a| == BSIZE
      requires BitsFor(sb, blocks, Drop(o0, i, 0, NDIRECT).Keys)
      modifies this`blocks, this`log
      ensures Shape(sb, blocks) && |blocks| == |b0| && Replays() && Grew(sb, old(log), log)
      ensures Kept(sb, old(blocks), blocks)
      ensures forall x :: sb.nmeta <= x < |blocks| ==> blocks[x] == old(blocks)[x]
      ensures BitsFor(sb, blocks, Drop(Drop(o0, i, 0, NDIRECT), i, NDIRECT + 1, NSLOTS).Keys)
    {
      hide Bit, Slot, BitsFor, Flipped, Drop, Grew, Kept, Clears;
      ghost var o1 := Drop(o0, i, 0, NDIRECT);
      DropSub(o0, i, 0, NDIRECT);
      DropNone(o1, i, NDIRECT + 1);
      GrewNone(sb, log);
      KeptSame(sb, blocks);
      var j := 0;
      while j < NINDIRECT
        invariant 0 <= j <= NINDIRECT && Shape(sb, blocks) && |blocks| == |b0|
        invariant Replays() && Grew(sb, old(log), log) && Kept(sb, old(blocks), blocks)
        invariant forall x :: sb.nmeta <= x < |blocks| ==> blocks[x] == old(blocks)[x]
        invariant BitsFor(sb, blocks, Drop(o1, i, NDIRECT + 1, NDIRECT + 1 + j).Keys)
        modifies this`blocks, this`log
      {
        DropOne(sb, b0, n0, o0, o1, i, NDIRECT + 1, NDIRECT + 1 + j);
        IndirectSlot(sb, b0, n0, o0, i, j);
        if U32(a, j) != 0 {
          KeptBlock(o0, i, U32(a, j), NDIRECT + 1 + j);
          FreeBits(sb, blocks, Drop(o1, i, NDIRECT + 1, NDIRECT + 1 + j).Keys, U32(a, j));
          ghost var b1, l1 := blocks, log;
          Bfree(U32(a, j));
          GrewTrans(sb, old(log), l1, log);
          KeptTrans(sb, old(blocks), b1, blocks);
        }
        j := j + 1;
      }
    }

    /** Both loops of itrunc and the indirect block: the file's slots, and no others, are freed. */
    method FreeBlocks(i: nat)
      requires Working() && i < |inos|
      modifies this`blocks, this`inos, this`log
      ensures Shape(sb, blocks) && |blocks| == |old(blocks)|
      ensures Replays() && Grew(sb, old(log), log) && Kept(sb, old(blocks), blocks)
      ensures forall x :: sb.nmeta <= x < |blocks| ==> blocks[x] == old(blocks)[x]
      ensures BitsFor(sb, blocks, Drop(owner, i, 0, NSLOTS).Keys)
      ensures inos == old(inos)[i := old(inos)[i].(addrs := NoAddrs())]
    {
      hide Bit, Slot, SlotsOk, BitsFor, Inside, FileBytes, Flipped, Drop, Grew, Kept, Table, Clears;
      ghost var b0, n0, o0, l0 := blocks, inos, owner, log;
      TruncDirect(i);
      ghost var b1, l1 := blocks, log;
      var ind := inos[i].addrs[NDIRECT];
      if ind != 0 {
        IndirectOwned(sb, b0, n0, o0, i);
        TruncIndirect(i, blocks[ind], b0, n0, o0);
        ghost var b2, l2 := blocks, log;
        FreeIndirect(sb, b0, n0, o0, blocks, i);
        Bfree(ind);
        GrewTrans(sb, l0, l1, l2);
        GrewTrans(sb, l0, l2, log);
        KeptTrans(sb, b0, b1, b2);
        KeptTrans(sb, b0, b2, blocks);
        inos := inos[i := inos[i].(addrs := inos[i].addrs[NDIRECT := 0])];
      } else {
        NoIndirect(sb, b0, n0, o0, i);
      }
      assert inos[i].addrs == NoAddrs();
    }

    /** itrunc: every block of the file goes back to the free map exactly once (bfree's panic is
        never reached), nothing else is freed, and the emptied inode is written back. */
    method Itrunc(i: nat)
      requires Working() && i < |inos|
      modifies this
      ensures Working() && |inos| == |old(inos)| && |blocks| == |old(blocks)| && Grew(sb, old(log), log)
      ensures Contents(i) == [] && owner == Drop(old(owner), i, 0, NSLOTS)
      ensures inos[i] == old(inos[i]).(size := 0, addrs := NoAddrs())
      ensures OthersSame(old(blocks), old(inos), blocks, inos, i)
      ensures Table(sb, blocks, |inos|) == Table(sb, old(blocks), |inos|)[i := inos[i]]
      ensures forall x :: sb.nmeta <= x < |blocks| ==> blocks[x] == old(blocks)[x]
    {
      hide SlotsOk, BitsFor, Inside, FileBytes, Drop, Grew, Kept, Table, SlotsStay, Extends, Clears, Rewrites;
      hide Lags, Slot, InoBlock;
      ghost var b0, n0, o0, l0 := blocks, inos, owner, log;
      SizeBound(blocks, inos, i);
      ShapeOf(sb, blocks, inos, owner);
      RecordShorts(sb, b0, n0, i);
      FreeBlocks(i);
      inos := inos[i := inos[i].(size := 0)];
      Emptied(sb, b0, n0, o0, blocks, inos, i);
      owner := Drop(o0, i, 0, NSLOTS);
      AllAgain(b0, n0, blocks, inos, i);
      WriteBack(sb, b0, n0, blocks, inos, owner, i);
      ghost var b3, l3 := blocks, log;
      Iupdate(i);
      AfterUpdate(b0, n0, b3, blocks, inos, i);
      GrewTrans(sb, l0, l3, log);
      GrewTrans(sb, [], l0, log);
    }

    /** iput: dropping the last reference to a loaded, unlinked inode gives its blocks and the
        inode back; dropping any other reference changes nothing on disk. The result is the new
        reference count and whether the inode is still loaded. */
    method Iput(i: nat, ref: nat, loaded: bool) returns (left: nat, still: bool)
      requires Working() && i < |inos| && 1 <= ref
      modifies this
      ensures Working() && |inos| == |old(inos)| && left == ref - 1 && Grew(sb, old(log), log)
      ensures OthersSame(old(blocks), old(inos), blocks, inos, i)
      ensures var last := ref == 1 && loaded && old(inos[i]).nlink == 0;
        && still == (loaded && !last)
        && (!last ==> blocks == old(blocks) && inos == old(inos) && owner == old(owner) && log == old(log))
        && (last ==> inos[i] == old(inos[i]).(typ := 0, size := 0, addrs := NoAddrs())
                     && owner == Drop(old(owner), i, 0, NSLOTS)
                     && Table(sb, blocks, |inos|) == Table(sb, old(blocks), |inos|)[i := inos[i]])
    {
      hide FsOk, Inside, FileBytes, Drop, Grew, Table, SlotsStay, Extends, Rewrites;
      hide Lags, InoBlock, Slot;
      GrewNone(sb, log);
      OthersStay(blocks, inos, i);
      still := loaded;
      if ref == 1 && loaded && inos[i].nlink == 0 {
        Itrunc(i);
        ghost var b1, n1, l1 := blocks, inos, log;
        KeptSame(sb, blocks);
        SizeBound(blocks, inos, i);
        ShapeOf(sb, blocks, inos, owner);
        inos := inos[i := inos[i].(typ := 0)];
        TypeOnly(sb, blocks, n1, owner, inos);
        OthersStay(b1, n1, i);
        SizedOthers(b1, n1, b1, n1, inos, i);
        WriteBack(sb, b1, n1, blocks, inos, owner, i);
        Iupdate(i);
        AfterUpdate(b1, n1, b1, blocks, inos, i);
        OthersTrans(old(blocks), old(inos), b1, n1, blocks, inos, i);
        GrewTrans(sb, old(log), l1, log);
        GrewTrans(sb, [], old(log), log);
        still := false;
      }
      left := ref - 1;
    }

    /** ialloc: the lowest-numbered free inode from 1 on, its record cleared and typed. None is
        the panic. */
    method Ialloc(typ: int) returns (r: Option<nat>)
      requires Working() && typ != 0 && IsShort(typ)
      modifies this
      ensures Working() && |inos| == |old(inos)| && owner == old(owner) && Grew(sb, old(log), log)
      ensures r.Some? ==>
        && 1 <= r.value < |inos| && old(inos)[r.value].typ == 0
        && inos == old(inos)[r.value := Inode(typ, 0, 0, 0, 0, NoAddrs())]
        && (forall m :: 1 <= m < r.value ==> old(inos)[m].typ != 0)
        && OthersSame(old(blocks), old(inos), blocks, inos, r.value)
        && Table(sb, blocks, |inos|) == Table(sb, old(blocks), |inos|)[r.value := inos[r.value]]
      ensures r.None? ==> inos == old(inos) && blocks == old(blocks) && log == old(log)
      ensures r.None? ==> forall m :: 1 <= m < |inos| ==> inos[m].typ != 0
    {
      hide FsOk, Inside, FileBytes, Drop, Grew, GetDinode, SlotsStay, Extends, Rewrites;
      GrewNone(sb, log);
      ShapeOf(sb, blocks, inos, owner);
      var inum := 1;
      while inum < |inos|
        invariant 1 <= inum && inos == old(inos) && blocks == old(blocks) && owner == old(owner) && log == old(log)
        invariant forall m :: 1 <= m < inum && m < |inos| ==> inos[m].typ != 0
      {
        if GetDinode(blocks[InoBlock(sb, inum)], inum % IPB).typ == 0 {
          FreeInodeEmpty(sb, blocks, inos, owner, inum);
          KeptSame(sb, blocks);
          inos := inos[inum := Inode(typ, 0, 0, 0, 0, NoAddrs())];
          TypeOnly(sb, blocks, old(inos), owner, inos);
          OthersStay(blocks, old(inos), inum);
          SizedOthers(blocks, old(inos), blocks, old(inos), inos, inum);
          WriteBack(sb, blocks, old(inos), blocks, inos, owner, inum);
          Iupdate(inum);
          AfterUpdate(old(blocks), old(inos), old(blocks), blocks, inos, inum);
          GrewTrans(sb, [], old(log), log);
          return Some(inum);
        }
        inum := inum + 1;
      }
      return None;
    }
  }

  lemma GrewNone(sb: Super, l: seq<RedoLog.Write>)
    ensures Grew(sb, l, l)
  {}

  lemma GrewTrans(sb: Super, a: seq<RedoLog.Write>, b: seq<RedoLog.Write>, c: seq<RedoLog.Write>)
    requires Grew(sb, a, b) && Grew(sb, b, c)
    ensures Grew(sb, a, c)
  {
    assert c[..|b|][..|a|] == c[..|a|];
    forall t | |a| <= t < |c| ensures sb.inodestart <= c[t].blockno < sb.size {
      if t < |b| { assert c[t] == c[..|b|][t]; }
    }
  }

  lemma KeptSame(sb: Super, blocks: seq<Block>)
    ensures Kept(sb, blocks, blocks)
  {}

  lemma KeptTrans(sb: Super, a: seq<Block>, b: seq<Block>, c: seq<Block>)
    requires Kept(sb, a, b) && Kept(sb, b, c)
    ensures Kept(sb, a, c)
  {}

  /** balloc's two log_writes: the map block and the zeroed block. */
  lemma AllocTrace(sb: Super, blocks: seq<Block>, l0: seq<RedoLog.Write>, l1: seq<RedoLog.Write>, b: nat)
    requires Shape(sb, blocks) && sb.nmeta <= b < sb.size && !Bit(sb, blocks, b)
    requires |l1| == |l0| + 2 && l1[..|l0|] == l0 && l1[|l0|].blockno == MapBlock(sb, b) && l1[|l0| + 1].blockno == b
    ensures Grew(sb, l0, l1) && Kept(sb, blocks, Alloced(sb, blocks, b))
  {}

  /** The log_write of a data block, after the allocations of bmap. */
  lemma StoreTrace(sb: Super, b0: seq<Block>, b1: seq<Block>, l0: seq<RedoLog.Write>, l1: seq<RedoLog.Write>,
                   b2: seq<Block>, l2: seq<RedoLog.Write>, a: nat)
    requires Grew(sb, l0, l1) && Kept(sb, b0, b1) && Shape(sb, b1) && sb.nmeta <= a < sb.size
    requires a < |b1| == |b2| && b2 == b1[a := b2[a]] && |l2| == |l1| + 1 && l2[..|l1|] == l1 && l2[|l1|].blockno == a
    ensures Grew(sb, l0, l2) && Kept(sb, b0, b2)
  {
    assert Grew(sb, l1, l2);
    GrewTrans(sb, l0, l1, l2);
  }

  lemma SizedOthers(b0: seq<Block>, n0: seq<Inode>, blocks: seq<Block>, n1: seq<Inode>, inos: seq<Inode>, i: nat)
    requires OthersSame(b0, n0, blocks, n1, i) && i < |n0| == |inos| && inos == n1[i := inos[i]]
    ensures OthersSame(b0, n0, blocks, inos, i)
  {}

  lemma ShapeOf(sb: Super, blocks: seq<Block>, inos: seq<Inode>, owner: Owner)
    requires FsOk(sb, blocks, inos, owner)
    ensures Shape(sb, blocks)
  {}

  lemma OthersStay(blocks: seq<Block>, inos: seq<Inode>, i: nat)
    ensures OthersSame(blocks, inos, blocks, inos, i)
  {}

  /** The inode table still holds what it held; with record i written, it lags no more than before. */
  lemma WriteBack(sb: Super, b0: seq<Block>, n0: seq<Inode>, blocks: seq<Block>, inos: seq<Inode>, owner: Owner, i: nat)
    requires Shape(sb, b0) && TableRoom(sb, |n0|) && Lags(Table(sb, b0, |n0|), n0)
    requires FsOk(sb, blocks, inos, owner) && Kept(sb, b0, blocks) && i < |n0| == |inos|
    requires OthersSame(b0, n0, blocks, inos, i)
    requires IsShort(inos[i].typ) && inos[i].size <= MAXFILE * BSIZE
    requires inos[i].major in {0, n0[i].major} && inos[i].minor in {0, n0[i].minor} && inos[i].nlink in {0, n0[i].nlink}
    ensures Shape(sb, blocks) && Table(sb, blocks, |inos|) == Table(sb, b0, |n0|)
    ensures Fits(inos[i]) && Lags(Table(sb, b0, |n0|)[i := inos[i]], inos)
    ensures n0 == Table(sb, b0, |n0|) ==> n0[i := inos[i]] == inos
  {
    hide GetDinode, BitsFor, SlotAt, Inside, FileBytes, SlotsStay;
    TableFits(sb, b0, |n0|);
    TableFrame(sb, b0, blocks, |n0|);
    OwnedFits(sb, blocks, inos, owner, i);
  }

  lemma RecordShorts(sb: Super, b0: seq<Block>, n0: seq<Inode>, i: nat)
    requires Shape(sb, b0) && TableRoom(sb, |n0|) && Lags(Table(sb, b0, |n0|), n0) && i < |n0|
    ensures IsShort(n0[i].typ)
  {
    TableFits(sb, b0, |n0|);
  }

  /** Without iupdate the records stay, and memory may have entries they lack. */
  lemma StillLags(sb: Super, b0: seq<Block>, n0: seq<Inode>, blocks: seq<Block>, inos: seq<Inode>, owner: Owner, i: nat)
    requires Shape(sb, b0) && TableRoom(sb, |n0|) && Lags(Table(sb, b0, |n0|), n0)
    requires FsOk(sb, blocks, inos, owner) && Kept(sb, b0, blocks) && i < |n0| == |inos|
    requires OthersSame(b0, n0, blocks, inos, i)
    requires inos[i] == n0[i].(addrs := inos[i].addrs) && Extends(n0[i].addrs, inos[i].addrs)
    ensures Shape(sb, blocks) && Table(sb, blocks, |inos|) == Table(sb, b0, |n0|) && Lags(Table(sb, b0, |n0|), inos)
  {
    hide GetDinode, BitsFor, SlotAt, Inside, FileBytes, SlotsStay;
    TableFrame(sb, b0, blocks, |n0|);
  }

  lemma AfterUpdate(b0: seq<Block>, n0: seq<Inode>, b1: seq<Block>, b2: seq<Block>, inos: seq<Inode>, i: nat)
    requires i < |n0| && OthersSame(b0, n0, b1, inos, i)
    requires forall j :: 0 <= j < |inos| ==>
      && SlotsStay(b1, inos, b2, inos, j)
      && FileBytes(b2, inos[j], inos[j].size) == FileBytes(b1, inos[j], inos[j].size)
    ensures OthersSame(b0, n0, b2, inos, i)
    ensures AllInside(b1, inos) ==> AllInside(b2, inos)
    ensures AllFull(b1, inos) ==> AllFull(b2, inos)
  {
    AllStay(b1, inos, b2);
  }

  /** A block that memory knows and the record on disk does not would have to belong to some other
      slot, and no other slot names it. */
  lemma SameEntry(sb: Super, blocks: seq<Block>, inos: seq<Inode>, owner: Owner, table: seq<Inode>, o: Owner, j: nat,
                  k: nat)
    requires FsOk(sb, blocks, inos, owner) && FsOk(sb, blocks, table, o) && Lags(table, inos) && j < |inos|
    requires k <= NDIRECT
    ensures table[j].addrs[k] == inos[j].addrs[k]
  {
    hide U32, Bit;
    var b := inos[j].addrs[k];
    if b != 0 {
      assert SlotAt(blocks, inos, j, k) == b && b in owner && owner[b] == (j, k);
      assert Bit(sb, blocks, b) && b in o;
      var j', k' := o[b].0, o[b].1;
      assert SlotAt(blocks, table, j', k') == b;
      assert SlotAt(blocks, inos, j', k') == b;
    }
  }

  /** If readi or writei has left entries out of the records, the disk is no file system any more
      once the inodes in memory are gone: blocks are marked in use that no file has. */
  lemma StaleDisk(sb: Super, blocks: seq<Block>, inos: seq<Inode>, owner: Owner, table: seq<Inode>)
    requires FsOk(sb, blocks, inos, owner) && Lags(table, inos)
    ensures (exists o: Owner :: FsOk(sb, blocks, table, o)) <==> table == inos
  {
    hide FsOk;
    if o: Owner :| FsOk(sb, blocks, table, o) {
      forall j | 0 <= j < |inos| ensures table[j] == inos[j] {
        Directs(sb, blocks, inos, owner, j);
        forall k | 0 <= k <= NDIRECT ensures table[j].addrs[k] == inos[j].addrs[k] {
          SameEntry(sb, blocks, inos, owner, table, o, j, k);
        }
        assert table[j].addrs == inos[j].addrs;
      }
      assert table == inos;
    }
  }

  /** The inodes and files as reading or writing file i has left them so far. */
  ghost predicate SameFiles(b0: seq<Block>, n0: seq<Inode>, blocks: seq<Block>, inos: seq<Inode>, i: nat)
    requires i < |n0| == |inos|
  {
    && OthersSame(b0, n0, blocks, inos, i) && |n0[i].addrs| == NDIRECT + 1
    && inos[i] == n0[i].(addrs := inos[i].addrs) && Extends(n0[i].addrs, inos[i].addrs)
  }

  lemma StartRead(sb: Super, blocks: seq<Block>, inos: seq<Inode>, owner: Owner, log: seq<RedoLog.Write>, i: nat,
                  off: nat)
    requires FsOk(sb, blocks, inos, owner) && i < |inos|
    ensures SameFiles(blocks, inos, blocks, inos, i) && Grew(sb, log, log) && Kept(sb, blocks, blocks)
    ensures !Gap(inos[i], off, off)
  {}

  /** Visiting the next block: there is a gap so far exactly if there was one or here is one. */
  lemma GapStep(ino: Inode, off: nat, at: nat, m: nat)
    requires |ino.addrs| == NDIRECT + 1 && off <= at && 0 < m && at % BSIZE + m <= BSIZE
    requires (at == off || at % BSIZE == 0)
    ensures Gap(ino, off, at + m) <==> Gap(ino, off, at) || ino.addrs[EntryOf(at / BSIZE)] == 0
  {
    var bn := at / BSIZE;
    assert at == bn * BSIZE + at % BSIZE;
    if ino.addrs[EntryOf(bn)] == 0 {
      assert off / BSIZE <= bn && bn * BSIZE < at + m;
    }
    if Gap(ino, off, at + m) {
      var b: nat :| off / BSIZE <= b && b * BSIZE < at + m && ino.addrs[EntryOf(b)] == 0;
      assert b <= bn;
      if b < bn { assert b * BSIZE < at; }
    }
  }

  lemma SameFilesMore(sb: Super, b0: seq<Block>, n0: seq<Inode>, b1: seq<Block>, n1: seq<Inode>, o1: Owner,
                      blocks: seq<Block>, inos: seq<Inode>, i: nat, off: nat, at: nat, m: nat)
    requires i < |n0| == |n1| == |inos| && SameFiles(b0, n0, b1, n1, i) && FsOk(sb, b1, n1, o1)
    requires OthersSame(b1, n1, blocks, inos, i) && inos[i] == n1[i].(addrs := inos[i].addrs)
    requires Extends(n1[i].addrs, inos[i].addrs)
    requires off <= at && 0 < m && at % BSIZE + m <= BSIZE && (at == off || at % BSIZE == 0)
    requires n1 == n0 <==> !Gap(n0[i], off, at)
    requires inos == n1 <==> SlotAt(b1, n1, i, EntryOf(at / BSIZE)) != 0
    ensures SameFiles(b0, n0, blocks, inos, i) && (inos == n0 <==> !Gap(n0[i], off, at + m))
  {
    hide FsOk, FileBytes, SlotsStay, Gap;
    Directs(sb, b1, n1, o1, i);
    OthersTrans(b0, n0, b1, n1, blocks, inos, i);
    GapStep(n0[i], off, at, m);
    var k := EntryOf(at / BSIZE);
    assert n1 != n0 ==> n1[i].addrs != n0[i].addrs;
    assert inos != n0 ==> inos[i].addrs != n0[i].addrs;
    assert n1[i].addrs != n0[i].addrs ==> exists x :: 0 <= x <= NDIRECT && n0[i].addrs[x] == 0 && n1[i].addrs[x] != 0;
    assert n0[i].addrs[k] != 0 ==> n1[i].addrs[k] != 0;
  }

  /** One round of readi's loop. */
  lemma ReadStep(sb: Super, b0: seq<Block>, n0: seq<Inode>, b1: seq<Block>, n1: seq<Inode>, o1: Owner,
                 blocks: seq<Block>, inos: seq<Inode>, owner: Owner, i: nat, off: nat, at: nat, m: nat, size: nat)
    requires i < |n0| == |n1| == |inos| && SameFiles(b0, n0, b1, n1, i) && FsOk(sb, b1, n1, o1)
    requires FsOk(sb, blocks, inos, owner)
    requires Grown(b1, n1, o1, blocks, inos, owner, i) && Extends(n1[i].addrs, inos[i].addrs)
    requires Inside(b1, n1[i], size) && at + m <= size && at / BSIZE < MAXFILE
    requires off <= at && 0 < m && at % BSIZE + m <= BSIZE && (at == off || at % BSIZE == 0)
    requires n1 == n0 <==> !Gap(n0[i], off, at)
    requires inos == n1 <==> SlotAt(b1, n1, i, EntryOf(at / BSIZE)) != 0
    requires var bn := at / BSIZE;
      && SlotAt(blocks, inos, i, SlotOf(bn)) != 0 && (bn >= NDIRECT ==> SlotAt(blocks, inos, i, NDIRECT) != 0)
      && (forall l :: 0 <= l < NSLOTS && l != SlotOf(bn) && (l != NDIRECT || bn < NDIRECT) ==>
            SlotAt(blocks, inos, i, l) == SlotAt(b1, n1, i, l))
    ensures SameFiles(b0, n0, blocks, inos, i) && (inos == n0 <==> !Gap(n0[i], off, at + m))
    ensures Inside(blocks, inos[i], size) && FileBytes(blocks, inos[i], size) == FileBytes(b1, n1[i], size)
    ensures var a := SlotAt(blocks, inos, i, SlotOf(at / BSIZE));
      && 0 < a < |blocks| && |blocks[a]| == BSIZE
      && FileBytes(blocks, inos[i], size)[at..at + m] == blocks[a][at % BSIZE..at % BSIZE + m]
  {
    hide Slot, FileBytes, SlotsOk, BitsFor, Inside, Gap;
    ShapeOf(sb, blocks, inos, owner);
    GrownOthers(sb, b1, n1, o1, blocks, inos, owner, i);
    GrownBytes(sb, b1, n1, o1, blocks, inos, owner, i, i, size);
    SameFilesMore(sb, b0, n0, b1, n1, o1, blocks, inos, i, off, at, m);
    assert (at / BSIZE) * BSIZE < size;
    NextInside(b1, n1, blocks, inos, i, at / BSIZE, size, size);
    DataBlock(sb, blocks, inos, owner, i, at / BSIZE);
    BlockBytes(blocks, inos[i], size, at, m);
  }

  lemma FreeStays(b0: seq<Block>, n0: seq<Inode>, blocks: seq<Block>, inos: seq<Inode>, i: nat)
    requires i < |n0| == |inos| && FreeEmpty(n0) && SameFiles(b0, n0, blocks, inos, i)
    ensures FreeEmpty(inos) && OthersSame(b0, n0, blocks, inos, i)
  {}

  lemma EndRead(sb: Super, b0: seq<Block>, n0: seq<Inode>, blocks: seq<Block>, inos: seq<Inode>, owner: Owner, i: nat)
    requires Shape(sb, b0) && TableRoom(sb, |n0|) && Lags(Table(sb, b0, |n0|), n0) && AllInside(b0, n0)
    requires FsOk(sb, blocks, inos, owner) && Kept(sb, b0, blocks) && i < |n0| == |inos|
    requires SameFiles(b0, n0, blocks, inos, i) && Inside(blocks, inos[i], n0[i].size)
    ensures AllInside(blocks, inos)
    ensures Shape(sb, blocks) && Table(sb, blocks, |inos|) == Table(sb, b0, |n0|) && Lags(Table(sb, b0, |n0|), inos)
  {
    hide FsOk, Inside, Table, SlotsStay, FileBytes, Kept, Extends;
    AllAgain(b0, n0, blocks, inos, i);
    StillLags(sb, b0, n0, blocks, inos, owner, i);
  }

  /** The block of a byte below the end of a file is there. */
  lemma HasBlock(blocks: seq<Block>, inos: seq<Inode>, i: nat, at: nat)
    requires i < |inos| && AllFull(blocks, inos) && at < inos[i].size
    ensures at / BSIZE < MAXFILE && SlotAt(blocks, inos, i, SlotOf(at / BSIZE)) != 0
  {
    assert (at / BSIZE) * BSIZE < inos[i].size;
  }

  /** How far a file's blocks may reach once bmap has returned block bn. */
  lemma NextInside(b0: seq<Block>, n0: seq<Inode>, b1: seq<Block>, n1: seq<Inode>, i: nat, bn: nat, e: nat, e': nat)
    requires i < |n0| == |n1| && bn < MAXFILE && Inside(b0, n0[i], e) && bn * BSIZE < e'
    requires e' == e || e < e' <= MAXFILE * BSIZE
    requires forall l :: 0 <= l < NSLOTS && l != SlotOf(bn) && (l != NDIRECT || bn < NDIRECT) ==>
      SlotAt(b1, n1, i, l) == SlotAt(b0, n0, i, l)
    ensures Inside(b1, n1[i], e')
  {
    hide Slot;
    forall n | 0 <= n < MAXFILE && Slot(b1, n1[i], SlotOf(n)) != 0 ensures n * BSIZE < e' {
      if n != bn {
        assert SlotOf(n) != SlotOf(bn) && SlotOf(n) != NDIRECT;
        assert SlotAt(b1, n1, i, SlotOf(n)) == SlotAt(b0, n0, i, SlotOf(n));
        assert Slot(b0, n0[i], SlotOf(n)) != 0;
      }
    }
    if bn < NDIRECT { assert SlotAt(b1, n1, i, NDIRECT) == SlotAt(b0, n0, i, NDIRECT); }
  }

  /** A free inode names no block, so clearing its record loses none. */
  lemma FreeInodeEmpty(sb: Super, blocks: seq<Block>, inos: seq<Inode>, owner: Owner, i: nat)
    requires FsOk(sb, blocks, inos, owner) && i < |inos| && Inside(blocks, inos[i], 0)
    ensures inos[i].addrs == NoAddrs()
  {
    forall k | 0 <= k <= NDIRECT ensures inos[i].addrs[k] == 0 {
      if k < NDIRECT { assert Slot(blocks, inos[i], SlotOf(k)) == 0; }
    }
  }

  /** Ownership and reach look at sizes and addresses only. */
  lemma TypeOnly(sb: Super, blocks: seq<Block>, inos: seq<Inode>, owner: Owner, inos': seq<Inode>)
    requires FsOk(sb, blocks, inos, owner) && |inos| == |inos'|
    requires forall j :: 0 <= j < |inos| ==> inos'[j].size == inos[j].size && inos'[j].addrs == inos[j].addrs
    ensures FsOk(sb, blocks, inos', owner)
    ensures AllInside(blocks, inos) ==> AllInside(blocks, inos')
    ensures AllFull(blocks, inos) ==> AllFull(blocks, inos')
  {
    forall j, l | 0 <= j < |inos| && 0 <= l < NSLOTS
      ensures SlotAt(blocks, inos', j, l) == SlotAt(blocks, inos, j, l)
    {}
    hide Slot, Full, Inside;
    forall j | 0 <= j < |inos|
      ensures Inside(blocks, inos'[j], inos'[j].size) <==> Inside(blocks, inos[j], inos[j].size)
      ensures Full(blocks, inos'[j], inos'[j].size) <==> Full(blocks, inos[j], inos[j].size)
    {
      SlotsGiveFull(blocks, inos, blocks, inos', j, inos[j].size);
    }
  }

  lemma SlotsOf(sb: Super, blocks: seq<Block>, inos: seq<Inode>, owner: Owner)
    requires FsOk(sb, blocks, inos, owner)
    ensures SlotsOk(sb, blocks, inos, owner)
  {}

  lemma DropNone(owner: Owner, i: nat, lo: nat)
    ensures Drop(owner, i, lo, lo) == owner
  {}

  lemma DropSub(owner: Owner, i: nat, lo: nat, hi: nat)
    ensures forall b :: b in Drop(owner, i, lo, hi) ==> b in owner && Drop(owner, i, lo, hi)[b] == owner[b]
  {}

  lemma KeptBlock(owner: Owner, i: nat, b: int, k: nat)
    requires b in owner && owner[b] == (i, k) && k >= NDIRECT
    ensures b in Drop(owner, i, 0, NDIRECT)
  {}

  lemma Directs(sb: Super, blocks: seq<Block>, inos: seq<Inode>, owner: Owner, i: nat)
    requires FsOk(sb, blocks, inos, owner) && i < |inos|
    ensures |inos[i].addrs| == NDIRECT + 1
    ensures forall k :: 0 <= k <= NDIRECT ==> SlotAt(blocks, inos, i, k) == inos[i].addrs[k]
  {}

  lemma GrownSame(sb: Super, blocks: seq<Block>, inos: seq<Inode>, owner: Owner, i: nat)
    requires i < |inos|
    ensures Grown(blocks, inos, owner, blocks, inos, owner, i)
  {}

  lemma NoneBeyond(blocks: seq<Block>, inos: seq<Inode>, i: nat, bn: nat)
    requires i < |inos| && |inos[i].addrs| == NDIRECT + 1 && inos[i].addrs[NDIRECT] == 0 && NDIRECT <= bn
    ensures SlotAt(blocks, inos, i, SlotOf(bn)) == 0
  {}

  lemma DirectSlot(blocks: seq<Block>, inos: seq<Inode>, i: nat, k: nat)
    requires i < |inos| && |inos[i].addrs| == NDIRECT + 1 && k <= NDIRECT
    ensures SlotAt(blocks, inos, i, k) == inos[i].addrs[k]
  {}

  lemma IndirectAt(sb: Super, blocks: seq<Block>, inos: seq<Inode>, owner: Owner, i: nat, bn: nat)
    requires FsOk(sb, blocks, inos, owner) && i < |inos| && |inos[i].addrs| == NDIRECT + 1
    requires inos[i].addrs[NDIRECT] != 0 && NDIRECT <= bn < MAXFILE
    ensures var a := inos[i].addrs[NDIRECT];
            && 0 <= a < |blocks| && |blocks[a]| == BSIZE
            && SlotAt(blocks, inos, i, SlotOf(bn)) == U32(blocks[a], bn - NDIRECT)
  {
    IndirectSlot(sb, blocks, inos, owner, i, bn - NDIRECT);
  }

  lemma IndirectSlot(sb: Super, blocks: seq<Block>, inos: seq<Inode>, owner: Owner, i: nat, j: nat)
    requires SlotsOk(sb, blocks, inos, owner) && i < |inos| && inos[i].addrs[NDIRECT] != 0 && j < NINDIRECT
    ensures var a := inos[i].addrs[NDIRECT];
            0 <= a < |blocks| && |blocks[a]| == BSIZE && SlotAt(blocks, inos, i, NDIRECT + 1 + j) == U32(blocks[a], j)
  {
    IndirectOwned(sb, blocks, inos, owner, i);
  }

  /** The last bfree of itrunc: the indirect block itself. */
  lemma FreeIndirect(sb: Super, b0: seq<Block>, n0: seq<Inode>, o0: Owner, blocks: seq<Block>, i: nat)
    requires SlotsOk(sb, b0, n0, o0) && i < |n0| && n0[i].addrs[NDIRECT] != 0 && Shape(sb, blocks)
    requires BitsFor(sb, blocks, Drop(Drop(o0, i, 0, NDIRECT), i, NDIRECT + 1, NSLOTS).Keys)
    ensures var b := n0[i].addrs[NDIRECT];
      && sb.nmeta <= b < sb.size && Bit(sb, blocks, b)
      && BitsFor(sb, Flipped(sb, blocks, b), Drop(o0, i, 0, NSLOTS).Keys)
      && forall x :: sb.nmeta <= x < |blocks| ==> Flipped(sb, blocks, b)[x] == blocks[x]
  {
    hide Bit, BitsFor, Slot;
    var part := Drop(Drop(o0, i, 0, NDIRECT), i, NDIRECT + 1, NSLOTS);
    IndirectOwned(sb, b0, n0, o0, i);
    DirectSlot(b0, n0, i, NDIRECT);
    DropOne(sb, b0, n0, o0, part, i, NDIRECT, NDIRECT);
    DropNone(part, i, NDIRECT);
    DropAll(o0, i);
    FreeBits(sb, blocks, part.Keys, n0[i].addrs[NDIRECT]);
  }

  lemma NoIndirect(sb: Super, b0: seq<Block>, n0: seq<Inode>, o0: Owner, i: nat)
    requires SlotsOk(sb, b0, n0, o0) && i < |n0| && n0[i].addrs[NDIRECT] == 0
    ensures Drop(o0, i, 0, NSLOTS) == Drop(o0, i, 0, NDIRECT)
  {
    forall b | b in o0 && o0[b].0 == i ensures o0[b].1 < NDIRECT {
      assert SlotAt(b0, n0, o0[b].0, o0[b].1) == b;
    }
  }

  lemma InsideAt(blocks: seq<Block>, ino: Inode, e: nat, at: nat)
    requires Inside(blocks, ino, e) && at < e
    ensures at / BSIZE < MAXFILE
  {}

  lemma InsideBound(blocks: seq<Block>, ino: Inode, e: nat)
    requires Inside(blocks, ino, e)
    ensures e <= MAXFILE * BSIZE
  {}

  lemma SizeBound(blocks: seq<Block>, inos: seq<Inode>, i: nat)
    requires AllInside(blocks, inos) && i < |inos|
    ensures Inside(blocks, inos[i], inos[i].size) && inos[i].size <= MAXFILE * BSIZE
  {}

  /** Slots and ownership do not look at the size field. */
  lemma SizeOnly(sb: Super, blocks: seq<Block>, inos: seq<Inode>, owner: Owner, inos': seq<Inode>, i: nat)
    requires FsOk(sb, blocks, inos, owner) && i < |inos| == |inos'|
    requires inos' == inos[i := inos[i].(size := inos'[i].size)]
    ensures FsOk(sb, blocks, inos', owner)
    ensures forall e :: Full(blocks, inos[i], e) ==> Full(blocks, inos'[i], e)
    ensures forall e :: Inside(blocks, inos[i], e) ==> Inside(blocks, inos'[i], e)
    ensures forall e :: FileBytes(blocks, inos'[i], e) == FileBytes(blocks, inos[i], e)
  {
    forall j, l | 0 <= j < |inos| && 0 <= l < NSLOTS
      ensures SlotAt(blocks, inos', j, l) == SlotAt(blocks, inos, j, l)
    {}
    forall e: nat ensures FileBytes(blocks, inos'[i], e) == FileBytes(blocks, inos[i], e) {
      forall x | 0 <= x < e ensures ByteAt(blocks, inos'[i], x) == ByteAt(blocks, inos[i], x) {}
    }
  }

  lemma AllAgain(blocks: seq<Block>, inos: seq<Inode>, blocks': seq<Block>, inos': seq<Inode>, i: nat)
    requires i < |inos| && OthersSame(blocks, inos, blocks', inos', i)
    ensures AllInside(blocks, inos) && Inside(blocks', inos'[i], inos'[i].size) ==> AllInside(blocks', inos')
    ensures AllFull(blocks, inos) && Full(blocks', inos'[i], inos'[i].size) ==> AllFull(blocks', inos')
  {
    hide SlotsStay, Full, Inside, FileBytes;
    forall j | 0 <= j < |inos| && j != i
      ensures Inside(blocks', inos'[j], inos'[j].size) <==> Inside(blocks, inos[j], inos[j].size)
      ensures Full(blocks', inos'[j], inos'[j].size) <==> Full(blocks, inos[j], inos[j].size)
    {
      SlotsGiveFull(blocks, inos, blocks', inos', j, inos[j].size);
    }
  }

  lemma DataBlock(sb: Super, blocks: seq<Block>, inos: seq<Inode>, owner: Owner, i: nat, bn: nat)
    requires FsOk(sb, blocks, inos, owner) && i < |inos| && bn < MAXFILE && SlotAt(blocks, inos, i, SlotOf(bn)) != 0
    ensures var a := SlotAt(blocks, inos, i, SlotOf(bn));
            0 < sb.nmeta <= a < sb.size <= |blocks| && |blocks[a]| == BSIZE
  {}

  /** Bit bi of the map block that starts at b is the bit of block b + bi. */
  lemma InMapBlock(sb: Super, blocks: seq<Block>, b: nat, bi: nat)
    requires Shape(sb, blocks) && b % BPB == 0 && bi < BPB && b + bi < sb.size
    ensures var m := MapBlock(sb, b);
      && m == MapBlock(sb, b + bi) && sb.bmapstart <= m < |blocks|
      && Bit(sb, blocks, b + bi) == BitOf(blocks[m][bi / 8], bi % 8)
      && (!Bit(sb, blocks, b + bi) ==>
            Flipped(sb, blocks, b + bi) == blocks[m := blocks[m][bi / 8 := blocks[m][bi / 8] + Weight(bi % 8)]])
  {
    hide Weight, BitOf;
    assert MapBlock(sb, b + bi) == MapBlock(sb, b) && (b + bi) % BPB == bi;
  }
}
