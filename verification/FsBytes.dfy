/** What the bytes on disk mean, offset by offset, as fs.h lays them out: inode records, the free
    map, block addresses and file contents, without the encodings of FsLayout. */
module FsBytes {
  import opened FsLayout
  import opened FsSteps

  // ---------------------------------------------------------------- inode records

  /** Two bytes and four bytes at offset o, the low byte first. */
  ghost function Two(b: Block, o: nat): nat
    requires o + 2 <= |b|
  {
    b[o] % 256 + 256 * (b[o + 1] % 256)
  }

  ghost function Four(b: Block, o: nat): nat
    requires o + 4 <= |b|
  {
    Two(b, o) + 65536 * Two(b, o + 2)
  }

  /** A struct dinode of 64 bytes at offset o; shorts are stored modulo 2^16. */
  ghost predicate RecordAt(b: Block, o: nat, ino: Inode) {
    && o + 64 <= |b| && |ino.addrs| == 13
    && Two(b, o) == ino.typ % 65536 && Two(b, o + 2) == ino.major % 65536
    && Two(b, o + 4) == ino.minor % 65536 && Two(b, o + 6) == ino.nlink % 65536
    && Four(b, o + 8) == ino.size && forall k :: 0 <= k < 13 ==> Four(b, o + 12 + 4 * k) == ino.addrs[k]
  }

  lemma ShortMeans(b: Block, j: nat, v: int)
    requires |b| == 512 && j < 256 && -32768 <= v < 32768
    ensures I16(b, j) == v <==> Two(b, 2 * j) == v % 65536
  {}

  lemma WordMeans(b: Block, j: nat)
    requires |b| == 512 && j < 128
    ensures U32(b, j) == Four(b, 4 * j)
  {}

  /** A block of 512 bytes holds eight records, and the s-th is the one 64 * s bytes in. */
  lemma RecordMeans(b: Block, s: nat, ino: Inode)
    requires |b| == 512 && s < 8 && Fits(ino)
    ensures RecordAt(b, 64 * s, ino) <==> GetDinode(b, s) == ino
  {
    hide I16, U32, Two, Four;
    var r := GetDinode(b, s);
    ShortMeans(b, 32 * s, ino.typ);
    ShortMeans(b, 32 * s + 1, ino.major);
    ShortMeans(b, 32 * s + 2, ino.minor);
    ShortMeans(b, 32 * s + 3, ino.nlink);
    WordMeans(b, 16 * s + 2);
    forall k | 0 <= k < 13 ensures r.addrs[k] == Four(b, 64 * s + 12 + 4 * k) {
      WordMeans(b, 16 * s + 3 + k);
    }
    assert r.addrs == ino.addrs <==> forall k :: 0 <= k < 13 ==> r.addrs[k] == ino.addrs[k];
  }

  /** Record i of the inode table: eight to a block, from inodestart on. */
  ghost predicate OnDisk(sb: Super, blocks: seq<Block>, i: nat, ino: Inode) {
    sb.inodestart + i / 8 < |blocks| && RecordAt(blocks[sb.inodestart + i / 8], 64 * (i % 8), ino)
  }

  lemma TableMeans(sb: Super, blocks: seq<Block>, n: nat, i: nat, ino: Inode)
    requires Shape(sb, blocks) && TableRoom(sb, n) && i < n && Fits(ino)
    ensures OnDisk(sb, blocks, i, ino) <==> Table(sb, blocks, n)[i] == ino
  {
    hide GetDinode, RecordAt;
    RecordMeans(blocks[sb.inodestart + i / 8], i % 8, ino);
  }

  /** Record i becomes ino, and no byte but its 64 changes. */
  ghost predicate Rewrites(sb: Super, before: seq<Block>, after: seq<Block>, i: nat, ino: Inode) {
    var m, o := sb.inodestart + i / 8, 64 * (i % 8);
    && OnDisk(sb, after, i, ino) && |after| == |before| && |before[m]| == |after[m]| == 512
    && (forall x :: 0 <= x < |after| && x != m ==> after[x] == before[x])
    && (forall y :: 0 <= y < 512 && !(o <= y < o + 64) ==> after[m][y] == before[m][y])
  }

  lemma {:induction false} AddrsInside(b: Block, j: nat, addrs: seq<int>, n: nat)
    requires |b| == 512 && n <= |addrs| && j + n <= 128 && forall k :: 0 <= k < n ==> 0 <= addrs[k]
    ensures forall y :: 0 <= y < 512 && !(4 * j <= y < 4 * (j + n)) ==> PutAddrs(b, j, addrs, n)[y] == b[y]
  {
    if n > 0 { AddrsInside(b, j, addrs, n - 1); }
  }

  lemma ShortsInside(b: Block, s: nat, ino: Inode)
    requires |b| == 512 && s < 8
    ensures forall y :: 0 <= y < 512 && !(64 * s <= y < 64 * s + 8) ==> PutShorts(b, s, ino)[y] == b[y]
  {}

  lemma UpdateMeans(sb: Super, blocks: seq<Block>, i: nat, ino: Inode)
    requires Shape(sb, blocks) && InoBlock(sb, i) < sb.bmapstart && Fits(ino)
    ensures Rewrites(sb, blocks, Updated(sb, blocks, i, ino), i, ino)
  {
    hide GetDinode, RecordAt, PutShorts, PutAddrs;
    var m, s := sb.inodestart + i / 8, i % 8;
    var b := blocks[m];
    var c := PutU32(PutShorts(b, s, ino), 16 * s + 2, ino.size);
    ShortsInside(b, s, ino);
    AddrsInside(c, 16 * s + 3, ino.addrs, 13);
    DinodeRoundTrip(b, s, ino, s);
    RecordMeans(PutDinode(b, s, ino), s, ino);
  }

  // ---------------------------------------------------------------- the free map

  /** Block b is marked in use: 4096 bits to a block from bmapstart on, eight to a byte. */
  ghost predicate Marked(sb: Super, blocks: seq<Block>, b: nat) {
    var m, x := sb.bmapstart + b / 4096, b % 4096 / 8;
    m < |blocks| && x < |blocks[m]| && blocks[m][x] / [1, 2, 4, 8, 16, 32, 64, 128][b % 8] % 2 == 1
  }

  lemma WeightIs(k: nat)
    requires k < 8
    ensures Weight(k) == [1, 2, 4, 8, 16, 32, 64, 128][k]
  {
    assert Weight(2) == 4 && Weight(3) == 8;
    assert Weight(4) == 16 && Weight(5) == 32;
    assert Weight(6) == 64 && Weight(7) == 128;
  }

  lemma MarkMeans(sb: Super, blocks: seq<Block>, b: nat)
    requires Shape(sb, blocks) && b < sb.size
    ensures Bit(sb, blocks, b) <==> Marked(sb, blocks, b)
  {
    hide Weight;
    WeightIs(b % 8);
    assert b % 4096 % 8 == b % 8;
  }

  /** balloc's choice and effect: the lowest block that is not marked becomes marked and zero, and
      nothing else changes. A map that has a block of metadata free is not a sound one. */
  ghost predicate TakesLowest(sb: Super, before: seq<Block>, after: seq<Block>, b: nat) {
    && b < sb.size && !Marked(sb, before, b) && (forall c: nat :: c < b ==> Marked(sb, before, c))
    && |after| == |before|
    && (sb.nmeta <= b < |after| ==>
          && after[b] == seq(512, _ => 0)
          && (forall c: nat :: c < sb.size ==> (Marked(sb, after, c) <==> c == b || Marked(sb, before, c)))
          && (forall x :: 0 <= x < |after| && x != b && !(sb.bmapstart <= x < sb.nmeta) ==> after[x] == before[x]))
  }

  lemma AllocMeans(sb: Super, blocks: seq<Block>, b: nat)
    requires Shape(sb, blocks) && b < sb.size && !Bit(sb, blocks, b)
    requires forall c :: 0 <= c < b ==> Bit(sb, blocks, c)
    ensures TakesLowest(sb, blocks, Alloced(sb, blocks, b), b)
  {
    hide Bit, Marked, Flipped;
    MarkMeans(sb, blocks, b);
    forall c: nat | c < b ensures Marked(sb, blocks, c) { MarkMeans(sb, blocks, c); }
    if sb.nmeta <= b {
      var after := Alloced(sb, blocks, b);
      assert after[b] == seq(512, _ => 0);
      forall c: nat | c < sb.size ensures Marked(sb, after, c) <==> c == b || Marked(sb, blocks, c) {
        FlippedBits(sb, blocks, b, c);
        BitFrame(sb, Flipped(sb, blocks, b), after, c);
        MarkMeans(sb, blocks, c);
        MarkMeans(sb, after, c);
      }
    }
  }

  /** bfree's effect: the mark of b goes, and nothing else changes. */
  ghost predicate Clears(sb: Super, before: seq<Block>, after: seq<Block>, b: nat) {
    && |after| == |before|
    && (forall c: nat :: c < sb.size ==> (Marked(sb, after, c) <==> c != b && Marked(sb, before, c)))
    && (forall x :: 0 <= x < |after| && !(sb.bmapstart <= x < sb.nmeta) ==> after[x] == before[x])
  }

  lemma FreeMeans(sb: Super, blocks: seq<Block>, b: nat)
    requires Shape(sb, blocks) && b < sb.size && Bit(sb, blocks, b)
    ensures Clears(sb, blocks, Flipped(sb, blocks, b), b)
  {
    hide Bit, Marked, Flipped;
    var after := Flipped(sb, blocks, b);
    forall c: nat | c < sb.size ensures Marked(sb, after, c) <==> c != b && Marked(sb, blocks, c) {
      FlippedBits(sb, blocks, b, c);
      MarkMeans(sb, blocks, c);
      MarkMeans(sb, after, c);
    }
  }

  /** Every block is marked. */
  ghost predicate AllMarked(sb: Super, blocks: seq<Block>) {
    forall c: nat :: c < sb.size ==> Marked(sb, blocks, c)
  }

  lemma FullMeans(sb: Super, blocks: seq<Block>)
    requires Shape(sb, blocks)
    ensures AllMarked(sb, blocks) <==> forall c :: 0 <= c < sb.size ==> Bit(sb, blocks, c)
  {
    hide Bit, Marked;
    forall c: nat | c < sb.size ensures Bit(sb, blocks, c) <==> Marked(sb, blocks, c) { MarkMeans(sb, blocks, c); }
  }

  // ---------------------------------------------------------------- files

  /** The disk block of file block bn: one of the first twelve addresses, or four bytes of the block
      the thirteenth names; 0 for none. */
  ghost function Addr(blocks: seq<Block>, ino: Inode, bn: nat): int {
    if |ino.addrs| != 13 then 0
    else if bn < 12 then ino.addrs[bn]
    else
      var a := ino.addrs[12];
      if bn < 12 + 128 && 0 < a < |blocks| && |blocks[a]| == 512 then Four(blocks[a], 4 * (bn - 12)) else 0
  }

  lemma AddrMeans(blocks: seq<Block>, ino: Inode, bn: nat)
    ensures Slot(blocks, ino, SlotOf(bn)) == Addr(blocks, ino, bn)
  {
    hide U32, Four;
    if |ino.addrs| == 13 && 12 <= bn < 140 {
      var a := ino.addrs[12];
      if 0 < a < |blocks| && |blocks[a]| == 512 { WordMeans(blocks[a], bn - 12); }
    }
  }

  /** Byte x of a file; a hole reads as 0. */
  ghost function Byte(blocks: seq<Block>, ino: Inode, x: nat): int {
    var a := Addr(blocks, ino, x / 512);
    if 0 < a < |blocks| && |blocks[a]| == 512 then blocks[a][x % 512] else 0
  }

  lemma ByteMeans(blocks: seq<Block>, ino: Inode, x: nat)
    ensures ByteAt(blocks, ino, x) == Byte(blocks, ino, x)
  {
    hide Slot, SlotOf, Addr;
    AddrMeans(blocks, ino, x / 512);
  }

  lemma BytesMean(blocks: seq<Block>, ino: Inode, e: nat)
    ensures forall x: nat :: x < e ==> FileBytes(blocks, ino, e)[x] == Byte(blocks, ino, x)
  {
    hide ByteAt, Byte;
    forall x: nat | x < e ensures FileBytes(blocks, ino, e)[x] == Byte(blocks, ino, x) { ByteMeans(blocks, ino, x); }
  }

  /** What a splice is, byte by byte. */
  lemma SpliceMeans(s: seq<int>, o: nat, data: seq<int>)
    requires o <= |s|
    ensures |Splice(s, o, data)| == if o + |data| <= |s| then |s| else o + |data|
    ensures forall x :: 0 <= x < |Splice(s, o, data)| ==>
      Splice(s, o, data)[x] == if o <= x < o + |data| then data[x - o] else s[x]
  {}

  /** The file has grown as far as the data reach, and its bytes are the data there and the old ones
      elsewhere. */
  ghost predicate Wrote(before: seq<Block>, ino: Inode, after: seq<Block>, ino': Inode, off: nat, data: seq<int>) {
    && ino'.size == (if off + |data| > ino.size then off + |data| else ino.size)
    && forall x: nat :: x < ino'.size ==>
         Byte(after, ino', x) == if off <= x < off + |data| then data[x - off] else Byte(before, ino, x)
  }

  lemma WroteMeans(before: seq<Block>, ino: Inode, after: seq<Block>, ino': Inode, off: nat, data: seq<int>)
    requires off <= ino.size
    requires FileBytes(after, ino', ino'.size) == Splice(FileBytes(before, ino, ino.size), off, data)
    ensures Wrote(before, ino, after, ino', off, data)
  {
    hide Byte, FileBytes, Splice;
    BytesMean(before, ino, ino.size);
    BytesMean(after, ino', ino'.size);
    SpliceMeans(FileBytes(before, ino, ino.size), off, data);
    Lengths(before, ino, after, ino');
  }

  lemma Lengths(before: seq<Block>, ino: Inode, after: seq<Block>, ino': Inode)
    ensures |FileBytes(before, ino, ino.size)| == ino.size && |FileBytes(after, ino', ino'.size)| == ino'.size
  {}

  /** A file none of whose bytes has changed. */
  ghost predicate ReadsSame(before: seq<Block>, after: seq<Block>, ino: Inode) {
    forall x: nat :: x < ino.size ==> Byte(after, ino, x) == Byte(before, ino, x)
  }

  lemma SameMeans(before: seq<Block>, after: seq<Block>, ino: Inode)
    requires FileBytes(after, ino, ino.size) == FileBytes(before, ino, ino.size)
    ensures ReadsSame(before, after, ino)
  {
    hide Byte, FileBytes;
    BytesMean(before, ino, ino.size);
    BytesMean(after, ino, ino.size);
  }

  /** Every file but i. */
  lemma OthersMean(b0: seq<Block>, n0: seq<Inode>, b1: seq<Block>, n1: seq<Inode>, i: nat)
    requires OthersSame(b0, n0, b1, n1, i)
    ensures forall j :: 0 <= j < |n1| && j != i ==> n1[j] == n0[j] && ReadsSame(b0, b1, n1[j])
  {
    hide FileBytes, ReadsSame, SlotsStay;
    forall j | 0 <= j < |n1| && j != i ensures n1[j] == n0[j] && ReadsSame(b0, b1, n1[j]) {
      SameMeans(b0, b1, n1[j]);
    }
  }
}
