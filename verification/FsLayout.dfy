/** On-disk encodings of fs.c: 32-bit words, free-map bits and inode records inside blocks of
    bytes, and the ownership of blocks by inode slots. Blocks are what the log and buffer cache
    present. */
module FsLayout {
  import opened Division

  const BSIZE := 512
  const NDIRECT := 12
  const NINDIRECT := 128
  const MAXFILE := 140
  const BPB := 4096
  const NSLOTS := 141
  const UINT := 0x1_0000_0000
  const IPB := 8

  type Block = seq<int>

  /** The superblock fields used here; nmeta is the first data block. */
  datatype Super = Super(size: nat, inodestart: nat, bmapstart: nat, nmeta: nat)

  /** struct inode / struct dinode: addrs has NDIRECT direct entries and the indirect one. */
  datatype Inode = Inode(typ: int, major: int, minor: int, nlink: int, size: nat, addrs: seq<int>)

  predicate Areas(sb: Super) {
    0 < sb.inodestart <= sb.bmapstart && sb.bmapstart + (sb.size + BPB - 1) / BPB <= sb.nmeta <= sb.size < UINT
  }

  /** The blocks before the inode table (boot block, superblock and log) are not looked at. */
  ghost predicate Shape(sb: Super, blocks: seq<Block>) {
    && Areas(sb) && sb.size <= |blocks|
    && forall b :: sb.inodestart <= b < |blocks| ==> |blocks[b]| == BSIZE
  }

  function ZeroBlock(): (r: Block)
    ensures |r| == BSIZE && forall x :: 0 <= x < BSIZE ==> r[x] == 0
  {
    seq(BSIZE, _ => 0)
  }

  // ---------------------------------------------------------------- words

  /** The j-th uint of a block, little endian. */
  function U32(b: Block, j: nat): (r: nat)
    requires |b| == BSIZE && j < NINDIRECT
    ensures r < UINT
  {
    b[4 * j] % 0x100 + 0x100 * (b[4 * j + 1] % 0x100)
    + 0x1_0000 * (b[4 * j + 2] % 0x100) + 0x100_0000 * (b[4 * j + 3] % 0x100)
  }

  function PutU32(b: Block, j: nat, v: nat): (r: Block)
    requires |b| == BSIZE && j < NINDIRECT
    ensures |r| == BSIZE
  {
    var v1 := v / 0x100;
    var v2 := v1 / 0x100;
    var v3 := v2 / 0x100;
    b[4 * j := v % 0x100][4 * j + 1 := v1 % 0x100][4 * j + 2 := v2 % 0x100][4 * j + 3 := v3 % 0x100]
  }

  lemma GetPut(b: Block, j: nat, v: nat, i: nat)
    requires |b| == BSIZE && j < NINDIRECT && i < NINDIRECT && v < UINT
    ensures U32(PutU32(b, j, v), i) == if i == j then v else U32(b, i)
  {
    var c := PutU32(b, j, v);
    assert c[4 * j] == v % 0x100 && c[4 * j + 1] == v / 0x100 % 0x100;
    assert c[4 * j + 2] == v / 0x100 / 0x100 % 0x100 && c[4 * j + 3] == v / 0x100 / 0x100 / 0x100 % 0x100;
    if i != j {
      assert forall x :: 4 * i <= x < 4 * i + 4 ==> c[x] == b[x];
    }
  }

  predicate IsShort(v: int) {
    -0x8000 <= v < 0x8000
  }

  /** The j-th short of a block: two's complement, little endian. */
  function I16(b: Block, j: nat): (r: int)
    requires |b| == BSIZE && j < 2 * NINDIRECT
    ensures IsShort(r)
  {
    var u := b[2 * j] % 0x100 + 0x100 * (b[2 * j + 1] % 0x100);
    if u < 0x8000 then u else u - 0x1_0000
  }

  function PutI16(b: Block, j: nat, v: int): (r: Block)
    requires |b| == BSIZE && j < 2 * NINDIRECT
    ensures |r| == BSIZE
  {
    b[2 * j := v % 0x100][2 * j + 1 := v / 0x100 % 0x100]
  }

  lemma GetPutShort(b: Block, j: nat, v: int, i: nat)
    requires |b| == BSIZE && j < 2 * NINDIRECT && i < 2 * NINDIRECT && IsShort(v)
    ensures I16(PutI16(b, j, v), i) == if i == j then v else I16(b, i)
  {}

  /** A short and a word that do not overlap do not disturb each other. */
  lemma ShortsAndWords(b: Block, h: nat, j: nat, v: int, w: nat)
    requires |b| == BSIZE && h < 2 * NINDIRECT && j < NINDIRECT && h / 2 != j
    ensures U32(PutI16(b, h, v), j) == U32(b, j)
    ensures I16(PutU32(b, j, w), h) == I16(b, h)
  {}

  // ---------------------------------------------------------------- inode records

  /** What struct dinode can hold. */
  ghost predicate Fits(ino: Inode) {
    && IsShort(ino.typ) && IsShort(ino.major) && IsShort(ino.minor) && IsShort(ino.nlink) && ino.size < UINT
    && |ino.addrs| == NDIRECT + 1 && forall k :: 0 <= k <= NDIRECT ==> 0 <= ino.addrs[k] < UINT
  }

  /** The s-th struct dinode of a block: four shorts and fourteen uints. */
  function GetDinode(b: Block, s: nat): Inode
    requires |b| == BSIZE && s < IPB
  {
    Inode(I16(b, 32 * s), I16(b, 32 * s + 1), I16(b, 32 * s + 2), I16(b, 32 * s + 3), U32(b, 16 * s + 2),
          seq(NDIRECT + 1, k requires 0 <= k <= NDIRECT => U32(b, 16 * s + 3 + k)))
  }

  function PutShorts(b: Block, s: nat, ino: Inode): (r: Block)
    requires |b| == BSIZE && s < IPB
    ensures |r| == BSIZE
  {
    PutI16(PutI16(PutI16(PutI16(b, 32 * s, ino.typ), 32 * s + 1, ino.major), 32 * s + 2, ino.minor),
           32 * s + 3, ino.nlink)
  }

  /** memmove of the first n addresses to word j. */
  function PutAddrs(b: Block, j: nat, addrs: seq<int>, n: nat): (r: Block)
    requires |b| == BSIZE && n <= |addrs| && j + n <= NINDIRECT && forall k :: 0 <= k < n ==> 0 <= addrs[k]
    ensures |r| == BSIZE
  {
    if n == 0 then b else PutU32(PutAddrs(b, j, addrs, n - 1), j + n - 1, addrs[n - 1])
  }

  function PutDinode(b: Block, s: nat, ino: Inode): (r: Block)
    requires |b| == BSIZE && s < IPB && |ino.addrs| == NDIRECT + 1
    requires forall k :: 0 <= k <= NDIRECT ==> 0 <= ino.addrs[k]
    ensures |r| == BSIZE
  {
    PutAddrs(PutU32(PutShorts(b, s, ino), 16 * s + 2, ino.size), 16 * s + 3, ino.addrs, NDIRECT + 1)
  }

  lemma {:induction false} AddrsPut(b: Block, j: nat, addrs: seq<int>, n: nat)
    requires |b| == BSIZE && n <= |addrs| && j + n <= NINDIRECT && forall k :: 0 <= k < n ==> 0 <= addrs[k] < UINT
    ensures forall i :: 0 <= i < NINDIRECT ==>
      U32(PutAddrs(b, j, addrs, n), i) == if j <= i < j + n then addrs[i - j] else U32(b, i)
    ensures forall h :: 0 <= h < 2 * NINDIRECT && !(j <= h / 2 < j + n) ==>
      I16(PutAddrs(b, j, addrs, n), h) == I16(b, h)
  {
    hide U32, PutU32, I16;
    if n > 0 {
      AddrsPut(b, j, addrs, n - 1);
      var c := PutAddrs(b, j, addrs, n - 1);
      forall i | 0 <= i < NINDIRECT
        ensures U32(PutAddrs(b, j, addrs, n), i) == if j <= i < j + n then addrs[i - j] else U32(b, i)
      {
        GetPut(c, j + n - 1, addrs[n - 1], i);
      }
      forall h | 0 <= h < 2 * NINDIRECT && !(j <= h / 2 < j + n) ensures I16(PutAddrs(b, j, addrs, n), h) == I16(b, h) {
        ShortsAndWords(c, h, j + n - 1, 0, addrs[n - 1]);
      }
    }
  }

  lemma ShortsPut(b: Block, s: nat, ino: Inode)
    requires |b| == BSIZE && s < IPB && Fits(ino)
    ensures forall h :: 0 <= h < 2 * NINDIRECT ==>
      I16(PutShorts(b, s, ino), h) ==
      if 32 * s <= h < 32 * s + 4 then [ino.typ, ino.major, ino.minor, ino.nlink][h - 32 * s] else I16(b, h)
    ensures forall j :: 0 <= j < NINDIRECT && !(16 * s <= j < 16 * s + 2) ==> U32(PutShorts(b, s, ino), j) == U32(b, j)
  {
    hide U32, I16, PutI16;
    var b1 := PutI16(b, 32 * s, ino.typ);
    var b2 := PutI16(b1, 32 * s + 1, ino.major);
    var b3 := PutI16(b2, 32 * s + 2, ino.minor);
    forall h | 0 <= h < 2 * NINDIRECT
      ensures I16(PutShorts(b, s, ino), h) ==
              if 32 * s <= h < 32 * s + 4 then [ino.typ, ino.major, ino.minor, ino.nlink][h - 32 * s] else I16(b, h)
    {
      GetPutShort(b, 32 * s, ino.typ, h);
      GetPutShort(b1, 32 * s + 1, ino.major, h);
      GetPutShort(b2, 32 * s + 2, ino.minor, h);
      GetPutShort(b3, 32 * s + 3, ino.nlink, h);
    }
    forall j | 0 <= j < NINDIRECT && !(16 * s <= j < 16 * s + 2) ensures U32(PutShorts(b, s, ino), j) == U32(b, j) {
      ShortsAndWords(b, 32 * s, j, ino.typ, 0);
      ShortsAndWords(b1, 32 * s + 1, j, ino.major, 0);
      ShortsAndWords(b2, 32 * s + 2, j, ino.minor, 0);
      ShortsAndWords(b3, 32 * s + 3, j, ino.nlink, 0);
    }
  }

  lemma ShortBack(b: Block, s: nat, ino: Inode, t: nat, x: nat)
    requires |b| == BSIZE && s < IPB && t < IPB && x < 4 && Fits(ino)
    ensures I16(PutDinode(b, s, ino), 32 * t + x) ==
            if t == s then [ino.typ, ino.major, ino.minor, ino.nlink][x] else I16(b, 32 * t + x)
  {
    hide U32, PutU32, I16, PutShorts, PutAddrs;
    var c := PutShorts(b, s, ino);
    ShortsPut(b, s, ino);
    AddrsPut(PutU32(c, 16 * s + 2, ino.size), 16 * s + 3, ino.addrs, NDIRECT + 1);
    ShortsAndWords(c, 32 * t + x, 16 * s + 2, 0, ino.size);
  }

  lemma WordBack(b: Block, s: nat, ino: Inode, t: nat, k: nat)
    requires |b| == BSIZE && s < IPB && t < IPB && k < NDIRECT + 2 && Fits(ino)
    ensures U32(PutDinode(b, s, ino), 16 * t + 2 + k) ==
            if t == s then (if k == 0 then ino.size else ino.addrs[k - 1]) else U32(b, 16 * t + 2 + k)
  {
    hide U32, PutU32, I16, PutShorts, PutAddrs;
    var c := PutShorts(b, s, ino);
    ShortsPut(b, s, ino);
    AddrsPut(PutU32(c, 16 * s + 2, ino.size), 16 * s + 3, ino.addrs, NDIRECT + 1);
    GetPut(c, 16 * s + 2, ino.size, 16 * t + 2 + k);
  }

  /** An inode record written to a block reads back, and its neighbours are untouched. */
  lemma DinodeRoundTrip(b: Block, s: nat, ino: Inode, t: nat)
    requires |b| == BSIZE && s < IPB && t < IPB && Fits(ino)
    ensures GetDinode(PutDinode(b, s, ino), t) == if t == s then ino else GetDinode(b, t)
  {
    hide U32, I16, PutDinode;
    var r := PutDinode(b, s, ino);
    ShortBack(b, s, ino, t, 0);
    ShortBack(b, s, ino, t, 1);
    ShortBack(b, s, ino, t, 2);
    ShortBack(b, s, ino, t, 3);
    WordBack(b, s, ino, t, 0);
    var want := if t == s then ino.addrs else GetDinode(b, t).addrs;
    forall k | 0 <= k <= NDIRECT ensures GetDinode(r, t).addrs[k] == want[k] { WordBack(b, s, ino, t, k + 1); }
    assert GetDinode(r, t).addrs == want;
  }

  /** IBLOCK */
  function InoBlock(sb: Super, i: nat): nat {
    sb.inodestart + i / IPB
  }

  /** The inode table has room for n inodes before the free map. */
  predicate TableRoom(sb: Super, n: nat) {
    sb.inodestart + (n + IPB - 1) / IPB <= sb.bmapstart
  }

  /** The first n inodes as the disk holds them. */
  function Table(sb: Super, blocks: seq<Block>, n: nat): (r: seq<Inode>)
    requires Shape(sb, blocks) && TableRoom(sb, n)
    ensures |r| == n
    ensures forall i :: 0 <= i < n ==>
      InoBlock(sb, i) < sb.bmapstart && r[i] == GetDinode(blocks[InoBlock(sb, i)], i % IPB)
  {
    seq(n, i requires 0 <= i < n => GetDinode(blocks[InoBlock(sb, i)], i % IPB))
  }

  lemma TableFits(sb: Super, blocks: seq<Block>, n: nat)
    requires Shape(sb, blocks) && TableRoom(sb, n)
    ensures forall i :: 0 <= i < n ==> Fits(Table(sb, blocks, n)[i])
  {
    hide GetDinode;
    forall i | 0 <= i < n ensures Fits(Table(sb, blocks, n)[i]) { DinodeFits(blocks[InoBlock(sb, i)], i % IPB); }
  }

  lemma DinodeFits(b: Block, s: nat)
    requires |b| == BSIZE && s < IPB
    ensures Fits(GetDinode(b, s))
  {
    hide U32, I16;
    var ino := GetDinode(b, s);
    forall k | 0 <= k <= NDIRECT ensures 0 <= ino.addrs[k] < UINT { assert ino.addrs[k] == U32(b, 16 * s + 3 + k); }
  }

  /** The table depends on the blocks before the free map only. */
  lemma TableFrame(sb: Super, blocks: seq<Block>, blocks': seq<Block>, n: nat)
    requires Shape(sb, blocks) && Shape(sb, blocks') && TableRoom(sb, n)
    requires forall x :: sb.inodestart <= x < sb.bmapstart ==> blocks'[x] == blocks[x]
    ensures Table(sb, blocks', n) == Table(sb, blocks, n)
  {
    hide GetDinode;
    var t, t' := Table(sb, blocks, n), Table(sb, blocks', n);
    assert forall i :: 0 <= i < n ==> t'[i] == t[i];
  }

  /** iupdate's block write: record i of the table. */
  function Updated(sb: Super, blocks: seq<Block>, i: nat, ino: Inode): (r: seq<Block>)
    requires Shape(sb, blocks) && InoBlock(sb, i) < sb.bmapstart
    requires |ino.addrs| == NDIRECT + 1 && forall k :: 0 <= k <= NDIRECT ==> 0 <= ino.addrs[k]
    ensures Shape(sb, r) && |r| == |blocks|
    ensures forall x :: 0 <= x < |blocks| && x != InoBlock(sb, i) ==> r[x] == blocks[x]
  {
    blocks[InoBlock(sb, i) := PutDinode(blocks[InoBlock(sb, i)], i % IPB, ino)]
  }

  lemma TableUpdate(sb: Super, blocks: seq<Block>, n: nat, i: nat, ino: Inode)
    requires Shape(sb, blocks) && TableRoom(sb, n) && i < n && Fits(ino)
    ensures InoBlock(sb, i) < sb.bmapstart
    ensures Table(sb, Updated(sb, blocks, i, ino), n) == Table(sb, blocks, n)[i := ino]
  {
    hide GetDinode, PutDinode;
    var t, t' := Table(sb, blocks, n), Table(sb, Updated(sb, blocks, i, ino), n);
    forall j | 0 <= j < n ensures t'[j] == t[i := ino][j] {
      if InoBlock(sb, j) == InoBlock(sb, i) {
        DinodeRoundTrip(blocks[InoBlock(sb, i)], i % IPB, ino, j % IPB);
      }
    }
  }

  // ---------------------------------------------------------------- the free map

  function Weight(k: nat): (w: nat)
    ensures w > 0 && (k > 0 ==> w % 2 == 0)
  {
    if k == 0 then 1 else 2 * Weight(k - 1)
  }

  /** bp->data[bi/8] & (1 << bi%8) */
  predicate BitOf(byte: int, k: nat) {
    byte / Weight(k) % 2 == 1
  }

  lemma TimesTwo(a: int, b: int)
    ensures a * (2 * b) == 2 * (a * b)
  {}

  lemma {:induction false} WeightAdd(k: nat, d: nat)
    ensures Weight(k + d) == Weight(k) * Weight(d)
  {
    if d > 0 {
      WeightAdd(k, d - 1);
      WeightDouble(d);
      WeightDouble(k + d);
      TimesTwo(Weight(k), Weight(d - 1));
    }
  }

  lemma WeightDouble(d: nat)
    requires d > 0
    ensures Weight(d) == 2 * Weight(d - 1)
  {}

  lemma AddBitAt(byte: int, w: int)
    requires w > 0 && byte / w % 2 != 1
    ensures (byte + w) / w % 2 == 1
  {
    DivShift(byte, w, 1);
  }

  lemma AddBitAbove(byte: int, w: int, h: int, m: int)
    requires w > 0 && h > 0 && m > 0 && m == w * (2 * h) && byte / w % 2 != 1
    ensures (byte + w) / m == byte / m
  {
    DivDiv(byte, w, 2 * h);
    DivDiv(byte + w, w, 2 * h);
    DivShift(byte, w, 1);
    DivDiv(byte / w, 2, h);
    DivDiv(byte / w + 1, 2, h);
  }

  lemma AddBitBelow(byte: int, v: int, f: int, w: int)
    requires v > 0 && f % 2 == 0 && w == f * v
    ensures (byte + w) / v % 2 == byte / v % 2
  {
    DivShift(byte, v, f);
    ParityKept(byte / v, f);
  }

  lemma ParityKept(x: int, f: int)
    requires f % 2 == 0
    ensures (x + f) % 2 == x % 2
  {}

  lemma Commutes(a: int, b: int)
    ensures a * b == b * a
  {}

  /** The bits of a byte after adding one to the digit at place k. */
  lemma AddBit(byte: int, k: nat, i: nat)
    requires !BitOf(byte, k)
    ensures BitOf(byte + Weight(k), i) == (i == k || BitOf(byte, i))
  {
    hide Weight;
    if i == k {
      AddBitAt(byte, Weight(k));
    } else if i > k {
      WeightAdd(k, i - k);
      WeightDouble(i - k);
      AddBitAbove(byte, Weight(k), Weight(i - k - 1), Weight(i));
    } else {
      WeightAdd(i, k - i);
      Commutes(Weight(i), Weight(k - i));
      AddBitBelow(byte, Weight(i), Weight(k - i), Weight(k));
    }
  }

  /** Setting or clearing one bit of a byte leaves the others alone. */
  lemma FlipBit(byte: int, k: nat, i: nat)
    ensures !BitOf(byte, k) ==> BitOf(byte + Weight(k), i) == (i == k || BitOf(byte, i))
    ensures BitOf(byte, k) ==> BitOf(byte - Weight(k), i) == (i != k && BitOf(byte, i))
  {
    if !BitOf(byte, k) {
      AddBit(byte, k, i);
    } else {
      DivShift(byte, Weight(k), -1);
      AddBit(byte - Weight(k), k, i);
    }
  }

  function MapBlock(sb: Super, b: nat): nat {
    b / BPB + sb.bmapstart
  }

  function Bit(sb: Super, blocks: seq<Block>, b: nat): bool
    requires Shape(sb, blocks) && b < sb.size
  {
    BitOf(blocks[MapBlock(sb, b)][b % BPB / 8], b % BPB % 8)
  }

  /** The block of the free map after flipping b's bit. */
  function Flipped(sb: Super, blocks: seq<Block>, b: nat): (r: seq<Block>)
    requires Shape(sb, blocks) && b < sb.size
    ensures Shape(sb, r) && |r| == |blocks|
    ensures forall x :: 0 <= x < |blocks| && !(sb.bmapstart <= x < sb.nmeta) ==> r[x] == blocks[x]
  {
    var m, x := MapBlock(sb, b), b % BPB / 8;
    var w := Weight(b % BPB % 8);
    blocks[m := blocks[m][x := if Bit(sb, blocks, b) then blocks[m][x] - w else blocks[m][x] + w]]
  }

  lemma FlippedBits(sb: Super, blocks: seq<Block>, b: nat, c: nat)
    requires Shape(sb, blocks) && b < sb.size && c < sb.size
    ensures Bit(sb, Flipped(sb, blocks, b), c) == if c == b then !Bit(sb, blocks, b) else Bit(sb, blocks, c)
  {
    hide Weight;
    if MapBlock(sb, b) == MapBlock(sb, c) && b % BPB / 8 == c % BPB / 8 {
      FlipBit(blocks[MapBlock(sb, b)][b % BPB / 8], b % BPB % 8, c % BPB % 8);
      assert b == c <==> b % BPB % 8 == c % BPB % 8;
    }
  }

  // ---------------------------------------------------------------- slots

  /** Slot k of an inode: 0..11 direct, 12 the indirect block, 13.. the indirect entries. */
  function Slot(blocks: seq<Block>, ino: Inode, k: nat): int {
    if |ino.addrs| != NDIRECT + 1 then 0
    else if k <= NDIRECT then ino.addrs[k]
    else
      var a := ino.addrs[NDIRECT];
      if 0 < a < |blocks| && |blocks[a]| == BSIZE && k < NSLOTS then U32(blocks[a], k - NDIRECT - 1) else 0
  }

  /** The slot that maps file block bn. */
  function SlotOf(bn: nat): nat {
    if bn < NDIRECT then bn else bn + 1
  }

  function SlotAt(blocks: seq<Block>, inos: seq<Inode>, i: nat, k: nat): int
    requires i < |inos|
  {
    Slot(blocks, inos[i], k)
  }

  /** Every block an inode slot names belongs to that slot alone. */
  ghost predicate SlotsOk(sb: Super, blocks: seq<Block>, inos: seq<Inode>, owner: map<int, (nat, nat)>) {
    && Shape(sb, blocks)
    && (forall i :: 0 <= i < |inos| ==> |inos[i].addrs| == NDIRECT + 1)
    && (forall i, k :: 0 <= i < |inos| && 0 <= k < NSLOTS && SlotAt(blocks, inos, i, k) != 0 ==>
          SlotAt(blocks, inos, i, k) in owner && owner[SlotAt(blocks, inos, i, k)] == (i, k))
    && (forall b :: b in owner ==>
          && sb.nmeta <= b < sb.size && owner[b].0 < |inos| && owner[b].1 < NSLOTS
          && SlotAt(blocks, inos, owner[b].0, owner[b].1) == b)
  }

  /** The free map marks the metadata blocks and the blocks of `used`, and no others. */
  ghost predicate BitsFor(sb: Super, blocks: seq<Block>, used: set<int>)
    requires Shape(sb, blocks)
  {
    forall b :: 0 <= b < sb.size ==> (Bit(sb, blocks, b) <==> b < sb.nmeta || b in used)
  }

  /** References are unique: two slots naming the same block are the same slot. */
  lemma ReferencedOnce(sb: Super, blocks: seq<Block>, inos: seq<Inode>, owner: map<int, (nat, nat)>, i: nat, k: nat,
                       j: nat, l: nat)
    requires SlotsOk(sb, blocks, inos, owner) && i < |inos| && j < |inos| && k < NSLOTS && l < NSLOTS
    requires SlotAt(blocks, inos, i, k) == SlotAt(blocks, inos, j, l) != 0
    ensures i == j && k == l
  {}
}
