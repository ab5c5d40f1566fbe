/** What commit and recovery need of the buffer cache: a buffer to recycle for each block of the log
    area they read, while the logged blocks are pinned and other processes use other buffers. */
module LogBuffers {
  import opened Common
  import opened RedoLog
  import opened BufferCache
  import LogProtocol

  // ---------------------------------------------------------------- enough buffers

  /** Only the log uses the log area: its buffers are clean, and nobody has a reference to one. */
  ghost predicate LogIdle(buf: seq<Buf>, nbuf: nat, L: Layout) {
    nbuf <= |buf| && forall i :: 0 <= i < nbuf && buf[i].dev == 1 && InLog(L, buf[i].blockno) ==>
      Recyclable(buf[i]) && !buf[i].locked
  }

  /** Nobody has one of these blocks locked. */
  ghost predicate HomesUnheld(buf: seq<Buf>, nbuf: nat, bs: seq<int>) {
    forall t :: 0 <= t < |bs| && bs[t] >= 0 ==> Unheld(buf, nbuf, bs[t])
  }

  /** No buffer is pinned or in use, as at boot. */
  ghost predicate Fresh(buf: seq<Buf>, nbuf: nat) {
    nbuf <= |buf| && forall i :: 0 <= i < nbuf ==> Recyclable(buf[i]) && !buf[i].locked
  }

  /** Enough for one block copy: the home block is pinned and there is a buffer to recycle, or all
      buffers can be recycled and there are two. */
  ghost predicate Roomy(buf: seq<Buf>, nbuf: nat, logBlock: nat, home: nat) {
    && Unheld(buf, nbuf, logBlock) && Unheld(buf, nbuf, home)
    && ((home in Dirty(buf, nbuf) && Spare(buf, nbuf)) || (Fresh(buf, nbuf) && 2 <= nbuf))
  }

  /** With one buffer taken for another block, the home block still has one. */
  lemma RoomSecond(buf0: seq<Buf>, buf1: seq<Buf>, nbuf: nat, disk: seq<Block>, lb: nat, logBlock: nat, home: nat)
    requires |buf1| == |buf0| == nbuf + 1 && Roomy(buf0, nbuf, logBlock, home) && lb < nbuf && logBlock != home
    requires Coherent(buf0, nbuf, disk)
    requires Key(buf0[lb], 1, logBlock) || Recyclable(buf0[lb])
    requires Key(buf1[lb], 1, logBlock) && forall i :: 0 <= i < nbuf && i != lb ==> buf1[i] == buf0[i]
    ensures exists i :: 0 <= i < nbuf && (Key(buf1[i], 1, home) || Recyclable(buf1[i]))
    ensures Unheld(buf1, nbuf, home)
  {
    if home in Dirty(buf0, nbuf) {
      DirtyHas(buf0, nbuf, home);
      var i :| 0 <= i < nbuf && buf0[i].dirty && buf0[i].blockno == home;
      assert BufOk(buf0[i], disk);
      assert i != lb && Key(buf1[i], 1, home);
    } else {
      var i := if lb == 0 then 1 else 0;
      assert Recyclable(buf1[i]);
    }
  }

  lemma RoomFirst(buf: seq<Buf>, nbuf: nat, logBlock: nat, home: nat)
    requires Roomy(buf, nbuf, logBlock, home)
    ensures Unheld(buf, nbuf, logBlock) && Spare(buf, nbuf)
  {
    if Fresh(buf, nbuf) && 2 <= nbuf { assert Recyclable(buf[0]); }
  }

  lemma CoreParts(x: Buf, y: Buf)
    requires Core(x) == Core(y)
    ensures x.refcnt == y.refcnt && x.locked == y.locked && x.dirty == y.dirty && x.dev == y.dev
    ensures x.blockno == y.blockno
  {
    assert Core(x).refcnt == x.refcnt && Core(y).refcnt == y.refcnt;
    assert Core(x).locked == x.locked && Core(y).locked == y.locked;
    assert Core(x).dirty == x.dirty && Core(y).dirty == y.dirty && Core(x).dev == x.dev && Core(y).dev == y.dev;
    assert Core(x).blockno == x.blockno && Core(y).blockno == y.blockno;
  }

  /** brelse of buffer b. */
  ghost predicate Released(buf: seq<Buf>, buf': seq<Buf>, nbuf: nat, b: nat) {
    && b < nbuf < |buf| == |buf'| && buf[b].refcnt > 0
    && (forall i :: 0 <= i < nbuf && i != b ==> Core(buf'[i]) == Core(buf[i]))
    && Core(buf'[b]) == Core(buf[b]).(locked := false, refcnt := buf[b].refcnt - 1)
  }

  lemma ReleasedParts(buf: seq<Buf>, buf': seq<Buf>, nbuf: nat, b: nat)
    requires Released(buf, buf', nbuf, b)
    ensures LetsGo(buf[b], buf'[b])
    ensures forall i :: 0 <= i < nbuf && i != b ==>
      buf'[i].refcnt == buf[i].refcnt && buf'[i].locked == buf[i].locked && buf'[i].dirty == buf[i].dirty
      && Key(buf'[i], buf[i].dev, buf[i].blockno)
  {
    CoreParts(buf'[b], buf[b].(locked := false, refcnt := buf[b].refcnt - 1));
    forall i | 0 <= i < nbuf && i != b ensures buf'[i].refcnt == buf[i].refcnt && buf'[i].locked == buf[i].locked
      && buf'[i].dirty == buf[i].dirty && Key(buf'[i], buf[i].dev, buf[i].blockno)
    {
      CoreParts(buf'[i], buf[i]);
    }
  }

  /** bread and brelse of one buffer. */
  lemma EasedOne(buf0: seq<Buf>, buf1: seq<Buf>, buf2: seq<Buf>, nbuf: nat, b: nat, n: nat)
    requires |buf0| == |buf1| && Released(buf1, buf2, nbuf, b) && Grabs(buf0[b], buf1[b], n)
    requires forall i :: 0 <= i < nbuf && i != b ==> buf1[i] == buf0[i]
    ensures Eased(buf0, buf2, nbuf)
  {
    ReleasedParts(buf1, buf2, nbuf, b);
    GrabAndLetGo(buf0[b], buf1[b], buf2[b], n);
  }

  predicate SameUse(o: Buf, n: Buf) {
    n.refcnt == o.refcnt && n.locked == o.locked && n.dirty == o.dirty && Key(n, o.dev, o.blockno)
  }

  /** bread and brelse of two. */
  lemma EasedTwo(buf0: seq<Buf>, buf1: seq<Buf>, buf2: seq<Buf>, nbuf: nat, b: nat, n: nat, c: nat, m: nat)
    requires |buf0| == |buf1| == |buf2| && b != c && b < nbuf && c < nbuf <= |buf0|
    requires Grabs(buf0[b], buf1[b], n) && Grabs(buf0[c], buf1[c], m)
    requires LetsGo(buf1[b], buf2[b]) && LetsGo(buf1[c], buf2[c])
    requires forall i :: 0 <= i < nbuf && i != b && i != c ==> buf1[i] == buf0[i] && SameUse(buf1[i], buf2[i])
    ensures Eased(buf0, buf2, nbuf)
  {
    GrabAndLetGo(buf0[b], buf1[b], buf2[b], n);
    GrabAndLetGo(buf0[c], buf1[c], buf2[c], m);
  }

  lemma EasedLog(buf: seq<Buf>, buf': seq<Buf>, nbuf: nat, disk: seq<Block>, L: Layout, bs: seq<int>)
    requires Eased(buf, buf', nbuf) && Coherent(buf, nbuf, disk)
    ensures LogIdle(buf, nbuf, L) ==> LogIdle(buf', nbuf, L)
    ensures HomesUnheld(buf, nbuf, bs) ==> HomesUnheld(buf', nbuf, bs)
    ensures Spare(buf, nbuf) ==> Spare(buf', nbuf)
    ensures Fresh(buf, nbuf) ==> Fresh(buf', nbuf)
  {
    hide Eased, Spare, Unheld;
    EasedKeeps(buf, buf', nbuf, disk, 0);
    forall t | 0 <= t < |bs| && bs[t] >= 0 && Unheld(buf, nbuf, bs[t]) ensures Unheld(buf', nbuf, bs[t]) {
      EasedKeeps(buf, buf', nbuf, disk, bs[t]);
    }
    forall i | 0 <= i < nbuf && nbuf <= |buf| == |buf'| ensures Eases(buf[i], buf'[i]) { EasedAt(buf, buf', nbuf, i); }
    assert |buf| == |buf'| && nbuf <= |buf| by { EasedShape(buf, buf', nbuf); }
    forall i | 0 <= i < nbuf ensures BufOk(buf[i], disk) {}
  }

  lemma EasedShape(buf: seq<Buf>, buf': seq<Buf>, nbuf: nat)
    requires Eased(buf, buf', nbuf)
    ensures |buf| == |buf'| && nbuf <= |buf|
  {}

  lemma EasedAt(buf: seq<Buf>, buf': seq<Buf>, nbuf: nat, i: nat)
    requires Eased(buf, buf', nbuf) && i < nbuf
    ensures |buf| == |buf'| && i < |buf| && Eases(buf[i], buf'[i])
  {}

  /** Block b of an idle log area is not locked, and if cached its buffer can be recycled. */
  lemma IdleBlock(buf: seq<Buf>, nbuf: nat, L: Layout, b: nat)
    requires LogIdle(buf, nbuf, L) && InLog(L, b)
    ensures Unheld(buf, nbuf, b)
    ensures !Spare(buf, nbuf) ==> forall i :: 0 <= i < nbuf ==> !Key(buf[i], 1, b)
  {}

  ghost function Pins(bs: seq<int>): set<nat> {
    if bs == [] then {}
    else Pins(bs[..|bs| - 1]) + if bs[|bs| - 1] >= 0 then {bs[|bs| - 1]} else {}
  }

  lemma {:induction false} PinsFit(bs: seq<int>)
    ensures |Pins(bs)| <= |bs|
  {
    if bs != [] { PinsFit(bs[..|bs| - 1]); }
  }

  /** The header block is never logged, so never pinned. */
  lemma HeaderUnpinned(disk: seq<Block>, bs: seq<int>, L: Layout)
    requires ValidTargets(L, disk, bs)
    ensures Pins(bs) - {L.start} == Pins(bs) && |Pins(bs)| <= |bs|
  {
    PinsFit(bs);
    PinsHas(bs, L.start);
    assert forall i :: 0 <= i < |bs| ==> HomeBlock(L, disk, bs[i]);
  }

  lemma AbsorbPins(bs: seq<int>, b: nat)
    requires Distinct(bs)
    ensures Distinct(LogProtocol.Absorb(bs, b)) && Pins(LogProtocol.Absorb(bs, b)) == Pins(bs) + {b}
  {
    PinsHas(bs, b);
    assert (bs + [b])[..|bs|] == bs;
  }

  lemma NoPins(bs: seq<int>)
    ensures bs[|bs|..] == [] && Pins(bs[|bs|..]) == {} && bs[0..] == bs
  {}

  lemma {:induction false} PinsHas(bs: seq<int>, x: nat)
    ensures x in Pins(bs) <==> x in bs
  {
    if bs != [] {
      PinsHas(bs[..|bs| - 1], x);
      assert bs == bs[..|bs| - 1] + [bs[|bs| - 1]];
    }
  }

  /** Nobody but the log has a reference to a block of its area, and the pinned blocks are `pinned`. */
  ghost predicate Poised(buf: seq<Buf>, nbuf: nat, L: Layout, pinned: seq<int>) {
    LogIdle(buf, nbuf, L) && Dirty(buf, nbuf) == Pins(pinned)
  }

  /** ... and nobody has a logged block locked. */
  ghost predicate Undisturbed(buf: seq<Buf>, nbuf: nat, L: Layout, bs: seq<int>, pinned: seq<int>) {
    Poised(buf, nbuf, L, pinned) && HomesUnheld(buf, nbuf, bs)
  }

  lemma UndisturbedParts(buf: seq<Buf>, nbuf: nat, L: Layout, bs: seq<int>, pinned: seq<int>)
    ensures Undisturbed(buf, nbuf, L, bs, pinned) <==> Poised(buf, nbuf, L, pinned) && HomesUnheld(buf, nbuf, bs)
  {}

  lemma NoHomes(buf: seq<Buf>, nbuf: nat, L: Layout)
    requires Poised(buf, nbuf, L, [])
    ensures Undisturbed(buf, nbuf, L, [], []) && Distinct<int>([])
  {}

  /** What a round of commit needs on top of that: a buffer for the block of the log, and its home
      block, if it has one, not in a reader's hands. */
  ghost predicate Fit(buf: seq<Buf>, nbuf: nat, home: int) {
    Spare(buf, nbuf) && (home >= 0 ==> Unheld(buf, nbuf, home))
  }

  /** The t-th copy needs no more than that, and no less. */
  lemma CopyFits(buf: seq<Buf>, nbuf: nat, L: Layout, t: nat, home: nat)
    requires LogIdle(buf, nbuf, L) && home in Dirty(buf, nbuf) && InLog(L, L.start + t + 1) && 0 <= L.start
    ensures Fit(buf, nbuf, home) ==> Roomy(buf, nbuf, L.start + t + 1, home)
    ensures !Spare(buf, nbuf) ==> nbuf <= |buf| && forall i :: 0 <= i < nbuf ==> !Key(buf[i], 1, L.start + t + 1)
  {
    hide Spare, Unheld, Dirty;
    IdleBlock(buf, nbuf, L, L.start + t + 1);
  }

  /** The blocks still pinned when t of them are done: write_log unpins none, install_trans each. */
  function StillPinned(bs: seq<int>, t: nat, toLog: bool): seq<int>
    requires t <= |bs|
  {
    if toLog then bs else bs[t..]
  }

  lemma PinsStep(bs: seq<int>, t: nat, L: Layout, disk: seq<Block>, toLog: bool)
    requires t < |bs| && ValidTargets(L, disk, bs)
    ensures 0 <= bs[t] && bs[t] in Pins(StillPinned(bs, t, toLog)) && InLog(L, L.start + t + 1)
    ensures Distinct(bs) ==>
      Pins(StillPinned(bs, t + 1, toLog))
      == Pins(StillPinned(bs, t, toLog)) - {if toLog then L.start + t + 1 else bs[t]}
  {
    assert forall i :: 0 <= i < |bs| ==> HomeBlock(L, disk, bs[i]);
    PinsHas(StillPinned(bs, t, toLog), bs[t]);
    if toLog {
      PinsHas(bs, L.start + t + 1);
    } else if Distinct(bs) {
      assert bs[t..] == [bs[t]] + bs[t + 1..];
      assert bs[t] !in bs[t + 1..];
      forall x: nat ensures x in Pins(bs[t + 1..]) <==> x in Pins(bs[t..]) && x != bs[t] {
        PinsHas(bs[t + 1..], x);
        PinsHas(bs[t..], x);
      }
    }
  }

  lemma FreshRoom(buf: seq<Buf>, nbuf: nat, logBlock: nat, home: nat)
    requires Fresh(buf, nbuf) && 2 <= nbuf
    ensures Roomy(buf, nbuf, logBlock, home) && Dirty(buf, nbuf) == {}
  {
    NothingDirty(buf, nbuf);
  }

  lemma {:induction false} NothingDirty(buf: seq<Buf>, nbuf: nat)
    requires nbuf <= |buf| && forall i :: 0 <= i < nbuf ==> !buf[i].dirty
    ensures Dirty(buf, nbuf) == {}
  {
    if nbuf > 0 { NothingDirty(buf, nbuf - 1); }
  }

  lemma NowCoherent(c: Cache)
    requires c.Valid()
    ensures Coherent(c.buf, c.nbuf, c.disk)
  {}

  lemma GrabsParts(o: Buf, g: Buf, n: nat)
    requires Grabs(o, g, n)
    ensures !o.locked && (Key(o, 1, n) || Recyclable(o)) && Key(g, 1, n)
  {}

  lemma SpareOr(buf: seq<Buf>, nbuf: nat, n: nat)
    requires nbuf <= |buf| && exists i :: 0 <= i < nbuf && (Key(buf[i], 1, n) || Recyclable(buf[i]))
    ensures Spare(buf, nbuf) || exists i :: 0 <= i < nbuf && Key(buf[i], 1, n)
  {}

  lemma IsReleased(buf: seq<Buf>, buf': seq<Buf>, nbuf: nat, b: nat)
    requires b < nbuf < |buf| == |buf'| && buf[b].refcnt > 0
    requires forall i :: 0 <= i < nbuf && i != b ==> Core(buf'[i]) == Core(buf[i])
    requires Core(buf'[b]) == Core(buf[b]).(locked := false, refcnt := buf[b].refcnt - 1)
    ensures Released(buf, buf', nbuf, b)
  {}

  lemma FreshIdle(buf: seq<Buf>, nbuf: nat, L: Layout)
    requires Fresh(buf, nbuf)
    ensures LogIdle(buf, nbuf, L)
  {}

  lemma FreshReads(buf: seq<Buf>, nbuf: nat, b: nat)
    requires Fresh(buf, nbuf) && 2 <= nbuf
    ensures Unheld(buf, nbuf, b) && Spare(buf, nbuf)
  {
    assert Recyclable(buf[0]);
  }

  lemma {:induction false} PinsCount(bs: seq<int>)
    requires Distinct(bs) && forall i :: 0 <= i < |bs| ==> bs[i] >= 0
    ensures |Pins(bs)| == |bs|
  {
    if bs != [] {
      var front := bs[..|bs| - 1];
      PinsCount(front);
      PinsHas(front, bs[|bs| - 1]);
    }
  }

  /** Buffers in the hands of readers count like pinned ones: with n blocks pinned and fewer than
      NBUF - n buffers referenced there is one to recycle, in whichever round of a commit. */
  lemma RoomToCommit(buf: seq<Buf>, nbuf: nat, disk: seq<Block>, L: Layout, pinned: seq<int>)
    requires Coherent(buf, nbuf, disk) && Poised(buf, nbuf, L, pinned) && |pinned| + CountHeld(buf, nbuf) < nbuf
    ensures Spare(buf, nbuf)
  {
    PinsFit(pinned);
    SpareBuffer(buf, nbuf, disk);
  }

  /** With NBUF - 1 blocks logged, one reader outside any operation takes the last buffer. */
  lemma ReaderStopsCommit(buf: seq<Buf>, nbuf: nat, disk: seq<Block>, L: Layout, bs: seq<int>, r: nat)
    requires Coherent(buf, nbuf, disk) && Undisturbed(buf, nbuf, L, bs, bs) && Distinct(bs) && ValidTargets(L, disk, bs)
    requires |bs| == nbuf - 1 && r < nbuf && buf[r].refcnt > 0 && !buf[r].dirty
    ensures !Spare(buf, nbuf)
  {
    assert forall i :: 0 <= i < |bs| ==> HomeBlock(L, disk, bs[i]);
    PinsCount(bs);
    ReaderTakesLast(buf, nbuf, disk, r);
  }
}
