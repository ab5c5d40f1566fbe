/** What the sizes of param.h and mkfs.c leave open: a log area of LOGSIZE blocks is one block short of
    what begin_op reserves, and NBUF buffers are one short of a full transaction and one reader. */
module LogPanic {
  import opened Common
  import opened RedoLog
  import opened BufferCache
  import opened LogBuffers
  import opened KernelLog
  import opened LogRuns
  import opened LogOverrun
  import LogProtocol

  const FIRST := 33

  const NBUF := 30

  /** LOGSIZE = 30, MAXOPBLOCKS = 10, and mkfs makes the log area LOGSIZE blocks, header included. */
  function Area(size: nat): LogProtocol.Config {
    LogProtocol.Config(Layout(2, size, 30), 10)
  }

  const SIZES := Area(30)

  /** On every disk mkfs makes, operations that keep their budgets can be stopped by log_write and
      can tear each other's blocks; one more block of log would rule out both. */
  lemma OneBlockShort(d: seq<Block>)
    requires Recoverable(SIZES.L, d) && Recoverable(Area(31).L, d) && 64 < |d|
    ensures !AlwaysAtomic(SIZES, d) && !NeverStops(SIZES, d)
    ensures AlwaysAtomic(Area(31), d) && NeverStops(Area(31), d)
  {
    hide AlwaysAtomic, NeverStops;
    AtomicExactly(SIZES, d);
    StopsExactly(SIZES, d);
    AtomicExactly(Area(31), d);
    StopsExactly(Area(31), d);
  }

  // ---------------------------------------------------------------- a reader during commit

  /** Nobody uses a buffer. */
  ghost predicate Calm(buf: seq<Buf>, nbuf: nat) {
    nbuf <= |buf| && forall i :: 0 <= i < nbuf ==> buf[i].refcnt == 0 && !buf[i].locked
  }

  lemma {:induction false} NoneHeld(buf: seq<Buf>, nbuf: nat)
    requires Calm(buf, nbuf)
    ensures CountHeld(buf, nbuf) == 0
  {
    if nbuf > 0 { NoneHeld(buf, nbuf - 1); }
  }

  /** With fewer logged blocks than buffers, and no other use of them, bread gets one. */
  lemma CalmRead(buf: seq<Buf>, nbuf: nat, disk: seq<Block>, bs: seq<int>, n: nat)
    requires Coherent(buf, nbuf, disk) && Calm(buf, nbuf) && Dirty(buf, nbuf) == Pins(bs) && |bs| < nbuf
    ensures Unheld(buf, nbuf, n) && Spare(buf, nbuf)
  {
    PinsFit(bs);
    NoneHeld(buf, nbuf);
    SpareBuffer(buf, nbuf, disk);
  }

  /** Blocks logged by operation j when k are logged in all, ten each. */
  function Share(k: nat, j: nat): nat {
    if k <= 10 * j then 0 else if k >= 10 * j + 10 then 10 else k - 10 * j
  }

  ghost predicate Three(s: LogProtocol.State, k: nat) {
    && |s.ops| == s.outstanding == 3
    && forall j :: 0 <= j < 3 ==> s.ops[j].spent == Share(k, j) && !s.ops[j].checked
  }

  /** Three operations have logged k blocks, and no buffer is in use. */
  ghost predicate Filled(log: Log, k: nat)
    reads log, log.cache
  {
    && log.Open() && log.Sizes() == SIZES && log.cache.nbuf == NBUF && FIRST + NBUF <= |log.cache.disk|
    && log.n == k && log.block[..k] == Spots(SIZES.L, k) && log.PinsLogged()
    && Calm(log.cache.buf, NBUF) && Three(log.Now(), k)
  }

  lemma CalmAt(buf: seq<Buf>, nbuf: nat, i: nat)
    requires Calm(buf, nbuf) && i < nbuf
    ensures i < |buf| && buf[i].refcnt == 0 && !buf[i].locked
  {}

  lemma CalmAgain(buf0: seq<Buf>, buf1: seq<Buf>, buf2: seq<Buf>, nbuf: nat, b: nat, n: nat)
    requires |buf0| == |buf1| && Calm(buf0, nbuf) && Released(buf1, buf2, nbuf, b)
    requires buf1[b].refcnt == 1 && forall i :: 0 <= i < nbuf && i != b ==> buf1[i] == buf0[i]
    ensures Calm(buf2, nbuf)
  {
    ReleasedParts(buf1, buf2, nbuf, b);
  }

  lemma ThreeMore(s: LogProtocol.State, k: nat, w: Write)
    requires Three(s, k) && k < 29 && w.blockno !in s.header
    ensures s.outstanding == 3 && k / 10 < |s.ops| && !s.ops[k / 10].checked
    ensures Three(Edited(Tested(s, k / 10), k / 10, w), k + 1)
  {}

  /** bread, log_write, brelse by the operation whose turn it is. */
  method LogOne(log: Log, k: nat, data: Block)
    requires Filled(log, k) && k < 29
    modifies log, log.cache
    ensures Filled(log, k + 1)
  {
    hide Cache.Valid, Coherent, Dirty, Pins, Calm, Three, Spare, Unheld, LogProtocol.IsRun, Distinct, Erased;
    hide Released, LogProtocol.Next, LogProtocol.Fits;
    var cache := log.cache;
    ghost var buf0, s := cache.buf, log.Now();
    NowCoherent(cache);
    CalmRead(buf0, NBUF, cache.disk, log.block[..k], FIRST + k);
    var r := cache.Bread(FIRST + k);
    CalmAt(buf0, NBUF, r.b);
    ThreeMore(s, k, Write(FIRST + k, data));
    var ok := log.LogWrite(r.b, data, k / 10);
    ghost var buf2 := cache.buf;
    cache.Brelse(r.b);
    IsReleased(buf2, cache.buf, NBUF, r.b);
    CalmAgain(buf0, buf2, cache.buf, NBUF, r.b, FIRST + k);
    assert Spots(SIZES.L, k) + [FIRST + k] == Spots(SIZES.L, k + 1);
  }

  lemma MayBegin(s: LogProtocol.State)
    requires s.phase.Idle? && !s.committing && s.header == [] && s.outstanding < 3
    ensures LogProtocol.Next(SIZES, s, LogProtocol.BeginOp, Begun(s))
  {}

  /** The kernel boots. */
  method Start(disk: seq<Block>) returns (log: Log)
    requires Recoverable(SIZES.L, disk) && FIRST + NBUF <= |disk|
    ensures fresh(log) && fresh(log.cache) && log.Open() && log.Sizes() == SIZES && |log.cache.disk| == |disk|
    ensures log.n == log.outstanding == 0 && log.Now().ops == []
    ensures log.cache.nbuf == NBUF && Calm(log.cache.buf, NBUF) && Dirty(log.cache.buf, NBUF) == {}
  {
    hide Cache.Valid, Coherent, Dirty, LogProtocol.IsRun, Erased, Apply;
    var cache := new Cache(NBUF, disk);
    log := new Log(cache, SIZES.L, SIZES.maxOp);
    var ok := log.Recover();
    NothingDirty(cache.buf, NBUF);
  }

  /** Three operations begin. */
  method StartThree(disk: seq<Block>) returns (log: Log)
    requires Recoverable(SIZES.L, disk) && FIRST + NBUF <= |disk|
    ensures fresh(log) && fresh(log.cache) && Filled(log, 0)
  {
    hide Cache.Valid, Dirty, LogProtocol.IsRun, LogProtocol.Next, Erased, Calm;
    log := Start(disk);
    assert log.block[..0] == Spots(SIZES.L, 0);
    MayBegin(log.Now());
    var ok := log.BeginOp();
    MayBegin(log.Now());
    ok := log.BeginOp();
    MayBegin(log.Now());
    ok := log.BeginOp();
  }

  /** What a reader of one more block does to a full transaction: it is in nobody's way, and it has
      the last buffer. */
  lemma LastBuffer(buf0: seq<Buf>, buf: seq<Buf>, disk: seq<Block>, bs: seq<int>, r: nat, n: nat)
    requires Calm(buf0, NBUF) && |buf0| == |buf| && r < NBUF && Grabs(buf0[r], buf[r], n)
    requires forall i :: 0 <= i < NBUF && i != r ==> buf[i] == buf0[i]
    requires Coherent(buf, NBUF, disk) && Dirty(buf, NBUF) == Pins(bs)
    requires ValidTargets(SIZES.L, disk, bs) && Distinct(bs) && |bs| == NBUF - 1 && n !in bs && !InLog(SIZES.L, n)
    ensures Undisturbed(buf, NBUF, SIZES.L, bs, bs) && !Spare(buf, NBUF)
  {
    hide Dirty, Pins, Spare;
    forall i | 0 <= i < NBUF && buf[i].dirty ensures buf[i].blockno in bs {
      DirtyHas(buf, NBUF, buf[i].blockno);
      PinsHas(bs, buf[i].blockno);
    }
    assert forall t :: 0 <= t < |bs| ==> HomeBlock(SIZES.L, disk, bs[t]);
    ReaderStopsCommit(buf, NBUF, disk, SIZES.L, bs, r);
  }

  /** From boot to the panic, by calls alone: three operations within their budgets log 29 blocks, a
      process outside any operation reads a thirtieth, the operations end, and the commit finds no
      buffer for the first block of the log. */
  method ReaderPanic(disk: seq<Block>, data: Block) returns (log: Log, ok: bool)
    requires Recoverable(SIZES.L, disk) && FIRST + NBUF <= |disk|
    ensures !ok && log.Running() && log.Sizes() == SIZES && log.cache.nbuf == NBUF && log.outstanding == 0
  {
    hide Cache.Valid, Coherent, Dirty, Pins, LogProtocol.IsRun, Distinct, Erased, Apply, Grabs, Undisturbed, Spare;
    log := StartThree(disk);
    var cache := log.cache;
    var k := 0;
    while k < 29
      invariant 0 <= k <= 29 && fresh(log) && fresh(cache) && log.cache == cache && Filled(log, k)
    {
      LogOne(log, k, data);
      k := k + 1;
    }
    ghost var buf0 := cache.buf;
    NowCoherent(cache);
    CalmRead(buf0, NBUF, cache.disk, log.block[..29], FIRST + 29);
    var r := cache.Bread(FIRST + 29);
    NowCoherent(cache);
    LastBuffer(buf0, cache.buf, cache.disk, log.block[..29], r.b, FIRST + 29);
    ghost var j, bufs;
    ok, j, bufs := log.EndOp(2, []);
    ok, j, bufs := log.EndOp(1, []);
    ok, j, bufs := log.EndOp(0, []);
  }
}
