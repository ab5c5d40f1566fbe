/** log.c on top of the buffer cache: the loops of commit and recovery, one bwrite at a time.

    A method that returns false stopped where the kernel panics (no buffer to recycle, disk
    request out of range) or waits for a buffer another process holds. Its contract still
    says what reached the disk: a prefix of the trace that the crash lemmas are about. */
module KernelLog {
  import opened Common
  import opened RedoLog
  import opened BufferCache
  import opened LogBuffers
  import opened LogReaders
  import LogProtocol
  import opened LogRuns

  lemma SettledHome(C: LogProtocol.Config, d: seq<Block>, v: seq<Block>, bs: seq<int>, k: nat)
    requires Erased(C.L, d) && |v| == |d| && ValidTargets(C.L, v, bs) && k == |CommitTrace(C.L, d, v, bs)|
    requires forall b :: 0 <= b < |d| && b !in bs ==> v[b] == d[b]
    ensures SameHome(C.L, Apply(d, CommitTrace(C.L, d, v, bs)[..k]), v)
  {
    WholeCommit(C.L, d, v, bs, k);
    LogProtocol.CommitSettles(C, d, v, bs);
  }

  lemma WholeCommit(L: Layout, d: seq<Block>, v: seq<Block>, bs: seq<int>, k: nat)
    requires Erased(L, d) && |v| == |d| && ValidTargets(L, v, bs) && k == |CommitTrace(L, d, v, bs)|
    ensures CommitTrace(L, d, v, bs)[..k] == CommitTrace(L, d, v, bs)
  {}

  /** The k-th write of write_log, on the blocks as they are by then. */
  lemma LogWriteAt(L: Layout, v: seq<Block>, bs: seq<int>, k: nat)
    requires ValidTargets(L, v, bs) && k < |bs| && 0 < L.size && L.start + L.size <= |v|
    ensures var ws := LogTrace(L, v, bs); var e := Apply(v, ws[..k]);
      && |ws| == |bs| && |e| == |v| && e[L.start] == v[L.start] && 0 <= bs[k] < |v| && InLog(L, L.start + k + 1)
      && ws[k] == Write(L.start + k + 1, e[bs[k]]) && ws[..k] + [ws[k]] == ws[..k + 1]
  {
    hide Apply;
    LogTraceMisses(L, v, bs, k);
    assert HomeBlock(L, v, bs[k]);
  }

  /** The k-th write of install_trans, likewise. */
  lemma InstallWriteAt(L: Layout, v: seq<Block>, bs: seq<int>, k: nat)
    requires ValidTargets(L, v, bs) && k < |bs| && 0 < L.size && L.start + L.size <= |v|
    ensures var ws := InstallTrace(L, v, bs); var e := Apply(v, ws[..k]);
      && |ws| == |bs| && |e| == |v| && e[L.start] == v[L.start] && 0 <= bs[k] < |v| && InLog(L, L.start + k + 1)
      && ws[k] == Write(bs[k], e[L.start + k + 1]) && ws[..k] + [ws[k]] == ws[..k + 1]
  {
    hide Apply;
    InstallTraceMisses(L, v, bs, k);
    assert HomeBlock(L, v, bs[k]);
  }

  class Log {
    const cache: Cache
    const L: Layout
    const maxOp: nat
    var n: nat              // lh.n
    var block: seq<int>     // lh.block[LOGSIZE]
    var outstanding: int
    var committing: bool
    ghost const boot: seq<Block>                  // the disk when the machine was switched on
    ghost var states: seq<LogProtocol.State>      // the run of the protocol so far
    ghost var steps: seq<LogProtocol.Step>

    ghost function Sizes(): LogProtocol.Config {
      LogProtocol.Config(L, maxOp)
    }

    ghost function Now(): LogProtocol.State
      reads this
      requires |states| == |steps| + 1
    {
      states[|steps|]
    }

    /** What the log has done so far is a run of the protocol, and the cache and the disk are in
        that run's last state. */
    ghost predicate Happened()
      reads this, cache
    {
      && |states| == |steps| + 1 && LogProtocol.IsRun(Sizes(), boot, states, steps)
      && Now().disk == cache.disk && Now().view == cache.view
    }

    /** The same, in a run in which the header has always fitted the log. */
    ghost predicate Running()
      reads this, cache
    {
      Happened() && LogProtocol.Fitting(Sizes(), states, |steps|)
    }

    /** Between commits, with the fields of struct log in the run's last state too. */
    ghost predicate Open()
      reads this, cache
    {
      && Ready() && Running() && Now().phase == LogProtocol.Idle
      && Now().header == block[..n] && Now().outstanding == outstanding && Now().committing == committing == false
    }

    ghost predicate Shape()
      reads this, cache
    {
      && cache.Valid() && n <= |block| == L.logSize
      && 0 < L.size && L.start + L.size <= |cache.disk|
      && L.logSize + 1 < |cache.view[L.start]|
      && ValidTargets(L, cache.disk, block[..n])
    }

    /** Between commits: an empty header on disk, and cache and disk differing only in the
        blocks of the in-memory header. */
    ghost predicate Ready()
      reads this, cache
    {
      && Shape() && Erased(L, cache.disk)
      && forall b :: 0 <= b < |cache.disk| && b !in block[..n] ==> cache.view[b] == cache.disk[b]
    }

    /** The pinned blocks are the logged ones, each logged once. */
    ghost predicate PinsLogged()
      reads this, cache
      requires n <= |block|
    {
      Distinct(block[..n]) && Dirty(cache.buf, cache.nbuf) == Pins(block[..n])
    }

    /** Nobody is in the way of a commit: readers may use any buffer but those of the log area, and
        may not have a logged block locked. */
    ghost predicate Settled()
      reads this, cache
      requires n <= |block|
    {
      Undisturbed(cache.buf, cache.nbuf, L, block[..n], block[..n]) && Distinct(block[..n])
    }

    /** The disk, the trace and the view have all advanced by ws. */
    twostate predicate Advanced(ws: seq<Write>)
      reads this, cache
    {
      && cache.trace == old(cache.trace) + ws
      && cache.disk == Apply(old(cache.disk), ws)
      && cache.view == Apply(old(cache.view), ws)
    }

    twostate predicate Stalled()
      reads this, cache
    {
      cache.trace == old(cache.trace) && cache.disk == old(cache.disk) && cache.view == old(cache.view)
    }

    /** The constructor stands for initlog up to the call of recover_from_log. */
    constructor (c: Cache, layout: Layout, maxOpBlocks: nat)
      requires c.Valid() && c.view == c.disk && Recoverable(layout, c.disk)
      ensures cache == c && L == layout && maxOp == maxOpBlocks
      ensures n == 0 && outstanding == 0 && !committing && Shape()
      ensures Running() && boot == c.disk && Now() == Switched(boot)
    {
      cache, L, maxOp := c, layout, maxOpBlocks;
      n, outstanding, committing := 0, 0, false;
      block := seq(layout.logSize, _ => 0);
      boot, states, steps := c.disk, [Switched(c.disk)], [];
    }

    /** bread of the log block, then of the home block */
    method BreadBoth(logBlock: nat, home: nat) returns (ok: bool, lb: nat, hb: nat)
      requires cache.Valid() && logBlock != home && logBlock < |cache.disk| && home < |cache.disk|
      modifies cache
      ensures cache.Valid() && Stalled()
      ensures ok ==>
        && lb < cache.nbuf && hb < cache.nbuf && lb != hb && cache.buf[lb].locked && cache.buf[hb].locked
        && Holds(cache.buf[lb], logBlock) && cache.buf[lb].data == cache.view[logBlock]
        && Holds(cache.buf[hb], home) && cache.buf[hb].data == cache.view[home]
        && Dirty(cache.buf, cache.nbuf) == old(Dirty(cache.buf, cache.nbuf))
        && Grabs(old(cache.buf)[lb], cache.buf[lb], logBlock) && Grabs(old(cache.buf)[hb], cache.buf[hb], home)
        && forall i :: 0 <= i < cache.nbuf && i != lb && i != hb ==> cache.buf[i] == old(cache.buf)[i]
      ensures old(Roomy(cache.buf, cache.nbuf, logBlock, home)) ==> ok
      ensures ok ==> old(Unheld(cache.buf, cache.nbuf, home))
      ensures ok && !old(Spare(cache.buf, cache.nbuf)) ==>
        exists i :: 0 <= i < cache.nbuf && Key(old(cache.buf)[i], 1, logBlock)
    {
      hide Cache.Valid, Dirty, Coherent, Roomy, Spare, Grabs;
      ok, lb, hb := false, 0, 0;
      ghost var buf0 := cache.buf;
      ghost var roomy := Roomy(buf0, cache.nbuf, logBlock, home);
      if roomy { RoomFirst(buf0, cache.nbuf, logBlock, home); }
      NowCoherent(cache);
      var l := cache.Bread(logBlock);
      if !l.Ready? { return; }
      GrabsParts(buf0[l.b], cache.buf[l.b], logBlock);
      if roomy {
        RoomSecond(buf0, cache.buf, cache.nbuf, cache.disk, l.b, logBlock, home);
        SpareOr(cache.buf, cache.nbuf, home);
      }
      ghost var buf1 := cache.buf;
      var h := cache.Bread(home);
      if !h.Ready? { return; }
      GrabsParts(buf1[h.b], cache.buf[h.b], home);
      return true, l.b, h.b;
    }

    method BrelseBoth(lb: nat, hb: nat)
      requires cache.Valid() && lb < cache.nbuf && hb < cache.nbuf && lb != hb && cache.buf[lb].locked
      requires cache.buf[hb].locked
      requires cache.buf[lb].refcnt > 0 && cache.buf[hb].refcnt > 0
      modifies cache
      ensures cache.Valid() && Stalled() && Dirty(cache.buf, cache.nbuf) == old(Dirty(cache.buf, cache.nbuf))
      ensures LetsGo(old(cache.buf)[lb], cache.buf[lb]) && LetsGo(old(cache.buf)[hb], cache.buf[hb])
      ensures forall i :: 0 <= i < cache.nbuf && i != lb && i != hb ==> SameUse(old(cache.buf)[i], cache.buf[i])
    {
      hide Cache.Valid, Dirty;
      ghost var buf1 := cache.buf;
      cache.Brelse(lb);
      IsReleased(buf1, cache.buf, cache.nbuf, lb);
      ReleasedParts(buf1, cache.buf, cache.nbuf, lb);
      ghost var buf2 := cache.buf;
      cache.Brelse(hb);
      IsReleased(buf2, cache.buf, cache.nbuf, hb);
      ReleasedParts(buf2, cache.buf, cache.nbuf, hb);
    }

    /** bread both blocks; memmove one into the other; bwrite it; brelse. */
    method CopyBlock(logBlock: nat, home: nat, toLog: bool) returns (ok: bool)
      requires cache.Valid() && logBlock != home && logBlock < |cache.disk| && home < |cache.disk|
      modifies cache
      ensures cache.Valid()
      ensures !ok ==> Stalled()
      ensures ok ==> Advanced([if toLog then Write(logBlock, old(cache.view)[home])
                               else Write(home, old(cache.view)[logBlock])])
      ensures old(Roomy(cache.buf, cache.nbuf, logBlock, home)) ==> ok
      ensures ok ==> old(Unheld(cache.buf, cache.nbuf, home))
      ensures ok && !old(Spare(cache.buf, cache.nbuf)) ==>
        exists i :: 0 <= i < cache.nbuf && Key(old(cache.buf)[i], 1, logBlock)
      ensures ok ==> Eased(old(cache.buf), cache.buf, cache.nbuf)
      ensures ok ==>
        Dirty(cache.buf, cache.nbuf) == old(Dirty(cache.buf, cache.nbuf)) - {if toLog then logBlock else home}
    {
      hide Cache.Valid, Dirty, Apply, Roomy, Spare, Eased, Released;
      ghost var buf0 := cache.buf;
      var lb, hb;
      ok, lb, hb := BreadBoth(logBlock, home);
      if !ok { return; }
      ghost var w := if toLog then Write(logBlock, cache.view[home]) else Write(home, cache.view[logBlock]);
      if toLog {
        cache.Bwrite(lb, cache.buf[hb].data);
      } else {
        cache.Bwrite(hb, cache.buf[lb].data);
      }
      ApplyOne(old(cache.disk), w);
      ApplyOne(old(cache.view), w);
      ghost var buf1 := cache.buf;
      BrelseBoth(lb, hb);
      EasedTwo(buf0, buf1, cache.buf, cache.nbuf, lb, logBlock, hb, home);
    }

    /** One round of write_log or install_trans, the t-th write of ws, behind whatever readers do
        before it. If only the log uses its area and the logged blocks are pinned, it succeeds
        exactly if there is a buffer to recycle and no reader has the home block; `seen` is the
        cache it found. */
    method Round(t: nat, toLog: bool, calls: seq<Call>, ghost d: seq<Block>, ghost v: seq<Block>, ghost ws: seq<Write>)
      returns (ok: bool, ghost seen: seq<seq<Buf>>)
      requires Shape() && t < n && t < |ws| && 0 <= block[t] < |cache.view| && InLog(L, L.start + t + 1)
      requires ws[t] == if toLog then Write(L.start + t + 1, cache.view[block[t]])
                        else Write(block[t], cache.view[L.start + t + 1])
      requires cache.disk == Apply(d, ws[..t]) && cache.view == Apply(v, ws[..t])
      modifies cache
      ensures cache.Valid() && (!ok ==> Stalled())
      ensures ok ==>
        && cache.trace == old(cache.trace) + [ws[t]]
        && cache.disk == Apply(d, ws[..t + 1]) && cache.view == Apply(v, ws[..t + 1])
      ensures |seen| <= 1 && (ok ==> seen != []) && (calls == [] ==> seen == [old(cache.buf)])
      ensures Distinct(block[..n]) && old(Poised(cache.buf, cache.nbuf, L, StillPinned(block[..n], t, toLog))) ==>
        && (seen != [] ==> (ok <==> Fit(seen[0], cache.nbuf, block[t])))
        && (ok ==> Poised(cache.buf, cache.nbuf, L, StillPinned(block[..n], t + 1, toLog)))
      ensures ok && calls == []
              && old(HomesUnheld(cache.buf, cache.nbuf, block[..n]) && Spare(cache.buf, cache.nbuf)) ==>
        HomesUnheld(cache.buf, cache.nbuf, block[..n]) && Spare(cache.buf, cache.nbuf)
      ensures calls == [] && old(Fresh(cache.buf, cache.nbuf)) && 2 <= cache.nbuf ==> ok && Fresh(cache.buf, cache.nbuf)
    {
      hide Cache.Valid, Apply, Dirty, Pins, Roomy, Spare, Unheld, Eased, LogIdle, Fresh, Coherent, HomesUnheld;
      hide Distinct;
      ghost var nbuf, home, bs := cache.nbuf, block[t], block[..n];
      assert HomeBlock(L, cache.disk, bs[t]);
      PinsStep(bs, t, L, cache.disk, toLog);
      var alive := Readers(cache, L, calls);
      if !alive { return false, []; }
      seen := [cache.buf];
      ghost var buf1, disk1 := cache.buf, cache.disk;
      NowCoherent(cache);
      if LogIdle(buf1, nbuf, L) && home in Dirty(buf1, nbuf) { CopyFits(buf1, nbuf, L, t, home); }
      if Fresh(buf1, nbuf) && 2 <= nbuf { FreshRoom(buf1, nbuf, L.start + t + 1, home); }
      ok := CopyBlock(L.start + t + 1, block[t], toLog);
      if !ok { return; }
      EasedLog(buf1, cache.buf, nbuf, disk1, L, bs);
      ApplyNext(d, ws, t);
      ApplyNext(v, ws, t);
    }

    /** write_log */
    method WriteLog(schedule: seq<seq<Call>>) returns (ok: bool, ghost k: nat, ghost bufs: seq<seq<Buf>>)
      requires Shape()
      modifies cache
      ensures Shape() && k <= n && (ok ==> k == n)
      ensures Advanced(LogTrace(L, old(cache.view), block[..n])[..k])
      ensures Distinct(block[..n]) && old(Poised(cache.buf, cache.nbuf, L, block[..n])) ==>
        Ran(bufs, cache.nbuf, block[..n], k, ok) && (ok ==> Poised(cache.buf, cache.nbuf, L, block[..n]))
      ensures schedule == [] && n > 0 && old(Settled()) ==> (ok <==> old(Spare(cache.buf, cache.nbuf)))
      ensures schedule == [] && old(Settled()) && old(Spare(cache.buf, cache.nbuf)) ==>
        Settled() && Spare(cache.buf, cache.nbuf)
    {
      hide Cache.Valid, Apply, Dirty, Pins, Distinct, Spare, Unheld, HomesUnheld, Fit, Going, Ran, Poised, Meanwhile;
      hide Fresh;
      hide Undisturbed, LogTrace, InstallTrace;
      ghost var bs, nbuf := block[..n], cache.nbuf;
      ghost var poised := Poised(cache.buf, nbuf, L, bs) && Distinct(bs);
      ghost var spare, quiet := Spare(cache.buf, nbuf), schedule == [] && Settled();
      UndisturbedParts(cache.buf, nbuf, L, bs, bs);
      ghost var d0, v0 := cache.disk, cache.view;
      ghost var ws := LogTrace(L, v0, bs);
      var tail := 0;
      bufs := [];
      NoRounds(nbuf, bs);
      ApplyNone(d0, ws);
      ApplyNone(v0, ws);
      while tail < n
        invariant 0 <= tail <= n && cache.Valid() && Advanced(ws[..tail])
        invariant poised ==> Poised(cache.buf, nbuf, L, bs) && Going(bufs, nbuf, bs, tail)
        invariant quiet && spare ==> HomesUnheld(cache.buf, nbuf, bs) && Spare(cache.buf, nbuf)
        invariant quiet && !spare ==> tail == 0 && !Spare(cache.buf, nbuf)
      {
        LogWriteAt(L, v0, bs, tail);
        ghost var seen;
        if quiet { QuietFits(cache.buf, nbuf, bs, tail); }
        ok, seen := Round(tail, true, Meanwhile(schedule, tail), d0, v0, ws);
        if poised { OneRound(bufs, seen, nbuf, bs, tail, ok); }
        bufs := bufs + seen;
        if !ok { return false, tail, bufs; }
        tail := tail + 1;
      }
      LogTraceMisses(L, v0, bs, n);
      if poised { AllRounds(bufs, nbuf, bs); }
      UndisturbedParts(cache.buf, nbuf, L, bs, bs);
      return true, n, bufs;
    }

    /** install_trans */
    method InstallTrans(schedule: seq<seq<Call>>) returns (ok: bool, ghost k: nat, ghost bufs: seq<seq<Buf>>)
      requires Shape()
      modifies cache
      ensures Shape() && k <= n && (ok ==> k == n)
      ensures Advanced(InstallTrace(L, old(cache.view), block[..n])[..k])
      ensures Distinct(block[..n]) && old(Poised(cache.buf, cache.nbuf, L, block[..n])) ==>
        Ran(bufs, cache.nbuf, block[..n], k, ok) && (ok ==> Poised(cache.buf, cache.nbuf, L, []))
      ensures schedule == [] && old(Settled()) && old(Spare(cache.buf, cache.nbuf)) ==>
        ok && Spare(cache.buf, cache.nbuf)
      ensures schedule == [] && old(Fresh(cache.buf, cache.nbuf)) && 2 <= cache.nbuf ==>
        ok && Fresh(cache.buf, cache.nbuf)
    {
      hide Cache.Valid, Apply, Dirty, Pins, Distinct, Spare, Unheld, HomesUnheld, Fit, Going, Ran, Poised, Meanwhile;
      hide Fresh;
      hide Undisturbed, LogTrace, InstallTrace;
      ghost var bs, nbuf := block[..n], cache.nbuf;
      ghost var poised := Poised(cache.buf, nbuf, L, bs) && Distinct(bs);
      ghost var calm := schedule == [] && Settled() && Spare(cache.buf, nbuf);
      ghost var clean := schedule == [] && Fresh(cache.buf, nbuf) && 2 <= nbuf;
      ghost var d0, v0 := cache.disk, cache.view;
      ghost var ws := InstallTrace(L, v0, bs);
      UndisturbedParts(cache.buf, nbuf, L, bs, bs);
      var tail := 0;
      bufs := [];
      NoRounds(nbuf, bs);
      NoPins(bs);
      ApplyNone(d0, ws);
      ApplyNone(v0, ws);
      while tail < n
        invariant 0 <= tail <= n && cache.Valid() && Advanced(ws[..tail])
        invariant poised ==> Poised(cache.buf, nbuf, L, bs[tail..]) && Going(bufs, nbuf, bs, tail)
        invariant calm ==> HomesUnheld(cache.buf, nbuf, bs) && Spare(cache.buf, nbuf)
        invariant clean ==> Fresh(cache.buf, nbuf)
      {
        InstallWriteAt(L, v0, bs, tail);
        ghost var seen;
        if calm { QuietFits(cache.buf, nbuf, bs, tail); }
        ok, seen := Round(tail, false, Meanwhile(schedule, tail), d0, v0, ws);
        if poised { OneRound(bufs, seen, nbuf, bs, tail, ok); }
        bufs := bufs + seen;
        if !ok { return false, tail, bufs; }
        tail := tail + 1;
      }
      InstallTraceMisses(L, v0, bs, n);
      if poised { AllRounds(bufs, nbuf, bs); }
      return true, n, bufs;
    }

    /** read_head: the block numbers recorded on disk become the in-memory header. */
    method ReadHead() returns (ok: bool)
      requires Shape() && HeaderOk(L, cache.view[L.start])
      requires ValidTargets(L, cache.disk, Targets(cache.view[L.start]))
      modifies this`n, this`block, cache
      ensures Shape() && Stalled()
      ensures ok ==> block[..n] == Targets(old(cache.view)[L.start])
      ensures !ok ==> n == old(n) && block == old(block)
      ensures ok ==> Eased(old(cache.buf), cache.buf, cache.nbuf)
      ensures old(Unheld(cache.buf, cache.nbuf, L.start) && Spare(cache.buf, cache.nbuf)) ==> ok
    {
      hide Cache.Valid, Dirty, HomeBlock, Spare, Unheld, Eased, Released;
      ghost var buf0 := cache.buf;
      var r := cache.Bread(L.start);
      if !r.Ready? { return false; }
      var hb := cache.buf[r.b].data;
      n := hb[0];
      var i := 0;
      while i < n
        invariant 0 <= i <= n == hb[0] && |block| == L.logSize && forall j :: 0 <= j < i ==> block[j] == hb[1 + j]
        invariant n <= L.logSize < |hb| - 1
        modifies this`block
      {
        block := block[i := hb[1 + i]];
        i := i + 1;
      }
      assert block[..n] == hb[1..1 + n];
      ghost var buf1 := cache.buf;
      cache.Brelse(r.b);
      IsReleased(buf1, cache.buf, cache.nbuf, r.b);
      EasedOne(buf0, buf1, cache.buf, cache.nbuf, r.b, L.start);
      return true;
    }

    /** The loop of write_head. */
    method FillHeader(hb0: Block) returns (hb: Block)
      requires n <= |block| && n < |hb0|
      ensures hb == WithHeader(hb0, block[..n]) && |hb| == |hb0|
    {
      hb := hb0[0 := n];
      var i := 0;
      while i < n
        invariant 0 <= i <= n && |hb| == |hb0| && hb[0] == n
        invariant forall j :: 0 < j < |hb| ==> hb[j] == if j <= i then block[j - 1] else hb0[j]
      {
        hb := hb[1 + i := block[i]];
        i := i + 1;
      }
    }

    /** write_head: one write of the header block; the words past the n-th entry survive. */
    method WriteHead() returns (ok: bool)
      requires Shape()
      modifies cache
      ensures Shape()
      ensures !ok ==> Stalled()
      ensures ok ==> Advanced([Write(L.start, WithHeader(old(cache.view)[L.start], block[..n]))])
      ensures ok ==> Eased(old(cache.buf), cache.buf, cache.nbuf)
      ensures ok ==> Dirty(cache.buf, cache.nbuf) == old(Dirty(cache.buf, cache.nbuf)) - {L.start}
      ensures old(Unheld(cache.buf, cache.nbuf, L.start) && Spare(cache.buf, cache.nbuf)) ==> ok
      ensures ok && !old(Spare(cache.buf, cache.nbuf)) ==>
        exists i :: 0 <= i < cache.nbuf && Key(old(cache.buf)[i], 1, L.start)
    {
      hide Cache.Valid, Apply, Dirty, WithHeader, Spare, Unheld, Eased, Released;
      ghost var buf0 := cache.buf;
      var r := cache.Bread(L.start);
      if !r.Ready? { return false; }
      var hb0 := cache.buf[r.b].data;
      var hb := FillHeader(hb0);
      ApplyOne(cache.disk, Write(L.start, hb));
      ApplyOne(cache.view, Write(L.start, hb));
      cache.Bwrite(r.b, hb);
      ghost var buf1 := cache.buf;
      cache.Brelse(r.b);
      IsReleased(buf1, cache.buf, cache.nbuf, r.b);
      EasedOne(buf0, buf1, cache.buf, cache.nbuf, r.b, L.start);
      return true;
    }

    /** write_head, behind whatever readers do before it. */
    method HeadRound(calls: seq<Call>) returns (ok: bool, ghost seen: seq<seq<Buf>>)
      requires Shape()
      modifies cache
      ensures Shape() && (!ok ==> Stalled())
      ensures ok ==> Advanced([Write(L.start, WithHeader(old(cache.view)[L.start], block[..n]))])
      ensures |seen| <= 1 && (ok ==> seen != []) && (calls == [] ==> seen == [old(cache.buf)])
      ensures old(LogIdle(cache.buf, cache.nbuf, L)) ==>
        (seen != [] ==> (ok <==> Spare(seen[0], cache.nbuf))) && (ok ==> LogIdle(cache.buf, cache.nbuf, L))
      ensures ok ==> Dirty(cache.buf, cache.nbuf) == old(Dirty(cache.buf, cache.nbuf)) - {L.start}
      ensures ok && calls == [] ==> Eased(old(cache.buf), cache.buf, cache.nbuf)
    {
      hide Cache.Valid, Apply, Dirty, Spare, Unheld, Eased, LogIdle, Coherent, WithHeader;
      var alive := Readers(cache, L, calls);
      if !alive { return false, []; }
      seen := [cache.buf];
      ghost var buf1, disk1 := cache.buf, cache.disk;
      NowCoherent(cache);
      if LogIdle(buf1, cache.nbuf, L) { IdleBlock(buf1, cache.nbuf, L, L.start); }
      ok := WriteHead();
      if ok { EasedLog(buf1, cache.buf, cache.nbuf, disk1, L, []); }
    }

    /** n = 0 and write_head: the transaction is over. */
    method EraseHead(calls: seq<Call>) returns (ok: bool, ghost seen: seq<seq<Buf>>)
      requires Shape()
      modifies this`n, cache
      ensures Shape() && n == 0 && (!ok ==> Stalled())
      ensures ok ==> Advanced([Write(L.start, WithHeader(old(cache.view)[L.start], []))])
      ensures |seen| <= 1 && (ok ==> seen != []) && (calls == [] ==> seen == [old(cache.buf)])
      ensures old(Poised(cache.buf, cache.nbuf, L, [])) ==>
        (seen != [] ==> (ok <==> Spare(seen[0], cache.nbuf))) && (ok ==> Settled())
      ensures calls == [] && old(Fresh(cache.buf, cache.nbuf)) && 2 <= cache.nbuf ==> ok && Fresh(cache.buf, cache.nbuf)
    {
      hide Cache.Valid, Apply, Dirty, Spare, Unheld, Eased, LogIdle, Coherent, WithHeader, HomesUnheld, Distinct, Fresh;
      ghost var buf0, disk0, nbuf := cache.buf, cache.disk, cache.nbuf;
      ghost var clean, poised := Fresh(buf0, nbuf) && 2 <= nbuf, Poised(buf0, nbuf, L, []);
      n := 0;
      assert block[..n] == [];
      NoPins([]);
      NowCoherent(cache);
      if clean {
        FreshReads(buf0, nbuf, L.start);
        FreshIdle(buf0, nbuf, L);
      }
      ok, seen := HeadRound(calls);
      if !ok { return; }
      if poised { NoHomes(cache.buf, nbuf, L); }
      if clean && calls == [] { EasedLog(buf0, cache.buf, nbuf, disk0, L, []); }
    }

    /** recover_from_log, run at boot when cache and disk agree: whatever stops it, the disk has
        received a prefix of the recovery trace. */
    method RecoverFromLog() returns (ok: bool, ghost k: nat)
      requires Shape() && cache.view == cache.disk && Recoverable(L, cache.disk)
      modifies this`n, this`block, cache
      ensures Shape() && k <= |RecoverTrace(L, old(cache.disk))|
      ensures Advanced(RecoverTrace(L, old(cache.disk))[..k])
      ensures ok ==>
        k == |RecoverTrace(L, old(cache.disk))| && cache.disk == Recovered(L, old(cache.disk)) && n == 0 && Ready()
      ensures Recoverable(L, cache.disk) && Recovered(L, cache.disk) == Recovered(L, old(cache.disk))
      ensures old(Fresh(cache.buf, cache.nbuf)) && 2 <= cache.nbuf ==> ok && Fresh(cache.buf, cache.nbuf)
    {
      hide Cache.Valid, Apply, Dirty, Fresh, Unheld, Spare, Eased, Coherent, Undisturbed, WithHeader, InstallTrace;
      hide HomeBlock, LogIdle, HomesUnheld, Distinct, SameHome;
      ghost var d := cache.disk;
      ghost var calm, bufs := Fresh(cache.buf, cache.nbuf) && 2 <= cache.nbuf, cache.buf;
      if calm { FreshReads(cache.buf, cache.nbuf, L.start); }
      NowCoherent(cache);
      ghost var rt := RecoverTrace(L, d);
      RecoveryLastWrite(L, d);
      CrashedRecovery(L, d, 0);
      ApplyNone(d, rt);
      ok := ReadHead();
      if !ok { return false, 0; }
      EasedLog(bufs, cache.buf, cache.nbuf, d, L, []);
      ghost var seen;
      ok, k, seen := InstallTrans([]);
      assert rt[..k] == InstallTrace(L, d, Targets(d[L.start]))[..k];
      CrashedRecovery(L, d, k);
      if !ok { return; }
      ok, seen := EraseHead([]);
      if ok {
        k := k + 1;
        assert rt[..k] == rt;
        CrashedRecovery(L, d, k);
        RecoveryErases(L, d);
      }
    }

    /** The first half of commit: write_log, then the header write that commits. */
    method LogPhase(schedule: seq<seq<Call>>) returns (ok: bool, ghost k: nat, ghost bufs: seq<seq<Buf>>)
      requires Ready() && n > 0
      modifies cache
      ensures Shape() && k <= n + 1 && (ok ==> k == n + 1)
      ensures Advanced(CommitTrace(L, old(cache.disk), old(cache.view), block[..n])[..k])
      ensures Distinct(block[..n]) && old(Poised(cache.buf, cache.nbuf, L, block[..n])) ==>
        Ran(bufs, cache.nbuf, block[..n] + [-1], k, ok) && (ok ==> Poised(cache.buf, cache.nbuf, L, block[..n]))
      ensures schedule == [] && old(Settled()) ==>
        (ok <==> old(Spare(cache.buf, cache.nbuf))) && (ok ==> Settled() && Spare(cache.buf, cache.nbuf))
    {
      hide Cache.Valid, Apply, CommitTrace, LogTrace, WithHeader, Dirty, Pins, Spare, Unheld, Eased, LogIdle;
      hide HomesUnheld;
      hide Coherent, Ran, Undisturbed, Distinct, Meanwhile;
      ghost var d, v, bs, nbuf := cache.disk, cache.view, block[..n], cache.nbuf;
      ghost var poised := Poised(cache.buf, nbuf, L, bs) && Distinct(bs);
      UndisturbedParts(cache.buf, nbuf, L, bs, bs);
      ghost var ct := CommitTrace(L, d, v, bs);
      CommitParts(L, d, v, bs);
      ok, k, bufs := WriteLog(schedule);
      assert ct[..|bs|][..k] == ct[..k];
      if !ok {
        if poised { RanShort(bufs, bs, [-1], nbuf, k); }
        return;
      }
      LogTraceMisses(L, v, bs, k);
      HeaderUnpinned(cache.disk, bs, L);
      ghost var calm := Settled() && Spare(cache.buf, nbuf);
      NowCoherent(cache);
      ghost var buf1, disk1, seen := cache.buf, cache.disk, [];
      ok, seen := HeadRound(Meanwhile(schedule, n));
      if poised { RanLast(bufs, bs, seen, nbuf, ok); }
      bufs := bufs + seen;
      if !ok { return; }
      if calm && schedule == [] {
        UndisturbedParts(buf1, nbuf, L, bs, bs);
        EasedLog(buf1, cache.buf, nbuf, disk1, L, bs);
        UndisturbedParts(cache.buf, nbuf, L, bs, bs);
      }
      ApplyNext(d, ct, k);
      ApplyNext(v, ct, k);
      k := k + 1;
    }

    /** install_trans as part of a commit of the cached blocks v over the disk d. */
    method InstallPart(schedule: seq<seq<Call>>, ghost d: seq<Block>, ghost v: seq<Block>)
      returns (ok: bool, ghost k: nat, ghost bufs: seq<seq<Buf>>)
      requires Shape() && n > 0 && Erased(L, d) && |v| == |d| == |cache.disk| && ValidTargets(L, v, block[..n])
      requires cache.disk == Apply(d, CommitTrace(L, d, v, block[..n])[..n + 1])
      requires cache.view == Apply(v, CommitTrace(L, d, v, block[..n])[..n + 1])
      modifies cache
      ensures Shape() && n + 1 <= k <= 2 * n + 1 && (ok ==> k == 2 * n + 1)
      ensures var ct := CommitTrace(L, d, v, block[..n]);
        && |ct| == 2 * n + 2 && cache.trace == old(cache.trace) + ct[n + 1..k]
        && cache.disk == Apply(d, ct[..k]) && cache.view == Apply(v, ct[..k])
        && (ok ==> ct[k] == Write(L.start, WithHeader(cache.view[L.start], [])))
      ensures Distinct(block[..n]) && old(Poised(cache.buf, cache.nbuf, L, block[..n])) ==>
        Ran(bufs, cache.nbuf, block[..n], k - n - 1, ok) && (ok ==> Poised(cache.buf, cache.nbuf, L, []))
      ensures schedule == [] && old(Settled()) && old(Spare(cache.buf, cache.nbuf)) ==>
        ok && Spare(cache.buf, cache.nbuf)
    {
      hide Cache.Valid, Apply, CommitTrace, InstallTrace, WithHeader, Dirty, Pins, Spare, Unheld, Eased, LogIdle;
      hide Coherent, Ran, HomesUnheld, HomeBlock, Distinct, Poised, Undisturbed, Erased;
      ghost var bs := block[..n];
      CommitParts(L, d, v, bs);
      ok, k, bufs := InstallTrans(schedule);
      CommitTail(L, d, v, bs, k);
      k := k + n + 1;
    }

    /** The second half: install_trans, then erase the header. */
    method InstallPhase(schedule: seq<seq<Call>>, ghost d: seq<Block>, ghost v: seq<Block>)
      returns (ok: bool, ghost k: nat, ghost bufs: seq<seq<Buf>>)
      requires Shape() && n > 0 && Erased(L, d) && |v| == |d| == |cache.disk| && ValidTargets(L, v, block[..n])
      requires cache.disk == Apply(d, CommitTrace(L, d, v, block[..n])[..n + 1])
      requires cache.view == Apply(v, CommitTrace(L, d, v, block[..n])[..n + 1])
      modifies this`n, cache
      ensures Shape() && old(n) + 1 <= k <= 2 * old(n) + 2
      ensures var ct := CommitTrace(L, d, v, old(block[..n]));
        && |ct| == 2 * old(n) + 2 && cache.trace == old(cache.trace) + ct[old(n) + 1..k]
        && cache.disk == Apply(d, ct[..k]) && cache.view == Apply(v, ct[..k])
      ensures ok ==> k == 2 * old(n) + 2 && n == 0
      ensures Distinct(old(block[..n])) && old(Poised(cache.buf, cache.nbuf, L, block[..n])) ==>
        Ran(bufs, cache.nbuf, old(block[..n]) + [-1], k - old(n) - 1, ok) && (ok ==> Settled())
      ensures schedule == [] && old(Settled()) && old(Spare(cache.buf, cache.nbuf)) ==> ok
    {
      hide Cache.Valid, Apply, CommitTrace, WithHeader, Dirty, Pins, Spare, Unheld, Eased, LogIdle, Meanwhile;
      hide Coherent, Ran, HomesUnheld, HomeBlock, Distinct, Poised, Undisturbed, Erased;
      ghost var bs, nbuf, a := block[..n], cache.nbuf, n + 1;
      ghost var poised := Poised(cache.buf, nbuf, L, bs) && Distinct(bs);
      UndisturbedParts(cache.buf, nbuf, L, bs, bs);
      ghost var ct := CommitTrace(L, d, v, bs);
      ok, k, bufs := InstallPart(schedule, d, v);
      if !ok {
        if poised { RanShort(bufs, bs, [-1], nbuf, k - a); }
        return;
      }
      ghost var seen;
      ok, seen := EraseHead(Meanwhile(schedule, n));
      if poised { RanLast(bufs, bs, seen, nbuf, ok); }
      bufs := bufs + seen;
      if !ok { return; }
      SliceSnoc(ct, a, k);
      ApplyNext(d, ct, k);
      ApplyNext(v, ct, k);
      k := k + 1;
    }

    /** commit when there is something to commit. */
    method BothPhases(schedule: seq<seq<Call>>) returns (ok: bool, ghost k: nat, ghost bufs: seq<seq<Buf>>)
      requires Ready() && n > 0
      modifies this`n, cache
      ensures Shape() && k <= |CommitTrace(L, old(cache.disk), old(cache.view), old(block[..n]))|
      ensures Advanced(CommitTrace(L, old(cache.disk), old(cache.view), old(block[..n]))[..k])
      ensures ok ==> k == |CommitTrace(L, old(cache.disk), old(cache.view), old(block[..n]))| && n == 0
      ensures Distinct(old(block[..n])) && old(Poised(cache.buf, cache.nbuf, L, block[..n])) ==>
        Ran(bufs, cache.nbuf, CommitRounds(old(block[..n])), k, ok) && (ok ==> Settled())
      ensures schedule == [] && old(Settled()) ==> (ok <==> old(Spare(cache.buf, cache.nbuf)))
    {
      hide Cache.Valid, Apply, CommitTrace, Dirty, Spare, Ran, LogIdle, Pins, Distinct, Poised, Undisturbed;
      hide HomesUnheld, Later;
      ghost var d, v, bs, nbuf := cache.disk, cache.view, block[..n], cache.nbuf;
      ghost var poised := Poised(cache.buf, nbuf, L, bs) && Distinct(bs);
      ghost var ct := CommitTrace(L, d, v, bs);
      CommitParts(L, d, v, bs);
      ok, k, bufs := LogPhase(schedule);
      if ok {
        ghost var later;
        ok, k, later := InstallPhase(Later(schedule, n + 1), d, v);
        SliceJoin(ct, |bs| + 1, k);
        if poised { RanOn(bufs, bs + [-1], later, bs + [-1], nbuf, k - |bs| - 1, ok); }
        bufs := bufs + later;
      } else if poised {
        RanShort(bufs, bs + [-1], bs + [-1], nbuf, k);
      }
    }

    /** commit, with readers' calls between its rounds. However far it gets, recovery afterwards
        finds the home blocks all as they were on disk before, or all as they were in the cache; a
        completed commit leaves cache and disk equal and the header empty. Every round succeeds
        exactly if it finds a buffer to recycle and its home block not in a reader's hands; with
        no readers on the way, the buffer at the start is enough. */
    method Commit(schedule: seq<seq<Call>>) returns (ok: bool, ghost k: nat, ghost bufs: seq<seq<Buf>>)
      requires Ready()
      modifies this`n, cache
      ensures Shape() && k <= |CommitTrace(L, old(cache.disk), old(cache.view), old(block[..n]))|
      ensures Advanced(CommitTrace(L, old(cache.disk), old(cache.view), old(block[..n]))[..k])
      ensures ok ==> k == |CommitTrace(L, old(cache.disk), old(cache.view), old(block[..n]))| && n == 0 && Ready()
      ensures Recoverable(L, cache.disk)
      ensures SameHome(L, Recovered(L, cache.disk), if k <= old(n) then old(cache.disk) else old(cache.view))
      ensures Distinct(old(block[..n])) && old(Poised(cache.buf, cache.nbuf, L, block[..n])) ==>
        Ran(bufs, cache.nbuf, CommitRounds(old(block[..n])), k, ok) && (ok ==> Settled())
      ensures schedule == [] && old(Settled()) ==> (ok <==> old(n) == 0 || old(Spare(cache.buf, cache.nbuf)))
    {
      hide Cache.Valid, Apply, CommitTrace, Recovered, Dirty, Spare, Ran, LogIdle, Pins, Distinct, Poised, Undisturbed;
      hide HomesUnheld;
      ghost var d, v, bs := cache.disk, cache.view, block[..n];
      ghost var ct := CommitTrace(L, d, v, bs);
      ok, k, bufs := true, 0, [];
      if n == 0 {
        ApplyNone(d, ct);
        ApplyNone(v, ct);
        NoneRan(cache.nbuf);
        if Poised(cache.buf, cache.nbuf, L, bs) { NoHomes(cache.buf, cache.nbuf, L); }
      } else {
        ok, k, bufs := BothPhases(schedule);
      }
      CrashedCommit(L, d, v, bs, k);
      if ok {
        WholeCommit(L, d, v, bs, k);
        LogProtocol.CommitSettles(LogProtocol.Config(L, maxOp), d, v, bs);
      }
    }

    /** recover_from_log as part of a run: its disk writes, and the end of recovery if it gets there. */
    method Recover() returns (ok: bool)
      requires Shape() && Running() && cache.view == cache.disk == boot && Now() == Switched(boot)
      requires Recoverable(L, boot) && outstanding == 0 && !committing
      modifies this, cache
      ensures Running() && old(steps) <= steps
      ensures ok ==> Open() && n == outstanding == 0 && Now().ops == [] && cache.disk == Recovered(L, boot)
      ensures old(Fresh(cache.buf, cache.nbuf)) && 2 <= cache.nbuf ==> ok && Fresh(cache.buf, cache.nbuf)
    {
      hide Cache.Valid, Apply, Fresh, LogProtocol.Next, LogProtocol.Boot, RecoverTrace, CommitTrace;
      ghost var C, s := Sizes(), Now();
      assert LogProtocol.PhaseTrace(C, s) == RecoverTrace(L, boot);
      ghost var k;
      ok, k := RecoverFromLog();
      states, steps := RunPhase(C, boot, states, steps, k, ok);
    }

    /** The section of log_write under log.lock. The loop finds the block's slot or the end, so the
        header absorbs repeats; false says that the header has outgrown the log, or the array. */
    method Record(b: nat, data: Block) returns (fits: bool)
      requires Ready() && b < cache.nbuf && cache.buf[b].locked && cache.buf[b].valid
      requires !InLog(L, cache.buf[b].blockno) && cache.buf[b].blockno < |cache.disk|
      modifies this`n, this`block, cache
      ensures cache.disk == old(cache.disk) && cache.trace == old(cache.trace)
      ensures cache.view == old(cache.view)[old(cache.buf)[b].blockno := data]
      ensures cache.buf == old(cache.buf)[b := old(cache.buf)[b].(data := data, dirty := true)]
      ensures var bs := LogProtocol.Absorb(old(block[..n]), old(cache.buf)[b].blockno);
        && (fits <==> |bs| <= L.logSize && |bs| < L.size)
        && (|bs| <= L.logSize ==> n == |bs| <= |block| && block[..n] == bs)
        && (fits ==> Ready() && (old(PinsLogged()) ==> PinsLogged()))
    {
      hide Cache.Valid, Dirty;
      ghost var bs := block[..n];
      var blockno := cache.buf[b].blockno;
      cache.Modify(b, data);
      var i := 0;
      while i < n && block[i] != blockno
        invariant 0 <= i <= n && forall j :: 0 <= j < i ==> block[j] != blockno
      {
        i := i + 1;
      }
      if i == |block| { return false; }
      block := block[i := blockno];
      if i == n { n := n + 1; }
      assert block[..n] == LogProtocol.Absorb(bs, blockno);
      if Distinct(bs) { AbsorbPins(bs, blockno); }
      return n < L.size;
    }

    /** The test of log_write, made without the lock: false is one of its two panics. */
    method LogCheck(ghost i: nat) returns (ok: bool)
      requires Open() && i < |Now().ops| && !Now().ops[i].checked
      modifies this`states, this`steps
      ensures Open()
      ensures ok <==> !LogProtocol.LogWritePanics(Sizes(), old(Now()))
      ensures ok ==> steps == old(steps) + [LogProtocol.Check(i)] && Now() == Tested(old(Now()), i)
      ensures !ok ==> steps == old(steps) && states == old(states)
    {
      hide Cache.Valid, LogProtocol.IsRun, LogProtocol.Next;
      ok := !(n >= L.logSize || n >= L.size - 1 || outstanding < 1);
      if ok {
        ghost var C, s := Sizes(), Now();
        CheckStep(C, s, i);
        RunOn(C, boot, states, steps, LogProtocol.Check(i), Tested(s, i));
        states, steps := states + [Tested(s, i)], steps + [LogProtocol.Check(i)];
      }
    }

    /** log_write behind its test, whoever has logged blocks meanwhile: a step of the protocol. It
        stays within the log if operations keep their budgets and the log area has more than
        LOGSIZE blocks, or if nobody has got in between. */
    method LogAppend(b: nat, data: Block, ghost i: nat) returns (fits: bool)
      requires Open() && b < cache.nbuf && cache.buf[b].locked && cache.buf[b].valid
      requires i < |Now().ops| && Now().ops[i].checked
      requires !InLog(L, cache.buf[b].blockno) && cache.buf[b].blockno < |cache.disk|
      modifies this`n, this`block, this`states, this`steps, cache
      ensures cache.disk == old(cache.disk) && cache.trace == old(cache.trace)
      ensures cache.view == old(cache.view)[old(cache.buf)[b].blockno := data]
      ensures cache.buf == old(cache.buf)[b := old(cache.buf)[b].(data := data, dirty := true)]
      ensures var w := Write(old(cache.buf)[b].blockno, data);
        && Happened() && steps == old(steps) + [LogProtocol.Append(i, w)] && Now() == Edited(old(Now()), i, w)
      ensures fits <==> LogProtocol.Fits(Sizes(), Now())
      ensures fits ==> Open() && (old(PinsLogged()) ==> PinsLogged())
      ensures old(n) < L.logSize && old(n) < L.size - 1 ==> fits
      ensures L.logSize < L.size && LogProtocol.InBudget(Sizes(), old(states)) && old(Now()).ops[i].spent < maxOp ==>
        fits
    {
      hide Cache.Valid, Dirty, LogProtocol.IsRun, Pins, LogProtocol.Next, Distinct, Erased;
      ghost var C, s := Sizes(), Now();
      ghost var w := Write(cache.buf[b].blockno, data);
      if L.logSize < L.size && LogProtocol.InBudget(C, states) {
        LogProtocol.LogReservation(C, boot, states, steps, |steps|);
      }
      fits := Record(b, data);
      EditStep(C, s, i, w);
      RunOn(C, boot, states, steps, LogProtocol.Append(i, w), Edited(s, i, w));
      states, steps := states + [Edited(s, i, w)], steps + [LogProtocol.Append(i, w)];
    }

    /** log_write on a locked buffer whose data the caller, operation i, has changed, when nobody
        else comes between its test and its lock: two steps of the protocol, or a panic exactly
        where the protocol has none. */
    method LogWrite(b: nat, data: Block, ghost i: nat) returns (ok: bool)
      requires Open() && b < cache.nbuf && cache.buf[b].locked && cache.buf[b].valid
      requires i < |Now().ops| && !Now().ops[i].checked
      requires !InLog(L, cache.buf[b].blockno) && cache.buf[b].blockno < |cache.disk|
      modifies this`n, this`block, this`states, this`steps, cache
      ensures Open() && cache.disk == old(cache.disk) && cache.trace == old(cache.trace)
      ensures ok <==> !LogProtocol.LogWritePanics(Sizes(), old(Now()))
      ensures ok ==>
        var w := Write(old(cache.buf)[b].blockno, data);
        && steps == old(steps) + [LogProtocol.Check(i), LogProtocol.Append(i, w)]
        && Now() == Edited(Tested(old(Now()), i), i, w)
        && cache.view == old(cache.view)[old(cache.buf)[b].blockno := data]
        && cache.buf == old(cache.buf)[b := old(cache.buf)[b].(data := data, dirty := true)]
      ensures !ok ==> n == old(n) && block == old(block) && steps == old(steps) && Now() == old(Now())
      ensures !ok ==> cache.view == old(cache.view) && cache.buf == old(cache.buf)
      ensures old(PinsLogged()) ==> PinsLogged()
    {
      hide Cache.Valid, Dirty, LogProtocol.IsRun, Pins, LogProtocol.Absorb, LogProtocol.Next, Distinct, Erased;
      ok := LogCheck(i);
      if ok {
        var fits := LogAppend(b, data, i);
        assert fits;
      }
    }

    /** One pass of begin_op's loop; false means it sleeps on the log, and nothing has changed. An
        operation that is let in is a step of the protocol. */
    method BeginOp() returns (ok: bool)
      requires committing || Open()
      modifies this`outstanding, this`states, this`steps
      ensures ok ==> Open() && steps == old(steps) + [LogProtocol.BeginOp] && outstanding == old(outstanding) + 1
      ensures ok ==> Now() == Begun(old(Now()))
      ensures !ok ==> outstanding == old(outstanding) && states == old(states) && steps == old(steps)
      ensures ok <==> !committing && exists s :: LogProtocol.Next(Sizes(), old(Now()), LogProtocol.BeginOp, s)
    {
      hide Cache.Valid, LogProtocol.IsRun;
      ok := !(committing || n + (outstanding + 1) * maxOp > L.logSize);
      if ok {
        ghost var C, s := Sizes(), Now();
        ghost var s' := Begun(s);
        assert LogProtocol.Next(C, s, LogProtocol.BeginOp, s');
        RunOn(C, boot, states, steps, LogProtocol.BeginOp, s');
        outstanding := outstanding + 1;
        states, steps := states + [s'], steps + [LogProtocol.BeginOp];
      }
    }

    /** commit as part of a run: its disk writes one after the other, and its end if it gets there. */
    method CommitRun(schedule: seq<seq<Call>>) returns (ok: bool, ghost k: nat, ghost bufs: seq<seq<Buf>>)
      requires Ready() && Running() && Now().header == block[..n] && Now().outstanding == outstanding
      requires Now().phase == LogProtocol.Committing(0, cache.disk, cache.view)
      modifies this, cache
      ensures Running() && outstanding == old(outstanding)
      ensures ok ==> Open()
      ensures steps == old(steps) + seq(k, _ => LogProtocol.DiskWrite) + if ok then [LogProtocol.Finish] else []
      ensures ok ==> n == 0 && SameHome(L, cache.disk, old(cache.view))
      ensures Distinct(old(block[..n])) && old(Poised(cache.buf, cache.nbuf, L, block[..n])) ==>
        Ran(bufs, cache.nbuf, CommitRounds(old(block[..n])), k, ok)
      ensures schedule == [] && old(Settled()) ==> (ok <==> old(n) == 0 || old(Spare(cache.buf, cache.nbuf)))
    {
      hide Ran, Poised, Pins;
      hide Cache.Valid, Apply, LogProtocol.IsRun, LogProtocol.Next, LogProtocol.PhaseTrace, CommitTrace, Spare;
      hide Undisturbed, Recovered, SameHome;
      hide HomeBlock, Distinct, Erased;
      ghost var C, d, v, bs := Sizes(), cache.disk, cache.view, block[..n];
      CommitPhase(C, Now());
      ok, k, bufs := Commit(schedule);
      states, steps := RunPhase(C, boot, states, steps, k, ok);
      if ok {
        committing := false;
        SettledHome(C, d, v, bs, k);
      }
    }

    /** end_op of operation i, with the commit, among readers, if it is the last one. */
    method EndOp(ghost i: nat, schedule: seq<seq<Call>>) returns (ok: bool, ghost k: nat, ghost bufs: seq<seq<Buf>>)
      requires Open() && i < |Now().ops| && !Now().ops[i].checked
      modifies this, cache
      ensures Running() && outstanding == old(outstanding) - 1
      ensures ok ==> Open()
      ensures steps == old(steps) + [LogProtocol.EndOp(i)] + seq(k, _ => LogProtocol.DiskWrite)
        + if ok && outstanding == 0 then [LogProtocol.Finish] else []
      ensures outstanding != 0 ==>
        ok && k == 0 && n == old(n) && block == old(block) && unchanged(cache) && Now() == Ended(old(Now()), i)
      ensures ok && outstanding == 0 ==> n == 0 && SameHome(L, cache.disk, old(cache.view))
      ensures outstanding == 0 && Distinct(old(block[..n])) && old(Poised(cache.buf, cache.nbuf, L, block[..n])) ==>
        Ran(bufs, cache.nbuf, CommitRounds(old(block[..n])), k, ok)
      ensures outstanding == 0 && schedule == [] && old(Settled()) ==>
        (ok <==> old(n) == 0 || old(Spare(cache.buf, cache.nbuf)))
    {
      hide Cache.Valid, Apply, LogProtocol.IsRun, LogProtocol.Next, CommitTrace, Spare, Undisturbed, Recovered, Erased;
      ghost var C, s := Sizes(), Now();
      OneOfThem(C, boot, states, steps);
      EndStep(C, s, i);
      RunOn(C, boot, states, steps, LogProtocol.EndOp(i), Ended(s, i));
      outstanding := outstanding - 1;
      var doCommit := outstanding == 0;
      if doCommit { committing := true; }
      states, steps := states + [Ended(s, i)], steps + [LogProtocol.EndOp(i)];
      ok, k, bufs := true, 0, [];
      if doCommit {
        ok, k, bufs := CommitRun(schedule);
      }
    }

    /** Group atomicity for the code: whatever the log has done and wherever it has stopped, a crash
        now recovers the disk to a prefix of the log_writes that splits no operation and holds none
        of an unfinished one; and outside recovery readers see all log_writes made. */
    lemma Atomic()
      requires Running()
      ensures Recoverable(L, boot) && LogProtocol.Atomic(Sizes(), Recovered(L, boot), Now()) && Now().disk == cache.disk
      ensures !Now().phase.Recovering? ==>
        SameHome(L, cache.view, LogProtocol.StateAt(Recovered(L, boot), Now().history, |Now().history|))
    {
      LogProtocol.GroupAtomicity(Sizes(), boot, states, steps, |steps|);
      if !Now().phase.Recovering? { LogProtocol.CacheIsWholeHistory(Sizes(), boot, states, steps, |steps|); }
    }
  }

  /** The view right after the header write: the log holds the view's own home blocks. */
  lemma CommitHead(L: Layout, d: seq<Block>, v: seq<Block>, bs: seq<int>)
    requires Erased(L, d) && |v| == |d| && ValidTargets(L, v, bs) && bs != []
    ensures var ct, n := CommitTrace(L, d, v, bs), |bs|;
            var w := Apply(v, ct[..n + 1]);
            && w[L.start] == WithHeader(d[L.start], bs)
            && InstallTrace(L, w, bs) == ct[n + 1..2 * n + 1]
  {
    hide Apply, CommitTrace, LogTrace, WithHeader, InstallTrace;
    var ct, n := CommitTrace(L, d, v, bs), |bs|;
    CommitParts(L, d, v, bs);
    LogContents(L, v, bs, n);
    assert ct[..n] == LogTrace(L, v, bs)[..n];
    ApplySnoc(v, ct, n);
    var w := Apply(v, ct[..n + 1]);
    var it, half := InstallTrace(L, w, bs), ct[n + 1..2 * n + 1];
    forall t | 0 <= t < n ensures it[t] == half[t] {
      InstallAt(L, w, bs, t);
      assert w[L.start + 1 + t] == v[bs[t]];
      assert half[t] == ct[n + 1 + t];
    }
    assert it == half;
  }

  lemma InstallAt(L: Layout, w: seq<Block>, bs: seq<int>, t: nat)
    requires L.start + 1 + |bs| <= |w| && t < |bs|
    ensures InstallTrace(L, w, bs)[t] == Write(bs[t], w[L.start + 1 + t])
  {}

  lemma Slices(ct: seq<Write>, a: nat, b: nat, j: nat)
    requires a + j <= b <= |ct|
    ensures ct[a..b][..j] == ct[a..a + j] && ct[..a] + ct[a..a + j] == ct[..a + j]
  {}

  /** The installs that follow the header write, on the disk and on the view. */
  lemma SliceJoin(ws: seq<Write>, a: nat, k: nat)
    requires a <= k <= |ws|
    ensures ws[..a] + ws[a..k] == ws[..k]
  {}

  lemma SliceSnoc(ws: seq<Write>, a: nat, k: nat)
    requires a <= k < |ws|
    ensures ws[a..k] + [ws[k]] == ws[a..k + 1]
  {}

  lemma CommitTail(L: Layout, d: seq<Block>, v: seq<Block>, bs: seq<int>, j: nat)
    requires Erased(L, d) && |v| == |d| && ValidTargets(L, v, bs) && bs != [] && j <= |bs|
    ensures var ct, n := CommitTrace(L, d, v, bs), |bs|;
            var w, xs := Apply(v, ct[..n + 1]), InstallTrace(L, Apply(v, ct[..n + 1]), bs)[..j];
            && ct[..n + 1] + xs == ct[..n + 1 + j] && xs == ct[n + 1..n + 1 + j]
            && Apply(Apply(d, ct[..n + 1]), xs) == Apply(d, ct[..n + 1 + j])
            && Apply(w, xs) == Apply(v, ct[..n + 1 + j])
            && Apply(w, xs)[L.start] == WithHeader(d[L.start], bs)
  {
    hide Apply, CommitTrace, InstallTrace, WithHeader;
    var ct, n := CommitTrace(L, d, v, bs), |bs|;
    CommitHead(L, d, v, bs);
    var w := Apply(v, ct[..n + 1]);
    var xs := InstallTrace(L, w, bs)[..j];
    Slices(ct, n + 1, 2 * n + 1, j);
    ApplyConcat(d, ct[..n + 1], xs);
    ApplyConcat(v, ct[..n + 1], xs);
    InstallTraceMisses(L, w, bs, j);
  }
}
