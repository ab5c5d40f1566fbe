/** What processes outside the log do to the buffers while commit or recovery is between two of its
    rounds: read blocks, wait for them, and give them back. fileread needs no operation for that. */
module LogReaders {
  import opened Common
  import opened RedoLog
  import opened BufferCache
  import opened LogBuffers

  datatype Call =
    | Read(blockno: nat)   // bread
    | Retry(b: nat)        // a reader that waits for buffer b is woken
    | Return(b: nat)       // brelse

  /** What happens before round i of a schedule; nothing after its end. */
  function Meanwhile(schedule: seq<seq<Call>>, i: nat): (r: seq<Call>)
    ensures schedule == [] ==> r == []
  {
    if i < |schedule| then schedule[i] else []
  }

  /** What happens from round i on. */
  function Later(schedule: seq<seq<Call>>, i: nat): (r: seq<seq<Call>>)
    ensures schedule == [] ==> r == []
  {
    if i <= |schedule| then schedule[i..] else []
  }

  /** How k rounds of a phase went, each with the cache it found: every one had what it needed, and
      if that is not all of them, the next one had not, unless a reader's panic came first. */
  ghost predicate Ran(bufs: seq<seq<Buf>>, nbuf: nat, homes: seq<int>, k: nat, ok: bool) {
    && k <= |homes| && k <= |bufs| && (forall i :: 0 <= i < k ==> Fit(bufs[i], nbuf, homes[i]))
    && if ok then k == |homes| == |bufs|
       else k < |homes| && (|bufs| == k || (|bufs| == k + 1 && !Fit(bufs[k], nbuf, homes[k])))
  }

  /** k rounds so far. */
  ghost predicate Going(bufs: seq<seq<Buf>>, nbuf: nat, homes: seq<int>, k: nat) {
    |bufs| == k <= |homes| && forall i :: 0 <= i < k ==> Fit(bufs[i], nbuf, homes[i])
  }

  /** The rounds of a commit: copy the blocks, write the header, install the blocks, erase it. */
  function CommitRounds(bs: seq<int>): seq<int> {
    if bs == [] then [] else bs + [-1] + (bs + [-1])
  }

  lemma NoneRan(nbuf: nat)
    ensures Ran([], nbuf, [], 0, true)
  {}

  lemma NoRounds(nbuf: nat, homes: seq<int>)
    ensures Going([], nbuf, homes, 0)
  {}

  lemma AllRounds(bufs: seq<seq<Buf>>, nbuf: nat, homes: seq<int>)
    requires Going(bufs, nbuf, homes, |homes|)
    ensures Ran(bufs, nbuf, homes, |homes|, true)
  {}

  /** One more round, with the cache it found, if a reader let it. */
  lemma OneRound(bufs: seq<seq<Buf>>, seen: seq<seq<Buf>>, nbuf: nat, homes: seq<int>, k: nat, ok: bool)
    requires Going(bufs, nbuf, homes, k) && k < |homes|
    requires |seen| <= 1 && (ok ==> seen != []) && (seen != [] ==> (ok <==> Fit(seen[0], nbuf, homes[k])))
    ensures if ok then Going(bufs + seen, nbuf, homes, k + 1) else Ran(bufs + seen, nbuf, homes, k, false)
  {
    hide Fit;
  }

  lemma RanOn(bufs: seq<seq<Buf>>, homes: seq<int>, bufs': seq<seq<Buf>>, homes': seq<int>, nbuf: nat, k: nat, ok: bool)
    requires Ran(bufs, nbuf, homes, |homes|, true) && Ran(bufs', nbuf, homes', k, ok)
    ensures Ran(bufs + bufs', nbuf, homes + homes', |homes| + k, ok)
  {
    hide Fit;
    forall i | 0 <= i < |homes| + k ensures Fit((bufs + bufs')[i], nbuf, (homes + homes')[i]) {
      if i < |homes| {
        assert Fit(bufs[i], nbuf, homes[i]);
      } else {
        assert Fit(bufs'[i - |homes|], nbuf, homes'[i - |homes|]);
      }
    }
  }

  lemma RanShort(bufs: seq<seq<Buf>>, homes: seq<int>, homes': seq<int>, nbuf: nat, k: nat)
    requires Ran(bufs, nbuf, homes, k, false)
    ensures Ran(bufs, nbuf, homes + homes', k, false)
  {
    hide Fit;
    assert forall i :: 0 <= i <= k ==> (homes + homes')[i] == homes[i];
  }

  /** A phase of the rounds `homes` and one more without a home block. */
  lemma RanLast(bufs: seq<seq<Buf>>, homes: seq<int>, seen: seq<seq<Buf>>, nbuf: nat, ok: bool)
    requires Ran(bufs, nbuf, homes, |homes|, true)
    requires |seen| <= 1 && (ok ==> seen != []) && (seen != [] ==> (ok <==> Spare(seen[0], nbuf)))
    ensures Ran(bufs + seen, nbuf, homes + [-1], if ok then |homes| + 1 else |homes|, ok)
  {
    assert seen != [] ==> (Fit(seen[0], nbuf, [-1][0]) <==> Spare(seen[0], nbuf));
    OneRound([], seen, nbuf, [-1], 0, ok);
    assert [] + seen == seen;
    RanOn(bufs, homes, seen, [-1], nbuf, if ok then 1 else 0, ok);
  }

  /** With all homes unheld, a round is fit if there is a buffer to recycle. */
  lemma QuietFits(buf: seq<Buf>, nbuf: nat, bs: seq<int>, t: nat)
    requires t < |bs|
    ensures Fit(buf, nbuf, bs[t]) ==> Spare(buf, nbuf)
    ensures HomesUnheld(buf, nbuf, bs) && Spare(buf, nbuf) ==> Fit(buf, nbuf, bs[t])
  {}

  lemma IdleRead(buf: seq<Buf>, buf': seq<Buf>, nbuf: nat, L: Layout, b: nat, n: nat)
    requires LogIdle(buf, nbuf, L) && |buf| == |buf'| && b < nbuf && !InLog(L, n) && Key(buf'[b], 1, n)
    requires forall i :: 0 <= i < nbuf && i != b ==> buf'[i] == buf[i]
    ensures LogIdle(buf', nbuf, L)
  {}

  lemma IdleReturn(buf: seq<Buf>, buf': seq<Buf>, nbuf: nat, L: Layout, b: nat)
    requires LogIdle(buf, nbuf, L) && Released(buf, buf', nbuf, b) && buf[b].locked
    ensures LogIdle(buf', nbuf, L)
  {
    ReleasedParts(buf, buf', nbuf, b);
  }

  /** One call of one reader; false is a panic of bread. */
  method OneCall(cache: Cache, L: Layout, c: Call) returns (alive: bool)
    requires cache.Valid()
    modifies cache
    ensures cache.Valid() && cache.disk == old(cache.disk) && cache.trace == old(cache.trace)
    ensures cache.view == old(cache.view)
    ensures alive && old(LogIdle(cache.buf, cache.nbuf, L)) ==> LogIdle(cache.buf, cache.nbuf, L)
    ensures alive ==> Dirty(cache.buf, cache.nbuf) == old(Dirty(cache.buf, cache.nbuf))
  {
    hide Cache.Valid, Dirty, Spare, Unheld, LogIdle, Released;
    ghost var buf0 := cache.buf;
    ghost var idle := LogIdle(buf0, cache.nbuf, L);
    NowCoherent(cache);
    alive := true;
    match c
    case Read(n) =>
      if !InLog(L, n) {
        var r := cache.Bread(n);
        alive := !r.Stopped?;
        if r.Ready? {
          GrabsParts(buf0[r.b], cache.buf[r.b], n);
          if idle { IdleRead(buf0, cache.buf, cache.nbuf, L, r.b, n); }
        } else if r.Waits? {
          DirtySame(buf0, cache.buf, cache.nbuf);
          if idle { IdleRead(buf0, cache.buf, cache.nbuf, L, r.b, n); }
        }
      }
    case Retry(b) =>
      if b < cache.nbuf && cache.buf[b].refcnt > 0 && cache.buf[b].dev == 1 && !InLog(L, cache.buf[b].blockno) {
        var n := cache.buf[b].blockno;
        var r := cache.Resume(b, n);
        alive := !r.Stopped?;
        if alive {
          DirtySame(buf0, cache.buf, cache.nbuf);
          if idle { IdleRead(buf0, cache.buf, cache.nbuf, L, b, n); }
        }
      }
    case Return(b) =>
      if b < cache.nbuf && cache.buf[b].locked {
        cache.Brelse(b);
        IsReleased(buf0, cache.buf, cache.nbuf, b);
        if idle { IdleReturn(buf0, cache.buf, cache.nbuf, L, b); }
      }
  }

  /** Any number of calls of any readers. */
  method Readers(cache: Cache, L: Layout, calls: seq<Call>) returns (alive: bool)
    requires cache.Valid()
    modifies cache
    ensures cache.Valid() && cache.disk == old(cache.disk) && cache.trace == old(cache.trace)
    ensures cache.view == old(cache.view)
    ensures alive && old(LogIdle(cache.buf, cache.nbuf, L)) ==> LogIdle(cache.buf, cache.nbuf, L)
    ensures alive ==> Dirty(cache.buf, cache.nbuf) == old(Dirty(cache.buf, cache.nbuf))
    ensures calls == [] ==> alive && cache.buf == old(cache.buf)
  {
    hide Cache.Valid, Dirty, LogIdle;
    alive := true;
    var i := 0;
    while i < |calls| && alive
      invariant 0 <= i <= |calls| && cache.Valid()
      invariant cache.disk == old(cache.disk) && cache.trace == old(cache.trace) && cache.view == old(cache.view)
      invariant alive && old(LogIdle(cache.buf, cache.nbuf, L)) ==> LogIdle(cache.buf, cache.nbuf, L)
      invariant alive ==> Dirty(cache.buf, cache.nbuf) == old(Dirty(cache.buf, cache.nbuf))
      invariant i == 0 ==> alive && cache.buf == old(cache.buf)
    {
      alive := OneCall(cache, L, calls[i]);
      i := i + 1;
    }
  }
}
