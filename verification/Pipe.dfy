/** pipewrite, piperead and pipeclose of pipe.c.

    A call of pipewrite or piperead runs in sections: from taking the pipe's lock (or coming back
    from sleep with it) to releasing it or going to sleep. Each method below is one section; runs
    of any number of readers and writers are sequences of sections in lock order. A section is also
    shown to be a path of the protocol of readers, writers and closers, ending with the action that
    signals the other side, or with giving up. */
module Pipe {
  import opened SleepWakeup
  import opened PipeProtocol

  const UINT := 0x1_0000_0000

  datatype WriteOutcome = Wrote | SleepsFull | Broken

  datatype ReadOutcome = Got(bytes: seq<int>) | SleepsEmpty | Interrupted

  /** The 32-bit counters tell apart all fill levels up to PIPESIZE and index the ring the same
      way the true counts do, also after wrapping around. */
  lemma Counters(w: nat, r: nat)
    requires 0 <= w - r <= PIPESIZE
    ensures w % UINT == r % UINT <==> w == r
    ensures w % UINT == (r % UINT + PIPESIZE) % UINT <==> w == r + PIPESIZE
    ensures w % UINT % PIPESIZE == w % PIPESIZE && r % UINT % PIPESIZE == r % PIPESIZE
    ensures (w % UINT + 1) % UINT == (w + 1) % UINT
  {
    SameResidue(w, r);
    SameResidue(w, r + PIPESIZE);
    WrapAdd(r, PIPESIZE);
    WrapAdd(w, 1);
    RingIndex(w);
    RingIndex(r);
  }

  lemma SameResidue(w: nat, r: nat)
    requires -UINT < w - r < UINT
    ensures w % UINT == r % UINT <==> w == r
  {}

  lemma WrapAdd(r: nat, d: nat)
    ensures (r % UINT + d) % UINT == (r + d) % UINT
  {}

  lemma RingIndex(w: nat)
    ensures w % UINT % PIPESIZE == w % PIPESIZE
  {}

  lemma SlotsApart(k: nat, w: nat)
    requires k < w < k + PIPESIZE
    ensures k % PIPESIZE != w % PIPESIZE
  {}

  lemma StartsPath(w: World)
    ensures PipePath([w], []) && Last([w]) == w
  {}

  /** One action of a writer inside its section. */
  lemma WriterActs(states: seq<World>, actions: seq<Action>, p: nat, a: Action)
    returns (ss: seq<World>, aa: seq<Action>)
    requires states != [] && PipePath(states, actions) && p < |Last(states).roles| && Last(states).roles[p].Writer?
    requires var w := Last(states); InSection(w, p, w.roles[p], w.m.x)
    requires a == PutByte(p) || a == SeeFull(p) || a == GiveUp(p) || a == EndWrite(p)
    requires var w, left := Last(states), Last(states).roles[p].left;
      if a.PutByte? then left > 0 && w.m.x.avail != PIPESIZE
      else if a.SeeFull? then left > 0 && w.m.x.avail == PIPESIZE && w.m.x.readopen && p !in w.killed
      else if a.GiveUp? then left > 0 && w.m.x.avail == PIPESIZE && (!w.m.x.readopen || p in w.killed)
      else left == 0
    ensures PipePath(ss, aa) && |ss| > |states| && ss[0] == states[0] && aa == actions + [a]
    ensures Last(ss).killed == Last(states).killed && |Last(ss).roles| == |Last(states).roles|
    ensures var w := Last(states);
      if a.PutByte? then InSection(Last(ss), p, Writer(w.roles[p].left - 1), w.m.x.(avail := w.m.x.avail + 1))
      else Last(ss).m.x == w.m.x
  {
    hide PipeNext, PipePath;
    Goes(states, actions, a);
    ss, aa := states + [Done(Last(states), a)], actions + [a];
  }

  /** One action of a reader inside its section. */
  lemma ReaderActs(states: seq<World>, actions: seq<Action>, p: nat, a: Action)
    returns (ss: seq<World>, aa: seq<Action>)
    requires states != [] && PipePath(states, actions) && p < |Last(states).roles|
    requires Last(states).roles[p].Reader? || Last(states).roles[p].Taking?
    requires var w := Last(states); InSection(w, p, w.roles[p], w.m.x)
    requires a == TakeByte(p) || a == QuitRead(p) || a == EndRead(p)
    requires var w, r := Last(states), Last(states).roles[p];
      if a.TakeByte? then r.left > 0 && w.m.x.avail > 0
      else if a.QuitRead? then r.Reader? && w.m.x.avail == 0 && w.m.x.writeopen && p in w.killed
      else (r.Reader? ==> !(w.m.x.avail == 0 && w.m.x.writeopen)) && (r.left == 0 || w.m.x.avail == 0)
    ensures PipePath(ss, aa) && |ss| > |states| && ss[0] == states[0] && aa == actions + [a]
    ensures Last(ss).killed == Last(states).killed && |Last(ss).roles| == |Last(states).roles|
    ensures var w := Last(states);
      if a.TakeByte? then InSection(Last(ss), p, Taking(w.roles[p].left - 1), w.m.x.(avail := w.m.x.avail - 1))
      else Last(ss).m.x == w.m.x
  {
    hide PipeNext, PipePath;
    Goes(states, actions, a);
    ss, aa := states + [Done(Last(states), a)], actions + [a];
  }

  lemma MaySleep(w: World, p: nat)
    requires p < |w.roles| && w.roles[p].Reader? && w.m.x.avail == 0 && w.m.x.writeopen && p !in w.killed
    ensures Enabled(w, SleepEmpty(p))
  {}

  class Pipe {
    const data: array<int>
    var nread: nat
    var nwrite: nat
    var readopen: bool
    var writeopen: bool
    ghost var stored: seq<int>    // every byte ever put in, in lock order
    ghost var consumed: seq<int>  // every byte ever taken out, in lock order

    /** First in, first out: what was taken is a prefix of what was put, and the ring holds the
        rest, at most PIPESIZE bytes. */
    ghost predicate Valid()
      reads this, data
    {
      && data.Length == PIPESIZE
      && |consumed| <= |stored| <= |consumed| + PIPESIZE && consumed == stored[..|consumed|]
      && nread == |consumed| % UINT && nwrite == |stored| % UINT
      && forall k :: |consumed| <= k < |stored| ==> data[k % PIPESIZE] == stored[k]
    }

    ghost function Now(): Snapshot
      reads this
    {
      Snapshot(|stored| - |consumed|, readopen, writeopen)
    }

    /** pipealloc */
    constructor ()
      ensures Valid() && fresh(data) && stored == [] && consumed == [] && readopen && writeopen
    {
      data := new int[PIPESIZE];
      nread, nwrite, readopen, writeopen := 0, 0, true, true;
      stored, consumed := [], [];
    }

    /** p->data[p->nwrite++ % PIPESIZE] = c */
    method Put(c: int)
      requires Valid() && |stored| < |consumed| + PIPESIZE
      modifies this`nwrite, this`stored, data
      ensures Valid() && stored == old(stored) + [c] && Now() == old(Now()).(avail := old(Now()).avail + 1)
      ensures nwrite == (old(nwrite) + 1) % 0x1_0000_0000 == |stored| % 0x1_0000_0000
      ensures data[..] == old(data[..])[old(nwrite) % 512 := c]
    {
      Counters(|stored|, |consumed|);
      forall k | |consumed| <= k < |stored| ensures k % PIPESIZE != |stored| % PIPESIZE { SlotsApart(k, |stored|); }
      data[nwrite % PIPESIZE] := c;
      nwrite := (nwrite + 1) % UINT;
      stored := stored + [c];
    }

    /** p->data[p->nread++ % PIPESIZE] */
    method Take() returns (c: int)
      requires Valid() && |consumed| < |stored|
      modifies this`nread, this`consumed
      ensures Valid() && c == stored[|old(consumed)|] && consumed == old(consumed) + [c]
      ensures Now() == old(Now()).(avail := old(Now()).avail - 1)
      ensures nread == (old(nread) + 1) % 0x1_0000_0000 == |consumed| % 0x1_0000_0000 && c == data[old(nread) % 512]
    {
      Counters(|consumed|, |consumed|);
      c := data[nread % PIPESIZE];
      nread := (nread + 1) % UINT;
      consumed := consumed + [c];
    }

    /** pipewrite from byte i0 of addr on. Bytes go in in order; a writer that stops to sleep
        leaves the pipe full. Every reader condition it makes true it also signals, except when
        it gives up on a full pipe: then a wakeup is owed exactly when this very section took
        the pipe from empty to full. */
    method Write(addr: seq<int>, i0: nat, killed: bool, ghost w: World, ghost me: nat)
      returns (i: nat, out: WriteOutcome, woken: set<int>, ghost states: seq<World>, ghost actions: seq<Action>)
      requires Valid() && i0 <= |addr| && InSection(w, me, Writer(|addr| - i0), Now()) && (killed <==> me in w.killed)
      modifies this`nwrite, this`stored, data
      ensures Valid() && i0 <= i <= |addr| && stored == old(stored) + addr[i0..i]
      ensures out.Wrote? <==> i == |addr|
      ensures !out.Wrote? ==> Now().avail == PIPESIZE && (out.Broken? <==> !readopen || killed)
      ensures !out.Broken? ==> NewlyTrue(Ready, old(Now()), Now()) <= woken
      ensures out.SleepsFull? ==> !Ready.holds(Now(), NWRITE)
      ensures out.Broken? ==> woken == {}
      ensures out.Broken? ==>
        (NewlyTrue(Ready, old(Now()), Now()) == {} <==> !(readopen && writeopen && old(Now()).avail == 0))
      ensures PipePath(states, actions) && states[0] == w && Last(states).m.x == Now() && actions != []
      ensures actions[|actions| - 1] ==
        match out case Wrote => EndWrite(me) case SleepsFull => SeeFull(me) case Broken => GiveUp(me)
      ensures forall n :: 0 <= n < |actions| - 1 ==> actions[n] == PutByte(me)
    {
      hide PipePath, Enabled, RoleAfter, StepOf, Done;
      i := i0;
      woken := {};
      states, actions := [w], [];
      StartsPath(w);
      while i < |addr|
        invariant i0 <= i <= |addr| && Valid() && stored == old(stored) + addr[i0..i] && readopen == old(readopen)
        invariant writeopen == old(writeopen)
        invariant states != [] && PipePath(states, actions) && states[0] == w && |Last(states).roles| == |w.roles|
        invariant InSection(Last(states), me, Writer(|addr| - i), Now()) && Last(states).killed == w.killed
        invariant forall n :: 0 <= n < |actions| ==> actions[n] == PutByte(me)
      {
        Counters(|stored|, |consumed|);
        if nwrite == (nread + PIPESIZE) % UINT {
          if !readopen || killed {
            if readopen && writeopen && old(Now()).avail == 0 { assert NREAD in NewlyTrue(Ready, old(Now()), Now()); }
            states, actions := WriterActs(states, actions, me, GiveUp(me));
            return i, Broken, woken, states, actions;
          }
          woken := woken + {NREAD};
          states, actions := WriterActs(states, actions, me, SeeFull(me));
          return i, SleepsFull, woken, states, actions;
        }
        states, actions := WriterActs(states, actions, me, PutByte(me));
        Put(addr[i]);
        i := i + 1;
      }
      woken := woken + {NREAD};
      states, actions := WriterActs(states, actions, me, EndWrite(me));
      out := Wrote;
    }

    /** The loop of piperead that copies bytes out, and the wakeup behind it. */
    method TakeBytes(n: nat, ghost w: World, ghost me: nat)
      returns (addr: seq<int>, ghost states: seq<World>, ghost actions: seq<Action>)
      requires Valid() && InSection(w, me, Reader(n), Now()) && (Now().avail > 0 || !writeopen)
      modifies this`nread, this`consumed
      ensures Valid() && consumed == old(consumed) + addr
      ensures |addr| == if n <= old(Now()).avail then n else old(Now()).avail
      ensures Now() == old(Now()).(avail := old(Now()).avail - |addr|)
      ensures PipePath(states, actions) && states[0] == w && Last(states).m.x == Now()
      ensures |actions| == |addr| + 1 && actions[|addr|] == EndRead(me)
      ensures forall k :: 0 <= k < |addr| ==> actions[k] == TakeByte(me)
    {
      hide PipePath, RoleAfter, StepOf, Done;
      states, actions := [w], [];
      StartsPath(w);
      addr := [];
      var i := 0;
      while i < n
        invariant 0 <= i <= n && |addr| == i <= old(Now()).avail && Valid() && consumed == old(consumed) + addr
        invariant Now() == old(Now()).(avail := old(Now()).avail - i)
        invariant states != [] && PipePath(states, actions) && states[0] == w && |actions| == i
        invariant InSection(Last(states), me, if i == 0 then Reader(n) else Taking(n - i), Now())
        invariant forall k :: 0 <= k < i ==> actions[k] == TakeByte(me)
      {
        Counters(|stored|, |consumed|);
        if nread == nwrite { break; }
        states, actions := ReaderActs(states, actions, me, TakeByte(me));
        var c := Take();
        addr := addr + [c];
        i := i + 1;
      }
      states, actions := ReaderActs(states, actions, me, EndRead(me));
    }

    /** piperead of up to n bytes: the oldest unread ones, in order. */
    method Read(n: nat, killed: bool, ghost w: World, ghost me: nat)
      returns (out: ReadOutcome, woken: set<int>, ghost states: seq<World>, ghost actions: seq<Action>)
      requires Valid() && InSection(w, me, Reader(n), Now()) && (killed <==> me in w.killed)
      modifies this`nread, this`consumed
      ensures Valid() && NewlyTrue(Ready, old(Now()), Now()) <= woken
      ensures out.Got? <==> old(Now()).avail > 0 || !writeopen
      ensures !out.Got? ==> (out.Interrupted? <==> killed)
      ensures out.SleepsEmpty? ==> Now().avail == 0 && writeopen && !Ready.holds(Now(), NREAD)
      ensures out.Got? ==>
        && consumed == old(consumed) + out.bytes
        && |out.bytes| == if n <= old(Now()).avail then n else old(Now()).avail
      ensures !out.Got? ==> consumed == old(consumed)
      ensures PipePath(states, actions) && states[0] == w && Last(states).m.x == Now()
      ensures out.SleepsEmpty? ==> actions == [] && Enabled(w, SleepEmpty(me))
      ensures out.Interrupted? ==> actions == [QuitRead(me)]
      ensures out.Got? ==>
        && |actions| == |out.bytes| + 1 && actions[|out.bytes|] == EndRead(me)
        && forall k :: 0 <= k < |out.bytes| ==> actions[k] == TakeByte(me)
    {
      hide PipePath, Enabled, RoleAfter, StepOf, Done;
      woken := {};
      states, actions := [w], [];
      StartsPath(w);
      Counters(|stored|, |consumed|);
      if nread == nwrite && writeopen {
        if killed {
          states, actions := ReaderActs(states, actions, me, QuitRead(me));
          return Interrupted, woken, states, actions;
        }
        MaySleep(w, me);
        return SleepsEmpty, woken, states, actions;
      }
      var addr;
      addr, states, actions := TakeBytes(n, w, me);
      woken := woken + {NWRITE};
      out := Got(addr);
    }

    /** pipeclose: the other side is always signalled. */
    method Close(writable: bool, ghost w: World, ghost me: nat)
      returns (freed: bool, woken: set<int>, ghost states: seq<World>, ghost actions: seq<Action>)
      requires Valid() && InSection(w, me, Closing(writable), Now())
      modifies this`readopen, this`writeopen
      ensures Valid() && writeopen == (old(writeopen) && !writable) && readopen == (old(readopen) && writable)
      ensures freed <==> !readopen && !writeopen
      ensures NewlyTrue(Ready, old(Now()), Now()) <= woken
      ensures PipePath(states, actions) && states[0] == w && Last(states).m.x == Now()
      ensures actions == [Mark(me), SignalClose(me)]
    {
      StartsPath(w);
      Goes([w], [], Mark(me));
      ghost var w1 := Done(w, Mark(me));
      Goes([w] + [w1], [] + [Mark(me)], SignalClose(me));
      states, actions := [w] + [w1] + [Done(w1, SignalClose(me))], [] + [Mark(me)] + [SignalClose(me)];
      if writable {
        writeopen := false;
        woken := {NREAD};
      } else {
        readopen := false;
        woken := {NWRITE};
      }
      freed := !readopen && !writeopen;
    }
  }
}
