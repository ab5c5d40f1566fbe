/** Process creation, exit, wait, sleep and kill of proc.c over the process table.

    Slots are named by their index. The class runs the table-scanning loops; the functions give
    the table each critical section leaves, and Next is the transition system of all of them,
    in any order and by any number of processes. */
module ProcTable {
  import opened Common
  import opened Stride

  /** What a process sleeps on: a slot's address, as wait does, or anything else. */
  datatype Chan = OnProc(slot: nat) | OnOther(id: int)

  datatype Entry = Entry(state: ProcState, pid: int, parent: Option<nat>, chan: Option<Chan>, killed: bool,
                         tickets: int, pass: int, count: nat)

  type Table = seq<Entry>

  predicate Used(e: Entry) {
    e.state != UNUSED
  }

  /** Created and not yet exited. */
  predicate Live(e: Entry) {
    e.state == SLEEPING || e.state == RUNNABLE || e.state == RUNNING
  }

  // ---------------------------------------------------------------- what each section does

  function Woken(e: Entry, c: Option<Chan>): Entry {
    if e.state == SLEEPING && e.chan == c then e.(state := RUNNABLE) else e
  }

  /** wakeup1 */
  function WakeAll(t: Table, c: Option<Chan>): (r: Table)
    ensures |r| == |t|
  {
    seq(|t|, i requires 0 <= i < |t| => Woken(t[i], c))
  }

  function ChanOf(slot: Option<nat>): Option<Chan> {
    match slot
    case None => None
    case Some(i) => Some(OnProc(i))
  }

  ghost predicate HasZombieChild(t: Table, p: nat) {
    exists i :: 0 <= i < |t| && t[i].parent == Some(p) && t[i].state == ZOMBIE
  }

  /** An entry once exit has handed the children of p to init, waking init for a zombie. */
  function HandedOver(e: Entry, p: nat, init: nat, wake: bool): Entry {
    var e' := if e.parent == Some(p) then e.(parent := Some(init)) else e;
    if wake then Woken(e', Some(OnProc(init))) else e'
  }

  /** exit: wake the parent, hand over the children, become a zombie. */
  ghost function Exited(t: Table, p: nat, init: nat): (r: Table)
    requires p < |t|
    ensures |r| == |t|
  {
    var t1 := WakeAll(t, ChanOf(t[p].parent));
    var t2 := seq(|t|, i requires 0 <= i < |t| => HandedOver(t1[i], p, init, HasZombieChild(t, p)));
    t2[p := t2[p].(state := ZOMBIE)]
  }

  function Reaped(e: Entry): Entry {
    e.(pid := 0, parent := None, killed := false, state := UNUSED)
  }

  // ---------------------------------------------------------------- the loops

  class Processes {
    var proc: Table
    var nextpid: int
    const init: nat

    /** The table as a state of all processes together, with the pids wait has returned so far. */
    ghost function StateOf(t: Table, pid: int, reaped: seq<int>): World {
      World(t, pid, init, reaped)
    }

    ghost function Now(reaped: seq<int>): World
      reads this
    {
      World(proc, nextpid, init, reaped)
    }

    /** allocproc's search and claim, under the lock; |proc| when the table is full. */
    method ClaimSlot() returns (k: nat)
      modifies this
      ensures k <= |old(proc)| && forall i :: 0 <= i < k ==> Used(old(proc)[i])
      ensures k == |old(proc)| ==> proc == old(proc) && nextpid == old(nextpid)
      ensures k < |old(proc)| ==>
        && !Used(old(proc)[k]) && nextpid == old(nextpid) + 1
        && proc == old(proc)[k := old(proc)[k].(state := EMBRYO, pid := old(nextpid))]
      ensures k < |old(proc)| ==> forall rs :: Next(StateOf(old(proc), old(nextpid), rs), Alloc(k), Now(rs))
    {
      k := 0;
      while k < |proc|
        invariant 0 <= k <= |proc| && proc == old(proc) && nextpid == old(nextpid)
        invariant forall i :: 0 <= i < k ==> Used(proc[i])
      {
        if !Used(proc[k]) {
          proc := proc[k := proc[k].(state := EMBRYO, pid := nextpid)];
          nextpid := nextpid + 1;
          return;
        }
        k := k + 1;
      }
    }

    /** allocproc: the first unused slot becomes an embryo with the next pid and an equal share of
        the processor. It fails when the table is full or there is no page for the kernel stack,
        and then no slot has changed state; in the second case the pid is spent. */
    method AllocProc(stack: bool) returns (r: Option<nat>)
      modifies this
      ensures r.Some? <==> stack && exists k :: 0 <= k < |old(proc)| && !Used(old(proc)[k])
      ensures r.Some? ==>
        && r.value < |old(proc)| && !Used(old(proc)[r.value]) && (forall i :: 0 <= i < r.value ==> Used(old(proc)[i]))
        && nextpid == old(nextpid) + 1
        && proc == old(proc)[r.value := old(proc)[r.value].(state := EMBRYO, pid := old(nextpid),
                                                            tickets := 1, count := 0, pass := 1)]
      ensures r.None? ==>
        && |proc| == |old(proc)|
        && (forall i :: 0 <= i < |proc| ==> proc[i] == old(proc)[i] || (!Used(proc[i]) && !Used(old(proc)[i])))
        && nextpid == if forall i :: 0 <= i < |old(proc)| ==> Used(old(proc)[i]) then old(nextpid) else old(nextpid) + 1
    {
      var k := ClaimSlot();
      if k == |proc| { return None; }
      if !stack {
        proc := proc[k := proc[k].(state := UNUSED)];
        return None;
      }
      proc := proc[k := proc[k].(tickets := 1, count := 0, pass := 1)];
      return Some(k);
    }

    /** wakeup1: whoever sleeps on the channel, whatever it is, can run, and nobody else changes. */
    method Wakeup1(c: Option<Chan>)
      modifies this`proc
      ensures proc == WakeAll(old(proc), c) && |proc| == |old(proc)|
      ensures forall i :: 0 <= i < |proc| ==>
        var o := old(proc)[i];
        proc[i] == if o.state == SLEEPING && o.chan == c then o.(state := RUNNABLE) else o
      ensures forall i :: 0 <= i < |proc| ==> !(proc[i].state == SLEEPING && proc[i].chan == c)
      ensures forall id, rs :: c == Some(OnOther(id)) ==> Next(StateOf(old(proc), nextpid, rs), Wakeup(id), Now(rs))
    {
      var i := 0;
      while i < |proc|
        invariant 0 <= i <= |proc| == |old(proc)|
        invariant forall j :: 0 <= j < |proc| ==> proc[j] == if j < i then Woken(old(proc)[j], c) else old(proc)[j]
      {
        if proc[i].state == SLEEPING && proc[i].chan == c {
          proc := proc[i := proc[i].(state := RUNNABLE)];
        }
        i := i + 1;
      }
    }

    /** exit under ptable.lock: the sleepers on the parent's slot wake, those on init's too if a child
        is a zombie, the children become init's, and the caller is a zombie; nothing else changes. */
    method Exit(me: nat)
      requires me < |proc| && me != init && init < |proc|
      modifies this`proc
      ensures proc == Exited(old(proc), me, init) && |proc| == |old(proc)|
      ensures forall i :: 0 <= i < |proc| ==>
        var o := old(proc)[i];
        var parent := match old(proc)[me].parent case None => None case Some(q) => Some(OnProc(q));
        var zombie := exists j :: 0 <= j < |proc| && old(proc)[j].parent == Some(me) && old(proc)[j].state == ZOMBIE;
        var wakes := o.state == SLEEPING && (o.chan == parent || (zombie && o.chan == Some(OnProc(init))));
        proc[i] == o.(parent := if o.parent == Some(me) then Some(init) else o.parent,
                      state := if i == me then ZOMBIE else if wakes then RUNNABLE else o.state)
      ensures old(proc)[me].state == RUNNING ==>
        forall rs :: Next(StateOf(old(proc), nextpid, rs), Action.Exit(me), Now(rs))
    {
      Wakeup1(ChanOf(proc[me].parent));
      ghost var t1 := proc;
      ghost var woke := false;
      var i := 0;
      while i < |proc|
        invariant 0 <= i <= |proc| == |t1|
        invariant woke <==> exists j :: 0 <= j < i && t1[j].parent == Some(me) && t1[j].state == ZOMBIE
        invariant forall j :: 0 <= j < |proc| ==>
          proc[j] == if j < i then HandedOver(t1[j], me, init, woke)
                     else if woke then Woken(t1[j], Some(OnProc(init))) else t1[j]
      {
        if proc[i].parent == Some(me) {
          proc := proc[i := proc[i].(parent := Some(init))];
          if proc[i].state == ZOMBIE {
            Wakeup1(Some(OnProc(init)));
            woke := true;
          }
        }
        i := i + 1;
      }
      assert forall j :: 0 <= j < |t1| ==> t1[j] == Woken(old(proc)[j], ChanOf(old(proc)[me].parent));
      assert woke <==> HasZombieChild(old(proc), me);
      proc := proc[me := proc[me].(state := ZOMBIE)];
    }

    /** One pass of wait's loop: the pid of a reaped child, -1, or None when it goes to sleep. */
    method Wait(me: nat) returns (r: Option<int>, ghost k: nat)
      requires me < |proc|
      modifies this`proc
      ensures k <= |old(proc)| == |proc|
      ensures forall i :: 0 <= i < k ==> !(old(proc)[i].parent == Some(me) && old(proc)[i].state == ZOMBIE)
      ensures k < |old(proc)| ==>
        && old(proc)[k].parent == Some(me) && old(proc)[k].state == ZOMBIE
        && r == Some(old(proc)[k].pid)
        && proc == old(proc)[k := Reaped(old(proc)[k])]
        && Reaped(old(proc)[k]) == old(proc)[k].(pid := 0, parent := None, killed := false, state := UNUSED)
      ensures k == |old(proc)| ==>
        var kids := exists i :: 0 <= i < |proc| && old(proc)[i].parent == Some(me);
        if !kids || old(proc)[me].killed then r == Some(-1) && proc == old(proc)
        else r == None && proc == old(proc)[me := old(proc)[me].(chan := Some(OnProc(me)), state := SLEEPING)]
      ensures old(proc)[me].state == RUNNING && k < |old(proc)| ==>
        forall rs :: Next(StateOf(old(proc), nextpid, rs), Reap(me, k), Now(rs + [old(proc)[k].pid]))
      ensures old(proc)[me].state == RUNNING && r == None ==>
        forall rs :: Next(StateOf(old(proc), nextpid, rs), WaitSleeps(me), Now(rs))
    {
      var havekids := false;
      var p := 0;
      k := |proc|;
      while p < |proc|
        invariant 0 <= p <= |proc| && proc == old(proc) && k == |proc|
        invariant havekids <==> exists i :: 0 <= i < p && proc[i].parent == Some(me)
        invariant forall i :: 0 <= i < p ==> !(proc[i].parent == Some(me) && proc[i].state == ZOMBIE)
      {
        if proc[p].parent == Some(me) {
          havekids := true;
          if proc[p].state == ZOMBIE {
            r := Some(proc[p].pid);
            k := p;
            proc := proc[p := Reaped(proc[p])];
            return;
          }
        }
        p := p + 1;
      }
      if !havekids || proc[me].killed { return Some(-1), k; }
      proc := proc[me := proc[me].(chan := Some(OnProc(me)), state := SLEEPING)];
      return None, k;
    }

    /** kill: 0 if some slot has the pid, -1 otherwise. */
    method Kill(pid: int) returns (r: int, ghost k: nat)
      modifies this`proc
      ensures k <= |old(proc)| && forall i :: 0 <= i < k ==> old(proc)[i].pid != pid
      ensures k == |old(proc)| ==> r == -1 && proc == old(proc)
      ensures k < |old(proc)| ==>
        var o := old(proc)[k];
        && o.pid == pid && r == 0 && proc == old(proc)[k := Killed(o)]
        && Killed(o) == o.(killed := true, state := if o.state == SLEEPING then RUNNABLE else o.state)
        && forall rs :: Next(StateOf(old(proc), nextpid, rs), Action.Kill(k), Now(rs))
    {
      var p := 0;
      k := |proc|;
      while p < |proc|
        invariant 0 <= p <= |proc| && proc == old(proc) && k == |proc|
        invariant forall i :: 0 <= i < p ==> proc[i].pid != pid
      {
        if proc[p].pid == pid {
          proc := proc[p := proc[p].(killed := true)];
          if proc[p].state == SLEEPING {
            proc := proc[p := proc[p].(state := RUNNABLE)];
          }
          k := p;
          return 0, k;
        }
        p := p + 1;
      }
      return -1, k;
    }
  }

  function Killed(e: Entry): Entry {
    e.(killed := true, state := if e.state == SLEEPING then RUNNABLE else e.state)
  }

  // ---------------------------------------------------------------- all processes together

  datatype World = World(t: Table, nextpid: int, init: nat, reaped: seq<int>)

  datatype Action =
    | Alloc(k: nat)                 // allocproc
    | AllocFails(k: nat)            // no kernel stack or no page table: slot given back
    | Adopt(k: nat, p: nat)         // fork: np->parent = proc
    | Ready(k: nat)                 // fork: np->state = RUNNABLE
    | Dispatch(p: nat)
    | Yield(p: nat)
    | Sleep(p: nat, id: int)
    | Wakeup(id: int)
    | Exit(p: nat)
    | Reap(p: nat, k: nat)          // wait finds a zombie child
    | WaitSleeps(p: nat)
    | Kill(k: nat)

  predicate Running(t: Table, p: nat) {
    p < |t| && t[p].state == RUNNING
  }

  ghost predicate Next(w: World, a: Action, w': World) {
    var t := w.t;
    match a
    case Alloc(k) =>
      && k < |t| && !Used(t[k])
      && w' == w.(t := t[k := t[k].(state := EMBRYO, pid := w.nextpid)], nextpid := w.nextpid + 1)
    case AllocFails(k) =>
      k < |t| && t[k].state == EMBRYO && t[k].parent == None && w' == w.(t := t[k := t[k].(state := UNUSED)])
    case Adopt(k, p) =>
      && k < |t| && t[k].state == EMBRYO && t[k].parent == None && Running(t, p)
      && w' == w.(t := t[k := t[k].(parent := Some(p))])
    case Ready(k) =>
      k < |t| && t[k].state == EMBRYO && t[k].parent.Some? && w' == w.(t := t[k := t[k].(state := RUNNABLE)])
    case Dispatch(p) =>
      p < |t| && t[p].state == RUNNABLE && w' == w.(t := t[p := t[p].(state := RUNNING)])
    case Yield(p) =>
      Running(t, p) && w' == w.(t := t[p := t[p].(state := RUNNABLE)])
    case Sleep(p, id) =>
      Running(t, p) && w' == w.(t := t[p := t[p].(chan := Some(OnOther(id)), state := SLEEPING)])
    case Wakeup(id) =>
      w' == w.(t := WakeAll(t, Some(OnOther(id))))
    case Exit(p) =>
      Running(t, p) && p != w.init && w' == w.(t := Exited(t, p, w.init))
    case Reap(p, k) =>
      && Running(t, p) && k < |t| && t[k].parent == Some(p) && t[k].state == ZOMBIE
      && w' == w.(t := t[k := Reaped(t[k])], reaped := w.reaped + [t[k].pid])
    case WaitSleeps(p) =>
      && Running(t, p) && !HasZombieChild(t, p)
      && w' == w.(t := t[p := t[p].(chan := Some(OnProc(p)), state := SLEEPING)])
    case Kill(k) =>
      k < |t| && w' == w.(t := t[k := Killed(t[k])])
  }

  /** After userinit: slot init is the only process. */
  ghost predicate Boot(w: World) {
    && w.init < |w.t| && w.reaped == [] && 0 < w.t[w.init].pid < w.nextpid
    && w.t[w.init].state == RUNNABLE && w.t[w.init].parent == None
    && forall i :: 0 <= i < |w.t| && i != w.init ==> !Used(w.t[i]) && w.t[i].parent == None
  }

  ghost predicate PidsOk(w: World) {
    && (forall i :: 0 <= i < |w.t| && Used(w.t[i]) ==> 0 < w.t[i].pid < w.nextpid)
    && (forall i, j :: 0 <= i < j < |w.t| && Used(w.t[i]) && Used(w.t[j]) ==> w.t[i].pid != w.t[j].pid)
  }

  ghost predicate ParentsOk(t: Table) {
    forall i :: 0 <= i < |t| && t[i].parent.Some? ==>
      Used(t[i]) && t[i].parent.value < |t| && t[i].parent.value != i && Live(t[t[i].parent.value])
  }

  /** Nobody sleeps in wait while one of its children is a zombie. */
  ghost predicate WaitersOk(t: Table) {
    forall p :: 0 <= p < |t| && t[p].state == SLEEPING && t[p].chan == Some(OnProc(p)) ==> !HasZombieChild(t, p)
  }

  ghost predicate SleepersOk(t: Table) {
    forall p, q :: 0 <= p < |t| && t[p].state == SLEEPING && t[p].chan == Some(OnProc(q)) ==> q == p
  }

  ghost predicate ReapedOk(w: World) {
    && (forall i, j :: 0 <= i < j < |w.reaped| ==> w.reaped[i] != w.reaped[j])
    && (forall i :: 0 <= i < |w.reaped| ==> w.reaped[i] < w.nextpid)
    && (forall i, k :: 0 <= i < |w.reaped| && 0 <= k < |w.t| && Used(w.t[k]) ==> w.reaped[i] != w.t[k].pid)
  }

  ghost predicate Inv(w: World) {
    && w.init < |w.t| && Live(w.t[w.init]) && w.t[w.init].parent == None
    && PidsOk(w) && ParentsOk(w.t) && WaitersOk(w.t) && SleepersOk(w.t) && ReapedOk(w)
  }

  /** Used slots, pids and parents stay as they were. */
  ghost predicate Frame(t: Table, t': Table) {
    && |t'| == |t|
    && forall i :: 0 <= i < |t| ==> t'[i].pid == t[i].pid && (Used(t'[i]) <==> Used(t[i]))
  }

  lemma FrameKeeps(w: World, w': World)
    requires Inv(w) && Frame(w.t, w'.t) && w' == w.(t := w'.t)
    ensures PidsOk(w') && ReapedOk(w')
  {}

  /** Exited, entry by entry. */
  lemma ExitAt(t: Table, p: nat, init: nat, i: nat)
    requires p < |t| && i < |t|
    ensures var e, e' := t[i], Exited(t, p, init)[i];
      && e'.pid == e.pid && e'.chan == e.chan
      && e'.parent == (if e.parent == Some(p) then Some(init) else e.parent)
      && (i == p ==> e'.state == ZOMBIE)
      && (i != p ==> (Used(e') <==> Used(e)) && (Live(e') <==> Live(e)) && (e'.state == ZOMBIE <==> e.state == ZOMBIE))
      && (e'.state == SLEEPING ==> e.state == SLEEPING && e.chan != ChanOf(t[p].parent)
                                   && (HasZombieChild(t, p) ==> e.chan != Some(OnProc(init))))
  {}

  lemma ExitKeeps(w: World, p: nat, w': World)
    requires Inv(w) && Next(w, Exit(p), w')
    ensures Inv(w')
  {
    hide Exited, WakeAll;
    var t, t' := w.t, w'.t;
    forall i | 0 <= i < |t| ensures t'[i].pid == t[i].pid && (Used(t'[i]) <==> Used(t[i])) { ExitAt(t, p, w.init, i); }
    FrameKeeps(w, w');
    ExitAt(t, p, w.init, w.init);
    forall i | 0 <= i < |t'| && t'[i].parent.Some?
      ensures Used(t'[i]) && t'[i].parent.value < |t| && t'[i].parent.value != i && Live(t'[t'[i].parent.value])
    {
      ExitAt(t, p, w.init, i);
      ExitAt(t, p, w.init, t'[i].parent.value);
    }
    forall i, q | 0 <= i < |t'| && t'[i].state == SLEEPING && t'[i].chan == Some(OnProc(q)) ensures q == i {
      ExitAt(t, p, w.init, i);
    }
    forall q | 0 <= q < |t'| && t'[q].state == SLEEPING && t'[q].chan == Some(OnProc(q))
      ensures !HasZombieChild(t', q)
    {
      ExitAt(t, p, w.init, q);
      assert !HasZombieChild(t, q);
      forall i | 0 <= i < |t'| ensures !(t'[i].parent == Some(q) && t'[i].state == ZOMBIE) {
        ExitAt(t, p, w.init, i);
        assert t[i].parent == Some(p) && t[i].state == ZOMBIE ==> HasZombieChild(t, p);
      }
    }
  }

  lemma WakeAt(t: Table, c: Option<Chan>, i: nat)
    requires i < |t|
    ensures var e, e' := t[i], WakeAll(t, c)[i];
      && e'.pid == e.pid && e'.chan == e.chan && e'.parent == e.parent
      && (Used(e') <==> Used(e)) && (Live(e') <==> Live(e)) && (e'.state == ZOMBIE <==> e.state == ZOMBIE)
      && (e'.state == SLEEPING ==> e.state == SLEEPING)
  {}

  lemma WakeKeeps(w: World, id: int, w': World)
    requires Inv(w) && Next(w, Wakeup(id), w')
    ensures Inv(w')
  {
    hide WakeAll;
    var t, t', c := w.t, w'.t, Some(OnOther(id));
    forall i | 0 <= i < |t| ensures t'[i].pid == t[i].pid && (Used(t'[i]) <==> Used(t[i])) { WakeAt(t, c, i); }
    FrameKeeps(w, w');
    WakeAt(t, c, w.init);
    forall i | 0 <= i < |t'| && t'[i].parent.Some?
      ensures Used(t'[i]) && t'[i].parent.value < |t| && t'[i].parent.value != i && Live(t'[t'[i].parent.value])
    {
      WakeAt(t, c, i);
      WakeAt(t, c, t'[i].parent.value);
    }
    forall i, q | 0 <= i < |t'| && t'[i].state == SLEEPING && t'[i].chan == Some(OnProc(q))
      ensures q == i
    {
      WakeAt(t, c, i);
    }
    forall q | 0 <= q < |t'| && t'[q].state == SLEEPING && t'[q].chan == Some(OnProc(q))
      ensures !HasZombieChild(t', q)
    {
      WakeAt(t, c, q);
      assert !HasZombieChild(t, q);
      forall i | 0 <= i < |t'| ensures !(t'[i].parent == Some(q) && t'[i].state == ZOMBIE) { WakeAt(t, c, i); }
    }
  }

  /** A section that rewrites one entry: it creates no zombie, takes no parent away from its
      children, and puts nobody to sleep in wait over a zombie. */
  lemma EntryKeeps(t: Table, k: nat, e: Entry)
    requires ParentsOk(t) && WaitersOk(t) && SleepersOk(t) && k < |t|
    requires Live(e) || !Live(t[k])
    requires e.parent.Some? ==> Used(e) && e.parent.value < |t| && e.parent.value != k && Live(t[e.parent.value])
    requires e.state == ZOMBIE ==> t[k].state == ZOMBIE && e.parent == t[k].parent
    requires e.state == SLEEPING && e.chan.Some? && e.chan.value.OnProc? ==>
      e.chan.value.slot == k && !HasZombieChild(t, k)
    ensures ParentsOk(t[k := e]) && WaitersOk(t[k := e]) && SleepersOk(t[k := e])
  {}

  lemma PidsKeep(w: World, k: nat, e: Entry, w': World)
    requires PidsOk(w) && ReapedOk(w) && k < |w.t| && w' == w.(t := w.t[k := e])
    requires Used(e) ==> Used(w.t[k]) && e.pid == w.t[k].pid
    ensures PidsOk(w') && ReapedOk(w')
  {}

  lemma AllocKeeps(w: World, k: nat, w': World)
    requires Inv(w) && Next(w, Alloc(k), w')
    ensures Inv(w')
  {
    EntryKeeps(w.t, k, w'.t[k]);
  }

  lemma ReapKeeps(w: World, p: nat, k: nat, w': World)
    requires Inv(w) && Next(w, Reap(p, k), w')
    ensures Inv(w')
  {
    EntryKeeps(w.t, k, w'.t[k]);
    PidsKeep(w, k, w'.t[k], w.(t := w'.t));
    assert forall i :: 0 <= i < |w.reaped| ==> w.reaped[i] != w.t[k].pid;
  }

  lemma EditKeeps(w: World, k: nat, w': World)
    requires Inv(w) && k < |w.t| == |w'.t| && w' == w.(t := w.t[k := w'.t[k]])
    requires var e, e' := w.t[k], w'.t[k];
      && (Used(e') ==> Used(e)) && e'.pid == e.pid && (Live(e') || !Live(e))
      && (e'.state == ZOMBIE ==> e.state == ZOMBIE)
      && (e'.parent == e.parent || (e.parent == None && e'.parent.Some? && Running(w.t, e'.parent.value)
                                    && e.state == e'.state == EMBRYO))
      && (Used(e') || e'.parent == None || !Used(e))
      && (e'.state == SLEEPING ==>
            || (e.state == SLEEPING && e'.chan == e.chan) || (e'.chan.Some? && e'.chan.value.OnOther?)
            || (e'.chan == Some(OnProc(k)) && !HasZombieChild(w.t, k)))
    ensures Inv(w')
  {
    PidsKeep(w, k, w'.t[k], w');
    EntryKeeps(w.t, k, w'.t[k]);
  }

  lemma StepKeeps(w: World, a: Action, w': World)
    requires Inv(w) && Next(w, a, w')
    ensures Inv(w')
  {
    hide Inv, Exited, WakeAll;
    match a
    case Alloc(k) => AllocKeeps(w, k, w');
    case AllocFails(k) => EditKeeps(w, k, w');
    case Adopt(k, p) => EditKeeps(w, k, w');
    case Ready(k) => EditKeeps(w, k, w');
    case Dispatch(p) => EditKeeps(w, p, w');
    case Yield(p) => EditKeeps(w, p, w');
    case Sleep(p, id) => EditKeeps(w, p, w');
    case Wakeup(id) => WakeKeeps(w, id, w');
    case Exit(p) => ExitKeeps(w, p, w');
    case Reap(p, k) => ReapKeeps(w, p, k, w');
    case WaitSleeps(p) => EditKeeps(w, p, w');
    case Kill(k) => EditKeeps(w, k, w');
  }

  ghost predicate IsRun(states: seq<World>, actions: seq<Action>) {
    && |states| == |actions| + 1 && Boot(states[0])
    && forall n :: 0 <= n < |actions| ==> Next(states[n], actions[n], states[n + 1])
  }

  /** Process lifecycle: in every reachable state pids of used slots are distinct, every parent
      is a live process, nobody sleeps in wait over a zombie child, and no pid has been returned
      by wait twice or still belongs to a slot after it was returned. */
  lemma {:induction false} Lifecycle(states: seq<World>, actions: seq<Action>, n: nat)
    requires IsRun(states, actions) && n < |states|
    ensures Inv(states[n])
  {
    if n > 0 {
      Lifecycle(states, actions, n - 1);
      StepKeeps(states[n - 1], actions[n - 1], states[n]);
    }
  }
}
