/** Any number of readers, writers and closers of one pipe, line by line, as clients of sleep and
    wakeup.

    The file layer guarantees what the guards of the calls say: pipeclose of an end is called once,
    for the last reference to that end (file.c:60-80), and a process inside piperead or pipewrite
    has such a reference itself. */
module PipeProtocol {
  import opened Common
  import opened SleepWakeup

  const PIPESIZE := 512

  // Channels: &p->nread and &p->nwrite.
  const NREAD := 0
  const NWRITE := 1

  /** What the sleepers' conditions depend on. */
  datatype Snapshot = Snapshot(avail: int, readopen: bool, writeopen: bool)

  /** A reader waits for bytes or the end of writers, a writer for space or the end of readers. Once
      the read end is closed there is no reader to wait for anything. */
  const Ready: Conditions<Snapshot> :=
    Conditions({NREAD, NWRITE}, (s: Snapshot, c: int) =>
      if c == NREAD then s.readopen && (s.avail > 0 || !s.writeopen) else s.avail < PIPESIZE || !s.readopen)

  /** Where a process stands. */
  datatype Role =
    | Idle
    | Reader(left: nat)        // in piperead, before or in the loop that waits for bytes
    | Taking(left: nat)        // in the loop that copies bytes out
    | ReadDone                 // has called wakeup(&p->nwrite)
    | Writer(left: nat)        // in pipewrite with `left` bytes to store
    | Filled(left: nat)        // has seen the pipe full and called wakeup(&p->nread)
    | WriteDone                // has called wakeup(&p->nread) at the end
    | Closing(writable: bool)  // in pipeclose with the lock
    | Marked(writable: bool)   // has cleared the end's flag
    | CloseDone(writable: bool)

  datatype World = World(m: Monitor<Snapshot>, roles: seq<Role>, killed: set<nat>)

  datatype Action =
    | CallRead(p: nat, n: nat)
    | CallWrite(p: nat, n: nat)
    | CallClose(p: nat, writable: bool)
    | Back(p: nat)         // back from sleep with the lock again
    | SleepEmpty(p: nat)   // sleep(&p->nread, &p->lock)
    | QuitRead(p: nat)     // killed while there is nothing to read
    | TakeByte(p: nat)     // addr[i] = p->data[p->nread++ % PIPESIZE]
    | EndRead(p: nat)      // wakeup(&p->nwrite)
    | ReturnRead(p: nat)
    | PutByte(p: nat)      // p->data[p->nwrite++ % PIPESIZE] = addr[i]
    | SeeFull(p: nat)      // wakeup(&p->nread) on a full pipe
    | SleepFull(p: nat)    // sleep(&p->nwrite, &p->lock)
    | GiveUp(p: nat)       // return -1 on a full pipe
    | EndWrite(p: nat)     // wakeup(&p->nread) at the end
    | ReturnWrite(p: nat)
    | Mark(p: nat)         // p->writeopen = 0 or p->readopen = 0
    | SignalClose(p: nat)  // wakeup of the other side
    | ReturnClose(p: nat)
    | Kill(p: nat)         // p->killed = 1
    | Inner(s: Step<Snapshot>)

  predicate Reads(r: Role) { r.Reader? || r.Taking? || r.ReadDone? }

  predicate Writes(r: Role) { r.Writer? || r.Filled? || r.WriteDone? }

  function Other(writable: bool): int { if writable then NREAD else NWRITE }

  /** The step of the monitor an action takes; Kill takes none. */
  function StepOf(a: Action, x: Snapshot, r: Role): Step<Snapshot> {
    match a
    case CallRead(p, _) => Acquire(p)
    case CallWrite(p, _) => Acquire(p)
    case CallClose(p, _) => Acquire(p)
    case Back(p) => Acquire(p)
    case SleepEmpty(p) => BeginSleep(p, NREAD)
    case QuitRead(p) => Release(p)
    case TakeByte(p) => Update(p, x.(avail := x.avail - 1))
    case EndRead(p) => BeginWakeup(p, NWRITE)
    case ReturnRead(p) => Release(p)
    case PutByte(p) => Update(p, x.(avail := x.avail + 1))
    case SeeFull(p) => BeginWakeup(p, NREAD)
    case SleepFull(p) => BeginSleep(p, NWRITE)
    case GiveUp(p) => Release(p)
    case EndWrite(p) => BeginWakeup(p, NREAD)
    case ReturnWrite(p) => Release(p)
    case Mark(p) => Update(p, if r == Closing(true) then x.(writeopen := false) else x.(readopen := false))
    case SignalClose(p) => BeginWakeup(p, Other(r == Marked(true)))
    case ReturnClose(p) => Release(p)
    case Kill(p) => KilledAwake(p)
    case Inner(s) => s
  }

  function Proc(a: Action): nat {
    match a
    case Inner(s) => s.p
    case _ => a.p
  }

  /** The line a process must be at, and what it must find, to take the action. */
  ghost predicate Enabled(w: World, a: Action)
    requires Proc(a) < |w.roles|
  {
    var p, r, x := Proc(a), w.roles[Proc(a)], w.m.x;
    match a
    case CallRead(_, _) => r == Idle && x.readopen
    case CallWrite(_, _) => r == Idle && x.writeopen
    case CallClose(_, writable) =>
      && r == Idle
      && (if writable then x.writeopen else x.readopen)
      && forall q :: 0 <= q < |w.roles| ==> !(if writable then Writes(w.roles[q]) else Reads(w.roles[q]))
    case Back(_) => r.Reader? || r.Writer?
    case SleepEmpty(_) => r.Reader? && x.avail == 0 && x.writeopen && p !in w.killed
    case QuitRead(_) => r.Reader? && x.avail == 0 && x.writeopen && p in w.killed
    case TakeByte(_) => (r.Reader? || r.Taking?) && r.left > 0 && x.avail > 0
    case EndRead(_) => ((r.Reader? && !(x.avail == 0 && x.writeopen)) || r.Taking?) && (r.left == 0 || x.avail == 0)
    case ReturnRead(_) => r == ReadDone
    case PutByte(_) => r.Writer? && r.left > 0 && x.avail != PIPESIZE
    case SeeFull(_) => r.Writer? && r.left > 0 && x.avail == PIPESIZE && x.readopen && p !in w.killed
    case SleepFull(_) => r.Filled?
    case GiveUp(_) => r.Writer? && r.left > 0 && x.avail == PIPESIZE && (!x.readopen || p in w.killed)
    case EndWrite(_) => r == Writer(0)
    case ReturnWrite(_) => r == WriteDone
    case Mark(_) => r.Closing?
    case SignalClose(_) => r.Marked?
    case ReturnClose(_) => r.CloseDone?
    case Kill(_) => true
    case Inner(s) =>
      s.FinishWakeup? || s.TakeTableLock? || s.DropLock? || s.Slumber? || (s.KilledAwake? && p in w.killed)
  }

  function RoleAfter(a: Action, r: Role): Role {
    match a
    case CallRead(_, n) => Reader(n)
    case CallWrite(_, n) => Writer(n)
    case CallClose(_, writable) => Closing(writable)
    case TakeByte(_) => if (r.Reader? || r.Taking?) && r.left > 0 then Taking(r.left - 1) else r
    case EndRead(_) => ReadDone
    case PutByte(_) => if r.Writer? && r.left > 0 then Writer(r.left - 1) else r
    case SeeFull(_) => if r.Writer? then Filled(r.left) else r
    case SleepFull(_) => if r.Filled? then Writer(r.left) else r
    case EndWrite(_) => WriteDone
    case Mark(_) => Marked(r == Closing(true))
    case SignalClose(_) => CloseDone(r == Marked(true))
    case QuitRead(_) => Idle
    case ReturnRead(_) => Idle
    case GiveUp(_) => Idle
    case ReturnWrite(_) => Idle
    case ReturnClose(_) => Idle
    case _ => r
  }

  ghost predicate PipeNext(w: World, a: Action, w': World) {
    var p := Proc(a);
    && p < |w.roles| == |w.m.pcs| && Enabled(w, a)
    && w'.roles == w.roles[p := RoleAfter(a, w.roles[p])]
    && if a.Kill? then w'.m == w.m && w'.killed == w.killed + {p}
       else RawNext(Ready, w.m, StepOf(a, w.m.x, w.roles[p]), w'.m) && w'.killed == w.killed
  }

  // ---------------------------------------------------------------- what each line knows

  predicate Sleepy(pc: Pc, c: int) {
    pc == Awake || pc in {FallingAsleep(c), Handover(c), Committed(c), Asleep(c)}
  }

  predicate Signalling(pc: Pc, c: int) {
    pc == Inside({}) || (pc.Waking? && pc.chan == c && pc.debt <= {c})
  }

  predicate At(r: Role, pc: Pc, x: Snapshot) {
    match r
    case Idle => pc == Outside
    case Reader(_) => pc == Inside({}) || Sleepy(pc, NREAD)
    case Taking(_) => pc.Inside? && pc.debt <= {NWRITE}
    case ReadDone => Signalling(pc, NWRITE)
    case Writer(_) => Sleepy(pc, NWRITE) || (pc.Inside? && pc.debt <= {NREAD} && (pc.debt == {} || x.readopen))
    case Filled(_) => Signalling(pc, NREAD) && x.avail == PIPESIZE && x.readopen
    case WriteDone => Signalling(pc, NREAD)
    case Closing(_) => pc == Inside({})
    case Marked(w) => pc.Inside? && pc.debt <= {Other(w)}
    case CloseDone(w) => Signalling(pc, Other(w))
  }

  ghost predicate RolesOk(w: World) {
    |w.roles| == |w.m.pcs| && forall p :: 0 <= p < |w.roles| ==> At(w.roles[p], w.m.pcs[p], w.m.x)
  }

  /** Nobody uses an end that is closed or being closed. */
  ghost predicate EndsOk(w: World) {
    && (forall p :: 0 <= p < |w.roles| && Reads(w.roles[p]) ==> w.m.x.readopen)
    && (forall p :: 0 <= p < |w.roles| && Writes(w.roles[p]) ==> w.m.x.writeopen)
    && (forall p, q :: 0 <= p < |w.roles| && 0 <= q < |w.roles| && w.roles[p] == Closing(false) ==> !Reads(w.roles[q]))
    && (forall p, q :: 0 <= p < |w.roles| && 0 <= q < |w.roles| && w.roles[p] == Closing(true) ==> !Writes(w.roles[q]))
  }

  ghost predicate PipeInv(w: World) {
    Inv(Ready, w.m) && RolesOk(w) && EndsOk(w) && 0 <= w.m.x.avail <= PIPESIZE
  }

  /** Which debts an update can make. */
  lemma Debts(x: Snapshot, a: Action, r: Role)
    requires 0 <= x.avail <= PIPESIZE
    ensures a.TakeByte? ==> NewlyTrue(Ready, x, x.(avail := x.avail - 1)) <= {NWRITE}
    ensures a.PutByte? && x.avail < PIPESIZE ==>
      && NewlyTrue(Ready, x, x.(avail := x.avail + 1)) <= {NREAD}
      && (x.readopen || NewlyTrue(Ready, x, x.(avail := x.avail + 1)) == {})
    ensures NewlyTrue(Ready, x, x.(writeopen := false)) <= {NREAD}
    ensures NewlyTrue(Ready, x, x.(readopen := false)) <= {NWRITE}
  {}

  /** Without kills the three functions keep the discipline by the order of their lines. */
  lemma KeepsDiscipline(w: World, a: Action, w': World)
    requires PipeInv(w) && w.killed == {} && PipeNext(w, a, w') && !a.Kill?
    ensures Next(Ready, w.m, StepOf(a, w.m.x, w.roles[Proc(a)]), w'.m)
  {
    hide Inv, EndsOk, RawNext;
    var p := Proc(a);
    assert At(w.roles[p], w.m.pcs[p], w.m.x);
    InsideToLeave(w, a, w');
  }

  lemma InsideToLeave(w: World, a: Action, w': World)
    requires PipeNext(w, a, w') && !a.Kill?
    ensures var s := StepOf(a, w.m.x, w.roles[Proc(a)]);
      s.p == Proc(a) && (s.Release? || s.BeginSleep? ==> w.m.pcs[Proc(a)].Inside?)
  {}

  lemma PcsAfter(m: Monitor<Snapshot>, s: Step<Snapshot>, m': Monitor<Snapshot>)
    requires RawNext(Ready, m, s, m')
    ensures |m'.pcs| == |m.pcs| && m'.x == if s.Update? then s.x else m.x
    ensures s.Update? ==> m.pcs[s.p].Inside?
    ensures forall i :: 0 <= i < |m.pcs| && i != s.p ==>
      m'.pcs[i] == m.pcs[i] || (m.pcs[i].Asleep? && m'.pcs[i] == Awake)
  {}

  lemma MoverAt(w: World, a: Action, w': World)
    requires PipeInv(w) && w.killed == {} && PipeNext(w, a, w') && !a.Kill?
    ensures At(w'.roles[Proc(a)], w'.m.pcs[Proc(a)], w'.m.x) && 0 <= w'.m.x.avail <= PIPESIZE
  {
    hide Inv, EndsOk, NewlyTrue;
    assert At(w.roles[Proc(a)], w.m.pcs[Proc(a)], w.m.x);
    Debts(w.m.x, a, w.roles[Proc(a)]);
  }

  /** A process that does not move keeps its line; if the state changes under it, it holds no lock
      and its line does not depend on the state. */
  lemma OthersAt(w: World, a: Action, w': World, q: nat)
    requires PipeInv(w) && PipeNext(w, a, w') && !a.Kill? && q < |w.roles| && q != Proc(a)
    requires |w'.m.pcs| == |w.m.pcs|
    ensures At(w'.roles[q], w'.m.pcs[q], w'.m.x)
  {
    hide EndsOk, NewlyTrue, Owed, Dozing;
    var p := Proc(a);
    var s := StepOf(a, w.m.x, w.roles[p]);
    InsideToLeave(w, a, w');
    PcsAfter(w.m, s, w'.m);
    hide RawNext;
    assert At(w.roles[q], w.m.pcs[q], w.m.x);
    if s.Update? {
      assert HoldsLock(w.m.pcs[p]) && !HoldsLock(w.m.pcs[q]);
    }
  }

  lemma RoleStep(w: World, a: Action, w': World)
    requires PipeInv(w) && w.killed == {} && PipeNext(w, a, w') && !a.Kill?
    ensures RolesOk(w') && 0 <= w'.m.x.avail <= PIPESIZE
  {
    hide At, Enabled;
    PcsAfter(w.m, StepOf(a, w.m.x, w.roles[Proc(a)]), w'.m);
    MoverAt(w, a, w');
    forall q | 0 <= q < |w.roles| ensures At(w'.roles[q], w'.m.pcs[q], w'.m.x) {
      if q != Proc(a) { OthersAt(w, a, w', q); }
    }
  }

  /** Calls come in only while the lock is free, so not while an end is being closed. */
  lemma EndsStep(w: World, a: Action, w': World)
    requires PipeInv(w) && PipeNext(w, a, w') && !a.Kill?
    ensures EndsOk(w')
  {
    hide NewlyTrue, Owed, Dozing;
    var p := Proc(a);
    var s := StepOf(a, w.m.x, w.roles[p]);
    InsideToLeave(w, a, w');
    PcsAfter(w.m, s, w'.m);
    assert forall q :: 0 <= q < |w.roles| && q != p ==> w'.roles[q] == w.roles[q];
    if a.CallRead? || a.CallWrite? {
      forall q | 0 <= q < |w.roles| ensures !w.roles[q].Closing? {
        assert At(w.roles[q], w.m.pcs[q], w.m.x);
        assert HoldsLock(w.m.pcs[q]) ==> w.m.lk == Some(q);
        assert w.m.lk == None;
      }
    }
    hide RawNext, At, Inv;
    assert Reads(w'.roles[p]) ==> Reads(w.roles[p]) || a.CallRead?;
    assert Writes(w'.roles[p]) ==> Writes(w.roles[p]) || a.CallWrite?;
    assert w'.roles[p].Closing? ==> w.roles[p] == w'.roles[p] || a.CallClose?;
  }

  lemma PipeStepKeeps(w: World, a: Action, w': World)
    requires PipeInv(w) && PipeNext(w, a, w') && w'.killed == {}
    ensures PipeInv(w') && w.killed == {}
  {
    hide RawNext, Inv, RolesOk, EndsOk, Enabled;
    assert a.Kill? ==> Proc(a) in w'.killed;
    if !a.Kill? {
      KeepsDiscipline(w, a, w');
      StepKeeps(Ready, w.m, StepOf(a, w.m.x, w.roles[Proc(a)]), w'.m);
      RoleStep(w, a, w');
      EndsStep(w, a, w');
    }
  }

  // ---------------------------------------------------------------- runs

  /** A new pipe and processes that do not use it yet. */
  ghost predicate PipeBoot(w: World) {
    && Boot(w.m) && w.m.x == Snapshot(0, true, true) && |w.roles| == |w.m.pcs| && w.killed == {}
    && forall p :: 0 <= p < |w.roles| ==> w.roles[p] == Idle
  }

  ghost predicate PipeRun(states: seq<World>, actions: seq<Action>) {
    && |states| == |actions| + 1 && PipeBoot(states[0])
    && forall n :: 0 <= n < |actions| ==> PipeNext(states[n], actions[n], states[n + 1])
  }

  lemma {:induction false} PipeRunInv(states: seq<World>, actions: seq<Action>, n: nat)
    requires PipeRun(states, actions) && n < |states| && states[n].killed == {}
    ensures PipeInv(states[n])
  {
    if n > 0 {
      assert PipeNext(states[n - 1], actions[n - 1], states[n]);
      assert states[n - 1].killed <= states[n].killed;
      PipeRunInv(states, actions, n - 1);
      PipeStepKeeps(states[n - 1], actions[n - 1], states[n]);
    }
  }

  /** No lost wakeup in pipes. In every run in which nobody has been killed, while the pipe's lock
      is free: a reader sleeps only on an empty pipe with the write end open, and a writer only on
      a full pipe with the read end open. */
  lemma PipeNoLostWakeup(states: seq<World>, actions: seq<Action>, n: nat, p: nat)
    requires PipeRun(states, actions) && n < |states| && states[n].killed == {}
    requires p < |states[n].m.pcs| && states[n].m.lk == None
    ensures |states[n].roles| == |states[n].m.pcs|
    ensures var x := states[n].m.x;
      && (states[n].m.pcs[p] == Asleep(NREAD) ==> states[n].roles[p].Reader? && x.avail == 0 && x.writeopen)
      && (states[n].m.pcs[p] == Asleep(NWRITE) ==> states[n].roles[p].Writer? && x.avail == PIPESIZE && x.readopen)
  {
    PipeRunInv(states, actions, n);
    var w := states[n];
    assert At(w.roles[p], w.m.pcs[p], w.m.x);
    assert forall c :: c == NREAD || c == NWRITE ==> Sleeper(Asleep(c), c);
    assert Reads(w.roles[p]) ==> w.m.x.readopen;
  }

  // ---------------------------------------------------------------- a killed writer

  /** Reader 0 sleeps on the pipe, and killed writer 1 has stored k of its PIPESIZE + 1 bytes. */
  function Filling(k: nat): World
    requires k <= PIPESIZE
  {
    World(Monitor(Snapshot(k, true, true), [Asleep(NREAD), Inside(if k == 0 then {} else {NREAD})], Some(1), None),
          [Reader(1), Writer(PIPESIZE + 1 - k)], {1})
  }

  lemma FillStep(k: nat)
    requires k < PIPESIZE
    ensures PipeNext(Filling(k), PutByte(1), Filling(k + 1))
  {
    var x := Snapshot(k, true, true);
    var owed := NewlyTrue(Ready, x, x.(avail := k + 1));
    assert owed == if k == 0 then {NREAD} else {};
    assert Filling(k).m.pcs[1].debt + owed == {NREAD};
    assert Filling(k).m.pcs[1 := Inside({NREAD})] == Filling(k + 1).m.pcs;
    assert Filling(k).roles[1 := Writer(PIPESIZE + 1 - (k + 1))] == Filling(k + 1).roles;
  }

  /** The states up to the write: the reader goes to sleep, and the writer is killed. */
  function Early(n: nat): World {
    var x := Snapshot(0, true, true);
    match n
    case 0 => World(Monitor(x, [Outside, Outside], None, None), [Idle, Idle], {})
    case 1 => World(Monitor(x, [Inside({}), Outside], Some(0), None), [Reader(1), Idle], {})
    case 2 => World(Monitor(x, [FallingAsleep(NREAD), Outside], Some(0), None), [Reader(1), Idle], {})
    case 3 => World(Monitor(x, [Handover(NREAD), Outside], Some(0), Some(0)), [Reader(1), Idle], {})
    case 4 => World(Monitor(x, [Committed(NREAD), Outside], None, Some(0)), [Reader(1), Idle], {})
    case 5 => World(Monitor(x, [Asleep(NREAD), Outside], None, None), [Reader(1), Idle], {})
    case 6 => World(Monitor(x, [Asleep(NREAD), Outside], None, None), [Reader(1), Idle], {1})
    case _ => Filling(0)
  }

  function EarlyAction(n: nat): Action {
    match n
    case 0 => CallRead(0, 1)
    case 1 => SleepEmpty(0)
    case 2 => Inner(TakeTableLock(0))
    case 3 => Inner(DropLock(0))
    case 4 => Inner(Slumber(0))
    case 5 => Kill(1)
    case _ => CallWrite(1, PIPESIZE + 1)
  }

  lemma EarlyStep(n: nat)
    requires n < 7
    ensures PipeNext(Early(n), EarlyAction(n), Early(n + 1))
  {
    var w, w' := Early(n), Early(n + 1);
    assert n < 5 ==> w.m.pcs[0 := w'.m.pcs[0]] == w'.m.pcs && w.roles[0 := Reader(1)] == w'.roles;
    assert n == 5 ==> w.roles[1 := Idle] == w'.roles && {} + {1} == w'.killed;
    assert n == 6 ==> w.m.pcs[1 := Inside({})] == w'.m.pcs && w.roles[1 := Writer(PIPESIZE + 1)] == w'.roles;
  }

  lemma Opening() returns (states: seq<World>, actions: seq<Action>)
    ensures |states| == |actions| + 1 && PipeBoot(states[0]) && states[|actions|] == Filling(0)
    ensures forall n :: 0 <= n < |actions| ==> PipeNext(states[n], actions[n], states[n + 1])
  {
    assert PipeBoot(Early(0)) && Early(7) == Filling(0);
    hide PipeNext, Filling, Early, EarlyAction;
    states := seq(8, n requires 0 <= n < 8 => Early(n));
    actions := seq(7, n requires 0 <= n < 7 => EarlyAction(n));
    forall n | 0 <= n < 7 ensures PipeNext(states[n], actions[n], states[n + 1]) { EarlyStep(n); }
  }

  /** Kills do lose wakeups: in this run a killed process writes one byte more than fits into an
      empty pipe, gives up, and leaves a reader asleep on a full pipe with nobody to wake it. */
  lemma KilledWriterLosesWakeup() returns (states: seq<World>, actions: seq<Action>)
    ensures PipeRun(states, actions)
    ensures var w := states[|actions|];
      && w.killed == {1} && w.m.lk == None && w.m.x == Snapshot(PIPESIZE, true, true)
      && w.m.pcs == [Asleep(NREAD), Outside] && w.roles == [Reader(1), Idle]
  {
    var front, acts := Opening();
    var fill := seq(PIPESIZE + 1, k requires 0 <= k <= PIPESIZE => Filling(k));
    var end := World(Monitor(Snapshot(PIPESIZE, true, true), [Asleep(NREAD), Outside], None, None),
                     [Reader(1), Idle], {1});
    states := front[..|acts|] + fill + [end];
    actions := acts + seq(PIPESIZE, _ => PutByte(1)) + [GiveUp(1)];
    assert PipeNext(Filling(PIPESIZE), GiveUp(1), end);
    hide PipeNext, Filling;
    forall n | 0 <= n < |actions| ensures PipeNext(states[n], actions[n], states[n + 1]) {
      if n < |acts| {
        assert states[n] == front[n] && states[n + 1] == front[n + 1];
      } else if n < |acts| + PIPESIZE {
        FillStep(n - |acts|);
      }
    }
  }

  // ---------------------------------------------------------------- sections

  ghost predicate PipePath(states: seq<World>, actions: seq<Action>) {
    && |states| == |actions| + 1
    && forall n :: 0 <= n < |actions| ==> PipeNext(states[n], actions[n], states[n + 1])
  }

  ghost function Last(states: seq<World>): World
    requires states != []
  {
    states[|states| - 1]
  }

  /** p holds the pipe's lock at line r, and x is the state of the pipe. */
  ghost predicate InSection(w: World, p: nat, r: Role, x: Snapshot) {
    p < |w.roles| == |w.m.pcs| && w.roles[p] == r && w.m.pcs[p].Inside? && w.m.x == x
  }

  /** The world after an action that updates the pipe, begins a wakeup or releases the lock. */
  ghost function Done(w: World, a: Action): World
    requires Proc(a) < |w.roles| == |w.m.pcs| && w.m.pcs[Proc(a)].Inside?
  {
    var p, r := Proc(a), w.roles[Proc(a)];
    var roles := w.roles[p := RoleAfter(a, r)];
    match StepOf(a, w.m.x, r)
    case Update(_, x) =>
      w.(roles := roles, m := w.m.(x := x, pcs := w.m.pcs[p := Inside(w.m.pcs[p].debt + NewlyTrue(Ready, w.m.x, x))]))
    case BeginWakeup(_, c) => w.(roles := roles, m := w.m.(pcs := w.m.pcs[p := Waking(c, w.m.pcs[p].debt)]))
    case Release(_) => w.(roles := roles, m := w.m.(lk := None, pcs := w.m.pcs[p := Outside]))
    case _ => w
  }

  lemma DoneIsNext(w: World, a: Action)
    requires Proc(a) < |w.roles| == |w.m.pcs| && w.m.pcs[Proc(a)].Inside? && Enabled(w, a)
    requires !a.Kill? && !a.Inner?
    requires var s := StepOf(a, w.m.x, w.roles[Proc(a)]); s.Update? || s.BeginWakeup? || s.Release?
    ensures PipeNext(w, a, Done(w, a))
  {}

  /** One more action on a path. */
  lemma Goes(states: seq<World>, actions: seq<Action>, a: Action)
    requires PipePath(states, actions)
    requires var w := Last(states);
      && Proc(a) < |w.roles| == |w.m.pcs| && w.m.pcs[Proc(a)].Inside? && Enabled(w, a) && !a.Kill? && !a.Inner?
      && var s := StepOf(a, w.m.x, w.roles[Proc(a)]); s.Update? || s.BeginWakeup? || s.Release?
    ensures var w' := Done(Last(states), a);
      PipePath(states + [w'], actions + [a]) && Last(states + [w']) == w' && PipeNext(Last(states), a, w')
  {
    var w' := Done(Last(states), a);
    var ss, aa := states + [w'], actions + [a];
    DoneIsNext(Last(states), a);
    hide PipeNext, Enabled, Done;
    forall n | 0 <= n < |aa| ensures PipeNext(ss[n], aa[n], ss[n + 1]) {
      if n < |actions| { assert PipeNext(states[n], actions[n], states[n + 1]); }
    }
  }
}
