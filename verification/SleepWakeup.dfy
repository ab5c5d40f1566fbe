/** sleep and wakeup of proc.c under a condition lock, for any number of processes, any shared
    state and any finite set of channels.

    Each step is one lock acquisition, one release or one update made while holding the
    condition lock `lk`; `pt` is ptable.lock. A process that has made a channel's condition true
    and has not called wakeup on it yet is in debt for that channel. */
module SleepWakeup {
  import opened Common

  datatype Pc =
    | Outside
    | Inside(debt: set<int>)               // holds lk
    | Waking(chan: int, debt: set<int>)    // holds lk, in wakeup, about to take ptable.lock
    | FallingAsleep(chan: int)             // holds lk, in sleep, about to take ptable.lock
    | Handover(chan: int)                  // holds both, about to release lk
    | Committed(chan: int)                 // holds ptable.lock, about to set SLEEPING
    | Asleep(chan: int)
    | Awake                                // made RUNNABLE, about to take lk again

  datatype Monitor<X> = Monitor(x: X, pcs: seq<Pc>, lk: Option<nat>, pt: Option<nat>)

  /** The channels of interest and when each one's condition holds. */
  datatype Conditions<!X> = Conditions(chans: set<int>, holds: (X, int) -> bool)

  datatype Step<X> =
    | Acquire(p: nat)
    | Update(p: nat, x: X)
    | BeginWakeup(p: nat, c: int)
    | FinishWakeup(p: nat)
    | Release(p: nat)
    | BeginSleep(p: nat, c: int)
    | TakeTableLock(p: nat)
    | DropLock(p: nat)
    | Slumber(p: nat)
    | KilledAwake(p: nat)

  /** What wakeup1(c) does to a process. */
  function Roused(pc: Pc, c: int): Pc {
    if pc == Asleep(c) then Awake else pc
  }

  function NewlyTrue<X>(C: Conditions<X>, x: X, x': X): set<int> {
    set c | c in C.chans && C.holds(x', c) && !C.holds(x, c)
  }

  /** One step of any client, whatever it still owes. */
  ghost predicate RawNext<X>(C: Conditions<X>, m: Monitor<X>, s: Step<X>, m': Monitor<X>) {
    var p := s.p;
    && p < |m.pcs|
    && var pc := m.pcs[p];
       match s
       case Acquire(_) =>
         (pc.Outside? || pc.Awake?) && m.lk == None && m' == m.(lk := Some(p), pcs := m.pcs[p := Inside({})])
       case Update(_, x) =>
         pc.Inside? && m' == m.(x := x, pcs := m.pcs[p := Inside(pc.debt + NewlyTrue(C, m.x, x))])
       case BeginWakeup(_, c) =>
         pc.Inside? && m' == m.(pcs := m.pcs[p := Waking(c, pc.debt)])
       case FinishWakeup(_) =>
         && pc.Waking? && m.pt == None
         && |m'.pcs| == |m.pcs| && m' == m.(pcs := m'.pcs) && m'.pcs[p] == Inside(pc.debt - {pc.chan})
         && forall i :: 0 <= i < |m.pcs| && i != p ==> m'.pcs[i] == Roused(m.pcs[i], pc.chan)
       case Release(_) =>
         pc.Inside? && m' == m.(lk := None, pcs := m.pcs[p := Outside])
       case BeginSleep(_, c) =>
         pc.Inside? && m' == m.(pcs := m.pcs[p := FallingAsleep(c)])
       case TakeTableLock(_) =>
         pc.FallingAsleep? && m.pt == None && m' == m.(pt := Some(p), pcs := m.pcs[p := Handover(pc.chan)])
       case DropLock(_) =>
         pc.Handover? && m' == m.(lk := None, pcs := m.pcs[p := Committed(pc.chan)])
       case Slumber(_) =>
         pc.Committed? && m' == m.(pt := None, pcs := m.pcs[p := Asleep(pc.chan)])
       case KilledAwake(_) =>
         pc.Asleep? && m.pt == None && m' == m.(pcs := m.pcs[p := Awake])
  }

  /** What sleep and wakeup ask of their clients: no lock is given up with a wakeup still owed, and
      nobody goes to sleep on a condition that holds. */
  ghost predicate Disciplined<X>(C: Conditions<X>, m: Monitor<X>, s: Step<X>) {
    s.p < |m.pcs| &&
    match s
    case Release(p) => m.pcs[p] == Inside({})
    case BeginSleep(p, c) => m.pcs[p] == Inside({}) && c in C.chans && !C.holds(m.x, c)
    case _ => true
  }

  ghost predicate Next<X>(C: Conditions<X>, m: Monitor<X>, s: Step<X>, m': Monitor<X>) {
    RawNext(C, m, s, m') && Disciplined(C, m, s)
  }

  predicate HoldsLock(pc: Pc) {
    pc.Inside? || pc.Waking? || pc.FallingAsleep? || pc.Handover?
  }

  predicate HoldsTable(pc: Pc) {
    pc.Handover? || pc.Committed?
  }

  /** On its way into or in SLEEPING on c, with lk already released. */
  predicate Sleeper(pc: Pc, c: int) {
    pc == Asleep(c) || pc == Committed(c)
  }

  predicate Owes(pc: Pc, c: int) {
    (pc.Inside? || pc.Waking?) && c in pc.debt
  }

  ghost predicate Locks<X>(m: Monitor<X>) {
    && (forall p :: 0 <= p < |m.pcs| ==> (HoldsLock(m.pcs[p]) <==> m.lk == Some(p)))
    && (forall p :: 0 <= p < |m.pcs| ==> (HoldsTable(m.pcs[p]) <==> m.pt == Some(p)))
    && (m.lk.Some? ==> m.lk.value < |m.pcs|) && (m.pt.Some? ==> m.pt.value < |m.pcs|)
  }

  /** A sleeper whose condition holds is owed a wakeup by the holder of the lock. */
  ghost predicate Owed<X>(C: Conditions<X>, m: Monitor<X>) {
    forall p, c :: 0 <= p < |m.pcs| && c in C.chans && Sleeper(m.pcs[p], c) && C.holds(m.x, c) ==>
      m.lk.Some? && m.lk.value < |m.pcs| && Owes(m.pcs[m.lk.value], c)
  }

  ghost predicate Dozing<X>(C: Conditions<X>, m: Monitor<X>) {
    forall p :: 0 <= p < |m.pcs| && (m.pcs[p].FallingAsleep? || m.pcs[p].Handover?) ==>
      m.pcs[p].chan in C.chans && !C.holds(m.x, m.pcs[p].chan)
  }

  ghost predicate Inv<X>(C: Conditions<X>, m: Monitor<X>) {
    Locks(m) && Owed(C, m) && Dozing(C, m)
  }

  ghost predicate Boot<X>(m: Monitor<X>) {
    m.lk == None && m.pt == None && forall p :: 0 <= p < |m.pcs| ==> m.pcs[p] == Outside
  }

  lemma LocksKeep<X>(C: Conditions<X>, m: Monitor<X>, s: Step<X>, m': Monitor<X>)
    requires Locks(m) && Next(C, m, s, m')
    ensures Locks(m') && |m'.pcs| == |m.pcs|
  {
    assert |m'.pcs| == |m.pcs|;
    forall q | 0 <= q < |m'.pcs|
      ensures HoldsLock(m'.pcs[q]) <==> m'.lk == Some(q)
      ensures HoldsTable(m'.pcs[q]) <==> m'.pt == Some(q)
    {
      assert HoldsLock(m.pcs[q]) <==> m.lk == Some(q);
      assert HoldsTable(m.pcs[q]) <==> m.pt == Some(q);
    }
  }

  lemma OwedKeep<X>(C: Conditions<X>, m: Monitor<X>, s: Step<X>, m': Monitor<X>, q: nat, c: int)
    requires Inv(C, m) && Next(C, m, s, m') && Locks(m') && |m'.pcs| == |m.pcs|
    requires q < |m.pcs| && c in C.chans && Sleeper(m'.pcs[q], c) && C.holds(m'.x, c)
    ensures m'.lk.Some? && m'.lk.value < |m'.pcs| && Owes(m'.pcs[m'.lk.value], c)
  {
    if s.DropLock? && q == s.p {
      assert false;
    } else {
      assert Sleeper(m.pcs[q], c);
      if C.holds(m.x, c) { assert Owes(m.pcs[m.lk.value], c); }
    }
  }

  lemma DozingKeep<X>(C: Conditions<X>, m: Monitor<X>, s: Step<X>, m': Monitor<X>)
    requires Locks(m) && Dozing(C, m) && Next(C, m, s, m')
    ensures Dozing(C, m')
  {}

  lemma StepKeeps<X>(C: Conditions<X>, m: Monitor<X>, s: Step<X>, m': Monitor<X>)
    requires Inv(C, m) && Next(C, m, s, m')
    ensures Inv(C, m')
  {
    hide Next, Locks, Dozing;
    LocksKeep(C, m, s, m');
    DozingKeep(C, m, s, m');
    forall q, c | 0 <= q < |m'.pcs| && c in C.chans && Sleeper(m'.pcs[q], c) && C.holds(m'.x, c)
      ensures m'.lk.Some? && m'.lk.value < |m'.pcs| && Owes(m'.pcs[m'.lk.value], c)
    {
      OwedKeep(C, m, s, m', q, c);
    }
  }

  ghost predicate IsRun<X>(C: Conditions<X>, states: seq<Monitor<X>>, steps: seq<Step<X>>) {
    && |states| == |steps| + 1 && Boot(states[0])
    && forall n :: 0 <= n < |steps| ==> Next(C, states[n], steps[n], states[n + 1])
  }

  lemma {:induction false} RunInv<X>(C: Conditions<X>, states: seq<Monitor<X>>, steps: seq<Step<X>>, n: nat)
    requires IsRun(C, states, steps) && n < |states|
    ensures Inv(C, states[n])
  {
    if n > 0 {
      RunInv(C, states, steps, n - 1);
      StepKeeps(C, states[n - 1], steps[n - 1], states[n]);
    }
  }

  /** No lost wakeup. In every reachable state a process asleep on c whose condition holds is
      owed a wakeup by the one process inside the lock; so while the lock is free, whoever
      sleeps has a false condition. */
  lemma NoLostWakeup<X>(C: Conditions<X>, states: seq<Monitor<X>>, steps: seq<Step<X>>, n: nat, p: nat, c: int)
    requires IsRun(C, states, steps) && n < |states| && p < |states[n].pcs|
    requires c in C.chans && states[n].pcs[p] == Asleep(c) && C.holds(states[n].x, c)
    ensures var m := states[n]; m.lk.Some? && m.lk.value < |m.pcs| && Owes(m.pcs[m.lk.value], c)
  {
    RunInv(C, states, steps, n);
    assert Sleeper(states[n].pcs[p], c);
  }

  /** The owed wakeup is never blocked for good: if the debtor waits for ptable.lock, that lock
      is free or its holder's next step sets it free. */
  lemma WakeupNotBlocked<X>(C: Conditions<X>, m: Monitor<X>, h: nat)
    requires Inv(C, m) && h < |m.pcs| && m.pcs[h].Waking?
    ensures m.pt == None || (m.pt.value < |m.pcs| && m.pcs[m.pt.value].Committed?)
  {}

  function Covered(cs: seq<int>): set<int> {
    set c | c in cs
  }

  ghost predicate Path<X>(C: Conditions<X>, states: seq<Monitor<X>>, steps: seq<Step<X>>) {
    && |states| == |steps| + 1
    && forall n :: 0 <= n < |steps| ==> Next(C, states[n], steps[n], states[n + 1])
  }

  /** From Inside(debt), with ptable.lock free, the wakeups cs lead step by step to Inside({}). */
  lemma {:induction false} WakeAll<X>(C: Conditions<X>, m: Monitor<X>, p: nat, cs: seq<int>)
    returns (states: seq<Monitor<X>>, steps: seq<Step<X>>)
    requires p < |m.pcs| && m.pcs[p].Inside? && m.pt == None && m.pcs[p].debt <= Covered(cs)
    ensures Path(C, states, steps) && states[0] == m && forall n :: 0 <= n < |steps| ==> steps[n].p == p
    ensures var last := states[|steps|]; last.x == m.x && |last.pcs| == |m.pcs| && last.pcs[p] == Inside({})
    decreases |cs|
  {
    if cs == [] {
      states, steps := [m], [];
    } else {
      var c := cs[0];
      var m1 := m.(pcs := m.pcs[p := Waking(c, m.pcs[p].debt)]);
      var m2 := m1.(pcs := seq(|m1.pcs|, i requires 0 <= i < |m1.pcs| =>
                                 if i == p then Inside(m.pcs[p].debt - {c}) else Roused(m1.pcs[i], c)));
      var rest, more := WakeAll(C, m2, p, cs[1..]);
      states, steps := [m, m1] + rest, [BeginWakeup(p, c), FinishWakeup(p)] + more;
      assert Next(C, m, steps[0], m1) && Next(C, m1, steps[1], m2);
      forall n | 0 <= n < |steps| ensures Next(C, states[n], steps[n], states[n + 1]) && steps[n].p == p {
        if n >= 2 { assert Next(C, rest[n - 2], more[n - 2], rest[n - 1]); }
      }
    }
  }

  /** The holder of the condition lock can always pay what it owes: in every state of the
      invariant its wakeups on cs lead to Inside({}), where it may release the lock or go to sleep.
      At most one step of another process comes first, the one that sets ptable.lock free. */
  lemma PayDebts<X>(C: Conditions<X>, m: Monitor<X>, p: nat, cs: seq<int>)
    returns (states: seq<Monitor<X>>, steps: seq<Step<X>>)
    requires Inv(C, m) && p < |m.pcs| && m.pcs[p].Inside? && m.pcs[p].debt <= Covered(cs)
    ensures Path(C, states, steps) && states[0] == m
    ensures forall n :: 0 <= n < |steps| ==> steps[n].p == p || (n == 0 && steps[n].Slumber?)
    ensures var last := states[|steps|]; last.x == m.x && |last.pcs| == |m.pcs| && last.pcs[p] == Inside({})
  {
    if m.pt == None {
      states, steps := WakeAll(C, m, p, cs);
    } else {
      var q := m.pt.value;
      assert HoldsTable(m.pcs[q]) && m.pcs[q].Committed?;
      var m1 := m.(pt := None, pcs := m.pcs[q := Asleep(m.pcs[q].chan)]);
      var rest, more := WakeAll(C, m1, p, cs);
      states, steps := [m] + rest, [Slumber(q)] + more;
      assert Next(C, m, Slumber(q), m1);
      forall n | 0 <= n < |steps| ensures Next(C, states[n], steps[n], states[n + 1]) {
        if n >= 1 { assert Next(C, rest[n - 1], more[n - 1], rest[n]); }
      }
    }
  }
}
