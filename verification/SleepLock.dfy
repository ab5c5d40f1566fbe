/** acquiresleep and releasesleep of sleeplock.c as clients of sleep and wakeup.

    The shared state is the lock's `locked` word, guarded by its spinlock; the one channel is the
    lock's address. Any number of processes run the two functions line by line; a process calls
    releasesleep only when its acquiresleep has returned. */
module SleepLock {
  import opened Common
  import opened SleepWakeup

  const LOCK := 0

  /** Sleepers wait for `locked` to be clear. */
  const Unlocked: Conditions<bool> := Conditions({LOCK}, (locked: bool, c: int) => !locked)

  /** Where a process stands in the two functions. */
  datatype Role =
    | Idle
    | Acquiring   // in the while loop of acquiresleep, awake or asleep
    | Taken       // has set locked, holds the spinlock
    | Holding     // acquiresleep has returned
    | Releasing   // in releasesleep with the spinlock
    | Cleared     // has cleared locked
    | Signalled   // has called wakeup

  datatype World = World(m: Monitor<bool>, roles: seq<Role>)

  datatype Action =
    | CallAcquire(p: nat)     // acquire(&lk->lk) in acquiresleep
    | Recheck(p: nat)         // back from sleep with the spinlock again
    | SeeLocked(p: nat)       // while(lk->locked) sleep(lk, &lk->lk)
    | Take(p: nat)            // lk->locked = 1
    | ReturnAcquired(p: nat)  // release(&lk->lk) in acquiresleep
    | CallRelease(p: nat)     // acquire(&lk->lk) in releasesleep
    | Clear(p: nat)           // lk->locked = 0
    | CallWakeup(p: nat)      // wakeup(lk)
    | ReturnReleased(p: nat)  // release(&lk->lk) in releasesleep
    | Inner(s: Step<bool>)    // a step inside sleep, wakeup or kill

  function StepOf(a: Action): Step<bool> {
    match a
    case CallAcquire(p) => Acquire(p)
    case Recheck(p) => Acquire(p)
    case SeeLocked(p) => BeginSleep(p, LOCK)
    case Take(p) => Update(p, true)
    case ReturnAcquired(p) => Release(p)
    case CallRelease(p) => Acquire(p)
    case Clear(p) => Update(p, false)
    case CallWakeup(p) => BeginWakeup(p, LOCK)
    case ReturnReleased(p) => Release(p)
    case Inner(s) => s
  }

  /** The line a process must be at, and what it must find, to take the action. */
  predicate Enabled(a: Action, r: Role, locked: bool) {
    match a
    case CallAcquire(_) => r == Idle
    case Recheck(_) => r == Acquiring
    case SeeLocked(_) => r == Acquiring && locked
    case Take(_) => r == Acquiring && !locked
    case ReturnAcquired(_) => r == Taken
    case CallRelease(_) => r == Holding
    case Clear(_) => r == Releasing
    case CallWakeup(_) => r == Cleared
    case ReturnReleased(_) => r == Signalled
    case Inner(s) => s.FinishWakeup? || s.TakeTableLock? || s.DropLock? || s.Slumber? || s.KilledAwake?
  }

  function RoleAfter(a: Action, r: Role): Role {
    match a
    case CallAcquire(_) => Acquiring
    case Take(_) => Taken
    case ReturnAcquired(_) => Holding
    case CallRelease(_) => Releasing
    case Clear(_) => Cleared
    case CallWakeup(_) => Signalled
    case ReturnReleased(_) => Idle
    case _ => r
  }

  /** One action. Nothing here keeps a process from releasing the spinlock with a wakeup owed. */
  ghost predicate LockNext(w: World, a: Action, w': World) {
    var s := StepOf(a);
    && s.p < |w.roles| == |w.m.pcs| && Enabled(a, w.roles[s.p], w.m.x)
    && RawNext(Unlocked, w.m, s, w'.m)
    && w'.roles == w.roles[s.p := RoleAfter(a, w.roles[s.p])]
  }

  predicate Owns(r: Role) {
    r == Taken || r == Holding || r == Releasing
  }

  /** `locked` is set exactly while one process owns the lock, and never more than one does. */
  ghost predicate OneOwner(w: World) {
    && (forall p, q :: 0 <= p < q < |w.roles| ==> !(Owns(w.roles[p]) && Owns(w.roles[q])))
    && (w.m.x <==> exists p :: 0 <= p < |w.roles| && Owns(w.roles[p]))
  }

  /** What each line knows of the locks it holds and the wakeups it owes. */
  predicate At(r: Role, pc: Pc) {
    match r
    case Idle => pc == Outside
    case Acquiring =>
      pc == Inside({}) || pc == Awake || pc in {FallingAsleep(LOCK), Handover(LOCK), Committed(LOCK), Asleep(LOCK)}
    case Taken => pc == Inside({})
    case Holding => pc == Outside
    case Releasing => pc == Inside({})
    case Cleared => pc.Inside? && pc.debt <= {LOCK}
    case Signalled => pc == Inside({}) || (pc.Waking? && pc.chan == LOCK && pc.debt <= {LOCK})
  }

  ghost predicate RolesOk(w: World) {
    |w.roles| == |w.m.pcs| && forall p :: 0 <= p < |w.roles| ==> At(w.roles[p], w.m.pcs[p])
  }

  ghost predicate LockInv(w: World) {
    Inv(Unlocked, w.m) && RolesOk(w) && OneOwner(w)
  }

  /** The two functions keep the discipline by the order of their lines: acquiresleep sleeps only
      after seeing `locked` set, and releasesleep calls wakeup between clearing it and letting go
      of the spinlock. */
  lemma KeepsDiscipline(w: World, a: Action, w': World)
    requires LockInv(w) && LockNext(w, a, w')
    ensures Next(Unlocked, w.m, StepOf(a), w'.m)
  {
    hide Inv, OneOwner, RawNext;
    var p := StepOf(a).p;
    assert At(w.roles[p], w.m.pcs[p]);
    assert StepOf(a).Release? || StepOf(a).BeginSleep? ==> w.m.pcs[p].Inside? by { InsideToLeave(w, a, w'); }
  }

  lemma InsideToLeave(w: World, a: Action, w': World)
    requires LockNext(w, a, w')
    ensures StepOf(a).Release? || StepOf(a).BeginSleep? ==> w.m.pcs[StepOf(a).p].Inside?
  {}

  /** Program counters after one step. */
  lemma PcsAfter(m: Monitor<bool>, s: Step<bool>, m': Monitor<bool>)
    requires RawNext(Unlocked, m, s, m')
    ensures |m'.pcs| == |m.pcs| && m'.x == if s.Update? then s.x else m.x
    ensures forall i :: 0 <= i < |m.pcs| && i != s.p ==>
      m'.pcs[i] == m.pcs[i] || (m.pcs[i].Asleep? && m'.pcs[i] == Awake)
  {}

  lemma RoleStep(w: World, a: Action, w': World)
    requires LockInv(w) && LockNext(w, a, w')
    ensures RolesOk(w')
  {
    hide Inv, OneOwner;
    var s := StepOf(a);
    PcsAfter(w.m, s, w'.m);
    assert At(w.roles[s.p], w.m.pcs[s.p]);
    assert At(w'.roles[s.p], w'.m.pcs[s.p]);
    hide RawNext;
    forall p | 0 <= p < |w.roles| ensures At(w'.roles[p], w'.m.pcs[p]) {
      assert At(w.roles[p], w.m.pcs[p]);
    }
  }

  lemma OwnerStep(w: World, a: Action, w': World)
    requires LockInv(w) && LockNext(w, a, w')
    ensures OneOwner(w')
  {
    hide Inv, RawNext, RolesOk;
    var p := StepOf(a).p;
    assert w'.m.x == if StepOf(a).Update? then StepOf(a).x else w.m.x by { PcsAfter(w.m, StepOf(a), w'.m); }
    assert forall q :: 0 <= q < |w.roles| && q != p ==> w'.roles[q] == w.roles[q];
    assert Owns(w'.roles[p]) <==> (if a.Take? then true else if a.Clear? then false else Owns(w.roles[p]));
    if !w'.m.x && !a.Clear? {
      assert forall q :: 0 <= q < |w.roles| ==> !Owns(w.roles[q]);
    }
  }

  lemma LockStepKeeps(w: World, a: Action, w': World)
    requires LockInv(w) && LockNext(w, a, w')
    ensures LockInv(w')
  {
    KeepsDiscipline(w, a, w');
    StepKeeps(Unlocked, w.m, StepOf(a), w'.m);
    RoleStep(w, a, w');
    OwnerStep(w, a, w');
  }

  ghost predicate LockBoot(w: World) {
    && Boot(w.m) && !w.m.x && |w.roles| == |w.m.pcs|
    && forall p :: 0 <= p < |w.roles| ==> w.roles[p] == Idle
  }

  ghost predicate LockPath(states: seq<World>, actions: seq<Action>) {
    && |states| == |actions| + 1
    && forall n :: 0 <= n < |actions| ==> LockNext(states[n], actions[n], states[n + 1])
  }

  lemma {:induction false} LockRunInv(states: seq<World>, actions: seq<Action>, n: nat)
    requires LockPath(states, actions) && LockBoot(states[0]) && n < |states|
    ensures LockInv(states[n])
  {
    if n > 0 {
      LockRunInv(states, actions, n - 1);
      LockStepKeeps(states[n - 1], actions[n - 1], states[n]);
    }
  }

  /** Mutual exclusion, and no process left asleep on a free lock: if one sleeps while the lock
      is free, whoever freed it is still inside releasesleep and has the wakeup ahead of it. */
  lemma SleepLockSafety(states: seq<World>, actions: seq<Action>, n: nat, p: nat, q: nat)
    requires LockPath(states, actions) && LockBoot(states[0]) && n < |states|
    requires p < |states[n].roles| && q < |states[n].roles| && p != q
    ensures !(states[n].roles[p] == Holding && states[n].roles[q] == Holding)
    ensures |states[n].roles| == |states[n].m.pcs|
    ensures var m := states[n].m;
      m.pcs[p] == Asleep(LOCK) && !m.x ==> m.lk.Some? && m.lk.value < |m.pcs| && Owes(m.pcs[m.lk.value], LOCK)
  {
    LockRunInv(states, actions, n);
    assert Sleeper(Asleep(LOCK), LOCK);
  }

  // ---------------------------------------------------------------- progress

  /** How far a process is from the point where only somebody's taking the lock can move it on. */
  function Weight(r: Role, pc: Pc): nat {
    match r
    case Idle => 2
    case Acquiring =>
      if pc.FallingAsleep? then 6
      else if pc.Handover? then 5
      else if pc.Committed? then 4
      else if pc.Asleep? then 3
      else if pc.Awake? then 2
      else 1
    case Cleared => 5
    case Signalled => if pc.Waking? then 4 else 3
    case _ => 0
  }

  /** The weights of the first n processes. */
  function Rank(w: World, n: nat): (r: nat)
    requires n <= |w.roles| == |w.m.pcs|
    ensures r <= 6 * n
  {
    if n == 0 then 0 else Rank(w, n - 1) + Weight(w.roles[n - 1], w.m.pcs[n - 1])
  }

  lemma {:induction false} RankFalls(w: World, w': World, n: nat, p: nat)
    requires n <= |w.roles| == |w.m.pcs| == |w'.roles| == |w'.m.pcs|
    requires forall i :: 0 <= i < n ==> Weight(w'.roles[i], w'.m.pcs[i]) <= Weight(w.roles[i], w.m.pcs[i])
    requires p < |w.roles| && Weight(w'.roles[p], w'.m.pcs[p]) < Weight(w.roles[p], w.m.pcs[p])
    ensures if p < n then Rank(w', n) < Rank(w, n) else Rank(w', n) <= Rank(w, n)
  {
    if n > 0 {
      RankFalls(w, w', n - 1, p);
    }
  }

  /** While the lock is free every action but taking it lightens its process. */
  lemma Lighter(w: World, a: Action, w': World)
    requires LockInv(w) && LockNext(w, a, w') && !w.m.x && !a.Take?
    ensures !w'.m.x
    ensures var p := StepOf(a).p; Weight(w'.roles[p], w'.m.pcs[p]) < Weight(w.roles[p], w.m.pcs[p])
  {
    hide Inv;
    var p := StepOf(a).p;
    assert At(w.roles[p], w.m.pcs[p]);
    assert !Owns(w.roles[p]);
  }

  /** ... and nobody else gets heavier. */
  lemma FreeStep(w: World, a: Action, w': World)
    requires LockInv(w) && LockNext(w, a, w') && !w.m.x && !a.Take?
    ensures !w'.m.x && |w'.roles| == |w.roles| == |w.m.pcs| == |w'.m.pcs|
    ensures Rank(w', |w.roles|) < Rank(w, |w.roles|)
  {
    hide LockInv, RawNext;
    Lighter(w, a, w');
    PcsAfter(w.m, StepOf(a), w'.m);
    RankFalls(w, w', |w.roles|, StepOf(a).p);
  }

  /** The states of a run, up to its first taking of the lock, sink by one step at a time. */
  lemma {:induction false} Sinking(states: seq<World>, actions: seq<Action>, n: nat)
    requires LockPath(states, actions) && LockInv(states[0]) && !states[0].m.x && n < |states|
    requires forall k :: 0 <= k < n ==> !actions[k].Take?
    ensures LockInv(states[n]) && !states[n].m.x && |states[n].roles| == |states[n].m.pcs| == |states[0].roles|
    ensures |states[0].roles| == |states[0].m.pcs|
    ensures Rank(states[n], |states[0].roles|) + n <= Rank(states[0], |states[0].roles|)
  {
    if n > 0 {
      Sinking(states, actions, n - 1);
      assert LockNext(states[n - 1], actions[n - 1], states[n]);
      hide LockNext;
      LockStepKeeps(states[n - 1], actions[n - 1], states[n]);
      FreeStep(states[n - 1], actions[n - 1], states[n]);
    }
  }

  /** No livelock. In every run that starts with the lock free somebody takes it within six steps
      a process, whoever moves, whoever is killed and however many call acquiresleep meanwhile. */
  lemma FreeLockIsTaken(states: seq<World>, actions: seq<Action>)
    requires LockPath(states, actions) && LockInv(states[0]) && !states[0].m.x
    requires |actions| > 6 * |states[0].roles|
    ensures exists n :: 0 <= n <= 6 * |states[0].roles| && actions[n].Take?
  {
    hide LockInv, LockNext;
    var n := 6 * |states[0].roles| + 1;
    if forall k :: 0 <= k < n ==> !actions[k].Take? {
      Sinking(states, actions, n);
      assert false;
    }
  }

  lemma DoRecheck(v: World, p: nat) returns (v1: World)
    requires LockInv(v) && !v.m.x && v.m.lk == None && p < |v.roles| && v.roles[p] == Acquiring
    ensures LockNext(v, Recheck(p), v1)
  {
    hide OneOwner;
    assert At(v.roles[p], v.m.pcs[p]);
    assert !Sleeper(v.m.pcs[p], LOCK);
    assert !HoldsLock(v.m.pcs[p]);
    v1 := World(v.m.(lk := Some(p), pcs := v.m.pcs[p := Inside({})]), v.roles[p := Acquiring]);
  }

  /** One action of releasesleep behind the clearing of `locked`, or the one action of another
      process that sets ptable.lock free for it. */
  lemma Follows(v: World, h: nat) returns (a: Action, v': World)
    requires LockInv(v) && h < |v.roles| && !v.m.x && (v.roles[h] == Cleared || v.roles[h] == Signalled)
    ensures LockNext(v, a, v') && !a.CallAcquire?
  {
    hide OneOwner, Owed, Dozing;
    assert At(v.roles[h], v.m.pcs[h]);
    if v.roles[h] == Cleared {
      a := CallWakeup(h);
      v' := World(v.m.(pcs := v.m.pcs[h := Waking(LOCK, v.m.pcs[h].debt)]), v.roles[h := Signalled]);
    } else if v.m.pcs[h] == Inside({}) {
      a := ReturnReleased(h);
      v' := World(v.m.(lk := None, pcs := v.m.pcs[h := Outside]), v.roles[h := Idle]);
    } else if v.m.pt.Some? {
      var q := v.m.pt.value;
      assert HoldsTable(v.m.pcs[q]) && v.m.pcs[q].Committed?;
      a := Inner(Slumber(q));
      v' := World(v.m.(pt := None, pcs := v.m.pcs[q := Asleep(v.m.pcs[q].chan)]), v.roles[q := v.roles[q]]);
    } else {
      a := Inner(FinishWakeup(h));
      v' := World(v.m.(pcs := seq(|v.m.pcs|, i requires 0 <= i < |v.m.pcs| =>
        if i == h then Inside(v.m.pcs[h].debt - {LOCK}) else Roused(v.m.pcs[i], LOCK))), v.roles[h := v.roles[h]]);
      assert v.m.pcs[h].debt - {LOCK} == {};
    }
  }

  /** No deadlock. While the lock is free and somebody is in acquiresleep, one of the processes
      inside the two functions can move. */
  lemma FreeLockMoves(w: World, p: nat) returns (a: Action, w': World)
    requires LockInv(w) && !w.m.x && p < |w.roles| && w.roles[p] == Acquiring
    ensures LockNext(w, a, w') && !a.CallAcquire?
  {
    hide Owed;
    if w.m.lk == None {
      a := Recheck(p);
      w' := DoRecheck(w, p);
    } else {
      var h := w.m.lk.value;
      assert HoldsLock(w.m.pcs[h]) && At(w.roles[h], w.m.pcs[h]);
      assert !Owns(w.roles[h]);
      if w.roles[h] == Acquiring {
        a := Take(h);
        w' := World(w.m.(x := true, pcs := w.m.pcs[h := Inside({})]), w.roles[h := Taken]);
        assert w.m.pcs[h].debt + NewlyTrue(Unlocked, w.m.x, true) == {};
      } else {
        a, w' := Follows(w, h);
      }
    }
  }
}
