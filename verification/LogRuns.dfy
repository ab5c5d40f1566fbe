/** Building runs of the log protocol step by step. */
module LogRuns {
  import opened Common
  import opened RedoLog
  import opened LogProtocol

  /** The state of the protocol when the machine is switched on. */
  ghost function Switched(d: seq<Block>): State {
    State(d, d, [], [], 0, false, Recovering(0, d), 0, [], 0, 0)
  }

  /** s with the first k writes of its phase on the disk. */
  ghost function Written(C: Config, s: State, k: nat): State
    requires k <= |PhaseTrace(C, s)| && !s.phase.Idle?
  {
    var ws := PhaseTrace(C, s)[..k];
    var point := s.phase.Committing? && k > |s.header|;
    s.(disk := Apply(s.disk, ws), view := Apply(s.view, ws), phase := s.phase.(k := k),
       committed := if point then |s.history| else s.committed, epoch := if point then s.nextOp else s.epoch)
  }

  lemma NextWrite(C: Config, s: State, k: nat)
    requires !s.phase.Idle? && k < |PhaseTrace(C, s)|
    ensures Next(C, Written(C, s, k), DiskWrite, Written(C, s, k + 1))
    ensures PhaseTrace(C, Written(C, s, k)) == PhaseTrace(C, s)
  {
    hide Apply, CommitTrace, RawCommit, RecoverTrace;
    var ws := PhaseTrace(C, s);
    ApplySnoc(s.disk, ws, k);
    ApplySnoc(s.view, ws, k);
  }

  /** One more step of a run. */
  lemma RunOn(C: Config, d: seq<Block>, states: seq<State>, steps: seq<Step>, step: Step, s: State)
    requires IsRun(C, d, states, steps) && Next(C, states[|steps|], step, s)
    ensures IsRun(C, d, states + [s], steps + [step])
  {
    hide Next, Boot;
    var ss, aa := states + [s], steps + [step];
    forall i | 0 <= i < |aa| ensures Next(C, ss[i], aa[i], ss[i + 1]) {
      if i < |steps| { assert Next(C, states[i], steps[i], states[i + 1]); }
    }
  }

  /** The steps of the write loop a phase consists of, as far as it got. */
  lemma {:induction false} RunWrites(C: Config, d: seq<Block>, states: seq<State>, steps: seq<Step>, k: nat)
    returns (ss: seq<State>, aa: seq<Step>)
    requires IsRun(C, d, states, steps)
    requires var s := states[|steps|]; !s.phase.Idle? && s.phase.k == 0 && k <= |PhaseTrace(C, s)|
    ensures IsRun(C, d, ss, aa) && |ss| == |aa| + 1 && aa == steps + seq(k, _ => DiskWrite)
    ensures ss[|aa|] == Written(C, states[|steps|], k)
    ensures |states| <= |ss| && ss[..|states|] == states
    ensures forall i :: |states| <= i < |ss| ==>
      ss[i].header == states[|steps|].header && ss[i].ops == states[|steps|].ops
    ensures PhaseTrace(C, ss[|aa|]) == PhaseTrace(C, states[|steps|])
  {
    hide Next, Boot, PhaseTrace, CommitTrace;
    var s := states[|steps|];
    if k == 0 {
      ss, aa := states, steps;
      ApplyNone(s.disk, PhaseTrace(C, s));
      ApplyNone(s.view, PhaseTrace(C, s));
    } else {
      ss, aa := RunWrites(C, d, states, steps, k - 1);
      NextWrite(C, s, k - 1);
      RunOn(C, d, ss, aa, DiskWrite, Written(C, s, k));
      ss, aa := ss + [Written(C, s, k)], aa + [DiskWrite];
      if k < |PhaseTrace(C, s)| { NextWrite(C, s, k); } else { SameTrace(C, s, k); }
    }
  }

  lemma SameTrace(C: Config, s: State, k: nat)
    requires k <= |PhaseTrace(C, s)| && !s.phase.Idle?
    ensures PhaseTrace(C, Written(C, s, k)) == PhaseTrace(C, s)
  {}

  ghost function Finished(s: State): State {
    s.(header := [], committing := false, phase := Idle)
  }

  lemma FinishStep(C: Config, s: State)
    requires !s.phase.Idle? && s.phase.k == |PhaseTrace(C, s)|
    ensures Next(C, s, Finish, Finished(s))
  {}

  lemma RunFinish(C: Config, d: seq<Block>, states: seq<State>, steps: seq<Step>)
    requires IsRun(C, d, states, steps)
    requires var s := states[|steps|]; !s.phase.Idle? && s.phase.k == |PhaseTrace(C, s)|
    ensures IsRun(C, d, states + [Finished(states[|steps|])], steps + [Finish])
  {
    FinishStep(C, states[|steps|]);
    RunOn(C, d, states, steps, Finish, Finished(states[|steps|]));
  }

  /** A whole phase, or as much of it as came about. */
  lemma RunPhase(C: Config, d: seq<Block>, states: seq<State>, steps: seq<Step>, k: nat, done: bool)
    returns (ss: seq<State>, aa: seq<Step>)
    requires IsRun(C, d, states, steps) && Fitting(C, states, |steps|)
    requires var s := states[|steps|]; !s.phase.Idle? && s.phase.k == 0 && k <= |PhaseTrace(C, s)|
    requires done ==> k == |PhaseTrace(C, states[|steps|])|
    ensures IsRun(C, d, ss, aa) && |ss| == |aa| + 1 && Fitting(C, ss, |aa|)
    ensures aa == steps + seq(k, _ => DiskWrite) + if done then [Finish] else []
    ensures var s := Written(C, states[|steps|], k); ss[|aa|] == if done then Finished(s) else s
  {
    hide Next, Boot, PhaseTrace;
    ss, aa := RunWrites(C, d, states, steps, k);
    assert Fits(C, states[|steps|]);
    if done {
      RunFinish(C, d, ss, aa);
      ss, aa := ss + [Finished(ss[|aa|])], aa + [Finish];
    }
  }

  /** The state after end_op of the i-th operation has decided whether to commit. */
  ghost function Ended(s: State, i: nat): State
    requires i < |s.ops|
  {
    var last := s.outstanding - 1 == 0;
    s.(outstanding := s.outstanding - 1, ops := Without(s.ops, i), committing := last,
       phase := if last then Committing(0, s.disk, s.view) else s.phase)
  }

  lemma CommitPhase(C: Config, s: State)
    requires s.phase == Committing(0, s.disk, s.view)
    requires Erased(C.L, s.disk) && |s.view| == |s.disk| && ValidTargets(C.L, s.disk, s.header)
    ensures ValidTargets(C.L, s.view, s.header)
    ensures PhaseTrace(C, s) == CommitTrace(C.L, s.disk, s.view, s.header)
  {}

  lemma EndStep(C: Config, s: State, i: nat)
    requires i < |s.ops| && !s.ops[i].checked && !s.committing
    ensures Next(C, s, EndOp(i), Ended(s, i))
  {}

  lemma OneOfThem(C: Config, d: seq<Block>, states: seq<State>, steps: seq<Step>)
    requires IsRun(C, d, states, steps)
    ensures states[|steps|].outstanding == |states[|steps|].ops|
  {
    RunBase(C, d, states, steps, |steps|);
  }

  ghost function Begun(s: State): State {
    s.(outstanding := s.outstanding + 1, ops := s.ops + [Op(s.nextOp, 0, false)], nextOp := s.nextOp + 1)
  }

  /** The i-th operation has passed log_write's test. */
  ghost function Tested(s: State, i: nat): State
    requires i < |s.ops|
  {
    s.(ops := s.ops[i := s.ops[i].(checked := true)])
  }

  lemma CheckStep(C: Config, s: State, i: nat)
    requires i < |s.ops| && !s.ops[i].checked && !LogWritePanics(C, s)
    ensures Next(C, s, Check(i), Tested(s, i))
  {}

  /** The i-th operation has logged w. */
  ghost function Edited(s: State, i: nat, w: Write): State
    requires i < |s.ops|
  {
    var added := if w.blockno in s.header then 0 else 1;
    s.(view := Put(s.view, w), header := Absorb(s.header, w.blockno),
       ops := s.ops[i := s.ops[i].(spent := s.ops[i].spent + added, checked := false)],
       history := s.history + [Edit(s.ops[i].id, w)])
  }

  lemma EditStep(C: Config, s: State, i: nat, w: Write)
    requires i < |s.ops| && s.ops[i].checked && HomeBlock(C.L, s.disk, w.blockno)
    ensures Next(C, s, Append(i, w), Edited(s, i, w))
  {}
}
