/** log_write tests the size of the transaction before it takes log.lock, so two operations can pass
    the test when there is room for one. In a log area of at most LOGSIZE blocks, which is what mkfs
    makes, write_log then runs on into the file system, without a panic; one block more rules it out. */
module LogOverrun {
  import opened Common
  import opened RedoLog
  import opened LogProtocol
  import opened LogRuns

  /** Blocks to log: those behind the first block after the log, which nobody touches. */
  function Spot(L: Layout, t: nat): int {
    L.start + L.size + 1 + t
  }

  function Spots(L: Layout, h: nat): (r: seq<int>)
    ensures |r| == h && forall t :: 0 <= t < h ==> r[t] == Spot(L, t)
  {
    seq(h, t => L.start + L.size + 1 + t)
  }

  /** Contents unlike those of b. */
  function Unlike(b: Block): (r: Block)
    ensures r != b
  {
    if b == [] then [0] else b[0 := b[0] + 1]
  }

  /** Budget spent and place in log_write of each operation. */
  type Crew = seq<(nat, bool)>

  /** h blocks logged, all with contents x, by operations that stand as in crew. */
  ghost predicate Stage(C: Config, d0: seq<Block>, x: Block, s: State, h: nat, crew: Crew) {
    && s.phase == Idle && !s.committing && s.disk == d0 && s.committed == 0
    && |s.ops| == |crew| == s.outstanding
    && (forall i :: 0 <= i < |crew| ==> s.ops[i].spent == crew[i].0 && s.ops[i].checked == crew[i].1)
    && s.header == Spots(C.L, h) && |s.view| == |d0|
    && (forall t :: 0 <= t < h && Spot(C.L, t) < |d0| ==> s.view[Spot(C.L, t)] == x)
    && (forall i :: 0 <= i < |s.history| ==> s.history[i].w.blockno != C.L.start + C.L.size)
  }

  ghost predicate Affordable(C: Config, crew: Crew) {
    forall i :: 0 <= i < |crew| ==> crew[i].0 <= C.maxOp
  }

  /** A run in which every operation keeps its budget, and where it stands. */
  ghost predicate At(C: Config, d: seq<Block>, x: Block, states: seq<State>, steps: seq<Step>, h: nat, crew: Crew) {
    && IsRun(C, d, states, steps) && InBudget(C, states)
    && Stage(C, Recovered(C.L, d), x, states[|steps|], h, crew)
  }

  lemma Go(C: Config, d: seq<Block>, x: Block, states: seq<State>, steps: seq<Step>, step: Step, s: State, h: nat,
           crew: Crew)
    requires IsRun(C, d, states, steps) && InBudget(C, states) && Next(C, states[|steps|], step, s)
    requires Stage(C, Recovered(C.L, d), x, s, h, crew) && Affordable(C, crew)
    ensures At(C, d, x, states + [s], steps + [step], h, crew)
  {
    hide Next, Recovered;
    RunOn(C, d, states, steps, step, s);
  }

  lemma Begin(C: Config, d: seq<Block>, x: Block, states: seq<State>, steps: seq<Step>, h: nat, crew: Crew)
    returns (ss: seq<State>, aa: seq<Step>)
    requires At(C, d, x, states, steps, h, crew) && Affordable(C, crew) && h + (|crew| + 1) * C.maxOp <= C.L.logSize
    ensures At(C, d, x, ss, aa, h, crew + [(0, false)])
  {
    var s := states[|steps|];
    ss, aa := states + [Begun(s)], steps + [BeginOp];
    Go(C, d, x, states, steps, BeginOp, Begun(s), h, crew + [(0, false)]);
  }

  lemma Test(C: Config, d: seq<Block>, x: Block, states: seq<State>, steps: seq<Step>, h: nat, crew: Crew, i: nat)
    returns (ss: seq<State>, aa: seq<Step>)
    requires At(C, d, x, states, steps, h, crew) && Affordable(C, crew) && i < |crew| && !crew[i].1
    requires h < C.L.logSize && h < C.L.size - 1
    ensures At(C, d, x, ss, aa, h, crew[i := (crew[i].0, true)])
  {
    var s := states[|steps|];
    ss, aa := states + [Tested(s, i)], steps + [Check(i)];
    Go(C, d, x, states, steps, Check(i), Tested(s, i), h, crew[i := (crew[i].0, true)]);
  }

  lemma Record(C: Config, d: seq<Block>, x: Block, states: seq<State>, steps: seq<Step>, h: nat, crew: Crew, i: nat)
    returns (ss: seq<State>, aa: seq<Step>)
    requires At(C, d, x, states, steps, h, crew) && Affordable(C, crew) && i < |crew| && crew[i].1
    requires crew[i].0 < C.maxOp
    requires Recoverable(C.L, d) && Spot(C.L, h) < |d|
    ensures At(C, d, x, ss, aa, h + 1, crew[i := (crew[i].0 + 1, false)])
  {
    var s, w := states[|steps|], Write(Spot(C.L, h), x);
    assert w.blockno !in s.header;
    ss, aa := states + [Edited(s, i, w)], steps + [Append(i, w)];
    assert Spots(C.L, h) + [Spot(C.L, h)] == Spots(C.L, h + 1);
    Go(C, d, x, states, steps, Append(i, w), Edited(s, i, w), h + 1, crew[i := (crew[i].0 + 1, false)]);
  }

  lemma Leave(C: Config, d: seq<Block>, x: Block, states: seq<State>, steps: seq<Step>, h: nat, crew: Crew, i: nat)
    returns (ss: seq<State>, aa: seq<Step>)
    requires At(C, d, x, states, steps, h, crew) && Affordable(C, crew) && i < |crew| && !crew[i].1 && 2 <= |crew|
    ensures At(C, d, x, ss, aa, h, Without(crew, i))
  {
    var s := states[|steps|];
    ss, aa := states + [Ended(s, i)], steps + [EndOp(i)];
    Go(C, d, x, states, steps, EndOp(i), Ended(s, i), h, Without(crew, i));
  }

  /** The machine boots and one operation begins. */
  lemma Opens(C: Config, d: seq<Block>, x: Block) returns (ss: seq<State>, aa: seq<Step>)
    requires Recoverable(C.L, d) && C.maxOp <= C.L.logSize
    ensures At(C, d, x, ss, aa, 0, [(0, false)])
  {
    hide RecoverTrace, Apply;
    var s := Switched(d);
    var trace := RecoverTrace(C.L, d);
    assert PhaseTrace(C, s) == trace && trace[..|trace|] == trace;
    ss, aa := RunWrites(C, d, [s], [], |trace|);
    var s1 := ss[|aa|];
    RunFinish(C, d, ss, aa);
    ss, aa := ss + [Finished(s1)], aa + [Finish];
    assert At(C, d, x, ss, aa, 0, []);
    ss, aa := Begin(C, d, x, ss, aa, 0, []);
  }

  /** One block more, by operation i alone. */
  lemma OneMore(C: Config, d: seq<Block>, x: Block, states: seq<State>, steps: seq<Step>, h: nat, crew: Crew, i: nat)
    returns (ss: seq<State>, aa: seq<Step>)
    requires At(C, d, x, states, steps, h, crew) && Affordable(C, crew) && i < |crew| && !crew[i].1
    requires crew[i].0 < C.maxOp
    requires h < C.L.logSize && h < C.L.size - 1 && Recoverable(C.L, d) && Spot(C.L, h) < |d|
    ensures At(C, d, x, ss, aa, h + 1, crew[i := (crew[i].0 + 1, false)])
  {
    hide At;
    ss, aa := Test(C, d, x, states, steps, h, crew, i);
    var c1 := crew[i := (crew[i].0, true)];
    ss, aa := Record(C, d, x, ss, aa, h, c1, i);
    assert c1[i := (crew[i].0 + 1, false)] == crew[i := (crew[i].0 + 1, false)];
  }

  /** The sizes this is about: the log area is not larger than LOGSIZE, two operations may run at
      once, and there are blocks to log. */
  ghost predicate Tight(C: Config, d: seq<Block>) {
    && Recoverable(C.L, d) && 2 <= C.L.size <= C.L.logSize
    && 1 <= C.maxOp && 2 * C.maxOp <= C.L.logSize && C.L.start + 2 * C.L.size < |d|
  }

  /** While one operation waits, others come and go, each logging one block. */
  lemma {:induction false} Climb(C: Config, d: seq<Block>, x: Block, h: nat) returns (ss: seq<State>, aa: seq<Step>)
    requires Tight(C, d) && h + 2 * C.maxOp <= C.L.logSize && h <= C.L.size - 2
    ensures At(C, d, x, ss, aa, h, [(0, false)])
  {
    hide At;
    if h == 0 {
      ss, aa := Opens(C, d, x);
    } else {
      ss, aa := Climb(C, d, x, h - 1);
      ss, aa := Begin(C, d, x, ss, aa, h - 1, [(0, false)]);
      assert [(0, false)] + [(0, false)] == [(0, false), (0, false)];
      ss, aa := OneMore(C, d, x, ss, aa, h - 1, [(0, false), (0, false)], 1);
      assert [(0, false), (0, false)][1 := (1, false)] == [(0, false), (1, false)];
      ss, aa := Leave(C, d, x, ss, aa, h, [(0, false), (1, false)], 1);
      assert Without([(0, false), (1, false)], 1) == [(0, false)];
    }
  }

  /** Two operations at once fill the log up to where the test begins to fail. */
  lemma {:induction false} FillUp(C: Config, d: seq<Block>, x: Block, h: nat, a: nat, b: nat)
    returns (ss: seq<State>, aa: seq<Step>)
    requires Tight(C, d) && h + 2 * C.maxOp <= C.L.logSize && h + a + b <= C.L.size - 2
    requires a < C.maxOp && b < C.maxOp
    ensures At(C, d, x, ss, aa, h + a + b, [(a, false), (b, false)])
  {
    hide At;
    if b > 0 {
      ss, aa := FillUp(C, d, x, h, a, b - 1);
      ss, aa := OneMore(C, d, x, ss, aa, h + a + b - 1, [(a, false), (b - 1, false)], 1);
      assert [(a, false), (b - 1, false)][1 := (b, false)] == [(a, false), (b, false)];
    } else if a > 0 {
      ss, aa := FillUp(C, d, x, h, a - 1, 0);
      ss, aa := OneMore(C, d, x, ss, aa, h + a - 1, [(a - 1, false), (0, false)], 0);
      assert [(a - 1, false), (0, false)][0 := (a, false)] == [(a, false), (0, false)];
    } else {
      ss, aa := Climb(C, d, x, h);
      ss, aa := Begin(C, d, x, ss, aa, h, [(0, false)]);
      assert [(0, false)] + [(0, false)] == [(0, false), (0, false)];
    }
  }

  /** Two operations have left room for one block, and both have budget left. */
  lemma Brim(C: Config, d: seq<Block>, x: Block) returns (ss: seq<State>, aa: seq<Step>, a: nat, b: nat)
    requires Tight(C, d)
    ensures At(C, d, x, ss, aa, C.L.size - 2, [(a, false), (b, false)]) && a < C.maxOp && b < C.maxOp
  {
    hide At;
    var size, room := C.L.size, C.L.logSize - 2 * C.maxOp;
    var h: nat := if size - 2 <= room then size - 2 else room;
    var rest := size - 2 - h;
    a := if rest < C.maxOp then rest else C.maxOp - 1;
    b := rest - a;
    ss, aa := FillUp(C, d, x, h, a, b);
  }

  /** Both pass the test with room for one, then both append. */
  lemma BothPass(C: Config, d: seq<Block>, x: Block) returns (ss: seq<State>, aa: seq<Step>)
    requires Tight(C, d)
    ensures exists a: nat :: At(C, d, x, ss, aa, C.L.size, [(a, false)]) && a <= C.maxOp
  {
    hide At;
    var size := C.L.size;
    var a, b;
    ss, aa, a, b := Brim(C, d, x);
    ss, aa := Test(C, d, x, ss, aa, size - 2, [(a, false), (b, false)], 0);
    assert [(a, false), (b, false)][0 := (a, true)] == [(a, true), (b, false)];
    ss, aa := Test(C, d, x, ss, aa, size - 2, [(a, true), (b, false)], 1);
    assert [(a, true), (b, false)][1 := (b, true)] == [(a, true), (b, true)];
    ss, aa := Record(C, d, x, ss, aa, size - 2, [(a, true), (b, true)], 0);
    assert [(a, true), (b, true)][0 := (a + 1, false)] == [(a + 1, false), (b, true)];
    ss, aa := Record(C, d, x, ss, aa, size - 1, [(a + 1, false), (b, true)], 1);
    assert [(a + 1, false), (b, true)][1 := (b + 1, false)] == [(a + 1, false), (b + 1, false)];
    ss, aa := Leave(C, d, x, ss, aa, size, [(a + 1, false), (b + 1, false)], 1);
    assert Without([(a + 1, false), (b + 1, false)], 1) == [(a + 1, false)];
  }

  /** One after the other they fare no better: the first takes the last place, and the test stops
      the second with budget left. */
  lemma SecondStops(C: Config, d: seq<Block>) returns (states: seq<State>, steps: seq<Step>)
    requires Tight(C, d)
    ensures IsRun(C, d, states, steps) && InBudget(C, states)
    ensures var s := states[|steps|];
      |s.ops| == 2 && s.ops[1].spent < C.maxOp && !s.ops[1].checked && LogWritePanics(C, s)
  {
    var a, b;
    states, steps, a, b := Brim(C, d, []);
    states, steps := OneMore(C, d, [], states, steps, C.L.size - 2, [(a, false), (b, false)], 0);
    assert [(a, false), (b, false)][0 := (a + 1, false)] == [(a + 1, false), (b, false)];
  }

  /** The copies of write_log for a header of L.size blocks: the last one leaves the log area. */
  lemma SpillingCopies(L: Layout, v: seq<Block>, x: Block)
    requires 0 < L.size && L.start + 2 * L.size < |v| && forall t :: 0 <= t < L.size ==> v[Spot(L, t)] == x
    ensures var ws := RawCommit(L, v, Spots(L, L.size));
            |ws| > L.size && forall t :: 0 <= t < L.size ==> ws[t] == Write(L.start + 1 + t, x)
  {
    hide Copies, Apply, Headed;
    var bs := Spots(L, L.size);
    CopiesApart(v, Outward(L, bs));
    assert bs != [];
  }

  /** The disk after those copies: the header is as it was, and the first block behind the log is
      overwritten. */
  lemma SpilledDisk(L: Layout, d: seq<Block>, x: Block, ws: seq<Write>)
    requires Erased(L, d) && L.start + L.size < |d| && |ws| > L.size
    requires forall t :: 0 <= t < L.size ==> ws[t] == Write(L.start + 1 + t, x)
    ensures var e := Apply(d, ws[..L.size]);
      Erased(L, e) && e[L.start + L.size] == x && SameHome(L, Recovered(L, e), e)
  {
    hide Apply, Recovered;
    SpilledBlocks(L, d, x, ws);
    CleanRecovery(L, Apply(d, ws[..L.size]));
  }

  lemma SpilledBlocks(L: Layout, d: seq<Block>, x: Block, ws: seq<Write>)
    requires 0 <= L.start && 0 < L.size && L.start + L.size < |d| && |ws| > L.size
    requires forall t :: 0 <= t < L.size ==> ws[t] == Write(L.start + 1 + t, x)
    ensures var e := Apply(d, ws[..L.size]); |e| == |d| && e[L.start] == d[L.start] && e[L.start + L.size] == x
  {
    hide Apply;
    ApplySnoc(d, ws, L.size - 1);
    ApplyAgrees(d, d, ws[..L.size], L.start);
  }

  /** Recovery of a disk with an empty header leaves the file system alone. */
  lemma CleanRecovery(L: Layout, e: seq<Block>)
    requires Erased(L, e)
    ensures Recoverable(L, e) && SameHome(L, Recovered(L, e), e)
  {
    assert Targets(e[L.start]) == [];
    var head := Write(L.start, WithHeader(e[L.start], []));
    assert RecoverTrace(L, e) == [head];
    ApplyOne(e, head);
  }

  /** No prefix of the log_writes touches the block. */
  lemma Untouched(L: Layout, d0: seq<Block>, history: seq<Edit>, k: nat)
    requires k <= |history| && L.start + L.size < |d0|
    requires forall i :: 0 <= i < |history| ==> history[i].w.blockno != L.start + L.size
    ensures StateAt(d0, history, k)[L.start + L.size] == d0[L.start + L.size]
  {
    ApplyAgrees(d0, d0, WritesOf(history[..k]), L.start + L.size);
  }

  /** The run goes on: the last operation ends, and commit copies the logged blocks. */
  lemma Commits(C: Config, d: seq<Block>, x: Block, states: seq<State>, steps: seq<Step>, a: nat)
    returns (ss: seq<State>, aa: seq<Step>)
    requires Tight(C, d) && At(C, d, x, states, steps, C.L.size, [(a, false)])
    ensures IsRun(C, d, ss, aa) && InBudget(C, ss) && |ss| == |aa| + 1
    ensures var s, d0 := ss[|aa|], Recovered(C.L, d);
      && |s.header| == C.L.size && s.committed == 0 && Erased(C.L, s.disk) && |s.disk| == |d0|
      && s.disk[C.L.start + C.L.size] == x && SameHome(C.L, Recovered(C.L, s.disk), s.disk)
      && forall i :: 0 <= i < |s.history| ==> s.history[i].w.blockno != C.L.start + C.L.size
  {
    hide Next, Apply, Recovered, RawCommit, CommitTrace;
    var s, L, d0 := states[|steps|], C.L, Recovered(C.L, d);
    RecoveredErased(L, d);
    EndStep(C, s, 0);
    RunOn(C, d, states, steps, EndOp(0), Ended(s, 0));
    var s1 := Ended(s, 0);
    assert PhaseTrace(C, s1) == RawCommit(L, s.view, Spots(L, L.size));
    SpillingCopies(L, s.view, x);
    ss, aa := RunWrites(C, d, states + [s1], steps + [EndOp(0)], L.size);
    SpilledDisk(L, d0, x, PhaseTrace(C, s1));
  }

  lemma RecoveredErased(L: Layout, d: seq<Block>)
    requires Recoverable(L, d)
    ensures Erased(L, Recovered(L, d)) && |Recovered(L, d)| == |d|
  {
    RecoveryErases(L, d);
  }

  /** The overrun. In every such log there is a run of operations within their budgets in which a
      commit overwrites a block of the file system that no operation has written, and recovery
      gives no state of the file system at all: no prefix of the log_writes. */
  lemma Overruns(C: Config, d: seq<Block>) returns (states: seq<State>, steps: seq<Step>)
    requires Tight(C, d)
    ensures IsRun(C, d, states, steps) && InBudget(C, states)
    ensures var s := states[|steps|];
      && |s.header| == C.L.size && Recoverable(C.L, s.disk)
      && forall k :: 0 <= k <= |s.history| ==>
           !SameHome(C.L, Recovered(C.L, s.disk), StateAt(Recovered(C.L, d), s.history, k))
  {
    hide At, IsRun, Recovered, StateAt;
    var L, d0 := C.L, Recovered(C.L, d);
    RecoveredErased(L, d);
    var x := Unlike(d0[L.start + L.size]);
    states, steps := BothPass(C, d, x);
    var a: nat :| At(C, d, x, states, steps, L.size, [(a, false)]) && a <= C.maxOp;
    states, steps := Commits(C, d, x, states, steps, a);
    var s := states[|steps|];
    forall k | 0 <= k <= |s.history| ensures !SameHome(L, Recovered(L, s.disk), StateAt(d0, s.history, k)) {
      Untouched(L, d0, s.history, k);
      assert HomeBlock(L, s.disk, L.start + L.size);
    }
  }

  ghost predicate AlwaysAtomic(C: Config, d: seq<Block>)
    requires Recoverable(C.L, d)
  {
    forall states: seq<State>, steps: seq<Step>, n: nat ::
      IsRun(C, d, states, steps) && InBudget(C, states) && n < |states| ==> Atomic(C, Recovered(C.L, d), states[n])
  }

  /** When the log makes operations atomic: for operations that keep their budgets, exactly if the
      log area has more than LOGSIZE blocks. */
  lemma AtomicExactly(C: Config, d: seq<Block>)
    requires Recoverable(C.L, d) && 2 <= C.L.size && C.L.start + 2 * C.L.size < |d|
    requires 1 <= C.maxOp && 2 * C.maxOp <= C.L.logSize
    ensures AlwaysAtomic(C, d) <==> C.L.logSize < C.L.size
  {
    hide Atomic, IsRun;
    if C.L.logSize < C.L.size {
      forall states: seq<State>, steps: seq<Step>, n: nat
        | IsRun(C, d, states, steps) && InBudget(C, states) && n < |states|
        ensures Atomic(C, Recovered(C.L, d), states[n])
      {
        BudgetsFit(C, d, states, steps, n);
        GroupAtomicity(C, d, states, steps, n);
      }
    } else {
      var states, steps := Overruns(C, d);
      NotAtomic(C, d, states, steps);
    }
  }

  lemma NotAtomic(C: Config, d: seq<Block>, states: seq<State>, steps: seq<Step>)
    requires Recoverable(C.L, d) && IsRun(C, d, states, steps) && InBudget(C, states)
    requires var s := states[|steps|];
      && Recoverable(C.L, s.disk)
      && forall k :: 0 <= k <= |s.history| ==>
           !SameHome(C.L, Recovered(C.L, s.disk), StateAt(Recovered(C.L, d), s.history, k))
    ensures !AlwaysAtomic(C, d)
  {
    hide SameHome, StateAt, Recovered;
    assert !Atomic(C, Recovered(C.L, d), states[|steps|]);
  }

  /** An operation with budget left would panic in log_write. */
  ghost predicate Stops(C: Config, s: State) {
    LogWritePanics(C, s) && exists i :: 0 <= i < |s.ops| && s.ops[i].spent < C.maxOp
  }

  ghost predicate NeverStops(C: Config, d: seq<Block>) {
    forall states: seq<State>, steps: seq<Step>, n: nat ::
      IsRun(C, d, states, steps) && InBudget(C, states) && n < |states| ==> !Stops(C, states[n])
  }

  /** When the reservation of begin_op keeps log_write from its panics: exactly in the same logs. */
  lemma StopsExactly(C: Config, d: seq<Block>)
    requires Recoverable(C.L, d) && 2 <= C.L.size && C.L.start + 2 * C.L.size < |d|
    requires 1 <= C.maxOp && 2 * C.maxOp <= C.L.logSize
    ensures NeverStops(C, d) <==> C.L.logSize < C.L.size
  {
    hide IsRun;
    if C.L.logSize < C.L.size {
      forall states: seq<State>, steps: seq<Step>, n: nat
        | IsRun(C, d, states, steps) && InBudget(C, states) && n < |states|
        ensures !Stops(C, states[n])
      {
        LogReservation(C, d, states, steps, n);
      }
    } else {
      var states, steps := SecondStops(C, d);
      assert states[|steps|].ops[1].spent < C.maxOp;
    }
  }
}
