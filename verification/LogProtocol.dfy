/** begin_op, log_write, end_op, commit and recovery as one state machine.

    Any number of file-system operations run at once. Each step is one critical section
    under log.lock, the test log_write makes before it takes that lock, one disk write, or a
    crash, so a run is any interleaving of them. The history of all log_writes is kept beside
    the state; a commit point is a length of that history. */
module LogProtocol {
  import opened Common
  import opened RedoLog

  datatype Config = Config(L: Layout, maxOp: nat)

  /** One log_write: which operation did it, and the block contents it published. */
  datatype Edit = Edit(op: nat, w: Write)

  /** An operation between begin_op and end_op: how many blocks it has added to the log, and
      whether it stands in log_write, past the test and before the lock. */
  datatype Op = Op(id: nat, spent: nat, checked: bool)

  /** The write loop in progress: `k` writes of the trace that started on disk `base`
      (and, for a commit, on cache contents `cached`) are on the disk. */
  datatype Phase =
    | Idle
    | Committing(k: nat, base: seq<Block>, cached: seq<Block>)
    | Recovering(k: nat, base: seq<Block>)

  datatype State = State(
    disk: seq<Block>, view: seq<Block>,
    header: seq<int>, ops: seq<Op>, outstanding: int, committing: bool, phase: Phase,
    nextOp: nat, history: seq<Edit>, committed: nat, epoch: nat)

  datatype Step =
    | BeginOp
    | Check(i: nat)
    | Append(i: nat, w: Write)
    | EndOp(i: nat)
    | DiskWrite
    | Finish
    | Crash

  /** log_write's search loop: reuse the slot of a block already logged. */
  function Absorb(header: seq<int>, b: int): seq<int> {
    if b in header then header else header + [b]
  }

  /** The test of log_write. */
  predicate LogWritePanics(C: Config, s: State) {
    |s.header| >= C.L.logSize || |s.header| >= C.L.size - 1 || s.outstanding < 1
  }

  ghost predicate CommitReady(C: Config, p: Phase, header: seq<int>) {
    && p.Committing? && Erased(C.L, p.base) && |p.cached| == |p.base|
    && ValidTargets(C.L, p.cached, header)
  }

  /** The writes the current phase performs, first to last. A header too long for the log is
      written like any other. */
  ghost function PhaseTrace(C: Config, s: State): seq<Write> {
    match s.phase
    case Idle => []
    case Committing(_, base, cached) =>
      if CommitReady(C, s.phase, s.header) then CommitTrace(C.L, base, cached, s.header)
      else RawCommit(C.L, cached, s.header)
    case Recovering(_, base) =>
      if Recoverable(C.L, base) then RecoverTrace(C.L, base) else []
  }

  ghost predicate Next(C: Config, s: State, step: Step, s': State) {
    match step
    case BeginOp =>
      && !s.phase.Recovering? && !s.committing
      && |s.header| + (s.outstanding + 1) * C.maxOp <= C.L.logSize
      && s' == s.(outstanding := s.outstanding + 1, ops := s.ops + [Op(s.nextOp, 0, false)], nextOp := s.nextOp + 1)
    case Check(i) =>
      && i < |s.ops| && !s.ops[i].checked && !LogWritePanics(C, s)
      && s' == s.(ops := s.ops[i := s.ops[i].(checked := true)])
    case Append(i, w) =>
      && i < |s.ops| && s.ops[i].checked && HomeBlock(C.L, s.disk, w.blockno)
      && var added := if w.blockno in s.header then 0 else 1;
         s' == s.(view := Put(s.view, w), header := Absorb(s.header, w.blockno),
                  ops := s.ops[i := s.ops[i].(spent := s.ops[i].spent + added, checked := false)],
                  history := s.history + [Edit(s.ops[i].id, w)])
    case EndOp(i) =>
      && i < |s.ops| && !s.ops[i].checked && !s.committing
      && var last := s.outstanding - 1 == 0;
         s' == s.(outstanding := s.outstanding - 1, ops := Without(s.ops, i), committing := last,
                  phase := if last then Committing(0, s.disk, s.view) else s.phase)
    case DiskWrite =>
      && !s.phase.Idle? && s.phase.k < |PhaseTrace(C, s)|
      && var w := PhaseTrace(C, s)[s.phase.k];
         var point := s.phase.Committing? && s.phase.k == |s.header|;   // the header write
         s' == s.(disk := Put(s.disk, w), view := Put(s.view, w),
                  phase := s.phase.(k := s.phase.k + 1),
                  committed := if point then |s.history| else s.committed,
                  epoch := if point then s.nextOp else s.epoch)
    case Finish =>
      && !s.phase.Idle? && s.phase.k == |PhaseTrace(C, s)|
      && s' == s.(header := [], committing := false, phase := Idle)
    case Crash =>
      && s.committed <= |s.history|
      && s' == s.(view := s.disk, header := [], ops := [], outstanding := 0, committing := false,
                  phase := Recovering(0, s.disk), history := s.history[..s.committed])
  }

  // ---------------------------------------------------------------- the history

  function WritesOf(es: seq<Edit>): seq<Write> {
    seq(|es|, i requires 0 <= i < |es| => es[i].w)
  }

  /** The file system's blocks after the first k log_writes of the history. */
  function StateAt(d0: seq<Block>, history: seq<Edit>, k: nat): (r: seq<Block>)
    requires k <= |history|
    ensures |r| == |d0|
  {
    Apply(d0, WritesOf(history[..k]))
  }

  lemma StateAtSnoc(d0: seq<Block>, history: seq<Edit>, e: Edit)
    ensures StateAt(d0, history + [e], |history| + 1) == Put(StateAt(d0, history, |history|), e.w)
    ensures forall k :: 0 <= k <= |history| ==> StateAt(d0, history + [e], k) == StateAt(d0, history, k)
  {
    assert (history + [e])[..|history| + 1] == history + [e];
    assert history[..|history|] == history;
    var ws := WritesOf(history + [e]);
    assert ws[..|ws| - 1] == WritesOf(history);
    assert forall k :: 0 <= k <= |history| ==> (history + [e])[..k] == history[..k];
  }

  // ---------------------------------------------------------------- the invariant

  /** Disk holds commit point `c`, cache holds the whole history, and they differ only where
      the in-memory header says so. */
  ghost predicate Buffered(C: Config, d0: seq<Block>, s: State, disk: seq<Block>, view: seq<Block>, c: nat)
    requires c <= |s.history|
  {
    && Erased(C.L, disk) && |view| == |disk| == |d0|
    && ValidTargets(C.L, view, s.header)
    && SameHome(C.L, disk, StateAt(d0, s.history, c))
    && SameHome(C.L, view, StateAt(d0, s.history, |s.history|))
    && forall b :: 0 <= b < |disk| && b !in s.header ==> view[b] == disk[b]
  }

  ghost predicate PhaseInv(C: Config, d0: seq<Block>, s: State)
    requires s.committed <= |s.history|
  {
    match s.phase
    case Idle => Buffered(C, d0, s, s.disk, s.view, s.committed)
    case Committing(k, base, cached) =>
      && k <= |PhaseTrace(C, s)|
      && s.disk == Apply(base, PhaseTrace(C, s)[..k])
      && s.view == Apply(cached, PhaseTrace(C, s)[..k])
      && (k > |s.header| ==> s.committed == |s.history|)
      && exists c :: 0 <= c <= |s.history| && Buffered(C, d0, s, base, cached, c)
                     && (k <= |s.header| ==> c == s.committed)
    case Recovering(k, base) =>
      && s.committed == |s.history| && |base| == |d0|
      && Recoverable(C.L, base) && k <= |PhaseTrace(C, s)|
      && s.disk == s.view == Apply(base, PhaseTrace(C, s)[..k])
      && SameHome(C.L, Recovered(C.L, base), StateAt(d0, s.history, s.committed))
  }

  /** Operations of the current group started after the last commit point. */
  ghost predicate GroupInv(s: State) {
    && s.committed <= |s.history| && s.epoch <= s.nextOp
    && (forall i :: 0 <= i < |s.history| ==>
          s.history[i].op < s.nextOp && (i < s.committed <==> s.history[i].op < s.epoch))
    && (forall i :: 0 <= i < |s.ops| ==> s.epoch <= s.ops[i].id < s.nextOp)
    && (forall i, j :: 0 <= i < j < |s.ops| ==> s.ops[i].id != s.ops[j].id)
  }

  /** What holds in every run, also after a header has outgrown the log. */
  ghost predicate Base(s: State) {
    && GroupInv(s) && Distinct(s.header)
    && s.outstanding == |s.ops| && (s.phase.Idle? || s.ops == [])
    && (s.committing <==> s.phase.Committing?)
  }

  /** The in-memory header fits struct logheader and the log area. */
  predicate Fits(C: Config, s: State) {
    |s.header| <= C.L.logSize && |s.header| < C.L.size
  }

  ghost predicate Inv(C: Config, d0: seq<Block>, s: State) {
    Base(s) && PhaseInv(C, d0, s) && |s.disk| == |s.view| == |d0|
  }

  /** The state when the machine is switched on with disk `d`. */
  ghost predicate Boot(C: Config, d: seq<Block>, s: State) {
    && Recoverable(C.L, d)
    && s.disk == d && s.view == d && s.header == [] && s.ops == [] && s.outstanding == 0
    && !s.committing && s.phase == Recovering(0, d) && s.history == [] && s.committed == 0 && s.epoch <= s.nextOp
  }

  lemma BootInv(C: Config, d: seq<Block>, s: State)
    requires Boot(C, d, s)
    ensures Inv(C, Recovered(C.L, d), s)
  {}

  // ---------------------------------------------------------------- every step keeps it

  lemma BaseKeeps(C: Config, s: State, step: Step, s': State)
    requires Base(s) && Next(C, s, step, s')
    ensures Base(s')
  {
    hide PhaseTrace, Put;
  }

  lemma OpStepKeeps(C: Config, d0: seq<Block>, s: State, step: Step, s': State)
    requires Inv(C, d0, s) && Next(C, s, step, s') && (step.BeginOp? || step.Check?)
    ensures Inv(C, d0, s')
  {
    BaseKeeps(C, s, step, s');
  }

  lemma AppendKeeps(C: Config, d0: seq<Block>, s: State, i: nat, w: Write, s': State)
    requires Inv(C, d0, s) && Next(C, s, Append(i, w), s') && Fits(C, s')
    ensures Inv(C, d0, s')
  {
    hide StateAt;
    BaseKeeps(C, s, Append(i, w), s');
    StateAtSnoc(d0, s.history, Edit(s.ops[i].id, w));
  }

  lemma EndKeeps(C: Config, d0: seq<Block>, s: State, i: nat, s': State)
    requires Inv(C, d0, s) && Next(C, s, EndOp(i), s')
    ensures Inv(C, d0, s')
  {
    BaseKeeps(C, s, EndOp(i), s');
    if s'.phase.Committing? {
      assert PhaseTrace(C, s')[..0] == [];
      assert Buffered(C, d0, s', s'.phase.base, s'.phase.cached, s'.committed);
    }
  }

  lemma DiskWriteKeeps(C: Config, d0: seq<Block>, s: State, s': State)
    requires Inv(C, d0, s) && Next(C, s, DiskWrite, s')
    ensures Inv(C, d0, s')
  {
    hide Apply, CommitTrace, RecoverTrace, Recovered, StateAt;
    BaseKeeps(C, s, DiskWrite, s');
    var t := PhaseTrace(C, s);
    assert PhaseTrace(C, s') == t;
    ApplySnoc(s.phase.base, t, s.phase.k);
    if s.phase.Committing? {
      ApplySnoc(s.phase.cached, t, s.phase.k);
      var c :| 0 <= c <= |s.history| && Buffered(C, d0, s, s.phase.base, s.phase.cached, c)
               && (s.phase.k <= |s.header| ==> c == s.committed);
      assert Buffered(C, d0, s', s.phase.base, s.phase.cached, c);
    }
  }

  /** A finished commit has made disk and cache equal, with the cache's home blocks. */
  lemma CommitSettles(C: Config, base: seq<Block>, cached: seq<Block>, bs: seq<int>)
    requires Erased(C.L, base) && |cached| == |base| && ValidTargets(C.L, cached, bs)
    requires forall b :: 0 <= b < |base| && b !in bs ==> cached[b] == base[b]
    ensures var t := CommitTrace(C.L, base, cached, bs);
            && Erased(C.L, Apply(base, t)) && SameHome(C.L, Apply(base, t), cached)
            && Apply(cached, t) == Apply(base, t)
  {
    hide Apply, CommitTrace, Recovered;
    var t := CommitTrace(C.L, base, cached, bs);
    CommitParts(C.L, base, cached, bs);
    assert t[..|t|] == t;
    CrashedCommit(C.L, base, cached, bs, |t|);
    ApplyNone(base, t);
    ApplyNone(cached, t);
    forall b | 0 <= b < |base| ensures Apply(cached, t)[b] == Apply(base, t)[b] {
      if b in bs {
        var j :| 0 <= j < |bs| && bs[j] == b;
        assert t[|bs| + 1 + j].blockno == b;
      }
      ApplyAgrees(base, cached, t, b);
    }
  }

  lemma FinishKeeps(C: Config, d0: seq<Block>, s: State, s': State)
    requires Inv(C, d0, s) && Next(C, s, Finish, s')
    ensures Inv(C, d0, s')
  {
    BaseKeeps(C, s, Finish, s');
    var t := PhaseTrace(C, s);
    assert t[..|t|] == t;
    if s.phase.Recovering? {
      RecoveryErases(C.L, s.phase.base);
    } else {
      var base, cached := s.phase.base, s.phase.cached;
      var c :| 0 <= c <= |s.history| && Buffered(C, d0, s, base, cached, c)
               && (s.phase.k <= |s.header| ==> c == s.committed);
      CommitSettles(C, base, cached, s.header);
    }
  }

  /** At any moment, what recovery would make of the disk is the last commit point. */
  lemma RecoversToCommitPoint(C: Config, d0: seq<Block>, s: State)
    requires Inv(C, d0, s)
    ensures Recoverable(C.L, s.disk)
    ensures SameHome(C.L, Recovered(C.L, s.disk), StateAt(d0, s.history, s.committed))
  {
    hide Apply, CommitTrace, RecoverTrace, InstallTrace, Recovered, StateAt;
    match s.phase
    case Idle =>
      RecoveryErases(C.L, s.disk);
      ApplyNone(s.disk, InstallTrace(C.L, s.disk, Targets(s.disk[C.L.start])));
    case Committing(k, base, cached) =>
      var c :| 0 <= c <= |s.history| && Buffered(C, d0, s, base, cached, c)
               && (k <= |s.header| ==> c == s.committed);
      CrashedCommit(C.L, base, cached, s.header, k);
    case Recovering(k, base) =>
      CrashedRecovery(C.L, base, k);
  }

  lemma CrashKeeps(C: Config, d0: seq<Block>, s: State, s': State)
    requires Inv(C, d0, s) && Next(C, s, Crash, s')
    ensures Inv(C, d0, s')
  {
    BaseKeeps(C, s, Crash, s');
    RecoversToCommitPoint(C, d0, s);
    assert PhaseTrace(C, s')[..0] == [];
    assert s.history[..s.committed][..s.committed] == s.history[..s.committed];
  }

  lemma StepKeeps(C: Config, d0: seq<Block>, s: State, step: Step, s': State)
    requires Inv(C, d0, s) && Next(C, s, step, s') && Fits(C, s')
    ensures Inv(C, d0, s')
  {
    match step
    case BeginOp => OpStepKeeps(C, d0, s, step, s');
    case Check(_) => OpStepKeeps(C, d0, s, step, s');
    case Append(i, w) => AppendKeeps(C, d0, s, i, w, s');
    case EndOp(i) => EndKeeps(C, d0, s, i, s');
    case DiskWrite => DiskWriteKeeps(C, d0, s, s');
    case Finish => FinishKeeps(C, d0, s, s');
    case Crash => CrashKeeps(C, d0, s, s');
  }

  // ---------------------------------------------------------------- whole runs

  ghost predicate IsRun(C: Config, d: seq<Block>, states: seq<State>, steps: seq<Step>) {
    && |states| == |steps| + 1
    && Boot(C, d, states[0])
    && forall i :: 0 <= i < |steps| ==> Next(C, states[i], steps[i], states[i + 1])
  }

  lemma {:induction false} RunBase(C: Config, d: seq<Block>, states: seq<State>, steps: seq<Step>, n: nat)
    requires IsRun(C, d, states, steps) && n < |states|
    ensures Base(states[n])
  {
    if n > 0 {
      RunBase(C, d, states, steps, n - 1);
      BaseKeeps(C, states[n - 1], steps[n - 1], states[n]);
    }
  }

  /** The header has fitted the log up to the n-th state. */
  ghost predicate Fitting(C: Config, states: seq<State>, n: nat)
    requires n < |states|
  {
    forall i :: 0 <= i <= n ==> Fits(C, states[i])
  }

  lemma {:induction false} RunInv(C: Config, d: seq<Block>, states: seq<State>, steps: seq<Step>, n: nat)
    requires IsRun(C, d, states, steps) && n < |states| && Fitting(C, states, n)
    ensures Inv(C, Recovered(C.L, d), states[n])
  {
    hide Inv, Next, Recovered;
    if n == 0 {
      BootInv(C, d, states[0]);
    } else {
      RunInv(C, d, states, steps, n - 1);
      StepKeeps(C, Recovered(C.L, d), states[n - 1], steps[n - 1], states[n]);
    }
  }

  /** What a crash now would leave: the replay of a prefix of the log_writes, cut so that no
      operation has writes on both sides and no unfinished operation has any inside. */
  ghost predicate Atomic(C: Config, d0: seq<Block>, s: State) {
    && s.committed <= |s.history| && Recoverable(C.L, s.disk)
    && SameHome(C.L, Recovered(C.L, s.disk), StateAt(d0, s.history, s.committed))
    && (forall i, j :: 0 <= i < s.committed <= j < |s.history| ==> s.history[i].op != s.history[j].op)
    && (forall i, j :: 0 <= i < s.committed && 0 <= j < |s.ops| ==> s.history[i].op != s.ops[j].id)
  }

  /** Group atomicity. In every interleaving with any number of crashes, as long as the header
      has fitted the log, a crash now would recover the file system to a commit point. */
  lemma GroupAtomicity(C: Config, d: seq<Block>, states: seq<State>, steps: seq<Step>, n: nat)
    requires IsRun(C, d, states, steps) && n < |states| && Fitting(C, states, n)
    ensures Atomic(C, Recovered(C.L, d), states[n])
  {
    RunInv(C, d, states, steps, n);
    RecoversToCommitPoint(C, Recovered(C.L, d), states[n]);
  }

  /** Readers see every log_write so far: outside recovery the cache is the replay of the
      whole history, also while a commit is writing. */
  lemma CacheIsWholeHistory(C: Config, d: seq<Block>, states: seq<State>, steps: seq<Step>, n: nat)
    requires IsRun(C, d, states, steps) && n < |states| && Fitting(C, states, n) && !states[n].phase.Recovering?
    ensures var s := states[n];
            SameHome(C.L, s.view, StateAt(Recovered(C.L, d), s.history, |s.history|))
  {
    RunInv(C, d, states, steps, n);
    var s := states[n];
    if s.phase.Committing? {
      var base, cached, k := s.phase.base, s.phase.cached, s.phase.k;
      var c :| 0 <= c <= |s.history| && Buffered(C, Recovered(C.L, d), s, base, cached, c)
               && (k <= |s.header| ==> c == s.committed);
      forall b | HomeBlock(C.L, s.view, b) ensures s.view[b] == cached[b] {
        CommitKeepsCache(C, base, cached, s.header, k, b);
      }
    }
  }

  lemma {:induction false} CommitKeepsCache(C: Config, base: seq<Block>, cached: seq<Block>, bs: seq<int>, k: nat,
                                            b: int)
    requires Erased(C.L, base) && |cached| == |base| && ValidTargets(C.L, cached, bs)
    requires k <= |CommitTrace(C.L, base, cached, bs)| && HomeBlock(C.L, cached, b)
    ensures Apply(cached, CommitTrace(C.L, base, cached, bs)[..k])[b] == cached[b]
  {
    if k > 0 {
      CommitKeepsCache(C, base, cached, bs, k - 1, b);
      ApplySnoc(cached, CommitTrace(C.L, base, cached, bs), k - 1);
    }
  }

  /** The commit point of `s` is still there in `s'`. */
  ghost predicate Durable(s: State, s': State) {
    && s.committed <= |s.history| && s.committed <= s'.committed <= |s'.history|
    && s'.history[..s.committed] == s.history[..s.committed]
  }

  lemma DurableTrans(a: State, b: State, c: State)
    requires Durable(a, b) && Durable(b, c)
    ensures Durable(a, c)
  {}

  lemma StepDurable(C: Config, s: State, step: Step, s': State)
    requires GroupInv(s) && Next(C, s, step, s')
    ensures Durable(s, s')
  {}

  /** A commit point, once reached, is kept by every later step, crashes included. */
  lemma {:induction false} CommitPointsLast(C: Config, d: seq<Block>, states: seq<State>, steps: seq<Step>, m: nat,
                                            n: nat)
    requires IsRun(C, d, states, steps) && m <= n < |states|
    ensures Durable(states[m], states[n])
    decreases n
  {
    if m == n {
      RunBase(C, d, states, steps, n);
    } else {
      CommitPointsLast(C, d, states, steps, m, n - 1);
      assert Durable(states[n - 1], states[n]) by {
        RunBase(C, d, states, steps, n - 1);
        StepDurable(C, states[n - 1], steps[n - 1], states[n]);
      }
      DurableTrans(states[m], states[n - 1], states[n]);
    }
  }

  // ---------------------------------------------------------------- log reservation

  function Unspent(C: Config, ops: seq<Op>): int {
    if ops == [] then 0 else Unspent(C, ops[..|ops| - 1]) + C.maxOp - ops[|ops| - 1].spent
  }

  /** One operation's share of the unspent budgets. */
  lemma {:induction false} UnspentShare(C: Config, ops: seq<Op>, i: nat)
    requires i < |ops|
    ensures Unspent(C, ops) == Unspent(C, Without(ops, i)) + C.maxOp - ops[i].spent
  {
    var n := |ops| - 1;
    if i == n {
      assert Without(ops, i) == ops[..n];
    } else {
      UnspentShare(C, ops[..n], i);
      assert Without(ops, i)[..n - 1] == Without(ops[..n], i);
    }
  }

  lemma {:induction false} UnspentBound(C: Config, ops: seq<Op>)
    requires forall i :: 0 <= i < |ops| ==> ops[i].spent <= C.maxOp
    ensures 0 <= Unspent(C, ops) <= |ops| * C.maxOp
  {
    if ops != [] { UnspentBound(C, ops[..|ops| - 1]); }
  }

  /** The hypothesis stated at begin_op: an operation adds at most MAXOPBLOCKS blocks. */
  ghost predicate WithinBudget(C: Config, s: State) {
    forall i :: 0 <= i < |s.ops| ==> s.ops[i].spent <= C.maxOp
  }

  ghost predicate Reserved(C: Config, s: State) {
    |s.header| + Unspent(C, s.ops) <= C.L.logSize
  }

  lemma OneMoreShare(k: int, m: int)
    ensures (k + 1) * m == k * m + m
  {}

  lemma StepReserves(C: Config, s: State, step: Step, s': State)
    requires Next(C, s, step, s') && Reserved(C, s) && WithinBudget(C, s) && WithinBudget(C, s')
    requires s.outstanding == |s.ops|
    requires s.phase.Idle? || s.ops == []
    ensures Reserved(C, s')
  {
    hide PhaseTrace, Put;
    match step
    case BeginOp =>
      UnspentBound(C, s.ops);
      OneMoreShare(s.outstanding, C.maxOp);
      assert s'.ops[..|s.ops|] == s.ops;
    case Check(i) =>
      UnspentShare(C, s.ops, i);
      UnspentShare(C, s'.ops, i);
      assert Without(s'.ops, i) == Without(s.ops, i);
    case Append(i, w) =>
      UnspentShare(C, s.ops, i);
      UnspentShare(C, s'.ops, i);
      assert Without(s'.ops, i) == Without(s.ops, i);
    case EndOp(i) =>
      UnspentShare(C, s.ops, i);
    case _ =>
  }

  lemma {:induction false} ReservedInRun(C: Config, d: seq<Block>, states: seq<State>, steps: seq<Step>, n: nat)
    requires IsRun(C, d, states, steps) && n < |states|
    requires forall i :: 0 <= i < |states| ==> WithinBudget(C, states[i])
    ensures Reserved(C, states[n])
  {
    if n > 0 {
      ReservedInRun(C, d, states, steps, n - 1);
      RunBase(C, d, states, steps, n - 1);
      StepReserves(C, states[n - 1], steps[n - 1], states[n]);
    }
  }

  /** Log reservation. If no operation exceeds its budget, then in every interleaving the
      logged blocks and the unspent budgets together fit the log, logged block numbers are
      distinct, a commit runs only with no operation outstanding (so end_op's panic cannot
      be reached), and log_write's test lets an operation with budget left pass unless the
      on-disk log area itself is smaller than LOGSIZE + 1. */
  lemma LogReservation(C: Config, d: seq<Block>, states: seq<State>, steps: seq<Step>, n: nat)
    requires IsRun(C, d, states, steps) && n < |states|
    requires forall i :: 0 <= i < |states| ==> WithinBudget(C, states[i])
    ensures var s := states[n];
      && 0 <= Unspent(C, s.ops)
      && |s.header| + Unspent(C, s.ops) <= C.L.logSize
      && Distinct(s.header)
      && (s.committing ==> s.outstanding == 0)
      && (s.ops != [] ==> !s.committing)
      && (forall i :: 0 <= i < |s.ops| && s.ops[i].spent < C.maxOp ==>
            |s.header| < C.L.logSize && (LogWritePanics(C, s) <==> |s.header| >= C.L.size - 1))
  {
    RunBase(C, d, states, steps, n);
    ReservedInRun(C, d, states, steps, n);
    var s := states[n];
    UnspentBound(C, s.ops);
    forall i | 0 <= i < |s.ops| && s.ops[i].spent < C.maxOp
      ensures |s.header| < C.L.logSize
    {
      UnspentShare(C, s.ops, i);
      UnspentBound(C, Without(s.ops, i));
    }
  }

  // ---------------------------------------------------------------- when the header fits

  ghost predicate InBudget(C: Config, states: seq<State>) {
    forall i :: 0 <= i < |states| ==> WithinBudget(C, states[i])
  }

  /** Operations that keep their budgets never outgrow a log area of more than LOGSIZE blocks. */
  lemma BudgetsFit(C: Config, d: seq<Block>, states: seq<State>, steps: seq<Step>, n: nat)
    requires IsRun(C, d, states, steps) && n < |states| && InBudget(C, states) && C.L.logSize < C.L.size
    ensures Fitting(C, states, n)
  {
    forall i | 0 <= i <= n ensures Fits(C, states[i]) { LogReservation(C, d, states, steps, i); }
  }

  /** How many operations stand between log_write's test and its lock. */
  function Pending(ops: seq<Op>): nat {
    if ops == [] then 0 else Pending(ops[..|ops| - 1]) + if ops[|ops| - 1].checked then 1 else 0
  }

  lemma {:induction false} PendingShare(ops: seq<Op>, i: nat)
    requires i < |ops|
    ensures Pending(ops) == Pending(Without(ops, i)) + if ops[i].checked then 1 else 0
  {
    var n := |ops| - 1;
    if i == n {
      assert Without(ops, i) == ops[..n];
    } else {
      PendingShare(ops[..n], i);
      assert Without(ops, i)[..n - 1] == Without(ops[..n], i);
    }
  }

  /** The number of blocks at which log_write's test begins to fail. */
  function Limit(C: Config): nat {
    if C.L.size == 0 then 0 else if C.L.logSize < C.L.size - 1 then C.L.logSize else C.L.size - 1
  }

  /** With at most m operations past the test at once, m - 1 blocks too many can get in. */
  lemma {:induction false} OverrunBound(C: Config, d: seq<Block>, states: seq<State>, steps: seq<Step>, n: nat, m: nat)
    requires IsRun(C, d, states, steps) && n < |states| && 1 <= m
    requires forall i :: 0 <= i < |states| ==> Pending(states[i].ops) <= m
    ensures |states[n].header| + Pending(states[n].ops) <= Limit(C) + m - 1
  {
    hide Next, Limit;
    if n > 0 {
      OverrunBound(C, d, states, steps, n - 1, m);
      PendingStep(C, states[n - 1], steps[n - 1], states[n], m);
    }
  }

  lemma PendingStep(C: Config, s: State, step: Step, s': State, m: nat)
    requires Next(C, s, step, s') && 1 <= m && Pending(s'.ops) <= m
    requires |s.header| + Pending(s.ops) <= Limit(C) + m - 1
    ensures |s'.header| + Pending(s'.ops) <= Limit(C) + m - 1
  {
    hide PhaseTrace, Put;
    match step
    case BeginOp =>
      assert s'.ops[..|s.ops|] == s.ops;
    case Append(i, w) =>
      PendingShare(s.ops, i);
      PendingShare(s'.ops, i);
      assert Without(s'.ops, i) == Without(s.ops, i);
    case EndOp(i) =>
      PendingShare(s.ops, i);
    case _ =>
  }

  /** One operation at a time between test and lock is enough, whatever the sizes and budgets. */
  lemma LoneCheckFits(C: Config, d: seq<Block>, states: seq<State>, steps: seq<Step>, n: nat)
    requires IsRun(C, d, states, steps) && n < |states|
    requires forall i :: 0 <= i < |states| ==> Pending(states[i].ops) <= 1
    ensures Fitting(C, states, n)
  {
    forall i | 0 <= i <= n ensures Fits(C, states[i]) { OverrunBound(C, d, states, steps, i, 1); }
  }
}
