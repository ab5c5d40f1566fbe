/** The file system of fs.c on top of the redo log of log.c: what a crash at any point leaves.

    A call's log_writes are the writes its FileSystem object records; a run of the log protocol
    performs them, one after another, as the edits of one operation. Recovery brings back the
    disk as it was before or after whole operations, never in between, and such a disk is sound. */
module FsCrash {
  import opened FsLayout
  import opened FsSteps
  import opened FileSystem
  import opened LogProtocol
  import RedoLog

  /** mkfs puts the log before the inode table. */
  predicate LogFirst(L: RedoLog.Layout, sb: Super) {
    L.start + L.size <= sb.inodestart
  }

  ghost predicate OneOperation(history: seq<Edit>, lo: nat, hi: nat)
    requires hi <= |history|
  {
    forall i, j :: lo <= i < j < hi ==> history[i].op == history[j].op
  }

  /** Operations that ran one at a time: between two marks every edit is by the same operation,
      and the edits after the last mark are by one that has not ended. */
  ghost predicate Serial(s: State, marks: seq<nat>) {
    && |marks| > 0 && marks[0] == 0 && (forall k :: 0 <= k < |marks| ==> marks[k] <= |s.history|)
    && (forall k :: 0 <= k < |marks| - 1 ==> OneOperation(s.history, marks[k], marks[k + 1]))
    && (forall i :: marks[|marks| - 1] <= i < |s.history| ==>
          exists j :: 0 <= j < |s.ops| && s.ops[j].id == s.history[i].op)
  }

  /** The mark at or below a point of the history. */
  lemma {:induction false} MarkBelow(marks: seq<nat>, c: nat) returns (k: nat)
    requires |marks| > 0 && marks[0] == 0
    ensures k < |marks| && marks[k] <= c && (k + 1 < |marks| ==> c < marks[k + 1])
    decreases |marks|
  {
    if marks[|marks| - 1] <= c {
      k := |marks| - 1;
    } else {
      k := MarkBelow(marks[..|marks| - 1], c);
    }
  }

  /** Whatever the run, a crash recovers the disk as it was after a whole number of operations. */
  lemma WholeOperations(C: Config, d: seq<RedoLog.Block>, states: seq<State>, steps: seq<Step>, n: nat,
                        marks: seq<nat>)
    returns (k: nat)
    requires IsRun(C, d, states, steps) && n < |states| && Fitting(C, states, n) && Serial(states[n], marks)
    ensures RedoLog.Recoverable(C.L, d) && RedoLog.Recoverable(C.L, states[n].disk)
    ensures k < |marks| && marks[k] == states[n].committed <= |states[n].history|
    ensures RedoLog.SameHome(C.L, RedoLog.Recovered(C.L, states[n].disk),
                             StateAt(RedoLog.Recovered(C.L, d), states[n].history, marks[k]))
  {
    GroupAtomicity(C, d, states, steps, n);
    k := MarkBelow(marks, states[n].committed);
    CutAtMark(states[n], marks, k);
  }

  lemma CutAtMark(s: State, marks: seq<nat>, k: nat)
    requires Serial(s, marks) && s.committed <= |s.history|
    requires forall i, j :: 0 <= i < s.committed <= j < |s.history| ==> s.history[i].op != s.history[j].op
    requires forall i, j :: 0 <= i < s.committed && 0 <= j < |s.ops| ==> s.history[i].op != s.ops[j].id
    requires k < |marks| && marks[k] <= s.committed && (k + 1 < |marks| ==> s.committed < marks[k + 1])
    ensures marks[k] == s.committed
  {
    hide Serial;
    InsideMarks(s, marks, k, s.committed);
  }

  /** A point strictly between two marks, or past the last one, cuts through an operation. */
  lemma InsideMarks(s: State, marks: seq<nat>, k: nat, c: nat)
    requires Serial(s, marks) && k < |marks| && marks[k] <= c <= |s.history|
    ensures k + 1 < |marks| && marks[k] < c < marks[k + 1] ==> c < |s.history| && s.history[c - 1].op == s.history[c].op
    ensures k + 1 == |marks| && marks[k] < c ==> exists j :: 0 <= j < |s.ops| && s.ops[j].id == s.history[c - 1].op
  {
    if k + 1 < |marks| {
      assert OneOperation(s.history, marks[k], marks[k + 1]);
    } else if marks[k] < c {
      assert s.history[c - 1].op == s.history[c - 1].op;
    }
  }

  /** Soundness and contents look at nothing before the inode table. */
  lemma LogAreaUnseen(L: RedoLog.Layout, sb: Super, blocks: seq<Block>, inos: seq<Inode>, owner: Owner,
                      blocks': seq<Block>)
    requires Sound(sb, blocks, inos, owner) && LogFirst(L, sb) && RedoLog.SameHome(L, blocks', blocks)
    ensures Sound(sb, blocks', inos, owner)
    ensures forall j :: 0 <= j < |inos| ==>
      FileBytes(blocks', inos[j], inos[j].size) == FileBytes(blocks, inos[j], inos[j].size)
  {
    hide Table, FileBytes, AllInside, SlotsStay;
    forall x | sb.inodestart <= x < |blocks| ensures blocks'[x] == blocks[x] {
      assert RedoLog.HomeBlock(L, blocks', x);
    }
    MetaWrite(sb, blocks, inos, owner, blocks');
    AllStay(blocks, inos, blocks');
    TableFrame(sb, blocks, blocks', |inos|);
  }

  /** An operation boundary: how many log_writes came before it, and the inodes and block owners
      of the file system there. */
  datatype Point = Point(at: nat, inos: seq<Inode>, owner: Owner)

  function Marks(points: seq<Point>): seq<nat> {
    seq(|points|, k requires 0 <= k < |points| => points[k].at)
  }

  /** The file system is sound at every operation boundary: what each call of FileSystem keeps. */
  ghost predicate SoundAt(sb: Super, d0: seq<Block>, history: seq<Edit>, points: seq<Point>) {
    forall k :: 0 <= k < |points| ==>
      points[k].at <= |history| && Sound(sb, StateAt(d0, history, points[k].at), points[k].inos, points[k].owner)
  }

  /** Disk r is a sound file system with exactly the files of disk b. */
  ghost predicate Holds(sb: Super, r: seq<Block>, b: seq<Block>, inos: seq<Inode>, owner: Owner) {
    && Sound(sb, r, inos, owner)
    && forall j :: 0 <= j < |inos| ==> FileBytes(r, inos[j], inos[j].size) == FileBytes(b, inos[j], inos[j].size)
  }

  /** Crash consistency over whole runs. Whatever operations ran, however often the machine
      crashed, and wherever it stops now, recovery yields a sound file system, with the files as
      they were after a whole number of operations. */
  lemma CrashConsistency(C: Config, d: seq<Block>, states: seq<State>, steps: seq<Step>, n: nat, sb: Super,
                         points: seq<Point>)
    returns (k: nat)
    requires IsRun(C, d, states, steps) && n < |states| && Fitting(C, states, n)
    requires LogFirst(C.L, sb) && RedoLog.Recoverable(C.L, d)
    requires Serial(states[n], Marks(points)) && SoundAt(sb, RedoLog.Recovered(C.L, d), states[n].history, points)
    ensures k < |points| && points[k].at == states[n].committed <= |states[n].history|
    ensures RedoLog.Recoverable(C.L, states[n].disk)
    ensures Holds(sb, RedoLog.Recovered(C.L, states[n].disk),
                  StateAt(RedoLog.Recovered(C.L, d), states[n].history, points[k].at), points[k].inos, points[k].owner)
  {
    hide Sound, StateAt, IsRun, RedoLog.Recovered, RedoLog.Recoverable, RedoLog.SameHome;
    k := WholeOperations(C, d, states, steps, n, Marks(points));
    LogAreaUnseen(C.L, sb, StateAt(RedoLog.Recovered(C.L, d), states[n].history, points[k].at),
                  points[k].inos, points[k].owner,
                  RedoLog.Recovered(C.L, states[n].disk));
  }

  // ---------------------------------------------------------------- one call

  /** The run, so far, of one operation x whose log_writes are ws, after log_writes l0 that are
      all committed: x has made some of its log_writes, and has ended only if it made them all. */
  ghost predicate CallInRun(C: Config, d: seq<Block>, states: seq<State>, steps: seq<Step>, n: nat, x: nat,
                            base: seq<Block>, l0: seq<RedoLog.Write>, ws: seq<RedoLog.Write>) {
    && IsRun(C, d, states, steps) && n < |states| && Fitting(C, states, n)
    && RedoLog.Recoverable(C.L, d) && base == RedoLog.Recovered(C.L, d)
    && var s := states[n];
       && |l0| <= s.committed <= |s.history| && WritesOf(s.history[..|l0|]) == l0
       && (forall t :: |l0| <= t < |s.history| ==> s.history[t].op == x)
       && var made := WritesOf(s.history[|l0|..]);
          && made <= ws && (made == ws || exists j :: 0 <= j < |s.ops| && s.ops[j].id == x)
  }

  lemma SameOperation(history: seq<Edit>, p: nat, c: nat, x: nat)
    requires p <= c && p < |history| && forall t :: p <= t < |history| ==> history[t].op == x
    ensures history[p].op == x && (c < |history| ==> history[c].op == history[p].op)
  {}

  lemma WritesConcat(a: seq<Edit>, b: seq<Edit>)
    ensures WritesOf(a + b) == WritesOf(a) + WritesOf(b)
  {}

  lemma CallCommits(C: Config, d: seq<Block>, states: seq<State>, steps: seq<Step>, n: nat, x: nat,
                    base: seq<Block>, l0: seq<RedoLog.Write>, ws: seq<RedoLog.Write>)
    requires CallInRun(C, d, states, steps, n, x, base, l0, ws)
    ensures RedoLog.Recoverable(C.L, states[n].disk)
    ensures var r := RedoLog.Recovered(C.L, states[n].disk);
      RedoLog.SameHome(C.L, r, RedoLog.Apply(base, l0)) || RedoLog.SameHome(C.L, r, RedoLog.Apply(base, l0 + ws))
  {
    hide IsRun, RedoLog.Recovered, RedoLog.Recoverable, RedoLog.SameHome, RedoLog.Apply;
    GroupAtomicity(C, d, states, steps, n);
    var s := states[n];
    if s.committed > |l0| {
      SameOperation(s.history, |l0|, s.committed, x);
      assert s.history[..s.committed] == s.history[..|l0|] + s.history[|l0|..];
      WritesConcat(s.history[..|l0|], s.history[|l0|..]);
    }
  }

  lemma Within(C: Config, d: seq<Block>, states: seq<State>, steps: seq<Step>, n: nat, x: nat,
               base: seq<Block>, l0: seq<RedoLog.Write>, ws: seq<RedoLog.Write>)
    requires CallInRun(C, d, states, steps, n, x, base, l0, ws)
    ensures n < |states|
  {}

  /** In every run that makes these log_writes, recovery after a crash at any point gives the
      files of disk b0 or the files of disk b1, and a sound file system either way. */
  ghost predicate AllOrNothing(sb: Super, base: seq<Block>, l0: seq<RedoLog.Write>, ws: seq<RedoLog.Write>,
                               n0: seq<Inode>, o0: Owner, n1: seq<Inode>, o1: Owner) {
    forall C: Config, d: seq<Block>, states: seq<State>, steps: seq<Step>, n: nat, x: nat ::
      CallInRun(C, d, states, steps, n, x, base, l0, ws) && LogFirst(C.L, sb) ==>
        && RedoLog.Recoverable(C.L, states[n].disk)
        && var r := RedoLog.Recovered(C.L, states[n].disk);
           Holds(sb, r, RedoLog.Apply(base, l0), n0, o0) || Holds(sb, r, RedoLog.Apply(base, l0 + ws), n1, o1)
  }

  lemma CallIsAtomic(sb: Super, base: seq<Block>, l0: seq<RedoLog.Write>, ws: seq<RedoLog.Write>,
                     n0: seq<Inode>, o0: Owner, n1: seq<Inode>, o1: Owner)
    requires Sound(sb, RedoLog.Apply(base, l0), n0, o0) && Sound(sb, RedoLog.Apply(base, l0 + ws), n1, o1)
    ensures AllOrNothing(sb, base, l0, ws, n0, o0, n1, o1)
  {
    hide Sound, CallInRun, RedoLog.Recovered, RedoLog.Recoverable, RedoLog.SameHome, RedoLog.Apply;
    var b0, b1 := RedoLog.Apply(base, l0), RedoLog.Apply(base, l0 + ws);
    forall C: Config, d: seq<Block>, states: seq<State>, steps: seq<Step>, n: nat, x: nat
      | CallInRun(C, d, states, steps, n, x, base, l0, ws) && LogFirst(C.L, sb)
      ensures n < |states| && RedoLog.Recoverable(C.L, states[n].disk)
      ensures var r := RedoLog.Recovered(C.L, states[n].disk); Holds(sb, r, b0, n0, o0) || Holds(sb, r, b1, n1, o1)
    {
      assert n < |states| by { Within(C, d, states, steps, n, x, base, l0, ws); }
      CallCommits(C, d, states, steps, n, x, base, l0, ws);
      var r := RedoLog.Recovered(C.L, states[n].disk);
      if RedoLog.SameHome(C.L, r, b0) {
        LogAreaUnseen(C.L, sb, b0, n0, o0, r);
      } else {
        LogAreaUnseen(C.L, sb, b1, n1, o1, r);
      }
    }
  }

  /** writei as one logged operation: a crash leaves the file's bytes all old or all new, and
      every other file as it was. It takes a write that grows the file or has no gap to fill, the
      ones after which the records on disk are up to date. */
  method AtomicWrite(fs: FileSystem, i: nat, off: nat, src: seq<int>) returns (r: Outcome, ghost ws: seq<RedoLog.Write>)
    requires fs.Valid() && i < |fs.inos| && fs.inos[i].typ != 0 && off < UINT && |src| < UINT
    modifies fs
    ensures |old(fs.inos[i]).addrs| == NDIRECT + 1
    ensures r.Refused? <==> off > old(fs.inos[i]).size || off + |src| > MAXFILE * BSIZE
    ensures r.Refused? ==> fs.Valid() && fs.log == old(fs.log) && fs.blocks == old(fs.blocks)
    ensures r.Done? ==>
      && fs.Working() && OthersSame(old(fs.blocks), old(fs.inos), fs.blocks, fs.inos, i)
      && fs.Contents(i) == Splice(old(fs.Contents(i)), off, src)
      && fs.log == old(fs.log) + ws
      && (fs.Valid() <==> off + |src| > old(fs.inos[i]).size || !Gap(old(fs.inos[i]), off, off + |src|))
      && (fs.Valid() ==>
            AllOrNothing(fs.sb, fs.base, old(fs.log), ws, old(fs.inos), old(fs.owner), fs.inos, fs.owner))
  {
    hide FileBytes, Splice, OthersSame, RedoLog.Apply, AllOrNothing, FsOk, AllInside, Table, FreeEmpty, Gap;
    fs.UpToDate();
    r := fs.Writei(i, off, src);
    ws := [];
    if r.Done? {
      ws := fs.log[|old(fs.log)|..];
      assert fs.log == old(fs.log) + ws;
      fs.UpToDate();
      if fs.Valid() {
        CallIsAtomic(fs.sb, fs.base, old(fs.log), ws, old(fs.inos), old(fs.owner), fs.inos, fs.owner);
      }
    }
  }

  // ---------------------------------------------------------------- any list of calls

  /** What a system call does to the file system, as one logged operation. */
  datatype Call =
    | WriteFile(i: nat, off: nat, src: seq<int>)
    | PutInode(i: nat, ref: nat, loaded: bool)
    | MakeInode(typ: int)

  /** What the callers of the inode layer see to. */
  predicate WellFormed(c: Call, ninodes: nat) {
    match c
    case WriteFile(i, off, src) => i < ninodes && off < UINT && |src| < UINT
    case PutInode(i, ref, _) => i < ninodes && 1 <= ref
    case MakeInode(typ) => typ != 0 && IsShort(typ)
  }

  /** Sound at every point of a list of log_writes. */
  ghost predicate SoundLog(sb: Super, base: seq<Block>, log: seq<RedoLog.Write>, points: seq<Point>) {
    forall k :: 0 <= k < |points| ==>
      && points[k].at <= |log|
      && Sound(sb, RedoLog.Apply(base, log[..points[k].at]), points[k].inos, points[k].owner)
  }

  lemma PointsKeep(sb: Super, base: seq<Block>, l0: seq<RedoLog.Write>, l1: seq<RedoLog.Write>, points: seq<Point>)
    requires SoundLog(sb, base, l0, points) && Grew(sb, l0, l1)
    ensures SoundLog(sb, base, l1, points)
  {
    hide Sound, RedoLog.Apply;
    forall k | 0 <= k < |points| ensures l1[..points[k].at] == l0[..points[k].at] {
      assert l1[..|l0|][..points[k].at] == l1[..points[k].at];
    }
  }

  lemma PointAdded(sb: Super, base: seq<Block>, blocks: seq<Block>, log: seq<RedoLog.Write>, inos: seq<Inode>,
                   owner: Owner, points: seq<Point>)
    requires SoundLog(sb, base, log, points) && Sound(sb, blocks, inos, owner) && blocks == RedoLog.Apply(base, log)
    ensures SoundLog(sb, base, log, points + [Point(|log|, inos, owner)])
  {
    hide Sound, RedoLog.Apply;
    assert log[..|log|] == log;
  }

  /** A run that makes these log_writes, has passed points 0 to m, and stands there or inside the
      operation that follows. */
  ghost predicate Performs(C: Config, d: seq<Block>, states: seq<State>, steps: seq<Step>, n: nat, m: nat,
                           base: seq<Block>, log: seq<RedoLog.Write>, points: seq<Point>) {
    && IsRun(C, d, states, steps) && n < |states| && Fitting(C, states, n) && m < |points|
    && RedoLog.Recoverable(C.L, d) && base == RedoLog.Recovered(C.L, d)
    && WritesOf(states[n].history) <= log && Serial(states[n], Marks(points[..m + 1]))
  }

  /** Whatever run makes these log_writes, and wherever it crashes, recovery gives a sound file
      system with the files as they were at one of the points. */
  ghost predicate AlwaysWhole(sb: Super, base: seq<Block>, log: seq<RedoLog.Write>, points: seq<Point>) {
    forall C: Config, d: seq<Block>, states: seq<State>, steps: seq<Step>, n: nat, m: nat ::
      Performs(C, d, states, steps, n, m, base, log, points) && LogFirst(C.L, sb) ==>
        && RedoLog.Recoverable(C.L, states[n].disk)
        && exists k :: 0 <= k <= m && AtPoint(sb, base, log, points[k], RedoLog.Recovered(C.L, states[n].disk))
  }

  ghost predicate AtPoint(sb: Super, base: seq<Block>, log: seq<RedoLog.Write>, p: Point, r: seq<Block>) {
    p.at <= |log| && Holds(sb, r, RedoLog.Apply(base, log[..p.at]), p.inos, p.owner)
  }

  lemma PerformsSound(C: Config, d: seq<Block>, states: seq<State>, steps: seq<Step>, n: nat, m: nat,
                      sb: Super, base: seq<Block>, log: seq<RedoLog.Write>, points: seq<Point>)
    requires Performs(C, d, states, steps, n, m, base, log, points) && SoundLog(sb, base, log, points)
    ensures SoundAt(sb, base, states[n].history, points[..m + 1])
    ensures forall k :: 0 <= k <= m ==>
      && points[k].at <= |states[n].history|
      && StateAt(base, states[n].history, points[k].at) == RedoLog.Apply(base, log[..points[k].at])
  {
    hide Sound, RedoLog.Apply, IsRun, Fitting, RedoLog.Recovered;
    var h, marks := states[n].history, Marks(points[..m + 1]);
    forall k | 0 <= k <= m
      ensures points[k].at <= |h| && WritesOf(h[..points[k].at]) == log[..points[k].at]
    {
      assert marks[k] == points[k].at;
      assert WritesOf(h[..points[k].at]) == WritesOf(h)[..points[k].at];
    }
  }

  lemma CallsSurvive(sb: Super, base: seq<Block>, log: seq<RedoLog.Write>, points: seq<Point>)
    requires SoundLog(sb, base, log, points)
    ensures AlwaysWhole(sb, base, log, points)
  {
    hide Sound, SoundLog, SoundAt, Holds, StateAt, Serial, IsRun, Fitting, RedoLog.Recovered, RedoLog.Recoverable;
    hide RedoLog.Apply;
    forall C: Config, d: seq<Block>, states: seq<State>, steps: seq<Step>, n: nat, m: nat
      | Performs(C, d, states, steps, n, m, base, log, points) && LogFirst(C.L, sb)
      ensures n < |states| && m < |points| && RedoLog.Recoverable(C.L, states[n].disk)
      ensures exists k :: 0 <= k <= m && AtPoint(sb, base, log, points[k], RedoLog.Recovered(C.L, states[n].disk))
    {
      PerformsSound(C, d, states, steps, n, m, sb, base, log, points);
      var k := CrashConsistency(C, d, states, steps, n, sb, points[..m + 1]);
      assert points[..m + 1][k] == points[k];
      assert points[k].at <= |log| by { SoundBound(sb, base, log, points, k); }
      assert AtPoint(sb, base, log, points[k], RedoLog.Recovered(C.L, states[n].disk));
    }
  }

  lemma SoundBound(sb: Super, base: seq<Block>, log: seq<RedoLog.Write>, points: seq<Point>, k: nat)
    requires SoundLog(sb, base, log, points) && k < |points|
    ensures points[k].at <= |log|
  {}

  lemma StaysSynced(b0: seq<Block>, n0: seq<Inode>, blocks: seq<Block>, inos: seq<Inode>, table: seq<Inode>, i: nat)
    requires i < |n0| && OthersSame(b0, n0, blocks, inos, i) && table == n0[i := inos[i]]
    ensures inos == table
  {}

  lemma SameLength(b0: seq<Block>, n0: seq<Inode>, blocks: seq<Block>, inos: seq<Inode>, i: nat)
    requires OthersSame(b0, n0, blocks, inos, i)
    ensures |inos| == |n0|
  {}

  /** A write that fills a gap of addrs and does not grow the file. */
  ghost predicate Patches(c: Call, inos: seq<Inode>) {
    && c.WriteFile? && c.i < |inos| && |inos[c.i].addrs| == NDIRECT + 1
    && c.off + |c.src| <= inos[c.i].size && Gap(inos[c.i], c.off, c.off + |c.src|)
  }

  /** Why a call has stopped in a panic: ilock's, balloc's or ialloc's. */
  ghost predicate Panics(c: Call, sb: Super, blocks: seq<Block>, inos: seq<Inode>) {
    match c
    case WriteFile(i, _, _) => (i < |inos| && inos[i].typ == 0) || DiskFull(sb, blocks)
    case PutInode(_, _, _) => false
    case MakeInode(_) => forall m :: 1 <= m < |inos| ==> inos[m].typ != 0
  }

  /** One call; not ok is a panic. The records on disk stay up to date unless it patches a gap. */
  method Perform(fs: FileSystem, c: Call) returns (ok: bool)
    requires fs.Working() && WellFormed(c, |fs.inos|)
    modifies fs
    ensures Grew(fs.sb, old(fs.log), fs.log)
    ensures ok ==> fs.Working() && |fs.inos| == |old(fs.inos)|
    ensures ok && old(fs.Valid()) ==> (fs.Valid() <==> !Patches(c, old(fs.inos)))
    ensures !ok ==> Panics(c, fs.sb, fs.blocks, fs.inos)
  {
    hide FileBytes, Splice, RedoLog.Apply, FsOk, AllInside, Table, FreeEmpty, Gap, Grew, DiskFull, Drop, OthersSame;
    hide Lags;
    ghost var b0, n0 := fs.blocks, fs.inos;
    fs.UpToDate();
    ShapeOf(fs.sb, fs.blocks, fs.inos, fs.owner);
    GrewNone(fs.sb, fs.log);
    match c
    case WriteFile(i, off, src) =>
      Directs(fs.sb, fs.blocks, fs.inos, fs.owner, i);
      SizeBound(fs.blocks, fs.inos, i);
      if fs.inos[i].typ == 0 { return false; }
      var r := fs.Writei(i, off, src);
      fs.UpToDate();
      if r.Done? { SameLength(b0, n0, fs.blocks, fs.inos, i); }
      return !r.Panicked?;
    case PutInode(i, ref, loaded) =>
      var left, still := fs.Iput(i, ref, loaded);
      fs.UpToDate();
      ShapeOf(fs.sb, fs.blocks, fs.inos, fs.owner);
      if n0 == Table(fs.sb, b0, |n0|) && fs.inos != n0 {
        StaysSynced(b0, n0, fs.blocks, fs.inos, Table(fs.sb, fs.blocks, |n0|), i);
      }
      return true;
    case MakeInode(typ) =>
      var r := fs.Ialloc(typ);
      fs.UpToDate();
      return r.Some?;
  }

  /** Any calls one after another on a file system just mounted, up to the first panic. The points
      are the boundaries up to the first call that patches a gap; up to there, a crash anywhere
      leaves the files as they were between two calls. */
  method RunCalls(fs: FileSystem, calls: seq<Call>) returns (n: nat, ghost points: seq<Point>)
    requires fs.Valid() && fs.log == [] && forall t :: 0 <= t < |calls| ==> WellFormed(calls[t], |fs.inos|)
    modifies fs
    ensures n <= |calls| && 1 <= |points| <= n + 1
    ensures AlwaysWhole(fs.sb, fs.base, fs.log, points)
    ensures points[0] == Point(0, old(fs.inos), old(fs.owner))
    ensures |points| <= n ==> Patches(calls[|points| - 1], points[|points| - 1].inos)
    ensures if n == |calls| then fs.Working() else Panics(calls[n], fs.sb, fs.blocks, fs.inos)
    ensures n == |calls| && |points| == n + 1 ==> fs.Valid() && points[n] == Point(|fs.log|, fs.inos, fs.owner)
  {
    hide Sound, RedoLog.Apply, Grew, Lags, FsOk, AllInside, Table, FreeEmpty, Patches, Panics, AlwaysWhole, SoundLog;
    fs.UpToDate();
    points := [Point(0, fs.inos, fs.owner)];
    FirstPoint(fs.sb, fs.base, fs.blocks, fs.inos, fs.owner);
    ghost var clean := true;
    n := 0;
    while n < |calls|
      invariant 0 <= n <= |calls| && fs.Working() && |fs.inos| == |old(fs.inos)|
      invariant 1 <= |points| <= n + 1 && points[0] == Point(0, old(fs.inos), old(fs.owner))
      invariant SoundLog(fs.sb, fs.base, fs.log, points)
      invariant clean <==> |points| == n + 1
      invariant !clean ==> Patches(calls[|points| - 1], points[|points| - 1].inos)
      invariant clean ==> fs.Valid() && points[n] == Point(|fs.log|, fs.inos, fs.owner)
    {
      ghost var l1 := fs.log;
      var ok := Perform(fs, calls[n]);
      PointsKeep(fs.sb, fs.base, l1, fs.log, points);
      if !ok { break; }
      if clean && fs.Valid() {
        PointAdded(fs.sb, fs.base, fs.blocks, fs.log, fs.inos, fs.owner, points);
        points := points + [Point(|fs.log|, fs.inos, fs.owner)];
      } else {
        clean := false;
      }
      n := n + 1;
    }
    CallsSurvive(fs.sb, fs.base, fs.log, points);
  }

  lemma FirstPoint(sb: Super, base: seq<Block>, blocks: seq<Block>, inos: seq<Inode>, owner: Owner)
    requires Sound(sb, blocks, inos, owner) && blocks == RedoLog.Apply(base, [])
    ensures SoundLog(sb, base, [], [Point(0, inos, owner)])
  {
    var none: seq<RedoLog.Write> := [];
    assert none[..0] == none;
  }
}
