/** The on-disk redo log of log.c, as traces of atomic block writes.

    A disk is a sequence of blocks and a block is a sequence of machine words.
    Every bwrite is one element of a trace; a crash keeps a prefix of the trace.
    The functions below give the exact traces of commit() and recover_from_log(),
    and the lemmas say what any crash in the middle of them leaves behind. */
module RedoLog {

  type Block = seq<int>

  datatype Write = Write(blockno: int, data: Block)

  /** Where the log lies on the disk (sb.logstart and sb.nlog), and LOGSIZE. */
  datatype Layout = Layout(start: nat, size: nat, logSize: nat)

  function Put(d: seq<Block>, w: Write): seq<Block> {
    if 0 <= w.blockno < |d| then d[w.blockno := w.data] else d
  }

  /** The disk after a trace of writes, in order. */
  function Apply(d: seq<Block>, ws: seq<Write>): (r: seq<Block>)
    ensures |r| == |d|
  {
    if ws == [] then d else Put(Apply(d, ws[..|ws| - 1]), ws[|ws| - 1])
  }

  // ---------------------------------------------------------------- the header block

  /** struct logheader laid over a block: word 0 is n, words 1..n are block numbers. */
  ghost predicate HeaderOk(L: Layout, hb: Block) {
    && L.logSize + 1 < |hb|                          // initlog: the header is smaller than a block
    && 0 <= hb[0] <= L.logSize
    && hb[0] < L.size
  }

  function Targets(hb: Block): seq<int>
    requires 0 < |hb| && 0 <= hb[0] < |hb|
  {
    hb[1..1 + hb[0]]
  }

  /** write_head overwrites n and the first n entries and keeps the rest of the block. */
  function WithHeader(hb: Block, bs: seq<int>): Block
    requires |bs| < |hb|
  {
    [|bs|] + bs + hb[1 + |bs|..]
  }

  predicate InLog(L: Layout, b: int) {
    L.start <= b < L.start + L.size
  }

  predicate HomeBlock(L: Layout, d: seq<Block>, b: int) {
    0 <= b < |d| && !InLog(L, b)
  }

  ghost predicate ValidTargets(L: Layout, d: seq<Block>, bs: seq<int>) {
    && |bs| <= L.logSize && |bs| < L.size
    && forall t :: 0 <= t < |bs| ==> HomeBlock(L, d, bs[t])
  }

  /** A disk that recovery may be run on. */
  ghost predicate Recoverable(L: Layout, d: seq<Block>) {
    && 0 < L.size && L.start + L.size <= |d|
    && HeaderOk(L, d[L.start])
    && ValidTargets(L, d, Targets(d[L.start]))
  }

  ghost predicate Erased(L: Layout, d: seq<Block>) {
    Recoverable(L, d) && d[L.start][0] == 0
  }

  ghost predicate SameHome(L: Layout, d: seq<Block>, e: seq<Block>) {
    |d| == |e| && forall b :: HomeBlock(L, d, b) ==> d[b] == e[b]
  }

  // ---------------------------------------------------------------- the traces

  /** install_trans: copy log block t+1 to its home, for each t. */
  function InstallTrace(L: Layout, d: seq<Block>, bs: seq<int>): (r: seq<Write>)
    requires L.start + 1 + |bs| <= |d|
    ensures |r| == |bs|
  {
    seq(|bs|, t requires 0 <= t < |bs| => Write(bs[t], d[L.start + 1 + t]))
  }

  /** recover_from_log: install what the header names, then clear the header. */
  ghost function RecoverTrace(L: Layout, d: seq<Block>): seq<Write>
    requires Recoverable(L, d)
  {
    InstallTrace(L, d, Targets(d[L.start])) + [Write(L.start, WithHeader(d[L.start], []))]
  }

  ghost function Recovered(L: Layout, d: seq<Block>): seq<Block>
    requires Recoverable(L, d)
  {
    Apply(d, RecoverTrace(L, d))
  }

  /** write_log: copy each modified cache block into the log. */
  ghost function LogTrace(L: Layout, view: seq<Block>, bs: seq<int>): (r: seq<Write>)
    requires ValidTargets(L, view, bs)
    ensures |r| == |bs|
  {
    seq(|bs|, t requires 0 <= t < |bs| => Write(L.start + 1 + t, view[bs[t]]))
  }

  /** commit: log the blocks, write the header, install the blocks, erase the header.
      `d` is the disk, `view` the buffer cache's contents, `bs` the in-memory header. */
  ghost function CommitTrace(L: Layout, d: seq<Block>, view: seq<Block>, bs: seq<int>): (r: seq<Write>)
    requires Erased(L, d) && |view| == |d| && ValidTargets(L, view, bs)
    ensures |r| == if bs == [] then 0 else 2 * |bs| + 2
  {
    if bs == [] then []
    else
      LogTrace(L, view, bs)
      + [Write(L.start, WithHeader(d[L.start], bs))]
      + seq(|bs|, t requires 0 <= t < |bs| => Write(bs[t], view[bs[t]]))
      + [Write(L.start, WithHeader(WithHeader(d[L.start], bs), []))]
  }

  /** Copies of whole blocks, cs[t].0 to cs[t].1, each made from the cache as it is by then. */
  ghost function Copies(v: seq<Block>, cs: seq<(int, int)>): (r: seq<Write>)
    requires forall t :: 0 <= t < |cs| ==> 0 <= cs[t].0 < |v|
    ensures |r| == |cs| && forall t :: 0 <= t < |cs| ==> r[t].blockno == cs[t].1
  {
    if cs == [] then []
    else
      var ws, c := Copies(v, cs[..|cs| - 1]), cs[|cs| - 1];
      ws + [Write(c.1, Apply(v, ws)[c.0])]
  }

  ghost function Outward(L: Layout, bs: seq<int>): (r: seq<(int, int)>)
    ensures |r| == |bs|
  {
    seq(|bs|, t requires 0 <= t < |bs| => (bs[t], L.start + 1 + t))
  }

  ghost function Homeward(L: Layout, bs: seq<int>): (r: seq<(int, int)>)
    ensures |r| == |bs|
  {
    seq(|bs|, t requires 0 <= t < |bs| => (L.start + 1 + t, bs[t]))
  }

  function Headed(hb: Block, bs: seq<int>): Block {
    if |bs| < |hb| then WithHeader(hb, bs) else hb
  }

  /** The writes of commit for any header, also one too long for the log area: nothing in the code
      keeps write_log from going on behind the log. The blocks must exist, or bread panics. */
  ghost function RawCommit(L: Layout, v: seq<Block>, bs: seq<int>): seq<Write> {
    if bs == [] || |v| <= L.start + |bs| || exists t :: 0 <= t < |bs| && !(0 <= bs[t] < |v|) then []
    else
      var ws1 := Copies(v, Outward(L, bs));
      var v1 := Apply(v, ws1);
      var head := Write(L.start, Headed(v1[L.start], bs));
      var v2 := Put(v1, head);
      var ws2 := Copies(v2, Homeward(L, bs));
      ws1 + [head] + ws2 + [Write(L.start, Headed(Apply(v2, ws2)[L.start], []))]
  }

  /** What CommitTrace consists of, in the order commit() produces it. */
  lemma CommitParts(L: Layout, d: seq<Block>, v: seq<Block>, bs: seq<int>)
    requires Erased(L, d) && |v| == |d| && ValidTargets(L, v, bs)
    ensures bs != [] ==>
      var ct, n := CommitTrace(L, d, v, bs), |bs|;
      && ct[..n] == LogTrace(L, v, bs)
      && ct[n] == Write(L.start, WithHeader(d[L.start], bs))
      && (forall t :: 0 <= t < n ==> ct[n + 1 + t] == Write(bs[t], v[bs[t]]))
      && ct[2 * n + 1] == Write(L.start, WithHeader(WithHeader(d[L.start], bs), []))
  {}

  // ---------------------------------------------------------------- applying traces

  lemma {:induction false} ApplyConcat(d: seq<Block>, xs: seq<Write>, ys: seq<Write>)
    ensures Apply(d, xs + ys) == Apply(Apply(d, xs), ys)
    decreases |ys|
  {
    if ys == [] {
      assert xs + ys == xs;
    } else {
      ApplyConcat(d, xs, ys[..|ys| - 1]);
      assert (xs + ys)[..|xs + ys| - 1] == xs + ys[..|ys| - 1];
    }
  }

  lemma ApplyNone(d: seq<Block>, ws: seq<Write>)
    ensures ws[..0] == [] && Apply(d, ws[..0]) == d
  {}

  lemma ApplyOne(d: seq<Block>, w: Write)
    ensures Apply(d, [w]) == Put(d, w)
  {}

  /** One more write of a trace. */
  lemma ApplySnoc(d: seq<Block>, ws: seq<Write>, k: nat)
    requires k < |ws|
    ensures Apply(d, ws[..k + 1]) == Put(Apply(d, ws[..k]), ws[k])
  {
    assert ws[..k + 1][..k] == ws[..k];
  }

  /** The same, for a loop that has performed ws[..k] and now performs ws[k] alone. */
  lemma ApplyNext(d: seq<Block>, ws: seq<Write>, k: nat)
    requires k < |ws|
    ensures Apply(Apply(d, ws[..k]), [ws[k]]) == Apply(d, ws[..k + 1])
    ensures ws[..k] + [ws[k]] == ws[..k + 1]
  {
    ApplyOne(Apply(d, ws[..k]), ws[k]);
    ApplySnoc(d, ws, k);
  }

  predicate Writes(ws: seq<Write>, b: int) {
    exists t :: 0 <= t < |ws| && ws[t].blockno == b
  }

  /** A block's final contents depend on its old contents only if the trace misses it. */
  lemma {:induction false} ApplyAgrees(d: seq<Block>, e: seq<Block>, ws: seq<Write>, b: int)
    requires |d| == |e| && 0 <= b < |d|
    requires Writes(ws, b) || d[b] == e[b]
    ensures Apply(d, ws)[b] == Apply(e, ws)[b]
    ensures !Writes(ws, b) ==> Apply(d, ws)[b] == d[b]
  {
    if ws != [] {
      var ws', w := ws[..|ws| - 1], ws[|ws| - 1];
      if w.blockno != b {
        if Writes(ws, b) {
          var t :| 0 <= t < |ws| && ws[t].blockno == b;
          assert ws'[t].blockno == b;
        }
        ApplyAgrees(d, e, ws', b);
      } else {
        assert ws[|ws| - 1].blockno == b;
      }
    }
  }

  /** When every write stores a fixed function of its block number, the last one does too. */
  lemma {:induction false} ApplyFrom(d: seq<Block>, ws: seq<Write>, v: seq<Block>, b: int)
    requires |d| == |v| && 0 <= b < |d|
    requires forall t :: 0 <= t < |ws| ==> 0 <= ws[t].blockno < |v| && ws[t].data == v[ws[t].blockno]
    ensures Apply(d, ws)[b] == if Writes(ws, b) then v[b] else d[b]
  {
    if ws != [] {
      var ws' := ws[..|ws| - 1];
      ApplyFrom(d, ws', v, b);
      assert Writes(ws, b) <==> Writes(ws', b) || ws[|ws| - 1].blockno == b by {
        if Writes(ws, b) {
          var t :| 0 <= t < |ws| && ws[t].blockno == b;
          if t < |ws'| { assert ws'[t].blockno == b; }
        }
        if Writes(ws', b) {
          var t :| 0 <= t < |ws'| && ws'[t].blockno == b;
          assert ws[t].blockno == b;
        }
      }
    }
  }

  /** write_log changes no home block and not the header. */
  lemma LogTraceMisses(L: Layout, v: seq<Block>, bs: seq<int>, k: nat)
    requires ValidTargets(L, v, bs) && k <= |bs| && 0 < L.size && L.start + L.size <= |v|
    ensures var e := Apply(v, LogTrace(L, v, bs)[..k]); SameHome(L, e, v) && e[L.start] == v[L.start]
  {
    var ws := LogTrace(L, v, bs)[..k];
    forall b | HomeBlock(L, v, b) || b == L.start ensures Apply(v, ws)[b] == v[b] {
      ApplyAgrees(v, v, ws, b);
    }
  }

  /** install_trans changes no block of the log. */
  lemma InstallTraceMisses(L: Layout, v: seq<Block>, bs: seq<int>, k: nat)
    requires ValidTargets(L, v, bs) && k <= |bs| && L.start + L.size <= |v|
    ensures var e := Apply(v, InstallTrace(L, v, bs)[..k]); forall b :: InLog(L, b) ==> e[b] == v[b]
  {
    var ws := InstallTrace(L, v, bs)[..k];
    forall b | InLog(L, b) ensures Apply(v, ws)[b] == v[b] {
      assert forall t :: 0 <= t < |ws| ==> HomeBlock(L, v, bs[t]);
      ApplyAgrees(v, v, ws, b);
    }
  }

  /** Copies that never read a block an earlier one has written are copies of the old contents. */
  lemma {:induction false} CopiesApart(v: seq<Block>, cs: seq<(int, int)>)
    requires forall t :: 0 <= t < |cs| ==> 0 <= cs[t].0 < |v|
    requires forall s, t :: 0 <= s < t < |cs| ==> cs[s].1 != cs[t].0
    ensures forall t :: 0 <= t < |cs| ==> Copies(v, cs)[t] == Write(cs[t].1, v[cs[t].0])
  {
    if cs != [] {
      var front, c := cs[..|cs| - 1], cs[|cs| - 1];
      CopiesApart(v, front);
      ApplyAgrees(v, v, Copies(v, front), c.0);
    }
  }

  lemma RawLogPart(L: Layout, v: seq<Block>, bs: seq<int>)
    requires ValidTargets(L, v, bs) && 0 < L.size && L.start + L.size <= |v|
    ensures Copies(v, Outward(L, bs)) == LogTrace(L, v, bs)
  {
    hide Copies;
    assert forall t :: 0 <= t < |bs| ==> HomeBlock(L, v, bs[t]);
    CopiesApart(v, Outward(L, bs));
  }

  /** From a view that has the header written and the log filled in. */
  lemma RawInstallPart(L: Layout, v: seq<Block>, w: seq<Block>, bs: seq<int>)
    requires ValidTargets(L, v, bs) && 0 < L.size && L.start + L.size <= |v| == |w|
    requires forall t :: 0 <= t < |bs| ==> w[L.start + 1 + t] == v[bs[t]]
    ensures var ws := Copies(w, Homeward(L, bs));
      && (forall t :: 0 <= t < |bs| ==> ws[t] == Write(bs[t], v[bs[t]]))
      && Apply(w, ws)[L.start] == w[L.start]
  {
    hide Copies, Apply;
    assert forall t :: 0 <= t < |bs| ==> HomeBlock(L, v, bs[t]);
    CopiesApart(w, Homeward(L, bs));
    ApplyAgrees(w, w, Copies(w, Homeward(L, bs)), L.start);
  }

  lemma {:induction false} LogContents(L: Layout, v: seq<Block>, bs: seq<int>, k: nat)
    requires 0 < L.size && L.start + L.size <= |v| && ValidTargets(L, v, bs) && k <= |bs|
    ensures forall t :: 0 <= t < k ==> Apply(v, LogTrace(L, v, bs)[..k])[L.start + 1 + t] == v[bs[t]]
  {
    if k > 0 {
      LogContents(L, v, bs, k - 1);
      ApplySnoc(v, LogTrace(L, v, bs), k - 1);
    }
  }

  /** For a header that fits the log, what the code writes is the commit trace. */
  lemma RawIsCommit(L: Layout, d: seq<Block>, v: seq<Block>, bs: seq<int>)
    requires Erased(L, d) && |v| == |d| && ValidTargets(L, v, bs) && v[L.start] == d[L.start]
    ensures RawCommit(L, v, bs) == CommitTrace(L, d, v, bs)
  {
    hide Copies, Apply, WithHeader;
    if bs != [] {
      var n, ws1 := |bs|, LogTrace(L, v, bs);
      assert HomeBlock(L, v, bs[0]);
      RawLogPart(L, v, bs);
      assert ws1[..n] == ws1;
      LogTraceMisses(L, v, bs, n);
      LogContents(L, v, bs, n);
      var v1 := Apply(v, ws1);
      HeaderRoundTrip(d[L.start], bs);
      var v2 := Put(v1, Write(L.start, WithHeader(d[L.start], bs)));
      RawInstallPart(L, v, v2, bs);
      assert Copies(v2, Homeward(L, bs)) == seq(n, t requires 0 <= t < n => Write(bs[t], v[bs[t]]));
    }
  }

  // ---------------------------------------------------------------- crashes during recovery

  lemma HeaderRoundTrip(hb: Block, bs: seq<int>)
    requires |bs| < |hb|
    ensures |WithHeader(hb, bs)| == |hb|
    ensures WithHeader(hb, bs)[0] == |bs|
    ensures Targets(WithHeader(hb, bs)) == bs
    ensures WithHeader(WithHeader(hb, bs), bs) == WithHeader(hb, bs)
  {}

  /** A prefix of the recovery trace touches only home blocks named by the header, or
      is the whole trace. */
  lemma RecoveryPrefix(L: Layout, d: seq<Block>, k: nat)
    requires Recoverable(L, d) && k < |RecoverTrace(L, d)|
    ensures var bs := Targets(d[L.start]);
            RecoverTrace(L, d)[..k] == InstallTrace(L, d, bs)[..k]
    ensures var e := Apply(d, RecoverTrace(L, d)[..k]);
            forall b :: 0 <= b < |d| && !Writes(InstallTrace(L, d, Targets(d[L.start])), b) ==> e[b] == d[b]
  {
    var bs := Targets(d[L.start]);
    var ws := InstallTrace(L, d, bs)[..k];
    assert RecoverTrace(L, d)[..k] == ws;
    forall b | 0 <= b < |d| && !Writes(InstallTrace(L, d, bs), b)
      ensures Apply(d, ws)[b] == d[b]
    {
      ApplyAgrees(d, d, ws, b);
    }
  }

  /** The log area is never an install target. */
  lemma LogAreaUntouched(L: Layout, d: seq<Block>, b: int)
    requires Recoverable(L, d) && InLog(L, b)
    ensures !Writes(InstallTrace(L, d, Targets(d[L.start])), b)
  {}

  /** After a complete recovery the header is clear and only targets have changed. */
  lemma RecoveryErases(L: Layout, d: seq<Block>)
    requires Recoverable(L, d)
    ensures Erased(L, Recovered(L, d))
    ensures forall b :: 0 <= b < |d| && InLog(L, b) && b != L.start ==> Recovered(L, d)[b] == d[b]
    ensures Recovered(L, d)[L.start] == WithHeader(d[L.start], [])
    ensures SameHome(L, Recovered(L, d), Apply(d, InstallTrace(L, d, Targets(d[L.start]))))
  {
    var ws := InstallTrace(L, d, Targets(d[L.start]));
    var w := Write(L.start, WithHeader(d[L.start], []));
    assert RecoverTrace(L, d)[..|ws|] == ws;
    forall b | 0 <= b < |d| && InLog(L, b) ensures Apply(d, ws)[b] == d[b] {
      LogAreaUntouched(L, d, b);
      ApplyAgrees(d, d, ws, b);
    }
    HeaderRoundTrip(d[L.start], []);
  }

  /** recover_from_log's own last step, seen from the disk that install_trans left. */
  lemma RecoveryLastWrite(L: Layout, d: seq<Block>)
    requires Recoverable(L, d)
    ensures var ws := InstallTrace(L, d, Targets(d[L.start])); var e := Apply(d, ws);
            && e[L.start] == d[L.start] && RecoverTrace(L, d)[..|ws|] == ws
            && RecoverTrace(L, d) == ws + [Write(L.start, WithHeader(e[L.start], []))]
            && Recovered(L, d) == Apply(e, [Write(L.start, WithHeader(e[L.start], []))])
  {
    var ws := InstallTrace(L, d, Targets(d[L.start]));
    LogAreaUntouched(L, d, L.start);
    ApplyAgrees(d, d, ws, L.start);
    ApplyConcat(d, ws, [Write(L.start, WithHeader(d[L.start], []))]);
  }

  /** Recovery is idempotent under crashes: stopping it after any number of writes and
      starting it again gives the very disk that one uninterrupted recovery gives. */
  lemma CrashedRecovery(L: Layout, d: seq<Block>, k: nat)
    requires Recoverable(L, d) && k <= |RecoverTrace(L, d)|
    ensures var e := Apply(d, RecoverTrace(L, d)[..k]);
            Recoverable(L, e) && Recovered(L, e) == Recovered(L, d)
  {
    var rt := RecoverTrace(L, d);
    var bs := Targets(d[L.start]);
    var ws := InstallTrace(L, d, bs);
    var e := Apply(d, rt[..k]);
    if k == |rt| {
      assert rt[..k] == rt;
      RecoveryErases(L, d);
      HeaderRoundTrip(d[L.start], []);
      assert RecoverTrace(L, e) == [Write(L.start, e[L.start])];
      assert Apply(e, RecoverTrace(L, e)) == Put(Apply(e, []), RecoverTrace(L, e)[0]);
    } else {
      RecoveryPrefix(L, d, k);
      forall b | InLog(L, b) ensures e[b] == d[b] { LogAreaUntouched(L, d, b); }
      assert InstallTrace(L, e, bs) == ws;
      assert RecoverTrace(L, e) == rt;
      forall b | 0 <= b < |d| ensures Apply(e, rt)[b] == Apply(d, rt)[b] {
        if Writes(ws, b) {
          var t :| 0 <= t < |ws| && ws[t].blockno == b;
          assert rt[t].blockno == b;
        }
        ApplyAgrees(d, e, rt, b);
      }
      assert Apply(e, rt) == Apply(d, rt);
    }
  }

  /** The disk after recovery attempts that crash after ks[0], ks[1], ... writes. */
  ghost function CrashedAttempts(L: Layout, d: seq<Block>, ks: seq<nat>): (r: seq<Block>)
    requires Recoverable(L, d)
    ensures Recoverable(L, r) && Recovered(L, r) == Recovered(L, d)
    decreases |ks|
  {
    if ks == [] then d
    else
      var rt := RecoverTrace(L, d);
      var k := if ks[0] <= |rt| then ks[0] else |rt|;
      CrashedRecovery(L, d, k);
      CrashedAttempts(L, Apply(d, rt[..k]), ks[1..])
  }

  // ---------------------------------------------------------------- crashes during commit

  /** The disk right after the header write that commits the transaction. */
  ghost function Committed(L: Layout, d: seq<Block>, view: seq<Block>, bs: seq<int>): seq<Block>
    requires Erased(L, d) && |view| == |d| && ValidTargets(L, view, bs) && bs != []
  {
    Apply(d, CommitTrace(L, d, view, bs)[..|bs| + 1])
  }

  /** Before the header write, the log blocks alone have changed. */
  lemma {:induction false} LoggingPrefix(L: Layout, d: seq<Block>, view: seq<Block>, bs: seq<int>, k: nat)
    requires Erased(L, d) && |view| == |d| && ValidTargets(L, view, bs) && k <= |bs|
    ensures var e := Apply(d, LogTrace(L, view, bs)[..k]);
            && Erased(L, e) && SameHome(L, e, d) && e[L.start] == d[L.start]
            && forall t :: 0 <= t < k ==> e[L.start + 1 + t] == view[bs[t]]
  {
    if k > 0 {
      LoggingPrefix(L, d, view, bs, k - 1);
      ApplySnoc(d, LogTrace(L, view, bs), k - 1);
    }
  }

  /** What commit still has to write after its header is exactly a recovery. */
  lemma CommitTailIsRecovery(L: Layout, d: seq<Block>, view: seq<Block>, bs: seq<int>)
    requires Erased(L, d) && |view| == |d| && ValidTargets(L, view, bs) && bs != []
    ensures var c := Committed(L, d, view, bs);
            && Recoverable(L, c) && SameHome(L, c, d) && Targets(c[L.start]) == bs
            && RecoverTrace(L, c) == CommitTrace(L, d, view, bs)[|bs| + 1..]
  {
    hide Apply;
    var n := |bs|;
    var ct := CommitTrace(L, d, view, bs);
    var e := Apply(d, LogTrace(L, view, bs)[..n]);
    LoggingPrefix(L, d, view, bs, n);
    assert ct[..n] == LogTrace(L, view, bs)[..n];
    ApplySnoc(d, ct, n);
    HeaderRoundTrip(d[L.start], bs);
    var c := Committed(L, d, view, bs);
    assert c == e[L.start := WithHeader(d[L.start], bs)];
    assert RecoverTrace(L, c) == ct[n + 1..];
  }

  /** The home blocks after the transaction: the cache's version of every logged block. */
  ghost predicate Installed(L: Layout, d: seq<Block>, view: seq<Block>, bs: seq<int>, r: seq<Block>) {
    && |r| == |d| == |view|
    && forall b :: HomeBlock(L, d, b) ==> r[b] == if b in bs then view[b] else d[b]
  }

  lemma RecoveringCommitted(L: Layout, d: seq<Block>, view: seq<Block>, bs: seq<int>)
    requires Erased(L, d) && |view| == |d| && ValidTargets(L, view, bs) && bs != []
    ensures Recoverable(L, Committed(L, d, view, bs))
    ensures Installed(L, d, view, bs, Recovered(L, Committed(L, d, view, bs)))
  {
    hide Apply, CommitTrace, WithHeader;
    CommitTailIsRecovery(L, d, view, bs);
    CommitParts(L, d, view, bs);
    var c := Committed(L, d, view, bs);
    var ws := InstallTrace(L, c, bs);
    RecoveryErases(L, c);
    forall t | 0 <= t < |ws| ensures 0 <= ws[t].blockno < |view| && ws[t].data == view[ws[t].blockno] {
      assert RecoverTrace(L, c)[t] == CommitTrace(L, d, view, bs)[|bs| + 1..][t];
    }
    forall b | HomeBlock(L, d, b) ensures Apply(c, ws)[b] == if b in bs then view[b] else d[b] {
      ApplyFrom(c, ws, view, b);
      if b in bs {
        var t :| 0 <= t < |bs| && bs[t] == b;
        assert ws[t].blockno == b;
      }
    }
  }

  /** A crash after k of commit's writes, seen by the recovery that follows: the old home
      blocks if the header write had not happened, the new ones if it had. */
  lemma CrashedCommit(L: Layout, d: seq<Block>, view: seq<Block>, bs: seq<int>, k: nat)
    requires Erased(L, d) && |view| == |d| && ValidTargets(L, view, bs)
    requires k <= |CommitTrace(L, d, view, bs)|
    ensures var e := Apply(d, CommitTrace(L, d, view, bs)[..k]);
            && Recoverable(L, e)
            && (k <= |bs| ==> Erased(L, e) && SameHome(L, Recovered(L, e), d))
            && (k > |bs| ==> Installed(L, d, view, bs, Recovered(L, e)))
            && (bs != [] && k == |CommitTrace(L, d, view, bs)| ==> e == Recovered(L, e) && Erased(L, e))
  {
    hide Apply, CommitTrace, LogTrace, InstallTrace, RecoverTrace, WithHeader;
    var n := |bs|;
    var ct := CommitTrace(L, d, view, bs);
    var e := Apply(d, ct[..k]);
    CommitParts(L, d, view, bs);
    if k <= n {
      LoggingPrefix(L, d, view, bs, k);
      assert ct[..k] == LogTrace(L, view, bs)[..k] by { assert bs != [] ==> ct[..n][..k] == ct[..k]; }
      RecoveryErases(L, e);
      ApplyNone(e, InstallTrace(L, e, Targets(e[L.start])));
    } else {
      var c := Committed(L, d, view, bs);
      CommitTailIsRecovery(L, d, view, bs);
      RecoveringCommitted(L, d, view, bs);
      var rt := RecoverTrace(L, c);
      assert ct[..k] == ct[..n + 1] + rt[..k - (n + 1)];
      ApplyConcat(d, ct[..n + 1], rt[..k - (n + 1)]);
      CrashedRecovery(L, c, k - (n + 1));
      if k == |ct| {
        assert rt[..k - (n + 1)] == rt;
        RecoveryErases(L, c);
      }
    }
  }

  /** Crash atomicity. A commit that crashes anywhere, followed by any number of recovery
      attempts that crash anywhere, followed by one complete recovery, leaves the home blocks
      all old or all new, never a mixture, and leaves the on-disk header empty. */
  lemma CrashAtomicity(L: Layout, d: seq<Block>, view: seq<Block>, bs: seq<int>, k: nat, ks: seq<nat>)
    requires Erased(L, d) && |view| == |d| && ValidTargets(L, view, bs)
    requires k <= |CommitTrace(L, d, view, bs)|
    ensures var e := Apply(d, CommitTrace(L, d, view, bs)[..k]);
            && Recoverable(L, e)
            && var r := Recovered(L, CrashedAttempts(L, e, ks));
               && r[L.start][0] == 0
               && if k <= |bs| then SameHome(L, r, d) else Installed(L, d, view, bs, r)
  {
    CrashedCommit(L, d, view, bs, k);
    var e := Apply(d, CommitTrace(L, d, view, bs)[..k]);
    RecoveryErases(L, CrashedAttempts(L, e, ks));
  }
}
