/** The stride scheduler of proc.c: one pass of scheduler()'s two loops over the process table,
    and what repeated passes guarantee. */
module Stride {
  import opened Division

  datatype ProcState = UNUSED | EMBRYO | SLEEPING | RUNNABLE | RUNNING | ZOMBIE

  /** The fields of struct proc the scheduler reads and writes. */
  datatype Proc = Proc(state: ProcState, pid: int, tickets: int, pass: int, count: nat)

  const STRIDE1 := 10000

  predicate Runnable(p: Proc) {
    p.state == RUNNABLE
  }

  /** C's integer division, which truncates toward zero. */
  function Truncated(n: int, d: int): int
    requires n >= 0 && d != 0
  {
    if d > 0 then n / d else -(n / -d)
  }

  /** 10000 / p->tickets, which the source computes anew at each dispatch. */
  function StrideOf(p: Proc): int
    requires p.tickets != 0
  {
    Truncated(STRIDE1, p.tickets)
  }

  /** What the quotient is, in products: the largest multiple of the tickets within 10000. */
  lemma StrideIs(p: Proc)
    requires p.tickets != 0
    ensures 0 < p.tickets ==>
      0 <= StrideOf(p) && StrideOf(p) * p.tickets <= 10000 < (StrideOf(p) + 1) * p.tickets
    ensures p.tickets < 0 ==>
      StrideOf(p) <= 0 && StrideOf(p) * p.tickets <= 10000 < (StrideOf(p) - 1) * p.tickets
  {
    var t := if p.tickets > 0 then p.tickets else -p.tickets;
    var q := STRIDE1 / t;
    assert STRIDE1 == q * t + STRIDE1 % t;
    assert (q + 1) * t == q * t + t;
    if p.tickets < 0 {
      assert -q * -t == q * t && (-q - 1) * -t == q * t + t;
    }
  }

  /** Only one number is that. */
  lemma OneStride(p: Proc, g: int)
    requires 0 < p.tickets && 0 <= g && g * p.tickets <= 10000 < (g + 1) * p.tickets
    ensures g == StrideOf(p)
  {
    assert (g + 1) * p.tickets == g * p.tickets + p.tickets;
    Quotient(10000, p.tickets, g, 10000 - p.tickets * g);
  }

  /** What a scan relies on: the tickets of a runnable process can be divided by, and a pid names
      one runnable slot. Unused slots may hold anything. */
  ghost predicate Schedulable(ps: seq<Proc>) {
    && (forall i :: 0 <= i < |ps| && Runnable(ps[i]) ==> ps[i].tickets != 0)
    && (forall i, j :: 0 <= i < j < |ps| && Runnable(ps[i]) && Runnable(ps[j]) ==> ps[i].pid != ps[j].pid)
  }

  /** Slot k is the runnable process of least pass, the lowest slot among equals. */
  ghost predicate Chosen(ps: seq<Proc>, k: nat) {
    && k < |ps| && Runnable(ps[k])
    && (forall i :: 0 <= i < |ps| && Runnable(ps[i]) ==> ps[k].pass <= ps[i].pass)
    && (forall i :: 0 <= i < k && Runnable(ps[i]) ==> ps[k].pass < ps[i].pass)
  }

  /** The slot the first loop settles on among the first n, or |ps|: a negative least pass reads
      as "none yet", so any runnable process replaces it. */
  function Settled(ps: seq<Proc>, n: nat): (k: nat)
    requires n <= |ps|
    ensures k == |ps| || (k < n && Runnable(ps[k]))
    ensures k == |ps| <==> forall i :: 0 <= i < n ==> !Runnable(ps[i])
  {
    if n == 0 then |ps|
    else
      var k := Settled(ps, n - 1);
      if Runnable(ps[n - 1]) && (k == |ps| || ps[k].pass < 0 || ps[n - 1].pass < ps[k].pass) then n - 1 else k
  }

  /** Without negative passes the first loop finds the least pass. */
  lemma {:induction false} SettledLeast(ps: seq<Proc>, n: nat)
    requires n <= |ps| && forall i :: 0 <= i < n && Runnable(ps[i]) ==> ps[i].pass >= 0
    ensures var k := Settled(ps, n);
      k < |ps| ==>
        && (forall i :: 0 <= i < n && Runnable(ps[i]) ==> ps[k].pass <= ps[i].pass)
        && (forall i :: 0 <= i < k && Runnable(ps[i]) ==> ps[k].pass < ps[i].pass)
  {
    if n > 0 { SettledLeast(ps, n - 1); }
  }

  /** No runnable process from slot i on has a negative pass. */
  ghost predicate CleanFrom(ps: seq<Proc>, i: nat) {
    forall j :: i <= j < |ps| && Runnable(ps[j]) ==> ps[j].pass >= 0
  }

  /** What a scan prefers when passes may be negative: it forgets everything up to the last negative
      one, and behind that takes the least pass, the lowest slot among equals. */
  ghost predicate Preferred(ps: seq<Proc>, k: nat) {
    && k < |ps| && Runnable(ps[k]) && CleanFrom(ps, k + 1)
    && (ps[k].pass < 0 ==> forall j :: k < j < |ps| ==> !Runnable(ps[j]))
    && (ps[k].pass >= 0 ==> forall i :: 0 <= i < |ps| && Runnable(ps[i]) && CleanFrom(ps, i) ==>
          ps[k].pass <= ps[i].pass && (i < k ==> ps[k].pass < ps[i].pass))
  }

  lemma CleanFront(qs: seq<Proc>, x: Proc, i: nat)
    requires i <= |qs|
    ensures CleanFrom(qs + [x], i) <==> CleanFrom(qs, i) && (Runnable(x) ==> x.pass >= 0)
  {
    var ps := qs + [x];
    if CleanFrom(ps, i) {
      assert ps[|qs|] == x;
      assert forall j :: i <= j < |qs| ==> qs[j] == ps[j];
    }
  }

  /** One slot more. */
  lemma PreferredMore(qs: seq<Proc>, x: Proc, k: nat)
    requires Preferred(qs, k)
    ensures Preferred(qs + [x], if Runnable(x) && (qs[k].pass < 0 || x.pass < qs[k].pass) then |qs| else k)
  {
    var ps := qs + [x];
    CleanFront(qs, x, k + 1);
    forall i | 0 <= i < |qs| ensures CleanFrom(ps, i) ==> CleanFrom(qs, i) { CleanFront(qs, x, i); }
    hide CleanFrom;
    assert CleanFrom(ps, |qs| + 1) by { NothingBehind(ps); }
    assert forall i :: 0 <= i < |qs| ==> ps[i] == qs[i];
  }

  lemma NothingBehind(ps: seq<Proc>)
    ensures CleanFrom(ps, |ps|)
  {}

  /** The scan settles on the one slot it prefers. */
  lemma {:induction false} SettledPreferred(ps: seq<Proc>, n: nat)
    requires n <= |ps| && Settled(ps, n) < |ps|
    ensures Preferred(ps[..n], Settled(ps, n))
  {
    var qs := ps[..n - 1];
    assert ps[..n] == qs + [ps[n - 1]];
    if Settled(ps, n - 1) < |ps| {
      SettledPreferred(ps, n - 1);
      PreferredMore(qs, ps[n - 1], Settled(ps, n - 1));
    }
  }

  lemma PreferredUnique(ps: seq<Proc>, j: nat, k: nat)
    requires Preferred(ps, j) && Preferred(ps, k)
    ensures j == k
  {
    assert CleanFrom(ps, j) || ps[j].pass < 0;
    assert CleanFrom(ps, k) || ps[k].pass < 0;
  }

  /** With a negative pass at j the loop ends on j, or on something behind j. */
  lemma {:induction false} SettledBehind(ps: seq<Proc>, n: nat, j: nat)
    requires j < n <= |ps| && Runnable(ps[j]) && ps[j].pass < 0
    ensures j <= Settled(ps, n) < n
    ensures forall i :: j < i < n && Runnable(ps[i]) ==> Settled(ps, n) > j
    decreases n
  {
    if n - 1 > j { SettledBehind(ps, n - 1, j); }
  }

  ghost predicate LastRunnable(ps: seq<Proc>, k: nat) {
    k < |ps| && Runnable(ps[k]) && forall i :: k < i < |ps| ==> !Runnable(ps[i])
  }

  /** When a scan picks the process of least pass: exactly if no runnable pass is negative, or the
      process of least pass happens to be the last runnable one. */
  lemma PicksLeast(ps: seq<Proc>)
    requires exists i :: 0 <= i < |ps| && Runnable(ps[i])
    ensures Chosen(ps, Settled(ps, |ps|)) <==>
      || (forall i :: 0 <= i < |ps| && Runnable(ps[i]) ==> ps[i].pass >= 0)
      || (exists k: nat :: LastRunnable(ps, k) && Chosen(ps, k))
  {
    var k := Settled(ps, |ps|);
    SettledLeast(ps, if forall i :: 0 <= i < |ps| && Runnable(ps[i]) ==> ps[i].pass >= 0 then |ps| else 0);
    if j :| 0 <= j < |ps| && Runnable(ps[j]) && ps[j].pass < 0 {
      SettledBehind(ps, |ps|, j);
      if m: nat :| LastRunnable(ps, m) && Chosen(ps, m) {
        assert ps[m].pass < 0;
        SettledBehind(ps, |ps|, m);
      }
      if Chosen(ps, k) {
        assert ps[k].pass < 0;
        SettledBehind(ps, |ps|, k);
        assert LastRunnable(ps, k);
      }
    }
  }

  /** set_tickets takes any number: -1 gives pass -10000, and then a process of pass 1 in a later
      slot is preferred. */
  lemma NegativeTicketsMislead()
    ensures var ps := [Proc(RUNNABLE, 1, -1, Truncated(STRIDE1, -1), 0), Proc(RUNNABLE, 2, 1, 1, 0)];
      Settled(ps, 2) == 1 && Chosen(ps, 0)
  {
    var ps := [Proc(RUNNABLE, 1, -1, Truncated(STRIDE1, -1), 0), Proc(RUNNABLE, 2, 1, 1, 0)];
    assert Settled(ps, 1) == 0;
  }

  function Dispatched(p: Proc): Proc
    requires p.tickets != 0
  {
    p.(count := p.count + 1, pass := p.pass + StrideOf(p), state := RUNNING)
  }

  /** While the dispatched process runs the table may change at will, except that a pid of the
      table before the switch is not found runnable in another slot. */
  ghost predicate PidsStay(ps: seq<Proc>, later: seq<Proc>) {
    && |later| == |ps|
    && forall i, k :: 0 <= i < |ps| && 0 <= k < |ps| && Runnable(ps[k]) && Runnable(later[i]) ==>
         later[i].pid == ps[k].pid ==> i == k
  }

  class Scheduler {
    var proc: seq<Proc>
    var wPid: int

    /** The first loop of scheduler(): wPid becomes the pid of the slot it settles on, if any. */
    method Pick() returns (ghost best: nat)
      modifies this`wPid
      ensures best == Settled(proc, |proc|) && best <= |proc|
      ensures best < |proc| ==> Runnable(proc[best]) && wPid == proc[best].pid
      ensures best == |proc| ==> forall i :: 0 <= i < |proc| ==> !Runnable(proc[i])
    {
      var minPass := -1;
      best := |proc|;
      var p := 0;
      while p < |proc|
        invariant 0 <= p <= |proc| && best == Settled(proc, p)
        invariant best == |proc| ==> minPass == -1
        invariant best < |proc| ==> minPass == proc[best].pass && wPid == proc[best].pid
      {
        if Runnable(proc[p]) && (proc[p].pass < minPass || minPass < 0) {
          minPass := proc[p].pass;
          wPid := proc[p].pid;
          best := p;
        }
        p := p + 1;
      }
    }

    /** One pass of scheduler(): the first loop settles on a slot and its pid, the second looks
        that pid up among the runnable and dispatches it. The loop goes on behind swtch, over the
        table as the dispatched process leaves it, and dispatches nobody else. */
    method Pass(later: seq<Proc>) returns (k: nat, ghost switched: seq<Proc>)
      requires Schedulable(proc) && PidsStay(proc, later)
      modifies this
      ensures k <= |old(proc)|
      ensures k == |old(proc)| <==> forall i :: 0 <= i < |old(proc)| ==> !Runnable(old(proc)[i])
      ensures k == |old(proc)| ==> proc == switched == old(proc)
      ensures k < |old(proc)| ==>
        && Preferred(old(proc), k) && proc == later
        && |switched| == |old(proc)| && (forall i :: 0 <= i < |switched| && i != k ==> switched[i] == old(proc)[i])
      ensures k < |old(proc)| ==>
        var o, s := old(proc)[k], switched[k];
        && s.state == RUNNING && s.count == o.count + 1 && s.pid == o.pid && s.tickets == o.tickets
        && (0 < o.tickets ==>
              o.pass <= s.pass && (s.pass - o.pass) * o.tickets <= 10000 < (s.pass - o.pass + 1) * o.tickets)
        && (o.tickets < 0 ==>
              s.pass <= o.pass && (s.pass - o.pass) * o.tickets <= 10000 < (s.pass - o.pass - 1) * o.tickets)
      ensures k < |old(proc)|
              && (forall i :: 0 <= i < |old(proc)| && Runnable(old(proc)[i]) ==> old(proc)[i].pass >= 0) ==>
        Chosen(old(proc), k)
    {
      hide Settled, StrideOf, Preferred;
      ghost var ps := proc;
      ghost var best := Pick();
      k, switched := |proc|, proc;
      var p := 0;
      while p < |proc|
        invariant 0 <= p <= |proc| == |ps| && k <= |ps|
        invariant k == |ps| ==> proc == switched == ps && (best < |ps| ==> p <= best)
        invariant k < |ps| ==> k == best < p && proc == later && switched == ps[k := Dispatched(ps[k])]
        invariant best < |ps| ==> wPid == ps[best].pid
      {
        if Runnable(proc[p]) && proc[p].pid == wPid {
          assert k == |ps|;
          k := p;
          proc := proc[p := Dispatched(proc[p])];
          switched := proc;
          proc := later;
        }
        p := p + 1;
      }
      if k < |ps| {
        SettledPreferred(ps, |ps|);
        assert ps[..|ps|] == ps;
        StrideIs(ps[k]);
        if forall i :: 0 <= i < |ps| && Runnable(ps[i]) ==> ps[i].pass >= 0 { SettledLeast(ps, |ps|); }
      }
    }

    /** set_tickets for the process in slot me; false is the divide fault for 0 tickets. */
    method SetTickets(me: nat, tickets: int) returns (ok: bool)
      requires me < |proc|
      modifies this`proc
      ensures ok <==> tickets != 0
      ensures |proc| == |old(proc)| && forall i :: 0 <= i < |proc| && i != me ==> proc[i] == old(proc)[i]
      ensures ok ==> proc[me] == old(proc)[me].(tickets := tickets, pass := proc[me].pass)
      ensures !ok ==> proc[me] == old(proc)[me].(tickets := 0)
      ensures 0 < tickets ==> 0 <= proc[me].pass && proc[me].pass * tickets <= 10000 < (proc[me].pass + 1) * tickets
      ensures tickets < 0 ==> proc[me].pass <= 0 && proc[me].pass * tickets <= 10000 < (proc[me].pass - 1) * tickets
      ensures ok ==> (proc[me].pass == 0 <==> tickets > 10000 || tickets < -10000)
    {
      hide StrideOf;
      proc := proc[me := proc[me].(tickets := tickets)];
      if tickets == 0 { return false; }
      StrideIs(proc[me]);
      proc := proc[me := proc[me].(pass := StrideOf(proc[me]))];
      ZeroExactly(proc[me].pass, tickets);
      return true;
    }
  }

  lemma ZeroExactly(g: int, t: int)
    requires 0 < t ==> 0 <= g && g * t <= 10000 < (g + 1) * t
    requires t < 0 ==> g <= 0 && g * t <= 10000 < (g - 1) * t
    requires t != 0
    ensures g == 0 <==> t > 10000 || t < -10000
  {
    if 0 < t && g >= 1 { assert g * t >= t; }
    if t < 0 && g <= -1 { assert g * t >= -t by { assert g * t == -g * -t; assert -g * -t >= -t; } }
  }

  lemma ChosenUnique(ps: seq<Proc>, j: nat, k: nat)
    requires Chosen(ps, j) && Chosen(ps, k)
    ensures j == k
  {}

  // ---------------------------------------------------------------- fairness

  /** One round on one CPU in which the chosen process runs and yields. */
  ghost predicate Round(ps: seq<Proc>, k: nat, ps': seq<Proc>) {
    Chosen(ps, k) && ps[k].tickets > 0 && ps' == ps[k := Dispatched(ps[k]).(state := RUNNABLE)]
  }

  ghost predicate Rounds(trace: seq<seq<Proc>>, picks: seq<nat>) {
    && |trace| == |picks| + 1
    && (forall i :: 0 <= i < |trace[0]| && Runnable(trace[0][i]) ==> trace[0][i].tickets > 0)
    && forall n :: 0 <= n < |picks| ==> Round(trace[n], picks[n], trace[n + 1])
  }

  lemma {:induction false} RoundsFrame(trace: seq<seq<Proc>>, picks: seq<nat>, n: nat)
    requires Rounds(trace, picks) && n < |trace|
    ensures |trace[n]| == |trace[0]|
    ensures forall i :: 0 <= i < |trace[0]| ==>
      && trace[n][i].tickets == trace[0][i].tickets
      && (Runnable(trace[n][i]) <==> Runnable(trace[0][i]))
  {
    if n > 0 {
      RoundsFrame(trace, picks, n - 1);
      assert Round(trace[n - 1], picks[n - 1], trace[n]);
    }
  }

  function Max(a: int, b: int): int {
    if a < b then b else a
  }

  /** Stride fairness. With a fixed set of always-runnable processes, p's pass never gets ahead
      of q's by more than p's stride (or than it was ahead at the start). */
  lemma {:induction false} PassGap(trace: seq<seq<Proc>>, picks: seq<nat>, n: nat, p: nat, q: nat)
    requires Rounds(trace, picks) && n < |trace| && p < |trace[0]| && q < |trace[0]|
    requires Runnable(trace[0][p]) && Runnable(trace[0][q])
    ensures |trace[n]| == |trace[0]|
    ensures trace[n][p].pass - trace[n][q].pass <= Max(StrideOf(trace[0][p]), trace[0][p].pass - trace[0][q].pass)
  {
    RoundsFrame(trace, picks, n);
    if n > 0 {
      PassGap(trace, picks, n - 1, p, q);
      RoundsFrame(trace, picks, n - 1);
      assert Round(trace[n - 1], picks[n - 1], trace[n]);
    }
  }

  /** Every dispatch advances the pass by the stride and the count by one. */
  lemma {:induction false} PassCounts(trace: seq<seq<Proc>>, picks: seq<nat>, n: nat, p: nat)
    requires Rounds(trace, picks) && n < |trace| && p < |trace[0]| && Runnable(trace[0][p])
    ensures |trace[n]| == |trace[0]| && trace[n][p].count >= trace[0][p].count
    ensures trace[n][p].pass == trace[0][p].pass + (trace[n][p].count - trace[0][p].count) * StrideOf(trace[0][p])
  {
    RoundsFrame(trace, picks, n);
    if n > 0 {
      PassCounts(trace, picks, n - 1, p);
      RoundsFrame(trace, picks, n - 1);
      assert Round(trace[n - 1], picks[n - 1], trace[n]);
      var s, k := StrideOf(trace[0][p]), trace[n - 1][p].count - trace[0][p].count;
      assert (k + 1) * s == k * s + s;
    }
  }

  /** In strides: k_p * stride_p <= (k_q + 1) * stride_q. */
  lemma StrideShare(trace: seq<seq<Proc>>, picks: seq<nat>, n: nat, p: nat, q: nat)
    requires Rounds(trace, picks) && n < |trace| && p < |trace[0]| && q < |trace[0]|
    requires Runnable(trace[0][p]) && Runnable(trace[0][q])
    requires trace[0][p].pass == StrideOf(trace[0][p]) && trace[0][q].pass == StrideOf(trace[0][q])
    ensures |trace[n]| == |trace[0]| && trace[n][p].count >= trace[0][p].count && trace[n][q].count >= trace[0][q].count
    ensures var kp, kq := trace[n][p].count - trace[0][p].count, trace[n][q].count - trace[0][q].count;
            kp * StrideOf(trace[0][p]) <= (kq + 1) * StrideOf(trace[0][q])
  {
    PassGap(trace, picks, n, p, q);
    PassCounts(trace, picks, n, p);
    PassCounts(trace, picks, n, q);
    var kq, sq := trace[n][q].count - trace[0][q].count, StrideOf(trace[0][q]);
    assert (kq + 1) * sq == kq * sq + sq;
  }

  /** From strides to tickets: the stride times the tickets is 10000 less a remainder. */
  lemma TicketShare(kp: nat, kq: nat, sp: nat, sq: nat, tp: nat, tq: nat, rp: int, rq: int)
    requires kp * sp <= (kq + 1) * sq && sp * tp == 10000 - rp && sq * tq == 10000 - rq
    ensures kp * tq * (10000 - rp) <= (kq + 1) * tp * (10000 - rq)
  {
    calc {
      kp * tq * (10000 - rp);
      kp * tq * (sp * tp);
      (kp * sp) * (tq * tp);
    <= { Scale(kp * sp, (kq + 1) * sq, tq * tp); }
      ((kq + 1) * sq) * (tq * tp);
      (kq + 1) * tp * (sq * tq);
      (kq + 1) * tp * (10000 - rq);
    }
  }

  lemma Scale(a: int, b: int, c: int)
    requires a <= b && 0 <= c
    ensures a * c <= b * c
  {}

  /** Proportional share. Processes p and q with t_p and t_q tickets, started as set_tickets leaves
      them, have been dispatched k_p and k_q times after any number of rounds. Then k_p : t_p is at
      most k_q + 1 : t_q, up to the remainders of 10000 by the tickets, which are what the integer
      stride loses; without remainders k_p * t_q <= (k_q + 1) * t_p. */
  lemma ProportionalShare(trace: seq<seq<Proc>>, picks: seq<nat>, n: nat, p: nat, q: nat)
    requires Rounds(trace, picks) && n < |trace| && p < |trace[0]| && q < |trace[0]|
    requires Runnable(trace[0][p]) && Runnable(trace[0][q])
    requires var a := trace[0][p]; 0 <= a.pass && a.pass * a.tickets <= 10000 < (a.pass + 1) * a.tickets
    requires var b := trace[0][q]; 0 <= b.pass && b.pass * b.tickets <= 10000 < (b.pass + 1) * b.tickets
    ensures |trace[n]| == |trace[0]| && trace[n][p].count >= trace[0][p].count && trace[n][q].count >= trace[0][q].count
    ensures var kp, kq := trace[n][p].count - trace[0][p].count, trace[n][q].count - trace[0][q].count;
            var tp, tq := trace[0][p].tickets, trace[0][q].tickets;
      && 0 < tp && 0 < tq
      && kp * tq * (10000 - 10000 % tp) <= (kq + 1) * tp * (10000 - 10000 % tq)
      && (10000 % tp == 10000 % tq == 0 ==> kp * tq <= (kq + 1) * tp)
  {
    var a, b := trace[0][p], trace[0][q];
    assert 0 < a.tickets && 0 < b.tickets;
    OneStride(a, a.pass);
    OneStride(b, b.pass);
    StrideShare(trace, picks, n, p, q);
    var kp: nat, kq: nat := trace[n][p].count - a.count, trace[n][q].count - b.count;
    Remainder(a.pass, a.tickets);
    Remainder(b.pass, b.tickets);
    TicketShare(kp, kq, a.pass, b.pass, a.tickets, b.tickets, 10000 % a.tickets, 10000 % b.tickets);
  }

  lemma Remainder(g: int, t: int)
    requires 0 < t && g * t <= 10000 < (g + 1) * t
    ensures g * t == 10000 - 10000 % t
  {
    assert (g + 1) * t == g * t + t;
    Quotient(10000, t, g, 10000 - t * g);
  }

  // ---------------------------------------------------------------- no starvation

  /** A slot no process can be dispatched from until fork fills it. */
  predicate Idle(p: Proc) {
    p.state == UNUSED || p.state == EMBRYO
  }

  ghost predicate Ticketed(ps: seq<Proc>) {
    forall i :: 0 <= i < |ps| && !Idle(ps[i]) ==> 0 < ps[i].tickets <= STRIDE1
  }

  lemma TurnsAre(d: int, s: int)
    requires s > 0
    ensures d < 0 ==> d / s + 1 <= 0
    ensures d / s * s <= d < (d / s + 1) * s
  {
    assert (d / s + 1) * s == d / s * s + s;
  }

  /** How many times p can still be chosen while q waits. */
  function Turns(p: Proc, q: Proc): (r: nat)
    requires !Idle(p) ==> 0 < p.tickets <= STRIDE1
    ensures Idle(p) || q.pass < p.pass ==> r == 0
    ensures !Idle(p) && p.pass <= q.pass ==> (r - 1) * StrideOf(p) <= q.pass - p.pass < r * StrideOf(p)
  {
    if Idle(p) then 0
    else
      TurnsAre(q.pass - p.pass, StrideOf(p));
      var d := (q.pass - p.pass) / StrideOf(p) + 1;
      if d > 0 then d else 0
  }

  /** The sum of Turns over the first n slots other than q. */
  ghost function TurnsBefore(ps: seq<Proc>, q: nat, n: nat): nat
    requires q < |ps| && n <= |ps| && Ticketed(ps)
  {
    if n == 0 then 0 else TurnsBefore(ps, q, n - 1) + if n - 1 == q then 0 else Turns(ps[n - 1], ps[q])
  }

  lemma {:induction false} TurnsFewer(ps: seq<Proc>, ps': seq<Proc>, q: nat, n: nat)
    requires |ps'| == |ps| && q < |ps| && n <= |ps| && Ticketed(ps) && Ticketed(ps')
    requires forall i :: 0 <= i < |ps| ==> ps'[i].tickets == ps[i].tickets && (Idle(ps[i]) ==> Idle(ps'[i]))
    requires forall i :: 0 <= i < n || i == q ==> ps'[i].pass == ps[i].pass
    ensures TurnsBefore(ps', q, n) <= TurnsBefore(ps, q, n)
  {
    if n > 0 { TurnsFewer(ps, ps', q, n - 1); }
  }

  /** A dispatch of k while q waits uses up exactly one of k's turns. */
  lemma TurnStep(d: int, s: int)
    requires s > 0 && d >= 0
    ensures (d - s) / s == d / s - 1 && d / s >= 0
  {
    DivShift(d, s, -1);
    assert d + -1 * s == d - s;
  }

  lemma OneTurn(k: Proc, q: Proc)
    requires !Idle(k) && 0 < k.tickets <= STRIDE1 && k.pass <= q.pass
    ensures Turns(k.(pass := k.pass + StrideOf(k)), q) == Turns(k, q) - 1
  {
    var s, d := StrideOf(k), q.pass - k.pass;
    assert s > 0 && StrideOf(k.(pass := k.pass + s)) == s;
    TurnStep(d, s);
    assert q.pass - (k.pass + s) == d - s;
  }

  lemma {:induction false} DispatchTurns(ps: seq<Proc>, ps': seq<Proc>, q: nat, k: nat, n: nat)
    requires q < |ps| && k < |ps| == |ps'| && k != q && n <= |ps| && ps[k].pass <= ps[q].pass
    requires Ticketed(ps) && !Idle(ps[k]) && Ticketed(ps') && !Idle(ps'[k])
    requires forall i :: 0 <= i < |ps| && i != k ==> ps'[i] == ps[i]
    requires ps'[k].tickets == ps[k].tickets && ps'[k].pass == ps[k].pass + StrideOf(ps[k])
    ensures TurnsBefore(ps', q, n) == TurnsBefore(ps, q, n) - if k < n then 1 else 0
  {
    if n > 0 {
      DispatchTurns(ps, ps', q, k, n - 1);
      if k == n - 1 {
        OneTurn(ps[k], ps[q]);
        assert Turns(ps'[k], ps'[q]) == Turns(ps[k].(pass := ps'[k].pass), ps[q]);
      }
    }
  }

  /** One step of a run without fork or set_tickets: a dispatch, or processes sleeping, waking,
      exiting and being reaped, which touch neither pass nor tickets and fill no slot. */
  ghost predicate Step(ps: seq<Proc>, dispatch: bool, k: nat, ps': seq<Proc>) {
    && |ps'| == |ps|
    && (forall i :: 0 <= i < |ps| ==> ps'[i].tickets == ps[i].tickets)
    && if dispatch
       then Chosen(ps, k) && ps[k].tickets > 0 && ps' == ps[k := Dispatched(ps[k])]
       else forall i :: 0 <= i < |ps| ==>
         ps'[i].pass == ps[i].pass && ps'[i].count == ps[i].count && (Idle(ps[i]) ==> Idle(ps'[i]))
  }

  datatype Event = Event(dispatch: bool, k: nat)

  ghost predicate WaitingRun(trace: seq<seq<Proc>>, events: seq<Event>, q: nat) {
    && |trace| == |events| + 1 && q < |trace[0]|
    && Ticketed(trace[0])
    && (forall n :: 0 <= n < |trace| ==> q < |trace[n]| && Runnable(trace[n][q]))
    && forall n :: 0 <= n < |events| ==> Step(trace[n], events[n].dispatch, events[n].k, trace[n + 1])
  }

  function Dispatches(events: seq<Event>): nat {
    if events == [] then 0 else Dispatches(events[..|events| - 1]) + if events[|events| - 1].dispatch then 1 else 0
  }

  lemma {:induction false} WaitingUsesTurns(trace: seq<seq<Proc>>, events: seq<Event>, q: nat)
    requires WaitingRun(trace, events, q)
    ensures var last := trace[|events|];
      && |last| == |trace[0]| && Ticketed(last)
      && TurnsBefore(last, q, |last|) + Dispatches(events) <= TurnsBefore(trace[0], q, |trace[0]|)
    decreases |events|
  {
    if events != [] {
      var m := |events| - 1;
      var ps, ps' := trace[m], trace[m + 1];
      WaitingUsesTurns(trace[..m + 1], events[..m], q);
      assert Step(ps, events[m].dispatch, events[m].k, ps');
      assert Runnable(ps[q]) && Runnable(ps'[q]);
      if events[m].dispatch {
        DispatchTurns(ps, ps', q, events[m].k, |ps|);
      } else {
        TurnsFewer(ps, ps', q, |ps|);
      }
    }
  }

  /** No starvation. A process that stays runnable sees at most this many dispatches of others
      before its own: the sum over the other slots p of max(0, floor((pass_q - pass_p) / stride_p) + 1). */
  lemma NoStarvation(trace: seq<seq<Proc>>, events: seq<Event>, q: nat)
    requires WaitingRun(trace, events, q)
    ensures Dispatches(events) <= TurnsBefore(trace[0], q, |trace[0]|)
  {
    WaitingUsesTurns(trace, events, q);
  }

  /** While q waits, pass_q stays, and p's last dispatch found pass_p not above it. */
  lemma {:induction false} WaitingEach(trace: seq<seq<Proc>>, events: seq<Event>, q: nat, p: nat)
    requires WaitingRun(trace, events, q) && p < |trace[0]| && !Idle(trace[0][p])
    ensures var last := trace[|events|];
      && |last| == |trace[0]| && last[p].tickets == trace[0][p].tickets && last[q].pass == trace[0][q].pass
      && last[p].count >= trace[0][p].count
      && last[p].pass == trace[0][p].pass + (last[p].count - trace[0][p].count) * StrideOf(trace[0][p])
      && (last[p].count > trace[0][p].count ==> p != q && last[p].pass - StrideOf(trace[0][p]) <= last[q].pass)
    decreases |events|
  {
    if events != [] {
      var m := |events| - 1;
      WaitingEach(trace[..m + 1], events[..m], q, p);
      assert Step(trace[m], events[m].dispatch, events[m].k, trace[m + 1]);
      assert Runnable(trace[m][q]) && Runnable(trace[m + 1][q]);
      var s, c := StrideOf(trace[0][p]), trace[m][p].count - trace[0][p].count;
      assert (c + 1) * s == c * s + s;
    }
  }

  /** The share of each process in that: while q waits, a process with t tickets whose pass was g
      behind q's is dispatched k times only if (k - 1) strides fit into g. */
  lemma TurnsEach(trace: seq<seq<Proc>>, events: seq<Event>, q: nat, p: nat)
    requires WaitingRun(trace, events, q) && p < |trace[0]| && !Idle(trace[0][p])
    ensures var last, t := trace[|events|], trace[0][p].tickets;
      && 0 < t && |last| == |trace[0]| && last[p].count >= trace[0][p].count
      && (last[p].count > trace[0][p].count ==>
            p != q && (last[p].count - trace[0][p].count - 1) * (10000 - 10000 % t)
                      <= (trace[0][q].pass - trace[0][p].pass) * t)
  {
    WaitingEach(trace, events, q, p);
    var last, t, s := trace[|events|], trace[0][p].tickets, StrideOf(trace[0][p]);
    StrideIs(trace[0][p]);
    Remainder(s, t);
    var k, g := last[p].count - trace[0][p].count, trace[0][q].pass - trace[0][p].pass;
    if k > 0 {
      assert (k - 1) * s == k * s - s;
      assert (k - 1) * (10000 - 10000 % t) == (k - 1) * s * t;
      Scale((k - 1) * s, g, t);
    }
  }

  /** The bound needs every stride to be positive: more than STRIDE1 tickets give stride 0, and
      such a process, once chosen, is chosen in every later round. */
  lemma {:induction false} ZeroStrideStarves(trace: seq<seq<Proc>>, picks: seq<nat>, p: nat, n: nat)
    requires Rounds(trace, picks) && n < |picks| && Chosen(trace[0], p) && trace[0][p].tickets > STRIDE1
    ensures picks[n] == p && trace[n + 1][p].pass == trace[0][p].pass
  {
    assert Round(trace[n], picks[n], trace[n + 1]);
    if n > 0 {
      ZeroStrideKeeps(trace, picks, p, n);
    }
    ChosenUnique(trace[n], picks[n], p);
    RoundsFrame(trace, picks, n);
  }

  lemma {:induction false} ZeroStrideKeeps(trace: seq<seq<Proc>>, picks: seq<nat>, p: nat, n: nat)
    requires Rounds(trace, picks) && n < |trace| && Chosen(trace[0], p) && trace[0][p].tickets > STRIDE1
    ensures Chosen(trace[n], p) && trace[n][p].pass == trace[0][p].pass
  {
    RoundsFrame(trace, picks, n);
    if n > 0 {
      ZeroStrideKeeps(trace, picks, p, n - 1);
      assert Round(trace[n - 1], picks[n - 1], trace[n]);
      ChosenUnique(trace[n - 1], picks[n - 1], p);
      RoundsFrame(trace, picks, n - 1);
    }
  }
}
