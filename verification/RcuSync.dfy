/** When synchronize_rcu waits for a reader: on one core always; on more, exactly if no grace period was in flight or
    the one in flight still awaited that reader. */
module RcuSync {
  import opened Lists
  import opened Rcu

  /** On a single core, a synchronize_rcu waiter becomes ready only at a moment when nobody is inside a section. */
  lemma SingleCoreSync(ss: seq<State>, ps: seq<Step>, k: nat, w: Tid)
    requires IsRun(ss, ps) && k < |ps| && |ss[k].cpus| == 1 && w !in ss[k].ready && w in ss[k + 1].ready
    ensures Inside(ss[k]) == {} && Inside(ss[k + 1]) == {}
  {
    hide Init;
    RunInv(ss, ps, k);
    var s := ss[k];
    assert Enabled(s, ps[k]) && ss[k + 1] == Apply(s, ps[k]);
    if !ps[k].Complete? { OnlyCompleteReadies(s, ps[k]); }
    forall t: Tid ensures t !in Inside(s) {
      assert Nest(s, t) > 0 ==> Somewhere(s, t);
    }
  }

  /** No other step makes a waiter ready. */
  lemma OnlyCompleteReadies(s: State, p: Step)
    requires Enabled(s, p) && !p.Complete?
    ensures forall t :: t in Apply(s, p).ready ==> t in s.ready
  {
    hide Drop;
  }

  /** A reader that stays inside stays awaited; the start of a grace period makes it awaited. */
  lemma AwaitedStep(s: State, p: Step, t: Tid)
    requires Placed(s) && NoDup(s.blkd) && Enabled(s, p) && Nest(s, t) > 0 && Nest(Apply(s, p), t) > 0
    requires Active(s) ==> Awaited(s, t)
    ensures Active(Apply(s, p)) ==> Awaited(Apply(s, p), t)
  {
    hide Drop;
    var s' := Apply(s, p);
    assert Somewhere(s, t);
    if p.Special? { DropMember(s.blkd, s.cpus[p.c].cur, t); }
    if t !in s.blkd && Active(s) {
      var c: nat :| Running(s, c, t) && s.cpus[c].owes;
      assert Active(s') && t !in s'.blkd ==> Running(s', c, t);
    } else if t !in s.blkd {
      var c: nat :| Running(s, c, t);
      assert Active(s') ==> Running(s', c, t);
    }
  }

  /** Whoever is ready became so when a grace period ended. */
  lemma {:induction false} Readied(ss: seq<State>, ps: seq<Step>, i: nat, j: nat, w: Tid) returns (m: nat)
    requires IsRun(ss, ps) && i <= j <= |ps| && w !in ss[i].ready && w in ss[j].ready
    ensures i <= m < j && ps[m].Complete? && w !in ss[m].ready && w in ss[m + 1].ready
    decreases j
  {
    hide Init, Apply, Enabled;
    if w in ss[j - 1].ready {
      m := Readied(ss, ps, i, j - 1, w);
    } else {
      m := j - 1;
      assert ss[m + 1] == Apply(ss[m], ps[m]);
      if !ps[m].Complete? { OnlyCompleteReadies(ss[m], ps[m]); }
    }
  }

  lemma {:induction false} AwaitedSince(ss: seq<State>, ps: seq<Step>, i: nat, j: nat, t: Tid)
    requires IsRun(ss, ps) && i <= j <= |ps| && (Active(ss[i]) ==> Awaited(ss[i], t))
    requires forall k {:trigger ss[k]} :: i <= k <= j ==> Nest(ss[k], t) > 0
    ensures Active(ss[j]) ==> Awaited(ss[j], t)
    decreases j
  {
    hide Init, Apply, Enabled, Awaited;
    if i < j {
      AwaitedSince(ss, ps, i, j - 1, t);
      RunInv(ss, ps, j - 1);
      var p := ps[j - 1];
      AwaitedStep(ss[j - 1], p, t);
    }
  }

  /** The thread that calls synchronize_rcu in step `i`. */
  ghost function Waiter(ss: seq<State>, ps: seq<Step>, i: nat): (w: Tid)
    requires IsRun(ss, ps) && i < |ps| && ps[i].Sync?
    ensures w !in ss[i].ready && Nest(ss[i], w) == 0
  {
    assert Enabled(ss[i], ps[i]);
    ss[i].cpus[ps[i].c].cur
  }

  /** On any number of CPUs: a waiter is ready only after every reader has left that was inside at the call, provided
      no grace period was in flight or the one in flight still awaited that reader. */
  lemma SyncWaits(ss: seq<State>, ps: seq<Step>, i: nat, j: nat, t: Tid)
    requires IsRun(ss, ps) && i < j <= |ps| && ps[i].Sync? && Waiter(ss, ps, i) in ss[j].ready
    requires Nest(ss[i], t) > 0 && (Active(ss[i]) ==> Awaited(ss[i], t))
    ensures exists k :: i < k <= j && Nest(ss[k], t) == 0
  {
    hide Init, Awaited;
    var m := Readied(ss, ps, i, j, Waiter(ss, ps, i));
    assert ss[m + 1] == Apply(ss[m], ps[m]);
    NotAwaited(ss[m], t);
    if forall k {:trigger ss[k]} :: i <= k <= m ==> Nest(ss[k], t) > 0 { AwaitedSince(ss, ps, i, m, t); }
  }

  // ---------------------------------------------------------------- the converse

  /** `ps` leads from s to s' without call_rcu, and `t` is inside a section all along. */
  ghost predicate Stays(s: State, ps: seq<Step>, s': State, t: Tid)
    decreases |ps|
  {
    && Nest(s, t) > 0
    && if ps == [] then s' == s else Enabled(s, ps[0]) && !ps[0].Call? && Stays(Apply(s, ps[0]), ps[1..], s', t)
  }

  lemma {:induction false} StaysMore(s: State, ps: seq<Step>, s1: State, p: Step, t: Tid)
    requires Stays(s, ps, s1, t) && Enabled(s1, p) && !p.Call? && Nest(Apply(s1, p), t) > 0
    ensures Stays(s, ps + [p], Apply(s1, p), t)
    decreases |ps|
  {
    hide Enabled, Apply;
    if ps == [] {
      assert ([] + [p])[1..] == [] && ps + [p] == [p];
      assert Stays(Apply(s1, p), [], Apply(s1, p), t);
    } else {
      assert (ps + [p])[1..] == ps[1..] + [p];
      StaysMore(Apply(s, ps[0]), ps[1..], s1, p, t);
    }
  }

  /** A grace period is active that does not await the reader `t` running on CPU `d`, and `w` waits for it. */
  ghost predicate Open(s: State, h: Hist, d: nat, t: Tid, w: Tid) {
    && Inv(s, h) && Active(s) && Running(s, d, t) && t !in s.blkd && !s.cpus[d].owes && Nest(s, t) > 0 && w in s.head
  }

  /** Whatever other CPUs do short of ending it leaves that so. */
  lemma OpenStep(s: State, h: Hist, p: Step, d: nat, t: Tid, w: Tid)
    requires Open(s, h, d, t, w) && Enabled(s, p) && (p.Dec? || p.Special? || p.Note? || p.Switch?) && p.c != d
    ensures Open(Apply(s, p), Record(s, h, p), d, t, w)
  {
    hide Inv, Drop;
    StepInv(s, h, p);
    OpenApart(s, h, p.c, d);
    if p.Special? { OpenBlocked(s, h); DropMember(s.blkd, s.cpus[p.c].cur, t); }
  }

  lemma OpenApart(s: State, h: Hist, c: nat, d: nat)
    requires Inv(s, h) && c < |s.cpus| && d < |s.cpus| && c != d
    ensures |h.called| == |h.ran| == |s.cpus|
    ensures s.cpus[c].cur >= 0 ==> s.cpus[c].cur != s.cpus[d].cur
  {
  }

  lemma OpenBlocked(s: State, h: Hist)
    requires Inv(s, h)
    ensures NoDup(s.blkd)
  {
  }

  /** A way on from the state `s0`, with the state and history it leads to. */
  datatype Way = Way(ps: seq<Step>, s: State, h: Hist)

  ghost predicate On(s0: State, way: Way, d: nat, t: Tid, w: Tid) {
    Stays(s0, way.ps, way.s, t) && Open(way.s, way.h, d, t, w)
  }

  /** One step further. */
  lemma Further(s0: State, way: Way, p: Step, d: nat, t: Tid, w: Tid) returns (r: Way)
    requires On(s0, way, d, t, w) && Enabled(way.s, p) && (p.Dec? || p.Special? || p.Note? || p.Switch?) && p.c != d
    ensures On(s0, r, d, t, w) && r.s == Apply(way.s, p)
  {
    hide Inv, Enabled, Apply, Stays;
    OpenStep(way.s, way.h, p, d, t, w);
    StaysMore(s0, way.ps, way.s, p, t);
    OpenSizes(way.s, way.h);
    r := Way(way.ps + [p], Apply(way.s, p), Record(way.s, way.h, p));
  }

  lemma OpenSizes(s: State, h: Hist)
    requires Inv(s, h)
    ensures |h.called| == |h.ran| == |s.cpus|
  {
  }

  /** The thread on CPU `e` leaves all its sections. */
  lemma {:induction false} LeaveAll(s0: State, way: Way, e: nat, d: nat, t: Tid, w: Tid) returns (r: Way)
    requires On(s0, way, d, t, w) && e < |way.s.cpus| && e != d && way.s.cpus[e].cur >= 0
    ensures On(s0, r, d, t, w) && r.s == way.s.(nest := r.s.nest) && Nest(r.s, way.s.cpus[e].cur) == 0
    ensures forall u {:trigger Nest(r.s, u)} :: u != way.s.cpus[e].cur ==> Nest(r.s, u) == Nest(way.s, u)
    decreases Nest(way.s, way.s.cpus[e].cur)
  {
    hide On;
    r := way;
    if Nest(way.s, way.s.cpus[e].cur) > 0 {
      r := Further(s0, way, Dec(e), d, t, w);
      r := LeaveAll(s0, r, e, d, t, w);
    }
  }

  /** The first blocked reader is switched in if need be, leaves and comes off the list. */
  lemma UnblockOne(s0: State, way: Way, c: nat, d: nat, t: Tid, w: Tid) returns (r: Way)
    requires On(s0, way, d, t, w) && OutOn(way.s, c) && c != d && way.s.blkd != []
    ensures On(s0, r, d, t, w) && OutOn(r.s, c) && |r.s.cpus| == |way.s.cpus| && r.s.blkd == way.s.blkd[1..]
  {
    hide On, Drop;
    var u: Tid := way.s.blkd[0];
    OnFacts(s0, way, d, t, w);
    var e: nat := c;
    r := way;
    if exists x: nat :: Running(way.s, x, u) {
      e :| Running(way.s, e, u);
    } else {
      forall x | 0 <= x < |way.s.cpus| ensures way.s.cpus[x].cur != u { assert !Running(way.s, x, u); }
      r := Further(s0, way, Switch(c, u), d, t, w);
    }
    r := LeaveAll(s0, r, e, d, t, w);
    if r.s.cpus[c].cur >= 0 { assert Nest(r.s, r.s.cpus[c].cur) == 0; }
    DropFirst(way.s.blkd);
    r := Further(s0, r, Special(e), d, t, w);
  }

  lemma DropFirst(q: seq<Tid>)
    requires q != []
    ensures Drop(q, q[0]) == q[1..]
  {
  }

  lemma OnFacts(s0: State, way: Way, d: nat, t: Tid, w: Tid)
    requires On(s0, way, d, t, w)
    ensures Running(way.s, d, t) && t !in way.s.blkd && Active(way.s) && !way.s.cpus[d].owes && w in way.s.head
    ensures forall e {:trigger way.s.cpus[e]} :: 0 <= e < |way.s.cpus| && way.s.cpus[e].owes ==> way.s.cpus[e].qs
  {
    forall e | 0 <= e < |way.s.cpus| && way.s.cpus[e].owes ensures way.s.cpus[e].qs { assert OrderOk(way.s, way.h, e); }
  }

  lemma {:induction false} UnblockAll(s0: State, way: Way, c: nat, d: nat, t: Tid, w: Tid) returns (r: Way)
    requires On(s0, way, d, t, w) && OutOn(way.s, c) && c != d
    ensures On(s0, r, d, t, w) && OutOn(r.s, c) && |r.s.cpus| == |way.s.cpus| && r.s.blkd == []
    decreases |way.s.blkd|
  {
    hide On, OutOn;
    r := way;
    if way.s.blkd != [] {
      r := UnblockOne(s0, way, c, d, t, w);
      r := UnblockAll(s0, r, c, d, t, w);
    }
  }

  /** A thread that runs nowhere and is in no section. */
  lemma Spare(s: State) returns (u: Tid)
    ensures Nest(s, u) == 0 && forall c {:trigger s.cpus[c]} :: 0 <= c < |s.cpus| ==> s.cpus[c].cur != u
  {
    u := Above(s.cpus, s.nest.Keys);
  }

  lemma {:induction false} Above(xs: seq<Cpu>, a: set<Tid>) returns (u: nat)
    ensures u !in a && forall c {:trigger xs[c]} :: 0 <= c < |xs| ==> xs[c].cur < u
    ensures forall x :: x in a ==> x < u
    decreases |xs|, |a|
  {
    if xs != [] {
      var n := |xs| - 1;
      u := Above(xs[..n], a);
      if xs[n].cur >= u { u := xs[n].cur + 1; }
      forall c | 0 <= c < n ensures xs[c].cur < u { assert xs[..n][c] == xs[c]; }
    } else if x :| x in a {
      u := Above(xs, a - {x});
      if x >= u { u := x + 1; }
      forall y | y in a ensures y < u { assert y == x || y in a - {x}; }
    } else {
      u := 0;
    }
  }

  /** CPU `e` gets to report a quiescent state. */
  lemma ReportOne(s0: State, way: Way, e: nat, c: nat, d: nat, t: Tid, w: Tid) returns (r: Way)
    requires On(s0, way, d, t, w) && OutOn(way.s, c) && c != d && way.s.blkd == [] && e < |way.s.cpus|
    requires way.s.cpus[e].owes
    ensures On(s0, r, d, t, w) && OutOn(r.s, c) && |r.s.cpus| == |way.s.cpus| && r.s.blkd == [] && !r.s.cpus[e].owes
    ensures forall x {:trigger r.s.cpus[x]} :: 0 <= x < |r.s.cpus| && r.s.cpus[x].owes ==> way.s.cpus[x].owes
  {
    hide On;
    OnFacts(s0, way, d, t, w);
    r := way;
    if way.s.cpus[e].cur < 0 {
      var u := Spare(way.s);
      r := Further(s0, way, Switch(e, u), d, t, w);
    } else {
      r := LeaveAll(s0, way, e, d, t, w);
    }
    if r.s.cpus[c].cur >= 0 { assert Nest(r.s, r.s.cpus[c].cur) == 0; }
    r := Further(s0, r, Note(e), d, t, w);
  }

  lemma {:induction false} ReportAll(s0: State, way: Way, n: nat, c: nat, d: nat, t: Tid, w: Tid) returns (r: Way)
    requires On(s0, way, d, t, w) && OutOn(way.s, c) && c != d && way.s.blkd == [] && n <= |way.s.cpus|
    requires forall x {:trigger way.s.cpus[x]} :: n <= x < |way.s.cpus| ==> !way.s.cpus[x].owes
    ensures On(s0, r, d, t, w) && OutOn(r.s, c) && r.s.blkd == [] && NoneOwes(r.s)
    decreases n
  {
    hide On, OutOn;
    r := way;
    if n > 0 {
      if way.s.cpus[n - 1].owes { r := ReportOne(s0, way, n - 1, c, d, t, w); }
      r := ReportAll(s0, r, n - 1, c, d, t, w);
    }
  }

  /** From a state in which `t` is not awaited, others can end the grace period while `t` stays inside. */
  lemma Ends(s: State, h: Hist, c: nat, d: nat, t: Tid, w: Tid) returns (ps: seq<Step>, s': State)
    requires Open(s, h, d, t, w) && OutOn(s, c) && c != d
    ensures Stays(s, ps, s', t) && w in s'.ready
  {
    hide Inv;
    assert Stays(s, [], s, t);
    var way := Way([], s, h);
    way := UnblockAll(s, way, c, d, t, w);
    OnFacts(s, way, d, t, w);
    way := ReportAll(s, way, |way.s.cpus|, c, d, t, w);
    OnFacts(s, way, d, t, w);
    ps, s' := way.ps + [Complete(c)], Apply(way.s, Complete(c));
    StaysMore(s, way.ps, way.s, Complete(c), t);
  }

  /** The run (ss', ps') goes on where (ss, ps) stops. */
  ghost predicate Continues(ss: seq<State>, ps: seq<Step>, ss': seq<State>, ps': seq<Step>) {
    IsRun(ss', ps') && ss <= ss' && ps <= ps'
  }

  /** A run can go on along `qs`. */
  lemma {:induction false} Extend(ss: seq<State>, ps: seq<Step>, qs: seq<Step>, s': State, t: Tid)
    returns (ss': seq<State>, ps': seq<Step>)
    requires IsRun(ss, ps) && Stays(ss[|ps|], qs, s', t)
    ensures Continues(ss, ps, ss', ps') && ps' == ps + qs && ss'[|ps'|] == s'
    ensures forall k {:trigger ss'[k]} :: |ps| <= k <= |ps'| ==> Nest(ss'[k], t) > 0
    decreases |qs|
  {
    hide Init, Apply, Enabled;
    if qs == [] { return ss, ps; }
    var s1 := Apply(ss[|ps|], qs[0]);
    var ss1, ps1 := ss + [s1], ps + [qs[0]];
    assert IsRun(ss1, ps1);
    ss', ps' := Extend(ss1, ps1, qs[1..], s', t);
    assert ps + qs == ps1 + qs[1..];
    assert ss'[|ps|] == ss[|ps|];
  }

  /** The caller of synchronize_rcu in step `i` is ready after `j` steps while `t` has been inside since before the
      call. */
  ghost predicate TooEarly(ss: seq<State>, ps: seq<Step>, i: nat, j: nat, t: Tid)
    requires IsRun(ss, ps)
  {
    && i < j <= |ps| && ps[i].Sync? && Waiter(ss, ps, i) in ss[j].ready
    && forall k {:trigger ss[k]} :: i <= k <= j ==> Nest(ss[k], t) > 0
  }

  /** Some continuation of the run by synchronize_rcu on CPU `c` is too early for `t`. */
  ghost predicate MayMiss(ss: seq<State>, ps: seq<Step>, c: nat, t: Tid) {
    exists ss', ps', j ::
      Continues(ss, ps, ss', ps') && |ps| < |ps'| && ps'[|ps|] == Sync(c) && TooEarly(ss', ps', |ps|, j, t)
  }

  /** In every reachable state: synchronize_rcu can miss a reader that is inside if and only if a grace period is in
      flight that does not await it. */
  lemma SyncIff(ss: seq<State>, ps: seq<Step>, c: nat, t: Tid)
    requires IsRun(ss, ps) && Enabled(ss[|ps|], Sync(c)) && Nest(ss[|ps|], t) > 0
    ensures MayMiss(ss, ps, c, t) <==> Active(ss[|ps|]) && !Awaited(ss[|ps|], t)
  {
    var s := ss[|ps|];
    if Active(s) && !Awaited(s, t) {
      Misses(ss, ps, c, t);
    } else {
      NeverMisses(ss, ps, c, t);
    }
  }

  /** On a single core it never can: the caller is outside, so every reader is on the blocked list. */
  lemma SingleCoreNeverMisses(ss: seq<State>, ps: seq<Step>, c: nat, t: Tid)
    requires IsRun(ss, ps) && Enabled(ss[|ps|], Sync(c)) && Nest(ss[|ps|], t) > 0 && |ss[|ps|].cpus| == 1
    ensures !MayMiss(ss, ps, c, t)
  {
    hide Init, Apply, MayMiss;
    RunInv(ss, ps, |ps|);
    var s := ss[|ps|];
    assert Somewhere(s, t);
    NeverMisses(ss, ps, c, t);
  }

  lemma NeverMisses(ss: seq<State>, ps: seq<Step>, c: nat, t: Tid)
    requires IsRun(ss, ps) && Nest(ss[|ps|], t) > 0 && (Active(ss[|ps|]) ==> Awaited(ss[|ps|], t))
    ensures !MayMiss(ss, ps, c, t)
  {
    hide Enabled, Apply, Init, Awaited, Waiter;
    var n := |ps|;
    forall ss': seq<State>, ps': seq<Step>, j: nat | Continues(ss, ps, ss', ps') && n < |ps'| && ps'[n] == Sync(c)
      ensures !TooEarly(ss', ps', n, j, t)
    {
      assert ss'[n] == ss[n];
      if TooEarly(ss', ps', n, j, t) { SyncWaits(ss', ps', n, j, t); }
    }
  }

  lemma Misses(ss: seq<State>, ps: seq<Step>, c: nat, t: Tid)
    requires IsRun(ss, ps) && Enabled(ss[|ps|], Sync(c)) && Nest(ss[|ps|], t) > 0
    requires Active(ss[|ps|]) && !Awaited(ss[|ps|], t)
    ensures MayMiss(ss, ps, c, t)
  {
    hide Init, Inv;
    var n, s, w: Tid := |ps|, ss[|ps|], ss[|ps|].cpus[c].cur;
    var s1 := Apply(s, Sync(c));
    RunInv(ss, ps, n);
    var h := HistAt(ss, ps, n);
    var d := RunsUnawaited(s, h, t);
    StepInv(s, h, Sync(c));
    var qs, s' := Ends(s1, h, c, d, t, w);
    assert ([Sync(c)] + qs)[1..] == qs;
    assert Stays(s, [Sync(c)] + qs, s', t);
    var ss', ps' := Extend(ss, ps, [Sync(c)] + qs, s', t);
    MissedThere(ss, ps, ss', ps', c, t, w);
  }

  lemma RunsUnawaited(s: State, h: Hist, t: Tid) returns (d: nat)
    requires Inv(s, h) && Nest(s, t) > 0 && !Awaited(s, t)
    ensures Running(s, d, t) && t !in s.blkd && !s.cpus[d].owes
  {
    assert Somewhere(s, t);
    d :| Running(s, d, t);
  }

  lemma MissedThere(ss: seq<State>, ps: seq<Step>, ss': seq<State>, ps': seq<Step>, c: nat, t: Tid, w: Tid)
    requires IsRun(ss, ps) && Continues(ss, ps, ss', ps') && |ps| < |ps'| && ps'[|ps|] == Sync(c)
    requires Enabled(ss[|ps|], Sync(c))
    requires w == ss[|ps|].cpus[c].cur && w in ss'[|ps'|].ready
    requires forall k {:trigger ss'[k]} :: |ps| <= k <= |ps'| ==> Nest(ss'[k], t) > 0
    ensures MayMiss(ss, ps, c, t)
  {
    hide Init, Apply;
    assert ss'[|ps|] == ss[|ps|];
    assert Waiter(ss', ps', |ps|) == w;
    assert TooEarly(ss', ps', |ps|, |ps'|, t);
  }

  // ---------------------------------------------------------------- a failing run

  function Exec(s: State, ps: seq<Step>): (r: State)
    decreases |ps|
  {
    if ps == [] then s else if Enabled(s, ps[0]) then Exec(Apply(s, ps[0]), ps[1..]) else s
  }

  /** Thread 1 on CPU 0 and thread 2 on CPU 1; thread 2 inside; CPU 0 owing and reporting; waiters and ready list. */
  function TwoCpus(gp: nat, owes0: bool, owes1: bool, inside: bool, head: seq<Tid>, ready: seq<Tid>): State {
    State(gp, [], [Cpu(1, owes0, owes0, [], [], [], [], 0), Cpu(2, owes1, owes1, [], [], [], [], 0)],
      if inside then map[2 := 1] else map[], head, ready)
  }

  lemma TwoCpusEnter()
    ensures Exec(TwoCpus(0, false, false, false, [], []), [Start, Note(1), Lock(1)]) == TwoCpus(1, true, false, true,
      [], [])
  {
    var s0, s1 := TwoCpus(0, false, false, false, [], []), TwoCpus(1, true, true, false, [], []);
    var e: seq<Cb> := [];
    assert e + e == e;
    assert Promote(s0.cpus[0]) == s1.cpus[0] && Promote(s0.cpus[1]) == s1.cpus[1];
    assert StartFn(s0).cpus == s1.cpus;
    ExecThree(s0, s1, TwoCpus(1, true, false, false, [], []), TwoCpus(1, true, false, true, [], []), Start, Note(1),
      Lock(1));
  }

  lemma TwoCpusWait()
    ensures Exec(TwoCpus(1, true, false, true, [], []), [Sync(0), Note(0), Complete(0)]) == TwoCpus(2, false, false,
      true, [], [1])
  {
    var s1, s2 := TwoCpus(1, false, false, true, [1], []), TwoCpus(2, false, false, true, [], [1]);
    var e: seq<Cb> := [];
    assert e + e == e;
    assert Finish(s1.cpus[0]) == s2.cpus[0] && Finish(s1.cpus[1]) == s2.cpus[1];
    assert CompleteFn(s1).cpus == s2.cpus;
    ExecThree(TwoCpus(1, true, false, true, [], []), TwoCpus(1, true, false, true, [1], []), s1, s2, Sync(0), Note(0),
      Complete(0));
  }

  /** With two CPUs that is false: thread 2 enters a section after its CPU reported, thread 1 then joins the grace
      period in flight, and becomes ready while thread 2, inside since before, has not left. */
  lemma TwoCoreSync()
    ensures var s0 := TwoCpus(0, false, false, false, [], []);
      var before := Exec(s0, [Start, Note(1), Lock(1)]);
      var after := Exec(before, [Sync(0), Note(0), Complete(0)]);
      Init(s0) && Nest(before, 2) == 1 && after.ready == [1] && Nest(after, 2) == 1
  {
    hide Exec;
    TwoCpusEnter();
    TwoCpusWait();
  }

  lemma ExecThree(a: State, b: State, c: State, d: State, p: Step, q: Step, r: Step)
    requires Enabled(a, p) && b == Apply(a, p) && Enabled(b, q) && c == Apply(b, q) && Enabled(c, r) && d == Apply(c, r)
    ensures Exec(a, [p, q, r]) == d
  {
    hide Enabled, Apply;
    assert [p, q, r][1..] == [q, r] && [q, r][1..] == [r] && [r][1..] == [];
    assert Exec(d, []) == d;
    assert Exec(c, [r]) == d;
    assert Exec(b, [q, r]) == d;
  }
}
