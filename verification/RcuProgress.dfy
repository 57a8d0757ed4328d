/** Nothing called is left behind: once the CPUs pass through the scheduler outside any section and the tick comes, the
    grace period in flight ends, its callbacks run and its waiters are woken. */
module RcuProgress {
  import opened Rcu

  // ---------------------------------------------------------------- one context switch

  /** The end of a grace period with the chained start, as one change. */
  function Chained(s: State): State {
    if !CanComplete(s) then s else if Queued(s) then StartFn(CompleteFn(s)) else CompleteFn(s)
  }

  function Noted(s: State, c: nat): State
    requires c < |s.cpus|
  {
    var s1 := NoteFn(s, c);
    if s.cpus[c].owes && !s1.cpus[c].owes && NoneOwes(s1) && s1.blkd == [] then Chained(s1) else s1
  }

  lemma NotedIs(s: State, c: nat, s': State)
    requires Enabled(s, Note(c)) && Goes(s, NoteSteps(s, c), s')
    ensures s' == Noted(s, c)
  {
    hide Goes;
    var ps, s1 := NoteSteps(s, c), Apply(s, Note(c));
    if |ps| == 1 {
      OneStep(s, Note(c), [], s');
    } else {
      OneStep(s, Note(c), CompleteSteps(s1, c), s');
      CompletedIs(s1, c, s');
    }
  }

  lemma CompletedIs(s: State, c: nat, s': State)
    requires Goes(s, CompleteSteps(s, c), s')
    ensures s' == Chained(s)
  {
    hide Goes;
    if CanComplete(s) && Queued(s) {
      assert [Complete(c)] + [Start] == [Complete(c), Start];
      OneStep(s, Complete(c), [Start], s');
      OneStep(Apply(s, Complete(c)), Start, [], s');
    } else {
      OneStep(s, Complete(c), [], s');
    }
  }

  lemma OneStep(s: State, p: Step, ps: seq<Step>, s': State)
    requires Goes(s, [p] + ps, s') || (ps == [] && Goes(s, [p], s'))
    ensures Enabled(s, p) && Goes(Apply(s, p), ps, s') && (ps == [] ==> s' == Apply(s, p))
  {
    hide Enabled, Apply;
    assert [p] + [] == [p];
    assert Goes(s, [p] + ps, s');
    assert ([p] + ps)[0] == p && ([p] + ps)[1..] == ps;
  }

  // ---------------------------------------------------------------- everybody is outside

  /** No thread is inside a section; every CPU runs one. */
  ghost predicate Outside(s: State) {
    && (forall t {:trigger t in s.nest} :: t in s.nest ==> s.nest[t] == 0)
    && forall c {:trigger s.cpus[c]} :: 0 <= c < |s.cpus| ==> s.cpus[c].cur >= 0
  }

  ghost predicate AllOut(s: State) {
    && s.blkd == []
    && forall c {:trigger s.cpus[c]} :: 0 <= c < |s.cpus| ==> s.cpus[c].cur >= 0 && Nest(s, s.cpus[c].cur) == 0
  }

  /** Then nobody is left on the blocked list. */
  lemma NobodyBlocked(s: State, deferred: bool)
    requires Healthy(s, deferred) && Outside(s)
    ensures AllOut(s)
  {
    var t := if s.blkd == [] then 0 else s.blkd[0];
    assert Nest(s, t) == 0;
  }

  /** The grace period goes on; the first `n` CPUs have reported. */
  ghost predicate Reporting(s0: State, s: State, n: nat) {
    && s == s0.(cpus := s.cpus) && |s.cpus| == |s0.cpus|
    && forall c {:trigger s.cpus[c]} :: 0 <= c < |s.cpus| ==>
         s.cpus[c] == s0.cpus[c].(owes := s.cpus[c].owes, qs := s.cpus[c].qs) && (c < n ==> !s.cpus[c].owes)
  }

  /** It has ended: callbacks that waited are finished, those that came meanwhile wait, waiters are ready. */
  ghost predicate Over(s0: State, s: State) {
    && |s.cpus| == |s0.cpus| && s.nest == s0.nest && s.blkd == s0.blkd && s.gp > s0.gp
    && s.ready == s0.head + s0.ready && s.head == [] && (Active(s) <==> Queued(s0))
    && forall c {:trigger s.cpus[c]} :: 0 <= c < |s.cpus| ==>
         s.cpus[c] == s0.cpus[c].(owes := s.cpus[c].owes, qs := s.cpus[c].qs, next := [], wait := s0.cpus[c].next,
           done := s0.cpus[c].done + s0.cpus[c].wait)
  }

  lemma OneReport(s0: State, s: State, n: nat)
    requires AllOut(s0) && Reporting(s0, s, n) && n < |s.cpus| && Active(s) && WillReport(s)
    ensures AllOut(s) && (Reporting(s0, Noted(s, n), n + 1) || Over(s0, Noted(s, n)))
  {
    var s1 := NoteFn(s, n);
    assert s.cpus[n].cur == s0.cpus[n].cur >= 0;
    assert Reporting(s0, s1, n + 1);
    if CanComplete(s1) {
      QueuedSame(s1, CompleteFn(s1));
      QueuedSame(s0, s1);
      if Queued(s1) {
        OverQueued(s0, s1);
      } else {
        OverIdle(s0, s1);
      }
    }
  }

  lemma OverQueued(s0: State, s: State)
    requires Reporting(s0, s, |s.cpus|) || Reporting(s0, s, 0)
    requires Active(s) && Queued(s0)
    ensures Over(s0, StartFn(CompleteFn(s)))
  {
  }

  lemma OverIdle(s0: State, s: State)
    requires (Reporting(s0, s, |s.cpus|) || Reporting(s0, s, 0)) && !Queued(s) && !Queued(s0) && Active(s)
    ensures Over(s0, CompleteFn(s))
  {
    forall c | 0 <= c < |s.cpus| ensures s0.cpus[c].next == [] { assert s.cpus[c].next == []; }
  }

  // ---------------------------------------------------------------- whole grace periods

  /** What is finished once the grace period in flight has ended. */
  function Due(cpus: seq<Cpu>): seq<Cpu> { seq(|cpus|, c requires 0 <= c < |cpus| => Finish(cpus[c])) }

  ghost predicate NoBatch(cpus: seq<Cpu>) { forall c {:trigger cpus[c]} :: 0 <= c < |cpus| ==> cpus[c].batch == [] }

  /** With everybody outside, the CPUs switch context one after the other until the grace period has ended; then comes
      a tick.  Every callback that was finished or waiting runs, once and in order, and every waiter is woken;
      callbacks that were queued later now wait for a grace period that is under way. */
  method Settle(r: RcuState) returns (ran: seq<Cb>, woken: seq<Tid>)
    requires r.Valid() && Outside(r.View()) && NoBatch(r.cpus)
    modifies r
    ensures r.Valid() && Outside(r.View()) && NoBatch(r.cpus) && |r.cpus| == |old(r.cpus)|
    ensures ran == Finished(Due(old(r.cpus))) && woken == old(r.head) + old(r.ready)
    ensures r.head == [] && r.ready == [] && (Active(r.View()) <==> old(Queued(r.View())))
    ensures forall c {:trigger r.cpus[c]} :: 0 <= c < |r.cpus| ==>
      r.cpus[c].done == [] && r.cpus[c].next == [] && r.cpus[c].wait == old(r.cpus)[c].next
  {
    hide Goes, Finished, CanComplete, Noted;
    ghost var s0 := r.View();
    NobodyBlocked(s0, r.deferred);
    var was, c := r.gp, 0;
    if r.gp % 2 == 1 {
      while r.gp == was && c < |r.cpus|
        invariant c <= |r.cpus| && r.Valid() && AllOut(r.View())
        invariant if r.gp == was then Reporting(s0, r.View(), c) else Over(s0, r.View())
      {
        OneReport(s0, r.View(), c);
        ghost var s1 := r.View();
        ghost var ps := r.NoteContextSwitch(c);
        NotedIs(s1, c, r.View());
        OutStays(s0, r.View());
        c := c + 1;
      }
      if r.gp == was { AllReported(s0, r.View()); }
    }
    ghost var s2 := r.View();
    SameFinished(s0, s2);
    ghost var ps;
    ran, woken, ps := r.TickDeferred();
  }

  lemma OutStays(s0: State, s: State)
    requires AllOut(s0) && (Over(s0, s) || exists n: nat :: Reporting(s0, s, n))
    ensures AllOut(s)
  {
  }

  lemma AllReported(s0: State, s: State)
    requires AllOut(s0) && Reporting(s0, s, |s.cpus|) && Active(s)
    ensures CanComplete(s)
  {
  }

  lemma SameFinished(s0: State, s: State)
    requires |s.cpus| == |s0.cpus|
    requires forall c {:trigger s.cpus[c]} :: 0 <= c < |s.cpus| ==> s.cpus[c].done == s0.cpus[c].done + s0.cpus[c].wait
    ensures Finished(s.cpus) == Finished(Due(s0.cpus))
  {
    FinishedSame(s.cpus, Due(s0.cpus));
  }

  lemma {:induction false} FinishedSame(a: seq<Cpu>, b: seq<Cpu>)
    requires |a| == |b| && forall c {:trigger a[c]} :: 0 <= c < |a| ==> a[c].done == b[c].done
    ensures Finished(a) == Finished(b)
  {
    if a != [] {
      assert a[|a| - 1].done == b[|b| - 1].done;
      FinishedSame(a[..|a| - 1], b[..|b| - 1]);
    }
  }

  /** What is finished once the grace period after that has ended. */
  function Later(cpus: seq<Cpu>): seq<Cpu> {
    seq(|cpus|, c requires 0 <= c < |cpus| => cpus[c].(done := cpus[c].next))
  }

  /** After a second round nothing is outstanding and no grace period is active: everything ran once, in order. */
  method Quiesce(r: RcuState) returns (ran: seq<Cb>, woken: seq<Tid>)
    requires r.Valid() && Outside(r.View()) && NoBatch(r.cpus)
    modifies r
    ensures r.Valid() && !Active(r.View()) && |r.cpus| == |old(r.cpus)|
    ensures r.head == [] && r.ready == [] && woken == old(r.head) + old(r.ready)
    ensures forall c {:trigger r.cpus[c]} :: 0 <= c < |r.cpus| ==>
      r.cpus[c].next == [] && r.cpus[c].wait == [] && r.cpus[c].done == []
    ensures ran == Finished(Due(old(r.cpus))) + Finished(Later(old(r.cpus)))
    ensures forall c, cb :: 0 <= c < |old(r.cpus)| && cb in Outstanding(old(r.cpus)[c]) ==> cb in ran
  {
    hide Finished;
    ghost var first := r.cpus;
    var ran1, woken1 := Settle(r);
    ghost var second := r.cpus;
    var ran2, woken2 := Settle(r);
    ran, woken := ran1 + ran2, woken1 + woken2;
    FinishedSame(Due(second), Later(first));
    forall c, cb | 0 <= c < |first| && cb in Outstanding(first[c]) ensures cb in ran {
      InFinished(Due(first), c, cb);
      InFinished(Due(second), c, cb);
    }
  }

  lemma {:induction false} InFinished(cpus: seq<Cpu>, c: nat, cb: Cb)
    requires c < |cpus|
    ensures cb in cpus[c].done ==> cb in Finished(cpus)
  {
    if c < |cpus| - 1 { InFinished(cpus[..|cpus| - 1], c, cb); }
  }
}
