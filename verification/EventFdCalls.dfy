/** The eventfd calls on the objects are runs of the step machine: what the code does to counter, wait queues and run
    queues is what a sequence of steps of the calling thread does. */
module EventFdCalls {
  import opened Lists
  import opened RunQueue
  import opened WaitQueue
  import opened EventFd

  // ---------------------------------------------------------------- sequences of steps

  ghost predicate Leads(s: State, ps: seq<Step>, s': State)
    decreases |ps|
  {
    if ps == [] then s == s' else Enabled(s, ps[0]) && Leads(Apply(s, ps[0]), ps[1..], s')
  }

  lemma LeadsFirst(s: State, p: Step, ps: seq<Step>, s': State)
    requires Enabled(s, p) && Leads(Apply(s, p), ps, s')
    ensures Leads(s, [p] + ps, s')
  {
    assert ([p] + ps)[1..] == ps;
  }

  lemma {:induction false} LeadsOn(s: State, ps: seq<Step>, s1: State, qs: seq<Step>, s2: State)
    requires Leads(s, ps, s1) && Leads(s1, qs, s2)
    ensures Leads(s, ps + qs, s2)
    decreases |ps|
  {
    hide Enabled, Apply;
    if ps == [] {
      assert ps + qs == qs;
    } else {
      LeadsOn(Apply(s, ps[0]), ps[1..], s1, qs, s2);
      assert (ps + qs)[1..] == ps[1..] + qs;
    }
  }

  // ---------------------------------------------------------------- the walk over a queue

  predicate In(q: seq<int>, u: Tid) {
    var x: int := u;
    x in q
  }

  /** Everybody in `q` who sleeps is woken, `t` has finished its walk, and nothing else changed. */
  ghost predicate Walked(s: State, t: Tid, q: seq<int>, s': State) {
    && |s'.ths| == |s.ths| && t < |s.ths| && s' == s.(ths := s'.ths) && s.ths[t].pc.Waking?
    && s'.ths[t] == s.ths[t].(pc := s.ths[t].pc.(todo := {}, mid := -1))
    && forall v: Tid {:trigger s'.ths[v]} :: v < |s.ths| && v != t ==>
         s'.ths[v] == if In(q, v) && s.ths[v].st == Blocked then Wake(s.ths[v]) else s.ths[v]
  }

  lemma {:induction false} Walk(s: State, t: Tid, q: seq<int>) returns (ps: seq<Step>, s': State)
    requires t < |s.ths| && s.ths[t].pc.Waking? && s.ths[t].pc.mid == -1 && NoDup(q) && InRange(q, |s.ths|) && !In(q, t)
    requires forall u: Tid {:trigger u in s.ths[t].pc.todo} {:trigger In(q, u)} :: u in s.ths[t].pc.todo <==> In(q, u)
    ensures Leads(s, ps, s') && Walked(s, t, q, s')
    decreases |q|
  {
    hide Apply, Leads, Walked;
    var pc := s.ths[t].pc;
    if q == [] {
      assert forall u: Tid :: !In(q, u);
      assert pc.todo == {};
      ps, s' := [], s;
      WalkedNone(s, t);
    } else {
      var u: Tid := q[0];
      assert In(q, u);
      var before, s1 := OneVisit(s, t, u);
      Rest(q, pc.todo, u);
      var after;
      after, s' := Walk(s1, t, q[1..]);
      ps := before + after;
      LeadsOn(s, before, s1, after, s');
      WalkedMore(s, s1, t, q, s');
    }
  }

  /** Visiting one entry: a sleeper is marked and then queued. */
  lemma OneVisit(s: State, t: Tid, u: Tid) returns (ps: seq<Step>, s': State)
    requires Enabled(s, Visit(t, u)) && s.ths[t].pc.mid == -1
    ensures Leads(s, ps, s') && |s'.ths| == |s.ths| && s' == s.(ths := s'.ths)
    ensures s'.ths[t] == s.ths[t].(pc := s.ths[t].pc.(todo := s.ths[t].pc.todo - {u}, mid := -1))
    ensures forall v: Tid {:trigger s'.ths[v]} :: v < |s.ths| && v != t ==>
      s'.ths[v] == if v == u && s.ths[v].st == Blocked then Wake(s.ths[v]) else s.ths[v]
  {
    var s1 := Apply(s, Visit(t, u));
    if s.ths[u].st == Blocked {
      s' := Apply(s1, AddMid(t));
      LeadsFirst(s1, AddMid(t), [], s');
      LeadsFirst(s, Visit(t, u), [AddMid(t)] + [], s');
      ps := [Visit(t, u)] + ([AddMid(t)] + []);
    } else {
      s' := s1;
      LeadsFirst(s, Visit(t, u), [], s');
      ps := [Visit(t, u)] + [];
    }
  }

  lemma WalkedNone(s: State, t: Tid)
    requires t < |s.ths| && s.ths[t].pc.Waking? && s.ths[t].pc.mid == -1 && s.ths[t].pc.todo == {}
    ensures Leads(s, [], s) && Walked(s, t, [], s)
  {
  }

  lemma Rest(q: seq<int>, todo: set<Tid>, u: Tid)
    requires q != [] && u == q[0] && NoDup(q)
    requires forall v: Tid {:trigger v in todo} {:trigger In(q, v)} :: v in todo <==> In(q, v)
    ensures NoDup(q[1..]) && (forall v: Tid {:trigger In(q[1..], v)} :: In(q, v) <==> v == u || In(q[1..], v))
    ensures forall v: Tid {:trigger v in todo - {u}} {:trigger In(q[1..], v)} :: v in todo - {u} <==> In(q[1..], v)
  {
    forall v: Tid ensures In(q, v) <==> v == u || In(q[1..], v) {
      assert q == [q[0]] + q[1..];
    }
    forall v: Tid ensures v in todo - {u} <==> In(q[1..], v) {
      assert v in todo <==> In(q, v);
    }
  }

  lemma WalkedMore(s: State, s2: State, t: Tid, q: seq<int>, s': State)
    requires q != [] && InRange(q, |s.ths|) && NoDup(q) && t < |s.ths| && !In(q, t) && s.ths[t].pc.Waking?
    requires s2 == s.(ths := s2.ths) && |s2.ths| == |s.ths|
    requires s2.ths[t] == s.ths[t].(pc := s2.ths[t].pc) && s2.ths[t].pc.Waking?
    requires s2.ths[t].pc == s.ths[t].pc.(todo := s2.ths[t].pc.todo, mid := -1)
    requires var u: Tid := q[0];
      forall v: Tid {:trigger s2.ths[v]} :: v < |s.ths| && v != t ==>
        s2.ths[v] == if v == u && s.ths[v].st == Blocked then Wake(s.ths[v]) else s.ths[v]
    requires Walked(s2, t, q[1..], s')
    requires forall v: Tid {:trigger In(q[1..], v)} :: In(q, v) <==> v == q[0] || In(q[1..], v)
    ensures Walked(s, t, q, s')
  {
  }

  // ---------------------------------------------------------------- states and objects

  /** Thread `t` looks the same in the machine and in the thread states, run queues and wait queues. */
  ghost predicate Agree(s: State, st: seq<TState>, runs: seq<seq<int>>, prio: seq<int>, rd: seq<int>, wr: seq<int>,
      t: Tid)
    requires |s.ths| == |st| == |prio| && |runs| == LEVELS && t < |s.ths|
  {
    var x := s.ths[t];
    && x.st == st[t] && (x.onrq <==> In(runs[Clamp(prio[t])], t))
    && (In(rd, t) <==> x.inq && Waits(x.pc) && x.pc.op.Read?) && (In(wr, t) <==> x.inq && Waits(x.pc) && x.pc.op.Write?)
    && (x.pc.Idle? ==> !x.inq) && (In(rd, t) || In(wr, t) ==> st[t] != Stopped)
  }

  ghost predicate Alike(s: State, st: seq<TState>, runs: seq<seq<int>>, prio: seq<int>, rd: seq<int>, wr: seq<int>) {
    && |s.ths| == |st| == |prio| && |runs| == LEVELS
    && forall t: Tid {:trigger Agree(s, st, runs, prio, rd, wr, t)} :: t < |s.ths| ==>
         Agree(s, st, runs, prio, rd, wr, t)
  }

  ghost predicate Plain(q: seq<int>, excl: seq<bool>) {
    InRange(q, |excl|) && forall i {:trigger q[i]} :: 0 <= i < |q| ==> !excl[q[i]]
  }

  /** The eventfd object and the state of the machine agree. */
  ghost predicate Shows(s: State, e: Eventfd)
    reads e, e.readWq, e.writeWq, e.readWq.rq, e.writeWq.rq
  {
    && e.readWq != e.writeWq && e.readWq.rq == e.writeWq.rq && e.readWq.Valid() && e.writeWq.Valid()
    && s.counter == e.counter <= MAX && s.sem == e.sem
    && Plain(e.readWq.q, e.readWq.excl) && Plain(e.writeWq.q, e.writeWq.excl)
    && Alike(s, e.readWq.rq.state, e.readWq.rq.q, e.readWq.rq.prio, e.readWq.q, e.writeWq.q)
  }

  // ---------------------------------------------------------------- try_read and try_write

  /** The first attempt of a call, or one of the waiting loop. */
  ghost predicate Attempt(s: State, t: Tid, op: Op, p: Step) {
    && Enabled(s, p) && (p.Begin? || p.TryAgain?) && p.t == t && t < |s.ths|
    && op == (if p.Begin? then p.op else s.ths[t].pc.op)
    && forall w {:trigger s.ths[w]} :: 0 <= w < |s.ths| ==> !s.ths[w].pc.Waking?
  }

  /** After an attempt that goes ahead: the counter has changed, the sleepers `q` of the other queue are woken, and `t`
      is about to leave the queue or back from the call. */
  ghost predicate Ahead(s: State, t: Tid, op: Op, p: Step, q: seq<int>, s': State) {
    && t < |s.ths| == |s'.ths| && !Short(s.counter, op)
    && s' == Effect(s, op).(ths := s'.ths)
    && s'.ths[t] == s.ths[t].(pc := if p.TryAgain? then Fin1(op) else Idle)
    && forall v: Tid {:trigger s'.ths[v]} :: v < |s.ths| && v != t ==>
         s'.ths[v] == if In(q, v) && s.ths[v].st == Blocked then Wake(s.ths[v]) else s.ths[v]
  }

  lemma GoesAhead(s: State, t: Tid, op: Op, p: Step, q: seq<int>) returns (ps: seq<Step>, s': State)
    requires Attempt(s, t, op, p) && !Short(s.counter, op) && NoDup(q) && InRange(q, |s.ths|)
    requires forall u: Tid {:trigger In(q, u)} :: u < |s.ths| ==> (In(q, u) <==> Listed(s, op, u))
    ensures Leads(s, [p] + ps, s') && Ahead(s, t, op, p, q, s')
  {
    hide Leads;
    var s1 := Apply(s, p);
    assert Enabled(s1, StartWake(t));
    var s2 := Apply(s1, StartWake(t));
    TodoIs(s, s1, t, op, p, q);
    var walk, s3 := Walk(s2, t, q);
    assert Enabled(s3, EndWake(t));
    s' := Apply(s3, EndWake(t));
    LeadsNone(s');
    LeadsFirst(s3, EndWake(t), [], s');
    LeadsOn(s2, walk, s3, [EndWake(t)] + [], s');
    LeadsFirst(s1, StartWake(t), walk + ([EndWake(t)] + []), s');
    ps := [StartWake(t)] + (walk + ([EndWake(t)] + []));
    LeadsFirst(s, p, ps, s');
  }

  lemma LeadsNone(s: State)
    ensures Leads(s, [], s)
  {
  }

  lemma TodoIs(s: State, s1: State, t: Tid, op: Op, p: Step, q: seq<int>)
    requires Attempt(s, t, op, p) && !Short(s.counter, op) && s1 == Apply(s, p) && InRange(q, |s.ths|)
    requires forall u: Tid {:trigger In(q, u)} :: u < |s.ths| ==> (In(q, u) <==> Listed(s, op, u))
    ensures forall u: Tid {:trigger u in Todo(s1, op)} {:trigger In(q, u)} :: u in Todo(s1, op) <==> In(q, u)
    ensures !In(q, t)
  {
    assert s1.ths == s.ths[t := s1.ths[t]];
    forall u: Tid ensures u in Todo(s1, op) <==> In(q, u) {
      if u < |s.ths| {
        assert Listed(s1, op, u) <==> Listed(s, op, u);
      } else {
        assert !In(q, u);
      }
    }
    assert !Listed(s, op, t);
  }

  /** Who is on a run queue after a wake-up. */
  lemma {:induction false} EnqueuedIff(q: seq<seq<int>>, prio: seq<int>, ts: seq<int>, t: int)
    requires |q| == LEVELS && InRange(ts, |prio|) && 0 <= t < |prio|
    ensures t in EnqueueAll(q, prio, ts)[Clamp(prio[t])] <==> t in ts || t in q[Clamp(prio[t])]
  {
    if ts != [] {
      var init, last := ts[..|ts| - 1], ts[|ts| - 1];
      EnqueuedIff(q, prio, init, t);
      assert ts == init + [last];
    }
  }

  /** A wake-up of the other queue by the code and by the machine leave the same. */
  lemma AheadAlike(s: State, t: Tid, op: Op, p: Step, s': State, rd: seq<int>, wr: seq<int>, excl: seq<bool>,
      st: seq<TState>, st': seq<TState>, runs: seq<seq<int>>, runs': seq<seq<int>>, prio: seq<int>)
    requires Alike(s, st, runs, prio, rd, wr) && Attempt(s, t, op, p)
    requires var q := if op.Read? then wr else rd;
      Ahead(s, t, op, p, q, s') && Plain(q, excl) && Woke(q, excl, st, st', runs, runs', prio)
    ensures Alike(s', st', runs', prio, rd, wr)
  {
    hide Wakes, EnqueueAll, Effect;
    var q := if op.Read? then wr else rd;
    var ts := Wakes(q, st, excl, false);
    EnqueueSize(runs, prio, ts);
    forall v: Tid | v < |s'.ths| ensures Agree(s', st', runs', prio, rd, wr, v) {
      var x: int := v;
      assert Agree(s, st, runs, prio, rd, wr, v);
      WakesWho(q, st, excl, false, x);
      EnqueuedIff(runs, prio, ts, x);
      assert x in q ==> !excl[x];
    }
  }

  /** `eventfd_try_read` is a sequence of steps of the calling thread. */
  method TryRead(e: Eventfd, ghost s: State, ghost t: Tid, ghost p: Step)
    returns (rc: int, val: nat, ghost ps: seq<Step>, ghost s': State)
    requires Shows(s, e) && Attempt(s, t, Read, p)
    modifies e`counter, e.writeWq.rq
    ensures Shows(s', e) && Leads(s, [p] + ps, s')
    ensures rc < 0 ==> ps == []
    ensures rc > 0 ==> Ahead(s, t, Read, p, e.writeWq.q, s') && s'.got == s.got + val
  {
    hide Ring, Levels, Alike, Plain, Woke, AllWoken, Leads;
    ghost var q := e.writeWq.q;
    QueueListed(s, e, Read);
    ghost var st, runs := e.writeWq.rq.state, e.writeWq.rq.q;
    rc, val := e.TryRead();
    if rc < 0 {
      ps, s' := [], Apply(s, p);
      LeadsNone(s');
      LeadsFirst(s, p, [], s');
      BackAlike(s, t, Read, p, st, runs, e.writeWq.rq.prio, e.readWq.q, e.writeWq.q);
    } else {
      ps, s' := GoesAhead(s, t, Read, p, q);
      AheadAlike(s, t, Read, p, s', e.readWq.q, e.writeWq.q, e.writeWq.excl, st, e.writeWq.rq.state, runs,
        e.writeWq.rq.q, e.writeWq.rq.prio);
    }
  }

  /** `eventfd_try_write` is, too. */
  method TryWrite(e: Eventfd, v: nat, ghost s: State, ghost t: Tid, ghost p: Step)
    returns (rc: int, ghost ps: seq<Step>, ghost s': State)
    requires Shows(s, e) && Attempt(s, t, Write(v), p) && v <= MAX
    modifies e`counter, e.readWq.rq
    ensures Shows(s', e) && Leads(s, [p] + ps, s')
    ensures rc < 0 ==> ps == []
    ensures rc > 0 ==> Ahead(s, t, Write(v), p, e.readWq.q, s')
  {
    hide Ring, Levels, Alike, Plain, Woke, AllWoken, Leads;
    ghost var q := e.readWq.q;
    QueueListed(s, e, Write(v));
    ghost var st, runs := e.readWq.rq.state, e.readWq.rq.q;
    rc := e.TryWrite(v);
    if rc < 0 {
      ps, s' := [], Apply(s, p);
      LeadsNone(s');
      LeadsFirst(s, p, [], s');
      BackAlike(s, t, Write(v), p, st, runs, e.readWq.rq.prio, e.readWq.q, e.writeWq.q);
    } else {
      ps, s' := GoesAhead(s, t, Write(v), p, q);
      AheadAlike(s, t, Write(v), p, s', e.readWq.q, e.writeWq.q, e.readWq.excl, st, e.readWq.rq.state, runs,
        e.readWq.rq.q, e.readWq.rq.prio);
    }
  }

  /** An attempt that cannot go ahead only moves the thread on. */
  lemma BackAlike(s: State, t: Tid, op: Op, p: Step, st: seq<TState>, runs: seq<seq<int>>, prio: seq<int>, rd: seq<int>,
      wr: seq<int>)
    requires Alike(s, st, runs, prio, rd, wr) && Attempt(s, t, op, p) && Short(s.counter, op)
    ensures Alike(Apply(s, p), st, runs, prio, rd, wr) && Apply(s, p).counter == s.counter && Apply(s, p).sem == s.sem
  {
    var s' := Apply(s, p);
    forall v: Tid | v < |s'.ths| ensures Agree(s', st, runs, prio, rd, wr, v) {
      assert Agree(s, st, runs, prio, rd, wr, v);
    }
  }

  lemma QueueListed(s: State, e: Eventfd, op: Op)
    requires Shows(s, e)
    ensures var q := if op.Read? then e.writeWq.q else e.readWq.q;
      NoDup(q) && InRange(q, |s.ths|) && forall u: Tid {:trigger In(q, u)} :: u < |s.ths| ==>
        (In(q, u) <==> Listed(s, op, u))
  {
    hide Ring, Levels;
    var wq := if op.Read? then e.writeWq else e.readWq;
    RqSizes(wq.rq);
    RingRange(wq.next, wq.prev, wq.head, wq.q);
    forall u: Tid | u < |s.ths| ensures In(wq.q, u) <==> Listed(s, op, u) {
      assert Agree(s, e.readWq.rq.state, e.readWq.rq.q, e.readWq.rq.prio, e.readWq.q, e.writeWq.q, u);
    }
  }

  // ---------------------------------------------------------------- prepare_to_wait and finish_wait

  lemma PreparedAlike(s: State, t: Tid, st: seq<TState>, runs: seq<seq<int>>, prio: seq<int>, rd: seq<int>,
      wr: seq<int>, rd': seq<int>, wr': seq<int>)
    requires Alike(s, st, runs, prio, rd, wr) && Enabled(s, Prepare(t))
    requires forall u: Tid {:trigger In(rd', u)} :: In(rd', u) <==> In(rd, u) || (u == t && s.ths[t].pc.op.Read?)
    requires forall u: Tid {:trigger In(wr', u)} :: In(wr', u) <==> In(wr, u) || (u == t && s.ths[t].pc.op.Write?)
    ensures Alike(Apply(s, Prepare(t)), st[t := Blocked], runs, prio, rd', wr')
  {
    hide Locked;
    var s', st' := Apply(s, Prepare(t)), st[t := Blocked];
    forall v: Tid | v < |s'.ths| ensures Agree(s', st', runs, prio, rd', wr', v) {
      assert Agree(s, st, runs, prio, rd, wr, v);
    }
  }

  lemma Pushed(q: seq<int>, q': seq<int>, t: Tid)
    requires var x: int := t; q' == if x in q then q else [x] + q
    ensures forall u: Tid {:trigger In(q', u)} :: In(q', u) <==> In(q, u) || u == t
  {
  }

  /** `prepare_to_wait` on the queue of the operation is the step of that name. */
  method PrepareToWait(e: Eventfd, t: nat, reading: bool, ghost s: State) returns (ghost s': State)
    requires Shows(s, e) && Enabled(s, Prepare(t)) && s.ths[t].pc.op.Read? == reading
    modifies e.readWq, e.writeWq, e.readWq.rq`state
    ensures Shows(s', e) && s' == Apply(s, Prepare(t))
  {
    hide Ring, Levels, Alike, Locked;
    var wq := if reading then e.readWq else e.writeWq;
    ghost var rd, wr, st := e.readWq.q, e.writeWq.q, wq.rq.state;
    s' := Apply(s, Prepare(t));
    AlikeSizes(s, e);
    wq.PrepareToWait(t, Blocked, false);
    Pushed(if reading then rd else wr, wq.q, t);
    PreparedAlike(s, t, st, wq.rq.q, wq.rq.prio, rd, wr, e.readWq.q, e.writeWq.q);
    assert Plain(wq.q, wq.excl);
  }

  lemma AlikeSizes(s: State, e: Eventfd)
    requires Shows(s, e)
    ensures |s.ths| == |e.readWq.next| == |e.writeWq.next| == |e.readWq.rq.state|
  {
  }

  lemma FinishedAlike(s: State, t: Tid, st: seq<TState>, runs: seq<seq<int>>, prio: seq<int>, rd: seq<int>,
      wr: seq<int>, rd': seq<int>, wr': seq<int>)
    requires Alike(s, st, runs, prio, rd, wr) && t < |s.ths| && s.ths[t].pc.Fin1? && !Locked(s, s.ths[t].pc.op)
    requires forall u: Tid {:trigger In(rd', u)} :: In(rd', u) <==> In(rd, u) && !(u == t && s.ths[t].pc.op.Read?)
    requires forall u: Tid {:trigger In(wr', u)} :: In(wr', u) <==> In(wr, u) && !(u == t && s.ths[t].pc.op.Write?)
    ensures Enabled(s, Finish1(t)) && Enabled(Apply(s, Finish1(t)), Finish2(t))
    ensures Alike(Apply(Apply(s, Finish1(t)), Finish2(t)), st[t := Running], runs, prio, rd', wr')
  {
    var s1 := Apply(s, Finish1(t));
    assert !Locked(s1, s.ths[t].pc.op);
    var s', st' := Apply(s1, Finish2(t)), st[t := Running];
    forall v: Tid | v < |s'.ths| ensures Agree(s', st', runs, prio, rd', wr', v) {
      assert Agree(s, st, runs, prio, rd, wr, v);
    }
  }

  lemma Popped(q: seq<int>, q': seq<int>, t: Tid)
    requires NoDup(q) && Removed(q, q', t)
    ensures forall u: Tid {:trigger In(q', u)} :: In(q', u) <==> In(q, u) && u != t
    ensures forall i {:trigger q'[i]} :: 0 <= i < |q'| ==> q'[i] in q
  {
  }

  /** `finish_wait` on the queue of the operation is its two steps. */
  method FinishWait(e: Eventfd, t: nat, reading: bool, ghost s: State) returns (ghost s': State)
    requires Shows(s, e) && t < |s.ths| && s.ths[t].pc.Fin1? && !Locked(s, s.ths[t].pc.op)
    requires s.ths[t].pc.op.Read? == reading
    modifies e.readWq, e.writeWq, e.readWq.rq`state
    ensures Shows(s', e) && Leads(s, [Finish1(t), Finish2(t)], s') && s'.ths[t].pc.Idle?
  {
    hide Ring, Levels, Alike, Locked, Leads;
    var wq := if reading then e.readWq else e.writeWq;
    ghost var rd, wr, st := e.readWq.q, e.writeWq.q, wq.rq.state;
    AlikeSizes(s, e);
    RingRange(wq.next, wq.prev, wq.head, wq.q);
    wq.FinishWait(t);
    Popped(if reading then rd else wr, wq.q, t);
    FinishedAlike(s, t, st, wq.rq.q, wq.rq.prio, rd, wr, e.readWq.q, e.writeWq.q);
    s' := Apply(Apply(s, Finish1(t)), Finish2(t));
    LeadsNone(s');
    LeadsFirst(Apply(s, Finish1(t)), Finish2(t), [], s');
    LeadsFirst(s, Finish1(t), [Finish2(t)] + [], s');
    assert [Finish1(t)] + ([Finish2(t)] + []) == [Finish1(t), Finish2(t)];
  }
}
