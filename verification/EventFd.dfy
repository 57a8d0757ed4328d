/** eventfd readers and writers: the counter, and the blocking protocol prepare / check / schedule against update /
    wake as a state machine over all interleavings of any number of threads. */
module EventFd {
  import opened RunQueue
  import opened WaitQueue

  const MAX := 0xFFFF_FFFF_FFFF_FFFE
  const EAGAIN := 11
  const DONE := 8

  type Tid = nat
  datatype Op = Read | Write(v: nat)

  /** Where a thread is in eventfd_read or eventfd_write.  Owe: it has changed the counter and must wake the other
      queue; Waking: inside wake_up, holding that queue's lock, with `todo` still to visit and `mid` marked RUNNABLE
      but not yet added to a run queue; `queued` tells the waiting loop from the fast path. */
  datatype Pc =
    | Idle
    | Prep(op: Op) | Try(op: Op) | Sig(op: Op) | Sched(op: Op) | Out(op: Op)
    | Owe(op: Op, queued: bool)
    | Waking(op: Op, queued: bool, todo: set<Tid>, mid: int)
    | Fin1(op: Op) | Fin2(op: Op)

  datatype Thread = Thread(pc: Pc, st: TState, inq: bool, onrq: bool)

  /** A thread outside eventfd runs, sleeps and is queued as it likes.  `kicks` are wake-ups by signals or timers that
      have marked a thread RUNNABLE but not yet queued it; `put` and `got` sum up what was written and read since the
      counter was `init`. */
  datatype State = State(counter: nat, sem: bool, ths: seq<Thread>, kicks: seq<Tid>, init: nat, put: nat, got: nat)

  datatype Step =
    | Begin(t: Tid, op: Op, block: bool) | Prepare(t: Tid) | TryAgain(t: Tid) | Signal(t: Tid) | GoSched(t: Tid)
    | SelfPick(t: Tid) | SwitchOut(t: Tid) | Dispatch(t: Tid)
    | StartWake(t: Tid) | Visit(t: Tid, u: Tid) | AddMid(t: Tid) | EndWake(t: Tid)
    | Finish1(t: Tid) | Finish2(t: Tid) | Kick(u: Tid) | KickAdd(i: nat) | Away(t: Tid, st: TState, onrq: bool)

  // ---------------------------------------------------------------- the counter

  predicate OpOk(op: Op) { op.Write? ==> op.v <= MAX }

  /** The operation cannot go ahead: nothing to read, or no room for the value. */
  predicate Short(counter: nat, op: Op) { if op.Read? then counter == 0 else counter > MAX - op.v }

  function Taken(counter: nat, sem: bool): nat { if sem && counter > 0 then 1 else counter }

  function Effect(s: State, op: Op): State
    requires !Short(s.counter, op)
  {
    match op
    case Read => s.(counter := s.counter - Taken(s.counter, s.sem), got := s.got + Taken(s.counter, s.sem))
    case Write(v) => s.(counter := s.counter + v, put := s.put + v)
  }

  // ---------------------------------------------------------------- the steps

  function Put(s: State, t: Tid, x: Thread): State
    requires t < |s.ths|
  {
    s.(ths := s.ths[t := x])
  }

  function At(s: State, t: Tid, pc: Pc): State
    requires t < |s.ths|
  {
    Put(s, t, s.ths[t].(pc := pc))
  }

  /** Somebody holds the lock of the queue of `op`: a wake-up of that queue is in progress. */
  predicate Locked(s: State, op: Op) {
    exists w {:trigger s.ths[w]} :: 0 <= w < |s.ths| && s.ths[w].pc.Waking? && Other(s.ths[w].pc.op, op)
  }

  /** Reading wakes writers and writing wakes readers. */
  predicate Other(a: Op, b: Op) { a.Read? != b.Read? }

  predicate Waits(pc: Pc) {
    pc.Prep? || pc.Try? || pc.Sig? || pc.Sched? || pc.Out? || pc.Fin1? || pc.Fin2? ||
      ((pc.Owe? || pc.Waking?) && pc.queued)
  }

  /** Thread u is in the queue that `op` wakes. */
  predicate Listed(s: State, op: Op, u: Tid) {
    u < |s.ths| && s.ths[u].inq && Waits(s.ths[u].pc) && Other(op, s.ths[u].pc.op)
  }

  function Todo(s: State, op: Op): set<Tid> { set u: Tid {:trigger Listed(s, op, u)} | u < |s.ths| && Listed(s, op, u) }

  predicate Enabled(s: State, p: Step) {
    match p
    case Begin(t, op, _) => t < |s.ths| && s.ths[t].pc.Idle? && OpOk(op)
    case Prepare(t) => t < |s.ths| && s.ths[t].pc.Prep? && !Locked(s, s.ths[t].pc.op)
    case TryAgain(t) => t < |s.ths| && s.ths[t].pc.Try?
    case Signal(t) => t < |s.ths| && s.ths[t].pc.Sig?
    case GoSched(t) => t < |s.ths| && s.ths[t].pc.Sig?
    case SelfPick(t) => t < |s.ths| && s.ths[t].pc.Sched? && s.ths[t].onrq
    case SwitchOut(t) => t < |s.ths| && s.ths[t].pc.Sched?
    case Dispatch(t) => t < |s.ths| && s.ths[t].pc.Out? && s.ths[t].onrq
    case StartWake(t) => t < |s.ths| && s.ths[t].pc.Owe? &&
      !(exists w {:trigger s.ths[w]} ::
      0 <= w < |s.ths| && s.ths[w].pc.Waking? && !Other(s.ths[w].pc.op, s.ths[t].pc.op))
    case Visit(t, u) => t < |s.ths| && u < |s.ths| && s.ths[t].pc.Waking? && s.ths[t].pc.mid < 0 &&
      u in s.ths[t].pc.todo && u != t
    case AddMid(t) => t < |s.ths| && s.ths[t].pc.Waking? && 0 <= s.ths[t].pc.mid < |s.ths| && s.ths[t].pc.mid != t
    case EndWake(t) => t < |s.ths| && s.ths[t].pc.Waking? && s.ths[t].pc.mid < 0 && s.ths[t].pc.todo == {}
    case Finish1(t) => t < |s.ths| && s.ths[t].pc.Fin1?
    case Finish2(t) => t < |s.ths| && s.ths[t].pc.Fin2? && !Locked(s, s.ths[t].pc.op)
    case Kick(u) => u < |s.ths| && s.ths[u].st == Blocked
    case KickAdd(i) => i < |s.kicks| && s.kicks[i] < |s.ths|
    case Away(t, _, _) => t < |s.ths| && s.ths[t].pc.Idle?
  }

  function Wake(x: Thread): Thread { x.(st := Runnable, onrq := true) }

  function Apply(s: State, p: Step): State
    requires Enabled(s, p)
  {
    match p
    case Begin(t, op, block) =>
      if !Short(s.counter, op) then At(Effect(s, op), t, Owe(op, false)) else if block then At(s, t, Prep(op)) else s
    case Prepare(t) => Put(s, t, s.ths[t].(pc := Try(s.ths[t].pc.op), st := Blocked, inq := true))
    case TryAgain(t) =>
      var op := s.ths[t].pc.op;
      if !Short(s.counter, op) then At(Effect(s, op), t, Owe(op, true)) else At(s, t, Sig(op))
    case Signal(t) => At(s, t, Fin1(s.ths[t].pc.op))
    case GoSched(t) => At(s, t, Sched(s.ths[t].pc.op))
    case SelfPick(t) => Put(s, t, s.ths[t].(pc := Prep(s.ths[t].pc.op), st := Running, onrq := false))
    case SwitchOut(t) =>
      var x := s.ths[t].(pc := Out(s.ths[t].pc.op));
      Put(s, t, if x.st == Running then Wake(x) else x)
    case Dispatch(t) => Put(s, t, s.ths[t].(pc := Prep(s.ths[t].pc.op), st := Running, onrq := false))
    case StartWake(t) => At(s, t, Waking(s.ths[t].pc.op, s.ths[t].pc.queued, Todo(s, s.ths[t].pc.op), -1))
    case Visit(t, u) =>
      var pc := s.ths[t].pc;
      if s.ths[u].st == Blocked then Put(At(s, t, pc.(todo := pc.todo - {u}, mid := u)), u, s.ths[u].(st := Runnable))
      else At(s, t, pc.(todo := pc.todo - {u}))
    case AddMid(t) =>
      var m := s.ths[t].pc.mid;
      Put(At(s, t, s.ths[t].pc.(mid := -1)), m, Wake(s.ths[m]))
    case EndWake(t) => At(s, t, if s.ths[t].pc.queued then Fin1(s.ths[t].pc.op) else Idle)
    case Finish1(t) => Put(s, t, s.ths[t].(pc := Fin2(s.ths[t].pc.op), st := Running))
    case Finish2(t) => Put(s, t, s.ths[t].(pc := Idle, inq := false))
    case Kick(u) => Put(s, u, s.ths[u].(st := Runnable)).(kicks := s.kicks + [u])
    case KickAdd(i) => Put(s, s.kicks[i], Wake(s.ths[s.kicks[i]])).(kicks := s.kicks[..i] + s.kicks[i + 1..])
    case Away(t, st, onrq) => Put(s, t, s.ths[t].(st := st, onrq := onrq))
  }

  // ---------------------------------------------------------------- invariants

  predicate Prepared(pc: Pc) { pc.Try? || pc.Sig? || pc.Sched? || pc.Out? }
  predicate Checked(pc: Pc) { pc.Sig? || pc.Sched? || pc.Out? }
  predicate Waker(pc: Pc) { pc.Owe? || pc.Waking? }

  /** Thread w still has to visit t: it owes a wake-up of t's queue or has not reached t yet. */
  ghost predicate Owes(s: State, w: Tid, t: Tid) {
    && w < |s.ths| && t < |s.ths| && Checked(s.ths[t].pc) && Waker(s.ths[w].pc) && Other(s.ths[w].pc.op, s.ths[t].pc.op)
    && (s.ths[w].pc.Waking? ==> t in s.ths[w].pc.todo)
  }

  ghost predicate OwedTo(s: State, t: Tid) { exists w: Tid :: Owes(s, w, t) }

  ghost predicate Mid(s: State, w: Tid, t: Tid) { w < |s.ths| && s.ths[w].pc.Waking? && s.ths[w].pc.mid == t }

  /** Somebody has marked t RUNNABLE and is about to queue it. */
  ghost predicate Pending(s: State, t: Tid) { t in s.kicks || exists w: Tid :: Mid(s, w, t) }

  ghost predicate ThreadOk(s: State, t: Tid) {
    && t < |s.ths|
    && var x := s.ths[t];
    && (Prepared(x.pc) ==> x.inq && (x.st == Blocked || x.st == Runnable))
    && (Prepared(x.pc) && x.st == Runnable ==> x.onrq || Pending(s, t))
    && (Checked(x.pc) && x.st == Blocked ==> Short(s.counter, x.pc.op) || OwedTo(s, t))
    && (!x.pc.Idle? ==> OpOk(x.pc.op))
  }

  ghost predicate Inv(s: State) {
    && s.counter <= MAX && s.init + s.put == s.got + s.counter
    && forall t: Tid {:trigger ThreadOk(s, t)} :: t < |s.ths| ==> ThreadOk(s, t)
  }

  /** Only thread t changed, and it was no waker: the others are owed and awaited as before. */
  lemma OthersKept(s: State, s': State, t: Tid, u: Tid)
    requires t < |s.ths| == |s'.ths| && u < |s.ths| && u != t && s'.ths == s.ths[t := s'.ths[t]] && s'.kicks == s.kicks
    requires !Waker(s.ths[t].pc)
    ensures OwedTo(s, u) ==> OwedTo(s', u)
    ensures Pending(s, u) ==> Pending(s', u)
  {
    if OwedTo(s, u) { var w: Tid :| Owes(s, w, u); assert Owes(s', w, u); }
    if Pending(s, u) && u !in s.kicks { var w: Tid :| Mid(s, w, u); assert Mid(s', w, u); }
  }

  /** Steps of a thread that is not waking anybody. */
  lemma OneThread(s: State, s': State, t: Tid)
    requires Inv(s) && t < |s.ths| == |s'.ths| && s'.ths == s.ths[t := s'.ths[t]] && s'.kicks == s.kicks
    requires !Waker(s.ths[t].pc)
    requires s'.counter <= MAX && s'.init + s'.put == s'.got + s'.counter && ThreadOk(s', t)
    requires s'.counter == s.counter ||
      (s'.ths[t].pc.Owe? && !Short(s.counter, s'.ths[t].pc.op) && if s'.ths[t].pc.op.Read? then s'.counter <= s.counter
      else s'.counter >= s.counter)
    ensures Inv(s')
  {
    hide OwedTo, Pending;
    forall u: Tid | u < |s'.ths| ensures ThreadOk(s', u) {
      if u != t {
        assert ThreadOk(s, u);
        OthersKept(s, s', t, u);
        var x := s.ths[u];
        if Checked(x.pc) && x.st == Blocked && s'.counter != s.counter && Other(s'.ths[t].pc.op, x.pc.op) {
          Indebted(s', t, u);
        }
      }
    }
  }

  lemma Indebted(s: State, w: Tid, t: Tid)
    requires Owes(s, w, t)
    ensures OwedTo(s, t)
  {
  }

  lemma EffectSums(s: State, op: Op)
    requires !Short(s.counter, op) && OpOk(op) && s.counter <= MAX && s.init + s.put == s.got + s.counter
    ensures var r := Effect(s, op);
      r.counter <= MAX && r.init + r.put == r.got + r.counter && r.ths == s.ths && r.kicks == s.kicks
    ensures if op.Read? then Effect(s, op).counter < s.counter else Effect(s, op).counter >= s.counter
  {
  }

  lemma PlainInv(s: State, p: Step)
    requires Inv(s) && Enabled(s, p)
    requires p.Prepare? || p.Signal? || p.GoSched? || p.SelfPick? || p.SwitchOut? || p.Dispatch? || p.Finish1? ||
      p.Finish2? || p.Away?
    ensures Inv(Apply(s, p))
  {
    hide OwedTo, Pending, Locked;
    var s' := Apply(s, p);
    assert ThreadOk(s, p.t);
    OwedSelf(s, s', p.t);
    OneThread(s, s', p.t);
  }

  /** What others owe a thread does not depend on where exactly it sleeps. */
  lemma OwedSelf(s: State, s': State, t: Tid)
    requires t < |s.ths| == |s'.ths| && s'.ths == s.ths[t := s'.ths[t]] && s'.kicks == s.kicks && !Waker(s.ths[t].pc)
    ensures Checked(s.ths[t].pc) && Checked(s'.ths[t].pc) && s'.ths[t].pc.op == s.ths[t].pc.op && OwedTo(s, t) ==>
      OwedTo(s', t)
    ensures Pending(s, t) ==> Pending(s', t)
  {
    if Checked(s.ths[t].pc) && Checked(s'.ths[t].pc) && s'.ths[t].pc.op == s.ths[t].pc.op && OwedTo(s, t) {
      var w: Tid :| Owes(s, w, t);
      assert Owes(s', w, t);
    }
    if Pending(s, t) && t !in s.kicks { var w: Tid :| Mid(s, w, t); assert Mid(s', w, t); }
  }

  lemma AttemptInv(s: State, p: Step)
    requires Inv(s) && Enabled(s, p) && (p.Begin? || p.TryAgain?)
    ensures Inv(Apply(s, p))
  {
    hide OwedTo, Pending, Effect;
    var s', t := Apply(s, p), p.t;
    assert ThreadOk(s, t);
    var op := if p.Begin? then p.op else s.ths[t].pc.op;
    if !Short(s.counter, op) { EffectSums(s, op); }
    OwedSelf(s, s', t);
    OneThread(s, s', t);
  }

  /** Starting the walk: every sleeper of the other queue is on it.  Ending it: nobody is left. */
  lemma WalkInv(s: State, p: Step)
    requires Inv(s) && Enabled(s, p) && (p.StartWake? || p.EndWake?)
    ensures Inv(Apply(s, p))
  {
    var s', t := Apply(s, p), p.t;
    forall u: Tid | u < |s'.ths| ensures ThreadOk(s', u) {
      assert ThreadOk(s, u);
      WalkOwed(s, p, u);
    }
  }

  lemma WalkOwed(s: State, p: Step, u: Tid)
    requires Enabled(s, p) && (p.StartWake? || p.EndWake?) && u < |s.ths| && ThreadOk(s, u)
    ensures OwedTo(s, u) ==> OwedTo(Apply(s, p), u)
    ensures Pending(s, u) ==> Pending(Apply(s, p), u)
  {
    var s', t := Apply(s, p), p.t;
    if OwedTo(s, u) {
      var w: Tid :| Owes(s, w, u);
      if w == t && p.StartWake? { assert Listed(s, s.ths[t].pc.op, u); assert u in Todo(s, s.ths[t].pc.op); }
      assert Owes(s', w, u);
    }
    if Pending(s, u) && u !in s.kicks { var w: Tid :| Mid(s, w, u); assert Mid(s', w, u); }
  }

  /** Visiting an entry: a sleeper is marked and will be queued, anybody else is not asleep. */
  lemma VisitInv(s: State, t: Tid, u: Tid)
    requires Inv(s) && Enabled(s, Visit(t, u))
    ensures Inv(Apply(s, Visit(t, u)))
  {
    var s' := Apply(s, Visit(t, u));
    forall v: Tid | v < |s'.ths| ensures ThreadOk(s', v) {
      assert ThreadOk(s, v);
      if v == u && s.ths[u].st == Blocked { assert Mid(s', t, u); }
      VisitOwed(s, t, u, v);
    }
  }

  lemma VisitOwed(s: State, t: Tid, u: Tid, v: Tid)
    requires Enabled(s, Visit(t, u)) && v < |s.ths|
    ensures v != u && OwedTo(s, v) ==> OwedTo(Apply(s, Visit(t, u)), v)
    ensures Pending(s, v) ==> Pending(Apply(s, Visit(t, u)), v)
    ensures v == u && s.ths[u].st != Blocked ==> Apply(s, Visit(t, u)).ths[u].st == s.ths[u].st
  {
    var s' := Apply(s, Visit(t, u));
    if v != u && OwedTo(s, v) { var w: Tid :| Owes(s, w, v); assert Owes(s', w, v); }
    if Pending(s, v) && v !in s.kicks { var w: Tid :| Mid(s, w, v); assert w != t; assert Mid(s', w, v); }
  }

  /** Queuing a marked thread. */
  lemma AddInv(s: State, t: Tid)
    requires Inv(s) && Enabled(s, AddMid(t))
    ensures Inv(Apply(s, AddMid(t)))
  {
    var s', m := Apply(s, AddMid(t)), s.ths[t].pc.mid;
    forall v: Tid | v < |s'.ths| ensures ThreadOk(s', v) {
      assert ThreadOk(s, v);
      if OwedTo(s, v) { var w: Tid :| Owes(s, w, v); assert Owes(s', w, v); }
      if v != m && Pending(s, v) && v !in s.kicks { var w: Tid :| Mid(s, w, v); assert w != t; assert Mid(s', w, v); }
    }
  }

  /** Wake-ups from elsewhere. */
  lemma KickInv(s: State, p: Step)
    requires Inv(s) && Enabled(s, p) && (p.Kick? || p.KickAdd?)
    ensures Inv(Apply(s, p))
  {
    var s' := Apply(s, p);
    forall v: Tid | v < |s'.ths| ensures ThreadOk(s', v) {
      assert ThreadOk(s, v);
      if OwedTo(s, v) { var w: Tid :| Owes(s, w, v); assert Owes(s', w, v); }
      if Pending(s, v) && v !in s.kicks { var w: Tid :| Mid(s, w, v); assert Mid(s', w, v); }
      if p.KickAdd? && v in s.kicks && v != s.kicks[p.i] { KickKept(s.kicks, p.i, v); }
    }
  }

  lemma KickKept(q: seq<Tid>, i: nat, v: Tid)
    requires i < |q| && v in q && v != q[i]
    ensures v in q[..i] + q[i + 1..]
  {
    var j :| 0 <= j < |q| && q[j] == v;
    if j < i { assert (q[..i] + q[i + 1..])[j] == v; } else { assert (q[..i] + q[i + 1..])[j - 1] == v; }
  }

  lemma StepInv(s: State, p: Step)
    requires Inv(s) && Enabled(s, p)
    ensures Inv(Apply(s, p))
  {
    hide Inv, Enabled, Apply;
    match p
    case Begin(_, _, _) => AttemptInv(s, p);
    case TryAgain(_) => AttemptInv(s, p);
    case StartWake(_) => WalkInv(s, p);
    case EndWake(_) => WalkInv(s, p);
    case Visit(t, u) => VisitInv(s, t, u);
    case AddMid(t) => AddInv(s, t);
    case Kick(_) => KickInv(s, p);
    case KickAdd(_) => KickInv(s, p);
    case Prepare(_) => PlainInv(s, p);
    case Signal(_) => PlainInv(s, p);
    case GoSched(_) => PlainInv(s, p);
    case SelfPick(_) => PlainInv(s, p);
    case SwitchOut(_) => PlainInv(s, p);
    case Dispatch(_) => PlainInv(s, p);
    case Finish1(_) => PlainInv(s, p);
    case Finish2(_) => PlainInv(s, p);
    case Away(_, _, _) => PlainInv(s, p);
  }

  // ---------------------------------------------------------------- whole runs

  /** Any number of threads, none of them in an eventfd call, over a fresh eventfd. */
  ghost predicate Init(s: State) {
    && s.counter == s.init <= MAX && s.put == 0 && s.got == 0 && s.kicks == []
    && forall t {:trigger s.ths[t]} :: 0 <= t < |s.ths| ==> s.ths[t].pc.Idle?
  }

  ghost predicate IsRun(ss: seq<State>, ps: seq<Step>) {
    && |ss| == |ps| + 1 && Init(ss[0])
    && forall k {:trigger ps[k]} :: 0 <= k < |ps| ==> Enabled(ss[k], ps[k]) && ss[k + 1] == Apply(ss[k], ps[k])
  }

  lemma {:induction false} RunInv(ss: seq<State>, ps: seq<Step>, k: nat)
    requires IsRun(ss, ps) && k <= |ps|
    ensures Inv(ss[k])
  {
    hide Enabled, Apply, ThreadOk;
    if k == 0 {
      forall t: Tid | t < |ss[0].ths| ensures ThreadOk(ss[0], t) { IdleOk(ss[0], t); }
    } else {
      RunInv(ss, ps, k - 1);
      var p := ps[k - 1];
      StepInv(ss[k - 1], p);
    }
  }

  lemma IdleOk(s: State, t: Tid)
    requires t < |s.ths| && s.ths[t].pc.Idle?
    ensures ThreadOk(s, t)
  {
  }

  /** No lost wake-up: a thread that is BLOCKED, switched out and on no run queue could not go on, or somebody who
      changed the counter is still to wake it.  This is the statement for readers and for writers at once. */
  lemma NoLostWakeup(ss: seq<State>, ps: seq<Step>, k: nat, t: Tid)
    requires IsRun(ss, ps) && k <= |ps| && t < |ss[k].ths|
    requires ss[k].ths[t].pc.Out? && ss[k].ths[t].st == Blocked && !ss[k].ths[t].onrq
    ensures Short(ss[k].counter, ss[k].ths[t].pc.op) || exists w: Tid :: Owes(ss[k], w, t)
  {
    hide Init, Enabled, Apply;
    RunInv(ss, ps, k);
    assert ThreadOk(ss[k], t);
  }

  /** A thread that was woken while switched out is on a run queue, or its waker is about to put it there. */
  lemma NoLostRunnable(ss: seq<State>, ps: seq<Step>, k: nat, t: Tid)
    requires IsRun(ss, ps) && k <= |ps| && t < |ss[k].ths| && ss[k].ths[t].pc.Out? && ss[k].ths[t].st != Blocked
    ensures ss[k].ths[t].st == Runnable && (ss[k].ths[t].onrq || Pending(ss[k], t))
  {
    hide Init, Enabled, Apply, Pending;
    RunInv(ss, ps, k);
    assert ThreadOk(ss[k], t);
  }

  /** When nobody is in the middle of an update or a wake-up, every sleeper really has to wait. */
  lemma QuiescentSleepers(ss: seq<State>, ps: seq<Step>, k: nat, t: Tid)
    requires IsRun(ss, ps) && k <= |ps| && t < |ss[k].ths| && ss[k].ths[t].pc.Out? && !ss[k].ths[t].onrq
    requires ss[k].kicks == [] && forall w {:trigger ss[k].ths[w]} :: 0 <= w < |ss[k].ths| ==> !Waker(ss[k].ths[w].pc)
    ensures ss[k].ths[t].st == Blocked && Short(ss[k].counter, ss[k].ths[t].pc.op)
  {
    hide Init, Enabled, Apply;
    RunInv(ss, ps, k);
    assert ThreadOk(ss[k], t);
  }

  /** Nothing is lost or made up: initial value and writes equal reads and what is left, which stays within the
      limit. */
  lemma Conservation(ss: seq<State>, ps: seq<Step>, k: nat)
    requires IsRun(ss, ps) && k <= |ps|
    ensures ss[k].init + ss[k].put == ss[k].got + ss[k].counter && ss[k].counter <= MAX
  {
    hide Init, Enabled, Apply, ThreadOk;
    RunInv(ss, ps, k);
  }

  // ---------------------------------------------------------------- the object

  /** Every sleeper of the queue is RUNNABLE and on a run queue now. */
  ghost predicate AllWoken(q: seq<int>, excl: seq<bool>, st: seq<TState>, st': seq<TState>, runs: seq<seq<int>>,
      prio: seq<int>) {
    && |st| == |st'| == |excl| == |prio| && |runs| == LEVELS
    && forall t {:trigger st'[t]} :: 0 <= t < |st| && t in q && !excl[t] && Asleep(st[t]) ==>
      st'[t] == Runnable && t in runs[Clamp(prio[t])]
  }

  /** Exactly the sleepers that a wake-up of the queue picks are RUNNABLE and queued now. */
  ghost predicate Woke(q: seq<int>, excl: seq<bool>, st: seq<TState>, st': seq<TState>, runs: seq<seq<int>>,
      runs': seq<seq<int>>, prio: seq<int>) {
    && |st| == |st'| == |excl| == |prio| && |runs| == LEVELS && InRange(q, |st|)
    && var ts := Wakes(q, st, excl, false);
    && InRange(ts, |prio|) && runs' == EnqueueAll(runs, prio, ts)
    && forall t {:trigger st'[t]} :: 0 <= t < |st'| ==> st'[t] == if t in ts then Runnable else st[t]
  }

  class Eventfd {
    const sem: bool
    const readWq: WaitQueueHead
    const writeWq: WaitQueueHead
    var counter: nat

    constructor (v: nat, semaphore: bool, r: WaitQueueHead, w: WaitQueueHead)
      requires v <= MAX
      ensures counter == v && sem == semaphore && readWq == r && writeWq == w
    {
      counter, sem, readWq, writeWq := v, semaphore, r, w;
    }

    /** Wake a whole queue. */
    method WakeQueue(wq: WaitQueueHead)
      requires wq.Valid()
      modifies wq.rq
      ensures wq.Valid() && AllWoken(wq.q, wq.excl, old(wq.rq.state), wq.rq.state, wq.rq.q, wq.rq.prio)
      ensures wq.rq.prio == old(wq.rq.prio)
      ensures Woke(wq.q, wq.excl, old(wq.rq.state), wq.rq.state, old(wq.rq.q), wq.rq.q, wq.rq.prio)
    {
      hide Ring, Levels, Wakes, EnqueueAll;
      RqSizes(wq.rq);
      var _ := wq.WakeUp();
      RqSizes(wq.rq);
      ghost var ts := Wakes(wq.q, old(wq.rq.state), wq.excl, false);
      forall t | 0 <= t < |wq.rq.state| && t in wq.q && !wq.excl[t] && Asleep(old(wq.rq.state)[t])
        ensures wq.rq.state[t] == Runnable && t in wq.rq.q[Clamp(wq.rq.prio[t])]
      {
        WakesWho(wq.q, old(wq.rq.state), wq.excl, false, t);
        EnqueuedAll(old(wq.rq.q), wq.rq.prio, ts, t);
      }
    }

    /** `eventfd_try_read`: all of the counter, or one in semaphore mode; then writers waiting for room are woken. */
    method TryRead() returns (rc: int, val: nat)
      requires writeWq.Valid() && counter <= MAX
      modifies this`counter, writeWq.rq
      ensures writeWq.Valid() && counter <= MAX && (rc == DONE || rc == -EAGAIN)
      ensures (rc == -11 <==> old(counter) == 0) && (rc == -11 <==> Short(old(counter), Read))
      ensures rc == DONE ==> val == Taken(old(counter), sem) && val > 0 && counter + val == old(counter)
      ensures rc == 8 && sem ==> val == 1
      ensures rc == 8 && !sem ==> val == old(counter) && counter == 0
      ensures rc == DONE ==>
        AllWoken(writeWq.q, writeWq.excl, old(writeWq.rq.state), writeWq.rq.state, writeWq.rq.q, writeWq.rq.prio)
      ensures writeWq.rq.prio == old(writeWq.rq.prio)
      ensures rc == DONE ==> Woke(writeWq.q, writeWq.excl, old(writeWq.rq.state), writeWq.rq.state, old(writeWq.rq.q),
        writeWq.rq.q, writeWq.rq.prio)
      ensures rc < 0 ==>
        counter == old(counter) && writeWq.rq.state == old(writeWq.rq.state) && writeWq.rq.q == old(writeWq.rq.q)
    {
      hide Woke, AllWoken;
      if counter == 0 { return -EAGAIN, 0; }
      if sem {
        val := 1;
        counter := counter - 1;
      } else {
        val := counter;
        counter := 0;
      }
      WakeQueue(writeWq);
      rc := DONE;
    }

    /** `eventfd_try_write`: the value is added if the sum stays within the limit; then readers are woken. */
    method TryWrite(v: nat) returns (rc: int)
      requires readWq.Valid() && counter <= MAX && v <= MAX
      modifies this`counter, readWq.rq
      ensures readWq.Valid() && counter <= MAX && (rc == DONE || rc == -EAGAIN)
      ensures rc == -11 <==> old(counter) + v > 0xFFFF_FFFF_FFFF_FFFE
      ensures rc == -11 <==> Short(old(counter), Write(v))
      ensures rc == DONE ==> counter == old(counter) + v
      ensures rc == DONE ==>
        AllWoken(readWq.q, readWq.excl, old(readWq.rq.state), readWq.rq.state, readWq.rq.q, readWq.rq.prio)
      ensures readWq.rq.prio == old(readWq.rq.prio)
      ensures rc == DONE ==> Woke(readWq.q, readWq.excl, old(readWq.rq.state), readWq.rq.state, old(readWq.rq.q),
        readWq.rq.q, readWq.rq.prio)
      ensures rc < 0 ==>
        counter == old(counter) && readWq.rq.state == old(readWq.rq.state) && readWq.rq.q == old(readWq.rq.q)
    {
      hide Woke, AllWoken;
      if counter > MAX - v { return -EAGAIN; }
      counter := counter + v;
      WakeQueue(readWq);
      rc := DONE;
    }
  }
}
