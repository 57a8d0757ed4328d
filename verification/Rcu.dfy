/** Preemptible RCU as a state machine: any number of CPUs, threads that nest, migrate and block inside read-side
    sections, a grace period with a mask of CPUs that owe a quiescent state, and three callback queues per CPU. */
module Rcu {
  import opened Lists

  type Tid = nat
  type Cb = nat
  const NOBODY := -1

  /** Per-CPU state: the thread running there, its bit in `qsmask` (it owes a quiescent state), `qs_pending`, the
      callback queues, the batch being run and `cb_count`. */
  datatype Cpu = Cpu(cur: int, owes: bool, qs: bool,
    next: seq<Cb>, wait: seq<Cb>, done: seq<Cb>, batch: seq<Cb>, count: int)

  /** `gp` is odd while a grace period is active; `blkd` lists the readers that were switched out inside a section;
      `head` and `ready` are the synchronize_rcu waiters. */
  datatype State = State(gp: nat, blkd: seq<Tid>, cpus: seq<Cpu>, nest: map<Tid, nat>, head: seq<Tid>, ready: seq<Tid>)

  datatype Step =
    | Lock(c: nat) | Dec(c: nat) | Special(c: nat) | Note(c: nat) | Switch(c: nat, to: int)
    | Call(c: nat, cb: Cb) | Sync(c: nat) | Start | Complete(c: nat) | Take(c: nat) | RunOne(c: nat) | Wake

  predicate Active(s: State) { s.gp % 2 == 1 }
  function Nest(s: State, t: Tid): nat { if t in s.nest then s.nest[t] else 0 }
  predicate Running(s: State, c: nat, t: Tid) { c < |s.cpus| && s.cpus[c].cur == t }
  predicate OutOn(s: State, c: nat) { c < |s.cpus| && (s.cpus[c].cur < 0 || Nest(s, s.cpus[c].cur) == 0) }

  function WithCpu(s: State, c: nat, x: Cpu): State
    requires c < |s.cpus|
  {
    s.(cpus := s.cpus[c := x])
  }

  function Drop(q: seq<Tid>, t: Tid): seq<Tid> {
    if q == [] then [] else if q[0] == t then q[1..] else [q[0]] + Drop(q[1..], t)
  }

  // ---------------------------------------------------------------- the steps

  /** What the callers guarantee: a thread is on one CPU at a time, sections are balanced, a switched-out reader is on
      the blocked list first, a callback head is not in use, one drain per CPU is in progress at a time, and whoever
      waits in synchronize_rcu runs outside any section and is not waiting already. */
  predicate Enabled(s: State, p: Step) {
    match p
    case Lock(c) => c < |s.cpus| && s.cpus[c].cur >= 0
    case Dec(c) => c < |s.cpus| && s.cpus[c].cur >= 0 && Nest(s, s.cpus[c].cur) > 0
    case Special(c) => c < |s.cpus| && s.cpus[c].cur >= 0 && Nest(s, s.cpus[c].cur) == 0 &&
      (var t: Tid := s.cpus[c].cur; t in s.blkd)
    case Note(c) => c < |s.cpus|
    case Switch(c, to) =>
      && c < |s.cpus| && to >= -1 && (OutOn(s, c) || (s.cpus[c].cur >= 0 && (var t: Tid := s.cpus[c].cur; t in s.blkd)))
      && (to >= 0 ==> forall d :: 0 <= d < |s.cpus| ==> s.cpus[d].cur != to)
    case Call(c, cb) => c < |s.cpus|
    case Sync(c) =>
      && c < |s.cpus| && s.cpus[c].cur >= 0 && Nest(s, s.cpus[c].cur) == 0
      && (var t: Tid := s.cpus[c].cur; t !in s.head && t !in s.ready)
    case Start => true
    case Complete(c) => OutOn(s, c)
    case Take(c) => c < |s.cpus| && s.cpus[c].batch == []
    case RunOne(c) => c < |s.cpus| && s.cpus[c].batch != []
    case Wake => true
  }

  function SetNest(s: State, t: Tid, n: nat): State { s.(nest := s.nest[t := n]) }

  function Promote(x: Cpu): Cpu { x.(owes := true, qs := true, wait := x.wait + x.next, next := []) }
  function Finish(x: Cpu): Cpu { x.(done := x.done + x.wait, wait := []) }

  predicate NoneOwes(s: State) { forall c {:trigger s.cpus[c]} :: 0 <= c < |s.cpus| ==> !s.cpus[c].owes }

  function Apply(s: State, p: Step): State
    requires Enabled(s, p)
  {
    match p
    case Lock(c) => SetNest(s, s.cpus[c].cur, Nest(s, s.cpus[c].cur) + 1)
    case Dec(c) => SetNest(s, s.cpus[c].cur, Nest(s, s.cpus[c].cur) - 1)
    case Special(c) => s.(blkd := Drop(s.blkd, s.cpus[c].cur))
    case Note(c) => NoteFn(s, c)
    case Switch(c, to) => WithCpu(s, c, s.cpus[c].(cur := to))
    case Call(c, cb) => WithCpu(s, c, s.cpus[c].(next := s.cpus[c].next + [cb], count := s.cpus[c].count + 1))
    case Sync(c) => s.(head := [s.cpus[c].cur] + s.head)
    case Start => if Active(s) then s else StartFn(s)
    case Complete(_) => if Active(s) && NoneOwes(s) && s.blkd == [] then CompleteFn(s) else s
    case Take(c) => WithCpu(s, c, s.cpus[c].(batch := s.cpus[c].done, done := []))
    case RunOne(c) => WithCpu(s, c, s.cpus[c].(batch := s.cpus[c].batch[1..], count := s.cpus[c].count - 1))
    case Wake => s.(ready := [])
  }

  function NoteFn(s: State, c: nat): State
    requires c < |s.cpus|
  {
    var x := s.cpus[c];
    if x.cur < 0 then s
    else if Nest(s, x.cur) > 0 then (var t: Tid := x.cur; if t in s.blkd then s else s.(blkd := s.blkd + [t]))
    else if !x.qs then s
    else WithCpu(s, c, x.(qs := false, owes := false))
  }

  function StartFn(s: State): State {
    s.(gp := s.gp + 1, cpus := seq(|s.cpus|, c requires 0 <= c < |s.cpus| => Promote(s.cpus[c])))
  }

  function CompleteFn(s: State): State {
    s.(gp := s.gp + 1, cpus := seq(|s.cpus|, c requires 0 <= c < |s.cpus| => Finish(s.cpus[c])), ready :=
      s.head + s.ready, head := [])
  }

  // ---------------------------------------------------------------- history

  /** What has been called and run on each CPU, and for each callback the readers that were inside when it was called
      and have not left since. */
  datatype Hist = Hist(called: seq<seq<Cb>>, ran: seq<seq<Cb>>, owed: map<Cb, set<Tid>>)

  ghost function Owed(h: Hist, cb: Cb): set<Tid> { if cb in h.owed then h.owed[cb] else {} }

  ghost function Inside(s: State): set<Tid> { set t | t in s.nest && s.nest[t] > 0 }

  ghost predicate Fresh(h: Hist, p: Step) { p.Call? ==> p.cb !in h.owed }

  ghost function Record(s: State, h: Hist, p: Step): Hist
    requires Enabled(s, p) && |h.called| == |h.ran| == |s.cpus|
  {
    match p
    case Call(c, cb) => h.(called := h.called[c := h.called[c] + [cb]], owed := h.owed[cb := Inside(s)])
    case Dec(c) => if Nest(s, s.cpus[c].cur) == 1 then h.(owed := map k | k in h.owed :: h.owed[k] - {s.cpus[c].cur})
      else h
    case RunOne(c) => h.(ran := h.ran[c := h.ran[c] + [s.cpus[c].batch[0]]])
    case Lock(_) => h
    case Special(_) => h
    case Note(_) => h
    case Switch(_, _) => h
    case Sync(_) => h
    case Start => h
    case Complete(_) => h
    case Take(_) => h
    case Wake => h
  }

  // ---------------------------------------------------------------- invariants

  /** A thread runs on at most one CPU. */
  ghost predicate Apart(s: State) {
    forall c, d {:trigger s.cpus[c], s.cpus[d]} :: 0 <= c < d < |s.cpus| && s.cpus[c].cur >= 0 ==>
      s.cpus[c].cur != s.cpus[d].cur
  }

  ghost predicate Somewhere(s: State, t: Tid) { t in s.blkd || exists c: nat :: Running(s, c, t) }

  /** A reader that runs nowhere is on the blocked list. */
  ghost predicate Placed(s: State) { forall t: Tid {:trigger Nest(s, t)} :: Nest(s, t) > 0 ==> Somewhere(s, t) }

  /** The current grace period still waits for `t`: it is blocked, or runs on a CPU that owes a quiescent state. */
  ghost predicate Awaited(s: State, t: Tid) {
    t in s.blkd || exists c: nat {:trigger Running(s, c, t)} :: Running(s, c, t) && s.cpus[c].owes
  }

  /** `cb` is known and everybody it is owed is awaited by the grace period. */
  ghost predicate Held(s: State, h: Hist, cb: Cb) {
    Active(s) && cb in h.owed && forall t {:trigger Awaited(s, t)} :: t in Owed(h, cb) ==> Awaited(s, t)
  }

  /** Nobody a finished callback had to wait for is still inside. */
  ghost predicate Free(h: Hist, cb: Cb) { cb in h.owed && Owed(h, cb) == {} }

  /** The queues of one CPU: waiting callbacks are held, finished ones are free. */
  ghost predicate QueuesOk(s: State, h: Hist, c: nat) {
    && c < |s.cpus| == |h.called| == |h.ran|
    && (forall i {:trigger s.cpus[c].next[i]} :: 0 <= i < |s.cpus[c].next| ==> s.cpus[c].next[i] in h.owed)
    && (forall i {:trigger s.cpus[c].wait[i]} :: 0 <= i < |s.cpus[c].wait| ==> Held(s, h, s.cpus[c].wait[i]))
    && (forall i {:trigger s.cpus[c].done[i]} :: 0 <= i < |s.cpus[c].done| ==> Free(h, s.cpus[c].done[i]))
    && (forall i {:trigger s.cpus[c].batch[i]} :: 0 <= i < |s.cpus[c].batch| ==> Free(h, s.cpus[c].batch[i]))
    && forall i {:trigger h.ran[c][i]} :: 0 <= i < |h.ran[c]| ==> Free(h, h.ran[c][i])
  }

  /** On a CPU the callbacks called are, in order, those that ran, the batch, done, wait and next queues. */
  ghost predicate OrderOk(s: State, h: Hist, c: nat) {
    && c < |s.cpus| == |h.called| == |h.ran|
    && var x := s.cpus[c];
    && h.called[c] == h.ran[c] + x.batch + x.done + x.wait + x.next
    && x.count == |x.batch| + |x.done| + |x.wait| + |x.next|
    && (x.owes ==> Active(s) && x.qs)
  }

  ghost predicate OwedInside(s: State, h: Hist) { forall k {:trigger Owed(h, k)} :: Owed(h, k) <= Inside(s) }

  ghost predicate Inv(s: State, h: Hist) {
    && |h.called| == |h.ran| == |s.cpus| && Apart(s) && Placed(s) && NoDup(s.blkd) && OwedInside(s, h)
    && (forall c: nat {:trigger QueuesOk(s, h, c)} :: c < |s.cpus| ==> QueuesOk(s, h, c))
    && forall c: nat {:trigger OrderOk(s, h, c)} :: c < |s.cpus| ==> OrderOk(s, h, c)
  }

  lemma {:induction false} DropMember(q: seq<Tid>, t: Tid, u: Tid)
    requires NoDup(q)
    ensures u in Drop(q, t) <==> u in q && u != t
    ensures NoDup(Drop(q, t))
  {
    if q != [] && q[0] != t {
      DropMember(q[1..], t, u);
      forall i, j | 0 <= i < j < |Drop(q, t)| ensures Drop(q, t)[i] != Drop(q, t)[j] {
        if i == 0 { DropMember(q[1..], t, q[0]); assert Drop(q, t)[j] == Drop(q[1..], t)[j - 1]; }
      }
    }
  }

  // ---------------------------------------------------------------- steps that leave the queues alone

  /** The callback queues of CPU `c` and their history did not change, and it does not start to owe anything. */
  ghost predicate SameQueues(s: State, h: Hist, s': State, h': Hist, c: nat) {
    && c < |s.cpus| == |s'.cpus| == |h.called| == |h.ran| == |h'.called| == |h'.ran|
    && h'.ran[c] == h.ran[c] && h'.called[c] == h.called[c]
    && var x, y := s.cpus[c], s'.cpus[c];
    && y.next == x.next && y.wait == x.wait && y.done == x.done && y.batch == x.batch && y.count == x.count
    && (y.owes ==> x.owes && y.qs)
  }

  /** Owed sets shrank, and awaited readers that are still inside stay awaited. */
  ghost predicate Shrunk(s: State, h: Hist, s': State, h': Hist) {
    && h.owed.Keys <= h'.owed.Keys && (forall k {:trigger Owed(h', k)} :: k in h.owed ==> Owed(h', k) <= Owed(h, k))
    && forall t {:trigger Awaited(s', t)} :: Awaited(s, t) && t in Inside(s') ==> Awaited(s', t)
  }

  lemma HeldFrame(s: State, h: Hist, s': State, h': Hist, cb: Cb)
    requires Held(s, h, cb) && Shrunk(s, h, s', h') && Active(s') && OwedInside(s', h')
    ensures Held(s', h', cb)
  {
    hide Awaited, Inside;
    forall t | t in Owed(h', cb) ensures Awaited(s', t) { assert t in Owed(h, cb); assert Awaited(s, t); }
  }

  lemma FreeFrame(s: State, h: Hist, s': State, h': Hist, cb: Cb)
    requires Free(h, cb) && Shrunk(s, h, s', h')
    ensures Free(h', cb)
  {
    hide Awaited, Inside;
    assert Owed(h', cb) <= Owed(h, cb);
  }

  lemma QueuesFrame(s: State, h: Hist, s': State, h': Hist, c: nat)
    requires QueuesOk(s, h, c) && SameQueues(s, h, s', h', c) && Active(s') == Active(s) && Shrunk(s, h, s', h')
    requires OwedInside(s', h')
    ensures QueuesOk(s', h', c)
  {
    hide Awaited, Held, Free, Shrunk, OwedInside;
    var x := s.cpus[c];
    forall i | 0 <= i < |x.wait|
      ensures Held(s', h', x.wait[i])
    {
      HeldActive(s, h, x.wait[i]);
      HeldFrame(s, h, s', h', x.wait[i]);
    }
    forall i | 0 <= i < |x.done| ensures Free(h', x.done[i]) { FreeFrame(s, h, s', h', x.done[i]); }
    forall i | 0 <= i < |x.batch| ensures Free(h', x.batch[i]) { FreeFrame(s, h, s', h', x.batch[i]); }
    forall i | 0 <= i < |h.ran[c]| ensures Free(h', h.ran[c][i]) { FreeFrame(s, h, s', h', h.ran[c][i]); }
    forall i | 0 <= i < |x.next| ensures x.next[i] in h'.owed { KnownFrame(s, h, s', h', x.next[i]); }
  }

  lemma HeldActive(s: State, h: Hist, cb: Cb)
    requires Held(s, h, cb)
    ensures Active(s)
  {
  }

  lemma KnownFrame(s: State, h: Hist, s': State, h': Hist, cb: Cb)
    requires cb in h.owed && Shrunk(s, h, s', h')
    ensures cb in h'.owed
  {
    hide Awaited, Inside;
    assert cb in h.owed.Keys;
  }

  /** A step that only moves threads and reports keeps the invariant. */
  lemma Keep(s: State, h: Hist, s': State, h': Hist)
    requires Inv(s, h) && |h'.called| == |h'.ran| == |s'.cpus| == |s.cpus| && Active(s') == Active(s)
    requires Apart(s') && Placed(s') && NoDup(s'.blkd) && OwedInside(s', h') && Shrunk(s, h, s', h')
    requires forall c: nat {:trigger SameQueues(s, h, s', h', c)} :: c < |s.cpus| ==> SameQueues(s, h, s', h', c)
    ensures Inv(s', h')
  {
    hide Shrunk, OwedInside, Placed, Apart, NoDup, Held, Free;
    forall c: nat | c < |s'.cpus| ensures QueuesOk(s', h', c) && OrderOk(s', h', c) {
      assert SameQueues(s, h, s', h', c) && QueuesOk(s, h, c) && OrderOk(s, h, c);
      QueuesFrame(s, h, s', h', c);
    }
  }

  lemma ShrunkSame(s: State, h: Hist, s': State)
    requires s'.blkd == s.blkd && s'.cpus == s.cpus
    ensures Shrunk(s, h, s', h)
  {
    forall t | Awaited(s, t) ensures Awaited(s', t) {
      if t !in s.blkd { var c: nat :| Running(s, c, t) && s.cpus[c].owes; assert Running(s', c, t); }
    }
  }

  lemma LockInv(s: State, h: Hist, c: nat)
    requires Inv(s, h) && Enabled(s, Lock(c))
    ensures Inv(Apply(s, Lock(c)), h)
  {
    hide QueuesOk, OrderOk, Awaited;
    var s' := Apply(s, Lock(c));
    ShrunkSame(s, h, s');
    forall t: Tid | Nest(s', t) > 0 ensures Somewhere(s', t) {
      assert Running(s', c, s.cpus[c].cur);
      if t != s.cpus[c].cur { assert Nest(s, t) > 0; assert Somewhere(s,
        t); if t !in s.blkd { var d: nat :| Running(s, d, t); assert Running(s', d, t); } }
    }
    assert Inside(s) <= Inside(s');
    forall d: nat | d < |s.cpus| ensures SameQueues(s, h, s', h, d) { assert OrderOk(s, h, d); OwesQs(s, h, d); }
    Keep(s, h, s', h);
  }

  lemma OwesQs(s: State, h: Hist, c: nat)
    requires OrderOk(s, h, c)
    ensures s.cpus[c].owes ==> s.cpus[c].qs && Active(s)
  {
  }

  lemma DecInv(s: State, h: Hist, c: nat)
    requires Inv(s, h) && Enabled(s, Dec(c))
    ensures Inv(Apply(s, Dec(c)), Record(s, h, Dec(c)))
  {
    hide QueuesOk, OrderOk, Awaited;
    var s', h', t0 := Apply(s, Dec(c)), Record(s, h, Dec(c)), s.cpus[c].cur;
    ShrunkSame(s, h, s');
    forall t: Tid | Nest(s', t) > 0 ensures Somewhere(s', t) {
      assert Nest(s, t) > 0;
      assert Somewhere(s, t);
      if t !in s.blkd { var d: nat :| Running(s, d, t); assert Running(s', d, t); }
    }
    forall k ensures Owed(h', k) <= Owed(h, k) && Owed(h', k) <= Inside(s') {
      assert Owed(h, k) <= Inside(s);
      assert Inside(s') >= Inside(s) - {t0};
      assert Nest(s, t0) > 1 ==> t0 in Inside(s');
    }
    forall d: nat | d < |s.cpus| ensures SameQueues(s, h, s', h', d) { assert OrderOk(s, h, d); OwesQs(s, h, d); }
    Keep(s, h, s', h');
  }

  lemma SpecialInv(s: State, h: Hist, c: nat)
    requires Inv(s, h) && Enabled(s, Special(c))
    ensures Inv(Apply(s, Special(c)), h)
  {
    hide QueuesOk, OrderOk, Drop;
    var s', t0: Tid := Apply(s, Special(c)), s.cpus[c].cur;
    DropMember(s.blkd, t0, t0);
    forall t: Tid | Nest(s', t) > 0 ensures Somewhere(s', t) {
      assert Nest(s, t) > 0;
      assert Somewhere(s, t);
      DropMember(s.blkd, t0, t);
      if t !in s.blkd { var d: nat :| Running(s, d, t); assert Running(s', d, t); }
    }
    forall t | Awaited(s, t) && t in Inside(s') ensures Awaited(s', t) {
      DropMember(s.blkd, t0, t);
      if t !in s.blkd { var d: nat :| Running(s, d, t) && s.cpus[d].owes; assert Running(s', d, t); }
    }
    forall d: nat | d < |s.cpus| ensures SameQueues(s, h, s', h, d) { assert OrderOk(s, h, d); OwesQs(s, h, d); }
    Keep(s, h, s', h);
  }

  /** Moving a reader to the blocked list, or reporting a quiescent state of a CPU whose thread is outside. */
  lemma NoteInv(s: State, h: Hist, c: nat)
    requires Inv(s, h) && Enabled(s, Note(c))
    ensures Inv(Apply(s, Note(c)), h)
  {
    hide QueuesOk, OrderOk;
    var s' := Apply(s, Note(c));
    assert Apart(s');
    forall d: nat, t: Tid ensures Running(s', d, t) <==> Running(s, d, t) { }
    forall t: Tid | Nest(s', t) > 0 ensures Somewhere(s', t) {
      assert Nest(s, t) > 0;
      assert Somewhere(s, t);
      if t !in s.blkd { var d: nat :| Running(s, d, t); assert Running(s', d, t); }
    }
    forall t | Awaited(s, t) && t in Inside(s') ensures Awaited(s', t) {
      if t !in s.blkd {
        var d: nat :| Running(s, d, t) && s.cpus[d].owes;
        assert Running(s', d, t);
        assert Nest(s, t) > 0;
      }
    }
    forall d: nat | d < |s.cpus| ensures SameQueues(s, h, s', h, d) { assert OrderOk(s, h, d); OwesQs(s, h, d); }
    Keep(s, h, s', h);
  }

  lemma SwitchInv(s: State, h: Hist, c: nat, to: int)
    requires Inv(s, h) && Enabled(s, Switch(c, to))
    ensures Inv(Apply(s, Switch(c, to)), h)
  {
    hide QueuesOk, OrderOk;
    var s' := Apply(s, Switch(c, to));
    assert Apart(s');
    forall t: Tid | Nest(s', t) > 0 ensures Somewhere(s', t) {
      assert Nest(s, t) > 0;
      assert Somewhere(s, t);
      if t !in s.blkd { var d: nat :| Running(s, d, t); assert d != c; assert Running(s', d, t); }
    }
    forall t | Awaited(s, t) && t in Inside(s') ensures Awaited(s', t) {
      if t !in s.blkd {
        var d: nat :| Running(s, d, t) && s.cpus[d].owes;
        assert Nest(s, t) > 0;
        assert d != c;
        assert Running(s', d, t);
      }
    }
    forall d: nat | d < |s.cpus| ensures SameQueues(s, h, s', h, d) { assert OrderOk(s, h, d); OwesQs(s, h, d); }
    Keep(s, h, s', h);
  }

  /** Waiters come and go without touching anything else. */
  lemma WaitersInv(s: State, h: Hist, p: Step)
    requires Inv(s, h) && Enabled(s, p) && (p.Sync? || p.Wake?)
    ensures Inv(Apply(s, p), h)
  {
    hide QueuesOk, OrderOk, Awaited;
    var s' := Apply(s, p);
    ShrunkSame(s, h, s');
    forall t: Tid | Nest(s', t) > 0 ensures Somewhere(s', t) {
      assert Nest(s, t) > 0;
      assert Somewhere(s, t);
      if t !in s.blkd { var d: nat :| Running(s, d, t); assert Running(s', d, t); }
    }
    assert Inside(s') == Inside(s);
    forall d: nat | d < |s.cpus| ensures SameQueues(s, h, s', h, d) { assert OrderOk(s, h, d); OwesQs(s, h, d); }
    Keep(s, h, s', h);
  }

  // ---------------------------------------------------------------- steps that move callbacks

  /** Threads, sections and the blocked list are as before. */
  ghost predicate SameThreads(s: State, s': State) {
    && s'.blkd == s.blkd && s'.nest == s.nest && |s'.cpus| == |s.cpus|
    && forall c {:trigger s'.cpus[c]} :: 0 <= c < |s.cpus| ==> s'.cpus[c].cur == s.cpus[c].cur
  }

  lemma ThreadsKept(s: State, s': State)
    requires Apart(s) && Placed(s) && SameThreads(s, s')
    ensures Apart(s') && Placed(s') && Inside(s') == Inside(s)
    ensures (forall c {:trigger s'.cpus[c]} :: 0 <= c < |s.cpus| ==> (s.cpus[c].owes ==> s'.cpus[c].owes)) ==>
      forall t {:trigger Awaited(s', t)} :: Awaited(s, t) ==> Awaited(s', t)
  {
    forall c, d | 0 <= c < d < |s'.cpus| && s'.cpus[c].cur >= 0
      ensures s'.cpus[c].cur != s'.cpus[d].cur
    {
      assert s.cpus[c].cur != s.cpus[d].cur;
    }
    forall t: Tid | Nest(s', t) > 0 ensures Somewhere(s', t) {
      assert Nest(s, t) > 0;
      assert Somewhere(s, t);
      if t !in s.blkd { var d: nat :| Running(s, d, t); assert s'.cpus[d].cur == t; assert Running(s', d, t); }
    }
    if forall c {:trigger s'.cpus[c]} :: 0 <= c < |s.cpus| ==> (s.cpus[c].owes ==> s'.cpus[c].owes) {
      forall t | Awaited(s, t) ensures Awaited(s', t) {
        if t !in s.blkd {
          var d: nat :| Running(s, d, t) && s.cpus[d].owes;
          assert s'.cpus[d].cur == t;
          assert Running(s', d, t);
        }
      }
    }
  }

  lemma CallInv(s: State, h: Hist, c: nat, cb: Cb)
    requires Inv(s, h) && Enabled(s, Call(c, cb)) && Fresh(h, Call(c, cb))
    ensures Inv(Apply(s, Call(c, cb)), Record(s, h, Call(c, cb)))
  {
    hide Awaited, Apart, Placed;
    var s', h' := Apply(s, Call(c, cb)), Record(s, h, Call(c, cb));
    ThreadsKept(s, s');
    forall k
      ensures Owed(h', k) <= Inside(s') && (k in h.owed ==> Owed(h', k) == Owed(h, k))
    {
      assert Owed(h, k) <= Inside(s);
    }
    forall d: nat | d < |s.cpus| ensures QueuesOk(s', h', d) && OrderOk(s', h', d) {
      assert QueuesOk(s, h, d) && OrderOk(s, h, d);
    }
  }

  /** A grace period starts: whoever is inside now is blocked or runs on a CPU that now owes a quiescent state. */
  lemma StartCovers(s: State, h: Hist, cb: Cb)
    requires Placed(s) && OwedInside(s, h) && !Active(s) && cb in h.owed
    ensures Held(StartFn(s), h, cb)
  {
    var s' := StartFn(s);
    forall t | t in Owed(h, cb) ensures Awaited(s', t) {
      assert t in Inside(s);
      assert Nest(s, t) > 0;
      assert Somewhere(s, t);
      if t !in s.blkd { var c: nat :| Running(s, c, t); assert Running(s', c, t); }
    }
  }

  lemma StartInv(s: State, h: Hist)
    requires Inv(s, h)
    ensures Inv(Apply(s, Start), h)
  {
    if !Active(s) {
      hide Awaited, Apart, Placed, Free, OwedInside, Held;
      var s' := StartFn(s);
      ThreadsKept(s, s');
      SameOwed(s, h, s', h);
      forall c: nat | c < |s.cpus| ensures QueuesOk(s', h, c) && OrderOk(s', h, c) {
        assert QueuesOk(s, h, c) && OrderOk(s, h, c);
        assert s'.cpus[c] == Promote(s.cpus[c]);
        if s.cpus[c].wait != [] { HeldActive(s, h, s.cpus[c].wait[0]); }
        assert s'.cpus[c].wait == s.cpus[c].next;
        forall i | 0 <= i < |s.cpus[c].next|
          ensures Held(s', h, s.cpus[c].next[i])
        {
          StartCovers(s, h, s.cpus[c].next[i]);
        }
      }
    }
  }

  lemma SameOwed(s: State, h: Hist, s': State, h': Hist)
    requires OwedInside(s, h) && Inside(s') == Inside(s) && h'.owed == h.owed
    ensures OwedInside(s', h')
  {
    forall k ensures Owed(h', k) <= Inside(s') { assert Owed(h, k) <= Inside(s); }
  }

  /** A grace period ends: nobody is awaited, so no waiting callback is owed anybody. */
  lemma CompleteFrees(s: State, h: Hist, cb: Cb)
    requires Held(s, h, cb) && NoneOwes(s) && s.blkd == []
    ensures Free(h, cb)
  {
    forall t: Tid ensures t !in Owed(h, cb) { NotAwaited(s, t); }
    assert Owed(h, cb) == {};
  }

  lemma NotAwaited(s: State, t: Tid)
    requires NoneOwes(s) && s.blkd == []
    ensures !Awaited(s, t)
  {
  }

  lemma CompleteInv(s: State, h: Hist, c: nat)
    requires Inv(s, h)
    ensures Enabled(s, Complete(c)) ==> Inv(Apply(s, Complete(c)), h)
  {
    if Active(s) && NoneOwes(s) && s.blkd == [] {
      hide Awaited, Apart, Placed, Free, OwedInside, Held;
      var s' := CompleteFn(s);
      ThreadsKept(s, s');
      SameOwed(s, h, s', h);
      forall d: nat | d < |s.cpus| ensures QueuesOk(s', h, d) && OrderOk(s', h, d) {
        assert QueuesOk(s, h, d) && OrderOk(s, h, d);
        assert s'.cpus[d] == Finish(s.cpus[d]);
        forall i | 0 <= i < |s.cpus[d].wait|
          ensures Free(h, s.cpus[d].wait[i])
        {
          CompleteFrees(s, h, s.cpus[d].wait[i]);
        }
      }
    }
  }

  /** Handing the finished callbacks of one CPU over, or running the first of the batch. */
  lemma DrainInv(s: State, h: Hist, p: Step)
    requires Inv(s, h) && Enabled(s, p) && (p.Take? || p.RunOne?)
    ensures Inv(Apply(s, p), Record(s, h, p))
  {
    hide Apart, Placed, OwedInside, QueuesOk, OrderOk, Shrunk;
    var s', h', c := Apply(s, p), Record(s, h, p), p.c;
    ThreadsKept(s, s');
    SameOwed(s, h, s', h');
    DrainShrunk(s, h, s', h');
    forall d: nat | d < |s.cpus| ensures QueuesOk(s', h', d) && OrderOk(s', h', d) {
      assert QueuesOk(s, h, d) && OrderOk(s, h, d);
      OwesQs(s, h, d);
      if d != c {
        QueuesFrame(s, h, s', h', d);
        OrderFrame(s, h, s', h', d);
      } else if p.Take? { TakeHere(s, h, c); } else { RunHere(s, h, c); }
    }
  }

  lemma OrderFrame(s: State, h: Hist, s': State, h': Hist, c: nat)
    requires OrderOk(s, h, c) && SameQueues(s, h, s', h', c) && Active(s') == Active(s)
    ensures OrderOk(s', h', c)
  {
  }

  lemma DrainShrunk(s: State, h: Hist, s': State, h': Hist)
    requires h'.owed == h.owed && SameThreads(s, s') && Apart(s) && Placed(s)
    requires forall c {:trigger s'.cpus[c]} :: 0 <= c < |s.cpus| ==> (s.cpus[c].owes ==> s'.cpus[c].owes)
    ensures Shrunk(s, h, s', h')
  {
    hide Awaited;
    ThreadsKept(s, s');
    forall k ensures Owed(h', k) == Owed(h, k) { FreeSame(h, h', k); }
  }

  lemma TakeHere(s: State, h: Hist, c: nat)
    requires QueuesOk(s, h, c) && OrderOk(s, h, c) && Enabled(s, Take(c)) && Apart(s) && Placed(s)
    ensures QueuesOk(Apply(s, Take(c)), h, c) && OrderOk(Apply(s, Take(c)), h, c)
  {
    hide Apart, Placed, Awaited, Free;
    var s' := Apply(s, Take(c));
    ThreadsKept(s, s');
  }

  lemma RunHere(s: State, h: Hist, c: nat)
    requires QueuesOk(s, h, c) && OrderOk(s, h, c) && Enabled(s, RunOne(c)) && Apart(s) && Placed(s)
    ensures QueuesOk(Apply(s, RunOne(c)), Record(s, h, RunOne(c)), c)
    ensures OrderOk(Apply(s, RunOne(c)), Record(s, h, RunOne(c)), c)
  {
    hide Apart, Placed, Awaited, Free;
    var s', h' := Apply(s, RunOne(c)), Record(s, h, RunOne(c));
    ThreadsKept(s, s');
    forall k ensures Owed(h', k) == Owed(h, k) && (Free(h, k) ==> Free(h', k)) { FreeSame(h, h', k); }
    var x := s.cpus[c];
    assert h.ran[c] + x.batch == h'.ran[c] + x.batch[1..];
  }

  lemma FreeSame(h: Hist, h': Hist, k: Cb)
    requires h'.owed == h.owed
    ensures Owed(h', k) == Owed(h, k) && (Free(h, k) ==> Free(h', k))
  {
  }

  /** Every step keeps the invariant. */
  lemma StepInv(s: State, h: Hist, p: Step)
    requires Inv(s, h) && Enabled(s, p) && Fresh(h, p)
    ensures Inv(Apply(s, p), Record(s, h, p))
  {
    hide Inv, Enabled, Apply;
    InvSizes(s, h);
    match p
    case Lock(c) => LockInv(s, h, c);
    case Dec(c) => DecInv(s, h, c);
    case Special(c) => SpecialInv(s, h, c);
    case Note(c) => NoteInv(s, h, c);
    case Switch(c, to) => SwitchInv(s, h, c, to);
    case Call(c, cb) => CallInv(s, h, c, cb);
    case Sync(_) => WaitersInv(s, h, p);
    case Start => StartInv(s, h);
    case Complete(c) => CompleteInv(s, h, c);
    case Take(c) => DrainInv(s, h, p);
    case RunOne(c) => DrainInv(s, h, p);
    case Wake => WaitersInv(s, h, p);
  }

  lemma InvSizes(s: State, h: Hist)
    requires Inv(s, h)
    ensures |h.called| == |h.ran| == |s.cpus|
  {
  }

  // ---------------------------------------------------------------- whole runs

  predicate Idle(x: Cpu) { !x.owes && x.next == [] && x.wait == [] && x.done == [] && x.batch == [] && x.count == 0 }

  ghost predicate Init(s: State) {
    s.gp == 0 && s.blkd == [] && s.nest == map[] && Apart(s) && forall c {:trigger s.cpus[c]} :: 0 <= c < |s.cpus| ==>
      Idle(s.cpus[c])
  }

  /** A run: enabled steps from the initial state, each callback head passed to call_rcu once. */
  ghost predicate IsRun(ss: seq<State>, ps: seq<Step>) {
    && |ss| == |ps| + 1 && Init(ss[0])
    && (forall k {:trigger ps[k]} :: 0 <= k < |ps| ==> Enabled(ss[k], ps[k]) && ss[k + 1] == Apply(ss[k], ps[k]))
    && forall i, j {:trigger ps[i], ps[j]} :: 0 <= i < j < |ps| && ps[i].Call? && ps[j].Call? ==> ps[i].cb != ps[j].cb
  }

  ghost function Blank(n: nat): Hist { Hist(seq(n, _ => []), seq(n, _ => []), map[]) }

  /** The history after the first `k` steps. */
  ghost function HistAt(ss: seq<State>, ps: seq<Step>, k: nat): (h: Hist)
    requires IsRun(ss, ps) && k <= |ps|
    ensures |h.called| == |h.ran| == |ss[k].cpus|
  {
    if k == 0 then Blank(|ss[0].cpus|)
      else (assert ps[k - 1] == ps[k - 1]; Record(ss[k - 1], HistAt(ss, ps, k - 1), ps[k - 1]))
  }

  lemma InitInv(s: State)
    requires Init(s)
    ensures Inv(s, Blank(|s.cpus|))
  {
    var h := Blank(|s.cpus|);
    forall c: nat | c < |s.cpus| ensures QueuesOk(s, h, c) && OrderOk(s, h, c) { assert Idle(s.cpus[c]); }
  }

  /** A callback is known exactly if it was called. */
  lemma {:induction false} Known(ss: seq<State>, ps: seq<Step>, k: nat, cb: Cb)
    requires IsRun(ss, ps) && k <= |ps|
    ensures cb in HistAt(ss, ps, k).owed ==> exists i :: 0 <= i < k && ps[i].Call? && ps[i].cb == cb
  {
    if k > 0 {
      Known(ss, ps, k - 1, cb);
      var p := ps[k - 1];
    }
  }

  /** The invariant holds in every reachable state. */
  lemma {:induction false} RunInv(ss: seq<State>, ps: seq<Step>, k: nat)
    requires IsRun(ss, ps) && k <= |ps|
    ensures Inv(ss[k], HistAt(ss, ps, k))
  {
    hide Inv, Enabled, Apply, Init;
    if k == 0 {
      InitInv(ss[0]);
    } else {
      RunInv(ss, ps, k - 1);
      var p, h := ps[k - 1], HistAt(ss, ps, k - 1);
      if p.Call? && p.cb in h.owed { Known(ss, ps, k - 1, p.cb); }
      StepInv(ss[k - 1], h, p);
    }
  }

  /** As long as a reader has not left, a callback called while it was inside is owed it. */
  lemma {:induction false} StillOwed(ss: seq<State>, ps: seq<Step>, i: nat, j: nat, t: Tid)
    requires IsRun(ss, ps) && i < j <= |ps| && ps[i].Call? && Nest(ss[i], t) > 0
    requires forall k {:trigger ss[k]} :: i < k <= j ==> Nest(ss[k], t) > 0
    ensures t in Owed(HistAt(ss, ps, j), ps[i].cb)
    decreases j
  {
    hide Enabled, Apply, Init;
    var p := ps[j - 1];
    if j == i + 1 {
      RecordCall(ss, ps, i, t);
    } else {
      StillOwed(ss, ps, i, j - 1, t);
      KeepsOwed(ss, ps, i, j, t);
    }
  }

  lemma RecordCall(ss: seq<State>, ps: seq<Step>, i: nat, t: Tid)
    requires IsRun(ss, ps) && i < |ps| && ps[i].Call? && Nest(ss[i], t) > 0
    ensures t in Owed(HistAt(ss, ps, i + 1), ps[i].cb)
  {
    hide Apply, Init;
  }

  lemma KeepsOwed(ss: seq<State>, ps: seq<Step>, i: nat, j: nat, t: Tid)
    requires IsRun(ss, ps) && i + 1 < j <= |ps| && ps[i].Call? && Nest(ss[j], t) > 0
    requires t in Owed(HistAt(ss, ps, j - 1), ps[i].cb)
    ensures t in Owed(HistAt(ss, ps, j), ps[i].cb)
  {
    hide Init;
    var p := ps[j - 1];
    if p.Call? { assert ps[i].cb != ps[j - 1].cb; }
  }

  /** call_rcu: a callback runs only after every thread that was inside a read-side section when it was called has left
      its outermost section, on any number of CPUs, whatever was preempted or migrated in between. */
  lemma CallRcuWaits(ss: seq<State>, ps: seq<Step>, i: nat, j: nat, t: Tid)
    requires IsRun(ss, ps) && i < |ps| && j < |ps| && ps[i].Call? && ps[j].RunOne?
    requires ss[j].cpus[ps[j].c].batch[0] == ps[i].cb && Nest(ss[i], t) > 0
    ensures exists k :: i < k <= j && Nest(ss[k], t) == 0
  {
    hide Init, Apply;
    RunInv(ss, ps, j);
    var h, c := HistAt(ss, ps, j), ps[j].c;
    assert Enabled(ss[j], ps[j]) && QueuesOk(ss[j], h, c);
    assert Free(h, ss[j].cpus[c].batch[0]);
    Known(ss, ps, j, ps[i].cb);
    if forall k {:trigger ss[k]} :: i < k <= j ==> Nest(ss[k], t) > 0 {
      StillOwed(ss, ps, i, j, t);
    }
  }

  /** The callbacks passed to call_rcu on CPU `c`, in order. */
  function Calls(ps: seq<Step>, c: nat): seq<Cb> {
    if ps == [] then []
    else
      var p := ps[|ps| - 1];
      Calls(ps[..|ps| - 1], c) + if p.Call? && p.c == c then [p.cb] else []
  }

  /** The callbacks run from the queue of CPU `c` in the first `k` steps, in order. */
  ghost function Runs(ss: seq<State>, ps: seq<Step>, k: nat, c: nat): seq<Cb>
    requires IsRun(ss, ps) && k <= |ps|
  {
    if k == 0 then []
    else
      var p := ps[k - 1];
      Runs(ss, ps, k - 1, c) + if p.RunOne? && p.c == c then [ss[k - 1].cpus[c].batch[0]] else []
  }

  lemma {:induction false} HistLists(ss: seq<State>, ps: seq<Step>, k: nat, c: nat)
    requires IsRun(ss, ps) && k <= |ps| && c < |ss[k].cpus|
    ensures HistAt(ss, ps, k).called[c] == Calls(ps[..k], c) && HistAt(ss, ps, k).ran[c] == Runs(ss, ps, k, c)
  {
    if k > 0 {
      hide Init, Apply, Record;
      SameSize(ss, ps, k - 1);
      HistLists(ss, ps, k - 1, c);
      var p := ps[k - 1];
      RecordLists(ss[k - 1], HistAt(ss, ps, k - 1), p, c);
      assert ps[..k][..k - 1] == ps[..k - 1] && ps[..k][k - 1] == ps[k - 1];
    }
  }

  lemma RecordLists(s: State, h: Hist, p: Step, c: nat)
    requires Enabled(s, p) && |h.called| == |h.ran| == |s.cpus| && c < |s.cpus|
    ensures var h' := Record(s, h, p);
      && |h'.called| == |h'.ran| == |s.cpus|
      && h'.called[c] == h.called[c] + (if p.Call? && p.c == c then [p.cb] else [])
      && h'.ran[c] == h.ran[c] + (if p.RunOne? && p.c == c then [s.cpus[c].batch[0]] else [])
  {
  }

  lemma SameSize(ss: seq<State>, ps: seq<Step>, k: nat)
    requires IsRun(ss, ps) && k < |ps|
    ensures |ss[k + 1].cpus| == |ss[k].cpus|
  {
    hide Init;
    assert Enabled(ss[k], ps[k]);
  }

  /** Every callback moves next, wait, done, batch and runs exactly once, in per-CPU call order; cb_count is the number
      still outstanding. */
  lemma CallbackOrder(ss: seq<State>, ps: seq<Step>, k: nat, c: nat)
    requires IsRun(ss, ps) && k <= |ps| && c < |ss[k].cpus|
    ensures var x := ss[k].cpus[c];
      && Calls(ps[..k], c) == Runs(ss, ps, k, c) + x.batch + x.done + x.wait + x.next
      && x.count == |x.batch| + |x.done| + |x.wait| + |x.next|
      && x.count == |Calls(ps[..k], c)| - |Runs(ss, ps, k, c)|
  {
    hide Init, Calls, Runs;
    RunInv(ss, ps, k);
    HistLists(ss, ps, k, c);
    assert OrderOk(ss[k], HistAt(ss, ps, k), c);
  }

  // ---------------------------------------------------------------- the kernel functions as sequences of steps

  /** `ps` leads from s to s', every step enabled. */
  ghost predicate Goes(s: State, ps: seq<Step>, s': State)
    decreases |ps|
  {
    if ps == [] then s' == s else Enabled(s, ps[0]) && Goes(Apply(s, ps[0]), ps[1..], s')
  }

  lemma {:induction false} GoesMore(s: State, ps: seq<Step>, s1: State, qs: seq<Step>, s2: State)
    requires Goes(s, ps, s1) && Goes(s1, qs, s2)
    ensures Goes(s, ps + qs, s2)
    decreases |ps|
  {
    if ps == [] {
      assert ps + qs == qs;
    } else {
      hide Enabled, Apply;
      assert (ps + qs)[1..] == ps[1..] + qs;
      GoesMore(Apply(s, ps[0]), ps[1..], s1, qs, s2);
    }
  }

  lemma GoesOne(s: State, p: Step)
    requires Enabled(s, p)
    ensures Goes(s, [p], Apply(s, p))
  {
    hide Enabled, Apply;
    assert [p][1..] == [];
    assert Goes(Apply(s, p), [], Apply(s, p));
  }

  predicate CanComplete(s: State) { Active(s) && NoneOwes(s) && s.blkd == [] }
  predicate Queued(s: State) { exists c :: 0 <= c < |s.cpus| && s.cpus[c].next != [] }
  function IfIdle(s: State): seq<Step> { if Active(s) then [] else [Start] }

  /** The steps of `rcu_gp_complete`, `rcu_read_unlock` and `rcu_note_context_switch`. */
  function CompleteSteps(s: State, c: nat): seq<Step> {
    if CanComplete(s) && Queued(s) then [Complete(c), Start] else [Complete(c)]
  }

  function UnlockSteps(s: State, c: nat): seq<Step>
    requires Enabled(s, Dec(c))
  {
    var s1 := Apply(s, Dec(c));
    if !Enabled(s1, Special(c)) then [Dec(c)]
    else
      var s2 := Apply(s1, Special(c));
      if CanComplete(s2) then [Dec(c), Special(c)] + CompleteSteps(s2, c) else [Dec(c), Special(c)]
  }

  function NoteSteps(s: State, c: nat): seq<Step>
    requires Enabled(s, Note(c))
  {
    var s1 := Apply(s, Note(c));
    if s.cpus[c].owes && !s1.cpus[c].owes && NoneOwes(s1) && s1.blkd == [] then [Note(c)] + CompleteSteps(s1, c)
      else [Note(c)]
  }

  // ---------------------------------------------------------------- nothing gets stuck

  /** Whatever is finished is flagged for the next tick. */
  ghost predicate Flagged(s: State, deferred: bool) {
    && (s.ready != [] ==> deferred)
    && forall c {:trigger s.cpus[c]} :: 0 <= c < |s.cpus| ==> s.cpus[c].done != [] ==> deferred
  }

  /** While no grace period is active nobody waits for one. */
  ghost predicate Unwanted(s: State) {
    s.head == [] && forall c {:trigger s.cpus[c]} :: 0 <= c < |s.cpus| ==>
      s.cpus[c].next == [] && s.cpus[c].wait == [] && !s.cpus[c].owes
  }

  /** A CPU that owes a quiescent state will report it. */
  ghost predicate WillReport(s: State) {
    forall c {:trigger s.cpus[c]} :: 0 <= c < |s.cpus| ==> s.cpus[c].owes ==> s.cpus[c].qs
  }

  /** Whoever is on the blocked list is inside a section, and is there once. */
  ghost predicate BlockedInside(s: State) {
    && NoDup(s.blkd) && forall i {:trigger s.blkd[i]} :: 0 <= i < |s.blkd| ==> Nest(s, s.blkd[i]) > 0
  }

  /** What holds between calls: a grace period is active whenever one is wanted, an active one has a CPU or a reader to
      wait for, finished work is flagged, and nobody stays on the blocked list after leaving. */
  ghost predicate Healthy(s: State, deferred: bool) {
    && |s.cpus| > 0 && Flagged(s, deferred) && WillReport(s) && BlockedInside(s)
    && (if Active(s) then !CanComplete(s) else Unwanted(s))
  }

  lemma StartHealthy(s: State, deferred: bool)
    requires |s.cpus| > 0 && Flagged(s, deferred) && BlockedInside(s) && (Active(s) ==> Healthy(s, deferred))
    ensures Active(Apply(s, Start)) && Healthy(Apply(s, Start), deferred)
  {
    var s' := Apply(s, Start);
    if !Active(s) { assert s'.cpus[0].owes; }
  }

  /** The end of a grace period, with the chained start. */
  lemma CompleteHealthy(s: State, c: nat)
    requires |s.cpus| > 0 && WillReport(s) && CanComplete(s) && Enabled(s, Complete(c))
    ensures var s1 := Apply(s, Complete(c));
      Flagged(s1, true) && !Active(s1) && Healthy(if Queued(s) then Apply(s1, Start) else s1, true)
  {
    var s1 := Apply(s, Complete(c));
    QueuedSame(s, s1);
    if Queued(s) { StartHealthy(s1, true); }
  }

  lemma OwesSame(s: State, s': State)
    requires |s'.cpus| == |s.cpus|
    requires forall c {:trigger s'.cpus[c]} :: 0 <= c < |s.cpus| ==> s'.cpus[c].owes == s.cpus[c].owes
    ensures NoneOwes(s') <==> NoneOwes(s)
  {
    if NoneOwes(s') { forall c | 0 <= c < |s.cpus| ensures !s.cpus[c].owes { assert !s'.cpus[c].owes; } }
  }

  /** Queueing a callback while a grace period is active. */
  lemma CalledHealthy(s: State, c: nat, cb: Cb, deferred: bool)
    requires Healthy(s, deferred) && Enabled(s, Call(c, cb))
    ensures var s' := Apply(s, Call(c, cb));
      Flagged(s', deferred) && BlockedInside(s') && (Active(s') ==> Healthy(s', deferred))
  {
    OwesSame(s, Apply(s, Call(c, cb)));
  }

  /** A CPU has reported. */
  lemma ReportedHealthy(s: State, c: nat, s': State, deferred: bool)
    requires Healthy(s, deferred) && c < |s.cpus| && s' == WithCpu(s, c, s.cpus[c].(qs := false, owes := false))
    ensures WillReport(s') && |s'.cpus| > 0 && (!CanComplete(s') ==> Healthy(s', deferred))
    ensures if s.cpus[c].owes then Active(s') else Healthy(s', deferred)
  {
    if !s.cpus[c].owes { OwesSame(s, s'); }
  }

  /** A reader has left a section, and the blocked list if it was the outermost one. */
  lemma LeftHealthy(s: State, t: Tid, s': State, deferred: bool)
    requires Healthy(s, deferred) && Nest(s, t) > 0 && s' == s.(nest := s.nest[t := Nest(s, t) - 1], blkd := s'.blkd)
    requires s'.blkd == if Nest(s, t) == 1 && t in s.blkd then Drop(s.blkd, t) else s.blkd
    ensures WillReport(s') && BlockedInside(s') && (!CanComplete(s') ==> Healthy(s', deferred))
    ensures t !in s.blkd || Nest(s, t) > 1 ==> Healthy(s', deferred)
  {
    DropMember(s.blkd, t, t);
    forall i | 0 <= i < |s'.blkd| ensures Nest(s', s'.blkd[i]) > 0 {
      var u := s'.blkd[i];
      DropMember(s.blkd, t, u);
      assert u in s.blkd;
      assert Nest(s, u) > 0;
    }
  }

  class RcuState {
    var gp: nat
    var blkd: seq<Tid>
    var cpus: seq<Cpu>
    var nest: map<Tid, nat>
    var head: seq<Tid>
    var ready: seq<Tid>
    var deferred: bool

    ghost function View(): State
      reads this
    {
      State(gp, blkd, cpus, nest, head, ready)
    }

    ghost predicate Valid()
      reads this
    {
      Healthy(View(), deferred)
    }

    /** `rcu_init`, with the threads that run on the CPUs. */
    constructor (current: seq<int>)
      requires |current| > 0 && forall c, d :: 0 <= c < d < |current| && current[c] >= 0 ==> current[c] != current[d]
      ensures Valid() && Init(View()) && !deferred && |cpus| == |current|
      ensures forall c {:trigger cpus[c]} :: 0 <= c < |cpus| ==>
        cpus[c] == Cpu(current[c], false, false, [], [], [], [], 0)
    {
      gp, blkd, nest, head, ready, deferred := 0, [], map[], [], [], false;
      cpus := seq(|current|, c requires 0 <= c < |current| => Cpu(current[c], false, false, [], [], [], [], 0));
    }

    /** `rcu_gp_start`: nothing if one is active, else all CPUs owe a quiescent state and queued callbacks wait for
        it. */
    method GpStart()
      modifies this`gp, this`cpus
      ensures View() == Apply(old(View()), Start)
    {
      if gp % 2 == 1 { return; }
      gp := gp + 1;
      var n := |cpus|;
      for i := 0 to n
        invariant |cpus| == n == |old(cpus)| && gp == old(gp) + 1
        invariant forall c {:trigger cpus[c]} :: 0 <= c < n ==>
          cpus[c] == if c < i then Promote(old(cpus)[c]) else old(cpus)[c]
      {
        var x := cpus[i];
        x := x.(owes := true, qs := true);
        if x.next != [] { x := x.(wait := x.wait + x.next, next := []); }
        assert x == Promote(cpus[i]);
        cpus := cpus[i := x];
      }
      assert cpus == StartFn(old(View())).cpus;
    }

    /** `rcu_gp_complete` up to the chained start: nothing unless every CPU reported and no reader is blocked. */
    method GpFinish(c: nat) returns (done: bool)
      requires Enabled(View(), Complete(c))
      modifies this`gp, this`cpus, this`head, this`ready, this`deferred
      ensures View() == Apply(old(View()), Complete(c)) && deferred == (done || old(deferred))
      ensures done == (Active(old(View())) && NoneOwes(old(View())) && blkd == [])
    {
      if gp % 2 == 0 { return false; }
      if (exists d :: 0 <= d < |cpus| && cpus[d].owes) || blkd != [] { return false; }
      gp := gp + 1;
      var n := |cpus|;
      for i := 0 to n
        invariant |cpus| == n == |old(cpus)| && gp == old(gp) + 1 && head == old(head) && ready == old(ready)
        invariant forall d {:trigger cpus[d]} :: 0 <= d < n ==>
          cpus[d] == if d < i then Finish(old(cpus)[d]) else old(cpus)[d]
      {
        var x := cpus[i];
        if x.wait != [] { x := x.(done := x.done + x.wait, wait := []); }
        assert x == Finish(cpus[i]);
        cpus := cpus[i := x];
      }
      ready, head := head + ready, [];
      deferred := true;
      assert cpus == CompleteFn(old(View())).cpus;
      return true;
    }

    /** `rcu_gp_complete`: end the grace period if it can, and start the next one if callbacks were queued meanwhile. */
    method GpComplete(c: nat) returns (ghost ps: seq<Step>)
      requires Enabled(View(), Complete(c)) && |cpus| > 0 && WillReport(View())
      modifies this
      ensures Goes(old(View()), ps, View()) && ps == CompleteSteps(old(View()), c)
      ensures nest == old(nest) && blkd == old(blkd) && |cpus| == |old(cpus)|
      ensures old(CanComplete(View())) ==> Valid() && deferred && gp > old(gp)
      ensures !old(CanComplete(View())) ==> View() == old(View()) && deferred == old(deferred)
    {
      hide Enabled, Goes;
      GoesOne(View(), Complete(c));
      if CanComplete(View()) { CompleteHealthy(View(), c); }
      ghost var s0 := View();
      var done := GpFinish(c);
      ps := [Complete(c)];
      QueuedSame(s0, View());
      assert Queued(View()) <==> exists d :: 0 <= d < |cpus| && cpus[d].next != [];
      if done && exists d :: 0 <= d < |cpus| && cpus[d].next != [] {
        ghost var s1 := View();
        AlwaysStart(s1);
        GoesOne(s1, Start);
        GpStart();
        GoesMore(s0, ps, s1, [Start], View());
        ps := ps + [Start];
      }
    }

    /** `rcu_read_lock` */
    method ReadLock(c: nat)
      requires Valid() && Enabled(View(), Lock(c))
      modifies this`nest
      ensures Valid() && View() == Apply(old(View()), Lock(c))
      ensures nest == old(nest)[cpus[c].cur := Nest(old(View()), cpus[c].cur) + 1]
    {
      var t := cpus[c].cur;
      nest := nest[t := (if t in nest then nest[t] else 0) + 1];
    }

    /** `rcu_read_unlock`: leaving the outermost section takes a blocked reader off the list and may end the grace
        period. */
    method ReadUnlock(c: nat) returns (ghost ps: seq<Step>)
      requires Valid() && Enabled(View(), Dec(c))
      modifies this
      ensures Valid() && Goes(old(View()), ps, View()) && ps == UnlockSteps(old(View()), c)
      ensures nest == old(nest)[old(cpus)[c].cur := Nest(old(View()), old(cpus)[c].cur) - 1]
    {
      hide Apply, Goes, Healthy;
      ghost var s0 := View();
      GoesOne(s0, Dec(c));
      var t: Tid := cpus[c].cur;
      nest := nest[t := nest[t] - 1];
      ps := [Dec(c)];
      ghost var s1 := View();
      DecIs(s0, s1, c);
      if nest[t] == 0 && t in blkd {
        GoesOne(s1, Special(c));
        SpecialIs(s1, c);
        blkd := Drop(blkd, t);
        GoesMore(s0, ps, s1, [Special(c)], View());
        ps := ps + [Special(c)];
        ghost var s2 := View();
        LeftHealthy(s0, t, s2, deferred);
        if gp % 2 == 1 && !(exists d :: 0 <= d < |cpus| && cpus[d].owes) && blkd == [] {
          ghost var qs := GpComplete(c);
          GoesMore(s0, ps, s2, qs, View());
          ps := ps + qs;
        }
      } else {
        LeftHealthy(s0, t, s1, deferred);
      }
    }

    /** `rcu_note_context_switch`: a reader goes on the blocked list, anybody else is a quiescent state of its CPU. */
    method NoteContextSwitch(c: nat) returns (ghost ps: seq<Step>)
      requires Valid() && Enabled(View(), Note(c))
      modifies this
      ensures Valid() && Goes(old(View()), ps, View()) && ps == NoteSteps(old(View()), c) && nest == old(nest)
      ensures |cpus| == |old(cpus)|
      ensures var t := old(cpus)[c].cur;
        && (t >= 0 && Nest(View(), t) > 0 ==> t in blkd && cpus == old(cpus))
        && (t >= 0 && Nest(View(), t) == 0 ==> !cpus[c].owes || gp > old(gp))
    {
      hide Goes;
      ghost var s0 := View();
      GoesOne(s0, Note(c));
      ps := [Note(c)];
      var x := cpus[c];
      if x.cur < 0 { return; }
      var t: Tid := x.cur;
      if t in nest && nest[t] > 0 {
        if t !in blkd { blkd := blkd + [t]; }
        return;
      }
      if !x.qs { return; }
      var owed := x.owes;
      cpus := cpus[c := x.(qs := false, owes := false)];
      ghost var s1 := View();
      ReportedHealthy(s0, c, s1, deferred);
      if owed && !(exists d :: 0 <= d < |cpus| && cpus[d].owes) && blkd == [] {
        ghost var qs := GpComplete(c);
        GoesMore(s0, ps, s1, qs, View());
        ps := ps + qs;
      }
    }

    /** Start a grace period if none is active, after the steps `before`. */
    method StartIfIdle(ghost before: seq<Step>, ghost s0: State) returns (ghost ps: seq<Step>)
      requires Goes(s0, before, View()) && |cpus| > 0 && Flagged(View(), deferred) && BlockedInside(View())
      requires Active(View()) ==> Valid()
      modifies this
      ensures Valid() && Active(View()) && Goes(s0, ps, View()) && ps == before + IfIdle(old(View()))
      ensures View() == Apply(old(View()), Start)
    {
      hide Goes, Enabled, Healthy, Flagged, StartFn, BlockedInside;
      ps := before;
      StartHealthy(View(), deferred);
      if gp % 2 == 0 {
        ghost var s1 := View();
        AlwaysStart(s1);
        GoesOne(s1, Start);
        GpStart();
        GoesMore(s0, before, s1, [Start], View());
        ps := before + [Start];
      }
    }

    /** `call_rcu` */
    method CallRcu(c: nat, cb: Cb) returns (ghost ps: seq<Step>)
      requires Valid() && Enabled(View(), Call(c, cb))
      modifies this
      ensures Valid() && Goes(old(View()), ps, View()) && ps == [Call(c, cb)] + IfIdle(old(View()))
      ensures Active(View()) && |cpus| == |old(cpus)| && Outstanding(cpus[c]) == Outstanding(old(cpus)[c]) + [cb]
      ensures cpus[c].count == old(cpus)[c].count + 1
    {
      hide Goes;
      ghost var s0 := View();
      GoesOne(s0, Call(c, cb));
      CalledHealthy(s0, c, cb, deferred);
      cpus := cpus[c := cpus[c].(next := cpus[c].next + [cb], count := cpus[c].count + 1)];
      ps := StartIfIdle([Call(c, cb)], s0);
    }

    /** `rcu_check_callbacks`: a safety net that between calls never has anything to do. */
    method CheckCallbacks(c: nat) returns (ghost ps: seq<Step>)
      requires c < |cpus|
      modifies this
      ensures Goes(old(View()), ps, View())
      ensures ps == if old(cpus)[c].next != [] || old(cpus)[c].wait != [] then IfIdle(old(View())) else []
      ensures old(Valid()) ==> Valid() && View() == old(View())
    {
      hide Goes;
      ps := [];
      GoesNone(View());
      if (cpus[c].next != [] || cpus[c].wait != []) && gp % 2 == 0 {
        GoesOne(View(), Start);
        GpStart();
        ps := [Start];
      }
    }

    /** `synchronize_rcu` up to going to sleep. */
    method Synchronize(c: nat) returns (ghost ps: seq<Step>)
      requires Valid() && Enabled(View(), Sync(c))
      modifies this
      ensures Valid() && Goes(old(View()), ps, View()) && ps == [Sync(c)] + IfIdle(old(View()))
      ensures Active(View()) && head == [old(cpus)[c].cur] + old(head)
    {
      hide Goes;
      ghost var s0 := View();
      GoesOne(s0, Sync(c));
      head := [cpus[c].cur] + head;
      ps := StartIfIdle([Sync(c)], s0);
    }

    /** `rcu_drain_done`: run the finished callbacks of one CPU in order. */
    method DrainDone(c: nat) returns (ran: seq<Cb>, ghost ps: seq<Step>)
      requires Enabled(View(), Take(c))
      modifies this`cpus
      ensures Goes(old(View()), ps, View()) && ran == old(cpus)[c].done && |cpus| == |old(cpus)|
      ensures cpus == old(cpus)[c := old(cpus)[c].(done := [], count := old(cpus)[c].count - |ran|)]
    {
      hide Goes;
      ghost var s0 := View();
      GoesOne(s0, Take(c));
      cpus := cpus[c := cpus[c].(batch := cpus[c].done, done := [])];
      ran, ps := [], [Take(c)];
      while cpus[c].batch != []
        invariant |cpus| == |old(cpus)| && Goes(s0, ps, View()) && ran + cpus[c].batch == old(cpus)[c].done
        invariant cpus == old(cpus)[c :=
          old(cpus)[c].(done := [], batch := cpus[c].batch, count := old(cpus)[c].count - |ran|)]
        decreases |cpus[c].batch|
      {
        ghost var s1 := View();
        GoesOne(s1, RunOne(c));
        ran := ran + [cpus[c].batch[0]];
        cpus := cpus[c := cpus[c].(batch := cpus[c].batch[1..], count := cpus[c].count - 1)];
        GoesMore(s0, ps, s1, [RunOne(c)], View());
        ps := ps + [RunOne(c)];
      }
    }

    /** The loop of `rcu_tick_deferred` over the CPUs. */
    method DrainAll() returns (ran: seq<Cb>, ghost ps: seq<Step>)
      requires forall c :: 0 <= c < |cpus| ==> cpus[c].batch == []
      modifies this`cpus
      ensures Goes(old(View()), ps, View()) && ran == Finished(old(cpus)) && |cpus| == |old(cpus)|
      ensures forall c {:trigger cpus[c]} :: 0 <= c < |cpus| ==> cpus[c] == Drained(old(cpus)[c])
    {
      hide Goes, Finished;
      ghost var s0 := View();
      GoesNone(s0);
      ran, ps := [], [];
      assert Finished(cpus[..0]) == [] by { NoneFinished(cpus[..0]); }
      for i := 0 to |cpus|
        invariant |cpus| == |old(cpus)| && Goes(s0, ps, View()) && ran == Finished(old(cpus)[..i])
        invariant forall c {:trigger cpus[c]} :: 0 <= c < |cpus| ==>
          cpus[c] == if c < i then Drained(old(cpus)[c]) else old(cpus)[c]
      {
        FinishedMore(old(cpus), i);
        if cpus[i].done != [] {
          ghost var s1 := View();
          var more, qs := DrainDone(i);
          ran := ran + more;
          GoesMore(s0, ps, s1, qs, View());
          ps := ps + qs;
        }
      }
      assert old(cpus)[..|cpus|] == old(cpus);
    }

    /** `rcu_tick_deferred`: run what finished on every CPU, then wake the waiters that are ready. */
    method TickDeferred() returns (ran: seq<Cb>, woken: seq<Tid>, ghost ps: seq<Step>)
      requires Valid() && forall c :: 0 <= c < |cpus| ==> cpus[c].batch == []
      modifies this
      ensures Valid() && !deferred && Goes(old(View()), ps, View())
      ensures ran == Finished(old(cpus)) && woken == old(ready)
      ensures View() == old(View()).(cpus := cpus, ready := []) && |cpus| == |old(cpus)|
      ensures forall c {:trigger cpus[c]} :: 0 <= c < |cpus| ==> cpus[c] == Drained(old(cpus)[c])
    {
      hide Goes, Finished;
      ghost var s0 := View();
      ran, woken, ps := [], [], [];
      if !deferred {
        GoesNone(s0);
        NoneFinished(cpus);
        return;
      }
      deferred := false;
      ran, ps := DrainAll();
      ghost var s1 := View();
      GoesOne(s1, Wake);
      woken, ready := ready, [];
      GoesMore(s0, ps, s1, [Wake], View());
      ps := ps + [Wake];
      TickedHealthy(s0, View());
    }
  }

  /** A CPU whose finished callbacks have run. */
  /** The callbacks of a CPU that have not been handed over to run. */
  function Outstanding(x: Cpu): seq<Cb> { x.done + x.wait + x.next }

  function Drained(x: Cpu): Cpu { x.(done := [], count := x.count - |x.done|) }

  /** The finished callbacks of all CPUs, CPU by CPU. */
  function Finished(cpus: seq<Cpu>): seq<Cb> {
    if cpus == [] then [] else Finished(cpus[..|cpus| - 1]) + cpus[|cpus| - 1].done
  }

  lemma FinishedMore(cpus: seq<Cpu>, i: nat)
    requires i < |cpus|
    ensures Finished(cpus[..i + 1]) == Finished(cpus[..i]) + cpus[i].done
  {
    assert cpus[..i + 1][..i] == cpus[..i];
  }

  lemma {:induction false} NoneFinished(cpus: seq<Cpu>)
    requires forall c {:trigger cpus[c]} :: 0 <= c < |cpus| ==> cpus[c].done == []
    ensures Finished(cpus) == []
  {
    if cpus != [] { NoneFinished(cpus[..|cpus| - 1]); }
  }

  lemma TickedHealthy(s: State, s': State)
    requires Healthy(s, true) && |s'.cpus| == |s.cpus| && s' == s.(cpus := s'.cpus, ready := [])
    requires forall c {:trigger s'.cpus[c]} :: 0 <= c < |s.cpus| ==>
      s'.cpus[c] == Drained(s.cpus[c])
    ensures Healthy(s', false)
  {
    OwesSame(s, s');
  }

  lemma QueuedSame(s: State, s': State)
    requires |s'.cpus| == |s.cpus|
    requires forall c {:trigger s'.cpus[c]} :: 0 <= c < |s.cpus| ==> s'.cpus[c].next == s.cpus[c].next
    ensures Queued(s') <==> Queued(s)
  {
    if Queued(s) { var c :| 0 <= c < |s.cpus| && s.cpus[c].next != []; assert s'.cpus[c].next != []; }
  }

  lemma GoesNone(s: State)
    ensures Goes(s, [], s)
  {
  }

  lemma AlwaysStart(s: State)
    ensures Enabled(s, Start)
  {
  }

  lemma DecIs(s: State, s': State, c: nat)
    requires Enabled(s, Dec(c)) && s' == s.(nest := s.nest[s.cpus[c].cur := Nest(s, s.cpus[c].cur) - 1])
    ensures s' == Apply(s, Dec(c))
  {
  }

  lemma SpecialIs(s: State, c: nat)
    requires Enabled(s, Special(c))
    ensures Apply(s, Special(c)) == s.(blkd := Drop(s.blkd, s.cpus[c].cur))
  {
  }
}
