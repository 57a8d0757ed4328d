/** Wait queues: a circular doubly linked list of waiting threads and the wake-up walk over it.  Entry e waits for
    thread e. */
module WaitQueue {
  import opened Lists
  import opened RunQueue

  // ---------------------------------------------------------------- the circular list

  ghost predicate Linked(next: seq<int>, prev: seq<int>, q: seq<int>, i: nat)
    requires i < |q|
  {
    && 0 <= q[i] < |next| && |prev| == |next|
    && next[q[i]] == (if i == |q| - 1 then q[0] else q[i + 1])
    && prev[q[i]] == (if i == 0 then q[|q| - 1] else q[i - 1])
  }

  /** `q` is the circular list that starts at `head`; entries outside it have no links. */
  ghost predicate Ring(next: seq<int>, prev: seq<int>, head: int, q: seq<int>) {
    && |prev| == |next| && NoDup(q) && head == (if q == [] then NIL else q[0])
    && (forall i: nat {:trigger Linked(next, prev, q, i)} :: i < |q| ==> Linked(next, prev, q, i))
    && forall e {:trigger next[e]} :: 0 <= e < |next| && e !in q ==> next[e] == NIL
  }

  lemma Members(next: seq<int>, prev: seq<int>, head: int, q: seq<int>, e: nat)
    requires Ring(next, prev, head, q) && e < |next|
    ensures var x: int := e; next[e] != NIL <==> x in q
  {
    var x: int := e;
    if x in q {
      var i: nat :| i < |q| && q[i] == x;
      assert Linked(next, prev, q, i);
      assert Linked(next, prev, q, if i == |q| - 1 then 0 else i + 1);
    }
  }

  lemma TailedRing(next: seq<int>, prev: seq<int>, head: int, q: seq<int>, e: nat)
    requires Ring(next, prev, head, q) && e < |next| && (var x: int := e; x !in q)
    ensures q != [] ==> 0 <= head < |next| && 0 <= prev[head] < |next| && prev[head] == q[|q| - 1]
    ensures q == [] ==> Ring(next[e := e], prev[e := e], e, [e])
    ensures q != [] ==> Ring(next[e := head][prev[head] := e], prev[e := prev[head]][head := e], head, q + [e])
  {
    if q != [] {
      assert Linked(next, prev, q, 0) && Linked(next, prev, q, |q| - 1);
      var t := prev[head];
      var next', prev', r := next[e := head][t := e], prev[e := t][head := e], q + [e];
      forall i: nat | i < |r| ensures Linked(next', prev', r, i) {
        if i < |q| {
          assert Linked(next, prev, q, i);
          assert i < |q| - 1 ==> q[i] != q[|q| - 1];
          assert i > 0 ==> q[i] != q[0];
        }
      }
      forall x | 0 <= x < |next| && x !in r
        ensures next'[x] == NIL
      {
        assert x !in q && x != e;
        assert next[x] == NIL;
        assert t == q[|q| - 1];
      }
    }
  }

  /** Moving the head one back rotates the list. */
  lemma Rotated(next: seq<int>, prev: seq<int>, head: int, q: seq<int>, e: int)
    requires Ring(next, prev, head, q + [e])
    ensures Ring(next, prev, e, [e] + q)
  {
    var r, s := q + [e], [e] + q;
    forall i: nat | i < |s| ensures Linked(next, prev, s, i) {
      if i == 0 { assert Linked(next, prev, r, |q|); } else { assert Linked(next, prev, r, i - 1); }
    }
    forall i, j | 0 <= i < j < |s| ensures s[i] != s[j] {
      assert s[j] == r[j - 1] && s[i] == if i == 0 then r[|q|] else r[i - 1];
    }
  }

  lemma RemovedRing(next: seq<int>, prev: seq<int>, head: int, q: seq<int>, k: nat)
    requires Ring(next, prev, head, q) && k < |q|
    ensures var e := q[k];
      0 <= e < |next| && 0 <= next[e] < |next| && 0 <= prev[e] < |next| && (next[e] == e <==> |q| == 1)
    ensures var e := q[k]; |q| == 1 ==> Ring(next[e := NIL], prev[e := NIL], NIL, [])
    ensures var e := q[k]; |q| > 1 ==>
      Ring(next[prev[e] := next[e]][e := NIL], prev[next[e] := prev[e]][e := NIL], if head == e then next[e]
        else head, Without(q, k))
  {
    assert Linked(next, prev, q, k);
    assert Linked(next, prev, q, if k == |q| - 1 then 0 else k + 1);
    assert Linked(next, prev, q, if k == 0 then |q| - 1 else k - 1);
    var e := q[k];
    if |q| > 1 {
      var next', prev', r := next[prev[e] := next[e]][e := NIL], prev[next[e] := prev[e]][e := NIL], Without(q, k);
      forall i: nat | i < |r| ensures Linked(next', prev', r, i) { RemovedAt(next, prev, head, q, k, i); }
      assert NoDup(r);
      forall x | 0 <= x < |next| && x !in r ensures next'[x] == NIL {
        if x != e { NotIn(q, k, x); assert next[x] == NIL; }
      }
    } else {
      assert q == [e];
    }
  }

  lemma NotIn(q: seq<int>, k: nat, x: int)
    requires k < |q| && x !in Without(q, k) && x != q[k]
    ensures x !in q
  {
    forall i | 0 <= i < |q| ensures q[i] != x {
      if i < k { assert Without(q, k)[i] == q[i]; } else if i > k { assert Without(q, k)[i - 1] == q[i]; }
    }
  }

  lemma RemovedAt(next: seq<int>, prev: seq<int>, head: int, q: seq<int>, k: nat, i: nat)
    requires Ring(next, prev, head, q) && k < |q| && |q| > 1 && i < |q| - 1
    requires var e := q[k]; 0 <= e < |next| && 0 <= next[e] < |next| && 0 <= prev[e] < |next|
    ensures |Without(q, k)| == |q| - 1
    ensures var e := q[k];
      Linked(next[prev[e] := next[e]][e := NIL], prev[next[e] := prev[e]][e := NIL], Without(q, k), i)
  {
    hide Without, NoDup;
    var n, i0 := |q|, if i < k then i else i + 1;
    WithoutAt(q, k, i);
    WithoutAt(q, k, if i == 0 then n - 2 else i - 1);
    WithoutAt(q, k, if i == n - 2 then 0 else i + 1);
    assert Linked(next, prev, q, i0) && Linked(next, prev, q, k);
    Differs(q, i0, k);
    Differs(q, i0, if k == 0 then n - 1 else k - 1);
    Differs(q, i0, if k == n - 1 then 0 else k + 1);
  }

  lemma Differs(q: seq<int>, i: nat, j: nat)
    requires NoDup(q) && i < |q| && j < |q|
    ensures q[i] == q[j] <==> i == j
  {
  }

  // ---------------------------------------------------------------- what a wake-up does

  predicate Asleep(st: TState) { st == Blocked || st == Stopped }

  /** Whom a wake-up wakes, in list order: every sleeper that is not exclusive, and the first exclusive one. */
  ghost function Wakes(q: seq<int>, state: seq<TState>, excl: seq<bool>, done: bool): seq<int>
    requires |excl| == |state| && forall i {:trigger q[i]} :: 0 <= i < |q| ==> 0 <= q[i] < |state|
  {
    if q == [] then []
    else if (excl[q[0]] && done) || !Asleep(state[q[0]]) then Wakes(q[1..], state, excl, done)
    else [q[0]] + Wakes(q[1..], state, excl, done || excl[q[0]])
  }

  ghost function Enqueue(q: seq<seq<int>>, prio: seq<int>, t: int): seq<seq<int>>
    requires |q| == LEVELS && 0 <= t < |prio|
  {
    var p := Clamp(prio[t]);
    if t in q[p] then q else q[p := q[p] + [t]]
  }

  ghost function EnqueueAll(q: seq<seq<int>>, prio: seq<int>, ts: seq<int>): (r: seq<seq<int>>)
    requires |q| == LEVELS && forall i {:trigger ts[i]} :: 0 <= i < |ts| ==> 0 <= ts[i] < |prio|
    ensures |r| == LEVELS
  {
    if ts == [] then q else Enqueue(EnqueueAll(q, prio, ts[..|ts| - 1]), prio, ts[|ts| - 1])
  }

  ghost predicate InRange(q: seq<int>, n: nat) { forall i {:trigger q[i]} :: 0 <= i < |q| ==> 0 <= q[i] < n }

  /** Everybody woken was asleep in the queue, and every sleeper that is not exclusive is woken. */
  lemma {:induction false} WakesWho(q: seq<int>, state: seq<TState>, excl: seq<bool>, done: bool, t: int)
    requires |excl| == |state| && InRange(q, |state|)
    ensures t in Wakes(q, state, excl, done) ==> t in q && (state[t] == Blocked || state[t] == Stopped)
    ensures t in q && (state[t] == Blocked || state[t] == Stopped) && !excl[t] ==> t in Wakes(q, state, excl, done)
    ensures done && t in Wakes(q, state, excl, done) ==> !excl[t]
  {
    if q != [] {
      WakesWho(q[1..], state, excl, done, t);
      WakesWho(q[1..], state, excl, done || excl[q[0]], t);
    }
  }

  /** At most one exclusive sleeper is woken. */
  lemma {:induction false} WakesOneExclusive(q: seq<int>, state: seq<TState>, excl: seq<bool>, done: bool, t: int,
      u: int)
    requires |excl| == |state| && InRange(q, |state|) && NoDup(q)
    requires t in Wakes(q, state, excl, done) && u in Wakes(q, state, excl, done) && 0 <= t < |excl| && 0 <= u < |excl|
    requires excl[t] && excl[u]
    ensures t == u
  {
    if q != [] && t != u {
      var skip := (excl[q[0]] && done) || !Asleep(state[q[0]]);
      var d := if skip then done else done || excl[q[0]];
      WakesWho(q[1..], state, excl, d, t);
      WakesWho(q[1..], state, excl, d, u);
      if t in Wakes(q[1..], state, excl, d) && u in Wakes(q[1..], state, excl, d) {
        WakesOneExclusive(q[1..], state, excl, d, t, u);
      }
    }
  }

  /** The first exclusive sleeper is woken. */
  lemma {:induction false} WakesFirstExclusive(q: seq<int>, state: seq<TState>, excl: seq<bool>, k: nat)
    requires |excl| == |state| && InRange(q, |state|) && k < |q| && excl[q[k]]
    requires (state[q[k]] == Blocked || state[q[k]] == Stopped) && forall i {:trigger q[i]} :: 0 <= i < k ==>
      !(excl[q[i]] && (state[q[i]] == Blocked || state[q[i]] == Stopped))
    ensures q[k] in Wakes(q, state, excl, false)
  {
    if k > 0 {
      assert q[1..][k - 1] == q[k];
      WakesFirstExclusive(q[1..], state, excl, k - 1);
    }
  }

  class WaitQueueHead {
    const rq: RunQueues
    var next: seq<int>
    var prev: seq<int>
    var excl: seq<bool>
    var head: int
    ghost var q: seq<int>

    constructor (r: RunQueues)
      requires r.Valid()
      ensures Valid() && rq == r && q == [] && excl == seq(|r.prio|, _ => false)
    {
      rq := r;
      next, prev, excl := seq(|r.prio|, _ => NIL), seq(|r.prio|, _ => NIL), seq(|r.prio|, _ => false);
      head, q := NIL, [];
    }

    ghost predicate Valid()
      reads this, rq
    {
      rq.Valid() && |next| == |excl| == |rq.prio| && Ring(next, prev, head, q)
    }

    /** `wq_insert_tail` */
    method InsertTail(e: nat)
      requires Valid() && e < |next| && (var x: int := e; x !in q)
      modifies this`next, this`prev, this`head, this`q
      ensures Valid() && q == old(q) + [e]
    {
      hide Ring, RunQueues.Valid;
      TailedRing(next, prev, head, q, e);
      RingHead(next, prev, head, q);
      if head == NIL {
        head := e;
        next, prev := next[e := e], prev[e := e];
        q := [e];
        return;
      }
      var tail := prev[head];
      prev := prev[e := tail];
      next := next[e := head];
      next := next[tail := e];
      prev := prev[head := e];
      q := q + [e];
    }

    /** `wq_insert_head` */
    method InsertHead(e: nat)
      requires Valid() && e < |next| && (var x: int := e; x !in q)
      modifies this`next, this`prev, this`head, this`q
      ensures Valid() && q == [e] + old(q)
    {
      hide Ring, RunQueues.Valid;
      InsertTail(e);
      Rotated(next, prev, head, old(q), e);
      head := e;
      q := [e] + old(q);
    }

    /** `wq_remove`: nothing happens to an entry that is not queued. */
    method Remove(e: nat)
      requires Valid() && e < |next|
      modifies this`next, this`prev, this`head, this`q
      ensures Valid() && Removed(old(q), q, e)
    {
      hide Ring, RunQueues.Valid;
      Members(next, prev, head, q, e);
      RingHead(next, prev, head, q);
      if next[e] == NIL { return; }
      ghost var x: int := e;
      ghost var k: nat :| k < |q| && q[k] == x;
      RemovedRing(next, prev, head, q, k);
      if next[e] == e {
        head := NIL;
        assert Without(q, k) == [];
      } else {
        var p, n := prev[e], next[e];
        next := next[p := n];
        prev := prev[n := p];
        if head == e { head := n; }
      }
      next, prev := next[e := NIL], prev[e := NIL];
      q := Without(q, k);
    }

    /** `prepare_to_wait` and `prepare_to_wait_exclusive`: queued once, at the head or the tail, and in the sleeping
        state. */
    method PrepareToWait(e: nat, st: TState, exclusive: bool)
      requires Valid() && e < |next|
      modifies this, rq`state
      ensures Valid() && |rq.state| == |old(rq.state)| && rq.state == old(rq.state)[e := st]
      ensures var x: int := e;
        if x in old(q) then q == old(q) && excl == old(excl)
        else
          && q == (if exclusive then old(q) + [x] else [x] + old(q))
          && |excl| == |old(excl)| && excl == old(excl)[e := exclusive]
    {
      hide Ring;
      Members(next, prev, head, q, e);
      if next[e] == NIL {
        excl := excl[e := exclusive];
        if exclusive { InsertTail(e); } else { InsertHead(e); }
      }
      rq.state := rq.state[e := st];
    }

    /** `finish_wait`: RUNNING again and off the queue. */
    method FinishWait(e: nat)
      requires Valid() && e < |next|
      modifies this, rq`state
      ensures Valid() && |rq.state| == |old(rq.state)| && rq.state == old(rq.state)[e := Running] && excl == old(excl)
      ensures Removed(old(q), q, e)
    {
      hide Ring;
      rq.state := rq.state[e := Running];
      Remove(e);
    }

    /** `try_to_wake_up` with TASK_NORMAL: a sleeping thread becomes RUNNABLE and is queued to run. */
    method TryToWakeUp(t: nat) returns (woken: bool)
      requires Valid() && t < |next|
      modifies rq
      ensures Valid() && rq.prio == old(rq.prio)
      ensures woken == (old(rq.state)[t] == Blocked || old(rq.state)[t] == Stopped)
      ensures woken ==> rq.state == old(rq.state)[t := Runnable] && rq.q == Enqueue(old(rq.q), rq.prio, t)
      ensures !woken ==> rq.state == old(rq.state) && rq.q == old(rq.q)
    {
      hide Ring;
      if !Asleep(rq.state[t]) { return false; }
      rq.Add(t);
      return true;
    }

    /** `wake_up`: one walk around the ring. */
    method WakeUp() returns (woken: nat)
      requires Valid()
      modifies rq
      ensures Valid() && rq.prio == old(rq.prio) && InRange(q, |old(rq.state)|)
      ensures var ts := Wakes(q, old(rq.state), excl, false);
        && woken == |ts| && InRange(ts, |rq.prio|) && rq.q == EnqueueAll(old(rq.q), rq.prio, ts)
        && |rq.state| == |old(rq.state)|
        && forall t {:trigger rq.state[t]} :: 0 <= t < |rq.state| ==>
          rq.state[t] == if t in ts then Runnable else old(rq.state)[t]
    {
      hide Ring, Wakes, Walked, Levels;
      RqSizes(rq);
      RingRange(next, prev, head, q);
      RingHead(next, prev, head, q);
      woken := 0;
      var start := head;
      ghost var ts: seq<int>, st, runs := [], rq.state, rq.q;
      WalkStart(q, rq.state, excl, rq.q, rq.prio);
      if start == NIL {
        WalkEnd(q, st, rq.state, excl, false, ts, runs, rq.q, rq.prio);
        return;
      }
      var cur, exWoken := start, false;
      ghost var i := 0;
      while true
        invariant Valid() && rq.prio == old(rq.prio) && |rq.state| == |st|
        invariant 0 <= i < |q| && cur == q[i] && woken == |ts| && |rq.q| == LEVELS
        invariant Walked(q, i, st, rq.state, excl, exWoken, ts, runs, rq.q, rq.prio)
        decreases |q| - i
      {
        NextIs(next, prev, head, q, i);
        var n := next[cur];
        Visit(q, i, st, rq.state, excl, exWoken, ts, runs, rq.q, rq.prio);
        if !(excl[cur] && exWoken) {
          var w := TryToWakeUp(cur);
          if w {
            woken := woken + 1;
            ts := ts + [cur];
            if excl[cur] { exWoken := true; }
          }
        }
        if n == start { break; }
        cur := n;
        i := i + 1;
      }
      WalkEnd(q, st, rq.state, excl, exWoken, ts, runs, rq.q, rq.prio);
    }
  }

  /** The walk has seen the first `i` entries and woken `ts`. */
  ghost predicate Walked(q: seq<int>, i: nat, st: seq<TState>, now: seq<TState>, excl: seq<bool>, ex: bool,
      ts: seq<int>, runs: seq<seq<int>>, runs': seq<seq<int>>, prio: seq<int>) {
    && i <= |q| && |st| == |now| == |excl| == |prio| && InRange(q, |st|) && NoDup(q) && |runs| == LEVELS
    && InRange(ts, |prio|)
    && Wakes(q, st, excl, false) == ts + Wakes(q[i..], st, excl, ex) && runs' == EnqueueAll(runs, prio, ts)
    && (forall t {:trigger now[t]} :: 0 <= t < |now| ==> now[t] == if t in ts then Runnable else st[t])
    && forall j {:trigger ts[j]} :: 0 <= j < |ts| ==> ts[j] in q[..i]
  }

  lemma WalkStart(q: seq<int>, st: seq<TState>, excl: seq<bool>, runs: seq<seq<int>>, prio: seq<int>)
    requires InRange(q, |st|) && NoDup(q) && |st| == |excl| == |prio| && |runs| == LEVELS
    ensures Walked(q, 0, st, st, excl, false, [], runs, runs, prio)
  {
    assert q[0..] == q;
  }

  lemma WalkEnd(q: seq<int>, st: seq<TState>, now: seq<TState>, excl: seq<bool>, ex: bool,
      ts: seq<int>, runs: seq<seq<int>>, runs': seq<seq<int>>, prio: seq<int>)
    requires Walked(q, |q|, st, now, excl, ex, ts, runs, runs', prio)
    ensures |excl| == |st| && InRange(q, |st|) && ts == Wakes(q, st, excl, false) && |now| == |st|
    ensures InRange(ts, |prio|) && |runs| == LEVELS
    ensures runs' == EnqueueAll(runs, prio, ts)
    ensures forall t {:trigger now[t]} :: 0 <= t < |now| ==> now[t] == if t in ts then Runnable else st[t]
  {
    assert q[|q|..] == [];
    assert Wakes(q[|q|..], st, excl, ex) == [];
  }

  /** Visiting entry `i` wakes it exactly if it is due. */
  lemma Visit(q: seq<int>, i: nat, st: seq<TState>, now: seq<TState>, excl: seq<bool>, ex: bool,
      ts: seq<int>, runs: seq<seq<int>>, runs': seq<seq<int>>, prio: seq<int>)
    requires Walked(q, i, st, now, excl, ex, ts, runs, runs', prio) && i < |q|
    ensures |runs'| == LEVELS && |now| == |excl| == |prio| && 0 <= q[i] < |excl|
    ensures if (excl[q[i]] && ex) || !Asleep(now[q[i]]) then Walked(q, i + 1, st, now, excl, ex, ts, runs, runs', prio)
            else Walked(q, i + 1, st, now[q[i] := Runnable], excl, ex ||
              excl[q[i]], ts + [q[i]], runs, Enqueue(runs', prio, q[i]), prio)
  {
    hide Wakes, Enqueue, EnqueueAll;
    var cur, rest := q[i], q[i..];
    Unwoken(q, i, ts);
    EnqueueSize(runs, prio, ts);
    assert rest[0] == cur && rest[1..] == q[i + 1..];
    assert now[cur] == st[cur];
    WakesStep(rest, st, excl, ex);
    assert q[..i + 1] == q[..i] + [cur];
    EnqueueMore(runs, prio, ts, cur);
    assert ts + [cur] + Wakes(q[i + 1..], st, excl, ex ||
      excl[cur]) == ts + ([cur] + Wakes(q[i + 1..], st, excl, ex || excl[cur]));
  }

  lemma EnqueueSize(q: seq<seq<int>>, prio: seq<int>, ts: seq<int>)
    requires |q| == LEVELS && InRange(ts, |prio|)
    ensures |EnqueueAll(q, prio, ts)| == LEVELS
  {
  }

  lemma RqSizes(rq: RunQueues)
    requires rq.Valid()
    ensures |rq.q| == LEVELS && |rq.state| == |rq.prio|
  {
  }

  lemma RingHead(next: seq<int>, prev: seq<int>, head: int, q: seq<int>)
    requires Ring(next, prev, head, q)
    ensures |prev| == |next| && (head == NIL <==> q == [])
    ensures q != [] ==> head == q[0] && 0 <= head < |next|
  {
    if q != [] { assert Linked(next, prev, q, 0); }
  }

  lemma RingRange(next: seq<int>, prev: seq<int>, head: int, q: seq<int>)
    requires Ring(next, prev, head, q)
    ensures InRange(q, |next|) && NoDup(q)
  {
    forall i: nat | i < |q| ensures 0 <= q[i] < |next| { assert Linked(next, prev, q, i); }
  }

  lemma NextIs(next: seq<int>, prev: seq<int>, head: int, q: seq<int>, i: nat)
    requires Ring(next, prev, head, q) && i < |q|
    ensures 0 <= q[i] < |next| && (next[q[i]] == head <==> i == |q| - 1) && (i < |q| - 1 ==> next[q[i]] == q[i + 1])
  {
    assert Linked(next, prev, q, i);
    assert i < |q| - 1 ==> q[i + 1] != q[0];
  }

  lemma Unwoken(q: seq<int>, i: nat, ts: seq<int>)
    requires NoDup(q) && i < |q| && forall j {:trigger ts[j]} :: 0 <= j < |ts| ==> ts[j] in q[..i]
    ensures q[i] !in ts
  {
  }

  lemma WakesStep(q: seq<int>, state: seq<TState>, excl: seq<bool>, done: bool)
    requires |excl| == |state| && InRange(q, |state|) && q != []
    ensures Wakes(q, state, excl, done) ==
      if (excl[q[0]] && done) || !Asleep(state[q[0]]) then Wakes(q[1..], state, excl, done)
        else [q[0]] + Wakes(q[1..], state, excl, done || excl[q[0]])
    ensures |q| == 1 ==> Wakes(q[1..], state, excl, done) == [] && Wakes(q[1..], state, excl, done || excl[q[0]]) == []
  {
  }

  lemma EnqueueMore(q: seq<seq<int>>, prio: seq<int>, ts: seq<int>, t: int)
    requires |q| == LEVELS && InRange(ts, |prio|) && 0 <= t < |prio|
    ensures InRange(ts + [t], |prio|) && EnqueueAll(q, prio, ts + [t]) == Enqueue(EnqueueAll(q, prio, ts), prio, t)
  {
    hide Enqueue;
    assert (ts + [t])[..|ts|] == ts;
  }

  /** Every thread passed to the scheduler is on the queue of its level afterwards, and nobody left it. */
  lemma {:induction false} EnqueuedAll(q: seq<seq<int>>, prio: seq<int>, ts: seq<int>, t: int)
    requires |q| == LEVELS && InRange(ts, |prio|) && 0 <= t < |prio| && (t in ts || t in q[Clamp(prio[t])])
    ensures t in EnqueueAll(q, prio, ts)[Clamp(prio[t])]
  {
    if ts != [] {
      var init, last := ts[..|ts| - 1], ts[|ts| - 1];
      if t in init || t in q[Clamp(prio[t])] { EnqueuedAll(q, prio, init, t); } else { assert ts == init + [last]; }
    }
  }
}
