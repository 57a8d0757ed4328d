/** The scheduler's run queues: one singly linked FIFO per priority, with head, tail and a bitmap of non-empty
    levels. */
module RunQueue {
  import opened Lists

  const NIL := -1
  const LEVELS := 32

  datatype TState = Free | Runnable | Running | Blocked | Stopped | Dead

  function Clamp(prio: int): (p: nat)
    ensures p < LEVELS
  {
    if prio < 0 then 0 else if prio >= LEVELS then LEVELS - 1 else prio
  }

  /** A thread of priority `b` need not run before one of priority `a`: it is no higher, once both are cut to 0..31. */
  predicate NoLower(a: int, b: int) { b <= a || a >= 31 || b <= 0 }

  lemma ClampOrder(a: int, b: int)
    ensures Clamp(b) <= Clamp(a) <==> NoLower(a, b)
  {
  }

  /** Thread `u` is on some run queue. */
  ghost predicate Queued(q: seq<seq<int>>, u: int) { exists p {:trigger q[p]} :: 0 <= p < |q| && u in q[p] }

  ghost predicate Hop(next: seq<int>, c: seq<int>, i: nat)
    requires i < |c|
  {
    0 <= c[i] < |next| && next[c[i]] == (if i == |c| - 1 then NIL else c[i + 1])
  }

  /** `c` is the list that starts at `head`, ends at `tail` and is linked through `next`. */
  ghost predicate Chain(next: seq<int>, head: int, tail: int, c: seq<int>) {
    && NoDup(c) && head == (if c == [] then NIL else c[0]) && tail == (if c == [] then NIL else c[|c| - 1])
    && forall i: nat {:trigger Hop(next, c, i)} :: i < |c| ==> Hop(next, c, i)
  }

  /** Level p: its chain, its bit, and only threads of that priority. */
  ghost predicate Level(prio: seq<int>, next: seq<int>, head: seq<int>, tail: seq<int>, bits: seq<bool>,
      q: seq<seq<int>>, p: nat) {
    && p < |q| == |head| == |tail| == |bits| && |prio| == |next| && Chain(next, head[p], tail[p], q[p])
    && bits[p] == (q[p] != [])
    && forall i {:trigger q[p][i]} :: 0 <= i < |q[p]| ==> 0 <= q[p][i] < |prio| && Clamp(prio[q[p][i]]) == p
  }

  ghost predicate Levels(prio: seq<int>, next: seq<int>, head: seq<int>, tail: seq<int>, bits: seq<bool>,
      q: seq<seq<int>>) {
    && |q| == LEVELS == |head| == |tail| == |bits| && |prio| == |next|
    && forall p: nat {:trigger Level(prio, next, head, tail, bits, q, p)} :: p < LEVELS ==>
      Level(prio, next, head, tail, bits, q, p)
  }

  /** Changing the link of a thread that is not in the list leaves the list. */
  lemma ChainFrame(next: seq<int>, head: int, tail: int, c: seq<int>, t: int, x: int)
    requires Chain(next, head, tail, c) && t !in c && 0 <= t < |next|
    ensures Chain(next[t := x], head, tail, c)
  {
    var next' := next[t := x];
    forall i: nat | i < |c| ensures Hop(next', c, i) { assert Hop(next, c, i); }
  }

  lemma Appended(next: seq<int>, head: int, tail: int, c: seq<int>, t: int)
    requires Chain(next, head, tail, c) && 0 <= t < |next| && t !in c
    ensures tail == NIL <==> c == []
    ensures tail != NIL ==> 0 <= tail < |next|
    ensures Chain(if c == [] then next[t := NIL] else next[t := NIL][tail := t], if c == [] then t
      else head, t, c + [t])
  {
    if c != [] { assert Hop(next, c, |c| - 1); }
    var next' := if c == [] then next[t := NIL] else next[t := NIL][tail := t];
    var d := c + [t];
    forall i: nat | i < |d| ensures Hop(next', d, i) {
      if i < |c| { assert Hop(next, c, i); assert i < |c| - 1 ==> c[i] != c[|c| - 1]; }
    }
  }

  /** Unlinking the k-th thread; `p` is the one before it. */
  lemma Unlinked(next: seq<int>, head: int, tail: int, c: seq<int>, k: nat)
    requires Chain(next, head, tail, c) && k < |c|
    ensures 0 <= c[k] < |next| && (k > 0 ==> 0 <= c[k - 1] < |next|)
    ensures var t := c[k];
      Chain((if k == 0 then next else next[c[k - 1] := next[t]])[t := NIL], if k == 0 then next[t] else head,
            if k < |c| - 1 then tail else if k == 0 then NIL else c[k - 1], Without(c, k))
    ensures k == 0 ==> (next[c[0]] == NIL <==> |c| == 1)
  {
    assert Hop(next, c, k);
    if k > 0 { assert Hop(next, c, k - 1); }
    if k + 1 < |c| { assert Hop(next, c, k + 1); }
    var t, rest := c[k], Without(c, k);
    var next' := (if k == 0 then next else next[c[k - 1] := next[t]])[t := NIL];
    forall i: nat | i < |rest| ensures Hop(next', rest, i) {
      var i0 := if i < k then i else i + 1;
      assert Hop(next, c, i0);
      assert c[i0] != c[k];
      assert k > 0 && i0 != k - 1 ==> c[i0] != c[k - 1];
    }
  }

  class RunQueues {
    var prio: seq<int>
    var state: seq<TState>
    var next: seq<int>
    var head: seq<int>
    var tail: seq<int>
    var bits: seq<bool>
    ghost var q: seq<seq<int>>

    ghost predicate Valid()
      reads this
    {
      |state| == |prio| && Levels(prio, next, head, tail, bits, q)
    }

    constructor (priorities: seq<int>)
      ensures Valid() && prio == priorities && (forall p {:trigger q[p]} :: 0 <= p < LEVELS ==> q[p] == [])
      ensures forall t :: 0 <= t < |state| ==> state[t] == Free
    {
      prio := priorities;
      state, next := seq(|priorities|, _ => Free), seq(|priorities|, _ => NIL);
      head, tail, bits, q :=
        seq(LEVELS, _ => NIL), seq(LEVELS, _ => NIL), seq(LEVELS, _ => false), seq(LEVELS, _ => []);
      new;
      forall p: nat | p < LEVELS ensures Level(prio, next, head, tail, bits, q, p) { assert q[p] == []; }
    }

    /** `sched_add`: RUNNABLE, and at the end of its level unless it is queued already. */
    method Add(t: nat)
      requires Valid() && t < |prio|
      modifies this
      ensures Valid() && prio == old(prio) && state == old(state)[t := Runnable] && |q| == LEVELS == |old(q)|
      ensures var p := Clamp(prio[t]); var x: int := t;
        q == if x in old(q)[p] then old(q) else old(q)[p := old(q)[p] + [x]]
    {
      hide Chain, NoDup;
      var p := Clamp(prio[t]);
      state := state[t := Runnable];
      var found := Contains(p, t);
      if found { return; }
      AddedAll(prio, next, head, tail, bits, q, t);
      next := next[t := NIL];
      if tail[p] != NIL {
        next := next[tail[p] := t];
      } else {
        head := head[p := t];
      }
      tail, bits := tail[p := t], bits[p := true];
      q := q[p := q[p] + [t]];
    }

    /** The walk that looks for `t` in level `p`. */
    method Contains(p: nat, t: nat) returns (found: bool)
      requires Valid() && p < LEVELS
      ensures var x: int := t; found <==> x in q[p]
    {
      assert Level(prio, next, head, tail, bits, q, p);
      var cur := head[p];
      ghost var i := 0;
      while cur != NIL
        invariant 0 <= i <= |q[p]| && cur == (if i < |q[p]| then q[p][i] else NIL)
        invariant forall j {:trigger q[p][j]} :: 0 <= j < i ==> q[p][j] != t
        decreases |q[p]| - i
      {
        assert Hop(next, q[p], i);
        if cur == t { return true; }
        cur := next[cur];
        i := i + 1;
      }
      return false;
    }

    /** `sched_pick`: the first thread of the highest non-empty level. */
    method Pick() returns (t: int)
      requires Valid()
      modifies this
      ensures Valid() && prio == old(prio) && state == old(state) && |q| == |old(q)| == LEVELS
      ensures t == NIL ==> q == old(q) && forall p {:trigger q[p]} :: 0 <= p < LEVELS ==> q[p] == []
      ensures t != NIL ==> 0 <= t < |prio| && var p := Clamp(prio[t]);
        && old(q)[p] != [] && old(q)[p][0] == t && q == old(q)[p := old(q)[p][1..]]
        && forall r {:trigger old(q)[r]} :: p < r < LEVELS ==> old(q)[r] == []
      ensures t == NIL <==> forall u :: !Queued(old(q), u)
      ensures t != NIL ==> forall u {:trigger Queued(old(q), u)} :: Queued(old(q), u) ==>
        0 <= u < |prio| && NoLower(prio[t], prio[u])
    {
      hide Chain, NoDup;
      var p := LEVELS - 1;
      while p >= 0 && !bits[p]
        invariant -1 <= p < LEVELS && Valid()
        invariant q == old(q) && prio == old(prio) && state == old(state)
        invariant forall r {:trigger q[r]} :: p < r < LEVELS ==> q[r] == []
      {
        assert Level(prio, next, head, tail, bits, q, p);
        p := p - 1;
      }
      if p < 0 { return NIL; }
      assert Level(prio, next, head, tail, bits, q, p);
      TopLevel(prio, next, head, tail, bits, q, p);
      t := head[p];
      HeadIs(next, head[p], tail[p], q[p]);
      UnlinkedAll(prio, next, head, tail, bits, q, p, 0);
      ghost var c := q[p];
      assert Without(c, 0) == c[1..];
      assert Clamp(prio[c[0]]) == p;
      ghost var tail' := if 0 < |c| - 1 then tail else tail[p := NIL];
      ghost var bits' := if |c| == 1 then bits[p := false] else bits;
      head := head[p := next[t]];
      if head[p] == NIL {
        tail, bits := tail[p := NIL], bits[p := false];
      }
      next := next[t := NIL];
      q := q[p := q[p][1..]];
      assert tail == tail' && bits == bits';
    }

    /** `sched_dequeue`: take `t` out of its level if it is there; its link is cleared in any case. */
    method Dequeue(t: nat)
      requires Valid() && t < |prio|
      modifies this
      ensures Valid() && prio == old(prio) && state == old(state) && |q| == LEVELS == |old(q)|
      ensures var p := Clamp(prio[t]); forall r {:trigger q[r]} :: 0 <= r < LEVELS && r != p ==> q[r] == old(q)[r]
      ensures var p := Clamp(prio[t]); var x: int := t; Removed(old(q)[p], q[p], x)
      ensures next[t] == NIL && Forgotten(next, head, tail, q, t)
    {
      hide Chain, NoDup, Forgotten;
      var p := Clamp(prio[t]);
      assert Level(prio, next, head, tail, bits, q, p);
      var found, prev, k := Locate(p, t);
      if found {
        UnlinkedAll(prio, next, head, tail, bits, q, p, k);
        ghost var c := q[p];
        HeadIs(next, head[p], tail[p], c);
        PosIs(next, head[p], tail[p], c, k);
        ghost var tail' := if k < |c| - 1 then tail else tail[p := if k == 0 then NIL else c[k - 1]];
        ghost var bits' := if |c| == 1 then bits[p := false] else bits;
        ghost var next' := (if k == 0 then next else next[c[k - 1] := next[t]])[t := NIL];
        if prev == NIL {
          head := head[p := next[t]];
          if head[p] == NIL { tail, bits := tail[p := NIL], bits[p := false]; }
        } else {
          next := next[prev := next[t]];
          if tail[p] == t { tail := tail[p := prev]; }
        }
        next := next[t := NIL];
        q := q[p := Without(c, k)];
        assert tail == tail' && bits == bits' && next == next';
        ChainOnce(old(next), old(head)[p], old(tail)[p], c, k);
      } else {
        Unqueued(prio, next, head, tail, bits, q, t);
        next := next[t := NIL];
      }
      Unlisted(prio, next, head, tail, bits, q, t);
    }

    /** The walk of `sched_dequeue`: the position of `t` in level `p` and the thread before it. */
    method Locate(p: nat, t: nat) returns (found: bool, prev: int, ghost k: nat)
      requires Valid() && p < LEVELS
      ensures found ==> k < |q[p]| && q[p][k] == t && prev == (if k == 0 then NIL else q[p][k - 1])
      ensures !found ==> (var x: int := t; x !in q[p])
    {
      assert Level(prio, next, head, tail, bits, q, p);
      var cur := head[p];
      prev, k := NIL, 0;
      while cur != NIL
        invariant 0 <= k <= |q[p]| && cur == (if k < |q[p]| then q[p][k] else NIL)
        invariant prev == (if k == 0 then NIL else q[p][k - 1])
        invariant forall j {:trigger q[p][j]} :: 0 <= j < k ==> q[p][j] != t
        decreases |q[p]| - k
      {
        assert Hop(next, q[p], k);
        if cur == t { return true, prev, k; }
        prev := cur;
        cur := next[cur];
        k := k + 1;
      }
      return false, NIL, 0;
    }

    /** The pick loop of `schedule`: threads that cannot run are dropped from the queue on the way. */
    method PickReady(alive: seq<bool>) returns (t: int, ghost k: nat)
      requires Valid() && |alive| == |prio|
      modifies this
      ensures Valid() && prio == old(prio) && state == old(state) && k <= |Order(old(q), LEVELS)|
      ensures forall i {:trigger Order(old(q), LEVELS)[i]} :: 0 <= i < k ==>
        0 <= Order(old(q), LEVELS)[i] < |prio| && !Ready(state, alive, Order(old(q), LEVELS)[i])
      ensures t == NIL ==> k == |Order(old(q), LEVELS)| && Order(q, LEVELS) == []
      ensures t != NIL ==>
        k < |Order(old(q), LEVELS)| && t == Order(old(q), LEVELS)[k] && 0 <= t < |prio| && Ready(state, alive, t)
      ensures t != NIL ==> Order(q, LEVELS) == Order(old(q), LEVELS)[k + 1..]
      ensures Best(t, prio, state, alive, old(q))
    {
      hide Chain, NoDup, Level, Order;
      k := 0;
      ghost var all, first := Order(q, LEVELS), q;
      t := 0;
      RqLevels(this);
      while true
        invariant Valid() && prio == old(prio) && state == old(state) && k <= |all| && Order(q, LEVELS) == all[k..]
        invariant forall i {:trigger all[i]} :: 0 <= i < k ==> 0 <= all[i] < |prio| && !Ready(state, alive, all[i])
        decreases |all| - k
      {
        ghost var was := q;
        t := Pick();
        PickOrder(was, q, prio, t, LEVELS);
        if t == NIL {
          BestIs(prio, first, state, alive, k, NIL);
          return;
        }
        if Ready(state, alive, t) {
          BestIs(prio, first, state, alive, k, t);
          return;
        }
        k := k + 1;
      }
    }

    /** `schedule` up to the switch: the next thread to run is RUNNING; NIL stands for the idle thread.  A caller that
        is still RUNNING keeps the CPU when nothing else is ready. */
    method Schedule(prev: int, alive: seq<bool>) returns (next: int, ghost k: nat)
      requires Valid() && |alive| == |prio| && -1 <= prev < |prio|
      modifies this
      ensures Valid() && prio == old(prio) && k <= |Order(old(q), LEVELS)|
      ensures next == NIL || 0 <= next < |prio|
      ensures Order(q, LEVELS) == if k < |Order(old(q), LEVELS)| then Order(old(q), LEVELS)[k + 1..] else []
      ensures next != NIL && k < |Order(old(q), LEVELS)| ==>
        next == Order(old(q), LEVELS)[k] && Ready(old(state), alive, next) && state == old(state)[next := Running]
      ensures next != NIL && k == |Order(old(q), LEVELS)| ==>
        next == prev && old(state)[prev] == Running && state == old(state)
      ensures next == NIL ==>
        k == |Order(old(q), LEVELS)| && state == old(state) && (prev >= 0 ==> state[prev] != Running)
      ensures forall i {:trigger Order(old(q), LEVELS)[i]} :: 0 <= i < k ==>
        0 <= Order(old(q), LEVELS)[i] < |prio| && !Ready(old(state), alive, Order(old(q), LEVELS)[i])
      ensures forall u {:trigger Queued(old(q), u)} :: Queued(old(q), u) && CanRun(old(state), alive, u) ==>
        next != NIL && Queued(old(q), next) && CanRun(old(state), alive, next) && 0 <= u < |prio| &&
        NoLower(prio[next], prio[u])
    {
      hide Chain, NoDup, Level, Order;
      next, k := PickReady(alive);
      if next == NIL {
        if prev >= 0 && state[prev] == Running { next := prev; }
        return;
      }
      state := state[next := Running];
    }

    /** `finish_switch`: whoever was switched out while still RUNNING goes back to the queue. */
    method FinishSwitch(prev: int)
      requires Valid() && -1 <= prev < |prio|
      modifies this
      ensures Valid() && prio == old(prio)
      ensures prev < 0 || old(state)[prev] != Running ==> q == old(q) && state == old(state)
      ensures prev >= 0 && old(state)[prev] == Running ==>
        && state == old(state)[prev := Runnable] && |q| == LEVELS == |old(q)|
        && var p := Clamp(prio[prev]); q == if prev in old(q)[p] then old(q) else old(q)[p := old(q)[p] + [prev]]
    {
      if prev >= 0 && state[prev] == Running { Add(prev); }
    }
  }

  /** Whoever is queued is no higher than the highest level in use. */
  lemma TopLevel(prio: seq<int>, next: seq<int>, head: seq<int>, tail: seq<int>, bits: seq<bool>, q: seq<seq<int>>,
      p: nat)
    requires Levels(prio, next, head, tail, bits, q) && p < LEVELS && q[p] != []
    requires forall r {:trigger q[r]} :: p < r < LEVELS ==> q[r] == []
    ensures 0 <= q[p][0] < |prio| && Queued(q, q[p][0])
    ensures forall u {:trigger Queued(q, u)} :: Queued(q, u) ==> 0 <= u < |prio| && NoLower(prio[q[p][0]], prio[u])
  {
    hide Chain, Clamp;
    var t := q[p][0];
    assert Level(prio, next, head, tail, bits, q, p);
    forall u | Queued(q, u) ensures 0 <= u < |prio| && NoLower(prio[t], prio[u]) {
      var r :| 0 <= r < |q| && u in q[r];
      assert Level(prio, next, head, tail, bits, q, r);
      ClampOrder(prio[t], prio[u]);
    }
  }

  predicate Ready(state: seq<TState>, alive: seq<bool>, t: int)
    requires |alive| == |state| && 0 <= t < |state|
  {
    state[t] != Dead && state[t] != Free && state[t] != Stopped && alive[t]
  }

  /** Spelled out: a thread that is neither dead, free nor stopped, of a process that is alive. */
  predicate CanRun(state: seq<TState>, alive: seq<bool>, t: int) {
    0 <= t < |state| == |alive| && alive[t] && (state[t] == Runnable || state[t] == Running || state[t] == Blocked)
  }

  /** `t` can run and is no lower than anybody queued who can, or NIL if nobody can. */
  ghost predicate Best(t: int, prio: seq<int>, state: seq<TState>, alive: seq<bool>, q: seq<seq<int>>) {
    && |prio| == |state|
    && (t != NIL ==> Queued(q, t) && CanRun(state, alive, t))
    && forall u {:trigger Queued(q, u)} :: Queued(q, u) && CanRun(state, alive, u) ==>
         t != NIL && 0 <= t < |prio| && NoLower(prio[t], prio[u])
  }

  /** Every thread is queued at the level of its priority. */
  ghost predicate Placed(prio: seq<int>, q: seq<seq<int>>) {
    && |q| == LEVELS
    && forall p, i {:trigger q[p][i]} :: 0 <= p < |q| && 0 <= i < |q[p]| ==>
         0 <= q[p][i] < |prio| && Clamp(prio[q[p][i]]) == p
  }

  lemma RqLevels(rq: RunQueues)
    requires rq.Valid()
    ensures Placed(rq.prio, rq.q)
  {
    hide Chain, Clamp;
    forall p, i | 0 <= p < |rq.q| && 0 <= i < |rq.q[p]|
      ensures 0 <= rq.q[p][i] < |rq.prio| && Clamp(rq.prio[rq.q[p][i]]) == p
    {
      assert Level(rq.prio, rq.next, rq.head, rq.tail, rq.bits, rq.q, p);
    }
  }

  /** The order lists exactly the queued threads, highest level first. */
  lemma {:induction false} OrderIs(prio: seq<int>, q: seq<seq<int>>, n: nat)
    requires Placed(prio, q) && n <= LEVELS
    ensures forall i {:trigger Order(q, n)[i]} :: 0 <= i < |Order(q, n)| ==>
      Queued(q, Order(q, n)[i]) && 0 <= Order(q, n)[i] < |prio| && Clamp(prio[Order(q, n)[i]]) < n
    ensures forall i, j {:trigger Order(q, n)[i], Order(q, n)[j]} :: 0 <= i <= j < |Order(q, n)| ==>
      Clamp(prio[Order(q, n)[j]]) <= Clamp(prio[Order(q, n)[i]])
    ensures forall p, u {:trigger u in q[p]} :: 0 <= p < n && u in q[p] ==> u in Order(q, n)
  {
    hide Clamp;
    if n > 0 {
      OrderIs(prio, q, n - 1);
      var o := Order(q, n - 1);
      assert Order(q, n) == q[n - 1] + o;
    }
  }

  lemma BestIs(prio: seq<int>, q: seq<seq<int>>, state: seq<TState>, alive: seq<bool>, k: nat, t: int)
    requires Placed(prio, q) && |prio| == |state| == |alive| && k <= |Order(q, LEVELS)|
    requires forall i {:trigger Order(q, LEVELS)[i]} :: 0 <= i < k ==>
      0 <= Order(q, LEVELS)[i] < |prio| && !Ready(state, alive, Order(q, LEVELS)[i])
    requires if t == NIL then k == |Order(q, LEVELS)|
      else k < |Order(q, LEVELS)| && t == Order(q, LEVELS)[k] && 0 <= t < |prio| && Ready(state, alive, t)
    ensures Best(t, prio, state, alive, q)
  {
    hide Clamp, Order;
    OrderIs(prio, q, LEVELS);
    var o := Order(q, LEVELS);
    forall u | Queued(q, u) && CanRun(state, alive, u) ensures t != NIL && NoLower(prio[t], prio[u]) {
      var p :| 0 <= p < |q| && u in q[p];
      var j :| 0 <= j < |o| && o[j] == u;
      assert j >= k;
      ClampOrder(prio[o[k]], prio[u]);
    }
  }

  /** All queued threads in the order they would be picked: levels below `p`, highest first. */
  function Order(q: seq<seq<int>>, p: nat): seq<int>
    requires p <= |q|
  {
    if p == 0 then [] else q[p - 1] + Order(q, p - 1)
  }

  lemma {:induction false} OrderEmpty(q: seq<seq<int>>, p: nat)
    requires p <= |q| && forall r {:trigger q[r]} :: 0 <= r < p ==> q[r] == []
    ensures Order(q, p) == []
  {
    if p > 0 { OrderEmpty(q, p - 1); }
  }

  lemma {:induction false} OrderSame(q: seq<seq<int>>, q': seq<seq<int>>, p: nat)
    requires p <= |q| == |q'| && forall r {:trigger q'[r]} :: 0 <= r < p ==> q'[r] == q[r]
    ensures Order(q', p) == Order(q, p)
  {
    if p > 0 { OrderSame(q, q', p - 1); assert q'[p - 1] == q[p - 1]; }
  }

  /** A pick takes the first thread in that order. */
  lemma {:induction false} PickOrder(q: seq<seq<int>>, q': seq<seq<int>>, prio: seq<int>, t: int, n: nat)
    requires |q| == LEVELS == |q'| && n <= LEVELS
    requires t == NIL ==> q' == q && forall p {:trigger q[p]} :: 0 <= p < LEVELS ==> q[p] == []
    requires t != NIL ==> 0 <= t < |prio| && var p := Clamp(prio[t]);
      p < n && q[p] != [] && q[p][0] == t && q' == q[p := q[p][1..]] && forall r {:trigger q[r]} :: p < r < LEVELS ==>
        q[r] == []
    ensures t == NIL ==> Order(q, n) == [] == Order(q', n)
    ensures t != NIL ==> Order(q, n) != [] && Order(q, n)[0] == t && Order(q', n) == Order(q, n)[1..]
  {
    if t == NIL {
      OrderEmpty(q, n);
    } else {
      var p := Clamp(prio[t]);
      if p == n - 1 {
        OrderSame(q, q', n - 1);
      } else {
        assert q[n - 1] == [];
        PickOrder(q, q', prio, t, n - 1);
      }
    }
  }

  /** The list without `t`, wherever it was. */
  /** No pointer of the run queues leads to `t` any more. */
  ghost predicate Forgotten(next: seq<int>, head: seq<int>, tail: seq<int>, q: seq<seq<int>>, t: int) {
    && !Queued(q, t)
    && (forall p {:trigger head[p]} :: 0 <= p < |head| ==> head[p] != t)
    && (forall p {:trigger tail[p]} :: 0 <= p < |tail| ==> tail[p] != t)
    && forall u {:trigger next[u]} :: 0 <= u < |next| && Queued(q, u) ==> next[u] != t
  }

  lemma ChainOnce(next: seq<int>, head: int, tail: int, c: seq<int>, k: nat)
    requires Chain(next, head, tail, c) && k < |c|
    ensures c[k] !in Without(c, k)
  {
    forall i | 0 <= i < |c| - 1 ensures Without(c, k)[i] != c[k] {
      assert Without(c, k)[i] == c[if i < k then i else i + 1];
    }
  }

  /** A thread that is not on its level is nowhere, and nothing leads to it. */
  lemma Unlisted(prio: seq<int>, next: seq<int>, head: seq<int>, tail: seq<int>, bits: seq<bool>, q: seq<seq<int>>,
      t: nat)
    requires Levels(prio, next, head, tail, bits, q) && t < |prio| && (var x: int := t; x !in q[Clamp(prio[t])])
    ensures Forgotten(next, head, tail, q, t)
  {
    hide Chain, Clamp;
    var x: int := t;
    forall p | 0 <= p < LEVELS ensures x !in q[p] && head[p] != t && tail[p] != t {
      assert Level(prio, next, head, tail, bits, q, p);
      ChainEnds(next, head[p], tail[p], q[p], t);
    }
    forall u | 0 <= u < |next| && Queued(q, u) ensures next[u] != t {
      var p :| 0 <= p < |q| && u in q[p];
      assert Level(prio, next, head, tail, bits, q, p);
      var i :| 0 <= i < |q[p]| && q[p][i] == u;
      ChainHop(next, head[p], tail[p], q[p], i, t);
    }
  }

  lemma ChainEnds(next: seq<int>, head: int, tail: int, c: seq<int>, t: int)
    requires Chain(next, head, tail, c) && t !in c && t != NIL
    ensures head != t && tail != t
  {
  }

  lemma ChainHop(next: seq<int>, head: int, tail: int, c: seq<int>, i: nat, t: int)
    requires Chain(next, head, tail, c) && i < |c| && t !in c && t != NIL
    ensures 0 <= c[i] < |next| && next[c[i]] != t
  {
    assert Hop(next, c, i);
  }

  ghost predicate Removed(c: seq<int>, d: seq<int>, t: int) {
    if t in c then exists k: nat :: k < |c| && c[k] == t && d == Without(c, k) else d == c
  }

  lemma PosIs(next: seq<int>, head: int, tail: int, c: seq<int>, k: nat)
    requires Chain(next, head, tail, c) && k < |c|
    ensures tail == c[k] <==> k == |c| - 1
    ensures k > 0 ==> c[k - 1] != NIL && |c| > 1
  {
    if k > 0 { assert Hop(next, c, k - 1); }
  }

  lemma Unqueued(prio: seq<int>, next: seq<int>, head: seq<int>, tail: seq<int>, bits: seq<bool>, q: seq<seq<int>>,
      t: nat)
    requires Levels(prio, next, head, tail, bits, q) && t < |prio|
    requires var x: int := t; x !in q[Clamp(prio[t])]
    ensures Levels(prio, next[t := NIL], head, tail, bits, q)
  {
    hide Chain, NoDup;
    var p, next' := Clamp(prio[t]), next[t := NIL];
    forall r: nat | r < LEVELS ensures Level(prio, next', head, tail, bits, q, r) {
      assert Level(prio, next, head, tail, bits, q, r);
      if r != p { OtherLevels(prio, next, head, tail, bits, q, p, r, t); }
      ChainFrame(next, head[r], tail[r], q[r], t, NIL);
    }
  }

  lemma HeadIs(next: seq<int>, head: int, tail: int, c: seq<int>)
    requires Chain(next, head, tail, c) && c != []
    ensures head == c[0] && 0 <= head < |next| && (next[head] == NIL <==> |c| == 1) && (|c| == 1 ==> tail == head)
  {
    assert Hop(next, c, 0);
    if |c| > 1 { assert Hop(next, c, 1); }
  }

  /** No thread is in two levels. */
  lemma OtherLevels(prio: seq<int>, next: seq<int>, head: seq<int>, tail: seq<int>, bits: seq<bool>, q: seq<seq<int>>,
      p: nat, r: nat, t: int)
    requires Level(prio, next, head, tail, bits, q, r) && 0 <= t < |prio| && Clamp(prio[t]) == p && r != p
    ensures t !in q[r]
  {
  }

  lemma AddedAll(prio: seq<int>, next: seq<int>, head: seq<int>, tail: seq<int>, bits: seq<bool>, q: seq<seq<int>>,
      t: nat)
    requires Levels(prio, next, head, tail, bits, q) && t < |prio|
    requires var x: int := t; x !in q[Clamp(prio[t])]
    ensures var p := Clamp(prio[t]); tail[p] == NIL || 0 <= tail[p] < |next|
    ensures var p := Clamp(prio[t]);
      var next' := if tail[p] == NIL then next[t := NIL] else next[t := NIL][tail[p] := t];
      var head' := if tail[p] == NIL then head[p := t] else head;
      Levels(prio, next', head', tail[p := t], bits[p := true], q[p := q[p] + [t]])
  {
    hide Chain, NoDup;
    var p := Clamp(prio[t]);
    assert Level(prio, next, head, tail, bits, q, p);
    Appended(next, head[p], tail[p], q[p], t);
    TailIn(next, head[p], tail[p], q[p]);
    var next' := if tail[p] == NIL then next[t := NIL] else next[t := NIL][tail[p] := t];
    var head' := if tail[p] == NIL then head[p := t] else head;
    var tail', bits', q' := tail[p := t], bits[p := true], q[p := q[p] + [t]];
    forall r: nat | r < LEVELS ensures Level(prio, next', head', tail', bits', q', r) {
      assert Level(prio, next, head, tail, bits, q, r);
      if r != p {
        OtherLevels(prio, next, head, tail, bits, q, p, r, t);
        ChainFrame(next, head[r], tail[r], q[r], t, NIL);
        if tail[p] != NIL {
          OtherLevels(prio, next, head, tail, bits, q, p, r, tail[p]);
          ChainFrame(next[t := NIL], head[r], tail[r], q[r], tail[p], t);
        }
      }
    }
  }

  lemma TailIn(next: seq<int>, head: int, tail: int, c: seq<int>)
    requires Chain(next, head, tail, c)
    ensures (tail == NIL <==> c == []) && (c != [] ==> tail == c[|c| - 1])
  {
    if c != [] { assert Hop(next, c, |c| - 1); }
  }

  lemma UnlinkedAll(prio: seq<int>, next: seq<int>, head: seq<int>, tail: seq<int>, bits: seq<bool>, q: seq<seq<int>>,
      p: nat, k: nat)
    requires Levels(prio, next, head, tail, bits, q) && p < LEVELS && k < |q[p]|
    ensures 0 <= q[p][k] < |next| && (k > 0 ==> 0 <= q[p][k - 1] < |next|)
    ensures var c, t := q[p], q[p][k];
      var next' := (if k == 0 then next else next[c[k - 1] := next[t]])[t := NIL];
      var head' := if k == 0 then head[p := next[t]] else head;
      var tail' := if k < |c| - 1 then tail else tail[p := if k == 0 then NIL else c[k - 1]];
      var bits' := if |c| == 1 then bits[p := false] else bits;
      Levels(prio, next', head', tail', bits', q[p := Without(c, k)])
  {
    hide Chain, NoDup;
    assert Level(prio, next, head, tail, bits, q, p);
    var c, t := q[p], q[p][k];
    Unlinked(next, head[p], tail[p], c, k);
    var next' := (if k == 0 then next else next[c[k - 1] := next[t]])[t := NIL];
    var head' := if k == 0 then head[p := next[t]] else head;
    var tail' := if k < |c| - 1 then tail else tail[p := if k == 0 then NIL else c[k - 1]];
    var bits', q' := if |c| == 1 then bits[p := false] else bits, q[p := Without(c, k)];
    forall r: nat | r < LEVELS ensures Level(prio, next', head', tail', bits', q', r) {
      assert Level(prio, next, head, tail, bits, q, r);
      if r != p {
        OtherLevels(prio, next, head, tail, bits, q, p, r, t);
        if k > 0 {
          OtherLevels(prio, next, head, tail, bits, q, p, r, c[k - 1]);
          ChainFrame(next, head[r], tail[r], q[r], c[k - 1], next[t]);
        }
        ChainFrame(if k == 0 then next else next[c[k - 1] := next[t]], head[r], tail[r], q[r], t, NIL);
      }
    }
  }
}
