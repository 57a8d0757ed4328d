/** High-resolution timers: a red-black tree of armed timers ordered by deadline, oldest first among equals. */
module HrTimer {
  import opened RbTree

  /** The fields of `hrtimer_t` beside the embedded tree node. */
  datatype Timer = Timer(deadline: nat, data: int, queued: bool)
  type Timers = map<Ptr, Timer>

  /** What a timer callback does to the queue. */
  datatype Call = Arm(t: Ptr, deadline: nat) | Disarm(t: Ptr)

  ghost predicate Sorted(q: seq<Ptr>, ts: Timers) {
    && (forall i :: 0 <= i < |q| ==> q[i] in ts)
    && (forall i, j :: 0 <= i < j < |q| ==> ts[q[i]].deadline <= ts[q[j]].deadline)
  }

  /** When each timer was last armed. */
  type Stamps = map<Ptr, nat>

  /** Timer `t` comes before `u`: earlier deadline, or the same and armed earlier. */
  ghost predicate Before(ts: Timers, stamp: Stamps, t: Ptr, u: Ptr) {
    && t in ts && u in ts && t in stamp && u in stamp
    && (ts[t].deadline < ts[u].deadline || (ts[t].deadline == ts[u].deadline && stamp[t] < stamp[u]))
  }

  ghost predicate Ranked(q: seq<Ptr>, ts: Timers, stamp: Stamps) {
    forall i, j {:trigger q[i], q[j]} :: 0 <= i < j < |q| ==> Before(ts, stamp, q[i], q[j])
  }

  /** All were armed before `ticks`, and they are ranked by deadline and then by arming. */
  ghost predicate Aged(q: seq<Ptr>, ts: Timers, stamp: Stamps, ticks: nat) {
    Ranked(q, ts, stamp) && forall i {:trigger q[i]} :: 0 <= i < |q| ==>
      q[i] in ts && q[i] in stamp && stamp[q[i]] < ticks
  }

  // ---------------------------------------------------------------- sequences of timers

  ghost function Minus(q: seq<Ptr>, out: set<Ptr>): (r: seq<Ptr>)
    ensures |r| <= |q|
  {
    if q == [] then [] else (if q[0] in out then [] else [q[0]]) + Minus(q[1..], out)
  }

  /** The timers that have expired at `now`, in queue order. */
  ghost function Due(q: seq<Ptr>, ts: Timers, now: nat): seq<Ptr> {
    if q == [] then []
    else (if q[0] in ts && ts[q[0]].deadline <= now then [q[0]] else []) + Due(q[1..], ts, now)
  }

  lemma {:induction false} MinusConcat(a: seq<Ptr>, b: seq<Ptr>, out: set<Ptr>)
    ensures Minus(a + b, out) == Minus(a, out) + Minus(b, out)
  {
    if a == [] {
      assert a + b == b;
    } else {
      assert (a + b)[1..] == a[1..] + b;
      MinusConcat(a[1..], b, out);
    }
  }

  lemma {:induction false} MinusNone(q: seq<Ptr>, out: set<Ptr>)
    requires forall i :: 0 <= i < |q| ==> q[i] !in out
    ensures Minus(q, out) == q
  {
    if q != [] { MinusNone(q[1..], out); }
  }

  lemma {:induction false} MinusTwice(q: seq<Ptr>, a: set<Ptr>, b: set<Ptr>)
    ensures Minus(Minus(q, a), b) == Minus(q, a + b)
  {
    if q != [] {
      MinusTwice(q[1..], a, b);
      MinusConcat(if q[0] in a then [] else [q[0]], Minus(q[1..], a), b);
    }
  }

  lemma {:induction false} DueConcat(a: seq<Ptr>, b: seq<Ptr>, ts: Timers, now: nat)
    ensures Due(a + b, ts, now) == Due(a, ts, now) + Due(b, ts, now)
  {
    if a == [] {
      assert a + b == b;
    } else {
      assert (a + b)[1..] == a[1..] + b;
      DueConcat(a[1..], b, ts, now);
    }
  }

  lemma {:induction false} DueMinus(q: seq<Ptr>, ts: Timers, now: nat, out: set<Ptr>)
    ensures Due(Minus(q, out), ts, now) == Minus(Due(q, ts, now), out)
  {
    if q != [] {
      DueMinus(q[1..], ts, now, out);
      DueConcat(if q[0] in out then [] else [q[0]], Minus(q[1..], out), ts, now);
      MinusConcat(if q[0] in ts && ts[q[0]].deadline <= now then [q[0]] else [], Due(q[1..], ts, now), out);
    }
  }

  lemma {:induction false} DueSame(q: seq<Ptr>, ts: Timers, ts': Timers, now: nat)
    requires forall i :: 0 <= i < |q| ==> q[i] in ts && q[i] in ts' && ts'[q[i]].deadline == ts[q[i]].deadline
    ensures Due(q, ts', now) == Due(q, ts, now)
  {
    if q != [] { DueSame(q[1..], ts, ts', now); }
  }

  /** In a sorted queue nothing is due exactly when the first timer is not. */
  lemma {:induction false} DueHead(q: seq<Ptr>, ts: Timers, now: nat)
    requires Sorted(q, ts)
    ensures q == [] || ts[q[0]].deadline > now ==> Due(q, ts, now) == []
    ensures q != [] && ts[q[0]].deadline <= now ==> Due(q, ts, now) == [q[0]] + Due(q[1..], ts, now)
  {
    if q != [] {
      assert Sorted(q[1..], ts);
      DueHead(q[1..], ts, now);
    }
  }

  lemma {:induction false} MinusAt(q: seq<Ptr>, k: int)
    requires 0 <= k < |q| && forall i :: 0 <= i < |q| && i != k ==> q[i] != q[k]
    ensures Minus(q, {q[k]}) == Drop(q, k)
  {
    if k == 0 {
      MinusNone(q[1..], {q[0]});
    } else {
      MinusAt(q[1..], k - 1);
      assert Drop(q, k) == [q[0]] + Drop(q[1..], k - 1);
    }
  }

  lemma DropIsMinus(s: Spans, order: seq<Ptr>, z: Ptr)
    requires Listed(s, order) && z in s
    ensures 0 <= s[z].pos < |order| && Drop(order, s[z].pos) == Minus(order, {z})
  {
    forall i | 0 <= i < |order| && i != s[z].pos ensures order[i] != z { assert s[order[i]].pos == i; }
    MinusAt(order, s[z].pos);
  }

  // ---------------------------------------------------------------- arming

  /** Where a timer with this deadline goes: behind every timer that is not later. */
  ghost predicate Fits(q: seq<Ptr>, ts: Timers, deadline: nat, k: int) {
    && 0 <= k <= |q|
    && (forall i :: 0 <= i < k ==> q[i] in ts && ts[q[i]].deadline <= deadline)
    && (forall i :: k <= i < |q| ==> q[i] in ts && ts[q[i]].deadline > deadline)
  }

  /** The queue after `t` was armed: `t` leaves its old place and goes behind every timer that is not later. */
  ghost predicate Armed(q: seq<Ptr>, ts: Timers, t: Ptr, deadline: nat, q': seq<Ptr>) {
    exists k :: Fits(Minus(q, {t}), ts, deadline, k) && q' == Insert(Minus(q, {t}), k, t)
  }

  lemma DueInsert(q: seq<Ptr>, ts: Timers, now: nat, k: int, t: Ptr)
    requires 0 <= k <= |q| && t in ts && ts[t].deadline > now
    ensures Due(Insert(q, k, t), ts, now) == Due(q, ts, now)
  {
    assert q == q[..k] + q[k..];
    DueConcat(q[..k], q[k..], ts, now);
    DueConcat(q[..k] + [t], q[k..], ts, now);
    DueConcat(q[..k], [t], ts, now);
  }

  lemma {:induction false} MinusIn(q: seq<Ptr>, out: set<Ptr>, x: Ptr)
    ensures x in Minus(q, out) <==> x in q && x !in out
  {
    if q != [] { MinusIn(q[1..], out, x); }
  }

  lemma {:induction false} MinusSorted(q: seq<Ptr>, ts: Timers, out: set<Ptr>)
    requires Sorted(q, ts)
    ensures Sorted(Minus(q, out), ts)
  {
    if q != [] {
      assert Sorted(q[1..], ts);
      MinusSorted(q[1..], ts, out);
      var m := Minus(q[1..], out);
      forall j | 0 <= j < |m| ensures ts[q[0]].deadline <= ts[m[j]].deadline {
        MinusIn(q[1..], out, m[j]);
      }
    }
  }

  lemma InsertSorted(q: seq<Ptr>, ts: Timers, k: int, t: Ptr)
    requires Sorted(q, ts) && t in ts && Fits(q, ts, ts[t].deadline, k)
    ensures Sorted(Insert(q, k, t), ts)
  {
  }

  lemma SortedOther(q: seq<Ptr>, ts: Timers, t: Ptr, c: Timer)
    requires Sorted(q, ts) && t !in q
    ensures Sorted(q, ts[t := c])
  {
  }

  /** A ranking only depends on the first being before all the others, and so on. */
  lemma RankedTail(ts: Timers, stamp: Stamps, x: Ptr, r: seq<Ptr>)
    requires Ranked(r, ts, stamp) && forall y {:trigger y in r} :: y in r ==> Before(ts, stamp, x, y)
    ensures Ranked([x] + r, ts, stamp)
  {
    var m := [x] + r;
    forall i, j | 0 <= i < j < |m| ensures Before(ts, stamp, m[i], m[j]) {
      assert m[j] == r[j - 1] && m[j] in r;
      if i > 0 { assert m[i] == r[i - 1]; }
    }
  }

  lemma RankedSplit(q: seq<Ptr>, ts: Timers, stamp: Stamps)
    requires Ranked(q, ts, stamp) && q != []
    ensures Ranked(q[1..], ts, stamp) && forall y {:trigger y in q[1..]} :: y in q[1..] ==> Before(ts, stamp, q[0], y)
  {
    forall y | y in q[1..] ensures Before(ts, stamp, q[0], y) {
      var j :| 0 <= j < |q| - 1 && q[1..][j] == y;
      assert q[j + 1] == y;
    }
  }

  lemma {:induction false} MinusRanked(q: seq<Ptr>, ts: Timers, stamp: Stamps, out: set<Ptr>)
    requires Ranked(q, ts, stamp)
    ensures Ranked(Minus(q, out), ts, stamp)
  {
    hide Ranked, Before;
    if q != [] {
      RankedSplit(q, ts, stamp);
      MinusRanked(q[1..], ts, stamp, out);
      var m := Minus(q[1..], out);
      if q[0] in out {
        assert Minus(q, out) == m;
      } else {
        forall y | y in m ensures Before(ts, stamp, q[0], y) { MinusIn(q[1..], out, y); }
        RankedTail(ts, stamp, q[0], m);
      }
    } else {
      assert Minus(q, out) == q;
    }
  }

  lemma {:induction false} DueIn(q: seq<Ptr>, ts: Timers, now: nat, x: Ptr)
    ensures x in Due(q, ts, now) <==> x in q && x in ts && ts[x].deadline <= now
  {
    if q != [] { DueIn(q[1..], ts, now, x); }
  }

  lemma {:induction false} DueRanked(q: seq<Ptr>, ts: Timers, stamp: Stamps, now: nat)
    requires Ranked(q, ts, stamp)
    ensures Ranked(Due(q, ts, now), ts, stamp)
  {
    hide Ranked, Before;
    if q != [] {
      RankedSplit(q, ts, stamp);
      DueRanked(q[1..], ts, stamp, now);
      var d := Due(q[1..], ts, now);
      if q[0] in ts && ts[q[0]].deadline <= now {
        forall y | y in d ensures Before(ts, stamp, q[0], y) { DueIn(q[1..], ts, now, y); }
        RankedTail(ts, stamp, q[0], d);
      } else {
        assert Due(q, ts, now) == d;
      }
    } else {
      assert Due(q, ts, now) == q;
    }
  }

  lemma MinusAged(q: seq<Ptr>, ts: Timers, stamp: Stamps, ticks: nat, out: set<Ptr>)
    requires Aged(q, ts, stamp, ticks)
    ensures Aged(Minus(q, out), ts, stamp, ticks)
  {
    hide Ranked, Minus;
    MinusRanked(q, ts, stamp, out);
    var m := Minus(q, out);
    forall i | 0 <= i < |m| ensures m[i] in ts && m[i] in stamp && stamp[m[i]] < ticks {
      MinusIn(q, out, m[i]);
    }
  }

  lemma InsertAged(q: seq<Ptr>, ts: Timers, stamp: Stamps, ticks: nat, k: int, t: Ptr)
    requires Aged(q, ts, stamp, ticks) && t in ts && t !in q && Fits(q, ts, ts[t].deadline, k)
    ensures Aged(Insert(q, k, t), ts, stamp[t := ticks], ticks + 1)
  {
    var m := Insert(q, k, t);
    forall i, j | 0 <= i < j < |m| ensures Before(ts, stamp[t := ticks], m[i], m[j]) {
      var a, b := if i < k then i else i - 1, if j < k then j else j - 1;
      if i != k && j != k { assert q[a] == m[i] && q[b] == m[j]; }
      if i == k { assert m[j] == q[j - 1]; }
      if j == k { assert m[i] == q[i]; }
    }
  }

  /** Fields other than the deadline, and timers that are not queued, do not matter. */
  lemma AgedOther(q: seq<Ptr>, ts: Timers, stamp: Stamps, ticks: nat, t: Ptr, c: Timer)
    requires Aged(q, ts, stamp, ticks) && (t !in q || (t in ts && ts[t].deadline == c.deadline))
    ensures Aged(q, ts[t := c], stamp, ticks)
  {
    forall i, j | 0 <= i < j < |q|
      ensures Before(ts[t := c], stamp, q[i], q[j])
    {
      assert Before(ts, stamp, q[i], q[j]);
    }
  }

  lemma MinusShorter(order: seq<Ptr>, s: Spans, t: Ptr)
    requires Listed(s, order) && t in s
    ensures |Minus(order, {t})| == |order| - 1
  {
    DropIsMinus(s, order, t);
  }

  lemma FirstQueued(s: Spans, order: seq<Ptr>)
    requires Listed(s, order) && order != []
    ensures order[0] in s
  {
  }

  lemma Unqueued(s: Spans, order: seq<Ptr>, t: Ptr)
    requires Listed(s, order) && t !in s
    ensures Minus(order, {t}) == order
  {
    MinusNone(order, {t});
  }

  lemma MinusOut(o: seq<Ptr>, t: Ptr)
    ensures t !in Minus(o, {t})
  {
    MinusIn(o, {t}, t);
  }

  // ---------------------------------------------------------------- firing

  ghost function Targets(cs: seq<Call>): set<Ptr> { set i | 0 <= i < |cs| :: cs[i].t }

  ghost function CallsOf(script: map<Ptr, seq<Call>>, t: Ptr): seq<Call> { if t in script then script[t] else [] }

  /** The timers fired for the due queue `q` when callbacks behave as in `script`: in order, except that a timer some
      earlier callback re-armed or cancelled is not fired. */
  ghost function Fires(q: seq<Ptr>, script: map<Ptr, seq<Call>>): seq<Ptr>
    decreases |q|
  {
    if q == [] then [] else [q[0]] + Fires(Minus(q[1..], {q[0]} + Targets(CallsOf(script, q[0]))), script)
  }

  lemma MinusHead(q: seq<Ptr>, out: set<Ptr>)
    requires q != [] && q[0] in out
    ensures Minus(q, out) == Minus(q[1..], out) && |Minus(q, out)| < |q|
  {
  }

  lemma FiresNil(script: map<Ptr, seq<Call>>)
    ensures Fires([], script) == []
  {
  }

  lemma FiresFirst(q: seq<Ptr>, script: map<Ptr, seq<Call>>)
    requires q != []
    ensures var rest := Minus(q, {q[0]} + Targets(CallsOf(script, q[0])));
      |rest| < |q| && Fires(q, script) == [q[0]] + Fires(rest, script)
  {
    MinusHead(q, {q[0]} + Targets(CallsOf(script, q[0])));
    hide Minus, Targets;
  }

  /** Timers outside `touched` are as they were, in the same order. */
  ghost predicate Untouched(q: seq<Ptr>, ts: Timers, q': seq<Ptr>, ts': Timers, touched: set<Ptr>) {
    && Minus(q', touched) == Minus(q, touched) && ts'.Keys == ts.Keys
    && forall t {:trigger ts'[t]} :: t in ts && t !in touched ==> ts'[t] == ts[t]
  }

  lemma UntouchedNone(q: seq<Ptr>, ts: Timers, touched: set<Ptr>)
    ensures Untouched(q, ts, q, ts, touched)
  {
  }

  lemma UntouchedMore(q0: seq<Ptr>, ts0: Timers, q1: seq<Ptr>, ts1: Timers, q2: seq<Ptr>, ts2: Timers,
      a: set<Ptr>, b: set<Ptr>)
    requires Untouched(q0, ts0, q1, ts1, a) && Untouched(q1, ts1, q2, ts2, b)
    ensures Untouched(q0, ts0, q2, ts2, a + b)
  {
    hide Minus;
    MinusTwice(q0, a, b);
    MinusTwice(q1, a, b);
    MinusTwice(q1, b, a);
    MinusTwice(q2, b, a);
    assert a + b == b + a;
    forall t | t in ts0 && t !in a + b ensures ts2[t] == ts0[t] { assert ts1[t] == ts0[t]; }
  }

  lemma ArmedRest(q: seq<Ptr>, ts: Timers, t: Ptr, deadline: nat, q': seq<Ptr>)
    requires Armed(q, ts, t, deadline, q')
    ensures Minus(q', {t}) == Minus(q, {t})
  {
    hide Minus;
    var r := Minus(q, {t});
    var k :| Fits(r, ts, deadline, k) && q' == Insert(r, k, t);
    InsertMinus(r, k, t);
    MinusTwice(q, {t}, {t});
    assert {t} + {t} == {t};
  }

  lemma InsertMinus(r: seq<Ptr>, k: int, t: Ptr)
    requires 0 <= k <= |r|
    ensures Minus(Insert(r, k, t), {t}) == Minus(r, {t})
  {
    hide Minus;
    JoinMinus(r[..k], t, r[k..]);
    assert r == r[..k] + r[k..];
  }

  lemma JoinMinus(a: seq<Ptr>, t: Ptr, b: seq<Ptr>)
    ensures Minus(a + [t] + b, {t}) == Minus(a + b, {t})
  {
    hide Minus;
    var out := {t};
    MinusConcat(a + [t], b, out);
    MinusConcat(a, [t], out);
    MinusConcat(a, b, out);
    MinusSelf(t);
    assert Minus(a, out) + [] == Minus(a, out);
  }

  lemma MinusSelf(t: Ptr)
    ensures Minus([t], {t}) == []
  {
  }

  /** The timers that fired and those their callbacks armed or cancelled. */
  ghost function TouchedBy(fired: seq<Ptr>, script: map<Ptr, seq<Call>>): set<Ptr> {
    if fired == [] then {}
    else TouchedBy(fired[..|fired| - 1], script) + ({fired[|fired| - 1]} + Targets(CallsOf(script, fired[|fired| - 1])))
  }

  lemma TouchedNone(script: map<Ptr, seq<Call>>)
    ensures TouchedBy([], script) == {}
  {
  }

  lemma TouchedMore(fired: seq<Ptr>, script: map<Ptr, seq<Call>>, t: Ptr)
    ensures TouchedBy(fired + [t], script) == TouchedBy(fired, script) + ({t} + Targets(CallsOf(script, t)))
  {
    assert (fired + [t])[..|fired|] == fired;
  }

  /** Callbacks only touch known timers and re-arm past `now`. */
  ghost predicate Prudent(cs: seq<Call>, known: set<Ptr>, now: nat) {
    forall i :: 0 <= i < |cs| ==> cs[i].t in known && (cs[i].Arm? ==> cs[i].deadline > now)
  }

  /** When no callback touches a timer that is still waiting to fire, all due timers fire, in queue order. */
  lemma {:induction false} AllFire(q: seq<Ptr>, script: map<Ptr, seq<Call>>)
    requires forall i, j :: 0 <= i < j < |q| ==> q[i] != q[j] && q[j] !in Targets(CallsOf(script, q[i]))
    ensures Fires(q, script) == q
  {
    if q != [] {
      var out := {q[0]} + Targets(CallsOf(script, q[0]));
      MinusNone(q[1..], out);
      AllFire(q[1..], script);
    }
  }

  lemma {:induction false} FiresIn(q: seq<Ptr>, script: map<Ptr, seq<Call>>, x: Ptr)
    requires x in Fires(q, script)
    ensures x in q
    decreases |q|
  {
    hide Fires, Minus, Targets;
    if q == [] { FiresNil(script); } else {
      FiresFirst(q, script);
      var out := {q[0]} + Targets(CallsOf(script, q[0]));
      if x != q[0] {
        FiresIn(Minus(q, out), script, x);
        MinusIn(q, out, x);
      }
    }
  }

  /** Whatever callbacks do, timers fire in order of deadline and, among equal ones, of arming; so none fires twice. */
  lemma {:induction false} FiresRanked(q: seq<Ptr>, ts: Timers, stamp: Stamps, script: map<Ptr, seq<Call>>)
    requires Ranked(q, ts, stamp)
    ensures Ranked(Fires(q, script), ts, stamp)
    decreases |q|
  {
    hide Fires, Minus, Targets, Ranked, Before;
    if q == [] {
      FiresNil(script);
    } else {
      FiresFirst(q, script);
      var out := {q[0]} + Targets(CallsOf(script, q[0]));
      var rest := Minus(q, out);
      MinusRanked(q, ts, stamp, out);
      FiresRanked(rest, ts, stamp, script);
      RankedSplit(q, ts, stamp);
      forall y | y in Fires(rest, script) ensures Before(ts, stamp, q[0], y) {
        FiresIn(rest, script, y);
        MinusIn(q, out, y);
        InTail(q, y);
      }
      RankedTail(ts, stamp, q[0], Fires(rest, script));
    }
  }

  lemma InTail(q: seq<Ptr>, y: Ptr)
    requires q != [] && y in q && y != q[0]
    ensures y in q[1..]
  {
  }

  lemma DueArmed(q: seq<Ptr>, ts: Timers, t: Ptr, ts': Timers, q': seq<Ptr>, now: nat)
    requires Sorted(q, ts) && t in ts' && ts'[t].deadline > now && Armed(q, ts', t, ts'[t].deadline, q')
    requires forall u :: u in ts && u != t ==> u in ts' && ts'[u].deadline == ts[u].deadline
    ensures Due(q', ts', now) == Minus(Due(q, ts, now), {t})
  {
    var r := Minus(q, {t});
    var k :| Fits(r, ts', ts'[t].deadline, k) && q' == Insert(r, k, t);
    DueInsert(r, ts', now, k, t);
    forall i | 0 <= i < |r|
      ensures r[i] in ts && r[i] in ts' && ts'[r[i]].deadline == ts[r[i]].deadline
    {
      MinusIn(q, {t}, r[i]);
    }
    DueSame(r, ts, ts', now);
    DueMinus(q, ts, now, {t});
  }

  lemma DueCancelled(q: seq<Ptr>, ts: Timers, t: Ptr, ts': Timers, now: nat)
    requires Sorted(q, ts) && forall u :: u in ts ==> u in ts' && ts'[u].deadline == ts[u].deadline
    ensures Due(Minus(q, {t}), ts', now) == Minus(Due(q, ts, now), {t})
  {
    var r := Minus(q, {t});
    forall i | 0 <= i < |r|
      ensures r[i] in ts && r[i] in ts' && ts'[r[i]].deadline == ts[r[i]].deadline
    {
      MinusIn(q, {t}, r[i]);
    }
    DueSame(r, ts, ts', now);
    DueMinus(q, ts, now, {t});
  }

  ghost function Carrying(ts: Timers, data: int): set<Ptr> { set t | t in ts && ts[t].data == data }

  lemma CancelDone(q0: seq<Ptr>, q: seq<Ptr>, ts0: Timers, ts: Timers, data: int, gone: set<Ptr>)
    requires q == Minus(q0, gone) && gone <= Carrying(ts0, data) && ts.Keys == ts0.Keys
    requires forall i :: 0 <= i < |q| ==> q[i] in ts && ts[q[i]].data != data
    requires forall t {:trigger ts[t]} :: t in ts ==> ts[t].data == ts0[t].data
    ensures q == Minus(q0, Carrying(ts0, data))
  {
    MinusTwice(q0, gone, Carrying(ts0, data));
    assert gone + Carrying(ts0, data) == Carrying(ts0, data);
    forall i | 0 <= i < |q| ensures q[i] !in Carrying(ts0, data) {
      var x := q[i];
      assert ts[x].data != data && ts0[x].data != data;
    }
    MinusNone(q, Carrying(ts0, data));
  }

  /** The tree-backed timer queue. */
  class HrTimerBase {
    const tree: RbRoot
    var timers: Timers

    /** When each timer was last armed, counted in armings. */
    ghost var stamp: Stamps
    ghost var ticks: nat

    ghost predicate Valid()
      reads this, tree
    {
      && tree.Valid()
      && timers.Keys <= tree.mem.Keys && NULL !in timers
      && (forall t {:trigger timers[t]} :: t in timers ==> (timers[t].queued <==> t in tree.s))
      && tree.s.Keys <= timers.Keys && Sorted(tree.order, timers) && Aged(tree.order, timers, stamp, ticks)
    }

    /** No timer is armed yet. */
    constructor (m: Mem, ts: Timers)
      requires ts.Keys <= m.Keys && NULL !in ts && forall t :: t in ts ==> !ts[t].queued
      ensures Valid() && timers == ts && tree.order == [] && fresh(tree)
    {
      tree := new RbRoot(m);
      timers := ts;
      stamp, ticks := map[], 0;
    }

    /** The descent of `enqueue`: go right unless the deadline is earlier. */
    method FindSlot(t: Ptr) returns (parent: Ptr, side: Side, leftmost: bool, ghost k: int)
      requires Valid() && t in timers
      ensures Slot(tree.mem, tree.node, tree.s, parent, side, k) && (leftmost <==> k == 0)
      ensures Fits(tree.order, timers, timers[t].deadline, k)
    {
      parent, side, leftmost := NULL, L, true;
      var link := tree.node;
      ghost var lo, hi := 0, |tree.order|;
      while link != NULL
        invariant 0 <= lo <= hi <= |tree.order| && (leftmost <==> lo == 0)
        invariant HangsAt(tree.mem, tree.s, link, parent, lo, hi)
        invariant parent == NULL ==> link == tree.node && lo == 0
        invariant parent != NULL ==> parent in tree.s && parent in tree.mem && tree.mem[parent].Kid(side) == link
        invariant parent != NULL ==> (if side.L? then hi else lo) == tree.s[parent].pos + (if side.L? then 0 else 1)
        invariant forall i :: 0 <= i < lo ==> timers[tree.order[i]].deadline <= timers[t].deadline
        invariant forall i :: hi <= i < |tree.order| ==> timers[tree.order[i]].deadline > timers[t].deadline
        decreases hi - lo
      {
        parent := link;
        assert Ok(tree.mem, tree.node, tree.s, parent);
        assert tree.order[tree.s[parent].pos] == parent;
        if timers[t].deadline < timers[parent].deadline {
          link, side := tree.mem[parent].left, L;
          hi := tree.s[parent].pos;
        } else {
          link, side, leftmost := tree.mem[parent].right, R, false;
          lo := tree.s[parent].pos + 1;
        }
      }
      k := lo;
    }

    /** `enqueue`: hang `t` behind every timer that is not later. */
    method Enqueue(t: Ptr)
      requires Valid() && t in timers && !timers[t].queued
      modifies this`timers, this`stamp, this`ticks, tree
      ensures Valid() && timers == old(timers)[t := old(timers)[t].(queued := true)]
      ensures exists k ::
        Fits(old(tree.order), timers, timers[t].deadline, k) && tree.order == Insert(old(tree.order), k, t)
      ensures stamp == old(stamp)[t := old(ticks)] && ticks == old(ticks) + 1
    {
      hide Aged, Sorted, RbRoot.Valid;
      TreeListed(tree);
      var parent, side, leftmost, k := FindSlot(t);
      Enqueued(tree.s, tree.order, timers, stamp, ticks, k, t);
      tree.LinkAndFix(t, parent, side, leftmost, k);
      timers := timers[t := timers[t].(queued := true)];
      stamp, ticks := stamp[t := ticks], ticks + 1;
    }

    /** `dequeue`: take `t` out of the tree; everybody else keeps their place. */
    method Dequeue(t: Ptr)
      requires Valid() && t in timers && timers[t].queued
      modifies this`timers, tree
      ensures Valid() && timers == old(timers)[t := old(timers)[t].(queued := false)]
      ensures tree.order == Minus(old(tree.order), {t})
    {
      hide Aged, Sorted, Minus, RbRoot.Valid;
      TreeListed(tree);
      Dequeued(tree.s, tree.order, timers, stamp, ticks, t);
      tree.Erase(t);
      timers := timers[t := timers[t].(queued := false)];
    }

    /** `hrtimer_start`: arm `t`, moving it if it is armed already. */
    method Start(t: Ptr, deadline: nat)
      requires Valid() && t in timers
      modifies this`timers, this`stamp, this`ticks, tree
      ensures Valid() && timers == old(timers)[t := old(timers)[t].(deadline := deadline, queued := true)]
      ensures Armed(old(tree.order), timers, t, deadline, tree.order)
      ensures stamp == old(stamp)[t := old(ticks)] && ticks == old(ticks) + 1
    {
      hide Minus, Sorted, Wired, Balanced, Aged;
      if timers[t].queued {
        Dequeue(t);
      } else {
        Unqueued(tree.s, tree.order, t);
      }
      MinusOut(old(tree.order), t);
      SortedOther(tree.order, timers, t, timers[t].(deadline := deadline));
      AgedOther(tree.order, timers, stamp, ticks, t, timers[t].(deadline := deadline));
      timers := timers[t := timers[t].(deadline := deadline)];
      Enqueue(t);
    }

    /** `hrtimer_cancel`. */
    method Cancel(t: Ptr) returns (wasActive: bool)
      requires Valid() && t in timers
      modifies this`timers, tree
      ensures Valid() && wasActive == old(timers)[t].queued
      ensures timers == old(timers)[t := old(timers)[t].(queued := false)]
      ensures tree.order == Minus(old(tree.order), {t})
    {
      wasActive := timers[t].queued;
      if wasActive { Dequeue(t); } else { Unqueued(tree.s, tree.order, t); }
    }

    method RunCall(c: Call, ghost now: nat)
      requires Valid() && c.t in timers && (c.Arm? ==> c.deadline > now)
      modifies this`timers, this`stamp, this`ticks, tree
      ensures Valid() && timers.Keys == old(timers).Keys
      ensures Due(tree.order, timers, now) == Minus(old(Due(tree.order, timers, now)), {c.t})
      ensures Untouched(old(tree.order), old(timers), tree.order, timers, {c.t})
      ensures timers[c.t] == old(timers)[c.t].(deadline := if c.Arm? then c.deadline
        else old(timers)[c.t].deadline, queued := c.Arm?)
    {
      hide Minus, Due, Sorted, RbRoot.Shape, RbRoot.Valid, Aged;
      ghost var q, ts := tree.order, timers;
      match c {
        case Arm(t, deadline) =>
          Start(t, deadline);
          DueArmed(q, ts, t, timers, tree.order, now);
          ArmedRest(q, timers, t, deadline, tree.order);
        case Disarm(t) =>
          var _ := Cancel(t);
          DueCancelled(q, ts, t, timers, now);
          MinusTwice(q, {t}, {t});
          assert {t} + {t} == {t};
      }
    }

    /** What one callback does: arm and cancel timers. */
    method RunCalls(cs: seq<Call>, ghost now: nat)
      requires Valid() && Prudent(cs, timers.Keys, now)
      modifies this`timers, this`stamp, this`ticks, tree
      ensures Valid() && timers.Keys == old(timers).Keys
      ensures Due(tree.order, timers, now) == Minus(old(Due(tree.order, timers, now)), Targets(cs))
      ensures Untouched(old(tree.order), old(timers), tree.order, timers, Targets(cs))
    {
      hide Valid, Minus, Due, Untouched;
      ghost var due := Due(tree.order, timers, now);
      MinusNone(due, {});
      assert Targets(cs[..0]) == {};
      UntouchedNone(tree.order, timers, {});
      for i := 0 to |cs|
        invariant Valid() && timers.Keys == old(timers).Keys
        invariant Due(tree.order, timers, now) == Minus(due, Targets(cs[..i]))
        invariant Untouched(old(tree.order), old(timers), tree.order, timers, Targets(cs[..i]))
      {
        ghost var q1, ts1 := tree.order, timers;
        assert Targets(cs[..i + 1]) == Targets(cs[..i]) + {cs[i].t};
        MinusTwice(due, Targets(cs[..i]), {cs[i].t});
        RunCall(cs[i], now);
        UntouchedMore(old(tree.order), old(timers), q1, ts1, tree.order, timers, Targets(cs[..i]), {cs[i].t});
      }
      assert cs[..|cs|] == cs;
    }

    /** Take the leftmost timer out and run its callback. */
    method Fire(t: Ptr, ghost now: nat, cs: seq<Call>)
      requires Valid() && t in timers && tree.order != [] && t == tree.order[0] && Prudent(cs, timers.Keys, now)
      modifies this`timers, this`stamp, this`ticks, tree
      ensures Valid() && timers.Keys == old(timers).Keys
      ensures Due(tree.order, timers, now) == Minus(old(Due(tree.order, timers, now)), {t} + Targets(cs))
      ensures Untouched(old(tree.order), old(timers), tree.order, timers, {t} + Targets(cs))
    {
      ghost var q, ts := tree.order, timers;
      assert timers[t].queued;
      hide Minus, Due, Sorted, RbRoot.Shape, RbRoot.Valid, Aged;
      Dequeue(t);
      DueCancelled(q, ts, t, timers, now);
      MinusTwice(Due(q, ts, now), {t}, Targets(cs));
      MinusTwice(q, {t}, {t});
      assert {t} + {t} == {t};
      ghost var q1, ts1 := tree.order, timers;
      assert Untouched(q, ts, q1, ts1, {t});
      RunCalls(cs, now);
      UntouchedMore(q, ts, q1, ts1, tree.order, timers, {t}, Targets(cs));
    }

    /** One round of the expiry loop: fire the leftmost timer if it is due. */
    method FireNext(now: nat, script: map<Ptr, seq<Call>>) returns (t: Ptr)
      requires Valid() && forall u :: u in script ==> Prudent(script[u], timers.Keys, now)
      modifies this`timers, this`stamp, this`ticks, tree
      ensures Valid() && timers.Keys == old(timers).Keys
      ensures t == NULL ==> Due(tree.order, timers, now) == old(Due(tree.order, timers, now)) == []
      ensures t != NULL ==> var d := old(Due(tree.order, timers, now));
        d != [] && d[0] == t && Due(tree.order, timers, now) == Minus(d, {t} + Targets(CallsOf(script, t)))
      ensures t == NULL ==> tree.order == old(tree.order) && timers == old(timers)
      ensures t != NULL ==>
        Untouched(old(tree.order), old(timers), tree.order, timers, {t} + Targets(CallsOf(script, t)))
    {
      DueHead(tree.order, timers, now);
      hide Minus, Due, Wired, Balanced, Aged;
      t := tree.leftmost;
      if t == NULL { return; }
      FirstQueued(tree.s, tree.order);
      if timers[t].deadline > now { return NULL; }
      Fire(t, now, if t in script then script[t] else []);
    }

    /** `hrtimer_run_expired`: fire the due timers from the left until none is due at the sampled `now`.  Timers that
        did not fire and that no callback touched keep their deadline and their place.  Those that fire do so in order
        of deadline and, among equal ones, of arming. */
    method RunExpired(now: nat, script: map<Ptr, seq<Call>>) returns (fired: seq<Ptr>)
      requires Valid() && forall t :: t in script ==> Prudent(script[t], timers.Keys, now)
      modifies this`timers, this`stamp, this`ticks, tree
      ensures Valid() && timers.Keys == old(timers).Keys
      ensures fired == Fires(old(Due(tree.order, timers, now)), script)
      ensures Due(tree.order, timers, now) == []
      ensures Untouched(old(tree.order), old(timers), tree.order, timers, TouchedBy(fired, script))
      ensures Ranked(fired, old(timers), old(stamp))
      ensures forall t {:trigger t in fired} :: t in fired ==>
        t in old(tree.order) && t in old(timers) && old(timers)[t].deadline <= now
      ensures forall t {:trigger t in tree.order} :: t in tree.order ==> t in timers && timers[t].deadline > now
    {
      hide Minus, Due, Valid, Fires, Prudent, Targets, Untouched, TouchedBy, Ranked;
      DueInOrder(this, now, script);
      FiredDue(this, now, script);
      fired := [];
      ghost var due := Due(tree.order, timers, now);
      FiresNil(script);
      TouchedNone(script);
      UntouchedNone(tree.order, timers, {});
      while true
        invariant Valid() && timers.Keys == old(timers).Keys
        invariant fired + Fires(Due(tree.order, timers, now), script) == Fires(due, script)
        invariant Untouched(old(tree.order), old(timers), tree.order, timers, TouchedBy(fired, script))
        decreases |Due(tree.order, timers, now)|
      {
        ghost var d, f, q1, ts1 := Due(tree.order, timers, now), fired, tree.order, timers;
        var t := FireNext(now, script);
        if t == NULL {
          NoneDue(this, now);
          break;
        }
        FiresFirst(d, script);
        fired := fired + [t];
        TouchedMore(f, script, t);
        UntouchedMore(old(tree.order), old(timers), q1, ts1, tree.order, timers, TouchedBy(f, script),
          {t} + Targets(CallsOf(script, t)));
        assert fired + Fires(Due(tree.order, timers, now), script) == f + Fires(d, script);
      }
    }

    /** The scan from the leftmost timer for one that carries `data`. */
    method FindData(data: int) returns (hit: Ptr)
      requires Valid()
      ensures hit == NULL ==> forall j :: 0 <= j < |tree.order| ==> timers[tree.order[j]].data != data
      ensures hit != NULL ==> hit in tree.s && hit in timers && timers[hit].data == data
    {
      hit := NULL;
      var n := tree.leftmost;
      ghost var i := 0;
      while n != NULL
        invariant 0 <= i <= |tree.order| && n == First(tree.order[i..])
        invariant forall j :: 0 <= j < i ==> timers[tree.order[j]].data != data
        decreases |tree.order| - i
      {
        assert tree.order[i] == n && n in tree.s;
        assert Ok(tree.mem, tree.node, tree.s, n);
        if timers[n].data == data { hit := n; break; }
        n := tree.Next(n);
        i := i + 1;
      }
    }

    /** One round: find a timer that carries `data` and take it out. */
    method CancelFirst(data: int) returns (hit: Ptr)
      requires Valid()
      modifies this`timers, tree
      ensures Valid()
      ensures hit == NULL ==> timers == old(timers) && tree.order == old(tree.order)
      ensures hit == NULL ==> forall j {:trigger tree.order[j]} :: 0 <= j < |tree.order| ==>
        tree.order[j] in timers && timers[tree.order[j]].data != data
      ensures hit != NULL ==> hit in old(timers) && old(timers)[hit].data == data
      ensures hit != NULL ==> timers == old(timers)[hit := old(timers)[hit].(queued := false)]
      ensures hit != NULL ==> tree.order == Minus(old(tree.order), {hit}) && |tree.order| == |old(tree.order)| - 1
    {
      hide Minus, Wired, Balanced, Aged;
      hit := FindData(data);
      if hit != NULL {
        MinusShorter(tree.order, tree.s, hit);
        Dequeue(hit);
      }
    }

    /** `hrtimer_cancel_by_data`: remove every armed timer that carries `data`, keep the order of the rest. */
    method CancelByData(data: int) returns (removed: nat)
      requires Valid()
      modifies this`timers, tree
      ensures Valid() && tree.order == Minus(old(tree.order), Carrying(old(timers), data))
      ensures removed == |old(tree.order)| - |tree.order|
      ensures timers.Keys == old(timers).Keys
      ensures forall t {:trigger timers[t]} :: t in timers ==>
        timers[t] == old(timers)[t] || (old(timers)[t].data == data && timers[t] == old(timers)[t].(queued := false))
    {
      hide Minus, Valid;
      removed := 0;
      ghost var gone: set<Ptr> := {};
      MinusNone(tree.order, {});
      while true
        invariant Valid() && gone <= Carrying(old(timers), data) && timers.Keys == old(timers).Keys
        invariant tree.order == Minus(old(tree.order), gone) && removed == |old(tree.order)| - |tree.order|
        invariant forall t {:trigger timers[t]} :: t in timers ==>
          timers[t] == (if t in gone then old(timers)[t].(queued := false) else old(timers)[t])
        decreases |tree.order|
      {
        var hit := CancelFirst(data);
        if hit == NULL { break; }
        MinusTwice(old(tree.order), gone, {hit});
        gone := gone + {hit};
        removed := removed + 1;
      }
      CancelDone(old(tree.order), tree.order, old(timers), timers, data, gone);
    }
  }

  /** When nothing is due, every armed timer is later than `now`. */
  lemma NoneDue(base: HrTimerBase, now: nat)
    requires base.Valid() && Due(base.tree.order, base.timers, now) == []
    ensures forall t {:trigger t in base.tree.order} :: t in base.tree.order ==>
      t in base.timers && base.timers[t].deadline > now
  {
    hide RbRoot.Valid, Due, Aged;
    forall t | t in base.tree.order ensures t in base.timers && base.timers[t].deadline > now {
      DueIn(base.tree.order, base.timers, now, t);
    }
  }

  /** Whoever fires was armed and due. */
  lemma FiredDue(base: HrTimerBase, now: nat, script: map<Ptr, seq<Call>>)
    requires base.Valid()
    ensures forall t {:trigger t in Fires(Due(base.tree.order, base.timers, now), script)} ::
      t in Fires(Due(base.tree.order, base.timers, now), script) ==>
      t in base.tree.order && t in base.timers && base.timers[t].deadline <= now
  {
    hide RbRoot.Valid, Due, Fires, Aged, Sorted;
    var due := Due(base.tree.order, base.timers, now);
    forall t | t in Fires(due, script)
      ensures t in base.tree.order && t in base.timers && base.timers[t].deadline <= now
    {
      FiresIn(due, script, t);
      DueIn(base.tree.order, base.timers, now, t);
    }
  }

  lemma DueInOrder(base: HrTimerBase, now: nat, script: map<Ptr, seq<Call>>)
    requires base.Valid()
    ensures Ranked(Fires(Due(base.tree.order, base.timers, now), script), base.timers, base.stamp)
  {
    hide RbRoot.Valid, Sorted, Ranked, Due, Fires;
    DueRanked(base.tree.order, base.timers, base.stamp, now);
    FiresRanked(Due(base.tree.order, base.timers, now), base.timers, base.stamp, script);
  }

  lemma TreeListed(tree: RbRoot)
    requires tree.Valid()
    ensures Listed(tree.s, tree.order)
  {
  }

  lemma Enqueued(s: Spans, order: seq<Ptr>, ts: Timers, stamp: Stamps, ticks: nat, k: int, t: Ptr)
    requires Listed(s, order) && t !in s && t in ts && Sorted(order, ts) && Aged(order, ts, stamp, ticks)
    requires Fits(order, ts, ts[t].deadline, k)
    ensures var ts', q := ts[t := ts[t].(queued := true)], Insert(order, k, t);
            Sorted(q, ts') && Aged(q, ts', stamp[t := ticks], ticks + 1)
  {
    hide Aged;
    assert t !in order;
    InsertSorted(order, ts, k, t);
    InsertAged(order, ts, stamp, ticks, k, t);
    AgedOther(Insert(order, k, t), ts, stamp[t := ticks], ticks + 1, t, ts[t].(queued := true));
  }

  lemma Dequeued(s: Spans, order: seq<Ptr>, ts: Timers, stamp: Stamps, ticks: nat, t: Ptr)
    requires Listed(s, order) && t in s && t in ts && Sorted(order, ts) && Aged(order, ts, stamp, ticks)
    ensures 0 <= s[t].pos < |order| && Drop(order, s[t].pos) == Minus(order, {t})
    ensures var ts', q := ts[t := ts[t].(queued := false)], Minus(order, {t});
      Sorted(q, ts') && Aged(q, ts', stamp, ticks)
  {
    hide Aged, Minus;
    DropIsMinus(s, order, t);
    MinusSorted(order, ts, {t});
    MinusAged(order, ts, stamp, ticks, {t});
    AgedOther(Minus(order, {t}), ts, stamp, ticks, t, ts[t].(queued := false));
  }
}
