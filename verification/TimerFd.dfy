/** timerfd: how many interval boundaries have passed, however callbacks and reads interleave.  Times are milliseconds
    in 64 bits. */
module TimerFd {
  import opened Arith

  /** The clock stays below this: it divides a 64-bit tick counter by at least two ticks per millisecond. */
  const CLOCK: nat := 0x8000_0000_0000_0000

  const MILLION := 1_000_000

  datatype Timespec = Timespec(sec: int, nsec: int)

  /** The exact number of milliseconds, and what the code makes of it: neither field is checked. */
  function Exact(ts: Timespec): int { ts.sec * 1000 + ts.nsec / MILLION }

  function Millis(ts: Timespec): (ms: nat)
    ensures ms < DWORD
  {
    (ts.sec % DWORD * 1000 + ts.nsec % DWORD / MILLION) % DWORD
  }

  /** They agree exactly if the nanoseconds are not negative and the result fits. */
  lemma MillisIff(ts: Timespec)
    requires -0x8000_0000_0000_0000 <= ts.sec < 0x8000_0000_0000_0000
    requires -0x8000_0000_0000_0000 <= ts.nsec < 0x8000_0000_0000_0000
    ensures Millis(ts) == Exact(ts) <==> ts.nsec >= 0 && 0 <= Exact(ts) < DWORD
  {
    var s, n := ts.sec % DWORD, ts.nsec % DWORD / MILLION;
    var k := if ts.sec < 0 then 1000 else 0;
    assert s * 1000 == ts.sec * 1000 + k * DWORD;
    if ts.nsec >= 0 {
      assert s * 1000 + n == Exact(ts) + k * DWORD;
      WholeTurns(s * 1000 + n, Exact(ts), k);
    } else {
      assert 0 < n - ts.nsec / MILLION < DWORD;
      OffTurns(s * 1000 + n, Exact(ts), k);
    }
  }

  lemma WholeTurns(a: nat, b: int, k: nat)
    requires a == b + k * DWORD
    ensures a % DWORD == b <==> 0 <= b < DWORD
  {
    if 0 <= b < DWORD { DivMod(k, DWORD, b); }
  }

  lemma OffTurns(a: nat, b: int, k: nat)
    requires 0 < a - b - k * DWORD < DWORD
    ensures a % DWORD != b
  {
    var q := a / DWORD;
    if q > k { MulMono(k + 1, q, DWORD); } else { MulMono(q, k, DWORD); }
  }

  /** The number of boundaries first, first + interval, first + 2 * interval, ... at or before `t`; a one-shot timer
      has one boundary. */
  function Count(first: int, interval: nat, t: int): nat {
    if t < first then 0 else if interval == 0 then 1 else Quot(t - first, interval) + 1
  }

  /** Boundary k is at or before t exactly if it is counted. */
  lemma CountIs(first: int, interval: nat, t: int, k: nat)
    requires interval > 0
    ensures k < Count(first, interval, t) <==> first + k * interval <= t
  {
    if t >= first {
      var q := Quot(t - first, interval);
      QuotRem(t - first, interval);
      Distribute(q, 1, interval);
      if k <= q { MulMono(k, q, interval); } else { MulMono(q + 1, k, interval); }
    } else {
      MulMono(0, k, interval);
    }
  }

  /** The count is the one number whose boundary is still to come while the boundary before it has passed. */
  lemma CountStep(first: int, interval: nat, t: int, n: nat)
    requires interval > 0
    ensures n == Count(first, interval, t) <==> first + n * interval > t && (n > 0 ==> first + (n - 1) * interval <= t)
  {
    CountIs(first, interval, t, n);
    if n > 0 { CountIs(first, interval, t, n - 1); }
  }

  /** The first boundary after `t`. */
  function NextAfter(first: int, interval: nat, t: int): int { first + Count(first, interval, t) * interval }

  /** An interval of at most 2^63 milliseconds never leads past 64 bits. */
  lemma ShortFits(first: nat, interval: nat, t: int)
    requires first < DWORD && interval <= CLOCK && t < CLOCK
    ensures NextAfter(first, interval, t) < DWORD
  {
    hide Count;
    var n := Count(first, interval, t);
    if interval > 0 {
      CountStep(first, interval, t, n);
      if n > 0 { Distribute(n - 1, 1, interval); }
    }
  }

  lemma CountFresh(first: nat, interval: nat)
    ensures Count(first, interval, first - 1) == 0 && NextAfter(first, interval, first - 1) == first
  {
  }

  /** Counting can go on at any boundary reached. */
  lemma CountSplit(first: int, interval: nat, s: int, t: int)
    requires interval > 0 && t >= NextAfter(first, interval, s)
    ensures var next := NextAfter(first, interval, s);
      && Count(first, interval, t) == Count(first, interval, s) + Count(next, interval, t)
      && NextAfter(first, interval, t) == NextAfter(next, interval, t)
  {
    var c, next := Count(first, interval, s), NextAfter(first, interval, s);
    var n := Count(next, interval, t);
    CountStep(next, interval, t, n);
    Distribute(c, n, interval);
    if n > 0 { Distribute(c, n - 1, interval); }
    CountIs(next, interval, t, 0);
    CountStep(first, interval, t, c + n);
  }

  /** Nothing new up to the next boundary. */
  lemma CountSame(first: int, interval: nat, s: int, t: int)
    requires interval > 0 && s <= t < NextAfter(first, interval, s)
    ensures Count(first, interval, t) == Count(first, interval, s)
  {
    CountStep(first, interval, s, Count(first, interval, s));
    CountStep(first, interval, t, Count(first, interval, s));
  }

  // ---------------------------------------------------------------- the catch-up loop in 64 bits

  /** The deadline after `k` rounds. */
  function After(expire: nat, interval: nat, k: nat): nat
  {
    MulMono(0, k, interval);
    Rem(expire + k * interval, DWORD)
  }

  lemma AfterStep(expire: nat, interval: nat, k: nat)
    ensures After(expire, interval, k + 1) == Rem(After(expire, interval, k) + interval, DWORD) < DWORD
    ensures expire < DWORD ==> After(expire, interval, 0) == expire
  {
    hide Rem, Quot;
    var x: nat := expire + k * interval;
    QuotRem(x, DWORD);
    Distribute(k, 1, interval);
    RemShift(Rem(x, DWORD) + interval, Quot(x, DWORD), DWORD);
    QuotRem(x + interval, DWORD);
    SmallRem(expire, DWORD);
  }

  /** The loop stops after `n` rounds. */
  ghost predicate Stops(expire: nat, interval: nat, now: nat, n: nat) {
    now < After(expire, interval, n) && Going(expire, interval, now, n)
  }

  /** The loop does not stop before round `n`. */
  ghost predicate Going(expire: nat, interval: nat, now: nat, n: nat) {
    forall k: nat {:trigger After(expire, interval, k)} :: k < n ==> After(expire, interval, k) <= now
  }

  lemma StopsOnce(expire: nat, interval: nat, now: nat, n: nat, m: nat)
    requires Stops(expire, interval, now, n) && Stops(expire, interval, now, m)
    ensures n == m
  {
    assert now < After(expire, interval, n) && now < After(expire, interval, m);
  }

  /** The rounds are as many as boundaries have passed exactly if the next boundary fits 64 bits; else there are
      more. */
  lemma RightIff(expire: nat, interval: nat, now: nat, n: nat)
    requires 0 < interval < DWORD && expire < DWORD && now < DWORD && Stops(expire, interval, now, n)
    ensures n == Count(expire, interval, now) <==> NextAfter(expire, interval, now) < DWORD
    ensures n >= Count(expire, interval, now)
  {
    hide After, Count;
    var c := Count(expire, interval, now);
    MulMono(0, c, interval);
    var next: nat := expire + c * interval;
    CountStep(expire, interval, now, c);
    forall k: nat | k < c ensures After(expire, interval, k) <= now {
      CountIs(expire, interval, now, k);
      AfterSmall(expire, interval, k);
    }
    assert n >= c;
    if next < DWORD {
      AfterSmall(expire, interval, c);
    } else {
      assert next < now + interval + 1 by { if c > 0 { Distribute(c - 1, 1, interval); } }
      AfterWrapped(expire, interval, c);
    }
  }

  lemma AfterSmall(expire: nat, interval: nat, k: nat)
    requires expire + k * interval < DWORD
    ensures After(expire, interval, k) == expire + k * interval
  {
    MulMono(0, k, interval);
    SmallRem(expire + k * interval, DWORD);
  }

  lemma AfterWrapped(expire: nat, interval: nat, k: nat)
    requires DWORD <= expire + k * interval < 2 * DWORD
    ensures After(expire, interval, k) == expire + k * interval - DWORD
  {
    DivMod(1, DWORD, expire + k * interval - DWORD);
  }

  function Max(a: int, b: int): int { if a < b then b else a }

  datatype Event = Fire(now: nat) | Read(now: nat)

  /** The latest time of `t` and the events. */
  function Latest(t: int, events: seq<Event>): int {
    if events == [] then t else Max(Latest(t, events[..|events| - 1]), events[|events| - 1].now)
  }

  lemma LatestMore(t: int, events: seq<Event>, i: nat)
    requires i < |events|
    ensures Latest(t, events[..i + 1]) == Max(Latest(t, events[..i]), events[i].now)
  {
    assert events[..i + 1][..i] == events[..i];
  }

  class Timer {
    var expire: nat
    var interval: nat
    var expirations: nat
    var armed: bool

    /** The first boundary, the latest time a callback or a read has looked at the clock, and what has been read, since
        the last settime; `live` tells whether that armed the timer. */
    ghost var live: bool
    ghost var first: nat
    ghost var latest: int
    ghost var taken: nat

    /** As many expirations were counted as boundaries have passed. */
    ghost predicate Right()
      reads this
    {
      taken + expirations == Count(first, interval, latest)
    }

    /** The boundary that comes after the latest time. */
    ghost function Next(): int
      reads this
    {
      NextAfter(first, interval, latest)
    }

    /** The count is right exactly as long as the next boundary fits 64 bits; then that is the deadline. */
    ghost predicate Valid()
      reads this
    {
      && expire < DWORD && interval < DWORD && first < DWORD && latest < DWORD
      && if live then
           && (interval > 0 ==> armed && (Right() <==> Next() < DWORD))
           && (interval > 0 && Right() ==> expire == Next())
           && (interval > 0 && !Right() ==> taken + expirations > Count(first, interval, latest))
           && (interval == 0 ==> expire == first && Right() && (armed <==> taken + expirations == 0))
         else !armed && expirations == 0 && taken == 0
    }

    constructor ()
      ensures Valid() && !live
    {
      expire, interval, expirations, armed := 0, 0, 0, false;
      live, first, latest, taken := false, 0, 0, 0;
    }

    /** `do_timerfd_settime`: both zero disarms; otherwise counting starts anew.  Reports the time left to the old
        timer's deadline as seen at `before`, and the delay after which the new one is to fire. */
    method SetTime(before: nat, now: nat, absolute: bool, value: Timespec, period: Timespec)
      returns (left: nat, oldPeriod: nat, delay: nat)
      requires Valid() && before < CLOCK && now < CLOCK
      modifies this
      ensures Valid() && taken == 0 && expirations == 0 && live == (Millis(value) != 0 || Millis(period) != 0)
      ensures live ==> Right() && interval == Millis(period) && latest < first == Next() == expire
      ensures live ==> (first == (if absolute then Millis(value) else now + Millis(value)) <==>
        absolute || now + Millis(value) < DWORD)
      ensures live ==> now + delay == Max(now, Next())
      ensures left == (if old(armed) then Max(0, old(expire) - before) else 0)
      ensures oldPeriod == (if old(armed) then old(interval) else 0)
    {
      hide Millis, Count, NextAfter, Rem;
      left, oldPeriod, delay := 0, 0, 0;
      if armed {
        left, oldPeriod := if expire > before then expire - before else 0, interval;
      }
      taken := 0;
      var ms, every := Millis(value), Millis(period);
      if ms == 0 && every == 0 {
        armed, expirations, live := false, 0, false;
      } else {
        QuotRem(now + ms, DWORD);
        SmallRem(now + ms, DWORD);
        expire := if absolute then ms else Rem(now + ms, DWORD);
        interval, expirations, armed := every, 0, true;
        live, first, latest := true, expire, expire - 1;
        CountFresh(first, interval);
        delay := if expire > now then expire - now else 0;
      }
    }

    /** The catch-up loop of callback and read: one expiration a round until the deadline is after `now`. */
    method Rounds(now: nat) returns (ghost n: nat)
      requires armed && expire < DWORD && interval < DWORD && now < CLOCK
      modifies this`expire, this`expirations, this`armed
      ensures expire < DWORD && expirations == old(expirations) + n
      ensures interval > 0 ==> armed && Stops(old(expire), interval, now, n)
      ensures interval > 0 ==> expire == After(old(expire), interval, n)
      ensures interval == 0 ==> expire == old(expire) && n == (if now >= expire then 1 else 0) && (armed <==> n == 0)
    {
      hide After, Rem;
      n := 0;
      AfterStep(expire, interval, 0);
      while armed && now >= expire
        invariant expire < DWORD && expirations == old(expirations) + n
        invariant interval > 0 ==> armed && expire == After(old(expire), interval, n)
        invariant interval > 0 ==> Going(old(expire), interval, now, n)
        invariant interval == 0 ==> expire == old(expire) && (armed <==> n == 0) && n <= 1 && (n == 1 ==> now >= expire)
        decreases armed, if interval < CLOCK then now - expire else if now >= expire then expire + 1 else 0
      {
        expirations := expirations + 1;
        if interval > 0 {
          AfterStep(old(expire), interval, n);
          Turned(expire, interval);
          expire := Rem(expire + interval, DWORD);
        } else {
          armed := false;
        }
        n := n + 1;
      }
    }

    /** What both make of it. */
    method CatchUp(now: nat)
      requires Valid() && now < CLOCK
      modifies this`expire, this`expirations, this`armed, this`latest
      ensures Valid() && expirations >= old(expirations)
      ensures latest == (if old(armed) then Max(old(latest), now) else old(latest))
      ensures old(armed) && interval > 0 ==> Stops(old(expire), interval, now, expirations - old(expirations))
      ensures old(armed) && interval > 0 ==> now < expire
    {
      hide After, Count, NextAfter;
      if !armed { return; }
      ghost var n := Rounds(now);
      if interval > 0 {
        CaughtUp(first, interval, latest, now, old(expire), n, taken + old(expirations));
      } else {
        OneShot(first, latest, Max(latest, now));
      }
      latest := Max(latest, now);
    }

    /** `timerfd_expire_fn`: nothing for a disarmed timer.  A timer that goes on is started again, to fire at its
        deadline or at once if `later` is already past it. */
    method Expire(now: nat, later: nat) returns (rearm: bool, delay: nat)
      requires Valid() && now < CLOCK && later < CLOCK
      modifies this`expire, this`expirations, this`armed, this`latest
      ensures Valid() && rearm == armed && expirations >= old(expirations)
      ensures rearm ==> later + delay == Max(later, expire) && now < expire
      ensures rearm && Right() ==> expire == Next()
      ensures latest == (if old(armed) then Max(old(latest), now) else old(latest))
    {
      CatchUp(now);
      rearm, delay := armed, if expire > later then expire - later else 0;
    }

    /** `timerfd_collect`: catch up, then hand over and clear what is pending. */
    method Collect(now: nat) returns (val: nat)
      requires Valid() && now < CLOCK
      modifies this`expire, this`expirations, this`armed, this`latest, this`taken
      ensures Valid() && expirations == 0 && taken == old(taken) + val
      ensures latest == (if old(armed) then Max(old(latest), now) else old(latest))
      ensures old(armed) && interval > 0 && val >= old(expirations) ==>
        Stops(old(expire), interval, now, val - old(expirations))
    {
      CatchUp(now);
      val := expirations;
      taken, expirations := taken + val, 0;
    }

    /** Between two settime calls, whatever the order of callbacks and reads and whatever times they see: what was read
        and what is pending are together the boundaries at or before the latest time seen, none missed and none counted
        twice, if and only if the timer is one-shot or the next boundary fits 64 bits. */
    method Run(events: seq<Event>) returns (read: nat)
      requires Valid() && live && forall k :: 0 <= k < |events| ==> events[k].now < CLOCK
      modifies this`expire, this`expirations, this`armed, this`latest, this`taken
      ensures Valid() && taken == old(taken) + read
      ensures var t := Latest(old(latest), events);
        old(taken) + read + expirations == Count(first, interval, t) <==>
        interval == 0 || NextAfter(first, interval, t) < DWORD
    {
      hide Count;
      read := 0;
      for i := 0 to |events|
        invariant Valid() && live && taken == old(taken) + read
        invariant latest <= Latest(old(latest), events[..i])
        invariant armed ==> latest == Latest(old(latest), events[..i])
        invariant interval == 0 ==> taken + expirations == Count(first, interval, Latest(old(latest), events[..i]))
      {
        LatestMore(old(latest), events, i);
        if interval == 0 {
          OneShot(first, latest, Latest(old(latest), events[..i + 1]));
        }
        match events[i] {
          case Fire(now) =>
            var _, _ := Expire(now, now);
          case Read(now) =>
            var v := Collect(now);
            read := read + v;
        }
      }
      assert events[..|events|] == events;
    }
  }

  /** One turn of a period of 2^63 or more takes the deadline back or past every time the clock can show. */
  lemma Turned(expire: nat, interval: nat)
    requires expire < CLOCK && interval < DWORD
    ensures var e := Rem(expire + interval, DWORD);
      && e < DWORD
      && (interval < CLOCK ==> e == expire + interval)
      && (interval >= CLOCK ==> e == expire + interval >= CLOCK || e == expire + interval - DWORD)
  {
    SmallRem(expire + interval, DWORD);
    if expire + interval >= DWORD { DivMod(1, DWORD, expire + interval - DWORD); }
  }

  lemma OneShot(first: nat, s: int, t: int)
    requires s <= t
    ensures Count(first, 0, s) <= Count(first, 0, t) <= 1 && (Count(first, 0, t) == 1 <==> t >= first)
    ensures Count(first, 0, s) == 1 <==> s >= first
  {
  }

  /** What a catch-up of `n` rounds makes of a count of `have`. */
  lemma CaughtUp(first: nat, interval: nat, latest: int, now: nat, expire: nat, n: nat, have: nat)
    requires 0 < interval < DWORD && first < DWORD && now < DWORD && latest < DWORD && expire < DWORD
    requires Stops(expire, interval, now, n)
    requires var c := Count(first, interval, latest);
      && (have == c <==> NextAfter(first, interval, latest) < DWORD) && have >= c
      && (have == c ==> expire == NextAfter(first, interval, latest))
    ensures var t := Max(latest, now); var c := Count(first, interval, t);
      && (have + n == c <==> NextAfter(first, interval, t) < DWORD) && have + n >= c
      && (have + n == c ==> After(expire, interval, n) == NextAfter(first, interval, t))
  {
    hide Count, After;
    var t, next := Max(latest, now), NextAfter(first, interval, latest);
    CountStep(first, interval, latest, Count(first, interval, latest));
    if t < next {
      CountSame(first, interval, latest, t);
      if next < DWORD {
        AfterSmall(expire, interval, 0);
        if n > 0 { assert After(expire, interval, 0) <= now; }
      }
    } else {
      CountSplit(first, interval, latest, t);
      RightIff(expire, interval, now, n);
      if n == Count(expire, interval, now) { AfterSmall(expire, interval, n); }
    }
  }

  /** An interval of minus one second is taken for one of nearly 2^64 milliseconds.  A timer first due at 2.5 s and
      read at 2.6 s then counts three expirations, where one boundary has passed. */
  method NegativeInterval() returns (val: nat)
    ensures val == 3 && Millis(Timespec(-1, 0)) == DWORD - 1000 && Count(2500, DWORD - 1000, 2600) == 1
  {
    hide Millis, Count, NextAfter, Stops;
    CaseTimes();
    var t := new Timer();
    var _, _, _ := t.SetTime(0, 0, true, Timespec(2, 500_000_000), Timespec(-1, 0));
    val := t.Collect(2600);
    Thrice(t.first, t.interval, 2600);
    StopsOnce(t.first, t.interval, 2600, val, 3);
  }

  lemma CaseTimes()
    ensures Millis(Timespec(2, 500_000_000)) == 2500 && Millis(Timespec(-1, 0)) == DWORD - 1000
    ensures Count(2500, DWORD - 1000, 2600) == 1
  {
    assert -1 % DWORD == DWORD - 1;
    DivMod(999, DWORD, DWORD - 1000);
    DivMod(0, DWORD - 1000, 100);
  }

  lemma Thrice(expire: nat, interval: nat, now: nat)
    requires expire == 2500 && interval == DWORD - 1000 && now == 2600
    ensures Stops(expire, interval, now, 3)
  {
    hide After;
    AfterStep(expire, interval, 0);
    AfterStep(expire, interval, 1);
    AfterStep(expire, interval, 2);
    Turned(2500, interval);
    Turned(1500, interval);
    Turned(500, interval);
    forall k: nat | k < 3 ensures After(expire, interval, k) <= now { assert k in {0, 1, 2}; }
  }
}
