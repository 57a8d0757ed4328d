/** A split virtqueue: descriptor chains on a free list, and the available and used rings with 16-bit indices. */
module VirtQueue {
  import opened Arith
  import opened Lists

  const END := 0xFFFF
  const FREE := -1
  const IDX := 0x1_0000

  // ---------------------------------------------------------------- chains

  /** Entry i of the free chain: unowned, and linked to the one after it. */
  ghost predicate FreeLink(next: seq<nat>, owner: seq<int>, free: seq<int>, i: nat)
    requires i < |free|
  {
    && 0 <= free[i] < |next| == |owner| && owner[free[i]] == FREE
    && next[free[i]] == (if i == |free| - 1 then END else free[i + 1])
  }

  ghost predicate FreeOk(next: seq<nat>, owner: seq<int>, head: nat, free: seq<int>) {
    && NoDup(free) && head == (if free == [] then END else free[0])
    && forall i: nat {:trigger FreeLink(next, owner, free, i)} :: i < |free| ==> FreeLink(next, owner, free, i)
  }

  /** Entry i of the chain of head h: owned by h, flagged and linked unless it is the last. */
  ghost predicate Link(next: seq<nat>, more: seq<bool>, owner: seq<int>, c: seq<int>, h: int, i: nat)
    requires i < |c|
  {
    && 0 <= c[i] < |next| == |owner| == |more| && owner[c[i]] == h && more[c[i]] == (i < |c| - 1)
    && (i < |c| - 1 ==> next[c[i]] == c[i + 1])
  }

  ghost predicate ChainOk(next: seq<nat>, more: seq<bool>, owner: seq<int>, c: seq<int>, h: int) {
    && c != [] && c[0] == h && NoDup(c)
    && forall i: nat {:trigger Link(next, more, owner, c, h, i)} :: i < |c| ==> Link(next, more, owner, c, h, i)
  }

  /** Descriptor d is on the free chain or on the chain of its owner. */
  ghost predicate Placed(owner: seq<int>, free: seq<int>, out: map<int, seq<int>>, d: int) {
    0 <= d < |owner| && if owner[d] == FREE then d in free else owner[d] in out && d in out[owner[d]]
  }

  /** The free chain and the outstanding chains are disjoint, because every descriptor has one owner, and together hold
      all descriptors. */
  ghost predicate Chains(next: seq<nat>, more: seq<bool>, owner: seq<int>, head: nat,
      free: seq<int>, out: map<int, seq<int>>) {
    && |next| == |more| == |owner| <= END && FreeOk(next, owner, head, free)
    && (forall h {:trigger out[h]} :: h in out ==> h >= 0 && ChainOk(next, more, owner, out[h], h))
    && forall d {:trigger Placed(owner, free, out, d)} :: 0 <= d < |owner| ==> Placed(owner, free, out, d)
  }

  function Owned(owner: seq<int>, c: seq<int>, h: int): (r: seq<int>)
    ensures |r| == |owner| && forall d {:trigger r[d]} :: 0 <= d < |owner| ==> r[d] == if d in c then h else owner[d]
  {
    seq(|owner|, d requires 0 <= d < |owner| => if d in c then h else owner[d])
  }

  /** A chain of another owner is not touched by changes to descriptors it does not hold. */
  lemma ChainFrame(next: seq<nat>, more: seq<bool>, owner: seq<int>, next': seq<nat>, more': seq<bool>,
      owner': seq<int>, c: seq<int>, h: int)
    requires ChainOk(next, more, owner, c, h) && |next'| == |next| == |more'| == |owner'| == |more| == |owner|
    requires forall d {:trigger owner[d]} :: 0 <= d < |owner| && owner[d] == h ==>
      next'[d] == next[d] && more'[d] == more[d] && owner'[d] == h
    ensures ChainOk(next', more', owner', c, h)
  {
    forall i: nat | i < |c| ensures Link(next', more', owner', c, h, i) { assert Link(next, more, owner, c, h, i); }
  }

  /** Taking the first n descriptors off the free chain. */
  lemma Allocated(next: seq<nat>, more: seq<bool>, owner: seq<int>, head: nat,
      free: seq<int>, out: map<int, seq<int>>, n: nat, more': seq<bool>)
    requires Chains(next, more, owner, head, free, out) && 0 < n <= |free| && |more'| == |more|
    requires forall d {:trigger more'[d]} :: 0 <= d < |more| ==>
      more'[d] == if d in free[..n] then d != free[n - 1] else more[d]
    ensures 0 <= free[n - 1] < |next| && free[0] !in out
    ensures Chains(next[free[n - 1] := 0], more', Owned(owner, free[..n], free[0]), next[free[n - 1]], free[n..],
      out[free[0] := free[..n]])
  {
    var c, h, rest := free[..n], free[0], free[n..];
    var owner', out' := Owned(owner, c, h), out[h := c];
    assert FreeLink(next, owner, free, 0) && FreeLink(next, owner, free, n - 1);
    var next' := next[free[n - 1] := 0];
    forall g | g in out ensures 0 <= g < |owner| && owner[g] == g { HeadOwner(next, more, owner, out[g], g); }
    FreeOwner(next, owner, head, free);
    forall i: nat | i < |rest| ensures FreeLink(next', owner', rest, i) {
      assert FreeLink(next, owner, free, n + i);
      assert free[n + i] != free[n - 1];
      assert rest[i] !in c;
    }
    forall i: nat | i < |c| ensures Link(next', more', owner', c, h, i) {
      assert FreeLink(next, owner, free, i);
      assert c[i] in free[..n];
      assert c[i] == free[n - 1] <==> i == n - 1;
    }
    forall g | g in out' ensures g >= 0 && ChainOk(next', more', owner', out'[g], g) {
      if g != h {
        ChainFrame(next, more, owner, next', more', owner', out[g], g);
      }
    }
    forall d | 0 <= d < |owner| ensures Placed(owner', rest, out', d) {
      assert Placed(owner, free, out, d);
      if owner[d] == FREE { assert free == c + rest; }
    }
  }

  lemma FreeOwner(next: seq<nat>, owner: seq<int>, head: nat, free: seq<int>)
    requires FreeOk(next, owner, head, free)
    ensures forall i {:trigger free[i]} :: 0 <= i < |free| ==> 0 <= free[i] < |owner| && owner[free[i]] == FREE
  {
    forall i: nat | i < |free|
      ensures 0 <= free[i] < |owner| && owner[free[i]] == FREE
    {
      assert FreeLink(next, owner, free, i);
    }
  }

  lemma HeadOwner(next: seq<nat>, more: seq<bool>, owner: seq<int>, c: seq<int>, h: int)
    requires ChainOk(next, more, owner, c, h)
    ensures 0 <= h < |owner| && owner[h] == h
  {
    assert Link(next, more, owner, c, h, 0);
  }

  lemma ChainOwner(next: seq<nat>, more: seq<bool>, owner: seq<int>, c: seq<int>, h: int)
    requires ChainOk(next, more, owner, c, h)
    ensures forall i {:trigger c[i]} :: 0 <= i < |c| ==> 0 <= c[i] < |owner| && owner[c[i]] == h
  {
    forall i: nat | i < |c| ensures 0 <= c[i] < |owner| && owner[c[i]] == h { assert Link(next, more, owner, c, h, i); }
  }

  /** Putting a whole chain back in front of the free chain: only the link of its last descriptor changes. */
  lemma Returned(next: seq<nat>, more: seq<bool>, owner: seq<int>, head: nat,
      free: seq<int>, out: map<int, seq<int>>, h: int)
    requires Chains(next, more, owner, head, free, out) && h in out
    ensures var c := out[h]; var last := c[|c| - 1]; 0 <= last < |next| && 0 <= h < |next|
    ensures var c := out[h]; var last := c[|c| - 1];
      Chains(next[last := head], more, Owned(owner, c, FREE), h, c + free, map g | g in out && g != h :: out[g])
  {
    var c := out[h];
    var last := c[|c| - 1];
    ChainOwner(next, more, owner, c, h);
    FreeOwner(next, owner, head, free);
    HeadOwner(next, more, owner, c, h);
    var next', owner', free', out' := next[last := head], Owned(owner, c, FREE), c + free, map g | g in out &&
      g != h :: out[g];
    forall i: nat | i < |free'| ensures FreeLink(next', owner', free', i) {
      if i < |c| {
        assert Link(next, more, owner, c, h, i);
        assert i < |c| - 1 ==> c[i] != last;
      } else {
        assert FreeLink(next, owner, free, i - |c|);
      }
    }
    assert NoDup(free');
    forall g | g in out' ensures g >= 0 && ChainOk(next', more, owner', out'[g], g) {
      ChainOwner(next, more, owner, out[g], g);
      ChainFrame(next, more, owner, next', more, owner', out[g], g);
    }
    forall d | 0 <= d < |owner| ensures Placed(owner', free', out', d) {
      assert Placed(owner, free, out, d);
    }
  }

  // ---------------------------------------------------------------- the 16-bit ring indices

  /** A free-running 16-bit index names the right ring entry for every position exactly when the ring size divides
      2^16. */
  lemma WrapIff(size: nat)
    requires size > 0
    ensures (forall k: nat {:trigger Rem(k, size)} :: Rem(Rem(k, IDX), size) == Rem(k, size)) <==> Divides(size, IDX)
  {
    if Divides(size, IDX) {
      forall k: nat ensures Rem(Rem(k, IDX), size) == Rem(k, size) { NestedRem(k, IDX, size); }
    } else {
      assert Rem(Rem(IDX, IDX), size) == 0 && Rem(IDX, size) != 0;
    }
  }

  /** The ring entry the code uses for log position `a`. */
  function Slot(a: nat, size: nat): nat
    requires size > 0
  {
    Rem(Rem(a, IDX), size)
  }

  /** A push into a ring that has room never overwrites an entry not yet taken, exactly when the ring size divides
      2^16. */
  lemma OverwriteIff(size: nat)
    requires 0 < size < IDX
    ensures (forall a: nat, b: nat {:trigger Slot(a, size), Slot(b, size)} :: a < b < a + size ==>
      Slot(a, size) != Slot(b, size))
       <==> Divides(size, IDX)
  {
    if Divides(size, IDX) {
      forall a: nat, b: nat | a < b < a + size ensures Slot(a, size) != Slot(b, size) {
        NestedRem(a, IDX, size);
        NestedRem(b, IDX, size);
        RemApart(a, b, size);
      }
    } else {
      var q, r := Quot(IDX, size), Rem(IDX, size);
      QuotRem(IDX, size);
      Distribute(q, 0, size);
      DivMod(q, size, 0);
      DivMod(0, IDX, IDX - r);
      DivMod(1, IDX, 0);
      DivMod(0, size, 0);
      assert Slot(IDX - r, size) == 0 && Slot(IDX, size) == 0;
      assert IDX - r < IDX < IDX - r + size;
    }
  }

  /** A ring of three with one entry waiting, the one at log position 65535: the next push overwrites it. */
  lemma WrapBroken(ring: seq<nat>, log: seq<nat>, v: nat)
    requires |ring| == 3 && |log| == 65536 && ring[Slot(65535, 3)] == log[65535] && v != log[65535]
    ensures ring[Slot(|log|, 3) := v][Slot(65535, 3)] != log[65535]
  {
  }

  /** Position a of the log is still in the ring. */
  ghost predicate Kept(ring: seq<nat>, log: seq<nat>, a: nat) {
    |ring| > 0 && a < |log| && ring[Rem(a, |ring|)] == log[a]
  }

  /** The ring holds the log from position `from` on, and the 16-bit index is its length. */
  ghost predicate RingOk(ring: seq<nat>, idx: nat, log: seq<nat>, from: nat) {
    && Divides(|ring|, IDX) && |ring| < IDX && idx == Rem(|log|, IDX) && from <= |log| <= from + |ring|
    && forall a: nat {:trigger Kept(ring, log, a)} :: from <= a < |log| ==> Kept(ring, log, a)
  }

  lemma Pushed(ring: seq<nat>, idx: nat, log: seq<nat>, from: nat, v: nat)
    requires RingOk(ring, idx, log, from) && |log| < from + |ring|
    ensures Rem(idx, |ring|) < |ring| && RingOk(ring[Rem(idx, |ring|) := v], (idx + 1) % IDX, log + [v], from)
  {
    hide Rem;
    var n := |ring|;
    NestedRem(|log|, IDX, n);
    QuotRem(idx, n);
    NextIdx(|log|);
    var ring', log' := ring[Rem(idx, n) := v], log + [v];
    forall a: nat | from <= a < |log'| ensures Kept(ring', log', a) {
      QuotRem(a, n);
      if a < |log| { assert Kept(ring, log, a); RemApart(a, |log|, n); }
    }
  }

  lemma NextIdx(a: nat)
    ensures (Rem(a, IDX) + 1) % IDX == Rem(a + 1, IDX)
  {
  }

  lemma Popped(ring: seq<nat>, idx: nat, log: seq<nat>, from: nat, at: nat)
    requires RingOk(ring, idx, log, from) && at == Rem(from, IDX)
    ensures idx == at <==> from == |log|
    ensures from < |log| ==>
      Rem(at, |ring|) < |ring| && ring[Rem(at, |ring|)] == log[from] && RingOk(ring, idx, log, from + 1)
  {
    if from < |log| {
      RemApart(from, |log|, IDX);
      NestedRem(from, IDX, |ring|);
      QuotRem(at, |ring|);
      assert Kept(ring, log, from);
    }
  }

  // ---------------------------------------------------------------- counting

  ghost function Elems(s: seq<int>): set<int> { set x | x in s }

  lemma {:induction false} ElemsSize(s: seq<int>)
    requires NoDup(s)
    ensures |Elems(s)| == |s|
  {
    if s != [] {
      var t, x := s[..|s| - 1], s[|s| - 1];
      ElemsSize(t);
      assert Elems(s) == Elems(t) + {x};
      assert x !in Elems(t);
    }
  }

  /** Distinct numbers below n are at most n. */
  lemma Pigeonhole(s: seq<int>, n: nat)
    requires NoDup(s) && forall i {:trigger s[i]} :: 0 <= i < |s| ==> 0 <= s[i] < n
    ensures |s| <= n
  {
    ElemsSize(s);
    BelowIs(n);
    forall i | 0 <= i < |s| ensures s[i] in Below(n) { InBelow(s[i], n); }
    var rest := Below(n) - Elems(s);
    assert Below(n) == Elems(s) + rest;
  }

  ghost function Below(n: nat): set<int> { if n == 0 then {} else Below(n - 1) + {n - 1} }

  lemma {:induction false} InBelow(x: int, n: nat)
    ensures x in Below(n) <==> 0 <= x < n
  {
    if n > 0 { InBelow(x, n - 1); }
  }

  lemma {:induction false} BelowIs(n: nat)
    ensures |Below(n)| == n
  {
    if n > 0 { BelowIs(n - 1); InBelow(n - 1, n - 1); }
  }

  // ---------------------------------------------------------------- the queue

  /** Where the submitted chains are: in the available ring, with the device, or in the used ring; each in one place. */
  ghost predicate Flights(out: map<int, seq<int>>, pending: seq<int>, held: set<int>, back: seq<int>) {
    && NoDup(pending) && NoDup(back)
    && (forall i {:trigger pending[i]} :: 0 <= i < |pending| ==>
      pending[i] in out && pending[i] !in held && pending[i] !in back)
    && (forall x {:trigger x in held} :: x in held ==> x in out && x !in back)
    && forall i {:trigger back[i]} :: 0 <= i < |back| ==> back[i] in out
  }

  class Virtqueue {
    const size: nat
    var next: seq<nat>
    var more: seq<bool>
    var freeHead: nat
    var numFree: nat
    var availIdx: nat
    var availRing: seq<nat>
    var usedIdx: nat
    var usedRing: seq<nat>
    var lastUsed: nat
    /** The device's own index into the available ring. */
    var seen: nat

    ghost var owner: seq<int>
    ghost var free: seq<int>
    ghost var out: map<int, seq<int>>
    ghost var submitted: seq<nat>
    ghost var taken: nat
    ghost var held: set<int>
    ghost var used: seq<nat>
    ghost var polled: nat

    ghost predicate Valid()
      reads this
    {
      && Descriptors()
      && |availRing| == size && |usedRing| == size && taken <= |submitted| && polled <= |used|
      && RingOk(availRing, availIdx, submitted, taken) && seen == Rem(taken, IDX)
      && RingOk(usedRing, usedIdx, used, polled) && lastUsed == Rem(polled, IDX)
      && Flights(out, submitted[taken..], held, used[polled..])
    }

    /** Queue set-up: every descriptor is linked to the one after it. */
    constructor (qsz: nat)
      requires 0 < qsz <= 256
      ensures Descriptors() && (Divides(qsz, IDX) ==> Valid()) && size == qsz && numFree == qsz && out == map[]
      ensures submitted == [] && used == [] && taken == 0 && polled == 0 && held == {}
      ensures free == seq(qsz, i => i) && more == seq(qsz, _ => false)
    {
      size := qsz;
      var link: seq<nat> := [];
      for i := 0 to qsz
        invariant |link| == i && forall k {:trigger link[k]} :: 0 <= k < i ==> link[k] == k + 1
      {
        link := link + [i + 1];
      }
      next, more := link[qsz - 1 := END], seq(qsz, _ => false);
      freeHead, numFree, availIdx, usedIdx, lastUsed, seen := 0, qsz, 0, 0, 0, 0;
      availRing, usedRing := seq(qsz, _ => 0), seq(qsz, _ => 0);
      owner, free, out := seq(qsz, _ => FREE), seq(qsz, i => i), map[];
      submitted, taken, held, used, polled := [], 0, {}, [], 0;
      new;
      forall i: nat | i < qsz ensures FreeLink(next, owner, free, i) { }
      forall d | 0 <= d < qsz ensures Placed(owner, free, out, d) { assert free[d] == d; }
    }

    ghost predicate Descriptors()
      reads this
    {
      |next| == size && Chains(next, more, owner, freeHead, free, out) && numFree == |free|
    }

    /** `virtqueue_alloc_descs`: the first n free descriptors become a chain; too few free leaves everything as it is,
        and so does asking for none, which is answered with the head of the free chain. */
    method Alloc(n: nat) returns (head: int)
      requires Descriptors()
      modifies this`next, this`more, this`freeHead, this`numFree, this`owner, this`free, this`out
      ensures Descriptors() && (old(Valid()) ==> Valid()) && (head == -1 <==> n > |old(free)|)
      ensures head == -1 || n == 0 ==> free == old(free) && out == old(out)
      ensures n == 0 ==> head == freeHead == old(freeHead)
      ensures head != -1 && n > 0 ==> head == old(free)[0] && head !in old(out)
      ensures head != -1 && n > 0 ==> free == old(free)[n..] && out == old(out)[head := old(free)[..n]]
    {
      hide RingOk, Flights, Chains, Rem;
      if numFree < n { return -1; }
      if n == 0 { return freeHead; }
      head := TakeFree(n);
      if old(Valid()) { MoreOut(old(out), out, submitted[taken..], held, used[polled..]); }
    }

    method TakeFree(n: nat) returns (head: int)
      requires Descriptors() && 0 < n <= numFree
      modifies this`next, this`more, this`freeHead, this`numFree, this`owner, this`free, this`out
      ensures Descriptors() && head == old(free)[0] && head !in old(out) && head >= 0
      ensures free == old(free)[n..] && out == old(out)[head := old(free)[..n]]
    {
      hide Owned, Chains, NoDup;
      head := freeHead;
      ChainSizes(next, more, owner, freeHead, free, out);
      FreeFirst(next, more, owner, freeHead, free, out);
      ghost var flags := more;
      var idx := Mark(n);
      Allocated(next, flags, owner, freeHead, free, out, n, more[idx := false]);
      numFree := numFree - 1;
      freeHead := next[idx];
      next, more := next[idx := 0], more[idx := false];
      owner := Owned(owner, free[..n], head);
      out := out[head := free[..n]];
      free := free[n..];
    }

    /** The walk of the allocation over all but the last descriptor: flag it and go on to the next. */
    method Mark(n: nat) returns (idx: nat)
      requires Chains(next, more, owner, freeHead, free, out) && numFree == |free| && 0 < n <= |free|
      modifies this`more, this`numFree
      ensures |more| == |old(more)| == |next| && idx == free[n - 1] && idx < |next| && numFree == |free| - (n - 1)
      ensures forall d {:trigger more[d]} :: 0 <= d < |more| ==>
        more[d] == if d in free[..n - 1] then true else old(more)[d]
      ensures forall d {:trigger more[d]} :: 0 <= d < |more| && d != idx ==> (d in free[..n] <==> d in free[..n - 1])
    {
      hide Chains, NoDup;
      ChainSizes(next, more, owner, freeHead, free, out);
      FreeFirst(next, more, owner, freeHead, free, out);
      idx := freeHead;
      ghost var flags := more;
      for i := 0 to n - 1
        invariant |more| == |flags| && numFree == |free| - i && idx < |next| && idx == free[i]
        invariant forall d {:trigger more[d]} :: 0 <= d < |more| ==>
          more[d] == if d in free[..i] then true else flags[d]
      {
        FreeNext(next, flags, owner, freeHead, free, out, i);
        assert free[..i + 1] == free[..i] + [free[i]];
        numFree := numFree - 1;
        more := more[idx := true];
        idx := next[idx];
      }
      assert free[..n] == free[..n - 1] + [free[n - 1]];
    }

    /** `virtqueue_free_chain`: the whole chain goes back in front of the free chain. */
    method FreeChain(head: nat)
      requires Descriptors() && (var h: int := head; h in out)
      modifies this`next, this`freeHead, this`numFree, this`owner, this`free, this`out
      ensures Descriptors() && (var h: int := head; old(Valid() && !InFlight(h)) ==> Valid())
      ensures var h: int := head;
        free == old(out)[h] + old(free) && out == map g | g in old(out) && g != h :: old(out)[g]
    {
      hide RingOk, Flights, Chains, Rem;
      ghost var h: int := head;
      GiveBack(head);
      if old(Valid() && !InFlight(h)) { LessOut(old(out), h, submitted[taken..], held, used[polled..]); }
    }

    method GiveBack(head: nat)
      requires Descriptors() && (var h: int := head; h in out)
      modifies this`next, this`freeHead, this`numFree, this`owner, this`free, this`out
      ensures Descriptors()
      ensures var h: int := head;
        free == old(out)[h] + old(free) && out == map g | g in old(out) && g != h :: old(out)[g]
    {
      hide Owned, Chains;
      ghost var h: int := head;
      ghost var c := out[h];
      Returned(next, more, owner, freeHead, free, out, h);
      var idx := CountChain(head, h);
      next := next[idx := freeHead];
      freeHead := head;
      owner := Owned(owner, c, FREE);
      free := c + free;
      out := map g | g in out && g != h :: out[g];
    }

    /** The walk to the last descriptor of a chain. */
    method CountChain(head: nat, ghost h: int) returns (idx: nat)
      requires Descriptors() && h == head && h in out
      modifies this`numFree
      ensures numFree == old(numFree) + |out[h]| && out[h] != [] && idx == out[h][|out[h]| - 1]
    {
      hide Chains;
      HeadIs(next, more, owner, freeHead, free, out, h);
      ghost var c := out[h];
      idx := head;
      ghost var i := 0;
      while more[idx]
        invariant 0 <= i < |c| && idx == c[i] && idx < |more| && numFree == old(numFree) + i
        invariant more[idx] <==> i < |c| - 1
        decreases |c| - i
      {
        LinkIs(next, more, owner, freeHead, free, out, h, i);
        numFree := numFree + 1;
        idx := next[idx];
        i := i + 1;
      }
      numFree := numFree + 1;
    }

    /** Submitted and not polled yet. */
    ghost predicate InFlight(h: int)
      requires taken <= |submitted| && polled <= |used|
      reads this
    {
      Aloft(submitted[taken..], held, used[polled..], h)
    }

    /** `virtqueue_submit`: the chain goes into the available ring; there is always room. */
    method Submit(head: nat)
      requires Valid() && (var h: int := head; h in out && !InFlight(h))
      modifies this`availRing, this`availIdx, this`submitted
      ensures Valid() && submitted == old(submitted) + [head]
      ensures size > 0 && |old(availRing)| == size && availIdx == (old(availIdx) + 1) % 65536
      ensures availRing == old(availRing)[Rem(old(availIdx), size) := head]
    {
      hide RingOk, Flights, Chains, Rem;
      ghost var h: int := head;
      HeadsBelow(next, more, owner, freeHead, free, out);
      Launched(out, submitted[taken..], held, used[polled..], h, size);
      Pushed(availRing, availIdx, submitted, taken, head);
      availRing := availRing[Rem(availIdx, size) := head];
      availIdx := (availIdx + 1) % IDX;
      submitted := submitted + [head];
      assert submitted[taken..] == old(submitted)[taken..] + [h];
    }

    /** The device takes the next chain: in the order of submission, across any number of index wraps. */
    method DeviceTake() returns (head: int)
      requires Valid()
      modifies this`seen, this`taken, this`held
      ensures Valid() && (head == -1 <==> old(taken) == |submitted|)
      ensures head != -1 ==> head == submitted[old(taken)] && taken == old(taken) + 1 && held == old(held) + {head}
    {
      hide RingOk, Flights, Chains, Rem;
      Popped(availRing, availIdx, submitted, taken, seen);
      if availIdx == seen { return -1; }
      head := availRing[Rem(seen, size)];
      NextIdx(taken);
      Taken(out, submitted[taken..], held, used[polled..]);
      assert submitted[taken..][1..] == submitted[taken + 1..];
      seen := (seen + 1) % IDX;
      taken, held := taken + 1, held + {head};
    }

    /** The device reports a chain as used. */
    method DeviceUse(head: nat)
      requires Valid() && (var h: int := head; h in held)
      modifies this`usedRing, this`usedIdx, this`used, this`held
      ensures Valid() && used == old(used) + [head] && (var h: int := head; held == old(held) - {h})
    {
      hide RingOk, Flights, Chains, Rem;
      ghost var h: int := head;
      HeadsBelow(next, more, owner, freeHead, free, out);
      Landed(out, submitted[taken..], held, used[polled..], h, size);
      Pushed(usedRing, usedIdx, used, polled, head);
      usedRing := usedRing[Rem(usedIdx, size) := head];
      usedIdx := (usedIdx + 1) % IDX;
      used, held := used + [head], held - {h};
      assert used[polled..] == old(used)[polled..] + [h];
    }

    /** `virtqueue_get_used`: the next used chain, in the order the device reported them. */
    method GetUsed() returns (id: int)
      requires Valid()
      modifies this`lastUsed, this`polled
      ensures Valid() && (id == -1 <==> old(polled) == |used|)
      ensures id != -1 ==> id == used[old(polled)] && polled == old(polled) + 1 && id in out && !InFlight(id)
      ensures id == -1 <==> old(lastUsed) == usedIdx
      ensures id != -1 ==> size > 0 && |usedRing| == size && id == usedRing[Rem(old(lastUsed), size)]
      ensures lastUsed == if id == -1 then old(lastUsed) else (old(lastUsed) + 1) % 65536
    {
      hide RingOk, Flights, Chains, Rem;
      Popped(usedRing, usedIdx, used, polled, lastUsed);
      if usedIdx == lastUsed { return -1; }
      id := usedRing[Rem(lastUsed, size)];
      NextIdx(polled);
      Collected(out, submitted[taken..], held, used[polled..]);
      assert used[polled..][1..] == used[polled + 1..];
      lastUsed := (lastUsed + 1) % IDX;
      polled := polled + 1;
    }
  }

  ghost predicate Aloft(pending: seq<int>, held: set<int>, back: seq<int>, h: int) {
    h in pending || h in held || h in back
  }

  lemma HeadIs(next: seq<nat>, more: seq<bool>, owner: seq<int>, head: nat,
      free: seq<int>, out: map<int, seq<int>>, h: int)
    requires Chains(next, more, owner, head, free, out) && h in out
    ensures |more| == |next| && out[h] != [] && out[h][0] == h && 0 <= h < |more| && (more[h] <==> |out[h]| > 1)
  {
    assert ChainOk(next, more, owner, out[h], h);
    assert Link(next, more, owner, out[h], h, 0);
  }

  lemma LinkIs(next: seq<nat>, more: seq<bool>, owner: seq<int>, head: nat,
      free: seq<int>, out: map<int, seq<int>>, h: int, i: nat)
    requires Chains(next, more, owner, head, free, out) && h in out && i + 1 < |out[h]|
    ensures var c := out[h];
      |more| == |next| && 0 <= c[i] < |next| && next[c[i]] == c[i + 1] && 0 <= c[i + 1] < |more| &&
      (more[c[i + 1]] <==> i + 1 < |c| - 1)
  {
    assert ChainOk(next, more, owner, out[h], h);
    assert Link(next, more, owner, out[h], h, i) && Link(next, more, owner, out[h], h, i + 1);
  }

  lemma LessOut(out: map<int, seq<int>>, h: int, pending: seq<int>, held: set<int>, back: seq<int>)
    requires Flights(out, pending, held, back) && !Aloft(pending, held, back, h)
    ensures Flights(map g | g in out && g != h :: out[g], pending, held, back)
  {
  }

  lemma HeadsBelow(next: seq<nat>, more: seq<bool>, owner: seq<int>, head: nat, free: seq<int>, out: map<int, seq<int>>)
    requires Chains(next, more, owner, head, free, out)
    ensures forall h {:trigger h in out} :: h in out ==> 0 <= h < |next|
  {
    forall h | h in out ensures 0 <= h < |next| { HeadOwner(next, more, owner, out[h], h); }
  }

  /** A chain that is not in flight can be submitted: fewer than `size` others are waiting. */
  lemma Launched(out: map<int, seq<int>>, pending: seq<int>, held: set<int>, back: seq<int>, h: int, size: nat)
    requires Flights(out, pending, held, back) && h in out && !Aloft(pending, held, back, h)
    requires forall g {:trigger g in out} :: g in out ==> 0 <= g < size
    ensures |pending| < size && Flights(out, pending + [h], held, back)
  {
    Pigeonhole(pending + [h], size);
  }

  lemma Taken(out: map<int, seq<int>>, pending: seq<int>, held: set<int>, back: seq<int>)
    requires Flights(out, pending, held, back) && pending != []
    ensures Flights(out, pending[1..], held + {pending[0]}, back)
  {
  }

  lemma Landed(out: map<int, seq<int>>, pending: seq<int>, held: set<int>, back: seq<int>, h: int, size: nat)
    requires Flights(out, pending, held, back) && h in held
    requires forall g {:trigger g in out} :: g in out ==> 0 <= g < size
    ensures |back| < size && Flights(out, pending, held - {h}, back + [h])
  {
    Pigeonhole(back + [h], size);
  }

  lemma Collected(out: map<int, seq<int>>, pending: seq<int>, held: set<int>, back: seq<int>)
    requires Flights(out, pending, held, back) && back != []
    ensures Flights(out, pending, held, back[1..]) && back[0] in out && !Aloft(pending, held, back[1..], back[0])
  {
  }

  lemma ChainSizes(next: seq<nat>, more: seq<bool>, owner: seq<int>, head: nat, free: seq<int>, out: map<int, seq<int>>)
    requires Chains(next, more, owner, head, free, out)
    ensures |next| == |more| == |owner| && NoDup(free)
  {
  }

  lemma FreeFirst(next: seq<nat>, more: seq<bool>, owner: seq<int>, head: nat, free: seq<int>, out: map<int, seq<int>>)
    requires Chains(next, more, owner, head, free, out) && free != []
    ensures head == free[0] && 0 <= head < |next|
  {
    assert FreeLink(next, owner, free, 0);
  }

  lemma FreeNext(next: seq<nat>, more: seq<bool>, owner: seq<int>, head: nat,
      free: seq<int>, out: map<int, seq<int>>, i: nat)
    requires Chains(next, more, owner, head, free, out) && i + 1 < |free|
    ensures 0 <= free[i] < |next| && next[free[i]] == free[i + 1] && 0 <= free[i + 1] < |next|
  {
    assert FreeLink(next, owner, free, i) && FreeLink(next, owner, free, i + 1);
  }

  lemma MoreOut(out: map<int, seq<int>>, out': map<int, seq<int>>, pending: seq<int>, held: set<int>, back: seq<int>)
    requires Flights(out, pending, held, back) && out.Keys <= out'.Keys
    ensures Flights(out', pending, held, back)
  {
    forall x | x in out ensures x in out' { assert x in out.Keys; }
  }
}
