/** The index both kernel caches use: a doubly linked LRU list with a sentinel and a tail pointer, and a hash table
    with chained buckets.  Entries are numbered; the fields of entry e are key[e], hnext[e], prev[e] and next[e]. */
module LruHash {
  import opened Lists

  const NIL := -1
  const HEAD := -2
  const NONE := -1

  /** Multiplicative hashing in 32 bits; the bucket count is a power of two, so masking is taking the remainder. */
  function HashFn(key: int, buckets: nat): nat
    requires buckets > 0 && key >= 0
  {
    key * 2654435761 % 0x1_0000_0000 % buckets
  }

  // ---------------------------------------------------------------- the list

  ghost predicate Linked(prev: seq<int>, next: seq<int>, lru: seq<int>, i: nat)
    requires i < |lru|
  {
    && 0 <= lru[i] < |prev| && |next| == |prev|
    && prev[lru[i]] == (if i == 0 then HEAD else lru[i - 1])
    && next[lru[i]] == (if i == |lru| - 1 then NIL else lru[i + 1])
  }

  /** `lru` is the list, most recently used first. */
  ghost predicate LruOk(prev: seq<int>, next: seq<int>, first: int, tail: int, lru: seq<int>) {
    && |prev| == |next| && NoDup(lru)
    && first == (if lru == [] then NIL else lru[0]) && tail == (if lru == [] then NIL else lru[|lru| - 1])
    && forall i: nat {:trigger Linked(prev, next, lru, i)} :: i < |lru| ==> Linked(prev, next, lru, i)
  }

  lemma WithoutNoDup(s: seq<int>, k: nat)
    requires k < |s| && NoDup(s)
    ensures NoDup(Without(s, k)) && s[k] !in Without(s, k)
    ensures forall x {:trigger x in Without(s, k)} :: x in Without(s, k) <==> x in s && x != s[k]
  {
  }

  /** The fields after unlinking entry e. */
  function CutNext(next: seq<int>, e: int, p: int, q: int): seq<int>
    requires 0 <= e < |next| && (p == HEAD || 0 <= p < |next|)
  {
    (if p == HEAD then next else next[p := q])[e := NIL]
  }

  function CutPrev(prev: seq<int>, e: int, p: int, q: int): seq<int>
    requires 0 <= e < |prev| && (q == NIL || 0 <= q < |prev|)
  {
    (if q == NIL then prev else prev[q := p])[e := NIL]
  }

  lemma Neighbours(prev: seq<int>, next: seq<int>, first: int, tail: int, lru: seq<int>, k: nat)
    requires LruOk(prev, next, first, tail, lru) && k < |lru|
    ensures var e := lru[k];
      && 0 <= e < |prev| && |next| == |prev| && (prev[e] == HEAD || 0 <= prev[e] < |prev|)
      && (next[e] == NIL || 0 <= next[e] < |prev|)
      && (prev[e] == HEAD <==> k == 0) && (next[e] == NIL <==> k == |lru| - 1) && 0 <= tail < |prev|
  {
    assert Linked(prev, next, lru, k);
    if k > 0 { assert Linked(prev, next, lru, k - 1); }
    if k + 1 < |lru| { assert Linked(prev, next, lru, k + 1); }
    assert Linked(prev, next, lru, |lru| - 1);
  }

  /** Unlinking entry lru[k] leaves the rest of the list in order. */
  lemma Unlinked(prev: seq<int>, next: seq<int>, first: int, tail: int, lru: seq<int>, k: nat)
    requires LruOk(prev, next, first, tail, lru) && k < |lru|
    ensures var e := lru[k];
      && 0 <= e < |prev| && |next| == |prev| && (prev[e] == HEAD || 0 <= prev[e] < |prev|)
      && (next[e] == NIL || 0 <= next[e] < |prev|)
      && LruOk(CutPrev(prev, e, prev[e], next[e]), CutNext(next, e, prev[e], next[e]),
               if prev[e] == HEAD then next[e] else first,
               if tail != e then tail else if prev[e] == HEAD then NIL else prev[e], Without(lru, k))
  {
    Neighbours(prev, next, first, tail, lru, k);
    var e := lru[k];
    var prev', next', rest := CutPrev(prev, e, prev[e], next[e]), CutNext(next, e, prev[e], next[e]), Without(lru, k);
    assert Linked(prev, next, lru, k);
    WithoutNoDup(lru, k);
    forall i: nat | i < |rest| ensures Linked(prev', next', rest, i) { UnlinkedAt(prev, next, first, tail, lru, k, i); }
    if rest != [] { WithoutAt(lru, k, 0); WithoutAt(lru, k, |rest| - 1); }
  }

  lemma UnlinkedAt(prev: seq<int>, next: seq<int>, first: int, tail: int, lru: seq<int>, k: nat, i: nat)
    requires LruOk(prev, next, first, tail, lru) && k < |lru| && i < |lru| - 1
    requires var e := lru[k];
      0 <= e < |prev| && (prev[e] == HEAD || 0 <= prev[e] < |prev|) && (next[e] == NIL || 0 <= next[e] < |prev|)
    ensures |Without(lru, k)| == |lru| - 1
    ensures var e := lru[k];
      Linked(CutPrev(prev, e, prev[e], next[e]), CutNext(next, e, prev[e], next[e]), Without(lru, k), i)
  {
    hide Without;
    var i0 := if i < k then i else i + 1;
    WithoutAt(lru, k, i);
    assert Linked(prev, next, lru, i0) && Linked(prev, next, lru, k);
    if i > 0 { WithoutAt(lru, k, i - 1); }
    if i + 1 < |lru| - 1 { WithoutAt(lru, k, i + 1); }
    assert lru[i0] != lru[k];
    if k > 0 { assert Linked(prev, next, lru, k - 1); assert i0 != k - 1 ==> lru[i0] != lru[k - 1]; }
    if k + 1 < |lru| { assert Linked(prev, next, lru, k + 1); assert i0 != k + 1 ==> lru[i0] != lru[k + 1]; }
  }

  /** Linking a fresh entry in front. */
  lemma Fronted(prev: seq<int>, next: seq<int>, first: int, tail: int, lru: seq<int>, e: int)
    requires LruOk(prev, next, first, tail, lru) && 0 <= e < |prev| && e !in lru && |next| == |prev|
    ensures first == NIL || 0 <= first < |prev|
    ensures LruOk(if first == NIL then prev[e := HEAD]
      else prev[e := HEAD][first := e], next[e := first], e, if first == NIL then e else tail, [e] + lru)
  {
    if lru != [] { assert Linked(prev, next, lru, 0); }
    var prev', next' := if first == NIL then prev[e := HEAD] else prev[e := HEAD][first := e], next[e := first];
    var s := [e] + lru;
    forall i: nat | i < |s| ensures Linked(prev', next', s, i) {
      if i > 0 { assert Linked(prev, next, lru, i - 1); assert i > 1 ==> lru[i - 1] != lru[0]; }
    }
  }

  /** Linking a fresh entry at the tail. */
  lemma Backed(prev: seq<int>, next: seq<int>, first: int, tail: int, lru: seq<int>, e: int)
    requires LruOk(prev, next, first, tail, lru) && 0 <= e < |prev| && e !in lru && |next| == |prev|
    ensures tail == NIL || 0 <= tail < |prev|
    ensures LruOk(prev[e := if tail == NIL then HEAD else tail], if tail == NIL then next[e := NIL]
      else next[e := NIL][tail := e],
                  if tail == NIL then e else first, e, lru + [e])
  {
    if lru != [] { assert Linked(prev, next, lru, |lru| - 1); }
    var prev', next' := prev[e := if tail == NIL then HEAD else tail], if tail == NIL then next[e := NIL]
      else next[e := NIL][tail := e];
    var s := lru + [e];
    forall i: nat | i < |s| ensures Linked(prev', next', s, i) {
      if i < |lru| { assert Linked(prev, next, lru, i); assert i < |lru| - 1 ==> lru[i] != lru[|lru| - 1]; }
    }
  }

  // ---------------------------------------------------------------- the hash chains

  ghost predicate Hop(key: seq<int>, hnext: seq<int>, buckets: nat, c: seq<int>, h: nat, i: nat)
    requires i < |c| && buckets > 0
  {
    && 0 <= c[i] < |key| && |hnext| == |key| && key[c[i]] >= 0 && HashFn(key[c[i]], buckets) == h
    && hnext[c[i]] == (if i == |c| - 1 then NIL else c[i + 1])
  }

  /** `c` is the chain of bucket `h`, which starts at entry `head`. */
  ghost predicate Bucket(key: seq<int>, hnext: seq<int>, buckets: nat, head: int, c: seq<int>, h: nat)
    requires buckets > 0
  {
    && NoDup(c) && head == (if c == [] then NIL else c[0])
    && forall i: nat {:trigger Hop(key, hnext, buckets, c, h, i)} :: i < |c| ==> Hop(key, hnext, buckets, c, h, i)
  }

  ghost predicate BucketAt(key: seq<int>, hnext: seq<int>, hash: seq<int>, chain: seq<seq<int>>, h: nat) {
    h < |hash| == |chain| && Bucket(key, hnext, |hash|, hash[h], chain[h], h)
  }

  /** Every bucket is a proper chain, every entry with a key is in the chain of its key, and no key occurs twice. */
  ghost predicate ChainOk(key: seq<int>, hnext: seq<int>, hash: seq<int>, chain: seq<seq<int>>) {
    && |chain| == |hash| && |hash| > 0 && |hnext| == |key|
    && (forall h: nat {:trigger BucketAt(key, hnext, hash, chain, h)} :: h < |hash| ==>
      BucketAt(key, hnext, hash, chain, h))
    && (forall e: nat {:trigger InChain(key, hash, chain, e)} :: e < |key| && key[e] != NONE ==>
      InChain(key, hash, chain, e))
    && Unique(key)
  }

  ghost predicate InChain(key: seq<int>, hash: seq<int>, chain: seq<seq<int>>, e: nat) {
    && |chain| == |hash| && |hash| > 0 && e < |key| && key[e] >= 0
    && var x: int := e; x in chain[HashFn(key[e], |hash|)]
  }

  ghost predicate Unique(key: seq<int>) {
    forall e, f {:trigger key[e], key[f]} :: 0 <= e < f < |key| && key[e] != NONE ==> key[e] != key[f]
  }

  lemma HopAt(key: seq<int>, hnext: seq<int>, hash: seq<int>, chain: seq<seq<int>>, h: nat, i: nat)
    requires ChainOk(key, hnext, hash, chain) && h < |hash| && i < |chain[h]|
    ensures Hop(key, hnext, |hash|, chain[h], h, i)
  {
    assert BucketAt(key, hnext, hash, chain, h);
  }

  /** Taking entry e, the k-th of its chain, out of the table. */
  lemma Unhashed(key: seq<int>, hnext: seq<int>, hash: seq<int>, chain: seq<seq<int>>, h: nat, k: nat)
    requires ChainOk(key, hnext, hash, chain) && h < |hash| && k < |chain[h]|
    ensures var e := chain[h][k]; 0 <= e < |key| && (k > 0 ==> 0 <= chain[h][k - 1] < |key|)
    ensures var e := chain[h][k];
      var hnext' := (if k == 0 then hnext else hnext[chain[h][k - 1] := hnext[e]])[e := NIL];
      ChainOk(key[e := NONE], hnext', if k == 0 then hash[h := hnext[e]] else hash, chain[h := Without(chain[h], k)])
  {
    hide HashFn;
    HopAt(key, hnext, hash, chain, h, k);
    if k > 0 { HopAt(key, hnext, hash, chain, h, k - 1); }
    var c, e := chain[h], chain[h][k];
    var key', hnext' := key[e := NONE], (if k == 0 then hnext else hnext[c[k - 1] := hnext[e]])[e := NIL];
    var hash', chain' := if k == 0 then hash[h := hnext[e]] else hash, chain[h := Without(c, k)];
    forall g: nat | g < |hash'| ensures BucketAt(key', hnext', hash', chain', g) {
      assert BucketAt(key, hnext, hash, chain, g);
      if g == h { UnhashedHere(key, hnext, |hash|, hash[h], c, h, k); } else {
        UnhashedOther(key, hnext, key', hnext', |hash|, hash[g], chain[g], g, c, h, k);
      }
    }
    forall x: nat | x < |key'| && key'[x] != NONE ensures InChain(key', hash', chain', x) {
      assert InChain(key, hash, chain, x);
      assert BucketAt(key, hnext, hash, chain, h);
      HashRange(key[x], |hash|);
      var y: int := x;
      assert y in Without(c, k) <==> y in c && y != e by { WithoutNoDup(c, k); }
    }
  }

  lemma UnhashedHere(key: seq<int>, hnext: seq<int>, buckets: nat, head: int, c: seq<int>, h: nat, k: nat)
    requires buckets > 0 && Bucket(key, hnext, buckets, head, c, h) && k < |c| && 0 <= c[k] < |key| == |hnext|
    requires (k > 0 ==> 0 <= c[k - 1] < |key|)
    ensures var hnext' := (if k == 0 then hnext else hnext[c[k - 1] := hnext[c[k]]])[c[k] := NIL];
      Bucket(key[c[k] := NONE], hnext', buckets, if k == 0 then hnext[c[k]] else head, Without(c, k), h)
  {
    hide HashFn;
    var rest := Without(c, k);
    var key', hnext' := key[c[k] := NONE], (if k == 0 then hnext else hnext[c[k - 1] := hnext[c[k]]])[c[k] := NIL];
    WithoutNoDup(c, k);
    assert Hop(key, hnext, buckets, c, h, k);
    forall i: nat | i < |rest| ensures Hop(key', hnext', buckets, rest, h, i) {
      UnhashedAt(key, hnext, buckets, head, c, h, k, i);
    }
    if rest != [] { WithoutAt(c, k, 0); }
  }

  lemma UnhashedAt(key: seq<int>, hnext: seq<int>, buckets: nat, head: int, c: seq<int>, h: nat, k: nat, i: nat)
    requires buckets > 0 && Bucket(key, hnext, buckets, head, c, h) && k < |c| && 0 <= c[k] < |key| == |hnext|
    requires (k > 0 ==> 0 <= c[k - 1] < |key|)
    requires i < |c| - 1
    ensures |Without(c, k)| == |c| - 1
    ensures var hnext' := (if k == 0 then hnext else hnext[c[k - 1] := hnext[c[k]]])[c[k] := NIL];
      Hop(key[c[k] := NONE], hnext', buckets, Without(c, k), h, i)
  {
    hide Without, HashFn;
    var i0 := if i < k then i else i + 1;
    WithoutAt(c, k, i);
    assert Hop(key, hnext, buckets, c, h, i0) && Hop(key, hnext, buckets, c, h, k);
    if i + 1 < |c| - 1 { WithoutAt(c, k, i + 1); }
    assert c[i0] != c[k];
    if k > 0 { assert i0 != k - 1 ==> c[i0] != c[k - 1]; }
  }

  lemma UnhashedOther(key: seq<int>, hnext: seq<int>, key': seq<int>, hnext': seq<int>, buckets: nat, head: int,
      d: seq<int>, g: nat, c: seq<int>, h: nat, k: nat)
    requires buckets > 0 && Bucket(key, hnext, buckets, head, d, g) && k < |c| && g != h && |hnext| == |key|
    requires Hop(key, hnext, buckets, c, h, k) && (k > 0 ==> Hop(key, hnext, buckets, c, h, k - 1))
    requires key' == key[c[k] := NONE]
    requires hnext' == (if k == 0 then hnext else hnext[c[k - 1] := hnext[c[k]]])[c[k] := NIL]
    ensures Bucket(key', hnext', buckets, head, d, g)
  {
    hide HashFn;
    forall i: nat | i < |d| ensures Hop(key', hnext', buckets, d, g, i) { assert Hop(key, hnext, buckets, d, g, i); }
  }

  /** Putting entry e with a new key at the front of its bucket. */
  lemma Hashed(key: seq<int>, hnext: seq<int>, hash: seq<int>, chain: seq<seq<int>>, e: nat, k: int)
    requires ChainOk(key, hnext, hash, chain) && e < |key| && key[e] == NONE && k >= 0 && k !in key
    ensures var h := HashFn(k, |hash|);
      h < |hash| && ChainOk(key[e := k], hnext[e := hash[h]], hash[h := e], chain[h := [e] + chain[h]])
  {
    hide HashFn;
    var h := HashFn(k, |hash|);
    HashRange(k, |hash|);
    var key', hnext', hash', chain' := key[e := k], hnext[e := hash[h]], hash[h := e], chain[h := [e] + chain[h]];
    forall g: nat | g < |hash| ensures BucketAt(key', hnext', hash', chain', g) {
      assert BucketAt(key, hnext, hash, chain, g);
      var d := chain'[g];
      forall i: nat | i < |chain[g]| ensures chain[g][i] != e { assert Hop(key, hnext, |hash|, chain[g], g, i); }
      forall i: nat | i < |d| ensures Hop(key', hnext', |hash|, d, g, i) {
        if g != h { assert Hop(key, hnext, |hash|, chain[g], g, i); } else if i > 0 {
          assert Hop(key, hnext, |hash|, chain[g], g, i - 1);
        }
      }
    }
    forall x: nat | x < |key'| && key'[x] != NONE ensures InChain(key', hash', chain', x) {
      var y: int := x;
      if x != e {
        assert InChain(key, hash, chain, x);
        HashRange(key[x], |hash|);
        assert y in chain[HashFn(key[x], |hash|)];
      }
    }
  }

  lemma HashRange(k: int, buckets: nat)
    requires k >= 0 && buckets > 0
    ensures HashFn(k, buckets) < buckets
  {
  }

  // ---------------------------------------------------------------- the structure

  class Index {
    var key: seq<int>
    var hnext: seq<int>
    var prev: seq<int>
    var next: seq<int>
    var hash: seq<int>
    var first: int
    var tail: int
    ghost var lru: seq<int>
    ghost var chain: seq<seq<int>>

    ghost predicate Valid()
      reads this
    {
      |prev| == |key| && LruOk(prev, next, first, tail, lru) && ChainOk(key, hnext, hash, chain)
    }

    /** The init loops: all keys empty, every entry pushed in front of the list. */
    constructor (size: nat, buckets: nat)
      requires buckets > 0
      ensures Valid() && fresh(this) && |key| == size && (forall e :: 0 <= e < size ==> key[e] == NONE)
      ensures |lru| == size && forall i {:trigger lru[i]} :: 0 <= i < size ==> lru[i] == size - 1 - i
    {
      key, hnext, prev, next := seq(size, _ => NONE), seq(size, _ => NIL), seq(size, _ => NIL), seq(size, _ => NIL);
      hash, chain := seq(buckets, _ => NIL), seq(buckets, _ => []);
      first, tail, lru := NIL, NIL, [];
      new;
      EmptyChains(key, hnext, hash, chain);
      for i := 0 to size
        invariant Valid() && |key| == size && (forall e :: 0 <= e < size ==> key[e] == NONE)
        invariant |lru| == i && forall j {:trigger lru[j]} :: 0 <= j < i ==> lru[j] == i - 1 - j
      {
        PushFront(i);
      }
    }

    /** `lru_remove` */
    method LruRemove(e: nat, ghost k: nat)
      requires Valid() && k < |lru| && lru[k] == e
      modifies this`prev, this`next, this`first, this`tail, this`lru
      ensures Valid() && lru == Without(old(lru), k)
    {
      hide ChainOk, LruOk, Without;
      Neighbours(prev, next, first, tail, lru, k);
      Unlinked(prev, next, first, tail, lru, k);
      var p, q := prev[e], next[e];
      if p == HEAD { first := q; } else { next := next[p := q]; }
      if q != NIL { prev := prev[q := p]; }
      if tail == e { tail := p; }
      if tail == HEAD { tail := NIL; }
      prev, next := prev[e := NIL], next[e := NIL];
      lru := Without(lru, k);
    }

    /** `lru_push_front` */
    method PushFront(e: nat)
      requires Valid() && e < |key| && e !in lru
      modifies this`prev, this`next, this`first, this`tail, this`lru
      ensures Valid() && lru == [e] + old(lru)
    {
      hide ChainOk;
      Fronted(prev, next, first, tail, lru, e);
      prev, next := prev[e := HEAD], next[e := first];
      if first != NIL { prev := prev[first := e]; } else { tail := e; }
      first := e;
      lru := [e] + lru;
    }

    /** The tail insertion of `ic_invalidate`. */
    method PushBack(e: nat)
      requires Valid() && e < |key| && e !in lru
      modifies this`prev, this`next, this`first, this`tail, this`lru
      ensures Valid() && lru == old(lru) + [e]
    {
      hide ChainOk;
      Backed(prev, next, first, tail, lru, e);
      prev, next := prev[e := if tail != NIL then tail else HEAD], next[e := NIL];
      if tail != NIL { next := next[tail := e]; } else { first := e; }
      tail := e;
      lru := lru + [e];
    }

    /** Move an entry to the front: `lru_remove` then `lru_push_front`. */
    method MoveFront(e: nat)
      requires Valid() && e in lru
      modifies this`prev, this`next, this`first, this`tail, this`lru
      ensures Valid() && Moved(old(lru), lru, e)
    {
      hide ChainOk, LruOk, Without;
      ghost var k := Position(lru, e);
      LruMember(prev, next, first, tail, lru, k);
      WithoutNoDup(lru, k);
      LruRemove(e, k);
      PushFront(e);
    }

    /** `hash_find` */
    method Find(k: int) returns (e: int)
      requires Valid() && k >= 0
      ensures e == NIL <==> k !in key
      ensures e != NIL ==> 0 <= e < |key| && key[e] == k
    {
      hide LruOk, HashFn;
      HashRange(k, |hash|);
      var h := HashFn(k, |hash|);
      e := hash[h];
      ghost var i := 0;
      assert BucketAt(key, hnext, hash, chain, h);
      while e != NIL
        invariant 0 <= i <= |chain[h]| && e == (if i < |chain[h]| then chain[h][i] else NIL)
        invariant forall j {:trigger chain[h][j]} :: 0 <= j < i ==> 0 <= chain[h][j] < |key| && key[chain[h][j]] != k
        decreases |chain[h]| - i
      {
        HopAt(key, hnext, hash, chain, h, i);
        if key[e] == k { return; }
        e := hnext[e];
        i := i + 1;
      }
      if i < |chain[h]| { HopAt(key, hnext, hash, chain, h, i); }
      NotChained(key, hnext, hash, chain, k);
    }

    /** `hash_remove`, and the key is forgotten. */
    method Unhash(e: nat)
      requires Valid() && e < |key| && key[e] != NONE
      modifies this`key, this`hnext, this`hash, this`chain
      ensures Valid() && key == old(key)[e := NONE]
    {
      hide LruOk, HashFn, Without, Unique;
      assert InChain(key, hash, chain, e);
      HashRange(key[e], |hash|);
      var h := HashFn(key[e], |hash|);
      var p, c := NIL, hash[h];
      ghost var i, y: int := 0, e;
      assert BucketAt(key, hnext, hash, chain, h) && y in chain[h];
      ghost var at := Position(chain[h], e);
      while c != NIL && c != e
        invariant h < |chain| && 0 <= i <= at < |chain[h]| && c == chain[h][i] && e == chain[h][at]
        invariant p == (if i == 0 then NIL else chain[h][i - 1])
        invariant key == old(key) && hnext == old(hnext) && hash == old(hash) && chain == old(chain)
        decreases at - i
      {
        HopAt(key, hnext, hash, chain, h, i);
        p := c;
        c := hnext[c];
        i := i + 1;
      }
      HopAt(key, hnext, hash, chain, h, i);
      if c == e {
        Unhashed(key, hnext, hash, chain, h, i);
        if i > 0 { HopAt(key, hnext, hash, chain, h, i - 1); }
        if p == NIL { hash := hash[h := hnext[e]]; } else { hnext := hnext[p := hnext[e]]; }
        hnext := hnext[e := NIL];
        key := key[e := NONE];
        chain := chain[h := Without(chain[h], i)];
      }
    }

    /** `hash_insert` under a new key. */
    method Rehash(e: nat, k: int)
      requires Valid() && e < |key| && key[e] == NONE && k >= 0 && k !in key
      modifies this`key, this`hnext, this`hash, this`chain
      ensures Valid() && key == old(key)[e := k]
    {
      hide LruOk, HashFn, Unique;
      Hashed(key, hnext, hash, chain, e, k);
      var h := HashFn(k, |hash|);
      key := key[e := k];
      hnext := hnext[e := hash[h]];
      hash := hash[h := e];
      chain := chain[h := [e] + chain[h]];
    }
  }

  /** A key that no entry of its chain has is no entry's key. */
  lemma NotChained(key: seq<int>, hnext: seq<int>, hash: seq<int>, chain: seq<seq<int>>, k: int)
    requires ChainOk(key, hnext, hash, chain) && k >= 0 && HashFn(k, |hash|) < |chain|
    requires var c := chain[HashFn(k, |hash|)];
      forall j {:trigger c[j]} :: 0 <= j < |c| ==> 0 <= c[j] < |key| && key[c[j]] != k
    ensures k !in key
  {
    hide HashFn;
    forall x: nat | x < |key| ensures key[x] != k {
      if key[x] != NONE {
        assert InChain(key, hash, chain, x);
        var c, y: int := chain[HashFn(k, |hash|)], x;
        assert key[x] == k ==> y in c;
      }
    }
  }

  ghost predicate Moved(lru: seq<int>, lru': seq<int>, e: int) {
    exists k: nat :: k < |lru| && lru[k] == e && lru' == [e] + Without(lru, k)
  }

  ghost function Position(s: seq<int>, e: int): (k: nat)
    requires e in s
    ensures k < |s| && s[k] == e
  {
    var k: nat :| k < |s| && s[k] == e; k
  }

  lemma LruMember(prev: seq<int>, next: seq<int>, first: int, tail: int, lru: seq<int>, k: nat)
    requires LruOk(prev, next, first, tail, lru) && k < |lru|
    ensures 0 <= lru[k] < |prev| && NoDup(lru)
  {
    assert Linked(prev, next, lru, k);
  }

  lemma EmptyChains(key: seq<int>, hnext: seq<int>, hash: seq<int>, chain: seq<seq<int>>)
    requires |chain| == |hash| && |hash| > 0 && |hnext| == |key|
    requires (forall e {:trigger key[e]} :: 0 <= e < |key| ==> key[e] == NONE)
    requires forall h {:trigger chain[h]} :: 0 <= h < |chain| ==> chain[h] == [] && hash[h] == NIL
    ensures ChainOk(key, hnext, hash, chain)
  {
    forall h: nat | h < |hash| ensures BucketAt(key, hnext, hash, chain, h) { assert chain[h] == []; }
  }
}
