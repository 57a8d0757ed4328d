/** The block cache: a write-back LRU cache that must look like the disk behind it. */
module Bcache {
  import opened Bytes
  import opened Lists
  import opened LruHash

  /** The size of a cached block. */
  const PAGE := 4096

  /** The block number that marks an unused entry; no device has it. */
  const INVALID := 0xFFFF_FFFF_FFFF_FFFF

  /** Cached data is the view of its block and clean data is on disk; an uncached block is on disk as viewed. */
  ghost predicate Agrees(key: seq<int>, data: seq<Block>, dirty: seq<bool>, disk: map<int, Block>,
      view: map<int, Block>) {
    && |data| == |key| && |dirty| == |key| && view.Keys == disk.Keys
    && (forall e {:trigger Holds(key, data, dirty, disk, view, e)} :: 0 <= e < |key| && key[e] != NONE ==>
      Holds(key, data, dirty, disk, view, e))
    && forall b {:trigger disk[b]} :: b in disk ==> b >= 0 && (b !in key ==> disk[b] == view[b])
  }

  ghost predicate Holds(key: seq<int>, data: seq<Block>, dirty: seq<bool>, disk: map<int, Block>,
      view: map<int, Block>, e: int) {
    && 0 <= e < |key| && |data| == |key| && |dirty| == |key| && key[e] >= 0 && key[e] in disk && key[e] in view
    && data[e] == view[key[e]] && (!dirty[e] ==> disk[key[e]] == data[e])
  }

  lemma AgreeFacts(key: seq<int>, data: seq<Block>, dirty: seq<bool>, disk: map<int, Block>, view: map<int, Block>)
    requires Agrees(key, data, dirty, disk, view)
    ensures |data| == |key| && |dirty| == |key| && view.Keys == disk.Keys
    ensures forall e {:trigger data[e]} :: 0 <= e < |key| && key[e] != NONE ==>
      key[e] in view && data[e] == view[key[e]]
    ensures forall b {:trigger disk[b]} :: b in disk && b !in key ==> disk[b] == view[b]
  {
    forall e | 0 <= e < |key| && key[e] != NONE
      ensures key[e] in view && data[e] == view[key[e]]
    {
      assert Holds(key, data, dirty, disk, view, e);
    }
  }

  /** Writing a dirty entry back and dropping it changes nothing in the view. */
  lemma Dropping(key: seq<int>, data: seq<Block>, dirty: seq<bool>, disk: map<int, Block>, view: map<int, Block>,
      e: nat)
    requires Agrees(key, data, dirty, disk, view) && Unique(key) && e < |key| && key[e] != NONE
    ensures key[e] in disk
    ensures Agrees(key[e := NONE], data, dirty[e := false], if dirty[e] then disk[key[e] := data[e]] else disk, view)
  {
    assert Holds(key, data, dirty, disk, view, e);
    var key', dirty', disk' := key[e := NONE], dirty[e := false], if dirty[e] then disk[key[e] := data[e]] else disk;
    forall x | 0 <= x < |key| && key'[x] != NONE ensures Holds(key', data, dirty', disk', view, x) {
      assert Holds(key, data, dirty, disk, view, x);
      assert key[x] != key[e];
    }
    forall b | b in disk' ensures b >= 0 && (b !in key' ==> disk'[b] == view[b]) {
      if b in key { assert forall x :: 0 <= x < |key| && x != e ==> key'[x] == key[x]; }
    }
  }

  /** Writing a dirty entry back without dropping it. */
  lemma Cleaning(key: seq<int>, data: seq<Block>, dirty: seq<bool>, disk: map<int, Block>, view: map<int, Block>,
      e: nat)
    requires Agrees(key, data, dirty, disk, view) && Unique(key) && e < |key| && key[e] != NONE
    ensures key[e] in disk && Agrees(key, data, dirty[e := false], disk[key[e] := data[e]], view)
  {
    assert Holds(key, data, dirty, disk, view, e);
    var dirty', disk' := dirty[e := false], disk[key[e] := data[e]];
    forall x | 0 <= x < |key| && key[x] != NONE ensures Holds(key, data, dirty', disk', view, x) {
      assert Holds(key, data, dirty, disk, view, x);
    }
    assert disk'.Keys == disk.Keys;
  }

  /** Loading an uncached block into an empty entry. */
  lemma Loading(key: seq<int>, data: seq<Block>, dirty: seq<bool>, disk: map<int, Block>, view: map<int, Block>,
      e: nat, b: int)
    requires Agrees(key, data, dirty, disk, view) && e < |key| && key[e] == NONE && b >= 0 && b !in key && b in disk
    ensures Agrees(key[e := b], data[e := disk[b]], dirty[e := false], disk, view)
  {
    var key', data', dirty' := key[e := b], data[e := disk[b]], dirty[e := false];
    forall x | 0 <= x < |key| && key'[x] != NONE ensures Holds(key', data', dirty', disk, view, x) {
      if x != e { assert Holds(key, data, dirty, disk, view, x); }
    }
    forall x | 0 <= x < |key| && key[x] >= 0 ensures key[x] in key' { assert key'[x] == key[x]; }
  }

  /** Overwriting a cached block. */
  lemma Storing(key: seq<int>, data: seq<Block>, dirty: seq<bool>, disk: map<int, Block>, view: map<int, Block>,
      e: nat, blk: Block)
    requires Agrees(key, data, dirty, disk, view) && Unique(key) && e < |key| && key[e] != NONE
    ensures key[e] in view && Agrees(key, data[e := blk], dirty[e := true], disk, view[key[e] := blk])
  {
    assert Holds(key, data, dirty, disk, view, e);
    var data', dirty', view' := data[e := blk], dirty[e := true], view[key[e] := blk];
    forall x | 0 <= x < |key| && key[x] != NONE ensures Holds(key, data', dirty', disk, view', x) {
      assert Holds(key, data, dirty, disk, view, x);
    }
  }

  class BufferCache {
    const ix: Index
    var data: seq<Block>
    var dirty: seq<bool>
    var refs: seq<nat>
    var disk: map<int, Block>
    /** What a reader of a plain disk would see. */
    ghost var view: map<int, Block>

    ghost predicate Core()
      reads this, ix
    {
      ix.Valid() && |refs| == |ix.key| && Agrees(ix.key, data, dirty, disk, view)
    }

    /** Between calls every entry is on the LRU list. */
    ghost predicate Valid()
      reads this, ix
    {
      Core() && forall e {:trigger e in ix.lru} :: 0 <= e < |ix.key| ==> e in ix.lru
    }

    constructor (size: nat, buckets: nat, backend: map<int, Block>)
      requires buckets > 0 && forall b :: b in backend ==> 0 <= b < INVALID
      ensures Valid() && fresh(ix) && view == backend && disk == backend && |ix.key| == size
      ensures forall e :: 0 <= e < size ==> refs[e] == 0 && !dirty[e]
    {
      var i := new Index(size, buckets);
      ix := i;
      data, dirty, refs := seq(size, _ => []), seq(size, _ => false), seq(size, _ => 0);
      disk, view := backend, backend;
      new;
      forall e | 0 <= e < size ensures e in ix.lru { assert ix.lru[size - 1 - e] == e; }
    }

    /** `evict_one`: the least recently used entry that nobody holds, written back and taken out of table and list. */
    method Evict() returns (e: int, ghost k: nat)
      requires Core()
      modifies ix, this`dirty, this`disk
      ensures Core() && |ix.key| == |old(ix.key)|
      ensures e == NIL ==> ix.key == old(ix.key) && ix.lru == old(ix.lru) && dirty == old(dirty) && disk == old(disk)
      ensures e == NIL ==> forall i {:trigger ix.lru[i]} :: 0 <= i < |ix.lru| ==>
        0 <= ix.lru[i] < |refs| && refs[ix.lru[i]] > 0
      ensures e != NIL ==>
        0 <= e < |refs| && refs[e] == 0 && ix.key == old(ix.key)[e := NONE] && disk.Keys == old(disk.Keys)
      ensures e != NIL ==> k < |old(ix.lru)| && old(ix.lru)[k] == e && ix.lru == Without(old(ix.lru), k)
      ensures e != NIL ==> forall i {:trigger old(ix.lru)[i]} :: k < i < |old(ix.lru)| ==>
        0 <= old(ix.lru)[i] < |refs| && refs[old(ix.lru)[i]] > 0
      ensures e != NIL ==> forall b {:trigger disk[b]} :: b in disk && b !in old(ix.key) ==> disk[b] == old(disk)[b]
    {
      hide Agrees, LruOk, ChainOk, Without;
      e := ix.tail;
      ghost var at := |ix.lru| - 1;
      k := 0;
      TailOf(ix.prev, ix.next, ix.first, ix.tail, ix.lru);
      while e != NIL && e != HEAD
        invariant Core() && ix.key == old(ix.key) && ix.lru == old(ix.lru) && dirty == old(dirty) && disk == old(disk)
        invariant -1 <= at < |ix.lru| && (at == -1 ==> e == NIL || e == HEAD)
        invariant (at >= 0 ==> e == ix.lru[at] && 0 <= e < |refs|)
        invariant forall j {:trigger ix.lru[j]} :: at < j < |ix.lru| ==> 0 <= ix.lru[j] < |refs| && refs[ix.lru[j]] > 0
        decreases at
      {
        if refs[e] == 0 {
          k := at;
          TakeOut(e, k);
          return;
        }
        BackOne(ix.prev, ix.next, ix.first, ix.tail, ix.lru, at);
        e := ix.prev[e];
        at := at - 1;
      }
      e := NIL;
    }

    method TakeOut(e: nat, ghost k: nat)
      requires Core() && k < |ix.lru| && ix.lru[k] == e && e < |refs|
      modifies ix, this`dirty, this`disk
      ensures Core() && ix.key == old(ix.key)[e := NONE] && disk.Keys == old(disk.Keys)
      ensures ix.lru == Without(old(ix.lru), k)
      ensures forall b {:trigger disk[b]} :: b in disk && b !in old(ix.key) ==> disk[b] == old(disk)[b]
    {
      hide LruOk, ChainOk, Agrees, Without;
      AgreeFacts(ix.key, data, dirty, disk, view);
      if ix.key[e] != NONE {
        KeysUnique(ix);
        Dropping(ix.key, data, dirty, disk, view, e);
        if dirty[e] {
          disk := disk[ix.key[e] := data[e]];
          dirty := dirty[e := false];
        }
        assert dirty == old(dirty)[e := false];
        ix.Unhash(e);
      } else {
        assert ix.key[e := NONE] == ix.key;
      }
      ix.LruRemove(e, k);
    }

    /** The miss path of `bcache_get` after eviction: entry `e` is published under its new block, moved to the front
        and filled; a failed read takes it out again. */
    method Load(e: nat, block: int, io: bool) returns (ok: bool)
      requires Core() && e < |refs| && ix.key[e] == NONE && e !in ix.lru && 0 <= block < INVALID && block !in ix.key
      requires refs[e] == 0
      modifies this, ix
      ensures Core() && view == old(view) && disk == old(disk) && ok == (io && block in disk)
      ensures ix.lru == [e] + old(ix.lru)
      ensures ok ==>
        ix.key == old(ix.key)[e := block] && refs == old(refs)[e := 1] && data == old(data)[e := disk[block]]
      ensures !ok ==> ix.key == old(ix.key) && refs == old(refs) && data == old(data)
    {
      hide LruOk, ChainOk, Agrees, NoDup;
      AgreeFacts(ix.key, data, dirty, disk, view);
      Undirty(ix.key, data, dirty, disk, view, e);
      if block in disk { Loading(ix.key, data, dirty, disk, view, e, block); }
      dirty := dirty[e := false];
      refs := refs[e := 1];
      ix.Rehash(e, block);
      ix.PushFront(e);
      ok := io && block in disk;
      if !ok {
        ix.Unhash(e);
        ix.LruRemove(e, 0);
        refs := refs[e := 0];
        ix.PushFront(e);
        assert ix.key == old(ix.key) && refs == old(refs);
      } else {
        data := data[e := disk[block]];
      }
    }

    /** `bcache_get`: the entry of a block, held once more, with the contents of the block.  `io` says whether a read
        of the device would succeed.  There is no entry exactly when the block is not cached and either every entry is
        held or the read fails. */
    method Get(block: int, io: bool) returns (e: int)
      requires Valid() && 0 <= block < INVALID
      modifies this, ix
      ensures Valid() && view == old(view) && Kept(old(refs), old(ix.key), old(data), ix.key, data)
      ensures e != NIL ==> 0 <= e < |refs| && ix.key[e] == block && block in view && data[e] == view[block]
      ensures e != NIL ==>
        |refs| == |old(refs)| && refs == old(refs)[e := if block in old(ix.key) then old(refs)[e] + 1 else 1]
      ensures e != NIL ==> (block in old(ix.key) || old(refs)[e] == 0) && ix.lru != [] && ix.lru[0] == e
      ensures e == NIL ==> refs == old(refs)
      ensures e == NIL <==> block !in old(ix.key) && (AllHeld(old(refs)) || !(io && block in disk))
      ensures e != NIL && block !in old(ix.key) ==> Taken(old(ix.lru), old(refs), old(ix.key), ix.lru, ix.key, e, block)
    {
      hide LruOk, ChainOk, Agrees, Without, NoDup;
      AgreeFacts(ix.key, data, dirty, disk, view);
      LruDistinct(ix);
      e := ix.Find(block);
      if e != NIL {
        ghost var x: int := e;
        refs := refs[e := refs[e] + 1];
        assert x in ix.lru;
        ix.MoveFront(e);
        MovedAll(ix, old(ix.lru), e);
        return;
      }
      ghost var k;
      e, k := Evict();
      if e == NIL {
        HeldAll(ix.lru, refs);
        return;
      }
      assert !AllHeld(refs);
      WithoutMember(old(ix.lru), k);
      var ok := Load(e, block, io);
      BackAll(old(ix.lru), k);
      AgreeFacts(ix.key, data, dirty, disk, view);
      if !ok { e := NIL; }
    }

    /** `bcache_put` */
    method Put(e: nat)
      requires Valid() && e < |refs|
      modifies this`refs
      ensures Valid() && |refs| == |old(refs)|
      ensures refs == old(refs)[e := if old(refs)[e] > 0 then old(refs)[e] - 1 else 0]
    {
      if refs[e] > 0 { refs := refs[e := refs[e] - 1]; }
    }

    /** Changing the data of a held entry and marking it dirty. */
    method Store(e: nat, blk: Block)
      requires Valid() && e < |refs| && refs[e] > 0 && ix.key[e] != NONE
      modifies this`data, this`dirty, this`view
      ensures Valid() && view == old(view)[ix.key[e] := blk] && |data| == |old(data)| && e < |data|
      ensures data == old(data)[e := blk]
    {
      hide LruOk, ChainOk, Agrees;
      AgreeFacts(ix.key, data, dirty, disk, view);
      KeysUnique(ix);
      Storing(ix.key, data, dirty, disk, view, e, blk);
      data, dirty := data[e := blk], dirty[e := true];
      view := view[ix.key[e] := blk];
      AgreeFacts(ix.key, data, dirty, disk, view);
    }

    /** `bcache_sync`: afterwards the disk is what every reader sees. */
    method Sync()
      requires Valid()
      modifies this`dirty, this`disk
      ensures Valid() && disk == view && |dirty| == |old(dirty)|
      ensures forall e {:trigger dirty[e]} :: 0 <= e < |dirty| && ix.key[e] != NONE ==> !dirty[e]
    {
      hide LruOk, ChainOk, Agrees;
      AgreeFacts(ix.key, data, dirty, disk, view);
      KeysUnique(ix);
      for i := 0 to |ix.key|
        invariant Valid() && |dirty| == |ix.key| == |old(dirty)| && |data| == |ix.key|
        invariant forall e {:trigger dirty[e]} :: 0 <= e < i && ix.key[e] != NONE ==> !dirty[e]
      {
        if dirty[i] && ix.key[i] != NONE {
          Cleaning(ix.key, data, dirty, disk, view, i);
          disk := disk[ix.key[i] := data[i]];
          dirty := dirty[i := false];
        }
      }
      AllClean(ix.key, data, dirty, disk, view);
    }

    /** `bcache_write_block` */
    method WriteBlock(block: int, blk: Block, io: bool) returns (rc: int)
      requires Valid() && 0 <= block < INVALID
      modifies this, ix
      ensures Valid() && (rc == 0 || rc == -1)
      ensures rc == 0 ==> view == old(view)[block := blk]
      ensures rc == -1 ==> view == old(view)
      ensures refs == old(refs)
      ensures rc == -1 <==> block !in old(ix.key) && (AllHeld(old(refs)) || !(io && block in disk))
    {
      var e := Get(block, io);
      if e == NIL { return -1; }
      Store(e, blk);
      Put(e);
      return 0;
    }

    /** The dispatch step of read-ahead: put one block of the bulk buffer into the cache, unheld. */
    method Fill(block: int, bytes: Block) returns (full: bool)
      requires Valid() && 0 <= block < INVALID && block in disk && block !in ix.key && bytes == disk[block]
      modifies ix, this`data, this`dirty, this`disk
      ensures Valid() && disk.Keys == old(disk.Keys) && Kept(refs, old(ix.key), old(data), ix.key, data)
      ensures forall b {:trigger b in ix.key} :: b in ix.key ==> b in old(ix.key) || b == block || b == NONE
      ensures forall b {:trigger disk[b]} :: b in disk && b !in old(ix.key) ==> disk[b] == old(disk)[b]
      ensures (full <==> AllHeld(refs)) && (full ==> ix.key == old(ix.key)) && (!full ==> block in ix.key)
      ensures !full ==> exists e :: Taken(old(ix.lru), refs, old(ix.key), ix.lru, ix.key, e, block)
    {
      hide LruOk, ChainOk, Agrees, Without, NoDup;
      AgreeFacts(ix.key, data, dirty, disk, view);
      LruDistinct(ix);
      var e, k := Evict();
      AgreeFacts(ix.key, data, dirty, disk, view);
      if e == NIL {
        HeldAll(ix.lru, refs);
        return true;
      }
      WithoutMember(old(ix.lru), k);
      Loading(ix.key, data, dirty, disk, view, e, block);
      dirty := dirty[e := false];
      ix.Rehash(e, block);
      ix.PushFront(e);
      data := data[e := bytes];
      BackAll(old(ix.lru), k);
      assert ix.key[e] == block;
      assert Taken(old(ix.lru), refs, old(ix.key), ix.lru, ix.key, e, block);
      return false;
    }

    /** One block fetched and let go again: the fallback of read-ahead. */
    method Touch(block: int, io: bool)
      requires Valid() && 0 <= block < INVALID
      modifies this, ix
      ensures Valid() && view == old(view) && refs == old(refs) && Kept(old(refs), old(ix.key), old(data), ix.key, data)
      ensures disk.Keys == old(disk.Keys) && (io && block in disk && !AllHeld(refs) ==> block in ix.key)
      ensures io && block in disk && !AllHeld(refs) && block !in old(ix.key) ==>
        exists e :: Taken(old(ix.lru), refs, old(ix.key), ix.lru, ix.key, e, block)
    {
      hide LruOk, ChainOk, Agrees, NoDup;
      AgreeFacts(ix.key, data, dirty, disk, view);
      var e := Get(block, io);
      AgreeFacts(ix.key, data, dirty, disk, view);
      if e != NIL { Put(e); }
    }

    /** The device's bulk read of `run` blocks: all of them or an error. */
    method BulkRead(from: int, run: nat, works: bool) returns (ok: bool, buf: seq<Block>)
      ensures ok ==> |buf| == run && Copied(from, 0, buf, disk)
    {
      ok, buf := works, [];
      for k := 0 to run
        invariant ok ==> |buf| == k && forall b {:trigger b in disk} :: from <= b < from + k ==>
          b in disk && buf[b - from] == disk[b]
      {
        if from + k !in disk { ok := false; }
        if ok { buf := buf + [disk[from + k]]; }
      }
    }

    /** Every block of the run goes into the cache, until no entry can be freed. */
    method Dispatch(from: int, buf: seq<Block>, ghost start: int, ghost count: nat)
      requires Valid() && 0 <= from && from + |buf| < INVALID
      requires Copied(from, 0, buf, disk) && Uncached(from, from + |buf|, ix.key)
      modifies ix, this`data, this`dirty, this`disk
      ensures Valid() && Kept(refs, old(ix.key), old(data), ix.key, data) && disk.Keys == old(disk.Keys)
      ensures buf == [] || AllHeld(refs) || from + |buf| - 1 in ix.key
      ensures old(Going(ix.lru, ix.key, refs, start, from, count)) && from + |buf| <= start + count ==>
        Going(ix.lru, ix.key, refs, start, from + |buf|, count)
    {
      hide LruOk, ChainOk, Agrees, NoDup, Going, Taken;
      ghost var on := Going(ix.lru, ix.key, refs, start, from, count) && from + |buf| <= start + count;
      AgreeFacts(ix.key, data, dirty, disk, view);
      for k := 0 to |buf|
        invariant Valid() && Kept(refs, old(ix.key), old(data), ix.key, data) && disk.Keys == old(disk.Keys)
        invariant k == 0 || from + k - 1 in ix.key
        invariant Copied(from, k, buf, disk) && Uncached(from + k, from + |buf|, ix.key)
        invariant on ==> Going(ix.lru, ix.key, refs, start, from + k, count)
      {
        ghost var k0, d0, disk0, l0 := ix.key, data, disk, ix.lru;
        ghost var b := from + k;
        assert b !in ix.key && b in disk && buf[b - from] == disk[b];
        var full := Fill(from + k, buf[k]);
        KeptTrans(refs, old(ix.key), old(data), k0, d0, ix.key, data);
        if on { GoesOn(l0, k0, refs, ix.lru, ix.key, start, from + k, count); }
        if full { break; }
        forall c | from + k + 1 <= c < from + |buf| ensures c in disk && c !in ix.key && buf[c - from] == disk[c] {
          assert c !in k0 && c in disk0 && buf[c - from] == disk0[c];
        }
      }
    }

    /** One run of read-ahead: in bulk, or block by block if the bulk read fails. */
    method FetchRun(from: int, run: nat, bulk: bool, failing: set<int>, ghost start: int, ghost count: nat)
      requires Valid() && 0 <= from && from + run < INVALID && Uncached(from, from + run, ix.key)
      modifies this, ix
      ensures Valid() && view == old(view) && refs == old(refs) && Kept(old(refs), old(ix.key), old(data), ix.key, data)
      ensures disk.Keys == old(disk.Keys)
      ensures run > 0 && !AllHeld(refs) && Readable(from, run, failing, disk) ==> from + run - 1 in ix.key
      ensures (old(Going(ix.lru, ix.key, refs, start, from, count)) && from + run <= start + count &&
        Readable(from, run, failing, disk)) ==> Going(ix.lru, ix.key, refs, start, from + run, count)
    {
      hide LruOk, ChainOk, Agrees, NoDup, AllHeld, Going, Taken;
      ghost var on := Going(ix.lru, ix.key, refs, start, from, count) && from + run <= start + count &&
        Readable(from, run, failing, disk);
      AgreeFacts(ix.key, data, dirty, disk, view);
      var ok, buf := BulkRead(from, run, bulk);
      if ok {
        Dispatch(from, buf, start, count);
      } else {
        for k := 0 to run
          invariant Valid() && view == old(view) && refs == old(refs)
          invariant Kept(old(refs), old(ix.key), old(data), ix.key, data)
          invariant disk.Keys == old(disk.Keys)
          invariant k > 0 && !AllHeld(refs) && Readable(from, run, failing, disk) ==> from + k - 1 in ix.key
          invariant on ==> Going(ix.lru, ix.key, refs, start, from + k, count)
        {
          ghost var k1, d1, l1 := ix.key, data, ix.lru;
          var b: int := from + k;
          if on { NoneSkipped(l1, k1, refs, start, b, count, b); }
          Touch(b, b !in failing);
          ReadableSame(from, run, failing, old(disk), disk);
          assert Readable(from, run, failing, disk) ==> Reads(failing, disk, b);
          if on { GoesOn(l1, k1, refs, ix.lru, ix.key, start, b, count); }
          KeptTrans(refs, old(ix.key), old(data), k1, d1, ix.key, data);
        }
      }
      ReadableSame(from, run, failing, old(disk), disk);
    }

    /** `bcache_readahead`: a hint that changes nothing a reader can see.  `bulk` says which bulk reads succeed and
        `failing` which single reads do not; `most` is the device's bulk limit.  If all single reads succeed, the last
        block is cached afterwards unless every entry is held; earlier ones may have had to make room for it.  If none
        of the blocks is cached before and as many entries are free as blocks are asked for, all of them are. */
    method ReadAhead(start: int, count: nat, most: nat, bulk: int -> bool, failing: set<int>)
      requires Valid() && 0 <= start && start + count < INVALID
      modifies this, ix
      ensures Valid() && view == old(view) && refs == old(refs) && Kept(old(refs), old(ix.key), old(data), ix.key, data)
      ensures count > 0 && !AllHeld(refs) && Readable(start, count, failing, disk) ==> start + count - 1 in ix.key
      ensures (old(Uncached(start, start + count, ix.key)) && |Unheld(refs)| >= count &&
        Readable(start, count, failing, disk)) ==> AllCached(start, start + count, ix.key)
    {
      hide Valid, AllHeld, Going, Unheld, Uncached, AllCached;
      KeptSelf(this);
      ghost var on := Uncached(start, start + count, ix.key) && |Unheld(refs)| >= count &&
        Readable(start, count, failing, disk);
      if on { Starts(this, start, count); }
      var bmax := if most == 0 then 1 else if most > 16 then 16 else most;
      var i := 0;
      while i < count
        invariant Valid() && view == old(view) && refs == old(refs)
        invariant Kept(old(refs), old(ix.key), old(data), ix.key, data)
        invariant disk.Keys == old(disk.Keys) && i <= count
        invariant i > 0 && !AllHeld(refs) && Readable(start, count, failing, disk) ==> start + i - 1 in ix.key
        invariant on ==> Going(ix.lru, ix.key, refs, start, start + i, count)
        decreases count - i
      {
        ghost var was := i;
        i := Skip(start, count, i);
        if on { NoneSkipped(ix.lru, ix.key, refs, start, start + was, count, start + i); }
        if i >= count { break; }
        var run := Missing(start, count, bmax, i);
        if run == 0 { i := i + 1; continue; }
        ghost var k0, d0 := ix.key, data;
        FetchRun(start + i, run, bulk(start + i), failing, start, count);
        KeptTrans(refs, old(ix.key), old(data), k0, d0, ix.key, data);
        ReadableSame(start, count, failing, old(disk), disk);
        ReadablePart(start, count, i, run, failing, disk);
        i := i + run;
      }
      ReadableSame(start, count, failing, old(disk), disk);
      if on { GoneAll(ix.lru, ix.key, refs, start, count); }
    }

    /** Skip the blocks that are cached already. */
    method Skip(start: int, count: nat, from: nat) returns (i: nat)
      requires Valid() && 0 <= start && from <= count
      ensures from <= i <= count && AllCached(start + from, start + i, ix.key)
    {
      i := from;
      while i < count
        invariant from <= i <= count && AllCached(start + from, start + i, ix.key)
      {
        var e := ix.Find(start + i);
        if e == NIL { break; }
        i := i + 1;
      }
    }

    /** The run of uncached blocks from `i` on, at most `bmax` long. */
    method Missing(start: int, count: nat, bmax: nat, i: nat) returns (run: nat)
      requires Valid() && 0 <= start && i <= count
      ensures run <= bmax && i + run <= count && Uncached(start + i, start + i + run, ix.key)
      ensures run == 0 && bmax > 0 && i < count ==> start + i in ix.key
    {
      run := 0;
      while i + run < count && run < bmax
        invariant run <= bmax && i + run <= count && Uncached(start + i, start + i + run, ix.key)
      {
        var e := ix.Find(start + i + run);
        if e != NIL { break; }
        run := run + 1;
      }
    }
  }

  predicate Reads(failing: set<int>, disk: map<int, Block>, b: int) { b in disk && b !in failing }

  /** Single reads of all blocks of the range succeed. */
  predicate Readable(start: int, count: nat, failing: set<int>, disk: map<int, Block>) {
    forall b {:trigger Reads(failing, disk, b)} :: start <= b < start + count ==> Reads(failing, disk, b)
  }

  lemma ReadableSame(start: int, count: nat, failing: set<int>, disk: map<int, Block>, disk': map<int, Block>)
    requires disk.Keys == disk'.Keys
    ensures Readable(start, count, failing, disk) <==> Readable(start, count, failing, disk')
  {
    assert forall b {:trigger b in disk} :: b in disk.Keys <==> b in disk'.Keys;
    assert forall b {:trigger Reads(failing, disk, b)} {:trigger Reads(failing, disk', b)} ::
      Reads(failing, disk, b) <==> Reads(failing, disk', b);
  }

  lemma ReadablePart(start: int, count: nat, i: nat, run: nat, failing: set<int>, disk: map<int, Block>)
    requires i + run <= count
    ensures Readable(start, count, failing, disk) ==> Readable(start + i, run, failing, disk)
  {
  }

  /** Blocks from `from + lo` on are in the buffer as on the device. */
  ghost predicate Copied(from: int, lo: nat, buf: seq<Block>, disk: map<int, Block>) {
    forall b {:trigger b in disk} :: from + lo <= b < from + |buf| ==> b in disk && buf[b - from] == disk[b]
  }

  ghost predicate Uncached(lo: int, hi: int, key: seq<int>) {
    forall b {:trigger b in key} :: lo <= b < hi ==> b !in key
  }
  ghost predicate AllCached(lo: int, hi: int, key: seq<int>) {
    forall b {:trigger b in key} :: lo <= b < hi ==> b in key
  }

  /** No entry that somebody holds changed its block or its data. */
  ghost predicate Kept(refs: seq<nat>, key: seq<int>, data: seq<Block>, key': seq<int>, data': seq<Block>) {
    && |refs| == |key| == |data| == |key'| == |data'|
    && forall e {:trigger key'[e]} :: 0 <= e < |key| && refs[e] > 0 ==> key'[e] == key[e] && data'[e] == data[e]
  }

  lemma KeptSelf(bc: BufferCache)
    requires bc.Valid()
    ensures Kept(bc.refs, bc.ix.key, bc.data, bc.ix.key, bc.data)
  {
    AgreeFacts(bc.ix.key, bc.data, bc.dirty, bc.disk, bc.view);
  }

  lemma KeptTrans(refs: seq<nat>, k0: seq<int>, d0: seq<Block>, k1: seq<int>, d1: seq<Block>, k2: seq<int>,
      d2: seq<Block>)
    requires Kept(refs, k0, d0, k1, d1) && Kept(refs, k1, d1, k2, d2)
    ensures Kept(refs, k0, d0, k2, d2)
  {
    forall e | 0 <= e < |k0| && refs[e] > 0
      ensures k2[e] == k0[e] && d2[e] == d0[e]
    {
      assert k1[e] == k0[e] && k2[e] == k1[e];
    }
  }

  ghost function Unheld(refs: seq<nat>): set<int> { set e | 0 <= e < |refs| && refs[e] == 0 }

  /** Entry `e`, the last in the list that nobody held, now holds `block` and is the first. */
  ghost predicate Taken(lru: seq<int>, refs: seq<nat>, key: seq<int>, lru': seq<int>, key': seq<int>, e: int,
      block: int) {
    && 0 <= e < |key| == |refs| && key' == key[e := block]
    && exists k: nat :: k < |lru| && lru[k] == e && lru' == [e] + Without(lru, k) &&
         forall i {:trigger lru[i]} :: k < i < |lru| ==> 0 <= lru[i] < |refs| && refs[lru[i]] > 0
  }

  /** The blocks from `start` up to `next` are the last ones fetched: they head the list; the others of the range are
      not cached, and there are entries for all of them. */
  ghost predicate Going(lru: seq<int>, key: seq<int>, refs: seq<nat>, start: int, next: int, count: nat) {
    && start <= next <= start + count && next - start <= |lru| && |refs| == |key|
    && |Unheld(refs)| >= count && NoDup(lru)
    && (forall e {:trigger e in lru} :: 0 <= e < |key| ==> e in lru)
    && (forall j {:trigger lru[j]} :: 0 <= j < |lru| ==> 0 <= lru[j] < |key|)
    && (forall j {:trigger lru[j]} :: 0 <= j < next - start ==> key[lru[j]] == next - 1 - j)
    && Uncached(next, start + count, key)
  }

  /** So many entries are free that the one taken is none of the range. */
  lemma FreeBehind(lru: seq<int>, key: seq<int>, refs: seq<nat>, start: int, next: int, count: nat, k: nat)
    requires Going(lru, key, refs, start, next, count) && next < start + count && k < |lru|
    requires forall i {:trigger lru[i]} :: k < i < |lru| ==> 0 <= lru[i] < |refs| && refs[lru[i]] > 0
    ensures k >= next - start
  {
    var u, q := Unheld(refs), lru[..k + 1];
    forall e | e in u ensures e in q {
      assert e in lru;
      var i :| 0 <= i < |lru| && lru[i] == e;
      assert q[i] == e;
    }
    Few(q);
    var all := set e | e in q;
    assert all == u + (all - u);
  }

  lemma {:induction false} Few(q: seq<int>)
    ensures |set e | e in q| <= |q|
  {
    if q == [] {
      assert (set e | e in q) == {};
    } else {
      var init, last := q[..|q| - 1], q[|q| - 1];
      Few(init);
      assert q == init + [last];
      assert (set e | e in q) == (set e | e in init) + {last};
    }
  }

  lemma GoesOn(lru: seq<int>, key: seq<int>, refs: seq<nat>, lru': seq<int>, key': seq<int>, start: int, next: int,
      count: nat)
    requires Going(lru, key, refs, start, next, count) && next < start + count
    requires AllHeld(refs) || exists e :: Taken(lru, refs, key, lru', key', e, next)
    ensures !AllHeld(refs) && Going(lru', key', refs, start, next + 1, count)
  {
    hide NoDup;
    SomeFree(refs);
    var e :| Taken(lru, refs, key, lru', key', e, next);
    var k: nat :| k < |lru| && lru[k] == e && lru' == [e] + Without(lru, k) &&
      forall i {:trigger lru[i]} :: k < i < |lru| ==> 0 <= lru[i] < |refs| && refs[lru[i]] > 0;
    FreeBehind(lru, key, refs, start, next, count, k);
    FrontMoved(lru, k);
    forall j | 0 <= j < next + 1 - start ensures key'[lru'[j]] == next - j {
      if j > 0 { assert lru'[j] == lru[j - 1] && lru[j - 1] != e; }
    }
    forall b | next + 1 <= b < start + count ensures b !in key' { assert b !in key; }
  }

  lemma SomeFree(refs: seq<nat>)
    requires |Unheld(refs)| > 0
    ensures !AllHeld(refs)
  {
    var e :| e in Unheld(refs);
    assert refs[e] == 0;
  }

  lemma FrontMoved(lru: seq<int>, k: nat)
    requires NoDup(lru) && k < |lru|
    ensures var lru' := [lru[k]] + Without(lru, k);
      && |lru'| == |lru| && NoDup(lru') && (forall e {:trigger e in lru'} :: e in lru ==> e in lru')
      && (forall j {:trigger lru'[j]} :: 0 <= j < |lru'| ==> lru'[j] in lru)
      && (forall j {:trigger lru'[j]} :: 0 < j <= k ==> lru'[j] == lru[j - 1] != lru[k])
  {
    var lru' := [lru[k]] + Without(lru, k);
    forall e | e in lru ensures e in lru' {
      var i :| 0 <= i < |lru| && lru[i] == e;
      if i < k { assert lru'[i + 1] == e; } else if i > k { assert lru'[i] == e; } else { assert lru'[0] == e; }
    }
    forall j | 0 <= j < |lru'| ensures lru'[j] == lru[if j == 0 then k else if j <= k then j - 1 else j] {
      if j > 0 { WithoutAt(lru, k, j - 1); }
    }
  }

  lemma Starts(bc: BufferCache, start: int, count: nat)
    requires bc.Valid() && Uncached(start, start + count, bc.ix.key) && |Unheld(bc.refs)| >= count
    ensures Going(bc.ix.lru, bc.ix.key, bc.refs, start, start, count)
  {
    LruDistinct(bc.ix);
    forall j | 0 <= j < |bc.ix.lru| ensures 0 <= bc.ix.lru[j] < |bc.ix.key| {
      assert Linked(bc.ix.prev, bc.ix.next, bc.ix.lru, j);
    }
  }

  lemma NoneSkipped(lru: seq<int>, key: seq<int>, refs: seq<nat>, start: int, next: int, count: nat, i: int)
    requires Going(lru, key, refs, start, next, count) && next <= i <= start + count && AllCached(next, i, key)
    ensures i == next && (next < start + count ==> next !in key)
  {
    if next < start + count { assert next !in key; }
  }

  lemma GoneAll(lru: seq<int>, key: seq<int>, refs: seq<nat>, start: int, count: nat)
    requires Going(lru, key, refs, start, start + count, count)
    ensures AllCached(start, start + count, key)
  {
    forall b | start <= b < start + count ensures b in key {
      var j := start + count - 1 - b;
      assert key[lru[j]] == b;
    }
  }

  ghost predicate AllHeld(refs: seq<nat>) { forall x {:trigger refs[x]} :: 0 <= x < |refs| ==> refs[x] > 0 }

  lemma KeysUnique(ix: Index)
    requires ix.Valid()
    ensures Unique(ix.key)
  {
  }

  lemma LruDistinct(ix: Index)
    requires ix.Valid()
    ensures NoDup(ix.lru)
  {
  }

  lemma TailOf(prev: seq<int>, next: seq<int>, first: int, tail: int, lru: seq<int>)
    requires LruOk(prev, next, first, tail, lru)
    ensures tail == if lru == [] then NIL else lru[|lru| - 1]
    ensures lru != [] ==> 0 <= tail < |prev|
  {
    if lru != [] { assert Linked(prev, next, lru, |lru| - 1); }
  }

  lemma BackOne(prev: seq<int>, next: seq<int>, first: int, tail: int, lru: seq<int>, k: nat)
    requires LruOk(prev, next, first, tail, lru) && k < |lru|
    ensures 0 <= lru[k] < |prev| && prev[lru[k]] == (if k == 0 then HEAD else lru[k - 1])
    ensures (k > 0 ==> 0 <= lru[k - 1] < |prev|)
  {
    assert Linked(prev, next, lru, k);
    if k > 0 { assert Linked(prev, next, lru, k - 1); }
  }

  lemma Undirty(key: seq<int>, data: seq<Block>, dirty: seq<bool>, disk: map<int, Block>, view: map<int, Block>, e: nat)
    requires Agrees(key, data, dirty, disk, view) && e < |key| && key[e] == NONE
    ensures Agrees(key, data, dirty[e := false], disk, view)
  {
    forall x | 0 <= x < |key| && key[x] != NONE
      ensures Holds(key, data, dirty[e := false], disk, view, x)
    {
      assert Holds(key, data, dirty, disk, view, x);
    }
  }

  lemma HeldAll(lru: seq<int>, refs: seq<nat>)
    requires forall x {:trigger x in lru} :: 0 <= x < |refs| ==> x in lru
    requires forall i {:trigger lru[i]} :: 0 <= i < |lru| ==> 0 <= lru[i] < |refs| && refs[lru[i]] > 0
    ensures AllHeld(refs)
  {
    forall x | 0 <= x < |refs| ensures refs[x] > 0 { assert x in lru; }
  }

  lemma MovedAll(ix: Index, was: seq<int>, e: int)
    requires Moved(was, ix.lru, e)
    ensures ix.lru != [] && ix.lru[0] == e && forall x {:trigger x in ix.lru} :: x in was ==> x in ix.lru
  {
    var k: nat :| k < |was| && was[k] == e && ix.lru == [e] + Without(was, k);
    BackAll(was, k);
  }

  lemma BackAll(was: seq<int>, k: nat)
    requires k < |was|
    ensures forall x {:trigger x in [was[k]] + Without(was, k)} :: x in was ==> x in [was[k]] + Without(was, k)
  {
    forall x | x in was ensures x in [was[k]] + Without(was, k) {
      var i :| 0 <= i < |was| && was[i] == x;
      if i < k { assert Without(was, k)[i] == x; } else if i > k { assert Without(was, k)[i - 1] == x; }
    }
  }

  lemma WithoutMember(was: seq<int>, k: nat)
    requires k < |was| && NoDup(was)
    ensures was[k] !in Without(was, k)
  {
    WithoutNoDup(was, k);
  }

  lemma AllClean(key: seq<int>, data: seq<Block>, dirty: seq<bool>, disk: map<int, Block>, view: map<int, Block>)
    requires Agrees(key, data, dirty, disk, view)
    requires forall e {:trigger dirty[e]} :: 0 <= e < |dirty| && key[e] != NONE ==> !dirty[e]
    ensures disk == view
  {
    forall b | b in disk ensures disk[b] == view[b] {
      if b in key {
        var e :| 0 <= e < |key| && key[e] == b;
        assert Holds(key, data, dirty, disk, view, e) && !dirty[e];
      }
    }
  }
}
