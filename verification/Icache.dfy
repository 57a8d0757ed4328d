/** The inode cache of the ext4 driver, stacked on the block cache. */
module Icache {
  import opened Arith
  import opened Bytes
  import opened Lists
  import opened LruHash
  import opened Bcache

  /** Size of the inode structure the driver copies; records on disk may be longer. */
  const ISIZE := 128
  const EINVAL := 22
  const EIO := 5

  // ---------------------------------------------------------------- where inodes are

  datatype Layout = Layout(bs: nat, isz: nat, ipg: nat, table: seq<nat>) {
    /** Inode records tile blocks and the inode tables of different groups do not overlap. */
    ghost predicate Ok() {
      && (bs == 1024 || bs == 2048 || bs == 4096) && isz >= ISIZE && bs % isz == 0 && ipg > 0
      && forall g, h {:trigger table[g], table[h]} :: 0 <= g < h < |table| ==> Apart(table[g], table[h])
    }

    ghost predicate Apart(s: nat, t: nat) { s * bs + ipg * isz <= t * bs || t * bs + ipg * isz <= s * bs }

    function Group(ino: nat): nat
      requires ino > 0 && ipg > 0
    {
      (ino - 1) / ipg
    }

    function Slot(ino: nat): nat
      requires ino > 0 && ipg > 0
    {
      (ino - 1) % ipg
    }

    predicate Has(ino: nat) { ino > 0 && ipg > 0 && bs > 0 && PAGE % bs == 0 && PAGE / bs > 0 && Group(ino) < |table| }

    /** Block and byte offset of an inode record. */
    function BlockOf(ino: nat): nat
      requires Has(ino)
    {
      table[Group(ino)] + Slot(ino) * isz / bs
    }

    function OffOf(ino: nat): nat
      requires Has(ino)
    {
      Slot(ino) * isz % bs
    }

    /** The same in terms of the 4096-byte pages of the block cache. */
    function PageOf(ino: nat): nat
      requires Has(ino)
    {
      BlockOf(ino) / (PAGE / bs)
    }

    function At(ino: nat): nat
      requires Has(ino)
    {
      BlockOf(ino) % (PAGE / bs) * bs + OffOf(ino)
    }
  }

  /** A record that divides the block never crosses its end. */
  lemma SlotFits(i: nat, n: nat, m: nat)
    requires n > 0 && m > 0
    ensures m * n > 0 && i * n % (m * n) + n <= m * n
  {
    var q, t := Quot(i, m), Rem(i, m);
    QuotRem(i, m);
    hide Quot, Rem;
    Rows(q, m, t, n);
    MulMono(t + 1, m, n);
    Distribute(t, 1, n);
    DivMod(q, m * n, t * n);
  }

  lemma PageFits(b: nat, r: nat, bs: nat)
    requires r > 0 && r * bs == PAGE
    ensures b % r * bs + bs <= PAGE
  {
    MulMono(b % r + 1, r, bs);
    Distribute(b % r, 1, bs);
  }

  lemma Exact(n: nat, bs: nat)
    requires n > 0 && bs % n == 0
    ensures bs / n * n == bs && (bs > 0 ==> bs / n > 0)
  {
    assert bs == bs / n * n + bs % n;
  }

  /** An inode lies in one page. */
  lemma InPage(lay: Layout, ino: nat)
    requires lay.Ok() && lay.Has(ino)
    ensures lay.At(ino) + lay.isz <= PAGE
  {
    hide Layout.BlockOf, Layout.Slot, Layout.Apart;
    Exact(lay.isz, lay.bs);
    Exact(lay.bs, PAGE);
    SlotFits(lay.Slot(ino), lay.isz, lay.bs / lay.isz);
    PageFits(lay.BlockOf(ino), PAGE / lay.bs, lay.bs);
  }

  lemma Rows(q: nat, m: nat, t: nat, n: nat)
    ensures (q * m + t) * n == q * (m * n) + t * n
  {
  }

  /** Page and offset together are the byte address in the inode table. */
  lemma Address(lay: Layout, ino: nat)
    requires lay.Ok() && lay.Has(ino)
    ensures lay.PageOf(ino) * PAGE + lay.At(ino) == lay.table[lay.Group(ino)] * lay.bs + lay.Slot(ino) * lay.isz
  {
    var r, b := PAGE / lay.bs, lay.BlockOf(ino);
    var x := lay.Slot(ino) * lay.isz;
    assert b == b / r * r + b % r;
    Rows(b / r, r, b % r, lay.bs);
    assert r * lay.bs == PAGE;
    assert x == x / lay.bs * lay.bs + x % lay.bs;
    Distribute(lay.table[lay.Group(ino)], x / lay.bs, lay.bs);
  }

  /** Records of the table of one group: different slots are at least one record apart and inside the table. */
  lemma SlotsApart(i: nat, j: nat, n: nat, ipg: nat)
    requires i < ipg && j < ipg
    ensures i * n + n <= ipg * n && (i < j ==> i * n + n <= j * n)
  {
    MulMono(i + 1, ipg, n);
    Distribute(i, 1, n);
    if i < j { MulMono(i + 1, j, n); }
  }

  lemma SameSlot(a: nat, b: nat, ipg: nat)
    requires ipg > 0 && a / ipg == b / ipg && a % ipg == b % ipg
    ensures a == b
  {
    assert a == a / ipg * ipg + a % ipg && b == b / ipg * ipg + b % ipg;
  }

  /** Different inodes have disjoint records. */
  lemma Disjoint(lay: Layout, a: nat, b: nat)
    requires lay.Ok() && lay.Has(a) && lay.Has(b) && a != b
    ensures lay.PageOf(a) != lay.PageOf(b) || lay.At(a) + lay.isz <= lay.At(b) || lay.At(b) + lay.isz <= lay.At(a)
  {
    hide Layout.PageOf, Layout.At, Layout.Slot, Layout.Group;
    Address(lay, a);
    Address(lay, b);
    SlotRange(lay, a);
    SlotRange(lay, b);
    SlotsDiffer(lay, a, b);
    var g, h := lay.Group(a), lay.Group(b);
    assert g < h ==> lay.Apart(lay.table[g], lay.table[h]);
    assert h < g ==> lay.Apart(lay.table[h], lay.table[g]);
    SlotsApart(lay.Slot(a), lay.Slot(b), lay.isz, lay.ipg);
    SlotsApart(lay.Slot(b), lay.Slot(a), lay.isz, lay.ipg);
  }

  lemma SlotsDiffer(lay: Layout, a: nat, b: nat)
    requires lay.Ok() && lay.Has(a) && lay.Has(b) && a != b
    ensures lay.Group(a) != lay.Group(b) || lay.Slot(a) != lay.Slot(b)
  {
    if lay.Group(a) == lay.Group(b) && lay.Slot(a) == lay.Slot(b) { SameSlot(a - 1, b - 1, lay.ipg); }
  }

  lemma SlotRange(lay: Layout, a: nat)
    requires lay.Ok() && lay.Has(a)
    ensures lay.Slot(a) < lay.ipg && lay.Group(a) < |lay.table|
  {
  }

  // ---------------------------------------------------------------- inode contents

  type Raw = r: seq<Byte> | |r| == ISIZE witness seq(ISIZE, _ => 0)

  /** All inode pages exist and have full size. */
  ghost predicate Formatted(lay: Layout, view: map<int, Block>) {
    forall ino: nat {:trigger lay.PageOf(ino)} :: lay.Has(ino) ==>
      lay.PageOf(ino) in view && |view[lay.PageOf(ino)]| == PAGE
  }

  /** Inode `ino` as the disk behind the block cache holds it. */
  ghost function InodeAt(lay: Layout, view: map<int, Block>, ino: nat): Raw
    requires lay.Ok() && lay.Has(ino) && Formatted(lay, view)
  {
    InPage(lay, ino);
    view[lay.PageOf(ino)][lay.At(ino)..lay.At(ino) + ISIZE]
  }

  /** Inode `ino` is number `k` of group `g`; inodes are counted from 1. */
  ghost predicate Numbered(lay: Layout, ino: nat, g: nat, k: nat) {
    g < |lay.table| && k < lay.ipg && ino == g * lay.ipg + k + 1
  }

  /** The bytes from address `addr` of the device on, in blocks of 4096. */
  ghost predicate HoldsAt(view: map<int, Block>, addr: nat, bytes: seq<Byte>) {
    forall i {:trigger bytes[i]} :: 0 <= i < |bytes| ==>
      && (addr + i) / 4096 in view && (addr + i) % 4096 < |view[(addr + i) / 4096]|
      && view[(addr + i) / 4096][(addr + i) % 4096] == bytes[i]
  }

  /** The record of inode g * ipg + k + 1 is record k of the table of group g. */
  lemma RecordAt(lay: Layout, ino: nat, g: nat, k: nat)
    requires lay.Ok() && Numbered(lay, ino, g, k)
    ensures lay.Has(ino) && lay.PageOf(ino) * 4096 + lay.At(ino) == lay.table[g] * lay.bs + k * lay.isz
  {
    DivMod(g, lay.ipg, k);
    assert ino - 1 == g * lay.ipg + k;
    Address(lay, ino);
  }

  /** So that is where the inode is read and written. */
  lemma RecordHolds(lay: Layout, view: map<int, Block>, ino: nat, g: nat, k: nat)
    requires lay.Ok() && Numbered(lay, ino, g, k) && Formatted(lay, view) && lay.Has(ino)
    ensures HoldsAt(view, lay.table[g] * lay.bs + k * lay.isz, InodeAt(lay, view, ino))
  {
    hide Layout.PageOf, Layout.At, Layout.Slot, Layout.Group;
    RecordAt(lay, ino, g, k);
    InPage(lay, ino);
    var addr, raw := lay.table[g] * lay.bs + k * lay.isz, InodeAt(lay, view, ino);
    forall i {:trigger raw[i]} | 0 <= i < |raw|
      ensures (addr + i) / 4096 == lay.PageOf(ino) && (addr + i) % 4096 == lay.At(ino) + i
    {
      DivMod(lay.PageOf(ino), 4096, lay.At(ino) + i);
    }
  }

  /** `raw` is what the table of its group holds for `ino`. */
  ghost predicate InTable(lay: Layout, view: map<int, Block>, ino: nat, raw: Raw) {
    forall g: nat, k: nat {:trigger Numbered(lay, ino, g, k)} :: Numbered(lay, ino, g, k) ==>
      HoldsAt(view, lay.table[g] * lay.bs + k * lay.isz, raw)
  }

  lemma RecordHoldsAll(lay: Layout, view: map<int, Block>, ino: nat)
    requires lay.Ok() && Formatted(lay, view) && lay.Has(ino)
    ensures InTable(lay, view, ino, InodeAt(lay, view, ino))
  {
    hide HoldsAt, InodeAt, Formatted;
    forall g: nat, k: nat | Numbered(lay, ino, g, k)
      ensures HoldsAt(view, lay.table[g] * lay.bs + k * lay.isz, InodeAt(lay, view, ino))
    {
      RecordHolds(lay, view, ino, g, k);
    }
  }

  /** Patching bytes of the record of `ino` touches no other inode. */
  lemma Patched(lay: Layout, view: map<int, Block>, ino: nat, from: nat, src: seq<Byte>, m: nat)
    requires lay.Ok() && lay.Has(ino) && lay.Has(m) && Formatted(lay, view) && from + |src| <= lay.isz
    ensures lay.At(ino) + from + |src| <= PAGE
    ensures var view' := view[lay.PageOf(ino) := Patch(view[lay.PageOf(ino)], lay.At(ino) + from, src)];
      && Formatted(lay, view')
      && (m != ino || from >= ISIZE ==> InodeAt(lay, view', m) == InodeAt(lay, view, m))
      && (from == 0 && |src| == ISIZE ==> InodeAt(lay, view', ino) == src)
  {
    hide Layout.PageOf, Layout.At, Layout.Ok;
    InPage(lay, ino);
    InPage(lay, m);
    SizeOk(lay);
    var page := view[lay.PageOf(ino)];
    var view' := view[lay.PageOf(ino) := Patch(page, lay.At(ino) + from, src)];
    if m != ino { Disjoint(lay, m, ino); }
    PatchOutside(page, lay.At(ino) + from, src, lay.At(m));
    PatchInside(page, lay.At(ino) + from, src);
  }

  lemma SizeOk(lay: Layout)
    requires lay.Ok()
    ensures lay.isz >= ISIZE
  {
  }

  lemma PatchOutside(page: Block, at: nat, src: seq<Byte>, x: nat)
    requires at + |src| <= |page| && x + ISIZE <= |page|
    ensures x + ISIZE <= at || at + |src| <= x ==> Patch(page, at, src)[x..x + ISIZE] == page[x..x + ISIZE]
  {
  }

  lemma PatchInside(page: Block, at: nat, src: seq<Byte>)
    requires at + |src| <= |page|
    ensures Patch(page, at, src)[at..at + |src|] == src
  {
  }

  // ---------------------------------------------------------------- the cache

  /** Every cached inode is what the block cache shows for it. */
  ghost predicate Coherent(lay: Layout, key: seq<int>, data: seq<Raw>, view: map<int, Block>) {
    && lay.Ok() && Formatted(lay, view) && |data| == |key|
    && forall e {:trigger Fresh(lay, key, data, view, e)} :: 0 <= e < |key| && key[e] != NONE ==>
      Fresh(lay, key, data, view, e)
  }

  ghost predicate Fresh(lay: Layout, key: seq<int>, data: seq<Raw>, view: map<int, Block>, e: int) {
    0 <= e < |key| && |data| == |key| && lay.Ok() && Formatted(lay, view) && key[e] >= 0 && lay.Has(key[e]) &&
      data[e] == InodeAt(lay, view, key[e])
  }

  lemma CoherentFacts(lay: Layout, key: seq<int>, data: seq<Raw>, view: map<int, Block>)
    requires Coherent(lay, key, data, view)
    ensures lay.Ok() && Formatted(lay, view) && |data| == |key|
  {
  }

  lemma CachedInode(lay: Layout, key: seq<int>, data: seq<Raw>, view: map<int, Block>, e: nat)
    requires Coherent(lay, key, data, view) && e < |key| && key[e] != NONE
    ensures key[e] >= 0 && lay.Has(key[e]) && data[e] == InodeAt(lay, view, key[e])
  {
    assert Fresh(lay, key, data, view, e);
  }

  lemma Forgotten(lay: Layout, key: seq<int>, data: seq<Raw>, view: map<int, Block>, e: nat)
    requires Coherent(lay, key, data, view) && e < |key|
    ensures Coherent(lay, key[e := NONE], data, view)
  {
    hide InodeAt, Formatted, Layout.Ok, Layout.Has;
    var key' := key[e := NONE];
    forall x | 0 <= x < |key| && key'[x] != NONE
      ensures Fresh(lay, key', data, view, x)
    {
      assert Fresh(lay, key, data, view, x);
    }
  }

  lemma Remembered(lay: Layout, key: seq<int>, data: seq<Raw>, view: map<int, Block>, e: nat, ino: nat, raw: Raw)
    requires Coherent(lay, key, data, view) && e < |key| && lay.Has(ino) && raw == InodeAt(lay, view, ino)
    ensures Coherent(lay, key[e := ino], data[e := raw], view)
  {
    hide InodeAt, Formatted, Layout.Ok, Layout.Has;
    var key', data' := key[e := ino], data[e := raw];
    forall x | 0 <= x < |key| && key'[x] != NONE ensures Fresh(lay, key', data', view, x) {
      if x != e { assert Fresh(lay, key, data, view, x); }
    }
  }

  /** The pages changed, but no inode did. */
  lemma SameInodes(lay: Layout, key: seq<int>, data: seq<Raw>, view: map<int, Block>, view': map<int, Block>)
    requires Coherent(lay, key, data, view) && Same(lay, view, view')
    ensures Coherent(lay, key, data, view')
  {
    hide InodeAt, Formatted, Layout.Ok, Layout.Has;
    forall e | 0 <= e < |key| && key[e] != NONE
      ensures Fresh(lay, key, data, view', e)
    {
      assert Fresh(lay, key, data, view, e);
    }
  }

  class InodeCache {
    const lay: Layout
    const ix: Index
    const bc: BufferCache
    var data: seq<Raw>

    ghost predicate Valid()
      reads this, ix, bc, bc.ix
    {
      && ix != bc.ix && ix.Valid() && bc.Valid() && Coherent(lay, ix.key, data, bc.view)
      && (forall e {:trigger e in ix.lru} :: 0 <= e < |ix.key| ==> e in ix.lru)
      && forall b :: b in bc.view ==> b < INVALID
    }

    /** `ic_init` */
    constructor (l: Layout, b: BufferCache, size: nat, buckets: nat)
      requires l.Ok() && b.Valid() && Formatted(l, b.view) && buckets > 0 && forall k :: k in b.view ==> k < INVALID
      ensures Valid() && fresh(ix) && bc == b && lay == l
    {
      var i := new Index(size, buckets);
      lay, ix, bc := l, i, b;
      data := seq(size, _ => seq(ISIZE, _ => 0));
      new;
      forall e | 0 <= e < size ensures e in ix.lru { assert ix.lru[size - 1 - e] == e; }
    }

    /** The contents of an inode as the next read must return it. */
    ghost function Inode(ino: nat): Raw
      requires Valid() && lay.Has(ino)
      reads this, ix, bc, bc.ix
    {
      InodeAt(lay, bc.view, ino)
    }

    /** Copy the record out of its page. */
    method Fetch(ino: nat, io: bool) returns (rc: int, out: Raw)
      requires Valid() && lay.Has(ino)
      modifies bc, bc.ix
      ensures Valid() && bc.view == old(bc.view) && (rc == 0 || rc == -EIO)
      ensures (rc == 0 ==> out == InodeAt(lay, bc.view, ino))
      ensures bc.refs == old(bc.refs)
    {
      hide LruOk, ChainOk, Agrees, Coherent, NoDup;
      out := seq(ISIZE, _ => 0);
      CoherentFacts(lay, ix.key, data, bc.view);
      PageNr(lay, bc.view, ino);
      var be := bc.Get(lay.PageOf(ino), io);
      if be == NIL { return -EIO, out; }
      InPage(lay, ino);
      AgreeFacts(bc.ix.key, bc.data, bc.dirty, bc.disk, bc.view);
      out := bc.data[be][lay.At(ino)..lay.At(ino) + ISIZE];
      bc.Put(be);
      rc := 0;
    }

    /** Put a fetched inode into the least recently used entry. */
    method Remember(ino: nat, raw: Raw)
      requires Valid() && lay.Has(ino) && raw == InodeAt(lay, bc.view, ino)
      modifies this`data, ix
      ensures Valid() && (var x: int := ino; ix.lru != [] ==> x in ix.key)
    {
      hide LruOk, ChainOk, Agrees, Coherent, NoDup, InodeAt;
      CoherentFacts(lay, ix.key, data, bc.view);
      var e := ix.Find(ino);
      if e != NIL { return; }
      TailOf(ix.prev, ix.next, ix.first, ix.tail, ix.lru);
      e := ix.tail;
      if e != NIL && e != HEAD {
        ghost var x: int := e;
        Forgotten(lay, ix.key, data, bc.view, e);
        if ix.key[e] != NONE { ix.Unhash(e); }
        Remembered(lay, ix.key, data, bc.view, e, ino, raw);
        data := data[e := raw];
        assert x in ix.lru;
        ix.MoveFront(e);
        MovedAll(ix, old(ix.lru), e);
        ix.Rehash(e, ino);
        assert ix.key[e] == ino;
      }
    }

    /** `ext4_inode_read`: from the cache if it is there, else from its page, and then remembered. */
    method Read(ino: nat, io: bool) returns (rc: int, out: Raw)
      requires Valid() && (ino == 0 || lay.Has(ino))
      modifies this`data, ix, bc, bc.ix
      ensures Valid() && bc.view == old(bc.view)
      ensures rc == -EINVAL <==> ino == 0
      ensures rc == 0 || rc == -EIO || rc == -EINVAL
      ensures rc == 0 ==> out == Inode(ino) && (var x: int := ino; ix.lru != [] ==> x in ix.key)
      ensures rc == 0 ==> |out| == 128 && InTable(lay, bc.view, ino, out)
      ensures bc.refs == old(bc.refs)
    {
      hide LruOk, ChainOk, Agrees, Coherent, NoDup, InodeAt, InTable;
      out := seq(ISIZE, _ => 0);
      if ino == 0 { return -EINVAL, out; }
      CoherentFacts(lay, ix.key, data, bc.view);
      RecordHoldsAll(lay, bc.view, ino);
      var e := ix.Find(ino);
      if e != NIL {
        ghost var x: int := e;
        CachedInode(lay, ix.key, data, bc.view, e);
        out := data[e];
        assert x in ix.lru;
        ix.MoveFront(e);
        MovedAll(ix, old(ix.lru), e);
        return 0, out;
      }
      rc, out := Fetch(ino, io);
      if rc < 0 { return; }
      Remember(ino, out);
    }

    /** Change bytes of an inode record in its page. */
    method Poke(ino: nat, from: nat, src: seq<Byte>, io: bool) returns (rc: int)
      requires Valid() && lay.Has(ino) && from + |src| <= lay.isz
      modifies bc, bc.ix
      ensures bc.Valid() && (rc == 0 || rc == -EIO) && (rc < 0 ==> bc.view == old(bc.view) && Valid())
      ensures bc.refs == old(bc.refs)
      ensures lay.At(ino) + from + |src| <= PAGE && lay.PageOf(ino) in old(bc.view)
      ensures |old(bc.view)[lay.PageOf(ino)]| == PAGE
      ensures rc == 0 ==>
        bc.view == old(bc.view)[lay.PageOf(ino) := Patch(old(bc.view)[lay.PageOf(ino)], lay.At(ino) + from, src)]
    {
      hide LruOk, ChainOk, Agrees, Coherent, NoDup, Patch, Layout.PageOf, Layout.At;
      CoherentFacts(lay, ix.key, data, bc.view);
      PageNr(lay, bc.view, ino);
      InPage(lay, ino);
      var be := bc.Get(lay.PageOf(ino), io);
      if be == NIL { return -EIO; }
      AgreeFacts(bc.ix.key, bc.data, bc.dirty, bc.disk, bc.view);
      bc.Store(be, Patch(bc.data[be], lay.At(ino) + from, src));
      bc.Put(be);
      rc := 0;
    }

    /** `ext4_inode_write`: into its page through the block cache, and into the cached copy if there is one. */
    method Write(ino: nat, raw: Raw, io: bool) returns (rc: int)
      requires Valid() && (ino == 0 || lay.Has(ino))
      modifies this`data, ix, bc, bc.ix
      ensures Valid() && (rc == 0 || rc == -EIO || rc == -EINVAL) && (rc == -EINVAL <==> ino == 0)
      ensures rc < 0 ==> bc.view == old(bc.view)
      ensures bc.refs == old(bc.refs)
      ensures rc == 0 ==> Changed(lay, old(bc.view), bc.view, ino, raw)
      ensures rc == 0 ==> InTable(lay, bc.view, ino, raw)
    {
      hide LruOk, ChainOk, Agrees, Coherent, NoDup, InodeAt, Patch, Formatted, Changed, Layout.PageOf, Layout.At,
        InTable;
      if ino == 0 { return -EINVAL; }
      CoherentFacts(lay, ix.key, data, bc.view);
      ghost var view := bc.view;
      rc := Poke(ino, 0, raw, io);
      if rc < 0 { return; }
      PatchedAll(lay, view, ino, raw);
      ChangedHere(lay, view, bc.view, ino, raw);
      var e := ix.Find(ino);
      KeysUnique(ix);
      CopyUpdated(lay, ix.key, data, view, bc.view, ino, raw, e);
      if e != NIL {
        ghost var x: int := e;
        data := data[e := raw];
        assert x in ix.lru;
        ix.MoveFront(e);
        MovedAll(ix, old(ix.lru), e);
      }
    }

    /** `ext4_write_extra`: the record behind the inode structure; no inode changes. */
    method WriteExtra(ino: nat, src: seq<Byte>, io: bool) returns (rc: int)
      requires Valid() && lay.Has(ino) && ISIZE + |src| <= lay.isz
      modifies bc, bc.ix
      ensures Valid() && (rc == 0 || rc == -EIO)
      ensures Same(lay, old(bc.view), bc.view) && bc.refs == old(bc.refs)
      ensures lay.At(ino) + ISIZE + |src| <= PAGE && lay.PageOf(ino) in old(bc.view)
      ensures |old(bc.view)[lay.PageOf(ino)]| == PAGE
      ensures bc.view == if rc < 0 then old(bc.view)
        else old(bc.view)[lay.PageOf(ino) := Patch(old(bc.view)[lay.PageOf(ino)], lay.At(ino) + ISIZE, src)]
    {
      hide LruOk, ChainOk, Agrees, NoDup, InodeAt, Patch, Layout.PageOf, Layout.At;
      ghost var view := bc.view;
      rc := Poke(ino, ISIZE, src, io);
      if rc == 0 {
        forall m: nat | lay.Has(m) ensures Formatted(lay, bc.view) &&
          InodeAt(lay, bc.view, m) == InodeAt(lay, view, m) {
          Patched(lay, view, ino, ISIZE, src, m);
        }
        Patched(lay, view, ino, ISIZE, src, ino);
        SameInodes(lay, ix.key, data, view, bc.view);
      }
    }

    /** `ic_invalidate`: forget the cached copy; the entry becomes the next to be reused. */
    method Invalidate(ino: nat)
      requires Valid()
      modifies ix
      ensures Valid() && (var x: int := ino; x !in ix.key)
      ensures var x: int := ino;
        if x !in old(ix.key) then ix.key == old(ix.key) && ix.lru == old(ix.lru)
        else
          && ix.lru != []
          && var e := ix.lru[|ix.lru| - 1];
          0 <= e < |old(ix.key)| && old(ix.key)[e] == x && ix.key == old(ix.key)[e := NONE]
    {
      hide LruOk, ChainOk, Agrees, Coherent, NoDup, Without;
      var e := ix.Find(ino);
      if e == NIL { return; }
      Forgotten(lay, ix.key, data, bc.view, e);
      KeysUnique(ix);
      LruDistinct(ix);
      ghost var x: int := e;
      assert x in ix.lru;
      ghost var k := Position(ix.lru, e);
      ix.Unhash(e);
      WithoutMember(ix.lru, k);
      BackAll(ix.lru, k);
      ghost var was := ix.lru;
      ix.LruRemove(e, k);
      ix.PushBack(e);
      forall y | y in was ensures y in ix.lru { assert y in [was[k]] + Without(was, k); }
    }

    /** Any other write through the block cache: bytes outside the inode tables.  No inode changes. */
    method Scribble(block: nat, at: nat, src: seq<Byte>, io: bool) returns (rc: int)
      requires Valid() && block < INVALID && OutsideTables(lay, block * PAGE + at, |src|)
      modifies bc, bc.ix
      ensures Valid() && Same(lay, old(bc.view), bc.view) && bc.refs == old(bc.refs) && (rc == 0 || rc == -EIO)
      ensures rc < 0 ==> bc.view == old(bc.view)
      ensures rc == 0 ==> block in old(bc.view) && at + |src| <= |old(bc.view)[block]| &&
                          bc.view == old(bc.view)[block := Patch(old(bc.view)[block], at, src)]
      ensures io && !AllHeld(old(bc.refs)) && block in old(bc.view) && at + |src| <= |old(bc.view)[block]| ==> rc == 0
    {
      hide LruOk, ChainOk, Agrees, Coherent, NoDup, Patch, InodeAt, Formatted, AllHeld;
      CoherentFacts(lay, ix.key, data, bc.view);
      SameSelf(lay, bc.view);
      ghost var view := bc.view;
      var be := bc.Get(block, io);
      AgreeFacts(bc.ix.key, bc.data, bc.dirty, bc.disk, bc.view);
      if be == NIL { return -EIO; }
      rc := -EIO;
      if at + |src| <= |bc.data[be]| {
        Elsewhere(lay, view, block, at, src);
        bc.Store(be, Patch(bc.data[be], at, src));
        SameInodes(lay, ix.key, data, view, bc.view);
        rc := 0;
      }
      bc.Put(be);
    }

    /** One operation of the driver, the inode cache or the block cache. */
    method Step(op: Op) returns (ev: Event)
      requires Valid() && OpOk(lay, op)
      modifies this`data, ix, bc, bc.ix
      ensures Valid() && After(lay, old(bc.view), bc.view, ev)
      ensures ev.Got? ==> op.ReadInode? && ev.ino == op.ino
      ensures ev.Wrote? ==> op.WriteInode? && ev == Wrote(op.ino, op.raw)
    {
      hide LruOk, ChainOk, Agrees, Coherent, NoDup, InodeAt, Patch, Formatted, Changed, Kept, Layout.PageOf, Layout.At,
        AllHeld;
      CoherentFacts(lay, ix.key, data, bc.view);
      ev := Quiet;
      match op {
      case ReadInode(ino, io) =>
        var rc, out := Read(ino, io);
        if rc == 0 { ev := Got(ino, out); }
      case WriteInode(ino, raw, io) =>
        var rc := Write(ino, raw, io);
        if rc == 0 { ev := Wrote(ino, raw); }
      case Drop(ino) =>
        Invalidate(ino);
      case Extra(ino, src, io) =>
        var _ := WriteExtra(ino, src, io);
      case GetBlock(block, io) =>
        var _ := bc.Get(block, io);
      case PutBlock(e) =>
        if e < |bc.refs| { bc.Put(e); }
      case WriteBytes(block, at, src, io) =>
        var _ := Scribble(block, at, src, io);
      case SyncBlocks =>
        bc.Sync();
      case Ahead(start, count, most, works, failing) =>
        bc.ReadAhead(start, count, most, _ => works, failing);
      }
      CoherentFacts(lay, ix.key, data, bc.view);
    }

    /** Any sequence of operations: every inode read returns what the last write of that inode stored, or what was
        there at the start, whatever was hit, evicted, invalidated, synced or read ahead in between. */
    method Run(ops: seq<Op>) returns (log: seq<Event>)
      requires Valid() && forall k {:trigger ops[k]} :: 0 <= k < |ops| ==> OpOk(lay, ops[k])
      modifies this`data, ix, bc, bc.ix
      ensures Valid() && |log| == |ops|
      ensures forall k: nat {:trigger Truthful(lay, old(bc.view), log, k)} :: k < |log| ==>
        Truthful(lay, old(bc.view), log, k)
      ensures forall k {:trigger log[k]} :: 0 <= k < |log| && log[k].Wrote? ==>
        ops[k].WriteInode? && log[k] == Wrote(ops[k].ino, ops[k].raw)
      ensures forall k {:trigger log[k]} :: 0 <= k < |log| && log[k].Got? ==>
        ops[k].ReadInode? && log[k].ino == ops[k].ino
    {
      hide LruOk, ChainOk, Agrees, Coherent, NoDup, InodeAt, Formatted, After, Latest, Truthful;
      CoherentFacts(lay, ix.key, data, bc.view);
      log := [];
      StartLog(lay, bc.view);
      for i := 0 to |ops|
        invariant Valid() && |log| == i && UpToDate(lay, old(bc.view), log, bc.view)
        invariant forall k: nat {:trigger Truthful(lay, old(bc.view), log, k)} :: k < |log| ==>
          Truthful(lay, old(bc.view), log, k)
        invariant forall k {:trigger log[k]} :: 0 <= k < |log| && log[k].Wrote? ==>
          ops[k].WriteInode? && log[k] == Wrote(ops[k].ino, ops[k].raw)
        invariant forall k {:trigger log[k]} :: 0 <= k < |log| && log[k].Got? ==>
          ops[k].ReadInode? && log[k].ino == ops[k].ino
      {
        ghost var view, was := bc.view, log;
        var ev := Step(ops[i]);
        Extended(lay, old(bc.view), was, view, bc.view, ev);
        log := log + [ev];
        forall k: nat | k < |log| ensures Truthful(lay, old(bc.view), log, k) { if k < i { assert log[k] == was[k]; } }
      }
    }
  }

  datatype Op =
    | ReadInode(ino: nat, io: bool)
    | WriteInode(ino: nat, raw: Raw, io: bool)
    | Drop(ino: nat)
    | Extra(ino: nat, src: seq<Byte>, io: bool)
    | GetBlock(block: nat, io: bool)
    | PutBlock(e: nat)
    | WriteBytes(block: nat, at: nat, src: seq<Byte>, io: bool)
    | SyncBlocks
    | Ahead(start: nat, count: nat, most: nat, works: bool, failing: set<int>)

  /** The `n` bytes from byte address `from` on belong to no inode table. */
  predicate OutsideTables(lay: Layout, from: nat, n: nat) {
    forall g {:trigger lay.table[g]} :: 0 <= g < |lay.table| ==>
      from + n <= lay.table[g] * lay.bs || lay.table[g] * lay.bs + lay.ipg * lay.isz <= from
  }

  /** Such bytes can be written without changing any inode. */
  lemma Elsewhere(lay: Layout, view: map<int, Block>, block: nat, at: nat, src: seq<Byte>)
    requires lay.Ok() && Formatted(lay, view) && block in view && at + |src| <= |view[block]|
    requires OutsideTables(lay, block * PAGE + at, |src|)
    ensures Same(lay, view, view[block := Patch(view[block], at, src)])
  {
    hide Patch, Layout.Ok, Layout.PageOf, Layout.At;
    var view' := view[block := Patch(view[block], at, src)];
    forall m: nat | lay.Has(m) ensures Formatted(lay, view') && InodeAt(lay, view', m) == InodeAt(lay, view, m) {
      InPage(lay, m);
      SizeOk(lay);
      if lay.PageOf(m) == block {
        NotInRecord(lay, m, block, at, |src|);
        PatchOutside(view[block], at, src, lay.At(m));
      }
    }
  }

  lemma NotInRecord(lay: Layout, m: nat, block: nat, at: nat, n: nat)
    requires lay.Ok() && lay.Has(m) && lay.PageOf(m) == block && OutsideTables(lay, block * PAGE + at, n)
    ensures lay.At(m) + ISIZE <= at || at + n <= lay.At(m)
  {
    hide Layout.PageOf, Layout.At;
    Address(lay, m);
    SlotRange(lay, m);
    SizeOk(lay);
    SlotsApart(lay.Slot(m), lay.Slot(m), lay.isz, lay.ipg);
    assert lay.table[lay.Group(m)] == lay.table[lay.Group(m)];
  }

  lemma SameSelf(lay: Layout, view: map<int, Block>)
    requires lay.Ok() && Formatted(lay, view)
    ensures Same(lay, view, view)
  {
  }

  predicate OpOk(lay: Layout, op: Op) {
    match op
    case ReadInode(ino, _) => ino == 0 || lay.Has(ino)
    case WriteInode(ino, _, _) => ino == 0 || lay.Has(ino)
    case Drop(_) => true
    case Extra(ino, src, _) => lay.Has(ino) && ISIZE + |src| <= lay.isz
    case GetBlock(block, _) => block < INVALID
    case PutBlock(_) => true
    case WriteBytes(block, at, src, _) => block < INVALID && OutsideTables(lay, block * PAGE + at, |src|)
    case SyncBlocks => true
    case Ahead(start, count, _, _, _) => start + count < INVALID
  }

  /** What an operation did that an observer can tell: a successful read or write, or nothing. */
  datatype Event = Got(ino: nat, out: Raw) | Wrote(ino: nat, raw: Raw) | Quiet

  ghost predicate After(lay: Layout, view: map<int, Block>, view': map<int, Block>, ev: Event) {
    && lay.Ok() && Formatted(lay, view) && Formatted(lay, view')
    && match ev
       case Wrote(ino, raw) => Changed(lay, view, view', ino, raw)
       case Got(ino, out) => view' == view && lay.Has(ino) && out == InodeAt(lay, view, ino)
       case Quiet => Same(lay, view, view')
  }

  ghost predicate Same(lay: Layout, view: map<int, Block>, view': map<int, Block>) {
    && lay.Ok() && Formatted(lay, view) && Formatted(lay, view')
    && forall m: nat {:trigger InodeAt(lay, view', m)} :: lay.Has(m) ==> InodeAt(lay, view', m) == InodeAt(lay, view, m)
  }

  /** The last value written to `ino` in the log, or its value at the start. */
  ghost function Latest(lay: Layout, view: map<int, Block>, log: seq<Event>, ino: nat): Raw
    requires lay.Ok() && Formatted(lay, view) && lay.Has(ino)
  {
    if log == [] then InodeAt(lay, view, ino)
    else
      var ev := log[|log| - 1];
      if ev.Wrote? && ev.ino == ino then ev.raw else Latest(lay, view, log[..|log| - 1], ino)
  }

  ghost predicate Truthful(lay: Layout, view: map<int, Block>, log: seq<Event>, k: nat) {
    k < |log| &&
      (log[k].Got? ==>
      lay.Ok() && Formatted(lay, view) && lay.Has(log[k].ino) && log[k].out == Latest(lay, view, log[..k], log[k].ino))
  }

  ghost predicate UpToDate(lay: Layout, view0: map<int, Block>, log: seq<Event>, view: map<int, Block>) {
    && lay.Ok() && Formatted(lay, view0) && Formatted(lay, view)
    && forall m: nat {:trigger InodeAt(lay, view, m)} :: lay.Has(m) ==>
      InodeAt(lay, view, m) == Latest(lay, view0, log, m)
  }

  lemma StartLog(lay: Layout, view: map<int, Block>)
    requires lay.Ok() && Formatted(lay, view)
    ensures UpToDate(lay, view, [], view)
  {
    hide InodeAt, Formatted;
  }

  lemma Extended(lay: Layout, view0: map<int, Block>, log: seq<Event>, view: map<int, Block>, view': map<int, Block>,
      ev: Event)
    requires UpToDate(lay, view0, log, view) && After(lay, view, view', ev)
    ensures UpToDate(lay, view0, log + [ev], view') && Truthful(lay, view0, log + [ev], |log|)
    ensures forall k: nat {:trigger Truthful(lay, view0, log + [ev], k)} ::
      k < |log| && Truthful(lay, view0, log, k) ==> Truthful(lay, view0, log + [ev], k)
  {
    hide InodeAt, Formatted, Layout.Has, Layout.Ok;
    var l := log + [ev];
    assert l[..|log|] == log;
    forall k: nat | k < |log| && Truthful(lay, view0, log, k)
      ensures Truthful(lay, view0, l, k)
    {
      assert l[..k] == log[..k];
    }
    forall m: nat | lay.Has(m) ensures InodeAt(lay, view', m) == Latest(lay, view0, l, m) {
      assert InodeAt(lay, view, m) == Latest(lay, view0, log, m);
    }
  }

  /** Inode `ino` is now `raw`; every other inode is as it was. */
  ghost predicate Changed(lay: Layout, view: map<int, Block>, view': map<int, Block>, ino: nat, raw: Raw) {
    && lay.Ok() && Formatted(lay, view) && Formatted(lay, view')
    && forall m: nat {:trigger InodeAt(lay, view', m)} :: lay.Has(m) ==>
      InodeAt(lay, view', m) == if m == ino then raw else InodeAt(lay, view, m)
  }

  lemma ChangedHere(lay: Layout, view: map<int, Block>, view': map<int, Block>, ino: nat, raw: Raw)
    requires Changed(lay, view, view', ino, raw) && lay.Has(ino)
    ensures InTable(lay, view', ino, raw)
  {
    hide InTable, InodeAt, Formatted;
    RecordHoldsAll(lay, view', ino);
  }

  lemma PatchedAll(lay: Layout, view: map<int, Block>, ino: nat, raw: Raw)
    requires lay.Ok() && lay.Has(ino) && Formatted(lay, view)
    ensures lay.At(ino) + ISIZE <= PAGE
    ensures Changed(lay, view, view[lay.PageOf(ino) := Patch(view[lay.PageOf(ino)], lay.At(ino) + 0, raw)], ino, raw)
  {
    hide Patch, InodeAt, Layout.PageOf, Layout.At;
    InPage(lay, ino);
    SizeOk(lay);
    Patched(lay, view, ino, 0, raw, ino);
    var view' := view[lay.PageOf(ino) := Patch(view[lay.PageOf(ino)], lay.At(ino) + 0, raw)];
    forall m: nat | lay.Has(m)
      ensures InodeAt(lay, view', m) == if m == ino then raw else InodeAt(lay, view, m)
    {
      Patched(lay, view, ino, 0, raw, m);
    }
  }

  lemma CopyUpdated(lay: Layout, key: seq<int>, data: seq<Raw>, view: map<int, Block>, view': map<int, Block>,
      ino: nat, raw: Raw, e: int)
    requires Coherent(lay, key, data, view) && Unique(key) && lay.Has(ino) && Changed(lay, view, view', ino, raw)
    requires if e == NIL then ino !in key else 0 <= e < |key| && key[e] == ino
    ensures |data| == |key| && Coherent(lay, key, if e == NIL then data else data[e := raw], view')
  {
    hide InodeAt, Formatted, Layout.Ok, Layout.Has;
    var data' := if e == NIL then data else data[e := raw];
    forall x | 0 <= x < |key| && key[x] != NONE
      ensures Fresh(lay, key, data', view', x)
    {
      assert Fresh(lay, key, data, view, x);
    }
  }

  lemma PageNr(lay: Layout, view: map<int, Block>, ino: nat)
    requires lay.Ok() && lay.Has(ino) && Formatted(lay, view) && forall b :: b in view ==> b < INVALID
    ensures 0 <= lay.PageOf(ino) < INVALID && lay.PageOf(ino) in view && |view[lay.PageOf(ino)]| == PAGE
  {
  }
}
