/** Cutting a file short: which blocks are given back, what the file maps to afterwards, and what i_blocks then says. */
module Ext4Truncate {
  import opened Arith
  import opened Bytes
  import opened Ext4Bitmap
  import opened Ext4Volume
  import opened Ext4Map
  import opened Ext4File

  // ---------------------------------------------------------------- what is dropped

  /** Some place of `ps` named block `b`. */
  ghost predicate Named(disk: Disk, inodes: Inodes, ps: set<Place>, b: nat)
    requires Pointered(inodes)
  {
    exists p :: p in ps && PtrAt(disk, inodes, p) == b
  }

  /** Since `d0`, exactly the blocks named by `ps` became unused; only bitmap blocks and `trimmed` were written. */
  ghost predicate Dropped(geo: Geo, d0: Disk, t: Inodes, d: Disk, ps: set<Place>, trimmed: int) {
    && Owned(geo, d0, t) && Formatted(geo, d) && |d| == |d0|
    && (forall p {:trigger p in ps} :: p in ps ==> PlaceOk(geo.bs / 4, t, p) && PtrAt(d0, t, p) != 0)
    && (forall c {:trigger d[c]} :: 0 <= c < |d0| && c != trimmed && !IsBitmap(geo, c) ==> d[c] == d0[c])
    && (forall b: nat {:trigger Used(geo, d, b)} :: geo.Covers(b) ==>
      (Used(geo, d, b) <==> Used(geo, d0, b) && !Named(d0, t, ps, b)))
  }

  lemma DroppedFacts(geo: Geo, d0: Disk, t: Inodes, d: Disk, ps: set<Place>, trimmed: int)
    requires Dropped(geo, d0, t, d, ps, trimmed)
    ensures Owned(geo, d0, t) && Pointered(t) && Formatted(geo, d) && Formatted(geo, d0) && |d| == |d0| && geo.bs > 0
    ensures forall p {:trigger p in ps} :: p in ps ==> PlaceOk(geo.bs / 4, t, p) && PtrAt(d0, t, p) != 0
  {
  }

  lemma NothingDropped(geo: Geo, d: Disk, t: Inodes, trimmed: int)
    requires Owned(geo, d, t)
    ensures Dropped(geo, d, t, d, {}, trimmed)
  {
  }

  /** A place that was not dropped still names a used block. */
  lemma StillUsed(geo: Geo, d0: Disk, t: Inodes, d: Disk, ps: set<Place>, trimmed: int, p: Place)
    requires Dropped(geo, d0, t, d, ps, trimmed) && PlaceOk(geo.bs / 4, t, p) && p !in ps && PtrAt(d0, t, p) != 0
    ensures Ownable(geo, d, PtrAt(d0, t, p))
  {
    hide Owned, PtrAt, IsBitmap, Used;
    OwnedPointered(geo, d0, t);
    NamedOwnable(geo, d0, t, p);
    forall q | q in ps ensures PtrAt(d0, t, q) != PtrAt(d0, t, p) { NoClash(geo, d0, t, p, q); }
  }

  lemma DropOne(geo: Geo, d0: Disk, t: Inodes, d: Disk, d': Disk, ps: set<Place>, trimmed: int, p: Place)
    requires Dropped(geo, d0, t, d, ps, trimmed) && PlaceOk(geo.bs / 4, t, p) && PtrAt(d0, t, p) != 0
    requires Freed(geo, d, d', PtrAt(d0, t, p))
    ensures Dropped(geo, d0, t, d', ps + {p}, trimmed)
  {
    hide Owned, PtrAt, IsBitmap, Used, Formatted;
    OwnedPointered(geo, d0, t);
    forall b: nat | geo.Covers(b) ensures Used(geo, d', b) <==> Used(geo, d0, b) && !Named(d0, t, ps + {p}, b) {
      assert Used(geo, d', b) <==> b != PtrAt(d0, t, p) && Used(geo, d, b);
      assert Used(geo, d, b) <==> Used(geo, d0, b) && !Named(d0, t, ps, b);
      NamedMore(d0, t, ps, p, b);
    }
  }

  lemma NamedMore(d0: Disk, t: Inodes, ps: set<Place>, p: Place, b: nat)
    requires Pointered(t)
    ensures Named(d0, t, ps + {p}, b) <==> Named(d0, t, ps, b) || PtrAt(d0, t, p) == b
  {
    hide PtrAt;
    if Named(d0, t, ps, b) {
      var q :| q in ps && PtrAt(d0, t, q) == b;
      assert q in ps + {p};
    }
    assert p in ps + {p};
  }

  /** Rewriting the trimmed block changes no used bit. */
  lemma DropWrite(geo: Geo, d0: Disk, t: Inodes, d: Disk, ps: set<Place>, b: nat, blk: Block)
    requires Dropped(geo, d0, t, d, ps, b) && b < |d| && !IsBitmap(geo, b) && |blk| == geo.bs
    ensures Dropped(geo, d0, t, d[b := blk], ps, b)
  {
    hide Owned, PtrAt, IsBitmap, UsedAt;
    OwnedPointered(geo, d0, t);
    DataWrite(geo, d, b, blk);
    forall c: nat | geo.Covers(c) ensures Used(geo, d[b := blk], c) == Used(geo, d, c) { CoversParts(geo, c); }
  }

  /** The `i`-th entry below an index place. */
  function Child(h: Place, i: nat): Place
    requires h.slot.Single? || h.slot.Double? || h.slot.Mid?
  {
    match h.slot
    case Single => Place(h.ino, Ind(i))
    case Double => Place(h.ino, Mid(i))
    case Mid(k) => Place(h.ino, Leaf(k, i))
  }

  /** `p` is a filled entry of the index block at `h`, with its index in [lo, hi). */
  ghost predicate Kid(disk: Disk, inodes: Inodes, h: Place, lo: nat, hi: nat, p: Place)
    requires Pointered(inodes)
  {
    Indexed(p.slot) && Above(p) == h && lo <= Key(p.slot) < hi && PtrAt(disk, inodes, p) != 0
  }

  lemma KidsMore(disk: Disk, inodes: Inodes, h: Place, lo: nat, i: nat, p: Place)
    requires Pointered(inodes) && lo <= i && (h.slot.Single? || h.slot.Double? || h.slot.Mid?)
    ensures Kid(disk, inodes, h, lo, i + 1, p) <==>
      Kid(disk, inodes, h, lo, i, p) || (p == Child(h, i) && PtrAt(disk, inodes, p) != 0)
    ensures !Kid(disk, inodes, h, lo, lo, p)
  {
    hide PtrAt;
  }

  /** Entry `i` of the index block at `h`, while it has not been written. */
  lemma ChildPtr(geo: Geo, d0: Disk, t: Inodes, d: Disk, ps: set<Place>, trimmed: int, h: Place, i: nat)
    requires Dropped(geo, d0, t, d, ps, trimmed) && PlaceOk(geo.bs / 4, t, h) && i < geo.bs / 4
    requires (h.slot.Single? || h.slot.Double? || h.slot.Mid?) && PtrAt(d0, t, h) != 0 && PtrAt(d0, t, h) != trimmed
    ensures Entry(d, PtrAt(d0, t, h), i) == PtrAt(d0, t, Child(h, i)) && PlaceOk(geo.bs / 4, t, Child(h, i))
  {
    hide Owned, IsBitmap, Used, ReadPtr;
    OwnedPointered(geo, d0, t);
    NamedOwnable(geo, d0, t, h);
  }

  // ---------------------------------------------------------------- giving blocks back

  /** Free the block named by `p`. */
  method FreePlace(vol: Volume, b: nat, ghost d0: Disk, ghost t: Inodes, ghost ps: set<Place>, ghost trimmed: int,
      ghost p: Place)
    requires vol.Valid() && Dropped(vol.geo, d0, t, vol.disk, ps, trimmed)
    requires PlaceOk(vol.geo.bs / 4, t, p) && p !in ps && Pointered(t) && b == PtrAt(d0, t, p) && b != 0
    modifies vol
    ensures vol.Valid() && Dropped(vol.geo, d0, t, vol.disk, ps + {p}, trimmed) && vol.sFree == old(vol.sFree) + 1
    ensures |vol.disk| == |old(vol.disk)|
    ensures forall c {:trigger vol.disk[c]} :: 0 <= c < |old(vol.disk)| == |vol.disk| && !IsBitmap(vol.geo, c) ==>
      vol.disk[c] == old(vol.disk)[c]
  {
    hide Volume.Valid, Dropped, Owned, PtrAt, IsBitmap, Used, Formatted;
    StillUsed(vol.geo, d0, t, vol.disk, ps, trimmed, p);
    ghost var d := vol.disk;
    vol.Free(b);
    DropOne(vol.geo, d0, t, d, vol.disk, ps, trimmed, p);
  }

  /** `free_indirect_blocks`: every block the index block names, then the index block itself. */
  method FreeIndirect(vol: Volume, ib: nat, ghost d0: Disk, ghost t: Inodes, ghost ps: set<Place>, ghost trimmed: int,
      ghost h: Place)
    returns (ghost qs: set<Place>)
    requires vol.Valid() && Dropped(vol.geo, d0, t, vol.disk, ps, trimmed)
    requires PlaceOk(vol.geo.bs / 4, t, h) && (h.slot.Single? || h.slot.Mid?) && Pointered(t) && ib == PtrAt(d0, t, h)
    requires ib != 0 && ib != trimmed && h !in ps
    requires forall p {:trigger p in ps} :: p in ps ==> !(Indexed(p.slot) && Above(p) == h)
    modifies vol
    ensures vol.Valid() && Dropped(vol.geo, d0, t, vol.disk, qs, trimmed) && vol.sFree - |qs| == old(vol.sFree) - |ps|
    ensures forall p {:trigger p in qs} :: p in qs <==> p in ps || p == h || Kid(d0, t, h, 0, vol.geo.bs / 4, p)
    ensures |vol.disk| == |old(vol.disk)|
    ensures forall c {:trigger vol.disk[c]} :: 0 <= c < |old(vol.disk)| == |vol.disk| && !IsBitmap(vol.geo, c) ==>
      vol.disk[c] == old(vol.disk)[c]
  {
    hide Volume.Valid, Dropped, Owned, PtrAt, Used, Formatted, Kid, Entry;
    qs := ps;
    forall p ensures !Kid(d0, t, h, 0, 0, p) { KidsMore(d0, t, h, 0, 0, p); }
    for i := 0 to vol.geo.bs / 4
      invariant vol.Valid() && Dropped(vol.geo, d0, t, vol.disk, qs, trimmed)
      invariant vol.sFree - |qs| == old(vol.sFree) - |ps|
      invariant forall p {:trigger p in qs} :: p in qs <==> p in ps || Kid(d0, t, h, 0, i, p)
      invariant forall c {:trigger vol.disk[c]} :: 0 <= c < |old(vol.disk)| == |vol.disk| && !IsBitmap(vol.geo, c) ==>
        vol.disk[c] == old(vol.disk)[c]
      invariant |vol.disk| == |old(vol.disk)|
    {
      ChildPtr(vol.geo, d0, t, vol.disk, qs, trimmed, h, i);
      ghost var p := Child(h, i);
      KidRange(d0, t, h, 0, i, p);
      forall q
        ensures Kid(d0, t, h, 0, i + 1, q) <==> Kid(d0, t, h, 0, i, q) || (q == p && PtrAt(d0, t, q) != 0)
      {
        KidsMore(d0, t, h, 0, i, q);
      }
      var e := Entry(vol.disk, ib, i);
      if e != 0 {
        FreePlace(vol, e, d0, t, qs, trimmed, p);
        qs := qs + {p};
      }
    }
    KidRange(d0, t, h, 0, vol.geo.bs / 4, h);
    FreePlace(vol, ib, d0, t, qs, trimmed, h);
    qs := qs + {h};
  }

  lemma KidRange(disk: Disk, inodes: Inodes, h: Place, lo: nat, hi: nat, p: Place)
    requires Pointered(inodes)
    ensures Kid(disk, inodes, h, lo, hi, p) ==>
      Indexed(p.slot) && Above(p) == h && lo <= Key(p.slot) < hi && p != h && PtrAt(disk, inodes, p) != 0
  {
  }

  /** A filled place below the double-indirect block, through one of its first `n` entries. */
  ghost predicate Deep(disk: Disk, inodes: Inodes, h: Place, n: nat, p: Place)
    requires Pointered(inodes)
  {
    p.ino == h.ino && (p.slot.Mid? || p.slot.Leaf?) && p.slot.i < n && PtrAt(disk, inodes, p) != 0
  }

  /** What lies below entry `i` of the double-indirect block. */
  lemma DeepMore(geo: Geo, disk: Disk, inodes: Inodes, h: Place, i: nat, p: Place)
    requires Pointered(inodes) && h.slot == Double && PlaceOk(geo.bs / 4, inodes, h)
    requires (p.slot.Leaf? ==> p.slot.j < geo.bs / 4)
    ensures Deep(disk, inodes, h, i + 1, p) <==>
      Deep(disk, inodes, h, i, p) || (p == Child(h, i) && PtrAt(disk, inodes, p) != 0) ||
        Kid(disk, inodes, Child(h, i), 0, geo.bs / 4, p)
    ensures Kid(disk, inodes, Child(h, i), 0, geo.bs / 4, p) ==> PtrAt(disk, inodes, Child(h, i)) != 0
    ensures !Deep(disk, inodes, h, 0, p)
  {
    hide Entry;
    if p.slot.Leaf? { NoEntry(disk, p.slot.j); }
  }

  /** `free_double_indirect_blocks`. */
  method FreeDouble(vol: Volume, db: nat, ghost d0: Disk, ghost t: Inodes, ghost ps: set<Place>, ghost trimmed: int,
      ghost h: Place)
    returns (ghost qs: set<Place>)
    requires vol.Valid() && Dropped(vol.geo, d0, t, vol.disk, ps, trimmed)
    requires PlaceOk(vol.geo.bs / 4, t, h) && h.slot == Double && Pointered(t) && db == PtrAt(d0, t, h) && db != 0
    requires trimmed < 0 ||
      (trimmed > 0 && PlaceOk(vol.geo.bs / 4, t, Place(h.ino, Single)) && trimmed == PtrAt(d0, t, Place(h.ino, Single)))
    requires forall p {:trigger p in ps} :: p in ps ==> !p.slot.Double? && !p.slot.Mid? && !p.slot.Leaf?
    modifies vol
    ensures vol.Valid() && Dropped(vol.geo, d0, t, vol.disk, qs, trimmed) && vol.sFree - |qs| == old(vol.sFree) - |ps|
    ensures forall p {:trigger p in qs} :: p in qs <==>
      p in ps || p == h || (SlotOk(vol.geo.bs / 4, p.slot) && Deep(d0, t, h, vol.geo.bs / 4, p))
    ensures |vol.disk| == |old(vol.disk)|
    ensures forall c {:trigger vol.disk[c]} :: 0 <= c < |old(vol.disk)| == |vol.disk| && !IsBitmap(vol.geo, c) ==>
      vol.disk[c] == old(vol.disk)[c]
  {
    hide Volume.Valid, Dropped, Owned, PtrAt, Used, Formatted, Kid, Entry, Deep;
    var apb := vol.geo.bs / 4;
    qs := ps;
    DroppedFacts(vol.geo, d0, t, vol.disk, ps, trimmed);
    if trimmed >= 0 { NoClash(vol.geo, d0, t, Place(h.ino, Single), h); }
    forall p: Place | SlotOk(apb, p.slot) ensures !Deep(d0, t, h, 0, p) { DeepMore(vol.geo, d0, t, h, 0, p); }
    for i := 0 to apb
      invariant vol.Valid() && Dropped(vol.geo, d0, t, vol.disk, qs, trimmed)
      invariant vol.sFree - |qs| == old(vol.sFree) - |ps|
      invariant forall p {:trigger p in qs} :: p in qs <==> p in ps || (SlotOk(apb, p.slot) && Deep(d0, t, h, i, p))
      invariant forall c {:trigger vol.disk[c]} :: 0 <= c < |old(vol.disk)| == |vol.disk| && !IsBitmap(vol.geo, c) ==>
        vol.disk[c] == old(vol.disk)[c]
      invariant |vol.disk| == |old(vol.disk)|
    {
      ChildPtr(vol.geo, d0, t, vol.disk, qs, trimmed, h, i);
      ghost var mid := Child(h, i);
      if trimmed >= 0 { NoClash(vol.geo, d0, t, Place(h.ino, Single), mid); }
      forall q: Place | SlotOk(apb, q.slot) ensures
        (Deep(d0, t, h, i + 1, q) <==>
          Deep(d0, t, h, i, q) || (q == mid && PtrAt(d0, t, q) != 0) || Kid(d0, t, mid, 0, apb, q))
        && (Kid(d0, t, mid, 0, apb, q) ==> PtrAt(d0, t, mid) != 0)
      { DeepMore(vol.geo, d0, t, h, i, q); }
      var e := Entry(vol.disk, db, i);
      if e != 0 {
        forall p | p in qs ensures p != mid && !(Indexed(p.slot) && Above(p) == mid) { DeepRange(d0, t, h, i, p); }
        forall q | Kid(d0, t, mid, 0, apb, q) ensures SlotOk(apb, q.slot) { KidRange(d0, t, mid, 0, apb, q); }
        qs := FreeIndirect(vol, e, d0, t, qs, trimmed, mid);
      }
    }
    DeepRange(d0, t, h, apb, h);
    FreePlace(vol, db, d0, t, qs, trimmed, h);
    qs := qs + {h};
  }

  lemma DeepRange(disk: Disk, inodes: Inodes, h: Place, n: nat, p: Place)
    requires Pointered(inodes)
    ensures Deep(disk, inodes, h, n, p) ==>
      p.ino == h.ino && (p.slot.Mid? || p.slot.Leaf?) && p.slot.i < n && PtrAt(disk, inodes, p) != 0
  {
  }

  /** The direct pointers from logical block `n` on. */
  method DropDirect(vol: Volume, ptr: seq<nat>, n: nat, ghost d0: Disk, ghost t: Inodes, ghost trimmed: int,
      ghost ino: nat)
    returns (ptr': seq<nat>, ghost qs: set<Place>)
    requires vol.Valid() && Dropped(vol.geo, d0, t, vol.disk, {}, trimmed) && Pointered(t) && ino in t
    requires ptr == t[ino].ptr
    modifies vol
    ensures vol.Valid() && Dropped(vol.geo, d0, t, vol.disk, qs, trimmed) && vol.sFree - |qs| == old(vol.sFree)
    ensures |ptr'| == NPTR && forall k :: 0 <= k < NPTR ==> ptr'[k] == if n <= k < NDIR then 0 else ptr[k]
    ensures forall p {:trigger p in qs} :: p in qs <==>
      p.ino == ino && p.slot.Direct? && n <= p.slot.i < NDIR && PtrAt(d0, t, p) != 0
  {
    hide Volume.Valid, Dropped, Owned, Used, Formatted;
    ptr', qs := ptr, {};
    var i := n;
    while i < NDIR
      invariant n <= i && (n <= NDIR ==> i <= NDIR)
      invariant vol.Valid() && Dropped(vol.geo, d0, t, vol.disk, qs, trimmed) && vol.sFree - |qs| == old(vol.sFree)
      invariant |ptr'| == NPTR && forall k :: 0 <= k < NPTR ==> ptr'[k] == if n <= k < i && k < NDIR then 0 else ptr[k]
      invariant forall p {:trigger p in qs} :: p in qs <==>
        p.ino == ino && p.slot.Direct? && n <= p.slot.i < i && p.slot.i < NDIR && PtrAt(d0, t, p) != 0
    {
      ghost var p := Place(ino, Direct(i));
      if ptr'[i] != 0 {
        FreePlace(vol, ptr'[i], d0, t, qs, trimmed, p);
        qs := qs + {p};
        ptr' := ptr'[i := 0];
      }
      i := i + 1;
    }
  }

  /** The entries of the index block from `start` on are freed and cleared in place; the index block stays. */
  method TrimIndirect(vol: Volume, ib: nat, start: nat, ghost d0: Disk, ghost t: Inodes,
      ghost ps: set<Place>, ghost h: Place)
    returns (ghost qs: set<Place>)
    requires vol.Valid() && Dropped(vol.geo, d0, t, vol.disk, ps, ib)
    requires PlaceOk(vol.geo.bs / 4, t, h) && h.slot.Single? && Pointered(t) && ib == PtrAt(d0, t, h) && ib != 0
    requires |vol.disk| == |d0| && ib < |d0| ==> vol.disk[ib] == d0[ib]
    requires forall p {:trigger p in ps} :: p in ps ==> p.slot.Direct?
    modifies vol
    ensures vol.Valid() && Dropped(vol.geo, d0, t, vol.disk, qs, ib) && vol.sFree - |qs| == old(vol.sFree) - |ps|
    ensures forall p {:trigger p in qs} :: p in qs <==> p in ps || Kid(d0, t, h, start, vol.geo.bs / 4, p)
    ensures forall j: nat {:trigger Entry(vol.disk, ib, j)} ::
      Entry(vol.disk, ib, j) == if start <= j < vol.geo.bs / 4 then 0 else Entry(d0, ib, j)
  {
    hide Volume.Valid, Dropped, Owned, PtrAt, Used, Formatted, Kid, Entry, IsBitmap, WritePtr;
    qs := ps;
    var i, apb := start, vol.geo.bs / 4;
    IndexBlock(vol.geo, d0, t, vol.disk, qs, h);
    forall p ensures !Kid(d0, t, h, start, start, p) { KidsMore(d0, t, h, start, start, p); }
    forall j: nat ensures Entry(vol.disk, ib, j) == Entry(d0, ib, j) { SameEntry(vol.disk, d0, ib, j); }
    if start >= apb {
      forall p ensures !Kid(d0, t, h, start, apb, p) { KidRange(d0, t, h, start, apb, p); }
    }
    while i < apb
      invariant start <= i && (start <= apb ==> i <= apb)
      invariant vol.Valid() && Dropped(vol.geo, d0, t, vol.disk, qs, ib) && vol.sFree - |qs| == old(vol.sFree) - |ps|
      invariant forall p {:trigger p in qs} :: p in qs <==>
        p in ps || Kid(d0, t, h, start, if start <= apb then i else apb, p)
      invariant forall j: nat {:trigger Entry(vol.disk, ib, j)} ::
        Entry(vol.disk, ib, j) == if start <= j < i && j < apb then 0 else Entry(d0, ib, j)
    {
      ghost var p := Child(h, i);
      IndexBlock(vol.geo, d0, t, vol.disk, qs, h);
      IndEntry(vol.geo, d0, t, h, i);
      KidRange(d0, t, h, start, i, p);
      forall q
        ensures Kid(d0, t, h, start, i + 1, q) <==> Kid(d0, t, h, start, i, q) || (q == p && PtrAt(d0, t, q) != 0)
      {
        KidsMore(d0, t, h, start, i, q);
      }
      if Entry(vol.disk, ib, i) != 0 {
        ghost var d := vol.disk;
        FreePlace(vol, Entry(vol.disk, ib, i), d0, t, qs, ib, p);
        qs := qs + {p};
        IndexBlock(vol.geo, d0, t, vol.disk, qs, h);
        DropWrite(vol.geo, d0, t, vol.disk, qs, ib, WritePtr(vol.disk[ib], i, 0));
        ghost var d1 := vol.disk;
        vol.WriteBlock(ib, WritePtr(vol.disk[ib], i, 0));
        forall j: nat ensures Entry(vol.disk, ib, j) == if j == i then 0 else Entry(d, ib, j) {
          EntryWritten(d1, ib, i, 0, ib, j);
          SameEntry(d1, d, ib, j);
        }
      }
      i := i + 1;
    }
  }

  lemma SameEntry(d: Disk, d': Disk, b: nat, j: nat)
    requires |d| == |d'| && (b < |d| ==> d[b] == d'[b])
    ensures Entry(d, b, j) == Entry(d', b, j)
  {
  }

  lemma IndexBlock(geo: Geo, d0: Disk, t: Inodes, d: Disk, ps: set<Place>, h: Place)
    requires Pointered(t) && Dropped(geo, d0, t, d, ps, PtrAt(d0, t, h)) && PlaceOk(geo.bs / 4, t, h)
    requires PtrAt(d0, t, h) != 0
    ensures var b := PtrAt(d0, t, h); b < |d| == |d0| && |d[b]| == geo.bs && !IsBitmap(geo, b)
  {
    hide Owned, PtrAt, IsBitmap, Used;
    NamedOwnable(geo, d0, t, h);
  }

  lemma IndEntry(geo: Geo, d0: Disk, t: Inodes, h: Place, i: nat)
    requires Pointered(t) && PlaceOk(geo.bs / 4, t, h) && h.slot.Single? && i < geo.bs / 4
    ensures PlaceOk(geo.bs / 4, t, Child(h, i)) && PtrAt(d0, t, Child(h, i)) == Entry(d0, PtrAt(d0, t, h), i)
  {
  }

  // ---------------------------------------------------------------- the whole operation

  /** Truncation to `n` blocks drops this slot.  Nothing below the double-indirect block goes when `n` reaches it. */
  predicate Drops(apb: nat, n: nat, s: Slot) {
    match s
    case Direct(i) => n <= i
    case Single => n <= NDIR
    case Ind(i) => n <= NDIR + i
    case Double => n <= NDIR + apb
    case Mid(_) => n <= NDIR + apb
    case Leaf(_, _) => n <= NDIR + apb
  }

  /** The filled places of `ino` that truncation to `n` blocks drops. */
  ghost predicate DropSet(geo: Geo, disk: Disk, inodes: Inodes, ino: nat, n: nat, ps: set<Place>)
    requires Pointered(inodes)
  {
    forall p {:trigger p in ps} :: p in ps <==>
      p.ino == ino && SlotOk(geo.bs / 4, p.slot) && PtrAt(disk, inodes, p) != 0 && Drops(geo.bs / 4, n, p.slot)
  }

  /** The pointers that stay in the inode. */
  ghost predicate Cut(apb: nat, n: nat, ptr: seq<nat>, ptr': seq<nat>) {
    |ptr| == NPTR && |ptr'| == NPTR && forall k {:trigger ptr'[k]} :: 0 <= k < NPTR ==>
      ptr'[k] == if k < NDIR && n <= k then 0 else if k == IND && n <= NDIR then 0 else if k == DIND &&
        n <= NDIR + apb then 0 else ptr[k]
  }

  predicate Low(s: Slot) { s.Direct? || s.Single? || s.Ind? }

  /** The part of the drop set above the double-indirect block. */
  ghost predicate LowSet(geo: Geo, disk: Disk, inodes: Inodes, ino: nat, n: nat, ps: set<Place>)
    requires Pointered(inodes)
  {
    forall p {:trigger p in ps} :: p in ps <==>
      p.ino == ino && Low(p.slot) && SlotOk(geo.bs / 4, p.slot) && PtrAt(disk, inodes, p) != 0 &&
        Drops(geo.bs / 4, n, p.slot)
  }

  /** The index block that is cleared in part, -1 if there is none. */
  ghost function Trimmed(n: nat, ptr: seq<nat>): int
    requires |ptr| == NPTR
  {
    if n > NDIR && ptr[IND] != 0 then ptr[IND] else -1
  }

  /** Direct and single-indirect part of the truncation. */
  method DropLow(vol: Volume, ptr: seq<nat>, n: nat, ghost t: Inodes, ghost ino: nat)
      returns (ptr': seq<nat>, ghost qs: set<Place>)
    requires vol.Valid() && Owned(vol.geo, vol.disk, t) && Pointered(t) && ino in t && ptr == t[ino].ptr
    modifies vol
    ensures vol.Valid() && Dropped(vol.geo, old(vol.disk), t, vol.disk, qs, Trimmed(n, ptr))
    ensures vol.sFree == old(vol.sFree) + |qs| && LowSet(vol.geo, old(vol.disk), t, ino, n, qs)
    ensures |ptr'| == NPTR && forall k {:trigger ptr'[k]} :: 0 <= k < NPTR ==>
      ptr'[k] == if k < NDIR && n <= k then 0 else if k == IND && n <= NDIR then 0 else ptr[k]
    ensures n > NDIR ==> forall j: nat {:trigger Entry(vol.disk, ptr[IND], j)} ::
      Entry(vol.disk, ptr[IND], j) == if n - NDIR <= j < vol.geo.bs / 4 then 0 else Entry(old(vol.disk), ptr[IND], j)
  {
    hide Volume.Valid, Dropped, Owned, Used, Formatted, IsBitmap, Kid, Entry, PtrAt, LowSet;
    ghost var d0, single := vol.disk, Place(ino, Single);
    NothingDropped(vol.geo, d0, t, -1);
    ptr', qs := DropDirect(vol, ptr, n, d0, t, -1, ino);
    ghost var ps := qs;
    FieldPtrs(d0, t, ino);
    forall j: nat ensures Entry(d0, 0, j) == 0 { NoEntry(d0, j); }
    forall j: nat ensures Entry(vol.disk, 0, j) == 0 { NoEntry(vol.disk, j); }
    if n <= NDIR {
      if ptr'[IND] != 0 {
        qs := FreeIndirect(vol, ptr'[IND], d0, t, qs, -1, single);
        ptr' := ptr'[IND := 0];
      }
      LowFreed(vol.geo, d0, t, ino, n, ps, qs);
    } else {
      if ptr'[IND] != 0 {
        TrimReady(vol.geo, d0, t, vol.disk, qs, single);
        qs := TrimIndirect(vol, ptr'[IND], n - NDIR, d0, t, qs, single);
      }
      LowTrimmed(vol.geo, d0, t, ino, n, ps, qs);
    }
  }

  lemma FieldPtrs(disk: Disk, t: Inodes, ino: nat)
    requires Pointered(t) && ino in t
    ensures PtrAt(disk, t, Place(ino, Single)) == t[ino].ptr[IND]
    ensures PtrAt(disk, t, Place(ino, Double)) == t[ino].ptr[DIND]
  {
  }

  lemma TrimReady(geo: Geo, d0: Disk, t: Inodes, d: Disk, ps: set<Place>, h: Place)
    requires Pointered(t) && Dropped(geo, d0, t, d, ps, -1) && PlaceOk(geo.bs / 4, t, h) && PtrAt(d0, t, h) != 0
    ensures var b := PtrAt(d0, t, h); Dropped(geo, d0, t, d, ps, b) && b < |d| == |d0| && d[b] == d0[b]
  {
    hide Owned, PtrAt, IsBitmap, Used;
    NamedOwnable(geo, d0, t, h);
  }

  lemma LowFreed(geo: Geo, disk: Disk, t: Inodes, ino: nat, n: nat, ps: set<Place>, qs: set<Place>)
    requires Pointered(t) && ino in t && n <= NDIR
    requires forall p {:trigger p in ps} :: p in ps <==>
      p.ino == ino && p.slot.Direct? && n <= p.slot.i < NDIR && PtrAt(disk, t, p) != 0
    requires if PtrAt(disk, t, Place(ino, Single)) == 0 then qs == ps
             else forall p {:trigger p in qs} :: p in qs <==>
               p in ps || p == Place(ino, Single) || Kid(disk, t, Place(ino, Single), 0, geo.bs / 4, p)
    ensures LowSet(geo, disk, t, ino, n, qs)
  {
    hide Entry;
    forall j: nat ensures Entry(disk, 0, j) == 0 { NoEntry(disk, j); }
  }

  lemma LowTrimmed(geo: Geo, disk: Disk, t: Inodes, ino: nat, n: nat, ps: set<Place>, qs: set<Place>)
    requires Pointered(t) && ino in t && n > NDIR
    requires forall p {:trigger p in ps} :: p in ps <==>
      p.ino == ino && p.slot.Direct? && n <= p.slot.i < NDIR && PtrAt(disk, t, p) != 0
    requires if PtrAt(disk, t, Place(ino, Single)) == 0 then qs == ps
             else forall p {:trigger p in qs} :: p in qs <==>
               p in ps || Kid(disk, t, Place(ino, Single), n - NDIR, geo.bs / 4, p)
    ensures LowSet(geo, disk, t, ino, n, qs)
  {
    hide Entry;
    forall j: nat ensures Entry(disk, 0, j) == 0 { NoEntry(disk, j); }
  }

  /** Free what truncation to `n` blocks drops and return the remaining pointers. */
  method DropBlocks(vol: Volume, ptr: seq<nat>, n: nat, ghost t: Inodes, ghost ino: nat)
      returns (ptr': seq<nat>, ghost qs: set<Place>)
    requires vol.Valid() && Owned(vol.geo, vol.disk, t) && Pointered(t) && ino in t && ptr == t[ino].ptr
    modifies vol
    ensures vol.Valid() && Dropped(vol.geo, old(vol.disk), t, vol.disk, qs, Trimmed(n, ptr))
    ensures vol.sFree == old(vol.sFree) + |qs| && DropSet(vol.geo, old(vol.disk), t, ino, n, qs)
    ensures Cut(vol.geo.bs / 4, n, ptr, ptr')
    ensures n > NDIR ==> forall j: nat {:trigger Entry(vol.disk, ptr[IND], j)} ::
      Entry(vol.disk, ptr[IND], j) == if n - NDIR <= j < vol.geo.bs / 4 then 0 else Entry(old(vol.disk), ptr[IND], j)
  {
    hide Volume.Valid, Dropped, Owned, Used, Formatted, IsBitmap, Kid, Deep, Entry, PtrAt, DropSet;
    ghost var d0, trimmed := vol.disk, Trimmed(n, ptr);
    ptr', qs := DropLow(vol, ptr, n, t, ino);
    ghost var ps := qs;
    FieldPtrs(d0, t, ino);
    if n <= NDIR + vol.geo.bs / 4 {
      if ptr'[DIND] != 0 {
        ghost var d1 := vol.disk;
        if trimmed >= 0 { IndexBlock(vol.geo, d0, t, d1, qs, Place(ino, Single)); }
        qs := FreeDouble(vol, ptr'[DIND], d0, t, qs, trimmed, Place(ino, Double));
        ptr' := ptr'[DIND := 0];
        forall j: nat | trimmed >= 0
          ensures Entry(vol.disk, ptr[IND], j) == Entry(d1, ptr[IND], j)
        {
          SameEntry(vol.disk, d1, ptr[IND], j);
        }
        forall j: nat ensures Entry(vol.disk, 0, j) == 0 == Entry(d1, 0, j) { NoEntry(vol.disk, j); NoEntry(d1, j); }
      }
    }
    AllDropped(vol.geo, d0, t, ino, n, ps, qs);
  }

  lemma AllDropped(geo: Geo, disk: Disk, t: Inodes, ino: nat, n: nat, ps: set<Place>, qs: set<Place>)
    requires Pointered(t) && ino in t && LowSet(geo, disk, t, ino, n, ps)
    requires
      if n > NDIR + geo.bs / 4 || PtrAt(disk, t, Place(ino, Double)) == 0 then qs == ps
      else forall p {:trigger p in qs} :: p in qs <==>
        p in ps || p == Place(ino, Double) ||
        (SlotOk(geo.bs / 4, p.slot) && Deep(disk, t, Place(ino, Double), geo.bs / 4, p))
    ensures DropSet(geo, disk, t, ino, n, qs)
  {
    hide Entry;
    forall j: nat ensures Entry(disk, 0, j) == 0 { NoEntry(disk, j); }
  }

  lemma Unfold(disk: Disk, t: Inodes, q: Place)
    requires Pointered(t) && q.ino in t && Indexed(q.slot)
    ensures PtrAt(disk, t, q) == Entry(disk, PtrAt(disk, t, Above(q)), Key(q.slot))
  {
  }

  /** What was done to the disk and the inode by truncating `ino` to `n` blocks. */
  ghost predicate CutShort(geo: Geo, d0: Disk, t: Inodes, d: Disk, t': Inodes, ps: set<Place>, ino: nat, n: nat) {
    && Pointered(t) && ino in t && Dropped(geo, d0, t, d, ps, Trimmed(n, t[ino].ptr)) && DropSet(geo, d0, t, ino, n, ps)
    && Pointered(t') && t'.Keys == t.Keys && t' == t[ino := t'[ino]] && Cut(geo.bs / 4, n, t[ino].ptr, t'[ino].ptr)
    && (n > NDIR ==> forall j: nat {:trigger Entry(d, t[ino].ptr[IND], j)} ::
          Entry(d, t[ino].ptr[IND], j) == if n - NDIR <= j < geo.bs / 4 then 0 else Entry(d0, t[ino].ptr[IND], j))
  }

  /** Afterwards every dropped place is empty and every other place of every file names what it named before. */
  lemma {:induction false} PtrAfter(geo: Geo, d0: Disk, t: Inodes, d: Disk, t': Inodes, ps: set<Place>, ino: nat,
      n: nat, q: Place)
    requires CutShort(geo, d0, t, d, t', ps, ino, n) && PlaceOk(geo.bs / 4, t, q)
    ensures PtrAt(d, t', q) == if q.ino == ino && Drops(geo.bs / 4, n, q.slot) then 0 else PtrAt(d0, t, q)
    decreases if q.slot.Leaf? then 2 else if Indexed(q.slot) then 1 else 0
  {
    hide Dropped, Owned, Used, DropSet, Entry;
    DroppedFacts(geo, d0, t, d, ps, Trimmed(n, t[ino].ptr));
    if Indexed(q.slot) {
      var a := Above(q);
      NoEntry(d, Key(q.slot));
      NoEntry(d0, Key(q.slot));
      Unfold(d0, t, q);
      Unfold(d, t', q);
      PtrAfter(geo, d0, t, d, t', ps, ino, n, a);
      if PtrAt(d0, t, a) != 0 && !(n > NDIR && a == Place(ino, Single)) {
        if Trimmed(n, t[ino].ptr) >= 0 { NoClash(geo, d0, t, Place(ino, Single), a); }
        ChildPtr(geo, d0, t, d, ps, Trimmed(n, t[ino].ptr), a, Key(q.slot));
        assert Child(a, Key(q.slot)) == q;
      }
    }
  }

  /** Truncation keeps every block owned once. */
  lemma CutOwned(geo: Geo, d0: Disk, t: Inodes, d: Disk, t': Inodes, ps: set<Place>, ino: nat, n: nat)
    requires CutShort(geo, d0, t, d, t', ps, ino, n)
    ensures Owned(geo, d, t')
  {
    hide Dropped, Ownable, Used, PtrAt, Cut;
    DroppedFacts(geo, d0, t, d, ps, Trimmed(n, t[ino].ptr));
    forall q | PlaceOk(geo.bs / 4, t', q)
      ensures PtrAt(d, t', q) == 0 || (PtrAt(d, t', q) == PtrAt(d0, t, q) && Ownable(geo, d, PtrAt(d, t', q)))
    {
      hide Owned;
      PtrAfter(geo, d0, t, d, t', ps, ino, n, q);
      if PtrAt(d, t', q) != 0 { StillUsed(geo, d0, t, d, ps, Trimmed(n, t[ino].ptr), q); }
    }
    forall p, q | PlaceOk(geo.bs / 4, t', p) && PlaceOk(geo.bs / 4, t', q) ensures !Clash(d, t', p, q) {
      assert !Clash(d0, t, p, q);
    }
  }

  /** The i_blocks loop over the direct pointers. */
  method CountDirect(geo: Geo, disk: Disk, ip: Inode, ghost t: Inodes, ghost ino: nat)
      returns (sectors: nat, ghost ks: set<Place>)
    requires Pointered(t) && ino in t && t[ino] == ip
    ensures sectors == Times(|ks|, geo.bs / 512)
    ensures forall p {:trigger p in ks} :: p in ks <==>
      p.ino == ino && p.slot.Direct? && p.slot.i < NDIR && PtrAt(disk, t, p) != 0
  {
    hide Times;
    sectors, ks := 0, {};
    TimesMore(0, geo.bs / 512);
    for i := 0 to NDIR
      invariant sectors == Times(|ks|, geo.bs / 512)
      invariant forall p {:trigger p in ks} :: p in ks <==>
        p.ino == ino && p.slot.Direct? && p.slot.i < i && PtrAt(disk, t, p) != 0
    {
      if ip.ptr[i] != 0 {
        TimesMore(|ks|, geo.bs / 512);
        sectors, ks := sectors + geo.bs / 512, ks + {Place(ino, Direct(i))};
      }
    }
  }

  /** All the i_blocks loops: 512-byte sectors of the filled direct, single and single-indirect slots. */
  method CountBlocks(geo: Geo, disk: Disk, ip: Inode, ghost t: Inodes, ghost ino: nat)
      returns (sectors: nat, ghost ks: set<Place>)
    requires Pointered(t) && ino in t && t[ino] == ip
    ensures sectors == Times(|ks|, geo.bs / 512) && Counts(geo, disk, t, ino, ks)
  {
    hide Times, Entry, PtrAt, Counts, Kid;
    sectors, ks := CountDirect(geo, disk, ip, t, ino);
    ghost var direct, single := ks, Place(ino, Single);
    FieldPtrs(disk, t, ino);
    if ip.ptr[IND] != 0 {
      TimesMore(|ks|, geo.bs / 512);
      sectors, ks := sectors + geo.bs / 512, ks + {single};
      forall p ensures !Kid(disk, t, single, 0, 0, p) { KidsMore(disk, t, single, 0, 0, p); }
      for i := 0 to geo.bs / 4
        invariant sectors == Times(|ks|, geo.bs / 512)
        invariant forall p {:trigger p in ks} :: p in ks <==>
          p in direct || p == single || Kid(disk, t, single, 0, i, p)
      {
        KidRange(disk, t, single, 0, i, Child(single, i));
        IndEntry(geo, disk, t, single, i);
        forall q ensures Kid(disk, t, single, 0, i + 1, q) <==>
          Kid(disk, t, single, 0, i, q) || (q == Child(single, i) && PtrAt(disk, t, q) != 0) {
          KidsMore(disk, t, single, 0, i, q);
        }
        if Entry(disk, ip.ptr[IND], i) != 0 {
          TimesMore(|ks|, geo.bs / 512);
          sectors, ks := sectors + geo.bs / 512, ks + {Place(ino, Ind(i))};
        }
      }
    }
    CountsAll(geo, disk, t, ino, direct, ks);
  }

  lemma CountsAll(geo: Geo, disk: Disk, t: Inodes, ino: nat, direct: set<Place>, ks: set<Place>)
    requires Pointered(t) && ino in t
    requires forall p {:trigger p in direct} :: p in direct <==>
      p.ino == ino && p.slot.Direct? && p.slot.i < NDIR && PtrAt(disk, t, p) != 0
    requires if PtrAt(disk, t, Place(ino, Single)) == 0 then ks == direct
             else forall p {:trigger p in ks} :: p in ks <==>
               p in direct || p == Place(ino, Single) || Kid(disk, t, Place(ino, Single), 0, geo.bs / 4, p)
    ensures Counts(geo, disk, t, ino, ks)
  {
    hide Entry;
    forall j: nat ensures Entry(disk, 0, j) == 0 { NoEntry(disk, j); }
  }

  /** The block count of the new size, computed in 64 bits and kept in 32. */
  function NewBlocks(bs: nat, size: nat): nat
    requires bs > 0
  {
    if size == 0 then 0 else Quot((size + bs - 1) % DWORD, bs) % WORD
  }

  lemma CancelMul(a: nat, b: nat, c: nat)
    requires a * c < b * c
    ensures a < b
  {
    if a >= b { MulMono(b, a, c); }
  }

  /** It is the size divided by the block size, rounded up, exactly if a 32-bit block count can express that. */
  lemma NewBlocksCeiling(bs: nat, size: nat)
    requires 0 < bs <= 0x1_0000
    ensures var n := NewBlocks(bs, size);
      Pos(bs, n, 0) >= size && (n > 0 ==> Pos(bs, n - 1, 0) < size) <==> size <= 0xFFFF_FFFF * bs
  {
    hide Quot;
    MulMono(NewBlocks(bs, size), 0xFFFF_FFFF, bs);
    if 0 < size <= 0xFFFF_FFFF * bs {
      MulMono(bs, 0x1_0000, 0xFFFF_FFFF);
      assert size + bs - 1 < DWORD;
      QuotRem(size + bs - 1, bs);
      var q := Quot(size + bs - 1, bs);
      CancelMul(q, WORD, bs);
    }
  }

  /** The size fields after cutting the file short: the upper half is cleared. */
  function CutSize(ip: Inode, rev: nat, size: nat): Inode {
    if IsReg(ip.mode) && rev >= 1 then ip.(lo := size % WORD, hi := 0) else ip.(lo := size % WORD)
  }

  /** The new size is what the file then has exactly when it is below 4 GiB. */
  lemma CutSizeExact(ip: Inode, rev: nat, size: nat)
    ensures FileSize(CutSize(ip, rev, size), rev) == size <==> size < WORD
  {
  }

  /** The field that holds the upper half belongs to regular files of revision 1 and later; in all others it stays. */
  lemma UpperHalf(ip: Inode, rev: nat, size: nat)
    ensures (0x8000 <= ip.mode % 0x1_0000 < 0x9000 && rev >= 1) ==>
      CutSize(ip, rev, size).hi == 0 && WithSize(ip, rev, size).hi == size / 0x1_0000_0000 % 0x1_0000_0000
    ensures !(0x8000 <= ip.mode % 0x1_0000 < 0x9000 && rev >= 1) ==>
      CutSize(ip, rev, size).hi == ip.hi && WithSize(ip, rev, size).hi == ip.hi
  {
    RegModes(ip.mode);
  }

  /** `ext4_truncate`: a size that is not smaller only changes the size fields; a smaller one drops blocks. */
  method Truncate(fs: Ext4, ino: nat, size: nat) returns (ghost ps: set<Place>, ghost ks: set<Place>)
    requires fs.Valid() && ino in fs.inodes && size < DWORD
    modifies fs`inodes, fs.vol
    ensures fs.Valid() && fs.vol.geo.bs > 0
    ensures size >= FileSize(old(fs.inodes)[ino], fs.rev) ==>
      && fs.vol.disk == old(fs.vol.disk) && fs.vol.bgFree == old(fs.vol.bgFree) && fs.vol.sFree == old(fs.vol.sFree)
      && fs.inodes == old(fs.inodes)[ino := WithSize(old(fs.inodes)[ino], fs.rev, size)]
    ensures size < FileSize(old(fs.inodes)[ino], fs.rev) ==>
      && CutShort(fs.vol.geo, old(fs.vol.disk), old(fs.inodes), fs.vol.disk, fs.inodes, ps, ino,
        NewBlocks(fs.vol.geo.bs, size))
      && fs.vol.sFree == old(fs.vol.sFree) + |ps|
      && Counts(fs.vol.geo, fs.vol.disk, fs.inodes, ino, ks)
      && var ip := fs.inodes[ino];
        ip == CutSize(old(fs.inodes)[ino], fs.rev, size).(ptr := ip.ptr, sectors := Times(|ks|, fs.vol.geo.bs / 512))
  {
    hide Volume.Valid, Owned, CutShort, DropSet, Cut, Times, Dropped, WithSize;
    ps, ks := {}, {};
    var ip, vol := fs.inodes[ino], fs.vol;
    ghost var t, d0 := fs.inodes, vol.disk;
    WorkingFacts(vol.geo, vol.disk, t, ino);
    OwnedPointered(vol.geo, vol.disk, t);
    if size >= FileSize(ip, fs.rev) {
      ghost var t' := t[ino := WithSize(ip, fs.rev, size)];
      WithSizeKeeps(ip, fs.rev, size);
      SamePointers(vol.geo, vol.disk, t, t');
      fs.inodes := fs.inodes[ino := WithSize(ip, fs.rev, size)];
      return;
    }
    var n := NewBlocks(vol.geo.bs, size);
    var ptr';
    ptr', ps := DropBlocks(vol, ip.ptr, n, t, ino);
    CutDone(vol.geo, d0, t, vol.disk, ps, ino, n, ip.(ptr := ptr'));
    OwnedPointered(vol.geo, vol.disk, t[ino := ip.(ptr := ptr')]);
    var sectors;
    sectors, ks := CountBlocks(vol.geo, vol.disk, ip.(ptr := ptr'), t[ino := ip.(ptr := ptr')], ino);
    CountsSame(vol.geo, vol.disk, t[ino := ip.(ptr := ptr')],
      t[ino := CutSize(ip, fs.rev, size).(ptr := ptr', sectors := sectors)], ino, ks);
    ip := CutSize(ip, fs.rev, size).(ptr := ptr', sectors := sectors);
    CutDone(vol.geo, d0, t, vol.disk, ps, ino, n, ip);
    fs.inodes := fs.inodes[ino := ip];
  }

  lemma WithSizeKeeps(ip: Inode, rev: nat, size: nat)
    ensures WithSize(ip, rev, size).ptr == ip.ptr
  {
  }

  /** `ks` are the filled direct, single and single-indirect places of `ino`. */
  ghost predicate Counts(geo: Geo, disk: Disk, inodes: Inodes, ino: nat, ks: set<Place>) {
    Pointered(inodes) && ino in inodes && forall p {:trigger p in ks} :: p in ks <==>
      p.ino == ino && Low(p.slot) && SlotOk(geo.bs / 4, p.slot) && PtrAt(disk, inodes, p) != 0
  }

  lemma CountsSame(geo: Geo, disk: Disk, t: Inodes, t': Inodes, ino: nat, ks: set<Place>)
    requires Counts(geo, disk, t, ino, ks) && Pointered(t') && ino in t' && t'[ino].ptr == t[ino].ptr
    ensures Counts(geo, disk, t', ino, ks)
  {
    hide Entry;
  }

  lemma CutDone(geo: Geo, d0: Disk, t: Inodes, d: Disk, ps: set<Place>, ino: nat, n: nat, ip: Inode)
    requires Pointered(t) && ino in t && Dropped(geo, d0, t, d, ps, Trimmed(n, t[ino].ptr))
    requires DropSet(geo, d0, t, ino, n, ps)
    requires Cut(geo.bs / 4, n, t[ino].ptr, ip.ptr)
    requires n > NDIR ==> forall j: nat {:trigger Entry(d, t[ino].ptr[IND], j)} ::
      Entry(d, t[ino].ptr[IND], j) == if n - NDIR <= j < geo.bs / 4 then 0 else Entry(d0, t[ino].ptr[IND], j)
    ensures CutShort(geo, d0, t, d, t[ino := ip], ps, ino, n) && Owned(geo, d, t[ino := ip])
  {
    hide Dropped, DropSet, Entry, Owned;
    CutOwned(geo, d0, t, d, t[ino := ip], ps, ino, n);
  }

  // ---------------------------------------------------------------- what truncation means

  /** Slots of logical blocks are dropped exactly from block `n` on, except below the double-indirect block. */
  lemma DropsFrom(apb: nat, n: nat, fb: nat)
    requires Locate(apb, fb).At?
    ensures Drops(apb, n, Locate(apb, fb).slot) <==> if fb < NDIR + apb then n <= fb else n <= NDIR + apb
  {
    hide Quot, Rem;
  }

  /** The mapping after truncation to `n` blocks: unchanged below `n`, empty from `n` on, except that the
      double-indirect region is kept whole when `n` reaches into it.  Other files keep their mapping. */
  lemma TruncatedMapping(geo: Geo, d0: Disk, t: Inodes, d: Disk, t': Inodes, ps: set<Place>, ino: nat, n: nat, m: nat,
      fb: nat)
    requires CutShort(geo, d0, t, d, t', ps, ino, n) && m in t
    ensures var apb := geo.bs / 4;
      MapBlock(apb, d, t'[m], fb) ==
      if m == ino && n <= fb && (n <= NDIR + apb || fb < NDIR + apb) then 0 else MapBlock(apb, d0, t[m], fb)
  {
    hide Dropped, DropSet, Cut, PtrAt, Locate, Drops, Owned;
    var apb := geo.bs / 4;
    LocateOk(apb, fb);
    if Locate(apb, fb).At? {
      var q := Place(m, Locate(apb, fb).slot);
      DropsFrom(apb, n, fb);
      PtrAfter(geo, d0, t, d, t', ps, ino, n, q);
      PtrAtSlot(geo, d, t', m, fb);
      PtrAtSlot(geo, d0, t, m, fb);
    }
  }

  /** Everything from `n` on is gone exactly when `n` is not inside the double-indirect region or nothing was there. */
  lemma TruncatedEmptyBeyond(geo: Geo, d0: Disk, t: Inodes, d: Disk, t': Inodes, ps: set<Place>, ino: nat, n: nat)
    requires CutShort(geo, d0, t, d, t', ps, ino, n)
    ensures (forall fb: nat :: fb >= n ==> MapBlock(geo.bs / 4, d, t'[ino], fb) == 0) <==>
      (n <= NDIR + geo.bs / 4 || forall fb: nat :: fb >= n ==> MapBlock(geo.bs / 4, d0, t[ino], fb) == 0)
  {
    hide Dropped, DropSet, Cut, MapBlock, Owned;
    forall fb: nat ensures MapBlock(geo.bs / 4, d, t'[ino], fb) ==
      if n <= fb && (n <= NDIR + geo.bs / 4 || fb < NDIR + geo.bs / 4) then 0 else MapBlock(geo.bs / 4, d0, t[ino], fb)
    {
      TruncatedMapping(geo, d0, t, d, t', ps, ino, n, ino, fb);
    }
  }

  /** The blocks given back are exactly those the file owned and no longer owns; nobody else names them. */
  lemma TruncatedFrees(geo: Geo, d0: Disk, t: Inodes, d: Disk, t': Inodes, ps: set<Place>, ino: nat, n: nat, b: nat)
    requires CutShort(geo, d0, t, d, t', ps, ino, n) && geo.Covers(b)
    ensures Formatted(geo, d) && Formatted(geo, d0)
    ensures Used(geo, d0, b) && !Used(geo, d, b) <==> Names(geo, d0, t, ino, b) && !Names(geo, d, t', ino, b)
    ensures Used(geo, d, b) ==> Used(geo, d0, b)
    ensures !Used(geo, d, b) ==> forall m :: !Names(geo, d, t', m, b)
  {
    hide Dropped, DropSet, Cut, PtrAt, Drops, Owned, Used;
    DroppedFacts(geo, d0, t, d, ps, Trimmed(n, t[ino].ptr));
    CutOwned(geo, d0, t, d, t', ps, ino, n);
    UsedAfter(geo, d0, t, d, ps, Trimmed(n, t[ino].ptr), b);
    if Named(d0, t, ps, b) {
      var p :| p in ps && PtrAt(d0, t, p) == b;
      NamedOwnable(geo, d0, t, p);
      InDropSet(geo, d0, t, ino, n, ps, p);
    }
    forall m | Names(geo, d, t', m, b) ensures Used(geo, d, b) {
      var q :| PlaceOk(geo.bs / 4, t', q) && q.ino == m && PtrAt(d, t', q) == b && b != 0;
      NamedOwnable(geo, d, t', q);
    }
    if Names(geo, d0, t, ino, b) && !Names(geo, d, t', ino, b) {
      var q :| PlaceOk(geo.bs / 4, t, q) && q.ino == ino && PtrAt(d0, t, q) == b && b != 0;
      PtrAfter(geo, d0, t, d, t', ps, ino, n, q);
      assert PlaceOk(geo.bs / 4, t', q);
      InDropSet(geo, d0, t, ino, n, ps, q);
      NamedOwnable(geo, d0, t, q);
    }
  }

  /** Some place of inode `m` names block `b`. */
  ghost predicate Names(geo: Geo, disk: Disk, inodes: Inodes, m: nat, b: nat)
    requires Pointered(inodes)
  {
    exists p :: PlaceOk(geo.bs / 4, inodes, p) && p.ino == m && PtrAt(disk, inodes, p) == b && b != 0
  }

  lemma UsedAfter(geo: Geo, d0: Disk, t: Inodes, d: Disk, ps: set<Place>, trimmed: int, b: nat)
    requires Dropped(geo, d0, t, d, ps, trimmed) && geo.Covers(b)
    ensures Used(geo, d, b) <==> Used(geo, d0, b) && !Named(d0, t, ps, b)
  {
  }

  lemma InDropSet(geo: Geo, disk: Disk, t: Inodes, ino: nat, n: nat, ps: set<Place>, p: Place)
    requires Pointered(t) && DropSet(geo, disk, t, ino, n, ps)
    ensures p in ps <==>
      p.ino == ino && SlotOk(geo.bs / 4, p.slot) && PtrAt(disk, t, p) != 0 && Drops(geo.bs / 4, n, p.slot)
  {
  }

  /** File bytes after truncation: blocks below `n` read as before, whole blocks from `n` on as zero. */
  lemma TruncatedBytes(geo: Geo, d0: Disk, t: Inodes, d: Disk, t': Inodes, ps: set<Place>, ino: nat, n: nat, m: nat,
      fb: nat, off: nat)
    requires CutShort(geo, d0, t, d, t', ps, ino, n)
    ensures ByteIn(geo, d, t', m, fb, off) ==
      if m == ino && n <= fb && (n <= NDIR + geo.bs / 4 || fb < NDIR + geo.bs / 4) then 0
        else ByteIn(geo, d0, t, m, fb, off)
  {
    hide Dropped, DropSet, Cut, PtrAt, Locate, Owned, Drops;
    if m in t {
      DroppedFacts(geo, d0, t, d, ps, Trimmed(n, t[ino].ptr));
      TruncatedMapping(geo, d0, t, d, t', ps, ino, n, m, fb);
      LocateOk(geo.bs / 4, fb);
      var b := MapBlock(geo.bs / 4, d0, t[m], fb);
      if b != 0 {
        ByteAtSlot(geo, d0, t, m, fb, off);
        PtrAtSlot(geo, d0, t, m, fb);
        DataUntouched(geo, d0, t, d, ps, ino, n, Place(m, Locate(geo.bs / 4, fb).slot));
      }
    }
  }

  /** The byte at `pos` lies in a block that truncation to `n` blocks keeps. */
  predicate KeepsByte(bs: nat, n: nat, pos: nat)
    requires bs > 0
  {
    var fb := Quot(pos, bs);
    fb < n || (n > NDIR + bs / 4 && fb >= NDIR + bs / 4)
  }

  /** The file reads as zero from `size` on. */
  ghost predicate ZeroFrom(geo: Geo, disk: Disk, inodes: Inodes, ino: nat, size: nat) {
    && Pointered(inodes) && geo.bs > 0
    && forall pos: nat {:trigger FileByte(geo, disk, inodes, ino, pos)} :: pos >= size ==>
      FileByte(geo, disk, inodes, ino, pos) == 0
  }

  lemma TruncatedByte(geo: Geo, d0: Disk, t: Inodes, d: Disk, t': Inodes, ps: set<Place>, ino: nat, n: nat, pos: nat)
    requires CutShort(geo, d0, t, d, t', ps, ino, n)
    ensures geo.bs > 0
    ensures FileByte(geo, d, t', ino, pos) == if KeepsByte(geo.bs, n, pos) then FileByte(geo, d0, t, ino, pos) else 0
  {
    hide Dropped, DropSet, Cut, ByteIn, Quot, Rem;
    DroppedFacts(geo, d0, t, d, ps, Trimmed(n, t[ino].ptr));
    TruncatedBytes(geo, d0, t, d, t', ps, ino, n, ino, Quot(pos, geo.bs), Rem(pos, geo.bs));
  }

  /** Truncation does not clear the tail of the last block it keeps: growing the file again shows zeros from the cut on
      exactly if every byte from there on that lies in a kept block was zero before. */
  lemma ZeroTailIff(geo: Geo, d0: Disk, t: Inodes, d: Disk, t': Inodes, ps: set<Place>, ino: nat, n: nat, size: nat)
    requires CutShort(geo, d0, t, d, t', ps, ino, n)
    ensures geo.bs > 0
    ensures ZeroFrom(geo, d, t', ino, size) <==>
      forall pos: nat {:trigger FileByte(geo, d0, t, ino, pos)} :: pos >= size && KeepsByte(geo.bs, n, pos) ==>
        FileByte(geo, d0, t, ino, pos) == 0
  {
    hide Dropped, DropSet, Cut, FileByte, KeepsByte;
    DroppedFacts(geo, d0, t, d, ps, Trimmed(n, t[ino].ptr));
    forall pos: nat
      ensures FileByte(geo, d, t', ino, pos) == if KeepsByte(geo.bs, n, pos) then FileByte(geo, d0, t, ino, pos) else 0
    {
      TruncatedByte(geo, d0, t, d, t', ps, ino, n, pos);
    }
    if ZeroFrom(geo, d, t', ino, size) {
      forall pos: nat | pos >= size && KeepsByte(geo.bs, n, pos) ensures FileByte(geo, d0, t, ino, pos) == 0 {
        assert FileByte(geo, d, t', ino, pos) == 0;
      }
    }
  }

  /** The bytes of the file below `size` are the same. */
  ghost predicate SameBelow(geo: Geo, d0: Disk, t: Inodes, d: Disk, t': Inodes, ino: nat, size: nat) {
    && Pointered(t) && Pointered(t') && geo.bs > 0
    && forall pos: nat {:trigger FileByte(geo, d, t', ino, pos)} :: pos < size ==>
      FileByte(geo, d, t', ino, pos) == FileByte(geo, d0, t, ino, pos)
  }

  /** A block count that wrapped drops blocks below the new size: the bytes below it are kept exactly if those that are
      dropped were zero. */
  lemma KeptBelowIff(geo: Geo, d0: Disk, t: Inodes, d: Disk, t': Inodes, ps: set<Place>, ino: nat, n: nat, size: nat)
    requires CutShort(geo, d0, t, d, t', ps, ino, n)
    ensures geo.bs > 0
    ensures SameBelow(geo, d0, t, d, t', ino, size) <==>
      forall pos: nat {:trigger FileByte(geo, d0, t, ino, pos)} :: pos < size && !KeepsByte(geo.bs, n, pos) ==>
        FileByte(geo, d0, t, ino, pos) == 0
  {
    hide Dropped, DropSet, Cut, FileByte, KeepsByte;
    DroppedFacts(geo, d0, t, d, ps, Trimmed(n, t[ino].ptr));
    forall pos: nat
      ensures FileByte(geo, d, t', ino, pos) == if KeepsByte(geo.bs, n, pos) then FileByte(geo, d0, t, ino, pos) else 0
    {
      TruncatedByte(geo, d0, t, d, t', ps, ino, n, pos);
    }
    if SameBelow(geo, d0, t, d, t', ino, size) {
      forall pos: nat | pos < size && !KeepsByte(geo.bs, n, pos) ensures FileByte(geo, d0, t, ino, pos) == 0 {
        assert FileByte(geo, d, t', ino, pos) == 0;
      }
    }
  }

  /** So they are kept for every size a 32-bit block count can express. */
  lemma KeptBelow(geo: Geo, d0: Disk, t: Inodes, d: Disk, t': Inodes, ps: set<Place>, ino: nat, size: nat)
    requires geo.bs in {1024, 2048, 4096} && size <= 0xFFFF_FFFF * geo.bs
    requires CutShort(geo, d0, t, d, t', ps, ino, NewBlocks(geo.bs, size))
    ensures SameBelow(geo, d0, t, d, t', ino, size)
  {
    hide CutShort, FileByte, SameBelow, NewBlocks, Quot, Rem;
    var bs, n := geo.bs, NewBlocks(geo.bs, size);
    KeptBelowIff(geo, d0, t, d, t', ps, ino, n, size);
    NewBlocksCeiling(bs, size);
    forall pos: nat | pos < size ensures KeepsByte(bs, n, pos) {
      PosOf(bs, pos);
      PosApart(bs, n, Quot(pos, bs));
    }
  }

  /** So a size that ends a block and does not reach the double-indirect region is safe. */
  lemma ZeroTail(geo: Geo, d0: Disk, t: Inodes, d: Disk, t': Inodes, ps: set<Place>, ino: nat, n: nat)
    requires CutShort(geo, d0, t, d, t', ps, ino, n) && n <= NDIR + geo.bs / 4
    ensures ZeroFrom(geo, d, t', ino, Pos(geo.bs, n, 0))
  {
    hide Dropped, DropSet, Cut, FileByte, ZeroFrom;
    ZeroTailIff(geo, d0, t, d, t', ps, ino, n, Pos(geo.bs, n, 0));
    forall pos: nat | pos >= Pos(geo.bs, n, 0) ensures !KeepsByte(geo.bs, n, pos) {
      DivMod(n, geo.bs, 0);
      QuotMono(Pos(geo.bs, n, 0), pos, geo.bs);
    }
  }

  lemma DataUntouched(geo: Geo, d0: Disk, t: Inodes, d: Disk, ps: set<Place>, ino: nat, n: nat, q: Place)
    requires Pointered(t) && ino in t && Dropped(geo, d0, t, d, ps, Trimmed(n, t[ino].ptr)) && PlaceOk(geo.bs / 4, t, q)
    requires DataSlot(q.slot)
    requires PtrAt(d0, t, q) != 0
    ensures var b := PtrAt(d0, t, q); b < |d| == |d0| && d[b] == d0[b]
  {
    hide Owned, Used, IsBitmap;
    NamedOwnable(geo, d0, t, q);
    if Trimmed(n, t[ino].ptr) >= 0 { NoClash(geo, d0, t, Place(ino, Single), q); }
  }

  /** After truncation i_blocks counts every block still owned exactly when there was no double-indirect block before,
      or the new size does not reach the region below it. */
  lemma TruncatedCount(geo: Geo, d0: Disk, t: Inodes, d: Disk, t': Inodes, ps: set<Place>, ino: nat, n: nat,
      ks: set<Place>, all: set<Place>)
    requires CutShort(geo, d0, t, d, t', ps, ino, n) && Counts(geo, d, t', ino, ks) && Fills(geo, d, t', ino, all)
    ensures |ks| == |all| <==> t[ino].ptr[DIND] == 0 || n <= NDIR + geo.bs / 4
  {
    hide Dropped, DropSet, Counts, Fills, PtrAt;
    CountedAll(geo, d, t', ino, ks, all);
    assert t'[ino].ptr[DIND] == if n <= NDIR + geo.bs / 4 then 0 else t[ino].ptr[DIND];
  }

  /** `all` are the filled places of `ino`. */
  ghost predicate Fills(geo: Geo, disk: Disk, inodes: Inodes, ino: nat, all: set<Place>) {
    && Pointered(inodes)
    && forall p {:trigger p in all} :: p in all <==>
      p.ino == ino && SlotOk(geo.bs / 4, p.slot) && PtrAt(disk, inodes, p) != 0
  }

  lemma CountedAll(geo: Geo, d: Disk, t: Inodes, ino: nat, ks: set<Place>, all: set<Place>)
    requires Counts(geo, d, t, ino, ks) && Fills(geo, d, t, ino, all)
    ensures |ks| == |all| <==> t[ino].ptr[DIND] == 0
  {
    hide Entry;
    forall j: nat ensures Entry(d, 0, j) == 0 { NoEntry(d, j); }
    if t[ino].ptr[DIND] == 0 {
      assert ks == all;
    } else {
      assert Place(ino, Double) in all && Place(ino, Double) !in ks;
      assert ks <= all - {Place(ino, Double)};
      Smaller(ks, all - {Place(ino, Double)});
    }
  }

  lemma {:induction false} Smaller(a: set<Place>, b: set<Place>)
    requires a <= b
    ensures |a| <= |b|
  {
    if a != {} {
      var x :| x in a;
      Smaller(a - {x}, b - {x});
    }
  }
}
