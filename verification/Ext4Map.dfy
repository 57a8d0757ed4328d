/** Logical-to-physical mapping of ext4 inodes: direct, single-indirect and double-indirect pointers, and who owns
    which block. */
module Ext4Map {
  import opened Arith
  import opened Bytes
  import opened Ext4Bitmap
  import opened Ext4Volume

  const NDIR := 12
  const IND := 12
  const DIND := 13
  const NPTR := 15

  /** The inode fields the block layer uses: the two halves of the size, i_blocks as `sectors`, i_block as `ptr`. */
  datatype Inode = Inode(mode: nat, lo: nat, hi: nat, sectors: nat, ptr: seq<nat>)
  type Inodes = map<nat, Inode>

  // ---------------------------------------------------------------- pointers in index blocks

  /** The little-endian 32-bit word at index `i` of a block. */
  function ReadPtr(blk: Block, i: nat): nat
    requires 4 * i + 3 < |blk|
  {
    (blk[4 * i] as int) + 0x100 * (blk[4 * i + 1] as int) + 0x1_0000 * (blk[4 * i + 2] as int)
    + 0x100_0000 * (blk[4 * i + 3] as int)
  }

  function WritePtr(blk: Block, i: nat, v: nat): (r: Block)
    requires 4 * i + 3 < |blk|
    ensures |r| == |blk|
  {
    blk[4 * i := v % 0x100][4 * i + 1 := v / 0x100 % 0x100][4 * i + 2 := v / 0x1_0000 % 0x100][4 * i + 3 :=
      v / 0x100_0000 % 0x100]
  }

  lemma ReadWritten(blk: Block, i: nat, v: nat, j: nat)
    requires 4 * i + 3 < |blk| && 4 * j + 3 < |blk| && v < 0x1_0000_0000
    ensures ReadPtr(WritePtr(blk, i, v), j) == if j == i then v else ReadPtr(blk, j)
  {
    if j == i {
      Digits(v);
    }
  }

  /** Entry `i` of index block `b`; block 0 is no block and has no entries. */
  function Entry(disk: Disk, b: nat, i: nat): nat {
    if 0 < b < |disk| && 4 * i + 3 < |disk[b]| then ReadPtr(disk[b], i) else 0
  }

  // ---------------------------------------------------------------- slots

  /** The places of an inode that can hold a block number. */
  datatype Slot = Direct(i: nat) | Single | Ind(i: nat) | Double | Mid(i: nat) | Leaf(i: nat, j: nat)
  datatype Place = Place(ino: nat, slot: Slot)

  predicate SlotOk(apb: nat, s: Slot) {
    match s
    case Direct(i) => i < NDIR
    case Single => true
    case Ind(i) => i < apb
    case Double => true
    case Mid(i) => i < apb
    case Leaf(i, j) => i < apb && j < apb
  }

  function Ptr(disk: Disk, ip: Inode, s: Slot): nat
    requires |ip.ptr| == NPTR
  {
    match s
    case Direct(i) => if i < NDIR then ip.ptr[i] else 0
    case Single => ip.ptr[IND]
    case Ind(i) => Entry(disk, ip.ptr[IND], i)
    case Double => ip.ptr[DIND]
    case Mid(i) => Entry(disk, ip.ptr[DIND], i)
    case Leaf(i, j) => Entry(disk, Entry(disk, ip.ptr[DIND], i), j)
  }

  /** The slot of a logical block: direct, through the index block, or through two levels. */
  datatype Where = Nowhere | At(slot: Slot)

  function Locate(apb: nat, fb: nat): Where {
    if fb < NDIR then At(Direct(fb))
    else if fb - NDIR < apb then At(Ind(fb - NDIR))
    else if fb - NDIR - apb < apb * apb && apb > 0 then At(Leaf(Quot(fb - NDIR - apb, apb), Rem(fb - NDIR - apb, apb)))
    else Nowhere
  }

  function MapBlock(apb: nat, disk: Disk, ip: Inode, fb: nat): nat
    requires |ip.ptr| == NPTR
  {
    match Locate(apb, fb)
    case Nowhere => 0
    case At(s) => Ptr(disk, ip, s)
  }

  lemma LocateOk(apb: nat, fb: nat)
    ensures Locate(apb, fb).At? ==> SlotOk(apb, Locate(apb, fb).slot)
  {
    var k := fb - NDIR - apb;
    if fb >= NDIR + apb && k < apb * apb && apb > 0 {
      QuotRem(k, apb);
      if Quot(k, apb) >= apb { MulMono(apb, Quot(k, apb), apb); }
    }
  }

  /** Different logical blocks have different slots. */
  lemma LocateInjective(apb: nat, fb: nat, fb': nat)
    requires Locate(apb, fb).At? && Locate(apb, fb) == Locate(apb, fb')
    ensures fb == fb'
  {
    if fb >= NDIR + apb && fb' >= NDIR + apb {
      QuotRem(fb - NDIR - apb, apb);
      QuotRem(fb' - NDIR - apb, apb);
    }
  }

  // ---------------------------------------------------------------- ownership

  ghost predicate Pointered(inodes: Inodes) {
    forall n {:trigger inodes[n]} :: n in inodes ==> |inodes[n].ptr| == NPTR
  }

  ghost predicate PlaceOk(apb: nat, inodes: Inodes, p: Place) { p.ino in inodes && SlotOk(apb, p.slot) }

  ghost function PtrAt(disk: Disk, inodes: Inodes, p: Place): nat
    requires Pointered(inodes)
  {
    if p.ino in inodes then Ptr(disk, inodes[p.ino], p.slot) else 0
  }

  /** A block a file may own: it exists, is marked used and is no bitmap block. */
  ghost predicate Ownable(geo: Geo, disk: Disk, b: nat) {
    Formatted(geo, disk) && geo.Covers(b) && b < |disk| && !IsBitmap(geo, b) && Used(geo, disk, b)
  }

  /** Two different places name the same block. */
  ghost predicate Clash(disk: Disk, inodes: Inodes, p: Place, q: Place)
    requires Pointered(inodes)
  {
    p != q && PtrAt(disk, inodes, p) != 0 && PtrAt(disk, inodes, p) == PtrAt(disk, inodes, q)
  }

  /** Every block named by an inode or an index block is used, and no block is named twice. */
  ghost predicate Owned(geo: Geo, disk: Disk, inodes: Inodes) {
    && Formatted(geo, disk) && Pointered(inodes)
    && (forall p {:trigger PtrAt(disk, inodes, p)} :: PlaceOk(geo.bs / 4, inodes, p) && PtrAt(disk, inodes, p) != 0 ==>
          Ownable(geo, disk, PtrAt(disk, inodes, p)))
    && (forall p, q {:trigger Clash(disk, inodes, p, q)} ::
          PlaceOk(geo.bs / 4, inodes, p) && PlaceOk(geo.bs / 4, inodes, q) ==> !Clash(disk, inodes, p, q))
  }

  function Key(s: Slot): nat
    requires s.Ind? || s.Mid? || s.Leaf?
  {
    match s case Ind(i) => i case Mid(i) => i case Leaf(_, j) => j
  }

  /** The place that names the index block a slot lives in. */
  function Above(p: Place): Place
    requires p.slot.Ind? || p.slot.Mid? || p.slot.Leaf?
  {
    match p.slot
    case Ind(_) => Place(p.ino, Single)
    case Mid(_) => Place(p.ino, Double)
    case Leaf(i, _) => Place(p.ino, Mid(i))
  }

  ghost predicate Indexed(s: Slot) { s.Ind? || s.Mid? || s.Leaf? }

  /** After the fresh zeroed block `nr` was stored at `p`, every other place names what it named before. */
  ghost predicate Planted(apb: nat, disk: Disk, inodes: Inodes, disk': Disk, inodes': Inodes, p: Place, nr: nat) {
    && Pointered(inodes) && Pointered(inodes') && inodes'.Keys == inodes.Keys
    && forall q {:trigger PtrAt(disk', inodes', q)} :: PlaceOk(apb, inodes, q) ==>
         PtrAt(disk', inodes', q) == if q == p then nr else PtrAt(disk, inodes, q)
  }

  /** Blocks that may be owned have the same contents on both disks. */
  ghost predicate KeepsOwnable(geo: Geo, disk: Disk, disk': Disk) {
    |disk'| == |disk| && forall b {:trigger disk'[b]} :: 0 <= b < |disk| && Ownable(geo, disk, b) ==>
      disk'[b] == disk[b]
  }

  lemma NamedOwnable(geo: Geo, disk: Disk, inodes: Inodes, p: Place)
    requires Owned(geo, disk, inodes) && PlaceOk(geo.bs / 4, inodes, p) && PtrAt(disk, inodes, p) != 0
    ensures Ownable(geo, disk, PtrAt(disk, inodes, p))
  {
  }

  lemma SamePlaces(geo: Geo, disk: Disk, inodes: Inodes, disk': Disk, p: Place)
    requires Owned(geo, disk, inodes) && KeepsOwnable(geo, disk, disk') && PlaceOk(geo.bs / 4, inodes, p)
    ensures PtrAt(disk', inodes, p) == PtrAt(disk, inodes, p)
  {
    hide Owned, Ownable, ReadPtr;
    OwnedPointered(geo, disk, inodes);
    if Indexed(p.slot) && PtrAt(disk, inodes, Above(p)) != 0 { NamedOwnable(geo, disk, inodes, Above(p)); }
    if p.slot.Leaf? && PtrAt(disk, inodes, Above(Above(p))) != 0 { NamedOwnable(geo, disk, inodes, Above(Above(p))); }
  }

  lemma OwnedPointered(geo: Geo, disk: Disk, inodes: Inodes)
    requires Owned(geo, disk, inodes)
    ensures Pointered(inodes) && Formatted(geo, disk)
  {
  }

  /** Ownership only depends on the named blocks, what the index blocks hold, and the used bits. */
  lemma OwnedMoves(geo: Geo, disk: Disk, inodes: Inodes, disk': Disk)
    requires Owned(geo, disk, inodes) && Formatted(geo, disk') && KeepsOwnable(geo, disk, disk')
    requires forall b: nat {:trigger Ownable(geo, disk', b)} :: Ownable(geo, disk, b) ==> Ownable(geo, disk', b)
    ensures Owned(geo, disk', inodes)
    ensures forall p {:trigger PtrAt(disk', inodes, p)} :: PlaceOk(geo.bs / 4, inodes, p) ==>
      PtrAt(disk', inodes, p) == PtrAt(disk, inodes, p)
  {
    hide Ownable, Formatted, PtrAt;
    forall p | PlaceOk(geo.bs / 4, inodes, p)
      ensures PtrAt(disk', inodes, p) == PtrAt(disk, inodes, p)
    {
      SamePlaces(geo, disk, inodes, disk', p);
    }
    forall p, q | PlaceOk(geo.bs / 4, inodes, p) && PlaceOk(geo.bs / 4, inodes, q) ensures !Clash(disk', inodes, p, q) {
      assert !Clash(disk, inodes, p, q);
    }
  }

  /** Allocation leaves every mapping as it is and returns a block nobody names. */
  lemma AllocKeeps(geo: Geo, disk: Disk, inodes: Inodes, disk': Disk, nr: nat)
    requires Owned(geo, disk, inodes) && Allocated(geo, disk, disk', nr)
    ensures Owned(geo, disk', inodes) && Ownable(geo, disk', nr) && KeepsOwnable(geo, disk, disk')
    ensures forall p {:trigger PtrAt(disk', inodes, p)} :: PlaceOk(geo.bs / 4, inodes, p) ==>
      PtrAt(disk', inodes, p) == PtrAt(disk, inodes, p) && PtrAt(disk', inodes, p) != nr
  {
    hide Used, Owned, PtrAt, IsBitmap;
    OwnedPointered(geo, disk, inodes);
    OwnedMoves(geo, disk, inodes, disk');
    forall p | PlaceOk(geo.bs / 4, inodes, p) ensures PtrAt(disk', inodes, p) != nr {
      if PtrAt(disk, inodes, p) == nr { NamedOwnable(geo, disk, inodes, p); }
    }
  }

  /** Storing a fresh block where nothing was named keeps ownership. */
  lemma PlantedOwned(geo: Geo, disk: Disk, inodes: Inodes, disk': Disk, inodes': Inodes, p: Place, nr: nat)
    requires Owned(geo, disk, inodes) && Formatted(geo, disk')
    requires Planted(geo.bs / 4, disk, inodes, disk', inodes', p, nr)
    requires PlaceOk(geo.bs / 4, inodes, p) && Ownable(geo, disk', nr)
    requires forall b: nat {:trigger Ownable(geo, disk', b)} :: Ownable(geo, disk, b) ==> Ownable(geo, disk', b)
    requires forall q {:trigger PtrAt(disk, inodes, q)} :: PlaceOk(geo.bs / 4, inodes, q) ==>
      PtrAt(disk, inodes, q) != nr
    ensures Owned(geo, disk', inodes')
  {
    hide Ownable, Formatted, PtrAt;
    forall q, r | PlaceOk(geo.bs / 4, inodes', q) &&
      PlaceOk(geo.bs / 4, inodes', r) ensures !Clash(disk', inodes', q, r) {
      assert !Clash(disk, inodes, q, r);
    }
  }

  lemma ZeroEntry(disk: Disk, nr: nat, i: nat, n: nat)
    requires nr == 0 || (nr < |disk| && disk[nr] == Zeros(n))
    ensures Entry(disk, nr, i) == 0
  {
  }

  /** A fresh zeroed block stored in an inode field. */
  lemma PlantField(apb: nat, disk: Disk, inodes: Inodes, ino: nat, k: nat, nr: nat, n: nat)
    requires Pointered(inodes) && ino in inodes && k < 14 && inodes[ino].ptr[k] == 0
    requires nr < |disk| && disk[nr] == Zeros(n)
    ensures var p := Place(ino, if k == IND then Single else if k == DIND then Double else Direct(k));
      Planted(apb, disk, inodes, disk, inodes[ino := inodes[ino].(ptr := inodes[ino].ptr[k := nr])], p, nr)
  {
    var inodes' := inodes[ino := inodes[ino].(ptr := inodes[ino].ptr[k := nr])];
    var p := Place(ino, if k == IND then Single else if k == DIND then Double else Direct(k));
    forall i: nat ensures Entry(disk, nr, i) == 0 { ZeroEntry(disk, nr, i, n); }
    hide Entry;
    forall q | PlaceOk(apb, inodes, q) ensures PtrAt(disk, inodes', q) == if q == p then nr
      else PtrAt(disk, inodes, q) {
    }
  }

  /** What writing pointer `v` at index `k` of block `b` does to all entries. */
  lemma EntryWritten(disk: Disk, b: nat, k: nat, v: nat, c: nat, j: nat)
    requires 0 < b < |disk| && 4 * k + 3 < |disk[b]| && v < 0x1_0000_0000
    ensures Entry(disk[b := WritePtr(disk[b], k, v)], c, j) == if c == b && j == k then v else Entry(disk, c, j)
  {
    hide ReadPtr, WritePtr;
    if c == b && 4 * j + 3 < |disk[b]| { ReadWritten(disk[b], k, v, j); }
  }

  /** A fresh zeroed block stored in an index block. */
  lemma PlantIndex(geo: Geo, disk: Disk, inodes: Inodes, p: Place, nr: nat)
    requires Owned(geo, disk, inodes) && PlaceOk(geo.bs / 4, inodes, p) && Indexed(p.slot)
    requires PtrAt(disk, inodes, Above(p)) != 0 && PtrAt(disk, inodes, p) == 0
    requires nr < |disk| && disk[nr] == Zeros(geo.bs) && nr < 0x1_0000_0000
    requires forall q {:trigger PtrAt(disk, inodes, q)} :: PlaceOk(geo.bs / 4, inodes, q) ==>
      PtrAt(disk, inodes, q) != nr
    ensures var ib := PtrAt(disk, inodes, Above(p));
      && 0 < ib < |disk| && 4 * Key(p.slot) + 3 < |disk[ib]|
      && Planted(geo.bs / 4, disk, inodes, disk[ib := WritePtr(disk[ib], Key(p.slot), nr)], inodes, p, nr)
  {
    hide Owned, ReadPtr, WritePtr, Entry;
    OwnedPointered(geo, disk, inodes);
    var ib := PtrAt(disk, inodes, Above(p));
    NamedOwnable(geo, disk, inodes, Above(p));
    assert 4 * Key(p.slot) + 3 < |disk[ib]|;
    var disk' := disk[ib := WritePtr(disk[ib], Key(p.slot), nr)];
    forall q | PlaceOk(geo.bs / 4, inodes, q) ensures PtrAt(disk', inodes, q) == if q == p then nr
      else PtrAt(disk, inodes, q) {
      PlantIndexAt(geo, disk, inodes, p, nr, q);
    }
  }

  lemma PlantIndexAt(geo: Geo, disk: Disk, inodes: Inodes, p: Place, nr: nat, q: Place)
    requires Owned(geo, disk, inodes) && PlaceOk(geo.bs / 4, inodes, p) && Indexed(p.slot)
    requires PlaceOk(geo.bs / 4, inodes, q)
    requires PtrAt(disk, inodes, Above(p)) != 0 && PtrAt(disk, inodes, p) == 0
    requires nr < |disk| && disk[nr] == Zeros(geo.bs) && nr < 0x1_0000_0000
    requires nr != PtrAt(disk, inodes, Above(p))
    requires var ib := PtrAt(disk, inodes, Above(p)); 0 < ib < |disk| && 4 * Key(p.slot) + 3 < |disk[ib]|
    ensures var ib := PtrAt(disk, inodes, Above(p));
      PtrAt(disk[ib := WritePtr(disk[ib], Key(p.slot), nr)], inodes, q) == if q == p then nr else PtrAt(disk, inodes, q)
  {
    hide Owned, Ownable, ReadPtr, WritePtr, Entry, Formatted;
    OwnedPointered(geo, disk, inodes);
    var ib, k := PtrAt(disk, inodes, Above(p)), Key(p.slot);
    forall c: nat, j: nat ensures Entry(disk[ib := WritePtr(disk[ib], k, nr)], c, j) == if c == ib && j == k then nr
      else Entry(disk, c, j) {
      EntryWritten(disk, ib, k, nr, c, j);
    }
    if Indexed(q.slot) {
      NoClash(geo, disk, inodes, Above(p), Above(q));
      if q.slot.Leaf? {
        NoClash(geo, disk, inodes, Above(p), Above(Above(q)));
        ZeroEntry(disk, nr, q.slot.j, geo.bs);
        ZeroEntry(disk, 0, q.slot.j, geo.bs);
      }
    }
  }

  lemma NoClash(geo: Geo, disk: Disk, inodes: Inodes, p: Place, q: Place)
    requires Owned(geo, disk, inodes) && PlaceOk(geo.bs / 4, inodes, p) && PlaceOk(geo.bs / 4, inodes, q)
    requires PtrAt(disk, inodes, p) != 0
    ensures PtrAt(disk, inodes, p) == PtrAt(disk, inodes, q) ==> p == q
  {
    assert !Clash(disk, inodes, p, q);
  }

  // ---------------------------------------------------------------- file contents

  /** Byte `off` of block `b`, zero when there is no block. */
  function BlockByte(disk: Disk, b: nat, off: nat): Byte {
    if 0 < b < |disk| && off < |disk[b]| then disk[b][off] else 0
  }

  /** Byte `off` of logical block `fb` of a file. */
  ghost function ByteIn(geo: Geo, disk: Disk, inodes: Inodes, ino: nat, fb: nat, off: nat): Byte
    requires Pointered(inodes)
  {
    if ino in inodes then BlockByte(disk, MapBlock(geo.bs / 4, disk, inodes[ino], fb), off) else 0
  }

  /** Every place that names a block goes on naming it. */
  ghost predicate Steady(apb: nat, disk: Disk, inodes: Inodes, disk': Disk, inodes': Inodes)
    requires Pointered(inodes) && Pointered(inodes')
  {
    forall p {:trigger PtrAt(disk', inodes', p)} :: PlaceOk(apb, inodes, p) && PtrAt(disk, inodes, p) != 0 ==>
      PtrAt(disk', inodes', p) == PtrAt(disk, inodes, p)
  }

  /** No byte of any file differs, and no block has moved. */
  ghost predicate SameBytes(geo: Geo, disk: Disk, inodes: Inodes, disk': Disk, inodes': Inodes) {
    && Pointered(inodes) && Pointered(inodes') && inodes'.Keys == inodes.Keys
    && Steady(geo.bs / 4, disk, inodes, disk', inodes')
    && forall n: nat, fb: nat, off: nat {:trigger ByteIn(geo, disk', inodes', n, fb, off)} ::
         ByteIn(geo, disk', inodes', n, fb, off) == ByteIn(geo, disk, inodes, n, fb, off)
  }

  /** A file byte is the byte of the block its slot names. */
  lemma ByteAtSlot(geo: Geo, disk: Disk, inodes: Inodes, ino: nat, fb: nat, off: nat)
    requires Pointered(inodes)
    ensures ino in inodes && Locate(geo.bs / 4, fb).At? ==>
      ByteIn(geo, disk, inodes, ino, fb, off) == BlockByte(disk,
        PtrAt(disk, inodes, Place(ino, Locate(geo.bs / 4, fb).slot)), off)
      && PlaceOk(geo.bs / 4, inodes, Place(ino, Locate(geo.bs / 4, fb).slot))
      && (Locate(geo.bs / 4, fb).slot.Direct? || Locate(geo.bs / 4, fb).slot.Ind? || Locate(geo.bs / 4, fb).slot.Leaf?)
    ensures ino !in inodes || Locate(geo.bs / 4, fb).Nowhere? ==> ByteIn(geo, disk, inodes, ino, fb, off) == 0
  {
    LocateOk(geo.bs / 4, fb);
  }

  ghost predicate DataSlot(s: Slot) { s.Direct? || s.Ind? || s.Leaf? }

  /** Planting a zeroed block changes no byte: what was unmapped still reads as zero. */
  lemma PlantedBytes(geo: Geo, disk: Disk, inodes: Inodes, disk': Disk, inodes': Inodes, p: Place, nr: nat)
    requires Owned(geo, disk, inodes) && Planted(geo.bs / 4, disk, inodes, disk', inodes', p, nr) && |disk'| == |disk|
    requires PtrAt(disk, inodes, p) == 0 && nr < |disk| && disk'[nr] == Zeros(geo.bs)
    requires forall q {:trigger PtrAt(disk, inodes, q)} ::
      PlaceOk(geo.bs / 4, inodes, q) && DataSlot(q.slot) && q != p ==>
      var b := PtrAt(disk, inodes, q); 0 < b < |disk| ==> disk'[b] == disk[b]
    ensures SameBytes(geo, disk, inodes, disk', inodes')
  {
    hide Owned, PtrAt, Locate, MapBlock;
    OwnedPointered(geo, disk, inodes);
    forall n: nat, fb: nat, off: nat
      ensures ByteIn(geo, disk', inodes', n, fb, off) == ByteIn(geo, disk, inodes, n, fb, off)
    {
      hide ByteIn;
      ByteAtSlot(geo, disk, inodes, n, fb, off);
      ByteAtSlot(geo, disk', inodes', n, fb, off);
      if n in inodes && Locate(geo.bs / 4, fb).At? {
        var q := Place(n, Locate(geo.bs / 4, fb).slot);
        assert DataSlot(q.slot) && PlaceOk(geo.bs / 4, inodes, q);
        assert PtrAt(disk', inodes', q) == if q == p then nr else PtrAt(disk, inodes, q);
      }
    }
  }

  lemma SameBytesTrans(geo: Geo, d0: Disk, i0: Inodes, d1: Disk, i1: Inodes, d2: Disk, i2: Inodes)
    requires SameBytes(geo, d0, i0, d1, i1) && SameBytes(geo, d1, i1, d2, i2)
    ensures SameBytes(geo, d0, i0, d2, i2)
  {
    hide ByteIn;
    forall n: nat, fb: nat, off: nat ensures ByteIn(geo, d2, i2, n, fb, off) == ByteIn(geo, d0, i0, n, fb, off) {
      assert ByteIn(geo, d1, i1, n, fb, off) == ByteIn(geo, d0, i0, n, fb, off);
    }
  }

  lemma AllocBytes(geo: Geo, disk: Disk, inodes: Inodes, disk': Disk, nr: nat)
    requires Owned(geo, disk, inodes) && Allocated(geo, disk, disk', nr)
    ensures SameBytes(geo, disk, inodes, disk', inodes)
  {
    hide Owned, PtrAt, Locate, MapBlock, Allocated, Ownable;
    OwnedPointered(geo, disk, inodes);
    AllocKeeps(geo, disk, inodes, disk', nr);
    forall n: nat, fb: nat,
      off: nat ensures ByteIn(geo, disk', inodes, n, fb, off) == ByteIn(geo, disk, inodes, n, fb, off) {
      hide ByteIn;
      ByteAtSlot(geo, disk, inodes, n, fb, off);
      ByteAtSlot(geo, disk', inodes, n, fb, off);
      if n in inodes && Locate(geo.bs / 4, fb).At? {
        var q := Place(n, Locate(geo.bs / 4, fb).slot);
        if PtrAt(disk, inodes, q) != 0 { NamedOwnable(geo, disk, inodes, q); }
      }
    }
  }

  /** An allocated block stored in an empty inode field: ownership kept, no byte of any file changed. */
  lemma GrowField(geo: Geo, disk: Disk, inodes: Inodes, disk': Disk, ino: nat, k: nat, nr: nat, sectors: nat)
    requires Owned(geo, disk, inodes) && Allocated(geo, disk, disk', nr)
    requires ino in inodes && k < 14 && inodes[ino].ptr[k] == 0
    ensures var inodes' := inodes[ino := inodes[ino].(ptr := inodes[ino].ptr[k := nr], sectors := sectors)];
      Owned(geo, disk', inodes') && SameBytes(geo, disk, inodes, disk', inodes')
  {
    hide Owned, Ownable, Planted, SameBytes, Formatted, Used;
    OwnedPointered(geo, disk, inodes);
    var slot := if k == IND then Single else if k == DIND then Double else Direct(k);
    var p := Place(ino, slot);
    var inodes1 := inodes[ino := inodes[ino].(ptr := inodes[ino].ptr[k := nr])];
    AllocKeeps(geo, disk, inodes, disk', nr);
    AllocBytes(geo, disk, inodes, disk', nr);
    PlantField(geo.bs / 4, disk', inodes, ino, k, nr, geo.bs);
    PlantedOwned(geo, disk', inodes, disk', inodes1, p, nr);
    PlantedBytes(geo, disk', inodes, disk', inodes1, p, nr);
    SameBytesTrans(geo, disk, inodes, disk', inodes, disk', inodes1);
    var inodes' := inodes[ino := inodes[ino].(ptr := inodes[ino].ptr[k := nr], sectors := sectors)];
    SamePointers(geo, disk', inodes1, inodes');
    SameBytesTrans(geo, disk, inodes, disk', inodes1, disk', inodes');
  }

  /** Only the pointers of an inode matter for ownership and contents. */
  lemma SamePointers(geo: Geo, disk: Disk, inodes: Inodes, inodes': Inodes)
    requires Owned(geo, disk, inodes) && inodes'.Keys == inodes.Keys
    requires forall n {:trigger inodes'[n]} :: n in inodes' ==> inodes'[n].ptr == inodes[n].ptr
    ensures Owned(geo, disk, inodes') && SameBytes(geo, disk, inodes, disk, inodes')
  {
    hide Ownable, Formatted, BlockByte, Locate, Entry;
    forall p ensures Pointered(inodes') && PtrAt(disk, inodes', p) == PtrAt(disk, inodes, p) { }
    forall n: nat, fb: nat,
      off: nat ensures ByteIn(geo, disk, inodes', n, fb, off) == ByteIn(geo, disk, inodes, n, fb, off) { }
    forall p, q | PlaceOk(geo.bs / 4, inodes', p) &&
      PlaceOk(geo.bs / 4, inodes', q) ensures !Clash(disk, inodes', p, q) {
      assert !Clash(disk, inodes, p, q);
    }
  }

  /** Rewriting an owned block keeps every block ownable. */
  lemma WriteOwnable(geo: Geo, disk: Disk, b: nat, blk: Block)
    requires Ownable(geo, disk, b) && |blk| == geo.bs
    ensures Formatted(geo, disk[b := blk])
    ensures forall c: nat {:trigger Ownable(geo, disk[b := blk], c)} :: Ownable(geo, disk, c) <==>
      Ownable(geo, disk[b := blk], c)
  {
    hide UsedAt, BitOf, IsBitmap;
    DataWrite(geo, disk, b, blk);
    var disk' := disk[b := blk];
    forall c: nat | geo.Covers(c) ensures Used(geo, disk', c) == Used(geo, disk, c) { CoversParts(geo, c); }
  }

  /** An allocated block stored at an empty index entry: ownership kept, no byte of any file changed. */
  lemma GrowIndex(geo: Geo, disk: Disk, inodes: Inodes, disk1: Disk, p: Place, nr: nat)
    requires Owned(geo, disk, inodes) && Allocated(geo, disk, disk1, nr)
    requires PlaceOk(geo.bs / 4, inodes, p) && Indexed(p.slot) && PtrAt(disk, inodes, Above(p)) != 0
    requires PtrAt(disk, inodes, p) == 0
    ensures var ib := PtrAt(disk, inodes, Above(p));
      && 0 < ib < |disk1| && ib != nr && 4 * Key(p.slot) + 3 < |disk1[ib]|
      && var disk2 := disk1[ib := WritePtr(disk1[ib], Key(p.slot), nr)];
      && Owned(geo, disk2, inodes) && SameBytes(geo, disk, inodes, disk2, inodes)
      && PtrAt(disk2, inodes, p) == nr && PtrAt(disk2, inodes, Above(p)) == ib && disk2[nr] == Zeros(geo.bs)
  {
    hide Owned, Ownable, SameBytes, Formatted, Used, PtrAt, WritePtr;
    OwnedPointered(geo, disk, inodes);
    AllocKeeps(geo, disk, inodes, disk1, nr);
    AllocBytes(geo, disk, inodes, disk1, nr);
    AboveOk(geo, inodes, p);
    var ib := PtrAt(disk1, inodes, Above(p));
    NamedOwnable(geo, disk1, inodes, Above(p));
    AllocFacts(geo, disk, disk1, nr);
    PlantIndex(geo, disk1, inodes, p, nr);
    var blk := WritePtr(disk1[ib], Key(p.slot), nr);
    var disk2 := disk1[ib := blk];
    WriteOwnable(geo, disk1, ib, blk);
    PlantedOwned(geo, disk1, inodes, disk2, inodes, p, nr);
    forall q | PlaceOk(geo.bs / 4, inodes, q) && DataSlot(q.slot) && q != p
      ensures var b := PtrAt(disk1, inodes, q); 0 < b < |disk1| ==> disk2[b] == disk1[b]
    {
      NoClash(geo, disk1, inodes, Above(p), q);
    }
    PlantedBytes(geo, disk1, inodes, disk2, inodes, p, nr);
    SameBytesTrans(geo, disk, inodes, disk1, inodes, disk2, inodes);
  }

  lemma AboveOk(geo: Geo, inodes: Inodes, p: Place)
    requires PlaceOk(geo.bs / 4, inodes, p) && Indexed(p.slot)
    ensures PlaceOk(geo.bs / 4, inodes, Above(p)) && Above(p) != p && !DataSlot(Above(p).slot)
  {
  }

  lemma AllocFacts(geo: Geo, disk: Disk, disk': Disk, nr: nat)
    requires Allocated(geo, disk, disk', nr)
    ensures nr < |disk'| == |disk| && nr < 0x1_0000_0000 && disk'[nr] == Zeros(geo.bs) && Formatted(geo, disk')
    ensures forall b :: 0 <= b < |disk'| ==> |disk'[b]| == geo.bs
  {
  }
}
