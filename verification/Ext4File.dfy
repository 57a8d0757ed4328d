/** File contents of the ext4 driver: resolving blocks, reading and writing. */
module Ext4File {
  import opened Arith
  import opened Bytes
  import opened Ext4Bitmap
  import opened Ext4Volume
  import opened Ext4Map

  predicate IsReg(mode: nat) { mode / 0x1000 % 16 == 8 }

  /** The file types with 8 in the upper four of sixteen bits. */
  lemma RegModes(mode: nat)
    ensures IsReg(mode) <==> 0x8000 <= mode % 0x1_0000 < 0x9000
  {
  }

  /** Regular files of revision 1 and later keep the upper half of the size. */
  function FileSize(ip: Inode, rev: nat): nat {
    if IsReg(ip.mode) && rev >= 1 then ip.lo + 0x1_0000_0000 * ip.hi else ip.lo
  }

  function WithSize(ip: Inode, rev: nat, size: nat): Inode {
    if IsReg(ip.mode) && rev >= 1 then ip.(lo := size % 0x1_0000_0000, hi := size / 0x1_0000_0000 % 0x1_0000_0000)
    else ip.(lo := size % 0x1_0000_0000)
  }

  const ENOSPC := 28

  /** Every block taken from the free count is counted in i_blocks, in 512-byte sectors. */
  predicate Paid(bs: nat, free: int, ip: Inode, free': int, ip': Inode) {
    ip'.sectors == ip.sectors + (free - free') * (bs / 512)
  }

  lemma PaidNone(bs: nat, free: int, ip: Inode)
    ensures Paid(bs, free, ip, free, ip)
  {
  }

  lemma PaidAlloc(bs: nat, free: int, ip: Inode, taken: bool)
    ensures taken ==> forall ip': Inode :: ip'.sectors == ip.sectors + bs / 512 ==> Paid(bs, free, ip, free - 1, ip')
    ensures !taken ==> Paid(bs, free, ip, free, ip)
  {
  }

  lemma PaidTrans(bs: nat, f0: int, a: Inode, f1: int, b: Inode, f2: int, c: Inode)
    requires Paid(bs, f0, a, f1, b) && Paid(bs, f1, b, f2, c)
    ensures Paid(bs, f0, a, f2, c)
  {
  }

  lemma PaidSize(bs: nat, f0: int, a: Inode, f1: int, b: Inode, rev: nat, size: nat)
    requires Paid(bs, f0, a, f1, b)
    ensures Paid(bs, f0, a, f1, WithSize(b, rev, size))
  {
  }

  /** The size halves are 32-bit words. */
  ghost predicate SizeOk(ip: Inode) { ip.lo < 0x1_0000_0000 && ip.hi < 0x1_0000_0000 }

  /** Pointers are only ever filled in. */
  ghost predicate Grew(ip: Inode, ip': Inode) {
    |ip.ptr| == NPTR && |ip'.ptr| == NPTR && forall k {:trigger ip.ptr[k]} :: 0 <= k < NPTR && ip.ptr[k] != 0 ==>
      ip'.ptr[k] == ip.ptr[k]
  }

  class Ext4 {
    const vol: Volume
    const rev: nat
    var inodes: Inodes

    constructor (v: Volume, r: nat, t: Inodes)
      ensures vol == v && rev == r && inodes == t
    {
      vol, rev, inodes := v, r, t;
    }

    /** The whole file system: counters match the bitmaps and every named block is owned once. */
    ghost predicate Valid()
      reads this, vol
    {
      vol.Valid() && Owned(vol.geo, vol.disk, inodes)
    }

    /** The same while inode `ino` is being worked on in memory as `ip`. */
    ghost predicate Working(ino: nat, ip: Inode)
      reads this, vol
    {
      vol.Valid() && ino in inodes && Owned(vol.geo, vol.disk, inodes[ino := ip])
    }

    /** Allocate a block into the empty inode field `k`. */
    method AllocField(ino: nat, ip: Inode, k: nat) returns (nr: nat, ip': Inode)
      requires Working(ino, ip) && k < 14 && |ip.ptr| == NPTR && ip.ptr[k] == 0
      modifies vol
      ensures Working(ino, ip') && SameBytes(vol.geo, old(vol.disk), inodes[ino := ip], vol.disk, inodes[ino := ip'])
      ensures nr == 0 ==> ip' == ip && vol.disk == old(vol.disk) && NoneFree(vol.geo, vol.disk)
      ensures nr != 0 ==> ip' == ip.(ptr := ip.ptr[k := nr], sectors := ip.sectors + vol.geo.bs / 512)
      ensures nr != 0 ==> nr < |vol.disk| && vol.disk[nr] == Zeros(vol.geo.bs)
      ensures Paid(vol.geo.bs, old(vol.sFree), ip, vol.sFree, ip')
    {
      hide Volume.Valid, Owned, SameBytes, Allocated, NoneFree, Paid;
      ghost var disk := vol.disk;
      ghost var t := inodes[ino := ip];
      nr := vol.Alloc();
      PaidAlloc(vol.geo.bs, old(vol.sFree), ip, nr != 0);
      if nr == 0 {
        SamePointers(vol.geo, vol.disk, t, t);
        return nr, ip;
      }
      ip' := ip.(ptr := ip.ptr[k := nr], sectors := ip.sectors + vol.geo.bs / 512);
      GrowField(vol.geo, disk, t, vol.disk, ino, k, nr, ip.sectors + vol.geo.bs / 512);
      AllocFacts(vol.geo, disk, vol.disk, nr);
      assert t[ino := t[ino].(ptr := t[ino].ptr[k := nr], sectors := ip.sectors + vol.geo.bs / 512)] == inodes[ino :=
        ip'];
    }

    /** Allocate a block into the empty entry `slot` of the index block `holder`. */
    method AllocEntry(ino: nat, ip: Inode, slot: Slot, holder: nat) returns (nr: nat, ip': Inode)
      requires Working(ino, ip) && |ip.ptr| == NPTR && Indexed(slot) && SlotOk(vol.geo.bs / 4, slot)
      requires holder == Ptr(vol.disk, ip, Above(Place(ino, slot)).slot) && holder != 0 && Ptr(vol.disk, ip, slot) == 0
      modifies vol
      ensures Working(ino, ip') && SameBytes(vol.geo, old(vol.disk), inodes[ino := ip], vol.disk, inodes[ino := ip'])
      ensures nr == 0 ==> ip' == ip && vol.disk == old(vol.disk) && NoneFree(vol.geo, vol.disk)
      ensures nr != 0 ==> ip' == ip.(sectors := ip.sectors + vol.geo.bs / 512) && Ptr(vol.disk, ip', slot) == nr
      ensures nr != 0 ==>
        Ptr(vol.disk, ip', Above(Place(ino, slot)).slot) == holder && nr < |vol.disk| &&
        vol.disk[nr] == Zeros(vol.geo.bs)
      ensures Paid(vol.geo.bs, old(vol.sFree), ip, vol.sFree, ip')
    {
      hide Volume.Valid, Owned, SameBytes, Allocated, NoneFree, WritePtr, Entry, Paid;
      ghost var disk := vol.disk;
      ghost var t := inodes[ino := ip];
      nr := vol.Alloc();
      PaidAlloc(vol.geo.bs, old(vol.sFree), ip, nr != 0);
      if nr == 0 {
        SamePointers(vol.geo, vol.disk, t, t);
        return nr, ip;
      }
      AllocFacts(vol.geo, disk, vol.disk, nr);
      GrowIndex(vol.geo, disk, t, vol.disk, Place(ino, slot), nr);
      HolderPlain(vol.geo, disk, t, vol.disk, Place(ino, slot), nr);
      vol.WriteBlock(holder, WritePtr(vol.disk[holder], Key(slot), nr));
      ip' := ip.(sectors := ip.sectors + vol.geo.bs / 512);
      SamePointers(vol.geo, vol.disk, t, inodes[ino := ip']);
      SameBytesTrans(vol.geo, disk, t, vol.disk, t, vol.disk, inodes[ino := ip']);
    }

    /** `resolve_block`: the block behind logical block `fb`.  With `alloc` it allocates the data block and the index
        blocks on the way; no byte of any file changes, because new blocks are zero and holes read as zero. */
    method Resolve(ino: nat, ip: Inode, fb: nat, alloc: bool) returns (b: nat, ip': Inode)
      requires Working(ino, ip) && |ip.ptr| == NPTR
      modifies vol
      ensures Working(ino, ip') && SameBytes(vol.geo, old(vol.disk), inodes[ino := ip], vol.disk, inodes[ino := ip'])
      ensures |ip'.ptr| == NPTR && b == MapBlock(vol.geo.bs / 4, vol.disk, ip', fb)
      ensures ip' == ip.(ptr := ip'.ptr, sectors := ip'.sectors) && Grew(ip, ip')
      ensures Paid(vol.geo.bs, old(vol.sFree), ip, vol.sFree, ip')
      ensures !alloc || MapBlock(vol.geo.bs / 4, old(vol.disk), ip, fb) != 0 ==>
        ip' == ip && vol.disk == old(vol.disk) && vol.bgFree == old(vol.bgFree) && vol.sFree == old(vol.sFree)
      ensures alloc && b == 0 ==> Locate(vol.geo.bs / 4, fb).Nowhere? || NoneFree(vol.geo, vol.disk)
    {
      hide Volume.Valid, Owned, SameBytes, NoneFree, Entry, Paid;
      var apb := vol.geo.bs / 4;
      PaidNone(vol.geo.bs, vol.sFree, ip);
      SamePointers(vol.geo, vol.disk, inodes[ino := ip], inodes[ino := ip]);
      LocateOk(apb, fb);
      if fb < NDIR {
        ip' := ip;
        if ip.ptr[fb] == 0 && alloc {
          var _, ip1 := AllocField(ino, ip, fb);
          ip' := ip1;
        }
        return ip'.ptr[fb], ip';
      }
      if fb - NDIR < apb {
        b, ip' := ResolveSingle(ino, ip, fb - NDIR, alloc);
        return;
      }
      if fb - NDIR - apb < apb * apb {
        b, ip' := ResolveDouble(ino, ip, (fb - NDIR - apb) / apb, (fb - NDIR - apb) % apb, alloc);
        return;
      }
      return 0, ip;
    }

    /** The single-indirect case. */
    method ResolveSingle(ino: nat, ip: Inode, i: nat, alloc: bool) returns (b: nat, ip': Inode)
      requires Working(ino, ip) && |ip.ptr| == NPTR && i < vol.geo.bs / 4
      modifies vol
      ensures Working(ino, ip') && SameBytes(vol.geo, old(vol.disk), inodes[ino := ip], vol.disk, inodes[ino := ip'])
      ensures |ip'.ptr| == NPTR && b == Ptr(vol.disk, ip', Ind(i)) && ip' == ip.(ptr := ip'.ptr, sectors := ip'.sectors)
      ensures Grew(ip, ip')
      ensures Paid(vol.geo.bs, old(vol.sFree), ip, vol.sFree, ip')
      ensures !alloc || Ptr(old(vol.disk), ip, Ind(i)) != 0 ==>
        ip' == ip && vol.disk == old(vol.disk) && vol.bgFree == old(vol.bgFree) && vol.sFree == old(vol.sFree)
      ensures alloc && b == 0 ==> NoneFree(vol.geo, vol.disk)
    {
      hide Volume.Valid, Owned, SameBytes, NoneFree, Entry, Paid;
      ghost var d0, t0, f0 := vol.disk, inodes[ino := ip], vol.sFree;
      PaidNone(vol.geo.bs, f0, ip);
      SamePointers(vol.geo, vol.disk, t0, t0);
      NoEntry(vol.disk, i);
      ip' := ip;
      if ip.ptr[IND] == 0 {
        if !alloc { return 0, ip; }
        var nr, ip1 := AllocField(ino, ip, IND);
        if nr == 0 { return 0, ip; }
        ip' := ip1;
        Rezero(ino, ip1, Single, nr);
        ZeroEntry(vol.disk, nr, i, vol.geo.bs);
      }
      b := Ptr(vol.disk, ip', Ind(i));
      if b == 0 && alloc {
        ghost var d1, t1, f1 := vol.disk, inodes[ino := ip'], vol.sFree;
        var ip2;
        b, ip2 := AllocEntry(ino, ip', Ind(i), ip'.ptr[IND]);
        PaidTrans(vol.geo.bs, f0, ip, f1, ip', vol.sFree, ip2);
        SameBytesTrans(vol.geo, d0, t0, d1, t1, vol.disk, inodes[ino := ip2]);
        ip' := ip2;
      }
    }

    /** The explicit zero write to a new index block, which the allocator has zeroed already. */
    method Rezero(ghost ino: nat, ghost ip: Inode, ghost slot: Slot, nr: nat)
      requires Working(ino, ip) && |ip.ptr| == NPTR && SlotOk(vol.geo.bs / 4, slot) && nr == Ptr(vol.disk, ip, slot)
      requires nr != 0
      requires nr < |vol.disk| && vol.disk[nr] == Zeros(vol.geo.bs)
      modifies vol`disk
      ensures vol.Valid() && vol.disk == old(vol.disk)
    {
      hide Volume.Valid, Owned, Entry, IsBitmap, Used;
      NamedOwnable(vol.geo, vol.disk, inodes[ino := ip], Place(ino, slot));
      assert vol.disk[nr := Zeros(vol.geo.bs)] == vol.disk;
      vol.WriteBlock(nr, Zeros(vol.geo.bs));
    }

    /** The double-indirect case. */
    method ResolveDouble(ino: nat, ip: Inode, i: nat, j: nat, alloc: bool) returns (b: nat, ip': Inode)
      requires Working(ino, ip) && |ip.ptr| == NPTR && i < vol.geo.bs / 4 && j < vol.geo.bs / 4
      modifies vol
      ensures Working(ino, ip') && SameBytes(vol.geo, old(vol.disk), inodes[ino := ip], vol.disk, inodes[ino := ip'])
      ensures |ip'.ptr| == NPTR && b == Ptr(vol.disk, ip', Leaf(i, j))
      ensures ip' == ip.(ptr := ip'.ptr, sectors := ip'.sectors) && Grew(ip, ip')
      ensures Paid(vol.geo.bs, old(vol.sFree), ip, vol.sFree, ip')
      ensures !alloc || Ptr(old(vol.disk), ip, Leaf(i, j)) != 0 ==>
        ip' == ip && vol.disk == old(vol.disk) && vol.bgFree == old(vol.bgFree) && vol.sFree == old(vol.sFree)
      ensures alloc && b == 0 ==> NoneFree(vol.geo, vol.disk)
    {
      hide Volume.Valid, Owned, SameBytes, NoneFree, Entry, Paid;
      ghost var d0, t0, f0 := vol.disk, inodes[ino := ip], vol.sFree;
      PaidNone(vol.geo.bs, f0, ip);
      SamePointers(vol.geo, vol.disk, t0, t0);
      NoEntry(vol.disk, i);
      NoEntry(vol.disk, j);
      ip' := ip;
      if ip.ptr[DIND] == 0 {
        if !alloc { return 0, ip; }
        var nr, ip1 := AllocField(ino, ip, DIND);
        if nr == 0 { return 0, ip; }
        ip' := ip1;
        Rezero(ino, ip1, Double, nr);
        ZeroEntry(vol.disk, nr, i, vol.geo.bs);
      }
      ghost var d1, t1, f1 := vol.disk, inodes[ino := ip'], vol.sFree;
      var mid := Ptr(vol.disk, ip', Mid(i));
      if mid == 0 {
        NoEntry(vol.disk, j);
        if !alloc { return 0, ip'; }
        var ip2;
        mid, ip2 := AllocEntry(ino, ip', Mid(i), ip'.ptr[DIND]);
        PaidTrans(vol.geo.bs, f0, ip, f1, ip', vol.sFree, ip2);
        SameBytesTrans(vol.geo, d0, t0, d1, t1, vol.disk, inodes[ino := ip2]);
        ip' := ip2;
        if mid == 0 { NoEntry(vol.disk, j); return 0, ip'; }
        Rezero(ino, ip2, Mid(i), mid);
        ZeroEntry(vol.disk, mid, j, vol.geo.bs);
      }
      b := Ptr(vol.disk, ip', Leaf(i, j));
      if b == 0 && alloc {
        ghost var d2, t2, f2 := vol.disk, inodes[ino := ip'], vol.sFree;
        var ip3;
        b, ip3 := AllocEntry(ino, ip', Leaf(i, j), mid);
        PaidTrans(vol.geo.bs, f0, ip, f2, ip', vol.sFree, ip3);
        SameBytesTrans(vol.geo, d0, t0, d2, t2, vol.disk, inodes[ino := ip3]);
        ip' := ip3;
      }
    }

    /** Copy `chunk` into the mapped block behind (ino, fb) at `off`. */
    method StoreChunk(ghost ino: nat, ghost ip: Inode, ghost fb: nat, b: nat, off: nat, chunk: seq<Byte>)
      requires Working(ino, ip) && |ip.ptr| == NPTR && Locate(vol.geo.bs / 4, fb).At?
      requires b == MapBlock(vol.geo.bs / 4, vol.disk, ip, fb) && b != 0 && off + |chunk| <= vol.geo.bs
      modifies vol`disk
      ensures Working(ino, ip) && b < |old(vol.disk)| && |old(vol.disk)[b]| == vol.geo.bs
      ensures vol.disk == old(vol.disk)[b := Patch(old(vol.disk)[b], off, chunk)]
    {
      hide Volume.Valid, Owned, Entry, IsBitmap, Used, Patch;
      ghost var t := inodes[ino := ip];
      OwnedPointered(vol.geo, vol.disk, t);
      ByteAtSlot(vol.geo, vol.disk, t, ino, fb, 0);
      PtrAtSlot(vol.geo, vol.disk, t, ino, fb);
      ghost var p := Place(ino, Locate(vol.geo.bs / 4, fb).slot);
      NamedOwnable(vol.geo, vol.disk, t, p);
      StoreOwned(vol.geo, vol.disk, t, p, Patch(vol.disk[b], off, chunk));
      vol.WriteBlock(b, Patch(vol.disk[b], off, chunk));
    }

    /** One round of the write loop: resolve the block at `offset + done`, with its index cut to 32 bits, and copy what
        fits into it. */
    method WriteChunk(ino: nat, ip: Inode, buf: seq<Byte>, offset: nat, done: nat, ghost d0: Disk, ghost t0: Inodes)
      returns (b: nat, ip': Inode, done': nat)
      requires Working(ino, ip) && |ip.ptr| == NPTR && done < |buf| && vol.geo.bs > 0
      requires Folded(vol.geo.bs, offset) + done < Limit(vol.geo.bs)
      requires Wrote(vol.geo, d0, t0, vol.disk, inodes[ino := ip], ino, Folded(vol.geo.bs, offset), buf[..done])
      modifies vol
      ensures Working(ino, ip') && Grew(ip, ip') && ip' == ip.(ptr := ip'.ptr, sectors := ip'.sectors)
      ensures Paid(vol.geo.bs, old(vol.sFree), ip, vol.sFree, ip')
      ensures b != 0 ==> done < done' <= |buf|
      ensures b != 0 ==> Folded(vol.geo.bs, offset) + done' < Limit(vol.geo.bs)
      ensures b != 0 ==> Reaches(vol.geo.bs, Folded(vol.geo.bs, offset) + done, done' - done)
      ensures Wrote(vol.geo, d0, t0, vol.disk, inodes[ino := ip'], ino, Folded(vol.geo.bs, offset),
        buf[..if b != 0 then done' else done])
      ensures b == 0 ==> NoRoom(vol.geo, d0, t0, vol.disk, ino, Folded(vol.geo.bs, offset) + done)
    {
      hide Volume.Valid, Owned, Wrote, SameBytes, NoneFree, Locate, MapBlock, Pos, Patch, Grew, Quot, Rem, Paid, Folded,
        Limit, Reaches, NoRoom, Unmappable;
      WorkingFacts(vol.geo, vol.disk, inodes[ino := ip], ino);
      var bs, pos := vol.geo.bs, Rem(offset + done, DWORD);
      var fb, off := Rem(Quot(pos, bs), WORD), Rem(pos, bs);
      ghost var from := Folded(bs, offset);
      FoldedAt(bs, offset, done);
      PosOf(bs, from + done);
      var chunk := if bs - off > |buf| - done then |buf| - done else bs - off;
      done' := done + chunk;
      ghost var d1 := vol.disk;
      b, ip' := Resolve(ino, ip, fb, true);
      WroteSame(vol.geo, d0, t0, d1, inodes[ino := ip], vol.disk, inodes[ino := ip'], ino, from, buf[..done]);
      if b == 0 {
        RanOut(vol.geo, d0, t0, d1, vol.disk, inodes[ino := ip], ino, from, buf[..done]);
        return;
      }
      MappedLocated(vol.geo, vol.disk, ip', fb);
      LocatedReaches(bs, fb, off, chunk);
      ghost var d2 := vol.disk;
      StoreChunk(ino, ip', fb, b, off, buf[done..done']);
      WroteChunk(vol.geo, d0, t0, d2, inodes[ino := ip'], ino, from, buf[..done], fb, off, buf[done..done']);
      assert buf[..done] + buf[done..done'] == buf[..done'];
    }

    /** `ext4_write`: store `buf` at `offset`, growing the file as needed.  Block numbers are cut to 32 bits, so the
        bytes go where `offset` modulo 2^32 blocks points; the write is one at `offset` exactly if that lies below 2^32
        blocks or if what is stored and what was stored there are both zero. */
    method Write(ino: nat, buf: seq<Byte>, offset: nat) returns (r: int, ghost ok: bool)
      requires Valid() && ino in inodes && SizeOk(inodes[ino]) && offset < DWORD && |buf| < DWORD
      modifies vol, this`inodes
      ensures Valid() && vol.geo.bs > 0 && r == if ok then Int32(|buf|) else -ENOSPC
      ensures ok ==> Wrote(vol.geo, old(vol.disk), old(inodes), vol.disk, inodes, ino, Folded(vol.geo.bs, offset), buf)
      ensures ok ==> (Wrote(vol.geo, old(vol.disk), old(inodes), vol.disk, inodes, ino, offset, buf) <==>
        offset < Limit(vol.geo.bs) ||
        AllZero(vol.geo, old(vol.disk), old(inodes), ino, Folded(vol.geo.bs, offset), buf))
      ensures ok ==> Folded(vol.geo.bs, offset) + |buf| < Limit(vol.geo.bs)
      ensures ok ==> Reaches(vol.geo.bs, Folded(vol.geo.bs, offset), |buf|)
      ensures ok ==> Resized(old(inodes), inodes, ino, rev, Rem(offset + |buf|, DWORD))
      ensures ok ==> Paid(vol.geo.bs, old(vol.sFree), old(inodes)[ino], vol.sFree, inodes[ino])
      ensures !ok ==> inodes == old(inodes)
      ensures !ok ==> HalfWrote(vol.geo, old(vol.disk), vol.disk, inodes, ino, Folded(vol.geo.bs, offset), buf)
      ensures !ok ==> Stuck(vol.geo, old(vol.disk), inodes, vol.disk, ino, Folded(vol.geo.bs, offset), |buf|)
    {
      hide Volume.Valid, Owned, Wrote, Grew, WithSize, Resized, HalfWrote, NoRoom, Paid, Folded, Limit, Reaches,
        AllZero, Rem;
      ghost var d0, f0 := vol.disk, vol.sFree;
      var ip := inodes[ino];
      PaidNone(vol.geo.bs, f0, ip);
      GrewSelf(vol.geo, vol.disk, inodes, ino);
      ghost var from := Folded(vol.geo.bs, offset);
      FoldedLess(vol.geo.bs, offset);
      WroteNothing(vol.geo, vol.disk, inodes, ino, from);
      ReachesNone(vol.geo.bs, from);
      assert inodes[ino := ip] == inodes && buf[..0] == [];
      var done := 0;
      while done < |buf|
        invariant 0 <= done <= |buf| && inodes == old(inodes) && Working(ino, ip) && Grew(inodes[ino], ip)
        invariant ip == inodes[ino].(ptr := ip.ptr, sectors := ip.sectors)
        invariant Paid(vol.geo.bs, f0, inodes[ino], vol.sFree, ip)
        invariant from + done < Limit(vol.geo.bs) && Reaches(vol.geo.bs, from, done)
        invariant Wrote(vol.geo, d0, inodes, vol.disk, inodes[ino := ip], ino, from, buf[..done])
      {
        GrewPtrs(inodes[ino], ip);
        ghost var f1 := vol.sFree;
        var b, ip1, done1 := WriteChunk(ino, ip, buf, offset, done, d0, inodes);
        GrewTrans(inodes[ino], ip, ip1);
        PaidTrans(vol.geo.bs, f0, inodes[ino], f1, ip, vol.sFree, ip1);
        if b == 0 {
          ShrinkOwned(vol.geo, vol.disk, inodes, ino, ip1);
          GaveUp(vol.geo, d0, vol.disk, inodes, ino, ip1, from, buf, done);
          return -ENOSPC, false;
        }
        ReachesMore(vol.geo.bs, from, done, done1 - done);
        ip, done := ip1, done1;
      }
      assert buf[..done] == buf;
      var end := Rem(offset + |buf|, DWORD);
      FinishWrite(vol.geo, d0, inodes, vol.disk, ino, ip, rev, from, buf, end);
      if end > FileSize(ip, rev) {
        PaidSize(vol.geo.bs, f0, inodes[ino], vol.sFree, ip, rev, end);
        ip := WithSize(ip, rev, end);
      }
      WroteIff(vol.geo, d0, inodes, vol.disk, inodes[ino := ip], ino, offset, buf);
      inodes := inodes[ino := ip];
      r, ok := Int32(|buf|), true;
    }

    /** Whatever the offset: a read of a range just written returns what was written, if the file's size fields can
        hold its end. */
    method ReadBack(ino: nat, buf: seq<Byte>, offset: nat) returns (out: seq<Byte>, ghost ok: bool)
      requires Valid() && ino in inodes && SizeOk(inodes[ino]) && offset < DWORD && |buf| < DWORD
      modifies vol, this`inodes
      ensures Valid() && vol.geo.bs > 0
      ensures !ok ==> Stuck(vol.geo, old(vol.disk), old(inodes), vol.disk, ino, Folded(vol.geo.bs, offset), |buf|)
      ensures ok && offset + |buf| < SizeMax(old(inodes)[ino].mode, rev) ==> out == buf
    {
      hide Volume.Valid, Owned, Wrote, Resized, HalfWrote, Paid, Folded, Limit, Reaches, AllZero, Rem, Stuck, FileByte,
        NothingShows;
      ghost var d0, t0 := vol.disk, inodes;
      var r;
      r, ok := Write(ino, buf, offset);
      ghost var d1, t1, from := vol.disk, inodes, Folded(vol.geo.bs, offset);
      if ok { WrotePointered(vol.geo, d0, t0, d1, t1, ino, from, buf); }
      r, out := Read(ino, offset, |buf|);
      if ok {
        ResizedIff(t0, t1, ino, rev, offset + |buf|);
        SmallRem(offset + |buf|, DWORD);
        forall i | 0 <= i < |out| && i < |buf| ensures out[i] == buf[i] {
          FoldedSum(vol.geo.bs, offset, i);
          WroteBytes(vol.geo, d0, t0, d1, t1, ino, from, buf, ino, from + i);
        }
      }
    }

    /** `ext4_read`: the bytes from `offset` on, at most `len`, up to the end of the file; holes read as zero.  Block
        numbers are cut to 32 bits here too: beyond 2^32 blocks low blocks show again, so the bytes are those of the
        file exactly if what shows there is zero. */
    method Read(ino: nat, offset: nat, len: nat) returns (r: int, out: seq<Byte>)
      requires Valid() && ino in inodes && offset < DWORD && len < DWORD
      modifies vol
      ensures Valid() && vol.disk == old(vol.disk) && vol.bgFree == old(vol.bgFree) && vol.sFree == old(vol.sFree)
      ensures r == Int32(|out|) && |out| == ReadLen(FileSize(inodes[ino], rev), offset, len)
      ensures Pointered(inodes) && vol.geo.bs > 0
      ensures forall i :: 0 <= i < |out| ==>
        out[i] == FileByte(vol.geo, vol.disk, inodes, ino, Folded(vol.geo.bs, offset + i))
      ensures (forall i :: 0 <= i < |out| ==> out[i] == FileByte(vol.geo, vol.disk, inodes, ino, offset + i)) <==>
        NothingShows(vol.geo, vol.disk, inodes, ino, offset, |out|)
    {
      hide Volume.Valid, Owned, SameBytes, NoneFree, Locate, MapBlock, Pos, Grew, Quot, Rem, ByteIn, Folded,
        NothingShows;
      var ip := inodes[ino];
      WorkingFacts(vol.geo, vol.disk, inodes, ino);
      OwnedPointered(vol.geo, vol.disk, inodes);
      assert inodes[ino := ip] == inodes;
      var size, n := FileSize(ip, rev), len;
      out := [];
      if offset < size {
        if Rem(offset + n, DWORD) > size { n := size - offset; }
        while |out| < n
          invariant |out| <= n && vol.Valid()
          invariant vol.disk == old(vol.disk) && vol.bgFree == old(vol.bgFree) && vol.sFree == old(vol.sFree)
          invariant forall i :: 0 <= i < |out| ==>
            out[i] == FileByte(vol.geo, vol.disk, inodes, ino, Folded(vol.geo.bs, offset + i))
        {
          var part := ReadChunk(ino, ip, offset + |out|, n - |out|);
          out := out + part;
        }
      }
      r := Int32(|out|);
      ShowsIff(vol.geo, vol.disk, inodes, ino, offset, out);
    }

    /** One round of the read loop: what is left of the block at `pos`, or of the request. */
    method ReadChunk(ino: nat, ip: Inode, pos: nat, left: nat) returns (part: seq<Byte>)
      requires Working(ino, ip) && inodes[ino := ip] == inodes && |ip.ptr| == NPTR && left > 0 && vol.geo.bs > 0
      modifies vol
      ensures Working(ino, ip) && vol.disk == old(vol.disk) && vol.bgFree == old(vol.bgFree)
      ensures vol.sFree == old(vol.sFree)
      ensures 0 < |part| <= left && Pointered(inodes)
      ensures forall i :: 0 <= i < |part| ==>
        part[i] == FileByte(vol.geo, vol.disk, inodes, ino, Folded(vol.geo.bs, pos + i))
    {
      hide Volume.Valid, Owned, SameBytes, NoneFree, Locate, MapBlock, Pos, Grew, Quot, Rem, ByteIn, Folded;
      OwnedPointered(vol.geo, vol.disk, inodes);
      var bs, at := vol.geo.bs, Rem(pos, DWORD);
      var fb, off := Rem(Quot(at, bs), WORD), Rem(at, bs);
      FoldedParts(bs, pos);
      PosOf(bs, Folded(bs, pos));
      var chunk := if bs - off > left then left else bs - off;
      var b, _ := Resolve(ino, ip, fb, false);
      MappedSize(vol.geo, vol.disk, inodes, ino, fb);
      if b == 0 {
        part := seq(chunk, _ => 0);
      } else {
        part := vol.disk[b][off..off + chunk];
      }
      forall i | 0 <= i < |part|
        ensures part[i] == FileByte(vol.geo, vol.disk, inodes, ino, Folded(vol.geo.bs, pos + i))
      {
        FoldedBlock(bs, pos, i);
        ChunkByte(vol.geo, vol.disk, inodes, ino, fb, off + i);
      }
    }
  }

  lemma MappedSize(geo: Geo, disk: Disk, inodes: Inodes, ino: nat, fb: nat)
    requires Owned(geo, disk, inodes) && ino in inodes
    ensures Pointered(inodes)
    ensures var b := MapBlock(geo.bs / 4, disk, inodes[ino], fb); b != 0 ==> b < |disk| && |disk[b]| == geo.bs
  {
    hide Owned, PtrAt, Locate, Used, IsBitmap;
    OwnedPointered(geo, disk, inodes);
    ByteAtSlot(geo, disk, inodes, ino, fb, 0);
    if MapBlock(geo.bs / 4, disk, inodes[ino], fb) != 0 {
      PtrAtSlot(geo, disk, inodes, ino, fb);
      NamedOwnable(geo, disk, inodes, Place(ino, Locate(geo.bs / 4, fb).slot));
    }
  }

  lemma SameBlock(bs: nat, pos: nat, i: nat)
    requires bs > 0 && Rem(pos, bs) + i < bs
    ensures Quot(pos + i, bs) == Quot(pos, bs) && Rem(pos + i, bs) == Rem(pos, bs) + i
  {
    QuotRem(pos, bs);
    DivMod(Quot(pos, bs), bs, Rem(pos, bs) + i);
  }

  lemma ChunkByte(geo: Geo, disk: Disk, inodes: Inodes, ino: nat, fb: nat, off: nat)
    requires Pointered(inodes) && ino in inodes && off < geo.bs
    requires var b := MapBlock(geo.bs / 4, disk, inodes[ino], fb); b != 0 ==> b < |disk| && |disk[b]| == geo.bs
    ensures var b := MapBlock(geo.bs / 4, disk, inodes[ino], fb);
      ByteIn(geo, disk, inodes, ino, fb, off) == if b == 0 then 0 else disk[b][off]
  {
  }

  /** What the size fields of a file can hold less than: 64 bits for regular files of revision 1 and later. */
  function SizeMax(mode: nat, rev: nat): nat { if 0x8000 <= mode % 0x1_0000 < 0x9000 && rev >= 1 then DWORD else WORD }

  /** The new size reads back exactly when it fits the size fields the file has. */
  lemma SizeRoundTrip(ip: Inode, rev: nat, size: nat)
    ensures FileSize(WithSize(ip, rev, size), rev) == size <==>
      size < SizeMax(ip.mode, rev)
  {
    RegModes(ip.mode);
    var q := size / 0x1_0000_0000;
    assert q % 0x1_0000_0000 == q <==> q < 0x1_0000_0000;
  }

  /** Only the size of `ino` may differ: it is raised to `end` if it was smaller. */
  ghost predicate Resized(inodes: Inodes, inodes': Inodes, ino: nat, rev: nat, end: nat) {
    inodes'.Keys == inodes.Keys && forall n {:trigger inodes'[n]} :: n in inodes ==>
      && (n != ino ==> inodes'[n] == inodes[n]) && inodes'[n].mode == inodes[n].mode
      && (n == ino && end <= FileSize(inodes[n], rev) ==> FileSize(inodes'[n], rev) == FileSize(inodes[n], rev))
      && (n == ino && end > FileSize(inodes[n], rev) ==>
        FileSize(inodes'[n], rev) == FileSize(WithSize(inodes[n], rev, end), rev))
  }

  /** The file ends where the write does, or where it did, exactly if that fits the size fields of the file. */
  lemma ResizedIff(t: Inodes, t': Inodes, ino: nat, rev: nat, end: nat)
    requires ino in t && SizeOk(t[ino]) && Resized(t, t', ino, rev, Rem(end, DWORD))
    ensures var size := FileSize(t[ino], rev);
      FileSize(t'[ino], rev) == (if end > size then end else size) <==>
      end < SizeMax(t[ino].mode, rev)
  {
    SizeRoundTrip(t[ino], rev, Rem(end, DWORD));
    assert t'[ino].mode == t[ino].mode;
    WithSizeFits(t[ino], rev, Rem(end, DWORD));
  }

  lemma WithSizeFits(ip: Inode, rev: nat, size: nat)
    ensures FileSize(WithSize(ip, rev, size), rev) < SizeMax(ip.mode, rev)
  {
    RegModes(ip.mode);
    hide IsReg;
    var lo, hi := size % 0x1_0000_0000, size / 0x1_0000_0000 % 0x1_0000_0000;
    assert lo + 0x1_0000_0000 * hi < DWORD;
  }

  lemma FinishWrite(geo: Geo, d0: Disk, t0: Inodes, disk: Disk, ino: nat, ip: Inode, rev: nat, from: nat,
      buf: seq<Byte>, end: nat)
    requires ino in t0 && Owned(geo, disk, t0[ino := ip]) && Wrote(geo, d0, t0, disk, t0[ino := ip], ino, from, buf)
    requires ip == t0[ino].(ptr := ip.ptr, sectors := ip.sectors) && SizeOk(t0[ino])
    ensures var ip' := if end > FileSize(ip, rev) then WithSize(ip, rev, end) else ip;
      && Owned(geo, disk, t0[ino := ip']) && Wrote(geo, d0, t0, disk, t0[ino := ip'], ino, from, buf)
      && Resized(t0, t0[ino := ip'], ino, rev, end)
  {
    hide Owned, Wrote;
    var ip' := if end > FileSize(ip, rev) then WithSize(ip, rev, end) else ip;
    var t1 := t0[ino := ip];
    assert t0[ino := ip'] == t1[ino := ip'];
    SamePointers(geo, disk, t1, t0[ino := ip']);
    WroteSame(geo, d0, t0, disk, t1, disk, t0[ino := ip'], ino, from, buf);
  }

  lemma GrewPtrs(a: Inode, b: Inode)
    requires Grew(a, b)
    ensures |b.ptr| == NPTR
  {
  }

  lemma GrewSelf(geo: Geo, disk: Disk, inodes: Inodes, ino: nat)
    requires Owned(geo, disk, inodes) && ino in inodes
    ensures Grew(inodes[ino], inodes[ino]) && |inodes[ino].ptr| == NPTR && geo.bs > 0 && geo.bs in {1024, 2048, 4096}
  {
  }

  lemma GrewTrans(a: Inode, b: Inode, c: Inode)
    requires Grew(a, b) && Grew(b, c)
    ensures Grew(a, c)
  {
    forall k | 0 <= k < NPTR && a.ptr[k] != 0 ensures c.ptr[k] == a.ptr[k] { assert b.ptr[k] == a.ptr[k]; }
  }

  lemma WorkingFacts(geo: Geo, disk: Disk, inodes: Inodes, ino: nat)
    requires Owned(geo, disk, inodes) && ino in inodes
    ensures |inodes[ino].ptr| == NPTR && geo.bs > 0 && geo.bs in {1024, 2048, 4096}
  {
  }

  lemma WroteNothing(geo: Geo, disk: Disk, inodes: Inodes, ino: nat, from: nat)
    requires Owned(geo, disk, inodes)
    ensures Wrote(geo, disk, inodes, disk, inodes, ino, from, [])
  {
  }

  lemma PosOf(bs: nat, pos: nat)
    requires bs > 0
    ensures Pos(bs, Quot(pos, bs), Rem(pos, bs)) == pos && Rem(pos, bs) < bs
  {
    QuotRem(pos, bs);
  }

  lemma MappedLocated(geo: Geo, disk: Disk, ip: Inode, fb: nat)
    requires |ip.ptr| == NPTR && MapBlock(geo.bs / 4, disk, ip, fb) != 0
    ensures Locate(geo.bs / 4, fb).At?
  {
  }

  /** Leaving out pointers of one inode keeps ownership: a write that fails leaves the stored inode behind. */
  lemma ShrinkOwned(geo: Geo, disk: Disk, inodes: Inodes, ino: nat, ip: Inode)
    requires ino in inodes && Owned(geo, disk, inodes[ino := ip]) && Pointered(inodes) && Grew(inodes[ino], ip)
    ensures Owned(geo, disk, inodes)
  {
    hide Ownable, Formatted, Entry;
    var t := inodes[ino := ip];
    forall j: nat ensures Entry(disk, 0, j) == 0 { NoEntry(disk, j); }
    forall p | PlaceOk(geo.bs / 4, inodes, p) ensures PtrAt(disk, inodes, p) == 0 ||
      PtrAt(disk, inodes, p) == PtrAt(disk, t, p) {
    }
    forall p, q | PlaceOk(geo.bs / 4, inodes, p) && PlaceOk(geo.bs / 4, inodes, q) ensures !Clash(disk, inodes, p, q) {
      assert !Clash(disk, t, p, q);
    }
  }

  lemma NoEntry(disk: Disk, i: nat)
    ensures Entry(disk, 0, i) == 0
  {
  }

  lemma HolderPlain(geo: Geo, disk: Disk, inodes: Inodes, disk1: Disk, p: Place, nr: nat)
    requires Owned(geo, disk, inodes) && Allocated(geo, disk, disk1, nr)
    requires PlaceOk(geo.bs / 4, inodes, p) && Indexed(p.slot) && PtrAt(disk, inodes, Above(p)) != 0
    ensures var ib := PtrAt(disk, inodes, Above(p)); ib < |disk1| && !IsBitmap(geo, ib) && |disk1[ib]| == geo.bs
  {
    hide Owned, IsBitmap, Used, PtrAt;
    AboveOk(geo, inodes, p);
    NamedOwnable(geo, disk, inodes, Above(p));
  }

  // ---------------------------------------------------------------- storing bytes in a mapped block

  /** Writing a data block moves no pointer: no index block is a data block. */
  lemma DataKeepsPtrs(geo: Geo, disk: Disk, inodes: Inodes, p: Place, blk: Block, q: Place)
    requires Owned(geo, disk, inodes) && PlaceOk(geo.bs / 4, inodes, p) && DataSlot(p.slot)
    requires PtrAt(disk, inodes, p) != 0
    requires PtrAt(disk, inodes, p) < |disk| && PlaceOk(geo.bs / 4, inodes, q)
    ensures PtrAt(disk[PtrAt(disk, inodes, p) := blk], inodes, q) == PtrAt(disk, inodes, q)
  {
    hide Owned, ReadPtr;
    OwnedPointered(geo, disk, inodes);
    if Indexed(q.slot) {
      AboveOk(geo, inodes, q);
      NoClash(geo, disk, inodes, p, Above(q));
      if q.slot.Leaf? { AboveOk(geo, inodes, Above(q)); NoClash(geo, disk, inodes, p, Above(Above(q))); }
    }
  }

  lemma StoreOwned(geo: Geo, disk: Disk, inodes: Inodes, p: Place, blk: Block)
    requires Owned(geo, disk, inodes) && PlaceOk(geo.bs / 4, inodes, p) && DataSlot(p.slot)
    requires PtrAt(disk, inodes, p) != 0
    requires PtrAt(disk, inodes, p) < |disk| && |blk| == geo.bs
    ensures Owned(geo, disk[PtrAt(disk, inodes, p) := blk], inodes)
  {
    hide Ownable, Formatted, PtrAt;
    var b := PtrAt(disk, inodes, p);
    var disk' := disk[b := blk];
    NamedOwnable(geo, disk, inodes, p);
    WriteOwnable(geo, disk, b, blk);
    forall q | PlaceOk(geo.bs / 4, inodes, q) ensures PtrAt(disk', inodes, q) == PtrAt(disk, inodes, q) {
      DataKeepsPtrs(geo, disk, inodes, p, blk, q);
    }
    forall q, r | PlaceOk(geo.bs / 4, inodes, q) && PlaceOk(geo.bs / 4, inodes, r) ensures !Clash(disk', inodes, q, r) {
      assert !Clash(disk, inodes, q, r);
    }
  }

  /** A chunk stored in the block of (ino, fb) changes exactly those bytes of that file. */
  lemma StoreBytes(geo: Geo, disk: Disk, inodes: Inodes, ino: nat, fb: nat, blk: Block, n: nat, fb': nat, off': nat)
    requires Owned(geo, disk, inodes) && ino in inodes && Locate(geo.bs / 4, fb).At?
    requires var b := MapBlock(geo.bs / 4, disk, inodes[ino], fb); 0 < b < |disk|
    requires |blk| == geo.bs && off' < geo.bs
    ensures var b := MapBlock(geo.bs / 4, disk, inodes[ino], fb);
      ByteIn(geo, disk[b := blk], inodes, n, fb', off') == if n == ino && fb' == fb then blk[off']
        else ByteIn(geo, disk, inodes, n, fb', off')
  {
    hide Owned, PtrAt, Locate, BlockByte;
    OwnedPointered(geo, disk, inodes);
    var p := Place(ino, Locate(geo.bs / 4, fb).slot);
    ByteAtSlot(geo, disk, inodes, ino, fb, off');
    var b := PtrAt(disk, inodes, p);
    assert b == MapBlock(geo.bs / 4, disk, inodes[ino], fb) by { PtrAtSlot(geo, disk, inodes, ino, fb); }
    hide MapBlock, ByteIn;
    ByteAtSlot(geo, disk, inodes, n, fb', off');
    ByteAtSlot(geo, disk[b := blk], inodes, n, fb', off');
    if n in inodes && Locate(geo.bs / 4, fb').At? {
      var q := Place(n, Locate(geo.bs / 4, fb').slot);
      DataKeepsPtrs(geo, disk, inodes, p, blk, q);
      NoClash(geo, disk, inodes, p, q);
      BlockByteWritten(disk, b, blk, PtrAt(disk, inodes, q), off');
      if n == ino && fb' != fb && q == p { LocateInjective(geo.bs / 4, fb, fb'); }
    }
  }

  lemma PtrAtSlot(geo: Geo, disk: Disk, inodes: Inodes, ino: nat, fb: nat)
    requires Pointered(inodes) && ino in inodes && Locate(geo.bs / 4, fb).At?
    ensures PtrAt(disk, inodes, Place(ino, Locate(geo.bs / 4, fb).slot)) == MapBlock(geo.bs / 4, disk, inodes[ino], fb)
  {
  }

  lemma BlockByteWritten(disk: Disk, b: nat, blk: Block, c: nat, off: nat)
    requires 0 < b < |disk| && off < |blk|
    ensures BlockByte(disk[b := blk], c, off) == if c == b then blk[off] else BlockByte(disk, c, off)
  {
  }

  // ---------------------------------------------------------------- byte positions

  function Pos(bs: nat, fb: nat, off: nat): nat { fb * bs + off }

  /** Byte `pos` of a file. */
  ghost function FileByte(geo: Geo, disk: Disk, inodes: Inodes, ino: nat, pos: nat): Byte
    requires Pointered(inodes) && geo.bs > 0
  {
    ByteIn(geo, disk, inodes, ino, Quot(pos, geo.bs), Rem(pos, geo.bs))
  }

  /** The first byte that a 32-bit block number cannot express. */
  function Limit(bs: nat): nat { WORD * bs }

  /** Where byte `pos` ends up when its block number is cut to 32 bits. */
  function Folded(bs: nat, pos: nat): nat
    requires bs > 0
  {
    Rem(pos, Limit(bs))
  }

  lemma FoldedLess(bs: nat, pos: nat)
    requires bs > 0
    ensures Folded(bs, pos) < Limit(bs) && (Folded(bs, pos) == pos <==> pos < Limit(bs))
  {
    QuotRem(pos, Limit(bs));
    SmallRem(pos, Limit(bs));
  }

  /** Block number and offset, taken apart in 64 bits and then cut to 32, are those of the folded position. */
  lemma FoldedParts(bs: nat, pos: nat)
    requires bs in {1024, 2048, 4096}
    ensures Rem(Quot(Rem(pos, DWORD), bs), WORD) == Quot(Folded(bs, pos), bs)
    ensures Rem(Rem(pos, DWORD), bs) == Rem(Folded(bs, pos), bs)
  {
    hide Quot, Rem;
    NestedRem(pos, DWORD, Limit(bs));
    CutParts(bs, Rem(pos, DWORD));
  }

  lemma CutParts(bs: nat, pos: nat)
    requires bs > 0
    ensures Rem(Quot(pos, bs), WORD) == Quot(Folded(bs, pos), bs) && Rem(pos, bs) == Rem(Folded(bs, pos), bs)
  {
    hide Quot, Rem;
    var q, r := Quot(pos, bs), Rem(pos, bs);
    var k, f := Quot(q, WORD), Rem(q, WORD);
    QuotRem(pos, bs);
    QuotRem(q, WORD);
    MulMono(f + 1, WORD, bs);
    PosParts(bs, f, r);
    assert pos == k * Limit(bs) + Pos(bs, f, r) by { Gather(k, f, bs, r); }
    RemIs(k, Limit(bs), Pos(bs, f, r));
  }

  lemma Gather(k: nat, f: nat, bs: nat, r: nat)
    ensures bs * (WORD * k + f) + r == k * Limit(bs) + Pos(bs, f, r)
  {
  }

  lemma RemIs(q: nat, n: nat, r: nat)
    requires r < n
    ensures Rem(q * n + r, n) == r
  {
    DivMod(q, n, r);
  }

  /** Below the limit, going on by `i` bytes goes on by `i` bytes in the file. */
  lemma FoldedSum(bs: nat, pos: nat, i: nat)
    requires bs > 0 && Folded(bs, pos) + i < Limit(bs)
    ensures Folded(bs, pos + i) == Folded(bs, pos) + i
  {
    QuotRem(pos, Limit(bs));
    RemIs(Quot(pos, Limit(bs)), Limit(bs), Folded(bs, pos) + i);
  }

  lemma FoldedAt(bs: nat, offset: nat, done: nat)
    requires bs in {1024, 2048, 4096} && Folded(bs, offset) + done < Limit(bs)
    ensures var pos, at := Rem(offset + done, DWORD), Folded(bs, offset) + done;
      Rem(Quot(pos, bs), WORD) == Quot(at, bs) && Rem(pos, bs) == Rem(at, bs)
  {
    FoldedSum(bs, offset, done);
    FoldedParts(bs, offset + done);
  }

  lemma FoldedBlock(bs: nat, pos: nat, i: nat)
    requires bs > 0 && Rem(Folded(bs, pos), bs) + i < bs
    ensures var at := Folded(bs, pos + i);
      Quot(at, bs) == Quot(Folded(bs, pos), bs) && Rem(at, bs) == Rem(Folded(bs, pos), bs) + i
  {
    hide Quot, Rem, Folded, Limit, Pos;
    var at := Folded(bs, pos);
    FoldedLess(bs, pos);
    PosOf(bs, at);
    SameBlock(bs, at, i);
    PosOf(bs, at + i);
    StillBelow(bs, Quot(at, bs), Rem(at, bs), i);
    FoldedSum(bs, pos, i);
  }

  /** The limit is a whole number of blocks. */
  lemma StillBelow(bs: nat, q: nat, r: nat, i: nat)
    requires r + i < bs && Pos(bs, q, r) < Limit(bs)
    ensures Pos(bs, q, r) + i < Limit(bs)
  {
    if q < WORD { MulMono(q + 1, WORD, bs); } else { MulMono(WORD, q, bs); }
  }

  /** Pointers end long before 2^32 blocks. */
  lemma LocatedBelow(bs: nat, fb: nat)
    requires bs in {1024, 2048, 4096} && Locate(bs / 4, fb).At?
    ensures fb + 1 < WORD
  {
  }

  lemma BeyondZero(geo: Geo, disk: Disk, inodes: Inodes, ino: nat, pos: nat)
    requires geo.bs in {1024, 2048, 4096} && Pointered(inodes) && pos >= Limit(geo.bs)
    ensures FileByte(geo, disk, inodes, ino, pos) == 0
  {
    hide Locate, Quot, Rem;
    QuotMono(Limit(geo.bs), pos, geo.bs);
    PosParts(geo.bs, WORD, 0);
    assert Pos(geo.bs, WORD, 0) == Limit(geo.bs);
    ByteAtSlot(geo, disk, inodes, ino, Quot(pos, geo.bs), Rem(pos, geo.bs));
    if Locate(geo.bs / 4, Quot(pos, geo.bs)).At? { LocatedBelow(geo.bs, Quot(pos, geo.bs)); }
  }

  lemma PosParts(bs: nat, fb: nat, off: nat)
    requires off < bs
    ensures Quot(Pos(bs, fb, off), bs) == fb && Rem(Pos(bs, fb, off), bs) == off
  {
    DivMod(fb, bs, off);
  }

  lemma PosApart(bs: nat, fb: nat, fb': nat)
    ensures fb < fb' ==> Pos(bs, fb, 0) + bs <= Pos(bs, fb', 0)
    ensures fb' < fb ==> Pos(bs, fb', 0) + bs <= Pos(bs, fb, 0)
  {
    if fb' < fb { MulMono(fb' + 1, fb, bs); }
    if fb' > fb { MulMono(fb + 1, fb', bs); }
  }

  /** A chunk inside one block covers exactly the positions with that block number and those offsets. */
  lemma ChunkRange(bs: nat, fb: nat, off: nat, chunk: nat, fb': nat, off': nat)
    requires off' < bs && off + chunk <= bs
    ensures Pos(bs, fb, off) <= Pos(bs, fb', off') < Pos(bs, fb, off) + chunk <==>
      fb' == fb && off <= off' < off + chunk
  {
    hide Pos;
    PosDiff(bs, fb, 0, off);
    PosDiff(bs, fb', 0, off');
    PosApart(bs, fb, fb');
  }

  /** The bytes of `ino` from `from` on are those of `src`; all other bytes of all files are as they were, and no block
      has moved. */
  ghost predicate Wrote(geo: Geo, disk: Disk, inodes: Inodes, disk': Disk, inodes': Inodes, ino: nat, from: nat,
      src: seq<Byte>) {
    && Pointered(inodes) && Pointered(inodes') && inodes'.Keys == inodes.Keys
    && Steady(geo.bs / 4, disk, inodes, disk', inodes')
    && forall n: nat, fb: nat, off: nat {:trigger ByteIn(geo, disk', inodes', n, fb, off)} :: off < geo.bs ==>
         ByteIn(geo, disk', inodes', n, fb, off) ==
         if n == ino && from <= Pos(geo.bs, fb, off) < from + |src| then src[Pos(geo.bs, fb, off) - from]
           else ByteIn(geo, disk, inodes, n, fb, off)
  }

  /** No pointer of an inode reaches byte `pos`. */
  predicate Unmappable(bs: nat, pos: nat) { bs > 0 && Locate(bs / 4, Quot(pos, bs)).Nowhere? }

  /** Pointers reach all `n` bytes from `from` on. */
  ghost predicate Reaches(bs: nat, from: nat, n: nat) {
    forall pos: nat {:trigger Unmappable(bs, pos)} :: from <= pos < from + n ==> !Unmappable(bs, pos)
  }

  /** Byte `pos` of `ino` has no block and cannot get one: no pointer reaches it or no block is free. */
  ghost predicate NoRoom(geo: Geo, d0: Disk, t0: Inodes, d: Disk, ino: nat, pos: nat) {
    && geo.bs > 0 && Pointered(t0) && ino in t0
    && (Unmappable(geo.bs, pos) ||
      (NoneFree(geo, d) && MapBlock(geo.bs / 4, d0, t0[ino], Quot(pos, geo.bs)) == 0))
  }

  /** Every byte of `ino` in the range is what it was or what `src` says; all other bytes of all files are as they
      were. */
  ghost predicate HalfWrote(geo: Geo, d0: Disk, d: Disk, inodes: Inodes, ino: nat, from: nat, src: seq<Byte>) {
    && Pointered(inodes) && Steady(geo.bs / 4, d0, inodes, d, inodes)
    && forall n: nat, fb: nat, off: nat {:trigger ByteIn(geo, d, inodes, n, fb, off)} :: off < geo.bs ==>
         || ByteIn(geo, d, inodes, n, fb, off) == ByteIn(geo, d0, inodes, n, fb, off)
         || (n == ino && from <= Pos(geo.bs, fb, off) < from + |src| &&
           ByteIn(geo, d, inodes, n, fb, off) == src[Pos(geo.bs, fb, off) - from])
  }

  /** Some of the `n` bytes from `from` on has no room. */
  ghost predicate Stuck(geo: Geo, d0: Disk, t0: Inodes, d: Disk, ino: nat, from: nat, n: nat) {
    exists pos: nat :: from <= pos < from + n && NoRoom(geo, d0, t0, d, ino, pos)
  }

  lemma ReachesNone(bs: nat, from: nat)
    ensures Reaches(bs, from, 0)
  {
  }

  lemma ReachesMore(bs: nat, from: nat, n: nat, m: nat)
    requires Reaches(bs, from, n) && Reaches(bs, from + n, m)
    ensures Reaches(bs, from, n + m)
  {
    hide Unmappable;
  }

  lemma LocatedReaches(bs: nat, fb: nat, off: nat, chunk: nat)
    requires bs in {1024, 2048, 4096} && Locate(bs / 4, fb).At? && off < bs && off + chunk <= bs
    ensures Reaches(bs, Pos(bs, fb, off), chunk) && Pos(bs, fb, off) + chunk < Limit(bs)
  {
    hide Locate, Pos, Quot, Rem;
    LocatedBelow(bs, fb);
    forall pos: nat | Pos(bs, fb, off) <= pos < Pos(bs, fb, off) + chunk ensures !Unmappable(bs, pos) {
      PosOf(bs, pos);
      ChunkRange(bs, fb, off, chunk, Quot(pos, bs), Rem(pos, bs));
    }
    BlockBelow(bs, fb, off + chunk);
    PosDiff(bs, fb, off, off + chunk);
  }

  lemma BlockBelow(bs: nat, fb: nat, off: nat)
    requires fb + 1 < WORD && off <= bs && bs > 0
    ensures Pos(bs, fb, off) < Limit(bs)
  {
    MulMono(fb + 2, WORD, bs);
  }

  /** A round that finds no block: nothing was mapped there at the start either. */
  lemma RanOut(geo: Geo, d0: Disk, t0: Inodes, d1: Disk, d: Disk, t: Inodes, ino: nat, from: nat, src: seq<Byte>)
    requires Wrote(geo, d0, t0, d1, t, ino, from, src) && ino in t && geo.bs > 0
    requires var fb := Quot(from + |src|, geo.bs);
      MapBlock(geo.bs / 4, d1, t[ino], fb) == 0 && (Locate(geo.bs / 4, fb).Nowhere? || NoneFree(geo, d))
    ensures NoRoom(geo, d0, t0, d, ino, from + |src|)
  {
    hide Quot, NoneFree, PtrAt, MapBlock, Locate;
    var fb := Quot(from + |src|, geo.bs);
    if Locate(geo.bs / 4, fb).At? {
      LocateOk(geo.bs / 4, fb);
      PtrAtSlot(geo, d0, t0, ino, fb);
      PtrAtSlot(geo, d1, t, ino, fb);
      assert PtrAt(d1, t, Place(ino, Locate(geo.bs / 4, fb).slot)) == 0;
    }
  }

  /** What is stored and what was there before are both zero. */
  ghost predicate AllZero(geo: Geo, disk: Disk, inodes: Inodes, ino: nat, from: nat, src: seq<Byte>) {
    && Pointered(inodes) && geo.bs > 0 && (forall i :: 0 <= i < |src| ==> src[i] == 0)
    && forall pos: nat :: from <= pos < from + |src| ==> FileByte(geo, disk, inodes, ino, pos) == 0
  }

  /** What a write past 2^32 blocks stores lands in a low block: it is a write at `offset` only if all is zero. */
  lemma WroteIff(geo: Geo, d0: Disk, t0: Inodes, d: Disk, t: Inodes, ino: nat, offset: nat, src: seq<Byte>)
    requires geo.bs in {1024, 2048, 4096} && Folded(geo.bs, offset) + |src| <= Limit(geo.bs)
    requires Wrote(geo, d0, t0, d, t, ino, Folded(geo.bs, offset), src)
    ensures Wrote(geo, d0, t0, d, t, ino, offset, src) <==>
      offset < Limit(geo.bs) || AllZero(geo, d0, t0, ino, Folded(geo.bs, offset), src)
  {
    hide Wrote, AllZero, Folded, Limit;
    FoldedLess(geo.bs, offset);
    if offset >= Limit(geo.bs) {
      if Wrote(geo, d0, t0, d, t, ino, offset, src) { FarIsZero(geo, d0, t0, d, t, ino, offset, src); }
      if AllZero(geo, d0, t0, ino, Folded(geo.bs, offset), src) { ZeroIsFar(geo, d0, t0, d, t, ino, offset, src); }
    }
  }

  lemma FarIsZero(geo: Geo, d0: Disk, t0: Inodes, d: Disk, t: Inodes, ino: nat, offset: nat, src: seq<Byte>)
    requires geo.bs in {1024, 2048, 4096} && Folded(geo.bs, offset) + |src| <= Limit(geo.bs) <= offset
    requires Wrote(geo, d0, t0, d, t, ino, Folded(geo.bs, offset), src) && Wrote(geo, d0, t0, d, t, ino, offset, src)
    ensures AllZero(geo, d0, t0, ino, Folded(geo.bs, offset), src)
  {
    hide Wrote, FileByte, Folded, Limit;
    var from := Folded(geo.bs, offset);
    WrotePointered(geo, d0, t0, d, t, ino, offset, src);
    forall i | 0 <= i < |src| ensures src[i] == 0 {
      BeyondZero(geo, d, t, ino, offset + i);
      WroteBytes(geo, d0, t0, d, t, ino, offset, src, ino, offset + i);
    }
    forall pos: nat | from <= pos < from + |src| ensures FileByte(geo, d0, t0, ino, pos) == 0 {
      WroteBytes(geo, d0, t0, d, t, ino, offset, src, ino, pos);
      WroteBytes(geo, d0, t0, d, t, ino, from, src, ino, pos);
    }
  }

  lemma WrotePointered(geo: Geo, d0: Disk, t0: Inodes, d: Disk, t: Inodes, ino: nat, from: nat, src: seq<Byte>)
    requires Wrote(geo, d0, t0, d, t, ino, from, src)
    ensures Pointered(t0) && Pointered(t) && t.Keys == t0.Keys
  {
  }

  lemma ZeroIsFar(geo: Geo, d0: Disk, t0: Inodes, d: Disk, t: Inodes, ino: nat, offset: nat, src: seq<Byte>)
    requires geo.bs in {1024, 2048, 4096} && Folded(geo.bs, offset) + |src| <= Limit(geo.bs) <= offset
    requires Wrote(geo, d0, t0, d, t, ino, Folded(geo.bs, offset), src)
    requires AllZero(geo, d0, t0, ino, Folded(geo.bs, offset), src)
    ensures Wrote(geo, d0, t0, d, t, ino, offset, src)
  {
    hide ByteIn, Pos, Folded, Limit, Steady;
    var from := Folded(geo.bs, offset);
    forall n: nat, fb: nat, off: nat | off < geo.bs
      ensures ByteIn(geo, d, t, n, fb, off) ==
         if n == ino && offset <= Pos(geo.bs, fb, off) < offset + |src| then src[Pos(geo.bs, fb, off) - offset]
           else ByteIn(geo, d0, t0, n, fb, off)
    {
      var pos := Pos(geo.bs, fb, off);
      PosParts(geo.bs, fb, off);
      if n == ino && from <= pos < from + |src| { assert FileByte(geo, d0, t0, ino, pos) == 0; }
      if n == ino && pos >= offset { BeyondZero(geo, d, t, ino, pos); }
    }
  }

  /** Beyond 2^32 blocks low blocks show again; where they do, they are zero. */
  ghost predicate NothingShows(geo: Geo, disk: Disk, inodes: Inodes, ino: nat, offset: nat, n: nat)
    requires Pointered(inodes) && geo.bs > 0
  {
    forall pos: nat {:trigger Folded(geo.bs, pos)} :: Limit(geo.bs) <= pos && offset <= pos < offset + n ==>
      FileByte(geo, disk, inodes, ino, Folded(geo.bs, pos)) == 0
  }

  lemma ShowsIff(geo: Geo, disk: Disk, inodes: Inodes, ino: nat, offset: nat, out: seq<Byte>)
    requires geo.bs in {1024, 2048, 4096} && Pointered(inodes)
    requires forall i :: 0 <= i < |out| ==> out[i] == FileByte(geo, disk, inodes, ino, Folded(geo.bs, offset + i))
    ensures (forall i :: 0 <= i < |out| ==> out[i] == FileByte(geo, disk, inodes, ino, offset + i)) <==>
      NothingShows(geo, disk, inodes, ino, offset, |out|)
  {
    hide FileByte, Folded, Limit;
    forall i | 0 <= i < |out|
      ensures out[i] == FileByte(geo, disk, inodes, ino, offset + i) <==>
        offset + i < Limit(geo.bs) || FileByte(geo, disk, inodes, ino, Folded(geo.bs, offset + i)) == 0
    {
      FoldedLess(geo.bs, offset + i);
      if offset + i >= Limit(geo.bs) { BeyondZero(geo, disk, inodes, ino, offset + i); }
    }
    if forall i :: 0 <= i < |out| ==> out[i] == FileByte(geo, disk, inodes, ino, offset + i) {
      forall pos: nat | Limit(geo.bs) <= pos && offset <= pos < offset + |out|
        ensures FileByte(geo, disk, inodes, ino, Folded(geo.bs, pos)) == 0
      {
        assert out[pos - offset] == FileByte(geo, disk, inodes, ino, offset + (pos - offset));
      }
    }
  }

  /** How many bytes a read returns, computed in 64 bits. */
  function ReadLen(size: nat, offset: nat, len: nat): nat {
    if offset >= size then 0 else if Rem(offset + len, DWORD) > size then size - offset else len
  }

  /** That is what is asked for, up to the end of the file, exactly if the end of the range fits 64 bits. */
  lemma ReadLenIff(size: nat, offset: nat, len: nat)
    requires size < DWORD && offset < DWORD && len < DWORD
    ensures ReadLen(size, offset, len) == (if offset < size then Min(len, size - offset) else 0) <==>
      offset >= size || offset + len < DWORD
  {
  }

  /** The stored inode maps a block as the one in memory does, or through a pointer it did not have before either. */
  lemma MappedBefore(apb: nat, d0: Disk, d: Disk, ip: Inode, ip': Inode, fb: nat)
    requires Grew(ip, ip')
    ensures MapBlock(apb, d, ip, fb) == MapBlock(apb, d, ip', fb) ||
      MapBlock(apb, d, ip, fb) == MapBlock(apb, d0, ip, fb) == 0
  {
    hide Entry, Quot, Rem;
    forall j: nat ensures Entry(d, 0, j) == Entry(d0, 0, j) == 0 { NoEntry(d, j); NoEntry(d0, j); }
    assert ip.ptr[IND] != 0 ==> ip'.ptr[IND] == ip.ptr[IND];
    assert ip.ptr[DIND] != 0 ==> ip'.ptr[DIND] == ip.ptr[DIND];
  }

  lemma SteadyShrunk(apb: nat, d0: Disk, d: Disk, inodes: Inodes, ino: nat, ip: Inode)
    requires ino in inodes && Pointered(inodes) && Grew(inodes[ino], ip)
    requires Steady(apb, d0, inodes, d, inodes[ino := ip])
    ensures Steady(apb, d0, inodes, d, inodes)
  {
    hide Entry;
    var t := inodes[ino := ip];
    forall j: nat ensures Entry(d0, 0, j) == 0 { NoEntry(d0, j); }
    forall p | PlaceOk(apb, inodes, p) && PtrAt(d0, inodes, p) != 0
      ensures PtrAt(d, inodes, p) == PtrAt(d0, inodes, p)
    {
      assert PtrAt(d, t, p) == PtrAt(d0, inodes, p);
    }
  }

  /** A write that runs out of space leaves the stored inode as it was and at most some of its bytes behind. */
  lemma GaveUp(geo: Geo, d0: Disk, d: Disk, inodes: Inodes, ino: nat, ip: Inode, from: nat, src: seq<Byte>, done: nat)
    requires ino in inodes && done <= |src| && Wrote(geo, d0, inodes, d, inodes[ino := ip], ino, from, src[..done])
    requires Grew(inodes[ino], ip)
    ensures HalfWrote(geo, d0, d, inodes, ino, from, src)
  {
    hide MapBlock, BlockByte, Grew, Pos, Steady;
    var t := inodes[ino := ip];
    SteadyShrunk(geo.bs / 4, d0, d, inodes, ino, ip);
    forall n: nat, fb: nat, off: nat | off < geo.bs
      ensures || ByteIn(geo, d, inodes, n, fb, off) == ByteIn(geo, d0, inodes, n, fb, off)
              || (n == ino && from <= Pos(geo.bs, fb, off) < from + |src| &&
                ByteIn(geo, d, inodes, n, fb, off) == src[Pos(geo.bs, fb, off) - from])
    {
      MappedBefore(geo.bs / 4, d0, d, inodes[ino], ip, fb);
      NoByte(d, d0, off);
      assert n == ino ==>
        ByteIn(geo, d, inodes, n, fb, off) == ByteIn(geo, d, t, n, fb, off) ||
        ByteIn(geo, d, inodes, n, fb, off) == ByteIn(geo, d0, inodes, n, fb, off);
      assert n != ino ==> ByteIn(geo, d, inodes, n, fb, off) == ByteIn(geo, d, t, n, fb, off);
    }
  }

  /** An allocation that is given up changes no byte of any file. */
  lemma NothingLost(geo: Geo, d0: Disk, d: Disk, inodes: Inodes, ino: nat, ip: Inode)
    requires ino in inodes && SameBytes(geo, d0, inodes, d, inodes[ino := ip]) && Grew(inodes[ino], ip)
    ensures SameBytes(geo, d0, inodes, d, inodes)
  {
    hide MapBlock, BlockByte, Grew, Steady;
    var t := inodes[ino := ip];
    SteadyShrunk(geo.bs / 4, d0, d, inodes, ino, ip);
    forall n: nat, fb: nat, off: nat ensures ByteIn(geo, d, inodes, n, fb, off) == ByteIn(geo, d0, inodes, n, fb, off) {
      MappedBefore(geo.bs / 4, d0, d, inodes[ino], ip, fb);
      NoByte(d, d0, off);
      assert ByteIn(geo, d, t, n, fb, off) == ByteIn(geo, d0, inodes, n, fb, off);
    }
  }

  lemma NoByte(d: Disk, d0: Disk, off: nat)
    ensures BlockByte(d, 0, off) == BlockByte(d0, 0, off)
  {
  }

  /** In terms of byte positions. */
  lemma WroteBytes(geo: Geo, disk: Disk, inodes: Inodes, disk': Disk, inodes': Inodes, ino: nat, from: nat,
      src: seq<Byte>, n: nat, pos: nat)
    requires Wrote(geo, disk, inodes, disk', inodes', ino, from, src) && geo.bs > 0
    ensures FileByte(geo, disk', inodes', n, pos) ==
      if n == ino && from <= pos < from + |src| then src[pos - from] else FileByte(geo, disk, inodes, n, pos)
  {
    hide ByteIn, Quot, Rem;
    QuotRem(pos, geo.bs);
    assert Pos(geo.bs, Quot(pos, geo.bs), Rem(pos, geo.bs)) == pos;
  }

  lemma WroteSame(geo: Geo, d0: Disk, i0: Inodes, d1: Disk, i1: Inodes, d2: Disk, i2: Inodes, ino: nat, from: nat,
      src: seq<Byte>)
    requires Wrote(geo, d0, i0, d1, i1, ino, from, src) && SameBytes(geo, d1, i1, d2, i2)
    ensures Wrote(geo, d0, i0, d2, i2, ino, from, src)
  {
    hide ByteIn, Pos;
    forall n: nat, fb: nat, off: nat | off < geo.bs
      ensures ByteIn(geo, d2, i2, n, fb, off) ==
         if n == ino && from <= Pos(geo.bs, fb, off) < from + |src| then src[Pos(geo.bs, fb, off) - from]
           else ByteIn(geo, d0, i0, n, fb, off)
    {
      assert ByteIn(geo, d2, i2, n, fb, off) == ByteIn(geo, d1, i1, n, fb, off);
    }
  }

  /** One more chunk: the prefix written so far grows by it. */
  lemma WroteChunk(geo: Geo, d0: Disk, i0: Inodes, d1: Disk, i1: Inodes, ino: nat, from: nat, src: seq<Byte>, fb: nat,
      off: nat, chunk: seq<Byte>)
    requires Wrote(geo, d0, i0, d1, i1, ino, from, src) && Owned(geo, d1, i1) && ino in i1
    requires Locate(geo.bs / 4, fb).At? && off + |chunk| <= geo.bs && Pos(geo.bs, fb, off) == from + |src|
    requires var b := MapBlock(geo.bs / 4, d1, i1[ino], fb); 0 < b < |d1| && |d1[b]| == geo.bs
    ensures var b := MapBlock(geo.bs / 4, d1, i1[ino], fb);
      Wrote(geo, d0, i0, d1[b := Patch(d1[b], off, chunk)], i1, ino, from, src + chunk)
  {
    hide ByteIn, Pos, MapBlock, Locate, Owned, PtrAt;
    var b := MapBlock(geo.bs / 4, d1, i1[ino], fb);
    var blk := Patch(d1[b], off, chunk);
    var d2 := d1[b := blk];
    ByteAtSlot(geo, d1, i1, ino, fb, off);
    PtrAtSlot(geo, d1, i1, ino, fb);
    forall q | PlaceOk(geo.bs / 4, i1, q) ensures PtrAt(d2, i1, q) == PtrAt(d1, i1, q) {
      DataKeepsPtrs(geo, d1, i1, Place(ino, Locate(geo.bs / 4, fb).slot), blk, q);
    }
    assert Steady(geo.bs / 4, d0, i0, d2, i1);
    forall n: nat, fb': nat, off': nat | off' < geo.bs
      ensures ByteIn(geo, d2, i1, n, fb', off') ==
         if n == ino &&
           from <= Pos(geo.bs, fb', off') < from + |src + chunk| then (src + chunk)[Pos(geo.bs, fb', off') - from]
         else ByteIn(geo, d0, i0, n, fb', off')
    {
      StoreBytes(geo, d1, i1, ino, fb, blk, n, fb', off');
      ChunkRange(geo.bs, fb, off, |chunk|, fb', off');
      PosDiff(geo.bs, fb, off, off');
      MappedByte(geo, d1, i1, ino, fb, off');
    }
  }

  lemma PosDiff(bs: nat, fb: nat, off: nat, off': nat)
    ensures Pos(bs, fb, off') - Pos(bs, fb, off) == off' - off
  {
  }

  lemma MappedByte(geo: Geo, disk: Disk, inodes: Inodes, ino: nat, fb: nat, off: nat)
    requires Pointered(inodes) && ino in inodes
    requires var b := MapBlock(geo.bs / 4, disk, inodes[ino], fb); 0 < b < |disk| && off < |disk[b]|
    ensures ByteIn(geo, disk, inodes, ino, fb, off) == disk[MapBlock(geo.bs / 4, disk, inodes[ino], fb)][off]
  {
  }
}
