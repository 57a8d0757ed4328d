/** Where things are on an ext4 volume, in plain numbers: bitmap bits, pointers of a file, blocks in pages, room in a
    directory block. */
module Ext4Format {
  import opened Arith
  import opened Bytes
  import opened Bcache
  import opened Ext4Bitmap
  import opened Ext4Map
  import opened Ext4Dirent
  import opened Ext4Cached

  // ---------------------------------------------------------------- bitmaps

  lemma HalfFirst(b: nat, p: nat)
    requires p > 0
    ensures b / 2 / p == b / (2 * p)
  {
    var q, r := Quot(b, 2 * p), Rem(b, 2 * p);
    QuotRem(b, 2 * p);
    hide Quot, Rem;
    assert b == 2 * (q * p) + r;
    assert b / 2 == q * p + r / 2;
    DivMod(q, p, r / 2);
    DivMod(q, 2 * p, r);
    assert b == q * (2 * p) + r;
  }

  lemma {:induction false} BitIs(b: nat, k: nat)
    ensures Bit(b, k) <==> b / Pow2(k) % 2 == 1
  {
    if k > 0 {
      BitIs(b / 2, k - 1);
      HalfFirst(b, Pow2(k - 1));
    }
  }

  /** Block `b`, number `k` of group g, is used if and only if its bit is set: bit r of byte q of the m-th bitmap block
      of the group, least significant bit first. */
  lemma UsedBit(geo: Geo, disk: Disk, g: nat, m: nat, q: nat, r: nat, k: nat, b: nat)
    requires Formatted(geo, disk) && g < |geo.bitmap| && q < geo.bs && r < 8
    requires k == m * (8 * geo.bs) + (8 * q + r) && k < geo.bpg && b == geo.first + g * geo.bpg + k
    ensures geo.Covers(b) && geo.bitmap[g] + m < |disk| && |disk[geo.bitmap[g] + m]| == geo.bs
    ensures Used(geo, disk, b) <==> disk[geo.bitmap[g] + m][q] / Pow2(r) % 2 == 1
  {
    hide Bit, Pow2, Quot, Rem, BitOf, Geo.Group, Geo.Index, Geo.Home, Geo.PerBlock;
    InGroup(geo, g, k, b);
    InBitmap(geo, g, m, q, r, k);
    InByte(disk[geo.bitmap[g] + m], q, r);
    BitIs(disk[geo.bitmap[g] + m][q], r);
  }

  lemma InGroup(geo: Geo, g: nat, k: nat, b: nat)
    requires g < |geo.bitmap| && k < geo.bpg && b == geo.first + g * geo.bpg + k
    ensures geo.Covers(b) && geo.Group(b) == g && geo.Index(b) == k
  {
    DivMod(g, geo.bpg, k);
  }

  lemma InBitmap(geo: Geo, g: nat, m: nat, q: nat, r: nat, k: nat)
    requires g < |geo.bitmap| && q < geo.bs && r < 8 && k == m * (8 * geo.bs) + (8 * q + r)
    ensures geo.PerBlock() == 8 * geo.bs && geo.Home(g, k) == geo.bitmap[g] + m && Rem(k, 8 * geo.bs) == 8 * q + r
  {
    DivMod(m, 8 * geo.bs, 8 * q + r);
  }

  lemma InByte(blk: Block, q: nat, r: nat)
    requires q < |blk| && r < 8
    ensures BitOf(blk, 8 * q + r) <==> Bit(blk[q], r)
  {
  }

  // ---------------------------------------------------------------- pointers

  /** Pointers are stored with the least significant byte first. */
  lemma PointerBytes(blk: Block, i: nat)
    requires 4 * i + 3 < |blk| && blk[4 * i] == 0x78 && blk[4 * i + 1] == 0x56 && blk[4 * i + 2] == 0x34
    requires blk[4 * i + 3] == 0x12
    ensures ReadPtr(blk, i) == 0x1234_5678
  {
  }

  /** The first 12 blocks of a file are named in the inode, the next in the block named by its 13th pointer, the rest,
      row by row, in the blocks named in the block of its 14th; nothing lies beyond. */
  lemma BlockNames(disk: Disk, ip: Inode, apb: nat, i: nat, j: nat)
    requires |ip.ptr| == NPTR && i < apb && j < apb
    ensures i < 12 ==> MapBlock(apb, disk, ip, i) == ip.ptr[i]
    ensures MapBlock(apb, disk, ip, 12 + i) == Entry(disk, ip.ptr[12], i)
    ensures i * apb + j < apb * apb
    ensures MapBlock(apb, disk, ip, 12 + apb + (i * apb + j)) == Entry(disk, Entry(disk, ip.ptr[13], i), j)
  {
    hide Entry;
    MulMono(i + 1, apb, apb);
    DivMod(i, apb, j);
  }

  lemma NoBlockBeyond(disk: Disk, ip: Inode, apb: nat, fb: nat)
    requires |ip.ptr| == NPTR && fb >= 12 + apb + apb * apb
    ensures MapBlock(apb, disk, ip, fb) == 0
  {
  }

  // ---------------------------------------------------------------- blocks in pages

  /** Byte k of block b is byte b * bs + k of the device, in pages of 4096. */
  lemma BlockAddress(bs: nat, view: map<int, Block>, n: nat, b: nat, k: nat)
    requires Pages(bs, view, n) && b < n && k < bs
    ensures var addr := b * bs + k; var p: int := addr / 4096;
      p in view && addr % 4096 < |view[p]| && BlockOf(bs, view, n, b)[k] == view[p][addr % 4096]
  {
    var per := PAGE / bs;
    var p, r := Quot(b, per), Rem(b, per);
    QuotRem(b, per);
    InPage(bs, b);
    hide Quot, Rem;
    assert per * bs == 4096;
    Rows(p, per, r, bs);
    assert b * bs == p * 4096 + r * bs;
    DivMod(p, 4096, r * bs + k);
    assert PageOf(bs, b) == p && OffsetOf(bs, b) == r * bs;
  }

  lemma Rows(p: nat, per: nat, r: nat, bs: nat)
    ensures (per * p + r) * bs == p * (per * bs) + r * bs
  {
  }

  // ---------------------------------------------------------------- room in a directory block

  /** A record starts at `o`. */
  ghost predicate RecordAt(blk: Block, o: nat) { o < |blk| && Tiled(blk, 0, o) && Tiled(blk, o, |blk|) }

  /** A free record that is long enough, or a live one with enough room behind its own name; 8 bytes and the name,
      rounded up to a multiple of 4. */
  ghost predicate Spacious(blk: Block, o: nat, n: nat) {
    && o + 8 <= |blk|
    && if InoAt(blk, o) == 0 then LenAt(blk, o) >= (n + 11) / 4 * 4
       else LenAt(blk, o) - (NameLenAt(blk, o) + 11) / 4 * 4 >= (n + 11) / 4 * 4
  }

  /** There is room for a name of n bytes if and only if some record is spacious. */
  lemma RoomIff(blk: Block, n: nat)
    requires Tiled(blk, 0, |blk|)
    ensures Room(blk, 0, |blk|, n) <==> exists o: nat :: RecordAt(blk, o) && Spacious(blk, o, n)
  {
    RoomFrom(blk, 0, n);
  }

  lemma {:induction false} RoomFrom(blk: Block, o: nat, n: nat)
    requires Tiled(blk, 0, o) && Tiled(blk, o, |blk|) && o <= |blk|
    ensures Room(blk, o, |blk|, n) <==> exists x: nat :: o <= x && RecordAt(blk, x) && Spacious(blk, x, n)
    decreases |blk| - o
  {
    hide LenAt, InoAt, NameLenAt, Ents;
    if o < |blk| {
      Scanned(blk, o);
      var next := o + LenAt(blk, o);
      RoomFrom(blk, next, n);
      RoomStep(blk, o, n);
      hide Tiled, Room;
      assert Fits(blk, o, n) <==> Spacious(blk, o, n);
      assert RecordAt(blk, o);
      forall x: nat | o < x < next ensures !RecordAt(blk, x) { NoneBetween(blk, 0, o, x); }
    }
  }

  /** No record starts inside another. */
  lemma {:induction false} NoneBetween(blk: Block, s: nat, o: nat, x: nat)
    requires Tiled(blk, s, o) && o < |blk| && RecOk(blk, o, |blk|) && o < x < o + LenAt(blk, o)
    ensures !Tiled(blk, s, x)
    decreases if s < o then o - s else 0
  {
    hide LenAt, InoAt, NameLenAt;
    if s < o {
      NoneBetween(blk, s + LenAt(blk, s), o, x);
    }
  }
}
