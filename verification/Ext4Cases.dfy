/** A small valid ext4 volume, and what truncation, write and read do on it where they do not do what one expects. */
module Ext4Cases {
  import opened Arith
  import opened Bytes
  import opened Ext4Bitmap
  import opened Ext4Volume
  import opened Ext4Map
  import opened Ext4File
  import opened Ext4Truncate

  const BS := 1024

  /** One group of eight blocks, 1 to 8, with its bitmap in block 2. */
  function SmallGeo(): Geo { Geo(BS, 8, 1, [2]) }

  function Filled(): Block { seq(BS, _ => 0x41) }
  function AllUsed(): Block { Zeros(BS)[0 := 0xFF] }
  function Middle(): Block { WritePtr(Zeros(BS), 0, 4) }
  function Bottom(): Block { WritePtr(Zeros(BS), 100, 5) }

  /** Block 3 is a double-indirect block, 4 the index block below it, 5 and 6 hold data; no block is free. */
  function SmallDisk(): Disk {
    [Zeros(BS), Zeros(BS), AllUsed(), Middle(), Bottom(), Filled(), Filled(), Zeros(BS), Zeros(BS)]
  }

  /** File 1 has 369 blocks, of which 0 and 368 are mapped; file 2 is a hole of 6 GiB. */
  function SmallInodes(): Inodes {
    map[1 := Inode(0x8000, 369 * BS, 0, 8, [6, 0, 0, 0, 0, 0, 0, 0, 0, 0, 0, 0, 0, 3, 0]),
        2 := Inode(0x8000, 0x8000_0000, 1, 0, [0, 0, 0, 0, 0, 0, 0, 0, 0, 0, 0, 0, 0, 0, 0])]
  }

  ghost predicate IsSmall(fs: Ext4)
    reads fs, fs.vol
  {
    && fs.vol.geo == SmallGeo() && fs.vol.disk == SmallDisk() && fs.vol.bgFree == [0] && fs.vol.sFree == 0
    && fs.rev == 1 && fs.inodes == SmallInodes()
  }

  lemma SmallFormatted()
    ensures Formatted(SmallGeo(), SmallDisk()) && Apart(SmallGeo())
    ensures forall i {:trigger SmallGeo().Home(0, i)} :: 0 <= i < 8 ==> SmallGeo().Home(0, i) == 2
  {
    var geo := SmallGeo();
    forall i | 0 <= i < 8 ensures geo.Home(0, i) == 2 { DivMod(0, 8 * BS, i); }
    forall g, i | 0 <= g < 1 && 0 <= i < 8 ensures geo.Home(g, i) < |SmallDisk()| { assert g == 0; }
  }

  lemma SmallUsedAt(i: nat)
    requires i < 8
    ensures Formatted(SmallGeo(), SmallDisk()) && UsedAt(SmallGeo(), SmallDisk(), 0, i)
  {
    SmallFormatted();
    DivMod(0, 8 * BS, i);
    assert SmallGeo().Home(0, i) == 2 && SmallGeo().PerBlock() == 8 * BS;
    assert Pow2(8) == 256 by { assert Pow2(4) == 16; }
    FullByte(0xFF, 8, i);
  }

  lemma SmallCovers(b: nat)
    ensures SmallGeo().Covers(b) <==> 1 <= b <= 8
    ensures 1 <= b <= 8 ==> Formatted(SmallGeo(), SmallDisk()) && Used(SmallGeo(), SmallDisk(), b)
  {
    if b >= 1 {
      QuotRem(b - 1, 8);
      if b <= 8 {
        DivMod(0, 8, b - 1);
        SmallUsedAt(b - 1);
      } else {
        QuotPositive(b - 1, 8);
      }
    }
  }

  lemma QuotPositive(a: nat, n: nat)
    requires 0 < n <= a
    ensures Quot(a, n) > 0
  {
    QuotRem(a, n);
  }

  lemma SmallOwnable(b: nat)
    requires 3 <= b <= 8
    ensures Ownable(SmallGeo(), SmallDisk(), b)
  {
    SmallFormatted();
    SmallCovers(b);
    assert !IsBitmap(SmallGeo(), b);
  }

  lemma SmallCounted()
    ensures Counted(SmallGeo(), SmallDisk(), [0], 0) && Reserved(SmallGeo(), SmallDisk())
  {
    SmallFormatted();
    forall i | 0 <= i < 8 ensures UsedAt(SmallGeo(), SmallDisk(), 0, i) { SmallUsedAt(i); }
    ClearNone(SmallGeo(), SmallDisk(), 0, 8);
    assert [0][1..] == [];
    forall b: nat | SmallGeo().Covers(b) ensures Used(SmallGeo(), SmallDisk(), b) { SmallCovers(b); }
    SmallCovers(0);
  }

  lemma SmallEntry(b: nat, i: nat)
    ensures b in {3, 4} ==>
      Entry(SmallDisk(), b, i) == if b == 3 && i == 0 then 4 else if b == 4 && i == 100 then 5 else 0
    ensures b == 0 ==> Entry(SmallDisk(), b, i) == 0
  {
    var zero := Zeros(BS);
    if 4 * i + 3 < BS && b in {3, 4} {
      ReadWritten(zero, 0, 4, i);
      ReadWritten(zero, 100, 5, i);
      assert ReadPtr(zero, i) == 0;
    }
  }

  /** The places of the volume that name a block. */
  lemma SmallPtr(p: Place)
    ensures Pointered(SmallInodes())
    ensures PtrAt(SmallDisk(), SmallInodes(), p) ==
      if p == Place(1, Direct(0)) then 6 else if p == Place(1, Double) then 3
      else if p == Place(1, Mid(0)) then 4 else if p == Place(1, Leaf(0, 100)) then 5 else 0
  {
    hide Entry;
    match p.slot {
      case Direct(_) =>
      case Single =>
      case Double =>
      case Ind(i) => SmallEntry(0, i);
      case Mid(i) => SmallEntry(3, i); SmallEntry(0, i);
      case Leaf(i, j) => SmallEntry(3, i); SmallEntry(0, i); SmallEntry(4, j); SmallEntry(0, j);
    }
  }

  /** It is a valid file system. */
  lemma SmallOwned()
    ensures Owned(SmallGeo(), SmallDisk(), SmallInodes())
  {
    hide PtrAt, SmallDisk, Ownable;
    SmallFormatted();
    var d, t := SmallDisk(), SmallInodes();
    forall p: Place ensures PtrAt(d, t, p) != 0 ==> 3 <= PtrAt(d, t, p) <= 8 { SmallPtr(p); }
    forall b: nat | 3 <= b <= 8 ensures Ownable(SmallGeo(), d, b) { SmallOwnable(b); }
    forall p: Place, q: Place ensures !Clash(d, t, p, q) { SmallPtr(p); SmallPtr(q); }
  }

  lemma SmallValid(fs: Ext4)
    requires IsSmall(fs)
    ensures fs.Valid() && FileSize(fs.inodes[1], fs.rev) == 369 * BS && FileSize(fs.inodes[2], fs.rev) == 0x1_8000_0000
  {
    hide Owned, Counted, Reserved, SmallDisk, SmallGeo;
    SmallCounted();
    SmallOwned();
  }

  lemma SmallLeaf()
    ensures Locate(256, 368) == At(Leaf(0, 100)) && MapBlock(256, SmallDisk(), SmallInodes()[1], 368) == 5
  {
    DivMod(0, 256, 100);
    SmallPtr(Place(1, Leaf(0, 100)));
  }

  /** Cut to 269 blocks, file 1 keeps block 368 below its double-indirect block, and i_blocks counts one of the four
      blocks it still owns. */
  method DoubleNotTrimmed(fs: Ext4)
    requires IsSmall(fs)
    modifies fs`inodes, fs.vol
    ensures fs.Valid() && Pointered(fs.inodes) && 1 in fs.inodes
    ensures FileSize(fs.inodes[1], fs.rev) == 269 * BS && MapBlock(256, fs.vol.disk, fs.inodes[1], 368) == 5
    ensures fs.inodes[1].sectors == 2 && exists all :: Fills(fs.vol.geo, fs.vol.disk, fs.inodes, 1, all) && |all| == 4
  {
    hide Ext4.Valid, CutShort, SmallDisk, MapBlock, Counts, Fills;
    SmallValid(fs);
    ghost var d0, t, n := fs.vol.disk, fs.inodes, 269;
    assert NewBlocks(BS, 269 * BS) == n by { DivMod(269, BS, BS - 1); }
    ghost var ps, ks := Truncate(fs, 1, 269 * BS);
    SmallLeaf();
    CutFacts(fs.vol.geo, d0, t, fs.vol.disk, fs.inodes, ps, 1, n);
    TruncatedMapping(fs.vol.geo, d0, t, fs.vol.disk, fs.inodes, ps, 1, n, 1, 368);
    CaseCounts(fs.vol.disk, fs.inodes, ps, ks);
  }

  lemma CaseCounts(d: Disk, t: Inodes, ps: set<Place>, ks: set<Place>)
    requires CutShort(SmallGeo(), SmallDisk(), SmallInodes(), d, t, ps, 1, 269) && Counts(SmallGeo(), d, t, 1, ks)
    ensures |ks| == 1 && exists all :: Fills(SmallGeo(), d, t, 1, all) && |all| == 4
  {
    hide CutShort, PtrAt, SmallDisk;
    CutFacts(SmallGeo(), SmallDisk(), SmallInodes(), d, t, ps, 1, 269);
    var all := {Place(1, Direct(0)), Place(1, Double), Place(1, Mid(0)), Place(1, Leaf(0, 100))};
    forall p: Place | p.ino == 1 && SlotOk(256, p.slot) ensures PtrAt(d, t, p) != 0 <==> p in all {
      PtrAfter(SmallGeo(), SmallDisk(), SmallInodes(), d, t, ps, 1, 269, p);
      SmallPtr(p);
    }
    assert Fills(SmallGeo(), d, t, 1, all);
    assert ks == {Place(1, Direct(0))};
  }

  lemma CutFacts(geo: Geo, d0: Disk, t: Inodes, d: Disk, t': Inodes, ps: set<Place>, ino: nat, n: nat)
    requires CutShort(geo, d0, t, d, t', ps, ino, n)
    ensures Pointered(t) && Pointered(t') && ino in t' && t'.Keys == t.Keys
  {
  }

  /** Cut to 5 GiB, file 2 of 6 GiB reads as 1 GiB long. */
  method SizeHalved(fs: Ext4)
    requires IsSmall(fs)
    modifies fs`inodes, fs.vol
    ensures fs.Valid() && 2 in fs.inodes && FileSize(fs.inodes[2], fs.rev) == 0x4000_0000
  {
    hide Ext4.Valid, CutShort, SmallDisk;
    SmallValid(fs);
    ghost var _, _ := Truncate(fs, 2, 0x1_4000_0000);
  }

  /** Cut to 100 bytes and grown to 300 again, file 1 still shows byte 200. */
  method TailShows(fs: Ext4) returns (out: seq<Byte>)
    requires IsSmall(fs)
    modifies fs`inodes, fs.vol
    ensures fs.Valid() && |out| == 300 && out[200] == 0x41
  {
    hide Volume.Valid, Owned, CutShort, SmallDisk, ByteIn;
    SmallValid(fs);
    ghost var d0, t, n := fs.vol.disk, fs.inodes, 1;
    assert NewBlocks(BS, 100) == n by { DivMod(1, BS, 99); }
    ghost var ps, _ := Truncate(fs, 1, 100);
    ghost var d1, t1 := fs.vol.disk, fs.inodes;
    CutFacts(fs.vol.geo, d0, t, d1, t1, ps, 1, n);
    TruncatedBytes(fs.vol.geo, d0, t, d1, t1, ps, 1, n, 1, 0, 200);
    FirstByte();
    ghost var _, _ := Truncate(fs, 1, 300);
    SamePointers(fs.vol.geo, d1, t1, fs.inodes);
    var r;
    r, out := fs.Read(1, 0, 300);
    DivMod(0, BS, 200);
    assert Folded(BS, 0 + 200) == 200 by { FoldedLess(BS, 200); }
    assert out[200] == FileByte(fs.vol.geo, fs.vol.disk, fs.inodes, 1, Folded(BS, 0 + 200));
  }

  lemma FirstByte()
    ensures Pointered(SmallInodes()) && MapBlock(256, SmallDisk(), SmallInodes()[1], 0) == 6
    ensures forall off: nat :: off < BS ==> ByteIn(SmallGeo(), SmallDisk(), SmallInodes(), 1, 0, off) == 0x41
  {
    SmallPtr(Place(1, Direct(0)));
  }

  /** The first byte beyond 2^32 blocks folds to the first byte of the file. */
  const FAR := 0x400_0000_0000

  lemma FarFolds()
    ensures Limit(BS) == FAR && Folded(BS, FAR) == 0 && Quot(0, BS) == 0 && Rem(0, BS) == 0
  {
    RemIs(1, Limit(BS), 0);
    PosParts(BS, 0, 0);
  }

  /** Written at 2^32 blocks, a byte lands at the start of file 1; the file now ends behind the place it was meant for,
      which reads as zero. */
  method FarWrite(fs: Ext4) returns (r: int)
    requires IsSmall(fs)
    modifies fs`inodes, fs.vol
    ensures r == 1 && fs.Valid() && Pointered(fs.inodes) && 1 in fs.inodes && FileSize(fs.inodes[1], fs.rev) == FAR + 1
    ensures FileByte(fs.vol.geo, old(fs.vol.disk), old(fs.inodes), 1, 0) == 0x41
    ensures FileByte(fs.vol.geo, fs.vol.disk, fs.inodes, 1, 0) == 0x42
    ensures FileByte(fs.vol.geo, fs.vol.disk, fs.inodes, 1, FAR) == 0
  {
    hide Volume.Valid, Owned, SmallDisk, ByteIn, Folded, Limit, Wrote, MapBlock, NoneFree, Resized, Quot, Rem;
    SmallValid(fs);
    FarFolds();
    FirstByte();
    ghost var d0, t := fs.vol.disk, fs.inodes;
    ghost var ok;
    r, ok := fs.Write(1, [0x42], FAR);
    assert ok;
    OwnedPointered(fs.vol.geo, fs.vol.disk, fs.inodes);
    WroteBytes(fs.vol.geo, d0, t, fs.vol.disk, fs.inodes, 1, 0, [0x42], 1, 0);
    ResizedKeys(t, fs.inodes, 1, fs.rev, Rem(FAR + 1, DWORD));
    SmallRem(FAR + 1, DWORD);
    ResizedIff(t, fs.inodes, 1, fs.rev, FAR + 1);
    BeyondZero(fs.vol.geo, fs.vol.disk, fs.inodes, 1, FAR);
  }

  lemma ResizedKeys(t: Inodes, t': Inodes, ino: nat, rev: nat, end: nat)
    requires Resized(t, t', ino, rev, end)
    ensures t'.Keys == t.Keys
  {
  }

  /** Grown past 2^32 blocks, file 1 shows its first byte again there, where it has none. */
  method FarRead(fs: Ext4) returns (out: seq<Byte>)
    requires IsSmall(fs)
    modifies fs`inodes, fs.vol
    ensures fs.Valid() && Pointered(fs.inodes) && 1 in fs.inodes && FileSize(fs.inodes[1], fs.rev) == FAR + 1
    ensures out == [0x41] && FileByte(fs.vol.geo, fs.vol.disk, fs.inodes, 1, FAR) == 0
  {
    hide Volume.Valid, Owned, CutShort, SmallDisk, ByteIn, Folded, Limit, MapBlock, Quot, Rem;
    SmallValid(fs);
    FarFolds();
    FirstByte();
    ghost var d0, t := fs.vol.disk, fs.inodes;
    ghost var _, _ := Truncate(fs, 1, FAR + 1);
    SizeRoundTrip(t[1], fs.rev, FAR + 1);
    SamePointers(fs.vol.geo, d0, t, fs.inodes);
    SmallRem(FAR + 1, DWORD);
    var r;
    r, out := fs.Read(1, FAR, 1);
    BeyondZero(fs.vol.geo, fs.vol.disk, fs.inodes, 1, FAR);
    assert out[0] == FileByte(fs.vol.geo, fs.vol.disk, fs.inodes, 1, Folded(BS, FAR + 0));
  }

  /** Grown past 2^32 blocks and cut to exactly 2^32 blocks, file 1 loses everything: the block count wraps to 0. */
  method CutsAll(fs: Ext4)
    requires IsSmall(fs)
    modifies fs`inodes, fs.vol
    ensures fs.Valid() && Pointered(fs.inodes) && 1 in fs.inodes
    ensures FileByte(fs.vol.geo, old(fs.vol.disk), old(fs.inodes), 1, 0) == 0x41
    ensures FileByte(fs.vol.geo, fs.vol.disk, fs.inodes, 1, 0) == 0
  {
    hide Volume.Valid, Owned, CutShort, SmallDisk, ByteIn, Folded, Limit, MapBlock, Quot, Rem;
    SmallValid(fs);
    FarFolds();
    FirstByte();
    ghost var d0, t := fs.vol.disk, fs.inodes;
    ghost var _, _ := Truncate(fs, 1, FAR + 1);
    SizeRoundTrip(t[1], fs.rev, FAR + 1);
    SamePointers(fs.vol.geo, d0, t, fs.inodes);
    ghost var d1, t1 := fs.vol.disk, fs.inodes;
    WrapsToNone();
    ghost var ps, _ := Truncate(fs, 1, FAR);
    CutFacts(fs.vol.geo, d1, t1, fs.vol.disk, fs.inodes, ps, 1, 0);
    TruncatedByte(fs.vol.geo, d1, t1, fs.vol.disk, fs.inodes, ps, 1, 0, 0);
  }

  lemma WrapsToNone()
    ensures NewBlocks(BS, FAR) == 0
  {
    DivMod(WORD, BS, BS - 1);
  }
}
