/** Directories: files whose blocks hold records, seen as a list of entries. */
module Ext4Dir {
  import opened Arith
  import opened Bytes
  import opened Ext4Bitmap
  import opened Ext4Volume
  import opened Ext4Map
  import opened Ext4File
  import opened Ext4Dirent

  const ENOENT := 2
  const ENOTDIR := 20

  predicate IsDirMode(mode: nat) { mode / 0x1000 % 16 == 4 }

  /** The file types with 4 in the upper four of sixteen bits. */
  lemma DirModes(mode: nat)
    ensures IsDirMode(mode) <==> 0x4000 <= mode % 0x1_0000 < 0x5000
  {
  }

  /** The block sizes the driver mounts. */
  predicate BlockSize(bs: nat) { bs == 1024 || bs == 2048 || bs == 4096 }

  // ---------------------------------------------------------------- contents

  /** Logical block `fb` of a file, as bytes; a hole is all zeros. */
  ghost function FileBlock(geo: Geo, disk: Disk, inodes: Inodes, ino: nat, fb: nat): (r: Block)
    requires Pointered(inodes)
    ensures |r| == geo.bs
  {
    seq(geo.bs, off requires 0 <= off < geo.bs => ByteIn(geo, disk, inodes, ino, fb, off))
  }

  /** The first `n` blocks of a file. */
  ghost function Data(geo: Geo, disk: Disk, inodes: Inodes, ino: nat, n: nat): (r: seq<Block>)
    requires Pointered(inodes)
    ensures |r| == n && forall k {:trigger r[k]} :: 0 <= k < n ==> r[k] == FileBlock(geo, disk, inodes, ino, k)
  {
    seq(n, k requires 0 <= k < n => FileBlock(geo, disk, inodes, ino, k))
  }

  function AllEnts(cs: seq<Block>): seq<DirEnt> {
    if cs == [] then [] else AllEnts(cs[..|cs| - 1]) + Ents(cs[|cs| - 1], 0, |cs[|cs| - 1]|)
  }

  ghost predicate DirData(cs: seq<Block>) { forall k {:trigger cs[k]} :: 0 <= k < |cs| ==> DirBlock(cs[k]) }

  /** Inode `dir` is a directory of `n` whole blocks of records. */
  ghost predicate Directory(geo: Geo, disk: Disk, inodes: Inodes, dir: nat, n: nat) {
    && BlockSize(geo.bs) && Pointered(inodes) && dir in inodes && IsDirMode(inodes[dir].mode)
    && inodes[dir].lo == Pos(geo.bs, n, 0) && inodes[dir].lo < WORD && DirData(Data(geo, disk, inodes, dir, n))
  }

  /** Its entries in order. */
  ghost function Listing(geo: Geo, disk: Disk, inodes: Inodes, dir: nat, n: nat): seq<DirEnt>
    requires Pointered(inodes)
  {
    AllEnts(Data(geo, disk, inodes, dir, n))
  }

  lemma {:induction false} Split(cs: seq<Block>, k: nat)
    requires k <= |cs|
    ensures AllEnts(cs) == AllEnts(cs[..k]) + AllEnts(cs[k..])
  {
    hide Ents;
    if k == |cs| {
      assert cs[..k] == cs && cs[k..] == [];
    } else {
      var init, rest := cs[..|cs| - 1], cs[k..];
      Split(init, k);
      assert init[..k] == cs[..k] && init[k..] == rest[..|rest| - 1];
      assert AllEnts(rest) == AllEnts(rest[..|rest| - 1]) + Ents(rest[|rest| - 1], 0, |rest[|rest| - 1]|);
      assert rest[|rest| - 1] == cs[|cs| - 1];
    }
  }

  lemma Around(cs: seq<Block>, k: nat)
    requires k < |cs|
    ensures AllEnts(cs) == AllEnts(cs[..k]) + Ents(cs[k], 0, |cs[k]|) + AllEnts(cs[k + 1..])
    ensures AllEnts(cs[..k + 1]) == AllEnts(cs[..k]) + Ents(cs[k], 0, |cs[k]|)
  {
    hide Ents;
    Split(cs, k + 1);
    assert cs[..k + 1][..k] == cs[..k] && cs[..k + 1][k] == cs[k];
    assert AllEnts(cs[..k + 1]) == AllEnts(cs[..k + 1][..k]) + Ents(cs[..k + 1][k], 0, |cs[..k + 1][k]|);
  }

  /** Editing one block edits the list at that place. */
  lemma EditedBlock(cs: seq<Block>, k: nat, blk: Block)
    requires k < |cs|
    ensures AllEnts(cs[k := blk]) == AllEnts(cs[..k]) + Ents(blk, 0, |blk|) + AllEnts(cs[k + 1..])
  {
    hide AllEnts;
    Around(cs[k := blk], k);
    assert cs[k := blk][..k] == cs[..k] && cs[k := blk][k + 1..] == cs[k + 1..];
  }

  lemma InsertedMid(a: seq<DirEnt>, b: seq<DirEnt>, c: seq<DirEnt>, i: nat, e: DirEnt)
    requires i <= |b|
    ensures a + Inserted(b, i, e) + c == Inserted(a + b + c, |a| + i, e)
  {
  }

  lemma RemovedMid(a: seq<DirEnt>, b: seq<DirEnt>, c: seq<DirEnt>, i: nat)
    requires i < |b|
    ensures a + Removed(b, i) + c == Removed(a + b + c, |a| + i) && (a + b + c)[|a| + i] == b[i]
  {
  }

  lemma AbsentAppend(a: seq<DirEnt>, b: seq<DirEnt>, name: Name)
    requires Absent(a, name) && Absent(b, name)
    ensures Absent(a + b, name)
  {
  }

  lemma {:induction false} LiveInodes(blk: Block, o: nat, to: nat)
    ensures Filled(Ents(blk, o, to))
    decreases if o < to then to - o else 0
  {
    hide LenAt, InoAt, EntsOf;
    if o < to && RecOk(blk, o, to) {
      LiveInodes(blk, o + LenAt(blk, o), to);
      LiveInode(blk, o);
    }
  }

  lemma LiveInode(blk: Block, o: nat)
    ensures Filled(EntsOf(blk, o))
  {
  }

  lemma {:induction false} ListedInodes(cs: seq<Block>)
    ensures Filled(AllEnts(cs))
  {
    if cs != [] {
      ListedInodes(cs[..|cs| - 1]);
      LiveInodes(cs[|cs| - 1], 0, |cs[|cs| - 1]|);
      hide Ents;
    }
  }

  // ---------------------------------------------------------------- reading directory blocks

  lemma HoleBlock(geo: Geo, disk: Disk, inodes: Inodes, ino: nat, fb: nat)
    requires Pointered(inodes) && ino in inodes && MapBlock(geo.bs / 4, disk, inodes[ino], fb) == 0 && geo.bs >= HEADER
    ensures Ents(FileBlock(geo, disk, inodes, ino, fb), 0, geo.bs) == []
  {
    hide MapBlock;
    var blk := FileBlock(geo, disk, inodes, ino, fb);
    assert blk[4] == 0 && blk[5] == 0;
    Unreadable(blk);
  }

  lemma MappedBlock(geo: Geo, disk: Disk, inodes: Inodes, ino: nat, fb: nat)
    requires Owned(geo, disk, inodes) && Pointered(inodes) && ino in inodes
    requires MapBlock(geo.bs / 4, disk, inodes[ino], fb) != 0
    ensures var b := MapBlock(geo.bs / 4, disk, inodes[ino], fb);
      b < |disk| && disk[b] == FileBlock(geo, disk, inodes, ino, fb)
  {
    hide Owned, MapBlock;
    MappedSize(geo, disk, inodes, ino, fb);
    var b := MapBlock(geo.bs / 4, disk, inodes[ino], fb);
    forall off | 0 <= off < geo.bs ensures disk[b][off] == FileBlock(geo, disk, inodes, ino, fb)[off] {
      MappedByte(geo, disk, inodes, ino, fb, off);
    }
  }

  /** Find the block behind `fb` without allocating: 0 for a hole, which holds no records. */
  method Fetch(fs: Ext4, dir: nat, ip: Inode, fb: nat) returns (b: nat)
    requires fs.Valid() && dir in fs.inodes && fs.inodes[dir] == ip && fs.vol.geo.bs >= HEADER
    modifies fs.vol
    ensures fs.Valid() && fs.vol.disk == old(fs.vol.disk) && fs.vol.bgFree == old(fs.vol.bgFree)
    ensures fs.vol.sFree == old(fs.vol.sFree)
    ensures Pointered(fs.inodes) && b == MapBlock(fs.vol.geo.bs / 4, fs.vol.disk, ip, fb)
    ensures b == 0 ==> Ents(FileBlock(fs.vol.geo, fs.vol.disk, fs.inodes, dir, fb), 0, fs.vol.geo.bs) == []
    ensures b != 0 ==> b < |fs.vol.disk| && fs.vol.disk[b] == FileBlock(fs.vol.geo, fs.vol.disk, fs.inodes, dir, fb)
  {
    hide Volume.Valid, Owned, SameBytes, NoneFree, MapBlock, Grew, Ents, FileBlock;
    OwnedPointered(fs.vol.geo, fs.vol.disk, fs.inodes);
    assert fs.inodes[dir := ip] == fs.inodes;
    var same;
    b, same := fs.Resolve(dir, ip, fb, false);
    if b == 0 { HoleBlock(fs.vol.geo, fs.vol.disk, fs.inodes, dir, fb); } else {
      MappedBlock(fs.vol.geo, fs.vol.disk, fs.inodes, dir, fb);
    }
  }

  /** `ext4_dir_lookup`: the inode of the first entry with that name. */
  method Lookup(fs: Ext4, dir: nat, name: Name, ghost n: nat) returns (rc: int, child: nat)
    requires fs.Valid() && dir in fs.inodes && BlockSize(fs.vol.geo.bs)
    requires 0x4000 <= fs.inodes[dir].mode % 0x1_0000 < 0x5000 ==>
      Directory(fs.vol.geo, fs.vol.disk, fs.inodes, dir, n)
    modifies fs.vol
    ensures fs.Valid() && fs.vol.disk == old(fs.vol.disk) && fs.vol.bgFree == old(fs.vol.bgFree)
    ensures fs.vol.sFree == old(fs.vol.sFree)
    ensures rc == -ENOTDIR <==> !(0x4000 <= fs.inodes[dir].mode % 0x1_0000 < 0x5000)
    ensures rc == 0 || rc == -ENOENT || rc == -ENOTDIR
    ensures Pointered(fs.inodes)
    ensures rc == 0 ==> child != 0 && child == Find(Listing(fs.vol.geo, fs.vol.disk, fs.inodes, dir, n), name)
    ensures rc == -ENOENT ==> Find(Listing(fs.vol.geo, fs.vol.disk, fs.inodes, dir, n), name) == 0
  {
    hide Volume.Valid, Owned, MapBlock, Ents, FileBlock, Quot, Pos, Tiled, LenAt, InoAt, AllEnts, Find;
    OwnedPointered(fs.vol.geo, fs.vol.disk, fs.inodes);
    var ip := fs.inodes[dir];
    DirModes(ip.mode);
    if !IsDirMode(ip.mode) { return -ENOTDIR, 0; }
    var bs, size, pos := fs.vol.geo.bs, ip.lo, 0;
    ghost var k, data := 0, Data(fs.vol.geo, fs.vol.disk, fs.inodes, dir, n);
    PosBounds(bs, 0, n);
    EmptyPrefix(data, name);
    while pos < size
      invariant fs.vol.disk == old(fs.vol.disk) && fs.vol.bgFree == old(fs.vol.bgFree)
      invariant fs.vol.sFree == old(fs.vol.sFree) && fs.vol.Valid()
      invariant 0 <= k <= n && pos == Pos(bs, k, 0) && Absent(AllEnts(data[..k]), name)
      decreases n - k
    {
      PosBounds(bs, k, n);
      Around(data, k);
      var fb := Quot(pos, bs);
      var b := Fetch(fs, dir, ip, fb);
      if b != 0 {
        var found, o, prev := FindRec(fs.vol.disk[b], name, pos, size, true);
        if found {
          HitAt(data, k, o, name);
          return 0, InoAt(fs.vol.disk[b], o);
        }
      }
      AbsentAppend(AllEnts(data[..k]), Ents(data[k], 0, |data[k]|), name);
      pos := Pos(bs, fb + 1, 0);
      k := k + 1;
    }
    PosBounds(bs, k, n);
    assert data[..k] == data;
    FindNone(AllEnts(data), name);
    return -ENOENT, 0;
  }

  lemma EmptyPrefix(cs: seq<Block>, name: Name)
    ensures Absent(AllEnts(cs[..0]), name) && AllEnts(cs[..0]) == []
  {
  }

  /** Block `k` starts at Pos(bs, k, 0); it lies inside the directory exactly when k < n. */
  lemma PosBounds(bs: nat, k: nat, n: nat)
    requires bs > 0
    ensures Quot(Pos(bs, k, 0), bs) == k && Pos(bs, 0, 0) == 0 && Pos(bs, k + 1, 0) == Pos(bs, k, 0) + bs
    ensures k < n ==> Pos(bs, k, 0) + bs <= Pos(bs, n, 0)
    ensures Pos(bs, k, 0) < Pos(bs, n, 0) <==> k < n
  {
    PosParts(bs, k, 0);
    if k < n { MulMono(k + 1, n, bs); } else { MulMono(n, k, bs); }
  }

  lemma HitAt(cs: seq<Block>, k: nat, o: nat, name: Name)
    requires k < |cs| && Absent(AllEnts(cs[..k]), name) && Absent(Ents(cs[k], 0, o), name)
    requires Tiled(cs[k], 0, o) && Tiled(cs[k], o, |cs[k]|) && o + HEADER <= |cs[k]| && Live(cs[k], o)
    requires NameIs(cs[k], o, name)
    ensures Find(AllEnts(cs), name) == InoAt(cs[k], o) != 0
  {
    hide AllEnts, Ents, Tiled, InoAt, Find;
    var blk := cs[k];
    var a, m, c, i := AllEnts(cs[..k]), Ents(blk, 0, |blk|), AllEnts(cs[k + 1..]), |Ents(blk, 0, o)|;
    Around(cs, k);
    FoundAt(blk, o, name);
    FindFirst(a + m[..i], m[i], m[i + 1..] + c, name);
    assert a + m[..i] + [m[i]] + (m[i + 1..] + c) == a + m + c;
  }

  lemma {:induction false} FindFirst(a: seq<DirEnt>, e: DirEnt, c: seq<DirEnt>, name: Name)
    requires Absent(a, name) && e.name == name
    ensures Find(a + [e] + c, name) == e.ino
  {
    if a == [] {
      assert a + [e] + c == [e] + c;
    } else {
      assert (a + [e] + c)[1..] == a[1..] + [e] + c;
      FindFirst(a[1..], e, c, name);
    }
  }

  // ---------------------------------------------------------------- changing directory blocks

  /** Every file other than `dir` has the bytes and the inode it had. */
  ghost predicate OthersSame(geo: Geo, d0: Disk, t0: Inodes, d: Disk, t: Inodes, dir: nat) {
    && Pointered(t0) && Pointered(t) && t.Keys == t0.Keys
    && (forall m {:trigger t[m]} :: m in t && m != dir ==> t[m] == t0[m])
    && forall m: nat, fb: nat, off: nat {:trigger ByteIn(geo, d, t, m, fb, off)} :: m != dir && off < geo.bs ==>
         ByteIn(geo, d, t, m, fb, off) == ByteIn(geo, d0, t0, m, fb, off)
  }

  /** Block `fb` of `dir` now holds `blk`; no other byte of any file changed. */
  ghost predicate Stored(geo: Geo, d0: Disk, d: Disk, t: Inodes, dir: nat, fb: nat, blk: Block) {
    && Pointered(t) && |blk| == geo.bs
    && forall m: nat, fb': nat, off: nat {:trigger ByteIn(geo, d, t, m, fb', off)} :: off < geo.bs ==>
         ByteIn(geo, d, t, m, fb', off) == if m == dir && fb' == fb then blk[off] else ByteIn(geo, d0, t, m, fb', off)
  }

  lemma StoredHere(geo: Geo, disk: Disk, t: Inodes, dir: nat, fb: nat, blk: Block)
    requires Owned(geo, disk, t) && Pointered(t) && dir in t && MapBlock(geo.bs / 4, disk, t[dir], fb) != 0
    requires |blk| == geo.bs
    ensures var b := MapBlock(geo.bs / 4, disk, t[dir], fb);
      && b < |disk| && !IsBitmap(geo, b) && Owned(geo, disk[b := blk], t)
      && Stored(geo, disk, disk[b := blk], t, dir, fb, blk)
  {
    hide Owned, MapBlock, PtrAt, ByteIn, Locate, Used, IsBitmap;
    var b := MapBlock(geo.bs / 4, disk, t[dir], fb);
    MappedLocated(geo, disk, t[dir], fb);
    ByteAtSlot(geo, disk, t, dir, fb, 0);
    PtrAtSlot(geo, disk, t, dir, fb);
    NamedOwnable(geo, disk, t, Place(dir, Locate(geo.bs / 4, fb).slot));
    StoreOwned(geo, disk, t, Place(dir, Locate(geo.bs / 4, fb).slot), blk);
    var d := disk[b := blk];
    forall m: nat, fb': nat, off: nat {:trigger ByteIn(geo, d, t, m, fb', off)} | off < geo.bs
      ensures ByteIn(geo, d, t, m, fb', off) == if m == dir && fb' == fb then blk[off]
        else ByteIn(geo, disk, t, m, fb', off)
    {
      StoreBytes(geo, disk, t, dir, fb, blk, m, fb', off);
    }
  }

  lemma StoredBlocks(geo: Geo, d0: Disk, d: Disk, t: Inodes, dir: nat, fb: nat, blk: Block, fb': nat)
    requires Stored(geo, d0, d, t, dir, fb, blk)
    ensures FileBlock(geo, d, t, dir, fb') == if fb' == fb then blk else FileBlock(geo, d0, t, dir, fb')
  {
    hide ByteIn;
    var x, y := FileBlock(geo, d, t, dir, fb'), if fb' == fb then blk else FileBlock(geo, d0, t, dir, fb');
    forall off | 0 <= off < geo.bs ensures x[off] == y[off] {
      assert x[off] == ByteIn(geo, d, t, dir, fb', off);
    }
  }

  lemma StoredData(geo: Geo, d0: Disk, d: Disk, t: Inodes, dir: nat, fb: nat, blk: Block, n: nat)
    requires Stored(geo, d0, d, t, dir, fb, blk)
    ensures Data(geo, d, t, dir, n) == if fb < n then Data(geo, d0, t, dir, n)[fb := blk] else Data(geo, d0, t, dir, n)
    ensures Data(geo, d, t, dir, n + 1)[..n] == Data(geo, d, t, dir, n)
    ensures (fb == n ==> Data(geo, d, t, dir, n + 1)[n] == blk)
    ensures OthersSame(geo, d0, t, d, t, dir)
  {
    hide FileBlock, ByteIn;
    var x, y := Data(geo, d, t, dir, n), Data(geo, d0, t, dir, n);
    forall k | 0 <= k < n
      ensures x[k] == if k == fb then blk else y[k]
    {
      StoredBlocks(geo, d0, d, t, dir, fb, blk, k);
    }
    StoredBlocks(geo, d0, d, t, dir, fb, blk, n);
  }

  /** Overwrite block `b`, the one behind `fb`. */
  method PutBlock(fs: Ext4, ghost t: Inodes, ghost dir: nat, ghost fb: nat, b: nat, blk: Block)
    requires fs.vol.Valid() && Owned(fs.vol.geo, fs.vol.disk, t) && Pointered(t) && dir in t && |blk| == fs.vol.geo.bs
    requires b == MapBlock(fs.vol.geo.bs / 4, fs.vol.disk, t[dir], fb) && b != 0
    modifies fs.vol`disk
    ensures fs.vol.Valid() && Owned(fs.vol.geo, fs.vol.disk, t)
    ensures Stored(fs.vol.geo, old(fs.vol.disk), fs.vol.disk, t, dir, fb, blk)
  {
    hide Volume.Valid, Owned, MapBlock, Stored, IsBitmap;
    StoredHere(fs.vol.geo, fs.vol.disk, t, dir, fb, blk);
    fs.vol.WriteBlock(b, blk);
  }

  /** The directory after one of its blocks was edited. */
  ghost predicate Added(geo: Geo, d0: Disk, t0: Inodes, d: Disk, t: Inodes, dir: nat, n: nat, n': nat, i: nat,
      e: DirEnt) {
    && Directory(geo, d0, t0, dir, n) && Directory(geo, d, t, dir, n') && OthersSame(geo, d0, t0, d, t, dir)
    && i <= |Listing(geo, d0, t0, dir, n)|
    && Listing(geo, d, t, dir, n') == Inserted(Listing(geo, d0, t0, dir, n), i, e)
  }

  lemma AddedHere(geo: Geo, d0: Disk, d: Disk, t: Inodes, dir: nat, n: nat, k: nat, blk: Block, i: nat, e: DirEnt)
    requires Directory(geo, d0, t, dir, n) && k < n && Stored(geo, d0, d, t, dir, k, blk) && Tiled(blk, 0, |blk|)
    requires var was := FileBlock(geo, d0, t, dir, k);
      i <= |Ents(was, 0, |was|)| && Ents(blk, 0, |blk|) == Inserted(Ents(was, 0, |was|), i, e)
    ensures var data := Data(geo, d0, t, dir, n); Added(geo, d0, t, d, t, dir, n, n, |AllEnts(data[..k])| + i, e)
  {
    hide AllEnts, FileBlock, Ents, Inserted, Tiled, LenAt, InoAt, Stored, OthersSame, Pos;
    StoredData(geo, d0, d, t, dir, k, blk, n);
    var data := Data(geo, d0, t, dir, n);
    EditedBlock(data, k, blk);
    Around(data, k);
    StoredSize(geo, d0, d, t, dir, k, blk);
    InsertedMid(AllEnts(data[..k]), Ents(data[k], 0, |data[k]|), AllEnts(data[k + 1..]), i, e);
    assert DirBlock(blk);
  }

  lemma StoredSize(geo: Geo, d0: Disk, d: Disk, t: Inodes, dir: nat, k: nat, blk: Block)
    requires Stored(geo, d0, d, t, dir, k, blk)
    ensures |blk| == geo.bs && Pointered(t)
  {
  }

  /** A whole block for one entry. */
  function FreshBlock(bs: nat, e: DirEnt): Block
    requires HEADER + |e.name| <= bs
  {
    SetEnt(SetLen(Zeros(bs), 0, bs), 0, e)
  }

  lemma FreshEnts(bs: nat, e: DirEnt)
    requires BlockSize(bs) && EntOk(e)
    ensures |FreshBlock(bs, e)| == bs && Tiled(FreshBlock(bs, e), 0, bs) && Ents(FreshBlock(bs, e), 0, bs) == [e]
  {
    hide SetEnt, SetLen, InoAt, LenAt, EntAt;
    SetLenReads(Zeros(bs), 0, bs);
    SetEntReads(SetLen(Zeros(bs), 0, bs), 0, e);
    var r := FreshBlock(bs, e);
    One(r, 0, bs);
    assert EntsOf(r, 0) == [EntAt(r, 0)];
  }

  /** The directory after a block for `e` was appended. */
  lemma AddedAtEnd(geo: Geo, d0: Disk, t0: Inodes, d1: Disk, t1: Inodes, d: Disk, t: Inodes, dir: nat, n: nat,
      e: DirEnt)
    requires Directory(geo, d0, t0, dir, n) && SameBytes(geo, d0, t0, d1, t1) && EntOk(e) && dir in t1
    requires t1 == t0[dir := t1[dir]] && t1[dir].mode == t0[dir].mode && t1[dir].lo == t0[dir].lo
    requires HEADER + |e.name| <= geo.bs && Stored(geo, d1, d, t1, dir, n, FreshBlock(geo.bs, e))
    requires t == t1[dir := t1[dir].(lo := t1[dir].lo + geo.bs)] && t1[dir].lo + geo.bs < WORD
    ensures Added(geo, d0, t0, d, t, dir, n, n + 1, |Listing(geo, d0, t0, dir, n)|, e)
  {
    hide AllEnts, FileBlock, Ents, Tiled, LenAt, InoAt, OthersSame, FreshBlock, Pos, Stored, SameBytes;
    SameBytesData(geo, d0, t0, d1, t1, dir, n);
    StoredData(geo, d1, d, t1, dir, n, FreshBlock(geo.bs, e), n);
    SizeOnly(geo, d, t1, t, dir, n + 1);
    FreshEnts(geo.bs, e);
    PosBounds(geo.bs, n, n);
    var data := Data(geo, d, t, dir, n + 1);
    Around(data, n);
    assert data[..n + 1] == data;
    OthersTrans(geo, d0, t0, d1, t1, d, t1, dir);
    OthersTrans(geo, d0, t0, d, t1, d, t, dir);
    InsertedLast(Listing(geo, d0, t0, dir, n), e);
    forall j | 0 <= j < n + 1
      ensures DirBlock(data[j])
    {
      if j < n { assert data[..n][j] == Data(geo, d0, t0, dir, n)[j]; }
    }
  }

  lemma InsertedLast(es: seq<DirEnt>, e: DirEnt)
    ensures Inserted(es, |es|, e) == es + [e]
  {
  }

  lemma SameBytesData(geo: Geo, d0: Disk, t0: Inodes, d: Disk, t: Inodes, dir: nat, n: nat)
    requires SameBytes(geo, d0, t0, d, t) && dir in t && t == t0[dir := t[dir]]
    ensures Pointered(t0) && Pointered(t) && Data(geo, d, t, dir, n) == Data(geo, d0, t0, dir, n)
    ensures OthersSame(geo, d0, t0, d, t, dir)
  {
    hide ByteIn;
    var x, y := Data(geo, d, t, dir, n), Data(geo, d0, t0, dir, n);
    forall k | 0 <= k < n ensures x[k] == y[k] {
      var p, q := FileBlock(geo, d, t, dir, k), FileBlock(geo, d0, t0, dir, k);
      forall off | 0 <= off < geo.bs ensures p[off] == q[off] { assert p[off] == ByteIn(geo, d, t, dir, k, off); }
      assert p == q;
    }
  }

  lemma SizeOnly(geo: Geo, disk: Disk, t: Inodes, t': Inodes, dir: nat, n: nat)
    requires Pointered(t) && dir in t && dir in t' && t' == t[dir := t'[dir]] && t'[dir].ptr == t[dir].ptr
    ensures Pointered(t') && Data(geo, disk, t', dir, n) == Data(geo, disk, t, dir, n)
    ensures OthersSame(geo, disk, t, disk, t', dir)
  {
    hide MapBlock, BlockByte;
    forall m: nat, fb: nat, off: nat
      ensures ByteIn(geo, disk, t', m, fb, off) == ByteIn(geo, disk, t, m, fb, off)
    {
      SamePtr(geo, disk, t, t', m, fb);
    }
    SamePtrBytes(geo, disk, t, t');
    SameBytesData(geo, disk, t, disk, t', dir, n);
  }

  lemma SamePtr(geo: Geo, disk: Disk, t: Inodes, t': Inodes, m: nat, fb: nat)
    requires Pointered(t) && Pointered(t') && t'.Keys == t.Keys && (m in t ==> t'[m].ptr == t[m].ptr)
    ensures m in t ==> MapBlock(geo.bs / 4, disk, t'[m], fb) == MapBlock(geo.bs / 4, disk, t[m], fb)
  {
    hide Entry, Locate;
  }

  lemma SamePtrBytes(geo: Geo, disk: Disk, t: Inodes, t': Inodes)
    requires Pointered(t) && Pointered(t') && t'.Keys == t.Keys
    requires forall m {:trigger t'[m]} :: m in t ==> t'[m].ptr == t[m].ptr
    requires forall m: nat, fb: nat, off: nat :: ByteIn(geo, disk, t', m, fb, off) == ByteIn(geo, disk, t, m, fb, off)
    ensures SameBytes(geo, disk, t, disk, t')
  {
    hide Entry;
    assert forall p {:trigger PtrAt(disk, t', p)} :: PtrAt(disk, t', p) == PtrAt(disk, t, p);
  }

  lemma OthersTrans(geo: Geo, d0: Disk, t0: Inodes, d1: Disk, t1: Inodes, d2: Disk, t2: Inodes, dir: nat)
    requires OthersSame(geo, d0, t0, d1, t1, dir) && OthersSame(geo, d1, t1, d2, t2, dir)
    ensures OthersSame(geo, d0, t0, d2, t2, dir)
  {
    hide ByteIn;
    forall m: nat, fb: nat, off: nat | m != dir &&
      off < geo.bs ensures ByteIn(geo, d2, t2, m, fb, off) == ByteIn(geo, d0, t0, m, fb, off) {
      assert ByteIn(geo, d1, t1, m, fb, off) == ByteIn(geo, d0, t0, m, fb, off);
    }
  }

  /** No block has room for a name of `len` bytes. */
  ghost predicate NoRoom(cs: seq<Block>, len: nat) {
    forall k {:trigger cs[k]} :: 0 <= k < |cs| ==> !Room(cs[k], 0, |cs[k]|, len)
  }

  /** The block loop of add: the first block with room takes the entry. */
  method AddInside(fs: Ext4, dir: nat, e: DirEnt, ghost n: nat) returns (done: bool, ghost i: nat)
    requires fs.Valid() && EntOk(e) && Directory(fs.vol.geo, fs.vol.disk, fs.inodes, dir, n)
    modifies fs.vol
    ensures fs.Valid() && Pointered(fs.inodes)
    ensures done ==> Added(fs.vol.geo, old(fs.vol.disk), fs.inodes, fs.vol.disk, fs.inodes, dir, n, n, i, e)
    ensures !done ==>
      fs.vol.disk == old(fs.vol.disk) && NoRoom(Data(fs.vol.geo, fs.vol.disk, fs.inodes, dir, n), |e.name|)
  {
    hide Volume.Valid, Owned, MapBlock, Ents, FileBlock, Quot, Pos, Tiled, LenAt, InoAt, AllEnts, Added, Room, Stored,
      Inserted;
    var ip, bs := fs.inodes[dir], fs.vol.geo.bs;
    var size, pos := ip.lo, 0;
    ghost var k, data := 0, Data(fs.vol.geo, fs.vol.disk, fs.inodes, dir, n);
    PosBounds(bs, 0, n);
    while pos < size
      invariant fs.vol.disk == old(fs.vol.disk) && fs.vol.Valid()
      invariant 0 <= k <= n && pos == Pos(bs, k, 0)
      invariant forall j {:trigger data[j]} :: 0 <= j < k ==> !Room(data[j], 0, |data[j]|, |e.name|)
      decreases n - k
    {
      PosBounds(bs, k, n);
      var fb := Quot(pos, bs);
      var b := Fetch(fs, dir, ip, fb);
      if b != 0 {
        var blk;
        assert DirBlock(data[k]);
        done, blk, i := AddTo(fs.vol.disk[b], e);
        if done {
          PutBlock(fs, fs.inodes, dir, fb, b, blk);
          StoredSize(fs.vol.geo, old(fs.vol.disk), fs.vol.disk, fs.inodes, dir, fb, blk);
          AddedHere(fs.vol.geo, old(fs.vol.disk), fs.vol.disk, fs.inodes, dir, n, k, blk, i, e);
          return true, |AllEnts(data[..k])| + i;
        }
      } else {
        HoleNoRoom(fs.vol.geo, fs.vol.disk, fs.inodes, dir, fb, |e.name|);
      }
      pos := Pos(bs, fb + 1, 0);
      k := k + 1;
    }
    PosBounds(bs, k, n);
    return false, 0;
  }

  lemma HoleNoRoom(geo: Geo, disk: Disk, inodes: Inodes, ino: nat, fb: nat, len: nat)
    requires Pointered(inodes) && ino in inodes && MapBlock(geo.bs / 4, disk, inodes[ino], fb) == 0 && geo.bs >= HEADER
    ensures !Room(FileBlock(geo, disk, inodes, ino, fb), 0, geo.bs, len)
  {
    hide MapBlock;
    var blk := FileBlock(geo, disk, inodes, ino, fb);
    assert blk[4] == 0 && blk[5] == 0;
    NoRoomAtEnd(blk, len);
  }

  /** The 32-bit size grown by one block. */
  function Longer(ip: Inode, bs: nat): Inode { ip.(lo := (ip.lo + bs) % WORD) }

  lemma AppendDone(geo: Geo, d0: Disk, t0: Inodes, d1: Disk, d: Disk, dir: nat, n: nat, e: DirEnt, ip: Inode)
    requires Directory(geo, d0, t0, dir, n) && EntOk(e) && HEADER + |e.name| <= geo.bs
    requires SameBytes(geo, d0, t0, d1, t0[dir := ip]) && Owned(geo, d, t0[dir := ip])
    requires Stored(geo, d1, d, t0[dir := ip], dir, n, FreshBlock(geo.bs, e))
    requires ip == t0[dir].(ptr := ip.ptr, sectors := ip.sectors)
    ensures var t := t0[dir := Longer(ip, geo.bs)];
      && Owned(geo, d, t) && Pointered(t0)
      && (t0[dir].lo + geo.bs < WORD ==> Added(geo, d0, t0, d, t, dir, n, n + 1, |Listing(geo, d0, t0, dir, n)|, e))
  {
    hide Owned, Directory, Added, Listing, SameBytes, Stored, FreshBlock;
    DirFacts(geo, d0, t0, dir, n);
    var t1 := t0[dir := ip];
    var t := t0[dir := Longer(ip, geo.bs)];
    assert t == t1[dir := Longer(ip, geo.bs)] && t1 == t0[dir := t1[dir]];
    SamePointers(geo, d, t1, t);
    if t0[dir].lo + geo.bs < WORD {
      AddedAtEnd(geo, d0, t0, d1, t1, d, t, dir, n, e);
    }
  }

  /** The tail of add: a new block at the end, all of it one record. */
  method Append(fs: Ext4, dir: nat, e: DirEnt, ghost n: nat) returns (rc: int)
    requires fs.Valid() && EntOk(e) && Directory(fs.vol.geo, fs.vol.disk, fs.inodes, dir, n)
    modifies fs.vol, fs`inodes
    ensures fs.Valid() && (rc == 0 || rc == -ENOSPC)
    ensures rc < 0 ==>
      fs.inodes == old(fs.inodes) && SameBytes(fs.vol.geo, old(fs.vol.disk), fs.inodes, fs.vol.disk, fs.inodes)
    ensures rc < 0 ==> NoneFree(fs.vol.geo, fs.vol.disk) || Locate(fs.vol.geo.bs / 4, n).Nowhere?
    ensures rc == 0 && old(fs.inodes)[dir].lo + fs.vol.geo.bs < WORD ==>
      && Pointered(old(fs.inodes))
      && Added(fs.vol.geo, old(fs.vol.disk), old(fs.inodes), fs.vol.disk, fs.inodes, dir, n, n + 1,
        |Listing(fs.vol.geo, old(fs.vol.disk), old(fs.inodes), dir, n)|, e)
  {
    hide Volume.Valid, Owned, MapBlock, Directory, Added, Listing, FileBlock, Grew, Locate, SameBytes, Stored,
      NoneFree, FreshBlock, Quot, Longer;
    ghost var d0, t0 := fs.vol.disk, fs.inodes;
    DirFacts(fs.vol.geo, d0, t0, dir, n);
    var ip, bs := fs.inodes[dir], fs.vol.geo.bs;
    GrewSelf(fs.vol.geo, d0, t0, dir);
    assert t0[dir := ip] == t0;
    var b, ip1 := fs.Resolve(dir, ip, Quot(ip.lo, bs), true);
    ghost var d1, t1 := fs.vol.disk, t0[dir := ip1];
    if b == 0 {
      ShrinkOwned(fs.vol.geo, fs.vol.disk, fs.inodes, dir, ip1);
      NothingLost(fs.vol.geo, d0, fs.vol.disk, fs.inodes, dir, ip1);
      return -ENOSPC;
    }
    FreshEnts(bs, e);
    OwnedPointered(fs.vol.geo, fs.vol.disk, t1);
    PutBlock(fs, t1, dir, n, b, FreshBlock(bs, e));
    AppendDone(fs.vol.geo, d0, t0, d1, fs.vol.disk, dir, n, e, ip1);
    fs.inodes := fs.inodes[dir := Longer(ip1, bs)];
    return 0;
  }

  /** `ext4_dir_add`: in an existing block if one has room, else in a new block at the end.  The 32-bit size is all
      that can go wrong with a successful add: it must not wrap. */
  method Add(fs: Ext4, dir: nat, e: DirEnt, ghost n: nat) returns (rc: int, ghost n': nat, ghost i: nat)
    requires fs.Valid() && dir in fs.inodes && EntOk(e) && BlockSize(fs.vol.geo.bs)
    requires 0x4000 <= fs.inodes[dir].mode % 0x1_0000 < 0x5000 ==>
      Directory(fs.vol.geo, fs.vol.disk, fs.inodes, dir, n)
    modifies fs.vol, fs`inodes
    ensures fs.Valid() && (rc == 0 || rc == -ENOSPC || rc == -ENOTDIR)
    ensures rc == -ENOTDIR <==> !(0x4000 <= old(fs.inodes)[dir].mode % 0x1_0000 < 0x5000)
    ensures rc < 0 ==>
      fs.inodes == old(fs.inodes) && SameBytes(fs.vol.geo, old(fs.vol.disk), fs.inodes, fs.vol.disk, fs.inodes)
    ensures rc == -ENOSPC ==> NoneFree(fs.vol.geo, fs.vol.disk) || Locate(fs.vol.geo.bs / 4, n).Nowhere?
    ensures rc == 0 ==>
      n' == n ||
      (n' == n + 1 && Pointered(old(fs.inodes)) &&
      NoRoom(Data(fs.vol.geo, old(fs.vol.disk), old(fs.inodes), dir, n), |e.name|))
    ensures rc == 0 && (n' == n || old(fs.inodes)[dir].lo + fs.vol.geo.bs < WORD) ==>
      Added(fs.vol.geo, old(fs.vol.disk), old(fs.inodes), fs.vol.disk, fs.inodes, dir, n, n', i, e)
  {
    hide Volume.Valid, Owned, Directory, Added, Listing, FileBlock, NoRoom, NoneFree, Locate, ByteIn;
    var ip := fs.inodes[dir];
    OwnedPointered(fs.vol.geo, fs.vol.disk, fs.inodes);
    n', i := n, 0;
    DirModes(ip.mode);
    if !IsDirMode(ip.mode) { return -ENOTDIR, n, 0; }
    var done;
    done, i := AddInside(fs, dir, e, n);
    if done { return 0, n, i; }
    i := |Listing(fs.vol.geo, fs.vol.disk, fs.inodes, dir, n)|;
    rc := Append(fs, dir, e, n);
    n' := if rc == 0 then n + 1 else n;
  }

  lemma DirFacts(geo: Geo, disk: Disk, t: Inodes, dir: nat, n: nat)
    requires Directory(geo, disk, t, dir, n)
    ensures Pointered(t) && dir in t && BlockSize(geo.bs) && Quot(t[dir].lo, geo.bs) == n
  {
    PosBounds(geo.bs, n, n);
  }

  // ---------------------------------------------------------------- removing

  ghost predicate DroppedEnt(geo: Geo, d0: Disk, t: Inodes, d: Disk, dir: nat, n: nat, i: nat, name: Name) {
    && Directory(geo, d0, t, dir, n) && Directory(geo, d, t, dir, n) && OthersSame(geo, d0, t, d, t, dir)
    && var es := Listing(geo, d0, t, dir, n);
    && i < |es| && es[i].name == name && Absent(es[..i], name) && Listing(geo, d, t, dir, n) == Removed(es, i)
  }

  ghost predicate SameEnts(geo: Geo, d0: Disk, t: Inodes, d: Disk, dir: nat, n: nat) {
    && Directory(geo, d0, t, dir, n) && Directory(geo, d, t, dir, n) && OthersSame(geo, d0, t, d, t, dir)
    && Listing(geo, d, t, dir, n) == Listing(geo, d0, t, dir, n)
  }

  lemma KeptHere(geo: Geo, d0: Disk, d: Disk, t: Inodes, dir: nat, n: nat, k: nat, blk: Block)
    requires Directory(geo, d0, t, dir, n) && k < n && Stored(geo, d0, d, t, dir, k, blk) && Tiled(blk, 0, |blk|)
    requires var was := FileBlock(geo, d0, t, dir, k); Ents(blk, 0, |blk|) == Ents(was, 0, |was|)
    ensures SameEnts(geo, d0, t, d, dir, n)
  {
    hide AllEnts, FileBlock, Ents, Tiled, LenAt, InoAt, Stored, OthersSame, Pos;
    StoredData(geo, d0, d, t, dir, k, blk, n);
    var data := Data(geo, d0, t, dir, n);
    EditedBlock(data, k, blk);
    Around(data, k);
    StoredSize(geo, d0, d, t, dir, k, blk);
    assert DirBlock(blk);
  }

  lemma DroppedHere(geo: Geo, d0: Disk, d: Disk, t: Inodes, dir: nat, n: nat, k: nat, blk: Block, i: nat, name: Name)
    requires Directory(geo, d0, t, dir, n) && k < n && Stored(geo, d0, d, t, dir, k, blk) && Tiled(blk, 0, |blk|)
    requires var was := FileBlock(geo, d0, t, dir, k); var es := Ents(was, 0, |was|);
      i < |es| && es[i].name == name && Absent(es[..i], name) && Ents(blk, 0, |blk|) == Removed(es, i)
    requires Absent(AllEnts(Data(geo, d0, t, dir, n)[..k]), name)
    ensures DroppedEnt(geo, d0, t, d, dir, n, |AllEnts(Data(geo, d0, t, dir, n)[..k])| + i, name)
  {
    hide AllEnts, FileBlock, Ents, Removed, Tiled, LenAt, InoAt, Stored, OthersSame, Pos;
    StoredData(geo, d0, d, t, dir, k, blk, n);
    var data := Data(geo, d0, t, dir, n);
    EditedBlock(data, k, blk);
    Around(data, k);
    StoredSize(geo, d0, d, t, dir, k, blk);
    var a, es, c := AllEnts(data[..k]), Ents(data[k], 0, |data[k]|), AllEnts(data[k + 1..]);
    RemovedMid(a, es, c, i);
    AbsentAppend(a, es[..i], name);
    assert (a + es + c)[..|a| + i] == a + es[..i];
    assert DirBlock(blk);
  }

  /** `ext4_dir_remove`: drops the first entry with that name. */
  method Remove(fs: Ext4, dir: nat, name: Name, ghost n: nat) returns (rc: int, ghost i: nat)
    requires fs.Valid() && dir in fs.inodes && BlockSize(fs.vol.geo.bs)
    requires 0x4000 <= fs.inodes[dir].mode % 0x1_0000 < 0x5000 ==>
      Directory(fs.vol.geo, fs.vol.disk, fs.inodes, dir, n)
    modifies fs.vol
    ensures fs.Valid() && Pointered(fs.inodes) && (rc == 0 || rc == -ENOENT || rc == -ENOTDIR)
    ensures rc == -ENOTDIR <==> !(0x4000 <= fs.inodes[dir].mode % 0x1_0000 < 0x5000)
    ensures rc < 0 ==> fs.vol.disk == old(fs.vol.disk)
    ensures rc == -ENOENT ==> Absent(Listing(fs.vol.geo, fs.vol.disk, fs.inodes, dir, n), name)
    ensures rc == 0 && name != [] ==>
      DroppedEnt(fs.vol.geo, old(fs.vol.disk), fs.inodes, fs.vol.disk, dir, n, i, name)
    ensures rc == 0 && name == [] ==> SameEnts(fs.vol.geo, old(fs.vol.disk), fs.inodes, fs.vol.disk, dir, n)
  {
    hide Volume.Valid, Owned, MapBlock, Ents, FileBlock, Quot, Pos, Tiled, LenAt, InoAt, AllEnts, DroppedEnt, Stored,
      Removed, SameEnts;
    OwnedPointered(fs.vol.geo, fs.vol.disk, fs.inodes);
    var ip, bs := fs.inodes[dir], fs.vol.geo.bs;
    i := 0;
    DirModes(ip.mode);
    if !IsDirMode(ip.mode) { return -ENOTDIR, 0; }
    var size, pos := ip.lo, 0;
    ghost var k, data := 0, Data(fs.vol.geo, fs.vol.disk, fs.inodes, dir, n);
    PosBounds(bs, 0, n);
    EmptyPrefix(data, name);
    while pos < size
      invariant fs.vol.disk == old(fs.vol.disk) && fs.vol.Valid()
      invariant 0 <= k <= n && pos == Pos(bs, k, 0) && Absent(AllEnts(data[..k]), name)
      decreases n - k
    {
      PosBounds(bs, k, n);
      Around(data, k);
      var fb := Quot(pos, bs);
      var b := Fetch(fs, dir, ip, fb);
      if b != 0 {
        var done, blk;
        ghost var at;
        done, blk, i, at := RemoveFrom(fs.vol.disk[b], name, pos, size);
        if done {
          PutBlock(fs, fs.inodes, dir, fb, b, blk);
          if name == [] {
            KeptHere(fs.vol.geo, old(fs.vol.disk), fs.vol.disk, fs.inodes, dir, n, k, blk);
          } else {
            DroppedHere(fs.vol.geo, old(fs.vol.disk), fs.vol.disk, fs.inodes, dir, n, k, blk, i, name);
          }
          return 0, |AllEnts(data[..k])| + i;
        }
      }
      AbsentAppend(AllEnts(data[..k]), Ents(data[k], 0, |data[k]|), name);
      pos := Pos(bs, fb + 1, 0);
      k := k + 1;
    }
    PosBounds(bs, k, n);
    assert data[..k] == data;
    return -ENOENT, 0;
  }

  // ---------------------------------------------------------------- the directory as a finite map

  /** After a successful add of a fresh name, that name finds its inode and every other name what it found before. */
  lemma AddedMap(geo: Geo, d0: Disk, t0: Inodes, d: Disk, t: Inodes, dir: nat, n: nat, n': nat, i: nat, e: DirEnt,
      x: Name)
    requires Added(geo, d0, t0, d, t, dir, n, n', i, e) && e.ino != 0 && Pointered(t0) && Pointered(t)
    requires Find(Listing(geo, d0, t0, dir, n), e.name) == 0
    ensures Find(Listing(geo, d, t, dir, n'), x) == if x == e.name then e.ino else Find(Listing(geo, d0, t0, dir, n), x)
    ensures Distinct(Listing(geo, d0, t0, dir, n)) ==> Distinct(Listing(geo, d, t, dir, n'))
  {
    hide Find, Distinct, Directory, OthersSame, Inserted, AllEnts;
    ListedInodes(Data(geo, d0, t0, dir, n));
    FindInserted(Listing(geo, d0, t0, dir, n), i, e, x);
    if Distinct(Listing(geo, d0, t0, dir, n)) { DistinctInserted(Listing(geo, d0, t0, dir, n), i, e); }
  }

  /** After a successful remove the name is gone and every other name finds what it found before. */
  lemma RemovedMap(geo: Geo, d0: Disk, t: Inodes, d: Disk, dir: nat, n: nat, i: nat, name: Name, x: Name)
    requires DroppedEnt(geo, d0, t, d, dir, n, i, name) && Pointered(t) && Distinct(Listing(geo, d0, t, dir, n))
    ensures Find(Listing(geo, d, t, dir, n), x) == if x == name then 0 else Find(Listing(geo, d0, t, dir, n), x)
    ensures Distinct(Listing(geo, d, t, dir, n))
  {
    hide Find, Distinct, Directory, OthersSame, Removed, AllEnts, Absent;
    ListedInodes(Data(geo, d0, t, dir, n));
    FindRemoved(Listing(geo, d0, t, dir, n), i, x);
  }
}
