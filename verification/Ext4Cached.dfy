/** The block layer of the ext4 driver on the block cache: blocks are slices of cached pages, and what the driver reads
    and writes through the cache is what it would read and write on a plain disk. */
module Ext4Cached {
  import opened Arith
  import opened Bytes
  import opened LruHash
  import opened Bcache
  import opened Ext4Bitmap
  import opened Ext4Map
  import opened Ext4File

  const EIO := 5

  // ---------------------------------------------------------------- blocks in pages

  function PageOf(bs: nat, b: nat): nat
    requires 0 < bs <= PAGE
  {
    Quot(b, PAGE / bs)
  }

  function OffsetOf(bs: nat, b: nat): nat
    requires 0 < bs <= PAGE
  {
    Rem(b, PAGE / bs) * bs
  }

  /** The pages of blocks 0 to n - 1 exist. */
  ghost predicate Pages(bs: nat, view: map<int, Block>, n: nat) {
    && bs in {1024, 2048, 4096} && n <= WORD
    && forall b: nat {:trigger PageOf(bs, b)} :: b < n ==>
         var p: int := PageOf(bs, b); p in view && |view[p]| == PAGE
  }

  lemma InPage(bs: nat, b: nat)
    requires bs in {1024, 2048, 4096}
    ensures OffsetOf(bs, b) + bs <= PAGE && PageOf(bs, b) <= b
  {
    var per := PAGE / bs;
    QuotRem(b, per);
    MulMono(Rem(b, per) + 1, per, bs);
    MulMono(1, per, Quot(b, per));
  }

  /** Blocks of one page lie apart. */
  lemma ApartInPage(bs: nat, b: nat, c: nat)
    requires bs in {1024, 2048, 4096} && b != c && PageOf(bs, b) == PageOf(bs, c)
    ensures OffsetOf(bs, b) + bs <= OffsetOf(bs, c) || OffsetOf(bs, c) + bs <= OffsetOf(bs, b)
  {
    var per := PAGE / bs;
    QuotRem(b, per);
    QuotRem(c, per);
    var i, j := Rem(b, per), Rem(c, per);
    if i < j { MulMono(i + 1, j, bs); } else { MulMono(j + 1, i, bs); }
  }

  ghost function BlockOf(bs: nat, view: map<int, Block>, n: nat, b: nat): (r: Block)
    requires Pages(bs, view, n) && b < n
    ensures |r| == bs
  {
    InPage(bs, b);
    view[PageOf(bs, b)][OffsetOf(bs, b)..OffsetOf(bs, b) + bs]
  }

  /** The plain disk a view stands for. */
  ghost function DiskOf(bs: nat, view: map<int, Block>, n: nat): (d: Disk)
    requires Pages(bs, view, n)
    ensures |d| == n && forall b :: 0 <= b < n ==> d[b] == BlockOf(bs, view, n, b)
  {
    seq(n, b requires 0 <= b < n => BlockOf(bs, view, n, b))
  }

  lemma SliceOf(s: Block, a: nat, n: nat, o: nat, l: nat)
    requires a + n <= |s| && o + l <= n
    ensures s[a..a + n][o..o + l] == s[a + o..a + o + l]
  {
    var t := s[a..a + n];
    var x, y := t[o..o + l], s[a + o..a + o + l];
    forall k | 0 <= k < l ensures x[k] == y[k] {
      assert x[k] == t[o + k] == s[a + (o + k)];
    }
  }

  ghost function Poked(bs: nat, view: map<int, Block>, n: nat, b: nat, off: nat, src: seq<Byte>): map<int, Block>
    requires Pages(bs, view, n) && b < n && off + |src| <= bs
  {
    InPage(bs, b);
    view[PageOf(bs, b) := Patch(view[PageOf(bs, b)], OffsetOf(bs, b) + off, src)]
  }

  /** Patching the page of a block patches that block of the disk and no other. */
  lemma PokedDisk(bs: nat, view: map<int, Block>, n: nat, b: nat, off: nat, src: seq<Byte>)
    requires Pages(bs, view, n) && b < n && off + |src| <= bs
    ensures Pages(bs, Poked(bs, view, n, b, off, src), n)
    ensures var d := DiskOf(bs, view, n);
      DiskOf(bs, Poked(bs, view, n, b, off, src), n) == d[b := Patch(d[b], off, src)]
  {
    hide Patch, PageOf, OffsetOf;
    var view', d := Poked(bs, view, n, b, off, src), DiskOf(bs, view, n);
    assert Pages(bs, view', n);
    forall c: nat | c < n
      ensures BlockOf(bs, view', n, c) == if c == b then Patch(d[b], off, src) else d[c]
    {
      PokedBlock(bs, view, n, b, off, src, c);
    }
  }

  lemma PokedBlock(bs: nat, view: map<int, Block>, n: nat, b: nat, off: nat, src: seq<Byte>, c: nat)
    requires Pages(bs, view, n) && b < n && c < n && off + |src| <= bs
    requires Pages(bs, Poked(bs, view, n, b, off, src), n)
    ensures BlockOf(bs, Poked(bs, view, n, b, off, src), n, c) ==
      if c == b then Patch(BlockOf(bs, view, n, b), off, src) else BlockOf(bs, view, n, c)
  {
    hide PageOf, OffsetOf, Patch, Pages, BlockOf;
    PageThere(bs, view, n, b);
    PageThere(bs, view, n, c);
    PageThere(bs, Poked(bs, view, n, b, off, src), n, c);
    var p, q: int := PageOf(bs, b), PageOf(bs, c);
    var i, j := OffsetOf(bs, b), OffsetOf(bs, c);
    if c == b {
      PatchPart(view[p], i, bs, off, src);
    } else if p == q {
      ApartInPage(bs, b, c);
      PatchAside(view[p], j, bs, i + off, src);
    }
  }

  lemma PageThere(bs: nat, view: map<int, Block>, n: nat, b: nat)
    requires Pages(bs, view, n) && b < n
    ensures bs in {1024, 2048, 4096} && var p: int := PageOf(bs, b);
      && p in view && |view[p]| == PAGE && OffsetOf(bs, b) + bs <= PAGE
      && BlockOf(bs, view, n, b) == view[p][OffsetOf(bs, b)..OffsetOf(bs, b) + bs]
  {
    InPage(bs, b);
  }

  lemma PatchAside(page: Block, a: nat, n: nat, at: nat, src: seq<Byte>)
    requires a + n <= |page| && at + |src| <= |page| && (at + |src| <= a || a + n <= at)
    ensures Patch(page, at, src)[a..a + n] == page[a..a + n]
  {
    var x := Patch(page, at, src);
    var y, z := x[a..a + n], page[a..a + n];
    forall k | 0 <= k < n ensures y[k] == z[k] {
      assert y[k] == x[a + k] == page[a + k];
    }
  }

  /** Patching a part of a page patches the block there. */
  lemma PatchPart(page: Block, a: nat, n: nat, off: nat, src: seq<Byte>)
    requires a + n <= |page| && off + |src| <= n
    ensures Patch(page, a + off, src)[a..a + n] == Patch(page[a..a + n], off, src)
  {
    var x, y := Patch(page, a + off, src), Patch(page[a..a + n], off, src);
    var z := x[a..a + n];
    forall k | 0 <= k < n ensures z[k] == y[k] {
      assert z[k] == x[a + k] && page[a..a + n][k] == page[a + k];
    }
  }

  // ---------------------------------------------------------------- one block through the cache

  /** Get the page, copy from the block, put the page back. */
  method Fetch(bc: BufferCache, bs: nat, ghost n: nat, b: nat, off: nat, len: nat, io: bool)
    returns (ok: bool, out: seq<Byte>)
    requires bc.Valid() && Pages(bs, bc.view, n) && b < n && off + len <= bs
    modifies bc, bc.ix
    ensures bc.Valid() && bc.view == old(bc.view) && bc.refs == old(bc.refs)
    ensures ok ==> out == DiskOf(bs, bc.view, n)[b][off..off + len]
    ensures io && !AllHeld(old(bc.refs)) ==> ok
  {
    hide LruOk, ChainOk, Agrees, AllHeld, PageOf, OffsetOf, Kept;
    InPage(bs, b);
    AgreeFacts(bc.ix.key, bc.data, bc.dirty, bc.disk, bc.view);
    ghost var d, page: int := DiskOf(bs, bc.view, n), PageOf(bs, b);
    assert page in bc.view;
    var be := bc.Get(PageOf(bs, b), io);
    AgreeFacts(bc.ix.key, bc.data, bc.dirty, bc.disk, bc.view);
    if be == NIL { return false, []; }
    var at := OffsetOf(bs, b) + off;
    out := bc.data[be][at..at + len];
    SliceOf(bc.data[be], OffsetOf(bs, b), bs, off, len);
    assert out == d[b][off..off + len];
    bc.Put(be);
    ok := true;
  }

  /** Get the page, copy into the block, mark it dirty, put the page back. */
  method Store(bc: BufferCache, bs: nat, ghost n: nat, b: nat, off: nat, src: seq<Byte>, io: bool) returns (ok: bool)
    requires bc.Valid() && Pages(bs, bc.view, n) && b < n && off + |src| <= bs
    modifies bc, bc.ix
    ensures bc.Valid() && Pages(bs, bc.view, n) && bc.refs == old(bc.refs)
    ensures ok ==> var d := DiskOf(bs, old(bc.view), n); DiskOf(bs, bc.view, n) == d[b := Patch(d[b], off, src)]
    ensures !ok ==> bc.view == old(bc.view)
    ensures io && !AllHeld(old(bc.refs)) ==> ok
  {
    hide LruOk, ChainOk, Agrees, AllHeld, PageOf, OffsetOf, Kept, Patch;
    InPage(bs, b);
    AgreeFacts(bc.ix.key, bc.data, bc.dirty, bc.disk, bc.view);
    PokedDisk(bs, bc.view, n, b, off, src);
    ghost var page: int := PageOf(bs, b);
    assert page in bc.view;
    var be := bc.Get(PageOf(bs, b), io);
    AgreeFacts(bc.ix.key, bc.data, bc.dirty, bc.disk, bc.view);
    if be == NIL { return false; }
    bc.Store(be, Patch(bc.data[be], OffsetOf(bs, b) + off, src));
    bc.Put(be);
    ok := true;
  }

  // ---------------------------------------------------------------- files through the cache

  /** `read_indirect_ptr`: an index block that cannot be read looks empty. */
  method FetchPtr(bc: BufferCache, bs: nat, ghost n: nat, b: nat, i: nat, io: bool) returns (p: nat)
    requires bc.Valid() && Pages(bs, bc.view, n) && 0 < b < n && i < bs / 4
    modifies bc, bc.ix
    ensures bc.Valid() && bc.view == old(bc.view) && bc.refs == old(bc.refs)
    ensures p == 0 || p == Entry(DiskOf(bs, bc.view, n), b, i)
    ensures io && !AllHeld(old(bc.refs)) ==> p == Entry(DiskOf(bs, bc.view, n), b, i)
  {
    hide DiskOf, AllHeld, Pages;
    var ok, word := Fetch(bc, bs, n, b, 4 * i, 4, io);
    ghost var blk := DiskOf(bs, bc.view, n)[b];
    p := 0;
    if ok {
      p := ReadPtr(word, 0);
      assert forall k :: 0 <= k < 4 ==> word[k] == blk[4 * i + k];
    }
  }

  /** `resolve_block` without allocation. */
  method FindBlock(bc: BufferCache, geo: Geo, ghost n: nat, ghost t: Inodes, ghost ino: nat, ip: Inode, fb: nat,
      io: bool) returns (b: nat)
    requires bc.Valid() && Pages(geo.bs, bc.view, n) && Owned(geo, DiskOf(geo.bs, bc.view, n), t)
    requires ino in t && t[ino] == ip && |ip.ptr| == NPTR
    modifies bc, bc.ix
    ensures bc.Valid() && bc.view == old(bc.view) && bc.refs == old(bc.refs)
    ensures b == 0 || b == MapBlock(geo.bs / 4, DiskOf(geo.bs, bc.view, n), ip, fb)
    ensures io && !AllHeld(old(bc.refs)) ==> b == MapBlock(geo.bs / 4, DiskOf(geo.bs, bc.view, n), ip, fb)
  {
    hide DiskOf, AllHeld, Owned, Entry, BufferCache.Valid;
    ghost var d := DiskOf(geo.bs, bc.view, n);
    var bs, apb := geo.bs, geo.bs / 4;
    LocateOk(apb, fb);
    if fb < NDIR { return ip.ptr[fb]; }
    if fb - NDIR < apb {
      NoEntry(d, fb - NDIR);
      if ip.ptr[IND] == 0 { return 0; }
      NamedBlock(geo, d, t, Place(ino, Single));
      b := FetchPtr(bc, bs, n, ip.ptr[IND], fb - NDIR, io);
      return;
    }
    var k := fb - NDIR - apb;
    if k < apb * apb {
      NoEntry(d, Quot(k, apb));
      NoEntry(d, Rem(k, apb));
      if ip.ptr[DIND] == 0 { return 0; }
      NamedBlock(geo, d, t, Place(ino, Double));
      var mid := FetchPtr(bc, bs, n, ip.ptr[DIND], Quot(k, apb), io);
      if mid == 0 { return 0; }
      NamedBlock(geo, d, t, Place(ino, Mid(Quot(k, apb))));
      b := FetchPtr(bc, bs, n, mid, Rem(k, apb), io);
      return;
    }
    return 0;
  }

  lemma NamedBlock(geo: Geo, d: Disk, t: Inodes, p: Place)
    requires Owned(geo, d, t) && PlaceOk(geo.bs / 4, t, p)
    ensures Pointered(t) && (PtrAt(d, t, p) != 0 ==> PtrAt(d, t, p) < |d|)
  {
    hide PtrAt, Used, IsBitmap;
    OwnedPointered(geo, d, t);
    if PtrAt(d, t, p) != 0 { NamedOwnable(geo, d, t, p); }
  }

  /** One round of the read loop. */
  method FetchChunk(bc: BufferCache, geo: Geo, ghost n: nat, ghost t: Inodes, ghost ino: nat, ip: Inode, pos: nat,
      left: nat, io: bool) returns (ok: bool, part: seq<Byte>)
    requires bc.Valid() && Pages(geo.bs, bc.view, n) && Owned(geo, DiskOf(geo.bs, bc.view, n), t)
    requires ino in t && t[ino] == ip && |ip.ptr| == NPTR && left > 0
    modifies bc, bc.ix
    ensures bc.Valid() && bc.view == old(bc.view) && bc.refs == old(bc.refs) && Pointered(t)
    ensures io && !AllHeld(old(bc.refs)) ==> ok
    ensures ok ==> 0 < |part| <= left
    ensures io && !AllHeld(old(bc.refs)) ==> forall i :: 0 <= i < |part| ==>
      part[i] == FileByte(geo, DiskOf(geo.bs, bc.view, n), t, ino, Folded(geo.bs, pos + i))
  {
    hide DiskOf, AllHeld, Owned, BufferCache.Valid, MapBlock, Pos, Quot, Rem, ByteIn, Folded;
    ghost var d := DiskOf(geo.bs, bc.view, n);
    OwnedPointered(geo, d, t);
    var bs, at := geo.bs, Rem(pos, DWORD);
    var fb, off := Rem(Quot(at, bs), WORD), Rem(at, bs);
    FoldedParts(bs, pos);
    PosOf(bs, Folded(bs, pos));
    var chunk := if bs - off > left then left else bs - off;
    var b := FindBlock(bc, geo, n, t, ino, ip, fb, io);
    MappedSize(geo, d, t, ino, fb);
    if b == 0 {
      ok, part := true, seq(chunk, _ => 0);
    } else {
      ok, part := Fetch(bc, bs, n, b, off, chunk, io);
    }
    if ok && io && !AllHeld(old(bc.refs)) {
      forall i | 0 <= i < |part| ensures part[i] == FileByte(geo, d, t, ino, Folded(bs, pos + i)) {
        FoldedBlock(bs, pos, i);
        ChunkByte(geo, d, t, ino, fb, off + i);
      }
    }
  }

  /** `ext4_read` through the cache: unless the device fails or every entry is held, it returns what the plain disk
      behind the view holds, and it changes nothing a reader can see. */
  method Read(bc: BufferCache, geo: Geo, ghost n: nat, ghost t: Inodes, ghost ino: nat, ip: Inode, rev: nat,
      offset: nat, len: nat, io: bool) returns (r: int, out: seq<Byte>)
    requires bc.Valid() && Pages(geo.bs, bc.view, n) && Owned(geo, DiskOf(geo.bs, bc.view, n), t)
    requires ino in t && t[ino] == ip && offset < DWORD && len < DWORD
    modifies bc, bc.ix
    ensures bc.Valid() && bc.view == old(bc.view) && bc.refs == old(bc.refs) && Pointered(t)
    ensures io && !AllHeld(old(bc.refs)) ==> r == Int32(|out|) && |out| == ReadLen(FileSize(ip, rev), offset, len)
    ensures io && !AllHeld(old(bc.refs)) ==> forall i :: 0 <= i < |out| ==>
      out[i] == FileByte(geo, DiskOf(geo.bs, bc.view, n), t, ino, Folded(geo.bs, offset + i))
    ensures r == Int32(|out|) || r == -EIO
  {
    hide DiskOf, AllHeld, Owned, BufferCache.Valid, FileByte, Folded, Rem, Pages;
    GrewSelf(geo, DiskOf(geo.bs, bc.view, n), t, ino);
    OwnedPointered(geo, DiskOf(geo.bs, bc.view, n), t);
    var size, want := FileSize(ip, rev), len;
    out := [];
    if offset < size {
      if Rem(offset + want, DWORD) > size { want := size - offset; }
      while |out| < want
        invariant |out| <= want && bc.Valid() && bc.view == old(bc.view) && bc.refs == old(bc.refs)
        invariant io && !AllHeld(bc.refs) ==> forall i :: 0 <= i < |out| ==>
          out[i] == FileByte(geo, DiskOf(geo.bs, bc.view, n), t, ino, Folded(geo.bs, offset + i))
      {
        var ok, part := FetchChunk(bc, geo, n, t, ino, ip, offset + |out|, want - |out|, io);
        if !ok { return -EIO, out; }
        out := out + part;
      }
    }
    r := Int32(|out|);
  }

  /** All `n` bytes of the file from `from` on have blocks. */
  ghost predicate Mapped(geo: Geo, d: Disk, t: Inodes, ino: nat, from: nat, n: nat) {
    && Pointered(t) && ino in t && geo.bs > 0 && from + n < Limit(geo.bs)
    && forall pos: nat {:trigger Quot(pos, geo.bs)} :: from <= pos < from + n ==>
         MapBlock(geo.bs / 4, d, t[ino], Quot(pos, geo.bs)) != 0
  }

  lemma MappedNow(geo: Geo, d0: Disk, t: Inodes, d: Disk, ino: nat, from: nat, n: nat, src: seq<Byte>, pos: nat)
    requires Mapped(geo, d0, t, ino, from, n) && from <= pos < from + n
    requires Wrote(geo, d0, t, d, t, ino, from, src)
    ensures var fb := Quot(pos, geo.bs); MapBlock(geo.bs / 4, d, t[ino], fb) != 0 && Locate(geo.bs / 4, fb).At?
  {
    hide PtrAt;
    var fb := Quot(pos, geo.bs);
    MappedLocated(geo, d0, t[ino], fb);
    LocateOk(geo.bs / 4, fb);
    PtrAtSlot(geo, d0, t, ino, fb);
    PtrAtSlot(geo, d, t, ino, fb);
  }

  /** One round of the write loop, in a block the file has. */
  method StoreChunk(bc: BufferCache, geo: Geo, ghost n: nat, ghost t: Inodes, ghost ino: nat, ip: Inode, buf: seq<Byte>,
      offset: nat, done: nat, ghost d0: Disk) returns (done': nat)
    requires bc.Valid() && Pages(geo.bs, bc.view, n) && Owned(geo, DiskOf(geo.bs, bc.view, n), t) && !AllHeld(bc.refs)
    requires ino in t && t[ino] == ip && |ip.ptr| == NPTR && done < |buf| && geo.bs > 0
    requires Mapped(geo, d0, t, ino, Folded(geo.bs, offset), |buf|)
    requires Wrote(geo, d0, t, DiskOf(geo.bs, bc.view, n), t, ino, Folded(geo.bs, offset), buf[..done])
    modifies bc, bc.ix
    ensures bc.Valid() && Pages(geo.bs, bc.view, n) && bc.refs == old(bc.refs) && done < done' <= |buf|
    ensures Owned(geo, DiskOf(geo.bs, bc.view, n), t)
    ensures Wrote(geo, d0, t, DiskOf(geo.bs, bc.view, n), t, ino, Folded(geo.bs, offset), buf[..done'])
  {
    hide DiskOf, AllHeld, Owned, BufferCache.Valid, MapBlock, Pos, Quot, Rem, Folded, Wrote, Limit, Locate, Patch;
    ghost var d := DiskOf(geo.bs, bc.view, n);
    var bs, pos := geo.bs, Rem(offset + done, DWORD);
    var fb, off := Rem(Quot(pos, bs), WORD), Rem(pos, bs);
    ghost var from := Folded(bs, offset);
    FoldedAt(bs, offset, done);
    PosOf(bs, from + done);
    var chunk := if bs - off > |buf| - done then |buf| - done else bs - off;
    done' := done + chunk;
    var b := FindBlock(bc, geo, n, t, ino, ip, fb, true);
    MappedNow(geo, d0, t, d, ino, from, |buf|, buf[..done], from + done);
    MappedSize(geo, d, t, ino, fb);
    var _ := Store(bc, bs, n, b, off, buf[done..done'], true);
    BlockStored(geo, d, t, ino, fb, Patch(d[b], off, buf[done..done']));
    WroteChunk(geo, d0, t, d, t, ino, from, buf[..done], fb, off, buf[done..done']);
    assert buf[..done] + buf[done..done'] == buf[..done'];
  }

  lemma BlockStored(geo: Geo, d: Disk, t: Inodes, ino: nat, fb: nat, blk: Block)
    requires Owned(geo, d, t) && ino in t && Locate(geo.bs / 4, fb).At? && |blk| == geo.bs && |t[ino].ptr| == NPTR
    requires 0 < MapBlock(geo.bs / 4, d, t[ino], fb) < |d|
    ensures Owned(geo, d[MapBlock(geo.bs / 4, d, t[ino], fb) := blk], t)
  {
    hide Owned, PtrAt, MapBlock;
    OwnedPointered(geo, d, t);
    ByteAtSlot(geo, d, t, ino, fb, 0);
    PtrAtSlot(geo, d, t, ino, fb);
    StoreOwned(geo, d, t, Place(ino, Locate(geo.bs / 4, fb).slot), blk);
  }

  /** `ext4_write` through the cache into blocks the file has: the plain disk behind the view changes as by a plain
      write. */
  method Overwrite(bc: BufferCache, geo: Geo, ghost n: nat, ghost t: Inodes, ghost ino: nat, ip: Inode, buf: seq<Byte>,
      offset: nat) returns (r: int)
    requires bc.Valid() && Pages(geo.bs, bc.view, n) && Owned(geo, DiskOf(geo.bs, bc.view, n), t) && !AllHeld(bc.refs)
    requires ino in t && t[ino] == ip && geo.bs > 0
    requires Mapped(geo, DiskOf(geo.bs, bc.view, n), t, ino, Folded(geo.bs, offset), |buf|)
    modifies bc, bc.ix
    ensures bc.Valid() && Pages(geo.bs, bc.view, n) && bc.refs == old(bc.refs) && r == Int32(|buf|)
    ensures Owned(geo, DiskOf(geo.bs, bc.view, n), t)
    ensures Wrote(geo, DiskOf(geo.bs, old(bc.view), n), t, DiskOf(geo.bs, bc.view, n), t, ino, Folded(geo.bs, offset),
      buf)
  {
    hide DiskOf, AllHeld, Owned, BufferCache.Valid, Folded, Wrote, Pages, Mapped;
    ghost var d0 := DiskOf(geo.bs, bc.view, n);
    GrewSelf(geo, d0, t, ino);
    WroteNothing(geo, d0, t, ino, Folded(geo.bs, offset));
    var done := 0;
    assert buf[..0] == [];
    while done < |buf|
      invariant 0 <= done <= |buf| && bc.Valid() && Pages(geo.bs, bc.view, n) && bc.refs == old(bc.refs)
      invariant Owned(geo, DiskOf(geo.bs, bc.view, n), t)
      invariant Wrote(geo, d0, t, DiskOf(geo.bs, bc.view, n), t, ino, Folded(geo.bs, offset), buf[..done])
    {
      done := StoreChunk(bc, geo, n, t, ino, ip, buf, offset, done, d0);
    }
    assert buf[..done] == buf;
    r := Int32(|buf|);
  }
}
