/** The mounted volume: blocks, free counters, and the block allocator working on the bitmap blocks. */
module Ext4Volume {
  import opened Arith
  import opened Bytes
  import opened Ext4Bitmap

  /** The bits of `bits` in [from, to) are all set. */
  ghost predicate AllSet(bits: Block, to: nat)
    requires to <= 8 * |bits|
  {
    forall j :: 0 <= j < to ==> BitOf(bits, j)
  }

  /** The byte and bit loops over one bitmap block: the first clear bit below `maxBit`. */
  method FirstClear(bits: Block, maxBit: nat) returns (found: bool, i: nat)
    requires maxBit % 8 == 0 && maxBit <= 8 * |bits|
    ensures found ==> i < maxBit && !BitOf(bits, i) && AllSet(bits, i)
    ensures !found ==> AllSet(bits, maxBit)
  {
    for byte := 0 to maxBit / 8
      invariant AllSet(bits, 8 * byte)
    {
      if bits[byte] == 0xFF {
        forall j | 8 * byte <= j < 8 * byte + 8 ensures BitOf(bits, j) {
          assert j / 8 == byte && j % 8 == j - 8 * byte;
          assert Pow2(8) == 256 by { assert Pow2(4) == 16; }
          FullByte(0xFF, 8, j % 8);
        }
        continue;
      }
      for bit := 0 to 8
        invariant AllSet(bits, 8 * byte + bit)
      {
        assert (8 * byte + bit) / 8 == byte && (8 * byte + bit) % 8 == bit;
        if !Bit(bits[byte], bit) {
          return true, 8 * byte + bit;
        }
      }
    }
    return false, 0;
  }

  class Volume {
    const geo: Geo
    var disk: Disk
    var bgFree: seq<nat>
    var sFree: nat

    ghost predicate Valid()
      reads this
    {
      Counted(geo, disk, bgFree, sFree) && Reserved(geo, disk)
    }

    /** `write_block` for a block without bitmap bits. */
    method WriteBlock(b: nat, blk: Block)
      requires Valid() && b < |disk| && !IsBitmap(geo, b) && |blk| == geo.bs
      modifies this`disk
      ensures Valid() && disk == old(disk)[b := blk]
    {
      hide UsedAt, IsBitmap, Clear, Sum;
      DataWrite(geo, disk, b, blk);
      SameBits(geo, disk, disk[b := blk], bgFree, sFree);
      disk := disk[b := blk];
    }

    /** The bitmap blocks of group `g`, one after the other. */
    method FindInGroup(g: nat) returns (found: bool, i: nat)
      requires Valid() && g < |geo.bitmap|
      ensures found ==> i < geo.bpg && !UsedAt(geo, disk, g, i) && GroupSet(geo, disk, g, i)
      ensures !found ==> GroupSet(geo, disk, g, geo.bpg)
    {
      hide BitOf, UsedAt, GroupSet, Clear, Apart, Sum;
      var n := 8 * geo.bs;
      var boff := 0;
      ghost var k := 0;
      GroupSetNone(geo, disk, g);
      while boff < geo.bpg
        invariant boff == k * n && k >= 0
        invariant GroupSet(geo, disk, g, if boff < geo.bpg then boff else geo.bpg)
        decreases geo.bpg - boff
      {
        var blk := geo.bitmap[g] + boff / n;
        HomeOf(geo, g, k);
        var maxBit := if geo.bpg - boff > n then n else geo.bpg - boff;
        MultipleOf8(k, geo.bs, geo.bpg);
        var hit, at := FirstClear(disk[blk], maxBit);
        ExtendSet(geo, disk, g, k, if hit then at else maxBit);
        if hit {
          HomeBit(geo, disk, g, k, at);
          return true, boff + at;
        }
        boff := boff + n;
        k := k + 1;
      }
      return false, 0;
    }

    /** Set the found bit, lower both counters and zero the new block. */
    method Take(g: nat, i: nat)
      requires Valid() && g < |geo.bitmap| && i < geo.bpg && !UsedAt(geo, disk, g, i) && GroupSet(geo, disk, g, i)
      requires forall h :: 0 <= h < g ==> GroupSet(geo, disk, h, geo.bpg)
      modifies this
      ensures Valid() && |disk| == |old(disk)| && sFree == old(sFree) - 1
      ensures Allocated(geo, old(disk), disk, geo.BlockNr(g, i)) && geo.BlockNr(g, i) != 0
    {
      hide Counted, Reserved, Formatted, GroupSet, UsedAt, Apart, Used, Allocated, WithBit;
      TakeDone(geo, disk, bgFree, sFree, g, i);
      var blk := geo.bitmap[g] + i / (8 * geo.bs);
      disk := disk[blk := WithBit(disk[blk], i % (8 * geo.bs), true)];
      bgFree := bgFree[g := bgFree[g] - 1];
      sFree := sFree - 1;
      disk := disk[geo.BlockNr(g, i) := Zeros(geo.bs)];
    }

    /** `ext4_block_alloc`: the lowest unused block, marked used and zeroed, or 0 when no bit is clear. */
    method Alloc() returns (nr: nat)
      requires Valid()
      modifies this
      ensures Valid() && |disk| == |old(disk)|
      ensures nr == 0 ==> disk == old(disk) && bgFree == old(bgFree) && sFree == old(sFree) && NoneFree(geo, disk)
      ensures nr != 0 ==> Allocated(geo, old(disk), disk, nr) && sFree == old(sFree) - 1
    {
      hide Counted, Reserved, Formatted, GroupSet, UsedAt, Apart, Used;
      if sFree == 0 {
        NothingFree(geo, disk, bgFree, sFree);
        return 0;
      }
      var g := 0;
      CountedFacts(geo, disk, bgFree, sFree);
      while g < |geo.bitmap|
        invariant 0 <= g <= |geo.bitmap| && Formatted(geo, disk) && Valid() && |bgFree| == |geo.bitmap|
        invariant disk == old(disk) && bgFree == old(bgFree) && sFree == old(sFree)
        invariant forall h :: 0 <= h < g ==> GroupSet(geo, disk, h, geo.bpg)
      {
        if bgFree[g] != 0 {
          var found, i := FindInGroup(g);
          if found {
            nr := geo.BlockNr(g, i);
            Take(g, i);
            return;
          }
        } else {
          GroupFull(geo, disk, bgFree, sFree, g);
        }
        g := g + 1;
      }
      GroupsFull(geo, disk);
      return 0;
    }

    /** `ext4_block_free`: clear the bit of a block and raise both counters.  Block 0 and blocks outside every group
        are ignored.  The volume stays valid exactly if the block was in use and is one that may be given back. */
    method Free(b: nat)
      requires Valid()
      modifies this
      ensures Formatted(geo, old(disk)) && |disk| == |old(disk)|
      ensures b == 0 || !geo.Covers(b) ==> Valid() && disk == old(disk) && bgFree == old(bgFree) && sFree == old(sFree)
      ensures b != 0 && geo.Covers(b) ==> Cleared(geo, old(disk), disk, b) && sFree == old(sFree) + 1
      ensures b != 0 && geo.Covers(b) ==> (Valid() <==> Returnable(geo, old(disk), b))
      ensures b != 0 && geo.Covers(b) && Used(geo, old(disk), b) ==> Freed(geo, old(disk), disk, b)
    {
      CountedFacts(geo, disk, bgFree, sFree);
      hide Counted, Reserved, Formatted, UsedAt, Apart, Used, Freed, Cleared, WithBit, IsBitmap;
      if b == 0 || b < geo.first || geo.bpg == 0 { return; }
      var g, i := (b - geo.first) / geo.bpg, (b - geo.first) % geo.bpg;
      if g >= |geo.bitmap| { return; }
      FreeDone(geo, disk, bgFree, sFree, b);
      var blk := geo.bitmap[g] + i / (8 * geo.bs);
      disk := disk[blk := WithBit(disk[blk], i % (8 * geo.bs), false)];
      bgFree := bgFree[g := bgFree[g] + 1];
      sFree := sFree + 1;
    }
  }

  ghost predicate GroupSet(geo: Geo, disk: Disk, g: nat, to: nat)
    requires Formatted(geo, disk) && g < |geo.bitmap| && to <= geo.bpg
  {
    forall j :: 0 <= j < to ==> UsedAt(geo, disk, g, j)
  }

  lemma GroupSetNone(geo: Geo, disk: Disk, g: nat)
    requires Formatted(geo, disk) && g < |geo.bitmap|
    ensures GroupSet(geo, disk, g, 0)
  {
  }

  lemma HomeOf(geo: Geo, g: nat, k: nat)
    requires geo.bs > 0 && g < |geo.bitmap|
    ensures k * (8 * geo.bs) >= 0 && geo.Home(g, k * (8 * geo.bs)) == geo.bitmap[g] + k * (8 * geo.bs) / (8 * geo.bs)
  {
    assert k * (8 * geo.bs) == 8 * (k * geo.bs);
  }

  /** Bit `j` of the k-th bitmap block of a group is the group's bit k*8*bs + j. */
  lemma HomeBit(geo: Geo, disk: Disk, g: nat, k: nat, j: nat)
    requires Formatted(geo, disk) && g < |geo.bitmap| && j < 8 * geo.bs && k * (8 * geo.bs) + j < geo.bpg
    ensures UsedAt(geo, disk, g, k * (8 * geo.bs) + j) == BitOf(disk[geo.Home(g, k * (8 * geo.bs))], j)
  {
    DivMod(k, 8 * geo.bs, j);
    DivMod(k, 8 * geo.bs, 0);
    hide BitOf;
  }

  lemma ExtendSet(geo: Geo, disk: Disk, g: nat, k: nat, at: nat)
    requires Formatted(geo, disk) && g < |geo.bitmap| && k * (8 * geo.bs) < geo.bpg
    requires GroupSet(geo, disk, g, k * (8 * geo.bs))
    requires at <= 8 * geo.bs && k * (8 * geo.bs) + at <= geo.bpg && AllSet(disk[geo.Home(g, k * (8 * geo.bs))], at)
    ensures GroupSet(geo, disk, g, k * (8 * geo.bs) + at)
  {
    hide BitOf, UsedAt;
    var base := k * (8 * geo.bs);
    forall j | 0 <= j < base + at ensures UsedAt(geo, disk, g, j) {
      if j >= base { HomeBit(geo, disk, g, k, j - base); assert j == base + (j - base); }
    }
  }

  lemma MultipleOf8(k: nat, bs: nat, bpg: nat)
    requires bpg % 8 == 0
    ensures (bpg - k * (8 * bs)) % 8 == 0 && (8 * bs) % 8 == 0
  {
    assert k * (8 * bs) == 8 * (k * bs);
  }

  // ---------------------------------------------------------------- what allocation means

  /** Block 0 and the bitmap blocks are never free, and every free block exists. */
  ghost predicate Reserved(geo: Geo, disk: Disk) {
    && Formatted(geo, disk) && (geo.Covers(0) ==> Used(geo, disk, 0))
    && forall b: nat {:trigger Used(geo, disk, b)} :: geo.Covers(b) && !Used(geo, disk, b) ==>
      b < |disk| && !IsBitmap(geo, b)
  }

  ghost predicate NoneFree(geo: Geo, disk: Disk) {
    Formatted(geo, disk) && forall b: nat :: geo.Covers(b) ==> Used(geo, disk, b)
  }

  function Zeros(n: nat): Block { seq(n, _ => 0) }

  /** Blocks other than `b` and the bitmap blocks are untouched. */
  ghost predicate SameBut(geo: Geo, disk: Disk, disk': Disk, b: nat) {
    |disk'| == |disk| && forall c {:trigger disk'[c]} :: 0 <= c < |disk| && c != b && !IsBitmap(geo, c) ==>
      disk'[c] == disk[c]
  }

  /** `nr` is the lowest block that was free; it is now used, zeroed, and nothing else changed. */
  ghost predicate Allocated(geo: Geo, disk: Disk, disk': Disk, nr: nat) {
    && Formatted(geo, disk) && Formatted(geo, disk') && nr != 0 && geo.Covers(nr) && nr < |disk| && !IsBitmap(geo, nr)
    && !Used(geo, disk, nr) && (forall b: nat :: geo.Covers(b) && b < nr ==> Used(geo, disk, b))
    && (forall b: nat {:trigger Used(geo, disk', b)} :: geo.Covers(b) ==>
      (Used(geo, disk', b) <==> b == nr || Used(geo, disk, b)))
    && SameBut(geo, disk, disk', nr) && disk'[nr] == Zeros(geo.bs)
  }

  /** Writing a block that holds no bitmap bits changes no bit. */
  lemma DataWrite(geo: Geo, disk: Disk, b: nat, blk: Block)
    requires Formatted(geo, disk) && b < |disk| && !IsBitmap(geo, b) && |blk| == geo.bs
    ensures Formatted(geo, disk[b := blk])
    ensures forall g, i {:trigger UsedAt(geo, disk[b := blk], g, i)} :: 0 <= g < |geo.bitmap| && 0 <= i < geo.bpg ==>
      UsedAt(geo, disk[b := blk], g, i) == UsedAt(geo, disk, g, i)
  {
    hide BitOf;
    var disk' := disk[b := blk];
    forall g, i | 0 <= g < |geo.bitmap| &&
      0 <= i < geo.bpg ensures UsedAt(geo, disk', g, i) == UsedAt(geo, disk, g, i) {
      assert geo.Home(g, i) != b;
    }
  }

  lemma SameBits(geo: Geo, disk: Disk, disk': Disk, bgFree: seq<nat>, sFree: nat)
    requires Counted(geo, disk, bgFree, sFree) && Reserved(geo, disk) && Formatted(geo, disk') && |disk'| == |disk|
    requires forall g, i {:trigger UsedAt(geo, disk', g, i)} :: 0 <= g < |geo.bitmap| && 0 <= i < geo.bpg ==>
      UsedAt(geo, disk', g, i) == UsedAt(geo, disk, g, i)
    ensures Counted(geo, disk', bgFree, sFree) && Reserved(geo, disk')
    ensures forall b: nat {:trigger Used(geo, disk', b)} :: geo.Covers(b) ==> Used(geo, disk', b) == Used(geo, disk, b)
  {
    hide UsedAt;
    forall b: nat | geo.Covers(b) ensures Used(geo, disk', b) == Used(geo, disk, b) { CoversParts(geo, b); }
    forall g | 0 <= g < |geo.bitmap|
      ensures bgFree[g] == Clear(geo, disk', g, geo.bpg)
    {
      ClearSame(geo, disk, disk', g, geo.bpg);
    }
  }

  lemma CountedFacts(geo: Geo, disk: Disk, bgFree: seq<nat>, sFree: nat)
    requires Counted(geo, disk, bgFree, sFree)
    ensures Formatted(geo, disk) && |bgFree| == |geo.bitmap|
  {
  }

  /** Blocks below the found one are used: they are in an earlier group or earlier in the same group. */
  lemma LowerUsed(geo: Geo, disk: Disk, g: nat, i: nat, b: nat)
    requires Formatted(geo, disk) && g < |geo.bitmap| && i < geo.bpg && GroupSet(geo, disk, g, i)
    requires forall h :: 0 <= h < g ==> GroupSet(geo, disk, h, geo.bpg)
    requires geo.Covers(b) && b < geo.BlockNr(g, i)
    ensures Used(geo, disk, b)
  {
    hide UsedAt;
    CoversParts(geo, b);
    var h := geo.Group(b);
    if h > g { MulMono(g + 1, h, geo.bpg); }
    if h < g { assert GroupSet(geo, disk, h, geo.bpg); }
  }

  lemma TakeDone(geo: Geo, disk: Disk, bgFree: seq<nat>, sFree: nat, g: nat, i: nat)
    requires Counted(geo, disk, bgFree, sFree) && Reserved(geo, disk) && g < |geo.bitmap| && i < geo.bpg
    requires !UsedAt(geo, disk, g, i)
    requires GroupSet(geo, disk, g, i) && forall h :: 0 <= h < g ==> GroupSet(geo, disk, h, geo.bpg)
    ensures |bgFree| == |geo.bitmap| && bgFree[g] > 0 && sFree > 0 && geo.BlockNr(g, i) < |disk|
    ensures geo.BlockNr(g, i) != 0
    ensures geo.bs > 0 && geo.Home(g, i) < |disk| && |disk[geo.Home(g, i)]| == geo.bs && Rem(i, 8 * geo.bs) < 8 * geo.bs
    ensures var disk' := Mark(geo, disk, g, i, true)[geo.BlockNr(g, i) := Zeros(geo.bs)];
      && Counted(geo, disk', bgFree[g := bgFree[g] - 1], sFree - 1) && Reserved(geo, disk')
      && Allocated(geo, disk, disk', geo.BlockNr(g, i))
  {
    hide BitOf;
    var nr := geo.BlockNr(g, i);
    BlockNrParts(geo, g, i);
    assert !Used(geo, disk, nr);
    MarkCounted(geo, disk, bgFree, sFree, g, i, true);
    var disk1 := Mark(geo, disk, g, i, true);
    MarkReserved(geo, disk, g, i);
    DataWrite(geo, disk1, nr, Zeros(geo.bs));
    SameBits(geo, disk1, disk1[nr := Zeros(geo.bs)], bgFree[g := bgFree[g] - 1], sFree - 1);
    forall b: nat | geo.Covers(b) && b < nr ensures Used(geo, disk, b) { LowerUsed(geo, disk, g, i, b); }
    assert IsBitmap(geo, geo.Home(g, i));
  }

  lemma MarkBlock(geo: Geo, disk: Disk, g: nat, i: nat, v: bool, b: nat)
    requires Formatted(geo, disk) && Apart(geo) && g < |geo.bitmap| && i < geo.bpg && geo.Covers(b)
    ensures Formatted(geo, Mark(geo, disk, g, i, v))
    ensures Used(geo, Mark(geo, disk, g, i, v), b) <==> if b == geo.BlockNr(g, i) then v else Used(geo, disk, b)
  {
    hide UsedAt, Mark, Formatted, Apart, Quot, Rem;
    CoversParts(geo, b);
    FormattedOk(geo, disk);
    BlockNrParts(geo, g, i);
    MarkUsed(geo, disk, g, i, v, geo.Group(b), geo.Index(b));
  }

  lemma FormattedOk(geo: Geo, disk: Disk)
    requires Formatted(geo, disk)
    ensures geo.Ok()
  {
  }

  lemma MarkReserved(geo: Geo, disk: Disk, g: nat, i: nat)
    requires Reserved(geo, disk) && Apart(geo) && g < |geo.bitmap| && i < geo.bpg
    ensures Reserved(geo, Mark(geo, disk, g, i, true))
    ensures forall b: nat {:trigger Used(geo, Mark(geo, disk, g, i, true), b)} :: geo.Covers(b) ==>
      (Used(geo, Mark(geo, disk, g, i, true), b) <==> b == geo.BlockNr(g, i) || Used(geo, disk, b))
  {
    hide Used, UsedAt, Mark, Formatted, Apart, Quot, Rem, IsBitmap;
    var disk' := Mark(geo, disk, g, i, true);
    MarkUsed(geo, disk, g, i, true, g, i);
    MarkSize(geo, disk, g, i, true);
    forall b: nat | geo.Covers(b) ensures Used(geo, disk', b) <==> b == geo.BlockNr(g, i) || Used(geo, disk, b) {
      MarkBlock(geo, disk, g, i, true, b);
    }
  }

  lemma MarkSize(geo: Geo, disk: Disk, g: nat, i: nat, v: bool)
    requires Formatted(geo, disk) && g < |geo.bitmap| && i < geo.bpg
    ensures |Mark(geo, disk, g, i, v)| == |disk|
  {
  }

  /** `b` is free again and nothing else changed. */
  ghost predicate Freed(geo: Geo, disk: Disk, disk': Disk, b: nat) {
    && Formatted(geo, disk) && Formatted(geo, disk') && geo.Covers(b) && Used(geo, disk, b)
    && (forall c: nat {:trigger Used(geo, disk', c)} :: geo.Covers(c) ==>
      (Used(geo, disk', c) <==> c != b && Used(geo, disk, c)))
    && |disk'| == |disk| && forall c {:trigger disk'[c]} :: 0 <= c < |disk| && !IsBitmap(geo, c) ==> disk'[c] == disk[c]
  }

  /** `b` is free and nothing else changed, whatever it was before. */
  ghost predicate Cleared(geo: Geo, disk: Disk, disk': Disk, b: nat) {
    && Formatted(geo, disk) && Formatted(geo, disk') && geo.Covers(b)
    && (forall c: nat {:trigger Used(geo, disk', c)} :: geo.Covers(c) ==>
      (Used(geo, disk', c) <==> c != b && Used(geo, disk, c)))
    && |disk'| == |disk| && forall c {:trigger disk'[c]} :: 0 <= c < |disk| && !IsBitmap(geo, c) ==> disk'[c] == disk[c]
  }

  /** A block in use that exists and holds no bitmap bits. */
  ghost predicate Returnable(geo: Geo, disk: Disk, b: nat)
    requires Formatted(geo, disk) && geo.Covers(b)
  {
    Used(geo, disk, b) && b < |disk| && !IsBitmap(geo, b)
  }

  lemma FreeDone(geo: Geo, disk: Disk, bgFree: seq<nat>, sFree: nat, b: nat)
    requires Counted(geo, disk, bgFree, sFree) && Reserved(geo, disk) && b != 0 && geo.Covers(b)
    ensures Formatted(geo, disk) && |bgFree| == |geo.bitmap| && geo.Group(b) < |geo.bitmap| && geo.Index(b) < geo.bpg
    ensures var g, i := geo.Group(b), geo.Index(b);
      && geo.bs > 0 && geo.Home(g, i) < |disk| && |disk[geo.Home(g, i)]| == geo.bs && Rem(i, 8 * geo.bs) < 8 * geo.bs
      && var disk' := Mark(geo, disk, g, i, false);
      && Cleared(geo, disk, disk', b) && (Used(geo, disk, b) ==> Freed(geo, disk, disk', b))
      && (Counted(geo, disk', bgFree[g := bgFree[g] + 1], sFree + 1) && Reserved(geo, disk') <==>
        Returnable(geo, disk, b))
  {
    hide BitOf, Quot, Rem, Mark, Counted, Reserved, UsedAt;
    CountedFacts(geo, disk, bgFree, sFree);
    CoversParts(geo, b);
    var g, i := geo.Group(b), geo.Index(b);
    var disk' := Mark(geo, disk, g, i, false);
    ClearBlock(geo, disk, bgFree, sFree, b);
    if !Used(geo, disk, b) {
      FreeTwice(geo, disk, disk', bgFree, sFree, b);
    } else {
      MarkCounted(geo, disk, bgFree, sFree, g, i, false);
      FreeReserved(geo, disk, disk', b);
    }
  }

  lemma ClearBlock(geo: Geo, disk: Disk, bgFree: seq<nat>, sFree: nat, b: nat)
    requires Counted(geo, disk, bgFree, sFree) && geo.Covers(b)
    ensures Formatted(geo, disk) && geo.Group(b) < |geo.bitmap| && geo.Index(b) < geo.bpg
    ensures var g, i := geo.Group(b), geo.Index(b);
      && geo.bs > 0 && geo.Home(g, i) < |disk| && |disk[geo.Home(g, i)]| == geo.bs && Rem(i, 8 * geo.bs) < 8 * geo.bs
      && Cleared(geo, disk, Mark(geo, disk, g, i, false), b)
  {
    hide BitOf, Quot, Rem;
    CoversParts(geo, b);
    var g, i := geo.Group(b), geo.Index(b);
    QuotRem(i, 8 * geo.bs);
    var disk' := Mark(geo, disk, g, i, false);
    MarkBlock(geo, disk, g, i, false, b);
    forall c: nat | geo.Covers(c) ensures Used(geo, disk', c) <==> c != b && Used(geo, disk, c) {
      MarkBlock(geo, disk, g, i, false, c);
    }
    assert IsBitmap(geo, geo.Home(g, i));
  }

  /** Freeing a free block makes the counters wrong. */
  lemma FreeTwice(geo: Geo, disk: Disk, disk': Disk, bgFree: seq<nat>, sFree: nat, b: nat)
    requires Counted(geo, disk, bgFree, sFree) && Cleared(geo, disk, disk', b) && !Used(geo, disk, b)
    requires geo.Group(b) < |bgFree|
    ensures var g := geo.Group(b); !Counted(geo, disk', bgFree[g := bgFree[g] + 1], sFree + 1)
  {
    hide UsedAt, IsBitmap, Quot, Rem;
    var g := geo.Group(b);
    forall i | 0 <= i < geo.bpg ensures UsedAt(geo, disk', g, i) == UsedAt(geo, disk, g, i) {
      BlockNrParts(geo, g, i);
      var c: nat := geo.BlockNr(g, i);
      assert Used(geo, disk', c) == Used(geo, disk, c);
    }
    ClearSame(geo, disk, disk', g, geo.bpg);
    assert bgFree[g] == Clear(geo, disk, g, geo.bpg);
    assert bgFree[g := bgFree[g] + 1][g] != Clear(geo, disk', g, geo.bpg);
  }

  lemma FreeReserved(geo: Geo, disk: Disk, disk': Disk, b: nat)
    requires Reserved(geo, disk) && Cleared(geo, disk, disk', b) && Used(geo, disk, b) && b != 0
    ensures Reserved(geo, disk') <==> Returnable(geo, disk, b)
  {
    hide Used, IsBitmap, Formatted;
    assert !Used(geo, disk', b);
  }

  lemma NothingFree(geo: Geo, disk: Disk, bgFree: seq<nat>, sFree: nat)
    requires Counted(geo, disk, bgFree, sFree) && sFree == 0
    ensures NoneFree(geo, disk)
  {
    SumZero(bgFree);
    forall b: nat | geo.Covers(b) ensures Used(geo, disk, b) {
      CoversParts(geo, b);
      ClearNone(geo, disk, geo.Group(b), geo.bpg);
      assert bgFree[geo.Group(b)] == 0;
    }
  }

  lemma GroupFull(geo: Geo, disk: Disk, bgFree: seq<nat>, sFree: nat, g: nat)
    requires Counted(geo, disk, bgFree, sFree) && g < |geo.bitmap| && bgFree[g] == 0
    ensures GroupSet(geo, disk, g, geo.bpg)
  {
    ClearNone(geo, disk, g, geo.bpg);
  }

  lemma GroupsFull(geo: Geo, disk: Disk)
    requires Formatted(geo, disk) && forall h :: 0 <= h < |geo.bitmap| ==> GroupSet(geo, disk, h, geo.bpg)
    ensures NoneFree(geo, disk)
  {
    forall b: nat | geo.Covers(b) ensures Used(geo, disk, b) {
      CoversParts(geo, b);
      assert GroupSet(geo, disk, geo.Group(b), geo.bpg);
    }
  }

  // ---------------------------------------------------------------- runs of allocations and frees

  datatype Op = Got(nr: nat) | Gave(nr: nat) | Full

  /** Each disk follows from the one before by one completed call. */
  ghost predicate Run(geo: Geo, disks: seq<Disk>, ops: seq<Op>) {
    && |disks| == |ops| + 1
    && (forall k {:trigger disks[k]} :: 0 <= k < |disks| ==> Formatted(geo, disks[k]))
    && forall k {:trigger ops[k]} :: 0 <= k < |ops| ==>
         match ops[k]
         case Got(nr) => Allocated(geo, disks[k], disks[k + 1], nr)
         case Gave(nr) => Freed(geo, disks[k], disks[k + 1], nr)
         case Full => disks[k + 1] == disks[k] && NoneFree(geo, disks[k])
  }

  /** A block stays used until it is given back. */
  lemma {:induction false} StaysUsed(geo: Geo, disks: seq<Disk>, ops: seq<Op>, i: nat, j: nat, b: nat)
    requires Run(geo, disks, ops) && i <= j <= |ops| && geo.Covers(b) && Used(geo, disks[i], b)
    requires forall k :: i <= k < j ==> ops[k] != Gave(b)
    ensures Used(geo, disks[j], b)
    decreases j - i
  {
    if i < j {
      hide Used, Formatted, SameBut, IsBitmap;
      assert ops[i] != Gave(b);
      StaysUsed(geo, disks, ops, i + 1, j, b);
    }
  }

  /** No block is handed out twice without being given back in between. */
  lemma NeverTwice(geo: Geo, disks: seq<Disk>, ops: seq<Op>, i: nat, j: nat, b: nat)
    requires Run(geo, disks, ops) && i < j < |ops| && ops[i] == Got(b) && ops[j] == Got(b)
    ensures exists k :: i < k < j && ops[k] == Gave(b)
  {
    hide Used, Formatted, SameBut, IsBitmap;
    assert Allocated(geo, disks[i], disks[i + 1], b) && Allocated(geo, disks[j], disks[j + 1], b);
    if forall k :: i < k < j ==> ops[k] != Gave(b) {
      StaysUsed(geo, disks, ops, i + 1, j, b);
    }
  }
}
