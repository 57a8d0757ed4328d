/** Block bitmaps of the ext4 driver: bits in bytes, bytes in bitmap blocks, one run of bitmap blocks per group. */
module Ext4Bitmap {
  import opened Arith
  import opened Bytes

  // ---------------------------------------------------------------- bits of a byte

  /** `b & (1 << k)` is not zero. */
  predicate Bit(b: int, k: nat)
    decreases k
  {
    if k == 0 then b % 2 == 1 else Bit(b / 2, k - 1)
  }

  /** `b | (1 << k)` for k < 8. */
  function SetBit(b: int, k: nat): int
    decreases k
  {
    if k == 0 then b / 2 * 2 + 1 else SetBit(b / 2, k - 1) * 2 + b % 2
  }

  /** `b & ~(1 << k)` for k < 8. */
  function ClearBit(b: int, k: nat): int
    decreases k
  {
    if k == 0 then b / 2 * 2 else ClearBit(b / 2, k - 1) * 2 + b % 2
  }

  lemma {:induction false} SetBitBits(b: int, k: nat, j: nat)
    ensures Bit(SetBit(b, k), j) <==> j == k || Bit(b, j)
    decreases k
  {
    var c := SetBit(b, k);
    if k > 0 && j > 0 {
      assert c / 2 == SetBit(b / 2, k - 1);
      SetBitBits(b / 2, k - 1, j - 1);
    }
  }

  lemma {:induction false} ClearBitBits(b: int, k: nat, j: nat)
    ensures Bit(ClearBit(b, k), j) <==> j != k && Bit(b, j)
    decreases k
  {
    var c := ClearBit(b, k);
    if k > 0 && j > 0 {
      assert c / 2 == ClearBit(b / 2, k - 1);
      ClearBitBits(b / 2, k - 1, j - 1);
    }
  }

  lemma {:induction false} BitRange(b: int, k: nat, n: nat, size: int)
    requires k < n && 0 <= b < size && size == Pow2(n)
    ensures 0 <= SetBit(b, k) < size && 0 <= ClearBit(b, k) < size
    decreases n
  {
    var half := Pow2(n - 1);
    assert size == 2 * half;
    hide Pow2;
    if k > 0 { BitRange(b / 2, k - 1, n - 1, half); }
  }

  lemma BitByte(b: Byte, k: nat)
    requires k < 8
    ensures 0 <= SetBit(b, k) < 256 && 0 <= ClearBit(b, k) < 256
  {
    assert Pow2(8) == 256 by { assert Pow2(4) == 16; }
    BitRange(b, k, 8, 256);
  }

  /** A byte of all ones, 0xFF for n = 8, has no clear bit. */
  lemma {:induction false} FullByte(b: int, n: nat, k: nat)
    requires b == Pow2(n) - 1 && k < n
    ensures Bit(b, k)
    decreases k
  {
    if k > 0 {
      assert b / 2 == Pow2(n - 1) - 1;
      FullByte(b / 2, n - 1, k - 1);
    }
  }

  // ---------------------------------------------------------------- bits of the groups

  /** What the mount fixes: block size, blocks per group, first data block and the bitmap block of each group. */
  datatype Geo = Geo(bs: nat, bpg: nat, first: nat, bitmap: seq<nat>) {
    function PerBlock(): nat { 8 * bs }
    function BlockNr(g: nat, i: nat): nat { g * bpg + first + i }
    function Group(b: nat): nat requires bpg > 0 && b >= first { Quot(b - first, bpg) }
    function Index(b: nat): nat requires bpg > 0 && b >= first { Rem(b - first, bpg) }
    /** The bitmap block that holds bit `i` of group `g`. */
    function Home(g: nat, i: nat): nat requires bs > 0 && g < |bitmap| { bitmap[g] + Quot(i, PerBlock()) }
    ghost predicate Ok() { bs in {1024, 2048, 4096} && bpg > 0 && bpg % 8 == 0 && bpg < 0x10000 }
    /** Blocks the groups describe. */
    predicate Covers(b: nat) { bpg > 0 && first <= b && Group(b) < |bitmap| }
  }

  type Disk = seq<Block>

  ghost predicate Formatted(geo: Geo, disk: Disk) {
    && geo.Ok() && |disk| <= 0x1_0000_0000 && (forall b :: 0 <= b < |disk| ==> |disk[b]| == geo.bs)
    && (forall g, i :: 0 <= g < |geo.bitmap| && 0 <= i < geo.bpg ==> geo.Home(g, i) < |disk|)
  }

  /** Bit `i` of the bits of a block, least significant bit of each byte first. */
  predicate BitOf(blk: Block, i: nat)
    requires i < 8 * |blk|
  {
    Bit(blk[i / 8], i % 8)
  }

  /** The block with index `i` in group `g` is marked used. */
  ghost predicate UsedAt(geo: Geo, disk: Disk, g: nat, i: nat)
    requires Formatted(geo, disk) && g < |geo.bitmap| && i < geo.bpg
  {
    BitOf(disk[geo.Home(g, i)], Rem(i, geo.PerBlock()))
  }

  /** Bitmap blocks of different groups are different blocks. */
  ghost predicate Apart(geo: Geo) {
    && geo.bs > 0
    && forall g, i, g', i' {:trigger geo.Home(g, i), geo.Home(g', i')} ::
         0 <= g < |geo.bitmap| && 0 <= g' < |geo.bitmap| && 0 <= i < geo.bpg && 0 <= i' < geo.bpg && g != g' ==>
         geo.Home(g, i) != geo.Home(g', i')
  }

  function WithBit(blk: Block, j: nat, v: bool): (r: Block)
    requires j < 8 * |blk|
    ensures |r| == |blk|
  {
    BitByte(blk[j / 8], j % 8);
    blk[j / 8 := if v then SetBit(blk[j / 8], j % 8) else ClearBit(blk[j / 8], j % 8)]
  }

  lemma WithBitOf(blk: Block, j: nat, v: bool, k: nat)
    requires j < 8 * |blk| && k < 8 * |blk|
    ensures BitOf(WithBit(blk, j, v), k) <==> if k == j then v else BitOf(blk, k)
  {
    SetBitBits(blk[j / 8], j % 8, k % 8);
    ClearBitBits(blk[j / 8], j % 8, k % 8);
  }

  /** The disk after bit `i` of group `g` was set or cleared. */
  function Mark(geo: Geo, disk: Disk, g: nat, i: nat, v: bool): Disk
    requires Formatted(geo, disk) && g < |geo.bitmap| && i < geo.bpg
  {
    disk[geo.Home(g, i) := WithBit(disk[geo.Home(g, i)], Rem(i, geo.PerBlock()), v)]
  }

  lemma MarkUsed(geo: Geo, disk: Disk, g: nat, i: nat, v: bool, g': nat, i': nat)
    requires Formatted(geo, disk) && Apart(geo) && g < |geo.bitmap| && i < geo.bpg && g' < |geo.bitmap| && i' < geo.bpg
    ensures Formatted(geo, Mark(geo, disk, g, i, v))
    ensures UsedAt(geo, Mark(geo, disk, g, i, v), g', i') <==>
      if g' == g && i' == i then v else UsedAt(geo, disk, g', i')
  {
    hide BitOf, WithBit, Quot, Rem;
    var n := geo.PerBlock();
    QuotRem(i, n);
    QuotRem(i', n);
    WithBitOf(disk[geo.Home(g, i)], Rem(i, n), v, Rem(i', n));
  }

  /** Clear bits among the first `n` of group `g`. */
  ghost function Clear(geo: Geo, disk: Disk, g: nat, n: nat): nat
    requires Formatted(geo, disk) && g < |geo.bitmap| && n <= geo.bpg
  {
    if n == 0 then 0 else Clear(geo, disk, g, n - 1) + (if UsedAt(geo, disk, g, n - 1) then 0 else 1)
  }

  /** Two disks that agree on the bits of a group have equally many clear ones. */
  lemma {:induction false} ClearSame(geo: Geo, disk: Disk, disk': Disk, g: nat, n: nat)
    requires Formatted(geo, disk) && Formatted(geo, disk') && g < |geo.bitmap| && n <= geo.bpg
    requires forall i :: 0 <= i < n ==> UsedAt(geo, disk', g, i) == UsedAt(geo, disk, g, i)
    ensures Clear(geo, disk', g, n) == Clear(geo, disk, g, n)
  {
    if n > 0 { ClearSame(geo, disk, disk', g, n - 1); }
  }

  lemma {:induction false} ClearFlip(geo: Geo, disk: Disk, disk': Disk, g: nat, i: nat, n: nat)
    requires Formatted(geo, disk) && Formatted(geo, disk') && g < |geo.bitmap| && i < n <= geo.bpg
    requires forall j :: 0 <= j < n && j != i ==> UsedAt(geo, disk', g, j) == UsedAt(geo, disk, g, j)
    requires !UsedAt(geo, disk, g, i) && UsedAt(geo, disk', g, i)
    ensures Clear(geo, disk, g, n) == Clear(geo, disk', g, n) + 1
  {
    if i == n - 1 { ClearSame(geo, disk, disk', g, n - 1); } else { ClearFlip(geo, disk, disk', g, i, n - 1); }
  }

  /** A group has a clear bit exactly when its count of clear bits is not zero. */
  lemma {:induction false} ClearNone(geo: Geo, disk: Disk, g: nat, n: nat)
    requires Formatted(geo, disk) && g < |geo.bitmap| && n <= geo.bpg
    ensures Clear(geo, disk, g, n) <= n
    ensures Clear(geo, disk, g, n) == 0 <==> forall i :: 0 <= i < n ==> UsedAt(geo, disk, g, i)
  {
    if n > 0 { ClearNone(geo, disk, g, n - 1); }
  }

  ghost function Sum(s: seq<nat>): nat { if s == [] then 0 else s[0] + Sum(s[1..]) }

  lemma {:induction false} SumUpdate(s: seq<nat>, g: nat, v: nat)
    requires g < |s|
    ensures Sum(s[g := v]) + s[g] == Sum(s) + v
  {
    if g > 0 {
      assert s[g := v][1..] == s[1..][g - 1 := v];
      SumUpdate(s[1..], g - 1, v);
    } else {
      assert s[g := v][1..] == s[1..];
    }
  }

  lemma {:induction false} SumZero(s: seq<nat>)
    ensures Sum(s) == 0 <==> forall g :: 0 <= g < |s| ==> s[g] == 0
  {
    if s != [] {
      SumZero(s[1..]);
      assert forall g :: 0 <= g < |s[1..]| ==> s[1..][g] == s[g + 1];
      if forall g :: 0 <= g < |s[1..]| ==> s[1..][g] == 0 { assert forall g :: 0 < g < |s| ==> s[g] == s[1..][g - 1]; }
    }
  }

  /** The counters agree with the bitmaps. */
  ghost predicate Counted(geo: Geo, disk: Disk, bgFree: seq<nat>, sFree: nat) {
    && Formatted(geo, disk) && Apart(geo) && |bgFree| == |geo.bitmap| && sFree == Sum(bgFree)
    && forall g {:trigger bgFree[g]} :: 0 <= g < |bgFree| ==> bgFree[g] == Clear(geo, disk, g, geo.bpg)
  }

  lemma MarkCounted(geo: Geo, disk: Disk, bgFree: seq<nat>, sFree: nat, g: nat, i: nat, v: bool)
    requires Counted(geo, disk, bgFree, sFree) && g < |geo.bitmap| && i < geo.bpg && UsedAt(geo, disk, g, i) == !v
    ensures v ==> bgFree[g] > 0 && sFree > 0
    ensures !v ==> bgFree[g] < geo.bpg
    ensures var f := if v then bgFree[g] - 1 else bgFree[g] + 1;
      Counted(geo, Mark(geo, disk, g, i, v), bgFree[g := f], if v then sFree - 1 else sFree + 1)
  {
    var disk' := Mark(geo, disk, g, i, v);
    forall g', i' | 0 <= g' < |geo.bitmap| && 0 <= i' < geo.bpg
      ensures Formatted(geo, disk')
      ensures UsedAt(geo, disk', g', i') == if g' == g && i' == i then v else UsedAt(geo, disk, g', i')
    {
      MarkUsed(geo, disk, g, i, v, g', i');
    }
    MarkUsed(geo, disk, g, i, v, g, i);
    ClearNone(geo, disk, g, geo.bpg);
    ClearNone(geo, disk', g, geo.bpg);
    if v { ClearFlip(geo, disk, disk', g, i, geo.bpg); } else { ClearFlip(geo, disk', disk, g, i, geo.bpg); }
    var f: nat := if v then bgFree[g] - 1 else bgFree[g] + 1;
    SumUpdate(bgFree, g, f);
    forall h | 0 <= h < |bgFree| && h != g ensures bgFree[h] == Clear(geo, disk', h, geo.bpg) {
      ClearSame(geo, disk, disk', h, geo.bpg);
    }
  }

  // ---------------------------------------------------------------- block numbers

  lemma BlockNrParts(geo: Geo, g: nat, i: nat)
    requires geo.Ok() && g < |geo.bitmap| && i < geo.bpg
    ensures geo.Covers(geo.BlockNr(g, i)) && geo.Group(geo.BlockNr(g, i)) == g && geo.Index(geo.BlockNr(g, i)) == i
  {
    DivMod(g, geo.bpg, i);
  }

  lemma CoversParts(geo: Geo, b: nat)
    requires geo.Covers(b)
    ensures geo.Group(b) < |geo.bitmap| && geo.Index(b) < geo.bpg && geo.BlockNr(geo.Group(b), geo.Index(b)) == b
  {
    QuotRem(b - geo.first, geo.bpg);
    assert geo.bpg * geo.Group(b) == geo.Group(b) * geo.bpg;
  }

  ghost predicate Used(geo: Geo, disk: Disk, b: nat)
    requires Formatted(geo, disk) && geo.Covers(b)
  {
    CoversParts(geo, b);
    UsedAt(geo, disk, geo.Group(b), geo.Index(b))
  }

  /** A block that holds bitmap bits. */
  ghost predicate IsBitmap(geo: Geo, b: nat) {
    geo.bs > 0 && exists g, i :: 0 <= g < |geo.bitmap| && 0 <= i < geo.bpg && b == geo.Home(g, i)
  }
}
