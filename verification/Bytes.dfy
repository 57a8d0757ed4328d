/** Bytes and blocks of them. */
module Bytes {
  type Byte = b: int | 0 <= b < 256
  type Block = seq<Byte>

  /** A block with `src` copied over it at `at`. */
  function Patch(blk: Block, at: nat, src: seq<Byte>): (r: Block)
    requires at + |src| <= |blk|
    ensures |r| == |blk| && r[..at] == blk[..at] && r[at + |src|..] == blk[at + |src|..]
    ensures forall k {:trigger r[k]} :: 0 <= k < |blk| ==> r[k] == if at <= k < at + |src| then src[k - at] else blk[k]
  {
    blk[..at] + src + blk[at + |src|..]
  }

  /** The four bytes of a 32-bit number make up the number. */
  lemma Digits(v: nat)
    requires v < 0x1_0000_0000
    ensures v % 0x100 + 0x100 * (v / 0x100 % 0x100) + 0x1_0000 * (v / 0x1_0000 % 0x100)
            + 0x100_0000 * (v / 0x100_0000 % 0x100) == v
  {
    assert v / 0x1_0000 == v / 0x100 / 0x100 && v / 0x100_0000 == v / 0x1_0000 / 0x100;
  }
}
