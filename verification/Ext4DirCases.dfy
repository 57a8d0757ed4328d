/** A directory block as a formatter writes it, and what the driver finds in it. */
module Ext4DirCases {
  import opened Bytes
  import opened Ext4Volume
  import opened Ext4Map
  import opened Ext4File
  import opened Ext4Dirent
  import opened Ext4Dir
  import opened Ext4Cases

  /** Entries ".", ".." and "etc", the last one filling the block. */
  function Dot(): seq<Byte> { [2, 0, 0, 0, 12, 0, 1, 2, 0x2E, 0, 0, 0] }
  function DotDot(): seq<Byte> { [2, 0, 0, 0, 12, 0, 2, 2, 0x2E, 0x2E, 0, 0] }
  function Etc(): seq<Byte> { [0x0B, 0, 0, 0, 0xE8, 3, 3, 2, 0x65, 0x74, 0x63, 0] }

  const ETC: Name := [0x65, 0x74, 0x63]

  function EtcBlock(): (r: Block)
    ensures |r| == BS
  {
    Dot() + DotDot() + Etc() + seq(BS - 36, _ => 0)
  }

  lemma EtcParts(k: nat)
    requires k < 12
    ensures var b := EtcBlock(); b[k] == Dot()[k] && b[12 + k] == DotDot()[k] && b[24 + k] == Etc()[k]
  {
  }

  /** A record with these twelve bytes in front. */
  lemma RecordIs(b: Block, o: nat, head: seq<Byte>, ino: nat, len: nat, name: Name, kind: nat)
    requires |b| == BS && o + 12 <= BS && |head| == 12 && forall k: nat :: k < 12 ==> b[o + k] == head[k]
    requires head[0] == ino && head[1] == head[2] == head[3] == 0 && 0 < ino
    requires (head[4] as int) + 0x100 * (head[5] as int) == len
    requires head[6] == |name| && 0 < |name| <= 4 && head[7] == kind && head[8..8 + |name|] == name
    requires 12 <= len && len % 4 == 0 && o + len <= BS
    ensures RecOk(b, o, BS) && LenAt(b, o) == len && EntsOf(b, o) == [DirEnt(name, ino, kind)]
  {
    var n := b[o + 8..o + 8 + |name|];
    assert b[o + 0] == head[0] && b[o + 1] == head[1] && b[o + 2] == head[2] && b[o + 3] == head[3];
    assert b[o + 4] == head[4] && b[o + 5] == head[5] && b[o + 6] == head[6] && b[o + 7] == head[7];
    forall k | 0 <= k < |name| ensures n[k] == name[k] {
      assert n[k] == b[o + (8 + k)] == head[8 + k] == head[8..8 + |name|][k];
    }
    assert n == name;
  }

  lemma EtcRecords()
    ensures var b := EtcBlock();
      && RecOk(b, 0, BS) && LenAt(b, 0) == 12 && EntsOf(b, 0) == [DirEnt([0x2E], 2, 2)]
      && RecOk(b, 12, BS) && LenAt(b, 12) == 12 && EntsOf(b, 12) == [DirEnt([0x2E, 0x2E], 2, 2)]
      && RecOk(b, 24, BS) && LenAt(b, 24) == 1000 && EntsOf(b, 24) == [DirEnt(ETC, 11, 2)]
  {
    hide EtcBlock, RecOk, LenAt, EntsOf;
    var b := EtcBlock();
    forall k: nat | k < 12 ensures b[0 + k] == Dot()[k] && b[12 + k] == DotDot()[k] && b[24 + k] == Etc()[k] {
      EtcParts(k);
    }
    RecordIs(b, 0, Dot(), 2, 12, [0x2E], 2);
    RecordIs(b, 12, DotDot(), 2, 12, [0x2E, 0x2E], 2);
    RecordIs(b, 24, Etc(), 11, 1000, ETC, 2);
  }

  lemma EtcListed()
    ensures Tiled(EtcBlock(), 0, BS)
    ensures Ents(EtcBlock(), 0, BS) == [DirEnt([0x2E], 2, 2), DirEnt([0x2E, 0x2E], 2, 2), DirEnt(ETC, 11, 2)]
  {
    hide EtcBlock, LenAt, EntsOf;
    EtcRecords();
    var b := EtcBlock();
    assert Tiled(b, BS, BS) && Ents(b, BS, BS) == [];
    assert Tiled(b, 24, BS) && Ents(b, 24, BS) == EntsOf(b, 24);
    assert Tiled(b, 12, BS) && Ents(b, 12, BS) == EntsOf(b, 12) + Ents(b, 24, BS);
  }

  function EtcInode(): Inode { Inode(0x41ED, BS, 0, 2, [7, 0, 0, 0, 0, 0, 0, 0, 0, 0, 0, 0, 0, 0, 0]) }

  lemma EtcPtr(p: Place)
    ensures Pointered(SmallInodes()) && Pointered(SmallInodes()[3 := EtcInode()]) && |SmallDisk()| > 7
    ensures PtrAt(SmallDisk()[7 := EtcBlock()], SmallInodes()[3 := EtcInode()], p) ==
      if p == Place(3, Direct(0)) then 7 else PtrAt(SmallDisk(), SmallInodes(), p)
  {
    hide Entry, SmallDisk, EtcBlock;
    EtcEntry(0, 0);
    var d := SmallDisk()[7 := EtcBlock()];
    forall b: nat, i: nat | b in {0, 3, 4} ensures Entry(d, b, i) == Entry(SmallDisk(), b, i) { EtcEntry(b, i); }
    SmallPtr(p);
    match p.slot {
      case Direct(_) =>
      case Single =>
      case Double =>
      case Ind(i) => SmallEntry(0, i);
      case Mid(i) => SmallEntry(3, i); SmallEntry(0, i);
      case Leaf(i, j) => SmallEntry(3, i); SmallEntry(0, i); SmallEntry(4, j); SmallEntry(0, j);
    }
  }

  lemma EtcEntry(b: nat, i: nat)
    requires b in {0, 3, 4}
    ensures |SmallDisk()| > 7 && Entry(SmallDisk()[7 := EtcBlock()], b, i) == Entry(SmallDisk(), b, i)
  {
  }

  lemma EtcOwned()
    ensures |SmallDisk()| > 7 && Owned(SmallGeo(), SmallDisk()[7 := EtcBlock()], SmallInodes()[3 := EtcInode()])
  {
    hide PtrAt, SmallDisk, Ownable, EtcBlock;
    SmallOwned();
    SmallOwnable(7);
    assert |SmallDisk()| > 7 by { EtcEntry(0, 0); }
    WriteOwnable(SmallGeo(), SmallDisk(), 7, EtcBlock());
    var d, t := SmallDisk()[7 := EtcBlock()], SmallInodes()[3 := EtcInode()];
    forall p: Place ensures PtrAt(d, t, p) != 0 ==> 3 <= PtrAt(d, t, p) <= 8 { EtcPtr(p); SmallPtr(p); }
    forall b: nat | 3 <= b <= 8 ensures Ownable(SmallGeo(), d, b) { SmallOwnable(b); }
    forall p: Place, q: Place ensures !Clash(d, t, p, q) { EtcPtr(p); SmallPtr(p); EtcPtr(q); SmallPtr(q); }
  }

  lemma EtcBlockIs()
    ensures Pointered(SmallInodes()[3 := EtcInode()]) && |SmallDisk()| > 7
    ensures FileBlock(SmallGeo(), SmallDisk()[7 := EtcBlock()], SmallInodes()[3 := EtcInode()], 3, 0) == EtcBlock()
  {
    hide EtcBlock;
    EtcPtr(Place(3, Direct(0)));
    var d, t := SmallDisk()[7 := EtcBlock()], SmallInodes()[3 := EtcInode()];
    var b := FileBlock(SmallGeo(), d, t, 3, 0);
    assert MapBlock(256, d, t[3], 0) == 7;
    forall k | 0 <= k < BS ensures b[k] == EtcBlock()[k] { }
  }

  lemma ThirdFound(es: seq<DirEnt>)
    requires es == [DirEnt([0x2E], 2, 2), DirEnt([0x2E, 0x2E], 2, 2), DirEnt(ETC, 11, 2)]
    ensures Find(es, ETC) == 11
  {
    assert es[1..] == [es[1], es[2]] && es[1..][1..] == [es[2]];
    assert Find([es[2]], ETC) == 11 && Find([es[1], es[2]], ETC) == Find([es[1], es[2]][1..], ETC);
  }

  lemma EtcDirectory()
    ensures |SmallDisk()| > 7
    ensures Directory(SmallGeo(), SmallDisk()[7 := EtcBlock()], SmallInodes()[3 := EtcInode()], 3, 1)
    ensures Find(Listing(SmallGeo(), SmallDisk()[7 := EtcBlock()], SmallInodes()[3 := EtcInode()], 3, 1), ETC) == 11
  {
    hide EtcBlock, SmallDisk, Tiled, Ents, FileBlock, LenAt;
    EtcBlockIs();
    EtcListed();
    DirModes(0x41ED);
    var d, t := SmallDisk()[7 := EtcBlock()], SmallInodes()[3 := EtcInode()];
    var data := Data(SmallGeo(), d, t, 3, 1);
    assert data == [EtcBlock()];
    assert data[..0] == [] && AllEnts(data) == AllEnts([]) + Ents(EtcBlock(), 0, BS);
    ThirdFound(AllEnts(data));
  }

  /** The directory of mode 0x41ED has "etc" as inode 11; a regular file is no directory. */
  method FindsEtc(fs: Ext4) returns (rc: int, child: nat, no: int)
    requires IsSmall(fs)
    modifies fs`inodes, fs.vol
    ensures rc == 0 && child == 11 && no == -20
  {
    hide Owned, SmallDisk, EtcBlock, Volume.Valid, Tiled, Ents, Ownable;
    SmallValid(fs);
    SmallOwnable(7);
    EtcOwned();
    fs.vol.WriteBlock(7, EtcBlock());
    fs.inodes := fs.inodes[3 := EtcInode()];
    EtcDirectory();
    rc, child := Lookup(fs, 3, ETC, 1);
    var other;
    no, other := Lookup(fs, 1, ETC, 0);
  }
}
