/** Directory records packed in one block: inode (4 bytes), record length (2), name length, file type, name. */
module Ext4Dirent {
  import opened Bytes

  const HEADER := 8
  const NAME_MAX := 255

  type Name = seq<Byte>
  datatype DirEnt = DirEnt(name: Name, ino: nat, kind: nat)

  // ---------------------------------------------------------------- record fields

  function InoAt(blk: Block, o: nat): nat
    requires o + HEADER <= |blk|
  {
    (blk[o] as int) + 0x100 * (blk[o + 1] as int) + 0x1_0000 * (blk[o + 2] as int) + 0x100_0000 * (blk[o + 3] as int)
  }

  function LenAt(blk: Block, o: nat): nat
    requires o + HEADER <= |blk|
  {
    (blk[o + 4] as int) + 0x100 * (blk[o + 5] as int)
  }

  function NameLenAt(blk: Block, o: nat): nat
    requires o + HEADER <= |blk|
  {
    blk[o + 6] as int
  }

  function EntAt(blk: Block, o: nat): DirEnt
    requires o + HEADER <= |blk| && o + HEADER + NameLenAt(blk, o) <= |blk|
  {
    DirEnt(blk[o + HEADER..o + HEADER + NameLenAt(blk, o)], InoAt(blk, o), blk[o + 7])
  }

  /** The room a name needs: header and name, rounded up to a multiple of 4. */
  function Need(n: nat): (r: nat)
    ensures r % 4 == 0 && HEADER + n <= r < HEADER + n + 4
  {
    (HEADER + n + 3) / 4 * 4
  }

  // ---------------------------------------------------------------- tiling

  /** A record starts at `o`, ends by `to`, and holds its name if it is live. */
  predicate RecOk(blk: Block, o: nat, to: nat) {
    && o + HEADER <= to <= |blk| && HEADER <= LenAt(blk, o) && LenAt(blk, o) % 4 == 0 && o + LenAt(blk, o) <= to
    && (InoAt(blk, o) != 0 ==> Need(NameLenAt(blk, o)) <= LenAt(blk, o))
  }

  /** The bytes from `o` up to `to` are exactly covered by records. */
  predicate Tiled(blk: Block, o: nat, to: nat)
    decreases if o < to then to - o else 0
  {
    o == to <= |blk| || (RecOk(blk, o, to) && Tiled(blk, o + LenAt(blk, o), to))
  }

  predicate Live(blk: Block, o: nat)
    requires o + HEADER <= |blk|
  {
    InoAt(blk, o) != 0 && NameLenAt(blk, o) > 0
  }

  /** The live entries of the records from `o` up to `to`, in order; the scan stops at a malformed record. */
  function Ents(blk: Block, o: nat, to: nat): seq<DirEnt>
    decreases if o < to then to - o else 0
  {
    if o < to && RecOk(blk, o, to) then EntsOf(blk, o) + Ents(blk, o + LenAt(blk, o), to) else []
  }

  /** The entry of one record, if it is live. */
  function EntsOf(blk: Block, o: nat): seq<DirEnt> {
    if o + HEADER <= |blk| && Live(blk, o) && o + HEADER + NameLenAt(blk, o) <= |blk| then [EntAt(blk, o)] else []
  }

  lemma SameRec(blk: Block, blk': Block, o: nat, to: nat)
    requires o < to <= |blk| == |blk'| && blk[o..to] == blk'[o..to] && RecOk(blk, o, to)
    ensures RecOk(blk', o, to) && LenAt(blk', o) == LenAt(blk, o) && EntsOf(blk', o) == EntsOf(blk, o)
    ensures blk[o + LenAt(blk, o)..to] == blk'[o + LenAt(blk, o)..to]
  {
    forall k | o <= k < to ensures blk'[k] == blk[k] { assert blk'[o..to][k - o] == blk[o..to][k - o]; }
    assert InoAt(blk', o) == InoAt(blk, o) && NameLenAt(blk', o) == NameLenAt(blk, o);
    if InoAt(blk, o) != 0 {
      assert blk'[o + HEADER..o + HEADER + NameLenAt(blk, o)] == blk[o + HEADER..o + HEADER + NameLenAt(blk, o)];
    }
  }

  lemma {:induction false} SameRun(blk: Block, blk': Block, o: nat, to: nat)
    requires Tiled(blk, o, to) && to <= |blk| == |blk'| && blk[o..to] == blk'[o..to]
    ensures Tiled(blk', o, to) && Ents(blk', o, to) == Ents(blk, o, to)
    decreases if o < to then to - o else 0
  {
    hide LenAt, InoAt, EntsOf;
    if o < to {
      SameRec(blk, blk', o, to);
      SameRun(blk, blk', o + LenAt(blk, o), to);
    }
  }

  lemma {:induction false} Join(blk: Block, o: nat, mid: nat, to: nat)
    requires Tiled(blk, o, mid) && Tiled(blk, mid, to)
    ensures Tiled(blk, o, to) && Ents(blk, o, to) == Ents(blk, o, mid) + Ents(blk, mid, to)
    decreases if o < mid then mid - o else 0
  {
    hide LenAt, InoAt, EntsOf;
    TiledRange(blk, mid, to);
    if o < mid {
      var next := o + LenAt(blk, o);
      Join(blk, next, mid, to);
      assert RecOk(blk, o, to);
      assert Ents(blk, o, to) == EntsOf(blk, o) + Ents(blk, next, to);
    }
  }

  lemma TiledRange(blk: Block, o: nat, to: nat)
    requires Tiled(blk, o, to)
    ensures o <= to <= |blk|
  {
  }

  lemma One(blk: Block, o: nat, to: nat)
    requires RecOk(blk, o, to) && o + LenAt(blk, o) == to
    ensures Tiled(blk, o, to) && Ents(blk, o, to) == EntsOf(blk, o)
  {
    hide LenAt, InoAt, EntsOf;
    assert Tiled(blk, to, to) && Ents(blk, to, to) == [];
  }

  /** Replacing whole records [o, e) by others: the entries before and after stay. */
  lemma Replace(blk: Block, blk': Block, o: nat, e: nat)
    requires |blk'| == |blk| && Tiled(blk, 0, o) && Tiled(blk, e, |blk|) && Tiled(blk', o, e)
    requires blk'[..o] == blk[..o] && e <= |blk| && blk'[e..] == blk[e..]
    ensures Tiled(blk', 0, |blk|) && Ents(blk', 0, |blk|) == Ents(blk, 0, o) + Ents(blk', o, e) + Ents(blk, e, |blk|)
  {
    TiledRange(blk, 0, o);
    assert blk'[0..o] == blk[0..o] && blk'[e..|blk|] == blk[e..|blk|];
    SameRun(blk, blk', 0, o);
    SameRun(blk, blk', e, |blk|);
    Join(blk', 0, o, e);
    Join(blk', 0, e, |blk|);
  }

  /** One more record scanned. */
  lemma Scanned(blk: Block, o: nat)
    requires Tiled(blk, 0, o) && Tiled(blk, o, |blk|) && o < |blk|
    ensures var next := o + LenAt(blk, o);
      && next <= |blk| && RecOk(blk, o, next) && Tiled(blk, 0, next) && Tiled(blk, next, |blk|)
      && Ents(blk, 0, next) == Ents(blk, 0, o) + EntsOf(blk, o)
      && Ents(blk, 0, |blk|) == Ents(blk, 0, next) + Ents(blk, next, |blk|)
  {
    hide LenAt, InoAt, EntsOf;
    var next := o + LenAt(blk, o);
    assert RecOk(blk, o, |blk|) && Tiled(blk, next, |blk|);
    hide Tiled, Ents;
    One(blk, o, next);
    Join(blk, 0, o, next);
    Join(blk, 0, next, |blk|);
  }

  // ---------------------------------------------------------------- writing records

  function Bytes4(v: nat): seq<Byte> { [v % 0x100, v / 0x100 % 0x100, v / 0x1_0000 % 0x100, v / 0x100_0000 % 0x100] }
  function Bytes2(v: nat): seq<Byte> { [v % 0x100, v / 0x100 % 0x100] }

  function SetLen(blk: Block, o: nat, len: nat): (r: Block)
    requires o + HEADER <= |blk|
    ensures |r| == |blk|
  {
    Patch(blk, o + 4, Bytes2(len))
  }

  function SetIno(blk: Block, o: nat, ino: nat): (r: Block)
    requires o + HEADER <= |blk|
    ensures |r| == |blk|
  {
    Patch(blk, o, Bytes4(ino))
  }

  /** Inode, name length, type and name of a record; its length field is left alone. */
  function SetEnt(blk: Block, o: nat, e: DirEnt): (r: Block)
    requires o + HEADER + |e.name| <= |blk|
    ensures |r| == |blk|
  {
    Patch(Patch(Patch(blk, o, Bytes4(e.ino)), o + 6, [|e.name| % 0x100, e.kind % 0x100]), o + HEADER, e.name)
  }

  ghost predicate EntOk(e: DirEnt) { 0 < |e.name| <= NAME_MAX && 0 < e.ino < 0x1_0000_0000 && e.kind < 0x100 }

  lemma Word2(v: nat)
    requires v < 0x1_0000
    ensures v % 0x100 + 0x100 * (v / 0x100 % 0x100) == v
  {
  }

  lemma SetLenReads(blk: Block, o: nat, len: nat)
    requires o + HEADER <= |blk| && len < 0x1_0000
    ensures var r := SetLen(blk, o, len);
      && LenAt(r, o) == len && InoAt(r, o) == InoAt(blk, o) && NameLenAt(r, o) == NameLenAt(blk, o)
      && (o + HEADER + NameLenAt(blk, o) <= |blk| ==> EntAt(r, o) == EntAt(blk, o))
      && r[..o] == blk[..o] && r[o + HEADER..] == blk[o + HEADER..]
  {
    Word2(len);
    var r := SetLen(blk, o, len);
    assert r[o + HEADER..] == blk[o + HEADER..];
    if o + HEADER + NameLenAt(blk, o) <= |blk| {
      assert r[o + HEADER..o + HEADER + NameLenAt(blk, o)] == blk[o + HEADER..o + HEADER + NameLenAt(blk, o)];
    }
    assert r[..o] == blk[..o];
  }

  lemma SetEntReads(blk: Block, o: nat, e: DirEnt)
    requires o + HEADER + |e.name| <= |blk| && EntOk(e)
    ensures var r := SetEnt(blk, o, e);
      && LenAt(r, o) == LenAt(blk, o) && InoAt(r, o) == e.ino && NameLenAt(r, o) == |e.name| && EntAt(r, o) == e
      && r[..o] == blk[..o] && r[o + HEADER + |e.name|..] == blk[o + HEADER + |e.name|..]
  {
    Digits(e.ino);
    var r := SetEnt(blk, o, e);
    assert r[o + HEADER..o + HEADER + |e.name|] == e.name;
    assert r[..o] == blk[..o];
    assert r[o + HEADER + |e.name|..] == blk[o + HEADER + |e.name|..];
  }

  // ---------------------------------------------------------------- the edits of one block

  /** `e` inserted at position `i`. */
  function Inserted(es: seq<DirEnt>, i: nat, e: DirEnt): seq<DirEnt>
    requires i <= |es|
  {
    es[..i] + [e] + es[i..]
  }

  function Removed(es: seq<DirEnt>, i: nat): seq<DirEnt>
    requires i < |es|
  {
    es[..i] + es[i + 1..]
  }

  /** Reusing the free record at `o`. */
  lemma ReuseDone(blk: Block, o: nat, e: DirEnt)
    requires Tiled(blk, 0, o) && Tiled(blk, o, |blk|) && o < |blk| && EntOk(e)
    requires InoAt(blk, o) == 0 && LenAt(blk, o) >= Need(|e.name|)
    ensures var r := SetEnt(blk, o, e);
      && Tiled(r, 0, |blk|) && |Ents(blk, 0, o)| <= |Ents(blk, 0, |blk|)|
      && Ents(r, 0, |blk|) == Inserted(Ents(blk, 0, |blk|), |Ents(blk, 0, o)|, e)
  {
    hide Tiled, Ents, SetEnt, InoAt, LenAt, EntAt;
    Scanned(blk, o);
    var next := o + LenAt(blk, o);
    var r := SetEnt(blk, o, e);
    SetEntReads(blk, o, e);
    assert r[next..] == r[o + HEADER + |e.name|..][next - (o + HEADER + |e.name|)..];
    assert blk[next..] == blk[o + HEADER + |e.name|..][next - (o + HEADER + |e.name|)..];
    One(r, o, next);
    Replace(blk, r, o, next);
    var a, c := Ents(blk, 0, o), Ents(blk, next, |blk|);
    assert (a + c)[..|a|] == a && (a + c)[|a|..] == c && a + [] == a;
  }

  /** Splitting the live record at `o`: it keeps what its name needs, the rest becomes a record for `e`. */
  lemma SplitDone(blk: Block, o: nat, e: DirEnt)
    requires Tiled(blk, 0, o) && Tiled(blk, o, |blk|) && o < |blk| && EntOk(e)
    requires InoAt(blk, o) != 0 && LenAt(blk, o) - Need(NameLenAt(blk, o)) >= Need(|e.name|)
    ensures var own := Need(NameLenAt(blk, o));
      && o + own + HEADER + |e.name| <= |blk| && |Ents(blk, 0, o + LenAt(blk, o))| <= |Ents(blk, 0, |blk|)|
      && var r := SetEnt(SetLen(SetLen(blk, o, own), o + own, LenAt(blk, o) - own), o + own, e);
      && Tiled(r, 0, |blk|) && Ents(r, 0, |blk|) == Inserted(Ents(blk, 0, |blk|), |Ents(blk, 0, o + LenAt(blk, o))|, e)
  {
    hide Tiled, Ents, SetEnt, SetLen, InoAt, LenAt, EntAt, Need, Inserted;
    Scanned(blk, o);
    LenRange(blk, o);
    var own, next := Need(NameLenAt(blk, o)), o + LenAt(blk, o);
    var b1 := SetLen(blk, o, own);
    SetLenReads(blk, o, own);
    var b2 := SetLen(b1, o + own, LenAt(blk, o) - own);
    SetLenReads(b1, o + own, LenAt(blk, o) - own);
    var r := SetEnt(b2, o + own, e);
    SetEntReads(b2, o + own, e);
    SameHead(b1, r, o, o + own);
    One(r, o, o + own);
    One(r, o + own, next);
    Join(r, o, o + own, next);
    SplitOutside(blk, b1, b2, r, o, own, next, |e.name|);
    Replace(blk, r, o, next);
    var a, c := Ents(blk, 0, o), Ents(blk, next, |blk|);
    InsertedBehind(a, EntsOf(blk, o), c, e);
  }

  lemma InsertedBehind(a: seq<DirEnt>, x: seq<DirEnt>, c: seq<DirEnt>, e: DirEnt)
    ensures Inserted(a + x + c, |a + x|, e) == a + (x + [e]) + c
  {
    assert (a + x + c)[..|a + x|] == a + x && (a + x + c)[|a + x|..] == c;
  }

  lemma LenRange(blk: Block, o: nat)
    requires o + HEADER <= |blk|
    ensures LenAt(blk, o) < 0x1_0000 && NameLenAt(blk, o) < 0x100
  {
  }

  /** A record whose bytes up to `e` agree reads the same. */
  lemma SameHead(blk: Block, blk': Block, o: nat, e: nat)
    requires |blk| == |blk'| && e <= |blk| && blk[..e] == blk'[..e] && o + HEADER <= e
    requires o + HEADER + NameLenAt(blk, o) <= e
    ensures InoAt(blk', o) == InoAt(blk, o) && LenAt(blk', o) == LenAt(blk, o)
    ensures NameLenAt(blk', o) == NameLenAt(blk, o)
    ensures EntAt(blk', o) == EntAt(blk, o)
  {
    forall k | o <= k < e ensures blk'[k] == blk[k] { assert blk'[..e][k] == blk[..e][k]; }
    assert blk'[o + HEADER..o + HEADER + NameLenAt(blk, o)] == blk[o + HEADER..o + HEADER + NameLenAt(blk, o)];
  }

  lemma SplitOutside(blk: Block, b1: Block, b2: Block, r: Block, o: nat, own: nat, next: nat, n: nat)
    requires |blk| == |b1| == |b2| == |r| && HEADER <= own && o + own + HEADER + n <= next <= |blk|
    requires b1[..o] == blk[..o] && b1[o + HEADER..] == blk[o + HEADER..]
    requires b2[..o + own] == b1[..o + own] && b2[o + own + HEADER..] == b1[o + own + HEADER..]
    requires r[..o + own] == b2[..o + own] && r[o + own + HEADER + n..] == b2[o + own + HEADER + n..]
    ensures r[..o] == blk[..o] && r[next..] == blk[next..] && r[..o + own] == b1[..o + own]
  {
    assert r[..o] == r[..o + own][..o] && b1[..o] == b1[..o + own][..o];
    forall k | next <= k < |blk| ensures r[k] == blk[k] {
      assert r[k] == r[o + own + HEADER + n..][k - (o + own + HEADER + n)] == b2[k];
      assert b2[k] == b2[o + own + HEADER..][k - (o + own + HEADER)] == b1[k];
      assert b1[k] == b1[o + HEADER..][k - (o + HEADER)] == blk[k];
    }
  }

  /** Removing the first record of a block: its inode is cleared. */
  lemma ClearDone(blk: Block, o: nat)
    requires Tiled(blk, 0, o) && Tiled(blk, o, |blk|) && o < |blk| && Live(blk, o)
    ensures var r := SetIno(blk, o, 0);
      Tiled(r, 0, |blk|) && |Ents(blk, 0, o)| < |Ents(blk, 0, |blk|)| &&
        Ents(r, 0, |blk|) == Removed(Ents(blk, 0, |blk|), |Ents(blk, 0, o)|)
  {
    hide Tiled, Ents;
    Scanned(blk, o);
    var next := o + LenAt(blk, o);
    var r := SetIno(blk, o, 0);
    assert r[..o] == blk[..o] && r[next..] == blk[next..];
    One(r, o, next);
    Replace(blk, r, o, next);
    Dropping(Ents(blk, 0, o), EntAt(blk, o), Ents(blk, next, |blk|));
  }

  lemma Dropping(a: seq<DirEnt>, x: DirEnt, c: seq<DirEnt>)
    ensures Removed(a + [x] + c, |a|) == a + c && a + [] + c == a + c
  {
  }

  /** Removing a later record: the one before it takes over its bytes. */
  lemma MergeDone(blk: Block, p: nat, o: nat)
    requires Tiled(blk, 0, p) && Tiled(blk, p, |blk|) && p < |blk| && o == p + LenAt(blk, p) && o < |blk|
    requires Tiled(blk, 0, o) && Tiled(blk, o, |blk|) && Live(blk, o) && LenAt(blk, p) + LenAt(blk, o) < 0x1_0000
    ensures var r := SetLen(blk, p, LenAt(blk, p) + LenAt(blk, o));
      Tiled(r, 0, |blk|) && |Ents(blk, 0, o)| < |Ents(blk, 0, |blk|)| &&
        Ents(r, 0, |blk|) == Removed(Ents(blk, 0, |blk|), |Ents(blk, 0, o)|)
  {
    hide Tiled, Ents, SetLen, InoAt, LenAt, EntAt;
    Scanned(blk, p);
    Scanned(blk, o);
    var next := o + LenAt(blk, o);
    var r := SetLen(blk, p, LenAt(blk, p) + LenAt(blk, o));
    SetLenReads(blk, p, LenAt(blk, p) + LenAt(blk, o));
    assert r[next..] == r[p + HEADER..][next - (p + HEADER)..] &&
      blk[next..] == blk[p + HEADER..][next - (p + HEADER)..];
    One(r, p, next);
    Replace(blk, r, p, next);
    Dropping(Ents(blk, 0, o), EntAt(blk, o), Ents(blk, next, |blk|));
  }

  // ---------------------------------------------------------------- lists of entries as maps

  /** Removing a record that names nothing changes no entry. */
  lemma ClearQuiet(blk: Block, o: nat)
    requires Tiled(blk, 0, o) && Tiled(blk, o, |blk|) && o < |blk| && !Live(blk, o)
    ensures var r := SetIno(blk, o, 0); Tiled(r, 0, |blk|) && Ents(r, 0, |blk|) == Ents(blk, 0, |blk|)
  {
    hide Tiled, Ents;
    Scanned(blk, o);
    var next := o + LenAt(blk, o);
    var r := SetIno(blk, o, 0);
    assert r[..o] == blk[..o] && r[next..] == blk[next..];
    One(r, o, next);
    Replace(blk, r, o, next);
  }

  lemma MergeQuiet(blk: Block, p: nat, o: nat)
    requires Tiled(blk, 0, p) && Tiled(blk, p, |blk|) && p < |blk| && o == p + LenAt(blk, p) && o < |blk|
    requires Tiled(blk, 0, o) && Tiled(blk, o, |blk|) && !Live(blk, o) && LenAt(blk, p) + LenAt(blk, o) < 0x1_0000
    ensures var r := SetLen(blk, p, LenAt(blk, p) + LenAt(blk, o));
      Tiled(r, 0, |blk|) && Ents(r, 0, |blk|) == Ents(blk, 0, |blk|)
  {
    hide Tiled, Ents, SetLen, InoAt, LenAt, EntAt;
    Scanned(blk, p);
    Scanned(blk, o);
    var next := o + LenAt(blk, o);
    var r := SetLen(blk, p, LenAt(blk, p) + LenAt(blk, o));
    SetLenReads(blk, p, LenAt(blk, p) + LenAt(blk, o));
    assert r[next..] == r[p + HEADER..][next - (p + HEADER)..] &&
      blk[next..] == blk[p + HEADER..][next - (p + HEADER)..];
    One(r, p, next);
    Replace(blk, r, p, next);
  }

  /** What a lookup finds: the inode of the first entry with that name, 0 if there is none. */
  function Find(es: seq<DirEnt>, name: Name): nat {
    if es == [] then 0 else if es[0].name == name then es[0].ino else Find(es[1..], name)
  }

  ghost predicate Absent(es: seq<DirEnt>, name: Name) {
    forall k {:trigger es[k]} :: 0 <= k < |es| ==> es[k].name != name
  }

  ghost predicate Distinct(es: seq<DirEnt>) {
    forall i, j {:trigger es[i], es[j]} :: 0 <= i < j < |es| ==> es[i].name != es[j].name
  }

  lemma {:induction false} FindAppend(a: seq<DirEnt>, b: seq<DirEnt>, name: Name)
    requires Filled(a)
    ensures Find(a + b, name) == if Find(a, name) != 0 then Find(a, name) else Find(b, name)
  {
    if a == [] {
      assert a + b == b;
    } else {
      assert (a + b)[1..] == a[1..] + b;
      FindAppend(a[1..], b, name);
    }
  }

  lemma {:induction false} FindNone(es: seq<DirEnt>, name: Name)
    requires Absent(es, name)
    ensures Find(es, name) == 0
  {
    if es != [] { FindNone(es[1..], name); }
  }

  lemma {:induction false} FindSome(es: seq<DirEnt>, name: Name) returns (k: nat)
    requires Find(es, name) != 0
    ensures k < |es| && es[k].name == name && es[k].ino == Find(es, name)
  {
    if es[0].name == name { return 0; }
    k := FindSome(es[1..], name);
    k := k + 1;
  }

  ghost predicate Filled(es: seq<DirEnt>) { forall k {:trigger es[k]} :: 0 <= k < |es| ==> es[k].ino != 0 }

  /** Adding a fresh name makes it found and leaves all other names alone. */
  lemma FindInserted(es: seq<DirEnt>, i: nat, e: DirEnt, x: Name)
    requires Filled(es) && i <= |es| && e.ino != 0 && Find(es, e.name) == 0
    ensures Find(Inserted(es, i, e), x) == if x == e.name then e.ino else Find(es, x)
  {
    hide Find;
    var a, c := es[..i], es[i..];
    assert a + c == es;
    FindOne(e, x);
    FindAppend(a, c, x);
    FindAppend(a, c, e.name);
    FindAppend(a + [e], c, x);
    FindAppend(a, [e], x);
  }

  /** Names stay distinct. */
  lemma DistinctInserted(es: seq<DirEnt>, i: nat, e: DirEnt)
    requires Filled(es) && Distinct(es) && i <= |es| && e.ino != 0 && Find(es, e.name) == 0
    ensures Distinct(Inserted(es, i, e)) && Filled(Inserted(es, i, e))
  {
    hide Find, Inserted;
    forall k | 0 <= k < |es| ensures es[k].name != e.name { FindHit(es, k); }
    var r := Inserted(es, i, e);
    InsertedAt(es, i, e, i);
    forall k: nat, l: nat | k < l < |r|
      ensures r[k].name != r[l].name
    {
      InsertedAt(es, i, e, k);
      InsertedAt(es, i, e, l);
    }
    forall k: nat | k < |r| ensures r[k].ino != 0 { InsertedAt(es, i, e, k); }
  }

  lemma InsertedAt(es: seq<DirEnt>, i: nat, e: DirEnt, k: nat)
    requires i <= |es| && k <= |es|
    ensures |Inserted(es, i, e)| == |es| + 1
    ensures Inserted(es, i, e)[k] == if k < i then es[k] else if k == i then e else es[k - 1]
  {
  }

  lemma FindOne(e: DirEnt, x: Name)
    ensures Find([e], x) == if x == e.name then e.ino else 0
  {
  }

  lemma {:induction false} FindHit(es: seq<DirEnt>, k: nat)
    requires Filled(es) && k < |es|
    ensures Find(es, es[k].name) != 0
  {
    if k > 0 { FindHit(es[1..], k - 1); }
  }

  /** Removing an entry makes its name absent and leaves all other names alone. */
  lemma FindRemoved(es: seq<DirEnt>, i: nat, x: Name)
    requires Filled(es) && Distinct(es) && i < |es|
    ensures Find(Removed(es, i), x) == if x == es[i].name then 0 else Find(es, x)
    ensures Filled(Removed(es, i)) && Distinct(Removed(es, i))
  {
    hide Find, Distinct;
    var a, e, c := es[..i], es[i], es[i + 1..];
    assert a + ([e] + c) == es;
    FindOne(e, x);
    FindAppend(a, c, x);
    FindAppend(a, [e] + c, x);
    FindAppend([e], c, x);
    DistinctRemoved(es, i);
    if x == e.name { FindNone(Removed(es, i), x); }
  }

  lemma DistinctRemoved(es: seq<DirEnt>, i: nat)
    requires Distinct(es) && i < |es|
    ensures Distinct(Removed(es, i)) && Absent(Removed(es, i), es[i].name)
  {
    hide Removed;
    var r := Removed(es, i);
    RemovedSize(es, i);
    forall k: nat, l: nat | k < l < |r| ensures r[k].name != r[l].name { RemovedAt(es, i, k); RemovedAt(es, i, l); }
    forall k: nat | k < |r| ensures r[k].name != es[i].name { RemovedAt(es, i, k); }
  }

  lemma RemovedSize(es: seq<DirEnt>, i: nat)
    requires i < |es|
    ensures |Removed(es, i)| == |es| - 1
  {
  }

  lemma RemovedAt(es: seq<DirEnt>, i: nat, k: nat)
    requires i < |es| && k < |es| - 1
    ensures |Removed(es, i)| == |es| - 1 && Removed(es, i)[k] == if k < i then es[k] else es[k + 1]
  {
  }

  // ---------------------------------------------------------------- scanning one block

  /** What a directory block may hold: records all through, or nothing readable at its start (a hole reads as zeros). */
  predicate DirBlock(blk: Block) {
    |blk| >= HEADER && (Tiled(blk, 0, |blk|) || LenAt(blk, 0) == 0)
  }

  predicate NameIs(blk: Block, o: nat, name: Name)
    requires o + HEADER <= |blk|
  {
    NameLenAt(blk, o) == |name| && o + HEADER + |name| <= |blk| && blk[o + HEADER..o + HEADER + |name|] == name
  }

  /** The record loop of lookup and remove over the block that starts at byte `base` of a directory of `size` bytes:
      the first live record called `name`, and the record before it.  Lookup also asks for a name of at least one
      byte. */
  method FindRec(blk: Block, name: Name, base: nat, size: nat, named: bool) returns (found: bool, o: nat, prev: int)
    requires DirBlock(blk) && base + |blk| <= size
    ensures found ==> Tiled(blk, 0, o) && Tiled(blk, o, |blk|) && o + HEADER <= |blk| && NameIs(blk, o, name)
    ensures found ==> InoAt(blk, o) != 0 && (Live(blk, o) <==> 0 < |name|) && (named ==> Live(blk, o))
    ensures found ==> Absent(Ents(blk, 0, o), name)
    ensures found && prev < 0 ==> o == 0
    ensures found && prev >= 0 ==>
      Tiled(blk, 0, prev) && Tiled(blk, prev, |blk|) && prev + HEADER <= |blk| && o == prev + LenAt(blk, prev) &&
      prev < o
    ensures !found ==> Absent(Ents(blk, 0, |blk|), name)
  {
    hide Tiled, Ents, LenAt, InoAt, EntAt;
    o, prev := 0, -1;
    if LenAt(blk, 0) == 0 {
      Unreadable(blk);
      return false, 0, -1;
    }
    Whole(blk);
    while o < |blk|
      invariant o <= |blk| && Tiled(blk, 0, o) && Tiled(blk, o, |blk|) && Absent(Ents(blk, 0, o), name)
      invariant prev < 0 ==> o == 0
      invariant prev >= 0 ==>
        Tiled(blk, 0, prev) && Tiled(blk, prev, |blk|) && prev + HEADER <= |blk| && o == prev + LenAt(blk, prev) &&
        prev < o
    {
      Scanned(blk, o);
      if base + o >= size || LenAt(blk, o) == 0 { break; }
      if InoAt(blk, o) != 0 && (named ==> NameLenAt(blk, o) > 0) && NameIs(blk, o, name) {
        return true, o, prev;
      }
      OtherName(blk, o, name);
      prev := o;
      o := o + LenAt(blk, o);
    }
    found := false;
  }

  lemma OtherName(blk: Block, o: nat, name: Name)
    requires RecOk(blk, o, |blk|) && !(Live(blk, o) && NameIs(blk, o, name))
    ensures Absent(EntsOf(blk, o), name)
  {
  }

  lemma Unreadable(blk: Block)
    requires |blk| >= HEADER && LenAt(blk, 0) == 0
    ensures Ents(blk, 0, |blk|) == [] && !Tiled(blk, 0, |blk|)
  {
  }

  lemma Whole(blk: Block)
    requires DirBlock(blk) && LenAt(blk, 0) != 0
    ensures Tiled(blk, 0, |blk|) && Tiled(blk, 0, 0) && Ents(blk, 0, 0) == []
  {
  }

  /** The record at `o` is free and long enough, or live with enough slack behind its name. */
  predicate Fits(blk: Block, o: nat, n: nat)
    requires o + HEADER <= |blk|
  {
    if InoAt(blk, o) == 0 then LenAt(blk, o) >= Need(n) else LenAt(blk, o) - Need(NameLenAt(blk, o)) >= Need(n)
  }

  /** Some record from `o` on has room for a name of `n` bytes. */
  predicate Room(blk: Block, o: nat, to: nat, n: nat)
    decreases if o < to then to - o else 0
  {
    o < to && RecOk(blk, o, to) && (Fits(blk, o, n) || Room(blk, o + LenAt(blk, o), to, n))
  }

  lemma RoomStep(blk: Block, o: nat, n: nat)
    requires o < |blk| && RecOk(blk, o, |blk|)
    ensures Room(blk, o, |blk|, n) <==> Fits(blk, o, n) || Room(blk, o + LenAt(blk, o), |blk|, n)
  {
    hide LenAt, InoAt;
  }

  lemma NoRoomAtEnd(blk: Block, n: nat)
    ensures !Room(blk, |blk|, |blk|, n)
    ensures |blk| >= HEADER && LenAt(blk, 0) == 0 ==> !Room(blk, 0, |blk|, n)
  {
    hide InoAt;
  }

  /** The record loop of add: the first free record that is long enough or live record with enough slack, edited to
      hold `e`. */
  method AddTo(blk: Block, e: DirEnt) returns (done: bool, r: Block, ghost i: nat)
    requires DirBlock(blk) && EntOk(e)
    ensures done <==> Room(blk, 0, |blk|, |e.name|)
    ensures !done ==> r == blk
    ensures done ==> |r| == |blk| && Tiled(r, 0, |r|) && i <= |Ents(blk, 0, |blk|)|
    ensures done ==> Ents(r, 0, |r|) == Inserted(Ents(blk, 0, |blk|), i, e)
  {
    hide Tiled, Ents, LenAt, InoAt, EntAt, SetEnt, SetLen, Inserted, EntsOf, Room;
    var o := 0;
    i := 0;
    NoRoomAtEnd(blk, |e.name|);
    if LenAt(blk, 0) == 0 { return false, blk, 0; }
    Whole(blk);
    while o < |blk|
      invariant o <= |blk| && Tiled(blk, 0, o) && Tiled(blk, o, |blk|)
      invariant Room(blk, 0, |blk|, |e.name|) <==> Room(blk, o, |blk|, |e.name|)
    {
      Scanned(blk, o);
      RoomStep(blk, o, |e.name|);
      if LenAt(blk, o) == 0 { break; }
      var own := Need(NameLenAt(blk, o));
      if InoAt(blk, o) == 0 && LenAt(blk, o) >= Need(|e.name|) {
        ReuseDone(blk, o, e);
        return true, SetEnt(blk, o, e), |Ents(blk, 0, o)|;
      }
      if InoAt(blk, o) != 0 && LenAt(blk, o) - own >= Need(|e.name|) {
        SplitDone(blk, o, e);
        i := |Ents(blk, 0, o + LenAt(blk, o))|;
        r := SetLen(blk, o, own);
        r := SetLen(r, o + own, LenAt(blk, o) - own);
        r := SetEnt(r, o + own, e);
        return true, r, i;
      }
      o := o + LenAt(blk, o);
    }
    return false, blk, 0;
  }

  /** Remove: the record is merged into the one before it, or loses its inode when it is the first.  The empty name
      stands for records that name nothing, which are no entries. */
  method RemoveFrom(blk: Block, name: Name, base: nat, size: nat)
    returns (done: bool, r: Block, ghost i: nat, ghost at: nat)
    requires DirBlock(blk) && base + |blk| <= size && |blk| < 0x1_0000
    ensures !done ==> r == blk && Absent(Ents(blk, 0, |blk|), name)
    ensures done ==> |r| == |blk| && Tiled(r, 0, |r|)
    ensures done && name == [] ==> Ents(r, 0, |r|) == Ents(blk, 0, |blk|)
    ensures done && name != [] ==>
      i < |Ents(blk, 0, |blk|)| && Ents(blk, 0, |blk|)[i].name == name && Absent(Ents(blk, 0, |blk|)[..i], name) &&
      Ents(r, 0, |r|) == Removed(Ents(blk, 0, |blk|), i)
    ensures done ==> Room(r, 0, |r|, |name|) && Joined(blk, at, r) && at + HEADER <= |blk| && NameIs(blk, at, name)
  {
    hide Tiled, Ents, LenAt, InoAt, EntAt, SetLen, SetIno, Removed, Room, Joined;
    var o, prev;
    done, o, prev := FindRec(blk, name, base, size, false);
    if !done { return false, blk, 0, 0; }
    Scanned(blk, o);
    i, at := |Ents(blk, 0, o)|, o;
    if name != [] { FoundAt(blk, o, name); }
    if prev >= 0 {
      Scanned(blk, prev);
      if name == [] { MergeQuiet(blk, prev, o); } else { MergeDone(blk, prev, o); }
      r := SetLen(blk, prev, LenAt(blk, prev) + LenAt(blk, o));
      RoomMerged(blk, prev, o, |name|);
    } else {
      if name == [] { ClearQuiet(blk, o); } else { ClearDone(blk, o); }
      r := SetIno(blk, o, 0);
      RoomCleared(blk, |name|);
    }
  }

  /** The first record of a block is marked free; any other goes to the record before it. */
  ghost predicate Joined(blk: Block, o: nat, r: Block) {
    && o + HEADER <= |blk| && (o == 0 ==> r == SetIno(blk, 0, 0))
    && (o > 0 ==> exists p: nat {:trigger Tiled(blk, 0, p)} ::
          Tiled(blk, 0, p) && p < o == p + LenAt(blk, p) && r == SetLen(blk, p, LenAt(blk, p) + LenAt(blk, o)))
  }

  lemma {:induction false} RoomVia(blk: Block, s: nat, o: nat, n: nat)
    requires Tiled(blk, s, o) && o < |blk| && RecOk(blk, o, |blk|) && Fits(blk, o, n)
    ensures Room(blk, s, |blk|, n)
    decreases if s < o then o - s else 0
  {
    hide LenAt, InoAt, Fits;
    if s != o { RoomVia(blk, s + LenAt(blk, s), o, n); }
  }

  lemma RoomCleared(blk: Block, n: nat)
    requires Tiled(blk, 0, |blk|) && 0 < |blk| && InoAt(blk, 0) != 0 && NameLenAt(blk, 0) == n
    ensures Room(SetIno(blk, 0, 0), 0, |blk|, n) && Joined(blk, 0, SetIno(blk, 0, 0))
  {
    hide Ents;
    var r := SetIno(blk, 0, 0);
    assert RecOk(blk, 0, |blk|);
    assert LenAt(r, 0) == LenAt(blk, 0) && InoAt(r, 0) == 0;
    RoomVia(r, 0, 0, n);
  }

  lemma RoomMerged(blk: Block, p: nat, o: nat, n: nat)
    requires Tiled(blk, 0, p) && Tiled(blk, p, |blk|) && p < |blk| && o == p + LenAt(blk, p) && p < o < |blk|
    requires Tiled(blk, o, |blk|) && InoAt(blk, o) != 0 && NameLenAt(blk, o) == n
    requires LenAt(blk, p) + LenAt(blk, o) < 0x1_0000
    ensures var r := SetLen(blk, p, LenAt(blk, p) + LenAt(blk, o)); Room(r, 0, |blk|, n) && Joined(blk, o, r)
  {
    hide Tiled, Ents, SetLen, InoAt, LenAt, EntAt, Need;
    Scanned(blk, p);
    Scanned(blk, o);
    var r := SetLen(blk, p, LenAt(blk, p) + LenAt(blk, o));
    SetLenReads(blk, p, LenAt(blk, p) + LenAt(blk, o));
    assert blk[0..p] == blk[..p] && r[0..p] == r[..p];
    SameRun(blk, r, 0, p);
    RoomVia(r, 0, p, n);
  }

  lemma FoundAt(blk: Block, o: nat, name: Name)
    requires Tiled(blk, 0, o) && Tiled(blk, o, |blk|) && o + HEADER <= |blk| && Live(blk, o) && NameIs(blk, o, name)
    ensures var es, i := Ents(blk, 0, |blk|), |Ents(blk, 0, o)|;
      i < |es| && es[i].name == name && es[i].ino == InoAt(blk, o) && es[..i] == Ents(blk, 0, o)
  {
    hide Tiled, Ents, LenAt, InoAt;
    Scanned(blk, o);
    assert EntsOf(blk, o) == [EntAt(blk, o)];
  }
}
