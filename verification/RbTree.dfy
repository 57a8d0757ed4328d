/** The intrusive red-black tree: rotations, insert fix-up, erase and in-order step.

    Node addresses are numbers and `Mem` maps each address to the fields of the node that lives there,
    so a C assignment `x->right = v` is one update of the cell at `x`.  `NULL` is never a node.

    A tree is described from the outside by two ghost maps.  `Spans` gives every node the index it has in
    the in-order sequence together with the half-open range of indices its subtree covers.  `Heights`
    gives every node the number of black nodes on any path from it down to a leaf.  Both make the tree
    conditions local to one node and its children. */
module RbTree {
  type Ptr = int
  const NULL: Ptr := 0

  datatype Color = Red | Black

  datatype Side = L | R {
    function Opp(): Side { if L? then R else L }
  }

  datatype Cell = Cell(left: Ptr, right: Ptr, parent: Ptr, color: Color) {
    function Kid(d: Side): Ptr { if d.L? then left else right }
    function SetKid(d: Side, c: Ptr): Cell { if d.L? then this.(left := c) else this.(right := c) }
    function Swap(a: Ptr, b: Ptr): Cell { if left == a then this.(left := b) else this.(right := b) }
  }

  type Mem = map<Ptr, Cell>

  datatype Span = Span(lo: int, pos: int, hi: int)
  type Spans = map<Ptr, Span>
  type Heights = map<Ptr, nat>

  // ---------------------------------------------------------------- link structure

  /** The subtree at `c`, a child of `n`, covers exactly the indices [lo, hi). */
  ghost predicate HangsAt(m: Mem, s: Spans, c: Ptr, n: Ptr, lo: int, hi: int) {
    if c == NULL then lo == hi
    else c in s && c in m && m[c].parent == n && s[c].lo == lo && s[c].hi == hi
  }

  ghost predicate Ok(m: Mem, root: Ptr, s: Spans, n: Ptr) {
    && n != NULL && n in m && n in s
    && s[n].lo <= s[n].pos < s[n].hi
    && HangsAt(m, s, m[n].left, n, s[n].lo, s[n].pos)
    && HangsAt(m, s, m[n].right, n, s[n].pos + 1, s[n].hi)
    && (if m[n].parent == NULL then root == n
        else m[n].parent in s && m[n].parent in m && (m[m[n].parent].left == n || m[m[n].parent].right == n))
  }

  /** Parent and child links agree everywhere and the root covers all `len` indices. */
  ghost predicate Wired(m: Mem, root: Ptr, s: Spans, len: int) {
    && HangsAt(m, s, root, NULL, 0, len)
    && forall n {:trigger Ok(m, root, s, n)} :: n in s ==> Ok(m, root, s, n)
  }

  /** `order` lists every node of the tree once, at the index its span gives it. */
  ghost predicate Listed(s: Spans, order: seq<Ptr>) {
    && (forall i {:trigger order[i]} :: 0 <= i < |order| ==> order[i] in s && s[order[i]].pos == i)
    && (forall n {:trigger s[n]} :: n in s ==>
         0 <= s[n].pos < |order| && order[s[n].pos] == n && 0 <= s[n].lo && s[n].hi <= |order|)
  }

  // ---------------------------------------------------------------- rotation

  /** Rotate `x` down to side `d`: its child on the other side takes its place. */
  function Rot(m: Mem, x: Ptr, d: Side): (r: Mem)
    requires x in m && m[x].Kid(d.Opp()) in m
  {
    var y := m[x].Kid(d.Opp()); var b := m[y].Kid(d); var p := m[x].parent;
    map q | q in m :: var c := m[q];
      if q == x then c.SetKid(d.Opp(), b).(parent := y)
      else if q == y then c.SetKid(d, x).(parent := p)
      else if q == NULL then c
      else if q == b then c.(parent := x)
      else if q == p then c.Swap(x, y)
      else c
  }

  ghost function RotSpans(s: Spans, x: Ptr, y: Ptr, d: Side): Spans
    requires x in s && y in s
  {
    s[y := s[y].(lo := s[x].lo, hi := s[x].hi)]
     [x := if d.L? then s[x].(hi := s[y].pos) else s[x].(lo := s[y].pos + 1)]
  }

  function RotRoot(root: Ptr, x: Ptr, y: Ptr): Ptr { if root == x then y else root }

  ghost predicate Around(m: Mem, root: Ptr, s: Spans, x: Ptr, y: Ptr, b: Ptr, p: Ptr, d: Side) {
    && Ok(m, root, s, x) && Ok(m, root, s, y)
    && y == m[x].Kid(d.Opp()) && b == m[y].Kid(d) && p == m[x].parent
    && (b != NULL ==> Ok(m, root, s, b)) && (p != NULL ==> Ok(m, root, s, p))
  }

  lemma LookAround(m: Mem, root: Ptr, s: Spans, len: int, x: Ptr, d: Side) returns (y: Ptr, b: Ptr, p: Ptr)
    requires Wired(m, root, s, len) && x in s && x in m && m[x].Kid(d.Opp()) != NULL
    ensures Around(m, root, s, x, y, b, p, d)
  {
    assert Ok(m, root, s, x);
    y := m[x].Kid(d.Opp());
    assert Ok(m, root, s, y);
    b, p := m[y].Kid(d), m[x].parent;
    if b != NULL { assert Ok(m, root, s, b); }
    if p != NULL { assert Ok(m, root, s, p); }
  }

  lemma RotDistinct(m: Mem, root: Ptr, s: Spans, x: Ptr, y: Ptr, b: Ptr, p: Ptr, d: Side)
    requires Around(m, root, s, x, y, b, p, d)
    ensures x != y && b != x && b != y && p != x && p != y && (b != NULL ==> p != b)
  {
  }

  lemma RotNear(m: Mem, root: Ptr, s: Spans, x: Ptr, y: Ptr, b: Ptr, p: Ptr, d: Side)
    requires Around(m, root, s, x, y, b, p, d)
    ensures var root', m', s' := RotRoot(root, x, y), Rot(m, x, d), RotSpans(s, x, y, d);
      Ok(m', root', s', x) && Ok(m', root', s', y) && (b != NULL ==> Ok(m', root', s', b))
  {
    RotDistinct(m, root, s, x, y, b, p, d);
    if d.L? { } else { }
  }

  lemma RotParent(m: Mem, root: Ptr, s: Spans, x: Ptr, y: Ptr, b: Ptr, p: Ptr, d: Side)
    requires Around(m, root, s, x, y, b, p, d) && p != NULL
    ensures Ok(Rot(m, x, d), RotRoot(root, x, y), RotSpans(s, x, y, d), p)
  {
    RotDistinct(m, root, s, x, y, b, p, d);
  }

  lemma RotFar(m: Mem, root: Ptr, s: Spans, x: Ptr, y: Ptr, b: Ptr, p: Ptr, d: Side, n: Ptr)
    requires Around(m, root, s, x, y, b, p, d) && Ok(m, root, s, n)
    requires n !in {x, y, b, p}
    ensures Ok(Rot(m, x, d), RotRoot(root, x, y), RotSpans(s, x, y, d), n)
  {
    RotDistinct(m, root, s, x, y, b, p, d);
    var m', s' := Rot(m, x, d), RotSpans(s, x, y, d);
    assert HangsAt(m', s', m[n].left, n, s[n].lo, s[n].pos);
    assert HangsAt(m', s', m[n].right, n, s[n].pos + 1, s[n].hi);
  }

  lemma RotOk(m: Mem, root: Ptr, s: Spans, x: Ptr, y: Ptr, b: Ptr, p: Ptr, d: Side, n: Ptr)
    requires Around(m, root, s, x, y, b, p, d) && Ok(m, root, s, n)
    ensures Ok(Rot(m, x, d), RotRoot(root, x, y), RotSpans(s, x, y, d), n)
  {
    if n == x || n == y || n == b { RotNear(m, root, s, x, y, b, p, d); }
    else if n == p { RotParent(m, root, s, x, y, b, p, d); }
    else { RotFar(m, root, s, x, y, b, p, d, n); }
  }

  lemma RotTop(m: Mem, root: Ptr, s: Spans, len: int, x: Ptr, y: Ptr, b: Ptr, p: Ptr, d: Side)
    requires Around(m, root, s, x, y, b, p, d) && HangsAt(m, s, root, NULL, 0, len)
    ensures HangsAt(Rot(m, x, d), RotSpans(s, x, y, d), RotRoot(root, x, y), NULL, 0, len)
  {
    RotDistinct(m, root, s, x, y, b, p, d);
  }

  /** Cells outside the tree are as they were. */
  ghost predicate Frame(m: Mem, m': Mem, tree: set<Ptr>) {
    m'.Keys == m.Keys && forall q {:trigger m'[q]} :: q in m && q !in tree ==> m'[q] == m[q]
  }

  lemma RotFrame(m: Mem, root: Ptr, s: Spans, len: int, x: Ptr, d: Side)
    requires Wired(m, root, s, len) && x in s && x in m && m[x].Kid(d.Opp()) != NULL
    ensures m[x].Kid(d.Opp()) in m && Frame(m, Rot(m, x, d), s.Keys)
  {
    var y, b, p := LookAround(m, root, s, len, x, d);
  }

  lemma RotStill(m: Mem, root: Ptr, s: Spans, len: int, x: Ptr, d: Side, z: Ptr)
    requires Wired(m, root, s, len) && x in s && x in m && m[x].Kid(d.Opp()) != NULL
    requires m[x].Kid(d.Opp()) in m && m[m[x].Kid(d.Opp())].Kid(d.Opp()) == z
    requires z in m && z != x && z != m[x].Kid(d.Opp()) && m[z].parent == m[x].Kid(d.Opp())
    ensures m[x].Kid(d.Opp()) in m && Rot(m, x, d)[z].parent == m[z].parent
  {
    var y, b, p := LookAround(m, root, s, len, x, d);
  }

  /** The six field writes of a rotation, in the order the code makes them. */
  lemma RotWrites(m: Mem, root: Ptr, s: Spans, x: Ptr, y: Ptr, b: Ptr, p: Ptr, d: Side)
    requires Around(m, root, s, x, y, b, p, d)
    ensures var m1 := m[x := m[x].SetKid(d.Opp(), b)];
      var m2 := if b == NULL then m1 else m1[b := m1[b].(parent := x)];
      var m3 := m2[y := m2[y].(parent := p)];
      var m4 := if p == NULL then m3
                else if x == m3[p].Kid(d) then m3[p := m3[p].SetKid(d, y)] else m3[p := m3[p].SetKid(d.Opp(), y)];
      var m5 := m4[y := m4[y].SetKid(d, x)];
      m5[x := m5[x].(parent := y)] == Rot(m, x, d)
  {
    RotDistinct(m, root, s, x, y, b, p, d);
    if p != NULL { assert m[p].left != m[p].right; }
  }

  /** A rotation keeps all links consistent and does not move any node in the in-order sequence. */
  lemma RotWired(m: Mem, root: Ptr, s: Spans, len: int, x: Ptr, d: Side)
    requires Wired(m, root, s, len) && x in s && x in m && m[x].Kid(d.Opp()) != NULL
    ensures m[x].Kid(d.Opp()) in s && m[x].Kid(d.Opp()) in m
    ensures var y := m[x].Kid(d.Opp());
      Wired(Rot(m, x, d), RotRoot(root, x, y), RotSpans(s, x, y, d), len)
  {
    var y, b, p := LookAround(m, root, s, len, x, d);
    RotTop(m, root, s, len, x, y, b, p, d);
    hide Ok, HangsAt, Rot;
    forall n | n in s ensures Ok(Rot(m, x, d), RotRoot(root, x, y), RotSpans(s, x, y, d), n) {
      RotOk(m, root, s, x, y, b, p, d, n);
    }
  }

  /** Same links, colours free. */
  ghost predicate SameLinks(m: Mem, m': Mem) {
    m'.Keys == m.Keys && forall q {:trigger m'[q]} :: q in m ==>
      m'[q].left == m[q].left && m'[q].right == m[q].right && m'[q].parent == m[q].parent
  }

  lemma SameLinksWired(m: Mem, m': Mem, root: Ptr, s: Spans, len: int)
    requires Wired(m, root, s, len) && SameLinks(m, m')
    ensures Wired(m', root, s, len)
  {
    forall n | n in s ensures Ok(m', root, s, n) { assert Ok(m, root, s, n); }
  }

  /** `m'` has the children of `m` after `x` went down to side `d` under `y`. */
  ghost predicate Turned(m: Mem, m': Mem, s: Spans, x: Ptr, y: Ptr, d: Side) {
    && m'.Keys == m.Keys && x in m && y in m && x != y
    && m'[x].Kid(d) == m[x].Kid(d) && m'[x].Kid(d.Opp()) == m[y].Kid(d) && m'[x].parent == y
    && m'[y].Kid(d) == x && m'[y].Kid(d.Opp()) == m[y].Kid(d.Opp()) && m'[y].parent == m[x].parent
    && (forall q {:trigger m'[q]} :: q in s && q in m && q != x && q != y ==>
           && m'[q].left == (if m[q].left == x then y else m[q].left)
           && m'[q].right == (if m[q].right == x then y else m[q].right))
  }

  lemma RotTurned(m: Mem, root: Ptr, s: Spans, len: int, x: Ptr, d: Side)
    requires Wired(m, root, s, len) && x in s && x in m && m[x].Kid(d.Opp()) != NULL
    ensures m[x].Kid(d.Opp()) in m && Turned(m, Rot(m, x, d), s, x, m[x].Kid(d.Opp()), d)
    ensures forall q {:trigger Rot(m, x, d)[q]} :: q in m ==> Rot(m, x, d)[q].color == m[q].color
  {
    var y, b, p := LookAround(m, root, s, len, x, d);
    RotDistinct(m, root, s, x, y, b, p, d);
    var m' := Rot(m, x, d);
    forall q | q in s && q in m && q != x && q != y
      ensures m'[q].left == (if m[q].left == x then y else m[q].left)
      ensures m'[q].right == (if m[q].right == x then y else m[q].right)
    {
      assert Ok(m, root, s, q);
    }
  }

  /** Recolour freely, then rotate: links stay consistent and the children are those of a rotation of `m`. */
  lemma Turn(m: Mem, m1: Mem, root: Ptr, s: Spans, len: int, x: Ptr, d: Side)
    requires Wired(m, root, s, len) && SameLinks(m, m1) && x in s && x in m && m[x].Kid(d.Opp()) != NULL
    ensures m[x].Kid(d.Opp()) in s && m1[x].Kid(d.Opp()) in m1
    ensures var m', y := Rot(m1, x, d), m[x].Kid(d.Opp());
      && Wired(m', RotRoot(root, x, y), RotSpans(s, x, y, d), len)
      && Turned(m, m', s, x, y, d)
      && (forall q {:trigger m'[q]} :: q in m ==> m'[q].color == m1[q].color)
  {
    SameLinksWired(m, m1, root, s, len);
    RotWired(m1, root, s, len, x, d);
    RotTurned(m1, root, s, len, x, d);
    hide Wired, Rot;
  }

  /** Recolouring inside the tree and rotating keeps the node set, the in-order sequence and the memory outside. */
  lemma TurnKeeps(m: Mem, m1: Mem, root: Ptr, s: Spans, order: seq<Ptr>, x: Ptr, d: Side)
    requires Wired(m, root, s, |order|) && Listed(s, order) && SameLinks(m, m1) && Frame(m, m1, s.Keys)
    requires x in s && x in m && m[x].Kid(d.Opp()) != NULL
    ensures Wired(m1, root, s, |order|) && m[x].Kid(d.Opp()) in s && m1[x].Kid(d.Opp()) in m1
    ensures var y := m[x].Kid(d.Opp());
      Listed(RotSpans(s, x, y, d), order) && RotSpans(s, x, y, d).Keys == s.Keys && Frame(m, Rot(m1, x, d), s.Keys)
  {
    SameLinksWired(m, m1, root, s, |order|);
    RotFrame(m1, root, s, |order|, x, d);
    assert Ok(m, root, s, x);
    assert Ok(m, root, s, m[x].Kid(d.Opp()));
    hide Wired, Rot;
  }

  function Paint(m: Mem, q: Ptr, c: Color): Mem
    requires q in m
  {
    m[q := m[q].(color := c)]
  }

  // ---------------------------------------------------------------- colours and black heights

  ghost predicate IsRed(m: Mem, q: Ptr) { q != NULL && q in m && m[q].color.Red? }

  ghost function Bh(bh: Heights, q: Ptr): nat { if q in bh then bh[q] else 0 }

  /** Black-height and red-red conditions for a node of colour `c` and height `h` with children `a` and `b` (in either
      order).  `ex` may be red under a red node; `da` and `db` are the black nodes owed below `a` and `b`. */
  ghost predicate Fine(m: Mem, bh: Heights, h: int, c: Color, a: Ptr, b: Ptr, ex: Ptr, da: int, db: int) {
    && (c.Red? ==> (IsRed(m, a) ==> a == ex) && (IsRed(m, b) ==> b == ex))
    && Bh(bh, a) + da == Bh(bh, b) + db
    && h == Bh(bh, a) + da + (if c.Black? then 1 else 0)
  }

  function Less(h: nat): nat { if h > 0 then h - 1 else 0 }

  function Owed(n: Ptr, hole: Ptr, side: Side, d: Side): int { if n == hole && side == d then 1 else 0 }

  /** Red-black conditions at `n`.  The child `ex` may be red under a red `n`, and the child of `hole` on `side` may be
      one black node short; `NULL` for either means no exception. */
  ghost predicate NodeOk(m: Mem, bh: Heights, n: Ptr, ex: Ptr, hole: Ptr, side: Side) {
    && n in m && n in bh
    && Fine(m, bh, bh[n], m[n].color, m[n].left, m[n].right, ex, Owed(n, hole, side, L), Owed(n, hole, side, R))
  }

  ghost predicate Balanced(m: Mem, bh: Heights, ex: Ptr, hole: Ptr, side: Side) {
    && NULL !in bh
    && forall n {:trigger NodeOk(m, bh, n, ex, hole, side)} :: n in bh ==> NodeOk(m, bh, n, ex, hole, side)
  }

  /** Links plus black heights for exactly the nodes of the tree. */
  ghost predicate Tree(m: Mem, root: Ptr, s: Spans, len: int, bh: Heights) {
    Wired(m, root, s, len) && bh.Keys == s.Keys
  }

  lemma At(m: Mem, root: Ptr, s: Spans, len: int, bh: Heights, ex: Ptr, hole: Ptr, side: Side, n: Ptr)
    requires Tree(m, root, s, len, bh) && Balanced(m, bh, ex, hole, side) && n in bh
    ensures Ok(m, root, s, n) && NodeOk(m, bh, n, ex, hole, side)
  {
  }

  lemma Excuse(m: Mem, bh: Heights, ex: Ptr, hole: Ptr, side: Side)
    requires Balanced(m, bh, NULL, hole, side)
    ensures Balanced(m, bh, ex, hole, side)
  {
    forall n | n in bh ensures NodeOk(m, bh, n, ex, hole, side) {
      assert NodeOk(m, bh, n, NULL, hole, side);
    }
  }

  /** A node outside a repaired region keeps its conditions when the subtree that hung at `x` now hangs at `y` with the
      same height and is no redder. */
  lemma FarNode(m: Mem, bh: Heights, m': Mem, bh': Heights, x: Ptr, y: Ptr, n: Ptr, ex: Ptr, ex': Ptr, hole: Ptr,
      side: Side)
    requires NodeOk(m, bh, n, ex, hole, side)
    requires n in m' && n in bh' && bh'[n] == bh[n] && m'[n].color == m[n].color
    requires m'[n].left == (if m[n].left == x then y else m[n].left)
    requires m'[n].right == (if m[n].right == x then y else m[n].right)
    requires Bh(bh', y) == Bh(bh, x) && (IsRed(m', y) ==> IsRed(m, x))
    requires forall k :: k in {m[n].left, m[n].right} && k != x ==>
      Bh(bh', k) == Bh(bh, k) && (IsRed(m', k) ==> IsRed(m, k)) && (k == ex ==> k == ex' || !IsRed(m', k))
    requires x != ex
    ensures NodeOk(m', bh', n, ex', hole, side)
  {
  }

  // ---------------------------------------------------------------- insert fix-up, case by case

  lemma InsertRecolorNode(m: Mem, root: Ptr, s: Spans, bh: Heights, z: Ptr, p: Ptr, u: Ptr, g: Ptr, d: Side, n: Ptr)
    requires Ok(m, root, s, g) && Ok(m, root, s, p) && Ok(m, root, s, n) && bh.Keys == s.Keys && NULL !in bh
    requires NodeOk(m, bh, g, z, NULL, L) && NodeOk(m, bh, n, z, NULL, L)
    requires z in m && m[z].parent == p && p != z && m[p].parent == g
    requires m[p].color.Red? && p == m[g].Kid(d) && u == m[g].Kid(d.Opp()) && IsRed(m, u)
    ensures var m' := Paint(Paint(Paint(m, p, Black), u, Black), g, Red);
      NodeOk(m', bh[p := bh[p] + 1][u := Bh(bh, u) + 1], n, g, NULL, L)
  {
  }

  lemma InsertRecolor(m: Mem, root: Ptr, s: Spans, len: int, bh: Heights, z: Ptr, p: Ptr, u: Ptr, g: Ptr, d: Side)
    requires Tree(m, root, s, len, bh) && Balanced(m, bh, z, NULL, L)
    requires z in m && p in s && g in s && p in m && g in m && p != z
    requires m[z].parent == p && m[p].parent == g
    requires m[p].color.Red? && p == m[g].Kid(d) && u == m[g].Kid(d.Opp()) && IsRed(m, u)
    ensures var m' := Paint(Paint(Paint(m, p, Black), u, Black), g, Red);
      var bh' := bh[p := bh[p] + 1][u := Bh(bh, u) + 1];
      Tree(m', root, s, len, bh') && Balanced(m', bh', g, NULL, L)
  {
    var m' := Paint(Paint(Paint(m, p, Black), u, Black), g, Red);
    SameLinksWired(m, m', root, s, len);
    assert Ok(m, root, s, g) && Ok(m, root, s, p);
    assert NodeOk(m, bh, g, z, NULL, L);
    forall n | n in bh ensures NodeOk(m', bh[p := bh[p] + 1][u := Bh(bh, u) + 1], n, g, NULL, L) {
      assert Ok(m, root, s, n) && NodeOk(m, bh, n, z, NULL, L);
      InsertRecolorNode(m, root, s, bh, z, p, u, g, d, n);
    }
  }

  ghost function RaiseHeights(bh: Heights, p: Ptr, g: Ptr): Heights { bh[p := Bh(bh, p) + 1][g := Less(Bh(bh, g))] }

  lemma RaisePair(m: Mem, root: Ptr, s: Spans, m': Mem, bh: Heights, z: Ptr, p: Ptr, g: Ptr, d: Side, hole: Ptr,
      side: Side)
    requires Ok(m, root, s, g) && Ok(m, root, s, p) && bh.Keys == s.Keys && NULL !in bh
    requires NodeOk(m, bh, g, z, hole, side) && NodeOk(m, bh, p, z, hole, side)
    requires m[p].color.Red? && p == m[g].Kid(d) && p != z && !IsRed(m, m[g].Kid(d.Opp()))
    requires !IsRed(m, m[p].Kid(d.Opp()))
    requires hole != p && (hole == g ==> side == d.Opp())
    requires Turned(m, m', s, g, p, d.Opp())
    requires m'[p].color.Black? && m'[g].color.Red?
    requires forall q {:trigger m'[q]} :: q in m && q != p && q != g ==> m'[q].color == m[q].color
    ensures NodeOk(m', RaiseHeights(bh, p, g), g, NULL, hole, side)
    ensures NodeOk(m', RaiseHeights(bh, p, g), p, NULL, hole, side)
  {
    var bh' := RaiseHeights(bh, p, g);
    var b, u, o := m[p].Kid(d.Opp()), m[g].Kid(d.Opp()), m[p].Kid(d);
    assert b != p && b != g && u != p && u != g && o != p && o != g;
    assert Fine(m', bh', bh'[g], Red, b, u, NULL, Owed(g, hole, side, d), Owed(g, hole, side, d.Opp()));
    assert Fine(m', bh', bh'[p], Black, o, g, NULL, 0, 0);
  }

  lemma RaiseNode(m: Mem, root: Ptr, s: Spans, m': Mem, bh: Heights, z: Ptr, p: Ptr, g: Ptr, d: Side, hole: Ptr,
      side: Side, n: Ptr)
    requires Ok(m, root, s, g) && Ok(m, root, s, p) && Ok(m, root, s, n) && bh.Keys == s.Keys && NULL !in bh
    requires NodeOk(m, bh, g, z, hole, side) && NodeOk(m, bh, p, z, hole, side) && NodeOk(m, bh, n, z, hole, side)
    requires m[p].color.Red? && p == m[g].Kid(d) && p != z && !IsRed(m, m[g].Kid(d.Opp()))
    requires !IsRed(m, m[p].Kid(d.Opp()))
    requires hole != p && (hole == g ==> side == d.Opp()) && (z != NULL ==> z in m && m[z].parent == p)
    requires Turned(m, m', s, g, p, d.Opp())
    requires m'[p].color.Black? && m'[g].color.Red?
    requires forall q {:trigger m'[q]} :: q in m && q != p && q != g ==> m'[q].color == m[q].color
    ensures NodeOk(m', RaiseHeights(bh, p, g), n, NULL, hole, side)
  {
    var bh' := RaiseHeights(bh, p, g);
    if n == g || n == p {
      RaisePair(m, root, s, m', bh, z, p, g, d, hole, side);
    } else {
      FarNode(m, bh, m', bh', g, p, n, z, NULL, hole, side);
    }
  }

  lemma RaiseTurn(m: Mem, root: Ptr, s: Spans, len: int, p: Ptr, g: Ptr, d: Side) returns (m': Mem)
    requires Wired(m, root, s, len)
    requires g in s && g in m && p in m && p == m[g].Kid(d) && p != NULL
    ensures p in s
    ensures var m1 := Paint(Paint(m, p, Black), g, Red); m1[g].Kid(d) == p && m' == Rot(m1, g, d.Opp())
    ensures Wired(m', RotRoot(root, g, p), RotSpans(s, g, p, d.Opp()), len)
    ensures Turned(m, m', s, g, p, d.Opp())
    ensures m'[p].color.Black? && m'[g].color.Red?
    ensures forall q {:trigger m'[q]} :: q in m && q != p && q != g ==> m'[q].color == m[q].color
  {
    assert Ok(m, root, s, g) && Ok(m, root, s, p);
    var m1 := Paint(Paint(m, p, Black), g, Red);
    Turn(m, m1, root, s, len, g, d.Opp());
    m' := Rot(m1, g, d.Opp());
    hide Rot;
  }

  /** Make the red child `p` of `g` black, `g` red, and rotate `p` above `g`.  This ends an insertion whose new red
      node is the outer child `z` of `p`, and it is the first and the third step of the erase repair. */
  lemma Raise(m: Mem, root: Ptr, s: Spans, len: int, bh: Heights, z: Ptr, p: Ptr, g: Ptr, d: Side, hole: Ptr,
      side: Side)
    requires Tree(m, root, s, len, bh) && Balanced(m, bh, z, hole, side)
    requires g in s && g in m && p in m && p == m[g].Kid(d) && p != NULL && m[p].color.Red? && p != z
    requires !IsRed(m, m[g].Kid(d.Opp())) && !IsRed(m, m[p].Kid(d.Opp()))
    requires hole != p && (hole == g ==> side == d.Opp()) && (z != NULL ==> z in m && m[z].parent == p)
    ensures var m1 := Paint(Paint(m, p, Black), g, Red);
      && p in s && m1[g].Kid(d) == p
      && Tree(Rot(m1, g, d.Opp()), RotRoot(root, g, p), RotSpans(s, g, p, d.Opp()), len, RaiseHeights(bh, p, g))
      && Balanced(Rot(m1, g, d.Opp()), RaiseHeights(bh, p, g), NULL, hole, side)
  {
    hide Rot, NodeOk, HangsAt, Wired, Turned, RotSpans;
    var m' := RaiseTurn(m, root, s, len, p, g, d);
    RotKeys(s, g, p, d.Opp());
    At(m, root, s, len, bh, z, hole, side, g);
    At(m, root, s, len, bh, z, hole, side, p);
    hide Ok;
    forall n | n in bh ensures NodeOk(m', RaiseHeights(bh, p, g), n, NULL, hole, side) {
      At(m, root, s, len, bh, z, hole, side, n);
      RaiseNode(m, root, s, m', bh, z, p, g, d, hole, side, n);
    }
  }

  lemma InnerNode(m: Mem, root: Ptr, s: Spans, m': Mem, bh: Heights, z: Ptr, p: Ptr, d: Side, n: Ptr)
    requires Ok(m, root, s, z) && Ok(m, root, s, p) && Ok(m, root, s, n) && bh.Keys == s.Keys && NULL !in bh
    requires NodeOk(m, bh, z, z, NULL, L) && NodeOk(m, bh, p, z, NULL, L) && NodeOk(m, bh, n, z, NULL, L)
    requires m[p].color.Red? && m[z].color.Red? && z == m[p].Kid(d.Opp())
    requires Turned(m, m', s, p, z, d)
    requires forall q {:trigger m'[q]} :: q in m ==> m'[q].color == m[q].color
    ensures NodeOk(m', bh, n, p, NULL, L)
  {
    if n == p {
      assert Fine(m', bh, bh[p], Red, m[p].Kid(d), m[z].Kid(d), p, 0, 0);
    } else if n == z {
      assert Fine(m', bh, bh[z], Red, p, m[z].Kid(d.Opp()), p, 0, 0);
    } else {
      FarNode(m, bh, m', bh, p, z, n, z, p, NULL, L);
    }
  }

  /** A red inner child `z` of the red node `p` goes above it: now `p` is the offending outer child. */
  lemma Inner(m: Mem, root: Ptr, s: Spans, len: int, bh: Heights, z: Ptr, p: Ptr, d: Side)
    requires Tree(m, root, s, len, bh) && Balanced(m, bh, z, NULL, L)
    requires p in s && p in m && z in m && z == m[p].Kid(d.Opp()) && z != NULL && m[p].color.Red? && m[z].color.Red?
    ensures z in s && Tree(Rot(m, p, d), RotRoot(root, p, z), RotSpans(s, p, z, d), len, bh)
    ensures Balanced(Rot(m, p, d), bh, p, NULL, L)
  {
    Turn(m, m, root, s, len, p, d);
    var m' := Rot(m, p, d);
    assert Ok(m, root, s, z) && Ok(m, root, s, p) && NodeOk(m, bh, z, z, NULL, L) && NodeOk(m, bh, p, z, NULL, L);
    hide Rot;
    forall n | n in bh ensures NodeOk(m', bh, n, p, NULL, L) {
      assert Ok(m, root, s, n) && NodeOk(m, bh, n, z, NULL, L);
      InnerNode(m, root, s, m', bh, z, p, d, n);
    }
  }

  ghost function TopHeights(m: Mem, bh: Heights, q: Ptr): Heights { if IsRed(m, q) then bh[q := Bh(bh, q) + 1] else bh }

  /** `ex` is an excusable exception for `q`: it is `q` itself, a child of `q`, or none. */
  ghost predicate Excused(m: Mem, ex: Ptr, q: Ptr) {
    ex == NULL || ex == q || (ex in m && m[ex].parent == q && q != NULL)
  }

  /** Painting black a node whose parent owes it a black node, or has none, removes the exceptions. */
  lemma PaintBlack(m: Mem, root: Ptr, s: Spans, len: int, bh: Heights, q: Ptr, ex: Ptr, hole: Ptr, side: Side)
    requires Tree(m, root, s, len, bh) && Balanced(m, bh, ex, hole, side) && Excused(m, ex, q) && q in s && q in m
    requires if hole == NULL then q == root else hole in m && hole in s && m[hole].Kid(side) == q && m[q].color.Red?
    ensures Tree(Paint(m, q, Black), root, s, len, TopHeights(m, bh, q))
    ensures Balanced(Paint(m, q, Black), TopHeights(m, bh, q), NULL, NULL, L)
  {
    var m', bh' := Paint(m, q, Black), TopHeights(m, bh, q);
    SameLinksWired(m, m', root, s, len);
    assert Ok(m, root, s, q);
    if hole != NULL { assert Ok(m, root, s, hole); } else { assert m[q].parent == NULL; }
    hide Wired;
    forall n | n in bh ensures NodeOk(m', bh', n, NULL, NULL, L) {
      assert Ok(m, root, s, n) && NodeOk(m, bh, n, ex, hole, side);
    }
  }

  /** `z` is a red child of a red node whose parent has it on side `d` and no red child on the other. */
  ghost predicate Offends(m: Mem, s: Spans, z: Ptr, d: Side) {
    && z in s && z in m && m[z].color.Red? && m[z].parent in s && IsRed(m, m[z].parent)
    && var g := m[m[z].parent].parent;
    g in s && g in m && m[g].Kid(d) == m[z].parent && !IsRed(m, m[g].Kid(d.Opp()))
  }

  lemma InsertRaised(m: Mem, root: Ptr, s: Spans, order: seq<Ptr>, bh: Heights, z: Ptr, d: Side)
    requires Tree(m, root, s, |order|, bh) && Balanced(m, bh, z, NULL, L) && Offends(m, s, z, d)
    requires m[m[z].parent].Kid(d) == z
    requires Listed(s, order)
    ensures var p := m[z].parent; var g := m[p].parent; var m1 := Paint(Paint(m, p, Black), g, Red);
      && Wired(m1, root, s, |order|) && m1[g].Kid(d.Opp().Opp()) == p && p != NULL
      && var m', s', bh' := Rot(m1, g, d.Opp()), RotSpans(s, g, p, d.Opp()), RaiseHeights(bh, p, g);
      && Tree(m', RotRoot(root, g, p), s', |order|, bh') && Balanced(m', bh', NULL, NULL, L) && Listed(s', order)
      && s'.Keys == s.Keys && Frame(m, m', s.Keys)
      && z in m' && m'[z].color.Red? && m'[z].parent == p && p in m' && m'[p].color.Black?
  {
    var p := m[z].parent; var g := m[p].parent;
    At(m, root, s, |order|, bh, z, NULL, L, z);
    At(m, root, s, |order|, bh, z, NULL, L, p);
    At(m, root, s, |order|, bh, z, NULL, L, g);
    Raise(m, root, s, |order|, bh, z, p, g, d, NULL, L);
    var m1 := Paint(Paint(m, p, Black), g, Red);
    TurnKeeps(m, m1, root, s, order, g, d.Opp());
    RotTurned(m1, root, s, |order|, g, d.Opp());
    RotStill(m1, root, s, |order|, g, d.Opp(), z);
    hide Wired, Balanced, Rot, Listed, RotSpans, Frame;
  }

  lemma InsertTurned(m: Mem, root: Ptr, s: Spans, order: seq<Ptr>, bh: Heights, z: Ptr, d: Side)
    requires Tree(m, root, s, |order|, bh) && Balanced(m, bh, z, NULL, L) && Offends(m, s, z, d)
    requires m[m[z].parent].Kid(d.Opp()) == z
    requires Listed(s, order)
    ensures var p := m[z].parent;
      && var m', s' := Rot(m, p, d), RotSpans(s, p, z, d);
      && Tree(m', RotRoot(root, p, z), s', |order|, bh) && Balanced(m', bh, p, NULL, L) && Listed(s', order)
      && s'.Keys == s.Keys && Frame(m, m', s.Keys) && Offends(m', s', p, d) && m'[m'[p].parent].Kid(d) == p
  {
    var p := m[z].parent; var g := m[p].parent;
    assert Ok(m, root, s, z) && Ok(m, root, s, p) && Ok(m, root, s, g);
    Inner(m, root, s, |order|, bh, z, p, d);
    TurnKeeps(m, m, root, s, order, p, d);
    RotTurned(m, root, s, |order|, p, d);
    hide Wired, Balanced, Rot;
  }

  lemma InsertFinish(m: Mem, root: Ptr, s: Spans, len: int, bh: Heights, z: Ptr)
    requires Tree(m, root, s, len, bh) && Balanced(m, bh, z, NULL, L) && z in s && z in m
    requires root != NULL && (m[z].parent == NULL || !IsRed(m, m[z].parent) || m[m[z].parent].parent == NULL)
    ensures root in s && root in m
    ensures Tree(Paint(m, root, Black), root, s, len, TopHeights(m, bh, root))
    ensures Balanced(Paint(m, root, Black), TopHeights(m, bh, root), NULL, NULL, L)
  {
    assert Ok(m, root, s, z);
    var ex := if m[z].parent == NULL || !IsRed(m, m[z].parent) then NULL else z;
    if ex == NULL {
      forall n | n in bh ensures NodeOk(m, bh, n, NULL, NULL, L) { At(m, root, s, len, bh, z, NULL, L, n); }
    } else {
      assert Ok(m, root, s, m[z].parent);
    }
    PaintBlack(m, root, s, len, bh, root, ex, NULL, L);
  }

  // ---------------------------------------------------------------- erase fix-up, case by case

  /** While the short child `x` is not red, the red-red exception it stands for is not used. */
  lemma DropException(m: Mem, root: Ptr, s: Spans, len: int, bh: Heights, x: Ptr, ex: Ptr, hole: Ptr, side: Side)
    requires Tree(m, root, s, len, bh) && Balanced(m, bh, ex, hole, side) && Excused(m, ex, x) && !IsRed(m, x)
    ensures Balanced(m, bh, NULL, hole, side)
  {
    forall n | n in bh ensures NodeOk(m, bh, n, NULL, hole, side) {
      assert Ok(m, root, s, n) && NodeOk(m, bh, n, ex, hole, side);
    }
  }

  ghost function PushUpHeights(bh: Heights, w: Ptr, xp: Ptr): Heights {
    bh[w := Less(Bh(bh, w))][xp := Less(Bh(bh, xp))]
  }

  function SideOf(m: Mem, p: Ptr, q: Ptr): Side { if p in m && m[p].left == q then L else R }

  /** The sibling `w` has no red child: paint it red and let the parent `xp` be the short one. */
  lemma PushUp(m: Mem, root: Ptr, s: Spans, len: int, bh: Heights, w: Ptr, xp: Ptr, d: Side)
    requires Tree(m, root, s, len, bh) && Balanced(m, bh, NULL, xp, d)
    requires xp in s && xp in m && w == m[xp].Kid(d.Opp()) && w in m && w != NULL && m[w].color.Black?
    requires !IsRed(m, m[w].left) && !IsRed(m, m[w].right)
    ensures w in bh && Tree(Paint(m, w, Red), root, s, len, PushUpHeights(bh, w, xp))
    ensures Balanced(Paint(m, w, Red), PushUpHeights(bh, w, xp), w, m[xp].parent, SideOf(m, m[xp].parent, xp))
  {
    hide Wired, NodeOk, HangsAt, Less;
    var m', bh', pp := Paint(m, w, Red), PushUpHeights(bh, w, xp), m[xp].parent;
    SameLinksWired(m, m', root, s, len);
    At(m, root, s, len, bh, NULL, xp, d, xp);
    KidIn(m, root, s, xp, d.Opp());
    At(m, root, s, len, bh, NULL, xp, d, w);
    if pp != NULL { At(m, root, s, len, bh, NULL, xp, d, pp); }
    hide Ok;
    PushUpPair(m, root, s, bh, w, xp, d);
    forall n | n in bh ensures NodeOk(m', bh', n, w, pp, SideOf(m, pp, xp)) {
      At(m, root, s, len, bh, NULL, xp, d, n);
      if n !in {w, xp} { PushUpFar(m, root, s, bh, w, xp, d, n); }
    }
  }

  lemma PushUpPair(m: Mem, root: Ptr, s: Spans, bh: Heights, w: Ptr, xp: Ptr, d: Side)
    requires Ok(m, root, s, xp) && Ok(m, root, s, w) && bh.Keys == s.Keys && NULL !in bh
    requires NodeOk(m, bh, xp, NULL, xp, d) && NodeOk(m, bh, w, NULL, xp, d)
    requires w == m[xp].Kid(d.Opp()) && m[w].color.Black? && !IsRed(m, m[w].left) && !IsRed(m, m[w].right)
    requires m[xp].parent != NULL ==> Ok(m, root, s, m[xp].parent)
    ensures var m', bh', pp := Paint(m, w, Red), PushUpHeights(bh, w, xp), m[xp].parent;
      NodeOk(m', bh', xp, w, pp, SideOf(m, pp, xp)) && NodeOk(m', bh', w, w, pp, SideOf(m, pp, xp))
  {
    PairApart(m, root, s, w, xp, d);
    hide Ok;
    PushUpSibling(m, bh, w, xp, d);
    PushUpParent(m, bh, w, xp, d);
  }

  lemma OkAt(m: Mem, root: Ptr, s: Spans, len: int, n: Ptr)
    requires Wired(m, root, s, len) && n in s
    ensures Ok(m, root, s, n)
  {
  }

  /** A node's span lies within that of its parent and is smaller. */
  lemma Within(m: Mem, root: Ptr, s: Spans, len: int, n: Ptr)
    requires Wired(m, root, s, len) && n in s && n in m && m[n].parent != NULL
    ensures m[n].parent in s && s[m[n].parent].hi - s[m[n].parent].lo > s[n].hi - s[n].lo
  {
    assert Ok(m, root, s, n);
    assert Ok(m, root, s, m[n].parent);
  }

  lemma KidWithin(m: Mem, root: Ptr, s: Spans, len: int, n: Ptr, d: Side)
    requires Wired(m, root, s, len) && n in s && n in m
    ensures m[n].Kid(d) != NULL ==> m[n].Kid(d) in s && m[n].Kid(d) in m && m[m[n].Kid(d)].parent == n
    ensures m[n].Kid(d) in s ==> s[n].hi - s[n].lo > s[m[n].Kid(d)].hi - s[m[n].Kid(d)].lo
    ensures s[n].hi > s[n].lo
  {
    assert Ok(m, root, s, n);
    if m[n].Kid(d) in s { assert Ok(m, root, s, m[n].Kid(d)); }
  }

  lemma SpanIn(s: Spans, order: seq<Ptr>, n: Ptr)
    requires Listed(s, order) && n in s
    ensures 0 <= s[n].lo && s[n].hi <= |order| && 0 <= s[n].pos < |order| && order[s[n].pos] == n
  {
  }

  lemma KidIn(m: Mem, root: Ptr, s: Spans, n: Ptr, d: Side)
    requires Ok(m, root, s, n) && m[n].Kid(d) != NULL
    ensures m[n].Kid(d) in s
  {
  }

  lemma PairApart(m: Mem, root: Ptr, s: Spans, w: Ptr, xp: Ptr, d: Side)
    requires Ok(m, root, s, xp) && Ok(m, root, s, w) && w == m[xp].Kid(d.Opp())
    requires m[xp].parent != NULL ==> Ok(m, root, s, m[xp].parent)
    ensures m[w].left !in {w, xp} && m[w].right !in {w, xp} && m[xp].Kid(d) !in {w, xp} && xp != w
    ensures m[xp].parent !in {w, xp} && w != NULL
  {
  }

  lemma PushUpSibling(m: Mem, bh: Heights, w: Ptr, xp: Ptr, d: Side)
    requires NULL !in bh && xp in m && NodeOk(m, bh, w, NULL, xp, d) && m[w].color.Black?
    requires !IsRed(m, m[w].left) && !IsRed(m, m[w].right) && m[xp].parent !in {w, xp}
    requires m[w].left !in {w, xp} && m[w].right !in {w, xp} && xp != w && xp in bh
    ensures NodeOk(Paint(m, w, Red), PushUpHeights(bh, w, xp), w, w, m[xp].parent, SideOf(m, m[xp].parent, xp))
  {
  }

  lemma PushUpParent(m: Mem, bh: Heights, w: Ptr, xp: Ptr, d: Side)
    requires NULL !in bh && NodeOk(m, bh, xp, NULL, xp, d) && NodeOk(m, bh, w, NULL, xp, d)
    requires w == m[xp].Kid(d.Opp()) && w != NULL && m[w].color.Black? && xp != w && m[xp].Kid(d) !in {w, xp}
    requires m[xp].parent !in {w, xp}
    ensures NodeOk(Paint(m, w, Red), PushUpHeights(bh, w, xp), xp, w, m[xp].parent, SideOf(m, m[xp].parent, xp))
  {
    assert Fine(Paint(m, w, Red), PushUpHeights(bh, w, xp), Less(bh[xp]), m[xp].color, m[xp].Kid(d), w, w, 0, 0);
  }

  lemma PushUpFar(m: Mem, root: Ptr, s: Spans, bh: Heights, w: Ptr, xp: Ptr, d: Side, n: Ptr)
    requires Ok(m, root, s, xp) && Ok(m, root, s, w) && Ok(m, root, s, n) && bh.Keys == s.Keys && NULL !in bh
    requires NodeOk(m, bh, xp, NULL, xp, d) && NodeOk(m, bh, n, NULL, xp, d) && n !in {w, xp}
    requires w == m[xp].Kid(d.Opp()) && m[w].color.Black?
    ensures NodeOk(Paint(m, w, Red), PushUpHeights(bh, w, xp), n, w, m[xp].parent, SideOf(m, m[xp].parent, xp))
  {
    assert m[n].left != w && m[n].right != w;
    assert bh[xp] > 0 by { if m[xp].color.Red? { assert Bh(bh, w) > 0; } }
  }

  ghost function SettleHeights(bh: Heights, w: Ptr, xp: Ptr, f: Ptr): Heights {
    bh[w := Bh(bh, xp)][xp := Bh(bh, w)][f := Bh(bh, w)]
  }

  lemma SettleTrio(m: Mem, root: Ptr, s: Spans, m': Mem, bh: Heights, w: Ptr, xp: Ptr, f: Ptr, d: Side)
    requires Ok(m, root, s, xp) && Ok(m, root, s, w) && Ok(m, root, s, f) && bh.Keys == s.Keys && NULL !in bh
    requires NodeOk(m, bh, xp, NULL, xp, d) && NodeOk(m, bh, w, NULL, xp, d) && NodeOk(m, bh, f, NULL, xp, d)
    requires w == m[xp].Kid(d.Opp()) && m[w].color.Black? && f == m[w].Kid(d.Opp()) && IsRed(m, f)
    requires Turned(m, m', s, xp, w, d)
    requires m'[w].color == m[xp].color && m'[xp].color.Black? && m'[f].color.Black?
    requires forall q {:trigger m'[q]} :: q in m && q !in {w, xp, f} ==> m'[q].color == m[q].color
    ensures var bh' := SettleHeights(bh, w, xp, f);
      NodeOk(m', bh', xp, NULL, NULL, L) && NodeOk(m', bh', w, NULL, NULL, L) && NodeOk(m', bh', f, NULL, NULL, L)
  {
    var bh' := SettleHeights(bh, w, xp, f);
    var b, x := m[w].Kid(d), m[xp].Kid(d);
    assert b !in {w, xp, f} && x !in {w, xp, f} && f !in {w, xp};
    assert Fine(m', bh', bh'[xp], Black, x, b, NULL, 0, 0);
    assert Fine(m', bh', bh'[w], m[xp].color, xp, f, NULL, 0, 0);
    assert m[f].left !in {w, xp, f} && m[f].right !in {w, xp, f};
  }

  lemma SettleFar(m: Mem, root: Ptr, s: Spans, m': Mem, bh: Heights, w: Ptr, xp: Ptr, f: Ptr, d: Side, n: Ptr)
    requires Ok(m, root, s, xp) && Ok(m, root, s, w) && Ok(m, root, s, f) && Ok(m, root, s, n) && bh.Keys == s.Keys
    requires NULL !in bh
    requires NodeOk(m, bh, n, NULL, xp, d) && n !in {xp, w, f}
    requires w == m[xp].Kid(d.Opp()) && f == m[w].Kid(d.Opp())
    requires Turned(m, m', s, xp, w, d)
    requires m'[w].color == m[xp].color
    requires forall q {:trigger m'[q]} :: q in m && q !in {w, xp, f} ==> m'[q].color == m[q].color
    ensures NodeOk(m', SettleHeights(bh, w, xp, f), n, NULL, NULL, L)
  {
    var bh' := SettleHeights(bh, w, xp, f);
    assert m[n].left !in {w, f} && m[n].right !in {w, f} && f !in {w, xp};
    assert NodeOk(m, bh, n, NULL, NULL, L);
    FarNode(m, bh, m', bh', xp, w, n, NULL, NULL, NULL, L);
  }

  lemma RotKeys(s: Spans, x: Ptr, y: Ptr, d: Side)
    requires x in s && y in s
    ensures RotSpans(s, x, y, d).Keys == s.Keys
  {
  }

  lemma SettleTurn(m: Mem, root: Ptr, s: Spans, len: int, w: Ptr, xp: Ptr, f: Ptr, d: Side) returns (m': Mem)
    requires Wired(m, root, s, len)
    requires xp in s && xp in m && w == m[xp].Kid(d.Opp()) && w in m && w != NULL && f == m[w].Kid(d.Opp())
    requires IsRed(m, f)
    ensures Ok(m, root, s, xp) && Ok(m, root, s, w) && Ok(m, root, s, f)
    ensures var m1 := Paint(Paint(Paint(m, w, m[xp].color), xp, Black), f, Black);
      m1[xp].Kid(d.Opp()) == w && m' == Rot(m1, xp, d)
    ensures Wired(m', RotRoot(root, xp, w), RotSpans(s, xp, w, d), len)
    ensures Turned(m, m', s, xp, w, d)
    ensures m'[w].color == m[xp].color && m'[xp].color.Black? && m'[f].color.Black?
    ensures forall q {:trigger m'[q]} :: q in m && q !in {w, xp, f} ==> m'[q].color == m[q].color
  {
    assert Ok(m, root, s, xp) && Ok(m, root, s, w) && Ok(m, root, s, f);
    var m1 := Paint(Paint(Paint(m, w, m[xp].color), xp, Black), f, Black);
    Turn(m, m1, root, s, len, xp, d);
    m' := Rot(m1, xp, d);
    hide Rot;
  }

  /** The sibling's far child is red: rotate the sibling above `xp`; nothing is short any more. */
  lemma Settle(m: Mem, root: Ptr, s: Spans, len: int, bh: Heights, w: Ptr, xp: Ptr, f: Ptr, d: Side)
    requires Tree(m, root, s, len, bh) && Balanced(m, bh, NULL, xp, d)
    requires xp in s && xp in m && w == m[xp].Kid(d.Opp()) && w in m && w != NULL && m[w].color.Black?
    requires f == m[w].Kid(d.Opp()) && IsRed(m, f)
    ensures var m1 := Paint(Paint(Paint(m, w, m[xp].color), xp, Black), f, Black);
      && w in s && m1[xp].Kid(d.Opp()) == w
      && Tree(Rot(m1, xp, d), RotRoot(root, xp, w), RotSpans(s, xp, w, d), len, SettleHeights(bh, w, xp, f))
      && Balanced(Rot(m1, xp, d), SettleHeights(bh, w, xp, f), NULL, NULL, L)
  {
    hide Wired, Rot, HangsAt, NodeOk, Turned, RotSpans;
    var m' := SettleTurn(m, root, s, len, w, xp, f, d);
    RotKeys(s, xp, w, d);
    At(m, root, s, len, bh, NULL, xp, d, xp);
    At(m, root, s, len, bh, NULL, xp, d, w);
    At(m, root, s, len, bh, NULL, xp, d, f);
    SettleTrio(m, root, s, m', bh, w, xp, f, d);
    hide Ok;
    forall n | n in bh ensures NodeOk(m', SettleHeights(bh, w, xp, f), n, NULL, NULL, L) {
      At(m, root, s, len, bh, NULL, xp, d, n);
      if n !in {xp, w, f} { SettleFar(m, root, s, m', bh, w, xp, f, d, n); }
    }
  }

  lemma EraseLeftmost(s: Spans, order: seq<Ptr>, z: Ptr)
    requires Listed(s, order) && z in s
    ensures First(Drop(order, s[z].pos)) == (if s[z].pos > 0 then order[0] else if |order| > 1 then order[1] else NULL)
    ensures order[0] == z <==> s[z].pos == 0
  {
  }

  lemma RootIn(m: Mem, root: Ptr, s: Spans, order: seq<Ptr>)
    requires Wired(m, root, s, |order|)
    ensures root != NULL <==> order != []
    ensures root != NULL ==> root in s && root in m
  {
    if root != NULL { assert Ok(m, root, s, root); }
  }

  lemma NoHole(m: Mem, bh: Heights, ex: Ptr, side: Side)
    requires Balanced(m, bh, ex, NULL, side)
    ensures Balanced(m, bh, ex, NULL, L)
  {
    forall n | n in bh ensures NodeOk(m, bh, n, ex, NULL, L) { assert NodeOk(m, bh, n, ex, NULL, side); }
  }

  /** The child of `xp` on side `d` is one black node short: its sibling exists, and if red has two children. */
  lemma SiblingExists(m: Mem, root: Ptr, s: Spans, len: int, bh: Heights, ex: Ptr, xp: Ptr, d: Side)
    requires Tree(m, root, s, len, bh) && Balanced(m, bh, ex, xp, d) && xp in s && xp in m
    ensures var w := m[xp].Kid(d.Opp());
      && w != NULL && w in s && w in m && w != m[xp].Kid(d) && w != xp && w in bh
      && (m[w].color.Red? ==> m[w].Kid(d) != NULL && m[w].Kid(d) in m)
  {
    At(m, root, s, len, bh, ex, xp, d, xp);
    var w := m[xp].Kid(d.Opp());
    At(m, root, s, len, bh, ex, xp, d, w);
  }

  lemma RedNodeKids(m: Mem, bh: Heights, w: Ptr, xp: Ptr, d: Side)
    requires NodeOk(m, bh, w, NULL, xp, d) && w != xp && IsRed(m, w)
    ensures !IsRed(m, m[w].left) && !IsRed(m, m[w].right)
  {
  }

  /** First erase case: a red sibling `w` goes above `xp`; the short child stays where it is. */
  lemma RedSibling(m: Mem, root: Ptr, s: Spans, order: seq<Ptr>, bh: Heights, xp: Ptr, d: Side)
    requires Tree(m, root, s, |order|, bh) && Balanced(m, bh, NULL, xp, d) && Listed(s, order) && xp in s && xp in m
    requires !IsRed(m, m[xp].Kid(d)) && IsRed(m, m[xp].Kid(d.Opp()))
    ensures var w := m[xp].Kid(d.Opp()); var m1 := Paint(Paint(m, w, Black), xp, Red);
      && w in s && Wired(m1, root, s, |order|) && m1[xp].Kid(d.Opp()) == w
      && var m', s', bh' := Rot(m1, xp, d), RotSpans(s, xp, w, d), RaiseHeights(bh, w, xp);
      && Tree(m', RotRoot(root, xp, w), s', |order|, bh') && Balanced(m', bh', NULL, xp, d) && Listed(s', order)
      && s'.Keys == s.Keys && Frame(m, m', s.Keys) && xp in m' && m'[xp].Kid(d) == m[xp].Kid(d) && m'[xp].color.Red?
      && m'[xp].parent == w && !IsRed(m', m'[xp].Kid(d.Opp())) && s'[xp].hi - s'[xp].lo < s[xp].hi - s[xp].lo
      && m'[xp].Kid(d.Opp()) != NULL && (IsRed(m', RotRoot(root, xp, w)) ==> IsRed(m, root))
  {
    hide Wired, Balanced, Listed, NodeOk;
    var w := m[xp].Kid(d.Opp());
    SiblingExists(m, root, s, |order|, bh, NULL, xp, d);
    At(m, root, s, |order|, bh, NULL, xp, d, xp);
    At(m, root, s, |order|, bh, NULL, xp, d, w);
    RedNodeKids(m, bh, w, xp, d);
    var m1 := Paint(Paint(m, w, Black), xp, Red);
    Raise(m, root, s, |order|, bh, NULL, w, xp, d.Opp(), xp, d);
    TurnKeeps(m, m1, root, s, order, xp, d);
    RotTurned(m1, root, s, |order|, xp, d);
    assert d.Opp().Opp() == d;
    hide Rot, RotSpans, Frame;
  }

  /** The black sibling of the short child of `xp`, is in place. */
  ghost predicate BlackSibling(m: Mem, s: Spans, xp: Ptr, d: Side) {
    && xp in s && xp in m && var w := m[xp].Kid(d.Opp());
    w in s && w in m && w != NULL && m[w].color.Black?
  }

  lemma NotRoot(m: Mem, root: Ptr, s: Spans, len: int, n: Ptr)
    requires Wired(m, root, s, len) && n in m && n != NULL && m[n].parent != NULL
    ensures n != root
  {
  }

  /** Third erase case: the sibling's near child is red and its far child is not; turn them around. */
  lemma NearRed(m: Mem, root: Ptr, s: Spans, order: seq<Ptr>, bh: Heights, xp: Ptr, d: Side)
    requires Tree(m, root, s, |order|, bh) && Balanced(m, bh, NULL, xp, d) && Listed(s, order)
    requires BlackSibling(m, s, xp, d)
    requires var w := m[xp].Kid(d.Opp()); IsRed(m, m[w].Kid(d)) && !IsRed(m, m[w].Kid(d.Opp()))
    ensures var w := m[xp].Kid(d.Opp()); var c := m[w].Kid(d); var m1 := Paint(Paint(m, c, Black), w, Red);
      && c in s && Wired(m1, root, s, |order|) && m1[w].Kid(d) == c
      && var m', s', bh' := Rot(m1, w, d.Opp()), RotSpans(s, w, c, d.Opp()), RaiseHeights(bh, c, w);
      && Tree(m', root, s', |order|, bh') && Balanced(m', bh', NULL, xp, d) && Listed(s', order)
      && RotRoot(root, w, c) == root
      && s'.Keys == s.Keys && Frame(m, m', s.Keys) && BlackSibling(m', s', xp, d) && m'[xp].Kid(d.Opp()) == c
      && m'[c].Kid(d.Opp()) == w && IsRed(m', w) && (IsRed(m', root) ==> IsRed(m, root))
  {
    hide Wired, Balanced, Listed, NodeOk;
    var w := m[xp].Kid(d.Opp()); var c := m[w].Kid(d);
    At(m, root, s, |order|, bh, NULL, xp, d, xp);
    At(m, root, s, |order|, bh, NULL, xp, d, w);
    At(m, root, s, |order|, bh, NULL, xp, d, c);
    var m1 := Paint(Paint(m, c, Black), w, Red);
    assert c != xp && c != w && w != xp;
    RedNodeKids(m, bh, c, xp, d);
    Raise(m, root, s, |order|, bh, NULL, c, w, d, xp, d);
    assert d.Opp().Opp() == d;
    TurnKeeps(m, m1, root, s, order, w, d.Opp());
    RotTurned(m1, root, s, |order|, w, d.Opp());
    NotRoot(m, root, s, |order|, w);
    hide Rot, RotSpans, Frame;
  }

  /** Fourth erase case: everything is repaired. */
  lemma FarRed(m: Mem, root: Ptr, s: Spans, order: seq<Ptr>, bh: Heights, xp: Ptr, d: Side)
    requires Tree(m, root, s, |order|, bh) && Balanced(m, bh, NULL, xp, d) && Listed(s, order)
    requires BlackSibling(m, s, xp, d)
    requires IsRed(m, m[m[xp].Kid(d.Opp())].Kid(d.Opp()))
    ensures var w := m[xp].Kid(d.Opp()); var f := m[w].Kid(d.Opp());
      var m1 := Paint(Paint(Paint(m, w, m[xp].color), xp, Black), f, Black);
      && Wired(m1, root, s, |order|) && m1[xp].Kid(d.Opp()) == w
      && var m', s', bh' := Rot(m1, xp, d), RotSpans(s, xp, w, d), SettleHeights(bh, w, xp, f);
      && Tree(m', RotRoot(root, xp, w), s', |order|, bh') && Balanced(m', bh', NULL, NULL, L) && Listed(s', order)
      && s'.Keys == s.Keys && Frame(m, m', s.Keys) && (IsRed(m', RotRoot(root, xp, w)) ==> IsRed(m, root))
  {
    var w := m[xp].Kid(d.Opp()); var f := m[w].Kid(d.Opp());
    assert Ok(m, root, s, xp) && Ok(m, root, s, w) && Ok(m, root, s, f);
    assert root != w && root != f;
    var m1 := Paint(Paint(Paint(m, w, m[xp].color), xp, Black), f, Black);
    Settle(m, root, s, |order|, bh, w, xp, f, d);
    TurnKeeps(m, m1, root, s, order, xp, d);
    RotTurned(m1, root, s, |order|, xp, d);
    hide Wired, Balanced, Rot, Listed, RotSpans, Frame;
  }

  // ---------------------------------------------------------------- taking a node with at most one child out

  /** What `transplant` leaves in memory: `v` hangs where `u` hung. */
  function Trans(m: Mem, u: Ptr, v: Ptr): Mem
    requires u in m && (m[u].parent != NULL ==> m[u].parent in m) && (v != NULL ==> v in m)
  {
    var p := m[u].parent;
    var m1 := if p == NULL then m else m[p := m[p].Swap(u, v)];
    if v == NULL then m1 else m1[v := m1[v].(parent := p)]
  }

  function Down(i: int, j: int): int { if i > j then i - 1 else i }

  ghost function Without(s: Spans, r: Ptr): Spans
    requires r in s
  {
    map n | n in s && n != r :: Span(Down(s[n].lo, s[r].pos), Down(s[n].pos, s[r].pos), Down(s[n].hi, s[r].pos))
  }

  ghost predicate OnlyChild(m: Mem, r: Ptr, v: Ptr) {
    r in m && ((m[r].left == NULL && v == m[r].right) || (m[r].right == NULL && v == m[r].left))
  }

  ghost predicate Spliceable(m: Mem, root: Ptr, s: Spans, r: Ptr, v: Ptr) {
    && Ok(m, root, s, r) && OnlyChild(m, r, v)
    && (m[r].parent != NULL ==> Ok(m, root, s, m[r].parent)) && (v != NULL ==> Ok(m, root, s, v))
  }

  lemma SpliceParent(m: Mem, root: Ptr, s: Spans, r: Ptr, v: Ptr, n: Ptr)
    requires Spliceable(m, root, s, r, v) && n == m[r].parent && n != NULL && s[n].pos != s[r].pos
    ensures Ok(Trans(m, r, v), RotRoot(root, r, v), Without(s, r), n)
  {
    var m', s' := Trans(m, r, v), Without(s, r);
    assert n != r && v != r && v != n;
    if m[n].left == r {
      assert HangsAt(m', s', v, n, s'[n].lo, s'[n].pos);
    } else {
      assert HangsAt(m', s', v, n, s'[n].pos + 1, s'[n].hi);
    }
  }

  lemma SpliceFar(m: Mem, root: Ptr, s: Spans, r: Ptr, v: Ptr, n: Ptr)
    requires Spliceable(m, root, s, r, v) && Ok(m, root, s, n) && n != r && n != m[r].parent && s[n].pos != s[r].pos
    ensures Ok(Trans(m, r, v), RotRoot(root, r, v), Without(s, r), n)
  {
    var m', s', p := Trans(m, r, v), Without(s, r), m[r].parent;
    assert p != r && v != r && (v != NULL ==> v != p);
    assert m[n].left != r && m[n].right != r && m'[n].left == m[n].left && m'[n].right == m[n].right;
    assert m[n].left != v || v == NULL;
    assert m[n].right != v || v == NULL;
    assert HangsAt(m', s', m[n].left, n, s'[n].lo, s'[n].pos);
    assert HangsAt(m', s', m[n].right, n, s'[n].pos + 1, s'[n].hi);
  }

  lemma SpliceOk(m: Mem, root: Ptr, s: Spans, r: Ptr, v: Ptr, n: Ptr)
    requires Spliceable(m, root, s, r, v) && Ok(m, root, s, n) && n != r && s[n].pos != s[r].pos
    ensures Ok(Trans(m, r, v), RotRoot(root, r, v), Without(s, r), n)
  {
    if n == m[r].parent { SpliceParent(m, root, s, r, v, n); } else { SpliceFar(m, root, s, r, v, n); }
  }

  lemma SpliceWired(m: Mem, root: Ptr, s: Spans, order: seq<Ptr>, r: Ptr, v: Ptr)
    requires Wired(m, root, s, |order|) && Listed(s, order) && r in s && OnlyChild(m, r, v)
    ensures (m[r].parent != NULL ==> m[r].parent in m) && (v != NULL ==> v in m)
    ensures Wired(Trans(m, r, v), RotRoot(root, r, v), Without(s, r), |order| - 1)
  {
    var p := m[r].parent;
    assert Ok(m, root, s, r);
    if p != NULL { assert Ok(m, root, s, p); }
    if v != NULL { assert Ok(m, root, s, v); }
    var m', s', root' := Trans(m, r, v), Without(s, r), RotRoot(root, r, v);
    assert HangsAt(m', s', root', NULL, 0, |order| - 1);
    forall n | n in s' ensures Ok(m', root', s', n) {
      assert Ok(m, root, s, n);
      assert s[n].pos != s[r].pos;
      SpliceOk(m, root, s, r, v, n);
    }
  }

  function Drop(order: seq<Ptr>, j: int): seq<Ptr>
    requires 0 <= j < |order|
  {
    order[..j] + order[j + 1..]
  }

  lemma SpliceListed(s: Spans, order: seq<Ptr>, r: Ptr)
    requires Listed(s, order) && r in s
    ensures Listed(Without(s, r), Drop(order, s[r].pos))
  {
    var o', j := Drop(order, s[r].pos), s[r].pos;
    forall i | 0 <= i < |o'| ensures o'[i] in Without(s, r) && Without(s, r)[o'[i]].pos == i {
      assert o'[i] == order[if i < j then i else i + 1];
      assert order[j] == r;
    }
  }

  /** After a black node went, the place it left is one black node short; after a red one nothing changed. */
  lemma SpliceBalanced(m: Mem, root: Ptr, s: Spans, len: int, bh: Heights, r: Ptr, v: Ptr)
    requires Tree(m, root, s, len, bh) && Balanced(m, bh, NULL, NULL, L) && r in s && OnlyChild(m, r, v)
    ensures (m[r].parent != NULL ==> m[r].parent in m) && (v != NULL ==> v in m)
    ensures var m', bh' := Trans(m, r, v), bh - {r};
      if m[r].color.Black? then Balanced(m', bh', v, m[r].parent, SideOf(m, m[r].parent, r))
      else Balanced(m', bh', NULL, NULL, L)
  {
    var p := m[r].parent;
    assert Ok(m, root, s, r) && NodeOk(m, bh, r, NULL, NULL, L);
    if p != NULL { assert Ok(m, root, s, p); }
    if v != NULL { assert Ok(m, root, s, v) && NodeOk(m, bh, v, NULL, NULL, L); }
    var m', bh' := Trans(m, r, v), bh - {r};
    var ex, hole, side := if m[r].color.Black? then v else NULL, if m[r].color.Black? then p else NULL,
                          if m[r].color.Black? then SideOf(m, p, r) else L;
    forall n | n in bh' ensures NodeOk(m', bh', n, ex, hole, side) {
      assert Ok(m, root, s, n) && NodeOk(m, bh, n, NULL, NULL, L);
      SpliceNode(m, root, s, bh, r, v, n, ex, hole, side);
    }
  }

  lemma SpliceNodeParent(m: Mem, root: Ptr, s: Spans, bh: Heights, r: Ptr, v: Ptr, p: Ptr, ex: Ptr, hole: Ptr,
      side: Side)
    requires Spliceable(m, root, s, r, v) && p == m[r].parent && p != NULL && bh.Keys == s.Keys && NULL !in bh
    requires NodeOk(m, bh, r, NULL, NULL, L) && NodeOk(m, bh, p, NULL, NULL, L)
    requires if m[r].color.Black? then ex == v && hole == p && side == SideOf(m, p, r) else ex == NULL && hole == NULL
    ensures NodeOk(Trans(m, r, v), bh - {r}, p, ex, hole, side)
  {
    var m', bh', d := Trans(m, r, v), bh - {r}, SideOf(m, p, r);
    var o := m[p].Kid(d.Opp());
    assert p != r && v != r && v != p && o != r && o != p;
    assert m'[p].Kid(d) == v && m'[p].Kid(d.Opp()) == o;
    assert Fine(m', bh', bh'[p], m[p].color, v, o, ex, Owed(p, hole, side, d), 0);
  }

  lemma SpliceNode(m: Mem, root: Ptr, s: Spans, bh: Heights, r: Ptr, v: Ptr, n: Ptr, ex: Ptr, hole: Ptr, side: Side)
    requires Spliceable(m, root, s, r, v) && Ok(m, root, s, n) && n != r && bh.Keys == s.Keys && NULL !in bh
    requires NodeOk(m, bh, r, NULL, NULL, L) && NodeOk(m, bh, n, NULL, NULL, L)
    requires if m[r].color.Black? then ex == v && hole == m[r].parent && side == SideOf(m, hole, r)
      else ex == NULL && hole == NULL
    ensures NodeOk(Trans(m, r, v), bh - {r}, n, ex, hole, side)
  {
    if n == m[r].parent {
      SpliceNodeParent(m, root, s, bh, r, v, n, ex, hole, side);
    } else {
      SpliceNodeFar(m, root, s, r, v, n);
      hide Trans, Ok;
    }
  }

  /** Away from the removed node nothing changes. */
  lemma SpliceNodeFar(m: Mem, root: Ptr, s: Spans, r: Ptr, v: Ptr, n: Ptr)
    requires Spliceable(m, root, s, r, v) && Ok(m, root, s, n) && n != r && n != m[r].parent
    ensures var m' := Trans(m, r, v);
      && n in m' && m[n].left != r && m[n].right != r && r != m[r].parent
      && m'[n].left == m[n].left && m'[n].right == m[n].right && m'[n].color == m[n].color
      && forall q {:trigger IsRed(m', q)} :: IsRed(m', q) == IsRed(m, q)
  {
  }

  // ---------------------------------------------------------------- putting the successor in a node's place

  /** `y` takes over the links and the colour of `z`. */
  function Subst(m: Mem, z: Ptr, y: Ptr): Mem
    requires z in m
  {
    var c := m[z];
    map q | q in m ::
      if q == y then c
      else if q == z || q == NULL then m[q]
      else if q == c.parent then m[q].Swap(z, y)
      else if q == c.left || q == c.right then m[q].(parent := y)
      else m[q]
  }

  ghost function SubstSpans(s: Spans, z: Ptr, y: Ptr): Spans
    requires z in s
  {
    (s - {z})[y := s[z]]
  }

  lemma SubstOk(m: Mem, root: Ptr, s: Spans, z: Ptr, y: Ptr, n: Ptr)
    requires Ok(m, root, s, z) && y in m && y !in s && y != NULL && NULL !in s
    requires if n == y then true else n != z && Ok(m, root, s, n)
    requires m[z].parent != NULL ==> Ok(m, root, s, m[z].parent)
    ensures Ok(Subst(m, z, y), RotRoot(root, z, y), SubstSpans(s, z, y), n)
  {
    var m', s', c := Subst(m, z, y), SubstSpans(s, z, y), m[z];
    assert c.parent != z && c.left != z && c.right != z && c.left != y && c.right != y && c.parent != y;
    assert c.parent != NULL ==> c.parent != c.left && c.parent != c.right;
    if n != y {
      if n != c.parent { assert m[n].left != z && m[n].right != z; }
      assert HangsAt(m', s', m'[n].left, n, s'[n].lo, s'[n].pos);
      assert HangsAt(m', s', m'[n].right, n, s'[n].pos + 1, s'[n].hi);
    }
  }

  lemma SubstWired(m: Mem, root: Ptr, s: Spans, len: int, z: Ptr, y: Ptr)
    requires Wired(m, root, s, len) && z in s && y in m && y !in s && y != NULL && NULL !in s
    ensures z in m && Wired(Subst(m, z, y), RotRoot(root, z, y), SubstSpans(s, z, y), len)
  {
    assert Ok(m, root, s, z);
    if m[z].parent != NULL { assert Ok(m, root, s, m[z].parent); }
    var m', s', root' := Subst(m, z, y), SubstSpans(s, z, y), RotRoot(root, z, y);
    forall n | n in s' ensures Ok(m', root', s', n) {
      if n != y { assert Ok(m, root, s, n); }
      SubstOk(m, root, s, z, y, n);
    }
  }

  lemma SubstNode(m: Mem, root: Ptr, s: Spans, bh: Heights, z: Ptr, y: Ptr, ex: Ptr, hole: Ptr, side: Side, n: Ptr)
    requires Ok(m, root, s, z) && y in m && y !in s && y != NULL && NULL !in s && bh.Keys == s.Keys && ex != z
    requires hole != y
    requires NodeOk(m, bh, z, ex, hole, side)
    requires if n == y then true else n != z && Ok(m, root, s, n) && NodeOk(m, bh, n, ex, hole, side)
    requires m[z].parent != NULL ==> Ok(m, root, s, m[z].parent)
    ensures NodeOk(Subst(m, z, y), (bh - {z})[y := bh[z]], n, ex, RotRoot(hole, z, y), side)
  {
    var c := m[z];
    assert c.parent != z && c.left != z && c.right != z && c.left != y && c.right != y && c.parent != y;
    assert c.parent != NULL ==> c.parent != c.left && c.parent != c.right;
    if n == y {
      SubstTop(m, bh, z, y, ex, hole, side);
    } else {
      SubstRest(m, root, s, bh, z, y, ex, hole, side, n);
    }
  }

  lemma SubstTop(m: Mem, bh: Heights, z: Ptr, y: Ptr, ex: Ptr, hole: Ptr, side: Side)
    requires z in m && y in m && y != NULL && z in bh && y !in bh && NULL !in bh && ex != z && hole != y
    requires NodeOk(m, bh, z, ex, hole, side)
    requires var c := m[z]; c.parent != z && c.left != z && c.right != z && c.left != y && c.right != y && c.parent != y
    requires var c := m[z]; c.parent != NULL ==> c.parent != c.left && c.parent != c.right
    ensures NodeOk(Subst(m, z, y), (bh - {z})[y := bh[z]], y, ex, RotRoot(hole, z, y), side)
  {
    var m', bh', c := Subst(m, z, y), (bh - {z})[y := bh[z]], m[z];
    assert Fine(m', bh', bh[z], c.color, c.left, c.right, ex, Owed(z, hole, side, L), Owed(z, hole, side, R));
  }

  lemma SubstRest(m: Mem, root: Ptr, s: Spans, bh: Heights, z: Ptr, y: Ptr, ex: Ptr, hole: Ptr, side: Side, n: Ptr)
    requires Ok(m, root, s, z) && y in m && y !in s && y != NULL && NULL !in s && bh.Keys == s.Keys && ex != z
    requires hole != y
    requires n != y && n != z && Ok(m, root, s, n) && NodeOk(m, bh, n, ex, hole, side)
    requires m[z].parent != NULL ==> Ok(m, root, s, m[z].parent)
    requires var c := m[z]; c.parent != z && c.left != z && c.right != z && c.left != y && c.right != y && c.parent != y
    requires var c := m[z]; c.parent != NULL ==> c.parent != c.left && c.parent != c.right
    ensures NodeOk(Subst(m, z, y), (bh - {z})[y := bh[z]], n, ex, RotRoot(hole, z, y), side)
  {
    var m', bh', c := Subst(m, z, y), (bh - {z})[y := bh[z]], m[z];
    if n != c.parent { assert m[n].left != z && m[n].right != z; }
    assert NodeOk(m, bh, n, ex, RotRoot(hole, z, y), side);
    FarNode(m, bh, m', bh', z, y, n, ex, ex, RotRoot(hole, z, y), side);
  }

  lemma SubstBalanced(m: Mem, root: Ptr, s: Spans, len: int, bh: Heights, z: Ptr, y: Ptr, ex: Ptr, hole: Ptr,
      side: Side)
    requires Tree(m, root, s, len, bh) && Balanced(m, bh, ex, hole, side)
    requires z in s && y in m && y !in s && y != NULL && ex != z && hole != y
    ensures z in m && Balanced(Subst(m, z, y), (bh - {z})[y := bh[z]], ex, RotRoot(hole, z, y), side)
  {
    At(m, root, s, len, bh, ex, hole, side, z);
    if m[z].parent != NULL { assert Ok(m, root, s, m[z].parent); }
    var m', bh' := Subst(m, z, y), (bh - {z})[y := bh[z]];
    hide Subst, NodeOk, Ok;
    forall n | n in bh' ensures NodeOk(m', bh', n, ex, RotRoot(hole, z, y), side) {
      if n != y { At(m, root, s, len, bh, ex, hole, side, n); }
      SubstNode(m, root, s, bh, z, y, ex, hole, side, n);
    }
  }

  lemma SubstListed(s: Spans, order: seq<Ptr>, z: Ptr, y: Ptr)
    requires Listed(s, order) && z in s && y !in s
    ensures Listed(SubstSpans(s, z, y), order[s[z].pos := y])
  {
  }

  /** The cell of a node that is not in the tree does not matter. */
  lemma Forget(m: Mem, root: Ptr, s: Spans, len: int, bh: Heights, ex: Ptr, hole: Ptr, side: Side, z: Ptr, c: Cell)
    requires Tree(m, root, s, len, bh) && Balanced(m, bh, ex, hole, side) && z !in s
    ensures Tree(m[z := c], root, s, len, bh) && Balanced(m[z := c], bh, ex, hole, side)
  {
    var m' := m[z := c];
    forall n | n in s ensures Ok(m', root, s, n) && NodeOk(m', bh, n, ex, hole, side) {
      At(m, root, s, len, bh, ex, hole, side, n);
    }
  }

  /** `y`, the in-order successor of `z`, has no left child and `z` has two. */
  ghost predicate Succeeds(m: Mem, s: Spans, z: Ptr, y: Ptr) {
    && z in s && z in m && y in s && y in m && s[y].pos == s[z].pos + 1
    && m[y].left == NULL && m[z].left != NULL && m[z].right != NULL
  }

  lemma SuccListed(s: Spans, order: seq<Ptr>, z: Ptr, y: Ptr)
    requires Listed(s, order) && z in s && y in s && s[y].pos == s[z].pos + 1
    ensures Listed(SubstSpans(Without(s, y), z, y), Drop(order, s[z].pos))
  {
    SpliceListed(s, order, y);
    var s1, o1 := Without(s, y), Drop(order, s[y].pos);
    SubstListed(s1, o1, z, y);
    assert order[s[y].pos] == y;
    assert o1[s1[z].pos := y] == Drop(order, s[z].pos);
  }

  /** Memory after the successor `y` left its place and took over that of `z`. */
  function Succ(m: Mem, z: Ptr, y: Ptr): Mem
    requires z in m && y in m && m[y].parent in m && (m[y].right != NULL ==> m[y].right in m)
    requires m[y].parent != NULL
  {
    Subst(Trans(m, y, m[y].right), z, y)[z := m[z]]
  }

  lemma SuccWired(m: Mem, root: Ptr, s: Spans, order: seq<Ptr>, bh: Heights, z: Ptr, y: Ptr)
    requires Tree(m, root, s, |order|, bh) && Listed(s, order) && Balanced(m, bh, NULL, NULL, L) && Succeeds(m, s, z, y)
    ensures 0 <= s[z].pos < |order| && |Drop(order, s[z].pos)| == |order| - 1 && z in Without(s, y)
    ensures m[y].parent in m && m[y].parent != NULL && (m[y].right != NULL ==> m[y].right in m)
    ensures var m', root', s', bh' :=
      Succ(m, z, y), RotRoot(root, z, y), SubstSpans(Without(s, y), z, y), (bh - {y} - {z})[y := bh[z]];
      && Tree(m', root', s', |order| - 1, bh') && Listed(s', Drop(order, s[z].pos))
      && if m[y].color.Black?
         then Balanced(m', bh', m[y].right, RotRoot(m[y].parent, z, y), SideOf(m, m[y].parent, y))
         else Balanced(m', bh', NULL, NULL, L)
  {
    var x := m[y].right;
    assert Ok(m, root, s, y) && Ok(m, root, s, z);
    assert m[y].parent != NULL && root != y;
    SpliceWired(m, root, s, order, y, x);
    SpliceBalanced(m, root, s, |order|, bh, y, x);
    SuccListed(s, order, z, y);
    var m1, s1, bh1 := Trans(m, y, x), Without(s, y), bh - {y};
    var ex, hole, side := if m[y].color.Black? then x else NULL, if m[y].color.Black? then m[y].parent else NULL,
                          if m[y].color.Black? then SideOf(m, m[y].parent, y) else L;
    SuccTail(m1, root, s1, |order| - 1, bh1, z, y, ex, hole, side, m[z]);
  }

  lemma SuccTail(m: Mem, root: Ptr, s: Spans, len: int, bh: Heights, z: Ptr, y: Ptr, ex: Ptr, hole: Ptr, side: Side,
      c: Cell)
    requires Tree(m, root, s, len, bh) && Balanced(m, bh, ex, hole, side)
    requires z in s && y in m && y !in s && y != NULL && ex != z && hole != y
    ensures z in m
    ensures var m', bh' := Subst(m, z, y)[z := c], (bh - {z})[y := bh[z]];
      && Tree(m', RotRoot(root, z, y), SubstSpans(s, z, y), len, bh')
      && Balanced(m', bh', ex, RotRoot(hole, z, y), side)
  {
    SubstWired(m, root, s, len, z, y);
    SubstBalanced(m, root, s, len, bh, z, y, ex, hole, side);
    hide Subst;
    Forget(Subst(m, z, y), RotRoot(root, z, y), SubstSpans(s, z, y), len, (bh - {z})[y := bh[z]], ex,
      RotRoot(hole, z, y), side, z, c);
  }

  /** The last writes of the two-child case: hang `y` where `z` hung, give it the left child and colour of `z`. */
  function Overtake(m: Mem, z: Ptr, y: Ptr): Mem
    requires z in m && y in m && y != NULL && (m[z].parent != NULL ==> m[z].parent in m) && m[z].left in m
  {
    var m1 := Trans(m, z, y);
    var m2 := m1[y := m1[y].(left := m1[z].left)];
    var m3 := m2[m2[y].left := m2[m2[y].left].(parent := y)];
    m3[y := m3[y].(color := m3[z].color)]
  }

  lemma SuccWritesNear(m: Mem, root: Ptr, s: Spans, len: int, z: Ptr, y: Ptr)
    requires Wired(m, root, s, len) && Succeeds(m, s, z, y) && m[y].parent == z
    ensures z != NULL && y != NULL && (m[z].parent != NULL ==> m[z].parent in m) && m[z].left in m
    ensures (m[y].right != NULL ==> m[y].right in m)
    ensures Overtake(m, z, y) == Succ(m, z, y)
  {
    hide Overtake, Succ;
    var x, l, p := m[y].right, m[z].left, m[z].parent;
    assert Ok(m, root, s, z) && Ok(m, root, s, y) && Ok(m, root, s, l);
    if p != NULL { assert Ok(m, root, s, p); }
    if x != NULL { assert Ok(m, root, s, x); }
    assert y == m[z].right && z != y && l !in {z, y, x, p} && p !in {z, y} && x !in {z, y} && (x != NULL ==> x != p);
    SuccCellsNear(m, z, y);
  }

  lemma SuccCellsNear(m: Mem, z: Ptr, y: Ptr)
    requires z in m && y in m && z != NULL && y != NULL && m[y].parent == z && y == m[z].right && z != y
    requires m[y].left == NULL
    requires m[z].left in m && m[z].left != NULL
    requires var x, l, p := m[y].right, m[z].left, m[z].parent;
      && (p != NULL ==> p in m) && (x != NULL ==> x in m) && l !in {z, y, x, p} && p !in {z, y} && x !in {z, y}
      && (x != NULL ==> x != p && m[x].parent == y)
      && (p != NULL ==> (m[p].left == z) != (m[p].right == z))
    ensures Overtake(m, z, y) == Succ(m, z, y)
  {
    var a, b := Overtake(m, z, y), Succ(m, z, y);
    forall q | q in m ensures a[q] == b[q] { }
  }

  /** The cells the far two-child case writes, all distinct except that `r` and `yp` may coincide. */
  ghost predicate FarCells(m: Mem, z: Ptr, y: Ptr) {
    && z in m && y in m && z != NULL && y != NULL && z != y
    && var x, l, p, r, yp := m[y].right, m[z].left, m[z].parent, m[z].right, m[y].parent;
    && l in m && r in m && yp in m && l != NULL && r != NULL && yp != NULL
    && (p != NULL ==> p in m) && (x != NULL ==> x in m)
    && l !in {z, y, x, p, r, yp} && r !in {z, y, p, x} && p !in {z, y, yp} && x !in {z, y} && yp !in {z, y, x}
    && (x != NULL ==> x != p)
  }

  lemma SuccFarCells(m: Mem, root: Ptr, s: Spans, order: seq<Ptr>, z: Ptr, y: Ptr)
    requires Wired(m, root, s, |order|) && Listed(s, order) && Succeeds(m, s, z, y) && m[y].parent != z
    ensures FarCells(m, z, y)
  {
    var x, l, p, r, yp := m[y].right, m[z].left, m[z].parent, m[z].right, m[y].parent;
    assert Ok(m, root, s, z) && Ok(m, root, s, y) && Ok(m, root, s, l) && Ok(m, root, s, r);
    if p != NULL { assert Ok(m, root, s, p); }
    if x != NULL { assert Ok(m, root, s, x); }
    assert Ok(m, root, s, yp);
    assert order[s[yp].pos] == yp && order[s[z].pos] == z;
    hide Wired, Listed;
  }

  lemma SuccWritesFar(m: Mem, z: Ptr, y: Ptr)
    requires FarCells(m, z, y)
    ensures var m1 := Trans(m, y, m[y].right); var m2 := m1[y := m1[y].(right := m1[z].right)];
      && z in m1 && m1[z].right == m[z].right && m2[y].right in m2
      && var m3 := m2[m2[y].right := m2[m2[y].right].(parent := y)];
      && z in m3 && y in m3 && y != NULL && m3[z] == m[z] && (m3[z].parent != NULL ==> m3[z].parent in m3)
      && m3[z].left in m3
      && Overtake(m3, z, y) == Succ(m, z, y)
  {
  }

  lemma UnlinkOneDone(m: Mem, root: Ptr, s: Spans, order: seq<Ptr>, bh: Heights, z: Ptr, v: Ptr)
    requires Tree(m, root, s, |order|, bh) && Listed(s, order) && Balanced(m, bh, NULL, NULL, L) && z in s
    requires OnlyChild(m, z, v)
    ensures (m[z].parent != NULL ==> m[z].parent in m) && (v != NULL ==> v in m) && (m[z].parent == NULL <==> root == z)
    ensures var m', s', bh', p := Trans(m, z, v), Without(s, z), bh - {z}, m[z].parent;
      && Tree(m', RotRoot(root, z, v), s', |order| - 1, bh') && Listed(s', Drop(order, s[z].pos))
      && (if m[z].color.Black? then Balanced(m', bh', v, p, SideOf(m, p, z)) else Balanced(m', bh', NULL, NULL, L))
      && (p != NULL ==> p in s' && p in m' && p != z && m'[p].Kid(SideOf(m, p, z)) == v)
      && (v != NULL ==> v in s' && v in m')
      && (IsRed(m', RotRoot(root, z, v)) ==> IsRed(m, root) || (root == z && IsRed(m, v)))
      && Frame(m, m', s.Keys) && s'.Keys == s.Keys - {z}
  {
    SpliceWired(m, root, s, order, z, v);
    SpliceListed(s, order, z);
    SpliceBalanced(m, root, s, |order|, bh, z, v);
    SpliceShort(m, root, s, |order|, z, v);
    hide Wired, Balanced, Listed, Trans, Without;
  }

  lemma SpliceShort(m: Mem, root: Ptr, s: Spans, len: int, z: Ptr, v: Ptr)
    requires Wired(m, root, s, len) && z in s && OnlyChild(m, z, v)
    ensures (m[z].parent != NULL ==> m[z].parent in m) && (v != NULL ==> v in m) && (m[z].parent == NULL <==> root == z)
    ensures var m', s', p := Trans(m, z, v), Without(s, z), m[z].parent;
      && (p != NULL ==> p in s' && p in m' && p != z && m'[p].Kid(SideOf(m, p, z)) == v)
      && (v != NULL ==> v in s' && v in m')
      && (IsRed(m', RotRoot(root, z, v)) ==> IsRed(m, root) || (root == z && IsRed(m, v)))
      && Frame(m, m', s.Keys) && s'.Keys == s.Keys - {z}
  {
    assert Ok(m, root, s, z);
    if m[z].parent != NULL { assert Ok(m, root, s, m[z].parent); }
    if v != NULL { assert Ok(m, root, s, v); }
    TransFrame(m, z, v, s.Keys);
    hide Wired;
  }

  /** The nodes the two-child case touches. */
  ghost predicate Ring(m: Mem, root: Ptr, s: Spans, z: Ptr, y: Ptr) {
    && Succeeds(m, s, z, y) && m[y].parent in m && m[y].parent != NULL && (m[y].right != NULL ==> m[y].right in m)
    && Ok(m, root, s, z) && Ok(m, root, s, y) && Ok(m, root, s, m[y].parent)
    && Ok(m, root, s, m[z].left) && Ok(m, root, s, m[z].right)
    && (m[z].parent != NULL ==> Ok(m, root, s, m[z].parent)) && (m[y].right != NULL ==> Ok(m, root, s, m[y].right))
    && (m[y].parent != z ==> FarCells(m, z, y))
  }

  lemma LookRing(m: Mem, root: Ptr, s: Spans, order: seq<Ptr>, z: Ptr, y: Ptr)
    requires Wired(m, root, s, |order|) && Listed(s, order) && Succeeds(m, s, z, y)
    requires m[y].parent in m && m[y].parent != NULL && (m[y].right != NULL ==> m[y].right in m)
    ensures Ring(m, root, s, z, y)
  {
    var x, p, yp := m[y].right, m[z].parent, m[y].parent;
    assert Ok(m, root, s, y) && Ok(m, root, s, z) && Ok(m, root, s, yp) && Ok(m, root, s, m[z].left) &&
      Ok(m, root, s, m[z].right);
    if p != NULL { assert Ok(m, root, s, p); }
    if x != NULL { assert Ok(m, root, s, x); }
    if yp != z { SuccFarCells(m, root, s, order, z, y); }
    hide Wired, Listed;
  }

  lemma TransFrame(m: Mem, u: Ptr, v: Ptr, tree: set<Ptr>)
    requires u in m && (m[u].parent != NULL ==> m[u].parent in m && m[u].parent in tree)
    requires (v != NULL ==> v in m && v in tree)
    ensures Frame(m, Trans(m, u, v), tree)
    ensures forall q {:trigger Trans(m, u, v)[q]} :: q in m ==> Trans(m, u, v)[q].color == m[q].color
  {
  }

  lemma SubstFrame(m: Mem, z: Ptr, y: Ptr, tree: set<Ptr>)
    requires z in m && z in tree && y in m && y in tree
    requires m[z].left in tree + {NULL} && m[z].right in tree + {NULL} && m[z].parent in tree + {NULL}
    ensures Frame(m, Subst(m, z, y), tree)
    ensures forall q {:trigger Subst(m, z, y)[q]} :: q in m && q != y ==> Subst(m, z, y)[q].color == m[q].color
    ensures Subst(m, z, y)[y].color == m[z].color
  {
  }

  /** The short child of the two-child case and its parent. */
  lemma SuccShort(m: Mem, root: Ptr, s: Spans, z: Ptr, y: Ptr)
    requires Ring(m, root, s, z, y)
    ensures var m', x, h := Succ(m, z, y), m[y].right, RotRoot(m[y].parent, z, y);
      h in s && h in m' && h != NULL && h != z && m'[h].Kid(SideOf(m, m[y].parent, y)) == x &&
        (x != NULL ==> x in s && x in m' && x != z)
  {
  }

  lemma SuccFrame(m: Mem, root: Ptr, s: Spans, z: Ptr, y: Ptr)
    requires Ring(m, root, s, z, y)
    ensures Frame(m, Succ(m, z, y), s.Keys)
    ensures SubstSpans(Without(s, y), z, y).Keys == s.Keys - {z}
    ensures forall q :: q in m && q != y ==> Succ(m, z, y)[q].color == m[q].color
    ensures Succ(m, z, y)[y].color == m[z].color
  {
    var m1 := Trans(m, y, m[y].right);
    TransFrame(m, y, m[y].right, s.Keys);
    assert m1[z].left in s.Keys + {NULL} && m1[z].right in s.Keys + {NULL} && m1[z].parent in s.Keys + {NULL};
    SubstFrame(m1, z, y, s.Keys);
  }

  lemma UnlinkTwoDone(m: Mem, root: Ptr, s: Spans, order: seq<Ptr>, z: Ptr, y: Ptr)
    requires Wired(m, root, s, |order|) && Listed(s, order) && Succeeds(m, s, z, y)
    requires m[y].parent in m && m[y].parent != NULL && (m[y].right != NULL ==> m[y].right in m)
    ensures var m', s', x, h, side :=
      Succ(m, z, y), SubstSpans(Without(s, y), z, y), m[y].right, RotRoot(m[y].parent, z, y), SideOf(m, m[y].parent, y);
      && s'.Keys == s.Keys - {z} && Frame(m, m', s.Keys)
      && h in s' && h in m' && h != NULL && m'[h].Kid(side) == x && (x != NULL ==> x in s' && x in m')
      && x != RotRoot(root, z, y)
      && (IsRed(m', RotRoot(root, z, y)) ==> IsRed(m, root)) && RotRoot(root, z, y) != NULL
  {
    LookRing(m, root, s, order, z, y);
    RootIn(m, root, s, order);
    SuccShort(m, root, s, z, y);
    SuccFrame(m, root, s, z, y);
    assert 0 <= s[z].pos < |order|;
    assert m[root].parent == NULL && root != y && root != m[y].right;
    hide Wired, Listed, Succ, Subst, SubstSpans, FarCells;
  }

  // ---------------------------------------------------------------- hanging a new leaf

  function LinkMem(m: Mem, z: Ptr, p: Ptr, d: Side): Mem
    requires p != NULL ==> p in m
  {
    var m1 := m[z := Cell(NULL, NULL, p, Red)];
    if p == NULL then m1 else m1[p := m1[p].SetKid(d, z)]
  }

  function Up(i: int, k: int): int { if i >= k then i + 1 else i }

  /** Ranges that end (left child) or start (right child) at the new index `k` do not take the new node in. */
  ghost function With(s: Spans, z: Ptr, k: int, d: Side): Spans {
    (map n | n in s :: var e := if d.L? then k + 1 else k;
      Span(Up(s[n].lo, e), Up(s[n].pos, k), Up(s[n].hi, e)))[z := Span(k, k, k + 1)]
  }

  ghost predicate Slot(m: Mem, root: Ptr, s: Spans, p: Ptr, d: Side, k: int) {
    if p == NULL then root == NULL && k == 0
    else p in s && p in m && m[p].Kid(d) == NULL && k == s[p].pos + (if d.L? then 0 else 1)
  }

  lemma LinkOk(m: Mem, root: Ptr, s: Spans, z: Ptr, p: Ptr, d: Side, k: int, n: Ptr)
    requires Slot(m, root, s, p, d, k) && p != NULL && Ok(m, root, s, p) && z !in s && z != NULL && NULL !in s
    requires Ok(m, root, s, n) && (n != p ==> s[n].pos != s[p].pos)
    ensures Ok(LinkMem(m, z, p, d), root, With(s, z, k, d), n)
  {
    var m', s' := LinkMem(m, z, p, d), With(s, z, k, d);
    assert HangsAt(m', s', m'[n].left, n, s'[n].lo, s'[n].pos);
    assert HangsAt(m', s', m'[n].right, n, s'[n].pos + 1, s'[n].hi);
  }

  lemma LinkWired(m: Mem, root: Ptr, s: Spans, order: seq<Ptr>, z: Ptr, p: Ptr, d: Side, k: int)
    requires Wired(m, root, s, |order|) && Listed(s, order) && z !in s && z != NULL && NULL !in s
    requires Slot(m, root, s, p, d, k)
    ensures Wired(LinkMem(m, z, p, d), if p == NULL then z else root, With(s, z, k, d), |order| + 1)
    ensures 0 <= k <= |order|
  {
    var m', root', s' := LinkMem(m, z, p, d), if p == NULL then z else root, With(s, z, k, d);
    if p == NULL {
      assert |order| == 0 && forall n :: n in s ==> 0 <= s[n].pos < |order|;
    } else {
      assert Ok(m, root, s, p) && Ok(m, root, s, root);
      forall n | n in s' ensures Ok(m', root', s', n) {
        if n != z {
          assert Ok(m, root, s, n);
          LinkOk(m, root, s, z, p, d, k, n);
        }
      }
    }
  }

  function Insert(order: seq<Ptr>, k: int, z: Ptr): seq<Ptr>
    requires 0 <= k <= |order|
  {
    order[..k] + [z] + order[k..]
  }

  lemma LinkListed(s: Spans, order: seq<Ptr>, z: Ptr, d: Side, k: int)
    requires Listed(s, order) && z !in s && 0 <= k <= |order|
    ensures Listed(With(s, z, k, d), Insert(order, k, z))
  {
    var s', o' := With(s, z, k, d), Insert(order, k, z);
    forall i | 0 <= i < |o'| ensures o'[i] in s' && s'[o'[i]].pos == i {
      if i < k { assert o'[i] == order[i]; } else if i > k { assert o'[i] == order[i - 1]; }
    }
    forall n | n in s' ensures 0 <= s'[n].pos < |o'| && o'[s'[n].pos] == n {
      if n != z { assert order[s[n].pos] == n; }
    }
  }

  lemma LinkBalanced(m: Mem, root: Ptr, s: Spans, len: int, bh: Heights, z: Ptr, p: Ptr, d: Side, k: int)
    requires Tree(m, root, s, len, bh) && Balanced(m, bh, NULL, NULL, L) && z !in s && z != NULL
    requires Slot(m, root, s, p, d, k)
    ensures Balanced(LinkMem(m, z, p, d), bh[z := 0], z, NULL, L)
  {
    var m', bh' := LinkMem(m, z, p, d), bh[z := 0];
    forall n | n in bh' ensures NodeOk(m', bh', n, z, NULL, L) {
      if n != z {
        At(m, root, s, len, bh, NULL, NULL, L, n);
      }
    }
  }

  lemma LinkDone(m: Mem, root: Ptr, s: Spans, order: seq<Ptr>, bh: Heights, z: Ptr, p: Ptr, d: Side, k: int)
    requires Tree(m, root, s, |order|, bh) && Listed(s, order) && Balanced(m, bh, NULL, NULL, L)
    requires z !in s && z != NULL && z in m && Slot(m, root, s, p, d, k)
    ensures 0 <= k <= |order| && p != z && (p == NULL ==> order == []) && (p != NULL ==> 0 <= s[p].pos)
    ensures var m', s', bh', order' := LinkMem(m, z, p, d), With(s, z, k, d), bh[z := 0], Insert(order, k, z);
      && Tree(m', if p == NULL then z else root, s', |order'|, bh') && Listed(s', order')
      && Balanced(m', bh', z, NULL, L)
      && s'.Keys == s.Keys + {z} && z in m' && m'[z].color.Red? && Frame(m, m', s.Keys + {z})
  {
    LinkWired(m, root, s, order, z, p, d, k);
    LinkListed(s, order, z, d, k);
    LinkBalanced(m, root, s, |order|, bh, z, p, d, k);
    if p != NULL { assert Ok(m, root, s, p); }
    hide Wired, Balanced, Listed;
  }

  // ---------------------------------------------------------------- what the ghost maps mean

  /** Left subtree, node, right subtree: the in-order walk over the links themselves. */
  ghost function Traverse(m: Mem, root: Ptr, s: Spans, len: int, q: Ptr): seq<Ptr>
    requires Wired(m, root, s, len) && (q == NULL || q in s)
    decreases if q == NULL then 0 else s[q].hi - s[q].lo
  {
    if q == NULL then []
    else
      assert Ok(m, root, s, q);
      assert m[q].left == NULL || Ok(m, root, s, m[q].left);
      assert m[q].right == NULL || Ok(m, root, s, m[q].right);
      Traverse(m, root, s, len, m[q].left) + [q] + Traverse(m, root, s, len, m[q].right)
  }

  /** The recorded sequence is the one an in-order walk visits. */
  lemma {:induction false} TraverseIsOrder(m: Mem, root: Ptr, s: Spans, order: seq<Ptr>, q: Ptr)
    requires Wired(m, root, s, |order|) && Listed(s, order) && q in s
    ensures 0 <= s[q].lo <= s[q].hi <= |order| && Traverse(m, root, s, |order|, q) == order[s[q].lo..s[q].hi]
    decreases s[q].hi - s[q].lo
  {
    hide Wired, Listed;
    OkAt(m, root, s, |order|, q);
    SpanIn(s, order, q);
    var l, r := m[q].left, m[q].right;
    if l != NULL { OkAt(m, root, s, |order|, l); TraverseIsOrder(m, root, s, order, l); }
    if r != NULL { OkAt(m, root, s, |order|, r); TraverseIsOrder(m, root, s, order, r); }
    SplitAt(order, s[q].lo, s[q].pos, s[q].hi);
  }

  lemma SplitAt(order: seq<Ptr>, lo: int, k: int, hi: int)
    requires 0 <= lo <= k < hi <= |order|
    ensures order[lo..hi] == order[lo..k] + [order[k]] + order[k + 1..hi]
    ensures order[k..k] == []
  {
  }

  /** `path` leads from `q` to a leaf. */
  ghost predicate LeafPath(m: Mem, q: Ptr, path: seq<Side>)
    decreases |path|
  {
    if q == NULL then path == [] else q in m && path != [] && LeafPath(m, m[q].Kid(path[0]), path[1..])
  }

  ghost function Blacks(m: Mem, q: Ptr, path: seq<Side>): nat
    requires LeafPath(m, q, path)
    decreases |path|
  {
    if q == NULL then 0 else (if m[q].color.Black? then 1 else 0) + Blacks(m, m[q].Kid(path[0]), path[1..])
  }

  /** All paths from a node down to a leaf carry the same number of black nodes. */
  lemma {:induction false} SameBlacks(m: Mem, root: Ptr, s: Spans, len: int, bh: Heights, q: Ptr, path: seq<Side>)
    requires Tree(m, root, s, len, bh) && Balanced(m, bh, NULL, NULL, L) && (q == NULL || q in s)
    requires LeafPath(m, q, path)
    ensures Blacks(m, q, path) == Bh(bh, q)
    decreases |path|
  {
    if q != NULL {
      At(m, root, s, len, bh, NULL, NULL, L, q);
      SameBlacks(m, root, s, len, bh, m[q].Kid(path[0]), path[1..]);
    }
  }

  // ---------------------------------------------------------------- the tree object

  function First(order: seq<Ptr>): Ptr { if order == [] then NULL else order[0] }

  /** `rb_root_t` together with the node memory its links live in. */
  class RbRoot {
    var mem: Mem
    var node: Ptr
    var leftmost: Ptr
    ghost var s: Spans
    ghost var bh: Heights
    ghost var order: seq<Ptr>

    ghost predicate Shape(ex: Ptr, hole: Ptr, side: Side)
      reads this
    {
      Tree(mem, node, s, |order|, bh) && Listed(s, order) && Balanced(mem, bh, ex, hole, side)
    }

    /** The tree is a red-black tree whose in-order sequence is `order`, and `leftmost` is its first node. */
    ghost predicate Valid()
      reads this
    {
      Shape(NULL, NULL, L) && !IsRed(mem, node) && leftmost == First(order)
    }

    /** `RB_ROOT_INIT` over a memory of unlinked nodes. */
    constructor (m: Mem)
      ensures Valid() && mem == m && order == [] && s == map[]
    {
      mem, node, leftmost := m, NULL, NULL;
      s, bh, order := map[], map[], [];
    }

    method Rotate(x: Ptr, d: Side)
      requires Wired(mem, node, s, |order|) && x in s && x in mem && mem[x].Kid(d.Opp()) != NULL
      modifies this`mem, this`node
      ensures old(mem)[x].Kid(d.Opp()) in old(mem)
      ensures mem == Rot(old(mem), x, d) && node == RotRoot(old(node), x, old(mem)[x].Kid(d.Opp()))
    {
      ghost var y0, b0, p0 := LookAround(mem, node, s, |order|, x, d);
      RotDistinct(mem, node, s, x, y0, b0, p0, d);
      RotWrites(mem, node, s, x, y0, b0, p0, d);
      hide Rot;
      var y := mem[x].Kid(d.Opp());
      mem := mem[x := mem[x].SetKid(d.Opp(), mem[y].Kid(d))];
      if mem[y].Kid(d) != NULL {
        mem := mem[mem[y].Kid(d) := mem[mem[y].Kid(d)].(parent := x)];
      }
      mem := mem[y := mem[y].(parent := mem[x].parent)];
      var p := mem[x].parent;
      if p == NULL {
        node := y;
      } else if x == mem[p].Kid(d) {
        mem := mem[p := mem[p].SetKid(d, y)];
      } else {
        mem := mem[p := mem[p].SetKid(d.Opp(), y)];
      }
      mem := mem[y := mem[y].SetKid(d, x)];
      mem := mem[x := mem[x].(parent := y)];
    }

    method SetColor(q: Ptr, c: Color)
      requires q in mem
      modifies this`mem
      ensures mem == Paint(old(mem), q, c)
    {
      mem := mem[q := mem[q].(color := c)];
    }

    /** Raise the red parent `p` of the outer child `z` above the grandparent `g`. */
    method InsertRaise(z: Ptr, d: Side)
      requires Shape(z, NULL, L) && Offends(mem, s, z, d) && mem[mem[z].parent].Kid(d) == z
      modifies this`mem, this`node, this`s, this`bh
      ensures Shape(NULL, NULL, L) && s.Keys == old(s).Keys && Frame(old(mem), mem, s.Keys)
      ensures z in mem && mem[z].color.Red? && mem[z].parent in mem && mem[mem[z].parent].color.Black?
    {
      InsertRaised(mem, node, s, order, bh, z, d);
      hide Shape, Wired, Balanced, Listed, Rot, RotSpans, Frame;
      var p := mem[z].parent;
      var g := mem[p].parent;
      SetColor(p, Black);
      SetColor(g, Red);
      Rotate(g, d.Opp());
      s, bh := RotSpans(s, g, p, d.Opp()), RaiseHeights(bh, p, g);
    }

    method InsertTurn(z: Ptr, d: Side) returns (z': Ptr)
      requires Shape(z, NULL, L) && Offends(mem, s, z, d)
      modifies this`mem, this`node, this`s, this`bh
      ensures Shape(NULL, NULL, L) && s.Keys == old(s).Keys && Frame(old(mem), mem, s.Keys) && z' in s
      ensures z' in mem && mem[z'].color.Red? && mem[z'].parent in mem && mem[mem[z'].parent].color.Black?
    {
      z' := z;
      assert Ok(mem, node, s, z);
      if z == mem[mem[z].parent].Kid(d.Opp()) {
        z' := mem[z].parent;
        InsertTurned(mem, node, s, order, bh, z, d);
        assert z' in s;
        hide Wired, Balanced, Listed, Rot, RotSpans;
        Rotate(z', d);
        s := RotSpans(s, z', z, d);
      }
      InsertRaise(z', d);
    }

    /** Red uncle: repaint, and the conflict moves up to the grandparent. */
    method InsertPaint(z: Ptr, gp: Ptr, d: Side)
      requires Shape(z, NULL, L) && z in s && z in mem && mem[z].color.Red?
      requires var p := mem[z].parent; p in s && IsRed(mem, p) && mem[p].parent == gp
      requires gp in s && gp in mem && mem[gp].Kid(d) == mem[z].parent && IsRed(mem, mem[gp].Kid(d.Opp()))
      modifies this`mem, this`bh
      ensures Shape(gp, NULL, L) && gp in mem && mem[gp].color.Red? && Frame(old(mem), mem, s.Keys)
    {
      hide Wired, Balanced, Listed, HangsAt;
      var p := mem[z].parent;
      var y := mem[gp].Kid(d.Opp());
      OkAt(mem, node, s, |order|, gp);
      Within(mem, node, s, |order|, z);
      KidIn(mem, node, s, gp, d.Opp());
      InsertRecolor(mem, node, s, |order|, bh, z, p, y, gp, d);
      SetColor(p, Black);
      SetColor(y, Black);
      SetColor(gp, Red);
      bh := bh[p := bh[p] + 1][y := Bh(bh, y) + 1];
    }

    /** One round of the insert fix-up when the parent of `z` is the child of `gp` on side `d`. */
    method InsertStep(z: Ptr, gp: Ptr, d: Side) returns (z': Ptr)
      requires Shape(z, NULL, L) && z in s && z in mem && mem[z].color.Red?
      requires var p := mem[z].parent; p in s && IsRed(mem, p) && mem[p].parent == gp
      requires gp in s && gp in mem && mem[gp].Kid(d) == mem[z].parent
      modifies this`mem, this`node, this`s, this`bh
      ensures Shape(z', NULL, L) && z' in s && z' in mem && mem[z'].color.Red? && s.Keys == old(s).Keys
      ensures Frame(old(mem), mem, s.Keys)
      ensures IsRed(mem, mem[z'].parent) ==> z' == gp && s == old(s)
    {
      var p := mem[z].parent;
      var y := mem[gp].Kid(d.Opp());
      assert Ok(mem, node, s, z) && Ok(mem, node, s, p) && Ok(mem, node, s, gp);
      hide Wired, Balanced, Listed;
      if y != NULL && mem[y].color.Red? {
        InsertPaint(z, gp, d);
        z' := gp;
      } else {
        z' := InsertTurn(z, d);
        Excuse(mem, bh, z', NULL, L);
      }
    }

    /** `rb_insert_fixup`: after a red leaf `z` was linked in, repair colours; the in-order sequence stays. */
    method InsertFixup(z0: Ptr)
      requires Shape(z0, NULL, L) && z0 in s && z0 in mem && mem[z0].color.Red?
      modifies this`mem, this`node, this`s, this`bh
      ensures Shape(NULL, NULL, L) && !IsRed(mem, node) && s.Keys == old(s).Keys && Frame(old(mem), mem, s.Keys)
    {
      hide Wired, Balanced, Listed, HangsAt;
      var z := z0;
      OkAt(mem, node, s, |order|, z);
      while mem[z].parent != NULL && mem[mem[z].parent].color == Red
        invariant Shape(z, NULL, L) && z in s && z in mem && mem[z].color.Red?
        invariant mem[z].parent != NULL ==> mem[z].parent in s && mem[z].parent in mem
        invariant s.Keys == old(s).Keys && Frame(old(mem), mem, s.Keys)
        decreases if IsRed(mem, mem[z].parent) then 1 + |order| - (s[z].hi - s[z].lo) else 0
      {
        var gp := mem[mem[z].parent].parent;
        if gp == NULL { break; }
        SpanIn(s, order, z);
        OkAt(mem, node, s, |order|, mem[z].parent);
        Within(mem, node, s, |order|, z);
        Within(mem, node, s, |order|, mem[z].parent);
        if mem[z].parent == mem[gp].left {
          z := InsertStep(z, gp, L);
        } else {
          z := InsertStep(z, gp, R);
        }
        OkAt(mem, node, s, |order|, z);
        SpanIn(s, order, z);
      }
      SpanIn(s, order, z);
      RootIn(mem, node, s, order);
      InsertFinish(mem, node, s, |order|, bh, z);
      ghost var bh' := TopHeights(mem, bh, node);
      SetColor(node, Black);
      bh := bh';
    }

    // ------------------------------------------------------------ erase

    /** Sibling red: raise it. */
    method EraseRedSibling(xp: Ptr, d: Side)
      requires Shape(NULL, xp, d) && xp in s && xp in mem
      requires !IsRed(mem, mem[xp].Kid(d)) && IsRed(mem, mem[xp].Kid(d.Opp()))
      modifies this`mem, this`node, this`s, this`bh
      ensures Shape(NULL, xp, d) && s.Keys == old(s).Keys && Frame(old(mem), mem, s.Keys)
      ensures IsRed(mem, node) ==> IsRed(old(mem), old(node))
      ensures xp in mem && mem[xp].Kid(d) == old(mem)[xp].Kid(d) && mem[xp].color.Red? && mem[xp].parent != NULL
      ensures BlackSibling(mem, s, xp, d)
    {
      RedSibling(mem, node, s, order, bh, xp, d);
      assert Ok(mem, node, s, xp);
      hide Wired, Balanced, Listed, Rot, RotSpans;
      var w := mem[xp].Kid(d.Opp());
      SetColor(w, Black);
      SetColor(xp, Red);
      Rotate(xp, d);
      s, bh := RotSpans(s, xp, w, d), RaiseHeights(bh, w, xp);
      SiblingExists(mem, node, s, |order|, bh, NULL, xp, d);
    }

    /** Sibling black with a red child: rotate once or twice and be done. */
    method EraseSettle(xp: Ptr, d: Side)
      requires Shape(NULL, xp, d) && BlackSibling(mem, s, xp, d)
      requires var w := mem[xp].Kid(d.Opp()); IsRed(mem, mem[w].left) || IsRed(mem, mem[w].right)
      modifies this`mem, this`node, this`s, this`bh
      ensures Shape(NULL, NULL, L) && s.Keys == old(s).Keys && Frame(old(mem), mem, s.Keys)
      ensures IsRed(mem, node) ==> IsRed(old(mem), old(node))
    {
      var w := mem[xp].Kid(d.Opp());
      assert Ok(mem, node, s, w);
      hide Wired, Balanced, Listed;
      if mem[w].Kid(d.Opp()) == NULL || mem[mem[w].Kid(d.Opp())].color == Black {
        EraseNearRed(xp, d);
        w := mem[xp].Kid(d.Opp());
      }
      EraseFarRed(xp, w, d);
    }

    method EraseFarRed(xp: Ptr, w: Ptr, d: Side)
      requires Shape(NULL, xp, d) && BlackSibling(mem, s, xp, d) && w == mem[xp].Kid(d.Opp())
      requires IsRed(mem, mem[w].Kid(d.Opp()))
      modifies this`mem, this`node, this`s, this`bh
      ensures Shape(NULL, NULL, L) && s.Keys == old(s).Keys && Frame(old(mem), mem, s.Keys)
      ensures IsRed(mem, node) ==> IsRed(old(mem), old(node))
    {
      FarRed(mem, node, s, order, bh, xp, d);
      hide Wired, Balanced, Listed, Rot, RotSpans;
      ghost var f := mem[w].Kid(d.Opp());
      SetColor(w, mem[xp].color);
      SetColor(xp, Black);
      if mem[w].Kid(d.Opp()) != NULL { SetColor(mem[w].Kid(d.Opp()), Black); }
      Rotate(xp, d);
      s, bh := RotSpans(s, xp, w, d), SettleHeights(bh, w, xp, f);
    }

    method EraseNearRed(xp: Ptr, d: Side)
      requires Shape(NULL, xp, d) && BlackSibling(mem, s, xp, d)
      requires var w := mem[xp].Kid(d.Opp()); IsRed(mem, mem[w].Kid(d)) && !IsRed(mem, mem[w].Kid(d.Opp()))
      modifies this`mem, this`node, this`s, this`bh
      ensures Shape(NULL, xp, d) && s.Keys == old(s).Keys && Frame(old(mem), mem, s.Keys)
      ensures IsRed(mem, node) ==> IsRed(old(mem), old(node))
      ensures BlackSibling(mem, s, xp, d) && IsRed(mem, mem[mem[xp].Kid(d.Opp())].Kid(d.Opp()))
    {
      NearRed(mem, node, s, order, bh, xp, d);
      assert d.Opp().Opp() == d;
      hide Wired, Balanced, Listed, Rot, RotSpans;
      var w := mem[xp].Kid(d.Opp());
      var c := mem[w].Kid(d);
      if c != NULL { SetColor(c, Black); }
      SetColor(w, Red);
      Rotate(w, d.Opp());
      s, bh := RotSpans(s, w, c, d.Opp()), RaiseHeights(bh, c, w);
    }

    /** The state between two rounds of the erase fix-up: `x`, the child of `xp` on `side`, is one black node short,
        unless it is the root. */
    ghost predicate Short(x: Ptr, xp: Ptr, ex: Ptr, side: Side)
      reads this
    {
      && Excused(mem, ex, x) && (x != NULL ==> x in s && x in mem)
      && if x == node then Shape(ex, NULL, L)
         else xp != NULL && xp in s && xp in mem && mem[xp].Kid(side) == x && Shape(ex, xp, side)
    }

    /** Sibling and its children black: paint it red and move the shortage up. */
    method ErasePush(xp: Ptr, d: Side) returns (up: Ptr, ghost side: Side)
      requires Shape(NULL, xp, d) && BlackSibling(mem, s, xp, d) && xp != NULL
      requires var w := mem[xp].Kid(d.Opp()); !IsRed(mem, mem[w].left) && !IsRed(mem, mem[w].right)
      modifies this`mem, this`bh
      ensures s == old(s) && Frame(old(mem), mem, s.Keys)
      ensures Short(xp, up, old(mem)[xp].Kid(d.Opp()), side) && mem[xp] == old(mem)[xp]
      ensures IsRed(mem, node) ==> IsRed(old(mem), old(node))
    {
      var w := mem[xp].Kid(d.Opp());
      assert Ok(mem, node, s, xp) && Ok(mem, node, s, w);
      PushUp(mem, node, s, |order|, bh, w, xp, d);
      side := SideOf(mem, mem[xp].parent, xp);
      if mem[xp].parent != NULL { assert Ok(mem, node, s, mem[xp].parent); }
      hide Wired, Balanced, Listed;
      bh := PushUpHeights(bh, w, xp);
      SetColor(w, Red);
      up := mem[xp].parent;
      if up == NULL { NoHole(mem, bh, w, side); }
    }

    method EraseStep(x: Ptr, xp: Ptr, d: Side, ghost ex: Ptr)
        returns (x': Ptr, xp': Ptr, ghost ex': Ptr, ghost side': Side)
      requires Short(x, xp, ex, d) && x != node && !IsRed(mem, x)
      modifies this`mem, this`node, this`s, this`bh
      ensures Short(x', xp', ex', side') && s.Keys == old(s).Keys && Frame(old(mem), mem, s.Keys)
      ensures x' == node || IsRed(mem, x') || (x' == xp && s == old(s))
      ensures IsRed(mem, node) ==> IsRed(old(mem), old(node))
      ensures node != NULL
    {
      DropException(mem, node, s, |order|, bh, x, ex, xp, d);
      SiblingExists(mem, node, s, |order|, bh, NULL, xp, d);
      var w := mem[xp].Kid(d.Opp());
      if w != NULL && mem[w].color == Red {
        EraseRedSibling(xp, d);
        w := mem[xp].Kid(d.Opp());
      }
      assert Ok(mem, node, s, w) && Ok(mem, node, s, xp);
      assert node != NULL by { assert 0 <= s[xp].pos < |order|; }
      hide Wired, Balanced, Listed;
      if (mem[w].left == NULL || mem[mem[w].left].color == Black) &&
        (mem[w].right == NULL || mem[mem[w].right].color == Black) {
        xp', side' := ErasePush(xp, d);
        x', ex' := xp, w;
      } else {
        EraseSettle(xp, d);
        RootIn(mem, node, s, order);
        x', xp', ex', side' := node, xp, NULL, L;
      }
    }

    method EraseFixup(x0: Ptr, xp0: Ptr, ghost ex0: Ptr, ghost side0: Side)
      requires Short(x0, xp0, ex0, side0) && node != NULL
      modifies this`mem, this`node, this`s, this`bh
      ensures Shape(NULL, NULL, L) && s.Keys == old(s).Keys && Frame(old(mem), mem, s.Keys)
      ensures IsRed(mem, node) ==> IsRed(old(mem), old(node)) && x0 != old(node)
    {
      hide Wired, Balanced, Listed, HangsAt;
      var x, xp := x0, xp0;
      ghost var ex, side := ex0, side0;
      while x != node && (x == NULL || mem[x].color == Black)
        invariant Short(x, xp, ex, side) && node != NULL
        invariant s.Keys == old(s).Keys && Frame(old(mem), mem, s.Keys)
        invariant (IsRed(mem, node) ==> IsRed(old(mem), old(node))) && (x0 == old(node) ==> x == node)
        decreases if x == node || IsRed(mem, x) then 0 else 1 + |order| - (if x in s then s[x].hi - s[x].lo else 0)
      {
        SiblingExists(mem, node, s, |order|, bh, ex, xp, side);
        OkAt(mem, node, s, |order|, xp);
        SpanIn(s, order, xp);
        if x in s { SpanIn(s, order, x); OkAt(mem, node, s, |order|, x); }
        KidWithin(mem, node, s, |order|, xp, side);
        if x == mem[xp].left {
          x, xp, ex, side := EraseStep(x, xp, L, ex);
        } else {
          x, xp, ex, side := EraseStep(x, xp, R, ex);
        }
      }
      ghost var hole := if x == node then NULL else xp;
      ghost var d := if x == node then L else side;
      ghost var bh' := TopHeights(mem, bh, x);
      PaintBlack(mem, node, s, |order|, bh, x, ex, hole, d);
      if x != NULL { SetColor(x, Black); }
      bh := bh';
    }

    method Transplant(u: Ptr, v: Ptr)
      requires u in mem && (mem[u].parent != NULL ==> mem[u].parent in mem) && (v != NULL ==> v in mem)
      modifies this`mem, this`node
      ensures mem == Trans(old(mem), u, v)
      ensures node == (if old(mem)[u].parent == NULL then v else old(node))
    {
      var p := mem[u].parent;
      if p == NULL {
        node := v;
      } else if u == mem[p].left {
        mem := mem[p := mem[p].(left := v)];
      } else {
        mem := mem[p := mem[p].(right := v)];
      }
      if v != NULL { mem := mem[v := mem[v].(parent := p)]; }
    }

    /** The leftmost node below `x`. */
    method TreeMinimum(x: Ptr) returns (y: Ptr)
      requires Wired(mem, node, s, |order|) && x in s && x in mem
      ensures y in s && y in mem && y != NULL && mem[y].left == NULL && s[y].pos == s[x].lo
    {
      y := x;
      assert Ok(mem, node, s, y);
      while mem[y].left != NULL
        invariant y in s && y in mem && Ok(mem, node, s, y) && s[y].lo == s[x].lo
        decreases s[y].hi - s[y].lo
      {
        assert Ok(mem, node, s, mem[y].left);
        y := mem[y].left;
      }
    }

    /** `rb_next`: the node after `n` in the in-order sequence, or NULL. */
    method Next(n: Ptr) returns (next: Ptr)
      requires Wired(mem, node, s, |order|) && Listed(s, order) && n in s && n in mem
      ensures next == (if s[n].pos + 1 < |order| then order[s[n].pos + 1] else NULL)
    {
      assert Ok(mem, node, s, n);
      assert s[n].hi <= |order|;
      if mem[n].right != NULL {
        next := TreeMinimum(mem[n].right);
        assert order[s[next].pos] == next;
      } else {
        var c := n;
        while mem[c].parent != NULL && c == mem[mem[c].parent].right
          invariant c in s && c in mem && Ok(mem, node, s, c) && s[c].hi == s[n].pos + 1
          decreases |order| - (s[c].hi - s[c].lo)
        {
          assert Ok(mem, node, s, mem[c].parent);
          assert 0 <= s[mem[c].parent].lo && s[mem[c].parent].hi <= |order|;
          c := mem[c].parent;
        }
        next := mem[c].parent;
        if next != NULL {
          assert Ok(mem, node, s, next);
          assert order[s[next].pos] == next;
        }
      }
    }

    /** Take out a node with at most one child `x`. */
    method UnlinkOne(z: Ptr, x: Ptr) returns (xp: Ptr, ghost ex: Ptr, ghost side: Side)
      requires Shape(NULL, NULL, L) && z in s && OnlyChild(mem, z, x)
      modifies this`mem, this`node, this`s, this`bh, this`order
      ensures order == Drop(old(order), old(s)[z].pos) && s.Keys == old(s).Keys - {z}
      ensures Frame(old(mem), mem, old(s).Keys)
      ensures if old(mem)[z].color.Black? then Short(x, xp, ex, side) else Shape(NULL, NULL, L)
      ensures IsRed(mem, node) ==> IsRed(old(mem), old(node)) || (x == node && old(node) == z)
    {
      UnlinkOneDone(mem, node, s, order, bh, z, x);
      ghost var black := mem[z].color.Black?;
      xp, ex, side := mem[z].parent, x, SideOf(mem, mem[z].parent, z);
      ghost var s', bh', order' := Without(s, z), bh - {z}, Drop(order, s[z].pos);
      hide Wired, Balanced, Listed, Trans, Without;
      Transplant(z, x);
      s, bh, order := s', bh', order';
      if black && xp == NULL { NoHole(mem, bh, x, side); }
    }

    /** Hang `y` where `z` hung and give it the left child and the colour of `z`. */
    method TakeOver(z: Ptr, y: Ptr)
      requires z in mem && y in mem && y != NULL && (mem[z].parent != NULL ==> mem[z].parent in mem)
      requires mem[z].left in mem
      modifies this`mem, this`node
      ensures mem == Overtake(old(mem), z, y)
      ensures node == (if old(mem)[z].parent == NULL then y else old(node))
    {
      Transplant(z, y);
      mem := mem[y := mem[y].(left := mem[z].left)];
      mem := mem[mem[y].left := mem[mem[y].left].(parent := y)];
      mem := mem[y := mem[y].(color := mem[z].color)];
    }

    /** Put the successor `y` of `z` in its place. */
    method Replace(z: Ptr, y: Ptr) returns (xp: Ptr)
      requires Wired(mem, node, s, |order|) && Listed(s, order) && Succeeds(mem, s, z, y)
      requires mem[y].parent in mem && mem[y].parent != NULL && (mem[y].right != NULL ==> mem[y].right in mem)
      modifies this`mem, this`node
      ensures mem == Succ(old(mem), z, y) && node == RotRoot(old(node), z, y)
      ensures xp == RotRoot(old(mem)[y].parent, z, y)
    {
      assert Ok(mem, node, s, z) && Ok(mem, node, s, y);
      assert mem[z].parent == NULL ==> node == z;
      assert mem[z].parent != NULL ==> node != z;
      if mem[y].parent == z {
        SuccWritesNear(mem, node, s, |order|, z, y);
        hide Wired, Listed, Succ, Subst, Overtake;
        xp := y;
      } else {
        SuccFarCells(mem, node, s, order, z, y);
        SuccWritesFar(mem, z, y);
        hide Wired, Listed, Succ, Subst, Overtake;
        xp := mem[y].parent;
        Transplant(y, mem[y].right);
        mem := mem[y := mem[y].(right := mem[z].right)];
        mem := mem[mem[y].right := mem[mem[y].right].(parent := y)];
      }
      TakeOver(z, y);
    }

    /** The successor of a node with two children. */
    method Successor(z: Ptr) returns (y: Ptr)
      requires Wired(mem, node, s, |order|) && z in s && z in mem && mem[z].left != NULL && mem[z].right != NULL
      ensures Succeeds(mem, s, z, y)
    {
      assert Ok(mem, node, s, z);
      y := TreeMinimum(mem[z].right);
    }

    method UnlinkTwo(z: Ptr) returns (x: Ptr, xp: Ptr, black: bool, ghost ex: Ptr, ghost side: Side)
      requires Shape(NULL, NULL, L) && z in s && z in mem && mem[z].left != NULL && mem[z].right != NULL
      modifies this`mem, this`node, this`s, this`bh, this`order
      ensures order == Drop(old(order), old(s)[z].pos) && s.Keys == old(s).Keys - {z}
      ensures Frame(old(mem), mem, old(s).Keys)
      ensures if black then Short(x, xp, ex, side) else Shape(NULL, NULL, L)
      ensures node != NULL && (IsRed(mem, node) ==> IsRed(old(mem), old(node)))
    {
      hide Wired, Balanced, Listed, Succ, SubstSpans, Without, Drop, Frame;
      var y := Successor(z);
      black, x := mem[y].color == Black, mem[y].right;
      SuccWired(mem, node, s, order, bh, z, y);
      UnlinkTwoDone(mem, node, s, order, z, y);
      ex, side := x, SideOf(mem, mem[y].parent, y);
      ghost var s', bh', order' := SubstSpans(Without(s, y), z, y), (bh - {y} - {z})[y := bh[z]], Drop(order, s[z].pos);
      xp := Replace(z, y);
      s, bh, order := s', bh', order';
    }

    /** `rb_erase`: `z` leaves the tree, the in-order sequence of the rest is kept, and the colours are repaired. */
    method Erase(z: Ptr)
      requires Valid() && z in s && z in mem
      modifies this
      ensures Valid() && order == Drop(old(order), old(s)[z].pos) && s.Keys == old(s).Keys - {z}
      ensures Frame(old(mem), mem, old(s).Keys)
    {
      if leftmost == z {
        leftmost := Next(z);
      }
      EraseLeftmost(s, order, z);
      ghost var next := leftmost;
      assert leftmost == First(Drop(order, s[z].pos));
      var x, xp, black;
      ghost var ex, side;
      if mem[z].left == NULL {
        x, black := mem[z].right, mem[z].color == Black;
        xp, ex, side := UnlinkOne(z, x);
      } else if mem[z].right == NULL {
        x, black := mem[z].left, mem[z].color == Black;
        xp, ex, side := UnlinkOne(z, x);
      } else {
        x, xp, black, ex, side := UnlinkTwo(z);
      }
      hide Wired, Balanced, Listed;
      if black && node != NULL {
        EraseFixup(x, xp, ex, side);
      }
    }

    /** `rb_link_node`: hang the red leaf `z` below `p` on side `d`, or make it the root. */
    method Link(z: Ptr, p: Ptr, d: Side, ghost k: int)
      requires Shape(NULL, NULL, L) && z != NULL && z !in s && z in mem && Slot(mem, node, s, p, d, k)
      modifies this`mem, this`node, this`s, this`bh, this`order
      ensures Shape(z, NULL, L) && s.Keys == old(s).Keys + {z} && Frame(old(mem), mem, s.Keys)
      ensures z in mem && mem[z].color.Red? && 0 <= k <= |old(order)| && order == Insert(old(order), k, z)
    {
      hide Wired, Balanced, Listed, With, Frame;
      LinkDone(mem, node, s, order, bh, z, p, d, k);
      ghost var s', bh', order' := With(s, z, k, d), bh[z := 0], Insert(order, k, z);
      mem := mem[z := Cell(NULL, NULL, p, Red)];
      if p == NULL { node := z; } else { mem := mem[p := mem[p].SetKid(d, z)]; }
      s, bh, order := s', bh', order';
    }

    /** The tail of an insertion: link, repair, and update the leftmost cache when the descent never went right.  The
        new leaf comes right before or right after `p` in the in-order sequence. */
    method LinkAndFix(z: Ptr, p: Ptr, d: Side, first: bool, ghost k: int)
      requires Valid() && z != NULL && z !in s && z in mem && Slot(mem, node, s, p, d, k)
      requires first <==> k == 0
      modifies this
      ensures Valid() && s.Keys == old(s).Keys + {z} && Frame(old(mem), mem, s.Keys)
      ensures 0 <= k <= |old(order)| && order == Insert(old(order), k, z)
    {
      hide Wired, Balanced, Listed;
      Link(z, p, d, k);
      InsertFixup(z);
      if first { leftmost := z; }
    }
  }
}
