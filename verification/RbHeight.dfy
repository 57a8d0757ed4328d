/** How deep a red-black tree can be. */
module RbHeight {
  import opened Arith
  import opened RbTree

  /** A subtree of black height h has at least 2^h - 1 nodes. */
  lemma {:induction false} Weight(m: Mem, root: Ptr, s: Spans, len: int, bh: Heights, q: Ptr)
    requires Tree(m, root, s, len, bh) && Balanced(m, bh, NULL, NULL, L) && (q == NULL || q in s)
    ensures Pow2(Bh(bh, q)) <= (if q == NULL then 0 else s[q].hi - s[q].lo) + 1
    decreases if q == NULL then 0 else s[q].hi - s[q].lo
  {
    if q != NULL {
      At(m, root, s, len, bh, NULL, NULL, L, q);
      var l, r := m[q].left, m[q].right;
      if l != NULL { At(m, root, s, len, bh, NULL, NULL, L, l); }
      if r != NULL { At(m, root, s, len, bh, NULL, NULL, L, r); }
      Weight(m, root, s, len, bh, l);
      Weight(m, root, s, len, bh, r);
    }
  }

  /** At most every other node on a path is red. */
  lemma {:induction false} PathShort(m: Mem, root: Ptr, s: Spans, len: int, bh: Heights, q: Ptr, path: seq<Side>)
    requires Tree(m, root, s, len, bh) && Balanced(m, bh, NULL, NULL, L) && (q == NULL || q in s)
    requires LeafPath(m, q, path)
    ensures |path| <= 2 * Bh(bh, q) + if IsRed(m, q) then 1 else 0
    decreases |path|
  {
    if q != NULL {
      At(m, root, s, len, bh, NULL, NULL, L, q);
      PathShort(m, root, s, len, bh, m[q].Kid(path[0]), path[1..]);
    }
  }

  /** No path from the root of a tree of n nodes is longer than twice the binary logarithm of n + 1. */
  lemma Logarithmic(m: Mem, root: Ptr, s: Spans, len: int, bh: Heights, path: seq<Side>)
    requires Tree(m, root, s, len, bh) && Balanced(m, bh, NULL, NULL, L) && !IsRed(m, root) && LeafPath(m, root, path)
    ensures Pow2((|path| + 1) / 2) <= len + 1
  {
    PathShort(m, root, s, len, bh, root, path);
    Weight(m, root, s, len, bh, root);
    Pow2Mono((|path| + 1) / 2, Bh(bh, root));
  }
}
