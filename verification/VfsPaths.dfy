/** What paths mean, said component by component and in the terms of the tree: names of children, parents and links. */
module VfsPaths {
  import opened VfsLookup

  // ---------------------------------------------------------------- plain paths

  /** Child `k` of directory `d` is the first one called `x`. */
  ghost predicate FirstKid(fs: Fs, d: nat, x: string, k: nat) {
    && d < |fs.nodes| && k < |fs.nodes[d].kids| && fs.nodes[d].kids[k].name == x
    && forall j {:trigger fs.nodes[d].kids[j]} :: 0 <= j < k ==> fs.nodes[d].kids[j].name != x
  }

  ghost predicate Kid(fs: Fs, d: nat, x: string, e: nat) {
    exists k: nat :: FirstKid(fs, d, x, k) && fs.nodes[d].kids[k].node == e
  }

  ghost predicate NoKid(fs: Fs, d: nat, x: string) {
    d < |fs.nodes| && forall j {:trigger fs.nodes[d].kids[j]} :: 0 <= j < |fs.nodes[d].kids| ==>
      fs.nodes[d].kids[j].name != x
  }

  ghost predicate IsName(x: string) { x != "" && '/' !in x }

  function ParentOf(fs: Fs, d: nat): nat
    requires d < |fs.nodes|
  {
    if fs.nodes[d].parent >= 0 then fs.nodes[d].parent else d
  }

  /** Component `x` leads from directory `d` to `e`, which is no link. */
  ghost predicate Hop(fs: Fs, d: nat, x: string, e: nat) {
    && d < |fs.nodes| && e < |fs.nodes| && IsName(x) && |x| <= 255 && fs.nodes[d].kind == Dir
    && (x == "." ==> e == d) && (x == ".." ==> e == ParentOf(fs, d))
    && (x != "." && x != ".." ==> fs.nodes[d].exec >= 0 && fs.nodes[e].kind != Symlink && Kid(fs, d, x, e))
  }

  /** The components lead from `d` to `e` without a link. */
  ghost predicate Leads(fs: Fs, d: nat, names: seq<string>, e: nat)
    decreases |names|
  {
    if names == [] then d == e < |fs.nodes|
    else exists m: nat {:trigger Hop(fs, d, names[0], m)} :: Hop(fs, d, names[0], m) && Leads(fs, m, names[1..], e)
  }

  function Text(names: seq<string>): string {
    if names == [] then "" else "/" + names[0] + Text(names[1..])
  }

  lemma {:induction false} ChildIs(kids: seq<Kid>, x: string)
    ensures Child(kids, x).None? ==> forall j {:trigger kids[j]} :: 0 <= j < |kids| ==> kids[j].name != x
    ensures Child(kids, x).Some? ==> exists k: nat :: FirstOf(kids, x, k) && kids[k].node == Child(kids, x).node
  {
    if kids != [] {
      if kids[0].name == x {
        assert FirstOf(kids, x, 0);
      } else {
        ChildIs(kids[1..], x);
        if Child(kids[1..], x).Some? {
          var k: nat :| FirstOf(kids[1..], x, k) && kids[1..][k].node == Child(kids[1..], x).node;
          assert FirstOf(kids, x, k + 1);
        }
      }
    }
  }

  ghost predicate FirstOf(kids: seq<Kid>, x: string, k: nat) {
    k < |kids| && kids[k].name == x && forall j {:trigger kids[j]} :: 0 <= j < k ==> kids[j].name != x
  }

  /** There is one first child of a name. */
  lemma OneKid(fs: Fs, d: nat, x: string, k: nat)
    requires FirstKid(fs, d, x, k)
    ensures Child(fs.nodes[d].kids, x) == Some(fs.nodes[d].kids[k].node) && !NoKid(fs, d, x)
  {
    var kids := fs.nodes[d].kids;
    ChildIs(kids, x);
    if Child(kids, x).Some? {
      var i: nat :| FirstOf(kids, x, i) && kids[i].node == Child(kids, x).node;
      assert kids[i].name == x && kids[k].name == x;
    }
  }

  lemma Hops(fs: Fs, d: nat, x: string, e: nat, last: bool, follow: bool)
    requires fs.Ok() && Hop(fs, d, x, e)
    ensures Step(fs, d, x, last, follow) == Go(e)
  {
    if x != "." && x != ".." {
      var k: nat :| FirstKid(fs, d, x, k) && fs.nodes[d].kids[k].node == e;
      OneKid(fs, d, x, k);
    }
  }

  lemma FirstComp(x: string, t: string)
    requires IsName(x) && (t == "" || t[0] == '/')
    ensures ("/" + x + t)[1..] == x + t && x + t != "" && (x + t)[0] != '/'
    ensures Comp(x + t) == x && (x + t)[|x|..] == t
  {
    assert (x + t)[0] == x[0] && x[0] in x;
    CompIs(x + t, x);
  }

  /** Walking one component that is no link. */
  lemma OneComp(fs: Fs, d: nat, at: nat, x: string, t: string, e: nat, depth: nat, follow: bool)
    requires fs.Ok() && d < |fs.nodes| && IsName(x) && (t == "" || t[0] == '/') && depth <= SYMLOOP_MAX
    requires Step(fs, d, x, AllSlashes(t), follow) == Go(e) && e < |fs.nodes|
    ensures Walk(fs, d, "/" + x + t, depth, follow) == Walk(fs, e, t, depth, follow)
    ensures Lengths(fs, d, at, "/" + x + t, depth, follow) == Lengths(fs, e, at + 1 + |x|, t, depth, follow)
  {
    hide Step, Comp;
    FirstComp(x, t);
    var text := "/" + x + t;
    assert Walk(fs, d, text, depth, follow) == Walk(fs, d, x + t, depth, follow);
    assert Lengths(fs, d, at, text, depth, follow) == Lengths(fs, d, at + 1, x + t, depth, follow);
  }

  /** A plain prefix can be walked first. */
  lemma {:induction false} Along(fs: Fs, d: nat, at: nat, names: seq<string>, e: nat, t: string, depth: nat,
      follow: bool)
    requires fs.Ok() && Leads(fs, d, names, e) && d < |fs.nodes| && depth <= SYMLOOP_MAX && (t == "" || t[0] == '/')
    ensures e < |fs.nodes| && Walk(fs, d, Text(names) + t, depth, follow) == Walk(fs, e, t, depth, follow)
    ensures Lengths(fs, d, at, Text(names) + t, depth, follow) ==
      Lengths(fs, e, at + |Text(names)|, t, depth, follow)
    decreases |names|
  {
    hide Step, Comp, Walk, Lengths, Fs.Ok;
    if names == [] {
      assert Text(names) + t == t;
    } else {
      var x, more := names[0], Text(names[1..]) + t;
      var m: nat :| Hop(fs, d, x, m) && Leads(fs, m, names[1..], e);
      assert Text(names) + t == "/" + x + more;
      assert more == "" || more[0] == '/';
      Hops(fs, d, x, m, AllSlashes(more), follow);
      OneComp(fs, d, at, x, more, m, depth, follow);
      Along(fs, m, at + 1 + |x|, names[1..], e, t, depth, follow);
    }
  }

  lemma Ended(fs: Fs, d: nat, at: nat, depth: nat, follow: bool)
    requires fs.Ok() && d < |fs.nodes| && depth <= SYMLOOP_MAX
    ensures Walk(fs, d, "", depth, follow) == Ok(d) && Lengths(fs, d, at, "", depth, follow) == []
  {
  }

  lemma TextSome(names: seq<string>)
    requires names != []
    ensures Text(names) != ""
  {
  }

  /** A path without links means the node its components lead to. */
  lemma PlainPath(fs: Fs, names: seq<string>, e: nat, follow: bool)
    requires fs.Ok() && Leads(fs, fs.root, names, e) && names != [] && |Text(names)| < 4096
    ensures Meaning(fs, Text(names), follow) == Ok(e) && !Outgrows(fs, Text(names), follow)
  {
    hide Walk, Lengths, Leads, Text;
    var path := Text(names);
    assert path + "" == path;
    Along(fs, fs.root, 0, names, e, "", 0, follow);
    Ended(fs, e, |path|, 0, follow);
    TextSome(names);
    TooLongMore(0, []);
  }

  // ---------------------------------------------------------------- one component more

  /** What the last component of a path gives, in directory `n`. */
  ghost predicate Gives(fs: Fs, n: nat, x: string, follow: bool, r: Result)
    requires n < |fs.nodes|
  {
    var d := fs.nodes[n];
    && (|x| > 255 ==> r == Err(-36))
    && (|x| <= 255 && d.kind != Dir ==> r == Err(-20))
    && (|x| <= 255 && d.kind == Dir ==>
          && (x == "." ==> r == Ok(n)) && (x == ".." ==> r == Ok(ParentOf(fs, n)))
          && (x != "." && x != ".." ==>
                && (d.exec < 0 ==> r == Err(d.exec)) && (d.exec >= 0 && NoKid(fs, n, x) ==> r == Err(-2))
                && forall k: nat {:trigger FirstKid(fs, n, x, k)} :: d.exec >= 0 && FirstKid(fs, n, x, k) ==>
                     d.kids[k].node < |fs.nodes| &&
                     (fs.nodes[d.kids[k].node].kind != Symlink || !follow ==> r == Ok(d.kids[k].node))))
  }

  /** The last component is a link, and it is to be followed. */
  ghost predicate LastLink(fs: Fs, n: nat, x: string, l: nat) {
    && n < |fs.nodes| && l < |fs.nodes| && |x| <= 255 && fs.nodes[n].kind == Dir && x != "." && x != ".."
    && fs.nodes[n].exec >= 0 && Kid(fs, n, x, l) && fs.nodes[l].kind == Symlink
  }

  lemma StepGives(fs: Fs, n: nat, x: string, follow: bool)
    requires fs.Ok() && n < |fs.nodes|
    ensures var m := Step(fs, n, x, true, follow);
      && (m.Stop? ==> Gives(fs, n, x, follow, Err(m.err))) && (m.Go? ==> Gives(fs, n, x, follow, Ok(m.node)))
      && (m.Follow? ==> follow && LastLink(fs, n, x, m.link))
      && forall l: nat {:trigger LastLink(fs, n, x, l)} :: follow && LastLink(fs, n, x, l) ==> m == Follow(l)
  {
    hide Child;
    var d := fs.nodes[n];
    ChildIs(d.kids, x);
    forall k: nat | FirstKid(fs, n, x, k) ensures Child(d.kids, x) == Some(d.kids[k].node) && !NoKid(fs, n, x) {
      OneKid(fs, n, x, k);
    }
    if Child(d.kids, x).Some? {
      var k: nat :| FirstOf(d.kids, x, k) && d.kids[k].node == Child(d.kids, x).node;
      assert FirstKid(fs, n, x, k);
    }
  }

  /** Skipping a slash. */
  lemma SkipSlash(fs: Fs, n: nat, at: nat, t: string, depth: nat, follow: bool)
    requires fs.Ok() && n < |fs.nodes| && depth <= SYMLOOP_MAX
    ensures Walk(fs, n, "/" + t, depth, follow) == Walk(fs, n, t, depth, follow)
    ensures Lengths(fs, n, at, "/" + t, depth, follow) == Lengths(fs, n, at + 1, t, depth, follow)
  {
    assert ("/" + t)[1..] == t;
  }

  /** The walk at its last component. */
  lemma LastWalk(fs: Fs, n: nat, x: string, depth: nat, follow: bool)
    requires fs.Ok() && n < |fs.nodes| && IsName(x) && depth <= SYMLOOP_MAX
    ensures var m := Step(fs, n, x, true, follow);
      && (m.Stop? ==> Walk(fs, n, x, depth, follow) == Err(m.err))
      && (m.Go? ==> Walk(fs, n, x, depth, follow) == Ok(m.node))
      && (m.Follow? ==> Walk(fs, n, x, depth, follow) == Followed(fs, n, m.link, depth))
  {
    hide Step, Comp;
    FirstComp(x, "");
    assert x + "" == x && x[|x|..] == "" && AllSlashes("");
    var m := Step(fs, n, x, true, follow);
    if m.Go? { Ended(fs, m.node, 0, depth, follow); }
    if m.Follow? {
      StepGives(fs, n, x, follow);
      var t := fs.nodes[m.link].target;
      assert t + "" == t;
    }
  }

  lemma LastLengths(fs: Fs, n: nat, at: nat, x: string, depth: nat, follow: bool)
    requires fs.Ok() && n < |fs.nodes| && IsName(x) && depth <= SYMLOOP_MAX
    requires !Step(fs, n, x, true, follow).Follow?
    ensures Lengths(fs, n, at, x, depth, follow) == []
  {
    hide Step, Comp;
    FirstComp(x, "");
    assert x + "" == x && x[|x|..] == "" && AllSlashes("");
    var m := Step(fs, n, x, true, follow);
    if m.Go? { Ended(fs, m.node, at + |x|, depth, follow); }
  }

  /** Link `l`, found in directory `n` after `depth` others, with nothing behind it. */
  function Followed(fs: Fs, n: nat, l: nat, depth: nat): Result
    requires fs.Ok() && n < |fs.nodes| && l < |fs.nodes| && depth <= SYMLOOP_MAX
  {
    var t := fs.nodes[l].target;
    if t == "" then Err(-2) else if |t| + 1 >= 4096 then Err(-36) else if depth == SYMLOOP_MAX then Err(-40)
    else Walk(fs, if t[0] == '/' then fs.root else n, t, depth + 1, true)
  }

  /** The lookup itself: behind a plain path to directory `n`, the component `x` gives what the directory has under
      that name, and a link that is not followed is found like anything else. */
  method Enter(fs: Fs, names: seq<string>, ghost n: nat, x: string, follow: bool) returns (out: Outcome)
    requires fs.Ok() && Leads(fs, fs.root, names, n) && IsName(x) && '\0' !in Text(names) + "/" + x
    requires |Text(names)| + 1 + |x| < 4096 && n < |fs.nodes|
    ensures !(follow && exists l: nat :: LastLink(fs, n, x, l)) ==> out.Done? && Gives(fs, n, x, follow, out.res)
    ensures forall l: nat :: follow && LastLink(fs, n, x, l) ==> out in {Overrun, Done(Followed(fs, n, l, 0))}
  {
    hide Walk, Lengths, Step, Gives, Followed, LastLink;
    var path := Text(names) + "/" + x;
    assert path == Text(names) + ("/" + x);
    Along(fs, fs.root, 0, names, n, "/" + x, 0, follow);
    SkipSlash(fs, n, |Text(names)|, x, 0, follow);
    LastWalk(fs, n, x, 0, follow);
    if !Step(fs, n, x, true, follow).Follow? { LastLengths(fs, n, |Text(names)| + 1, x, 0, follow); }
    StepGives(fs, n, x, follow);
    out := Lookup(fs, path, follow);
    assert out in {Overrun, Done(Meaning(fs, path, follow))} by { OutcomeIsMeaning(fs, path, follow); }
  }

  // ---------------------------------------------------------------- links

  /** Having followed one link less changes nothing, unless there were too many. */
  lemma {:induction false} OneLess(fs: Fs, cur: nat, text: string, depth: nat, follow: bool)
    requires fs.Ok() && cur < |fs.nodes| && depth < SYMLOOP_MAX
    ensures Walk(fs, cur, text, depth + 1, follow) in {Err(-40), Walk(fs, cur, text, depth, follow)}
    decreases SYMLOOP_MAX - depth, |text|
  {
    hide Step, Comp, Glue;
    if text == "" {
    } else if text[0] == '/' {
      OneLess(fs, cur, text[1..], depth, follow);
    } else {
      var name := Comp(text);
      var rest := text[|name|..];
      CompSize(text);
      match Step(fs, cur, name, AllSlashes(rest), follow)
      case Stop(_) =>
      case Go(m) => OneLess(fs, m, rest, depth, follow);
      case Follow(l) =>
        var t := fs.nodes[l].target;
        if t != "" && |t| + 1 + |rest| < PATH_MAX && depth + 1 < SYMLOOP_MAX {
          OneLess(fs, if t[0] == '/' then fs.root else cur, Glue(t, rest), depth + 1, follow);
        }
    }
  }

  /** The text that takes the place of a link: the target, a slash if one is needed, and what was behind the link. */
  function Instead(t: string, rest: string): string
    requires t != ""
  {
    if rest == "" || t[|t| - 1] == '/' then t + rest else t + "/" + rest
  }

  /** The walk at a link that is followed, as the last component or on the way. */
  lemma LinkWalk(fs: Fs, n: nat, x: string, l: nat, rest: string, follow: bool)
    requires fs.Ok() && LastLink(fs, n, x, l) && IsName(x) && (rest == "" || rest[0] == '/')
    requires follow || !AllSlashes(rest)
    ensures var t := fs.nodes[l].target; var r := Walk(fs, n, x + rest, 0, follow);
      && (t == "" ==> r == Err(-2)) && (t != "" && |t| + 1 + |rest| >= 4096 ==> r == Err(-36))
      && (t != "" && |t| + 1 + |rest| < 4096 ==>
            r in {Err(-40), Walk(fs, if t[0] == '/' then fs.root else n, Instead(t, rest), 0, follow)})
  {
    hide Step, Comp;
    FirstComp(x, rest);
    LinkStep(fs, n, x, l, AllSlashes(rest), follow);
    var t := fs.nodes[l].target;
    if t != "" && |t| + 1 + |rest| < 4096 {
      assert Glue(t, rest) == Instead(t, rest);
      OneLess(fs, if t[0] == '/' then fs.root else n, Instead(t, rest), 0, follow);
    }
  }

  lemma LinkStep(fs: Fs, n: nat, x: string, l: nat, last: bool, follow: bool)
    requires fs.Ok() && LastLink(fs, n, x, l) && (follow || !last)
    ensures Step(fs, n, x, last, follow) == Follow(l)
  {
    var k: nat :| FirstKid(fs, n, x, k) && fs.nodes[n].kids[k].node == l;
    OneKid(fs, n, x, k);
  }

  /** A link means its target: an absolute one replaces everything before it, a relative one the link alone.  Only too
      many links, or texts that are too long, make a difference. */
  lemma LinkPath(fs: Fs, names: seq<string>, n: nat, x: string, l: nat, rest: string, follow: bool)
    requires fs.Ok() && Leads(fs, fs.root, names, n) && LastLink(fs, n, x, l) && IsName(x)
    requires (rest == "" || rest[0] == '/') && (follow || !AllSlashes(rest)) && |Text(names)| + 1 + |x| + |rest| < 4096
    ensures var t := fs.nodes[l].target; var r := Meaning(fs, Text(names) + "/" + x + rest, follow);
      && (t == "" ==> r == Err(-2)) && (t != "" && |t| + 1 + |rest| >= 4096 ==> r == Err(-36))
      && (t != "" && |t| + 1 + |rest| < 4096 && t[0] == '/' ==>
            r in {Err(-40), Meaning(fs, Instead(t, rest), follow)})
      && (t != "" && |t| + 1 + |rest| < 4096 && t[0] != '/' && |Text(names)| + 1 + |Instead(t, rest)| < 4096 ==>
            r in {Err(-40), Meaning(fs, Text(names) + "/" + Instead(t, rest), follow)})
  {
    hide Walk, Lengths, Step, Comp;
    var t, at := fs.nodes[l].target, |Text(names)|;
    assert Text(names) + "/" + x + rest == Text(names) + ("/" + (x + rest));
    Along(fs, fs.root, 0, names, n, "/" + (x + rest), 0, follow);
    SkipSlash(fs, n, at, x + rest, 0, follow);
    LinkWalk(fs, n, x, l, rest, follow);
    if t != "" && |t| + 1 + |rest| < 4096 && t[0] != '/' {
      var text := Instead(t, rest);
      assert Text(names) + "/" + text == Text(names) + ("/" + text);
      Along(fs, fs.root, 0, names, n, "/" + text, 0, follow);
      SkipSlash(fs, n, at, text, 0, follow);
    }
  }

  // ---------------------------------------------------------------- how many links

  function Nth(i: nat): (x: string)
    ensures |x| == i + 1 && '/' !in x && x[0] == 'a'
  {
    seq(i + 1, _ => 'a')
  }

  /** A root with `k` links, each to the next, and a file at the end. */
  function ChainNode(k: nat, i: nat): Node {
    if i == 0 then Node(Dir, -1, seq(k + 1, j requires 0 <= j < k + 1 => VfsLookup.Kid(Nth(j), j + 1)), "", 0)
    else if i <= k then Node(Symlink, 0, [], Nth(i), 0)
    else Node(Other, 0, [], "", 0)
  }

  function Chain(k: nat): Fs { Fs(0, seq(k + 2, i requires 0 <= i < k + 2 => ChainNode(k, i))) }

  lemma ChainKid(k: nat, i: nat)
    requires i <= k
    ensures Chain(k).Ok() && FirstKid(Chain(k), 0, Nth(i), i) && Chain(k).nodes[0].kids[i].node == i + 1
  {
    var fs := Chain(k);
    forall n | 0 <= n < |fs.nodes| ensures fs.nodes[n].parent < |fs.nodes| && '\0' !in fs.nodes[n].target { }
    forall j | 0 <= j < i ensures fs.nodes[0].kids[j].name != Nth(i) { assert |Nth(j)| != |Nth(i)|; }
  }

  lemma {:induction false} ChainWalk(k: nat, i: nat, depth: nat)
    requires i <= k < 255 && depth <= SYMLOOP_MAX
    ensures Chain(k).Ok()
    ensures Walk(Chain(k), 0, Nth(i), depth, true) == if depth + (k - i) <= SYMLOOP_MAX then Ok(k + 1) else Err(-40)
    decreases k - i
  {
    hide Walk, Step, Comp, Chain;
    ChainKid(k, i);
    var fs := Chain(k);
    ChainNodes(k, i);
    LastWalk(fs, 0, Nth(i), depth, true);
    if i == k {
      assert Hop(fs, 0, Nth(i), k + 1);
      Hops(fs, 0, Nth(i), k + 1, true, true);
    } else {
      assert LastLink(fs, 0, Nth(i), i + 1);
      LinkStep(fs, 0, Nth(i), i + 1, true, true);
      if depth < SYMLOOP_MAX { ChainWalk(k, i + 1, depth + 1); }
    }
  }

  lemma ChainNodes(k: nat, i: nat)
    requires i <= k
    ensures var fs := Chain(k);
      && |fs.nodes| == k + 2 && fs.nodes[0].kind == Dir && fs.nodes[0].exec == 0 && fs.nodes[k + 1].kind == Other
      && (i < k ==> fs.nodes[i + 1].kind == Symlink && fs.nodes[i + 1].target == Nth(i + 1))
      && Nth(i) != "." && Nth(i) != ".." && fs.root == 0
  {
    assert Nth(i)[0] != '.';
  }

  /** Forty links are followed and not one more. */
  lemma FortyLinks(k: nat)
    requires k < 255
    ensures Chain(k).Ok() && Meaning(Chain(k), Nth(0), true) == if k <= 40 then Ok(k + 1) else Err(-40)
  {
    hide Walk;
    ChainWalk(k, 0, 0);
  }
}
