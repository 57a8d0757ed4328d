/** Path resolution: one text buffer, edited in place and walked again from the root for every symbolic link. */
module VfsLookup {
  import opened Arith

  const SYMLOOP_MAX := 40
  const NAME_MAX := 255
  const PATH_MAX := 4096
  const ENOENT := -2
  const ENOTDIR := -20
  const ENAMETOOLONG := -36
  const ELOOP := -40

  // ---------------------------------------------------------------- the tree

  datatype Kind = Dir | Symlink | Other
  datatype Kid = Kid(name: string, node: nat)

  /** `exec` is the caller's search permission on a directory: 0 or a negative error. */
  datatype Node = Node(kind: Kind, parent: int, kids: seq<Kid>, target: string, exec: int)

  datatype Fs = Fs(root: nat, nodes: seq<Node>) {
    predicate Ok() {
      && root < |nodes|
      && forall n {:trigger nodes[n]} :: 0 <= n < |nodes| ==>
           && nodes[n].parent < |nodes| && '\0' !in nodes[n].target
           && forall k {:trigger nodes[n].kids[k]} :: 0 <= k < |nodes[n].kids| ==> nodes[n].kids[k].node < |nodes|
    }
  }

  datatype Option = None | Some(node: nat)

  function Child(kids: seq<Kid>, name: string): Option {
    if kids == [] then None else if kids[0].name == name then Some(kids[0].node) else Child(kids[1..], name)
  }

  lemma {:induction false} ChildIn(kids: seq<Kid>, name: string)
    ensures Child(kids, name).Some? ==> exists k :: 0 <= k < |kids| && kids[k].node == Child(kids, name).node
  {
    if kids != [] && kids[0].name != name {
      ChildIn(kids[1..], name);
      if Child(kids[1..], name).Some? {
        var k :| 0 <= k < |kids[1..]| && kids[1..][k].node == Child(kids[1..], name).node;
        assert kids[k + 1].node == Child(kids, name).node;
      }
    }
  }

  // ---------------------------------------------------------------- one component

  datatype Move = Go(node: nat) | Stop(err: int) | Follow(link: nat)

  /** What one component does in directory `cur`; `last` says that nothing but slashes follows. */
  function Step(fs: Fs, cur: nat, name: string, last: bool, follow: bool): (r: Move)
    requires fs.Ok() && cur < |fs.nodes|
    ensures r.Go? ==> r.node < |fs.nodes|
    ensures r.Follow? ==> r.link < |fs.nodes| && fs.nodes[r.link].kind == Symlink
  {
    var d := fs.nodes[cur];
    if |name| > NAME_MAX then Stop(ENAMETOOLONG)
    else if d.kind != Dir then Stop(ENOTDIR)
    else if name == "." then Go(cur)
    else if name == ".." then Go(if d.parent >= 0 then d.parent else cur)
    else if d.exec < 0 then Stop(d.exec)
    else
      ChildIn(d.kids, name);
      match Child(d.kids, name)
      case None => Stop(ENOENT)
      case Some(n) => if fs.nodes[n].kind == Symlink && (follow || !last) then Follow(n) else Go(n)
  }

  /** The leading component of a text. */
  function Comp(s: string): (c: string)
    ensures |c| <= |s| && c == s[..|c|] && '/' !in c && (|c| < |s| ==> s[|c|] == '/')
    ensures s != "" && s[0] != '/' ==> c != ""
  {
    if s == "" || s[0] == '/' then "" else
      var c := Comp(s[1..]);
      assert [s[0]] + c == s[..|c| + 1];
      [s[0]] + c
  }

  predicate AllSlashes(s: string) { forall k :: 0 <= k < |s| ==> s[k] == '/' }

  /** Target and remaining text, with a slash between them when needed. */
  function Glue(target: string, rest: string): string
    requires target != ""
  {
    if rest != "" && target[|target| - 1] != '/' then target + "/" + rest else target + rest
  }

  // ---------------------------------------------------------------- the meaning of a path

  datatype Result = Ok(node: nat) | Err(err: int)

  /** Walking `text` from directory `cur`: a link continues from the directory that holds it, or from the root if its
      target is absolute, with the target in front of what is left.  `depth` links have been followed. */
  function Walk(fs: Fs, cur: nat, text: string, depth: nat, follow: bool): Result
    requires fs.Ok() && cur < |fs.nodes| && depth <= SYMLOOP_MAX
    decreases SYMLOOP_MAX - depth, |text|
  {
    if text == "" then Ok(cur)
    else if text[0] == '/' then Walk(fs, cur, text[1..], depth, follow)
    else
      var name := Comp(text);
      var rest := text[|name|..];
      match Step(fs, cur, name, AllSlashes(rest), follow)
      case Stop(e) => Err(e)
      case Go(n) => Walk(fs, n, rest, depth, follow)
      case Follow(l) =>
        var target := fs.nodes[l].target;
        if target == "" then Err(ENOENT)
        else if |target| + 1 + |rest| >= PATH_MAX then Err(ENAMETOOLONG)
        else if depth == SYMLOOP_MAX then Err(ELOOP)
        else Walk(fs, if target[0] == '/' then fs.root else cur, Glue(target, rest), depth + 1, follow)
  }

  /** What a lookup means. */
  function Meaning(fs: Fs, path: string, follow: bool): Result
    requires fs.Ok()
  {
    if |path| >= PATH_MAX then Err(ENAMETOOLONG) else if path == "" then Err(ENOENT)
      else Walk(fs, fs.root, path, 0, follow)
  }

  /** The same walk with the position `at` of `text` in the buffer.  The length check looks at the target and the
      remaining text only; the walk overruns when they do not fit behind the prefix of a relative link. */
  datatype Outcome = Done(res: Result) | Overrun

  function WalkAt(fs: Fs, cur: nat, at: nat, text: string, depth: nat, follow: bool): Outcome
    requires fs.Ok() && cur < |fs.nodes| && depth <= SYMLOOP_MAX
    decreases SYMLOOP_MAX - depth, |text|
  {
    if text == "" then Done(Ok(cur))
    else if text[0] == '/' then WalkAt(fs, cur, at + 1, text[1..], depth, follow)
    else
      var name := Comp(text);
      var rest := text[|name|..];
      match Step(fs, cur, name, AllSlashes(rest), follow)
      case Stop(e) => Done(Err(e))
      case Go(n) => WalkAt(fs, n, at + |name|, rest, depth, follow)
      case Follow(l) =>
        var target := fs.nodes[l].target;
        if target == "" then Done(Err(ENOENT))
        else if |target| + 1 + |rest| >= PATH_MAX then Done(Err(ENAMETOOLONG))
        else if target[0] != '/' && at + |Glue(target, rest)| >= PATH_MAX then Overrun
        else if depth == SYMLOOP_MAX then Done(Err(ELOOP))
        else if target[0] == '/' then WalkAt(fs, fs.root, 0, Glue(target, rest), depth + 1, follow)
        else WalkAt(fs, cur, at, Glue(target, rest), depth + 1, follow)
  }

  function Outcomes(fs: Fs, path: string, follow: bool): Outcome
    requires fs.Ok()
  {
    if |path| >= PATH_MAX then Done(Err(ENAMETOOLONG)) else if path == "" then Done(Err(ENOENT))
      else WalkAt(fs, fs.root, 0, path, 0, follow)
  }

  /** The walk at a component, spelled out. */
  lemma WalkComp(fs: Fs, cur: nat, at: nat, t: string, depth: nat, follow: bool)
    requires fs.Ok() && cur < |fs.nodes| && depth <= SYMLOOP_MAX && t != "" && t[0] != '/'
    ensures var name := Comp(t);
      var rest := t[|name|..];
      var m := Step(fs, cur, name, AllSlashes(rest), follow);
      && (m.Stop? ==> WalkAt(fs, cur, at, t, depth, follow) == Done(Err(m.err)))
      && (m.Go? ==> WalkAt(fs, cur, at, t, depth, follow) == WalkAt(fs, m.node, at + |name|, rest, depth, follow))
      && (m.Follow? ==> WalkAt(fs, cur, at, t, depth, follow) == FollowAt(fs, cur, at, m.link, rest, depth, follow))
  {
    hide Comp, Glue;
  }

  /** Following link `l` of directory `cur`, found at position `at`, with `rest` left. */
  function FollowAt(fs: Fs, cur: nat, at: nat, l: nat, rest: string, depth: nat, follow: bool): Outcome
    requires fs.Ok() && cur < |fs.nodes| && l < |fs.nodes| && depth <= SYMLOOP_MAX
  {
    var target := fs.nodes[l].target;
    if target == "" then Done(Err(ENOENT))
    else if |target| + 1 + |rest| >= PATH_MAX then Done(Err(ENAMETOOLONG))
    else if target[0] != '/' && at + |Glue(target, rest)| >= PATH_MAX then Overrun
    else if depth == SYMLOOP_MAX then Done(Err(ELOOP))
    else if target[0] == '/' then WalkAt(fs, fs.root, 0, Glue(target, rest), depth + 1, follow)
    else WalkAt(fs, cur, at, Glue(target, rest), depth + 1, follow)
  }

  lemma WalkPlain(fs: Fs, cur: nat, at: nat, t: string, depth: nat, follow: bool)
    requires fs.Ok() && cur < |fs.nodes| && depth <= SYMLOOP_MAX
    ensures t == "" ==> WalkAt(fs, cur, at, t, depth, follow) == Done(Ok(cur))
    ensures t != "" && t[0] == '/' ==>
      WalkAt(fs, cur, at, t, depth, follow) == WalkAt(fs, cur, at + 1, t[1..], depth, follow)
  {
  }

  /** Unless it overruns, the buffer walk has the meaning of the path. */
  lemma {:induction false} WalkAgrees(fs: Fs, cur: nat, at: nat, text: string, depth: nat, follow: bool)
    requires fs.Ok() && cur < |fs.nodes| && depth <= SYMLOOP_MAX
    ensures WalkAt(fs, cur, at, text, depth, follow) in {Overrun, Done(Walk(fs, cur, text, depth, follow))}
    decreases SYMLOOP_MAX - depth, |text|
  {
    hide WalkAt, Step, Comp, Glue;
    WalkPlain(fs, cur, at, text, depth, follow);
    if text == "" {
    } else if text[0] == '/' {
      WalkAgrees(fs, cur, at + 1, text[1..], depth, follow);
    } else {
      var name := Comp(text);
      var rest := text[|name|..];
      var m := Step(fs, cur, name, AllSlashes(rest), follow);
      WalkComp(fs, cur, at, text, depth, follow);
      CompSize(text);
      if m.Go? {
        WalkAgrees(fs, m.node, at + |name|, rest, depth, follow);
      } else if m.Follow? && fs.nodes[m.link].target != "" && depth < SYMLOOP_MAX {
        var target := fs.nodes[m.link].target;
        WalkAgrees(fs, if target[0] == '/' then fs.root else cur, if target[0] == '/' then 0
          else at, Glue(target, rest), depth + 1, follow);
      }
    }
  }

  lemma OutcomeIsMeaning(fs: Fs, path: string, follow: bool)
    requires fs.Ok()
    ensures Outcomes(fs, path, follow) in {Overrun, Done(Meaning(fs, path, follow))}
  {
    if 0 < |path| < PATH_MAX { WalkAgrees(fs, fs.root, 0, path, 0, follow); }
  }

  // ---------------------------------------------------------------- when the buffer is overrun

  /** The lengths of the new texts that a walk puts together for the links it follows, prefix included. */
  function Lengths(fs: Fs, cur: nat, at: nat, text: string, depth: nat, follow: bool): seq<nat>
    requires fs.Ok() && cur < |fs.nodes| && depth <= SYMLOOP_MAX
    decreases SYMLOOP_MAX - depth, |text|
  {
    if text == "" then []
    else if text[0] == '/' then Lengths(fs, cur, at + 1, text[1..], depth, follow)
    else
      var name := Comp(text);
      var rest := text[|name|..];
      match Step(fs, cur, name, AllSlashes(rest), follow)
      case Stop(e) => []
      case Go(n) => Lengths(fs, n, at + |name|, rest, depth, follow)
      case Follow(l) =>
        var target := fs.nodes[l].target;
        if target == "" || |target| + 1 + |rest| >= PATH_MAX then []
        else
          var dir, prefix := if target[0] == '/' then fs.root else cur, if target[0] == '/' then 0 else at;
          [prefix + |Glue(target, rest)|] +
          if depth == SYMLOOP_MAX then [] else Lengths(fs, dir, prefix, Glue(target, rest), depth + 1, follow)
  }

  ghost predicate TooLong(ns: seq<nat>) { exists k :: 0 <= k < |ns| && ns[k] >= PATH_MAX }

  lemma TooLongMore(n: nat, ns: seq<nat>)
    ensures TooLong([n] + ns) <==> n >= PATH_MAX || TooLong(ns)
    ensures !TooLong([])
  {
    if TooLong(ns) { var k :| 0 <= k < |ns| && ns[k] >= PATH_MAX; assert ([n] + ns)[k + 1] == ns[k]; }
    assert ([n] + ns)[0] == n;
    if k :| 0 <= k < |[n] + ns| && ([n] + ns)[k] >= PATH_MAX && k > 0 { assert ns[k - 1] == ([n] + ns)[k]; }
  }

  /** The walk overruns the buffer if and only if one of the new texts does not fit. */
  lemma {:induction false} OverrunIff(fs: Fs, cur: nat, at: nat, text: string, depth: nat, follow: bool)
    requires fs.Ok() && cur < |fs.nodes| && depth <= SYMLOOP_MAX
    ensures WalkAt(fs, cur, at, text, depth, follow) == Overrun <==> TooLong(Lengths(fs, cur, at, text, depth, follow))
    decreases SYMLOOP_MAX - depth, |text|
  {
    hide WalkAt, Step, Comp, Glue, TooLong;
    WalkPlain(fs, cur, at, text, depth, follow);
    TooLongMore(0, []);
    if text == "" {
    } else if text[0] == '/' {
      OverrunIff(fs, cur, at + 1, text[1..], depth, follow);
    } else {
      var name := Comp(text);
      var rest := text[|name|..];
      var m := Step(fs, cur, name, AllSlashes(rest), follow);
      WalkComp(fs, cur, at, text, depth, follow);
      CompSize(text);
      if m.Go? {
        OverrunIff(fs, m.node, at + |name|, rest, depth, follow);
      } else if m.Follow? && fs.nodes[m.link].target != "" {
        OverrunLink(fs, m.link, rest);
        if depth < SYMLOOP_MAX {
          var target := fs.nodes[m.link].target;
          var dir, prefix := if target[0] == '/' then fs.root else cur, if target[0] == '/' then 0 else at;
          OverrunIff(fs, dir, prefix, Glue(target, rest), depth + 1, follow);
          TooLongMore(prefix + |Glue(target, rest)|, Lengths(fs, dir, prefix, Glue(target, rest), depth + 1, follow));
        } else {
          TooLongMore((if fs.nodes[m.link].target[0] == '/' then 0 else at) + |Glue(fs.nodes[m.link].target, rest)|,
            []);
        }
      }
    }
  }

  lemma OverrunLink(fs: Fs, l: nat, rest: string)
    requires fs.Ok() && l < |fs.nodes| && fs.nodes[l].target != ""
    ensures var target := fs.nodes[l].target;
      target[0] == '/' && |target| + 1 + |rest| < PATH_MAX ==> |Glue(target, rest)| < PATH_MAX
  {
    GlueSize(fs.nodes[l].target, rest);
  }

  /** Some text a lookup of `path` puts together does not fit the buffer. */
  ghost predicate Outgrows(fs: Fs, path: string, follow: bool)
    requires fs.Ok()
  {
    0 < |path| < PATH_MAX && TooLong(Lengths(fs, fs.root, 0, path, 0, follow))
  }

  /** A lookup has the meaning of the path if and only if every text it puts together fits the buffer. */
  lemma MeaningIff(fs: Fs, path: string, follow: bool)
    requires fs.Ok()
    ensures Outcomes(fs, path, follow) == Done(Meaning(fs, path, follow)) <==> !Outgrows(fs, path, follow)
  {
    hide WalkAt, Walk, Lengths, TooLong;
    if 0 < |path| < PATH_MAX {
      WalkAgrees(fs, fs.root, 0, path, 0, follow);
      OverrunIff(fs, fs.root, 0, path, 0, follow);
    }
  }

  /** No link target is longer than `most`. */
  ghost predicate Targets(fs: Fs, most: nat) {
    forall n {:trigger fs.nodes[n]} :: 0 <= n < |fs.nodes| ==> |fs.nodes[n].target| <= most
  }

  /** A walk cannot overrun when the text has room for as many targets as links may still be followed. */
  lemma {:induction false} RoomEnough(fs: Fs, cur: nat, at: nat, text: string, depth: nat, follow: bool, most: nat)
    requires fs.Ok() && cur < |fs.nodes| && depth <= SYMLOOP_MAX && Targets(fs, most)
    requires at + |text| + Times(SYMLOOP_MAX + 1 - depth, most) < PATH_MAX
    ensures WalkAt(fs, cur, at, text, depth, follow) != Overrun
    decreases SYMLOOP_MAX - depth, |text|
  {
    hide Times, WalkAt, Step, Comp;
    TimesMore(SYMLOOP_MAX - depth, most);
    WalkPlain(fs, cur, at, text, depth, follow);
    if text == "" {
    } else if text[0] == '/' {
      RoomEnough(fs, cur, at + 1, text[1..], depth, follow, most);
    } else {
      var name := Comp(text);
      var rest := text[|name|..];
      var m := Step(fs, cur, name, AllSlashes(rest), follow);
      WalkComp(fs, cur, at, text, depth, follow);
      CompSize(text);
      if m.Go? {
        RoomEnough(fs, m.node, at + |name|, rest, depth, follow, most);
      } else if m.Follow? && fs.nodes[m.link].target != "" && depth == SYMLOOP_MAX {
        GlueSize(fs.nodes[m.link].target, rest);
      } else if m.Follow? && fs.nodes[m.link].target != "" {
        var target := fs.nodes[m.link].target;
        GlueSize(target, rest);
        RoomEnough(fs, if target[0] == '/' then fs.root else cur, if target[0] == '/' then 0
          else at, Glue(target, rest), depth + 1, follow, most);
      }
    }
  }

  lemma CompSize(s: string)
    requires s != "" && s[0] != '/'
    ensures 0 < |Comp(s)| <= |s|
  {
  }

  // ---------------------------------------------------------------- walked prefixes

  /** Walking `s` leads from d to e through directories only: no link, no error. */
  ghost predicate Reached(fs: Fs, d: nat, s: string, e: nat, follow: bool)
    requires fs.Ok() && d < |fs.nodes|
    decreases |s|
  {
    if s == "" then d == e
    else if s[0] == '/' then Reached(fs, d, s[1..], e, follow)
    else
      var m := Step(fs, d, Comp(s), false, follow);
      m.Go? && Reached(fs, m.node, s[|Comp(s)|..], e, follow)
  }

  predicate Closed(s: string) { s == "" || s[|s| - 1] == '/' }

  /** A component that ends inside s is the same in any longer text. */
  lemma {:induction false} CompStays(s: string, t: string)
    requires |Comp(s)| < |s| || t == "" || t[0] == '/'
    ensures Comp(s + t) == Comp(s)
  {
    if s != "" && s[0] != '/' {
      assert (s + t)[1..] == s[1..] + t;
      CompStays(s[1..], t);
    } else if s == "" {
      assert s + t == t;
    }
  }

  lemma ClosedComp(s: string)
    requires Closed(s) && s != ""
    ensures |Comp(s)| < |s| && Closed(s[|Comp(s)|..]) && Closed(s[1..])
  {
    var c := Comp(s);
    assert s[|s| - 1] !in c;
  }

  /** Going on after a walked prefix is going on from where it leads: re-walking it from the start changes nothing. */
  lemma {:induction false} PrefixWalk(fs: Fs, d: nat, at: nat, s: string, e: nat, t: string, depth: nat, follow: bool)
    requires fs.Ok() && d < |fs.nodes| && e < |fs.nodes| && depth <= SYMLOOP_MAX
    requires Reached(fs, d, s, e, follow) && Closed(s) && t != "" && t[0] != '/'
    ensures WalkAt(fs, d, at, s + t, depth, follow) == WalkAt(fs, e, at + |s|, t, depth, follow)
    decreases |s|
  {
    hide WalkAt, Step, Comp;
    WalkPlain(fs, d, at, s + t, depth, follow);
    if s == "" {
      assert s + t == t;
    } else if s[0] == '/' {
      ClosedComp(s);
      assert (s + t)[1..] == s[1..] + t;
      PrefixWalk(fs, d, at + 1, s[1..], e, t, depth, follow);
    } else {
      ClosedComp(s);
      CompStays(s, t);
      var c := Comp(s);
      var rest := s[|c|..];
      assert (s + t)[|c|..] == rest + t;
      assert !AllSlashes(rest + t) by { assert (rest + t)[|rest|] != '/'; }
      CompSize(s);
      WalkComp(fs, d, at, s + t, depth, follow);
      var m := Step(fs, d, c, false, follow);
      PrefixWalk(fs, m.node, at + |c|, rest, e, t, depth, follow);
    }
  }

  /** A walked prefix stays walked when a slash or one more component is appended. */
  lemma {:induction false} ReachedSlash(fs: Fs, d: nat, s: string, e: nat, follow: bool)
    requires fs.Ok() && d < |fs.nodes| && Reached(fs, d, s, e, follow)
    ensures Reached(fs, d, s + "/", e, follow)
    decreases |s|
  {
    if s == "" {
      assert s + "/" == "/" && "/"[1..] == "";
    } else if s[0] == '/' {
      assert (s + "/")[1..] == s[1..] + "/";
      ReachedSlash(fs, d, s[1..], e, follow);
    } else {
      CompStays(s, "/");
      var c := Comp(s);
      assert (s + "/")[|c|..] == s[|c|..] + "/";
      ReachedSlash(fs, Step(fs, d, c, false, follow).node, s[|c|..], e, follow);
    }
  }

  lemma {:induction false} ReachedComp(fs: Fs, d: nat, s: string, e: nat, c: string, n: nat, follow: bool)
    requires fs.Ok() && d < |fs.nodes| && e < |fs.nodes| && Reached(fs, d, s, e, follow) && Closed(s)
    requires c != "" && '/' !in c && Step(fs, e, c, false, follow) == Go(n)
    ensures Reached(fs, d, s + c, n, follow)
    decreases |s|
  {
    if s == "" {
      assert s + c == c;
      CompWhole(c);
      assert c[|c|..] == "";
    } else if s[0] == '/' {
      ClosedComp(s);
      assert (s + c)[1..] == s[1..] + c;
      ReachedComp(fs, d, s[1..], e, c, n, follow);
    } else {
      ClosedComp(s);
      CompStays(s, c);
      var b := Comp(s);
      assert (s + c)[|b|..] == s[|b|..] + c;
      ReachedComp(fs, Step(fs, d, b, false, follow).node, s[|b|..], e, c, n, follow);
    }
  }

  lemma CompWhole(c: string)
    requires '/' !in c
    ensures Comp(c) == c
  {
  }

  // ---------------------------------------------------------------- the buffer

  /** The buffer holds a text of length n, ended by a NUL. */
  ghost predicate Holds(buf: array<char>, n: nat)
    reads buf
  {
    n < buf.Length == PATH_MAX && buf[n] == '\0' && forall k :: 0 <= k < n ==> buf[k] != '\0'
  }

  /** `src` written over s at `at`. */
  function Put(s: string, at: nat, src: string): (r: string)
    requires at + |src| <= |s|
    ensures |r| == |s|
  {
    s[..at] + src + s[at + |src|..]
  }

  lemma PutAt(s: string, at: nat, src: string, k: nat)
    requires at + |src| <= |s| && k < |s|
    ensures Put(s, at, src)[k] == if at <= k < at + |src| then src[k - at] else s[k]
  {
  }

  lemma IsPut(now: string, s: string, at: nat, src: string)
    requires at + |src| <= |s| == |now|
    requires forall k {:trigger now[k]} :: 0 <= k < |s| ==> now[k] == if at <= k < at + |src| then src[k - at] else s[k]
    ensures now == Put(s, at, src)
  {
    forall k: nat | k < |s| ensures now[k] == Put(s, at, src)[k] { PutAt(s, at, src, k); }
  }

  /** Copy `len` characters upwards, from the back, so that an overlap does no harm. */
  method MoveUp(buf: array<char>, from: nat, to: nat, len: nat)
    requires from <= to && to + len <= buf.Length
    modifies buf
    ensures buf[..] == Put(old(buf[..]), to, old(buf[..])[from..from + len])
  {
    hide Put;
    ghost var was := buf[..];
    var i := len;
    while i > 0
      invariant 0 <= i <= len
      invariant forall k {:trigger buf[k]} :: 0 <= k < buf.Length ==>
        buf[k] == if to + i <= k < to + len then was[k - to + from] else was[k]
    {
      i := i - 1;
      buf[to + i] := buf[from + i];
    }
    IsPut(buf[..], was, to, was[from..from + len]);
  }

  /** Copy `len` characters downwards, from the front. */
  method MoveDown(buf: array<char>, from: nat, to: nat, len: nat)
    requires to <= from && from + len <= buf.Length
    modifies buf
    ensures buf[..] == Put(old(buf[..]), to, old(buf[..])[from..from + len])
  {
    hide Put;
    ghost var was := buf[..];
    for i := 0 to len
      invariant forall k {:trigger buf[k]} :: 0 <= k < buf.Length ==>
        buf[k] == if to <= k < to + i then was[k - to + from] else was[k]
    {
      buf[to + i] := buf[from + i];
    }
    IsPut(buf[..], was, to, was[from..from + len]);
  }

  method CopyIn(buf: array<char>, at: nat, src: string)
    requires at + |src| <= buf.Length
    modifies buf
    ensures buf[..] == Put(old(buf[..]), at, src)
  {
    hide Put;
    ghost var was := buf[..];
    for i := 0 to |src|
      invariant forall k {:trigger buf[k]} :: 0 <= k < buf.Length ==>
        buf[k] == if at <= k < at + i then src[k - at] else was[k]
    {
      buf[at + i] := src[i];
    }
    IsPut(buf[..], was, at, src);
  }

  /** Build prefix + target + "/" + rest in place.  The rest is parked at the end of the buffer first; the result is
      only defined when the whole new text fits. */
  method Splice(buf: array<char>, prefix: nat, pos: nat, n: nat, target: string) returns (fits: bool, m: nat)
    requires Holds(buf, n) && prefix <= pos <= n && target != "" && '\0' !in target
    modifies buf
    ensures fits <==> prefix + |Glue(target, old(buf[pos..n]))| < PATH_MAX
    ensures fits ==> Holds(buf, m) && buf[..m] == old(buf[..prefix]) + Glue(target, old(buf[pos..n]))
  {
    hide Put, Glue;
    var rlen, tlen := n - pos, |target|;
    GlueSize(target, buf[pos..n]);
    var sep := if rlen > 0 && target[tlen - 1] != '/' then 1 else 0;
    m := prefix + tlen + sep + rlen;
    fits := m < PATH_MAX;
    if !fits { return; }
    ghost var was := buf[..];
    var base := PATH_MAX - 1 - rlen;
    MoveUp(buf, pos, base, rlen + 1);
    CopyIn(buf, prefix, target);
    var off := prefix + tlen;
    ghost var s2 := buf[..];
    TargetEnd(Put(was, base, was[pos..n + 1]), prefix, target);
    if rlen > 0 && buf[off - 1] != '/' {
      CopyIn(buf, off, "/");
      off := off + 1;
    }
    ghost var s3 := buf[..];
    MoveDown(buf, base, off, rlen);
    CopyIn(buf, off + rlen, "\0");
    Spliced(was, prefix, pos, n, target, s2, s3, buf[..], sep, base, off);
  }

  lemma GlueSize(target: string, rest: string)
    requires target != ""
    ensures |Glue(target, rest)| == |target| + |rest| + if rest != "" && target[|target| - 1] != '/' then 1 else 0
  {
  }

  lemma TargetEnd(s: string, prefix: nat, target: string)
    requires target != "" && prefix + |target| <= |s|
    ensures Put(s, prefix, target)[prefix + |target| - 1] == target[|target| - 1]
  {
  }

  /** The steps of the splice, put together. */
  lemma Spliced(was: string, prefix: nat, pos: nat, n: nat, target: string, s2: string, s3: string, now: string,
      sep: nat, base: nat, off: nat)
    requires |was| == PATH_MAX && prefix <= pos <= n < PATH_MAX && target != "" && '\0' !in target
    requires base == PATH_MAX - 1 - (n - pos)
    requires forall k :: 0 <= k < n ==> was[k] != '\0'
    requires sep == (if n > pos && target[|target| - 1] != '/' then 1 else 0) && off == prefix + |target| + sep <= base
    requires s2 == Put(Put(was, base, was[pos..n + 1]), prefix, target)
    requires s3 == if sep == 1 then Put(s2, off - 1, "/") else s2
    requires now == Put(Put(s3, off, s3[base..base + (n - pos)]), off + (n - pos), "\0")
    ensures var m := off + (n - pos);
      now[m] == '\0' && now[..m] == was[..prefix] + Glue(target, was[pos..n]) && forall k :: 0 <= k < m ==>
        now[k] != '\0'
  {
    hide Put, Glue, SplicedChar;
    var m := off + (n - pos);
    var want := was[..prefix] + Glue(target, was[pos..n]);
    GlueSize(target, was[pos..n]);
    forall k | 0 <= k < m ensures now[k] == want[k] && now[k] != '\0' {
      SplicedAt(was, prefix, pos, n, target, s2, s3, now, sep, base, off, k);
      WantedChar(was, prefix, pos, n, target, sep, off, k);
    }
    PutAt(Put(s3, off, s3[base..base + (n - pos)]), off + (n - pos), "\0", m);
  }

  lemma SplicedAt(was: string, prefix: nat, pos: nat, n: nat, target: string, s2: string, s3: string, now: string,
      sep: nat, base: nat, off: nat, k: nat)
    requires |was| == PATH_MAX && prefix <= pos <= n < PATH_MAX && target != "" && '\0' !in target
    requires base == PATH_MAX - 1 - (n - pos)
    requires forall k :: 0 <= k < n ==> was[k] != '\0'
    requires sep == (if n > pos && target[|target| - 1] != '/' then 1 else 0) && off == prefix + |target| + sep <= base
    requires s2 == Put(Put(was, base, was[pos..n + 1]), prefix, target)
    requires s3 == if sep == 1 then Put(s2, off - 1, "/") else s2
    requires now == Put(Put(s3, off, s3[base..base + (n - pos)]), off + (n - pos), "\0")
    requires k < off + (n - pos)
    ensures now[k] == SplicedChar(was, prefix, pos, target, off, k) && now[k] != '\0'
  {
    hide Put;
    PutAt(Put(s3, off, s3[base..base + (n - pos)]), off + (n - pos), "\0", k);
    PutAt(s3, off, s3[base..base + (n - pos)], k);
    var j := if k < off then k else base + (k - off);
    if sep == 1 { PutAt(s2, off - 1, "/", j); }
    PutAt(Put(was, base, was[pos..n + 1]), prefix, target, j);
    PutAt(was, base, was[pos..n + 1], j);
  }

  /** Character k of the new text. */
  function SplicedChar(was: string, prefix: nat, pos: nat, target: string, off: nat, k: nat): char
    requires prefix <= |was| && prefix + |target| <= off && (k >= off ==> k - off + pos < |was|)
  {
    if k < prefix then was[k] else if k < prefix + |target| then target[k - prefix] else if k < off then '/'
      else was[k - off + pos]
  }

  lemma WantedChar(was: string, prefix: nat, pos: nat, n: nat, target: string, sep: nat, off: nat, k: nat)
    requires prefix <= pos <= n < |was| && target != "" && k < off + (n - pos)
    requires sep == (if n > pos && target[|target| - 1] != '/' then 1 else 0) && off == prefix + |target| + sep
    ensures |was[..prefix] + Glue(target, was[pos..n])| == off + (n - pos)
    ensures (was[..prefix] + Glue(target, was[pos..n]))[k] == SplicedChar(was, prefix, pos, target, off, k)
  {
  }

  // ---------------------------------------------------------------- the walk

  /** The search through the children of a directory. */
  method FindChild(kids: seq<Kid>, name: string) returns (r: Option)
    ensures r == Child(kids, name)
  {
    for i := 0 to |kids|
      invariant Child(kids, name) == Child(kids[i..], name)
    {
      if kids[i].name == name { return Some(kids[i].node); }
      assert kids[i..][1..] == kids[i + 1..];
    }
    return None;
  }

  /** One component. */
  method Component(fs: Fs, cur: nat, name: string, last: bool, follow: bool) returns (m: Move)
    requires fs.Ok() && cur < |fs.nodes|
    ensures m == Step(fs, cur, name, last, follow)
  {
    hide Child;
    var d := fs.nodes[cur];
    if |name| > NAME_MAX { return Stop(ENAMETOOLONG); }
    if d.kind != Dir { return Stop(ENOTDIR); }
    if name == "." { return Go(cur); }
    if name == ".." { return Go(if d.parent >= 0 then d.parent else cur); }
    if d.exec < 0 { return Stop(d.exec); }
    var found := FindChild(d.kids, name);
    ChildIn(d.kids, name);
    if found == None { return Stop(ENOENT); }
    if fs.nodes[found.node].kind == Symlink && (follow || !last) { return Follow(found.node); }
    return Go(found.node);
  }

  lemma {:induction false} CompIs(s: string, c: string)
    requires c <= s && '/' !in c && (|c| < |s| ==> s[|c|] == '/')
    ensures Comp(s) == c
  {
    if c != "" {
      assert c[1..] <= s[1..];
      CompIs(s[1..], c[1..]);
      assert s[0] == c[0];
    }
  }

  datatype Pass = Finished(res: Result) | Link(dir: nat, start: nat, pos: nat, node: nat)

  /** What is known between two components: going on from `cur` at `i` gives the result, and the text up to `i` leads
      from the root to `cur` without a link, unless nothing but slashes is left. */
  ghost predicate Between(fs: Fs, text: string, i: nat, cur: nat, depth: nat, follow: bool, goal: Outcome) {
    && fs.Ok() && cur < |fs.nodes| && depth <= SYMLOOP_MAX && i <= |text|
    && WalkAt(fs, cur, i, text[i..], depth, follow) == goal
    && (Reached(fs, fs.root, text[..i], cur, follow) || AllSlashes(text[i..]))
  }

  lemma BetweenSlash(fs: Fs, text: string, i: nat, cur: nat, depth: nat, follow: bool, goal: Outcome)
    requires Between(fs, text, i, cur, depth, follow, goal) && i < |text| && text[i] == '/'
    ensures Between(fs, text, i + 1, cur, depth, follow, goal)
  {
    assert text[i..][1..] == text[i + 1..];
    if Reached(fs, fs.root, text[..i], cur, follow) {
      ReachedSlash(fs, fs.root, text[..i], cur, follow);
      assert text[..i] + "/" == text[..i + 1];
    } else {
      assert AllSlashes(text[i..][1..]);
    }
  }

  /** At the start of a component: what the next step of the walk is. */
  lemma AtComponent(fs: Fs, text: string, start: nat, pos: nat, cur: nat, depth: nat, follow: bool, goal: Outcome)
    requires Between(fs, text, start, cur, depth, follow, goal) && start < pos <= |text|
    requires '/' !in text[start..pos] && (pos < |text| ==> text[pos] == '/') && (start == 0 || text[start - 1] == '/')
    ensures Reached(fs, fs.root, text[..start], cur, follow) && Closed(text[..start]) && text[start] != '/'
    ensures WalkAt(fs, cur, start, text[start..], depth, follow) == goal
    ensures Comp(text[start..]) == text[start..pos] && text[start..][pos - start..] == text[pos..]
    ensures var m := Step(fs, cur, text[start..pos], AllSlashes(text[pos..]), follow);
      && (m.Stop? ==> goal == Done(Err(m.err))) && (m.Go? ==> Between(fs, text, pos, m.node, depth, follow, goal))
  {
    hide WalkAt, Reached, Step, Comp;
    ComponentText(text, start, pos);
    var c, rest := text[start..pos], text[pos..];
    assert Reached(fs, fs.root, text[..start], cur, follow) by { assert text[start..][0] != '/'; }
    WalkComp(fs, cur, start, text[start..], depth, follow);
    var m := Step(fs, cur, c, AllSlashes(rest), follow);
    if m.Go? && !AllSlashes(rest) {
      assert text[..start] + c == text[..pos];
      ReachedComp(fs, fs.root, text[..start], cur, c, m.node, follow);
    }
  }

  lemma ComponentText(text: string, start: nat, pos: nat)
    requires start < pos <= |text| && '/' !in text[start..pos] && (pos < |text| ==> text[pos] == '/')
    requires (start == 0 || text[start - 1] == '/')
    ensures Closed(text[..start]) && text[start] != '/' && text[start..] != "" && text[start..][0] != '/'
    ensures Comp(text[start..]) == text[start..pos] && text[start..][pos - start..] == text[pos..]
    ensures text[start..pos] != ""
  {
    hide Comp;
    assert text[start..pos][0] == text[start] == text[start..][0];
    assert text[start..pos] <= text[start..];
    CompIs(text[start..], text[start..pos]);
  }

  lemma {:induction false} BetweenSlashes(fs: Fs, text: string, i: nat, j: nat, cur: nat, depth: nat, follow: bool,
      goal: Outcome)
    requires Between(fs, text, i, cur, depth, follow, goal) && i <= j <= |text| && AllSlashes(text[i..j])
    ensures Between(fs, text, j, cur, depth, follow, goal)
    decreases j - i
  {
    hide Between;
    if i < j {
      assert text[i..j][0] == text[i] && text[i..j][1..] == text[i + 1..j];
      BetweenSlash(fs, text, i, cur, depth, follow, goal);
      BetweenSlashes(fs, text, i + 1, j, cur, depth, follow, goal);
    }
  }

  /** The next component from `i` on, and whether anything but slashes follows it. */
  method NextComponent(buf: array<char>, n: nat, i: nat) returns (start: nat, pos: nat, last: bool)
    requires Holds(buf, n) && i <= n
    ensures i <= start <= pos <= n && AllSlashes(buf[i..start]) && '/' !in buf[start..pos]
    ensures start < n ==> start < pos && (pos < n ==> buf[pos] == '/')
    ensures last <==> AllSlashes(buf[pos..n])
  {
    start := i;
    while buf[start] == '/'
      invariant i <= start <= n && AllSlashes(buf[i..start])
      decreases n - start
    {
      start := start + 1;
    }
    pos := start;
    while buf[pos] != '\0' && buf[pos] != '/'
      invariant start <= pos <= n && '/' !in buf[start..pos]
      decreases n - pos
    {
      pos := pos + 1;
    }
    var q := pos;
    while buf[q] == '/'
      invariant pos <= q <= n && AllSlashes(buf[pos..q])
      decreases n - q
    {
      q := q + 1;
    }
    last := buf[q] == '\0';
    assert buf[..n][pos..] == buf[pos..n] && buf[..n][pos..q] == buf[pos..q];
    LastIs(buf[..n], pos, q);
  }

  /** One pass over the buffer, from the root to the end of the text, an error, or a link that has to be followed. */
  method Scan(fs: Fs, buf: array<char>, n: nat, follow: bool, ghost depth: nat) returns (out: Pass)
    requires fs.Ok() && Holds(buf, n) && depth <= SYMLOOP_MAX
    ensures var goal := WalkAt(fs, fs.root, 0, buf[..n], depth, follow);
      match out
      case Finished(r) => Done(r) == goal
      case Link(dir, start, pos, l) =>
        && start < pos <= n && l < |fs.nodes|
        && Linked(fs, buf[..n], dir, start, pos, l, depth, follow, goal)
  {
    hide Between, WalkAt, Reached, Step, Comp, AllSlashes;
    ghost var text := buf[..n];
    ghost var goal := WalkAt(fs, fs.root, 0, text, depth, follow);
    var cur: nat, i: nat := fs.root, 0;
    BetweenStart(fs, text, depth, follow);
    if buf[0] == '/' {
      BetweenSlash(fs, text, 0, cur, depth, follow, goal);
      i := 1;
    }
    while buf[i] != '\0'
      invariant i <= n && cur < |fs.nodes| && Between(fs, text, i, cur, depth, follow, goal)
      invariant i == 0 || text[i - 1] == '/' || i == n || text[i] == '/'
      decreases n - i
    {
      var start, pos, last := NextComponent(buf, n, i);
      assert buf[i..start] == text[i..start] && buf[start..pos] == text[start..pos] && buf[pos..n] == text[pos..];
      BetweenSlashes(fs, text, i, start, cur, depth, follow, goal);
      if start == n {
        i := n;
        break;
      }
      SlashBefore(text, i, start, pos);
      AtComponent(fs, text, start, pos, cur, depth, follow, goal);
      var m := Component(fs, cur, buf[start..pos], last, follow);
      MoveRange(fs, cur, text[start..pos], last, follow);
      match m {
        case Stop(e) => return Finished(Err(e));
        case Follow(l) => return Link(cur, start, pos, l);
        case Go(node) => cur, i := node, pos;
      }
    }
    BetweenEnd(fs, text, i, cur, depth, follow, goal);
    return Finished(Ok(cur));
  }

  lemma SlashBefore(text: string, i: nat, start: nat, pos: nat)
    requires i <= start < pos <= |text| && AllSlashes(text[i..start]) && '/' !in text[start..pos]
    requires i == 0 || text[i - 1] == '/' || i == |text| || text[i] == '/'
    ensures start == 0 || text[start - 1] == '/'
  {
    assert text[start..pos][0] == text[start];
    if i < start { assert text[i..start][start - 1 - i] == text[start - 1]; }
  }

  /** The pass stopped at the component text[start..pos] of directory `dir`, which is the link `l`. */
  ghost predicate Linked(fs: Fs, text: string, dir: nat, start: nat, pos: nat, l: nat, depth: nat, follow: bool,
      goal: Outcome) {
    && fs.Ok() && dir < |fs.nodes| && l < |fs.nodes| && depth <= SYMLOOP_MAX && start < pos <= |text|
    && Reached(fs, fs.root, text[..start], dir, follow) && Closed(text[..start])
    && Comp(text[start..]) == text[start..pos] && text[start] != '/'
    && Step(fs, dir, text[start..pos], AllSlashes(text[pos..]), follow) == Follow(l)
    && WalkAt(fs, dir, start, text[start..], depth, follow) == goal
  }

  lemma BetweenStart(fs: Fs, text: string, depth: nat, follow: bool)
    requires fs.Ok() && depth <= SYMLOOP_MAX
    ensures Between(fs, text, 0, fs.root, depth, follow, WalkAt(fs, fs.root, 0, text, depth, follow))
  {
    assert text[0..] == text && text[..0] == "";
  }

  lemma BetweenEnd(fs: Fs, text: string, i: nat, cur: nat, depth: nat, follow: bool, goal: Outcome)
    requires Between(fs, text, i, cur, depth, follow, goal) && i == |text|
    ensures goal == Done(Ok(cur))
  {
    assert text[i..] == "";
  }

  lemma LastIs(text: string, i: nat, q: nat)
    requires i <= q <= |text| && AllSlashes(text[i..q]) && (q < |text| ==> text[q] != '/')
    ensures AllSlashes(text[i..]) <==> q == |text|
  {
    if q < |text| { assert text[i..][q - i] != '/'; } else { assert text[i..q] == text[i..]; }
  }

  lemma MoveRange(fs: Fs, cur: nat, name: string, last: bool, follow: bool)
    requires fs.Ok() && cur < |fs.nodes|
    ensures var m := Step(fs, cur, name, last, follow);
      (m.Go? ==> m.node < |fs.nodes|) && (m.Follow? ==> m.link < |fs.nodes|)
  {
  }

  /** `vfs_lookup`: one buffer, spliced and walked again from the root for every link. */
  method Lookup(fs: Fs, path: string, follow: bool) returns (out: Outcome)
    requires fs.Ok() && '\0' !in path
    ensures out == Outcomes(fs, path, follow) && (out.Done? ==> out.res == Meaning(fs, path, follow))
    ensures out == Done(Meaning(fs, path, follow)) <==> !Outgrows(fs, path, follow)
  {
    hide WalkAt, Walk, Linked, Glue, FollowAt, Outgrows;
    OutcomeIsMeaning(fs, path, follow);
    MeaningIff(fs, path, follow);
    if |path| >= PATH_MAX { return Done(Err(ENAMETOOLONG)); }
    var buf := new char[PATH_MAX](_ => '\0');
    CopyIn(buf, 0, path);
    var n, depth := |path|, 0;
    Loaded(buf[..], path);
    if path == "" { return Done(Err(ENOENT)); }
    while true
      invariant 0 <= depth <= SYMLOOP_MAX && n > 0 && Holds(buf, n) && fresh(buf)
      invariant WalkAt(fs, fs.root, 0, buf[..n], depth, follow) == Outcomes(fs, path, follow)
      decreases SYMLOOP_MAX - depth
    {
      var pass := Scan(fs, buf, n, follow, depth);
      if pass.Finished? { return Done(pass.res); }
      var target := fs.nodes[pass.node].target;
      var start, pos := pass.start, pass.pos;
      ghost var text := buf[..n];
      LinkFollowed(fs, text, pass.dir, start, pos, pass.node, depth, follow, Outcomes(fs, path, follow));
      if target == "" { return Done(Err(ENOENT)); }
      if |target| + 1 + (n - pos) >= PATH_MAX { return Done(Err(ENAMETOOLONG)); }
      var prefix := if target[0] == '/' then 0 else start;
      GlueSize(target, buf[pos..n]);
      assert buf[pos..n] == text[pos..] && buf[..prefix] == text[..prefix];
      var fits, m := Splice(buf, prefix, pos, n, target);
      if !fits { return Overrun; }
      if depth == SYMLOOP_MAX { return Done(Err(ELOOP)); }
      n, depth := m, depth + 1;
    }
  }

  lemma Loaded(s: string, path: string)
    requires |path| < PATH_MAX == |s| && s == Put(seq(PATH_MAX, _ => '\0'), 0, path)
    ensures s[..|path|] == path && s[|path|] == '\0' && forall k :: 0 <= k < |path| ==> s[k] == path[k]
  {
  }

  /** What following the link means for the text in the buffer. */
  lemma LinkFollowed(fs: Fs, text: string, dir: nat, start: nat, pos: nat, l: nat, depth: nat, follow: bool,
      goal: Outcome)
    requires Linked(fs, text, dir, start, pos, l, depth, follow, goal)
    ensures l < |fs.nodes| && '\0' !in fs.nodes[l].target
    ensures var target, rest := fs.nodes[l].target, text[pos..];
      && (target == "" ==> goal == Done(Err(ENOENT)))
      && (target != "" && |target| + 1 + |rest| >= PATH_MAX ==> goal == Done(Err(ENAMETOOLONG)))
      && (target != "" && |target| + 1 + |rest| < PATH_MAX ==>
            var prefix := if target[0] == '/' then 0 else start;
            goal == if prefix + |Glue(target, rest)| >= PATH_MAX then Overrun
                    else if depth == SYMLOOP_MAX then Done(Err(ELOOP))
                    else WalkAt(fs, fs.root, 0, text[..prefix] + Glue(target, rest), depth + 1, follow))
  {
    hide WalkAt, Reached, Step, Comp;
    WalkComp(fs, dir, start, text[start..], depth, follow);
    var target, rest := fs.nodes[l].target, text[pos..];
    assert text[start..][pos - start..] == rest;
    if target != "" && |target| + 1 + |rest| < PATH_MAX {
      GlueSize(target, rest);
      if target[0] == '/' {
        assert text[..0] + Glue(target, rest) == Glue(target, rest);
      } else if depth < SYMLOOP_MAX {
        PrefixWalk(fs, fs.root, 0, text[..start], dir, Glue(target, rest), depth + 1, follow);
      }
    }
  }

  // ---------------------------------------------------------------- a lookup that overruns

  function Dots(k: nat): string { if k == 0 then "" else Dots(k - 1) + "." + "/" }

  lemma {:induction false} DotsStay(fs: Fs, k: nat)
    requires fs.Ok() && fs.nodes[fs.root].kind == Dir
    ensures Reached(fs, fs.root, Dots(k), fs.root, true) && Closed(Dots(k)) && |Dots(k)| == 2 * k
  {
    hide Reached, Child, Fs.Ok;
    if k == 0 {
      NothingReached(fs);
    } else {
      DotsStay(fs, k - 1);
      RootIn(fs);
      ReachedComp(fs, fs.root, Dots(k - 1), fs.root, ".", fs.root, true);
      ReachedSlash(fs, fs.root, Dots(k - 1) + ".", fs.root, true);
    }
  }

  lemma RootIn(fs: Fs)
    requires fs.Ok()
    ensures fs.root < |fs.nodes|
  {
  }

  lemma NothingReached(fs: Fs)
    requires fs.Ok()
    ensures Reached(fs, fs.root, "", fs.root, true)
  {
  }

  function Long(n: nat): string { seq(n, _ => 't') }

  /** A root directory with one relative link "l" to a name of 200 characters. */
  function OneLink(): Fs { Fs(0, [Node(Dir, -1, [Kid("l", 1)], "", 0), Node(Symlink, 0, [], Long(200), 0)]) }

  /** "./" repeated k times and then "l", for k from 1948 to 2047: the length check passes, but the new text does not
      fit behind the prefix. */
  lemma OverrunExample(k: nat)
    requires 1948 <= k <= 2047
    ensures OneLink().Ok() && |Dots(k) + "l"| < PATH_MAX && Outcomes(OneLink(), Dots(k) + "l", true) == Overrun
  {
    hide WalkAt, Comp, Dots, Reached, Step, Glue;
    var fs := OneLink();
    LinkOfRoot();
    DotsStay(fs, k);
    PrefixWalk(fs, 0, 0, Dots(k), 0, "l", 0, true);
    CompIs("l", "l");
    assert "l"[1..] == "";
    WalkComp(fs, 0, 2 * k, "l", 0, true);
    GlueSize(Long(200), "");
  }

  lemma LinkOfRoot()
    ensures OneLink().Ok() && Step(OneLink(), 0, "l", true, true) == Follow(1)
  {
  }
}
