/** The single-producer single-consumer byte ring: sizing, reading and writing, and the lock-free protocol with 32-bit
    indices that wrap. */
module Ring {
  import opened Arith
  import opened Bytes

  // ---------------------------------------------------------------- sizing

  /** `ring_p2`: smear the highest bit of v - 1 downwards and add one. */
  function P2(v: bv32): bv32 {
    var a := v - 1;
    var b := a | (a >> 1);
    var c := b | (b >> 2);
    var d := c | (c >> 4);
    var e := d | (d >> 8);
    var f := e | (e >> 16);
    f + 1
  }

  /** Up to 2^31 it is the smallest power of two that is not below v; otherwise it wraps to 0. */
  lemma P2Is(v: bv32)
    ensures 1 <= v <= 0x8000_0000 ==> var r := P2(v); r != 0 && r & (r - 1) == 0 && r >= v && (r >> 1) < v
    ensures v == 0 || v > 0x8000_0000 ==> P2(v) == 0
  {
  }

  /** A word with one bit set. */
  lemma OneBit(r: bv32)
    requires r != 0 && r & (r - 1) == 0
    ensures r in {0x1, 0x2, 0x4, 0x8, 0x10, 0x20, 0x40, 0x80, 0x100, 0x200, 0x400, 0x800, 0x1000, 0x2000, 0x4000,
      0x8000,
                  0x1_0000, 0x2_0000, 0x4_0000, 0x8_0000, 0x10_0000, 0x20_0000, 0x40_0000, 0x80_0000,
                  0x100_0000, 0x200_0000, 0x400_0000, 0x800_0000, 0x1000_0000, 0x2000_0000, 0x4000_0000, 0x8000_0000}
  {
  }

  /** The capacity `ring_on` chooses for `space` data bytes, 0 if it refuses. */
  function CapacityFor(space: bv32): bv32 {
    if space < 16 then 0
    else
      var cap := P2(space);
      var c := if cap > space then cap >> 1 else cap;
      if c < 16 then 0 else c
  }

  /** It is the largest power of two that fits, and ring indices stay consistent when 32-bit counters wrap, because it
      divides 2^32.  More than 2^31 bytes are refused. */
  lemma CapacityIs(space: bv32)
    ensures 16 <= space <= 0x8000_0000 ==>
      Largest(CapacityFor(space), space) && Divides(CapacityFor(space) as nat, WORD)
    ensures space < 16 || space > 0x8000_0000 ==> CapacityFor(space) == 0
  {
    hide P2, Largest, Divides;
    P2Is(space);
    if 16 <= space <= 0x8000_0000 {
      Halved(P2(space), space);
      LargestDivides(CapacityFor(space), space);
    }
  }

  /** `c` is a power of two that fits in `space`, and twice as much would not fit. */
  predicate Largest(c: bv32, space: bv32) { 16 <= c <= space && c > (space >> 1) && c & (c - 1) == 0 }

  lemma Halved(r: bv32, v: bv32)
    requires r != 0 && r & (r - 1) == 0 && r >= v >= 16 && (r >> 1) < v
    ensures var c := if r > v then r >> 1 else r; c >= 16 && Largest(c, v)
  {
  }

  lemma LargestDivides(c: bv32, space: bv32)
    requires Largest(c, space)
    ensures Divides(c as nat, WORD)
  {
    OneBit(c);
  }

  // ---------------------------------------------------------------- index arithmetic

  /** The fill level: (tail - head) & mask on 32-bit counters. */
  lemma FillIs(head: nat, tail: nat, n: nat)
    requires Divides(n, WORD) && head <= tail < head + n
    ensures Rem((tail % WORD - head % WORD) % WORD, n) == tail - head
  {
    hide Rem;
    var d := tail - head;
    DiffMod(head, tail);
    SmallRem(d, n);
    NestedRem(d, WORD, n);
  }

  lemma DiffMod(a: nat, b: nat)
    requires a <= b
    ensures (b % WORD - a % WORD) % WORD == Rem(b - a, WORD)
  {
  }

  // ---------------------------------------------------------------- the protocol

  /** A producer in the middle of copying has copied `k` bytes of `chunk`; a consumer has fetched `got` of `n` bytes. */
  datatype Producer = PIdle | PCopy(chunk: seq<Byte>, k: nat)
  datatype Consumer = CIdle | CCopy(n: nat, got: seq<Byte>)
  datatype State = State(cap: nat, head: nat, tail: nat, data: seq<Byte>, p: Producer, c: Consumer)

  datatype Step = PStart(src: seq<Byte>) | PByte | PPublish | CStart(want: nat) | CByte | CPublish

  function Fill(cap: nat, head: nat, tail: nat): nat
    requires cap > 0
  {
    Rem((tail - head) % WORD, cap)
  }

  /** Position `k` bytes behind index `at`, in two chunks around the end of the buffer. */
  function Slot(cap: nat, at: nat, k: nat): nat
    requires cap > 0
  {
    var pos := Rem(at, cap);
    if pos + k < cap then pos + k else pos + k - cap
  }

  predicate Shape(s: State) { s.cap > 0 && |s.data| == s.cap }

  predicate Enabled(s: State, e: Step) {
    Shape(s) && match e
    case PStart(_) => s.p.PIdle?
    case PByte => s.p.PCopy? && s.p.k < |s.p.chunk| && Slot(s.cap, s.tail, s.p.k) < s.cap
    case PPublish => s.p.PCopy? && s.p.k == |s.p.chunk|
    case CStart(_) => s.c.CIdle?
    case CByte => s.c.CCopy? && |s.c.got| < s.c.n && Slot(s.cap, s.head, |s.c.got|) < s.cap
    case CPublish => s.c.CCopy? && |s.c.got| == s.c.n
  }

  function Apply(s: State, e: Step): State
    requires Enabled(s, e)
  {
    match e
    case PStart(src) =>
      var room := s.cap - 1 - Fill(s.cap, s.head, s.tail);
      var len := if |src| > room then room else |src|;
      if len <= 0 then s else s.(p := PCopy(src[..len], 0))
    case PByte => s.(data := s.data[Slot(s.cap, s.tail, s.p.k) := s.p.chunk[s.p.k]], p := s.p.(k := s.p.k + 1))
    case PPublish => s.(tail := (s.tail + |s.p.chunk|) % WORD, p := PIdle)
    case CStart(want) =>
      var avail := Fill(s.cap, s.head, s.tail);
      var n := if want > avail then avail else want;
      if n == 0 then s else s.(c := CCopy(n, []))
    case CByte => s.(c := s.c.(got := s.c.got + [s.data[Slot(s.cap, s.head, |s.c.got|)]]))
    case CPublish => s.(head := (s.head + s.c.n) % WORD, c := CIdle)
  }

  /** Everything published so far, and everything handed to the consumer so far. */
  datatype Hist = Hist(sent: seq<Byte>, taken: seq<Byte>)

  ghost function Record(s: State, h: Hist, e: Step): Hist
    requires Enabled(s, e)
  {
    match e
    case PPublish => h.(sent := h.sent + s.p.chunk)
    case CPublish => h.(taken := h.taken + s.c.got)
    case PStart(_) => h
    case PByte => h
    case CStart(_) => h
    case CByte => h
  }

  /** The byte of absolute position `a`: published, or part of the chunk being copied. */
  ghost predicate Good(s: State, h: Hist, a: nat) {
    && Shape(s)
    && if a < |h.sent| then s.data[Rem(a, s.cap)] == h.sent[a]
       else s.p.PCopy? && a - |h.sent| < |s.p.chunk| && s.data[Rem(a, s.cap)] == s.p.chunk[a - |h.sent|]
  }

  /** How far the buffer is filled, counting what the producer has copied but not published. */
  function Copied(s: State): nat { if s.p.PCopy? then s.p.k else 0 }

  ghost predicate Counters(s: State, h: Hist) {
    && Shape(s) && Divides(s.cap, WORD)
    && var H, T := |h.taken|, |h.sent|;
    && s.head == H % WORD && s.tail == T % WORD && H <= T < H + s.cap && h.taken == h.sent[..H]
    && (s.p.PCopy? ==> s.p.k <= |s.p.chunk| && T + |s.p.chunk| < H + s.cap)
    && (s.c.CCopy? ==> |s.c.got| <= s.c.n && H + s.c.n <= T && s.c.got == h.sent[H..H + |s.c.got|])
  }

  ghost predicate Inv(s: State, h: Hist) {
    Counters(s, h) && forall a: nat {:trigger Good(s, h, a)} :: |h.taken| <= a < |h.sent| + Copied(s) ==> Good(s, h, a)
  }

  /** The index computed from the wrapped counter is that of the absolute position. */
  lemma SlotIs(cap: nat, a: nat, k: nat)
    requires Divides(cap, WORD) && k < cap
    ensures Slot(cap, a % WORD, k) == Rem(a + k, cap) < cap
  {
    NestedRem(a, WORD, cap);
    SlotSum(cap, a, k);
  }

  lemma SlotSum(cap: nat, a: nat, k: nat)
    requires k < cap
    ensures var pos := Rem(a, cap); Rem(a + k, cap) == if pos + k < cap then pos + k else pos + k - cap
  {
    var q, pos := Quot(a, cap), Rem(a, cap);
    QuotRem(a, cap);
    Distribute(q, 1, cap);
    if pos + k < cap { DivMod(q, cap, pos + k); } else { DivMod(q + 1, cap, pos + k - cap); }
    assert a + k == q * cap + (pos + k);
  }

  lemma FillOk(s: State, h: Hist)
    requires Inv(s, h)
    ensures Fill(s.cap, s.head, s.tail) == |h.sent| - |h.taken| < s.cap
  {
    FillIs(|h.taken|, |h.sent|, s.cap);
  }

  /** Whenever a side is copying, its next index is inside the buffer. */
  lemma NextSlot(s: State, h: Hist)
    requires Inv(s, h)
    ensures s.p.PCopy? && s.p.k < |s.p.chunk| ==> Slot(s.cap, s.tail, s.p.k) == Rem(|h.sent| + s.p.k, s.cap) < s.cap
    ensures s.c.CCopy? && |s.c.got| < s.c.n ==>
      Slot(s.cap, s.head, |s.c.got|) == Rem(|h.taken| + |s.c.got|, s.cap) < s.cap
  {
    hide Slot;
    if s.p.PCopy? && s.p.k < |s.p.chunk| { SlotIs(s.cap, |h.sent|, s.p.k); }
    if s.c.CCopy? && |s.c.got| < s.c.n { SlotIs(s.cap, |h.taken|, |s.c.got|); }
  }

  /** The producer never writes over a byte that has not been taken. */
  lemma NoOverlap(s: State, h: Hist, a: nat)
    requires Inv(s, h) && s.p.PCopy? && s.p.k < |s.p.chunk| && |h.taken| <= a < |h.sent| + s.p.k
    ensures Slot(s.cap, s.tail, s.p.k) != Rem(a, s.cap)
  {
    hide Slot;
    NextSlot(s, h);
    RemApart(a, |h.sent| + s.p.k, s.cap);
  }

  lemma StartInv(s: State, h: Hist, e: Step)
    requires Inv(s, h) && Enabled(s, e) && (e.PStart? || e.CStart?)
    ensures Inv(Apply(s, e), h)
  {
    hide Fill, Rem;
    FillOk(s, h);
    var s' := Apply(s, e);
    forall a: nat | |h.taken| <= a < |h.sent| + Copied(s') ensures Good(s', h, a) { assert Good(s, h, a); }
  }

  lemma PByteInv(s: State, h: Hist)
    requires Inv(s, h) && Enabled(s, PByte)
    ensures Inv(Apply(s, PByte), h)
  {
    hide Slot, Rem;
    NextSlot(s, h);
    var s' := Apply(s, PByte);
    forall a: nat | |h.taken| <= a < |h.sent| + Copied(s') ensures Good(s', h, a) {
      QuotRem(a, s.cap);
      if a < |h.sent| + s.p.k { NoOverlap(s, h, a); assert Good(s, h, a); }
    }
  }

  lemma PPublishInv(s: State, h: Hist)
    requires Inv(s, h) && Enabled(s, PPublish)
    ensures Inv(Apply(s, PPublish), Record(s, h, PPublish))
  {
    hide Rem;
    var s', h' := Apply(s, PPublish), Record(s, h, PPublish);
    AddMod(|h.sent|, |s.p.chunk|);
    forall a: nat | |h'.taken| <= a < |h'.sent| + Copied(s') ensures Good(s', h', a) { assert Good(s, h, a); }
  }

  lemma AddMod(a: nat, b: nat)
    ensures (a % WORD + b) % WORD == (a + b) % WORD
  {
  }

  lemma CByteInv(s: State, h: Hist)
    requires Inv(s, h) && Enabled(s, CByte)
    ensures Inv(Apply(s, CByte), h)
  {
    hide Slot, Rem;
    NextSlot(s, h);
    var s', b := Apply(s, CByte), |h.taken| + |s.c.got|;
    assert Good(s, h, b);
    forall a: nat | |h.taken| <= a < |h.sent| + Copied(s') ensures Good(s', h, a) { assert Good(s, h, a); }
    assert h.sent[|h.taken|..b + 1] == h.sent[|h.taken|..b] + [h.sent[b]];
  }

  lemma CPublishInv(s: State, h: Hist)
    requires Inv(s, h) && Enabled(s, CPublish)
    ensures Inv(Apply(s, CPublish), Record(s, h, CPublish))
  {
    hide Rem;
    var s', h' := Apply(s, CPublish), Record(s, h, CPublish);
    AddMod(|h.taken|, s.c.n);
    assert h.sent[..|h.taken|] + h.sent[|h.taken|..|h.taken| + s.c.n] == h.sent[..|h.taken| + s.c.n];
    forall a: nat | |h'.taken| <= a < |h'.sent| + Copied(s') ensures Good(s', h', a) { assert Good(s, h, a); }
  }

  lemma StepInv(s: State, h: Hist, e: Step)
    requires Inv(s, h) && Enabled(s, e)
    ensures Inv(Apply(s, e), Record(s, h, e))
  {
    hide Inv, Enabled, Apply;
    match e
    case PStart(_) => StartInv(s, h, e);
    case CStart(_) => StartInv(s, h, e);
    case PByte => PByteInv(s, h);
    case PPublish => PPublishInv(s, h);
    case CByte => CByteInv(s, h);
    case CPublish => CPublishInv(s, h);
  }

  // ---------------------------------------------------------------- whole runs

  ghost predicate Init(s: State) {
    Shape(s) && Divides(s.cap, WORD) && s.head == 0 && s.tail == 0 && s.p.PIdle? && s.c.CIdle?
  }

  ghost predicate IsRun(ss: seq<State>, es: seq<Step>) {
    && |ss| == |es| + 1 && Init(ss[0])
    && forall k {:trigger es[k]} :: 0 <= k < |es| ==> Enabled(ss[k], es[k]) && ss[k + 1] == Apply(ss[k], es[k])
  }

  ghost function HistAt(ss: seq<State>, es: seq<Step>, k: nat): Hist
    requires IsRun(ss, es) && k <= |es|
  {
    if k == 0 then Hist([], [])
      else (assert es[k - 1] == es[k - 1]; Record(ss[k - 1], HistAt(ss, es, k - 1), es[k - 1]))
  }

  lemma {:induction false} RunInv(ss: seq<State>, es: seq<Step>, k: nat)
    requires IsRun(ss, es) && k <= |es|
    ensures Inv(ss[k], HistAt(ss, es, k))
  {
    hide Enabled, Apply, Divides;
    if k > 0 {
      RunInv(ss, es, k - 1);
      var e := es[k - 1];
      StepInv(ss[k - 1], HistAt(ss, es, k - 1), e);
    }
  }

  /** However producer and consumer interleave, the bytes read are a prefix of the bytes written, and a copy in
      progress never touches an unread byte; the counters may wrap any number of times. */
  lemma ReadsArePrefix(ss: seq<State>, es: seq<Step>, k: nat)
    requires IsRun(ss, es) && k <= |es|
    ensures var h := HistAt(ss, es, k); h.taken <= h.sent && |h.sent| - |h.taken| < ss[k].cap
    ensures k < |es| && es[k].PByte? ==> var h := HistAt(ss, es, k);
      forall a: nat {:trigger Rem(a, ss[k].cap)} :: |h.taken| <= a < |h.sent| ==>
        Slot(ss[k].cap, ss[k].tail, ss[k].p.k) != Rem(a, ss[k].cap)
  {
    hide Apply, Slot;
    RunInv(ss, es, k);
    if k < |es| && es[k].PByte? {
      var h := HistAt(ss, es, k);
      forall a: nat | |h.taken| <= a < |h.sent|
        ensures Slot(ss[k].cap, ss[k].tail, ss[k].p.k) != Rem(a, ss[k].cap)
      {
        NoOverlap(ss[k], h, a);
      }
    }
  }

  // ---------------------------------------------------------------- what one side achieves

  ghost predicate Goes(s: State, h: Hist, es: seq<Step>, s': State, h': Hist)
    decreases |es|
  {
    if es == [] then s' == s && h' == h
    else Enabled(s, es[0]) && Goes(Apply(s, es[0]), Record(s, h, es[0]), es[1..], s', h')
  }

  lemma GoesFirst(s: State, h: Hist, e: Step, es: seq<Step>, s': State, h': Hist)
    requires Enabled(s, e) && Goes(Apply(s, e), Record(s, h, e), es, s', h')
    ensures Goes(s, h, [e] + es, s', h')
  {
    hide Enabled, Apply, Record;
    assert ([e] + es)[1..] == es;
  }

  lemma {:induction false} Publishes(s: State, h: Hist) returns (es: seq<Step>, s': State, h': Hist)
    requires Inv(s, h) && s.p.PCopy?
    ensures Goes(s, h, es, s', h') && s'.p.PIdle? && s'.c == s.c && h' == h.(sent := h.sent + s.p.chunk)
    decreases if s.p.PCopy? then |s.p.chunk| - s.p.k else 0
  {
    hide Inv, Goes, Slot;
    CountersOf(s, h);
    if s.p.k == |s.p.chunk| {
      s', h' := Apply(s, PPublish), Record(s, h, PPublish);
      GoesEnd(s', h');
      es := [];
      GoesFirst(s, h, PPublish, es, s', h');
      es := [PPublish] + es;
    } else {
      NextSlot(s, h);
      PByteInv(s, h);
      es, s', h' := Publishes(Apply(s, PByte), h);
      GoesFirst(s, h, PByte, es, s', h');
      es := [PByte] + es;
    }
  }

  lemma {:induction false} Delivers(s: State, h: Hist) returns (es: seq<Step>, s': State, h': Hist)
    requires Inv(s, h) && s.c.CCopy?
    ensures Goes(s, h, es, s', h') && s'.c.CIdle? && s'.p == s.p && |h.taken| + s.c.n <= |h.sent|
    ensures h' == h.(taken := h.sent[..|h.taken| + s.c.n])
    decreases if s.c.CCopy? then s.c.n - |s.c.got| else 0
  {
    hide Inv, Goes, Slot;
    CountersOf(s, h);
    if |s.c.got| == s.c.n {
      s', h' := Apply(s, CPublish), Record(s, h, CPublish);
      GoesEnd(s', h');
      es := [];
      GoesFirst(s, h, CPublish, es, s', h');
      es := [CPublish] + es;
      assert h.sent[..|h.taken|] + h.sent[|h.taken|..|h.taken| + s.c.n] == h.sent[..|h.taken| + s.c.n];
    } else {
      NextSlot(s, h);
      CByteInv(s, h);
      es, s', h' := Delivers(Apply(s, CByte), h);
      GoesFirst(s, h, CByte, es, s', h');
      es := [CByte] + es;
    }
  }

  lemma CountersOf(s: State, h: Hist)
    requires Inv(s, h)
    ensures Counters(s, h)
  {
  }

  lemma GoesEnd(s: State, h: Hist)
    ensures Goes(s, h, [], s, h)
  {
  }

  /** Whatever the consumer is doing, a producer that goes on publishes as much of `src` as there is room for; one byte
      stays free. */
  lemma Sends(s: State, h: Hist, src: seq<Byte>) returns (es: seq<Step>, s': State, h': Hist)
    requires Inv(s, h) && s.p.PIdle?
    ensures Goes(s, h, es, s', h') && s'.p.PIdle? && s'.c == s.c && |h.sent| - |h.taken| < s.cap
    ensures h' == h.(sent := h.sent + src[..Min(|src|, s.cap - 1 - (|h.sent| - |h.taken|))])
  {
    hide Inv, Goes;
    CountersOf(s, h);
    FillOk(s, h);
    StartInv(s, h, PStart(src));
    var s1 := Apply(s, PStart(src));
    if s1.p.PCopy? {
      es, s', h' := Publishes(s1, h);
    } else {
      GoesEnd(s1, h);
      es, s', h' := [], s1, h;
    }
    GoesFirst(s, h, PStart(src), es, s', h');
    es := [PStart(src)] + es;
  }

  /** And a consumer that goes on gets the oldest bytes, as many as it wants and there are. */
  lemma Takes(s: State, h: Hist, want: nat) returns (es: seq<Step>, s': State, h': Hist)
    requires Inv(s, h) && s.c.CIdle?
    ensures Goes(s, h, es, s', h') && s'.c.CIdle? && s'.p == s.p && |h.taken| <= |h.sent|
    ensures h' == h.(taken := h.sent[..|h.taken| + Min(want, |h.sent| - |h.taken|)])
  {
    hide Inv, Goes;
    CountersOf(s, h);
    FillOk(s, h);
    StartInv(s, h, CStart(want));
    var s1 := Apply(s, CStart(want));
    if s1.c.CCopy? {
      es, s', h' := Delivers(s1, h);
    } else {
      GoesEnd(s1, h);
      es, s', h' := [], s1, h;
    }
    GoesFirst(s, h, CStart(want), es, s', h');
    es := [CStart(want)] + es;
  }

  // ---------------------------------------------------------------- the ring as an object

  /** Copy `src` to the buffer from index `pos` on, wrapping at the end: at most two straight copies. */
  method CopyTo(data: array<Byte>, pos: nat, src: seq<Byte>)
    requires pos < data.Length && |src| < data.Length
    modifies data
    ensures forall i {:trigger data[i]} :: 0 <= i < data.Length ==> data[i] == Overlaid(old(data[..]), pos, src, i)
  {
    ghost var was := data[..];
    var cap := data.Length;
    var first := if cap - pos > |src| then |src| else cap - pos;
    for j := 0 to first
      invariant forall i {:trigger data[i]} :: 0 <= i < cap ==>
        data[i] == if pos <= i < pos + j then src[i - pos] else was[i]
    {
      data[pos + j] := src[j];
    }
    for j := 0 to |src| - first
      invariant forall i {:trigger data[i]} :: 0 <= i < cap ==>
        data[i] == if pos <= i < pos + first then src[i - pos] else if i < j then src[first + i] else was[i]
    {
      data[j] := src[first + j];
    }
  }

  /** Byte i of a buffer after `src` was copied in at `pos`. */
  function Overlaid(was: seq<Byte>, pos: nat, src: seq<Byte>, i: int): Byte
    requires pos < |was| && |src| < |was| && 0 <= i < |was|
  {
    if pos <= i < pos + |src| then src[i - pos] else if i < pos + |src| - |was| then src[i + |was| - pos] else was[i]
  }

  /** Copying `src` in behind position T leaves the bytes from H on alone and puts every new byte in its place. */
  lemma OverlaidAt(was: seq<Byte>, cap: nat, H: nat, T: nat, src: seq<Byte>, a: nat)
    requires cap > 0 && |was| == cap && H <= a < T + |src| && T + |src| < H + cap && H <= T
    ensures Rem(T, cap) < cap && Rem(a, cap) < cap
    ensures Overlaid(was, Rem(T, cap), src, Rem(a, cap)) == if a < T then was[Rem(a, cap)] else src[a - T]
  {
    hide Rem;
    QuotRem(T, cap);
    QuotRem(a, cap);
    var pos, i := Rem(T, cap), Rem(a, cap);
    if a >= T {
      SlotSum(cap, T, a - T);
    } else if pos <= i < pos + |src| {
      SlotSum(cap, T, i - pos);
      RemApart(a, T + (i - pos), cap);
    } else if i < pos + |src| - cap {
      SlotSum(cap, T, i + cap - pos);
      RemApart(a, T + (i + cap - pos), cap);
    }
  }

  /** The `n` bytes from absolute position `a` on. */
  ghost function Window(d: seq<Byte>, a: nat, n: nat): seq<Byte>
    requires |d| > 0
  {
    if n == 0 then [] else (QuotRem(a + n - 1, |d|); Window(d, a, n - 1) + [d[Rem(a + n - 1, |d|)]])
  }

  lemma WindowNone(d: seq<Byte>, a: nat)
    requires |d| > 0
    ensures Window(d, a, 0) == []
  {
  }

  lemma WindowMore(d: seq<Byte>, a: nat, n: nat)
    requires |d| > 0
    ensures Rem(a + n, |d|) < |d| && Window(d, a, n + 1) == Window(d, a, n) + [d[Rem(a + n, |d|)]]
  {
    QuotRem(a + n, |d|);
  }

  lemma {:induction false} WindowSize(d: seq<Byte>, a: nat, n: nat)
    requires |d| > 0
    ensures |Window(d, a, n)| == n
  {
    if n > 0 { WindowSize(d, a, n - 1); }
  }

  lemma {:induction false} WindowSplit(d: seq<Byte>, a: nat, m: nat, n: nat)
    requires |d| > 0 && m <= n
    ensures Window(d, a, n) == Window(d, a, m) + Window(d, a + m, n - m)
  {
    if m < n { WindowSplit(d, a, m, n - 1); }
  }

  /** Copying behind the window leaves it alone. */
  lemma {:induction false} WindowKept(d: seq<Byte>, e: seq<Byte>, a: nat, n: nat)
    requires |d| == |e| > 0 && forall x: nat {:trigger Same(d, e, x)} :: a <= x < a + n ==> Same(d, e, x)
    ensures Window(e, a, n) == Window(d, a, n)
  {
    if n > 0 {
      WindowKept(d, e, a, n - 1);
      assert Same(d, e, a + n - 1);
    }
  }

  ghost predicate Same(d: seq<Byte>, e: seq<Byte>, x: nat)
    requires |d| == |e| > 0
  {
    QuotRem(x, |d|);
    e[Rem(x, |d|)] == d[Rem(x, |d|)]
  }

  ghost predicate Placed(d: seq<Byte>, a: nat, src: seq<Byte>, j: nat)
    requires |d| > 0
  {
    QuotRem(a + j, |d|);
    j < |src| && d[Rem(a + j, |d|)] == src[j]
  }

  lemma {:induction false} WindowIs(d: seq<Byte>, a: nat, src: seq<Byte>, n: nat)
    requires |d| > 0 && n <= |src| && forall j: nat {:trigger Placed(d, a, src, j)} :: j < n ==> Placed(d, a, src, j)
    ensures Window(d, a, n) == src[..n]
  {
    if n > 0 {
      WindowIs(d, a, src, n - 1);
      assert Placed(d, a, src, n - 1);
    }
  }

  /** The window after `src` was copied in behind it. */
  lemma Extended(was: seq<Byte>, now: seq<Byte>, H: nat, T: nat, src: seq<Byte>)
    requires |was| == |now| > 0 && H <= T && T + |src| < H + |was|
    requires Rem(T, |was|) < |was|
    requires forall i {:trigger now[i]} :: 0 <= i < |was| ==> now[i] == Overlaid(was, Rem(T, |was|), src, i)
    ensures Window(now, H, T + |src| - H) == Window(was, H, T - H) + src
  {
    hide Rem, Window, Overlaid;
    forall x: nat | H <= x < H + (T - H) ensures Same(was, now, x) { OverlaidAt(was, |was|, H, T, src, x); }
    WindowKept(was, now, H, T - H);
    forall j: nat | j < |src| ensures Placed(now, T, src, j) { OverlaidAt(was, |was|, H, T, src, T + j); }
    WindowIs(now, T, src, |src|);
    WindowSplit(now, H, T - H, T + |src| - H);
    assert src[..|src|] == src;
  }

  class RingBuffer {
    const cap: nat
    const data: array<Byte>
    var head: nat
    var tail: nat
    /** The counters without wrap-around. */
    ghost var first: nat
    ghost var last: nat

    ghost predicate Valid()
      reads this, data
    {
      cap >= 2 && Divides(cap, WORD) && data.Length == cap && head == first % WORD && tail == last % WORD &&
        first <= last < first + cap
    }

    /** `ring_on` for a capacity it has chosen. */
    constructor (size: nat)
      requires size >= 2 && Divides(size, WORD)
      ensures Valid() && fresh(data) && cap == size && Contents() == []
    {
      cap, head, tail, first, last := size, 0, 0, 0, 0;
      data := new Byte[size](_ => 0);
    }

    /** The bytes written and not yet read. */
    ghost function Contents(): (s: seq<Byte>)
      requires Valid()
      reads this, data
      ensures |s| == last - first < cap
    {
      WindowSize(data[..], first, last - first);
      Window(data[..], first, last - first)
    }

    /** `ring_write`: as much as fits is appended. */
    method Write(src: seq<Byte>) returns (len: nat)
      requires Valid()
      modifies this`tail, this`last, data
      ensures Valid() && len == Min(|src|, cap - 1 - |old(Contents())|) && Contents() == old(Contents()) + src[..len]
    {
      hide Fill, Divides, Rem, Window, Overlaid;
      ghost var bytes := data[..];
      WindowSize(bytes, first, last - first);
      FillIs(first, last, cap);
      FillRem(cap, head, tail);
      len := Min(|src|, cap - 1 - Fill(cap, head, tail));
      if len == 0 { return; }
      NestedRem(last, WORD, cap);
      QuotRem(last, cap);
      TailRem(last, cap, tail);
      CopyTo(data, Rem(tail, cap), src[..len]);
      AddMod(last, len);
      tail, last := (tail + len) % WORD, last + len;
      Extended(bytes, data[..], first, last - len, src[..len]);
    }

    /** `ring_read`: as much as is there, at most `want`, from the front. */
    method Read(want: nat) returns (buf: seq<Byte>)
      requires Valid()
      modifies this`head, this`first
      ensures Valid() && |buf| == Min(want, |old(Contents())|) && old(Contents()) == buf + Contents()
    {
      hide Fill, Divides, Rem, Window;
      ghost var bytes := data[..];
      WindowSize(bytes, first, last - first);
      FillIs(first, last, cap);
      FillRem(cap, head, tail);
      var n := Min(want, Fill(cap, head, tail));
      buf := [];
      WindowNone(bytes, first);
      NestedRem(first, WORD, cap);
      TailRem(first, cap, head);
      while |buf| < n
        invariant |buf| <= n && buf == Window(bytes, first, |buf|) && head == old(head) && first == old(first)
      {
        SlotIs(cap, first, |buf|);
        WindowMore(bytes, first, |buf|);
        buf := buf + [data[Slot(cap, head, |buf|)]];
      }
      AddMod(first, n);
      WindowSplit(bytes, first, n, last - first);
      head, first := (head + n) % WORD, first + n;
    }
  }

  lemma FillRem(cap: nat, head: nat, tail: nat)
    requires cap > 0
    ensures Fill(cap, head, tail) == Rem((tail - head) % WORD, cap)
  {
  }

  lemma TailRem(a: nat, cap: nat, at: nat)
    requires cap > 0 && at == a % WORD && Rem(Rem(a, WORD), cap) == Rem(a, cap)
    ensures Rem(at, cap) == Rem(a, cap)
  {
  }
}
