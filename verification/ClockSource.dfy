/** Clock sources: choosing mult and shift, the registry sorted by rating, and the nanosecond count that survives
    counter wrap. */
module ClockSource {
  import opened Arith

  lemma {:induction false} Pow2Add(a: nat, b: nat)
    ensures Pow2(a + b) == Pow2(a) * Pow2(b)
  {
    if b > 0 {
      Pow2Add(a, b - 1);
      Doubled(Pow2(a), Pow2(b - 1));
    }
  }

  lemma Doubled(a: nat, b: nat)
    ensures 2 * (a * b) == a * (2 * b)
  {
  }

  lemma Pow2Words()
    ensures Pow2(32) == WORD && Pow2(64) == DWORD
  {
    assert Pow2(8) == 256;
    Pow2Add(8, 8);
    Pow2Add(16, 16);
    Pow2Add(32, 32);
  }

  // ----- choosing mult and shift -----

  function BitLen(x: nat): nat { if x == 0 then 0 else 1 + BitLen(x / 2) }

  /** The number of bits bounds the number from above, and no fewer bits would. */
  lemma {:induction false} BitLenIs(x: nat)
    ensures x < Pow2(BitLen(x)) && (x > 0 ==> Pow2(BitLen(x) - 1) <= x)
  {
    if x > 0 { BitLenIs(x / 2); }
  }

  lemma {:induction false} BitLenAtMost(x: nat, n: nat)
    requires x < Pow2(n)
    ensures BitLen(x) <= n
  {
    if x > 0 { BitLenAtMost(x / 2, n - 1); }
  }

  /** The upper word of the 64-bit product of the longest interval and the frequency. */
  function Upper(from: nat, maxSec: nat): nat { Quot(Rem(maxSec * from, DWORD), WORD) }

  /** The multiplier may have as many bits as 32 exceeds those of the upper half of the longest interval in cycles,
      which is computed in 64 bits. */
  lemma AccIs(from: nat, maxSec: nat)
    ensures Acc(from, maxSec) <= 32
    ensures var cycles := maxSec * from % 0x1_0000_0000_0000_0000; var acc := Acc(from, maxSec);
      && (cycles < 0x1_0000_0000 <==> acc == 32)
      && (acc < 32 ==> Pow2(31 - acc) <= cycles / 0x1_0000_0000 < Pow2(32 - acc))
  {
    UpperFits(from, maxSec);
    BitLenIs(Upper(from, maxSec));
  }

  lemma UpperFits(from: nat, maxSec: nat)
    ensures Upper(from, maxSec) < WORD && BitLen(Upper(from, maxSec)) <= 32
  {
    var w := Rem(maxSec * from, DWORD);
    QuotRem(maxSec * from, DWORD);
    QuotRem(w, WORD);
    Pow2Words();
    BitLenAtMost(Upper(from, maxSec), 32);
  }

  /** How many bits the multiplier may have. */
  function Acc(from: nat, maxSec: nat): (acc: nat)
    ensures acc <= 32
  {
    UpperFits(from, maxSec);
    32 - BitLen(Upper(from, maxSec))
  }

  /** The multiplier for one shift, in 64-bit arithmetic. */
  function Scaled(from: nat, to: nat, s: nat): nat
    requires from > 0
  {
    Quot(Rem(Rem(to * Pow2(s), DWORD) + from / 2, DWORD), from)
  }

  /** The largest shift up to `s` whose multiplier has at most `acc` bits; 0 if there is none. */
  function Pick(from: nat, to: nat, acc: nat, s: nat): nat
    requires from > 0
  {
    if s == 0 then 0 else if Scaled(from, to, s) < Pow2(acc) then s else Pick(from, to, acc, s - 1)
  }

  lemma {:induction false} PickIs(from: nat, to: nat, acc: nat, s: nat)
    requires from > 0
    ensures var p := Pick(from, to, acc, s);
            && p <= s && (p > 0 ==> Scaled(from, to, p) < Pow2(acc))
            && forall t: nat :: p < t <= s ==> Scaled(from, to, t) >= Pow2(acc)
  {
    if s > 0 && Scaled(from, to, s) >= Pow2(acc) { PickIs(from, to, acc, s - 1); }
  }

  function ShiftOf(from: nat, to: nat, maxSec: nat): nat
    requires from > 0
  {
    Pick(from, to, Acc(from, maxSec), 32)
  }

  /** When no shift fits, the loop leaves the multiplier of shift 1 behind. */
  function MultOf(from: nat, to: nat, maxSec: nat): nat
    requires from > 0
  {
    var s := ShiftOf(from, to, maxSec);
    Rem(Scaled(from, to, if s == 0 then 1 else s), WORD)
  }

  /** `clocksource_calc_mult_shift`. */
  method CalcMultShift(from: nat, to: nat, maxSec: nat) returns (mult: nat, shift: nat)
    requires from > 0
    ensures mult == MultOf(from, to, maxSec) && shift == ShiftOf(from, to, maxSec)
  {
    hide Pow2;
    UpperFits(from, maxSec);
    var tmp: nat := maxSec * from % DWORD / WORD;
    ghost var upper := tmp;
    var sftacc := 32;
    while tmp != 0
      invariant sftacc - BitLen(tmp) == 32 - BitLen(upper)
    {
      tmp := tmp / 2;
      sftacc := sftacc - 1;
    }
    shift := 32;
    while shift > 0
      invariant shift <= 32 && sftacc == Acc(from, maxSec)
      invariant shift < 32 ==> tmp == Scaled(from, to, shift + 1)
      invariant ShiftOf(from, to, maxSec) == Pick(from, to, sftacc, shift)
    {
      tmp := ((to * Pow2(shift) % DWORD + from / 2) % DWORD) / from;
      ShiftRight(tmp, sftacc);
      if tmp / Pow2(sftacc) == 0 { break; }
      shift := shift - 1;
    }
    mult := tmp % WORD;
  }

  lemma ShiftRight(x: nat, n: nat)
    ensures x / Pow2(n) == 0 <==> x < Pow2(n)
  {
    var p := Pow2(n);
    QuotRem(x, p);
    var q := Quot(x, p);
    if q > 0 { MulMono(1, q, p); }
  }

  /** When a shift was found, the multiplier is the one of that shift and has at most Acc bits. */
  lemma MultFits(from: nat, to: nat, maxSec: nat)
    requires from > 0 && ShiftOf(from, to, maxSec) > 0
    ensures MultOf(from, to, maxSec) == Scaled(from, to, ShiftOf(from, to, maxSec)) < Pow2(Acc(from, maxSec)) <= WORD
  {
    var acc, s := Acc(from, maxSec), ShiftOf(from, to, maxSec);
    PickIs(from, to, acc, 32);
    Pow2Mono(acc, 32);
    Pow2Words();
    DivMod(0, WORD, Scaled(from, to, s));
  }

  /** The longest interval has at most 64 - Acc bits, if its cycles can be counted in 64. */
  lemma CyclesFit(from: nat, maxSec: nat)
    requires maxSec * from < DWORD
    ensures maxSec * from < Pow2(64 - Acc(from, maxSec))
  {
    hide Pow2, BitLen;
    var total := maxSec * from;
    DivMod(0, DWORD, total);
    var upper := Upper(from, maxSec);
    QuotRem(total, WORD);
    BitLenIs(upper);
    Pow2Words();
    Pow2Add(BitLen(upper), 32);
    MulMono(upper + 1, Pow2(BitLen(upper)), WORD);
    UpperFits(from, maxSec);
  }

  lemma Below(a: nat, x: nat, b: nat, y: nat)
    requires a < x && b < y
    ensures a * b < x * y
  {
    MulMono(a, x, b);
    assert x * b <= x * (y - 1) == x * y - x;
  }

  predicate Counted(cycles: nat, limit: nat) { cycles < DWORD && cycles <= limit }

  /** The promise of the search: scaling any number of cycles up to the longest interval stays within 64 bits. */
  ghost predicate NeverOverflows(from: nat, to: nat, maxSec: nat)
    requires from > 0
  {
    forall cycles: nat :: Counted(cycles, maxSec * from) ==> cycles * MultOf(from, to, maxSec) < DWORD
  }

  /** With a shift found, the promise is kept exactly if the longest interval itself can be counted in 64 bits, or the
      multiplier is too small to matter. */
  lemma OverflowIff(from: nat, to: nat, maxSec: nat)
    requires from > 0 && ShiftOf(from, to, maxSec) > 0
    ensures NeverOverflows(from, to, maxSec) <==> maxSec * from < DWORD || MultOf(from, to, maxSec) <= 1
  {
    hide Pow2, MultOf, ShiftOf, Scaled, Acc;
    var mult, acc := MultOf(from, to, maxSec), Acc(from, maxSec);
    if maxSec * from < DWORD {
      MultFits(from, to, maxSec);
      CyclesFit(from, maxSec);
      Pow2Words();
      Pow2Add(64 - acc, acc);
      forall cycles: nat | Counted(cycles, maxSec * from) ensures cycles * mult < DWORD {
        Below(cycles, Pow2(64 - acc), mult, Pow2(acc));
      }
    } else if mult > 1 {
      var half: nat := 0x8000_0000_0000_0000;
      assert Counted(half, maxSec * from);
      MulMono(2, mult, half);
    }
  }

  predicate Near(error: int, unit: nat) { 0 - unit <= 2 * error <= unit }

  /** Scaling by mult and shift is off by at most half a unit of the last place for every cycle: |cycles * mult / 2^s -
      cycles * to / from| <= cycles / 2^(s + 1), multiplied out. */
  predicate Accurate(from: nat, to: nat, mult: nat, s: nat, cycles: nat) {
    Near(cycles * (mult * from) - cycles * (to * Pow2(s)), cycles * from)
  }

  lemma ScaledIs(from: nat, to: nat, s: nat)
    requires from > 0
    ensures Scaled(from, to, s) == Quot(Rem(to * Pow2(s) + from / 2, DWORD), from)
  {
    var x := to * Pow2(s);
    QuotRem(x, DWORD);
    RemShift(Rem(x, DWORD) + from / 2, Quot(x, DWORD), DWORD);
  }

  lemma Rounding(x: nat, from: nat)
    requires 0 < from < DWORD
    ensures Near(Quot(Rem(x + from / 2, DWORD), from) * from - x, from) <==> x + from / 2 < DWORD
  {
    hide Quot, Rem;
    var r := Rem(x + from / 2, DWORD);
    QuotRem(x + from / 2, DWORD);
    QuotRem(r, from);
    Distribute(Quot(r, from), 0, from);
    if Quot(x + from / 2, DWORD) > 0 { MulMono(1, Quot(x + from / 2, DWORD), DWORD); }
  }

  /** A multiplier is right to half a unit exactly if its computation did not wrap. */
  lemma RoundedIff(from: nat, to: nat, s: nat)
    requires 0 < from < DWORD
    ensures Near(Scaled(from, to, s) * from - to * Pow2(s), from) <==> to * Pow2(s) + from / 2 < DWORD
  {
    hide Scaled, Rem, Quot, Near;
    ScaledIs(from, to, s);
    Rounding(to * Pow2(s), from);
  }

  lemma ScaleUp(c: nat, a: nat, b: nat, f: nat)
    requires Near(a - b, f)
    ensures Near(c * a - c * b, c * f)
  {
    assert c * (f - 2 * (a - b)) >= 0 && c * (f + 2 * (a - b)) >= 0;
  }

  /** With a shift found, every number of cycles is scaled to within half a unit per cycle exactly if the computation
      of the multiplier did not wrap. */
  lemma AccurateIff(from: nat, to: nat, maxSec: nat)
    requires 0 < from < DWORD && ShiftOf(from, to, maxSec) > 0
    ensures (forall cycles: nat :: Accurate(from, to, MultOf(from, to, maxSec), ShiftOf(from, to, maxSec), cycles))
       <==> to * Pow2(ShiftOf(from, to, maxSec)) + from / 2 < DWORD
  {
    hide ShiftOf, MultOf, Scaled, Near, Pow2, Acc;
    var s, m := ShiftOf(from, to, maxSec), MultOf(from, to, maxSec);
    MultFits(from, to, maxSec);
    RoundedIff(from, to, s);
    if Near(m * from - to * Pow2(s), from) {
      forall cycles: nat ensures Accurate(from, to, m, s, cycles) {
        ScaleUp(cycles, m * from, to * Pow2(s), from);
      }
    } else {
      assert !Accurate(from, to, m, s, 1);
    }
  }

  lemma NoWrap(from: nat, to: nat, s: nat)
    requires from > 0 && to * Pow2(s) + from / 2 < DWORD
    ensures Scaled(from, to, s) == Quot(to * Pow2(s) + from / 2, from)
  {
    ScaledIs(from, to, s);
    DivMod(0, DWORD, to * Pow2(s) + from / 2);
  }

  lemma Order(to: nat, a: nat, b: nat)
    requires a <= b
    ensures to * a <= to * b
  {
    MulMono(a, b, to);
  }

  lemma ScaledMono(from: nat, to: nat, s: nat, t: nat)
    requires from > 0 && s <= t && to * Pow2(t) + from / 2 < DWORD
    ensures Scaled(from, to, s) <= Scaled(from, to, t)
  {
    hide Pow2, Scaled, Quot;
    Pow2Mono(s, t);
    Order(to, Pow2(s), Pow2(t));
    NoWrap(from, to, s);
    NoWrap(from, to, t);
    QuotMono(to * Pow2(s) + from / 2, to * Pow2(t) + from / 2, from);
  }

  /** If no shift wraps, a shift is found exactly if shift 1 fits. */
  lemma FoundIff(from: nat, to: nat, acc: nat, n: nat)
    requires from > 0 && n > 0 && to * Pow2(n) + from / 2 < DWORD
    ensures Pick(from, to, acc, n) > 0 <==> Scaled(from, to, 1) < Pow2(acc)
  {
    hide Pow2, Scaled, Pick;
    var s := Pick(from, to, acc, n);
    PickIs(from, to, acc, n);
    Pow2Mono(s, n);
    Order(to, Pow2(s), Pow2(n));
    if s > 0 { ScaledMono(from, to, 1, s); }
  }

  // ----- the same over the arguments alone

  /** No shift up to 32 wraps. */
  predicate NoneWraps(from: nat, to: nat) { to * WORD + from / 2 < DWORD }

  /** The multiplier of shift 1 fits. */
  predicate OneFits(from: nat, to: nat, maxSec: nat)
    requires from > 0
  {
    Quot(2 * to + from / 2, from) < Pow2(Acc(from, maxSec))
  }

  lemma Unwrapped(from: nat, to: nat, s: nat)
    requires from > 0 && NoneWraps(from, to) && s <= 32
    ensures to * Pow2(s) + from / 2 < DWORD && Scaled(from, to, s) == Quot(to * Pow2(s) + from / 2, from)
  {
    hide Pow2, Scaled, Quot;
    Pow2Words();
    Pow2Mono(s, 32);
    Order(to, Pow2(s), Pow2(32));
    NoWrap(from, to, s);
  }

  /** For arguments that do not wrap: a shift is found and scales every number of cycles to within half a unit per
      cycle if and only if the multiplier of shift 1 fits. */
  lemma UsableIff(from: nat, to: nat, maxSec: nat)
    requires 0 < from < DWORD && NoneWraps(from, to)
    ensures ShiftOf(from, to, maxSec) > 0 <==> OneFits(from, to, maxSec)
    ensures (ShiftOf(from, to, maxSec) > 0
             && forall cycles: nat :: Accurate(from, to, MultOf(from, to, maxSec), ShiftOf(from, to, maxSec), cycles))
       <==> OneFits(from, to, maxSec)
  {
    hide ShiftOf, OneFits, NoneWraps, Accurate, MultOf, Pow2;
    FitsFirst(from, to, maxSec);
    if ShiftOf(from, to, maxSec) > 0 {
      ShiftUnwrapped(from, to, maxSec);
      AccurateIff(from, to, maxSec);
    }
  }

  lemma ShiftUnwrapped(from: nat, to: nat, maxSec: nat)
    requires from > 0 && NoneWraps(from, to)
    ensures to * Pow2(ShiftOf(from, to, maxSec)) + from / 2 < DWORD
  {
    hide Scaled, Quot, Pick, Acc, Pow2, NoneWraps;
    PickIs(from, to, Acc(from, maxSec), 32);
    Unwrapped(from, to, ShiftOf(from, to, maxSec));
  }

  lemma FitsFirst(from: nat, to: nat, maxSec: nat)
    requires from > 0 && NoneWraps(from, to)
    ensures ShiftOf(from, to, maxSec) > 0 <==> OneFits(from, to, maxSec)
  {
    hide Scaled, Quot, Pick, Acc, Pow2, NoneWraps;
    Unwrapped(from, to, 1);
    Unwrapped(from, to, 32);
    Pow2Next(0);
    FoundIff(from, to, Acc(from, maxSec), 32);
  }

  lemma Pow2Next(n: nat)
    ensures Pow2(n + 1) == 2 * Pow2(n) && (n == 0 ==> Pow2(n) == 1)
  {
  }

  lemma Doubling(x: nat, from: nat)
    requires from > 0
    ensures Quot(2 * x + from / 2, from) <= 2 * Quot(x + from / 2, from) + 1
  {
    var q, p := Quot(x + from / 2, from), Quot(2 * x + from / 2, from);
    QuotRem(x + from / 2, from);
    QuotRem(2 * x + from / 2, from);
    Distribute(2 * q, 2, from);
    Regroup(2, q, from);
    if p >= 2 * q + 2 { MulMono(2 * q + 2, p, from); }
  }

  /** The multiplier found is at most 1 if and only if it may have one bit at most or even shift 32 gives no more. */
  lemma TinyIff(from: nat, to: nat, maxSec: nat)
    requires 0 < from < DWORD && NoneWraps(from, to) && OneFits(from, to, maxSec)
    ensures ShiftOf(from, to, maxSec) > 0
    ensures MultOf(from, to, maxSec) <= 1 <==> Acc(from, maxSec) <= 1 || to * WORD + from / 2 < 2 * from
  {
    hide Scaled, Quot, Pick, MultOf, Accurate, Acc, OneFits, Pow2;
    var acc, s := Acc(from, maxSec), ShiftOf(from, to, maxSec);
    UsableIff(from, to, maxSec);
    MultFits(from, to, maxSec);
    PickIs(from, to, acc, 32);
    AtMostOne(from, to);
    SmallPowers(acc);
    if s < 32 {
      assert Scaled(from, to, s + 1) >= Pow2(acc);
      Halved(from, to, s);
      ScaledMono(from, to, s + 1, 32);
    }
  }

  lemma SmallPowers(acc: nat)
    ensures acc <= 1 <==> Pow2(acc) <= 2
    ensures acc >= 2 <==> Pow2(acc) >= 4
  {
  }

  lemma Halved(from: nat, to: nat, s: nat)
    requires 0 < from && NoneWraps(from, to) && s < 32
    ensures Scaled(from, to, s + 1) <= 2 * Scaled(from, to, s) + 1 && to * Pow2(32) + from / 2 < DWORD
  {
    hide Scaled, Quot, Pow2, NoneWraps;
    Unwrapped(from, to, s);
    Unwrapped(from, to, s + 1);
    Unwrapped(from, to, 32);
    Pow2Next(s);
    Doubled(to, Pow2(s));
    Doubling(to * Pow2(s), from);
  }

  lemma AtMostOne(from: nat, to: nat)
    requires 0 < from && NoneWraps(from, to)
    ensures Scaled(from, to, 32) <= 1 <==> to * WORD + from / 2 < 2 * from
  {
    hide Scaled, Pow2;
    Pow2Words();
    Unwrapped(from, to, 32);
    var x := to * WORD + from / 2;
    QuotRem(x, from);
    if Quot(x, from) >= 2 { MulMono(2, Quot(x, from), from); } else { MulMono(Quot(x, from), 1, from); }
  }

  /** ... and then nothing up to the longest interval overflows if and only if that interval fits 64 bits or the
      multiplier is at most 1. */
  lemma SafeIff(from: nat, to: nat, maxSec: nat)
    requires 0 < from < DWORD && NoneWraps(from, to) && OneFits(from, to, maxSec)
    ensures NeverOverflows(from, to, maxSec) <==>
      maxSec * from < DWORD || Acc(from, maxSec) <= 1 || to * WORD + from / 2 < 2 * from
  {
    hide Scaled, Quot, MultOf, ShiftOf, Acc, OneFits, NeverOverflows;
    TinyIff(from, to, maxSec);
    OverflowIff(from, to, maxSec);
  }

  /** A target frequency of 2^32 wraps at shift 32, which then seems to fit: the multiplier is 0. */
  lemma WrapsToZero()
    ensures ShiftOf(1, WORD, 1) == 32 && MultOf(1, WORD, 1) == 0
    ensures exists cycles: nat :: !Accurate(1, WORD, MultOf(1, WORD, 1), ShiftOf(1, WORD, 1), cycles)
  {
    hide ShiftOf, MultOf, Accurate;
    Pow2Words();
    assert Upper(1, 1) == 0;
    assert Acc(1, 1) == 32;
    assert Scaled(1, WORD, 32) == 0;
    WrapsFirst(1, WORD, 1);
  }

  /** A wrapped shift 32 that seems to fit is taken, and is wrong. */
  lemma WrapsFirst(from: nat, to: nat, maxSec: nat)
    requires 0 < from < DWORD && !NoneWraps(from, to) && Scaled(from, to, 32) < Pow2(Acc(from, maxSec))
    ensures ShiftOf(from, to, maxSec) == 32 && MultOf(from, to, maxSec) == Scaled(from, to, 32)
    ensures exists cycles: nat :: !Accurate(from, to, MultOf(from, to, maxSec), ShiftOf(from, to, maxSec), cycles)
  {
    hide ShiftOf, MultOf, Scaled, Accurate, Acc, Pow2;
    Pow2Words();
    PickFirst(from, to, maxSec);
    MultFits(from, to, maxSec);
    AccurateIff(from, to, maxSec);
  }

  /** If shift 32 fits, it is taken. */
  lemma PickFirst(from: nat, to: nat, maxSec: nat)
    requires from > 0 && Scaled(from, to, 32) < Pow2(Acc(from, maxSec))
    ensures ShiftOf(from, to, maxSec) == 32
  {
    hide Pow2, Scaled, Acc;
  }

  /** An interval of 2^64 cycles wraps to none at all: the multiplier may have 32 bits, and half the interval
      overflows. */
  lemma IntervalWraps()
    ensures ShiftOf(2 * WORD, 1_000_000_000, 0x8000_0000) == 32
    ensures MultOf(2 * WORD, 1_000_000_000, 0x8000_0000) == 500_000_000
    ensures !NeverOverflows(2 * WORD, 1_000_000_000, 0x8000_0000)
  {
    var from, to, maxSec := 2 * WORD, 1_000_000_000, 0x8000_0000;
    Pow2Words();
    assert maxSec * from == DWORD;
    assert Upper(from, maxSec) == 0;
    assert Acc(from, maxSec) == 32;
    assert Scaled(from, to, 32) == 500_000_000;
    PickFirst(from, to, maxSec);
    OverflowIff(from, to, maxSec);
  }

  /** A frequency ratio whose multiplier does not fit at shift 1: the search runs out and leaves the truncated
      multiplier of shift 1 together with shift 0. */
  lemma RunsOut()
    ensures ShiftOf(1, 3_000_000_000, 1) == 0 && MultOf(1, 3_000_000_000, 1) == 6_000_000_000 - WORD
    ensures !Accurate(1, 3_000_000_000, MultOf(1, 3_000_000_000, 1), 0, 1)
  {
    var from, to, maxSec := 1, 3_000_000_000, 1;
    Pow2Words();
    assert Upper(from, maxSec) == 0;
    assert Acc(from, maxSec) == 32;
    NoWrap(from, to, 1);
    assert Pow2(1) == 2;
    FoundIff(from, to, 32, 32);
    DivMod(1, WORD, 6_000_000_000 - WORD);
  }

  // ----- reading nanoseconds -----

  /** A clock source; its counter has `width` bits, so masking is the remainder by Period. */
  datatype Source = Source(id: nat, rating: int, width: nat, mult: nat, shift: nat)

  function Period(cs: Source): (p: nat)
    ensures p > 0
  {
    Pow2(cs.width)
  }

  /** Cycles since the last read, in 64-bit arithmetic and then masked. */
  function Delta(cs: Source, last: nat, raw: nat): nat
    requires last <= DWORD
  {
    Rem(Rem(Rem(raw, Period(cs)) + (DWORD - last), DWORD), Period(cs))
  }

  function Scale(cs: Source, delta: nat): nat { Quot(Rem(delta * cs.mult, DWORD), Pow2(cs.shift)) }

  function NextNs(cs: Source, last: nat, base: nat, raw: nat): nat
    requires last <= DWORD
  {
    Rem(base + Scale(cs, Delta(cs, last, raw)), DWORD)
  }

  lemma PeriodDivides(cs: Source)
    requires cs.width <= 64
    ensures Divides(Period(cs), DWORD) && DWORD == Pow2(64 - cs.width) * Period(cs)
  {
    Pow2Words();
    Pow2Add(64 - cs.width, cs.width);
    DivMod(Pow2(64 - cs.width), Period(cs), 0);
  }

  /** The low bits of two readings give the true advance modulo the period, also across a wrap of the counter; hence
      the advance itself exactly if it is less than a period. */
  lemma DeltaIs(cs: Source, prev: nat, count: nat, raw: nat)
    requires cs.width <= 64 && prev <= count && Rem(raw, Period(cs)) == Rem(count, Period(cs))
    ensures Rem(prev, Period(cs)) < DWORD
    ensures Delta(cs, Rem(prev, Period(cs)), raw) == Rem(count - prev, Period(cs))
    ensures Delta(cs, Rem(prev, Period(cs)), raw) == count - prev <==> count - prev < Period(cs)
  {
    hide Pow2, Period, Rem, Quot, Divides;
    var n := Period(cs);
    var k := Pow2(64 - cs.width);
    PeriodDivides(cs);
    QuotRem(prev, n);
    QuotRem(count, n);
    QuotRem(count - prev, n);
    var qp, qc := Quot(prev, n), Quot(count, n);
    QuotMono(prev, count, n);
    MulMono(1, k, n);
    var a := Rem(count, n) + (DWORD - Rem(prev, n));
    NestedRem(a, DWORD, n);
    Distribute(qp, qc - qp, n);
    assert a + (qc - qp) * n == (count - prev) + k * n;
    RemShift(a, qc - qp, n);
    RemShift(count - prev, k, n);
    SmallRem(count - prev, n);
  }

  /** The counter moves on by less than a period, and by no more than can be scaled in 64 bits. */
  predicate Gap(cs: Source, prev: nat, count: nat) {
    prev <= count < prev + Period(cs) && (count - prev) * cs.mult < DWORD
  }

  /** The last count of a run. */
  function Last(start: nat, counts: seq<nat>): nat { if counts == [] then start else counts[|counts| - 1] }

  ghost predicate Steady(cs: Source, start: nat, counts: seq<nat>) {
    counts == [] || (Gap(cs, Last(start, Front(counts)), Last(start, counts)) && Steady(cs, start, Front(counts)))
  }

  function Front<T>(s: seq<T>): seq<T>
    requires s != []
  {
    s[..|s| - 1]
  }

  /** The readings are the low bits of the counts. */
  predicate Sampled(cs: Source, counts: seq<nat>, raws: seq<nat>) {
    |counts| == |raws| && forall i :: 0 <= i < |raws| ==> Rem(raws[i], Period(cs)) == Rem(counts[i], Period(cs))
  }

  /** The last masked reading and the nanosecond count after reads. */
  function After(cs: Source, last: nat, base: nat, raws: seq<nat>): (r: (nat, nat))
    requires cs.width <= 64 && last < Period(cs)
    ensures r.0 < Period(cs)
  {
    if raws == [] then (last, base)
    else
      var raw := raws[|raws| - 1];
      var (l, b) := After(cs, last, base, Front(raws));
      Masked(cs, raw, l);
      (Rem(raw, Period(cs)), NextNs(cs, l, b, raw))
  }

  lemma Masked(cs: Source, raw: nat, last: nat)
    requires cs.width <= 64 && last < Period(cs)
    ensures Rem(raw, Period(cs)) < Period(cs) && last < DWORD
  {
    QuotRem(raw, Period(cs));
    PeriodDivides(cs);
    MulMono(1, Pow2(64 - cs.width), Period(cs));
  }

  /** What the count lags behind the exact total of scaled cycles, in units of 2^-shift nanoseconds. */
  function Behind(cs: Source, cycles: nat, ns: nat): int { cycles * cs.mult - ns * Pow2(cs.shift) }

  lemma ScaleBehind(cs: Source, d: nat)
    requires d * cs.mult < DWORD
    ensures 0 <= Behind(cs, d, Scale(cs, d)) < Pow2(cs.shift)
  {
    SmallRem(d * cs.mult, DWORD);
    QuotRem(d * cs.mult, Pow2(cs.shift));
  }

  lemma BehindAdds(cs: Source, c: nat, d: nat, n: nat, e: nat)
    ensures Behind(cs, c + d, n + e) == Behind(cs, c, n) + Behind(cs, d, e)
  {
    Distribute(c, d, cs.mult);
    Distribute(n, e, Pow2(cs.shift));
  }

  lemma Fits(cs: Source, cycles: nat, ns: nat, limit: nat)
    requires 0 <= Behind(cs, cycles, ns) && cycles * cs.mult < limit * Pow2(cs.shift)
    ensures ns < limit
  {
    var p := Pow2(cs.shift);
    if ns >= limit { MulMono(limit, ns, p); }
  }

  /** One read: the clock does not go back, and loses less than a nanosecond. */
  lemma ReadStep(cs: Source, start: nat, prev: nat, count: nat, raw: nat, ns: nat)
    requires cs.width <= 64 && start <= prev && Gap(cs, prev, count)
    requires Rem(raw, Period(cs)) == Rem(count, Period(cs))
    requires 0 <= Behind(cs, prev - start, ns) && (count - start) * cs.mult < DWORD * Pow2(cs.shift)
    ensures Rem(prev, Period(cs)) < DWORD
    ensures var next := NextNs(cs, Rem(prev, Period(cs)), ns, raw);
            ns <= next && 0 <= Behind(cs, count - start, next) - Behind(cs, prev - start, ns) < Pow2(cs.shift)
  {
    hide Rem, Quot, Pow2, Period, Scale, Delta, Behind;
    DeltaIs(cs, prev, count, raw);
    var d := count - prev;
    ScaleBehind(cs, d);
    BehindAdds(cs, prev - start, d, ns, Scale(cs, d));
    Fits(cs, count - start, ns + Scale(cs, d), DWORD);
    SmallRem(ns + Scale(cs, d), DWORD);
  }

  /** Between registry changes, after k reads the count lags the exact scaled total by less than k nanoseconds, however
      often the counter wrapped, and no read is below an earlier one. */
  lemma {:induction false} Lag(cs: Source, start: nat, counts: seq<nat>, raws: seq<nat>)
    requires cs.width <= 64 && Steady(cs, start, counts) && Sampled(cs, counts, raws)
    requires Last(start, counts) >= start ==> (Last(start, counts) - start) * cs.mult < DWORD * Pow2(cs.shift)
    ensures Rem(start, Period(cs)) < Period(cs) && start <= Last(start, counts)
    ensures var (l, ns) := After(cs, Rem(start, Period(cs)), 0, raws);
            && l == Rem(Last(start, counts), Period(cs))
            && 0 <= Behind(cs, Last(start, counts) - start, ns) <= |raws| * (Pow2(cs.shift) - 1)
            && (raws != [] ==> After(cs, Rem(start, Period(cs)), 0, Front(raws)).1 <= ns)
  {
    hide Rem, Quot, Pow2, Period, Scale, Delta, Behind, NextNs, Gap;
    QuotRem(start, Period(cs));
    if raws == [] {
      NoneBehind(cs);
    } else {
      var n := |raws| - 1;
      var prev, count := Last(start, Front(counts)), Last(start, counts);
      GapOrder(cs, prev, count);
      StartBelow(cs, start, Front(counts));
      MulMono(prev - start, count - start, cs.mult);
      Lag(cs, start, Front(counts), Front(raws));
      var ns := After(cs, Rem(start, Period(cs)), 0, Front(raws)).1;
      assert Rem(raws[n], Period(cs)) == Rem(counts[n], Period(cs));
      ReadStep(cs, start, prev, count, raws[n], ns);
      Distribute(n, 1, Pow2(cs.shift) - 1);
    }
  }

  lemma NoneBehind(cs: Source)
    ensures Behind(cs, 0, 0) == 0
  {
  }

  lemma GapOrder(cs: Source, prev: nat, count: nat)
    requires Gap(cs, prev, count)
    ensures prev <= count
  {
  }

  lemma {:induction false} StartBelow(cs: Source, start: nat, counts: seq<nat>)
    requires Steady(cs, start, counts)
    ensures start <= Last(start, counts)
  {
    if counts != [] { StartBelow(cs, start, Front(counts)); }
  }

  /** The source as its driver sets it up for `to` units per second. */
  predicate Calibrated(cs: Source, from: nat, to: nat, maxSec: nat) {
    && 0 < from < DWORD && maxSec * from < DWORD && NoneWraps(from, to) && OneFits(from, to, maxSec)
    && cs.mult == MultOf(from, to, maxSec) && cs.shift == ShiftOf(from, to, maxSec)
  }

  /** For a calibrated source, reads that are at most the longest interval and less than a counter period apart can be
      scaled in 64 bits. */
  lemma CalibratedGap(cs: Source, from: nat, to: nat, maxSec: nat, prev: nat, count: nat)
    requires Calibrated(cs, from, to, maxSec) && prev <= count < prev + Period(cs) && count - prev <= maxSec * from
    ensures Gap(cs, prev, count)
  {
    hide MultOf, ShiftOf, Pow2, Period, OneFits;
    SafeIff(from, to, maxSec);
    assert Counted(count - prev, maxSec * from);
  }

  /** The true time of `cycles` is cycles * to / from.  A calibrated source is ahead of it by at most cycles / 2^(shift
      + 1) and, after k reads, behind it by less than that and k; both multiplied out. */
  lemma TracksTime(cs: Source, from: nat, to: nat, maxSec: nat, start: nat, counts: seq<nat>, raws: seq<nat>)
    requires Calibrated(cs, from, to, maxSec)
    requires cs.width <= 64 && Steady(cs, start, counts) && Sampled(cs, counts, raws)
    requires Last(start, counts) >= start ==> (Last(start, counts) - start) * cs.mult < DWORD * Pow2(cs.shift)
    ensures Rem(start, Period(cs)) < Period(cs) && start <= Last(start, counts)
    ensures var ns := After(cs, Rem(start, Period(cs)), 0, raws).1;
            var cycles := Last(start, counts) - start;
            var ahead := (ns * Pow2(cs.shift)) * from - cycles * (to * Pow2(cs.shift));
            && 2 * ahead <= cycles * from
            && 2 * ahead >= 0 - cycles * from - 2 * ((|raws| * (Pow2(cs.shift) - 1)) * from)
  {
    hide Calibrated, Pow2, Period, Rem, After, Steady, Sampled, Near;
    Lag(cs, start, counts, raws);
    var ns := After(cs, Rem(start, Period(cs)), 0, raws).1;
    var cycles := Last(start, counts) - start;
    AccurateNear(cs, from, to, maxSec, cycles);
    Combine(cycles, cs.mult, ns * Pow2(cs.shift), |raws| * (Pow2(cs.shift) - 1), from, cycles * (to * Pow2(cs.shift)));
  }

  lemma AccurateNear(cs: Source, from: nat, to: nat, maxSec: nat, cycles: nat)
    requires Calibrated(cs, from, to, maxSec)
    ensures Near(cycles * (cs.mult * from) - cycles * (to * Pow2(cs.shift)), cycles * from)
  {
    hide MultOf, ShiftOf, Pow2, Near, OneFits;
    UsableIff(from, to, maxSec);
    assert Accurate(from, to, cs.mult, cs.shift, cycles);
  }

  lemma Combine(cycles: nat, mult: nat, units: nat, most: nat, from: nat, exact: nat)
    requires 0 <= cycles * mult - units <= most && Near(cycles * (mult * from) - exact, cycles * from)
    ensures 2 * (units * from - exact) <= cycles * from
    ensures 2 * (units * from - exact) >= 0 - cycles * from - 2 * (most * from)
  {
    var lost := cycles * mult - units;
    assert cycles * (mult * from) == units * from + lost * from by {
      Distribute(units, lost, from);
      assert cycles * (mult * from) == (cycles * mult) * from;
    }
    MulMono(lost, most, from);
  }

  // ----- the registry -----

  ghost predicate Sorted(list: seq<Source>) {
    forall i, j :: 0 <= i < j < |list| ==> list[i].rating >= list[j].rating
  }

  /** The place of a new source: after all those rated at least as high, before the others. */
  predicate PlaceOf(list: seq<Source>, rating: int, i: nat) {
    && i <= |list|
    && (forall k :: 0 <= k < i ==> list[k].rating >= rating)
    && (forall k :: i <= k < |list| ==> list[k].rating < rating)
  }

  /** What the next read returns. */
  function Reading(list: seq<Source>, last: nat, base: nat, raw: nat): nat
    requires list != [] ==> list[0].width <= 64 && last < Period(list[0])
  {
    if list == [] then 0 else After(list[0], last, base, [raw]).1
  }

  /** A read at the count of the last one returns the base. */
  lemma ReadsBase(cs: Source, raw: nat, base: nat)
    requires cs.width <= 64 && base < DWORD
    ensures Rem(raw, Period(cs)) < Period(cs) && After(cs, Rem(raw, Period(cs)), base, [raw]).1 == base
  {
    Masked(cs, raw, 0);
    DeltaIs(cs, raw, raw, raw);
    assert Front([raw]) == [];
    assert After(cs, Rem(raw, Period(cs)), base, []) == (Rem(raw, Period(cs)), base);
    SmallRem(0, Period(cs));
    NoAdvance(cs);
    SmallRem(base, DWORD);
  }

  lemma NoAdvance(cs: Source)
    ensures Scale(cs, 0) == 0
  {
    SmallRem(0, DWORD);
    QuotRem(0, Pow2(cs.shift));
  }

  class Registry {
    /** The linked list from cs_head. */
    var list: seq<Source>
    var last: nat
    var base: nat

    ghost predicate Valid()
      reads this
    {
      && Sorted(list) && (forall i :: 0 <= i < |list| ==> list[i].width <= 64)
      && (list != [] ==> last < Period(list[0]))
    }

    constructor ()
      ensures Valid() && list == []
    {
      list, last, base := [], 0, 0;
    }

    /** `clocksource_register`: keeps the list sorted, and starts the count anew exactly if the new source is now the
        current one. */
    method Register(cs: Source, raw: nat) returns (ghost i: nat)
      requires Valid() && cs.width <= 64
      modifies this
      ensures Valid() && PlaceOf(old(list), cs.rating, i) && list == old(list)[..i] + [cs] + old(list)[i..]
      ensures i == 0 ==> base == 0 && last == Rem(raw, Period(cs))
      ensures i > 0 ==> base == old(base) && last == old(last)
    {
      hide Rem, Pow2;
      var current := list == [] || cs.rating > list[0].rating;
      var at := 0;
      while at < |list| && list[at].rating >= cs.rating
        invariant at <= |list| && forall k :: 0 <= k < at ==> list[k].rating >= cs.rating
      {
        at := at + 1;
      }
      i := at;
      list := list[..at] + [cs] + list[at..];
      if current && list[0] == cs {
        Masked(cs, raw, 0);
        last, base := Rem(raw, Period(cs)), 0;
      }
    }

    /** `clocksource_unregister`: takes the source out wherever it is; the count starts anew whenever a source is left,
        even if the current one stays.  So it is kept if and only if no source is left or it was 0, and reads from now
        on can be relied on not to go back if and only if it was 0. */
    method Unregister(id: nat, raw: nat) returns (ghost i: nat)
      requires Valid()
      modifies this
      ensures Valid() && i <= |old(list)| && (forall k :: 0 <= k < i ==> old(list)[k].id != id)
      ensures i < |old(list)| ==> old(list)[i].id == id && list == old(list)[..i] + old(list)[i + 1..]
      ensures i == |old(list)| ==> list == old(list)
      ensures list != [] ==> base == 0 && last == Rem(raw, Period(list[0]))
      ensures list == [] ==> base == old(base) && last == old(last)
      ensures base == old(base) <==> list == [] || old(base) == 0
      ensures (forall now: nat :: Reading(list, last, base, now) >= old(base)) <==> old(base) == 0
    {
      var at := 0;
      while at < |list| && list[at].id != id
        invariant at <= |list| && forall k :: 0 <= k < at ==> list[k].id != id
      {
        at := at + 1;
      }
      i := at;
      if at < |list| {
        list := list[..at] + list[at + 1..];
      }
      if list != [] {
        Masked(list[0], raw, 0);
        last, base := raw % Period(list[0]), 0;
        ReadsBase(list[0], raw, 0);
      }
      assert Reading(list, last, base, raw) == 0;
    }

    /** `clocksource_read_ns`. */
    method ReadNs(raw: nat) returns (ns: nat)
      requires Valid()
      modifies this`last, this`base
      ensures Valid()
      ensures list == [] ==> ns == 0 && last == old(last) && base == old(base)
      ensures list != [] ==> (last, base) == After(list[0], old(last), old(base), [raw]) && ns == base
    {
      if list == [] { return 0; }
      var cs := list[0];
      var cycles := raw % Period(cs);
      Masked(cs, raw, last);
      var delta := ((cycles + (DWORD - last)) % DWORD) % Period(cs);
      ns := (base + (delta * cs.mult % DWORD) / Pow2(cs.shift)) % DWORD;
      assert After(cs, last, base, []) == (last, base);
      last, base := cycles, ns;
    }

    /** Any number of reads with no registry change between. */
    method ReadAll(raws: seq<nat>) returns (out: seq<nat>)
      requires Valid() && list != []
      modifies this`last, this`base
      ensures Valid() && (last, base) == After(list[0], old(last), old(base), raws)
      ensures |out| == |raws|
      ensures forall i :: 0 <= i < |raws| ==> out[i] == After(list[0], old(last), old(base), raws[..i + 1]).1
    {
      out := [];
      for i := 0 to |raws|
        invariant Valid() && |out| == i
        invariant (last, base) == After(list[0], old(last), old(base), raws[..i])
        invariant forall k :: 0 <= k < i ==> out[k] == After(list[0], old(last), old(base), raws[..k + 1]).1
      {
        assert Front(raws[..i + 1]) == raws[..i];
        assert After(list[0], last, base, []) == (last, base);
        var ns := ReadNs(raws[i]);
        out := out + [ns];
      }
      assert raws[..|raws|] == raws;
    }
  }

  /** A source that is current and one that is not, both counting nanoseconds in 32 bits. */
  function Better(): Source { Source(1, 300, 32, 1, 0) }
  function Worse(): Source { Source(2, 100, 32, 1, 0) }

  lemma BetterReads()
    ensures Rem(0, Period(Better())) < Period(Better())
    ensures After(Better(), Rem(0, Period(Better())), 0, [1000]).1 == 1000
  {
    var cs := Better();
    Pow2Words();
    Masked(cs, 0, 0);
    DeltaIs(cs, 0, 1000, 1000);
    SmallRem(1000, Period(cs));
    SmallRem(1000, DWORD);
    assert Front([1000]) == [];
    assert After(cs, Rem(0, Period(cs)), 0, []) == (Rem(0, Period(cs)), 0);
  }

  /** Unregistering the worse source sets the clock back although the current source stays. */
  method GoesBack() returns (before: nat, after: nat)
    ensures before == 1000 && after == 0
  {
    hide Period, After;
    BetterReads();
    ReadsBase(Better(), 1000, 0);
    var reg := new Registry();
    ghost var _ := reg.Register(Better(), 0);
    assert reg.list == [Better()];
    ghost var i := reg.Register(Worse(), 0);
    assert reg.list == [Better(), Worse()] by { assert reg.list[0].rating >= 100; assert i == 1; }
    before := reg.ReadNs(1000);
    ghost var was := reg.list;
    ghost var k := reg.Unregister(2, 1000);
    assert was[0].id == 1 && was[1].id == 2 && k == 1;
    assert reg.list == [Better()];
    after := reg.ReadNs(1000);
  }
}
