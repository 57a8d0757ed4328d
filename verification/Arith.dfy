/** Division with remainder, wrapped so that proofs can name the parts without non-linear arithmetic. */
module Arith {
  function Quot(i: nat, n: nat): nat
    requires n > 0
  {
    i / n
  }

  function Rem(i: nat, n: nat): nat
    requires n > 0
  {
    i % n
  }

  lemma QuotRem(i: nat, n: nat)
    requires n > 0
    ensures i == n * Quot(i, n) + Rem(i, n) && Rem(i, n) < n
  {
  }

  lemma MulMono(a: nat, b: nat, c: nat)
    requires a <= b
    ensures a * c <= b * c
  {
  }

  lemma {:induction false} DivMod(q: nat, n: nat, r: nat)
    requires r < n
    ensures (q * n + r) / n == q && (q * n + r) % n == r
  {
    var x := q * n + r;
    assert x == n * (x / n) + x % n;
    if x / n > q { MulMono(q + 1, x / n, n); }
    if x / n < q { MulMono(x / n + 1, q, n); }
  }

  /** Whole multiples do not change the remainder. */
  lemma RemShift(a: nat, k: nat, n: nat)
    requires n > 0
    ensures k * n >= 0 && Rem(a + k * n, n) == Rem(a, n)
  {
    var q, r := Quot(a, n), Rem(a, n);
    QuotRem(a, n);
    Distribute(q, k, n);
    DivMod(q + k, n, r);
    assert a + k * n == (q + k) * n + r;
  }

  lemma Distribute(a: nat, b: nat, c: nat)
    ensures (a + b) * c == a * c + b * c && a * c == c * a
  {
  }

  /** Numbers less than n apart have different remainders. */
  lemma RemApart(a: nat, b: nat, n: nat)
    requires n > 0 && a < b < a + n
    ensures Rem(a, n) != Rem(b, n)
  {
    var qa, qb := Quot(a, n), Quot(b, n);
    QuotRem(a, n);
    QuotRem(b, n);
    if qa < qb { MulMono(qa + 1, qb, n); Distribute(qa, 1, n); } else { MulMono(qb, qa, n); }
  }

  predicate Divides(n: nat, m: nat) { n > 0 && m % n == 0 }

  /** Reducing modulo a multiple first does not change the remainder. */
  lemma NestedRem(a: nat, m: nat, n: nat)
    requires Divides(n, m) && m > 0
    ensures Rem(Rem(a, m), n) == Rem(a, n)
  {
    var q, r, d := Quot(a, m), Rem(a, m), Quot(m, n);
    QuotRem(a, m);
    QuotRem(m, n);
    assert q * m == (q * d) * n by { Regroup(q, d, n); }
    RemShift(r, q * d, n);
  }

  lemma Regroup(a: nat, b: nat, c: nat)
    ensures a * (c * b) == (a * b) * c
  {
  }

  lemma QuotMono(a: nat, b: nat, n: nat)
    requires a <= b && n > 0
    ensures Quot(a, n) <= Quot(b, n)
  {
    var x, y := Quot(a, n), Quot(b, n);
    QuotRem(a, n);
    QuotRem(b, n);
    if y < x { MulMono(y + 1, x, n); Distribute(y, 1, n); }
  }

  lemma SmallRem(a: nat, n: nat)
    requires n > 0
    ensures Rem(a, n) == a <==> a < n
  {
    QuotRem(a, n);
    if a < n { DivMod(0, n, a); }
  }

  /** 2^32 and 2^64. */
  const WORD: nat := 0x1_0000_0000
  const DWORD: nat := 0x1_0000_0000_0000_0000

  function Times(k: nat, n: nat): nat { k * n }

  lemma TimesMore(k: nat, n: nat)
    ensures Times(k + 1, n) == Times(k, n) + n && Times(0, n) == 0
  {
  }

  function Min(a: nat, b: nat): nat { if a < b then a else b }

  /** A number cut to a signed 32-bit one. */
  function Int32(n: nat): int {
    var w := n % WORD;
    if w < 0x8000_0000 then w else w - WORD
  }

  lemma Int32Iff(n: nat)
    ensures Int32(n) == n <==> n < 0x8000_0000
  {
  }

  function Pow2(n: nat): (p: nat)
    ensures p > 0
  {
    if n == 0 then 1 else 2 * Pow2(n - 1)
  }

  lemma {:induction false} Pow2Mono(a: nat, b: nat)
    requires a <= b
    ensures Pow2(a) <= Pow2(b)
    decreases b
  {
    if a < b { Pow2Mono(a, b - 1); }
  }
}
