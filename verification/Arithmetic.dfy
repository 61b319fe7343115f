/** Unsigned division, 32-bit wrap-around, and the facts about them that the other modules use. */
module Arithmetic {

  const WORD := 0x1_0000_0000

  /** Unsigned division and remainder. */
  function Quot(v: nat, p: nat): nat
    requires 0 < p
  {
    v / p
  }

  function Rem(v: nat, p: nat): (r: nat)
    requires 0 < p
    ensures r < p && v == Quot(v, p) * p + r
  {
    v % p
  }

  lemma Monotone(c: nat, x: int, y: int)
    requires x <= y
    ensures c * x <= c * y && x * c <= y * c
  {
  }

  lemma QuotUnique(v: nat, p: nat, q: nat, r: nat)
    requires 0 < p && r < p && v == q * p + r
    ensures Quot(v, p) == q && Rem(v, p) == r
  {
    var a, b := Quot(v, p), Rem(v, p);
    assert a < q ==> (a + 1) * p <= q * p;
    assert q < a ==> (q + 1) * p <= a * p;
  }

  lemma QuotBelow(v: nat, b: nat, p: nat)
    requires 0 < p && v < b * p
    ensures Quot(v, p) < b
  {
  }

  /** A common factor cancels. */
  lemma Cancel(a: nat, b: nat, c: nat)
    requires 0 < b && 0 < c
    ensures 0 < b * c && Quot(a * c, b * c) == Quot(a, b)
  {
    var q, r := Quot(a, b), Rem(a, b);
    Times3(q, b, r, c);
    Monotone(c, r + 1, b);
    QuotUnique(a * c, b * c, q, r * c);
  }

  lemma Times3(q: nat, b: nat, r: nat, c: nat)
    ensures (q * b + r) * c == q * (b * c) + r * c && (r + 1) * c == r * c + c
  {
  }

  function Pow(b: nat, k: nat): nat {
    if k == 0 then 1 else b * Pow(b, k - 1)
  }

  lemma {:induction false} PowPositive(b: nat, k: nat)
    requires 1 <= b
    ensures Pow(b, k) > 0
  {
    if k > 0 {
      PowPositive(b, k - 1);
    }
  }

  /** n as an unsigned 32-bit value, and unsigned 32-bit sums and differences. */
  function U32(n: int): int { if n < 0 then n + WORD else n }

  /** An unsigned 32-bit value as a signed one. */
  function S32(n: int): int { if n < 0x8000_0000 then n else n - WORD }

  function Add32(a: int, b: int): int { if a + b < WORD then a + b else a + b - WORD }

  function Sub32(a: int, b: int): int { if a < b then a - b + WORD else a - b }

  /** 32-bit sums and differences of remainders are the remainders of the sums and differences. */
  lemma Wrapped(t: nat, n: nat)
    requires n < WORD
    ensures Add32(Rem(t, WORD), n) == Rem(t + n, WORD)
    ensures n <= t ==> Sub32(Rem(t, WORD), n) == Rem(t - n, WORD)
  {
  }
}
