/**
 The PCM timer's resolution, 10^9 * period_size / rate nanoseconds, computed in 32 bits
 (alsa/core/pcm_timer.c): the fraction is reduced by gcd and then halved until the product fits.
 */
module TimerResolution {
  import opened Arithmetic

  const NANOS := 1000000000

  // ---------------------------------------------------------------- gcd

  predicate Times(d: int, k: int, n: int) {
    d * k == n
  }

  ghost predicate Divides(d: int, n: int) {
    exists k :: Times(d, k, n)
  }

  /** Euclid's algorithm. */
  function GcdOf(a: nat, b: nat): nat
    requires 0 < b
    decreases b
  {
    if Rem(a, b) == 0 then b else GcdOf(b, Rem(a, b))
  }

  lemma DividesSum(d: int, x: int, y: int, c: int)
    requires Divides(d, x) && Divides(d, y)
    ensures Divides(d, x + c * y)
  {
    var i :| Times(d, i, x);
    var j :| Times(d, j, y);
    Distribute(d, i, j, c);
    assert Times(d, i + c * j, x + c * y);
  }

  lemma Distribute(d: int, i: int, j: int, c: int)
    ensures d * (i + c * j) == d * i + c * (d * j)
  {
  }

  /** Main result about gcd: its value divides both arguments, and every common divisor divides it. */
  lemma {:induction false} GcdCorrect(a: nat, b: nat, d: int)
    requires 0 < b
    ensures 0 < GcdOf(a, b) <= b
    ensures Divides(GcdOf(a, b), a) && Divides(GcdOf(a, b), b)
    ensures Divides(d, a) && Divides(d, b) ==> Divides(d, GcdOf(a, b))
    decreases b
  {
    var r, g := Rem(a, b), GcdOf(a, b);
    if r == 0 {
      DividesItself(b, Quot(a, b));
    } else {
      GcdCorrect(b, r, d);
      DividesRem(g, a, b);
      if Divides(d, b) {
        DividesRem(d, a, b);
      }
    }
  }

  lemma DividesItself(b: int, q: int)
    ensures Divides(b, b) && Divides(b, q * b)
  {
    assert Times(b, 1, b) && Times(b, q, q * b);
  }

  /** The common divisors of a and b are those of b and the remainder. */
  lemma DividesRem(d: int, a: nat, b: nat)
    requires 0 < b && Divides(d, b)
    ensures Divides(d, a) <==> Divides(d, Rem(a, b))
  {
    var q: int, r := Quot(a, b), Rem(a, b);
    if Divides(d, a) {
      DividesSum(d, a, b, -q);
      Negate(q, b);
    }
    if Divides(d, r) {
      DividesSum(d, r, b, q);
    }
  }

  lemma Negate(q: int, b: int)
    ensures -q * b == -(q * b)
  {
  }

  lemma GcdSwaps(a: nat, b: nat)
    requires 0 < a < b
    ensures GcdOf(a, b) == GcdOf(b, a)
  {
    Small(a, b);
  }

  lemma Small(a: nat, b: nat)
    requires a < b
    ensures Rem(a, b) == a
  {
  }

  ghost predicate Coprime(a: int, b: int) {
    forall d :: 0 < d && Divides(d, a) && Divides(d, b) ==> d == 1
  }

  lemma {:induction false} GcdScales(a: nat, b: nat, c: nat)
    requires 0 < b && 0 < c
    ensures 0 < b * c && GcdOf(a * c, b * c) == GcdOf(a, b) * c
    decreases b
  {
    var q, r := Quot(a, b), Rem(a, b);
    Cancel(a, b, c);
    Times3(q, b, r, c);
    Monotone(c, r + 1, b);
    QuotUnique(a * c, b * c, q, r * c);
    if r > 0 {
      GcdScales(b, r, c);
    }
  }

  lemma CoprimeGcd(a: nat, b: nat)
    requires 0 < b
    ensures Coprime(a, b) <==> GcdOf(a, b) == 1
  {
    GcdCorrect(a, b, 1);
    if GcdOf(a, b) == 1 {
      forall d | 0 < d && Divides(d, a) && Divides(d, b) ensures d == 1 {
        GcdCorrect(a, b, d);
        DividesAtMost(d, 1);
      }
    }
  }

  lemma DividesAtMost(d: nat, n: nat)
    requires 0 < d && 0 < n && Divides(d, n)
    ensures d <= n
  {
    QuotPositive(n, d);
    Monotone(d, 1, Quot(n, d));
  }

  /** Divided by their greatest common divisor, two numbers are coprime. */
  lemma DividedCoprime(a: nat, b: nat)
    requires 0 < a && 0 < b
    ensures var g := GcdOf(a, b);
            0 < g && Quot(a, g) * g == a && Quot(b, g) * g == b && 0 < Quot(b, g) && Coprime(Quot(a, g), Quot(b, g))
  {
    var g := GcdOf(a, b);
    GcdCorrect(a, b, 1);
    QuotPositive(a, g);
    QuotPositive(b, g);
    GcdScales(Quot(a, g), Quot(b, g), g);
    OneTimes(GcdOf(Quot(a, g), Quot(b, g)), g);
    CoprimeGcd(Quot(a, g), Quot(b, g));
  }

  lemma OneTimes(x: int, g: int)
    requires x * g == g && g != 0
    ensures x == 1
  {
  }

  lemma DividesMultiple(d: int, n: int, c: int)
    requires Divides(d, n)
    ensures Divides(d, n * c) && Divides(d, c * n)
  {
    var k :| Times(d, k, n);
    assert Times(d, k * c, n * c);
  }

  /** What is coprime to two numbers is coprime to their product. */
  lemma CoprimeProduct(a: nat, b: nat, c: nat)
    requires 0 < a && 0 < c && Coprime(b, a) && Coprime(a, c)
    ensures Coprime(b * c, a)
  {
    CoprimeGcd(b, a);
    GcdScales(b, a, c);
    forall e | 0 < e && Divides(e, b * c) && Divides(e, a) ensures e == 1 {
      DividesMultiple(e, a, c);
      GcdCorrect(b * c, a * c, e);
      assert 1 * c == c;
    }
  }

  /** gcd() */
  method Gcd(x: nat, y: nat) returns (g: nat)
    requires 0 < x && 0 < y
    ensures g == GcdOf(x, y)
  {
    var a, b := x, y;
    if a < b {
      GcdSwaps(a, b);
      a, b := b, a;
    }
    var r := Rem(a, b);
    while r != 0
      invariant 0 < b && r == Rem(a, b) && GcdOf(a, b) == GcdOf(x, y)
      decreases b
    {
      a, b := b, r;
      r := Rem(a, b);
    }
    g := b;
  }

  // ---------------------------------------------------------------- halving

  /** How often mult has to be halved before mult * fsize fits into 32 bits. */
  function Halvings(mult: nat, fsize: nat): (k: nat)
    decreases mult
  {
    if mult == 0 || mult * fsize < WORD then 0 else 1 + Halvings(mult / 2, fsize)
  }

  function Shifted(n: nat, k: nat): nat {
    if k == 0 then n else Shifted(n / 2, k - 1)
  }

  /** The loop guard: does the 32-bit product, divided again, fail to give mult back? */
  predicate Wraps(mult: nat, fsize: nat)
    requires 0 < fsize
  {
    Quot(Rem(mult * fsize, WORD), fsize) != mult
  }

  /** The loop stops exactly when the product no longer wraps. */
  lemma WrapsIs(mult: nat, fsize: nat)
    requires 0 < fsize
    ensures Wraps(mult, fsize) <==> mult * fsize >= WORD
  {
    var p := mult * fsize;
    if p < WORD {
      Small(p, WORD);
      QuotUnique(p, fsize, mult, 0);
    } else {
      var q, r := Quot(p, WORD), Rem(p, WORD);
      assert r < p;
      QuotBelow(r, mult, fsize);
    }
  }

  /** What the loop leaves: n, halved k times, is n / 2^k. */
  lemma {:induction false} ShiftedBounds(n: nat, k: nat)
    ensures Shifted(n, k) * Pow(2, k) <= n < (Shifted(n, k) + 1) * Pow(2, k)
    decreases k
  {
    if k > 0 {
      ShiftedBounds(n / 2, k - 1);
      var s, q := Shifted(n / 2, k - 1), Pow(2, k - 1);
      Doubled(s, q);
      Doubled(s + 1, q);
    }
  }

  lemma Doubled(s: nat, q: nat)
    ensures s * (2 * q) == 2 * (s * q)
  {
  }

  /** Halvings is the least number of halvings after which the product fits. */
  lemma {:induction false} HalvingsLeast(mult: nat, fsize: nat)
    ensures Shifted(mult, Halvings(mult, fsize)) * fsize < WORD
    ensures forall j :: 0 <= j < Halvings(mult, fsize) ==> Shifted(mult, j) * fsize >= WORD
    decreases mult
  {
    if mult != 0 && mult * fsize >= WORD {
      HalvingsLeast(mult / 2, fsize);
      forall j | 0 <= j < Halvings(mult, fsize) ensures Shifted(mult, j) * fsize >= WORD {
        if j > 0 {
          assert Shifted(mult, j) == Shifted(mult / 2, j - 1);
        }
      }
    }
  }

  // ---------------------------------------------------------------- the resolution

  /** The fraction mult * fsize / rate after both reductions. */
  datatype Fraction = Fraction(mult: nat, fsize: nat, rate: nat)

  function Reduced(rate: nat, periodSize: nat): (f: Fraction)
    requires 0 < rate && 0 < periodSize
    ensures 0 < f.mult && 0 < f.fsize && 0 < f.rate
    ensures f.mult <= NANOS && f.fsize <= periodSize && f.rate <= rate
  {
    var g := GcdOf(NANOS, rate);
    GcdCorrect(NANOS, rate, 1);
    QuotPositive(NANOS, g);
    QuotPositive(rate, g);
    var h := GcdOf(Quot(rate, g), periodSize);
    GcdCorrect(Quot(rate, g), periodSize, 1);
    QuotPositive(Quot(rate, g), h);
    QuotPositive(periodSize, h);
    Fraction(Quot(NANOS, g), Quot(periodSize, h), Quot(Quot(rate, g), h))
  }

  lemma Commute(d: int, k: int)
    ensures d * k == k * d && (d > 0 && d * k > 0 ==> 0 < k <= d * k)
  {
  }

  lemma QuotPositive(n: nat, d: nat)
    requires 0 < n && 0 < d && Divides(d, n)
    ensures 0 < Quot(n, d) <= n && Quot(n, d) * d == n
  {
    var k :| Times(d, k, n);
    Commute(d, k);
    assert k > 0;
    QuotUnique(n, d, k, 0);
  }

  /** What is left of the fraction after the halvings that make the product fit. */
  function Halved(f: Fraction): Fraction {
    var k := Halvings(f.mult, f.fsize);
    Fraction(Shifted(f.mult, k), f.fsize, Shifted(f.rate, k))
  }

  function Evaluated(f: Fraction, was: nat): nat {
    if f.rate == 0 then was else Quot(f.mult * f.fsize, f.rate)
  }

  /** snd_pcm_timer_resolution_change: the new timer_resolution, or the old one if an assertion fails. */
  function Resolution(rate: nat, periodSize: nat, was: nat): nat {
    if rate == 0 || periodSize == 0 then was else Evaluated(Halved(Reduced(rate, periodSize)), was)
  }

  /** pcm runtime, as far as the timer is concerned */
  class Runtime {
    var rate: nat
    var periodSize: nat
    var timerResolution: nat

    /** snd_pcm_timer_resolution_change() */
    method ResolutionChange()
      requires rate < 0x8000_0000 && periodSize < 0x8000_0000
      modifies `timerResolution
      ensures timerResolution == Resolution(rate, periodSize, old(timerResolution))
    {
      var mult, r := NANOS, rate;
      if r == 0 {
        return;
      }
      var l := Gcd(mult, r);
      GcdCorrect(NANOS, rate, 1);
      QuotPositive(rate, l);
      mult, r := Quot(mult, l), Quot(r, l);
      var fsize := periodSize;
      if fsize == 0 {
        return;
      }
      l := Gcd(r, fsize);
      GcdCorrect(r, fsize, 1);
      r, fsize := Quot(r, l), Quot(fsize, l);
      ghost var f := Reduced(rate, periodSize);
      assert f == Fraction(mult, fsize, r);
      mult, r := Halve(mult, r, fsize);
      assert Halved(f) == Fraction(mult, fsize, r);
      if r == 0 {
        return;
      }
      timerResolution := Quot(mult * fsize, r);
    }
  }

  /** The loop that avoids the overflow. */
  method Halve(mult0: nat, rate0: nat, fsize: nat) returns (mult: nat, rate: nat)
    requires 0 < fsize
    ensures var k := Halvings(mult0, fsize); mult == Shifted(mult0, k) && rate == Shifted(rate0, k)
  {
    mult, rate := mult0, rate0;
    WrapsIs(mult, fsize);
    while Wraps(mult, fsize)
      invariant Wraps(mult, fsize) <==> mult * fsize >= WORD
      invariant Shifted(mult, Halvings(mult, fsize)) == Shifted(mult0, Halvings(mult0, fsize))
      invariant Shifted(rate, Halvings(mult, fsize)) == Shifted(rate0, Halvings(mult0, fsize))
      decreases mult
    {
      mult, rate := mult / 2, rate / 2;
      WrapsIs(mult, fsize);
    }
  }

  // ---------------------------------------------------------------- how good the result is

  lemma Cross(m: nat, g: nat, f: nat, h: nat, r: nat)
    ensures (m * g) * (f * h) == (m * f) * (g * h) && (r * h) * g == r * (g * h)
  {
  }

  /** Reducing does not change the value of the fraction. */
  lemma ReducedValue(rate: nat, periodSize: nat) returns (c: nat)
    requires 0 < rate && 0 < periodSize
    ensures var f := Reduced(rate, periodSize);
            0 < c && NANOS * periodSize == (f.mult * f.fsize) * c && rate == f.rate * c
  {
    var f, g := Reduced(rate, periodSize), GcdOf(NANOS, rate);
    GcdCorrect(NANOS, rate, 1);
    QuotPositive(NANOS, g);
    QuotPositive(rate, g);
    var h := GcdOf(Quot(rate, g), periodSize);
    GcdCorrect(Quot(rate, g), periodSize, 1);
    QuotPositive(Quot(rate, g), h);
    QuotPositive(periodSize, h);
    c := g * h;
    Cross(f.mult, g, f.fsize, h, f.rate);
    Monotone(g, 1, h);
  }

  /**
   Both reductions together bring the fraction to its lowest terms: no number above 1 divides the reduced
   rate and either factor. The first removes from 10^9 all it has in common with the rate, the second
   from the period size all it has in common with what is left of the rate.
   */
  lemma LowestTerms(rate: nat, periodSize: nat)
    requires 0 < rate && 0 < periodSize
    ensures var f := Reduced(rate, periodSize);
            var g := GcdOf(NANOS, rate);
            && f.mult * g == NANOS && 0 < g && f.fsize * GcdOf(Quot(rate, g), periodSize) == periodSize
            && Coprime(f.rate, f.mult) && Coprime(f.rate, f.fsize) && Coprime(f.mult * f.fsize, f.rate)
  {
    var f, g := Reduced(rate, periodSize), GcdOf(NANOS, rate);
    DividedCoprime(NANOS, rate);
    var r := Quot(rate, g);
    DividedCoprime(r, periodSize);
    var h := GcdOf(r, periodSize);
    forall d | 0 < d && Divides(d, f.rate) && Divides(d, f.mult) ensures d == 1 {
      DividesMultiple(d, f.rate, h);
    }
    CoprimeProduct(f.rate, f.mult, f.fsize);
  }

  /** The reduced product fits into 32 bits exactly if the whole one, less the greatest common divisor, does. */
  lemma WhenProductFits(rate: nat, periodSize: nat)
    requires 0 < rate && 0 < periodSize
    ensures var f := Reduced(rate, periodSize);
            f.mult * f.fsize < WORD <==> NANOS * periodSize < GcdOf(NANOS * periodSize, rate) * WORD
  {
    var c := ReducedValue(rate, periodSize);
    var f := Reduced(rate, periodSize);
    var a := f.mult * f.fsize;
    LowestTerms(rate, periodSize);
    CoprimeGcd(a, f.rate);
    GcdScales(a, f.rate, c);
    assert GcdOf(NANOS * periodSize, rate) == 1 * c == c;
    Scaled(a, WORD, c);
  }

  lemma Scaled(a: nat, w: nat, c: nat)
    requires 0 < c
    ensures a < w <==> a * c < c * w
  {
    if a < w {
      Monotone(c, a + 1, w);
    } else {
      Monotone(c, w, a);
    }
  }

  /**
   Main result, first half: if 10^9 * period_size, divided by any common divisor d of it and the rate,
   fits into 32 bits, nothing is halved and the resolution is exact.
   */
  lemma ResolutionExact(rate: nat, periodSize: nat, was: nat, d: nat)
    requires 0 < rate && 0 < periodSize
    requires 0 < d && Divides(d, rate) && Divides(d, NANOS * periodSize) && NANOS * periodSize < d * WORD
    ensures Resolution(rate, periodSize, was) == Quot(NANOS * periodSize, rate)
  {
    GcdCorrect(NANOS * periodSize, rate, d);
    DividesAtMost(d, GcdOf(NANOS * periodSize, rate));
    Monotone(WORD, d, GcdOf(NANOS * periodSize, rate));
    WhenProductFits(rate, periodSize);
    ExactIfFits(rate, periodSize, was);
  }

  lemma ExactIfFits(rate: nat, periodSize: nat, was: nat)
    requires 0 < rate && 0 < periodSize
    requires var f := Reduced(rate, periodSize); f.mult * f.fsize < WORD
    ensures Resolution(rate, periodSize, was) == Quot(NANOS * periodSize, rate)
  {
    var c := ReducedValue(rate, periodSize);
    var f := Reduced(rate, periodSize);
    Cancel(f.mult * f.fsize, f.rate, c);
    assert Halved(f) == f;
  }

  /** A rate or a period size of zero fails an assertion, and the resolution is left as it was. */
  lemma ResolutionKept(rate: nat, periodSize: nat, was: nat)
    requires rate == 0 || periodSize == 0
    ensures Resolution(rate, periodSize, was) == was
  {
  }

  /**
   Main result, second half: after k halvings with a rate that is still positive, the result lies
   between the quotients of the reduced fraction with its denominator, or its numerator, off by less
   than 2^k; if the rate has become zero, the resolution is left as it was.
   */
  lemma ResolutionBounds(rate: nat, periodSize: nat, was: nat)
    requires 0 < rate && 0 < periodSize
    ensures var f := Reduced(rate, periodSize);
            var k := Halvings(f.mult, f.fsize);
            var t := Resolution(rate, periodSize, was);
            if f.rate < Pow(2, k) then t == was
            else t * (f.rate - Pow(2, k)) <= f.mult * f.fsize && (t + 1) * f.rate > (f.mult - Pow(2, k)) * f.fsize
  {
    HalvedBounds(Reduced(rate, periodSize), was);
  }

  lemma HalvedBounds(f: Fraction, was: nat)
    requires 0 < f.fsize
    ensures var q, t := Pow(2, Halvings(f.mult, f.fsize)), Evaluated(Halved(f), was);
            if f.rate < q then t == was
            else t * (f.rate - q) <= f.mult * f.fsize && (t + 1) * f.rate > (f.mult - q) * f.fsize
  {
    var k := Halvings(f.mult, f.fsize);
    ShiftedBounds(f.mult, k);
    ShiftedBounds(f.rate, k);
    QuotientBounds(Shifted(f.mult, k), Shifted(f.rate, k), Pow(2, k), f);
  }

  lemma QuotientBounds(m: nat, r: nat, q: nat, f: Fraction)
    requires m * q <= f.mult < (m + 1) * q && r * q <= f.rate < (r + 1) * q && 0 < f.fsize
    ensures f.rate < q <==> r == 0
    ensures r > 0 ==>
              var t := Quot(m * f.fsize, r);
              t * (f.rate - q) <= f.mult * f.fsize && (t + 1) * f.rate > (f.mult - q) * f.fsize
  {
    if r > 0 {
      Monotone(q, 1, r);
      var n := m * f.fsize;
      var t, e := Quot(n, r), Rem(n, r);
      NextMultiple(t, r);
      UpperBound(t, r, q, m, f.fsize, f.rate, f.mult);
      LowerBound(t, r, q, m, f.fsize, f.rate, f.mult);
    }
  }

  lemma NextMultiple(t: nat, r: nat)
    ensures (t + 1) * r == t * r + r
  {
  }

  lemma UpperBound(t: nat, r: nat, q: nat, m: nat, f: nat, rate: nat, mult: nat)
    requires t * r <= m * f && rate < (r + 1) * q && m * q <= mult
    ensures t * (rate - q) <= mult * f
  {
  }

  lemma LowerBound(t: nat, r: nat, q: nat, m: nat, f: nat, rate: nat, mult: nat)
    requires 0 < q && 0 < f && m * f < (t + 1) * r && r * q <= rate && mult < (m + 1) * q
    ensures (t + 1) * rate > (mult - q) * f
  {
  }
}
