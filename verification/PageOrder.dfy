/**
 Page orders, computed in two ways: by shifting (__compat_get_order in lib32/pci.c) and by linear search
 (alsa/core/memory.c).
 */
module PageOrder {
  import opened Arithmetic

  const PAGE_SIZE := 4096

  predicate TooSmall(size: nat, k: nat) {
    PAGE_SIZE * Pow(2, k) < size
  }

  /** k is the least order whose block of 2^k pages holds `size` bytes. */
  ghost predicate IsOrder(size: nat, k: nat) {
    !TooSmall(size, k) && forall j :: 0 <= j < k ==> TooSmall(size, j)
  }

  lemma OrderUnique(size: nat, j: nat, k: nat)
    requires IsOrder(size, j) && IsOrder(size, k)
    ensures j == k
  {
  }

  /** The number of binary digits of n. */
  function BitLength(n: nat): nat {
    if n == 0 then 0 else 1 + BitLength(Quot(n, 2))
  }

  lemma {:induction false} BitLengthIs(n: nat)
    ensures n < Pow(2, BitLength(n))
    ensures forall j :: 0 <= j < BitLength(n) ==> Pow(2, j) <= n
  {
    if n > 0 {
      var h, r := Quot(n, 2), Rem(n, 2);
      BitLengthIs(h);
      forall j | 0 <= j < BitLength(n) ensures Pow(2, j) <= n {
        assert j > 0 ==> Pow(2, j - 1) <= h;
      }
    }
  }

  /** What __compat_get_order computes. */
  function Compat(size: nat): nat {
    BitLength(Quot(Quot(if size == 0 then WORD - 1 else size - 1, 2048), 2))
  }

  /** Main result: for every positive size the shifting computation gives the least sufficient order. */
  lemma CompatIsOrder(size: nat)
    requires 0 < size
    ensures IsOrder(size, Compat(size))
  {
    var n := size - 1;
    var a, b := Quot(n, 2048), Rem(n, 2048);
    var q, r := Quot(a, 2), Rem(a, 2);
    QuotUnique(n, PAGE_SIZE, q, 2048 * r + b);
    BitLengthIs(q);
    var k := Compat(size);
    Monotone(PAGE_SIZE, q + 1, Pow(2, k));
    forall j | 0 <= j < k ensures TooSmall(size, j) {
      Monotone(PAGE_SIZE, Pow(2, j), q);
    }
  }

  /** The one size for which it does not: size - 1 wraps around. */
  lemma CompatOfZero()
    ensures Compat(0) == 20 && IsOrder(0, 0) && !IsOrder(0, Compat(0))
  {
    QuotUnique(WORD - 1, 2048, 0x1F_FFFF, 2047);
    QuotUnique(0x1F_FFFF, 2, 0xF_FFFF, 1);
    OnesBits(20);
    PowerTwenty();
    assert !TooSmall(0, 0);
  }

  lemma {:induction false} OnesBits(k: nat)
    ensures 0 < Pow(2, k) && BitLength(Pow(2, k) - 1) == k
  {
    if k > 0 {
      OnesBits(k - 1);
      QuotUnique(Pow(2, k) - 1, 2, Pow(2, k - 1) - 1, 1);
    }
  }

  /** __compat_get_order() */
  method CompatGetOrder(size: nat) returns (order: int)
    requires size < WORD
    ensures order == Compat(size)
  {
    var s := Quot(if size == 0 then WORD - 1 else size - 1, 2048);
    order := -1;
    s := Quot(s, 2);
    order := order + 1;
    while s != 0
      invariant order + BitLength(s) == Compat(size)
      decreases s
    {
      s := Quot(s, 2);
      order := order + 1;
    }
  }

  // ---------------------------------------------------------------- the linear search

  /** PAGE_SIZE * (1 << pg) in 32 bits; the shift count counts modulo 32. */
  function Block(pg: nat): nat {
    Rem(PAGE_SIZE * Pow(2, Rem(pg, 32)), WORD)
  }

  lemma {:induction false} PowTwoSum(j: nat, k: nat)
    ensures Pow(2, j + k) == Pow(2, j) * Pow(2, k)
    decreases k
  {
    if k > 0 {
      PowTwoSum(j, k - 1);
      assert Pow(2, j + k) == 2 * Pow(2, j + (k - 1));
    }
  }

  lemma BlockIs(pg: nat)
    requires pg < 32
    ensures Block(pg) == if pg < 20 then PAGE_SIZE * Pow(2, pg) else 0
    ensures pg < 20 ==> Block(pg) <= 0x8000_0000
  {
    QuotUnique(pg, 32, 0, pg);
    PowerTwenty();
    if pg < 20 {
      PowTwoSum(pg, 19 - pg);
      PowPositive(2, 19 - pg);
      Monotone(Pow(2, pg), 1, Pow(2, 19 - pg));
      QuotUnique(PAGE_SIZE * Pow(2, pg), WORD, 0, PAGE_SIZE * Pow(2, pg));
    } else {
      PowTwoSum(20, pg - 20);
      var m := Pow(2, pg - 20);
      assert PAGE_SIZE * (Pow(2, 20) * m) == m * WORD;
      QuotUnique(PAGE_SIZE * Pow(2, pg), WORD, m, 0);
    }
  }

  lemma PowerTwenty()
    ensures Pow(2, 20) == 0x10_0000 && Pow(2, 19) == 0x8_0000
  {
    assert Pow(2, 10) == 0x400;
    PowTwoSum(10, 10);
    assert Pow(2, 20) == 2 * Pow(2, 19);
  }

  /** The loop `for (pg = 0; PAGE_SIZE * (1 << pg) < size; pg++)`. */
  method LinearOrder(size: nat) returns (pg: nat)
    requires size <= 0x8000_0000
    ensures IsOrder(size, pg) && pg < 20
  {
    pg := 0;
    BlockIs(0);
    while Block(pg) < size
      invariant pg < 20 && Block(pg) == PAGE_SIZE * Pow(2, pg)
      invariant forall j :: 0 <= j < pg ==> TooSmall(size, j)
      decreases 20 - pg
    {
      PowerTwenty();
      BlockIs(pg);
      assert pg == 19 ==> Block(pg) == 0x8000_0000;
      pg := pg + 1;
      BlockIs(pg);
    }
  }

  /** Beyond 2 GB the search has no end: no order passes its test. */
  lemma LinearNeverStops(size: nat, pg: nat)
    requires 0x8000_0000 < size
    ensures Block(pg) < size
  {
    var r := Rem(pg, 32);
    BlockIs(r);
    QuotUnique(r, 32, 0, r);
  }

  /**
   Main result: where the search ends on a positive size, both ways give the same order; so what was
   allocated with the one may be freed with the other.
   */
  lemma OrdersAgree(size: nat, pg: nat)
    requires 0 < size <= 0x8000_0000 && IsOrder(size, pg)
    ensures pg == Compat(size)
  {
    CompatIsOrder(size);
    OrderUnique(size, pg, Compat(size));
  }

  /** The PCI path goes through both: the search rounds the size up to 2^pg pages, whose order is pg. */
  lemma RoundedOrder(pg: nat)
    ensures 0 < PAGE_SIZE * Pow(2, pg) && Compat(PAGE_SIZE * Pow(2, pg)) == pg
  {
  }
}
