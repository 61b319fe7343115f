/**
 The page layer of lib32/memory.cpp: page and vmalloc requests on top of VMAlloc/VMFree, 64 KB physical
 placement for DMA, and the list of base addresses that lets a shifted block be freed.
 */
module Pages {
  import opened Arithmetic
  import opened PageOrder

  const BOUNDARY := 0x1_0000

  // ---------------------------------------------------------------- the operating system

  /** A region obtained from VMAlloc: its size and its physical base, 0 if it cannot be translated. */
  datatype Region = Region(size: nat, phys: nat)

  predicate InMemory(addr: int, r: Region) {
    && 0 < addr && addr + r.size <= WORD && 0 < r.size
    && Rem(r.phys, PAGE_SIZE) == 0 && r.phys + r.size <= WORD
  }

  predicate Separate(a: int, r: Region, b: int, s: Region) {
    a + r.size <= b || b + s.size <= a
  }

  /** What VMAlloc answers to one request. */
  datatype Answer = Refused | Granted(addr: int, size: nat, phys: nat)

  /** VMAlloc, VMFree and virt_to_phys. Where regions are placed, and when requests fail, is left open. */
  class Os {
    var regions: map<int, Region>
    var badFrees: nat    // calls of VMFree with an address that VMAlloc did not return
    ghost var answers: seq<Answer>    // what VMAlloc has answered so far

    ghost predicate Valid()
      reads `regions
    {
      && (forall a {:trigger InMemory(a, regions[a])} :: a in regions ==> InMemory(a, regions[a]))
      && (forall a, b {:trigger Separate(a, regions[a], b, regions[b])} ::
            a in regions && b in regions && a != b ==> Separate(a, regions[a], b, regions[b]))
    }

    constructor ()
      ensures Valid() && regions == map[] && badFrees == 0
    {
      regions, badFrees, answers := map[], 0, [];
    }

    method VMAlloc(size: nat) returns (rc: int, addr: int)
      requires Valid()
      modifies `regions, `answers
      ensures Valid()
      ensures rc != 0 ==> regions == old(regions)
      ensures rc == 0 ==> && addr !in old(regions) && addr in regions && regions[addr].size == size
                          && regions == old(regions)[addr := regions[addr]]
      ensures answers == old(answers) + [if rc == 0 then Granted(addr, size, regions[addr].phys) else Refused]
    {
      var phys: nat := *;
      addr := *;
      rc := 1;
      var r := Region(size, phys);
      if InMemory(addr, r) && addr !in regions && forall a :: a in regions ==> Separate(a, regions[a], addr, r) {
        var was := regions;
        regions := regions[addr := r];
        forall a, b | a in regions && b in regions && a != b ensures Separate(a, regions[a], b, regions[b]) {
          assert a in was && b in was ==> Separate(a, was[a], b, was[b]);
        }
        forall a | a in regions ensures InMemory(a, regions[a]) {
          assert a in was ==> InMemory(a, was[a]);
        }
        rc := 0;
      }
      answers := answers + [if rc == 0 then Granted(addr, size, phys) else Refused];
    }

    method VMFree(addr: int) returns (rc: int)
      requires Valid()
      modifies `regions, `badFrees
      ensures Valid()
      ensures addr in old(regions) ==> rc == 0 && regions == old(regions) - {addr} && badFrees == old(badFrees)
      ensures addr !in old(regions) ==> rc != 0 && regions == old(regions) && badFrees == old(badFrees) + 1
    {
      if addr !in regions {
        badFrees := badFrees + 1;
        return 1;
      }
      var was := regions;
      regions := regions - {addr};
      forall a, b | a in regions && b in regions && a != b ensures Separate(a, regions[a], b, regions[b]) {
        assert Separate(a, was[a], b, was[b]);
      }
      forall a | a in regions ensures InMemory(a, regions[a]) {
        assert InMemory(a, was[a]);
      }
      rc := 0;
    }

    /** virt_to_phys() of the start of a region */
    function VirtToPhys(addr: int): nat
      requires addr in regions
      reads `regions
    {
      regions[addr].phys
    }
  }

  // ---------------------------------------------------------------- 64 KB placement

  /** A DMA block below 64 KB does not cross a 64 KB boundary; a larger one starts on one. */
  predicate WellPlaced(phys: nat, size: nat) {
    if size < BOUNDARY then 0 < size && Quot(phys, BOUNDARY) == Quot(phys + size - 1, BOUNDARY) else Rem(phys, BOUNDARY) == 0
  }

  /** The test startpage == endpage. */
  predicate SamePage(phys: nat, size: nat) {
    Quot(phys, BOUNDARY) == Quot(Rem(phys + (if size < BOUNDARY then size else 63 * 1024), WORD), BOUNDARY)
  }

  lemma QuotOf(p: nat, d: nat, n: nat)
    requires 0 < d
    ensures Quot(p, d) == n <==> n * d <= p < (n + 1) * d
  {
    if n * d <= p < (n + 1) * d {
      QuotUnique(p, d, n, p - n * d);
    }
  }

  /** Below 64 KB the test asks a little more than needed: the block must not end on a boundary either. */
  lemma SmallTest(phys: nat, size: nat)
    requires 0 < size < BOUNDARY && phys + size <= WORD
    ensures SamePage(phys, size) <==> WellPlaced(phys, size) && Rem(phys + size, BOUNDARY) != 0
    ensures SamePage(phys, size) <==> Rem(phys, BOUNDARY) + size < BOUNDARY
  {
    var n, r := Quot(phys, BOUNDARY), Rem(phys, BOUNDARY);
    QuotOf(phys + size - 1, BOUNDARY, n);
    QuotOf(phys + size, BOUNDARY, n);
    if phys + size == WORD {
      QuotUnique(WORD, WORD, 1, 0);
      QuotUnique(0, BOUNDARY, 0, 0);
      QuotUnique(WORD, BOUNDARY, BOUNDARY, 0);
      QuotOf(phys, BOUNDARY, 0);
    } else {
      QuotUnique(phys + size, WORD, 0, phys + size);
    }
    if r + size == BOUNDARY {
      QuotUnique(phys + size, BOUNDARY, n + 1, 0);
    } else if r + size < BOUNDARY {
      QuotUnique(phys + size, BOUNDARY, n, r + size);
    }
  }

  /** From 64 KB on, the test with 63 * 1024 asks for alignment, because the addresses are page-aligned. */
  lemma LargeTest(phys: nat, size: nat)
    requires BOUNDARY <= size && phys + size <= WORD && Rem(phys, PAGE_SIZE) == 0
    ensures SamePage(phys, size) <==> WellPlaced(phys, size)
  {
  }

  /** Where the block starts after the shift to the next boundary. */
  function Shift(phys: nat): nat {
    BOUNDARY - Rem(phys, BOUNDARY)
  }

  function WastefulSize(size: nat): nat {
    if size < BOUNDARY then size * 2 else size + BOUNDARY
  }

  /** The next boundary is at most the extra space away, and a block that starts there is well placed. */
  lemma ShiftFits(phys: nat, size: nat)
    requires 0 < size && phys + WastefulSize(size) <= WORD && Rem(phys, PAGE_SIZE) == 0 && !SamePage(phys, size)
    ensures Shift(phys) + size <= WastefulSize(size) && WellPlaced(phys + Shift(phys), size)
    ensures (Quot(phys, BOUNDARY) + 1) * BOUNDARY == phys + Shift(phys) < WORD
  {
    var n, r := Quot(phys, BOUNDARY), Rem(phys, BOUNDARY);
    QuotUnique(phys + Shift(phys), BOUNDARY, n + 1, 0);
    if size < BOUNDARY {
      SmallTest(phys, size);
      QuotOf(phys + size - 1, BOUNDARY, n);
      QuotOf(phys + Shift(phys) + size - 1, BOUNDARY, n + 1);
    } else {
      LargeTest(phys, size);
    }
  }

  /**
   How wasteful the enlarged request is: below 64 KB some placement needs all of it; from 64 KB on page-aligned
   memory needs at most 60 KB more than the block, and the request has a page on top of that.
   */
  lemma WasteIs(size: nat, phys: nat)
    requires 0 < size && Rem(phys, PAGE_SIZE) == 0
    ensures size < BOUNDARY ==> !SamePage(BOUNDARY - size, size) && Shift(BOUNDARY - size) + size == WastefulSize(size)
    ensures BOUNDARY <= size ==> WastefulSize(size) == size + 0xF000 + PAGE_SIZE
    ensures BOUNDARY <= size && Rem(phys, BOUNDARY) != 0 ==> Shift(phys) <= 0xF000
    ensures BOUNDARY <= size ==> Shift(PAGE_SIZE) == 0xF000
  {
    if size < BOUNDARY {
      QuotUnique(BOUNDARY - size, BOUNDARY, 0, BOUNDARY - size);
      SmallTest(BOUNDARY - size, size);
    } else {
      var n, r, k := Quot(phys, BOUNDARY), Rem(phys, BOUNDARY), Quot(phys, PAGE_SIZE);
      assert r == PAGE_SIZE * (k - 16 * n);
      QuotUnique(PAGE_SIZE, BOUNDARY, 0, PAGE_SIZE);
    }
  }

  lemma TestImpliesPlaced(phys: nat, size: nat)
    requires 0 < size && phys + size <= WORD && Rem(phys, PAGE_SIZE) == 0 && SamePage(phys, size)
    ensures WellPlaced(phys, size)
  {
  }

  // ---------------------------------------------------------------- which request serves a page call

  /** The i-th answer; without it, the request counts as refused. */
  function AnswerAt(a: seq<Answer>, i: nat): Answer {
    if i < |a| then a[i] else Refused
  }

  predicate Suits(x: Answer, size: nat) {
    x.Granted? && x.phys != 0 && SamePage(x.phys, size)
  }

  predicate Crosses(x: Answer, size: nat) {
    x.Granted? && x.phys != 0 && !SamePage(x.phys, size)
  }

  predicate Untranslated(x: Answer) {
    x.Granted? && x.phys == 0
  }

  /** How many requests __get_free_dma_pages makes, and whether it is satisfied with the last one. */
  function CheapTries(size: nat, a: seq<Answer>): nat {
    if Crosses(AnswerAt(a, 0), size) then 2 else 1
  }

  predicate CheapWorks(size: nat, a: seq<Answer>) {
    if Crosses(AnswerAt(a, 0), size) then Suits(AnswerAt(a, 1), size) || Untranslated(AnswerAt(a, 1))
    else Suits(AnswerAt(a, 0), size)
  }

  /** The sizes that __get_free_pages asks VMAlloc for, given the answers. */
  function Asked(dma: bool, size: nat, a: seq<Answer>): seq<nat> {
    if !dma then [size]
    else
      var cheap := if CheapTries(size, a) == 1 then [size] else [size, size];
      if CheapWorks(size, a) then cheap else cheap + [WastefulSize(size)]
  }

  predicate Answered(asked: seq<nat>, a: seq<Answer>) {
    |a| == |asked| && forall i :: 0 <= i < |a| ==> a[i].Granted? ==> a[i].size == asked[i]
  }

  /** How a page call ends: the region, the block's address, and whether the base-address list has it. */
  datatype Outcome = Failed | Served(base: int, addr: int, recorded: bool)

  /** What __get_free_pages makes of the answers. */
  function Serve(dma: bool, size: nat, a: seq<Answer>): Outcome {
    if dma && CheapWorks(size, a) then
      var x := AnswerAt(a, CheapTries(size, a) - 1);
      Served(x.addr, x.addr, true)
    else
      var x := AnswerAt(a, if dma then CheapTries(size, a) else 0);
      if x.Refused? then Failed
      else if !dma then Served(x.addr, x.addr, true)
      else if Suits(x, size) then Served(x.addr, x.addr, false)
      else if Crosses(x, size) then Served(x.addr, x.addr + Shift(x.phys), true)
      else Failed
  }

  /**
   Main result on one call, whatever VMAlloc answers. It fails exactly if its last request is refused or,
   for DMA, was the enlarged one and cannot be translated; the block goes unrecorded exactly if it lies at
   the start of an enlarged region; a DMA block whose physical address is unknown can only come from the
   second try; and a block is shifted exactly if the enlarged region fails the test, and then to the first
   64 KB boundary behind its start.
   */
  lemma ServedExactly(dma: bool, size: nat, a: seq<Answer>)
    requires 0 < size && Answered(Asked(dma, size, a), a)
    ensures var last, wasteful := a[|a| - 1], a[|a| - 1].Granted? && a[|a| - 1].size == WastefulSize(size);
            && (Serve(dma, size, a).Failed? <==> last.Refused? || (dma && wasteful && last.phys == 0))
            && (Serve(dma, size, a).Served? && !Serve(dma, size, a).recorded <==> dma && wasteful && Suits(last, size))
            && (Serve(dma, size, a).Served? && dma && last.phys == 0 <==>
                  dma && |a| == 2 && Crosses(a[0], size) && Untranslated(a[1]))
            && (Serve(dma, size, a).Served? ==> Serve(dma, size, a).base == last.addr)
    ensures var got, last := Serve(dma, size, a), a[|a| - 1];
            got.Served? && got.addr != got.base ==>
              && dma && last.size == WastefulSize(size) && Crosses(last, size)
              && got.base < got.addr <= got.base + BOUNDARY && Rem(last.phys + (got.addr - got.base), BOUNDARY) == 0
    ensures var got, last := Serve(dma, size, a), a[|a| - 1];
            got.Served? && dma && last.size == WastefulSize(size) && Crosses(last, size) ==> got.addr != got.base
  {
    var last := a[|a| - 1];
    if last.Granted? {
      QuotUnique(last.phys + Shift(last.phys), BOUNDARY, Quot(last.phys, BOUNDARY) + 1, 0);
    }
  }

  /** A one-page DMA request that goes unrecorded: two regions end on a boundary, the enlarged one starts on one. */
  lemma UnrecordedHappens(p: int, q: int, r: int)
    ensures var a := [Granted(p, 4096, 0xF000), Granted(q, 4096, 0x1F000), Granted(r, 8192, 0x20000)];
            Answered(Asked(true, 4096, a), a) && Serve(true, 4096, a) == Served(r, r, false)
  {
    SmallTest(0xF000, 4096);
    SmallTest(0x1F000, 4096);
    SmallTest(0x20000, 4096);
    QuotUnique(0xF000, BOUNDARY, 0, 0xF000);
    QuotUnique(0x1F000, BOUNDARY, 1, 0xF000);
    QuotUnique(0x20000, BOUNDARY, 2, 0);
  }
}
