/**
 What callers of malloc, free and realloc may rely on in every reachable state, and two runs that show
 where lib32/malloc.cpp does less than its comments say.
 */
module HeapRuns {
  import opened Arithmetic
  import opened HeapSpec
  import opened HeapInvariant
  import opened HeapCompaction

  /** In every reachable state each address of the heap lies in exactly one block of the two lists. */
  lemma ReachableTiles(g: Geometry, run: seq<Call>, x: int) returns (b: Block)
    requires GoodGeometry(g) && Legal(g.hdr, Initial(g), run) && g.base <= x < g.limit
    ensures var st := After(g.hdr, Initial(g), run);
            && (b in st.used <==> b !in st.free) && Covers(g.hdr, b, x)
            && (forall c :: c in st.used || c in st.free ==> Covers(g.hdr, c, x) ==> c == b)
            && (forall i, j :: 0 <= i < j < |st.used| ==> st.used[i] != st.used[j])
            && (forall i, j :: 0 <= i < j < |st.free| ==> st.free[i] != st.free[j])
  {
    InitialInv(g);
    RunInv(g, Initial(g), run);
    var st := After(g.hdr, Initial(g), run);
    b := CoveredOnce(g, Blocks(st), x);
    assert b in Elems(st.used) || b in Elems(st.free);
    assert forall c :: c in st.used || c in st.free ==> c in Blocks(st);
  }

  /** HeapCheck's equation, and uMemFree as a function of the free list, after every run. */
  lemma ReachableBytes(g: Geometry, run: seq<Call>)
    requires GoodGeometry(g) && Legal(g.hdr, Initial(g), run)
    ensures var st := After(g.hdr, Initial(g), run);
            && Bytes(g.hdr, st.used) + Bytes(g.hdr, st.free) == g.limit - g.base
            && U32(st.memFree) == if st.free == [] then WORD - g.hdr else Bytes(g.hdr, st.free) - g.hdr
  {
    InitialInv(g);
    RunInv(g, Initial(g), run);
    MemFreeRange(g, After(g.hdr, Initial(g), run));
  }

  // ---------------------------------------------------------------- malloc

  /**
   malloc fails exactly when no free block holds the request; otherwise it takes the first block of the
   free list that does, and the caller gets less than one header plus MIN_FragSize too much.
   */
  lemma MallocFirstFit(g: Geometry, st: State, n: int)
    requires Inv(g, st) && 0 < n && CanMalloc(st, n)
    ensures n <= RoundUp(n) < n + 4 && RoundUp(n) % 4 == 0
    ensures var (st', p) := Malloc(g.hdr, st, n);
            && (p == 0 <==> forall b :: b in st.free ==> b.size < RoundUp(n))
            && (p == 0 ==> st' == st)
            && (p != 0 ==>
                  && |st'.used| == |st.used| + 1 && st'.used[1..] == st.used
                  && st'.used[0].addr + g.hdr == p
                  && RoundUp(n) <= st'.used[0].size < RoundUp(n) + g.hdr + MIN_FRAG_SIZE
                  && exists i :: 0 <= i < |st.free| && st.free[i].addr + g.hdr == p && st.free[i].size >= RoundUp(n)
                       && forall k :: 0 <= k < i ==> st.free[k].size < RoundUp(n))
  {
    var i := FirstFit(st.free, RoundUp(n));
    forall b | b in st.free ensures b.size < HEAP_SIZE {
      assert b in Blocks(st) && FitsIn(g, b);
    }
    if i < |st.free| && n <= HEAP_SIZE {
      assert st.free[i] in Blocks(st) && FitsIn(g, st.free[i]);
      assert st.free[i] in st.free && st.free[i].size >= RoundUp(n);
    }
    assert forall b :: b in st.free ==> exists k :: 0 <= k < |st.free| && st.free[k] == b;
  }

  /** st' has the first block of st.free that holds req bytes, the i-th, or as much of it as is asked for. */
  ghost predicate TakenAt(g: Geometry, st: State, st': State, i: nat, req: int)
    requires i < |st.free|
  {
    var b := st.free[i];
    && (forall k :: 0 <= k < i ==> st.free[k].size < req)
    && st'.used != [] && st'.used[0].addr == b.addr
    && (if b.size - req < g.hdr + MIN_FRAG_SIZE then
          st'.used[0] == b && st'.free == st.free[..i] + st.free[i + 1..]
        else
          && st'.used[0].size == req
          && st'.free == st.free[..i] + [Block(End(g.hdr, st'.used[0]), b.size - g.hdr - req)] + st.free[i + 1..])
  }

  /**
   What a successful malloc leaves of the block it takes: nothing, if less than a header and the smallest
   payload would be left over; otherwise a free block behind the allocation, in the same list position.
   */
  lemma MallocLeaves(g: Geometry, st: State, n: int)
    requires Inv(g, st) && 0 < n && CanMalloc(st, n) && Malloc(g.hdr, st, n).1 != 0
    ensures exists i {:trigger TakenAt(g, st, Malloc(g.hdr, st, n).0, i, RoundUp(n))} ::
              0 <= i < |st.free| && TakenAt(g, st, Malloc(g.hdr, st, n).0, i, RoundUp(n))
  {
    var i, st' := FirstFit(st.free, RoundUp(n)), Malloc(g.hdr, st, n).0;
    UpdatedIs(st.free, i, Back(g.hdr, st.free[i], RoundUp(n)));
    assert TakenAt(g, st, st', i, RoundUp(n));
  }

  lemma UpdatedIs(s: seq<Block>, i: nat, b: Block)
    requires i < |s|
    ensures s[i := b] == s[..i] + [b] + s[i + 1..]
  {
  }

  /** Requests for nothing, or for more than the heap can ever hold, are refused. */
  lemma MallocRefused(hdr: int, st: State, n: int)
    requires n == 0 || n > HEAP_SIZE
    ensures Malloc(hdr, st, n) == (st, 0)
  {
  }

  /** A successful malloc returns memory that was free and that no live block has any part of. */
  lemma MallocDisjoint(g: Geometry, st: State, n: int)
    requires Inv(g, st) && 0 < n && CanMalloc(st, n) && Malloc(g.hdr, st, n).1 != 0
    ensures var b := Malloc(g.hdr, st, n).0.used[0];
            && b !in st.used
            && (forall c :: c in st.used ==> Apart(g.hdr, b, c))
            && (forall x :: Covers(g.hdr, b, x) ==> ByteIn(g.hdr, Elems(st.free), x))
  {
    MallocInv(g, st, n);
    var st' := Malloc(g.hdr, st, n).0;
    var b, f := st'.used[0], st.free[FirstFit(st.free, RoundUp(n))];
    assert f in Elems(st.free) && f in Blocks(st) && b in Blocks(st') && FitsIn(g, f);
    forall c | c in st.used ensures b != c && Apart(g.hdr, b, c) {
      var k :| 0 <= k < |st.used| && st.used[k] == c;
      assert st'.used[k + 1] == c && c in Elems(st'.used);
      assert Apart(g.hdr, b, c);
    }
    assert forall x :: Covers(g.hdr, b, x) ==> Covers(g.hdr, f, x);
  }

  /**
   malloc dereferences the head of the free list without a test. The list becomes empty exactly when
   its only block is allocated whole, and the very first request can do that.
   */
  lemma WhenFreeListRunsOut(g: Geometry, st: State, n: int)
    requires Inv(g, st) && CanMalloc(st, n) && st.free != []
    ensures Malloc(g.hdr, st, n).0.free == []
        <==> 0 < n && |st.free| == 1 && RoundUp(n) <= st.free[0].size < RoundUp(n) + g.hdr + MIN_FRAG_SIZE
  {
    assert st.free[0] in Blocks(st) && FitsIn(g, st.free[0]);
  }

  lemma FirstRequestCanExhaust(g: Geometry, n: int)
    requires GoodGeometry(g)
    ensures var whole := [CallMalloc(g.limit - g.base - g.hdr)];
            && Legal(g.hdr, Initial(g), whole) && After(g.hdr, Initial(g), whole).free == []
            && (0 < n <= HEAP_SIZE ==> !CanCall(g.hdr, After(g.hdr, Initial(g), whole), CallMalloc(n)))
  {
  }

  // ---------------------------------------------------------------- realloc

  /** realloc moves the block: the old one goes, one new block comes, every other one stays as it was. */
  lemma ReallocEffect(g: Geometry, st: State, p: int, n: int)
    requires Inv(g, st) && CanRealloc(g.hdr, st, p, n) && p != 0 && 0 < n
    ensures var (st', pv) := Realloc(g.hdr, st, p, n);
            && (pv == 0 <==> Malloc(g.hdr, st, n).1 == 0)
            && (pv == 0 ==> st' == st)
            && (pv != 0 ==>
                  && st'.used != [] && st'.used == [st'.used[0]] + Without(st.used, Find(st.used, p - g.hdr))
                  && st'.used[0] !in st.used && st'.used[0].addr + g.hdr == pv && st'.used[0].size >= n
                  && (forall c :: c in st.used ==> Apart(g.hdr, st'.used[0], c)))
  {
    MallocFirstFit(g, st, n);
    if Malloc(g.hdr, st, n).1 != 0 {
      ReallocMoves(g, st, p, n);
    }
  }

  /** The three states of a realloc that moves the block. */
  lemma ReallocMoves(g: Geometry, st: State, p: int, n: int)
    requires Inv(g, st) && CanRealloc(g.hdr, st, p, n) && p != 0 && 0 < n && Malloc(g.hdr, st, n).1 != 0
    ensures var (st1, pv) := Malloc(g.hdr, st, n);
            var k := Find(st.used, p - g.hdr);
            && st1.used != [] && st1.used == [st1.used[0]] + st.used
            && Live(g.hdr, st1, p) && Find(st1.used, p - g.hdr) == k + 1
            && Realloc(g.hdr, st, p, n) == (Free(g.hdr, st1, p), pv)
            && Free(g.hdr, st1, p).used == [st1.used[0]] + Without(st.used, k)
            && st1.used[0].addr + g.hdr == pv && st1.used[0].size >= n && st1.used[0] !in st.used
            && FitsIn(g, st1.used[0]) && FitsIn(g, st.used[k])
            && forall c :: c in st.used ==> Apart(g.hdr, st1.used[0], c)
  {
    var st1 := Malloc(g.hdr, st, n).0;
    MallocFirstFit(g, st, n);
    MallocInv(g, st, n);
    MallocDisjoint(g, st, n);
    LiveAfterMalloc(g.hdr, st, n, p);
    var b, k := st1.used[0], Find(st.used, p - g.hdr);
    assert st1.used == [b] + st.used;
    FindBehind(g, st1, k + 1, p - g.hdr);
    assert Without(st1.used, k + 1) == [b] + Without(st.used, k);
    assert b in Elems(st1.used) && FitsIn(g, b);
    assert st.used[k] in Elems(st.used) && FitsIn(g, st.used[k]);
  }

  /** Headers of live blocks have different addresses. */
  lemma FindBehind(g: Geometry, st: State, k: nat, addr: int)
    requires Inv(g, st) && k < |st.used| && st.used[k].addr == addr
    ensures Find(st.used, addr) == k
  {
    var i := Find(st.used, addr);
    assert st.used[i] in Elems(st.used) && st.used[k] in Elems(st.used);
    assert FitsIn(g, st.used[i]) && FitsIn(g, st.used[k]);
    assert st.used[i] != st.used[k] ==> Apart(g.hdr, st.used[i], st.used[k]);
  }

  /** An address of the heap is free exactly if no used block covers it. */
  lemma FreeOrUsed(g: Geometry, st: State, x: int)
    requires Inv(g, st) && g.base <= x < g.limit
    ensures ByteIn(g.hdr, Elems(st.free), x) <==> forall b :: b in st.used ==> !Covers(g.hdr, b, x)
  {
    var b := CoveredOnce(g, Blocks(st), x);
    assert b in Elems(st.used) || b in Elems(st.free);
    if b in Elems(st.used) {
      forall c | c in Elems(st.free) ensures !Covers(g.hdr, c, x) {
        assert c in Blocks(st);
      }
    } else {
      forall c | c in st.used ensures !Covers(g.hdr, c, x) {
        assert c in Elems(st.used) && c in Blocks(st);
      }
    }
  }

  /** What is free after a realloc that moves the block: what was free and the old block, less the new one. */
  lemma ReallocFreeBytes(g: Geometry, st: State, p: int, n: int, x: int)
    requires Inv(g, st) && CanRealloc(g.hdr, st, p, n) && p != 0 && 0 < n && Malloc(g.hdr, st, n).1 != 0
    requires g.base <= x < g.limit
    ensures var st', old' := Realloc(g.hdr, st, p, n).0, st.used[Find(st.used, p - g.hdr)];
            && st'.used != []
            && (ByteIn(g.hdr, Elems(st'.free), x) <==>
                  !Covers(g.hdr, st'.used[0], x) && (ByteIn(g.hdr, Elems(st.free), x) || Covers(g.hdr, old', x)))
  {
    var st', k := Realloc(g.hdr, st, p, n).0, Find(st.used, p - g.hdr);
    ReallocMoves(g, st, p, n);
    StepInv(g, st, CallRealloc(p, n));
    FreeMoves(g, st, st', k, st'.used[0], x);
  }

  /** Of two sound states, the second has b instead of the k-th used block of the first. */
  lemma FreeMoves(g: Geometry, st: State, st': State, k: nat, b: Block, x: int)
    requires Inv(g, st) && Inv(g, st') && g.base <= x < g.limit
    requires k < |st.used| && st'.used == [b] + Without(st.used, k)
    ensures ByteIn(g.hdr, Elems(st'.free), x)
        <==> !Covers(g.hdr, b, x) && (ByteIn(g.hdr, Elems(st.free), x) || Covers(g.hdr, st.used[k], x))
  {
    FreeOrUsed(g, st, x);
    FreeOrUsed(g, st', x);
    OtherBlocks(g, st, k);
    assert forall c :: c in st'.used <==> c == b || c in Without(st.used, k);
  }

  /** free() takes exactly the block of p off the used list; its bytes are free, and all that were free still are. */
  lemma FreeEffect(g: Geometry, st: State, p: int, x: int)
    requires Inv(g, st) && Live(g.hdr, st, p) && p != 0 && g.base <= x < g.limit
    ensures var st' := Free(g.hdr, st, p);
            exists k :: && 0 <= k < |st.used| && st.used[k].addr + g.hdr == p
              && st'.used == st.used[..k] + st.used[k + 1..]
              && (ByteIn(g.hdr, Elems(st'.free), x) <==> ByteIn(g.hdr, Elems(st.free), x) || Covers(g.hdr, st.used[k], x))
  {
    var st', k := Free(g.hdr, st, p), Find(st.used, p - g.hdr);
    FreeInv(g, st, p);
    FreeOrUsed(g, st, x);
    FreeOrUsed(g, st', x);
    OtherBlocks(g, st, k);
    assert st'.used == st.used[..k] + st.used[k + 1..];
  }

  /** realloc of NULL is malloc, with first fit and a block of its own; realloc to nothing is free. */
  lemma ReallocEdges(g: Geometry, st: State, p: int, n: int)
    requires Inv(g, st) && CanRealloc(g.hdr, st, p, n) && n >= 0 && (p == 0 || n == 0)
    ensures var (st', pv) := Realloc(g.hdr, st, p, n);
            if p != 0 then
              pv == 0 && exists k :: 0 <= k < |st.used| && st.used[k].addr + g.hdr == p && st'.used == st.used[..k] + st.used[k + 1..]
            else
              && (pv == 0 <==> n == 0 || forall b :: b in st.free ==> b.size < RoundUp(n))
              && (pv == 0 ==> st' == st)
              && (pv != 0 ==>
                    && |st'.used| == |st.used| + 1 && st'.used[1..] == st.used && st'.used[0].addr + g.hdr == pv && st'.used[0].size >= n
                    && (forall c :: c in st.used ==> Apart(g.hdr, st'.used[0], c))
                    && exists i :: 0 <= i < |st.free| && st.free[i].addr + g.hdr == pv && forall k :: 0 <= k < i ==> st.free[k].size < RoundUp(n))
  {
    if p != 0 {
      FreeEffect(g, st, p, g.base);
    } else if n > 0 {
      MallocFirstFit(g, st, n);
      if Malloc(g.hdr, st, n).1 != 0 {
        MallocDisjoint(g, st, n);
      }
    }
  }

  /** The used blocks but the k-th lie apart from it. */
  lemma OtherBlocks(g: Geometry, st: State, k: nat)
    requires Inv(g, st) && k < |st.used|
    ensures forall c :: c in st.used <==> c == st.used[k] || c in Without(st.used, k)
    ensures forall c :: c in Without(st.used, k) ==> Apart(g.hdr, c, st.used[k])
  {
    var rest := Without(st.used, k);
    WithoutElems(st.used, k);
    assert forall c :: c in st.used <==> c in Elems(st.used);
    assert forall c :: c in rest <==> c in Elems(rest);
    forall c | c in rest ensures Apart(g.hdr, c, st.used[k]) {
      assert c in Blocks(st) && st.used[k] in Blocks(st) && c != st.used[k];
    }
  }

  // ---------------------------------------------------------------- coalescing along runs

  /**
   One call of free() from a reachable state whose free list is compacted: it stays compacted unless
   the block is stranded.
   */
  lemma FreeCoalesces(g: Geometry, st: State, p: int)
    requires Inv(g, st) && Live(g.hdr, st, p) && p != 0 && Compacted(g.hdr, Elems(st.free))
    ensures Compacted(g.hdr, Elems(Free(g.hdr, st, p).free))
        <==> !Stranded(g.hdr, st.free, st.used[Find(st.used, p - g.hdr)])
  {
    var i := Find(st.used, p - g.hdr);
    UnlinkInv(g, st, i);
    CoalescingExact(g, Elems(Without(st.used, i)), st.used[i], st.free);
  }

  /** malloc never makes two free blocks adjacent. */
  lemma MallocKeepsCompacted(g: Geometry, st: State, n: int)
    requires Inv(g, st) && CanMalloc(st, n) && Compacted(g.hdr, Elems(st.free))
    ensures Compacted(g.hdr, Elems(Malloc(g.hdr, st, n).0.free))
  {
    var i := FirstFit(st.free, RoundUp(n));
    if n != 0 && n <= HEAP_SIZE && i < |st.free| {
      var b, free := st.free[i], Elems(st.free);
      assert b in free && b in Blocks(st);
      if Splits(g.hdr, b, RoundUp(n)) {
        var y := Back(g.hdr, b, RoundUp(n));
        SplitTiled(g, Blocks(st), b, RoundUp(n));
        ReplaceElems(st.free, i, y);
        forall c | c in free && c != b ensures !Touch(g.hdr, c, y) && !Touch(g.hdr, y, c) {
          assert c in Blocks(st) && FitsIn(g, c) && FitsIn(g, b) && Apart(g.hdr, c, b);
          assert !Touch(g.hdr, b, c);
        }
      } else {
        WithoutElems(st.free, i);
      }
    }
  }

  /** The call frees a block that is stranded at that moment. */
  ghost predicate Strands(hdr: int, st: State, c: Call)
    requires CanCall(hdr, st, c)
  {
    match c
    case CallMalloc(_) => false
    case CallFree(p) => p != 0 && Stranded(hdr, st.free, st.used[Find(st.used, p - hdr)])
    case CallRealloc(p, n) =>
      if p == 0 then false
      else if n == 0 then Stranded(hdr, st.free, st.used[Find(st.used, p - hdr)])
      else
        LiveAfterMalloc(hdr, st, n, p);
        var (st', pv) := Malloc(hdr, st, n);
        pv != 0 && Stranded(hdr, st'.free, st'.used[Find(st'.used, p - hdr)])
  }

  ghost predicate NeverStrands(hdr: int, st: State, run: seq<Call>)
    requires Legal(hdr, st, run)
    decreases |run|
  {
    run == [] || (!Strands(hdr, st, run[0]) && NeverStrands(hdr, Step(hdr, st, run[0]), run[1..]))
  }

  /** No two free blocks are adjacent, now and after each call of the run. */
  ghost predicate AlwaysCompacted(hdr: int, st: State, run: seq<Call>)
    requires Legal(hdr, st, run)
    decreases |run|
  {
    Compacted(hdr, Elems(st.free)) && (run == [] || AlwaysCompacted(hdr, Step(hdr, st, run[0]), run[1..]))
  }

  lemma StepCoalesces(g: Geometry, st: State, c: Call)
    requires Inv(g, st) && CanCall(g.hdr, st, c) && Compacted(g.hdr, Elems(st.free))
    ensures Compacted(g.hdr, Elems(Step(g.hdr, st, c).free)) <==> !Strands(g.hdr, st, c)
  {
    match c
    case CallMalloc(n) => MallocKeepsCompacted(g, st, n);
    case CallFree(p) =>
      if p != 0 {
        FreeCoalesces(g, st, p);
      }
    case CallRealloc(p, n) =>
      if p == 0 {
        MallocKeepsCompacted(g, st, n);
      } else if n == 0 {
        FreeCoalesces(g, st, p);
      } else {
        MallocKeepsCompacted(g, st, n);
        MallocInv(g, st, n);
        LiveAfterMalloc(g.hdr, st, n, p);
        if Malloc(g.hdr, st, n).1 != 0 {
          FreeCoalesces(g, Malloc(g.hdr, st, n).0, p);
        }
      }
  }

  /** Main result: over a whole run the free list stays compacted exactly if no call frees a stranded block. */
  lemma {:induction false} RunCoalesces(g: Geometry, st: State, run: seq<Call>)
    requires Inv(g, st) && Legal(g.hdr, st, run) && Compacted(g.hdr, Elems(st.free))
    ensures AlwaysCompacted(g.hdr, st, run) <==> NeverStrands(g.hdr, st, run)
    decreases |run|
  {
    if run != [] {
      StepInv(g, st, run[0]);
      StepCoalesces(g, st, run[0]);
      if !Strands(g.hdr, st, run[0]) {
        RunCoalesces(g, Step(g.hdr, st, run[0]), run[1..]);
      }
    }
  }

  /** The free list that stranding needs is reached from a fresh heap by six allocations and three frees. */
  function StrandingRun(base: int): seq<Call> {
    [CallMalloc(4), CallMalloc(4), CallMalloc(4), CallMalloc(4), CallMalloc(4), CallMalloc(4),
     CallFree(base + 44), CallFree(base + 12), CallFree(base + 76), CallFree(base + 28)]
  }

  /** Addresses of the run's blocks: the k-th has its header at base + 16 * k. */
  function Cell(base: int, k: int): Block {
    Block(base + 16 * k, 4)
  }

  lemma RunUnroll(hdr: int, st: State, c: Call, run: seq<Call>)
    requires CanCall(hdr, st, c) && Legal(hdr, Step(hdr, st, c), run)
    ensures Legal(hdr, st, [c] + run)
    ensures After(hdr, st, [c] + run) == After(hdr, Step(hdr, st, c), run)
  {
  }

  /** k used cells, newest first, and the rest of the heap free. */
  function Filled(base: int, k: int): State
    requires 0 <= k
  {
    State(seq(k, i requires 0 <= i < k => Cell(base, k - 1 - i)),
          [Block(base + 16 * k, HEAP_SIZE - 12 - 16 * k)], HEAP_SIZE - 12 - 16 * k)
  }

  lemma FillOne(base: int, k: int)
    requires 0 <= k < 6
    ensures Malloc(12, Filled(base, k), 4).0 == Filled(base, k + 1)
  {
    var st := Filled(base, k);
    assert FirstFit(st.free, 4) == 0;
    assert [Cell(base, k)] + st.used == Filled(base, k + 1).used;
  }

  lemma FindIn(s: seq<Block>, i: nat)
    requires i < |s| && forall k :: 0 <= k < i ==> s[k].addr != s[i].addr
    ensures Find(s, s[i].addr) == i
  {
  }

  /** What compact() makes of the free list at each of the run's frees. */
  lemma FourCompactions(base: int)
    ensures var rest := Block(base + 96, HEAP_SIZE - 108);
            var p, b, q, x := Cell(base, 0), Cell(base, 1), Cell(base, 2), Cell(base, 4);
            && Compact(12, [q, rest]) == [q, rest]
            && Compact(12, [p, q, rest]) == [p, q, rest]
            && Compact(12, [x, p, q, rest]) == [x, p, q, rest]
            && Compact(12, [b, x, p, q, rest]) == [x, Block(base, 20), q, rest]
  {
    var rest := Block(base + 96, HEAP_SIZE - 108);
    var p, b, q, x := Cell(base, 0), Cell(base, 1), Cell(base, 2), Cell(base, 4);
    PassOver(12, [q, rest], 1, 2, 0);
    PassOver(12, [p, q, rest], 1, 3, 0);
    PassOver(12, [x, p, q, rest], 1, 4, 0);
    PassOver(12, [b, x, p, q, rest], 1, 2, 0);
    assert JoinHead(12, [b, x, p, q, rest], 2) == [x, Block(base, 20), q, rest];
    PassOver(12, [x, Block(base, 20), q, rest], 2, 4, 1);
  }

  /** The heap after k of the four frees. */
  function Freed(base: int, k: nat): State {
    var rest := Block(base + 96, HEAP_SIZE - 108);
    var p, b, q, s, x, t := Cell(base, 0), Cell(base, 1), Cell(base, 2), Cell(base, 3), Cell(base, 4), Cell(base, 5);
    if k == 0 then State([t, x, s, q, b, p], [rest], HEAP_SIZE - 108)
    else if k == 1 then State([t, x, s, b, p], [q, rest], HEAP_SIZE - 92)
    else if k == 2 then State([t, x, s, b], [p, q, rest], HEAP_SIZE - 76)
    else if k == 3 then State([t, s, b], [x, p, q, rest], HEAP_SIZE - 60)
    else State([t, s], [x, Block(base, 20), q, rest], HEAP_SIZE - 44)
  }

  /** What the k-th free() of the run unlinks, and what it hands to compact(). */
  lemma FreeUnlinks(base: int, k: nat, i: nat)
    requires k < 4 && i == [3, 4, 1, 2][k]
    ensures var st := Freed(base, k);
            && i < |st.used| && Find(st.used, st.used[i].addr) == i
            && Without(st.used, i) == Freed(base, k + 1).used
            && st.used[i] == Cell(base, [2, 0, 4, 1][k])
  {
    FindIn(Freed(base, k).used, i);
  }

  lemma FreeCompacts(base: int, k: nat)
    requires k < 4
    ensures Compact(12, [Cell(base, [2, 0, 4, 1][k])] + Freed(base, k).free) == Freed(base, k + 1).free
  {
    FourCompactions(base);
    var p, q, x, rest := Cell(base, 0), Cell(base, 2), Cell(base, 4), Block(base + 96, HEAP_SIZE - 108);
    if k == 0 {
      assert [q] + Freed(base, k).free == [q, rest];
    } else if k == 1 {
      assert [p] + Freed(base, k).free == [p, q, rest];
    } else if k == 2 {
      assert [x] + Freed(base, k).free == [x, p, q, rest];
    } else {
      assert [Cell(base, 1)] + Freed(base, k).free == [Cell(base, 1), x, p, q, rest];
    }
  }

  lemma FreeIs(st: State, b: Block, used: seq<Block>, free: seq<Block>, run: seq<Call>)
    requires 0 < b.addr && b.size == 4 && 0 <= st.memFree < HEAP_SIZE
    requires var i := Find(st.used, b.addr);
             i < |st.used| && st.used[i] == b && used == Without(st.used, i) && free == Compact(12, [b] + st.free)
    requires Legal(12, State(used, free, st.memFree + 16), run)
    ensures Legal(12, st, [CallFree(b.addr + 12)] + run)
    ensures After(12, st, [CallFree(b.addr + 12)] + run) == After(12, State(used, free, st.memFree + 16), run)
  {
  }

  /** The k-th free() of the run releases the block at position i of the used list. */
  lemma FreeOne(base: int, k: nat, i: nat, run: seq<Call>)
    requires 0 < base && k < 4 && i == [3, 4, 1, 2][k]
    requires Legal(12, Freed(base, k + 1), run)
    ensures var c := CallFree(base + [44, 12, 76, 28][k]);
            Legal(12, Freed(base, k), [c] + run) && After(12, Freed(base, k), [c] + run) == After(12, Freed(base, k + 1), run)
  {
    FreeUnlinks(base, k, i);
    FreeCompacts(base, k);
    var st, st' := Freed(base, k), Freed(base, k + 1);
    assert st' == State(st'.used, st'.free, st.memFree + 16);
    FreeIs(st, Cell(base, [2, 0, 4, 1][k]), st'.used, st'.free, run);
  }

  lemma StrandingFrees(base: int)
    requires 0 < base
    ensures var run := [CallFree(base + 44)] + ([CallFree(base + 12)] + ([CallFree(base + 76)] + ([CallFree(base + 28)] + [])));
            Legal(12, Freed(base, 0), run) && After(12, Freed(base, 0), run) == Freed(base, 4)
  {
    var c4 := [CallFree(base + 28)] + [];
    var c3 := [CallFree(base + 76)] + c4;
    var c2 := [CallFree(base + 12)] + c3;
    FreeOne(base, 3, 2, []);
    FreeOne(base, 2, 1, c4);
    FreeOne(base, 1, 4, c3);
    FreeOne(base, 0, 3, c2);
  }

  function Mallocs(k: nat): seq<Call> {
    if k == 0 then [] else [CallMalloc(4)] + Mallocs(k - 1)
  }

  lemma SixMallocs()
    ensures Mallocs(6) == [CallMalloc(4), CallMalloc(4), CallMalloc(4), CallMalloc(4), CallMalloc(4), CallMalloc(4)]
  {
  }

  lemma {:induction false} FillRun(base: int, k: nat, run: seq<Call>)
    requires k <= 6 && Legal(12, Filled(base, 6), run)
    ensures Legal(12, Filled(base, 6 - k), Mallocs(k) + run)
    ensures After(12, Filled(base, 6 - k), Mallocs(k) + run) == After(12, Filled(base, 6), run)
    decreases k
  {
    if k == 0 {
      assert Mallocs(0) + run == run;
    } else {
      FillOne(base, 6 - k);
      FillRun(base, k - 1, run);
      RunUnroll(12, Filled(base, 6 - k), CallMalloc(4), Mallocs(k - 1) + run);
      assert [CallMalloc(4)] + (Mallocs(k - 1) + run) == Mallocs(k) + run;
    }
  }

  /** A reachable state with two adjacent free blocks: the free list is not always compacted. */
  lemma StrandingReachable(base: int)
    requires 0 < base && base % 4 == 0
    ensures var g := Geometry(12, base, base + HEAP_SIZE);
            && GoodGeometry(g) && Legal(12, Initial(g), StrandingRun(base))
            && !Compacted(12, Elems(After(12, Initial(g), StrandingRun(base)).free))
  {
    var g := Geometry(12, base, base + HEAP_SIZE);
    StrandingLegal(base);
    var free := Freed(base, 4).free;
    assert free[1] in Elems(free) && free[2] in Elems(free);
    assert Touch(12, free[1], free[2]);
  }

  lemma StrandingLegal(base: int)
    requires 0 < base
    ensures var st := Initial(Geometry(12, base, base + HEAP_SIZE));
            Legal(12, st, StrandingRun(base)) && After(12, st, StrandingRun(base)) == Freed(base, 4)
  {
    var frees := [CallFree(base + 44)] + ([CallFree(base + 12)] + ([CallFree(base + 76)] + ([CallFree(base + 28)] + [])));
    StrandingFrees(base);
    FilledIs(base);
    FillRun(base, 6, frees);
    SixMallocs();
    assert Mallocs(6) + frees == StrandingRun(base);
  }

  lemma FilledIs(base: int)
    ensures Filled(base, 0) == Initial(Geometry(12, base, base + HEAP_SIZE))
    ensures Filled(base, 6) == Freed(base, 0)
  {
  }
}
