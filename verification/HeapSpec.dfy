/**
 The first-fit heap of lib32/malloc.cpp on values: the two block lists as sequences, and what malloc,
 free, compact and realloc do to them. `Heap` (HeapManager.dfy) is the same program over linked headers in
 memory and is proved to perform exactly these steps.
 */
module HeapSpec {
  import opened Arithmetic

  const HEAP_SIZE := 131072
  const MIN_FRAG_SIZE := 4

  /** A memory block: the address of its header and the size of its payload. */
  datatype Block = Block(addr: int, size: int)

  /** Header size (12, or 20 with DEBUGHEAP) and the half-open address range of the heap. */
  datatype Geometry = Geometry(hdr: int, base: int, limit: int)

  /** The used and free lists, head first, and the count of free bytes, which uMemFree holds modulo 2^32. */
  datatype State = State(used: seq<Block>, free: seq<Block>, memFree: int)

  ghost predicate GoodGeometry(g: Geometry) {
    && 12 <= g.hdr && g.hdr % 4 == 0
    && 0 < g.base && g.base % 4 == 0
    && g.base + g.hdr + MIN_FRAG_SIZE <= g.limit <= g.base + HEAP_SIZE && g.limit % 4 == 0
  }

  /** Where a block physically following b starts: the macro after(). */
  function End(hdr: int, b: Block): int {
    b.addr + hdr + b.size
  }

  function Initial(g: Geometry): State {
    State([], [Block(g.base, g.limit - g.base - g.hdr)], g.limit - g.base - g.hdr)
  }

  function Without(s: seq<Block>, i: nat): seq<Block>
    requires i < |s|
  {
    s[..i] + s[i + 1..]
  }

  // ---------------------------------------------------------------- malloc

  /** Index of the first block of f that holds req bytes, or |f|. */
  function FirstFit(f: seq<Block>, req: int): (i: nat)
    ensures i <= |f|
    ensures i < |f| ==> f[i].size >= req
    ensures forall k :: 0 <= k < i ==> f[k].size < req
  {
    if f == [] then 0 else if f[0].size >= req then 0 else 1 + FirstFit(f[1..], req)
  }

  /** (n + 3) & -4 */
  function RoundUp(n: int): int {
    (n + 3) / 4 * 4
  }

  lemma RoundUpFacts(n: int)
    ensures n <= RoundUp(n) < n + 4 && RoundUp(n) % 4 == 0
    ensures 0 < n ==> 4 <= RoundUp(n)
  {
  }

  predicate Splits(hdr: int, b: Block, req: int) {
    req + (hdr + MIN_FRAG_SIZE) <= b.size
  }

  /** What becomes of b once req bytes of it are allocated. */
  function Front(hdr: int, b: Block, req: int): Block {
    if Splits(hdr, b, req) then Block(b.addr, req) else b
  }

  /** The free block left over behind the allocation. */
  function Back(hdr: int, b: Block, req: int): Block {
    Block(b.addr + hdr + req, b.size - (req + hdr))
  }

  function Allocate(hdr: int, st: State, i: nat, req: int): State
    requires i < |st.free|
  {
    var b := st.free[i];
    State([Front(hdr, b, req)] + st.used,
          if Splits(hdr, b, req) then st.free[i := Back(hdr, b, req)] else Without(st.free, i),
          st.memFree - (Front(hdr, b, req).size + hdr))
  }

  /** The state after malloc(n) and the pointer it returns (0 for NULL). */
  function Malloc(hdr: int, st: State, n: int): (State, int) {
    if n == 0 || n > HEAP_SIZE then (st, 0) else
    var i := FirstFit(st.free, RoundUp(n));
    if i == |st.free| then (st, 0) else (Allocate(hdr, st, i, RoundUp(n)), st.free[i].addr + hdr)
  }

  // ---------------------------------------------------------------- free

  /** The block at i swallows the list head, which physically follows it; the head leaves the list. */
  function JoinHead(hdr: int, f: seq<Block>, i: nat): seq<Block>
    requires 1 <= i < |f|
  {
    f[i := Block(f[i].addr, f[i].size + hdr + f[0].size)][1..]
  }

  /** The list head swallows the block at i, which physically follows it. */
  function JoinNext(hdr: int, f: seq<Block>, i: nat): seq<Block>
    requires 1 <= i < |f|
  {
    Without(f[0 := Block(f[0].addr, f[0].size + hdr + f[i].size)], i)
  }

  /** The loop of compact() from list position i on, after `joined` joins. */
  function CompactFrom(hdr: int, f: seq<Block>, i: nat, joined: nat): seq<Block>
    requires 1 <= i
    decreases |f| - i
  {
    if i >= |f| || joined >= 2 then f
    else if End(hdr, f[i]) == f[0].addr then CompactFrom(hdr, JoinHead(hdr, f, i), i, joined + 1)
    else if End(hdr, f[0]) == f[i].addr then CompactFrom(hdr, JoinNext(hdr, f, i), i, joined + 1)
    else CompactFrom(hdr, f, i + 1, joined)
  }

  function Compact(hdr: int, f: seq<Block>): seq<Block> {
    CompactFrom(hdr, f, 1, 0)
  }

  /** Position in s of the block whose header is at addr, or |s|. */
  function Find(s: seq<Block>, addr: int): (i: nat)
    ensures i <= |s|
    ensures i < |s| ==> s[i].addr == addr
    ensures forall k :: 0 <= k < i ==> s[k].addr != addr
  {
    if s == [] then 0 else if s[0].addr == addr then 0 else 1 + Find(s[1..], addr)
  }

  predicate Live(hdr: int, st: State, p: int) {
    Find(st.used, p - hdr) < |st.used|
  }

  /** The state after free(p). */
  function Free(hdr: int, st: State, p: int): State
    requires p == 0 || Live(hdr, st, p)
  {
    if p == 0 then st else
    var i := Find(st.used, p - hdr);
    State(Without(st.used, i),
          Compact(hdr, [st.used[i]] + st.free),
          st.memFree + (st.used[i].size + hdr))
  }

  // ---------------------------------------------------------------- realloc and runs

  /** What malloc(n) demands: it looks at the head of the free list without testing it. */
  predicate CanMalloc(st: State, n: int) {
    n >= 0 && (n == 0 || n > HEAP_SIZE || st.free != [])
  }

  predicate CanRealloc(hdr: int, st: State, p: int, n: int) {
    if p == 0 then CanMalloc(st, n) else Live(hdr, st, p) && n >= 0 && (n == 0 || CanMalloc(st, n))
  }

  /** Placement of a block that moves to the front of the used list leaves the others findable. */
  lemma LiveAfterMalloc(hdr: int, st: State, n: int, p: int)
    requires Live(hdr, st, p)
    ensures Live(hdr, Malloc(hdr, st, n).0, p)
  {
  }

  function Realloc(hdr: int, st: State, p: int, n: int): (State, int)
    requires CanRealloc(hdr, st, p, n)
  {
    if p == 0 then Malloc(hdr, st, n)
    else if n == 0 then (Free(hdr, st, p), 0)
    else
      var (st', pv) := Malloc(hdr, st, n);
      if pv == 0 then (st', 0) else
      LiveAfterMalloc(hdr, st, n, p);
      (Free(hdr, st', p), pv)
  }

  datatype Call = CallMalloc(n: int) | CallFree(p: int) | CallRealloc(p: int, n: int)

  predicate CanCall(hdr: int, st: State, c: Call) {
    match c
    case CallMalloc(n) => CanMalloc(st, n)
    case CallFree(p) => p == 0 || Live(hdr, st, p)
    case CallRealloc(p, n) => CanRealloc(hdr, st, p, n)
  }

  function Step(hdr: int, st: State, c: Call): State
    requires CanCall(hdr, st, c)
  {
    match c
    case CallMalloc(n) => Malloc(hdr, st, n).0
    case CallFree(p) => Free(hdr, st, p)
    case CallRealloc(p, n) => Realloc(hdr, st, p, n).0
  }

  /** Every call of the run meets what the source demands of it. */
  predicate Legal(hdr: int, st: State, run: seq<Call>)
    decreases |run|
  {
    run == [] || (CanCall(hdr, st, run[0]) && Legal(hdr, Step(hdr, st, run[0]), run[1..]))
  }

  function After(hdr: int, st: State, run: seq<Call>): State
    requires Legal(hdr, st, run)
    decreases |run|
  {
    if run == [] then st else After(hdr, Step(hdr, st, run[0]), run[1..])
  }
}
