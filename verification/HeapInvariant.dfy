/**
 What every state of the heap satisfies: its blocks tile the heap, its byte counts add up, and the
 three transformations of the block set (split, move, join) keep that.
 */
module HeapInvariant {
  import opened HeapSpec

  function Elems(s: seq<Block>): set<Block> {
    set b | b in s
  }

  ghost predicate NoDup(s: seq<Block>) {
    forall i, j :: 0 <= i < j < |s| ==> s[i] != s[j]
  }

  /** All blocks of a state. */
  function Blocks(st: State): set<Block> {
    Elems(st.used) + Elems(st.free)
  }

  predicate FitsIn(g: Geometry, b: Block) {
    && g.base <= b.addr && End(g.hdr, b) <= g.limit
    && MIN_FRAG_SIZE <= b.size
  }

  predicate Aligned(b: Block) {
    b.size % 4 == 0 && b.addr % 4 == 0
  }

  predicate Apart(hdr: int, b: Block, c: Block) {
    End(hdr, b) <= c.addr || End(hdr, c) <= b.addr
  }

  ghost predicate Starts(m: set<Block>, addr: int) {
    exists b :: b in m && b.addr == addr
  }

  ghost predicate AllFit(g: Geometry, m: set<Block>) {
    forall b {:trigger FitsIn(g, b)} :: b in m ==> FitsIn(g, b)
  }

  ghost predicate AllAligned(m: set<Block>) {
    forall b {:trigger Aligned(b)} :: b in m ==> Aligned(b)
  }

  ghost predicate AllApart(hdr: int, m: set<Block>) {
    forall b, c {:trigger Apart(hdr, b, c)} :: b in m && c in m && b != c ==> Apart(hdr, b, c)
  }

  ghost predicate Followed(g: Geometry, m: set<Block>, b: Block) {
    End(g.hdr, b) == g.limit || Starts(m, End(g.hdr, b))
  }

  /** A block starts at the base of the heap, and each is followed directly by another or by the end. */
  ghost predicate Chained(g: Geometry, m: set<Block>) {
    Starts(m, g.base) && forall b {:trigger Followed(g, m, b)} :: b in m ==> Followed(g, m, b)
  }

  /** The blocks lie in the heap at multiples of 4, do not overlap, and leave no gap. */
  ghost predicate Tiled(g: Geometry, m: set<Block>) {
    AllFit(g, m) && AllAligned(m) && AllApart(g.hdr, m) && Chained(g, m)
  }

  function Bytes(hdr: int, s: seq<Block>): int {
    if s == [] then 0 else s[0].size + hdr + Bytes(hdr, s[1..])
  }

  /** No block is listed twice, in one list or in both. */
  ghost predicate ListedOnce(st: State) {
    NoDup(st.used) && NoDup(st.free) && Elems(st.used) !! Elems(st.free)
  }

  ghost predicate Inv(g: Geometry, st: State) {
    && GoodGeometry(g)
    && ListedOnce(st)
    && Tiled(g, Blocks(st))
    && Bytes(g.hdr, st.used) + Bytes(g.hdr, st.free) == g.limit - g.base
    && st.memFree == Bytes(g.hdr, st.free) - g.hdr
  }

  // ---------------------------------------------------------------- tiling

  ghost predicate Covers(hdr: int, b: Block, x: int) {
    b.addr <= x < End(hdr, b)
  }

  /** Every address of the heap lies in exactly one block. */
  lemma {:induction false} CoveredOnce(g: Geometry, m: set<Block>, x: int) returns (b: Block)
    requires GoodGeometry(g) && Tiled(g, m) && g.base <= x < g.limit
    ensures b in m && Covers(g.hdr, b, x)
    ensures forall c :: c in m && Covers(g.hdr, c, x) ==> c == b
    decreases x
  {
    if x == g.base {
      b :| b in m && b.addr == g.base;
    } else {
      b := CoveredOnce(g, m, x - 1);
      if x == End(g.hdr, b) {
        assert Followed(g, m, b);
        b :| b in m && b.addr == x;
      }
    }
    assert FitsIn(g, b);
    forall c | c in m && Covers(g.hdr, c, x) ensures c == b {
      assert c != b ==> Apart(g.hdr, b, c);
    }
  }

  /** A block that is cut in two leaves the heap tiled. */
  lemma SplitTiled(g: Geometry, m: set<Block>, b: Block, req: int)
    requires GoodGeometry(g) && Tiled(g, m) && b in m
    requires 4 <= req && req % 4 == 0 && Splits(g.hdr, b, req)
    ensures Front(g.hdr, b, req) !in m - {b} && Back(g.hdr, b, req) !in m && Front(g.hdr, b, req) != b
    ensures Tiled(g, m - {b} + {Front(g.hdr, b, req), Back(g.hdr, b, req)})
  {
    var x, y := Front(g.hdr, b, req), Back(g.hdr, b, req);
    var m' := m - {b} + {x, y};
    assert FitsIn(g, b);
    forall c | c in m && c != b ensures Apart(g.hdr, c, x) && Apart(g.hdr, c, y) && c != x && c != y {
      assert Apart(g.hdr, c, b) && FitsIn(g, c);
    }
    SplitChained(g, m, m', b, x, y);
    SplitAligned(g, m, b, req);
    assert FitsIn(g, x) && FitsIn(g, y);
    forall c, d | c in m' && d in m' && c != d ensures Apart(g.hdr, c, d) {
      assert c in m && d in m ==> Apart(g.hdr, c, d);
    }
  }

  lemma SplitAligned(g: Geometry, m: set<Block>, b: Block, req: int)
    requires g.hdr % 4 == 0 && AllAligned(m) && b in m && req % 4 == 0 && Splits(g.hdr, b, req)
    ensures AllAligned(m - {b} + {Front(g.hdr, b, req), Back(g.hdr, b, req)})
  {
    assert Aligned(b);
  }

  lemma SplitChained(g: Geometry, m: set<Block>, m': set<Block>, b: Block, x: Block, y: Block)
    requires Chained(g, m) && b in m
    requires m' == m - {b} + {x, y}
    requires x.addr == b.addr && End(g.hdr, x) == y.addr && End(g.hdr, y) == End(g.hdr, b)
    ensures Chained(g, m')
  {
    forall a | Starts(m, a) ensures Starts(m', a) {
      var c :| c in m && c.addr == a;
      assert c in m' || x in m';
    }
    forall c | c in m' ensures Followed(g, m', c) {
      if c == x {
        assert y in m';
      } else {
        assert Followed(g, m, if c == y then b else c);
      }
    }
  }

  function Joined(hdr: int, p: Block, q: Block): Block {
    Block(p.addr, p.size + hdr + q.size)
  }

  /** Two adjacent blocks that are joined leave the heap tiled. */
  lemma JoinTiled(g: Geometry, m: set<Block>, p: Block, q: Block)
    requires GoodGeometry(g) && Tiled(g, m) && p in m && q in m && End(g.hdr, p) == q.addr
    ensures p != q && Joined(g.hdr, p, q) !in m
    ensures Tiled(g, m - {p, q} + {Joined(g.hdr, p, q)})
  {
    var j := Joined(g.hdr, p, q);
    var m' := m - {p, q} + {j};
    assert FitsIn(g, p) && FitsIn(g, q);
    forall c | c in m && c != p && c != q
      ensures Apart(g.hdr, c, j) && c != j && End(g.hdr, c) != q.addr && c.addr != q.addr
    {
      assert Apart(g.hdr, c, p) && Apart(g.hdr, c, q) && FitsIn(g, c);
    }
    JoinChained(g, m, m', p, q, j);
    JoinAligned(g, m, p, q);
    assert FitsIn(g, j);
    forall c, d | c in m' && d in m' && c != d ensures Apart(g.hdr, c, d) {
      assert c in m && d in m ==> Apart(g.hdr, c, d);
    }
  }

  lemma JoinAligned(g: Geometry, m: set<Block>, p: Block, q: Block)
    requires g.hdr % 4 == 0 && AllAligned(m) && p in m && q in m
    ensures AllAligned(m - {p, q} + {Joined(g.hdr, p, q)})
  {
    assert Aligned(p) && Aligned(q);
  }

  lemma JoinChained(g: Geometry, m: set<Block>, m': set<Block>, p: Block, q: Block, j: Block)
    requires Chained(g, m) && p in m && q in m && q.addr != g.base
    requires m' == m - {p, q} + {j}
    requires j.addr == p.addr && End(g.hdr, j) == End(g.hdr, q) != q.addr
    requires forall c :: c in m && c != p && c != q ==> End(g.hdr, c) != q.addr && c.addr != q.addr
    ensures Chained(g, m')
  {
    forall a | Starts(m, a) && a != q.addr ensures Starts(m', a) {
      var c :| c in m && c.addr == a;
      assert c in m' || j in m';
    }
    forall c | c in m' ensures Followed(g, m', c) {
      assert Followed(g, m, if c == j then q else c);
    }
  }

  // ---------------------------------------------------------------- list surgery

  lemma {:induction false} BytesConcat(hdr: int, s: seq<Block>, t: seq<Block>)
    ensures Bytes(hdr, s + t) == Bytes(hdr, s) + Bytes(hdr, t)
    decreases |s|
  {
    if s == [] {
      assert s + t == t;
    } else {
      BytesConcat(hdr, s[1..], t);
      assert (s + t)[1..] == s[1..] + t;
    }
  }

  lemma WithoutBytes(hdr: int, s: seq<Block>, i: nat)
    requires i < |s|
    ensures Bytes(hdr, Without(s, i)) == Bytes(hdr, s) - s[i].size - hdr
  {
    assert s == s[..i] + ([s[i]] + s[i + 1..]);
    BytesConcat(hdr, s[..i], [s[i]] + s[i + 1..]);
    BytesConcat(hdr, s[..i], s[i + 1..]);
  }

  lemma ReplaceBytes(hdr: int, s: seq<Block>, i: nat, b: Block)
    requires i < |s|
    ensures Bytes(hdr, s[i := b]) == Bytes(hdr, s) - s[i].size + b.size
  {
    assert s == s[..i] + ([s[i]] + s[i + 1..]);
    assert s[i := b] == s[..i] + ([b] + s[i + 1..]);
    BytesConcat(hdr, s[..i], [s[i]] + s[i + 1..]);
    BytesConcat(hdr, s[..i], [b] + s[i + 1..]);
  }

  lemma WithoutElems(s: seq<Block>, i: nat)
    requires i < |s| && NoDup(s)
    ensures NoDup(Without(s, i)) && Elems(Without(s, i)) == Elems(s) - {s[i]}
  {
  }

  lemma ReplaceElems(s: seq<Block>, i: nat, b: Block)
    requires i < |s| && NoDup(s) && b !in s
    ensures NoDup(s[i := b]) && Elems(s[i := b]) == Elems(s) - {s[i]} + {b}
  {
    var t := s[i := b];
    forall c | c in s && c != s[i] ensures c in t {
      var k :| 0 <= k < |s| && s[k] == c;
      assert t[k] == c;
    }
    assert t[i] == b;
  }

  /** Both joins of compact() replace two adjacent free blocks by their union. */
  lemma JoinHeadEffect(hdr: int, f: seq<Block>, i: nat)
    requires 1 <= i < |f| && NoDup(f) && Joined(hdr, f[i], f[0]) !in f
    ensures var j := JoinHead(hdr, f, i);
            && NoDup(j) && Elems(j) == Elems(f) - {f[0], f[i]} + {Joined(hdr, f[i], f[0])}
            && Bytes(hdr, j) == Bytes(hdr, f)
  {
    var p := Joined(hdr, f[i], f[0]);
    ReplaceElems(f, i, p);
    ReplaceBytes(hdr, f, i, p);
    WithoutElems(f[i := p], 0);
    WithoutBytes(hdr, f[i := p], 0);
    assert JoinHead(hdr, f, i) == Without(f[i := p], 0);
    assert f[i := p][0] == f[0];
  }

  lemma JoinNextEffect(hdr: int, f: seq<Block>, i: nat)
    requires 1 <= i < |f| && NoDup(f) && Joined(hdr, f[0], f[i]) !in f
    ensures var j := JoinNext(hdr, f, i);
            && NoDup(j) && Elems(j) == Elems(f) - {f[0], f[i]} + {Joined(hdr, f[0], f[i])}
            && Bytes(hdr, j) == Bytes(hdr, f)
  {
    var p := Joined(hdr, f[0], f[i]);
    ReplaceElems(f, 0, p);
    ReplaceBytes(hdr, f, 0, p);
    WithoutElems(f[0 := p], i);
    WithoutBytes(hdr, f[0 := p], i);
    assert f[0 := p][i] == f[i];
  }

  // ---------------------------------------------------------------- every call keeps the invariant

  /** What compact() keeps when `used` are the blocks off the free list. */
  ghost predicate FreeListInv(g: Geometry, used: set<Block>, f: seq<Block>) {
    GoodGeometry(g) && NoDup(f) && used !! Elems(f) && Tiled(g, used + Elems(f))
  }

  /** One join of compact() keeps the free list sound. */
  lemma JoinStep(g: Geometry, used: set<Block>, f: seq<Block>, i: nat)
    requires FreeListInv(g, used, f) && 1 <= i < |f|
    ensures End(g.hdr, f[i]) == f[0].addr ==>
              && FreeListInv(g, used, JoinHead(g.hdr, f, i))
              && Bytes(g.hdr, JoinHead(g.hdr, f, i)) == Bytes(g.hdr, f)
    ensures End(g.hdr, f[0]) == f[i].addr ==>
              && FreeListInv(g, used, JoinNext(g.hdr, f, i))
              && Bytes(g.hdr, JoinNext(g.hdr, f, i)) == Bytes(g.hdr, f)
  {
    var m := used + Elems(f);
    assert f[i] in Elems(f) && f[0] in Elems(f);
    if End(g.hdr, f[i]) == f[0].addr {
      JoinTiled(g, m, f[i], f[0]);
      JoinHeadEffect(g.hdr, f, i);
      assert used + Elems(JoinHead(g.hdr, f, i)) == m - {f[i], f[0]} + {Joined(g.hdr, f[i], f[0])};
    }
    if End(g.hdr, f[0]) == f[i].addr {
      JoinTiled(g, m, f[0], f[i]);
      JoinNextEffect(g.hdr, f, i);
      assert used + Elems(JoinNext(g.hdr, f, i)) == m - {f[0], f[i]} + {Joined(g.hdr, f[0], f[i])};
    }
  }

  /** compact() joins at most twice and keeps the free list sound and its byte count. */
  lemma {:induction false} CompactFromInv(g: Geometry, used: set<Block>, f: seq<Block>, i: nat, joined: nat)
    requires FreeListInv(g, used, f) && 1 <= i && f != [] && joined <= 2
    ensures var f' := CompactFrom(g.hdr, f, i, joined);
            && FreeListInv(g, used, f')
            && Bytes(g.hdr, f') == Bytes(g.hdr, f)
            && f' != [] && |f| - (2 - joined) <= |f'| <= |f|
    decreases |f| - i
  {
    if i < |f| && joined < 2 {
      JoinStep(g, used, f, i);
      if End(g.hdr, f[i]) == f[0].addr {
        CompactFromInv(g, used, JoinHead(g.hdr, f, i), i, joined + 1);
      } else if End(g.hdr, f[0]) == f[i].addr {
        CompactFromInv(g, used, JoinNext(g.hdr, f, i), i, joined + 1);
      } else {
        CompactFromInv(g, used, f, i + 1, joined);
      }
    }
  }

  lemma {:induction false} BytesPositive(g: Geometry, m: set<Block>, s: seq<Block>)
    requires GoodGeometry(g) && AllFit(g, m) && Elems(s) <= m
    ensures s == [] || Bytes(g.hdr, s) >= g.hdr
    ensures Bytes(g.hdr, s) >= 0
  {
    if s != [] {
      assert s[0] in Elems(s) && FitsIn(g, s[0]);
      assert Elems(s[1..]) <= Elems(s);
      BytesPositive(g, m, s[1..]);
    }
  }

  /** The count of free bytes lies within one wrap of its 32-bit image. */
  lemma MemFreeRange(g: Geometry, st: State)
    requires Inv(g, st)
    ensures -g.hdr <= st.memFree < HEAP_SIZE && (st.memFree < 0 <==> st.free == [])
  {
    BytesPositive(g, Blocks(st), st.used);
    BytesPositive(g, Blocks(st), st.free);
  }

  lemma InitialInv(g: Geometry)
    requires GoodGeometry(g)
    ensures Inv(g, Initial(g)) && Initial(g).used == [] && |Initial(g).free| == 1
    ensures forall x :: g.base <= x < g.limit ==> Covers(g.hdr, Initial(g).free[0], x)
  {
  }

  /** Allocation trades a free block for the used front part and, if it is cut, the free back part. */
  lemma AllocateBlocks(g: Geometry, st: State, i: nat, req: int)
    requires GoodGeometry(g) && ListedOnce(st) && Tiled(g, Blocks(st))
    requires i < |st.free| && 4 <= req <= st.free[i].size && req % 4 == 0
    ensures var st' := Allocate(g.hdr, st, i, req);
            ListedOnce(st') && Tiled(g, Blocks(st'))
  {
    var b := st.free[i];
    var st' := Allocate(g.hdr, st, i, req);
    var x, y := Front(g.hdr, b, req), Back(g.hdr, b, req);
    assert b in Elems(st.free) && b in Blocks(st);
    assert Elems(st'.used) == Elems(st.used) + {x};
    if Splits(g.hdr, b, req) {
      SplitTiled(g, Blocks(st), b, req);
      assert x !in Blocks(st) && y !in Blocks(st);
      ReplaceElems(st.free, i, y);
      assert Blocks(st') == Blocks(st) - {b} + {x, y};
    } else {
      WithoutElems(st.free, i);
      assert Blocks(st') == Blocks(st);
    }
  }

  lemma AllocateInv(g: Geometry, st: State, i: nat, req: int)
    requires Inv(g, st) && i < |st.free| && 4 <= req <= st.free[i].size && req % 4 == 0
    ensures Inv(g, Allocate(g.hdr, st, i, req))
  {
    AllocateBlocks(g, st, i, req);
    var st' := Allocate(g.hdr, st, i, req);
    assert st'.used[1..] == st.used;
    ReplaceBytes(g.hdr, st.free, i, Back(g.hdr, st.free[i], req));
    WithoutBytes(g.hdr, st.free, i);
  }

  lemma MallocInv(g: Geometry, st: State, n: int)
    requires Inv(g, st) && CanMalloc(st, n)
    ensures Inv(g, Malloc(g.hdr, st, n).0)
  {
    var i := FirstFit(st.free, RoundUp(n));
    if n != 0 && n <= HEAP_SIZE && i < |st.free| {
      AllocateInv(g, st, i, RoundUp(n));
    }
  }

  /** What free() has unlinked before it calls compact(). */
  lemma UnlinkInv(g: Geometry, st: State, i: nat)
    requires Inv(g, st) && i < |st.used|
    ensures FreeListInv(g, Elems(Without(st.used, i)), [st.used[i]] + st.free)
    ensures NoDup(Without(st.used, i))
    ensures Bytes(g.hdr, Without(st.used, i)) + Bytes(g.hdr, [st.used[i]] + st.free) == g.limit - g.base
    ensures Bytes(g.hdr, [st.used[i]] + st.free) == Bytes(g.hdr, st.free) + st.used[i].size + g.hdr
  {
    var rest, f := Without(st.used, i), [st.used[i]] + st.free;
    assert st.used[i] in Elems(st.used);
    WithoutElems(st.used, i);
    WithoutBytes(g.hdr, st.used, i);
    assert Elems(f) == {st.used[i]} + Elems(st.free);
    assert Elems(rest) + Elems(f) == Blocks(st);
    assert f[1..] == st.free;
  }

  lemma FreeInv(g: Geometry, st: State, p: int)
    requires Inv(g, st) && (p == 0 || Live(g.hdr, st, p))
    ensures Inv(g, Free(g.hdr, st, p))
  {
    if p != 0 {
      var i := Find(st.used, p - g.hdr);
      UnlinkInv(g, st, i);
      CompactFromInv(g, Elems(Without(st.used, i)), [st.used[i]] + st.free, 1, 0);
    }
  }

  lemma StepInv(g: Geometry, st: State, c: Call)
    requires Inv(g, st) && CanCall(g.hdr, st, c)
    ensures Inv(g, Step(g.hdr, st, c))
  {
    match c
    case CallMalloc(n) => MallocInv(g, st, n);
    case CallFree(p) => FreeInv(g, st, p);
    case CallRealloc(p, n) =>
      if p == 0 {
        MallocInv(g, st, n);
      } else if n == 0 {
        FreeInv(g, st, p);
      } else {
        MallocInv(g, st, n);
        LiveAfterMalloc(g.hdr, st, n, p);
        if Malloc(g.hdr, st, n).1 != 0 {
          FreeInv(g, Malloc(g.hdr, st, n).0, p);
        }
      }
  }

  /** Main result: the invariant holds after every run of malloc, free and realloc. */
  lemma {:induction false} RunInv(g: Geometry, st: State, run: seq<Call>)
    requires Inv(g, st) && Legal(g.hdr, st, run)
    ensures Inv(g, After(g.hdr, st, run))
    decreases |run|
  {
    if run != [] {
      StepInv(g, st, run[0]);
      RunInv(g, Step(g.hdr, st, run[0]), run[1..]);
    }
  }
}
