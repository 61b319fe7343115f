/**
 Block lists in memory: the linked headers of lib32/malloc.cpp as cells of linear memory. A pointer is
 the address of a header, 0 is NULL; the signature, uSize and pmbNext of the header at p occupy the
 cells p, p + 4 and p + 8.
 */
module HeapLists {
  import opened HeapSpec
  import opened HeapInvariant

  const SIGNATURE := 0xBEEFDEAD

  function Cell(m: seq<int>, a: int): int {
    if 0 <= a < |m| then m[a] else 0
  }

  function SizeOf(m: seq<int>, p: int): int { Cell(m, p + 4) }

  function NextOf(m: seq<int>, p: int): int { Cell(m, p + 8) }

  function AddrAt(s: seq<Block>, i: int): int {
    if 0 <= i < |s| then s[i].addr else 0
  }

  ghost predicate HeaderAt(m: seq<int>, b: Block, next: int) {
    0 < b.addr && b.addr + 8 < |m| && m[b.addr] == SIGNATURE && SizeOf(m, b.addr) == b.size && NextOf(m, b.addr) == next
  }

  /** The list starting at `head` consists of the blocks s. */
  ghost predicate ListAt(m: seq<int>, head: int, s: seq<Block>) {
    && head == AddrAt(s, 0)
    && (forall i :: 0 <= i < |s| ==> 0 < s[i].addr && s[i].addr + 8 < |m|)
    && forall i {:trigger LinkAt(m, s, i)} :: 0 <= i < |s| ==> LinkAt(m, s, i)
  }

  ghost predicate LinkAt(m: seq<int>, s: seq<Block>, i: nat)
    requires i < |s|
  {
    HeaderAt(m, s[i], AddrAt(s, i + 1))
  }

  /** Distinct headers do not share cells. */
  predicate Spaced(a: int, b: int) {
    a + 16 <= b || b + 16 <= a
  }

  ghost predicate AllSpaced(s: seq<Block>) {
    forall i, j {:trigger Spaced(s[i].addr, s[j].addr)} :: 0 <= i < j < |s| ==> Spaced(s[i].addr, s[j].addr)
  }

  ghost predicate SpacedFrom(s: seq<Block>, a: int) {
    forall i {:trigger Spaced(s[i].addr, a)} :: 0 <= i < |s| ==> Spaced(s[i].addr, a)
  }

  /** m and n differ only in header cells of the blocks at the addresses `at`. */
  ghost predicate OnlyHeaders(m: seq<int>, n: seq<int>, at: set<int>) {
    |m| == |n| && forall a {:trigger m[a]} {:trigger n[a]} ::
      0 <= a < |m| && a !in at && a - 4 !in at && a - 8 !in at ==> m[a] == n[a]
  }

  /** The payload of every block of s is the same in m and n. */
  ghost predicate PayloadKept(m: seq<int>, n: seq<int>, hdr: int, s: seq<Block>) {
    |m| == |n| && forall i, a :: 0 <= i < |s| && 0 <= a < |m| && s[i].addr + hdr <= a < End(hdr, s[i]) ==> m[a] == n[a]
  }

  /** Nothing outside the heap changes. */
  ghost predicate OutsideKept(g: Geometry, m: seq<int>, n: seq<int>) {
    |m| == |n| && forall a :: 0 <= a < |m| && !(g.base <= a < g.limit) ==> m[a] == n[a]
  }

  lemma HeaderKept(m: seq<int>, n: seq<int>, b: Block, next: int, at: set<int>)
    requires HeaderAt(m, b, next) && OnlyHeaders(m, n, at)
    requires forall a :: a in at ==> Spaced(b.addr, a)
    ensures HeaderAt(n, b, next)
  {
  }

  lemma ListKept(m: seq<int>, n: seq<int>, head: int, s: seq<Block>, at: set<int>)
    requires ListAt(m, head, s) && OnlyHeaders(m, n, at)
    requires forall a :: a in at ==> SpacedFrom(s, a)
    ensures ListAt(n, head, s)
  {
    forall i | 0 <= i < |s| ensures LinkAt(n, s, i) {
      assert LinkAt(m, s, i);
      forall a | a in at ensures Spaced(s[i].addr, a) {
        assert SpacedFrom(s, a);
      }
      HeaderKept(m, n, s[i], AddrAt(s, i + 1), at);
    }
  }

  /** A header that points to a list puts its block in front of it. */
  lemma PushedList(m: seq<int>, head: int, s: seq<Block>, b: Block)
    requires ListAt(m, head, s) && HeaderAt(m, b, head)
    ensures ListAt(m, b.addr, [b] + s)
  {
    var t := [b] + s;
    forall i | 0 <= i < |t| ensures LinkAt(m, t, i) {
      assert i > 0 ==> LinkAt(m, s, i - 1) && t[i] == s[i - 1] && AddrAt(t, i + 1) == AddrAt(s, i);
    }
  }

  /** The k-th header of s, in a list that leaves out the i-th block. */
  ghost predicate SkipsAt(m: seq<int>, s: seq<Block>, i: nat, k: nat)
    requires k < |s|
  {
    HeaderAt(m, s[k], AddrAt(s, if k + 1 == i then i + 1 else k + 1))
  }

  /** A list whose i-th header is bypassed loses its i-th block. */
  lemma BypassedList(m: seq<int>, s: seq<Block>, i: nat)
    requires i < |s|
    requires forall k {:trigger SkipsAt(m, s, i, k)} :: 0 <= k < |s| && k != i ==> SkipsAt(m, s, i, k)
    ensures ListAt(m, if i > 0 then s[0].addr else AddrAt(s, 1), Without(s, i))
  {
    var t := Without(s, i);
    assert 1 < |s| ==> SkipsAt(m, s, i, if i == 0 then 1 else 0);
    forall k | 0 <= k < |t| ensures LinkAt(m, t, k) && 0 < t[k].addr && t[k].addr + 8 < |m| {
      if k < i {
        assert SkipsAt(m, s, i, k);
        assert t[k] == s[k] && AddrAt(t, k + 1) == AddrAt(s, if k + 1 == i then i + 1 else k + 1);
      } else {
        assert SkipsAt(m, s, i, k + 1);
        assert t[k] == s[k + 1] && AddrAt(t, k + 1) == AddrAt(s, k + 2);
      }
    }
  }

  /** The k-th header of s, in a list that has b in the place of the i-th block. */
  ghost predicate SubstitutesAt(m: seq<int>, s: seq<Block>, i: nat, b: Block, k: nat)
    requires k < |s|
  {
    HeaderAt(m, s[k], if k + 1 == i then b.addr else AddrAt(s, k + 1))
  }

  /** A header that takes the place of the i-th one in a list replaces the i-th block. */
  lemma ReplacedList(m: seq<int>, s: seq<Block>, i: nat, b: Block)
    requires i < |s| && HeaderAt(m, b, AddrAt(s, i + 1))
    requires forall k {:trigger SubstitutesAt(m, s, i, b, k)} :: 0 <= k < |s| && k != i ==> SubstitutesAt(m, s, i, b, k)
    ensures ListAt(m, if i > 0 then s[0].addr else b.addr, s[i := b])
  {
    var t := s[i := b];
    forall k | 0 <= k < |t| ensures LinkAt(m, t, k) && 0 < t[k].addr && t[k].addr + 8 < |m| {
      assert k != i ==> SubstitutesAt(m, s, i, b, k) && t[k] == s[k];
      assert k + 1 != i ==> AddrAt(t, k + 1) == AddrAt(s, k + 1);
    }
  }

  lemma PayloadsKept(m: seq<int>, n: seq<int>, hdr: int, s: seq<Block>, at: set<int>)
    requires OnlyHeaders(m, n, at) && 12 <= hdr
    requires forall a, i :: a in at && 0 <= i < |s| ==> s[i].addr == a || a + hdr <= s[i].addr || End(hdr, s[i]) <= a
    ensures PayloadKept(m, n, hdr, s)
  {
  }

  /** The used and free blocks of a sound state have spaced headers. */
  lemma StateSpaced(g: Geometry, used: seq<Block>, free: seq<Block>)
    requires GoodGeometry(g) && NoDup(used) && NoDup(free) && Elems(used) !! Elems(free)
    requires Tiled(g, Elems(used) + Elems(free))
    ensures AllSpaced(used) && AllSpaced(free)
    ensures forall i :: 0 <= i < |free| ==> SpacedFrom(used, free[i].addr)
    ensures forall i :: 0 <= i < |used| ==> SpacedFrom(free, used[i].addr)
  {
    var m := Elems(used) + Elems(free);
    forall b, c | b in m && c in m && b != c ensures Spaced(b.addr, c.addr) {
      assert FitsIn(g, b) && FitsIn(g, c) && Apart(g.hdr, b, c);
    }
    assert forall i :: 0 <= i < |used| ==> used[i] in m;
    assert forall i :: 0 <= i < |free| ==> free[i] in m;
    forall i, j | 0 <= i < |used| && 0 <= j < |free| ensures Spaced(used[i].addr, free[j].addr) {
      assert used[i] in Elems(used) && free[j] in Elems(free);
    }
  }

  // ---------------------------------------------------------------- copying payload

  /** The n cells from a on. */
  function Slice(m: seq<int>, a: int, n: int): seq<int> {
    if 0 <= a <= a + n <= |m| then m[a..a + n] else []
  }

  /** m with its n cells from src on copied to dst. */
  function Copied(m: seq<int>, dst: int, src: int, n: int): seq<int>
    requires 0 <= dst && 0 <= n && dst + n <= |m| && 0 <= src && src + n <= |m|
  {
    m[..dst] + m[src..src + n] + m[dst + n..]
  }

  lemma CopiedOneMore(m: seq<int>, dst: int, src: int, i: int)
    requires 0 <= dst && 0 <= i && dst + i < |m| && 0 <= src && src + i < |m| && (dst + i < src || src + i < dst)
    ensures Copied(m, dst, src, i)[src + i] == m[src + i]
    ensures Copied(m, dst, src, i)[dst + i := m[src + i]] == Copied(m, dst, src, i + 1)
  {
  }

  lemma PayloadAt(m: seq<int>, n: seq<int>, hdr: int, s: seq<Block>, i: nat, len: int)
    requires PayloadKept(m, n, hdr, s) && i < |s| && 0 <= len <= s[i].size && 0 <= s[i].addr + hdr && End(hdr, s[i]) <= |m|
    ensures Slice(m, s[i].addr + hdr, len) == Slice(n, s[i].addr + hdr, len)
  {
  }

  /**
   malloc (m0 to m1), copying from block u to block b (m1 to m2) and free of u (m2 to m3): b ends up with
   the contents of u, and the other live blocks keep theirs.
   */
  lemma MoveContents(g: Geometry, used: seq<Block>, i: nat, b: Block, dst: int, src: int, n: int,
                     m0: seq<int>, m1: seq<int>, m2: seq<int>, m3: seq<int>)
    requires GoodGeometry(g) && i < |used| && FitsIn(g, b) && FitsIn(g, used[i]) && g.limit <= |m0| == |m1|
    requires forall c :: c in used ==> Apart(g.hdr, b, c)
    requires 0 <= n <= used[i].size && n <= b.size && dst == b.addr + g.hdr && src == used[i].addr + g.hdr
    requires PayloadKept(m0, m1, g.hdr, used) && OutsideKept(g, m0, m1)
    requires m2 == Copied(m1, dst, src, n)
    requires PayloadKept(m2, m3, g.hdr, [b] + Without(used, i)) && OutsideKept(g, m2, m3)
    ensures Slice(m3, dst, n) == Slice(m0, src, n)
    ensures PayloadKept(m0, m3, g.hdr, Without(used, i)) && OutsideKept(g, m0, m3)
  {
    var rest := Without(used, i);
    PayloadAt(m0, m1, g.hdr, used, i, n);
    PayloadAt(m2, m3, g.hdr, [b] + rest, 0, n);
    assert Slice(m2, dst, n) == Slice(m1, src, n);
    assert forall a :: 0 <= a < |m1| && !(dst <= a < dst + n) ==> m2[a] == m1[a];
    forall k, a | 0 <= k < |rest| && 0 <= a < |m0| && rest[k].addr + g.hdr <= a < End(g.hdr, rest[k]) ensures m0[a] == m3[a] {
      var k' := if k < i then k else k + 1;
      assert rest[k] == used[k'] && used[k'] in used && Apart(g.hdr, b, used[k']);
      assert m0[a] == m1[a];
      assert ([b] + rest)[k + 1] == rest[k];
    }
  }

  // ---------------------------------------------------------------- what compact() does to the headers

  function Addrs(s: seq<Block>): set<int> {
    set b | b in s :: b.addr
  }

  /**
   Every header of the original list s, unlinked or not, points to the end or to a block further down
   the original list. This is why one can go on walking from a block that has just been unlinked.
   */
  ghost predicate Forward(m: seq<int>, s: seq<Block>) {
    forall k {:trigger PointsPast(m, s, k)} :: 0 <= k < |s| ==> PointsPast(m, s, k)
  }

  ghost predicate PointsPast(m: seq<int>, s: seq<Block>, k: nat)
    requires k < |s|
  {
    NextOf(m, s[k].addr) == 0 || exists j :: k < j < |s| && NextOf(m, s[k].addr) == s[j].addr
  }

  lemma ListForward(m: seq<int>, head: int, s: seq<Block>)
    requires ListAt(m, head, s)
    ensures Forward(m, s)
  {
    forall k | 0 <= k < |s| ensures PointsPast(m, s, k) {
      assert LinkAt(m, s, k);
    }
  }

  /** Changing a size leaves all links. */
  lemma ForwardResized(m: seq<int>, s: seq<Block>, p: int, v: int)
    requires Forward(m, s) && AllSpaced(s) && p in Addrs(s) && 0 <= p + 4 < |m|
    ensures Forward(m[p + 4 := v], s)
  {
    var n := m[p + 4 := v];
    forall k | 0 <= k < |s| ensures PointsPast(n, s, k) {
      assert PointsPast(m, s, k);
      SpacedOrSame(s, k, p);
    }
  }

  lemma SpacedOrSame(s: seq<Block>, k: nat, p: int)
    requires k < |s| && AllSpaced(s) && p in Addrs(s)
    ensures s[k].addr == p || Spaced(s[k].addr, p)
  {
    var l :| 0 <= l < |s| && s[l].addr == p;
    assert l < k ==> Spaced(s[l].addr, s[k].addr);
    assert k < l ==> Spaced(s[k].addr, s[l].addr);
  }

  /** Bypassing the successor q of p keeps all links pointing forward. */
  lemma ForwardBypassed(m: seq<int>, s: seq<Block>, p: int, q: int)
    requires Forward(m, s) && AllSpaced(s) && p in Addrs(s) && q in Addrs(s) && 0 <= p + 8 < |m|
    requires NextOf(m, p) == q && q != 0
    ensures Forward(m[p + 8 := NextOf(m, q)], s)
  {
    var n := m[p + 8 := NextOf(m, q)];
    forall k | 0 <= k < |s| ensures PointsPast(n, s, k) {
      assert PointsPast(m, s, k);
      SpacedOrSame(s, k, p);
      if s[k].addr == p {
        var j :| k < j < |s| && s[j].addr == q;
        assert PointsPast(m, s, j);
      }
    }
  }

  /** A list block grows in place. */
  lemma ResizedList(m: seq<int>, head: int, s: seq<Block>, i: nat, v: int)
    requires ListAt(m, head, s) && AllSpaced(s) && i < |s|
    ensures ListAt(m[s[i].addr + 4 := v], head, s[i := Block(s[i].addr, v)])
  {
    var n, t := m[s[i].addr + 4 := v], s[i := Block(s[i].addr, v)];
    forall k | 0 <= k < |t| ensures LinkAt(n, t, k) {
      assert LinkAt(m, s, k);
      assert AddrAt(t, k + 1) == AddrAt(s, k + 1);
      assert k < i ==> Spaced(s[k].addr, s[i].addr);
      assert i < k ==> Spaced(s[i].addr, s[k].addr);
    }
  }

  lemma ResizedSpaced(s: seq<Block>, i: nat, v: int)
    requires AllSpaced(s) && i < |s|
    ensures var t := s[i := Block(s[i].addr, v)]; AllSpaced(t) && Addrs(t) == Addrs(s)
  {
    var t := s[i := Block(s[i].addr, v)];
    forall k, l | 0 <= k < l < |t| ensures Spaced(t[k].addr, t[l].addr) {
      assert Spaced(s[k].addr, s[l].addr);
    }
    SameAddrs(s, t);
  }

  lemma SameAddrs(s: seq<Block>, t: seq<Block>)
    requires |s| == |t| && forall k :: 0 <= k < |s| ==> t[k].addr == s[k].addr
    ensures Addrs(t) == Addrs(s)
  {
  }

  lemma WithoutSpaced(s: seq<Block>, i: nat)
    requires AllSpaced(s) && i < |s|
    ensures AllSpaced(Without(s, i)) && Addrs(Without(s, i)) <= Addrs(s)
  {
  }
}
