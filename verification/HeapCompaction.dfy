/**
 Coalescing in lib32/malloc.cpp. compact() keeps the set of free bytes, but it does not always merge
 a freed block with both of its neighbours: the list order decides, and exactly when is proved here.
 */
module HeapCompaction {
  import opened HeapSpec
  import opened HeapInvariant

  /** q physically follows p. */
  predicate Touch(hdr: int, p: Block, q: Block) {
    End(hdr, p) == q.addr
  }

  /** No two blocks of the set are adjacent. */
  ghost predicate Compacted(hdr: int, m: set<Block>) {
    forall p, q {:trigger Touch(hdr, p, q)} :: p in m && q in m ==> !Touch(hdr, p, q)
  }

  /**
   The case compact() misses: b lies between two free blocks, the one before b stands earlier on the
   free list than the one after it, and is not the first of the list.
   */
  ghost predicate Stranded(hdr: int, free: seq<Block>, b: Block) {
    exists i, j :: 0 < i < j < |free| && Touch(hdr, free[i], b) && Touch(hdr, b, free[j])
  }

  // ---------------------------------------------------------------- free bytes

  ghost predicate ByteIn(hdr: int, m: set<Block>, x: int) {
    exists b :: b in m && Covers(hdr, b, x)
  }

  lemma JoinBytes(hdr: int, m: set<Block>, p: Block, q: Block, x: int)
    requires p in m && q in m && Touch(hdr, p, q) && p.size + hdr >= 0 && q.size + hdr >= 0
    ensures ByteIn(hdr, m, x) <==> ByteIn(hdr, m - {p, q} + {Joined(hdr, p, q)}, x)
  {
  }

  /** compact() leaves the set of free bytes, headers included, as it was. */
  lemma {:induction false} CompactKeepsBytes(g: Geometry, used: set<Block>, f: seq<Block>, i: nat, joined: nat, x: int)
    requires FreeListInv(g, used, f) && 1 <= i && f != [] && joined <= 2
    ensures ByteIn(g.hdr, Elems(f), x) <==> ByteIn(g.hdr, Elems(CompactFrom(g.hdr, f, i, joined)), x)
    decreases |f| - i
  {
    if i < |f| && joined < 2 {
      JoinStep(g, used, f, i);
      var m := used + Elems(f);
      assert f[i] in Elems(f) && f[0] in Elems(f);
      assert FitsIn(g, f[i]) && FitsIn(g, f[0]);
      if End(g.hdr, f[i]) == f[0].addr {
        JoinTiled(g, m, f[i], f[0]);
        JoinHeadEffect(g.hdr, f, i);
        JoinBytes(g.hdr, Elems(f), f[i], f[0], x);
        CompactKeepsBytes(g, used, JoinHead(g.hdr, f, i), i, joined + 1, x);
      } else if End(g.hdr, f[0]) == f[i].addr {
        JoinTiled(g, m, f[0], f[i]);
        JoinNextEffect(g.hdr, f, i);
        JoinBytes(g.hdr, Elems(f), f[0], f[i], x);
        CompactKeepsBytes(g, used, JoinNext(g.hdr, f, i), i, joined + 1, x);
      } else {
        CompactKeepsBytes(g, used, f, i + 1, joined, x);
      }
    }
  }

  // ---------------------------------------------------------------- exact coalescing

  /** Blocks that do not touch the head are passed over. */
  lemma {:induction false} PassOver(hdr: int, f: seq<Block>, i: nat, k: nat, joined: nat)
    requires 1 <= i <= k <= |f| && joined < 2
    requires forall t :: i <= t < k ==> !Touch(hdr, f[t], f[0]) && !Touch(hdr, f[0], f[t])
    ensures CompactFrom(hdr, f, i, joined) == CompactFrom(hdr, f, k, joined)
    decreases k - i
  {
    if i < k {
      PassOver(hdr, f, i + 1, k, joined);
    }
  }

  /** In a tiled heap a block is followed by one block and follows one block. */
  lemma Neighbours(g: Geometry, m: set<Block>, b: Block, c: Block, d: Block)
    requires GoodGeometry(g) && Tiled(g, m) && b in m && c in m && d in m
    ensures Touch(g.hdr, c, b) && Touch(g.hdr, d, b) ==> c == d
    ensures Touch(g.hdr, b, c) && Touch(g.hdr, b, d) ==> c == d
    ensures !(Touch(g.hdr, b, c) && Touch(g.hdr, c, b)) && !Touch(g.hdr, b, b)
  {
    assert FitsIn(g, b) && FitsIn(g, c) && FitsIn(g, d);
    assert c != d ==> Apart(g.hdr, c, d);
  }

  /** Joining b with its free neighbours leaves a compacted set compacted if none is left out. */
  lemma CompactedAfter(g: Geometry, m: set<Block>, free: set<Block>, b: Block, p: Block, q: Block, j: Block)
    requires GoodGeometry(g) && Tiled(g, m) && free + {b} <= m && b !in free && Compacted(g.hdr, free)
    requires p in free ==> Touch(g.hdr, p, b)
    requires q in free ==> Touch(g.hdr, b, q)
    requires p !in free ==> p == b && forall c :: c in free ==> !Touch(g.hdr, c, b)
    requires q !in free ==> q == b && forall c :: c in free ==> !Touch(g.hdr, b, c)
    requires j.addr == p.addr && End(g.hdr, j) == End(g.hdr, q)
    ensures Compacted(g.hdr, free - {p, q} + {j})
  {
    assert FitsIn(g, b) && FitsIn(g, p) && FitsIn(g, q);
    forall c, d | c in free - {p, q} + {j} && d in free - {p, q} + {j} ensures !Touch(g.hdr, c, d) {
      if c in free {
        assert FitsIn(g, c);
        assert d in free ==> !Touch(g.hdr, c, d);
        assert p in free ==> !Touch(g.hdr, c, p);
      } else {
        assert q in free && d in free ==> !Touch(g.hdr, q, d);
      }
    }
  }

  /** What holds when free() calls compact(): b heads the free list, the rest of which is compacted. */
  ghost predicate Freeing(g: Geometry, used: set<Block>, b: Block, free: seq<Block>) {
    FreeListInv(g, used, [b] + free) && Compacted(g.hdr, Elems(free))
  }

  ghost predicate Joins(hdr: int, b: Block, c: Block) {
    Touch(hdr, c, b) || Touch(hdr, b, c)
  }

  lemma FreeingFacts(g: Geometry, used: set<Block>, b: Block, free: seq<Block>)
    requires Freeing(g, used, b, free)
    ensures Elems([b] + free) == Elems(free) + {b} && b !in Elems(free)
    ensures forall i, j :: 0 <= i < |free| && 0 <= j < |free| ==> !Touch(g.hdr, free[i], free[j])
    ensures forall i, j :: 0 <= i < |free| && 0 <= j < |free| && i != j ==>
              && free[i] != free[j]
              && !(Touch(g.hdr, free[i], b) && Touch(g.hdr, free[j], b))
              && !(Touch(g.hdr, b, free[i]) && Touch(g.hdr, b, free[j]))
    ensures forall i :: 0 <= i < |free| ==> !(Touch(g.hdr, free[i], b) && Touch(g.hdr, b, free[i]))
  {
    var f := [b] + free;
    assert forall k :: 0 <= k < |free| ==> f[k + 1] == free[k];
    assert f[0] == b;
    assert Elems(f) == Elems(free) + {b};
    forall i, j | 0 <= i < |free| && 0 <= j < |free|
      ensures !Touch(g.hdr, free[i], free[j])
      ensures !(Touch(g.hdr, free[i], b) && Touch(g.hdr, b, free[i]))
      ensures i != j ==> free[i] != free[j]
      ensures i != j ==> !(Touch(g.hdr, free[i], b) && Touch(g.hdr, free[j], b))
      ensures i != j ==> !(Touch(g.hdr, b, free[i]) && Touch(g.hdr, b, free[j]))
    {
      assert f[i + 1] == free[i] && f[j + 1] == free[j];
      assert free[i] in Elems(free) && free[j] in Elems(free);
      Neighbours(g, used + Elems(f), b, free[i], free[j]);
    }
  }

  /** The list head joins the first block from t on that is adjacent to it. */
  lemma HeadJoins(g: Geometry, used: set<Block>, f: seq<Block>, t: nat, s: nat, joined: nat)
    requires FreeListInv(g, used, f) && 1 <= t <= s < |f| && joined < 2
    requires forall k :: t <= k < s ==> !Joins(g.hdr, f[0], f[k])
    ensures Touch(g.hdr, f[s], f[0]) ==>
              && CompactFrom(g.hdr, f, t, joined) == CompactFrom(g.hdr, JoinHead(g.hdr, f, s), s, joined + 1)
              && Elems(JoinHead(g.hdr, f, s)) == Elems(f) - {f[0], f[s]} + {Joined(g.hdr, f[s], f[0])}
              && FreeListInv(g, used, JoinHead(g.hdr, f, s))
    ensures Touch(g.hdr, f[0], f[s]) && !Touch(g.hdr, f[s], f[0]) ==>
              && CompactFrom(g.hdr, f, t, joined) == CompactFrom(g.hdr, JoinNext(g.hdr, f, s), s, joined + 1)
              && Elems(JoinNext(g.hdr, f, s)) == Elems(f) - {f[0], f[s]} + {Joined(g.hdr, f[0], f[s])}
              && FreeListInv(g, used, JoinNext(g.hdr, f, s))
  {
    PassOver(g.hdr, f, t, s, joined);
    JoinStep(g, used, f, s);
    assert f[s] in used + Elems(f) && f[0] in used + Elems(f);
    if Touch(g.hdr, f[s], f[0]) {
      JoinTiled(g, used + Elems(f), f[s], f[0]);
      JoinHeadEffect(g.hdr, f, s);
    } else if Touch(g.hdr, f[0], f[s]) {
      JoinTiled(g, used + Elems(f), f[0], f[s]);
      JoinNextEffect(g.hdr, f, s);
    }
  }

  /** First case: b's follower stands before its predecessor on the free list, if that is free at all. */
  lemma FollowerFirst(g: Geometry, used: set<Block>, b: Block, free: seq<Block>, t: nat)
    requires Freeing(g, used, b, free) && t < |free| && Touch(g.hdr, b, free[t])
    requires forall k :: 0 <= k < t ==> !Joins(g.hdr, b, free[k])
    ensures Compacted(g.hdr, Elems(Compact(g.hdr, [b] + free)))
  {
    var f, j := [b] + free, Joined(g.hdr, b, free[t]);
    FollowerJoins(g, used, b, free, t);
    FreeingFacts(g, used, b, free);
    var f1 := JoinNext(g.hdr, f, t + 1);
    JoinNextShape(g.hdr, b, free, t);
    ThenPredecessor(g, used, b, free, f1, t + 1, j);
  }

  lemma FollowerJoins(g: Geometry, used: set<Block>, b: Block, free: seq<Block>, t: nat)
    requires Freeing(g, used, b, free) && t < |free| && Touch(g.hdr, b, free[t])
    requires forall k :: 0 <= k < t ==> !Joins(g.hdr, b, free[k])
    ensures var f1 := JoinNext(g.hdr, [b] + free, t + 1);
            && FreeListInv(g, used, f1) && Compact(g.hdr, [b] + free) == CompactFrom(g.hdr, f1, t + 1, 1)
            && Elems(f1) == Elems(free) - {free[t]} + {Joined(g.hdr, b, free[t])}
  {
    FreeingFacts(g, used, b, free);
    HeadJoins(g, used, [b] + free, 1, t + 1, 0);
  }

  lemma JoinNextShape(hdr: int, b: Block, free: seq<Block>, t: nat)
    requires t < |free|
    ensures var f1 := JoinNext(hdr, [b] + free, t + 1);
            && |f1| == |free| && f1[0] == Joined(hdr, b, free[t])
            && forall k :: t + 1 <= k < |f1| ==> f1[k] == free[k]
  {
  }

  lemma ThenPredecessor(g: Geometry, used: set<Block>, b: Block, free: seq<Block>, f: seq<Block>, t: nat, j: Block)
    requires Freeing(g, used, b, free) && FreeListInv(g, used, f) && 1 <= t <= |f| == |free| && f[0] == j
    requires forall k :: t <= k < |f| ==> f[k] == free[k]
    requires forall k :: 0 <= k < t ==> !Touch(g.hdr, free[k], b)
    requires Touch(g.hdr, b, free[t - 1]) && j == Joined(g.hdr, b, free[t - 1])
    requires Elems(f) == Elems(free) - {free[t - 1]} + {j}
    ensures Compacted(g.hdr, Elems(CompactFrom(g.hdr, f, t, 1)))
  {
    var q, m := free[t - 1], used + Elems([b] + free);
    FreeingFacts(g, used, b, free);
    if s :| t <= s < |free| && Touch(g.hdr, free[s], b) {
      var p := free[s];
      HeadJoins(g, used, f, t, s, 1);
      CompactedAfter(g, m, Elems(free), b, p, q, Joined(g.hdr, p, j));
      assert Elems(f) - {j, p} + {Joined(g.hdr, p, j)} == Elems(free) - {p, q} + {Joined(g.hdr, p, j)};
    } else {
      PassOver(g.hdr, f, t, |f|, 1);
      CompactedAfter(g, m, Elems(free), b, b, q, j);
      assert Elems(f) == Elems(free) - {b, q} + {j};
    }
  }

  /** Second case: b's predecessor is the first block of the old free list. */
  lemma PredecessorAtHead(g: Geometry, used: set<Block>, b: Block, free: seq<Block>)
    requires Freeing(g, used, b, free) && 0 < |free| && Touch(g.hdr, free[0], b)
    ensures Compacted(g.hdr, Elems(Compact(g.hdr, [b] + free)))
  {
    var f := [b] + free;
    FreeingFacts(g, used, b, free);
    HeadJoins(g, used, f, 1, 1, 0);
    var f1, j := JoinHead(g.hdr, f, 1), Joined(g.hdr, free[0], b);
    assert f1[0] == j && forall k :: 1 <= k < |f1| ==> f1[k] == free[k];
    ThenFollower(g, used, b, free, f1, j);
  }

  lemma ThenFollower(g: Geometry, used: set<Block>, b: Block, free: seq<Block>, f: seq<Block>, j: Block)
    requires Freeing(g, used, b, free) && FreeListInv(g, used, f) && 1 <= |f| == |free| && f[0] == j
    requires forall k :: 1 <= k < |f| ==> f[k] == free[k]
    requires Touch(g.hdr, free[0], b) && j == Joined(g.hdr, free[0], b)
    requires Elems(f) == Elems(free) - {free[0]} + {j}
    ensures Compacted(g.hdr, Elems(CompactFrom(g.hdr, f, 1, 1)))
  {
    var p, m := free[0], used + Elems([b] + free);
    FreeingFacts(g, used, b, free);
    if s :| 1 <= s < |free| && Touch(g.hdr, b, free[s]) {
      var q := free[s];
      HeadJoins(g, used, f, 1, s, 1);
      CompactedAfter(g, m, Elems(free), b, p, q, Joined(g.hdr, j, q));
      assert Elems(f) - {j, q} + {Joined(g.hdr, j, q)} == Elems(free) - {p, q} + {Joined(g.hdr, j, q)};
    } else {
      PassOver(g.hdr, f, 1, |f|, 1);
      CompactedAfter(g, m, Elems(free), b, p, b, j);
      assert Elems(f) == Elems(free) - {p, b} + {j};
    }
  }

  /** Third case: b joins its predecessor further down, pmbFree moves on, and the follower is not found. */
  lemma PredecessorFirst(g: Geometry, used: set<Block>, b: Block, free: seq<Block>, t: nat)
    requires Freeing(g, used, b, free) && 0 < t < |free| && Touch(g.hdr, free[t], b)
    requires forall k :: 0 <= k < t ==> !Joins(g.hdr, b, free[k])
    ensures Compacted(g.hdr, Elems(Compact(g.hdr, [b] + free)))
        <==> forall s :: t < s < |free| ==> !Touch(g.hdr, b, free[s])
  {
    var f, m, p := [b] + free, used + Elems([b] + free), free[t];
    FreeingFacts(g, used, b, free);
    PassOver(g.hdr, f, 1, t + 1, 0);
    JoinStep(g, used, f, t + 1);
    JoinTiled(g, m, p, b);
    JoinHeadEffect(g.hdr, f, t + 1);
    var f1 := JoinHead(g.hdr, f, t + 1);
    assert f1 == free[t := Joined(g.hdr, p, b)];
    PassOver(g.hdr, f1, t + 1, |f1|, 1);
    if s :| t < s < |free| && Touch(g.hdr, b, free[s]) {
      assert f1[t] in Elems(f1) && f1[s] in Elems(f1) && Touch(g.hdr, f1[t], f1[s]);
    } else {
      CompactedAfter(g, m, Elems(free), b, p, b, f1[t]);
      assert Elems(f1) == Elems(free) - {p, b} + {f1[t]};
    }
  }

  /**
   Main result, exact form of the claim at malloc.cpp 402-411: when no two free blocks were adjacent
   before b is freed, none are afterwards, except exactly in the stranded case.
   */
  lemma CoalescingExact(g: Geometry, used: set<Block>, b: Block, free: seq<Block>)
    requires Freeing(g, used, b, free)
    ensures Compacted(g.hdr, Elems(Compact(g.hdr, [b] + free))) <==> !Stranded(g.hdr, free, b)
  {
    var f := [b] + free;
    FreeingFacts(g, used, b, free);
    var t := FirstJoin(g.hdr, b, free);
    if t == |free| {
      PassOver(g.hdr, f, 1, |f|, 0);
      CompactedAfter(g, used + Elems(f), Elems(free), b, b, b, b);
      assert Elems(f) == Elems(free) - {b, b} + {b};
    } else if Touch(g.hdr, b, free[t]) {
      FollowerFirst(g, used, b, free, t);
    } else if t == 0 {
      PredecessorAtHead(g, used, b, free);
    } else {
      PredecessorFirst(g, used, b, free, t);
    }
  }

  ghost function FirstJoin(hdr: int, b: Block, free: seq<Block>): (t: nat)
    ensures t <= |free| && (t < |free| ==> Joins(hdr, b, free[t]))
    ensures forall k :: 0 <= k < t ==> !Joins(hdr, b, free[k])
  {
    if free == [] then 0 else if Joins(hdr, b, free[0]) then 0 else 1 + FirstJoin(hdr, b, free[1..])
  }
}
