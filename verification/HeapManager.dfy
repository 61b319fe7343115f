/**
 lib32/malloc.cpp as it runs: list heads, counters and linked headers in linear memory, changed in
 place. Each method is proved to do to the two lists what its counterpart in HeapSpec does.
 */
module HeapManager {
  import opened Arithmetic
  import opened HeapSpec
  import opened HeapInvariant
  import opened HeapLists
  import HeapRuns

  class Heap {
    const mem: array<int>    // linear memory, one cell per address
    const g: Geometry        // HDR_SIZE and the range obtained from VMAlloc
    var acHeap: int
    var pmbUsed: int
    var pmbFree: int
    var uMemFree: int
    var nAllocCalls: nat
    var nFreeCalls: nat
    var nCompact: nat
    ghost var st: State

    ghost predicate Lists()
      reads this, mem
    {
      ListAt(mem[..], pmbUsed, st.used) && ListAt(mem[..], pmbFree, st.free)
    }

    ghost predicate Placed()
      reads this, mem
    {
      GoodGeometry(g) && g.base == acHeap && g.limit <= mem.Length
    }

    ghost predicate Valid()
      reads this, mem
    {
      Placed() && Inv(g, st) && Lists() && uMemFree == U32(st.memFree)
    }

    /** HeapInit(uSize), where VMAlloc has returned addr. */
    constructor HeapInit(hdrSize: int, memory: array<int>, uSize: int, addr: int)
      requires 12 <= hdrSize && hdrSize % 4 == 0 && 0 < addr && addr % 4 == 0
      requires uSize == 0 || (hdrSize + MIN_FRAG_SIZE <= uSize && uSize % 4 == 0)
      requires hdrSize + MIN_FRAG_SIZE <= HEAP_SIZE && addr + HEAP_SIZE <= memory.Length
      modifies memory
      ensures Valid() && mem == memory
      ensures g == Geometry(hdrSize, addr, addr + if uSize == 0 || uSize > HEAP_SIZE then HEAP_SIZE else uSize)
      ensures st == Initial(g)
    {
      var size := if uSize == 0 || uSize > HEAP_SIZE then HEAP_SIZE else uSize;
      mem := memory;
      acHeap := addr;
      pmbUsed, pmbFree := 0, addr;
      uMemFree := size - hdrSize;
      nAllocCalls, nFreeCalls, nCompact := 0, 0, 0;
      g := Geometry(hdrSize, addr, addr + size);
      st := Initial(Geometry(hdrSize, addr, addr + size));
      new;
      mem[addr + 4] := size - hdrSize;
      mem[addr] := SIGNATURE;
      mem[addr + 8] := 0;
      InitialInv(g);
    }

    method Store(a: int, v: int)
      requires 0 <= a < mem.Length
      modifies mem
      ensures mem[..] == old(mem[..])[a := v]
    {
      mem[a] := v;
    }

    // ---------------------------------------------------------------- malloc

    /** make_new_free(): cut the block at pmbOldFree behind uRequest bytes, if enough is left over. */
    method MakeNewFree(pmbOldFree: int, uRequest: int) returns (pmbNewFree: int)
      requires 0 < pmbOldFree && 0 <= uRequest && 12 <= g.hdr && pmbOldFree + 8 < mem.Length
      requires uRequest + (g.hdr + MIN_FRAG_SIZE) <= SizeOf(mem[..], pmbOldFree) ==>
                 pmbOldFree + g.hdr + uRequest + 8 < mem.Length
      modifies mem
      ensures var b := Block(pmbOldFree, old(SizeOf(mem[..], pmbOldFree)));
              var next := old(NextOf(mem[..], pmbOldFree));
              if Splits(g.hdr, b, uRequest) then
                && pmbNewFree == Back(g.hdr, b, uRequest).addr
                && HeaderAt(mem[..], Back(g.hdr, b, uRequest), next)
                && SizeOf(mem[..], pmbOldFree) == uRequest && NextOf(mem[..], pmbOldFree) == next
                && OnlyHeaders(old(mem[..]), mem[..], {pmbOldFree, pmbNewFree})
                && mem[pmbOldFree] == old(mem[pmbOldFree])
              else pmbNewFree == 0 && mem[..] == old(mem[..])
    {
      if uRequest + (g.hdr + MIN_FRAG_SIZE) > mem[pmbOldFree + 4] {
        pmbNewFree := 0;
      } else {
        pmbNewFree := pmbOldFree + g.hdr + uRequest;
        Store(pmbNewFree, SIGNATURE);
        Store(pmbNewFree + 4, mem[pmbOldFree + 4] - (uRequest + g.hdr));
        Store(pmbNewFree + 8, mem[pmbOldFree + 8]);
        Store(pmbOldFree + 4, mem[pmbOldFree + 4] - (mem[pmbNewFree + 4] + g.hdr));
      }
    }

    /** npvAllocateBlock(): move the i-th free block, or its front part, to the used list. */
    method AllocateBlock(pmb: int, uRequest: int, pmbPrev: int, ghost i: nat) returns (npv: int)
      requires Valid() && i < |st.free| && 4 <= uRequest <= st.free[i].size && uRequest % 4 == 0
      requires pmb == st.free[i].addr && pmbPrev == AddrAt(st.free, i - 1)
      modifies mem, `uMemFree, `pmbUsed, `pmbFree, `st
      ensures st == Allocate(g.hdr, old(st), i, uRequest) && npv == pmb + g.hdr
      ensures Placed() && Lists()
      ensures uMemFree == Sub32(old(uMemFree), Front(g.hdr, old(st).free[i], uRequest).size + g.hdr)
      ensures OnlyHeaders(old(mem[..]), mem[..], Written(g.hdr, old(st.free), i, uRequest))
    {
      ListCells(i, uRequest);
      LinkAllocated(pmb, uRequest, pmbPrev, st.free, i);
      AllocateLists(g, st, old(mem[..]), mem[..], old(pmbUsed), old(pmbFree), pmbFree, i, uRequest);
      st := Allocate(g.hdr, st, i, uRequest);
      npv := pmb + g.hdr;
    }

    /** The statements of npvAllocateBlock() and the headers they leave. */
    method LinkAllocated(pmb: int, uRequest: int, pmbPrev: int, ghost free: seq<Block>, ghost i: nat)
      requires i < |free| && pmb == free[i].addr && pmbPrev == AddrAt(free, i - 1) && (i == 0 ==> pmbFree == pmb)
      requires 4 <= uRequest <= free[i].size && Linkable(free, i, uRequest)
      modifies mem, `uMemFree, `pmbUsed, `pmbFree
      ensures uMemFree == Sub32(old(uMemFree), Front(g.hdr, free[i], uRequest).size + g.hdr)
      ensures pmbUsed == pmb && pmbFree == if i > 0 then old(pmbFree) else NewNext(g.hdr, free, i, uRequest)
      ensures OnlyHeaders(old(mem[..]), mem[..], Written(g.hdr, free, i, uRequest))
      ensures HeaderAt(mem[..], Front(g.hdr, free[i], uRequest), old(pmbUsed))
      ensures Splits(g.hdr, free[i], uRequest) ==> HeaderAt(mem[..], Back(g.hdr, free[i], uRequest), AddrAt(free, i + 1))
      ensures i > 0 ==> HeaderAt(mem[..], free[i - 1], NewNext(g.hdr, free, i, uRequest))
    {
      var pmbNewFree := MakeNewFree(pmb, uRequest);
      uMemFree := Sub32(uMemFree, mem[pmb + 4] + g.hdr);
      var pmbOldNext := mem[pmb + 8];
      Store(pmb + 8, pmbUsed);
      pmbUsed := pmb;
      if pmbNewFree != 0 {
        Store(pmbNewFree + 8, pmbOldNext);
        if pmbPrev != 0 {
          Store(pmbPrev + 8, pmbNewFree);
        } else {
          pmbFree := pmbNewFree;
        }
      } else {
        if pmbPrev != 0 {
          Store(pmbPrev + 8, pmbOldNext);
        } else {
          pmbFree := pmbOldNext;
        }
      }
    }

    /** The search loop of malloc(): the first free block that holds uRequest bytes, and its predecessor. */
    method Search(uRequest: int, ghost free: seq<Block>) returns (pmb: int, pmbPrev: int)
      requires free != [] && ListAt(mem[..], pmbFree, free)
      ensures var i := FirstFit(free, uRequest);
              pmb == AddrAt(free, i) && (i < |free| ==> pmbPrev == AddrAt(free, i - 1))
    {
      pmb, pmbPrev := pmbFree, 0;
      assert LinkAt(mem[..], free, 0);
      if mem[pmbFree + 4] < uRequest {
        pmbPrev, pmb := pmbFree, mem[pmbFree + 8];
        ghost var i := 1;
        while pmb != 0
          invariant 1 <= i <= |free| && i <= FirstFit(free, uRequest)
          invariant pmb == AddrAt(free, i) && pmbPrev == AddrAt(free, i - 1)
          decreases |free| - i
        {
          assert LinkAt(mem[..], free, i);
          if mem[pmb + 4] >= uRequest {
            break;
          }
          pmbPrev, pmb := pmb, mem[pmb + 8];
          i := i + 1;
        }
      }
    }

    /** malloc(): first fit. It must not be called with an empty free list. */
    method Malloc(uSize: int) returns (npvReturn: int)
      requires Valid() && CanMalloc(st, uSize)
      modifies mem, `uMemFree, `pmbUsed, `pmbFree, `st, `nAllocCalls
      ensures st == HeapSpec.Malloc(g.hdr, old(st), uSize).0
      ensures npvReturn == HeapSpec.Malloc(g.hdr, old(st), uSize).1
      ensures Valid()
      ensures PayloadKept(old(mem[..]), mem[..], g.hdr, old(st.used))
      ensures OutsideKept(g, old(mem[..]), mem[..])
      ensures nAllocCalls == old(nAllocCalls) + if uSize == 0 || uSize > HEAP_SIZE then 0 else 1
    {
      if uSize == 0 || uSize > HEAP_SIZE {
        return 0;
      }
      nAllocCalls := nAllocCalls + 1;
      var uRequest := RoundUp(uSize);
      RoundUpFacts(uSize);
      var pmb, pmbPrev := Search(uRequest, st.free);
      ghost var i := FirstFit(st.free, uRequest);
      if pmb == 0 {
        return 0;
      }
      npvReturn := AllocateBlock(pmb, uRequest, pmbPrev, i);
      AllocateSound(g, old(st), i, uRequest);
      AllocateKeepsPayload(g, old(st), i, uRequest, old(mem[..]), mem[..]);
    }

    // ---------------------------------------------------------------- free

    /** remove(): take the k-th block off the free list; its own header is left as it is. */
    method Remove(pmb: int, ghost f: seq<Block>, ghost k: nat)
      requires ListAt(mem[..], pmbFree, f) && AllSpaced(f) && k < |f| && pmb == f[k].addr
      modifies mem, `pmbFree
      ensures ListAt(mem[..], pmbFree, Without(f, k))
      ensures mem[..] == if k == 0 then old(mem[..]) else old(mem[..])[f[k - 1].addr + 8 := AddrAt(f, k + 1)]
    {
      assert LinkAt(mem[..], f, k);
      assert k > 0 ==> Spaced(f[0].addr, f[k].addr);
      if pmb == pmbFree {
        pmbFree := mem[pmb + 8];
        forall j | 0 < j < |f| ensures SkipsAt(mem[..], f, 0, j) {
          assert LinkAt(mem[..], f, j);
        }
        BypassedList(mem[..], f, 0);
        return;
      }
      var pmbPrev := pmbFree;
      ghost var i := 0;
      while pmbPrev != 0
        invariant 0 <= i < k && pmbPrev == f[i].addr
        invariant pmbFree == old(pmbFree) && mem[..] == old(mem[..])
        decreases k - i
      {
        assert LinkAt(mem[..], f, i);
        if mem[pmbPrev + 8] == pmb {
          assert i + 1 == k by {
            assert i + 1 < k ==> Spaced(f[i + 1].addr, f[k].addr);
          }
          Store(pmbPrev + 8, mem[pmb + 8]);
          Bypass(old(mem[..]), pmbFree, f, k);
          return;
        }
        pmbPrev := mem[pmbPrev + 8];
        i := i + 1;
      }
    }

    /** A listed block grows to `size` payload bytes. */
    method Grow(pmb: int, size: int, ghost f: seq<Block>, ghost i: nat, ghost f0: seq<Block>) returns (ghost f': seq<Block>)
      requires i < |f| && pmb == f[i].addr && ListAt(mem[..], pmbFree, f) && AllSpaced(f)
      requires Addrs(f) <= Addrs(f0) && AllSpaced(f0) && Forward(mem[..], f0)
      modifies mem
      ensures f' == f[i := Block(pmb, size)] && ListAt(mem[..], pmbFree, f') && AllSpaced(f') && Addrs(f') == Addrs(f)
      ensures pmb in Addrs(f0) && 0 <= pmb + 4 < mem.Length && mem[..] == old(mem[..])[pmb + 4 := size]
      ensures Forward(mem[..], f0)
    {
      assert LinkAt(mem[..], f, i);
      assert f[i] in f && pmb in Addrs(f0);
      ForwardResized(mem[..], f0, pmb, size);
      ResizedList(mem[..], pmbFree, f, i, size);
      ResizedSpaced(f, i, size);
      Store(pmb + 4, size);
      f' := f[i := Block(pmb, size)];
    }

    /** First branch of compact(): pmb swallows the list head. */
    method JoinIntoHead(pmb: int, ghost f: seq<Block>, ghost i: nat, ghost f0: seq<Block>) returns (ghost f': seq<Block>)
      requires 1 <= i < |f| && pmb == f[i].addr && ListAt(mem[..], pmbFree, f) && AllSpaced(f)
      requires Addrs(f) <= Addrs(f0) && AllSpaced(f0) && Forward(mem[..], f0)
      modifies mem, `pmbFree
      ensures f' == JoinHead(g.hdr, f, i) && ListAt(mem[..], pmbFree, f') && AllSpaced(f') && Addrs(f') <= Addrs(f)
      ensures NextOf(mem[..], pmb) == AddrAt(f, i + 1) && pmb + 8 < mem.Length
      ensures OnlyHeaders(old(mem[..]), mem[..], Addrs(f0)) && Forward(mem[..], f0)
    {
      assert LinkAt(mem[..], f, i) && LinkAt(mem[..], f, 0);
      f' := Grow(pmb, mem[pmb + 4] + g.hdr + mem[pmbFree + 4], f, i, f0);
      assert LinkAt(mem[..], f', i);
      WithoutSpaced(f', 0);
      Remove(pmbFree, f', 0);
      f' := Without(f', 0);
    }

    /** Second branch of compact(): the list head swallows pmb. */
    method JoinNextBlock(pmb: int, ghost f: seq<Block>, ghost i: nat, ghost f0: seq<Block>) returns (ghost f': seq<Block>)
      requires 1 <= i < |f| && pmb == f[i].addr && ListAt(mem[..], pmbFree, f) && AllSpaced(f)
      requires Addrs(f) <= Addrs(f0) && AllSpaced(f0) && Forward(mem[..], f0)
      modifies mem, `pmbFree
      ensures f' == JoinNext(g.hdr, f, i) && ListAt(mem[..], pmbFree, f') && AllSpaced(f') && Addrs(f') <= Addrs(f)
      ensures NextOf(mem[..], pmb) == AddrAt(f, i + 1) && pmb + 8 < mem.Length
      ensures OnlyHeaders(old(mem[..]), mem[..], Addrs(f0)) && Forward(mem[..], f0)
    {
      assert LinkAt(mem[..], f, i) && LinkAt(mem[..], f, 0);
      assert f[i] in f && pmb in Addrs(f0);
      f' := Grow(pmbFree, mem[pmbFree + 4] + g.hdr + mem[pmb + 4], f, 0, f0);
      assert LinkAt(mem[..], f', i) && LinkAt(mem[..], f', i - 1);
      assert f'[i - 1].addr == f[i - 1].addr && f[i - 1] in f && f[i - 1].addr in Addrs(f0);
      ForwardBypassed(mem[..], f0, f'[i - 1].addr, pmb);
      assert Spaced(f'[i - 1].addr, f'[i].addr);
      WithoutSpaced(f', i);
      Remove(pmb, f', i);
      f' := Without(f', i);
    }

    /** compact(): merge the head of the free list with the blocks physically before and after it. */
    method Compact(ghost f0: seq<Block>)
      requires f0 != [] && ListAt(mem[..], pmbFree, f0) && AllSpaced(f0)
      modifies mem, `pmbFree, `nCompact
      ensures ListAt(mem[..], pmbFree, HeapSpec.Compact(g.hdr, f0))
      ensures nCompact == old(nCompact) + |f0| - |HeapSpec.Compact(g.hdr, f0)|
      ensures OnlyHeaders(old(mem[..]), mem[..], Addrs(f0)) && Forward(mem[..], f0)
    {
      var iFreed := 0;
      ghost var f, i := f0, 1;
      ghost var m0 := mem[..];
      ListForward(mem[..], pmbFree, f0);
      assert LinkAt(mem[..], f, 0);
      var pmb := mem[pmbFree + 8];
      while pmb != 0
        invariant 1 <= i <= |f| && |f| + iFreed == |f0| && iFreed < 2
        invariant pmb == AddrAt(f, i) && ListAt(mem[..], pmbFree, f)
        invariant AllSpaced(f) && Addrs(f) <= Addrs(f0)
        invariant CompactFrom(g.hdr, f, i, iFreed) == HeapSpec.Compact(g.hdr, f0)
        invariant OnlyHeaders(m0, mem[..], Addrs(f0)) && Forward(mem[..], f0)
        invariant nCompact == old(nCompact)
        decreases |f| - i
      {
        assert LinkAt(mem[..], f, i) && LinkAt(mem[..], f, 0);
        if pmb + mem[pmb + 4] + g.hdr == pmbFree {
          f := JoinIntoHead(pmb, f, i, f0);
          iFreed := iFreed + 1;
          if iFreed == 2 {
            break;
          }
        } else if pmbFree + mem[pmbFree + 4] + g.hdr == pmb {
          f := JoinNextBlock(pmb, f, i, f0);
          iFreed := iFreed + 1;
          if iFreed == 2 {
            break;
          }
        } else {
          i := i + 1;
        }
        pmb := mem[pmb + 8];
      }
      nCompact := nCompact + iFreed;
    }

    /** The block b, off both lists, goes to the head of the free list, which is then compacted. */
    method Release(pmbBlock: int, ghost b: Block, ghost used: seq<Block>, ghost free: seq<Block>)
      requires pmbBlock == b.addr && HeaderAt(mem[..], b, NextOf(mem[..], pmbBlock))
      requires ListAt(mem[..], pmbUsed, used) && ListAt(mem[..], pmbFree, free)
      requires AllSpaced([b] + free) && forall a :: a in Addrs([b] + free) ==> SpacedFrom(used, a)
      modifies mem, `pmbFree, `nCompact
      ensures ListAt(mem[..], pmbUsed, used) && ListAt(mem[..], pmbFree, HeapSpec.Compact(g.hdr, [b] + free))
      ensures nCompact == old(nCompact) + |[b] + free| - |HeapSpec.Compact(g.hdr, [b] + free)|
      ensures OnlyHeaders(old(mem[..]), mem[..], Addrs([b] + free)) && Forward(mem[..], [b] + free)
    {
      ghost var f, m0 := [b] + free, mem[..];
      assert f[0] in f && pmbBlock in Addrs(f);
      Store(pmbBlock + 8, pmbFree);
      forall a | a in {pmbBlock} ensures SpacedFrom(free, a) {
        forall k | 0 <= k < |free| ensures Spaced(free[k].addr, a) {
          assert Spaced(f[0].addr, f[k + 1].addr);
        }
      }
      ListKept(m0, mem[..], pmbFree, free, {pmbBlock});
      PushedList(mem[..], pmbFree, free, b);
      pmbFree := pmbBlock;
      Compact(f);
      ListKept(m0, mem[..], pmbUsed, used, Addrs(f));
    }

    /** What free() needs to know about the headers before it unlinks the i-th used block. */
    ghost predicate Unlinkable(pmbBlock: int, i: nat)
      reads this, mem
    {
      && Lists() && i < |st.used| && pmbBlock == st.used[i].addr && AllSpaced(st.used)
      && AllSpaced([st.used[i]] + st.free)
      && forall a :: a in Addrs([st.used[i]] + st.free) ==> SpacedFrom(Without(st.used, i), a)
    }

    /** free() of the first block of the used list. */
    method FreeFirst(pmbBlock: int)
      requires Unlinkable(pmbBlock, 0)
      modifies mem, `pmbUsed, `pmbFree, `nCompact
      ensures var f := [st.used[0]] + st.free;
              && ListAt(mem[..], pmbUsed, Without(st.used, 0)) && ListAt(mem[..], pmbFree, HeapSpec.Compact(g.hdr, f))
              && nCompact == old(nCompact) + |f| - |HeapSpec.Compact(g.hdr, f)|
              && OnlyHeaders(old(mem[..]), mem[..], Addrs(f))
    {
      assert LinkAt(mem[..], st.used, 0);
      UnlinkHead(mem[..], st.used);
      pmbUsed := mem[pmbUsed + 8];
      Release(pmbBlock, st.used[0], Without(st.used, 0), st.free);
    }

    /** free() of a block further down the used list. */
    method FreeLater(pmbBlock: int, ghost i: nat)
      requires Unlinkable(pmbBlock, i) && 0 < i
      modifies mem, `pmbFree, `nCompact
      ensures var f := [st.used[i]] + st.free;
              && ListAt(mem[..], pmbUsed, Without(st.used, i)) && ListAt(mem[..], pmbFree, HeapSpec.Compact(g.hdr, f))
              && nCompact == old(nCompact) + |f| - |HeapSpec.Compact(g.hdr, f)|
              && OnlyHeaders(old(mem[..]), mem[..], Addrs(f) + {st.used[i - 1].addr})
    {
      ghost var f := [st.used[i]] + st.free;
      ghost var j := 1;
      assert LinkAt(mem[..], st.used, 0) && LinkAt(mem[..], st.used, i);
      assert forall k :: 0 <= k < |f| ==> 0 < f[k].addr && f[k].addr + 8 < mem.Length;
      var pmbPrev := pmbUsed;
      var pmb := mem[pmbUsed + 8];
      while pmb != 0
        invariant 0 < j <= i && pmb == st.used[j].addr && pmbPrev == st.used[j - 1].addr
        invariant mem[..] == old(mem[..]) && pmbUsed == old(pmbUsed) && pmbFree == old(pmbFree) && nCompact == old(nCompact)
        decreases i - j
      {
        assert LinkAt(mem[..], st.used, j);
        assert j < i ==> Spaced(st.used[j].addr, st.used[i].addr);
        if pmb == pmbBlock {
          Unlink(pmbPrev, pmb, i);
          var sentinel := WalkOn(pmbBlock, f);
          return;
        }
        pmbPrev, pmb, j := pmb, mem[pmb + 8], j + 1;
      }
    }

    /**
     The loop of free() does not stop at the block it has freed: it goes on from there along whatever
     the block's pmbNext points to after compact(). That walk ends, and it does not meet the block
     again, which is what the "free sentinel" of the source watches for.
     */
    method WalkOn(pmbBlock: int, ghost f: seq<Block>) returns (sentinel: bool)
      requires f != [] && pmbBlock == f[0].addr && Forward(mem[..], f) && AllSpaced(f)
      requires forall k :: 0 <= k < |f| ==> 0 < f[k].addr && f[k].addr + 8 < mem.Length
      ensures !sentinel
    {
      sentinel := false;
      ghost var j := NextPast(mem[..], f, 0);
      var pmb := mem[pmbBlock + 8];
      while pmb != 0
        invariant 0 < j <= |f| && pmb == AddrAt(f, j) && !sentinel
        decreases |f| - j
      {
        assert Spaced(f[0].addr, f[j].addr);
        if pmb == pmbBlock {
          sentinel := true;
        }
        j := NextPast(mem[..], f, j);
        pmb := mem[pmb + 8];
      }
    }

    /** Lines 525 to 528 of the source: bypass the block in the used list, free it, compact. */
    method Unlink(pmbPrev: int, pmb: int, ghost i: nat)
      requires Unlinkable(pmb, i) && 0 < i && pmbPrev == st.used[i - 1].addr
      modifies mem, `pmbFree, `nCompact
      ensures var f := [st.used[i]] + st.free;
              && ListAt(mem[..], pmbUsed, Without(st.used, i)) && ListAt(mem[..], pmbFree, HeapSpec.Compact(g.hdr, f))
              && nCompact == old(nCompact) + |f| - |HeapSpec.Compact(g.hdr, f)|
              && OnlyHeaders(old(mem[..]), mem[..], Addrs(f) + {st.used[i - 1].addr})
              && Forward(mem[..], f)
    {
      ghost var f, m0 := [st.used[i]] + st.free, mem[..];
      assert LinkAt(mem[..], st.used, i) && LinkAt(mem[..], st.used, i - 1);
      assert Spaced(st.used[i - 1].addr, st.used[i].addr);
      Bypass(mem[..], pmbUsed, st.used, i);
      Store(pmbPrev + 8, mem[pmb + 8]);
      assert Without(st.used, i)[i - 1] == st.used[i - 1];
      forall a | a in {pmbPrev} ensures SpacedFrom(st.free, a) {
        forall k | 0 <= k < |st.free| ensures Spaced(st.free[k].addr, a) {
          assert f[k + 1] == st.free[k] && f[k + 1].addr in Addrs(f) && SpacedFrom(Without(st.used, i), st.free[k].addr);
          assert Spaced(Without(st.used, i)[i - 1].addr, st.free[k].addr);
        }
      }
      ListKept(m0, mem[..], pmbFree, st.free, {pmbPrev});
      Release(pmb, st.used[i], Without(st.used, i), st.free);
    }

    /** The two ways of free() through the used list. */
    method Detach(pmbBlock: int, ghost i: nat)
      requires Unlinkable(pmbBlock, i)
      modifies mem, `pmbUsed, `pmbFree, `nCompact
      ensures var f := [st.used[i]] + st.free;
              && ListAt(mem[..], pmbUsed, Without(st.used, i)) && ListAt(mem[..], pmbFree, HeapSpec.Compact(g.hdr, f))
              && nCompact == old(nCompact) + |f| - |HeapSpec.Compact(g.hdr, f)|
              && OnlyHeaders(old(mem[..]), mem[..], Addrs(f) + (if i > 0 then {st.used[i - 1].addr} else {}))
    {
      assert i > 0 ==> Spaced(st.used[0].addr, st.used[i].addr);
      if pmbBlock == pmbUsed {
        FreeFirst(pmbBlock);
      } else {
        FreeLater(pmbBlock, i);
      }
    }

    /** free() of a live block or of NULL. */
    method Free(pvBlock: int)
      requires Valid() && (pvBlock == 0 || Live(g.hdr, st, pvBlock))
      modifies mem, `uMemFree, `pmbUsed, `pmbFree, `st, `nFreeCalls, `nCompact
      ensures st == HeapSpec.Free(g.hdr, old(st), pvBlock)
      ensures Valid()
      ensures PayloadKept(old(mem[..]), mem[..], g.hdr, st.used) && OutsideKept(g, old(mem[..]), mem[..])
      ensures nFreeCalls == old(nFreeCalls) + 1
      ensures nCompact == old(nCompact) + if pvBlock == 0 then 0 else 1 + |old(st).free| - |st.free|
    {
      nFreeCalls := nFreeCalls + 1;
      if pvBlock == 0 {
        return;
      }
      FreeSound(g, st, pvBlock);
      FreeLive(pvBlock);
    }

    method FreeLive(pvBlock: int)
      requires Valid() && pvBlock != 0 && Live(g.hdr, st, pvBlock)
      modifies mem, `uMemFree, `pmbUsed, `pmbFree, `st, `nCompact
      ensures st == HeapSpec.Free(g.hdr, old(st), pvBlock)
      ensures Placed() && Lists()
      ensures uMemFree == Add32(old(uMemFree), old(st).used[Find(old(st).used, pvBlock - g.hdr)].size + g.hdr)
      ensures PayloadKept(old(mem[..]), mem[..], g.hdr, st.used) && OutsideKept(g, old(mem[..]), mem[..])
      ensures nCompact == old(nCompact) + 1 + |old(st).free| - |st.free|
    {
      var pmbBlock := pvBlock - g.hdr;
      ghost var i, st' := Find(st.used, pmbBlock), HeapSpec.Free(g.hdr, st, pvBlock);
      UnlinkSpaced(g, st, i);
      assert LinkAt(mem[..], st.used, i);
      uMemFree := Add32(uMemFree, mem[pmbBlock + 4] + g.hdr);
      Detach(pmbBlock, i);
      FreeKeepsPayload(g, st, i, old(mem[..]), mem[..]);
      st := st';
    }

    // ---------------------------------------------------------------- realloc

    /** _msize() */
    method MSize(pvBlock: int) returns (n: int)
      requires Valid() && (pvBlock == 0 || Live(g.hdr, st, pvBlock))
      ensures n == if pvBlock == 0 then 0 else st.used[Find(st.used, pvBlock - g.hdr)].size
    {
      if pvBlock == 0 {
        return 0;
      }
      assert LinkAt(mem[..], st.used, Find(st.used, pvBlock - g.hdr));
      n := mem[pvBlock - g.hdr + 4];
    }

    /** memcpy() between areas that do not overlap. */
    method MemCopy(dst: int, src: int, n: nat)
      requires 0 <= dst && dst + n <= mem.Length && 0 <= src && src + n <= mem.Length
      requires dst + n <= src || src + n <= dst
      modifies mem
      ensures mem[..] == Copied(old(mem[..]), dst, src, n)
    {
      var i := 0;
      while i < n
        invariant 0 <= i <= n
        invariant mem[..] == Copied(old(mem[..]), dst, src, i)
      {
        CopiedOneMore(old(mem[..]), dst, src, i);
        Store(dst + i, mem[src + i]);
        i := i + 1;
      }
    }

    /** realloc() */
    method Realloc(pvBlock: int, usLength: int) returns (pv: int)
      requires Valid() && CanRealloc(g.hdr, st, pvBlock, usLength)
      modifies mem, `uMemFree, `pmbUsed, `pmbFree, `st, `nAllocCalls, `nFreeCalls, `nCompact
      ensures st == HeapSpec.Realloc(g.hdr, old(st), pvBlock, usLength).0
      ensures pv == HeapSpec.Realloc(g.hdr, old(st), pvBlock, usLength).1
      ensures Valid()
      ensures pvBlock != 0 && pv != 0 ==>
                var size := old(st).used[Find(old(st).used, pvBlock - g.hdr)].size;
                var n := if size < usLength then size else usLength;
                Slice(mem[..], pv, n) == old(Slice(mem[..], pvBlock, n))
      ensures var kept := if pvBlock == 0 || (usLength != 0 && pv == 0) then old(st).used
                          else Without(old(st).used, Find(old(st).used, pvBlock - g.hdr));
              PayloadKept(old(mem[..]), mem[..], g.hdr, kept)
      ensures OutsideKept(g, old(mem[..]), mem[..])
    {
      if pvBlock == 0 {
        pv := Malloc(usLength);
        return;
      }
      if usLength == 0 {
        Free(pvBlock);
        return 0;
      }
      pv := Malloc(usLength);
      if pv == 0 {
        return 0;
      }
      HeapRuns.ReallocMoves(g, old(st), pvBlock, usLength);
      Move(pvBlock, usLength, pv, old(st).used, Find(old(st).used, pvBlock - g.hdr), old(mem[..]));
    }

    /** The end of realloc(): copy the contents of the i-th live block to the new one and free the old one. */
    method Move(pvBlock: int, usLength: int, pv: int, ghost used: seq<Block>, ghost i: nat, ghost m0: seq<int>)
      requires Valid() && pvBlock != 0 && 0 <= usLength && st.used != []
      requires i < |used| && pvBlock == used[i].addr + g.hdr && pv == st.used[0].addr + g.hdr
      requires st.used == [st.used[0]] + used && Find(st.used, used[i].addr) == i + 1
      requires FitsIn(g, st.used[0]) && FitsIn(g, used[i]) && usLength <= st.used[0].size
      requires forall c :: c in used ==> Apart(g.hdr, st.used[0], c)
      requires PayloadKept(m0, mem[..], g.hdr, used) && OutsideKept(g, m0, mem[..])
      modifies mem, `uMemFree, `pmbUsed, `pmbFree, `st, `nFreeCalls, `nCompact
      ensures st == HeapSpec.Free(g.hdr, old(st), pvBlock)
      ensures Valid()
      ensures var n := if used[i].size < usLength then used[i].size else usLength;
              Slice(mem[..], pv, n) == Slice(m0, pvBlock, n)
      ensures PayloadKept(m0, mem[..], g.hdr, Without(used, i)) && OutsideKept(g, m0, mem[..])
    {
      ghost var b, m1 := st.used[0], mem[..];
      assert used[i] in used && st.used[i + 1] == used[i];
      ghost var rest := [b] + Without(used, i);
      WithoutBehind(st.used[0], used, i);
      var n := CopyOut(pvBlock, usLength, pv, used, i);
      ghost var m2 := mem[..];
      assert HeapSpec.Free(g.hdr, st, pvBlock).used == Without(st.used, i + 1);
      Free(pvBlock);
      assert PayloadKept(m2, mem[..], g.hdr, rest);
      MoveContents(g, used, i, b, pv, pvBlock, n, m0, m1, m2, mem[..]);
    }

    method CopyOut(pvBlock: int, usLength: int, pv: int, ghost used: seq<Block>, ghost i: nat) returns (n: nat)
      requires Valid() && pvBlock != 0 && 0 <= usLength && st.used != []
      requires i < |used| && pvBlock == used[i].addr + g.hdr && pv == st.used[0].addr + g.hdr
      requires st.used == [st.used[0]] + used && Find(st.used, used[i].addr) == i + 1
      requires FitsIn(g, st.used[0]) && FitsIn(g, used[i]) && usLength <= st.used[0].size
      requires Apart(g.hdr, st.used[0], used[i])
      modifies mem
      ensures Valid() && n == if used[i].size < usLength then used[i].size else usLength
      ensures n + pv <= mem.Length && n + pvBlock <= mem.Length && mem[..] == Copied(old(mem[..]), pv, pvBlock, n)
    {
      assert st.used[i + 1] == used[i];
      var size := MSize(pvBlock);
      n := if size < usLength then size else usLength;
      CopyInto(pv, pvBlock, n);
    }

    /** Writing into the payload of the first live block leaves the heap valid. */
    method CopyInto(pv: int, pvBlock: int, n: nat)
      requires Valid() && st.used != [] && pv == st.used[0].addr + g.hdr && n <= st.used[0].size
      requires 0 <= pvBlock && pvBlock + n <= mem.Length && pv + n <= mem.Length && (pv + n <= pvBlock || pvBlock + n <= pv)
      modifies mem
      ensures Valid() && mem[..] == Copied(old(mem[..]), pv, pvBlock, n)
    {
      ghost var m := mem[..];
      MemCopy(pv, pvBlock, n);
      PayloadWritten(g, st, m, mem[..], pmbUsed, pmbFree);
    }

    // ---------------------------------------------------------------- the debug build's self-check

    /** SignatureCheck() */
    predicate SignatureCheck(p: int)
      requires 0 <= p && p + 8 < mem.Length
      reads this, mem
    {
      acHeap <= p <= acHeap + HEAP_SIZE && mem[p] == SIGNATURE && mem[p + 4] < HEAP_SIZE
    }

    /** One of the two loops of HeapCheck(): count and add up a list, checking every signature. */
    method CheckList(head: int, ghost s: seq<Block>) returns (n: nat, c: int, good: bool)
      requires ListAt(mem[..], head, s)
      ensures n == |s| && c == Bytes(g.hdr, s)
      ensures good <==> forall k :: 0 <= k < |s| ==> acHeap <= s[k].addr <= acHeap + HEAP_SIZE && s[k].size < HEAP_SIZE
    {
      var p := head;
      n, c, good := 0, 0, true;
      assert s[..0] == [];
      while p != 0
        invariant n <= |s| && p == AddrAt(s, n) && c == Bytes(g.hdr, s[..n])
        invariant good <==> forall k :: 0 <= k < n ==> acHeap <= s[k].addr <= acHeap + HEAP_SIZE && s[k].size < HEAP_SIZE
        decreases |s| - n
      {
        assert LinkAt(mem[..], s, n);
        assert s[..n + 1] == s[..n] + [s[n]];
        BytesConcat(g.hdr, s[..n], [s[n]]);
        assert Bytes(g.hdr, [s[n]]) == s[n].size + g.hdr by {
          assert [s[n]][1..] == [];
        }
        good := good && SignatureCheck(p);
        c := c + (mem[p + 4] + g.hdr);
        p, n := mem[p + 8], n + 1;
      }
      assert s[..n] == s;
    }

    /**
     HeapCheck(), whose total cTotalHeap is the default size. All signatures hold; and the totals, which it
     compares if fMemoryDoc says so, match exactly if the heap has the default size.
     */
    method HeapCheck(memoryDoc: bool) returns (nAlloc: nat, nFree: nat, good: bool, totals: bool)
      requires Valid()
      ensures nAlloc == |st.used| && nFree == |st.free|
      ensures good && (totals <==> memoryDoc ==> g.limit - g.base == HEAP_SIZE)
    {
      var cAlloc, cFree, good';
      nAlloc, cAlloc, good := CheckList(pmbUsed, st.used);
      nFree, cFree, good' := CheckList(pmbFree, st.free);
      forall b | b in st.used || b in st.free ensures acHeap <= b.addr <= acHeap + HEAP_SIZE && b.size < HEAP_SIZE {
        assert b in Blocks(st) && FitsIn(g, b);
      }
      good := good && good';
      totals := !memoryDoc || cAlloc + cFree == HEAP_SIZE;
    }

    /** The headers that allocation touches are in place and apart. */
    ghost predicate Linkable(free: seq<Block>, i: nat, uRequest: int)
      requires i < |free|
      reads this, mem
    {
      && 12 <= g.hdr && End(g.hdr, free[i]) <= mem.Length
      && LinkAt(mem[..], free, i)
      && (i > 0 ==>
            && LinkAt(mem[..], free, i - 1) && Spaced(free[i - 1].addr, free[i].addr)
            && (Splits(g.hdr, free[i], uRequest) ==> Spaced(free[i - 1].addr, Back(g.hdr, free[i], uRequest).addr)))
    }

    lemma ListCells(i: nat, uRequest: int)
      requires Placed() && Inv(g, st) && Lists() && i < |st.free| && 4 <= uRequest <= st.free[i].size
      ensures Linkable(st.free, i, uRequest)
    {
      StateSpaced(g, st.used, st.free);
      assert st.free[i] in Blocks(st) && FitsIn(g, st.free[i]);
      assert LinkAt(mem[..], st.free, i);
      if i > 0 {
        assert st.free[i - 1] in Blocks(st) && FitsIn(g, st.free[i - 1]);
        assert LinkAt(mem[..], st.free, i - 1);
        assert Spaced(st.free[i - 1].addr, st.free[i].addr) && Apart(g.hdr, st.free[i - 1], st.free[i]);
      }
    }
  }

  ghost function NextPast(m: seq<int>, f: seq<Block>, j: nat): (k: nat)
    requires Forward(m, f) && j < |f|
    ensures j < k <= |f| && NextOf(m, f[j].addr) == AddrAt(f, k)
  {
    assert PointsPast(m, f, j);
    if NextOf(m, f[j].addr) == 0 then |f| else
    var k :| j < k < |f| && NextOf(m, f[j].addr) == f[k].addr;
    k
  }

  /** Headers survive any change of the payload of the first used block. */
  lemma PayloadWritten(g: Geometry, st: State, m: seq<int>, n: seq<int>, hu: int, hf: int)
    requires Inv(g, st) && st.used != [] && ListAt(m, hu, st.used) && ListAt(m, hf, st.free) && |m| == |n|
    requires forall a :: 0 <= a < |m| && !(st.used[0].addr + g.hdr <= a < End(g.hdr, st.used[0])) ==> m[a] == n[a]
    ensures ListAt(n, hu, st.used) && ListAt(n, hf, st.free)
  {
    var b := st.used[0];
    assert b in Elems(st.used) && FitsIn(g, b);
    forall k | 0 <= k < |st.used| ensures LinkAt(n, st.used, k) {
      assert LinkAt(m, st.used, k) && st.used[k] in Elems(st.used) && FitsIn(g, st.used[k]);
      assert st.used[k] != b ==> Apart(g.hdr, b, st.used[k]);
    }
    forall k | 0 <= k < |st.free| ensures LinkAt(n, st.free, k) {
      assert LinkAt(m, st.free, k) && st.free[k] in Elems(st.free) && FitsIn(g, st.free[k]);
      assert b in Elems(st.used) && Apart(g.hdr, b, st.free[k]);
    }
  }

  lemma WithoutBehind(b: Block, s: seq<Block>, i: nat)
    requires i < |s|
    ensures Without([b] + s, i + 1) == [b] + Without(s, i)
  {
  }

  lemma FreeSound(g: Geometry, st: State, p: int)
    requires Inv(g, st) && p != 0 && Live(g.hdr, st, p)
    ensures Inv(g, HeapSpec.Free(g.hdr, st, p))
    ensures Add32(U32(st.memFree), st.used[Find(st.used, p - g.hdr)].size + g.hdr) == U32(HeapSpec.Free(g.hdr, st, p).memFree)
  {
    FreeInv(g, st, p);
    var b := st.used[Find(st.used, p - g.hdr)];
    assert b in Elems(st.used) && FitsIn(g, b);
    MemFreeRange(g, st);
    MemFreeRange(g, HeapSpec.Free(g.hdr, st, p));
  }

  /** Headers stay spaced when the i-th used block moves to the free list. */
  lemma UnlinkSpaced(g: Geometry, st: State, i: nat)
    requires Inv(g, st) && i < |st.used|
    ensures AllSpaced(st.used) && AllSpaced([st.used[i]] + st.free)
    ensures forall a :: a in Addrs([st.used[i]] + st.free) ==> SpacedFrom(Without(st.used, i), a)
  {
    StateSpaced(g, st.used, st.free);
    var rest, f := Without(st.used, i), [st.used[i]] + st.free;
    UnlinkInv(g, st, i);
    StateSpaced(g, rest, f);
    forall a | a in Addrs(f) ensures SpacedFrom(rest, a) {
      var k :| 0 <= k < |f| && f[k].addr == a;
      assert SpacedFrom(rest, f[k].addr);
    }
  }

  lemma UnlinkHead(m: seq<int>, used: seq<Block>)
    requires used != [] && ListAt(m, used[0].addr, used)
    ensures ListAt(m, AddrAt(used, 1), Without(used, 0))
  {
    forall k | 0 < k < |used| ensures SkipsAt(m, used, 0, k) {
      assert LinkAt(m, used, k);
    }
    BypassedList(m, used, 0);
  }

  /** free() writes neither into the payload of a block that stays live nor outside the heap. */
  lemma FreeKeepsPayload(g: Geometry, st: State, i: nat, m: seq<int>, n: seq<int>)
    requires Inv(g, st) && i < |st.used|
    requires OnlyHeaders(m, n, Addrs([st.used[i]] + st.free) + (if i > 0 then {st.used[i - 1].addr} else {}))
    ensures PayloadKept(m, n, g.hdr, Without(st.used, i)) && OutsideKept(g, m, n)
  {
    var rest, f := Without(st.used, i), [st.used[i]] + st.free;
    var w := Addrs(f) + (if i > 0 then {st.used[i - 1].addr} else {});
    UnlinkInv(g, st, i);
    var all := Elems(rest) + Elems(f);
    assert i > 0 ==> rest[i - 1] == st.used[i - 1];
    forall a | a in w ensures exists c :: c in all && c.addr == a {
      if a in Addrs(f) {
        var c :| c in f && c.addr == a;
        assert c in all;
      } else {
        assert rest[i - 1] in all;
      }
    }
    forall a, k | a in w && 0 <= k < |rest|
      ensures rest[k].addr == a || a + g.hdr <= rest[k].addr || End(g.hdr, rest[k]) <= a
    {
      var c :| c in all && c.addr == a;
      assert rest[k] in all && FitsIn(g, c) && FitsIn(g, rest[k]);
      assert c != rest[k] ==> Apart(g.hdr, c, rest[k]);
    }
    PayloadsKept(m, n, g.hdr, rest, w);
    forall a | a in w ensures g.base <= a && a + 12 <= g.limit {
      var c :| c in all && c.addr == a;
      assert FitsIn(g, c);
    }
  }

  /** One link redirected around the k-th block. */
  lemma Bypass(m: seq<int>, head: int, f: seq<Block>, k: nat)
    requires ListAt(m, head, f) && AllSpaced(f) && 0 < k < |f|
    ensures ListAt(m[f[k - 1].addr + 8 := AddrAt(f, k + 1)], head, Without(f, k))
  {
    var p := f[k - 1].addr;
    assert LinkAt(m, f, k - 1);
    var n := m[p + 8 := AddrAt(f, k + 1)];
    forall j | 0 <= j < |f| && j != k ensures SkipsAt(n, f, k, j) {
      assert LinkAt(m, f, j);
      assert j < k - 1 ==> Spaced(f[j].addr, p);
      assert k - 1 < j ==> Spaced(p, f[j].addr);
    }
    BypassedList(n, f, k);
  }

  /** The headers written by npvAllocateBlock link the two lists that Allocate describes. */
  lemma AllocateLists(g: Geometry, st: State, m: seq<int>, n: seq<int>, hu: int, hf: int, hf': int, i: nat, req: int)
    requires Inv(g, st) && i < |st.free| && 4 <= req <= st.free[i].size && req % 4 == 0
    requires ListAt(m, hu, st.used) && ListAt(m, hf, st.free)
    requires OnlyHeaders(m, n, Written(g.hdr, st.free, i, req))
    requires HeaderAt(n, Front(g.hdr, st.free[i], req), hu)
    requires Splits(g.hdr, st.free[i], req) ==> HeaderAt(n, Back(g.hdr, st.free[i], req), AddrAt(st.free, i + 1))
    requires i > 0 ==> HeaderAt(n, st.free[i - 1], NewNext(g.hdr, st.free, i, req))
    requires hf' == if i > 0 then hf else NewNext(g.hdr, st.free, i, req)
    ensures ListAt(n, st.free[i].addr, Allocate(g.hdr, st, i, req).used)
    ensures ListAt(n, hf', Allocate(g.hdr, st, i, req).free)
  {
    var w := Written(g.hdr, st.free, i, req);
    WrittenSpaced(g, st, i, req);
    forall a | a in w ensures SpacedFrom(st.used, a) {
      forall k | 0 <= k < |st.used| ensures Spaced(st.used[k].addr, a) {
      }
    }
    ListKept(m, n, hu, st.used, w);
    PushedList(n, hu, st.used, Front(g.hdr, st.free[i], req));
    forall k | 0 <= k < |st.free| && k != i && k + 1 != i ensures LinkAt(n, st.free, k) {
      assert LinkAt(m, st.free, k);
      HeaderKept(m, n, st.free[k], AddrAt(st.free, k + 1), w);
    }
    if Splits(g.hdr, st.free[i], req) {
      forall k | 0 <= k < |st.free| && k != i ensures SubstitutesAt(n, st.free, i, Back(g.hdr, st.free[i], req), k) {
        assert k + 1 != i ==> LinkAt(n, st.free, k);
      }
      ReplacedList(n, st.free, i, Back(g.hdr, st.free[i], req));
    } else {
      forall k | 0 <= k < |st.free| && k != i ensures SkipsAt(n, st.free, i, k) {
        assert k + 1 != i ==> LinkAt(n, st.free, k);
      }
      BypassedList(n, st.free, i);
    }
  }

  /** Allocation writes neither into live payloads nor outside the heap. */
  lemma AllocateKeepsPayload(g: Geometry, st: State, i: nat, req: int, m: seq<int>, n: seq<int>)
    requires Inv(g, st) && i < |st.free| && 4 <= req <= st.free[i].size && req % 4 == 0
    requires OnlyHeaders(m, n, Written(g.hdr, st.free, i, req))
    ensures PayloadKept(m, n, g.hdr, st.used) && OutsideKept(g, m, n)
  {
    var w, b := Written(g.hdr, st.free, i, req), st.free[i];
    assert b in Elems(st.free) && FitsIn(g, b);
    if i > 0 {
      assert st.free[i - 1] in Elems(st.free) && FitsIn(g, st.free[i - 1]);
    }
    forall a, k | a in w && 0 <= k < |st.used| ensures a + g.hdr <= st.used[k].addr || End(g.hdr, st.used[k]) <= a {
      var u := st.used[k];
      assert u in Elems(st.used) && FitsIn(g, u);
      assert Apart(g.hdr, b, u) && (i > 0 ==> Apart(g.hdr, st.free[i - 1], u));
    }
    PayloadsKept(m, n, g.hdr, st.used, w);
  }

  lemma AllocateSound(g: Geometry, st: State, i: nat, req: int)
    requires Inv(g, st) && i < |st.free| && 4 <= req <= st.free[i].size && req % 4 == 0
    ensures Inv(g, Allocate(g.hdr, st, i, req))
    ensures Sub32(U32(st.memFree), Front(g.hdr, st.free[i], req).size + g.hdr) == U32(Allocate(g.hdr, st, i, req).memFree)
  {
    AllocateInv(g, st, i, req);
    MemFreeRange(g, st);
    MemFreeRange(g, Allocate(g.hdr, st, i, req));
  }

  /** Addresses of the headers that allocating from the i-th free block writes. */
  function Written(hdr: int, free: seq<Block>, i: nat, req: int): set<int>
    requires i < |free|
  {
    {free[i].addr} + (if i > 0 then {free[i - 1].addr} else {})
    + (if Splits(hdr, free[i], req) then {Back(hdr, free[i], req).addr} else {})
  }

  /** What the predecessor of the i-th free block points to afterwards. */
  function NewNext(hdr: int, free: seq<Block>, i: nat, req: int): int
    requires i < |free|
  {
    if Splits(hdr, free[i], req) then Back(hdr, free[i], req).addr else AddrAt(free, i + 1)
  }

  lemma WrittenSpaced(g: Geometry, st: State, i: nat, req: int)
    requires Inv(g, st) && i < |st.free| && 4 <= req <= st.free[i].size && req % 4 == 0
    ensures forall k, a :: 0 <= k < |st.used| && a in Written(g.hdr, st.free, i, req) ==> Spaced(st.used[k].addr, a)
    ensures forall k, a :: 0 <= k < |st.free| && k != i && k + 1 != i && a in Written(g.hdr, st.free, i, req)
              ==> Spaced(st.free[k].addr, a)
  {
    var b, y := st.free[i], Back(g.hdr, st.free[i], req);
    StateSpaced(g, st.used, st.free);
    assert b in Elems(st.free) && FitsIn(g, b);
    forall k | 0 <= k < |st.used| && Splits(g.hdr, b, req) ensures Spaced(st.used[k].addr, y.addr) {
      assert st.used[k] in Elems(st.used) && FitsIn(g, st.used[k]) && Apart(g.hdr, b, st.used[k]);
    }
    forall k | 0 <= k < |st.free| && k != i && Splits(g.hdr, b, req) ensures Spaced(st.free[k].addr, y.addr) {
      assert st.free[k] in Elems(st.free) && FitsIn(g, st.free[k]) && Apart(g.hdr, b, st.free[k]);
    }
    if i > 0 {
      assert SpacedFrom(st.used, st.free[i - 1].addr);
    }
    assert SpacedFrom(st.used, b.addr);
    forall k | 0 <= k < |st.free| && k != i && k + 1 != i ensures Spaced(st.free[k].addr, b.addr)
      ensures i > 0 ==> Spaced(st.free[k].addr, st.free[i - 1].addr)
    {
      assert if k < i then Spaced(st.free[k].addr, b.addr) else Spaced(b.addr, st.free[k].addr);
      assert i > 0 ==> if k < i then Spaced(st.free[k].addr, st.free[i - 1].addr) else Spaced(st.free[i - 1].addr, st.free[k].addr);
    }
  }
}
