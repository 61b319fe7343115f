/**
 The calls of lib32/memory.cpp: __get_free_pages, free_pages, vmalloc and vfree over the base-address
 list, which is a linked list changed in place.
 */
module PageCalls {
  import opened Arithmetic
  import opened PageOrder
  import opened Pages

  /** BaseAddr: a node of the list of base addresses. */
  class BaseAddr {
    const base: int
    const retaddr: int
    const size: nat
    var next: BaseAddr?

    constructor (base: int, retaddr: int, size: nat, next: BaseAddr?)
      ensures this.base == base && this.retaddr == retaddr && this.size == size && this.next == next
    {
      this.base, this.retaddr, this.size, this.next := base, retaddr, size, next;
    }
  }

  /** A block handed out: the region it lies in, its size, and whether the base-address list knows it. */
  datatype Block = Block(base: int, size: nat, recorded: bool)

  /** A call that a driver makes: get pages, free pages, vmalloc, vfree. */
  datatype PageCall = GetPages(dma: bool, order: nat) | FreeGot(addr: int) | Virtual(request: nat) | FreeVirtual(ptr: int) {
    /** The sizes fit into 32 bits. */
    predicate Admissible() {
      match this
      case GetPages(_, order) => order < 20
      case Virtual(request) => request < WORD
      case _ => true
    }

    /** Do the answers belong to the requests that the call makes? */
    predicate Answers(a: seq<Answer>) {
      match this
      case GetPages(dma, order) => Answered(Asked(dma, PAGE_SIZE * Pow(2, order), a), a)
      case Virtual(_) => |a| == 1
      case _ => a == []
    }

    /** The bytes that the call, answered like this, adds to the running total without recording them. */
    function Unrecorded(a: seq<Answer>): nat {
      if GetPages? then
        var size := PAGE_SIZE * Pow(2, order);
        var got := Serve(dma, size, a);
        if got.Served? && !got.recorded then WastefulSize(size) else 0
      else 0
    }
  }

  /** The size that vmalloc asks for. */
  function PageRounded(request: nat): nat {
    Quot(Rem(request + PAGE_SIZE - 1, WORD), PAGE_SIZE) * PAGE_SIZE
  }

  /** It is the least number of whole pages that hold the request, or nothing if that number wraps. */
  lemma PageRoundedIs(request: nat)
    requires request < WORD
    ensures Rem(PageRounded(request), PAGE_SIZE) == 0
    ensures request <= WORD - PAGE_SIZE ==> request <= PageRounded(request) < request + PAGE_SIZE
    ensures request > WORD - PAGE_SIZE ==> PageRounded(request) == 0
  {
    var n := request + PAGE_SIZE - 1;
    if n < WORD {
      QuotUnique(n, WORD, 0, n);
    } else {
      QuotUnique(n, WORD, 1, n - WORD);
      QuotUnique(n - WORD, PAGE_SIZE, 0, n - WORD);
    }
    QuotUnique(PageRounded(request), PAGE_SIZE, Quot(Rem(n, WORD), PAGE_SIZE), 0);
  }

  /** What callers hold: all blocks, and those of vmalloc among them. */
  datatype Holding = Holding(held: set<int>, virtuals: set<int>) {
    /** Callers add what a call gets them, and free only what they hold. */
    function Next(call: PageCall, a: seq<Answer>): Holding {
      match call
      case GetPages(dma, order) =>
        var got := Serve(dma, PAGE_SIZE * Pow(2, order), a);
        if got.Served? then Holding(held + {got.addr}, virtuals) else this
      case Virtual(_) =>
        if AnswerAt(a, 0).Granted? then Holding(held + {AnswerAt(a, 0).addr}, virtuals + {AnswerAt(a, 0).addr}) else this
      case FreeGot(addr) => Holding(held - {addr}, virtuals - {addr})
      case FreeVirtual(ptr) => if ptr in virtuals then Holding(held - {ptr}, virtuals - {ptr}) else this
    }
  }

  function HoldingAfter(calls: seq<PageCall>, answers: seq<seq<Answer>>): Holding
    requires |calls| == |answers|
  {
    if calls == [] then Holding({}, {})
    else HoldingAfter(calls[..|calls| - 1], answers[..|calls| - 1]).Next(calls[|calls| - 1], answers[|calls| - 1])
  }

  function UnrecordedBytes(calls: seq<PageCall>, answers: seq<seq<Answer>>): nat
    requires |calls| == |answers|
  {
    if calls == [] then 0
    else UnrecordedBytes(calls[..|calls| - 1], answers[..|calls| - 1]) + calls[|calls| - 1].Unrecorded(answers[|calls| - 1])
  }

  function Flat<T>(s: seq<seq<T>>): seq<T> {
    if s == [] then [] else Flat(s[..|s| - 1]) + s[|s| - 1]
  }

  /** The calls have been answered like this, VMAlloc has answered nothing else, `unrecorded` bytes were counted only. */
  ghost predicate Logged(calls: seq<PageCall>, answers: seq<seq<Answer>>, all: seq<Answer>, unrecorded: nat, now: Holding) {
    && |answers| == |calls| && all == Flat(answers) && unrecorded == UnrecordedBytes(calls, answers)
    && now == HoldingAfter(calls, answers)
    && forall i {:trigger answers[i]} :: 0 <= i < |calls| ==> calls[i].Answers(answers[i])
  }

  lemma OneMoreCall(calls: seq<PageCall>, answers: seq<seq<Answer>>, all: seq<Answer>, unrecorded: nat, now: Holding, c: PageCall, a: seq<Answer>)
    requires Logged(calls, answers, all, unrecorded, now) && c.Answers(a)
    ensures Logged(calls + [c], answers + [a], all + a, unrecorded + c.Unrecorded(a), now.Next(c, a))
  {
    assert (calls + [c])[..|calls|] == calls && (answers + [a])[..|calls|] == answers;
  }

  /** The log of the first i calls, extended by the next one. */
  lemma NextCall(calls: seq<PageCall>, i: nat, answers: seq<seq<Answer>>, all: seq<Answer>, unrecorded: nat, now: Holding, a: seq<Answer>)
    requires i < |calls| && Logged(calls[..i], answers, all, unrecorded, now) && calls[i].Answers(a)
    ensures Logged(calls[..i + 1], answers + [a], all + a, unrecorded + calls[i].Unrecorded(a), now.Next(calls[i], a))
  {
    OneMoreCall(calls[..i], answers, all, unrecorded, now, calls[i], a);
    assert calls[..i + 1] == calls[..i] + [calls[i]];
  }

  /** The total stays up: one page for DMA, got and freed, leaves 8192 bytes counted for ever. */
  lemma CounterStaysUp(p: int, q: int, r: int)
    ensures var calls, answers := [GetPages(true, 0), FreeGot(r)],
                [[Granted(p, 4096, 0xF000), Granted(q, 4096, 0x1F000), Granted(r, 8192, 0x20000)], []];
            && (forall i :: 0 <= i < 2 ==> calls[i].Answers(answers[i]))
            && Serve(true, PAGE_SIZE * Pow(2, 0), answers[0]) == Served(r, r, false)
            && HoldingAfter(calls, answers) == Holding({}, {}) && Rem(UnrecordedBytes(calls, answers), WORD) == 8192
  {
    var calls, answers := [GetPages(true, 0), FreeGot(r)],
      [[Granted(p, 4096, 0xF000), Granted(q, 4096, 0x1F000), Granted(r, 8192, 0x20000)], []];
    UnrecordedHappens(p, q, r);
    OneMoreCall([], [], [], 0, Holding({}, {}), calls[0], answers[0]);
    OneMoreCall([calls[0]], [answers[0]], answers[0], 8192, Holding({r}, {}), calls[1], []);
    assert [] + [calls[0]] == [calls[0]] && [calls[0]] + [calls[1]] == calls;
    assert [] + [answers[0]] == [answers[0]] && [answers[0]] + [[]] == answers && [] + answers[0] == answers[0];
    QuotUnique(8192, WORD, 0, 8192);
  }

  /** k is the position of the first node for addr, or the length of the list. */
  ghost predicate IsFirst(s: seq<BaseAddr>, addr: int, k: nat) {
    k <= |s| && (k < |s| ==> s[k].retaddr == addr) && forall i :: 0 <= i < k ==> s[i].retaddr != addr
  }

  lemma FirstExists(s: seq<BaseAddr>, addr: int) returns (k: nat)
    ensures IsFirst(s, addr, k)
  {
    k := 0;
    while k < |s| && s[k].retaddr != addr
      invariant k <= |s| && forall i :: 0 <= i < k ==> s[i].retaddr != addr
    {
      k := k + 1;
    }
  }

  ghost function FindNode(s: seq<BaseAddr>, addr: int): (k: nat)
    ensures IsFirst(s, addr, k)
  {
    assert exists k: nat :: IsFirst(s, addr, k) by {
      var k := FirstExists(s, addr);
    }
    var k: nat :| IsFirst(s, addr, k);
    k
  }

  ghost function WithoutNode(s: seq<BaseAddr>, k: nat): seq<BaseAddr>
    requires k < |s|
  {
    s[..k] + s[k + 1..]
  }

  /** The sum of the recorded sizes. */
  ghost function Total(s: seq<BaseAddr>): nat {
    if s == [] then 0 else s[0].size + Total(s[1..])
  }

  lemma {:induction false} TotalWithout(s: seq<BaseAddr>, k: nat)
    requires k < |s|
    ensures Total(s) == Total(WithoutNode(s, k)) + s[k].size
    decreases k
  {
    if k == 0 {
      assert WithoutNode(s, 0) == s[1..];
    } else {
      TotalWithout(s[1..], k - 1);
      assert WithoutNode(s, k) == [s[0]] + WithoutNode(s[1..], k - 1);
      assert ([s[0]] + WithoutNode(s[1..], k - 1))[1..] == WithoutNode(s[1..], k - 1);
    }
  }

  /** Both lists have the same node for a, or none. */
  ghost predicate SameNode(s: seq<BaseAddr>, t: seq<BaseAddr>, a: int) {
    var j, j' := FindNode(s, a), FindNode(t, a);
    if j < |s| then j' < |t| && t[j'] == s[j] else j' == |t|
  }

  lemma FindWithout(s: seq<BaseAddr>, k: nat, a: int)
    requires k < |s| && s[k].retaddr != a
    ensures SameNode(s, WithoutNode(s, k), a)
  {
    var t := WithoutNode(s, k);
    var j, j' := FindNode(s, a), FindNode(t, a);
    assert forall i :: 0 <= i < |t| ==> t[i] == s[if i < k then i else i + 1];
    if j < |s| {
      assert t[if j < k then j else j - 1] == s[j];
    }
  }

  /** The list with a node put in front. */
  lemma NodeAdded(s: seq<BaseAddr>, t: seq<BaseAddr>)
    requires t != [] && t[1..] == s
    ensures forall a {:trigger FindNode(t, a)} :: FindNode(t, a) == if a == t[0].retaddr then 0 else 1 + FindNode(s, a)
    ensures Total(t) == Total(s) + t[0].size
  {
  }

  /** The list once the node for addr, which no other node has, is gone. */
  lemma NodeGone(s: seq<BaseAddr>, addr: int, t: seq<BaseAddr>)
    requires forall i :: 0 <= i < |s| && i != FindNode(s, addr) ==> s[i].retaddr != addr
    requires t == if FindNode(s, addr) < |s| then WithoutNode(s, FindNode(s, addr)) else s
    ensures forall i {:trigger t[i]} :: 0 <= i < |t| ==> t[i] in s && t[i].retaddr != addr
    ensures forall a {:trigger SameNode(s, t, a)} :: a != addr ==> SameNode(s, t, a)
    ensures Total(s) == Total(t) + if FindNode(s, addr) < |s| then s[FindNode(s, addr)].size else 0
  {
    var k := FindNode(s, addr);
    if k < |s| {
      TotalWithout(s, k);
      forall a | a != addr ensures SameNode(s, t, a) {
        FindWithout(s, k, a);
      }
    }
  }

  class PageLayer {
    const os: Os
    var pBaseAddrHead: BaseAddr?
    var memUsed: int           // ulget_free_pagesMemUsed
    ghost var nodes: seq<BaseAddr>
    ghost var live: map<int, Block>    // blocks handed out, by address
    ghost var owner: map<int, int>     // the block of each region
    ghost var forgotten: nat   // bytes counted for blocks that were never recorded

    ghost predicate Linked(i: nat)
      reads `nodes, nodes
    {
      i < |nodes| && nodes[i].next == if i + 1 < |nodes| then nodes[i + 1] else null
    }

    ghost predicate ListShown()
      reads `pBaseAddrHead, `nodes, nodes
    {
      && pBaseAddrHead == (if nodes == [] then null else nodes[0])
      && (forall i {:trigger Linked(i)} :: 0 <= i < |nodes| ==> Linked(i))
      && (forall i, j {:trigger Differ(i, j)} :: 0 <= i < j < |nodes| ==> Differ(i, j))
    }

    ghost predicate Differ(i: nat, j: nat)
      reads `nodes
    {
      i < |nodes| && j < |nodes| && nodes[i] != nodes[j] && nodes[i].retaddr != nodes[j].retaddr
    }

    /** The block returned as a lies in the region it came from, and the list knows it if it must. */
    ghost predicate BlockSound(a: int)
      requires a in live
      reads `live, `owner, `nodes, os`regions
    {
      var b := live[a];
      && b.base in owner && owner[b.base] == a
      && b.base in os.regions && b.base <= a && a + b.size <= b.base + os.regions[b.base].size && 0 < b.size
      && (if b.recorded then
            var k := FindNode(nodes, a);
            k < |nodes| && nodes[k].base == b.base && nodes[k].size == os.regions[b.base].size
          else a == b.base && FindNode(nodes, a) == |nodes|)
    }

    /** Every block comes from a region of its own; every region but those in `extra` belongs to a block. */
    ghost predicate Owned(extra: set<int>)
      reads `live, `owner, `nodes, os`regions
    {
      && (forall a {:trigger BlockSound(a)} :: a in live ==> BlockSound(a))
      && owner.Keys == os.regions.Keys - extra && extra <= os.regions.Keys
      && (forall r {:trigger owner[r]} :: r in owner ==> owner[r] in live && live[owner[r]].base == r)
      && (forall i {:trigger nodes[i]} :: 0 <= i < |nodes| ==> nodes[i].retaddr in live && live[nodes[i].retaddr].recorded)
    }

    /** The running total is the sum of the recorded sizes, the forgotten bytes and `extra`, modulo 2^32. */
    ghost predicate Tallied(extra: nat)
      reads `memUsed, `nodes, `forgotten
    {
      memUsed == Rem(Total(nodes) + forgotten + extra, WORD)
    }

    /** The state between calls of VMAlloc and VMFree, with the regions `extra` not handed out. */
    ghost predicate ValidBut(extra: set<int>)
      reads this, os, nodes
    {
      ListShown() && os.Valid() && Owned(extra) && Tallied(0)
    }

    ghost predicate Valid()
      reads this, os, nodes
    {
      ValidBut({})
    }

    /** Every node on the list was on it before or is new. */
    twostate predicate OnlyNewNodes()
      reads `nodes
    {
      forall i {:trigger nodes[i]} :: 0 <= i < |nodes| ==> nodes[i] in old(nodes) || fresh(nodes[i])
    }

    constructor (os: Os)
      requires os.Valid() && os.regions == map[]
      ensures Valid() && this.os == os && live == map[] && forgotten == 0 && memUsed == 0
    {
      this.os, pBaseAddrHead, memUsed := os, null, 0;
      nodes, live, owner, forgotten := [], map[], map[], 0;
      new;
      QuotUnique(0, WORD, 0, 0);
    }

    // ---------------------------------------------------------------- the base-address list

    /** AddBaseAddress(), whose allocation succeeds */
    method AddBaseAddress(base: int, retaddr: int, size: nat)
      requires ListShown() && FindNode(nodes, retaddr) == |nodes|
      modifies `pBaseAddrHead, `nodes
      ensures ListShown() && |nodes| == |old(nodes)| + 1 && nodes[1..] == old(nodes) && fresh(nodes[0])
      ensures nodes[0].base == base && nodes[0].retaddr == retaddr && nodes[0].size == size
    {
      var pBase := new BaseAddr(base, retaddr, size, pBaseAddrHead);
      pBaseAddrHead := pBase;
      nodes := [pBase] + nodes;
      forall i | 0 <= i < |nodes| ensures Linked(i) {
        assert i > 0 ==> old(Linked(i - 1)) && nodes[i] == old(nodes)[i - 1];
      }
      forall i, j | 0 <= i < j < |nodes| ensures Differ(i, j) {
        assert i > 0 ==> old(Differ(i - 1, j - 1));
        assert nodes[j] == old(nodes)[j - 1];
      }
    }

    /** GetBaseAddress(): the base recorded for addr, taking its node off the list; addr itself if there is none. */
    method GetBaseAddress(addr: int) returns (base: int, size: nat)
      requires ListShown()
      modifies `pBaseAddrHead, `nodes, nodes
      ensures ListShown()
      ensures var k := FindNode(old(nodes), addr);
              if k < |old(nodes)| then nodes == WithoutNode(old(nodes), k) && base == old(nodes)[k].base && size == old(nodes)[k].size
              else nodes == old(nodes) && base == addr && size == 0
    {
      base, size := addr, 0;
      if pBaseAddrHead == null {
        return;
      }
      var pCur := pBaseAddrHead;
      ghost var i := 0;
      if pCur.retaddr == addr {
        assert Linked(0);
        base, size := pCur.base, pCur.size;
        pBaseAddrHead := pCur.next;
        forall j | 0 < j < |nodes| ensures LinkedPast(j, 0) {
          assert old(Linked(j));
        }
        Unlink(0);
        return;
      }
      while pCur.next != null
        invariant 0 <= i < |nodes| && pCur == nodes[i] && i < FindNode(nodes, addr)
        invariant nodes == old(nodes) && pBaseAddrHead == old(pBaseAddrHead) && ListShown() && base == addr && size == 0
        decreases |nodes| - i
      {
        assert Linked(i);
        if pCur.next.retaddr == addr {
          var pTemp := pCur.next;
          assert Linked(i + 1);
          base, size := pTemp.base, pTemp.size;
          pCur.next := pTemp.next;
          ghost var k := i + 1;
          assert Differ(i, k);
          forall j | 0 <= j < |nodes| && j != k ensures LinkedPast(j, k) {
            assert old(Linked(j));
            assert j < i ==> Differ(j, i);
            assert i < j ==> Differ(i, j);
          }
          Unlink(k);
          return;
        }
        pCur := pCur.next;
        i := i + 1;
      }
      assert Linked(i);
    }

    ghost predicate LinkedPast(i: nat, k: nat)
      reads this, nodes
    {
      i < |nodes| && nodes[i].next == var j := if i + 1 == k then k + 1 else i + 1; if j < |nodes| then nodes[j] else null
    }

    /** The k-th node has been bypassed. */
    ghost method Unlink(k: nat)
      requires k < |nodes|
      requires pBaseAddrHead == if k > 0 then nodes[0] else if |nodes| > 1 then nodes[1] else null
      requires forall i {:trigger LinkedPast(i, k)} :: 0 <= i < |nodes| && i != k ==> LinkedPast(i, k)
      requires forall i, j {:trigger Differ(i, j)} :: 0 <= i < j < |nodes| ==> Differ(i, j)
      modifies `nodes
      ensures nodes == WithoutNode(old(nodes), k) && ListShown()
    {
      ghost var was := nodes;
      nodes := WithoutNode(nodes, k);
      assert forall i :: 0 <= i < |nodes| ==> nodes[i] == if i < k then was[i] else was[i + 1];
      forall i | 0 <= i < |nodes| ensures Linked(i) {
        assert old(LinkedPast(if i < k then i else i + 1, k));
      }
      forall i, j | 0 <= i < j < |nodes| ensures Differ(i, j) {
        assert old(Differ(if i < k then i else i + 1, if j < k then j else j + 1));
      }
    }

    // ---------------------------------------------------------------- regions come and go

    method Allocate(size: nat, ghost extra: set<int>) returns (rc: int, addr: int, ghost x: Answer)
      requires ValidBut(extra)
      modifies os`regions, os`answers
      ensures os.answers == old(os.answers) + [x] && (rc != 0 <==> x.Refused?)
      ensures rc != 0 ==> ValidBut(extra) && os.regions == old(os.regions)
      ensures rc == 0 ==> ValidBut(extra + {addr}) && addr !in old(os.regions) && addr in os.regions
      ensures rc == 0 ==> os.regions[addr].size == size && os.regions == old(os.regions)[addr := os.regions[addr]]
      ensures rc == 0 ==> x == Granted(addr, size, os.regions[addr].phys)
    {
      rc, addr := os.VMAlloc(size);
      x := os.answers[|os.answers| - 1];
      forall a | a in live ensures BlockSound(a) {
        assert old(BlockSound(a));
      }
    }

    method Discard(addr: int, ghost extra: set<int>)
      requires ValidBut(extra) && addr in extra
      modifies os`regions, os`badFrees
      ensures ValidBut(extra - {addr}) && os.regions == old(os.regions) - {addr} && os.badFrees == old(os.badFrees)
    {
      var rc := os.VMFree(addr);
      forall a | a in live ensures BlockSound(a) {
        assert old(BlockSound(a));
      }
    }

    /** An address inside a region that no block has is no block's address. */
    lemma NewAddress(base: int, retaddr: int)
      requires ValidBut({base}) && base <= retaddr < base + os.regions[base].size
      ensures retaddr !in live && FindNode(nodes, retaddr) == |nodes|
    {
      forall a | a in live ensures a != retaddr {
        assert BlockSound(a);
        var b := live[a].base;
        assert Separate(base, os.regions[base], b, os.regions[b]);
      }
    }

    /** The running total goes up by `size`. */
    method CountIn(size: nat)
      requires Tallied(0) && size < WORD
      modifies `memUsed
      ensures Tallied(size) && memUsed == Add32(old(memUsed), size)
    {
      Wrapped(Total(nodes) + forgotten, size);
      memUsed := Add32(memUsed, size);
    }

    /** Every node but those for address a belongs to a recorded block. */
    ghost predicate ListedLive(a: int)
      reads `nodes, `live
    {
      forall i {:trigger nodes[i]} :: 0 <= i < |nodes| ==>
        nodes[i].retaddr == a || (nodes[i].retaddr in live && live[nodes[i].retaddr].recorded)
    }

    /** The block b, at address a in a region that no block has, is handed out. */
    ghost method HandOut(a: int, b: Block)
      requires b.base in os.regions && owner.Keys == os.regions.Keys - {b.base} && a !in live
      requires forall x {:trigger BlockSound(x)} :: x in live ==> BlockSound(x)
      requires forall r {:trigger owner[r]} :: r in owner ==> owner[r] in live && live[owner[r]].base == r
      requires ListedLive(a)
      requires 0 < b.size && b.base <= a && a + b.size <= b.base + os.regions[b.base].size
      requires var k := FindNode(nodes, a);
               if b.recorded then k < |nodes| && nodes[k].base == b.base && nodes[k].size == os.regions[b.base].size
               else a == b.base && k == |nodes|
      modifies `live, `owner
      ensures Owned({}) && live == old(live)[a := b]
    {
      live, owner := live[a := b], owner[b.base := a];
      forall x | x in live ensures BlockSound(x) {
        assert x != a ==> old(BlockSound(x));
      }
      assert !b.recorded ==> IsFirst(nodes, a, |nodes|);
    }

    /** AddBaseAddress and the running total, for a block of `used` bytes in the region at base. */
    method Record(base: int, retaddr: int, used: nat, allocSize: nat)
      requires ValidBut({base}) && os.regions[base].size == allocSize < WORD && 0 < used
      requires base <= retaddr && retaddr + used <= base + allocSize
      modifies this
      ensures Valid() && retaddr !in old(live) && live == old(live)[retaddr := Block(base, used, true)]
      ensures memUsed == Add32(old(memUsed), allocSize) && forgotten == old(forgotten)
      ensures OnlyNewNodes()
    {
      NewAddress(base, retaddr);
      ghost var was := nodes;
      CountIn(allocSize);
      AddBaseAddress(base, retaddr, allocSize);
      NodeAdded(was, nodes);
      assert Tallied(0);
      forall a | a in live ensures BlockSound(a) {
        assert old(BlockSound(a));
      }
      forall i | 0 < i < |nodes| ensures nodes[i].retaddr in live && live[nodes[i].retaddr].recorded {
        assert nodes[i] == was[i - 1];
      }
      HandOut(retaddr, Block(base, used, true));
    }

    /** The running total alone, for a block that is the whole region and is not recorded. */
    method Forget(base: int, used: nat, allocSize: nat)
      requires ValidBut({base}) && os.regions[base].size == allocSize < WORD && 0 < used <= allocSize
      modifies `memUsed, `live, `owner, `forgotten
      ensures Valid() && base !in old(live) && live == old(live)[base := Block(base, used, false)]
      ensures memUsed == Add32(old(memUsed), allocSize) && forgotten == old(forgotten) + allocSize
    {
      NewAddress(base, base);
      assert ListedLive(base);
      CountIn(allocSize);
      forgotten := forgotten + allocSize;
      HandOut(base, Block(base, used, false));
    }

    // ---------------------------------------------------------------- the calls

    /** Where a DMA block lies physically, if its region can be translated. */
    ghost predicate DmaPlaced(base: int, addr: int, size: nat)
      reads os
    {
      base in os.regions && base <= addr && (os.regions[base].phys != 0 ==> WellPlaced(os.regions[base].phys + (addr - base), size))
    }

    ghost predicate Unchanged(was: map<int, Block>, regions: map<int, Region>, used: int)
      reads this, os
    {
      live == was && os.regions == regions && memUsed == used
    }

    /** The second try of __get_free_dma_pages(): a new region before the first one, badly placed, is freed. */
    method TryOnceMore(first: int, size: nat) returns (addr: int, ghost x: Answer)
      requires ValidBut({first}) && 0 < size < WORD
      modifies os
      ensures os.answers == old(os.answers) + [x] && (x.Granted? ==> x.size == size)
      ensures addr != 0 <==> Suits(x, size) || Untranslated(x)
      ensures addr != 0 ==> addr in os.regions && x == Granted(addr, size, os.regions[addr].phys)
      ensures addr == 0 ==> Valid() && os.regions == old(os.regions) - {first}
      ensures addr != 0 ==> ValidBut({addr}) && addr !in old(os.regions) && addr in os.regions && os.regions[addr].size == size
      ensures addr != 0 ==> DmaPlaced(addr, addr, size)
      ensures os.badFrees == old(os.badFrees)
    {
      var rc;
      rc, addr, x := Allocate(size, {first});
      if rc != 0 {
        Discard(first, {first});
        assert {first} - {first} == {};
        return 0, x;
      }
      Discard(first, {first} + {addr});
      assert {first} + {addr} - {first} == {addr};
      assert InMemory(addr, os.regions[addr]);
      var physaddr := os.VirtToPhys(addr);
      if physaddr != 0 {
        if !SamePage(physaddr, size) {
          Discard(addr, {addr});
          assert {addr} - {addr} == {};
          return 0, x;
        }
        TestImpliesPlaced(physaddr, size);
      }
    }

    /** __get_free_dma_pages(): two tries without wasting memory. */
    method GetFreeDmaPages(size: nat) returns (addr: int, ghost a: seq<Answer>)
      requires Valid() && 0 < size < WORD
      modifies this, os
      ensures Valid() && os.badFrees == old(os.badFrees) && forgotten == old(forgotten)
      ensures addr == 0 ==> Unchanged(old(live), old(os.regions), old(memUsed)) && nodes == old(nodes)
      ensures addr != 0 ==> addr !in old(live) && live == old(live)[addr := Block(addr, size, true)]
      ensures addr != 0 ==> DmaPlaced(addr, addr, size) && os.regions[addr].size == size
      ensures os.answers == old(os.answers) + a && |a| == CheapTries(size, a)
      ensures forall i :: 0 <= i < |a| && a[i].Granted? ==> a[i].size == size
      ensures addr != 0 <==> CheapWorks(size, a)
      ensures addr != 0 ==> a[|a| - 1] == Granted(addr, size, os.regions[addr].phys)
      ensures addr != 0 ==> memUsed == Add32(old(memUsed), size)
      ensures OnlyNewNodes()
    {
      var rc;
      ghost var x;
      rc, addr, x := Allocate(size, {});
      a := [x];
      if rc != 0 {
        return 0, a;
      }
      assert {} + {addr} == {addr} && InMemory(addr, os.regions[addr]);
      var physaddr := os.VirtToPhys(addr);
      if physaddr != 0 {
        if !SamePage(physaddr, size) {
          addr, x := TryOnceMore(addr, size);
          a := a + [x];
        } else {
          TestImpliesPlaced(physaddr, size);
        }
      } else {
        Discard(addr, {addr});
        assert {addr} - {addr} == {};
        addr := 0;
      }
      if addr != 0 {
        assert InMemory(addr, os.regions[addr]);
        Record(addr, addr, size, size);
      } else {
        assert os.regions == old(os.regions);
      }
    }

    /** __get_free_pages(); dma says whether GFP_DMA or GFP_DMAHIGHMEM is set. */
    method GetFreePages(dma: bool, order: nat) returns (addr: int, ghost a: seq<Answer>)
      requires Valid() && order < 20
      modifies this, os, nodes
      ensures Valid() && os.badFrees == old(os.badFrees)
      ensures addr == 0 ==> Unchanged(old(live), old(os.regions), old(memUsed)) && forgotten == old(forgotten)
      ensures addr != 0 ==> addr !in old(live) && addr in live && live == old(live)[addr := live[addr]]
      ensures addr != 0 ==> live[addr].size == PAGE_SIZE * Pow(2, order)
      ensures addr != 0 && dma ==> DmaPlaced(live[addr].base, addr, live[addr].size)
      ensures addr != 0 ==> live[addr].base in os.regions && memUsed == Add32(old(memUsed), os.regions[live[addr].base].size)
      ensures addr != 0 ==> forgotten == old(forgotten) + if live[addr].recorded then 0 else os.regions[live[addr].base].size
      ensures addr != 0 ==> (!live[addr].recorded <==> dma && live[addr].base == addr && os.regions[addr].size == WastefulSize(live[addr].size))
      ensures var size := PAGE_SIZE * Pow(2, order);
              && os.answers == old(os.answers) + a && Answered(Asked(dma, size, a), a)
              && Serve(dma, size, a) == (if addr == 0 then Failed else Served(live[addr].base, addr, live[addr].recorded))
              && (addr != 0 ==> var r := os.regions[live[addr].base]; a[|a| - 1] == Granted(live[addr].base, r.size, r.phys))
      ensures OnlyNewNodes()
    {
      BlockIs(order);
      PowPositive(2, order);
      var size, allocsize := PAGE_SIZE * Pow(2, order), PAGE_SIZE * Pow(2, order);
      if dma {
        addr, a := GetFreeDmaPages(size);
        if addr != 0 {
          return;
        }
        allocsize := WastefulSize(size);
      }
      ghost var x;
      addr, x := GetFresh(dma, size, allocsize);
      a := (if dma then a else []) + [x];
    }

    /** The rest of __get_free_pages(): one request of allocsize bytes, shifted to the next boundary for DMA. */
    method GetFresh(dma: bool, size: nat, allocsize: nat) returns (addr: int, ghost x: Answer)
      requires Valid() && 0 < size <= 0x8000_0000 && allocsize == if dma then WastefulSize(size) else size
      modifies this, os, nodes
      ensures Valid() && os.badFrees == old(os.badFrees)
      ensures addr == 0 ==> Unchanged(old(live), old(os.regions), old(memUsed)) && forgotten == old(forgotten)
      ensures addr != 0 ==> addr !in old(live) && addr in live && live == old(live)[addr := live[addr]] && live[addr].size == size
      ensures addr != 0 && dma ==> DmaPlaced(live[addr].base, addr, size)
      ensures addr != 0 ==> live[addr].base in os.regions && os.regions[live[addr].base].size == allocsize
      ensures addr != 0 ==> memUsed == Add32(old(memUsed), allocsize)
      ensures addr != 0 ==> forgotten == old(forgotten) + if live[addr].recorded then 0 else allocsize
      ensures addr != 0 ==> (!live[addr].recorded <==> dma && live[addr].base == addr)
      ensures addr != 0 && dma ==> os.regions[live[addr].base].phys != 0
      ensures addr != 0 && dma ==> (!live[addr].recorded <==> SamePage(os.regions[live[addr].base].phys, size))
      ensures addr != 0 ==> addr == live[addr].base + if live[addr].recorded && dma then Shift(os.regions[live[addr].base].phys) else 0
      ensures os.answers == old(os.answers) + [x] && (x.Granted? ==> x.size == allocsize)
      ensures addr == 0 <==> x.Refused? || (dma && Untranslated(x))
      ensures addr != 0 ==> x == Granted(live[addr].base, allocsize, os.regions[live[addr].base].phys)
      ensures OnlyNewNodes()
    {
      var rc;
      rc, addr, x := Allocate(allocsize, {});
      if rc != 0 {
        return 0, x;
      }
      assert InMemory(addr, os.regions[addr]);
      if dma {
        var physaddr := os.VirtToPhys(addr);
        if physaddr != 0 {
          if !SamePage(physaddr, size) {
            ShiftFits(physaddr, size);
            var physaddr2 := (Quot(physaddr, BOUNDARY) + 1) * BOUNDARY;
            Record(addr, addr + (physaddr2 - physaddr), size, allocsize);
            addr := addr + (physaddr2 - physaddr);
          } else {
            TestImpliesPlaced(physaddr, size);
            Forget(addr, size, allocsize);
          }
        } else {
          FreeFresh(addr);
          addr := 0;
          assert os.regions == old(os.regions);
        }
      } else {
        Record(addr, addr, size, allocsize);
      }
    }

    /** free_pages() of a region that has not been handed out. */
    method FreeFresh(addr: int)
      requires ValidBut({addr})
      modifies this, os, nodes
      ensures Valid() && os.regions == old(os.regions) - {addr} && os.badFrees == old(os.badFrees)
      ensures live == old(live) && memUsed == old(memUsed) && forgotten == old(forgotten)
      ensures OnlyNewNodes()
      ensures os.answers == old(os.answers)
    {
      assert InMemory(addr, os.regions[addr]);
      NewAddress(addr, addr);
      var base, size := GetBaseAddress(addr);
      forall a | a in live ensures BlockSound(a) {
        assert old(BlockSound(a));
      }
      Discard(base, {addr});
      memUsed := Sub32(memUsed, size);
      forall a | a in live ensures BlockSound(a) {
        assert old(BlockSound(a)) && live[a].base != addr;
      }
      assert {addr} - {addr} == {};
    }

    /** addr is still a block, but no longer on the base-address list, where `size` bytes were recorded for it. */
    ghost predicate Detached(addr: int, size: nat)
      reads this, os, nodes
    {
      && ListShown() && os.Valid() && addr in live && live[addr].base in os.regions && size < WORD
      && (forall a {:trigger BlockSound(a)} :: a in live && a != addr ==> BlockSound(a))
      && owner.Keys == os.regions.Keys && live[addr].base in owner && owner[live[addr].base] == addr
      && (forall r {:trigger owner[r]} :: r in owner ==> owner[r] in live && live[owner[r]].base == r)
      && (forall i {:trigger nodes[i]} :: 0 <= i < |nodes| ==>
            nodes[i].retaddr != addr && nodes[i].retaddr in live && live[nodes[i].retaddr].recorded)
      && Tallied(size)
    }

    /** GetBaseAddress() of a block. */
    method Detach(addr: int) returns (base: int, size: nat)
      requires Valid() && addr in live
      modifies `pBaseAddrHead, `nodes, nodes
      ensures Detached(addr, size) && base == live[addr].base
      ensures size == if live[addr].recorded then os.regions[base].size else 0
      ensures OnlyNewNodes()
    {
      ghost var was, k := nodes, FindNode(nodes, addr);
      assert BlockSound(addr) && InMemory(live[addr].base, os.regions[live[addr].base]);
      forall i | 0 <= i < |nodes| && i != k ensures nodes[i].retaddr != addr {
        assert if i < k then k == |nodes| || Differ(i, k) else Differ(k, i);
      }
      base, size := GetBaseAddress(addr);
      NodeGone(was, addr, nodes);
      forall a | a in live && a != addr ensures BlockSound(a) {
        assert old(BlockSound(a)) && SameNode(was, nodes, a);
      }
    }

    /** The end of free_pages() and vfree(). */
    method GiveBack(addr: int, base: int, size: nat)
      requires Detached(addr, size) && base == live[addr].base
      modifies os, `memUsed, `live, `owner
      ensures Valid() && live == old(live) - {addr} && os.regions == old(os.regions) - {base}
      ensures os.badFrees == old(os.badFrees) && memUsed == Sub32(old(memUsed), size)
      ensures os.answers == old(os.answers)
    {
      Wrapped(Total(nodes) + forgotten + size, size);
      var rc := os.VMFree(base);
      if rc == 0 {
        memUsed := Sub32(memUsed, size);
      }
      live, owner := live - {addr}, owner - {base};
      forall a | a in live ensures BlockSound(a) {
        assert old(BlockSound(a));
      }
    }

    /**
     free_pages(): VMFree gets exactly the address VMAlloc returned for the block's region, and the
     running total goes down by what was recorded for it, which is nothing for a forgotten block.
     */
    method FreePages(addr: int)
      requires Valid() && addr in live
      modifies this, os, nodes
      ensures Valid() && os.badFrees == old(os.badFrees) && forgotten == old(forgotten)
      ensures live == old(live) - {addr} && os.regions == old(os.regions) - {old(live)[addr].base}
      ensures old(live)[addr].base in old(os.regions)
      ensures memUsed == Sub32(old(memUsed), if old(live)[addr].recorded then old(os.regions)[old(live)[addr].base].size else 0)
      ensures OnlyNewNodes()
      ensures os.answers == old(os.answers)
    {
      assert BlockSound(addr);
      var base, size := Detach(addr);
      GiveBack(addr, base, size);
    }

    /** vmalloc() */
    method VMalloc(request: nat) returns (addr: int, ghost x: Answer)
      requires Valid() && request < WORD
      modifies this, os
      ensures Valid() && os.badFrees == old(os.badFrees) && forgotten == old(forgotten)
      ensures addr == 0 ==> Unchanged(old(live), old(os.regions), old(memUsed))
      ensures var size := PageRounded(request);
              addr != 0 ==> && addr !in old(live) && live == old(live)[addr := Block(addr, size, true)]
                            && memUsed == Add32(old(memUsed), size) && addr in os.regions && os.regions[addr].size == size
      ensures addr != 0 ==> addr in live && live[addr].size >= request
      ensures os.answers == old(os.answers) + [x] && (addr == 0 <==> x.Refused?) && (x.Granted? ==> x.addr == addr)
      ensures OnlyNewNodes()
    {
      var size := PageRounded(request);
      PageRoundedIs(request);
      var rc;
      rc, addr, x := Allocate(size, {});
      if rc != 0 {
        return 0, x;
      }
      assert InMemory(addr, os.regions[addr]);
      Record(addr, addr, size, size);
    }

    /** vfree() of a block from vmalloc(): it hands its own argument to VMFree, not what the list says. */
    method VFree(ptr: int)
      requires Valid() && ptr in live && live[ptr].base == ptr
      modifies this, os, nodes
      ensures Valid() && os.badFrees == old(os.badFrees) && forgotten == old(forgotten)
      ensures live == old(live) - {ptr} && os.regions == old(os.regions) - {ptr}
      ensures OnlyNewNodes()
      ensures os.answers == old(os.answers)
    {
      assert BlockSound(ptr);
      var base, size := Detach(ptr);
      GiveBack(ptr, ptr, size);
    }

    /** When every block has been freed no region is left, and the total is what was forgotten. */
    lemma WhenAllFreed()
      requires Valid()
      ensures live == map[] ==> nodes == [] && os.regions == map[] && memUsed == Rem(forgotten, WORD)
    {
      if nodes != [] {
        assert nodes[0].retaddr in live;
      } else {
        assert forall r :: r in os.regions ==> r in owner && owner[r] in live;
        assert live == map[] ==> os.regions.Keys == {};
      }
    }

    /** The callers hold just the blocks handed out, and those of vmalloc are whole regions. */
    ghost predicate Held(now: Holding)
      reads `live
    {
      now.held == live.Keys && now.virtuals <= now.held && forall p :: p in now.virtuals ==> live[p].base == p
    }

    /** One call by callers that hold `now`. */
    method Perform(call: PageCall, now: Holding) returns (next: Holding, ghost a: seq<Answer>)
      requires Valid() && call.Admissible() && Held(now)
      modifies this, os, nodes
      ensures Valid() && OnlyNewNodes() && os.badFrees == old(os.badFrees)
      ensures Held(next) && next == now.Next(call, a)
      ensures os.answers == old(os.answers) + a && call.Answers(a)
      ensures forgotten == old(forgotten) + call.Unrecorded(a)
    {
      next, a := now, [];
      match call {
        case GetPages(dma, order) =>
          var addr;
          addr, a := GetFreePages(dma, order);
          next := if addr != 0 then Holding(now.held + {addr}, now.virtuals) else now;
        case Virtual(request) =>
          var addr;
          ghost var x;
          addr, x := VMalloc(request);
          a := [x];
          next := if addr != 0 then Holding(now.held + {addr}, now.virtuals + {addr}) else now;
        case FreeGot(addr) =>
          next := Holding(now.held - {addr}, now.virtuals - {addr});
          if addr in now.held {
            FreePages(addr);
          }
        case FreeVirtual(ptr) =>
          if ptr in now.virtuals {
            VFree(ptr);
            next := Holding(now.held - {ptr}, now.virtuals - {ptr});
          }
      }
    }

    /** The calls one after the other. */
    method PerformAll(calls: seq<PageCall>) returns (now: Holding, ghost answers: seq<seq<Answer>>)
      requires Valid() && live == map[] && nodes == []
      requires forall i :: 0 <= i < |calls| ==> calls[i].Admissible()
      modifies this, os
      ensures Valid() && Held(now) && os.badFrees == old(os.badFrees)
      ensures old(os.answers) <= os.answers && old(forgotten) <= forgotten
      ensures Logged(calls, answers, os.answers[|old(os.answers)|..], forgotten - old(forgotten), now)
    {
      now, answers := Holding({}, {}), [];
      ghost var all: seq<Answer>, unrecorded: nat := [], 0;
      var i := 0;
      while i < |calls|
        invariant 0 <= i <= |calls| && Valid() && os.badFrees == old(os.badFrees)
        invariant forall n {:trigger nodes[n]} :: 0 <= n < |nodes| ==> fresh(nodes[n])
        invariant Held(now)
        invariant os.answers == old(os.answers) + all && forgotten == old(forgotten) + unrecorded
        invariant Logged(calls[..i], answers, all, unrecorded, now)
      {
        ghost var a;
        ghost var was := now;
        now, a := Perform(calls[i], now);
        NextCall(calls, i, answers, all, unrecorded, was, a);
        answers, all, unrecorded := answers + [a], all + a, unrecorded + calls[i].Unrecorded(a);
        i := i + 1;
      }
      assert calls[..i] == calls && os.answers[|old(os.answers)|..] == all;
    }

    /**
     Main result: over any interleaving of the four calls, in which callers free only what they were
     given and have not freed, VMFree is never handed an address that VMAlloc did not return; and the
     running total is the sum of the recorded sizes and of every unrecorded allocation made so far,
     freed or not. When all is freed nothing is left allocated, but the total still counts the latter.
     */
    method AnyRun(calls: seq<PageCall>) returns (now: Holding, ghost answers: seq<seq<Answer>>)
      requires Valid() && live == map[]
      requires forall i :: 0 <= i < |calls| ==> calls[i].Admissible()
      modifies this, os
      ensures Valid() && now.held == live.Keys && os.badFrees == old(os.badFrees)
      ensures old(os.answers) <= os.answers && old(forgotten) <= forgotten
      ensures Logged(calls, answers, os.answers[|old(os.answers)|..], forgotten - old(forgotten), now)
      ensures memUsed == Rem(Total(nodes) + old(forgotten) + UnrecordedBytes(calls, answers), WORD)
      ensures now.held == {} ==> os.regions == map[] && memUsed == Rem(old(forgotten) + UnrecordedBytes(calls, answers), WORD)
    {
      WhenAllFreed();
      now, answers := PerformAll(calls);
      WhenAllFreed();
    }
  }
}
