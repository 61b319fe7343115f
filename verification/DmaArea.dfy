/**
 Who owns a PCM substream's DMA area (alsa/core/pcm_memory.c): the area preallocated for the substream,
 or a private one allocated for the open stream and given back with it.
 */
module DmaArea {
  import opened Arithmetic
  import opened PageOrder

  const ENXIO := -6
  const ENOMEM := -12

  datatype DmaType = Continuous | Pci | Unknown

  /** An area handed out by the page allocator, and given back: address and order. */
  datatype Grant = Grant(area: int, order: nat)

  /**
   The page allocator as its callers see it: which areas are out, with which order, and what has been
   given back so far. Which area an allocation yields, and whether it fails, is left open.
   */
  class PageAllocator {
    var out: map<int, nat>
    var granted: seq<Grant>
    var returned: seq<Grant>

    constructor ()
      ensures out == map[] && granted == returned == []
    {
      out, granted, returned := map[], [], [];
    }

    method Allocate(order: nat) returns (area: int)
      modifies `out, `granted
      ensures area == 0 ==> out == old(out) && granted == old(granted)
      ensures area != 0 ==> 0 < area && area !in old(out) && out == old(out)[area := order]
      ensures area != 0 ==> granted == old(granted) + [Grant(area, order)]
    {
      area := *;
      if area <= 0 || area in out {
        return 0;
      }
      out := out[area := order];
      granted := granted + [Grant(area, order)];
    }

    /** Giving back an area that is not out, or with another order than its own, is not allowed. */
    method Return(area: int, order: nat)
      requires area in out && out[area] == order
      modifies `out, `returned
      ensures out == old(out) - {area} && returned == old(returned) + [Grant(area, order)]
    {
      out := out - {area};
      returned := returned + [Grant(area, order)];
    }
  }

  /** Sizes for which the order search ends. */
  predicate Searchable(size: nat) {
    size <= 0x8000_0000
  }

  datatype Call = CallMalloc(size: nat) | CallFree

  /** The DMA area in use, 0 if there is none, and the bytes it was asked for. */
  datatype InUse = InUse(area: int, bytes: nat)

  /** Does a request for `size` bytes need an area of its own, given the one in use and the preallocated one? */
  predicate NeedsOwn(now: InUse, dmaArea: int, dmaBytes: nat, size: nat) {
    (now.area == 0 || now.bytes < size) && (dmaArea == 0 || dmaBytes < size)
  }

  /** The area in use after a call for which the page allocator, if it was asked, yielded `got`. */
  function UsedNext(now: InUse, dmaArea: int, dmaBytes: nat, call: Call, got: int): InUse {
    match call
    case CallFree => InUse(0, 0)
    case CallMalloc(size) =>
      if NeedsOwn(now, dmaArea, dmaBytes, size) then (if got != 0 then InUse(got, size) else InUse(0, 0))
      else if now.area != 0 && now.bytes >= size then now
      else InUse(dmaArea, size)
  }

  /** The area in use after the calls, from the beginning. */
  function UsedAfter(dmaArea: int, dmaBytes: nat, start: InUse, calls: seq<Call>, got: seq<int>): InUse
    requires |calls| == |got|
  {
    if calls == [] then start
    else
      var n := |calls| - 1;
      UsedNext(UsedAfter(dmaArea, dmaBytes, start, calls[..n], got[..n]), dmaArea, dmaBytes, calls[n], got[n])
  }

  /** The areas that were granted. */
  function Areas(grants: seq<Grant>): (s: seq<int>)
    ensures |s| == |grants|
  {
    if grants == [] then [] else Areas(grants[..|grants| - 1]) + [grants[|grants| - 1].area]
  }

  function NonZero(got: seq<int>): seq<int> {
    if got == [] then []
    else NonZero(got[..|got| - 1]) + if got[|got| - 1] != 0 then [got[|got| - 1]] else []
  }

  lemma AreasOneMore(grants: seq<Grant>, own: Grant)
    ensures Areas(grants + [own]) == Areas(grants) + [own.area]
  {
    assert (grants + [own])[..|grants|] == grants;
  }

  /** The calls have led from `start` to `now`, and the areas they got are those granted meanwhile. */
  ghost predicate Logged(dmaArea: int, dmaBytes: nat, start: InUse, calls: seq<Call>, got: seq<int>, now: InUse, before: seq<int>, after: seq<int>) {
    |got| == |calls| && now == UsedAfter(dmaArea, dmaBytes, start, calls, got) && after == before + NonZero(got)
  }

  lemma NextCall(dmaArea: int, dmaBytes: nat, start: InUse, calls: seq<Call>, i: nat, got: seq<int>, now: InUse, before: seq<int>, after: seq<int>, g: int)
    requires i < |calls| && Logged(dmaArea, dmaBytes, start, calls[..i], got, now, before, after)
    ensures Logged(dmaArea, dmaBytes, start, calls[..i + 1], got + [g], UsedNext(now, dmaArea, dmaBytes, calls[i], g),
                   before, after + if g != 0 then [g] else [])
  {
    assert calls[..i + 1][..i] == calls[..i] && (got + [g])[..i] == got;
  }

  /**
   A request that is granted is served from the preallocated area exactly if that is large enough and no
   larger area is in use, and never with fewer bytes than asked for.
   */
  lemma EnoughInUse(now: InUse, dmaArea: int, dmaBytes: nat, size: nat, got: int)
    requires now.area != 0 && now.area == dmaArea ==> now.bytes <= dmaBytes
    requires got != dmaArea || got == 0
    ensures var u := UsedNext(now, dmaArea, dmaBytes, CallMalloc(size), got);
            && (u.area != 0 ==> u.bytes >= size)
            && (u.area != 0 && u.area == dmaArea ==> size <= u.bytes <= dmaBytes)
            && (dmaArea != 0 && size <= dmaBytes && (now.area == 0 || now.bytes < size) ==> u.area == dmaArea)
            && (now.area != 0 && size <= now.bytes ==> u == now)
  {
  }

  /** snd_pcm_substream_t with its runtime, as far as the DMA area is concerned */
  class Substream {
    const pages: PageAllocator
    const dmaType: DmaType
    const dmaArea: int         // the preallocated area, 0 if there is none
    const dmaBytes: nat
    var runtimeArea: int
    var runtimeBytes: nat

    ghost predicate Private()
      reads this
    {
      runtimeArea != 0 && runtimeArea != dmaArea
    }

    function Used(): InUse
      reads this
    {
      InUse(runtimeArea, runtimeBytes)
    }

    /** The private area in use, as it was granted. */
    ghost function Held(): seq<Grant>
      reads this, pages
    {
      if Private() && runtimeArea in pages.out then [Grant(runtimeArea, pages.out[runtimeArea])] else []
    }

    /**
     Exactly the preallocated and the private area are out, the private one with the order of its size;
     and every area granted so far has been returned once, with its order, except the one in use.
     */
    ghost predicate Valid()
      reads this, pages
    {
      && Searchable(runtimeBytes)
      && (runtimeArea == 0 ==> runtimeBytes == 0)
      && (runtimeArea != 0 && runtimeArea == dmaArea ==> runtimeBytes <= dmaBytes)
      && (dmaArea != 0 ==> dmaArea in pages.out)
      && (Private() ==> dmaType != Unknown && runtimeArea in pages.out && 0 < runtimeBytes
                          && IsOrder(runtimeBytes, pages.out[runtimeArea]))
      && pages.granted == pages.returned + Held()
      && pages.out.Keys == (if dmaArea != 0 then {dmaArea} else {}) + (if Private() then {runtimeArea} else {})
    }

    /** A substream that has been given its preallocated area, or none. */
    constructor (pages: PageAllocator, dmaType: DmaType, area: int, bytes: nat)
      requires pages.granted == pages.returned
      requires if area == 0 then pages.out == map[] else pages.out.Keys == {area}
      ensures Valid() && this.pages == pages && dmaArea == area && dmaBytes == bytes && this.dmaType == dmaType
      ensures runtimeArea == 0
    {
      this.pages, this.dmaType, dmaArea, dmaBytes := pages, dmaType, area, bytes;
      runtimeArea, runtimeBytes := 0, 0;
    }

    /** snd_malloc_pages() and snd_malloc_pci_pages(): NULL for size 0, otherwise 2^pg pages. */
    method MallocPages(size: nat) returns (area: int)
      requires Searchable(size)
      modifies pages`out, pages`granted
      ensures area == 0 ==> pages.out == old(pages.out) && pages.granted == old(pages.granted)
      ensures area != 0 ==> 0 < size && area !in old(pages.out) && pages.out.Keys == old(pages.out.Keys) + {area}
      ensures area != 0 ==> IsOrder(size, pages.out[area]) && forall a :: a in old(pages.out) ==> pages.out[a] == old(pages.out[a])
      ensures area != 0 ==> pages.granted == old(pages.granted) + [Grant(area, pages.out[area])]
    {
      if size == 0 {
        return 0;
      }
      var pg := LinearOrder(size);
      if dmaType == Pci {
        RoundedOrder(pg);
        PowPositive(2, pg);
        SizeFits(pg);
        var order := CompatGetOrder(PAGE_SIZE * Pow(2, pg));
        area := pages.Allocate(order);
      } else {
        area := pages.Allocate(pg);
      }
    }

    /** snd_free_pages() and snd_free_pci_pages() */
    method FreeOwnPages(area: int, size: nat)
      requires Searchable(size) && area in pages.out && IsOrder(size, pages.out[area])
      modifies pages`out, pages`returned
      ensures pages.out == old(pages.out) - {area}
      ensures pages.returned == old(pages.returned) + [Grant(area, old(pages.out[area]))]
    {
      var pg := LinearOrder(size);
      OrderUnique(size, pg, pages.out[area]);
      if dmaType == Pci {
        RoundedOrder(pg);
        SizeFits(pg);
        var order := CompatGetOrder(PAGE_SIZE * Pow(2, pg));
        pages.Return(area, order);
      } else {
        pages.Return(area, pg);
      }
    }

    /** snd_pcm_lib_free_pages() */
    method LibFreePages()
      requires Valid()
      modifies this, pages
      ensures Valid() && runtimeArea == 0
      ensures pages.returned == old(pages.returned) + old(Held()) && pages.granted == old(pages.granted)
      ensures dmaArea != 0 ==> pages.out[dmaArea] == old(pages.out[dmaArea])
    {
      if runtimeArea == 0 {
        return;
      }
      if runtimeArea != dmaArea {
        if dmaType != Unknown {
          FreeOwnPages(runtimeArea, runtimeBytes);
        }
      }
      runtimeArea, runtimeBytes := 0, 0;
    }

    /** snd_pcm_lib_malloc_pages() */
    method LibMallocPages(size: nat) returns (result: int)
      requires Valid() && Searchable(size)
      modifies this, pages
      ensures Valid()
      ensures result == 0 <==> old(runtimeArea) != 0 && old(runtimeBytes) >= size
      ensures result == 0 ==> runtimeArea == old(runtimeArea) && runtimeBytes == old(runtimeBytes)
      ensures result == 0 ==> pages.out == old(pages.out) && pages.returned == old(pages.returned)
      ensures result == 1 ==> runtimeArea != 0 && runtimeBytes == size
      ensures result == 1 ==> (runtimeArea == dmaArea <==> dmaArea != 0 && dmaBytes >= size)
      ensures var own := NeedsOwn(old(Used()), dmaArea, dmaBytes, size) && dmaType != Unknown && runtimeArea != 0;
              pages.granted == old(pages.granted) + if own then [Grant(runtimeArea, pages.out[runtimeArea])] else []
      ensures Used() == UsedNext(old(Used()), dmaArea, dmaBytes, CallMalloc(size), runtimeArea)
      ensures result in {0, 1, ENXIO, ENOMEM} && (result < 0 ==> runtimeArea == 0)
      ensures result == ENXIO <==> dmaType == Unknown && result != 0 && !(dmaArea != 0 && dmaBytes >= size)
      ensures dmaArea != 0 && dmaBytes >= size ==> result in {0, 1}
      ensures result != 0 ==> pages.returned == old(pages.returned) + old(Held())
      ensures dmaArea != 0 ==> pages.out[dmaArea] == old(pages.out[dmaArea])
    {
      var area := 0;
      if runtimeArea != 0 {
        if runtimeBytes >= size {
          return 0;
        }
        LibFreePages();
      }
      if dmaArea != 0 && dmaBytes >= size {
        area := dmaArea;
      } else {
        if dmaType == Unknown {
          return ENXIO;
        }
        area := MallocPages(size);
      }
      if area == 0 {
        return ENOMEM;
      }
      runtimeArea, runtimeBytes := area, size;
      result := 1;
    }

    /** None of the areas given back since then is the preallocated one. */
    ghost predicate OnlyPrivate(from: nat)
      reads this, pages
    {
      forall i :: from <= i < |pages.returned| ==> pages.returned[i].area != dmaArea
    }

    /** One call, and the area of its own that it got, or 0. */
    method Perform(call: Call) returns (ghost got: int)
      requires Valid() && (call.CallMalloc? ==> Searchable(call.size))
      modifies this, pages
      ensures Valid() && Used() == UsedNext(old(Used()), dmaArea, dmaBytes, call, got)
      ensures dmaArea != 0 ==> pages.out[dmaArea] == old(pages.out[dmaArea])
      ensures old(pages.returned) <= pages.returned && OnlyPrivate(|old(pages.returned)|)
      ensures Areas(pages.granted) == Areas(old(pages.granted)) + if got != 0 then [got] else []
    {
      ghost var now := Used();
      got := 0;
      match call {
        case CallMalloc(size) =>
          var _ := LibMallocPages(size);
          got := if NeedsOwn(now, dmaArea, dmaBytes, size) then runtimeArea else 0;
        case CallFree => LibFreePages();
      }
      if got != 0 {
        AreasOneMore(old(pages.granted), Grant(got, pages.out[got]));
      } else {
        assert pages.granted == old(pages.granted);
      }
    }

    /**
     Main result: over any sequence of allocations and frees each private area is given back exactly
     once, in the order of the allocations and with its own page order, except the one still in use; and
     the preallocated area is never given back. The area in use is the one that the calls and the areas
     `got` from the page allocator determine.
     */
    method AnySequence(calls: seq<Call>) returns (ghost got: seq<int>)
      requires Valid() && forall i :: 0 <= i < |calls| && calls[i].CallMalloc? ==> Searchable(calls[i].size)
      modifies this, pages
      ensures Valid() && OnlyPrivate(|old(pages.returned)|)
      ensures dmaArea != 0 ==> pages.out[dmaArea] == old(pages.out[dmaArea])
      ensures old(pages.returned) <= pages.returned && pages.granted == pages.returned + Held()
      ensures Logged(dmaArea, dmaBytes, old(Used()), calls, got, Used(), Areas(old(pages.granted)), Areas(pages.granted))
    {
      got := [];
      ghost var start, before := Used(), Areas(pages.granted);
      var i := 0;
      while i < |calls|
        invariant 0 <= i <= |calls| && Valid() && OnlyPrivate(|old(pages.returned)|)
        invariant dmaArea != 0 ==> pages.out[dmaArea] == old(pages.out[dmaArea])
        invariant old(pages.returned) <= pages.returned
        invariant Logged(dmaArea, dmaBytes, start, calls[..i], got, Used(), before, Areas(pages.granted))
      {
        ghost var now, after := Used(), Areas(pages.granted);
        var g := Perform(calls[i]);
        NextCall(dmaArea, dmaBytes, start, calls, i, got, now, before, after, g);
        got := got + [g];
        i := i + 1;
      }
      assert calls[..i] == calls;
    }
  }

  lemma SizeFits(pg: nat)
    requires pg < 20
    ensures PAGE_SIZE * Pow(2, pg) < WORD
  {
    BlockIs(pg);
  }
}
