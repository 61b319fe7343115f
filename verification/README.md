# A verified model of the driver's memory stack, control elements and arithmetic

The driver ports ALSA to OS/2. Below the ALSA code lies a small kernel-like layer of its own: a heap, a page
allocator over the system's VMAlloc, and printing and parsing of numbers. This project models the parts of
both that carry state or real arithmetic, and proves what they promise to their callers.

| Part | Files | Modelled as |
|---|---|---|
| Heap: `malloc`, `free`, `realloc`, coalescing | `HeapSpec` (the steps on values), `HeapInvariant`, `HeapCompaction`, `HeapRuns` (what holds of them), `HeapLists`, `HeapManager` (the program) | linked headers in linear memory |
| Pages: DMA placement, base addresses, `vmalloc` | `PageOrder`, `Pages`, `PageCalls`, `DmaArea` | linked list and counters over an abstract VMAlloc |
| Control elements: numids, locks, event queues, listing | `EventQueue`, `ControlSpec`, `ControlRuns`, `ControlLaws`, `Control` | card, control and file objects |
| Arithmetic and text | `Arithmetic`, `NumberSpec`, `NumberText`, `TimerResolution`, `HwParams` | 32-bit arithmetic written out |

Code that changes objects in place is modelled by classes whose methods do the same steps on the same fields.
Each such method is proved to perform a step of a specification on values (`HeapSpec.Malloc`,
`ControlSpec.Step`, `NumberSpec.Parse`, ...), and the theorems are proved about all runs of those steps.

## What the model takes as given

- The heap's memory is an array with one cell per address. A header word occupies the cell of its first byte
  (signature, size and link of the header at p are the cells p, p + 4 and p + 8), a payload byte its own cell.
  Header sizes are any multiple of 4 from 12 on.
- `HeapInit` gets the address that VMAlloc returned; the size it is given is 0 or a multiple of 4 that holds a
  header and the smallest payload.
- `free` and `realloc` get NULL or a live block; `malloc` is not called with an empty free list, because it
  reads the first free block without a test (lib32/malloc.cpp:361). When the list is empty is a theorem.
- VMAlloc, VMFree and virt_to_phys are the class `Os`: regions are new, not empty, within 32 bits, physically
  contiguous and page-aligned; where they lie, whether a request fails and whether an address can be translated is left open.
- Event masks are sets of bits. The put callback of a control and the room in a reader's buffer are parameters.
  Allocating an event, a control file or a base-address node succeeds, and so does copying to and from user space.
- Each call is atomic.

## Where the code and its comments part

- compact() (lib32/malloc.cpp:402-411) says that it merges a freed block with both neighbours. It does so exactly
  unless the block is *stranded*: both physical neighbours are free and the preceding one stands before the
  following one on the free list without heading it (`HeapCompaction.CoalescingExact`). Over a whole run, free
  blocks never become adjacent exactly if no stranded block is freed (`HeapRuns.RunCoalesces`), and ten calls on
  a fresh heap reach a state with two adjacent free blocks (`HeapRuns.StrandingReachable`).
- A single request for the whole heap empties the free list; any further valid request then goes through a null
  pointer (`HeapRuns.FirstRequestCanExhaust`, `HeapRuns.WhenFreeListRunsOut`).
- When the enlarged region that __get_free_pages falls back to for DMA needs no shift, its size is added to the usage
  counter but not to the base-address list, so freeing the block never lowers the counter. This happens exactly for
  such blocks (`Pages.ServedExactly`); over any run the counter is the sum of the recorded sizes and of all of these,
  freed or not (`PageCalls.PageLayer.AnyRun`); one page got and freed can leave 8192 bytes counted
  (`PageCalls.CounterStaysUp`).
- The second try in __get_free_dma_pages accepts a region whose physical address is not known, and no other request
  for DMA does (`Pages.ServedExactly`); placement is proved whenever the region can be translated.
- __compat_get_order gives the least sufficient order for every size but 0 (`PageOrder.CompatOfZero`); the linear
  search ends exactly up to 2 GB (`PageOrder.LinearOrder`, `PageOrder.LinearNeverStops`).
- snd_ctl_elem_list takes a requested space of 2^31 or more for negative and returns an empty page, so paging rebuilds
  a list that is not empty exactly if the space is smaller (`ControlRuns.PagesRebuild`).
- HeapCheck compares the totals with the default heap size; on a smaller heap the comparison fails although nothing is
  wrong (`HeapManager.Heap.HeapCheck`).
- numids are distinct exactly as long as the 32-bit counter has not wrapped (`ControlRuns.RunInv`).
- Period size and period bytes agree exactly unless samples_to_bytes overflows; then the division by the period
  bytes can fault although the period size is not 0 (`HwParams.SizesAgree`, `HwParams.WhenDivideFaults`,
  `HwParams.OverflowHappens`). It takes hardware whose least period is 2 GB or more
  (`HwParams.WhenRequestOverflows`). Making the number of periods even can take it below an odd hardware minimum
  (`HwParams.PeriodsFit`).

## Model

| member | source | states |
|---|---|---|
| HeapInvariant.InitialInv | lib32/malloc.cpp:600-623 | the heap set up by HeapInit is one free block over all of it, and satisfies the invariant: blocks listed once, tiling, byte counts |
| HeapInvariant.CoveredOnce | lib32/malloc.cpp:391-431 | blocks that fit, do not overlap and follow each other directly cover every heap address exactly once |
| HeapInvariant.SplitTiled | lib32/malloc.cpp:231-256 | cutting a block in two leaves the heap tiled |
| HeapInvariant.JoinTiled | lib32/malloc.cpp:452-480 | joining two adjacent blocks leaves the heap tiled |
| HeapInvariant.CompactFromInv | lib32/malloc.cpp:452-480 | from any point of its loop on, compact() shortens the list by at most two joins in all, keeps its bytes and the tiling |
| HeapInvariant.AllocateInv | lib32/malloc.cpp:288-322 | allocating from any free block that is large enough keeps the invariant |
| HeapInvariant.MallocInv | lib32/malloc.cpp:339-389 | malloc keeps the invariant, whether it succeeds or not |
| HeapInvariant.FreeInv | lib32/malloc.cpp:486-536 | free of a live block or NULL keeps the invariant |
| HeapInvariant.MemFreeRange | lib32/malloc.cpp:299-299 | the free-byte count is within one header of the 32-bit range, and negative exactly if the free list is empty |
| HeapInvariant.RunInv | lib32/malloc.cpp:339-585 | the invariant holds after every run of malloc, free and realloc |
| HeapCompaction.CompactKeepsBytes | lib32/malloc.cpp:452-480 | compact() leaves the set of free bytes, headers included, as it was |
| HeapCompaction.FollowerFirst | lib32/malloc.cpp:460-475 | a freed block whose follower is met first on the free list is merged with both neighbours |
| HeapCompaction.PredecessorAtHead | lib32/malloc.cpp:460-475 | a freed block whose predecessor heads the old free list is merged with both neighbours |
| HeapCompaction.PredecessorFirst | lib32/malloc.cpp:460-475 | otherwise, with the predecessor met first, merging is complete exactly if the follower does not come later |
| HeapCompaction.CoalescingExact | lib32/malloc.cpp:391-480 | if no free blocks were adjacent before, none are after compact() exactly unless the freed block is stranded |
| HeapRuns.ReachableTiles | lib32/malloc.cpp:231-322 | after every run each heap address lies in exactly one block, which is on exactly one of the two lists, once |
| HeapRuns.ReachableBytes | lib32/malloc.cpp:143-163 | after every run used and free bytes add up to the heap size, and uMemFree is the free bytes less one header, modulo 2^32 |
| HeapRuns.MallocFirstFit | lib32/malloc.cpp:339-389 | malloc returns NULL, changing nothing, exactly if no free block holds the rounded request; else the first that does, and less than HDR_SIZE + MIN_FragSize too much |
| HeapRuns.MallocLeaves | lib32/malloc.cpp:231-322 | of the block taken, nothing is left if less than a header and the smallest payload would be, else a free block behind the allocation in the same list position; the rest of the free list is as it was |
| HeapRuns.MallocRefused | lib32/malloc.cpp:350-353 | a request for nothing or for more than 128 KB returns NULL and changes nothing |
| HeapRuns.MallocDisjoint | lib32/malloc.cpp:350-370 | a new block shares no byte with a live one and lies in memory that was free |
| HeapRuns.WhenFreeListRunsOut | lib32/malloc.cpp:361-361 | malloc empties the free list exactly if its only block is allocated whole |
| HeapRuns.FirstRequestCanExhaust | lib32/malloc.cpp:361-361 | on every heap, one request for all of it leaves a state in which no further request may be made |
| HeapRuns.ReallocEffect | lib32/malloc.cpp:548-585 | realloc fails exactly when malloc does and then changes nothing; else one new disjoint block of at least the new size comes, the old one goes, all others stay |
| HeapRuns.FreeOrUsed | lib32/malloc.cpp:391-431 | a heap address is free exactly if no used block covers it |
| HeapRuns.ReallocFreeBytes | lib32/malloc.cpp:572-584 | after a realloc that moves the block, exactly what was free and the old block are free, less the new block |
| HeapRuns.ReallocEdges | lib32/malloc.cpp:553-567 | realloc of NULL allocates by first fit a block apart from all live ones; realloc to nothing frees exactly the block |
| HeapRuns.FreeEffect | lib32/malloc.cpp:486-536 | free takes exactly the block of the pointer off the used list, and adds exactly its bytes to the free ones |
| HeapRuns.FreeCoalesces | lib32/malloc.cpp:486-536 | one free() in any sound state with no adjacent free blocks: none afterwards exactly if the block is not stranded |
| HeapRuns.MallocKeepsCompacted | lib32/malloc.cpp:339-389 | malloc never makes two free blocks adjacent |
| HeapRuns.StepCoalesces | lib32/malloc.cpp:339-585 | the same for any call, including the free inside realloc |
| HeapRuns.RunCoalesces | lib32/malloc.cpp:391-480 | free blocks stay non-adjacent all along a run exactly if no call of it frees a stranded block |
| HeapRuns.StrandingReachable | lib32/malloc.cpp:402-411 | a concrete run on a fresh heap ends with two adjacent free blocks |
| HeapLists.ForwardResized | lib32/malloc.cpp:452-480 | growing a block in compact() keeps every header of the original list pointing further down that list |
| HeapLists.ForwardBypassed | lib32/malloc.cpp:435-449 | so does taking a block off the list; an unlinked block's pmbNext stays usable |
| HeapLists.MoveContents | lib32/malloc.cpp:572-584 | allocate, copy, free: the new block has the old contents and no other payload changes |
| HeapManager.Heap.HeapInit | lib32/malloc.cpp:600-623 | sets up one free block over the whole region, capped at the default size |
| HeapManager.Heap.MakeNewFree | lib32/malloc.cpp:231-256 | cuts the block exactly if the rest holds a header and the smallest payload; writes only the two headers |
| HeapManager.Heap.LinkAllocated | lib32/malloc.cpp:288-322 | the new links of predecessor, block and rest, the list heads, and uMemFree less the block, modulo 2^32 |
| HeapManager.Heap.AllocateBlock | lib32/malloc.cpp:288-322 | moves the i-th free block, or its front part, to the head of the used list in memory |
| HeapManager.Heap.Search | lib32/malloc.cpp:361-370 | finds the first free block that is large enough, and its predecessor |
| HeapManager.Heap.Malloc | lib32/malloc.cpp:339-389 | performs the specified malloc on the linked lists; no live payload and nothing outside the heap changes |
| HeapManager.Heap.Remove | lib32/malloc.cpp:435-449 | takes a block off the free list and leaves its own header as it is |
| HeapManager.Heap.JoinIntoHead | lib32/malloc.cpp:463-467 | the preceding block swallows the list head; the link read next is the block's successor |
| HeapManager.Heap.JoinNextBlock | lib32/malloc.cpp:470-474 | the list head swallows the following block, whose link, read after it is unlinked, is its old successor |
| HeapManager.Heap.Compact | lib32/malloc.cpp:452-480 | performs the specified compaction in place, counts the joins, writes only headers of listed blocks |
| HeapManager.Heap.WalkOn | lib32/malloc.cpp:513-531 | the walk that goes on from a freed block ends and never meets it again: the free sentinel is unreachable |
| HeapManager.Heap.Unlink | lib32/malloc.cpp:525-528 | takes a block from the middle of the used list and releases it to the free list |
| HeapManager.Heap.Free | lib32/malloc.cpp:486-536 | performs the specified free: the block leaves the used list once, other payloads stay, the counters follow |
| HeapManager.Heap.MSize | lib32/malloc.cpp:261-271 | the payload size of a live block, 0 for NULL |
| HeapManager.Heap.Realloc | lib32/malloc.cpp:548-585 | performs the specified realloc; the first min(old size, new length) bytes are the old ones, on failure everything is kept |
| HeapManager.Heap.CheckList | lib32/malloc.cpp:143-163 | counts and sums one list and checks every signature |
| HeapManager.Heap.HeapCheck | lib32/malloc.cpp:143-163 | in every valid state all signatures hold; the totals match, if compared, exactly if the heap has the default size |
| Pages.Os.VMAlloc | lib32/memory.cpp:214-217 | a new region apart from all others, or an error and no change; each answer is logged |
| Pages.Os.VMFree | lib32/memory.cpp:339-356 | succeeds exactly for an address that VMAlloc returned |
| Pages.SmallTest | lib32/memory.cpp:220-223 | below 64 KB the page test holds exactly if the block crosses no 64 KB boundary and does not end on one |
| Pages.LargeTest | lib32/memory.cpp:220-223 | from 64 KB on, the test with 63*1024 is 64 KB alignment, for every page-aligned address |
| Pages.ShiftFits | lib32/memory.cpp:290-318 | if the test fails, the shift to the next boundary leaves the block inside the enlarged region and well placed |
| Pages.WasteIs | lib32/memory.cpp:290-295 | below 64 KB some placement needs all of the enlarged request; from 64 KB on it is a page more than any page-aligned placement needs |
| Pages.TestImpliesPlaced | lib32/memory.cpp:220-223 | a block that passes the test is well placed |
| Pages.ServedExactly | lib32/memory.cpp:209-336 | whatever VMAlloc answers: when the call fails, when its block goes unrecorded, when and how far it is shifted, and where a block without a known physical address comes from |
| Pages.UnrecordedHappens | lib32/memory.cpp:309-318 | three answers after which a one-page DMA request goes unrecorded |
| PageCalls.FindWithout | lib32/memory.cpp:98-129 | removing a node does not change what is found for any other address |
| PageCalls.TotalWithout | lib32/memory.cpp:349-352 | removing a node lowers the recorded total by exactly its size |
| PageCalls.PageLayer.AddBaseAddress | lib32/memory.cpp:79-95 | puts a new node with the three values in front of the list |
| PageCalls.PageLayer.GetBaseAddress | lib32/memory.cpp:98-129 | returns and unlinks the first node for the address, or returns the address itself and changes nothing |
| PageCalls.PageLayer.TryOnceMore | lib32/memory.cpp:225-247 | the first region is freed in any case; succeeds exactly if the new one passes the test or cannot be translated, well placed if it can |
| PageCalls.PageLayer.GetFreeDmaPages | lib32/memory.cpp:209-262 | makes one or two requests and succeeds exactly if the last is accepted: a recorded block that is its whole region; else no change |
| PageCalls.PageLayer.GetFreePages | lib32/memory.cpp:265-336 | ends as its VMAlloc answers determine: a block of 2^order pages inside one region, well placed for DMA, unrecorded exactly at the start of an enlarged region; the counter grows by the region; or no change |
| PageCalls.PageLayer.GetFresh | lib32/memory.cpp:290-335 | the wasteful way alone: fails exactly if refused or, for DMA, untranslatable; shifts and records, or neither, exactly by the page test |
| PageCalls.PageLayer.FreePages | lib32/memory.cpp:339-356 | gives back exactly the region the block came from and lowers the counter by what was recorded for it |
| PageCalls.PageLayer.VMalloc | lib32/memory.cpp:359-380 | a recorded block of whole pages that holds the request, counted; no change exactly if VMAlloc refuses |
| PageCalls.PageLayer.VFree | lib32/memory.cpp:383-398 | gives back exactly the region that vmalloc obtained |
| PageCalls.PageLayer.WhenAllFreed | lib32/memory.cpp:308-333 | with no block left there is no region and no node left, and the counter is the sum of the unrecorded sizes modulo 2^32 |
| PageCalls.PageLayer.AnyRun | lib32/memory.cpp:209-398 | over any interleaving VMFree gets only addresses that VMAlloc returned and that are still allocated; the blocks left are just those that calls and answers determine; the counter is the recorded sizes plus all unrecorded oversize allocations of the run, modulo 2^32 |
| PageCalls.CounterStaysUp | lib32/memory.cpp:309-334 | one page got for DMA and freed leaves 8192 bytes counted |
| PageCalls.PageRoundedIs | lib32/memory.cpp:364-366 | vmalloc rounds to the least number of whole pages, which wraps to nothing exactly for the last page of sizes |
| PageOrder.CompatIsOrder | lib32/pci.c:428-439 | for every positive size the shifting loop gives the least order that holds it |
| PageOrder.CompatOfZero | lib32/pci.c:428-439 | for size 0 it gives 20, not 0 |
| PageOrder.CompatGetOrder | lib32/pci.c:428-439 | the loop computes that function for every 32-bit size |
| PageOrder.LinearOrder | alsa/core/memory.c:258-310 | the search ends with the least sufficient order for every size up to 2 GB |
| PageOrder.LinearNeverStops | alsa/core/memory.c:258-310 | above 2 GB no shift count passes the search's test |
| PageOrder.OrdersAgree | lib32/pci.c:428-483 | wherever the search ends on a positive size, both computations give the same order |
| PageOrder.RoundedOrder | alsa/core/memory.c:314-370 | the order of 2^pg pages is pg: rounding first and shifting afterwards changes nothing |
| DmaArea.Substream.MallocPages | alsa/core/pcm_memory.c:221-264 | a new area with the order of its size, or nothing |
| DmaArea.Substream.FreeOwnPages | alsa/core/pcm_memory.c:266-293 | gives an area back with the order it was allocated with, recomputed from its size |
| DmaArea.Substream.LibFreePages | alsa/core/pcm_memory.c:266-293 | gives back the private area, never the preallocated one |
| DmaArea.Substream.LibMallocPages | alsa/core/pcm_memory.c:221-264 | keeps an area that is large enough, else frees it first; takes the preallocated area exactly if that is large enough; when ENXIO is returned; the area in use and the grants after each result |
| DmaArea.EnoughInUse | alsa/core/pcm_memory.c:230-263 | a granted request never has fewer bytes than asked for, and the preallocated area is never used for more than it has |
| DmaArea.Substream.AnySequence | alsa/core/pcm_memory.c:221-293 | over any sequence each private area is given back once, in order, with its own order, the preallocated one never; and the area in use is the one that the calls and the granted areas determine |
| EventQueue.QueueReportsHistory | alsa/core/control.c:126-165 | after any history of calls the queue has one event per control with unreported notifications, its mask their OR, in order of opening; the file is subscribed exactly if it has subscribed and not unsubscribed since. What is unreported is defined by the calls alone |
| EventQueue.SubscribedIsListening | alsa/core/control.c:534-553 | a file is subscribed exactly if some subscription has not been followed by an unsubscription |
| EventQueue.HeadIsOldest | alsa/core/control.c:601-651 | the event read next is that of the control whose unreported notifications have waited longest |
| EventQueue.NotifyFaithful | alsa/core/control.c:126-165 | a notification keeps that relation, merged or appended |
| EventQueue.SubscribeFaithful | alsa/core/control.c:534-553 | so does subscribing, unsubscribing and asking |
| EventQueue.TakeFaithful | alsa/core/control.c:601-651 | so does reading one event: first opened, first delivered |
| ControlRuns.RunStructure | alsa/core/control.c:37-124 | after every run controls_count is the list length, owners are open files, and files are listed once |
| ControlRuns.StepNumbered | alsa/core/control.c:210-259 | each call keeps numids distinct and in 1..last_numid unless it wraps the counter; which calls advance it |
| ControlRuns.WrapBreaks | alsa/core/control.c:210-259 | the call that wraps the counter breaks the numbering |
| ControlRuns.RunInv | alsa/core/control.c:210-277 | numids stay distinct and in 1..last_numid all along a run exactly if it gives out no more than are left |
| ControlRuns.LockKept | alsa/core/control.c:476-532 | a lock survives every call but its owner's unlock or close and the control's removal or renaming |
| ControlRuns.LockExcludes | alsa/core/control.c:434-532 | over every run that respects the lock, its owner stays, and no other file's write reaches the control's put |
| ControlRuns.LockTakes | alsa/core/control.c:476-502 | locking succeeds exactly on an existing control without owner; the caller is then its owner, and a second lock is refused |
| ControlRuns.EffectIs | alsa/core/control.c:126-165 | what each call on the card means to the queue of one file |
| ControlRuns.RunHistories | alsa/core/control.c:82-165 | over every run each open file's queue is the one its own history gives, so it reports that history |
| ControlRuns.PagesRebuild | alsa/core/control.c:327-361 | for every positive 32-bit space, paging through the list rebuilds it in order exactly if the space is below 2^31 or the list is empty |
| ControlLaws.WriteReaches | alsa/core/control.c:434-474 | a write reaches a control's put exactly if the interface agrees, it is writable with put, and nobody or the caller owns it; the result, who hears of it, and that no control changes |
| ControlLaws.OwnerWrites | alsa/core/control.c:434-502 | who has locked a control may write it |
| ControlLaws.UnknownNumber | alsa/core/control.c:261-277 | write, lock, unlock, remove and rename of a number that no control has fail with ENOENT and change nothing |
| ControlLaws.LockUnlockExactly | alsa/core/control.c:476-532 | lock succeeds exactly without owner, unlock exactly for the owner; only the owner field changes; the errors otherwise |
| ControlLaws.UnlockUndoesLock | alsa/core/control.c:476-532 | unlocking brings back the card as it was before locking |
| ControlLaws.AddExactly | alsa/core/control.c:210-223 | exactly controls with the callbacks their access calls for are added, last, with the next number; every file hears of it |
| ControlLaws.RunServed | alsa/core/control.c:210-259 | after every run each listed control has the callbacks that its access bits call for |
| ControlLaws.RemoveExactly | alsa/core/control.c:225-245 | exactly the control with the number leaves the list, and every file hears of it |
| ControlLaws.RemoveUndoesAdd | alsa/core/control.c:210-245 | removing the control just added brings the list back; only its number is spent |
| ControlLaws.RenameExactly | alsa/core/control.c:247-259 | the control has the new name and the next number, keeps place, owner and access, and is found by the new fields unless an earlier one has them |
| ControlLaws.ReleaseExactly | alsa/core/control.c:95-124 | closing a file clears exactly its locks and removes exactly it; other files keep their queues |
| ControlLaws.MatchesExactly | alsa/core/control.c:279-305 | a control is found by its fields exactly if all five agree, names by their first 44 characters up to a NUL |
| ControlLaws.ElemListExactly | alsa/core/control.c:327-361 | for every 32-bit offset and space: how many ids a page holds and which; none for a space of 2^31 or more, from the start for such an offset |
| Control.CtlFile.Post | alsa/core/control.c:126-165 | merges into the waiting event of the same numid or appends, for a subscribed file only |
| Control.CtlFile.EmptyReadQueue | alsa/core/control.c:82-93 | leaves no event |
| Control.CtlFile.SubscribeEvents | alsa/core/control.c:534-553 | the three cases of the argument, and the value handed back |
| Control.CtlFile.Read | alsa/core/control.c:601-651 | delivers the longest prefix that fits, in order, and the byte count or error |
| Control.SoundCard.Open | alsa/core/control.c:37-80 | adds a new, unsubscribed file |
| Control.SoundCard.Release | alsa/core/control.c:95-124 | removes the file, its events and its locks |
| Control.SoundCard.Notify | alsa/core/control.c:126-165 | notifies every open file |
| Control.SoundCard.FindControl | alsa/core/control.c:261-305 | the first control with the numid, or, without one, with the same five fields |
| Control.SoundCard.Add | alsa/core/control.c:210-223 | refuses a control without its callbacks, else appends it with the next numid and notifies |
| Control.SoundCard.Remove | alsa/core/control.c:225-235 | takes exactly that control off the list and notifies |
| Control.SoundCard.RemoveId | alsa/core/control.c:237-245 | the same for the control found, or an error and no change |
| Control.SoundCard.RenameId | alsa/core/control.c:247-259 | gives the control found the new id with a new numid, or an error and no change |
| Control.SoundCard.ElemLock | alsa/core/control.c:476-502 | sets the owner of an unowned control; the errors otherwise |
| Control.SoundCard.ElemUnlock | alsa/core/control.c:504-532 | clears the owner if it is the caller; the errors otherwise |
| Control.SoundCard.ElemWrite | alsa/core/control.c:434-474 | put is called exactly if the control is found, of the right kind, writable and not owned by another file; readers hear of a change |
| Control.SoundCard.ElemList | alsa/core/control.c:327-361 | the count of controls and the ids of the requested page |
| NumberSpec.DigitsShape | lib32/debug.c:43-141 | only decimal digits and capital letters are printed, at least one, at most the width, leading zeroes only where wanted |
| NumberSpec.DigitsValue | lib32/debug.c:43-141 | the printed digits stand for the number, in radix 10 and 16 |
| NumberSpec.DecRoundTrip | lib32/debug.c:43-99 | parsing in radix 10 gives back every 32-bit value that was printed and stops behind it, exactly if no further digit follows |
| NumberSpec.HexRoundTrip | lib32/debug.c:102-141 | the same in radix 16, exactly if no digit follows, and no x behind a printed 0 |
| NumberSpec.PrintedLength | lib32/debug.c:43-141 | fixed width with LEADING_ZEROES, no superfluous zero without; a minus exactly for values with the top bit set |
| NumberSpec.DigitsAre | lib32/strtol.c:51-61 | digits and letters of either case count from 0 to 35, and nothing else is a digit |
| NumberSpec.ReadsNumeral | lib32/strtol.c:12-93 | blanks, sign, prefix and any digits of any radix, given or found out, are read to their end, saturated or negated; without digits 0 and the start are returned |
| NumberSpec.BadRadix | lib32/strtol.c:86-91 | a radix outside 2..36 gives 0 and the position behind blanks and sign |
| NumberSpec.OverflowTest | lib32/strtol.c:62-62 | the test with max1 and max2 holds exactly if the next digit exceeds ULONG_MAX |
| NumberText.Subtract | lib32/debug.c:58-63 | repeated subtraction divides |
| NumberText.DecLongToASCII | lib32/debug.c:43-99 | writes the decimal text at the position given, nothing else, and returns its end |
| NumberText.HexLongToASCII | lib32/debug.c:102-141 | writes the hexadecimal text, with the digits cut out by the moving mask |
| NumberText.DigitLoop | lib32/strtol.c:45-70 | scans the maximal digit run; overflow is sticky and means the value exceeds ULONG_MAX |
| NumberText.SimpleStrtoul | lib32/strtol.c:12-93 | the value, saturated or negated modulo 2^32, and the end pointer, for every string and radix |
| TimerResolution.GcdCorrect | alsa/core/pcm_timer.c:33-46 | the result divides both numbers and every common divisor divides it |
| TimerResolution.Gcd | alsa/core/pcm_timer.c:33-46 | the loop ends and computes it |
| TimerResolution.WrapsIs | alsa/core/pcm_timer.c:64-67 | the loop's guard holds exactly while the product does not fit into 32 bits |
| TimerResolution.HalvingsLeast | alsa/core/pcm_timer.c:64-67 | the loop stops at the first halving after which the product fits |
| TimerResolution.ReducedValue | alsa/core/pcm_timer.c:53-63 | reducing by the two gcds does not change the fraction |
| TimerResolution.LowestTerms | alsa/core/pcm_timer.c:56-63 | the two reductions leave the fraction in lowest terms, each removing the greatest common divisor |
| TimerResolution.WhenProductFits | alsa/core/pcm_timer.c:56-64 | the reduced product fits into 32 bits exactly if 10^9 * period_size divided by its greatest common divisor with the rate does |
| TimerResolution.ResolutionExact | alsa/core/pcm_timer.c:48-70 | if 10^9 * period_size divided by some common divisor of it and the rate fits into 32 bits, the result is the whole part of 10^9 * period_size / rate |
| TimerResolution.ResolutionBounds | alsa/core/pcm_timer.c:48-70 | after k halvings the result is within the two bounds, and is left alone exactly if the reduced rate is below 2^k |
| TimerResolution.ResolutionKept | alsa/core/pcm_timer.c:55-60 | a rate or a period size of zero leaves the resolution as it was |
| TimerResolution.Runtime.ResolutionChange | alsa/core/pcm_timer.c:48-70 | the assignments and early returns compute that resolution |
| HwParams.PeriodSetup | lib32/sound.c:633-714 | the reassignments compute the outcome from the two clamped sizes |
| HwParams.SizesAgree | lib32/sound.c:664-687 | period size is the number of whole frames in the period bytes exactly unless samples_to_bytes overflows |
| HwParams.WhenDivideFaults | lib32/sound.c:689-697 | the division by the period bytes faults exactly if there is a sample size and the clamped samples convert to 0 bytes, which for a positive frame size takes 2^31 bytes |
| HwParams.PeriodsFit | lib32/sound.c:698-714 | the number of periods is even and fits into the buffer unless raised to the minimum; when it falls below the minimum |
| HwParams.OverflowHappens | lib32/sound.c:681-697 | a request and limits for which the division faults |
| HwParams.WhenRequestOverflows | lib32/sound.c:637-687 | the conversion overflows exactly if the request is below the hardware minimum and that is 2 GB or more and converts to fewer bytes than asked for |
| HwParams.EveryRequestAgrees | lib32/sound.c:637-697 | on hardware with a smaller minimum the sizes agree for every request, and the division never faults |
| HwParams.SizesGranted | lib32/sound.c:637-711 | with consistent hardware limits the period is the whole frames of the request brought within the limits, the bytes are just theirs, a request of whole frames within the limits is kept, and only a single period is refused |
| HwParams.MostPeriods | lib32/sound.c:698-714 | no larger even number of periods fits, or the largest allowed one is taken |

## Left out

- HeapManager.Heap.Malloc: requires a non-empty free list, because the source reads the first free block without a test; it does not model the call of HeapInit on first use.
- HeapManager.Heap.HeapInit: does not model a VMAlloc that fails, and takes only sizes that are multiples of 4.
- HeapManager.Heap.Free: does not model double frees and pointers that are not live, for which the source traps.
- HeapManager.Heap.HeapCheck: reports what it finds instead of trapping; the file and line fields of the debug heap are part of the header size only.
- PageCalls.PageLayer.GetFreePages: takes orders below 20, beyond which the size does not fit into 32 bits; the flags handed on to VMAlloc are not modelled.
- PageCalls.PageLayer.FreePages: takes an address that was handed out and not freed; other addresses go to VMFree as they are.
- PageCalls.PageLayer.VFree: takes a block whose address is its region's, as every block from vmalloc is.
- TimerResolution.Runtime.ResolutionChange: takes rates and period sizes below 2^31, because gcd computes with signed numbers.
- HwParams.PeriodSetup: does not model the ioctl calls and the retry with other parameters after them.
- Control.CtlFile.Read: does not model waiting for events; a reader that would wait gets EAGAIN.
- Control.SoundCard.Add: takes a control that is not listed and whose owner, if any, is an open file.
- ControlRuns.PagesRebuild: takes lists of fewer than 2^31 controls, which is more than fit into 32-bit memory.
- Pages.Os.VMAlloc: does not model the allocation flags (fixed, contiguous, below 16 MB).
- DmaArea.Substream.LibMallocPages: takes sizes up to 2 GB and nonzero allocation flags, above which the order search does not end; the kinds of DMA areas are continuous, PCI and unknown.
- Doubly linked lists of controls, files and events are sequences of objects; splicing of their link fields is not modelled.
- pci_alloc_consistent with a small dma_mask, reserved-page flags, preallocation and its proc entries, snd_malloc_pages_fallback.
- elem_info, elem_read, card_info, poll, fasync and the ioctl dispatch of control.c, and the construction of controls.
- Locks, semaphores, wait queues, interrupts: every call is one step.
- Port I/O, PCI configuration, DevHelp and KEE calls, strategy and IDC dispatch: hardware or system decides.
- sprintf, dprintf and the other formatted output around the two number printers.
- FM instruments, mixer and MIDI forwarding, format tables: finite tables or plumbing that would add easy members only.
- The debug memory accounting of ALSA and the branches for old kernels.
