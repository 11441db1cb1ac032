# A verified model of the kernel's core

This project models the parts of a small 32-bit x86 kernel that carry the most state: the
kernel heap, physical frames and page tables, round-robin tasking, the text console, the
ramdisk with the tool that packs it, the text formatter, and the byte queue. Objects the
kernel updates in place are classes over arrays; what each operation means is a function or
predicate on values, and the properties of whole runs are lemmas about those.

`dafny verify dfyconfig.toml` checks everything.

| file | what it models |
|---|---|
| `Words.dfy` | bytes, 32-bit words, little-endian loads and stores |
| `Placement.dfy` | placement allocation, before there is a heap |
| `Regions.dfy` | boundary tags, and the region maps they spell out |
| `OrderedArray.dfy` | the insertion-sorted array |
| `HeapState.dfy`, `HeapMoves.dfy` | the hole index against the region map; carving, growing, merging, trimming |
| `HeapRuns.dfy` | any interleaving of allocations, frees and stores |
| `KernelHeap.dfy` | the heap itself, over byte memory, the index and the page tables |
| `HeapProgram.dfy` | any program of alloc, free and store requests, carried out on the heap from boot on |
| `HeapDefects.dfy` | where the code departs from the above, and exactly when that does no harm |
| `HeapCallback.dfy`, `HeapRecursion.dfy` | `alloc` and `expand` as written, which call back into the heap for page tables: when they never return, and what they leave otherwise |
| `TableEnd.dfy` | programs that get there from boot |
| `Bitmap.dfy`, `Paging.dfy` | the frame bitmap, two-level page tables, address-space cloning |
| `Tasks.dfy` | the ready queue, `switch_task` and `fork` |
| `Console.dfy` | the scrolling 80x25 console |
| `CStrings.dfy`, `Initrd.dfy`, `Ramdisk.dfy` | C strings, the ramdisk's packer and its reader |
| `Numerals.dfy`, `Printk.dfy` | number printing and the formatter |
| `RingBuffer.dfy` | the bounded byte queue |

## How the heap is proved

`Regions.Laid` says that a sequence of regions tiles `[start, end)` and that each region's
header and footer are in memory, the footer pointing back to the header. Memory determines
that sequence: stepping by `header->size` from the start, or by the footers' back pointers
from the end, finds exactly these regions (`WalkFindsRegions`, `WalkBackFindsRegions`). The
methods of `KernelHeap.Heap` keep the sequence laid out, free of adjacent holes, and keep the
index equal to the holes sorted by their current size; `Alloc` and `Free` state the new region
map as a function of the old one, and which pages gained or lost a frame. As no two holes are
adjacent, the live blocks alone determine the map (`CanonicalForm`), which is why an `alloc`
followed by a `free` restores it.

`HeapRuns.Run` is a sequence of sound states with a step between each and the next, and the
results about runs speak of those. That the heap makes runs is proved, not assumed:
`HeapPrograms.Execute` carries out any program of requests with the heap's own methods and
answers the states it went through with the proof that they are a run, and
`HeapPrograms.Boot` does so from an empty memory manager on.

## Repairs

The code departs from its own comments and structure in places. The model follows the
intended behaviour where the code as written cannot keep the heap's tags, the index or the
frame accounting, and says here what it repairs. A lemma in parentheses states what the code
as written does, and the exact condition under which the departure is harmless.

Heap (`src/kheap.c`):
- The search's result is used; the code leaves `iterator` at 0 and carves entry 0, the smallest
  hole (lines 191-192, 241-242; `FirstEntryServes`, `FirstEntryFits`).
- The first hole gets a footer (lines 177-182; `FirstHoleWithoutFooter`).
- The endmost hole is enlarged only if it ends at the old end of the heap, otherwise the new
  bytes become a hole of their own (lines 227-236; `GrowthReachesEnd`).
- A hole whose size changes leaves the index first and enters it again afterwards (lines 230,
  260, 335, 344, 370; `ResizedInPlace`). So a left neighbour that takes in a freed block is
  removed and inserted again, and with page alignment the front hole is inserted anew.
- The front gap of an aligned block is 0 or at least 20 bytes, and the search and the cut
  agree on it (lines 119-121, 256-266; `FrontHoleFits`). Slivers are looked for after the cut
  (lines 248-252; `SliverBehindFrontHole`).
- Neighbours are looked at only inside the heap (lines 330-331, 342-343; `NeighbourTagsInside`).
- A right merge rewrites the far footer's back pointer (lines 344-348; `RightMergeWithoutFooter`).
- `contract` rounds with the mask 0xFFFFF000 (lines 85-88; `ContractRounds`,
  `ContractCutsABlock`), and the page at the new length is released as well (line 96;
  `PageAtNewEndStays`).
- A contracted hole keeps at least 20 bytes: when less would be left, one page more is kept
  (lines 368-373; `HoleKeptByContract`). The branch for a hole that vanishes (lines 376-385)
  is then never taken, and no vanished hole is entered in the index (lines 387-390;
  `EnteredWhileThere`).
- The page tables of the heap's area are made at boot, up to its maximum, so that `expand` never
  needs a new one, and every operation of the heap leaves the set of page tables as it is. As
  written, only the tables of the first area are there. `expand` then calls back into `alloc`,
  through `get_page`, exactly when a page it maps has no table (lines 72-77, 20-21;
  `src/paging.c`, lines 175-181; `HeapCallback.CallsBackIff`). Such a call takes one more block
  from the heap for each table (`HeapRecursion.AllocPays`), may let the new bytes overlap that
  block (`OverlapsATable`), or never returns (`NeverEndsIff`, `PlainCaught`,
  `TableEnd.NeverReturns`, `NeverReturnsOnRetry`).
- Sizes are unbounded numbers in the search and in `alloc` (lines 120-126, 189;
  `SignedSearch`, `SizeWithTags`).

Paging (`src/paging.c`):
- `free_frame` clears the bit of the frame it frees (line 94; `FreeNeedsAddress`).
- Running out of frames is an answer of its own; the code returns frame 0 and looks for -1
  (lines 68, 77; `ExhaustionHandsOutFrameZero`).
- The bitmap has a word for every 32 frames; the code reserves a byte for each (lines 105-106;
  `BitmapReservedInBytes`). A new page table is cleared over its own size; the code clears the
  size of a directory, more than twice that, for every table (line 228; `ClearBehindTable`,
  `OversizedClear`).
- Frame 0 is reserved, since an entry that holds it looks empty (lines 73, 91, 234).

Ramdisk (`src/initrd.c`, `src/io.c`):
- The header table is looked for 4 bytes behind the image's start, not 16 (line 66;
  `LiteralHeaderBase`, `LiteralHeaderBaseZeroFilled`, `LiteralOffsetIsAName`,
  `LiteralOffsetOfLast`, `LiteralOffsetIsData`).
- Offsets are made absolute by adding the image's address, not the file count (line 106;
  `LiteralOffsetBase`).
- `strcpy` is modelled as it is: it writes no terminator, and copies on behind an empty string
  (`src/io.c`, lines 50-56; `CStrings.CopyNeedsZero`). New file nodes are taken to be zero-filled.

Modelled as written, with the defect stated:
- `u32_to_dec` keeps its number in a `char`, so `%d` is right exactly below 128
  (`src/printk.c`, line 164; `Numerals.DecOfCharRight`).
- A cloned page is always present and a user page, whatever the source's flags say, because
  `alloc_frame` sets both and the flags are only ever added to (`src/paging.c`, lines 238-245;
  `Paging.Cloned`).
- `initrd_read` adds offset and size in 32 bits (`src/initrd.c`, line 20; `Ramdisks.ClipNeedsNoWrap`).
- `ring_buffer_read` does not look at the count (`src/ring_buffer.c`, lines 26-36; `RingBuffer.Read`).
- Process ids wrap around after 2^32 forks (`src/task.c`, line 207; `Tasks.PidsGrowUntilWrap`).

## Model

| member | source | states |
|---|---|---|
| KernelHeap.Heap.Alloc | src/kheap.c:187-305 | In every valid heap: the block comes out of the smallest hole that fits, the first such entry of the index, at the lowest address in it where the payload is aligned when asked, and the rest of the map, every live byte, all other pages and the set of page tables are unchanged; a plain request grows the heap at most once and an aligned one at most twice, and never once more than needed; refusal only when the next growth would pass the maximum, or it would not but no frame is left, and then the pages mapped on the way are those just behind the end |
| KernelHeap.Heap.AllocWithin | src/kheap.c:187-239 | The recursion ends: the room up to the maximum strictly shrinks, the number of growths still needed bounds the calls, and no page table has to be made on the way |
| KernelHeap.Heap.GrowOnce | src/kheap.c:193-236 | One expansion moves the end by the request rounded up to a page, keeps all blocks and page tables, and leaves the request one growth nearer to fitting |
| KernelHeap.Heap.CarveBlock | src/kheap.c:241-304 | The map afterwards is the old one with one hole replaced by front hole, block and back hole; the index holds the new holes |
| KernelHeap.Heap.WritePieces | src/kheap.c:259-297 | The tags written are those of the pieces the hole is carved into, and nothing else is stored |
| KernelHeap.Heap.FindSmallestHole | src/kheap.c:107-142 | The answer is a hole that fits after alignment, no smaller hole fits, and no entry in front of it in the index; no answer means that no hole fits |
| KernelHeap.Heap.EndmostHeader | src/kheap.c:202-213 | The scan for the highest header finds the last region exactly when that is a hole |
| KernelHeap.Heap.GrowEnd | src/kheap.c:215-236 | The last hole grows up to the new end, or the new bytes become a hole; every block stays |
| KernelHeap.Heap.Extend | src/kheap.c:193-236 | Making room either moves the end by exactly one growth with the map extended to match, or changes nothing; no page table is made |
| KernelHeap.Heap.Free | src/kheap.c:307-391 | Null changes nothing; otherwise exactly the block of that payload leaves the map, it merges with the holes on both sides, every other block keeps its bytes, and a hole at the end is trimmed with its pages given back; no page table comes or goes |
| KernelHeap.Heap.Reclaim | src/kheap.c:313-378 | The merge and the contraction as one change of the map, leaving only the merged hole outside the index |
| KernelHeap.Heap.MergeBlock | src/kheap.c:318-361 | The freed block and the holes next to it become one tagged region, whose parts have left the index |
| KernelHeap.Heap.UnifyLeft | src/kheap.c:328-338 | The footer in front leads to the left neighbour; if it is a hole, the two are one tagged hole |
| KernelHeap.Heap.UnifyRight | src/kheap.c:340-361 | The same to the right, with the far footer pointing to the merged header |
| KernelHeap.Heap.ContractTail | src/kheap.c:363-375 | The last hole keeps what is left of it after the contraction; no block is touched |
| KernelHeap.Heap.RemoveEntry | src/kheap.c:351-360 | The search finds the entry of the given header and only that entry leaves the index |
| KernelHeap.Heap.Expand | src/kheap.c:56-79 | The new end is the first page boundary behind the length asked for; the pages up to it have frames with the flags asked for, lowest free frames first, no other page changed and no page table was made; it fails over the maximum, with nothing changed, if and only if no such boundary is within it, or without frames, with the pages mapped so far behind the old end |
| KernelHeap.Heap.MapUpTo | src/kheap.c:72-77 | The pages between the old end and the new one get frames, the lowest free ones in order, or, when frames run out, those up to some page in between; every page finds its table |
| KernelHeap.Heap.Contract | src/kheap.c:81-104 | The new length keeps the minimum and at least 20 bytes behind the asked one; exactly the pages behind it lose their frames |
| KernelHeap.Heap.UnmapDownTo | src/kheap.c:94-99 | The loop releases each page from the old end down to the new one, and no other |
| KernelHeap.Heap.constructor | src/kheap.c:148-185 | Where the area up to the maximum has its page tables, the heap starts valid, as one tagged hole behind the index, and that hole is the index's one entry |
| KernelHeap.Heap.Poke | src/kheap.c:303-304 | A store by a block's owner into its payload keeps the heap valid and is a step of the runs |
| HeapRuns.PayloadSurvives | src/kheap.c:187-391 | Over any run of allocations, refusals, frees and stores, a block nobody frees or writes keeps every byte |
| HeapRuns.EveryState | src/kheap.c:187-391 | In every state of a run the forward and the backward walk over the tags find the same regions, ending exactly at the end, and hole and block bytes sum to the heap's length |
| HeapPrograms.Execute | src/kheap.c:187-391 | Any program of alloc, free and store requests, carried out by the heap's methods on any valid heap, is a run from its first to its last state, with an event for each request in order that does what the request asks; a request is refused only where nothing fits and the next growth would pass the maximum or all frames are taken; every state is accounted for as above, and every pointer handed out and not freed stays backed by its own block |
| HeapPrograms.DoAlloc | src/kheap.c:187-305 | One allocation is one step of the run; its pointer, aligned when asked and with room for the size, joins the live ones, or it is refused for one of the two reasons |
| HeapPrograms.DoFree | src/kheap.c:307-391 | One free is one step of the run, and every other live pointer keeps its block |
| HeapPrograms.Boot | src/paging.c:99-152 | From an empty memory manager with frames enough, identity mapping, mapping the heap's first area with page tables up to its maximum, and create_heap succeed, and any program on that heap is a run |
| HeapPrograms.BootHeap | src/paging.c:99-152 | The heap that boot makes: its one hole, its maximum and flags, and the entries of the pages mapped so far |
| HeapRuns.BlocksDetermineMap | src/kheap.c:328-361 | Two sound heaps with the same live blocks have the same regions up to the last block, and the same map if they end at the same place |
| HeapRuns.AllocThenFreeRestores | src/kheap.c:187-391 | Freeing a block just obtained restores the region map up to where a last hole ends, and all payloads |
| HeapCallback.CallsBackIff | src/kheap.c:72-77 | As written, expand calls back into alloc if and only if some page between the end and the new end has no table; the map and the end are then as before, and expand comes out no sooner than that call |
| HeapCallback.CallBackFinds | src/kheap.c:191-193 | The call back finds its smallest hole, and so returns without a further expansion, if and only if some hole fits a page table |
| HeapCallback.CallBackTakesABlock | src/paging.c:175-181 | It then takes a page-aligned block of its own out of that hole, and the map gains exactly that block |
| HeapCallback.TwoBlocksAdded | src/paging.c:175-181 | So, as written, the map after the outer allocation is not the old one with one block added, whichever block that be |
| HeapCallback.TableBehindOldEnd | src/kheap.c:193-236 | If no hole fits and the inner expansion comes through, the table's block overlaps the bytes that the outer growth takes for its own hole |
| HeapCallback.SameCallAgain | src/kheap.c:193-200 | If no hole fits, the expansion inside calls back if and only if it stays below the maximum and some page it is to map has no table; then it calls for the same page in the same state |
| HeapCallback.TableServed | src/kheap.c:187-239 | A call back that returns has served the request as alloc promises, with at most as many growths as were still needed, and made no table itself |
| HeapCallback.TableNeverEndsIff | src/kheap.c:193-238 | The request for a page table is never answered, at any depth, if and only if nothing fits it and its first expansion, or the second one that the alignment may ask for, needs a table in turn |
| HeapCallback.NeverEndsIff | src/kheap.c:56-79 | As written, an expansion never comes out, however deep the calls in it are followed, if and only if it stays below the maximum and lacks a table, no hole fits a table, and the first expansion for the table stays below the maximum and lacks one too, or leaves no room for the table behind the alignment and the second one does; call backs after the first return |
| HeapRecursion.NeverAnsweredIff | src/kheap.c:187-239 | The whole recursion of alloc, through its last line and through expand, never ends if and only if one of its successive expansions is caught in that way |
| HeapRecursion.PlainCaught | src/kheap.c:187-239 | Without alignment that is so if and only if nothing fits and the first expansion is caught, whatever tables are taken on the way |
| HeapRecursion.AllocPays | src/paging.c:175-181 | An allocation that returns leaves its own block and exactly one block for each table made on the way, and keeps every block there was |
| HeapRecursion.MapPays | src/kheap.c:72-77 | The loop of expand, if it comes out, has made exactly the missing tables of its pages, at the price of one block each |
| HeapRecursion.OverlapsATable | src/kheap.c:193-236 | If the end moved while expand was at work, a table's block lies partly in the bytes that expand adds |
| TableEnd.FillRun | src/kheap.c:187-305 | Any run from boot of n allocations of 4076 bytes ends in the n-th map: full blocks side by side and at most one hole behind them |
| TableEnd.NoCallBackBefore | src/kheap.c:72-77 | None of the first 895 such allocations needs a table that boot did not make |
| TableEnd.NeverReturns | src/paging.c:175-181 | The 896th such allocation, as written, never returns: it is followed to any depth |
| TableEnd.NeverReturnsOnRetry | src/kheap.c:193-238 | After 893 of them a request of 0x2000 bytes never returns, although the first expansion for its page table comes through |
| Regions.WalkFindsRegions | src/kheap.h:24-33 | Memory determines the region map: stepping by header sizes finds it |
| Regions.WalkBackFindsRegions | src/kheap.c:330-333 | Stepping back by the footers' pointers finds the same map |
| Regions.BytesAddUp | src/kheap.c:187-391 | Hole bytes and block bytes sum to the heap's length |
| Regions.BlocksDisjoint | src/kheap.c:241-304 | Distinct blocks do not overlap and lie inside the heap |
| Regions.CanonicalForm | src/kheap.c:328-361 | Without adjacent holes, a tiling is determined by its blocks and its ends |
| Regions.PutRegionTags | src/kheap.h:24-33 | Writing a header and a footer tags the region |
| Regions.TagBytes | src/kheap.h:24-33 | The tags byte for byte, as the two structures lay them out |
| Regions.LaidReplace | src/kheap.c:256-301 | A stretch of the map can be replaced by another that tiles the same bytes |
| HeapState.IndexInsert | src/kheap.c:144-146 | Inserting a hole's header keeps the index equal to the holes, each once, sorted by current size |
| HeapState.IndexRemove | src/kheap.c:351-360 | Removing an entry drops exactly that hole from the index |
| HeapState.IndexMoves | src/kheap.c:144-146 | The index stays sorted while memory changes as long as its holes keep their sizes |
| HeapState.PutRegionsLays | src/kheap.c:273-297 | Writing the tags of a tiling lays it out and touches nothing outside it |
| HeapState.UnifiedTags | src/kheap.c:332-335 | Two field stores turn two neighbouring holes into one tagged hole |
| HeapState.ResizedTags | src/kheap.c:226-236 | A new size and a new footer make a resized, tagged hole |
| HeapState.NoAdjacentCarved | src/kheap.c:256-301 | Carving a hole leaves no two holes side by side |
| HeapState.NoAdjacentMerged | src/kheap.c:328-361 | Merging with both sides leaves no two holes side by side |
| HeapMoves.AlignGap | src/kheap.c:118-121 | The gap leads to the first address behind the header where the payload is page-aligned and the gap is 0 or room for a hole |
| HeapMoves.FitsIff | src/kheap.c:118-131 | A hole fits if and only if a block can start somewhere in it: aligned as asked, at its start or with room for a hole in front, and ending inside it |
| HeapMoves.FirstBoundaryBehind | src/kheap.c:60-67 | The rounded length ends at the first page boundary behind what was asked for, so that a bound admits it if and only if it admits any such boundary |
| HeapMoves.RequestServed | src/kheap.c:241-304 | The block carved for a request starts at the first address in its hole where it can, is exactly as long as asked unless less than 20 bytes would be left, which it then takes, and leaves well-formed remnants |
| HeapMoves.FirstFitIsBest | src/kheap.c:107-142 | In an index sorted by size the first entry that fits is the smallest hole that fits |
| HeapMoves.Carve | src/kheap.c:241-304 | Carving adds exactly one block, keeps the map laid out without adjacent holes, the other holes indexed and all other blocks' bytes |
| HeapMoves.Regrown | src/kheap.c:215-236 | Moving the end keeps every block and its bytes and leaves one hole at the end |
| HeapMoves.ExtendedTwice | src/kheap.c:238 | Growing twice is growing once by the sum |
| HeapMoves.CertainNearer | src/kheap.c:193-238 | Each growth leaves the request one growth nearer to fitting |
| HeapMoves.GrowthsEnough | src/kheap.c:193-239 | One growth makes any plain request fit, two any aligned one |
| HeapMoves.Merge | src/kheap.c:318-361 | Merging removes exactly one block and keeps everything else |
| HeapMoves.Trimmed | src/kheap.c:363-375 | Trimming the last hole keeps every block and its bytes |
| HeapMoves.FreedTrims | src/kheap.c:363-375 | After a free that reaches the heap's end, the heap ends in a hole shorter than a page and 20 bytes, or has come down to its minimum; after any other, the end stays |
| HeapMoves.ContractKeepsAHole | src/kheap.c:81-92 | The contracted length is whole pages between the minimum and the old length, with room for the hole |
| HeapDefects.ContractRounds | src/kheap.c:85-92 | As written, the length covers the asked bytes in whole pages if and only if they are within the minimum or a multiple of two pages; whether a hole is left is `HoleKeptByContract` |
| HeapDefects.ContractCutsABlock | src/kheap.c:85-92 | An input for which the code gives away a page in use |
| HeapDefects.FrontHoleFits | src/kheap.c:256-266 | As written, the front hole has room for its tags if and only if the header is not within 32 bytes of the page's end; then it is the gap of the search; in 32 bits it always ends one header in front of the page boundary |
| HeapDefects.SliverBehindFrontHole | src/kheap.c:248-268 | As written, the pieces fill the hole and are well formed if and only if there is no front hole, or it has room for its tags and nothing or at least 20 bytes are left behind the block |
| HeapDefects.FirstEntryFits | src/kheap.c:191-242 | As written, a plain request fits the hole it is carved from if and only if it fits every hole |
| HeapDefects.FirstEntryServes | src/kheap.c:191-242 | As written, the block of any request, aligned or not, keeps off all other regions and inside the heap if and only if the size in the header of entry 0 covers the gap and the request |
| HeapDefects.GrowthReachesEnd | src/kheap.c:227-236 | As written, the map still tiles the heap after growth if and only if the endmost hole is the last region |
| HeapDefects.ResizedInPlace | src/kheap.c:230-370 | A hole grown or shrunk inside the index leaves it sorted if and only if the entry in front is not larger and the one behind not smaller |
| HeapDefects.FirstHoleWithoutFooter | src/kheap.c:177-182 | As written, the first hole is whole if and only if memory already held its footer |
| HeapDefects.RightMergeWithoutFooter | src/kheap.c:340-375 | As written, the hole a right merge makes is whole after free if and only if it ends the heap and contract leaves at least 20 bytes of it |
| HeapDefects.HoleKeptByContract | src/kheap.c:363-375 | As written, the last hole keeps room for its tags if and only if it starts at least 20 bytes below the minimum length; the other three outcomes (empty, too small, beyond the heap) each with their exact condition |
| HeapDefects.PageAtNewEndStays | src/kheap.c:94-99 | As written, every page behind the new end is released if and only if the new length is the old one or not whole pages; otherwise exactly the page at the new end stays |
| HeapDefects.EnteredWhileThere | src/kheap.c:376-390 | As written, when nothing was merged on the left, the index is right after the last line of free if and only if the hole entered there still exists |
| HeapDefects.LeftHeaderStays | src/kheap.c:376-390 | As written, after a left merge the search for a vanished hole finds nothing, and the index is right if and only if the merged hole still exists |
| HeapDefects.ClearBehindTable | src/paging.c:228 | As written, nothing but the new table changes if and only if the 4100 bytes behind it were zero already |
| HeapDefects.OversizedClear | src/paging.c:224-228 | As written, with the table in a block of the heap, exactly that block and the regions behind it that start in the bytes cleared lose their tags, so the heap is never laid out afterwards |
| HeapDefects.NeighbourTagsInside | src/kheap.c:328-343 | The tags read on both sides of a freed block are the neighbours' own if and only if the block is not the first, respectively not the last, region |
| HeapDefects.SignedSearch | src/kheap.c:120-126 | The signed comparison is right if and only if the request is below 2 GiB or refused anyway |
| HeapDefects.SizeWithTags | src/kheap.c:189 | The 32-bit sum of size and tags covers both if and only if the size is below 2^32 - 20 |
| OrderedArrays.InsertedSorted | src/ordered_array.c:33-56 | Inserting keeps the array sorted and adds exactly one element |
| OrderedArrays.InsertedFirst | src/ordered_array.c:35-50 | The new element comes behind all that are less and in front of all others, which keep their order |
| OrderedArrays.RemovedSorted | src/ordered_array.c:63-69 | Removing keeps it sorted and drops exactly one element |
| OrderedArrays.RemovedAt | src/ordered_array.c:63-69 | Elements in front stay where they are, those behind move up by one |
| OrderedArrays.PositionSplits | src/ordered_array.c:35-39 | The scan stops at the first element that is not less |
| OrderedArrays.OrderedArray.Insert | src/ordered_array.c:33-56 | The in-place shift does what inserting into the sequence does |
| OrderedArrays.OrderedArray.Remove | src/ordered_array.c:63-69 | The in-place shift removes one element and keeps the order of the others |
| OrderedArrays.OrderedArray.Lookup | src/ordered_array.c:58-61 | The element at that place |
| Placement.BlocksFollow | src/kheap.c:19-44 | Blocks placed before there is a heap never overlap, in any run, and only alignment leaves bytes between them |
| Placement.PlacedNear | src/kheap.c:29-33 | A plain request, or one in the first page, is placed right at the free address; an aligned one on the next page boundary, a page at most further |
| Placement.AlignedUnlessInFirstPage | src/kheap.c:29-33 | An aligned request gets a page boundary if and only if free memory starts at 0 or behind the first page |
| Placement.Allocator.Kmalloc | src/kheap.c:29-43 | One request is placed at the next address and moves it on, in 32 bits; the physical address is the address |
| Placement.AheadUnlessWrapped | src/kheap.c:29-43 | A block lies behind all earlier ones and in front of the next if and only if the addresses do not wrap around |
| Bitmap.FirstFrame | src/paging.c:54-69 | The answer is the least clear bit; no answer means that all are set |
| Bitmap.WordBits | src/paging.c:30-43 | Setting or clearing a bit of a word changes no other bit |
| Bitmap.BitWeighs | src/paging.c:26-36 | Bit j is the one of weight 2^j: read off by dividing, set and cleared by adding and taking away |
| Bitmap.FrameWeighs | src/paging.c:26-43 | Frame f is bit f % 32 of word f / 32, and no other word changes |
| Bitmap.SetBitTakes | src/paging.c:30-35 | Setting a frame takes that frame and no other |
| Bitmap.ClearBitFrees | src/paging.c:38-43 | Clearing a frame frees that frame and no other |
| Paging.PhysicalMemory.AllocFrame | src/paging.c:72-86 | An entry with a frame is left alone, otherwise it gets the lowest free frame and the flags; every frame stays held by at most one entry and marked exactly if held; failure if and only if the entry has none and all frames are taken |
| Paging.PhysicalMemory.FreeFrame | src/paging.c:89-97 | The entry loses its frame, whose bit alone is cleared |
| Paging.FreeNeedsAddress | src/paging.c:94 | As written, the frame is freed if and only if it is frame 0; with its address, always |
| Paging.ExhaustionHandsOutFrameZero | src/paging.c:54-85 | As written, the frame handed out is a free one, and the entry looks filled afterwards, if and only if some frame is free |
| Paging.BitmapReservedInBytes | src/paging.c:104-106 | As written, a frame's word lies in the memory reserved for the bitmap if and only if the frame is in the first quarter |
| Paging.PhysicalMemory.GetPage | src/paging.c:167-185 | The entry of the page that the address lies in, for every address; a missing table is made blank when asked, and no other table pointer changes |
| Paging.PhysicalMemory.CellInFrame | src/paging.c:167-185 | An address is mapped if and only if its page has a frame, and it reads that frame's word at its offset in the page |
| Paging.PhysicalMemory.FrameConservation | src/paging.c:30-97 | In every valid state held frames, free frames and the reserved one add up to the memory |
| Paging.PhysicalMemory.CopyPagePhysical | src/process.s:7-37 | The destination frame gets the source's words and every other frame keeps its own |
| Paging.PhysicalMemory.CloneTable | src/paging.c:223-255 | Every entry with a frame is cloned into a frame of its own with the same words; frames already held keep their words; the new table is cleared over its own size |
| Paging.PhysicalMemory.CloneDirectory | src/paging.c:257-290 | Kernel tables are shared by pointer and the others cloned into new tables; the clone's tables are as distinct as the source's; every table known before stays known, unchanged, and all frames held before keep their contents; failure only when all frames are taken |
| Paging.PhysicalMemory.CloneReadsTheSame | src/paging.c:257-290 | Every address mapped in the source reads the same word through the clone |
| Paging.PhysicalMemory.CloneKeepsFlags | src/paging.c:230-247 | Page by page, the clone has a frame exactly where the source has one, with the same rights and marks, and shared tables are the same |
| Paging.PhysicalMemory.CloneIsIsolated | src/paging.c:223-255 | A later store through a private table of either side is invisible to the other |
| Paging.PhysicalMemory.SameCell | src/paging.c:167-185 | Two mapped addresses reach the same word if and only if they have the same entry and the same offset |
| Paging.PhysicalMemory.Store | src/paging.c:167-185 | A store through a directory changes one word and no mapping |
| Paging.PhysicalMemory.MapPage | src/kheap.c:73-74 | Exactly one entry of a directory gets a frame and its flags |
| Paging.PhysicalMemory.UnmapPage | src/kheap.c:97 | Exactly one entry of a directory loses its frame |
| Paging.FramedTwice | src/kheap.c:72-77 | Mapping one stretch of pages and then the next is mapping both |
| Paging.PhysicalMemory.NextFrame | src/paging.c:54-69 | With frames 1 to n-1 held, the next one is n |
| Paging.PhysicalMemory.MapOne | src/paging.c:136 | One round of the boot loop maps page i to frame i and changes no other page |
| Paging.PhysicalMemory.MakeTables | src/paging.c:118-120 | Every page of the area has a table afterwards, and no page entry changed |
| Paging.PhysicalMemory.MapArea | src/paging.c:140-142 | Every page of the area has a frame and the flags, the lowest free frames in order, and no other page changed; when frames run out, the pages up to some page of the area do; where every page has a table, no table is made |
| Paging.PhysicalMemory.UnmapArea | src/kheap.c:94-99 | Every page of the area has lost its frame, and no other page changed |
| Paging.PhysicalMemory.IdentityMap | src/paging.c:131-138 | From any directory of blank tables with nothing held, the boot loop is an identity map of any number of pages there are frames for, and leaves all other pages blank |
| Paging.PhysicalMemory.InitialisePaging | src/paging.c:108-142 | Identity-mapped pages, read-only user pages with frames for the heap's area, and nothing else; it succeeds whenever there are more frames than pages; the tables reach as far as the heap may |
| Tasks.RunsStayGood | src/task.c:113-250 | Over any run of switches and forks the current task is in the queue, its directory is the current one, and tasks are only appended |
| Tasks.PidsGrowUntilWrap | src/task.c:207 | Process ids grow strictly along the queue if and only if fewer than 2^32 tasks were made |
| Tasks.BoundedWait | src/task.c:151-155 | A task runs again within its distance, plus the forks that can slip in front of it |
| Tasks.EveryTaskRuns | src/task.c:151-155 | From n tasks, each runs again within n + k switches while k forks happen |
| Tasks.AheadExactly | src/task.c:151-155 | A task ahead of the current one is reached by exactly as many switches as it is ahead, whatever is forked |
| Tasks.RoundRobin | src/task.c:151-155 | Without forks, n switches run each of n tasks exactly once |
| Tasks.RegistersKept | src/task.c:146-159 | A task that is not switched out keeps its saved registers through any run |
| Tasks.ResumesWhereItLeft | src/task.c:146-159 | A task resumes with the registers it was switched out with |
| Tasks.ChildResumesAtFork | src/task.c:229-249 | The child first resumes in its own directory with the parent's registers, and there fork returns 0; the parent gets the pid |
| Tasks.Scheduler.InitialiseTasking | src/task.c:28-46 | One task with pid 1 in the current directory, first and current in the queue |
| Tasks.Scheduler.QueueCount | src/task.c:48-56 | The walk ends and counts the tasks |
| Tasks.Scheduler.SwitchTask | src/task.c:113-192 | On the linked list, the step of the state machine; the registers loaded are those of the new task; nothing happens before tasking is initialised |
| Tasks.Scheduler.Fork | src/task.c:194-250 | On the linked list, the step of the state machine: one fresh task behind the last, the list stays distinct and ends in null, and the parent gets the child's pid |
| Tasks.Scheduler.Append | src/task.c:216-227 | Linking the child behind the last task appends it to the queue |
| Console.Screen.ScreenPut | src/screen.c:50-93 | The 2000 cells and the cursor after a character are the window on the unbounded terminal after it |
| Console.Screen.ScreenWrite | src/screen.c:113-118 | The same for any text |
| Console.Screen.Scroll | src/screen.c:26-48 | Below the window every row moves up by one and the last is blank; otherwise nothing moves |
| Console.Screen.ScreenClear | src/screen.c:96-110 | The screen shows the empty terminal |
| Console.Screen.ScreenWriteHex | src/screen.c:126-155 | The screen shows the terminal after the same hexadecimal text the formatter writes |
| Console.Screen.ScreenWriteDec | src/screen.c:157-181 | The screen shows the terminal after the decimal text, for all 32-bit numbers |
| Console.ScrolledWindow | src/screen.c:32-47 | A window whose cursor fell below it is right again one row further down |
| Console.CursorInside | src/screen.c:82-90 | The cursor is always inside 80x25 and the window starts at max(0, row - 24) |
| Console.WriteConcat | src/screen.c:113-118 | Writing two texts is writing their concatenation |
| Console.WriteWellFormed | src/screen.c:82-90 | After any text the terminal's cursor is in the columns and nothing is below its row |
| Console.PlainTextLands | src/screen.c:76-87 | Plain text fills consecutive cells from the cursor on, across line ends, and no other |
| Console.ControlMoves | src/screen.c:64-87 | Controls and ignored characters change no cell; newline and return go to the first cell of the next row and of the row, a tab to the next multiple of 8, across the row's end too, a backspace one cell back in its row |
| Console.LineLands | src/screen.c:72-87 | Behind a newline, plain text lands from the start of the next row on and nowhere else |
| Console.BackspaceUndoes | src/screen.c:64-66 | A backspace goes back over a plain character, and the next one takes its place |
| Console.CellBytes | src/screen.c:51-61 | A cell holds the character below its colours, and a blank is a space |
| CStrings.Strcmp | src/io.c:30-46 | 0 if and only if the strings are equal, 1 otherwise |
| CStrings.Strlen | src/io.c:75-80 | The number of characters before the terminator |
| CStrings.Strcpy | src/io.c:50-56 | The first character and those up to the next zero are copied, and nothing behind them is written |
| CStrings.CopiesString | src/io.c:50-56 | Of a string that is not empty, those are exactly its characters |
| CStrings.CopyNeedsZero | src/io.c:50-56 | The copy reads back as the string if and only if that is empty or a zero already stood behind it |
| Initrd.Pack | make_initrd.c:14-57 | The image holds the count, the table and the contents of any fitting files, and nothing more; behind an empty name its slot keeps what the uninitialised table held |
| Initrd.StopsFilled | make_initrd.c:24 | Filling one slot keeps a zero behind every empty name where there was one |
| Initrd.FillHeader | make_initrd.c:24-39 | One header describes its file and no other slot changes |
| Initrd.ExtentsTile | make_initrd.c:18-37 | File extents follow one another from behind the table without gap or overlap |
| Initrd.ImageDeterminesFiles | make_initrd.c:41-54 | No two lists of files have the same image |
| Ramdisks.PackAndMount | make_initrd.c:14-57 | Packing any fitting files and mounting the image anywhere in memory gives a disk of exactly those files |
| Ramdisks.ImageLoaded | src/initrd.c:62-66 | An image copied to any address is an image there |
| Ramdisks.Mount | src/initrd.c:98-120 | The loop makes every offset absolute in place and a node of every header, in order |
| Ramdisks.MadeAbsolute | src/initrd.c:103-106 | Editing one offset leaves the other headers and all contents as they are |
| Ramdisks.Ramdisk.constructor | src/initrd.c:62-123 | The mounted disk is valid for the files in the image |
| Ramdisks.Ramdisk.Read | src/initrd.c:14-27 | The buffer, if it holds what is left of the file, gets exactly the bytes from the offset on, clipped at the end, and nothing behind them is touched; an offset behind the end reads nothing, whatever the size |
| Ramdisks.ChunksJoin | src/initrd.c:14-27 | Consecutive reads of any sizes concatenate to one read, and to the whole file when they cover it |
| Ramdisks.ChunkBytes | src/initrd.c:14-27 | Byte for byte, a read gives what it asks for from the offset on, as far as the file goes |
| Ramdisks.ClipNeedsNoWrap | src/initrd.c:20-22 | A read that starts inside the file stays inside it if and only if offset + size does not wrap |
| Ramdisks.Ramdisk.Readdir | src/initrd.c:29-46 | The root lists dev and then each file in order, /dev from index 1 on; beyond that nothing is found and the entry is untouched |
| Ramdisks.Ramdisk.Finddir | src/initrd.c:48-60 | dev in the root, else the first file of that name, else nothing, each if and only if |
| Ramdisks.LiteralHeaderBase | src/initrd.c:66 | As written, the name found for a file is its own if and only if it is shorter than 12 characters and the rest of its slot spells it again |
| Ramdisks.LiteralHeaderBaseZeroFilled | src/initrd.c:66 | In zero-filled slots, as written, that is so for the empty name only |
| Ramdisks.LiteralOffsetIsAName | src/initrd.c:66 | As written, the offset found for a file is right if and only if the next file's name has more than three characters and its characters 3 to 6 spell it |
| Ramdisks.LiteralOffsetOfLast | src/initrd.c:66 | As written, for the last file it is never right if the slot behind is unused and zero-filled |
| Ramdisks.LiteralOffsetIsData | src/initrd.c:66 | As written, with all 64 slots used the last offset is read from the bytes 4 to 7 of the contents, or from behind the image where there are fewer |
| Ramdisks.DataInMemory | make_initrd.c:41-54 | The contents stand in memory one after another, without a gap, behind the table |
| Ramdisks.LiteralOffsetBase | src/initrd.c:106 | As written, an offset becomes the file's address if and only if the image lies at the address that is the file count |
| Numerals.HexReadsBack | src/printk.c:124-155 | Hexadecimal text parses back to the number and has no leading zero |
| Numerals.HexDigitIs | src/printk.c:141-151 | The digits are 0 to 9 and a to f |
| Numerals.DecReadsBack | src/screen.c:157-181 | Decimal text parses back to the number and has no leading zero |
| Numerals.U32ToHex | src/printk.c:124-155 | The nibble loop writes the hexadecimal text and a terminator |
| Numerals.U32ToDec | src/printk.c:157-179 | The loops write the decimal text of the number as a signed char |
| Numerals.DecOfCharRight | src/printk.c:164 | The text written is the number's own if and only if it is below 128; for other multiples of 256 it is empty |
| Numerals.DecOfCharReadsBack | src/printk.c:157-179 | For every number: the text reads back as the lowest byte if that is from 1 to 127 or the number is 0, and is empty otherwise |
| Numerals.DigitsOf | src/screen.c:163-178 | Peeling off digits and copying them round gives the decimal text |
| Printk.Sprintk | src/printk.c:21-108 | With room for it, the buffer gets the recursive rendering of the format, as far as the length lets it be read, and a terminator; nothing behind that is touched; string arguments end at their first zero |
| Printk.AppendString | src/printk.c:40-46 | The loop appends the bytes in front of the first zero |
| Printk.CutShort | src/printk.c:24-31 | The format is read to its end if it has at most out_length + 1 characters, and never beyond one more |
| Printk.DoubledRendersVerbatim | src/printk.c:99-101 | Text with its percent signs doubled comes out as it was, in front of any format |
| Printk.DoubledRoundTrip | src/printk.c:99-101 | Doubling every percent sign and formatting gives the string back |
| Printk.NumbersReadBack | src/printk.c:63-80 | %x reads back for every number; %d is right if and only if the number is below 128 |
| Printk.TruthReadsBack | src/printk.c:46-60 | %b writes "true" if and only if the number is not 0, and "false" if and only if it is |
| Printk.PointerReadsBack | src/printk.c:81-98 | %p writes an arrow and then "NUL" if and only if the number is 0, otherwise what %d does, which reads back below 128 |
| Printk.CharactersAndStrings | src/printk.c:39-70 | %c writes what %d does, %s the string its argument points to |
| Printk.DirectiveFront | src/printk.c:32-98 | A directive takes the next argument and writes its text in front of the rest |
| Printk.NoDirective | src/printk.c:24-104 | An unknown directive stands for its letter, a percent sign at the very end for itself |
| RingBuffers.RingBuffer.Write | src/ring_buffer.c:39-54 | The queue gains the byte at its end, or the buffer is full and nothing at all changes |
| RingBuffers.RingBuffer.Read | src/ring_buffer.c:26-36 | The oldest byte comes out; the buffer stays well formed if and only if it was not empty |
| RingBuffers.RingBuffer.constructor | src/ring_buffer.c:11-21 | A new buffer of any size is an empty queue |
| RingBuffers.FirstInFirstOut | src/ring_buffer.c:23-54 | Over any trace, what was there and what was accepted is what was read and what is left, in order |
| RingBuffers.ReadsArePrefix | src/ring_buffer.c:23-54 | From an empty buffer the bytes read are a prefix of the accepted writes, never more than its size behind |
| RingBuffers.NothingDropped | src/ring_buffer.c:43-53 | Every byte written is accepted if and only if no write finds the buffer full |

## Left out

- Page directories' physical addresses (`tablesPhysical`, `physicalAddr`), CR3 and the TLB: a page table is named by its pointer alone.
- Heap bytes and physical frames are two separate memories; that the heap's pages are mapped is proved, that its bytes lie in those frames is not stated.
- HeapCallback.NeverEndsIff: the recursion as written is modelled on values, on maps that tile the heap with its last page mapped; frames are taken to suffice, and flags are left out.
- HeapRecursion.NeverAnsweredIff: once the new bytes of an expansion overlap a table (`OverlapsATable`), what `alloc` does with them is not followed.
- Paging.PhysicalMemory.CloneTable: page tables and directories are objects of their own, where the code allocates them on the kernel heap.
- Capacity of the hole index: insertion does not check it in the code either; `alloc` and `free` require a free place.
- KernelHeap.Heap.constructor: the heap starts with its pages mapped and at least HEAP_MIN_SIZE long, as `initialise_paging` sets it up; shorter heaps are not modelled.
- KernelHeap.Heap.Alloc: sizes are unbounded, so 32-bit wrap-around of a request is stated apart, in `SizeWithTags` and `SignedSearch`.
- KernelHeap.Heap.Expand: when frames run out midway, the pages mapped past the end so far stay mapped, as in the code; how far that is depends on the frames left and is not computed.
- HeapPrograms.Execute: requests on pointers there are not, stores outside the bytes asked for, and requests the index has no room for are passed over, where the code would go wrong.
- KernelHeap.Heap.Free: a pointer that is not a payload is outside the contract; the code checks two magic numbers and panics.
- The physical address `kmalloc_int` reports once there is a heap.
- Page faults, and switching to the directory `initialise_paging` clones in its last lines.
- `page_fault`, `panic`, the hardware cursor ports, and the register bits of `switch_page_directory`.
- Bitmap words are natural numbers whose bits are read off by halving, not bit-vectors.
- The inline assembly of a context switch and of `move_stack`: a switch is one atomic step, with the registers handed in and out.
- Tasks.Scheduler.Fork: the cloned directory is handed in by its address; what cloning does is proved in `Paging`.
- `sys_exit`, which its author marks as not working, and `kernel_stack`, which no switch reads.
- Console cells are whole numbers, one per character; the code's `int` pointer into 16-bit cells is not modelled.
- File opening and argument handling of the packer: files are a sequence of names and contents.
- Initrd.Pack: names shorter than 64 characters, at most 64 files and 4 GiB; the packer checks none of these.
- Ramdisks.PackAndMount: behind an empty name the uninitialised slot must hold a zero (`EmptyNamesStop`); without one `strcpy` runs on out of the name's field, and how far is not modelled.
- Ramdisks.Ramdisk.Read: a read inside the file whose offset + size wraps around is excluded, by the condition `ClipNeedsNoWrap` shows to be exact; it would copy past the end of memory.
- Printk.Sprintk: the output must fit the buffer, which the code does not check; arguments must match their directives.
- The VFS callbacks, devfs, drivers, descriptor tables, interrupt and system-call dispatch: tables and port accesses with no invariant of their own.
