# Verified models of the COMP304 assignments

This project models three stateful components of the repository in Dafny and proves what they
keep over every call and every run.

* The memory allocator of `project-3-memory-allocator/alloc.c`: a first-fit free list over a
  moving program break. `HeapSpec.dfy`, `Payloads.dfy`, `HeapLaws.dfy` and `HeapRuns.dfy` say
  what each call does as functions on values and prove their laws over single calls and whole
  runs; `Overlay.dfy` treats the size fields as bytes of the heap; `FreeList.dfy` and
  `Allocator.dfy` run the same calls in place, on linked list nodes, and are proved to compute
  those functions; `AsWritten.dfy` and `AsWrittenRuns.dfy` have the list surgery as the source
  has it, with the exact conditions under which it does the same.
* The test framework around it (`memlist.c`, `intercept.c`, `checked_alloc.c`): the sorted
  region lists, the break with its page frontier, and the checked wrappers. `Spans.dfy`,
  `Break.dfy`, `Checked.dfy`, `CheckedDetects.dfy` and `CheckedRuns.dfy` are the functions, laws
  and runs;
  `Memlist.dfy`, `ProgramBreak.dfy` and `CheckedHeap.dfy` are the objects.
* The metro simulation of `project-2-metro-simulation/main.cpp` as a step system: any number of
  section threads, one controller, and a flag that is reset outside the lock (`Metro.dfy`,
  `MetroBound.dfy`, `MetroTight.dfy`, `MetroLaws.dfy`, `MetroHistory.dfy`); `Station.dfy` holds the critical
  sections over the program's four queues.

## How the model stands to the code

Block addresses, header sizes and list nodes are records: a header is an entry of `live`, a list
node an object with `size`, `next` and `prev`. The size fields are bytes as well: what the
allocator stores there the checks of the framework see, and a fill that reaches them changes the
size. A failed assertion or `error` of the framework, or an access to a page that the break left
inaccessible, ends the process; in the model it ends the computation with a `Failure`.

kurealloc, do_brk, the region lists, the wrappers and the metro are modelled as written. In
kumalloc and kufree the list surgery departs from its evident intent in the places below. There
the functions and classes follow the intent, and the surgery as written is modelled beside them:
on linked nodes in `FreeList.dfy`, on heaps in `AsWritten.dfy`. `AsWritten.MallocAsWrittenIff` and
`AsWritten.FreeAsWrittenIff` say exactly when a whole call as written computes the call that was
meant, and `AsWrittenRuns.RunAsMeant` that every run of such calls is the run of the model. What
RunSafe, RunLargeEnough and NoAssertionFires say of whole runs they say of the repaired surgery,
and so of the code in these runs.

| repair | lines of alloc.c | in the model | exact condition of the code as written | a run that violates it |
|---|---|---|---|---|
| nothing is stored behind a remainder too short for a node | 98-126 | `Allocators.Allocator.TakeWhole`, `Allocators.Allocator.Split` | `AsWritten.ReuseAsWrittenIff` | `AsWrittenRuns.ExactFitExample` |
| a link is not stored beyond its block | 113, 124-125, 130-131, 201, 259-262, 305-309, 341, 351 | `FreeList.Unlink`, `FreeList.Replace`, `FreeList.PushFront` | `AsWritten.LinkStoreIff`, `AsWritten.ReuseAsWrittenIff`, `AsWritten.FreeAsWrittenIff` | `AsWrittenRuns.SmallNodeExample` |
| a missing successor is not followed | 124, 130 | `FreeList.Unlink`, `FreeList.Replace` | `FreeList.ReuseLinksAsWritten`, `AsWritten.ReuseAsWrittenIff` | `AsWrittenRuns.MissingSuccessorExample` |
| `prev` is kept when a block is split | 107-109 | `FreeList.Replace` | `FreeList.ReuseLinksAsWritten` | |
| `prev` is kept by the trim | 198-202 | `FreeList.Unlink` | `FreeList.TrimUnlinkAsWritten` | |
| the links are read before the release | 197-204 | `Allocators.Allocator.GiveBack`, `Allocators.Allocator.Visit` | `AsWritten.ReadAfterReleaseIff` | `AsWrittenRuns.ReadAfterReleaseExample` |
| `prev` is set when pushing in front | 209-210, 350 | `FreeList.PushFront` | `FreeList.PushAsWritten` | |
| three-way merges unlink one neighbour only | 253-268, 299-316 | `Allocators.Allocator.AbsorbLeft`, `Allocators.Allocator.AbsorbRight` | `FreeList.MergeThreeAsWritten`, `AsWritten.FreeAsWrittenIff` | `AsWrittenRuns.MergeCycleExample`, `AsWrittenRuns.MergeLosesExample` |
| `prev` is kept by the right merge | 338-344 | `FreeList.Replace` | `FreeList.MergeRightAsWritten` | |

Four things are kept as written although they miss their purpose, and the model says when:

* Line 369 of alloc.c compares a request with a size that includes the header, so a request in
  the gap of the last eight bytes is answered with a block that is too small
  (`Payloads.ReallocLargeEnoughIff`). The fill of the framework then reaches the size field of
  the next block (`Overlay.GapFillIff`, `CheckedRuns.GapOfLastBlockExample`,
  `CheckedRuns.GapOfOtherBlockExample`).
* Line 377 copies that size too and reads eight bytes behind the old block, which lie on an
  inaccessible page when the block ends at the edge and a free block serves the request
  (`Payloads.CopySourceIff`, `HeapRuns.OverReadExample`).
* Line 230 of checked_alloc.c compares through a `char *`. On x86-64 gcc's `char` is signed, and
  a fill byte of 128 or more never compares equal, although the bytes were kept
  (`Checked.CheckedReallocIff`, `CheckedRuns.SignedCharExample`).
* Line 83 of memlist.c leaves the search at the first region that lies before the new one
  (`Spans.WrittenSearchSeesTheHeadOnly`, `Spans.WrittenSearchAgreesIff`).

The first three are the guard of `Checked.NoAssertionFires`: a resize survives when it is not in
the gap, does not over-read, and its buffer was filled with a byte below 128. The repository's
README says that kurealloc frees the old block; the code does not, and neither does the model.

The metro steps are the critical sections and the single reads and writes between them. The
locked check with the write of the flag is one step, and so are the listings taken without the
lock.

## Model

| member | source | states |
|---|---|---|
| HeapRuns.RunSafe | project-3-memory-allocator/alloc.c:35-379 | with the repairs above, after any run of allowed calls: live and free blocks tile the heap exactly, live blocks are disjoint, aligned and below the break, free blocks are coalesced, all bytes are accounted for; a run dies on an inaccessible page exactly when it comes to a resize that over-reads, and otherwise only the heap limit stops it |
| HeapRuns.RunLargeEnough | project-3-memory-allocator/alloc.c:35-379 | with the repairs above, at the end of any run every live block holds what was last asked of it up to eight bytes, and all of it if no resize was in the gap |
| HeapRuns.StepNotes | project-3-memory-allocator/alloc.c:35-379 | what counts as asked: after a call the record holds the bytes asked for under the pointer returned, nothing under a pointer given back, and every other entry as before |
| AsWrittenRuns.RunAsMeant | project-3-memory-allocator/alloc.c:35-379 | every run from a fresh heap whose calls each meet the conditions of their surgery is, as written, the run of the model |
| AsWrittenRuns.StepIsInner | project-3-memory-allocator/alloc.c:146-379 | in runs as written every call leaves the heap to the one call of kumalloc or kufree, as written, that the source makes for it, and fails when that does |
| HeapSpec.MallocCorrect | project-3-memory-allocator/alloc.c:35-144 | an allocation keeps tiling and coalescing, keeps every live block, answers an aligned new block that is large enough, NULL exactly for zero bytes, and fails only at the heap limit |
| HeapLaws.MallocMovesBreak | project-3-memory-allocator/alloc.c:53-91 | the break stays exactly when a free block fits or the slack covers the block; else it rises by 8192 for a block of at most 8192 bytes and by 8192 * (block / 8192 + 1) above, keeping what is left as slack; the call fails exactly when that passes the heap limit |
| HeapSpec.FreeCorrect | project-3-memory-allocator/alloc.c:159-354 | a free removes exactly one live block and leaves the slack, keeps tiling and full coalescing, gives back no range that meets a tracked region, and fails the break check only if some region is outside the live blocks |
| HeapLaws.FreeLastExact | project-3-memory-allocator/alloc.c:171-208 | freeing the last block lowers the break by its size, and by a free block right before it, each range added to the history; it fails exactly when the search reports a tracked region in one of the ranges |
| HeapLaws.FreeInsideExact | project-3-memory-allocator/alloc.c:209-353 | freeing any other block leaves break, block_end and slack alone and merges the block into the list |
| HeapLaws.FreeTrimsFirst | project-3-memory-allocator/alloc.c:183-209 | whatever the headers hold, the pass over the list comes before the merge: a listed block at block_end is given back although another block is freed |
| HeapSpec.TrimCompletes | project-3-memory-allocator/alloc.c:183-205 | one forward pass over a coalesced list in any order leaves no free block at block_end |
| HeapSpec.TrimNeedsCoalescing | project-3-memory-allocator/alloc.c:183-205 | on a list that is not coalesced one pass can leave a free block at block_end |
| HeapSpec.MergeSet | project-3-memory-allocator/alloc.c:209-353 | merging replaces exactly the free neighbours of the freed block by one block spanning them, wherever they stand in the list |
| HeapLaws.MergePlacesBoth | project-3-memory-allocator/alloc.c:237-327 | between two free blocks the merged block takes the list place of the left one, whichever of the two comes first, and the others keep their order |
| HeapLaws.MergePlacesLeft | project-3-memory-allocator/alloc.c:329-335 | with a free block before it only, the merged block takes that place |
| HeapLaws.MergePlacesRight | project-3-memory-allocator/alloc.c:337-344 | with a free block behind it only, the merged block takes that place |
| HeapLaws.MergePlacesFront | project-3-memory-allocator/alloc.c:348-352 | with no free neighbour the block goes to the front of the list |
| HeapSpec.MergeCoalesces | project-3-memory-allocator/alloc.c:237-346 | after merging no two free blocks touch and none touches block_end |
| HeapSpec.Capacity | project-3-memory-allocator/alloc.c:55-56 | a growth is a multiple of 8192 that covers the request with at most 8192 to spare, and 8192 for small requests |
| HeapSpec.SizeAlign | project-3-memory-allocator/alloc.c:30-33 | the result is the least multiple of 8 at or above the argument |
| HeapLaws.BytesConserved | project-3-memory-allocator/alloc.c:53-86 | the bytes below the break are live block bytes plus free block bytes plus slack |
| HeapLaws.TrimAccounted | project-3-memory-allocator/alloc.c:183-205 | the break stays slack bytes above block_end through the trim of any list, coalesced or not |
| HeapLaws.VisitsAccounted | project-3-memory-allocator/alloc.c:193-204 | so it does when broken links lead the cursor over any blocks in any order |
| HeapLaws.FirstFitPolicy | project-3-memory-allocator/alloc.c:43-140 | the earliest block that fits is used and a remainder keeps its list place; block_end moves only if none fits |
| HeapLaws.BatchingOptimal | project-3-memory-allocator/alloc.c:53-86 | a run of allocations of at most 8192 bytes each grows the heap exactly ceil(bytes/8192) times and keeps slack below 8192 |
| AsWritten.ReuseAsWrittenIff | project-3-memory-allocator/alloc.c:93-141 | the reuse as written dereferences NULL exactly for a last block that is not first; else it is the reuse that was meant, and keeps the heap invariant, exactly when each store that misses its node, behind the block or in the nodes before and behind it, stores what is there |
| AsWritten.ReuseAsWrittenCases | project-3-memory-allocator/alloc.c:98-131 | where addresses exceed sizes that is: room for a node behind the block (or a first block of 32 bytes halved before one of 16), for `prev` in the node behind unless line 107 forgets it, for `next` in the node before |
| AsWritten.HeaderBehind | project-3-memory-allocator/alloc.c:98-126 | the header behind the block taken, as written: 0 on an exact fit, the address of the next list entry or 0 behind a remainder of 8, that of the entry before behind 16 (for a first block what line 101 left), unchanged from 24 on |
| AsWritten.HeaderBehindSuccessor | project-3-memory-allocator/alloc.c:107-131 | the header behind a next list entry of 16 bytes: the address of what takes the place of the block, unless line 107 forgets it; unchanged for other sizes |
| AsWritten.HeaderBehindPredecessor | project-3-memory-allocator/alloc.c:117-131 | the header behind a list entry before of 8 bytes: the address of what follows it now; unchanged for other sizes |
| AsWritten.OtherHeaders | project-3-memory-allocator/alloc.c:93-141 | the block taken gets its size and every other header is kept |
| AsWritten.ReusedRest | project-3-memory-allocator/alloc.c:93-141 | list, break, block_end and slack are those of the reuse that was meant, and no header but that of the block taken appears or vanishes |
| AsWritten.MallocAsWrittenIff | project-3-memory-allocator/alloc.c:35-144 | kumalloc as written computes the allocation that was meant exactly when nothing fits or the first block that does is reused without harm |
| AsWritten.FreeAsWrittenIff | project-3-memory-allocator/alloc.c:159-354 | kufree as written computes the free that was meant exactly when that fails too, or the reads after a release stay on accessible pages, two free neighbours stand in the order that works, and every link fits into its node |
| AsWritten.MergedReversed | project-3-memory-allocator/alloc.c:253-268 | as written, the right neighbour immediately before the left one: the merge that was meant, one link stored into the node before |
| AsWritten.MergedApartReversed | project-3-memory-allocator/alloc.c:253-268 | the right neighbour before the left one with others between: the list is a cycle |
| AsWritten.MergedInside | project-3-memory-allocator/alloc.c:253-268 | the left neighbour immediately before the right one, others before both: a cycle |
| AsWritten.MergedInFront | project-3-memory-allocator/alloc.c:253-268 | the two at the front of the list: only the merged block is left and all behind it is lost |
| AsWritten.MergedAround | project-3-memory-allocator/alloc.c:253-268 | the left neighbour before the right one with others between: exactly these are lost |
| AsWritten.MergedWithLeft | project-3-memory-allocator/alloc.c:329-335 | a left neighbour only: it grows in its place and no header changes |
| AsWritten.MergedWithRight | project-3-memory-allocator/alloc.c:337-344 | a right neighbour only: replaced in its place, the link to it stored into the node before |
| AsWritten.MergedAlone | project-3-memory-allocator/alloc.c:348-352 | no neighbour: pushed in front, the link to it stored into the old first node |
| AsWritten.TrimAsWrittenExact | project-3-memory-allocator/alloc.c:183-205 | the trim as written dies exactly when the last field read lies at or above the rounded-up break, and else stores one link, the `next` of the node before the one given back |
| AsWritten.PassRunsFirst | project-3-memory-allocator/alloc.c:183-209 | and so do its failures as written: a read of a page given back ends the call whichever block is freed |
| HeapLaws.HeadersIff | project-3-memory-allocator/alloc.c:12-14 | the places of the blocks determine all headers: none, and no number of them, can change without breaking the invariant |
| AsWritten.LinkStoreIff | project-3-memory-allocator/alloc.c:16-21 | a store to `next` or `prev` of a listed node keeps the heap invariant exactly when the free block is wide enough for that field |
| AsWritten.FollowerIsLive | project-3-memory-allocator/alloc.c:98-101 | the block behind a free block is always a live one |
| HeapLaws.LastFreeIff | project-3-memory-allocator/alloc.c:171-208 | when the header of the last block holds a value v, kufree lowers the break exactly when v is its size; otherwise it leaves the break alone and lists a block of v bytes |
| AsWrittenRuns.ExactFitExample | project-3-memory-allocator/alloc.c:98-101 | a run from a fresh heap, as written, in which an exact fit clears the header of a live block |
| AsWrittenRuns.SmallNodeExample | project-3-memory-allocator/alloc.c:351 | a run from a fresh heap, as written, in which a free stores a link over the header of a live block |
| AsWrittenRuns.MissingSuccessorExample | project-3-memory-allocator/alloc.c:122-124 | a run from a fresh heap, as written, that dereferences a missing successor |
| AsWrittenRuns.ReadAfterReleaseExample | project-3-memory-allocator/alloc.c:197-199 | two large blocks freed in the order of their allocation: the second free, as written, reads a page it gave back |
| AsWrittenRuns.MergeCycleExample | project-3-memory-allocator/alloc.c:253-268 | a run from a fresh heap, as written, whose last free makes the list a cycle |
| AsWrittenRuns.MergeLosesExample | project-3-memory-allocator/alloc.c:253-268 | a run from a fresh heap, as written, whose last free loses a free block that is neither listed nor allocated afterwards |
| AsWritten.ReadAfterReleaseIff | project-3-memory-allocator/alloc.c:193-204 | the step that releases a node's block reads only accessible bytes of it afterwards exactly when the rounded-up break stays above the last field read, `next` for the first node and `prev` for any other |
| Payloads.CallocCorrect | project-3-memory-allocator/alloc.c:146-157 | the whole calloc payload is zero and no other live block changes |
| Payloads.CallocExact | project-3-memory-allocator/alloc.c:146-157 | the block is for the product rounded up to a multiple of 8; exactly that many bytes are cleared and no other byte changes |
| Payloads.ReallocKeepsContents | project-3-memory-allocator/alloc.c:356-379 | kept or moved, the block holds the first min(old payload, new size) bytes and no other live block changes; the call fails on an inaccessible page exactly when the copy over-reads, else at the heap limit |
| Payloads.ReallocExact | project-3-memory-allocator/alloc.c:367-379 | a request up to the block size, header included, is answered in place with nothing changed; any other gets a new block for the rounded size plus a header, a copy of as many bytes as the old block has, and the old block stays |
| Payloads.ReallocEdges | project-3-memory-allocator/alloc.c:356-366 | NULL is resized by an allocation, zero bytes by a free with answer NULL; no byte moves |
| Payloads.CopySourceIff | project-3-memory-allocator/alloc.c:373-377 | the bytes the copy reads are accessible exactly when they end at or below the rounded-up break; they do not only for a block at the edge of the accessible memory when a free block serves the request |
| HeapRuns.OverReadExample | project-3-memory-allocator/alloc.c:377 | a run from a fresh heap that dies in the copy |
| Payloads.ReallocLargeEnoughIff | project-3-memory-allocator/alloc.c:367-375 | the resized block is large enough exactly when the request is not in the eight bytes counted by line 369 |
| Payloads.LiveApart | project-3-memory-allocator/alloc.c:35-144 | distinct live blocks are disjoint, aligned and inside the heap |
| FreeList.ReuseLinksAsWritten | project-3-memory-allocator/alloc.c:96-140 | as written: crashes exactly when the block is last but not first; the prev links that are followed survive unless a first block with a successor is split |
| FreeList.TrimUnlinkAsWritten | project-3-memory-allocator/alloc.c:198-202 | as written: the chain is right, all prev links exactly when the node was last, the followed ones also when it was first |
| FreeList.MergeRightAsWritten | project-3-memory-allocator/alloc.c:337-344 | as written: the chain is right, the prev links exactly when the neighbour was last |
| FreeList.PushAsWritten | project-3-memory-allocator/alloc.c:209-210 | as written: the chain and the prev links that are followed are right, the new one exactly when memory happened to hold NULL |
| FreeList.MergeThreeAsWritten | project-3-memory-allocator/alloc.c:251-268 | as written: the chain survives exactly when the right neighbour stands immediately before the left one or the two are alone, the followed prev links exactly when it stands first or they are alone |
| FreeList.ThreeLost | project-3-memory-allocator/alloc.c:251-268 | otherwise the nodes between or behind the two are lost, or the list is a cycle: which, for every order |
| Allocators.Allocator.Kumalloc | project-3-memory-allocator/alloc.c:35-144 | computes Malloc on the linked list and the globals, whatever the headers hold, and keeps the heap invariant |
| Allocators.Allocator.Search | project-3-memory-allocator/alloc.c:41-50 | the loop stops at the first block in list order that is large enough |
| Allocators.Allocator.TakeFromTop | project-3-memory-allocator/alloc.c:53-91 | computes Grow in all three branches; HeapLaws.MallocMovesBreak gives the amounts |
| Allocators.Allocator.TakeFromList | project-3-memory-allocator/alloc.c:93-141 | computes Reuse, the remainder in the list place of the block |
| Allocators.Allocator.Trim | project-3-memory-allocator/alloc.c:183-205 | the loop over the list computes the one-pass trim |
| Allocators.Allocator.Visit | project-3-memory-allocator/alloc.c:193-204 | a visit to one node does one step of that pass |
| Allocators.Allocator.FindNeighbour | project-3-memory-allocator/alloc.c:212-348 | the outer loop finds the first block that touches the freed one, and on which side |
| Allocators.Allocator.FindRight | project-3-memory-allocator/alloc.c:239-275 | the inner loop finds the right neighbour wherever it stands |
| Allocators.Allocator.FindLeft | project-3-memory-allocator/alloc.c:288-327 | the inner loop finds the left neighbour wherever it stands |
| Allocators.Allocator.MergeIntoList | project-3-memory-allocator/alloc.c:209-353 | computes Merge on the linked list |
| Allocators.Allocator.Kufree | project-3-memory-allocator/alloc.c:159-354 | computes Free on the linked list and the globals, whatever the headers hold, and keeps the heap invariant |
| Allocators.Allocator.Kucalloc | project-3-memory-allocator/alloc.c:146-157 | computes Calloc |
| Allocators.Allocator.Kurealloc | project-3-memory-allocator/alloc.c:356-379 | computes Realloc, the accesses of the copy included |
| Overlay.FillInside | project-3-memory-allocator/test_framework/checked_alloc.c:121 | a fill inside a payload goes through and changes no size |
| Overlay.GapFillIff | project-3-memory-allocator/test_framework/checked_alloc.c:239 | a fill over the end of its block dies exactly at the edge of the accessible memory; else it keeps the heap invariant exactly when the block is the last one or the size behind it starts with the bytes written |
| Overlay.GapFillExact | project-3-memory-allocator/test_framework/checked_alloc.c:239 | the size behind the block, of a live or of a free one, gets the bytes written as its low bytes, and everything else stays |
| Allocators.Allocator.Fill | project-3-memory-allocator/test_framework/checked_alloc.c:121 | computes the fill on the globals and the list nodes, sizes included |
| Spans.WrittenSearchSeesTheHeadOnly | project-3-memory-allocator/test_framework/memlist.c:69-88 | the overlap search as written reports a hit exactly when the first region meets the new one |
| Spans.WrittenSearchAgreesIff | project-3-memory-allocator/test_framework/memlist.c:69-100 | it agrees with the full scan exactly when no later region meets a new one that lies behind the first |
| Spans.WrittenSearchMisses | project-3-memory-allocator/test_framework/memlist.c:83-84 | a list on which the search as written misses an overlap |
| Spans.IntendedSearchIsFullScan | project-3-memory-allocator/test_framework/memlist.c:69-100 | with the exit test in its intended direction the early-exit search is the full scan |
| Spans.SearchFindsMembers | project-3-memory-allocator/test_framework/memlist.c:79-86 | on any list a hit of the search is a real overlap |
| Memlist.RegionList.FindOverlap | project-3-memory-allocator/test_framework/memlist.c:69-88 | the linked search decides the search as written and returns its argument on a hit |
| Memlist.RegionList.FindOverlapIntended | project-3-memory-allocator/test_framework/memlist.c:69-88 | the linked search with the intended exit test |
| Memlist.RegionList.FindOverlapUnsorted | project-3-memory-allocator/test_framework/memlist.c:90-100 | non-NULL exactly when some region meets the new one |
| Memlist.RegionList.Find | project-3-memory-allocator/test_framework/memlist.c:223-232 | on a sorted list: the first region that contains the address, NULL exactly when none does |
| Memlist.RegionList.InsertFront | project-3-memory-allocator/test_framework/memlist.c:106-115 | links a detached object in front, both directions |
| Memlist.RegionList.InsertAfter | project-3-memory-allocator/test_framework/memlist.c:121-131 | links an object behind another, both directions and the tail |
| Memlist.RegionList.Remove | project-3-memory-allocator/test_framework/memlist.c:133-145 | unlinks an object and leaves it detached |
| Memlist.RegionList.Place | project-3-memory-allocator/test_framework/memlist.c:160-181 | an error exactly when the new region meets a member, else the list gains exactly it in its sorted place; the end of the search is unreachable |
| Memlist.AddRegion | project-3-memory-allocator/test_framework/memlist.c:150-182 | the same with an object from the pool; an empty region is refused |
| Memlist.InsertedSorted | project-3-memory-allocator/test_framework/memlist.c:160-178 | inserting between the regions before and after keeps the list sorted and disjoint and meets no member |
| Memlist.AllocRegionObject | project-3-memory-allocator/test_framework/memlist.c:45-56 | takes the first pool object, detached, refilling an empty pool first |
| Memlist.FreeRegionObject | project-3-memory-allocator/test_framework/memlist.c:58-61 | puts an object back so that it is the next one taken |
| Memlist.PopulateFreelist | project-3-memory-allocator/test_framework/memlist.c:28-43 | an empty pool gets 1638 fresh linked objects |
| Break.DoBrkKeepsFrontier | project-3-memory-allocator/test_framework/intercept.c:32-62 | a move reaches its target, counts itself, keeps the accessible pages exact and adds to the history the range of a lowering and nothing else; it fails exactly for a target below the heap, beyond the limit, or a lowering whose range the search reports |
| Break.LowerFailsIff | project-3-memory-allocator/test_framework/intercept.c:47-57 | with sorted regions a lowering fails exactly when the first of them meets the range given back |
| Break.MovesKeepFrontier | project-3-memory-allocator/test_framework/intercept.c:32-62 | after any sequence of moves the accessible pages are exactly those below the rounded-up break, the calls up and down are counted, and the history lists exactly the ranges lowered |
| Break.LowerSafely | project-3-memory-allocator/test_framework/intercept.c:47-60 | lowering over memory that no region meets passes the check |
| Break.AccessibleIff | project-3-memory-allocator/test_framework/intercept.c:42-60 | a range above the heap start can be accessed exactly when it ends at or below the rounded-up break |
| Break.MaskIsLeastMultiple | project-3-memory-allocator/test_framework/common.h:21 | the mask form of ALIGN_UP is the least multiple of the page size at or above its argument, on words of any width |
| ProgramBreaks.ProgramBreak.DoBrk | project-3-memory-allocator/test_framework/intercept.c:32-62 | computes the move on the globals and the linked region list, its failures included |
| ProgramBreaks.ProgramBreak.Sbrk | project-3-memory-allocator/test_framework/intercept.c:74-86 | moves by an increment and answers the old break |
| Checked.NoAssertionFires | project-3-memory-allocator/test_framework/checked_alloc.c:46-243 | with the repairs above, in every run of checked calls whose resizes survive no assertion of the wrappers or of do_brk fires except the heap limit and no inaccessible page is touched; regions end disjoint, each in its own live payload, bytes intact |
| Checked.PerformOk | project-3-memory-allocator/test_framework/intercept.c:47-57 | in each such call no range given back meets a region still tracked |
| Checked.CheckedAllocOk | project-3-memory-allocator/test_framework/checked_alloc.c:46-125 | a checked allocation of any kind fails only when the allocator does, at the heap limit; else the buffer is tracked with the next fill byte and the books agree with the heap |
| Checked.CheckedFreeOk | project-3-memory-allocator/test_framework/checked_alloc.c:144-190 | a checked free of a tracked buffer always succeeds, the books agree afterwards and no tracked region is given back |
| Checked.CheckedReallocIff | project-3-memory-allocator/test_framework/checked_alloc.c:198-244 | the books agree afterwards exactly when the request avoids the gap; when the allocator answers, the assertion of line 230 fires exactly for a fill byte of 128 or more; a page fault ends the call exactly for an over-reading copy or a fill behind a block at the edge |
| Checked.TrackedAccessible | project-3-memory-allocator/test_framework/memlist.c:234-254 | while books and heap agree every byte the data checks read is accessible |
| Checked.TrackOk | project-3-memory-allocator/test_framework/checked_alloc.c:113-123 | adding a buffer of its own block never reports an overlap or a changed byte; the books agree afterwards exactly when the payload holds the buffer, and if not the heap invariant survives exactly when the fill leaves the next size as it is |
| CheckedDetects.AcceptDetects | project-3-memory-allocator/test_framework/checked_alloc.c:96-124 | whatever the allocator answered: each check on the buffer (NULL, calloc bytes, alignment, heap bounds, overlap, tracked bytes) fires exactly when what it checks does not hold; once all pass the buffer is tracked and filled and no other byte but sizes changed |
| CheckedDetects.AnswerZeroDetects | project-3-memory-allocator/test_framework/checked_alloc.c:72-93 | the answer to a request for zero bytes passes exactly when no region contains it and no tracked byte changed |
| CheckedDetects.AllocDetects | project-3-memory-allocator/test_framework/checked_alloc.c:46-125 | a checked allocation that passes tracks the buffer the allocator answered, aligned and inside the heap |
| CheckedDetects.TrackDetects | project-3-memory-allocator/test_framework/checked_alloc.c:113-123 | which check of the tracking fires, exactly, and the books and bytes once none does |
| CheckedDetects.FreeDetects | project-3-memory-allocator/test_framework/checked_alloc.c:163-189 | in any state: an unknown pointer, a pointer into a region and a damaged region are reported exactly so; a free that passes drops one region and one live block, leaves 255 in its bytes, keeps all others and finds no region damaged |
| CheckedDetects.AnyPointer | project-3-memory-allocator/test_framework/checked_alloc.c:163-189 | while books and heap agree a checked free of any pointer is reported exactly when no buffer starts there, as unknown or as inside a buffer, and else succeeds |
| CheckedDetects.ReallocDetects | project-3-memory-allocator/test_framework/checked_alloc.c:216-240 | in any state: the same reports before the allocator is called; then the comparison fails exactly when a byte kept differs or the fill byte is 128 or more; a resize that passes replaces one region by one at the answer |
| CheckedDetects.ReallocEdgesDetect | project-3-memory-allocator/test_framework/checked_alloc.c:207-214 | NULL is resized by an allocation and zero bytes by a free |
| CheckedDetects.FillBytes | project-3-memory-allocator/test_framework/checked_alloc.c:31-39 | in every run the k-th buffer tracked is filled with (k - 1) % 254 + 1 |
| CheckedRuns.GapOfLastBlockExample | project-3-memory-allocator/test_framework/checked_alloc.c:237-240 | a run from a fresh heap in which a resize of the last block into the gap is accepted and the next allocation trips the check of the tracked bytes |
| CheckedRuns.GapOfOtherBlockExample | project-3-memory-allocator/test_framework/checked_alloc.c:237-240 | a run from a fresh heap in which such a resize overwrites the next header: the free of the last block then leaves the break where it is and puts a block of 0x0303030303030303 bytes on the free list |
| CheckedRuns.SignedCharExample | project-3-memory-allocator/test_framework/checked_alloc.c:228-232 | a run of 128 allocations and one shrinking resize that trips the assertion of line 230 |
| CheckedHeaps.CheckedHeap.CheckedAlloc | project-3-memory-allocator/test_framework/checked_alloc.c:46-125 | computes the checked allocation over the allocator and the linked region lists |
| CheckedHeaps.CheckedHeap.CheckedFree | project-3-memory-allocator/test_framework/checked_alloc.c:144-190 | computes the checked free over the same objects |
| CheckedHeaps.CheckedHeap.CheckedRealloc | project-3-memory-allocator/test_framework/checked_alloc.c:198-244 | computes the checked realloc over the same objects |
| CheckedHeaps.CheckedHeap.HasBytes | project-3-memory-allocator/test_framework/checked_alloc.c:228-232 | true exactly when every byte kept, read as a signed character, equals the fill value |
| CheckedHeaps.CheckedHeap.CheckData | project-3-memory-allocator/test_framework/memlist.c:249-254 | true exactly when every byte of every tracked region holds its fill value |
| CheckedHeaps.CheckedHeap.RegionCheckData | project-3-memory-allocator/test_framework/memlist.c:234-243 | true exactly when every byte of the region holds its fill value |
| MetroBound.WaitingBound | project-2-metro-simulation/main.cpp:106-254 | with N section threads at most 10 + 2N trains wait in every interleaving, 10 + N if test and reset are one step; the pop never meets empty queues |
| MetroBound.BoundedStep | project-2-metro-simulation/main.cpp:106-254 | every step keeps the load invariant over queued trains, risky threads, warned threads and a pending reset |
| MetroTight.BoundAttained | project-2-metro-simulation/main.cpp:106-254 | for every N > 0 some interleaving reaches 10 + 2N waiting trains |
| MetroTight.AtomicBoundAttained | project-2-metro-simulation/main.cpp:106-254 | with an atomic test and reset some interleaving reaches 10 + N |
| MetroBound.OverloadClears | project-2-metro-simulation/main.cpp:106-177 | while the flag stays set at most 10 + 2N trains still enter, the queues are empty once the backlog is spent, passages take at most seven seconds each, and the controller takes at most five steps for each and five more |
| MetroBound.ResetComes | project-2-metro-simulation/main.cpp:106-177 | every run with more controller steps than that contains the step that clears the flag, and unless a reset was pending at its start the controller finds all queues empty at that step or before it |
| MetroBound.ClearedAfterEmpty | project-2-metro-simulation/main.cpp:106-115 | the same for every run that does not keep the flag set |
| MetroBound.PendingReset | project-2-metro-simulation/main.cpp:107-115 | while a reset is pending the trains waiting are exactly those pushed since the test that found the queues empty, at most 10 + N |
| MetroTight.LateResetAttained | project-2-metro-simulation/main.cpp:107-115 | for every N > 0 some interleaving clears the flag over 10 + N waiting trains |
| MetroLaws.LogSafe | project-2-metro-simulation/main.cpp:110-115 | on every prefix of the log clearings never outnumber overloads; they alternate strictly, overload first, if the controller acts in one step; MetroHistory.LogExact counts both exactly |
| MetroLaws.TrainsSafe | project-2-metro-simulation/main.cpp:118-254 | each id is in exactly one place, the map has exactly the ids handed out, an arrival marks exactly the trains that left, and trains of one section enter in id order |
| MetroHistory.StepLogs | project-2-metro-simulation/main.cpp:111-204 | every step logs exactly its event: an overload at the step that sets a clear flag, a clearing where line 111 sees the flag set, a passing and a breakdown with the id of the train in the tunnel; each listing is ascending and holds exactly the waiting ids |
| MetroHistory.StepFlag | project-2-metro-simulation/main.cpp:106-207 | the flag is set exactly by the first check that sees more than ten trains, and cleared only by the reset |
| MetroHistory.LogExact | project-2-metro-simulation/main.cpp:106-207 | in every interleaving overloads number the steps that set a clear flag and clearings the times line 111 saw a set flag; outside a reset they differ by the open overload and by those set between line 111 and line 115, whose clearing is never logged |
| MetroHistory.TrainsExact | project-2-metro-simulation/main.cpp:118-254 | in every interleaving each train keeps the id, section and length of its push in its queue, in the tunnel and in the records; a section's trains enter in the order made and the rest wait in that order; they pass and leave in the order they entered; the log names passings and breakdowns in that order; the clock is one second, one per 100 metres and four for a breakdown, summed over the trains that left |
| MetroHistory.ThreadsExact | project-2-metro-simulation/main.cpp:189-254 | in every interleaving a thread checks exactly as often as it found the flag clear at line 191, and pushes exactly as often as it found it clear again with a train to make, but for the step it stands before |
| Metro.Longest | project-2-metro-simulation/main.cpp:119-139 | the queue chosen is a longest one and the first of those |
| Metro.Pop | project-2-metro-simulation/main.cpp:118-140 | the front of the first longest queue leaves it and the other queues stay |
| Metro.WaitingIdsOk | project-2-metro-simulation/main.cpp:72-98 | the listing is ascending and holds exactly the waiting ids |
| Stations.Station.TrainsWaiting | project-2-metro-simulation/main.cpp:80-98 | computes the listing through the priority queue |
| Stations.AddSectionQueue | project-2-metro-simulation/main.cpp:72-78 | moves a copy of the queue into the priority queue |
| Stations.Drain | project-2-metro-simulation/main.cpp:88-96 | emptying the priority queue from the top lists its elements in ascending order |
| Stations.Station.CheckForOverload | project-2-metro-simulation/main.cpp:195-209 | computes the locked check |
| Stations.Station.PushTrain | project-2-metro-simulation/main.cpp:233-254 | computes the locked push; MetroHistory.TrainsExact says what becomes of the train |
| Stations.Station.PopLongest | project-2-metro-simulation/main.cpp:118-140 | computes the locked pop |
| Stations.Station.TestEmpty | project-2-metro-simulation/main.cpp:107-109 | true exactly when no train waits |
| MetroLaws.RecordsStep | project-2-metro-simulation/main.cpp:174-176 | recording an arrival, like every other step, keeps the map to exactly the ids handed out with an arrival exactly for the trains that left |

## Left out

- ReuseAsWrittenIff: states what the stores do to headers, not what those that miss their node do to the payload behind a header.
- FreeAsWrittenIff: is about a list that is well linked but for the `prev` of its first node; what a call does to a list that an earlier call left badly linked is not modelled, and links are not bytes of the heap.
- RunAsMeant: goes one way; runs with a call that misses its condition are followed up to that call only.
- Fill: once a size has been overwritten the model follows the sizes, the fills and the break, but not what kucalloc and kurealloc then write over further sizes, nor list nodes on inaccessible pages.
- TrackedAccessible: says nothing about the wrappers' reads once books and heap disagree.
- Narrowing of sizes to int in alloc.c, overflow of nmemb * size and 64-bit wrap-around of addresses: integers are unbounded.
- Failure of sbrk other than the assertions of do_brk, and other users of the break: one allocator owns a contiguous heap whose start is known from the beginning (init_heap runs lazily in the program).
- The predecessor search of alloc.c:118-139: the repaired list finds the predecessor through `prev`; the loop is kept in ReuseLinksAsWritten.
- zero_sized_allocs: kumalloc answers zero bytes with NULL, so the list stays empty; freed_allocs is never read and its objects just leave the tracked list.
- The system allocator paths of checked_alloc.c, checked_alloc's split of even sizes, the counters and dumps of memlist.c, the mmap family and the dlsym wrappers.
- main.c, tests.c, check.py and the malloc/calloc/realloc/free aliases.
- Metro: destinations, wall-clock time, log formatting, thread cancellation and argument parsing; random draws and scheduling are free choices of the run, and no fairness is assumed.
- Metro: interleavings inside the locked check between the test of the flag and its write, and torn reads of queues by listings taken without the lock.
- The shell, the kernel module and the plotting script: terminal and process plumbing with no state of this depth.
