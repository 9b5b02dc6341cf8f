# turtle-db storage stack: a verified model

turtle-db keeps tables in files of 4096-byte pages. This project models the
path of a row from bytes on a page up to the batches a query pulls, and proves
what each layer promises to the one above.

- **Slotted page** (`PageLayout`, `PageSteps`, `SlottedPage`, `PageHistory`,
  `PageRuns`).
  One byte array holds header, slot array and tuples. `SlottedPage` changes it
  in place; `Value()` is what the page means, one byte string for each slot.
- **Table heap and iterator** (`HeapChain`, `TableHeap`). A linked chain of
  pages that refines a map from record ids to byte strings, and a cursor over it.
- **Operators** (`RowLists`, `Executors`, `Modify`). Scan, filter and projection
  pulled in batches, and DELETE and UPDATE over a scan of the same table.
- **Replacer** (`ArcPolicy`, `ArcInvariant`, `ArcReplacer`), **buffer pool**
  (`BufferPool`, `PoolInvariant`, `BufferPoolManager`) and **page guards**
  (`PageGuard`, `GuardProtocol`, `GuardInvariant`, `GuardHistory`,
  `GuardRuns`). Objects that change in
  place are tied to functions on values; the properties are proved about those.
  `GuardProtocol` is a transition system of any number of threads.
- **Row codec** (`RowCodec`, `Tuple`), **checked integers**
  (`CheckedArithmetic`), **timestamps** (`Timestamp`) and **aggregation**
  (`Aggregation`, `AggregationTable`).

`Config.dfy` holds constants, bytes and two arithmetic facts.

Where code and comments disagree, the model follows the code:

- `src/storage/table/table_heap.cpp:79-94` looks for a page with room and says
  it falls back to the last page; it always uses the last page.
- `src/storage/table/tuple.cpp:32-36` reserves room for NULL columns but does
  not move past it, while the walk at lines 112-123 does. A NULL in front of a
  value therefore loses the row's later columns: `RowCodec.RoundTripIffNullsLast`.
- `src/datatype/varchar_type.cpp:100-104` reads an empty string as NULL.
- `src/storage/table/table_heap.cpp:111-112` reports a tuple too large for a
  page; it also stops on a small tuple if the last page has only deleted slots
  and a long slot array. This can happen exactly for tuples of more than 456
  bytes: `HeapChain.AbortReachableIff`.
- `src/storage/table/table_iterator.cpp:22-26` returns in place if the pool has no
  frame, and the scan goes on with the bytes of the row before:
  `TableHeap.ScanAll`, `TableHeap.PhantomRow`.
- `src/buffer/buffer_pool_manager.cpp:346-352` deletes a dirty page without writing
  it back, and the next read finds the older contents on disk:
  `GuardInvariant.ReaderSeesLastWrite`, `GuardRuns.DeletedWriteIsLost`.
- `src/execution/executors/delete_executor.cpp:67-68` counts a row even if it was
  not deleted for want of a frame: `Modify.DeleteWhere`.
- `src/execution/executors/update_executor.cpp:89-93` loses a row that is deleted
  but gets no frame to be stored again: `Modify.UpdateRows`.
- `include/turtle/datatype/value_factory.hpp:541-544` checks the zone before 12
  is added to it, so zones outside -12 to +14 are accepted and print wrongly.
- Merging accumulators of COUNT (`src/execution/aggregation/functions/basic_functions.cpp:19-33`)
  looks for `CmpNull`, which no accumulator has; the merged `is_null` may differ
  from the folded one, the final value does not.

## Model

| member | source | states |
|---|---|---|
| `SlottedPage.SlottedPage.Init` | src/storage/page/slotted_page.cpp:9-16 | A fresh header means the empty page; the page is well formed exactly if the dead-space field, which is not written, was already zero |
| `SlottedPage.SlottedPage.FreeSpaceRemaining` | src/storage/page/slotted_page.cpp:32-38 | The gap below the free pointer plus the dead bytes is the usable space of the page's meaning |
| `SlottedPage.SlottedPage.UsableSpace` | src/storage/page/slotted_page.cpp:49-51 | The reported number is 4096 − 24 − 8·slots − live bytes, computed from header fields only |
| `SlottedPage.SlottedPage.IsSlotOccupied` | src/storage/page/slotted_page.cpp:53-58 | True exactly for slots that hold a live tuple |
| `SlottedPage.SlottedPage.GetTuple` | include/turtle/storage/page/slotted_page.hpp:147-159 | Returns exactly the bytes stored for a live slot; a foreign or out-of-range id and a deleted slot are two different errors |
| `SlottedPage.SlottedPage.DeleteTuple` | src/storage/page/slotted_page.cpp:18-30 | Empties exactly the named slot, leaves a deleted slot alone, and a rejected id changes no byte |
| `SlottedPage.SlottedPage.InsertTuple` | include/turtle/storage/page/slotted_page.hpp:91-145 | Accepts exactly if the tuple (plus 8 bytes if no slot is free) fits the usable space; then it lands in the lowest free slot and every other slot keeps its bytes, compacted or not; a refusal changes no byte of the page |
| `SlottedPage.SlottedPage.Compact` | src/storage/page/slotted_page.cpp:66-100 | Every slot keeps number, length and bytes; afterwards nothing is dead and the free pointer is 4096 minus the live bytes |
| `PageSteps.PackStep` | src/storage/page/slotted_page.cpp:77-88 | One copy into the packed buffer keeps all slots packed so far although their offsets are overwritten while later ones are still read from the old bytes |
| `PageSteps.CursorAboveSlots` | src/storage/page/slotted_page.cpp:73-79 | The compaction cursor never enters the slot array nor underflows |
| `PageSteps.AllocatedSound` | include/turtle/storage/page/slotted_page.hpp:117-137 | Allocation keeps live ranges disjoint, in bounds and off the slot array, and every byte above the free pointer accounted for |
| `PageSteps.ReleasedSound` | src/storage/page/slotted_page.cpp:24-29 | Deletion keeps the account: the freed bytes become dead bytes |
| `SlottedPage.SlottedPage.SetNextPageId` | include/turtle/storage/page/slotted_page.hpp:30-32 | Sets the link and nothing else that the page means |
| `SlottedPage.SlottedPage.PageId` | src/storage/page/slotted_page.cpp:40-40 | Reads the page's own id |
| `PageHistory.SoundInCapacity` | src/storage/page/slotted_page.cpp:32-38 | Disjoint, in-bounds and accounted bytes imply that slot array and live tuples fit the page |
| `PageHistory.InsertMeans` | include/turtle/storage/page/slotted_page.hpp:91-145 | An insertion binds one slot that was free; the tuple counter stays right exactly if the tuple is not empty |
| `PageHistory.DeleteMeans` | src/storage/page/slotted_page.cpp:18-30 | A deletion unbinds one slot and gives its bytes back to the usable space |
| `PageHistory.HistoryRefinesMap` | include/turtle/storage/page/slotted_page.hpp:91-145 | Over every history of insertions and deletions the page is the plain map that the reported effects describe, within capacity and correctly counted |
| `PageRuns.Perform` | include/turtle/storage/page/slotted_page.hpp:91-159 | The same on bytes: performing a history on a page object leaves bytes that mean what the run on values says, and a plain map after the same reported effects |
| `PageHistory.InsertFewSlots` | include/turtle/storage/page/slotted_page.hpp:97-124 | A slot is added only when all others are live, so no insertion takes a page beyond 452 slots |
| `PageHistory.HistoryFewSlots` | include/turtle/storage/page/slotted_page.hpp:97-124 | No history of insertions and deletions reaches more than 452 slots |
| `PageHistory.SpaceCheckExactIff` | include/turtle/storage/page/slotted_page.hpp:107-115 | The 32-bit space check agrees with the true one exactly if the needed space does not wrap, or wraps beyond the usable space |
| `PageHistory.SpaceCheckWraps` | include/turtle/storage/page/slotted_page.hpp:107-115 | A concrete size for which the 32-bit check accepts a tuple that cannot fit |
| `HeapChain.InsertTable` | src/storage/table/table_heap.cpp:104-108 | Storing on one page of the chain adds exactly one fresh record to the table and keeps the chain |
| `HeapChain.DeleteTable` | src/storage/table/table_heap.cpp:136-150 | Deleting on one page removes exactly that record and keeps the chain |
| `HeapChain.ExtendedChained` | src/storage/table/table_heap.cpp:121-129 | Linking a fresh page behind the last one keeps the chain acyclic with strictly increasing page ids |
| `HeapChain.RowsExact` | src/storage/table/table_iterator.cpp:18-50 | From any position the scan meets exactly the live records at or after it, ordered, each once, with its bytes |
| `HeapChain.ScanIsTable` | src/storage/table/table_iterator.cpp:7-56 | A scan from begin() meets every record of the table exactly once and nothing else |
| `HeapChain.RowsFromFrame` | src/storage/table/table_iterator.cpp:18-50 | What a scan still meets depends only on the records at or after its position, so changes behind it do not matter |
| `HeapChain.OrderedUnique` | src/storage/table/table_iterator.cpp:18-50 | Two ordered row lists with the same rows are the same list |
| `HeapChain.AbortsIff` | src/storage/table/table_heap.cpp:105-112 | For a tuple that fits an empty page the insert terminates the process exactly if all slots of the last page are deleted and its slot array leaves too little room |
| `HeapChain.SureRoom` | src/storage/table/table_heap.cpp:105-112 | A page that insertions and deletions can produce never aborts a tuple of up to 456 bytes |
| `HeapChain.AbortsAfterFill` | src/storage/table/table_heap.cpp:105-112 | After filling a page with one-byte tuples and deleting them all, every tuple of more than 456 bytes aborts |
| `HeapChain.AbortReachableIff` | src/storage/table/table_heap.cpp:105-112 | For a tuple that fits an empty page, some history leads to an abort exactly if it has more than 456 bytes |
| `TableHeap.TableHeap.Create` | src/storage/table/table_heap.cpp:16-46 | A new heap is one empty page, an empty table, and its usable space recorded |
| `TableHeap.TableHeap.Open` | src/storage/table/table_heap.cpp:49-73 | Reopening finds the last page of the chain and the same contents exactly if every page read gets a frame; otherwise the last page stays invalid |
| `TableHeap.TableHeap.InsertTuple` | src/storage/table/table_heap.cpp:75-134 | Which of stored, refused and aborted happens, for every case of frames and room, and the pages after it; a stored tuple has a fresh id, no other record moves or changes, free-space entries stay exact and are made for exactly the pages touched; tuples of up to 456 bytes never abort |
| `TableHeap.TableHeap.MarkDelete` | src/storage/table/table_heap.cpp:136-150 | Removes exactly the named record and records its page's usable space; an id without a slot, on whatever page, or a missing frame changes nothing |
| `TableHeap.TableHeap.GetTuple` | src/storage/table/table_heap.cpp:152-164 | Finds exactly the table's bytes, throws exactly for ids without a record |
| `TableHeap.TableIterator.Begin` | src/storage/table/table_heap.cpp:166-168 | begin() has all rows of the table ahead of it, and enough page reads, exactly if the pool serves one read for each row and each page |
| `TableHeap.TableIterator.AdvanceToValid` | src/storage/table/table_iterator.cpp:18-50 | Loads the first live row at or after the position, across pages, using up one read for each page visited; a read without a frame stops it in place with the bytes of the row before |
| `TableHeap.TableIterator.Next` | src/storage/table/table_iterator.cpp:52-56 | Drops exactly the current row if the reads are served; otherwise stands on the next slot with stale bytes |
| `TableHeap.TableIterator.Batch` | src/execution/executors/seq_scan_executor.cpp:31-46 | With all reads served, the next min(n, remaining) rows; without, always n rows, for the cursor never comes to the end |
| `TableHeap.StopOrLeave` | src/storage/table/table_iterator.cpp:31-46 | A scan makes one page read for each row it meets and one for each page it leaves |
| `TableHeap.ScanAll` | src/execution/executors/seq_scan_executor.cpp:18-46 | A scan yields exactly the rows of the table if and only if every page read it makes gets a frame |
| `TableHeap.PhantomRow` | src/storage/table/table_iterator.cpp:22-26 | A scan that runs out of frames yields the bytes of one row under the record id of the next |
| `Executors.Executor.Next` | src/execution/executors/filter_executor.cpp:33-104 | Any chain of filters and projections over a scan whose page reads are served: each batch is the front of the mapped and filtered rows still pending, at most n rows if pulled with one fixed n, and fewer than n only when nothing is left; and the call terminates |
| `Executors.Executor.NextFilter` | src/execution/executors/filter_executor.cpp:33-104 | The filter keeps that contract with its carry-over offset across batches |
| `Executors.Executor.NextProject` | src/execution/executors/projection_executor.cpp:34-104 | The projection keeps that contract with its carry-over offset across batches |
| `Executors.Executor.SiftRound` | src/execution/executors/filter_executor.cpp:84-102 | One fetched batch: rows handed on plus rows kept for later are the filtered batch, in order |
| `Executors.Executor.EmitRound` | src/execution/executors/projection_executor.cpp:74-101 | One fetched batch: rows handed on plus rows kept for later are the mapped batch, in order |
| `RowLists.KeepConcat` | src/execution/executors/filter_executor.cpp:52-103 | Filtering batch by batch is filtering the whole list |
| `RowLists.ApplyConcat` | src/execution/executors/projection_executor.cpp:74-88 | Projecting batch by batch is projecting the whole list |
| `RowLists.KeepOrdered` | src/execution/executors/filter_executor.cpp:84-102 | A filter keeps the order of the scan |
| `RowLists.ApplyOrdered` | src/execution/executors/projection_executor.cpp:74-88 | A projection keeps the order of the scan |
| `Modify.DeleteBehind` | src/execution/executors/delete_executor.cpp:66-67 | Deleting a row behind the scan, or failing to, leaves everything the child has yet to yield unchanged |
| `Modify.Delete` | src/execution/executors/delete_executor.cpp:61-70 | Deleting batch by batch while the child still scans removes exactly those rows of the unchanged table for whose page the pool has a frame, and counts all rows pulled |
| `Modify.DeleteWhere` | src/execution/executors/delete_executor.cpp:52-83 | DELETE with a predicate removes exactly the matching records whose deletion gets a frame; the reported number is that of the matching records, and is the number removed exactly if every deletion gets a frame |
| `Modify.TakenCount` | src/execution/executors/delete_executor.cpp:65-70 | As many records are removed as rows counted exactly if every row is served |
| `Modify.FilteredScan` | src/execution/executors/seq_scan_executor.cpp:31-46 | A filtered scan yields exactly the matching records, ordered |
| `Modify.RewriteStep` | src/execution/executors/update_executor.cpp:88-93 | Delete then insert keeps the account of untouched and rewritten rows even when the new id reuses a deleted one |
| `Modify.RewriteLoses` | src/execution/executors/update_executor.cpp:88-93 | A row deleted but not stored again is lost, and the account of all others stays |
| `Modify.UpdateOne` | src/execution/executors/update_executor.cpp:88-93 | The fate of one row and the pages after it, as deletion and insertion on values give them; every other record stays |
| `Modify.Materialise` | src/execution/executors/update_executor.cpp:61-72 | The gathered rows are all rows the child had, in order |
| `Modify.UpdateRows` | src/execution/executors/update_executor.cpp:74-94 | For any supply of frames: which rows are stored is what replaying deletions and insertions on values gives; each stored row is replaced once by its image; rows without a frame for their deletion and all other records are untouched; the count is the number stored; with full supplies all are. It stops exactly at the first row whose replay aborts, which images of up to 456 bytes never do |
| `Modify.UpdateWhere` | src/execution/executors/update_executor.cpp:48-107 | UPDATE over a scan of the same table: the rows are the matching ones, each once, in scan order; with enough frames each is rewritten exactly once and no other row is touched (no Halloween effect), and it is done whenever images have up to 456 bytes |
| `ArcInvariant.EvictKeeps` | src/buffer/arc_replacer.cpp:11-64 | Eviction removes one evictable live frame, remembers its page, and keeps all list, map, tag, count and bound invariants |
| `ArcInvariant.EvictChooses` | src/buffer/arc_replacer.cpp:49-64 | Eviction fails exactly if every live frame is pinned; else it takes the least recent evictable frame of the side over target, or of the other side if that one is all pinned, remembers its page on that side, and keeps the order of the others and the target |
| `ArcInvariant.RecordAccessKeeps` | src/buffer/arc_replacer.cpp:71-144 | Every access keeps the invariants, including mru+ghosts at most c, all lists at most 2c, and target at most c |
| `ArcInvariant.MissCases` | src/buffer/arc_replacer.cpp:121-138 | On a miss the cases the code does not handle cannot arise, so the equality test at line 124 is enough |
| `ArcInvariant.AccessPlaces` | src/buffer/arc_replacer.cpp:71-144 | Where an access puts its frame, and that a ghost hit moves the target by exactly the step due, the whole ratio of the ghost lists or one, toward the missed side and within the capacity |
| `ArcInvariant.DueIsUnique` | src/buffer/arc_replacer.cpp:97-105 | Between two ghost lists there is only one step due, and it is at least one |
| `ArcInvariant.MissForgetsOldest` | src/buffer/arc_replacer.cpp:121-143 | A miss forgets a ghost only if its directory is full, and then the least recent of that side |
| `ArcInvariant.SetEvictableKeeps` | src/buffer/arc_replacer.cpp:146-163 | The evictable count stays exact, only the named frame changes, and no list, ghost or target does |
| `ArcInvariant.RemoveKeeps` | src/buffer/arc_replacer.cpp:165-184 | Removal terminates the process exactly for a live pinned frame, and otherwise takes exactly that frame from its list and keeps the invariants |
| `ArcInvariant.RunsKeepInv` | src/buffer/arc_replacer.cpp:11-184 | The invariants hold in every state that any legal run of operations reaches |
| `ArcReplacer.ArcReplacer.ScanBackward` | src/buffer/arc_replacer.cpp:23-28 | The backward loop finds the least recent evictable frame, if there is one |
| `ArcReplacer.ArcReplacer.TryEvict` | src/buffer/arc_replacer.cpp:21-47 | Keeps the invariants; takes the least recent evictable frame of the side to that side's ghosts, failing exactly if the side is all pinned |
| `ArcReplacer.ArcReplacer.Evict` | src/buffer/arc_replacer.cpp:11-64 | Keeps the invariants; fails exactly if no frame is evictable, and otherwise makes the choice that EvictChooses describes |
| `ArcReplacer.ArcReplacer.RecordAccess` | src/buffer/arc_replacer.cpp:71-144 | Keeps the invariants; the frame becomes the most recent of its side, all other frames stay, the target moves by the step due, and a miss forgets only the oldest ghost of a full directory |
| `ArcReplacer.ArcReplacer.SetEvictable` | src/buffer/arc_replacer.cpp:146-163 | Keeps the invariants; afterwards exactly the named live frame has the given mark and the counter is the number of evictable frames |
| `ArcReplacer.ArcReplacer.Remove` | src/buffer/arc_replacer.cpp:165-184 | Terminates the process exactly for a live frame that is not evictable; otherwise forgets exactly that frame and keeps the invariants |
| `PoolInvariant.AcquireKeeps` | src/buffer/buffer_pool_manager.cpp:180-203 | Finding a frame fails exactly if every frame is pinned; otherwise it is the first free frame, or else the replacer's choice, was unpinned and belongs to nobody |
| `PoolInvariant.AcquireShown` | src/buffer/buffer_pool_manager.cpp:194-203 | Writing the victim back before dropping it changes nothing that the cache shows |
| `PoolInvariant.FetchKeeps` | src/buffer/buffer_pool_manager.cpp:163-219 | A fetch fails exactly if the page is not resident and all frames are pinned; it pins the right frame once more, changes no page's contents, and writes back exactly a dirty victim; a hit makes the page's frame the most recent, a miss brings it into the frame found as an access of the replacer; frames still split into the free list and the table's image, evictable exactly if unpinned |
| `PoolInvariant.HitUses` | src/buffer/buffer_pool_manager.cpp:170-179 | A fetch of a resident page counts as an access of its frame |
| `PoolInvariant.InstallEnters` | src/buffer/buffer_pool_manager.cpp:205-218 | A page brought into the frame found counts as an access of that frame, after the eviction that found it |
| `PoolInvariant.NewPageKeeps` | src/buffer/buffer_pool_manager.cpp:281-325 | A new page fails exactly if all frames are pinned; else it adds one fresh zeroed page in the frame found, as an access of the replacer, and changes no other page |
| `PoolInvariant.UnpinCoupled` | src/buffer/buffer_pool_manager.cpp:221-247 | Unpinning succeeds exactly for a resident pinned page, changes one pin count and dirty mark, no contents and no order of eviction |
| `PoolInvariant.UnpinKeeps` | src/buffer/buffer_pool_manager.cpp:221-247 | A leaving writer that marks its page dirty keeps every clean unwritten frame equal to the disk |
| `PoolInvariant.WriteBackKeeps` | src/buffer/buffer_pool_manager.cpp:249-265 | Flushing a page changes no contents and makes the disk equal to its frame |
| `PoolInvariant.FlushFirstKeeps` | src/buffer/buffer_pool_manager.cpp:267-279 | Flushing all saves exactly the dirty pages and changes no contents; afterwards no frame visited is dirty |
| `PoolInvariant.DeleteKeeps` | src/buffer/buffer_pool_manager.cpp:327-354 | Deletion is refused exactly for a pinned page, never makes the replacer terminate, clears exactly that page's frame, puts it last on the free list and touches no other |
| `PoolInvariant.DeleteKeepsShownIff` | src/buffer/buffer_pool_manager.cpp:327-354 | Whatever the frame holds, deleting the page keeps what it shows exactly if the page is pinned or its frame clean |
| `PoolInvariant.DeleteShows` | src/buffer/buffer_pool_manager.cpp:327-354 | Deletion changes what is shown only for its own page, and only if it throws away bytes of a dirty frame that were never written back |
| `PoolInvariant.WriteKeeps` | src/buffer/buffer_pool_manager.cpp:163-219 | A write through a pinned frame changes exactly its own page |
| `PoolInvariant.PinnedIsLive` | src/buffer/buffer_pool_manager.cpp:163-219 | A pinned frame is live and still maps to its page |
| `BufferPoolManager.BufferPoolManager.constructor` | src/buffer/buffer_pool_manager.cpp:19-35 | A new pool has every frame free and an empty table, and satisfies the coupling invariant |
| `BufferPoolManager.BufferPoolManager.AcquireFrame` | src/buffer/buffer_pool_manager.cpp:180-203 | Fails exactly if every frame is pinned; the frame found was unpinned, is held by nobody, and all other pages stay mapped |
| `BufferPoolManager.BufferPoolManager.FetchPage` | src/buffer/buffer_pool_manager.cpp:163-219 | The object's new state and result are those of the pool on values, with the fetch property above |
| `BufferPoolManager.BufferPoolManager.NewPage` | src/buffer/buffer_pool_manager.cpp:281-325 | The same for allocation |
| `BufferPoolManager.BufferPoolManager.UnpinPage` | src/buffer/buffer_pool_manager.cpp:221-247 | The same for unpinning |
| `BufferPoolManager.BufferPoolManager.FlushPage` | src/buffer/buffer_pool_manager.cpp:249-265 | The same for flushing one page, which then equals the disk |
| `BufferPoolManager.BufferPoolManager.FlushAllPages` | src/buffer/buffer_pool_manager.cpp:267-279 | The loop writes back every dirty page: nothing is dirty afterwards and nothing shown has changed |
| `BufferPoolManager.BufferPoolManager.DeletePage` | src/buffer/buffer_pool_manager.cpp:327-354 | The same for deletion; the replacer's terminate check is never hit |
| `PageGuard.PageGuard.constructor` | src/storage/page/write_page_guard.cpp:7-12 | A guard over a page holds its latch |
| `PageGuard.PageGuard.Drop` | src/storage/page/write_page_guard.cpp:48-56 | Releases latch and pin exactly once, marks the page dirty exactly for a write guard, and does nothing the second time |
| `PageGuard.PageGuard.MoveAssign` | src/storage/page/write_page_guard.cpp:20-30 | Drops the page held before, takes over the other guard's duty and leaves the other empty; assigning to itself changes nothing |
| `PageGuard.OpenGuard` | src/buffer/buffer_pool_manager.cpp:91-100 | Opening a guard fetches and locks, and fails exactly if the fetch does |
| `PageGuard.PinRoundTrip` | src/storage/page/read_page_guard.cpp:40-48 | Fetch and unpin give every frame the pins it had and change nothing shown |
| `GuardInvariant.StepKeeps` | src/storage/page/write_page_guard.cpp:7-56 | Every enabled step of the pin, lock, write, unlock, unpin protocol, of flushing, allocation and deletion is defined, does not terminate the process and keeps the invariant |
| `GuardInvariant.StartInvariant` | src/buffer/buffer_pool_manager.cpp:19-35 | The invariant holds for a fresh pool |
| `GuardInvariant.RunsKeepInv` | src/buffer/buffer_pool_manager.cpp:163-354 | The invariant holds in every state any interleaving reaches |
| `GuardInvariant.LatchedIsPinned` | src/storage/page/write_page_guard.cpp:7-12 | In every reachable state a guard's page is pinned in the guard's frame, still mapped there and not evictable |
| `GuardInvariant.WriterIsAlone` | src/storage/page/write_page_guard.cpp:7-12 | In every reachable state a latched writer excludes every other latched guard of its page |
| `GuardHistory.GuardsAreAsAsked` | src/storage/page/write_page_guard.cpp:7-12 | In every reachable state each guard has the mode and page that its last request in the run asked for, and the phase that its later steps brought it to, read off the steps alone |
| `GuardHistory.LockedWriterIsAlone` | src/storage/page/write_page_guard.cpp:7-12 | If the steps of a run asked for a guard for writing and locked it, no other guard they have locked is on the same page |
| `GuardHistory.StepGuards` | src/buffer/buffer_pool_manager.cpp:163-219 | A pin gives its guard unless the page is not resident and every frame has a guard, an allocation unless every frame has one; only a drop takes a guard away |
| `GuardHistory.LockIff` | src/storage/page/read_page_guard.cpp:7-12 | In every reachable state a guard may take its latch exactly if it waits for it and no guard holding the same page excludes it: readers share, a writer is alone |
| `GuardHistory.StepsInOrder` | src/storage/page/write_page_guard.cpp:48-56 | In every reachable state a guard may write exactly if asked for writing and locked, unlock exactly if locked, and drop its pin exactly after that |
| `GuardHistory.RecordsChange` | src/storage/page/write_page_guard.cpp:48-56 | Only the unlock of a write guard changes what counts as the last completed write of its page; only a deletion that throws away unsaved bytes loses it |
| `GuardHistory.DropLeaves` | src/storage/page/write_page_guard.cpp:48-56 | A drop takes one pin from its page, marks it dirty exactly for a write guard, and changes no other frame and no order of eviction |
| `GuardRuns.SecondWriterWaits` | src/storage/page/write_page_guard.cpp:7-12 | Two write guards pinned on one page: the second cannot lock while the first holds the latch and can write |
| `GuardInvariant.ReaderSeesLastWrite` | src/storage/page/read_page_guard.cpp:7-12 | In every reachable state a latched reader sees the last completed write exactly if no deletion has thrown away unsaved bytes of the page since that write |
| `GuardInvariant.CleanEqualsDisk` | src/buffer/buffer_pool_manager.cpp:221-265 | In every reachable state a clean frame without a write pin equals the disk |
| `GuardInvariant.StepTransparent` | src/buffer/buffer_pool_manager.cpp:163-354 | Each step changes what is shown and what is on disk by exactly its events on a plain store without a cache |
| `GuardInvariant.CacheIsTransparent` | src/buffer/buffer_pool_manager.cpp:163-354 | Over every run, what the cache shows and what is on disk are what the run's writes, write-backs, allocations and discards make of a plain store |
| `GuardRuns.DeletedWriteIsLost` | src/buffer/buffer_pool_manager.cpp:327-354 | Create, lock, write, unlock, drop, delete, pin, lock: the reader sees zeros instead of the completed write |
| `GuardRuns.FlushedWriteSurvives` | src/buffer/buffer_pool_manager.cpp:249-265 | The same run with a flush before the deletion: the reader sees the completed write |
| `RowCodec.SetBitIsOr` | src/storage/table/tuple.cpp:34-36 | Setting a bitmap bit sets that bit and no other |
| `RowCodec.BitmapIsExact` | src/storage/table/tuple.cpp:33-37 | The bitmap marks exactly the NULL columns |
| `RowCodec.OffsetIsReserved` | src/storage/table/tuple.cpp:110-123 | If NULLs come last the offset walk finds every column |
| `RowCodec.ColumnReadBack` | src/storage/table/tuple.cpp:102-136 | If NULLs come last every column is read back, except that an empty string becomes NULL |
| `RowCodec.RoundTripIffNoEmptyString` | src/storage/table/tuple.cpp:11-43 | A row whose NULLs come last round trips exactly if no string is empty |
| `RowCodec.WitnessLost` | src/storage/table/tuple.cpp:112-123 | For a NULL in front of a value, a row that is not read back |
| `RowCodec.RoundTripIffNullsLast` | src/storage/table/tuple.cpp:11-136 | For every schema and choice of NULL columns: all rows without empty strings round trip exactly if the NULLs come last |
| `RowCodec.ReadBack` | src/datatype/varchar_type.cpp:89-107 | A stored value is read back from its place, and the walk steps over exactly its bytes |
| `RowCodec.ReadNullIff` | src/datatype/varchar_type.cpp:100-107 | A number reads as NULL exactly if its bits are the least of its width (the lowest double, the greatest timestamp), a string exactly if its length is zero or the greatest |
| `RowCodec.NextOverString` | src/storage/table/tuple.cpp:114-118 | The walk steps over a string by its length and four, wrapping exactly for the four greatest lengths |
| `RowCodec.BitmapSizeIsLeast` | src/storage/table/tuple.cpp:16-16 | The bitmap is the fewest bytes that have a bit for every column |
| `Tuple.Serialize` | src/datatype/varchar_type.cpp:89-98 | Writes exactly length and bytes at the cursor |
| `Tuple.EncodeColumn` | src/storage/table/tuple.cpp:33-42 | Writing one column turns one image of the row into the next |
| `Tuple.Tuple.constructor` | src/storage/table/tuple.cpp:11-43 | The buffer built column by column is the encoding of the row |
| `Tuple.Tuple.Value` | src/storage/table/tuple.cpp:102-136 | The loop reads the column that the decoding on values gives |
| `CheckedArithmetic.DivisionDetects` | include/turtle/datatype/integer_parent_type.hpp:141-150 | Dividing the wrapped product by one factor gives back the other only if nothing was lost |
| `CheckedArithmetic.MultiplyIsExact` | include/turtle/datatype/integer_parent_type.hpp:129-151 | For operands of any two widths that are not NULL: throws exactly if the true product does not fit the wider width, else stores it exactly (NULL exactly for the least number) |
| `CheckedArithmetic.AddIsExact` | include/turtle/datatype/integer_parent_type.hpp:81-103 | The same for addition |
| `CheckedArithmetic.NullOperandTraps` | include/turtle/datatype/integer_parent_type.hpp:140-146 | With the least number as operand the check itself would trap |
| `Timestamp.AcceptedIsText` | include/turtle/datatype/value_factory.hpp:486-544 | What is accepted is, in normal form, the text of an existing date in a zone up to +26 |
| `Timestamp.CastAccepts` | include/turtle/datatype/value_factory.hpp:486-544 | The text of an existing date is accepted exactly in zones up to +26 |
| `Timestamp.InRangeIsCalendar` | include/turtle/datatype/value_factory.hpp:523-540 | The range checks accept exactly the dates of the Gregorian calendar, by calendar arithmetic, and times of day |
| `Timestamp.CastOfForm` | include/turtle/datatype/value_factory.hpp:486-556 | For every text of some fields, long or without microseconds, zone zero with either sign: out of range exactly if the date does not exist, a format error for zones beyond +26, else the packed number |
| `Timestamp.CastOfOther` | include/turtle/datatype/value_factory.hpp:486-522 | Every string that is not such a text is a format error |
| `Timestamp.PrintOfForm` | src/datatype/timestamp_type.cpp:91-130 | Every text of an existing date in the zones -12 to +14, long or short, is printed with microseconds and zone zero as +00, but for the one lost date |
| `Timestamp.PackedDigits` | include/turtle/datatype/value_factory.hpp:541-556 | What each field weighs in the packed number, for every zone |
| `Timestamp.PackFits` | include/turtle/datatype/value_factory.hpp:541-556 | In zones -12 to +14 packing never wraps and stays at most the largest timestamp |
| `Timestamp.UnpackOfPack` | src/datatype/timestamp_type.cpp:91-114 | In those zones unpacking inverts packing |
| `Timestamp.PackIsInjective` | include/turtle/datatype/value_factory.hpp:541-556 | In those zones different dates pack to different numbers |
| `Timestamp.LostIsMinimum` | include/turtle/datatype/value_factory.hpp:34-36 | The one date that packs to 2^63, which reads as NULL |
| `Timestamp.RoundTripIff` | src/datatype/timestamp_type.cpp:91-130 | An accepted text is printed back in normal form exactly if its zone is between -12 and +14 and it is not that one date |
| `Timestamp.CastAsTimestamp` | include/turtle/datatype/value_factory.hpp:486-557 | The checks and 64-bit packing steps in order give the cast on values |
| `Timestamp.ToString` | src/datatype/timestamp_type.cpp:91-130 | Peeling the fields off step by step gives back the accepted text a value came from, in normal form, in the zones -12 to +14 and but for the date that reads as NULL |
| `Aggregation.FoldHolds` | src/execution/aggregation/functions/basic_functions.cpp:9-197 | Folded row by row, the accumulators hold the number of rows, the number, total, least and greatest of the values that are not NULL |
| `Aggregation.FinalValue` | src/execution/aggregation/functions/moment_functions.cpp:44-55 | What each function yields over a column: exact counts below 2^31 and 2^63, the true total, the true total over the number of values for AVG, the least and greatest value; all but the counts throw without any value |
| `Aggregation.MergeHolds` | src/execution/aggregation/functions/basic_functions.cpp:19-33 | Merging accumulators of two parts gives one that holds the whole |
| `Aggregation.MergeIsFold` | src/execution/aggregation/functions/moment_functions.cpp:14-55 | For any split of the input, finalize after merge equals finalize after one fold, for COUNT, COUNT(*), SUM, MIN, MAX and AVG; for sums if no partial sum throws or reads as NULL |
| `Aggregation.SumExactIff` | src/execution/aggregation/functions/basic_functions.cpp:79-115 | SUM yields the true total exactly if no partial sum leaves the width or reads as NULL |
| `Aggregation.MergedSumExactIff` | src/execution/aggregation/functions/basic_functions.cpp:93-105 | Folding the whole and merging the parts both give the true total exactly if no partial sum of the whole or of the second part leaves the width or reads as NULL |
| `Aggregation.CountExactIff` | src/execution/aggregation/functions/basic_functions.cpp:35-40 | COUNT yields the number of values exactly if it is below 2^31 |
| `Aggregation.MergeCanSucceedAlone` | src/execution/aggregation/functions/basic_functions.cpp:93-105 | A split whose merge succeeds although the fold throws |
| `AggregationTable.AggregationHashTable.InsertCombine` | include/turtle/execution/aggregation/aggregation_hash_table.hpp:24-45 | One row updates its own group in every function, makes the group if it is new, and touches no other group even if an update throws |
| `AggregationTable.InsertGroups` | include/turtle/execution/aggregation/aggregation_hash_table.hpp:24-45 | Inserting a row keeps the table equal to group-then-fold |
| `AggregationTable.GroupThenFold` | include/turtle/execution/aggregation/aggregation_hash_table.hpp:24-45 | The table built row by row is the input grouped by key and then folded; it is built without throwing exactly if no group's fold throws |

## Left out

- SlottedPage.SlottedPage.InsertTuple: asks for sizes below 2^32 - 8, since the source's 32-bit sum wraps above; `PageHistory.SpaceCheckExactIff` says exactly when that matters.
- PageHistory.HistoryRefinesMap: histories of non-empty tuples; an empty tuple is counted but looks deleted, see `PageHistory.InsertMeans`.
- TableHeap.TableHeap.InsertTuple: takes whether the pool has a frame, and which new page it would give, as arguments; tuples are not empty; page ids given out increase.
- TableHeap.TableHeap.MarkDelete: a page that is not the table's reads as zeros, as the disk manager makes it; what fetching it does to the pool is not part of this model.
- TableHeap.TableIterator.AdvanceToValid: the pool serves a number of page reads and then none; a pool that recovers in the middle of a scan is not modelled, nor is the wrap of the slot number.
- TableHeap.TableHeap.GetTuple: pages are the values that the cache shows; what the cache shows over a run is `GuardInvariant.CacheIsTransparent`.
- Executors.Executor.Next: asks that the scan's page reads get frames, without which it may not terminate (`TableHeap.TableIterator.Batch`); expressions are total functions on row bytes; re-initialising a half-read operator and changing the batch size between calls are not modelled; a filter with no predicate is one that is always true.
- Modify.DeleteWhere: asks that the scan's page reads get frames; whether a deletion gets one is an argument.
- Modify.UpdateWhere: asks that the scan's page reads get frames; images are not empty, and the pages the pool would hand out are an argument.
- BufferPoolManager.BufferPoolManager.FetchPage: for allocated pages; short reads of the disk file are not modelled.
- BufferPoolManager.BufferPoolManager.NewPage: asks for a page id below the invalid one; the source restarts its counter at zero when a database is reopened, which is not modelled.
- PageGuard.PageGuard.MoveAssign: both guards belong to one pool; the locking of the shared mutex does not wait, waiting is `GuardProtocol.LatchFree`.
- GuardInvariant.RunsKeepInv: each pool operation is one atomic step, as its mutex makes it; a flush takes the frame's bytes in one step although a writer may be at work on them.
- Tuple.Tuple.constructor: asks for encodings below 2^32 bytes, as the source's size field does; a value read outside the row is reported as none, where the source reads foreign memory.
- RowCodec.RoundTripIffNoEmptyString: numbers are their stored bytes; the conversion between C++ numbers and bytes is not modelled.
- CheckedArithmetic.MultiplyIsExact: operands that are NULL never reach the computation; subtraction, division and modulo are left out as easier members of the same kind.
- Timestamp.CastAsTimestamp: casts from text only; comparison of packed timestamps is left out, since the packing is not chronological.
- Aggregation.MergeIsFold: integer columns of one width; averages stay a pair of sum and count; the 64-bit counter does not wrap.
- AggregationTable.AggregationHashTable.InsertCombine: accumulators are values in the map; group keys hold no NULL, whose comparison is not reflexive.
- The aggregation executor's fallback for empty input, sorting, limit, insert and values operators.
- The free-space candidate of an insert, which is computed and not used.
- LRU replacement, which the pool does not use.
- Disk files, catalog, serializer, plan nodes and expressions.
- Decimal arithmetic and per-type comparison and cast tables.
- Transactions and undo logs, which are declared without behaviour.
