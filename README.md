# Buffer pool manager, modelled in Dafny

This project models the page cache of a small Rust crate: a
`BufferPoolManager` with four frame slots, a FIFO free list of frame ids, a
page table from page ids to frame ids, a second-chance `ClockReplacer` that
chooses which unpinned frame to evict, and the in-memory `DiskManagerMock`
store that mints page ids (at most 15) and keeps page copies by id.

## Layout

| file | module | what it holds |
|---|---|---|
| `page.dfy` | `Pages` | the constants, the `Page` value, `PageError`, `Option`/`Result`, `Page::new` and `dec_pin_count` |
| `clock_spec.dfy` | `ClockSpec` | the replacer as a value (`list` of `(frame, referenced)` entries plus the cursor `current`) and its operations as functions, with their lemmas |
| `clock_replacer.dfy` | `Replacer` | the `ClockReplacer` class: a `seq` of entries and a cursor updated in place; `victim` is the source's loop, proved against `ClockSpec.Victim` |
| `disk_spec.dfy` | `DiskSpec` | the store as a value (the id counter and the page map) with its operations and lemmas |
| `disk_manager_mock.dfy` | `DiskManager` | the `DiskManagerMock` class; `pages_on_disk` collects the keys in a loop and sorts them |
| `pool_spec.dfy` | `PoolSpec` | the manager as a value and each of its operations as a function, branch for branch |
| `pool_properties.dfy` | `PoolProperties` | the intended bookkeeping invariant `Consistent` and what each operation does to it |
| `buffer_pool.dfy` | `BufferPool` | the `BufferPoolManager` class: an `array` of four slots, the free list and page table as fields, a replacer and a store object |
| `scenarios.dfy` | `Scenarios` | the crate's unit tests replayed on the model, plus a run showing the stale page-table entry |

Each class method that stands for an operation of the specification
modules is proved to produce exactly the result and new state of the matching
specification function applied to the old state
(`ensures (r, Abstract()) == PoolSpec.NewPage(old(Abstract()))`), and the
properties are proved about those functions. The two search and collection
loops, `ClockReplacer.IndexOf` and `DiskManagerMock.PagesOnDisk`, carry their
own contracts instead.

A method that hands out a page (`new_page`, `fetch_page`) returns the frame
that holds it, not a reference to the page.

## Where the code differs from the evident intent

The model follows the code. Where the code breaks the bookkeeping a reader
would expect, the intended invariant (`PoolProperties.Consistent`) is proved
only under the conditions that make it hold, and the break itself is proved:

- **A dirty victim keeps its page-table entry.** `write_if_dirty` empties the
  slot, then on a dirty occupant returns straight after the store write and
  skips the page-table removal (`src/buffer_pool.rs:222-232`). The evicted id
  still maps to the reused frame. `PoolProperties.DirtyVictimLeavesStaleEntry`
  proves that after `new_page` reuses such a frame the pool is no longer
  consistent, and that fetching the old id returns the frame with the new page.
  `Scenarios.StaleEntryRun` replays this from the test set-up.
  `PoolProperties.NewPageConsistent` and `PoolProperties.FetchPageConsistent`
  therefore assume that the frame comes off the free list or that every
  evictable page is clean.
- **A deleted page stays in its slot.** `delete_page` returns the frame to the
  free list but never empties the slot (`src/buffer_pool.rs:186-204`).
  `PoolProperties.DeletePageEffect` proves the pool consistent only once that
  slot is regarded as empty. `PoolProperties.FlushAllResurrectsDeleted` proves
  that `flush_all_pages` then writes the deleted page back to the store.
- **Frames leak on failure.** When `allocate_page` or `read_page` fails, the
  acquired frame goes back to neither the free list nor the replacer
  (`src/buffer_pool.rs:87-98`, `121-133`). `PoolProperties.ConsistentButFor`
  describes that state. `PoolProperties.OutOfStorageLeaksFrame` proves that
  free and occupied frames then add up to three.
- **A fetched page inherits the stored dirty flag.** `flush_page` writes the
  page before it clears the flag (`src/buffer_pool.rs:160-163`). On a miss
  `fetch_page` installs the stored copy as it is (`src/buffer_pool.rs:124`).
  So a page that was flushed while dirty, then evicted clean, comes back
  dirty when it is fetched again, although nothing has changed it since it
  was written. `Scenarios.StoredDirtyFlagRun` replays this. (A copy stored by
  a dirty eviction is not read back this way, because the stale entry above
  makes the next fetch of that id a hit.)
- **Pinning behind the cursor skips an entry.** `remove` keeps the cursor's
  numeric value (`src/buffer_pool/clock_replacer.rs:17-22`). Removing an entry
  below it makes the hand pass over one entry
  (`ClockSpec.PinBehindCursorSkips`).
- **The "not possible!" panics can be reached.** A dirty victim keeps its
  stale entry. If the acquisition that evicted it then fails to read or to
  allocate, the slot stays empty, and a page id in the table leads to an
  empty slot (`src/buffer_pool.rs:106-111`). `Scenarios.PanicReachableRun`
  proves this from a consistent pool: a fetch of an id the store lacks leaves
  page 1's entry pointing at an empty slot. The model turns these panics into
  the precondition `PoolSpec.Resolves`, which `Consistent` implies.
- **A frame can be freed twice.** After a dirty eviction both the stale id
  and the new page's id map to the same frame, and `delete_page` only checks
  the pin count of the page in that frame (`src/buffer_pool.rs:186-204`).
  `Scenarios.DoubleFreeRun` proves that deleting both ids succeeds and puts
  the frame on the free list twice, so two later `new_page` calls would be
  handed the same frame.

## Model

| member | source | states |
|---|---|---|
| `Pages.FreshPage` | src/buffer_pool/page.rs:6-14 | a new page has the given id, pin count 1, is clean and has `PAGE_SIZE` zero bytes |
| `Pages.DecPinCount` | src/buffer_pool/page.rs:20-25 | a positive pin count drops by one and zero stays zero; id, flag and data are kept; the answer is true exactly when the count is now zero |
| `Pages.DecPinCountAtZero` | src/buffer_pool/page.rs:20-25 | an already unpinned page is left as it is and still reports "unpinned" |
| `ClockSpec.Position` | src/buffer_pool/clock_replacer.rs:43-54 | the index of the first entry for a frame, or the list length when there is none |
| `ClockSpec.TracksIff` | src/buffer_pool/clock_replacer.rs:43-54 | a frame is found by the search exactly when it is among the listed frames |
| `ClockSpec.Remove` | src/buffer_pool/clock_replacer.rs:17-22 | the entry at the index is dropped and the others keep their order; the cursor keeps its value unless it would fall off the end, then it is 0 |
| `ClockSpec.RemoveFrames` | src/buffer_pool/clock_replacer.rs:17-22 | removal keeps frames distinct and the cursor on an entry, and takes exactly that entry's frame out of the tracked set |
| `ClockSpec.Unpin` | src/buffer_pool/clock_replacer.rs:43-48 | an untracked frame is appended with its bit set and the cursor stays; a tracked frame changes nothing; afterwards the frame is tracked and frames stay distinct |
| `ClockSpec.Pin` | src/buffer_pool/clock_replacer.rs:50-54 | a tracked frame's entry is removed by `remove` at its first index, so the other entries keep their order and bits; an untracked frame changes nothing; afterwards the frame is not tracked |
| `ClockSpec.FirstClear` | src/buffer_pool/clock_replacer.rs:31-40 | the number of steps from the cursor to the first clear reference bit, or the length when all bits are set |
| `ClockSpec.SweepBit` | src/buffer_pool/clock_replacer.rs:31-35 | during the sweep the bit under the hand is set exactly while the first clear bit has not been reached |
| `ClockSpec.HandStep` | src/buffer_pool/clock_replacer.rs:34 | advancing with `(current + 1) % len` moves the hand one step around the circle |
| `ClockSpec.Victim` | src/buffer_pool/clock_replacer.rs:26-41 | no victim exactly when the list is empty, and then nothing changes; otherwise a tracked frame is returned and removed, one entry fewer, frames distinct and the cursor valid |
| `ClockSpec.VictimKeepsOthers` | src/buffer_pool/clock_replacer.rs:26-41 | after `victim` the other entries keep their order, each with its bit cleared exactly when the sweep passed it; the cursor is the victim's old index, or 0 when that is past the end |
| `ClockSpec.VictimIsFirstClear` | src/buffer_pool/clock_replacer.rs:31-40 | the victim is the first entry from the cursor whose bit was clear, after at most one full sweep; when every bit was set it is the entry the cursor started on |
| `ClockSpec.UnpinIdempotent` | src/buffer_pool/clock_replacer.rs:43-48 | unpinning twice is the same as unpinning once |
| `ClockSpec.PinBehindCursorSkips` | src/buffer_pool/clock_replacer.rs:50-54 | pinning a frame listed before the cursor leaves the cursor's value, so the entry the hand was on moves behind it |
| `Replacer.ClockReplacer.constructor` | src/buffer_pool/clock_replacer.rs:10-15 | a new replacer has an empty list and cursor 0 |
| `Replacer.ClockReplacer.IndexOf` | src/buffer_pool/clock_replacer.rs:43-54 | the linear search returns the first index holding the frame, or the length |
| `Replacer.ClockReplacer.Remove` | src/buffer_pool/clock_replacer.rs:17-22 | the new list and cursor are those of `ClockSpec.Remove` |
| `Replacer.ClockReplacer.Victim` | src/buffer_pool/clock_replacer.rs:26-41 | the loop clears bits and advances the cursor, then evicts; its result and new state are those of `ClockSpec.Victim` |
| `Replacer.ClockReplacer.Unpin` | src/buffer_pool/clock_replacer.rs:43-48 | the new state is that of `ClockSpec.Unpin` |
| `Replacer.ClockReplacer.Pin` | src/buffer_pool/clock_replacer.rs:50-54 | the new state is that of `ClockSpec.Pin` |
| `DiskSpec.Read` | src/buffer_pool/disk_manager_mock.rs:6-12 | `PageNotFound` exactly when the id is not stored; otherwise the stored page, which carries that id |
| `DiskSpec.Write` | src/buffer_pool/disk_manager_mock.rs:14-17 | the page is stored under its id, every other stored page is kept as it was, and the counter is unchanged |
| `DiskSpec.Allocate` | src/buffer_pool/disk_manager_mock.rs:19-25 | `OutOfStorage` with nothing changed exactly when 15 ids have been minted; otherwise the counter goes up by one and is returned; the page map is untouched |
| `DiskSpec.Deallocate` | src/buffer_pool/disk_manager_mock.rs:27-29 | the id leaves the stored ids, without error if it was absent; every other stored page is kept as it was; the counter is not lowered |
| `DiskSpec.ReadAfterWrite` | src/buffer_pool/disk_manager_mock.rs:6-17 | reading an id just written returns the written page |
| `DiskSpec.WriteOverwrites` | src/buffer_pool/disk_manager_mock.rs:14-17 | a later write of the same id replaces the earlier one |
| `DiskSpec.DeallocateForgets` | src/buffer_pool/disk_manager_mock.rs:6-29 | a deallocated id reads as `PageNotFound`, and deallocating twice is deallocating once |
| `DiskSpec.AllocateManyIds` | src/buffer_pool/disk_manager_mock.rs:19-25 | the i-th of successive allocations returns counter + i + 1 while that stays within 15, and `OutOfStorage` from then on |
| `DiskSpec.FreshStoreAllocations` | src/buffer_pool/disk_manager_mock.rs:19-25 | from a new store the allocations return 1, 2, ..., 15 and then only `OutOfStorage` |
| `DiskSpec.NoIdReuse` | src/buffer_pool/disk_manager_mock.rs:19-29 | after any deallocation the next id minted is larger than every id minted before |
| `DiskManager.Sort` | src/buffer_pool/disk_manager_mock.rs:36 | the result is in ascending order and a permutation of the input |
| `DiskManager.SortDistinct` | src/buffer_pool/disk_manager_mock.rs:31-38 | sorting distinct ids gives a strictly ascending sequence with the same elements |
| `DiskManager.DiskManagerMock.constructor` | src/buffer_pool.rs:47-54 | a new store has counter 0 and no pages |
| `DiskManager.DiskManagerMock.ReadPage` | src/buffer_pool/disk_manager_mock.rs:6-12 | the lookup agrees with `DiskSpec.Read` |
| `DiskManager.DiskManagerMock.WritePage` | src/buffer_pool/disk_manager_mock.rs:14-17 | the new state is that of `DiskSpec.Write` |
| `DiskManager.DiskManagerMock.AllocatePage` | src/buffer_pool/disk_manager_mock.rs:19-25 | result and new state are those of `DiskSpec.Allocate` |
| `DiskManager.DiskManagerMock.DeallocatePage` | src/buffer_pool/disk_manager_mock.rs:27-29 | the new state is that of `DiskSpec.Deallocate` |
| `DiskManager.DiskManagerMock.PagesOnDisk` | src/buffer_pool/disk_manager_mock.rs:31-38 | exactly the stored ids, each once, in strictly ascending order |
| `PoolSpec.Init` | src/buffer_pool.rs:65-77 | a new manager is well formed: four empty slots, free list 0, 1, 2, 3, empty page table and replacer |
| `PoolSpec.GetFrameId` | src/buffer_pool.rs:206-220 | the frame handed out is a valid slot index and every stored frame id stays a valid index (its behaviour: `PoolProperties.GetFrameIdSafe`) |
| `PoolSpec.WriteIfDirty` | src/buffer_pool.rs:222-232 | every stored frame id stays a valid index (its behaviour: `PoolProperties.FromReplacer`, `PoolProperties.DirtyVictimLeavesStaleEntry`) |
| `PoolSpec.Acquire` | src/buffer_pool.rs:80-86 | the frame acquired is a valid slot index (its behaviour: `PoolProperties.AcquireDetaches`) |
| `PoolSpec.NewPage` | src/buffer_pool.rs:79-102 | the returned frame is a valid slot index (its behaviour: `PoolProperties.NewPageConsistent`) |
| `PoolSpec.FetchPage` | src/buffer_pool.rs:104-138 | a resident id returns its frame, adds one pin to that slot, pins the frame in the replacer (`ClockSpec.Pin`) and leaves the other slots, table, free list and store alone, whether or not the pool is consistent; a miss that succeeds maps the id to the returned frame, which then holds a page with that id and pin count 1; a failure only happens on a miss and never adds a table entry |
| `PoolSpec.UnpinPage` | src/buffer_pool.rs:140-154 | `PageNotFound` with nothing changed exactly for a non-resident id; otherwise that slot's pin count drops by one (never below 0) and the flag is or-ed in, the frame is offered to the replacer exactly when the count is now 0, and the table, free list, store and other slots are untouched |
| `PoolSpec.FlushPage` | src/buffer_pool.rs:156-171 | `PageNotFound` with nothing changed exactly for a non-resident id; otherwise the page is stored as it was (other stored pages and the counter kept), its slot turns clean, and the table, free list, replacer and other slots are untouched |
| `PoolSpec.FlushFrom` | src/buffer_pool.rs:174-182 | the flush loop from slot i on leaves the table, free list, replacer, counter and earlier slots alone, and every later occupied slot keeps its page with the flag cleared (what it stores: `PoolProperties.FlushFromStoresIds`, `PoolProperties.FlushFromKeeps`, `PoolProperties.FlushFromStores`) |
| `PoolSpec.FlushAllPages` | src/buffer_pool.rs:173-184 | every occupied slot keeps its page with the flag cleared, empty slots stay empty, and the table, free list, replacer and counter are untouched (what it stores: `PoolProperties.FlushAllEffect`) |
| `PoolSpec.DeletePage` | src/buffer_pool.rs:186-204 | `PageNotFound` exactly for a non-resident id and `PageStillInUse` exactly for a pinned page, both changing nothing; otherwise the id leaves the table and the store (other stored pages kept), the frame joins the free list and leaves the replacer; the slots are never changed |
| `PoolProperties.Capacity` | src/buffer_pool.rs:56-62 | in a consistent pool the free list and the occupied slots split the four frames between them |
| `PoolProperties.InitConsistent` | src/buffer_pool.rs:65-77 | a new manager is consistent, with four free frames and no occupied slot |
| `PoolProperties.GetFrameIdSafe` | src/buffer_pool.rs:206-220 | a free-list frame is empty and a victim frame holds an unpinned page; `PoolExhausted`, with nothing changed, exactly when no frame is free and no page unpinned |
| `PoolProperties.AcquireDetaches` | src/buffer_pool.rs:206-232 | taking a frame leaves the pool consistent but for that detached frame, with the store and the other slots untouched: from the free list, the head is taken and table and replacer are kept; by eviction (every evictable page clean), the frame is `victim`'s, the replacer is as `victim` left it and the evicted id leaves the table; `PoolExhausted` changes nothing |
| `PoolProperties.FromFreeList` | src/buffer_pool.rs:207-212 | the free-list head is handed out, the free list becomes its tail, and the slots, table, replacer and store are unchanged |
| `PoolProperties.FromReplacer` | src/buffer_pool.rs:214-232 | with no free frame, the victim holds a clean page; evicting it removes exactly its id from the page table, empties its slot, leaves the other slots and the store as they were and the replacer as `victim` left it |
| `PoolProperties.InstallConsistent` | src/buffer_pool.rs:87-96 | recording a pinned page with a new, minted id in the detached frame restores consistency |
| `PoolProperties.NewPageConsistent` | src/buffer_pool.rs:79-102 | success keeps the pool consistent: the next id is minted, the returned frame holds a fresh page with it and the id maps to that frame; the other slots and stored pages are untouched; off the free list the head is taken and the replacer kept, by eviction the replacer is as `victim` left it and the evicted id leaves the table; `PoolExhausted` changes nothing; `OutOfStorage` loses the acquired frame |
| `PoolProperties.NewPageInstalls` | src/buffer_pool.rs:87-98 | once a frame is detached, `new_page` either puts a fresh page with the next id in it, maps the id to it and restores consistency, or fails with `OutOfStorage` leaving the frame detached |
| `PoolProperties.FetchPageConsistent` | src/buffer_pool.rs:104-138 | a hit adds a pin, takes the frame out of the replacer and leaves table and free list alone; a miss installs the stored copy, dirty flag included, with pin count 1, maps the id to the frame and acquires it as `new_page` does; on success the other slots and the store are untouched and the pool stays consistent; `PoolExhausted` changes nothing; `PageNotFound` on a miss loses the frame |
| `PoolProperties.FetchHitConsistent` | src/buffer_pool.rs:105-112 | a resident page gets one more pin and its frame is pinned in the replacer; table, free list, store and other slots are unchanged and the pool stays consistent |
| `PoolProperties.UnpinPageConsistent` | src/buffer_pool.rs:140-154 | `PageNotFound`, with nothing changed, exactly for a non-resident id; otherwise one pin less but never below 0, dirty flag or-ed in, the frame offered to the replacer exactly at 0; table, free list, store and other slots unchanged; consistency kept |
| `PoolProperties.FlushPageConsistent` | src/buffer_pool.rs:156-171 | `PageNotFound`, with nothing changed, exactly for a non-resident id; otherwise the store gets the page as it was and keeps every other stored page, the slot keeps it with the flag cleared, and the table, free list, replacer and other slots are unchanged |
| `PoolProperties.FlushStepConsistent` | src/buffer_pool.rs:175-180 | one step of the flush loop keeps the pool consistent |
| `PoolProperties.FlushFromConsistent` | src/buffer_pool.rs:174-182 | the flush loop from any slot keeps the pool consistent |
| `PoolProperties.FlushAllConsistent` | src/buffer_pool.rs:173-184 | `flush_all_pages` keeps the pool consistent |
| `PoolProperties.FlushFromStoresIds` | src/buffer_pool.rs:174-182 | the loop from slot i on stores exactly the old ids plus the ids of the occupied slots it passes |
| `PoolProperties.FlushFromKeeps` | src/buffer_pool.rs:174-182 | the loop from slot i on leaves the stored copy of an id that no slot from i on holds as it was |
| `PoolProperties.FlushFromStores` | src/buffer_pool.rs:174-182 | when the slots from i on hold distinct ids, each such slot's page ends up in the store exactly as it was before the loop |
| `PoolProperties.FlushAllEffect` | src/buffer_pool.rs:173-184 | afterwards every occupied slot holds its page with the flag cleared; table, free list, replacer and counter are unchanged; the stored ids are the old ones plus those of the occupied slots; in a consistent pool the store holds each resident page as it was before the flush and keeps every other stored copy |
| `PoolProperties.DeletePageEffect` | src/buffer_pool.rs:186-204 | `PageNotFound` exactly for a non-resident id and `PageStillInUse` exactly for a pinned page, both changing nothing; otherwise the id leaves table and store (the store as `deallocate_page` leaves it), the frame is pinned in the replacer and joins the free list, the slot keeps the page, and the pool is consistent once that slot counts as empty |
| `PoolProperties.FlushAllResurrectsDeleted` | src/buffer_pool.rs:173-204 | a deleted page is gone from the store but is back in it after `flush_all_pages` |
| `PoolProperties.AllPinnedExhausts` | src/buffer_pool.rs:206-220 | with every frame holding a pinned page, `new_page` and a `fetch_page` miss fail with `PoolExhausted` and change nothing |
| `PoolProperties.DirtyVictimLeavesStaleEntry` | src/buffer_pool.rs:222-232 | a dirty victim is stored but keeps its table entry to the emptied frame; after `new_page` reuses the frame the pool is inconsistent and fetching the old id returns the frame holding the new page |
| `PoolProperties.OutOfStorageLeaksFrame` | src/buffer_pool.rs:79-98 | once 15 ids are minted, `new_page` fails with `OutOfStorage` after taking a free frame, so free and occupied frames add up to three |
| `BufferPool.BufferPoolManager.constructor` | src/buffer_pool.rs:65-77 | the loop fills the free list with 0, 1, 2, 3; the state is `PoolSpec.Init` of the given store |
| `BufferPool.BufferPoolManager.GetFrameId` | src/buffer_pool.rs:206-220 | result and new state are those of `PoolSpec.GetFrameId` |
| `BufferPool.BufferPoolManager.WriteIfDirty` | src/buffer_pool.rs:222-232 | the new state is that of `PoolSpec.WriteIfDirty` |
| `BufferPool.BufferPoolManager.NewPage` | src/buffer_pool.rs:79-102 | result and new state are those of `PoolSpec.NewPage` |
| `BufferPool.BufferPoolManager.FetchPage` | src/buffer_pool.rs:104-138 | result and new state are those of `PoolSpec.FetchPage` |
| `BufferPool.BufferPoolManager.UnpinPage` | src/buffer_pool.rs:140-154 | result and new state are those of `PoolSpec.UnpinPage` |
| `BufferPool.BufferPoolManager.FlushPage` | src/buffer_pool.rs:156-171 | result and new state are those of `PoolSpec.FlushPage` |
| `BufferPool.BufferPoolManager.FlushAllPages` | src/buffer_pool.rs:173-184 | the loop over the slots succeeds and leaves the state of `PoolSpec.FlushAllPages` |
| `BufferPool.BufferPoolManager.DeletePage` | src/buffer_pool.rs:186-204 | result and new state are those of `PoolSpec.DeletePage` |
| `Scenarios.ClockReplacerRun` | src/buffer_pool/clock_replacer.rs:93-117 | frames 1..6 and 1 again unpinned give six entries; victims 1, 2, 3; pinning 3 and 4 leaves two entries; after unpinning 4 the victims are 5, 6, 4 |
| `Scenarios.UnpinSix` | src/buffer_pool/clock_replacer.rs:95-104 | unpinning 1..6 then 1 again gives six referenced entries, 1 not duplicated |
| `Scenarios.FullSweep` | src/buffer_pool/clock_replacer.rs:31-40 | from cursor 0 with every bit set, the sweep clears them all and evicts entry 0 |
| `Scenarios.AllPagesRun` | src/buffer_pool.rs:357-362 | on a new manager the i-th `new_page` puts page i + 1 in frame i with pin count 1 and maps i + 1 to i; a fifth fails with `PoolExhausted` |
| `Scenarios.UnpinPageRun` | src/buffer_pool.rs:275-288 | unpinning page 1 drops its pin count to 0, the next `new_page` puts page 5 in frame 0, and the one after fails with `PoolExhausted` |
| `Scenarios.FlushPageRun` | src/buffer_pool.rs:290-300 | the store is empty until the new page 1 is flushed, then holds it |
| `Scenarios.FetchPageRun` | src/buffer_pool.rs:302-320 | after page 1 is evicted for page 5 and page 5 is unpinned, fetching page 1 puts it back in frame 0 with pin count 1 |
| `Scenarios.DeletePageRun` | src/buffer_pool.rs:322-337 | a flushed, unpinned page 1 is deleted from table and store; its slot still holds it and `flush_all_pages` stores it again |
| `Scenarios.FlushAllPagesRun` | src/buffer_pool.rs:339-351 | nothing is stored before `flush_all_pages` on a full pool, and pages 1..4 are stored after |
| `Scenarios.StoredDirtyFlagRun` | src/buffer_pool.rs:156-171 | page 1 unpinned dirty and flushed is stored dirty while its slot turns clean; evicted clean for page 5 and fetched back, it sits in frame 0 marked dirty with pin count 1 |
| `Scenarios.FailedFetchStrandsEntry` | src/buffer_pool.rs:104-138 | fetching an id the store lacks evicts the dirty page 1 and fails with `PageNotFound`, leaving page 1's entry pointing at the emptied frame 0 |
| `Scenarios.PanicReachableRun` | src/buffer_pool.rs:104-138 | from a consistent pool with page 1 unpinned dirty, a failed fetch leaves a table entry to an empty slot, the state in which the "not possible!" branches panic |
| `Scenarios.StaleEntryRun` | src/buffer_pool.rs:222-232 | page 1, unpinned as dirty, is evicted for page 5 but still maps to frame 0, so fetching page 1 pins page 5 a second time |
| `Scenarios.DoubleFreeRun` | src/buffer_pool.rs:186-204 | with page 1's stale entry and page 5 both on frame 0, unpinning page 5 and deleting pages 1 and 5 all succeed and put frame 0 on the free list twice |

## Left out

- `src/server.rs` (the HTTP front end with a mutex-shared pool) and
  `src/main.rs` (an older version that no longer matches the live API) are
  not part of this model.
- The JSON snapshot code (`Response`, `BufferPoolManager::response`,
  `ClockReplacerRep`, `ClockValue`, `ClockReplacer::response`), the `Display`
  impl of `PageError` and `as_any` downcasting are not modelled; they only
  serve the HTTP layer and the tests.
- Writes by callers through the returned `&mut Page` are not modelled: the
  model returns the frame index, and the page data stays as the store or
  `Page::new` left it.
- Only the mock store is modelled. Its `write_page` never fails, so the
  manager's branches that pass on a write error can never be taken. In the
  model `WriteIfDirty` and `FlushAllPages` have no error result, and
  "`flush_all_pages` stops at the first store error" is not modelled.
- `BufferPool.BufferPoolManager.FlushAllPages`: always returns `Ok`, because
  the mock's write cannot fail.
- Pin counts and page ids are unbounded integers. The `i32` overflow of
  `pin_count += 1` after 2^31 - 1 fetches is not modelled, and pin counts are
  natural numbers because `dec_pin_count` never takes them below zero.
- `Page` is modelled as a value: `dec_pin_count` returns the updated page and
  its answer instead of mutating a field, which is what the slot update in
  `unpin_page` does with it.
- The order in which a `HashMap` yields its keys is not modelled:
  `pages_on_disk` collects the keys in an arbitrary order, which the sort
  then makes irrelevant. The library sort is modelled by an insertion sort;
  every sort gives the same result on distinct ids.
- The `panic!("not possible!")` branches are modelled as preconditions
  (`PoolSpec.Resolves`, `IsFrame`), not as program aborts.
