# Verified model of ob-dump and the LMDB engine under it

ob-dump reads the data file of an ObjectBox store and writes its objects as JSON. The file is an
LMDB environment, and LMDB 0.9.31 is part of the repository. This project models the engine from
its ID lists up to its cursors and its compacting copy, and the reader and the two JSON dumps on
top of it, and proves that they keep their promises. `dafny verify dfyconfig.toml` checks all of it.

## Layers

1. **ID lists** (`Midl`, `MidlSort`, `DirtyList`, `NestedCommit`): arrays with their count in slot
   0. The quicksort with its explicit 64-entry stack, the tail merge with its sentinel, the binary
   searches, and what the commit of a nested transaction does to the parent's lists.
2. **Pages and transactions** (`PageRuns`, `PageAlloc`, `OverflowFree`, `FreelistSave`, and the
   protocol in `MvccState`, `MvccInv`, `MvccSteps`, `MvccCommit`, `MvccTheorems`, `MvccContent`,
   `MvccScan`, `MvccReaders`, `MvccProgress`): the allocator, the freeing of overflow runs and the
   free-list save are methods on arrays and fields; the protocol of lock-free readers, one writer,
   the kernel's write-back and crashes is a step system whose runs are quantified over.
   `WriterRefines` and `FreelistSave.SavedIsStep` show that what the methods do are steps of that
   system, `MvccContent` that what is committed is what was written, and `MvccProgress` that
   readers and writers get where they want.
3. **B-tree pages** (`ByteOrder`, `SlottedPage`, `PageNodes`, `SplitPoint`, `PageSplit`,
   `PageMerge`, `BTree`, `Rebalance`, `TreeSizes`, `TreeSplit`, `TreeDelete`, `TreeGrowth`,
   `TreePages`): node bytes in a page buffer, insertion, deletion, re-keying, split, merge and
   node moves on those buffers, and a deletion over the whole tree, with the rebalancing and the
   splits it causes. `TreePages` shows that the buffer operations do what the tree operations say.
4. **Cursor and copy** (`CursorStack`, `CursorSearch`, `Cursors`, `CompactCopy`, `CopyWalk`,
   `CopyThreads`): the page stack of a cursor against the in-order list of entries; the iterative
   copy against a recursive one; the two copy threads as a step system.
5. **ob-dump** (`ObKeys`, `ObReader`, `JsonStream`, `JsonDump`, `JsonText`, `Dumper`): the object
   walk, the to-many lookup, the streaming writer with its bracket flags, the in-memory dump, and a
   reader of JSON objects of arrays (sections 2, 4, 5 and 7 of RFC 8259) that reads the stream back.

## What is assumed

- The environment runs without `MDB_WRITEMAP` and `MDB_NOSYNC`, and numbers pages from 0. A meta page
  is written atomically, a sync is a durability barrier, and the writer mutex means one writer.
  Before a sync the kernel may have written any of the flushed pages, and no others.
- Pages are 16-bit addressed, hold an even number of bytes, and at least 1076 of them where a page
  is split or rebalanced; keys in branch pages are at most 511 bytes, and every stored leaf node with
  its slot takes at most half of the page less its header (dart/src/lmdb/mdb.c:566 and 4480-4481).
- Trees have uniform depth below the 32 levels of a cursor's stack. A list to be sorted has at most
  0x3FFF_FFFF ids, so that the index arithmetic of the sort stays within 32 bits.
- What B-tree operations on the freeDB do to the writer's lists during a free-list save is a
  parameter (`env` in `FreelistSave.Saver`): they may read further records and free further pages.
- Memory that cannot be had is a boolean parameter of each operation that asks for it.
- ObjectBox's keys: data keys are 8 bytes with bytes 1 and 2 zero, link keys are 12 bytes. The
  decoding of an object, with the targets of its relations, to one line of JSON is a function parameter.

## What the code does that its documentation does not say

- `mdb_midl_search` is documented to return the first id not below the wanted one. The lists
  descend, and it returns the first one not above it (`Midl.Search`).
- `mdb_page_split` looks for a split point only in small pages, for large nodes, or at the end. Otherwise
  it cuts in the middle, and a half may overflow: `SplitPoint.MiddleFits` is the exact condition,
  and `SplitPoint.MiddleOverflows` a page of 32 leaf nodes where it fails.
- A deletion can split pages, and make the tree higher: the node that a poor page gets from its
  neighbour may have a longer key, and the parent may have no room for it as a separator.
  `TreeGrowth.DeleteGrows` is a tree where this happens, `TreeDelete.CutIff` the exact condition.
- After a failed meta write the page put back carries the old transaction number but the new roots.
  It is not a snapshot that can be opened; readers and reopening use the other meta page, and no
  further write transaction is let in (`MvccCommit.PutBack`). The source does not look at the
  result of that second write; when it fails too, the new meta page stays, unpublished but whole.
- A relation id of 64 or more reads the links of the id modulo 64 (`ObKeys.PrefixAlias`,
  `ObReader.RelationAliased`), and a key with the prefix of a link but another length ends the
  lookup early (`ObReader.FindsAllIff` says exactly when nothing is missed).
- Data keys that differ only in the two low bits of the entity byte are read as the same object
  (`ObReader.SameObjectTwice`).
- The streaming writer keeps the last entity's name in 256 bytes. An entity with an empty name, or
  with one of 256 characters or more, is opened again for each record, and an entity whose name is the
  first 255 characters of the one before it gets its records written into that one's array
  (`Dumper.EmptyNameReopens`, `Dumper.LongNameReopens`, `Dumper.CutNameMixes`). When the text does
  stand for the map is `JsonDump.StreamEqualsBatch`, an equivalence over all record lists.

## Model

| member | source | states |
|---|---|---|
| MidlSort.Sort | dart/src/lmdb/midl.c:220-279 | Every list becomes a descending permutation of itself, slot 0 untouched, with all scans inside their segment and all pushes inside the 64 slots of the stack. |
| MidlSort.InsertOne | dart/src/lmdb/midl.c:231-240 | The insertion loop, guarded only by slot 1, never crosses into the segment before, and leaves its own segment a sorted permutation. |
| MidlSort.Scan | dart/src/lmdb/midl.c:260-262 | The two unguarded scans stop inside the segment, at ids on the right side of the pivot, and pass over none that is not. |
| MidlSort.DepthBound | dart/src/lmdb/midl.c:267-276 | When only larger halves are pushed, a segment that is still partitioned lies at stack depth 26 or less. |
| Midl.XMerge | dart/src/lmdb/midl.c:201-213 | The in-place tail merge turns the list into the merge of both, sentinel restored, also when the second list stands at the end of the same block. |
| Midl.MergeElements | dart/src/lmdb/midl.c:201-213 | The merge holds exactly the ids of both lists, repeats counted. |
| Midl.MergeDesc | dart/src/lmdb/midl.c:201-213 | The merge of two descending lists descends. |
| Midl.MergeStrict | dart/src/lmdb/midl.c:201-213 | Strictly descending lists without a common id merge into a strictly descending union. |
| Midl.Search | dart/src/lmdb/midl.c:34-67 | The slot found parts the list into ids not below and ids not above the wanted one, and holds the id iff it is in the list. |
| DirtyList.Search | dart/src/lmdb/midl.c:281-314 | The slot found is that of the first page number not below the wanted one. |
| DirtyList.Insert | dart/src/lmdb/midl.c:316-345 | A duplicate and a full list are refused with the list unchanged; otherwise the entry is inserted and the list ascends strictly. |
| DirtyList.CountUnion | dart/src/lmdb/mdb.c:3579-3595 | The scan that counts intersections yields exactly the length of the union. |
| DirtyList.MergeDirty | dart/src/lmdb/mdb.c:3597-3606 | The in-place merge ends with i equal to x and leaves the union, whose length it was given. |
| DirtyList.UnionPages | dart/src/lmdb/mdb.c:3579-3606 | As page maps, the union is the parent's list overridden by the child's. |
| NestedCommit.DropFromSpill | dart/src/lmdb/mdb.c:3539-3557 | The parent's spill list loses exactly the child's dirty pages; the others stay in order. |
| NestedCommit.DropSpilled | dart/src/lmdb/mdb.c:3560-3576 | The parent's dirty list loses exactly the pages that the child spilled. |
| NestedCommit.CommitLists | dart/src/lmdb/mdb.c:3536-3607 | Together: dirty pages, live spilled pages and their numbers are those of the two levels combined, the child winning; the two spill lists are joined as sets. |
| NestedCommit.CommitKeepsPages | dart/src/lmdb/mdb.c:5467-5518 | After a nested commit the parent alone answers each page number as the child in front of it did before. |
| PageRuns.FindRun | dart/src/lmdb/mdb.c:2227-2236 | A slot is found iff the list holds a run of num pages; it is that of the lowest such run. |
| PageRuns.RemoveRun | dart/src/lmdb/mdb.c:2328-2335 | Exactly the slots of the run are closed up. |
| PageRuns.RunTaken | dart/src/lmdb/mdb.c:2328-2335 | Taking the run out removes exactly its page numbers and keeps the list strictly descending. |
| PageRuns.InsertRun | dart/src/lmdb/mdb.c:5771-5778 | The run is shifted into its place in the list. |
| PageRuns.RunAdded | dart/src/lmdb/mdb.c:5771-5778 | The list gains exactly the run's pages and stays strictly descending. |
| PageRuns.TakeAndReturn | dart/src/lmdb/mdb.c:2328-2335 | Allocating a run and giving it back restores the identical list. |
| PageRuns.AppendRange | dart/src/lmdb/midl.c:185-199 | The run is appended, highest page first, or nothing changes for want of memory. |
| PageAlloc.Txn.Gather | dart/src/lmdb/mdb.c:2223-2311 | Only records older than the oldest reader, cached or looked up again, are merged into the list, one by one and only while it holds no run; a run is returned iff there is one when reading stops, and the lowest one; the cached oldest reader stays or becomes the one looked up. |
| PageAlloc.Txn.Alloc | dart/src/lmdb/mdb.c:2175-2345 | A loose page and nothing else changed, or the lowest run of the list and the records read, which together with the rest is what was there before; the file grows only when no run is to be had or the retry limit is reached; each error has exactly its cause, and then no page is lost; cached oldest reader, room and error flag are stated on every path. Of the dirty list only its room is counted. |
| PageAlloc.ReadsAreOld | dart/src/lmdb/mdb.c:2254-2279 | Over any sequence of allocations, a record is read only when it is older than the oldest reader as cached at the start or as looked up in a call so far. |
| WriterRefines.AllocReadsOld | dart/src/lmdb/mdb.c:2254-2308 | The records that an allocation reads under the cached oldest reader are fetches that the protocol allows in its state, whose cached oldest reader is the allocator's. |
| WriterRefines.AllocReadsNew | dart/src/lmdb/mdb.c:2254-2308 | The other records are such fetches once a scan has left what the allocator looked up as the oldest reader. |
| WriterRefines.AllocTakes | dart/src/lmdb/mdb.c:2310-2345 | The run is then a take from the head list or from the end of the file that the protocol allows, after which both have the same lists, next page, oldest reader and position in the freeDB. |
| WriterRefines.AllocFails | dart/src/lmdb/mdb.c:2337-2345 | An allocation that fails leaves what the fetches leave. |
| WriterRefines.AllocLoose | dart/src/lmdb/mdb.c:2198-2205 | A loose page is the protocol's take of a loose page. |
| WriterRefines.FreeIsWork | dart/src/lmdb/mdb.c:5713-5786 | Freeing an overflow run is the protocol's give-back when the transaction owns it, and otherwise its drop, with the same lists after it. |
| OverflowFree.RemoveDirty | dart/src/lmdb/mdb.c:5751-5766 | The entry of the page is removed and the order of the others kept; without one, the rotated list and the corruption error are as in the source. |
| OverflowFree.Txn.Free | dart/src/lmdb/mdb.c:5713-5786 | A run of this transaction joins the free list and leaves exactly one of the dirty and spill lists; another one is noted as freed. It runs out of memory iff the list it goes to is full and cannot grow, with nothing changed; it reports corruption iff the page is not on the dirty list, with the list rotated, the error flag set and all else as before. |
| MvccTheorems.ReaderSafe | dart/src/lmdb/mdb.c:2747-2771 | In every run, the file holds all pages of a live reader's snapshot as that snapshot says, and, unless a meta write has failed, the snapshot is no older than the transaction the reader published. |
| MvccTheorems.NeverHandedOut | dart/src/lmdb/mdb.c:2254-2308 | In every run, no page of a live reader's snapshot is allocated, or read from a freeDB record for reuse. |
| MvccTheorems.NeverOverwritten | dart/src/lmdb/mdb.c:3324-3468 | In every run, no step but a crash changes a page of a live reader's snapshot. |
| MvccTheorems.OldestBelowReaders | dart/src/lmdb/mdb.c:2123-2139 | A reader past the publish-and-recheck loop has a transaction number not below the writer's cached oldest, though the scan reads slot by slot without a lock. |
| MvccSteps.CopyStep | dart/src/lmdb/mdb.c:2767-2772 | A meta page copied after the re-check, even one written by later commits, is a readable snapshot; the invariant is kept. |
| MvccTheorems.CrashAtomic | dart/src/lmdb/mdb.c:3837-3960 | At every point of every run, a crash leaves as the newer meta page the last published snapshot or the one being committed, whole on stable storage. |
| MvccTheorems.OldMetasWhole | dart/src/lmdb/mdb.c:3684-3687 | Until the new meta page is written, both older snapshots are whole in the file and on stable storage. |
| MvccTheorems.OnlyCommitted | dart/src/lmdb/mdb.c:3967-3971 | What readers see and a crash leaves is always what some commit wrote, whole. |
| MvccContent.CommitDescribed | dart/src/lmdb/mdb.c:2438-2533 | In every run, a snapshot that is committed holds of each page what the last step of its transaction that names the page put there, and otherwise what the snapshot it began from holds; the page is in the tree into which it was moved last. Both are read off the steps alone. |
| MvccContent.ReaderSees | dart/src/lmdb/mdb.c:2747-2771 | In every run without a failed meta write, a live reader sees the empty database or what the steps of one transaction describe, and the file holds it. |
| MvccContent.CrashLeaves | dart/src/lmdb/mdb.c:3967-3971 | So does whoever opens the database after a crash, from stable storage. |
| MvccScan.ScanFinds | dart/src/lmdb/mdb.c:2123-2139 | A scan of the reader table leaves a number that is not above the published one nor any slot's as it was read, and is one of these. |
| MvccScan.QuietScan | dart/src/lmdb/mdb.c:2123-2139 | If no reader comes or goes meanwhile, it leaves exactly the least of them. |
| MvccReaders.SlotsFollow | dart/src/lmdb/mdb.c:2747-2771 | In every run, a slot is taken from its signing to its release, and publishes the number its reader read last from the store to the end, as read off the steps. |
| MvccReaders.EndedScan | dart/src/lmdb/mdb.c:3016-3024 | Once all readers have ended, an undisturbed scan finds the published transaction: nothing that they held back stays unused. |
| MvccProgress.ReaderGets | dart/src/lmdb/mdb.c:2747-2772 | From every reachable state, whatever the others are at, a new reader can get to see the last published snapshot. |
| MvccProgress.ReaderEnds | dart/src/lmdb/mdb.c:3016-3024 | Every reader can come to its end, leaving its slot without a number. |
| MvccProgress.WriterGets | dart/src/lmdb/mdb.c:3471-3697 | A writer at work, with a list for its loose pages, can save, flush, sync and publish: the next snapshot is what it holds by then. |
| MvccProgress.WriterEnds | dart/src/lmdb/mdb.c:3001-3082 | Every writer can be done with: aborted without a trace before its meta page is written, published after. |
| MvccProgress.CrashKeeps | dart/src/lmdb/mdb.c:3324-3468 | A crash may come at any time, after any choice of the flushed pages and either meta page have reached stable storage, and leaves exactly those. |
| MvccProgress.MetaFails | dart/src/lmdb/mdb.c:3928-3945 | Every meta write may fail, with the old number put back over the new roots, or with the new page left. |
| MvccTheorems.PublishedStays | dart/src/lmdb/mdb.c:3837-3960 | The last published transaction number never goes down in a run, crashes included. |
| MvccTheorems.PagesConserved | dart/src/lmdb/mdb.c:2175-2345 | In every run the audit equation holds: tree pages, freeDB pages, listed free pages and the metas add up to the next page number, for the published database, the one a crash leaves, and the writer at work. |
| MvccTheorems.SnapAudit | dart/src/lmdb/mdb.c:3098-3316 | A committed snapshot in which each page is once in a tree or once in a record meets the audit equation. |
| MvccSteps.WorkCover | dart/src/lmdb/mdb.c:1878-1922 | Every allocation, change, free, loosening and give-back leaves each page listed exactly once. |
| MvccSteps.SavedCover | dart/src/lmdb/mdb.c:3098-3316 | After the free-list save each page is in a tree or in exactly one record with a valid key. |
| MvccSteps.WorkApart | dart/src/lmdb/mdb.c:2438-2533 | No work of the writer makes a page of a protected snapshot one that it may write. |
| MvccCommit.SyncHolds | dart/src/lmdb/mdb.c:3676-3684 | Once all tree pages are flushed, the file and, after the sync, stable storage hold the new snapshot. |
| MvccCommit.PutBack | dart/src/lmdb/mdb.c:3928-3945 | A failed meta write leaves a page that is never picked; the old snapshot is. |
| MvccCommit.CrashStep | dart/src/lmdb/mdb.c:3967-3971 | From every reachable state a crash leads to one in which the invariant of the protocol holds. |
| MvccCommit.InvNext | dart/src/lmdb/mdb.c:3471-3697 | Every step of readers, writer, kernel and crash keeps the invariant, a meta write that fails among them, with its old data put back or not. |
| FreelistSave.Saver.Reserve | dart/src/lmdb/mdb.c:3178-3264 | When the loop exits, the reserved records up to the last one read have room for the whole free-page list with the loose pages, and the pages freed so far are saved, sorted, in the transaction's own record. It gives up only when it is not known what the next operation does. When the coming operations read no record and free no page it exits after at most one for each record up to the last one read, two for the freed pages, and one more than that last key, with room for at most one page of ids to spare. |
| FreelistSave.HeadRoom | dart/src/lmdb/mdb.c:3229-3251 | The share of a record is all that is needed, or the smallest number from the needed ids by its key on that fills whole overflow pages. |
| FreelistSave.SlotStep | dart/src/lmdb/mdb.c:3219-3263 | With the lists unchanged each record written leaves fewer to write. |
| FreelistSave.MergeLoose | dart/src/lmdb/mdb.c:3266-3288 | The loose pages, sorted and put at the end of the list's own block, join the free list, which stays strictly descending. |
| FreelistSave.CutRecord | dart/src/lmdb/mdb.c:3306-3310 | A record is cut out of the list by lending the slot before it for the length; the list is as before afterwards. |
| FreelistSave.FillRecords | dart/src/lmdb/mdb.c:3290-3314 | The records filled join up to exactly the list, highest key first; none holds more than its room, and all others are unchanged. |
| FreelistSave.JoinedStrict | dart/src/lmdb/mdb.c:3290-3314 | The cuts of a strictly descending list descend strictly and share no page. |
| FreelistSave.FilledSavesHead | dart/src/lmdb/mdb.c:3098-3316 | The filled records are a free-list save as the protocol asks for it: valid keys, no page twice, and exactly the pages of the head list and the loose list. |
| FreelistSave.SavedIsStep | dart/src/lmdb/mdb.c:3098-3316 | The whole final freeDB is the one a save step of the protocol leaves: unread records as they were, the filled ones, and the record of the pages freed. |
| FreelistSave.ReserveDone | dart/src/lmdb/mdb.c:3178-3224 | What the reserve loop leaves besides the reserved records is what that step needs: the unread records and a record of exactly the freed pages, if there are any. |
| SlottedPage.AddTiled | dart/src/lmdb/mdb.c:7379-7421 | A node written below `upper` leaves the page tiled by even-sized disjoint nodes, and inserts its bytes into the node sequence. |
| SlottedPage.DelTiled | dart/src/lmdb/mdb.c:7462-7486 | Deleting a node and moving those below it up leaves the page tiled, and takes exactly its bytes out of the sequence. |
| SlottedPage.ReplaceTiled | dart/src/lmdb/mdb.c:7824-7861 | Resizing one node in place leaves the page tiled, and all other nodes byte for byte as they were. |
| PageNodes.DecodeEncode | dart/src/lmdb/mdb.c:7385-7421 | A node reads back from its bytes, whatever stands in the padding. |
| PageNodes.StoredIff | dart/src/lmdb/mdb.c:7255-7268 | A leaf node stays whole iff it is not larger than the limit; otherwise it keeps key, size and flags, with the overflow flag set, and the page number in place of its data. |
| PageNodes.TwoFit | dart/src/lmdb/mdb.c:4480-4481 | Two nodes within that limit always fit on a page with their slots, two larger ones never. |
| PageNodes.Page.Add | dart/src/lmdb/mdb.c:7311-7430 | On success the node sequence gains the node at its index, an oversized one as a reference to its overflow page; the page is full iff the padded node and its slot do not fit, and unchanged then. |
| PageNodes.Page.Del | dart/src/lmdb/mdb.c:7438-7487 | Exactly the node at the index is gone, and its space is free. |
| PageNodes.Page.UpdateKey | dart/src/lmdb/mdb.c:7796-7862 | Exactly one node gets the new key; when it does not fit the node is gone and the caller is told to split. |
| SplitPoint.FindSplit | dart/src/lmdb/mdb.c:8797-8841 | The two scans end where the recursive split index says; whenever the split point is looked for both halves fit, and otherwise it is the middle. |
| SplitPoint.MiddleFits | dart/src/lmdb/mdb.c:8797-8809 | Cut in the middle, both halves fit iff the new item fits beside those on its own side, the key that leads their branch page not counted. |
| SplitPoint.SplitFitsIff | dart/src/lmdb/mdb.c:8797-8841 | On leaf and branch pages alike, both halves of a full page fit iff the split point is looked for or there is that room in the middle. |
| SplitPoint.TwoEach | dart/src/lmdb/mdb.c:8809-8839 | A branch page is cut so that either half keeps at least two children. |
| SplitPoint.MiddleOverflows | dart/src/lmdb/mdb.c:8809 | A 4096-byte leaf page for which the split point is not looked for and the left half overflows. |
| PageSplit.Split | dart/src/lmdb/mdb.c:8642-9057 | Left and right page hold the old nodes with the new one at its index, the first right branch key moved up as separator, and the cursor stands on the new node; it succeeds iff there are fewer nodes than the page size by 128, or the new one is last or takes more than a sixteenth of the page, or it has room in the middle. |
| PageSplit.PartsJoin | dart/src/lmdb/mdb.c:8904-8949 | The two parts in a row are the old nodes and the new one, but for the keys that lead branch pages. |
| PageMerge.MergePages | dart/src/lmdb/mdb.c:8139-8200 | All nodes of the source page go to the end of the other one, a leading branch node with its key restored; it fails iff they do not fit. |
| PageMerge.MoveFromLeft | dart/src/lmdb/mdb.c:7886-8104 | The last node of the left page becomes the first one of the right page, on branch pages with the old first key restored and its own key given up to the parent. |
| PageMerge.MoveFromRight | dart/src/lmdb/mdb.c:7886-8104 | The mirror image, the moved node with the lowest key below it. |
| PageMerge.BranchUse | dart/src/lmdb/mdb.c:7284-7292 | The bytes of the nodes on a branch page are those that the rebalancing rule counts for the same page as a value. |
| Rebalance.LeafMoves | dart/src/lmdb/mdb.c:7886-8104 | Moves and merges of leaf pages keep the entries and their order, with a separator between the pages. |
| Rebalance.BranchMerge | dart/src/lmdb/mdb.c:8115-8250 | Merging branch pages keeps all entries below in order, and the result is a valid page. |
| Rebalance.BranchFromLeft | dart/src/lmdb/mdb.c:7886-8104 | So does moving a child from the left neighbour. |
| Rebalance.BranchFromRight | dart/src/lmdb/mdb.c:7886-8104 | And from the right one. |
| Rebalance.ReplaceOk | dart/src/lmdb/mdb.c:8392-8458 | Whatever two neighbours become, the order of the parent stays valid and it holds the same entries; whether it has room is said by TreeSizes.RekeyFits. |
| Rebalance.MendFits | dart/src/lmdb/mdb.c:8289-8306 | Whichever of move and merge the rule chooses, the receiving page has room, restored first key included. |
| TreeSizes.MendSized | dart/src/lmdb/mdb.c:8289-8306 | After the move or merge that the rule chooses both pages, and all below them, are within their size. |
| TreeSizes.RekeyFits | dart/src/lmdb/mdb.c:7824-7835 | After a move the parent is within its size iff it has room for what the new separator is longer than the old one. |
| TreeSplit.AddKidOk | dart/src/lmdb/mdb.c:8857-8896 | A parent that gets the separator of a child that was cut stays a valid page with the same entries. |
| TreeSplit.SettleOk | dart/src/lmdb/mdb.c:7824-7835 | A branch page too full for its new separator becomes two valid pages within their size, with at least two children each, the same entries in order, and a separator between them. |
| TreeSplit.SettleIff | dart/src/lmdb/mdb.c:8809-8839 | The page is left alone iff it has room; cutting it fails iff the split point is not looked for and the middle has no room. |
| TreeDelete.RepairOk | dart/src/lmdb/mdb.c:8281-8461 | Rebalancing one level, with the split of the parent that may follow, changes no entry and leaves valid pages within their size. |
| TreeDelete.RepairWhen | dart/src/lmdb/mdb.c:8289-8306 | What is done about a page that lost a node follows from the bytes in use and the numbers of nodes: nothing from a quarter of a leaf or a thousandth of a branch page on, else a move if the neighbour is that full and keeps enough nodes, else a merge. |
| TreeDelete.DeleteOk | dart/src/lmdb/mdb.c:8281-8461 | A deletion through all levels that does not fail for want of room removes exactly the entry at the cursor from a valid tree and leaves a valid one of uniform depth with every page within its size: one level higher when the root was cut, and otherwise of the same depth or one level lower. |
| TreeDelete.CutIff | dart/src/lmdb/mdb.c:7824-7835 | On each level a page is cut, or the deletion fails there, iff the page has no room for what it gets: the separator of a child that was cut, or the difference of two separators after a move. |
| TreeDelete.RoomyDelete | dart/src/lmdb/mdb.c:8281-8461 | When each branch page on the way has room for one separator of any length in place of another, the deletion succeeds and the tree gets no higher. |
| TreeGrowth.DeleteGrows | dart/src/lmdb/mdb.c:7824-7835 | A tree of two levels, every page within its size, that has three levels after one deletion. |
| TreePages.MendPages | dart/src/lmdb/mdb.c:8392-8458 | On page buffers that show two neighbours, with room for the most the receiving one has to hold, the choice between move and merge and its outcome are those of the tree operation. |
| TreePages.RebalancePages | dart/src/lmdb/mdb.c:8281-8458 | A page buffer is left alone iff it is as full as that; otherwise, whatever the two pages within their size hold, there is room for what is done to them, and the buffers become those of the tree operation. |
| TreePages.RekeyPage | dart/src/lmdb/mdb.c:7796-7862 | On the buffer of the parent, writing the separator and the split that may follow leave the page or the two pages, and the separator, of the tree operation, and fail iff it does. |
| ByteOrder.Antisymmetric | dart/src/lmdb/mdb.c:5264-5280 | Two keys compare one way exactly when they compare the other way round. |
| ByteOrder.Transitive | dart/src/lmdb/mdb.c:5264-5280 | The byte order is transitive. |
| ByteOrder.PrefixBlock | dart/src/lmdb/mdb.c:5264-5280 | Keys with a common prefix are next to each other. |
| CursorSearch.NodeSearch | dart/src/lmdb/mdb.c:5316-5404 | Binary search finds the first place not below the key, and whether it is the key's own; place 0 of a branch page is never compared. |
| CursorSearch.FollowNarrows | dart/src/lmdb/mdb.c:5545-5575 | All entries below the children not followed are on the wrong side of the key. |
| CursorStack.RightSibling | dart/src/lmdb/mdb.c:5850-5896 | The right sibling starts with the entry after the last one of the page, and there is none iff that was the last entry. |
| CursorStack.LeftSibling | dart/src/lmdb/mdb.c:5850-5896 | The left sibling ends before the first entry of the page, and there is none iff that was the first entry. |
| Cursors.Cursor.MoveSibling | dart/src/lmdb/mdb.c:5850-5896 | The stack becomes that of the sibling; when there is none, all of it is restored. |
| Cursors.Cursor.First | dart/src/lmdb/mdb.c:6265-6306 | The cursor stands on the first entry, or there is none. |
| Cursors.Cursor.Next | dart/src/lmdb/mdb.c:5900-5981 | From any position, past the end of a leaf included, the cursor moves to exactly the entry that comes next; after the last one it reports the end and stays. |
| Cursors.Cursor.SetHere | dart/src/lmdb/mdb.c:6082-6172 | When the page-local shortcut answers, it answers as a search over all entries would. |
| Cursors.Cursor.Set | dart/src/lmdb/mdb.c:6067-6261 | From any position the cursor lands on the least key not below the request, or on the key itself, or there is none. |
| Cursors.Walk | dart/src/lmdb/mdb.c:5900-5981 | First and then next until the end yields every entry once, in key order. |
| CompactCopy.EmitRepr | dart/src/lmdb/mdb.c:9213-9365 | The recursive copy yields a file in which the root's new number leads to the same tree, all child and overflow references renumbered. |
| CopyWalk.Walk | dart/src/lmdb/mdb.c:9213-9365 | The iterative walk with its page stack writes exactly the pages of the recursive copy, in that order. |
| CopyWalk.EmitCount | dart/src/lmdb/mdb.c:9439-9475 | The copy has one page for each page of the tree, overflow pages included. |
| CopyWalk.Copy | dart/src/lmdb/mdb.c:9369-9496 | The copied file holds the same tree, its root is the last page, and the copy succeeds iff the page counts of the source add up; an empty tree leaves just the meta pages. |
| CopyWalk.PublishedCopies | dart/src/lmdb/mdb.c:9439-9475 | On every snapshot published in a run of the protocol they do add up, given that the tree copied has the pages of the snapshot's main tree. |
| CopyThreads.HandOff | dart/src/lmdb/mdb.c:9110-9181 | In every interleaving the buffer being filled is not the one being written, and what was written is a beginning of what was handed over, tails included, in order. |
| CopyThreads.FileIsStream | dart/src/lmdb/mdb.c:9340-9356 | In every interleaving the file is a beginning of the pages and overflow tails that the provider put, as read off its steps; when both threads are done without an error it is all of them, in order. |
| CopyThreads.WriterStops | dart/src/lmdb/mdb.c:9194-9204 | The writer stops only when nothing more will be handed over; without an error all of it is written then. |
| CopyThreads.SomeoneMoves | dart/src/lmdb/mdb.c:9110-9204 | No deadlock: until both threads are done, one of them can take a step that brings the copy on. |
| ObKeys.BigEndianOrder | src/lmdb_reader.cpp:38-48 | The byte order on big-endian numbers is the order of the numbers. |
| ObKeys.ReadWrite | src/lmdb_reader.cpp:38-48 | Writing what was read gives the same four bytes. |
| ObKeys.PrefixAlias | src/lmdb_reader.cpp:140-146 | Two lookups share their prefix iff their sources are equal and their relation ids are equal modulo 64. |
| ObKeys.PrefixOfLink | src/lmdb_reader.cpp:140-146 | Below 64, a link has the prefix iff it is a forward link of this relation and source. |
| ObReader.ToManyTargets | src/lmdb_reader.cpp:133-176 | The targets ascend strictly; on a store whose relation keys are links, and for relation ids below 64, they are exactly those linked forward from the source. |
| ObReader.FindsAllIff | src/lmdb_reader.cpp:160-168 | All links with the prefix are found iff no key with the prefix and another length stands before one of them. |
| ObReader.HitsAscend | src/lmdb_reader.cpp:160-168 | Whatever the keys, the targets of consecutive hits ascend strictly. |
| ObReader.TargetsExact | src/lmdb_reader.cpp:133-176 | When all relation keys are links and the relation id is below 64, the hits are exactly the links forward from the source: no backward link, other relation or other source. |
| ObReader.ForEachObject | src/lmdb_reader.cpp:103-131 | The callback gets each data entry of the store once, in key order, up to the record at which it asks to stop: the entity in the fourth byte, the object in the last four, and the payload, or the first bytes of the overflow run by the stored size. |
| ObReader.ObjectsExact | src/lmdb_reader.cpp:113-117 | On a store whose 8-byte data keys are ObjectBox's, a full walk has a record of an object iff the store has an entry with its key, entities ascending and objects ascending strictly within them, each with the data of that entry. |
| ObReader.SameObjectTwice | src/lmdb_reader.cpp:113-117 | Keys that differ only in the two low bits of the entity byte are read as the same object. |
| ObReader.StoredRead | dart/src/lmdb/mdb.c:5795-5815 | Data come back as they were added, on the page or from the overflow run that holds them. |
| ObKeys.DataKeyOrder | src/lmdb_reader.cpp:113-117 | Data keys sort by entity and then by object. |
| ObReader.EntitiesInOrder | cli/main.c:84-90 | When bytes 1 and 2 of data keys are zero, entity ids never go down in the walk. |
| JsonStream.Writer.Put | cli/main.c:98-122 | The text after each record is that of the members so far with the last array open. |
| JsonStream.Writer.Finish | cli/main.c:178-182 | The closing brackets complete the text of the members. |
| JsonDump.BatchDump | src/dumper.cpp:11-37 | The map has a key for each entity with a record, and under it all its records, in order. |
| JsonDump.StreamEqualsBatch | cli/main.c:98-122 | For all record lists: the streamed members, the last of a name winning, stand for the map of the in-memory dump iff records of an entity are contiguous, only names of 1 to 255 characters repeat, and no name is followed by its own 255-character cut; then each entity is opened once. |
| JsonText.ReadBack | cli/main.c:98-122 | The streamed text of well-formed records reads as a JSON object of arrays with exactly these members, in order, and nothing behind it. |
| Dumper.DumpStreaming | src/dumper.cpp:39-60 | From the tree to the text: the records are those of exactly the data entries of known entities, in key order, each made of its object and the targets of its relations; on a store with ObjectBox's keys the text is a JSON text with one member for each entity that has records, holding them in order. |
| Dumper.DumpToJson | src/dumper.cpp:11-37 | The in-memory dump holds the same records, of exactly the data entries of known entities, by entity name and in key order. |
| Dumper.LinksExact | src/dumper.cpp:26-28 | On a store with ObjectBox's links, the list put out for a relation id below 64 holds exactly the targets linked forward from the object, ascending. |
| Dumper.WalkedDumped | src/dumper.cpp:17-24 | A full walk without the objects of unknown entities is each data entry of a known entity once, in key order. |
| Dumper.DumpsAgree | src/dumper.cpp:11-60 | With ObjectBox's keys and distinct names of 1 to 255 characters that need no escape, the streamed text reads as the map of the in-memory dump, each entity opened once. |
| Dumper.SameMap | src/dumper.cpp:11-60 | Side by side: a text that means what the streamed dump does and a map that holds what the in-memory dump does have the same keys with the same records. |
| Dumper.CutNameMixes | cli/main.c:108-112 | For every longer name, records of the entity named by its first 255 characters go into its array. |

## Left out

- Several processes: reader slots belong to threads of one process, and the check for dead readers is not modelled.
- Insertion into the tree as a whole (`mdb_cursor_put`): the page methods it uses are modelled, and the splits that climb from a child to its parents are, for deletions; the descent of an insertion is not, nor the loop of `mdb_page_spill`.
- NestedCommit.CommitLists: the child's spill list is not appended to the parent's and sorted, the two are joined as sets; the shortcut that takes the length of the merged dirty list from the room counter when the parent has no parent is not taken.
- PageAlloc.Txn.Alloc: the page obtained is not entered in the dirty list, whose insertion is `DirtyList.Insert`; only the room counter is kept.
- The B-tree pages of `Rebalance`, `TreeDelete`, `Cursors` and `CopyWalk` are values; the byte-level moves are proved on buffers in `PageNodes`, `PageSplit`, `PageMerge` and `TreePages`. Sharing of one page by several cursors, and their tracking, is not captured.
- Termination of the free-list save's outer loop when its own operations keep reading records or freeing pages: that depends on the page use of the freeDB, which is a parameter. Without that, the bound is proved.
- The page header's own 16-bit fields are fields of a class, not bytes of the buffer.
- PageSplit.Split: an overflow page for an oversized new node is passed in; failing to get one is modelled in `PageNodes.Page.Add` only. Appending with `MDB_APPEND` and the insertion of the separator into the parent are not part of the method.
- PageMerge.MoveFromLeft: the parent's separator is returned to the caller; writing it, and the split that may follow, is `TreePages.RekeyPage`, and what that means further up `TreeDelete.DeleteOk`.
- PageMerge.MoveFromRight: the same.
- PageMerge.MergePages: unlinking the emptied page from its parent is `PageNodes.Page.Del` on the parent's buffer, and `Rebalance.Replace` on the tree.
- FreelistSave.MergeLoose: the loose pages are sorted before they are put at the end of the list's block, not there.
- CopyThreads.SomeoneMoves: condition variables are modelled as tests that may be repeated at any time, so a lost wake-up is not expressed.
- FreelistSave.Saver.Reserve: when the parameter that stands for the freeDB's page use is exhausted the method ends early, and nothing is promised then but that it is exhausted.
- `MDB_WRITEMAP`, `MDB_NOSYNC`, `MDB_FIXEDMAP`, `MDB_DUPSORT`, `LEAF2` pages, sub-databases and extended cursors: ObjectBox uses the plain main database.
- Memory maps, file handles, locks, semaphores and the Windows branches.
- The decoding of FlatBuffers, the schema, the `.fbs` generator and the C interface: tables and thin calls into libraries that are not in the repository.
- The Python, JavaScript and Dart readers: they repeat the walk of `src/lmdb_reader.cpp`.
- Dumper.DumpStreaming: the text of a record is taken as its decoder gives it; it has to end where its brackets are closed, and is not parsed further.
- JSON escapes in entity names: the writer does not escape them, and `JsonText` reads only names that need none. How `dumpToJson` orders the keys of its result is not modelled.
