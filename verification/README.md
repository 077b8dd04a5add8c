# Minirel in Dafny

A model of the Minirel storage engine and of the relational operators on top of it, with proofs of what the
layers promise each other. `dafny verify dfyconfig.toml` checks the whole project.

The model follows the program from the bytes of a page to the result of a join:

| module | part of Minirel |
|---|---|
| `Common`, `Compare` | status codes; comparison of attributes in filters and joins, with 32-bit wrap-around and IEEE special values |
| `PageSpec`, `Page` | slotted pages: as a map from slots to records, and as 1004 bytes of data and directory updated in place |
| `DiskSpec` | a Unix file as a sequence of pages with a free list threaded through them |
| `BufHash`, `BufSpec`, `Buf` | the index of the buffer pool, the pool as a value, and the buffer manager over arrays |
| `BufRefine`, `BufRuns` | the pool refines plain storage: what clients see (`View`) and runs of calls |
| `Storage` | the buffer manager as heap files use it, with the `View` kept beside it |
| `HeapSpec`, `Chain` | heap files as sequences of pages, records in scan order; the heap-file invariant and the pins of one object |
| `Create`, `HeapFile` | createHeapFile, and the HeapFile, HeapFileScan and InsertFileScan objects |
| `Session`, `Clients` | any number of such objects opened, working and destroyed in any order, and what reaches the disk |
| `QuerySpec`, `Query`, `Tandem` | what deletion and join compute; scans and deletion loops; objects that work side by side |
| `Delete`, `NestedLoops`, `QuJoin`, `Insert` | QU_Delete, the nested loops join and QU_Insert, from pages in the pool to pages on disk |
| `SortSpec`, `SortRuns`, `Sort` | the external sort: the order and the merge, writing the runs, and the sorted file with its marks |
| `JoinHT` | the join's hash table |
| `CatalogSpec`, `CatalogScan`, `Catalog` | catalog tuples as records, the scans of the catalog files, creating and destroying relations |

How the layers meet. `Buf.BufMgr` is proved equal, call by call, to the functions of `BufSpec`. `BufRefine.Coherent`
relates a pool to a `View`: the contents of every allocated page, the pins, and the pages a holder has written and
must still unpin dirty. Eviction, write-back, lookup and flushing do not show in the view. Heap files are written
against the view; an object's methods say how they exchange its own pins and leave everybody else's alone
(`Chain.Exchanged`). From that, `Session` derives what holds over all runs of all objects, and the query operators
end with pages on disk (`BufRuns.Durable`).

Ghost parameters named `chain` and `pages` are the page numbers of a heap file in order and the page images a client
sees there; a `HeapImage` is a file with both. A pointer to a pinned page is the number of its frame: `Store.Get` and
`Store.Put` go to that frame, and every operation says that what others have pinned stays where it is. A filter may
point at a record in the pool; it is read there whenever a record is compared (`HeapFile.HeapFile.Match`).

Some properties one might expect do not hold of the program. For each there is a statement of when they do:

- a file is flushed when its last object goes if and only if createHeapFile was never called for it while it existed and no call that opens it ran out of frames, because such a call leaves the file open (`Session.LastCloseFlushesIff`); without it a record inserted into a new file reaches the disk, with it the record does not (`Clients.InsertIntoNew`);
- reading a page that is not in the file keeps the pool's index right if and only if the call does not evict a page (`BufRuns.ReadKeepsInvIff`);
- disposing of a page keeps the free list a list if and only if the page is not on it already (`DiskSpec.DisposeKeepsListIff`);
- records of 1001 to 1004 bytes pass the length check of insertRecord and fit on no page (`HeapFile.HeapFile.InsertRecord`);
- deleting an empty record is refused but counted (`HeapFile.HeapFile.DeleteRecord`), and a scan stops at one (`HeapFile.HeapFile.ScanNext`);
- opening a heap file pins its two pages if and only if the pool has frames for them, although the constructor reports success in any case (`HeapFile.HeapFile.Open`);
- a scan that starts over returns what a fresh one would if and only if the first page has a record or a fresh one would return nothing (`Query.Rescan`);
- QU_Delete deletes exactly what its condition says if and only if every record is compared rightly, or, when the filter is refused, if and only if everything was to go (`QuerySpec.DeleteResultIff`, with `QuerySpec.RefusedLiteral` and `QuerySpec.WrongLiteral` as inputs on which it does not); equality with an accepted literal of another type is decided rightly on all records if and only if the literal's bytes are the same nonzero number in either type, or a float that nothing equals (`QuerySpec.OtherTypeEqualityIff`); it loses its scan object when the attribute is unknown (`Delete.QuDelete`);
- filters, joins and sorts compare rightly if and only if the difference can be represented (`Compare.MatchIsComparisonIff`, `QuerySpec.InnerFilterJoinsIff`, `SortSpec.SortsAllIff`);
- the join's type check is on what the caller says, and the interpreter says nothing, so attributes of different types are joined (`QuJoin.TypesUnchecked`); an equality join of them is right for an outer value if and only if that is the same number in both types or nothing in the inner type can equal it (`QuJoin.OtherTypeJoinIff`);
- a sort succeeds if and only if the source has no empty record and the pool has two frames for every run (`Sort.SortWorksIff`);
- a mark set in a sorted file before the first record leads to its end (`Sort.EarlyMark`);
- all strings equal to a given one are found in the join's hash table, whatever `int` its size is, if and only if that one ends within the attribute (`JoinHT.AlwaysFoundIff`);
- attributes of a new relation overlap if and only if one behind the first has a negative length, which createRel does not refuse (`Catalog.OffsetsTile`);
- a tuple inserted with fewer values than the relation has attributes is too short (`Insert.FullWidthIff`);
- createRel with an attribute name that is too long leaves catalogs that describe no set of relations (`Catalog.Catalogs.CreateRel`), and so does destroyRel for a relation with an attribute without a name unless it is the first (`Catalog.Catalogs.DestroyRel`).

Where comments and code differ, the model follows the code. In particular sort.C:241 says that opening a run's file
creates it, but the constructor of a heap file only opens existing files (heapfile.C:82); the status of that opening
is a parameter of the sort.

## Model

| member | source | states |
|---|---|---|
| Compare.Wrap32 | Minirel Project/heapfile.C:439 | the result is the one 32-bit integer congruent to the argument |
| Compare.StrncmpOrder | Minirel Project/heapfile.C:452-456 | strncmp on two fields is lexicographic comparison of the C strings in them |
| Compare.CodeOrderIsTrueIff | Minirel Project/heapfile.C:428-457 | the computed difference has the sign of the true comparison iff it does not overflow and is not between equal infinities |
| Compare.FloatsDiffer | Minirel Project/heapfile.C:442-451 | two different four-byte floats are different numbers, except that zero can be written in two ways |
| Compare.SatisfiesIff | Minirel Project/heapfile.C:459-466 | each operator is decided rightly on exactly the stated inputs; equality survives an overflow, order does not |
| Compare.MatchIsComparisonIff | Minirel Project/heapfile.C:418-470 | a record shorter than the field never matches; otherwise matching is the comparison iff the code can make it |
| Compare.TrueOrderFlips | Minirel Project/join.C:104-112 | exchanging the two values exchanges less and greater |
| Compare.MirroredSatisfies | Minirel Project/join.C:104-112 | the mirrored operator on exchanged values accepts what the operator accepts |
| PageSpec.LowestHole | Minirel Project/page.C:66-80 | a free slot with only used slots in front of it, or the end of the directory |
| PageSpec.NextLive | Minirel Project/page.C:216-238 | the next used slot, everything skipped being holes |
| PageSpec.InsertKeepsLayout | Minirel Project/page.C:55-105 | insertion keeps the page within its space and its last slot in use, and adds exactly the record's bytes |
| PageSpec.InsertAddsOne | Minirel Project/page.C:55-105 | the map of records gains one entry at the lowest free slot and changes nowhere else |
| PageSpec.DeleteRemovesOne | Minirel Project/page.C:111-189 | the map of records loses one entry and changes nowhere else; at least the record's bytes become free |
| PageSpec.ContentsDetermineSlots | Minirel Project/page.C:160-185 | trimming makes the directory canonical: the map of records determines it |
| PageSpec.InsertThenDelete | Minirel Project/page.C:55-189 | deleting the record just inserted restores the page |
| PageSpec.RecordSurvivesRun | Minirel Project/page.C:55-189 | over any sequence of insertions and deletions a record keeps slot and bytes until its own deletion |
| Page.RecordsTile | Minirel Project/page.C:141-158 | every byte in front of freePtr belongs to exactly one record |
| Page.CompactKeepsLayout | Minirel Project/page.C:141-158 | moving the bytes down and patching the offsets keeps every other record's bytes and the tiling |
| Page.Page.Init | Minirel Project/page.C:10-18 | the bytes represent the empty page of that number |
| Page.Page.SetNextPage | Minirel Project/page.C:34-38 | the link changes and nothing else on the page |
| Page.Page.InsertRecord | Minirel Project/page.C:55-105 | the bytes represent the page with the record inserted, or NOSPACE and no change, exactly when it does not fit |
| Page.Page.DeleteRecord | Minirel Project/page.C:111-189 | the bytes represent the page without the record, or INVALIDSLOTNO and no change |
| Page.Page.Compact | Minirel Project/page.C:141-158 | the data behind the deleted record is moved over it, the rest stays |
| Page.Page.TrimDirectory | Minirel Project/page.C:160-185 | unused slots at the end of the directory are given back and no others |
| Page.Page.FirstRecord | Minirel Project/page.C:192-212 | the first used slot, or NORECORDS if there is none |
| Page.Page.NextRecord | Minirel Project/page.C:216-238 | the next used slot, or ENDOFPAGE if there is none |
| Page.Page.GetRecord | Minirel Project/page.C:241-254 | the bytes of the record, or INVALIDSLOTNO for holes, empty records and slots outside the directory |
| DiskSpec.FreeListUnique | Minirel Project/db.C:238-330 | a file has at most one free list |
| DiskSpec.AllocateKeepsList | Minirel Project/db.C:238-285 | allocation returns a page not in use, takes it off the list or extends the file, and changes no other page |
| DiskSpec.DisposeKeepsList | Minirel Project/db.C:292-330 | disposing of a page in use puts it in front of the list and changes no other page |
| DiskSpec.DisposeKeepsListIff | Minirel Project/db.C:292-330 | after an accepted disposal there is a free list iff the page was not on it |
| DiskSpec.RunConserves | Minirel Project/db.C:238-330 | in every run from a new file, pages handed out and free pages partition the file and allocation never returns a page in use |
| Buf.DB.AllocatePageIn | Minirel Project/db.C:238-285 | the file's pages, page number and status are those of the specification |
| Buf.DB.DisposePageIn | Minirel Project/db.C:292-330 | the file's pages and status are those of the specification |
| BufHash.BufHashTbl.Insert | Minirel Project/bufHash.C:51-75 | the chains represent the map with the new pair, or HASHTBLERROR and no change if the key is there |
| BufHash.BufHashTbl.Find | Minirel Project/bufHash.C:81-96 | the frame of the key in the map, or HASHNOTFOUND |
| BufHash.BufHashTbl.Remove | Minirel Project/bufHash.C:102-123 | the chains represent the map without the key, or HASHTBLERROR |
| BufRefine.ClockSweepComplete | Minirel Project/buf.C:67-131 | a frame is found within two rounds iff some frame is invalid or unpinned, and it is never a pinned one |
| BufRefine.EvictInvisible | Minirel Project/buf.C:89-131 | writing back and dropping a frame does not change what clients see |
| BufRefine.AllocBufInvisible | Minirel Project/buf.C:67-131 | finding a frame does not change what clients see; it fails iff all frames are pinned |
| BufRefine.ReadCoherent | Minirel Project/buf.C:134-169 | reading a page adds one pin and changes nothing else clients see, or fails because all frames are pinned |
| BufRefine.ReadSaves | Minirel Project/buf.C:67-169 | a page that is on disk as clients see it stays so when another page is read |
| BufRuns.UnpinCoherent | Minirel Project/buf.C:172-195 | unpinning takes one pin and succeeds iff there was one; a written page stays owed until it is unpinned dirty |
| BufRuns.ClientWriteCoherent | Minirel Project/buf.C:134-195 | a write through a pinned pointer changes that page for all clients and no other |
| BufRuns.FlushMakesDurable | Minirel Project/buf.C:197-232 | a flush fails iff a page of the file is pinned; otherwise the disk holds every page and no frame is left for the file |
| BufRuns.AllocCoherent | Minirel Project/buf.C:254-275 | a new page is one no client had, pinned once; on failure it is lost to the free list but nothing else changes |
| BufRuns.DisposeCoherent | Minirel Project/buf.C:236-251 | the page goes back to the free list and its frame is dropped |
| BufRuns.DestroyCoherent | Minirel Project/db.C:182-191 | removing a file no frame holds a page of takes its pages from what clients see and leaves everything else |
| BufRuns.ReadKeepsInvIff | Minirel Project/buf.C:134-169 | the index stays right after a read of any page, existing or not, iff the page exists or no page is evicted |
| BufRuns.ExecCoherent | Minirel Project/buf.C:67-275 | every allowed call keeps pool and view together; none returns BADBUFFER or HASHTBLERROR, and only an unpin returns HASHNOTFOUND |
| BufRuns.InitialCoherent | Minirel Project/buf.C:22-41 | an empty pool over files whose free lists are in order shows exactly what is on disk, with nothing pinned |
| BufRuns.RunCoherent | Minirel Project/buf.C:67-275 | in every run of allowed calls from an empty pool, creation of files included, each page is in at most one frame, the index finds it there, and invalid frames are clean |
| BufRuns.RunRefinesStorage | Minirel Project/buf.C:67-275 | from an empty pool on, a page's contents, in the frame or on disk, are those of the last write to it between any two points of a run |
| BufRuns.PinnedRun | Minirel Project/buf.C:67-275 | a page that is pinned between two points of a run from an empty pool stays in its frame, so the client's pointer stays good |
| Buf.BufMgr.SweepClock | Minirel Project/buf.C:67-100 | the loop over the clock ends where the recursive sweep does |
| Buf.BufMgr.AllocBuf | Minirel Project/buf.C:67-131 | arrays, index and disk afterwards are those of the specification |
| Buf.BufMgr.ReadPage | Minirel Project/buf.C:134-169 | arrays, index and disk afterwards are those of the specification, and the frame returned holds the page |
| Buf.BufMgr.UnPinPage | Minirel Project/buf.C:172-195 | arrays, index and disk afterwards are those of the specification |
| Buf.BufMgr.FlushFile | Minirel Project/buf.C:197-232 | arrays, index and disk afterwards are those of the specification |
| Buf.BufMgr.DisposePage | Minirel Project/buf.C:236-251 | arrays, index and disk afterwards are those of the specification |
| Buf.BufMgr.AllocPage | Minirel Project/buf.C:254-275 | arrays, index and disk afterwards are those of the specification |
| Storage.Store.Start | Minirel Project/buf.C:22-41 | a store over the files of a database, nothing pinned, clients seeing the disk |
| Storage.FramesTaken | Minirel Project/buf.C:67-131 | all frames are pinned iff there are as many pinned pages as frames |
| Storage.Store.ReadPage | Minirel Project/buf.C:134-169 | one more pin on the page, in its frame if it was pinned; fails iff it is not pinned and every frame holds a pinned page; what was on disk stays there |
| Storage.Store.UnPinPage | Minirel Project/buf.C:172-195 | one pin less, or an error status and no change iff the page was not pinned |
| Storage.Store.AllocPage | Minirel Project/buf.C:254-275 | a page new to all clients, pinned once, all others in their frames; fails iff every frame holds a pinned page |
| Storage.Store.Get | Minirel Project/heapfile.C:79-120 | reading the frame a pointer names gives the contents every client sees of the page pinned there |
| Storage.Store.Put | Minirel Project/heapfile.C:43-59 | writing the frame a pointer names changes that page for every client and is owed to the disk |
| Storage.Store.FirstPage | Minirel Project/db.C:414-425 | the header page of a heap file is page 1 |
| Storage.Store.CreateFile | Minirel Project/db.C:155-180 | a file without pages of its own, in no frame |
| Storage.Store.OpenFile | Minirel Project/db.C:511-543 | the open count goes up by one |
| Storage.Store.CloseFile | Minirel Project/db.C:212-231 | the last close of a file without pins leaves all of it on disk; any other close leaves the pool alone |
| Storage.Store.FlushFile | Minirel Project/buf.C:197-232 | succeeds iff no page of the file is pinned, and then the disk holds the file |
| Storage.Store.DestroyFile | Minirel Project/db.C:493-504 | FILEOPEN and no change iff the file is open, UNIXERR iff it is not there, otherwise exactly this file is gone |
| HeapSpec.ScanIsMatching | Minirel Project/heapfile.C:291-384 | repeated scanNext returns the matching records once each, in chain and slot order |
| HeapSpec.InsertAddsEntry | Minirel Project/heapfile.C:505-587 | insertion adds one record to the scan order; all others keep RID, bytes and order |
| HeapSpec.InsertPosIncreases | Minirel Project/heapfile.C:505-587 | insertions with no deletion between them go to strictly increasing places, also when holes are reused |
| HeapSpec.InsertedInOrder | Minirel Project/heapfile.C:505-587 | matching records inserted one after the other are found in that order behind those already there |
| HeapSpec.DeleteFromPages | Minirel Project/heapfile.C:396-408 | deletion takes one record out of the scan order |
| HeapSpec.DeleteKeepsAhead | Minirel Project/heapfile.C:396-408 | deleting the record under the cursor leaves what is ahead of the cursor, even when slots are trimmed |
| Chain.ChangePage | Minirel Project/heapfile.C:396-408 | changing one page's slots and the record count together keeps the heap-file invariant |
| Chain.AppendChain | Minirel Project/heapfile.C:545-575 | linking a new page keeps the heap-file invariant for the longer chain |
| Chain.ReadyKept | Minirel Project/join.C:119-130 | a filter that points into a page pinned by another object stays good whatever the scan does to its own pins |
| Create.EmptyHeapFile | Minirel Project/heapfile.C:27-50 | a header and one empty page satisfy the heap-file invariant with no records |
| Create.CreateHeapFile | Minirel Project/heapfile.C:5-65 | a new file is an empty heap file on disk and closed; an existing one is left alone but stays open once more; without frames for two more pages the file stays open and its header page pinned, if it had a frame |
| HeapFile.HeapFile.Open | Minirel Project/heapfile.C:74-120 | header and first data page are pinned iff the pool has frames for both, the scan stands in front of the first record, the open count goes up in any case |
| HeapFile.HeapFile.FetchRecord | Minirel Project/heapfile.C:168-202 | any record of the file by its RID, whichever page was pinned before |
| HeapFile.HeapFile.StartScan | Minirel Project/heapfile.C:210-237 | which parameters are accepted, and that refused ones leave the filter as it was |
| HeapFile.HeapFile.EndScan | Minirel Project/heapfile.C:240-253 | the data page is released and a later scanNext starts over |
| HeapFile.HeapFile.MarkScan | Minirel Project/heapfile.C:260-266 | the mark is the scan's position |
| HeapFile.HeapFile.ResetScan | Minirel Project/heapfile.C:268-288 | the position is the marked one again, so the same records are ahead, also if scan or mark are at the end of the file |
| HeapFile.HeapFile.NextPageWithRecord | Minirel Project/heapfile.C:345-372 | empty pages are passed over until one has a record or the chain ends, with the same number of pins |
| HeapFile.HeapFile.ScanNext | Minirel Project/heapfile.C:291-384 | the first matching or empty record ahead; the records ahead shrink to those behind it; FILEEOF is repeatable; a pinned page leaves one pinned; fails only if other pages fill the pool |
| HeapFile.HeapFile.Match | Minirel Project/heapfile.C:418-470 | the record is compared with the bytes the filter points at, as they are in the pool now |
| HeapFile.HeapFile.GetRecord | Minirel Project/heapfile.C:390-393 | the bytes of the record under the cursor |
| HeapFile.HeapFile.DeleteRecord | Minirel Project/heapfile.C:396-408 | one record less, count and chain right; if the page refuses, the count alone is one too low |
| HeapFile.MiscountedIsBroken | Minirel Project/heapfile.C:396-408 | a file whose count is one too low does not satisfy the heap-file invariant |
| HeapFile.HeapFile.MoveToLast | Minirel Project/heapfile.C:472-488 | an insert scan starts on the last page of the chain |
| HeapFile.HeapFile.InsertRecord | Minirel Project/heapfile.C:505-587 | the record is at the RID returned and nothing else changed, with the statuses for each record length; a record that fits on the pinned page needs no frame and no write |
| HeapFile.HeapFile.Close | Minirel Project/heapfile.C:123-154 | exactly this object's pins go; if it was the last object on the file the disk holds the file; if the count was not one nothing is written |
| Session.EachHolds | Minirel Project/heapfile.C:74-587 | an object among many has its pins whatever the others do |
| Session.PinnedByOther | Minirel Project/heapfile.C:74-587 | a page another object has pinned is pinned besides one's own pins, in the frame that object's pointer names |
| Session.StepKeepsAccounts | Minirel Project/heapfile.C:5-154 | every operation, also an open or a creation that fails, keeps pins equal to the sum over live objects plus the pins lost for good, and open counts equal to the number of objects plus the leaks |
| Session.RunKeepsAccounts | Minirel Project/heapfile.C:5-154 | the same in every state of every run |
| Session.LastCloseFlushesIff | Minirel Project/db.C:212-231 | in every run, when the last object on a file goes only lost pins on it are left, and it is flushed, without any pin, iff createHeapFile was not called for it while it existed and no open or creation of it failed |
| Session.LastCloseDurable | Minirel Project/db.C:212-231 | without such a call that flush succeeds and every page of the file is on disk, in no frame |
| Clients.StartSession | Minirel Project/buf.C:22-41 | a store just started over closed files has its accounts in order |
| Clients.OpenStep | Minirel Project/heapfile.C:74-120 | opening a file is a step of the session, whether its pages can be pinned or not; on failure the open count and perhaps a pin on the header page are lost |
| Clients.ScanStep | Minirel Project/heapfile.C:291-384 | scanNext is a step of the session |
| Clients.EndScanStep | Minirel Project/heapfile.C:240-253 | endScan is a step of the session |
| Clients.ResetStep | Minirel Project/heapfile.C:268-288 | resetScan is a step of the session |
| Clients.FetchStep | Minirel Project/heapfile.C:168-202 | getRecord by RID is a step of the session |
| Clients.MoveStep | Minirel Project/heapfile.C:472-488 | going to the last page to insert there is a step of the session |
| Clients.IdleStep | Minirel Project/heapfile.C:210-393 | a call that changes neither pins nor counts, such as startScan, markScan and getRecord, is a step |
| Clients.InsertStep | Minirel Project/heapfile.C:505-587 | insertRecord is a step of the session |
| Clients.DeleteStep | Minirel Project/heapfile.C:396-408 | deleteRecord is a step of the session |
| Clients.CloseStep | Minirel Project/heapfile.C:123-154 | destroying an object is a step; after the last one on a file only pins lost before are left on it, and the file is on disk, or nothing was written if an earlier call had left it open |
| Clients.CreateStep | Minirel Project/heapfile.C:5-65 | createHeapFile is a step in each of its outcomes: a new file on disk, a file that exists left open, or a file that is no heap file left open for want of frames |
| Clients.DestroyStep | Minirel Project/db.C:493-504 | removing a file is a step, and it succeeds iff no object is on the file and no call has left it open |
| Clients.InsertIntoNew | Minirel Project/db.C:549-565 | a run from any session: a record inserted into a new file is on disk at the end iff createHeapFile was not called for the file again, although nothing is pinned in either case |
| QuerySpec.SurvivorsDoNotMatch | Minirel Project/delete.C:55-62 | without empty records exactly the records that do not match are left |
| QuerySpec.SurvivorsBehindEmpty | Minirel Project/delete.C:55-62 | with an empty record everything from it on is left |
| QuerySpec.DeletedOrKept | Minirel Project/delete.C:55-62 | deleted and kept records make up the relation |
| QuerySpec.MismatchDeletesAll | Minirel Project/delete.C:33-53 | if startScan refuses the condition, nothing is left |
| QuerySpec.DeleteResultIff | Minirel Project/delete.C:29-62 | with a literal of the attribute's type the deletion is right iff the code compares every record rightly; with a refused literal iff every record was to go; with an accepted literal of another type iff every record stands to the literal as it does when its bytes are read in the literal's type |
| QuerySpec.OtherTypeEqualityIff | Minirel Project/delete.C:39-53 | equality with a literal of another type is decided rightly on all records iff the literal is a float that is not finite, or both are numbers and the literal's bytes are the same nonzero number in either type |
| QuerySpec.RefusedLiteral | Minirel Project/delete.C:39-53 | an integer literal for a string attribute of ten bytes empties the relation |
| QuerySpec.WrongLiteral | Minirel Project/delete.C:39-53 | an integer literal for a float attribute is accepted, keeps the record with 1.0 and deletes another |
| QuerySpec.DeliveredIsMatching | Minirel Project/join.C:130-134 | a loop while scanNext succeeds sees exactly the matching records |
| QuerySpec.RowHasLength | Minirel Project/join.C:74-79 | every output record is as long as the projected attributes together |
| QuerySpec.InnerFilterJoinsIff | Minirel Project/join.C:119-130 | the inner scan with the mirrored operator decides a pair as the condition reads iff the code can compare the two |
| QuerySpec.NestedLoopsJoin | Minirel Project/join.C:114-162 | the loops produce, for each outer record in order, the projection of each joining inner record in order |
| Query.FreshScan | Minirel Project/heapfile.C:74-120 | a scan just opened has all records ahead |
| Query.ScanAll | Minirel Project/heapfile.C:291-384 | driving a scan to the end returns exactly the matching records' RIDs in order, and nothing is ahead afterwards |
| Query.Rescan | Minirel Project/heapfile.C:240-327 | endScan and a second scan return the RIDs a fresh scan would iff the first page has a record or a fresh scan would return none |
| Query.RidsDistinct | Minirel Project/heapfile.C:291-384 | no RID comes twice |
| Query.DeleteMatching | Minirel Project/delete.C:55-62 | the records left are the survivors, and the file is in order iff there was no empty record |
| Delete.QuDelete | Minirel Project/delete.C:13-67 | refusals, the attribute found in the catalog as it was declared, the outcome on the relation, all pins given back, the outcome on disk if nobody else has the relation open, and the object lost on an unknown attribute |
| Delete.LookUpFinds | Minirel Project/catalog.C:106-142 | the tuple found for an attribute reads back as its declaration, and none is found iff none was declared |
| Tandem.OpenForInsert | Minirel Project/heapfile.C:472-488 | an object on the last page whose pins come on top of all others |
| NestedLoops.BuildRow | Minirel Project/join.C:136-154 | the output record is the projected attributes one behind the other, from the right relation |
| NestedLoops.OuterPinned | Minirel Project/join.C:114-130 | while the outer scan keeps its page, the inner filter's pointer is good for the inner scan |
| NestedLoops.InnerTurn | Minirel Project/join.C:130-161 | one inner record: filter and row read the outer record in the pool, where it still is after the row is appended |
| NestedLoops.JoinInner | Minirel Project/join.C:130-161 | one row is appended for each inner record delivered, while the outer record stays in its frame with its bytes and the filter points at it |
| NestedLoops.JoinOuter | Minirel Project/join.C:114-162 | the rows of all outer records are appended in order, or BADSCANPARM and none |
| NestedLoops.JoinFiles | Minirel Project/join.C:81-165 | from three relations in the pool to the result on disk: rows appended, all pins and open counts as before, other files untouched |
| QuJoin.LookUpAll | Minirel Project/join.C:42-72 | the attributes as they were declared, or the status of the first that the catalog does not have, without a trace |
| QuJoin.QuNlJoin | Minirel Project/join.C:24-165 | each refusal without a trace; otherwise the result of joining on the attributes as they were declared, on disk if nobody else has it open, with the catalogs, all pins and all open counts as before |
| QuJoin.TypesUnchecked | Minirel Project/parser/interp.C:365-375 | a join the interpreter asks for is never refused for the types of its attributes, only if the catalog does not have one |
| QuJoin.OtherTypeJoinIff | Minirel Project/join.C:119-126 | an equality join of attributes of different types decides all inner records rightly for an outer value iff that is the same number in both types, or it is not finite as an inner float and is a string or an integer no float equals |
| NestedLoops.JoinResult | Minirel Project/join.C:114-162 | a scan of a result without holes finds the old records and then the join in loop order |
| NestedLoops.JoinAdds | Minirel Project/join.C:114-162 | whatever holes the result has, its records are afterwards the old ones and the join, as a multiset |
| Insert.Assemble | Minirel Project/insert.C:48-73 | the buffer is what the nested loops copy |
| Insert.ValuePlaced | Minirel Project/insert.C:52-73 | each value is at its attribute's catalog offset, and together they fill the tuple |
| Insert.OrderIrrelevant | Minirel Project/insert.C:52-73 | a permutation of the values gives the same tuple |
| Insert.FullWidthIff | Minirel Project/insert.C:38-52 | the tuple is as wide as the relation's tuples iff there is a value for every attribute |
| Insert.AttrsReadBack | Minirel Project/insert.C:35-36 | the attributes read from the catalog are those declared |
| Insert.QuInsert | Minirel Project/insert.C:33-82 | the relation's attributes are those declared, as many as there are values; the tuple is inserted or refused for its length, pins and open counts are as before, and the outcome is on disk if nobody else has the relation open |
| SortSpec.CodeCompareIff | Minirel Project/sort.C:20-50 | reccmp has the sign of the true comparison iff the difference can be represented |
| SortSpec.PickIsLeast | Minirel Project/sort.C:318-341 | the run picked has a smallest next record, smaller than those of earlier runs |
| SortSpec.DrainMembers | Minirel Project/sort.C:300-355 | exactly the records not returned yet are still to come |
| SortSpec.MergeIsSorted | Minirel Project/sort.C:300-355 | the merge is strictly ordered by attribute, then run, then position: sorted, stable across runs, nothing twice |
| SortSpec.MergeConserves | Minirel Project/sort.C:300-355 | the merge returns all records not yet returned, as a multiset |
| SortSpec.ChunkCount | Minirel Project/sort.C:147-173 | the number of runs is the number of records over the run size, rounded up |
| SortSpec.Chunks | Minirel Project/sort.C:147-173 | every run but the last is full, the last is not empty |
| SortSpec.ExternalSort | Minirel Project/sort.C:129-355 | for every source and run size, if every two records can be compared, the merge of the runs is a sorted permutation of the source |
| SortSpec.SortsAllIff | Minirel Project/sort.C:20-50 | all sources made of given records come out sorted, whatever the run size, if every two of the records can be compared or all have equal attributes; for integers and strings, and for floats in runs of three or more, only if |
| SortSpec.SortConserves | Minirel Project/sort.C:129-355 | whatever qsort makes of records it cannot compare, the output is a permutation of the source |
| SortSpec.InfinitiesApart | Minirel Project/sort.C:32-37 | two records with equal infinities and one with another number can come out unsorted from a run of three |
| SortSpec.BufferSorted | Minirel Project/sort.C:194-261 | records fetched in the order of the sorted attribute copies are a sorted copy of the records that were buffered |
| SortSpec.InsertionSortIsSort | Minirel Project/sort.C:202-207 | what is asked of qsort can be had: a permutation of the buffer, sorted whenever the attributes can be compared |
| SortRuns.Collect | Minirel Project/sort.C:149-164 | the buffer holds attribute and RID of the next records of the scan, which goes on behind them; an empty record stops it |
| SortRuns.WriteRun | Minirel Project/sort.C:248-257 | each record is fetched again by its RID and appended to the run's heap file, while the scan of the source stays where it is |
| SortRuns.RunContents | Minirel Project/sort.C:248-257 | a scan of the run finds the records in the order in which they were written |
| SortRuns.GenerateRun | Minirel Project/sort.C:194-261 | the run's file holds a sorted copy of the records buffered, or nothing changes if it cannot be opened |
| SortRuns.SplitFile | Minirel Project/sort.C:129-179 | on success the run files hold sorted copies of the pieces of the source and all pins are back; on failure the scan of the source is lost |
| Sort.SortedFile.constructor | Minirel Project/sort.C:91-121 | the parameters refused, success iff there are two frames for every run, two pins for every run, other files untouched, and after success next() will return a sorted permutation |
| Sort.SortedFile.SortFile | Minirel Project/sort.C:129-187 | the runs are sorted copies of the pieces of the source in heap files of their own, all scans at the beginning, with the statuses |
| Sort.SortedFile.StartScans | Minirel Project/sort.C:275-292 | a scan is opened on every run iff the pool has frames for the pages they pin |
| Sort.FramesForRuns | Minirel Project/sort.C:275-292 | those are two frames for every run, besides those of the pages pinned before |
| Sort.SortWorksIff | Minirel Project/sort.C:91-292 | a sort succeeds iff the source has no empty record and the pool has two frames for every run |
| Sort.TooManyRuns | Minirel Project/sort.C:275-292 | with 100 frames and two records in a run, 102 records are too many |
| Sort.SortedFile.NeverFull | Minirel Project/sort.C:318-328 | a scan that leaves its page always finds a frame for the next, so no later call fails for want of frames |
| SortRuns.SortSucceedsIff | Minirel Project/sort.C:147-173 | if run files can be opened, writing the runs succeeds iff the source has no empty record |
| Sort.SortedFile.FindSmallest | Minirel Project/sort.C:318-341 | the loop fetches the next record of each run from its scan, compares the records in the pool, and picks the run the specification picks |
| Sort.SortedFile.Next | Minirel Project/sort.C:300-355 | a pointer to the first of the records to come, on a pinned page, the rest to come afterwards, or FILEEOF iff there are none |
| Sort.SortedFile.SetMark | Minirel Project/sort.C:361-376 | markScan on every run: the marks are the current records and nothing else changes |
| Sort.SortedFile.GotoMark | Minirel Project/sort.C:383-412 | resetScan on every run: the marked records are the next to come, also in runs that were at their end at the mark or are there now |
| Sort.SortedFile.Close | Minirel Project/sort.C:417-425 | all scans are closed, pins and open counts are what they were before the sort, and the run files that nobody else has open are gone, while all others keep their pages |
| Sort.ReadAll | Minirel Project/sort.C:300-355 | reading to the end returns exactly the merge of the runs |
| Sort.Replay | Minirel Project/sort.C:300-412 | after a record, a mark, any number of further records and a return, the same record and the same rest come again |
| Sort.EarlyMark | Minirel Project/sort.C:361-412 | after a mark set before the first record and any number of records, returning to it returns nothing |
| JoinHT.Hash | Minirel Project/joinHT.C:35-53 | the chain number is in range for every attribute, also after wrap-around |
| JoinHT.SameKeySameHash | Minirel Project/joinHT.C:35-132 | equal attributes are in one chain if strings end within the attribute |
| JoinHT.UnterminatedMisses | Minirel Project/joinHT.C:44-47 | every string that fills its attribute has an equal one in another chain of a table whose size is an int |
| JoinHT.AlwaysFoundIff | Minirel Project/joinHT.C:35-53 | all strings equal to a given one are in its chain for every size an int can hold iff that one ends within the attribute |
| JoinHT.SelectFindsAll | Minirel Project/joinHT.C:88-132 | the probe's chain holds all tuples equal to the probe |
| JoinHT.JoinHashTbl.HashOf | Minirel Project/joinHT.C:35-53 | the loop over the string computes the hash |
| JoinHT.JoinHashTbl.Insert | Minirel Project/joinHT.C:55-86 | the tuple is the newest in the table |
| JoinHT.JoinHashTbl.Lookup | Minirel Project/joinHT.C:88-132 | exactly the RIDs of equal tuples, newest first, at most as many as the chain is long |
| CatalogSpec.AttrRowRoundTrip | Minirel Project/catalog.C:145-167 | a stored attribute tuple reads back as names, offset, type and length |
| CatalogSpec.NameMatches | Minirel Project/catalog.C:22-24 | a scan for a relation finds exactly its tuples although it compares only a prefix of the name field |
| CatalogSpec.InsertElsewhere | Minirel Project/catalog.C:47-65 | adding a tuple adds it to the catalog and to no other scan |
| CatalogSpec.DeleteFirst | Minirel Project/catalog.C:170-215 | removing a tuple takes out the first that fits and leaves every other scan alone |
| CatalogScan.FirstTuple | Minirel Project/catalog.C:10-44 | the first tuple of a relation, by a scan that leaves no trace, or RELNOTFOUND iff there is none |
| CatalogScan.AllTuples | Minirel Project/catalog.C:218-265 | all tuples of a relation in the order of the file |
| CatalogScan.NamedTuple | Minirel Project/catalog.C:106-142 | the first tuple of a relation with an attribute name, while other objects stay open |
| CatalogScan.RemoveFirstTuple | Minirel Project/catalog.C:67-93 | the first tuple of a relation goes, other relations' tuples and other files stay, pins and open counts are as before |
| CatalogScan.RemoveNamed | Minirel Project/catalog.C:170-215 | the same for the first tuple with an attribute name |
| Catalog.CheckAttributes | Minirel Project/create.C:26-43 | DUPLATTR iff two names are equal, else ATTRTOOLONG iff the width as an unsigned int exceeds a page |
| Catalog.OffsetsTile | Minirel Project/create.C:53-68 | each attribute begins where the one before it ends, and no two overlap iff none but the first has a negative length |
| Catalog.AddAttributes | Minirel Project/create.C:53-68 | the attributes entered into the file are found in the order of declaration, up to the first name that is too long |
| Catalog.RemoveAttributes | Minirel Project/destroy.C:53-77 | the attribute tuples are removed one by one up to the first attribute without a name |
| Catalog.Catalogs.GetInfo | Minirel Project/catalog.C:10-44 | the relation's tuple, found iff the relation was created and not destroyed |
| Catalog.Catalogs.GetRelInfo | Minirel Project/catalog.C:218-265 | the attributes in the order of declaration, with offsets that are prefix sums |
| Catalog.Catalogs.CreateRel | Minirel Project/create.C:4-74 | each refusal, and catalogs on their files that describe exactly one relation more, with an empty heap file on disk; a long attribute name leaves catalogs that describe nothing |
| Catalog.Catalogs.DestroyRel | Minirel Project/destroy.C:16-77 | each refusal, and catalogs that describe exactly one relation less; an attribute without a name leaves them unchanged if it is the first and describing nothing otherwise |
| Catalog.CreateThenDestroy | Minirel Project/destroy.C:16-77 | both catalogs hold the same tuples as before |

## Left out

- QU_SM_Join and QU_Hash_Join, which produce no tuples, and QU_Join, which only chooses among the joins.
- partition.C and select.C: they split, filter and project over the scan proved here.
- Parser, scanner, interpreter, load, print, help and the programs that create and destroy databases: input and output.
- Failures of Unix calls, statistics counters and debugging output: reading and writing a page of an open file succeeds.
- File names, the table of open files and the File objects: a file is a number that stays the same over open and close, and its open count is kept beside it.
- Catalog.Catalogs.DestroyRel: the status of removing the relation's heap file is a parameter.
- Storage.Store.DestroyFile: no frame holds a page of a file that is not open, as after the flush at its last close; a file name is never empty.
- CatalogScan.RemoveFirstTuple: catalog.C:88-89 deletes the scan object and then calls endScan on it; the model ends the scan first.
- An object whose opening failed is lost with its open count; destroying it is not modelled.
- After an insertion that is refused on a page just added, the model's object owes that page to the disk, where the source's flag may still be clear; the object's destructor unpins it dirty in both.
- The page object of a heap file in the pool is the page image of `PageSpec`; `Page.Page` represents such an image in bytes, and the conversion at every access is not repeated.
- C++ object lifetime: HeapFileScan and InsertFileScan are one class with a flag, and a destructor is the method Close.
- After readPage fails with BUFFEREXCEEDED an object in the model has no page, where the source keeps a stale pointer. The constructor of a heap file reports this failure (`outcome`), where the source overwrites the status with OK and goes on with a pointer that was never set; a sort then ends with BUFFEREXCEEDED.
- Tandem.OpenForInsert: requires two frames that can be had, and the operators that open files require the frames they need: QU_Delete four, QU_Insert three, the join seven, the sort seven to write its runs.
- HeapFile.HeapFile.FetchRecord: takes a RID whose page is on the file's chain.
- HeapFile.HeapFile.ResetScan: takes a mark on a page of the chain, not one set while no page was pinned.
- Delete.QuDelete: atoi and atof are not modelled, and the number of the relation's file is a parameter.
- QuJoin.QuNlJoin: the numbers of the three files are parameters, the result is neither of the two relations, and output records fit on a page, as the source asserts.
- Insert.QuInsert: values are in binary form, there are no more of them than attributes and they do not overflow the buffer, none of which the source checks; the number of the relation's file is a parameter.
- Bytes read behind the end of a record, where the source has no bounds check, are zero.
- qsort: any function that returns a sorted permutation under a consistent comparison; SortSpec.InsertionSortIsSort shows that there is one. How it treats an inconsistent comparison is not modelled.
- reccmp on values that are not numbers, whose conversion to int the language leaves open.
- Sort.SortedFile.constructor: the run files are empty heap files nobody else has pages pinned of, given beforehand with the status of opening them, because the source does not create them as heap files.
- SortSpec.SortsAllIff: floats that are not NaN; for floats in runs of one or two records it gives the sufficient direction only.
- The scaling of a float in the join's hash function is a parameter.
- Catalog.Catalogs: the methods require three frames that can be had, so buffer pool failures while changing the catalogs are not modelled; a new pair of catalogs is empty, without the tuples that describe the catalogs themselves.
