# GART: the log converter, the snapshot reader and three smaller cores

GART turns the change log of a relational database into a graph that can be read at any past epoch. This project models the parts of it that are hard to get right and proves what they promise, for all inputs, all histories and all schedules.

**From database changes to log lines.** `LogParser` is the re-entrant parser that expands one captured row change into graph entries, call by call; `RowChanges` proves that those entries, applied in order, keep every edge label equal to its table, and `VertexChanges` that they keep every vertex label equal to its table, column for column. `VertexIds` is the round-robin allocator of global ids with its lookup maps, over `IdParser`, the packing of fragment, label and offset into one word. `UnifiedLog` and `Decimal` are the lines themselves: writing, splitting, reading back. `Collector` numbers the entries, gives them ids and epochs and skips what an earlier life wrote; `CrashRecovery` proves that any number of crashes and restarts leaves one undisturbed run behind, `LineContents` what every line of a run says, field by field, and `EpochDiscipline` and `BulkLoad` how epochs move and when the bulk load ends. `Pipeline` is the reader, the N parsers and the collector with their bounded queues as a state machine, one queue operation per step; `Progress` proves freedom from deadlock and delivery, and `EndToEnd` puts threads, timeouts, crashes and restarts together.

**The versioned store.** `TombstoneLog` holds the idea the storage rests on: a log of entries and delete marks, read backwards with a heap of pending deletions, and compared with the plain replay of the log. `EdgeStore` is the writer of one vertex's edges (blocks that grow by copying, by chaining and by merging, with an epoch table and property slots beside them), `EdgeReader` the edge iterator cut at a read epoch, `EdgeDeletes` the two delete operations, `EdgeHistory` whole histories of them, and `LiveEdges` which edges those leave and a reader gets. The representation invariant the reader needs is not assumed: the writer is proved to keep it. `VertexTable` is the two-ended table of vertices, whose upper half is shown to be the mirror image of a log, and `VertexReader` the iterator over it. `PageLayout` and `PropertyPages` are the versioned property pages with their writer and their readers, `FragmentIds` the translation between global and local ids, `DestLists` the lists of fragments a vertex's messages go to.

**Smaller cores.** `TableOrder` orders the captured tables, `Brackets` holds the bracket matchers of the style linter; `WellNested` is the theory of well nested text, `Nesting` proves the matchers inverse on text without angle brackets, `Readings` says what they mean on text with them, and `Statements` that they never pair brackets across statements. `ServerRegistry` is the text file of servers that is rewritten in place, on any file whatever, and `RegistryHistory` its histories. `Powers` and `Sequences` hold shared arithmetic and sequence facts.

Code that changes state in place is modelled by classes and loops, each proved against a specification function; the functions carry the theorems. Memory addresses are indices into a sequence or keys of a map, 64-bit words are naturals below 2^64, masks and shifts are division and remainder, narrowing conversions are written out. Input that the program does not compute itself (messages, timeouts, schedules, crash points, what other vertices of a segment allocate, uninitialised bytes) is a parameter over which the theorems range.

## What turned out not to hold

Where the code does less than one would expect, the model keeps the code, and a lemma says exactly when the expectation is met.

- The heap-driven readers are right only while no cancelled entry lies below one that is named twice (`TombstoneLog.WalkCorrectIffClean`, for vertices `VertexTable.EnumerationCorrectIffClean`). Deletes look for the newest (vertices: the oldest) matching entry without asking whether it is still live, so deleting one of two parallel edges twice names an entry twice and leaves an edge behind (`EdgeDeletes.DeleteOutcome`, `EdgeDeletes.ParallelEdgeSurvives`, over histories `EdgeHistory.HistoryNamesOnceIff` and `LiveEdges.HistoryCountsIff`).
- A property page's oldest version has a back pointer of 0, which becomes the start of the blob and not a null pointer, so the search for a version leaves the pages when every version is too new (`PropertyPages.FoundShows`, `PropertyPages.TooNewPageRunsWild`).
- With in-edges only, the destination lists are empty (`DestLists.InEdgesOnlyIff`, `DestLists.InEdgesOnlyMissesFragment`). They are looked up by vertex offset but stored in the order of the visit, which is the reverse (`DestLists.LookupByOffsetIff`, `DestLists.LookupByOffsetMixesUp`, `DestLists.LookupAfterDeleteRunsOut`).
- Vertex ids of a label repeat once its vertices no longer fit the offset field (`VertexIds.GidsDistinctIff`, `VertexIds.WrappedGid`).
- A bar inside an id or a property breaks the line for the consumer, though not for a restart (`UnifiedLog.DecodeLineIff`, `UnifiedLog.BarBreaksLine`, `UnifiedLog.RestartOffsetOfLine`).
- An update that changes the id of a vertex row is an update of a vertex nobody inserted, and the old vertex stays (`VertexChanges.RunMirrorsIff`, `VertexChanges.RenamedVertexStays`).
- A capture that has only the new image of a row gets updates of edges wrong (`RowChanges.NewImageOnlyIff`, `RowChanges.NewImageOnlyKeepsOldEdge`).
- The epoch can go down when a message has no transaction id (`EpochDiscipline.EpochDropsIff`, `EpochDiscipline.MissingTransactionDropsEpoch`). The count at the last rise is kept in an `int`, so past 2^31 messages every transaction ends an epoch (`EpochDiscipline.RisesApart`, `EpochDiscipline.EveryTransactionRises`). A transaction does not always lie in one epoch, because the epoch moves after its first message (`EpochDiscipline.TransactionEpochIff`, `EpochDiscipline.TransactionInTwoEpochs`).
- A snapshot whose last record stands for no entry never ends (`BulkLoad.BulkLoadEndsIff`, `BulkLoad.LostEndOfBulkLoad`).
- An edge whose ends are not known is written all the same, with whatever ids the entry happened to hold (`VertexIds.UnresolvedIff`, `Collector.UnresolvedLineIff`, `Collector.UnknownEndIsWritten`); the model calls such ids unresolved and lets the line show any numbers.
- A delete on a full vertex table writes its mark over a vertex of the other kind, or past the table (`VertexTable.Table.DeleteInner`, `VertexTable.Table.DeleteOuter`, `VertexTable.FullTableLosesOuter`).
- The table-ordering script fails with a lookup error on a mixed table whose edges never leave it or name an unknown vertex type, and loops for ever exactly on circular dependencies (`TableOrder.OrderTables`, `TableOrder.OwnEndsOnly`, `TableOrder.TablesWaitForEachOther`).
- A host name that is empty or has white space in it is accepted by the server registry and makes its file unreadable from there on (`RegistryHistory.RegistryIsMap`); after a restart an id can be given out twice (`RegistryHistory.SpacedHostReusesId`). Ids stay unique with valid names (`RegistryHistory.IdsNeverReused`), and exactly when in `RegistryHistory.RestartForgetsIff` for one add and in `RegistryHistory.FreshUnlessBlockedIff` over histories.
- The forward bracket matcher means to ignore the `>` of `operator>` but looks for the word one character too early, so it closes a pending `<`; the backward one does ignore it (`Statements.OperatorGreaterCloses`, `Statements.OperatorsIgnored`).

## Model

| member | source | states |
|---|---|---|
| `Powers.SizeToOrder` | vegito/include/seggraph/utils.hpp:23-30 | The order computed is the smallest power of two that holds the size, except that sizes 0 and 1 get order 0. |
| `IdParser.NumToBitwidth` | vegito/include/fragment/id_parser.h:27-38 | The width is at least 1, `num` values fit in it, and for more than two values no smaller width would do. |
| `IdParser.GeneratedFields` | vegito/include/fragment/id_parser.h:68-84 | For any arguments, the three fields read back from a generated id are the arguments reduced to their widths, the id stays below the top bit, and `GetLid` only clears the fragment number. |
| `IdParser.GenerateIdInjective` | vegito/include/fragment/id_parser.h:80-84 | Two generated ids are equal if and only if all three fields agree modulo their widths. |
| `IdParser.RegenerateId` | vegito/include/fragment/id_parser.h:68-84 | Taking any id below the top bit apart and putting it together again gives the id. |
| `TombstoneLog.MakeTomb` | vegito/src/graph/graph_ops/del_edge.cc:143-145 | A delete mark for a location is recognised as a mark, and its target is that location. |
| `TombstoneLog.TopOf` | interfaces/fragment/iterator.h:387-393 | The top of the delete heap is a largest element of it. |
| `TombstoneLog.WalkCorrectIffClean` | interfaces/fragment/iterator.h:369-417 | On every log whose tombstones name earlier ordinary entries, the heap-driven backward walk yields exactly the positions no tombstone cancels, newest first, if and only if no cancelled position has a twice-named position above it. |
| `TombstoneLog.DuplicateTombstoneBreaksWalk` | interfaces/fragment/iterator.h:383-395 | A concrete log on which a position is named twice and the walk yields a cancelled entry. |
| `TombstoneLog.WalkOfPrefix` | interfaces/fragment/iterator.h:369-417 | A walk depends only on the words below the place it starts from. |
| `TombstoneLog.AppendEntry` | vegito/src/seggraph/epoch_graph_writer.cpp:376-377 | Appending an ordinary entry makes exactly its own position live, in front of the others, and names nothing. |
| `TombstoneLog.AppendTomb` | vegito/src/graph/graph_ops/del_edge.cc:143-147 | Appending a tombstone for an ordinary entry removes exactly that position from the live ones and keeps the log well formed. |
| `TombstoneLog.AppendKeepsNamedOnce` | vegito/src/graph/graph_ops/del_edge.cc:143-147 | An append keeps every position named at most once if and only if it is not a tombstone for a position already named. |
| `TombstoneLog.NamedOnceIsClean` | interfaces/fragment/iterator.h:369-417 | A log that names no position twice is one on which the walk is right. |
| `TombstoneLog.PrefixKeeps` | interfaces/fragment/iterator.h:252-289 | Every prefix of a log inherits being well formed and naming each position at most once, so an older reader is as safe as a newer one. |
| `EdgeStore.EdgeRegion.constructor` | vegito/include/seggraph/blocks.hpp:652-665 | A vertex without edges has an empty log, no block and no epoch row. |
| `EdgeStore.EdgeRegion.AllocSlots` | vegito/include/seggraph/blocks.hpp:667-679 | An allocation hands out slots above everything handed out before, with room for the header and the whole block. |
| `EdgeStore.EdgeRegion.GrowInSegment` | vegito/src/seggraph/epoch_graph_writer.cpp:216-305 | A full or missing block is replaced by one of the next order; the log, and every edge's property, stays the same and there is space. |
| `EdgeStore.EdgeRegion.ChainInFront` | vegito/src/seggraph/epoch_graph_writer.cpp:268-273 | From the threshold order on a new block is linked in front, counting the entries behind it; log and properties are unchanged. |
| `EdgeStore.EdgeRegion.CopyInto` | vegito/src/seggraph/epoch_graph_writer.cpp:274-297 | Below the threshold the entries and their properties are copied into the bigger block; log and properties are unchanged. |
| `EdgeStore.EdgeRegion.Merge` | vegito/src/seggraph/epoch_graph_writer.cpp:388-456 | When a vertex moves to a new segment all its blocks become one block with a free place, holding the same log and properties. |
| `EdgeStore.EdgeRegion.MergeBlocks` | vegito/src/seggraph/epoch_graph_writer.cpp:426-449 | Copying the chain oldest block first and entry by entry yields the whole log in order and every property in the slot of its entry. |
| `EdgeStore.EdgeRegion.ChainBlocks` | vegito/src/seggraph/epoch_graph_writer.cpp:401-409 | Following the back links collects the chain, and the entries counted on the way are the length of the log. |
| `EdgeStore.EdgeRegion.NoteEpoch` | vegito/src/seggraph/epoch_graph_writer.cpp:307-370 | The epoch table still says of every entry written so far at which epoch it was written; a later epoch gets a row that starts at the next entry, an earlier one is filed under the latest. |
| `EdgeStore.EdgeRegion.AppendEdge` | vegito/src/seggraph/epoch_graph_writer.cpp:372-383 | Entry and property are appended at the latest epoch, and the whole representation invariant holds again. |
| `EdgeStore.EdgeRegion.PutEdge` | vegito/src/seggraph/epoch_graph_writer.cpp:151-386 | Whichever of the growth paths is taken, a write appends exactly one word, one property and one epoch to the log, the epoch being the larger of the write epoch and that of the last write, and keeps the invariant readers rely on. |
| `EdgeStore.Visible` | interfaces/fragment/iterator.h:252-289 | In a log with non-decreasing epochs the entries a reader of epoch r may see are exactly a prefix, and this is its length. |
| `EdgeStore.RowsGrow` | interfaces/fragment/iterator.h:257-267 | An entry written at the latest epoch needs no new row for the table to stay a correct description. |
| `EdgeReader.RowVisible` | interfaces/fragment/iterator.h:256-270 | If row k is the newest row the reader may see, the visible entries end where row k+1 begins, or at the end of the log. |
| `EdgeReader.NothingVisible` | interfaces/fragment/iterator.h:272-275 | If even the oldest row is later than the read epoch, no entry is visible. |
| `EdgeReader.CutAtEpoch` | interfaces/fragment/iterator.h:252-289 | The cut leaves the cursor in the chain so that exactly the entries visible at the read epoch are ahead of it. |
| `EdgeReader.ScanEntries` | interfaces/fragment/iterator.h:375-397 | Scanning one block does not change what the whole walk will yield, and stops at an entry to be yielded or at the block's oldest end. |
| `EdgeReader.FindValid` | interfaces/fragment/iterator.h:369-417 | The search over blocks does not change what the walk will yield, ends on an entry to be yielded or at the very end of the chain, keeps the property offset in step with the block, and terminates. |
| `EdgeReader.OpenCursor` | interfaces/fragment/iterator.h:238-245 | Cut and first search together: what remains is the walk over the visible prefix from an empty heap. |
| `EdgeReader.EdgeIterator.constructor` | interfaces/fragment/iterator.h:222-245 | An iterator opened at epoch r on any region the writer left behind has the walk over the prefix visible at r in front of it, also when the region is empty. |
| `EdgeReader.EdgeIterator.HasNext` | interfaces/fragment/iterator.h:291-297 | The iterator is valid if and only if something remains. |
| `EdgeReader.EdgeIterator.Next` | interfaces/fragment/iterator.h:299-302 | One step removes exactly the first remaining position. |
| `EdgeReader.EdgeIterator.Neighbor` | interfaces/fragment/iterator.h:304-308 | The neighbour is the word the log holds at the first remaining position. |
| `EdgeReader.EdgeIterator.GetData` | interfaces/fragment/iterator.h:318-324 | The property slot computed from the cursor holds the property that was written with this very edge, in whatever block it now lies. |
| `EdgeReader.ReadAt` | interfaces/fragment/iterator.h:214-450 | The usual reading loop terminates and returns neighbour and property of each position of the walk over the prefix visible at the read epoch, in order. |
| `EdgeReader.ReadIsReplayIffClean` | interfaces/fragment/iterator.h:252-289 | Reading at epoch r equals replaying the log prefix with epochs up to r, newest edge first, if and only if no cancelled position of that prefix has a twice-named one above it. |
| `EdgeReader.SnapshotStable` | interfaces/fragment/iterator.h:252-289 | Entries and tombstones written later at epochs above r leave the log prefix a reader of epoch r works on, and with it all it yields, unchanged. |
| `EdgeReader.LaterWritesUnseen` | interfaces/fragment/iterator.h:252-289 | The same for the whole sequence of neighbours and properties a reader gets. |
| `EdgeDeletes.PrefixSums` | vegito/src/graph/graph_ops/del_edge.cc:110-127 | The i-th sum counts the words of all blocks older than the i-th. |
| `EdgeDeletes.FindInBlock` | vegito/src/graph/graph_ops/del_edge.cc:133-151 | The entry the inner loop names carries the wanted offset and is no tombstone, and every newer ordinary entry of the block carries another offset; if it names none, no ordinary entry of the block carries the offset. |
| `EdgeDeletes.FindNewest` | vegito/src/graph/graph_ops/del_edge.cc:132-166 | The same over the chain of blocks, for the whole log and its positions: the newest ordinary entry with the offset, live or not. |
| `EdgeDeletes.DeleteEdge` | vegito/src/graph/graph_ops/del_edge.cc:93-169 | The position named holds an ordinary entry with the offset and every newer ordinary entry has another one; exactly its tombstone is appended, with one property and one epoch. Nothing changes if and only if no ordinary entry has the offset. |
| `EdgeDeletes.DeleteOutcome` | vegito/src/graph/graph_ops/del_edge.cc:132-166 | A delete removes exactly the entry it names from the live ones; it really deletes something, and keeps the log safe to read, if and only if that entry was still live. |
| `EdgeDeletes.ParallelEdgeSurvives` | vegito/src/graph/graph_ops/del_edge.cc:137-149 | Two parallel edges deleted twice: the second delete names the same entry again and one edge stays. |
| `EdgeDeletes.CollectFrom` | vegito/src/graph/graph_ops/del_vertex.cc:90-133 | The collecting loop of a vertex delete visits the same positions as the reader's walk over the whole log. |
| `EdgeDeletes.CollectLive` | vegito/src/graph/graph_ops/del_vertex.cc:58-133 | The same from the newest block on, with nothing collected where there is no block. |
| `EdgeDeletes.DeleteAll` | vegito/src/graph/graph_ops/del_vertex.cc:95-153 | A vertex delete appends one tombstone for every collected position, newest first, and changes nothing else of the log. |
| `EdgeDeletes.CancelAll` | vegito/src/graph/graph_ops/del_vertex.cc:143-153 | The loop of tombstones appends one per position collected, all at the same epoch, with a blank property each. |
| `EdgeDeletes.DeleteNewest` | vegito/src/graph/graph_ops/del_vertex.cc:143-153 | Cancelling the newest live entry leaves exactly the other live entries and a log that is safe to read. |
| `EdgeDeletes.DeleteAllEmpties` | vegito/src/graph/graph_ops/del_vertex.cc:143-153 | Cancelling every live entry, newest first, leaves a log with no live entry in which no position is named twice. |
| `EdgeHistory.NewestMatchIs` | vegito/src/graph/graph_ops/del_edge.cc:132-166 | The function the history is stated with finds the newest match, live or not. |
| `EdgeHistory.StepKeeps` | vegito/src/graph/graph_ops/del_edge.cc:132-166 | One add, delete or delete of everything keeps every tombstone naming an earlier ordinary entry; no position is named twice afterwards if and only if none was before and a delete named a live entry. |
| `EdgeHistory.HistoryNamesOnceIff` | vegito/src/graph/graph_ops/del_edge.cc:132-166 | From no edges, after any history of adds and of both kinds of delete, no position is named twice if and only if every delete of an edge named one that was still live. |
| `EdgeHistory.HistoryReadsRight` | interfaces/fragment/iterator.h:252-289 | Then a read at any epoch is the replay of the log prefix visible at that epoch. |
| `EdgeHistory.ApplyOne` | vegito/src/framework/bench_runner.cc:729-736 | Each operation leaves the region with the log the history says. |
| `EdgeHistory.ApplyAll` | vegito/src/framework/bench_runner.cc:729-736 | So does a whole history, whatever the allocator does. |
| `EdgeHistory.ReadAroundWrite` | interfaces/fragment/iterator.h:252-289 | A reader gets the same neighbours and properties before and after a write at a later epoch. |
| `LiveEdges.DeleteCountsIff` | vegito/src/graph/graph_ops/del_edge.cc:137-149 | A delete takes exactly one occurrence of its offset off the offsets of the live edges and leaves every other offset's count alone, if and only if the newest entry for the offset is live or none is. |
| `LiveEdges.DeleteEveryCounts` | vegito/src/graph/graph_ops/del_vertex.cc:90-153 | A vertex delete leaves no live edge, on any log, also on one that readers read wrong. |
| `LiveEdges.StepCountsIff` | vegito/src/graph/graph_ops/del_edge.cc:132-166 | Each operation does to the bag of live offsets what it is meant to do (add one, take one off, empty it), if and only if a delete finds the newest entry for its offset live, or no live one. |
| `LiveEdges.HistoryCountsIff` | vegito/src/graph/graph_ops/del_edge.cc:132-166 | Over any history, the live edges are at every moment those the adds and deletes should have left, counted by offset, if and only if that holds for every delete. |
| `LiveEdges.HistoryCounts` | vegito/src/graph/graph_ops/del_edge.cc:132-166 | In particular when every delete names a live entry or nothing. |
| `LiveEdges.HistoryReadCounts` | interfaces/fragment/iterator.h:252-289 | Then a reader whose epoch reaches the last write gets exactly the edges the adds and deletes should have left, however the history was spread over epochs. |
| `VertexTable.Table.constructor` | vegito/src/graph/graph_store.h:177-211 | A new table is empty from both ends. |
| `VertexTable.Table.AddInner` | vegito/src/graph/graph_store.h:177-183 | An inner vertex is appended to the inner log; the outer log does not change. |
| `VertexTable.Table.DeleteInner` | vegito/src/graph/graph_store.h:185-200 | The entry that gets the tombstone carries the offset and is no tombstone, and every older inner entry is a tombstone or carries another offset; without such an entry nothing changes. On a full table, which nothing checks, the tombstone goes over the newest outer word, or past the end of the table. |
| `VertexTable.Table.AddOuter` | vegito/src/graph/graph_store.h:202-211 | An outer vertex is appended to the outer log, which grows downwards; the inner log does not change. |
| `VertexTable.Table.DeleteOuter` | vegito/src/graph/graph_store.h:213-229 | The same for the outer part and an exact id, the oldest entry being the one nearest the end of the table. On a full table the tombstone goes over the newest inner word; a part that reaches down to position 0 makes search and tombstone leave the table. |
| `VertexTable.FullTableLosesOuter` | vegito/src/graph/graph_store.h:194-197 | A full table of two vertices on which deleting the inner one makes the outer one disappear. |
| `VertexTable.VertexDeleteOutcome` | vegito/src/graph/graph_store.h:185-229 | A vertex delete removes exactly the entry it names from the live ones, and names no position twice if and only if that entry was live. |
| `VertexTable.WalkUpMirrors` | interfaces/fragment/iterator.h:135-156 | The upward walk with a min-heap is the mirror image of the downward walk with a max-heap on the outer log read from its end. |
| `VertexTable.OuterLiveMirrors` | interfaces/fragment/gart_fragment.h:495-498 | The live outer positions, ascending, are the mirror image of the live positions of the outer log, newest first. |
| `VertexTable.EnumerationCorrectIffClean` | interfaces/fragment/iterator.h:59-180 | The enumeration lists exactly the live inner positions descending and then the live outer positions ascending, each once, if and only if both logs are free of twice-named positions above cancelled ones. |
| `VertexTable.EnumerationStable` | interfaces/fragment/gart_fragment.h:290-298 | What a reader with fixed range bounds enumerates does not depend on anything written between the two parts. |
| `VertexReader.FindDown` | interfaces/fragment/iterator.h:157-179 | The downward search stops at a vertex to be yielded or at the end, without changing what the range will yield. |
| `VertexReader.FindUp` | interfaces/fragment/iterator.h:136-156 | The upward search does the same for the outer range. |
| `VertexReader.FindInRange` | interfaces/fragment/iterator.h:135-180 | In either direction, from any place of a range, the search changes nothing of what the range still yields. |
| `VertexReader.VertexIterator.constructor` | interfaces/fragment/iterator.h:40-55 | What remains is the first range from its beginning followed by the second, each with a heap of its own. |
| `VertexReader.VertexIterator.HasNext` | interfaces/fragment/iterator.h:59-65 | `valid` answers whether anything remains and never changes what remains; asking again on a vertex or in the last range changes no field. |
| `VertexReader.VertexIterator.SwitchNextRange` | interfaces/fragment/iterator.h:115-133 | Switching moves to the outer range at most once, loses nothing, and answers whether anything remains. |
| `VertexReader.VertexIterator.Next` | interfaces/fragment/iterator.h:67-113 | One step removes exactly the first remaining position, in either direction. |
| `VertexReader.VertexIterator.Vertex` | interfaces/fragment/iterator.h:182-186 | The vertex is the table's word at the first remaining position. |
| `VertexReader.Vertices` | interfaces/fragment/gart_fragment.h:483-513 | The iterator over all vertices has in front of it the enumeration of the table between the two published locations; a label without a table has nothing. |
| `VertexReader.InnerVertices` | interfaces/fragment/gart_fragment.h:515-531 | The same for the inner vertices alone. |
| `VertexReader.OuterVertices` | interfaces/fragment/gart_fragment.h:533-549 | The same for the outer vertices alone. |
| `VertexReader.CountVertices` | interfaces/fragment/gart_fragment.h:1394-1399 | Counting by `valid` and `next` gives the number of positions that remained. |
| `VertexReader.ComputeVertexNum` | interfaces/fragment/gart_fragment.h:1392-1412 | The two numbers of a label are the numbers of positions its inner and outer walks yield. |
| `PageLayout.BitsAfter` | vegito/include/util/bitset.h:21-37 | Setting or resetting a bit changes that bit of the byte array and no other. |
| `PageLayout.NullIndexInjective` | interfaces/fragment/gart_fragment.h:728-733 | Different rows or properties have different null bits, and every null bit lies in the bitmap before the rows. |
| `PageLayout.RowsDisjoint` | vegito/src/property/property_col_paged.cc:340-341 | Rows overlap neither each other nor the null bits and stay inside the page. |
| `PageLayout.StoreBytes` | vegito/src/property/property_col_paged.cc:340-345 | Copying a row changes the bytes of that row only. |
| `PageLayout.StoreNull` | vegito/src/property/property_col_paged.cc:347-356 | Storing a null flag changes that flag of that row only and no row bytes. |
| `PageLayout.StoreRow` | vegito/src/property/property_col_paged.cc:340-356 | Storing a row leaves it with exactly the given bytes and null flags, and every other row of the page as it was. |
| `PageLayout.NumberProperties` | interfaces/fragment/gart_fragment.h:137-165 | The loop gives each property its rank and byte offset among the earlier properties of its family, and each family its number of properties and row length. |
| `PageLayout.PropertiesApart` | vegito/src/framework/bench_runner.cc:278-302 | Two properties of one family have different ranks and non-overlapping bytes, both inside the row. |
| `PageLayout.NullBitsApart` | interfaces/fragment/gart_fragment.h:728-733 | With the ranks assigned in `Init`, the null bits of one family coincide only for the same row and the same property. |
| `PropertyPages.FindVersion` | interfaces/fragment/gart_fragment.h:721-726 | The loop returns the newest version of the page with an epoch up to the read epoch; where there is none it runs past the oldest version, into memory that is no page. |
| `PropertyPages.FoundShows` | interfaces/fragment/gart_fragment.h:721-726 | That version is the one of the newest write to the page up to the read epoch, it shows every row as its newest such write left it, and there is none if and only if every write to the page is later. |
| `PropertyPages.FindWithInsertPage` | vegito/src/property/property_col_paged.cc:170-209 | Finding the page to write to yields a version of exactly this epoch, made as a copy if need be, and leaves every older version alone. |
| `PropertyPages.WriteRow` | vegito/src/property/property_col_paged.cc:323-357 | After a row write the store of pages shows, version by version, exactly the history with this write added. |
| `PropertyPages.LastWriteIs` | interfaces/fragment/gart_fragment.h:890-904 | The write a reader is to see is in the history, belongs to this row, and is not later than the read epoch. |
| `PropertyPages.LastWriteAppend` | interfaces/fragment/gart_fragment.h:890-904 | A later write is seen by exactly the readers of its row whose epoch reaches it. |
| `PropertyPages.StoreKeeps` | vegito/src/property/property_col_paged.cc:323-357 | A write to one page leaves every version of every other page as it was. |
| `PropertyPages.ColumnFamily.constructor` | vegito/src/property/property_col_paged.cc:58-98 | A page holds at most as many rows as there are items, and 4096 if no number is given; there are pages for all items, none written yet. |
| `PropertyPages.ColumnFamily.Insert` | vegito/src/property/property_col_paged.cc:271-358 | An insert adds one row write with its epoch to the history, keeps all versions right, and a reader of its epoch gets exactly the bytes and nulls inserted. |
| `PropertyPages.ColumnFamily.Update` | vegito/src/property/property_col_paged.cc:360-477 | After an update, whether it wrote a row or not, every property read at its epoch has the new null flag, and one that is not null reads as the new text if it is text and as the new bytes otherwise. A row is written if and only if some null flag, or the text or bytes of some property that is not null, differ from the newest write; a text that stays the same keeps its key. |
| `PropertyPages.ColumnFamily.Differs` | vegito/src/property/property_col_paged.cc:372-452 | The answer is yes if and only if some null flag changes, to null or from it, or a property that is not null has another text or other bytes; the row to be written keeps the keys of unchanged texts. |
| `PropertyPages.ColumnFamily.FindRow` | interfaces/fragment/gart_fragment.h:709-726 | The search shared by the readers returns the newest version of the page of the row up to the read epoch. |
| `PropertyPages.ColumnFamily.GetRowDataAddr` | interfaces/fragment/gart_fragment.h:829-855 | The address is that of the row in the newest version, behind the null bits and the rows before it, and the bytes there are those of the newest visible write. |
| `PropertyPages.ColumnFamily.GetDataAddr` | interfaces/fragment/gart_fragment.h:742-781 | The address is that of the property in the row of that same version, and the bytes there are those of the newest visible write. |
| `PropertyPages.ColumnFamily.GetData` | interfaces/fragment/gart_fragment.h:871-913 | The value read is the property in the row of that same version, which is that of the newest visible write. |
| `PropertyPages.ColumnFamily.ValueIsValid` | interfaces/fragment/gart_fragment.h:705-734 | The answer is the null bit of row and property in that same version, and the null flag of the newest visible write. |
| `PropertyPages.NewestVersion` | interfaces/fragment/gart_fragment.h:721-726 | The version all readers are to land on is a version up to the read epoch, and there is none exactly if all are later. |
| `PropertyPages.TooNewPageRunsWild` | interfaces/fragment/property_util.h:44-46 | A page first written at version 5 and read at version 4: the search leaves the pages. |
| `PropertyPages.ColumnFamily.NewestShows` | interfaces/fragment/gart_fragment.h:705-913 | For every row, that version carries the epoch of the newest visible write to the page and shows the newest visible write to the row; it is missing exactly if the page was not written by then. |
| `PropertyPages.ColumnFamily.NewestRowIsLast` | interfaces/fragment/gart_fragment.h:705-913 | The four readers' one version: its row holds the bytes, and its null bits are the flags, of the newest visible write. |
| `PropertyPages.UpdatedRowReads` | vegito/src/property/property_col_paged.cc:432-447 | The row an update writes reads as the new values, text for text and byte for byte, although unchanged texts keep their old key. |
| `PropertyPages.KeptField` | vegito/src/property/property_col_paged.cc:432-447 | Each property of that row holds its new bytes, except that a text that is the same before and after keeps its old key. |
| `PropertyPages.RowReadsNew` | vegito/src/property/property_col_paged.cc:394-447 | So does the old row when nothing is written. |
| `PropertyPages.ReadsStable` | interfaces/fragment/gart_fragment.h:721-726 | Writes at later epochs change nothing a reader of epoch r sees. |
| `FragmentIds.OuterVertices.constructor` | vegito/src/graph/graph_store.h:247-255 | No outer vertex is known at first. |
| `FragmentIds.OuterVertices.Meet` | vegito/src/graph/graph_ops/add_edge.cc:36-94 | A vertex of another fragment gets a number and a local id the first time it is met and keeps both ever after; the two tables stay inverse to each other and hold vertices of other fragments under this label only. |
| `FragmentIds.OuterLidFields` | vegito/src/graph/graph_ops/add_edge.cc:89-90 | The local id of the k-th outer vertex has fragment 0, the label, and the k-th offset from the top. |
| `FragmentIds.RangesMeetIff` | interfaces/fragment/gart_fragment.h:1015-1025 | Some local id of a label is classified as inner and as outer if and only if the label has vertices of both kinds and together they are more than the offset width can number. |
| `FragmentIds.GidRoundTrip` | interfaces/fragment/gart_fragment.h:998-1117 | Every known global id translates to a vertex that is inner exactly if the id is of this fragment, and the vertex translates back to the same id. |
| `FragmentIds.VertexRoundTrip` | interfaces/fragment/gart_fragment.h:998-1117 | Every vertex the fragment hands out, its own or one it met, translates to a global id that translates back to the same vertex. |
| `FragmentIds.OffsetsDense` | interfaces/fragment/gart_fragment.h:1187-1202 | `GetOffset` numbers outer vertices 0, 1, 2, ... in the order they were met although their ids count down, and own vertices by their offset. |
| `DestLists.ListsUnique` | interfaces/fragment/gart_fragment.h:1376-1378 | A set has only one ascending, duplicate-free listing. |
| `DestLists.AppendAscending` | interfaces/fragment/gart_fragment.h:1376-1378 | What is appended is that listing of the set. |
| `DestLists.Gather` | interfaces/fragment/gart_fragment.h:1350-1373 | A fragment is gathered if and only if it is not the own one and is among the in-neighbours, if these are wanted, or among the out-neighbours, if those are. |
| `DestLists.Fill` | interfaces/fragment/gart_fragment.h:1341-1382 | The filling pass puts the listings of the visited vertices one after the other and counts each; without out-edges the list stays empty. |
| `DestLists.Starts` | interfaces/fragment/gart_fragment.h:1384-1387 | The k-th start is the sum of the first k counts. |
| `DestLists.InitDestFidList` | interfaces/fragment/gart_fragment.h:1329-1390 | With out-edges, a fragment is in slice k if and only if it is not the own one and holds an out-neighbour of the k-th visited inner vertex or, with in-edges too, an in-neighbour; each slice is strictly ascending and the slices tile the list. Without out-edges everything is empty. |
| `DestLists.BuildLists` | interfaces/fragment/gart_fragment.h:1333-1386 | The counting pass agrees with the filling pass, and slice k lists the set gathered for the k-th vertex visited. |
| `DestLists.InEdgesOnlyIff` | interfaces/fragment/gart_fragment.h:1364-1379 | With in-edges only, the empty lists are right if and only if no in-neighbour of a visited vertex is in another fragment. |
| `DestLists.InEdgesOnlyMissesFragment` | interfaces/fragment/gart_fragment.h:1364-1379 | One vertex with an in-neighbour in another fragment whose list stays empty. |
| `DestLists.WalkWithoutTombs` | interfaces/fragment/iterator.h:90-112 | Without deletions the k-th vertex visited is the k-th from the end. |
| `DestLists.LookupByOffsetIff` | interfaces/fragment/gart_fragment.h:1171-1177 | For any table and any visit, looking the lists up by vertex offset is right for every vertex visited if and only if each offset is a place of the visit and the vertex visited there has the same remote fragments. |
| `DestLists.LookupWithoutDeletesIff` | interfaces/fragment/gart_fragment.h:1171-1177 | Without deletions that is so if and only if every vertex has the same remote fragments as its mirror image in the table. |
| `DestLists.LookupAfterDeleteRunsOut` | interfaces/fragment/gart_fragment.h:1171-1177 | Two vertices, one deleted: the other one's offset has no slice at all. |
| `DestLists.LookupByOffsetMixesUp` | interfaces/fragment/gart_fragment.h:1171-1177 | Two vertices for which the list looked up by offset is the other one's. |
| `LogParser.TxnLogParser.FillVertex` | converter/parser.cc:462-500 | The vertex part of an entry is what the row's id column says. |
| `LogParser.TxnLogParser.FillEdge` | converter/parser.cc:502-552 | An edge entry is complete if and only if neither end is null, and then its ends are those of the row. |
| `LogParser.TxnLogParser.FillProp` | converter/parser.cc:554-593 | The properties are those required of the label, in order, nulls as empty text. |
| `LogParser.TxnLogParser.SetOperation` | converter/parser.cc:283-361 | An updated edge is a delete in its first call and an insert in its second; everything else keeps its operation. |
| `LogParser.TxnLogParser.FillNext` | converter/parser.cc:283-371 | One call fills the entry due for this label: an updated edge first as a delete with the ends of the old image and then as an insert with those of the new one, an updated vertex with the id of the new image; every entry but a delete has the texts of the required columns of the new image, in order. It is incomplete only for an edge with a null end. |
| `LogParser.TxnLogParser.MoveOn` | converter/parser.cc:373-383 | The next label is up, unless the second half of an updated edge is; after the last one the index starts over. |
| `LogParser.TxnLogParser.ParseLabel` | converter/parser.cc:283-384 | The call takes exactly one entry off those pending for this message and lowers the measure while any are left. |
| `LogParser.TxnLogParser.Parse` | converter/parser.cc:240-385 | The same for any table: an unused table is invalid and only remembered; otherwise what was pending is what was filled followed by what is pending now. |
| `LogParser.LogEntry.CallsLeft` | converter/parser.cc:373-381 | The measure of the repeated calls, twice the labels left less one for a delete done, stays positive while calls are left. |
| `LogParser.PendingStep` | converter/parser.cc:352-381 | Taking one entry off the pending ones moves to the second half of an updated edge or on to the next label. |
| `LogParser.ExpandMessage` | converter/binlog_convert.cc:110-140 | The loop of calls ends, queues exactly the entries pending at its start, in order, and counts them. |
| `LogParser.ExpandLine` | converter/binlog_convert.cc:71-142 | For one line, the entries queued are the message's whole expansion in label order, the count is their number, and a timeout marker or unused table gives none. What the expansion means is `RowChanges.RunKeepsGraph` and `VertexChanges.RunMirrorsIff`. |
| `LogParser.ExpandLabelsBound` | converter/parser.cc:352-381 | A message gives at most two entries per label of its table, and at most one unless it is an update. |
| `RowChanges.LabelFollowsRows` | converter/parser.cc:352-371 | Applying the entries of a captured row change to the edges of a label gives the edges of the changed table. |
| `RowChanges.NewImageOnlyIff` | converter/parser.cc:505-516 | When the capture has only the new image of a row, that holds for an update if and only if the edge did not change, or there was none before and the new one has no parallel. |
| `RowChanges.NewImageOnlyKeepsOldEdge` | converter/parser.cc:505-516 | A concrete update with the new image only after which the graph is not that of the table. |
| `RowChanges.MessageKeepsGraph` | converter/parser.cc:352-381 | One message keeps every edge label of every table equal to its table. |
| `RowChanges.RunKeepsGraph` | converter/parser.cc:352-381 | So does any run of messages: the graph the entries build is the graph the final tables define. |
| `VertexChanges.LabelMirrorsIff` | converter/parser.cc:462-475 | Applying the entry of a captured row change to the vertices of a label, where there was one vertex per row, with the row's id and the text of each required column, gives one vertex per row of the changed table, if and only if an update leaves the id alone. |
| `VertexChanges.MessageMirrorsIff` | converter/parser.cc:462-593 | One message keeps the vertices of every label of every table those of the table, if and only if it does not change an id of that table. |
| `VertexChanges.RunMirrorsIff` | converter/parser.cc:462-593 | Over a whole run, the vertices of a label mirror its table after every message, id for id and column for column, if and only if no update of the table changes an id. |
| `VertexChanges.RenamedVertexStays` | converter/parser.cc:402-412 | A concrete rename from "a" to "b": the update names a vertex nobody inserted, and the old one stays. |
| `VertexChanges.NamesOne` | converter/parser.cc:484-499 | The source id made of a column value, integer or text, determines the value. |
| `VertexIds.PerFragmentStep` | converter/parser.cc:394-397 | One more vertex bumps the counter of exactly the fragment it goes to, and that counter was its offset. |
| `VertexIds.CountersBalanced` | converter/parser.cc:394-397 | The counters of a label sum to its number of vertices and differ by at most one. |
| `VertexIds.OffsetIsCount` | converter/parser.cc:392-401 | The k-th vertex of a label gets fragment k mod F and, as offset, the number of vertices that fragment already had. |
| `VertexIds.GidsDistinctIff` | converter/parser.cc:392-401 | No two of the first n ids of a label are equal if and only if n is at most F times the room of the offset field. |
| `VertexIds.AllGidsDistinctIff` | converter/parser.cc:392-401 | Over any history of inserts under any labels, no id is issued twice if and only if each label's vertices fit F times the room of the offset field. |
| `VertexIds.WrappedGid` | converter/parser.cc:394-399 | The first vertex past that room gets the id of the very first. |
| `VertexIds.KeyOfInteger` | converter/parser.cc:431-460 | An integer id can be looked up if and only if it is a 64-bit integer, and then its key is the integer itself, printing and `stoll` notwithstanding. |
| `VertexIds.GidTable.constructor` | converter/parser.cc:144-150 | All counters and maps start empty. |
| `VertexIds.GidTable.GetGid` | converter/parser.cc:431-451 | A lookup gives the id of the latest insert of that key under that label, or -1. |
| `VertexIds.GidTable.InsertVertex` | converter/parser.cc:390-401 | An insert gets the id of its rank among the inserts of its label, and the maps remember it. |
| `VertexIds.GidTable.ParseAgain` | converter/parser.cc:387-429 | An inserted vertex gets the id of its rank among the inserts of its label; a deleted or updated one the id issued to its latest insert; an edge gets first the id issued to the latest insert of its source under the source label, then that of its destination under the destination label. The entry is complete if and only if all could be resolved. |
| `VertexIds.LookupIsLatest` | converter/parser.cc:431-460 | After any run, a key's lookup is the id given to the last insert of that key under that label. |
| `VertexIds.LatestInsertGid` | converter/parser.cc:431-460 | The lookup of a source id under a label gives the id issued to its latest insert, by that insert's rank among the inserts of the label. |
| `VertexIds.ResolvedIds` | converter/parser.cc:387-429 | The ids of every entry in those terms, first id source and second id destination. |
| `VertexIds.KnownIffInserted` | converter/parser.cc:431-460 | A key is found under a label if and only if a vertex with that key was inserted under it at some time; deletes do not matter. |
| `VertexIds.UnresolvedIff` | converter/parser.cc:402-427 | An entry is left without ids if and only if it is an edge one of whose ends was never inserted under that end's label, or a delete or update of a vertex that never was. |
| `Decimal.ReadPrinted` | converter/parser.cc:42-48 | A printed integer, followed by anything but a digit, reads back as itself within the given bounds and is rejected outside them. |
| `Decimal.StollPrintIff` | converter/parser.cc:431-460 | An integer survives `to_string` and `stoll` if and only if it fits 64 bits; otherwise reading fails. |
| `UnifiedLog.Find` | vegito/src/framework/bench_runner.cc:48-53 | The first occurrence from a place on, or the end. |
| `UnifiedLog.SplitString` | vegito/src/framework/bench_runner.cc:45-63 | The loop computes the pieces between the bars, empty ones included. |
| `UnifiedLog.JoinSplit` | vegito/src/framework/bench_runner.cc:45-63 | Joining the pieces of any text gives the text back. |
| `UnifiedLog.SplitJoinIff` | vegito/src/framework/bench_runner.cc:45-63 | Splitting a line gives its fields back if and only if no field holds a bar. |
| `UnifiedLog.ToString` | converter/parser.cc:100-142 | The line is the entry's fields joined by bars, empty fields included. |
| `UnifiedLog.RestartOffsetOfLine` | converter/binlog_convert.cc:361-363 | The number at the end of any line parses back to the entry's number, whatever bars its ids and properties hold. |
| `UnifiedLog.DecodeLineIff` | vegito/src/framework/bench_runner.cc:566-674 | The consumer recovers the whole entry from its line if and only if no id and no property holds a bar. |
| `UnifiedLog.BarBreaksLine` | vegito/src/framework/bench_runner.cc:566-674 | A concrete entry with a bar in a property that is not recovered from its line. |
| `UnifiedLog.DecodedLength` | vegito/src/framework/bench_runner.cc:568-673 | A decoded entry has as many fields as its line had pieces. |
| `Collector.ToInt32` | converter/binlog_convert.cc:261 | The narrowing to `int` stays in range and is the identity there. |
| `Collector.MessageLines` | converter/binlog_convert.cc:168-273 | The lines of one message are numbered on without a gap, and the counter ends at the last of them. |
| `Collector.RunLines` | converter/binlog_convert.cc:155-274 | The lines of an undisturbed run are numbered 1, 2, 3, ... without gap or repeat, the end-of-bulk-load record included. |
| `Collector.RunLinesGrow` | converter/binlog_convert.cc:155-274 | More input only adds lines at the end. |
| `Collector.NewLinesIsDrop` | converter/binlog_convert.cc:173-194 | Skipping numbers up to the offset drops exactly that many lines from the front. |
| `Collector.Collector.constructor` | converter/binlog_convert.cc:145-150 | The counters start at zero and nothing is known. |
| `Collector.Collector.CountLine` | converter/binlog_convert.cc:174-193 | The catch-up flag turned at the right moment makes a line be written exactly if its number is above the restart offset. |
| `Collector.Collector.WriteEntries` | converter/binlog_convert.cc:173-194 | The entries of a message are given their ids in order and written from the restart offset on. |
| `Collector.UnresolvedLineIff` | converter/binlog_convert.cc:190-193 | Every entry gets its line, ids or not; it has none exactly if an end of the edge, or the vertex, was never inserted before. |
| `Collector.UnknownEndIsWritten` | converter/binlog_convert.cc:190-193 | A first entry that is an edge between vertices nobody inserted: its line is written without ids. |
| `Collector.Collector.MoveEpoch` | converter/binlog_convert.cc:209-254 | The epoch bookkeeping after a message, in both capture modes, changes nothing else. |
| `Collector.Collector.EndBulkLoad` | converter/binlog_convert.cc:256-273 | The end of the bulk load sets epoch 1, restarts the epoch's count and numbers a record of its own. |
| `Collector.Collector.FinishMessage` | converter/binlog_convert.cc:209-273 | After the entries of a message the epoch moves, and a record of its own is written if the last entry ends the snapshot. |
| `Collector.Collector.ProcessMessage` | converter/binlog_convert.cc:157-274 | One turn of the loop writes exactly the new lines of its message and leaves the state the specification gives. |
| `Collector.Run` | converter/binlog_convert.cc:144-277 | A whole run, from any restart offset, writes exactly the lines of the undisturbed run with higher numbers. |
| `CrashRecovery.FindLast` | converter/binlog_convert.cc:361-362 | The last occurrence of a character, or the end. |
| `CrashRecovery.FindRestartOffset` | converter/binlog_convert.cc:338-369 | The offset is 0 for an absent or empty topic, otherwise the number after the last bar of the last line. |
| `CrashRecovery.OffsetIsLength` | converter/binlog_convert.cc:355-363 | On a topic numbered from 1 that number is the length of the topic. |
| `CrashRecovery.LifeExtends` | converter/binlog_convert.cc:173-369 | One life that reads any prefix of the input, resumes and is stopped anywhere extends the topic to a longer prefix of the undisturbed output. |
| `CrashRecovery.AnyLives` | converter/binlog_convert.cc:173-369 | So does any number of lives. |
| `CrashRecovery.LastLifeCompletes` | converter/binlog_convert.cc:173-369 | A last life that is not stopped completes the topic to exactly one undisturbed run. |
| `LineContents.LinesOfMessage` | converter/binlog_convert.cc:155-274 | The lines of a message stand after those of the messages before it, one per entry and one more per snapshot end. |
| `LineContents.DataLine` | converter/binlog_convert.cc:173-194 | Over a whole run, the line of every entry stands at the place, and carries the number, that the entries and snapshot ends before it give; it carries the epoch of its message and the ids the entries before it determine. |
| `LineContents.SnapshotLine` | converter/binlog_convert.cc:256-273 | After the entries of a message that ends the snapshot stands the line that says so, with epoch 1. |
| `LineContents.LineCount` | converter/binlog_convert.cc:155-274 | There are no other lines. |
| `LineContents.InsertsIsCount` | converter/parser.cc:392-397 | The rank an id is made of is the number of vertices of the label inserted before. |
| `LineContents.EdgeLineReads` | converter/parser.cc:100-142 | The line of an edge whose ends were inserted, in full: operation, epoch of the message, edge label, the id issued to the latest insert of the source, the one issued to that of the destination, the two source ids in the same order, the properties, the number. |
| `LineContents.VertexLineReads` | converter/parser.cc:100-142 | The same for a vertex, with the id of its own rank, or of its latest insert when it is deleted or updated. |
| `EpochDiscipline.PlainEpochs` | converter/binlog_convert.cc:209-211 | Without transactions the i-th counted message gets epoch i div logs_per_epoch. |
| `EpochDiscipline.EpochDueIff` | converter/binlog_convert.cc:237-238 | The mixed-width comparison succeeds if and only if at least one epoch's worth of messages was counted, or the epoch began past the range of `int`. |
| `EpochDiscipline.StreamMessage` | converter/binlog_convert.cc:221-252 | One message of a transaction stream raises the epoch by one exactly if it starts a transaction and the epoch is due, and records where the new one begins. |
| `EpochDiscipline.StreamStep` | converter/binlog_convert.cc:221-252 | The same along a whole run, with the epoch's beginning defined by the rises before. |
| `EpochDiscipline.EpochsMonotone` | converter/binlog_convert.cc:221-252 | Over a whole transaction stream epochs never decrease. |
| `EpochDiscipline.RisesApart` | converter/binlog_convert.cc:237-240 | Two rises are at least logs_per_epoch counted messages apart, unless an epoch began past the range of `int`. |
| `EpochDiscipline.EveryTransactionRises` | converter/binlog_convert.cc:234-241 | From then on a message raises the epoch if and only if it starts a transaction. |
| `EpochDiscipline.RiseStartsTransaction` | converter/binlog_convert.cc:234-241 | Inside a run of one transaction only its first message can raise the epoch. |
| `EpochDiscipline.TransactionEpochIff` | converter/binlog_convert.cc:190-249 | Two messages of one run of a transaction get the same epoch if and only if the first of them does not both start the transaction and end an epoch that is due. |
| `EpochDiscipline.TransactionInTwoEpochs` | converter/binlog_convert.cc:234-241 | With one message per epoch, the two messages of one transaction get epochs 0 and 1. |
| `EpochDiscipline.BulkLoadEpochs` | converter/binlog_convert.cc:221-273 | With a bulk load, epochs are 0 up to and including the record that ends it, at least 1 afterwards, and rise by at most 1. |
| `EpochDiscipline.BulkLoadEnds` | converter/binlog_convert.cc:256-262 | After that record the epoch is 1 and the stream's bookkeeping starts at its count. |
| `EpochDiscipline.BulkLoadOverIff` | converter/binlog_convert.cc:256-262 | The collector takes the bulk load as over if and only if some message had a last entry that ends the snapshot, and stays at epoch 0 until then. |
| `BulkLoad.EndsSnapshotIff` | converter/parser.cc:332-371 | A captured message ends the snapshot for the collector if and only if it is the snapshot's last record and stands for an entry at all. |
| `BulkLoad.ExpandEmptyIff` | converter/parser.cc:269-277 | A message stands for nothing if and only if its table is not mapped, or all labels of the table are edge labels with a null end. |
| `BulkLoad.BulkLoadEndsIff` | converter/binlog_convert.cc:168-257 | The bulk load is over if and only if the snapshot's last record was read, its table is mapped, and one of the table's labels is not an edge label with a null end; until then the epoch is 0. |
| `BulkLoad.LostEndOfBulkLoad` | converter/binlog_convert.cc:168-257 | A concrete input whose last snapshot record comes from an unmapped table: the load never ends, and rows streamed afterwards get epoch 0. |
| `EpochDiscipline.EpochDropsIff` | converter/binlog_convert.cc:221-232 | A streamed message lowers the epoch if and only if it has entries but no transaction id, and its count stands for an earlier epoch. |
| `EpochDiscipline.MissingTransactionDropsEpoch` | converter/binlog_convert.cc:223-262 | A concrete run on which the epoch goes from 1 back to 0. |
| `Pipeline.DealKeeps` | converter/binlog_convert.cc:384-407 | Dealing a message or a timeout marker to the next queue keeps the protocol's invariant. |
| `Pipeline.ParserKeeps` | converter/binlog_convert.cc:71-142 | So does every queue operation of a parser: taking a line, queueing an entry, queueing the count. |
| `Pipeline.TakeCountKeeps` | converter/binlog_convert.cc:156-170 | So does the collector taking a count, which is the count of the line it is to merge next. |
| `Pipeline.TakeEntryKeeps` | converter/binlog_convert.cc:173-189 | So does the collector taking an entry, which is the next entry of that line. |
| `Pipeline.NextKeeps` | converter/binlog_convert.cc:71-408 | Every action of every thread keeps the invariant. |
| `Pipeline.RunKeeps` | converter/binlog_convert.cc:71-408 | So does every run, with any number of threads and any interleaving. |
| `Pipeline.TakenIsSequential` | converter/binlog_convert.cc:71-408 | In every reachable state, for any number of threads, any interleaving and any timeouts, what the collector has taken out is a prefix of the sequential expansion of the messages read, in input order, and all of it once it has caught up. |
| `Progress.WorkStep` | converter/binlog_convert.cc:71-194 | Every action of a parser or the collector does exactly one of the queue operations still needed. |
| `Progress.UnfinishedMoves` | converter/binlog_convert.cc:85-189 | While the line to be merged next fits its queue, a parser or the collector can move. |
| `Progress.StuckOnlyWhenDoneOrTooLong` | converter/binlog_convert.cc:85-189 | They can all be stuck only when everything dealt is merged, or the line to be merged next has more entries than its queue holds. |
| `Progress.NoDeadlock` | converter/binlog_convert.cc:71-408 | With queues of at least one place, and entry queues as long as the largest expansion, every reachable state has an enabled thread. |
| `Progress.InternalRunsEnd` | converter/binlog_convert.cc:71-194 | Without new lines every schedule of parsers and collector ends, after as many steps as there is work. |
| `Progress.DeliveryIff` | converter/binlog_convert.cc:85-189 | Some schedule takes out everything dealt if and only if every dealt line's entries fit the entry queue. |
| `Progress.EveryScheduleDelivers` | converter/binlog_convert.cc:71-194 | If they fit, every schedule that runs until nothing can move has delivered the whole sequential expansion. |
| `Progress.RoomForEverything` | converter/binlog_convert.cc:110-140 | Entry queues of two places per label of a table are long enough for every message. |
| `EndToEnd.TimeoutsVanish` | converter/binlog_convert.cc:384-397 | Timeout markers change neither the lines written nor any state of the collector. |
| `EndToEnd.ProducedIsPrefix` | converter/binlog_convert.cc:155-194 | Under any schedule the collector's output is at all times a prefix of the sequential output for the messages read. |
| `EndToEnd.LifeKeepsPrefix` | converter/binlog_convert.cc:71-409 | One life of the whole threaded converter, from restart to crash, extends the output to a longer prefix of the sequential output. |
| `EndToEnd.OutputIsSequential` | converter/binlog_convert.cc:71-409 | For any number of lives, each with its own number of threads, queue sizes, schedule, timeouts and crash point, the output is a prefix of the one sequential output: nothing lost, repeated or reordered. |
| `EndToEnd.OutputCompletes` | converter/binlog_convert.cc:71-409 | Once a life has read all of the input, its collector has caught up and its lines are written, the output is the whole sequential one. |
| `TableOrder.SplitTables` | scripts/update_debezium_config.py:60-66 | The vertex tables are split, in order, by whether they also feed edges. |
| `TableOrder.BuildDict` | scripts/update_debezium_config.py:69-86 | Building fails if and only if an edge from a mixed table names an unknown vertex type; otherwise the dictionary has an entry for exactly the mixed tables with an edge end in another table, listing those ends. |
| `TableOrder.AllListed` | scripts/update_debezium_config.py:96-99 | The test answers whether the tables of all those ends are listed. |
| `TableOrder.Pass` | scripts/update_debezium_config.py:92-101 | One pass places every mixed table that is ready when its turn comes, and fails exactly if it meets one without a dictionary entry. |
| `TableOrder.PassGrows` | scripts/update_debezium_config.py:92-101 | A pass only adds tables, and if it adds none it changes nothing at all. |
| `TableOrder.OrderTables` | scripts/update_debezium_config.py:60-105 | On any mapping, the script fails with a lookup error if and only if a table that feeds vertices too has an edge naming an unknown vertex type, or no edge end in another table; otherwise it loops for ever if and only if mixed tables wait for each other in a circle; otherwise it returns an order that lists every table and has, before the table of each edge, the tables of both its ends, the last vertex type of a name counting. |
| `TableOrder.OwnEndsOnly` | scripts/update_debezium_config.py:92-95 | One table of persons with a column for the boss: the lookup fails. |
| `TableOrder.TablesWaitForEachOther` | scripts/update_debezium_config.py:89-101 | Two tables that refer to each other: the loop never ends. |
| `TableOrder.OrderIsRight` | scripts/update_debezium_config.py:88-105 | In the final order the known end tables of every edge, other than its own, come before its table; exactly the tables of the mapping are listed; each once if and only if no vertex table was named twice. |
| `TableOrder.EndsIffAcyclic` | scripts/update_debezium_config.py:88-101 | Some number of passes places all mixed tables if and only if no mixed tables wait for each other in a circle. |
| `TableOrder.CycleNeverPlaced` | scripts/update_debezium_config.py:88-101 | With a circle, no number of passes ever places all tables. |
| `TableOrder.StuckHasCycle` | scripts/update_debezium_config.py:88-101 | When a pass with tables left changes nothing, there is a circle. |
| `Brackets.PopAngles` | scripts/cpplint.py:2096-2175 | Pending angle brackets on top of the stack are dropped as operators. |
| `Brackets.FindEndOfExpressionInLine` | scripts/cpplint.py:2096-2174 | The loop over one line, angle brackets and operators included, computes the specification function the results below are about. |
| `Brackets.CloseExpression` | scripts/cpplint.py:2177-2218 | The same for the forward matcher over all lines. |
| `Brackets.FindStartOfExpressionInLine` | scripts/cpplint.py:2221-2298 | The backward loop over one line computes its specification function. |
| `Brackets.ReverseCloseExpression` | scripts/cpplint.py:2301-2336 | The same for the backward matcher over all lines. |
| `WellNested.ForwardPairs` | scripts/cpplint.py:2096-2174 | Scanning forward from an opening bracket stops at a position if and only if it holds the bracket of the same kind with well nested text between. |
| `WellNested.BackwardPairs` | scripts/cpplint.py:2221-2298 | Scanning backward from a closing bracket stops at a position if and only if the same holds. |
| `Nesting.CloseIsFindClose` | scripts/cpplint.py:2177-2218 | On lines without angle brackets the forward matcher is the scan over the joined text, not finding exactly when the scan does not. |
| `Nesting.ReverseIsFindOpen` | scripts/cpplint.py:2301-2336 | So is the backward matcher. |
| `Nesting.MatchersAreInverse` | scripts/cpplint.py:2177-2336 | On any lines without angle brackets, closing the bracket at one place ends just after another if and only if reversing from there returns to the first, and then the text between is well nested. |
| `Nesting.MatchersFindPairs` | scripts/cpplint.py:2177-2336 | Conversely both matchers find every pair of like brackets with well nested text between. |
| `Readings.ClosedTextIsNested` | scripts/cpplint.py:2096-2218 | On any text, angle brackets included: up to the place the forward matcher returns, the text can be read, with some angle brackets blanked out, as a bracket, well nested text and the bracket's partner, after characters that are no brackets; an opening bracket other than `<` is itself that bracket. |
| `Readings.ReverseTextIsNested` | scripts/cpplint.py:2221-2336 | The same from the place the backward matcher returns; a closing bracket other than `>` is itself the partner. |
| `Readings.EndReading` | scripts/cpplint.py:2096-2174 | One line of a forward scan closes the pending brackets, some angle brackets of the stack and of the line taken as operators. |
| `Readings.StartReading` | scripts/cpplint.py:2221-2298 | One line of a backward scan opens them likewise. |
| `Statements.SemicolonsAreInside` | scripts/cpplint.py:2164-2171 | Whatever closing place the forward matcher returns: at every semicolon of the text between, some round, square or curly bracket opened since is still open, so a `<` that met a semicolon of its own is never closed by a later `>`. |
| `Statements.AngleForgotten` | scripts/cpplint.py:2164-2171 | A pending `<` followed by a semicolon, with no other bracket between, leaves no trace in the scan, wherever it stands. |
| `Statements.SemicolonsAreInsideBack` | scripts/cpplint.py:2287-2294 | The same for the backward matcher, with brackets that are closed after the semicolon. |
| `Statements.ArrowsNeverClose` | scripts/cpplint.py:2149-2156 | The forward matcher stops after a closing bracket and never takes an arrow for one. |
| `Statements.OperatorsIgnored` | scripts/cpplint.py:2122-2124 | After the word `operator`, a `<` leaves no trace in a forward scan and a `>` none in a backward one. |
| `Statements.OperatorGreaterCloses` | scripts/cpplint.py:2149-2163 | The `>` of `operator>` does close a pending `<` in a forward scan. |
| `ServerRegistry.ScanPrintedIff` | apps/pgx/utility.c:257-272 | A file of printed records scans back to the same records if and only if every host name is non-empty and free of white space. |
| `ServerRegistry.Largest` | apps/pgx/utility.c:268-276 | The maximum computed bounds every scanned id and is one of them, or the starting value. |
| `ServerRegistry.ReadChunk` | apps/pgx/utility.c:338 | A chunk is a non-empty front part of what is left to copy. |
| `ServerRegistry.Registry.constructor` | apps/pgx/utility.c:262-280 | A new process on any file starts one above the largest id that can be read. |
| `ServerRegistry.Registry.Init` | apps/pgx/utility.c:266-280 | On any file, the next id is one above the largest id that can be read; the file is untouched. |
| `ServerRegistry.Registry.Add` | apps/pgx/utility.c:282-293 | The id given out is the next one, and exactly the line of the new record, its host name cut to the field, is appended. |
| `ServerRegistry.Registry.Get` | apps/pgx/utility.c:295-311 | On any file, the answer is host and port of the first readable record with this id whose flag is set, and none if and only if there is no such record. |
| `ServerRegistry.Registry.Delete` | apps/pgx/utility.c:313-345 | On any file, nothing is written if a readable record with this id is cleared already; otherwise the records with the flag cleared are written over the front of the file. Success means some readable record has the id. |
| `ServerRegistry.Registry.CopyRecords` | apps/pgx/utility.c:319-332 | The copy is the print of the readable records with the flag of that id cleared; a record cleared already ends the delete at once. |
| `ServerRegistry.Registry.CopyBack` | apps/pgx/utility.c:338-340 | Copying back chunk by chunk writes exactly the copy. |
| `RegistryHistory.SameLength` | apps/pgx/utility.c:327-331 | Clearing a record's valid flag keeps the length of its line. |
| `RegistryHistory.RewriteIsExact` | apps/pgx/utility.c:313-345 | On a readable file the untruncated rewrite leaves exactly the print of the records with the flag cleared. |
| `RegistryHistory.ServersDelete` | apps/pgx/utility.c:322-329 | Clearing one flag removes exactly that server from those that can be looked up. |
| `RegistryHistory.LookupIsMap` | apps/pgx/utility.c:295-311 | On the records of a readable file the lookup is that of the map of valid servers. |
| `RegistryHistory.RegistryIsMap` | apps/pgx/utility.c:266-345 | Over any history of adds, deletes in place and restarts, the file reads back at every moment as an undisturbed registry if and only if every host name added is, once cut to its field, non-empty and free of white space; and then every lookup and the next id are those of a plain map with a counter. |
| `RegistryHistory.AddedServerIsFound` | apps/pgx/utility.c:282-311 | A server is found under the id it was given, with its port and its whole host name of up to 126 characters (of a longer one, the first 126), whatever is added, deleted or restarted afterwards, as long as host names are valid and this server is not deleted. |
| `RegistryHistory.FreshIdsIncrease` | apps/pgx/utility.c:262-293 | When the next id is at every moment above all ids given out, these strictly increase, so none is used twice. |
| `RegistryHistory.FreshUnlessBlockedIff` | apps/pgx/utility.c:262-293 | Over any history whose host names are valid or, like "a b", go on after their first word with something that is no number: the next id is at every moment above all ids given out if and only if no restart comes after a name of the second kind was added. |
| `RegistryHistory.IdsNeverReused` | apps/pgx/utility.c:262-345 | With valid host names the ids given out strictly increase over any history, restarts included. |
| `RegistryHistory.RestartForgetsIff` | apps/pgx/utility.c:266-293 | After one more add and a restart the new id is given out again if and only if its line cannot be scanned; otherwise the next id is larger. |
| `RegistryHistory.SpacedHostReusesId` | apps/pgx/utility.c:266-293 | A concrete history: adding "a b", restarting and adding again gives out id 0 twice. |

## Left out

- Collector.Run: epochs by wall-clock time (`seconds_per_epoch`) are not modelled, because they depend on the clock; every statement about epochs is for logs-per-epoch mode.
- Collector.MoveEpoch: the epoch is an unbounded integer and does not overflow `int`; the narrowing of the message count, which matters earlier, is modelled.
- Pipeline.Next: queues are sequences with a capacity and single atomic operations; the lock-free implementation behind them is not part of this model, nor is the race on the set of table names already reported as unused.
- LogParser.TxnLogParser.Parse: starts from a message with table, operation and rows; parsing JSON, extracting transaction ids from GTID text and the abort on malformed input are not modelled. Labels of one table are assumed to have distinct names, and floating-point properties are given as the text they are printed as.
- VertexIds.GidTable.ParseAgain: an integer id that does not fit 64 bits throws in the source and is excluded here (`VertexIds.KeyOfInteger` says which ones those are).
- CrashRecovery.FindRestartOffset: the watermark query and the consumer that fetches the last line are parameters.
- EdgeStore.EdgeRegion.PutEdge: running out of memory, zero-sized properties, and the locks between writers are not modelled; what other vertices of the segment allocate meanwhile enters as parameters.
- EdgeReader.EdgeIterator.constructor: an iterator works on a copy of the memory taken when it is opened, between two complete writes. The moments inside a write, when a new epoch row stands without its first entry or a block just chained in front is still empty (the fragment then returns no edges at all), and a writer running beside an open iterator are not modelled, except that later complete writes change nothing (`EdgeReader.SnapshotStable`).
- EdgeDeletes.DeleteAll: the incoming entries on the other side of each deleted edge are one `EdgeDeletes.DeleteEdge` each and are not repeated here.
- PropertyPages.ColumnFamily.Insert: only updatable families; fixed columns and the conversion of text to typed values are not modelled; values are the bytes stored. What the string store holds for a key is a parameter of `PropertyPages.ColumnFamily.Update`.
- FragmentIds.VertexRoundTrip: the external-id maps (`Oid2Gid`, `Gid2Oid`) hold no logic of their own and are not modelled.
- DestLists.InitDestFidList: for one vertex label and one edge label; the two outer loops repeat it. Adjacency is a function of the vertex that yields the fragments of its neighbours.
- TableOrder.OrderTables: reading the YAML mapping and writing the configuration file are not modelled; an endless loop is reported as the outcome `LoopsForever` after a pass that changes nothing.
- Brackets.CloseExpression: lines are plain ASCII text already stripped of comments and strings.
- Nesting.MatchersAreInverse: is about text without angle brackets; with them the matchers guess, in different ways forward and backward, and do not undo each other. `Readings` states what holds then.
- RegistryHistory.FreshUnlessBlockedIff: host names that are blank, or whose later words are numbers, are outside this condition; `RegistryHistory.AlwaysFreshIff` says for them too that freshness is decided at the restarts.
- ServerRegistry.Registry.Delete: integers are unbounded, file operations succeed, one process at a time uses the file, and a scanned word longer than the host name field, which no operation of the registry itself prints, is not cut or made to overflow anything.
- RowChanges.MessageKeepsGraph: the edges of a label are a bag from which a delete takes one edge with the given ends; when the store's own delete, which may name a dead entry, does that too is `LiveEdges.HistoryCountsIff`.
- VertexChanges.RunMirrorsIff: every row of the table has an integer or text id, no two rows the same; the parser stops on anything else.
- Kafka, etcd, vineyard, MPI, the checkpointing of the vertex maps, edge property schemas, edge counting, the analytical engine, the coordinator, the SQL extensions and the other scripts are not part of this model; they would add calls into other systems or easy members.
