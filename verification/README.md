# Squrust: a verified model

Squrust is a SQLite-compatible database engine written in Rust. This project models its storage
engine (`squrust-core`) and the parts of its SQL engine (`squrust-sql`) that have a meaning of their
own, and proves that meaning.

`Common` holds what several modules share.

**Table b-trees.** `Varint`, `Node`, `Table`, `Tree`, `TreeEdit`, `LeafEdit`, `Overflow`, `LeafPages`,
`InteriorPages`, `Insertion`, `Deletion`, `BTree`, `TableRuns`, `LastKeys`,
`Cursor`, `CellLoss`. A b-tree is a page store
(`Overflow.PageSink`, the pages and the allocator of a write transaction) in which a ghost tree is stored.
Every operation keeps the tree a b-tree on the same root page, with separators bounding their
subtrees, all leaves equally deep and, with room, every node within its page; keeps all pages that belong to
others as they are; and keeps every allocated page in exactly one place: in the tree, with others, or
on the freelist. The records of the tree, left to right, are the abstract value: an ascending list,
which lookup turns into a finite map. What an insertion comes to is decided by sizes alone, before the call
(`BTrees.Foresee`): with `LeafPages.Room` in the one leaf concerned the table is the one meant; without
`LeafPages.Survives` it panics; and between the two it writes the left half of the leaf over itself and, unless
that half was the root page's and does not read back, answers as if all were well. A ghost `BTrees.Fate` tells which,
and `CellLoss` runs into the third case with three insertions.

**Pages as bytes.** `PageFormat`, `Overlaps`, `TreeBytes`: the SQLite Database File Format, section 1.6, for
table b-tree pages, and overflow pages as in section 1.7. A node that does not fit its page is serialised like any
other (`PageFormat.Image`), its cells over its own pointers and header.

**Transactions.** `WalFrame`, `Wal`, `WriteAheadLog`, `DbHeader`, `Mvcc`, `PageCache`, `Snapshots`, `Recovery`,
`Storage`, `WriteTx`, `Database`, `TreeTx`, `TreeSnapshots`, `UserVersion`, `StatementTx`. The log is a file of
bytes; the index, the version counters, the LRU cache, the gate and the allocator are the fields of their classes. A ghost history records
what was committed at each version a reader may still hold. The 100-byte header is part of page 1: the bytes
in front of the b-tree node there differ between log, file and cache, and so no one is promised them; a checkpoint
keeps the user version that the newest image of page 1 has, which is 0 once a b-tree wrote that page
(`TreeTransactions.UserVersionKept`). `Databases.Run` compares a whole run, with crashes between operations, at any byte of a commit and
after any write of a checkpoint, to a store that a commit simply replaces. There is one way to lose it: a b-tree
commit logs page 1 without a header, a checkpoint writes that image first and the header last, and a database
file without a header is refused (`Recovery.CrashOpens`). `TreeTransactions.EditTable` puts the b-tree on
top: the calls a tree makes on its page store are made on a write transaction, pages serialised and parsed, and
whatever it read in between the transaction would have answered alike. `StatementTx` carries CREATE TABLE, and
INSERT, UPDATE and DELETE, one to a transaction or several, to the committed bytes.

**Calendar.** `Calendar`, `DateTime`: Julian-day arithmetic in exact reals and integers, against a calendar
defined by the leap-year rule and the lengths of the months.

**Queries.** `Values`, `Eval`, `EvalLaws`, `Optimizer`, `Ordering`, `Sorting`, `Plans`, `Executors`, `PlanLaws`, `PlanMeaning`: expression
evaluation, constant folding, and pull iterators against the row lists their plans denote. `EvalLaws` and `PlanMeaning`
say what each operator of an expression and of a plan computes, value by value and row by row. `Patterns`: LIKE and GLOB.

**Rows.** `Record` and `RecordLaws` (SQLite Database File Format, section 2.1), `Dml`, `TableRows`, `DmlRuns`, `DmlLaws`,
`RowLoss`: record bytes, tables kept in b-trees, and the constraints that INSERT, UPDATE and DELETE keep.

Parameters stand for what the model does not compute: floating-point operations, text conversion and scalar
functions are the fields of `Values.Lib`, UTF-8 validity is a predicate, column affinity a function. Where
comparisons must be an order, `Orders.FloatsOrdered` states what IEEE 754 comparison gives.

Preconditions are those of the source's own callers: rows no longer than a 64-bit length, page numbers and page counts
below 2^32, versions below 2^64, a transaction not used after it finished, a page written or freed only within the
transaction's page count, a gate that is free (a second writer waits for it).

Where the code and its documentation disagree the code is followed: `split.rs` says both halves of a leaf fit
(`Nodes.BigCellNoRoom`, and what comes of it: `CellLoss.LoseCommitted`); `last_key` says it returns the largest rowid
(`LastKeys.EmptyLastLeaf`, and what that does to INSERT: `RowLoss.RowLost`); `wiki/Storage-Engine.md` says opening replays the log, but after some crashes
inside a checkpoint the file is refused before that (`TreeTransactions.InsertThenCrash`); `checkpoint.rs` says it preserves
the user version, but a b-tree that writes page 1 sets it to 0 before (`UserVersions.VersionLost`); the optimizer folds
NOT of a literal NULL to true where evaluation gives NULL (`Optimizer.FoldedFilterDiffers`). `node.rs` calls
its rowid encoding zig-zag; it is the plain two's complement pattern.

`dafny verify dfyconfig.toml` checks the whole project.

## Model

| member | source | states |
|---|---|---|
| Varint.Write | squrust-core/src/varint.rs:23-46 | appends exactly the varint of a 64-bit value and returns its length, filling the scratch buffer from its last byte down |
| Varint.Read | squrust-core/src/varint.rs:49-66 | reads the value and the bytes consumed, the ninth byte whole, or nothing when the bytes run out |
| Varint.RoundTrip | squrust-core/src/varint.rs:23-66 | decoding an encoded value, whatever bytes follow, gives the value and its length |
| Varint.Shortest | squrust-core/src/varint.rs:8-66 | no byte string that decodes to a value is shorter than the encoding `write` chooses for it |
| Varint.DecodeMeaning | squrust-core/src/varint.rs:49-66 | the value read is that of the bytes up to the first one below 128, seven bits each and the most significant first, or of eight such bytes and a whole ninth |
| Nodes.InlineBounds | squrust-core/src/btree/node.rs:263-272 | a spilling record keeps between M and X bytes inline, always spills something, and what it spills fills whole overflow pages unless only M bytes are kept |
| Nodes.InlineNumbers | squrust-core/src/btree/node.rs:263-272 | the bounds in numbers: up to 4061 bytes stay inline, and of more 489, or up to 4061 so that whole overflow pages are filled |
| Nodes.CellLenBound | squrust-core/src/btree/node.rs:47-52 | no cell of any record is longer than 4083 bytes |
| Nodes.Search | squrust-core/src/btree/node.rs:61-63 | position of a key in a sorted leaf, or where it belongs |
| Nodes.SplitLeaf | squrust-core/src/btree/split.rs:14-29 | a leaf is cut where the running size first reaches half, both sides non-empty, nothing lost or reordered, the separator the largest key on the left |
| Nodes.SplitIndexMeaning | squrust-core/src/btree/split.rs:14-26 | the cut is the first position whose prefix weighs at least half, but for the clamp that keeps a cell on each side |
| Nodes.RightHalfFits | squrust-core/src/btree/split.rs:14-29 | whatever the size of the inserted cell, the right half of a split fits a page other than page 1 |
| Nodes.InteriorHalvesFit | squrust-core/src/btree/split.rs:33-50 | both halves of an interior node that outgrew its page by one cell fit, and neither is empty |
| Nodes.SmallCellsRoom | squrust-core/src/btree/split.rs:12-29 | when no cell is longer than 795 bytes a leaf that fitted takes one more cell, directly or after one split, on page 1 too |
| Nodes.BigCellNoRoom | squrust-core/src/btree/split.rs:12-29 | the comment that both halves fit is not always so: a 4000-byte cell between two 2000-byte cells leaves a left half larger than a page |
| Nodes.PageOneNoRoom | squrust-core/src/btree/node.rs:65-74 | on page 1 a single 4000-byte record overfills an empty leaf |
| PageFormat.CellsTile | squrust-core/src/btree/node.rs:137-162 | the cells of a node that fits lie end to end against the end of the page, none overlapping another or the pointer array |
| PageFormat.EncodeCell | squrust-core/src/btree/node.rs:151-157 | a cell is the payload length, the rowid, the inline payload and the overflow page, or a child and a rowid |
| PageFormat.WriteHeader | squrust-core/src/btree/node.rs:143-147 | writes the type, no freeblock, cell count, content start and right child, and no other byte, whether the node fits or not |
| PageFormat.PutCell | squrust-core/src/btree/node.rs:149-162 | writes one pointer and then one cell over whatever is there, other cells and pointers included, and changes no other byte |
| PageFormat.SerializeInto | squrust-core/src/btree/node.rs:126-193 | panics exactly when the cells take more than a page or the pointers run past it; else the bytes are the image of the node, cells over pointers and header where it does not fit; where it does, every byte from the header on is fixed and bytes 0..100 of page 1 are left alone |
| PageFormat.ImageHeld | squrust-core/src/btree/node.rs:126-193 | for a node that fits, laying pointers and cells out one after the other gives a page in which none of them is disturbed |
| PageFormat.ImageUnique | squrust-core/src/btree/node.rs:126-193 | what a page holds after serialisation is the only image of its node: header, pointers, zeros and cells determine every byte |
| PageFormat.ParsePage | squrust-core/src/btree/node.rs:195-261 | parses a page cell by cell through its pointers; corrupt varints and types are errors, an index past the page a panic |
| PageFormat.ParseBack | squrust-core/src/btree/node.rs:195-261 | parsing a page that holds a node gives that node, on page 1 as on any other |
| PageFormat.WriteThenRead | squrust-core/src/btree/node.rs:126-261 | writing a node that fits into any page and parsing the page gives the node |
| PageFormat.FieldNumbers | squrust-core/src/btree/node.rs:292-297 | fields of two and four bytes are read with the most significant byte first |
| PageFormat.FitsNumbers | squrust-core/src/btree/node.rs:65-113 | a node fits its page exactly if headers, two bytes a pointer and the bytes of its cells come to no more than 4096; it is written without a panic exactly if its pointers and its cells each stay within the page |
| PageFormat.HeldNumbers | squrust-core/src/btree/node.rs:137-181 | a page that holds a node has byte 13 for a leaf and 5 for an interior node where its header begins, then no freeblock, the number of cells, where they begin, no fragments and the right child, most significant byte first |
| PageFormat.CellNumbers | squrust-core/src/btree/node.rs:148-190 | pointer i, two bytes behind the header, leads to cell i; the cells lie one after the other up to byte 4096 |
| PageFormat.LeafCellNumbers | squrust-core/src/btree/node.rs:149-158 | a leaf cell is the varint of the record length, the varint of the rowid as a 64-bit pattern, the inline bytes, and four bytes of the first overflow page if there is one |
| PageFormat.InteriorCellNumbers | squrust-core/src/btree/node.rs:163-192 | an interior cell is four bytes of the child and the varint of the separator |
| PageFormat.ParseNumbers | squrust-core/src/btree/node.rs:195-261 | a leaf parses from type 13 only, an interior node from type 5 only, any other type is corrupt; as many cells as bytes 3 and 4 say, each found through its pointer |
| PageFormat.ReadBackIs | squrust-core/src/btree/node.rs:126-261 | a node written to a page of zeros, whether it fits or not, is read as what its image parses to: a node that fits as itself |
| Overlaps.PairReadBack | squrust-core/src/btree/node.rs:126-261 | a node that does not: records of 98 and 3983 bytes under keys 1 and 2, on any page but page 1, are written without a panic and read, without an error, as an empty record under key 110 and the record of key 2 |
| TreeBytes.WriteLink | squrust-core/src/btree/mod.rs:268-272 | an overflow page is the next page number and 4092 payload bytes |
| TreeBytes.TreeWritable | squrust-core/src/btree/node.rs:126-193 | every page of every stored b-tree, nodes and overflow pages alike, fits the byte format (page numbers below 2^32) and is written without a panic |
| TreeBytes.TreeReadsBack | squrust-core/src/btree/node.rs:195-261 | a tree whose nodes fit, written to disk page by page and read back, is the same tree with the same records |
| Overflow.PageSink.AllocPage | squrust-core/src/storage/mod.rs:289-296 | hands out the last freed page, else a new one; allocated, free and owned pages stay exactly the numbered pages, each once |
| Overflow.PageSink.FreePage | squrust-core/src/storage/mod.rs:298-302 | returns an owned page to the freelist; no other owned page changes |
| Overflow.WriteOverflow | squrust-core/src/btree/mod.rs:259-274 | the spilled tail is stored in a fresh chain, all pages full but the last, no other page touched |
| Overflow.ReadValue | squrust-core/src/btree/mod.rs:276-299 | reassembles exactly the record that was stored, inline part and chain |
| Overflow.FreeOverflowChain | squrust-core/src/btree/mod.rs:301-310 | frees exactly the pages of the chain, in order, and no other |
| LeafPages.WriteLeaf | squrust-core/src/btree/mod.rs:152-166 | a leaf is written whole if it fits, else cut into this page and a new one; it panics exactly when the cut leaf has one cell, or its left half takes more than a page, and a left half that takes no more is written though it may not fit |
| LeafPages.PutLeaf | squrust-core/src/btree/mod.rs:143-171 | an insertion into a leaf replaces or adds one cell, frees the replaced chain afterwards, and leaves every page outside alone; it panics exactly when writing the leaf does |
| InteriorPages.FindChild | squrust-core/src/btree/node.rs:86-93 | the first separator not below the key |
| InteriorPages.EditInterior | squrust-core/src/btree/mod.rs:182-192 | a split child is replaced by its two halves around the new separator |
| InteriorPages.WriteInterior | squrust-core/src/btree/mod.rs:193-206 | an interior node that grew by one cell is written whole or cut, and always finds room |
| Insertion.InsertRec | squrust-core/src/btree/mod.rs:136-207 | inserting below a page yields a b-tree on that page, or two of the same height with a separator between, holding the old records with this one put in; its nodes all fit exactly when the leaf has room, and else all but that leaf; it panics exactly when the leaf of the key, or the left half of it, cannot be written |
| BTrees.GrowRoot | squrust-core/src/btree/mod.rs:209-218 | a split root keeps its page number; its left half, read back from the root page, moves to a new page and the tree grows one level; if that half does not fit the root page, the new page holds what it reads as, or the call fails, or panics, with the reading |
| BTrees.MakeCell | squrust-core/src/btree/mod.rs:108-134 | a record becomes a cell and chain that hold it, sized by its length alone |
| BTrees.Create | squrust-core/src/btree/mod.rs:50-56 | an empty table of one leaf, on a fresh page |
| BTrees.Insert | squrust-core/src/btree/mod.rs:100-106 | by sizes: with room in the leaf the key belongs to the table is the old one with the record put in, on the same root, every page accounted for once, and a rightmost leaf that held records, or is the root, holds some afterwards; if not even the left half can be written it panics; else, below a root, it answers as done and only the page of that leaf is not as meant; and on a root that is a leaf it does what reading that page back comes to |
| BTrees.Foresee | squrust-core/src/btree/mod.rs:136-171 | reading the tree down to the leaf of a key tells, before anything is written, whether the record has room and whether inserting it gets by without a panic |
| BTrees.Delete | squrust-core/src/btree/mod.rs:220-244 | always succeeds; the tree is the old one with the key taken out of its leaf and no node merged, pages freed exactly, found telling whether the key was there |
| BTrees.Get | squrust-core/src/btree/mod.rs:60-73 | the record last stored under the key, or none |
| BTrees.LastKey | squrust-core/src/btree/mod.rs:88-96 | the last key of the rightmost leaf |
| BTrees.LastKeyExact | squrust-core/src/btree/mod.rs:87-96 | that is the largest key of the table exactly when the rightmost leaf is not empty (or the whole table is) |
| LastKeys.EmptyLastLeaf | squrust-core/src/btree/mod.rs:50-244 | a run of Create, Insert and Delete after which it is not: six records of 780 to 784 bytes, then the last key deleted as long as one is reported; none is, and record 1 is still there |
| LastKeys.DeleteLast | squrust-core/src/btree/mod.rs:224-244 | deleting the last key shortens the rightmost leaf by its last record and changes no other leaf |
| Deletion.DeleteRec | squrust-core/src/btree/mod.rs:224-244 | deleting below a page keeps the page, the height and every other record |
| Table.StaysAscending | squrust-core/src/btree/mod.rs:136-244 | inserting and deleting keep the records in ascending key order |
| Table.LookupAfter | squrust-core/src/btree/mod.rs:60-244 | seen through lookup, insert is update and delete is removal of one key |
| Trees.FlatBounds | squrust-core/src/btree/mod.rs:136-207 | in every b-tree the records ascend and lie within the separators around their subtrees |
| TableRuns.RunIsMap | squrust-core/src/btree/mod.rs:60-244 | after any run of inserts and deletes every key holds what was last written to it |
| TableRuns.Run | squrust-core/src/btree/mod.rs:100-244 | a whole run on pages refines the run on the list, up to the first insertion that finds no room; then what it comes to, and after a damaged leaf all other pages are those of the table meant; if all cells are small every insertion finds room |
| TableRuns.SmallRoom | squrust-core/src/btree/mod.rs:136-207 | among records with cells of at most 795 bytes every such record finds room, in every tree there can be |
| TableRuns.ShortIsSmall | squrust-core/src/btree/node.rs:47-52 | records of at most 784 bytes have such cells |
| CellLoss.LoseRecord | squrust-core/src/btree/mod.rs:100-257 | into an empty table on any page but page 1, records of 98, 50 and 3983 bytes under keys 1, 3 and 2: all three are answered as done, and the leaf reads as an empty record under key 110 and the record of key 2 |
| CellLoss.LoseCommitted | squrust-core/src/storage/mod.rs:158-334 | in a write transaction that commits, and the committed page then parses without an error and without key 1 |
| Cursors.BTreeCursor.Seek | squrust-core/src/btree/cursor.rs:27-57 | positions the cursor so that exactly the records with keys at or above the rowid remain, in order |
| Cursors.NextChild | squrust-core/src/btree/cursor.rs:95-107 | pops exhausted nodes until one has a further child |
| Cursors.DescendLeftmost | squrust-core/src/btree/cursor.rs:63-77 | descends to the first leaf of a subtree, keeping what remains |
| Cursors.BTreeCursor.Next | squrust-core/src/btree/cursor.rs:81-110 | delivers the first remaining record and removes it, passing over leaves emptied by deletes; at the end it answers None for good |
| Cursors.AtLeastNext | squrust-sql/src/executor/scan.rs:51-84 | past the first record at or above a key come exactly those above its key |
| Cursors.TableScan.Next | squrust-sql/src/executor/scan.rs:51-84 | seeking again from the next key delivers the same records one by one, the largest rowid included |
| Cursors.TableScan.CollectAll | squrust-sql/src/executor/scan.rs:51-84 | draining a scan delivers the whole table once, in order |
| WalFrames.ComputeChecksum | squrust-core/src/wal/frame.rs:36-44 | the checksum of the header prefix and the page, byte by byte |
| WalFrames.ChecksumNumbers | squrust-core/src/wal/frame.rs:36-44 | the checksum is FNV-1a of 64 bits: its value on no byte and on the letter a, and how one more byte is taken in |
| WalFrames.EncodeFrame | squrust-core/src/wal/frame.rs:46-58 | lays a frame out field by field around its checksum |
| WalFrames.FrameNumbers | squrust-core/src/wal/frame.rs:46-58 | page, version, page count, salt and checksum at bytes 0, 4, 12, 16 and 20, four zeros, and the data from byte 32 |
| WalFrames.FrameRoundTrip | squrust-core/src/wal/frame.rs:46-86 | decoding an encoded frame, whatever follows it, gives the frame |
| WalFrames.DecodedIsEncoded | squrust-core/src/wal/frame.rs:60-86 | a frame accepted from disk is the encoding of what was decoded, but for four reserved bytes that nothing checks |
| Wal.CrashDuringAppend | squrust-core/src/wal/mod.rs:69-114 | however many bytes of an append reached the file, recovery yields the log with the whole transaction if all did, without it otherwise, and cuts the rest off |
| Wal.UnmarkedIsLost | squrust-core/src/wal/mod.rs:128-140 | without a page count on its last frame a transaction is never recovered |
| Wal.WholeAppend | squrust-core/src/wal/mod.rs:132-163 | the file stays a sequence of whole transactions that replay to the live log |
| WriteAheadLogs.Replay | squrust-core/src/wal/mod.rs:73-114 | reads frames up to the first short or damaged one and takes in whole transactions only |
| WriteAheadLogs.RecoverWhole | squrust-core/src/wal/mod.rs:108-112 | what recovery leaves of any file is whole transactions |
| WriteAheadLogs.WriteAheadLog.Open | squrust-core/src/wal/mod.rs:46-67 | opening any bytes gives the recovered index, versions and size, and the truncated file |
| WriteAheadLogs.WriteAheadLog.AppendCommit | squrust-core/src/wal/mod.rs:132-163 | appends the frames, stamped with one version and a page count on the last, and the live index stays what replaying the file would rebuild |
| WriteAheadLogs.WriteAheadLog.ReadPage | squrust-core/src/wal/mod.rs:167-175 | the newest version of a page not past the snapshot |
| WriteAheadLogs.WriteAheadLog.Reset | squrust-core/src/wal/checkpoint.rs:59-65 | the log is emptied; the version count and size run on |
| Mvcc.MvccManager.BeginRead | squrust-core/src/mvcc/mod.rs:45-49 | pins the last committed version; the table counts exactly the live snapshots |
| Mvcc.MvccManager.EndRead | squrust-core/src/mvcc/mod.rs:52-60 | releases one pin of a version, and nothing if there is none |
| Mvcc.MvccManager.PublishCommit | squrust-core/src/mvcc/mod.rs:75-78 | versions only move forward |
| Mvcc.MvccManager.OldestRequiredVersion | squrust-core/src/mvcc/mod.rs:82-89 | the least live snapshot, or the committed version; behind it exactly when some reader lags |
| PageCaches.PageCache.Get | squrust-core/src/page/cache.rs:63-71 | a hit returns the cached page and makes it the most recently used |
| PageCaches.PageCache.Insert | squrust-core/src/page/cache.rs:73-79 | the page is cached; of the others only the least recently used may go, and only when the cache was full |
| PageCaches.PageCache.EvictIfNeeded | squrust-core/src/page/cache.rs:31-39 | evicts exactly the least recently used page, exactly when there is one too many |
| PageCaches.PageCache.Invalidate | squrust-core/src/page/cache.rs:82-88 | drops the page and nothing else |
| PageCaches.TouchMeaning | squrust-core/src/page/cache.rs:24-29 | using an id puts it last, and the cached ids remain the most recently used of all ids used and not invalidated, each once |
| Snapshots.CommitKeepsOld | squrust-core/src/wal/mod.rs:155-175 | a commit leaves every earlier snapshot as it was |
| Snapshots.CommitShowsNew | squrust-core/src/wal/mod.rs:155-175 | at its own version a commit shows the old pages with its own laid over |
| Snapshots.PartFoldShows | squrust-core/src/wal/checkpoint.rs:37-40 | while the log is kept what the latest snapshot shows does not depend on how far a checkpoint got, torn pages included, the header in front of page 1 aside |
| Snapshots.FoldShows | squrust-core/src/wal/checkpoint.rs:37-65 | once every page of the log is in the file the log can go |
| Snapshots.FileWriteMeaning | squrust-core/src/storage/file.rs:94-99 | writing past the end grows the file, the gap reading as zeros |
| Recovery.Checkpoint | squrust-core/src/wal/checkpoint.rs:19-67 | the file becomes exactly what writing the newest version of each page, in page order, and then the header into the first 100 bytes of page 1 makes of it; that header reads as the larger of the file's length and the log's size in pages, and the last version, at least 1, as change counter; the log is emptied; the cache stays true to the file but for those bytes, of which the user version is kept |
| Recovery.CrashIdle | squrust-core/src/wal/mod.rs:73-114 | reopening after a crash between operations shows the last committed pages, all within the page count |
| Recovery.CrashInCommit | squrust-core/src/wal/mod.rs:73-163 | reopening after a crash during a commit shows the pages with the whole commit if all its bytes are there, without it after any fewer |
| Recovery.CrashInCheckpoint | squrust-core/src/wal/checkpoint.rs:37-64 | inside a checkpoint, with any of its pages written, even torn, or after it but before truncation, file and log together still hold the last committed pages |
| Recovery.CrashOpens | squrust-core/src/wal/checkpoint.rs:33-59 | the file a crash leaves after j writes of a checkpoint opens if and only if page 1 is not in the log, or its newest image begins with a header, or j is 0, or the header has been written |
| DbHeaders.HeaderRoundTrip | squrust-core/src/storage/header.rs:43-105 | reading a written header gives the header |
| DbHeaders.ReadNumbers | squrust-core/src/storage/header.rs:84-105 | a header is read exactly from a page that begins with the 16 bytes of the magic string and a page size of 4096; change counter, page count, freelist, schema cookie and user version at bytes 24, 28, 32, 36, 40 and 60 |
| DbHeaders.WrittenNumbers | squrust-core/src/storage/header.rs:43-81 | the bytes a written header has besides: rollback-journal mode, payload fractions, schema format, encoding, and the counter and library version at its end |
| DbHeaders.ZeroFrontRefused | squrust-core/src/storage/header.rs:84-105 | a page that begins with 100 zeros, as b-tree nodes are written, is refused as no database |
| DbHeaders.FirstPageHeld | squrust-core/src/storage/file.rs:53-65 | page 1 of a new file has a header that counts one page and one change, all else 0, and holds an empty leaf |
| Storage.OpenDatabase | squrust-core/src/storage/file.rs:29-51 | opens the files a crash left exactly when page 1 begins with a header, with the committed pages current, and else says why not; an empty file becomes a new database |
| Storage.StorageEngine.Open | squrust-core/src/storage/mod.rs:105-130 | from the header read, the recovered pages are current and the page count covers each of them |
| Storage.StorageEngine.ReadPageAt | squrust-core/src/storage/mod.rs:133-148 | served by log, cache or file, a page read at a recorded version is the page committed at that version |
| Storage.StorageEngine.BeginRead | squrust-core/src/storage/mod.rs:150-156 | a reader is pinned to the last commit |
| Storage.StorageEngine.CheckpointLog | squrust-core/src/storage/mod.rs:177-182 | does nothing while a reader lags; else folds the log, and no live reader and no writer sees a difference but in the header of page 1 |
| Storage.StorageEngine.Publish | squrust-core/src/storage/mod.rs:327-332 | the appended version becomes current, the allocator is handed over, earlier versions stay recorded |
| Storage.CountIs | squrust-core/src/storage/mod.rs:111-116 | a database opens with the largest of the page counts that the header, the log and the length of the file give, and at least 1 |
| Storage.CrashDisk | squrust-core/src/storage/mod.rs:105-130 | at any moment between operations the files open and hold the last committed pages |
| Storage.CrashDiskInCommit | squrust-core/src/storage/mod.rs:304-334 | the same at any byte of a commit, with the whole commit or nothing of it |
| Storage.CrashDiskInCheckpoint | squrust-core/src/storage/mod.rs:177-182 | with the pages of a checkpoint half written, even torn, the files hold the last committed pages; whether they open is up to the header of page 1 |
| WriteTransactions.WriteTx.Begin | squrust-core/src/storage/mod.rs:158-174 | one writer at a time, starting from the last commit and the engine's allocator |
| WriteTransactions.WriteTx.GetPage | squrust-core/src/storage/mod.rs:277-282 | a writer reads its snapshot with its own pages laid over |
| WriteTransactions.WriteTx.AllocPage | squrust-core/src/storage/mod.rs:289-296 | the last freed page, else one past the end that holds nothing yet |
| WriteTransactions.WriteTx.FreePage | squrust-core/src/storage/mod.rs:298-302 | the page is free again and what was written to it forgotten |
| WriteTransactions.BuildFrames | squrust-core/src/storage/mod.rs:311-325 | one frame for each pending page, each once, in any order, with the version and the salt 0x51475253; none is left in the cache |
| WriteTransactions.WriteTx.Commit | squrust-core/src/storage/mod.rs:304-334 | the next version is exactly what the writer saw; recorded versions are unchanged; the gate opens |
| WriteTransactions.WriteTx.Rollback | squrust-core/src/storage/mod.rs:336-347 | drops everything: pages, page count and freelist are as before, and the gate opens once |
| Databases.Run | squrust-core/src/storage/mod.rs:133-347 | any run of reads, writes, commits, rollbacks, checkpoints and crashes, between operations, at any byte of a commit or after any write of a checkpoint, gives the answers of a store that is simply replaced at each commit, and lost by exactly those crashes that leave page 1 without a header; a crash never enlarges the page count, unless a header that a writer put into page 1 itself did |
| Databases.SnapshotIsolation | squrust-core/src/storage/mod.rs:133-182 | in every run a reader of a database that is not lost sees exactly what was committed when it began, for as long as it lives, the header of page 1 aside |
| Databases.Database.CommitWriter | squrust-core/src/storage/mod.rs:304-334 | a commit replaces the committed pages by what the writer saw, allocator included |
| Databases.Database.RollbackWriter | squrust-core/src/storage/mod.rs:336-347 | a rollback changes nothing but that the writer is gone |
| Databases.Database.RunCheckpoint | squrust-core/src/storage/mod.rs:177-182 | a checkpoint changes nothing anyone can see |
| Databases.Database.CrashWhileCommitting | squrust-core/src/storage/mod.rs:304-334 | after a crash in a commit the store holds all of it or none, by the bytes written |
| Databases.Database.CrashWhileFolding | squrust-core/src/wal/checkpoint.rs:19-67 | after a crash behind any number of writes of a checkpoint the store holds what was committed, or is lost, by the header of page 1 |
| Databases.Database.CrashTearing | squrust-core/src/wal/checkpoint.rs:19-67 | after a crash that tore the pages being written too, as long as page 1 begins with a header, with version and page count as the files give them, and else it is lost |
| Databases.Database.CrashNow | squrust-core/src/storage/mod.rs:105-130 | a crash between operations keeps the committed pages and what of them is in the log; version and page count are those that the files give, and the page count is no larger than before |
| Databases.Database.Reopen | squrust-core/src/storage/mod.rs:105-130 | the version is that of the last transaction in what recovery leaves of the log, the page count the largest of that transaction's, the header's and the file's |
| TreeTransactions.LoadTree | squrust-core/src/btree/mod.rs:60-73 | reading the pages of a committed tree through the engine and parsing them gives the tree |
| TreeTransactions.Serialize | squrust-core/src/btree/mod.rs:246-272 | the bytes put for a node or overflow page hold it, or are its image where it does not fit; those of a node that fits page 1 begin with no header and a user version of 0 |
| TreeTransactions.Replay | squrust-core/src/storage/mod.rs:277-302 | a write transaction that is asked what the b-tree asks of its page store has, after every one of these calls, the free pages and the page count that the b-tree has there, and the bytes of each page put |
| TreeTransactions.ReadsAlike | squrust-core/src/storage/mod.rs:277-282 | at each of these points a page that the b-tree reads is what the transaction reads and parses there, pending pages and committed ones alike (nodes that fit) |
| TreeTransactions.EditTable | squrust-core/src/storage/mod.rs:158-334 | any run of insertions and deletions on a table, in one write transaction: with room for all of them the committed bytes hold the table the run means, with the pages of others as they were; a panic or an error leaves everything unchanged; an insertion that damages its leaf is committed like any other, and then all pages but that one hold the table meant |
| TreeTransactions.OtherTableKept | squrust-core/src/storage/mod.rs:304-334 | committing an edit of one table keeps every other table |
| TreeTransactions.UserVersionKept | squrust-core/src/btree/mod.rs:246-257 | committing an edit keeps the stored user version if and only if the b-tree did not write page 1, or the version was 0 (a node that fits page 1) |
| UserVersions.SetUserVersion | squrust-core/src/storage/mod.rs:203-218 | commits page 1 with four bytes changed, and nothing else |
| UserVersions.VersionKeepsTable | squrust-core/src/storage/mod.rs:203-218 | every table, the catalog on page 1 included, is as before |
| UserVersions.VersionLost | squrust-core/src/btree/mod.rs:246-257 | a run that loses it: a new database, user version 7, one record put into the catalog and committed: it reads 0 |
| TreeTransactions.CrashKeepsTable | squrust-core/src/wal/mod.rs:73-114 | every table that was committed is there after a crash the database survives |
| TreeTransactions.NewCatalog | squrust-core/src/storage/file.rs:53-65 | a new database holds an empty catalog on page 1 |
| TreeTransactions.CatalogCrash | squrust-core/src/wal/checkpoint.rs:33-59 | with a b-tree image of page 1 in the log, a crash in a checkpoint loses the database exactly after the first page write and before the header |
| TreeTransactions.InsertThenCrash | squrust-core/src/wal/checkpoint.rs:33-59 | a new database, one record inserted into the catalog in a write transaction, a crash after the first page write of the checkpoint: it does not open again, though the committed pages are all in the log |
| TreeSnapshots.ReaderSeesTree | squrust-core/src/storage/mod.rs:230-260 | however the database runs on, a reader decodes the pages of the tree committed when it began |
| StatementTransactions.AddTable | squrust-sql/src/schema/catalog.rs:175-197 | a new b-tree on a fresh page, and its record in the catalog under the key past the last one the catalog reports; both tables stand beside each other and no other page changes |
| StatementTransactions.CatalogMeaning | squrust-sql/src/schema/catalog.rs:185-194 | that record decodes to the word table, the name twice, the root page and the statement |
| StatementTransactions.CreateTable | squrust-sql/src/lib.rs:551-570 | CREATE TABLE commits the empty table and the catalog that names it, or neither; a short entry among short ones always is |
| StatementTransactions.RunTransaction | squrust-sql/src/lib.rs:460-494 | after any run of statements in one transaction the committed pages hold exactly the rows the run leaves, failed statements included, or nothing has changed; a statement that damaged a leaf is committed too |
| StatementTransactions.RunStatement | squrust-sql/src/lib.rs:525-549 | a statement in a transaction of its own is committed exactly if it succeeds; a failing one is undone as a whole, the rows it had stored before it failed included |
| StatementTransactions.CrashKeepsRows | squrust-core/src/wal/mod.rs:73-114 | rows that were committed are there after a crash the database survives |
| StatementTransactions.CreateFillCrash | squrust-sql/src/lib.rs:460-570 | a table created, filled by any run of statements in a second transaction, then a crash: once both commits went through, the table holds the rows of the run and the catalog still names it |
| Calendar.FromDayNext | squrust-sql/src/executor/datetime.rs:90-112 | day numbers are dates that follow each other as the Gregorian calendar says, without end in either direction |
| Calendar.FromDayOfDayNumber | squrust-sql/src/executor/datetime.rs:62-112 | the date of a date's day number is that date |
| Calendar.DayNumberOfFromDay | squrust-sql/src/executor/datetime.rs:62-112 | the day number of a day's date is that day |
| Calendar.Epochs | squrust-sql/src/executor/datetime.rs:18-24 | day 0 is 4714 BC November 24, the epoch 1970 January 1, and the last day 9999 December 31 |
| Calendar.FromDayValid | squrust-sql/src/executor/datetime.rs:90-112 | every day number is a valid date |
| DateTimes.DateTime.ComputeJd | squrust-sql/src/executor/datetime.rs:62-88 | the instant of a date and time; days past the end of a month count on into the next; years out of range and bare numbers are errors |
| DateTimes.DateTime.ComputeYmd | squrust-sql/src/executor/datetime.rs:90-112 | the civil date of every instant from 4714 BC to 9999, always a valid date |
| DateTimes.DateTime.ComputeHms | squrust-sql/src/executor/datetime.rs:114-126 | hour, minute and second of the instant, to the millisecond |
| DateTimes.DateTime.ThereAndBack | squrust-sql/src/executor/datetime.rs:62-131 | for 0 <= ijd < MAX_IJD, breaking an instant down and putting it together gives the same instant |
| DateTimes.JdDaysIs | squrust-sql/src/executor/datetime.rs:73-82 | the sums of compute_jd are the Julian day number plus 1524 |
| DateTimes.InstantRoundTrip | squrust-sql/src/executor/datetime.rs:62-126 | instants correspond one to one to a valid date and a millisecond of the day |
| DateTimes.YearsInRange | squrust-sql/src/executor/datetime.rs:23-24 | the instants below MAX_IJD are those up to the end of 9999-12-31, and their years are those compute_jd accepts |
| DateTimes.CivilFromSeconds | squrust-sql/src/executor/dml.rs:227-239 | for any number of seconds the era algorithm gives the date of that day and the time of day |
| DateTimes.SameDay | squrust-sql/src/executor/datetime.rs:20-24 | the two algorithms are given the same day for the same instant, so their dates agree |
| Evaluation.AmongMeaning | squrust-sql/src/executor/eval.rs:72-92 | IN is true exactly when some element is equal and each one before it evaluates without error to another value, false exactly when all do, an error exactly when one is met first |
| Evaluation.FindInList | squrust-sql/src/executor/eval.rs:72-92 | the loop finds an equal element just then, and evaluates nothing after it |
| EvalLaws.ComparisonMeaning | squrust-sql/src/executor/eval.rs:212-229 | each of the six comparisons of two expressions: NULL if a side is, an error for a NaN, and else whether the left side is less, greater or equal |
| EvalLaws.CompareMeaning | squrust-sql/src/types.rs:262-280 | less, greater and equal: numbers as numbers, texts and blobs by their first different byte, a proper prefix first, and otherwise numbers before text before blobs |
| EvalLaws.ConnectiveMeaning | squrust-sql/src/executor/eval.rs:198-211 | AND, OR and NOT on true, false and NULL |
| EvalLaws.TruthMeaning | squrust-sql/src/types.rs:73-83 | which values are true: not zero, text of a number that is not zero, blobs of any bytes, JSON; NULL is not, and not false either |
| EvalLaws.CaseMeaning | squrust-sql/src/executor/eval.rs:93-121 | CASE is the result of the first WHEN that matches, the error of the first that fails before it, or ELSE, or NULL |
| EvalLaws.BranchMeaning | squrust-sql/src/executor/eval.rs:101-117 | there is always just one place at which that search ends |
| EvalLaws.CaseFails | squrust-sql/src/executor/eval.rs:98-101 | an operand that fails is the error of the whole CASE |
| EvalLaws.ArithmeticMeaning | squrust-sql/src/executor/eval.rs:240-282 | sums, differences and products of what reads as numbers, an integer from two integers if it is whole |
| EvalLaws.ArithmeticFails | squrust-sql/src/executor/eval.rs:241-250 | arithmetic with NULL is NULL, and with what reads as no number an error |
| EvalLaws.DivisionMeaning | squrust-sql/src/executor/eval.rs:256-273 | NULL for a divisor of zero; quotient and remainder of integers, and of other numbers |
| EvalLaws.DivMeaning | squrust-sql/src/executor/eval.rs:260-270 | an integer quotient is cut off toward zero and the remainder has the sign of the dividend; where there is none it panics |
| EvalLaws.UnaryMeaning | squrust-sql/src/executor/eval.rs:23-49 | negation, wrapping at the least integer, and IS NULL |
| EvalLaws.ConcatMeaning | squrust-sql/src/executor/eval.rs:230-239 | concatenation in the order of the sides, NULL if one is |
| EvalLaws.SidesFail | squrust-sql/src/executor/eval.rs:44-48 | the error of an operator is that of its left side, then that of its right side |
| EvalLaws.LeafMeaning | squrust-sql/src/executor/eval.rs:10-22 | literals, columns, parameters and the rowid |
| EvalLaws.InListMeaning | squrust-sql/src/executor/eval.rs:63-81 | IN ends at the first element that equals the value or fails; NOT IN exchanges the answers, and NULL gives NULL |
| EvalLaws.FunctionMeaning | squrust-sql/src/executor/eval.rs:82-88 | a function gets the values of its arguments in their order, and fails with the first argument that fails |
| EvalLaws.CastMeaning | squrust-sql/src/executor/eval.rs:89-125 | CAST converts the value of its argument or fails with it; a subquery fails |
| Evaluation.EvalAllMeaning | squrust-sql/src/executor/projection.rs:39-51 | a list of expressions gives the values in its order, or the error of the first that fails |
| Optimizer.FoldMeaning | squrust-sql/src/planner/optimizer.rs:91-155 | a folded expression evaluates, on every row, parameters and arithmetic, to what the original would if NOT NULL were true; errors included |
| Optimizer.FoldPreserves | squrust-sql/src/planner/optimizer.rs:91-155 | without NOT over a literal NULL, folding preserves meaning |
| Optimizer.FoldNotExact | squrust-sql/src/planner/optimizer.rs:153-153 | folding a NOT is right exactly when its operand is not the literal NULL |
| Optimizer.FoldedFilterDiffers | squrust-sql/src/planner/optimizer.rs:153-153 | NOT NULL evaluates to NULL but folds to true |
| Optimizer.RepairedSame | squrust-sql/src/planner/optimizer.rs:91-155 | the replacement in FoldMeaning changes nothing exactly where there is no NOT NULL |
| Optimizer.FoldIdempotent | squrust-sql/src/planner/optimizer.rs:91-121 | folding twice folds no further |
| Optimizer.FoldComplete | squrust-sql/src/planner/optimizer.rs:91-155 | after folding no sum, difference or product of literal numbers is left, no negated literal number and no NOT of a literal |
| PlanLaws.FoldPlanMeaning | squrust-sql/src/planner/optimizer.rs:13-88 | a folded plan, every one, yields the rows and the error of the plan with NOT NULL replaced by true in all its expressions |
| PlanLaws.RepairedPlanSame | squrust-sql/src/planner/optimizer.rs:13-88 | that replacement changes nothing exactly where no expression of the plan has NOT over a literal NULL |
| PlanLaws.FoldPlanPreserves | squrust-sql/src/planner/optimizer.rs:13-88 | folding a plan keeps its rows, in order, and its errors (no NOT over a literal NULL) |
| PlanLaws.FoldPlanDiffers | squrust-sql/src/planner/optimizer.rs:13-88 | WHERE NOT NULL: no row before folding, one after |
| PlanLaws.FoldPlanComplete | squrust-sql/src/planner/optimizer.rs:13-88 | nor in any expression of a folded plan, set operations aside |
| Orders.ValueFlip | squrust-sql/src/types.rs:262-289 | swapping two values flips their order (no JSON, no NaN) |
| Orders.ValueTrans | squrust-sql/src/types.rs:262-289 | the order of values is transitive (no JSON, no NaN) |
| Orders.OrderKeyMeaning | squrust-sql/src/types.rs:283-310 | which of two values sorts first: NULL before everything, numbers before text before blobs, numbers as numbers, texts and blobs by bytes |
| Orders.BytesOrder | squrust-sql/src/types.rs:274-275 | bytes are ordered by the first that differs, a proper prefix first |
| Orders.ValuesMeaning | squrust-sql/src/executor/setop.rs:100-112 | rows are ordered by the first column in which they differ, a beginning before the whole |
| Executors.BuildMeaning | squrust-sql/src/executor/mod.rs:106-185 | an operator tree freshly built yields what its plan denotes |
| Executors.Next | squrust-sql/src/executor/mod.rs:35-47 | each call yields the next row of what is left, or its error, or nothing more; an operator that answered the end answers it again, for good |
| Executors.NextFilter | squrust-sql/src/executor/filter.rs:36-44 | rows for which the condition is true, in order |
| Executors.NextProject | squrust-sql/src/executor/projection.rs:39-51 | each row replaced by its select list |
| Executors.NextJoin | squrust-sql/src/executor/join.rs:55-113 | pairs in left-then-right order, a left row padded when it matched nothing and the join is outer |
| Executors.NextLimit | squrust-sql/src/executor/limit.rs:39-58 | skips the offset, yields up to the limit, pulls nothing beyond it, not even an error |
| Executors.NextDistinct | squrust-sql/src/executor/distinct.rs:34-45 | rows not seen before |
| Executors.NextSort | squrust-sql/src/executor/sort.rs:34-75 | the whole input sorted at the first call |
| Executors.NextSetOp | squrust-sql/src/executor/setop.rs:45-84 | both inputs combined at the first call |
| Executors.Dedup | squrust-sql/src/executor/setop.rs:88-98 | the first occurrence of each distinct row |
| Executors.CollectAll | squrust-sql/src/executor/mod.rs:40-46 | all rows in order, or the error that ends them |
| Executors.RunPlan | squrust-sql/src/executor/mod.rs:106-185 | running a plan gives exactly the rows it denotes, or the error that stops it |
| PlanLaws.LeftRowExact | squrust-sql/src/executor/join.rs:87-110 | a left row joins exactly the right rows that satisfy the condition; the padded row is added exactly when there are none |
| PlanMeanings.HoldsMeaning | squrust-sql/src/executor/filter.rs:36-44 | a condition holds where its value is true: not NULL, and not false |
| PlanMeanings.FilterMeaning | squrust-sql/src/executor/filter.rs:36-44 | a filter picks, in order, exactly the rows on which its condition is true, up to the first on which it fails |
| PlanMeanings.ProjectMeaning | squrust-sql/src/executor/projection.rs:39-51 | column c of each row is the value of the c-th expression on the row it comes from |
| PlanMeanings.CombinedMeaning | squrust-sql/src/executor/join.rs:91-99 | the columns of a joined row are those of the left row, then those of the right |
| PlanMeanings.PaddedMeaning | squrust-sql/src/executor/join.rs:107-109 | those of a padded row are the left row's, then NULLs, as many as the right side has columns |
| PlanMeanings.MatchesMeaning | squrust-sql/src/executor/join.rs:87-103 | a left row joins, in the order of the right side, exactly the rows with which the condition is true, up to the first pair on which it fails |
| PlanMeanings.LimitMeaning | squrust-sql/src/executor/limit.rs:39-58 | LIMIT and OFFSET by places, and when the input's error is met |
| PlanMeanings.UnionAllMeaning | squrust-sql/src/executor/setop.rs:45-84 | UNION ALL is the rows of the left side, then those of the right; the left side's error comes first |
| PlanMeanings.RowsEqMeaning | squrust-sql/src/executor/distinct.rs:49-56 | rows are duplicates if in every column both are NULL, or neither is and they are equal |
| PlanMeanings.DistinctMeaning | squrust-sql/src/executor/distinct.rs:34-46 | DISTINCT keeps, in order, exactly the rows that equal no row kept before |
| PlanMeanings.DistinctFirst | squrust-sql/src/executor/setop.rs:88-98 | each row kept is the first of all rows equal to it |
| PlanMeanings.SetFirst | squrust-sql/src/executor/setop.rs:45-71 | the rows of INTERSECT and EXCEPT are rows of the left side, those of UNION of the left followed by the right, each the first of those equal to it |
| PlanLaws.DistinctApart | squrust-sql/src/executor/distinct.rs:34-56 | no kept row equals an earlier one |
| PlanLaws.DistinctCovers | squrust-sql/src/executor/distinct.rs:34-56 | every row equals a kept one |
| PlanLaws.RowsEqOrder | squrust-sql/src/executor/distinct.rs:49-56 | rows equal for DISTINCT are those the sort order calls equal (no JSON, no NaN) |
| PlanLaws.SetMeaning | squrust-sql/src/executor/setop.rs:45-112 | UNION, INTERSECT and EXCEPT give strictly ascending rows: those of either side, of both, of the left only |
| PlanLaws.OrderByMeaning | squrust-sql/src/executor/sort.rs:40-62 | the rows come in the order of the first keys that differ, the lesser first if the key is ascending and last if it is descending, rows with equal keys in input order; no other list has that property |
| PlanLaws.SortedQuery | squrust-sql/src/executor/sort.rs:34-62 | what an ORDER BY in a plan yields: its input's rows so ordered by the values of the key expressions on them, each in the direction written beside it, or the error |
| Sorting.StableUnique | squrust-sql/src/executor/sort.rs:51-60 | there is only one stably sorted version of a list, so the algorithm does not matter |
| Patterns.LikeExact | squrust-sql/src/executor/eval.rs:600-612 | matching of lower-cased texts accepts exactly those that split into one piece per pattern item |
| Evaluation.LikeMeaning | squrust-sql/src/executor/eval.rs:50-63 | an expression with LIKE, in any plan, is NULL if either side is, and else tells whether the lower-cased text splits so |
| Patterns.GlobExact | squrust-sql/src/executor/builtins.rs:61-80 | GLOB too, with classes; a pattern with an unclosed class accepts nothing |
| Patterns.ClassMatch | squrust-sql/src/executor/builtins.rs:85-113 | scanning a class tells whether the character is in it and where the pattern goes on, within the pattern |
| Records.HeaderLenLeast | squrust-sql/src/row.rs:37-44 | the header-length iteration ends at the least length that counts itself |
| Records.EncodeRow | squrust-sql/src/row.rs:27-54 | header length, serial types, bodies |
| RecordLaws.RecordNumbers | squrust-sql/src/row.rs:27-54 | a record is its header length, one serial type for each value up to that length, and one body for each, in the order of the values; each type and body stand for the value as it is stored |
| RecordLaws.EncodedStands | squrust-sql/src/row.rs:81-135 | the table of serial types: 0 for NULL, 8 and 9 for 0 and 1, 1 to 6 for two's complement of 1, 2, 3, 4, 6 and 8 bytes, 7 for a real, 2n+12 and 2n+13 for n bytes of blob and text |
| RecordLaws.Narrowest | squrust-sql/src/row.rs:106-135 | an integer takes as few bytes as can hold it |
| RecordLaws.StoredMeaning | squrust-sql/src/row.rs:81-104 | booleans are stored as 0 and 1, JSON as its text, the rest as it is |
| Records.IntBack | squrust-sql/src/row.rs:106-135 | an integer reads back from the bytes of its width, sign and all |
| Records.ReadIntBytes | squrust-sql/src/row.rs:171-178 | sign-extending big-endian accumulation, never past 64 bits |
| Records.ValueBack | squrust-sql/src/row.rs:81-169 | every value decodes to itself, booleans to 0 or 1 and JSON to its text, whatever follows |
| RecordLaws.DecodedStands | squrust-sql/src/row.rs:137-182 | what is decoded stands for its value by the same table; it fails exactly for the reserved types, for missing bytes and for text that is not UTF-8 |
| Records.DecodeRowBytes | squrust-sql/src/row.rs:57-77 | reads the header, then one value per serial type; short or reserved input is an error |
| Records.RecordRoundTrip | squrust-sql/src/row.rs:27-77 | decoding an encoded row of any width gives its values |
| Dml.PutKeeps | squrust-sql/src/executor/dml.rs:189-219 | storing values that clash with no other row keeps the table consistent |
| Dml.ReplaceExact | squrust-sql/src/executor/dml.rs:68-79 | OR REPLACE keeps the table consistent exactly when no row clashes but the one removed and the one replaced (no JSON) |
| Dml.ReplaceBreaks | squrust-sql/src/executor/dml.rs:71-73 | a table and a row for which it does not |
| Dml.NextRowidExact | squrust-sql/src/executor/dml.rs:52-55 | the rowid picked for a new row is unused unless the tree reported no last key though row 1 exists, or the keys ran out |
| TableRows.Table.PutRow | squrust-sql/src/row.rs:27-54 | a row is encoded and put into the tree, right exactly when the leaf of its rowid has room; the tree then holds the records of the rows, this one included; without room it fails, or is answered as done over a damaged leaf, by the sizes |
| TableRows.Table.DropRow | squrust-sql/src/executor/dml.rs:164-174 | takes the row of a rowid out of the tree and tells whether it was there |
| TableRows.Table.LastKey | squrust-core/src/btree/mod.rs:88-96 | the largest rowid, or none, as the rightmost leaf of the tree has it |
| TableRows.Table.FindClash | squrust-sql/src/executor/dml.rs:189-219 | reading the tree with a cursor, the first row in key order that clashes and the first column in which it does, or none exactly when no row does |
| TableRows.Table.InsertRow | squrust-sql/src/executor/dml.rs:34-104 | one row is checked and stored under its rowid, or rows and tree are as before and the failure names the first check that fails; OR REPLACE removes the first clashing row and the one under the rowid; a row without room either fails last, or is answered as stored over a damaged leaf |
| TableRows.Table.UpdateRow | squrust-sql/src/executor/dml.rs:113-158 | right exactly when no constraint fails and the tree has room, else the failure names the first that does; without room it fails last, or is answered as done over a damaged leaf; a changed key never overwrites another row |
| DmlRuns.ScanMatching | squrust-sql/src/executor/dml.rs:261-286 | the matching rows in key order as a cursor finds them, the alias column showing the rowid |
| DmlLaws.MeetsMeaning | squrust-sql/src/executor/dml.rs:277-283 | UPDATE and DELETE touch the rows on which their condition is true: not NULL, and not false |
| DmlLaws.ShownMeaning | squrust-sql/src/executor/dml.rs:272-276 | that condition sees the rowid in the alias column, and the stored values in the others |
| DmlLaws.KeptMeaning | squrust-sql/src/executor/dml.rs:250-257 | a table holds NULL in the alias column, 0 and 1 for booleans, the text of JSON, and the other values as given |
| DmlLaws.RowidMeaning | squrust-sql/src/executor/dml.rs:51-56 | the rowid of a new row is the one given, or 1, or one more than the last key |
| DmlLaws.RowidNumber | squrust-sql/src/types.rs:96-104 | the integer that stands for a value given as rowid |
| DmlLaws.ClashMeaning | squrust-sql/src/executor/dml.rs:189-219 | rows clash if they hold equal values, not NULL, in a unique column other than the alias |
| DmlRuns.AssignRow | squrust-sql/src/executor/dml.rs:113-124 | each assignment leads from a row to one in which its column holds the coerced value of its expression on the row before, and nothing else changes; the rowid is the number last given to the alias column, or the old one; the error is that of the first assignment that fails |
| DmlRuns.Insert | squrust-sql/src/executor/dml.rs:21-105 | evaluates the expressions of each row over the defaults, coerces them, and stores the row under its own rowid or the one past the last key the tree reports, up to the first that is refused, and why, or that was laid over others |
| DmlRuns.FillRow | squrust-sql/src/executor/dml.rs:34-49 | a filled row holds in each target column the coerced value of the last expression given for it and in every other its default; the error of a row is that of its first expression that fails |
| DmlRuns.PlacedOverwrites | squrust-sql/src/executor/dml.rs:51-104 | a placed row overwrites another exactly when there is no alias column and the tree reported no last key though row 1 exists, or the keys ran out |
| DmlRuns.InsertKeeps | squrust-sql/src/executor/dml.rs:21-105 | in a table from which nothing was deleted, or with an alias column, INSERT overwrites no row as long as the keys do not run out |
| DmlRuns.Update | squrust-sql/src/executor/dml.rs:107-162 | each matching row, one after another, is stored with the values its assignments lead to, under the rowid they give, and leaves its old key; all other rows are as they were; up to the first that is refused, and why, or that was laid over others |
| DmlRuns.Delete | squrust-sql/src/executor/dml.rs:164-174 | deletes exactly the matching rows and counts them; a failing condition leaves all rows |
| DmlRuns.Run | squrust-sql/src/executor/dml.rs:21-174 | over any run of plain INSERT, UPDATE and DELETE each statement does what it answers, failures included; no two rows ever agree on a unique column, no NOT NULL column holds NULL, and the b-tree holds exactly the records of the rows; a row that finds no room ends the run, in a failure, or as done with one damaged page |
| RowLoss.RowLost | squrust-sql/src/executor/dml.rs:51-104 | a run that loses a row: six rows are inserted into a table of one plain column, the last rows deleted, one more inserted; it gets rowid 1 and overwrites the first |

## Left out

- LeafPages.WriteNode: after a panic of an insertion the page store is in no stated state; the source unwinds and drops the transaction.
- TableRuns.Run: ends at the insertion that damages a leaf, as `DmlRuns.Run` does; what further operations make of a damaged page, whose keys may be out of order, is not stated, nor what is left of the page store when reading back a damaged root fails, which the source reports and a caller might still commit.
- Error paths of the b-tree for damaged files: the operations are stated for page stores that hold a b-tree; what parsing does with arbitrary bytes is in `PageFormat.ParsePage`.
- Header fields other than magic, page size, page count and user version are written and read and mean nothing else. `PRAGMA user_version` truncates its argument to 32 bits before `UserVersions.SetUserVersion`.
- File and operating-system calls: the database file is a list of pages, the log file a list of bytes that only grows by appends and is cut at a length; I/O errors, and an append that fails without a crash, are not modelled.
- Interleavings inside one operation: operations are atomic, as their locks make them; a second writer blocking on the gate is the precondition that the gate is free.
- Torn bytes inside a log append: any prefix of the bytes is covered; a checksum that accepts damaged bytes is not excluded.
- Storage.OpenDatabase: requires files the engine itself left behind, of whole pages; a log written by something else may name pages past its page count, and a file shorter than a page fails to be read.
- TreeTransactions.EditTable: the tree works on the pages it read first and its calls are then made on the transaction in their order; reads in between are not repeated (`TreeTransactions.ReadsAlike` shows they give the same). After a damaged leaf it commits at once.
- Databases.Database.CrashWhileFolding: a database that a crash left without a header stays lost; repairing the file by other means is not modelled.
- WriteTransactions.WriteTx.Commit: requires an unfinished transaction; the source would let a finished one commit again without the gate.
- Integer overflow follows release builds: negating the least integer and the rowid after the largest wrap around; division overflow is the error `Panic`.
- Executors: operators are values passed from call to call, since their source form is an object behind a trait; updating in place is not captured. What an operator does when called again after an error is not stated.
- Executors.NextSort: sorting is the stable insertion sort `Sorting.Sort`; `Sorting.StableUnique` shows any stable sort gives the same list for plain keys, and for JSON or NaN keys the source's sort has no defined result.
- Aggregates, subqueries, SQL parsing, name resolution, schema changes other than CREATE TABLE and the in-memory catalog: they rest on external syntax trees or floating-point sums.
- Plans.Plan: a scan is given by its rows; padding records written before ADD COLUMN and showing the rowid in its alias column happen before them (the scan of the tree itself is `Cursors.TableScan`).
- Scalar functions, CAST, number formatting, `printf`, string parsing of dates and the date modifiers: parameters or left out, being library behaviour with little structure.
- Evaluation.LikeMeaning: how a text is put in lower case is the parameter `lower` of `Values.Lib`.
- DmlRuns.Insert: is for plain INSERT; OR REPLACE, which may break UNIQUE, is stated for one row (`TableRows.Table.InsertRow`). The defaults of a row, `CURRENT_TIMESTAMP` among them, are given with it.
- TableRows.Table.PutRow: text that is not UTF-8 and lengths past 64 bits, which the source's types exclude, are refused like a row that panics. What the pages hold after a failure of the tree is not stated.
- TableRows.Table: rows written before ADD COLUMN are shorter than the columns; the tables here are of full width. The table's pages are the page store of `Overflow.PageSink`; `StatementTx` is what commits such a store's changes.
- DmlRuns.Update: after a failing row the rows updated before it stay updated, as in the source, which leaves it to the transaction to undo them (`StatementTransactions.RunStatement`).
- StatementTransactions.RunTransaction: is for statements on one table; a statement whose tree fails ends it in a rollback. `StatementTransactions.CreateTable` does not check whether the name is taken, which is done in memory.
- Reading a page number that was never written: it reads as zeros where the file has grown past it and is out of range elsewhere; b-trees read no such page.
- The C, async, pool, sync, wasm and command-line crates, and the serde and macro support: wrappers.
