# SteleDB: a verified model

SteleDB is a small single-threaded relational engine: SQL-like statements over tables whose rows
live in slotted pages, with a B+ tree on disk that maps each primary key to the slot of its row.
This project models its core in Dafny and proves what the layers promise, for all inputs and over
all runs.

| files | what they model |
|---|---|
| `BTreeSpec`, `BTreeShape`, `BTreeRows`, `BTreeOrder`, `BTreeLookup`, `BTreeInsert`, `BTreeNavigable`, `BTreeRuns`, `BTreeRefinement`, `BTreeLostKeys` | the B+ tree as a value: its operations, its shape, the row of leaves, key order, the weaker order that lookup needs, lookups, whole runs |
| `BTreeNode`, `BTreeStored`, `BTreeInference`, `BTree`, `BTreeChain` | the tree as the program keeps it: nodes with fixed arrays in a store of node files, root and next id as fields, recovery of both |
| `RowCodec`, `Heap`, `TableView`, `TableIndex`, `TableAgreement`, `Space`, `Counting` | rows as bytes, slotted pages, the rows of a table, the agreement of pages and index, the number of pages |
| `Predicates`, `Queries`, `QueryMeaning`, `Removal`, `MemoryLayer`, `TableRuns`, `KeyRuns`, `TableLostKeys` | insertion, selection and removal on a table, by index and by scan, and what they mean in terms of column names and tests; whole runs of a table, and which rows they refuse as duplicates |
| `Tokenizer`, `Tokens`, `Lexicon`, `InsertStatement`, `Schema`, `InsertFaults`, `MetadataFile`, `StatementText` | statements: text, tokens and the lexical rules letter by letter, INSERT and CREATE with their faults, and the table's metadata file |

The imperative parts of the program are classes and methods here (`BTreeNode.NodeBuffer`,
`BTreeStore.BTree`, `Heap.PageBuffer`, `MemoryLayer.StoredTable`, `Schema.Table`, and the methods of
the tokenizer and the parsers), each proved equal to a function, about which the theorems are.
The disk is a map from node id to node and from page number to page.

## Two readings of the code

Two places of the code do not do what the rest of it needs.  They are parameters (`Reading`) of
the model: `AsWritten` follows the code, `Intended` what it was evidently meant to be.  Every theorem
says for which reading it holds.

1. `split_child` stores the new separator (src/b_tree.cpp:261 and 271) before it shifts the
   separators that follow (274-277).  Unless the last child is split, the separator that bounded the
   child is overwritten and the new one duplicated.  Proved of both readings, so of the code as
   written: node shapes, node ids, the leaf chain, conservation of entries, height, recovery.
   With the separator stored after the shift, the tree refines a finite map over every run of fresh
   insertions and of removals (`BTreeRefinement.IntendedRefinesMap`).  As written:
   - a fresh insertion into a tree in key order keeps that order **if and only if** every split on its
     way is of a last child (`BTreeRuns.InsertInOrder`, and over runs `BTreeRefinement.RunInOrder`);
   - lookup needs less than key order (`BTreeNavigable.Navigable`).  From any tree that has this, a fresh
     insertion binds its key and disturbs no other lookup **if and only if** nothing is stored in the part
     that becomes unreachable, and then the tree has it again (`BTreeRuns.InsertLookup`); so over whole
     runs from the empty tree lookups agree with the finite map throughout **if and only if** no
     insertion loses anything (`BTreeRefinement.RunAgrees`);
   - runs whose inserted keys ascend, with removals in between, lose nothing
     (`BTreeRefinement.AscendingRefinesMap`);
   - 385 insertions of different keys, with any values, lose one of them (`BTreeLostKeys.LosingRunLoses`),
     and made on a table with an integer key they leave a row that its key does not find, so that a
     second row with the same key is accepted (`TableLostKeys.DuplicateAccepted`).
2. `pk_equality_fast_path` compares the position of a predicate in its variant type with the number
   of a column type (src/memory_layer.cpp:25); the two orders differ (inc/predicate.hpp:82,
   inc/data_type.hpp:18-24).  As written, the indexed path is entered exactly for an equality on a
   string key, and a truth-value predicate on a table with an integer key, or a double predicate on
   one with a truth-value key, throws (`Predicates.AsWrittenEntry`, `Queries.SelectThrows`, and for a
   table of two columns `Queries.FlagThrows`).

Where the documentation and the code disagree, the model follows the code: pages are 4096 bytes
with 4064 for slots (README.md of the program says 8KB), and the type word of a string column is
`STRING` (documented as `VARCHAR_16`).

## What holds over whole runs

- **The tree.**  `BTreeRuns.Sound` holds in every state and under both readings: all leaves at one depth,
  every id below the next id on exactly one node, every inner node but the root with 127 to 255 keys, the links of the
  leaves running through all of them from node 0 to the end.  From it follow recovery of root and next
  id without the metadata file, the height bound, and that no write leaves a node's arrays.
- **The table.**  `MemoryLayer.StoredTable.Agreed` holds of a new table: every live row is in the index
  under its key, on a table with an integer key the index has no other key, and the index is in the
  order that the reading of the split keeps.  It takes page numbers of 32 bits.  Removal and selection keep
  it, under both readings of the split.  Insertion keeps it with the separator stored after the shift;
  as written it keeps it if the index's own insertion loses nothing, and with an integer key only then:
  otherwise some live row is no longer found (`TableAgreement.PlacedAgree`).
  As long as the key of every live row leads to it, a selection or removal by index gives exactly the
  result of the full scan; with the entry test as written that holds in every state, because only string
  keys take the indexed path and it never finds them.
- **Runs of a table with an integer key**, with page numbers of 32 bits.  With the separator stored after
  the shift, after every run of insertions and removals the table holds exactly the rows of the finite map that
  the same operations make (`TableRuns.IntendedImplements`).  Under either reading pages and index agree
  throughout a run if and only if no insertion of the run loses anything (`TableRuns.RunAgrees`), and
  as long as they agree the rows are those of the map (`TableRuns.RunImplements`); as written that is so
  for every run whose inserted keys ascend as words of 64 bits (`TableRuns.AscendingImplements`).  A scan finds
  each matching row of the map once (`TableRuns.ScanOfMap`).
- **Duplicates.**  Over every run from a new table, with any type of key, a row is refused as a duplicate
  if and only if an earlier row was stored, live or not, whose key collides with its own: the same
  integer or truth value, or a string of the same hash.  This holds with the separator stored after the shift, as
  written as long as no insertion loses anything, and for removals that leave the index alone: all of a table with a
  string key, and as written all of a table with a truth-value key (`KeyRuns.DuplicateExactly`).  So strings
  of different hashes are all accepted, and the key of a removed row is never free again.  On a table with an
  integer key it is free again: a row is refused if and only if a live row has its key.
- **Queries.**  One line for each live row whose value in the last column of the name asked about passes the
  predicate's test, in page and slot order, with the row's values in the last columns of the names selected; a
  removal frees exactly those slots, and without a predicate all of them (`QueryMeaning`).
- **Space.**  Under both readings, and whatever the index loses, the number of pages is the least that the
  largest number of rows so far needs.
- **Statements.**  The tokenizer is exact, the nine signs and the two of two characters cut a text without any
  spaces, each word is read as what its letters spell in capitals or small ones, and every refusal of a token, of an
  INSERT or of a CREATE has its exact cause (`Lexicon`, `InsertFaults`).  The text of a CREATE or INSERT statement is parsed into
  the table or the row it describes, whatever the order of columns; and every row that an accepted
  INSERT text without NULs gives can be stored.

## Model

| member | source | states |
|---|---|---|
| BTreeSpec.InsertIndex | src/b_tree.cpp:289-294 | a key goes after every smaller or equal key: the keys before the position end with one not above it, those after it are greater |
| BTreeSpec.AddSeparatorElement | src/b_tree.cpp:261-277 | which separator stands where after a split, under both readings: as written the old one is lost and the new one stands twice |
| BTreeSpec.HalvesShape | src/b_tree.cpp:253-272 | both halves of a full node are well-shaped and hold 127 keys, the right half of a leaf 128 |
| BTreeSpec.MakeRoomShape | src/b_tree.cpp:302-312 | after the pre-emptive split the node is well-shaped and the child entered has room |
| BTreeShape.InsertNonFullShape | src/b_tree.cpp:286-314 | insertion keeps all leaves at one depth and every node within its bounds of keys |
| BTreeShape.RemoveBelowShape | src/b_tree.cpp:316-337 | removal keeps the shape, and the number of keys of every inner node |
| BTreeShape.SplitAtIds | src/b_tree.cpp:245-284 | a split adds exactly one node id, the one allocated |
| BTreeShape.InsertNonFullIds | src/b_tree.cpp:286-314 | an insertion adds exactly the ids allocated, each on one node, as a multiset equation |
| BTreeShape.InsertNonFullLeaves | src/b_tree.cpp:286-314 | the row of leaves changes in one place only: one leaf gives way to itself grown or to its two halves |
| BTreeShape.RemoveBelowLeaves | src/b_tree.cpp:316-337 | removal changes one leaf of the row and no other |
| BTreeRows.RegrownLinked | src/b_tree.cpp:253-259 | the leaf links still run through the whole row after an insertion, with or without a split |
| BTreeRows.SplitAtEntries | src/b_tree.cpp:245-284 | a split at any level moves no entry: the left-to-right entries are the same, under both readings |
| BTreeRows.InsertNonFullEntries | src/b_tree.cpp:286-314 | an insertion adds exactly one entry to the left-to-right entries, under both readings |
| BTreeRows.RemoveBelowEntries | src/b_tree.cpp:316-337 | a removal takes out exactly the entry that lookup finds, or changes nothing when lookup finds none |
| BTreeRows.InsertNonFullDue | src/b_tree.cpp:253-272 | credit of 127 insertions per leaf: a split is paid for by the insertions before it |
| BTreeRows.RootLeafCount | src/b_tree.cpp:132-148 | a tree with h >= 1 inner levels has at least 2 * 128^(h-1) leaves |
| BTreeOrder.SearchSound | src/b_tree.cpp:150-166 | what lookup returns is an entry of the tree, whether or not the keys are in order |
| BTreeOrder.SearchComplete | src/b_tree.cpp:150-166 | in an ordered tree lookup finds every entry |
| BTreeOrder.HalvesOrdered | src/b_tree.cpp:253-272 | the halves of an ordered node are ordered on either side of the separator |
| BTreeOrder.HalvesSearch | src/b_tree.cpp:253-272 | lookup in a full node is lookup in the half that the separator sends the key to |
| BTreeLookup.LeafInsertFind | src/b_tree.cpp:288-299 | after an insertion into a leaf the key is found with its value and every other lookup is as before |
| BTreeLookup.LeafRemoveFind | src/b_tree.cpp:318-332 | after a removal from a leaf the key is gone and every other lookup is as before |
| BTreeLookup.AddSeparatorAscending | src/b_tree.cpp:261-277 | the separators stay ascending if and only if the order is the intended one or the last child is split |
| BTreeLookup.SplitAtOrdered | src/b_tree.cpp:245-284 | a split keeps the tree ordered if and only if the order is the intended one or the last child is split |
| BTreeLookup.SplitAtSearch | src/b_tree.cpp:245-284 | a split changes exactly the lookups between the new separator and the one overwritten, and those find nothing |
| BTreeInsert.InsertNonFullOrdered | src/b_tree.cpp:286-314 | from a tree in key order, insertion of a fresh key keeps the keys ordered if and only if the order of storing and shifting is the intended one or every split on the way is of a last child |
| BTreeNavigable.OrderedNavigable | src/b_tree.cpp:82-88 | a tree in key order has the weaker order that lookup needs |
| BTreeNavigable.NavigableFinds | src/b_tree.cpp:150-166 | with that order lookup finds every entry, although separators may repeat or lie beyond their node's bound |
| BTreeNavigable.NavigableSplit | src/b_tree.cpp:245-284 | as written, a split keeps that order if the child is the last one, or an inner node whose right half stores nothing |
| BTreeNavigable.RoomyInsert | src/b_tree.cpp:286-314 | as written, an insertion below a separator that loses nothing keeps the later middle key of that child from passing the separator |
| BTreeNavigable.NavigableInsert | src/b_tree.cpp:286-314 | as written, an insertion of an absent key that loses nothing keeps that order |
| BTreeNavigable.NavigableMisses | src/b_tree.cpp:286-314 | as written, any other insertion stores an entry, an old one or the new one, that lookup then does not find: it is returned |
| BTreeNavigable.NavigableRemove | src/b_tree.cpp:316-337 | removal keeps that order |
| BTreeNavigable.RemoveBelowFinds | src/b_tree.cpp:316-337 | with that order, removal unbinds its key and leaves every other lookup alone |
| BTreeRuns.InsertSound | src/b_tree.cpp:132-148 | insertion keeps shape, ids, occupancy and leaf chain, under both readings |
| BTreeRuns.RemoveSound | src/b_tree.cpp:177-179 | removal keeps shape, ids, occupancy and leaf chain |
| BTreeRuns.InsertInOrder | src/b_tree.cpp:132-148 | from a tree in key order, inserting a fresh key keeps it so if and only if the order of storing and shifting is the intended one or only last children are split |
| BTreeRuns.InsertLookup | src/b_tree.cpp:132-166 | from a tree in key order (intended) or in the order that lookup needs (as written): a fresh insertion adds one binding to the lookups and changes no other if and only if the reading is the intended one or nothing is lost, and then that order is kept |
| BTreeRuns.RemoveFinds | src/b_tree.cpp:150-179 | from such a tree, removal unbinds its key, changes no other lookup and keeps that order |
| BTreeRefinement.RunAgrees | src/b_tree.cpp:132-179 | from such a tree, a run of fresh insertions and of removals answers every lookup as the finite map throughout if and only if the reading is the intended one or none of its insertions loses anything |
| BTreeRefinement.RunRefines | src/b_tree.cpp:132-179 | every run of fresh insertions and of removals that loses nothing ends with the lookups of the finite map |
| BTreeRefinement.IntendedRefinesMap | src/b_tree.cpp:132-179 | with the separator stored after the shift the tree refines a finite map over every run of fresh insertions and of removals from the empty tree |
| BTreeRefinement.RunInOrder | src/b_tree.cpp:245-314 | from a tree in key order, the keys stay in order throughout a run of fresh insertions and of removals if and only if the reading is the intended one or each insertion splits last children only |
| BTreeRefinement.AscendingRefinesMap | src/b_tree.cpp:132-179 | as written, every run whose insertions exceed all keys inserted before refines the map, removals interleaved freely |
| BTreeRefinement.HeightBound | src/b_tree.cpp:132-148 | h >= 1 inner levels take at least 254 * 128^(h-1) insertions, whatever was removed |
| BTreeLostKeys.LosingRunLoses | src/b_tree.cpp:245-284 | as written, 385 insertions of different keys, with any values, after which one of them is not found |
| BTreeNode.NodeBuffer.InternalChildIndex | src/b_tree.cpp:82-88 | the loop finds the only child whose bounds hold the key |
| BTreeNode.NodeBuffer.FindKey | src/b_tree.cpp:155-161 | the loop finds the first key not below the one sought |
| BTreeNode.NodeBuffer.InsertEntry | src/b_tree.cpp:289-297 | the shift inserts key and child at the proper place in both arrays, and leaves slot 255 alone |
| BTreeNode.NodeBuffer.RemoveEntry | src/b_tree.cpp:324-328 | the shift takes out one key and its value and leaves slot 255 alone |
| BTreeNode.NodeBuffer.MoveUpperHalf | src/b_tree.cpp:253-272 | the copies put the upper half on the new node, with count, link and separator |
| BTreeNode.NodeBuffer.AddChild | src/b_tree.cpp:261-279 | separator and child are stored within the arrays, in either order of storing and shifting |
| BTreeStore.BTree.constructor | src/b_tree.cpp:98-130 | opening by metadata, by inference or afresh gives the tree that the files hold |
| BTreeStore.BTree.AllocateNodeId | src/b_tree.cpp:239-243 | the id given is the next one, no node file has it, and the metadata file follows |
| BTreeStore.BTree.Find | src/b_tree.cpp:150-166 | the descent through the files terminates and returns the specification's lookup |
| BTreeStore.BTree.Contains | src/b_tree.cpp:168-175 | true exactly if lookup finds the key |
| BTreeStore.BTree.SplitChild | src/b_tree.cpp:245-284 | the three nodes written represent the split tree; of the files there were only the parent's and the child's change, and one is added |
| BTreeStore.BTree.InsertNonFull | src/b_tree.cpp:286-314 | the files written represent the tree after insertion, and no file outside the subtree changes |
| BTreeStore.BTree.Insert | src/b_tree.cpp:132-148 | the files, root id and next id represent the specification's insertion |
| BTreeStore.BTree.Remove | src/b_tree.cpp:177-179 | the files represent the specification's removal, and the result says whether lookup found the key |
| BTreeStore.RepresentsExact | src/b_tree.cpp:98-130 | from the files alone, inference recovers the root id and the next id |
| BTreeInference.InferRootNodeId | src/b_tree.cpp:8-57 | the result is the least id that no node refers to, in whatever order the files are listed |
| BTreeInference.InferNextNodeId | src/b_tree.cpp:59-78 | one more than the greatest id, or 1 |
| BTreeInference.RootUnreferenced | src/b_tree.cpp:29-56 | the root is the only node that is neither a child nor the target of a leaf link |
| BTreeChain.ChainIsLeafOrder | src/b_tree.cpp:90-96 | following slot 255 from node 0 visits every leaf once, from left to right, and ends at 0 |
| BTreeChain.EntriesAscending | src/b_tree.cpp:286-300 | in an ordered tree the keys along the chain are strictly ascending |
| RowCodec.WordRoundTrip | inc/data_type.hpp:85-97 | a machine word is read back from its bytes |
| RowCodec.EncodedBytes | inc/data_type.hpp:73-103 | byte by byte what is stored: words of 4 and 8 bytes, lowest byte first, one byte for a truth value, 16 for a string, filled up with NULs |
| RowCodec.RowSizeIs | inc/table.hpp:24-29 | the size of a row is the sum of 4, 16, 8 or 1 bytes for its columns |
| RowCodec.ValueRoundTrip | src/memory_layer.cpp:226-252 | a value survives storage if and only if it is not a string with a NUL in it |
| RowCodec.RowRoundTrip | src/memory_layer.cpp:98-102 | a row of the schema's types is read back as it was stored |
| RowCodec.ColumnOfRow | src/memory_layer.cpp:193-197 | reading one column at the sum of the sizes before it is taking that column of the whole row |
| RowCodec.WriteToBytes | inc/data_type.hpp:73-103 | exactly the bytes of the value are stored, nothing beside them; refused if and only if the string is too long |
| RowCodec.WriteRow | src/memory_layer.cpp:98-102 | the bytes of the row are stored in one stretch; refused if and only if some string is too long |
| Heap.SlotsMost | src/memory_layer.cpp:91 | the slots of a page are as many as fit into its 4064 bytes, and no more than the bitmap has bits |
| Heap.SlotsDisjoint | src/memory_layer.cpp:91-98 | all slots lie within the 4064 bytes and no two overlap |
| Heap.FilledRows | src/memory_layer.cpp:95-104 | a row stored in a slot is read back there, and every other slot reads as before |
| Heap.FullPage | src/memory_layer.cpp:89-94 | the bitmap's count reaches the number of slots exactly when all slots are taken |
| Heap.PageBuffer.Entries | src/memory_layer.cpp:90 | the count of the bitmap |
| TableView.InTableRows | src/memory_layer.cpp:305-309 | the scan visits a row exactly if it stands in a live slot |
| TableView.TableRowsInOrder | src/memory_layer.cpp:305-308 | the scan is in page and slot order and visits no slot twice |
| TableView.OnlyMatch | src/memory_layer.cpp:305-328 | if one live row matches, the scan finds that row and no other |
| TableView.SweptTableRows | src/memory_layer.cpp:452-488 | removal partitions the rows: those that do not match stay, in place, in order, with their values |
| TableView.SweptFindsNothing | src/memory_layer.cpp:452-488 | after a removal the same predicate matches nothing |
| TableIndex.PackRoundTrip | src/memory_layer.cpp:9-17 | a locator survives packing if and only if page and slot number have 32 bits; the page is in the upper half |
| TableIndex.KeyInjective | src/memory_layer.cpp:114-121 | different integers, and different truth values, have different keys: an integer its 64 bits in two's complement, a truth value 0 or 1 |
| TableIndex.KeysUnique | src/memory_layer.cpp:124-126 | two live rows never share a key |
| TableIndex.FilledStores | src/memory_layer.cpp:95-104 | storing a row makes exactly one more slot live |
| TableAgreement.RowAtTyped | src/memory_layer.cpp:226-252 | whatever bytes a slot holds, they are read as values of the columns' types |
| TableAgreement.PlacedAgree | src/memory_layer.cpp:110-148 | with page numbers of 32 bits, an insertion keeps pages and index in agreement if the reading of the split is the intended one or the index's insertion loses nothing; with an integer key, if and only if, since otherwise the key of some live row no longer leads to it |
| TableAgreement.IntegerKeyLive | src/memory_layer.cpp:124-126 | on a table with an integer key the index has a key exactly if a live row has it |
| TableAgreement.SweptFind | src/memory_layer.cpp:473-478 | with an integer key, the scan removes from the index exactly the keys of the rows removed |
| TableAgreement.SweptAgree | src/memory_layer.cpp:452-488 | a removal by scan keeps pages and index in agreement |
| Predicates.PrimaryKeyIndex | inc/table.hpp:39-44 | the first column marked primary, or column 0 if none is |
| Predicates.ColumnListed | inc/table.hpp:24-29 | every column's name is indexed, at the last column of that name |
| Predicates.AsWrittenEntry | src/memory_layer.cpp:20-66 | as written: the indexed path is entered exactly for an equality on a string key, and the test throws exactly for a truth-value predicate with an integer key and a double predicate with a truth-value key |
| Predicates.IntendedEntry | src/memory_layer.cpp:20-66 | with the types compared: entered exactly for an equality on the key column, and never throws |
| Queries.SelectThrows | src/memory_layer.cpp:150-165 | as written, a selection of known columns with a well-typed predicate throws exactly in those two cases |
| Queries.FlagThrows | src/memory_layer.cpp:20-66 | a real case: a table with an integer key and a truth-value column, asked for the rows with that column true |
| Queries.FastHitUnique | src/memory_layer.cpp:255-303 | if the key of every live row leads to it and the indexed path finds a row, no other live row satisfies the predicate |
| Queries.FastHitScan | src/memory_layer.cpp:255-329 | then the full scan returns that row only |
| Queries.FastHitSweep | src/memory_layer.cpp:411-488 | freeing that row leaves the pages and, for integer keys, the index that the scan would leave |
| QueryMeaning.SelectMeaning | src/memory_layer.cpp:150-330 | the full scan's result in terms of names, tests and places: one line for each row asked for, in order, with the values of the columns named; each fault with its exact cause |
| QueryMeaning.RemoveFaultMeaning | src/memory_layer.cpp:331-410 | a removal raises a reference error exactly for an unknown column, a type error exactly for a column of another type, and the wrong alternative exactly as stated |
| QueryMeaning.RemoveMeaning | src/memory_layer.cpp:452-489 | a live slot is freed if and only if the test holds of its row's value in the last column of the name asked about; the others keep their rows, and the count is that of the rows freed |
| QueryMeaning.RemoveAll | src/memory_layer.cpp:452-489 | without a predicate every live slot is freed, and the count is that of the live rows |
| Removal.FastHitFound | src/memory_layer.cpp:255-271 | if the key of every live row leads to it and some row matches, the indexed path finds it: it does not fall back to the scan in vain |
| Removal.FastHitRemoval | src/memory_layer.cpp:411-450 | an indexed removal is the removal by scan: same pages, same count, same index but for truth-value keys |
| Removal.FreedAgree | src/memory_layer.cpp:436-442 | an indexed removal keeps pages and index in agreement |
| Removal.SweepingStep | src/memory_layer.cpp:456-482 | one step of the scanning removal: bit, count and index entry go together |
| MemoryLayer.StoredTable.constructor | src/memory_layer.cpp:73-84 | a new table has no page, and pages and index agree |
| MemoryLayer.StoredTable.TryInsertAt | src/memory_layer.cpp:86-108 | the first free slot is filled; none exactly if all are taken; too long a string leaves the stored page as it was |
| MemoryLayer.StoredTable.Insert | src/memory_layer.cpp:110-148 | the row stands in the first free slot, its key leads to it, nothing else changed; each refusal with its exact cause: doubles are no keys, with an integer key a duplicate is the key of a live row, and with any key a step of a run is made of which `KeyRuns.DuplicateExactly` speaks; with page numbers of 32 bits, index and pages stay in agreement if the index's insertion loses nothing, and with an integer key only then |
| MemoryLayer.StoredTable.ColumnOffsets | src/memory_layer.cpp:192-197 | the running totals are the offsets of the columns |
| MemoryLayer.StoredTable.ReadAt | src/memory_layer.cpp:226-252 | the bytes at slot and offset are read as that column of the row stored |
| MemoryLayer.StoredTable.FastFind | src/memory_layer.cpp:255-286 | what it returns is live, has the key and satisfies the predicate; if it returns nothing for an integer or truth-value key, and the key of every live row leads to it, no row matches |
| MemoryLayer.StoredTable.SelectScan | src/memory_layer.cpp:305-329 | the scan is filter, then project, in page and slot order |
| MemoryLayer.StoredTable.Select | src/memory_layer.cpp:150-330 | for each live row whose value in the last column of the name asked about passes the test, in page and slot order, the values of the last columns of the names selected; or the fault raised, with its exact cause. With the entry test as written in every state, else with a string key or if the key of every live row leads to it |
| MemoryLayer.StoredTable.SweepBuffer | src/memory_layer.cpp:454-486 | one page: exactly the matching slots are freed, the count is theirs, and so are the keys removed |
| MemoryLayer.StoredTable.RemoveScan | src/memory_layer.cpp:452-489 | all pages: exactly the matching rows go and the result is their number |
| MemoryLayer.StoredTable.Remove | src/memory_layer.cpp:331-489 | exactly the rows go whose value in the last column of the name asked about passes the test, the result is their number and the index entries removed are those stated: with the entry test as written in every state, else with a string key or if the key of every live row leads to it; the agreement stays, and each fault has its exact cause |
| TableRuns.StepImplements | src/memory_layer.cpp:110-148 | on a table with an integer key whose pages and index agree, with page numbers of 32 bits: one insertion or removal does to the rows what it does to a finite map, and keeps the agreement if and only if it loses no index entry |
| TableRuns.RunImplements | src/memory_layer.cpp:110-148 | with an integer key and page numbers of 32 bits: after any part of a run in which no insertion lost an index entry, pages and index agree and the table holds exactly the rows of the finite map that the same operations make |
| TableRuns.RunAgrees | src/memory_layer.cpp:110-148 | with an integer key and page numbers of 32 bits: pages and index agree in every state of a run if and only if none of its insertions loses an index entry |
| TableRuns.IntendedImplements | src/memory_layer.cpp:110-148 | with the separator stored after the shift, every such run ends with the rows of the map, and with pages and index in agreement |
| TableRuns.AscendingImplements | src/memory_layer.cpp:110-148 | as written, so does every such run whose inserted keys ascend as words of 64 bits, with removals anywhere in between, and the agreement holds throughout |
| KeyRuns.DuplicateExactly | src/memory_layer.cpp:110-128 | over every run from a new table, with any type of key, while no insertion loses anything: a row is refused as a duplicate if and only if a row was stored before with the same integer or truth value, or with a string of the same hash |
| TableLostKeys.DuplicateAccepted | src/memory_layer.cpp:110-148 | as written, 385 insertions into a table of one integer column leave a live row that its key does not find, and an insertion of a second row with that key is performed: two live rows share a key |
| TableRuns.ScanOfMap | src/memory_layer.cpp:305-329 | if the key of every live row leads to it, the scan finds exactly the matching rows of that map, each once |
| TableRuns.RunSpace | src/memory_layer.cpp:129-147 | after every run, under either reading and whatever the index loses, the number of pages is the least that its largest number of rows needs |
| Space.LiveCountIs | src/memory_layer.cpp:305-309 | the rows listed are as many as the live slots |
| Space.LiveCountLimit | src/memory_layer.cpp:89-94 | pages that are all full hold the number of slots each |
| Space.SlotsForRow | src/memory_layer.cpp:91 | a page has a slot exactly if a row has at most 4064 bytes |
| Space.SpaceBound | src/memory_layer.cpp:129-147 | after every history the number of pages is the largest number of rows so far divided by the slots of a page, rounded up |
| Tokenizer.TokenOnly | src/query_processor.cpp:12-42 | at any place of a text there is at most one token that is as long as it can be |
| Tokenizer.LexReads | src/query_processor.cpp:10-44 | the tokenizer is exact: it returns a list if and only if the text consists of those tokens, in order, with nothing but spaces around them |
| Tokenizer.RefusedExactly | src/query_processor.cpp:19-22 | a text is refused exactly if it consists of no list of tokens at all |
| Tokenizer.RefusedAt | src/query_processor.cpp:19-22 | the position reported is an opening quote that is never closed |
| Tokenizer.SpacedLex | src/query_processor.cpp:10-44 | any list of tokens, written with spaces between, is cut into that list |
| Tokenizer.LexTwice | src/query_processor.cpp:10-44 | tokenizing, joining with spaces and tokenizing again gives the same list |
| Tokenizer.GetTokenStrings | src/query_processor.cpp:10-44 | the loop computes the specification, which `LexReads` makes exact and `Lexicon` states character by character |
| Tokens.IsInt | src/query_processor.cpp:85-91 | true exactly for an optional sign and at least one digit |
| Tokens.IsFloat | src/query_processor.cpp:93-107 | true exactly for at least two characters that are an integer text, or an optional sign and digits with one point |
| Tokens.IsIdentifier | src/query_processor.cpp:109-119 | true exactly for a letter or underscore followed by letters, digits and underscores |
| Tokens.IdentifierExactly | src/query_processor.cpp:54-79 | a text is an identifier exactly if it has the form of a name and is not reserved |
| Tokens.IntTextRead | src/query_processor.cpp:72-73 | an integer text is read as its value exactly if that has 32 bits |
| Tokens.DecimalRoundTrip | src/query_processor.cpp:72-73 | the decimal text of an integer is one token and is read as that integer, exactly within 32 bits |
| Tokens.QuotedRoundTrip | src/query_processor.cpp:68-71 | a quoted string is one token and is read as that string, exactly up to 16 characters |
| Tokens.LiteralStorable | src/query_processor.cpp:61-75 | whatever is read as a literal can be stored: no string is ever too long, no integer out of range |
| Tokens.TokenByToken | src/query_processor.cpp:46-52 | a statement has tokens exactly if each of its token strings has one |
| Tokens.ReadTokens | src/query_processor.cpp:46-52 | the tokens in order, or the first refusal; what each is, `Lexicon` states letter by letter |
| Lexicon.KeywordExactly | src/query_processor.cpp:59-67 | a text is a keyword if and only if it spells one of the 27 words, at each place in a capital or a small letter |
| Lexicon.TruthExactly | src/query_processor.cpp:61-62 | a text is a truth value if and only if it spells TRUE or FALSE, in capitals or small letters |
| Lexicon.NameExactly | src/query_processor.cpp:76-77 | a text is a name if and only if it is a letter or underscore, then letters, digits and underscores, and spells no word of the language |
| Lexicon.SignRead | src/query_processor.cpp:55-64 | each of the nine signs is read as itself, and so are <= and >= |
| Lexicon.WordSolid | src/query_processor.cpp:38-41 | a run of letters, digits and underscores is one of the runs that the next three rows speak of |
| Lexicon.SignCuts | src/query_processor.cpp:26-41 | each of the nine signs, and <= and >=, cuts any two words or numbers around it, without spaces |
| Lexicon.SpaceCuts | src/query_processor.cpp:12-16 | a space separates any two words and is dropped |
| Lexicon.NothingElseCuts | src/query_processor.cpp:38-41 | a run of any other characters is one token |
| Lexicon.QuotedRead | src/query_processor.cpp:68-71 | a text in quotes is the string of its characters, up to 16 of them |
| Lexicon.IntTextExactly | src/query_processor.cpp:85-91 | the integer texts are digits, with or without a sign in front |
| Lexicon.DigitsValue | src/query_processor.cpp:72-73 | what an integer text stands for, digit by digit and with its sign |
| Lexicon.FloatTextExactly | src/query_processor.cpp:93-107 | the texts of doubles: at least two characters, an optional sign, digits with at most one point |
| Lexicon.FloatRead | src/query_processor.cpp:74-75 | such a text with a point is read as what the parser of doubles gives; a sign and a point alone is no number |
| Lexicon.RefusedExactly | src/query_processor.cpp:54-79 | a text is refused if and only if it is a string of more than 16 characters, or neither a sign nor a string, a number or a word |
| InsertStatement.Permutation | src/engine.cpp:188-216 | a list of different columns names all of them exactly if it is as long as they are many: a permutation |
| InsertStatement.ColumnsRead | src/engine.cpp:192-213 | an accepted column list names different columns of the table |
| InsertStatement.ColumnsGiven | src/engine.cpp:192-213 | a list of different columns of the table is accepted, with their numbers in order |
| InsertStatement.ValuesGiven | src/engine.cpp:219-236 | values of the columns' types are accepted unless they outnumber the columns; then the comparison of types reads beyond the end |
| InsertStatement.ArityExactly | src/engine.cpp:219-243 | a well-formed statement is accepted if and only if it has as many values as columns; otherwise a vector is read beyond its end |
| InsertStatement.AcceptedExactly | src/engine.cpp:181-249 | exactly the well-formed statements are accepted, and each column gets the one value listed at the place of its name, of its type |
| InsertStatement.AcceptedStorable | src/engine.cpp:240-245 | if the values are in range, short enough and free of NULs, the row that assigns them has one value of the right type in every column and can be stored |
| InsertStatement.AnyOrder | src/engine.cpp:240-243 | listing columns and values in any other common order stores the same row |
| InsertFaults.InsertFaultsExactly | src/engine.cpp:181-239 | which fault an INSERT statement raises, if and only if what: a reference error for an unknown table or column, a logic error for a column listed again or left out, a type error for a value of another type than its column, a read beyond a vector for too many or too few values; all else that is not accepted is a syntax error |
| InsertFaults.CreateFaultsExactly | src/engine.cpp:142-174 | a CREATE statement raises a reference error if and only if it names a table that exists; all else that is not accepted is a syntax error |
| InsertStatement.ReadColumnList | src/engine.cpp:188-213 | the loop marks and collects the columns as specified |
| InsertStatement.RunInsert | src/engine.cpp:181-249 | the cursor code computes the specification, faults included |
| Schema.Table.AddColumn | inc/table.hpp:24-29 | the row size stays the sum of the column sizes and the index gives the last column of each name |
| Schema.Table.GetPrimaryKeyIndex | inc/table.hpp:39-44 | the loop finds the first column marked primary, or 0 |
| Schema.CreatedExactly | src/engine.cpp:142-178 | exactly the well-formed statements for a new name are accepted, with the columns in order and the first as key |
| Schema.CreatedUsable | src/engine.cpp:150-158 | every created table has rows of positive size and column 0 as its key |
| Schema.TypeNames | src/engine.cpp:151-169 | the words STRING, INT, BOOL and FLOAT name their types, and no other token does |
| Schema.RunCreate | src/engine.cpp:142-178 | the cursor code builds the specified table or raises the specified fault |
| MetadataFile.WriteTableMetadata | inc/table.hpp:45-61 | the words written |
| MetadataFile.ParseTableMetadata | inc/table.hpp:62-98 | the loops read a well-formed list of words as specified, and only a list with a missing or malformed word is refused |
| MetadataFile.WordsLaidOut | inc/table.hpp:45-61 | each word written, in its place: the counts, the letter and the name of each column, the index columns, the pages |
| MetadataFile.ParsedExactly | inc/table.hpp:62-98 | the words are accepted if and only if the three counts stand in their places |
| MetadataFile.ColumnsAsRead | inc/table.hpp:62-98 | of each accepted list of words: every column with its name and type, a letter that is none of the four standing for no type, the first as key, and as an index exactly if its name is listed and no later column has it |
| MetadataFile.ReadBack | inc/table.hpp:45-98 | what is read back: same columns, types and page count; which column is marked as index |
| MetadataFile.CreatedSurvives | inc/table.hpp:45-98 | a created table survives being written and reopened if and only if no later column has the name of its key column |
| StatementText.KeywordSpelled | src/query_processor.cpp:59-67 | each keyword in capitals is one token and is read as that keyword |
| StatementText.LiteralSpelled | src/query_processor.cpp:54-79 | the text of an integer, string or truth value is one token and is read as that value |
| StatementText.InsertTextStores | src/engine.cpp:66-70 | from text to row: the text of an INSERT statement is tokenized and parsed into the row with those values |
| StatementText.InsertTextStorable | src/engine.cpp:66-70 | the row of any accepted INSERT text without NULs can be stored: no value is out of range, too long or of the wrong type |
| StatementText.CreateTextCreates | src/engine.cpp:66-70 | from text to table: the text of a CREATE statement is tokenized and parsed into the table with those columns; written and reopened it is the same if and only if no later column has the name of its key column |

## Left out

- MemoryLayer.StoredTable.Insert: strings are taken to be free of NUL characters, which a text with a NUL could hold; `RowCodec.ValueRoundTrip` says that exactly those do not survive storage.
- MemoryLayer.StoredTable.Select: returns the rows as a sequence of values; printing them, and the line of column names, is left out.
- KeyRuns.DuplicateExactly: its removals leave the index alone; a removal through the intended index path on a table with a truth-value key, which takes one of the two keys out, is not a step of its runs. With an integer key, `TableRuns` covers removals.
- BTreeStore.BTree.Insert: does not reject a key that is present, as the code does not; the lookup theorems take the key to be fresh, as the caller checks. Node ids are unbounded: the wrap of a 64-bit id is not modelled.
- BTreeStore.BTree.constructor: the exception on unreadable metadata is not modelled; metadata, where present, is taken to be what the program wrote.
- BTreeInference.InferRootNodeId: file names are the ids; the parsing of file names and unreadable files are not modelled.
- TableAgreement.PlacedAgree: for string and truth-value keys the condition is sufficient only; an entry that a scanning removal left behind may be lost without harm.
- TableAgreement.SweptAgree: no exact index for string keys (`std::hash` is an uninterpreted function) nor for truth-value keys (the scan leaves their entries behind).
- MetadataFile.ParseTableMetadata: a file with missing or malformed words is refused, where the stream would leave zeros; the counts are unbounded where the code reads 32-bit integers.
- Tokens.ToToken: characters are ASCII; `std::stod` is a parameter.
- The guards that skip a slot reaching beyond the page (src/memory_layer.cpp:267, 310): `Heap.SlotFits` shows that they never fire, so they are not repeated.
- The comparison operators of inc/predicate.hpp: a predicate is any test of a value; only equality is singled out, since only it takes the indexed path.
- Doubles: a double is its 64 bits; its order, its text and its parsing are not modelled.
- Files, directories and input-output errors (src/page_io.cpp), and crashes between two writes, which the code does not claim to survive.
- SELECT and DELETE as token parsers (src/engine.cpp:73-140, 251-289): one clause at a fixed place, without lists or permutations beyond those of INSERT.
- DROP, the map of tables, the prompt and error messages (src/engine.cpp:9-70, 291-336).
