# A model of the maxQL engine

maxQL is a small SQL engine in C: rows go to an append-only data file, unique B-tree indexes to index files, and
table schemas to text files. This project models the three parts whose correctness rests on more than one function,
and proves what they are for.

**The B-tree index** (`Ordering`, `Layout`, `Trees`, `Contexts`, `NodeOps`, `TreeOrder`, `Splitting`, `BtreeInsert`,
`Climbing`, `Insertion`, `Searching`, `Rebalance`, `DeleteSpec`, `DeleteCorrect`, `InnerMerges`,
`DeleteTheorem`, `DeleteExact`, `LeafHeld`, `Deletion`, `DeleteHeap`, `LostKey`, `Disk`, `NodeBytes`, `SortedMap`,
`TreeContract`, `IndexRuns`, and the module `BtreeIndex` in `Btree.dfy`).
Nodes are objects with fixed arrays, a key count, a leaf flag and a parent link. A value `Tree` describes what the heap
holds; `Body` and `Rep` say that it does, `Shaped` is depth and occupancy, `InOrder` the sorted run of entries.
Insertion climbs from the leaf through parent links: `Climb` is the loop's invariant, on a path with a hole
(`Contexts`). Deletion is modelled as written to its end, also where it merges two inner nodes: the merge brings a
dead child slot to life, which may hold nothing or any node, and the descent goes on over it. `Safe` names the branches
of the descent on which the key sought goes and nothing else, and `DeleteRightIffSafe` shows, for every content of the
dead slots, that this happens on those branches and on no others.

**The data engine** (`Values`, `KeyOrder`, `KeyRefinement`, `RowCodec`, `DataFile`, `RowSources` in `RowSource.dfy`,
`Agreement`, `Planner`, `Comparisons`, `RowBytes`, `Dml`, `UpdateChecks`, `Executor`, `UpdateExecutor`, `Runs`, `Backfill`). The data file is a
sequence of bytes that at all times is the framing of a log of records; `RowBytes` and `Comparisons` say in plain bytes
and numbers what is stored and what a where clause means. An index of the engine is the map its
interface promises; `Agrees` is the invariant that ties it to the log. `TreeContract` shows that a B-tree over prepared
keys meets that map contract, under the guard of deletion, and `IndexRuns` that whole runs of operations do.

**Schema files** (`Lexer`, `Parser`, `ParserMethods`, `Literals`, `SchemaText`, `SchemaTokens`, `SchemaParsing`,
`SchemaLoad`, `SchemaRoundTrip`, `Scanning`, `ParserFacts`, `SchemaFacts`, `SampleSchema`). The printer, the lexer, the recursive-descent parser and the resolver each are
methods tied to functions, and the functions compose to a round trip. What every kind of text, token and limit stands for
is stated in plain characters and numbers (`Scanning`, `ParserFacts`, `SchemaFacts`), and `SampleSchema` writes one file out.

## What turned out false

Each of these is proved as an exact condition, not only as a counterexample.

- Deleting a key met in an inner node is right only if its left child is a leaf and rebalancing leaves the key where it
  is (`FoundExact`). Deleting a key held in a leaf is right exactly unless two inner nodes merge on the way, whose children
  `src/index/btree.c:766` puts one slot too far: the last child is cut off and the run ends too low from then on, whatever
  the dead slots hold (`LeafHeldDeleteRight`, `InnerMergeWrong`, `DeleteEndsLow`). `LoseAKey` deletes B from an index of
  1020-byte keys A, B, C and D that is in order and in shape, and loses C.
- A merge of two inner nodes stays inside the child array exactly if `maxKeys` is even; for odd `maxKeys` the copy at
  `src/index/btree.c:768-770` ends one slot behind it (`InnerMergeFitsIffEven`).
- An update of several rows over an index on a column prefix can give two rows the same key, because the batch check
  compares whole values (`PrefixSlipsThrough`); a row with a trailing space in a `char` column is indexed under
  another key than it has once stored. `InsertAgreesIffSteady` and `UpdateAgreesIffSafe` say when exactly the indexes
  still agree with the file.
- Key order is column order exactly if int parts are four bytes wide (`OrdersAgreeIffIntsWhole`).
- A schema file loads back exactly if all column names are of the letters a to z and underscores and no default is
  negative: the lexer has no minus sign (`LoadsBackIffLoadable`).

The repository's own README shows strings in single quotes (`README.md:32`) and an index that is not declared unique
(`README.md:31`). The lexer takes double quotes only (`src/core/lexer.c:62-65`), and the planner refuses an index that
is not unique (`src/engine/ddl/planner.c:156-157`). The model follows the code.

## Model

| member | source | states |
|---|---|---|
| Layout.LayoutWorksIffRoomForThree | src/index/btree.c:90-137 | The 16-bit layout arithmetic gives regions that fit the node, and meets all that inserting, splitting, lending and merging leaves rely on, exactly when three keys and four children fit; merging inner nodes is left to InnerMergeFitsIffEven |
| Layout.MinKeysIsHalf | src/index/btree.c:90-137 | The minimum is half of the other keys, rounded down, after all truncations |
| Layout.LayoutInNumbers | src/index/btree.c:90-137 | As many keys as the space allows and no fewer, the larger half of a split left, and every region at its byte behind a header of three |
| Layout.NoRoom | src/index/btree.c:90-137 | A node too small for a key has neither keys nor a minimum |
| Layout.TinyNodesWrap | src/index/btree.c:90-137 | In a node smaller than its fixed parts the 16-bit subtraction wraps round, and the layout reckons with 65536 bytes more than there are |
| Layout.DefaultLayoutWorks | src/index/btree.c:90-137 | For the default node size of 4096 and every key size an index can have, up to 1020, the layout does that and its regions tile the node |
| Ordering.LowerBound | src/index/btree.c:824-841 | The position every key loop looks for: all keys before it are smaller, the one at it is not |
| Ordering.LowerBoundUnique | src/index/btree.c:824-841 | No other position has that property |
| Ordering.FoundIffHas | src/index/btree.c:561-589 | In a sorted run, comparing at that one position decides whether the key is there at all |
| NodeOps.NodeKeyPosition | src/index/btree.c:824-841 | Position and found flag of a key among the live keys of a node |
| NodeOps.InsertValue | src/index/btree.c:347-369 | Shifting and writing puts the pair at its sorted place and leaves the others in order |
| NodeOps.InsertIntoLeaf | src/index/btree.c:383-392 | Refused exactly when the leaf is full, and then without a change; otherwise the live pairs are the old ones and the new one in order |
| NodeOps.InsertChild | src/index/btree.c:371-381 | The temporary children are the old ones with the incoming node right behind the slot |
| NodeOps.InsertIntoNode | src/index/btree.c:394-416 | Refused exactly when the parent is full; otherwise pair and child stand at the slot key comparison finds, and the child points to its parent |
| NodeOps.SplitEntries | src/index/btree.c:438-464 | Left half, middle pair and right half together are the full node's pairs and the new one, in order |
| NodeOps.SplitChildren | src/index/btree.c:466-475 | The children are shared out so that each half keeps those around its own separators |
| BtreeInsert.FindLeaf | src/index/btree.c:329-345 | The descent ends at the one leaf between whose separators the absent key belongs |
| BtreeInsert.SplitLeaf | src/index/btree.c:438-476 | A full leaf becomes two that hold the two halves, in storage of their own, the middle pair left over |
| BtreeInsert.SplitInner | src/index/btree.c:438-476 | A full inner node becomes two, each child pointing to the half it is in |
| BtreeInsert.AttachPending | src/index/btree.c:394-416 | In the heap: the parent takes the pending pair and sibling if it has room, else the whole tree around is as before |
| BtreeInsert.CreateRoot | src/index/btree.c:418-436 | The new root holds the middle pair above the two halves, which point to it |
| Splitting.PendingSlot | src/index/btree.c:394-416 | The slot key comparison finds in the parent is the slot of the child that split |
| Splitting.HalvesInOrder | src/index/btree.c:438-476 | Splitting conserves the in-order run of the whole subtree |
| Splitting.HalvesShaped | src/index/btree.c:438-476 | Both halves keep depth and have at least the minimum and at most the maximum of keys |
| Climbing.ClimbUp | src/index/btree.c:521-549 | One round of the loop keeps its invariant: tree and pending pair hold the whole new run, one level higher |
| Climbing.ParentShaped | src/index/btree.c:521-549 | A parent with room ends the climb in a tree of the right shape |
| Insertion.AllocateNode | src/index/btree.c:154-162 | A new node has storage of its own, large enough for the layout, its fields and child links zero |
| Insertion.CreateLeaf | src/index/btree.c:478-488 | The first entry makes a valid tree of one leaf |
| Insertion.FirstRound | src/index/btree.c:499-504 | Splitting the leaf sets up the climb's invariant |
| Insertion.Place | src/index/btree.c:506-519 | The pending pair goes under a new root or into the parent and the tree is valid and complete, or the parent was full and nothing changed |
| Insertion.ClimbRound | src/index/btree.c:521-535 | Splitting the full parent keeps the climb's invariant one level up |
| Insertion.SplitAndPlace | src/index/btree.c:521-549 | One whole round: the tree is finished, or the loop may go on |
| Insertion.InsertSplitting | src/index/btree.c:499-552 | The loop ends, in a valid tree that holds the old entries and the new one |
| Insertion.InsertDo | src/index/btree.c:490-553 | Inserting an absent key keeps order, depth, occupancy and parent links, and adds exactly that entry |
| Searching.Search | src/index/btree.c:561-589 | The in-memory search answers what the in-order run holds |
| Rebalance.StealLeftConserves | src/index/btree.c:692-719 | Lending from the left conserves the in-order run, for leaves and inner nodes |
| Rebalance.StealRightConserves | src/index/btree.c:721-747 | So does lending from the right |
| Rebalance.MergeLeavesConserves | src/index/btree.c:749-791 | So does merging two leaves |
| DeleteSpec.EnsureMinConserves | src/index/btree.c:795-822 | Whichever remedy is taken, no entry is lost, added or moved in order |
| DeleteSpec.EnsureMinShaped | src/index/btree.c:795-822 | Depth and occupancy are kept and the visited child can now give up a key |
| DeleteCorrect.VisitKeeps | src/index/btree.c:795-822 | A key below the visited child is never moved out of it |
| DeleteCorrect.PushedDown | src/index/btree.c:795-869 | A separator the remedy does not keep ends up below the visited child |
| DeleteCorrect.SecondPosition | src/index/btree.c:843-869 | The position found a second time is always the visited child's, and says whether a found key is still a separator |
| DeleteTheorem.DeleteKeepsShape | src/index/btree.c:843-869 | Unless two inner nodes merge, deletion keeps depth and occupancy and never falls off a leaf |
| DeleteTheorem.SlotsIrrelevant | src/index/btree.c:843-869 | Nor does its outcome then depend on what dead child slots hold |
| DeleteTheorem.KeptExact | src/index/btree.c:853-862 | A separator kept in place is rightly deleted exactly when its left child is a leaf: only there the child's last key is the predecessor |
| DeleteTheorem.LentWrong | src/index/btree.c:795-869 | A separator lent down by the right sibling is never rightly deleted |
| DeleteTheorem.MergedWrong | src/index/btree.c:795-869 | Nor is one that goes down in a merge of the first two leaves |
| DeleteTheorem.FoundExact | src/index/btree.c:853-862 | A key found above the leaves is rightly deleted exactly when its left child is a leaf and it stays in place |
| InnerMerges.DeleteEndsLow | src/index/btree.c:795-869 | Whatever is deleted below a node whose last child lies below a bound, whatever rebalancing does there and whatever its dead slots hold, the run that is left ends below the bound |
| DeleteExact.MergedEndsLow | src/index/btree.c:749-791 | Two inner nodes merged as written are such a node: the right one's last child is cut off, and the one before it is last, behind a larger key |
| DeleteExact.InnerMergeWrong | src/index/btree.c:749-869 | A deletion that merges two inner nodes ends in another run than the old one without the key, whatever the dead slots hold, or does not end |
| DeleteExact.DeleteRightIffSafe | src/index/btree.c:795-869 | For every tree in shape, key held and content of the dead slots: exactly that key is removed if and only if every step of the descent is on a safe branch |
| DeleteExact.SafeMerges | src/index/btree.c:795-869 | On the safe branches no two inner nodes merge |
| DeleteExact.RightAboveLeavesByCounts | src/index/btree.c:795-869 | By key counts alone: a key above the leaves is rightly deleted exactly when the leaf left of it has a key to spare, or has a left neighbour that has, or has a left neighbour and no right one that has |
| LeafHeld.SafeUnlessInnerMerge | src/index/btree.c:843-869 | For a key held in a leaf the safe branches are all but the merge of inner nodes |
| LeafHeld.LeafHeldDeleteRight | src/index/btree.c:843-869 | A key held in a leaf is rightly deleted in every tree of two levels, and in a taller one exactly when no two inner nodes merge, whatever the dead slots hold |
| LostKey.DeletingTheRootKeyLosesAnother | src/index/btree.c:795-869 | In every valid tree of that form over four 255-byte key parts, B at the root, A left and C and D right of it, deleting B leaves A, B and D |
| LostKey.BuildFourKeys | src/index/btree.c:154-162 | There is such a tree on the heap, valid, on three nodes of its own |
| LostKey.LoseAKey | src/index/btree.c:871-887 | Deleting B from it, the heap holds A, B and D |
| Deletion.BtreeStealLeft | src/index/btree.c:692-719 | The heap after lending from the left is the tree with one pair moved through the parent, moved child included |
| Deletion.BtreeStealRight | src/index/btree.c:721-747 | The same from the right |
| Deletion.InnerMergeFitsIffEven | src/index/btree.c:765-773 | On a tree in shape, the children of a merge of two inner nodes stay inside the child array if and only if maxKeys is even; else they end one slot behind it |
| Deletion.AppendKids | src/index/btree.c:765-773 | What merging inner nodes copies: the right node's children land one slot behind the left node's last |
| Deletion.InnerMergeMisplaces | src/index/btree.c:749-791 | So the live children are not those of the two nodes: one slot is dead and the last child is cut off |
| Deletion.BtreeMerge | src/index/btree.c:749-791 | Two leaves become the merged leaf; of two inner nodes the pairs are right, the children misplaced but adopted, and the gap in the parent closed |
| Deletion.InnerMergeHeld | src/index/btree.c:749-791 | What it leaves of two inner nodes is the value deletion goes on with: the merged node with the dead slot's node among its children |
| DeleteHeap.EnsureMinKeys | src/index/btree.c:795-822 | The heap after rebalancing is the tree the chosen remedy gives; by key counts: the left neighbour gives up its last pair if it can, else the right one its first, else the child joins the left one, or the first the second |
| DeleteHeap.EnsureMinByCounts | src/index/btree.c:795-822 | The value computation by key counts alone: which neighbour lends, which pairs move, and which two nodes become one |
| DeleteHeap.InnerMergeByCounts | src/index/btree.c:795-822 | Two inner nodes merge exactly when neither the child nor a neighbour of it has a key to spare |
| DeleteHeap.RemoveFromLeaf | src/index/btree.c:676-690 | The leaf's live pairs are the old ones without the one removed |
| DeleteHeap.OverwriteSeparator | src/index/btree.c:856-860 | Writing at the position found second replaces that separator, or past the last one only a dead slot |
| DeleteHeap.DeleteStored | src/index/btree.c:843-869 | Deletion never makes two nodes share storage and takes in none from outside |
| DeleteHeap.DeleteRecursive | src/index/btree.c:843-869 | The heap after deletion is the tree the value computation gives, safe or not, unless inner nodes merge |
| BtreeIndex.CollapseRoot | src/index/btree.c:871-887 | A root left without separators gives way to its only child, which then has no parent |
| BtreeIndex.DeleteFound | src/index/btree.c:871-887 | Whenever no two inner nodes merge: shape and heap are kept, and exactly the key is gone if and only if the deletion is safe |
| BtreeIndex.Btree.constructor | src/index/btree.c:141-152 | An empty index is valid and holds nothing, for every layout with room for three keys |
| BtreeIndex.Btree.Find | src/index/btree.c:561-589 | The lookup of the sorted map the index stands for |
| BtreeIndex.Btree.Insert | src/index/btree.c:555-559 | An absent key comes in, everything else stays, the index stays valid |
| BtreeIndex.Btree.Delete | src/index/btree.c:871-887 | On the safe branches the key goes out, everything else stays, and a key not held changes nothing |
| BtreeIndex.SaveTree | src/index/btree.c:300-310 | The saved file holds one block a node and nothing else, and is the image of the index; an empty index leaves it empty |
| BtreeIndex.LoadTree | src/index/btree.c:226-268 | Loading that file gives a valid index of the same shape and contents on new nodes |
| BtreeIndex.FindOnDisk | src/index/btree.c:596-644 | Searching the saved file answers what the index in memory answers |
| Disk.TilesConcat | src/index/btree.c:270-298 | Runs of blocks written one after the other tile the file without overlap |
| Disk.KidsBehind | src/index/btree.c:270-298 | A child's blocks lie behind its parent's and end where its next sibling's begin |
| Disk.BtreeToBin | src/index/btree.c:270-298 | The image written in pre-order holds the tree, takes exactly its number of nodes in blocks and disturbs no other block |
| Disk.ParseTree | src/index/btree.c:168-190 | Reading terminates because children lie behind their parents, and rebuilds the same tree with right parent links |
| Disk.SameShape | src/index/btree.c:168-190 | The tree read back has the depth and occupancy of the one written |
| Disk.SameRun | src/index/btree.c:168-190 | And the same in-order run |
| Disk.SearchStream | src/index/btree.c:596-644 | The block-by-block search of an image finds what the run holds |
| NodeBytes.BlockThroughBytes | src/index/btree.c:283-297 | Written as bytes at the layout's offsets and read back from there, a block still describes its node |
| NodeBytes.HeaderAndKeysInBytes | src/index/btree.c:287-291 | A block begins with the leaf flag and the key count, low byte first, and its keys lie one behind the other from byte 3 on |
| NodeBytes.NumbersInBytes | src/index/btree.c:292-293 | Behind them lie the offsets and the child links, eight bytes each, low byte first |
| NodeBytes.ImageThroughBytes | src/index/btree.c:168-190 | So does every block of a saved tree: parsing and searching see the same image through the bytes |
| SortedMap.LookupAfterInsert | src/index/btree.c:555-559 | After an insertion the new key is found with its offset and every other key as before |
| SortedMap.LookupAfterRemove | src/index/btree.c:871-887 | After a removal the key is not found and every other key is as before |
| TreeContract.SearchIsMapLookup | src/index/index.c:216-228 | On prepared keys, looking up the sorted run is looking up the map of the index interface |
| TreeContract.InsertIsMapUpdate | src/index/index.c:192-201 | Inserting into the run is putting the key into that map |
| TreeContract.RemoveIsMapRemoval | src/index/index.c:240-249 | Removing from the run is taking the key out of that map |
| IndexRuns.StepRefines | src/index/index.c:192-249 | One operation on a sorted run of prepared keys is the same on the map, with the same answer, and leaves such a run |
| IndexRuns.RunRefines | src/index/index.c:192-249 | In every run of operations the tree's sorted run and the map of the index interface go through the same states and give the same answers |
| IndexRuns.Perform | src/index/index.c:192-249 | The tree itself takes such steps: insertions of absent keys, searches and safe deletions |
| Values.CompareZeroIffEqual | src/types/comparator.c:6-27 | Values compare as 0 exactly when they are the same value |
| Values.IntRoundTrip | src/types/mapper.c:24-35 | Four little-endian bytes hold every 32-bit int, the sign included |
| Values.IntBytesBack | src/types/mapper.c:24-35 | And every four bytes are the bytes of the int read from them |
| KeyOrder.CompoundCompare | src/index/comparator.c:3-18 | The loop gives the first difference of the parts, in part order |
| KeyOrder.CompoundIsTotalPreorder | src/index/comparator.c:3-18 | For every list of parts the comparator is reflexive, antisymmetric in sign and transitive, as the B-tree needs |
| KeyOrder.PrepareIndexKey | src/index/index.c:164-183 | The key is the zero-padded parts of the values, one after the other |
| KeyRefinement.KeyOrderRefinesRowOrder | src/index/comparator.c:3-18 | Comparing prepared keys is comparing what the parts keep of the columns, lexicographically |
| KeyRefinement.FullWidthKeyOrder | src/index/index.c:164-183 | With full-width parts key order is column order, and keys are equal exactly when all columns are |
| KeyRefinement.SameKeyIffZero | src/index/comparator.c:3-18 | Keys compare as 0 exactly when they are the same bytes, so the tree's keys are a map's keys |
| KeyRefinement.OrdersAgreeIffIntsWhole | src/types/key_compare.c:3-8 | Key order is column order for all rows exactly when every int part is four bytes wide |
| KeyRefinement.NarrowIntPartMisorders | src/types/key_compare.c:3-8 | Two bytes of an int, followed by another part, put 1 before 0 |
| RowCodec.RowRoundTrip | src/serializer/serializer.c:4-21 | Decoding an encoded row, whatever bytes follow it, gives the normalised row: chars trimmed, binaries filled up |
| RowCodec.NormalRowIsFixed | src/types/mapper.c:67-101 | A normalised row is well typed, is read back as it is and is encoded like the original |
| RowCodec.RowFits | include/maxql/storage/storage.h:10-14 | Every row fits the row buffer, and its frame the 16-bit size field |
| RowCodec.SerializeRowData | src/serializer/serializer.c:4-12 | The buffer holds the row's encoding from the start given, nothing before it is touched, and the size returned is its length |
| RowCodec.SerializeValue | src/types/mapper.c:24-93 | Each type's bytes are written at the offset and their number returned |
| RowCodec.DeserializeRowData | src/serializer/serializer.c:14-21 | The row a buffer stands for, if it stands for one |
| RowCodec.DeserializeChar | src/types/mapper.c:75-86 | Overwriting from the end amounts to trimming trailing spaces |
| RowCodec.CharKeyStable | src/types/mapper.c:75-86 | A key part takes the same bytes from a char before and after storing exactly when trimming takes nothing it uses |
| RowCodec.BinaryKeyStable | src/types/mapper.c:88-101 | A key part takes the same bytes from a binary before and after storing |
| RowBytes.IntAsBytes | src/types/mapper.c:24-35 | An int is four bytes, low byte first, in two's complement |
| RowBytes.StringsAsBytes | src/types/mapper.c:50-93 | A varchar is its length and its bytes, a char its bytes and bytes 32, a binary its bytes and zeros, up to the column's length |
| RowBytes.KeptAsItIs | src/types/mapper.c:24-86 | Ints, varchars and chars that do not end in a byte 32 are read back as they are |
| RowBytes.BinaryFilledUp | src/types/mapper.c:88-101 | A binary is read back with zeros up to the column's length |
| RowBytes.TrailingBlanksLost | src/types/mapper.c:67-86 | Of a char trailing bytes 32 are lost, all of them and nothing else |
| RowBytes.AppendedBytes | src/storage/storage.c:101-119 | Appending a row appends a zero flag, the size of the frame, low byte first, and the encoded columns |
| RowBytes.EncodedInTurn | src/serializer/serializer.c:4-12 | The encoded columns of a row follow one another |
| DataFile.FramesInPlace | src/storage/storage.c:52-70 | At each record's offset the file holds that record's frame, up to the next record's offset |
| DataFile.OffsetsIncrease | src/storage/storage.c:101-119 | Later records have larger offsets |
| DataFile.AppendKeeps | src/storage/storage.c:101-119 | Appending a row extends the log by one record and moves no frame |
| DataFile.KillKeeps | src/storage/storage.c:91-99 | Setting one byte deletes one record and disturbs no frame |
| DataFile.TableFile.InsertRow | src/storage/storage.c:101-119 | The log gains the normalised row, at the offset returned |
| DataFile.TableFile.DeleteRow | src/storage/storage.c:91-99 | Exactly the record at the offset is dead |
| DataFile.TableFile.ReadCurrentRow | src/storage/storage.c:52-70 | The record at the position, if live; either way the next record is current |
| DataFile.TableFile.LoadRow | src/storage/storage.c:72-77 | The row a scan would give at that offset |
| RowSources.RowSource.TableScan | src/scan/table_scan.c:59-67 | A new scan has all live rows to give, in append order with their offsets |
| RowSources.RowSource.IndexScan | src/scan/index_scan.c:23-46 | A new lookup has the one row the index led to, if it is live |
| RowSources.RowSource.TableScanNext | src/scan/table_scan.c:34-57 | The next of the remaining rows, or none when none remain |
| RowSources.RowSource.IndexScanNext | src/scan/index_scan.c:59-73 | The one row, once |
| Agreement.AgreementMeansUnique | src/index/index_set.c:31-46 | An index can only agree with a file in which no two live rows share its key |
| Agreement.AgreementIsUnique | src/index/index_set.c:100-130 | A file has at most one index that agrees with it |
| Agreement.AgreesAppend | src/index/index_set.c:65-69 | Appending a row under a new key keeps agreement |
| Agreement.AgreesKill | src/index/index_set.c:83-92 | Deleting a live row and its key keeps agreement |
| Agreement.SteadyIffKeyKept | src/index/index.c:157-183 | A row keeps its key when stored exactly when trimming takes nothing the key's parts use |
| Agreement.InsertAgreesIffSteady | src/engine/dml/executor.c:102-139 | After storing a row and indexing it under the key of the values given, index and file agree exactly in that case |
| Planner.MatchesWhere | src/engine/dml/executor.c:12-23 | True exactly when every predicate holds of the row |
| Comparisons.IntsByNumber | src/types/comparator.c:6-40 | On ints the six operators of a where clause are the six comparisons of numbers |
| Comparisons.StringsByByte | src/types/comparator.c:6-40 | Strings are compared at the first byte that differs; a proper prefix comes first |
| Comparisons.BinariesByLength | src/types/comparator.c:6-40 | Binaries are compared by length, and equally long ones at the first byte that differs |
| Planner.ColumnCovered | src/engine/dml/planner.c:4-15 | The first predicate on the column counts, and only if the index supports its operator |
| Planner.CoveringIsFirst | src/engine/dml/planner.c:4-15 | A column is covered by its first predicate and only if that one is an equality |
| Planner.ScoreIndex | src/engine/dml/planner.c:17-26 | The score is the number of parts covered before the first that is not, and the number of all parts exactly when every one is covered |
| Planner.ChooseBestIndex | src/engine/dml/planner.c:28-43 | Of the usable indexes the first among those with the most parts; none exactly when none is usable |
| Planner.SelectBestIndex | src/engine/dml/planner.c:45-74 | The decision names a usable index with the most parts, the first of them, with the values of its key, each demanded by the where clause, or a full scan exactly when no index is usable |
| Planner.PlanEquivalence | src/engine/dml/planner.c:4-74 | In every agreeing state and for every where clause, filtering what the index leads to gives the same rows as filtering a full scan |
| Dml.FilterIsHits | src/engine/dml/executor.c:80-100 | What an executor collects from its source are the matching live records, in order |
| Dml.DeleteMatchingIs | src/engine/dml/executor.c:141-180 | After a delete exactly the matching live rows are dead and nothing has moved |
| Dml.UpdatedIs | src/engine/dml/executor.c:280-297 | After an update the originals are dead, the new rows stand at the end in order, all else is as before |
| Dml.LastAssignmentWins | src/engine/dml/executor.c:182-197 | A column takes the value assigned to it last |
| Dml.OthersKept | src/engine/dml/executor.c:182-197 | A column nothing is assigned to keeps its value |
| UpdateChecks.BatchCheckExact | src/engine/dml/executor.c:199-223 | With full-width parts the comparison of whole values finds exactly the colliding keys |
| UpdateChecks.NewKeyIsFree | src/engine/dml/executor.c:280-297 | Once both checks have passed, at every step the old key is held and the new one is not |
| UpdateChecks.UpdateStepAgrees | src/engine/dml/executor.c:280-297 | Every single replacement keeps an index in agreement |
| UpdateChecks.CollisionBreaksUniqueness | src/engine/dml/executor.c:199-236 | If two new rows had one key, two live rows would share it after the update |
| UpdateChecks.UpdateAgreesIff | src/engine/dml/executor.c:263-297 | After an update without conflict an index agrees with the file exactly when the new keys are pairwise distinct and storing takes nothing from them |
| UpdateChecks.PrefixSlipsThrough | src/engine/dml/executor.c:199-223 | With an index on a prefix, an update of two rows passes both checks and gives them the same key |
| Executor.IndexSet.HasDuplicate | src/index/index_set.c:31-46 | The first index that holds the key of the values, or none does |
| Executor.IndexSet.HasConflict | src/index/index_set.c:48-63 | The first index that holds the key for another row, or none does |
| Executor.IndexSet.InsertAll | src/index/index_set.c:65-69 | Every index that does not hold the row's key gains it, and nothing else |
| Executor.IndexSet.DeleteAll | src/index/index_set.c:83-92 | Indexes lose the key one by one, up to the first that does not hold it |
| Executor.Engine.ExecuteInsert | src/engine/dml/executor.c:102-139 | Refused exactly when a live row has one of the keys, and then nothing changes and the first such index is named; otherwise one row more; agreement is kept if the row is refused or keeps its keys when stored |
| Executor.Engine.CreateRowSource | src/engine/dml/executor.c:73-78 | Whatever the plan, the source gives what filtering the live rows gives |
| Executor.Engine.ExecuteSelect | src/engine/dml/executor.c:80-100 | The matching live rows in append order, whatever the plan |
| Executor.Engine.GatherDeleted | src/engine/dml/executor.c:155-159 | The offsets of the matching rows are collected, and the working indexes already agree with the file as it will be |
| Executor.Engine.ExecuteDelete | src/engine/dml/executor.c:141-180 | Exactly the matching rows are deleted and counted, and agreement is kept |
| UpdateExecutor.FillUpdateRow | src/engine/dml/executor.c:182-197 | The row with the assigned columns replaced, and whether that is another row at all |
| UpdateExecutor.GatherUpdates | src/engine/dml/executor.c:256-260 | Pairs of old and new row for the matching rows the update changes |
| UpdateExecutor.IndexBatchHasDuplicates | src/engine/dml/executor.c:199-223 | Two new rows agree on all columns of the index, or no two do |
| UpdateExecutor.CheckConflicts | src/engine/dml/executor.c:263-273 | Stops exactly when the key of some new row belongs to another live row, and names the first such index of the first such row |
| UpdateExecutor.BatchCheckUniqueKeys | src/engine/dml/executor.c:225-236 | Stops exactly when two new rows agree on all columns of some index, and names the first such index |
| UpdateExecutor.FullWidthIsSafe | src/engine/dml/executor.c:199-236 | A single-row update, or one over full-width parts, that assigns no trailing spaces always meets the guard of updates |
| UpdateExecutor.ReplaceRow | src/engine/dml/executor.c:280-297 | One round of the loop takes the file to the next step's log, and agreeing indexes to agreeing ones if all new keys are clear |
| UpdateExecutor.ExecuteUpdate | src/engine/dml/executor.c:238-310 | Refused exactly when a check stops it, and then file and indexes are untouched and the outcome names the index in conflict, or the first with two equal new rows if none is in conflict; otherwise all changes are made and counted; agreement is kept under the guard |
| Runs.StepAgrees | src/engine/dml/executor.c:102-310 | Every statement takes a log with agreeing indexes to another |
| Runs.UpdateAgreesIffSafe | src/engine/dml/executor.c:238-310 | An update the checks let through leaves all indexes in agreement exactly when it meets the guard |
| Runs.RunAgrees | src/engine/dml/executor.c:102-310 | Every run of inserts, updates and deletes keeps a log with agreeing indexes such a log |
| Runs.RunsKeepKeysUnique | src/engine/dml/executor.c:102-310 | In every table reached from an empty one no two live rows share a key of any index |
| Runs.Execute | src/engine/dml/executor.c:102-310 | The engine takes exactly the step of each statement, whatever plan it was given, and keeps agreement if the statement is guarded |
| Backfill.BackfillIndex | src/index/index_set.c:100-130 | The index of all live rows, or a duplicate exactly when two live rows share a key |
| Lexer.TokenAt | src/core/lexer.c:178-201 | One token uses up no more than the text, and something of it unless it is empty |
| Lexer.TokensRunOn | src/core/lexer.c:73-127 | Identifiers, hex literals and strings run up to the first character that cannot go on, and a string that does not close is an unknown token |
| Lexer.Reader.ReadIdent | src/core/lexer.c:73-81 | The longest identifier |
| Lexer.Reader.ReadNumber | src/core/lexer.c:83-97 | The longest run of digits with at most one dot |
| Lexer.Reader.ReadHex | src/core/lexer.c:99-111 | The hex digits behind the mark, without it |
| Lexer.Reader.ReadString | src/core/lexer.c:113-127 | What stands between double quotes, or an unknown token if they do not close |
| Lexer.Reader.ReadSymbol | src/core/lexer.c:153-171 | Two characters if they are a symbol together, else one |
| Lexer.Reader.Next | src/core/lexer.c:178-201 | Successive calls give the tokens of the text one by one, and the end for ever after |
| Scanning.Punctuation | src/core/lexer.c:129-171 | Before every rest text: parentheses and comma |
| Scanning.OtherSymbols | src/core/lexer.c:129-171 | Star, semicolon and equals sign |
| Scanning.OpenSymbols | src/core/lexer.c:129-171 | `<` and `>`, and an unknown token for `!`, unless an equals sign follows |
| Scanning.DoubleSymbols | src/core/lexer.c:129-171 | `<=`, `>=` and `!=` are one token each |
| Scanning.UnknownCharacter | src/core/lexer.c:129-201 | Any other character is a token of its own that the lexer does not know |
| Scanning.BlankSkipped | src/core/lexer.c:67-71 | Blank, tab and both line ends are skipped |
| Scanning.WordRead | src/core/lexer.c:73-81 | An identifier is a letter, then letters, digits and underscores, up to the first other character |
| Scanning.WholeNumberRead | src/core/lexer.c:83-97 | Digits up to the first character that is neither digit nor dot |
| Scanning.PointedNumberRead | src/core/lexer.c:83-97 | With a dot, a number ends before the first character behind the dot that is no digit, a second dot included |
| Scanning.HexRead | src/core/lexer.c:99-111 | A digit, an x and hex digits in lower case; without a digit behind the mark the token is unknown |
| Scanning.StringRead | src/core/lexer.c:113-127 | What stands between double quotes, and an unknown token to the end of the text if they do not close |
| ParserMethods.SchemaParser.Next | src/parser/primitives.c:14-20 | The next token, or an error that stays at one the lexer does not know |
| ParserMethods.SchemaParser.Accept | src/parser/primitives.c:27-34 | A token of the kind is used up, another is left |
| ParserMethods.SchemaParser.Expect | src/parser/primitives.c:36-40 | Another token is an error, which stays |
| ParserMethods.SchemaParser.AcceptKeyword | src/parser/primitives.c:42-52 | A keyword is an identifier of that spelling |
| ParserMethods.SchemaParser.ParseValue | src/parser/primitives.c:99-112 | A number, a string or a hex literal, else an error |
| ParserMethods.SchemaParser.ParseColumnDef | src/parser/primitives.c:210-220 | Name, type, optional length and optional default, by the grammar rule |
| ParserMethods.SchemaParser.ParsePart | src/parser/primitives.c:114-125 | A key part and its optional length, by the grammar rule |
| ParserMethods.SchemaParser.ParseParts | src/parser/primitives.c:127-136 | A list of at least one part, and the loop ends on every text |
| ParserMethods.SchemaParser.ParseColumnDefs | src/parser/schema_parser.c:4-13 | The columns up to the closing parenthesis; the loop ends on every text because a round that uses up nothing has failed |
| ParserMethods.SchemaParser.ParseIndexDefs | src/parser/schema_parser.c:27-36 | The same for index definitions |
| ParserMethods.SchemaParser.ParseSchema | src/parser/schema_parser.c:38-60 | The whole file by its grammar rule, on every text |
| ParserFacts.NoKeyword | src/parser/primitives.c:42-58 | A quoted word or another spelling is no keyword, and an error where one is needed |
| ParserFacts.KeywordRead | src/parser/primitives.c:42-58 | A keyword is used up |
| ParserFacts.ValueRead | src/parser/primitives.c:99-112 | A value is one number, string or hex literal and keeps its kind; anything else is an error and is left |
| ParserFacts.LengthRead | src/parser/primitives.c:197-208 | A number in parentheses is a length, and without a parenthesis there is none |
| ParserFacts.NumberMissing | src/parser/primitives.c:197-208 | A parenthesis without a number is an error |
| ParserFacts.CloseMissing | src/parser/primitives.c:197-208 | So is a length that is not closed |
| ParserFacts.PlainColumn | src/parser/primitives.c:197-220 | A column may be a name and a type and nothing else |
| ParserFacts.ColumnRefused | src/parser/primitives.c:197-220 | Both must be identifiers |
| ParserFacts.CommasLeftOut | src/parser/schema_parser.c:4-13 | Between columns the comma may be left out |
| ParserFacts.CommasPutIn | src/parser/schema_parser.c:4-13 | And a last one may stay |
| ParserFacts.PartCommas | src/parser/primitives.c:127-136 | Key parts need their commas, and behind a comma a part |
| ParserFacts.UniqueIsAWord | src/parser/schema_parser.c:15-25 | An index is unique exactly if the word stands before its name |
| Literals.IntLiteralRoundTrip | src/types/converter.c:6-25 | Every printed number from 0 to the largest int is read back |
| Literals.HexLiteralRoundTrip | src/types/converter.c:69-94 | Every printed binary is read back |
| Literals.FormatBinary | src/types/formatter.c:14-19 | Two hex digits a byte, in order, behind the mark |
| Literals.ConvertHexText | src/types/converter.c:69-94 | The bytes of the digit pairs, or a refusal for odd length, excess length or a character that is no digit |
| SchemaFacts.DigitsWritten | src/types/formatter.c:4-7 | Numbers are written in decimal digits, the last one last |
| SchemaFacts.MinusWritten | src/types/formatter.c:4-7 | And negative ones with a minus sign in front |
| SchemaFacts.IntLiteralRange | src/types/converter.c:6-25 | A number is read exactly up to 2147483647 |
| SchemaFacts.HexWritten | src/types/formatter.c:14-19 | Each byte is two lower-case hex digits, the higher half first |
| SchemaFacts.HexDigitsRead | src/types/converter.c:69-94 | Two digits are one byte, the first its higher half; a single one is a byte of its own |
| SchemaFacts.OddHexLiteral | src/types/converter.c:69-94 | A literal of odd length is read as if a zero stood in front of it |
| SchemaFacts.CapitalRefused | src/types/converter.c:69-94 | Capital digits are refused |
| SchemaFacts.LiteralLimits | src/types/converter.c:56-94 | Strings of more than 255 characters and binaries of more than 256 digits are refused |
| SchemaFacts.StringTaken | src/types/converter.c:56-67 | A string is taken character by character |
| SchemaText.LiteralFits | src/types/presentation.c:5-18 | No literal of a well-typed value is cut off by the buffer it is printed into |
| SchemaText.BuffersAreFilled | src/types/presentation.c:5-18 | And no buffer is larger than some literal of its column needs |
| SchemaText.SerializeColumns | src/schema/schema_io.c:143-163 | Exactly the lines of the columns are appended |
| SchemaText.SerializeIndexes | src/index/index_io.c:93-115 | Exactly the lines of the indexes are appended |
| SchemaText.SaveTable | src/schema/schema_io.c:165-195 | The text of a schema file |
| SchemaTokens.LexColumn | src/core/lexer.c:178-201 | A printed column lexes to its tokens, whatever follows |
| SchemaTokens.LexIndex | src/core/lexer.c:178-201 | So does a printed index |
| SchemaTokens.LexFile | src/core/lexer.c:178-201 | The lexer makes of a saved file exactly the tokens of its table |
| SchemaParsing.ColumnParses | src/parser/primitives.c:197-220 | The parser makes of a column's tokens that column's definition and stops behind it |
| SchemaParsing.IndexParses | src/parser/schema_parser.c:15-25 | And of an index's tokens that index's definition |
| SchemaParsing.FileParses | src/parser/schema_parser.c:38-60 | The tokens of a saved table parse, to the end and without an error, into its definitions |
| SchemaLoad.TableColumnPos | src/schema/schema.c:6-15 | The position of the first column of that name |
| SchemaLoad.LoadColumns | src/schema/schema_io.c:44-141 | Columns are resolved in order, up to the first error |
| SchemaLoad.LoadParts | src/index/index_io.c:10-28 | Positions, lengths and the summed key size of an index, or the first error |
| SchemaLoad.LoadIndexes | src/index/index_io.c:30-91 | Indexes are resolved in order, up to the first error |
| SchemaLoad.LoadTable | src/schema/schema_io.c:44-141 | Loading ends with a table or an error on every text |
| SchemaFacts.TypesResolve | src/types/mapper.c:171-209 | The four types by name: an int takes no length, a varchar 1 to 255, a char or a binary 1 to 128 |
| SchemaFacts.TypesAreResolved | src/types/mapper.c:171-209 | The types a table of the engine can have are those that resolve from their own names and lengths |
| SchemaFacts.TypeLengths | src/schema/schema_io.c:97-121 | A length above 255 is refused before the type is looked at |
| SchemaFacts.PartLengths | src/index/index_io.c:66-81 | A key part without a length takes the whole column, and one with a length at most that |
| SchemaFacts.ColumnNames | src/schema/schema_io.c:29-42 | Names count up to the 31st character, all of a to z and underscores, at least one |
| SchemaFacts.ColumnCount | src/schema/schema_io.c:74-79 | No more than 16 columns |
| SchemaFacts.PartCount | src/index/index_io.c:54-84 | No more than four parts to an index; its key size is the sum of their lengths |
| SchemaFacts.IndexCount | src/index/index_io.c:33-35 | No more than eight indexes |
| SchemaFacts.IndexResolved | src/index/index_io.c:37-52 | An index is a B-tree of 4096-byte nodes under at most 31 characters of its name |
| SchemaFacts.ColumnErrors | src/schema/schema_io.c:84-132 | Of several faults of a column the name's is reported first, then the length's, the type's and the default's |
| SchemaFacts.FirstColumnError | src/schema/schema_io.c:74-135 | The first column that does not resolve is the one reported, whatever follows; a seventeenth column is too many |
| SchemaFacts.ColumnsBeforeIndexes | src/schema/schema_io.c:74-140 | A fault of a column is reported before any of an index |
| SchemaFacts.FirstIndexError | src/index/index_io.c:33-89 | So it is with indexes, of which a ninth is too many |
| SchemaFacts.PartsColumn | src/schema/schema.c:6-15 | A part names the first column of its name |
| SchemaRoundTrip.ColumnsResolve | src/schema/schema_io.c:44-141 | The definitions of loadable columns resolve to those columns, types, lengths and defaults |
| SchemaRoundTrip.IndexesResolve | src/index/index_io.c:10-91 | The definitions of a table's indexes resolve to those indexes, positions and key sizes included |
| SchemaRoundTrip.SchemaRoundTrips | src/schema/schema_io.c:44-195 | Printing, lexing, parsing and resolving a table gives back the same table |
| SchemaRoundTrip.NegativeDefaultFails | src/core/lexer.c:129-171 | A file with a negative default anywhere is refused |
| SchemaRoundTrip.BadNameFails | src/schema/schema_io.c:29-42 | A file with a column name that has a capital letter or a digit is refused |
| SchemaRoundTrip.LoadsBackIffLoadable | src/schema/schema_io.c:29-195 | A table the engine can have loads back if and only if its names are plain and no default is negative |
| SchemaRoundTrip.SaveAndLoad | src/schema/schema_io.c:44-195 | The same of the two operations one after the other |
| SampleSchema.SamplePrinted | src/schema/schema_io.c:143-195 | A table of four columns and two indexes prints as the file written out there, character by character |
| SampleSchema.SampleLoaded | src/schema/schema_io.c:44-141 | And that file loads as the table |

## Left out

- BtreeIndex.Btree.Delete: its precondition is the guard `Safe`; on the other branches the tree that is left is not an index with one key less, as `DeleteRightIffSafe` states, and need not be in order. Nothing is repaired.
- BtreeIndex.DeleteFound: covers every deletion on the heap that merges no two inner nodes, safe or not; so do `DeleteHeap.EnsureMinKeys` and `DeleteHeap.DeleteRecursive`. Past such a merge the descent is followed on values, not on the heap.
- DeleteExact.InnerMergeWrong: a dead slot's node is a value of its own; a stale link to a node that is still live elsewhere in the tree, or to one that has been freed, is followed as a copy.
- Deletion.AppendKids: requires the copied children to fit the array, as `InnerMergeHeld`, `InnerMergeMisplaces` and the inner half of `BtreeMerge` do; `InnerMergeFitsIffEven` says when they do not, and nothing is said of what lies behind the array.
- Deletion.BtreeStealRight: the dead slot that the shift at `src/index/btree.c:742-745` moves along, which lies behind the arrays when the right neighbour is full, is not described.
- Executor.Engine.ExecuteInsert: takes values that the validator has let through.
- UpdateExecutor.ExecuteUpdate: takes well-typed assignments, though `src/engine/dml/analyzer.c:180-194` does not validate them.
- BtreeIndex.LoadTree: an empty index file is not covered, since loading it returns freed memory (`src/index/btree.c:242-267`).
- Disk.BtreeToBin: writes a record for each node; `NodeBytes` relates the records to the bytes, with key slots filled up with zeros behind the live ones.
- TreeContract.RemoveIsMapRemoval: is about removal from the sorted run, which the tree's deletion performs on the safe branches.
- KeyRefinement.KeyOrderRefinesRowOrder: int parts are four bytes wide; bytes beyond the end of a key, which the int comparator would read for a narrower last part, count as zero.
- Executor.IndexSet.InsertAll: indexes are the maps of the index interface, so the engine does not inherit what B-tree deletion gets wrong; `TreeContract` is the bridge.
- Literals.IntLiteralRoundTrip: converting text to a number is modelled for number tokens only, without the leading blanks and signs `strtoll` would take.
- Float columns, literals and comparisons: seven printed digits do not give a float back, and `95.0` prints as an int literal.
- File handles, seeking and failures to open or write: files are byte sequences, maps of blocks and strings.
- Allocation, freeing and stack buffers: memory lifetime is not the subject.
- The SQL statement parser, the analyzers and validators: they only give preconditions here.
- Create, drop and truncate, the catalog, the registry of index types and indexes that are not unique: plumbing around what is modelled.
- The read-eval loop, printed tables, SHOW commands and the wording of error messages: user interface.
