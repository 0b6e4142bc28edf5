# A verified model of the column store

The store keeps a column in one of three layouts (unsorted, sorted, B+ tree), represents
selections as bit vectors, and joins with four algorithms. Nearly every property proved
here has the form "the fast structure agrees with the simple scan", for all inputs; where
the code does not meet it, the exact condition under which it does is proved instead.

How the files build on each other:

- **Records, Bounds, Powers, Words, BitVectors, Columns** hold the plain notions: sorted insertion,
  full selection, binary-search bounds, packed words, scans and marked rows.
- **TreeShape, TreeLemmas, TreeSteps, TreeClimb, TreeMoves** describe the file-backed tree.
  A tree is a file of nodes that name each other by position, described by ghost levels:
  level 0 is the row of leaves, each with its key interval, and the children of a level,
  read from left to right, are exactly the level below. A split in progress is a *debt* at
  one level: the separator and the new node the level above has not been told about. An
  insertion opens at most one debt at a time and moves it upwards until a node with room,
  or a new root, pays it.
- **TreeSearch** and **TreeOccupancy** prove range search and the height bound;
  **BPlusTree** holds the class `TreeFile` with insertion, range search and bulk loading as
  loops and assignments over the file.
- **NodeBuffer** has the words of a node as they lie on file; `TreeFile` keeps them beside what
  the nodes mean, and reads flag and pointers from them. **Insertion** says as functions what an
  insertion, or a run of them, leaves on file, and with which addition in place it ends.
  **WordsOnFile** says what that does to the words behind the pointers, in every tree and over
  every run. **TreeDamage** shows what an overwritten leaf flag does; **FrontRun**,
  **DescendingRun** and **LoadedRun** show how it comes about.
- **BulkShape, BulkSearch, BulkTree** describe the file a bulk load leaves: what guides a
  search through it (stale tails included), when searching is right, and exactly when it is a
  tree that insertion can continue.
- **ColumnFile, Deletion, Selection, Fetching** model the plain column files: block-wise
  reading, appending, sorted insertion, deletion by moving the last row, selection, fetch.
- **JoinPairs** (the nested loops, the reference), **HashJoin, SortJoin, TreeJoin**,
  **JoinSelected** (materialise, then join) and **TreeColumn** (a column and its tree kept
  in step) cover the joins.
- **ThreadPool** has the circular queue as a class, and the acceptor and workers as a state
  machine over every interleaving of their single reads and writes.

The order of the tree is a parameter B >= 4 (the code uses 128, and splits at B / 2).
Keys range over the 32-bit ints, counts wrap at 2^32. A shift of a 32-bit word by 32, which
C leaves open, is a parameter `over`; so is the slot behind a node's live keys that the
search may read. A column or tree file is a sequence of cells or nodes with its meta record.

What the proofs show about the code, beyond agreement:

- A bulk load whose number of values is a multiple of B - 1 (and not B - 1 itself) lets
  searches run into an interior node: `BulkSearch.SearchesRightIff`.
- The sorted select is wrong when nothing matches at either end of the column, when the
  matching range ends at the last place of a word (up to the shift by 32), and in a few
  corners stated exactly by `Selection.SortedWorks`.
- The merge join leaves its input exactly when the first right value has a match:
  `SortJoin.SortJoin`. On a left side that is not sorted it drops the rows that are smaller
  than one before them.
- Selecting a row twice into one variable leaves a count that is too high, and a deletion by it
  then deletes more rows than are marked: `Fetching.DeleteSelected`.
- Deleting marked rows is exact if and only if no row that moves forward is itself deleted:
  `Deletion.AscendingExact`, and `Deletion.DeletionExact` for positions in any order.
  Appending after a deletion writes behind the stale cells: `ColumnFile.Column.Append`.
  Sorted insertion of a value above the last one breaks the
  order: `ColumnFile.Column.InsertSorted`.
- Adding to an interior node moves one pointer too many. When the node gets full by an entry
  before its end this overwrites the leaf flag with the slot behind the pointers. A left half
  of a split keeps its old pointers there, so it turns into a leaf when it fills up from the
  front: exactly when, in `NodeBuffer.FillUp`. `BPlusTree.TreeFile.InsertRecord` says for each
  insertion whether this happens, from the file before it, and that searches go wrong if and
  only if it does. Only nodes that have been split can be hit (`WordsOnFile.OnlySplitNodes`), or
  the root of a bulk-loaded file, behind whose pointers rows are left: 8001 descending keys
  below 128 loaded ones are enough for order 128 (`LoadedRun.LoadedOverwrites`). Descending keys lead there from an empty tree of every order (but those
  whose half is a multiple of 256), at the 12288th key with the order 128 of the code:
  `DescendingRun.DescendingOverwrites`, `TreeColumn.InsertDescending`.
- A bulk load of distinct values is a tree that insertion can continue if and only if its last
  leaf is not full and no level below the root leaves a node partial: `BulkTree.LoadedTreeIff`. It hangs on
  an empty array and reads outside one that does not fill a leaf.

`dafny verify dfyconfig.toml` checks everything.

## Model

| member | source | states |
|---|---|---|
| Records.InsertSortedKeeps | bptree.c:85-133 | The reference insertion keeps strict key order and adds exactly the new record |
| Records.ScanIsSelect | bptree.c:40-59 | Over sorted records, giving up at the first key above the range loses nothing: the walk collects the full selection |
| Records.SelectMember | bptree.c:20-66 | A row is selected if and only if one of its records has its key in the range |
| Bounds.GetCeil | helper_math.c:153-156 | The smallest multiple of y that reaches x |
| Bounds.GetLowerBound | helper_math.c:8-45 | The lower bound, except that a number above every element yields the last index (not the size), and 0 for an empty column |
| Bounds.GetUpperBound | helper_math.c:52-87 | The upper bound, except that a single element always yields 1 |
| Bounds.GetUpperBoundFromArray | helper_math.c:94-133 | The upper bound within a node, for any content of the slot behind the live keys that the search reads |
| BitVectors.BitVector.constructor | bit_vector.c:11-19 | A new vector of the given size with no bit marked and count 0 |
| BitVectors.BitVector.IsMarked | bit_vector.c:33-43 | Shifting and masking the word reads the bit of the row |
| BitVectors.BitVector.Mark | bit_vector.c:52-62 | Exactly the row's bit is set; the count grows by one, modulo 2^32, whether or not the bit was set |
| BitVectors.BitVector.Unmark | bit_vector.c:63-66 | Exactly the row's bit is cleared; the count shrinks by one modulo 2^32 |
| BitVectors.BitVector.MarkAll | bit_vector.c:141-151 | Every bit is set, padding included, while the count becomes the size |
| BitVectors.BitVector.UnmarkAll | bit_vector.c:152-155 | No bit stays set and the count is 0 |
| BitVectors.BitVector.MarkByRange | bit_vector.c:101-128 | The old marks are erased and the words become those of the range masks; `over` stands for the machine's shift by 32 |
| BitVectors.BitVector.CopyFrom | bit_vector.c:45-50 | Size, count and all words of the source are taken over, the rest stays |
| BitVectors.CountAfterMark | bit_vector.c:52-62 | The count stays the number of marked rows if and only if the row marked was not marked before |
| BitVectors.RangeExact | bit_vector.c:101-128 | The range masks mark exactly low..high if and only if high is not the last place of a word or the shift by 32 yields 0 |
| BitVectors.EmptyRange | bit_vector.c:101-128 | A range ending just before its start marks nothing if and only if its start is not the first place of a word |
| BitVectors.MarkRowsBit | bit_vector.c:79-82 | After marking rows one by one a bit is set if and only if it was set before or its row is among them |
| TreeSteps.LeafAddStep | bptree.c:569-593 | Adding a record to a leaf with room keeps the whole tree invariant: order, separators, depth, parents, chain |
| TreeSteps.LeafSplitStep | bptree.c:236-273 | After a leaf split every part of the invariant holds but one: the level above owes the separator and the new leaf |
| TreeClimb.FindCreditor | bptree.c:316-325 | The node that a split's parent field names is the one that has to take the separator, at a definite place |
| TreeClimb.ParentAddStep | bptree.c:569-593 | A parent with room takes separator and pointer and the invariant is whole again |
| TreeClimb.ParentSplitStep | bptree.c:274-287 | A full parent splits, its moved children are re-parented, the debt below is paid and one debt is left one level up |
| TreeClimb.NewRootStep | bptree.c:292-313 | A new root over the two halves of the old one completes the invariant; parent 0 marks only it |
| TreeMoves.TakeRecord | bptree.c:194-202 | A leaf with room: invariant kept, contents become the sorted insertion, occupancy kept |
| TreeMoves.SplitLeaf | bptree.c:236-273 | A full leaf: after the split the contents are the sorted insertion, and exactly one debt is open |
| TreeMoves.PayInParent | bptree.c:194-202 | An interior node with room pays the debt without touching the contents |
| TreeMoves.PassOn | bptree.c:236-326 | A full interior node pays the debt by splitting and passes one on, contents unchanged |
| TreeMoves.GrowRoot | bptree.c:292-313 | A debt at the top level is paid by a new root |
| TreeMoves.OnlyRootMarked | bptree.c:292-326 | While a split climbs, the split node has parent 0 if and only if its level is the top one |
| TreeMoves.DebtAsks | bptree.c:316-325 | An open debt below the top is a well-placed request to exactly one node one level up |
| TreeMoves.Grant | bptree.c:194-202 | At any level, a node with room placed by the upper bound search grants the request and the tree is at rest |
| TreeMoves.GrantBySplit | bptree.c:236-287 | At any level, a full node grants the request by splitting; the halves, re-parented children and contents are as wanted |
| TreeMoves.ChildrenInPlace | bptree.c:279-287 | The pointers of a splitting interior node name distinct existing nodes one level down, each at its own place, so re-parenting writes each moved child once |
| TreeMoves.NextIsNoRoot | bptree.c:207-232 | No leaf reached through `next` has parent 0, so the overflow branch for duplicates is never entered |
| TreeMoves.OverflowUnused | bptree.c:207-232 | The same for every request an insertion makes |
| TreeMoves.RootSplits | bptree.c:292-313 | When the split node is the root, planting a new root over the halves gives a tree with the wanted contents |
| TreeMoves.ParentAsked | bptree.c:316-326 | Otherwise the parent that is loaded is asked for exactly the separator and the new node, one level up |
| TreeMoves.LeafAsked | bptree.c:120-128 | For a key not in the tree, the leaf the descent from the root arrives at can be asked to take it: its interval covers the key, and the key is not in it |
| TreeSearch.DescendEnds | bptree.c:138-178 | A descent through a walkable file ends at a leaf |
| TreeSearch.RootDescends | bptree.c:138-178 | The leaf reached for a key covers it, or starts exactly behind it: at most one leaf to the left of the first match |
| TreeSearch.TreeLinked | bptree.c:56-59 | The leaves of a tree, linked by `next` in key order, form a chain that ends with 0 and meets position 0 only first |
| TreeSearch.TreeSearchable | bptree.c:20-66 | Every tree kept by insertion meets what range search needs: descent, linked chain, landing place |
| TreeLemmas.NodePlaced | bptree.c:529-554 | The levels of a tree describe the whole file: no node is left without its place |
| TreeSearch.OutcomeIsSelect | bptree.c:20-66 | Starting wherever the descent lands and stopping early, a walk over sorted leaves returns the full selection in key order |
| TreeSearch.OneOutcome | bptree.c:20-66 | A range search of any file, in order or not, has one outcome: descent and walk leave no choice |
| TreeSearch.SearchableRight | bptree.c:20-66 | In a searchable file with sorted records every range search returns the full selection |
| TreeSearch.TreeAscends | bptree.c:189-330 | The stored keys of a tree ascend strictly along the chain |
| TreeSearch.NewKeyFits | bptree.c:138-178 | For a key not in the tree the leaf reached has the key inside its interval and not among its keys |
| TreeOccupancy.LevelLarge | bptree.c:236-330 | Level h - n of a tree of height h has at least 2 * S^(n-1) nodes |
| TreeOccupancy.TreeLarge | bptree.c:189-330 | A tree of height h >= 1 built by insertion holds at least 2 * S^h records, so the climb is logarithmic |
| BPlusTree.TreeFile.constructor | bptree.c:97-97 | An empty tree file is valid, holds nothing, and is vacuously half full |
| BPlusTree.TreeFile.MakeNewLeafOrNode | bptree.c:529-554 | The node gets the next free position; only leaves count towards `size` |
| BPlusTree.TreeFile.WriteNode | bptree.c:613-616 | What a node means and the words that lie on file for it are written together |
| BPlusTree.TreeFile.LoadNode | bptree.c:607-611 | A node is read with the flag and the pointers that lie on file; if the file agrees with the nodes, that is the node as meant |
| BPlusTree.TreeFile.WriteHalves | bptree.c:260-276 | The right half of a split is written into new words, the left one over the front of the words of the node that was split |
| BPlusTree.TreeFile.AddEntryToNode | bptree.c:569-593 | The entry stands at the upper bound of its key, and the words on file are what the moves make of them, the one pointer too many included |
| BPlusTree.TreeFile.AdoptChildren | bptree.c:279-287 | Exactly the children of the new node change, and only in their parent field; no words change |
| BPlusTree.TreeFile.Distribute | bptree.c:236-284 | The halves hold the first S and the remaining entries of the overfull node; an interior split lifts one key out |
| BPlusTree.TreeFile.CutNode | bptree.c:236-289 | Allocating, distributing and re-parenting together leave the file and halves that the split lemmas describe, and nothing changes at the level of the split or above |
| BPlusTree.TreeFile.PlantRoot | bptree.c:292-307 | Both halves name the new root, which has one key and two pointers, and the meta record names it |
| BPlusTree.TreeFile.InsertNode | bptree.c:189-330 | From any requested node: invariant, contents and half-fullness; nodes, words and root are those of the function EntryInserted; the file goes on saying what the nodes mean if and only if the addition that the climb ends with, as told from the file before it, does not spill, and otherwise that node is read back as a leaf |
| BPlusTree.TreeFile.SplitNode | bptree.c:236-326 | The same for a full node; the assertion after a root split holds |
| BPlusTree.TreeFile.InsertFirst | bptree.c:97-117 | The first record makes a root leaf at position 0, on file as meant |
| BPlusTree.TreeFile.InsertRecord | bptree.c:85-133 | For a new key and a file that says what its nodes mean: the nodes stay a valid tree, whose contents become the sorted insertion of the record; half-fullness is kept; nodes, words and root become those of the function Inserted, and the words behind the pointers are as After says; afterwards the file says what its nodes mean, and all range searches of a half-full tree are right, if and only if the insertion does not overwrite a leaf flag |
| BPlusTree.TreeFile.FindLeaf | bptree.c:138-178 | The loop over nodes and keys arrives at the leaf of the recursive descent |
| BPlusTree.TreeFile.ScanNode | bptree.c:42-55 | One node's part of the walk, and whether the walk stops in it |
| BPlusTree.TreeFile.WalkChain | bptree.c:40-59 | The walk along `next`, over the nodes as they are read, terminates and delivers exactly the scan of the nodes it visits, with the number of matches |
| BPlusTree.TreeFile.FindRecordInRangeType | bptree.c:20-66 | A range search of any file that a descent and a walk can pass, damaged or not, delivers its outcome, over the nodes as they are read, as appended row ids or as marks, and returns how many |
| BPlusTree.TreeFile.LoadLeaves | bptree.c:381-425 | Every leaf of a bulk load, with its keys, rows, promised parent and `next`; it fails exactly when there are fewer values than a leaf holds |
| BPlusTree.TreeFile.LoadLeaf | bptree.c:383-423 | One leaf, on file with the stale end of the buffer: the words of the leaf before it |
| BPlusTree.TreeFile.FillLeaf | bptree.c:387-405 | The unsigned test for the last leaf, wrap-around included, and the two copies; which copy reads behind the values |
| BPlusTree.TreeFile.LoadInterior | bptree.c:442-469 | One interior node; a partial one keeps the size and stale tail of the full one before it, and still every key is the first value below the pointer to its right |
| BPlusTree.TreeFile.LoadLevelNode | bptree.c:439-478 | Writing entry i over the front of the entry arrays never destroys an entry still to be read |
| BPlusTree.TreeFile.LoadLevel | bptree.c:438-480 | A level of a bulk load: new nodes guide searches, every node below has the parent promised to it, the new entries are in front |
| BPlusTree.TreeFile.LoadLevels | bptree.c:433-482 | Levels shrink until at most B nodes have no parent |
| BPlusTree.TreeFile.LoadRoot | bptree.c:483-495 | The root completes the file and the meta record names it; it is written from the same buffer, whose words stay behind its pointers |
| BPlusTree.TreeFile.BulkLoad | bptree.c:348-500 | Any array: it hangs on none, reads outside with fewer than B - 1 values; otherwise the loaded file agrees with its nodes, and each node has behind its pointers the words of the node before it; searching it is right under an exact condition, and over distinct ints it is a tree that insertion can continue under an exact condition |
| BPlusTree.FirstRecord | bptree.c:97-117 | A single leaf is a tree |
| Insertion.AdditionAgrees | bptree.c:569-593 | After an addition in place the file agrees with the nodes if and only if it does not spill; if it does, exactly that node is read back as a leaf |
| Insertion.HalvesAgree | bptree.c:256-307 | A split, with its re-parented children, keeps the file in agreement with the nodes |
| Insertion.EndsAbove | bptree.c:316-325 | Where the climb of a split ends, and in which words, can be told from the file before the split |
| Insertion.HandsOver | bptree.c:236-325 | A split below the top leads to the file with both halves and the separator asked of the parent; its ending is that of the request to the parent |
| Insertion.EndsAtRoot | bptree.c:292-313 | The split of a root leads to the file with a new root, and ends without an addition in place |
| Insertion.TreeFuel | bptree.c:138-178 | Counting the nodes is enough to bound every descent and climb |
| TreeDamage.DescentEndsEarly | bptree.c:138-178 | When a node has turned into a leaf, the descent for any key strictly inside its interval ends at it |
| TreeDamage.InnerKey | bptree.c:189-330 | Below every entry of a half-full tree there is a stored key strictly inside its interval |
| TreeDamage.TurnedLoses | bptree.c:20-66 | When an interior node of a half-full tree is read as a leaf, there is a stored key whose search returns nothing |
| TreeDamage.RightUnlessSpilled | bptree.c:569-593 | After an addition to a half-full tree all range searches are right if and only if it has not overwritten a leaf flag |
| FrontRun.FrontTakes | bptree.c:194-202 | A key into the first child of an interior node, when that has room: only this leaf changes, and keys below it land in it again |
| FrontRun.FrontSplits | bptree.c:236-330 | When the leaf is full, its upper half becomes the second child of the node, and the word behind the node's pointers moves up with them |
| FrontRun.NodeOverwrites | bptree.c:579-586 | That addition overwrites the flag if and only if the node had B - 2 keys and the word a nonzero low byte |
| FrontRun.FrontFatal | bptree.c:569-593 | Descending keys into the first child of any interior node of any tree fill it up from its front; no flag is overwritten before the last insertion, and by that if and only if the word that lay behind its pointers at the start is no multiple of 256 |
| LoadedRun.RootWord | bptree.c:483-495 | The word that loading leaves behind the pointers of a root over n leaves: row n of the last leaf, or of the one before if that is shorter, or a slot never written |
| LoadedRun.LoadedOverwrites | bptree.c:569-593 | Descending keys into a file loaded into n leaves, 2 to B - 1 of them: no insertion before number 1 + (B - B/2) * (B - 1 - n) overwrites a leaf flag, and that one does if and only if the stale row is no multiple of 256 |
| DescendingRun.RunReaches | bptree.c:85-133 | What descending keys have built after any number of insertions before the first interior node splits, none of which overwrites a flag |
| DescendingRun.LeftHalfFront | bptree.c:256-276 | The first split of an interior node leaves behind the pointers of the left half the child that was there |
| DescendingRun.RightHalfFront | bptree.c:533-534 | and behind those of the right half nothing; the keys directly above the separator belong to its first child |
| DescendingRun.DescendingOverwrites | bptree.c:569-593 | Descending keys into an empty tree of any order B: no insertion before number Fatal(B), which is 3 * (B/2) * (B/2) for even B, overwrites a leaf flag, and that one does unless the stale word, 1 or B - B/2, is a multiple of 256 |
| DescendingRun.RightHalfFills | bptree.c:569-593 | The right half of the same split can be filled from its front, for any order, and no insertion of the run overwrites a flag |
| WordsOnFile.RunClean | bptree.c:529-554 | Over every run from the empty tree: behind the pointers of an interior node that has not been split itself, a new right half or root included, all words are 0 |
| WordsOnFile.OnlySplitNodes | bptree.c:569-593 | So an insertion overwrites the leaf flag only of an interior node that has been split |
| WordsOnFile.EntryAfter | bptree.c:189-330 | For a request to any node of any tree: the words behind the pointers of each interior node afterwards are those before, moved on by the one addition in place, or the children from before its split; new nodes have nothing there; and each half that was split off is linked behind the other, at every level |
| WordsOnFile.InsertedAfter | bptree.c:85-133 | The same for the insertion of a record |
| BulkShape.LeavesCover | bptree.c:372-374 | The leaves cover all values, and the last leaf is full if and only if their number is a multiple of B - 1 |
| BulkShape.BufferKept | bptree.c:443-463 | Copying the rest of a level over the front of the reused buffer keeps keys and pointers aligned across the stale tail |
| BulkShape.LevelStep | bptree.c:439-475 | When node i is built, the entries it needs lie behind everything already overwritten |
| BulkShape.LevelDone | bptree.c:466-478 | A finished level: its entries for the next level, and every node below has its promised parent |
| BulkShape.ChildHasParent | bptree.c:420-468 | The parent promised to a node when it was written is the node that later points to it |
| BulkShape.GuidedDescends | bptree.c:138-178 | A descent through a loaded file, stale pointers included, reaches the leftmost leaf or one whose first value is smaller than the key |
| BulkShape.LeavesHold | bptree.c:381-425 | The leaves from any one on hold the values from its start on, with their indices |
| BulkShape.LevelsShrink | bptree.c:428-433 | The loop over levels stops exactly when one node can take all entries, and each level is smaller |
| BulkShape.RootDone | bptree.c:483-495 | Root, levels and leaves together form a loaded file |
| BulkSearch.LoadedSearchable | bptree.c:348-500 | A loaded file of sorted values can be searched along the chain the walk really follows |
| BulkSearch.ChainStored | bptree.c:381-425 | That chain holds all values and, after a full last leaf, the separators of the first interior node as well |
| BulkSearch.LoadedSelects | bptree.c:20-66 | Unless the last of several leaves is full, every search returns exactly the matching indices, duplicates included, at any number of levels |
| BulkSearch.OverrunFound | bptree.c:396-405 | With a full last leaf behind others, the search from the first to the last value has an outcome that returns too much |
| BulkSearch.SearchFails | bptree.c:396-405 | Hence with a full last leaf behind others that search is wrong |
| BulkSearch.SearchesRightIff | bptree.c:348-500 | All searches are right if and only if the number of values is not a multiple of B - 1, or is B - 1 |
| BulkShape.StoreyDone | bptree.c:439-478 | Each level of a loaded file: who names whom as parent, who points to whom, and where a partial node's last pointer leads |
| BulkTree.RowBelow | bptree.c:454-469 | Without stale tails a level is exactly the children of the level above, with their key intervals |
| BulkTree.LoadedTree | bptree.c:348-500 | Over distinct ints, at any height: with a last leaf that is not full and a multiple of B nodes on every level of more than B, the loaded file is a tree at rest with exactly these records |
| BulkTree.FullLeafBreaks | bptree.c:396-405 | No levels describe a file whose last leaf is full |
| BulkTree.StaleTailBreaks | bptree.c:443-458 | No levels describe a file in which some level below the root leaves a node partial: its last pointer leads to a child of another node |
| BulkTree.LoadedTreeIff | bptree.c:348-500 | So the file is a tree if and only if the last leaf is not full and every level of more than B nodes has a multiple of B nodes |
| Columns.ScanExact | helper_variable.c:90-95 | The reference scan lists exactly the matching rows, ascending, each once |
| Columns.ScanSorted | helper_variable.c:133-148 | In a sorted column the matching rows are consecutive |
| Columns.MarkedExact | helper_updates.c:20-27 | The marked rows listed are exactly the marked ones, ascending |
| Columns.MarkedCount | helper_updates.c:16-29 | There are as many as bits set |
| Columns.MarkAndRead | helper_updates.c:16-29 | Marking ascending rows in an empty vector and reading the marks back gives the same rows |
| Selection.MarkUnsorted | helper_variable.c:79-95 | The plain scan marks exactly the matching rows and returns their number |
| Selection.MarkUnsortedBlocks | helper_variable.c:97-120 | The block-wise scan marks the matching cells of whole blocks, stale cells included, and returns their number |
| Selection.BlocksAgree | helper_variable.c:79-120 | Both scans select the same rows if and only if no stale cell of the last block matches |
| Selection.MarkSorted | helper_variable.c:133-148 | It writes outside the vector exactly for an empty column. Otherwise the vector, which may hold marks of an earlier use of the variable, ends with exactly the rows a scan selects if and only if SortedWorks holds and a single matching row has not been added to other marks. The number returned is that of the scan if and only if a row matches or the gap lies inside the column, whatever the shift yields and whatever is marked; the count becomes it, but for a single row, which adds one |
| Selection.SortedSelectExact | helper_variable.c:133-148 | The marks that either path leaves, the one that adds a row and the one that replaces all marks, and when they are those of a scan |
| Selection.SortedFails | helper_variable.c:133-148 | Three columns and ranges that SortedWorks excludes |
| Selection.SelectBelowRange | helper_variable.c:133-148 | A run: selecting 9 from a column that holds 7 marks its row |
| Selection.SortedMatches | helper_variable.c:133-148 | The matching rows of a sorted column are those between its bounds |
| Selection.IndicesAre | helper_math.c:8-87 | Which indices the two searches really yield, corner cases included |
| Selection.RangeIsExact | bit_vector.c:101-128 | When the words of a range marking hold exactly the rows between two bounds, the empty range included |
| Selection.MarkedAsScan | helper_variable.c:133-148 | Marks equal those of the scan if and only if they are the rows between the bounds |
| Fetching.GetPositions | helper_updates.c:5-33 | Row ids are copied; otherwise the array holds the marked rows in order and zeros behind them, and has no further place if and only if the count of the vector is right |
| Fetching.MarkedPositions | helper_updates.c:14-30 | The loop over the vector that does the latter |
| Fetching.DeleteSelected | worker.c:190-203 | Deleting at the positions of a vector: the rows that the marked rows leave, and with a count too high as many rows less, the first one and the last ones, but for one that takes the first place |
| Fetching.DeleteSelectedTwice | helper_variable.c:21-23 | A run: row 2 of four has been selected twice into one variable; deleting by it loses row 0 as well |
| Fetching.FetchFromRowIds | helper_fetch_command.c:15-41 | The values at the ids, in the order of the ids |
| Fetching.FetchFromVector | helper_fetch_command.c:47-82 | The block-wise fetch returns the marked values in row order, and zeros behind them, in an array of `count` places, for every column length |
| Fetching.FetchesAgree | helper_fetch_command.c:47-82 | Without stale cells the fetch through the vector is the fetch at the extracted positions |
| Fetching.Materialise | worker.c:678-699 | The pairs are value and position of the marked rows in order, and pairs of zeros behind them; the counter is the number of marks, so it meets the array's size exactly when the count is right |
| JoinPairs.LoopJoin | helper_join.c:14-36 | The nested loops, into two new lists, are the reference join |
| JoinPairs.LoopMember | helper_join.c:14-36 | A pair of positions is in the result if and only if rows with these positions have equal values |
| JoinPairs.LoopOnce | helper_join.c:14-36 | Over distinct positions each such pair occurs exactly once |
| JoinPairs.LoopsExchange | helper_join.c:24-33 | Exchanging the loops gives the same matches, each as often |
| HashJoin.CountBits | helper_join.c:227-236 | The number of bits is the binary length of a sixteenth of the rows, rounded up, so buckets hold fewer than 16 rows on average |
| HashJoin.CountBuckets | helper_join.c:241-245 | The first pass counts the rows of each bucket, for all integers |
| HashJoin.Accumulate | helper_join.c:250-256 | Counts become the offset of each bucket |
| HashJoin.OffsetTotal | helper_join.c:249-257 | The buckets together hold every row |
| HashJoin.PlaceRow | helper_join.c:272-278 | Each placement extends its own bucket at its end and disturbs no other: the sort is stable |
| HashJoin.FillTable | helper_join.c:259-278 | In the end bucket b lies from its offset to its counter, in input order |
| HashJoin.BucketSuffices | helper_join.c:281-295 | All matches of a row lie in its own bucket, in the order of the whole table |
| HashJoin.HashAndProbe | helper_join.c:241-295 | The probe emits exactly the sequence of the nested loops with the probing side outside |
| HashJoin.HashJoin | helper_join.c:196-300 | With a larger left side the sequence of the loop join, otherwise that of the loops exchanged |
| HashJoin.HashIsLoop | helper_join.c:196-300 | Hash join and loop join return the same matches, each as often |
| SortJoin.EmitBack | helper_join.c:88-95 | Downwards from the row before the cursor, the rows of the value one after the other, row 0 excepted |
| SortJoin.EmitOn | helper_join.c:96-103 | Upwards from the row behind the cursor, likewise |
| SortJoin.EmitRun | helper_join.c:81-105 | One left row: exactly its contribution to MergeMatches, and the cursor at the end of the run |
| SortJoin.SortJoin | helper_join.c:51-113 | For sides in any order: it stays inside the right side if and only if no left row that is not smaller than any row before it equals the first right row, and then returns exactly the sequence MergeMatches. On a sorted right side these are the matches of the loop join for those left rows, each as often; on two sorted sides all matches |
| SortJoin.MergeIsLoop | helper_join.c:71-110 | MergeMatches against the nested loops: no wrong match and none twice in any case; on a sorted right side exactly the matches of the left rows that are not smaller than any row before them |
| SortJoin.RowsMeet | helper_join.c:78-81 | When the cursors meet, the left row leads, and the right cursor is at the start of the run, or at its end if the value has been met before |
| SortJoin.SortJoinLoses | helper_join.c:71-110 | A run with a left side that is not sorted: the smaller row behind a greater one loses its match |
| SortJoin.MergeFails | helper_join.c:88-90 | A run: with one equal row on each side it leaves |
| TreeJoin.TreeJoin | helper_join.c:123-183 | For each materialised row in order, the marked tree rows of equal value; remembering the last search changes nothing |
| TreeJoin.TreeJoinIsLoop | helper_join.c:123-183 | If the tree holds the column's values with their rows, the tree join returns what the loop join returns on the selected rows of that column |
| JoinSelected.JoinExact | worker.c:668-719 | After materialising two selections, in whatever order, loop join and hash join return each pair of selected rows with equal values exactly once and nothing else |
| JoinSelected.SortJoinSelected | worker.c:701-716 | So does the sort join over selections sorted by value, unless it leaves the right side. A selection of a B+ tree column after insertions is passed on unsorted: on the left, each pair of selected rows with equal values is returned once if its left row is not smaller than any row before it, and nothing else |
| JoinSelected.TreeJoinedOnce | worker.c:720-722 | So does the tree join of a column held by a tree with a materialised selection of another |
| ColumnFile.Column.Append | helper_insert.c:43-76 | The value goes to the physical end; that appends it to the column if and only if the file has no stale cell there (or one with the same value) |
| ColumnFile.AppendExact | helper_insert.c:60-64 | When a value written at the end of the file follows the last value of the column |
| ColumnFile.AppendFails | helper_insert.c:60-64 | A run: after 4 and 5, deleting the first, an appended 9 lies behind the stale cell, and the column ends with 5 |
| ColumnFile.SortedInsertExact | helper_insert.c:18-22 | When inserting where the lower bound search points to keeps the order; nothing is lost in any case |
| ColumnFile.InsertFails | helper_insert.c:18-22 | A run: inserting 9 into 4 and 6 breaks the order |
| ColumnFile.Column.InsertAt | helper_insert.c:86-147 | The new file holds the values before the index, the new one, and the rest, and no stale cells |
| ColumnFile.Column.InsertSorted | helper_insert.c:18-22 | Adds exactly the value; the order survives if and only if the column was empty or the value does not exceed its last one |
| ColumnFile.Column.Delete | helper_updates.c:46-71 | The remaining values are the old ones at the rows of the index map, and all cells of the file, freed ones included, are those of CellsAfter |
| ColumnFile.DeleteRows | worker.c:190-203 | Deleting the same positions from several columns: one index map for all of them |
| Deletion.DropsByMap | helper_updates.c:53-64 | The index map depends on length and positions only |
| Deletion.DeletionExact | helper_updates.c:53-64 | Positions in any order: exactly the other rows survive, each once, if and only if the positions are distinct and no deleted row is moved into a place that remains |
| Deletion.MapOfMovers | helper_updates.c:53-64 | With distinct positions, what each place holds in the end: its own row, or the one a chain of moves has brought there |
| Deletion.CellsOfMovers | helper_updates.c:53-64 | With distinct positions every cell of the file, freed or not, keeps its value or has the one the chain of moves brings to it |
| Deletion.ZerosBehind | helper_updates.c:53-64 | What further deletions at position 0 do to the rows left |
| Deletion.NeverTwice | helper_updates.c:53-64 | For any positions, no row is held twice |
| Deletion.UndisturbedSurvive | helper_updates.c:53-64 | A sufficient condition: if every position still holds its own row when its turn comes, exactly the undeleted rows survive |
| Deletion.DescendingWorks | helper_updates.c:53-64 | Strictly descending positions delete exactly their rows |
| Deletion.DistinctLowWorks | helper_updates.c:53-64 | So do distinct positions below size minus their number |
| Deletion.AscendingMap | helper_updates.c:53-64 | With ascending positions the u-th one receives the u-th row from the end |
| Deletion.AscendingExact | helper_updates.c:53-64 | Ascending positions delete exactly their rows if and only if no row that moves forward is itself deleted |
| Deletion.MarkedDeletion | worker.c:190-203 | The same for the positions that a vector marks, which is what a delete command passes on |
| Deletion.WrongRowSurvives | helper_updates.c:53-64 | Of three rows, deleting the first and the last keeps the last |
| TreeColumn.InsertRecords | bptree.c:85-133 | Over any run of insertions with new distinct keys, up to the first that overwrites a leaf flag: the nodes hold, in strict key order, exactly what they held and what was inserted; they, their words and the root are those of the run; the file says what they mean, and all range searches of a half-full tree are right, if and only if no insertion of the run overwrote a flag |
| TreeColumn.InsertValue | helper_insert.c:23-27 | Tree and plain file stay aligned: the records are exactly the values with their rows; and when the file goes on saying so, and searches stay right, exactly |
| TreeColumn.InsertValues | helper_insert.c:23-27 | The same over any run of distinct new values, up to the first that overwrites a flag |
| TreeColumn.MarkThroughTree | bptree.c:69-72 | A select through a tree whose file, as it is read, indexes a column marks the same bits, with the same count and result, as a scan of the column |
| TreeColumn.AlignedIndexes | helper_insert.c:23-27 | A tree kept aligned by insertions indexes its column as long as its file says what the nodes mean |
| TreeColumn.LoadedIndexes | bptree.c:348-500 | So does a bulk-loaded file of any height, duplicates included, unless the last of several leaves is full |
| TreeColumn.IndexesJoin | helper_join.c:123-183 | A tree that indexes a column can be tree-joined, with the result of a loop join over the selected rows |
| TreeColumn.InsertAndSelect | worker.c:303-305 | Inserting a run that overwrites no flag and then selecting through the tree marks what a scan of the column with the new values marks |
| TreeColumn.InsertDescending | bptree.c:569-593 | Descending keys, from an empty tree of any order whose stale word is no multiple of 256: after the fatal insertion the nodes as meant hold every record, the file does not say so any more, and some range search is wrong |
| TreeColumn.LoadAndInsert | bptree.c:348-500 | Loading an array into several leaves and inserting descending keys: the file says what its nodes mean afterwards if and only if the stale row is a multiple of 256 |
| TreeColumn.FillRightHalf | bptree.c:569-593 | Filling a right half from its front: the file says what its nodes mean, and all range searches are right |
| NodeBuffer.ChildPut | bptree.c:579-586 | On the words of an interior node: the live pointers come out right, and the flag word is overwritten, with the slot behind the pointers, exactly when the node gets full by an entry before its end |
| NodeBuffer.RowPut | bptree.c:576-578 | On the words of a leaf: the rows come out right and the flag stays |
| NodeBuffer.EntryPut | bptree.c:569-593 | The node on file is the one meant after an addition if and only if it does not spill |
| NodeBuffer.EntrySeen | bptree.c:569-593 | After an addition that spills the node is read back as a leaf with its separators for keys and its children for rows |
| NodeBuffer.ReadBack | bptree.c:607-611 | A file that agrees with its nodes is read back as they are |
| NodeBuffer.LeftHalfKeeps | bptree.c:258-276 | The left half of a split keeps all words behind its own pointers |
| NodeBuffer.WordsBehind | bptree.c:579-586 | Over any additions to one node: which of its original words lies behind its pointers |
| NodeBuffer.FillUp | bptree.c:579-586 | A node that fills up entry by entry turns into a leaf if and only if the last entry goes before the end and the original word two behind the last size at which an entry went to the end has a nonzero low byte |
| NodeBuffer.StaysInterior | bptree.c:579-586 | Before it is full it never does |
| NodeBuffer.Buffer.AddEntry | bptree.c:569-593 | The code on the buffer finds the upper bound, moves the keys, and does to the words what the functions above say |
| NodeBuffer.Buffer.AddChild | bptree.c:579-586 | The overlapping move and the write, on the array |
| ThreadPool.AddedExact | threadpool.c:35-46 | A socket joins the queue at its end if and only if fewer than 100 wait (or it overwrites its own number) |
| ThreadPool.TakenExact | threadpool.c:49-64 | Taking removes the first of the queue, across the wrap-around |
| ThreadPool.Pool.AddNewSocket | threadpool.c:35-46 | The method on the circular array |
| ThreadPool.Pool.GetSocket | threadpool.c:49-64 | The method on the circular array |
| ThreadPool.StepExclusive | worker.c:36-45 | Every step keeps mutual exclusion |
| ThreadPool.AcceptorInforms | server.c:75-78 | With the lock held, no step of the acceptor makes what somebody has read from the queue out of date |
| ThreadPool.WorkerInforms | worker.c:36-45 | Nor does a step of a worker |
| ThreadPool.WorkerKeepsView | threadpool.c:56-60 | Moving and wrapping the head, loading and storing the count leave the queue that the removal is about |
| ThreadPool.ReadTakes | threadpool.c:53-53 | Reading the cell takes the first socket of that queue |
| ThreadPool.StepInOrder | threadpool.c:35-64 | Every single read or write keeps, through half-finished additions and removals: handed out, waiting and in the acceptor's hand are together what was accepted, in order |
| ThreadPool.StepTickets | worker.c:41-45 | Every step keeps: a worker serves a socket that was handed to it |
| ThreadPool.StepNoneForgotten | worker.c:36-39 | Every step keeps: while a worker sleeps, each waiting socket has a worker on its way or a signal about to come, although testing the count and going to sleep are two steps |
| ThreadPool.StepKeeps | worker.c:36-45 | Every step of the acceptor or of a worker keeps all of these together |
| ThreadPool.EveryRun | server.c:63-81 | In every interleaving of single reads and writes, at every moment, all of these hold and the sockets handed out are a prefix of those accepted |
| ThreadPool.NextStep | server.c:75-78 | In every state with fewer than 100 waiting there is a step that brings the next socket closer to a worker |
| ThreadPool.NobodyStuck | worker.c:36-45 | So from every such state of a run there is a way on, without a new connection, to hand the next accepted socket to a worker: no lock is kept and nobody waits in vain |

## Left out

- BPlusTree.TreeFile.InsertRecord: requires a key that is not in the tree yet. The code declares duplicates unsupported (bptree.c:309-311) and places a separator equal to an existing one by the upper bound. It also requires a file that says what its nodes mean: what a further insertion does to a file with an overwritten leaf flag is not described, only what searches do.
- TreeColumn.InsertRecords: a run goes up to and including the first insertion that overwrites a flag, for the same reason; so do InsertValue and InsertValues.
- TreeClimb.ParentAddStep: about what the nodes mean, like all of TreeSteps, TreeClimb and TreeMoves; the words on file are followed in NodeBuffer and in TreeFile.
- TreeMoves.PayInParent: likewise.
- TreeMoves.Grant: likewise; Insertion.AdditionAgrees and TreeFile.InsertNode join the two.
- NodeBuffer.Buffer.AddEntry: assumes that the flag is the first byte of the word behind the pointers, as a little-endian machine with 4-byte words lays it out. Keys, parent, size, `next` and position lie apart from these words and are not part of them.
- BPlusTree.TreeFile.BulkLoad: the comparison at bptree.c:407, which reads one value behind a full last leaf, has no effect without the TEST switch and is not modelled.
- Selection.MarkSorted: a vector that a reused variable name hands back may have been made for a shorter column; the model takes it to be long enough for the rows of this one.
- JoinSelected.SortJoinSelected: for a right side that is not sorted the result is the sequence MergeMatches, but what that is in terms of the selected rows is only that it has no wrong pair and none twice.
- ThreadPool.NobodyStuck: shows that there is always a way on, not that a scheduler takes it.
- ThreadPool.StepInOrder: the acceptor adds only while fewer than 100 sockets wait; ThreadPool.AddedExact shows that the queue breaks otherwise. Incrementing the head of the queue is one step.
- BPlusTree.TreeFile.FindRecordInRangeType: requires a non-empty tree; the code loads the root without asking.
- BPlusTree.TreeFile.InsertFirst: the second copy of the meta record, which bptree.c:114 writes at the place of node 1 and the next node written there replaces, is not part of the file; a new file is taken to name root 0.
- SortJoin.SortJoin: what the code does after reading outside the right side is not described; `ok` is false then.
- JoinPairs.LoopJoin: the two result variables of a join, here and in the other joins, are taken to be different objects.
- HashJoin.Bucket: masking with 2^k - 1 is written as the remainder modulo 2^k of the unsigned value.
- ColumnFile.Column.Delete: only positions inside the column, which is what variables hold.
- Sockets, client, CSV loading, the regex parser and command dispatch: plumbing around the parts modelled.
- `qsort` with `compare_int`: a permutation sorted by value is assumed; the subtraction in the comparator can overflow for values more than 2^31 apart.
- File opening, seeking, read and write failures, memory management: a file is a value with its meta record.
- The growing list of list.c is a sequence; a variable is its ids, its vector, or its values.
- Aggregation, arithmetic operators, tuple reconstruction, `update_helper`, printing: they would only add easy members.
- Concurrent access of several workers to one column file: the code takes no lock there, so there is nothing to prove.
