/** A column with a B+ tree index: every value is inserted into the tree with its row, and
    appended to a plain file that is read by position (helper_insert.c). */
module TreeColumn {
  import opened Bounds
  import opened BulkSearch
  import opened BulkShape
  import opened BitVectors
  import opened Records
  import opened Columns
  import opened ColumnFile
  import opened Fetching
  import opened JoinPairs
  import opened BulkTree
  import opened DescendingRun
  import opened FrontRun
  import opened LoadedRun
  import opened Insertion
  import opened NodeBuffer
  import opened TreeShape
  import opened TreeLemmas
  import opened TreeSearch
  import opened BPlusTree
  import opened TreeJoin
  import opened TreeOccupancy

  /** The tree holds exactly the pairs of a value and its row. */
  ghost predicate Aligned(tree: TreeFile, c: Column)
    reads tree, c
  {
    && tree.Valid() && c.Valid() && c.size == |c.cells|
    && multiset(tree.Stock()) == multiset(Indexed(c.Values(), 0))
  }

  lemma NewKey(stock: seq<Record>, s: seq<int>, key: int)
    requires multiset(stock) == multiset(Indexed(s, 0)) && key !in s
    ensures !HasKey(stock, key)
  {
    forall i | 0 <= i < |stock|
      ensures stock[i].key != key
    {
      assert stock[i] in multiset(Indexed(s, 0));
      assert stock[i] in Indexed(s, 0);
    }
  }

  /** The records of a B+ tree file ascend, so together with their multiset they are known. */
  lemma StockAscends(tree: TreeFile)
    requires tree.Valid()
    ensures KeysAscend(tree.Stock())
  {
    if tree.size > 0 {
      TreeAscends(tree.B, tree.nodes, tree.levels, tree.rank, tree.root);
    }
  }

  ghost predicate DistinctKeys(rs: seq<Record>) {
    forall i, j :: 0 <= i < j < |rs| ==> rs[i].key != rs[j].key
  }

  /** A new key for every prefix of a run. */
  lemma NextKeyNew(stock0: seq<Record>, stock: seq<Record>, rs: seq<Record>, i: nat)
    requires i < |rs| && DistinctKeys(rs) && !HasKey(stock0, rs[i].key)
    requires multiset(stock) == multiset(stock0) + multiset(rs[..i])
    ensures !HasKey(stock, rs[i].key)
  {
    forall k | 0 <= k < |stock|
      ensures stock[k].key != rs[i].key
    {
      assert stock[k] in multiset(stock0) + multiset(rs[..i]);
      assert stock[k] in stock0 || stock[k] in rs[..i];
    }
  }

  /** A run of insertions with new, distinct keys, up to the first one, if any, that overwrites
      the flag of an interior node: the leaves hold, in strict key order, exactly what they held
      before and what was inserted, and the nodes and their words are those of the run.  The
      file says what the nodes mean, and all range searches over a half-full tree are right, if
      and only if no insertion overwrote a flag. */
  method InsertRecords(tree: TreeFile, rs: seq<Record>)
    requires tree.Valid() && tree.OnDisk() && DistinctKeys(rs)
    requires forall i :: 0 <= i < |rs| ==> INT_MIN <= rs[i].key < INT_END && !HasKey(tree.Stock(), rs[i].key)
    requires HarmlessSoFar(tree.B, tree.State(), rs)
    modifies tree
    ensures tree.Valid() && KeysAscend(tree.Stock())
    ensures multiset(tree.Stock()) == multiset(old(tree.Stock())) + multiset(rs)
    ensures old(tree.HalfFull()) ==> tree.HalfFull()
    ensures tree.State() == old(Run(tree.B, tree.State(), rs))
    ensures tree.OnDisk() <==> old(Harmless(tree.B, tree.State(), rs))
    ensures old(tree.HalfFull()) && rs != [] ==>
              (SearchesRight(tree.View(), tree.root, tree.Stock()) <==> old(Harmless(tree.B, tree.State(), rs)))
  {
    hide HasKey, InsertSorted, TreeFile.Sound, Occupied, TreeShape.Stock, FileAgrees, Overwrites, Inserted, Run, Harmless,
         SeenAs, SearchesRight, NodeBuffer.View, TreeFile.Valid, TreeFile.HalfFull, TreeFile.Stock;
    ghost var stock0, st0 := tree.Stock(), tree.State();
    RunStarts(tree.B, st0, rs);
    var i := 0;
    while i < |rs|
      invariant 0 <= i <= |rs| && tree.Valid()
      invariant multiset(tree.Stock()) == multiset(stock0) + multiset(rs[..i])
      invariant old(tree.HalfFull()) ==> tree.HalfFull()
      invariant tree.State() == Run(tree.B, st0, rs[..i])
      invariant tree.OnDisk() <==> Harmless(tree.B, st0, rs[..i])
      invariant i > 0 && old(tree.HalfFull()) ==>
                  (SearchesRight(tree.View(), tree.root, tree.Stock()) <==> Harmless(tree.B, st0, rs[..i]))
    {
      HarmlessBefore(tree.B, st0, rs, i);
      InsertNext(tree, rs, i, st0, stock0);
      i := i + 1;
    }
    assert rs[..i] == rs;
    StockAscends(tree);
  }

  /** One insertion of a run. */
  method InsertNext(tree: TreeFile, rs: seq<Record>, i: nat, ghost st0: Store, ghost stock0: seq<Record>)
    requires tree.Valid() && tree.OnDisk() && DistinctKeys(rs) && i < |rs|
    requires INT_MIN <= rs[i].key < INT_END && !HasKey(stock0, rs[i].key)
    requires multiset(tree.Stock()) == multiset(stock0) + multiset(rs[..i])
    requires tree.State() == Run(tree.B, st0, rs[..i]) && Harmless(tree.B, st0, rs[..i])
    modifies tree
    ensures tree.Valid()
    ensures multiset(tree.Stock()) == multiset(stock0) + multiset(rs[..i + 1])
    ensures old(tree.HalfFull()) ==> tree.HalfFull()
    ensures tree.State() == Run(tree.B, st0, rs[..i + 1])
    ensures tree.OnDisk() <==> Harmless(tree.B, st0, rs[..i + 1])
    ensures old(tree.HalfFull()) ==>
              (SearchesRight(tree.View(), tree.root, tree.Stock()) <==> Harmless(tree.B, st0, rs[..i + 1]))
  {
    hide HasKey, InsertSorted, TreeFile.Sound, Occupied, TreeShape.Stock, FileAgrees, Overwrites, Inserted, Run, Harmless,
         SeenAs, SearchesRight, DistinctKeys, KeysAscend;
    ghost var stock := tree.Stock();
    NextKeyNew(stock0, stock, rs, i);
    StockAscends(tree);
    InsertSortedKeeps(stock, rs[i]);
    RunOn(tree.B, st0, rs, i);
    tree.InsertRecord(rs[i].key, rs[i].row);
    assert rs[..i + 1] == rs[..i] + [rs[i]];
  }

  lemma RunStarts(B: nat, st: Store, rs: seq<Record>)
    ensures Run(B, st, rs[..0]) == st && Harmless(B, st, rs[..0])
  {
  }

  lemma HarmlessThroughout(B: nat, st: Store, rs: seq<Record>)
    requires Harmless(B, st, rs)
    ensures HarmlessSoFar(B, st, rs)
  {
    hide Harmless, Run, Overwrites, Inserted;
    if rs != [] {
      RunOn(B, st, rs, |rs| - 1);
      assert rs[..|rs|] == rs;
    }
  }

  lemma HarmlessBefore(B: nat, st: Store, rs: seq<Record>, i: nat)
    requires i < |rs| && Harmless(B, st, rs[..|rs| - 1])
    ensures Harmless(B, st, rs[..i])
  {
    hide Overwrites, Run;
    var all := rs[..|rs| - 1];
    forall k | 0 <= k < i
      ensures rs[..i][..k] == all[..k] && rs[..i][k] == all[k]
    {
    }
  }

  /** Inserts one new value into the column. */
  method InsertValue(tree: TreeFile, c: Column, num: int)
    requires Aligned(tree, c) && tree.OnDisk() && INT_MIN <= num < INT_END && num !in c.Values()
    modifies tree, c
    ensures Aligned(tree, c) && c.Values() == old(c.Values()) + [num]
    ensures old(tree.HalfFull()) ==> tree.HalfFull()
    ensures tree.State() == old(Inserted(tree.B, tree.State(), Record(num, c.size)))
    ensures tree.OnDisk() <==> !old(Overwrites(tree.B, tree.State(), num))
    ensures tree.size > 0 && (old(tree.HalfFull()) ==>
              (SearchesRight(tree.View(), tree.root, tree.Stock()) <==> !old(Overwrites(tree.B, tree.State(), num))))
  {
    hide HasKey, InsertSorted, TreeFile.Sound, Occupied, TreeShape.Stock, FileAgrees, Overwrites, Inserted, SeenAs, SearchesRight;
    ghost var stock, s := tree.Stock(), c.Values();
    NewKey(stock, s, num);
    StockAscends(tree);
    InsertSortedKeeps(stock, Record(num, c.size));
    tree.InsertRecord(num, c.size);
    c.Append(num);
    IndexedPush(s, num);
  }

  lemma IndexedPush(s: seq<int>, val: int)
    ensures Indexed(s + [val], 0) == Indexed(s, 0) + [Record(val, |s|)]
  {
  }

  /** Distinct ints that the column does not hold. */
  ghost predicate NewValues(nums: seq<int>, s: seq<int>) {
    && (forall i :: 0 <= i < |nums| ==> INT_MIN <= nums[i] < INT_END && nums[i] !in s)
    && (forall i, j :: 0 <= i < j < |nums| ==> nums[i] != nums[j])
  }

  /** New values of a column with the rows they are going to have. */
  ghost function Rowed(c: Column, nums: seq<int>): seq<Record>
    requires c.Valid()
    reads c
  {
    Indexed(c.Values() + nums, |c.Values()|)
  }

  lemma RowedFits(c: Column, nums: seq<int>)
    requires c.Valid()
    ensures |Rowed(c, nums)| == |nums|
    ensures forall i :: 0 <= i < |nums| ==> Rowed(c, nums)[i] == Record(nums[i], |c.Values()| + i)
  {
    IndexedAt(c.Values() + nums, |c.Values()|);
  }

  /** Inserts a run of distinct new values, again up to the first that overwrites a flag. */
  method InsertValues(tree: TreeFile, c: Column, nums: seq<int>)
    requires Aligned(tree, c) && tree.OnDisk() && NewValues(nums, c.Values())
    requires HarmlessSoFar(tree.B, tree.State(), Rowed(c, nums))
    modifies tree, c
    ensures Aligned(tree, c) && c.Values() == old(c.Values()) + nums
    ensures old(tree.HalfFull()) ==> tree.HalfFull()
    ensures tree.State() == old(Run(tree.B, tree.State(), Rowed(c, nums)))
    ensures tree.OnDisk() <==> old(Harmless(tree.B, tree.State(), Rowed(c, nums)))
    ensures old(tree.HalfFull()) && nums != [] ==>
              (SearchesRight(tree.View(), tree.root, tree.Stock()) <==> old(Harmless(tree.B, tree.State(), Rowed(c, nums))))
    ensures nums != [] ==> tree.size > 0
  {
    hide TreeFile.Sound, Occupied, TreeShape.Stock, FileAgrees, Overwrites, Inserted, Run, Harmless, SearchesRight;
    ghost var s, st0, rs := c.Values(), tree.State(), Rowed(c, nums);
    RowedFits(c, nums);
    RunStarts(tree.B, st0, rs);
    var i := 0;
    assert s + nums[..0] == s;
    while i < |nums|
      invariant 0 <= i <= |nums| && Aligned(tree, c) && c.Valid() && c.Values() == s + nums[..i]
      invariant old(tree.HalfFull()) ==> tree.HalfFull()
      invariant tree.State() == Run(tree.B, st0, rs[..i])
      invariant tree.OnDisk() <==> Harmless(tree.B, st0, rs[..i])
      invariant i > 0 ==> tree.size > 0
      invariant i > 0 && old(tree.HalfFull()) ==>
                  (SearchesRight(tree.View(), tree.root, tree.Stock()) <==> Harmless(tree.B, st0, rs[..i]))
    {
      RunOn(tree.B, st0, rs, i);
      HarmlessBefore(tree.B, st0, rs, i);
      InsertValue(tree, c, nums[i]);
      assert nums[..i + 1] == nums[..i] + [nums[i]];
      i := i + 1;
    }
    assert nums[..i] == nums && rs[..i] == rs;
  }

  // ----- a tree select marks what a scan of the plain file marks -----

  lemma SameMarks(bits: seq<bool>, a: seq<nat>, b: seq<nat>)
    requires multiset(a) == multiset(b)
    ensures MarkRows(bits, a) == MarkRows(bits, b)
  {
    hide MarkRows;
    var x, y := MarkRows(bits, a), MarkRows(bits, b);
    forall k | 0 <= k < |bits|
      ensures x[k] == y[k]
    {
      MarkRowsBit(bits, a, k);
      MarkRowsBit(bits, b, k);
      assert k in a <==> k in multiset(a);
    }
  }

  /** The file, as it is read back, can be searched along the chain, which holds exactly the values of s with
      their rows, in key order. */
  ghost predicate Indexes(tree: TreeFile, s: seq<int>, h: nat, chain: seq<nat>)
    reads tree
  {
    && Searchable(tree.View(), tree.root, h, chain)
    && KeysSorted(Stored(tree.View(), chain))
    && multiset(Stored(tree.View(), chain)) == multiset(Indexed(s, 0))
  }

  /** A tree that insertions have kept aligned with its column indexes it, as long as the file
      says what the nodes mean. */
  lemma AlignedIndexes(tree: TreeFile, c: Column)
    requires Aligned(tree, c) && tree.size > 0 && tree.OnDisk()
    ensures |tree.levels| > 0
    ensures Indexes(tree, c.Values(), |tree.levels| - 1, Positions(tree.levels[0]))
  {
    hide Searchable, LevelsOk, KeysSorted, KeysAscend, Stored;
    ReadBack(tree.B, tree.nodes, tree.disk);
    TreeSearchable(tree.B, tree.nodes, tree.levels, tree.rank, tree.root);
    TreeAscends(tree.B, tree.nodes, tree.levels, tree.rank, tree.root);
  }

  /** So does a bulk-loaded file of any height, duplicates included, unless the last of
      several leaves is full. */
  lemma LoadedIndexes(tree: TreeFile, s: seq<int>, left: seq<nat>)
    requires tree.B >= 4 && Loaded(tree.B, s, tree.nodes, left, tree.root) && Sorted(s) && tree.OnDisk()
    requires |s| % (tree.B - 1) != 0 || |s| == tree.B - 1
    ensures Indexes(tree, s, tree.root, WalkedChain(tree.B, s))
  {
    hide Loaded, Searchable, KeysSorted, Stored, Indexed, WalkedChain;
    ReadBack(tree.B, tree.nodes, tree.disk);
    LoadedSearchable(tree.B, s, tree.nodes, left, tree.root);
    LoadedHolds(tree.B, s, tree.nodes, left, tree.root);
    IndexedSorted(s);
  }

  /** Selects through a tree; the outcome is that of scanning the column it indexes. */
  method MarkThroughTree(tree: TreeFile, bv: BitVector, low: int, high: int,
                         ghost s: seq<int>, ghost h: nat, ghost chain: seq<nat>)
    returns (total: nat)
    requires Indexes(tree, s, h, chain) && low < INT_END
    requires |s| <= 32 * bv.vec.Length && bv.count < UINT_END
    modifies bv, bv.vec
    ensures total == |ScanRows(s, low, high)|
    ensures bv.Bits() == MarkRows(old(bv.Bits()), ScanRows(s, low, high))
    ensures bv.count == (old(bv.count) + total) % UINT_END
  {
    hide Unpack, MarkRows, Searchable, Visits, SearchOutcome, Select, Scan, KeysSorted, Stored, NodeBuffer.View;
    ghost var stock, bits := Stored(tree.View(), chain), bv.Bits();
    ghost var k := OutcomeIs(tree.View(), tree.root, h, chain, low, high);
    StoredTail(tree.View(), chain, k);
    RowsFit(stock, s, 32 * bv.vec.Length);
    var ids;
    ghost var rows;
    total, ids, rows := tree.FindRecordInRangeType(bv, false, [], low, high, h, chain[k..]);
    OutcomeIsSelect(tree.View(), tree.root, h, chain, low, high, rows);
    SelectPermuted(stock, Indexed(s, 0), low, high);
    SameMarks(bits, rows, ScanRows(s, low, high));
    assert |multiset(rows)| == |multiset(ScanRows(s, low, high))|;
  }

  /** Inserts a run and selects: as long as the run overwrites no flag, the select through the
      tree marks what a scan of the column with the new values marks. */
  method InsertAndSelect(tree: TreeFile, c: Column, nums: seq<int>, bv: BitVector, low: int, high: int) returns (total: nat)
    requires Aligned(tree, c) && tree.OnDisk() && NewValues(nums, c.Values()) && nums != []
    requires Harmless(tree.B, tree.State(), Rowed(c, nums))
    requires low < INT_END && |c.Values()| + |nums| <= 32 * bv.vec.Length && bv.count < UINT_END
    modifies tree, c, bv, bv.vec
    ensures Aligned(tree, c) && tree.OnDisk() && c.Values() == old(c.Values()) + nums
    ensures total == |ScanRows(c.Values(), low, high)|
    ensures bv.Bits() == MarkRows(old(bv.Bits()), ScanRows(c.Values(), low, high))
  {
    hide TreeFile.Sound, Occupied, TreeShape.Stock, FileAgrees, Overwrites, Inserted, Run, Harmless, SearchesRight, MarkRows,
         Unpack, Indexes, ScanRows;
    RowedFits(c, nums);
    HarmlessThroughout(tree.B, tree.State(), Rowed(c, nums));
    InsertValues(tree, c, nums);
    AlignedIndexes(tree, c);
    total := MarkThroughTree(tree, bv, low, high, c.Values(), |tree.levels| - 1, Positions(tree.levels[0]));
  }

  /** Descending keys into an empty tree: the last of them leaves a file in which some search
      goes wrong, although the nodes as they are meant hold every record. */
  method InsertDescending(order: nat, rs: seq<Record>) returns (tree: TreeFile)
    requires 4 <= order < UINT_END && |rs| == Fatal(order) && StaleWord(order) % 256 != 0 && KeysDescend(rs)
    requires forall i :: 0 <= i < |rs| ==> INT_MIN <= rs[i].key < INT_END
    ensures fresh(tree) && tree.B == order && tree.Valid() && tree.HalfFull() && multiset(tree.Stock()) == multiset(rs)
    ensures !tree.OnDisk() && !SearchesRight(tree.View(), tree.root, tree.Stock())
  {
    hide TreeFile.Sound, Occupied, TreeShape.Stock, FileAgrees, Harmless, Run, SearchesRight;
    tree := new TreeFile(order);
    DescendingOverwrites(order, rs);
    InsertRecords(tree, rs);
  }

  /** Descending keys below those of a file loaded into several leaves, but fewer than B - 1: the
      last of them leaves a file that does not say what its nodes mean if and only if the row left
      behind the pointers of the root is no multiple of 256. */
  method LoadAndInsert(order: nat, sorted: array<int>, rs: seq<Record>) returns (tree: TreeFile)
    requires 4 <= order < UINT_END && order <= sorted.Length < UINT_END && DistinctInts(sorted[..])
    requires sorted.Length % (order - 1) != 0 && 2 <= LeafCount(order, sorted[..]) < order - 1
    requires |rs| == FrontFull(order, order - 1, LeafCount(order, sorted[..]) - 1) > 0
    requires DescendInto(rs, rs[|rs| - 1].key - 1, sorted[0]) && forall i :: 0 <= i < |rs| ==> INT_MIN <= rs[i].key < INT_END
    ensures fresh(tree) && tree.B == order && tree.Valid()
    ensures multiset(tree.Stock()) == multiset(Indexed(sorted[..], 0)) + multiset(rs)
    ensures tree.OnDisk() <==> StaleRow(order, sorted[..], []) % 256 == 0
  {
    hide TreeFile.Sound, Occupied, TreeShape.Stock, FileAgrees, Harmless, Run, SearchesRight, Loaded, Storeyed, LeafCount,
         Carried, StaleRow, IsTree, Bounds.Sorted, DistinctInts, DescendInto, FrontFull, Indexed, Searchable;
    ghost var s := sorted[..];
    tree := new TreeFile(order);
    var outcome;
    ghost var left, h;
    outcome, left, h := tree.BulkLoad(sorted);
    FewLeaves(order, s);
    StaleRowIs(order, s, tree.disk);
    LoadedOverwrites(order, s, tree.State(), left, rs);
    NewBelow(s, rs);
    InsertRecords(tree, rs);
  }

  /** Descending keys until the first interior node splits, and then the keys that fill its right
      half from the front: the file still says what its nodes mean, and all searches are right. */
  method FillRightHalf(order: nat, rs: seq<Record>, more: seq<Record>, ghost leaf: nat) returns (tree: TreeFile)
    requires 4 <= order < UINT_END && |rs| == RootSplit(order) && KeysDescend(rs) && leaf == Child(order - 1, order / 2)
    requires var st := DescendingRun.Built(order, rs);
             && leaf < |st.nodes| && |st.nodes[leaf].keys| >= 2
             && DescendInto(more, st.nodes[leaf].keys[0], st.nodes[leaf].keys[1])
    requires |more| == FrontFull(order, order - order / 2, order - 1 - order / 2) && more != []
    requires DistinctKeys(rs + more) && forall i :: 0 <= i < |rs + more| ==> INT_MIN <= (rs + more)[i].key < INT_END
    ensures fresh(tree) && tree.B == order && tree.Valid() && tree.OnDisk() && multiset(tree.Stock()) == multiset(rs + more)
    ensures |tree.nodes| > order + 2 && |tree.nodes[order + 2].keys| == order - 1
    ensures SearchesRight(tree.View(), tree.root, tree.Stock())
  {
    hide TreeFile.Sound, Occupied, TreeShape.Stock, FileAgrees, Harmless, Insertion.Run, SearchesRight, RootSplit, FrontFull, Child;
    tree := new TreeFile(order);
    RightHalfFills(order, rs, more, leaf);
    HarmlessThroughout(order, Empty, rs + more);
    InsertRecords(tree, rs + more);
  }

  lemma FewLeaves(B: nat, s: seq<int>)
    requires B >= 4 && LeafCount(B, s) <= B && |s| % (B - 1) != 0
    ensures Continues(B, s)
  {
  }

  lemma StaleRowIs(B: nat, s: seq<int>, disk: seq<seq<nat>>)
    requires B >= 4 && 2 <= LeafCount(B, s) < B - 1
    ensures StaleRow(B, s, disk) == StaleRow(B, s, [])
  {
  }

  lemma NewBelow(s: seq<int>, rs: seq<Record>)
    requires DistinctInts(s) && s != [] && rs != [] && DescendInto(rs, rs[|rs| - 1].key - 1, s[0])
    ensures DistinctKeys(rs) && forall i :: 0 <= i < |rs| ==> !HasKey(Indexed(s, 0), rs[i].key)
  {
    IndexedAt(s, 0);
  }

  lemma StoredTail(f: File, chain: seq<nat>, k: nat)
    requires ChainInFile(f, chain) && k <= |chain|
    ensures forall r :: r in Stored(f, chain[k..]) ==> r in Stored(f, chain)
  {
    assert chain == chain[..k] + chain[k..];
    StoredConcat(f, chain[..k], chain[k..]);
  }

  lemma RowsFit(stock: seq<Record>, s: seq<int>, n: nat)
    requires multiset(stock) == multiset(Indexed(s, 0)) && |s| <= n
    ensures forall r :: r in stock ==> r.row < n
  {
    forall r | r in stock
      ensures r.row < n
    {
      assert r in multiset(Indexed(s, 0));
      assert r in Indexed(s, 0);
    }
  }

  /** A tree that indexes a column can be joined with; what the join then finds is what a
      loop join over the column's selected rows finds. */
  lemma IndexesJoin(tree: TreeFile, s: seq<int>, h: nat, chain: seq<nat>, bv: BitVector, vals: seq<Pair>)
    requires Indexes(tree, s, h, chain) && |s| <= 32 * bv.vec.Length
    ensures Joinable(tree, bv, h, chain)
    ensures |s| <= |bv.Bits()| && RowsInside(MarkedRows(bv.Bits(), |s|), |s|)
    ensures multiset(TreeMatches(Stored(tree.View(), chain), bv.Bits(), vals))
         == multiset(LoopMatches(PairsAt(s, MarkedRows(bv.Bits(), |s|)), vals))
  {
    hide Unpack, Searchable, KeysSorted, Stored, TreeMatches, LoopMatches, MarkedRows;
    RowsFit(Stored(tree.View(), chain), s, 32 * bv.vec.Length);
    TreeJoinIsLoop(Stored(tree.View(), chain), s, bv.Bits(), vals);
  }
}
