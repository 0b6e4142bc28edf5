/** The B+ tree file of bptree.c: insertion by splitting upwards, and range search. */
module BPlusTree {
  import opened BitVectors
  import opened BulkSearch
  import opened BulkShape
  import opened BulkTree
  import opened Bounds
  import opened Columns
  import opened Insertion
  import opened NodeBuffer
  import opened Records
  import opened TreeShape
  import opened TreeSteps
  import opened TreeClimb
  import opened TreeOccupancy
  import opened TreeMoves
  import opened TreeSearch
  import opened TreeDamage
  import opened WordsOnFile

  /** How a bulk load ends. */
  datatype LoadOutcome = Done | ReadsOutside | Hangs

  class TreeFile {
    const B: nat  // the order of the tree
    var size: nat  // number of leaves
    var nextFree: nat  // the first unused position
    var root: nat
    var nodes: File  // what the nodes mean
    var disk: seq<seq<nat>>  // the words that lie on file for them

    ghost var levels: seq<Level>
    ghost var rank: seq<nat>

    /** The invariant of a tree that insertion maintains. */
    ghost predicate Valid()
      reads this
    {
      && 4 <= B < UINT_END && nextFree == |nodes| == |disk|
      && if size == 0 then nodes == [] && levels == [] else Sound()
    }

    /** The file says what the nodes mean. */
    ghost predicate OnDisk()
      reads this
    {
      |disk| == |nodes| && FileAgrees(B, nodes, disk)
    }

    /** The nodes as they are read back. */
    ghost function View(): File
      reads this
    {
      NodeBuffer.View(nodes, disk)
    }

    ghost function State(): Store
      reads this
    {
      Store(nodes, disk, root)
    }

    ghost predicate Sound()
      reads this
    {
      Tree(B, nodes, levels, rank, root) && size == |levels[0]|
    }

    /** All records, in key order. */
    ghost function Stock(): seq<Record>
      reads this
    {
      TreeShape.Stock(nodes, levels)
    }

    /** Every node but the root is at least half full. */
    ghost predicate HalfFull()
      reads this
    {
      Occupied(B, nodes, levels)
    }

    constructor (order: nat)
      requires 4 <= order < UINT_END
      ensures Valid() && B == order && size == 0 && Stock() == [] && HalfFull() && OnDisk() && State() == Store([], [], 0)
    {
      B, size, nextFree, root, nodes, disk := order, 0, 0, 0, [], [];
      levels, rank := [], [];
    }

    method MakeNewLeafOrNode(isLeaf: bool) returns (n: Node)
      modifies this`nextFree, this`size
      ensures n == Node(isLeaf, [], [], 0, 0, old(nextFree))
      ensures nextFree == old(nextFree) + 1
      ensures size == old(size) + if isLeaf then 1 else 0
    {
      n := Node(isLeaf, [], [], 0, 0, nextFree);
      nextFree := nextFree + 1;
      if isLeaf {
        size := size + 1;
      }
    }

    /** Reads a node: its flag and pointers are those on file. */
    method LoadNode(pos: nat) returns (n: Node)
      requires pos < |nodes|
      ensures n == View()[pos]
      ensures OnDisk() ==> n == nodes[pos]
    {
      n := Read(nodes[pos], if pos < |disk| then disk[pos] else []);
      if OnDisk() {
        ReadBack(B, nodes, disk);
      }
    }

    method WriteNode(n: Node, words: seq<nat>)
      requires n.pos <= |nodes| == |disk|
      modifies this`nodes, this`disk
      ensures nodes == if n.pos == old(|nodes|) then old(nodes) + [n] else old(nodes)[n.pos := n]
      ensures disk == if n.pos == old(|disk|) then old(disk) + [words] else old(disk)[n.pos := words]
    {
      if n.pos == |nodes| {
        nodes, disk := nodes + [n], disk + [words];
      } else {
        nodes, disk := nodes[n.pos := n], disk[n.pos := words];
      }
    }

    /** Writes the halves of a split: the right one into new words, the left one over the
        words of the node that was split. */
    method WriteHalves(left: Node, right: Node)
      requires left.pos < |nodes| == |disk| == right.pos
      modifies this`nodes, this`disk
      ensures nodes == (old(nodes) + [right])[left.pos := left]
      ensures disk == HalfWords(B, old(disk), left, right)
    {
      var words := Copied(disk[left.pos], left.pointers);
      WriteNode(right, Copied(Blank(B, right.isLeaf), right.pointers));
      WriteNode(left, words);
    }

    /** Adds an entry to a node with room. */
    method AddEntryToNode(n: Node, key: int, pointer: nat) returns (ghost p: nat)
      requires n.pos < |nodes| == |disk| && Ascending(n.keys)
      requires |n.pointers| == |n.keys| + if n.isLeaf then 0 else 1
      modifies this`nodes, this`disk
      ensures IsUpper(n.keys, key, p) && nodes == old(nodes)[n.pos := Added(n, p, key, pointer)]
      ensures disk == old(disk)[n.pos := PutEntry(old(disk)[n.pos], n, p, pointer)]
    {
      var pos := GetUpperBoundFromArray(n.keys, 0, key);
      p := pos;
      var node := n.(keys := n.keys[..pos] + [key] + n.keys[pos..]);
      if node.isLeaf {
        node := node.(pointers := n.pointers[..pos] + [pointer] + n.pointers[pos..]);
      } else if pos < |n.keys| {
        node := node.(pointers := n.pointers[..pos + 1] + [pointer] + n.pointers[pos + 1..]);
      } else {
        node := node.(pointers := n.pointers + [pointer]);
        assert n.pointers == n.pointers[..pos + 1] && n.pointers[pos + 1..] == [];
        assert node.pointers == InsertAt(n.pointers, pos + 1, pointer);
      }
      assert node == Added(n, pos, key, pointer);
      WriteNode(node, PutEntry(disk[n.pos], n, pos, pointer));
    }

    /** The children that moved to a new interior node name it as their parent. */
    method AdoptChildren(n: Node)
      requires OnDisk() && forall q :: q in n.pointers ==> q < |nodes| && nodes[q].pos == q
      modifies this`nodes, this`disk
      ensures nodes == Reparented(old(nodes), n.pointers, n.pos) && disk == old(disk) && OnDisk()
    {
      hide FileAgrees;
      var i := 0;
      assert nodes == Reparented(nodes, n.pointers[..0], n.pos);
      while i < |n.pointers|
        invariant 0 <= i <= |n.pointers| && OnDisk()
        invariant nodes == Reparented(old(nodes), n.pointers[..i], n.pos) && disk == old(disk)
      {
        assert n.pointers[i] in n.pointers;
        var child := LoadNode(n.pointers[i]);
        AdoptedAgrees(B, nodes, disk, n.pointers[i], n.pos);
        child := child.(parent := n.pos);
        WriteNode(child, disk[n.pointers[i]]);
        ReparentOneMore(old(nodes), n.pointers, i, n.pos);
        i := i + 1;
      }
      assert n.pointers[..|n.pointers|] == n.pointers;
    }

    /** Distributes the entries of a full node and one more over two nodes. */
    method Distribute(n: Node, key: int, pointer: nat, newPos: nat)
      returns (left: Node, right: Node, sep: int, after: int, ghost p: nat)
      requires B >= 4 && |n.keys| == B - 1 && Ascending(n.keys) && key !in n.keys
      requires |n.pointers| == |n.keys| + if n.isLeaf then 0 else 1
      ensures IsUpper(n.keys, key, p)
      ensures var t := Added(n, p, key, pointer);
              && sep == t.keys[B / 2] && after == t.keys[B / 2 + 1]
              && left == HalfLeft(t, B / 2, newPos) && right == HalfRight(t, B / 2, newPos)
    {
      var S := B / 2;
      var pos := GetUpperBoundFromArray(n.keys, 0, key);
      p := pos;
      var tempKeys := n.keys[..pos] + [key] + n.keys[pos..];
      var offset := if n.isLeaf then pos else pos + 1;
      var tempPointers := n.pointers[..offset] + [pointer] + n.pointers[offset..];
      right := Node(n.isLeaf, [], [], n.parent, n.next, newPos);
      left := n.(next := newPos, keys := tempKeys[..S]);
      if n.isLeaf {
        right := right.(keys := tempKeys[S..], pointers := tempPointers[S..]);
        left := left.(pointers := tempPointers[..S]);
      } else {
        right := right.(keys := tempKeys[S + 1..], pointers := tempPointers[S + 1..]);
        left := left.(pointers := tempPointers[..S + 1]);
      }
      sep, after := tempKeys[S], tempKeys[S + 1];
    }

    /** A node and the entry it is asked to take. */
    ghost predicate Requested(n: Node, a: Ask)
      reads this
    {
      && B >= 4 && nextFree == |nodes| == |disk| && Asked(B, nodes, levels, rank, root, a)
      && n == nodes[levels[a.l][a.i].pos] && size == |levels[0]|
    }

    /** Inserts into a node, splitting upwards as far as needed.  The file says what the nodes
        mean afterwards, too, if and only if the addition in place that ends the climb does
        not spill; otherwise the node added to is read back as a leaf. */
    method InsertNode(n: Node, key: int, pointer: nat, ghost a: Ask, ghost fuel: nat)
      requires Requested(n, a) && a.key == key && a.pointer == pointer && OnDisk() && fuel >= |levels| - a.l
      modifies this
      ensures Sound() && nextFree == |nodes| == |disk|
      ensures Stock() == old(Wanted(nodes, levels, a))
      ensures old(HalfFull()) ==> HalfFull()
      ensures State() == old(EntryInserted(B, State(), n.pos, key, pointer, fuel))
      ensures OnDisk() <==> !Spills(B, old(Ending(B, nodes, disk, n.pos, key, fuel)))
      ensures SeenAs(B, nodes, View(), old(Ending(B, nodes, disk, n.pos, key, fuel)))
      decreases |levels| - a.l
    {
      hide Tree, Climbing, Asked, Occupied, Contents, InsertSorted, NodeOk, Spills, SeenAs, FileAgrees, PutEntry, Halved;
      AskedNode(B, nodes, levels, rank, root, a);
      assert levels[a.l] != [];
      if |n.keys| < B - 1 {
        ghost var st := State();
        ghost var c := AddEntryToNode(n, key, pointer);
        OneUpper(n.keys, key, c);
        Grant(B, st.nodes, levels, rank, root, a, c);
        AdditionAgrees(B, st.nodes, st.disk, n, c, key, pointer);
        return;
      }
      if n.isLeaf && n.next != 0 {
        OverflowUnused(B, nodes, levels, rank, root, a);
        var nextNode := LoadNode(n.next);
        if nextNode.keys[0] == key && nextNode.parent == 0 {
          assert false;  // appending to an overflow node for duplicates
        }
      }
      SplitNode(n, key, pointer, a, fuel);
    }

    /** Writes the halves of a split root and a new root above them. */
    method PlantRoot(left0: Node, right0: Node, sep: int)
      requires left0.pos < |nodes| == |disk| == right0.pos && nextFree == |nodes| + 1
      modifies this`nodes, this`disk, this`nextFree, this`root, this`size
      ensures nodes == Planted(old(nodes), left0, right0, sep)
      ensures disk == HalfWords(B, old(disk), left0, right0) + [Copied(Blank(B, false), [left0.pos, right0.pos])]
      ensures root == old(|nodes|) + 1 && nextFree == |nodes| && size == old(size)
    {
      var parent := MakeNewLeafOrNode(false);
      parent := parent.(keys := [sep], pointers := [left0.pos, right0.pos]);
      root := parent.pos;
      var left := left0.(parent := parent.pos);
      var right := right0.(parent := left.parent);
      WriteHalves(left, right);
      WriteNode(parent, Copied(Blank(B, false), parent.pointers));
    }

    /** Cuts a full node, with the requested entry, into halves not yet written. */
    method CutNode(n: Node, key: int, pointer: nat, ghost a: Ask)
      returns (left: Node, right: Node, sep: int, after: int, ghost p: nat)
      requires Requested(n, a) && a.key == key && a.pointer == pointer && |n.keys| == B - 1 && OnDisk()
      modifies this`nodes, this`disk, this`nextFree, this`size
      ensures p <= |n.keys| && |n.pointers| == |n.keys| + (if n.isLeaf then 0 else 1)
      ensures old(Halved(B, nodes, n, a, p, Added(n, p, key, pointer),
                         Adopted(nodes, Added(n, p, key, pointer), B / 2), left, right, sep))
      ensures nodes == Adopted(old(nodes), Added(n, p, key, pointer), B / 2) && disk == old(disk) && OnDisk()
      ensures old(Untouched(nodes, rank, a.l, Adopted(nodes, Added(n, p, key, pointer), B / 2)))
      ensures sep < after && after == Added(n, p, key, pointer).keys[B / 2 + 1]
      ensures nextFree == |nodes| + 1 && size == old(size) + if n.isLeaf then 1 else 0
    {
      hide Tree, Climbing, Asked, Occupied, Contents, InsertSorted, NodeOk, Flat, FileAgrees, Reparented, Untouched, Halved;
      ghost var f := nodes;
      AskedNode(B, f, levels, rank, root, a);
      var newN := MakeNewLeafOrNode(n.isLeaf);
      left, right, sep, after, p := Distribute(n, key, pointer, newN.pos);
      InsertAscends(n.keys, key, p);
      HalvesAre(B, f, n, a, p, left, right, sep);
      if !n.isLeaf {
        ChildrenInPlace(B, f, levels, rank, root, a, p);
        assert forall q :: q in right.pointers ==> q in Added(n, p, key, pointer).pointers;
        AdoptChildren(right);
      }
      ChildrenOnly(B, f, rank, a.l, Added(n, p, key, pointer));
    }

    method SplitNode(n: Node, key: int, pointer: nat, ghost a: Ask, ghost fuel: nat)
      requires Requested(n, a) && a.key == key && a.pointer == pointer && |n.keys| == B - 1
      requires OnDisk() && fuel >= |levels| - a.l
      modifies this
      ensures Sound() && nextFree == |nodes| == |disk|
      ensures Stock() == old(Wanted(nodes, levels, a))
      ensures old(HalfFull()) ==> HalfFull()
      ensures State() == old(EntryInserted(B, State(), n.pos, key, pointer, fuel))
      ensures OnDisk() <==> !Spills(B, old(Ending(B, nodes, disk, n.pos, key, fuel)))
      ensures SeenAs(B, nodes, View(), old(Ending(B, nodes, disk, n.pos, key, fuel)))
      decreases |levels| - a.l, 0
    {
      hide Tree, Climbing, Asked, Occupied, Contents, InsertSorted, NodeOk, Flat, Adopted, HalfLeft, HalfRight, Added,
           Spills, SeenAs, FileAgrees, HalfWords, Untouched, EntryInserted, Ending, NodeBuffer.View, Halved;
      ghost var st, ranks := State(), rank;
      AskedNode(B, nodes, levels, rank, root, a);
      var left, right, sep, after, p := CutNode(n, key, pointer, a);
      ghost var t, h := Added(n, p, key, pointer), nodes;
      HalvesAgree(B, st.nodes, st.disk, n, a, p, t, h, left, right, sep);
      if n.parent == 0 {
        RootSplits(B, st.nodes, levels, rank, root, a, p, n, t, h, left, right, sep);
        EndsAtRoot(B, st, n, a, p, t, h, left, right, sep, fuel);
        PlantRoot(left, right, sep);
        rank := Extended(Extended(rank, a.l), |levels|);
        levels := SplitLevels(levels, a, sep, |h|) + [[Entry(|h| + 1, INT_MIN, INT_END)]];
        assert sep != after;
        RootAgrees(B, h, st.disk, left, right, sep);
      } else {
        ghost var b := ParentAsked(B, st.nodes, levels, rank, root, a, p, n, t, h, left, right, sep);
        WriteHalves(left, right);
        assert nodes == h[n.pos := left] + [right];
        levels, rank := SplitLevels(levels, a, sep, |h|), rank + [a.l];
        HandsOver(B, st, n, a, p, t, h, left, right, sep, fuel);
        EndsAbove(B, st.nodes, st.disk, a.l, ranks, h, left, right, sep, fuel - 1, levels, root, b);
        AskedNode(B, nodes, levels, rank, root, b);
        var parent := LoadNode(n.parent);
        InsertNode(parent, sep, right.pos, b, fuel - 1);
      }
    }

    /** Starts a tree. */
    method InsertFirst(key: int, row: nat)
      requires Valid() && size == 0 && INT_MIN <= key < INT_END
      modifies this
      ensures Valid() && Stock() == [Record(key, row)] && HalfFull() && OnDisk() && View() == nodes
      ensures State() == Store([Node(true, [key], [row], 0, 0, 0)], [Copied(Blank(B, true), [row])], 0)
    {
      hide LevelsOk, Settled, Occupied, Contents, FileAgrees, NodeBuffer.View, Blank, Copied;
      var leaf := MakeNewLeafOrNode(true);
      leaf := leaf.(keys := [key], pointers := [row]);
      WriteNode(leaf, Copied(Blank(B, true), leaf.pointers));
      root := 0;
      levels, rank := [[Entry(0, INT_MIN, INT_END)]], [0];
      FirstRecord(B, leaf, key, row);
      BlankOnFile(B, leaf);
      EmptyAgrees(B);
      NodeAppended(B, [], [], leaf, Copied(Blank(B, true), leaf.pointers));
      assert [] + [leaf] == [leaf] == nodes;
      ReadBack(B, nodes, disk);
    }

    /** Inserts a record whose key is new.  The file says what the nodes mean afterwards, too,
        if and only if the insertion does not overwrite the flag of an interior node; and if the
        tree is half full, all range searches are right under the same condition.  What lies behind
        the pointers of interior nodes follows from what lay there, and is nothing for new ones. */
    method InsertRecord(key: int, row: nat)
      requires Valid() && OnDisk() && INT_MIN <= key < INT_END && !HasKey(Stock(), key)
      modifies this
      ensures Valid() && size > 0
      ensures Stock() == InsertSorted(old(Stock()), Record(key, row))
      ensures old(HalfFull()) ==> HalfFull()
      ensures State() == old(Inserted(B, State(), Record(key, row)))
      ensures old(size) > 0 ==> After(B, old(State()), old(rank), 0, State(), old(EndingOf(B, State(), key)))
      ensures OnDisk() <==> !old(Overwrites(B, State(), key))
      ensures SeenAs(B, nodes, View(), old(EndingOf(B, State(), key)))
      ensures old(HalfFull()) ==> (SearchesRight(View(), root, Stock()) <==> !old(Overwrites(B, State(), key)))
    {
      ghost var at := EndingOf(B, State(), key);
      if size == 0 {
        InsertFirst(key, row);
        SearchesAfter(this, at);
        return;
      }
      hide LevelsOk, Contents, InsertSorted, Flat, Occupied, FileAgrees, Spills, SeenAs, SearchesRight, After;
      InsertedAfter(B, State(), levels, rank, Record(key, row));
      ghost var h := |levels| - 1;
      ghost var j := LeafAsked(B, nodes, levels, rank, root, key, row);
      TreeSearchable(B, nodes, levels, rank, root);
      TreeFuel(B, nodes, levels, rank, root, key);
      ReadBack(B, nodes, disk);
      var rootNode := LoadNode(root);
      var leaf := FindLeaf(rootNode, key, root, h);
      assert leaf.pos == levels[0][j].pos;
      InsertNode(leaf, key, row, Ask(0, j, key, row, 0), |nodes|);
      if HalfFull() {
        SearchesAfter(this, at);
      }
    }

    /** The leaf a search for the key arrives at. */
    method FindLeaf(rootNode: Node, key: int, ghost p0: nat, ghost h0: nat) returns (leaf: Node)
      requires Walkable(View(), p0, h0) && rootNode == View()[p0]
      ensures Descend(View(), p0, key, h0) < |nodes| && leaf == View()[Descend(View(), p0, key, h0)] && leaf.isLeaf
    {
      leaf := rootNode;
      ghost var p, h := p0, h0;
      while !leaf.isLeaf
        invariant Walkable(View(), p, h) && leaf == View()[p]
        invariant Descend(View(), p, key, h) == Descend(View(), p0, key, h0)
        decreases h
      {
        var counter := 0;
        while counter < |leaf.keys| && key > leaf.keys[counter]
          invariant 0 <= counter <= |leaf.keys|
          invariant forall i :: 0 <= i < counter ==> leaf.keys[i] < key
        {
          counter := counter + 1;
        }
        CountBelowIs(leaf.keys, key, counter);
        p, h := leaf.pointers[counter], h - 1;
        leaf := LoadNode(leaf.pointers[counter]);
      }
    }

    /** The vector, if any, can hold marks for every row of the records. */
    ghost predicate Holds(bv: BitVector?, isId: bool, s: seq<Record>)
      reads bv
    {
      isId || (bv != null && forall r :: r in s ==> r.row < 32 * bv.vec.Length)
    }

    /** What a search delivers: a list of rows, or marks in a vector. */
    ghost predicate Delivered(bv: BitVector?, isId: bool, ids0: seq<nat>, bits0: seq<bool>, count0: nat,
                              ids: seq<nat>, rows: seq<nat>)
      reads bv, if bv == null then {} else {bv.vec}
    {
      if isId then ids == ids0 + rows
      else ids == ids0 && bv != null && bv.Bits() == MarkRows(bits0, rows) && bv.count == (count0 + |rows|) % UINT_END
    }

    /** Delivers one more row. */
    method Deliver(bv: BitVector?, isId: bool, ids: seq<nat>, row: nat,
                   ghost ids0: seq<nat>, ghost bits0: seq<bool>, ghost count0: nat, ghost rows: seq<nat>)
      returns (ids': seq<nat>)
      requires Delivered(bv, isId, ids0, bits0, count0, ids, rows)
      requires isId || (bv != null && row < 32 * bv.vec.Length)
      modifies if bv == null then {} else {bv, bv.vec}
      ensures Delivered(bv, isId, ids0, bits0, count0, ids', rows + [row])
      ensures bv != null ==> bv.size == old(bv.size)
    {
      if isId {
        ids' := ids + [row];
      } else {
        MarkOneMore(bits0, rows, row);
        bv.Mark(row);
        ids' := ids;
      }
    }

    /** Scans one node of the chain; stops at the first key above the range. */
    method ScanNode(n: Node, bv: BitVector?, isId: bool, ids1: seq<nat>, low: int, high: int, ghost rest: seq<Record>,
                    ghost ids0: seq<nat>, ghost bits0: seq<bool>, ghost count0: nat, ghost rows0: seq<nat>)
      returns (ids: seq<nat>, count: nat, done: bool, ghost rows: seq<nat>)
      requires |n.keys| <= |n.pointers| && Holds(bv, isId, Payload(n))
      requires Delivered(bv, isId, ids0, bits0, count0, ids1, rows0)
      modifies if bv == null then {} else {bv, bv.vec}
      ensures Delivered(bv, isId, ids0, bits0, count0, ids, rows0 + rows) && count == |rows|
      ensures bv != null ==> bv.size == old(bv.size)
      ensures done <==> Stops(n, high)
      ensures done ==> rows == Scan(Payload(n) + rest, low, high)
      ensures !done ==> Scan(Payload(n) + rest, low, high) == rows + Scan(rest, low, high)
    {
      hide MarkRows, Unpack, Scan;
      ids, count, done, rows := ids1, 0, false, [];
      var i := 0;
      ghost var all := Payload(n) + rest;
      assert rows0 + rows == rows0;
      while i < |n.keys|
        invariant 0 <= i <= |n.keys| && count == |rows| && !done
        invariant forall k :: 0 <= k < i ==> n.keys[k] <= high
        invariant Delivered(bv, isId, ids0, bits0, count0, ids, rows0 + rows)
        invariant bv != null ==> bv.size == old(bv.size)
        invariant Scan(all, low, high) == rows + Scan(all[i..], low, high)
      {
        assert Payload(n)[i] in Payload(n) && all[i] == Payload(n)[i] == Record(n.keys[i], n.pointers[i]);
        ScanNext(all, i, low, high, rows);
        if n.keys[i] <= high && n.keys[i] >= low {
          ids := Deliver(bv, isId, ids, n.pointers[i], ids0, bits0, count0, rows0 + rows);
          assert rows0 + rows + [n.pointers[i]] == rows0 + (rows + [n.pointers[i]]);
          rows := rows + [n.pointers[i]];
          count := count + 1;
        }
        if n.keys[i] > high {
          done := true;
          return;
        }
        i := i + 1;
      }
      assert all[i..] == rest;
    }

    /** Walks along `next` from a leaf. */
    method WalkChain(leaf0: Node, bv: BitVector?, isId: bool, ids0: seq<nat>, low: int, high: int,
                     ghost chain: seq<nat>, ghost bits0: seq<bool>, ghost count0: nat)
      returns (count: nat, ids: seq<nat>, ghost rows: seq<nat>)
      requires Leads(View(), chain, high) && leaf0 == View()[chain[0]]
      requires Holds(bv, isId, Stored(View(), chain))
      requires Delivered(bv, isId, ids0, bits0, count0, ids0, [])
      modifies if bv == null then {} else {bv, bv.vec}
      ensures rows == Scan(Stored(View(), chain), low, high) && count == |rows|
      ensures Delivered(bv, isId, ids0, bits0, count0, ids, rows)
      ensures bv != null ==> bv.size == old(bv.size)
    {
      hide Scan, MarkRows, Unpack, Stored, Leads, Stops;
      ghost var view, goal := View(), Scan(Stored(View(), chain), low, high);
      ghost var way: seq<nat> := chain;
      LeadsOn(view, way, low, high);
      var leaf := leaf0;
      ids, count, rows := ids0, 0, [];
      assert rows + goal == goal;
      var nextPos := 1;
      while nextPos != 0
        invariant nextPos != 0 ==> Leads(view, way, high) && way != [] && way[0] < |view| && leaf == view[way[0]]
        invariant nextPos != 0 ==> goal == rows + Scan(Stored(view, way), low, high)
        invariant nextPos != 0 ==> Holds(bv, isId, Stored(view, way))
        invariant nextPos == 0 ==> goal == rows
        invariant Delivered(bv, isId, ids0, bits0, count0, ids, rows) && count == |rows|
        invariant bv != null ==> bv.size == old(bv.size)
        decreases nextPos != 0, |way|
      {
        LeadsOn(view, way, low, high);
        ghost var rest := Stored(view, way[1..]);
        ghost var more;
        var n, done;
        ids, n, done, more := ScanNode(leaf, bv, isId, ids, low, high, rest, ids0, bits0, count0, rows);
        count := count + n;
        assert rows + (more + Scan(rest, low, high)) == (rows + more) + Scan(rest, low, high);
        rows := rows + more;
        if done {
          return;
        }
        way := way[1..];
        nextPos := leaf.next;
        leaf := LoadNode(leaf.next);
        if nextPos == 0 {
          assert way == [];
          StoredEmpty(view, low, high);
        }
      }
    }

    /** Range search: descends once, then walks along `next`. */
    method FindRecordInRangeType(bv: BitVector?, isId: bool, ids0: seq<nat>, low: int, high: int,
                                 ghost h: nat, ghost chain: seq<nat>)
      returns (count: nat, ids: seq<nat>, ghost rows: seq<nat>)
      requires Visits(View(), root, h, chain, low, high)
      requires Holds(bv, isId, Stored(View(), chain)) && (!isId ==> bv.count < UINT_END)
      modifies if bv == null then {} else {bv, bv.vec}
      ensures SearchOutcome(View(), root, low, high, rows) && count == |rows|
      ensures ids == if isId then ids0 + rows else ids0
      ensures !isId ==> bv.Bits() == MarkRows(old(bv.Bits()), rows) && bv.size == old(bv.size)
                        && bv.count == (old(bv.count) + |rows|) % UINT_END
    {
      hide Scan, MarkRows, Unpack, Walkable, Descend, Leads, Stored;
      ghost var bits0, count0 := if isId then [] else bv.Bits(), if isId then 0 else bv.count;
      MarkNoRows(bits0);
      WaysIn(View(), root, h, chain, low, high);
      var rootNode := LoadNode(root);
      var leaf := FindLeaf(rootNode, low, root, h);
      count, ids, rows := WalkChain(leaf, bv, isId, ids0, low, high, chain, bits0, count0);
    }

    /** The leaves of a bulk load, written left to right; not ok if a copy would read behind
        the values. */
    method LoadLeaves(sorted: array<int>, keys: array<int>, pointers: array<nat>,
                      nKeys: array<int>, nPtrs: array<nat>, numNodes: nat)
      returns (ok: bool)
      requires 4 <= B < UINT_END && nodes == [] && disk == [] && sorted.Length < UINT_END
      requires numNodes == LeafCount(B, sorted[..])
      requires keys.Length == numNodes && pointers.Length == numNodes && nKeys.Length == B - 1 && nPtrs.Length == B
      requires keys != nKeys && sorted != keys && sorted != nKeys && pointers != nPtrs
      modifies this`nodes, this`disk, keys, pointers, nKeys, nPtrs
      ensures ok <==> sorted.Length == 0 || sorted.Length >= B - 1
      ensures ok ==> |nodes| == numNodes && LeavesOk(B, sorted[..], nodes, numNodes) && OnDisk()
      ensures ok ==> Carried(B, nodes, disk) && InBuffer(B, disk, nPtrs[..])
      ensures ok ==> forall i :: 0 <= i < numNodes ==> keys[i] == StartKey(B, sorted[..], i) && pointers[i] == i
    {
      hide LeafCount, StartOf, FileAgrees, LeafOf, Carried, InBuffer;
      ghost var s := sorted[..];
      StartSteps(B, 0);
      LeavesCover(B, s);
      EmptyAgrees(B);
      NoneCarried(B, nPtrs[..]);
      var i, counter := 0, 0;
      while i < numNodes
        invariant 0 <= i <= numNodes && |nodes| == i && (i > 0 ==> sorted.Length >= B - 1)
        invariant counter == Min(StartOf(B, i), |s|)
        invariant LeavesOk(B, s, nodes, i) && OnDisk()
        invariant Carried(B, nodes, disk) && InBuffer(B, disk, nPtrs[..])
        invariant forall k :: 0 <= k < i ==> keys[k] == StartKey(B, s, k) && pointers[k] == k
      {
        LeafStart(B, s, i);
        StartSteps(B, i);
        keys[i] := sorted[counter];
        pointers[i] := i;
        ok, counter := LoadLeaf(sorted, nKeys, nPtrs, numNodes, i, counter);
        if !ok {
          return;
        }
        i := i + 1;
      }
      ok := true;
    }

    /** One leaf of a bulk load. */
    method LoadLeaf(sorted: array<int>, nKeys: array<int>, nPtrs: array<nat>, numNodes: nat, i: nat, counter0: nat)
      returns (ok: bool, counter: nat)
      requires 4 <= B < UINT_END && |nodes| == i && OnDisk() && sorted.Length < UINT_END
      requires numNodes == LeafCount(B, sorted[..]) && i < numNodes && counter0 == StartOf(B, i) < sorted.Length
      requires nKeys.Length == B - 1 && nPtrs.Length == B && sorted != nKeys
      requires Carried(B, nodes, disk) && InBuffer(B, disk, nPtrs[..])
      modifies this`nodes, this`disk, nKeys, nPtrs
      ensures ok <==> sorted.Length >= B - 1
      ensures ok ==> Carried(B, nodes, disk) && InBuffer(B, disk, nPtrs[..])
      ensures ok ==> nodes == old(nodes) + [LeafOf(B, sorted[..], i)] && OnDisk()
      ensures ok ==> counter == Min(StartOf(B, i + 1), sorted.Length)
    {
      hide LeafCount, StartOf, FileAgrees, LeafOf, Rows, Share, Carried, InBuffer;
      ghost var s, before := sorted[..], nPtrs[..];
      FirstOrLater(B, i);
      var nSize, last;
      ok, nSize, last := FillLeaf(sorted, nKeys, nPtrs, counter0);
      counter := counter0 + nSize;
      if ok {
        LeafFilled(B, s, i, nSize, last);
        var n := Node(true, nKeys[..nSize], nPtrs[..nSize], numNodes + Share(i, B), if last then 0 else i + 1, i);
        WriteLeaf(n, nPtrs, before);
      }
    }

    /** Writes a new leaf with everything the node buffer holds. */
    method WriteLeaf(n: Node, nPtrs: array<nat>, ghost before: seq<nat>)
      requires n.pos == |nodes| && n.isLeaf && |n.pointers| == |n.keys| && OnDisk()
      requires nPtrs.Length == |before| == B && n.pointers <= nPtrs[..]
      requires Carried(B, nodes, disk) && InBuffer(B, disk, before)
      requires forall k :: |n.pointers| <= k < B ==> nPtrs[k] == before[k]
      modifies this`nodes, this`disk
      ensures nodes == old(nodes) + [n] && OnDisk()
      ensures Carried(B, nodes, disk) && InBuffer(B, disk, nPtrs[..])
    {
      hide Carried, InBuffer;
      CarriedOn(B, nodes, disk, before, n, nPtrs[..], 1);
      BufferAgrees(B, nodes, disk, n, nPtrs[..]);
      WriteNode(n, nPtrs[..] + [1]);
    }

    /** Fills the node buffer with the values of a leaf and their rows; the last leaf takes
        what is left. */
    method FillLeaf(sorted: array<int>, nKeys: array<int>, nPtrs: array<nat>, counter: nat)
      returns (ok: bool, nSize: nat, last: bool)
      requires 4 <= B < UINT_END && counter < sorted.Length < UINT_END && (counter == 0 || counter >= B - 1)
      requires nKeys.Length == B - 1 && nPtrs.Length == B && sorted != nKeys
      modifies nKeys, nPtrs
      ensures ok <==> sorted.Length >= B - 1 || counter > 0
      ensures ok ==> nSize == Min(B - 1, sorted.Length - counter) && (last <==> counter + B - 1 > sorted.Length)
      ensures forall k :: Min(B - 1, sorted.Length - counter) <= k < B ==> nPtrs[k] == old(nPtrs[k])
      ensures ok ==> nKeys[..nSize] == sorted[counter..counter + nSize] && nPtrs[..nSize] == Rows(counter, counter + nSize)
    {
      hide Rows;
      LastLeafTest(B, sorted.Length, counter);
      ok, nSize, last := true, B - 1, false;
      if counter > (sorted.Length - B + 1) % UINT_END {
        nSize, last := sorted.Length - counter, true;
      } else if counter + B - 1 > sorted.Length {
        return false, 0, false;  // this copy reads behind the values
      }
      Memcpy(nKeys, sorted, counter, nSize);
      var next := NumberRows(nPtrs, counter, nSize);
      RowsAre(nPtrs[..], counter, nSize);
    }

    /** Fills a pointer buffer with consecutive row numbers. */
    method NumberRows(nPtrs: array<nat>, from: nat, count: nat) returns (counter: nat)
      requires count <= nPtrs.Length
      modifies nPtrs
      ensures counter == from + count
      ensures forall k :: 0 <= k < count ==> nPtrs[k] == from + k
      ensures forall k :: count <= k < nPtrs.Length ==> nPtrs[k] == old(nPtrs[k])
    {
      var j := 0;
      while j < count
        invariant 0 <= j <= count
        invariant forall k :: 0 <= k < j ==> nPtrs[k] == from + k
        invariant forall k :: count <= k < nPtrs.Length ==> nPtrs[k] == old(nPtrs[k])
      {
        nPtrs[j] := from + j;
        j := j + 1;
      }
      counter := from + count;
    }

    /** One interior node of a bulk load, built in the node buffer. */
    method LoadInterior(keys: array<int>, pointers: array<nat>, nKeys: array<int>, nPtrs: array<nat>,
                        numNodes: nat, counter0: nat, start: nat, parent: nat, nSize0: nat,
                        ghost s: seq<int>, ghost left: seq<nat>)
      returns (counter: nat, nSize: nat)
      requires B >= 4 && keys != nKeys && pointers != nPtrs && nKeys.Length == B - 1 && nPtrs.Length == B
      requires numNodes <= keys.Length && numNodes <= pointers.Length && B < numNodes && |disk| == |nodes|
      requires counter0 == start < numNodes && Guided(B, s, nodes, left)
      requires start + B > numNodes ==> nSize0 == B - 1 && BufferOk(B, s, nodes, left, nKeys[..], nPtrs[..])
      requires forall k :: start <= k < Min(start + B, numNodes) ==>
        pointers[k] < |nodes| && keys[k] == FirstKey(B, s, left, pointers[k])
      modifies this`nodes, this`disk, nKeys, nPtrs
      ensures counter == Min(start + B, numNodes) && nSize == B - 1
      ensures disk == old(disk) + [nPtrs[..] + [0]]
      ensures BufferOk(B, s, old(nodes), left, nKeys[..], nPtrs[..])
      ensures nodes == old(nodes) + [Node(false, nKeys[..], nPtrs[..], parent, 0, old(|nodes|))]
      ensures forall c :: 0 <= c < Min(B, numNodes - start) ==> nPtrs[c] == pointers[start + c]
      ensures forall c :: Min(B, numNodes - start) <= c < B ==> nPtrs[c] == old(nPtrs[c])
    {
      hide FirstKey;
      counter, nSize := counter0, nSize0;
      ghost var keys0, ptrs0 := nKeys[..], nPtrs[..];
      if counter > numNodes - B {
        // the node keeps the size of the full node before it, and with it a stale tail
        if numNodes == 1 {
          assert false;  // a level that needs more than one node has more than B entries
        } else {
          Memcpy(nKeys, keys, start + 1, numNodes - counter - 1);
          Memcpy(nPtrs, pointers, start, numNodes - counter);
        }
        counter := numNodes;
      } else {
        Memcpy(nKeys, keys, start + 1, B - 1);
        Memcpy(nPtrs, pointers, start, B);
        nSize := B - 1;
        counter := counter + B;
      }
      BufferKept(B, s, nodes, left, keys0, ptrs0, nKeys[..], nPtrs[..], keys[..numNodes], pointers[..numNodes],
                 start, Min(B, numNodes - start));
      assert nKeys[..nSize] == nKeys[..] && nPtrs[..nSize + 1] == nPtrs[..];
      WriteNode(Node(false, nKeys[..nSize], nPtrs[..nSize + 1], parent, 0, |nodes|), nPtrs[..] + [0]);
    }

    /** One level of a bulk load: the entries of the level below are consumed from left
        to right, and the entries of the new level overwrite them from the front. */
    method LoadLevel(keys: array<int>, pointers: array<nat>, nKeys: array<int>, nPtrs: array<nat>,
                     numNodes: nat, newNum: nat, nSize0: nat, ghost s: seq<int>, ghost left0: seq<nat>)
      returns (nSize: nat, ghost left: seq<nat>)
      requires B >= 4 && keys != nKeys && pointers != nPtrs && nKeys.Length == B - 1 && nPtrs.Length == B
      requires B < numNodes <= keys.Length == pointers.Length && newNum == GetCeil(numNodes, B)
      requires Guided(B, s, nodes, left0) && Entries(B, s, nodes, left0, keys[..], pointers[..], numNodes) && OnDisk()
      requires Carried(B, nodes, disk) && InBuffer(B, disk, nPtrs[..])
      modifies this`nodes, this`disk, keys, pointers, nKeys, nPtrs
      ensures Carried(B, nodes, disk) && InBuffer(B, disk, nPtrs[..])
      ensures Guided(B, s, nodes, left) && Entries(B, s, nodes, left, keys[..], pointers[..], newNum) && OnDisk()
      ensures |nodes| == old(|nodes|) + newNum && old(nodes) <= nodes && left0 <= left
      ensures forall k :: 0 <= k < newNum ==> pointers[k] == old(|nodes|) + k
      ensures forall k :: 0 <= k < numNodes ==> HasParent(nodes, old(pointers[k]))
      ensures nodes[old(|nodes|)].next == 0 && nodes[old(|nodes|)].keys != []
      ensures LevelHolds(B, nodes, old(|nodes|), old(pointers[..]), numNodes)
    {
      hide FileAgrees, Carried, InBuffer, NodeHolds, LastCopied, GetCeil, Guided, BuiltUpTo, BufferOk, Entries, FirstKey, LeafCount;
      ghost var K, P, f := keys[..], pointers[..], nodes;
      left, nSize := left0, nSize0;
      var i, counter, totalNodes := 0, 0, |nodes|;
      LevelStart(B, s, K, P, numNodes, f, left0, newNum, nKeys[..], nPtrs[..]);
      while i < newNum
        invariant 0 <= i <= newNum && totalNodes == |nodes| && counter == Min(i * B, numNodes)
        invariant i > 0 ==> nSize == B - 1
        invariant OnDisk() && Carried(B, nodes, disk) && InBuffer(B, disk, nPtrs[..])
        invariant Building(B, s, K, P, numNodes, f, left0, newNum, nodes, left, keys[..], pointers[..], nKeys[..], nPtrs[..], i)
      {
        LevelStep(B, s, K, P, numNodes, f, left0, left, i, newNum, i * B);
        counter, nSize, left := LoadLevelNode(keys, pointers, nKeys, nPtrs, numNodes, newNum, nSize, i, counter, totalNodes,
                                              s, K, P, f, left0, left);
        totalNodes := totalNodes + 1;
        i := i + 1;
      }
      LevelDone(B, s, K, P, numNodes, f, left0, newNum, nodes, left, keys[..], pointers[..]);
    }

    /** One node of a level, and its entry for the next level. */
    method LoadLevelNode(keys: array<int>, pointers: array<nat>, nKeys: array<int>, nPtrs: array<nat>,
                         numNodes: nat, newNum: nat, nSize0: nat, i: nat, counter0: nat, totalNodes: nat,
                         ghost s: seq<int>, ghost K: seq<int>, ghost P: seq<nat>, ghost f: File, ghost left0: seq<nat>,
                         ghost left1: seq<nat>)
      returns (counter: nat, nSize: nat, ghost left: seq<nat>)
      requires B >= 4 && keys != nKeys && pointers != nPtrs && nKeys.Length == B - 1 && nPtrs.Length == B
      requires i < newNum && totalNodes == |nodes| && counter0 == i * B && i <= counter0 < numNodes && OnDisk()
      requires B < numNodes <= keys.Length == pointers.Length && newNum <= keys.Length
      requires Carried(B, nodes, disk) && InBuffer(B, disk, nPtrs[..])
      requires i > 0 ==> nSize0 == B - 1
      requires i == 0 ==> counter0 + B <= numNodes
      requires Building(B, s, K, P, numNodes, f, left0, newNum, nodes, left1, keys[..], pointers[..], nKeys[..], nPtrs[..], i)
      requires P[counter0] < |left0|
      requires forall k :: counter0 <= k < Min(counter0 + B, numNodes) ==> P[k] < |f| && K[k] == FirstKey(B, s, left1, P[k])
      modifies this`nodes, this`disk, keys, pointers, nKeys, nPtrs
      ensures counter == Min(counter0 + B, numNodes) && nSize == B - 1 && OnDisk()
      ensures Carried(B, nodes, disk) && InBuffer(B, disk, nPtrs[..])
      ensures Building(B, s, K, P, numNodes, f, left0, newNum, nodes, left, keys[..], pointers[..], nKeys[..], nPtrs[..], i + 1)
    {
      hide FirstKey, Guided, Building, BufferOk, FileAgrees, Share, Carried, InBuffer;
      var start := counter0;
      var parent := totalNodes + newNum - i + Share(i, B);
      ghost var nodes1, keys1, pointers1, bufK, bufP := nodes, keys[..], pointers[..], nKeys[..], nPtrs[..];
      BuildingHas(B, s, K, P, numNodes, f, left0, newNum, nodes, left1, keys[..], pointers[..], nKeys[..], nPtrs[..], i);
      counter, nSize := LoadInterior(keys, pointers, nKeys, nPtrs, numNodes, counter0, start, parent, nSize0, s, left1);
      ghost var n := nodes[totalNodes];
      BufferAgrees(B, nodes1, disk[..|nodes1|], n, nPtrs[..]);
      CarriedOn(B, nodes1, disk[..|nodes1|], bufP, n, nPtrs[..], 0);
      LevelNodeDone(B, s, K, P, numNodes, f, left0, newNum, nodes1, left1, keys1, pointers1, i, start, bufK, bufP, n);
      keys[i] := keys[start];
      pointers[i] := totalNodes;
      assert keys[..] == keys1[i := keys1[start]] && pointers[..] == pointers1[i := totalNodes];
      left := Extended(left1, left1[nPtrs[0]]);
    }

    /** Level upon level, until at most B nodes have no parent yet. */
    method LoadLevels(keys: array<int>, pointers: array<nat>, nKeys: array<int>, nPtrs: array<nat>, numNodes0: nat,
                      ghost s: seq<int>, ghost left1: seq<nat>)
      returns (numNodes: nat, ghost left: seq<nat>, ghost h: nat)
      requires B >= 4 && keys != nKeys && pointers != nPtrs && nKeys.Length == B - 1 && nPtrs.Length == B
      requires 0 < numNodes0 <= keys.Length == pointers.Length && numNodes0 == |nodes|
      requires Staged(B, s, nodes, left1, keys[..], pointers[..], numNodes0) && OnDisk()
      requires Carried(B, nodes, disk) && InBuffer(B, disk, nPtrs[..])
      modifies this`nodes, this`disk, keys, pointers, nKeys, nPtrs
      ensures 0 < numNodes <= keys.Length && GetCeil(numNodes, B) == 1
      ensures Staged(B, s, nodes, left, keys[..], pointers[..], numNodes)
      ensures Reached(B, nodes, numNodes0, h, numNodes) && OnDisk()
      ensures Carried(B, nodes, disk) && InBuffer(B, disk, nPtrs[..])
    {
      hide Carried, InBuffer, Guided, Entries, GetCeil, Staged, HasParent, LeafCount, NodeHolds, Storey, LevelHolds, FileAgrees;
      numNodes, left, h := numNodes0, left1, 0;
      var nSize := 0;
      var newNum := GetCeil(numNodes, B);
      while newNum != 1
        invariant 0 < numNodes <= keys.Length && newNum == GetCeil(numNodes, B)
        invariant Staged(B, s, nodes, left, keys[..], pointers[..], numNodes)
        invariant Reached(B, nodes, numNodes0, h, numNodes) && OnDisk()
        invariant Carried(B, nodes, disk) && InBuffer(B, disk, nPtrs[..])
        decreases numNodes
      {
        ghost var f, left0, keys0, pointers0 := nodes, left, keys[..], pointers[..];
        LevelsShrink(B, numNodes);
        LoadingNext(B, s, f, left0, keys0, pointers0, numNodes);
        nSize, left := LoadLevel(keys, pointers, nKeys, nPtrs, numNodes, newNum, nSize, s, left);
        NextLevel(B, s, f, left0, keys0, pointers0, numNodes, nodes, left, keys[..], pointers[..], newNum);
        StoreyDone(B, s, f, left0, keys0, pointers0, numNodes, nodes);
        LevelReached(B, f, nodes, numNodes0, h, numNodes);
        h := h + 1;
        numNodes := newNum;
        newNum := GetCeil(numNodes, B);
      }
    }

    /** The root of a bulk load. */
    method LoadRoot(keys: array<int>, pointers: array<nat>, nKeys: array<int>, nPtrs: array<nat>, numNodes: nat,
                    ghost s: seq<int>, ghost left: seq<nat>, ghost n0: nat, ghost h: nat)
      requires B >= 4 && keys != nKeys && pointers != nPtrs && nKeys.Length == B - 1 && nPtrs.Length == B
      requires 0 < numNodes <= keys.Length == pointers.Length && GetCeil(numNodes, B) == 1
      requires Staged(B, s, nodes, left, keys[..], pointers[..], numNodes) && Reached(B, nodes, n0, h, numNodes)
      requires OnDisk() && Carried(B, nodes, disk) && InBuffer(B, disk, nPtrs[..])
      modifies this`nodes, this`disk, this`nextFree, this`root, nKeys, nPtrs
      ensures Loaded(B, s, nodes, Extended(left, 0), root) && nextFree == |nodes|
      ensures Storeyed(B, nodes, n0, h) && OnDisk() && |disk| == |nodes| && Carried(B, nodes, disk)
    {
      hide Guided, Staged, Loaded, Reached, Storeyed, FileAgrees, Carried, InBuffer;
      ghost var before := nPtrs[..];
      LevelsShrink(B, numNodes);
      Memcpy(nKeys, keys, 1, numNodes - 1);
      Memcpy(nPtrs, pointers, 0, numNodes);
      var n := Node(false, nKeys[..numNodes - 1], nPtrs[..numNodes], 0, 0, |nodes|);
      assert n.keys == keys[..][1..numNodes] && n.pointers == pointers[..][..numNodes];
      RootDone(B, s, nodes, left, keys[..], pointers[..], numNodes, n);
      RootTops(B, s, nodes, left, keys[..], pointers[..], numNodes, n, n0, h);
      BufferAgrees(B, nodes, disk, n, nPtrs[..]);
      CarriedOn(B, nodes, disk, before, n, nPtrs[..], 0);
      WriteNode(n, nPtrs[..] + [0]);
      nextFree := |nodes|;
      root := n.pos;
    }

    /** Builds the tree of sorted values, whose rows are their indices.  Without values the
        loop over levels never ends; with fewer than a leaf holds, the code reads behind them.
        Otherwise searching is right exactly when the last leaf is not full or is the only one,
        and over distinct ints the result is a tree, which insertion can continue, exactly when
        the last leaf is not full and no node is stale. */
    method BulkLoad(sorted: array<int>) returns (outcome: LoadOutcome, ghost left: seq<nat>, ghost h: nat)
      requires Valid() && size == 0 && sorted.Length < UINT_END
      modifies this
      ensures outcome.Hangs? <==> sorted.Length == 0
      ensures outcome.Done? <==> sorted.Length >= B - 1
      ensures outcome.Done? ==> Loaded(B, sorted[..], nodes, left, root) && Storeyed(B, nodes, LeafCount(B, sorted[..]), h)
      ensures outcome.Done? ==> size == LeafCount(B, sorted[..]) && nextFree == |nodes| && OnDisk() && View() == nodes
      ensures outcome.Done? ==> Carried(B, nodes, disk)
      ensures outcome.Done? && Sorted(sorted[..]) ==> Searchable(nodes, root, root, WalkedChain(B, sorted[..]))
      ensures outcome.Done? && Sorted(sorted[..]) && sorted[0] < INT_END ==>
                (SearchesRight(nodes, root, Indexed(sorted[..], 0)) <==> sorted.Length % (B - 1) != 0 || sorted.Length == B - 1)
      ensures outcome.Done? && DistinctInts(sorted[..]) ==> (IsTree(B, nodes, root) <==> Continues(B, sorted[..]))
      ensures outcome.Done? && DistinctInts(sorted[..]) && Continues(B, sorted[..]) ==>
                Valid() && Stock() == Indexed(sorted[..], 0)
    {
      hide Guided, Entries, LeavesOk, GetCeil, Staged, Loaded, StartKey, Tree, Searchable, SearchesRight,
           IsTree, Continues, DistinctInts, Reached, Storeyed, Indexed, Contents, Flat, Bounds.Sorted, FileAgrees, Carried,
           InBuffer;
      ghost var s := sorted[..];
      var numNodes := GetCeil(sorted.Length, B - 1);
      size := numNodes;
      var keys, pointers := new int[numNodes], new nat[numNodes];
      var nKeys, nPtrs := new int[B - 1], new nat[B];
      var ok := LoadLeaves(sorted, keys, pointers, nKeys, nPtrs, numNodes);
      if !ok {
        return ReadsOutside, [], 0;
      }
      NoLevel(B, |s|);
      if numNodes == 0 {
        return Hangs, [], 0;  // the number of nodes stays 0, which is not 1
      }
      LeavesDone(B, s, nodes, keys[..], pointers[..]);
      left := Rows(0, numNodes);
      numNodes, left, h := LoadLevels(keys, pointers, nKeys, nPtrs, numNodes, s, left);
      LoadRoot(keys, pointers, nKeys, nPtrs, numNodes, s, left, size, h);
      left := Extended(left, 0);
      ReadBack(B, nodes, disk);
      Describe(s, left, h);
      outcome := Done;
    }

    /** Gives a loaded file its ghost description. */
    ghost method Describe(s: seq<int>, left: seq<nat>, h: nat)
      requires B >= 4 && |s| >= B - 1 && Loaded(B, s, nodes, left, root) && Storeyed(B, nodes, LeafCount(B, s), h)
      requires nextFree == |nodes| == |disk| && B < UINT_END && size == LeafCount(B, s)
      modifies this`levels, this`rank
      ensures Sorted(s) ==> Searchable(nodes, root, root, WalkedChain(B, s))
      ensures Sorted(s) && s[0] < INT_END ==>
                (SearchesRight(nodes, root, Indexed(s, 0)) <==> |s| % (B - 1) != 0 || |s| == B - 1)
      ensures DistinctInts(s) ==> (IsTree(B, nodes, root) <==> Continues(B, s))
      ensures DistinctInts(s) && Continues(B, s) ==> Valid() && Stock() == Indexed(s, 0)
    {
      hide Loaded, Storeyed, StartKey, Tree, IsTree, Continues, DistinctInts, Searchable, SearchesRight, Indexed, Contents,
           Bounds.Sorted, LeafCount;
      if Sorted(s) {
        LoadedSearchable(B, s, nodes, left, root);
        if s[0] < INT_END {
          SearchesRightIff(B, s, nodes, left, root);
        }
      }
      if DistinctInts(s) {
        LoadedTreeIff(B, s, nodes, left, root, h);
        if Continues(B, s) {
          LoadedTree(B, s, nodes, left, root, h);
          levels, rank := Floors(B, s, left, h), FloorRanks(B, LeafCount(B, s), h, |nodes|);
        }
      }
    }
  }

  /** What the addition that ended an insertion means for searching. */
  lemma SearchesAfter(tree: TreeFile, at: Addition)
    requires tree.Valid() && tree.size > 0 && tree.HalfFull() && SeenAs(tree.B, tree.nodes, tree.View(), at)
    ensures SearchesRight(tree.View(), tree.root, tree.Stock()) <==> !Spills(tree.B, at)
  {
    hide LevelsOk, Contents, Occupied, SearchesRight, SeenAs;
    RightUnlessSpilled(tree.B, tree.nodes, tree.levels, tree.rank, tree.root, tree.View(), at);
  }

  /** The tree of a single record. */
  lemma FirstRecord(B: nat, leaf: Node, key: int, row: nat)
    requires B >= 4 && INT_MIN <= key < INT_END && leaf == Node(true, [key], [row], 0, 0, 0)
    ensures var levels := [[Entry(0, INT_MIN, INT_END)]];
            && Tree(B, [leaf], levels, [0], 0) && Occupied(B, [leaf], levels)
            && Contents([leaf], levels[0]) == [Record(key, row)]
  {
    var lev := [Entry(0, INT_MIN, INT_END)];
    assert NodeCount([lev]) == 1 + NodeCount([lev][1..]);
    assert Positions(lev) == [0];
    assert Stored([leaf], [0]) == Payload(leaf) + [];
    assert Successor(lev, 0) == 0;
    assert LevelOk(B, [leaf], lev, [0], 0);
  }

  lemma ReparentOneMore(f: File, kids: seq<nat>, i: nat, parent: nat)
    requires i < |kids| && kids[i] < |f|
    ensures Reparented(f, kids[..i + 1], parent)
         == Reparented(f, kids[..i], parent)[kids[i] := f[kids[i]].(parent := parent)]
  {
  }
}
