/** Descending from the root and walking the leaf chain. */
module TreeSearch {
  import opened Records
  import opened TreeShape
  import opened TreeLemmas
  import opened TreeSteps

  // ----- the descent -----

  /** How many leading keys lie below `key`. */
  function CountBelow(keys: seq<int>, key: int): nat {
    if keys == [] || key <= keys[0] then 0 else 1 + CountBelow(keys[1..], key)
  }

  lemma {:induction false} CountBelowOk(keys: seq<int>, key: int)
    ensures CountBelow(keys, key) <= |keys|
    ensures forall i :: 0 <= i < CountBelow(keys, key) ==> keys[i] < key
    ensures CountBelow(keys, key) < |keys| ==> key <= keys[CountBelow(keys, key)]
  {
    if keys != [] && keys[0] < key {
      CountBelowOk(keys[1..], key);
    }
  }

  lemma {:induction false} CountBelowIs(keys: seq<int>, key: int, c: nat)
    requires c <= |keys| && (forall i :: 0 <= i < c ==> keys[i] < key) && (c < |keys| ==> key <= keys[c])
    ensures CountBelow(keys, key) == c
  {
    if c > 0 {
      CountBelowIs(keys[1..], key, c - 1);
    }
  }

  /** Below p there are at most h levels, and every interior node has one pointer
      more than keys, each naming a node of the file. */
  ghost predicate Walkable(f: File, p: nat, h: nat)
    decreases h
  {
    && p < |f|
    && (!f[p].isLeaf ==>
          && h > 0 && |f[p].pointers| == |f[p].keys| + 1
          && forall c :: 0 <= c < |f[p].pointers| ==> Walkable(f, f[p].pointers[c], h - 1))
  }

  /** The leaf a search for `key` arrives at. */
  ghost function Descend(f: File, p: nat, key: int, h: nat): nat
    decreases h
  {
    var n := At(f, p);
    var c := CountBelow(n.keys, key);
    if n.isLeaf || h == 0 || c >= |n.pointers| then p
    else Descend(f, n.pointers[c], key, h - 1)
  }

  lemma {:induction false} DescendEnds(f: File, p: nat, key: int, h: nat)
    requires Walkable(f, p, h)
    ensures Descend(f, p, key, h) < |f| && f[Descend(f, p, key, h)].isLeaf
    decreases h
  {
    if !f[p].isLeaf {
      CountBelowOk(f[p].keys, key);
      DescendEnds(f, f[p].pointers[CountBelow(f[p].keys, key)], key, h - 1);
    }
  }

  // ----- chains -----

  predicate NextIs(f: File, chain: seq<nat>, i: nat)
    requires ChainInFile(f, chain) && i < |chain|
  {
    f[chain[i]].next == if i + 1 < |chain| then chain[i + 1] else 0
  }

  /** `next` links the nodes of the chain; position 0 can only come first. */
  ghost predicate Linked(f: File, chain: seq<nat>) {
    && ChainInFile(f, chain)
    && (forall i {:trigger NextIs(f, chain, i)} :: 0 <= i < |chain| ==> NextIs(f, chain, i))
    && (forall i :: 0 < i < |chain| ==> chain[i] != 0)
    && (forall i :: 0 <= i < |chain| ==> |f[chain[i]].keys| <= |f[chain[i]].pointers|)
  }

  /** p is the i-th node of the chain and all records before it lie below `key`. */
  ghost predicate Lands(f: File, chain: seq<nat>, p: nat, key: int, i: nat) {
    i < |chain| && chain[i] == p && KeysBelow(Stored(f, chain[..i]), key)
  }

  ghost predicate LandsSomewhere(f: File, chain: seq<nat>, p: nat, key: int) {
    exists i: nat :: Lands(f, chain, p, key, i)
  }

  /** What a file needs for range searches along `chain` to work. */
  ghost predicate Searchable(f: File, root: nat, h: nat, chain: seq<nat>) {
    && Walkable(f, root, h) && Linked(f, chain)
    && forall key :: key < INT_END ==> LandsSomewhere(f, chain, Descend(f, root, key, h), key)
  }

  // ----- what a search returns -----

  /** A walk stops in a node that has a key above the range. */
  ghost predicate Stops(n: Node, high: int) {
    exists i :: 0 <= i < |n.keys| && n.keys[i] > high
  }

  ghost predicate Follows(f: File, chain: seq<nat>, i: nat)
    requires ChainInFile(f, chain) && i + 1 < |chain|
  {
    f[chain[i]].next == chain[i + 1] != 0
  }

  /** `next` leads a walk along the chain up to its last node, and no further. */
  ghost predicate Leads(f: File, chain: seq<nat>, high: int) {
    && chain != [] && ChainInFile(f, chain)
    && (forall i :: 0 <= i < |chain| ==> |f[chain[i]].keys| <= |f[chain[i]].pointers|)
    && (forall i {:trigger Follows(f, chain, i)} :: 0 <= i < |chain| - 1 ==> Follows(f, chain, i))
    && (f[chain[|chain| - 1]].next == 0 || Stops(f[chain[|chain| - 1]], high))
  }

  /** The nodes a range search visits after its descent. */
  ghost predicate Visits(f: File, root: nat, h: nat, chain: seq<nat>, low: int, high: int) {
    Walkable(f, root, h) && Leads(f, chain, high) && chain[0] == Descend(f, root, low, h)
  }

  /** What a range search returns: a scan of the nodes it visits. */
  ghost predicate SearchOutcome(f: File, root: nat, low: int, high: int, rows: seq<nat>) {
    exists h: nat, chain :: Visits(f, root, h, chain, low, high) && rows == Scan(Stored(f, chain), low, high)
  }

  /** Every range search returns the full selection. */
  ghost predicate SearchesRight(f: File, root: nat, stock: seq<Record>) {
    forall low, high, rows :: low < INT_END && SearchOutcome(f, root, low, high, rows) ==> rows == Select(stock, low, high)
  }

  lemma {:induction false} SameDescent(f: File, p: nat, key: int, h: nat, h': nat)
    requires Walkable(f, p, h) && h <= h'
    ensures Descend(f, p, key, h') == Descend(f, p, key, h)
    decreases h
  {
    if !f[p].isLeaf {
      CountBelowOk(f[p].keys, key);
      SameDescent(f, f[p].pointers[CountBelow(f[p].keys, key)], key, h - 1, h' - 1);
    }
  }

  lemma {:induction false} ScanStopped(a: seq<Record>, b: seq<Record>, low: int, high: int, i: nat)
    requires i < |a| && a[i].key > high
    ensures Scan(a + b, low, high) == Scan(a, low, high)
  {
    assert (a + b)[1..] == a[1..] + b;
    if i > 0 {
      ScanStopped(a[1..], b, low, high, i - 1);
    }
  }

  /** The chain without its first node. */
  lemma LeadsOn(f: File, chain: seq<nat>, low: int, high: int)
    requires Leads(f, chain, high)
    ensures chain != [] && chain[0] < |f| && |f[chain[0]].keys| <= |f[chain[0]].pointers|
    ensures var n, rest := f[chain[0]], chain[1..];
            && Stored(f, chain) == Payload(n) + Stored(f, rest)
            && (Stops(n, high) ==> Scan(Stored(f, chain), low, high) == Scan(Payload(n), low, high))
            && (!Stops(n, high) ==> Scan(Stored(f, chain), low, high)
                                    == Scan(Payload(n), low, high) + Scan(Stored(f, rest), low, high))
            && (!Stops(n, high) ==> n.next < |f|)
            && (|chain| == 1 ==> n.next == 0 || Stops(n, high))
            && (|chain| > 1 ==> n.next == rest[0] != 0 && Leads(f, rest, high))
  {
    var n, rest := f[chain[0]], chain[1..];
    if Stops(n, high) {
      var i :| 0 <= i < |n.keys| && n.keys[i] > high;
      assert Payload(n)[i].key > high;
      ScanStopped(Payload(n), Stored(f, rest), low, high, i);
    } else {
      ScanConcat(Payload(n), Stored(f, rest), low, high);
    }
    if |chain| > 1 {
      assert Follows(f, chain, 0);
      forall i | 0 <= i < |rest| - 1
        ensures Follows(f, rest, i)
      {
        assert Follows(f, chain, i + 1);
      }
    }
  }

  lemma StoredEmpty(f: File, low: int, high: int)
    ensures Scan(Stored(f, []), low, high) == []
  {
  }

  /** Where a search starts. */
  lemma WaysIn(f: File, root: nat, h: nat, chain: seq<nat>, low: int, high: int)
    requires Visits(f, root, h, chain, low, high)
    ensures root < |f| && chain != [] && chain[0] == Descend(f, root, low, h) < |f|
  {
  }

  lemma {:induction false} OneWalk(f: File, a: seq<nat>, b: seq<nat>, low: int, high: int)
    requires Leads(f, a, high) && Leads(f, b, high) && a[0] == b[0]
    ensures Scan(Stored(f, a), low, high) == Scan(Stored(f, b), low, high)
    decreases |a|
  {
    hide Leads, Stops, Scan, Stored;
    LeadsOn(f, a, low, high);
    LeadsOn(f, b, low, high);
    if |a| > 1 && |b| > 1 {
      OneWalk(f, a[1..], b[1..], low, high);
    } else if |a| == |b| == 1 {
      assert a == b;
    }
  }

  /** A range search of any file, in order or not, has one outcome. */
  lemma OneOutcome(f: File, root: nat, low: int, high: int, rows: seq<nat>, rows': seq<nat>)
    requires SearchOutcome(f, root, low, high, rows) && SearchOutcome(f, root, low, high, rows')
    ensures rows == rows'
  {
    hide Scan, Stored, Leads, Walkable, Descend;
    var h, a :| Visits(f, root, h, a, low, high) && rows == Scan(Stored(f, a), low, high);
    var h', b :| Visits(f, root, h', b, low, high) && rows' == Scan(Stored(f, b), low, high);
    if h <= h' {
      SameDescent(f, root, low, h, h');
    } else {
      SameDescent(f, root, low, h', h);
    }
    OneWalk(f, a, b, low, high);
  }

  lemma Landing(f: File, root: nat, h: nat, chain: seq<nat>, key: int) returns (i: nat)
    requires Searchable(f, root, h, chain) && key < INT_END
    ensures Walkable(f, root, h) && Linked(f, chain)
    ensures i < |chain| && chain[i] == Descend(f, root, key, h) < |f| && Lands(f, chain, Descend(f, root, key, h), key, i)
  {
    assert LandsSomewhere(f, chain, Descend(f, root, key, h), key);
    i :| Lands(f, chain, Descend(f, root, key, h), key, i);
  }

  lemma SortedSuffix(a: seq<Record>, b: seq<Record>)
    requires KeysSorted(a + b)
    ensures KeysSorted(b)
  {
    forall j, k | 0 <= j < k < |b|
      ensures b[j].key <= b[k].key
    {
      assert (a + b)[|a| + j] == b[j] && (a + b)[|a| + k] == b[k];
    }
  }

  /** In a searchable file a walk from any node of the chain follows the chain. */
  lemma LinkedLeads(f: File, chain: seq<nat>, i: nat, high: int)
    requires Linked(f, chain) && i < |chain|
    ensures Leads(f, chain[i..], high)
  {
    var rest := chain[i..];
    forall k | 0 <= k < |rest| - 1
      ensures Follows(f, rest, k)
    {
      assert NextIs(f, chain, i + k);
    }
    assert NextIs(f, chain, |chain| - 1);
  }

  /** The search of a searchable file has an outcome. */
  lemma OutcomeIs(f: File, root: nat, h: nat, chain: seq<nat>, low: int, high: int) returns (i: nat)
    requires Searchable(f, root, h, chain) && low < INT_END
    ensures ChainInFile(f, chain) && i < |chain| && KeysBelow(Stored(f, chain[..i]), low)
    ensures Visits(f, root, h, chain[i..], low, high)
    ensures SearchOutcome(f, root, low, high, Scan(Stored(f, chain[i..]), low, high))
  {
    hide Walkable, Stored, Scan, Descend;
    i := Landing(f, root, h, chain, low);
    LinkedLeads(f, chain, i, high);
    assert Visits(f, root, h, chain[i..], low, high);
  }

  /** On sorted records every outcome is the full selection, although the search
      starts somewhere in the middle and stops early. */
  lemma OutcomeIsSelect(f: File, root: nat, h: nat, chain: seq<nat>, low: int, high: int, rows: seq<nat>)
    requires Searchable(f, root, h, chain) && KeysSorted(Stored(f, chain)) && low < INT_END
    requires SearchOutcome(f, root, low, high, rows)
    ensures rows == Select(Stored(f, chain), low, high)
  {
    hide Searchable, SearchOutcome, Visits, Scan, Select, Stored;
    var i := OutcomeIs(f, root, h, chain, low, high);
    OneOutcome(f, root, low, high, rows, Scan(Stored(f, chain[i..]), low, high));
    var a, b := Stored(f, chain[..i]), Stored(f, chain[i..]);
    assert chain == chain[..i] + chain[i..];
    StoredConcat(f, chain[..i], chain[i..]);
    SelectConcat(a, b, low, high);
    SelectNothing(a, low, high);
    SortedSuffix(a, b);
    ScanIsSelect(b, low, high);
  }

  lemma SearchableRight(f: File, root: nat, h: nat, chain: seq<nat>)
    requires Searchable(f, root, h, chain) && KeysSorted(Stored(f, chain))
    ensures SearchesRight(f, root, Stored(f, chain))
  {
    hide Searchable, SearchOutcome, Select, Stored, KeysSorted;
    forall low, high, rows | low < INT_END && SearchOutcome(f, root, low, high, rows)
      ensures rows == Select(Stored(f, chain), low, high)
    {
      OutcomeIsSelect(f, root, h, chain, low, high, rows);
    }
  }

  // ----- trees kept by insertion are searchable -----

  /** The c-th child of entry i is an entry of the level below. */
  lemma ChildEntry(B: nat, f: File, levels: seq<Level>, rank: seq<nat>, root: nat, l: nat, i: nat, c: nat)
    returns (j: nat)
    requires Tree(B, f, levels, rank, root) && 0 < l < |levels| && i < |levels[l]|
    requires InFile(f, levels[l]) && c < |f[levels[l][i].pos].pointers|
    ensures j < |levels[l - 1]| && levels[l - 1][j] == Kid(f[levels[l][i].pos], levels[l][i], c)
  {
    FlatAt(f, levels[l], i, c);
    j := |Flat(f, levels[l][..i])| + c;
    assert Settled(f, levels, root, l - 1);
  }

  lemma {:induction false} TreeWalkable(B: nat, f: File, levels: seq<Level>, rank: seq<nat>, root: nat, l: nat, i: nat)
    requires Tree(B, f, levels, rank, root) && l < |levels| && i < |levels[l]|
    ensures Walkable(f, levels[l][i].pos, l)
    decreases l
  {
    var p := levels[l][i].pos;
    assert LevelOk(B, f, levels[l], rank, l) && NodeOk(B, f[p], levels[l][i], l);
    if l > 0 {
      forall c | 0 <= c < |f[p].pointers|
        ensures Walkable(f, f[p].pointers[c], l - 1)
      {
        var j := ChildEntry(B, f, levels, rank, root, l, i, c);
        TreeWalkable(B, f, levels, rank, root, l - 1, j);
      }
    }
  }

  /** The interval of the entry a search for `key` passes through. */
  ghost predicate Covers(e: Entry, key: int) {
    (e.lo < key || e.lo == INT_MIN) && key <= e.hi
  }

  /** The descent goes on to a child whose interval covers the key. */
  lemma CoveredChild(B: nat, f: File, levels: seq<Level>, rank: seq<nat>, root: nat, l: nat, i: nat, key: int)
    returns (k: nat)
    requires Tree(B, f, levels, rank, root) && 0 < l < |levels| && i < |levels[l]| && Covers(levels[l][i], key)
    ensures k < |levels[l - 1]| && Covers(levels[l - 1][k], key)
    ensures levels[l][i].pos < |f| == |rank| && rank[levels[l][i].pos] == l
    ensures var n := f[levels[l][i].pos];
            && !n.isLeaf && CountBelow(n.keys, key) < |n.pointers|
            && levels[l - 1][k].pos == n.pointers[CountBelow(n.keys, key)]
  {
    var e := levels[l][i];
    assert LevelOk(B, f, levels[l], rank, l) && NodeOk(B, f[e.pos], e, l);
    CountBelowOk(f[e.pos].keys, key);
    k := ChildEntry(B, f, levels, rank, root, l, i, CountBelow(f[e.pos].keys, key));
  }

  lemma {:induction false} TreeDescends(B: nat, f: File, levels: seq<Level>, rank: seq<nat>, root: nat,
                                        l: nat, i: nat, key: int) returns (j: nat)
    requires Tree(B, f, levels, rank, root) && l < |levels| && i < |levels[l]| && Covers(levels[l][i], key)
    ensures j < |levels[0]| && Covers(levels[0][j], key)
    ensures Descend(f, levels[l][i].pos, key, l) == levels[0][j].pos
    decreases l
  {
    if l == 0 {
      assert LevelOk(B, f, levels[0], rank, 0) && NodeOk(B, f[levels[0][i].pos], levels[0][i], 0);
      j := i;
    } else {
      var k := CoveredChild(B, f, levels, rank, root, l, i, key);
      j := TreeDescends(B, f, levels, rank, root, l - 1, k, key);
    }
  }

  /** From the root every key is covered by the leaf the search arrives at. */
  lemma RootDescends(B: nat, f: File, levels: seq<Level>, rank: seq<nat>, root: nat, key: int) returns (j: nat)
    requires Tree(B, f, levels, rank, root) && key <= INT_END
    ensures j < |levels[0]| && Covers(levels[0][j], key)
    ensures Descend(f, root, key, |levels| - 1) == levels[0][j].pos
  {
    var h := |levels| - 1;
    assert Settled(f, levels, root, h);
    assert levels[h][0] == Entry(root, INT_MIN, INT_END);
    j := TreeDescends(B, f, levels, rank, root, h, 0, key);
  }

  lemma TreeLinked(B: nat, f: File, leaves: Level, rank: seq<nat>)
    requires LevelOk(B, f, leaves, rank, 0) && Chain(f, leaves) && |rank| > 0 && rank[0] == 0
    requires leaves[0].pos == 0
    ensures Linked(f, Positions(leaves))
  {
    var chain := Positions(leaves);
    forall i | 0 < i < |chain|
      ensures chain[i] != 0
    {
      assert leaves[0].pos != leaves[i].pos;
    }
    forall i | 0 <= i < |chain|
      ensures NextIs(f, chain, i) && |f[chain[i]].keys| <= |f[chain[i]].pointers|
    {
      assert f[leaves[i].pos].next == Successor(leaves, i);
      assert NodeOk(B, f[leaves[i].pos], leaves[i], 0);
    }
  }

  /** A tree at rest is searchable along its leaves. */
  lemma TreeSearchable(B: nat, f: File, levels: seq<Level>, rank: seq<nat>, root: nat)
    requires Tree(B, f, levels, rank, root)
    ensures Searchable(f, root, |levels| - 1, Positions(levels[0]))
  {
    var h := |levels| - 1;
    assert Settled(f, levels, root, h);
    assert levels[h][0].pos == root;
    TreeWalkable(B, f, levels, rank, root, h, 0);
    assert LevelOk(B, f, levels[0], rank, 0);
    TreeLinked(B, f, levels[0], rank);
    forall key | key < INT_END
      ensures LandsSomewhere(f, Positions(levels[0]), Descend(f, root, key, h), key)
    {
      var j := RootDescends(B, f, levels, rank, root, key);
      LeafLands(B, f, levels[0], j, key);
    }
  }

  lemma LeafLands(B: nat, f: File, leaves: Level, j: nat, key: int)
    requires InFile(f, leaves) && Tiles(leaves) && NodesOk(B, f, leaves, 0)
    requires j < |leaves| && Covers(leaves[j], key)
    ensures Lands(f, Positions(leaves), leaves[j].pos, key, j)
  {
    if leaves[j].lo < key {
      StoredSides(B, f, leaves, j, key);
    } else if j > 0 {
      TilesOrdered(leaves, 0, j);
      assert false;
    }
  }

  /** The stored keys of a tree ascend strictly. */
  lemma {:induction false} ContentsAscend(B: nat, f: File, leaves: Level, k: nat)
    requires InFile(f, leaves) && Tiles(leaves) && NodesOk(B, f, leaves, 0) && k <= |leaves|
    ensures ChainInFile(f, Positions(leaves)[k..]) && KeysAscend(Stored(f, Positions(leaves)[k..]))
    decreases |leaves| - k
  {
    var chain := Positions(leaves);
    if k < |leaves| {
      ContentsAscend(B, f, leaves, k + 1);
      assert chain[k..][1..] == chain[k + 1..];
      var n := f[leaves[k].pos];
      assert NodeOk(B, n, leaves[k], 0);
      forall i | 0 <= i < |n.keys|
        ensures KeysAbove(Stored(f, chain[k + 1..]), n.keys[i])
      {
        StoredSides(B, f, leaves, k, n.keys[i]);
      }
      AscendConcat(Payload(n), Stored(f, chain[k + 1..]));
    }
  }

  lemma AscendConcat(a: seq<Record>, b: seq<Record>)
    requires KeysAscend(a) && KeysAscend(b)
    requires forall i :: 0 <= i < |a| ==> KeysAbove(b, a[i].key)
    ensures KeysAscend(a + b)
  {
  }

  lemma TreeAscends(B: nat, f: File, levels: seq<Level>, rank: seq<nat>, root: nat)
    requires Tree(B, f, levels, rank, root)
    ensures KeysAscend(Contents(f, levels[0])) && KeysSorted(Contents(f, levels[0]))
  {
    assert LevelOk(B, f, levels[0], rank, 0);
    ContentsAscend(B, f, levels[0], 0);
    assert Positions(levels[0])[0..] == Positions(levels[0]);
  }

  /** A new key fits the leaf the search arrives at. */
  lemma NewKeyFits(B: nat, f: File, levels: seq<Level>, rank: seq<nat>, root: nat, key: int) returns (j: nat)
    requires Tree(B, f, levels, rank, root) && INT_MIN <= key < INT_END && !HasKey(Contents(f, levels[0]), key)
    ensures j < |levels[0]| && Descend(f, root, key, |levels| - 1) == levels[0][j].pos
    ensures levels[0][j].lo <= key < levels[0][j].hi
    ensures levels[0][j].pos < |f| && key !in f[levels[0][j].pos].keys
  {
    j := RootDescends(B, f, levels, rank, root, key);
    var leaves := levels[0];
    assert LevelOk(B, f, leaves, rank, 0);
    KeyInLeaf(f, leaves, j, key);
    if leaves[j].hi == key {
      assert j + 1 < |leaves| && Meets(leaves, j);
      assert NodeOk(B, f[leaves[j + 1].pos], leaves[j + 1], 0);
      TilesOrdered(leaves, 0, j + 1);
      assert f[leaves[j + 1].pos].keys[0] == key;
      KeyInLeaf(f, leaves, j + 1, key);
      assert false;
    }
  }

  lemma KeyInLeaf(f: File, leaves: Level, j: nat, key: int)
    requires InFile(f, leaves) && j < |leaves|
    ensures key in f[leaves[j].pos].keys ==> HasKey(Contents(f, leaves), key)
  {
    var n := f[leaves[j].pos];
    StoredAround(f, Positions(leaves), j);
    if key in n.keys {
      var i :| 0 <= i < |n.keys| && n.keys[i] == key;
      var a := Stored(f, Positions(leaves)[..j]);
      assert Contents(f, leaves)[|a| + i] == Payload(n)[i];
    }
  }
}
