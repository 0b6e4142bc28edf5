/** The steps an insertion is made of, as changes of the file and its levels.

    A leaf takes the new record, or splits and leaves a debt; the parent pays the
    debt, or splits in turn and leaves a debt one level up; at the top a new root
    pays it. */
module TreeSteps {
  import opened Bounds
  import opened Records
  import opened TreeShape
  import opened TreeLemmas

  function InsertAt<T>(s: seq<T>, p: nat, x: T): seq<T>
    requires p <= |s|
  {
    s[..p] + [x] + s[p..]
  }

  // ----- frames -----

  /** Same node, apart from its links to parent and right neighbour. */
  predicate Same(m: Node, n: Node) {
    m.isLeaf == n.isLeaf && m.keys == n.keys && m.pointers == n.pointers && m.pos == n.pos
  }

  ghost predicate SameNodes(f: File, g: File, lev: Level) {
    && InFile(f, lev) && InFile(g, lev)
    && (forall i :: 0 <= i < |lev| ==> Same(f[lev[i].pos], g[lev[i].pos]))
  }

  /** Nodes of level l keep their parents. */
  ghost predicate KeepParents(f: File, g: File, rank: seq<nat>, l: nat) {
    forall q :: 0 <= q < |f| && q < |rank| && q < |g| && rank[q] + 1 == l ==> g[q].parent == f[q].parent
  }

  lemma LevelFrame(B: nat, f: File, g: File, lev: Level, rank: seq<nat>, rank': seq<nat>, l: nat)
    requires LevelOk(B, f, lev, rank, l)
    requires |f| <= |g| && |rank| == |f| && rank <= rank' && |rank'| == |g|
    requires SameNodes(f, g, lev) && KeepParents(f, g, rank, l)
    ensures LevelOk(B, g, lev, rank', l)
  {
    forall i | 0 <= i < |lev|
      ensures NodeOk(B, g[lev[i].pos], lev[i], l)
    {
      assert NodeOk(B, f[lev[i].pos], lev[i], l);
      assert Same(f[lev[i].pos], g[lev[i].pos]);
    }
    if l > 0 {
      forall i | 0 <= i < |lev|
        ensures Parents(g, g[lev[i].pos], rank', l)
      {
        assert Parents(f, f[lev[i].pos], rank, l);
        assert Same(f[lev[i].pos], g[lev[i].pos]);
      }
    }
  }

  lemma FlatSame(f: File, g: File, lev: Level)
    requires SameNodes(f, g, lev)
    ensures Flat(f, lev) == Flat(g, lev)
  {
    forall i | 0 <= i < |lev|
      ensures g[lev[i].pos].keys == f[lev[i].pos].keys && g[lev[i].pos].pointers == f[lev[i].pos].pointers
    {
      assert Same(f[lev[i].pos], g[lev[i].pos]);
    }
    FlatFrame(f, g, lev);
  }

  lemma AboveFrame(f: File, g: File, levels: seq<Level>, levels': seq<Level>, root: nat, l: nat)
    requires l + 1 < |levels| <= |levels'| && levels'[l + 1] == levels[l + 1]
    requires SameNodes(f, g, levels[l + 1])
    ensures Above(f, levels, root, l) == Above(g, levels', root, l)
  {
    FlatSame(f, g, levels[l + 1]);
  }

  /** Nodes of different levels are different nodes. */
  lemma OtherLevel(lev: Level, rank: seq<nat>, l: nat, i: nat, p: nat)
    requires Ranked(lev, rank, l) && i < |lev| && p < |rank| && rank[p] != l
    ensures lev[i].pos != p
  {
  }

  // ----- a record enters a leaf that has room -----

  function Added(n: Node, p: nat, key: int, pointer: nat): Node
    requires p <= |n.keys| && |n.pointers| == |n.keys| + if n.isLeaf then 0 else 1
  {
    n.(keys := InsertAt(n.keys, p, key),
       pointers := InsertAt(n.pointers, if n.isLeaf then p else p + 1, pointer))
  }

  /** The key belongs to entry e and is new to its leaf n. */
  ghost predicate Fits(n: Node, e: Entry, key: int, p: nat) {
    e.lo <= key < e.hi && key !in n.keys && IsUpper(n.keys, key, p)
  }

  lemma InsertAscends(keys: seq<int>, key: int, p: nat)
    requires Ascending(keys) && IsUpper(keys, key, p) && key !in keys
    ensures Ascending(InsertAt(keys, p, key))
  {
  }

  /** Everything left of leaf i lies below its interval, everything right above. */
  lemma StoredSides(B: nat, f: File, leaves: Level, i: nat, key: int)
    requires InFile(f, leaves) && Tiles(leaves) && NodesOk(B, f, leaves, 0)
    requires i < |leaves|
    ensures ChainInFile(f, Positions(leaves)) && |Positions(leaves)| == |leaves|
    ensures leaves[i].lo <= key ==> KeysBelow(Stored(f, Positions(leaves)[..i]), key)
    ensures key < leaves[i].hi ==> KeysAbove(Stored(f, Positions(leaves)[i + 1..]), key)
  {
    var chain := Positions(leaves);
    if leaves[i].lo <= key {
      LeftSide(B, f, leaves, i, 0, key);
      assert chain[0..i] == chain[..i];
    }
    if key < leaves[i].hi {
      RightSide(B, f, leaves, i, i + 1, key);
    }
  }

  lemma {:induction false} LeftSide(B: nat, f: File, leaves: Level, i: nat, k: nat, key: int)
    requires InFile(f, leaves) && Tiles(leaves) && NodesOk(B, f, leaves, 0)
    requires k <= i < |leaves| && leaves[i].lo <= key
    ensures ChainInFile(f, Positions(leaves)[k..i]) && KeysBelow(Stored(f, Positions(leaves)[k..i]), key)
    decreases i - k
  {
    var part := Positions(leaves)[k..i];
    if k < i {
      LeftSide(B, f, leaves, i, k + 1, key);
      assert part[1..] == Positions(leaves)[k + 1..i];
      TilesOrdered(leaves, k, i);
      assert NodeOk(B, f[leaves[k].pos], leaves[k], 0);
    }
  }

  lemma {:induction false} RightSide(B: nat, f: File, leaves: Level, i: nat, k: nat, key: int)
    requires InFile(f, leaves) && Tiles(leaves) && NodesOk(B, f, leaves, 0)
    requires i < k <= |leaves| && key < leaves[i].hi
    ensures ChainInFile(f, Positions(leaves)[k..]) && KeysAbove(Stored(f, Positions(leaves)[k..]), key)
    decreases |leaves| - k
  {
    var part := Positions(leaves)[k..];
    if k < |leaves| {
      RightSide(B, f, leaves, i, k + 1, key);
      assert part[1..] == Positions(leaves)[k + 1..];
      TilesOrdered(leaves, i, k);
      assert NodeOk(B, f[leaves[k].pos], leaves[k], 0);
    }
  }

  /** Inserting into the middle of three ordered parts. */
  lemma InsertMiddle(a: seq<Record>, load: seq<Record>, b: seq<Record>, p: nat, r: Record)
    requires KeysBelow(a, r.key) && KeysAbove(b, r.key) && p <= |load|
    requires KeysBelow(load[..p], r.key) && KeysAbove(load[p..], r.key)
    ensures InsertSorted(a + load + b, r) == a + InsertAt(load, p, r) + b
  {
    var front, back := a + load[..p], load[p..] + b;
    assert load == load[..p] + load[p..];
    assert a + load + b == front + back;
    assert KeysBelow(front, r.key);
    assert KeysAbove(back, r.key);
    InsertBetween(front, r, back);
  }

  ghost predicate SameAlong(f: File, g: File, chain: seq<nat>) {
    && ChainInFile(f, chain) && ChainInFile(g, chain)
    && (forall k :: 0 <= k < |chain| ==> Same(f[chain[k]], g[chain[k]]))
  }

  /** Replacing leaf i by nodes holding its records and one more inserts the record. */
  lemma ContentsGrow(B: nat, f: File, leaves: Level, g: File, i: nat, middle: seq<nat>, p: nat, r: Record)
    requires InFile(f, leaves) && Tiles(leaves) && NodesOk(B, f, leaves, 0)
    requires i < |leaves| && Fits(f[leaves[i].pos], leaves[i], r.key, p)
    requires ChainInFile(g, middle)
    requires Stored(g, middle) == InsertAt(Payload(f[leaves[i].pos]), p, r)
    requires SameAlong(f, g, Positions(leaves)[..i]) && SameAlong(f, g, Positions(leaves)[i + 1..])
    ensures var chain' := Positions(leaves)[..i] + middle + Positions(leaves)[i + 1..];
            ChainInFile(g, chain') && Stored(g, chain') == InsertSorted(Contents(f, leaves), r)
  {
    var chain := Positions(leaves);
    var a, b := chain[..i], chain[i + 1..];
    StoredSides(B, f, leaves, i, r.key);
    StoredAround(f, chain, i);
    StoredFrame(f, g, a);
    StoredFrame(f, g, b);
    StoredConcat(g, a, middle);
    StoredConcat(g, a + middle, b);
    var load := Payload(f[leaves[i].pos]);
    assert NodeOk(B, f[leaves[i].pos], leaves[i], 0);
    assert KeysBelow(load[..p], r.key) by {
      forall k | 0 <= k < p ensures load[k].key < r.key { assert load[k].key != r.key; }
    }
    InsertMiddle(Stored(f, a), load, Stored(f, b), p, r);
  }

  /** The keys of a leaf with one more key of its interval. */
  lemma AddedKeys(n: Node, e: Entry, key: int, p: nat)
    requires Ascending(n.keys) && Fits(n, e, key, p) && |n.keys| > 0
    requires forall i :: 0 <= i < |n.keys| ==> e.lo <= n.keys[i] < e.hi
    requires e.lo != INT_MIN ==> n.keys[0] == e.lo
    ensures var keys := InsertAt(n.keys, p, key);
            && Ascending(keys) && (e.lo != INT_MIN ==> keys[0] == e.lo)
            && (forall i :: 0 <= i < |keys| ==> e.lo <= keys[i] < e.hi)
  {
    var keys := InsertAt(n.keys, p, key);
    InsertAscends(n.keys, key, p);
    forall i | 0 <= i < |keys|
      ensures e.lo <= keys[i] < e.hi
    {
      assert i < p ==> keys[i] == n.keys[i];
      assert i > p ==> keys[i] == n.keys[i - 1];
    }
  }

  lemma AddedPayload(n: Node, key: int, row: nat, p: nat)
    requires n.isLeaf && |n.pointers| == |n.keys| && p <= |n.keys|
    ensures Payload(Added(n, p, key, row)) == InsertAt(Payload(n), p, Record(key, row))
  {
  }

  lemma AddedLeafOk(B: nat, n: Node, e: Entry, key: int, row: nat, p: nat)
    requires LeafOk(B, n, e) && |n.keys| + 1 < B && Fits(n, e, key, p)
    ensures LeafOk(B, Added(n, p, key, row), e)
  {
    AddedKeys(n, e, key, p);
  }

  /** One node of level l is replaced by an equally placed one. */
  lemma LevelUpdate(B: nat, f: File, lev: Level, rank: seq<nat>, l: nat, i: nat, m: Node)
    requires LevelOk(B, f, lev, rank, l) && |rank| == |f| && i < |lev|
    requires NodeOk(B, m, lev[i], l) && (l > 0 ==> Parents(f, m, rank, l))
    requires m.parent == f[lev[i].pos].parent
    ensures LevelOk(B, f[lev[i].pos := m], lev, rank, l)
  {
  }

  /** Other levels do not notice a change of one node of level l. */
  lemma OthersKeep(B: nat, f: File, lev: Level, rank: seq<nat>, k: nat, p: nat, m: Node)
    requires LevelOk(B, f, lev, rank, k) && |rank| == |f| && p < |f| && rank[p] != k
    requires m.parent == f[p].parent
    ensures SameNodes(f, f[p := m], lev) && LevelOk(B, f[p := m], lev, rank, k)
  {
  }

  /** The same when the change also appends a node. */
  lemma OthersKeepSplit(B: nat, f: File, lev: Level, rank: seq<nat>, k: nat, p: nat, m: Node, n: Node, l: nat)
    requires LevelOk(B, f, lev, rank, k) && |rank| == |f| && p < |f| && rank[p] != k
    requires m.parent == f[p].parent
    ensures SameNodes(f, f[p := m] + [n], lev) && LevelOk(B, f[p := m] + [n], lev, rank + [l], k)
  {
  }

  /** Replacing one node by an equally placed one keeps every level. */
  lemma NodeChange(B: nat, f: File, levels: seq<Level>, rank: seq<nat>, l: nat, i: nat, m: Node)
    requires LevelsOk(B, f, levels, rank) && l < |levels| && i < |levels[l]|
    requires levels[l][i].pos < |f|
    requires NodeOk(B, m, levels[l][i], l) && (l > 0 ==> Parents(f, m, rank, l))
    requires m.parent == f[levels[l][i].pos].parent && m.next == f[levels[l][i].pos].next
    ensures LevelsOk(B, f[levels[l][i].pos := m], levels, rank)
    ensures forall k :: 0 <= k < |levels| && k != l ==> SameNodes(f, f[levels[l][i].pos := m], levels[k])
  {
    var g := f[levels[l][i].pos := m];
    assert LevelOk(B, f, levels[l], rank, l);
    LevelUpdate(B, f, levels[l], rank, l, i, m);
    forall k | 0 <= k < |levels| && k != l
      ensures LevelOk(B, g, levels[k], rank, k) && SameNodes(f, g, levels[k])
    {
      assert LevelOk(B, f, levels[k], rank, k);
      OthersKeep(B, f, levels[k], rank, k, levels[l][i].pos, m);
    }
    forall k | 0 <= k < |levels[0]|
      ensures levels[0][k].pos < |g| && g[levels[0][k].pos].next == Successor(levels[0], k)
    {
      assert LevelOk(B, f, levels[0], rank, 0);
    }
  }

  /** Levels whose upper neighbour kept its nodes stay settled. */
  lemma StaySettled(f: File, g: File, levels: seq<Level>, root: nat, k: nat)
    requires k < |levels| && (k + 1 < |levels| ==> SameNodes(f, g, levels[k + 1]))
    requires Settled(f, levels, root, k)
    ensures Settled(g, levels, root, k)
  {
    if k + 1 < |levels| {
      AboveFrame(f, g, levels, levels, root, k);
    }
  }

  lemma LeafAddStep(B: nat, f: File, levels: seq<Level>, rank: seq<nat>, root: nat,
                    i: nat, p: nat, key: int, row: nat)
    requires Tree(B, f, levels, rank, root) && i < |levels[0]|
    requires Fits(f[levels[0][i].pos], levels[0][i], key, p)
    requires LeafOk(B, f[levels[0][i].pos], levels[0][i]) && |f[levels[0][i].pos].keys| + 1 < B
    ensures var g := f[levels[0][i].pos := Added(f[levels[0][i].pos], p, key, row)];
            Tree(B, g, levels, rank, root) && forall k :: 0 < k < |levels| ==> SameNodes(f, g, levels[k])
  {
    var e := levels[0][i];
    var m := Added(f[e.pos], p, key, row);
    var g := f[e.pos := m];
    AddedLeafOk(B, f[e.pos], e, key, row, p);
    NodeChange(B, f, levels, rank, 0, i, m);
    forall k | 0 <= k < |levels|
      ensures InFile(g, levels[k]) && Settled(g, levels, root, k)
    {
      assert InFile(f, levels[k]);
      StaySettled(f, g, levels, root, k);
    }
  }

  lemma LeafAddContents(B: nat, f: File, leaves: Level, i: nat, p: nat, key: int, row: nat)
    requires InFile(f, leaves) && Tiles(leaves) && NodesOk(B, f, leaves, 0) && Distinct(leaves)
    requires i < |leaves| && LeafOk(B, f[leaves[i].pos], leaves[i]) && |f[leaves[i].pos].keys| + 1 < B
    requires Fits(f[leaves[i].pos], leaves[i], key, p)
    ensures var g := f[leaves[i].pos := Added(f[leaves[i].pos], p, key, row)];
            Contents(g, leaves) == InsertSorted(Contents(f, leaves), Record(key, row))
  {
    var e := leaves[i];
    var g := f[e.pos := Added(f[e.pos], p, key, row)];
    AddedPayload(f[e.pos], key, row, p);
    var chain := Positions(leaves);
    assert Stored(g, [e.pos]) == Payload(g[e.pos]);
    ContentsGrow(B, f, leaves, g, i, [e.pos], p, Record(key, row));
    assert chain == chain[..i] + [e.pos] + chain[i + 1..];
  }

  // ----- a full node splits -----

  /** Both halves of a split take their places in the level. */
  lemma SplitNodesOk(B: nat, f: File, g: File, lev: Level, rank: seq<nat>, l: nat, i: nat, sep: int)
    requires LevelOk(B, f, lev, rank, l) && i < |lev| && lev[i].lo < sep < lev[i].hi
    requires |f| == |rank| && |g| == |f| + 1
    requires NodeOk(B, g[lev[i].pos], Entry(lev[i].pos, lev[i].lo, sep), l)
    requires NodeOk(B, g[|f|], Entry(|f|, sep, lev[i].hi), l)
    requires forall k :: 0 <= k < |lev| && k != i ==> Same(f[lev[k].pos], g[lev[k].pos])
    ensures var x := Expand(lev, i, sep, |f|);
            InFile(g, x) && Tiles(x) && Distinct(x) && Ranked(x, rank + [l], l) && NodesOk(B, g, x, l)
  {
    var x := Expand(lev, i, sep, |f|);
    ExpandTiles(lev, i, sep, |f|);
    ExpandPlaces(lev, i, sep, |f|, rank, l);
    forall k | 0 <= k < |x|
      ensures x[k].pos < |g| && NodeOk(B, g[x[k].pos], x[k], l)
    {
      if k < i {
        assert x[k] == lev[k] && NodeOk(B, f[lev[k].pos], lev[k], l);
      } else if k > i + 1 {
        assert x[k] == lev[k - 1] && NodeOk(B, f[lev[k - 1].pos], lev[k - 1], l);
      }
    }
  }

  /** The chain passes through both halves of a split leaf. */
  lemma SplitChain(f: File, g: File, leaves: Level, i: nat, sep: int)
    requires InFile(f, leaves) && Chain(f, leaves) && i < |leaves| && |g| == |f| + 1
    requires g[leaves[i].pos].next == |f| && g[|f|].next == f[leaves[i].pos].next
    requires forall k :: 0 <= k < |leaves| && k != i ==> g[leaves[k].pos].next == f[leaves[k].pos].next
    ensures InFile(g, Expand(leaves, i, sep, |f|)) && Chain(g, Expand(leaves, i, sep, |f|))
  {
    var x := Expand(leaves, i, sep, |f|);
    forall k | 0 <= k < |x|
      ensures x[k].pos < |g|
      ensures g[x[k].pos].next == Successor(x, k)
    {
      ExpandAt(leaves, i, sep, |f|, k);
      if k + 1 < |x| {
        ExpandAt(leaves, i, sep, |f|, k + 1);
      }
      var j := if k <= i then k else k - 1;
      assert f[leaves[j].pos].next == Successor(leaves, j);
    }
  }

  /** The new file after a leaf split: the left half in place, the right half appended. */
  ghost predicate LeafHalves(B: nat, f: File, e: Entry, left: Node, right: Node, sep: int)
    requires e.pos < |f|
  {
    && e.lo < sep < e.hi
    && LeafOk(B, left, Entry(e.pos, e.lo, sep)) && LeafOk(B, right, Entry(|f|, sep, e.hi))
    && left.parent == f[e.pos].parent && left.next == |f| && right.next == f[e.pos].next
  }

  lemma LeafSplitLevels(B: nat, f: File, levels: seq<Level>, rank: seq<nat>, i: nat, sep: int, left: Node, right: Node)
    requires LevelsOk(B, f, levels, rank) && i < |levels[0]| && levels[0][i].pos < |f|
    requires LeafHalves(B, f, levels[0][i], left, right, sep)
    ensures var g := f[levels[0][i].pos := left] + [right];
            && LevelsOk(B, g, levels[0 := Expand(levels[0], i, sep, |f|)], rank + [0])
            && forall k :: 0 < k < |levels| ==> SameNodes(f, g, levels[k])
  {
    var p := levels[0][i].pos;
    var g := f[p := left] + [right];
    var x := Expand(levels[0], i, sep, |f|);
    var levels', rank' := levels[0 := x], rank + [0];
    assert LevelOk(B, f, levels[0], rank, 0);
    SplitNodesOk(B, f, g, levels[0], rank, 0, i, sep);
    SplitChain(f, g, levels[0], i, sep);
    forall k | 0 < k < |levels|
      ensures LevelOk(B, g, levels[k], rank', k) && SameNodes(f, g, levels[k])
    {
      assert LevelOk(B, f, levels[k], rank, k);
      OthersKeepSplit(B, f, levels[k], rank, k, p, left, right, 0);
    }
    forall k | 0 <= k < |levels'|
      ensures LevelOk(B, g, levels'[k], rank', k)
    {
    }
  }

  /** Changing level l alone changes what no level hears from above, except for
      level l - 1; the claim here is about the levels whose upper neighbour kept its nodes. */
  lemma AboveKept(f: File, g: File, levels: seq<Level>, levels': seq<Level>, root: nat, k: nat)
    requires k < |levels| == |levels'|
    requires k + 1 < |levels| ==> levels'[k + 1] == levels[k + 1] && SameNodes(f, g, levels[k + 1])
    ensures k + 1 < |levels| ==> InFile(g, levels'[k + 1])
    ensures Above(g, levels', root, k) == Above(f, levels, root, k)
  {
    if k + 1 < |levels| {
      AboveFrame(f, g, levels, levels', root, k);
    }
  }

  lemma OweAfterSplit(f: File, g: File, levels: seq<Level>, levels': seq<Level>, root: nat, l: nat, i: nat, sep: int)
    requires l < |levels| == |levels'| && |g| == |f| + 1 && InFile(f, levels[l])
    requires l + 1 < |levels| ==> InFile(f, levels[l + 1]) && InFile(g, levels'[l + 1])
    requires Settled(f, levels, root, l) && Above(g, levels', root, l) == Above(f, levels, root, l)
    requires i < |levels[l]| && levels[l][i].lo < sep < levels[l][i].hi
    requires levels'[l] == Expand(levels[l], i, sep, |f|)
    requires g[|f|].parent == g[levels[l][i].pos].parent
    ensures Owes(g, levels', root, Debt(l, i, sep, |f|))
  {
  }

  /** After a split at level l the levels above it stay settled and level l owes. */
  lemma SplitLinks(f: File, g: File, levels: seq<Level>, root: nat, l: nat, i: nat, sep: int)
    requires Lives(f, levels) && l < |levels| && i < |levels[l]| && levels[l][i].lo < sep < levels[l][i].hi
    requires forall k :: l <= k < |levels| ==> Settled(f, levels, root, k)
    requires forall k :: l < k < |levels| ==> SameNodes(f, g, levels[k])
    requires |g| == |f| + 1 && g[|f|].parent == g[levels[l][i].pos].parent
    ensures var levels' := levels[l := Expand(levels[l], i, sep, |f|)];
            && (forall k :: l < k < |levels| ==> InFile(g, levels'[k]))
            && (forall k :: l < k < |levels| ==> Settled(g, levels', root, k))
            && Owes(g, levels', root, Debt(l, i, sep, |f|))
  {
    var levels' := levels[l := Expand(levels[l], i, sep, |f|)];
    forall k | l < k < |levels|
      ensures InFile(g, levels'[k]) && Settled(g, levels', root, k)
    {
      assert Settled(f, levels, root, k);
      AboveKept(f, g, levels, levels', root, k);
    }
    assert Settled(f, levels, root, l);
    AboveKept(f, g, levels, levels', root, l);
    OweAfterSplit(f, g, levels, levels', root, l, i, sep);
  }

  /** A split leaf leaves a debt at level 0. */
  lemma LeafSplitStep(B: nat, f: File, levels: seq<Level>, rank: seq<nat>, root: nat,
                      i: nat, sep: int, left: Node, right: Node)
    requires Tree(B, f, levels, rank, root) && i < |levels[0]|
    requires LeafHalves(B, f, levels[0][i], left, right, sep)
    requires right.parent == left.parent
    ensures var g := f[levels[0][i].pos := left] + [right];
            && Climbing(B, g, levels[0 := Expand(levels[0], i, sep, |f|)], rank + [0], root, Debt(0, i, sep, |f|))
            && forall k :: 0 < k < |levels| ==> SameNodes(f, g, levels[k])
  {
    var g := f[levels[0][i].pos := left] + [right];
    var x := Expand(levels[0], i, sep, |f|);
    LeafSplitLevels(B, f, levels, rank, i, sep, left, right);
    NodeCountUpdate(levels, 0, x);
    SplitLinks(f, g, levels, root, 0, i, sep);
    assert g[root].parent == f[root].parent;
  }

  // ----- the halves of a leaf -----

  /** What an overfull leaf t keeps, and what moves to position pos. */
  function LowerLeaf(t: Node, S: nat, next: nat): Node
    requires S <= |t.keys| == |t.pointers|
  {
    t.(keys := t.keys[..S], pointers := t.pointers[..S], next := next)
  }

  function UpperLeaf(t: Node, S: nat, pos: nat): Node
    requires S <= |t.keys| == |t.pointers|
  {
    Node(true, t.keys[S..], t.pointers[S..], t.parent, t.next, pos)
  }

  lemma LeafHalvesOk(B: nat, S: nat, f: File, n: Node, e: Entry, p: nat, key: int, row: nat)
    requires B >= 4 && S == B / 2 && e.pos < |f| && n == f[e.pos]
    requires LeafOk(B, n, e) && |n.keys| + 1 == B && Fits(n, e, key, p)
    ensures var t := Added(n, p, key, row);
            && |t.keys| == |t.pointers| == B && Ascending(t.keys)
            && LeafHalves(B, f, e, LowerLeaf(t, S, |f|), UpperLeaf(t, S, |f|), t.keys[S])
  {
    var t := Added(n, p, key, row);
    AddedKeys(n, e, key, p);
    assert e.lo <= t.keys[0] < t.keys[S];
  }

  lemma HalvesPayload(n: Node, p: nat, key: int, row: nat, S: nat, next: nat, pos: nat)
    requires n.isLeaf && |n.pointers| == |n.keys| && p <= |n.keys| && S <= |n.keys| + 1
    ensures var t := Added(n, p, key, row);
            Payload(LowerLeaf(t, S, next)) + Payload(UpperLeaf(t, S, pos)) == InsertAt(Payload(n), p, Record(key, row))
  {
    AddedPayload(n, key, row, p);
    var t := Added(n, p, key, row);
    assert Payload(LowerLeaf(t, S, next)) + Payload(UpperLeaf(t, S, pos)) == Payload(t);
  }

  lemma LeafSplitContents(B: nat, f: File, leaves: Level, i: nat, p: nat, key: int, row: nat,
                          left: Node, right: Node, sep: int)
    requires InFile(f, leaves) && Tiles(leaves) && NodesOk(B, f, leaves, 0) && Distinct(leaves)
    requires i < |leaves| && Fits(f[leaves[i].pos], leaves[i], key, p) && p <= |f[leaves[i].pos].keys|
    requires Payload(left) + Payload(right) == InsertAt(Payload(f[leaves[i].pos]), p, Record(key, row))
    ensures Contents(f[leaves[i].pos := left] + [right], Expand(leaves, i, sep, |f|))
         == InsertSorted(Contents(f, leaves), Record(key, row))
  {
    var q := leaves[i].pos;
    var g := f[q := left] + [right];
    var chain := Positions(leaves);
    StoredPair(g, q, |f|);
    ContentsGrow(B, f, leaves, g, i, [q, |f|], p, Record(key, row));
    assert Positions(Expand(leaves, i, sep, |f|)) == chain[..i] + [q, |f|] + chain[i + 1..];
  }

  lemma StoredOne(g: File, q: nat)
    requires q < |g|
    ensures Stored(g, [q]) == Payload(g[q])
  {
    hide Payload;
    assert [q][1..] == [] && At(g, q) == g[q] && Stored(g, []) == [];
  }

  lemma StoredPair(g: File, p: nat, q: nat)
    requires p < |g| && q < |g|
    ensures Stored(g, [p, q]) == Payload(g[p]) + Payload(g[q])
  {
    hide Payload;
    StoredOne(g, q);
    assert [p, q][1..] == [q] && At(g, p) == g[p];
  }

  /** Steps that leave the leaves' records alone leave the contents alone. */
  lemma SameContents(f: File, g: File, leaves: Level)
    requires SameNodes(f, g, leaves)
    ensures Contents(f, leaves) == Contents(g, leaves)
  {
    forall i | 0 <= i < |leaves|
      ensures g[leaves[i].pos].keys == f[leaves[i].pos].keys && g[leaves[i].pos].pointers == f[leaves[i].pos].pointers
    {
      assert Same(f[leaves[i].pos], g[leaves[i].pos]);
    }
    ContentsFrame(f, g, leaves);
  }
}
