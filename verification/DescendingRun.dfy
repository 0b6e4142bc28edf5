/** Runs of insertions into an empty tree: keys in descending order overwrite a leaf flag, the one
    of the left half of the first interior node that splits; its right half can be filled from
    its front without harm. */
module DescendingRun {
  import opened NodeBuffer
  import opened Records
  import opened TreeShape
  import opened TreeSearch
  import opened Insertion
  import opened FrontRun
  import opened TreeMoves

  // ----- before the first interior node splits -----

  /** The children of node 2 before it splits: leaf 0, the leaves split off since the first split,
      the newest first, and leaf 1. */
  function Child(b: nat, k: nat): nat {
    if 0 < k < b then b + 2 - k else if k == b then 1 else 0
  }

  /** A leaf that has been split off: its first key is the separator before it, and the one behind
      it is greater than its keys. */
  ghost predicate SplitOff(B: nat, st: Store, q: nat, n: Node, k: nat)
    requires 0 < k <= |n.keys|
  {
    && q < |st.nodes|
    && var l := st.nodes[q];
    && l.isLeaf && l.pos == q && l.parent == 2 && |l.keys| == |l.pointers| == B - B / 2 && l.keys != []
    && Ascending(l.keys) && l.keys[0] == n.keys[k - 1] && (k < |n.keys| ==> l.keys[|l.keys| - 1] < n.keys[k])
  }

  /** Node 2 is the root, and there are only leaves besides. */
  ghost predicate LowTree(B: nat, st: Store, b: nat) {
    && st.root == 2 && |st.nodes| == b + 2 >= 3 && |st.disk| >= 3 && st.nodes[2].parent == 0
    && |st.nodes[2].keys| == b && |st.nodes[2].pointers| == b + 1 && |st.disk[2]| == B + 1
    && (forall k :: 0 <= k <= b ==> st.nodes[2].pointers[k] == Child(b, k))
    && (forall k :: 0 <= k <= B ==> st.disk[2][k] == Child(b, k))
    && (forall k :: 0 < k <= b ==> SplitOff(B, st, Child(b, k), st.nodes[2], k))
  }

  /** Leaf 0 has a keys, node 2 has b, and all keys to come lie between floor and `key`. */
  ghost predicate Low(B: nat, st: Store, a: nat, b: nat, floor: int, key: int) {
    Front(B, st, 0, 2, a, b, 0, floor, key, 0) && LowTree(B, st, b)
  }

  /** Leaf 0 has room. */
  lemma LowTakes(B: nat, st: Store, a: nat, b: nat, floor: int, key: int, r: Record)
    requires Low(B, st, a, b, floor, key) && floor < r.key < key && a + 1 < B
    ensures Low(B, Inserted(B, st, r), a + 1, b, floor, r.key) && !Overwrites(B, st, r.key)
  {
    hide Front, Inserted, Overwrites;
    var n := st.nodes[2];
    FrontTakes(B, st, 0, 2, a, b, 0, floor, key, 0, r);
    var st' := Inserted(B, st, r);
    assert Front(B, st', 0, 2, a + 1, b, 0, floor, r.key, 0);
    FrontShape(B, st', 0, 2, a + 1, b, 0, floor, r.key, 0);
    forall k | 0 < k <= b
      ensures SplitOff(B, st', Child(b, k), n, k)
    {
      assert SplitOff(B, st, Child(b, k), n, k);
    }
  }

  lemma FrontShape(B: nat, st: Store, leaf: nat, node: nat, a: nat, b: nat, e: nat, floor: int, key: int, w: nat)
    requires Front(B, st, leaf, node, a, b, e, floor, key, w)
    ensures |st.nodes| == |st.disk| && leaf < |st.nodes| && node < |st.nodes| && |st.disk[node]| == B + 1
    ensures |st.nodes[leaf].keys| == |st.nodes[leaf].pointers| == a && |st.nodes[node].keys| == b
    ensures |st.nodes[node].pointers| == b + 1
  {
  }

  /** Leaf 0 is full, and node 2 has room. */
  lemma LowSplits(B: nat, st: Store, b: nat, floor: int, key: int, r: Record)
    requires B >= 4 && Low(B, st, B - 1, b, floor, key) && floor < r.key < key && b + 1 < B
    ensures Low(B, Inserted(B, st, r), B / 2, b + 1, floor, r.key) && !Overwrites(B, st, r.key)
  {
    hide Halfway, Inserted, Overwrites, PutChild, LandsIn, SplitOff;
    FrontSplits(B, st, 0, 2, b, 0, floor, key, 0, r);
    NodeOverwrites(B, st, 0, 2, b, 0, floor, key, 0, r);
    LeafHalved(B, st, 0, 0, r);
    NodeGrown(B, st, 0, 2, b, 0, floor, key, 0, r);
    FrontWords(st.disk[2], b, |st.nodes|);
    var st' := Inserted(B, st, r);
    var n, n', c := st.nodes[2], st'.nodes[2], b + 1;
    forall k | 0 < k <= c
      ensures SplitOff(B, st', Child(c, k), n', k)
    {
      if k == 1 {
        NewSplitOff(B, st, Halfway(B, st, 0, r), st', b, n');
      } else {
        OldSplitOff(B, st, st', b, n', k);
      }
    }
  }

  lemma NewSplitOff(B: nat, st: Store, mid: Store, st': Store, b: nat, n': Node)
    requires B >= 4 && |st.nodes| == b + 2 && b > 0 && |st'.nodes| == |mid.nodes| == b + 3
    requires |st.nodes[0].keys| == B - 1 && Ascending(st.nodes[0].keys) && st.nodes[0].parent == 2
    requires |st.nodes[2].keys| == b && st.nodes[0].keys[B - 2] < st.nodes[2].keys[0]
    requires n'.keys == [st.nodes[0].keys[B / 2 - 1]] + st.nodes[2].keys
    requires var l := mid.nodes[b + 2];
             && l.isLeaf && l.pos == b + 2 && l.parent == 2 && l.keys == st.nodes[0].keys[B / 2 - 1..] && |l.pointers| == B - B / 2
    requires st'.nodes[b + 2] == mid.nodes[b + 2]
    ensures SplitOff(B, st', Child(b + 1, 1), n', 1)
  {
  }

  lemma OldSplitOff(B: nat, st: Store, st': Store, b: nat, n': Node, k: nat)
    requires B >= 4 && LowTree(B, st, b) && 1 < k <= b + 1 && |st'.nodes| == b + 3 && |st.nodes[0].keys| == B - 1
    requires n'.keys == [st.nodes[0].keys[B / 2 - 1]] + st.nodes[2].keys
    requires forall q :: 0 < q < |st.nodes| && q != 2 ==> st'.nodes[q] == st.nodes[q]
    ensures SplitOff(B, st', Child(b + 1, k), n', k)
  {
    assert Child(b + 1, k) == Child(b, k - 1) != 0 && Child(b, k - 1) != 2;
    assert SplitOff(B, st, Child(b, k - 1), st.nodes[2], k - 1);
  }

  // ----- the first split of an interior node -----

  /** Node 2 is full as well: as a root it splits in turn. */
  lemma RootSplitsToo(B: nat, st: Store, floor: int, key: int, r: Record)
    requires B >= 4 && Low(B, st, B - 1, B - 1, floor, key) && floor < r.key < key
    ensures var mid, sep, next := Halfway(B, st, 0, r), st.nodes[0].keys[B / 2 - 1], |st.nodes|;
            && Takes(B, mid, 2)
            && var t := Enlarged(B, mid, 2, sep, next);
            && t.pos == 2 && !t.isLeaf && t.keys == [sep] + st.nodes[2].keys
            && t.pointers == [0, next] + st.nodes[2].pointers[1..] && Inserted(B, st, r) == PartedRoot(B, mid, t)
    ensures !Overwrites(B, st, r.key)
  {
    hide Halfway, Inserted, EndingOf, Enlarged, PartedRoot, LandsIn, SplitOff;
    LeafHalved(B, st, 0, 0, r);
    LeafSplits(B, st, 0, 2, B - 1, 0, floor, key, 0, r);
    var mid, sep, next := Halfway(B, st, 0, r), st.nodes[0].keys[B / 2 - 1], |st.nodes|;
    NodeEntry(B, mid, 2, sep, next);
    assert EntryInserted(B, mid, 2, sep, next, next - 1) == PartedRoot(B, mid, Enlarged(B, mid, 2, sep, next));
    assert Ending(B, st.nodes, st.disk, 2, sep, next - 1) == Nowhere;
  }

  /** The halves of node 2 and the new root. */
  lemma RootHalved(B: nat, mid: Store, t: Node)
    requires B >= 4 && |mid.nodes| == |mid.disk| == B + 2 && t.pos == 2 && !t.isLeaf
    requires |t.keys| == B && |t.pointers| == B + 1 && t.pointers[0] == 0
    requires forall k :: 1 < k <= B ==> t.pointers[k] == Child(B - 1, k - 1)
    ensures var st', S := PartedRoot(B, mid, t), B / 2;
            && |st'.nodes| == |st'.disk| == B + 4 && st'.root == B + 3 && st'.nodes[0] == mid.nodes[0]
            && var n, r, top := st'.nodes[2], st'.nodes[B + 2], st'.nodes[B + 3];
            && n == t.(keys := t.keys[..S], pointers := t.pointers[..S + 1], next := B + 2, parent := B + 3)
            && !r.isLeaf && r.pos == B + 2 && r.keys == t.keys[S + 1..] && r.pointers == t.pointers[S + 1..]
            && top == Node(false, [t.keys[S]], [2, B + 2], 0, 0, B + 3)
            && st'.nodes[Child(B - 1, S)] == mid.nodes[Child(B - 1, S)].(parent := B + 2)
  {
    hide HalfWords, Copied, Blank;
    assert 0 !in t.pointers[B / 2 + 1..] && 2 !in t.pointers[B / 2 + 1..];
    assert t.pointers[B / 2 + 1] == Child(B - 1, B / 2) == t.pointers[B / 2 + 1..][0];
  }

  /** Behind the pointers of the left half lies what was there, behind those of the right half there
      is nothing. */
  lemma RootHalvedWords(B: nat, mid: Store, t: Node)
    requires B >= 4 && |mid.nodes| == |mid.disk| == B + 2 && t.pos == 2 && !t.isLeaf && |mid.disk[2]| == B + 1
    requires |t.keys| == B && |t.pointers| == B + 1
    ensures var st', S := PartedRoot(B, mid, t), B / 2;
            && |st'.disk| == B + 4 && |st'.disk[2]| == |st'.disk[B + 2]| == B + 1
            && (forall k :: S < k <= B ==> st'.disk[2][k] == mid.disk[2][k])
            && var words := st'.disk[B + 2]; forall k :: B - S <= k <= B ==> words[k] == 0
  {
    hide Planted, Adopted;
  }

  /** What node 2 and the leaves are like before the root splits. */
  lemma FullNode(B: nat, st: Store, floor: int, key: int, r: Record)
    requires B >= 4 && Low(B, st, B - 1, B - 1, floor, key) && floor < r.key < key
    ensures var mid, n, sep := Halfway(B, st, 0, r), st.nodes[2], st.nodes[0].keys[B / 2 - 1];
            && |mid.nodes| == |mid.disk| == B + 2 && mid.disk[2] == st.disk[2] && |mid.disk[2]| == B + 1
            && |n.keys| == B - 1 && |n.pointers| == B && sep < n.keys[0] && Ascending(n.keys)
            && (forall k :: 1 <= k < B ==> n.pointers[k] == Child(B - 1, k)) && mid.disk[2][B / 2 + 1] == Child(B - 1, B / 2 + 1)
            && SplitOff(B, mid, Child(B - 1, B / 2), n, B / 2)
  {
    hide Halfway, Inserted, EndingOf, LandsIn, SplitOff;
    LeafHalved(B, st, 0, 0, r);
    LeafSplits(B, st, 0, 2, B - 1, 0, floor, key, 0, r);
    var q := Child(B - 1, B / 2);
    assert SplitOff(B, st, q, st.nodes[2], B / 2);
    SameSplitOff(B, st, Halfway(B, st, 0, r), q, st.nodes[2], B / 2);
  }

  lemma SameSplitOff(B: nat, st: Store, mid: Store, q: nat, n: Node, k: nat)
    requires 0 < k <= |n.keys| && SplitOff(B, st, q, n, k) && q < |mid.nodes| && mid.nodes[q] == st.nodes[q]
    ensures SplitOff(B, mid, q, n, k)
  {
  }

  /** After the split of the root leaf 0 is the first child of the left half, behind whose pointers
      lies a former child. */
  lemma LeftHalfFront(B: nat, st: Store, floor: int, key: int, r: Record)
    requires B >= 4 && Low(B, st, B - 1, B - 1, floor, key) && floor < r.key < key
    ensures Front(B, Inserted(B, st, r), 0, 2, B / 2, B / 2, 0, floor, r.key, Child(B - 1, B / 2 + 1))
  {
    hide Halfway, Inserted, Enlarged, PartedRoot, LandsIn, SplitOff, Front;
    FrontShape(B, st, 0, 2, B - 1, B - 1, 0, floor, key, 0);
    RootSplitsToo(B, st, floor, key, r);
    FullNode(B, st, floor, key, r);
    var t := Enlarged(B, Halfway(B, st, 0, r), 2, st.nodes[0].keys[B / 2 - 1], |st.nodes|);
    RootHalved(B, Halfway(B, st, 0, r), t);
    RootHalvedWords(B, Halfway(B, st, 0, r), t);
    FrontLeaf(B, st, floor, key, r);
    LeftFront(B, Inserted(B, st, r), t, floor, r.key);
  }

  /** Leaf 0 after its last split. */
  lemma FrontLeaf(B: nat, st: Store, floor: int, key: int, r: Record)
    requires B >= 4 && Low(B, st, B - 1, B - 1, floor, key) && floor < r.key < key
    ensures var mid := Halfway(B, st, 0, r);
            && |mid.nodes| > 0
            && var l := mid.nodes[0];
            && l.isLeaf && l.pos == 0 && l.parent == 2 && |l.keys| == |l.pointers| == B / 2 && Ascending(l.keys)
            && l.keys[0] == r.key && l.keys[B / 2 - 1] < st.nodes[0].keys[B / 2 - 1]
  {
    hide Halfway, LandsIn, SplitOff;
    LeafHalved(B, st, 0, 0, r);
    LeftKeys(st.nodes[0].keys, 0, r.key, B / 2);
  }

  lemma LeftFront(B: nat, st: Store, t: Node, floor: int, key: int)
    requires B >= 4 && |st.nodes| == |st.disk| == B + 4 && st.root == B + 3 && floor < key
    requires |t.keys| == B && |t.pointers| == B + 1 && t.pos == 2 && !t.isLeaf && t.pointers[0] == 0 && Ascending(t.keys)
    requires var l := st.nodes[0];
             && l.isLeaf && l.pos == 0 && l.parent == 2 && |l.keys| == |l.pointers| == B / 2 && Ascending(l.keys)
             && l.keys[0] == key && l.keys[B / 2 - 1] < t.keys[0]
    requires st.nodes[2] == t.(keys := t.keys[..B / 2], pointers := t.pointers[..B / 2 + 1], next := B + 2, parent := B + 3)
    requires st.nodes[B + 3] == Node(false, [t.keys[B / 2]], [2, B + 2], 0, 0, B + 3)
    requires |st.disk[2]| == B + 1
    ensures Front(B, st, 0, 2, B / 2, B / 2, 0, floor, key, st.disk[2][B / 2 + 1])
  {
    hide Descend;
    forall x | floor < x < key
      ensures Descend(st.nodes, st.root, x, |st.nodes|) == 0
    {
      TwoDown(st.nodes, st.root, 2, 0, x, |st.nodes|);
    }
  }

  /** A descent over two interior nodes. */
  lemma TwoDown(f: File, p: nat, q: nat, leaf: nat, x: int, h: nat)
    requires h >= 2 && p < |f| && q < |f| && leaf < |f| && !f[p].isLeaf && !f[q].isLeaf && f[leaf].isLeaf
    requires CountBelow(f[p].keys, x) < |f[p].pointers| && f[p].pointers[CountBelow(f[p].keys, x)] == q
    requires CountBelow(f[q].keys, x) < |f[q].pointers| && f[q].pointers[CountBelow(f[q].keys, x)] == leaf
    ensures Descend(f, p, x, h) == leaf
  {
    assert Descend(f, leaf, x, h - 2) == leaf;
    assert Descend(f, q, x, h - 1) == leaf;
  }

  /** The keys directly above the separator of the root belong to the first child of the right half. */
  lemma RightHalfFront(B: nat, st: Store, floor: int, key: int, r: Record)
    requires B >= 4 && Low(B, st, B - 1, B - 1, floor, key) && floor < r.key < key
    ensures var st', leaf := Inserted(B, st, r), Child(B - 1, B / 2);
            && leaf < |st'.nodes| && |st'.nodes[leaf].keys| >= 2
            && Front(B, st', leaf, B + 2, B - B / 2, B - 1 - B / 2, 1, st'.nodes[leaf].keys[0], st'.nodes[leaf].keys[1], 0)
  {
    hide Halfway, Inserted, Enlarged, PartedRoot, LandsIn, Front, LowTree;
    FrontShape(B, st, 0, 2, B - 1, B - 1, 0, floor, key, 0);
    RootSplitsToo(B, st, floor, key, r);
    FullNode(B, st, floor, key, r);
    var mid := Halfway(B, st, 0, r);
    var t := Enlarged(B, mid, 2, st.nodes[0].keys[B / 2 - 1], |st.nodes|);
    RootHalved(B, mid, t);
    RootHalvedWords(B, mid, t);
    assert t.keys[B / 2] == st.nodes[2].keys[B / 2 - 1] && t.keys[B / 2 + 1] == st.nodes[2].keys[B / 2];
    assert t.pointers[B / 2 + 1] == st.nodes[2].pointers[B / 2] == Child(B - 1, B / 2);
    RightFront(B, Inserted(B, st, r), t, Child(B - 1, B / 2));
  }

  lemma RightFront(B: nat, st: Store, t: Node, leaf: nat)
    requires B >= 4 && |st.nodes| == |st.disk| == B + 4 && st.root == B + 3 && leaf < B + 2
    requires |t.keys| == B && |t.pointers| == B + 1 && t.pointers[B / 2 + 1] == leaf && Ascending(t.keys)
    requires var l := st.nodes[leaf];
             && l.isLeaf && l.pos == leaf && l.parent == B + 2 && |l.keys| == |l.pointers| == B - B / 2 && Ascending(l.keys)
             && l.keys[0] == t.keys[B / 2] && l.keys[B - B / 2 - 1] < t.keys[B / 2 + 1]
    requires var r := st.nodes[B + 2];
             !r.isLeaf && r.pos == B + 2 && r.keys == t.keys[B / 2 + 1..] && r.pointers == t.pointers[B / 2 + 1..]
    requires st.nodes[B + 3] == Node(false, [t.keys[B / 2]], [2, B + 2], 0, 0, B + 3)
    requires |st.disk[B + 2]| == B + 1 && st.disk[B + 2][B - B / 2] == 0
    ensures Front(B, st, leaf, B + 2, B - B / 2, B - 1 - B / 2, 1, st.nodes[leaf].keys[0], st.nodes[leaf].keys[1], 0)
  {
    hide Descend;
    var l := st.nodes[leaf];
    forall x | l.keys[0] < x < l.keys[1]
      ensures Descend(st.nodes, st.root, x, |st.nodes|) == leaf
    {
      CountBelowIs(st.nodes[B + 3].keys, x, 1);
      TwoDown(st.nodes, st.root, B + 2, leaf, x, |st.nodes|);
    }
  }

  /** Before the first split there is one leaf. */
  ghost predicate Single(B: nat, st: Store, a: nat, key: int) {
    && B >= 4 && |st.nodes| == |st.disk| == 1 && st.root == 0
    && var leaf := st.nodes[0];
    && leaf.isLeaf && leaf.pos == 0 && leaf.parent == 0 && 0 < a < B && |leaf.keys| == |leaf.pointers| == a
    && Ascending(leaf.keys) && leaf.keys[0] == key
  }

  lemma SingleTakes(B: nat, st: Store, a: nat, key: int, r: Record)
    requires Single(B, st, a, key) && r.key < key && a + 1 < B
    ensures Single(B, Inserted(B, st, r), a + 1, r.key) && !Overwrites(B, st, r.key)
  {
    assert Descend(st.nodes, 0, r.key, 1) == 0;
    assert EntryInserted(B, st, 0, r.key, r.row, 1) == AddedTo(B, st, 0, r.key, r.row);
    assert Inserted(B, st, r).nodes[0].keys == [r.key] + st.nodes[0].keys;
  }

  lemma SingleSplits(B: nat, st: Store, floor: int, key: int, r: Record)
    requires B >= 4 && Single(B, st, B - 1, key) && floor < r.key < key
    ensures Low(B, Inserted(B, st, r), B / 2, 1, floor, r.key)
    ensures !Overwrites(B, st, r.key)
  {
    hide LandsIn;
    assert Descend(st.nodes, 0, r.key, 1) == 0;
    var t := Enlarged(B, st, 0, r.key, r.row);
    assert t.keys == [r.key] + st.nodes[0].keys;
    assert EntryInserted(B, st, 0, r.key, r.row, 1) == PartedRoot(B, st, t);
    var st' := Inserted(B, st, r);
    OneDownLands(st', floor, r.key);
  }

  lemma OneDownLands(st: Store, floor: int, key: int)
    requires |st.nodes| == 3 && st.root == 2 && st.nodes[0].isLeaf && !st.nodes[2].isLeaf
    requires st.nodes[2].pointers != [] && st.nodes[2].pointers[0] == 0 && st.nodes[2].keys != [] && key <= st.nodes[2].keys[0]
    ensures LandsIn(st, 0, floor, key)
  {
  }

  // ----- the run -----

  ghost predicate KeysDescend(rs: seq<Record>) {
    forall i, j :: 0 <= i < j < |rs| ==> rs[i].key > rs[j].key
  }

  const Empty: Store := Store([], [], 0)

  /** The file that insertions into an empty tree build. */
  ghost function Built(B: nat, rs: seq<Record>): Store {
    Run(B, Empty, rs)
  }

  /** The word behind the pointers of the left half of node 2: with order 4 the position of
      leaf 1, otherwise that of a leaf split off since. */
  function StaleWord(B: nat): nat
    requires B >= 4
  {
    if B == 4 then 1 else B - B / 2
  }

  lemma {:induction false} OneLeaf(B: nat, rs: seq<Record>, i: nat)
    requires B >= 4 && 0 < i < B && i <= |rs| && KeysDescend(rs)
    ensures Single(B, Run(B, Empty, rs[..i]), i, rs[i - 1].key) && Harmless(B, Empty, rs[..i])
  {
    hide Overwrites, Inserted, Single, Run, Harmless;
    RunOn(B, Empty, rs, i - 1);
    if i == 1 {
      RunStart(B, rs);
      FirstLeaf(B, rs[0]);
    } else {
      OneLeaf(B, rs, i - 1);
      SingleTakes(B, Run(B, Empty, rs[..i - 1]), i - 1, rs[i - 2].key, rs[i - 1]);
    }
  }

  lemma RunStart(B: nat, rs: seq<Record>)
    ensures Run(B, Empty, rs[..0]) == Empty && Harmless(B, Empty, rs[..0])
  {
  }

  lemma FirstLeaf(B: nat, r: Record)
    requires B >= 4
    ensures Single(B, Inserted(B, Empty, r), 1, r.key) && !Overwrites(B, Empty, r.key)
  {
  }

  /** How many insertions lead to the j-th further split of leaf 0, and x more. */
  function LowLength(B: nat, j: nat, x: nat): nat
    requires B >= 4
  {
    B + Times(B - B / 2, j) + x
  }

  lemma LowLengths(B: nat, j: nat, x: nat)
    requires B >= 4
    ensures LowLength(B, j, x + 1) == LowLength(B, j, x) + 1 && LowLength(B, 0, 0) == B <= LowLength(B, j, x)
    ensures LowLength(B, j + 1, 0) == LowLength(B, j, B - B / 2 - 1) + 1
  {
  }

  /** Until the first interior node splits. */
  lemma {:induction false} RunReaches(B: nat, rs: seq<Record>, floor: int, j: nat, x: nat)
    requires B >= 4 && x < B - B / 2 && j + 2 <= B && LowLength(B, j, x) <= |rs| && KeysDescend(rs)
    requires forall i :: 0 <= i < |rs| ==> floor < rs[i].key
    ensures LowLength(B, j, x) > 0
    ensures var i := LowLength(B, j, x);
            Low(B, Run(B, Empty, rs[..i]), B / 2 + x, j + 1, floor, rs[i - 1].key) && Harmless(B, Empty, rs[..i])
    decreases LowLength(B, j, x)
  {
    hide Overwrites, Inserted, Run, Harmless, Low, Single, LowLength;
    var i := LowLength(B, j, x);
    LowLengths(B, j, x);
    var st := Run(B, Empty, rs[..i - 1]);
    RunOn(B, Empty, rs, i - 1);
    if x > 0 {
      LowLengths(B, j, x - 1);
      RunReaches(B, rs, floor, j, x - 1);
      LowTakes(B, st, B / 2 + x - 1, j + 1, floor, rs[i - 2].key, rs[i - 1]);
    } else if j > 0 {
      LowLengths(B, j - 1, 0);
      RunReaches(B, rs, floor, j - 1, B - B / 2 - 1);
      LowSplits(B, st, j, floor, rs[i - 2].key, rs[i - 1]);
    } else {
      OneLeaf(B, rs, B - 1);
      SingleSplits(B, st, floor, rs[i - 2].key, rs[i - 1]);
    }
  }

  /** Which insertion splits the first interior node. */
  function RootSplit(B: nat): nat
    requires B >= 4
  {
    LowLength(B, B - 1, 0)
  }

  lemma BeforeRootSplit(B: nat, rs: seq<Record>, floor: int)
    requires B >= 4 && |rs| == RootSplit(B) && KeysDescend(rs) && forall i :: 0 <= i < |rs| ==> floor < rs[i].key
    ensures |rs| >= 2 && floor < rs[|rs| - 1].key < rs[|rs| - 2].key && Harmless(B, Empty, rs[..|rs| - 1])
    ensures Low(B, Run(B, Empty, rs[..|rs| - 1]), B - 1, B - 1, floor, rs[|rs| - 2].key)
  {
    hide Overwrites, Inserted, Run, Harmless, Low, Front, LowLength;
    LowLengths(B, B - 2, 0);
    RunReaches(B, rs, floor, B - 2, B - B / 2 - 1);
  }

  lemma StaleChild(B: nat)
    requires B >= 4
    ensures Child(B - 1, B / 2 + 1) == StaleWord(B)
  {
  }

  /** After it both halves have their first children in place, the left one with a former child
      behind its pointers, the right one with nothing. */
  lemma AfterRootSplit(B: nat, rs: seq<Record>, floor: int)
    requires B >= 4 && |rs| == RootSplit(B) && KeysDescend(rs) && forall i :: 0 <= i < |rs| ==> floor < rs[i].key
    ensures |rs| > 0 && Harmless(B, Empty, rs)
    ensures Front(B, Run(B, Empty, rs), 0, 2, B / 2, B / 2, 0, floor, rs[|rs| - 1].key, StaleWord(B))
    ensures var st, leaf := Run(B, Empty, rs), Child(B - 1, B / 2);
            && leaf < |st.nodes| && |st.nodes[leaf].keys| >= 2
            && Front(B, st, leaf, B + 2, B - B / 2, B - 1 - B / 2, 1, st.nodes[leaf].keys[0], st.nodes[leaf].keys[1], 0)
  {
    hide Overwrites, Inserted, Run, Harmless, Low, Front, RootSplit, Child, StaleWord, KeysDescend;
    var n := |rs|;
    BeforeRootSplit(B, rs, floor);
    RunOn(B, Empty, rs, n - 1);
    assert rs[..n] == rs;
    LastSplit(B, Run(B, Empty, rs[..n - 1]), floor, rs[n - 2].key, rs[n - 1]);
  }

  lemma LastSplit(B: nat, st: Store, floor: int, key: int, r: Record)
    requires B >= 4 && Low(B, st, B - 1, B - 1, floor, key) && floor < r.key < key
    ensures Front(B, Inserted(B, st, r), 0, 2, B / 2, B / 2, 0, floor, r.key, StaleWord(B)) && !Overwrites(B, st, r.key)
    ensures var st', leaf := Inserted(B, st, r), Child(B - 1, B / 2);
            && leaf < |st'.nodes| && |st'.nodes[leaf].keys| >= 2
            && Front(B, st', leaf, B + 2, B - B / 2, B - 1 - B / 2, 1, st'.nodes[leaf].keys[0], st'.nodes[leaf].keys[1], 0)
  {
    hide Overwrites, Inserted, Low, Front, Child, StaleWord, Halfway, Enlarged, PartedRoot;
    StaleChild(B);
    NeverOverwrites(B, st, floor, key, r);
    LeftHalfFront(B, st, floor, key, r);
    RightHalfFront(B, st, floor, key, r);
  }

  lemma NeverOverwrites(B: nat, st: Store, floor: int, key: int, r: Record)
    requires B >= 4 && Low(B, st, B - 1, B - 1, floor, key) && floor < r.key < key
    ensures !Overwrites(B, st, r.key)
  {
    hide Overwrites, Inserted, Low, Halfway, Enlarged, PartedRoot;
    RootSplitsToo(B, st, floor, key, r);
  }

  /** Which insertion is the first that can overwrite the flag. */
  function Fatal(B: nat): nat
    requires B >= 4
  {
    B + (B - B / 2) * (2 * B - 2 - B / 2)
  }

  lemma FatalIs(B: nat)
    requires B >= 4
    ensures Fatal(B) == RootSplit(B) + FrontFull(B, B / 2, B / 2)
    ensures B % 2 == 0 ==> Fatal(B) == 3 * (B / 2) * (B / 2)
  {
    var S := B / 2;
    var d := B - S;
    TimesIs(d, B - 1);
    TimesIs(d, B - 2 - S);
    assert d * (2 * B - 2 - S) == d * (B - 1) + d + d * (B - 2 - S);
    if B % 2 == 0 {
      EvenFatal(S);
    }
  }

  lemma EvenFatal(S: nat)
    ensures 2 * S + S * (3 * S - 2) == 3 * S * S
  {
  }

  /** Descending keys, for every order: no insertion before the Fatal-th overwrites a flag, and
      that one does if and only if the stale word is no multiple of 256.  For even orders its
      number is 3 * (B / 2) * (B / 2). */
  lemma DescendingOverwrites(B: nat, rs: seq<Record>)
    requires B >= 4 && |rs| == Fatal(B) && KeysDescend(rs)
    ensures Harmless(B, Empty, rs[..|rs| - 1])
    ensures Harmless(B, Empty, rs) <==> StaleWord(B) % 256 == 0
    ensures B % 2 == 0 ==> Fatal(B) == 3 * (B / 2) * (B / 2)
  {
    hide Overwrites, Inserted, Run, Harmless, Front, LowLength, FrontFull, Fatal;
    FatalIs(B);
    LowLengths(B, B - 1, 0);
    var m, n, floor := RootSplit(B), |rs|, rs[|rs| - 1].key - 1;
    FullCounts(B);
    var head, tail := rs[..m], rs[m..];
    AfterRootSplit(B, head, floor);
    FrontFatal(B, Run(B, Empty, head), 0, 2, B / 2, B / 2, 0, floor, head[m - 1].key, StaleWord(B), tail);
    RunConcat(B, Empty, head, tail);
    RunConcat(B, Empty, head, tail[..|tail| - 1]);
    assert rs == head + tail && rs[..n - 1] == head + tail[..|tail| - 1];
  }

  lemma FullCounts(B: nat)
    requires B >= 4
    ensures FrontFull(B, B / 2, B / 2) > 0
  {
  }

  /** The right half of the same split can be filled from its front as well: keys that follow
      directly above the separator of the root, in descending order.  None of these insertions
      overwrites a flag, and in the end the right half is full. */
  lemma RightHalfFills(B: nat, rs: seq<Record>, more: seq<Record>, leaf: nat)
    requires B >= 4 && |rs| == RootSplit(B) && KeysDescend(rs) && leaf == Child(B - 1, B / 2)
    requires var st := Built(B, rs);
             && leaf < |st.nodes| && |st.nodes[leaf].keys| >= 2
             && DescendInto(more, st.nodes[leaf].keys[0], st.nodes[leaf].keys[1])
    requires |more| == FrontFull(B, B - B / 2, B - 1 - B / 2)
    ensures Harmless(B, Empty, rs + more)
    ensures var st := Run(B, Empty, rs + more);
            && |st.nodes| > B + 2 && !st.nodes[B + 2].isLeaf && |st.nodes[B + 2].keys| == B - 1
            && st.nodes[B + 2].pointers != [] && st.nodes[B + 2].pointers[0] == leaf
  {
    hide Overwrites, Inserted, Run, Harmless, Front, LowLength, FrontFull;
    LowLengths(B, B - 1, 0);
    var floor := rs[|rs| - 1].key - 1;
    AfterRootSplit(B, rs, floor);
    var st := Run(B, Empty, rs);
    var floor', key' := st.nodes[leaf].keys[0], st.nodes[leaf].keys[1];
    FrontFatal(B, st, leaf, B + 2, B - B / 2, B - 1 - B / 2, 1, floor', key', 0, more);
    RunConcat(B, Empty, rs, more);
    FrontNode(B, Run(B, st, more), leaf, B + 2, B / 2, B - 1, 1, floor', more[|more| - 1].key, 0);
  }

  lemma FrontNode(B: nat, st: Store, leaf: nat, node: nat, a: nat, b: nat, e: nat, floor: int, key: int, w: nat)
    requires Front(B, st, leaf, node, a, b, e, floor, key, w)
    ensures node < |st.nodes| && !st.nodes[node].isLeaf && |st.nodes[node].keys| == b
    ensures st.nodes[node].pointers != [] && st.nodes[node].pointers[0] == leaf
  {
  }
}
