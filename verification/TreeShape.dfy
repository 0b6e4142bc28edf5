/** The shape of the file-backed B+ tree.

    A tree is a file of nodes that name each other by position.  Its ghost
    description is a list of levels: level 0 holds the leaves from left to
    right, the last level holds the root, and the children of one level, read
    from left to right, are exactly the level below. */
module TreeShape {
  import opened Records

  // The range of a C int; every key lies in [INT_MIN, INT_END).
  const INT_MIN: int := -0x8000_0000
  const INT_END: int := 0x8000_0000

  /** One node of the file.  Keys and pointers are the live prefixes of the node's
      buffers, so the node's size is |keys|. */
  datatype Node = Node(isLeaf: bool, keys: seq<int>, pointers: seq<nat>, parent: nat, next: nat, pos: nat)

  type File = seq<Node>

  /** A node's place in its level, and the interval [lo, hi) of keys below it. */
  datatype Entry = Entry(pos: nat, lo: int, hi: int)

  type Level = seq<Entry>

  function Kid(n: Node, e: Entry, c: nat): Entry
    requires c < |n.pointers|
  {
    Entry(n.pointers[c],
          if 0 < c <= |n.keys| then n.keys[c - 1] else e.lo,
          if c < |n.keys| then n.keys[c] else e.hi)
  }

  function Kids(n: Node, e: Entry): Level {
    seq(|n.pointers|, c requires 0 <= c < |n.pointers| => Kid(n, e, c))
  }

  predicate InFile(f: File, lev: Level) {
    forall i :: 0 <= i < |lev| ==> lev[i].pos < |f|
  }

  /** The node at a position; positions past the end of the file hold nothing. */
  function At(f: File, p: nat): Node {
    if p < |f| then f[p] else Node(true, [], [], 0, 0, p)
  }

  /** The level below `up`, as its nodes' keys and pointers describe it. */
  function Flat(f: File, up: Level): Level {
    if up == [] then [] else Kids(At(f, up[0].pos), up[0]) + Flat(f, up[1..])
  }

  // ----- what one node must satisfy -----

  ghost predicate LeafOk(B: nat, n: Node, e: Entry) {
    && n.isLeaf && n.pos == e.pos
    && 1 <= |n.keys| < B && |n.pointers| == |n.keys|
    && Ascending(n.keys)
    && (forall i :: 0 <= i < |n.keys| ==> e.lo <= n.keys[i] < e.hi)
    && (e.lo != INT_MIN ==> n.keys[0] == e.lo)
  }

  ghost predicate InteriorOk(B: nat, n: Node, e: Entry) {
    && !n.isLeaf && n.pos == e.pos
    && 1 <= |n.keys| < B && |n.pointers| == |n.keys| + 1
    && Ascending(n.keys)
    && (forall i :: 0 <= i < |n.keys| ==> e.lo < n.keys[i] < e.hi)
  }

  ghost predicate NodeOk(B: nat, n: Node, e: Entry, l: nat) {
    if l == 0 then LeafOk(B, n, e) else InteriorOk(B, n, e)
  }

  // ----- what one level must satisfy -----

  predicate Meets(lev: Level, i: nat)
    requires i + 1 < |lev|
  {
    lev[i].hi == lev[i + 1].lo
  }

  /** The intervals of a level tile the whole key range, in order. */
  ghost predicate Tiles(lev: Level) {
    && |lev| > 0 && lev[0].lo == INT_MIN && lev[|lev| - 1].hi == INT_END
    && (forall i :: 0 <= i < |lev| ==> lev[i].lo < lev[i].hi)
    && (forall i {:trigger Meets(lev, i)} :: 0 <= i < |lev| - 1 ==> Meets(lev, i))
  }

  ghost predicate Distinct(lev: Level) {
    forall i, j :: 0 <= i < j < |lev| ==> lev[i].pos != lev[j].pos
  }

  /** `rank` records the level of every node of the file. */
  ghost predicate Ranked(lev: Level, rank: seq<nat>, l: nat) {
    forall i :: 0 <= i < |lev| ==> lev[i].pos < |rank| && rank[lev[i].pos] == l
  }

  ghost predicate NodesOk(B: nat, f: File, lev: Level, l: nat)
    requires InFile(f, lev)
  {
    forall i :: 0 <= i < |lev| ==> NodeOk(B, f[lev[i].pos], lev[i], l)
  }

  /** The children of an interior node lie one level down and name it as parent. */
  ghost predicate Parents(f: File, n: Node, rank: seq<nat>, l: nat) {
    forall c :: 0 <= c < |n.pointers| ==>
      && n.pointers[c] < |f| && f[n.pointers[c]].parent == n.pos
      && n.pointers[c] < |rank| && rank[n.pointers[c]] + 1 == l
  }

  ghost predicate ParentsOk(f: File, lev: Level, rank: seq<nat>, l: nat)
    requires InFile(f, lev)
  {
    forall i :: 0 <= i < |lev| ==> Parents(f, f[lev[i].pos], rank, l)
  }

  ghost predicate LevelOk(B: nat, f: File, lev: Level, rank: seq<nat>, l: nat) {
    && InFile(f, lev) && Tiles(lev) && Distinct(lev) && Ranked(lev, rank, l)
    && NodesOk(B, f, lev, l)
    && (l > 0 ==> ParentsOk(f, lev, rank, l))
  }

  // ----- what the whole tree must satisfy -----

  /** The position a leaf's `next` must hold: its right neighbour's, or 0 at the end. */
  function Successor(leaves: Level, i: nat): nat {
    if i + 1 < |leaves| then leaves[i + 1].pos else 0
  }

  /** The leaf chain links the leaves in key order. */
  ghost predicate Chain(f: File, leaves: Level)
    requires InFile(f, leaves)
  {
    forall i {:trigger Successor(leaves, i)} :: 0 <= i < |leaves| ==> f[leaves[i].pos].next == Successor(leaves, i)
  }

  ghost predicate LevelsOk(B: nat, f: File, levels: seq<Level>, rank: seq<nat>) {
    && |levels| > 0 && |rank| == |f| && |f| > 0 && rank[0] == 0
    && (forall l :: 0 <= l < |levels| ==> LevelOk(B, f, levels[l], rank, l))
    && Chain(f, levels[0]) && levels[0][0].pos == 0
  }

  ghost function NodeCount(levels: seq<Level>): nat {
    if levels == [] then 0 else |levels[0]| + NodeCount(levels[1..])
  }

  /** What the nodes above level l say that level l is. */
  ghost function Above(f: File, levels: seq<Level>, root: nat, l: nat): Level
    requires l < |levels|
  {
    if l + 1 < |levels| then Flat(f, levels[l + 1]) else [Entry(root, INT_MIN, INT_END)]
  }

  /** Entry i replaced by the two halves of its split. */
  ghost function Expand(lev: Level, i: nat, sep: int, pos: nat): Level
    requires i < |lev|
  {
    lev[..i] + [Entry(lev[i].pos, lev[i].lo, sep), Entry(pos, sep, lev[i].hi)] + lev[i + 1..]
  }

  ghost predicate Settled(f: File, levels: seq<Level>, root: nat, l: nat)
    requires l < |levels|
  {
    levels[l] == Above(f, levels, root, l)
  }

  ghost predicate Lives(f: File, levels: seq<Level>) {
    forall l :: 0 <= l < |levels| ==> InFile(f, levels[l])
  }

  /** The invariant of a tree at rest. */
  ghost predicate Tree(B: nat, f: File, levels: seq<Level>, rank: seq<nat>, root: nat) {
    && LevelsOk(B, f, levels, rank) && Lives(f, levels)
    && (forall l :: 0 <= l < |levels| ==> Settled(f, levels, root, l))
    && root < |f| && f[root].parent == 0
    && NodeCount(levels) == |f|
  }

  /** A split in progress: entry i of level l has been split at `sep`, its right
      half lives at `pos`, and the level above has not been told yet. */
  datatype Debt = Debt(l: nat, i: nat, sep: int, pos: nat)

  ghost predicate Owes(f: File, levels: seq<Level>, root: nat, d: Debt)
    requires d.l < |levels|
  {
    var above := Above(f, levels, root, d.l);
    && d.i < |above| && above[d.i].lo < d.sep < above[d.i].hi
    && levels[d.l] == Expand(above, d.i, d.sep, d.pos)
    && above[d.i].pos < |f| && d.pos < |f| && f[d.pos].parent == f[above[d.i].pos].parent
  }

  /** The invariant while a split climbs. */
  ghost predicate Climbing(B: nat, f: File, levels: seq<Level>, rank: seq<nat>, root: nat, d: Debt) {
    && LevelsOk(B, f, levels, rank) && Lives(f, levels)
    && d.l < |levels|
    && (forall l :: 0 <= l < |levels| && l != d.l ==> Settled(f, levels, root, l))
    && Owes(f, levels, root, d)
    && root < |f| && f[root].parent == 0
    && NodeCount(levels) == |f|
  }

  // ----- the records of the leaves -----

  function Payload(n: Node): seq<Record> {
    seq(|n.keys|, i requires 0 <= i < |n.keys| =>
      Record(n.keys[i], if i < |n.pointers| then n.pointers[i] else 0))
  }

  predicate ChainInFile(f: File, chain: seq<nat>) {
    forall i :: 0 <= i < |chain| ==> chain[i] < |f|
  }

  /** All records found along a chain of nodes. */
  function Stored(f: File, chain: seq<nat>): seq<Record> {
    if chain == [] then [] else Payload(At(f, chain[0])) + Stored(f, chain[1..])
  }

  function Positions(lev: Level): seq<nat> {
    seq(|lev|, i requires 0 <= i < |lev| => lev[i].pos)
  }

  /** The contents of a tree whose leaves are `leaves`. */
  function Contents(f: File, leaves: Level): seq<Record> {
    Stored(f, Positions(leaves))
  }

  /** The contents of a tree, which has no levels while it is empty. */
  ghost function Stock(f: File, levels: seq<Level>): seq<Record> {
    if levels == [] then [] else Contents(f, levels[0])
  }

  function Extended(s: seq<nat>, x: nat): seq<nat> {
    s + [x]
  }
}
