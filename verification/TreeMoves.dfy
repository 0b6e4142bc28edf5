/** The moves of an insertion, each with everything the insertion keeps: the
    invariant, the contents and the occupancy. */
module TreeMoves {
  import opened Bounds
  import opened Records
  import opened TreeShape
  import opened TreeLemmas
  import opened TreeSteps
  import opened TreeClimb
  import opened TreeOccupancy
  import opened TreeSearch

  /** A leaf with room takes the record. */
  lemma TakeRecord(B: nat, f: File, levels: seq<Level>, rank: seq<nat>, root: nat, i: nat, p: nat, key: int, row: nat)
    requires Tree(B, f, levels, rank, root) && i < |levels[0]| && levels[0][i].pos < |f|
    requires Fits(f[levels[0][i].pos], levels[0][i], key, p) && |f[levels[0][i].pos].keys| + 1 < B
    ensures f[levels[0][i].pos].isLeaf && |f[levels[0][i].pos].pointers| == |f[levels[0][i].pos].keys|
    ensures var g := f[levels[0][i].pos := Added(f[levels[0][i].pos], p, key, row)];
            && Tree(B, g, levels, rank, root)
            && Contents(g, levels[0]) == InsertSorted(Contents(f, levels[0]), Record(key, row))
            && (Occupied(B, f, levels) ==> Occupied(B, g, levels))
  {
    assert LevelOk(B, f, levels[0], rank, 0);
    assert NodeOk(B, f[levels[0][i].pos], levels[0][i], 0);
    LeafAddStep(B, f, levels, rank, root, i, p, key, row);
    LeafAddContents(B, f, levels[0], i, p, key, row);
    if Occupied(B, f, levels) {
      OccupiedAdd(B, f, levels, 0, i, p, key, row);
    }
  }

  /** The file after a full leaf with one more record t has split. */
  function LeafSplitFile(f: File, t: Node, S: nat): File
    requires S <= |t.keys| == |t.pointers| && t.pos < |f|
  {
    f[t.pos := LowerLeaf(t, S, |f|)] + [UpperLeaf(t, S, |f|)]
  }

  /** A full leaf splits and leaves a debt. */
  lemma SplitLeaf(B: nat, S: nat, f: File, levels: seq<Level>, rank: seq<nat>, root: nat, i: nat, p: nat, key: int, row: nat)
    requires B >= 4 && S == B / 2
    requires Tree(B, f, levels, rank, root) && i < |levels[0]| && levels[0][i].pos < |f|
    requires Fits(f[levels[0][i].pos], levels[0][i], key, p) && |f[levels[0][i].pos].keys| + 1 == B
    requires f[levels[0][i].pos].isLeaf && |f[levels[0][i].pos].pointers| == |f[levels[0][i].pos].keys|
    requires f[levels[0][i].pos].pos == levels[0][i].pos
    ensures var t := Added(f[levels[0][i].pos], p, key, row);
            var g := LeafSplitFile(f, t, S);
            var levels' := levels[0 := Expand(levels[0], i, t.keys[S], |f|)];
            && Ascending(t.keys)
            && Climbing(B, g, levels', rank + [0], root, Debt(0, i, t.keys[S], |f|))
            && Contents(g, levels'[0]) == InsertSorted(Contents(f, levels[0]), Record(key, row))
            && (Occupied(B, f, levels) ==> Occupied(B, g, levels'))
  {
    var e := levels[0][i];
    var n := f[e.pos];
    var t := Added(n, p, key, row);
    assert LevelOk(B, f, levels[0], rank, 0);
    assert NodeOk(B, n, e, 0);
    LeafHalvesOk(B, S, f, n, e, p, key, row);
    HalvesPayload(n, p, key, row, S, |f|, |f|);
    LeafSplitStep(B, f, levels, rank, root, i, t.keys[S], LowerLeaf(t, S, |f|), UpperLeaf(t, S, |f|));
    LeafSplitContents(B, f, levels[0], i, p, key, row, LowerLeaf(t, S, |f|), UpperLeaf(t, S, |f|), t.keys[S]);
    if Occupied(B, f, levels) {
      OccupiedLeafSplit(B, S, f, levels, i, t);
    }
  }

  /** A parent with room pays the debt. */
  lemma PayInParent(B: nat, f: File, levels: seq<Level>, rank: seq<nat>, root: nat, d: Debt, J: nat, c: nat)
    requires d.l + 1 < |levels| && InFile(f, levels[d.l + 1]) && Arrived(B, f, levels, rank, root, d, J, c)
    requires |f[levels[d.l + 1][J].pos].keys| + 1 < B
    ensures var p := levels[d.l + 1][J].pos;
            var g := f[p := Added(f[p], c, d.sep, d.pos)];
            && Tree(B, g, levels, rank, root)
            && Contents(g, levels[0]) == Contents(f, levels[0])
            && (Occupied(B, f, levels) ==> Occupied(B, g, levels))
  {
    hide Flat, Settled, Chain, Owes;
    var p := levels[d.l + 1][J].pos;
    var g := f[p := Added(f[p], c, d.sep, d.pos)];
    ParentAddStep(B, f, levels, rank, root, d, J, c);
    SameContents(f, g, levels[0]);
    if Occupied(B, f, levels) {
      OccupiedAdd(B, f, levels, d.l + 1, J, c, d.sep, d.pos);
    }
  }

  /** A full parent splits in turn. */
  lemma PassOn(B: nat, S: nat, f: File, levels: seq<Level>, rank: seq<nat>, root: nat, d: Debt, J: nat, c: nat)
    requires B >= 4 && S == B / 2
    requires d.l + 1 < |levels| && InFile(f, levels[d.l + 1]) && Arrived(B, f, levels, rank, root, d, J, c)
    requires |f[levels[d.l + 1][J].pos].keys| + 1 == B
    ensures var t := Added(f[levels[d.l + 1][J].pos], c, d.sep, d.pos);
            && |t.keys| == B && |t.pointers| == B + 1 && t.pos < |f| && Ascending(t.keys)
            && t.pos == levels[d.l + 1][J].pos
            && var g, levels' := SplitFile(f, t, S), levels[d.l + 1 := Expand(levels[d.l + 1], J, t.keys[S], |f|)];
            && Climbing(B, g, levels', rank + [d.l + 1], root, Debt(d.l + 1, J, t.keys[S], |f|))
            && Contents(g, levels'[0]) == Contents(f, levels[0])
            && (Occupied(B, f, levels) ==> Occupied(B, g, levels'))
  {
    hide Flat, Climbing, OwnKids;
    var up := levels[d.l + 1];
    var t := Added(f[up[J].pos], c, d.sep, d.pos);
    LevelOfDebt(B, f, levels, rank, root, d);
    OverfullOk(B, f, levels, rank, root, d, J, c);
    ParentSplitStep(B, S, f, levels, rank, root, d, J, c);
    SameContents(f, SplitFile(f, t, S), levels[0]);
    if Occupied(B, f, levels) {
      OccupiedParentSplit(B, S, f, levels, d.l + 1, J, t);
    }
  }

  /** Exactly the root is marked by parent 0. */
  lemma OnlyRootMarked(B: nat, f: File, levels: seq<Level>, rank: seq<nat>, root: nat, d: Debt)
    requires Climbing(B, f, levels, rank, root, d)
    ensures f[d.pos].parent == 0 <==> d.l + 1 == |levels|
    ensures d.l + 1 == |levels| ==> d.i < |levels[d.l]| && levels[d.l][d.i].pos == root
  {
    assert LevelOk(B, f, levels[d.l], rank, d.l);
    if d.l + 1 < |levels| {
      var J, c := FindCreditor(B, f, levels, rank, root, d);
    } else {
      assert Above(f, levels, root, d.l) == [Entry(root, INT_MIN, INT_END)];
    }
  }

  /** A new root pays the debt of the old one. */
  lemma GrowRoot(B: nat, f: File, levels: seq<Level>, rank: seq<nat>, root: nat, d: Debt)
    requires B >= 4 && Climbing(B, f, levels, rank, root, d) && f[d.pos].parent == 0
    ensures d.l < |levels| && d.i < |levels[d.l]| && levels[d.l][d.i].pos == root
    ensures var g, levels' := NewRootFile(f, root, d), levels + [[Entry(|f|, INT_MIN, INT_END)]];
            && Tree(B, g, levels', Extended(rank, |levels|), |f|)
            && Stock(g, levels') == Stock(f, levels)
            && (Occupied(B, f, levels) ==> Occupied(B, g, levels'))
  {
    hide Tree, Occupied, LevelsOk, Flat;
    OnlyRootMarked(B, f, levels, rank, root, d);
    NewRootStep(B, f, levels, rank, root, d);
    SameContents(f, NewRootFile(f, root, d), levels[0]);
    if Occupied(B, f, levels) {
      OccupiedNewRoot(B, f, NewRootFile(f, root, d), levels, Entry(|f|, INT_MIN, INT_END));
    }
  }

  /** No leaf reached through `next` is a root, so the overflow branch for
      duplicates is never taken. */
  lemma NextIsNoRoot(B: nat, f: File, levels: seq<Level>, rank: seq<nat>, root: nat, i: nat)
    requires Tree(B, f, levels, rank, root) && i < |levels[0]| && levels[0][i].pos < |f|
    requires f[levels[0][i].pos].next != 0
    ensures f[levels[0][i].pos].next < |f| && f[f[levels[0][i].pos].next].parent != 0
    ensures f[f[levels[0][i].pos].next].keys != []
  {
    var leaves := levels[0];
    assert LevelOk(B, f, leaves, rank, 0);
    assert f[leaves[i].pos].next == Successor(leaves, i);
    assert NodeOk(B, f[leaves[i + 1].pos], leaves[i + 1], 0);
    assert Settled(f, levels, root, 0);
    assert 1 < |levels|;
    var J, c := Locate(f, levels[1], i + 1);
    assert LevelOk(B, f, levels[1], rank, 1) && NodeOk(B, f[levels[1][J].pos], levels[1][J], 1);
    assert Parents(f, f[levels[1][J].pos], rank, 1);
  }

  // ----- one request at any level -----

  /** Entry i of level l is asked to take (key, pointer): a record at level 0, and
      above that the right half of a child, entry `from` of the level below. */
  datatype Ask = Ask(l: nat, i: nat, key: int, pointer: nat, from: nat)

  ghost function DebtOf(a: Ask): Debt
    requires a.l > 0
  {
    Debt(a.l - 1, a.from, a.key, a.pointer)
  }

  ghost predicate Asked(B: nat, f: File, levels: seq<Level>, rank: seq<nat>, root: nat, a: Ask) {
    && a.l < |levels| && a.i < |levels[a.l]| && InFile(f, levels[a.l])
    && var n, e := f[levels[a.l][a.i].pos], levels[a.l][a.i];
    && NodeOk(B, n, e, a.l)
    && if a.l == 0 then Tree(B, f, levels, rank, root) && e.lo <= a.key < e.hi && a.key !in n.keys
       else exists c: nat :: Arrived(B, f, levels, rank, root, DebtOf(a), a.i, c)
  }

  /** The contents the request has to lead to. */
  ghost function Wanted(f: File, levels: seq<Level>, a: Ask): seq<Record> {
    if a.l == 0 then InsertSorted(Stock(f, levels), Record(a.key, a.pointer)) else Stock(f, levels)
  }

  /** The file after node t, overfull by one entry, has split. */
  function SplitAny(f: File, t: Node, S: nat): File
    requires S < |t.keys| && |t.pointers| == |t.keys| + (if t.isLeaf then 0 else 1) && t.pos < |f|
  {
    if t.isLeaf then LeafSplitFile(f, t, S) else SplitFile(f, t, S)
  }

  /** The upper bound is the place where the debt says the separator belongs. */
  lemma OnlyPlace(B: nat, f: File, levels: seq<Level>, rank: seq<nat>, root: nat, a: Ask, p: nat)
    requires Asked(B, f, levels, rank, root, a) && a.l > 0
    requires IsUpper(f[levels[a.l][a.i].pos].keys, a.key, p)
    ensures Arrived(B, f, levels, rank, root, DebtOf(a), a.i, p)
  {
    hide Climbing, Flat;
    var c: nat :| Arrived(B, f, levels, rank, root, DebtOf(a), a.i, c);
    assert c == p;
  }

  /** A node with room grants the request. */
  lemma Grant(B: nat, f: File, levels: seq<Level>, rank: seq<nat>, root: nat, a: Ask, p: nat)
    requires Asked(B, f, levels, rank, root, a) && |f[levels[a.l][a.i].pos].keys| + 1 < B
    requires IsUpper(f[levels[a.l][a.i].pos].keys, a.key, p)
    ensures var g := f[levels[a.l][a.i].pos := Added(f[levels[a.l][a.i].pos], p, a.key, a.pointer)];
            && Tree(B, g, levels, rank, root)
            && Contents(g, levels[0]) == Wanted(f, levels, a)
            && (Occupied(B, f, levels) ==> Occupied(B, g, levels))
  {
    if a.l == 0 {
      TakeRecord(B, f, levels, rank, root, a.i, p, a.key, a.pointer);
    } else {
      OnlyPlace(B, f, levels, rank, root, a, p);
      PayInParent(B, f, levels, rank, root, DebtOf(a), a.i, p);
    }
  }

  /** A full node splits to grant the request, and leaves a debt at its level. */
  lemma GrantBySplit(B: nat, S: nat, f: File, levels: seq<Level>, rank: seq<nat>, root: nat, a: Ask, p: nat)
    requires B >= 4 && S == B / 2
    requires Asked(B, f, levels, rank, root, a) && |f[levels[a.l][a.i].pos].keys| + 1 == B
    requires IsUpper(f[levels[a.l][a.i].pos].keys, a.key, p)
    ensures var t := Added(f[levels[a.l][a.i].pos], p, a.key, a.pointer);
            var g, levels' := SplitAny(f, t, S), levels[a.l := Expand(levels[a.l], a.i, t.keys[S], |f|)];
            && Ascending(t.keys)
            && Climbing(B, g, levels', rank + [a.l], root, Debt(a.l, a.i, t.keys[S], |f|))
            && Contents(g, levels'[0]) == Wanted(f, levels, a)
            && (Occupied(B, f, levels) ==> Occupied(B, g, levels'))
  {
    hide Climbing, Occupied, LevelsOk, Flat;
    if a.l == 0 {
      SplitLeaf(B, S, f, levels, rank, root, a.i, p, a.key, a.pointer);
    } else {
      OnlyPlace(B, f, levels, rank, root, a, p);
      PassOn(B, S, f, levels, rank, root, DebtOf(a), a.i, p);
    }
  }

  /** The pointers of a splitting interior node name distinct nodes one level down, each at its
      own place, so every child that moves can be loaded and written back once. */
  lemma ChildrenInPlace(B: nat, f: File, levels: seq<Level>, rank: seq<nat>, root: nat, a: Ask, p: nat)
    requires Asked(B, f, levels, rank, root, a) && a.l > 0 && |f[levels[a.l][a.i].pos].keys| + 1 == B
    requires IsUpper(f[levels[a.l][a.i].pos].keys, a.key, p)
    ensures var t := Added(f[levels[a.l][a.i].pos], p, a.key, a.pointer);
            && (forall q :: q in t.pointers ==> q < |f| && f[q].pos == q && q < |rank| && rank[q] + 1 == a.l)
            && (forall i, j :: 0 <= i < j < |t.pointers| ==> t.pointers[i] != t.pointers[j])
  {
    hide Flat, Kids;
    OnlyPlace(B, f, levels, rank, root, a, p);
    var d := DebtOf(a);
    var up, below := levels[a.l], levels[d.l];
    var t := Added(f[up[a.i].pos], p, a.key, a.pointer);
    AddedKids(f[up[a.i].pos], up[a.i], p, a.key, a.pointer);
    assert LevelOk(B, f, below, rank, d.l);
    var from := BelowOverfull(f, up, below, a.i, p, t, a.key, a.pointer);
    PlacesOfKids(B, f, below, rank, d.l, t, from);
  }

  lemma PlacesOfKids(B: nat, f: File, below: Level, rank: seq<nat>, l: nat, t: Node, from: nat)
    requires LevelOk(B, f, below, rank, l) && from + |t.pointers| <= |below|
    requires forall i :: 0 <= i < |t.pointers| ==> t.pointers[i] == below[from + i].pos
    ensures forall q :: q in t.pointers ==> q < |f| && f[q].pos == q && q < |rank| && rank[q] == l
    ensures forall i, j :: 0 <= i < j < |t.pointers| ==> t.pointers[i] != t.pointers[j]
  {
  }

  /** The children of an overfull node are consecutive entries of the level below. */
  lemma BelowOverfull(f: File, up: Level, below: Level, J: nat, c: nat, t: Node, sep: int, pos: nat) returns (from: nat)
    requires InFile(f, up) && J < |up| && c < |f[up[J].pos].pointers|
    requires InFile(f, up[..J]) && |Flat(f, up[..J])| + c < |Flat(f, up)|
    requires below == Expand(Flat(f, up), |Flat(f, up[..J])| + c, sep, pos)
    requires Kids(t, up[J]) == Expand(Kids(f[up[J].pos], up[J]), c, sep, pos)
    ensures from + |t.pointers| <= |below|
    ensures forall i :: 0 <= i < |t.pointers| ==> t.pointers[i] == below[from + i].pos
  {
    hide Flat;
    FlatAround(f, up, J);
    var a, k, b := Flat(f, up[..J]), Kids(f[up[J].pos], up[J]), Flat(f, up[J + 1..]);
    ExpandMiddle(a, k, b, c, sep, pos);
    var x := Kids(t, up[J]);
    assert below == a + x + b;
    from := |a|;
    forall i | 0 <= i < |t.pointers|
      ensures below[from + i].pos == t.pointers[i]
    {
      assert below[from + i] == x[i] == Kid(t, up[J], i);
    }
  }

  /** A debt below the top is a request to the parent that the new node names. */
  lemma DebtAsks(B: nat, f: File, levels: seq<Level>, rank: seq<nat>, root: nat, d: Debt) returns (J: nat)
    requires Climbing(B, f, levels, rank, root, d) && f[d.pos].parent != 0
    ensures Asked(B, f, levels, rank, root, Ask(d.l + 1, J, d.sep, d.pos, d.i))
    ensures d.l + 1 < |levels| && J < |levels[d.l + 1]| && levels[d.l + 1][J].pos == f[d.pos].parent < |f|
  {
    OnlyRootMarked(B, f, levels, rank, root, d);
    var c: nat;
    J, c := FindCreditor(B, f, levels, rank, root, d);
    assert LevelOk(B, f, levels[d.l + 1], rank, d.l + 1);
    assert DebtOf(Ask(d.l + 1, J, d.sep, d.pos, d.i)) == d;
    assert Arrived(B, f, levels, rank, root, d, J, c);
  }

  /** What a node knows about itself when it is asked. */
  lemma AskedNode(B: nat, f: File, levels: seq<Level>, rank: seq<nat>, root: nat, a: Ask)
    requires Asked(B, f, levels, rank, root, a)
    ensures a.l < |levels| && a.i < |levels[a.l]| && levels[a.l][a.i].pos < |f|
    ensures var n := f[levels[a.l][a.i].pos];
            && (n.isLeaf <==> a.l == 0) && n.pos == levels[a.l][a.i].pos && 1 <= |n.keys| < B
            && |n.pointers| == |n.keys| + (if n.isLeaf then 0 else 1)
            && Ascending(n.keys) && a.key !in n.keys
    ensures |rank| == |f| && rank[levels[a.l][a.i].pos] == a.l
  {
    AskedShape(B, f, levels, rank, root, a);
    AskedRank(B, f, levels, rank, root, a);
  }

  lemma AskedShape(B: nat, f: File, levels: seq<Level>, rank: seq<nat>, root: nat, a: Ask)
    requires Asked(B, f, levels, rank, root, a)
    ensures var n := f[levels[a.l][a.i].pos];
            && (n.isLeaf <==> a.l == 0) && n.pos == levels[a.l][a.i].pos && 1 <= |n.keys| < B
            && |n.pointers| == |n.keys| + (if n.isLeaf then 0 else 1)
            && Ascending(n.keys) && a.key !in n.keys
  {
    hide Climbing, Tree, Flat;
    if a.l > 0 {
      var c: nat :| Arrived(B, f, levels, rank, root, DebtOf(a), a.i, c);
    }
  }

  lemma AskedRank(B: nat, f: File, levels: seq<Level>, rank: seq<nat>, root: nat, a: Ask)
    requires Asked(B, f, levels, rank, root, a)
    ensures |rank| == |f| && rank[levels[a.l][a.i].pos] == a.l
  {
    hide Flat, Settled, NodeOk;
    if a.l > 0 {
      var c: nat :| Arrived(B, f, levels, rank, root, DebtOf(a), a.i, c);
    }
    assert LevelOk(B, f, levels[a.l], rank, a.l);
  }

  /** The file while node t's upper children have been adopted but its halves not yet written. */
  function Adopted(f: File, t: Node, S: nat): File
    requires t.isLeaf || S < |t.pointers|
  {
    if t.isLeaf then f else Reparented(f, t.pointers[S + 1..], |f|)
  }

  function HalfLeft(t: Node, S: nat, next: nat): Node
    requires S < |t.keys| && |t.pointers| == |t.keys| + if t.isLeaf then 0 else 1
  {
    if t.isLeaf then LowerLeaf(t, S, next) else LowerHalf(t, S, next)
  }

  function HalfRight(t: Node, S: nat, pos: nat): Node
    requires S < |t.keys| && |t.pointers| == |t.keys| + if t.isLeaf then 0 else 1
  {
    if t.isLeaf then UpperLeaf(t, S, pos) else UpperHalf(t, S, pos)
  }

  /** The file with both halves of a root and a new root above them, written one by one. */
  function Planted(h: File, left: Node, right: Node, sep: int): File
    requires left.pos < |h|
  {
    var next := |h| + 1;
    (h + [right.(parent := next)])[left.pos := left.(parent := next)]
    + [Node(false, [sep], [left.pos, right.pos], 0, 0, next)]
  }

  lemma PlantedIs(h: File, left: Node, right: Node, d: Debt)
    requires left.pos < |h| && right.pos == |h| == d.pos
    ensures Planted(h, left, right, d.sep) == NewRootFile(h[left.pos := left] + [right], left.pos, d)
  {
    var a, b := Planted(h, left, right, d.sep), NewRootFile(h[left.pos := left] + [right], left.pos, d);
    forall q | 0 <= q < |h| + 2
      ensures a[q] == b[q]
    {
    }
    assert |a| == |b| == |h| + 2;
  }

  /** Node n, overfull by the requested entry, cut into two halves; h is the file
      in which the children of the right half have already been adopted. */
  ghost predicate Halved(B: nat, f: File, n: Node, a: Ask, p: nat, t: Node, h: File,
                         left: Node, right: Node, sep: int) {
    && B >= 4 && n.pos < |f| && n == f[n.pos] && |n.keys| + 1 == B && p <= |n.keys|
    && |n.pointers| == |n.keys| + (if n.isLeaf then 0 else 1)
    && IsUpper(n.keys, a.key, p) && t == Added(n, p, a.key, a.pointer) && h == Adopted(f, t, B / 2)
    && |t.keys| == B && |t.pointers| == (B + if t.isLeaf then 0 else 1)
    && left == HalfLeft(t, B / 2, |f|) && right == HalfRight(t, B / 2, |f|)
    && |h| == |f| && left.pos == n.pos && right.pos == |h| && sep == t.keys[B / 2]
  }

  /** The tree after a split that reached the root. */
  ghost predicate Grown(B: nat, g: File, levels: seq<Level>, rank: seq<nat>, root: nat, stock: seq<Record>, full: bool) {
    && Tree(B, g, levels, rank, root) && Stock(g, levels) == stock && (full ==> Occupied(B, g, levels))
  }

  ghost function SplitLevels(levels: seq<Level>, a: Ask, sep: int, pos: nat): seq<Level> {
    if a.l < |levels| && a.i < |levels[a.l]| then levels[a.l := Expand(levels[a.l], a.i, sep, pos)] else levels
  }

  /** The split leaves a debt at its level, in the file with both halves written. */
  lemma HalvedOwes(B: nat, f: File, levels: seq<Level>, rank: seq<nat>, root: nat, a: Ask, p: nat,
                   n: Node, t: Node, h: File, left: Node, right: Node, sep: int)
    requires Halved(B, f, n, a, p, t, h, left, right, sep)
    requires a.l < |levels| && a.i < |levels[a.l]| && Asked(B, f, levels, rank, root, a)
    requires n.pos == levels[a.l][a.i].pos
    ensures var mid, levels' := h[n.pos := left] + [right], SplitLevels(levels, a, sep, |f|);
            && Climbing(B, mid, levels', rank + [a.l], root, Debt(a.l, a.i, sep, |f|))
            && Contents(mid, levels'[0]) == Wanted(f, levels, a)
            && (Occupied(B, f, levels) ==> Occupied(B, mid, levels'))
            && levels'[a.l][a.i].pos == n.pos && mid[|f|].parent == n.parent
  {
    hide Climbing, Tree, NodeOk, Occupied, Contents, Flat, InsertSorted;
    GrantBySplit(B, B / 2, f, levels, rank, root, a, p);
    assert SplitAny(f, t, B / 2) == h[n.pos := left] + [right];
  }

  lemma RootSplits(B: nat, f: File, levels: seq<Level>, rank: seq<nat>, root: nat, a: Ask, p: nat,
                   n: Node, t: Node, h: File, left: Node, right: Node, sep: int)
    requires Halved(B, f, n, a, p, t, h, left, right, sep)
    requires a.l < |levels| && a.i < |levels[a.l]| && Asked(B, f, levels, rank, root, a)
    requires n.pos == levels[a.l][a.i].pos && n.parent == 0
    ensures Grown(B, Planted(h, left, right, sep),
                  SplitLevels(levels, a, sep, |f|) + [[Entry(|f| + 1, INT_MIN, INT_END)]],
                  Extended(Extended(rank, a.l), |levels|), |f| + 1, Wanted(f, levels, a), Occupied(B, f, levels))
  {
    hide Tree, Climbing, Asked, LevelsOk, NodeOk, Occupied, Contents, Flat, InsertSorted, Adopted, HalfLeft, HalfRight, Added,
         Planted, NewRootFile, Wanted, Stock;
    var mid, levels' := h[n.pos := left] + [right], SplitLevels(levels, a, sep, |f|);
    var d := Debt(a.l, a.i, sep, |f|);
    HalvedOwes(B, f, levels, rank, root, a, p, n, t, h, left, right, sep);
    GrowRoot(B, mid, levels', Extended(rank, a.l), root, d);
    PlantedIs(h, left, right, d);
    assert |levels'| == |levels|;
    StockIs(mid, levels');
  }

  lemma StockIs(f: File, levels: seq<Level>)
    requires levels != []
    ensures Stock(f, levels) == Contents(f, levels[0])
  {
  }

  lemma ParentAsked(B: nat, f: File, levels: seq<Level>, rank: seq<nat>, root: nat, a: Ask, p: nat,
                    n: Node, t: Node, h: File, left: Node, right: Node, sep: int)
    returns (b: Ask)
    requires Halved(B, f, n, a, p, t, h, left, right, sep)
    requires a.l < |levels| && a.i < |levels[a.l]| && Asked(B, f, levels, rank, root, a)
    requires n.pos == levels[a.l][a.i].pos && n.parent != 0
    ensures var mid, levels' := h[n.pos := left] + [right], SplitLevels(levels, a, sep, |f|);
            && b == Ask(a.l + 1, b.i, sep, |f|, a.i)
            && Asked(B, mid, levels', rank + [a.l], root, b)
            && n.parent < |mid| && levels'[b.l][b.i].pos == n.parent
            && Wanted(mid, levels', b) == Wanted(f, levels, a)
            && (Occupied(B, f, levels) ==> Occupied(B, mid, levels'))
  {
    hide Climbing, LevelsOk, NodeOk, Occupied, Contents, Flat, InsertSorted, Adopted, HalfLeft, HalfRight, Added;
    var mid, levels' := h[n.pos := left] + [right], SplitLevels(levels, a, sep, |f|);
    var d := Debt(a.l, a.i, sep, |f|);
    HalvedOwes(B, f, levels, rank, root, a, p, n, t, h, left, right, sep);
    var J := DebtAsks(B, mid, levels', Extended(rank, a.l), root, d);
    b := Ask(a.l + 1, J, sep, |f|, a.i);
  }

  lemma OverflowUnused(B: nat, f: File, levels: seq<Level>, rank: seq<nat>, root: nat, a: Ask)
    requires Asked(B, f, levels, rank, root, a) && a.l == 0 && f[levels[0][a.i].pos].next != 0
    ensures var next := f[levels[0][a.i].pos].next; next < |f| && f[next].parent != 0 && f[next].keys != []
  {
    NextIsNoRoot(B, f, levels, rank, root, a.i);
  }

  /** For a new key, the leaf that the descent from the root arrives at is the one to ask. */
  lemma LeafAsked(B: nat, f: File, levels: seq<Level>, rank: seq<nat>, root: nat, key: int, row: nat) returns (j: nat)
    requires Tree(B, f, levels, rank, root) && INT_MIN <= key < INT_END && !HasKey(Contents(f, levels[0]), key)
    ensures j < |levels[0]| && Descend(f, root, key, |levels| - 1) == levels[0][j].pos < |f|
    ensures Asked(B, f, levels, rank, root, Ask(0, j, key, row, 0))
  {
    hide Contents, HasKey;
    j := NewKeyFits(B, f, levels, rank, root, key);
    assert LevelOk(B, f, levels[0], rank, 0);
    assert NodeOk(B, f[levels[0][j].pos], levels[0][j], 0);
  }
}
