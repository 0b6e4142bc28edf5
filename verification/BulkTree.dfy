/** When a bulk-loaded file is a tree that insertion can continue. */
module BulkTree {
  import opened Columns
  import opened Records
  import opened Bounds
  import opened TreeShape
  import opened TreeLemmas
  import opened BulkShape
  import opened BulkSearch

  ghost predicate DistinctInts(s: seq<int>) {
    Ascending(s) && forall i :: 0 <= i < |s| ==> INT_MIN <= s[i] < INT_END
  }

  /** Every level of more than B nodes, of m nodes and upwards, has a multiple of B nodes. */
  predicate EvenLevels(B: nat, m: nat)
    requires B >= 4
    decreases m
  {
    m <= B || (m % B == 0 && (LevelsShrink(B, m); EvenLevels(B, GetCeil(m, B))))
  }

  /** The last leaf is not full, and no interior node has a stale tail. */
  predicate Continues(B: nat, s: seq<int>)
    requires B >= 4
  {
    |s| % (B - 1) != 0 && EvenLevels(B, LeafCount(B, s))
  }

  /** Some levels describe the file as a tree at rest. */
  ghost predicate IsTree(B: nat, f: File, root: nat) {
    exists levels, rank :: Tree(B, f, levels, rank, root)
  }

  // ----- levels as their sizes and places say -----

  lemma {:induction false} EvenAbove(B: nat, n: nat, l: nat, h: nat)
    requires B >= 4 && l <= h && LevelSize(B, n, h) <= B
    requires forall k :: 0 <= k < h ==> LevelSize(B, n, k) > B
    ensures EvenLevels(B, LevelSize(B, n, l)) <==> forall k :: l <= k < h ==> LevelSize(B, n, k) % B == 0
    decreases h - l
  {
    hide GetCeil;
    if l < h {
      LevelsShrink(B, LevelSize(B, n, l));
      assert LevelSize(B, n, l + 1) == GetCeil(LevelSize(B, n, l), B);
      EvenAbove(B, n, l + 1, h);
    }
  }

  /** A node over the entries from start on, filled by them, with at least two. */
  ghost predicate Span(B: nat, n: Node, b: nat, m: nat, start: nat) {
    && start < m && 2 <= |n.pointers| == Min(B, m - start)
    && forall c :: 0 <= c < |n.pointers| ==> n.pointers[c] == b + start + c
  }

  /** Where the entries of node j of a level start. */
  function StartAt(B: nat, j: nat): nat {
    j * B
  }

  /** Every node names its parent. */
  ghost predicate PlanParents(B: nat, f: File, b: nat, m: nat) {
    B > 0 && b + m <= |f| && forall p :: b <= p < b + m ==> f[p].parent == b + m + (p - b) / B
  }

  /** The m nodes from b on and the level above them, without stale tails. */
  ghost predicate Plan(B: nat, f: File, b: nat, m: nat) {
    && B > 0 && m > 0 && b + m + GetCeil(m, B) <= |f| && PlanParents(B, f, b, m)
    && (forall j :: 0 <= j < GetCeil(m, B) ==> Span(B, f[b + m + j], b, m, StartAt(B, j)))
  }

  lemma StoreyPlan(B: nat, f: File, b: nat, m: nat)
    requires B >= 4 && Storey(B, f, b, m) && m > B && m % B == 0
    ensures Plan(B, f, b, m)
  {
    hide GetCeil;
    CeilStarts(B, m, 0);
    forall j | 0 <= j < GetCeil(m, B)
      ensures Span(B, f[b + m + j], b, m, StartAt(B, j))
    {
      assert StoreyNode(B, f[b + m + j], b, m, j * B);
      CeilStarts(B, m, j);
      RoomForAll(B, m, j);
    }
  }

  lemma RoomForAll(B: nat, m: nat, j: nat)
    requires B > 0 && m % B == 0 && j * B < m
    ensures j * B + B <= m
  {
    var q := m / B;
    assert (q - j) * B == m - j * B;
    SmallMultiple(q - j, B, m - j * B);
  }

  lemma RootPlan(B: nat, f: File, b: nat, m: nat)
    requires B >= 4 && 2 <= m <= B && |f| == b + m + 1 && f[b + m].pointers == Rows(b, b + m)
    requires forall p :: b <= p < b + m ==> f[p].parent == b + m
    ensures Plan(B, f, b, m) && GetCeil(m, B) == 1
  {
    hide GetCeil, PlanParents;
    LevelsShrink(B, m);
    RootParentsPlan(B, f, b, m);
  }

  lemma RootParentsPlan(B: nat, f: File, b: nat, m: nat)
    requires B >= 4 && m <= B && b + m <= |f|
    requires forall p :: b <= p < b + m ==> f[p].parent == b + m
    ensures PlanParents(B, f, b, m)
  {
  }

  /** Sizes and places of the levels, root included. */
  lemma {:induction false} LevelsAre(B: nat, f: File, n: nat, h: nat, l: nat)
    requires B >= 4 && Storeyed(B, f, n, h) && n >= 2 && l <= h
    ensures LevelSize(B, n, l) >= 2
    ensures LevelSize(B, n, h + 1) == 1 ==> LevelBase(B, n, h + 1) == |f| - 1 && LevelBase(B, n, h + 2) == |f|
    ensures LevelBase(B, n, l) + LevelSize(B, n, l) < |f|
    decreases l
  {
    hide GetCeil, Storey;
    if l > 0 {
      LevelsAre(B, f, n, h, l - 1);
      LevelsShrink(B, LevelSize(B, n, l - 1));
    }
    BaseGrows(B, n, l, h);
  }

  lemma {:induction false} BaseGrows(B: nat, n: nat, k: nat, l: nat)
    requires B > 0 && k <= l
    ensures k < l ==> LevelBase(B, n, k) + LevelSize(B, n, k) <= LevelBase(B, n, l)
    decreases l - k
  {
    hide GetCeil;
    if k < l - 1 {
      BaseGrows(B, n, k, l - 1);
    }
  }

  lemma StoreysEven(B: nat, f: File, n: nat, h: nat)
    requires B >= 4 && Storeyed(B, f, n, h)
    ensures EvenLevels(B, n) <==> forall k :: 0 <= k < h ==> LevelSize(B, n, k) % B == 0
  {
    hide GetCeil, Storey, EvenLevels, LevelBase;
    assert LevelSize(B, n, 0) == n;
    EvenAbove(B, n, 0, h);
  }

  /** Every level below the root is planned. */
  lemma PlanAt(B: nat, f: File, n: nat, h: nat, l: nat)
    requires B >= 4 && Storeyed(B, f, n, h) && n >= 2 && l <= h && EvenLevels(B, n)
    ensures Plan(B, f, LevelBase(B, n, l), LevelSize(B, n, l))
    ensures LevelSize(B, n, h + 1) == 1 && LevelBase(B, n, h + 1) == |f| - 1 && LevelBase(B, n, h + 2) == |f|
  {
    hide GetCeil, Storey, Plan, EvenLevels;
    StoreysEven(B, f, n, h);
    LevelsAre(B, f, n, h, h);
    RootPlan(B, f, LevelBase(B, n, h), LevelSize(B, n, h));
    if l < h {
      assert LevelSize(B, n, l) > B && LevelSize(B, n, l) % B == 0;
      StoreyPlan(B, f, LevelBase(B, n, l), LevelSize(B, n, l));
    }
  }

  // ----- the levels of the tree -----

  ghost function RowEntry(B: nat, s: seq<int>, left: seq<nat>, b: nat, m: nat, i: nat): Entry
    requires B >= 4
  {
    Entry(b + i, if i == 0 then INT_MIN else FirstKey(B, s, left, b + i),
          if i + 1 < m then FirstKey(B, s, left, b + i + 1) else INT_END)
  }

  /** The m nodes from b on as a level. */
  ghost function Row(B: nat, s: seq<int>, left: seq<nat>, b: nat, m: nat): Level
    requires B >= 4
  {
    seq(m, i requires 0 <= i < m => RowEntry(B, s, left, b, m, i))
  }

  /** The leftmost leaves below a level, from left to right. */
  ghost predicate LeftAscends(n: nat, left: seq<nat>, b: nat, m: nat) {
    && m > 0 && b + m <= |left| && left[b] == 0
    && (forall p :: b <= p < b + m ==> left[p] < n)
    && (forall p, q :: b <= p < q < b + m ==> left[p] < left[q])
  }

  lemma StartKeyAt(B: nat, s: seq<int>, i: nat)
    requires B >= 4 && i < LeafCount(B, s)
    ensures StartOf(B, i) < |s| && StartKey(B, s, i) == s[StartOf(B, i)]
  {
    hide LeafCount, StartOf;
    LeafStart(B, s, i);
  }

  lemma StartKeysAscend(B: nat, s: seq<int>, i: nat, j: nat)
    requires B >= 4 && DistinctInts(s) && i <= j < LeafCount(B, s)
    ensures i < j ==> StartKey(B, s, i) < StartKey(B, s, j)
    ensures INT_MIN <= StartKey(B, s, i) < INT_END
  {
    hide LeafCount, StartOf;
    StartKeyAt(B, s, i);
    StartKeyAt(B, s, j);
    StartGrows(B, i, j);
  }

  /** The first values along a level ascend within the ints. */
  lemma FirstKeysAscend(B: nat, s: seq<int>, left: seq<nat>, b: nat, m: nat, p: nat, q: nat)
    requires B >= 4 && DistinctInts(s) && LeftAscends(LeafCount(B, s), left, b, m) && b <= p <= q < b + m
    ensures p < q ==> FirstKey(B, s, left, p) < FirstKey(B, s, left, q)
    ensures INT_MIN <= FirstKey(B, s, left, p) < INT_END
    ensures b < p ==> INT_MIN < FirstKey(B, s, left, p)
  {
    hide LeafCount, StartKey, DistinctInts;
    StartKeysAscend(B, s, left[p], left[q]);
    StartKeysAscend(B, s, left[b], left[p]);
  }

  lemma RowTiles(B: nat, s: seq<int>, left: seq<nat>, b: nat, m: nat)
    requires B >= 4 && DistinctInts(s) && LeftAscends(LeafCount(B, s), left, b, m)
    ensures Tiles(Row(B, s, left, b, m)) && Distinct(Row(B, s, left, b, m))
  {
    hide LeafCount, FirstKey, DistinctInts;
    var lev := Row(B, s, left, b, m);
    forall i | 0 <= i < |lev|
      ensures lev[i].lo < lev[i].hi
    {
      FirstKeysAscend(B, s, left, b, m, b + i, b + i);
      if i + 1 < m {
        FirstKeysAscend(B, s, left, b, m, b + i, b + i + 1);
        FirstKeysAscend(B, s, left, b, m, b + i + 1, b + i + 1);
      }
    }
  }

  /** A node over the positions from `first` on: its separators, and its leftmost leaf. */
  ghost predicate RowNode(B: nat, s: seq<int>, left: seq<nat>, n: Node, q: nat, first: nat)
    requires B >= 4
  {
    && !n.isLeaf && n.pos == q < |left| && first < |left| && left[q] == left[first] && |n.pointers| == |n.keys| + 1
    && (forall c :: 0 <= c < |n.pointers| ==> n.pointers[c] == first + c)
    && (forall i :: 0 <= i < |n.keys| ==> n.keys[i] == FirstKey(B, s, left, first + 1 + i))
  }

  lemma NodeOfRow(B: nat, s: seq<int>, f: File, left: seq<nat>, b: nat, m: nat, j: nat)
    requires B >= 4 && Guided(B, s, f, left) && Plan(B, f, b, m) && b + m >= LeafCount(B, s) && j < GetCeil(m, B)
    ensures StartAt(B, j) < m && b + m + j < |f| == |left|
    ensures 2 <= |f[b + m + j].pointers| == Min(B, m - StartAt(B, j))
    ensures RowNode(B, s, left, f[b + m + j], b + m + j, b + StartAt(B, j))
  {
    hide GetCeil, LeafCount, StartAt, Plan, Guided, Span, Separates, RowNode;
    SpanOf(B, f, b, m, j);
    var n := f[b + m + j];
    SeparatesOf(B, s, f, left, b + m + j);
    SpanSize(B, n, b, m, StartAt(B, j));
    SpanSeparates(B, s, left, n, b + m + j, b, m, StartAt(B, j));
  }

  lemma SpanOf(B: nat, f: File, b: nat, m: nat, j: nat)
    requires B >= 4 && Plan(B, f, b, m) && j < GetCeil(m, B)
    ensures StartAt(B, j) < m && b + m + j < |f| && Span(B, f[b + m + j], b, m, StartAt(B, j))
  {
    hide GetCeil, StartAt, PlanParents;
    assert Span(B, f[b + m + j], b, m, StartAt(B, j));
  }

  lemma SeparatesOf(B: nat, s: seq<int>, f: File, left: seq<nat>, q: nat)
    requires B >= 4 && Guided(B, s, f, left) && LeafCount(B, s) <= q < |f|
    ensures |f| == |left| && Separates(B, s, left, f[q], q)
  {
    hide LeafCount, LeavesOk, Separates;
  }

  lemma SpanSize(B: nat, n: Node, b: nat, m: nat, start: nat)
    requires Span(B, n, b, m, start) && start < m
    ensures 2 <= |n.pointers| == Min(B, m - start)
  {
  }

  lemma SpanSeparates(B: nat, s: seq<int>, left: seq<nat>, n: Node, q: nat, b: nat, m: nat, start: nat)
    requires B >= 4 && Span(B, n, b, m, start) && Separates(B, s, left, n, q)
    ensures RowNode(B, s, left, n, q, b + start)
  {
    hide FirstKey;
    assert n.pointers[0] == b + start;
    forall i | 0 <= i < |n.keys|
      ensures n.keys[i] == FirstKey(B, s, left, b + start + 1 + i)
    {
      assert n.pointers[i + 1] == b + start + (i + 1);
      assert n.keys[i + 1 - 1] == FirstKey(B, s, left, n.pointers[i + 1]);
    }
  }

  lemma LeftAscendsUp(B: nat, s: seq<int>, f: File, left: seq<nat>, b: nat, m: nat)
    requires B >= 4 && Guided(B, s, f, left) && Plan(B, f, b, m) && b + m >= LeafCount(B, s)
    requires LeftAscends(LeafCount(B, s), left, b, m)
    ensures LeftAscends(LeafCount(B, s), left, b + m, GetCeil(m, B))
  {
    hide GetCeil, LeafCount, Guided, Plan, StartAt;
    var m' := GetCeil(m, B);
    PlanSizes(B, f, b, m);
    GuidedSizes(B, s, f, left);
    NodeOfRow(B, s, f, left, b, m, 0);
    StartsAre(B, m, 0);
    forall p | b + m <= p < b + m + m'
      ensures left[p] < LeafCount(B, s)
    {
      NodeOfRow(B, s, f, left, b, m, p - (b + m));
    }
    forall p, q | b + m <= p < q < b + m + m'
      ensures left[p] < left[q]
    {
      NodeOfRow(B, s, f, left, b, m, p - (b + m));
      NodeOfRow(B, s, f, left, b, m, q - (b + m));
      StartsGrow(B, p - (b + m), q - (b + m));
    }
  }

  lemma StartsGrow(B: nat, i: nat, j: nat)
    requires B > 0 && i < j
    ensures StartAt(B, i) + B <= StartAt(B, j)
  {
    assert j * B - i * B == (j - i) * B;
    AtLeast(j - i, B);
  }

  lemma StartsAre(B: nat, m: nat, j: nat)
    requires B > 0
    ensures StartAt(B, 0) == 0 && StartAt(B, j + 1) == StartAt(B, j) + B
    ensures j < GetCeil(m, B) <==> StartAt(B, j) < m
    ensures j > 0 ==> StartAt(B, j) > 0
  {
  }

  lemma PlanSizes(B: nat, f: File, b: nat, m: nat)
    requires Plan(B, f, b, m)
    ensures B > 0 && m > 0 && GetCeil(m, B) > 0 && b + m + GetCeil(m, B) <= |f|
  {
  }

  /** The children of a node over a stretch of a row are that stretch. */
  lemma StretchKids(B: nat, s: seq<int>, left: seq<nat>, n: Node, q: nat, b: nat, m: nat, start: nat, e: Entry)
    requires B >= 4 && RowNode(B, s, left, n, q, b + start) && start + |n.pointers| <= m && |n.pointers| > 0
    requires e.lo == RowEntry(B, s, left, b, m, start).lo
    requires e.hi == RowEntry(B, s, left, b, m, start + |n.pointers| - 1).hi
    ensures Kids(n, e) == Row(B, s, left, b, m)[start..start + |n.pointers|]
  {
  }

  /** The interval of node j of a row is that of its children together. */
  lemma NodeEntry(B: nat, s: seq<int>, f: File, left: seq<nat>, b: nat, m: nat, j: nat)
    requires B >= 4 && Guided(B, s, f, left) && Plan(B, f, b, m) && b + m >= LeafCount(B, s) && j < GetCeil(m, B)
    ensures var start, e := StartAt(B, j), RowEntry(B, s, left, b + m, GetCeil(m, B), j);
            && start < m && e.pos == b + m + j && e.lo == RowEntry(B, s, left, b, m, start).lo
            && e.hi == RowEntry(B, s, left, b, m, Min(start + B, m) - 1).hi
  {
    hide GetCeil, LeafCount, FirstKey, Guided, Plan, StartAt;
    var start := StartAt(B, j);
    NodeOfRow(B, s, f, left, b, m, j);
    StartsAre(B, m, j);
    StartsAre(B, m, j + 1);
    SameLeft(B, s, left, b + start, left, b + m + j);
    if j + 1 < GetCeil(m, B) {
      NodeOfRow(B, s, f, left, b, m, j + 1);
      SameLeft(B, s, left, b + start + B, left, b + m + j + 1);
    }
  }

  /** The children of a node, in its row, are the stretch of the row below. */
  lemma NodeKids(B: nat, s: seq<int>, f: File, left: seq<nat>, b: nat, m: nat, j: nat)
    requires B >= 4 && Guided(B, s, f, left) && Plan(B, f, b, m) && b + m >= LeafCount(B, s) && j < GetCeil(m, B)
    ensures b + m + j < |f| && StartAt(B, j) < m
    ensures Kids(f[b + m + j], RowEntry(B, s, left, b + m, GetCeil(m, B), j))
         == Row(B, s, left, b, m)[StartAt(B, j)..Min(StartAt(B, j) + B, m)]
  {
    hide GetCeil, LeafCount, FirstKey, Guided, Plan, StartAt, RowNode, RowEntry, Row, Kids;
    NodeOfRow(B, s, f, left, b, m, j);
    NodeEntry(B, s, f, left, b, m, j);
    StretchKids(B, s, left, f[b + m + j], b + m + j, b, m, StartAt(B, j), RowEntry(B, s, left, b + m, GetCeil(m, B), j));
  }

  /** A row is what the nodes of the row above say it is. */
  lemma {:induction false} FlatRow(B: nat, s: seq<int>, f: File, left: seq<nat>, b: nat, m: nat, j: nat)
    requires B >= 4 && Guided(B, s, f, left) && Plan(B, f, b, m) && b + m >= LeafCount(B, s) && j <= GetCeil(m, B)
    ensures Flat(f, Row(B, s, left, b + m, GetCeil(m, B))[..j]) == Row(B, s, left, b, m)[..Min(StartAt(B, j), m)]
  {
    hide GetCeil, LeafCount, FirstKey, Guided, Plan, Kids, StartAt;
    var up, lev := Row(B, s, left, b + m, GetCeil(m, B)), Row(B, s, left, b, m);
    StartsAre(B, m, 0);
    if j > 0 {
      var i := j - 1;
      StartsAre(B, m, i);
      FlatRow(B, s, f, left, b, m, i);
      NodeKids(B, s, f, left, b, m, i);
      assert up[..j] == up[..i] + [up[i]];
      FlatConcat(f, up[..i], [up[i]]);
      FlatOne(f, up[i]);
      assert lev[..Min(StartAt(B, j), m)] == lev[..StartAt(B, i)] + lev[StartAt(B, i)..Min(StartAt(B, j), m)];
    }
  }

  lemma RowBelow(B: nat, s: seq<int>, f: File, left: seq<nat>, b: nat, m: nat)
    requires B >= 4 && Guided(B, s, f, left) && Plan(B, f, b, m) && b + m >= LeafCount(B, s)
    ensures Flat(f, Row(B, s, left, b + m, GetCeil(m, B))) == Row(B, s, left, b, m)
  {
    hide LeafCount, FirstKey, Guided, Plan, Flat, GetCeil, StartAt;
    var m' := GetCeil(m, B);
    PlanSizes(B, f, b, m);
    FlatRow(B, s, f, left, b, m, m');
    StartsAre(B, m, m');
    assert Row(B, s, left, b + m, m')[..m'] == Row(B, s, left, b + m, m');
    assert Row(B, s, left, b, m)[..m] == Row(B, s, left, b, m);
  }

  // ----- the levels satisfy the invariant -----

  /** The nodes from b on have rank l. */
  ghost predicate RanksAre(rank: seq<nat>, b: nat, m: nat, l: nat) {
    b + m <= |rank| && forall p :: b <= p < b + m ==> rank[p] == l
  }

  lemma StretchOk(B: nat, s: seq<int>, left: seq<nat>, n: Node, q: nat, b: nat, m: nat, start: nat, e: Entry)
    requires B >= 4 && DistinctInts(s) && LeftAscends(LeafCount(B, s), left, b, m)
    requires RowNode(B, s, left, n, q, b + start) && start + |n.pointers| <= m && 2 <= |n.pointers| <= B && e.pos == q
    requires e.lo == RowEntry(B, s, left, b, m, start).lo
    requires e.hi == RowEntry(B, s, left, b, m, start + |n.pointers| - 1).hi
    ensures InteriorOk(B, n, e)
  {
    hide LeafCount, FirstKey, DistinctInts, LeftAscends;
    forall i, k | 0 <= i <= k < |n.keys|
      ensures i < k ==> n.keys[i] < n.keys[k]
      ensures e.lo < n.keys[i] < e.hi
    {
      FirstKeysAscend(B, s, left, b, m, b + start + 1 + i, b + start + 1 + k);
      FirstKeysAscend(B, s, left, b, m, b + start, b + start + 1 + i);
      if start + |n.pointers| < m {
        FirstKeysAscend(B, s, left, b, m, b + start + 1 + i, b + start + |n.pointers|);
      }
    }
  }

  lemma InteriorNodeOk(B: nat, s: seq<int>, f: File, left: seq<nat>, b: nat, m: nat, j: nat)
    requires B >= 4 && DistinctInts(s) && Guided(B, s, f, left) && Plan(B, f, b, m) && b + m >= LeafCount(B, s)
    requires LeftAscends(LeafCount(B, s), left, b, m) && j < GetCeil(m, B)
    ensures b + m + j < |f| && InteriorOk(B, f[b + m + j], RowEntry(B, s, left, b + m, GetCeil(m, B), j))
  {
    hide GetCeil, LeafCount, FirstKey, Guided, DistinctInts, Plan, StartAt, LeftAscends, RowNode, RowEntry, InteriorOk;
    NodeOfRow(B, s, f, left, b, m, j);
    NodeEntry(B, s, f, left, b, m, j);
    StretchOk(B, s, left, f[b + m + j], b + m + j, b, m, StartAt(B, j), RowEntry(B, s, left, b + m, GetCeil(m, B), j));
  }

  lemma InteriorParents(B: nat, f: File, b: nat, m: nat, j: nat, rank: seq<nat>, l: nat)
    requires Plan(B, f, b, m) && j < GetCeil(m, B) && RanksAre(rank, b, m, l) && f[b + m + j].pos == b + m + j
    ensures Parents(f, f[b + m + j], rank, l + 1)
  {
    hide GetCeil;
    var n := f[b + m + j];
    assert Span(B, n, b, m, StartAt(B, j));
    forall c | 0 <= c < |n.pointers|
      ensures n.pointers[c] < |f| && f[n.pointers[c]].parent == n.pos && rank[n.pointers[c]] == l
    {
      assert n.pointers[c] == b + j * B + c;
      DivOf(B, j, c);
    }
  }

  lemma InteriorRowOk(B: nat, s: seq<int>, f: File, left: seq<nat>, b: nat, m: nat, rank: seq<nat>, l: nat)
    requires B >= 4 && DistinctInts(s) && Guided(B, s, f, left) && Plan(B, f, b, m) && b + m >= LeafCount(B, s)
    requires LeftAscends(LeafCount(B, s), left, b, m)
    requires RanksAre(rank, b, m, l) && RanksAre(rank, b + m, GetCeil(m, B), l + 1)
    ensures LevelOk(B, f, Row(B, s, left, b + m, GetCeil(m, B)), rank, l + 1)
  {
    hide GetCeil, LeafCount, FirstKey, Guided, DistinctInts, Plan, StartAt, LeftAscends, InteriorOk, Parents, Tiles, Distinct;
    var m' := GetCeil(m, B);
    var lev := Row(B, s, left, b + m, m');
    PlanSizes(B, f, b, m);
    LeftAscendsUp(B, s, f, left, b, m);
    RowTiles(B, s, left, b + m, m');
    forall j | 0 <= j < |lev|
      ensures lev[j].pos < |f| && NodeOk(B, f[lev[j].pos], lev[j], l + 1) && Parents(f, f[lev[j].pos], rank, l + 1)
    {
      InteriorNodeOk(B, s, f, left, b, m, j);
      NodeOfRow(B, s, f, left, b, m, j);
      InteriorParents(B, f, b, m, j, rank, l);
    }
  }

  /** The leaves are their own leftmost leaves. */
  ghost predicate OwnLeft(n: nat, left: seq<nat>) {
    0 < n <= |left| && forall q :: 0 <= q < n ==> left[q] == q
  }

  lemma LeafNodeOk(B: nat, s: seq<int>, left: seq<nat>, i: nat)
    requires B >= 4 && DistinctInts(s) && OwnLeft(LeafCount(B, s), left) && i < LeafCount(B, s)
    ensures LeafOk(B, LeafOf(B, s, i), RowEntry(B, s, left, 0, LeafCount(B, s), i))
  {
    hide LeafCount, StartOf, StartKey, FirstKey, LeafOf;
    StartKeysAscend(B, s, 0, i);
    LeafBetween(B, s, i, StartKey(B, s, i),
                if i + 1 < LeafCount(B, s) then StartKey(B, s, i + 1) else INT_END);
    OwnFirst(B, s, left, i);
    OwnFirst(B, s, left, i + 1);
  }

  lemma OwnFirst(B: nat, s: seq<int>, left: seq<nat>, i: nat)
    requires B >= 4 && OwnLeft(LeafCount(B, s), left)
    ensures i < LeafCount(B, s) ==> FirstKey(B, s, left, i) == StartKey(B, s, i)
  {
  }

  /** The values of a leaf lie between its first value and that of the next leaf. */
  lemma LeafBetween(B: nat, s: seq<int>, i: nat, lo: int, hi: int)
    requires B >= 4 && DistinctInts(s) && i < LeafCount(B, s) && lo == StartKey(B, s, i)
    requires hi == if i + 1 < LeafCount(B, s) then StartKey(B, s, i + 1) else INT_END
    ensures LeafOk(B, LeafOf(B, s, i), Entry(i, lo, hi))
  {
    hide LeafCount, StartOf;
    LeafStart(B, s, i);
    StartKeyAt(B, s, i);
    if i + 1 < LeafCount(B, s) {
      StartKeyAt(B, s, i + 1);
    }
  }

  lemma LeafRowOk(B: nat, s: seq<int>, f: File, left: seq<nat>, rank: seq<nat>)
    requires B >= 4 && DistinctInts(s) && |s| % (B - 1) != 0
    requires OwnLeft(LeafCount(B, s), left) && LeafCount(B, s) < |f| && LeavesOk(B, s, f, LeafCount(B, s))
    requires RanksAre(rank, 0, LeafCount(B, s), 0)
    ensures LevelOk(B, f, Row(B, s, left, 0, LeafCount(B, s)), rank, 0)
    ensures Chain(f, Row(B, s, left, 0, LeafCount(B, s)))
  {
    hide LeafCount, Tiles, RowEntry, LeafOk, LeafOf, DistinctInts, Chain, Distinct;
    var n := LeafCount(B, s);
    var lev := Row(B, s, left, 0, n);
    RowTiles(B, s, left, 0, n);
    RowPlaces(B, s, left, 0, n);
    forall i | 0 <= i < |lev|
      ensures NodeOk(B, f[lev[i].pos], lev[i], 0)
    {
      LeafNodeOk(B, s, left, i);
    }
    LeafRowChain(B, s, f, left);
  }

  lemma RowPlaces(B: nat, s: seq<int>, left: seq<nat>, b: nat, m: nat)
    requires B >= 4
    ensures forall i :: 0 <= i < m ==> Row(B, s, left, b, m)[i].pos == b + i
  {
  }

  lemma LeafRowChain(B: nat, s: seq<int>, f: File, left: seq<nat>)
    requires B >= 4 && |s| % (B - 1) != 0 && LeafCount(B, s) < |f| && LeavesOk(B, s, f, LeafCount(B, s))
    ensures InFile(f, Row(B, s, left, 0, LeafCount(B, s))) && Chain(f, Row(B, s, left, 0, LeafCount(B, s)))
  {
    hide LeafCount, RowEntry, LeafOf;
    var lev := Row(B, s, left, 0, LeafCount(B, s));
    RowPlaces(B, s, left, 0, LeafCount(B, s));
    forall i | 0 <= i < |lev|
      ensures f[lev[i].pos].next == Successor(lev, i)
    {
      LeafNext(B, s, f, i);
    }
  }

  // ----- the whole tree -----

  /** The levels of a loaded file, from the leaves to the root. */
  ghost function Floors(B: nat, s: seq<int>, left: seq<nat>, h: nat): seq<Level>
    requires B >= 4
  {
    var n := LeafCount(B, s);
    seq(h + 2, l requires 0 <= l < h + 2 => Row(B, s, left, LevelBase(B, n, l), LevelSize(B, n, l)))
  }

  /** The level that position p lies in, looking down from level l. */
  ghost function FloorOf(B: nat, n: nat, p: nat, l: nat): nat
    requires B > 0
  {
    if l == 0 || LevelBase(B, n, l) <= p then l else FloorOf(B, n, p, l - 1)
  }

  ghost function FloorRanks(B: nat, n: nat, h: nat, size: nat): seq<nat>
    requires B > 0
  {
    seq(size, p requires 0 <= p < size => FloorOf(B, n, p, h + 1))
  }

  lemma {:induction false} FloorIs(B: nat, n: nat, p: nat, l: nat, k: nat)
    requires B > 0 && l <= k && LevelBase(B, n, l) <= p < LevelBase(B, n, l) + LevelSize(B, n, l)
    ensures FloorOf(B, n, p, k) == l
    decreases k
  {
    hide LevelBase, LevelSize;
    BaseGrows(B, n, l, k);
    if l < k {
      FloorIs(B, n, p, l, k - 1);
    }
  }

  lemma FloorRanksAre(B: nat, n: nat, h: nat, size: nat, l: nat)
    requires B > 0 && l <= h + 1 && LevelBase(B, n, l) + LevelSize(B, n, l) <= size
    ensures RanksAre(FloorRanks(B, n, h, size), LevelBase(B, n, l), LevelSize(B, n, l), l)
  {
    hide LevelBase, LevelSize, FloorOf;
    forall p | LevelBase(B, n, l) <= p < LevelBase(B, n, l) + LevelSize(B, n, l)
      ensures FloorRanks(B, n, h, size)[p] == l
    {
      FloorIs(B, n, p, l, h + 1);
    }
  }

  /** What a loaded file without stale tails has at every level. */
  lemma {:induction false} FloorAt(B: nat, s: seq<int>, f: File, left: seq<nat>, root: nat, h: nat, l: nat)
    requires B >= 4 && Loaded(B, s, f, left, root) && Storeyed(B, f, LeafCount(B, s), h)
    requires LeafCount(B, s) >= 2 && EvenLevels(B, LeafCount(B, s)) && l <= h + 1
    ensures var n := LeafCount(B, s);
            && LeftAscends(n, left, LevelBase(B, n, l), LevelSize(B, n, l))
            && LevelBase(B, n, l) + LevelSize(B, n, l) <= |f| && (l > 0 ==> LevelBase(B, n, l) >= n)
    decreases l
  {
    hide LeafCount, GetCeil, EvenLevels, Storey, HasParent, LeavesOk, Separates, Plan, Storeyed;
    var n := LeafCount(B, s);
    if l > 0 {
      FloorAt(B, s, f, left, root, h, l - 1);
      PlanAt(B, f, n, h, l - 1);
      PlanSizes(B, f, LevelBase(B, n, l - 1), LevelSize(B, n, l - 1));
      assert LevelBase(B, n, 0) == 0 && LevelSize(B, n, 0) == n;
      LeftAscendsUp(B, s, f, left, LevelBase(B, n, l - 1), LevelSize(B, n, l - 1));
    }
  }

  lemma LoadedPieces(B: nat, s: seq<int>, f: File, left: seq<nat>, root: nat)
    requires B >= 4 && Loaded(B, s, f, left, root)
    ensures OwnLeft(LeafCount(B, s), left) && LeafCount(B, s) < |f| && LeavesOk(B, s, f, LeafCount(B, s)) && Guided(B, s, f, left)
  {
    hide LeafCount, LeavesOk;
  }

  lemma FloorOk(B: nat, s: seq<int>, f: File, left: seq<nat>, root: nat, h: nat, l: nat)
    requires B >= 4 && Loaded(B, s, f, left, root) && Storeyed(B, f, LeafCount(B, s), h) && DistinctInts(s)
    requires LeafCount(B, s) >= 2 && Continues(B, s) && l <= h + 1
    ensures LevelOk(B, f, Floors(B, s, left, h)[l], FloorRanks(B, LeafCount(B, s), h, |f|), l)
    ensures l == 0 ==> Chain(f, Floors(B, s, left, h)[0])
  {
    hide LeafCount, GetCeil, EvenLevels, HasParent, Guided, Plan, Storeyed, DistinctInts, LevelOk, Chain, Row,
         LeftAscends, RanksAre, FloorRanks, LevelBase, LevelSize, LeavesOk, OwnLeft;
    LoadedPieces(B, s, f, left, root);
    FloorSizes(B, LeafCount(B, s), l);
    var n := LeafCount(B, s);
    var rank := FloorRanks(B, n, h, |f|);
    FloorAt(B, s, f, left, root, h, l);
    FloorRanksAre(B, n, h, |f|, l);
    if l == 0 {
      LeafRowOk(B, s, f, left, rank);
    } else {
      FloorAt(B, s, f, left, root, h, l - 1);
      FloorRanksAre(B, n, h, |f|, l - 1);
      PlanAt(B, f, n, h, l - 1);
      InteriorRowOk(B, s, f, left, LevelBase(B, n, l - 1), LevelSize(B, n, l - 1), rank, l - 1);
    }
  }

  /** Each level is what the level above says; the root level is the root. */
  lemma FloorSettles(B: nat, s: seq<int>, f: File, left: seq<nat>, root: nat, h: nat, l: nat)
    requires B >= 4 && Loaded(B, s, f, left, root) && Storeyed(B, f, LeafCount(B, s), h)
    requires LeafCount(B, s) >= 2 && Continues(B, s) && l <= h + 1
    ensures Settled(f, Floors(B, s, left, h), root, l)
  {
    hide LeafCount, GetCeil, EvenLevels, HasParent, Guided, Plan, Storeyed, Row, Flat, LeftAscends, LevelSize, LevelBase;
    var n, levels := LeafCount(B, s), Floors(B, s, left, h);
    FloorAt(B, s, f, left, root, h, l);
    if l <= h {
      PlanAt(B, f, n, h, l);
      LevelUp(B, n, l);
      RowBelow(B, s, f, left, LevelBase(B, n, l), LevelSize(B, n, l));
      assert levels[l + 1] == Row(B, s, left, LevelBase(B, n, l + 1), LevelSize(B, n, l + 1));
    } else {
      PlanAt(B, f, n, h, h);
      RootRow(B, s, left, root);
    }
  }

  lemma LevelUp(B: nat, n: nat, l: nat)
    requires B > 0
    ensures LevelSize(B, n, l + 1) == GetCeil(LevelSize(B, n, l), B)
    ensures LevelBase(B, n, l + 1) == LevelBase(B, n, l) + LevelSize(B, n, l)
    ensures LevelBase(B, n, l) + LevelSize(B, n, l) >= n
  {
    LaterLevels(B, n, l);
  }

  lemma {:induction false} LaterLevels(B: nat, n: nat, k: nat)
    requires B > 0
    ensures LevelBase(B, n, k) + LevelSize(B, n, k) >= n
  {
    hide GetCeil;
    if k > 0 {
      LaterLevels(B, n, k - 1);
    }
  }

  lemma RootRow(B: nat, s: seq<int>, left: seq<nat>, root: nat)
    requires B >= 4
    ensures Row(B, s, left, root, 1) == [Entry(root, INT_MIN, INT_END)]
  {
  }

  lemma {:induction false} FloorCount(B: nat, s: seq<int>, left: seq<nat>, h: nat, l: nat)
    requires B >= 4 && l <= h + 2
    ensures NodeCount(Floors(B, s, left, h)[..l]) == LevelBase(B, LeafCount(B, s), l)
  {
    hide LeafCount, GetCeil, LevelBase, LevelSize;
    var levels := Floors(B, s, left, h);
    FloorSizes(B, LeafCount(B, s), l);
    if l > 0 {
      FloorCount(B, s, left, h, l - 1);
      assert levels[..l] == levels[..l - 1] + [levels[l - 1]];
      NodeCountConcat(levels[..l - 1], [levels[l - 1]]);
      assert [levels[l - 1]][1..] == [];
    }
  }

  /** More than one leaf, unless that one is full. */
  lemma TwoLeaves(B: nat, s: seq<int>)
    requires B >= 4 && |s| >= B - 1 && |s| % (B - 1) != 0
    ensures LeafCount(B, s) >= 2
  {
  }

  /** Without full last leaf and stale tails the file is a tree at rest whose records are
      the values with their indices. */
  lemma LoadedTree(B: nat, s: seq<int>, f: File, left: seq<nat>, root: nat, h: nat)
    requires B >= 4 && Loaded(B, s, f, left, root) && Storeyed(B, f, LeafCount(B, s), h) && DistinctInts(s)
    requires |s| >= B - 1 && Continues(B, s)
    ensures Tree(B, f, Floors(B, s, left, h), FloorRanks(B, LeafCount(B, s), h, |f|), root)
    ensures |Floors(B, s, left, h)[0]| == LeafCount(B, s) > 0
    ensures Contents(f, Floors(B, s, left, h)[0]) == Indexed(s, 0)
  {
    hide LeafCount, GetCeil, EvenLevels, HasParent, Guided, Storeyed, DistinctInts, LevelOk, Chain, Settled, FloorOf, Stored,
         Indexed, RowEntry, LevelSize, LevelBase, Rises;
    var n, levels, rank := LeafCount(B, s), Floors(B, s, left, h), FloorRanks(B, LeafCount(B, s), h, |f|);
    TwoLeaves(B, s);
    forall l | 0 <= l < |levels|
      ensures LevelOk(B, f, levels[l], rank, l) && Settled(f, levels, root, l) && InFile(f, levels[l])
    {
      FloorOk(B, s, f, left, root, h, l);
      FloorSettles(B, s, f, left, root, h, l);
      LevelInFile(B, f, levels[l], rank, l);
    }
    FloorOk(B, s, f, left, root, h, 0);
    FirstFloor(B, s, left, h);
    PlanAt(B, f, n, h, h);
    FloorCount(B, s, left, h, h + 2);
    assert levels[..h + 2] == levels;
    FloorRanksAre(B, n, h, |f|, 0);
    LoadedHolds(B, s, f, left, root);
    assert Positions(levels[0]) == WalkedChain(B, s);
  }

  lemma LevelInFile(B: nat, f: File, lev: Level, rank: seq<nat>, l: nat)
    requires LevelOk(B, f, lev, rank, l)
    ensures InFile(f, lev)
  {
  }

  lemma FirstFloor(B: nat, s: seq<int>, left: seq<nat>, h: nat)
    requires B >= 4
    ensures LevelBase(B, LeafCount(B, s), 0) == 0 && LevelSize(B, LeafCount(B, s), 0) == LeafCount(B, s)
    ensures |Floors(B, s, left, h)[0]| == LeafCount(B, s)
    ensures forall i :: 0 <= i < LeafCount(B, s) ==> Floors(B, s, left, h)[0][i].pos == i
  {
  }

  // ----- only then -----

  lemma NodeInPlace(B: nat, f: File, levels: seq<Level>, rank: seq<nat>, root: nat, l: nat, i: nat)
    requires Tree(B, f, levels, rank, root) && l < |levels| && i < |levels[l]|
    ensures InFile(f, levels[l]) && NodeOk(B, f[levels[l][i].pos], levels[l][i], l)
    ensures l > 0 ==> Parents(f, f[levels[l][i].pos], rank, l)
    ensures f[levels[l][i].pos].isLeaf <==> l == 0
  {
  }

  /** A full last leaf is linked to an interior node, which no leaf chain allows. */
  lemma FullLeafBreaks(B: nat, s: seq<int>, f: File, left: seq<nat>, root: nat, levels: seq<Level>, rank: seq<nat>)
    requires B >= 4 && |s| >= B - 1 && Loaded(B, s, f, left, root) && Tree(B, f, levels, rank, root)
    ensures |s| % (B - 1) != 0
  {
    hide LeafCount, LeafOf, LevelOk, Flat, HasParent, NodeOk, LeavesOk, FirstKey, StartOf;
    var n := LeafCount(B, s);
    if |s| % (B - 1) == 0 {
      OneLeaf(B, s);
      LeafNext(B, s, f, n - 1);
      var l, i := NodePlaced(B, f, levels, rank, root, n - 1);
      NodeInPlace(B, f, levels, rank, root, l, i);
      assert Separates(B, s, left, f[n], n);
      assert f[n - 1].next == Successor(levels[0], i);
      NodeInPlace(B, f, levels, rank, root, 0, i + 1);
      assert false;
    }
  }

  /** The last pointer of a partial node leads to a child of the node before it. */
  lemma StaleTailBreaks(B: nat, s: seq<int>, f: File, left: seq<nat>, root: nat, h: nat, k: nat,
                        levels: seq<Level>, rank: seq<nat>)
    requires B >= 4 && Loaded(B, s, f, left, root) && Storeyed(B, f, LeafCount(B, s), h) && k < h
    requires Tree(B, f, levels, rank, root)
    ensures LevelSize(B, LeafCount(B, s), k) % B == 0
  {
    hide LeafCount, GetCeil, HasParent, Guided, LevelBase, LevelSize, Tree, Storeyed, Loaded;
    var n := LeafCount(B, s);
    var b, m := LevelBase(B, n, k), LevelSize(B, n, k);
    if m % B != 0 {
      var q, p := StaleTail(B, s, f, left, root, h, k);
      var l, i := NodePlaced(B, f, levels, rank, root, q);
      ChildNamed(B, f, levels, rank, root, l, i, B - 1);
    }
  }

  lemma ChildNamed(B: nat, f: File, levels: seq<Level>, rank: seq<nat>, root: nat, l: nat, i: nat, c: nat)
    requires Tree(B, f, levels, rank, root) && l < |levels| && i < |levels[l]| && levels[l][i].pos < |f|
    requires !f[levels[l][i].pos].isLeaf && c < |f[levels[l][i].pos].pointers|
    ensures f[levels[l][i].pos].pointers[c] < |f|
    ensures f[f[levels[l][i].pos].pointers[c]].parent == f[levels[l][i].pos].pos
  {
    hide LevelOk, Flat;
    NodeInPlace(B, f, levels, rank, root, l, i);
  }

  lemma StaleTail(B: nat, s: seq<int>, f: File, left: seq<nat>, root: nat, h: nat, k: nat) returns (q: nat, p: nat)
    requires B >= 4 && Loaded(B, s, f, left, root) && Storeyed(B, f, LeafCount(B, s), h) && k < h
    requires LevelSize(B, LeafCount(B, s), k) % B != 0
    ensures q < |f| && !f[q].isLeaf && f[q].pos == q && |f[q].pointers| == B && f[q].pointers[B - 1] == p < |f|
    ensures f[p].parent != q
  {
    hide LeafCount, GetCeil, HasParent, LevelBase, LevelSize, FirstKey, LeavesOk, Storey;
    var n := LeafCount(B, s);
    var b, m := LevelBase(B, n, k), LevelSize(B, n, k);
    q, p := PartialNode(B, f, b, m);
    LevelUp(B, n, k);
    assert Separates(B, s, left, f[q], q);
  }

  lemma PartialNode(B: nat, f: File, b: nat, m: nat) returns (q: nat, p: nat)
    requires B >= 4 && Storey(B, f, b, m) && m > B && m % B != 0
    ensures b + m <= q < |f| && |f[q].pointers| == B && f[q].pointers[B - 1] == p < |f|
    ensures f[p].parent != q
  {
    hide GetCeil;
    LevelsShrink(B, m);
    var j := GetCeil(m, B) - 1;
    var start := j * B;
    q := b + m + j;
    CeilStarts(B, m, j);
    CeilStarts(B, m, j + 1);
    assert (j + 1) * B == start + B;
    if start + B == m {
      ModOf(B, m, j + 1);
    }
    assert StoreyNode(B, f[q], b, m, j * B);
    p := b + start - 1;
    assert start - 1 == (j - 1) * B + (B - 1);
    DivOf(B, j - 1, B - 1);
  }

  lemma ModOf(B: nat, m: nat, j: nat)
    requires B > 0 && m == j * B
    ensures m % B == 0
  {
    var q, r := m / B, m % B;
    assert (j - q) * B == r;
    SmallMultiple(j - q, B, r);
  }

  /** Over distinct ints a loaded file is a tree if and only if its last leaf is not full and
      every level of more than B nodes has a multiple of B nodes. */
  lemma LoadedTreeIff(B: nat, s: seq<int>, f: File, left: seq<nat>, root: nat, h: nat)
    requires B >= 4 && Loaded(B, s, f, left, root) && Storeyed(B, f, LeafCount(B, s), h) && DistinctInts(s)
    requires |s| >= B - 1
    ensures IsTree(B, f, root) <==> Continues(B, s)
  {
    hide LeafCount, Loaded, Storeyed, Tree, EvenLevels, DistinctInts;
    if Continues(B, s) {
      LoadedTree(B, s, f, left, root, h);
    }
    if IsTree(B, f, root) {
      var levels, rank :| Tree(B, f, levels, rank, root);
      FullLeafBreaks(B, s, f, left, root, levels, rank);
      forall k | 0 <= k < h
        ensures LevelSize(B, LeafCount(B, s), k) % B == 0
      {
        StaleTailBreaks(B, s, f, left, root, h, k, levels, rank);
      }
      StoreysEven(B, f, LeafCount(B, s), h);
    }
  }
}
