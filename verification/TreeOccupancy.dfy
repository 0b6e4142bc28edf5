/** Trees built by insertion are half full, hence logarithmically high. */
module TreeOccupancy {
  import opened Powers
  import opened TreeShape
  import opened TreeLemmas
  import opened TreeSteps
  import opened TreeClimb

  /** At least S = B/2 keys in a leaf, at least S children in an interior node. */
  ghost predicate Filled(B: nat, n: Node) {
    B / 2 <= if n.isLeaf then |n.keys| else |n.pointers|
  }

  ghost predicate LevelFilled(B: nat, f: File, lev: Level) {
    |lev| > 1 ==> forall i :: 0 <= i < |lev| ==> Filled(B, At(f, lev[i].pos))
  }

  /** Every node but the root is half full. */
  ghost predicate Occupied(B: nat, f: File, levels: seq<Level>) {
    forall l :: 0 <= l < |levels| ==> LevelFilled(B, f, levels[l])
  }

  lemma OccupiedAdd(B: nat, f: File, levels: seq<Level>, l: nat, i: nat, p: nat, key: int, pointer: nat)
    requires Occupied(B, f, levels) && l < |levels| && InFile(f, levels[l]) && i < |levels[l]|
    requires p <= |f[levels[l][i].pos].keys|
    requires |f[levels[l][i].pos].pointers| == |f[levels[l][i].pos].keys| + if f[levels[l][i].pos].isLeaf then 0 else 1
    requires forall k :: 0 <= k < |levels| && k != l ==>
      SameNodes(f, f[levels[l][i].pos := Added(f[levels[l][i].pos], p, key, pointer)], levels[k])
    ensures Occupied(B, f[levels[l][i].pos := Added(f[levels[l][i].pos], p, key, pointer)], levels)
  {
  }

  lemma OccupiedLeafSplit(B: nat, S: nat, f: File, levels: seq<Level>, i: nat, t: Node)
    requires B >= 4 && S == B / 2 && Occupied(B, f, levels) && |levels| > 0 && InFile(f, levels[0])
    requires i < |levels[0]| && Distinct(levels[0]) && t.isLeaf && |t.keys| == |t.pointers| == B
    requires forall k :: 0 < k < |levels| ==>
      SameNodes(f, f[levels[0][i].pos := LowerLeaf(t, S, |f|)] + [UpperLeaf(t, S, |f|)], levels[k])
    ensures Occupied(B, f[levels[0][i].pos := LowerLeaf(t, S, |f|)] + [UpperLeaf(t, S, |f|)],
                     levels[0 := Expand(levels[0], i, t.keys[S], |f|)])
  {
  }

  lemma OccupiedParentSplit(B: nat, S: nat, f: File, levels: seq<Level>, l: nat, J: nat, t: Node)
    requires B >= 4 && S == B / 2 && Occupied(B, f, levels) && l < |levels| && InFile(f, levels[l])
    requires J < |levels[l]| && Distinct(levels[l]) && t.pos == levels[l][J].pos
    requires !t.isLeaf && |t.keys| == B && |t.pointers| == B + 1
    requires forall k :: 0 <= k < |levels| && k != l ==> SameNodes(f, SplitFile(f, t, S), levels[k])
    ensures Occupied(B, SplitFile(f, t, S), levels[l := Expand(levels[l], J, t.keys[S], |f|)])
  {
  }

  lemma OccupiedNewRoot(B: nat, f: File, g: File, levels: seq<Level>, e: Entry)
    requires Occupied(B, f, levels) && forall k :: 0 <= k < |levels| ==> SameNodes(f, g, levels[k])
    ensures Occupied(B, g, levels + [[e]])
  {
  }

  // ----- the height bound -----

  lemma MulStep(s: nat, n: nat)
    requires n > 0
    ensures s * n == s + s * (n - 1)
  {
  }

  /** Every node of a level contributes at least S entries to the level below. */
  lemma {:induction false} FlatLarge(S: nat, f: File, up: Level)
    requires forall i :: 0 <= i < |up| ==> |At(f, up[i].pos).pointers| >= S
    ensures |Flat(f, up)| >= S * |up|
  {
    if up != [] {
      var rest := up[1..];
      FlatLarge(S, f, rest);
      MulStep(S, |up|);
      assert |Flat(f, up)| == |At(f, up[0].pos).pointers| + |Flat(f, rest)|;
    }
  }

  lemma {:induction false} StoredLarge(S: nat, f: File, chain: seq<nat>)
    requires forall i :: 0 <= i < |chain| ==> |At(f, chain[i]).keys| >= S
    ensures |Stored(f, chain)| >= S * |chain|
  {
    if chain != [] {
      var rest := chain[1..];
      StoredLarge(S, f, rest);
      MulStep(S, |chain|);
      assert |Stored(f, chain)| == |At(f, chain[0]).keys| + |Stored(f, rest)|;
    }
  }

  /** Level h - n of a tree of height h has at least 2 * S^(n-1) nodes. */
  lemma {:induction false} LevelLarge(B: nat, f: File, levels: seq<Level>, rank: seq<nat>, root: nat, n: nat)
    requires B >= 4 && Tree(B, f, levels, rank, root) && Occupied(B, f, levels) && 0 < n < |levels|
    ensures |levels[|levels| - 1 - n]| >= 2 * Power(B / 2, n - 1)
    decreases n
  {
    if n == 1 {
      RootChildren(B, f, levels, rank, root);
    } else {
      LevelLarge(B, f, levels, rank, root, n - 1);
      PowerPositive(B / 2, n - 2);
      BelowLarge(B, f, levels, rank, root, |levels| - n, Power(B / 2, n - 2));
    }
  }

  lemma RootChildren(B: nat, f: File, levels: seq<Level>, rank: seq<nat>, root: nat)
    requires Tree(B, f, levels, rank, root) && |levels| > 1
    ensures |levels[|levels| - 2]| >= 2
  {
    var l := |levels| - 1;
    assert LevelOk(B, f, levels[l], rank, l) && Settled(f, levels, root, l - 1) && Settled(f, levels, root, l);
    FlatOne(f, levels[l][0]);
    assert NodeOk(B, f[levels[l][0].pos], levels[l][0], l);
  }

  lemma BelowLarge(B: nat, f: File, levels: seq<Level>, rank: seq<nat>, root: nat, l: nat, x: nat)
    requires B >= 4 && Tree(B, f, levels, rank, root) && Occupied(B, f, levels) && 0 < l < |levels|
    requires x > 0 && |levels[l]| >= 2 * x
    ensures |levels[l - 1]| >= 2 * (B / 2 * x)
  {
    hide Flat;
    assert LevelOk(B, f, levels[l], rank, l) && Settled(f, levels, root, l - 1) && LevelFilled(B, f, levels[l]);
    FilledChildren(B, f, levels[l], rank, l);
    FlatLarge(B / 2, f, levels[l]);
    ScaleUp(B / 2, |levels[l]|, x);
  }

  lemma FilledChildren(B: nat, f: File, up: Level, rank: seq<nat>, l: nat)
    requires LevelOk(B, f, up, rank, l) && l > 0 && |up| > 1 && LevelFilled(B, f, up)
    ensures forall i :: 0 <= i < |up| ==> |At(f, up[i].pos).pointers| >= B / 2
  {
  }

  lemma ScaleUp(s: nat, x: nat, y: nat)
    requires x >= 2 * y
    ensures s * x >= 2 * (s * y)
  {
  }

  /** A tree of height h >= 1 kept by insertion holds at least 2 * S^h records, so
      the number of nodes a split can climb is logarithmic in the records. */
  lemma TreeLarge(B: nat, f: File, levels: seq<Level>, rank: seq<nat>, root: nat)
    requires B >= 4 && Tree(B, f, levels, rank, root) && Occupied(B, f, levels) && |levels| >= 2
    ensures |Contents(f, levels[0])| >= 2 * Power(B / 2, |levels| - 1)
  {
    var h := |levels| - 1;
    LevelLarge(B, f, levels, rank, root, h);
    PowerPositive(B / 2, h - 1);
    assert LevelOk(B, f, levels[0], rank, 0) && LevelFilled(B, f, levels[0]);
    var chain := Positions(levels[0]);
    forall i | 0 <= i < |chain|
      ensures |At(f, chain[i]).keys| >= B / 2
    {
      assert Filled(B, At(f, levels[0][i].pos)) && NodeOk(B, f[levels[0][i].pos], levels[0][i], 0);
    }
    StoredLarge(B / 2, f, chain);
    ScaleUp(B / 2, |levels[0]|, Power(B / 2, h - 1));
  }
}
