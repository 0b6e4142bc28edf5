/** Filling up an interior node from its front: keys that arrive in descending order in the interval
    of its first child.  The word that lay behind the node's pointers then moves up with them, and
    in the end onto the leaf flag. */
module FrontRun {
  import opened NodeBuffer
  import opened Records
  import opened TreeShape
  import opened TreeSteps
  import opened TreeSearch
  import opened Insertion

  /** Every key between the bounds belongs to the leaf. */
  ghost predicate LandsIn(st: Store, leaf: nat, floor: int, key: int) {
    forall x :: floor < x < key ==> Descend(st.nodes, st.root, x, |st.nodes|) == leaf
  }

  /** The leaf is the first child of the node; they have a and b keys.  A new key between floor and
      `key` has its place behind the first e keys of the leaf.  Behind the pointers of the node lies
      the word w. */
  ghost predicate Front(B: nat, st: Store, leaf: nat, node: nat, a: nat, b: nat, e: nat, floor: int, key: int, w: nat) {
    && B >= 4 && |st.nodes| == |st.disk| && leaf < |st.nodes| && 0 < node < |st.nodes| && leaf != node
    && var l, n := st.nodes[leaf], st.nodes[node];
    && l.isLeaf && l.pos == leaf && l.parent == node && |l.keys| == |l.pointers| == a < B && Ascending(l.keys)
    && e < a && e < B / 2 && floor < key && l.keys[e] == key && (e > 0 ==> l.keys[e - 1] <= floor)
    && !n.isLeaf && n.pos == node && 0 < b < B && |n.keys| == b && |n.pointers| == b + 1 && n.pointers[0] == leaf
    && Ascending(n.keys) && l.keys[a - 1] < n.keys[0]
    && |st.disk[node]| == B + 1 && st.disk[node][b + 1] == w
    && LandsIn(st, leaf, floor, key)
  }

  // ----- the descent -----

  /** A descent ends at the same leaf if only that leaf and its parent have changed. */
  lemma {:induction false} DescentSame(f: File, g: File, p: nat, x: int, h: nat, leaf: nat, node: nat)
    requires leaf < |f| <= |g| && node < |f| && leaf != node && f[leaf].isLeaf && g[leaf].isLeaf
    requires forall q :: 0 <= q < |f| && q != leaf && q != node ==> g[q] == f[q]
    requires !f[node].isLeaf && CountBelow(f[node].keys, x) == 0 && f[node].pointers != [] && f[node].pointers[0] == leaf
    requires !g[node].isLeaf && CountBelow(g[node].keys, x) == 0 && g[node].pointers != [] && g[node].pointers[0] == leaf
    requires Descend(f, p, x, h) == leaf
    ensures Descend(g, p, x, h) == leaf
    decreases h
  {
    if p != leaf && p != node && p < |f| && h > 0 {
      var c := CountBelow(f[p].keys, x);
      if !f[p].isLeaf && c < |f[p].pointers| {
        DescentSame(f, g, f[p].pointers[c], x, h - 1, leaf, node);
      }
    } else if p == node && h > 0 {
      assert Descend(g, leaf, x, h - 1) == leaf;
    }
  }

  lemma {:induction false} DescentDeeper(f: File, p: nat, x: int, h: nat, leaf: nat)
    requires leaf < |f| && f[leaf].isLeaf && Descend(f, p, x, h) == leaf
    ensures Descend(f, p, x, h + 1) == leaf
    decreases h
  {
    if p < |f| && h > 0 {
      var c := CountBelow(f[p].keys, x);
      if !f[p].isLeaf && c < |f[p].pointers| {
        DescentDeeper(f, f[p].pointers[c], x, h - 1, leaf);
      }
    }
  }

  /** The keys still to come keep landing in the leaf. */
  lemma StillLands(st: Store, st': Store, leaf: nat, node: nat, floor: int, key: int, key': int)
    requires LandsIn(st, leaf, floor, key) && key' <= key && st'.root == st.root
    requires leaf < |st.nodes| && node < |st.nodes| && leaf != node && |st.nodes| <= |st'.nodes| <= |st.nodes| + 1
    requires st.nodes[leaf].isLeaf && st'.nodes[leaf].isLeaf
    requires forall q :: 0 <= q < |st.nodes| && q != leaf && q != node ==> st'.nodes[q] == st.nodes[q]
    requires !st.nodes[node].isLeaf && st.nodes[node].pointers != [] && st.nodes[node].pointers[0] == leaf
    requires !st'.nodes[node].isLeaf && st'.nodes[node].pointers != [] && st'.nodes[node].pointers[0] == leaf
    requires st.nodes[node].keys != [] && key' <= st.nodes[node].keys[0]
    requires st'.nodes[node].keys != [] && key' <= st'.nodes[node].keys[0]
    ensures LandsIn(st', leaf, floor, key')
  {
    hide Descend;
    forall x | floor < x < key'
      ensures Descend(st'.nodes, st.root, x, |st'.nodes|) == leaf
    {
      DescentSame(st.nodes, st'.nodes, st.root, x, |st.nodes|, leaf, node);
      DescentDeeper(st'.nodes, st.root, x, |st.nodes|, leaf);
    }
  }

  // ----- one insertion -----

  /** The new entry of the leaf. */
  lemma LeafEntry(B: nat, st: Store, leaf: nat, e: nat, r: Record)
    requires Takes(B, st, leaf) && st.nodes[leaf].isLeaf && Ascending(st.nodes[leaf].keys)
    requires e < |st.nodes[leaf].keys| && r.key < st.nodes[leaf].keys[e] && (e > 0 ==> st.nodes[leaf].keys[e - 1] < r.key)
    ensures UpperPlace(st.nodes[leaf].keys, r.key) == e
    ensures var l := st.nodes[leaf];
            && Enlarged(B, st, leaf, r.key, r.row)
               == l.(keys := l.keys[..e] + [r.key] + l.keys[e..], pointers := l.pointers[..e] + [r.row] + l.pointers[e..])
            && InsertAt(l.keys, e, r.key) == l.keys[..e] + [r.key] + l.keys[e..]
  {
    OneUpper(st.nodes[leaf].keys, r.key, e);
  }

  lemma InsertedAscends(keys: seq<int>, e: nat, x: int)
    requires Ascending(keys) && e < |keys| && x < keys[e] && (e > 0 ==> keys[e - 1] < x)
    ensures Ascending(keys[..e] + [x] + keys[e..])
  {
  }

  /** The leaf has room. */
  lemma FrontTakes(B: nat, st: Store, leaf: nat, node: nat, a: nat, b: nat, e: nat, floor: int, key: int, w: nat, r: Record)
    requires Front(B, st, leaf, node, a, b, e, floor, key, w) && floor < r.key < key && a + 1 < B
    ensures var st' := Inserted(B, st, r);
            && Front(B, st', leaf, node, a + 1, b, e, floor, r.key, w) && |st'.nodes| == |st.nodes| && st'.root == st.root
            && forall q :: 0 <= q < |st.nodes| && q != leaf ==> st'.nodes[q] == st.nodes[q] && st'.disk[q] == st.disk[q]
    ensures !Overwrites(B, st, r.key)
  {
    hide Descend, Enlarged, UpperPlace, LandsIn;
    Landed(st, leaf, floor, key, r.key);
    LeafEntry(B, st, leaf, e, r);
    InsertedAscends(st.nodes[leaf].keys, e, r.key);
    var st' := AddedTo(B, st, leaf, r.key, r.row);
    assert Inserted(B, st, r) == EntryInserted(B, st, leaf, r.key, r.row, |st.nodes|) == st';
    StillLands(st, st', leaf, node, floor, key, r.key);
  }

  lemma Landed(st: Store, leaf: nat, floor: int, key: int, x: int)
    requires LandsIn(st, leaf, floor, key) && floor < x < key
    ensures Descend(st.nodes, st.root, x, |st.nodes|) == leaf
  {
  }

  /** The file after the leaf has split. */
  ghost function Halfway(B: nat, st: Store, leaf: nat, r: Record): Store {
    if Takes(B, st, leaf) && |st.nodes[leaf].keys| == B - 1 then Parted(B, st, Enlarged(B, st, leaf, r.key, r.row)) else st
  }

  /** Both halves of the leaf. */
  lemma LeafHalved(B: nat, st: Store, leaf: nat, e: nat, r: Record)
    requires Takes(B, st, leaf) && st.nodes[leaf].isLeaf && Ascending(st.nodes[leaf].keys) && |st.nodes[leaf].keys| == B - 1
    requires e < B / 2 && r.key < st.nodes[leaf].keys[e] && (e > 0 ==> st.nodes[leaf].keys[e - 1] < r.key)
    ensures var l, mid, next := st.nodes[leaf], Halfway(B, st, leaf, r), |st.nodes|;
            var left, right := l.keys[..e] + [r.key] + l.keys[e..B / 2 - 1], l.keys[B / 2 - 1..];
            && |mid.nodes| == |mid.disk| == next + 1 && mid.root == st.root
            && (forall q :: 0 <= q < next && q != leaf ==> mid.nodes[q] == st.nodes[q] && mid.disk[q] == st.disk[q])
            && mid.nodes[leaf].isLeaf && mid.nodes[leaf].pos == leaf && mid.nodes[leaf].parent == l.parent
            && mid.nodes[leaf].keys == left && |mid.nodes[leaf].pointers| == B / 2
            && mid.nodes[next].isLeaf && mid.nodes[next].pos == next && mid.nodes[next].parent == l.parent
            && mid.nodes[next].keys == right && |mid.nodes[next].pointers| == B - B / 2
  {
    hide Enlarged, UpperPlace;
    LeafEntry(B, st, leaf, e, r);
    var l := st.nodes[leaf];
    var t := l.keys[..e] + [r.key] + l.keys[e..];
    assert t[..B / 2] == l.keys[..e] + [r.key] + l.keys[e..B / 2 - 1];
    assert t[B / 2..] == l.keys[B / 2 - 1..];
  }

  /** The leaf is full: its upper half is handed to the node. */
  lemma LeafSplits(B: nat, st: Store, leaf: nat, node: nat, b: nat, e: nat, floor: int, key: int, w: nat, r: Record)
    requires B >= 4 && Front(B, st, leaf, node, B - 1, b, e, floor, key, w) && floor < r.key < key
    ensures var mid, sep := Halfway(B, st, leaf, r), st.nodes[leaf].keys[B / 2 - 1];
            && Inserted(B, st, r) == EntryInserted(B, mid, node, sep, |st.nodes|, |st.nodes| - 1)
            && EndingOf(B, st, r.key) == Ending(B, st.nodes, st.disk, node, sep, |st.nodes| - 1)
            && key <= sep < st.nodes[node].keys[0]
  {
    hide Parted, Enlarged, Descend, UpperPlace, LandsIn;
    Landed(st, leaf, floor, key, r.key);
    LeafEntry(B, st, leaf, e, r);
    var t := Enlarged(B, st, leaf, r.key, r.row);
    assert t.keys[B / 2] == st.nodes[leaf].keys[B / 2 - 1];
  }

  /** An entry of the node before all others. */
  lemma NodeEntry(B: nat, st: Store, p: nat, key: int, pointer: nat)
    requires Takes(B, st, p) && !st.nodes[p].isLeaf && st.nodes[p].keys != [] && key < st.nodes[p].keys[0]
    ensures UpperPlace(st.nodes[p].keys, key) == 0
    ensures var n := st.nodes[p];
            Enlarged(B, st, p, key, pointer) == n.(keys := [key] + n.keys, pointers := [n.pointers[0], pointer] + n.pointers[1..])
  {
  }

  /** The words of a node after a child has been put behind its first one. */
  lemma FrontWords(words: seq<nat>, b: nat, child: nat)
    requires 0 < b && b + 2 < |words|
    ensures var w := PutChild(words, b, 0, child);
            && |w| == |words| && w[0] == words[0] && w[1] == child
            && (forall k :: 1 < k <= b + 2 ==> w[k] == words[k - 1])
            && (forall k :: b + 2 < k < |words| ==> w[k] == words[k])
  {
  }

  /** The node has room for it: what the insertion leaves. */
  lemma NodeGrown(B: nat, st: Store, leaf: nat, node: nat, b: nat, e: nat, floor: int, key: int, w: nat, r: Record)
    requires B >= 4 && Front(B, st, leaf, node, B - 1, b, e, floor, key, w) && floor < r.key < key && b + 1 < B
    ensures var st', mid, n := Inserted(B, st, r), Halfway(B, st, leaf, r), st.nodes[node];
            && |mid.nodes| == |mid.disk| == |st'.nodes| == |st'.disk| == |st.nodes| + 1 && st'.root == st.root
            && (forall q :: 0 <= q <= |st.nodes| && q != node ==> st'.nodes[q] == mid.nodes[q] && st'.disk[q] == mid.disk[q])
            && st'.nodes[node] == n.(keys := [st.nodes[leaf].keys[B / 2 - 1]] + n.keys,
                                     pointers := [n.pointers[0], |st.nodes|] + n.pointers[1..])
            && st'.disk[node] == PutChild(st.disk[node], b, 0, |st.nodes|)
  {
    hide Halfway, Inserted, EndingOf, PutChild, Enlarged, LandsIn;
    LeafHalved(B, st, leaf, e, r);
    LeafSplits(B, st, leaf, node, b, e, floor, key, w, r);
    var mid, sep, next := Halfway(B, st, leaf, r), st.nodes[leaf].keys[B / 2 - 1], |st.nodes|;
    NodeEntry(B, mid, node, sep, next);
    assert EntryInserted(B, mid, node, sep, next, next - 1) == AddedTo(B, mid, node, sep, next);
  }

  /** When the addition to the node overwrites its flag. */
  lemma NodeOverwrites(B: nat, st: Store, leaf: nat, node: nat, b: nat, e: nat, floor: int, key: int, w: nat, r: Record)
    requires B >= 4 && Front(B, st, leaf, node, B - 1, b, e, floor, key, w) && floor < r.key < key && b + 1 < B
    ensures Overwrites(B, st, r.key) <==> b + 2 == B && w % 256 != 0
  {
    hide Halfway, Inserted, EndingOf, LandsIn;
    LeafSplits(B, st, leaf, node, b, e, floor, key, w, r);
    assert Ending(B, st.nodes, st.disk, node, st.nodes[leaf].keys[B / 2 - 1], |st.nodes| - 1)
        == InPlace(st.nodes[node], st.disk[node], 0);
  }

  lemma FrontSplits(B: nat, st: Store, leaf: nat, node: nat, b: nat, e: nat, floor: int, key: int, w: nat, r: Record)
    requires B >= 4 && Front(B, st, leaf, node, B - 1, b, e, floor, key, w) && floor < r.key < key && b + 1 < B
    ensures Front(B, Inserted(B, st, r), leaf, node, B / 2, b + 1, e, floor, r.key, w)
  {
    hide Halfway, Inserted, PutChild, LandsIn, Ascending;
    LeafHalved(B, st, leaf, e, r);
    NodeGrown(B, st, leaf, node, b, e, floor, key, w, r);
    FrontWords(st.disk[node], b, |st.nodes|);
    LeafSplits(B, st, leaf, node, b, e, floor, key, w, r);
    LeftKeys(st.nodes[leaf].keys, e, r.key, B / 2);
    OneMoreAscends(st.nodes[node].keys, st.nodes[leaf].keys[B / 2 - 1]);
    StillLands(st, Inserted(B, st, r), leaf, node, floor, key, r.key);
  }

  lemma LeftKeys(keys: seq<int>, e: nat, x: int, S: nat)
    requires Ascending(keys) && e < S <= |keys| && x < keys[e] && (e > 0 ==> keys[e - 1] < x)
    ensures var left := keys[..e] + [x] + keys[e..S - 1];
            && |left| == S && Ascending(left) && left[e] == x && left[S - 1] < keys[S - 1]
            && (e > 0 ==> left[e - 1] == keys[e - 1])
  {
    InsertedAscends(keys, e, x);
    assert keys[..e] + [x] + keys[e..S - 1] == (keys[..e] + [x] + keys[e..])[..S];
  }

  lemma OneMoreAscends(keys: seq<int>, x: int)
    requires Ascending(keys) && keys != [] && x < keys[0]
    ensures Ascending([x] + keys)
  {
  }

  // ----- the run -----

  /** Descending keys between the bounds. */
  ghost predicate DescendInto(rs: seq<Record>, floor: int, key: int) {
    && (forall i :: 0 <= i < |rs| ==> floor < rs[i].key < key)
    && (forall i, j :: 0 <= i < j < |rs| ==> rs[i].key > rs[j].key)
  }

  /** The least key after i insertions. */
  function LeastAfter(rs: seq<Record>, i: nat, key: int): int
    requires i <= |rs|
  {
    if i == 0 then key else rs[i - 1].key
  }

  /** The keys of the leaf after it has split j times and taken x records since. */
  function LeafKeys(B: nat, a: nat, j: nat, x: nat): nat {
    if j == 0 then a + x else B / 2 + x
  }

  function Times(d: nat, n: nat): nat {
    if n == 0 then 0 else Times(d, n - 1) + d
  }

  lemma {:induction false} TimesIs(d: nat, n: nat)
    ensures Times(d, n) == d * n
  {
    if n > 0 {
      TimesIs(d, n - 1);
      assert d * n == d * (n - 1) + d;
    }
  }

  /** How many insertions that takes. */
  function FillCount(B: nat, a: nat, j: nat, x: nat): nat
    requires a <= B
  {
    if j == 0 then x else (B - a) + Times(B - B / 2, j - 1) + x
  }

  lemma FillCounts(B: nat, a: nat, j: nat, x: nat)
    requires B >= 4 && a < B
    ensures FillCount(B, a, j, x + 1) == FillCount(B, a, j, x) + 1 && FillCount(B, a, 0, 0) == 0
    ensures j > 0 ==> FillCount(B, a, j, 0) > 0
    ensures FillCount(B, a, 1, 0) == FillCount(B, a, 0, B - 1 - a) + 1
    ensures j > 0 ==> FillCount(B, a, j + 1, 0) == FillCount(B, a, j, B - 1 - B / 2) + 1
  {
  }

  lemma {:induction false} FrontFills(B: nat, st: Store, leaf: nat, node: nat, a: nat, b: nat, e: nat, floor: int, key: int, w: nat,
                                      rs: seq<Record>, j: nat, x: nat)
    requires B >= 4 && a < B && Front(B, st, leaf, node, a, b, e, floor, key, w) && DescendInto(rs, floor, key)
    requires b + j + 2 <= B && LeafKeys(B, a, j, x) < B && FillCount(B, a, j, x) <= |rs|
    ensures var i := FillCount(B, a, j, x);
            && Front(B, Run(B, st, rs[..i]), leaf, node, LeafKeys(B, a, j, x), b + j, e, floor, LeastAfter(rs, i, key), w)
            && Harmless(B, st, rs[..i])
    decreases FillCount(B, a, j, x)
  {
    hide Front, Overwrites, Inserted, Run, Harmless, FillCount;
    var i := FillCount(B, a, j, x);
    FillCounts(B, a, 0, 0);
    if j == 0 && x == 0 {
      RunNothing(B, st, rs);
    } else {
      if x > 0 {
        FillCounts(B, a, j, x - 1);
        FrontFills(B, st, leaf, node, a, b, e, floor, key, w, rs, j, x - 1);
        RunOn(B, st, rs, i - 1);
        FrontTakes(B, Run(B, st, rs[..i - 1]), leaf, node, LeafKeys(B, a, j, x - 1), b + j, e, floor,
                   LeastAfter(rs, i - 1, key), w, rs[i - 1]);
      } else {
        FillCounts(B, a, j - 1, 0);
        FillCounts(B, a, j, 0);
        var y := if j == 1 then B - 1 - a else B - 1 - B / 2;
        FrontFills(B, st, leaf, node, a, b, e, floor, key, w, rs, j - 1, y);
        RunOn(B, st, rs, i - 1);
        var now := Run(B, st, rs[..i - 1]);
        FrontSplits(B, now, leaf, node, b + j - 1, e, floor, LeastAfter(rs, i - 1, key), w, rs[i - 1]);
        NodeOverwrites(B, now, leaf, node, b + j - 1, e, floor, LeastAfter(rs, i - 1, key), w, rs[i - 1]);
      }
    }
  }

  lemma RunNothing(B: nat, st: Store, rs: seq<Record>)
    ensures Run(B, st, rs[..0]) == st && Harmless(B, st, rs[..0])
  {
  }

  /** How many insertions fill the node up. */
  function FrontFull(B: nat, a: nat, b: nat): nat
    requires a <= B && b + 2 <= B
  {
    (B - a) + Times(B - B / 2, B - 2 - b)
  }

  lemma FrontFullIs(B: nat, a: nat, b: nat)
    requires a <= B && b + 2 <= B
    ensures FrontFull(B, a, b) == (B - a) + (B - B / 2) * (B - 2 - b)
  {
    TimesIs(B - B / 2, B - 2 - b);
  }

  lemma FullCount(B: nat, a: nat, b: nat) returns (j: nat, y: nat)
    requires B >= 4 && a < B && b + 2 <= B
    ensures b + j + 2 == B && LeafKeys(B, a, j, y) == B - 1 && FillCount(B, a, j, y) + 1 == FrontFull(B, a, b)
  {
    j := B - 2 - b;
    y := if j == 0 then B - 1 - a else B - 1 - B / 2;
  }

  /** Descending keys into the first child of an interior node fill the node up from its front.
      Until it is full no flag is overwritten; the insertion that fills it overwrites its flag if
      and only if the word that lay behind its pointers is no multiple of 256. */
  lemma FrontFatal(B: nat, st: Store, leaf: nat, node: nat, a: nat, b: nat, e: nat, floor: int, key: int, w: nat, rs: seq<Record>)
    requires B >= 4 && a < B && b + 2 <= B && Front(B, st, leaf, node, a, b, e, floor, key, w) && DescendInto(rs, floor, key)
    requires |rs| == FrontFull(B, a, b)
    ensures |rs| > 0 && Harmless(B, st, rs[..|rs| - 1])
    ensures Harmless(B, st, rs) <==> w % 256 == 0
    ensures Front(B, Run(B, st, rs), leaf, node, B / 2, B - 1, e, floor, rs[|rs| - 1].key, w)
  {
    hide Front, Overwrites, Inserted, Run, Harmless, FillCount, LeafKeys, FrontFull;
    var n := |rs|;
    var j, y := FullCount(B, a, b);
    FrontFills(B, st, leaf, node, a, b, e, floor, key, w, rs, j, y);
    RunOn(B, st, rs, n - 1);
    assert rs[..n] == rs;
    var now := Run(B, st, rs[..n - 1]);
    FrontSplits(B, now, leaf, node, b + j, e, floor, LeastAfter(rs, n - 1, key), w, rs[n - 1]);
    NodeOverwrites(B, now, leaf, node, b + j, e, floor, LeastAfter(rs, n - 1, key), w, rs[n - 1]);
  }
}
