/** Insertions into a bulk-loaded file: the words that the loading has left behind the pointers of
    the root are rows of the leaves written before it, and descending keys move one of them onto
    the root's leaf flag. */
module LoadedRun {
  import opened Columns
  import opened NodeBuffer
  import opened Records
  import opened TreeShape
  import opened TreeSearch
  import opened BulkShape
  import opened BulkTree
  import opened Insertion
  import opened FrontRun

  /** The word behind the pointers of a root over n leaves: a row of the last leaf if that reaches
      so far, otherwise of the one before; the last slot has not been written at all. */
  function StaleRow(B: nat, s: seq<int>, disk: seq<seq<nat>>): nat
    requires B >= 4 && LeafCount(B, s) >= 2
  {
    var n := LeafCount(B, s);
    if n + 1 >= B then (if |disk| > 0 && |disk[0]| >= B then disk[0][B - 1] else 0)
    else if StartOf(B, n - 1) + n < |s| then StartOf(B, n - 1) + n
    else StartOf(B, n - 2) + n
  }

  /** A slot that no leaf has written. */
  lemma {:induction false} LastSlot(B: nat, s: seq<int>, f: File, disk: seq<seq<nat>>, i: nat)
    requires B >= 4 && i < LeafCount(B, s) <= |f| && LeavesOk(B, s, f, LeafCount(B, s)) && Carried(B, f, disk)
    requires |disk[0]| == B + 1
    ensures |disk[i]| == B + 1 && disk[i][B - 1] == disk[0][B - 1]
  {
    hide LeafCount, StartOf;
    if i > 0 {
      LastSlot(B, s, f, disk, i - 1);
      LeafPointers(B, s, f, i);
      assert StaleAs(B, f, disk, i);
    }
  }

  lemma LeafPointers(B: nat, s: seq<int>, f: File, i: nat)
    requires B >= 4 && i < LeafCount(B, s) <= |f| && LeavesOk(B, s, f, LeafCount(B, s))
    ensures StartOf(B, i) < |s| && StartOf(B, i + 1) == StartOf(B, i) + (B - 1)
    ensures var l, from, to := f[i], StartOf(B, i), Min(StartOf(B, i + 1), |s|);
            && l.isLeaf && l.pos == i && l.parent == LeafCount(B, s) + Share(i, B)
            && l.keys == s[from..to] && l.pointers == Rows(from, to) && |l.pointers| == to - from <= B - 1
            && (i + 1 < LeafCount(B, s) ==> to == from + (B - 1))
  {
    hide LeafCount, StartOf, Share;
    LeafStart(B, s, i);
    assert f[i] == LeafOf(B, s, i);
    if i + 1 < LeafCount(B, s) {
      LeafStart(B, s, i + 1);
    }
  }

  /** The root's stale word. */
  lemma RootWord(B: nat, s: seq<int>, f: File, disk: seq<seq<nat>>)
    requires B >= 4 && 2 <= LeafCount(B, s) < B && |f| == LeafCount(B, s) + 1
    requires LeavesOk(B, s, f, LeafCount(B, s)) && |f[LeafCount(B, s)].pointers| == LeafCount(B, s)
    requires FileAgrees(B, f, disk) && Carried(B, f, disk)
    ensures var n := LeafCount(B, s); |disk[n]| == B + 1 && disk[n][n] == StaleRow(B, s, disk)
  {
    hide LeafCount, StartOf, FileAgrees, LeavesOk, Carried;
    var n := LeafCount(B, s);
    StaleWords(B, f, disk, n, n);
    WordsAgree(B, f, disk, n - 1);
    WordsAgree(B, f, disk, n - 2);
    WordsAgree(B, f, disk, 0);
    LeafPointers(B, s, f, n - 1);
    LeafPointers(B, s, f, n - 2);
    if n + 1 == B {
      LastSlot(B, s, f, disk, n - 1);
    } else if !(StartOf(B, n - 1) + n < |s|) {
      StaleWords(B, f, disk, n - 1, n);
    }
  }

  /** The words of a node are its pointers, as far as they go. */
  lemma WordsAgree(B: nat, f: File, disk: seq<seq<nat>>, p: nat)
    requires FileAgrees(B, f, disk) && p < |f|
    ensures |disk| == |f| && |disk[p]| == B + 1 && |f[p].pointers| <= B
    ensures forall k :: 0 <= k < |f[p].pointers| ==> disk[p][k] == f[p].pointers[k]
  {
    assert OnFile(B, f[p], disk[p]);
    assert Read(f[p], disk[p]).pointers == f[p].pointers;
  }

  lemma StaleWords(B: nat, f: File, disk: seq<seq<nat>>, p: nat, k: nat)
    requires Carried(B, f, disk) && 0 < p < |f| && |f[p].pointers| <= k < B
    ensures |disk| == |f| && |disk[p]| == |disk[p - 1]| == B + 1 && disk[p][k] == disk[p - 1][k]
  {
    assert StaleAs(B, f, disk, p);
  }

  /** Keys below all loaded ones belong to the front of leaf 0, the first child of the root. */
  lemma LoadedFront(B: nat, s: seq<int>, st: Store, left: seq<nat>, floor: int)
    requires B >= 4 && Loaded(B, s, st.nodes, left, st.root) && DistinctInts(s) && 2 <= LeafCount(B, s) < B
    requires FileAgrees(B, st.nodes, st.disk) && Carried(B, st.nodes, st.disk) && |s| > 0 && floor < s[0]
    ensures Front(B, st, 0, LeafCount(B, s), B - 1, LeafCount(B, s) - 1, 0, floor, s[0], StaleRow(B, s, st.disk))
  {
    hide LeafCount, StartOf, LandsIn, FileAgrees, HasParent, StaleRow, Share;
    var n, f := LeafCount(B, s), st.nodes;
    LeafPointers(B, s, f, 0);
    StartSteps(B, 0);
    LoadedRoot(B, s, f, left, st.root);
    RootWord(B, s, f, st.disk);
    FirstShare(B);
    assert |st.disk| == |f|;
    RootLands(st, n, floor, s[0]);
  }

  lemma FirstShare(B: nat)
    requires B > 0
    ensures Share(0, B) == 0
  {
  }

  /** The root over all leaves. */
  lemma LoadedRoot(B: nat, s: seq<int>, f: File, left: seq<nat>, root: nat)
    requires B >= 4 && Loaded(B, s, f, left, root) && DistinctInts(s) && 2 <= LeafCount(B, s) < B
    ensures var n := LeafCount(B, s);
            && root == n && |f| == n + 1 && LeavesOk(B, s, f, n)
            && !f[n].isLeaf && f[n].pos == n && |f[n].keys| == n - 1 && f[n].pointers == Rows(0, n) && Ascending(f[n].keys)
            && B - 1 < |s| && f[n].keys[0] == s[B - 1]
  {
    hide LeafCount, StartOf, HasParent, LeavesOk;
    var n := LeafCount(B, s);
    assert Separates(B, s, left, f[n], n);
    StartSteps(B, 0);
    forall i | 0 <= i < n - 1
      ensures StartOf(B, i + 1) < |s| && f[n].keys[i] == s[StartOf(B, i + 1)]
    {
      LeafStart(B, s, i + 1);
      assert f[n].keys[i + 1 - 1] == FirstKey(B, s, left, f[n].pointers[i + 1]);
    }
    forall i, j | 0 <= i < j < n - 1
      ensures f[n].keys[i] < f[n].keys[j]
    {
      StartGrows(B, i + 1, j + 1);
    }
    LeafStart(B, s, 1);
    assert f[n].keys[0] == s[StartOf(B, 0 + 1)];
  }

  lemma RootLands(st: Store, n: nat, floor: int, key: int)
    requires st.root == n && 0 < n < |st.nodes| && st.nodes[0].isLeaf && !st.nodes[n].isLeaf
    requires st.nodes[n].pointers != [] && st.nodes[n].pointers[0] == 0 && st.nodes[n].keys != [] && key <= st.nodes[n].keys[0]
    ensures LandsIn(st, 0, floor, key)
  {
    forall x | floor < x < key
      ensures Descend(st.nodes, st.root, x, |st.nodes|) == 0
    {
      assert Descend(st.nodes, 0, x, |st.nodes| - 1) == 0;
    }
  }

  /** Descending keys below all those of a file loaded into n leaves, 2 to B - 1 of them: no
      insertion before number 1 + (B - B/2) * (B - 1 - n) overwrites a flag, and that one does if
      and only if the stale row is no multiple of 256. */
  lemma LoadedOverwrites(B: nat, s: seq<int>, st: Store, left: seq<nat>, rs: seq<Record>)
    requires B >= 4 && Loaded(B, s, st.nodes, left, st.root) && DistinctInts(s) && 2 <= LeafCount(B, s) < B
    requires FileAgrees(B, st.nodes, st.disk) && Carried(B, st.nodes, st.disk) && |s| > 0
    requires |rs| == FrontFull(B, B - 1, LeafCount(B, s) - 1) > 0 && DescendInto(rs, rs[|rs| - 1].key - 1, s[0])
    ensures Harmless(B, st, rs[..|rs| - 1])
    ensures Harmless(B, st, rs) <==> StaleRow(B, s, st.disk) % 256 == 0
    ensures |rs| == 1 + (B - B / 2) * (B - 1 - LeafCount(B, s))
  {
    hide LeafCount, Loaded, FileAgrees, Carried, Harmless, Front, StaleRow, DescendInto, DistinctInts, FrontFull;
    var n, floor := LeafCount(B, s), rs[|rs| - 1].key - 1;
    FrontFullIs(B, B - 1, n - 1);
    LastBelow(rs, s[0]);
    LoadedFront(B, s, st, left, floor);
    FrontFatal(B, st, 0, n, B - 1, n - 1, 0, floor, s[0], StaleRow(B, s, st.disk), rs);
  }

  lemma LastBelow(rs: seq<Record>, key: int)
    requires rs != [] && DescendInto(rs, rs[|rs| - 1].key - 1, key)
    ensures rs[|rs| - 1].key < key
  {
  }
}
