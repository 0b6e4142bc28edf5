/** What insertions do to the words behind the pointers of interior nodes. */
module WordsOnFile {
  import opened NodeBuffer
  import opened Records
  import opened TreeShape
  import opened TreeSteps
  import opened TreeMoves
  import opened TreeSearch
  import opened Insertion
  import opened DescendingRun

  /** All words behind the pointers are 0, the one with the leaf flag included. */
  ghost predicate NothingBehind(B: nat, n: Node, words: seq<nat>) {
    |words| == B + 1 && |n.pointers| <= B && forall k :: |n.pointers| <= k <= B ==> words[k] == 0
  }

  // ----- only nodes that have been split have words behind their pointers -----

  /** The nodes that an entry at p splits: full ones, up to the first with room. */
  function SplitBy(B: nat, st: Store, p: nat, key: int, pointer: nat, fuel: nat): set<nat>
    decreases fuel
  {
    if fuel == 0 || !Takes(B, st, p) || |st.nodes[p].keys| < B - 1 then {}
    else
      var t := Enlarged(B, st, p, key, pointer);
      {p} + if t.parent == 0 then {} else SplitBy(B, Parted(B, st, t), t.parent, t.keys[B / 2], |st.nodes|, fuel - 1)
  }

  ghost function SplitByRecord(B: nat, st: Store, r: Record): set<nat> {
    if st.nodes == [] then {}
    else SplitBy(B, st, Descend(st.nodes, st.root, r.key, |st.nodes|), r.key, r.row, |st.nodes|)
  }

  /** The nodes that a run of insertions has split. */
  ghost function SplitInRun(B: nat, st: Store, rs: seq<Record>): set<nat> {
    if rs == [] then {}
    else SplitInRun(B, st, rs[..|rs| - 1]) + SplitByRecord(B, Run(B, st, rs[..|rs| - 1]), rs[|rs| - 1])
  }

  /** Behind the pointers of an interior node that is not among those split there is nothing. */
  ghost predicate Clean(B: nat, st: Store, split: set<nat>) {
    |st.nodes| == |st.disk| && forall p :: 0 <= p < |st.nodes| ==> CleanNode(B, st.nodes[p], st.disk[p], p, p in split)
  }

  ghost predicate CleanNode(B: nat, n: Node, words: seq<nat>, p: nat, split: bool) {
    n.pos == p && (!n.isLeaf && !split ==> |n.pointers| == |n.keys| + 1 && NothingBehind(B, n, words))
  }

  /** An addition leaves nothing behind the pointers where there was nothing. */
  lemma ChildPutClean(B: nat, n: Node, words: seq<nat>, c: nat, key: int, child: nat)
    requires !n.isLeaf && c <= |n.keys| < B - 1 && |n.pointers| == |n.keys| + 1 && NothingBehind(B, n, words)
    ensures NothingBehind(B, Added(n, c, key, child), PutChild(words, |n.keys|, c, child))
  {
  }

  lemma AddedClean(B: nat, st: Store, split: set<nat>, p: nat, key: int, pointer: nat)
    requires Clean(B, st, split) && Takes(B, st, p) && |st.nodes[p].keys| < B - 1
    ensures Clean(B, AddedTo(B, st, p, key, pointer), split)
  {
    hide PutChild, PutRow;
    var n := st.nodes[p];
    if !n.isLeaf && p !in split {
      ChildPutClean(B, n, st.disk[p], UpperPlace(n.keys, key), key, pointer);
    }
  }

  /** New nodes have nothing behind their pointers. */
  lemma NewClean(B: nat, n: Node)
    requires |n.pointers| <= B && !n.isLeaf
    ensures NothingBehind(B, n, Copied(Blank(B, n.isLeaf), n.pointers))
  {
  }

  /** A node that has got another parent. */
  lemma SameClean(B: nat, n: Node, n': Node, words: seq<nat>, p: nat, split: bool, split': bool)
    requires Same(n, n') && CleanNode(B, n, words, p, split) && (split ==> split')
    ensures CleanNode(B, n', words, p, split')
  {
  }

  /** What a split changes, apart from parents. */
  lemma PartedShape(B: nat, st: Store, t: Node)
    requires B >= 4 && t.pos < |st.nodes| == |st.disk| && |t.keys| == B && |t.pointers| == B + if t.isLeaf then 0 else 1
    ensures var st', S, next := Parted(B, st, t), B / 2, |st.nodes|;
            && |st'.nodes| == |st'.disk| == next + 1
            && (forall q :: 0 <= q < next && q != t.pos ==> Same(st.nodes[q], st'.nodes[q]) && st'.nodes[q].next == st.nodes[q].next
                                                            && st'.disk[q] == st.disk[q])
            && st'.nodes[t.pos] == HalfLeft(t, S, next) && st'.disk[t.pos] == Copied(st.disk[t.pos], HalfLeft(t, S, next).pointers)
            && st'.nodes[next] == HalfRight(t, S, next) && st'.disk[next] == Copied(Blank(B, t.isLeaf), HalfRight(t, S, next).pointers)
  {
    hide Copied, Blank;
  }

  lemma PartedRootShape(B: nat, st: Store, t: Node)
    requires B >= 4 && t.pos < |st.nodes| == |st.disk| && |t.keys| == B && |t.pointers| == B + if t.isLeaf then 0 else 1
    ensures var st', S, next := PartedRoot(B, st, t), B / 2, |st.nodes|;
            && |st'.nodes| == |st'.disk| == next + 2
            && (forall q :: 0 <= q < next && q != t.pos ==> Same(st.nodes[q], st'.nodes[q]) && st'.nodes[q].next == st.nodes[q].next
                                                            && st'.disk[q] == st.disk[q])
            && st'.nodes[t.pos] == HalfLeft(t, S, next).(parent := next + 1)
            && st'.disk[t.pos] == Copied(st.disk[t.pos], HalfLeft(t, S, next).pointers)
            && st'.nodes[next] == HalfRight(t, S, next).(parent := next + 1)
            && st'.disk[next] == Copied(Blank(B, t.isLeaf), HalfRight(t, S, next).pointers)
            && st'.nodes[next + 1] == Node(false, [t.keys[S]], [t.pos, next], 0, 0, next + 1)
            && st'.disk[next + 1] == Copied(Blank(B, false), [t.pos, next])
  {
    hide Copied, Blank;
  }

  lemma PartedClean(B: nat, st: Store, split: set<nat>, t: Node)
    requires Clean(B, st, split) && B >= 4 && t.pos < |st.nodes|
    requires |t.keys| == B && |t.pointers| == B + if t.isLeaf then 0 else 1
    ensures Clean(B, Parted(B, st, t), split + {t.pos})
  {
    hide Copied, Blank, NothingBehind, Parted, Same;
    PartedShape(B, st, t);
    var st', next, split' := Parted(B, st, t), |st.nodes|, split + {t.pos};
    forall q | 0 <= q < |st'.nodes|
      ensures CleanNode(B, st'.nodes[q], st'.disk[q], q, q in split')
    {
      if q == next {
        if !t.isLeaf {
          NewClean(B, HalfRight(t, B / 2, next));
        }
      } else if q != t.pos {
        SameClean(B, st.nodes[q], st'.nodes[q], st.disk[q], q, q in split, q in split');
      }
    }
  }

  lemma PartedRootClean(B: nat, st: Store, split: set<nat>, t: Node)
    requires Clean(B, st, split) && B >= 4 && t.pos < |st.nodes|
    requires |t.keys| == B && |t.pointers| == B + if t.isLeaf then 0 else 1
    ensures Clean(B, PartedRoot(B, st, t), split + {t.pos})
  {
    hide Copied, Blank, NothingBehind, PartedRoot, Same;
    PartedRootShape(B, st, t);
    var st', next, split' := PartedRoot(B, st, t), |st.nodes|, split + {t.pos};
    var right := HalfRight(t, B / 2, next);
    forall q | 0 <= q < |st'.nodes|
      ensures CleanNode(B, st'.nodes[q], st'.disk[q], q, q in split')
    {
      if q == next + 1 {
        NewClean(B, st'.nodes[q]);
      } else if q == next {
        if !t.isLeaf {
          NewClean(B, st'.nodes[q]);
        }
      } else if q != t.pos {
        SameClean(B, st.nodes[q], st'.nodes[q], st.disk[q], q, q in split, q in split');
      }
    }
  }

  lemma {:induction false} EntryClean(B: nat, st: Store, split: set<nat>, p: nat, key: int, pointer: nat, fuel: nat)
    requires Clean(B, st, split)
    ensures Clean(B, EntryInserted(B, st, p, key, pointer, fuel), split + SplitBy(B, st, p, key, pointer, fuel))
    decreases fuel
  {
    hide Clean, Parted, PartedRoot, AddedTo, Enlarged;
    if fuel > 0 && Takes(B, st, p) {
      if |st.nodes[p].keys| < B - 1 {
        AddedClean(B, st, split, p, key, pointer);
        assert split + {} == split;
      } else {
        EnlargedShape(B, st, p, key, pointer);
        var t := Enlarged(B, st, p, key, pointer);
        if t.parent == 0 {
          PartedRootClean(B, st, split, t);
          assert {p} + {} == {p};
        } else {
          PartedClean(B, st, split, t);
          var mid := Parted(B, st, t);
          EntryClean(B, mid, split + {p}, t.parent, t.keys[B / 2], |st.nodes|, fuel - 1);
          assert (split + {p}) + SplitBy(B, mid, t.parent, t.keys[B / 2], |st.nodes|, fuel - 1)
              == split + SplitBy(B, st, p, key, pointer, fuel);
        }
      }
    } else {
      assert split + {} == split;
    }
  }

  lemma EnlargedShape(B: nat, st: Store, p: nat, key: int, pointer: nat)
    requires Takes(B, st, p)
    ensures var t, n := Enlarged(B, st, p, key, pointer), st.nodes[p];
            && t.pos == p && t.isLeaf == n.isLeaf && t.parent == n.parent && t.next == n.next
            && |t.keys| == |n.keys| + 1 && |t.pointers| == |n.pointers| + 1
  {
  }

  /** Over every run from the empty tree: behind the pointers of an interior node that has not itself
      been split, a new right half or a new root included, there is nothing. */
  lemma {:induction false} RunClean(B: nat, rs: seq<Record>)
    ensures Clean(B, Run(B, Empty, rs), SplitInRun(B, Empty, rs))
  {
    hide Inserted, SplitByRecord, Clean;
    if rs == [] {
      NothingClean(B);
    } else {
      var front, r := rs[..|rs| - 1], rs[|rs| - 1];
      RunClean(B, front);
      InsertedClean(B, Run(B, Empty, front), SplitInRun(B, Empty, front), r);
    }
  }

  lemma NothingClean(B: nat)
    ensures Clean(B, Empty, {})
  {
  }

  lemma InsertedClean(B: nat, st: Store, split: set<nat>, r: Record)
    requires Clean(B, st, split)
    ensures Clean(B, Inserted(B, st, r), split + SplitByRecord(B, st, r))
  {
    if st.nodes != [] {
      EntryClean(B, st, split, Descend(st.nodes, st.root, r.key, |st.nodes|), r.key, r.row, |st.nodes|);
    }
  }

  /** So an insertion overwrites the leaf flag only of an interior node that has been split. */
  lemma OnlySplitNodes(B: nat, rs: seq<Record>, key: int)
    requires Overwrites(B, Run(B, Empty, rs), key)
    ensures EndingOf(B, Run(B, Empty, rs), key).InPlace?
    ensures var p := EndingOf(B, Run(B, Empty, rs), key).node.pos;
            && p < |Run(B, Empty, rs).nodes| && !Run(B, Empty, rs).nodes[p].isLeaf && p in SplitInRun(B, Empty, rs)
  {
    hide Run, SplitInRun, Descend;
    RunClean(B, rs);
    var st := Run(B, Empty, rs);
    var p := EndingNode(B, st.nodes, st.disk, Descend(st.nodes, st.root, key, |st.nodes|), key, |st.nodes|);
    assert CleanNode(B, st.nodes[p], st.disk[p], p, p in SplitInRun(B, Empty, rs));
  }

  /** The addition in place is one to a node of the file, with its words. */
  lemma {:induction false} EndingNode(B: nat, f: File, disk: seq<seq<nat>>, p: nat, key: int, fuel: nat) returns (q: nat)
    requires Ending(B, f, disk, p, key, fuel).InPlace?
    ensures q < |f| && q < |disk|
    ensures Ending(B, f, disk, p, key, fuel).node == f[q] && Ending(B, f, disk, p, key, fuel).words == disk[q]
    decreases fuel
  {
    var n := f[p];
    if |n.keys| < B - 1 {
      q := p;
    } else {
      q := EndingNode(B, f, disk, n.parent, InsertAt(n.keys, UpperPlace(n.keys, key), key)[B / 2], fuel - 1);
    }
  }

  // ----- every word behind the pointers after an insertion -----

  /** An addition to an interior node before its end moves the word behind the pointers on. */
  ghost predicate BehindMoves(B: nat, n: Node, place: nat, words: seq<nat>, words': seq<nat>) {
    && |words| == |words'| == B + 1 && |n.keys| + 2 <= B
    && words'[|n.keys| + 2] == (if place < |n.keys| then words[|n.keys| + 1] else words[|n.keys| + 2])
    && forall k :: |n.keys| + 2 < k <= B ==> words'[k] == words[k]
  }

  /** The left half of a split has the children that were there before the split behind its own
      pointers, and is linked to a new right half, which has taken over its link. */
  ghost predicate LeftBehind(B: nat, n: Node, words: seq<nat>, words': seq<nat>) {
    && |words| == |words'| == B + 1 && |n.pointers| == B
    && (forall k :: B / 2 < k < B ==> words'[k] == n.pointers[k]) && words'[B] == words[B]
  }

  ghost predicate Linked(g: File, n: Node, n': Node, first: nat) {
    first <= n'.next < |g| && g[n'.next].next == n.next && g[n'.next].isLeaf == n.isLeaf
  }

  /** What an insertion has made of the node at p, up to its parent. */
  ghost predicate NodeAfter(B: nat, st: Store, st': Store, at: Addition, p: nat)
    requires p < |st.nodes| == |st.disk| && p < |st'.nodes| == |st'.disk|
  {
    var n, n' := st.nodes[p], st'.nodes[p];
    && n'.isLeaf == n.isLeaf && n'.pos == n.pos
    && if at.InPlace? && at.node.pos == p then
         n'.next == n.next && (!n.isLeaf ==> BehindMoves(B, n, at.place, st.disk[p], st'.disk[p]))
       else if n'.keys == n.keys then
         n'.pointers == n.pointers && n'.next == n.next && st'.disk[p] == st.disk[p]
       else
         |n.keys| == B - 1 && Linked(st'.nodes, n, n', |st.nodes|) && (!n.isLeaf ==> LeftBehind(B, n, st.disk[p], st'.disk[p]))
  }

  /** The nodes below level l are as they were; those of level l and above, and the new ones, have
      behind their pointers what NodeAfter says, and nothing. */
  ghost predicate After(B: nat, st: Store, rank: seq<nat>, l: nat, st': Store, at: Addition) {
    && |st.nodes| == |st.disk| == |rank| && |st.nodes| <= |st'.nodes| == |st'.disk|
    && (at.InPlace? ==> at.node.pos < |rank| && rank[at.node.pos] >= l)
    && (forall p :: 0 <= p < |st.nodes| && rank[p] < l ==>
          Same(st.nodes[p], st'.nodes[p]) && st'.nodes[p].next == st.nodes[p].next && st'.disk[p] == st.disk[p])
    && (forall p :: 0 <= p < |st.nodes| && rank[p] >= l ==> NodeAfter(B, st, st', at, p))
    && (forall p :: |st.nodes| <= p < |st'.nodes| && !st'.nodes[p].isLeaf ==> NothingBehind(B, st'.nodes[p], st'.disk[p]))
  }

  lemma ChildBehind(B: nat, n: Node, words: seq<nat>, c: nat, child: nat)
    requires !n.isLeaf && c <= |n.keys| < B - 1 && |words| == B + 1
    ensures BehindMoves(B, n, c, words, PutChild(words, |n.keys|, c, child))
  {
  }

  /** The entry finds room. */
  lemma AddedAfter(B: nat, st: Store, rank: seq<nat>, l: nat, p: nat, key: int, pointer: nat)
    requires Takes(B, st, p) && |st.nodes[p].keys| < B - 1 && |rank| == |st.nodes| && rank[p] == l && |st.disk[p]| == B + 1
    ensures After(B, st, rank, l, AddedTo(B, st, p, key, pointer),
                  InPlace(st.nodes[p], st.disk[p], UpperPlace(st.nodes[p].keys, key)))
  {
    hide PutRow, PutChild, BehindMoves;
    var n, c := st.nodes[p], UpperPlace(st.nodes[p].keys, key);
    if !n.isLeaf {
      ChildBehind(B, n, st.disk[p], c, pointer);
    }
  }

  lemma LeftWords(B: nat, n: Node, words: seq<nat>, front: seq<nat>)
    requires OnFile(B, n, words) && !n.isLeaf && |n.pointers| == |n.keys| + 1 == B && |front| == B / 2 + 1 <= B
    ensures LeftBehind(B, n, words, Copied(words, front))
  {
    assert Read(n, words).pointers == words[..B];
  }

  /** The split of a node, when the parent has not been told yet. */
  lemma PartedAfter(B: nat, st: Store, rank: seq<nat>, l: nat, p: nat, key: int, pointer: nat)
    requires Takes(B, st, p) && |st.nodes[p].keys| == B - 1 && |rank| == |st.nodes| && rank[p] == l
    requires OnFile(B, st.nodes[p], st.disk[p])
    ensures After(B, st, rank, l, Parted(B, st, Enlarged(B, st, p, key, pointer)), Nowhere)
    ensures After(B, st, rank, l, PartedRoot(B, st, Enlarged(B, st, p, key, pointer)), Nowhere)
  {
    hide Copied, Blank, NothingBehind, PartedRoot, Parted, LeftBehind, OnFile;
    var t, n, S, next := Enlarged(B, st, p, key, pointer), st.nodes[p], B / 2, |st.nodes|;
    EnlargedShape(B, st, p, key, pointer);
    PartedShape(B, st, t);
    PartedRootShape(B, st, t);
    if !n.isLeaf {
      LeftWords(B, n, st.disk[p], HalfLeft(t, S, next).pointers);
      NewClean(B, HalfRight(t, S, next));
      NewClean(B, HalfRight(t, S, next).(parent := next + 1));
    }
    NewClean(B, Node(false, [t.keys[S]], [t.pos, next], 0, 0, next + 1));
  }

  lemma SameBehind(B: nat, n: Node, n': Node, words: seq<nat>)
    requires n'.pointers == n.pointers && NothingBehind(B, n, words)
    ensures NothingBehind(B, n', words)
  {
  }

  /** A split, and what its parent is asked for. */
  lemma AfterMore(B: nat, st: Store, rank: seq<nat>, l: nat, mid: Store, st': Store, at: Addition)
    requires After(B, st, rank, l, mid, Nowhere) && |mid.nodes| == |st.nodes| + 1 && After(B, mid, rank + [l], l + 1, st', at)
    requires forall p :: 0 <= p < |st.nodes| && rank[p] > l ==> mid.nodes[p] == st.nodes[p] && mid.disk[p] == st.disk[p]
    ensures After(B, st, rank, l, st', at)
  {
    hide NothingBehind, BehindMoves, LeftBehind;
    var rank' := rank + [l];
    forall p | 0 <= p < |st.nodes| && rank[p] >= l
      ensures NodeAfter(B, st, st', at, p)
    {
      assert rank'[p] == rank[p];
      if rank[p] == l {
        assert NodeAfter(B, st, mid, Nowhere, p);
        assert Same(mid.nodes[p], st'.nodes[p]) && st'.disk[p] == mid.disk[p];
        assert rank'[|st.nodes|] == l;
      } else {
        assert NodeAfter(B, mid, st', at, p);
      }
    }
    forall p | |st.nodes| <= p < |st'.nodes| && !st'.nodes[p].isLeaf
      ensures NothingBehind(B, st'.nodes[p], st'.disk[p])
    {
      if p == |st.nodes| {
        assert rank'[p] == l && Same(mid.nodes[p], st'.nodes[p]);
        SameBehind(B, mid.nodes[p], st'.nodes[p], mid.disk[p]);
      }
    }
  }

  lemma FileAdopted(B: nat, f: File, disk: seq<seq<nat>>, t: Node, S: nat)
    requires FileAgrees(B, f, disk) && (t.isLeaf || S < |t.pointers|)
    ensures FileAgrees(B, Adopted(f, t, S), disk)
  {
    var g := Adopted(f, t, S);
    forall p | 0 <= p < |g|
      ensures OnFile(B, g[p], disk[p])
    {
      assert OnFile(B, f[p], disk[p]);
    }
  }

  /** Whatever node of a tree is asked: after the insertion the words behind the pointers of every
      interior node are those before it, moved on by one addition, or children from before a
      split; and behind the pointers of new nodes there is nothing. */
  lemma {:induction false} EntryAfter(B: nat, st: Store, levels: seq<Level>, rank: seq<nat>, a: Ask, fuel: nat)
    requires B >= 4 && Asked(B, st.nodes, levels, rank, st.root, a) && FileAgrees(B, st.nodes, st.disk) && fuel >= |levels| - a.l
    ensures a.l < |levels| && a.i < |levels[a.l]|
    ensures var p := levels[a.l][a.i].pos;
            After(B, st, rank, a.l, EntryInserted(B, st, p, a.key, a.pointer, fuel), Ending(B, st.nodes, st.disk, p, a.key, fuel))
    decreases fuel
  {
    hide Asked, After, Parted, PartedRoot, AddedTo, Enlarged, OnFile, HalfLeft, HalfRight, Adopted, HalfWords;
    AskedNode(B, st.nodes, levels, rank, st.root, a);
    var f, p := st.nodes, levels[a.l][a.i].pos;
    AsManyWords(B, f, st.disk);
    AgreesAt(B, f, st.disk, p);
    var n := f[p];
    if |n.keys| < B - 1 {
      AddedAfter(B, st, rank, a.l, p, a.key, a.pointer);
    } else {
      PartedAfter(B, st, rank, a.l, p, a.key, a.pointer);
      if n.parent != 0 {
        SplitAfter(B, st, levels, rank, a, fuel);
      } else {
        EnlargedShape(B, st, p, a.key, a.pointer);
      }
    }
  }

  lemma AgreesAt(B: nat, f: File, disk: seq<seq<nat>>, p: nat)
    requires FileAgrees(B, f, disk) && p < |f|
    ensures |disk| == |f| && OnFile(B, f[p], disk[p]) && |disk[p]| == B + 1
  {
  }

  lemma PartedIs(B: nat, st: Store, t: Node, h: File, left: Node, right: Node)
    requires B >= 4 && t.pos < |st.nodes| == |st.disk| && |t.keys| == B && |t.pointers| == B + if t.isLeaf then 0 else 1
    requires h == Adopted(st.nodes, t, B / 2) && left == HalfLeft(t, B / 2, |st.nodes|) && right == HalfRight(t, B / 2, |st.nodes|)
    ensures Parted(B, st, t) == Store(h[t.pos := left] + [right], HalfWords(B, st.disk, left, right), st.root)
    ensures (h + [right])[t.pos := left] == h[t.pos := left] + [right]
  {
    hide HalfWords;
    assert (h + [right])[t.pos := left] == h[t.pos := left] + [right];
  }

  lemma MidKeeps(B: nat, st: Store, rank: seq<nat>, l: nat, h: File, left: Node, right: Node)
    requires |st.nodes| == |st.disk| == |rank| == |h| && left.pos < |h| && rank[left.pos] == l && Untouched(st.nodes, rank, l, h)
    ensures forall p :: 0 <= p < |h| && rank[p] > l ==>
      (h[left.pos := left] + [right])[p] == st.nodes[p] && HalfWords(B, st.disk, left, right)[p] == st.disk[p]
  {
  }

  /** The split of a node that is not the root, as a step towards the whole. */
  lemma SplitStep(B: nat, st: Store, levels: seq<Level>, rank: seq<nat>, a: Ask, fuel: nat)
    returns (levels': seq<Level>, b: Ask, mid: Store, sep: int)
    requires B >= 4 && Asked(B, st.nodes, levels, rank, st.root, a) && FileAgrees(B, st.nodes, st.disk) && fuel >= |levels| - a.l
    requires a.l < |levels| && a.i < |levels[a.l]| && levels[a.l][a.i].pos < |st.nodes|
    requires |st.nodes[levels[a.l][a.i].pos].keys| == B - 1 && st.nodes[levels[a.l][a.i].pos].parent != 0
    ensures var p := levels[a.l][a.i].pos;
            && Takes(B, st, p) && |rank| == |st.nodes| && rank[p] == a.l
            && mid == Parted(B, st, Enlarged(B, st, p, a.key, a.pointer)) && |mid.nodes| == |mid.disk| == |st.nodes| + 1
            && |levels'| == |levels| && b.l == a.l + 1 < |levels'| && b.i < |levels'[b.l]|
            && levels'[b.l][b.i].pos == st.nodes[p].parent && b.key == sep && b.pointer == |st.nodes|
            && Asked(B, mid.nodes, levels', rank + [a.l], mid.root, b) && FileAgrees(B, mid.nodes, mid.disk)
            && EntryInserted(B, st, p, a.key, a.pointer, fuel)
               == EntryInserted(B, mid, st.nodes[p].parent, sep, |st.nodes|, fuel - 1)
            && Ending(B, st.nodes, st.disk, p, a.key, fuel) == Ending(B, mid.nodes, mid.disk, st.nodes[p].parent, sep, fuel - 1)
            && forall q :: 0 <= q < |st.nodes| && rank[q] > a.l ==> mid.nodes[q] == st.nodes[q] && mid.disk[q] == st.disk[q]
  {
    hide Asked, After, OnFile, HalfLeft, HalfRight, Adopted, HalfWords, FileAgrees, EntryInserted, Ending, Parted, Untouched;
    var f, p, S := st.nodes, levels[a.l][a.i].pos, B / 2;
    AskedNode(B, f, levels, rank, st.root, a);
    AsManyWords(B, f, st.disk);
    var n, c := f[p], UpperPlace(f[p].keys, a.key);
    UpperIs(n.keys, a.key);
    var t, h := Added(n, c, a.key, a.pointer), Adopted(f, Added(n, c, a.key, a.pointer), S);
    var left, right := HalfLeft(t, S, |f|), HalfRight(t, S, |f|);
    sep := t.keys[S];
    HalvesAre(B, f, n, a, c, left, right, sep);
    b := ParentAsked(B, f, levels, rank, st.root, a, c, n, t, h, left, right, sep);
    levels' := SplitLevels(levels, a, sep, |f|);
    FileAdopted(B, f, st.disk, t, S);
    HalvesAgree(B, f, st.disk, n, a, c, t, h, left, right, sep);
    HandsOver(B, st, n, a, c, t, h, left, right, sep, fuel);
    if !n.isLeaf {
      ChildrenInPlace(B, f, levels, rank, st.root, a, c);
    }
    ChildrenOnly(B, f, rank, a.l, t);
    EndsAbove(B, f, st.disk, a.l, rank, h, left, right, sep, fuel - 1, levels', st.root, b);
    PartedIs(B, st, t, h, left, right);
    MidKeeps(B, st, rank, a.l, h, left, right);
    mid := Parted(B, st, t);
  }

  /** What the parent has to be asked, after a split that leaves its own level as it should be. */
  lemma SplitAsks(B: nat, st: Store, levels: seq<Level>, rank: seq<nat>, a: Ask, fuel: nat)
    returns (levels': seq<Level>, b: Ask, mid: Store)
    requires B >= 4 && Asked(B, st.nodes, levels, rank, st.root, a) && FileAgrees(B, st.nodes, st.disk) && fuel >= |levels| - a.l
    requires a.l < |levels| && a.i < |levels[a.l]| && levels[a.l][a.i].pos < |st.nodes|
    requires |st.nodes[levels[a.l][a.i].pos].keys| == B - 1 && st.nodes[levels[a.l][a.i].pos].parent != 0
    ensures |levels'| == |levels| && b.l == a.l + 1 < |levels'| && b.i < |levels'[b.l]|
    ensures Asked(B, mid.nodes, levels', rank + [a.l], mid.root, b) && FileAgrees(B, mid.nodes, mid.disk)
    ensures var p := levels[a.l][a.i].pos;
            var q := levels'[b.l][b.i].pos;
            && EntryInserted(B, st, p, a.key, a.pointer, fuel) == EntryInserted(B, mid, q, b.key, b.pointer, fuel - 1)
            && Ending(B, st.nodes, st.disk, p, a.key, fuel) == Ending(B, mid.nodes, mid.disk, q, b.key, fuel - 1)
    ensures After(B, st, rank, a.l, mid, Nowhere) && |mid.nodes| == |st.nodes| + 1
    ensures |rank| == |st.nodes| == |st.disk| <= |mid.disk|
            && forall q :: 0 <= q < |st.nodes| && rank[q] > a.l ==> mid.nodes[q] == st.nodes[q] && mid.disk[q] == st.disk[q]
  {
    hide Asked, After, FileAgrees, EntryInserted, Ending, Parted, Enlarged, OnFile;
    var p := levels[a.l][a.i].pos;
    AgreesAt(B, st.nodes, st.disk, p);
    var sep;
    levels', b, mid, sep := SplitStep(B, st, levels, rank, a, fuel);
    PartedAfter(B, st, rank, a.l, p, a.key, a.pointer);
  }

  lemma {:induction false} SplitAfter(B: nat, st: Store, levels: seq<Level>, rank: seq<nat>, a: Ask, fuel: nat)
    requires B >= 4 && Asked(B, st.nodes, levels, rank, st.root, a) && FileAgrees(B, st.nodes, st.disk) && fuel >= |levels| - a.l
    requires a.l < |levels| && a.i < |levels[a.l]| && levels[a.l][a.i].pos < |st.nodes|
    requires |st.nodes[levels[a.l][a.i].pos].keys| == B - 1 && st.nodes[levels[a.l][a.i].pos].parent != 0
    ensures var p := levels[a.l][a.i].pos;
            After(B, st, rank, a.l, EntryInserted(B, st, p, a.key, a.pointer, fuel), Ending(B, st.nodes, st.disk, p, a.key, fuel))
    decreases fuel, 0
  {
    hide Asked, After, FileAgrees, EntryInserted, Ending;
    var levels', b, mid := SplitAsks(B, st, levels, rank, a, fuel);
    EntryAfter(B, mid, levels', rank + [a.l], b, fuel - 1);
    var q := levels'[b.l][b.i].pos;
    AfterMore(B, st, rank, a.l, mid, EntryInserted(B, mid, q, b.key, b.pointer, fuel - 1),
              Ending(B, mid.nodes, mid.disk, q, b.key, fuel - 1));
  }

  /** The same for the insertion of a record into a tree whose file says what its nodes mean. */
  lemma InsertedAfter(B: nat, st: Store, levels: seq<Level>, rank: seq<nat>, r: Record)
    requires B >= 4 && Tree(B, st.nodes, levels, rank, st.root) && FileAgrees(B, st.nodes, st.disk)
    requires INT_MIN <= r.key < INT_END && !HasKey(Contents(st.nodes, levels[0]), r.key)
    ensures After(B, st, rank, 0, Inserted(B, st, r), EndingOf(B, st, r.key))
  {
    hide LevelsOk, Contents, HasKey, FileAgrees, Settled, After, EntryInserted, Ending;
    var j := LeafAsked(B, st.nodes, levels, rank, st.root, r.key, r.row);
    TreeFuel(B, st.nodes, levels, rank, st.root, r.key);
    EntryAfter(B, st, levels, rank, Ask(0, j, r.key, r.row, 0), |st.nodes|);
  }
}
