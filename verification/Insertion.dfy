/** Insertion as a function of the file: what is on file after it, and which addition in place
    it ends with. */
module Insertion {
  import opened Bounds
  import opened NodeBuffer
  import opened Records
  import opened TreeShape
  import opened TreeLemmas
  import opened TreeSteps
  import opened TreeClimb
  import opened TreeMoves
  import opened TreeSearch

  /** The nodes as they are meant, the words on file for them, and the root's position. */
  datatype Store = Store(nodes: File, disk: seq<seq<nat>>, root: nat)

  /** The place behind all keys that do not exceed `key`. */
  function UpperPlace(keys: seq<int>, key: int): (p: nat)
    ensures p <= |keys|
  {
    if keys == [] || key < keys[0] then 0 else 1 + UpperPlace(keys[1..], key)
  }

  lemma {:induction false} OneUpper(keys: seq<int>, key: int, p: nat)
    requires IsUpper(keys, key, p)
    ensures p == UpperPlace(keys, key)
  {
    if p > 0 {
      OneUpper(keys[1..], key, p - 1);
    }
  }

  lemma {:induction false} UpperIs(keys: seq<int>, key: int)
    requires Ascending(keys)
    ensures IsUpper(keys, key, UpperPlace(keys, key))
  {
    if keys != [] && keys[0] <= key {
      UpperIs(keys[1..], key);
      var p := UpperPlace(keys, key);
      forall i | 0 <= i < |keys|
        ensures if i < p then keys[i] <= key else key < keys[i]
      {
        assert i == 0 || keys[i] == keys[1..][i - 1];
      }
    }
  }

  /** The words after both halves of a split have been written. */
  function HalfWords(B: nat, disk: seq<seq<nat>>, left: Node, right: Node): (r: seq<seq<nat>>)
    requires left.pos < |disk|
    ensures |r| == |disk| + 1
  {
    (disk + [Copied(Blank(B, right.isLeaf), right.pointers)])[left.pos := Copied(disk[left.pos], left.pointers)]
  }

  /** The node at p can take an entry, by splitting if need be. */
  predicate Takes(B: nat, st: Store, p: nat) {
    && B >= 4 && p < |st.nodes| == |st.disk| && st.nodes[p].pos == p && |st.nodes[p].keys| < B
    && |st.nodes[p].pointers| == |st.nodes[p].keys| + if st.nodes[p].isLeaf then 0 else 1
  }

  /** The node at p, with one more entry. */
  function Enlarged(B: nat, st: Store, p: nat, key: int, pointer: nat): Node
    requires Takes(B, st, p)
  {
    Added(st.nodes[p], UpperPlace(st.nodes[p].keys, key), key, pointer)
  }

  function AddedTo(B: nat, st: Store, p: nat, key: int, pointer: nat): Store
    requires Takes(B, st, p)
  {
    var n := st.nodes[p];
    st.(nodes := st.nodes[p := Enlarged(B, st, p, key, pointer)],
        disk := st.disk[p := PutEntry(st.disk[p], n, UpperPlace(n.keys, key), pointer)])
  }

  /** Node t, overfull by one entry, in two halves. */
  function Parted(B: nat, st: Store, t: Node): Store
    requires B >= 4 && t.pos < |st.nodes| == |st.disk|
    requires |t.keys| == B && |t.pointers| == B + if t.isLeaf then 0 else 1
  {
    var left, right := HalfLeft(t, B / 2, |st.nodes|), HalfRight(t, B / 2, |st.nodes|);
    st.(nodes := (Adopted(st.nodes, t, B / 2) + [right])[t.pos := left], disk := HalfWords(B, st.disk, left, right))
  }

  /** The same for a root, with a new root above the halves. */
  function PartedRoot(B: nat, st: Store, t: Node): Store
    requires B >= 4 && t.pos < |st.nodes| == |st.disk|
    requires |t.keys| == B && |t.pointers| == B + if t.isLeaf then 0 else 1
  {
    var next := |st.nodes|;
    var left, right := HalfLeft(t, B / 2, next), HalfRight(t, B / 2, next);
    Store(Planted(Adopted(st.nodes, t, B / 2), left, right, t.keys[B / 2]),
          HalfWords(B, st.disk, left, right) + [Copied(Blank(B, false), [left.pos, right.pos])], next + 1)
  }

  /** The node at p takes an entry; what its parents are asked for follows. */
  function EntryInserted(B: nat, st: Store, p: nat, key: int, pointer: nat, fuel: nat): Store
    decreases fuel
  {
    if fuel == 0 || !Takes(B, st, p) then st
    else if |st.nodes[p].keys| < B - 1 then AddedTo(B, st, p, key, pointer)
    else
      var t := Enlarged(B, st, p, key, pointer);
      if t.parent == 0 then PartedRoot(B, st, t)
      else EntryInserted(B, Parted(B, st, t), t.parent, t.keys[B / 2], |st.nodes|, fuel - 1)
  }

  /** The addition in place that ends the climb from p, in the first node with room: a split
      passes the middle key on to the parent, and the split of a root adds nothing in place. */
  function Ending(B: nat, f: File, disk: seq<seq<nat>>, p: nat, key: int, fuel: nat): Addition
    decreases fuel
  {
    if fuel == 0 || p >= |f| || p >= |disk| then Nowhere
    else
      var n, c := f[p], UpperPlace(f[p].keys, key);
      if |n.keys| < B - 1 then InPlace(n, disk[p], c)
      else if n.parent == 0 || B < 4 then Nowhere
      else Ending(B, f, disk, n.parent, InsertAt(n.keys, c, key)[B / 2], fuel - 1)
  }

  /** The file after a record has been inserted. */
  ghost function Inserted(B: nat, st: Store, r: Record): Store {
    if st.nodes == [] then Store([Node(true, [r.key], [r.row], 0, 0, 0)], [Copied(Blank(B, true), [r.row])], 0)
    else EntryInserted(B, st, Descend(st.nodes, st.root, r.key, |st.nodes|), r.key, r.row, |st.nodes|)
  }

  ghost function EndingOf(B: nat, st: Store, key: int): Addition {
    if st.nodes == [] then Nowhere
    else Ending(B, st.nodes, st.disk, Descend(st.nodes, st.root, key, |st.nodes|), key, |st.nodes|)
  }

  /** The insertion overwrites the leaf flag of an interior node. */
  ghost predicate Overwrites(B: nat, st: Store, key: int) {
    Spills(B, EndingOf(B, st, key))
  }

  // ----- runs -----

  ghost function Run(B: nat, st: Store, rs: seq<Record>): Store {
    if rs == [] then st else Inserted(B, Run(B, st, rs[..|rs| - 1]), rs[|rs| - 1])
  }

  /** No insertion of the run overwrites a flag. */
  ghost predicate Harmless(B: nat, st: Store, rs: seq<Record>) {
    forall k :: 0 <= k < |rs| ==> !Overwrites(B, Run(B, st, rs[..k]), rs[k].key)
  }

  /** None before the last one does. */
  ghost predicate HarmlessSoFar(B: nat, st: Store, rs: seq<Record>) {
    rs != [] ==> Harmless(B, st, rs[..|rs| - 1])
  }

  lemma RunOn(B: nat, st: Store, rs: seq<Record>, i: nat)
    requires i < |rs|
    ensures Run(B, st, rs[..i + 1]) == Inserted(B, Run(B, st, rs[..i]), rs[i])
    ensures Harmless(B, st, rs[..i + 1]) <==> Harmless(B, st, rs[..i]) && !Overwrites(B, Run(B, st, rs[..i]), rs[i].key)
  {
    hide Overwrites, Inserted;
    var a, b := rs[..i], rs[..i + 1];
    assert b[..i] == a;
    forall k | 0 <= k < i
      ensures b[..k] == a[..k] && b[k] == a[k]
    {
    }
  }

  /** A run in two parts. */
  lemma {:induction false} RunConcat(B: nat, st: Store, a: seq<Record>, b: seq<Record>)
    ensures Run(B, st, a + b) == Run(B, Run(B, st, a), b)
    ensures Harmless(B, st, a + b) <==> Harmless(B, st, a) && Harmless(B, Run(B, st, a), b)
  {
    hide Overwrites, Inserted, Run, Harmless;
    RunEmpty(B, st);
    RunEmpty(B, Run(B, st, a));
    if b == [] {
      assert a + b == a;
    } else {
      var w := |b| - 1;
      var all := a + b;
      RunConcat(B, st, a, b[..w]);
      RunOn(B, Run(B, st, a), b, w);
      RunOn(B, st, all, |a| + w);
      assert all[..|a| + w] == a + b[..w] && all[..|a| + w + 1] == all && b[..w + 1] == b && all[|a| + w] == b[w];
    }
  }

  lemma RunEmpty(B: nat, st: Store)
    ensures Run(B, st, []) == st && Harmless(B, st, [])
  {
  }

  // ----- the ending depends on the nodes above only -----

  /** Two files agree on the nodes of level l and above. */
  ghost predicate SameFrom(f: File, disk: seq<seq<nat>>, g: File, disk': seq<seq<nat>>, rank: seq<nat>, l: nat) {
    forall q :: 0 <= q < |rank| && rank[q] >= l ==>
      q < |f| && q < |disk| && q < |g| && q < |disk'| && f[q] == g[q] && disk[q] == disk'[q]
  }

  /** The parent of a node above the debt. */
  lemma ParentAbove(B: nat, f: File, levels: seq<Level>, rank: seq<nat>, root: nat, d: Debt, l: nat, i: nat)
    returns (J: nat)
    requires Climbing(B, f, levels, rank, root, d) && d.l < l < |levels| && i < |levels[l]|
    ensures levels[l][i].pos < |f| == |rank| && rank[levels[l][i].pos] == l
    ensures l + 1 == |levels| ==> f[levels[l][i].pos].parent == 0
    ensures l + 1 < |levels| ==> J < |levels[l + 1]| && levels[l + 1][J].pos == f[levels[l][i].pos].parent
  {
    assert LevelOk(B, f, levels[l], rank, l) && Settled(f, levels, root, l);
    if l + 1 < |levels| {
      assert LevelOk(B, f, levels[l + 1], rank, l + 1);
      var c;
      J, c := Locate(f, levels[l + 1], i);
      assert Parents(f, f[levels[l + 1][J].pos], rank, l + 1) && NodeOk(B, f[levels[l + 1][J].pos], levels[l + 1][J], l + 1);
    } else {
      J := 0;
    }
  }

  lemma {:induction false} EndingKept(B: nat, f: File, disk: seq<seq<nat>>, g: File, disk': seq<seq<nat>>,
                                      levels: seq<Level>, rank: seq<nat>, root: nat, d: Debt,
                                      l: nat, i: nat, key: int, fuel: nat)
    requires Climbing(B, g, levels, rank, root, d) && d.l < l < |levels| && i < |levels[l]|
    requires SameFrom(f, disk, g, disk', rank, l)
    ensures Ending(B, f, disk, levels[l][i].pos, key, fuel) == Ending(B, g, disk', levels[l][i].pos, key, fuel)
    decreases fuel
  {
    hide Climbing;
    if fuel > 0 {
      var J := ParentAbove(B, g, levels, rank, root, d, l, i);
      var n := g[levels[l][i].pos];
      if |n.keys| >= B - 1 && n.parent != 0 && B >= 4 {
        EndingKept(B, f, disk, g, disk', levels, rank, root, d, l + 1, J,
                   InsertAt(n.keys, UpperPlace(n.keys, key), key)[B / 2], fuel - 1);
      }
    }
  }

  // ----- fuel -----

  /** Every level has a node of its own. */
  lemma {:induction false} LevelsAreFew(levels: seq<Level>)
    requires forall l :: 0 <= l < |levels| ==> levels[l] != []
    ensures |levels| <= NodeCount(levels)
  {
    if levels != [] {
      LevelsAreFew(levels[1..]);
    }
  }

  /** The number of nodes is fuel enough for a descent. */
  lemma TreeFuel(B: nat, f: File, levels: seq<Level>, rank: seq<nat>, root: nat, key: int)
    requires Tree(B, f, levels, rank, root)
    ensures 1 <= |levels| <= |f| && Descend(f, root, key, |f|) == Descend(f, root, key, |levels| - 1)
  {
    hide Flat;
    forall l | 0 <= l < |levels|
      ensures levels[l] != []
    {
      assert LevelOk(B, f, levels[l], rank, l);
    }
    LevelsAreFew(levels);
    TreeSearchable(B, f, levels, rank, root);
    SameDescent(f, root, key, |levels| - 1, |f|);
  }

  // ----- agreement with the words on file -----

  lemma EmptyAgrees(B: nat)
    ensures FileAgrees(B, [], [])
  {
  }

  lemma NoneCarried(B: nat, buffer: seq<nat>)
    ensures Carried(B, [], []) && InBuffer(B, [], buffer)
  {
  }

  /** A node of a bulk load, written as the buffer stands, its stale end included. */
  lemma BufferAgrees(B: nat, f: File, disk: seq<seq<nat>>, n: Node, buffer: seq<nat>)
    requires FileAgrees(B, f, disk) && |buffer| == B && n.pointers <= buffer
    requires |n.pointers| == |n.keys| + if n.isLeaf then 0 else 1
    ensures FileAgrees(B, f + [n], disk + [buffer + [if n.isLeaf then 1 else 0]])
  {
  }

  /** An addition in place, and how the node is read back afterwards. */
  lemma AdditionAgrees(B: nat, f: File, disk: seq<seq<nat>>, n: Node, p: nat, key: int, pointer: nat)
    requires n.pos < |f| == |disk| && n == f[n.pos] && |n.keys| + 1 < B && p <= |n.keys|
    requires |n.pointers| == |n.keys| + if n.isLeaf then 0 else 1
    requires FileAgrees(B, f, disk)
    ensures var g, disk' := f[n.pos := Added(n, p, key, pointer)], disk[n.pos := PutEntry(disk[n.pos], n, p, pointer)];
            && (FileAgrees(B, g, disk') <==> !Spills(B, InPlace(n, disk[n.pos], p)))
            && SeenAs(B, g, View(g, disk'), InPlace(n, disk[n.pos], p))
  {
    hide OnFile, PutEntry, Added, Read, Turned;
    var at := InPlace(n, disk[n.pos], p);
    var g, disk' := f[n.pos := Added(n, p, key, pointer)], disk[n.pos := PutEntry(disk[n.pos], n, p, pointer)];
    assert OnFile(B, f[n.pos], disk[n.pos]);
    EntryPut(B, n, disk[n.pos], p, key, pointer);
    NodeReplaced(B, f, disk, n.pos, Added(n, p, key, pointer), PutEntry(disk[n.pos], n, p, pointer));
    if Spills(B, at) {
      EntrySeen(B, n, disk[n.pos], p, key, pointer);
      ReadBack(B, f, disk);
      AddedStays(n, p, key, pointer);
      forall q | 0 <= q < |g|
        ensures View(g, disk')[q] == g[n.pos := Turned(g[n.pos])][q]
      {
        assert View(f, disk)[q] == f[q];
      }
    } else {
      ReadBack(B, g, disk');
    }
  }

  lemma AddedStays(n: Node, p: nat, key: int, pointer: nat)
    requires p <= |n.keys| && |n.pointers| == |n.keys| + if n.isLeaf then 0 else 1
    ensures Added(n, p, key, pointer).isLeaf == n.isLeaf
  {
  }

  /** A child that names a new parent keeps its words. */
  lemma AdoptedAgrees(B: nat, f: File, disk: seq<seq<nat>>, q: nat, parent: nat)
    requires FileAgrees(B, f, disk) && q < |f|
    ensures FileAgrees(B, f[q := f[q].(parent := parent)], disk[q := disk[q]])
  {
    assert OnFile(B, f[q], disk[q]);
    NodeReplaced(B, f, disk, q, f[q].(parent := parent), disk[q]);
  }

  /** Both halves of a split are written whole. */
  lemma HalvesAgree(B: nat, f: File, disk: seq<seq<nat>>, n: Node, a: Ask, p: nat, t: Node, h: File,
                    left: Node, right: Node, sep: int)
    requires Halved(B, f, n, a, p, t, h, left, right, sep) && FileAgrees(B, h, disk)
    ensures |h| == |f| == |disk| && left.pos == n.pos < |f| && right.pos == |f|
    ensures FileAgrees(B, (h + [right])[left.pos := left], HalfWords(B, disk, left, right))
    ensures forall parent: nat ::
      FileAgrees(B, (h + [right.(parent := parent)])[left.pos := left.(parent := parent)], HalfWords(B, disk, left, right))
  {
    hide FileAgrees, Copied, Blank;
    AsManyWords(B, h, disk);
    WrittenHalves(B, h, disk, left, right);
    forall parent: nat
      ensures FileAgrees(B, (h + [right.(parent := parent)])[left.pos := left.(parent := parent)], HalfWords(B, disk, left, right))
    {
      WrittenHalves(B, h, disk, left.(parent := parent), right.(parent := parent));
    }
  }

  lemma AsManyWords(B: nat, f: File, disk: seq<seq<nat>>)
    requires FileAgrees(B, f, disk)
    ensures |disk| == |f|
  {
  }

  lemma WrittenHalves(B: nat, h: File, disk: seq<seq<nat>>, left: Node, right: Node)
    requires FileAgrees(B, h, disk) && left.pos < |h| && left.isLeaf == h[left.pos].isLeaf
    requires |left.pointers| <= B && |left.pointers| == |left.keys| + if left.isLeaf then 0 else 1
    requires |right.pointers| <= B && |right.pointers| == |right.keys| + if right.isLeaf then 0 else 1
    ensures FileAgrees(B, (h + [right])[left.pos := left], HalfWords(B, disk, left, right))
  {
    assert OnFile(B, h[left.pos], disk[left.pos]);
    BlankOnFile(B, right);
  }

  lemma RootAgrees(B: nat, h: File, disk: seq<seq<nat>>, left: Node, right: Node, sep: int)
    requires B >= 4 && left.pos < |h| == |disk|
    requires forall parent: nat ::
      FileAgrees(B, (h + [right.(parent := parent)])[left.pos := left.(parent := parent)], HalfWords(B, disk, left, right))
    ensures FileAgrees(B, Planted(h, left, right, sep),
                       HalfWords(B, disk, left, right) + [Copied(Blank(B, false), [left.pos, right.pos])])
    ensures View(Planted(h, left, right, sep),
                 HalfWords(B, disk, left, right) + [Copied(Blank(B, false), [left.pos, right.pos])])
         == Planted(h, left, right, sep)
  {
    hide OnFile, Copied, Blank, FileAgrees, HalfWords, View;
    var parent := Node(false, [sep], [left.pos, right.pos], 0, 0, |h| + 1);
    var g := (h + [right.(parent := |h| + 1)])[left.pos := left.(parent := |h| + 1)];
    BlankOnFile(B, parent);
    NodeAppended(B, g, HalfWords(B, disk, left, right), parent, Copied(Blank(B, false), parent.pointers));
    ReadBack(B, Planted(h, left, right, sep), HalfWords(B, disk, left, right) + [Copied(Blank(B, false), parent.pointers)]);
  }

  // ----- the climb, step by step -----

  /** The split of a root ends the climb without an addition in place. */
  lemma EndsAtRoot(B: nat, st: Store, n: Node, a: Ask, p: nat, t: Node, h: File, left: Node, right: Node, sep: int, fuel: nat)
    requires Halved(B, st.nodes, n, a, p, t, h, left, right, sep) && |st.disk| == |st.nodes|
    requires n.parent == 0 && fuel > 0
    ensures EntryInserted(B, st, n.pos, a.key, a.pointer, fuel)
         == Store(Planted(h, left, right, sep),
                  HalfWords(B, st.disk, left, right) + [Copied(Blank(B, false), [left.pos, right.pos])], |h| + 1)
    ensures Ending(B, st.nodes, st.disk, n.pos, a.key, fuel) == Nowhere
    ensures !Spills(B, Nowhere) && forall f :: SeenAs(B, f, f, Nowhere)
  {
    hide Adopted, HalfLeft, HalfRight, Planted, HalfWords;
    OneUpper(n.keys, a.key, p);
  }

  /** From level l upwards nothing has changed. */
  ghost predicate Untouched(f: File, rank: seq<nat>, l: nat, h: File) {
    |f| <= |h| && forall q :: 0 <= q < |f| && q < |rank| && rank[q] >= l ==> h[q] == f[q]
  }

  /** Any other split hands over to the parent, which is asked in the file with both halves
      written. */
  lemma HandsOver(B: nat, st: Store, n: Node, a: Ask, p: nat, t: Node, h: File, left: Node, right: Node, sep: int, fuel: nat)
    requires Halved(B, st.nodes, n, a, p, t, h, left, right, sep) && |st.disk| == |st.nodes|
    requires n.parent != 0 && fuel > 0
    ensures EntryInserted(B, st, n.pos, a.key, a.pointer, fuel)
         == EntryInserted(B, Store(h[n.pos := left] + [right], HalfWords(B, st.disk, left, right), st.root),
                          n.parent, sep, |h|, fuel - 1)
    ensures Ending(B, st.nodes, st.disk, n.pos, a.key, fuel) == Ending(B, st.nodes, st.disk, n.parent, sep, fuel - 1)
  {
    hide Adopted, HalfLeft, HalfRight, HalfWords;
    OneUpper(n.keys, a.key, p);
    assert h[n.pos := left] + [right] == (h + [right])[n.pos := left];
  }

  /** Where the climb ends can be told from the file before the split. */
  lemma EndsAbove(B: nat, f: File, disk: seq<seq<nat>>, l: nat, rank: seq<nat>, h: File, left: Node, right: Node, sep: int,
                  fuel: nat, levels': seq<Level>, root: nat, b: Ask)
    requires |rank| == |f| == |h| == |disk| && left.pos < |f| && rank[left.pos] == l && Untouched(f, rank, l, h)
    requires b.l == l + 1 && Asked(B, h[left.pos := left] + [right], levels', rank + [l], root, b)
    ensures b.l < |levels'| && b.i < |levels'[b.l]|
    ensures Ending(B, f, disk, levels'[b.l][b.i].pos, sep, fuel)
         == Ending(B, h[left.pos := left] + [right], HalfWords(B, disk, left, right), levels'[b.l][b.i].pos, sep, fuel)
  {
    hide Climbing, Tree, NodeOk, Flat, Copied, Blank;
    var mid, disk' := h[left.pos := left] + [right], HalfWords(B, disk, left, right);
    assert SameFrom(f, disk, mid, disk', rank + [l], b.l);
    var c: nat :| Arrived(B, mid, levels', rank + [l], root, DebtOf(b), b.i, c);
    EndingKept(B, f, disk, mid, disk', levels', rank + [l], root, DebtOf(b), b.l, b.i, sep, fuel);
  }

  /** The halves a full node is cut into. */
  lemma HalvesAre(B: nat, f: File, n: Node, a: Ask, p: nat, left: Node, right: Node, sep: int)
    requires B >= 4 && n.pos < |f| && n == f[n.pos] && |n.keys| + 1 == B && IsUpper(n.keys, a.key, p)
    requires |n.pointers| == |n.keys| + (if n.isLeaf then 0 else 1)
    requires var t := Added(n, p, a.key, a.pointer);
             sep == t.keys[B / 2] && left == HalfLeft(t, B / 2, |f|) && right == HalfRight(t, B / 2, |f|)
    ensures Halved(B, f, n, a, p, Added(n, p, a.key, a.pointer), Adopted(f, Added(n, p, a.key, a.pointer), B / 2), left, right, sep)
  {
  }

  /** Only nodes one level down name a new parent. */
  lemma ChildrenOnly(B: nat, f: File, rank: seq<nat>, l: nat, t: Node)
    requires B >= 4 && (t.isLeaf || B / 2 < |t.pointers|)
    requires !t.isLeaf ==> forall q :: q in t.pointers ==> q < |rank| && rank[q] + 1 == l
    ensures Untouched(f, rank, l, Adopted(f, t, B / 2))
  {
  }
}
