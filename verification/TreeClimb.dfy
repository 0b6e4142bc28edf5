/** The steps by which a split climbs: a new root, an entry in a parent with room,
    and the split of a full parent. */
module TreeClimb {
  import opened Records
  import opened TreeShape
  import opened TreeLemmas
  import opened TreeSteps

  // ----- a new root pays the debt of the top level -----

  function Reparented(f: File, kids: seq<nat>, parent: nat): File {
    seq(|f|, q requires 0 <= q < |f| => if q in kids then f[q].(parent := parent) else f[q])
  }

  /** A level none of whose children changed parents. */
  lemma LevelUnderReparent(B: nat, f: File, lev: Level, rank: seq<nat>, k: nat, kids: seq<nat>, parent: nat,
                           n: Node, l: nat)
    requires LevelOk(B, f, lev, rank, k) && |rank| == |f|
    requires forall q :: q in kids ==> q < |f| && rank[q] + 1 != k
    ensures SameNodes(f, Reparented(f, kids, parent) + [n], lev)
    ensures LevelOk(B, Reparented(f, kids, parent) + [n], lev, rank + [l], k)
  {
    LevelFrame(B, f, Reparented(f, kids, parent) + [n], lev, rank, rank + [l], k);
  }

  lemma RootLevelOk(B: nat, g: File, rank: seq<nat>, l: nat, p: nat, q: nat, sep: int)
    requires B >= 4 && |g| == |rank| && |g| > 0 && p < |g| - 1 && q < |g| - 1
    requires INT_MIN < sep < INT_END && l > 0
    requires rank[p] + 1 == l && rank[q] + 1 == l && rank[|g| - 1] == l
    requires g[p].parent == |g| - 1 && g[q].parent == |g| - 1
    requires g[|g| - 1] == Node(false, [sep], [p, q], 0, 0, |g| - 1)
    ensures LevelOk(B, g, [Entry(|g| - 1, INT_MIN, INT_END)], rank, l)
    ensures Flat(g, [Entry(|g| - 1, INT_MIN, INT_END)]) == [Entry(p, INT_MIN, sep), Entry(q, sep, INT_END)]
  {
  }

  ghost function NewRootFile(f: File, p: nat, d: Debt): File {
    Reparented(f, [p, d.pos], |f|) + [Node(false, [d.sep], [p, d.pos], 0, 0, |f|)]
  }

  lemma NewRootLevels(B: nat, f: File, levels: seq<Level>, rank: seq<nat>, p: nat, d: Debt)
    requires B >= 4 && LevelsOk(B, f, levels, rank) && d.l + 1 == |levels|
    requires p < |f| && d.pos < |f| && rank[p] == d.l && rank[d.pos] == d.l && INT_MIN < d.sep < INT_END
    ensures var g := NewRootFile(f, p, d);
            && LevelsOk(B, g, levels + [[Entry(|f|, INT_MIN, INT_END)]], rank + [|levels|])
            && (forall k :: 0 <= k < |levels| ==> SameNodes(f, g, levels[k]))
            && Flat(g, [Entry(|f|, INT_MIN, INT_END)]) == [Entry(p, INT_MIN, d.sep), Entry(d.pos, d.sep, INT_END)]
  {
    var n := Node(false, [d.sep], [p, d.pos], 0, 0, |f|);
    var g := NewRootFile(f, p, d);
    var levels', rank' := levels + [[Entry(|f|, INT_MIN, INT_END)]], rank + [|levels|];
    RootLevelOk(B, g, rank', |levels|, p, d.pos, d.sep);
    forall k | 0 <= k < |levels|
      ensures SameNodes(f, g, levels[k]) && LevelOk(B, g, levels[k], rank', k)
    {
      assert LevelOk(B, f, levels[k], rank, k);
      LevelUnderReparent(B, f, levels[k], rank, k, [p, d.pos], |f|, n, |levels|);
    }
    forall k | 0 <= k < |levels[0]|
      ensures levels[0][k].pos < |g| && g[levels[0][k].pos].next == Successor(levels[0], k)
    {
      assert LevelOk(B, f, levels[0], rank, 0);
    }
    forall k | 0 <= k < |levels'|
      ensures LevelOk(B, g, levels'[k], rank', k)
    {
    }
  }

  lemma NewRootLives(f: File, g: File, levels: seq<Level>)
    requires |g| == |f| + 1 && forall k :: 0 <= k < |levels| ==> SameNodes(f, g, levels[k])
    ensures Lives(g, levels + [[Entry(|f|, INT_MIN, INT_END)]])
  {
  }

  /** The links of a tree whose new root has just been written. */
  lemma NewRootLinks(f: File, g: File, levels: seq<Level>, root: nat, d: Debt)
    requires Lives(f, levels) && d.l + 1 == |levels| && |g| == |f| + 1
    requires forall k :: 0 <= k < |levels| ==> SameNodes(f, g, levels[k])
    requires forall k :: 0 <= k < d.l ==> Settled(f, levels, root, k)
    requires Owes(f, levels, root, d)
    requires Flat(g, [Entry(|f|, INT_MIN, INT_END)]) == [Entry(root, INT_MIN, d.sep), Entry(d.pos, d.sep, INT_END)]
    ensures var levels' := levels + [[Entry(|f|, INT_MIN, INT_END)]];
            forall k :: 0 <= k < |levels'| ==> Settled(g, levels', |f|, k)
  {
    hide Flat;
    var top := [Entry(|f|, INT_MIN, INT_END)];
    var levels' := levels + [top];
    forall k | 0 <= k < |levels'|
      ensures Settled(g, levels', |f|, k)
    {
      if k < d.l {
        assert Settled(f, levels, root, k) && SameNodes(f, g, levels[k + 1]);
        AboveFrame(f, g, levels, levels', root, k);
      }
    }
  }

  lemma NewRootStep(B: nat, f: File, levels: seq<Level>, rank: seq<nat>, root: nat, d: Debt)
    requires B >= 4 && Climbing(B, f, levels, rank, root, d) && d.l + 1 == |levels|
    ensures Tree(B, NewRootFile(f, root, d), levels + [[Entry(|f|, INT_MIN, INT_END)]], rank + [|levels|], |f|)
    ensures forall k :: 0 <= k < |levels| ==> SameNodes(f, NewRootFile(f, root, d), levels[k])
  {
    hide Flat;
    var top := levels[d.l];
    assert Above(f, levels, root, d.l) == [Entry(root, INT_MIN, INT_END)];
    assert top == [Entry(root, INT_MIN, d.sep), Entry(d.pos, d.sep, INT_END)];
    assert LevelOk(B, f, top, rank, d.l);
    assert rank[top[0].pos] == d.l && rank[top[1].pos] == d.l;
    NewRootLevels(B, f, levels, rank, root, d);
    NewRootLinks(f, NewRootFile(f, root, d), levels, root, d);
    NewRootLives(f, NewRootFile(f, root, d), levels);
    NodeCountConcat(levels, [[Entry(|f|, INT_MIN, INT_END)]]);
  }

  // ----- a parent with room pays the debt -----

  /** Entry J of the level above, whose c-th child has been split. */
  ghost predicate Creditor(f: File, levels: seq<Level>, root: nat, d: Debt, J: nat, c: nat)
    requires d.l + 1 < |levels| && InFile(f, levels[d.l + 1])
  {
    var up := levels[d.l + 1];
    && J < |up| && c < |f[up[J].pos].pointers|
    && InFile(f, up[..J]) && d.i == |Flat(f, up[..J])| + c
    && d.i < |Flat(f, up)| && Flat(f, up)[d.i] == Kid(f[up[J].pos], up[J], c)
  }

  /** The creditor is the node that the split child names as its parent, and the
      separator belongs right behind that child. */
  lemma FindCreditor(B: nat, f: File, levels: seq<Level>, rank: seq<nat>, root: nat, d: Debt) returns (J: nat, c: nat)
    requires Climbing(B, f, levels, rank, root, d) && d.l + 1 < |levels|
    ensures Creditor(f, levels, root, d, J, c)
    ensures levels[d.l + 1][J].pos == f[d.pos].parent
    ensures InteriorOk(B, f[levels[d.l + 1][J].pos], levels[d.l + 1][J])
    ensures Fits(f[levels[d.l + 1][J].pos], levels[d.l + 1][J], d.sep, c)
    ensures c <= |f[levels[d.l + 1][J].pos].keys|
    ensures rank[levels[d.l + 1][J].pos] == d.l + 1
    ensures levels[d.l + 1][J].lo < d.sep
  {
    var up := levels[d.l + 1];
    assert LevelOk(B, f, up, rank, d.l + 1);
    J, c := Locate(f, up, d.i);
    var e := up[J];
    assert NodeOk(B, f[e.pos], e, d.l + 1);
    assert Parents(f, f[e.pos], rank, d.l + 1);
    SeparatorFits(B, f[e.pos], e, c, d.sep);
  }

  /** A key inside the interval of child c has exactly c keys below it. */
  lemma SeparatorFits(B: nat, n: Node, e: Entry, c: nat, sep: int)
    requires InteriorOk(B, n, e) && c < |n.pointers|
    requires Kid(n, e, c).lo < sep < Kid(n, e, c).hi && e.lo < e.hi
    ensures Fits(n, e, sep, c) && e.lo < sep
  {
  }

  /** The children of a node that adopted the new half behind child c. */
  lemma AddedKids(n: Node, e: Entry, c: nat, sep: int, pos: nat)
    requires !n.isLeaf && |n.pointers| == |n.keys| + 1 && c <= |n.keys|
    ensures Kids(Added(n, c, sep, pos), e) == Expand(Kids(n, e), c, sep, pos)
  {
  }

  /** Only entry J of a level changed. */
  lemma SameAround(f: File, g: File, up: Level, J: nat)
    requires InFile(f, up) && InFile(g, up) && Distinct(up) && J < |up|
    requires forall q :: 0 <= q < |f| && q < |g| && q != up[J].pos ==> Same(f[q], g[q])
    ensures SameNodes(f, g, up[..J]) && SameNodes(f, g, up[J + 1..])
  {
  }

  lemma FlatThree(g: File, a: Level, middle: Level, b: Level)
    requires InFile(g, a) && InFile(g, middle) && InFile(g, b)
    ensures InFile(g, a + middle + b)
    ensures Flat(g, a + middle + b) == Flat(g, a) + Flat(g, middle) + Flat(g, b)
  {
    FlatConcat(g, a, middle);
    FlatConcat(g, a + middle, b);
  }

  /** If the nodes that replace entry e have one child more, so has the level below. */
  lemma FlatGrows(f: File, g: File, a: Level, e: Entry, b: Level, middle: Level, c: nat, sep: int, pos: nat)
    requires SameNodes(f, g, a) && SameNodes(f, g, b) && e.pos < |f| && InFile(g, middle)
    requires c < |f[e.pos].pointers|
    requires Flat(g, middle) == Expand(Kids(f[e.pos], e), c, sep, pos)
    ensures InFile(f, a + [e] + b) && InFile(g, a + middle + b)
    ensures |Flat(f, a)| + c < |Flat(f, a + [e] + b)|
    ensures Flat(g, a + middle + b) == Expand(Flat(f, a + [e] + b), |Flat(f, a)| + c, sep, pos)
  {
    hide Flat;
    FlatThree(f, a, [e], b);
    FlatOne(f, e);
    FlatSame(f, g, a);
    FlatSame(f, g, b);
    FlatThree(g, a, middle, b);
    ExpandMiddle(Flat(f, a), Kids(f[e.pos], e), Flat(f, b), c, sep, pos);
  }

  lemma ExpandMiddle(a: Level, x: Level, b: Level, c: nat, sep: int, pos: nat)
    requires c < |x|
    ensures a + Expand(x, c, sep, pos) + b == Expand(a + x + b, |a| + c, sep, pos)
  {
  }

  lemma AddedParentOk(B: nat, f: File, n: Node, e: Entry, rank: seq<nat>, l: nat, c: nat, sep: int, pos: nat)
    requires InteriorOk(B, n, e) && Fits(n, e, sep, c) && e.lo < sep && Parents(f, n, rank, l)
    requires pos < |f| && pos < |rank| && f[pos].parent == n.pos && rank[pos] + 1 == l
    ensures |n.keys| + 1 < B ==> InteriorOk(B, Added(n, c, sep, pos), e)
    ensures |n.keys| + 1 == B ==> Overfull(B, Added(n, c, sep, pos), e)
    ensures Parents(f, Added(n, c, sep, pos), rank, l)
  {
    var m := Added(n, c, sep, pos);
    InsertAscends(n.keys, sep, c);
    forall k | 0 <= k < |m.keys|
      ensures e.lo < m.keys[k] < e.hi
    {
      assert k < c ==> m.keys[k] == n.keys[k];
      assert k > c ==> m.keys[k] == n.keys[k - 1];
    }
    forall k | 0 <= k < |m.pointers|
      ensures m.pointers[k] == pos || m.pointers[k] in n.pointers
    {
      assert k <= c ==> m.pointers[k] == n.pointers[k];
      assert k > c + 1 ==> m.pointers[k] == n.pointers[k - 1];
    }
  }

  lemma ParentAddStep(B: nat, f: File, levels: seq<Level>, rank: seq<nat>, root: nat, d: Debt, J: nat, c: nat)
    requires Climbing(B, f, levels, rank, root, d) && d.l + 1 < |levels|
    requires Creditor(f, levels, root, d, J, c) && c <= |f[levels[d.l + 1][J].pos].keys|
    requires InteriorOk(B, f[levels[d.l + 1][J].pos], levels[d.l + 1][J])
    requires Fits(f[levels[d.l + 1][J].pos], levels[d.l + 1][J], d.sep, c) && levels[d.l + 1][J].lo < d.sep
    requires f[d.pos].parent == levels[d.l + 1][J].pos && |f[levels[d.l + 1][J].pos].keys| + 1 < B
    ensures var p := levels[d.l + 1][J].pos;
            && Tree(B, f[p := Added(f[p], c, d.sep, d.pos)], levels, rank, root)
            && forall k :: 0 <= k < |levels| && k != d.l + 1 ==>
                 SameNodes(f, f[p := Added(f[p], c, d.sep, d.pos)], levels[k])
  {
    hide Flat;
    var l := d.l + 1;
    var up := levels[l];
    var e := up[J];
    var m := Added(f[e.pos], c, d.sep, d.pos);
    var g := f[e.pos := m];
    assert rank[d.pos] == d.l by {
      var below := Expand(Above(f, levels, root, d.l), d.i, d.sep, d.pos);
      assert LevelOk(B, f, levels[d.l], rank, d.l) && levels[d.l] == below;
      assert below[d.i + 1].pos == d.pos;
    }
    assert LevelOk(B, f, up, rank, l) && Parents(f, f[e.pos], rank, l);
    AddedParentOk(B, f, f[e.pos], e, rank, l, c, d.sep, d.pos);
    NodeChange(B, f, levels, rank, l, J, m);
    PaidLinks(f, levels, root, d, J, c, m);
  }

  /** With the new entry in the parent all levels are settled again. */
  lemma PaidLinks(f: File, levels: seq<Level>, root: nat, d: Debt, J: nat, c: nat, m: Node)
    requires Lives(f, levels) && d.l + 1 < |levels| && Owes(f, levels, root, d)
    requires forall k :: 0 <= k < |levels| && k != d.l ==> Settled(f, levels, root, k)
    requires Creditor(f, levels, root, d, J, c)
    requires !f[levels[d.l + 1][J].pos].isLeaf && c <= |f[levels[d.l + 1][J].pos].keys|
    requires |f[levels[d.l + 1][J].pos].pointers| == |f[levels[d.l + 1][J].pos].keys| + 1
    requires m == Added(f[levels[d.l + 1][J].pos], c, d.sep, d.pos)
    requires Distinct(levels[d.l + 1])
    requires forall k :: 0 <= k < |levels| && k != d.l + 1 ==>
      SameNodes(f, f[levels[d.l + 1][J].pos := m], levels[k])
    ensures var g := f[levels[d.l + 1][J].pos := m];
            Lives(g, levels) && forall k :: 0 <= k < |levels| ==> Settled(g, levels, root, k)
  {
    hide Flat;
    var up := levels[d.l + 1];
    var e := up[J];
    var g := f[e.pos := m];
    forall k | 0 <= k < |levels|
      ensures InFile(g, levels[k])
    {
      assert InFile(f, levels[k]);
    }
    AddedKids(f[e.pos], e, c, d.sep, d.pos);
    FlatOne(g, e);
    assert up == up[..J] + [e] + up[J + 1..];
    SameAround(f, g, up, J);
    FlatGrows(f, g, up[..J], e, up[J + 1..], [e], c, d.sep, d.pos);
    forall k | 0 <= k < |levels|
      ensures Settled(g, levels, root, k)
    {
      if k != d.l {
        StaySettled(f, g, levels, root, k);
      }
    }
  }

  // ----- a full parent splits and passes the debt on -----

  /** What is left of an overfull interior node t after its upper part moves away. */
  function LowerHalf(t: Node, S: nat, next: nat): Node
    requires S < |t.keys| && |t.pointers| == |t.keys| + 1
  {
    t.(keys := t.keys[..S], pointers := t.pointers[..S + 1], next := next)
  }

  /** The part that moves to position pos. */
  function UpperHalf(t: Node, S: nat, pos: nat): Node
    requires S < |t.keys| && |t.pointers| == |t.keys| + 1
  {
    Node(false, t.keys[S + 1..], t.pointers[S + 1..], t.parent, t.next, pos)
  }

  /** The file after the split: the children of the upper half are adopted by it. */
  function SplitFile(f: File, t: Node, S: nat): File
    requires S < |t.keys| && |t.pointers| == |t.keys| + 1 && t.pos < |f|
  {
    Reparented(f, t.pointers[S + 1..], |f|)[t.pos := LowerHalf(t, S, |f|)] + [UpperHalf(t, S, |f|)]
  }

  /** An overfull node: one key and one pointer more than the buffers hold. */
  ghost predicate Overfull(B: nat, t: Node, e: Entry) {
    && !t.isLeaf && t.pos == e.pos && |t.keys| == B && |t.pointers| == B + 1
    && Ascending(t.keys) && (forall i :: 0 <= i < |t.keys| ==> e.lo < t.keys[i] < e.hi)
  }

  lemma HalvesOk(B: nat, S: nat, t: Node, e: Entry, pos: nat, next: nat)
    requires B >= 4 && S == B / 2 && Overfull(B, t, e)
    ensures e.lo < t.keys[S] < e.hi
    ensures InteriorOk(B, LowerHalf(t, S, next), Entry(e.pos, e.lo, t.keys[S]))
    ensures InteriorOk(B, UpperHalf(t, S, pos), Entry(pos, t.keys[S], e.hi))
    ensures Kids(LowerHalf(t, S, next), Entry(e.pos, e.lo, t.keys[S]))
         +  Kids(UpperHalf(t, S, pos), Entry(pos, t.keys[S], e.hi)) == Kids(t, e)
  {
    var a, b := LowerHalf(t, S, next), UpperHalf(t, S, pos);
    forall k | 0 <= k < |b.keys|
      ensures b.keys[k] == t.keys[S + 1 + k]
    {
    }
    HalvesKids(S, t, e, pos, next);
  }

  lemma HalvesKids(S: nat, t: Node, e: Entry, pos: nat, next: nat)
    requires S < |t.keys| && |t.pointers| == |t.keys| + 1
    ensures Kids(LowerHalf(t, S, next), Entry(e.pos, e.lo, t.keys[S]))
         +  Kids(UpperHalf(t, S, pos), Entry(pos, t.keys[S], e.hi)) == Kids(t, e)
  {
  }

  /** Pointers of a node in a sound tree are distinct and are in no other node. */
  ghost predicate OwnKids(f: File, t: Node)
  {
    && (forall a, b :: 0 <= a < b < |t.pointers| ==> t.pointers[a] != t.pointers[b])
    && (forall q :: q in t.pointers ==> q < |f| && f[q].parent == t.pos)
  }

  /** After the split every child of the level names its true parent. */
  lemma SplitParents(B: nat, f: File, up: Level, rank: seq<nat>, l: nat, J: nat, t: Node, S: nat, sep: int)
    requires LevelOk(B, f, up, rank, l) && l > 0 && |rank| == |f| && J < |up| && t.pos == up[J].pos
    requires S < |t.keys| && |t.pointers| == |t.keys| + 1
    requires OwnKids(f, t) && forall q :: q in t.pointers ==> rank[q] + 1 == l
    ensures InFile(SplitFile(f, t, S), Expand(up, J, sep, |f|))
    ensures ParentsOk(SplitFile(f, t, S), Expand(up, J, sep, |f|), rank + [l], l)
  {
    var g := SplitFile(f, t, S);
    var x := Expand(up, J, sep, |f|);
    forall k | 0 <= k < |x|
      ensures x[k].pos < |g| && Parents(g, g[x[k].pos], rank + [l], l)
    {
      ExpandAt(up, J, sep, |f|, k);
      if k == J {
        LowerParents(f, rank, l, t, S);
      } else if k == J + 1 {
        UpperParents(f, rank, l, t, S);
      } else {
        var i := if k < J then k else k - 1;
        assert x[k] == up[i] && up[i].pos != t.pos;
        StrangerParents(f, rank, l, t, S, f[up[i].pos]);
        assert g[x[k].pos] == Reparented(f, t.pointers[S + 1..], |f|)[up[i].pos];
      }
    }
  }

  lemma LowerParents(f: File, rank: seq<nat>, l: nat, t: Node, S: nat)
    requires |rank| == |f| && t.pos < |f| && S < |t.keys| && |t.pointers| == |t.keys| + 1
    requires OwnKids(f, t) && (forall q :: q in t.pointers ==> rank[q] + 1 == l)
    requires rank[t.pos] == l
    ensures Parents(SplitFile(f, t, S), LowerHalf(t, S, |f|), rank + [l], l)
  {
    var g, m := SplitFile(f, t, S), LowerHalf(t, S, |f|);
    forall c | 0 <= c < |m.pointers|
      ensures m.pointers[c] < |f| && g[m.pointers[c]].parent == t.pos && rank[m.pointers[c]] + 1 == l
    {
      assert m.pointers[c] == t.pointers[c] && t.pointers[c] in t.pointers;
      assert m.pointers[c] !in t.pointers[S + 1..];
    }
  }

  lemma UpperParents(f: File, rank: seq<nat>, l: nat, t: Node, S: nat)
    requires |rank| == |f| && t.pos < |f| && S < |t.keys| && |t.pointers| == |t.keys| + 1
    requires OwnKids(f, t) && (forall q :: q in t.pointers ==> rank[q] + 1 == l)
    requires rank[t.pos] == l
    ensures Parents(SplitFile(f, t, S), UpperHalf(t, S, |f|), rank + [l], l)
  {
    var g, m := SplitFile(f, t, S), UpperHalf(t, S, |f|);
    forall c | 0 <= c < |m.pointers|
      ensures m.pointers[c] < |f| && g[m.pointers[c]].parent == |f| && rank[m.pointers[c]] + 1 == l
    {
      assert m.pointers[c] in t.pointers[S + 1..];
      assert m.pointers[c] == t.pointers[S + 1 + c] && t.pointers[S + 1 + c] in t.pointers;
    }
  }

  /** Children of other nodes keep their parents. */
  lemma StrangerParents(f: File, rank: seq<nat>, l: nat, t: Node, S: nat, n: Node)
    requires |rank| == |f| && t.pos < |f| && S < |t.keys| && |t.pointers| == |t.keys| + 1
    requires OwnKids(f, t) && rank[t.pos] == l
    requires Parents(f, n, rank, l) && n.pos != t.pos
    ensures Parents(SplitFile(f, t, S), n, rank + [l], l)
  {
  }

  /** Levels other than the splitting one do not notice the split. */
  lemma OtherLevelSplit(B: nat, f: File, lev: Level, rank: seq<nat>, k: nat, l: nat, t: Node, S: nat)
    requires LevelOk(B, f, lev, rank, k) && |rank| == |f| && k != l
    requires t.pos < |f| && rank[t.pos] == l && t.parent == f[t.pos].parent
    requires S < |t.keys| && |t.pointers| == |t.keys| + 1
    requires forall q :: q in t.pointers ==> q < |f| && rank[q] + 1 == l
    ensures SameNodes(f, SplitFile(f, t, S), lev)
    ensures LevelOk(B, SplitFile(f, t, S), lev, rank + [l], k)
  {
    var g := SplitFile(f, t, S);
    forall j | 0 <= j < |lev|
      ensures lev[j].pos != t.pos
    {
      OtherLevel(lev, rank, k, j, t.pos);
    }
    assert forall q :: q in t.pointers[S + 1..] ==> q in t.pointers;
    LevelFrame(B, f, g, lev, rank, rank + [l], k);
  }

  lemma ThisLevelSplit(B: nat, S: nat, f: File, up: Level, rank: seq<nat>, l: nat, J: nat, t: Node)
    requires B >= 4 && S == B / 2 && LevelOk(B, f, up, rank, l) && l > 0 && |rank| == |f| && J < |up|
    requires Overfull(B, t, up[J]) && OwnKids(f, t) && forall q :: q in t.pointers ==> rank[q] + 1 == l
    ensures var x := Expand(up, J, t.keys[S], |f|);
            LevelOk(B, SplitFile(f, t, S), x, rank + [l], l)
  {
    var g := SplitFile(f, t, S);
    HalvesOk(B, S, t, up[J], |f|, |f|);
    forall k | 0 <= k < |up| && k != J
      ensures Same(f[up[k].pos], g[up[k].pos])
    {
      assert up[k].pos != t.pos;
    }
    SplitNodesOk(B, f, g, up, rank, l, J, t.keys[S]);
    SplitParents(B, f, up, rank, l, J, t, S, t.keys[S]);
  }

  lemma SplitKeepsChain(f: File, leaves: Level, rank: seq<nat>, l: nat, t: Node, S: nat)
    requires InFile(f, leaves) && Chain(f, leaves) && Ranked(leaves, rank, 0) && l > 0
    requires t.pos < |f| && t.pos < |rank| && rank[t.pos] == l && S < |t.keys| && |t.pointers| == |t.keys| + 1
    ensures InFile(SplitFile(f, t, S), leaves) && Chain(SplitFile(f, t, S), leaves)
  {
  }

  lemma ParentSplitLevels(B: nat, S: nat, f: File, levels: seq<Level>, rank: seq<nat>, l: nat, J: nat, t: Node)
    requires B >= 4 && S == B / 2 && LevelsOk(B, f, levels, rank) && 0 < l < |levels| && J < |levels[l]|
    requires Overfull(B, t, levels[l][J]) && t.pos < |f| && t.parent == f[t.pos].parent
    requires OwnKids(f, t) && forall q :: q in t.pointers ==> rank[q] + 1 == l
    ensures var g := SplitFile(f, t, S);
            && LevelsOk(B, g, levels[l := Expand(levels[l], J, t.keys[S], |f|)], rank + [l])
            && forall k :: 0 <= k < |levels| && k != l ==> SameNodes(f, g, levels[k])
  {
    var g := SplitFile(f, t, S);
    var levels', rank' := levels[l := Expand(levels[l], J, t.keys[S], |f|)], rank + [l];
    assert LevelOk(B, f, levels[l], rank, l);
    ThisLevelSplit(B, S, f, levels[l], rank, l, J, t);
    forall k | 0 <= k < |levels| && k != l
      ensures SameNodes(f, g, levels[k]) && LevelOk(B, g, levels'[k], rank', k)
    {
      assert LevelOk(B, f, levels[k], rank, k);
      OtherLevelSplit(B, f, levels[k], rank, k, l, t, S);
    }
    SplitKeepsChain(f, levels[0], rank, l, t, S);
  }

  lemma FlatPair(g: File, a: Entry, b: Entry)
    requires a.pos < |g| && b.pos < |g|
    ensures Flat(g, [a, b]) == Kids(g[a.pos], a) + Kids(g[b.pos], b)
  {
    assert [a, b][1..] == [b];
    assert [b][1..] == [];
    assert Flat(g, [b]) == Kids(g[b.pos], b) + [];
  }

  lemma HalvesFlat(B: nat, S: nat, f: File, e: Entry, t: Node)
    requires B >= 4 && S == B / 2 && t.pos < |f| && Overfull(B, t, e)
    ensures var middle := [Entry(e.pos, e.lo, t.keys[S]), Entry(|f|, t.keys[S], e.hi)];
            InFile(SplitFile(f, t, S), middle) && Flat(SplitFile(f, t, S), middle) == Kids(t, e)
  {
    var g := SplitFile(f, t, S);
    HalvesOk(B, S, t, e, |f|, |f|);
    FlatPair(g, Entry(e.pos, e.lo, t.keys[S]), Entry(|f|, t.keys[S], e.hi));
  }

  lemma SplitFlatParts(B: nat, S: nat, f: File, up: Level, a: Level, e: Entry, b: Level, x: Level,
                       c: nat, t: Node, sep: int, pos: nat)
    requires up == a + [e] + b
    requires B >= 4 && S == B / 2 && t.pos < |f| && Overfull(B, t, e) && c < |f[e.pos].pointers|
    requires SameNodes(f, SplitFile(f, t, S), a) && SameNodes(f, SplitFile(f, t, S), b)
    requires Kids(t, e) == Expand(Kids(f[e.pos], e), c, sep, pos)
    requires x == a + [Entry(e.pos, e.lo, t.keys[S]), Entry(|f|, t.keys[S], e.hi)] + b
    ensures InFile(SplitFile(f, t, S), x) && InFile(f, up)
    ensures |Flat(f, a)| + c < |Flat(f, up)|
    ensures Flat(SplitFile(f, t, S), x) == Expand(Flat(f, up), |Flat(f, a)| + c, sep, pos)
  {
    hide Flat;
    HalvesFlat(B, S, f, e, t);
    FlatGrows(f, SplitFile(f, t, S), a, e, b, [Entry(e.pos, e.lo, t.keys[S]), Entry(|f|, t.keys[S], e.hi)], c, sep, pos);
  }

  lemma SplitSame(f: File, t: Node, S: nat, up: Level, J: nat)
    requires S < |t.keys| && |t.pointers| == |t.keys| + 1 && t.pos < |f|
    requires InFile(f, up) && J < |up| && Distinct(up) && t.pos == up[J].pos
    ensures SameNodes(f, SplitFile(f, t, S), up[..J]) && SameNodes(f, SplitFile(f, t, S), up[J + 1..])
    ensures up == up[..J] + [up[J]] + up[J + 1..]
  {
  }

  /** The level below the split node is described by its two halves. */
  lemma SplitFlat(B: nat, S: nat, f: File, up: Level, J: nat, c: nat, t: Node, sep: int, pos: nat,
                  before: Level, left: Level, after: Level)
    requires B >= 4 && S == B / 2 && InFile(f, up) && J < |up| && Distinct(up) && t.pos < |f|
    requires Overfull(B, t, up[J]) && c < |f[up[J].pos].pointers|
    requires Kids(t, up[J]) == Expand(Kids(f[up[J].pos], up[J]), c, sep, pos)
    requires before == Flat(f, up) && left == Flat(f, up[..J])
    requires after == Flat(SplitFile(f, t, S), Expand(up, J, t.keys[S], |f|))
    ensures |left| + c < |before| && after == Expand(before, |left| + c, sep, pos)
  {
    hide Flat, Kids, Kid, Reparented;
    SplitSame(f, t, S, up, J);
    SplitFlatParts(B, S, f, up, up[..J], up[J], up[J + 1..], Expand(up, J, t.keys[S], |f|), c, t, sep, pos);
  }

  /** The overfull node's children are its own: they are distinct places of the level below. */
  lemma OverfullKids(f: File, up: Level, below: Level, J: nat, c: nat, t: Node, sep: int, pos: nat)
    requires InFile(f, up) && J < |up| && c < |f[up[J].pos].pointers| && Distinct(below)
    requires InFile(f, up[..J]) && |Flat(f, up[..J])| + c < |Flat(f, up)|
    requires below == Expand(Flat(f, up), |Flat(f, up[..J])| + c, sep, pos)
    requires Kids(t, up[J]) == Expand(Kids(f[up[J].pos], up[J]), c, sep, pos)
    requires forall q :: q in t.pointers ==> q < |f| && f[q].parent == t.pos
    ensures OwnKids(f, t)
  {
    hide Flat;
    FlatAround(f, up, J);
    var a, k, b := Flat(f, up[..J]), Kids(f[up[J].pos], up[J]), Flat(f, up[J + 1..]);
    ExpandMiddle(a, k, b, c, sep, pos);
    var x := Kids(t, up[J]);
    assert below == a + x + b;
    forall i, j | 0 <= i < j < |t.pointers|
      ensures t.pointers[i] != t.pointers[j]
    {
      assert below[|a| + i] == x[i] == Kid(t, up[J], i);
      assert below[|a| + j] == x[j] == Kid(t, up[J], j);
    }
  }

  /** What a climbing split knows about the node it has reached. */
  ghost predicate Arrived(B: nat, f: File, levels: seq<Level>, rank: seq<nat>, root: nat, d: Debt, J: nat, c: nat)
    requires d.l + 1 < |levels| && InFile(f, levels[d.l + 1])
  {
    && Climbing(B, f, levels, rank, root, d) && Creditor(f, levels, root, d, J, c)
    && c <= |f[levels[d.l + 1][J].pos].keys|
    && InteriorOk(B, f[levels[d.l + 1][J].pos], levels[d.l + 1][J])
    && Fits(f[levels[d.l + 1][J].pos], levels[d.l + 1][J], d.sep, c) && levels[d.l + 1][J].lo < d.sep
    && f[d.pos].parent == levels[d.l + 1][J].pos
  }

  lemma DebtRank(B: nat, f: File, levels: seq<Level>, rank: seq<nat>, root: nat, d: Debt)
    requires Climbing(B, f, levels, rank, root, d)
    ensures rank[d.pos] == d.l
  {
    var below := Expand(Above(f, levels, root, d.l), d.i, d.sep, d.pos);
    assert LevelOk(B, f, levels[d.l], rank, d.l) && levels[d.l] == below;
    assert below[d.i + 1].pos == d.pos;
  }

  /** The temporary node of a parent split is sound, but for its size. */
  lemma OverfullOk(B: nat, f: File, levels: seq<Level>, rank: seq<nat>, root: nat, d: Debt, J: nat, c: nat)
    requires d.l + 1 < |levels| && InFile(f, levels[d.l + 1]) && Arrived(B, f, levels, rank, root, d, J, c)
    requires |f[levels[d.l + 1][J].pos].keys| + 1 == B
    ensures var t := Added(f[levels[d.l + 1][J].pos], c, d.sep, d.pos);
            && Overfull(B, t, levels[d.l + 1][J]) && OwnKids(f, t)
            && forall q :: q in t.pointers ==> rank[q] + 1 == d.l + 1
  {
    hide Flat;
    var l := d.l + 1;
    var up := levels[l];
    var e := up[J];
    var t := Added(f[e.pos], c, d.sep, d.pos);
    DebtRank(B, f, levels, rank, root, d);
    assert LevelOk(B, f, up, rank, l) && Parents(f, f[e.pos], rank, l);
    AddedParentOk(B, f, f[e.pos], e, rank, l, c, d.sep, d.pos);
    AddedKids(f[e.pos], e, c, d.sep, d.pos);
    assert LevelOk(B, f, levels[d.l], rank, d.l);
    OverfullKids(f, up, levels[d.l], J, c, t, d.sep, d.pos);
  }

  lemma SplitLives(f: File, levels: seq<Level>, l: nat, J: nat, t: Node, S: nat, sep: int)
    requires Lives(f, levels) && l < |levels| && J < |levels[l]|
    requires S < |t.keys| && |t.pointers| == |t.keys| + 1 && t.pos < |f|
    ensures Lives(SplitFile(f, t, S), levels[l := Expand(levels[l], J, sep, |f|)])
  {
  }

  lemma DebtPaid(B: nat, S: nat, f: File, levels: seq<Level>, levels': seq<Level>, root: nat, d: Debt,
                 J: nat, c: nat, t: Node)
    requires B >= 4 && S == B / 2 && d.l + 1 < |levels| == |levels'| && InFile(f, levels[d.l + 1])
    requires Owes(f, levels, root, d) && Creditor(f, levels, root, d, J, c)
    requires Distinct(levels[d.l + 1]) && t.pos < |f| && Overfull(B, t, levels[d.l + 1][J])
    requires Kids(t, levels[d.l + 1][J]) ==
             Expand(Kids(f[levels[d.l + 1][J].pos], levels[d.l + 1][J]), c, d.sep, d.pos)
    requires levels'[d.l] == levels[d.l] && levels'[d.l + 1] == Expand(levels[d.l + 1], J, t.keys[S], |f|)
    ensures Settled(SplitFile(f, t, S), levels', root, d.l)
  {
    hide Flat, Kids, Kid, Expand, Reparented;
    var up, g := levels[d.l + 1], SplitFile(f, t, S);
    SplitFlat(B, S, f, up, J, c, t, d.sep, d.pos, Flat(f, up), Flat(f, up[..J]), Flat(g, levels'[d.l + 1]));
  }

  /** Below the split everything is settled, the paid debt included. */
  lemma SplitSettles(B: nat, S: nat, f: File, levels: seq<Level>, root: nat, d: Debt, J: nat, c: nat, t: Node)
    requires B >= 4 && S == B / 2 && Lives(f, levels) && d.l + 1 < |levels| && Owes(f, levels, root, d)
    requires forall k :: 0 <= k < |levels| && k != d.l ==> Settled(f, levels, root, k)
    requires Creditor(f, levels, root, d, J, c) && Distinct(levels[d.l + 1]) && t.pos < |f|
    requires Overfull(B, t, levels[d.l + 1][J])
    requires Kids(t, levels[d.l + 1][J]) ==
             Expand(Kids(f[levels[d.l + 1][J].pos], levels[d.l + 1][J]), c, d.sep, d.pos)
    requires forall k :: 0 <= k < |levels| && k != d.l + 1 ==> SameNodes(f, SplitFile(f, t, S), levels[k])
    ensures var g := SplitFile(f, t, S);
            var levels' := levels[d.l + 1 := Expand(levels[d.l + 1], J, t.keys[S], |f|)];
            forall k :: 0 <= k <= d.l ==> Settled(g, levels', root, k)
  {
    hide Flat, Kids, Expand, Reparented;
    var l := d.l + 1;
    var g := SplitFile(f, t, S);
    var levels' := levels[l := Expand(levels[l], J, t.keys[S], |f|)];
    DebtPaid(B, S, f, levels, levels', root, d, J, c, t);
    forall k | 0 <= k <= d.l
      ensures Settled(g, levels', root, k)
    {
      if k < d.l {
        assert Settled(f, levels, root, k);
        AboveKept(f, g, levels, levels', root, k);
      }
    }
  }

  /** The levels and links of a file in which entry J of a level has just split. */
  ghost predicate SplitDone(B: nat, f: File, g: File, levels: seq<Level>, rank: seq<nat>, root: nat,
                            l: nat, J: nat, sep: int)
    requires l < |levels| && J < |levels[l]|
  {
    var levels' := levels[l := Expand(levels[l], J, sep, |f|)];
    && LevelsOk(B, g, levels', rank + [l]) && Lives(g, levels')
    && (forall k :: 0 <= k < |levels| && k != l ==> SameNodes(f, g, levels[k]))
    && (forall k :: 0 <= k < l ==> Settled(g, levels', root, k))
    && levels[l][J].lo < sep < levels[l][J].hi
    && |g| == |f| + 1 && levels[l][J].pos < |f| && g[|f|].parent == g[levels[l][J].pos].parent
    && root < |g| && g[root].parent == 0
  }

  lemma SplitDoneClimbs(B: nat, f: File, g: File, levels: seq<Level>, rank: seq<nat>, root: nat,
                        l: nat, J: nat, sep: int)
    requires l < |levels| && J < |levels[l]| && SplitDone(B, f, g, levels, rank, root, l, J, sep)
    requires Lives(f, levels) && forall k :: l <= k < |levels| ==> Settled(f, levels, root, k)
    requires NodeCount(levels) == |f|
    ensures Climbing(B, g, levels[l := Expand(levels[l], J, sep, |f|)], rank + [l], root, Debt(l, J, sep, |f|))
  {
    hide Flat;
    SplitLinks(f, g, levels, root, l, J, sep);
    NodeCountUpdate(levels, l, Expand(levels[l], J, sep, |f|));
  }

  /** No child of the splitting node is the root, so the root stays marked. */
  lemma RootStaysMarked(f: File, t: Node, S: nat, root: nat)
    requires root < |f| && f[root].parent == 0 && OwnKids(f, t) && 0 < t.pos < |f|
    requires t.parent == f[t.pos].parent && S < |t.keys| && |t.pointers| == |t.keys| + 1
    ensures SplitFile(f, t, S)[root].parent == 0
    ensures SplitFile(f, t, S)[|f|].parent == SplitFile(f, t, S)[t.pos].parent
  {
  }

  lemma LevelOfDebt(B: nat, f: File, levels: seq<Level>, rank: seq<nat>, root: nat, d: Debt)
    requires Climbing(B, f, levels, rank, root, d) && d.l + 1 < |levels|
    ensures |rank| == |f| && LevelOk(B, f, levels[d.l + 1], rank, d.l + 1) && levels[0] != []
  {
  }

  /** Node t is entry J of level l with one more entry than fits. */
  ghost predicate Splitting(B: nat, f: File, levels: seq<Level>, rank: seq<nat>, l: nat, J: nat, d: Debt, c: nat, t: Node) {
    && B >= 4 && |t.keys| == B && |t.pointers| == B + 1 && t.pos < |f| == |rank|
    && !f[t.pos].isLeaf && |f[t.pos].pointers| == |f[t.pos].keys| + 1 && c <= |f[t.pos].keys|
    && t == Added(f[t.pos], c, d.sep, d.pos) && OwnKids(f, t)
    && (forall q :: q in t.pointers ==> rank[q] + 1 == l)
    && l < |levels| && J < |levels[l]| && t.pos == levels[l][J].pos && Overfull(B, t, levels[l][J])
  }

  lemma SplitIsDone(B: nat, S: nat, f: File, levels: seq<Level>, rank: seq<nat>, root: nat, d: Debt, J: nat, c: nat, t: Node)
    requires S == B / 2 && Splitting(B, f, levels, rank, d.l + 1, J, d, c, t) && InFile(f, levels[d.l + 1])
    requires Creditor(f, levels, root, d, J, c) && Climbing(B, f, levels, rank, root, d)
    ensures SplitDone(B, f, SplitFile(f, t, S), levels, rank, root, d.l + 1, J, t.keys[S])
  {
    hide Flat;
    var l := d.l + 1;
    LevelOfDebt(B, f, levels, rank, root, d);
    HalvesOk(B, S, t, levels[l][J], |f|, |f|);
    AddedKids(f[t.pos], levels[l][J], c, d.sep, d.pos);
    ParentSplitLevels(B, S, f, levels, rank, l, J, t);
    SplitSettles(B, S, f, levels, root, d, J, c, t);
    SplitLives(f, levels, l, J, t, S, t.keys[S]);
    RootStaysMarked(f, t, S, root);
  }

  lemma ParentSplitStep(B: nat, S: nat, f: File, levels: seq<Level>, rank: seq<nat>, root: nat, d: Debt, J: nat, c: nat)
    requires B >= 4 && S == B / 2
    requires d.l + 1 < |levels| && InFile(f, levels[d.l + 1]) && Arrived(B, f, levels, rank, root, d, J, c)
    requires |f[levels[d.l + 1][J].pos].keys| + 1 == B
    ensures var t := Added(f[levels[d.l + 1][J].pos], c, d.sep, d.pos);
            && |t.keys| == B && |t.pointers| == B + 1 && t.pos < |f|
            && Climbing(B, SplitFile(f, t, S),
                        levels[d.l + 1 := Expand(levels[d.l + 1], J, t.keys[S], |f|)], rank + [d.l + 1],
                        root, Debt(d.l + 1, J, t.keys[S], |f|))
            && forall k :: 0 <= k < |levels| && k != d.l + 1 ==> SameNodes(f, SplitFile(f, t, S), levels[k])
  {
    hide Flat;
    var l := d.l + 1;
    var up := levels[l];
    var t := Added(f[up[J].pos], c, d.sep, d.pos);
    var g := SplitFile(f, t, S);
    OverfullOk(B, f, levels, rank, root, d, J, c);
    SplitIsDone(B, S, f, levels, rank, root, d, J, c, t);
    SplitDoneClimbs(B, f, g, levels, rank, root, l, J, t.keys[S]);
  }
}
