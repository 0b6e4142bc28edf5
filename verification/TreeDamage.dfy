/** What an overwritten leaf flag does: the searches that pass the node take its separators for
    records and stop there. */
module TreeDamage {
  import opened NodeBuffer
  import opened Records
  import opened TreeShape
  import opened TreeLemmas
  import opened TreeOccupancy
  import opened TreeSearch

  /** Below every entry there is a record strictly inside its interval: the second one of its
      leftmost leaf. */
  lemma {:induction false} InnerKey(B: nat, f: File, levels: seq<Level>, rank: seq<nat>, root: nat, l: nat, i: nat)
    returns (key: int)
    requires B >= 4 && Tree(B, f, levels, rank, root) && Occupied(B, f, levels) && l + 1 < |levels| && i < |levels[l]|
    ensures levels[l][i].lo < key < levels[l][i].hi && HasKey(Contents(f, levels[0]), key)
    decreases l
  {
    hide Flat, Contents, HasKey;
    var e := levels[l][i];
    assert LevelOk(B, f, levels[l], rank, l) && NodeOk(B, f[e.pos], e, l);
    if l == 0 {
      SeveralLeaves(B, f, levels, rank, root);
      assert Filled(B, At(f, e.pos));
      key := f[e.pos].keys[1];
      assert f[e.pos].keys[0] < key;
      KeyInLeaf(f, levels[0], i, key);
    } else {
      var j := ChildEntry(B, f, levels, rank, root, l, i, 0);
      key := InnerKey(B, f, levels, rank, root, l - 1, j);
      assert levels[l - 1][j].lo == e.lo && levels[l - 1][j].hi == f[e.pos].keys[0];
    }
  }

  /** A tree with several levels has several leaves. */
  lemma SeveralLeaves(B: nat, f: File, levels: seq<Level>, rank: seq<nat>, root: nat)
    requires Tree(B, f, levels, rank, root) && |levels| > 1
    ensures |levels[0]| > 1
  {
    assert LevelOk(B, f, levels[1], rank, 1) && Settled(f, levels, root, 0);
    var e := levels[1][0];
    assert NodeOk(B, f[e.pos], e, 1);
    FlatAt(f, levels[1], 0, 1);
  }

  /** A file like a tree's, apart from nodes that have turned into leaves. */
  ghost predicate LeavesAdded(f: File, v: File) {
    |v| == |f| && forall q :: 0 <= q < |f| ==> v[q] == f[q] || v[q].isLeaf
  }

  lemma {:induction false} StillWalkable(B: nat, f: File, levels: seq<Level>, rank: seq<nat>, root: nat, k: nat, j: nat, v: File)
    requires Tree(B, f, levels, rank, root) && k < |levels| && j < |levels[k]| && LeavesAdded(f, v)
    ensures Walkable(v, levels[k][j].pos, k)
    decreases k
  {
    var p := levels[k][j].pos;
    assert LevelOk(B, f, levels[k], rank, k) && NodeOk(B, f[p], levels[k][j], k);
    if !v[p].isLeaf {
      forall c | 0 <= c < |f[p].pointers|
        ensures Walkable(v, f[p].pointers[c], k - 1)
      {
        var m := ChildEntry(B, f, levels, rank, root, k, j, c);
        StillWalkable(B, f, levels, rank, root, k - 1, m, v);
      }
    }
  }

  /** Only one entry of a level has a key inside its interval. */
  lemma OneCovers(lev: Level, i: nat, j: nat, key: int)
    requires Tiles(lev) && i < |lev| && j < |lev| && Covers(lev[j], key) && lev[i].lo < key < lev[i].hi
    ensures i == j
  {
    if i < j {
      TilesOrdered(lev, 0, j);
      TilesOrdered(lev, i, j);
    } else if j < i {
      TilesOrdered(lev, j, i);
    }
  }

  /** The descent for a key inside an entry passes its node, and ends there if the node has
      turned into a leaf. */
  lemma {:induction false} DescentEndsEarly(B: nat, f: File, levels: seq<Level>, rank: seq<nat>, root: nat,
                                            k: nat, j: nat, l: nat, i: nat, key: int, v: File)
    requires Tree(B, f, levels, rank, root) && l <= k < |levels| && j < |levels[k]| && i < |levels[l]|
    requires Covers(levels[k][j], key) && levels[l][i].lo < key < levels[l][i].hi
    requires |v| == |f| && forall q :: 0 <= q < |f| && q != levels[l][i].pos ==> v[q] == f[q]
    requires levels[l][i].pos < |f| && v[levels[l][i].pos].isLeaf
    ensures Descend(v, levels[k][j].pos, key, k) == levels[l][i].pos
    decreases k
  {
    hide Walkable, NodesOk, ParentsOk, Settled, Chain;
    assert LevelOk(B, f, levels[l], rank, l);
    if k == l {
      OneCovers(levels[l], i, j, key);
    } else {
      var m := CoveredChild(B, f, levels, rank, root, k, j, key);
      DescentEndsEarly(B, f, levels, rank, root, k - 1, m, l, i, key, v);
    }
  }

  /** A search for the key of a record below the node stops at the node's first separator. */
  lemma NothingFound(v: File, q: nat, root: nat, h: nat, key: int)
    requires Walkable(v, root, h) && Descend(v, root, key, h) == q < |v|
    requires 0 < |v[q].keys| <= |v[q].pointers| && key < v[q].keys[0]
    ensures SearchOutcome(v, root, key, key, [])
  {
    assert Stops(v[q], key);
    assert Leads(v, [q], key);
    assert Stored(v, [q]) == Payload(v[q]) + Stored(v, [q][1..]);
    assert Scan(Stored(v, [q]), key, key) == [];
    assert Visits(v, root, h, [q], key, key);
  }

  /** When an interior node of a half-full tree has turned into a leaf, there is a record that
      no search finds any more. */
  lemma TurnedLoses(B: nat, f: File, levels: seq<Level>, rank: seq<nat>, root: nat, q: nat) returns (key: int)
    requires B >= 4 && Tree(B, f, levels, rank, root) && Occupied(B, f, levels) && q < |f| && !f[q].isLeaf
    ensures HasKey(Contents(f, levels[0]), key) && INT_MIN < key < INT_END
    ensures SearchOutcome(f[q := Turned(f[q])], root, key, key, [])
  {
    hide Flat, Contents, HasKey, Settled;
    var v, h := f[q := Turned(f[q])], |levels| - 1;
    var l, i := NodePlaced(B, f, levels, rank, root, q);
    key := KeyBeside(B, f, levels, rank, root, l, i);
    RootEntry(B, f, levels, rank, root);
    DescentEndsEarly(B, f, levels, rank, root, h, 0, l, i, key, v);
    StillWalkable(B, f, levels, rank, root, h, 0, v);
    NothingFound(v, q, root, h, key);
  }

  /** A record below an interior node and left of its first separator. */
  lemma KeyBeside(B: nat, f: File, levels: seq<Level>, rank: seq<nat>, root: nat, l: nat, i: nat) returns (key: int)
    requires B >= 4 && Tree(B, f, levels, rank, root) && Occupied(B, f, levels) && l < |levels| && i < |levels[l]|
    requires levels[l][i].pos < |f| && !f[levels[l][i].pos].isLeaf
    ensures HasKey(Contents(f, levels[0]), key) && INT_MIN < key < INT_END
    ensures var n := f[levels[l][i].pos];
            levels[l][i].lo < key < levels[l][i].hi && 0 < |n.keys| < |n.pointers| && key < n.keys[0]
  {
    hide Flat, Contents, HasKey, Settled;
    var e := levels[l][i];
    assert LevelOk(B, f, levels[l], rank, l) && NodeOk(B, f[e.pos], e, l);
    var j := ChildEntry(B, f, levels, rank, root, l, i, 0);
    key := InnerKey(B, f, levels, rank, root, l - 1, j);
    InRange(levels[l], i);
  }

  lemma RootEntry(B: nat, f: File, levels: seq<Level>, rank: seq<nat>, root: nat)
    requires Tree(B, f, levels, rank, root)
    ensures |levels| > 0 && |levels[|levels| - 1]| == 1 && levels[|levels| - 1][0] == Entry(root, INT_MIN, INT_END)
  {
    assert Settled(f, levels, root, |levels| - 1);
  }

  lemma InRange(lev: Level, i: nat)
    requires Tiles(lev) && i < |lev|
    ensures INT_MIN <= lev[i].lo && lev[i].hi <= INT_END
  {
    if i > 0 {
      TilesOrdered(lev, 0, i);
    }
    if i < |lev| - 1 {
      TilesOrdered(lev, i, |lev| - 1);
    }
  }

  lemma SelectsSome(stock: seq<Record>, key: int)
    requires HasKey(stock, key)
    ensures Select(stock, key, key) != []
  {
    hide Select;
    var i :| 0 <= i < |stock| && stock[i].key == key;
    SelectMember(stock, key, key, stock[i].row);
  }

  /** After an addition to a half-full tree all range searches are right if and only if the
      addition did not overwrite a leaf flag. */
  lemma RightUnlessSpilled(B: nat, f: File, levels: seq<Level>, rank: seq<nat>, root: nat, view: File, at: Addition)
    requires B >= 4 && Tree(B, f, levels, rank, root) && Occupied(B, f, levels) && SeenAs(B, f, view, at)
    ensures SearchesRight(view, root, Contents(f, levels[0])) <==> !Spills(B, at)
  {
    hide LevelOk, Settled, Occupied, Contents, HasKey, Turned, Select, SearchOutcome, Searchable, KeysSorted;
    var stock := Contents(f, levels[0]);
    if Spills(B, at) {
      var key := TurnedLoses(B, f, levels, rank, root, at.node.pos);
      SelectsSome(stock, key);
      assert SearchOutcome(view, root, key, key, []);
    } else {
      TreeSearchable(B, f, levels, rank, root);
      TreeAscends(B, f, levels, rank, root);
      ContentsAre(f, levels[0]);
      SearchableRight(f, root, |levels| - 1, Positions(levels[0]));
    }
  }

  lemma ContentsAre(f: File, leaves: Level)
    ensures Contents(f, leaves) == Stored(f, Positions(leaves))
  {
  }
}
