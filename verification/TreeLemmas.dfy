/** Facts about levels, flattening and chains that every tree step uses. */
module TreeLemmas {
  import opened TreeShape

  lemma {:induction false} FlatConcat(f: File, a: Level, b: Level)
    requires InFile(f, a) && InFile(f, b)
    ensures InFile(f, a + b) && Flat(f, a + b) == Flat(f, a) + Flat(f, b)
  {
    if a == [] {
      assert a + b == b;
    } else {
      assert (a + b)[1..] == a[1..] + b;
      FlatConcat(f, a[1..], b);
    }
  }

  /** Nodes agree on what the level below is made of. */
  ghost predicate SameContent(f: File, g: File, lev: Level)
    requires InFile(f, lev) && InFile(g, lev)
  {
    forall i :: 0 <= i < |lev| ==>
      g[lev[i].pos].keys == f[lev[i].pos].keys && g[lev[i].pos].pointers == f[lev[i].pos].pointers
  }

  lemma {:induction false} FlatFrame(f: File, g: File, up: Level)
    requires InFile(f, up) && InFile(g, up) && SameContent(f, g, up)
    ensures Flat(f, up) == Flat(g, up)
  {
    if up != [] {
      var rest := up[1..];
      assert SameContent(f, g, rest);
      FlatFrame(f, g, rest);
      assert g[up[0].pos].keys == f[up[0].pos].keys;
      assert Kids(f[up[0].pos], up[0]) == Kids(g[up[0].pos], up[0]);
    }
  }

  /** Level l+1 around its i-th entry. */
  lemma FlatAround(f: File, up: Level, i: nat)
    requires InFile(f, up) && i < |up|
    ensures InFile(f, up[..i]) && InFile(f, up[i + 1..])
    ensures Flat(f, up) == Flat(f, up[..i]) + Kids(f[up[i].pos], up[i]) + Flat(f, up[i + 1..])
  {
    assert up == up[..i] + up[i..];
    FlatConcat(f, up[..i], up[i..]);
    assert up[i..][1..] == up[i + 1..];
  }

  lemma FlatOne(f: File, e: Entry)
    ensures Flat(f, [e]) == Kids(At(f, e.pos), e)
  {
  }

  /** Every entry of a flattened level is one child of one entry above it. */
  lemma {:induction false} Locate(f: File, up: Level, j: nat) returns (i: nat, c: nat)
    requires InFile(f, up) && j < |Flat(f, up)|
    ensures i < |up| && c < |f[up[i].pos].pointers|
    ensures InFile(f, up[..i]) && j == |Flat(f, up[..i])| + c
    ensures Flat(f, up)[j] == Kid(f[up[i].pos], up[i], c)
    decreases |up|
  {
    var first := Kids(f[up[0].pos], up[0]);
    if j < |first| {
      i, c := 0, j;
    } else {
      i, c := Locate(f, up[1..], j - |first|);
      i := i + 1;
      assert up[..i][1..] == up[1..][..i - 1];
      assert InFile(f, up[1..][..i - 1]);
    }
  }

  /** The child at an offset of an entry sits at the matching place below. */
  lemma FlatAt(f: File, up: Level, i: nat, c: nat)
    requires InFile(f, up) && i < |up| && c < |f[up[i].pos].pointers|
    ensures InFile(f, up[..i]) && |Flat(f, up[..i])| + c < |Flat(f, up)|
    ensures Flat(f, up)[|Flat(f, up[..i])| + c] == Kid(f[up[i].pos], up[i], c)
  {
    FlatAround(f, up, i);
  }

  lemma {:induction false} NodeCountConcat(a: seq<Level>, b: seq<Level>)
    ensures NodeCount(a + b) == NodeCount(a) + NodeCount(b)
  {
    if a == [] {
      assert a + b == b;
    } else {
      assert (a + b)[1..] == a[1..] + b;
      NodeCountConcat(a[1..], b);
    }
  }

  lemma NodeCountUpdate(levels: seq<Level>, l: nat, lev: Level)
    requires l < |levels|
    ensures NodeCount(levels[l := lev]) == NodeCount(levels) - |levels[l]| + |lev|
  {
    var a, b := levels[..l], levels[l + 1..];
    assert levels == a + ([levels[l]] + b);
    assert levels[l := lev] == a + ([lev] + b);
    NodeCountConcat(a, [levels[l]] + b);
    NodeCountConcat(a, [lev] + b);
    NodeCountConcat([lev], b);
    NodeCountConcat([levels[l]], b);
  }

  lemma {:induction false} StoredConcat(f: File, a: seq<nat>, b: seq<nat>)
    requires ChainInFile(f, a) && ChainInFile(f, b)
    ensures ChainInFile(f, a + b) && Stored(f, a + b) == Stored(f, a) + Stored(f, b)
  {
    if a == [] {
      assert a + b == b;
    } else {
      assert (a + b)[1..] == a[1..] + b;
      StoredConcat(f, a[1..], b);
    }
  }

  lemma {:induction false} StoredFrame(f: File, g: File, chain: seq<nat>)
    requires ChainInFile(f, chain) && ChainInFile(g, chain)
    requires forall i :: 0 <= i < |chain| ==>
      g[chain[i]].keys == f[chain[i]].keys && g[chain[i]].pointers == f[chain[i]].pointers
    ensures Stored(f, chain) == Stored(g, chain)
  {
    if chain != [] {
      StoredFrame(f, g, chain[1..]);
      assert Payload(f[chain[0]]) == Payload(g[chain[0]]);
    }
  }

  lemma ContentsFrame(f: File, g: File, leaves: Level)
    requires InFile(f, leaves) && InFile(g, leaves) && SameContent(f, g, leaves)
    ensures Contents(f, leaves) == Contents(g, leaves)
  {
    var chain := Positions(leaves);
    forall i | 0 <= i < |chain|
      ensures g[chain[i]].keys == f[chain[i]].keys && g[chain[i]].pointers == f[chain[i]].pointers
    {
      assert chain[i] == leaves[i].pos;
    }
    StoredFrame(f, g, chain);
  }

  /** The records of a chain around its i-th node. */
  lemma StoredAround(f: File, chain: seq<nat>, i: nat)
    requires ChainInFile(f, chain) && i < |chain|
    ensures Stored(f, chain) == Stored(f, chain[..i]) + Payload(f[chain[i]]) + Stored(f, chain[i + 1..])
  {
    assert chain == chain[..i] + chain[i..];
    StoredConcat(f, chain[..i], chain[i..]);
    assert chain[i..][1..] == chain[i + 1..];
  }

  /** Intervals of a tiling are ordered. */
  lemma {:induction false} TilesOrdered(lev: Level, i: nat, j: nat)
    requires Tiles(lev) && i < j < |lev|
    ensures lev[i].hi <= lev[j].lo
    decreases j - i
  {
    assert Meets(lev, i);
    if i + 1 < j {
      TilesOrdered(lev, i + 1, j);
    }
  }

  lemma ExpandAt(lev: Level, i: nat, sep: int, pos: nat, k: nat)
    requires i < |lev| && k <= |lev|
    ensures |Expand(lev, i, sep, pos)| == |lev| + 1
    ensures k < i ==> Expand(lev, i, sep, pos)[k] == lev[k]
    ensures k == i ==> Expand(lev, i, sep, pos)[k] == Entry(lev[i].pos, lev[i].lo, sep)
    ensures k == i + 1 ==> Expand(lev, i, sep, pos)[k] == Entry(pos, sep, lev[i].hi)
    ensures k > i + 1 ==> Expand(lev, i, sep, pos)[k] == lev[k - 1]
  {
  }

  lemma ExpandTiles(lev: Level, i: nat, sep: int, pos: nat)
    requires Tiles(lev) && i < |lev| && lev[i].lo < sep < lev[i].hi
    ensures Tiles(Expand(lev, i, sep, pos))
  {
    var x := Expand(lev, i, sep, pos);
    forall k | 0 <= k < |x|
      ensures x[k].lo < x[k].hi
    {
      assert k <= i + 1 || x[k] == lev[k - 1];
    }
    forall k | 0 <= k < |x| - 1
      ensures Meets(x, k)
    {
      if k != i {
        assert Meets(lev, if k < i then k else k - 1) || k == |lev|;
      }
      assert k < i ==> x[k] == lev[k];
      assert k > i + 1 ==> x[k] == lev[k - 1];
      assert k + 1 > i + 1 ==> x[k + 1] == lev[k];
    }
  }

  /** Splitting an entry adds one position to its level. */
  lemma ExpandPlaces(lev: Level, i: nat, sep: int, pos: nat, rank: seq<nat>, l: nat)
    requires i < |lev| && Distinct(lev) && Ranked(lev, rank, l) && pos == |rank|
    ensures Distinct(Expand(lev, i, sep, pos)) && Ranked(Expand(lev, i, sep, pos), rank + [l], l)
  {
  }

  // ----- every node of a tree has its place -----

  ghost function PlacesIn(lev: Level, n: nat): set<nat>
    requires n <= |lev|
  {
    set i | 0 <= i < n :: lev[i].pos
  }

  ghost function PlacesFrom(levels: seq<Level>, l: nat): set<nat>
    requires l <= |levels|
    decreases |levels| - l
  {
    if l == |levels| then {} else PlacesIn(levels[l], |levels[l]|) + PlacesFrom(levels, l + 1)
  }

  ghost predicate Placed(levels: seq<Level>, l: nat, p: nat) {
    l < |levels| && exists i: nat :: i < |levels[l]| && levels[l][i].pos == p
  }

  lemma {:induction false} PlacesCount(lev: Level, n: nat)
    requires Distinct(lev) && n <= |lev|
    ensures |PlacesIn(lev, n)| == n
  {
    if n > 0 {
      PlacesCount(lev, n - 1);
      var front, all, p := PlacesIn(lev, n - 1), PlacesIn(lev, n), lev[n - 1].pos;
      assert p in all && p !in front;
      forall q | q in all && q != p
        ensures q in front
      {
      }
      assert all == front + {p};
    }
  }

  lemma {:induction false} PlacesOfLevels(B: nat, f: File, levels: seq<Level>, rank: seq<nat>, l: nat)
    requires l <= |levels| && forall k :: 0 <= k < |levels| ==> LevelOk(B, f, levels[k], rank, k)
    ensures |PlacesFrom(levels, l)| == NodeCount(levels[l..])
    ensures forall p :: p in PlacesFrom(levels, l) ==> p < |f| && p < |rank| && rank[p] >= l && Placed(levels, rank[p], p)
    decreases |levels| - l
  {
    hide NodesOk, ParentsOk, Tiles;
    if l < |levels| {
      PlacesOfLevels(B, f, levels, rank, l + 1);
      assert LevelOk(B, f, levels[l], rank, l);
      PlacesCount(levels[l], |levels[l]|);
      assert levels[l..][1..] == levels[l + 1..];
      assert PlacesIn(levels[l], |levels[l]|) !! PlacesFrom(levels, l + 1);
    }
  }

  lemma {:induction false} AllThere(s: set<nat>, n: nat)
    requires |s| == n && forall p :: p in s ==> p < n
    ensures forall p: nat :: p < n ==> p in s
  {
    if n > 0 {
      if n - 1 in s {
        AllThere(s - {n - 1}, n - 1);
      } else {
        SmallSet(s, n - 1);
      }
    }
  }

  lemma {:induction false} SmallSet(s: set<nat>, n: nat)
    requires forall p :: p in s ==> p < n
    ensures |s| <= n
  {
    if n > 0 {
      SmallSet(s - {n - 1}, n - 1);
    }
  }

  /** The levels describe the whole file: no node is left without an entry. */
  lemma NodePlaced(B: nat, f: File, levels: seq<Level>, rank: seq<nat>, root: nat, p: nat) returns (l: nat, i: nat)
    requires Tree(B, f, levels, rank, root) && p < |f|
    ensures |rank| == |f| && l == rank[p] < |levels| && i < |levels[l]| && levels[l][i].pos == p
  {
    hide LevelOk, Settled, Chain;
    PlacesOfLevels(B, f, levels, rank, 0);
    assert levels[0..] == levels;
    AllThere(PlacesFrom(levels, 0), |f|);
    assert p in PlacesFrom(levels, 0);
    l := rank[p];
    assert Placed(levels, l, p);
    i :| i < |levels[l]| && levels[l][i].pos == p;
  }
}
