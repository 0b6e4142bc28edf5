/** The index nested loop join of helper_join.c: one tree search per left row, remembered
    while the value stays the same. */
module TreeJoin {
  import opened BitVectors
  import opened Records
  import opened Columns
  import opened Fetching
  import opened JoinPairs
  import opened TreeShape
  import opened TreeSearch
  import opened BPlusTree

  /** The marked ones among some tree rows, each joined with the position pos. */
  function Hits(rows: seq<nat>, bits: seq<bool>, pos: nat): seq<Match> {
    if rows == [] then []
    else
      var r := rows[|rows| - 1];
      Hits(rows[..|rows| - 1], bits, pos) + if r < |bits| && bits[r] then [Match(r, pos)] else []
  }

  /** For every materialised row in order, the marked tree rows of equal value. */
  function TreeMatches(stock: seq<Record>, bits: seq<bool>, vals: seq<Pair>): seq<Match> {
    if vals == [] then []
    else
      var x := vals[|vals| - 1];
      TreeMatches(stock, bits, vals[..|vals| - 1]) + Hits(Select(stock, x.val, x.val), bits, x.pos)
  }

  lemma HitsMore(rows: seq<nat>, bits: seq<bool>, pos: nat, j: nat)
    requires j < |rows|
    ensures Hits(rows[..j + 1], bits, pos)
         == Hits(rows[..j], bits, pos) + if rows[j] < |bits| && bits[rows[j]] then [Match(rows[j], pos)] else []
  {
    assert rows[..j + 1][..j] == rows[..j];
  }

  lemma TreeMatchesMore(stock: seq<Record>, bits: seq<bool>, vals: seq<Pair>, i: nat)
    requires i < |vals|
    ensures TreeMatches(stock, bits, vals[..i + 1])
         == TreeMatches(stock, bits, vals[..i]) + Hits(Select(stock, vals[i].val, vals[i].val), bits, vals[i].pos)
  {
    assert vals[..i + 1][..i] == vals[..i];
  }

  /** What the join needs of the tree's file: as it is read back it can be searched, its records
      are sorted and their rows have a place in the vector. */
  ghost predicate Joinable(tree: TreeFile, bv: BitVector, h: nat, chain: seq<nat>)
    reads tree, bv
  {
    && Searchable(tree.View(), tree.root, h, chain)
    && KeysSorted(Stored(tree.View(), chain))
    && forall r :: r in Stored(tree.View(), chain) ==> r.row < 32 * bv.vec.Length
  }

  /** The marked ones among the rows found for one materialised row. */
  method JoinRow(treeBv: BitVector, treeV: Variable, otherV: Variable, idList: seq<nat>, resultCount: nat, pos: nat,
                 ghost ids1: seq<nat>, ghost ids2: seq<nat>, ghost ms: seq<Match>)
    requires treeV != otherV && resultCount == |idList| && Collected(treeV, otherV, ids1, ids2, ms)
    requires RowsInside(idList, 32 * treeBv.vec.Length)
    modifies treeV, otherV
    ensures Collected(treeV, otherV, ids1, ids2, ms + Hits(idList, treeBv.Bits(), pos))
  {
    hide Unpack;
    ghost var bits := treeBv.Bits();
    assert ms + Hits(idList[..0], bits, pos) == ms;
    var j := 0;
    while j < resultCount
      invariant 0 <= j <= resultCount
      invariant Collected(treeV, otherV, ids1, ids2, ms + Hits(idList[..j], bits, pos))
      modifies treeV, otherV
    {
      ghost var found := Hits(idList[..j], bits, pos);
      HitsMore(idList, bits, pos, j);
      var row := idList[j];
      var marked := treeBv.IsMarked(row);
      if marked {
        Emit(treeV, otherV, row, pos, ids1, ids2, ms + found);
        assert ms + found + [Match(row, pos)] == ms + (found + [Match(row, pos)]);
      } else {
        assert found + [] == found;
      }
      j := j + 1;
    }
    assert idList[..j] == idList;
  }

  /** Joins the tree with the materialised rows of the other side. */
  method TreeJoin(tree: TreeFile, treeBv: BitVector, treeV: Variable, otherV: Variable, vals: seq<Pair>,
                  ghost h: nat, ghost chain: seq<nat>)
    requires treeV != otherV && Joinable(tree, treeBv, h, chain)
    requires forall i :: 0 <= i < |vals| ==> vals[i].val < INT_END
    modifies treeV, otherV
    ensures Collected(treeV, otherV, old(treeV.ids), old(otherV.ids),
                      TreeMatches(Stored(tree.View(), chain), treeBv.Bits(), vals))
  {
    hide Unpack, Searchable, Visits, Hits, Select, Scan, Stored, TreeMatches, KeysSorted, SearchOutcome;
    ghost var ids1, ids2, bits, stock := treeV.ids, otherV.ids, treeBv.Bits(), Stored(tree.View(), chain);
    NoTreeMatches(stock, bits, vals);
    var idList: seq<nat>, resultCount := [], 0;
    var i := 0;
    while i < |vals|
      invariant 0 <= i <= |vals| && resultCount == |idList|
      invariant i > 0 ==> idList == Select(stock, vals[i - 1].val, vals[i - 1].val)
      invariant Collected(treeV, otherV, ids1, ids2, TreeMatches(stock, bits, vals[..i]))
      invariant bits == treeBv.Bits()
      modifies treeV, otherV
    {
      var value := vals[i].val;
      if !(i > 0 && vals[i - 1].val == value) {
        ghost var rows;
        ghost var k := OutcomeIs(tree.View(), tree.root, h, chain, value, value);
        resultCount, idList, rows := tree.FindRecordInRangeType(null, true, [], value, value, h, chain[k..]);
        OutcomeIsSelect(tree.View(), tree.root, h, chain, value, value, rows);
      }
      SelectInside(stock, value, value, 32 * treeBv.vec.Length);
      TreeMatchesMore(stock, bits, vals, i);
      if resultCount != 0 {
        JoinRow(treeBv, treeV, otherV, idList, resultCount, vals[i].pos, ids1, ids2, TreeMatches(stock, bits, vals[..i]));
      } else {
        NoHits(bits, vals[i].pos);
        assert TreeMatches(stock, bits, vals[..i]) + [] == TreeMatches(stock, bits, vals[..i]);
      }
      i := i + 1;
    }
    assert vals[..i] == vals;
  }

  lemma NoHits(bits: seq<bool>, pos: nat)
    ensures Hits([], bits, pos) == []
  {
  }

  lemma NoTreeMatches(stock: seq<Record>, bits: seq<bool>, vals: seq<Pair>)
    ensures TreeMatches(stock, bits, vals[..0]) == []
  {
  }

  lemma {:induction false} SelectInside(s: seq<Record>, low: int, high: int, n: nat)
    requires forall r :: r in s ==> r.row < n
    ensures RowsInside(Select(s, low, high), n)
  {
    if s != [] {
      SelectInside(s[1..], low, high, n);
      assert s[0] in s;
    }
  }

  // ----- the tree join is a loop join over the tree's column -----

  /** The first element of a sequence, found and taken out of a permutation of it. */
  lemma TakeOut<T>(s: seq<T>, t: seq<T>) returns (k: nat)
    requires s != [] && multiset(s) == multiset(t)
    ensures k < |t| && t == t[..k] + ([s[0]] + t[k + 1..])
    ensures multiset(s[1..]) == multiset(t[..k] + t[k + 1..])
  {
    var r := s[0];
    assert s == [r] + s[1..];
    assert r in multiset(t);
    k :| 0 <= k < |t| && t[k] == r;
    assert t == t[..k] + ([r] + t[k + 1..]);
    assert multiset(s) == multiset{r} + multiset(s[1..]);
    assert multiset(t) == multiset(t[..k]) + (multiset{r} + multiset(t[k + 1..]));
    assert multiset(s[1..]) == multiset(s) - multiset{r};
  }

  /** What a selection returns does not depend on the order of the records, up to order. */
  lemma {:induction false} SelectPermuted(s: seq<Record>, t: seq<Record>, low: int, high: int)
    requires multiset(s) == multiset(t)
    ensures multiset(Select(s, low, high)) == multiset(Select(t, low, high))
  {
    hide Select;
    if s == [] {
      assert |t| == |multiset(t)|;
    } else {
      var k := TakeOut(s, t);
      var r, a, b := s[0], t[..k], t[k + 1..];
      assert s == [r] + s[1..];
      SelectPermuted(s[1..], a + b, low, high);
      SelectConcat([r], s[1..], low, high);
      SelectConcat(a, [r] + b, low, high);
      SelectConcat([r], b, low, high);
      SelectConcat(a, b, low, high);
    }
  }

  lemma {:induction false} HitsConcat(a: seq<nat>, b: seq<nat>, bits: seq<bool>, pos: nat)
    ensures Hits(a + b, bits, pos) == Hits(a, bits, pos) + Hits(b, bits, pos)
  {
    if b == [] {
      assert a + b == a;
    } else {
      assert (a + b)[..|a + b| - 1] == a + b[..|b| - 1];
      HitsConcat(a, b[..|b| - 1], bits, pos);
    }
  }

  lemma {:induction false} HitsPermuted(a: seq<nat>, b: seq<nat>, bits: seq<bool>, pos: nat)
    requires multiset(a) == multiset(b)
    ensures multiset(Hits(a, bits, pos)) == multiset(Hits(b, bits, pos))
  {
    hide Hits;
    if a == [] {
      assert |b| == |multiset(b)|;
    } else {
      var k := TakeOut(a, b);
      var r, c, d := a[0], b[..k], b[k + 1..];
      assert a == [r] + a[1..];
      HitsPermuted(a[1..], c + d, bits, pos);
      HitsConcat([r], a[1..], bits, pos);
      HitsConcat(c, [r] + d, bits, pos);
      HitsConcat([r], d, bits, pos);
      HitsConcat(c, d, bits, pos);
    }
  }

  /** The hits of a scan are the matches with the materialised selection. */
  lemma {:induction false} HitsOfScan(col: seq<int>, bits: seq<bool>, x: Pair, k: nat)
    requires k <= |col| <= |bits|
    ensures RowsInside(MarkedRows(bits, k), |col|)
    ensures Hits(ScanRows(col[..k], x.val, x.val), bits, x.pos)
         == Swapped(RowMatches(x, PairsAt(col, MarkedRows(bits, k))))
  {
    hide ScanRows, Hits, RowMatches;
    MarkedInside(bits, k);
    if k == 0 {
      ScanNothing(col[..0], x.val, x.val);
      NoHits(bits, x.pos);
      NoMatches(x, PairsAt(col, MarkedRows(bits, 0)));
    } else {
      var i := k - 1;
      HitsOfScan(col, bits, x, i);
      ScanMore(col, i, x.val, x.val);
      ValuesMore(col, bits, i);
      var one := if bits[i] then [Pair(col[i], i)] else [];
      RowMatchesConcat(x, PairsAt(col, MarkedRows(bits, i)), one);
      var rows := if x.val <= col[i] <= x.val then [i] else [];
      HitsConcat(ScanRows(col[..i], x.val, x.val), rows, bits, x.pos);
      SwappedConcat(RowMatches(x, PairsAt(col, MarkedRows(bits, i))), RowMatches(x, one));
      OneHit(col, bits, x, i, one, rows);
    }
  }

  lemma OneHit(col: seq<int>, bits: seq<bool>, x: Pair, i: nat, one: seq<Pair>, rows: seq<nat>)
    requires i < |col| <= |bits|
    requires one == if bits[i] then [Pair(col[i], i)] else []
    requires rows == if x.val <= col[i] <= x.val then [i] else []
    ensures Hits(rows, bits, x.pos) == Swapped(RowMatches(x, one))
  {
  }

  /** When the tree holds every value of a column with its row, in any order, the tree join
      finds what the loop join finds on the selected rows of that column. */
  lemma {:induction false} TreeJoinIsLoop(stock: seq<Record>, col: seq<int>, bits: seq<bool>, vals: seq<Pair>)
    requires multiset(stock) == multiset(Indexed(col, 0)) && |col| <= |bits|
    ensures RowsInside(MarkedRows(bits, |col|), |col|)
    ensures multiset(TreeMatches(stock, bits, vals)) == multiset(LoopMatches(PairsAt(col, MarkedRows(bits, |col|)), vals))
  {
    hide Hits, RowMatches, Select, Indexed, MarkedRows;
    MarkedInside(bits, |col|);
    var y := PairsAt(col, MarkedRows(bits, |col|));
    if vals == [] {
      NoColumns(y);
    } else {
      var front, x := vals[..|vals| - 1], vals[|vals| - 1];
      TreeJoinIsLoop(stock, col, bits, front);
      assert vals == front + [x];
      ColumnAdded(y, front, x);
      SelectPermuted(stock, Indexed(col, 0), x.val, x.val);
      assert col[..|col|] == col;
      HitsPermuted(Select(stock, x.val, x.val), ScanRows(col, x.val, x.val), bits, x.pos);
      HitsOfScan(col, bits, x, |col|);
    }
  }
}
