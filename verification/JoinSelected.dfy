/** Materialise, then join: which rows a query over two selections gets. */
module JoinSelected {
  import opened Columns
  import opened Fetching
  import opened HashJoin
  import opened JoinPairs
  import opened Records
  import opened SortJoin
  import opened TreeJoin

  /** Rows with equal values, both of them selected. */
  predicate JoinsRows(a: seq<int>, b: seq<int>, bitsA: seq<bool>, bitsB: seq<bool>, m: Match) {
    && m.left < |a| && m.left < |bitsA| && bitsA[m.left]
    && m.right < |b| && m.right < |bitsB| && bitsB[m.right]
    && a[m.left] == b[m.right]
  }

  /** x holds the selected rows of a column, in any order. */
  ghost predicate Selects(a: seq<int>, bits: seq<bool>, x: seq<Pair>) {
    && |a| <= |bits| && RowsInside(MarkedRows(bits, |a|), |a|)
    && multiset(x) == multiset(PairsAt(a, MarkedRows(bits, |a|)))
  }

  // ----- positions stay distinct in any order -----

  lemma {:induction false} PairOnce(x: seq<Pair>, p: Pair)
    requires DistinctPositions(x)
    ensures multiset(x)[p] <= 1
  {
    if x != [] {
      var y := x[..|x| - 1];
      PairOnce(y, p);
      assert x == y + [x[|x| - 1]];
    }
  }

  lemma DistinctPermuted(x: seq<Pair>, y: seq<Pair>)
    requires DistinctPositions(x) && multiset(x) == multiset(y)
    ensures DistinctPositions(y)
  {
    forall i, j | 0 <= i < j < |y|
      ensures y[i].pos != y[j].pos
    {
      assert y == y[..j] + y[j..];
      assert y[i] in y[..j] && y[j] in y[j..];
      assert multiset(y) == multiset(y[..j]) + multiset(y[j..]);
      PairOnce(x, y[i]);
      assert y[i] in multiset(x) && y[j] in multiset(x);
      assert y[i] in x && y[j] in x;
    }
  }

  lemma MarkedPairsDistinct(a: seq<int>, bits: seq<bool>)
    requires |a| <= |bits|
    ensures RowsInside(MarkedRows(bits, |a|), |a|) && DistinctPositions(PairsAt(a, MarkedRows(bits, |a|)))
  {
    MarkedInside(bits, |a|);
    MarkedExact(bits, |a|);
  }

  lemma SelectedPair(a: seq<int>, bits: seq<bool>, x: seq<Pair>, p: Pair)
    requires Selects(a, bits, x)
    ensures p in x <==> p.pos < |a| && bits[p.pos] && p.val == a[p.pos]
  {
    var rows := MarkedRows(bits, |a|);
    MarkedExact(bits, |a|);
    var y := PairsAt(a, rows);
    assert p in x <==> p in multiset(y);
    if p.pos < |a| && bits[p.pos] && p.val == a[p.pos] {
      assert p.pos in rows;
      var i :| 0 <= i < |rows| && rows[i] == p.pos;
      assert y[i] == p;
    }
    if p in y {
      var i :| 0 <= i < |y| && y[i] == p;
      assert rows[i] in rows;
    }
  }

  lemma EquatesSelected(a: seq<int>, b: seq<int>, bitsA: seq<bool>, bitsB: seq<bool>, x: seq<Pair>, y: seq<Pair>, m: Match)
    requires Selects(a, bitsA, x) && Selects(b, bitsB, y)
    ensures Equates(x, y, m) <==> JoinsRows(a, b, bitsA, bitsB, m)
  {
    hide Selects;
    if Equates(x, y, m) {
      var i :| 0 <= i < |x| && EquatesRow(x[i], y, m);
      var j :| 0 <= j < |y| && x[i].val == y[j].val && m == Match(x[i].pos, y[j].pos);
      assert x[i] in x && y[j] in y;
      SelectedPair(a, bitsA, x, x[i]);
      SelectedPair(b, bitsB, y, y[j]);
      SelectedSize(a, bitsA, x);
      SelectedSize(b, bitsB, y);
    }
    if JoinsRows(a, b, bitsA, bitsB, m) {
      SelectedPair(a, bitsA, x, Pair(a[m.left], m.left));
      SelectedPair(b, bitsB, y, Pair(b[m.right], m.right));
      var i :| 0 <= i < |x| && x[i] == Pair(a[m.left], m.left);
      var j :| 0 <= j < |y| && y[j] == Pair(b[m.right], m.right);
      assert EquatesRow(x[i], y, m);
    }
  }

  lemma SelectedSize(a: seq<int>, bits: seq<bool>, x: seq<Pair>)
    requires Selects(a, bits, x)
    ensures |a| <= |bits|
  {
  }

  /** Loop join and hash join over two materialised selections, sorted or not, return
      every pair of selected rows with equal values exactly once, and nothing else. */
  lemma JoinExact(a: seq<int>, b: seq<int>, bitsA: seq<bool>, bitsB: seq<bool>, x: seq<Pair>, y: seq<Pair>, m: Match)
    requires Selects(a, bitsA, x) && Selects(b, bitsB, y)
    ensures multiset(LoopMatches(x, y))[m] == if JoinsRows(a, b, bitsA, bitsB, m) then 1 else 0
    ensures multiset(HashMatches(x, y))[m] == if JoinsRows(a, b, bitsA, bitsB, m) then 1 else 0
  {
    hide LoopMatches, HashMatches, JoinsRows, Equates;
    MarkedPairsDistinct(a, bitsA);
    MarkedPairsDistinct(b, bitsB);
    DistinctPermuted(PairsAt(a, MarkedRows(bitsA, |a|)), x);
    DistinctPermuted(PairsAt(b, MarkedRows(bitsB, |b|)), y);
    EquatesSelected(a, b, bitsA, bitsB, x, y, m);
    LoopOnce(x, y, m);
    HashIsLoop(x, y);
  }

  /** Each pair of selected rows with equal values exactly once, and nothing else. */
  ghost predicate JoinedOnce(a: seq<int>, b: seq<int>, bitsA: seq<bool>, bitsB: seq<bool>, ms: seq<Match>) {
    forall m :: multiset(ms)[m] == if JoinsRows(a, b, bitsA, bitsB, m) then 1 else 0
  }

  lemma LoopJoinedOnce(a: seq<int>, b: seq<int>, bitsA: seq<bool>, bitsB: seq<bool>, x: seq<Pair>, y: seq<Pair>, ms: seq<Match>)
    requires Selects(a, bitsA, x) && Selects(b, bitsB, y) && multiset(ms) == multiset(LoopMatches(x, y))
    ensures JoinedOnce(a, b, bitsA, bitsB, ms)
  {
    hide Selects, LoopMatches, JoinsRows;
    forall m
      ensures multiset(ms)[m] == if JoinsRows(a, b, bitsA, bitsB, m) then 1 else 0
    {
      JoinExact(a, b, bitsA, bitsB, x, y, m);
    }
  }

  /** No wrong pair, and none twice. */
  ghost predicate JoinedAtMostOnce(a: seq<int>, b: seq<int>, bitsA: seq<bool>, bitsB: seq<bool>, ms: seq<Match>) {
    forall m :: multiset(ms)[m] <= if JoinsRows(a, b, bitsA, bitsB, m) then 1 else 0
  }

  lemma LoopJoinedAtMostOnce(a: seq<int>, b: seq<int>, bitsA: seq<bool>, bitsB: seq<bool>, x: seq<Pair>, y: seq<Pair>, ms: seq<Match>)
    requires Selects(a, bitsA, x) && Selects(b, bitsB, y) && multiset(ms) <= multiset(LoopMatches(x, y))
    ensures JoinedAtMostOnce(a, b, bitsA, bitsB, ms)
  {
    hide Selects, LoopMatches, JoinsRows;
    forall m
      ensures multiset(ms)[m] <= if JoinsRows(a, b, bitsA, bitsB, m) then 1 else 0
    {
      JoinExact(a, b, bitsA, bitsB, x, y, m);
    }
  }

  /** The sort join over two selections: if both are sorted by value, it returns the same, unless
      it has to look left of the first right row.  A selection of a B+ tree column after insertions
      is passed on unsorted: on the left, the pairs of exactly those rows are returned that are not
      smaller than any row before them; in any order, no wrong pair and none twice. */
  method SortJoinSelected(jv1: Variable, jv2: Variable, m0: seq<Pair>, m1: seq<Pair>,
                          ghost a: seq<int>, ghost b: seq<int>, ghost bitsA: seq<bool>, ghost bitsB: seq<bool>)
    returns (ok: bool, ghost ms: seq<Match>)
    requires jv1 != jv2 && Selects(a, bitsA, m0) && Selects(b, bitsB, m1)
    modifies jv1, jv2
    ensures ok <==> FirstUnmatched(Leaders(m0), m1)
    ensures ok ==> ms == MergeMatches(m0, m1, |m0|) && Collected(jv1, jv2, old(jv1.ids), old(jv2.ids), ms)
    ensures ok ==> JoinedAtMostOnce(a, b, bitsA, bitsB, ms)
    ensures ok && ValuesSorted(m1) ==>
              forall m :: multiset(ms)[m] == if JoinsRows(a, b, bitsA, bitsB, m) && m.left in LeaderRows(m0) then 1 else 0
    ensures ValuesSorted(m0) && ValuesSorted(m1) ==>
              (ok <==> FirstUnmatched(m0, m1)) && (ok ==> JoinedOnce(a, b, bitsA, bitsB, ms))
  {
    hide Selects, JoinedOnce, JoinedAtMostOnce, JoinsRows, LoopMatches, MergeMatches, ValuesSorted, FirstUnmatched, Leaders,
         LeaderRows, Collected;
    ok, ms := SortJoin.SortJoin(jv1, jv2, m0, m1);
    if ok {
      LoopJoinedAtMostOnce(a, b, bitsA, bitsB, m0, m1, ms);
      if ValuesSorted(m1) {
        LeadersJoinedOnce(a, b, bitsA, bitsB, m0, m1, ms);
        if ValuesSorted(m0) {
          LoopJoinedOnce(a, b, bitsA, bitsB, m0, m1, ms);
        }
      }
    }
  }

  /** The positions of the rows not smaller than any row before them. */
  function LeaderRows(m: seq<Pair>): seq<nat> {
    seq(|Leaders(m)|, i requires 0 <= i < |Leaders(m)| => Leaders(m)[i].pos)
  }

  /** The leaders are rows of the side, at distinct positions if the side's are. */
  lemma {:induction false} LeadersOf(m: seq<Pair>)
    ensures forall x :: x in Leaders(m) ==> x in m
    ensures DistinctPositions(m) ==> DistinctPositions(Leaders(m))
  {
    hide Leads;
    if m != [] {
      var front, x := m[..|m| - 1], m[|m| - 1];
      LeadersOf(front);
      assert m == front + [x];
      if DistinctPositions(m) {
        forall y | y in Leaders(front)
          ensures y.pos != x.pos
        {
          assert y in front;
        }
      }
    }
  }

  lemma LeadersJoinedOnce(a: seq<int>, b: seq<int>, bitsA: seq<bool>, bitsB: seq<bool>, x: seq<Pair>, y: seq<Pair>, ms: seq<Match>)
    requires Selects(a, bitsA, x) && Selects(b, bitsB, y) && multiset(ms) == multiset(LoopMatches(Leaders(x), y))
    ensures forall m :: multiset(ms)[m] == if JoinsRows(a, b, bitsA, bitsB, m) && m.left in LeaderRows(x) then 1 else 0
  {
    hide LoopMatches, JoinsRows, Leaders, Equates;
    LeadersOf(x);
    MarkedPairsDistinct(a, bitsA);
    MarkedPairsDistinct(b, bitsB);
    DistinctPermuted(PairsAt(a, MarkedRows(bitsA, |a|)), x);
    DistinctPermuted(PairsAt(b, MarkedRows(bitsB, |b|)), y);
    forall m
      ensures multiset(ms)[m] == if JoinsRows(a, b, bitsA, bitsB, m) && m.left in LeaderRows(x) then 1 else 0
    {
      EquatesSelected(a, b, bitsA, bitsB, x, y, m);
      LoopOnce(Leaders(x), y, m);
      LeaderEquates(x, y, m);
    }
  }

  /** A leading row is part of a match exactly when its position is. */
  lemma LeaderEquates(x: seq<Pair>, y: seq<Pair>, m: Match)
    requires DistinctPositions(x) && forall z :: z in Leaders(x) ==> z in x
    ensures Equates(Leaders(x), y, m) <==> Equates(x, y, m) && m.left in LeaderRows(x)
  {
    hide Leaders;
    var ls := Leaders(x);
    if Equates(ls, y, m) {
      var i :| 0 <= i < |ls| && EquatesRow(ls[i], y, m);
      assert ls[i] in x;
      var k :| 0 <= k < |x| && x[k] == ls[i];
      assert EquatesRow(x[k], y, m) && LeaderRows(x)[i] == m.left;
    }
    if Equates(x, y, m) && m.left in LeaderRows(x) {
      var k :| 0 <= k < |x| && EquatesRow(x[k], y, m);
      var i :| 0 <= i < |ls| && LeaderRows(x)[i] == m.left;
      assert ls[i] in x;
      var j :| 0 <= j < |x| && x[j] == ls[i];
      assert x[j].pos == x[k].pos;
      assert j == k;
      assert EquatesRow(ls[i], y, m);
    }
  }

  /** The tree join of a column that the tree holds with the materialised rows of another. */
  lemma TreeJoinedOnce(stock: seq<Record>, a: seq<int>, b: seq<int>, bitsA: seq<bool>, bitsB: seq<bool>, vals: seq<Pair>)
    requires multiset(stock) == multiset(Indexed(a, 0)) && |a| <= |bitsA| && Selects(b, bitsB, vals)
    ensures JoinedOnce(a, b, bitsA, bitsB, TreeMatches(stock, bitsA, vals))
  {
    hide JoinedOnce, LoopMatches, TreeMatches, Indexed, MarkedRows;
    TreeJoinIsLoop(stock, a, bitsA, vals);
    LoopJoinedOnce(a, b, bitsA, bitsB, PairsAt(a, MarkedRows(bitsA, |a|)), vals, TreeMatches(stock, bitsA, vals));
  }
}
