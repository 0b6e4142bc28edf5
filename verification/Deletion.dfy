/** Deleting rows by moving the last row into their place, helper_updates.c. */
module Deletion {
  import opened BitVectors
  import opened Columns

  /** One deletion: the last element replaces the one at p, and the sequence gets shorter.
      A position outside only shortens it. */
  function Drop<T>(s: seq<T>, p: nat): seq<T>
    requires s != []
  {
    (if p < |s| then s[p := s[|s| - 1]] else s)[..|s| - 1]
  }

  /** Deletions one after the other. */
  function DropAll<T>(s: seq<T>, pos: seq<nat>): (r: seq<T>)
    requires |pos| <= |s|
    ensures |r| == |s| - |pos|
  {
    if pos == [] then s else Drop(DropAll(s, pos[..|pos| - 1]), pos[|pos| - 1])
  }

  /** The old row behind every new row; it depends on the length and the positions only. */
  function RowMap(n: nat, pos: seq<nat>): (rows: seq<nat>)
    requires |pos| <= n
    ensures |rows| == n - |pos| && RowsInside(rows, n)
  {
    DropAllInside(Rows(0, n), pos, n);
    DropAll(Rows(0, n), pos)
  }

  lemma {:induction false} DropAllInside(rows: seq<nat>, pos: seq<nat>, n: nat)
    requires |pos| <= |rows| && RowsInside(rows, n)
    ensures RowsInside(DropAll(rows, pos), n)
  {
    if pos != [] {
      DropAllInside(rows, pos[..|pos| - 1], n);
    }
  }

  lemma DropAllMore<T>(s: seq<T>, pos: seq<nat>, u: nat)
    requires u < |pos| <= |s|
    ensures DropAll(s, pos[..u + 1]) == Drop(DropAll(s, pos[..u]), pos[u])
  {
    assert pos[..u + 1][..u] == pos[..u];
  }

  /** Deleting from a column is deleting from its row numbers: one map serves every column
      of the same length, so rows stay aligned. */
  lemma {:induction false} DropsByMap(s: seq<int>, pos: seq<nat>)
    requires |pos| <= |s|
    ensures DropAll(s, pos) == ValuesAt(s, RowMap(|s|, pos))
  {
    if pos != [] {
      DropsByMap(s, pos[..|pos| - 1]);
    }
  }

  // ----- which rows survive -----

  /** Each surviving row once, and no deleted one. */
  ghost predicate Survive(n: nat, pos: seq<nat>, rows: seq<nat>) {
    && (forall i, j :: 0 <= i < j < |rows| ==> rows[i] != rows[j])
    && (forall r :: r in rows <==> 0 <= r < n && r !in pos)
  }

  /** At each step the position still holds its own row. */
  ghost predicate Undisturbed(n: nat, pos: seq<nat>) {
    && |pos| <= n
    && forall u :: 0 <= u < |pos| ==> pos[u] < n - u && RowMap(n, pos[..u])[pos[u]] == pos[u]
  }

  lemma {:induction false} UndisturbedSurvive(n: nat, pos: seq<nat>)
    requires Undisturbed(n, pos)
    ensures Survive(n, pos, RowMap(n, pos))
  {
    hide RowMap, Drop;
    if pos == [] {
      NothingDropped(n);
    } else {
      var front, p := pos[..|pos| - 1], pos[|pos| - 1];
      forall u | 0 <= u < |front|
        ensures front[u] < n - u && RowMap(n, front[..u])[front[u]] == front[u]
      {
        assert front[..u] == pos[..u];
      }
      UndisturbedSurvive(n, front);
      RowMapStep(n, pos);
      DropKeepsOthers(RowMap(n, front), p);
      assert pos == front + [p];
    }
  }

  lemma NothingDropped(n: nat)
    ensures Survive(n, [], RowMap(n, []))
  {
    forall r: nat | r < n
      ensures r in Rows(0, n)
    {
      assert Rows(0, n)[r] == r;
    }
  }

  lemma RowMapStep(n: nat, pos: seq<nat>)
    requires pos != [] && |pos| <= n
    ensures RowMap(n, pos[..|pos| - 1]) != []
    ensures RowMap(n, pos) == Drop(RowMap(n, pos[..|pos| - 1]), pos[|pos| - 1])
  {
  }

  /** Dropping an element from distinct ones removes exactly that one. */
  lemma DropKeepsOthers(s: seq<nat>, p: nat)
    requires p < |s| && s[p] == p && forall i, j :: 0 <= i < j < |s| ==> s[i] != s[j]
    ensures forall i, j :: 0 <= i < j < |Drop(s, p)| ==> Drop(s, p)[i] != Drop(s, p)[j]
    ensures forall r :: r in Drop(s, p) <==> r in s && r != p
  {
  }

  /** A position that was not touched yet holds its own row. */
  lemma {:induction false} Untouched(n: nat, pos: seq<nat>, p: nat)
    requires p + |pos| < n && p !in pos
    ensures RowMap(n, pos)[p] == p
  {
    if pos != [] {
      var front := pos[..|pos| - 1];
      assert pos == front + [pos[|pos| - 1]];
      Untouched(n, front, p);
    }
  }

  /** Strictly descending positions delete exactly their rows. */
  lemma DescendingWorks(n: nat, pos: seq<nat>)
    requires |pos| <= n && (forall u :: 0 <= u < |pos| ==> pos[u] < n)
    requires forall u, v :: 0 <= u < v < |pos| ==> pos[u] > pos[v]
    ensures Survive(n, pos, RowMap(n, pos))
  {
    forall u | 0 <= u < |pos|
      ensures pos[u] < n - u && RowMap(n, pos[..u])[pos[u]] == pos[u]
    {
      DescendsFast(pos, u);
      Untouched(n, pos[..u], pos[u]);
    }
    UndisturbedSurvive(n, pos);
  }

  lemma {:induction false} DescendsFast(pos: seq<nat>, u: nat)
    requires u < |pos| && forall u, v :: 0 <= u < v < |pos| ==> pos[u] > pos[v]
    ensures pos[u] + u <= pos[0]
  {
    if u > 0 {
      DescendsFast(pos, u - 1);
    }
  }

  /** Distinct positions that all lie before the rows that move delete exactly their rows. */
  lemma DistinctLowWorks(n: nat, pos: seq<nat>)
    requires |pos| <= n && (forall u :: 0 <= u < |pos| ==> pos[u] < n - |pos|)
    requires forall u, v :: 0 <= u < v < |pos| ==> pos[u] != pos[v]
    ensures Survive(n, pos, RowMap(n, pos))
  {
    forall u | 0 <= u < |pos|
      ensures pos[u] < n - u && RowMap(n, pos[..u])[pos[u]] == pos[u]
    {
      Untouched(n, pos[..u], pos[u]);
    }
    UndisturbedSurvive(n, pos);
  }

  // ----- ascending positions, as a vector yields them -----

  /** How many of the positions lie in the part that remains. */
  function Holes(pos: seq<nat>, limit: nat): (h: nat)
    ensures h <= |pos|
  {
    if pos == [] || pos[0] >= limit then 0 else 1 + Holes(pos[1..], limit)
  }

  lemma {:induction false} HolesAre(pos: seq<nat>, limit: nat)
    requires RowsAscend(pos)
    ensures forall u :: 0 <= u < |pos| ==> (pos[u] < limit <==> u < Holes(pos, limit))
  {
    if pos != [] && pos[0] < limit {
      HolesAre(pos[1..], limit);
      forall u | 0 <= u < |pos|
        ensures pos[u] < limit <==> u < Holes(pos, limit)
      {
        assert u > 0 ==> pos[1..][u - 1] == pos[u];
      }
    }
  }

  /** What ascending deletion leaves: a position that is not deleted keeps its row, and
      the u-th deleted position receives the u-th row from the end. */
  lemma {:induction false} AscendingMap(n: nat, pos: seq<nat>, i: nat)
    requires RowsAscend(pos) && i + |pos| < n
    ensures i !in pos ==> RowMap(n, pos)[i] == i
    ensures forall u :: 0 <= u < |pos| && pos[u] == i ==> RowMap(n, pos)[i] == n - 1 - u
  {
    hide RowMap;
    if pos == [] {
      NothingMoved(n, i);
    } else {
      var front, w := pos[..|pos| - 1], |pos| - 1;
      assert pos == front + [pos[w]];
      AscendingMap(n, front, i);
      RowMapStep(n, pos);
      if pos[w] == i {
        Untouched(n, front, n - 1 - w);
      }
    }
  }

  /** Ascending positions that have no room to spare fill it. */
  lemma {:induction false} Packed(pos: seq<nat>, lo: nat, u: nat)
    requires RowsAscend(pos) && u < |pos| && forall v :: 0 <= v < |pos| ==> lo <= pos[v] < lo + |pos|
    ensures pos[u] == lo + u
  {
    Climbs(pos, lo, u);
    Climbs(pos[u..], pos[u], |pos| - 1 - u);
  }

  lemma {:induction false} Climbs(pos: seq<nat>, lo: nat, u: nat)
    requires RowsAscend(pos) && u < |pos| && lo <= pos[0]
    ensures lo + u <= pos[u]
  {
    if u > 0 {
      Climbs(pos, lo, u - 1);
    }
  }

  /** Deleting ascending positions is right exactly when no row that moves forward is
      itself deleted: h holes in the remaining part are filled by the last h rows. */
  lemma AscendingExact(n: nat, pos: seq<nat>)
    requires RowsAscend(pos) && |pos| <= n && (forall u :: 0 <= u < |pos| ==> pos[u] < n)
    ensures var h := Holes(pos, n - |pos|);
            Survive(n, pos, RowMap(n, pos)) <==> h == 0 || pos[|pos| - 1] < n - h
  {
    var k, h, rows := |pos|, Holes(pos, n - |pos|), RowMap(n, pos);
    HolesAre(pos, n - k);
    if h > 0 && pos[k - 1] >= n - h {
      var u := n - 1 - pos[k - 1];
      AscendingMap(n, pos, pos[u]);
      assert rows[pos[u]] == pos[k - 1] && rows[pos[u]] in rows;
    } else {
      AscendingRight(n, pos, h);
    }
  }

  /** Deleting the rows a vector marks. */
  lemma MarkedDeletion(bits: seq<bool>, n: nat)
    requires n <= |bits|
    ensures |MarkedRows(bits, n)| <= n
    ensures var pos := MarkedRows(bits, n);
            var h := Holes(pos, n - |pos|);
            Survive(n, pos, RowMap(n, pos)) <==> h == 0 || pos[|pos| - 1] < n - h
  {
    var pos := MarkedRows(bits, n);
    MarkedExact(bits, n);
    MarkedCount(bits, n);
    CountBound(bits[..n]);
    forall u | 0 <= u < |pos|
      ensures pos[u] < n
    {
      assert pos[u] in pos;
    }
    AscendingExact(n, pos);
  }

  /** The rows behind the holes are all deleted. */
  lemma TailDeleted(n: nat, pos: seq<nat>, h: nat, r: nat)
    requires RowsAscend(pos) && h <= |pos| <= n && (forall u :: 0 <= u < |pos| ==> pos[u] < n - h)
    requires forall u :: 0 <= u < |pos| ==> (pos[u] < n - |pos| <==> u < h)
    requires n - |pos| <= r < n - h
    ensures r in pos
  {
    var tail, lo := pos[h..], n - |pos|;
    Packed(tail, lo, r - lo);
    assert pos[h + (r - lo)] == r;
  }

  lemma AscendingRight(n: nat, pos: seq<nat>, h: nat)
    requires RowsAscend(pos) && h <= |pos| <= n
    requires forall u :: 0 <= u < |pos| ==> pos[u] < n - h
    requires forall u :: 0 <= u < |pos| ==> (pos[u] < n - |pos| <==> u < h)
    ensures Survive(n, pos, RowMap(n, pos))
  {
    hide RowMap;
    var rows, k := RowMap(n, pos), |pos|;
    forall i | 0 <= i < n - k
      ensures i !in pos ==> rows[i] == i
      ensures forall u :: 0 <= u < |pos| && pos[u] == i ==> rows[i] == n - 1 - u && u < h
    {
      AscendingMap(n, pos, i);
    }
    forall r
      ensures r in rows <==> 0 <= r < n && r !in pos
    {
      if 0 <= r < n && r !in pos {
        if r < n - k {
          assert rows[r] == r;
        } else if r < n - h {
          TailDeleted(n, pos, h, r);
          assert false;
        } else {
          assert rows[pos[n - 1 - r]] == r;
        }
      }
    }
  }

  // ----- positions in any order -----

  /** Where r is among the positions, or their number. */
  function Find(pos: seq<nat>, r: nat): (v: nat)
    ensures v <= |pos|
    ensures v < |pos| ==> pos[v] == r
    ensures v == |pos| ==> r !in pos
  {
    if pos == [] then 0
    else
      var front := pos[..|pos| - 1];
      if pos[|front|] == r then |front|
      else if Find(front, r) < |front| then Find(front, r)
      else |pos|
  }

  /** The row that the u-th deletion moves: the last one, or whatever an earlier deletion has
      moved into its place. */
  function Mover(n: nat, pos: seq<nat>, u: nat): (m: nat)
    requires u < |pos| <= n
    ensures m < n
    decreases u
  {
    var v := Find(pos[..u], n - 1 - u);
    if v < u then Mover(n, pos, v) else n - 1 - u
  }

  ghost predicate DistinctRows(rows: seq<nat>) {
    forall i, j :: 0 <= i < j < |rows| ==> rows[i] != rows[j]
  }

  /** No deletion moves a row that is itself deleted into a place that remains. */
  ghost predicate MovesSurvivors(n: nat, pos: seq<nat>)
    requires |pos| <= n
  {
    forall u :: 0 <= u < |pos| && pos[u] < n - |pos| ==> Mover(n, pos, u) !in pos
  }

  lemma {:induction false} MoverOfFront(n: nat, pos: seq<nat>, w: nat, u: nat)
    requires u < w <= |pos| <= n
    ensures Mover(n, pos[..w], u) == Mover(n, pos, u)
    decreases u
  {
    assert pos[..w][..u] == pos[..u];
    var v := Find(pos[..u], n - 1 - u);
    if v < u {
      MoverOfFront(n, pos, w, v);
    }
  }

  lemma NothingMoved(n: nat, i: nat)
    requires i < n
    ensures RowMap(n, [])[i] == i
  {
  }

  lemma MoverIs(n: nat, pos: seq<nat>, u: nat)
    requires u < |pos| <= n
    ensures var v := Find(pos[..u], n - 1 - u); Mover(n, pos, u) == if v < u then Mover(n, pos, v) else n - 1 - u
  {
  }

  /** With distinct positions, what each place holds in the end. */
  lemma {:induction false} MapOfMovers(n: nat, pos: seq<nat>, i: nat)
    requires DistinctRows(pos) && i + |pos| < n
    ensures i !in pos ==> RowMap(n, pos)[i] == i
    ensures forall u :: 0 <= u < |pos| && pos[u] == i ==> RowMap(n, pos)[i] == Mover(n, pos, u)
  {
    hide RowMap, Mover;
    if pos == [] {
      NothingMoved(n, i);
    } else {
      var front, w := pos[..|pos| - 1], |pos| - 1;
      MapOfMovers(n, front, i);
      RowMapStep(n, pos);
      assert pos == front + [pos[w]];
      if pos[w] == i {
        MapOfMovers(n, front, n - 1 - w);
        var v := Find(front, n - 1 - w);
        if v < w {
          MoverOfFront(n, pos, w, v);
        }
        MoverIs(n, pos, w);
        assert forall u :: 0 <= u < |pos| && pos[u] == i ==> u == w;
      } else {
        forall u | 0 <= u < |pos| && pos[u] == i
          ensures RowMap(n, pos)[i] == Mover(n, pos, u)
        {
          MoverOfFront(n, pos, w, u);
        }
      }
    }
  }

  /** All cells of the file, the freed ones included, after the deletions. */
  function CellsAfter(cells: seq<int>, n: nat, pos: seq<nat>): (r: seq<int>)
    requires |pos| <= n <= |cells| && RowsInside(pos, n)
    ensures |r| == |cells|
  {
    if pos == [] then cells
    else
      var w := |pos| - 1;
      var front := CellsAfter(cells, n, pos[..w]);
      front[pos[w] := front[n - 1 - w]]
  }

  lemma CellsMore(cells: seq<int>, n: nat, pos: seq<nat>, u: nat)
    requires u < |pos| <= n <= |cells| && RowsInside(pos, n)
    ensures RowsInside(pos[..u], n) && RowsInside(pos[..u + 1], n)
    ensures CellsAfter(cells, n, pos[..u + 1]) == CellsAfter(cells, n, pos[..u])[pos[u] := CellsAfter(cells, n, pos[..u])[n - 1 - u]]
  {
    assert pos[..u + 1][..u] == pos[..u];
  }

  /** With distinct positions every cell of the file, freed or not, keeps its value, or has the
      one that the chain of moves brings to its position. */
  lemma {:induction false} CellsOfMovers(cells: seq<int>, n: nat, pos: seq<nat>)
    requires DistinctRows(pos) && |pos| <= n <= |cells| && RowsInside(pos, n)
    ensures forall k :: 0 <= k < |cells| && k !in pos ==> CellsAfter(cells, n, pos)[k] == cells[k]
    ensures forall u :: 0 <= u < |pos| ==> CellsAfter(cells, n, pos)[pos[u]] == cells[Mover(n, pos, u)]
  {
    hide Mover, CellsAfter, DistinctRows;
    if pos == [] {
      CellsStay(cells, n);
    } else {
      var front, w := pos[..|pos| - 1], |pos| - 1;
      DistinctFront(pos);
      CellsOfMovers(cells, n, front);
      LastMover(cells, n, pos);
      CellsLast(cells, n, pos);
      forall u | 0 <= u < w
        ensures CellsAfter(cells, n, pos)[pos[u]] == cells[Mover(n, pos, u)]
      {
        assert pos[u] == front[u] != pos[w];
        MoverOfFront(n, pos, w, u);
      }
    }
  }

  lemma DistinctFront(pos: seq<nat>)
    requires pos != [] && DistinctRows(pos)
    ensures DistinctRows(pos[..|pos| - 1]) && forall u :: 0 <= u < |pos| - 1 ==> pos[u] != pos[|pos| - 1]
  {
  }

  lemma CellsLast(cells: seq<int>, n: nat, pos: seq<nat>)
    requires pos != [] && |pos| <= n <= |cells| && RowsInside(pos, n)
    ensures var before := CellsAfter(cells, n, pos[..|pos| - 1]);
            CellsAfter(cells, n, pos) == before[pos[|pos| - 1] := before[n - |pos|]]
  {
  }

  lemma CellsStay(cells: seq<int>, n: nat)
    requires n <= |cells|
    ensures CellsAfter(cells, n, []) == cells
  {
  }

  /** The cell that the last deletion reads. */
  lemma LastMover(cells: seq<int>, n: nat, pos: seq<nat>)
    requires pos != [] && DistinctRows(pos) && |pos| <= n <= |cells| && RowsInside(pos, n) && RowsInside(pos[..|pos| - 1], n)
    requires var front := pos[..|pos| - 1];
             && (forall k :: 0 <= k < |cells| && k !in front ==> CellsAfter(cells, n, front)[k] == cells[k])
             && (forall u :: 0 <= u < |front| ==> CellsAfter(cells, n, front)[front[u]] == cells[Mover(n, front, u)])
    ensures CellsAfter(cells, n, pos[..|pos| - 1])[n - |pos|] == cells[Mover(n, pos, |pos| - 1)]
  {
    hide Mover, CellsAfter;
    var front, w := pos[..|pos| - 1], |pos| - 1;
    MoverIs(n, pos, w);
    var v := Find(front, n - 1 - w);
    if v < w {
      MoverOfFront(n, pos, w, v);
    }
  }

  /** What deleting k times at position 0 leaves of some rows. */
  function AfterZeros(rows: seq<nat>, k: nat): seq<nat>
    requires k <= |rows|
  {
    if k == 0 then rows else if k == |rows| then [] else [rows[|rows| - k]] + rows[1..|rows| - k]
  }

  /** Positions followed by zeros: after the deletions proper, as many rows more are lost, the
      first of those left and the last ones, but for one that takes the first place. */
  lemma {:induction false} ZerosBehind(n: nat, pos: seq<nat>, zeros: seq<nat>)
    requires |pos| + |zeros| <= n && forall i :: 0 <= i < |zeros| ==> zeros[i] == 0
    ensures RowMap(n, pos + zeros) == AfterZeros(RowMap(n, pos), |zeros|)
  {
    hide RowMap, Drop, AfterZeros;
    if zeros == [] {
      assert pos + zeros == pos;
      NoZeros(RowMap(n, pos));
    } else {
      var front := zeros[..|zeros| - 1];
      ZerosBehind(n, pos, front);
      assert (pos + zeros)[..|pos + zeros| - 1] == pos + front;
      RowMapStep(n, pos + zeros);
      OneZeroMore(RowMap(n, pos), |front|);
    }
  }

  lemma NoZeros(rows: seq<nat>)
    ensures AfterZeros(rows, 0) == rows
  {
  }

  lemma OneZeroMore(rows: seq<nat>, k: nat)
    requires k < |rows|
    ensures AfterZeros(rows, k) != [] && Drop(AfterZeros(rows, k), 0) == AfterZeros(rows, k + 1)
  {
    var s, n := AfterZeros(rows, k), |rows|;
    assert |s| == n - k && s[n - k - 1] == if k + 1 < n then rows[n - k - 1] else s[0];
    var d, t := Drop(s, 0), AfterZeros(rows, k + 1);
    assert |d| == |t| == n - k - 1;
    forall i | 0 <= i < n - k - 1
      ensures d[i] == t[i]
    {
      assert d[i] == if i == 0 then s[n - k - 1] else s[i];
    }
  }

  /** No row is ever held twice. */
  lemma {:induction false} NeverTwice(n: nat, pos: seq<nat>)
    requires |pos| <= n
    ensures DistinctRows(RowMap(n, pos))
  {
    hide RowMap, Drop;
    if pos == [] {
      NothingDropped(n);
    } else {
      NeverTwice(n, pos[..|pos| - 1]);
      RowMapStep(n, pos);
      DropDistinct(RowMap(n, pos[..|pos| - 1]), pos[|pos| - 1]);
    }
  }

  lemma DropDistinct(s: seq<nat>, p: nat)
    requires s != [] && DistinctRows(s)
    ensures DistinctRows(Drop(s, p))
  {
  }

  function Elements(rows: seq<nat>): set<nat> {
    if rows == [] then {} else Elements(rows[..|rows| - 1]) + {rows[|rows| - 1]}
  }

  function Numbers(n: nat): set<nat> {
    if n == 0 then {} else Numbers(n - 1) + {n - 1}
  }

  lemma {:induction false} ElementsAre(rows: seq<nat>)
    ensures forall r :: r in Elements(rows) <==> r in rows
    ensures |Elements(rows)| <= |rows|
    ensures |Elements(rows)| == |rows| <==> DistinctRows(rows)
  {
    if rows != [] {
      var front, x := rows[..|rows| - 1], rows[|rows| - 1];
      ElementsAre(front);
      assert rows == front + [x];
      if x in front {
        assert Elements(rows) == Elements(front);
        var i :| 0 <= i < |front| && front[i] == x;
        assert rows[i] == rows[|rows| - 1];
      }
    }
  }

  lemma {:induction false} NumbersAre(n: nat)
    ensures |Numbers(n)| == n && forall r: nat :: r in Numbers(n) <==> r < n
  {
    if n > 0 {
      NumbersAre(n - 1);
    }
  }

  /** Distinct undeleted rows are all of them exactly when there are as many as the distinct
      positions leave. */
  lemma AllThere(n: nat, pos: seq<nat>, rows: seq<nat>)
    requires DistinctRows(rows) && forall u :: 0 <= u < |pos| ==> pos[u] < n
    requires forall r :: r in rows ==> r < n && r !in pos
    ensures Survive(n, pos, rows) <==> |rows| + |Elements(pos)| == n
  {
    ElementsAre(rows);
    ElementsAre(pos);
    NumbersAre(n);
    var rest := Numbers(n) - Elements(pos);
    assert Elements(pos) <= Numbers(n);
    assert |rest| + |Elements(pos)| == n;
    SameSize(Elements(rows), rest);
    if Survive(n, pos, rows) {
      assert Elements(rows) == rest;
    }
    if |rows| == |rest| {
      forall r
        ensures r in rows <==> 0 <= r < n && r !in pos
      {
        assert r in rows <==> r in Elements(rows);
      }
    }
  }

  lemma SameSize(a: set<nat>, b: set<nat>)
    requires a <= b
    ensures |a| == |b| <==> a == b
  {
    assert |b| == |a| + |b - a|;
  }

  /** Deleting at any positions inside the column keeps exactly the other rows, each once, if
      and only if the positions are distinct and no deleted row is moved into a place that
      remains. */
  lemma DeletionExact(n: nat, pos: seq<nat>)
    requires |pos| <= n && forall u :: 0 <= u < |pos| ==> pos[u] < n
    ensures Survive(n, pos, RowMap(n, pos)) <==> DistinctRows(pos) && MovesSurvivors(n, pos)
  {
    hide RowMap, Mover, Elements;
    var rows := RowMap(n, pos);
    NeverTwice(n, pos);
    ElementsAre(pos);
    if Survive(n, pos, rows) {
      AllThere(n, pos, rows);
      forall u | 0 <= u < |pos| && pos[u] < n - |pos|
        ensures Mover(n, pos, u) !in pos
      {
        MapOfMovers(n, pos, pos[u]);
        assert rows[pos[u]] in rows;
      }
    }
    if DistinctRows(pos) && MovesSurvivors(n, pos) {
      forall r | r in rows
        ensures r < n && r !in pos
      {
        var i :| 0 <= i < |rows| && rows[i] == r;
        MapOfMovers(n, pos, i);
        var u := Find(pos, i);
      }
      AllThere(n, pos, rows);
    }
  }

  /** Of three rows, deleting the first and the last keeps the last instead of the second. */
  lemma WrongRowSurvives()
    ensures !Survive(3, [0, 2], RowMap(3, [0, 2]))
  {
    AscendingExact(3, [0, 2]);
    assert Holes([0, 2], 1) == 1 + Holes([2], 1);
  }
}
