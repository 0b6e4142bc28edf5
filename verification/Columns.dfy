/** Columns as plain sequences of values, rows of a column as positions in it: what the
    scans, fetches and positional updates of the store mean. */
module Columns {
  import opened Bounds
  import opened BitVectors
  import opened Records

  function Min(x: int, y: int): int {
    if x < y then x else y
  }

  /** Row numbers from..to. */
  function Rows(from: nat, to: nat): seq<nat>
    requires from <= to
  {
    seq(to - from, k requires 0 <= k < to - from => from + k)
  }

  ghost predicate RowsAscend(rows: seq<nat>) {
    forall i, j :: 0 <= i < j < |rows| ==> rows[i] < rows[j]
  }

  lemma AscendMore(rows: seq<nat>, r: nat)
    requires RowsAscend(rows) && forall x :: x in rows ==> x < r
    ensures RowsAscend(rows + [r])
  {
    forall i | 0 <= i < |rows|
      ensures rows[i] < r
    {
      assert rows[i] in rows;
    }
  }

  /** The values of a column with their row numbers, from a row on. */
  function Indexed(s: seq<int>, from: nat): seq<Record>
    requires from <= |s|
  {
    seq(|s| - from, k requires 0 <= k < |s| - from => Record(s[from + k], from + k))
  }

  lemma IndexedAt(s: seq<int>, from: nat)
    requires from <= |s|
    ensures |Indexed(s, from)| == |s| - from
    ensures forall k :: 0 <= k < |s| - from ==> Indexed(s, from)[k] == Record(s[from + k], from + k)
  {
  }

  lemma IndexedSplit(s: seq<int>, from: nat, to: nat)
    requires from <= to <= |s|
    ensures |Indexed(s, from)| == |s| - from
    ensures Indexed(s, from) == Indexed(s, from)[..to - from] + Indexed(s, to)
  {
  }

  lemma IndexedSorted(s: seq<int>)
    requires Sorted(s)
    ensures KeysSorted(Indexed(s, 0))
  {
  }

  // ----- the full scan -----

  /** The reference selection of a column: the rows whose value lies in the range. */
  function ScanRows(s: seq<int>, low: int, high: int): seq<nat> {
    Select(Indexed(s, 0), low, high)
  }

  /** One more row is scanned. */
  lemma ScanMore(s: seq<int>, k: nat, low: int, high: int)
    requires k < |s|
    ensures ScanRows(s[..k + 1], low, high)
         == ScanRows(s[..k], low, high) + if low <= s[k] <= high then [k] else []
  {
    var one := [Record(s[k], k)];
    assert Indexed(s[..k + 1], 0) == Indexed(s[..k], 0) + one;
    SelectConcat(Indexed(s[..k], 0), one, low, high);
    assert one[1..] == [];
    assert Select(one, low, high) == if low <= s[k] <= high then [k] else [];
  }

  /** The scan lists exactly the matching rows, in ascending order, each once. */
  lemma {:induction false} ScanExact(s: seq<int>, low: int, high: int, k: nat)
    requires k <= |s|
    ensures RowsAscend(ScanRows(s[..k], low, high))
    ensures forall r :: r in ScanRows(s[..k], low, high) <==> 0 <= r < k && low <= s[r] <= high
  {
    hide ScanRows;
    if k == 0 {
      ScanNothing(s[..0], low, high);
    } else {
      ScanExact(s, low, high, k - 1);
      ScanMore(s, k - 1, low, high);
      AscendMore(ScanRows(s[..k - 1], low, high), k - 1);
    }
  }

  lemma ScanNothing(s: seq<int>, low: int, high: int)
    requires forall k :: 0 <= k < |s| ==> !(low <= s[k] <= high)
    ensures ScanRows(s, low, high) == []
  {
    SelectNothing(Indexed(s, 0), low, high);
  }

  lemma RowsMore(from: nat, to: nat)
    requires from <= to
    ensures Rows(from, to + 1) == Rows(from, to) + [to]
  {
  }

  /** In a sorted column the matching rows are consecutive. */
  lemma {:induction false} ScanSorted(s: seq<int>, low: int, high: int, from: nat, to: nat, k: nat)
    requires from <= to <= |s| && k <= |s|
    requires forall i :: 0 <= i < |s| ==> (low <= s[i] <= high <==> from <= i < to)
    ensures ScanRows(s[..k], low, high) == if k <= from then [] else Rows(from, Min(k, to))
  {
    hide ScanRows, Rows;
    if k == 0 {
      ScanNothing(s[..0], low, high);
    } else {
      ScanSorted(s, low, high, from, to, k - 1);
      ScanMore(s, k - 1, low, high);
      NoRowsAt(from);
      if from < k <= to {
        RowsMore(from, k - 1);
      }
    }
  }

  lemma NoRowsAt(from: nat)
    ensures Rows(from, from) == []
  {
  }

  // ----- marked rows -----

  /** The marked rows below n, ascending. */
  function MarkedRows(bits: seq<bool>, n: nat): (rows: seq<nat>)
    requires n <= |bits|
  {
    if n == 0 then [] else MarkedRows(bits, n - 1) + if bits[n - 1] then [n - 1] else []
  }

  lemma {:induction false} MarkedExact(bits: seq<bool>, n: nat)
    requires n <= |bits|
    ensures RowsAscend(MarkedRows(bits, n))
    ensures forall r :: r in MarkedRows(bits, n) <==> 0 <= r < n && bits[r]
  {
    if n > 0 {
      MarkedExact(bits, n - 1);
      AscendMore(MarkedRows(bits, n - 1), n - 1);
    }
  }

  lemma {:induction false} MarkedCount(bits: seq<bool>, n: nat)
    requires n <= |bits|
    ensures |MarkedRows(bits, n)| == CountTrue(bits[..n])
  {
    if n > 0 {
      MarkedCount(bits, n - 1);
      assert bits[..n][..n - 1] == bits[..n - 1];
    }
  }

  /** Ascending rows are determined by which rows they contain. */
  lemma {:induction false} AscendingUnique(a: seq<nat>, b: seq<nat>)
    requires RowsAscend(a) && RowsAscend(b)
    requires forall r :: r in a <==> r in b
    ensures a == b
  {
    if a != [] && b != [] {
      var x, y := a[|a| - 1], b[|b| - 1];
      assert x in b && y in a;
      assert x == y;
      var c, d := a[..|a| - 1], b[..|b| - 1];
      assert a == c + [x] && b == d + [y];
      forall r
        ensures r in c <==> r in d
      {
        assert r in c ==> r in a && r != x;
        assert r in d ==> r in b && r != y;
      }
      AscendingUnique(c, d);
    } else {
      NoneCommon(a, b);
    }
  }

  lemma NoneCommon(a: seq<nat>, b: seq<nat>)
    requires forall r :: r in a <==> r in b
    ensures a == [] <==> b == []
  {
    if a != [] {
      assert a[0] in b;
    }
    if b != [] {
      assert b[0] in a;
    }
  }

  /** Marking ascending rows in an empty vector and reading the marks back. */
  lemma MarkAndRead(bits: seq<bool>, rows: seq<nat>, n: nat)
    requires NoneMarked(bits) && n <= |bits| && RowsAscend(rows) && forall r :: r in rows ==> r < n
    ensures MarkedRows(MarkRows(bits, rows), n) == rows
  {
    var marked := MarkRows(bits, rows);
    MarkedExact(marked, n);
    forall r
      ensures r in MarkedRows(marked, n) <==> r in rows
    {
      if 0 <= r < n {
        MarkRowsBit(bits, rows, r);
      }
    }
    AscendingUnique(MarkedRows(marked, n), rows);
  }

  predicate RowsInside(rows: seq<nat>, n: nat) {
    forall i :: 0 <= i < |rows| ==> rows[i] < n
  }

  /** The values at some rows. */
  function ValuesAt(s: seq<int>, rows: seq<nat>): seq<int>
    requires RowsInside(rows, |s|)
  {
    seq(|rows|, i requires 0 <= i < |rows| => s[rows[i]])
  }
}
