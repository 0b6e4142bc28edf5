/** The three ways of selecting rows from a column file, helper_variable.c. */
module Selection {
  import opened Bounds
  import opened Words
  import opened BitVectors
  import opened Columns
  import opened ColumnFile

  /** The vector after the first k cells of s have been scanned. */
  ghost predicate Scanned(bv: BitVector, bits0: seq<bool>, count0: nat, s: seq<int>, k: nat, low: int, high: int, total: nat)
    reads bv, bv.vec
  {
    && k <= |s| && total == |ScanRows(s[..k], low, high)|
    && bv.Bits() == MarkRows(bits0, ScanRows(s[..k], low, high))
    && bv.count == (count0 + total) % UINT_END
  }

  /** Matching cells have a place in the vector. */
  ghost predicate Fits(bv: BitVector, s: seq<int>, low: int, high: int)
    reads bv
  {
    forall k :: 0 <= k < |s| && low <= s[k] <= high ==> k < 32 * bv.vec.Length
  }

  lemma ScanBegins(bits: seq<bool>, s: seq<int>, low: int, high: int)
    ensures ScanRows(s[..0], low, high) == [] && MarkRows(bits, []) == bits
  {
  }

  /** One cell of a scan. */
  method ScanCell(bv: BitVector, value: int, index: nat, low: int, high: int, total0: nat,
                  ghost s: seq<int>, ghost bits0: seq<bool>, ghost count0: nat)
    returns (total: nat)
    requires index < |s| && value == s[index] && Fits(bv, s, low, high)
    requires Scanned(bv, bits0, count0, s, index, low, high, total0)
    modifies bv`count, bv.vec
    ensures Scanned(bv, bits0, count0, s, index + 1, low, high, total)
  {
    hide ScanRows, Unpack, MarkRows;
    total := total0;
    ScanMore(s, index, low, high);
    if value >= low && value <= high {
      MarkOneMore(bits0, ScanRows(s[..index], low, high), index);
      bv.Mark(index);
      total := total + 1;
    } else {
      assert ScanRows(s[..index], low, high) + [] == ScanRows(s[..index], low, high);
    }
  }

  /** The plain scan. */
  method MarkUnsorted(c: Column, bv: BitVector, low: int, high: int) returns (total: nat)
    requires c.Valid() && bv.count < UINT_END && Fits(bv, c.Values(), low, high)
    modifies bv`count, bv.vec
    ensures total == |ScanRows(c.Values(), low, high)|
    ensures bv.Bits() == MarkRows(old(bv.Bits()), ScanRows(c.Values(), low, high))
    ensures bv.count == (old(bv.count) + total) % UINT_END
  {
    hide ScanRows, Unpack, MarkRows;
    ghost var bits0, count0, s := bv.Bits(), bv.count, c.Values();
    var buffer := c.Read(0, c.size);
    ScanBegins(bits0, s, low, high);
    total := 0;
    var j := 0;
    while j < c.size
      invariant 0 <= j <= c.size && Scanned(bv, bits0, count0, s, j, low, high, total)
    {
      total := ScanCell(bv, buffer[j], j, low, high, total, s, bits0, count0);
      j := j + 1;
    }
    assert s[..j] == s;
  }

  /** The scan block by block. */
  method MarkUnsortedBlocks(c: Column, bv: BitVector, low: int, high: int) returns (total: nat)
    requires c.Valid() && bv.count < UINT_END && Fits(bv, c.Window(), low, high)
    modifies bv`count, bv.vec
    ensures total == |ScanRows(c.Window(), low, high)|
    ensures bv.Bits() == MarkRows(old(bv.Bits()), ScanRows(c.Window(), low, high))
    ensures bv.count == (old(bv.count) + total) % UINT_END
  {
    hide ScanRows, Unpack, MarkRows, GetCeil;
    ghost var bits0, count0, s := bv.Bits(), bv.count, c.Window();
    ScanBegins(bits0, s, low, high);
    var blockCount := GetCeil(c.size, FILE_BLOCK_SIZE);
    total := 0;
    var u, cursor := 0, 0;
    while u < blockCount
      invariant 0 <= u <= blockCount && cursor == Min(u * FILE_BLOCK_SIZE, |c.cells|) <= |s|
      invariant Scanned(bv, bits0, count0, s, cursor, low, high, total)
    {
      BlockAt(c, u);
      var buffer := c.Read(cursor, FILE_BLOCK_SIZE);
      if |buffer| == 0 {
        assert false;  // the file holds at least `size` cells
      }
      var j := 0;
      while j < |buffer|
        invariant 0 <= j <= |buffer|
        invariant Scanned(bv, bits0, count0, s, u * FILE_BLOCK_SIZE + j, low, high, total)
      {
        var index := u * FILE_BLOCK_SIZE + j;
        total := ScanCell(bv, buffer[j], index, low, high, total, s, bits0, count0);
        j := j + 1;
      }
      cursor := cursor + |buffer|;
      u := u + 1;
    }
    assert s[..cursor] == s;
  }

  /** Both scans select the same rows exactly when no stale cell of the last block
      matches; in particular when there are no stale cells. */
  lemma BlocksAgree(c: Column, low: int, high: int)
    requires c.Valid()
    ensures ScanRows(c.Window(), low, high) == ScanRows(c.Values(), low, high)
       <==> forall k :: c.size <= k < |c.Window()| ==> !(low <= c.Window()[k] <= high)
  {
    WindowIsValues(c);
    StaleCells(c.Window(), c.size, low, high, |c.Window()|);
    assert c.Window()[..|c.Window()|] == c.Window();
  }

  lemma {:induction false} StaleCells(w: seq<int>, n: nat, low: int, high: int, m: nat)
    requires n <= m <= |w|
    ensures ScanRows(w[..m], low, high) == ScanRows(w[..n], low, high)
       <==> forall k :: n <= k < m ==> !(low <= w[k] <= high)
    ensures |ScanRows(w[..n], low, high)| <= |ScanRows(w[..m], low, high)|
    decreases m - n
  {
    hide ScanRows;
    if m > n {
      StaleCells(w, n, low, high, m - 1);
      ScanMore(w, m - 1, low, high);
      if !(low <= w[m - 1] <= high) {
        assert ScanRows(w[..m - 1], low, high) + [] == ScanRows(w[..m - 1], low, high);
      }
    }
  }

  // ----- sorted columns -----

  /** When the two binary searches and the range marking select what a scan selects: either
      something matches and the last matching row is not the last place of a word (unless
      it is the only match, or the oversized shift happens to yield 0); or nothing matches
      and the gap lies inside the column and inside a word. */
  predicate SortedWorks(n: nat, lower: nat, upper: nat, over: Word) {
    if lower < upper then upper == lower + 1 || (upper - 1) % 32 != 31 || over == 0
    else 0 < lower < n && lower % 32 != 0
  }

  /** The marks in a vector that may hold marks of an earlier use: if the two searches end up
      at one row it is added to them, otherwise the range replaces them. */
  function SortedMarks(bits0: seq<bool>, n: nat, lower: nat, upper: nat, over: Word): seq<bool>
    requires 0 < n <= |bits0| && lower <= upper <= n
  {
    var low, high := if lower < n then lower else n - 1, if n == 1 || upper == 0 then 0 else upper - 1;
    if low == high then bits0[low := true] else Unpack(RangeWords(|bits0| / 32, low, high, over))
  }

  /** Selects from a sorted column; the vector may hold marks of an earlier use.  It then holds
      the rows a scan selects, and no others, exactly when the two searches and the range
      marking work and no earlier mark has been added to.  The number returned is the number of
      matches exactly when there is one, or when the gap lies inside the column, whatever the
      marks are; and the count becomes that number, but for a single row, which adds one to
      the count.  Not ok if the column is empty: then the row to be marked
      lies outside the vector. */
  method MarkSorted(c: Column, bv: BitVector, low: int, high: int, over: Word, ghost lower: nat, ghost upper: nat)
    returns (ok: bool, total: nat)
    requires c.Valid() && low <= high && Sorted(c.Values()) && c.size <= 32 * bv.vec.Length
    requires c.size < UINT_END && IsLower(c.Values(), low, lower) && IsUpper(c.Values(), high, upper)
    modifies bv`count, bv.vec
    ensures lower <= upper <= c.size && (ok <==> c.size > 0)
    ensures ok ==> bv.Bits() == SortedMarks(old(bv.Bits()), c.size, lower, upper, over)
    ensures ok ==> (bv.Bits() == MarkRows(seq(|bv.Bits()|, _ => false), ScanRows(c.Values(), low, high))
                    <==> SortedWorks(c.size, lower, upper, over)
                         && (upper == lower + 1 ==> forall k :: 0 <= k < |bv.Bits()| && old(bv.Bits())[k] ==> k == lower))
    ensures ok ==> (total == |ScanRows(c.Values(), low, high)| <==> lower < upper || 0 < lower < c.size)
    ensures ok ==> total == (if lower < upper then upper - lower else if 0 < lower < c.size then 0 else 1)
    ensures ok ==> bv.count == if total == 1 then (old(bv.count) + 1) % UINT_END else total
    ensures ok && old(bv.count) == 0 && lower < upper ==> bv.count == |ScanRows(c.Values(), low, high)|
    ensures SortedWorks(c.size, lower, upper, over) ==> ok
  {
    hide ScanRows, Unpack, MarkRows, RangeWords, IsLower, IsUpper, Bounds.Sorted, MarksRange, NoneMarked;
    ghost var bits0, s := bv.Bits(), c.Values();
    SortedMatches(s, low, high, lower, upper);
    var lowIndex := GetLowerBound(c.Read(0, c.size), low);
    var highIndex := GetUpperBound(c.Read(0, c.size), high);
    if c.size == 0 {
      NothingWorks(s, low, high, lower, upper, over);
      return false, 1;  // both indices are 0, which the vector has no word for
    }
    IndicesAre(s, low, high, lower, upper, lowIndex, highIndex);
    highIndex := if highIndex > 0 then highIndex - 1 else 0;
    if lowIndex == highIndex {
      bv.Mark(lowIndex);
    } else {
      bv.MarkByRange(lowIndex, highIndex, over);
    }
    SortedSelectExact(bits0, s, low, high, over, lower, upper, bv.vec.Length);
    ok, total := true, highIndex + 1 - lowIndex;
  }

  /** The vector then holds the rows a scan selects, and no others, exactly when the two
      searches and the range marking work, and no mark of an earlier use has been added to. */
  lemma SortedSelectExact(bits0: seq<bool>, s: seq<int>, low: int, high: int, over: Word, lower: nat, upper: nat, words: nat)
    requires Sorted(s) && low <= high && IsLower(s, low, lower) && IsUpper(s, high, upper)
    requires 0 < |s| <= |bits0| == 32 * words
    ensures lower <= upper <= |s|
    ensures SortedMarks(bits0, |s|, lower, upper, over) == MarkRows(seq(|bits0|, _ => false), ScanRows(s, low, high))
       <==> SortedWorks(|s|, lower, upper, over)
            && (upper == lower + 1 ==> forall k :: 0 <= k < |bits0| && bits0[k] ==> k == lower)
  {
    hide ScanRows, Unpack, MarkRows, RangeWords, IsLower, IsUpper, Bounds.Sorted, MarksRange;
    SortedMatches(s, low, high, lower, upper);
    var blank: seq<bool> := seq(|bits0|, _ => false);
    var bits := SortedMarks(bits0, |s|, lower, upper, over);
    var lowIndex := if lower < |s| then lower else |s| - 1;
    var highIndex := if |s| == 1 || upper == 0 then 0 else upper - 1;
    if lowIndex == highIndex {
      MarkedAlone(bits0, lowIndex, lower, upper);
    } else {
      RangeIsExact(words, lower, upper, over);
      AllWords(words, lowIndex, highIndex, over);
    }
    MarkedAsScan(blank, bits, s, low, high, lower, upper);
  }

  lemma AllWords(n: nat, low: nat, high: nat, over: Word)
    ensures |Unpack(RangeWords(n, low, high, over))| == 32 * n
  {
  }

  lemma NothingWorks(s: seq<int>, low: int, high: int, lower: nat, upper: nat, over: Word)
    requires s == [] && IsLower(s, low, lower) && IsUpper(s, high, upper)
    ensures !SortedWorks(0, lower, upper, over)
  {
  }

  /** Matching rows of a sorted column lie between its bounds. */
  lemma SortedMatches(s: seq<int>, low: int, high: int, lower: nat, upper: nat)
    requires Sorted(s) && low <= high && IsLower(s, low, lower) && IsUpper(s, high, upper)
    ensures lower <= upper <= |s|
    ensures forall i :: 0 <= i < |s| ==> (low <= s[i] <= high <==> lower <= i < upper)
    ensures |ScanRows(s, low, high)| == upper - lower
  {
    hide ScanRows;
    var next := if upper < |s| then s[upper] else high + 1;
    assert next > high;
    assert s[..|s|] == s;
    ScanSorted(s, low, high, lower, upper, |s|);
    if lower == |s| {
      ScanNothing(s, low, high);
    }
  }

  /** What the searches yield, corner cases included. */
  lemma IndicesAre(s: seq<int>, low: int, high: int, lower: nat, upper: nat, lowIndex: nat, r: nat)
    requires s != [] && low <= high && IsLower(s, low, lower) && IsUpper(s, high, upper) && lower <= upper
    requires low <= s[|s| - 1] ==> IsLower(s, low, lowIndex) && lowIndex < |s|
    requires s[|s| - 1] < low ==> lowIndex == |s| - 1
    requires |s| != 1 ==> IsUpper(s, high, r)
    requires |s| == 1 ==> r == 1
    ensures lowIndex == if lower < |s| then lower else |s| - 1
    ensures r == if |s| == 1 then 1 else upper
  {
    if low <= s[|s| - 1] {
      LowerUnique(s, low, lower, lowIndex);
    }
    if |s| > 1 {
      UpperUnique(s, high, upper, r);
    }
  }

  lemma LowerUnique(s: seq<int>, num: int, p: nat, q: nat)
    requires IsLower(s, num, p) && IsLower(s, num, q)
    ensures p == q
  {
    var x, y := if p < |s| then s[p] else num, if q < |s| then s[q] else num;
    assert num <= x && num <= y;
  }

  lemma UpperUnique(s: seq<int>, num: int, p: nat, q: nat)
    requires IsUpper(s, num, p) && IsUpper(s, num, q)
    ensures p == q
  {
    var x, y := if p < |s| then s[p] else num + 1, if q < |s| then s[q] else num + 1;
    assert num < x && num < y;
  }

  /** Starting from an empty vector, the marks are those of the scan exactly when they are
      the rows between the bounds. */
  lemma MarkedAsScan(bits0: seq<bool>, bits: seq<bool>, s: seq<int>, low: int, high: int, lower: nat, upper: nat)
    requires NoneMarked(bits0) && |bits| == |bits0| >= |s| >= upper
    requires forall i :: 0 <= i < |s| ==> (low <= s[i] <= high <==> lower <= i < upper)
    ensures bits == MarkRows(bits0, ScanRows(s, low, high)) <==> MarksRange(bits, lower, upper - 1)
  {
    hide ScanRows, MarkRows;
    var rows := ScanRows(s, low, high);
    var marked := MarkRows(bits0, rows);
    assert s[..|s|] == s;
    ScanExact(s, low, high, |s|);
    forall k | 0 <= k < |bits|
      ensures marked[k] <==> lower <= k < upper
    {
      MarkRowsBit(bits0, rows, k);
    }
  }

  lemma MarkedAlone(bits: seq<bool>, index: nat, lower: nat, upper: nat)
    requires index < |bits| && lower <= upper <= |bits| && upper <= lower + 1
    ensures MarksRange(bits[index := true], lower, upper - 1)
       <==> lower == index && upper == index + 1 && forall k :: 0 <= k < |bits| && bits[k] ==> k == index
  {
    var b := bits[index := true];
    assert b[index];
    if lower == index && upper == index + 1 {
      if k :| 0 <= k < |bits| && bits[k] && k != index {
        assert b[k];
      }
    }
  }

  lemma RangeIsExact(n: nat, lower: nat, upper: nat, over: Word)
    requires lower < 32 * n && 0 < upper <= 32 * n && lower <= upper != lower + 1
    ensures MarksRange(Unpack(RangeWords(n, lower, upper - 1, over)), lower, upper - 1)
       <==> if lower < upper then (upper - 1) % 32 != 31 || over == 0 else lower % 32 != 0
  {
    hide Unpack, RangeWords;
    if lower < upper {
      RangeExact(n, lower, upper - 1, over);
    } else {
      EmptyRange(n, lower, over);
    }
  }

  /** Three columns whose selection goes wrong: one value below the range, a range that ends
      with the 32nd row where the oversized shift yields 1, and a gap at row 32. */
  lemma SortedFails(s: seq<int>)
    ensures IsLower([7], 9, 1) && IsUpper([7], 9, 1) && !SortedWorks(1, 1, 1, 0)
    ensures |s| == 32 && (forall i :: 0 <= i < 32 ==> s[i] == 7) ==>
      IsLower(s, 7, 0) && IsUpper(s, 7, 32) && !SortedWorks(32, 0, 32, 1)
    ensures |s| == 64 && (forall i :: 0 <= i < 64 ==> s[i] == if i < 32 then 1 else 3) ==>
      IsLower(s, 2, 32) && IsUpper(s, 2, 32) && !SortedWorks(64, 32, 32, 0)
  {
  }

  /** The first of them run: the select of 9 from a column that holds 7 marks its row. */
  method SelectBelowRange(over: Word) returns (c: Column, bv: BitVector)
    ensures fresh(c) && fresh(bv) && c.Valid() && c.Values() == [7]
    ensures ScanRows(c.Values(), 9, 9) == [] && |bv.Bits()| > 0 && bv.Bits()[0]
  {
    hide Unpack, RangeWords;
    c := new Column();
    c.Append(7);
    assert c.Values() == [7];
    bv := new BitVector(1);
    var ok, total := MarkSorted(c, bv, 9, 9, over, 1, 1);
    assert [7][..0] == [];
  }
}
