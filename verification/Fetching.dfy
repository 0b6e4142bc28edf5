/** Turning a selection into positions or values: helper_updates.c, helper_fetch_command.c
    and the materialisation that precedes a join in worker.c. */
module Fetching {
  import opened Bounds
  import opened BitVectors
  import opened Columns
  import opened ColumnFile
  import opened Deletion
  import opened JoinPairs

  /** The vector's count covers the marked rows below n. */
  ghost predicate CountCovers(bv: BitVector, n: nat)
    reads bv, bv.vec
  {
    n <= 32 * bv.vec.Length && CountTrue(bv.Bits()[..n]) <= bv.count
  }

  /** The places behind the marked rows, as the arrays are allocated. */
  function Unused<T>(x: T, n: nat): seq<T> {
    seq(n, _ => x)
  }

  /** Rows and values with their positions. */
  function PairsAt(s: seq<int>, rows: seq<nat>): seq<Pair>
    requires RowsInside(rows, |s|)
  {
    seq(|rows|, i requires 0 <= i < |rows| => Pair(s[rows[i]], rows[i]))
  }

  lemma MarkedInside(bits: seq<bool>, n: nat)
    requires n <= |bits|
    ensures RowsInside(MarkedRows(bits, n), n)
  {
  }

  lemma {:induction false} MarkedGrows(bits: seq<bool>, k: nat, n: nat)
    requires k <= n <= |bits|
    ensures MarkedRows(bits, k) <= MarkedRows(bits, n)
    decreases n - k
  {
    if k < n {
      MarkedGrows(bits, k, n - 1);
    }
  }

  /** The next row: if marked, it has a place among the marked rows. */
  lemma MarkedNext(bits: seq<bool>, k: nat, n: nat)
    requires k < n <= |bits|
    ensures MarkedRows(bits, k + 1) == MarkedRows(bits, k) + if bits[k] then [k] else []
    ensures |MarkedRows(bits, k + 1)| <= CountTrue(bits[..n])
  {
    MarkedGrows(bits, k + 1, n);
    MarkedCount(bits, n);
  }

  /** The positions a variable stands for: its row ids, or the marked rows of its vector in
      an array of `count` places; the last result tells whether they are all used. */
  method GetPositions(isId: bool, ids: seq<nat>, bv: BitVector?) returns (pos: array<nat>, exact: bool)
    requires !isId ==> bv != null && CountCovers(bv, bv.size)
    ensures isId ==> exact && pos[..] == ids
    ensures !isId ==> (exact <==> bv.count == CountTrue(bv.Bits()[..bv.size]))
    ensures !isId ==> |MarkedRows(bv.Bits(), bv.size)| <= bv.count
    ensures !isId ==> pos[..] == MarkedRows(bv.Bits(), bv.size) + Unused(0, bv.count - |MarkedRows(bv.Bits(), bv.size)|)
  {
    if isId {
      pos := new nat[|ids|](i requires 0 <= i < |ids| => ids[i]);
      exact := true;
    } else {
      pos, exact := MarkedPositions(bv);
    }
  }

  method MarkedPositions(bv: BitVector) returns (pos: array<nat>, exact: bool)
    requires CountCovers(bv, bv.size)
    ensures exact <==> bv.count == CountTrue(bv.Bits()[..bv.size])
    ensures |MarkedRows(bv.Bits(), bv.size)| <= bv.count
    ensures pos[..] == MarkedRows(bv.Bits(), bv.size) + Unused(0, bv.count - |MarkedRows(bv.Bits(), bv.size)|)
  {
    hide MarkedRows, Unpack, CountTrue;
    ghost var bits, n := bv.Bits(), bv.size;
    pos := new nat[bv.count](_ => 0);
    NoMarked(bits);
    var itr, u := 0, 0;
    while u < bv.size
      invariant 0 <= u <= n && itr == |MarkedRows(bits, u)| <= pos.Length
      invariant forall i :: 0 <= i < itr ==> pos[i] == MarkedRows(bits, u)[i]
      invariant forall i :: itr <= i < pos.Length ==> pos[i] == 0
    {
      MarkedNext(bits, u, n);
      var marked := bv.IsMarked(u);
      if marked {
        pos[itr] := u;
        itr := itr + 1;
      }
      u := u + 1;
    }
    MarkedCount(bits, n);
    exact := itr == pos.Length;
  }

  /** Deletes the rows a vector marks.  If the count exceeds the number of marked rows, the
      unused places of the positions delete as many rows more. */
  method DeleteSelected(c: Column, bv: BitVector) returns (exact: bool)
    requires c.Valid() && bv.size == c.size && CountCovers(bv, c.size) && bv.count <= c.size
    modifies c
    ensures exact <==> bv.count == CountTrue(bv.Bits()[..bv.size])
    ensures var n, marked := old(c.size), MarkedRows(bv.Bits(), bv.size);
            && |marked| <= bv.count && c.Valid() && c.size == n - bv.count
            && c.Values() == ValuesAt(old(c.Values()), AfterZeros(RowMap(n, marked), bv.count - |marked|))
  {
    hide MarkedRows, CountTrue, Unpack, RowMap, CellsAfter;
    ghost var marked := MarkedRows(bv.Bits(), bv.size);
    var pos;
    pos, exact := GetPositions(false, [], bv);
    ghost var zeros := Unused(0, bv.count - |marked|);
    MarkedInside(bv.Bits(), bv.size);
    ZerosBehind(c.size, marked, zeros);
    c.Delete(pos[..]);
  }

  /** Row 2 of four has been selected twice into one vector: two rows are deleted, and row 3
      comes to stand first. */
  method DeleteSelectedTwice() returns (c: Column)
    ensures fresh(c) && c.Valid() && c.Values() == [13, 11]
  {
    hide Unpack, MarkedRows, CountTrue, RowMap, AfterZeros;
    c := new Column();
    c.Append(10);
    c.Append(11);
    c.Append(12);
    c.Append(13);
    assert c.Values() == [10, 11, 12, 13];
    var bv := new BitVector(4);
    bv.Mark(2);
    bv.Mark(2);
    OneMarked(bv.Bits());
    ThreeLeft([10, 11, 12, 13]);
    var exact := DeleteSelected(c, bv);
  }

  lemma ThreeLeft(s: seq<int>)
    requires |s| == 4
    ensures AfterZeros([0, 1, 3], 1) == [3, 1] && ValuesAt(s, AfterZeros([0, 1, 3], 1)) == [s[3], s[1]]
  {
  }

  lemma OneMarked(bits: seq<bool>)
    requires |bits| >= 4 && !bits[0] && !bits[1] && bits[2] && !bits[3]
    ensures CountTrue(bits[..4]) == 1 && MarkedRows(bits, 4) == [2]
    ensures RowMap(4, [2]) == [0, 1, 3]
  {
    hide MarkedRows, CountTrue;
    NoMarked(bits);
    MarkedNext(bits, 0, 4);
    MarkedNext(bits, 1, 4);
    MarkedNext(bits, 2, 4);
    MarkedNext(bits, 3, 4);
    MarkedCount(bits, 4);
    assert RowMap(4, [2]) == Drop(RowMap(4, []), 2);
    assert RowMap(4, []) == [0, 1, 2, 3];
  }

  lemma NoMarked(bits: seq<bool>)
    ensures MarkedRows(bits, 0) == []
  {
  }

  /** The values at some row ids, in the order of the ids. */
  method FetchFromRowIds(c: Column, ids: seq<nat>) returns (result: array<int>)
    requires c.Valid() && RowsInside(ids, c.size)
    ensures result[..] == ValuesAt(c.Values(), ids)
  {
    var buffer := c.Read(0, c.size);
    result := new int[|ids|](_ => 0);
    var i := 0;
    while i < |ids|
      invariant 0 <= i <= |ids|
      invariant forall k :: 0 <= k < i ==> result[k] == c.Values()[ids[k]]
    {
      result[i] := buffer[ids[i]];
      i := i + 1;
    }
  }

  lemma ValuesMore(s: seq<int>, bits: seq<bool>, k: nat)
    requires k < |s| <= |bits|
    ensures RowsInside(MarkedRows(bits, k), |s|)
    ensures RowsInside(MarkedRows(bits, k + 1), |s|)
    ensures ValuesAt(s, MarkedRows(bits, k + 1)) == ValuesAt(s, MarkedRows(bits, k)) + if bits[k] then [s[k]] else []
    ensures PairsAt(s, MarkedRows(bits, k + 1)) == PairsAt(s, MarkedRows(bits, k)) + if bits[k] then [Pair(s[k], k)] else []
  {
    MarkedInside(bits, k);
    MarkedInside(bits, k + 1);
  }

  /** The marked values, read block by block.  Without stale cells these are the values of
      the marked rows in row order, whatever the length of the column. */
  method FetchFromVector(c: Column, bv: BitVector) returns (result: array<int>, ghost matched: nat)
    requires c.Valid() && CountCovers(bv, |c.Window()|)
    ensures result.Length == bv.count && matched == CountTrue(bv.Bits()[..|c.Window()|])
    ensures RowsInside(MarkedRows(bv.Bits(), |c.Window()|), |c.Window()|)
    ensures matched <= bv.count
    ensures result[..] == ValuesAt(c.Window(), MarkedRows(bv.Bits(), |c.Window()|)) + Unused(0, bv.count - matched)
  {
    hide MarkedRows, Unpack, CountTrue, GetCeil, ValuesAt, Fetched;
    ghost var bits, s := bv.Bits(), c.Window();
    var blockCount := GetCeil(c.size, FILE_BLOCK_SIZE);
    result := new int[bv.count](_ => 0);
    FetchBegins(s, bits);
    var u, cursor, matchedCounter := 0, 0, 0;
    while u < blockCount
      invariant 0 <= u <= blockCount && cursor == Min(u * FILE_BLOCK_SIZE, |c.cells|) <= |s|
      invariant Fetched(s, bits, cursor, result[..], matchedCounter)
    {
      BlockAt(c, u);
      var buffer := c.Read(cursor, FILE_BLOCK_SIZE);
      if |buffer| == 0 {
        assert false;  // the file holds at least `size` cells
      }
      var k := 0;
      while k < |buffer|
        invariant 0 <= k <= |buffer|
        invariant Fetched(s, bits, u * FILE_BLOCK_SIZE + k, result[..], matchedCounter)
      {
        var index := u * FILE_BLOCK_SIZE + k;
        FetchStep(s, bits, index, result[..], matchedCounter);
        var marked := bv.IsMarked(index);
        if marked {
          ghost var before := result[..];
          result[matchedCounter] := buffer[k];
          assert result[..] == before[matchedCounter := s[index]];
          matchedCounter := matchedCounter + 1;
        }
        k := k + 1;
      }
      cursor := cursor + |buffer|;
      u := u + 1;
    }
    FetchEnds(s, bits, result[..], matchedCounter);
    matched := matchedCounter;
    assert result[..] == result[..matched] + Unused(0, result.Length - matched);
  }

  /** The result after the first k cells. */
  ghost predicate Fetched(s: seq<int>, bits: seq<bool>, k: nat, result: seq<int>, counter: nat)
  {
    && k <= |s| <= |bits| && counter <= |result|
    && RowsInside(MarkedRows(bits, k), |s|)
    && result[..counter] == ValuesAt(s, MarkedRows(bits, k))
    && (forall i :: counter <= i < |result| ==> result[i] == 0)
  }

  lemma FetchBegins(s: seq<int>, bits: seq<bool>)
    requires |s| <= |bits|
    ensures forall result: seq<int> :: (forall i :: 0 <= i < |result| ==> result[i] == 0) ==> Fetched(s, bits, 0, result, 0)
  {
  }

  lemma FetchStep(s: seq<int>, bits: seq<bool>, k: nat, result: seq<int>, counter: nat)
    requires k < |s| <= |bits| && Fetched(s, bits, k, result, counter) && CountTrue(bits[..|s|]) <= |result|
    ensures !bits[k] ==> Fetched(s, bits, k + 1, result, counter)
    ensures bits[k] ==> counter < |result| && Fetched(s, bits, k + 1, result[counter := s[k]], counter + 1)
  {
    hide MarkedRows, CountTrue;
    ValuesMore(s, bits, k);
    MarkedNext(bits, k, |s|);
  }

  lemma FetchEnds(s: seq<int>, bits: seq<bool>, result: seq<int>, counter: nat)
    requires Fetched(s, bits, |s|, result, counter)
    ensures counter == CountTrue(bits[..|s|]) <= |result|
    ensures forall i :: counter <= i < |result| ==> result[i] == 0
    ensures RowsInside(MarkedRows(bits, |s|), |s|) && result[..counter] == ValuesAt(s, MarkedRows(bits, |s|))
  {
    MarkedCount(bits, |s|);
  }

  /** Fetching through the vector and fetching at the extracted positions agree. */
  lemma FetchesAgree(c: Column, bv: BitVector)
    requires c.Valid() && c.size == |c.cells| && bv.Valid() && bv.size == c.size
    ensures c.Window() == c.Values() && |c.Window()| == bv.size <= |bv.Bits()|
    ensures RowsInside(MarkedRows(bv.Bits(), bv.size), c.size)
    ensures |ValuesAt(c.Window(), MarkedRows(bv.Bits(), |c.Window()|))| == CountTrue(bv.Bits()[..bv.size])
    ensures ValuesAt(c.Window(), MarkedRows(bv.Bits(), |c.Window()|)) == ValuesAt(c.Values(), MarkedRows(bv.Bits(), bv.size))
  {
    WindowIsValues(c);
    MarkedInside(bv.Bits(), bv.size);
    MarkedCount(bv.Bits(), bv.size);
  }

  // ----- materialising for a join -----

  /** The marked rows as (value, position) pairs; `counter` is how many were found. */
  method Materialise(c: Column, bv: BitVector) returns (m: array<Pair>, counter: nat)
    requires c.Valid() && CountCovers(bv, c.size)
    ensures m.Length == bv.count && counter == CountTrue(bv.Bits()[..c.size])
    ensures RowsInside(MarkedRows(bv.Bits(), c.size), c.size)
    ensures counter <= bv.count
    ensures m[..] == PairsAt(c.Values(), MarkedRows(bv.Bits(), c.size)) + Unused(Pair(0, 0), bv.count - counter)
  {
    hide MarkedRows, Unpack, CountTrue;
    ghost var bits, s := bv.Bits(), c.Values();
    var buffer := c.Read(0, c.size);
    m := new Pair[bv.count](_ => Pair(0, 0));
    NoMarked(bits);
    counter := 0;
    var j := 0;
    while j < c.size
      invariant 0 <= j <= c.size && counter <= m.Length
      invariant RowsInside(MarkedRows(bits, j), |s|)
      invariant m[..counter] == PairsAt(s, MarkedRows(bits, j))
      invariant forall i :: counter <= i < m.Length ==> m[i] == Pair(0, 0)
    {
      ValuesMore(s, bits, j);
      MarkedNext(bits, j, |s|);
      var marked := bv.IsMarked(j);
      if marked {
        m[counter] := Pair(buffer[j], j);
        counter := counter + 1;
      }
      j := j + 1;
    }
    MarkedCount(bits, c.size);
    assert m[..] == m[..counter] + Unused(Pair(0, 0), m.Length - counter);
  }
}
