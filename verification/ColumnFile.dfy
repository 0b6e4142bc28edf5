/** The file behind a column: a meta record with the number of values, then the cells. */
module ColumnFile {
  import opened Bounds
  import opened Columns
  import opened Deletion

  const FILE_BLOCK_SIZE := 128

  class Column {
    var size: nat
    var cells: seq<int>

    /** The file holds at least `size` cells; deletions leave stale ones behind. */
    ghost predicate Valid()
      reads this
    {
      size <= |cells|
    }

    ghost function Values(): (s: seq<int>)
      requires Valid()
      reads this
    {
      cells[..size]
    }

    /** The cells that a block-wise reader of the column sees: whole blocks, so stale
        cells of the last block are read as well. */
    ghost function Window(): seq<int>
      requires Valid()
      reads this
    {
      cells[..Min(|cells|, GetCeil(size, FILE_BLOCK_SIZE) * FILE_BLOCK_SIZE)]
    }

    constructor ()
      ensures Valid() && size == 0 && cells == []
    {
      size, cells := 0, [];
    }

    /** Up to `count` cells from the file position on. */
    function Read(cursor: nat, count: nat): seq<int>
      requires cursor <= |cells|
      reads this
    {
      cells[cursor..Min(cursor + count, |cells|)]
    }

    /** Adds a value at the physical end of the file.  That is the end of the column exactly
        when the file has no stale cells (or the first stale cell holds the same value). */
    method Append(val: int)
      requires Valid()
      modifies this
      ensures Valid() && size == old(size) + 1 && cells == old(cells) + [val]
      ensures Values() == old(Values()) + [val]
         <==> old(size) == old(|cells|) || (old(size) < old(|cells|) && old(cells)[old(size)] == val)
    {
      AppendExact(cells, size, val);
      size := size + 1;
      cells := cells + [val];
    }

    /** Writes a new file with the value put in at an index; stale cells are left behind. */
    method InsertAt(index: nat, val: int)
      requires Valid() && index <= size
      modifies this
      ensures Valid() && cells == old(Values())[..index] + [val] + old(Values())[index..]
      ensures size == old(size) + 1 == |cells|
    {
      var restNum := size - index;
      var first := Read(0, index);
      var last := Read(index, restNum);
      cells := first + [val] + last;
      size := size + 1;
    }

    /** Inserts into a sorted column at the lower bound of the value.  The column keeps its
        order exactly when it was empty or the value does not exceed its last one. */
    method InsertSorted(val: int)
      requires Valid() && Sorted(Values())
      modifies this
      ensures Valid() && size == old(size) + 1 == |cells|
      ensures multiset(Values()) == multiset(old(Values())) + multiset{val}
      ensures Sorted(Values()) <==> old(size) == 0 || val <= old(cells)[old(size) - 1]
    {
      ghost var s := Values();
      var index := GetLowerBound(Read(0, size), val);
      SortedInsertExact(s, val, index);
      InsertAt(index, val);
      assert Values() == s[..index] + [val] + s[index..];
    }

    /** Overwrites each position with the last value and shortens the column by it.  The file
        keeps its length: the freed cells stay behind. */
    method Delete(pos: seq<nat>)
      requires Valid() && |pos| <= size && RowsInside(pos, size)
      modifies this
      ensures Valid() && size == old(size) - |pos| && |cells| == old(|cells|)
      ensures Values() == ValuesAt(old(Values()), RowMap(old(size), pos))
      ensures cells == CellsAfter(old(cells), old(size), pos)
    {
      ghost var s := Values();
      var u := 0;
      while u < |pos|
        invariant 0 <= u <= |pos| && Valid() && size == |s| - u && |cells| == old(|cells|)
        invariant Values() == DropAll(s, pos[..u])
        invariant RowsInside(pos[..u], |s|) && cells == CellsAfter(old(cells), |s|, pos[..u])
      {
        DropAllMore(s, pos, u);
        CellsMore(old(cells), |s|, pos, u);
        ghost var before := Values();
        var lastVal := cells[size - 1];
        cells := cells[pos[u] := lastVal];
        size := size - 1;
        assert Values() == Drop(before, pos[u]);
        u := u + 1;
      }
      assert pos[..u] == pos;
      DropsByMap(s, pos);
    }
  }

  lemma AppendExact(cells: seq<int>, size: nat, val: int)
    requires size <= |cells|
    ensures (cells + [val])[..size + 1] == cells[..size] + [val] <==> size == |cells| || cells[size] == val
  {
    assert (cells + [val])[..size + 1][size] == if size < |cells| then cells[size] else val;
    if size == |cells| || cells[size] == val {
      assert (cells + [val])[..size + 1] == cells[..size] + [val];
    }
  }

  /** After a deletion an appended 9 lies behind the stale cell, which becomes the value. */
  method AppendFails() returns (c: Column)
    ensures fresh(c) && c.Valid() && c.size == 2 && c.Values()[1] == 5
  {
    c := new Column();
    c.Append(4);
    c.Append(5);
    CellsOfMovers(c.cells, 2, [0]);
    c.Delete([0]);
    c.Append(9);
  }

  /** Inserting where the lower bound search points to. */
  lemma SortedInsertExact(s: seq<int>, val: int, index: nat)
    requires Sorted(s) && index <= |s|
    requires s == [] ==> index == 0
    requires s != [] && val <= s[|s| - 1] ==> IsLower(s, val, index) && index < |s|
    requires s != [] && s[|s| - 1] < val ==> index == |s| - 1
    ensures Sorted(s[..index] + [val] + s[index..]) <==> s == [] || val <= s[|s| - 1]
    ensures multiset(s[..index] + [val] + s[index..]) == multiset(s) + multiset{val}
  {
    assert s == s[..index] + s[index..];
    if s == [] || val <= s[|s| - 1] {
      InsertedSorted(s, val, index);
    } else {
      var t := s[..index] + [val] + s[index..];
      assert t[index] == val && t[|t| - 1] == s[|s| - 1];
    }
  }

  /** Into the values 4 and 6 a 9 is inserted, and the order is gone. */
  method InsertFails() returns (c: Column)
    ensures fresh(c) && c.Valid() && c.size == 3 && !Sorted(c.Values())
  {
    c := new Column();
    c.Append(4);
    c.Append(6);
    assert c.Values() == [4, 6];
    c.InsertSorted(9);
  }

  lemma InsertedSorted(s: seq<int>, val: int, index: nat)
    requires Sorted(s) && index <= |s|
    requires IsLower(s, val, index)
    ensures Sorted(s[..index] + [val] + s[index..])
  {
  }

  /** Deleting the same positions from several columns of the same length keeps their rows
      aligned: one map describes what every one of them keeps. */
  method DeleteRows(columns: seq<Column>, pos: seq<nat>, ghost n: nat)
    requires forall i, j :: 0 <= i < j < |columns| ==> columns[i] != columns[j]
    requires forall i :: 0 <= i < |columns| ==> columns[i].Valid() && columns[i].size == n
    requires |pos| <= n && RowsInside(pos, n)
    modifies set c | c in columns
    ensures forall i :: 0 <= i < |columns| ==>
      columns[i].Valid() && columns[i].Values() == ValuesAt(old(columns[i].Values()), RowMap(n, pos))
  {
    var u := 0;
    while u < |columns|
      invariant 0 <= u <= |columns|
      invariant forall i :: u <= i < |columns| ==> columns[i].Valid() && columns[i].size == n && columns[i].cells == old(columns[i].cells)
      invariant forall i :: 0 <= i < u ==>
        columns[i].Valid() && columns[i].Values() == ValuesAt(old(columns[i].Values()), RowMap(n, pos))
    {
      columns[u].Delete(pos);
      u := u + 1;
    }
  }

  /** Block u of a column that is read block by block. */
  lemma BlockAt(c: Column, u: nat)
    requires c.Valid() && u < GetCeil(c.size, FILE_BLOCK_SIZE)
    ensures u * FILE_BLOCK_SIZE < c.size && |c.Read(u * FILE_BLOCK_SIZE, FILE_BLOCK_SIZE)| > 0
    ensures u * FILE_BLOCK_SIZE + |c.Read(u * FILE_BLOCK_SIZE, FILE_BLOCK_SIZE)|
         == Min(|c.cells|, (u + 1) * FILE_BLOCK_SIZE) <= |c.Window()|
    ensures forall j :: 0 <= j < |c.Read(u * FILE_BLOCK_SIZE, FILE_BLOCK_SIZE)| ==>
      c.Read(u * FILE_BLOCK_SIZE, FILE_BLOCK_SIZE)[j] == c.Window()[u * FILE_BLOCK_SIZE + j]
  {
  }

  /** Without stale cells the blocks hold exactly the values. */
  lemma WindowIsValues(c: Column)
    requires c.Valid()
    ensures c.size <= |c.Window()| && c.Window()[..c.size] == c.Values()
    ensures c.size == |c.cells| ==> c.Window() == c.Values()
  {
  }
}
