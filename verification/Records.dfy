/** The records a B+ tree stores, in key order, and the plain functions every
    fast structure is compared with: sorted insertion and a full scan. */
module Records {

  /** One indexed value together with the row it belongs to. */
  datatype Record = Record(key: int, row: nat)

  ghost predicate Ascending(s: seq<int>) {
    forall i, j :: 0 <= i < j < |s| ==> s[i] < s[j]
  }

  ghost predicate KeysAscend(s: seq<Record>) {
    forall i, j :: 0 <= i < j < |s| ==> s[i].key < s[j].key
  }

  ghost predicate KeysSorted(s: seq<Record>) {
    forall i, j :: 0 <= i < j < |s| ==> s[i].key <= s[j].key
  }

  ghost predicate KeysBelow(s: seq<Record>, key: int) {
    forall i :: 0 <= i < |s| ==> s[i].key < key
  }

  ghost predicate KeysAbove(s: seq<Record>, key: int) {
    forall i :: 0 <= i < |s| ==> key < s[i].key
  }

  ghost predicate HasKey(s: seq<Record>, key: int) {
    exists i :: 0 <= i < |s| && s[i].key == key
  }

  /** The reference insertion: before the first larger key. */
  function InsertSorted(s: seq<Record>, r: Record): seq<Record> {
    if s == [] || r.key < s[0].key then [r] + s else [s[0]] + InsertSorted(s[1..], r)
  }

  /** The reference selection: the rows of all records in the range, in order. */
  function Select(s: seq<Record>, low: int, high: int): seq<nat> {
    if s == [] then []
    else (if low <= s[0].key <= high then [s[0].row] else []) + Select(s[1..], low, high)
  }

  /** What a walk collects when it gives up at the first key above the range. */
  function Scan(s: seq<Record>, low: int, high: int): seq<nat> {
    if s == [] || s[0].key > high then []
    else (if low <= s[0].key then [s[0].row] else []) + Scan(s[1..], low, high)
  }

  lemma {:induction false} InsertBetween(a: seq<Record>, r: Record, b: seq<Record>)
    requires KeysBelow(a, r.key) && KeysAbove(b, r.key)
    ensures InsertSorted(a + b, r) == a + [r] + b
  {
    if a == [] {
      assert a + b == b;
    } else {
      assert (a + b)[1..] == a[1..] + b;
      InsertBetween(a[1..], r, b);
      assert a == [a[0]] + a[1..];
    }
  }

  /** Sorted insertion adds exactly the new record and keeps strict key order. */
  lemma {:induction false} InsertSortedKeeps(s: seq<Record>, r: Record)
    requires KeysAscend(s) && !HasKey(s, r.key)
    ensures KeysAscend(InsertSorted(s, r))
    ensures multiset(InsertSorted(s, r)) == multiset(s) + multiset{r}
  {
    var k := SplitPoint(s, r.key);
    assert s == s[..k] + s[k..];
    InsertBetween(s[..k], r, s[k..]);
    assert multiset(s) == multiset(s[..k]) + multiset(s[k..]);
  }

  lemma {:induction false} SplitPoint(s: seq<Record>, key: int) returns (k: nat)
    requires KeysAscend(s) && !HasKey(s, key)
    ensures k <= |s| && KeysBelow(s[..k], key) && KeysAbove(s[k..], key)
  {
    k := 0;
    while k < |s| && s[k].key < key
      invariant k <= |s| && KeysBelow(s[..k], key)
    {
      k := k + 1;
    }
  }

  /** Stopping at the first key above the range is safe on sorted records. */
  lemma {:induction false} ScanIsSelect(s: seq<Record>, low: int, high: int)
    requires KeysSorted(s)
    ensures Scan(s, low, high) == Select(s, low, high)
  {
    if s != [] {
      if s[0].key > high {
        SelectNothing(s, low, high);
      } else {
        ScanIsSelect(s[1..], low, high);
      }
    }
  }

  lemma {:induction false} SelectNothing(s: seq<Record>, low: int, high: int)
    requires forall i :: 0 <= i < |s| ==> s[i].key > high || s[i].key < low
    ensures Select(s, low, high) == []
  {
    if s != [] {
      SelectNothing(s[1..], low, high);
    }
  }

  lemma {:induction false} SelectConcat(a: seq<Record>, b: seq<Record>, low: int, high: int)
    ensures Select(a + b, low, high) == Select(a, low, high) + Select(b, low, high)
  {
    if a == [] {
      assert a + b == b;
    } else {
      assert (a + b)[1..] == a[1..] + b;
      SelectConcat(a[1..], b, low, high);
    }
  }

  /** Scanning a concatenation, when nothing in the front part stops the walk. */
  lemma {:induction false} ScanConcat(a: seq<Record>, b: seq<Record>, low: int, high: int)
    requires forall i :: 0 <= i < |a| ==> a[i].key <= high
    ensures Scan(a + b, low, high) == Scan(a, low, high) + Scan(b, low, high)
  {
    if a == [] {
      assert a + b == b;
    } else {
      assert (a + b)[1..] == a[1..] + b;
      ScanConcat(a[1..], b, low, high);
    }
  }

  /** One step of a scan. */
  lemma ScanNext(s: seq<Record>, i: nat, low: int, high: int, rows: seq<nat>)
    requires i < |s| && Scan(s, low, high) == rows + Scan(s[i..], low, high)
    ensures s[i].key > high ==> Scan(s, low, high) == rows
    ensures low <= s[i].key <= high ==> Scan(s, low, high) == rows + [s[i].row] + Scan(s[i + 1..], low, high)
    ensures s[i].key < low && s[i].key <= high ==> Scan(s, low, high) == rows + Scan(s[i + 1..], low, high)
  {
  }

  /** A row is selected exactly when one of its records lies in the range. */
  lemma {:induction false} SelectMember(s: seq<Record>, low: int, high: int, row: nat)
    ensures row in Select(s, low, high) <==> exists i :: 0 <= i < |s| && s[i].row == row && low <= s[i].key <= high
  {
    if s != [] {
      var t := s[1..];
      SelectMember(t, low, high, row);
      if row in Select(s, low, high) && !(s[0].row == row && low <= s[0].key <= high) {
        var i :| 0 <= i < |t| && t[i].row == row && low <= t[i].key <= high;
        assert s[i + 1].row == row && low <= s[i + 1].key <= high;
      }
      if i :| 0 <= i < |s| && s[i].row == row && low <= s[i].key <= high {
        if i > 0 {
          assert t[i - 1].row == row && low <= t[i - 1].key <= high;
        }
      }
    }
  }
}
