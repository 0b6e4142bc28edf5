/** The binary searches of helper_math.c. */
module Bounds {

  // one past the largest uint32_t
  const UINT_END: int := 0x1_0000_0000

  ghost predicate Sorted(a: seq<int>) {
    forall i, j :: 0 <= i < j < |a| ==> a[i] <= a[j]
  }

  /** p is the first place where `num` could stand without leaving the order. */
  ghost predicate IsLower(a: seq<int>, num: int, p: nat) {
    && p <= |a|
    && (forall i :: 0 <= i < p ==> a[i] < num)
    && (forall i :: p <= i < |a| ==> num <= a[i])
  }

  /** p is the last such place. */
  ghost predicate IsUpper(a: seq<int>, num: int, p: nat) {
    && p <= |a|
    && (forall i :: 0 <= i < p ==> a[i] <= num)
    && (forall i :: p <= i < |a| ==> num < a[i])
  }

  function GetCeil(x: nat, y: nat): (r: nat)
    requires y > 0
    ensures x <= r * y < x + y
  {
    (x + y - 1) / y
  }

  /** The lower bound, except that a number above every element yields the last index. */
  method GetLowerBound(a: seq<int>, num: int) returns (r: nat)
    requires Sorted(a)
    ensures a == [] ==> r == 0
    ensures a != [] && num <= a[|a| - 1] ==> IsLower(a, num, r) && r < |a|
    ensures a != [] && a[|a| - 1] < num ==> r == |a| - 1
  {
    var size := |a|;
    if size == 0 {
      return 0;
    }
    var low, high := 0, size;
    while low < high
      invariant 0 <= low <= high <= size
      invariant forall i :: 0 <= i < low ==> a[i] < num
      invariant forall i :: high <= i < size ==> num <= a[i]
    {
      var mid := (low + high) / 2;
      if mid == size {
        assert false;  // mid stays below high
      }
      if num <= a[mid] {
        high := mid;
      } else {
        low := mid + 1;
      }
    }
    if low == size {
      return size - 1;
    }
    if num <= a[low] {
      return low;
    } else {
      assert false;  // the loop has found an element that is large enough
    }
  }

  /** The upper bound, except that a single element always counts as not exceeding. */
  method GetUpperBound(a: seq<int>, num: int) returns (r: nat)
    requires Sorted(a)
    ensures |a| != 1 ==> IsUpper(a, num, r)
    ensures |a| == 1 ==> r == 1
  {
    var size := |a|;
    if size == 0 {
      return 0;
    }
    var low, high := 0, size;
    while low < high
      invariant 0 <= low <= high <= size && low < size && (size == 1 ==> high == 1)
      invariant 0 < low ==> forall i :: 0 <= i <= low ==> a[i] <= num
      invariant forall i :: high < i < size ==> num < a[i]
      decreases high - low
    {
      var mid := (low + high + 1) / 2;
      if mid == size {
        return size;
      }
      if a[mid] <= num {
        low := mid;
      } else {
        high := mid - 1;
      }
    }
    if a[low] <= num {
      r := if size > low + 1 then low + 1 else size;
    } else {
      r := 0;
    }
  }

  /** The upper bound within a node.  The search may look at the slot behind the
      live keys; whatever that slot holds, the result is the same. */
  method GetUpperBoundFromArray(a: seq<int>, beyond: int, num: int) returns (r: nat)
    requires Sorted(a)
    ensures IsUpper(a, num, r)
  {
    var size := |a|;
    if size == 0 {
      return 0;
    }
    if size == 1 {
      if num < a[0] {
        return 0;
      } else {
        return 1;
      }
    }
    var low, high := 0, size;
    while low < high
      invariant 0 <= low <= high <= size
      invariant 0 < low ==> forall i :: 0 <= i <= low && i < size ==> a[i] <= num
      invariant forall i :: high < i < size ==> num < a[i]
      invariant low == size ==> beyond <= num
      decreases high - low
    {
      var mid := (low + high + 1) / 2;
      var v := if mid < size then a[mid] else beyond;
      if v <= num {
        low := mid;
      } else {
        high := mid - 1;
      }
    }
    if (if low < size then a[low] else beyond) <= num {
      r := if size > low + 1 then low + 1 else size;
    } else {
      r := 0;
    }
  }
}
