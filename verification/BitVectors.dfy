/** The word-packed bit vectors of bit_vector.c. */
module BitVectors {
  import opened Bounds
  import opened Words

  /** All bits of a sequence of words, padding included. */
  function Unpack(words: seq<Word>): (bits: seq<bool>)
    ensures |bits| == 32 * |words|
  {
    seq(32 * |words|, k requires 0 <= k < 32 * |words| => Bit(words[k / 32], k % 32))
  }

  function CountTrue(bits: seq<bool>): nat {
    if bits == [] then 0 else CountTrue(bits[..|bits| - 1]) + if bits[|bits| - 1] then 1 else 0
  }

  lemma {:induction false} CountUpdate(bits: seq<bool>, i: nat, b: bool)
    requires i < |bits|
    ensures CountTrue(bits[i := b]) == CountTrue(bits) - (if bits[i] then 1 else 0) + (if b then 1 else 0)
  {
    var n := |bits| - 1;
    if i < n {
      assert bits[i := b][..n] == bits[..n][i := b];
      CountUpdate(bits[..n], i, b);
    } else {
      assert bits[i := b][..n] == bits[..n];
    }
  }

  lemma {:induction false} CountNone(bits: seq<bool>)
    requires NoneMarked(bits)
    ensures CountTrue(bits) == 0
  {
    if bits != [] {
      CountNone(bits[..|bits| - 1]);
    }
  }

  lemma {:induction false} CountAll(bits: seq<bool>)
    requires forall k :: 0 <= k < |bits| ==> bits[k]
    ensures CountTrue(bits) == |bits|
  {
    if bits != [] {
      CountAll(bits[..|bits| - 1]);
    }
  }

  lemma {:induction false} CountBound(bits: seq<bool>)
    ensures CountTrue(bits) <= |bits|
  {
    if bits != [] {
      CountBound(bits[..|bits| - 1]);
    }
  }

  // ----- one word of a vector changes -----

  /** Marking one place of one word marks one bit of the vector. */
  lemma MarkedWord(words: seq<Word>, i: nat, o: nat)
    requires i < |words| && o < 32
    ensures Unpack(words[i := Or(words[i], One(o))]) == Unpack(words)[32 * i + o := true]
  {
    hide BitAt, Or, One;
    forall p: nat | p < 32
      ensures Bit(Or(words[i], One(o)), p) <==> p == o || Bit(words[i], p)
    {
      OrBit(words[i], One(o), p);
      OneBit(o, p);
    }
    WordUpdate(words, i, Or(words[i], One(o)), o, true);
  }

  lemma UnmarkedWord(words: seq<Word>, i: nat, o: nat)
    requires i < |words| && o < 32
    ensures Unpack(words[i := AndNot(words[i], One(o))]) == Unpack(words)[32 * i + o := false]
  {
    hide BitAt, AndNot, One;
    forall p: nat | p < 32
      ensures Bit(AndNot(words[i], One(o)), p) <==> p != o && Bit(words[i], p)
    {
      AndNotBit(words[i], One(o), p);
      OneBit(o, p);
    }
    WordUpdate(words, i, AndNot(words[i], One(o)), o, false);
  }

  lemma WordUpdate(words: seq<Word>, i: nat, w: Word, o: nat, b: bool)
    requires i < |words| && o < 32
    requires forall p: nat :: p < 32 ==> Bit(w, p) == if p == o then b else Bit(words[i], p)
    ensures Unpack(words[i := w]) == Unpack(words)[32 * i + o := b]
  {
  }

  // ----- ranges -----

  /** The mask of the last word of a range.  For its last place the code shifts by
      the whole width of the word; `over` is whatever the machine makes of that. */
  function HighMask(o: nat, over: Word): Word
    requires o < 32
  {
    if o == 31 then Minus(over, 1) else Below(o + 1)
  }

  /** Word k of a vector marked from low to high. */
  function RangeWord(k: nat, low: nat, high: nat, over: Word): Word {
    var mask := HighMask(high % 32, over);
    if low / 32 == high / 32 then
      if k == low / 32 then Minus(mask, Below(low % 32)) else 0
    else if k == low / 32 then Minus(ALL_ONES, Below(low % 32))
    else if k == high / 32 then mask
    else if low / 32 < k < high / 32 then ALL_ONES
    else 0
  }

  function RangeWords(n: nat, low: nat, high: nat, over: Word): seq<Word> {
    seq(n, k requires 0 <= k < n => RangeWord(k, low, high, over))
  }

  /** Exactly the rows from low to high are marked. */
  ghost predicate MarksRange(bits: seq<bool>, low: int, high: int) {
    forall k :: 0 <= k < |bits| ==> (bits[k] <==> low <= k <= high)
  }

  ghost predicate NoneMarked(bits: seq<bool>) {
    forall k :: 0 <= k < |bits| ==> !bits[k]
  }

  lemma OverMask(over: Word)
    ensures Minus(over, 1) == ALL_ONES <==> over == 0
    ensures Minus(over, 1) == ALL_ONES ==> forall o: nat :: o < 32 ==> Minus(Minus(over, 1), Below(o)) == Minus(ALL_ONES, Below(o))
  {
  }

  /** Bit p of word k of a range, when the last mask is as meant. */
  lemma RangeBit(k: nat, p: nat, low: nat, high: nat, over: Word)
    requires p < 32 && low <= high && (high % 32 != 31 || over == 0)
    ensures Bit(RangeWord(k, low, high, over), p) <==> low <= 32 * k + p <= high
  {
    hide BitAt, Minus, Below, Between, From;
    var a, o := low % 32, high % 32;
    ConstBits(p);
    OverMask(over);
    MaskDifferences(a, a);
    FromBit(a, p);
    if o < 31 {
      BelowBit(o + 1, p);
      MaskDifferences(a, o + 1);
      if a <= o {
        BetweenBit(a, o + 1, p);
      }
    }
  }

  lemma MinusInjective(x: Word, y: Word, z: Word)
    requires Minus(x, z) == Minus(y, z)
    ensures x == y
  {
    hide Minus, Plus;
    MinusIs(x, z);
    MinusIs(y, z);
    AddedBack(x, z);
    AddedBack(y, z);
  }

  /** Range marking marks exactly the range if and only if the last row is not the
      last place of a word, or the machine's oversized shift happens to yield 0. */
  lemma RangeExact(n: nat, low: nat, high: nat, over: Word)
    requires low <= high < 32 * n
    ensures MarksRange(Unpack(RangeWords(n, low, high, over)), low, high) <==> (high % 32 != 31 || over == 0)
  {
    hide BitAt, Minus, Below, Between, From;
    var bits := Unpack(RangeWords(n, low, high, over));
    if high % 32 != 31 || over == 0 {
      forall k | 0 <= k < |bits|
        ensures bits[k] <==> low <= k <= high
      {
        RangeBit(k / 32, k % 32, low, high, over);
        assert k == 32 * (k / 32) + k % 32;
      }
    } else {
      var k := high / 32;
      OverMask(over);
      OverMask(0);
      RangeWordDiffers(low, high, over);
      var p := DifferingBit(RangeWord(k, low, high, over), RangeWord(k, low, high, 0));
      RangeBit(k, p, low, high, 0);
      var j := 32 * k + p;
      assert j / 32 == k && j % 32 == p;
      assert bits[j] == Bit(RangeWord(k, low, high, over), p);
    }
  }

  lemma RangeWordDiffers(low: nat, high: nat, over: Word)
    requires low <= high && high % 32 == 31 && over != 0
    ensures RangeWord(high / 32, low, high, over) != RangeWord(high / 32, low, high, 0)
  {
    hide Minus, Below;
    OverMask(over);
    OverMask(0);
    if low / 32 == high / 32 && Minus(Minus(over, 1), Below(low % 32)) == Minus(Minus(0, 1), Below(low % 32)) {
      MinusInjective(Minus(over, 1), Minus(0, 1), Below(low % 32));
    }
  }

  /** A range whose end lies just before its start marks nothing if and only if the
      start is not the first place of a word. */
  lemma EmptyRange(n: nat, low: nat, over: Word)
    requires 0 < low < 32 * n
    ensures NoneMarked(Unpack(RangeWords(n, low, low - 1, over))) <==> low % 32 != 0
  {
    hide BitAt, Minus, Below, Between, From;
    var bits := Unpack(RangeWords(n, low, low - 1, over));
    if low % 32 != 0 {
      assert low / 32 == (low - 1) / 32 && (low - 1) % 32 + 1 == low % 32;
      forall k | 0 <= k < 32 * n
        ensures !bits[k]
      {
        ConstBits(k % 32);
        MaskDifferences(low % 32, low % 32);
        BetweenBit(low % 32, low % 32, k % 32);
      }
    } else {
      assert low / 32 != (low - 1) / 32;
      MaskDifferences(0, 0);
      FromBit(0, 0);
      assert bits[low] == Bit(RangeWord(low / 32, low, low - 1, over), 0);
    }
  }

  /** The bits after marking rows one after the other. */
  function MarkRows(bits: seq<bool>, rows: seq<nat>): (r: seq<bool>)
    ensures |r| == |bits|
  {
    if rows == [] then bits
    else
      var front := MarkRows(bits, rows[..|rows| - 1]);
      var last := rows[|rows| - 1];
      if last < |bits| then front[last := true] else front
  }

  lemma MarkNoRows(bits: seq<bool>)
    ensures MarkRows(bits, []) == bits
  {
  }

  lemma MarkOneMore(bits: seq<bool>, rows: seq<nat>, row: nat)
    requires row < |bits|
    ensures MarkRows(bits, rows + [row]) == MarkRows(bits, rows)[row := true]
  {
  }

  lemma {:induction false} MarkRowsBit(bits: seq<bool>, rows: seq<nat>, k: nat)
    requires k < |bits|
    ensures MarkRows(bits, rows)[k] <==> bits[k] || k in rows
  {
    if rows != [] {
      MarkRowsBit(bits, rows[..|rows| - 1], k);
      assert rows == rows[..|rows| - 1] + [rows[|rows| - 1]];
    }
  }

  class BitVector {
    var size: nat
    var count: nat
    const vec: array<Word>

    ghost predicate Valid()
      reads this
    {
      size < UINT_END && vec.Length == GetCeil(size, 32)
    }

    /** All bits, those of the padding included. */
    ghost function Bits(): seq<bool>
      reads this, vec
    {
      Unpack(vec[..])
    }

    constructor (n: nat)
      requires n < UINT_END
      ensures Valid() && size == n && count == 0 && fresh(vec)
      ensures NoneMarked(Bits())
    {
      size, count := n, 0;
      vec := new Word[GetCeil(n, 32)](_ => 0);
      new;
      forall p: nat | p < 32 ensures !Bit(0, p) { ConstBits(p); }
    }

    method IsMarked(index: nat) returns (r: bool)
      requires index < 32 * vec.Length
      ensures r == Bits()[index]
    {
      hide BitAt;
      var bvIndex := index / 32;
      var offset := index - bvIndex * 32;
      var val := vec[bvIndex];
      r := Bit(val, offset);
    }

    method Mark(index: nat)
      requires index < 32 * vec.Length
      modifies this`count, vec
      ensures Bits() == old(Bits())[index := true]
      ensures count == (old(count) + 1) % UINT_END
    {
      hide BitAt, Or, One;
      var bvIndex := index / 32;
      var offset := index - bvIndex * 32;
      MarkedWord(vec[..], bvIndex, offset);
      ghost var words := vec[..];
      vec[bvIndex] := Or(vec[bvIndex], One(offset));
      assert vec[..] == words[bvIndex := Or(words[bvIndex], One(offset))];
      count := (count + 1) % UINT_END;
    }

    method Unmark(index: nat)
      requires index < 32 * vec.Length
      modifies this`count, vec
      ensures Bits() == old(Bits())[index := false]
      ensures count == (old(count) - 1) % UINT_END
    {
      hide BitAt, AndNot, One;
      var bvIndex := index / 32;
      var offset := index - bvIndex * 32;
      UnmarkedWord(vec[..], bvIndex, offset);
      ghost var words := vec[..];
      vec[bvIndex] := AndNot(vec[bvIndex], One(offset));
      assert vec[..] == words[bvIndex := AndNot(words[bvIndex], One(offset))];
      count := (count - 1) % UINT_END;
    }

    /** Sets every bit, those of the padding included. */
    method MarkAll()
      requires Valid()
      modifies this`count, vec
      ensures forall k :: 0 <= k < |Bits()| ==> Bits()[k]
      ensures count == size
    {
      hide BitAt, Or;
      var i := 0;
      while i < vec.Length
        invariant 0 <= i <= vec.Length
        invariant forall k :: 0 <= k < i ==> vec[k] == ALL_ONES
      {
        OrAllOnes(vec[i]);
        vec[i] := Or(vec[i], ALL_ONES);
        i := i + 1;
      }
      count := size;
      forall p: nat | p < 32 ensures Bit(ALL_ONES, p) { ConstBits(p); }
    }

    method UnmarkAll()
      modifies this`count, vec
      ensures vec[..] == seq(vec.Length, _ => 0)
      ensures NoneMarked(Bits())
      ensures count == 0
    {
      hide BitAt;
      var i := 0;
      while i < vec.Length
        invariant 0 <= i <= vec.Length
        invariant forall k :: 0 <= k < i ==> vec[k] == 0
      {
        vec[i] := 0;
        i := i + 1;
      }
      count := 0;
      forall p: nat | p < 32 ensures !Bit(0, p) { ConstBits(p); }
    }

    /** Replaces the marks by those of a range of rows. */
    method MarkByRange(low: nat, high: nat, over: Word)
      requires low < 32 * vec.Length && high < 32 * vec.Length
      modifies this`count, vec
      ensures Bits() == Unpack(RangeWords(vec.Length, low, high, over))
      ensures count == (high - low + 1) % UINT_END
    {
      hide BitAt, Or, Minus, Below;
      UnmarkAll();
      var lowIndex, highIndex := low / 32, high / 32;
      var lowOffset, highOffset := low - lowIndex * 32, high - highIndex * 32;
      var maskLow := Below(lowOffset);
      var maskHigh := HighMask(highOffset, over);
      OrNothing(Minus(maskHigh, maskLow));
      OrNothing(Minus(ALL_ONES, maskLow));
      OrNothing(maskHigh);
      OrNothing(ALL_ONES);
      if lowIndex == highIndex {
        var mask := Minus(maskHigh, maskLow);
        vec[lowIndex] := Or(vec[lowIndex], mask);
      } else {
        var i := lowIndex + 1;
        while i < highIndex
          invariant lowIndex < i && (i <= highIndex || i == lowIndex + 1)
          invariant forall k :: 0 <= k < vec.Length ==> vec[k] == if lowIndex < k < i then ALL_ONES else 0
        {
          vec[i] := Or(vec[i], ALL_ONES);
          i := i + 1;
        }
        maskLow := Minus(ALL_ONES, maskLow);
        vec[lowIndex] := Or(vec[lowIndex], maskLow);
        vec[highIndex] := Or(vec[highIndex], maskHigh);
      }
      assert vec[..] == RangeWords(vec.Length, low, high, over);
      count := (high - low + 1) % UINT_END;
    }

    /** Takes over size, count and marks of another vector. */
    method CopyFrom(src: BitVector)
      requires src.Valid() && src.vec.Length <= vec.Length && src.vec != vec
      modifies this`size, this`count, vec
      ensures size == src.size && count == src.count
      ensures forall k :: 0 <= k < 32 * src.vec.Length ==> Bits()[k] == src.Bits()[k]
      ensures forall k :: 32 * src.vec.Length <= k < 32 * vec.Length ==> Bits()[k] == old(Bits())[k]
    {
      hide BitAt;
      size := src.size;
      count := src.count;
      var i := 0;
      while i < src.vec.Length
        invariant 0 <= i <= src.vec.Length
        invariant forall k :: 0 <= k < i ==> vec[k] == src.vec[k]
        invariant forall k :: i <= k < vec.Length ==> vec[k] == old(vec[k])
        modifies vec
      {
        vec[i] := src.vec[i];
        i := i + 1;
      }
    }
  }

  lemma OrAllOnes(w: Word)
    ensures Or(w, ALL_ONES) == ALL_ONES
  {
  }

  lemma OrNothing(w: Word)
    ensures Or(0, w) == w
  {
  }

  /** The count stays the number of marked rows if and only if the row that is
      marked was not marked before. */
  lemma CountAfterMark(bits: seq<bool>, size: nat, count: nat, index: nat)
    requires index < size <= |bits| && size < UINT_END && count == CountTrue(bits[..size])
    ensures (count + 1) % UINT_END == CountTrue(bits[index := true][..size]) <==> !bits[index]
  {
    assert bits[index := true][..size] == bits[..size][index := true];
    CountUpdate(bits[..size], index, true);
    CountBound(bits[..size]);
    CountBound(bits[..size][index := true]);
  }
}
