/** What a join of two materialised columns means: the nested loops of helper_join.c
    are the reference every other join is compared with. */
module JoinPairs {

  /** A materialised row: its value and its position in the column. */
  datatype Pair = Pair(val: int, pos: nat)

  /** One row of a join: a position on each side. */
  datatype Match = Match(left: nat, right: nat)

  /** The matches of one left row. */
  function RowMatches(x: Pair, b: seq<Pair>): seq<Match> {
    if b == [] then []
    else
      var y := b[|b| - 1];
      RowMatches(x, b[..|b| - 1]) + if x.val == y.val then [Match(x.pos, y.pos)] else []
  }

  /** All matches in the order of the nested loops. */
  function LoopMatches(a: seq<Pair>, b: seq<Pair>): seq<Match> {
    if a == [] then [] else LoopMatches(a[..|a| - 1], b) + RowMatches(a[|a| - 1], b)
  }

  function Lefts(ms: seq<Match>): seq<nat> {
    seq(|ms|, i requires 0 <= i < |ms| => ms[i].left)
  }

  function Rights(ms: seq<Match>): seq<nat> {
    seq(|ms|, i requires 0 <= i < |ms| => ms[i].right)
  }

  function Swapped(ms: seq<Match>): seq<Match> {
    seq(|ms|, i requires 0 <= i < |ms| => Match(ms[i].right, ms[i].left))
  }

  ghost predicate DistinctPositions(a: seq<Pair>) {
    forall i, j :: 0 <= i < j < |a| ==> a[i].pos != a[j].pos
  }

  /** A row on each side with equal values. */
  ghost predicate Equates(a: seq<Pair>, b: seq<Pair>, m: Match) {
    exists i :: 0 <= i < |a| && EquatesRow(a[i], b, m)
  }

  ghost predicate EquatesRow(x: Pair, b: seq<Pair>, m: Match) {
    exists j :: 0 <= j < |b| && x.val == b[j].val && m == Match(x.pos, b[j].pos)
  }

  // ----- one more row -----

  lemma RowMatchesMore(x: Pair, b: seq<Pair>, j: nat)
    requires j < |b|
    ensures RowMatches(x, b[..j + 1])
         == RowMatches(x, b[..j]) + if x.val == b[j].val then [Match(x.pos, b[j].pos)] else []
  {
    assert b[..j + 1][..j] == b[..j];
  }

  lemma LoopMatchesMore(a: seq<Pair>, b: seq<Pair>, i: nat)
    requires i < |a|
    ensures LoopMatches(a[..i + 1], b) == LoopMatches(a[..i], b) + RowMatches(a[i], b)
  {
    assert a[..i + 1][..i] == a[..i];
  }

  lemma NoRows(b: seq<Pair>)
    ensures LoopMatches([], b) == []
  {
  }

  lemma {:induction false} RowMatchesConcat(x: Pair, b: seq<Pair>, c: seq<Pair>)
    ensures RowMatches(x, b + c) == RowMatches(x, b) + RowMatches(x, c)
  {
    if c == [] {
      assert b + c == b;
    } else {
      assert (b + c)[..|b + c| - 1] == b + c[..|c| - 1];
      RowMatchesConcat(x, b, c[..|c| - 1]);
    }
  }

  lemma {:induction false} NoMatches(x: Pair, b: seq<Pair>)
    requires forall j :: 0 <= j < |b| ==> b[j].val != x.val
    ensures RowMatches(x, b) == []
  {
    if b != [] {
      NoMatches(x, b[..|b| - 1]);
    }
  }

  // ----- what the nested loops find -----

  lemma {:induction false} RowMember(x: Pair, b: seq<Pair>, m: Match)
    ensures m in RowMatches(x, b) <==> EquatesRow(x, b, m)
  {
    if b != [] {
      RowMember(x, b[..|b| - 1], m);
    }
  }

  /** The loops find exactly the pairs of rows with equal values. */
  lemma {:induction false} LoopMember(a: seq<Pair>, b: seq<Pair>, m: Match)
    ensures m in LoopMatches(a, b) <==> Equates(a, b, m)
  {
    hide RowMatches, EquatesRow;
    if a != [] {
      LoopMember(a[..|a| - 1], b, m);
      RowMember(a[|a| - 1], b, m);
    }
  }

  lemma {:induction false} RowOnce(x: Pair, b: seq<Pair>, m: Match)
    requires DistinctPositions(b)
    ensures multiset(RowMatches(x, b))[m] <= 1
  {
    if b != [] {
      var c, y := b[..|b| - 1], b[|b| - 1];
      RowOnce(x, c, m);
      RowMember(x, c, m);
      assert b == c + [y];
    }
  }

  /** Over distinct positions they find each of them once. */
  lemma {:induction false} LoopOnce(a: seq<Pair>, b: seq<Pair>, m: Match)
    requires DistinctPositions(a) && DistinctPositions(b)
    ensures multiset(LoopMatches(a, b))[m] == if Equates(a, b, m) then 1 else 0
  {
    hide RowMatches, Equates;
    LoopMember(a, b, m);
    if a != [] {
      var c, x := a[..|a| - 1], a[|a| - 1];
      LoopOnce(c, b, m);
      RowMember(x, b, m);
      RowOnce(x, b, m);
      if Equates(c, b, m) {
        EquatesLeft(a, b, m);
      }
    }
  }

  lemma EquatesLeft(a: seq<Pair>, b: seq<Pair>, m: Match)
    requires a != [] && DistinctPositions(a) && Equates(a[..|a| - 1], b, m)
    ensures m.left != a[|a| - 1].pos
  {
  }

  // ----- exchanging the loops -----

  lemma SwappedConcat(m: seq<Match>, n: seq<Match>)
    ensures Swapped(m + n) == Swapped(m) + Swapped(n)
  {
  }

  /** One more row in the inner loop adds its matches. */
  lemma {:induction false} ColumnAdded(a: seq<Pair>, b: seq<Pair>, y: Pair)
    ensures multiset(LoopMatches(a, b + [y])) == multiset(LoopMatches(a, b)) + multiset(Swapped(RowMatches(y, a)))
  {
    if a != [] {
      var c, x := a[..|a| - 1], a[|a| - 1];
      ColumnAdded(c, b, y);
      assert (b + [y])[..|b|] == b;
      var one := if x.val == y.val then [Match(x.pos, y.pos)] else [];
      assert RowMatches(x, b + [y]) == RowMatches(x, b) + one;
      var eno := if x.val == y.val then [Match(y.pos, x.pos)] else [];
      assert RowMatches(y, a) == RowMatches(y, c) + eno;
      SwappedConcat(RowMatches(y, c), eno);
      assert Swapped(eno) == one;
    } else {
      assert LoopMatches(a, b + [y]) == LoopMatches(a, b) == [];
      assert Swapped(RowMatches(y, a)) == [];
    }
  }

  /** The nested loops exchanged find the same matches in another order. */
  lemma {:induction false} LoopsExchange(a: seq<Pair>, b: seq<Pair>)
    ensures multiset(Swapped(LoopMatches(b, a))) == multiset(LoopMatches(a, b))
  {
    if b == [] {
      NoColumns(a);
      assert Swapped(LoopMatches(b, a)) == [];
    } else {
      var c, y := b[..|b| - 1], b[|b| - 1];
      LoopsExchange(a, c);
      ColumnAdded(a, c, y);
      assert b == c + [y];
      SwappedConcat(LoopMatches(c, a), RowMatches(y, a));
    }
  }

  lemma {:induction false} NoColumns(a: seq<Pair>)
    ensures LoopMatches(a, []) == []
  {
    if a != [] {
      NoColumns(a[..|a| - 1]);
    }
  }

  // ----- the result lists -----

  /** The variable that receives one side of a join. */
  class Variable {
    var ids: seq<nat>

    method Append(id: nat)
      modifies this
      ensures ids == old(ids) + [id]
    {
      ids := ids + [id];
    }
  }

  /** Both sides have received the matches after what they held before. */
  ghost predicate Collected(jv1: Variable, jv2: Variable, ids1: seq<nat>, ids2: seq<nat>, ms: seq<Match>)
    reads jv1, jv2
  {
    jv1.ids == ids1 + Lefts(ms) && jv2.ids == ids2 + Rights(ms)
  }

  /** Adds one match to the two sides. */
  method Emit(jv1: Variable, jv2: Variable, left: nat, right: nat,
              ghost ids1: seq<nat>, ghost ids2: seq<nat>, ghost ms: seq<Match>)
    requires jv1 != jv2 && Collected(jv1, jv2, ids1, ids2, ms)
    modifies jv1, jv2
    ensures Collected(jv1, jv2, ids1, ids2, ms + [Match(left, right)])
  {
    jv1.Append(left);
    jv2.Append(right);
    assert Lefts(ms + [Match(left, right)]) == Lefts(ms) + [left];
    assert Rights(ms + [Match(left, right)]) == Rights(ms) + [right];
  }

  /** The nested loop join; it starts both lists anew. */
  method LoopJoin(jv1: Variable, jv2: Variable, m0: seq<Pair>, m1: seq<Pair>)
    requires jv1 != jv2
    modifies jv1, jv2
    ensures Collected(jv1, jv2, [], [], LoopMatches(m0, m1))
  {
    jv1.ids, jv2.ids := [], [];
    var i := 0;
    while i < |m0|
      invariant 0 <= i <= |m0|
      invariant Collected(jv1, jv2, [], [], LoopMatches(m0[..i], m1))
    {
      var j := 0;
      ghost var done := LoopMatches(m0[..i], m1);
      assert done + RowMatches(m0[i], m1[..0]) == done;
      while j < |m1|
        invariant 0 <= j <= |m1|
        invariant Collected(jv1, jv2, [], [], done + RowMatches(m0[i], m1[..j]))
      {
        RowMatchesMore(m0[i], m1, j);
        ghost var found := RowMatches(m0[i], m1[..j]);
        if m0[i].val == m1[j].val {
          Emit(jv1, jv2, m0[i].pos, m1[j].pos, [], [], done + found);
          assert done + found + [Match(m0[i].pos, m1[j].pos)] == done + (found + [Match(m0[i].pos, m1[j].pos)]);
        } else {
          assert found + [] == found;
        }
        j := j + 1;
      }
      assert m1[..|m1|] == m1;
      LoopMatchesMore(m0, m1, i);
      i := i + 1;
    }
    assert m0[..|m0|] == m0;
  }
}
