/** The merge join of helper_join.c over two materialised columns, which it takes to be sorted
    by value. */
module SortJoin {
  import opened JoinPairs

  ghost predicate ValuesSorted(a: seq<Pair>) {
    forall i, j :: 0 <= i < j < |a| ==> a[i].val <= a[j].val
  }

  ghost predicate HasValue(a: seq<Pair>, val: int) {
    exists i :: 0 <= i < |a| && a[i].val == val
  }

  /** No left row equals the first right row. */
  ghost predicate FirstUnmatched(m0: seq<Pair>, m1: seq<Pair>) {
    m0 == [] || m1 == [] || !HasValue(m0, m1[0].val)
  }

  // ----- what the merge returns -----

  /** The greatest of the first n values. */
  function Top(m: seq<Pair>, n: nat): int
    requires 0 < n <= |m|
  {
    if n == 1 || Top(m, n - 1) < m[n - 1].val then m[n - 1].val else Top(m, n - 1)
  }

  /** No row before the i-th is greater. */
  predicate Leads(m: seq<Pair>, i: nat)
    requires i < |m|
  {
    i == 0 || Top(m, i) <= m[i].val
  }

  /** The rows not smaller than any row before them. */
  function Leaders(m: seq<Pair>): seq<Pair> {
    if m == [] then []
    else Leaders(m[..|m| - 1]) + if Leads(m, |m| - 1) then [m[|m| - 1]] else []
  }

  /** The first row that is not smaller than v. */
  function Reach(m: seq<Pair>, v: int): (lo: nat)
    ensures lo <= |m|
  {
    if m == [] || m[0].val >= v then 0 else 1 + Reach(m[1..], v)
  }

  /** The end of the rows equal to v from lo on. */
  function RunEnd(m: seq<Pair>, lo: nat, v: int): (hi: nat)
    requires lo <= |m|
    ensures lo <= hi <= |m|
    decreases |m| - lo
  {
    if lo < |m| && m[lo].val == v then RunEnd(m, lo + 1, v) else lo
  }

  /** A left row with the right rows lo..hi, upwards and downwards. */
  function Up(x: Pair, m: seq<Pair>, lo: nat, hi: nat): seq<Match>
    requires lo <= hi <= |m|
  {
    seq(hi - lo, k requires 0 <= k < hi - lo => Match(x.pos, m[lo + k].pos))
  }

  function Down(x: Pair, m: seq<Pair>, lo: nat, hi: nat): seq<Match>
    requires lo <= hi <= |m|
  {
    seq(hi - lo, k requires 0 <= k < hi - lo => Match(x.pos, m[hi - 1 - k].pos))
  }

  /** What left row i contributes: nothing if a greater row came before it; otherwise the run of
      its value where that value is first reached, upwards for the first left row of the value
      and downwards for the others. */
  function MergeRow(m0: seq<Pair>, m1: seq<Pair>, i: nat): seq<Match>
    requires i < |m0|
  {
    var x := m0[i];
    var lo := Reach(m1, x.val);
    var hi := RunEnd(m1, lo, x.val);
    if !Leads(m0, i) then [] else if i > 0 && Top(m0, i) == x.val then Down(x, m1, lo, hi) else Up(x, m1, lo, hi)
  }

  function MergeMatches(m0: seq<Pair>, m1: seq<Pair>, n: nat): seq<Match>
    requires n <= |m0|
  {
    if n == 0 then [] else MergeMatches(m0, m1, n - 1) + MergeRow(m0, m1, n - 1)
  }

  // ----- what that is in terms of the nested loops -----

  lemma {:induction false} ReachIs(m: seq<Pair>, v: int)
    ensures forall k :: 0 <= k < Reach(m, v) ==> m[k].val < v
    ensures Reach(m, v) < |m| ==> m[Reach(m, v)].val >= v
  {
    if m != [] && m[0].val < v {
      ReachIs(m[1..], v);
      forall k | 0 <= k < Reach(m, v)
        ensures m[k].val < v
      {
        assert k == 0 || m[k] == m[1..][k - 1];
      }
    }
  }

  lemma {:induction false} OneReach(m: seq<Pair>, v: int, j: nat)
    requires j <= |m| && (forall k :: 0 <= k < j ==> m[k].val < v) && (j < |m| ==> m[j].val >= v)
    ensures Reach(m, v) == j
  {
    if j > 0 {
      OneReach(m[1..], v, j - 1);
    }
  }

  lemma {:induction false} RunEndIs(m: seq<Pair>, lo: nat, v: int)
    requires lo <= |m|
    ensures forall k :: lo <= k < RunEnd(m, lo, v) ==> m[k].val == v
    ensures RunEnd(m, lo, v) < |m| ==> m[RunEnd(m, lo, v)].val != v
    decreases |m| - lo
  {
    if lo < |m| && m[lo].val == v {
      RunEndIs(m, lo + 1, v);
    }
  }

  lemma {:induction false} OneRunEnd(m: seq<Pair>, lo: nat, v: int, hi: nat)
    requires lo <= hi <= |m| && (forall k :: lo <= k < hi ==> m[k].val == v) && (hi < |m| ==> m[hi].val != v)
    ensures RunEnd(m, lo, v) == hi
    decreases hi - lo
  {
    if lo < hi {
      OneRunEnd(m, lo + 1, v, hi);
    }
  }

  lemma {:induction false} TopIs(m: seq<Pair>, n: nat)
    requires 0 < n <= |m|
    ensures forall k :: 0 <= k < n ==> m[k].val <= Top(m, n)
    ensures exists k :: 0 <= k < n && m[k].val == Top(m, n)
  {
    if n > 1 {
      TopIs(m, n - 1);
    } else {
      assert m[0].val == Top(m, 1);
    }
    if Top(m, n) == m[n - 1].val {
      assert m[n - 1].val == Top(m, n);
    }
  }

  /** A run of equal rows is matched row by row. */
  lemma {:induction false} RunMatches(x: Pair, m: seq<Pair>, lo: nat, hi: nat)
    requires lo <= hi <= |m| && forall k :: lo <= k < hi ==> m[k].val == x.val
    ensures RowMatches(x, m[lo..hi]) == Up(x, m, lo, hi)
    decreases hi - lo
  {
    if lo < hi {
      RunMatches(x, m, lo, hi - 1);
      assert m[lo..hi][..hi - lo - 1] == m[lo..hi - 1];
    }
  }

  lemma {:induction false} DownIsUp(x: Pair, m: seq<Pair>, lo: nat, hi: nat)
    requires lo <= hi <= |m|
    ensures multiset(Down(x, m, lo, hi)) == multiset(Up(x, m, lo, hi))
    decreases hi - lo
  {
    if lo < hi {
      DownIsUp(x, m, lo, hi - 1);
      var y := Match(x.pos, m[hi - 1].pos);
      assert Down(x, m, lo, hi) == [y] + Down(x, m, lo, hi - 1);
      assert Up(x, m, lo, hi) == Up(x, m, lo, hi - 1) + [y];
    }
  }

  /** A run is part of the row's matches; on a sorted right side the run that starts where the
      value is first reached is all of them. */
  lemma RunPart(x: Pair, m: seq<Pair>)
    ensures var lo := Reach(m, x.val);
            var hi := RunEnd(m, lo, x.val);
            && multiset(Up(x, m, lo, hi)) <= multiset(RowMatches(x, m))
            && (ValuesSorted(m) ==> RowMatches(x, m) == Up(x, m, lo, hi))
  {
    hide RowMatches, Up, Reach, RunEnd, ValuesSorted;
    var lo := Reach(m, x.val);
    var hi := RunEnd(m, lo, x.val);
    ReachIs(m, x.val);
    RunEndIs(m, lo, x.val);
    RunMatches(x, m, lo, hi);
    AroundRun(x, m, lo, hi);
    if ValuesSorted(m) {
      BehindRun(m, lo, hi, x.val);
      NoMatches(x, m[..lo]);
      NoMatches(x, m[hi..]);
    }
  }

  lemma AroundRun(x: Pair, m: seq<Pair>, lo: nat, hi: nat)
    requires lo <= hi <= |m|
    ensures multiset(RowMatches(x, m[lo..hi])) <= multiset(RowMatches(x, m))
    ensures RowMatches(x, m[..lo]) == [] && RowMatches(x, m[hi..]) == [] ==> RowMatches(x, m) == RowMatches(x, m[lo..hi])
  {
    hide RowMatches;
    var a, b, c := m[..lo], m[lo..hi], m[hi..];
    assert m == a + (b + c);
    RowMatchesConcat(x, a, b + c);
    RowMatchesConcat(x, b, c);
    MiddlePart(RowMatches(x, a), RowMatches(x, b), RowMatches(x, c));
  }

  lemma BehindRun(m: seq<Pair>, lo: nat, hi: nat, v: int)
    requires ValuesSorted(m) && lo <= hi <= |m| && (lo < |m| ==> m[lo].val >= v) && (hi < |m| ==> m[hi].val != v)
    ensures forall k :: hi <= k < |m| ==> m[k].val != v
  {
    if hi < |m| {
      assert lo == hi || m[lo].val <= m[hi].val;
    }
  }

  lemma MiddlePart(a: seq<Match>, b: seq<Match>, c: seq<Match>)
    ensures multiset(b) <= multiset(a + (b + c))
    ensures a == [] && c == [] ==> a + (b + c) == b
  {
    assert multiset(a + (b + c)) == multiset(a) + (multiset(b) + multiset(c));
  }

  /** A contribution is part of the row's matches, and on a sorted right side all of them. */
  lemma RowMerged(m0: seq<Pair>, m1: seq<Pair>, i: nat)
    requires i < |m0|
    ensures multiset(MergeRow(m0, m1, i)) <= multiset(RowMatches(m0[i], m1))
    ensures ValuesSorted(m1) && Leads(m0, i) ==> multiset(MergeRow(m0, m1, i)) == multiset(RowMatches(m0[i], m1))
    ensures !Leads(m0, i) ==> MergeRow(m0, m1, i) == []
  {
    hide RowMatches, Up, Down, Reach, RunEnd, Leads, ValuesSorted;
    var x := m0[i];
    var lo := Reach(m1, x.val);
    RunPart(x, m1);
    DownIsUp(x, m1, lo, RunEnd(m1, lo, x.val));
  }

  /** The merge returns no wrong match and none twice; and on a sorted right side exactly the
      matches of the left rows that are not smaller than any row before them. */
  lemma {:induction false} MergeIsLoop(m0: seq<Pair>, m1: seq<Pair>, n: nat)
    requires n <= |m0|
    ensures multiset(MergeMatches(m0, m1, n)) <= multiset(LoopMatches(m0[..n], m1))
    ensures ValuesSorted(m1) ==> multiset(MergeMatches(m0, m1, n)) == multiset(LoopMatches(Leaders(m0[..n]), m1))
  {
    hide LoopMatches, MergeRow, Leads, ValuesSorted, Leaders;
    NoRows(m1);
    if n == 0 {
      assert m0[..0] == [];
      NoLeaders();
    } else {
      MergeIsLoop(m0, m1, n - 1);
      LoopMatchesMore(m0, m1, n - 1);
      RowMerged(m0, m1, n - 1);
      LeadersMore(m0, m1, n - 1);
      var row := MergeRow(m0, m1, n - 1);
      SubMore(MergeMatches(m0, m1, n - 1), LoopMatches(m0[..n - 1], m1), row, RowMatches(m0[n - 1], m1));
      SameMore(MergeMatches(m0, m1, n - 1), LoopMatches(Leaders(m0[..n - 1]), m1), row,
               if Leads(m0, n - 1) then RowMatches(m0[n - 1], m1) else []);
    }
  }

  lemma NoLeaders()
    ensures Leaders([]) == []
  {
  }

  lemma SubMore(a: seq<Match>, b: seq<Match>, c: seq<Match>, d: seq<Match>)
    requires multiset(a) <= multiset(b) && multiset(c) <= multiset(d)
    ensures multiset(a + c) <= multiset(b + d)
  {
    assert multiset(a + c) == multiset(a) + multiset(c) && multiset(b + d) == multiset(b) + multiset(d);
  }

  lemma SameMore(a: seq<Match>, b: seq<Match>, c: seq<Match>, d: seq<Match>)
    ensures multiset(a) == multiset(b) && multiset(c) == multiset(d) ==> multiset(a + c) == multiset(b + d)
  {
    assert multiset(a + c) == multiset(a) + multiset(c) && multiset(b + d) == multiset(b) + multiset(d);
  }

  lemma LeadersMore(m0: seq<Pair>, m1: seq<Pair>, i: nat)
    requires i < |m0|
    ensures LoopMatches(Leaders(m0[..i + 1]), m1)
         == LoopMatches(Leaders(m0[..i]), m1) + if Leads(m0, i) then RowMatches(m0[i], m1) else []
  {
    hide LoopMatches, RowMatches, Leads;
    assert m0[..i + 1][..i] == m0[..i];
    LeadsEarly(m0, i);
    var ls := Leaders(m0[..i]);
    if Leads(m0, i) {
      LoopMatchesMore(ls + [m0[i]], m1, |ls|);
      assert (ls + [m0[i]])[..|ls|] == ls && (ls + [m0[i]])[..|ls| + 1] == ls + [m0[i]];
    } else {
      assert ls + [] == ls && Leaders(m0[..i + 1]) == ls;
      assert LoopMatches(ls, m1) + [] == LoopMatches(ls, m1);
    }
  }

  lemma LeadsEarly(m: seq<Pair>, i: nat)
    requires i < |m|
    ensures Leads(m[..i + 1], i) == Leads(m, i)
  {
    if i > 0 {
      TopEarly(m, i + 1, i);
    }
  }

  lemma {:induction false} TopEarly(m: seq<Pair>, k: nat, n: nat)
    requires 0 < n <= k <= |m|
    ensures Top(m[..k], n) == Top(m, n)
  {
    if n > 1 {
      TopEarly(m, k, n - 1);
    }
  }

  /** All rows of a sorted side lead. */
  lemma {:induction false} SortedLead(m: seq<Pair>)
    requires ValuesSorted(m)
    ensures Leaders(m) == m
  {
    hide Top;
    if m != [] {
      SortedLead(m[..|m| - 1]);
      if |m| > 1 {
        TopIs(m, |m| - 1);
      }
      assert m == m[..|m| - 1] + [m[|m| - 1]];
    }
  }

  lemma {:induction false} LeaderOf(m: seq<Pair>, v: int)
    ensures HasValue(Leaders(m), v) <==> exists i :: 0 <= i < |m| && Leads(m, i) && m[i].val == v
  {
    hide Leads;
    if m != [] {
      var front, w := m[..|m| - 1], |m| - 1;
      LeaderOf(front, v);
      var ls := Leaders(front);
      forall i | 0 <= i < w
        ensures Leads(front, i) == Leads(m, i)
      {
        LeadsEarly(m, i);
        LeadsEarly(front, i);
        assert front[..i + 1] == m[..i + 1];
      }
      if HasValue(Leaders(m), v) {
        var k :| 0 <= k < |Leaders(m)| && Leaders(m)[k].val == v;
        if k < |ls| {
          assert ls[k].val == v;
          var i :| 0 <= i < |front| && Leads(front, i) && front[i].val == v;
          assert Leads(m, i) && m[i].val == v;
        } else {
          assert Leads(m, w) && m[w].val == v;
        }
      }
      if i :| 0 <= i < |m| && Leads(m, i) && m[i].val == v {
        if i < w {
          assert Leads(front, i) && front[i].val == v;
          var k :| 0 <= k < |ls| && ls[k].val == v;
          assert Leaders(m)[k].val == v;
        } else {
          assert Leaders(m)[|ls|].val == v;
        }
      }
    }
  }

  // ----- the cursors -----

  /** The right cursor has passed rows smaller than the greatest left row so far, and the greatest
      left row before this one is not at the cursor. */
  ghost predicate Between(m0: seq<Pair>, m1: seq<Pair>, i: nat, j: nat) {
    && i < |m0| && j <= |m1| && (forall k :: 0 <= k < j ==> m1[k].val < Top(m0, i + 1))
    && (i > 0 && j < |m1| ==> Top(m0, i) < m1[j].val || Top(m0, i) < m0[i].val)
  }

  /** The right cursor is at the end of the run of the greatest left row before this one. */
  ghost predicate OnRun(m0: seq<Pair>, m1: seq<Pair>, i: nat, j: nat) {
    && 0 < i < |m0| && j < |m1| && m1[j].val == Top(m0, i)
    && 0 < Reach(m1, Top(m0, i)) <= j && RunEnd(m1, Reach(m1, Top(m0, i)), Top(m0, i)) == j + 1
  }

  /** Row i does not match the first right row. */
  ghost predicate RowSafe(m0: seq<Pair>, m1: seq<Pair>, i: nat) {
    i < |m0| && m1 != [] && Leads(m0, i) ==> m0[i].val != m1[0].val
  }

  lemma TopGrows(m: seq<Pair>, i: nat)
    requires 0 < i < |m|
    ensures Top(m, i + 1) == if Top(m, i) < m[i].val then m[i].val else Top(m, i)
    ensures Leads(m, i) <==> Top(m, i) <= m[i].val
  {
  }

  /** The right row is the greater one. */
  lemma RowSkipped(m0: seq<Pair>, m1: seq<Pair>, i: nat, j: nat)
    requires i < |m0| && j < |m1| && m0[i].val < m1[j].val && (Between(m0, m1, i, j) || OnRun(m0, m1, i, j))
    ensures MergeRow(m0, m1, i) == [] && RowSafe(m0, m1, i)
    ensures i + 1 < |m0| ==> Between(m0, m1, i + 1, j) || OnRun(m0, m1, i + 1, j)
  {
    hide Top, Reach, RunEnd, Leads;
    if i > 0 {
      TopGrows(m0, i);
    } else {
      FirstLeads(m0);
    }
    if i + 1 < |m0| {
      TopGrows(m0, i + 1);
    }
    if Leads(m0, i) {
      assert Between(m0, m1, i, j);
      OneReach(m1, m0[i].val, j);
      OneRunEnd(m1, j, m0[i].val, j);
    }
  }

  lemma FirstLeads(m: seq<Pair>)
    requires m != []
    ensures Leads(m, 0) && Top(m, 1) == m[0].val
  {
  }

  /** The left row is the greater one. */
  lemma CursorMoves(m0: seq<Pair>, m1: seq<Pair>, i: nat, j: nat)
    requires i < |m0| && j < |m1| && m0[i].val > m1[j].val && (Between(m0, m1, i, j) || OnRun(m0, m1, i, j))
    ensures Between(m0, m1, i, j + 1)
  {
    hide Top, Reach, RunEnd, Leads;
    if i > 0 {
      TopGrows(m0, i);
    } else {
      FirstLeads(m0);
    }
    if OnRun(m0, m1, i, j) {
      var v := Top(m0, i);
      ReachIs(m1, v);
      RunEndIs(m1, Reach(m1, v), v);
    }
  }

  /** The rows are equal: the left one leads, and the cursor is at the start of the run, or, for a
      value met before, at its end. */
  lemma RowsMeet(m0: seq<Pair>, m1: seq<Pair>, i: nat, j: nat)
    requires i < |m0| && j < |m1| && m0[i].val == m1[j].val && (Between(m0, m1, i, j) || OnRun(m0, m1, i, j))
    ensures Leads(m0, i) && Top(m0, i + 1) == m0[i].val && Reach(m1, m0[i].val) <= j
    ensures j > 0 ==> RowSafe(m0, m1, i) && Reach(m1, m0[i].val) > 0
    ensures if i > 0 && Top(m0, i) == m0[i].val then RunEnd(m1, Reach(m1, m0[i].val), m0[i].val) == j + 1
            else Reach(m1, m0[i].val) == j
  {
    hide Top, Reach, RunEnd, Leads;
    if i > 0 {
      TopGrows(m0, i);
    } else {
      FirstLeads(m0);
    }
    if Between(m0, m1, i, j) {
      OneReach(m1, m0[i].val, j);
    }
    ReachIs(m1, m0[i].val);
  }

  /** What has been emitted around the cursor is the row's contribution. */
  lemma RunEmitted(m0: seq<Pair>, m1: seq<Pair>, i: nat, j: nat, lo: nat, hi: nat)
    requires i < |m0| && 0 < lo <= j < hi <= |m1| && m0[i].val == m1[j].val
    requires Between(m0, m1, i, j) || OnRun(m0, m1, i, j)
    requires (forall k :: lo <= k < hi ==> m1[k].val == m0[i].val) && (hi == |m1| || m1[hi].val != m0[i].val)
    requires lo == 1 || m1[lo - 1].val != m0[i].val
    ensures [Match(m0[i].pos, m1[j].pos)] + Down(m0[i], m1, lo, j) + Up(m0[i], m1, j + 1, hi) == MergeRow(m0, m1, i)
    ensures i + 1 < |m0| ==> OnRun(m0, m1, i + 1, hi - 1)
  {
    hide Top, Reach, RunEnd, Leads, Between, OnRun, Up, Down, MergeRow;
    var x := m0[i];
    LeadingRow(m0, m1, i);
    RowsMeet(m0, m1, i, j);
    ReachIs(m1, x.val);
    var first := Reach(m1, x.val);
    RunEndIs(m1, first, x.val);
    RunAround(m1, first, lo, j, hi, x.val);
    if i > 0 && Top(m0, i) == x.val {
      DownFrom(x, m1, lo, j);
    } else {
      UpFrom(x, m1, j, hi);
    }
    if i + 1 < |m0| {
      assert Top(m0, i + 1) == x.val;
      RunIs(m0, m1, i + 1, hi - 1);
    }
  }

  lemma LeadingRow(m0: seq<Pair>, m1: seq<Pair>, i: nat)
    requires i < |m0|
    ensures var lo := Reach(m1, m0[i].val);
            var hi := RunEnd(m1, lo, m0[i].val);
            Leads(m0, i) ==>
              MergeRow(m0, m1, i) == if i > 0 && Top(m0, i) == m0[i].val then Down(m0[i], m1, lo, hi) else Up(m0[i], m1, lo, hi)
  {
  }

  lemma UpFrom(x: Pair, m: seq<Pair>, j: nat, hi: nat)
    requires j < hi <= |m|
    ensures [Match(x.pos, m[j].pos)] + Down(x, m, j, j) + Up(x, m, j + 1, hi) == Up(x, m, j, hi)
  {
  }

  lemma DownFrom(x: Pair, m: seq<Pair>, lo: nat, j: nat)
    requires lo <= j < |m|
    ensures [Match(x.pos, m[j].pos)] + Down(x, m, lo, j) + Up(x, m, j + 1, j + 1) == Down(x, m, lo, j + 1)
  {
  }

  lemma RunIs(m0: seq<Pair>, m1: seq<Pair>, i: nat, j: nat)
    requires 0 < i < |m0| && j < |m1| && m1[j].val == Top(m0, i)
    requires 0 < Reach(m1, Top(m0, i)) <= j && RunEnd(m1, Reach(m1, Top(m0, i)), Top(m0, i)) == j + 1
    ensures OnRun(m0, m1, i, j)
  {
  }

  /** The run that both scans find is the one that starts where the value is first reached. */
  lemma RunAround(m: seq<Pair>, first: nat, lo: nat, j: nat, hi: nat, v: int)
    requires 0 < lo <= j < hi <= |m| && 0 < first <= j && (forall k :: 0 <= k < first ==> m[k].val < v)
    requires (forall k :: lo <= k < hi ==> m[k].val == v) && (hi == |m| || m[hi].val != v)
    requires lo == 1 || m[lo - 1].val != v
    requires first == j || (RunEnd(m, first, v) == j + 1 && forall k :: first <= k < j + 1 ==> m[k].val == v)
    ensures first == lo && RunEnd(m, first, v) == hi
  {
    hide RunEnd;
    assert lo < first ==> m[lo].val < v;
    OneRunEnd(m, lo, v, hi);
  }

  /** The right side is used up. */
  lemma EndSkips(m0: seq<Pair>, m1: seq<Pair>, i: nat)
    requires Between(m0, m1, i, |m1|)
    ensures MergeRow(m0, m1, i) == [] && RowSafe(m0, m1, i)
    ensures i + 1 < |m0| ==> Between(m0, m1, i + 1, |m1|)
  {
    hide Top, Reach, RunEnd, Leads;
    if i > 0 {
      TopGrows(m0, i);
    } else {
      FirstLeads(m0);
    }
    if i + 1 < |m0| {
      TopGrows(m0, i + 1);
    }
    if Leads(m0, i) {
      OneReach(m1, m0[i].val, |m1|);
      OneRunEnd(m1, |m1|, m0[i].val, |m1|);
    }
  }

  lemma {:induction false} RestSkipped(m0: seq<Pair>, m1: seq<Pair>, i: nat)
    requires i <= |m0| && (i < |m0| ==> Between(m0, m1, i, |m1|))
    ensures MergeMatches(m0, m1, |m0|) == MergeMatches(m0, m1, i)
    ensures forall r :: i <= r < |m0| ==> RowSafe(m0, m1, r)
    decreases |m0| - i
  {
    hide MergeRow, RowSafe, Between;
    if i < |m0| {
      EndSkips(m0, m1, i);
      RestSkipped(m0, m1, i + 1);
    }
  }

  /** Whether a leading row matches the first right row. */
  lemma SafeRows(m0: seq<Pair>, m1: seq<Pair>)
    ensures FirstUnmatched(Leaders(m0), m1) <==> forall r :: 0 <= r < |m0| ==> RowSafe(m0, m1, r)
  {
    hide Leads, Leaders, HasValue;
    Unmatched(Leaders(m0), m1);
    if m1 != [] {
      var v := m1[0].val;
      LeaderOf(m0, v);
      if HasValue(Leaders(m0), v) {
        var r :| 0 <= r < |m0| && Leads(m0, r) && m0[r].val == v;
        assert !RowSafe(m0, m1, r);
      } else {
        forall r | 0 <= r < |m0|
          ensures RowSafe(m0, m1, r)
        {
        }
      }
    }
  }

  lemma Unmatched(a: seq<Pair>, m1: seq<Pair>)
    ensures FirstUnmatched(a, m1) <==> m1 == [] || !HasValue(a, m1[0].val)
  {
  }

  // ----- the code -----

  /** Downwards from the row before the right cursor; row 0 is never looked at. */
  method EmitBack(jv1: Variable, jv2: Variable, x: Pair, m1: seq<Pair>, j: nat,
                  ghost ids1: seq<nat>, ghost ids2: seq<nat>, ghost ms0: seq<Match>)
    returns (ghost lo: nat, ghost ms: seq<Match>)
    requires jv1 != jv2 && 0 < j < |m1|
    requires Collected(jv1, jv2, ids1, ids2, ms0)
    modifies jv1, jv2
    ensures 0 < lo <= j && (forall k :: lo <= k < j ==> m1[k].val == x.val)
    ensures lo == 1 || m1[lo - 1].val != x.val
    ensures ms == ms0 + Down(x, m1, lo, j) && Collected(jv1, jv2, ids1, ids2, ms)
  {
    hide Collected;
    ms := ms0;
    var itr := j - 1;
    assert ms == ms0 + Down(x, m1, j, j);
    while itr > 0 && x.val == m1[itr].val
      invariant 0 <= itr < j && (forall k :: itr < k < j ==> m1[k].val == x.val)
      invariant ms == ms0 + Down(x, m1, itr + 1, j) && Collected(jv1, jv2, ids1, ids2, ms)
    {
      Emit(jv1, jv2, x.pos, m1[itr].pos, ids1, ids2, ms);
      assert Down(x, m1, itr, j) == Down(x, m1, itr + 1, j) + [Match(x.pos, m1[itr].pos)];
      ms := ms + [Match(x.pos, m1[itr].pos)];
      itr := itr - 1;
    }
    lo := itr + 1;
  }

  /** Upwards from the row after the right cursor. */
  method EmitOn(jv1: Variable, jv2: Variable, x: Pair, m1: seq<Pair>, j: nat,
                ghost ids1: seq<nat>, ghost ids2: seq<nat>, ghost ms0: seq<Match>)
    returns (itr: nat, ghost ms: seq<Match>)
    requires jv1 != jv2 && j < |m1|
    requires Collected(jv1, jv2, ids1, ids2, ms0)
    modifies jv1, jv2
    ensures j < itr <= |m1| && (forall k :: j < k < itr ==> m1[k].val == x.val)
    ensures itr == |m1| || m1[itr].val != x.val
    ensures ms == ms0 + Up(x, m1, j + 1, itr) && Collected(jv1, jv2, ids1, ids2, ms)
  {
    hide Collected;
    ms := ms0;
    itr := j + 1;
    assert ms == ms0 + Up(x, m1, j + 1, j + 1);
    while itr < |m1| && x.val == m1[itr].val
      invariant j < itr <= |m1| && (forall k :: j < k < itr ==> m1[k].val == x.val)
      invariant ms == ms0 + Up(x, m1, j + 1, itr) && Collected(jv1, jv2, ids1, ids2, ms)
    {
      Emit(jv1, jv2, x.pos, m1[itr].pos, ids1, ids2, ms);
      assert Up(x, m1, j + 1, itr + 1) == Up(x, m1, j + 1, itr) + [Match(x.pos, m1[itr].pos)];
      ms := ms + [Match(x.pos, m1[itr].pos)];
      itr := itr + 1;
    }
  }

  /** The matches of one left row around the right cursor: the cursor first, then downwards, then
      upwards.  `last` is the last row of the run. */
  method EmitRun(jv1: Variable, jv2: Variable, m0: seq<Pair>, i: nat, m1: seq<Pair>, j: nat,
                 ghost ids1: seq<nat>, ghost ids2: seq<nat>, ghost ms0: seq<Match>)
    returns (last: nat, ghost ms: seq<Match>)
    requires jv1 != jv2 && i < |m0| && 0 < j < |m1| && m1[j].val == m0[i].val
    requires Between(m0, m1, i, j) || OnRun(m0, m1, i, j)
    requires Collected(jv1, jv2, ids1, ids2, ms0)
    modifies jv1, jv2
    ensures ms == ms0 + MergeRow(m0, m1, i) && Collected(jv1, jv2, ids1, ids2, ms)
    ensures j <= last < |m1| && (i + 1 < |m0| ==> OnRun(m0, m1, i + 1, last))
  {
    hide Collected, Between, OnRun, MergeRow, Up, Down;
    var x := m0[i];
    Emit(jv1, jv2, x.pos, m1[j].pos, ids1, ids2, ms0);
    ghost var lo, ms1;
    lo, ms1 := EmitBack(jv1, jv2, x, m1, j, ids1, ids2, ms0 + [Match(x.pos, m1[j].pos)]);
    var itr;
    itr, ms := EmitOn(jv1, jv2, x, m1, j, ids1, ids2, ms1);
    RunEmitted(m0, m1, i, j, lo, itr);
    InARow(ms0, [Match(x.pos, m1[j].pos)], Down(x, m1, lo, j), Up(x, m1, j + 1, itr));
    last := itr - 1;
  }

  lemma InARow(a: seq<Match>, b: seq<Match>, c: seq<Match>, d: seq<Match>)
    ensures a + b + c + d == a + (b + c + d)
  {
  }

  /** The merge join.  A match at the first right row makes the unsigned cursor j - 1 wrap, and
      the backward scan then reads outside the right side: `ok` says that this did not happen.
      Whatever the order of the two sides, the result is MergeMatches; on a sorted right side
      that is what the loop join finds for the left rows that are not smaller than any row
      before them, and on two sorted sides every match. */
  method SortJoin(jv1: Variable, jv2: Variable, m0: seq<Pair>, m1: seq<Pair>)
    returns (ok: bool, ghost ms: seq<Match>)
    requires jv1 != jv2
    modifies jv1, jv2
    ensures ok <==> FirstUnmatched(Leaders(m0), m1)
    ensures ok ==> ms == MergeMatches(m0, m1, |m0|) && Collected(jv1, jv2, old(jv1.ids), old(jv2.ids), ms)
    ensures ok ==> multiset(ms) <= multiset(LoopMatches(m0, m1))
    ensures ok && ValuesSorted(m1) ==> multiset(ms) == multiset(LoopMatches(Leaders(m0), m1))
    ensures ValuesSorted(m0) ==> (ok <==> FirstUnmatched(m0, m1))
    ensures ok && ValuesSorted(m0) && ValuesSorted(m1) ==> multiset(ms) == multiset(LoopMatches(m0, m1))
  {
    hide LoopMatches, MergeMatches, MergeRow, Between, OnRun, ValuesSorted, FirstUnmatched, RowSafe, Leaders, Leads, Top,
         Reach, RunEnd, Collected;
    ghost var ids1, ids2 := jv1.ids, jv2.ids;
    ms := [];
    SafeRows(m0, m1);
    MergeIsLoop(m0, m1, |m0|);
    assert m0[..|m0|] == m0;
    if ValuesSorted(m0) {
      SortedLead(m0);
    }
    AtStart(m0, m1);
    NoneCollected(jv1, jv2);
    var i, j := 0, 0;
    while i < |m0| && j < |m1|
      invariant 0 <= i <= |m0| && 0 <= j <= |m1|
      invariant i < |m0| ==> Between(m0, m1, i, j) || OnRun(m0, m1, i, j)
      invariant ms == MergeMatches(m0, m1, i) && Collected(jv1, jv2, ids1, ids2, ms)
      invariant forall r :: 0 <= r < i ==> RowSafe(m0, m1, r)
      decreases (|m0| - i) + (|m1| - j)
    {
      MergeMore(m0, m1, i);
      if m0[i].val < m1[j].val {
        RowSkipped(m0, m1, i, j);
        i := i + 1;
      } else if m0[i].val > m1[j].val {
        CursorMoves(m0, m1, i, j);
        j := j + 1;
      } else {
        RowsMeet(m0, m1, i, j);
        if j == 0 {
          NotSafe(m0, m1, i);
          ok := false;
          return;
        }
        j, ms := EmitRun(jv1, jv2, m0, i, m1, j, ids1, ids2, ms);
        i := i + 1;
      }
    }
    ok := true;
    if i < |m0| {
      AllPassed(m0, m1, i);
    }
    RestSkipped(m0, m1, i);
  }

  lemma AtStart(m0: seq<Pair>, m1: seq<Pair>)
    ensures MergeMatches(m0, m1, 0) == [] && (m0 != [] ==> Between(m0, m1, 0, 0))
  {
  }

  lemma MergeMore(m0: seq<Pair>, m1: seq<Pair>, i: nat)
    requires i < |m0|
    ensures MergeMatches(m0, m1, i + 1) == MergeMatches(m0, m1, i) + MergeRow(m0, m1, i)
  {
  }

  lemma NoneCollected(jv1: Variable, jv2: Variable)
    ensures Collected(jv1, jv2, jv1.ids, jv2.ids, [])
  {
  }

  lemma AllPassed(m0: seq<Pair>, m1: seq<Pair>, i: nat)
    requires Between(m0, m1, i, |m1|) || OnRun(m0, m1, i, |m1|)
    ensures Between(m0, m1, i, |m1|)
  {
  }

  lemma NotSafe(m0: seq<Pair>, m1: seq<Pair>, i: nat)
    requires i < |m0| && m1 != [] && Leads(m0, i) && m0[i].val == m1[0].val
    ensures !RowSafe(m0, m1, i)
  {
  }

  /** One equal row on each side is enough for the merge to look left of the first right row. */
  method MergeFails(jv1: Variable, jv2: Variable) returns (ok: bool)
    requires jv1 != jv2
    modifies jv1, jv2
    ensures !ok
  {
    ghost var ms;
    assert ValuesSorted([Pair(5, 0)]) && !FirstUnmatched([Pair(5, 0)], [Pair(5, 0)]);
    ok, ms := SortJoin(jv1, jv2, [Pair(5, 0)], [Pair(5, 0)]);
  }

  /** A left side that is not sorted: the smaller row behind a greater one loses its match. */
  method SortJoinLoses(jv1: Variable, jv2: Variable)
    requires jv1 != jv2
    modifies jv1, jv2
    ensures jv1.ids == old(jv1.ids) + [0] && jv2.ids == old(jv2.ids) + [8]
  {
    var m0, m1 := [Pair(5, 0), Pair(3, 1)], [Pair(1, 6), Pair(3, 7), Pair(5, 8)];
    hide MergeMatches, Leaders, LoopMatches, FirstUnmatched, ValuesSorted, Collected;
    OneLeader();
    ghost var ids1, ids2 := jv1.ids, jv2.ids;
    var ok;
    ghost var ms;
    ok, ms := SortJoin(jv1, jv2, m0, m1);
    OneCollected(jv1, jv2, ids1, ids2, Match(0, 8));
  }

  lemma OneCollected(jv1: Variable, jv2: Variable, ids1: seq<nat>, ids2: seq<nat>, m: Match)
    ensures Collected(jv1, jv2, ids1, ids2, [m]) <==> jv1.ids == ids1 + [m.left] && jv2.ids == ids2 + [m.right]
  {
    assert Lefts([m]) == [m.left] && Rights([m]) == [m.right];
  }

  lemma OneLeader()
    ensures var m0, m1 := [Pair(5, 0), Pair(3, 1)], [Pair(1, 6), Pair(3, 7), Pair(5, 8)];
            Leaders(m0) == [Pair(5, 0)] && FirstUnmatched(Leaders(m0), m1) && MergeMatches(m0, m1, |m0|) == [Match(0, 8)]
  {
    var m0, m1 := [Pair(5, 0), Pair(3, 1)], [Pair(1, 6), Pair(3, 7), Pair(5, 8)];
    assert m0[..1] == [Pair(5, 0)] && m0[..1][..0] == [];
    OneReach(m1, 5, 2);
    OneRunEnd(m1, 2, 5, 3);
    assert MergeRow(m0, m1, 1) == [];
    assert MergeRow(m0, m1, 0) == [Match(0, 8)];
    assert MergeMatches(m0, m1, 1) == [] + [Match(0, 8)];
  }
}
