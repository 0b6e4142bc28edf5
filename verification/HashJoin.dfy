/** The hash join of helper_join.c: a stable counting sort by bucket, then a probe. */
module HashJoin {
  import opened Powers
  import opened Bounds
  import opened JoinPairs

  const AVG_HASH_BUCKET_SIZE := 16

  /** The lowest bits of a value, negative values taken as unsigned words. */
  function Bucket(val: int, bits: nat): (r: nat)
    ensures r < Power(2, bits)
  {
    PowerPositive(2, bits);
    (val % UINT_END) % Power(2, bits)
  }

  /** The rows of bucket k, in their order. */
  function InBucket(h: seq<Pair>, bits: nat, k: nat): seq<Pair> {
    if h == [] then []
    else
      var x := h[|h| - 1];
      InBucket(h[..|h| - 1], bits, k) + if Bucket(x.val, bits) == k then [x] else []
  }

  /** Where bucket k starts: behind the rows of all buckets before it. */
  function Offset(h: seq<Pair>, bits: nat, k: nat): nat {
    if k == 0 then 0 else Offset(h, bits, k - 1) + |InBucket(h, bits, k - 1)|
  }

  // ----- buckets -----

  lemma InBucketMore(h: seq<Pair>, bits: nat, k: nat, i: nat)
    requires i < |h|
    ensures InBucket(h[..i + 1], bits, k)
         == InBucket(h[..i], bits, k) + if Bucket(h[i].val, bits) == k then [h[i]] else []
  {
    assert h[..i + 1][..i] == h[..i];
  }

  lemma {:induction false} InBucketGrows(h: seq<Pair>, bits: nat, k: nat, i: nat)
    requires i <= |h|
    ensures InBucket(h[..i], bits, k) <= InBucket(h, bits, k)
    decreases |h| - i
  {
    if i < |h| {
      InBucketMore(h, bits, k, i);
      InBucketGrows(h, bits, k, i + 1);
    } else {
      assert h[..i] == h;
    }
  }

  lemma OffsetStep(h: seq<Pair>, bits: nat, k: nat)
    ensures Offset(h, bits, 0) == 0 && Offset(h, bits, k + 1) == Offset(h, bits, k) + |InBucket(h, bits, k)|
  {
  }

  lemma {:induction false} OffsetGrows(h: seq<Pair>, bits: nat, j: nat, k: nat)
    requires j < k
    ensures Offset(h, bits, j) + |InBucket(h, bits, j)| <= Offset(h, bits, k)
    decreases k
  {
    if j < k - 1 {
      OffsetGrows(h, bits, j, k - 1);
    }
  }

  lemma {:induction false} OffsetPush(h: seq<Pair>, bits: nat, k: nat)
    requires h != []
    ensures Offset(h, bits, k)
         == Offset(h[..|h| - 1], bits, k) + if Bucket(h[|h| - 1].val, bits) < k then 1 else 0
  {
    if k > 0 {
      OffsetPush(h, bits, k - 1);
    }
  }

  /** The buckets together hold every row. */
  lemma {:induction false} OffsetTotal(h: seq<Pair>, bits: nat)
    ensures Offset(h, bits, Power(2, bits)) == |h|
  {
    if h == [] {
      OffsetNone(bits, Power(2, bits));
    } else {
      OffsetPush(h, bits, Power(2, bits));
      OffsetTotal(h[..|h| - 1], bits);
    }
  }

  lemma {:induction false} OffsetNone(bits: nat, k: nat)
    ensures Offset([], bits, k) == 0
  {
    if k > 0 {
      OffsetNone(bits, k - 1);
    }
  }

  /** A row's matches all lie in its own bucket. */
  lemma {:induction false} BucketSuffices(x: Pair, h: seq<Pair>, bits: nat)
    ensures RowMatches(x, InBucket(h, bits, Bucket(x.val, bits))) == RowMatches(x, h)
  {
    if h != [] {
      var c, y, k := h[..|h| - 1], h[|h| - 1], Bucket(x.val, bits);
      BucketSuffices(x, c, bits);
      if Bucket(y.val, bits) == k {
        assert (InBucket(c, bits, k) + [y])[..|InBucket(c, bits, k)|] == InBucket(c, bits, k);
      } else {
        assert InBucket(c, bits, k) + [] == InBucket(c, bits, k);
        assert RowMatches(x, c) + [] == RowMatches(x, c);
      }
    }
  }

  // ----- the counting sort -----

  /** Bucket k after the first i rows have been placed: it fills up from its offset. */
  ghost predicate BucketHolds(h: seq<Pair>, bits: nat, i: nat, table: seq<Pair>, next: nat, k: nat)
    requires i <= |h|
  {
    && Offset(h, bits, k) + |InBucket(h[..i], bits, k)| == next <= |table|
    && table[Offset(h, bits, k)..next] == InBucket(h[..i], bits, k)
  }

  ghost predicate Filled(h: seq<Pair>, bits: nat, i: nat, table: seq<Pair>, next: seq<nat>)
    requires i <= |h|
  {
    && |table| == |h| && |next| == Power(2, bits)
    && forall k :: 0 <= k < |next| ==> BucketHolds(h, bits, i, table, next[k], k)
  }

  /** Where the next row goes, and why no other bucket is touched. */
  lemma SlotFree(h: seq<Pair>, bits: nat, i: nat, k: nat)
    requires i < |h| && k < Power(2, bits)
    ensures var b := Bucket(h[i].val, bits);
            var slot := Offset(h, bits, b) + |InBucket(h[..i], bits, b)|;
            && slot < |h|
            && (k < b ==> Offset(h, bits, k) + |InBucket(h[..i], bits, k)| <= slot)
            && (k > b ==> slot < Offset(h, bits, k))
  {
    hide Bucket, Offset, InBucket;
    var b := Bucket(h[i].val, bits);
    InBucketMore(h, bits, b, i);
    InBucketGrows(h, bits, b, i + 1);
    OffsetTotal(h, bits);
    OffsetGrows(h, bits, b, Power(2, bits));
    InBucketGrows(h, bits, k, i);
    if k < b {
      OffsetGrows(h, bits, k, b);
    } else if k > b {
      OffsetGrows(h, bits, b, k);
    }
  }

  /** Placing row i in its bucket. */
  lemma PlaceRow(h: seq<Pair>, bits: nat, i: nat, table: seq<Pair>, next: seq<nat>)
    requires i < |h| && Filled(h, bits, i, table, next)
    ensures var b := Bucket(h[i].val, bits);
            && next[b] < |table|
            && Filled(h, bits, i + 1, table[next[b] := h[i]], next[b := next[b] + 1])
  {
    hide Bucket, Offset, InBucket, Power;
    var b := Bucket(h[i].val, bits);
    assert BucketHolds(h, bits, i, table, next[b], b);
    SlotFree(h, bits, i, b);
    var table', next' := table[next[b] := h[i]], next[b := next[b] + 1];
    forall k | 0 <= k < |next|
      ensures BucketHolds(h, bits, i + 1, table', next'[k], k)
    {
      assert BucketHolds(h, bits, i, table, next[k], k);
      SlotFree(h, bits, i, k);
      InBucketMore(h, bits, k, i);
      var from := Offset(h, bits, k);
      if k == b {
        assert table'[from..next'[k]] == table[from..next[k]] + [h[i]];
      } else {
        assert table'[from..next'[k]] == table[from..next[k]];
      }
    }
  }

  /** The number of low bits: the length of the number of buckets of 16 rows needed. */
  method CountBits(minSize: nat) returns (bits: nat)
    ensures GetCeil(minSize, AVG_HASH_BUCKET_SIZE) < Power(2, bits)
    ensures bits > 0 ==> Power(2, bits - 1) <= GetCeil(minSize, AVG_HASH_BUCKET_SIZE)
  {
    hide GetCeil;
    var temp := GetCeil(minSize, AVG_HASH_BUCKET_SIZE);
    ghost var t := temp;
    bits := 0;
    PowerPositive(2, 0);
    while temp > 0
      invariant temp * Power(2, bits) <= t < (temp + 1) * Power(2, bits)
      invariant bits > 0 ==> Power(2, bits - 1) <= t
    {
      HalfSteps(temp, Power(2, bits), t);
      temp := temp / 2;
      bits := bits + 1;
    }
  }

  lemma HalfSteps(x: nat, p: nat, t: nat)
    requires x > 0 && x * p <= t < (x + 1) * p
    ensures x / 2 * (2 * p) <= t < (x / 2 + 1) * (2 * p) && p <= t
  {
    var y := x / 2;
    assert y * (2 * p) == (2 * y) * p && (y + 1) * (2 * p) == (2 * y + 2) * p;
    if x == 2 * y {
      assert (x + 2) * p == (x + 1) * p + p;
    } else {
      assert x * p == (2 * y) * p + p;
    }
    assert x * p == p + (x - 1) * p;
  }

  /** First pass: how many rows each bucket gets. */
  method CountBuckets(hashVal: seq<Pair>, bits: nat) returns (remap: array<nat>)
    ensures fresh(remap) && remap.Length == Power(2, bits)
    ensures forall k :: 0 <= k < remap.Length ==> remap[k] == |InBucket(hashVal, bits, k)|
  {
    remap := new nat[Power(2, bits)](_ => 0);
    var i := 0;
    while i < |hashVal|
      invariant 0 <= i <= |hashVal|
      invariant forall k :: 0 <= k < remap.Length ==> remap[k] == |InBucket(hashVal[..i], bits, k)|
    {
      forall k: nat {
        InBucketMore(hashVal, bits, k, i);
      }
      var b := Bucket(hashVal[i].val, bits);
      remap[b] := remap[b] + 1;
      i := i + 1;
    }
    assert hashVal[..|hashVal|] == hashVal;
  }

  /** Counts become offsets. */
  method Accumulate(remap: array<nat>, ghost hashVal: seq<Pair>, ghost bits: nat)
    requires remap.Length == Power(2, bits)
    requires forall k :: 0 <= k < remap.Length ==> remap[k] == |InBucket(hashVal, bits, k)|
    modifies remap
    ensures forall k :: 0 <= k < remap.Length ==> remap[k] == Offset(hashVal, bits, k)
  {
    hide Offset, InBucket, Power;
    OffsetStep(hashVal, bits, 0);
    var i, sum := 0, 0;
    while i < remap.Length
      invariant 0 <= i <= remap.Length && sum == Offset(hashVal, bits, i)
      invariant forall k :: 0 <= k < i ==> remap[k] == Offset(hashVal, bits, k)
      invariant forall k :: i <= k < remap.Length ==> remap[k] == |InBucket(hashVal, bits, k)|
    {
      OffsetStep(hashVal, bits, i);
      var count := remap[i];
      remap[i] := sum;
      sum := sum + count;
      i := i + 1;
    }
  }

  /** Second pass: every row moves to the next free place of its bucket. */
  method FillTable(hashVal: seq<Pair>, bits: nat, remap: array<nat>)
    returns (remapCount: array<nat>, table: array<Pair>)
    requires remap.Length == Power(2, bits)
    requires forall k :: 0 <= k < remap.Length ==> remap[k] == Offset(hashVal, bits, k)
    ensures fresh(remapCount) && fresh(table) && Filled(hashVal, bits, |hashVal|, table[..], remapCount[..])
  {
    hide Bucket, Offset, InBucket, BucketHolds;
    remapCount := new nat[remap.Length](k requires 0 <= k < remap.Length reads remap => remap[k]);
    table := new Pair[|hashVal|](_ => Pair(0, 0));
    FilledStart(hashVal, bits, table[..], remapCount[..]);
    var i := 0;
    while i < |hashVal|
      invariant 0 <= i <= |hashVal|
      invariant Filled(hashVal, bits, i, table[..], remapCount[..])
    {
      PlaceRow(hashVal, bits, i, table[..], remapCount[..]);
      var b := Bucket(hashVal[i].val, bits);
      var index := remapCount[b];
      ghost var t, c := table[..], remapCount[..];
      table[index] := hashVal[i];
      remapCount[b] := remapCount[b] + 1;
      assert table[..] == t[index := hashVal[i]] && remapCount[..] == c[b := index + 1];
      i := i + 1;
    }
  }

  lemma FilledStart(h: seq<Pair>, bits: nat, table: seq<Pair>, next: seq<nat>)
    requires |table| == |h| && |next| == Power(2, bits)
    requires forall k :: 0 <= k < |next| ==> next[k] == Offset(h, bits, k)
    ensures Filled(h, bits, 0, table, next)
  {
    hide Offset;
    forall k | 0 <= k < |next|
      ensures BucketHolds(h, bits, 0, table, next[k], k)
    {
      OffsetTotal(h, bits);
      OffsetGrows(h, bits, k, Power(2, bits));
    }
  }

  /** Where the rows of a bucket lie in the finished table. */
  lemma BucketRange(h: seq<Pair>, bits: nat, table: seq<Pair>, next: seq<nat>, b: nat)
    requires Filled(h, bits, |h|, table, next) && b < Power(2, bits)
    ensures |next| == Power(2, bits) && Offset(h, bits, b) <= next[b] <= |table|
    ensures table[Offset(h, bits, b)..next[b]] == InBucket(h, bits, b)
  {
    hide Offset, InBucket, Power;
    assert BucketHolds(h, bits, |h|, table, next[b], b);
    assert h[..|h|] == h;
  }

  /** Builds the table of one side and probes it with the rows of the other: the
      matches appear in the order of the probing side. */
  method HashAndProbe(hashV: Variable, otherV: Variable, hashVal: seq<Pair>, otherVal: seq<Pair>)
    requires hashV != otherV
    modifies hashV, otherV
    ensures Collected(otherV, hashV, old(otherV.ids), old(hashV.ids), LoopMatches(otherVal, hashVal))
  {
    hide Bucket, Offset, InBucket, Filled, LoopMatches, RowMatches;
    var bits := CountBits(|hashVal|);
    var remap := CountBuckets(hashVal, bits);
    Accumulate(remap, hashVal, bits);
    var remapCount, table := FillTable(hashVal, bits, remap);
    ghost var ids1, ids2, entries, ends := otherV.ids, hashV.ids, table[..], remapCount[..];
    NoRows(hashVal);
    assert otherVal[..0] == [];
    var i := 0;
    while i < |otherVal|
      invariant 0 <= i <= |otherVal|
      invariant Collected(otherV, hashV, ids1, ids2, LoopMatches(otherVal[..i], hashVal))
      invariant table[..] == entries && remapCount[..] == ends
      modifies hashV, otherV
    {
      var b := Bucket(otherVal[i].val, bits);
      BucketRange(hashVal, bits, entries, ends, b);
      Probe(hashV, otherV, table, remap[b], remapCount[b], otherVal[i], ids1, ids2, LoopMatches(otherVal[..i], hashVal));
      BucketSuffices(otherVal[i], hashVal, bits);
      LoopMatchesMore(otherVal, hashVal, i);
      i := i + 1;
    }
    assert otherVal[..|otherVal|] == otherVal;
  }

  /** Looks for one row in its bucket. */
  method Probe(hashV: Variable, otherV: Variable, table: array<Pair>, from: nat, to: nat, x: Pair,
               ghost ids1: seq<nat>, ghost ids2: seq<nat>, ghost ms: seq<Match>)
    requires hashV != otherV && from <= to <= table.Length && Collected(otherV, hashV, ids1, ids2, ms)
    modifies hashV, otherV
    ensures Collected(otherV, hashV, ids1, ids2, ms + RowMatches(x, table[from..to]))
  {
    ghost var bucket := table[from..to];
    assert ms + RowMatches(x, bucket[..0]) == ms;
    var hashIndex := from;
    while hashIndex < to
      invariant from <= hashIndex <= to
      invariant Collected(otherV, hashV, ids1, ids2, ms + RowMatches(x, bucket[..hashIndex - from]))
    {
      ghost var found := RowMatches(x, bucket[..hashIndex - from]);
      RowMatchesMore(x, bucket, hashIndex - from);
      if table[hashIndex].val == x.val {
        Emit(otherV, hashV, x.pos, table[hashIndex].pos, ids1, ids2, ms + found);
        assert ms + found + [Match(x.pos, table[hashIndex].pos)] == ms + (found + [Match(x.pos, table[hashIndex].pos)]);
      } else {
        assert found + [] == found;
      }
      hashIndex := hashIndex + 1;
    }
    assert bucket[..to - from] == bucket;
  }

  /** What the hash join emits: with a larger left side the nested loops, otherwise
      the nested loops exchanged. */
  function HashMatches(m0: seq<Pair>, m1: seq<Pair>): seq<Match> {
    if |m0| > |m1| then LoopMatches(m0, m1) else Swapped(LoopMatches(m1, m0))
  }

  /** Hashes the smaller side. */
  method HashJoin(jv1: Variable, jv2: Variable, m0: seq<Pair>, m1: seq<Pair>)
    requires jv1 != jv2
    modifies jv1, jv2
    ensures Collected(jv1, jv2, old(jv1.ids), old(jv2.ids), HashMatches(m0, m1))
  {
    if |m0| > |m1| {
      HashAndProbe(jv2, jv1, m1, m0);
    } else {
      HashAndProbe(jv1, jv2, m0, m1);
      assert Lefts(Swapped(LoopMatches(m1, m0))) == Rights(LoopMatches(m1, m0));
      assert Rights(Swapped(LoopMatches(m1, m0))) == Lefts(LoopMatches(m1, m0));
    }
  }

  /** Hash join and loop join find the same matches, each the same number of times. */
  lemma HashIsLoop(m0: seq<Pair>, m1: seq<Pair>)
    ensures multiset(HashMatches(m0, m1)) == multiset(LoopMatches(m0, m1))
  {
    LoopsExchange(m0, m1);
  }
}
