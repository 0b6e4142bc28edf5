/** The file that bulk loading writes: leaves first, then level after level up to the root. */
module BulkShape {
  import opened Bounds
  import opened Columns
  import opened Records
  import opened TreeShape
  import opened TreeLemmas
  import opened TreeSearch

  /** Bytes copied from src[from..] to the front of dst. */
  method Memcpy<T>(dst: array<T>, src: array<T>, from: nat, count: nat)
    requires dst != src && from + count <= src.Length && count <= dst.Length
    modifies dst
    ensures forall k :: 0 <= k < count ==> dst[k] == src[from + k]
    ensures forall k :: count <= k < dst.Length ==> dst[k] == old(dst[k])
  {
    var k := 0;
    while k < count
      invariant 0 <= k <= count
      invariant forall j :: 0 <= j < k ==> dst[j] == src[from + j]
      invariant forall j :: k <= j < dst.Length ==> dst[j] == old(dst[j])
    {
      dst[k] := src[from + k];
      k := k + 1;
    }
  }

  /** The number of leaves. */
  function LeafCount(B: nat, s: seq<int>): nat
    requires B >= 4
  {
    GetCeil(|s|, B - 1)
  }

  /** Where leaf i starts in the values. */
  function StartOf(B: nat, i: nat): nat
    requires B >= 4
  {
    i * (B - 1)
  }

  lemma StartSteps(B: nat, i: nat)
    requires B >= 4
    ensures StartOf(B, 0) == 0 && StartOf(B, i + 1) == StartOf(B, i) + (B - 1)
  {
  }

  lemma StartGrows(B: nat, i: nat, j: nat)
    requires B >= 4 && i <= j
    ensures StartOf(B, i) + (j - i) <= StartOf(B, j)
  {
  }

  lemma FirstOrLater(B: nat, i: nat)
    requires B >= 4
    ensures i > 0 ==> StartOf(B, i) >= B - 1
    ensures i == 0 ==> StartOf(B, i) == 0
  {
    hide StartOf;
    StartSteps(B, 0);
    if i > 0 {
      StartGrows(B, 1, i);
    }
  }

  /** The leaves cover all values, and the last leaf is full exactly when the number
      of values is a multiple of what a leaf holds. */
  lemma LeavesCover(B: nat, s: seq<int>)
    requires B >= 4
    ensures |s| <= StartOf(B, LeafCount(B, s)) < |s| + (B - 1)
    ensures StartOf(B, LeafCount(B, s)) == |s| <==> |s| % (B - 1) == 0
  {
    var n, c := LeafCount(B, s), B - 1;
    var q, r := |s| / c, |s| % c;
    assert n * c - q * c == (n - q) * c;
    SmallMultiple(n - q, c, n * c - |s| + r);
    if r == 0 {
      SmallMultiple(n - q, c, n * c - |s|);
    } else if n * c == |s| {
      SmallMultiple(n - q, c, r);
    }
  }

  /** The only multiple of c from 0 to c-1 is 0. */
  lemma SmallMultiple(d: int, c: int, r: int)
    requires c > 0 && d * c == r
    ensures 0 <= r < c ==> d == 0 && r == 0
  {
  }

  lemma AtLeast(d: int, c: int)
    requires d >= 1 && c > 0
    ensures d * c >= c
  {
  }

  /** Which node of the next level a node of a level belongs to. */
  function Share(i: nat, B: nat): nat
    requires B > 0
  {
    i / B
  }

  /** Leaf i: B-1 consecutive values, or what is left of them.  Only a leaf that is
      not full ends the chain. */
  function LeafOf(B: nat, s: seq<int>, i: nat): Node
    requires B >= 4 && i < LeafCount(B, s)
  {
    var from, to := StartOf(B, i), Min(StartOf(B, i + 1), |s|);
    LeafStart(B, s, i);
    Node(true, s[from..to], Rows(from, to), LeafCount(B, s) + Share(i, B),
         if StartOf(B, i + 1) > |s| then 0 else i + 1, i)
  }

  lemma LeafFilled(B: nat, s: seq<int>, i: nat, count: nat, last: bool)
    requires B >= 4 && i < LeafCount(B, s) && StartOf(B, i) < |s|
    requires count == Min(B - 1, |s| - StartOf(B, i)) && (last <==> StartOf(B, i) + B - 1 > |s|)
    ensures StartOf(B, i) + count == Min(StartOf(B, i + 1), |s|) <= |s|
    ensures LeafOf(B, s, i) == Node(true, s[StartOf(B, i)..StartOf(B, i) + count], Rows(StartOf(B, i), StartOf(B, i) + count),
                                    LeafCount(B, s) + Share(i, B), if last then 0 else i + 1, i)
  {
    hide LeafCount, StartOf;
    StartSteps(B, i);
    LeafStart(B, s, i);
  }

  lemma RowsAre(rows: seq<nat>, from: nat, count: nat)
    requires count <= |rows| && forall k :: 0 <= k < count ==> rows[k] == from + k
    ensures rows[..count] == Rows(from, from + count)
  {
  }

  /** The unsigned test for the last leaf, in words that have room for all sizes. */
  lemma LastLeafTest(B: nat, size: nat, counter: nat)
    requires 4 <= B < UINT_END && counter < size < UINT_END && (counter == 0 || counter >= B - 1)
    ensures counter > (size - B + 1) % UINT_END <==> size >= B - 1 && counter + B - 1 > size
  {
  }

  lemma LeafStart(B: nat, s: seq<int>, i: nat)
    requires B >= 4 && i < LeafCount(B, s)
    ensures StartOf(B, i) < |s| && StartOf(B, i + 1) == StartOf(B, i) + (B - 1)
  {
    hide StartOf, LeafCount;
    LeavesCover(B, s);
    StartSteps(B, i);
    StartGrows(B, i + 1, LeafCount(B, s));
  }

  ghost predicate LeavesOk(B: nat, s: seq<int>, f: File, n: nat)
    requires B >= 4
  {
    && n <= LeafCount(B, s) && n <= |f|
    && forall i :: 0 <= i < n ==> f[i] == LeafOf(B, s, i)
  }

  /** The first value of leaf i. */
  ghost function StartKey(B: nat, s: seq<int>, i: nat): int
    requires B >= 4
  {
    if StartOf(B, i) < |s| then s[StartOf(B, i)] else 0
  }

  /** The first value of the leftmost leaf below position p. */
  ghost function FirstKey(B: nat, s: seq<int>, left: seq<nat>, p: nat): int
    requires B >= 4
  {
    if p < |left| then StartKey(B, s, left[p]) else 0
  }

  /** An interior node: every separator, those of a stale tail included, is the first
      value below the child to its right, and all children were written before. */
  ghost predicate Separates(B: nat, s: seq<int>, left: seq<nat>, n: Node, q: nat)
    requires B >= 4
  {
    && !n.isLeaf && n.pos == q && |n.pointers| == |n.keys| + 1 && q < |left|
    && (forall c :: 0 <= c < |n.pointers| ==> n.pointers[c] < q)
    && left[q] == left[n.pointers[0]]
    && (forall c :: 0 < c < |n.pointers| ==> n.keys[c - 1] == FirstKey(B, s, left, n.pointers[c]))
  }

  /** The file so far: leaves, and interior nodes that guide searches. */
  ghost predicate Guided(B: nat, s: seq<int>, f: File, left: seq<nat>)
    requires B >= 4
  {
    var n := LeafCount(B, s);
    && |left| == |f| && n <= |f| && LeavesOk(B, s, f, n)
    && (forall q :: 0 <= q < n ==> left[q] == q)
    && (forall q :: n <= q < |f| ==> left[q] < n && Separates(B, s, left, f[q], q))
  }

  /** Guidance extends to one more node. */
  lemma GuidedGrows(B: nat, s: seq<int>, f: File, left: seq<nat>, n: Node)
    requires B >= 4 && Guided(B, s, f, left)
    requires !n.isLeaf && n.pos == |f| && |n.pointers| == |n.keys| + 1
    requires forall c :: 0 <= c < |n.pointers| ==> n.pointers[c] < |f|
    requires forall c :: 0 < c < |n.pointers| ==> n.keys[c - 1] == FirstKey(B, s, left, n.pointers[c])
    ensures Guided(B, s, f + [n], Extended(left, left[n.pointers[0]]))
  {
    hide LeafCount, LeavesOk, FirstKey, Separates;
    var l := left[n.pointers[0]];
    LeavesStay(B, s, f, n);
    forall q | LeafCount(B, s) <= q < |f|
      ensures Separates(B, s, Extended(left, l), (f + [n])[q], q)
    {
      assert Separates(B, s, left, f[q], q);
      SeparatesStill(B, s, left, l, f[q], q);
    }
    NewSeparates(B, s, left, l, n);
  }

  lemma LeavesStay(B: nat, s: seq<int>, f: File, n: Node)
    requires B >= 4 && LeafCount(B, s) <= |f| && LeavesOk(B, s, f, LeafCount(B, s))
    ensures LeavesOk(B, s, f + [n], LeafCount(B, s))
  {
    hide LeafCount, LeafOf;
  }

  lemma SeparatesStill(B: nat, s: seq<int>, left: seq<nat>, l: nat, n: Node, q: nat)
    requires B >= 4 && q < |left| && Separates(B, s, left, n, q)
    ensures Separates(B, s, Extended(left, l), n, q)
  {
    hide LeafCount, StartKey;
  }

  lemma NewSeparates(B: nat, s: seq<int>, left: seq<nat>, l: nat, n: Node)
    requires B >= 4 && !n.isLeaf && n.pos == |left| && |n.pointers| == |n.keys| + 1
    requires forall c :: 0 <= c < |n.pointers| ==> n.pointers[c] < |left|
    requires forall c :: 0 < c < |n.pointers| ==> n.keys[c - 1] == FirstKey(B, s, left, n.pointers[c])
    requires l == left[n.pointers[0]]
    ensures Separates(B, s, Extended(left, l), n, |left|)
  {
    hide LeafCount, StartKey;
  }

  // ----- searching a bulk-loaded file -----

  lemma {:induction false} GuidedWalkable(B: nat, s: seq<int>, f: File, left: seq<nat>, p: nat)
    requires B >= 4 && Guided(B, s, f, left) && p < |f|
    ensures Walkable(f, p, p)
    decreases p
  {
    hide LeafCount, Guided, Walkable;
    NodeKind(B, s, f, left, p);
    var n := f[p];
    if !n.isLeaf {
      forall c | 0 <= c < |n.pointers|
        ensures Walkable(f, n.pointers[c], p - 1)
      {
        GuidedWalkable(B, s, f, left, n.pointers[c]);
        WalkableMore(f, n.pointers[c], n.pointers[c], p - 1);
      }
    }
    WalkableHere(f, p);
  }

  lemma NodeKind(B: nat, s: seq<int>, f: File, left: seq<nat>, p: nat)
    requires B >= 4 && Guided(B, s, f, left) && p < |f|
    ensures f[p].isLeaf <==> p < LeafCount(B, s)
    ensures !f[p].isLeaf ==> p > 0 && |f[p].pointers| == |f[p].keys| + 1 && forall c :: 0 <= c < |f[p].pointers| ==> f[p].pointers[c] < p
  {
    hide LeafCount, FirstKey;
    if p >= LeafCount(B, s) {
      assert Separates(B, s, left, f[p], p) && f[p].pointers[0] < p;
    } else {
      assert f[p] == LeafOf(B, s, p);
    }
  }

  lemma WalkableHere(f: File, p: nat)
    requires p < |f|
    requires !f[p].isLeaf ==> p > 0 && |f[p].pointers| == |f[p].keys| + 1
    requires !f[p].isLeaf ==> forall c :: 0 <= c < |f[p].pointers| ==> Walkable(f, f[p].pointers[c], p - 1)
    ensures Walkable(f, p, p)
  {
  }

  /** A descent reaches the leftmost leaf below, or a leaf whose first value is smaller. */
  lemma {:induction false} GuidedDescends(B: nat, s: seq<int>, f: File, left: seq<nat>, p: nat, key: int)
    requires B >= 4 && Guided(B, s, f, left) && p < |f|
    ensures p < |left|
    ensures var d := Descend(f, p, key, p);
            d < LeafCount(B, s) && (d == left[p] || StartKey(B, s, d) < key)
    decreases p
  {
    hide LeafCount, StartKey, LeafOf, Guided, Descend, Walkable;
    if p < LeafCount(B, s) {
      LeafStays(B, s, f, left, p, key);
    } else {
      var q := TurnOf(B, s, f, left, p, key);
      GuidedDescends(B, s, f, left, q, key);
      GuidedWalkable(B, s, f, left, q);
      DescendMore(f, q, key, q, p - 1);
    }
  }

  lemma LeafStays(B: nat, s: seq<int>, f: File, left: seq<nat>, p: nat, key: int)
    requires B >= 4 && Guided(B, s, f, left) && p < LeafCount(B, s)
    ensures p < |left| && left[p] == p && Descend(f, p, key, p) == p
  {
  }

  /** The child a search turns to. */
  lemma TurnOf(B: nat, s: seq<int>, f: File, left: seq<nat>, p: nat, key: int) returns (q: nat)
    requires B >= 4 && Guided(B, s, f, left) && LeafCount(B, s) <= p < |f|
    ensures q < p < |left| == |f| && Descend(f, p, key, p) == Descend(f, q, key, p - 1)
    ensures left[q] == left[p] || StartKey(B, s, left[q]) < key
  {
    hide LeafCount, StartKey, LeafOf;
    var n := f[p];
    assert Separates(B, s, left, n, p);
    CountBelowOk(n.keys, key);
    var c := CountBelow(n.keys, key);
    q := n.pointers[c];
    if c > 0 {
      assert n.keys[c - 1] < key;
    }
  }

  lemma {:induction false} WalkableMore(f: File, p: nat, h: nat, h': nat)
    requires Walkable(f, p, h) && h <= h'
    ensures Walkable(f, p, h')
    decreases h
  {
    if !f[p].isLeaf {
      forall c | 0 <= c < |f[p].pointers|
        ensures Walkable(f, f[p].pointers[c], h' - 1)
      {
        WalkableMore(f, f[p].pointers[c], h - 1, h' - 1);
      }
    }
  }

  lemma {:induction false} DescendMore(f: File, p: nat, key: int, h: nat, h': nat)
    requires Walkable(f, p, h) && h <= h'
    ensures Descend(f, p, key, h) == Descend(f, p, key, h')
    decreases h
  {
    if !f[p].isLeaf {
      CountBelowOk(f[p].keys, key);
      DescendMore(f, f[p].pointers[CountBelow(f[p].keys, key)], key, h - 1, h' - 1);
    }
  }

  // ----- the chain of leaves and its records -----

  lemma LeafPayload(B: nat, s: seq<int>, i: nat)
    requires B >= 4 && i < LeafCount(B, s)
    ensures StartOf(B, i) < Min(StartOf(B, i + 1), |s|) <= |s|
    ensures Indexed(s, StartOf(B, i)) == Payload(LeafOf(B, s, i)) + Indexed(s, Min(StartOf(B, i + 1), |s|))
  {
    hide StartOf, LeafCount, Indexed, Payload;
    LeafStart(B, s, i);
    var from, to := StartOf(B, i), Min(StartOf(B, i + 1), |s|);
    SlicePayload(LeafOf(B, s, i), s, from, to);
    IndexedSplit(s, from, to);
  }

  lemma SlicePayload(n: Node, s: seq<int>, from: nat, to: nat)
    requires from <= to <= |s| && n.keys == s[from..to] && n.pointers == Rows(from, to)
    ensures |Payload(n)| == to - from
    ensures forall k :: 0 <= k < to - from ==> Payload(n)[k] == Record(s[from + k], from + k)
    ensures Indexed(s, from) == Payload(n) + Indexed(s, to)
  {
  }

  /** The leaves from i on hold the records from there on. */
  lemma {:induction false} LeavesHold(B: nat, s: seq<int>, f: File, i: nat)
    requires B >= 4 && LeavesOk(B, s, f, LeafCount(B, s)) && i <= LeafCount(B, s)
    ensures Stored(f, Rows(i, LeafCount(B, s))) == Indexed(s, Min(StartOf(B, i), |s|))
    decreases LeafCount(B, s) - i
  {
    hide StartOf, LeafCount, LeafOf;
    var n := LeafCount(B, s);
    if i < n {
      LeavesHold(B, s, f, i + 1);
      LeafPayload(B, s, i);
      assert Rows(i, n)[1..] == Rows(i + 1, n);
    } else {
      LeavesCover(B, s);
    }
  }

  /** Records before leaf i are smaller than any key above the first value of leaf i. */
  lemma LeavesBelow(B: nat, s: seq<int>, f: File, i: nat, key: int)
    requires B >= 4 && Bounds.Sorted(s) && LeavesOk(B, s, f, LeafCount(B, s)) && i < LeafCount(B, s)
    requires i == 0 || StartKey(B, s, i) < key
    ensures KeysBelow(Stored(f, Rows(0, i)), key)
  {
    hide StartOf, LeafCount, LeafOf, Indexed, Stored;
    FrontRecords(B, s, f, i);
    LeafStart(B, s, i);
    StartSteps(B, 0);
    IndexedAt(s, 0);
    var a := Stored(f, Rows(0, i));
    if i > 0 {
      forall k | 0 <= k < |a|
        ensures a[k].key < key
      {
        assert a[k] == Indexed(s, 0)[k];
        assert s[k] <= s[StartOf(B, i)];
      }
    }
  }

  /** The leaves before leaf i hold the values before its start. */
  lemma FrontRecords(B: nat, s: seq<int>, f: File, i: nat)
    requires B >= 4 && LeavesOk(B, s, f, LeafCount(B, s)) && i < LeafCount(B, s)
    ensures StartOf(B, i) < |s| && |Indexed(s, 0)| == |s|
    ensures Stored(f, Rows(0, i)) == Indexed(s, 0)[..StartOf(B, i)]
  {
    hide StartOf, LeafCount, LeafOf, Indexed, Stored;
    var n := LeafCount(B, s);
    LeafStart(B, s, i);
    StartSteps(B, 0);
    LeavesHold(B, s, f, 0);
    LeavesHold(B, s, f, i);
    assert Rows(0, n) == Rows(0, i) + Rows(i, n);
    StoredConcat(f, Rows(0, i), Rows(i, n));
    IndexedAt(s, 0);
    IndexedAt(s, StartOf(B, i));
  }

  /** The nodes a walk along `next` passes: the leaves, and if the last leaf is full
      the interior node that happens to follow them in the file. */
  function WalkedChain(B: nat, s: seq<int>): seq<nat>
    requires B >= 4
  {
    var n := LeafCount(B, s);
    Rows(0, if |s| % (B - 1) == 0 then n + 1 else n)
  }

  // ----- the levels above the leaves -----

  /** The entries from which the next level is built: where each node lies, its first
      value, and the parent already promised to it. */
  ghost predicate Entries(B: nat, s: seq<int>, f: File, left: seq<nat>, keys: seq<int>, pointers: seq<nat>, n: nat)
    requires B >= 4
  {
    && 0 < n <= |keys| && n <= |pointers| && |left| == |f|
    && (forall k :: 0 <= k < n ==> EntryOk(B, s, f, left, keys[k], pointers[k], |f| + k / B))
    && left[pointers[0]] == 0
  }

  ghost predicate EntryOk(B: nat, s: seq<int>, f: File, left: seq<nat>, key: int, p: nat, parent: nat)
    requires B >= 4
  {
    && p < |f| && |left| == |f| && key == FirstKey(B, s, left, p) && f[p].parent == parent
  }

  /** Node p's parent field names a later node that points to p. */
  ghost predicate HasParent(f: File, p: nat) {
    p < |f| && p < f[p].parent < |f| && p in f[f[p].parent].pointers
  }

  /** A node of the next level from entries start, start+1, ... */
  lemma DivOf(B: nat, i: nat, c: nat)
    requires c < B
    ensures (i * B + c) / B == i
  {
    var q := (i * B + c) / B;
    var r := (i * B + c) % B;
    assert i * B + c == q * B + r;
    assert (i - q) * B == r - c;
    assert (q - i) * B == c - r;
    if i > q {
      AtLeast(i - q, B);
    } else if q > i {
      AtLeast(q - i, B);
    }
  }

  /** The node buffer after a full node: every key is the first value below the
      pointer to its right. */
  ghost predicate BufferOk(B: nat, s: seq<int>, f: File, left: seq<nat>, keys: seq<int>, pointers: seq<nat>)
    requires B >= 4
  {
    && |keys| == B - 1 && |pointers| == B && |left| == |f|
    && (forall c :: 0 <= c < B ==> pointers[c] < |f|)
    && (forall c :: 0 < c < B ==> keys[c - 1] == FirstKey(B, s, left, pointers[c]))
  }

  /** Copying r entries over the front of the buffer keeps it aligned, also when the
      rest of the buffer is stale. */
  lemma BufferKept(B: nat, s: seq<int>, f: File, left: seq<nat>, keys: seq<int>, pointers: seq<nat>,
                   keys': seq<int>, pointers': seq<nat>, K: seq<int>, P: seq<nat>, start: nat, r: nat)
    requires B >= 4 && 0 < r <= B && start + r <= |K| == |P| && |left| == |f|
    requires |keys| == |keys'| == B - 1 && |pointers| == |pointers'| == B
    requires r < B ==> BufferOk(B, s, f, left, keys, pointers)
    requires forall k :: start <= k < start + r ==> P[k] < |f| && K[k] == FirstKey(B, s, left, P[k])
    requires forall c :: 0 <= c < r ==> pointers'[c] == P[start + c]
    requires forall c :: r <= c < B ==> pointers'[c] == pointers[c]
    requires forall c :: 0 <= c < r - 1 ==> keys'[c] == K[start + 1 + c]
    requires forall c :: r - 1 <= c < B - 1 ==> keys'[c] == keys[c]
    ensures BufferOk(B, s, f, left, keys', pointers') && pointers'[0] == P[start]
  {
  }

  lemma FirstKeyKept(B: nat, s: seq<int>, left: seq<nat>, left': seq<nat>, p: nat)
    requires B >= 4 && left <= left' && p < |left|
    ensures FirstKey(B, s, left, p) == FirstKey(B, s, left', p)
  {
  }

  /** All nodes of a level, built from the entries P. */
  ghost predicate LevelHolds(B: nat, f: File, base: nat, P: seq<nat>, num: nat) {
    && B > 0 && base + GetCeil(num, B) <= |f|
    && forall j :: 0 <= j < GetCeil(num, B) ==> NodeHolds(B, f[base + j], P, num, j * B)
  }

  /** Node j of the level that is being built: what it was built from, where it lies
      and which parent it is promised; (key, p) is its entry for the next level. */
  ghost predicate Built(B: nat, K: seq<int>, P: seq<nat>, num: nat, left0: seq<nat>, base: nat, newNum: nat,
                        n: Node, leftmost: nat, key: int, p: nat, j: nat)
  {
    var start := j * B;
    && B > 0 && start < num <= |P| && |P| == |K| && P[start] < |left0|
    && n.pos == p == base + j && n.parent == base + newNum + j / B && n.next == 0
    && NodeHolds(B, n, P, num, start) && n.keys != []
    && key == K[start] && leftmost == left0[P[start]]
  }

  /** A node built from the entries start, start+1, ...  If they do not fill it, the rest of
      its pointers is left from the node before it. */
  ghost predicate NodeHolds(B: nat, n: Node, P: seq<nat>, num: nat, start: nat) {
    && B > 0 && |n.pointers| == B && start < num <= |P|
    && (forall c :: 0 <= c < Min(B, num - start) ==> n.pointers[c] == P[start + c])
    && (start + B > num ==> start > 0 && n.pointers[B - 1] == P[start - 1])
  }

  /** All nodes of the level up to m. */
  ghost predicate BuiltUpTo(B: nat, K: seq<int>, P: seq<nat>, num: nat, left0: seq<nat>, base: nat, newNum: nat,
                            f: File, left: seq<nat>, keys: seq<int>, pointers: seq<nat>, m: nat)
  {
    && base + m <= |f| && |left| == |f| && m <= |keys| && m <= |pointers|
    && forall j :: 0 <= j < m ==>
         Built(B, K, P, num, left0, base, newNum, f[base + j], left[base + j], keys[j], pointers[j], j)
  }

  lemma CeilStarts(B: nat, num: nat, j: nat)
    requires B > 0
    ensures j < GetCeil(num, B) <==> j * B < num
  {
    var n := GetCeil(num, B);
    assert n * B - j * B == (n - j) * B;
    assert (j - n) * B == j * B - n * B;
    if j < n {
      if n - j > 1 {
        AtLeast(n - j - 1, B);
        assert (n - j - 1) * B == (n - j) * B - B;
      }
    } else if j > n {
      AtLeast(j - n, B);
    }
  }

  /** A level under construction: i nodes of it are written, the entries it still
      needs are in place, and the buffer holds the last node. */
  ghost predicate Building(B: nat, s: seq<int>, K: seq<int>, P: seq<nat>, num: nat, f0: File, left0: seq<nat>, newNum: nat,
                           f: File, left: seq<nat>, keys: seq<int>, pointers: seq<nat>,
                           nKeys: seq<int>, nPtrs: seq<nat>, i: nat)
    requires B >= 4
  {
    && |f| == |f0| + i && f0 <= f && left0 <= left && Guided(B, s, f, left)
    && |keys| == |K| && |pointers| == |P|
    && (forall k :: i <= k < |K| ==> keys[k] == K[k]) && (forall k :: i <= k < |P| ==> pointers[k] == P[k])
    && BuiltUpTo(B, K, P, num, left0, |f0|, newNum, f, left, keys, pointers, i)
    && (i > 0 ==> BufferOk(B, s, f, left, nKeys, nPtrs))
    && LastCopied(B, P, num, nPtrs, i * B)
  }

  /** The buffer's last pointer is the last one consumed, as long as nodes were full. */
  ghost predicate LastCopied(B: nat, P: seq<nat>, num: nat, nPtrs: seq<nat>, start: nat) {
    0 < start <= num <= |P| && |nPtrs| == B > 0 ==> nPtrs[B - 1] == P[start - 1]
  }

  lemma NodeFilled(B: nat, P: seq<nat>, num: nat, n: Node, oldPtrs: seq<nat>, start: nat)
    requires B >= 4 && start < num <= |P| && |n.pointers| == |oldPtrs| == B && (start == 0 ==> B <= num)
    requires LastCopied(B, P, num, oldPtrs, start)
    requires forall c :: 0 <= c < Min(B, num - start) ==> n.pointers[c] == P[start + c]
    requires forall c :: Min(B, num - start) <= c < B ==> n.pointers[c] == oldPtrs[c]
    ensures NodeHolds(B, n, P, num, start)
  {
  }

  lemma HoldsLast(B: nat, n: Node, P: seq<nat>, num: nat, start: nat)
    requires NodeHolds(B, n, P, num, start)
    ensures LastCopied(B, P, num, n.pointers, start + B)
  {
  }

  /** One node further. */
  lemma BuildingGrows(B: nat, s: seq<int>, K: seq<int>, P: seq<nat>, num: nat, f0: File, left0: seq<nat>, newNum: nat,
                      f: File, left: seq<nat>, keys: seq<int>, pointers: seq<nat>, i: nat,
                      oldKeys: seq<int>, oldPtrs: seq<nat>, n: Node, l: nat, keys': seq<int>, pointers': seq<nat>, start: nat)
    requires B >= 4 && i < |K| == |P| == |keys| == |pointers| == |keys'| == |pointers'|
    requires !n.isLeaf && n.pos == |f| && 0 < |n.pointers| && n.pointers[0] < |left| && l == left[n.pointers[0]]
    requires forall k :: 0 <= k < |keys| && k != i ==> keys'[k] == keys[k]
    requires forall k :: 0 <= k < |pointers| && k != i ==> pointers'[k] == pointers[k]
    requires Building(B, s, K, P, num, f0, left0, newNum, f, left, keys, pointers, oldKeys, oldPtrs, i)
    requires BufferOk(B, s, f, left, n.keys, n.pointers)
    requires Built(B, K, P, num, left0, |f0|, newNum, n, l, keys'[i], pointers'[i], i)
    requires NodeHolds(B, n, P, num, start) && start == i * B && (i + 1) * B == start + B
    ensures Building(B, s, K, P, num, f0, left0, newNum, f + [n], Extended(left, l), keys', pointers', n.keys, n.pointers, i + 1)
  {
    hide FirstKey, LeafCount, Built, Separates, LeavesOk, NodeHolds, LastCopied;
    HoldsLast(B, n, P, num, start);
    GuidedGrows(B, s, f, left, n);
    BufferGrows(B, s, f, left, n.keys, n.pointers, n, l);
    BuiltOneMore(B, K, P, num, left0, |f0|, newNum, f, left, keys, pointers, i, n, l, keys', pointers');
  }

  lemma NodeBuilt(B: nat, K: seq<int>, P: seq<nat>, num: nat, left0: seq<nat>, base: nat, newNum: nat,
                  n: Node, l: nat, j: nat, start: nat)
    requires B > 0 && start == j * B && start < num <= |P| == |K| && P[start] < |left0| && l == left0[P[start]]
    requires n.pos == base + j && n.parent == base + newNum + j / B && n.next == 0 && n.keys != []
    requires NodeHolds(B, n, P, num, start)
    ensures Built(B, K, P, num, left0, base, newNum, n, l, K[start], base + j, j)
  {
  }

  /** One node of a level, and its entry, put over the first of those it was made from. */
  lemma LevelNodeDone(B: nat, s: seq<int>, K: seq<int>, P: seq<nat>, num: nat, f0: File, left0: seq<nat>, newNum: nat,
                      f: File, left: seq<nat>, keys: seq<int>, pointers: seq<nat>, i: nat, start: nat,
                      oldKeys: seq<int>, oldPtrs: seq<nat>, n: Node)
    requires B >= 4 && start == i * B && i <= start < num <= |K| == |P| == |keys| == |pointers| && (i == 0 ==> start + B <= num)
    requires Building(B, s, K, P, num, f0, left0, newNum, f, left, keys, pointers, oldKeys, oldPtrs, i)
    requires P[start] < |left0| && |oldPtrs| == |n.pointers| == B && n.pointers[0] < |left|
    requires BufferOk(B, s, f, left, n.keys, n.pointers)
    requires n == Node(false, n.keys, n.pointers, n.parent, 0, |f|) && n.parent == |f0| + newNum + Share(i, B)
    requires forall c :: 0 <= c < Min(B, num - start) ==> n.pointers[c] == P[start + c]
    requires forall c :: Min(B, num - start) <= c < B ==> n.pointers[c] == oldPtrs[c]
    ensures Building(B, s, K, P, num, f0, left0, newNum, f + [n], Extended(left, left[n.pointers[0]]),
                     keys[i := keys[start]], pointers[i := |f|], n.keys, n.pointers, i + 1)
  {
    hide FirstKey, Guided, BuiltUpTo, NodeHolds;
    assert n.pointers[0] == P[start] && n.keys != [];
    NodeFilled(B, P, num, n, oldPtrs, start);
    NextStart(B, i);
    NodeBuilt(B, K, P, num, left0, |f0|, newNum, n, left[n.pointers[0]], i, start);
    BuildingGrows(B, s, K, P, num, f0, left0, newNum, f, left, keys, pointers, i,
                  oldKeys, oldPtrs, n, left[n.pointers[0]], keys[i := keys[start]], pointers[i := |f|], start);
  }

  lemma NextStart(B: nat, i: nat)
    ensures (i + 1) * B == i * B + B
  {
  }

  /** What a level under construction has for its next node. */
  lemma BuildingHas(B: nat, s: seq<int>, K: seq<int>, P: seq<nat>, num: nat, f0: File, left0: seq<nat>, newNum: nat,
                    f: File, left: seq<nat>, keys: seq<int>, pointers: seq<nat>, nKeys: seq<int>, nPtrs: seq<nat>, i: nat)
    requires B >= 4 && Building(B, s, K, P, num, f0, left0, newNum, f, left, keys, pointers, nKeys, nPtrs, i)
    ensures |keys| == |K| && |pointers| == |P| && Guided(B, s, f, left) && |f| == |f0| + i
    ensures forall k :: i <= k < |K| ==> keys[k] == K[k]
    ensures forall k :: i <= k < |P| ==> pointers[k] == P[k]
    ensures i > 0 ==> BufferOk(B, s, f, left, nKeys, nPtrs)
  {
  }

  /** Once the level is complete, its nodes are the entries of the next level and every
      node of the level below has its promised parent. */
  lemma LevelDone(B: nat, s: seq<int>, K: seq<int>, P: seq<nat>, num: nat, f0: File, left0: seq<nat>, newNum: nat,
                  f: File, left: seq<nat>, keys: seq<int>, pointers: seq<nat>)
    requires B >= 4 && newNum == GetCeil(num, B) && Entries(B, s, f0, left0, K, P, num) && |P| == |K|
    requires BuiltUpTo(B, K, P, num, left0, |f0|, newNum, f, left, keys, pointers, newNum)
    requires |f| == |f0| + newNum && f0 <= f && left0 <= left
    ensures Entries(B, s, f, left, keys, pointers, newNum)
    ensures forall k :: 0 <= k < num ==> HasParent(f, P[k])
    ensures forall k :: 0 <= k < newNum ==> pointers[k] == |f0| + k
    ensures f[|f0|].next == 0 && f[|f0|].keys != []
    ensures LevelHolds(B, f, |f0|, P, num)
  {
    hide FirstKey, NodeHolds, HasParent, GetCeil, Built;
    CeilStarts(B, num, 0);
    forall j | 0 <= j < newNum
      ensures EntryOk(B, s, f, left, keys[j], pointers[j], |f| + j / B) && pointers[j] == |f0| + j
    {
      assert Built(B, K, P, num, left0, |f0|, newNum, f[|f0| + j], left[|f0| + j], keys[j], pointers[j], j);
      CeilStarts(B, num, j);
      assert EntryOk(B, s, f0, left0, K[j * B], P[j * B], |f0| + j * B / B);
      BuiltIs(B, K, P, num, left0, |f0|, newNum, f[|f0| + j], left[|f0| + j], keys[j], pointers[j], j);
      SameLeft(B, s, left0, P[j * B], left, pointers[j]);
    }
    forall j | 0 <= j < newNum
      ensures NodeHolds(B, f[|f0| + j], P, num, j * B)
    {
      assert Built(B, K, P, num, left0, |f0|, newNum, f[|f0| + j], left[|f0| + j], keys[j], pointers[j], j);
      BuiltIs(B, K, P, num, left0, |f0|, newNum, f[|f0| + j], left[|f0| + j], keys[j], pointers[j], j);
    }
    assert Built(B, K, P, num, left0, |f0|, newNum, f[|f0| + 0], left[|f0| + 0], keys[0], pointers[0], 0);
    BuiltIs(B, K, P, num, left0, |f0|, newNum, f[|f0| + 0], left[|f0| + 0], keys[0], pointers[0], 0);
    forall k | 0 <= k < num
      ensures HasParent(f, P[k])
    {
      ChildHasParent(B, s, K, P, num, f0, left0, newNum, f, left, keys, pointers, k);
    }
  }

  lemma BuiltIs(B: nat, K: seq<int>, P: seq<nat>, num: nat, left0: seq<nat>, base: nat, newNum: nat,
                n: Node, leftmost: nat, key: int, p: nat, j: nat)
    requires Built(B, K, P, num, left0, base, newNum, n, leftmost, key, p, j)
    ensures j * B < num <= |P| == |K| && P[j * B] < |left0| && NodeHolds(B, n, P, num, j * B)
    ensures n.pos == p == base + j && n.parent == base + newNum + j / B && n.next == 0 && n.keys != []
    ensures key == K[j * B] && leftmost == left0[P[j * B]]
  {
  }

  lemma SameLeft(B: nat, s: seq<int>, left0: seq<nat>, p: nat, left: seq<nat>, q: nat)
    requires B >= 4 && p < |left0| && q < |left| && left[q] == left0[p]
    ensures FirstKey(B, s, left, q) == FirstKey(B, s, left0, p)
  {
  }

  lemma StartBelow(B: nat, k: nat) returns (j: nat, start: nat)
    requires B > 0
    ensures j == k / B && start == j * B <= k < start + B
  {
    j, start := k / B, k / B * B;
  }

  lemma ChildHasParent(B: nat, s: seq<int>, K: seq<int>, P: seq<nat>, num: nat, f0: File, left0: seq<nat>, newNum: nat,
                       f: File, left: seq<nat>, keys: seq<int>, pointers: seq<nat>, k: nat)
    requires B >= 4 && newNum == GetCeil(num, B) && Entries(B, s, f0, left0, K, P, num) && |P| == |K|
    requires BuiltUpTo(B, K, P, num, left0, |f0|, newNum, f, left, keys, pointers, newNum)
    requires |f| == |f0| + newNum && f0 <= f && k < num
    ensures HasParent(f, P[k])
  {
    hide FirstKey, Built, GetCeil;
    var j, start := StartBelow(B, k);
    CeilStarts(B, num, j);
    assert EntryOk(B, s, f0, left0, K[k], P[k], |f0| + j);
    assert Built(B, K, P, num, left0, |f0|, newNum, f[|f0| + j], left[|f0| + j], keys[j], pointers[j], j);
    BuiltPointer(B, K, P, num, left0, |f0|, newNum, f[|f0| + j], left[|f0| + j], keys[j], pointers[j], j, start, k - start);
  }

  lemma BuiltPointer(B: nat, K: seq<int>, P: seq<nat>, num: nat, left0: seq<nat>, base: nat, newNum: nat,
                     n: Node, l: nat, key: int, p: nat, j: nat, start: nat, c: nat)
    requires Built(B, K, P, num, left0, base, newNum, n, l, key, p, j) && start == j * B
    requires c < B && start + c < num
    ensures start + c < |P| && P[start + c] in n.pointers
  {
    assert n.pointers[c] == P[start + c];
  }

  lemma BufferGrows(B: nat, s: seq<int>, f: File, left: seq<nat>, keys: seq<int>, pointers: seq<nat>, n: Node, l: nat)
    requires B >= 4 && BufferOk(B, s, f, left, keys, pointers)
    ensures BufferOk(B, s, f + [n], Extended(left, l), keys, pointers)
  {
  }

  /** The entries of the next node are still in place when its turn comes. */
  lemma LevelStep(B: nat, s: seq<int>, K: seq<int>, P: seq<nat>, num: nat, f0: File, left0: seq<nat>, left: seq<nat>,
                  i: nat, newNum: nat, start: nat)
    requires B >= 4 && newNum == GetCeil(num, B) && Entries(B, s, f0, left0, K, P, num) && |P| == |K|
    requires left0 <= left && i < newNum && start == i * B
    ensures i <= start < num && (i + 1) * B == start + B && P[start] < |left0|
    ensures start + B > num ==> i + 1 == newNum
    ensures i == 0 ==> start + B <= num || num < B
    ensures forall k :: start <= k < Min(start + B, num) ==> P[k] < |f0| && K[k] == FirstKey(B, s, left, P[k])
  {
    hide GetCeil, FirstKey;
    CeilStarts(B, num, i);
    CeilStarts(B, num, i + 1);
    assert (i + 1) * B == i * B + B;
    if i > 0 {
      AtLeast(B, i);
    }
    assert EntryOk(B, s, f0, left0, K[start], P[start], |f0| + start / B);
    forall k | start <= k < Min(start + B, num)
      ensures P[k] < |f0| && K[k] == FirstKey(B, s, left, P[k])
    {
      assert EntryOk(B, s, f0, left0, K[k], P[k], |f0| + k / B);
      FirstKeyKept(B, s, left0, left, P[k]);
    }
  }

  lemma LevelStart(B: nat, s: seq<int>, K: seq<int>, P: seq<nat>, num: nat, f0: File, left0: seq<nat>, newNum: nat,
                   nKeys: seq<int>, nPtrs: seq<nat>)
    requires B >= 4 && Guided(B, s, f0, left0) && Entries(B, s, f0, left0, K, P, num) && newNum == GetCeil(num, B)
    ensures newNum <= num
    ensures Building(B, s, K, P, num, f0, left0, newNum, f0, left0, K, P, nKeys, nPtrs, 0)
  {
    if newNum > num {
      CeilStarts(B, num, num);
      AtLeast(B, num);
    }
  }

  /** The level grows by one node. */
  lemma BuiltOneMore(B: nat, K: seq<int>, P: seq<nat>, num: nat, left0: seq<nat>, base: nat, newNum: nat,
                     f: File, left: seq<nat>, keys: seq<int>, pointers: seq<nat>, m: nat,
                     n: Node, l: nat, keys': seq<int>, pointers': seq<nat>)
    requires BuiltUpTo(B, K, P, num, left0, base, newNum, f, left, keys, pointers, m) && |f| == base + m
    requires m < |keys'| && m < |pointers'|
    requires forall k :: 0 <= k < m ==> keys'[k] == keys[k] && pointers'[k] == pointers[k]
    requires Built(B, K, P, num, left0, base, newNum, n, l, keys'[m], pointers'[m], m)
    ensures BuiltUpTo(B, K, P, num, left0, base, newNum, f + [n], Extended(left, l), keys', pointers', m + 1)
  {
  }

  /** What bulk loading leaves in the file. */
  ghost predicate Loaded(B: nat, s: seq<int>, f: File, left: seq<nat>, root: nat)
    requires B >= 4
  {
    var n := LeafCount(B, s);
    && Guided(B, s, f, left) && n < |f| && root == |f| - 1 && left[root] == 0
    && f[root].parent == 0 && f[n].next == 0
    && (forall p :: 0 <= p < root ==> HasParent(f, p))
    && (n == 1 ==> f[n].keys == [])
    && (n > 1 ==> f[n].keys != [])
    && (n <= B ==> root == n && f[root].pointers == Rows(0, n))
  }

  /** Between two levels: the last `num` nodes of the file are the entries of the next
      level, and every node before them has its parent. */
  ghost predicate Staged(B: nat, s: seq<int>, f: File, left: seq<nat>, keys: seq<int>, pointers: seq<nat>, num: nat)
    requires B >= 4
  {
    && Guided(B, s, f, left) && Entries(B, s, f, left, keys, pointers, num) && num <= |f| && 0 < num <= |keys| == |pointers|
    && (forall k :: 0 <= k < num ==> pointers[k] == |f| - num + k)
    && (forall p :: 0 <= p < |f| - num ==> HasParent(f, p))
    && (if |f| == LeafCount(B, s) then num == |f|
        else |f| > LeafCount(B, s) && f[LeafCount(B, s)].next == 0 && f[LeafCount(B, s)].keys != [] && LeafCount(B, s) > B)
  }

  lemma LeavesDone(B: nat, s: seq<int>, f: File, keys: seq<int>, pointers: seq<nat>)
    requires B >= 4 && |s| >= B - 1 && |f| == LeafCount(B, s) == |keys| == |pointers| && LeavesOk(B, s, f, |f|)
    requires forall i :: 0 <= i < |keys| ==> keys[i] == StartKey(B, s, i) && pointers[i] == i
    ensures Staged(B, s, f, Rows(0, |f|), keys, pointers, |f|)
  {
  }

  // ----- the storeys of a bulk-loaded file -----

  /** How many nodes level k has, when there are n leaves. */
  function LevelSize(B: nat, n: nat, k: nat): nat
    requires B > 0
  {
    if k == 0 then n else GetCeil(LevelSize(B, n, k - 1), B)
  }

  /** Where level k starts in the file. */
  function LevelBase(B: nat, n: nat, k: nat): nat
    requires B > 0
  {
    if k == 0 then 0 else LevelBase(B, n, k - 1) + LevelSize(B, n, k - 1)
  }

  /** The num nodes from base on, and the level above them: who names whom. */
  ghost predicate Storey(B: nat, f: File, base: nat, num: nat) {
    && B > 0 && base + num + GetCeil(num, B) <= |f|
    && (forall p :: base <= p < base + num ==> f[p].parent == base + num + (p - base) / B)
    && (forall j :: 0 <= j < GetCeil(num, B) ==> StoreyNode(B, f[base + num + j], base, num, j * B))
  }

  ghost predicate StoreyNode(B: nat, n: Node, base: nat, num: nat, start: nat) {
    && |n.pointers| == B && start < num
    && (forall c :: 0 <= c < Min(B, num - start) ==> n.pointers[c] == base + start + c)
    && (start + B > num ==> start > 0 && n.pointers[B - 1] == base + start - 1)
  }

  /** The levels below level k are complete, and so is everything that points into them. */
  ghost predicate Rises(B: nat, f: File, n: nat, k: nat) {
    B > 0 && forall l :: 0 <= l < k ==> LevelSize(B, n, l) > B && Storey(B, f, LevelBase(B, n, l), LevelSize(B, n, l))
  }

  /** Level k has just been completed. */
  ghost predicate Reached(B: nat, f: File, n: nat, k: nat, num: nat) {
    Rises(B, f, n, k) && num == LevelSize(B, n, k) && |f| == LevelBase(B, n, k) + num
  }

  /** The finished file: level h is the last one below the root, and has at most B nodes. */
  ghost predicate Storeyed(B: nat, f: File, n: nat, h: nat) {
    && Rises(B, f, n, h) && LevelSize(B, n, h) <= B
    && var base, num := LevelBase(B, n, h), LevelSize(B, n, h);
    && |f| == base + num + 1 && f[base + num].pointers == Rows(base, base + num)
    && (forall p :: base <= p < base + num ==> f[p].parent == base + num)
  }

  lemma StoreyKept(B: nat, f: File, f': File, base: nat, num: nat)
    requires Storey(B, f, base, num) && f <= f'
    ensures Storey(B, f', base, num)
  {
  }

  lemma RisesKept(B: nat, f: File, f': File, n: nat, k: nat)
    requires Rises(B, f, n, k) && f <= f'
    ensures Rises(B, f', n, k)
  {
    hide Storey, LevelSize, LevelBase;
    forall l | 0 <= l < k
      ensures Storey(B, f', LevelBase(B, n, l), LevelSize(B, n, l))
    {
      StoreyKept(B, f, f', LevelBase(B, n, l), LevelSize(B, n, l));
    }
  }

  /** A level that was built from the entries of the one below is a storey. */
  lemma StoreyDone(B: nat, s: seq<int>, f: File, left: seq<nat>, keys: seq<int>, pointers: seq<nat>, num: nat, f': File)
    requires B >= 4 && Staged(B, s, f, left, keys, pointers, num)
    requires f <= f' && |f'| == |f| + GetCeil(num, B)
    requires LevelHolds(B, f', |f|, pointers, num)
    ensures Storey(B, f', |f| - num, num)
  {
    hide GetCeil, Guided, HasParent, FirstKey;
    forall p | |f| - num <= p < |f|
      ensures f'[p].parent == |f| + (p - (|f| - num)) / B
    {
      var i := p - (|f| - num);
      assert EntryOk(B, s, f, left, keys[i], pointers[i], |f| + i / B);
    }
    forall j | 0 <= j < GetCeil(num, B)
      ensures StoreyNode(B, f'[|f| + j], |f| - num, num, j * B)
    {
      assert NodeHolds(B, f'[|f| + j], pointers, num, j * B);
      HoldsStorey(B, f'[|f| + j], pointers, num, j * B, |f| - num);
    }
  }

  lemma HoldsStorey(B: nat, n: Node, P: seq<nat>, num: nat, start: nat, base: nat)
    requires NodeHolds(B, n, P, num, start) && forall k :: 0 <= k < num ==> P[k] == base + k
    ensures StoreyNode(B, n, base, num, start)
  {
  }

  /** One level further up. */
  lemma LevelReached(B: nat, f: File, f': File, n: nat, k: nat, num: nat)
    requires Reached(B, f, n, k, num) && num > B && f <= f' && |f'| == |f| + GetCeil(num, B)
    requires num <= |f| && Storey(B, f', |f| - num, num)
    ensures Reached(B, f', n, k + 1, GetCeil(num, B))
  {
    hide Storey, GetCeil, LevelSize, LevelBase, Rises;
    RisesKept(B, f, f', n, k);
    FloorSizes(B, n, k + 1);
    RisesOneMore(B, f', n, k);
  }

  lemma RisesOneMore(B: nat, f: File, n: nat, k: nat)
    requires Rises(B, f, n, k) && LevelSize(B, n, k) > B && Storey(B, f, LevelBase(B, n, k), LevelSize(B, n, k))
    ensures Rises(B, f, n, k + 1)
  {
    hide Storey, LevelSize, LevelBase;
  }

  lemma FloorSizes(B: nat, n: nat, l: nat)
    requires B > 0
    ensures l == 0 ==> LevelBase(B, n, l) == 0 && LevelSize(B, n, l) == n
    ensures l > 0 ==> LevelBase(B, n, l) == LevelBase(B, n, l - 1) + LevelSize(B, n, l - 1)
    ensures l > 0 ==> LevelSize(B, n, l) == GetCeil(LevelSize(B, n, l - 1), B)
  {
  }

  /** The root on top of the storeys. */
  lemma RootTops(B: nat, s: seq<int>, f: File, left: seq<nat>, keys: seq<int>, pointers: seq<nat>, num: nat,
                 r: Node, n: nat, h: nat)
    requires B >= 4 && Staged(B, s, f, left, keys, pointers, num) && num <= B && Reached(B, f, n, h, num)
    requires r == Node(false, keys[1..num], pointers[..num], 0, 0, |f|)
    ensures Storeyed(B, f + [r], n, h)
  {
    hide Storey, LevelSize, LevelBase, Guided, HasParent, Entries;
    RisesKept(B, f, f + [r], n, h);
    forall p | |f| - num <= p < |f|
      ensures f[p].parent == |f|
    {
      LastParent(B, s, f, left, keys, pointers, num, p - (|f| - num));
    }
    assert pointers[..num] == Rows(|f| - num, |f|);
  }

  /** Levels shrink until one node is enough. */
  lemma LevelsShrink(B: nat, num: nat)
    requires B >= 4 && num > 0
    ensures GetCeil(num, B) != 1 <==> num > B
    ensures num > B ==> 1 < GetCeil(num, B) < num
  {
    CeilStarts(B, num, 0);
    CeilStarts(B, num, 1);
    CeilStarts(B, num, num - 1);
    assert (num - 1) * B == (num - 1) * 2 + (num - 1) * (B - 2);
  }

  lemma NextLevel(B: nat, s: seq<int>, f: File, left: seq<nat>, keys: seq<int>, pointers: seq<nat>, num: nat,
                  f': File, left': seq<nat>, keys': seq<int>, pointers': seq<nat>, newNum: nat)
    requires B >= 4 && Staged(B, s, f, left, keys, pointers, num) && num > B && newNum > 0
    requires Guided(B, s, f', left') && Entries(B, s, f', left', keys', pointers', newNum)
    requires newNum <= |keys'| == |pointers'| && |f'| == |f| + newNum && f <= f'
    requires forall k :: 0 <= k < newNum ==> pointers'[k] == |f| + k
    requires forall k :: 0 <= k < num ==> HasParent(f', pointers[k])
    requires f'[|f|].next == 0 && f'[|f|].keys != []
    ensures Staged(B, s, f', left', keys', pointers', newNum)
  {
    hide Guided, Entries, LeafCount;
    forall p | 0 <= p < |f'| - newNum
      ensures HasParent(f', p)
    {
      if p < |f| - num {
        assert HasParent(f, p);
      } else {
        assert pointers[p - (|f| - num)] == p;
      }
    }
  }

  /** The root completes the file. */
  lemma RootDone(B: nat, s: seq<int>, f: File, left: seq<nat>, keys: seq<int>, pointers: seq<nat>, num: nat, n: Node)
    requires B >= 4 && Staged(B, s, f, left, keys, pointers, num) && num <= B
    requires n == Node(false, keys[1..num], pointers[..num], 0, 0, |f|)
    ensures Loaded(B, s, f + [n], Extended(left, 0), |f|)
  {
    hide LeafCount, FirstKey, Guided, HasParent;
    RootGuides(B, s, f, left, keys, pointers, num, n);
    RootParents(B, s, f, left, keys, pointers, num, n);
    RootAlone(B, s, f, left, keys, pointers, num, n);
    GuidedSizes(B, s, f, left);
  }

  lemma GuidedSizes(B: nat, s: seq<int>, f: File, left: seq<nat>)
    requires B >= 4 && Guided(B, s, f, left)
    ensures LeafCount(B, s) <= |f| == |left|
  {
  }

  lemma RootGuides(B: nat, s: seq<int>, f: File, left: seq<nat>, keys: seq<int>, pointers: seq<nat>, num: nat, n: Node)
    requires B >= 4 && Staged(B, s, f, left, keys, pointers, num)
    requires n == Node(false, keys[1..num], pointers[..num], 0, 0, |f|)
    ensures Guided(B, s, f + [n], Extended(left, 0))
  {
    hide LeafCount, FirstKey, Guided;
    forall c | 0 <= c < num
      ensures n.pointers[c] < |f| && keys[c] == FirstKey(B, s, left, n.pointers[c])
    {
      assert EntryOk(B, s, f, left, keys[c], pointers[c], |f| + c / B);
    }
    GuidedGrows(B, s, f, left, n);
  }

  lemma RootParents(B: nat, s: seq<int>, f: File, left: seq<nat>, keys: seq<int>, pointers: seq<nat>, num: nat, n: Node)
    requires B >= 4 && Staged(B, s, f, left, keys, pointers, num) && num <= B
    requires n == Node(false, keys[1..num], pointers[..num], 0, 0, |f|)
    ensures forall p :: 0 <= p < |f| ==> HasParent(f + [n], p)
  {
    hide LeafCount, FirstKey, Guided, Entries;
    forall p | 0 <= p < |f|
      ensures HasParent(f + [n], p)
    {
      var k := p - (|f| - num);
      if k < 0 {
        assert HasParent(f, p);
      } else {
        LastParent(B, s, f, left, keys, pointers, num, k);
        assert n.pointers[k] == p;
      }
    }
  }

  /** The last few nodes all wait for one parent, the root. */
  lemma LastParent(B: nat, s: seq<int>, f: File, left: seq<nat>, keys: seq<int>, pointers: seq<nat>, num: nat, k: nat)
    requires B >= 4 && Entries(B, s, f, left, keys, pointers, num) && k < num <= B
    ensures pointers[k] < |f| && f[pointers[k]].parent == |f|
  {
    hide FirstKey;
    assert EntryOk(B, s, f, left, keys[k], pointers[k], |f| + k / B);
    assert k / B == 0;
  }

  /** The first interior node; it is the root itself when there are at most B leaves. */
  lemma RootAlone(B: nat, s: seq<int>, f: File, left: seq<nat>, keys: seq<int>, pointers: seq<nat>, num: nat, n: Node)
    requires B >= 4 && Staged(B, s, f, left, keys, pointers, num) && num <= B
    requires n == Node(false, keys[1..num], pointers[..num], 0, 0, |f|)
    ensures LeafCount(B, s) <= |f|
    ensures var g, m := f + [n], LeafCount(B, s);
            && g[m].next == 0 && (m == 1 ==> g[m].keys == []) && (m > 1 ==> g[m].keys != [])
            && (m <= B ==> |f| == m && n.pointers == Rows(0, m))
  {
  }

  /** Without values there are no leaves, and no level ever has exactly one node. */
  lemma NoLevel(B: nat, size: nat)
    requires B >= 4
    ensures GetCeil(size, B - 1) == 0 <==> size == 0
    ensures GetCeil(0, B) == 0
  {
  }

  lemma LoadingNext(B: nat, s: seq<int>, f: File, left: seq<nat>, keys: seq<int>, pointers: seq<nat>, num: nat)
    requires B >= 4 && Staged(B, s, f, left, keys, pointers, num)
    ensures Guided(B, s, f, left) && Entries(B, s, f, left, keys, pointers, num)
  {
  }
}
