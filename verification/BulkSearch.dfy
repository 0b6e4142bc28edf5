/** Range searches over a bulk-loaded file. */
module BulkSearch {
  import opened Bounds
  import opened Columns
  import opened Records
  import opened TreeShape
  import opened TreeLemmas
  import opened TreeSearch
  import opened BulkShape

  lemma ChainLength(B: nat, s: seq<int>)
    requires B >= 4
    ensures var n := LeafCount(B, s);
            WalkedChain(B, s) == if |s| % (B - 1) == 0 then Rows(0, n) + [n] else Rows(0, n)
  {
  }

  /** `next` links the leaves, and a full last leaf with the node behind it. */
  lemma LeafNext(B: nat, s: seq<int>, f: File, i: nat)
    requires B >= 4 && LeavesOk(B, s, f, LeafCount(B, s)) && i < LeafCount(B, s)
    ensures f[i].next == if i + 1 < LeafCount(B, s) || |s| % (B - 1) == 0 then i + 1 else 0
    ensures |f[i].keys| == |f[i].pointers| && f[i].isLeaf
  {
    hide LeafCount, StartOf;
    LeavesCover(B, s);
    LeafStart(B, s, i);
    assert f[i] == LeafOf(B, s, i);
    if i + 1 < LeafCount(B, s) {
      LeafStart(B, s, i + 1);
    }
  }

  lemma LoadedLinked(B: nat, s: seq<int>, f: File, left: seq<nat>, root: nat)
    requires B >= 4 && Loaded(B, s, f, left, root)
    ensures Linked(f, WalkedChain(B, s))
  {
    hide LeafCount, StartOf, LeafOf, FirstKey, HasParent;
    var chain, n := WalkedChain(B, s), LeafCount(B, s);
    ChainLength(B, s);
    forall i | 0 <= i < |chain|
      ensures NextIs(f, chain, i) && |f[chain[i]].keys| <= |f[chain[i]].pointers|
    {
      if i < n {
        LeafNext(B, s, f, i);
      } else {
        assert Separates(B, s, left, f[n], n);
      }
    }
  }

  /** A bulk-loaded file can be searched along the chain that a walk really follows. */
  lemma LoadedSearchable(B: nat, s: seq<int>, f: File, left: seq<nat>, root: nat)
    requires B >= 4 && Loaded(B, s, f, left, root) && Sorted(s)
    ensures Searchable(f, root, root, WalkedChain(B, s))
  {
    hide LeafCount, StartOf, LeafOf, FirstKey, StartKey, HasParent, Linked, LeavesOk, Stored, Walkable, KeysBelow;
    GuidedWalkable(B, s, f, left, root);
    LoadedLinked(B, s, f, left, root);
    forall key | key < INT_END
      ensures LandsSomewhere(f, WalkedChain(B, s), Descend(f, root, key, root), key)
    {
      GuidedDescends(B, s, f, left, root, key);
      var d := Descend(f, root, key, root);
      LandsAt(B, s, f, d, key);
    }
  }

  lemma LandsAt(B: nat, s: seq<int>, f: File, d: nat, key: int)
    requires B >= 4 && Sorted(s) && LeafCount(B, s) <= |f| && LeavesOk(B, s, f, LeafCount(B, s))
    requires d < LeafCount(B, s) && (d == 0 || StartKey(B, s, d) < key)
    ensures Lands(f, WalkedChain(B, s), d, key, d)
  {
    hide LeafCount, StartOf, LeafOf, StartKey, LeavesOk, Stored, KeysBelow;
    LeavesBelow(B, s, f, d, key);
    assert WalkedChain(B, s)[..d] == Rows(0, d);
  }

  lemma LoadedParts(B: nat, s: seq<int>, f: File, left: seq<nat>, root: nat)
    requires B >= 4 && Loaded(B, s, f, left, root)
    ensures LeafCount(B, s) < |f| && LeavesOk(B, s, f, LeafCount(B, s)) && root < |f| && f[root].parent == 0
  {
  }

  /** What a walk over the whole chain finds: every record, and after a full last leaf
      the separators of the first interior node as well. */
  lemma ChainStored(B: nat, s: seq<int>, f: File, left: seq<nat>, root: nat)
    requires B >= 4 && Loaded(B, s, f, left, root)
    ensures ChainInFile(f, WalkedChain(B, s)) && LeafCount(B, s) < |f|
    ensures Stored(f, WalkedChain(B, s))
         == Indexed(s, 0) + (if |s| % (B - 1) == 0 then Payload(f[LeafCount(B, s)]) else [])
  {
    hide Loaded, LeavesOk, LeafCount, StartOf, LeafOf, Payload, Indexed;
    var n := LeafCount(B, s);
    LoadedParts(B, s, f, left, root);
    ChainLength(B, s);
    StartSteps(B, 0);
    LeavesHold(B, s, f, 0);
    if |s| % (B - 1) == 0 {
      StoredConcat(f, Rows(0, n), [n]);
      assert Stored(f, [n]) == Payload(f[n]) + Stored(f, [n][1..]);
      assert Stored(f, [n]) == Payload(f[n]);
    }
  }

  /** Bulk loading supports searching exactly when the last leaf is not full, or when a
      single full leaf is all there is. */
  lemma SearchesRightIff(B: nat, s: seq<int>, f: File, left: seq<nat>, root: nat)
    requires B >= 4 && Loaded(B, s, f, left, root) && Sorted(s) && |s| > 0 && s[0] < INT_END
    ensures SearchesRight(f, root, Indexed(s, 0)) <==> |s| % (B - 1) != 0 || |s| == B - 1
  {
    hide Loaded, SearchOutcome, Select, Indexed;
    if |s| % (B - 1) != 0 || |s| == B - 1 {
      LoadedSelects(B, s, f, left, root);
    } else {
      var rows := OverrunFound(B, s, f, left, root);
    }
  }

  lemma LoadedSelects(B: nat, s: seq<int>, f: File, left: seq<nat>, root: nat)
    requires B >= 4 && Loaded(B, s, f, left, root) && Sorted(s) && (|s| % (B - 1) != 0 || |s| == B - 1)
    ensures SearchesRight(f, root, Indexed(s, 0))
  {
    hide Loaded, Indexed, WalkedChain, Searchable, SearchesRight, Stored;
    LoadedSearchable(B, s, f, left, root);
    LoadedHolds(B, s, f, left, root);
    IndexedSorted(s);
    SearchableRight(f, root, root, WalkedChain(B, s));
  }

  lemma LoadedHolds(B: nat, s: seq<int>, f: File, left: seq<nat>, root: nat)
    requires B >= 4 && Loaded(B, s, f, left, root) && (|s| % (B - 1) != 0 || |s| == B - 1)
    ensures ChainInFile(f, WalkedChain(B, s)) && Stored(f, WalkedChain(B, s)) == Indexed(s, 0)
  {
    hide Indexed, WalkedChain, HasParent, Guided, Stored, LeafCount;
    ChainStored(B, s, f, left, root);
    if |s| == B - 1 {
      OneLeaf(B, s);
      assert Payload(f[LeafCount(B, s)]) == [];
    }
  }

  lemma OneLeaf(B: nat, s: seq<int>)
    requires B >= 4 && |s| % (B - 1) == 0 && |s| > 0
    ensures LeafCount(B, s) == 1 <==> |s| == B - 1
    ensures LeafCount(B, s) >= 1
  {
    hide LeafCount;
    LeavesCover(B, s);
    StartSteps(B, 0);
    StartSteps(B, 1);
    if LeafCount(B, s) >= 2 {
      StartGrows(B, 2, LeafCount(B, s));
    }
  }

  /** A full last leaf leads the walk into an interior node, whose separators are taken
      for records: the search for everything returns too much. */
  lemma OverrunFound(B: nat, s: seq<int>, f: File, left: seq<nat>, root: nat) returns (rows: seq<nat>)
    requires B >= 4 && Loaded(B, s, f, left, root) && Sorted(s) && |s| > 0
    requires |s| % (B - 1) == 0 && |s| != B - 1
    ensures SearchOutcome(f, root, s[0], s[|s| - 1], rows)
    ensures rows != Select(Indexed(s, 0), s[0], s[|s| - 1])
  {
    hide Select, Indexed, HasParent, Stored, Scan, LeafCount, Guided, StartKey, Linked, Leads, Walkable;
    var chain, n := WalkedChain(B, s), LeafCount(B, s);
    ChainStored(B, s, f, left, root);
    OneLeaf(B, s);
    LoadedParts(B, s, f, left, root);
    var low, high := s[0], s[|s| - 1];
    DescendsToFirst(B, s, f, left, root);
    LoadedLinked(B, s, f, left, root);
    GuidedWalkable(B, s, f, left, root);
    assert chain[0..] == chain && chain[0] == 0;
    LinkedLeads(f, chain, 0, high);
    assert Visits(f, root, root, chain, low, high);
    var extra := Payload(f[n]);
    rows := Scan(Stored(f, chain), low, high);
    IndexedAt(s, 0);
    ScanConcat(Indexed(s, 0), extra, low, high);
    IndexedSorted(s);
    ScanIsSelect(Indexed(s, 0), low, high);
    var key := SeparatorInRange(B, s, f, left);
    assert extra[0].key == key;
    ScanTakes(extra, low, high);
  }

  /** So with a full last leaf behind others the search for all values does go wrong. */
  lemma SearchFails(B: nat, s: seq<int>, f: File, left: seq<nat>, root: nat, rows: seq<nat>)
    requires B >= 4 && Loaded(B, s, f, left, root) && Sorted(s) && |s| > 0
    requires |s| % (B - 1) == 0 && |s| != B - 1
    requires SearchOutcome(f, root, s[0], s[|s| - 1], rows)
    ensures rows != Select(Indexed(s, 0), s[0], s[|s| - 1])
  {
    hide Loaded, SearchOutcome, Select, Indexed, WalkedChain;
    var found := OverrunFound(B, s, f, left, root);
    OneOutcome(f, root, s[0], s[|s| - 1], rows, found);
  }

  lemma ScanTakes(r: seq<Record>, low: int, high: int)
    requires |r| > 0 && low <= r[0].key <= high
    ensures Scan(r, low, high) != []
  {
  }

  lemma DescendsToFirst(B: nat, s: seq<int>, f: File, left: seq<nat>, root: nat)
    requires B >= 4 && Loaded(B, s, f, left, root) && Sorted(s) && |s| > 0
    ensures LeafCount(B, s) > 0 && Descend(f, root, s[0], root) == 0
  {
    hide LeafCount, StartOf, LeavesOk, HasParent;
    GuidedDescends(B, s, f, left, root, s[0]);
    var d := Descend(f, root, s[0], root);
    LeafStart(B, s, d);
    assert s[0] <= s[StartOf(B, d)];
  }

  lemma SeparatorInRange(B: nat, s: seq<int>, f: File, left: seq<nat>) returns (key: int)
    requires B >= 4 && Guided(B, s, f, left) && Sorted(s) && |s| > 0
    requires LeafCount(B, s) < |f| && f[LeafCount(B, s)].keys != []
    ensures key == f[LeafCount(B, s)].keys[0] && s[0] <= key <= s[|s| - 1]
  {
    hide LeafCount, StartOf, LeavesOk;
    var n := LeafCount(B, s);
    var node := f[n];
    assert Separates(B, s, left, node, n);
    key := node.keys[0];
    var q := node.pointers[1];
    assert key == FirstKey(B, s, left, q);
    LeafStart(B, s, left[q]);
  }
}
