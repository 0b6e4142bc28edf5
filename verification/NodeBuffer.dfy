/** A tree node's pointers as they lie on file: B slots, and behind them the word whose first
    byte says whether the node is a leaf.  Adding an entry to an interior node moves one slot
    more than the node uses (bptree.c:583).  This module says what that does: to one node, to
    a node that fills up again after a split, and to the whole file. */
module NodeBuffer {
  import opened Bounds
  import opened TreeShape
  import opened TreeSteps

  /** The leaf flag: the first byte of the last word. */
  predicate Flag(words: seq<nat>) {
    |words| > 0 && words[|words| - 1] % 256 != 0
  }

  /** The words after those from..from+count-1 have moved up by one. */
  function Shifted(words: seq<nat>, from: nat, count: nat): seq<nat> {
    seq(|words|, k requires 0 <= k < |words| => if from < k <= from + count then words[k - 1] else words[k])
  }

  function WithWord(words: seq<nat>, k: nat, word: nat): seq<nat> {
    if k < |words| then words[k := word] else words
  }

  /** A leaf of `size` rows takes another one. */
  function PutRow(words: seq<nat>, size: nat, place: nat, row: nat): seq<nat> {
    WithWord(Shifted(words, place, if place < size then size - place else 0), place, row)
  }

  /** An interior node of `size` keys takes another child: unless it goes to the end, one word
      more than the node uses moves along. */
  function PutChild(words: seq<nat>, size: nat, place: nat, child: nat): seq<nat> {
    WithWord(if place < size then Shifted(words, place + 1, size + 1 - place) else words, place + 1, child)
  }

  /** New words at the front, the rest as it was. */
  function Copied(words: seq<nat>, front: seq<nat>): seq<nat> {
    if |front| <= |words| then front + words[|front|..] else words
  }

  /** A node that has just been allocated. */
  function Blank(B: nat, isLeaf: bool): seq<nat> {
    seq(B, _ => 0) + [if isLeaf then 1 else 0]
  }

  // ----- one addition -----

  lemma RowPut(words: seq<nat>, size: nat, place: nat, row: nat)
    requires place <= size && size + 1 < |words|
    ensures |PutRow(words, size, place, row)| == |words|
    ensures PutRow(words, size, place, row)[..size + 1] == InsertAt(words[..size], place, row)
    ensures Flag(PutRow(words, size, place, row)) <==> Flag(words)
  {
  }

  /** The live pointers come out right.  The flag stays unless the node gets full by an entry
      before its end: then it becomes the word that was behind the last pointer. */
  lemma ChildPut(words: seq<nat>, size: nat, place: nat, child: nat)
    requires place <= size && size + 2 < |words|
    ensures |PutChild(words, size, place, child)| == |words|
    ensures PutChild(words, size, place, child)[..size + 2] == InsertAt(words[..size + 1], place + 1, child)
    ensures Flag(PutChild(words, size, place, child))
       <==> if place < size == |words| - 3 then words[|words| - 2] % 256 != 0 else Flag(words)
  {
  }

  // ----- a node that fills up -----

  datatype Arrival = Arrival(place: nat, child: nat)

  /** Additions one after the other, from a node of `size` keys on. */
  function PutAll(words: seq<nat>, size: nat, arrivals: seq<Arrival>): seq<nat> {
    if arrivals == [] then words
    else
      var front, last := arrivals[..|arrivals| - 1], arrivals[|arrivals| - 1];
      PutChild(PutAll(words, size, front), size + |front|, last.place, last.child)
  }

  ghost predicate Placed(size: nat, arrivals: seq<Arrival>) {
    forall k :: 0 <= k < |arrivals| ==> arrivals[k].place <= size + k
  }

  /** The word, as it was at the start, that lies behind the node's pointers after the
      additions: the one two behind the last size at which an entry went to the end. */
  function Behind(size: nat, arrivals: seq<Arrival>): nat {
    if arrivals == [] then size + 1
    else
      var front := arrivals[..|arrivals| - 1];
      if arrivals[|front|].place == size + |front| then size + |front| + 2 else Behind(size, front)
  }

  lemma {:induction false} WordsBehind(words: seq<nat>, size: nat, arrivals: seq<Arrival>)
    requires Placed(size, arrivals) && size + |arrivals| + 2 < |words|
    ensures var w := PutAll(words, size, arrivals);
            && |w| == |words| && Behind(size, arrivals) <= size + |arrivals| + 1
            && w[size + |arrivals| + 1] == words[Behind(size, arrivals)]
            && forall k :: size + |arrivals| + 2 <= k < |w| ==> w[k] == words[k]
  {
    hide PutChild;
    if arrivals != [] {
      var front := arrivals[..|arrivals| - 1];
      assert forall k :: 0 <= k < |front| ==> front[k] == arrivals[k];
      WordsBehind(words, size, front);
      OneWordOn(PutAll(words, size, front), size + |front|, arrivals[|front|].place, arrivals[|front|].child);
    }
  }

  /** An addition passes the word behind the pointers on, unless it goes to the end. */
  lemma OneWordOn(words: seq<nat>, size: nat, place: nat, child: nat)
    requires place <= size && size + 2 < |words|
    ensures var w := PutChild(words, size, place, child);
            && |w| == |words| && w[size + 2] == (if place < size then words[size + 1] else words[size + 2])
            && forall k :: size + 2 < k < |w| ==> w[k] == words[k]
  {
  }

  /** A node that fills up entry by entry stays an interior node if and only if the last
      entry goes to the end, or the word that has come to lie behind the pointers has a low
      byte of 0.  That word is one the node had when it started. */
  lemma FillUp(words: seq<nat>, size: nat, arrivals: seq<Arrival>)
    requires Placed(size, arrivals) && arrivals != [] && size + |arrivals| + 2 == |words| && !Flag(words)
    ensures var front, last := arrivals[..|arrivals| - 1], arrivals[|arrivals| - 1];
            && Behind(size, front) < |words|
            && (Flag(PutAll(words, size, arrivals))
                <==> last.place != size + |front| && words[Behind(size, front)] % 256 != 0)
  {
    var front, last := arrivals[..|arrivals| - 1], arrivals[|arrivals| - 1];
    WordsBehind(words, size, front);
    ChildPut(PutAll(words, size, front), size + |front|, last.place, last.child);
  }

  /** Until it is full it stays one in any case. */
  lemma StaysInterior(words: seq<nat>, size: nat, arrivals: seq<Arrival>)
    requires Placed(size, arrivals) && size + |arrivals| + 2 < |words|
    ensures Flag(PutAll(words, size, arrivals)) <==> Flag(words)
  {
    hide PutAll, Behind;
    WordsBehind(words, size, arrivals);
  }

  /** The left half of a split keeps all words behind its own pointers, so what lies behind
      them are pointers of the full node. */
  lemma LeftHalfKeeps(words: seq<nat>, front: seq<nat>)
    requires |front| < |words|
    ensures |Copied(words, front)| == |words| && Copied(words, front)[..|front|] == front
    ensures forall k :: |front| <= k < |words| ==> Copied(words, front)[k] == words[k]
    ensures Flag(Copied(words, front)) <==> Flag(words)
  {
  }

  // ----- the whole file -----

  /** A node as it is read back: flag and pointers are what the words say. */
  function Read(n: Node, words: seq<nat>): Node {
    var count := |n.keys| + if Flag(words) then 0 else 1;
    n.(isLeaf := Flag(words), pointers := if count <= |words| then words[..count] else words)
  }

  /** The file as it is read back. */
  function View(f: File, disk: seq<seq<nat>>): File {
    seq(|f|, p requires 0 <= p < |f| => Read(f[p], if p < |disk| then disk[p] else []))
  }

  /** The words of a node say what the node is. */
  ghost predicate OnFile(B: nat, n: Node, words: seq<nat>) {
    |words| == B + 1 && |n.pointers| <= B && Read(n, words) == n
  }

  ghost predicate FileAgrees(B: nat, f: File, disk: seq<seq<nat>>) {
    |disk| == |f| && forall p :: 0 <= p < |f| ==> OnFile(B, f[p], disk[p])
  }

  /** The one addition in place that an insertion ends with, if it does. */
  datatype Addition = Nowhere | InPlace(node: Node, words: seq<nat>, place: nat)

  /** The addition fills an interior node, not at its end, and the slot behind its pointers
      holds a word with a low byte other than 0. */
  ghost predicate Spills(B: nat, a: Addition) {
    && a.InPlace? && !a.node.isLeaf && a.place < |a.node.keys| == B - 2
    && 0 < B < |a.words| && a.words[B - 1] % 256 != 0
  }

  /** An interior node with a nonzero flag. */
  function Turned(n: Node): Node {
    n.(isLeaf := true, pointers := if |n.keys| <= |n.pointers| then n.pointers[..|n.keys|] else n.pointers)
  }

  /** How the file f is read back after the addition in place that led to it. */
  ghost predicate SeenAs(B: nat, f: File, view: File, at: Addition) {
    if Spills(B, at) then at.node.pos < |f| && !f[at.node.pos].isLeaf && view == f[at.node.pos := Turned(f[at.node.pos])]
    else view == f
  }

  function PutEntry(words: seq<nat>, n: Node, place: nat, pointer: nat): seq<nat> {
    if n.isLeaf then PutRow(words, |n.keys|, place, pointer) else PutChild(words, |n.keys|, place, pointer)
  }

  /** After an addition in place the node on file is the one meant, unless it spills. */
  lemma EntryPut(B: nat, n: Node, words: seq<nat>, p: nat, key: int, pointer: nat)
    requires OnFile(B, n, words) && |n.keys| + 1 < B && p <= |n.keys|
    requires |n.pointers| == |n.keys| + if n.isLeaf then 0 else 1
    ensures OnFile(B, Added(n, p, key, pointer), PutEntry(words, n, p, pointer)) <==> !Spills(B, InPlace(n, words, p))
  {
    hide PutRow, PutChild, Flag;
    var w, m := PutEntry(words, n, p, pointer), Added(n, p, key, pointer);
    if n.isLeaf {
      RowPut(words, |n.keys|, p, pointer);
    } else {
      ChildPut(words, |n.keys|, p, pointer);
    }
    ReadsAs(words, n);
    ReadsAs(w, m);
  }

  /** When words say what a node is. */
  lemma ReadsAs(words: seq<nat>, n: Node)
    requires |n.pointers| == |n.keys| + if n.isLeaf then 0 else 1
    requires |n.pointers| <= |words|
    ensures Read(n, words) == n <==> (Flag(words) <==> n.isLeaf) && words[..|n.pointers|] == n.pointers
  {
  }

  /** If it does spill, the interior node is read back as a leaf. */
  lemma EntrySeen(B: nat, n: Node, words: seq<nat>, p: nat, key: int, pointer: nat)
    requires OnFile(B, n, words) && |n.keys| + 1 < B && p <= |n.keys| && Spills(B, InPlace(n, words, p))
    requires |n.pointers| == |n.keys| + if n.isLeaf then 0 else 1
    ensures Read(Added(n, p, key, pointer), PutEntry(words, n, p, pointer)) == Turned(Added(n, p, key, pointer))
  {
    hide PutChild;
    ChildPut(words, |n.keys|, p, pointer);
  }

  lemma NodeReplaced(B: nat, f: File, disk: seq<seq<nat>>, p: nat, n: Node, words: seq<nat>)
    requires FileAgrees(B, f, disk) && p < |f|
    ensures FileAgrees(B, f[p := n], disk[p := words]) <==> OnFile(B, n, words)
  {
    hide OnFile;
    assert f[p := n][p] == n && disk[p := words][p] == words;
  }

  /** Agreement means that the file is read back as it is meant. */
  lemma ReadBack(B: nat, f: File, disk: seq<seq<nat>>)
    requires FileAgrees(B, f, disk)
    ensures View(f, disk) == f
  {
    forall p | 0 <= p < |f|
      ensures View(f, disk)[p] == f[p]
    {
      assert OnFile(B, f[p], disk[p]);
    }
  }

  // ----- nodes written from one buffer -----

  /** Behind its pointers a node has the words of the node written before it. */
  ghost predicate StaleAs(B: nat, f: File, disk: seq<seq<nat>>, p: nat)
    requires 0 < p < |f| == |disk|
  {
    |disk[p]| == |disk[p - 1]| == B + 1 && forall k :: |f[p].pointers| <= k < B ==> disk[p][k] == disk[p - 1][k]
  }

  /** All nodes have been written from the same buffer, one after the other. */
  ghost predicate Carried(B: nat, f: File, disk: seq<seq<nat>>) {
    |disk| == |f| && forall p {:trigger StaleAs(B, f, disk, p)} :: 0 < p < |f| ==> StaleAs(B, f, disk, p)
  }

  /** The buffer still holds the words of the last one. */
  ghost predicate InBuffer(B: nat, disk: seq<seq<nat>>, buffer: seq<nat>) {
    disk != [] ==> |disk[|disk| - 1]| == B + 1 && disk[|disk| - 1][..B] == buffer
  }

  lemma CarriedOn(B: nat, f: File, disk: seq<seq<nat>>, buffer: seq<nat>, n: Node, buffer': seq<nat>, flag: nat)
    requires Carried(B, f, disk) && InBuffer(B, disk, buffer) && |buffer| == |buffer'| == B
    requires forall k :: |n.pointers| <= k < B ==> buffer'[k] == buffer[k]
    ensures Carried(B, f + [n], disk + [buffer' + [flag]]) && InBuffer(B, disk + [buffer' + [flag]], buffer')
  {
    var g, words := f + [n], disk + [buffer' + [flag]];
    forall p | 0 < p < |g|
      ensures StaleAs(B, g, words, p)
    {
      if p < |f| {
        assert StaleAs(B, f, disk, p);
      } else {
        assert disk[|disk| - 1] == words[p - 1];
      }
    }
    assert words[|f|][..B] == buffer';
  }

  lemma NodeAppended(B: nat, f: File, disk: seq<seq<nat>>, n: Node, words: seq<nat>)
    requires FileAgrees(B, f, disk) && OnFile(B, n, words)
    ensures FileAgrees(B, f + [n], disk + [words])
  {
  }

  /** A node written into new words. */
  lemma BlankOnFile(B: nat, n: Node)
    requires |n.pointers| <= B && |n.pointers| == |n.keys| + if n.isLeaf then 0 else 1
    ensures OnFile(B, n, Copied(Blank(B, n.isLeaf), n.pointers))
  {
  }

  // ----- the code on the buffer -----

  class Buffer {
    const B: nat
    const keys: array<int>
    const words: array<nat>
    var size: nat

    ghost predicate Valid()
      reads this
    {
      && B >= 4 && keys.Length == B - 1 && words.Length == B + 1 && size < B
    }

    predicate IsLeaf()
      requires Valid()
      reads this, words
    {
      words[B] % 256 != 0
    }

    /** Makes room for an entry behind all keys that do not exceed it, and writes it. */
    method AddEntry(key: int, pointer: nat) returns (pos: nat)
      requires Valid() && size < B - 1 && Sorted(keys[..size])
      modifies this, keys, words
      ensures Valid() && size == old(size) + 1
      ensures IsUpper(old(keys[..size]), key, pos) && keys[..size] == InsertAt(old(keys[..size]), pos, key)
      ensures words[..] == if old(IsLeaf()) then PutRow(old(words[..]), old(size), pos, pointer)
                           else PutChild(old(words[..]), old(size), pos, pointer)
    {
      hide PutRow, PutChild, InsertAt;
      pos := GetUpperBoundFromArray(keys[..size], keys[size], key);
      AddKey(pos, key);
      if IsLeaf() {
        AddRow(pos, pointer);
      } else {
        AddChild(pos, pointer);
      }
      size := size + 1;
    }

    method AddKey(pos: nat, key: int)
      requires Valid() && size < B - 1 && pos <= size
      modifies keys
      ensures keys[..size + 1] == InsertAt(old(keys[..size]), pos, key)
    {
      hide InsertAt;
      ghost var ks := keys[..];
      Memmove(keys, pos + 1, pos, size - pos);
      keys[pos] := key;
      KeyMovedIn(ks, keys[..], size, pos, key);
      assert ks[..size] == old(keys[..size]);
    }

    method AddRow(pos: nat, pointer: nat)
      requires Valid() && size < B - 1 && pos <= size
      modifies words
      ensures words[..] == PutRow(old(words[..]), size, pos, pointer)
    {
      hide Shifted;
      MoveUp(words, pos, size - pos);
      ghost var ps := words[..];
      words[pos] := pointer;
      assert words[..] == ps[pos := pointer];
    }

    method AddChild(pos: nat, pointer: nat)
      requires Valid() && size < B - 1 && pos <= size
      modifies words
      ensures words[..] == PutChild(old(words[..]), size, pos, pointer)
    {
      hide Shifted;
      if pos < size {
        MoveUp(words, pos + 1, size + 1 - pos);
      }
      ghost var ps := words[..];
      words[pos + 1] := pointer;
      assert words[..] == ps[pos + 1 := pointer];
    }
  }

  method MoveUp(words: array<nat>, from: nat, count: nat)
    requires from + count < words.Length
    modifies words
    ensures words[..] == Shifted(old(words[..]), from, count)
  {
    Memmove(words, from + 1, from, count);
  }

  lemma KeyMovedIn(s: seq<int>, t: seq<int>, n: nat, p: nat, x: int)
    requires p <= n < |s| == |t|
    requires forall k {:trigger t[k]} :: 0 <= k < |s| ==> t[k] == if k == p then x else if p < k <= n then s[k - 1] else s[k]
    ensures t[..n + 1] == InsertAt(s[..n], p, x)
  {
    var u := InsertAt(s[..n], p, x);
    forall k | 0 <= k < n + 1
      ensures t[k] == u[k]
    {
      assert t[k] == if k == p then x else if p < k <= n then s[k - 1] else s[k];
      assert u[k] == if k < p then s[k] else if k == p then x else s[k - 1];
    }
  }

  /** Moves count cells to a higher place; the two stretches may overlap. */
  method Memmove<T>(a: array<T>, to: nat, from: nat, count: nat)
    requires from <= to && to + count <= a.Length
    modifies a
    ensures forall k :: 0 <= k < a.Length ==> a[k] == if to <= k < to + count then old(a[k - (to - from)]) else old(a[k])
  {
    var k := count;
    while k > 0
      invariant 0 <= k <= count
      invariant forall j :: 0 <= j < a.Length ==>
        a[j] == if to + k <= j < to + count then old(a[j - (to - from)]) else old(a[j])
    {
      k := k - 1;
      a[to + k] := a[from + k];
    }
  }
}
