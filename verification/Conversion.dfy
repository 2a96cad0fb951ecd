/** Relinking a stored tree into a list in place. */
module Conversion {
  import opened Slots
  import opened Trees
  import opened Links
  import opened Positions
  import opened LinkedLists
  import Traversal

  function Reversed(s: seq<Entry>): (r: seq<Entry>)
    ensures |r| == |s| && forall k :: 0 <= k < |s| ==> r[k] == s[|s| - 1 - k]
  {
    if s == [] then [] else Reversed(s[1..]) + [s[0]]
  }

  /** Below position `k` nothing has changed; from there on `right` leads to the predecessor. */
  predicate Rewired(m: Mem, m0: Mem, s: seq<Entry>, k: int) {
    && |m| == |m0|
    && (forall j :: 0 <= j < |s| && j < k ==> Same(m, m0, s, j))
    && (forall j :: 0 <= j < |s| && k <= j ==> Chained(m, m0, s, j))
  }

  predicate Same(m: Mem, m0: Mem, s: seq<Entry>, j: int)
    requires 0 <= j < |s| && |m| == |m0|
  {
    s[j].slot < |m| && m[s[j].slot] == m0[s[j].slot]
  }

  predicate Chained(m: Mem, m0: Mem, s: seq<Entry>, j: int)
    requires 0 <= j < |s| && |m| == |m0|
  {
    s[j].slot < |m| && m[s[j].slot] == m0[s[j].slot].(right := SlotAt(s, j - 1))
  }

  /** From position `k` up the headers are the finished list's; below they still chain. */
  predicate Finished(m: Mem, m0: Mem, s: seq<Entry>, k: int) {
    && |m| == |m0|
    && (forall j :: 0 <= j < |s| && j < k ==> Chained(m, m0, s, j))
    && (forall j :: 0 <= j < |s| && k <= j ==> FinishedAt(m, s, j))
  }

  predicate FinishedAt(m: Mem, s: seq<Entry>, j: int)
    requires 0 <= j < |s|
  {
    s[j].slot < |m| &&
    m[s[j].slot] == Slot(NIL, SlotAt(s, j - 1), SlotAt(s, j + 1), Black, s[j].payloadType, s[j].value)
  }

  /** A partly rewired tree can still be walked from position `k` down. */
  lemma RewiredWalkable(m: Mem, m0: Mem, t: Tree, k: int)
    requires Rewired(m, m0, Inorder(t), k) && 0 <= k <= |Inorder(t)|
    ensures Traversal.Walkable(m, m0, t, k)
  {
    var s := Inorder(t);
    forall i: Index | i in Owned(t) && i < |m| ensures m[i].left == m0[i].left && m[i].parent == m0[i].parent {
      OwnedIsInorder(t, i);
      var j :| 0 <= j < |s| && s[j].slot == i;
      assert if j < k then Same(m, m0, s, j) else Chained(m, m0, s, j);
    }
    forall j | 0 <= j < k && j < |s| && s[j].slot < |m| ensures m[s[j].slot] == m0[s[j].slot] {
      assert Same(m, m0, s, j);
    }
  }

  /** Turns the tree into the list of its entries from the largest down. Only headers of
      its own blocks change: every entry keeps its slot, payload and tag. */
  method ConvertRedBlackTreeToLinkedList(data: array<Slot>, root: Index, ghost t: Tree) returns (head: Index)
    requires Stores(Heap(data[..], root), t)
    modifies data
    ensures StoresList(data[..], head, Reversed(Inorder(t)))
    ensures SameOutside(old(data[..]), data[..], Owned(t))
  {
    ghost var m0, s := data[..], Inorder(t);
    InorderInOwned(t);
    DistinctInorder(t);
    HoldsEntries(m0, t, NIL);
    if root == NIL {
      return NIL;
    }
    MaxIsLast(t);
    head := Traversal.LookupMaxIndex(data, root, t);
    forall j | 0 <= j < |s| ensures Same(data[..], m0, s, j) {
      assert HoldsEntry(m0, s[j]);
    }
    WalkDown(data, root, head, t);
    FinishHeaders(data, head, m0, s);
    FinishedStores(data[..], m0, head, s);
  }

  lemma RewireStep(m: Mem, m0: Mem, s: seq<Entry>, k: int)
    requires Rewired(m, m0, s, k) && 0 < k <= |s| && NoDuplicates(s) && Same(m, m0, s, k - 1)
    ensures var i := s[k - 1].slot; Rewired(m[i := m[i].(right := SlotAt(s, k - 2))], m0, s, k - 1)
  {
    var i := s[k - 1].slot;
    var m' := m[i := m[i].(right := SlotAt(s, k - 2))];
    forall j | 0 <= j < |s| && j < k - 1 ensures Same(m', m0, s, j) {
      assert Same(m, m0, s, j) && s[j].slot != i;
    }
    forall j | 0 <= j < |s| && k - 1 <= j ensures Chained(m', m0, s, j) {
      if j >= k { assert Chained(m, m0, s, j) && i != s[j].slot; }
    }
  }

  /** Pass one: each node's predecessor into `right`, from the largest down. */
  method WalkDown(data: array<Slot>, root: Index, head: Index, ghost t: Tree)
    requires Stores(Heap(data[..], root), t) && head == SlotAt(Inorder(t), |Inorder(t)| - 1)
    requires Rewired(data[..], data[..], Inorder(t), |Inorder(t)|)
    modifies data
    ensures Rewired(data[..], old(data[..]), Inorder(t), 0)
    ensures SameOutside(old(data[..]), data[..], Owned(t))
  {
    ghost var m0, s := data[..], Inorder(t);
    var index := head;
    ghost var k := |s|;
    EntriesReal(Heap(m0, root), t);
    while index != NIL
      invariant 0 <= k <= |s| && index == SlotAt(s, k - 1)
      invariant Rewired(data[..], m0, s, k) && SameOutside(m0, data[..], Owned(t))
      decreases k
    {
      index, k := ChainDown(data, root, index, m0, t, k);
    }
  }

  lemma EntriesReal(h: Heap, t: Tree)
    requires Stores(h, t)
    ensures forall j :: 0 <= j < |Inorder(t)| ==> Inorder(t)[j].slot < NIL
  {
    OwnedBounds(h.mem, t, NIL);
    InorderInOwned(t);
  }

  /** Finds the predecessor and writes it over the right link. */
  method ChainDown(data: array<Slot>, root: Index, index: Index, ghost m0: Mem, ghost t: Tree, ghost k: int)
    returns (next: Index, ghost k': int)
    requires Stores(Heap(m0, root), t) && 0 <= k <= |Inorder(t)| && index == SlotAt(Inorder(t), k - 1) && index != NIL
    requires Rewired(data[..], m0, Inorder(t), k) && SameOutside(m0, data[..], Owned(t))
    modifies data
    ensures 0 <= k' < k && next == SlotAt(Inorder(t), k' - 1)
    ensures Rewired(data[..], m0, Inorder(t), k') && SameOutside(m0, data[..], Owned(t))
  {
    ghost var m, s := data[..], Inorder(t);
    InorderInOwned(t);
    DistinctInorder(t);
    RewiredWalkable(m, m0, t, k);
    next := Traversal.GetNextLowerIndex(data, root, index, m0, t, k - 1);
    assert Same(m, m0, s, k - 1);
    data[index] := data[index].(right := next);
    RewireStep(m, m0, s, k);
    k' := k - 1;
  }

  lemma FinishStep(m: Mem, m0: Mem, s: seq<Entry>, k: int)
    requires Finished(m, m0, s, k) && 0 < k <= |s| && NoDuplicates(s)
    requires Chained(m, m0, s, k - 1) && HoldsEntry(m0, s[k - 1])
    ensures var i := s[k - 1].slot;
      Finished(m[i := m[i].(left := NIL, parent := SlotAt(s, k), color := Black)], m0, s, k - 1)
  {
    var i := s[k - 1].slot;
    var m' := m[i := m[i].(left := NIL, parent := SlotAt(s, k), color := Black)];
    forall j | 0 <= j < |s| && j < k - 1 ensures Chained(m', m0, s, j) {
      assert Chained(m, m0, s, j) && s[j].slot != i;
    }
    forall j | 0 <= j < |s| && k - 1 <= j ensures FinishedAt(m', s, j) {
      if j >= k { assert FinishedAt(m, s, j) && i != s[j].slot; }
    }
  }

  /** Pass two: the chain alone is enough to finish the headers. */
  method FinishHeaders(data: array<Slot>, head: Index, ghost m0: Mem, ghost s: seq<Entry>)
    requires data.Length <= NIL && Rewired(data[..], m0, s, 0) && NoDuplicates(s) && head == SlotAt(s, |s| - 1)
    requires forall j :: 0 <= j < |s| ==> HoldsEntry(m0, s[j])
    modifies data
    ensures Finished(data[..], m0, s, 0) && SameOutside(old(data[..]), data[..], SlotsOf(s))
  {
    var prev, index := NIL, head;
    ghost var k := |s|;
    assert forall j :: 0 <= j < |s| ==> HoldsEntry(m0, s[j]);
    while index != NIL
      invariant 0 <= k <= |s| && index == SlotAt(s, k - 1) && prev == SlotAt(s, k)
      invariant forall j :: 0 <= j < |s| ==> s[j].slot < NIL
      invariant Finished(data[..], m0, s, k) && SameOutside(old(data[..]), data[..], SlotsOf(s))
      decreases k
    {
      ghost var m := data[..];
      assert Chained(m, m0, s, k - 1) && HoldsEntry(m0, s[k - 1]) && index in SlotsOf(s);
      var next := data[index].right;
      data[index] := data[index].(left := NIL, parent := prev, color := Black);
      FinishStep(m, m0, s, k);
      prev, index, k := index, next, k - 1;
    }
  }

  lemma FinishedStores(m: Mem, m0: Mem, head: Index, s: seq<Entry>)
    requires Finished(m, m0, s, 0) && NoDuplicates(s) && |m| <= NIL && head == SlotAt(s, |s| - 1)
    ensures StoresList(m, head, Reversed(s))
  {
    var r := Reversed(s);
    ReversedApart(s);
    forall k | 0 <= k < |r| ensures NodeAt(m, r, k) {
      FinishedNode(m, s, r, k);
    }
  }

  lemma FinishedNode(m: Mem, s: seq<Entry>, r: seq<Entry>, k: int)
    requires |r| == |s| && (forall j :: 0 <= j < |s| ==> r[j] == s[|s| - 1 - j])
    requires 0 <= k < |s| && FinishedAt(m, s, |s| - 1 - k)
    ensures NodeAt(m, r, k)
  {
  }

  lemma ReversedApart(s: seq<Entry>)
    requires NoDuplicates(s)
    ensures NoDuplicates(Reversed(s))
  {
    var r := Reversed(s);
    forall i, j | 0 <= i < j < |r| ensures r[i].slot != r[j].slot {
      assert s[|s| - 1 - j].slot != s[|s| - 1 - i].slot;
    }
  }

  // ----- the list read as a tree

  /** Every node the right child of the one before it. */
  function Spine(s: seq<Entry>): (t: Tree)
    ensures Root(t) == SlotAt(s, 0)
  {
    if s == [] then Leaf else Node(Leaf, s[0], Black, Spine(s[1..]))
  }

  lemma {:induction false} SpineInorder(s: seq<Entry>)
    ensures Inorder(Spine(s)) == s
  {
    if s != [] {
      SpineInorder(s[1..]);
    }
  }

  /** The nodes from `k` on, below the one before them. */
  predicate Follow(m: Mem, s: seq<Entry>, parent: Index) {
    forall k :: 0 <= k < |s| ==> LinkedAt(m, s, parent, k)
  }

  predicate LinkedAt(m: Mem, s: seq<Entry>, parent: Index, k: int)
    requires 0 <= k < |s|
  {
    s[k].slot < |m| && m[s[k].slot] == Slot(NIL, SlotAt(s, k + 1), if k == 0 then parent else s[k - 1].slot, Black,
                                            s[k].payloadType, s[k].value)
  }

  lemma {:induction false} SpineHolds(m: Mem, s: seq<Entry>, parent: Index)
    ensures Follow(m, s, parent) <==> Holds(m, Spine(s), parent)
  {
    if s != [] {
      var rest := s[1..];
      SpineHolds(m, rest, s[0].slot);
      assert forall k :: 0 <= k < |rest| ==> (LinkedAt(m, rest, s[0].slot, k) <==> LinkedAt(m, s, parent, k + 1));
      assert LinkedAt(m, s, parent, 0) <==> s[0].slot < |m| && m[s[0].slot] == Header(Spine(s), parent);
      if Holds(m, Spine(s), parent) {
        forall k | 0 <= k < |s| ensures LinkedAt(m, s, parent, k) {
          if k > 0 { assert LinkedAt(m, rest, s[0].slot, k - 1); }
        }
      }
    }
  }

  lemma {:induction false} SpineDistinct(s: seq<Entry>)
    ensures Distinct(Spine(s)) <==> NoDuplicates(s)
    ensures forall i: Index :: i in Owned(Spine(s)) <==> HasSlot(s, i)
  {
    if s != [] {
      SpineDistinct(s[1..]);
      FirstApart(s);
      NodeDistinct(s[0], Spine(s[1..]));
      assert Owned(Spine(s)) == {s[0].slot} + Owned(Spine(s[1..]));
      forall i: Index ensures HasSlot(s, i) <==> i == s[0].slot || HasSlot(s[1..], i) {
        assert s == [s[0]] + s[1..];
        HasSlotConcat([s[0]], s[1..], i);
        assert [s[0]][0] == s[0];
      }
    }
  }

  lemma NodeDistinct(e: Entry, t: Tree)
    ensures Distinct(Node(Leaf, e, Black, t)) <==> Distinct(t) && e.slot !in Owned(t)
  {
  }

  lemma FirstApart(s: seq<Entry>)
    requires s != []
    ensures NoDuplicates(s) <==> NoDuplicates(s[1..]) && !HasSlot(s[1..], s[0].slot)
  {
    var r := s[1..];
    assert forall i :: 0 <= i < |r| ==> r[i] == s[i + 1];
    if NoDuplicates(r) && !HasSlot(r, s[0].slot) {
      forall i, j | 0 <= i < j < |s| ensures s[i].slot != s[j].slot {
        assert s[j] == r[j - 1] && (i > 0 ==> s[i] == r[i - 1]);
      }
    }
  }

  /** A list is laid out exactly like the tree in which every node is the right child of the
      one before: a reader of trees finds the list's entries, in the list's order. */
  lemma ListIsSpine(m: Mem, head: Index, s: seq<Entry>)
    ensures StoresList(m, head, s) <==> Stores(Heap(m, head), Spine(s))
    ensures Inorder(Spine(s)) == s
  {
    SpineInorder(s);
    SpineHolds(m, s, NIL);
    SpineDistinct(s);
    assert forall k :: 0 <= k < |s| ==> (NodeAt(m, s, k) <==> LinkedAt(m, s, NIL, k));
  }
}
