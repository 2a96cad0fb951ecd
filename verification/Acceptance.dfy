/** Which trees built by runs the validator accepts. */
module Acceptance {
  import opened Slots
  import opened Trees
  import opened Links
  import opened Positions
  import opened Validation
  import Insertion
  import LeftLeaning

  /** No equal key in any right subtree. */
  predicate StrictRight(t: Tree) {
    t.Node? ==> AllAtLeast(Inorder(t.right), t.e.Key() + 1) && StrictRight(t.left) && StrictRight(t.right)
  }

  predicate AllWithin(s: seq<Entry>, lower: Bound, upper: Bound) {
    forall k :: 0 <= k < |s| ==> KeyWithin(s[k].Key(), lower, upper)
  }

  lemma WithinParts(l: seq<Entry>, e: Entry, r: seq<Entry>, lower: Bound, upper: Bound)
    ensures AllWithin(l + [e] + r, lower, upper) <==>
      KeyWithin(e.Key(), lower, upper) && AllWithin(l, lower, upper) && AllWithin(r, lower, upper)
  {
    var s := l + [e] + r;
    assert s[|l|] == e;
    assert forall k :: 0 <= k < |l| ==> s[k] == l[k];
    assert forall k :: 0 <= k < |r| ==> s[|l| + 1 + k] == r[k];
  }

  lemma KeysUpTo(l: seq<Entry>, e: Entry)
    requires AllBelow(l + [e], e.Key() + 1)
    ensures AllBelow(l, e.Key() + 1)
  {
    assert forall k :: 0 <= k < |l| ==> (l + [e])[k] == l[k];
  }

  lemma KeysFrom(e: Entry, r: seq<Entry>, l: seq<Entry>)
    requires Sorted(l + [e] + r)
    ensures AllAtLeast(r, e.Key())
  {
    var s := l + [e] + r;
    assert s[|l|] == e;
    assert forall k :: 0 <= k < |r| ==> s[|l| + 1 + k] == r[k];
  }

  /** For keys in order, the validator's bounds ask just this: nothing equal on the right. */
  lemma {:induction false} SortedBetween(t: Tree, lower: Bound, upper: Bound)
    requires Sorted(Inorder(t))
    ensures Between(t, lower, upper) <==> AllWithin(Inorder(t), lower, upper) && StrictRight(t)
    decreases t
  {
    if t.Node? {
      var k := t.e.Key();
      LeftLeaning.SortedSides(Inorder(t.left), t.e, Inorder(t.right));
      WithinParts(Inorder(t.left), t.e, Inorder(t.right), lower, upper);
      KeysUpTo(Inorder(t.left), t.e);
      KeysFrom(t.e, Inorder(t.right), Inorder(t.left));
      SortedBetween(t.left, lower, Limit(k));
      SortedBetween(t.right, Limit(k), upper);
    }
  }

  /** Pairwise different keys are enough. */
  lemma {:induction false} DifferentKeysStrict(t: Tree)
    requires forall i, j :: 0 <= i < j < |Inorder(t)| ==> Inorder(t)[i].Key() < Inorder(t)[j].Key()
    ensures StrictRight(t)
  {
    if t.Node? {
      var l, s, r := Inorder(t.left), Inorder(t), Inorder(t.right);
      assert s[|l|] == t.e;
      assert forall k :: 0 <= k < |l| ==> s[k] == l[k];
      assert forall k :: 0 <= k < |r| ==> s[|l| + 1 + k] == r[k];
      DifferentKeysStrict(t.left);
      DifferentKeysStrict(t.right);
    }
  }

  /** The tree that three insertions in a row build. */
  function BuiltOfThree(a: Entry, b: Entry, c: Entry): Tree {
    Insertion.Insert(Insertion.Insert(Insertion.Insert(Leaf, a), b), c)
  }

  /** Of any three equal keys the rotation moves the first to the right of the second. */
  lemma ThreeEqualKeysOnRight(a: Entry, b: Entry, c: Entry)
    requires a.Key() == b.Key() == c.Key()
    ensures var t := BuiltOfThree(a, b, c);
      RedBlack(t) && Sorted(Inorder(t)) && t.Node? && !StrictRight(t)
  {
    var t1, d1 := Insertion.NewLeaf(a, Black), InLeft(Top, a, Black, Leaf);
    var t2 := Node(Insertion.NewLeaf(b, Red), a, Black, Leaf);
    var d2 := InLeft(d1, b, Red, Leaf);
    var t3 := Node(Insertion.NewLeaf(c, Red), b, Black, Insertion.NewLeaf(a, Red));
    Insertion.DescendNode(Top, Leaf, a, Black, Leaf, b.Key());
    Insertion.BelowBlack(d1, Insertion.NewLeaf(b, Red));
    Insertion.PlugTwice(d1, Insertion.NewLeaf(b, Red));
    assert Insertion.Insert(t1, b) == t2;
    DescendTwice(a, b, c.Key());
    OuterGrandchild(a, b, c);
    assert BuiltOfThree(a, b, c) == t3;
    Insertion.LeafInorder(a, Red);
    Insertion.LeafInorder(c, Red);
    assert Inorder(t3) == [c, b, a];
    assert !AllAtLeast([a], b.Key() + 1) by { assert [a][0] == a; }
  }

  lemma DescendTwice(a: Entry, b: Entry, key: int)
    requires key <= a.Key() && key <= b.Key()
    ensures Insertion.Descend(Top, Node(Insertion.NewLeaf(b, Red), a, Black, Leaf), key)
         == InLeft(InLeft(Top, a, Black, Leaf), b, Red, Leaf)
  {
    var d := InLeft(Top, a, Black, Leaf);
    Insertion.DescendNode(Top, Insertion.NewLeaf(b, Red), a, Black, Leaf, key);
    Insertion.DescendNode(d, Leaf, b, Red, Leaf, key);
    assert Insertion.Descend(InLeft(d, b, Red, Leaf), Leaf, key) == InLeft(d, b, Red, Leaf);
  }

  lemma OuterGrandchild(a: Entry, b: Entry, c: Entry)
    ensures Insertion.InsertFix(InLeft(InLeft(Top, a, Black, Leaf), b, Red, Leaf), Insertion.NewLeaf(c, Red))
         == Node(Insertion.NewLeaf(c, Red), b, Black, Insertion.NewLeaf(a, Red))
  {
    var d := InLeft(InLeft(Top, a, Black, Leaf), b, Red, Leaf);
    assert Insertion.InsertStep(d, Insertion.NewLeaf(c, Red))
        == Insertion.Done(Node(Insertion.NewLeaf(c, Red), b, Black, Insertion.NewLeaf(a, Red)));
  }

  // ----- the array as bytes

  /** The byte where block `i` starts, for blocks of `size` bytes. */
  function Offset(i: Index, size: nat): Index { if i == NIL then NIL else i * size }

  function OffsetSlot(s: Slot, size: nat): Slot {
    s.(left := Offset(s.left, size), right := Offset(s.right, size), parent := Offset(s.parent, size))
  }

  function OffsetTree(t: Tree, size: nat): Tree {
    if t.Leaf? then Leaf
    else Node(OffsetTree(t.left, size), t.e.(slot := Offset(t.e.slot, size)), t.color, OffsetTree(t.right, size))
  }

  /** The buffer is the bytes of the array. Blocks are as far apart as the alignment of the
      nodes demands and at least as long as a node. What a read from between two block
      starts gives is left open. */
  predicate Renders(img: Buffer, m: Mem, size: nat) {
    && size % 8 == 0 && img.nodeSize <= size && |img.nodes| == |m| * size <= NIL
    && forall i: Index :: i < |m| ==> BlockAt(img, m, size, i)
  }

  predicate BlockAt(img: Buffer, m: Mem, size: nat, i: Index)
    requires i < |m|
  {
    Offset(i, size) < |img.nodes| && img.nodes[Offset(i, size)] == OffsetSlot(m[i], size)
  }

  lemma Multiples(i: nat, k: nat, size: nat)
    requires i < k && size > 0
    ensures i * size + size <= k * size && k <= k * size
    ensures size % 8 == 0 ==> i * size % 8 == 0
  {
    Growing(i + 1, k, size);
    Growing(1, size, k);
    if size % 8 == 0 {
      EightTimes(i, size / 8);
      DivisibleByEight(i * (size / 8));
    }
  }

  lemma {:induction false} Growing(i: nat, k: nat, size: nat)
    requires i <= k
    ensures i * size <= k * size
  {
    if i < k { Growing(i, k - 1, size); }
  }

  lemma {:induction false} EightTimes(i: nat, n: nat)
    ensures i * (8 * n) == 8 * (i * n)
  {
    if i > 0 { EightTimes(i - 1, n); }
  }

  lemma DivisibleByEight(x: nat)
    ensures 8 * x % 8 == 0
  {
  }

  /** A block of the array is a readable node of the buffer. */
  lemma BlockReadable(img: Buffer, m: Mem, size: nat, i: Index)
    requires Renders(img, m, size) && i < |m|
    ensures i != NIL && Offset(i, size) == i * size && InBuffer(img, i * size) && i * size != NIL
    ensures img.nodes[i * size] == OffsetSlot(m[i], size)
  {
    Multiples(i, |m|, size);
    assert BlockAt(img, m, size, i);
  }

  lemma {:induction false} RendersLaid(img: Buffer, m: Mem, size: nat, t: Tree, parent: Index)
    requires Renders(img, m, size) && Holds(m, t, parent)
    ensures Laid(img, OffsetTree(t, size), Offset(parent, size)) && Root(OffsetTree(t, size)) == Offset(Root(t), size)
  {
    if t.Node? {
      RendersLaid(img, m, size, t.left, t.e.slot);
      RendersLaid(img, m, size, t.right, t.e.slot);
      BlockReadable(img, m, size, t.e.slot);
    }
  }

  lemma {:induction false} OffsetKeeps(t: Tree, size: nat, lower: Bound, upper: Bound)
    ensures Balanced(OffsetTree(t, size)) <==> Balanced(t)
    ensures BlackHeight(OffsetTree(t, size)) == BlackHeight(t)
    ensures Between(OffsetTree(t, size), lower, upper) <==> Between(t, lower, upper)
    decreases t
  {
    if t.Node? {
      OffsetKeeps(t.left, size, lower, Limit(t.e.Key()));
      OffsetKeeps(t.right, size, Limit(t.e.Key()), upper);
    }
  }

  /** All of these are where blocks in `s` start. */
  predicate Starts(offsets: set<Index>, s: set<Index>, size: nat) {
    forall i: Index :: i in offsets ==> StartsIn(i, s, size)
  }

  predicate StartsIn(i: Index, s: set<Index>, size: nat) { exists k :: k in s && i == Times(k, size) }

  function Times(k: nat, size: nat): nat { k * size }

  lemma StartsApart(a: set<Index>, s: set<Index>, b: set<Index>, s': set<Index>, size: nat)
    requires Starts(a, s, size) && Starts(b, s', size) && s !! s' && size > 0
    ensures a !! b
  {
    forall i: Index | i in a ensures i !in b {
      assert StartsIn(i, s, size);
      if i in b {
        assert StartsIn(i, s', size);
        var k, k' :| k in s && i == Times(k, size) && k' in s' && i == Times(k', size);
        Multiples(if k < k' then k else k', if k < k' then k' else k, size);
      }
    }
  }

  lemma {:induction false} OffsetOwned(t: Tree, n: nat, size: nat)
    requires forall i: Index :: i in Owned(t) ==> i < n
    requires n * size <= NIL && size > 0
    ensures Starts(Owned(OffsetTree(t, size)), Owned(t), size)
    ensures Distinct(t) ==> Distinct(OffsetTree(t, size))
  {
    if t.Node? {
      var l, r, u := t.left, t.right, OffsetTree(t, size);
      assert forall i: Index :: i in Owned(t) <==> i in Owned(l) || i == t.e.slot || i in Owned(r);
      OffsetOwned(l, n, size);
      OffsetOwned(r, n, size);
      StartHere(t, n, size);
      forall i: Index | i in Owned(u) ensures StartsIn(i, Owned(t), size) {
        assert i == u.e.slot || StartsIn(i, Owned(l), size) || StartsIn(i, Owned(r), size);
      }
      if Distinct(t) {
        StartsApart(Owned(u.left), Owned(l), Owned(u.right), Owned(r), size);
        StartsApart({u.e.slot}, {t.e.slot}, Owned(u.left), Owned(l), size);
        StartsApart({u.e.slot}, {t.e.slot}, Owned(u.right), Owned(r), size);
      }
    }
  }

  lemma StartHere(t: Tree, n: nat, size: nat)
    requires t.Node? && t.e.slot < n && n * size <= NIL && size > 0
    ensures StartsIn(OffsetTree(t, size).e.slot, {t.e.slot}, size)
  {
    Multiples(t.e.slot, n, size);
    assert t.e.slot in {t.e.slot} && OffsetTree(t, size).e.slot == Times(t.e.slot, size);
  }

  lemma {:induction false} OffsetMax(t: Tree, size: nat)
    ensures MaxSlot(OffsetTree(t, size)) == Offset(MaxSlot(t), size)
  {
    if t.Node? && t.right.Node? {
      OffsetMax(t.right, size);
    }
  }

  /** The bytes hold the tree, its offsets for links, exactly when no right subtree holds a
      key equal to the node's, and no other tree. */
  lemma BytesHold(img: Buffer, h: Heap, size: nat, t: Tree)
    requires Renders(img, h.mem, size) && Stores(h, t) && RedBlack(t) && Sorted(Inorder(t)) && t.Node?
    ensures IsTree(img, Offset(h.root, size), OffsetTree(t, size)) <==> StrictRight(t)
    ensures forall u :: IsTree(img, Offset(h.root, size), u) ==> u == OffsetTree(t, size)
  {
    var u := OffsetTree(t, size);
    RendersLaid(img, h.mem, size, t, NIL);
    OffsetKeeps(t, size, Free, Free);
    OwnedBounds(h.mem, t, NIL);
    OffsetOwned(t, |h.mem|, size);
    SortedBetween(t, Free, Free);
    AnyWithin(Inorder(t));
    forall u' | IsTree(img, Offset(h.root, size), u') ensures u' == u {
      LaidUnique(img, u, u', NIL);
    }
  }

  lemma AnyWithin(s: seq<Entry>)
    ensures AllWithin(s, Free, Free)
  {
  }

  /** The bytes of a tree kept by the run invariant pass the validator exactly when no
      right subtree holds a key equal to the node's; pairwise different keys suffice. */
  lemma BuiltTreeAccepted(img: Buffer, h: Heap, size: nat, t: Tree, max: Index)
    requires Renders(img, h.mem, size) && Stores(h, t) && RedBlack(t) && Sorted(Inorder(t))
    requires max == MaxSlot(t) || (max == NIL && t.Node?)
    ensures ProperTree(img, Offset(h.root, size), Offset(max, size)) <==> StrictRight(t)
  {
    OffsetMax(t, size);
    if t.Node? {
      BytesHold(img, h, size, t);
      BlockReadable(img, h.mem, size, h.root);
    }
  }

  /** So the validator rejects what three insertions of equal keys leave in the array. */
  lemma ThreeEqualKeysRejected(img: Buffer, h: Heap, size: nat, a: Entry, b: Entry, c: Entry, max: Index)
    requires a.Key() == b.Key() == c.Key() && Stores(h, BuiltOfThree(a, b, c)) && Renders(img, h.mem, size)
    requires max == NIL || max == MaxSlot(BuiltOfThree(a, b, c))
    ensures !ProperTree(img, Offset(h.root, size), Offset(max, size))
  {
    ThreeEqualKeysOnRight(a, b, c);
    BuiltTreeAccepted(img, h, size, BuiltOfThree(a, b, c), max);
  }
}
