/** An input on which a stale cache misplaces an entry, on trees and on the array: a root
    that has a right subtree is cached, one insertion caches a leaf on the left of a larger
    node, and the next appends to the right of that leaf. The trees in between are written
    out, and the steps from each to the next computed. */
module StaleCaches {
  import opened Slots
  import opened Trees
  import opened Links
  import opened Insertion
  import opened Positions
  import opened Caching
  import opened RedBlackTrees

  /** Six entries in ascending order, in six blocks. */
  predicate Rising(b: Entry, a: Entry, x: Entry, c: Entry, y: Entry, d: Entry) {
    && b.Key() < a.Key() < x.Key() < c.Key() < y.Key() < d.Key()
    && NoDuplicates([b, a, x, c, y, d])
  }

  /** What inserting `a`, `b`, `c`, `d` builds. */
  function Four(b: Entry, a: Entry, c: Entry, d: Entry): Tree {
    Node(NewLeaf(b, Black), a, Black, Node(Leaf, c, Black, NewLeaf(d, Red)))
  }

  function Five(b: Entry, a: Entry, x: Entry, c: Entry, d: Entry): Tree {
    Node(NewLeaf(b, Black), a, Black, Node(NewLeaf(x, Red), c, Black, NewLeaf(d, Red)))
  }

  function Six(b: Entry, a: Entry, x: Entry, y: Entry, c: Entry, d: Entry): Tree {
    Node(NewLeaf(b, Black), a, Black, Node(Node(Leaf, x, Black, NewLeaf(y, Red)), c, Red, NewLeaf(d, Black)))
  }

  lemma FourOwned(b: Entry, a: Entry, c: Entry, d: Entry)
    ensures Owned(Four(b, a, c, d)) == {b.slot, a.slot, c.slot, d.slot}
  {
    assert forall e, color :: Owned(NewLeaf(e, color)) == {e.slot};
  }

  lemma FourSteps(b: Entry, a: Entry, c: Entry, d: Entry)
    requires b.Key() < a.Key() < c.Key() < d.Key()
    ensures Insert(NewLeaf(a, Black), b) == Two(b, a) && Insert(Two(b, a), c) == Three(b, a, c)
    ensures Insert(Three(b, a, c), d) == Four(b, a, c, d)
  {
    var d1, d2 := InLeft(Top, a, Black, Leaf), InRight(Top, NewLeaf(b, Red), a, Black);
    DescendNode(Top, Leaf, a, Black, Leaf, b.Key());
    BelowBlack(d1, NewLeaf(b, Red));
    PlugTwice(d1, NewLeaf(b, Red));
    DescendNode(Top, NewLeaf(b, Red), a, Black, Leaf, c.Key());
    BelowBlack(d2, NewLeaf(c, Red));
    PlugTwice(d2, NewLeaf(c, Red));
    var d3 := InRight(d2, Leaf, c, Red);
    DescendNode(Top, NewLeaf(b, Red), a, Black, NewLeaf(c, Red), d.Key());
    DescendNode(d2, Leaf, c, Red, Leaf, d.Key());
    assert Descend(Top, Three(b, a, c), d.Key()) == d3;
    var u := Recolored(d2, d3, NewLeaf(d, Red));
    assert InsertStep(d3, NewLeaf(d, Red)) == More(Top, u);
    assert InsertFix(Top, u) == Paint(u, Black) == Four(b, a, c, d);
  }

  function Two(b: Entry, a: Entry): Tree { Node(NewLeaf(b, Red), a, Black, Leaf) }

  function Three(b: Entry, a: Entry, c: Entry): Tree { Node(NewLeaf(b, Red), a, Black, NewLeaf(c, Red)) }

  /** With the cache starting empty, every one of these insertions is plain. */
  lemma FourCached(b: Entry, a: Entry, c: Entry, d: Entry)
    requires b.Key() < a.Key() < c.Key() < d.Key() && NoDuplicates([b, a, c, d])
    requires NIL !in {b.slot, a.slot, c.slot, d.slot}
    ensures InsertCached(Leaf, NIL, a) == NewLeaf(a, Black) && NextMax(Leaf, NIL, a) == a.slot
    ensures InsertCached(NewLeaf(a, Black), a.slot, b) == Two(b, a) && NextMax(NewLeaf(a, Black), a.slot, b) == a.slot
    ensures InsertCached(Two(b, a), a.slot, c) == Three(b, a, c) && NextMax(Two(b, a), a.slot, c) == c.slot
    ensures InsertCached(Three(b, a, c), c.slot, d) == Four(b, a, c, d)
    ensures Owned(NewLeaf(a, Black)) == {a.slot} && Owned(Two(b, a)) == {b.slot, a.slot}
    ensures Owned(Three(b, a, c)) == {b.slot, a.slot, c.slot}
  {
    var s := [b, a, c, d];
    assert s[0] == b && s[1] == a && s[2] == c && s[3] == d;
    FourSteps(b, a, c, d);
    LeafParts(a, Black);
    CachedIsPlain(NewLeaf(a, Black), a.slot, b);
    TwoParts(b, a);
    CachedIsPlain(Two(b, a), a.slot, c);
    ThreeParts(b, a, c);
    CachedIsPlain(Three(b, a, c), c.slot, d);
  }

  lemma LeafParts(e: Entry, c: Color)
    ensures var t := NewLeaf(e, c);
      && Inorder(t) == [e] && Owned(t) == {e.slot} && Distinct(t) && MaxNode(t) == t && MaxSlot(t) == e.slot
      && Find(Top, t, e.slot) == Zipper(Top, t)
  {
  }

  lemma TwoParts(b: Entry, a: Entry)
    requires b.slot != a.slot
    ensures var t := Two(b, a);
      && Inorder(t) == [b, a] && Owned(t) == {b.slot, a.slot} && Distinct(t) && MaxSlot(t) == a.slot
      && Find(Top, t, a.slot) == Zipper(Top, t)
  {
    LeafParts(b, Red);
  }

  lemma ThreeParts(b: Entry, a: Entry, c: Entry)
    requires b.slot != a.slot && b.slot != c.slot && a.slot != c.slot
    ensures var t := Three(b, a, c);
      && Inorder(t) == [b, a, c] && Owned(t) == {b.slot, a.slot, c.slot} && Distinct(t) && MaxSlot(t) == c.slot
  {
    LeafParts(b, Red);
    LeafParts(c, Red);
    assert MaxNode(Three(b, a, c)) == MaxNode(NewLeaf(c, Red));
  }

  /** The root is cached although it has a right subtree: inserting `x` caches `x`, which
      has no right child and is not the maximum. */
  lemma FiveBuilt(b: Entry, a: Entry, x: Entry, c: Entry, y: Entry, d: Entry)
    requires Rising(b, a, x, c, y, d)
    ensures var t := Four(b, a, c, d);
      && a.slot in Rights(t) && NextMax(t, a.slot, x) == x.slot != MaxSlot(t)
      && InsertCached(t, a.slot, x) == Five(b, a, x, c, d)
  {
    var t, low := Four(b, a, c, d), InRight(Top, NewLeaf(b, Black), a, Black);
    var d0 := InLeft(low, c, Black, NewLeaf(d, Red));
    var s := [b, a, x, c, y, d];
    assert s[1] == a && s[2] == x && s[5] == d;
    assert Find(Top, t, a.slot) == Zipper(Top, t);
    assert MaxNode(t.right) == MaxNode(NewLeaf(d, Red)) == NewLeaf(d, Red);
    DescendNode(Top, NewLeaf(b, Black), a, Black, t.right, x.Key());
    DescendNode(low, Leaf, c, Black, NewLeaf(d, Red), x.Key());
    assert Landing(t, a.slot, x.Key()) == d0;
    BelowBlack(d0, NewLeaf(x, Red));
    assert Plug(d0, NewLeaf(x, Red)) == Plug(low, Join(d0, NewLeaf(x, Red)));
    PlugTwice(low, Join(d0, NewLeaf(x, Red)));
  }

  /** Then inserting `y` appends it to the right of `x`, before the smaller `c`. */
  lemma SixBuilt(b: Entry, a: Entry, x: Entry, c: Entry, y: Entry, d: Entry)
    requires Rising(b, a, x, c, y, d)
    ensures InsertCached(Five(b, a, x, c, d), x.slot, y) == Six(b, a, x, y, c, d)
    ensures Inorder(Six(b, a, x, y, c, d)) == [b, a, x, y, c, d] && !Sorted(Inorder(Six(b, a, x, y, c, d)))
  {
    var t, low := Five(b, a, x, c, d), InRight(Top, NewLeaf(b, Black), a, Black);
    var z := Zipper(InLeft(low, c, Black, NewLeaf(d, Red)), NewLeaf(x, Red));
    var s := [b, a, x, c, y, d];
    assert s[0] == b && s[1] == a && s[2] == x && s[3] == c;
    assert Find(z.ctx, z.t, x.slot) == z && x.slot in Owned(z.t) && x.slot in Owned(t.right);
    assert Find(low, t.right, x.slot) == z;
    assert Find(Top, t, x.slot) == z;
    var d0 := RightOf(z);
    assert Landing(t, x.slot, y.Key()) == d0;
    var u := Recolored(z.ctx, d0, NewLeaf(y, Red));
    assert InsertStep(d0, NewLeaf(y, Red)) == More(low, u);
    BelowBlack(low, u);
    PlugTwice(low, u);
    SixInorder(b, a, x, y, c, d);
    var r := Inorder(Six(b, a, x, y, c, d));
    assert r[3] == y && r[4] == c;
  }

  lemma SixInorder(b: Entry, a: Entry, x: Entry, y: Entry, c: Entry, d: Entry)
    ensures Inorder(Six(b, a, x, y, c, d)) == [b, a, x, y, c, d]
  {
    var t := Six(b, a, x, y, c, d);
    assert forall e, color :: Inorder(NewLeaf(e, color)) == [e];
    assert Inorder(t.right.left) == [x, y];
    assert Inorder(t.right) == [x, y, c, d];
  }

  // ----- the same on the array

  /** Insertion into an array big enough, told by trees alone. */
  method PutEntry(tree: RedBlackTree, slot: Index, key: int)
    requires tree.Stored() && tree.MaxKnown() && slot < tree.data.Length && slot !in Owned(tree.tree)
    modifies tree, tree.data
    ensures var e := Keyed(slot, key);
      && tree.Stored() && tree.tree == InsertCached(old(tree.tree), old(tree.maxIndex), e) && tree.MaxKnown()
      && tree.maxIndex == NextMax(old(tree.tree), old(tree.maxIndex), e)
      && (old(RedBlack(tree.tree)) ==> RedBlack(tree.tree))
  {
    CachedBalanced(tree.tree, tree.maxIndex, Keyed(slot, key));
    var rounds := tree.InsertWithPayloadType(slot, Payload(key, 0), 0);
  }

  function Keyed(slot: Index, key: int): Entry { Entry(slot, 0, Payload(key, 0)) }

  /** An input on which appending goes wrong: 20, 10, 30 and 40 are inserted, then the root
      is cached, although it has a right subtree by then. Inserting 25 caches 25; inserting
      35 appends it to the right of 25, before 30. */
  method MisplacedAppend(data: array<Slot>) returns (tree: RedBlackTree)
    requires 6 <= data.Length <= NIL
    modifies data
    ensures fresh(tree) && tree.Stored() && RedBlack(tree.tree) && !Sorted(tree.Contents())
    ensures tree.Contents() == [Keyed(1, 10), Keyed(0, 20), Keyed(4, 25), Keyed(5, 35), Keyed(2, 30), Keyed(3, 40)]
  {
    ghost var a, b, c, d, x, y := Keyed(0, 20), Keyed(1, 10), Keyed(2, 30), Keyed(3, 40), Keyed(4, 25), Keyed(5, 35);
    tree := BuildFour(data);
    tree.maxIndex := 0;
    CacheLeaf(tree);
    SixBuilt(b, a, x, c, y, d);
    PutEntry(tree, 5, 35);
  }

  /** With the root cached, inserting 25 caches 25, a leaf on the left of 30. */
  method CacheLeaf(tree: RedBlackTree)
    requires tree.Stored() && RedBlack(tree.tree) && tree.maxIndex == 0 && 6 <= tree.data.Length
    requires tree.tree == Four(Keyed(1, 10), Keyed(0, 20), Keyed(2, 30), Keyed(3, 40))
    modifies tree, tree.data
    ensures tree.Stored() && RedBlack(tree.tree) && tree.MaxKnown() && tree.maxIndex == 4
    ensures tree.tree == Five(Keyed(1, 10), Keyed(0, 20), Keyed(4, 25), Keyed(2, 30), Keyed(3, 40))
    ensures 5 !in Owned(tree.tree)
  {
    ghost var a, b, c, d, x, y := Keyed(0, 20), Keyed(1, 10), Keyed(2, 30), Keyed(3, 40), Keyed(4, 25), Keyed(5, 35);
    FourOwned(b, a, c, d);
    FiveBuilt(b, a, x, c, y, d);
    CachedOwned(tree.tree, 0, x);
    PutEntry(tree, 4, 25);
  }

  method BuildFour(data: array<Slot>) returns (tree: RedBlackTree)
    requires 6 <= data.Length <= NIL
    modifies data
    ensures fresh(tree) && tree.data == data && tree.Stored() && RedBlack(tree.tree)
    ensures tree.tree == Four(Keyed(1, 10), Keyed(0, 20), Keyed(2, 30), Keyed(3, 40))
  {
    ghost var a, b, c, d := Keyed(0, 20), Keyed(1, 10), Keyed(2, 30), Keyed(3, 40);
    FourCached(b, a, c, d);
    tree := new RedBlackTree(data, NIL, NIL, Leaf);
    PutEntry(tree, 0, 20);
    PutEntry(tree, 1, 10);
    PutEntry(tree, 2, 30);
    PutEntry(tree, 3, 40);
  }
}
