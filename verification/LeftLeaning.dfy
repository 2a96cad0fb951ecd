/** Left-leaning insertion on trees: recursive, with three local repairs on the way up. */
module LeftLeaning {
  import opened Slots
  import opened Trees
  import Insertion

  /** A red right link leans over to the left. */
  function Lean(t: Tree): Tree
    requires t.Node?
  {
    if Col(t.right).Red? && Col(t.left).Black? then
      Node(Node(t.left, t.e, Red, t.right.left), t.right.e, t.color, t.right.right)
    else t
  }

  function LeftOf(t: Tree): Tree { if t.Leaf? then Leaf else t.left }

  /** Two red left links in a row are split over both sides. */
  function Unstack(t: Tree): Tree
    requires t.Node?
  {
    if Col(t.left).Red? && Col(LeftOf(t.left)).Red? then
      Node(t.left.left, t.left.e, t.color, Node(t.left.right, t.e, Red, t.right))
    else t
  }

  function Toggle(c: Color): Color { if c.Black? then Red else Black }

  function Flip(t: Tree): Tree {
    if t.Leaf? then Leaf else t.(color := Toggle(t.color))
  }

  /** Two red children hand their red up. */
  function Hand(t: Tree): Tree
    requires t.Node?
  {
    if Col(t.left).Red? && Col(t.right).Red? then Node(Flip(t.left), t.e, Toggle(t.color), Flip(t.right))
    else t
  }

  function FixUp(t: Tree): Tree
    requires t.Node?
  {
    Hand(Unstack(Lean(t)))
  }

  function InsertBelow(t: Tree, e: Entry): (r: Tree)
    ensures r.Node?
  {
    if t.Leaf? then Node(Leaf, e, Red, Leaf)
    else if e.Key() > t.e.Key() then FixUp(t.(right := InsertBelow(t.right, e)))
    else FixUp(t.(left := InsertBelow(t.left, e)))
  }

  function Insert(t: Tree, e: Entry): Tree { Paint(InsertBelow(t, e), Black) }

  // ----- invariants

  /** No red link leans right. */
  predicate Leaning(t: Tree) {
    t.Node? ==> Col(t.right).Black? && Leaning(t.left) && Leaning(t.right)
  }

  /** Balanced except that a red root may have a red left child. */
  predicate NearlyBalanced(t: Tree) {
    t.Node? ==>
      && Balanced(t.left) && Balanced(t.right) && Legal(t.color)
      && BlackHeight(t.left) == BlackHeight(t.right) && Col(t.right).Black?
  }

  /** Repairing a node whose right child was just inserted into. */
  lemma FixRight(t: Tree)
    requires t.Node? && Balanced(t.left) && Balanced(t.right) && Legal(t.color)
    requires BlackHeight(t.left) == BlackHeight(t.right) && Leaning(t.left) && Leaning(t.right)
    requires t.color.Red? ==> Col(t.left).Black?
    ensures var r := FixUp(t);
      && Leaning(r) && BlackHeight(r) == BlackHeight(t) && NearlyBalanced(r) && (t.color.Black? ==> Balanced(r))
  {
    if Col(t.right).Red? {
      assert Balanced(t.right.left) && Balanced(t.right.right);
      if Col(t.left).Red? { assert Balanced(t.left.left) && Balanced(t.left.right); }
    }
  }

  /** Repairing a node whose left child was just inserted into. */
  lemma FixLeft(t: Tree)
    requires t.Node? && Balanced(t.right) && Col(t.right).Black? && Legal(t.color)
    requires BlackHeight(t.left) == BlackHeight(t.right) && Leaning(t.left) && Leaning(t.right)
    requires NearlyBalanced(t.left) && (t.color.Red? ==> Balanced(t.left))
    requires t.left.Node? && (t.left.color.Black? ==> Balanced(t.left))
    ensures var r := FixUp(t);
      && Leaning(r) && BlackHeight(r) == BlackHeight(t) && NearlyBalanced(r) && (t.color.Black? ==> Balanced(r))
  {
    assert Lean(t) == t;
    var l := t.left;
    if l.color.Red? && Col(l.left).Red? {
      assert Balanced(l.left) && Balanced(l.left.left) && Balanced(l.left.right);
      FixStacked(t);
    }
  }

  /** Two red left links above each other, below a black node. */
  lemma FixStacked(t: Tree)
    requires t.Node? && Balanced(t.right) && Col(t.right).Black? && t.color.Black?
    requires BlackHeight(t.left) == BlackHeight(t.right) && Leaning(t.left) && Leaning(t.right)
    requires NearlyBalanced(t.left) && Col(t.left).Red? && Col(t.left.left).Red?
    requires Balanced(t.left.left.left) && Balanced(t.left.left.right)
    ensures var r := FixUp(t); Leaning(r) && BlackHeight(r) == BlackHeight(t) && NearlyBalanced(r) && Balanced(r)
  {
    var l := t.left;
    assert Unstack(t) == Node(l.left, l.e, Black, Node(l.right, t.e, Red, t.right));
    assert FixUp(t) == Node(Flip(l.left), l.e, Red, Node(l.right, t.e, Black, t.right));
  }

  /** Recursive insertion keeps black height and leaning; only below a red root can a
      red left child be left over for the caller. */
  lemma {:induction false} InsertBelowKeeps(t: Tree, e: Entry)
    requires Balanced(t) && Leaning(t)
    ensures var r := InsertBelow(t, e);
      && Leaning(r) && BlackHeight(r) == BlackHeight(t) && NearlyBalanced(r)
      && (Col(t).Black? ==> Balanced(r)) && (r.color.Black? ==> Balanced(r))
  {
    if t.Node? {
      if e.Key() > t.e.Key() {
        InsertBelowKeeps(t.right, e);
        FixRight(t.(right := InsertBelow(t.right, e)));
      } else {
        InsertBelowKeeps(t.left, e);
        FixLeft(t.(left := InsertBelow(t.left, e)));
      }
    }
  }

  /** Insertion keeps the left-leaning invariant: red-black, black root, no red right link. */
  lemma InsertKeeps(t: Tree, e: Entry)
    requires RedBlack(t) && Leaning(t)
    ensures RedBlack(Insert(t, e)) && Leaning(Insert(t, e))
  {
    InsertBelowKeeps(t, e);
  }

  // ----- order

  lemma FixUpInorder(t: Tree)
    requires t.Node?
    ensures Inorder(FixUp(t)) == Inorder(t)
  {
    if Col(t.right).Red? && Col(t.left).Black? {
      RotationInorder(t.left, t.e, t.right.left, t.right.e, t.right.right, Red, t.color, t.color, t.right.color);
    }
    var u := Lean(t);
    assert Inorder(u) == Inorder(t);
    if Col(u.left).Red? && Col(LeftOf(u.left)).Red? {
      RotationInorder(u.left.left, u.left.e, u.left.right, u.e, u.right, u.left.color, u.color, u.color, Red);
    }
    var v := Unstack(u);
    assert Inorder(v) == Inorder(u);
    assert Inorder(Flip(v.left)) == Inorder(v.left) && Inorder(Flip(v.right)) == Inorder(v.right);
  }

  lemma {:induction false} InsertSortedRight(a: seq<Entry>, b: seq<Entry>, e: Entry)
    requires AllBelow(a, e.Key())
    ensures InsertSorted(a + b, e) == a + InsertSorted(b, e)
  {
    if a == [] {
      assert a + b == b;
    } else {
      assert (a + b)[1..] == a[1..] + b;
      InsertSortedRight(a[1..], b, e);
    }
  }

  lemma {:induction false} InsertSortedLeft(a: seq<Entry>, b: seq<Entry>, e: Entry)
    requires b != [] && e.Key() <= b[0].Key()
    ensures InsertSorted(a + b, e) == InsertSorted(a, e) + b
  {
    if a == [] {
      assert a + b == b;
    } else {
      assert (a + b)[1..] == a[1..] + b;
      if a[0].Key() < e.Key() { InsertSortedLeft(a[1..], b, e); }
    }
  }

  lemma {:induction false} InsertBelowOrder(t: Tree, e: Entry)
    requires Sorted(Inorder(t))
    ensures Inorder(InsertBelow(t, e)) == InsertSorted(Inorder(t), e)
  {
    if t.Node? {
      SortedSides(Inorder(t.left), t.e, Inorder(t.right));
      if e.Key() > t.e.Key() {
        InsertBelowOrder(t.right, e);
        FixUpInorder(t.(right := InsertBelow(t.right, e)));
        InsertSortedRight(Inorder(t.left) + [t.e], Inorder(t.right), e);
      } else {
        InsertBelowOrder(t.left, e);
        FixUpInorder(t.(left := InsertBelow(t.left, e)));
        InsertBeforePivot(Inorder(t.left), t.e, Inorder(t.right), e);
      }
    }
  }

  lemma InsertBeforePivot(l: seq<Entry>, x: Entry, r: seq<Entry>, e: Entry)
    requires e.Key() <= x.Key()
    ensures InsertSorted(l + [x] + r, e) == InsertSorted(l, e) + [x] + r
  {
    assert l + [x] + r == l + ([x] + r);
    InsertSortedLeft(l, [x] + r, e);
    assert InsertSorted(l, e) + [x] + r == InsertSorted(l, e) + ([x] + r);
  }

  lemma SortedSides(l: seq<Entry>, e: Entry, r: seq<Entry>)
    requires Sorted(l + [e] + r)
    ensures Sorted(l) && Sorted(r) && AllBelow(l + [e], e.Key() + 1)
  {
    SortedParts(l + [e], r);
    SortedParts(l, [e]);
    assert (l + [e])[|l|] == e;
  }

  /** Left-leaning insertion gives the same in-order sequence as red-black insertion. */
  lemma SameOrderAsRedBlack(t: Tree, t': Tree, e: Entry)
    requires Inorder(t) == Inorder(t') && Sorted(Inorder(t))
    ensures Inorder(Insert(t, e)) == Inorder(Insertion.Insert(t', e))
  {
    InsertBelowOrder(t, e);
    assert Inorder(Insert(t, e)) == Inorder(InsertBelow(t, e));
    Insertion.InsertOrder(t', e);
  }

  /** Inserting one after another, from a given tree. */
  function InsertAll(t: Tree, es: seq<Entry>): Tree {
    if es == [] then t else Insert(InsertAll(t, es[..|es| - 1]), es[|es| - 1])
  }

  function RedBlackInsertAll(t: Tree, es: seq<Entry>): Tree {
    if es == [] then t else Insertion.Insert(RedBlackInsertAll(t, es[..|es| - 1]), es[|es| - 1])
  }

  /** For any insert sequence the two trees list the same entries in the same order,
      each under its own balancing discipline. */
  lemma {:induction false} InsertAllAgrees(es: seq<Entry>)
    ensures var l, r := InsertAll(Leaf, es), RedBlackInsertAll(Leaf, es);
      && Inorder(l) == Inorder(r) && Sorted(Inorder(l))
      && RedBlack(l) && Leaning(l) && RedBlack(r)
  {
    if es != [] {
      var init, e := es[..|es| - 1], es[|es| - 1];
      InsertAllAgrees(init);
      var l, r := InsertAll(Leaf, init), RedBlackInsertAll(Leaf, init);
      SameOrderAsRedBlack(l, r, e);
      Insertion.InsertOrder(r, e);
      InsertSortedSorted(Inorder(r), e);
      InsertKeeps(l, e);
      Insertion.InsertRedBlack(r, e);
    }
  }

  /** Insertion keeps the keys in order and places the new entry as stable order asks. */
  lemma InsertOrderKept(t: Tree, e: Entry)
    requires Sorted(Inorder(t))
    ensures Inorder(Insert(t, e)) == InsertSorted(Inorder(t), e) && Sorted(Inorder(Insert(t, e)))
  {
    InsertBelowOrder(t, e);
    assert Inorder(Insert(t, e)) == Inorder(InsertBelow(t, e));
    InsertSortedSorted(Inorder(t), e);
  }
}
