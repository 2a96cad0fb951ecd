/** Red-black insertion on zippers: one violation moving up the path. */
module Insertion {
  import opened Slots
  import opened Trees

  /** One round of a repair: finished, or the same problem higher up. */
  datatype Step = Done(tree: Tree) | More(ctx: Ctx, focus: Tree)

  /** The tree a repair state stands for. */
  function Whole(s: Step): Tree {
    if s.Done? then s.tree else Plug(s.ctx, s.focus)
  }

  /** The empty position reached by going right past smaller keys and left otherwise. */
  function Descend(ctx: Ctx, t: Tree, key: int): Ctx
    decreases t
  {
    match t
    case Leaf => ctx
    case Node(l, e, c, r) =>
      if key > e.Key() then Descend(InRight(ctx, l, e, c), r, key) else Descend(InLeft(ctx, e, c, r), l, key)
  }

  /** The subtree that replaces red `t`, its red parent `p` and grandparent `g`
      when the uncle is black: one rotation for an outer `t`, two for an inner one. */
  function Rotated(g: Ctx, p: Ctx, t: Tree): Tree
    requires t.Node? && !p.Top? && !g.Top?
  {
    if g.InLeft? && p.InLeft? then Node(t, p.e, g.color, Node(p.right, g.e, p.color, g.right))
    else if g.InLeft? then
      Node(Node(p.left, p.e, p.color, t.left), t.e, g.color, Node(t.right, g.e, Red, g.right))
    else if p.InLeft? then
      Node(Node(g.left, g.e, Red, t.left), t.e, g.color, Node(t.right, p.e, p.color, p.right))
    else Node(Node(g.left, g.e, p.color, p.left), p.e, g.color, t)
  }

  /** Recoloured grandparent when the uncle is red. */
  function Recolored(g: Ctx, p: Ctx, t: Tree): Tree
    requires !p.Top? && !g.Top?
  {
    var parent, uncle := Paint(Join(p, t), Black), Paint(Sibling(g), Black);
    if g.InLeft? then Node(parent, g.e, Red, uncle) else Node(uncle, g.e, Red, parent)
  }

  /** One round of insertion repair at the red node `t`. */
  function InsertStep(ctx: Ctx, t: Tree): (s: Step)
    requires t.Node?
    ensures s.More? ==> s.focus.Node? && Depth(s.ctx) + 2 == Depth(ctx)
  {
    if ctx.Top? then Done(Paint(t, Black))
    else if ctx.color.Black? then Done(Plug(ctx, t))
    else if ctx.up.Top? then Done(Paint(Join(ctx, t), Black))
    else
      if Col(Sibling(ctx.up)).Red? then More(ctx.up.up, Recolored(ctx.up, ctx, t))
      else Done(Plug(ctx.up.up, Rotated(ctx.up, ctx, t)))
  }

  function InsertFix(ctx: Ctx, t: Tree): Tree
    requires t.Node?
    decreases Depth(ctx)
  {
    match InsertStep(ctx, t)
    case Done(t') => t'
    case More(ctx', t') => InsertFix(ctx', t')
  }

  function NewLeaf(e: Entry, c: Color): Tree { Node(Leaf, e, c, Leaf) }

  function Insert(t: Tree, e: Entry): Tree {
    if t.Leaf? then NewLeaf(e, Black) else InsertFix(Descend(Top, t, e.Key()), NewLeaf(e, Red))
  }

  // ----- order

  lemma {:induction false} DescendPlug(ctx: Ctx, t: Tree, key: int)
    ensures Plug(Descend(ctx, t, key), Leaf) == Plug(ctx, t)
    decreases t
  {
    match t
    case Leaf =>
    case Node(l, e, c, r) =>
      if key > e.Key() {
        DescendPlug(InRight(ctx, l, e, c), r, key);
      } else {
        DescendPlug(InLeft(ctx, e, c, r), l, key);
      }
  }

  /** Everything before the position reached is smaller than `key`, nothing after it is. */
  lemma {:induction false} DescendSplits(ctx: Ctx, t: Tree, key: int)
    requires Sorted(Before(ctx) + Inorder(t) + After(ctx))
    requires AllBelow(Before(ctx), key) && AllAtLeast(After(ctx), key)
    ensures var d := Descend(ctx, t, key); AllBelow(Before(d), key) && AllAtLeast(After(d), key)
    decreases t
  {
    match t
    case Leaf =>
    case Node(l, e, c, r) =>
      var a, b := Before(ctx) + Inorder(l), [e] + Inorder(r) + After(ctx);
      Regroup(Before(ctx), Inorder(l), [e], Inorder(r), After(ctx));
      SortedPivot(a, b);
      if key > e.Key() {
        DescendSplits(InRight(ctx, l, e, c), r, key);
      } else {
        DescendSplits(InLeft(ctx, e, c, r), l, key);
      }
  }

  lemma SortedPivot(a: seq<Entry>, b: seq<Entry>)
    requires Sorted(a + b) && b != []
    ensures AllBelow(a, b[0].Key() + 1) && AllAtLeast(b, b[0].Key())
  {
    var s := a + b;
    assert s[|a|] == b[0];
    forall i | 0 <= i < |a| ensures a[i].Key() <= b[0].Key() {
      assert s[i] == a[i];
    }
    forall i | 0 <= i < |b| ensures b[0].Key() <= b[i].Key() {
      assert s[|a| + i] == b[i];
    }
  }

  lemma RotatedInorder(g: Ctx, p: Ctx, t: Tree)
    requires t.Node? && !p.Top? && !g.Top?
    ensures Inorder(Rotated(g, p, t)) == Inorder(Join(g, Join(p, t)))
  {
    if g.InLeft? && p.InLeft? {
      RotationInorder(t, p.e, p.right, g.e, g.right, p.color, g.color, g.color, p.color);
    } else if g.InLeft? {
      RotationInorder(p.left, p.e, t.left, t.e, t.right, p.color, g.color, p.color, t.color);
      RotationInorder(Node(p.left, p.e, p.color, t.left), t.e, t.right, g.e, g.right, g.color, g.color, g.color, Red);
    } else if p.InLeft? {
      RotationInorder(t.left, t.e, t.right, p.e, p.right, t.color, p.color, g.color, p.color);
      RotationInorder(g.left, g.e, t.left, t.e, Node(t.right, p.e, p.color, p.right), Red, g.color, g.color, g.color);
    } else {
      RotationInorder(g.left, g.e, p.left, p.e, t, p.color, g.color, g.color, p.color);
    }
  }

  lemma InsertStepInorder(ctx: Ctx, t: Tree)
    requires t.Node?
    ensures Inorder(Whole(InsertStep(ctx, t))) == Inorder(Plug(ctx, t))
  {
    if ctx.Top? || ctx.color.Black? {
    } else if ctx.up.Top? {
      assert Plug(ctx, t) == Join(ctx, t);
    } else {
      var g := ctx.up;
      assert Plug(ctx, t) == Plug(g.up, Join(g, Join(ctx, t)));
      if Col(Sibling(g)).Red? {
        PlugSameInorder(g.up, Join(g, Join(ctx, t)), Recolored(g, ctx, t));
      } else {
        RotatedInorder(g, ctx, t);
        PlugSameInorder(g.up, Join(g, Join(ctx, t)), Rotated(g, ctx, t));
      }
    }
  }

  lemma {:induction false} InsertFixInorder(ctx: Ctx, t: Tree)
    requires t.Node?
    ensures Inorder(InsertFix(ctx, t)) == Inorder(Plug(ctx, t))
    decreases Depth(ctx)
  {
    InsertStepInorder(ctx, t);
    match InsertStep(ctx, t)
    case Done(_) =>
    case More(ctx', t') => InsertFixInorder(ctx', t');
  }

  /** Around the place where a descent ends. */
  lemma DescentAround(t: Tree, key: int)
    requires Sorted(Inorder(t))
    ensures var d := Descend(Top, t, key); AllBelow(Before(d), key) && AllAtLeast(After(d), key)
  {
    assert Before(Top) + Inorder(t) + After(Top) == Inorder(t);
    DescendSplits(Top, t, key);
  }

  lemma DescentParts(t: Tree, key: int)
    ensures var d := Descend(Top, t, key); Inorder(t) == Before(d) + After(d)
  {
    var d := Descend(Top, t, key);
    DescendPlug(Top, t, key);
    PlugInorder(d, Leaf);
    assert Before(d) + [] + After(d) == Before(d) + After(d);
  }

  lemma LeafInorder(e: Entry, c: Color)
    ensures Inorder(NewLeaf(e, c)) == [e]
  {
    assert [] + [e] + [] == [e];
  }

  /** A new leaf, and all repair above it, adds just its entry to the sequence. */
  lemma LinkedInorder(d: Ctx, e: Entry)
    ensures Inorder(InsertFix(d, NewLeaf(e, Red))) == Before(d) + [e] + After(d)
  {
    PlugInorder(d, NewLeaf(e, Red));
    LeafInorder(e, Red);
    InsertFixInorder(d, NewLeaf(e, Red));
  }

  /** Insertion puts the entry before every one that is not smaller and after every smaller one. */
  lemma InsertOrder(t: Tree, e: Entry)
    requires Sorted(Inorder(t))
    ensures Inorder(Insert(t, e)) == InsertSorted(Inorder(t), e)
  {
    if t.Node? {
      var d := Descend(Top, t, e.Key());
      DescentParts(t, e.Key());
      DescentAround(t, e.Key());
      InsertSortedSplit(Before(d), After(d), e);
      LinkedInorder(d, e);
    }
  }

  // ----- single steps

  lemma DescendNode(ctx: Ctx, l: Tree, e: Entry, c: Color, r: Tree, key: int)
    ensures Descend(ctx, Node(l, e, c, r), key)
         == if key > e.Key() then Descend(InRight(ctx, l, e, c), r, key) else Descend(InLeft(ctx, e, c, r), l, key)
  {
  }

  /** Below a black parent nothing needs repair. */
  lemma BelowBlack(ctx: Ctx, t: Tree)
    requires t.Node? && !ctx.Top? && ctx.color.Black?
    ensures InsertFix(ctx, t) == Plug(ctx, t)
  {
  }

  lemma PlugTwice(ctx: Ctx, t: Tree)
    requires !ctx.Top? && ctx.up.Top?
    ensures Plug(ctx, t) == Join(ctx, t)
  {
    assert Plug(Top, Join(ctx, t)) == Join(ctx, t);
  }

  // ----- balance

  /** A red node whose subtrees are fine, on a path that would be fine around a
      black one: the only possible defect is the node and its parent both red. */
  predicate RedAtMost(ctx: Ctx, t: Tree) {
    t.Node? && t.color.Red? && Balanced(t) && Accepts(ctx, BlackHeight(t), Black)
  }

  /** Repair keeps at most one red-red edge, moves it up two levels a round, and
      ends with a balanced tree. */
  lemma InsertStepBalanced(ctx: Ctx, t: Tree)
    requires RedAtMost(ctx, t)
    ensures var s := InsertStep(ctx, t);
      if s.Done? then Balanced(s.tree) else RedAtMost(s.ctx, s.focus)
  {
    if ctx.Top? {
    } else if ctx.color.Black? {
      PlugBalanced(ctx, t);
    } else if ctx.up.Top? {
      assert Balanced(Paint(Join(ctx, t), Black));
    } else {
      var g, n := ctx.up, BlackHeight(t);
      assert ctx.color.Red? && Accepts(g, n, Red);
      assert g.color.Black? && Accepts(g.up, n + 1, Black);
      if Col(Sibling(g)).Red? {
        assert Balanced(Paint(Join(ctx, t), Black)) && Balanced(Paint(Sibling(g), Black));
      } else {
        PlugBalanced(g.up, Rotated(g, ctx, t));
      }
    }
  }

  lemma {:induction false} InsertFixBalanced(ctx: Ctx, t: Tree)
    requires RedAtMost(ctx, t)
    ensures Balanced(InsertFix(ctx, t))
    decreases Depth(ctx)
  {
    InsertStepBalanced(ctx, t);
    match InsertStep(ctx, t)
    case Done(_) =>
    case More(ctx', t') => InsertFixBalanced(ctx', t');
  }

  /** Insertion keeps a tree balanced, whatever the colour of its root. */
  lemma InsertBalanced(t: Tree, e: Entry)
    requires Balanced(t)
    ensures Balanced(Insert(t, e))
  {
    if t.Node? {
      var d := Descend(Top, t, e.Key());
      DescendPlug(Top, t, e.Key());
      PlugBalanced(d, Leaf);
      InsertFixBalanced(d, NewLeaf(e, Red));
    }
  }

  /** The node the path starts from, if any, is black. */
  predicate BlackTop(ctx: Ctx) {
    !ctx.Top? ==> if ctx.up.Top? then ctx.color.Black? else BlackTop(ctx.up)
  }

  lemma {:induction false} PlugBlackTop(ctx: Ctx, t: Tree)
    ensures Col(Plug(ctx, t)).Black? <==> if ctx.Top? then Col(t).Black? else BlackTop(ctx)
    decreases ctx
  {
    if !ctx.Top? {
      PlugBlackTop(ctx.up, Join(ctx, t));
    }
  }

  lemma {:induction false} InsertFixRoot(ctx: Ctx, t: Tree)
    requires t.Node? && BlackTop(ctx)
    ensures Col(InsertFix(ctx, t)).Black?
    decreases ctx
  {
    if ctx.Top? {
    } else if ctx.color.Black? {
      PlugBlackTop(ctx, t);
    } else if Col(Sibling(ctx.up)).Red? {
      InsertFixRoot(ctx.up.up, Recolored(ctx.up, ctx, t));
    } else {
      PlugBlackTop(ctx.up.up, Rotated(ctx.up, ctx, t));
    }
  }

  /** Insertion keeps the run invariant: balanced with a black root. */
  lemma InsertRedBlack(t: Tree, e: Entry)
    requires RedBlack(t)
    ensures RedBlack(Insert(t, e))
  {
    InsertBalanced(t, e);
    if t.Node? {
      var d := Descend(Top, t, e.Key());
      DescendPlug(Top, t, e.Key());
      PlugBlackTop(d, Leaf);
      InsertFixRoot(d, NewLeaf(e, Red));
    }
  }
}
