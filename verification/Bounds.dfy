/** How far descents and repairs can go in a balanced tree. */
module Bounds {
  import opened Slots
  import opened Trees
  import opened Insertion
  import opened Removal

  function Max(a: nat, b: nat): nat { if a < b then b else a }

  function Height(t: Tree): nat {
    if t.Leaf? then 0 else 1 + Max(Height(t.left), Height(t.right))
  }

  function Pow2(n: nat): nat { if n == 0 then 1 else 2 * Pow2(n - 1) }

  function Reddish(c: Color): nat { if c.Black? then 0 else 1 }

  /** At most every other node on a path is red. */
  lemma {:induction false} HeightBound(t: Tree)
    requires Balanced(t)
    ensures Height(t) <= 2 * BlackHeight(t) + Reddish(Col(t))
  {
    if t.Node? {
      HeightBound(t.left);
      HeightBound(t.right);
    }
  }

  /** A tree of black height `b` has at least 2^b - 1 nodes. */
  lemma {:induction false} SizeBound(t: Tree)
    requires Balanced(t)
    ensures Pow2(BlackHeight(t)) <= |Inorder(t)| + 1
  {
    if t.Node? {
      SizeBound(t.left);
      SizeBound(t.right);
    }
  }

  lemma {:induction false} DescendDepth(ctx: Ctx, t: Tree, key: int)
    ensures Depth(Descend(ctx, t, key)) <= Depth(ctx) + Height(t)
    decreases t
  {
    if t.Node? {
      if key > t.e.Key() {
        DescendDepth(InRight(ctx, t.left, t.e, t.color), t.right, key);
      } else {
        DescendDepth(InLeft(ctx, t.e, t.color, t.right), t.left, key);
      }
    }
  }

  /** With n nodes and black height b, a descent visits at most 2b of them and
      2^b <= n + 1: at most 2 log2(n + 1) levels. */
  lemma DescentBound(t: Tree, key: int)
    requires RedBlack(t)
    ensures var b := BlackHeight(t);
      Depth(Descend(Top, t, key)) <= 2 * b && Pow2(b) <= |Inorder(t)| + 1
  {
    DescendDepth(Top, t, key);
    HeightBound(t);
    SizeBound(t);
  }

  /** No position in a tree lies deeper than the tree is high. */
  lemma {:induction false} DepthWithin(ctx: Ctx, t: Tree)
    ensures Depth(ctx) + Height(t) <= Height(Plug(ctx, t))
    decreases ctx
  {
    if !ctx.Top? {
      DepthWithin(ctx.up, Join(ctx, t));
    }
  }

  /** Wherever the new leaf lands in a red-black tree, its depth bounds the rounds of repair. */
  lemma LandingBound(ctx: Ctx, t: Tree, rounds: nat)
    requires RedBlack(t) && Plug(ctx, Leaf) == t && 2 * rounds <= Depth(ctx) + 2
    ensures rounds <= BlackHeight(t) + 1 && Pow2(BlackHeight(t)) <= |Inorder(t)| + 1
  {
    DepthWithin(ctx, Leaf);
    HeightBound(t);
    SizeBound(t);
  }

  /** Rounds of removal repair taken. */
  function RemoveRounds(ctx: Ctx, t: Tree): nat
    requires OneShort(ctx, t)
    decreases BlackDepth(ctx), SiblingRed(ctx)
  {
    RemoveStepBalanced(ctx, t);
    match RemoveStep(ctx, t)
    case Done(_) => 1
    case More(ctx', t') => 1 + RemoveRounds(ctx', t')
  }

  /** Each round climbs past a black ancestor, except one rotation of a red sibling
      and the last round. */
  lemma {:induction false} RemoveRoundsBound(ctx: Ctx, t: Tree)
    requires OneShort(ctx, t)
    ensures RemoveRounds(ctx, t) <= BlackDepth(ctx) + 2
    decreases BlackDepth(ctx), SiblingRed(ctx)
  {
    RemoveStepBalanced(ctx, t);
    if !ctx.Top? {
      if Col(Sibling(ctx)).Red? {
        var low := Lowered(ctx);
        assert !Col(Sibling(low)).Red? && Absorbs(low);
        assert RemoveStep(low, t).Done?;
      } else if !Absorbs(ctx) {
        RemoveRoundsBound(ctx.up, Mended(ctx, t));
      }
    }
  }

  /** The black ancestors of a position in a balanced tree: no more than its black height. */
  lemma {:induction false} PathBlackDepth(ctx: Ctx, t: Tree)
    requires Balanced(Plug(ctx, t))
    ensures BlackDepth(ctx) + BlackHeight(t) == BlackHeight(Plug(ctx, t))
    decreases ctx
  {
    PlugBalanced(ctx, t);
    if !ctx.Top? {
      PathBlackDepth(ctx.up, Join(ctx, t));
    }
  }

  /** The hole a removal leaves has no more black ancestors than the tree's black height. */
  lemma HoleDepth(ctx: Ctx, t: Tree)
    requires t.Node? && Balanced(Plug(ctx, t))
    ensures BlackDepth(HoleOf(ctx, t).ctx) <= BlackHeight(Plug(ctx, t))
    ensures Pow2(BlackHeight(Plug(ctx, t))) <= |Inorder(Plug(ctx, t))| + 1
  {
    var h := HoleOf(ctx, t);
    HoleOfBalanced(ctx, t);
    PathBlackDepth(h.ctx, NodeAt(h));
    HoleBlackHeight(ctx, t);
    SizeBound(Plug(ctx, t));
  }

  lemma HoleBlackHeight(ctx: Ctx, t: Tree)
    requires t.Node? && Balanced(Plug(ctx, t))
    ensures BlackHeight(Plug(HoleOf(ctx, t).ctx, NodeAt(HoleOf(ctx, t)))) == BlackHeight(Plug(ctx, t))
  {
    PlugBalanced(ctx, t);
    var h := HoleOf(ctx, t);
    if Internal(t) {
      var below := InRight(ctx, t.left, MinNode(t.right).e, t.color);
      MinPlugHeight(below, t.right, NodeAt(h));
      SameHeight(ctx, t, Node(t.left, MinNode(t.right).e, t.color, t.right));
      assert Plug(below, t.right) == Plug(ctx, Node(t.left, MinNode(t.right).e, t.color, t.right));
    } else {
      SameHeight(ctx, t, NodeAt(h));
    }
  }

  lemma {:induction false} SameHeight(ctx: Ctx, t: Tree, t': Tree)
    requires BlackHeight(t) == BlackHeight(t')
    ensures BlackHeight(Plug(ctx, t)) == BlackHeight(Plug(ctx, t'))
    decreases ctx
  {
    if !ctx.Top? {
      SameHeight(ctx.up, Join(ctx, t), Join(ctx, t'));
    }
  }

  lemma {:induction false} MinPlugHeight(ctx: Ctx, t: Tree, n: Tree)
    requires t.Node? && BlackHeight(n) == BlackHeight(MinNode(t))
    ensures BlackHeight(Plug(MinCtx(ctx, t), n)) == BlackHeight(Plug(ctx, t))
    decreases t
  {
    if t.left.Node? {
      MinPlugHeight(InLeft(ctx, t.e, t.color, t.right), t.left, n);
    } else {
      SameHeight(ctx, n, t);
    }
  }
}
