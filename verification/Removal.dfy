/** Red-black removal on zippers: one missing black node moving up the path. */
module Removal {
  import opened Slots
  import opened Trees
  import opened Insertion

  /** A position that lost a node coloured `color`; `child` has taken its place. */
  datatype Hole = Hole(ctx: Ctx, child: Tree, color: Color)

  /** The leftmost node of `t`. */
  function MinNode(t: Tree): (m: Tree)
    requires t.Node?
    ensures m.Node? && m.left.Leaf?
  {
    if t.left.Leaf? then t else MinNode(t.left)
  }

  /** The path extended from `t` down to its leftmost node. */
  function MinCtx(ctx: Ctx, t: Tree): Ctx
    requires t.Node?
    decreases t
  {
    if t.left.Leaf? then ctx else MinCtx(InLeft(ctx, t.e, t.color, t.right), t.left)
  }

  predicate Internal(t: Tree) { t.Node? && t.left.Node? && t.right.Node? }

  /** Where the tree gets shorter when node `t` goes: an internal node is replaced
      by its successor, in the node's colour, so the hole is where the successor was. */
  function HoleOf(ctx: Ctx, t: Tree): Hole
    requires t.Node?
  {
    if Internal(t) then
      var s := MinNode(t.right);
      Hole(MinCtx(InRight(ctx, t.left, s.e, t.color), t.right), s.right, s.color)
    else
      Hole(ctx, if t.left.Node? then t.left else t.right, t.color)
  }

  /** The path after rotating a red sibling above the parent. */
  function Lowered(ctx: Ctx): (r: Ctx)
    requires !ctx.Top? && Sibling(ctx).Node?
    ensures !r.Top? && !r.up.Top? && r.up.up == ctx.up && r.color.Red?
  {
    var s := Sibling(ctx);
    if ctx.InLeft? then InLeft(InLeft(ctx.up, s.e, Black, s.right), ctx.e, Red, s.left)
    else InRight(InRight(ctx.up, s.left, s.e, Black), s.right, ctx.e, Red)
  }

  /** The sibling has a red child to give, or the parent is red and can turn black. */
  predicate Absorbs(ctx: Ctx)
    requires !ctx.Top?
  {
    var s := Sibling(ctx);
    !ctx.color.Black? || (s.Node? && (Col(s.left).Red? || Col(s.right).Red?))
  }

  /** The subtree that replaces parent, sibling and `t` when the sibling is black:
      the outer red child is preferred, then the inner one, then recolouring. */
  function Mended(ctx: Ctx, t: Tree): Tree
    requires !ctx.Top?
  {
    var s, p, c := Sibling(ctx), ctx.e, ctx.color;
    if ctx.InLeft? then
      if s.Node? && Col(s.right).Red? then
        Node(Node(t, p, Black, s.left), s.e, c, Paint(s.right, Black))
      else if s.Node? && Col(s.left).Red? then
        Node(Node(t, p, Black, s.left.left), s.left.e, c, Node(s.left.right, s.e, Black, s.right))
      else Node(t, p, Black, Paint(s, Red))
    else
      if s.Node? && Col(s.left).Red? then
        Node(Paint(s.left, Black), s.e, c, Node(s.right, p, Black, t))
      else if s.Node? && Col(s.right).Red? then
        Node(Node(s.left, s.e, Black, s.right.left), s.right.e, c, Node(s.right.right, p, Black, t))
      else Node(Paint(s, Red), p, Black, t)
  }

  /** One round of removal repair at `t`, which is one black node short. */
  function RemoveStep(ctx: Ctx, t: Tree): Step {
    if ctx.Top? then Done(t)
    else if Col(Sibling(ctx)).Red? then More(Lowered(ctx), t)
    else if Absorbs(ctx) then Done(Plug(ctx.up, Mended(ctx, t)))
    else More(ctx.up, Mended(ctx, t))
  }

  /** `t` is a balanced black subtree exactly one black node short of what its
      position needs; nothing else is wrong. */
  predicate OneShort(ctx: Ctx, t: Tree) {
    Balanced(t) && Col(t).Black? && Accepts(ctx, BlackHeight(t) + 1, Black)
  }

  function BlackDepth(ctx: Ctx): nat {
    if ctx.Top? then 0 else Weight(ctx.color) + BlackDepth(ctx.up)
  }

  function SiblingRed(ctx: Ctx): nat {
    if !ctx.Top? && Col(Sibling(ctx)).Red? then 1 else 0
  }

  /** A round ends the repair with a balanced tree, or leaves the tree one short at
      a position with fewer black ancestors, or with as many but a black sibling. */
  lemma RemoveStepBalanced(ctx: Ctx, t: Tree)
    requires OneShort(ctx, t)
    ensures var s := RemoveStep(ctx, t);
      if s.Done? then Balanced(s.tree) else
        && OneShort(s.ctx, s.focus)
        && (BlackDepth(s.ctx) < BlackDepth(ctx)
            || (BlackDepth(s.ctx) == BlackDepth(ctx) && SiblingRed(s.ctx) < SiblingRed(ctx)))
  {
    if !ctx.Top? {
      assert Sibling(ctx).Node?;
      if Col(Sibling(ctx)).Red? {
        LoweredShort(ctx, t);
      } else {
        MendedBalanced(ctx, t);
        if Absorbs(ctx) {
          PlugBalanced(ctx.up, Mended(ctx, t));
        }
      }
    }
  }

  lemma LoweredShort(ctx: Ctx, t: Tree)
    requires OneShort(ctx, t) && !ctx.Top? && Col(Sibling(ctx)).Red?
    ensures OneShort(Lowered(ctx), t)
  {
    var s := Sibling(ctx);
    assert Balanced(s.left) && Balanced(s.right);
    assert Accepts(Lowered(ctx).up, BlackHeight(t) + 1, Red);
  }

  lemma MendedBalanced(ctx: Ctx, t: Tree)
    requires OneShort(ctx, t) && !ctx.Top? && Col(Sibling(ctx)).Black?
    ensures var u := Mended(ctx, t);
      if Absorbs(ctx) then
        Balanced(u) && Accepts(ctx.up, BlackHeight(u), Col(u))
      else OneShort(ctx.up, u)
  {
    var s, n := Sibling(ctx), BlackHeight(t);
    assert s.Node? && Balanced(s.left) && Balanced(s.right);
    assert BlackHeight(s.left) == n == BlackHeight(s.right);
    if Col(s.left).Red? || Col(s.right).Red? {
      RotationMends(ctx, t);
    } else if ctx.color.Red? {
      AcceptsAnyColor(ctx.up, n + 1);
    }
  }

  lemma RotationMends(ctx: Ctx, t: Tree)
    requires Balanced(t) && Col(t).Black? && !ctx.Top? && Legal(ctx.color)
    requires var s := Sibling(ctx);
      && s.Node? && s.color.Black? && Balanced(s.left) && Balanced(s.right)
      && BlackHeight(s.left) == BlackHeight(t) == BlackHeight(s.right)
      && (Col(s.left).Red? || Col(s.right).Red?)
    ensures var u := Mended(ctx, t);
      Balanced(u) && BlackHeight(u) == BlackHeight(t) + 1 + Weight(ctx.color) && Col(u) == ctx.color
  {
    if ctx.InLeft? {
      RotationMendsLeft(ctx, t);
    } else {
      RotationMendsRight(ctx, t);
    }
  }

  lemma RotationMendsLeft(ctx: Ctx, t: Tree)
    requires Balanced(t) && Col(t).Black? && ctx.InLeft? && Legal(ctx.color)
    requires var s := ctx.right;
      && s.Node? && s.color.Black? && Balanced(s.left) && Balanced(s.right)
      && BlackHeight(s.left) == BlackHeight(t) == BlackHeight(s.right)
      && (Col(s.left).Red? || Col(s.right).Red?)
    ensures var u := Mended(ctx, t);
      Balanced(u) && BlackHeight(u) == BlackHeight(t) + 1 + Weight(ctx.color) && Col(u) == ctx.color
  {
    var inner := ctx.right.left;
    if Col(inner).Red? {
      assert Balanced(inner.left) && Balanced(inner.right);
    }
  }

  lemma RotationMendsRight(ctx: Ctx, t: Tree)
    requires Balanced(t) && Col(t).Black? && ctx.InRight? && Legal(ctx.color)
    requires var s := ctx.left;
      && s.Node? && s.color.Black? && Balanced(s.left) && Balanced(s.right)
      && BlackHeight(s.left) == BlackHeight(t) == BlackHeight(s.right)
      && (Col(s.left).Red? || Col(s.right).Red?)
    ensures var u := Mended(ctx, t);
      Balanced(u) && BlackHeight(u) == BlackHeight(t) + 1 + Weight(ctx.color) && Col(u) == ctx.color
  {
    var inner := ctx.left.right;
    if Col(inner).Red? {
      assert Balanced(inner.left) && Balanced(inner.right);
    }
  }

  /** A position that takes a red root also takes a black one. */
  lemma AcceptsAnyColor(ctx: Ctx, n: nat)
    requires Accepts(ctx, n, Red)
    ensures Accepts(ctx, n, Black)
  {
  }

  function RemoveFix(ctx: Ctx, t: Tree): Tree
    requires OneShort(ctx, t)
    decreases BlackDepth(ctx), SiblingRed(ctx)
  {
    RemoveStepBalanced(ctx, t);
    match RemoveStep(ctx, t)
    case Done(t') => t'
    case More(ctx', t') => RemoveFix(ctx', t')
  }

  /** The tree once a hole is filled: a remaining child turns black, a lost red node
      needs nothing, a lost black node is repaired. */
  function Fill(h: Hole): Tree
    requires Balanced(Plug(h.ctx, NodeAt(h)))
  {
    HoleShort(h);
    if h.child.Node? then Plug(h.ctx, Paint(h.child, Black))
    else if h.color.Red? then Plug(h.ctx, Leaf)
    else RemoveFix(h.ctx, Leaf)
  }

  const SPARE := Entry(NIL, 0, ZERO_PAYLOAD)

  /** A node with the hole's colour and child, whatever entry it carried. */
  function NodeAt(h: Hole): Tree { Node(Leaf, SPARE, h.color, h.child) }

  lemma HoleShort(h: Hole)
    requires Balanced(Plug(h.ctx, NodeAt(h)))
    ensures if h.child.Node? then
        h.color.Black? && Balanced(Paint(h.child, Black)) && Accepts(h.ctx, BlackHeight(Paint(h.child, Black)), Black)
      else if h.color.Red? then Accepts(h.ctx, 0, Black)
      else OneShort(h.ctx, Leaf)
  {
    PlugBalanced(h.ctx, NodeAt(h));
    assert BlackHeight(h.child) == 0;
    assert Balanced(h.child);
  }

  /** Removing node `t` at the end of path `ctx`. */
  function Remove(ctx: Ctx, t: Tree): Tree
    requires t.Node? && Balanced(Plug(ctx, t))
  {
    HoleOfBalanced(ctx, t);
    Fill(HoleOf(ctx, t))
  }

  /** Taking the successor's place moves the hole but breaks nothing yet. */
  lemma HoleOfBalanced(ctx: Ctx, t: Tree)
    requires t.Node? && Balanced(Plug(ctx, t))
    ensures Balanced(Plug(HoleOf(ctx, t).ctx, NodeAt(HoleOf(ctx, t))))
  {
    var h := HoleOf(ctx, t);
    PlugBalanced(ctx, t);
    PlugBalanced(h.ctx, NodeAt(h));
    if Internal(t) {
      MinBalanced(InRight(ctx, t.left, MinNode(t.right).e, t.color), t.right);
    }
  }

  lemma {:induction false} MinBalanced(ctx: Ctx, t: Tree)
    requires t.Node? && Balanced(t) && Accepts(ctx, BlackHeight(t), Col(t))
    ensures var m := MinNode(t); Balanced(m) && Accepts(MinCtx(ctx, t), BlackHeight(m), m.color)
    decreases t
  {
    if t.left.Node? {
      MinBalanced(InLeft(ctx, t.e, t.color, t.right), t.left);
    }
  }

  lemma {:induction false} RemoveFixBalanced(ctx: Ctx, t: Tree)
    requires OneShort(ctx, t)
    ensures Balanced(RemoveFix(ctx, t))
    decreases BlackDepth(ctx), SiblingRed(ctx)
  {
    RemoveStepBalanced(ctx, t);
    match RemoveStep(ctx, t)
    case Done(_) =>
    case More(ctx', t') => RemoveFixBalanced(ctx', t');
  }

  /** Removing any node of a balanced tree leaves a balanced tree. */
  lemma RemoveBalanced(ctx: Ctx, t: Tree)
    requires t.Node? && Balanced(Plug(ctx, t))
    ensures Balanced(Remove(ctx, t))
  {
    HoleOfBalanced(ctx, t);
    var h := HoleOf(ctx, t);
    HoleShort(h);
    if h.child.Node? {
      PlugBalanced(h.ctx, Paint(h.child, Black));
    } else if h.color.Red? {
      PlugBalanced(h.ctx, Leaf);
    } else {
      RemoveFixBalanced(h.ctx, Leaf);
    }
  }

  // ----- the root stays black

  lemma {:induction false} RemoveFixRoot(ctx: Ctx, t: Tree)
    requires OneShort(ctx, t) && BlackTop(ctx)
    ensures Col(RemoveFix(ctx, t)).Black?
    decreases BlackDepth(ctx), SiblingRed(ctx)
  {
    RemoveStepBalanced(ctx, t);
    if !ctx.Top? {
      if Col(Sibling(ctx)).Red? {
        assert BlackTop(Lowered(ctx).up);
        RemoveFixRoot(Lowered(ctx), t);
      } else if Absorbs(ctx) {
        PlugBlackTop(ctx.up, Mended(ctx, t));
      } else {
        RemoveFixRoot(ctx.up, Mended(ctx, t));
      }
    }
  }

  lemma {:induction false} MinBlackTop(ctx: Ctx, t: Tree)
    requires t.Node? && !ctx.Top?
    ensures !MinCtx(ctx, t).Top? && (BlackTop(MinCtx(ctx, t)) <==> BlackTop(ctx))
    decreases t
  {
    if t.left.Node? {
      MinBlackTop(InLeft(ctx, t.e, t.color, t.right), t.left);
    }
  }

  /** Removing any node, even the last, keeps the run invariant. */
  lemma RemoveRedBlack(ctx: Ctx, t: Tree)
    requires t.Node? && RedBlack(Plug(ctx, t))
    ensures RedBlack(Remove(ctx, t))
  {
    RemoveBalanced(ctx, t);
    HoleOfBalanced(ctx, t);
    var h := HoleOf(ctx, t);
    HoleShort(h);
    PlugBlackTop(ctx, t);
    if Internal(t) {
      var below := InRight(ctx, t.left, MinNode(t.right).e, t.color);
      MinBlackTop(below, t.right);
    }
    assert BlackTop(h.ctx);
    PlugBlackTop(h.ctx, Paint(h.child, Black));
    if h.child.Leaf? && !h.color.Red? {
      RemoveFixRoot(h.ctx, Leaf);
    }
  }

  // ----- order

  lemma MendedInorder(ctx: Ctx, t: Tree)
    requires !ctx.Top?
    ensures Inorder(Mended(ctx, t)) == Inorder(Join(ctx, t))
  {
    var s, p, c := Sibling(ctx), ctx.e, ctx.color;
    if ctx.InLeft? {
      if s.Node? && Col(s.right).Red? {
        RotationInorder(t, p, s.left, s.e, s.right, Black, c, c, s.color);
        assert Inorder(Paint(s.right, Black)) == Inorder(s.right);
      } else if s.Node? && Col(s.left).Red? {
        var m := s.left;
        RotationInorder(m.left, m.e, m.right, s.e, s.right, m.color, s.color, m.color, Black);
        RotationInorder(t, p, m.left, m.e, Node(m.right, s.e, Black, s.right), Black, c, c, m.color);
      }
    } else {
      if s.Node? && Col(s.left).Red? {
        RotationInorder(s.left, s.e, s.right, p, t, s.color, c, c, Black);
        assert Inorder(Paint(s.left, Black)) == Inorder(s.left);
      } else if s.Node? && Col(s.right).Red? {
        var m := s.right;
        RotationInorder(s.left, s.e, m.left, m.e, m.right, Black, m.color, s.color, m.color);
        RotationInorder(Node(s.left, s.e, Black, m.left), m.e, m.right, p, t, m.color, c, c, Black);
      }
    }
  }

  lemma LoweredInorder(ctx: Ctx, t: Tree)
    requires !ctx.Top? && Sibling(ctx).Node?
    ensures Inorder(Plug(Lowered(ctx), t)) == Inorder(Plug(ctx, t))
  {
    var s, r := Sibling(ctx), Lowered(ctx);
    assert Plug(r, t) == Plug(ctx.up, Join(r.up, Join(r, t)));
    if ctx.InLeft? {
      RotationInorder(t, ctx.e, s.left, s.e, s.right, Red, Black, ctx.color, s.color);
    } else {
      RotationInorder(s.left, s.e, s.right, ctx.e, t, s.color, ctx.color, Black, Red);
    }
    PlugSameInorder(ctx.up, Join(ctx, t), Join(r.up, Join(r, t)));
  }

  lemma {:induction false} RemoveFixInorder(ctx: Ctx, t: Tree)
    requires OneShort(ctx, t)
    ensures Inorder(RemoveFix(ctx, t)) == Inorder(Plug(ctx, t))
    decreases BlackDepth(ctx), SiblingRed(ctx)
  {
    RemoveStepBalanced(ctx, t);
    if !ctx.Top? {
      if Col(Sibling(ctx)).Red? {
        LoweredInorder(ctx, t);
        RemoveFixInorder(Lowered(ctx), t);
      } else {
        MendedInorder(ctx, t);
        PlugSameInorder(ctx.up, Join(ctx, t), Mended(ctx, t));
        if !Absorbs(ctx) {
          RemoveFixInorder(ctx.up, Mended(ctx, t));
        }
      }
    }
  }

  lemma FillInorder(h: Hole)
    requires Balanced(Plug(h.ctx, NodeAt(h)))
    ensures Inorder(Fill(h)) == Before(h.ctx) + Inorder(h.child) + After(h.ctx)
  {
    HoleShort(h);
    PlugInorder(h.ctx, h.child);
    if h.child.Node? {
      PlugSameInorder(h.ctx, h.child, Paint(h.child, Black));
    } else if !h.color.Red? {
      RemoveFixInorder(h.ctx, Leaf);
    }
  }

  lemma {:induction false} MinInorder(ctx: Ctx, t: Tree)
    requires t.Node?
    ensures var m := MinNode(t);
      && Before(MinCtx(ctx, t)) == Before(ctx)
      && Inorder(t) + After(ctx) == [m.e] + Inorder(m.right) + After(MinCtx(ctx, t))
    decreases t
  {
    if t.left.Node? {
      var down := InLeft(ctx, t.e, t.color, t.right);
      MinInorder(down, t.left);
      Reassociate([], Inorder(t.left), [t.e], Inorder(t.right), After(ctx));
      assert Inorder(t) + After(ctx) == Inorder(t.left) + After(down);
    } else {
      assert [] + [t.e] + Inorder(t.right) == [t.e] + Inorder(t.right);
    }
  }

  lemma HoleInorder(ctx: Ctx, t: Tree)
    requires t.Node?
    ensures var h := HoleOf(ctx, t);
      Before(h.ctx) + Inorder(h.child) + After(h.ctx)
        == (Before(ctx) + Inorder(t.left)) + (Inorder(t.right) + After(ctx))
  {
    if Internal(t) {
      var m, l := MinNode(t.right), Before(ctx) + Inorder(t.left);
      var below := InRight(ctx, t.left, m.e, t.color);
      MinInorder(below, t.right);
      Spread(l + [m.e], Inorder(m.right), After(MinCtx(below, t.right)));
      Spread(l, [m.e], Inorder(m.right) + After(MinCtx(below, t.right)));
      Spread([m.e], Inorder(m.right), After(MinCtx(below, t.right)));
    } else {
      var a, b, c, d := Before(ctx), Inorder(t.left), Inorder(t.right), After(ctx);
      Spread(a, b + c, d);
      Spread(a, b, c + d);
      Spread(b, c, d);
      assert b + c == if t.left.Node? then b else c;
    }
  }

  lemma Spread(a: seq<Entry>, b: seq<Entry>, c: seq<Entry>)
    ensures a + b + c == a + (b + c)
  {
  }

  /** Removing a node takes exactly its own entry out of the sequence. */
  lemma RemoveOrder(ctx: Ctx, t: Tree)
    requires t.Node? && Balanced(Plug(ctx, t))
    ensures Inorder(Plug(ctx, t)) == (Before(ctx) + Inorder(t.left)) + [t.e] + (Inorder(t.right) + After(ctx))
    ensures Inorder(Remove(ctx, t)) == (Before(ctx) + Inorder(t.left)) + (Inorder(t.right) + After(ctx))
  {
    HoleOfBalanced(ctx, t);
    FillInorder(HoleOf(ctx, t));
    HoleInorder(ctx, t);
    PlugInorder(ctx, t);
    Outward(Before(ctx), Inorder(t.left), [t.e], Inorder(t.right), After(ctx));
  }

  lemma Outward(a: seq<Entry>, b: seq<Entry>, c: seq<Entry>, d: seq<Entry>, e: seq<Entry>)
    ensures a + (b + c + d) + e == (a + b) + c + (d + e)
  {
  }
}
