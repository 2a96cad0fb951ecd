/** Each way a repair rewrites node headers, against the repair of the tree it stands for:
    one round of insertion repair recolours, or rotates once or twice; one round of removal
    repair lowers a red sibling, mends at a red nephew, or recolours. For each of them the
    lemmas here say that the array then holds exactly the repaired tree, and that no block
    outside that tree was written. */
module Repairs {
  import opened Slots
  import opened Trees
  import opened Links
  import opened Insertion
  import opened Removal
  import opened Paths

  /** `h'` came from `h` by changing blocks of the tree plugged from `ctx` and `t` only. */
  predicate WritesOnly(h: Heap, h': Heap, ctx: Ctx, t: Tree) {
    SameOutside(h.mem, h'.mem, Owned(t) + OwnedCtx(ctx))
  }

  lemma PaintParent(h: Heap, ctx: Ctx, t: Tree, c: Color)
    requires StoresAt(h, ctx, t) && !ctx.Top?
    ensures var h' := SetColor(h, ctx.e.slot, c);
      StoresAt(h', ctx.(color := c), t) && WritesOnly(h, h', ctx, t)
  {
    Up(h, ctx, t);
    SetColorStores(h, ctx.up, Join(ctx, t), c);
    Refocus(SetColor(h, ctx.e.slot, c), ctx.(color := c), t);
  }

  function WithSibling(ctx: Ctx, s: Tree): Ctx
    requires !ctx.Top?
  {
    if ctx.InLeft? then ctx.(right := s) else ctx.(left := s)
  }

  lemma PaintSibling(h: Heap, ctx: Ctx, t: Tree, c: Color)
    requires StoresAt(h, ctx, t) && !ctx.Top?
    ensures var h' := SetColor(h, Root(Sibling(ctx)), c);
      StoresAt(h', WithSibling(ctx, Paint(Sibling(ctx), c)), t) && WritesOnly(h, h', ctx, t)
  {
    var s := Sibling(ctx);
    var across := if ctx.InLeft? then InRight(ctx.up, t, ctx.e, ctx.color) else InLeft(ctx.up, ctx.e, ctx.color, t);
    Up(h, ctx, t);
    SetChildColor(h, across, s, c);
    Refocus(SetColor(h, Root(s), c), WithSibling(ctx, Paint(s, c)), t);
  }

  // ----- insertion

  lemma PaintRoot(h: Heap, ctx: Ctx, t: Tree)
    requires StoresAt(h, ctx, t) && !ctx.Top? && ctx.up.Top?
    ensures var h' := SetColor(h, ctx.e.slot, Black);
      Stores(h', Paint(Join(ctx, t), Black)) && WritesOnly(h, h', ctx, t)
  {
    Up(h, ctx, t);
    SetColorStores(h, Top, Join(ctx, t), Black);
  }

  lemma RecolorStores(h: Heap, ctx: Ctx, t: Tree)
    requires StoresAt(h, ctx, t) && !ctx.Top? && !ctx.up.Top?
    ensures var g := ctx.up;
      var h' := SetColor(SetColor(SetColor(h, ctx.e.slot, Black), Root(Sibling(g)), Black), g.e.slot, Red);
      StoresAt(h', g.up, Recolored(g, ctx, t)) && WritesOnly(h, h', ctx, t)
  {
    var g, p := ctx.up, Paint(Join(ctx, t), Black);
    ChildrenBlackened(h, ctx, t);
    SetColorStores(SetColor(SetColor(h, ctx.e.slot, Black), Root(Sibling(g)), Black), g.up,
                   Join(WithSibling(g, Paint(Sibling(g), Black)), p), Red);
  }

  /** Parent and uncle painted black, seen from the grandparent. */
  lemma ChildrenBlackened(h: Heap, ctx: Ctx, t: Tree)
    requires StoresAt(h, ctx, t) && !ctx.Top? && !ctx.up.Top?
    ensures var g, p := ctx.up, Paint(Join(ctx, t), Black);
      var h' := SetColor(SetColor(h, ctx.e.slot, Black), Root(Sibling(g)), Black);
      StoresAt(h', g.up, Join(WithSibling(g, Paint(Sibling(g), Black)), p)) && WritesOnly(h, h', ctx, t)
  {
    var g, p := ctx.up, Paint(Join(ctx, t), Black);
    PaintParent(h, ctx, t, Black);
    var h1 := SetColor(h, ctx.e.slot, Black);
    Up(h1, ctx.(color := Black), t);
    PaintSibling(h1, g, p, Black);
    Up(SetColor(h1, Root(Sibling(g)), Black), WithSibling(g, Paint(Sibling(g), Black)), p);
  }

  /** An outer grandchild: one rotation of the grandparent, then exchange the two colours. */
  lemma OuterStores(h: Heap, ctx: Ctx, t: Tree)
    requires StoresAt(h, ctx, t) && t.Node? && !ctx.Top? && !ctx.up.Top? && ctx.InLeft? == ctx.up.InLeft?
    ensures var g := ctx.up;
      var h1 := if g.InLeft? then RotateRight(h, g.e.slot) else RotateLeft(h, g.e.slot);
      var h' := SetColor(SetColor(h1, g.e.slot, ctx.color), ctx.e.slot, g.color);
      StoresAt(h', g.up, Rotated(g, ctx, t)) && WritesOnly(h, h', ctx, t)
  {
    var g, p := ctx.up, Join(ctx, t);
    Up(h, ctx, t);
    Up(h, g, p);
    if g.InLeft? {
      RotateRightStores(h, g.up, Join(g, p));
      PaintTwo(RotateRight(h, g.e.slot), g.up, Node(t, ctx.e, ctx.color, Node(ctx.right, g.e, g.color, g.right)), false,
               ctx.color, g.color);
    } else {
      RotateLeftStores(h, g.up, Join(g, p));
      PaintTwo(RotateLeft(h, g.e.slot), g.up, Node(Node(g.left, g.e, g.color, ctx.left), ctx.e, ctx.color, t), true,
               ctx.color, g.color);
    }
  }

  /** Painting a child and then the node itself. */
  lemma PaintTwo(h: Heap, ctx: Ctx, t: Tree, left: bool, c: Color, top: Color)
    requires StoresAt(h, ctx, t) && t.Node?
    ensures var child := if left then t.left else t.right;
      var h' := SetColor(SetColor(h, Root(child), c), t.e.slot, top);
      && StoresAt(h', ctx, if left then Node(Paint(t.left, c), t.e, top, t.right)
                           else Node(t.left, t.e, top, Paint(t.right, c)))
      && SameOutside(h.mem, h'.mem, Owned(t) + OwnedCtx(ctx))
  {
    if left {
      SetChildColor(h, InLeft(ctx, t.e, t.color, t.right), t.left, c);
      SetColorStores(SetColor(h, Root(t.left), c), ctx, Node(Paint(t.left, c), t.e, t.color, t.right), top);
    } else {
      SetChildColor(h, InRight(ctx, t.left, t.e, t.color), t.right, c);
      SetColorStores(SetColor(h, Root(t.right), c), ctx, Node(t.left, t.e, t.color, Paint(t.right, c)), top);
    }
  }

  /** An inner grandchild: the fused double rotation, which writes the colours too. */
  lemma InnerStores(h: Heap, ctx: Ctx, t: Tree)
    requires StoresAt(h, ctx, t) && t.Node? && !ctx.Top? && !ctx.up.Top? && ctx.InLeft? != ctx.up.InLeft?
    ensures var g := ctx.up;
      var h' := RotateDouble(h, g.e.slot, g.InLeft?, g.color, if g.InLeft? then ctx.color else Red,
                             if g.InLeft? then Red else ctx.color);
      StoresAt(h', g.up, Rotated(g, ctx, t)) && WritesOnly(h, h', ctx, t)
  {
    var g, p := ctx.up, Join(ctx, t);
    Up(h, ctx, t);
    Up(h, g, p);
    RotateDoubleStores(h, g.up, Join(g, p), g.InLeft?, g.color, if g.InLeft? then ctx.color else Red,
                       if g.InLeft? then Red else ctx.color);
  }

  /** The rotation that the sides of `t` and its parent select. */
  function InsertRotate(h: Heap, i: Index, p: Index, g: Index, parentIsLeft: bool, pc: Color, gc: Color): Heap {
    var currentIsLeft := At(h.mem, p).left == i;
    if parentIsLeft != currentIsLeft then
      RotateDouble(h, g, parentIsLeft, gc, if parentIsLeft then pc else Red, if parentIsLeft then Red else pc)
    else SetColor(SetColor(if parentIsLeft then RotateRight(h, g) else RotateLeft(h, g), g, pc), p, gc)
  }

  lemma InsertRotateStores(h: Heap, ctx: Ctx, t: Tree)
    requires StoresAt(h, ctx, t) && t.Node? && !ctx.Top? && !ctx.up.Top?
    ensures var g := ctx.up;
      var h' := InsertRotate(h, t.e.slot, ctx.e.slot, g.e.slot, g.InLeft?, ctx.color, g.color);
      Stores(h', Plug(g.up, Rotated(g, ctx, t))) && WritesOnly(h, h', ctx, t)
  {
    var g := ctx.up;
    Neighbours(h, ctx, t);
    if ctx.InLeft? == g.InLeft? {
      OuterStores(h, ctx, t);
    } else {
      InnerStores(h, ctx, t);
    }
    PlugStores(InsertRotate(h, t.e.slot, ctx.e.slot, g.e.slot, g.InLeft?, ctx.color, g.color), g.up,
               Rotated(g, ctx, t));
  }

  lemma FamilyBounded(h: Heap, ctx: Ctx, t: Tree)
    requires StoresAt(h, ctx, t) && t.Node? && !ctx.Top?
    ensures Bounded(h.mem, t.e.slot) && Bounded(h.mem, ctx.e.slot)
    ensures h.mem[ctx.e.slot] == CtxHeader(ctx, t.e.slot) && h.mem[t.e.slot] == Header(t, ctx.e.slot)
    ensures Reads(h.mem, Sibling(ctx)) && (h.mem[ctx.e.slot].left == t.e.slot <==> ctx.InLeft?)
    ensures !ctx.up.Top? ==>
      && Bounded(h.mem, ctx.up.e.slot) && h.mem[ctx.up.e.slot] == CtxHeader(ctx.up, ctx.e.slot)
      && Reads(h.mem, Sibling(ctx.up)) && (h.mem[ctx.up.e.slot].left == ctx.e.slot <==> ctx.up.InLeft?)
  {
    Neighbours(h, ctx, t);
    Up(h, ctx, t);
    Neighbours(h, ctx.up, Join(ctx, t));
    if !ctx.up.Top? {
      Up(h, ctx.up, Join(ctx, t));
      Neighbours(h, ctx.up.up, Join(ctx.up, Join(ctx, t)));
    }
  }

  // ----- removal

  lemma LowerStores(h: Heap, ctx: Ctx, t: Tree)
    requires StoresAt(h, ctx, t) && !ctx.Top? && Sibling(ctx).Node?
    ensures var s := Sibling(ctx);
      var h1 := if ctx.InLeft? then RotateLeft(h, ctx.e.slot) else RotateRight(h, ctx.e.slot);
      var h' := SetColor(SetColor(h1, ctx.e.slot, Red), s.e.slot, Black);
      StoresAt(h', Lowered(ctx), t) && WritesOnly(h, h', ctx, t)
  {
    var s, low := Sibling(ctx), Lowered(ctx);
    LowerRotates(h, ctx, t);
    var h1 := if ctx.InLeft? then RotateLeft(h, ctx.e.slot) else RotateRight(h, ctx.e.slot);
    var h' := SetColor(SetColor(h1, ctx.e.slot, Red), s.e.slot, Black);
    Refocus(h', low.up, Join(low, t));
    Refocus(h', low, t);
  }

  /** The same, seen from above the sibling. */
  lemma LowerRotates(h: Heap, ctx: Ctx, t: Tree)
    requires StoresAt(h, ctx, t) && !ctx.Top? && Sibling(ctx).Node?
    ensures var s := Sibling(ctx);
      var h1 := if ctx.InLeft? then RotateLeft(h, ctx.e.slot) else RotateRight(h, ctx.e.slot);
      var h' := SetColor(SetColor(h1, ctx.e.slot, Red), s.e.slot, Black);
      StoresAt(h', ctx.up, Join(Lowered(ctx).up, Join(Lowered(ctx), t))) && WritesOnly(h, h', ctx, t)
  {
    var s, up := Sibling(ctx), ctx.up;
    Up(h, ctx, t);
    if ctx.InLeft? {
      RotateLeftStores(h, up, Join(ctx, t));
      PaintTwo(RotateLeft(h, ctx.e.slot), up, Node(Node(t, ctx.e, ctx.color, s.left), s.e, s.color, s.right), true,
               Red, Black);
    } else {
      RotateRightStores(h, up, Join(ctx, t));
      PaintTwo(RotateRight(h, ctx.e.slot), up, Node(s.left, s.e, s.color, Node(s.right, ctx.e, ctx.color, t)), false,
               Red, Black);
    }
  }

  /** The sibling with its outer child painted black. */
  function NephewPainted(ctx: Ctx): Tree
    requires !ctx.Top? && Sibling(ctx).Node?
  {
    var s := Sibling(ctx);
    if ctx.InLeft? then s.(right := Paint(s.right, Black)) else s.(left := Paint(s.left, Black))
  }

  lemma PaintNephew(h: Heap, ctx: Ctx, t: Tree)
    requires StoresAt(h, ctx, t) && !ctx.Top? && Sibling(ctx).Node?
    ensures var nephew := if ctx.InLeft? then Sibling(ctx).right else Sibling(ctx).left;
      var h' := SetColor(h, Root(nephew), Black);
      StoresAt(h', WithSibling(ctx, NephewPainted(ctx)), t) && WritesOnly(h, h', ctx, t)
  {
    var s := Sibling(ctx);
    var nephew := if ctx.InLeft? then s.right else s.left;
    var across := if ctx.InLeft? then InRight(ctx.up, t, ctx.e, ctx.color) else InLeft(ctx.up, ctx.e, ctx.color, t);
    Up(h, ctx, t);
    Refocus(h, across, s);
    var above := if ctx.InLeft? then InRight(across, s.left, s.e, s.color) else InLeft(across, s.e, s.color, s.right);
    SetChildColor(h, above, nephew, Black);
    var h' := SetColor(h, Root(nephew), Black);
    Refocus(h', across, NephewPainted(ctx));
    Refocus(h', WithSibling(ctx, NephewPainted(ctx)), t);
  }

  /** A red outer nephew: recolour three nodes, then one rotation of the parent. */
  lemma OuterNephewStores(h: Heap, ctx: Ctx, t: Tree)
    requires StoresAt(h, ctx, t) && !ctx.Top? && Sibling(ctx).Node?
    requires Col(if ctx.InLeft? then Sibling(ctx).right else Sibling(ctx).left).Red?
    ensures var s := Sibling(ctx);
      var nephew := if ctx.InLeft? then s.right else s.left;
      var h1 := SetColor(SetColor(SetColor(h, Root(nephew), Black), ctx.e.slot, Black), s.e.slot, ctx.color);
      var h' := if ctx.InLeft? then RotateLeft(h1, ctx.e.slot) else RotateRight(h1, ctx.e.slot);
      StoresAt(h', ctx.up, Mended(ctx, t)) && WritesOnly(h, h', ctx, t)
  {
    OuterNephewPainted(h, ctx, t);
    if ctx.InLeft? {
      var h1 := SetColor(SetColor(SetColor(h, Root(Sibling(ctx).right), Black), ctx.e.slot, Black), Root(Sibling(ctx)),
                         ctx.color);
      RotateLeftStores(h1, ctx.up, OuterPainted(ctx, t));
    } else {
      var h1 := SetColor(SetColor(SetColor(h, Root(Sibling(ctx).left), Black), ctx.e.slot, Black), Root(Sibling(ctx)),
                         ctx.color);
      RotateRightStores(h1, ctx.up, OuterPainted(ctx, t));
    }
  }

  /** The subtree to be rotated, its three nodes recoloured. */
  function OuterPainted(ctx: Ctx, t: Tree): Tree
    requires !ctx.Top? && Sibling(ctx).Node?
  {
    var s := Paint(NephewPainted(ctx), ctx.color);
    if ctx.InLeft? then Node(t, ctx.e, Black, s) else Node(s, ctx.e, Black, t)
  }

  lemma OuterNephewPainted(h: Heap, ctx: Ctx, t: Tree)
    requires StoresAt(h, ctx, t) && !ctx.Top? && Sibling(ctx).Node?
    ensures var s := Sibling(ctx);
      var nephew := if ctx.InLeft? then s.right else s.left;
      var h' := SetColor(SetColor(SetColor(h, Root(nephew), Black), ctx.e.slot, Black), Root(s), ctx.color);
      StoresAt(h', ctx.up, OuterPainted(ctx, t)) && WritesOnly(h, h', ctx, t)
  {
    var s1, c := NephewPainted(ctx), ctx.color;
    PaintNephew(h, ctx, t);
    var h1 := SetColor(h, Root(if ctx.InLeft? then Sibling(ctx).right else Sibling(ctx).left), Black);
    var ctx1 := WithSibling(ctx, s1);
    PaintParent(h1, ctx1, t, Black);
    var h2, ctx2 := SetColor(h1, ctx.e.slot, Black), ctx1.(color := Black);
    PaintSibling(h2, ctx2, t, c);
    Up(SetColor(h2, s1.e.slot, c), WithSibling(ctx2, Paint(s1, c)), t);
  }

  /** A red inner nephew: the fused double rotation. */
  lemma InnerNephewStores(h: Heap, ctx: Ctx, t: Tree)
    requires StoresAt(h, ctx, t) && !ctx.Top? && Sibling(ctx).Node?
    requires !Col(if ctx.InLeft? then Sibling(ctx).right else Sibling(ctx).left).Red?
    requires Col(if ctx.InLeft? then Sibling(ctx).left else Sibling(ctx).right).Red?
    ensures var h' := RotateDouble(h, ctx.e.slot, !ctx.InLeft?, ctx.color, Black, Black);
      StoresAt(h', ctx.up, Mended(ctx, t)) && WritesOnly(h, h', ctx, t)
  {
    Up(h, ctx, t);
    RotateDoubleStores(h, ctx.up, Join(ctx, t), !ctx.InLeft?, ctx.color, Black, Black);
  }

  /** No red nephew: the sibling turns red, and the parent black. */
  lemma SiblingStores(h: Heap, ctx: Ctx, t: Tree)
    requires StoresAt(h, ctx, t) && !ctx.Top? && Sibling(ctx).Node?
    requires !Col(Sibling(ctx).left).Red? && !Col(Sibling(ctx).right).Red?
    ensures var h1 := SetColor(h, Root(Sibling(ctx)), Red);
      var h' := if ctx.color.Black? then h1 else SetColor(h1, ctx.e.slot, Black);
      StoresAt(h', ctx.up, Mended(ctx, t)) && WritesOnly(h, h', ctx, t)
  {
    PaintSibling(h, ctx, t, Red);
    var h1, ctx1 := SetColor(h, Root(Sibling(ctx)), Red), WithSibling(ctx, Paint(Sibling(ctx), Red));
    if !ctx.color.Black? {
      PaintParent(h1, ctx1, t, Black);
      Up(SetColor(h1, ctx.e.slot, Black), ctx1.(color := Black), t);
    } else {
      Up(h1, ctx1, t);
    }
  }

  /** The rotation a red nephew calls for, the outer one first. */
  function MendRotate(h: Heap, p: Index, s: Index, siblingIsLeft: bool, pc: Color): Heap {
    var outer := if siblingIsLeft then At(h.mem, s).left else At(h.mem, s).right;
    if At(h.mem, outer).color.Red? then
      var h1 := SetColor(SetColor(SetColor(h, outer, Black), p, Black), s, pc);
      if siblingIsLeft then RotateRight(h1, p) else RotateLeft(h1, p)
    else RotateDouble(h, p, siblingIsLeft, pc, Black, Black)
  }

  lemma MendRotateStores(h: Heap, ctx: Ctx, t: Tree)
    requires StoresAt(h, ctx, t) && !ctx.Top? && Sibling(ctx).Node?
    requires Col(Sibling(ctx).left).Red? || Col(Sibling(ctx).right).Red?
    ensures var h' := MendRotate(h, ctx.e.slot, Sibling(ctx).e.slot, ctx.InRight?, ctx.color);
      Stores(h', Plug(ctx.up, Mended(ctx, t))) && WritesOnly(h, h', ctx, t)
  {
    var s := Sibling(ctx);
    assert Holds(h.mem, s, ctx.e.slot) && Holds(h.mem, s.left, s.e.slot) && Holds(h.mem, s.right, s.e.slot);
    if Col(if ctx.InLeft? then s.right else s.left).Red? {
      OuterNephewStores(h, ctx, t);
    } else {
      InnerNephewStores(h, ctx, t);
    }
    PlugStores(MendRotate(h, ctx.e.slot, s.e.slot, ctx.InRight?, ctx.color), ctx.up, Mended(ctx, t));
  }

  /** Without a red nephew: done when the parent was red, one level up otherwise. */
  lemma RecolorMends(h: Heap, ctx: Ctx, t: Tree)
    requires StoresAt(h, ctx, t) && !ctx.Top? && Sibling(ctx).Node? && !Col(Sibling(ctx)).Red?
    requires !Col(Sibling(ctx).left).Red? && !Col(Sibling(ctx).right).Red?
    ensures var h1, s := SetColor(h, Root(Sibling(ctx)), Red), RemoveStep(ctx, t);
      if ctx.color.Black? then
        s == More(ctx.up, Mended(ctx, t)) && StoresAt(h1, s.ctx, s.focus) && WritesOnly(h, h1, ctx, t)
      else
        && s.Done? && Stores(SetColor(h1, ctx.e.slot, Black), s.tree)
        && WritesOnly(h, SetColor(h1, ctx.e.slot, Black), ctx, t)
  {
    SiblingStores(h, ctx, t);
    PlugStores(SetColor(SetColor(h, Root(Sibling(ctx)), Red), ctx.e.slot, Black), ctx.up, Mended(ctx, t));
  }

  /** Repair at a black sibling: the rotation when a nephew is red, recolouring otherwise. */
  function Mend(h: Heap, p: Index, s: Index, siblingIsLeft: bool, pc: Color): Heap {
    var h1 := SetColor(h, s, Red);
    if At(h.mem, At(h.mem, s).left).color.Red? || At(h.mem, At(h.mem, s).right).color.Red? then
      MendRotate(h, p, s, siblingIsLeft, pc)
    else if pc.Black? then h1 else SetColor(h1, p, Black)
  }

  /** The array is then the tree a round of repair gives. */
  lemma MendStores(h: Heap, ctx: Ctx, t: Tree)
    requires StoresAt(h, ctx, t) && !ctx.Top? && Sibling(ctx).Node? && !Col(Sibling(ctx)).Red?
    ensures var s, h' := RemoveStep(ctx, t), Mend(h, ctx.e.slot, Sibling(ctx).e.slot, ctx.InRight?, ctx.color);
      && (if s.Done? then Stores(h', s.tree)
          else s.ctx == ctx.up && Root(s.focus) == ctx.e.slot && StoresAt(h', s.ctx, s.focus))
      && (s.Done? <==> Col(Sibling(ctx).left).Red? || Col(Sibling(ctx).right).Red? || !ctx.color.Black?)
      && WritesOnly(h, h', ctx, t)
  {
    ShortPosition(h, ctx, t);
    if Col(Sibling(ctx).left).Red? || Col(Sibling(ctx).right).Red? {
      MendRotateStores(h, ctx, t);
    } else {
      RecolorMends(h, ctx, t);
    }
  }

  /** Where there is a sibling, the parent's left link tells on which side `t` is,
      even when `t` is empty. */
  lemma ShortPosition(h: Heap, ctx: Ctx, t: Tree)
    requires StoresAt(h, ctx, t) && (!ctx.Top? ==> Sibling(ctx).Node?)
    ensures h.root == Root(t) <==> ctx.Top?
    ensures !ctx.Top? ==>
      && Sibling(ctx).Node? && Bounded(h.mem, ctx.e.slot) && h.mem[ctx.e.slot] == CtxHeader(ctx, Root(t))
      && (h.mem[ctx.e.slot].left == Root(t) <==> ctx.InLeft?)
      && Bounded(h.mem, Sibling(ctx).e.slot) && Reads(h.mem, Sibling(ctx))
      && NephewRead(h.mem, Sibling(ctx).left) && NephewRead(h.mem, Sibling(ctx).right)
  {
    if !ctx.Top? {
      var s := Sibling(ctx);
      RootThroughOwned(ctx, Root(t));
      CtxBounds(h.mem, ctx, Root(t));
      HoldsBounded(h.mem, t, ctx.e.slot);
      HoldsBounded(h.mem, s, ctx.e.slot);
      HoldsBounded(h.mem, s.left, s.e.slot);
      HoldsBounded(h.mem, s.right, s.e.slot);
      assert t.Node? ==> Root(t) in Owned(t);
      assert s.e.slot in Owned(s);
    }
  }
}
