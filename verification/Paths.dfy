/** What the links around a node say about its place in the tree: which side of its parent
    it hangs on, whether it is the root, and that everything next to it lies in the array
    and reads back as the tree says. */
module Paths {
  import opened Slots
  import opened Trees
  import opened Links

  /** Focusing on a node's parent, or on its grandparent. */
  lemma Up(h: Heap, ctx: Ctx, t: Tree)
    requires StoresAt(h, ctx, t) && !ctx.Top?
    ensures StoresAt(h, ctx.up, Join(ctx, t)) && Owned(t) + OwnedCtx(ctx) == Owned(Join(ctx, t)) + OwnedCtx(ctx.up)
  {
    Refocus(h, ctx, t);
  }

  /** A subtree's link and colour read back from the array. */
  predicate Reads(m: Mem, t: Tree) {
    (t.Node? ==> Root(t) < |m| && m[Root(t)].left == Root(t.left) && m[Root(t)].right == Root(t.right))
    && At(m, Root(t)).color == Col(t) && (Root(t) == NIL <==> t.Leaf?)
  }

  /** The root link leads to the node itself exactly when it has no parent, and
      never into its subtrees. */
  lemma RootOfPath(h: Heap, ctx: Ctx, t: Tree)
    requires StoresAt(h, ctx, t) && t.Node?
    ensures h.root == t.e.slot <==> ParentOf(ctx) == NIL
    ensures h.root !in Owned(t.left) && h.root !in Owned(t.right)
  {
    if !ctx.Top? {
      RootThroughOwned(ctx, t.e.slot);
      assert ParentOf(ctx) < |h.mem|;
    }
  }

  lemma {:induction false} RootThroughOwned(ctx: Ctx, sub: Index)
    requires !ctx.Top?
    ensures RootThrough(ctx, sub) in OwnedCtx(ctx)
    decreases ctx
  {
    if !ctx.up.Top? {
      RootThroughOwned(ctx.up, ctx.e.slot);
    }
  }

  /** What the links around a stored node say about its position. */
  lemma Neighbours(h: Heap, ctx: Ctx, t: Tree)
    requires StoresAt(h, ctx, t) && t.Node?
    ensures t.e.slot < |h.mem| && h.mem[t.e.slot] == Header(t, ParentOf(ctx))
    ensures h.root == t.e.slot <==> ctx.Top?
    ensures Reads(h.mem, t.left) && Reads(h.mem, t.right)
    ensures !ctx.Top? ==>
      && ctx.e.slot < |h.mem| && h.mem[ctx.e.slot] == CtxHeader(ctx, t.e.slot)
      && (h.mem[ctx.e.slot].left == t.e.slot <==> ctx.InLeft?) && Reads(h.mem, Sibling(ctx))
  {
    RootOfPath(h, ctx, t);
    assert t.e.slot in Owned(t) && Holds(h.mem, t.left, t.e.slot) && Holds(h.mem, t.right, t.e.slot);
    if !ctx.Top? {
      assert Sibling(ctx).Node? ==> Root(Sibling(ctx)) in Owned(Sibling(ctx));
    }
  }

  /** The links that a rotation around `i`, its parent and grandparent follows stay in the array. */
  predicate Bounded(m: Mem, i: Index) {
    i < |m| && InArray(m, m[i].left) && InArray(m, m[i].right) && InArray(m, m[i].parent)
  }

  predicate InArray(m: Mem, i: Index) { i == NIL || i < |m| }

  lemma HoldsBounded(m: Mem, t: Tree, parent: Index)
    requires Holds(m, t, parent) && |m| <= NIL && InArray(m, parent)
    ensures NephewRead(m, t)
    ensures t.Node? ==> Holds(m, t.left, t.e.slot) && Holds(m, t.right, t.e.slot)
  {
    if t.Node? {
      assert Holds(m, t.left, t.e.slot) && Holds(m, t.right, t.e.slot);
    }
  }

  predicate NephewRead(m: Mem, t: Tree) {
    Reads(m, t) && (t.Node? ==> Bounded(m, t.e.slot))
  }

  lemma {:induction false} CtxBounds(m: Mem, ctx: Ctx, sub: Index)
    requires HoldsCtx(m, ctx, sub) && !ctx.Top?
    ensures RootThrough(ctx, sub) < |m|
    ensures InArray(m, ParentOf(ctx.up))
    decreases ctx
  {
    if !ctx.up.Top? {
      CtxBounds(m, ctx.up, ctx.e.slot);
    }
  }

  /** A stored node's links, and what its children read back as. */
  lemma ChildrenRead(h: Heap, ctx: Ctx, t: Tree)
    requires StoresAt(h, ctx, t) && t.Node?
    ensures Bounded(h.mem, t.e.slot) && h.mem[t.e.slot] == Header(t, ParentOf(ctx))
    ensures NephewRead(h.mem, t.left) && NephewRead(h.mem, t.right)
    ensures t.left.Node? ==> Reads(h.mem, t.left.left)
  {
    if !ctx.Top? { CtxBounds(h.mem, ctx, t.e.slot); }
    HoldsBounded(h.mem, t, ParentOf(ctx));
    HoldsBounded(h.mem, t.left, t.e.slot);
    HoldsBounded(h.mem, t.right, t.e.slot);
    if t.left.Node? { HoldsBounded(h.mem, t.left.left, t.left.e.slot); }
  }
}
