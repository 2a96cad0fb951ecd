/** What left-leaning insertion does to the blocks of the array: leaning a red right link
    over, unstacking two red left links and flipping colours, hanging the new leaf, and
    what the cached maximum relies on. For each repair the array then holds exactly the
    repaired tree. */
module LeaningBlocks {
  import opened Slots
  import opened Trees
  import opened Links
  import Caching
  import opened LeftLeaning
  import opened Paths
  import opened Positions
  import opened Repairs
  import opened Splicing

  /** The new parent of a rotated node takes over its colour. */
  function ColorUp(h: Heap, i: Index): Heap {
    SetColor(SetColor(h, At(h.mem, i).parent, At(h.mem, i).color), i, Red)
  }

  lemma LeanStores(h: Heap, ctx: Ctx, t: Tree)
    requires StoresAt(h, ctx, t) && t.Node? && Col(t.right).Red? && Col(t.left).Black?
    ensures var h1 := RotateLeft(h, t.e.slot);
      && t.e.slot < |h1.mem| && h1.mem[t.e.slot].parent == t.right.e.slot && t.right.e.slot < |h1.mem|
      && StoresAt(ColorUp(h1, t.e.slot), ctx, Lean(t)) && WritesOnly(h, ColorUp(h1, t.e.slot), ctx, t)
  {
    var r, h1 := t.right, RotateLeft(h, t.e.slot);
    var low := Node(t.left, t.e, t.color, r.left);
    RotateLeftStores(h, ctx, t);
    ColorUpStores(h1, InLeft(ctx, r.e, r.color, r.right), low);
  }

  lemma UnstackStores(h: Heap, ctx: Ctx, t: Tree)
    requires StoresAt(h, ctx, t) && t.Node? && Col(t.left).Red? && Col(LeftOf(t.left)).Red?
    ensures var h1 := RotateRight(h, t.e.slot);
      && t.e.slot < |h1.mem| && h1.mem[t.e.slot].parent == t.left.e.slot && t.left.e.slot < |h1.mem|
      && StoresAt(ColorUp(h1, t.e.slot), ctx, Unstack(t)) && WritesOnly(h, ColorUp(h1, t.e.slot), ctx, t)
  {
    var l, h1 := t.left, RotateRight(h, t.e.slot);
    var low := Node(l.right, t.e, t.color, t.right);
    RotateRightStores(h, ctx, t);
    ColorUpStores(h1, InRight(ctx, l.left, l.e, l.color), low);
  }

  lemma ColorUpStores(h: Heap, ctx: Ctx, t: Tree)
    requires t.Node? && !ctx.Top? && StoresAt(h, ctx.up, Join(ctx, t))
    ensures t.e.slot < |h.mem| && ctx.e.slot < |h.mem| && h.mem[t.e.slot].parent == ctx.e.slot
    ensures var h' := ColorUp(h, t.e.slot);
      StoresAt(h', ctx.up, Join(ctx.(color := t.color), Paint(t, Red))) && WritesOnly(h, h', ctx.up, Join(ctx, t))
  {
    Refocus(h, ctx, t);
    Neighbours(h, ctx, t);
    PaintParent(h, ctx, t, t.color);
    var h1 := SetColor(h, ctx.e.slot, t.color);
    SetColorStores(h1, ctx.(color := t.color), t, Red);
    Refocus(SetColor(h1, t.e.slot, Red), ctx.(color := t.color), Paint(t, Red));
  }

  function ToggleColor(h: Heap, i: Index): Heap {
    SetColor(h, i, Toggle(At(h.mem, i).color))
  }

  function ColorFlip(h: Heap, i: Index): Heap {
    ToggleColor(ToggleColor(ToggleColor(h, At(h.mem, i).left), At(h.mem, i).right), i)
  }

  lemma ColorFlipStores(h: Heap, ctx: Ctx, t: Tree)
    requires StoresAt(h, ctx, t) && t.Node? && t.left.Node? && t.right.Node?
    ensures var h' := ColorFlip(h, t.e.slot);
      && StoresAt(h', ctx, Node(Flip(t.left), t.e, Toggle(t.color), Flip(t.right)))
      && WritesOnly(h, h', ctx, t)
  {
    FlipLeft(h, ctx, t);
    var h1, t1 := ToggleColor(h, t.left.e.slot), t.(left := Flip(t.left));
    FlipRight(h1, ctx, t1);
    var h2, t2 := ToggleColor(h1, t.right.e.slot), t1.(right := Flip(t.right));
    FlipTop(h2, ctx, t2);
  }

  lemma FlipLeft(h: Heap, ctx: Ctx, t: Tree)
    requires StoresAt(h, ctx, t) && t.Node? && t.left.Node?
    ensures At(h.mem, t.e.slot).left == t.left.e.slot
    ensures var h' := ToggleColor(h, t.left.e.slot);
      StoresAt(h', ctx, t.(left := Flip(t.left))) && WritesOnly(h, h', ctx, t)
  {
    ChildrenRead(h, ctx, t);
    SetChildColor(h, InLeft(ctx, t.e, t.color, t.right), t.left, Toggle(t.left.color));
  }

  lemma FlipRight(h: Heap, ctx: Ctx, t: Tree)
    requires StoresAt(h, ctx, t) && t.Node? && t.right.Node?
    ensures At(h.mem, t.e.slot).right == t.right.e.slot
    ensures var h' := ToggleColor(h, t.right.e.slot);
      StoresAt(h', ctx, t.(right := Flip(t.right))) && WritesOnly(h, h', ctx, t)
  {
    ChildrenRead(h, ctx, t);
    SetChildColor(h, InRight(ctx, t.left, t.e, t.color), t.right, Toggle(t.right.color));
  }

  lemma FlipTop(h: Heap, ctx: Ctx, t: Tree)
    requires StoresAt(h, ctx, t) && t.Node?
    ensures var h' := ToggleColor(h, t.e.slot);
      StoresAt(h', ctx, t.(color := Toggle(t.color))) && WritesOnly(h, h', ctx, t)
  {
    ChildrenRead(h, ctx, t);
    SetColorStores(h, ctx, t, Toggle(t.color));
  }

  // ----- hanging a finished leaf below a node

  /** Linking a node whose block is already written as a lone red leaf. */
  lemma HangRight(h: Heap, ctx: Ctx, t: Tree, e: Entry)
    requires t.Node? && t.right.Leaf? && StoresAt(h, InRight(ctx, t.left, t.e, t.color), Leaf)
    requires e.slot < |h.mem| && e.slot !in Owned(t) + OwnedCtx(ctx)
    requires h.mem[e.slot] == Slot(NIL, NIL, NIL, Red, e.payloadType, e.value)
    ensures StoresAt(SetRight(SetParent(h, e.slot, t.e.slot), t.e.slot, e.slot),
                     InRight(ctx, t.left, t.e, t.color), Node(Leaf, e, Red, Leaf))
  {
    var below := InRight(ctx, t.left, t.e, t.color);
    LinkLeafStores(h, below, e, Red);
    assert SetRight(SetParent(h, e.slot, t.e.slot), t.e.slot, e.slot).mem
        == WriteLeaf(LinkLeaf(h, below, e.slot), e, t.e.slot, Red).mem;
  }

  lemma HangLeft(h: Heap, ctx: Ctx, t: Tree, e: Entry)
    requires t.Node? && t.left.Leaf? && StoresAt(h, InLeft(ctx, t.e, t.color, t.right), Leaf)
    requires e.slot < |h.mem| && e.slot !in Owned(t) + OwnedCtx(ctx)
    requires h.mem[e.slot] == Slot(NIL, NIL, NIL, Red, e.payloadType, e.value)
    ensures StoresAt(SetParent(SetLeft(h, t.e.slot, e.slot), e.slot, t.e.slot),
                     InLeft(ctx, t.e, t.color, t.right), Node(Leaf, e, Red, Leaf))
  {
    var below := InLeft(ctx, t.e, t.color, t.right);
    LinkLeafStores(h, below, e, Red);
    assert SetParent(SetLeft(h, t.e.slot, e.slot), e.slot, t.e.slot).mem
        == WriteLeaf(LinkLeaf(h, below, e.slot), e, t.e.slot, Red).mem;
  }

  lemma FixUpOwned(t: Tree)
    requires t.Node?
    ensures Owned(Lean(t)) == Owned(t)
    ensures Owned(Unstack(Lean(t))) == Owned(t)
    ensures Owned(FixUp(t)) == Owned(t)
  {
    var u := Lean(t);
    assert Owned(u) == Owned(t) by {
      if u != t {
        RotationOwned(t.left, t.e, t.right.left, t.right.e, t.right.right, Red, t.color, t.color, t.right.color);
      }
    }
    var v := Unstack(u);
    assert Owned(v) == Owned(u) by {
      if v != u {
        RotationOwned(u.left.left, u.left.e, u.left.right, u.e, u.right, u.left.color, u.color, u.color, Red);
      }
    }
    assert Owned(Flip(v.left)) == Owned(v.left) && Owned(Flip(v.right)) == Owned(v.right);
  }

  lemma {:induction false} InsertBelowOwned(t: Tree, e: Entry)
    ensures Owned(InsertBelow(t, e)) == Owned(t) + {e.slot}
  {
    if t.Node? {
      if e.Key() > t.e.Key() {
        InsertBelowOwned(t.right, e);
        FixUpOwned(t.(right := InsertBelow(t.right, e)));
      } else {
        InsertBelowOwned(t.left, e);
        FixUpOwned(t.(left := InsertBelow(t.left, e)));
      }
    }
  }

  lemma GrownOwned(t: Tree, t1: Tree, ctx: Ctx, e: Entry)
    requires t.Node?
    requires t1 == t.(right := InsertBelow(t.right, e)) || t1 == t.(left := InsertBelow(t.left, e))
    ensures Owned(t1) + OwnedCtx(ctx) == Owned(t) + OwnedCtx(ctx) + {e.slot}
  {
    if t1 == t.(right := InsertBelow(t.right, e)) {
      InsertBelowOwned(t.right, e);
      RightGrown(t, InsertBelow(t.right, e), OwnedCtx(ctx), e.slot);
    } else {
      InsertBelowOwned(t.left, e);
      LeftGrown(t, InsertBelow(t.left, e), OwnedCtx(ctx), e.slot);
    }
  }

  lemma RightGrown(t: Tree, r: Tree, above: set<Index>, slot: Index)
    requires t.Node? && Owned(r) == Owned(t.right) + {slot}
    ensures Owned(t.(right := r)) + above == Owned(t) + above + {slot}
  {
  }

  lemma LeftGrown(t: Tree, l: Tree, above: set<Index>, slot: Index)
    requires t.Node? && Owned(l) == Owned(t.left) + {slot}
    ensures Owned(t.(left := l)) + above == Owned(t) + above + {slot}
  {
  }

  // ----- the cached maximum

  /** The same for left-leaning insertion. */
  lemma LeaningMax(t: Tree, e: Entry)
    requires Sorted(Inorder(t))
    ensures MaxSlot(Insert(t, e))
         == if t.Leaf? || MaxNode(t).e.Key() < e.Key() then e.slot else MaxSlot(t)
  {
    InsertOrderKept(t, e);
    MaxIsLast(Insert(t, e));
    if t.Node? {
      MaxIsLast(t);
      InsertSortedLast(Inorder(t), e);
    }
  }

  /** All that left-leaning insertion keeps. */
  lemma LeaningKeeps(t: Tree, e: Entry)
    requires RedBlack(t) && Leaning(t) && Sorted(Inorder(t))
    ensures var t' := Insert(t, e);
      && RedBlack(t') && Leaning(t') && Inorder(t') == InsertSorted(Inorder(t), e) && Sorted(Inorder(t'))
      && MaxSlot(t') == if t.Leaf? || MaxNode(t).e.Key() < e.Key() then e.slot else MaxSlot(t)
  {
    InsertKeeps(t, e);
    InsertOrderKept(t, e);
    LeaningMax(t, e);
  }

  /** From any cached node the new cache is the maximum exactly when the old one was, or when
      the new key is larger than all. Unlike an append, the recursion never misplaces the leaf. */
  lemma LeaningCache(t: Tree, max: Index, e: Entry)
    requires Distinct(t) && Sorted(Inorder(t)) && e.slot !in Owned(t) + {NIL} && NIL !in Owned(t)
    requires t.Leaf? || max == NIL || max in Owned(t)
    ensures Caching.NextMax(t, max, e) == MaxSlot(Insert(t, e)) <==>
      t.Leaf? || max == MaxSlot(t) || (max != NIL && MaxNode(t).e.Key() < e.Key())
  {
    LeaningMax(t, e);
    if t.Node? {
      Caching.FindMax(Top, t);
      if max != NIL { Caching.BelowMax(t, max); }
    }
  }

  /** The block of an old node keeps its payload through an insertion. */
  lemma OldValueKept(m': Mem, t: Tree, t': Tree, e: Entry, i: Index)
    requires i in Owned(t) && Holds(m', t', NIL) && Inorder(t') == InsertSorted(Inorder(t), e)
    ensures i < |m'| && m'[i].value == Find(Top, t, i).t.e.value
  {
    var z, s := Find(Top, t, i), Inorder(t');
    FindPlug(Top, t, i);
    NodeInorder(z.ctx, z.t);
    assert (Before(z.ctx) + Inorder(z.t.left) + [z.t.e])[|Before(z.ctx) + Inorder(z.t.left)|] == z.t.e;
    assert z.t.e in Inorder(t);
    InsertSortedContains(Inorder(t), e);
    var k :| 0 <= k < |s| && s[k] == z.t.e;
    HoldsPayloads(m', t', NIL, k);
  }
}
