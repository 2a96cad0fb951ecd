/** Payload tags: inserting with one against tagging afterwards,
    and nodes that stay put. */
module Tagging {
  import opened Slots
  import opened Trees
  import opened Links
  import opened Positions
  import opened Insertion
  import opened Caching

  function Tag(e: Entry, slot: Index, tag: nat): Entry {
    if e.slot == slot then e.(payloadType := tag) else e
  }

  function TagTree(t: Tree, slot: Index, tag: nat): Tree {
    if t.Leaf? then Leaf
    else Node(TagTree(t.left, slot, tag), Tag(t.e, slot, tag), t.color, TagTree(t.right, slot, tag))
  }

  function TagCtx(ctx: Ctx, slot: Index, tag: nat): Ctx {
    match ctx
    case Top => Top
    case InLeft(up, e, c, r) => InLeft(TagCtx(up, slot, tag), Tag(e, slot, tag), c, TagTree(r, slot, tag))
    case InRight(up, l, e, c) => InRight(TagCtx(up, slot, tag), TagTree(l, slot, tag), Tag(e, slot, tag), c)
  }

  lemma {:induction false} TagUnowned(t: Tree, slot: Index, tag: nat)
    requires slot !in Owned(t)
    ensures TagTree(t, slot, tag) == t
  {
    if t.Node? {
      TagUnowned(t.left, slot, tag);
      TagUnowned(t.right, slot, tag);
    }
  }

  lemma {:induction false} TagCtxUnowned(ctx: Ctx, slot: Index, tag: nat)
    requires slot !in OwnedCtx(ctx)
    ensures TagCtx(ctx, slot, tag) == ctx
  {
    if !ctx.Top? {
      TagCtxUnowned(ctx.up, slot, tag);
      TagUnowned(Sibling(ctx), slot, tag);
    }
  }

  lemma {:induction false} TagPlug(ctx: Ctx, t: Tree, slot: Index, tag: nat)
    ensures TagTree(Plug(ctx, t), slot, tag) == Plug(TagCtx(ctx, slot, tag), TagTree(t, slot, tag))
    decreases ctx
  {
    if !ctx.Top? {
      TagPlug(ctx.up, Join(ctx, t), slot, tag);
    }
  }

  /** Repair never looks at tags. */
  lemma {:induction false} TagInsertFix(ctx: Ctx, t: Tree, slot: Index, tag: nat)
    requires t.Node?
    ensures InsertFix(TagCtx(ctx, slot, tag), TagTree(t, slot, tag)) == TagTree(InsertFix(ctx, t), slot, tag)
    decreases ctx
  {
    if ctx.Top? {
    } else if ctx.color.Black? {
      TagPlug(ctx, t, slot, tag);
    } else if ctx.up.Top? {
    } else if Col(Sibling(ctx.up)).Red? {
      TagInsertFix(ctx.up.up, Recolored(ctx.up, ctx, t), slot, tag);
    } else {
      TagPlug(ctx.up.up, Rotated(ctx.up, ctx, t), slot, tag);
    }
  }

  /** Whatever node is cached, tagged insertion gives the untagged one's tree with that node
      tagged, and the same cache. */
  lemma TaggedInsert(t: Tree, max: Index, e: Entry, tag: nat)
    requires e.slot !in Owned(t)
    ensures InsertCached(t, max, e.(payloadType := tag)) == TagTree(InsertCached(t, max, e), e.slot, tag)
    ensures NextMax(t, max, e.(payloadType := tag)) == NextMax(t, max, e)
  {
    if t.Node? {
      var d := Landing(t, max, e.Key());
      LandingPlug(t, max, e.Key());
      PlugOwned(d, Leaf);
      TagCtxUnowned(d, e.slot, tag);
      TagInsertFix(d, NewLeaf(e, Red), e.slot, tag);
    }
  }

  lemma {:induction false} TagHolds(m: Mem, m': Mem, t: Tree, parent: Index, slot: Index, tag: nat)
    requires Holds(m, t, parent) && |m'| == |m|
    requires forall i: Index :: i in Owned(t) && i < |m| ==>
      m'[i] == if i == slot then m[i].(payloadType := tag) else m[i]
    ensures Holds(m', TagTree(t, slot, tag), parent)
  {
    if t.Node? {
      TagHolds(m, m', t.left, t.e.slot, slot, tag);
      TagHolds(m, m', t.right, t.e.slot, slot, tag);
    }
  }

  lemma {:induction false} TagOwned(t: Tree, slot: Index, tag: nat)
    ensures Owned(TagTree(t, slot, tag)) == Owned(t) && (Distinct(TagTree(t, slot, tag)) <==> Distinct(t))
  {
    if t.Node? {
      TagOwned(t.left, slot, tag);
      TagOwned(t.right, slot, tag);
    }
  }

  /** The arrays agree, byte for byte of every block: tagging at insertion writes what
      untagged insertion followed by tagging the new node does. */
  lemma TaggedInsertSameArray(tagged: Heap, plain: Heap, t: Tree, max: Index, e: Entry, tag: nat)
    requires e.slot !in Owned(t)
    requires Stores(tagged, InsertCached(t, max, e.(payloadType := tag))) && Stores(plain, InsertCached(t, max, e))
    requires SameOutside(plain.mem, tagged.mem, Owned(InsertCached(t, max, e)))
    ensures tagged == plain.(mem := Put(plain.mem, e.slot, At(plain.mem, e.slot).(payloadType := tag)))
  {
    var u := InsertCached(t, max, e);
    var after := plain.(mem := Put(plain.mem, e.slot, At(plain.mem, e.slot).(payloadType := tag)));
    TaggedInsert(t, max, e, tag);
    TagHolds(plain.mem, after.mem, u, NIL, e.slot, tag);
    TagOwned(u, e.slot, tag);
    CachedOwned(t, max, e);
    StoresUnique(tagged, after, TagTree(u, e.slot, tag));
  }

  // ----- nodes that stay

  /** Both arrays hold this entry's payload and tag in the same block. */
  predicate Stays(m: Mem, m': Mem, x: Entry) { HoldsEntry(m, x) && HoldsEntry(m', x) }

  /** Whatever an insertion relinks, and wherever a cached node sends the new leaf, every old
      entry keeps its block, payload and tag. */
  lemma InsertionMovesNobody(m: Mem, m': Mem, t: Tree, max: Index, e: Entry)
    requires Holds(m, t, NIL) && Holds(m', InsertCached(t, max, e), NIL)
    ensures forall x :: x in Inorder(t) ==> Stays(m, m', x)
  {
    var t' := InsertCached(t, max, e);
    HoldsEntries(m, t, NIL);
    HoldsEntries(m', t', NIL);
    if t.Node? {
      CachedInorder(t, max, e);
      var d := Landing(t, max, e.Key());
      assert forall x :: x in Before(d) + After(d) ==> x in Before(d) + [e] + After(d);
    }
  }

  /** Likewise a removal, successor transplant included, for every entry but the removed one. */
  lemma RemovalMovesNobody(m: Mem, m': Mem, t: Tree, t': Tree, slot: Index)
    requires Holds(m, t, NIL) && Holds(m', t', NIL) && Inorder(t') == Without(Inorder(t), slot)
    ensures forall x :: x in Inorder(t) && x.slot != slot ==> Stays(m, m', x)
  {
    HoldsEntries(m, t, NIL);
    HoldsEntries(m', t', NIL);
    WithoutContains(Inorder(t), slot);
  }
}
