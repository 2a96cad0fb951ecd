module Caching {
  // Insertion with a cached maximum that may be stale: where the new leaf goes, and what
  // becomes of the cache.

  import opened Slots
  import opened Trees
  import opened Links
  import opened Insertion
  import opened Positions

  // ----- insertion with any cached node

  /** The cached node invites an append: it is smaller and has no right child. */
  predicate Appends(n: Tree, key: int) { n.Node? && n.right.Leaf? && n.e.Key() < key }

  function RightOf(z: Zipper): Ctx
    requires z.t.Node?
  {
    InRight(z.ctx, z.t.left, z.t.e, z.t.color)
  }

  /** Where the new leaf is linked when `max` is cached. */
  function Landing(t: Tree, max: Index, key: int): Ctx {
    if max in Owned(t) && Appends(Find(Top, t, max).t, key) then RightOf(Find(Top, t, max)) else Descend(Top, t, key)
  }

  /** The insertion the code performs, whatever node is cached. */
  function InsertCached(t: Tree, max: Index, e: Entry): Tree {
    if t.Leaf? then NewLeaf(e, Black) else InsertFix(Landing(t, max, e.Key()), NewLeaf(e, Red))
  }

  /** The cache afterwards: the new node when the cached one was smaller. */
  function NextMax(t: Tree, max: Index, e: Entry): Index {
    if t.Leaf? || (max in Owned(t) && Find(Top, t, max).t.e.Key() < e.Key()) then e.slot else max
  }

  /** Nothing that comes after the place of an append is smaller than the new key. */
  predicate InPlace(t: Tree, max: Index, key: int) {
    max in Owned(t) && Appends(Find(Top, t, max).t, key) ==> AllAtLeast(After(Find(Top, t, max).ctx), key)
  }

  lemma LandingPlug(t: Tree, max: Index, key: int)
    requires t.Node?
    ensures Plug(Landing(t, max, key), Leaf) == t && !Landing(t, max, key).Top?
  {
    if max in Owned(t) && Appends(Find(Top, t, max).t, key) {
      var z := Find(Top, t, max);
      FindPlug(Top, t, max);
      assert Join(RightOf(z), Leaf) == z.t;
    } else {
      DescendPlug(Top, t, key);
      DescendDown(Top, t, key);
    }
  }

  lemma LandingStores(h: Heap, t: Tree, max: Index, key: int)
    requires Stores(h, t) && t.Node?
    ensures var d := Landing(t, max, key); !d.Top? && StoresAt(h, d, Leaf) && OwnedCtx(d) == Owned(t)
  {
    var d := Landing(t, max, key);
    LandingPlug(t, max, key);
    PlugStores(h, d, Leaf);
    PlugOwned(d, Leaf);
  }

  lemma CachedInorder(t: Tree, max: Index, e: Entry)
    requires t.Node?
    ensures var d := Landing(t, max, e.Key());
      Inorder(t) == Before(d) + After(d) && Inorder(InsertCached(t, max, e)) == Before(d) + [e] + After(d)
  {
    var d := Landing(t, max, e.Key());
    LandingPlug(t, max, e.Key());
    PlugInorder(d, Leaf);
    assert Before(d) + [] + After(d) == Before(d) + After(d);
    LinkedInorder(d, e);
  }

  lemma LandingBelow(t: Tree, max: Index, key: int)
    requires t.Node? && Sorted(Inorder(t))
    ensures AllBelow(Before(Landing(t, max, key)), key)
    ensures !(max in Owned(t) && Appends(Find(Top, t, max).t, key)) ==> AllAtLeast(After(Landing(t, max, key)), key)
  {
    if max in Owned(t) && Appends(Find(Top, t, max).t, key) {
      CachedParts(t, max);
      var z := Find(Top, t, max);
      UpToPivot(Before(z.ctx) + Inorder(z.t.left), z.t.e, After(z.ctx));
    } else {
      DescentAround(t, key);
    }
  }

  /** Around a node without a right child. */
  lemma CachedParts(t: Tree, max: Index)
    requires max in Owned(t) && Find(Top, t, max).t.right.Leaf?
    ensures var z := Find(Top, t, max); Inorder(t) == (Before(z.ctx) + Inorder(z.t.left)) + [z.t.e] + After(z.ctx)
  {
    var z := Find(Top, t, max);
    FindPlug(Top, t, max);
    NodeInorder(z.ctx, z.t);
    assert Inorder(z.t.right) + After(z.ctx) == After(z.ctx);
  }

  /** Whatever is cached, the order survives exactly when the new leaf landed in place;
      and then it stands where it belongs. */
  lemma CachedOrder(t: Tree, max: Index, e: Entry)
    requires Sorted(Inorder(t))
    ensures Sorted(Inorder(InsertCached(t, max, e))) <==> InPlace(t, max, e.Key())
    ensures Inorder(InsertCached(t, max, e)) == InsertSorted(Inorder(t), e) <==> InPlace(t, max, e.Key())
  {
    InsertSortedSorted(Inorder(t), e);
    if t.Node? {
      var d := Landing(t, max, e.Key());
      CachedInorder(t, max, e);
      LandingBelow(t, max, e.Key());
      InPlaceBetween(Before(d), After(d), e);
      SortedBetween(Before(d), After(d), e);
    }
  }

  lemma SortedBetween(a: seq<Entry>, b: seq<Entry>, e: Entry)
    requires Sorted(a + b) && AllBelow(a, e.Key())
    ensures Sorted(a + [e] + b) <==> AllAtLeast(b, e.Key())
  {
    var s := a + [e] + b;
    if AllAtLeast(b, e.Key()) {
      InsertSortedSplit(a, b, e);
      InsertSortedSorted(a + b, e);
    } else {
      var k :| 0 <= k < |b| && b[k].Key() < e.Key();
      assert s[|a|] == e && s[|a| + 1 + k] == b[k];
    }
  }

  /** Balance does not depend on where the leaf lands. */
  lemma CachedBalanced(t: Tree, max: Index, e: Entry)
    ensures Balanced(t) ==> Balanced(InsertCached(t, max, e))
    ensures RedBlack(t) ==> RedBlack(InsertCached(t, max, e))
  {
    if t.Node? {
      var d := Landing(t, max, e.Key());
      LandingPlug(t, max, e.Key());
      PlugBalanced(d, Leaf);
      PlugBlackTop(d, Leaf);
      if Balanced(t) {
        InsertFixBalanced(d, NewLeaf(e, Red));
      }
      if RedBlack(t) {
        InsertFixRoot(d, NewLeaf(e, Red));
      }
    }
  }

  // ----- the cache that insertion can work with

  /** The nodes that have a right child. */
  function Rights(t: Tree): set<Index> {
    if t.Leaf? then {} else Rights(t.left) + Rights(t.right) + (if t.right.Node? then {t.e.slot} else {})
  }

  /** Absent, exact, or visibly stale. */
  predicate Usable(t: Tree, max: Index) {
    t.Leaf? || max == NIL || max == MaxSlot(t) || max in Rights(t)
  }

  lemma {:induction false} RightsOwned(t: Tree)
    ensures Rights(t) <= Owned(t)
  {
    if t.Node? {
      RightsOwned(t.left);
      RightsOwned(t.right);
    }
  }

  lemma {:induction false} FindRight(ctx: Ctx, t: Tree, slot: Index)
    requires Distinct(t) && slot in Owned(t)
    ensures slot in Rights(t) <==> Find(ctx, t, slot).t.right.Node?
    decreases t
  {
    RightsOwned(t.left);
    RightsOwned(t.right);
    if t.e.slot != slot {
      if slot in Owned(t.left) {
        FindRight(InLeft(ctx, t.e, t.color, t.right), t.left, slot);
      } else {
        FindRight(InRight(ctx, t.left, t.e, t.color), t.right, slot);
      }
    }
  }

  /** With every key smaller, descent ends exactly to the right of the rightmost node. */
  lemma {:induction false} DescendToMax(ctx: Ctx, t: Tree, key: int)
    requires t.Node? && Distinct(t) && AllBelow(Inorder(t), key)
    ensures MaxSlot(t) in Owned(t) && Find(ctx, t, MaxSlot(t)).t.right.Leaf?
    ensures Descend(ctx, t, key) == RightOf(Find(ctx, t, MaxSlot(t)))
    decreases t
  {
    BelowParts(Inorder(t.left), t.e, Inorder(t.right), key);
    if t.right.Node? {
      DescendToMax(InRight(ctx, t.left, t.e, t.color), t.right, key);
    }
  }

  lemma {:induction false} FindMax(ctx: Ctx, t: Tree)
    requires t.Node? && Distinct(t)
    ensures MaxSlot(t) in Owned(t) && Find(ctx, t, MaxSlot(t)).t == MaxNode(t)
    decreases t
  {
    if t.right.Node? {
      FindMax(InRight(ctx, t.left, t.e, t.color), t.right);
    }
  }

  lemma {:induction false} MaxOwned(t: Tree)
    requires t.Node?
    ensures MaxSlot(t) in Owned(t)
  {
    if t.right.Node? { MaxOwned(t.right); }
  }

  /** With a usable cache, the append and the full descent are the same place. */
  lemma LandingIsDescent(t: Tree, max: Index, key: int)
    requires t.Node? && Distinct(t) && Sorted(Inorder(t)) && Usable(t, max) && NIL !in Owned(t)
    ensures Landing(t, max, key) == Descend(Top, t, key)
  {
    if max in Owned(t) && Appends(Find(Top, t, max).t, key) {
      FindRight(Top, t, max);
      FindMax(Top, t);
      MaxIsLast(t);
      BelowLast(Inorder(t), key);
      DescendToMax(Top, t, key);
    }
  }

  /** A usable cache changes nothing about the insertion. */
  lemma CachedIsPlain(t: Tree, max: Index, e: Entry)
    requires Distinct(t) && Sorted(Inorder(t)) && Usable(t, max) && NIL !in Owned(t)
    ensures InsertCached(t, max, e) == Insert(t, e) && InPlace(t, max, e.Key())
  {
    if t.Node? {
      LandingIsDescent(t, max, e.Key());
      InsertOrder(t, e);
      CachedOrder(t, max, e);
    }
  }

  // ----- what becomes of the cache

  lemma CachedMax(t: Tree, max: Index, e: Entry)
    requires t.Node?
    ensures MaxSlot(InsertCached(t, max, e)) == if After(Landing(t, max, e.Key())) == [] then e.slot else MaxSlot(t)
  {
    var d, t' := Landing(t, max, e.Key()), InsertCached(t, max, e);
    CachedInorder(t, max, e);
    var s, s' := Inorder(t), Inorder(t');
    assert s' != [] && t'.Node?;
    MaxIsLast(t);
    MaxIsLast(t');
    if After(d) == [] {
      assert s'[|s'| - 1] == e;
    } else {
      assert s'[|s'| - 1] == After(d)[|After(d)| - 1] == s[|s| - 1];
    }
  }

  /** An append lands last exactly when the maximum was cached. */
  lemma AppendLast(t: Tree, max: Index)
    requires Distinct(t) && max in Owned(t) && Find(Top, t, max).t.right.Leaf?
    ensures After(Find(Top, t, max).ctx) == [] <==> max == MaxSlot(t)
  {
    var z := Find(Top, t, max);
    CutAt(t, max);
    DistinctInorder(t);
    MaxIsLast(t);
    var a, b := Before(z.ctx) + Inorder(z.t.left), After(z.ctx);
    assert Inorder(z.t.right) + After(z.ctx) == b;
    assert Inorder(t) == a + [z.t.e] + b && (a + [z.t.e] + b)[|a|] == z.t.e;
    if b != [] {
      assert Inorder(t)[|a|].slot != Inorder(t)[|Inorder(t)| - 1].slot;
    }
  }

  lemma LastOfTwo(a: seq<Entry>, b: seq<Entry>, key: int)
    requires AllBelow(a, key) && AllAtLeast(b, key) && a + b != []
    ensures b == [] <==> (a + b)[|a + b| - 1].Key() < key
  {
    assert (a + b)[|a + b| - 1] == if b == [] then a[|a| - 1] else b[|b| - 1];
  }

  /** A descent lands last exactly when the key is larger than all. */
  lemma DescentLast(t: Tree, key: int)
    requires t.Node? && Sorted(Inorder(t))
    ensures After(Descend(Top, t, key)) == [] <==> MaxNode(t).e.Key() < key
  {
    var d := Descend(Top, t, key);
    DescentParts(t, key);
    DescentAround(t, key);
    MaxIsLast(t);
    LastOfTwo(Before(d), After(d), key);
  }

  lemma SortedUpToLast(a: seq<Entry>, x: Entry, b: seq<Entry>)
    requires Sorted(a + [x] + b)
    ensures x.Key() <= (a + [x] + b)[|a| + |b|].Key()
  {
    assert (a + [x] + b)[|a|] == x;
  }

  /** The maximum of a sorted tree is no smaller than any cached node. */
  lemma BelowMax(t: Tree, max: Index)
    requires Distinct(t) && Sorted(Inorder(t)) && max in Owned(t)
    ensures Find(Top, t, max).t.e.Key() <= MaxNode(t).e.Key()
  {
    var z := Find(Top, t, max);
    CutAt(t, max);
    MaxIsLast(t);
    SortedUpToLast(Before(z.ctx) + Inorder(z.t.left), z.t.e, Inorder(z.t.right) + After(z.ctx));
  }

  /** After an insertion with any node of the tree cached, or none, the cache is exact
      exactly when it was before, or was a node with a right child and the new key is the largest. */
  lemma CacheExact(t: Tree, max: Index, e: Entry)
    requires Distinct(t) && Sorted(Inorder(t)) && e.slot !in Owned(t) + {NIL} && NIL !in Owned(t)
    requires max == NIL || max in Owned(t)
    ensures NextMax(t, max, e) == MaxSlot(InsertCached(t, max, e)) <==>
      t.Leaf? || max == MaxSlot(t) || (max in Rights(t) && MaxNode(t).e.Key() < e.Key())
  {
    if t.Node? {
      CachedMax(t, max, e);
      DescentLast(t, e.Key());
      FindMax(Top, t);
      RightsOwned(t);
      if max in Owned(t) {
        BelowMax(t, max);
        FindRight(Top, t, max);
        if Find(Top, t, max).t.right.Leaf? { AppendLast(t, max); }
      }
    }
  }

  lemma CachedOwned(t: Tree, max: Index, e: Entry)
    ensures Owned(InsertCached(t, max, e)) == Owned(t) + {e.slot}
  {
    if t.Node? {
      LandingPlug(t, max, e.Key());
      PlugOwned(Landing(t, max, e.Key()), Leaf);
      InsertFixOwns(Landing(t, max, e.Key()), NewLeaf(e, Red));
    }
  }

  /** The block of a cached node shows its key and whether it has a right child. */
  lemma CachedBlock(h: Heap, t: Tree, max: Index)
    requires Stores(h, t) && max in Owned(t)
    ensures var z := Find(Top, t, max);
      max < |h.mem| && h.mem[max].value == z.t.e.value && (h.mem[max].right == NIL <==> z.t.right.Leaf?)
  {
    var z := Find(Top, t, max);
    FindPlug(Top, t, max);
    PlugStores(h, z.ctx, z.t);
    assert Holds(h.mem, z.t.right, z.t.e.slot);
  }

  lemma NilUnowned(h: Heap, t: Tree)
    requires Stores(h, t)
    ensures NIL !in Owned(t)
  {
    OwnedBounds(h.mem, t, NIL);
  }

  /** What an insertion keeps, whatever node of the tree is cached. */
  lemma CachedKeeps(t: Tree, max: Index, e: Entry)
    requires Distinct(t) && e.slot !in Owned(t) + {NIL} && NIL !in Owned(t)
    requires t.Leaf? || max == NIL || max in Owned(t)
    ensures var t', max' := InsertCached(t, max, e), NextMax(t, max, e);
      && max' in Owned(t') + {NIL} && (Balanced(t) ==> Balanced(t')) && (RedBlack(t) ==> RedBlack(t'))
      && (Sorted(Inorder(t)) ==>
           && (Sorted(Inorder(t')) <==> InPlace(t, max, e.Key()))
           && (Usable(t, max) ==>
                 t' == Insert(t, e) && Inorder(t') == InsertSorted(Inorder(t), e) && Sorted(Inorder(t')))
           && (max' == MaxSlot(t') <==>
                 t.Leaf? || max == MaxSlot(t) || (max in Rights(t) && MaxNode(t).e.Key() < e.Key())))
  {
    CachedOwned(t, max, e);
    CachedBalanced(t, max, e);
    if Sorted(Inorder(t)) {
      CachedOrder(t, max, e);
      if t.Node? { CacheExact(t, max, e); }
      if Usable(t, max) { CachedIsPlain(t, max, e); }
    }
  }

  // ----- when the next cache is usable

  function RightsAbove(ctx: Ctx, full: bool): set<Index>
    decreases ctx
  {
    if ctx.Top? then {} else
    var here := if ctx.InRight? then full else ctx.right.Node?;
    Rights(Sibling(ctx)) + RightsAbove(ctx.up, true) + (if here then {ctx.e.slot} else {})
  }

  lemma {:induction false} PlugRights(ctx: Ctx, t: Tree)
    ensures Rights(Plug(ctx, t)) == Rights(t) + RightsAbove(ctx, t.Node?)
    decreases ctx
  {
    if !ctx.Top? {
      PlugRights(ctx.up, Join(ctx, t));
    }
  }

  /** The nodes at which the path turns right. */
  function Turns(ctx: Ctx): set<Index> {
    if ctx.Top? then {} else Turns(ctx.up) + (if ctx.InRight? then {ctx.e.slot} else {})
  }

  /** The node that a rotation above `t` gives a right child, when this round rotates. */
  function Lifted(ctx: Ctx, t: Tree): set<Index>
    requires t.Node?
  {
    if ctx.Top? || ctx.color.Black? || ctx.up.Top? || Col(Sibling(ctx.up)).Red? then {}
    else if ctx.InLeft? != ctx.up.InLeft? then {t.e.slot}
    else if ctx.InLeft? then {ctx.e.slot} else {}
  }

  /** One round gives right children to nobody else, and takes them only from nodes
      where the path turns right. */
  lemma StepRights(ctx: Ctx, t: Tree)
    requires t.Node?
    ensures var s := InsertStep(ctx, t);
      && Rights(Whole(s)) <= Rights(Plug(ctx, t)) + Lifted(ctx, t)
      && Rights(Plug(ctx, t)) - Turns(ctx) <= Rights(Whole(s)) && Lifted(ctx, t) <= Rights(Whole(s))
      && (s.More? ==> Turns(s.ctx) <= Turns(ctx) && Lifted(ctx, t) == {})
  {
    PlugRights(ctx, t);
    if ctx.Top? || ctx.color.Black? || ctx.up.Top? {
    } else if Col(Sibling(ctx.up)).Red? {
      RecolorRights(ctx.up, ctx, t);
    } else {
      RotateRights(ctx.up, ctx, t);
    }
  }

  lemma RecolorRights(g: Ctx, p: Ctx, t: Tree)
    requires t.Node? && !p.Top? && !g.Top? && p.up == g
    ensures Rights(Plug(g.up, Recolored(g, p, t))) == Rights(Plug(p, t))
  {
    assert Plug(p, t) == Plug(g.up, Join(g, Join(p, t)));
    PlugRights(g.up, Join(g, Join(p, t)));
    PlugRights(g.up, Recolored(g, p, t));
  }

  lemma RotateRights(g: Ctx, p: Ctx, t: Tree)
    requires t.Node? && !p.Top? && !g.Top? && p.up == g && !p.color.Black? && !Col(Sibling(g)).Red?
    ensures var u, v := Plug(p, t), Plug(g.up, Rotated(g, p, t));
      Rights(v) <= Rights(u) + Lifted(p, t) && Rights(u) - Turns(p) <= Rights(v) && Lifted(p, t) <= Rights(v)
  {
    assert Plug(p, t) == Plug(g.up, Join(g, Join(p, t)));
    PlugRights(g.up, Join(g, Join(p, t)));
    PlugRights(g.up, Rotated(g, p, t));
    RotatedRights(g, p, t);
  }

  lemma NodeRights(l: Tree, e: Entry, c: Color, r: Tree)
    ensures Rights(Node(l, e, c, r)) == Rights(l) + Rights(r) + (if r.Node? then {e.slot} else {})
  {
  }

  lemma RotatedRights(g: Ctx, p: Ctx, t: Tree)
    requires t.Node? && !p.Top? && !g.Top?
    ensures var u, v := Join(g, Join(p, t)), Rotated(g, p, t);
      var gain := if p.InLeft? != g.InLeft? then {t.e.slot} else if p.InLeft? then {p.e.slot} else {};
      var turned := (if p.InRight? then {p.e.slot} else {}) + (if g.InRight? then {g.e.slot} else {});
      Rights(v) <= Rights(u) + gain && Rights(u) - turned <= Rights(v) && gain <= Rights(v)
  {
    if g.InLeft? && p.InLeft? {
      NodeRights(Join(p, t), g.e, g.color, g.right);
      NodeRights(t, p.e, p.color, p.right);
      NodeRights(t, p.e, g.color, Node(p.right, g.e, p.color, g.right));
      NodeRights(p.right, g.e, p.color, g.right);
    } else if g.InLeft? {
      NodeRights(Join(p, t), g.e, g.color, g.right);
      NodeRights(p.left, p.e, p.color, t);
      NodeRights(t.left, t.e, t.color, t.right);
      NodeRights(Node(p.left, p.e, p.color, t.left), t.e, g.color, Node(t.right, g.e, Red, g.right));
      NodeRights(p.left, p.e, p.color, t.left);
      NodeRights(t.right, g.e, Red, g.right);
    } else if p.InLeft? {
      NodeRights(g.left, g.e, g.color, Join(p, t));
      NodeRights(t, p.e, p.color, p.right);
      NodeRights(t.left, t.e, t.color, t.right);
      NodeRights(Node(g.left, g.e, Red, t.left), t.e, g.color, Node(t.right, p.e, p.color, p.right));
      NodeRights(g.left, g.e, Red, t.left);
      NodeRights(t.right, p.e, p.color, p.right);
    } else {
      NodeRights(g.left, g.e, g.color, Join(p, t));
      NodeRights(p.left, p.e, p.color, t);
      NodeRights(Node(g.left, g.e, p.color, p.left), p.e, g.color, t);
      NodeRights(g.left, g.e, p.color, p.left);
    }
  }

  /** Higher up, rotations give nobody a first right child: the nodes they lift have one. */
  predicate Full(t: Tree) { t.Node? && t.left.Node? && t.right.Node? }

  lemma {:induction false} FixRights(ctx: Ctx, t: Tree)
    requires RedAtMost(ctx, t) && Full(t)
    ensures Rights(InsertFix(ctx, t)) <= Rights(Plug(ctx, t))
    ensures Rights(Plug(ctx, t)) - Turns(ctx) <= Rights(InsertFix(ctx, t))
    decreases Depth(ctx)
  {
    StepRights(ctx, t);
    InsertStepBalanced(ctx, t);
    PlugRights(ctx, t);
    if !ctx.Top? && !ctx.color.Black? && !ctx.up.Top? {
      assert BlackHeight(t) > 0 && Sibling(ctx).Node?;
      assert t.e.slot in Rights(t);
      assert ctx.InLeft? ==> ctx.e.slot in RightsAbove(ctx, true);
      assert Lifted(ctx, t) <= Rights(Plug(ctx, t));
      if Col(Sibling(ctx.up)).Red? {
        var s := InsertStep(ctx, t);
        assert Whole(s) == Plug(s.ctx, s.focus) && Full(s.focus);
        FixRights(s.ctx, s.focus);
      }
    }
  }

  /** The first round alone decides who gains a right child. */
  lemma LeafRights(d: Ctx, e: Entry)
    requires Accepts(d, 0, Black)
    ensures var t' := InsertFix(d, NewLeaf(e, Red));
      && Rights(t') <= RightsAbove(d, true) + Lifted(d, NewLeaf(e, Red))
      && RightsAbove(d, true) - Turns(d) <= Rights(t') && Lifted(d, NewLeaf(e, Red)) <= Rights(t')
  {
    var leaf := NewLeaf(e, Red);
    StepRights(d, leaf);
    InsertStepBalanced(d, leaf);
    PlugRights(d, leaf);
    var s := InsertStep(d, leaf);
    if s.More? {
      assert Whole(s) == Plug(s.ctx, s.focus) && Full(s.focus);
      FixRights(s.ctx, s.focus);
    }
  }

  lemma {:induction false} TurnsBefore(ctx: Ctx, slot: Index)
    requires slot in Turns(ctx)
    ensures HasSlot(Before(ctx), slot)
  {
    if ctx.InRight? {
      var a, b := Before(ctx.up) + Inorder(ctx.left), [ctx.e];
      HasSlotConcat(Before(ctx.up), Inorder(ctx.left), slot);
      HasSlotConcat(a, b, slot);
      assert b[0] == ctx.e;
      if slot != ctx.e.slot { TurnsBefore(ctx.up, slot); }
    } else {
      TurnsBefore(ctx.up, slot);
    }
  }

  /** A descent never turns right at a node that is not smaller. */
  lemma NoTurnAt(t: Tree, max: Index, key: int)
    requires t.Node? && Distinct(t) && Sorted(Inorder(t)) && max in Owned(t) && Find(Top, t, max).t.e.Key() >= key
    ensures max !in Turns(Descend(Top, t, key))
  {
    var d, z := Descend(Top, t, key), Find(Top, t, max);
    if max in Turns(d) {
      TurnsBefore(d, max);
      DescentParts(t, key);
      DescentAround(t, key);
      FindPlug(Top, t, max);
      NodeInorder(z.ctx, z.t);
      DistinctInorder(t);
      SameEntry(Inorder(t), Before(d), After(d), Before(z.ctx) + Inorder(z.t.left), z.t.e,
                Inorder(z.t.right) + After(z.ctx), key);
    }
  }

  /** Slots tell entries apart. */
  lemma SameEntry(s: seq<Entry>, a: seq<Entry>, b: seq<Entry>, l: seq<Entry>, x: Entry, r: seq<Entry>, key: int)
    requires NoDuplicates(s) && s == a + b == l + [x] + r && AllBelow(a, key) && HasSlot(a, x.slot)
    ensures x.Key() < key
  {
    var k :| 0 <= k < |a| && a[k].slot == x.slot;
    assert s[k] == a[k] && s[|l|] == x;
  }

  /** After an insertion with any node of the tree cached, the new cache is usable exactly
      when it is exact, or has just been given a right child, or was kept and had one. */
  lemma CacheUsable(t: Tree, max: Index, e: Entry)
    requires t.Node? && Distinct(t) && Sorted(Inorder(t)) && Balanced(t) && max in Owned(t)
    requires e.slot !in Owned(t) + {NIL} && NIL !in Owned(t)
    ensures var d, max' := Landing(t, max, e.Key()), NextMax(t, max, e);
      Usable(InsertCached(t, max, e), max') <==>
        || max == MaxSlot(t) || (max in Rights(t) && MaxNode(t).e.Key() < e.Key())
        || max' in Lifted(d, NewLeaf(e, Red)) || (max' == max && max in Rights(t))
  {
    var d, t', max' := Landing(t, max, e.Key()), InsertCached(t, max, e), NextMax(t, max, e);
    CacheExact(t, max, e);
    CachedInorder(t, max, e);
    LandingPlug(t, max, e.Key());
    PlugBalanced(d, Leaf);
    PlugOwned(d, Leaf);
    PlugRights(d, Leaf);
    LeafRights(d, e);
    RightsOwned(t);
    assert RightsAbove(d, true) <= Rights(t) + (if d.InRight? then {d.e.slot} else {})
      && Rights(t) <= RightsAbove(d, true);
    if max' == max {
      NoTurnAt(t, max, e.Key());
    }
  }
}
