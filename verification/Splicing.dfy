/** Linking a new leaf, splicing a node out, and replacing an internal node by its successor.
    For each of them a flat lemma says what becomes of every block involved, given how the
    blocks are linked, and a lemma on trees then says that the array holds the new tree. The
    replacement goes in two halves: everything around the successor lets go of it, and then
    it is seated where the node was. */
module Splicing {
  import opened Slots
  import opened Trees
  import opened Links
  import opened Removal

  // ----- a new leaf

  /** Linking block `i` from its parent at the end of a path. */
  function LinkLeaf(h: Heap, ctx: Ctx, i: Index): Heap {
    if ctx.InLeft? then SetLeft(h, ParentOf(ctx), i) else SetRight(h, ParentOf(ctx), i)
  }

  function WriteLeaf(h: Heap, e: Entry, parent: Index, c: Color): Heap {
    h.(mem := Put(h.mem, e.slot, Slot(NIL, NIL, parent, c, e.payloadType, e.value)))
  }

  lemma LinkLeafStores(h: Heap, ctx: Ctx, e: Entry, c: Color)
    requires StoresAt(h, ctx, Leaf) && !ctx.Top? && e.slot < |h.mem| && e.slot !in OwnedCtx(ctx)
    ensures var h' := WriteLeaf(LinkLeaf(h, ctx, e.slot), e, ParentOf(ctx), c);
      StoresAt(h', ctx, Node(Leaf, e, c, Leaf)) && SameOutside(h.mem, h'.mem, OwnedCtx(ctx) + {e.slot})
  {
    var h' := WriteLeaf(LinkLeaf(h, ctx, e.slot), e, ParentOf(ctx), c);
    HoldsCtxRelink(h.mem, h'.mem, ctx, NIL, e.slot);
    RootThroughSame(ctx, NIL, e.slot);
  }

  lemma RootThroughSame(ctx: Ctx, a: Index, b: Index)
    requires !ctx.Top?
    ensures RootThrough(ctx, a) == RootThrough(ctx, b)
  {
  }

  // ----- a node with at most one child

  function OnlyChild(t: Tree): Tree
    requires t.Node?
  {
    if t.left.Node? then t.left else t.right
  }

  function UpdateParentChild(h: Heap, i: Index): Heap {
    var parent := At(h.mem, i).parent;
    var child := if At(h.mem, i).left != NIL then At(h.mem, i).left else At(h.mem, i).right;
    ReplaceChild(SetParent(h, child, parent), parent, i, child)
  }

  lemma SpliceEffect(h: Heap, i: Index, parent: Index, child: Index)
    requires i < |h.mem| <= NIL && h.mem[i].parent == parent
    requires child == if h.mem[i].left != NIL then h.mem[i].left else h.mem[i].right
    requires child == NIL || (child < |h.mem| && child != i && child != parent)
    requires parent == NIL || (parent < |h.mem| && parent != i)
    ensures var h' := UpdateParentChild(h, i);
      && UnchangedBut(h.mem, h'.mem, parent, child, parent, child) && Relinked(h, h', parent, i, child)
      && (child != NIL ==> h'.mem[child] == h.mem[child].(parent := parent))
  {
  }

  /** Splicing puts the only child, or nothing, in the node's place. */
  lemma SpliceStores(h: Heap, ctx: Ctx, t: Tree)
    requires StoresAt(h, ctx, t) && t.Node? && !Internal(t)
    ensures var h' := UpdateParentChild(h, t.e.slot);
      && StoresAt(h', ctx, OnlyChild(t))
      && SameOutside(h.mem, h'.mem, Owned(t) + OwnedCtx(ctx) - {t.e.slot})
  {
    var c, h' := OnlyChild(t), UpdateParentChild(h, t.e.slot);
    assert Holds(h.mem, c, t.e.slot) && (c.Node? ==> Root(c) in Owned(c));
    assert !ctx.Top? ==> ParentOf(ctx) in OwnedCtx(ctx);
    SpliceEffect(h, t.e.slot, ParentOf(ctx), Root(c));
    HoldsBelow(h.mem, h'.mem, c, t.e.slot, ParentOf(ctx));
    RelinkedStores(h, h', ctx, t, Root(c));
  }

  // ----- an internal node

  /** `t` without its leftmost node. */
  function DropMin(t: Tree): Tree
    requires t.Node?
  {
    if t.left.Leaf? then t.right else Node(DropMin(t.left), t.e, t.color, t.right)
  }

  lemma {:induction false} DropMinPlug(ctx: Ctx, t: Tree)
    requires t.Node?
    ensures Plug(MinCtx(ctx, t), MinNode(t).right) == Plug(ctx, DropMin(t))
    decreases t
  {
    if t.left.Node? {
      DropMinPlug(InLeft(ctx, t.e, t.color, t.right), t.left);
    }
  }

  /** The parent of the leftmost node, when that is not `t` itself. */
  function MinParent(t: Tree): Index
    requires t.Node? && t.left.Node?
  {
    if t.left.left.Leaf? then t.e.slot else MinParent(t.left)
  }

  lemma {:induction false} MinCtxParent(ctx: Ctx, t: Tree)
    requires t.Node?
    ensures ParentOf(MinCtx(ctx, t)) == if t.left.Leaf? then ParentOf(ctx) else MinParent(t)
    decreases t
  {
    if t.left.Node? {
      MinCtxParent(InLeft(ctx, t.e, t.color, t.right), t.left);
    }
  }

  lemma {:induction false} DropMinOwned(m: Mem, t: Tree, parent: Index)
    requires t.Node? && Holds(m, t, parent) && Distinct(t) && |m| <= NIL
    ensures var s := MinNode(t);
      && s.e.slot in Owned(t) && s.e.slot < |m| && Holds(m, s.right, s.e.slot) && Distinct(s.right)
      && Owned(DropMin(t)) == Owned(t) - {s.e.slot} && Distinct(DropMin(t))
      && (s.right.Node? ==> Root(s.right) in Owned(t) && Root(s.right) != s.e.slot)
      && m[s.e.slot] == Header(s, if t.left.Leaf? then parent else MinParent(t))
      && (t.left.Node? ==>
          && MinParent(t) in Owned(t) - {s.e.slot} && MinParent(t) < |m| && m[MinParent(t)].left == s.e.slot
          && t.e.slot != s.e.slot
          && Root(s.right) != MinParent(t) && Root(s.right) != t.e.slot)
  {
    if t.left.Node? {
      DropMinOwned(m, t.left, t.e.slot);
    }
  }

  /** First half of replacing `i` by its successor `s`: everything around `s` lets go of it. */
  function Release(h: Heap, i: Index, s: Index): Heap {
    var n, sn := At(h.mem, i), At(h.mem, s);
    if sn.parent == i then SetParent(SetParent(h, sn.right, s), n.left, s)
    else SetParent(SetParent(SetParent(SetLeft(h, sn.parent, sn.right), n.right, s), sn.right, sn.parent), n.left, s)
  }

  /** Second half: `s` takes over the links and colour that node `n` had, and the
      block of `i` is left as the successor's was. */
  function Seat(h: Heap, i: Index, s: Index, n: Slot, sn: Slot): Heap {
    var adjacent := sn.parent == i;
    var m := Put(h.mem, s, At(h.mem, s).(parent := n.parent, left := n.left,
                                         right := if adjacent then sn.right else n.right, color := n.color));
    var h' := ReplaceChild(h.(mem := m), n.parent, i, s);
    h'.(mem := Put(h'.mem, i, At(h'.mem, i).(parent := if adjacent then s else sn.parent, left := NIL,
                                             right := sn.right, color := sn.color)))
  }

  /** Replaces internal node `i` by its successor `s` without linking `i` anywhere new. */
  function RemoveInternal(h: Heap, i: Index, s: Index): Heap {
    Seat(Release(h, i, s), i, s, At(h.mem, i), At(h.mem, s))
  }

  /** An internal node `i` below `parent`, its children, its successor `s` with parent
      `sp` and child `c`: all different blocks, except that `sp` is `right` or below. */
  predicate Succession(h: Heap, parent: Index, i: Index, left: Index, right: Index, s: Index, sp: Index, c: Index) {
    var m := h.mem;
    && |m| <= NIL && i < |m| && m[i].parent == parent && m[i].left == left && m[i].right == right
    && s < |m| && s != i && m[s].parent == sp && m[s].left == NIL && m[s].right == c
    && left < |m| && left != i && left != s && m[left].parent == i
    && right < |m| && right != i && right != left && m[right].parent == i
    && (parent == NIL || (parent < |m| && parent != i && parent != left && parent != right && parent != s
                          && parent != sp && parent != c && (m[parent].left == i || m[parent].right == i)
                          && m[parent].left != s))
    && (c == NIL || (c < |m| && c != i && c != left && c != right && c != s && c != sp && m[c].parent == s))
    && (if sp == i then right == s else sp < |m| && sp != left && sp != s && right != s && m[sp].left == s)
  }

  predicate Released(h: Heap, h': Heap, i: Index, left: Index, right: Index, s: Index, sp: Index, c: Index)
    requires sp == i || sp < |h.mem|
    requires left < |h.mem| && right < |h.mem| && (c == NIL || c < |h.mem|)
  {
    var a, b, far := h.mem, h'.mem, sp != i;
    && |b| == |a| && h'.root == h.root
    && b[left] == a[left].(parent := s)
    && (c != NIL ==> b[c] == a[c].(parent := if far then sp else s))
    && (far && right == sp ==> b[sp] == a[sp].(left := c, parent := s))
    && (far && right != sp ==> b[sp] == a[sp].(left := c) && b[right] == a[right].(parent := s))
    && (forall k: Index :: k < |a| && k != left && k != c && (far ==> k != sp && k != right) ==> b[k] == a[k])
  }

  /** Every block after the replacement: those around `s`, the link from above, `s` and `i`. */
  predicate Succeeded(h: Heap, h1: Heap, h': Heap, parent: Index, i: Index, left: Index, right: Index,
                      s: Index, sp: Index, c: Index)
    requires i < |h.mem| && s < |h.mem|
  {
    var a, b, far := h.mem, h'.mem, sp != i;
    && |b| == |a| == |h1.mem| && Relinked(h, h', parent, i, s)
    && b[i] == a[i].(parent := if far then sp else s, left := NIL, right := c, color := a[s].color)
    && b[s] == a[s].(parent := parent, left := left, right := if far then right else c, color := a[i].color)
    && forall k: Index :: k < |a| && k != parent && k != i && k != s ==> b[k] == h1.mem[k]
  }

  lemma ReleaseEffect(h: Heap, parent: Index, i: Index, left: Index, right: Index, s: Index, sp: Index, c: Index)
    requires Succession(h, parent, i, left, right, s, sp, c)
    ensures Released(h, Release(h, i, s), i, left, right, s, sp, c)
  {
    if sp == i {
      ReleaseNear(h, parent, i, left, right, s, c);
    } else {
      ReleaseFar(h, parent, i, left, right, s, sp, c);
    }
  }

  lemma ReleaseNear(h: Heap, parent: Index, i: Index, left: Index, right: Index, s: Index, c: Index)
    requires Succession(h, parent, i, left, right, s, i, c)
    ensures Released(h, Release(h, i, s), i, left, right, s, i, c)
  {
  }

  lemma ReleaseFar(h: Heap, parent: Index, i: Index, left: Index, right: Index, s: Index, sp: Index, c: Index)
    requires Succession(h, parent, i, left, right, s, sp, c) && sp != i
    ensures Released(h, Release(h, i, s), i, left, right, s, sp, c)
  {
    var h1 := SetParent(SetLeft(h, sp, c), right, s);
    assert h1.mem[right].parent == s && h1.mem[sp].left == c;
    assert Release(h, i, s) == SetParent(SetParent(h1, c, sp), left, s);
  }

  lemma SeatEffect(h: Heap, h1: Heap, parent: Index, i: Index, left: Index, right: Index, s: Index, sp: Index, c: Index)
    requires Succession(h, parent, i, left, right, s, sp, c) && Released(h, h1, i, left, right, s, sp, c)
    ensures Succeeded(h, h1, Seat(h1, i, s, h.mem[i], h.mem[s]), parent, i, left, right, s, sp, c)
  {
    assert h1.mem[i] == h.mem[i] && (parent != NIL ==> h1.mem[parent] == h.mem[parent]);
  }

  /** Block `k` of `t` once the leftmost node has been let go and `t` moved below `parent'`. */
  function DroppedSlot(b: Slot, k: Index, t: Tree, parent': Index): Slot
    requires t.Node?
  {
    if t.left.Leaf? then if k == Root(t.right) then b.(parent := parent') else b
    else
      var c := Root(MinNode(t).right);
      var b1 := if k == MinParent(t) then b.(left := c) else b;
      var b2 := if k == c then b1.(parent := MinParent(t)) else b1;
      if k == t.e.slot then b2.(parent := parent') else b2
  }

  /** Without its leftmost node, `t` is ready to be held below `parent'`. */
  predicate Drops(m: Mem, m': Mem, t: Tree, parent': Index)
    requires t.Node? && |m| == |m'|
  {
    forall k: Index :: k in Owned(t) && k != MinNode(t).e.slot && k < |m| ==> m'[k] == DroppedSlot(m[k], k, t, parent')
  }

  lemma {:induction false} DropMinHolds(m: Mem, m': Mem, t: Tree, parent: Index, parent': Index)
    requires t.Node? && Holds(m, t, parent) && Distinct(t) && |m| == |m'| <= NIL && Drops(m, m', t, parent')
    ensures Holds(m', DropMin(t), parent')
  {
    DropMinOwned(m, t, parent);
    if t.left.Leaf? {
      HoldsBelow(m, m', t.right, t.e.slot, parent');
    } else {
      DropsBelow(m, m', t, parent, parent');
      DropMinHolds(m, m', t.left, t.e.slot, t.e.slot);
      DropsAbove(m, m', t, parent, parent');
    }
  }

  lemma DropsBelow(m: Mem, m': Mem, t: Tree, parent: Index, parent': Index)
    requires t.Node? && t.left.Node? && Holds(m, t, parent) && Distinct(t) && |m| == |m'| <= NIL
    requires Drops(m, m', t, parent')
    ensures Drops(m, m', t.left, t.e.slot)
  {
    DropMinOwned(m, t, parent);
    DropMinOwned(m, t.left, t.e.slot);
  }

  /** The right subtree stays as it is, */
  lemma DropsAbove(m: Mem, m': Mem, t: Tree, parent: Index, parent': Index)
    requires t.Node? && t.left.Node? && Holds(m, t, parent) && Distinct(t) && |m| == |m'| <= NIL
    requires Drops(m, m', t, parent')
    ensures Holds(m', t.right, t.e.slot) && m'[t.e.slot] == Header(DropMin(t), parent')
  {
    DropsTop(m, m', t, parent, parent');
    DropsRight(m, m', t, parent, parent');
    HoldsFrame(m, m', t.right, t.e.slot);
  }

  lemma DropsRight(m: Mem, m': Mem, t: Tree, parent: Index, parent': Index)
    requires t.Node? && t.left.Node? && Holds(m, t, parent) && Distinct(t) && |m| == |m'| <= NIL
    requires Drops(m, m', t, parent')
    ensures Agree(m, m', Owned(t.right))
  {
    DropMinOwned(m, t, parent);
    DropMinOwned(m, t.left, t.e.slot);
  }

  /** and the node itself takes the new parent. */
  lemma DropsTop(m: Mem, m': Mem, t: Tree, parent: Index, parent': Index)
    requires t.Node? && t.left.Node? && Holds(m, t, parent) && Distinct(t) && |m| == |m'| <= NIL
    requires Drops(m, m', t, parent')
    ensures m'[t.e.slot] == Header(DropMin(t), parent')
  {
    DropMinOwned(m, t, parent);
    DropMinOwned(m, t.left, t.e.slot);
    assert t.e.slot in Owned(t);
  }

  /** The parent of the successor: the node itself, or a node inside the right subtree. */
  function SuccessorParent(i: Index, r: Tree): Index
    requires r.Node?
  {
    if r.left.Leaf? then i else MinParent(r)
  }

  lemma SuccessionAt(h: Heap, ctx: Ctx, t: Tree)
    requires StoresAt(h, ctx, t) && Internal(t)
    ensures var s, r := MinNode(t.right), t.right;
      Succession(h, ParentOf(ctx), t.e.slot, t.left.e.slot, r.e.slot, s.e.slot,
                 SuccessorParent(t.e.slot, r), Root(s.right))
  {
    DropMinOwned(h.mem, t.right, t.e.slot);
    assert t.left.e.slot in Owned(t.left) && t.right.e.slot in Owned(t.right);
    assert Holds(h.mem, t.left, t.e.slot) && Holds(h.mem, t.right, t.e.slot);
    if !ctx.Top? {
      assert ParentOf(ctx) in OwnedCtx(ctx);
      assert Root(Sibling(ctx)) in OwnedCtx(ctx) || Sibling(ctx).Leaf?;
    }
  }

  /** The tree once successor `s` sits where `t` was. */
  function Replaced(t: Tree): Tree
    requires Internal(t)
  {
    Node(t.left, MinNode(t.right).e, t.color, DropMin(t.right))
  }

  lemma ReleaseLeft(h: Heap, h1: Heap, i: Index, l: Tree, r: Tree)
    requires |h.mem| <= NIL && l.Node? && r.Node? && Holds(h.mem, l, i) && Holds(h.mem, r, i)
    requires Distinct(l) && Distinct(r) && Owned(l) !! Owned(r) && i !in Owned(l) && i !in Owned(r)
    requires r.left.Node? ==> MinParent(r) < |h.mem|
    requires var s := MinNode(r); s.right.Node? ==> Root(s.right) < |h.mem|
    requires var s := MinNode(r);
      Released(h, h1, i, l.e.slot, r.e.slot, s.e.slot, SuccessorParent(i, r), Root(s.right))
    ensures Holds(h1.mem, l, MinNode(r).e.slot)
  {
    DropMinOwned(h.mem, r, i);
    assert l.e.slot in Owned(l) && r.e.slot in Owned(r);
    HoldsBelow(h.mem, h1.mem, l, i, MinNode(r).e.slot);
  }

  lemma ReleaseDrops(h: Heap, h1: Heap, i: Index, l: Tree, r: Tree)
    requires |h.mem| <= NIL && l.Node? && r.Node? && Holds(h.mem, l, i) && Holds(h.mem, r, i)
    requires Distinct(l) && Distinct(r) && Owned(l) !! Owned(r) && i !in Owned(l) && i !in Owned(r)
    requires r.left.Node? ==> MinParent(r) < |h.mem|
    requires var s := MinNode(r); s.right.Node? ==> Root(s.right) < |h.mem|
    requires var s := MinNode(r);
      Released(h, h1, i, l.e.slot, r.e.slot, s.e.slot, SuccessorParent(i, r), Root(s.right))
    ensures Drops(h.mem, h1.mem, r, MinNode(r).e.slot)
  {
    DropMinOwned(h.mem, r, i);
    RootOwned(l);
  }

  lemma ReleaseRight(h: Heap, h1: Heap, i: Index, l: Tree, r: Tree)
    requires |h.mem| <= NIL && l.Node? && r.Node? && Holds(h.mem, l, i) && Holds(h.mem, r, i)
    requires Distinct(l) && Distinct(r) && Owned(l) !! Owned(r) && i !in Owned(l) && i !in Owned(r)
    requires r.left.Node? ==> MinParent(r) < |h.mem|
    requires var s := MinNode(r); s.right.Node? ==> Root(s.right) < |h.mem|
    requires var s := MinNode(r);
      Released(h, h1, i, l.e.slot, r.e.slot, s.e.slot, SuccessorParent(i, r), Root(s.right))
    ensures Holds(h1.mem, DropMin(r), MinNode(r).e.slot)
  {
    ReleaseDrops(h, h1, i, l, r);
    DropMinHolds(h.mem, h1.mem, r, i, MinNode(r).e.slot);
  }

  /** The heap after both halves holds the tree with the successor in `t`'s place. */
  lemma SeatHolds(h1: Heap, h': Heap, i: Index, parent: Index, s: Entry, c: Color, l: Tree, d: Tree)
    requires Holds(h1.mem, l, s.slot) && Holds(h1.mem, d, s.slot)
    requires forall k: Index :: k < |h1.mem| == |h'.mem| && k != parent && k != i && k != s.slot ==>
      h'.mem[k] == h1.mem[k]
    requires |h1.mem| == |h'.mem| && s.slot < |h'.mem| && h'.mem[s.slot] == Header(Node(l, s, c, d), parent)
    requires s.slot !in Owned(l) && s.slot !in Owned(d) && i !in Owned(l) && i !in Owned(d)
    requires parent < |h1.mem| ==> parent !in Owned(l) && parent !in Owned(d)
    ensures Holds(h'.mem, Node(l, s, c, d), parent)
  {
    HoldsFrame(h1.mem, h'.mem, l, s.slot);
    HoldsFrame(h1.mem, h'.mem, d, s.slot);
  }

  lemma RemoveInternalEffect(h: Heap, ctx: Ctx, t: Tree)
    requires StoresAt(h, ctx, t) && Internal(t)
    ensures var r, s, i := t.right, MinNode(t.right), t.e.slot;
      var h1, h' := Release(h, i, s.e.slot), RemoveInternal(h, i, s.e.slot);
      var sp, c := SuccessorParent(i, r), Root(s.right);
      && Succession(h, ParentOf(ctx), i, t.left.e.slot, r.e.slot, s.e.slot, sp, c)
      && Released(h, h1, i, t.left.e.slot, r.e.slot, s.e.slot, sp, c)
      && Succeeded(h, h1, h', ParentOf(ctx), i, t.left.e.slot, r.e.slot, s.e.slot, sp, c)
  {
    var r, s, i := t.right, MinNode(t.right), t.e.slot;
    SuccessionAt(h, ctx, t);
    ReleaseEffect(h, ParentOf(ctx), i, t.left.e.slot, r.e.slot, s.e.slot, SuccessorParent(i, r), Root(s.right));
    SeatEffect(h, Release(h, i, s.e.slot), ParentOf(ctx), i, t.left.e.slot, r.e.slot, s.e.slot,
               SuccessorParent(i, r), Root(s.right));
  }

  lemma ReleaseHolds(h: Heap, ctx: Ctx, t: Tree)
    requires StoresAt(h, ctx, t) && Internal(t)
    ensures var s, h1 := MinNode(t.right).e.slot, Release(h, t.e.slot, MinNode(t.right).e.slot);
      Holds(h1.mem, t.left, s) && Holds(h1.mem, DropMin(t.right), s)
  {
    var i, r := t.e.slot, t.right;
    RemoveInternalEffect(h, ctx, t);
    DropMinOwned(h.mem, r, i);
    ReleaseLeft(h, Release(h, i, MinNode(r).e.slot), i, t.left, r);
    ReleaseRight(h, Release(h, i, MinNode(r).e.slot), i, t.left, r);
  }

  /** Letting go of the successor writes only to blocks below `t`. */
  lemma ReleaseWithin(h: Heap, ctx: Ctx, t: Tree)
    requires StoresAt(h, ctx, t) && Internal(t)
    ensures SameOutside(h.mem, Release(h, t.e.slot, MinNode(t.right).e.slot).mem, Owned(t))
  {
    RemoveInternalEffect(h, ctx, t);
    DropMinOwned(h.mem, t.right, t.e.slot);
    RootOwned(t.left);
    RootOwned(t.right);
  }

  lemma ReplacedOwned(m: Mem, t: Tree, parent: Index)
    requires Internal(t) && Holds(m, t, parent) && Distinct(t) && |m| <= NIL
    ensures Owned(Replaced(t)) == Owned(t) - {t.e.slot} && Distinct(Replaced(t))
    ensures MinNode(t.right).e.slot in Owned(t.right) && MinNode(t.right).e.slot < |m|
    ensures MinNode(t.right).e.slot !in Owned(t.left) && MinNode(t.right).e.slot !in Owned(DropMin(t.right))
    ensures t.e.slot !in Owned(t.left) && t.e.slot !in Owned(DropMin(t.right))
  {
    DropMinOwned(m, t.right, t.e.slot);
  }

  lemma SeatedHeader(h: Heap, ctx: Ctx, t: Tree)
    requires StoresAt(h, ctx, t) && Internal(t)
    ensures var s, h' := MinNode(t.right), RemoveInternal(h, t.e.slot, MinNode(t.right).e.slot);
      && s.e.slot < |h.mem| == |h'.mem| && h'.mem[s.e.slot] == Header(Replaced(t), ParentOf(ctx))
  {
    RemoveInternalEffect(h, ctx, t);
    DropMinOwned(h.mem, t.right, t.e.slot);
    assert Root(DropMin(t.right)) == if t.right.left.Leaf? then Root(MinNode(t.right).right) else t.right.e.slot;
  }

  lemma RemoveInternalHolds(h: Heap, ctx: Ctx, t: Tree)
    requires StoresAt(h, ctx, t) && Internal(t)
    ensures var s, h' := MinNode(t.right), RemoveInternal(h, t.e.slot, MinNode(t.right).e.slot);
      && Holds(h'.mem, Replaced(t), ParentOf(ctx))
      && HoldsCtx(h'.mem, ctx, s.e.slot) && h'.root == RootThrough(ctx, s.e.slot)
  {
    SeatedBelow(h, ctx, t);
    SeatedAbove(h, ctx, t);
  }

  lemma SeatedBelow(h: Heap, ctx: Ctx, t: Tree)
    requires StoresAt(h, ctx, t) && Internal(t)
    ensures Holds(RemoveInternal(h, t.e.slot, MinNode(t.right).e.slot).mem, Replaced(t), ParentOf(ctx))
  {
    var r, s, i, parent := t.right, MinNode(t.right), t.e.slot, ParentOf(ctx);
    var h1, h' := Release(h, i, s.e.slot), RemoveInternal(h, i, s.e.slot);
    RemoveInternalEffect(h, ctx, t);
    ReleaseHolds(h, ctx, t);
    ReplacedOwned(h.mem, t, parent);
    SeatedHeader(h, ctx, t);
    OutsideAt(h, ctx, t);
    SeatHolds(h1, h', i, parent, s.e, t.color, t.left, DropMin(r));
  }

  lemma SeatedAbove(h: Heap, ctx: Ctx, t: Tree)
    requires StoresAt(h, ctx, t) && Internal(t)
    ensures var s, h' := MinNode(t.right), RemoveInternal(h, t.e.slot, MinNode(t.right).e.slot);
      HoldsCtx(h'.mem, ctx, s.e.slot) && h'.root == RootThrough(ctx, s.e.slot)
  {
    RemoveInternalEffect(h, ctx, t);
    ReplacedOwned(h.mem, t, ParentOf(ctx));
    ReleaseWithin(h, ctx, t);
    RelinkedStores(h, RemoveInternal(h, t.e.slot, MinNode(t.right).e.slot), ctx, t, MinNode(t.right).e.slot);
  }

  lemma RemoveInternalWithin(h: Heap, ctx: Ctx, t: Tree)
    requires StoresAt(h, ctx, t) && Internal(t)
    ensures SameOutside(h.mem, RemoveInternal(h, t.e.slot, MinNode(t.right).e.slot).mem, Owned(t) + OwnedCtx(ctx))
  {
    RemoveInternalEffect(h, ctx, t);
    ReleaseWithin(h, ctx, t);
    DropMinOwned(h.mem, t.right, t.e.slot);
    AboveAt(h.mem, ctx, Root(t));
  }

  lemma RemovedHeader(h: Heap, ctx: Ctx, t: Tree)
    requires StoresAt(h, ctx, t) && Internal(t)
    ensures var s, h' := MinNode(t.right), RemoveInternal(h, t.e.slot, MinNode(t.right).e.slot);
      && t.e.slot < |h.mem| == |h'.mem|
      && h'.mem[t.e.slot] == h.mem[t.e.slot].(parent := if t.right.left.Leaf? then s.e.slot else MinParent(t.right),
                                              left := NIL, right := Root(s.right), color := s.color)
  {
    RemoveInternalEffect(h, ctx, t);
    DropMinOwned(h.mem, t.right, t.e.slot);
  }

  /** Removing an internal node seats its successor in its place and leaves the
      removed block as splicing it out of the successor's place would. */
  lemma RemoveInternalStores(h: Heap, ctx: Ctx, t: Tree)
    requires StoresAt(h, ctx, t) && Internal(t)
    ensures var s, h' := MinNode(t.right), RemoveInternal(h, t.e.slot, MinNode(t.right).e.slot);
      && StoresAt(h', ctx, Replaced(t))
      && SameOutside(h.mem, h'.mem, Owned(t) + OwnedCtx(ctx))
      && h'.mem[t.e.slot] == h.mem[t.e.slot].(parent := if t.right.left.Leaf? then s.e.slot else MinParent(t.right),
                                              left := NIL, right := Root(s.right), color := s.color)
  {
    RemoveInternalHolds(h, ctx, t);
    ReplacedOwned(h.mem, t, ParentOf(ctx));
    RemoveInternalWithin(h, ctx, t);
    RemovedHeader(h, ctx, t);
  }

  /** Seen from where the successor was: the hole its child now fills. */
  lemma HoleStores(h: Heap, h': Heap, ctx: Ctx, t: Tree)
    requires StoresAt(h, ctx, t) && Internal(t) && StoresAt(h', ctx, Replaced(t))
    ensures var hole, r := HoleOf(ctx, t), t.right;
      && StoresAt(h', hole.ctx, hole.child)
      && ParentOf(hole.ctx) == (if r.left.Leaf? then MinNode(r).e.slot else MinParent(r))
      && (Root(hole.child) == NIL <==> hole.child.Leaf?)
      && Owned(hole.child) + OwnedCtx(hole.ctx) == Owned(t) + OwnedCtx(ctx) - {t.e.slot}
  {
    var r, s := t.right, MinNode(t.right);
    var below, hole := InRight(ctx, t.left, s.e, t.color), HoleOf(ctx, t);
    DropMinPlug(below, r);
    assert Plug(hole.ctx, hole.child) == Plug(ctx, Replaced(t));
    PlugStores(h', hole.ctx, hole.child);
    PlugStores(h', ctx, Replaced(t));
    MinCtxParent(below, r);
    DropMinOwned(h.mem, r, t.e.slot);
    ReplacedOwned(h.mem, t, ParentOf(ctx));
    PlugOwned(hole.ctx, hole.child);
    PlugOwned(ctx, Replaced(t));
  }
}
