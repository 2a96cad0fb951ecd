/** Trees in an array of linked blocks, and the header writes that change them. */
module Links {
  import opened Slots
  import opened Trees

  /** The array, and the root link of the structure at hand. */
  datatype Heap = Heap(mem: Mem, root: Index)

  // ----- layout

  /** The block of node `t` below `parent`. */
  function Header(t: Tree, parent: Index): Slot
    requires t.Node?
  {
    Slot(Root(t.left), Root(t.right), parent, t.color, t.e.payloadType, t.e.value)
  }

  /** The block of the node at the bottom of a path whose subtree there starts at `sub`. */
  function CtxHeader(ctx: Ctx, sub: Index): Slot
    requires !ctx.Top?
  {
    var other := Root(Sibling(ctx));
    Slot(if ctx.InLeft? then sub else other, if ctx.InLeft? then other else sub,
         ParentOf(ctx.up), ctx.color, ctx.e.payloadType, ctx.e.value)
  }

  /** The array holds `t`, links and payloads, below `parent`. */
  predicate Holds(m: Mem, t: Tree, parent: Index) {
    t.Node? ==>
      && t.e.slot < |m| && m[t.e.slot] == Header(t, parent)
      && Holds(m, t.left, t.e.slot) && Holds(m, t.right, t.e.slot)
  }

  predicate HoldsCtx(m: Mem, ctx: Ctx, sub: Index) {
    !ctx.Top? ==>
      && ctx.e.slot < |m| && m[ctx.e.slot] == CtxHeader(ctx, sub)
      && Holds(m, Sibling(ctx), ctx.e.slot) && HoldsCtx(m, ctx.up, ctx.e.slot)
  }

  function Owned(t: Tree): set<Index> {
    if t.Leaf? then {} else Owned(t.left) + {t.e.slot} + Owned(t.right)
  }

  function OwnedCtx(ctx: Ctx): set<Index> {
    if ctx.Top? then {} else OwnedCtx(ctx.up) + {ctx.e.slot} + Owned(Sibling(ctx))
  }

  /** No block is used twice. */
  predicate Distinct(t: Tree) {
    t.Node? ==>
      && Distinct(t.left) && Distinct(t.right)
      && t.e.slot !in Owned(t.left) + Owned(t.right) && Owned(t.left) !! Owned(t.right)
  }

  predicate DistinctCtx(ctx: Ctx) {
    !ctx.Top? ==>
      && DistinctCtx(ctx.up) && Distinct(Sibling(ctx))
      && ctx.e.slot !in OwnedCtx(ctx.up) + Owned(Sibling(ctx)) && OwnedCtx(ctx.up) !! Owned(Sibling(ctx))
  }

  /** Where the whole tree starts, given where the subtree at the path's end does. */
  function RootThrough(ctx: Ctx, sub: Index): Index
    decreases ctx
  {
    if ctx.Top? then sub else RootThrough(ctx.up, ctx.e.slot)
  }

  /** The heap is exactly a layout of `t`. */
  predicate Stores(h: Heap, t: Tree) {
    |h.mem| <= NIL && h.root == Root(t) && Holds(h.mem, t, NIL) && Distinct(t)
  }

  /** The same for a tree taken apart at one position. */
  predicate StoresAt(h: Heap, ctx: Ctx, t: Tree) {
    && |h.mem| <= NIL && h.root == RootThrough(ctx, Root(t))
    && Holds(h.mem, t, ParentOf(ctx)) && HoldsCtx(h.mem, ctx, Root(t))
    && Distinct(t) && DistinctCtx(ctx) && Owned(t) !! OwnedCtx(ctx)
  }

  lemma {:induction false} PlugOwned(ctx: Ctx, t: Tree)
    ensures Owned(Plug(ctx, t)) == Owned(t) + OwnedCtx(ctx)
    ensures Distinct(Plug(ctx, t)) <==> Distinct(t) && DistinctCtx(ctx) && Owned(t) !! OwnedCtx(ctx)
    decreases ctx
  {
    if !ctx.Top? {
      PlugOwned(ctx.up, Join(ctx, t));
    }
  }

  lemma {:induction false} PlugHolds(m: Mem, ctx: Ctx, t: Tree)
    ensures Holds(m, Plug(ctx, t), NIL) <==> Holds(m, t, ParentOf(ctx)) && HoldsCtx(m, ctx, Root(t))
    ensures Root(Plug(ctx, t)) == RootThrough(ctx, Root(t))
    decreases ctx
  {
    if !ctx.Top? {
      PlugHolds(m, ctx.up, Join(ctx, t));
    }
  }

  /** A tree can be taken apart anywhere. */
  lemma PlugStores(h: Heap, ctx: Ctx, t: Tree)
    ensures Stores(h, Plug(ctx, t)) <==> StoresAt(h, ctx, t)
  {
    PlugOwned(ctx, t);
    PlugHolds(h.mem, ctx, t);
  }

  // ----- what a change of some blocks leaves alone

  predicate Agree(m: Mem, m': Mem, s: set<Index>) {
    |m| == |m'| && forall i: Index :: i in s && i < |m| ==> m'[i] == m[i]
  }

  lemma {:induction false} HoldsFrame(m: Mem, m': Mem, t: Tree, parent: Index)
    requires Holds(m, t, parent) && Agree(m, m', Owned(t))
    ensures Holds(m', t, parent)
  {
    if t.Node? {
      HoldsFrame(m, m', t.left, t.e.slot);
      HoldsFrame(m, m', t.right, t.e.slot);
    }
  }

  lemma {:induction false} OwnedBounds(m: Mem, t: Tree, parent: Index)
    requires Holds(m, t, parent)
    ensures forall i: Index :: i in Owned(t) ==> i < |m|
  {
    if t.Node? {
      OwnedBounds(m, t.left, t.e.slot);
      OwnedBounds(m, t.right, t.e.slot);
    }
  }

  /** A subtree hangs below a new parent once its root's parent link says so. */
  lemma HoldsBelow(m: Mem, m': Mem, t: Tree, parent: Index, parent': Index)
    requires Holds(m, t, parent) && Distinct(t) && Agree(m, m', Owned(t) - {Root(t)})
    requires t.Node? ==> m'[t.e.slot] == m[t.e.slot].(parent := parent')
    ensures Holds(m', t, parent')
  {
    if t.Node? {
      HoldsFrame(m, m', t.left, t.e.slot);
      HoldsFrame(m, m', t.right, t.e.slot);
    }
  }

  lemma {:induction false} HoldsCtxFrame(m: Mem, m': Mem, ctx: Ctx, sub: Index)
    requires HoldsCtx(m, ctx, sub) && Agree(m, m', OwnedCtx(ctx))
    ensures HoldsCtx(m', ctx, sub)
    decreases ctx
  {
    if !ctx.Top? {
      HoldsCtxFrame(m, m', ctx.up, ctx.e.slot);
      HoldsFrame(m, m', Sibling(ctx), ctx.e.slot);
    }
  }

  /** A path takes a new subtree once its bottom node links to it. */
  lemma HoldsCtxRelink(m: Mem, m': Mem, ctx: Ctx, sub: Index, sub': Index)
    requires HoldsCtx(m, ctx, sub) && DistinctCtx(ctx) && Agree(m, m', OwnedCtx(ctx) - {ParentOf(ctx)})
    requires !ctx.Top? ==> m'[ctx.e.slot] == CtxHeader(ctx, sub')
    ensures HoldsCtx(m', ctx, sub')
  {
    if !ctx.Top? {
      HoldsCtxFrame(m, m', ctx.up, ctx.e.slot);
      HoldsFrame(m, m', Sibling(ctx), ctx.e.slot);
    }
  }

  // ----- field updates

  function SetColor(h: Heap, i: Index, c: Color): Heap {
    h.(mem := Put(h.mem, i, At(h.mem, i).(color := c)))
  }

  function SetParent(h: Heap, i: Index, p: Index): Heap {
    h.(mem := Put(h.mem, i, At(h.mem, i).(parent := p)))
  }

  function SetLeft(h: Heap, i: Index, l: Index): Heap {
    h.(mem := Put(h.mem, i, At(h.mem, i).(left := l)))
  }

  function SetRight(h: Heap, i: Index, r: Index): Heap {
    h.(mem := Put(h.mem, i, At(h.mem, i).(right := r)))
  }

  /** The link from above: the root link, or the side of `parent` that held `was`. */
  function ReplaceChild(h: Heap, parent: Index, was: Index, now: Index): Heap {
    if parent == NIL then h.(root := now)
    else if At(h.mem, parent).left == was then SetLeft(h, parent, now)
    else SetRight(h, parent, now)
  }

  function RotateLeft(h: Heap, g: Index): Heap {
    var p, gg := At(h.mem, g).right, At(h.mem, g).parent;
    var y := At(h.mem, p).left;
    var h1 := h.(mem := Put(h.mem, p, At(h.mem, p).(parent := gg, left := g)));
    var h2 := SetParent(h1, y, g);
    var h3 := h2.(mem := Put(h2.mem, g, At(h2.mem, g).(parent := p, right := y)));
    ReplaceChild(h3, gg, g, p)
  }

  function RotateRight(h: Heap, g: Index): Heap {
    var p, gg := At(h.mem, g).left, At(h.mem, g).parent;
    var y := At(h.mem, p).right;
    var h1 := h.(mem := Put(h.mem, p, At(h.mem, p).(parent := gg, right := g)));
    var h2 := SetParent(h1, y, g);
    var h3 := h2.(mem := Put(h2.mem, g, At(h2.mem, g).(parent := p, left := y)));
    ReplaceChild(h3, gg, g, p)
  }

  /** Painting one node. */
  lemma SetColorStores(h: Heap, ctx: Ctx, t: Tree, c: Color)
    requires StoresAt(h, ctx, t)
    ensures StoresAt(SetColor(h, Root(t), c), ctx, Paint(t, c))
    ensures SameOutside(h.mem, SetColor(h, Root(t), c).mem, Owned(t))
  {
    var m, m' := h.mem, SetColor(h, Root(t), c).mem;
    HoldsCtxFrame(m, m', ctx, Root(t));
    if t.Node? { PaintHolds(m, m', t, ParentOf(ctx), c); }
  }

  lemma PaintHolds(m: Mem, m': Mem, t: Tree, parent: Index, c: Color)
    requires Holds(m, t, parent) && Distinct(t) && t.Node? && t.e.slot < |m|
    requires m' == m[t.e.slot := m[t.e.slot].(color := c)]
    ensures Holds(m', Paint(t, c), parent) && Distinct(Paint(t, c)) && Owned(Paint(t, c)) == Owned(t)
    ensures SameOutside(m, m', Owned(t))
  {
    HoldsFrame(m, m', t.left, t.e.slot);
    HoldsFrame(m, m', t.right, t.e.slot);
  }

  /** A rotation keeps the set of blocks and their being distinct. */
  lemma RotationOwned(a: Tree, x: Entry, b: Tree, y: Entry, c: Tree,
                      c0: Color, c1: Color, c2: Color, c3: Color)
    ensures var l, r := Node(Node(a, x, c0, b), y, c1, c), Node(a, x, c2, Node(b, y, c3, c));
      Owned(l) == Owned(r) && (Distinct(l) <==> Distinct(r))
  {
    var l, r := Node(a, x, c0, b), Node(b, y, c3, c);
    assert Owned(l) == Owned(a) + {x.slot} + Owned(b);
    assert Owned(r) == Owned(b) + {y.slot} + Owned(c);
  }

  /** What the last step of every relinking does: only the link from above changes. */
  predicate Relinked(h: Heap, h': Heap, parent: Index, was: Index, now: Index) {
    if parent == NIL then h'.root == now else
      && h'.root == h.root && parent < |h.mem| == |h'.mem|
      && h'.mem[parent] == (if h.mem[parent].left == was then h.mem[parent].(left := now)
                            else h.mem[parent].(right := now))
  }

  predicate UnchangedBut(m: Mem, m': Mem, a: Index, b: Index, c: Index, d: Index) {
    |m| == |m'| && forall i: Index :: i < |m| && i != a && i != b && i != c && i != d ==> m'[i] == m[i]
  }

  /** The block count and link pattern a rotation of `g` under `gg` relies on. */
  predicate Pivot(h: Heap, gg: Index, g: Index, p: Index, y: Index) {
    var m := h.mem;
    && g < |m| <= NIL && p < |m| && g != p
    && (y == NIL || (y < |m| && y != g && y != p && y != gg))
    && (gg == NIL || (gg < |m| && gg != g && gg != p))
    && m[g].parent == gg
  }

  lemma RotateLeftEffect(h: Heap, gg: Index, g: Index, p: Index, y: Index)
    requires Pivot(h, gg, g, p, y) && h.mem[g].right == p && h.mem[p].left == y
    ensures var h' := RotateLeft(h, g);
      && UnchangedBut(h.mem, h'.mem, gg, g, p, y) && Relinked(h, h', gg, g, p)
      && h'.mem[g] == h.mem[g].(parent := p, right := y)
      && h'.mem[p] == h.mem[p].(parent := gg, left := g)
      && (y != NIL ==> h'.mem[y] == h.mem[y].(parent := g))
  {
  }

  lemma RotateRightEffect(h: Heap, gg: Index, g: Index, p: Index, y: Index)
    requires Pivot(h, gg, g, p, y) && h.mem[g].left == p && h.mem[p].right == y
    ensures var h' := RotateRight(h, g);
      && UnchangedBut(h.mem, h'.mem, gg, g, p, y) && Relinked(h, h', gg, g, p)
      && h'.mem[g] == h.mem[g].(parent := p, left := y)
      && h'.mem[p] == h.mem[p].(parent := gg, right := g)
      && (y != NIL ==> h'.mem[y] == h.mem[y].(parent := g))
  {
  }

  /** Relinking from above at a position of a stored tree. */
  lemma RelinkedStores(h: Heap, h': Heap, ctx: Ctx, t: Tree, now: Index)
    requires StoresAt(h, ctx, t) && t.Node? && Relinked(h, h', ParentOf(ctx), t.e.slot, now)
    requires Agree(h.mem, h'.mem, OwnedCtx(ctx) - {ParentOf(ctx)})
    ensures HoldsCtx(h'.mem, ctx, now) && h'.root == RootThrough(ctx, now)
  {
    if !ctx.Top? {
      assert Root(Sibling(ctx)) != t.e.slot by {
        assert Sibling(ctx).Node? ==> Root(Sibling(ctx)) in Owned(Sibling(ctx));
        assert t.e.slot in Owned(t) && t.e.slot < |h.mem|;
      }
      HoldsCtxRelink(h.mem, h'.mem, ctx, t.e.slot, now);
    }
  }

  predicate IsChild(t: Tree, p: Tree) { t.Node? && (p == t.left || p == t.right) }

  /** A child of a stored node is stored below it, in blocks of its own. */
  lemma ChildAt(m: Mem, t: Tree, parent: Index, p: Tree)
    requires Holds(m, t, parent) && Distinct(t) && IsChild(t, p)
    ensures t.e.slot < |m| && m[t.e.slot] == Header(t, parent)
    ensures Holds(m, p, t.e.slot) && Distinct(p) && Owned(p) <= Owned(t) && t.e.slot !in Owned(p)
    ensures p.Node? ==> p.e.slot in Owned(p) && p.e.slot < |m| && m[p.e.slot] == Header(p, t.e.slot)
  {
  }

  /** A stored node with a child `p` and grandchild `y` can be rotated about. */
  lemma PivotAt(h: Heap, ctx: Ctx, t: Tree, p: Tree, y: Tree)
    requires StoresAt(h, ctx, t) && IsChild(t, p) && IsChild(p, y)
    ensures Pivot(h, ParentOf(ctx), t.e.slot, p.e.slot, Root(y))
    ensures Holds(h.mem, t, ParentOf(ctx)) && Holds(h.mem, p, t.e.slot) && h.mem[p.e.slot] == Header(p, t.e.slot)
    ensures !ctx.Top? ==> ParentOf(ctx) in OwnedCtx(ctx)
    ensures y.Node? ==> Root(y) in Owned(y)
  {
    ChildAt(h.mem, t, ParentOf(ctx), p);
    ChildAt(h.mem, p, t.e.slot, y);
    AboveAt(h.mem, ctx, Root(t));
  }

  lemma AboveAt(m: Mem, ctx: Ctx, sub: Index)
    requires HoldsCtx(m, ctx, sub)
    ensures !ctx.Top? ==> ParentOf(ctx) in OwnedCtx(ctx) && ParentOf(ctx) < |m|
  {
  }

  /** None of these is among the blocks of `t`. */
  predicate Outside(t: Tree, a: Index, b: Index, c: Index, d: Index) {
    a !in Owned(t) && b !in Owned(t) && c !in Owned(t) && d !in Owned(t)
  }

  /** The blocks a rotation relinks are outside the subtrees it keeps, and of `y`, which
      it passes on, it only touches the root. */
  predicate RotationApart(gg: Index, g: Index, k: Index, a: Tree, y: Tree, b: Tree) {
    Outside(a, gg, g, k, Root(y)) && Outside(b, gg, g, k, Root(y)) && Outside(y, gg, g, k, k) && Distinct(y)
  }

  lemma LeftApart(gg: Index, t: Tree)
    requires t.Node? && t.right.Node? && Distinct(t) && gg !in Owned(t) && NIL !in Owned(t)
    ensures RotationApart(gg, t.e.slot, t.right.e.slot, t.left, t.right.left, t.right.right)
  {
    assert Distinct(t.right);
    RootOwned(t.right.left);
  }

  lemma RightApart(gg: Index, t: Tree)
    requires t.Node? && t.left.Node? && Distinct(t) && gg !in Owned(t) && NIL !in Owned(t)
    ensures RotationApart(gg, t.e.slot, t.left.e.slot, t.right, t.left.right, t.left.left)
  {
    assert Distinct(t.left);
    RootOwned(t.left.right);
  }

  /** Neither the node above a position nor NIL is in the subtree there. */
  lemma OutsideAt(h: Heap, ctx: Ctx, t: Tree)
    requires StoresAt(h, ctx, t)
    ensures ParentOf(ctx) !in Owned(t) && NIL !in Owned(t)
  {
    AboveAt(h.mem, ctx, Root(t));
    OwnedBounds(h.mem, t, ParentOf(ctx));
  }

  /** Rotating `g` about its child `k` passes `y` from one to the other; the other subtrees stay. */
  lemma RotatedParts(m: Mem, m': Mem, gg: Index, g: Index, k: Index, a: Tree, y: Tree, b: Tree)
    requires RotationApart(gg, g, k, a, y, b) && Holds(m, a, g) && Holds(m, b, k) && Holds(m, y, k)
    requires UnchangedBut(m, m', gg, g, k, Root(y))
    requires y.Node? ==> m'[y.e.slot] == m[y.e.slot].(parent := g)
    ensures Holds(m', a, g) && Holds(m', b, k) && Holds(m', y, g)
  {
    KeptApart(m, m', gg, g, k, Root(y), a, g);
    KeptApart(m, m', gg, g, k, Root(y), b, k);
    PassedOn(m, m', gg, g, k, y);
  }

  lemma KeptApart(m: Mem, m': Mem, gg: Index, g: Index, k: Index, r: Index, t: Tree, parent: Index)
    requires UnchangedBut(m, m', gg, g, k, r) && Outside(t, gg, g, k, r) && Holds(m, t, parent)
    ensures Holds(m', t, parent)
  {
    HoldsFrame(m, m', t, parent);
  }

  lemma PassedOn(m: Mem, m': Mem, gg: Index, g: Index, k: Index, y: Tree)
    requires UnchangedBut(m, m', gg, g, k, Root(y)) && Outside(y, gg, g, k, k) && Distinct(y) && Holds(m, y, k)
    requires y.Node? ==> m'[y.e.slot] == m[y.e.slot].(parent := g)
    ensures Holds(m', y, g)
  {
    HoldsBelow(m, m', y, k, g);
  }

  lemma RotatedCtx(h: Heap, h': Heap, ctx: Ctx, t: Tree, p: Tree, y: Tree)
    requires StoresAt(h, ctx, t) && IsChild(t, p) && IsChild(p, y)
    requires UnchangedBut(h.mem, h'.mem, ParentOf(ctx), t.e.slot, p.e.slot, Root(y))
    requires Relinked(h, h', ParentOf(ctx), t.e.slot, p.e.slot)
    ensures HoldsCtx(h'.mem, ctx, p.e.slot) && h'.root == RootThrough(ctx, p.e.slot)
  {
    ChildAt(h.mem, t, ParentOf(ctx), p);
    ChildAt(h.mem, p, t.e.slot, y);
    RelinkedStores(h, h', ctx, t, p.e.slot);
  }

  lemma RotateLeftHolds(h: Heap, ctx: Ctx, t: Tree)
    requires StoresAt(h, ctx, t) && t.Node? && t.right.Node?
    ensures var p, h' := t.right, RotateLeft(h, t.e.slot);
      && Holds(h'.mem, Node(Node(t.left, t.e, t.color, p.left), p.e, p.color, p.right), ParentOf(ctx))
      && HoldsCtx(h'.mem, ctx, p.e.slot) && h'.root == RootThrough(ctx, p.e.slot)
  {
    var p, g, h' := t.right, t.e.slot, RotateLeft(h, t.e.slot);
    PivotAt(h, ctx, t, p, p.left);
    RotateLeftEffect(h, ParentOf(ctx), g, p.e.slot, Root(p.left));
    OutsideAt(h, ctx, t);
    LeftApart(ParentOf(ctx), t);
    RotatedParts(h.mem, h'.mem, ParentOf(ctx), g, p.e.slot, t.left, p.left, p.right);
    RotatedCtx(h, h', ctx, t, p, p.left);
  }

  lemma RotateLeftStores(h: Heap, ctx: Ctx, t: Tree)
    requires StoresAt(h, ctx, t) && t.Node? && t.right.Node?
    ensures var p := t.right;
      StoresAt(RotateLeft(h, t.e.slot), ctx, Node(Node(t.left, t.e, t.color, p.left), p.e, p.color, p.right))
    ensures SameOutside(h.mem, RotateLeft(h, t.e.slot).mem, Owned(t) + OwnedCtx(ctx))
  {
    var p := t.right;
    PivotAt(h, ctx, t, p, p.left);
    RotateLeftEffect(h, ParentOf(ctx), t.e.slot, p.e.slot, Root(p.left));
    RotateLeftHolds(h, ctx, t);
    RotationOwned(t.left, t.e, p.left, p.e, p.right, t.color, p.color, t.color, p.color);
  }

  lemma RotateRightHolds(h: Heap, ctx: Ctx, t: Tree)
    requires StoresAt(h, ctx, t) && t.Node? && t.left.Node?
    ensures var p, h' := t.left, RotateRight(h, t.e.slot);
      && Holds(h'.mem, Node(p.left, p.e, p.color, Node(p.right, t.e, t.color, t.right)), ParentOf(ctx))
      && HoldsCtx(h'.mem, ctx, p.e.slot) && h'.root == RootThrough(ctx, p.e.slot)
  {
    var p, g, h' := t.left, t.e.slot, RotateRight(h, t.e.slot);
    PivotAt(h, ctx, t, p, p.right);
    RotateRightEffect(h, ParentOf(ctx), g, p.e.slot, Root(p.right));
    OutsideAt(h, ctx, t);
    RightApart(ParentOf(ctx), t);
    RotatedParts(h.mem, h'.mem, ParentOf(ctx), g, p.e.slot, t.right, p.right, p.left);
    RotatedCtx(h, h', ctx, t, p, p.right);
  }

  lemma RotateRightStores(h: Heap, ctx: Ctx, t: Tree)
    requires StoresAt(h, ctx, t) && t.Node? && t.left.Node?
    ensures var p := t.left;
      StoresAt(RotateRight(h, t.e.slot), ctx, Node(p.left, p.e, p.color, Node(p.right, t.e, t.color, t.right)))
    ensures SameOutside(h.mem, RotateRight(h, t.e.slot).mem, Owned(t) + OwnedCtx(ctx))
  {
    var p := t.left;
    PivotAt(h, ctx, t, p, p.right);
    RotateRightEffect(h, ParentOf(ctx), t.e.slot, p.e.slot, Root(p.right));
    RotateRightHolds(h, ctx, t);
    RotationOwned(p.left, p.e, p.right, t.e, t.right, p.color, t.color, p.color, t.color);
  }

  // ----- the fused double rotation

  /** Lifts the inner grandchild of `g` straight to the top of the subtree. */
  function RotateDouble(h: Heap, g: Index, parentIsLeft: bool, middle: Color, left: Color, right: Color): Heap {
    var above := At(h.mem, g).parent;
    var p := if parentIsLeft then At(h.mem, g).left else At(h.mem, g).right;
    var m := if parentIsLeft then At(h.mem, p).right else At(h.mem, p).left;
    var l, r := if parentIsLeft then p else g, if parentIsLeft then g else p;
    var x, y := At(h.mem, m).left, At(h.mem, m).right;
    var h0 := h.(mem := LiftNodes(h.mem, above, m, l, r, x, y, middle, left, right));
    ReplaceChild(SetParent(SetParent(h0, x, l), y, r), above, g, m)
  }

  /** The three nodes of a double rotation, in their final places. */
  function LiftNodes(mem: Mem, above: Index, m: Index, l: Index, r: Index, x: Index, y: Index,
                     middle: Color, left: Color, right: Color): Mem {
    var m1 := Put(mem, m, At(mem, m).(color := middle, parent := above, left := l, right := r));
    var m2 := Put(m1, l, At(m1, l).(color := left, parent := m, right := x));
    Put(m2, r, At(m2, r).(color := right, parent := m, left := y))
  }

  function OppositeRotations(h: Heap, g: Index, parentIsLeft: bool): Heap {
    if parentIsLeft then RotateRight(RotateLeft(h, At(h.mem, g).left), g)
    else RotateLeft(RotateRight(h, At(h.mem, g).right), g)
  }

  /** The plain way: rotate the child, rotate its parent the other way, recolour. */
  function TwoRotations(h: Heap, g: Index, parentIsLeft: bool, middle: Color, left: Color, right: Color): Heap {
    var p := if parentIsLeft then At(h.mem, g).left else At(h.mem, g).right;
    var m := if parentIsLeft then At(h.mem, p).right else At(h.mem, p).left;
    var l, r := if parentIsLeft then p else g, if parentIsLeft then g else p;
    SetColor(SetColor(SetColor(OppositeRotations(h, g, parentIsLeft), m, middle), l, left), r, right)
  }

  /** Two linked steps down from `g` to `m`, every block involved different. */
  predicate DoublePivot(h: Heap, above: Index, g: Index, p: Index, m: Index, x: Index, y: Index) {
    var mem := h.mem;
    && Pivot(h, above, g, p, m) && m != NIL
    && mem[p].parent == g && mem[m].parent == p && mem[m].left == x && mem[m].right == y
    && (x == NIL || (x < |mem| && x != above && x != g && x != p && x != m && x != y))
    && (y == NIL || (y < |mem| && y != above && y != g && y != p && y != m))
  }

  predicate LiftedNodes(a: Mem, b: Mem, above: Index, m: Index, l: Index, r: Index, x: Index, y: Index,
                        middle: Color, left: Color, right: Color)
    requires m < |a| == |b| && l < |a| && r < |a|
  {
    && b[m] == a[m].(color := middle, parent := above, left := l, right := r)
    && b[l] == a[l].(color := left, parent := m, right := x)
    && b[r] == a[r].(color := right, parent := m, left := y)
  }

  /** Every block after `m`, below `l` or `r`, has been lifted above both. */
  predicate Lifted(h: Heap, h': Heap, above: Index, g: Index, m: Index, l: Index, r: Index, x: Index, y: Index,
                   middle: Color, left: Color, right: Color)
    requires m < |h.mem| && l < |h.mem| && r < |h.mem| && (x == NIL || x < |h.mem|) && (y == NIL || y < |h.mem|)
  {
    var a, b := h.mem, h'.mem;
    && |a| == |b| && LiftedNodes(a, b, above, m, l, r, x, y, middle, left, right)
    && (x != NIL ==> b[x] == a[x].(parent := l)) && (y != NIL ==> b[y] == a[y].(parent := r))
    && Relinked(h, h', above, g, m)
    && forall i: Index :: i < |a| && i != above && i != m && i != l && i != r && i != x && i != y ==> b[i] == a[i]
  }

  lemma LiftNodesEffect(mem: Mem, above: Index, m: Index, l: Index, r: Index, x: Index, y: Index,
                        middle: Color, left: Color, right: Color)
    requires m < |mem| && l < |mem| && r < |mem| && m != l && m != r && l != r
    ensures var b := LiftNodes(mem, above, m, l, r, x, y, middle, left, right);
      && |b| == |mem| && LiftedNodes(mem, b, above, m, l, r, x, y, middle, left, right)
      && forall i: Index :: i < |mem| && i != m && i != l && i != r ==> b[i] == mem[i]
  {
  }

  lemma LiftLinksEffect(h: Heap, h0: Heap, above: Index, g: Index, m: Index, l: Index, r: Index, x: Index, y: Index,
                        middle: Color, left: Color, right: Color)
    requires var n := |h.mem|;
      && n <= NIL && |h0.mem| == n && h0.root == h.root && m < n && l < n && r < n && m != l && m != r && l != r
      && (above == NIL || (above < n && above != m && above != l && above != r && above != x && above != y))
      && (x == NIL || (x < n && x != m && x != l && x != r && x != y))
      && (y == NIL || (y < n && y != m && y != l && y != r))
    requires LiftedNodes(h.mem, h0.mem, above, m, l, r, x, y, middle, left, right)
    requires forall i: Index :: i < |h.mem| && i != m && i != l && i != r ==> h0.mem[i] == h.mem[i]
    ensures Lifted(h, ReplaceChild(SetParent(SetParent(h0, x, l), y, r), above, g, m),
                   above, g, m, l, r, x, y, middle, left, right)
  {
  }

  lemma RotateDoubleLifts(h: Heap, above: Index, g: Index, p: Index, m: Index, x: Index, y: Index,
                          parentIsLeft: bool, middle: Color, left: Color, right: Color)
    requires DoublePivot(h, above, g, p, m, x, y)
    requires if parentIsLeft then h.mem[g].left == p && h.mem[p].right == m
      else h.mem[g].right == p && h.mem[p].left == m
    ensures var l, r := if parentIsLeft then p else g, if parentIsLeft then g else p;
      Lifted(h, RotateDouble(h, g, parentIsLeft, middle, left, right), above, g, m, l, r, x, y, middle, left, right)
  {
    var l, r := if parentIsLeft then p else g, if parentIsLeft then g else p;
    LiftNodesEffect(h.mem, above, m, l, r, x, y, middle, left, right);
    LiftLinksEffect(h, h.(mem := LiftNodes(h.mem, above, m, l, r, x, y, middle, left, right)),
                    above, g, m, l, r, x, y, middle, left, right);
  }

  /** The shape the double rotation gives subtree `t`. */
  function LiftedTree(t: Tree, parentIsLeft: bool, middle: Color, left: Color, right: Color): Tree
    requires CanLift(t, parentIsLeft)
  {
    var p := if parentIsLeft then t.left else t.right;
    if parentIsLeft then
      Node(Node(p.left, p.e, left, p.right.left), p.right.e, middle, Node(p.right.right, t.e, right, t.right))
    else
      Node(Node(t.left, t.e, left, p.left.left), p.left.e, middle, Node(p.left.right, p.e, right, p.right))
  }

  predicate CanLift(t: Tree, parentIsLeft: bool) {
    t.Node? && if parentIsLeft then t.left.Node? && t.left.right.Node? else t.right.Node? && t.right.left.Node?
  }

  lemma DoublePivotAt(h: Heap, ctx: Ctx, t: Tree, p: Tree, m: Tree)
    requires StoresAt(h, ctx, t) && IsChild(t, p) && IsChild(p, m) && m.Node?
    ensures DoublePivot(h, ParentOf(ctx), t.e.slot, p.e.slot, m.e.slot, Root(m.left), Root(m.right))
    ensures Holds(h.mem, t, ParentOf(ctx)) && Holds(h.mem, p, t.e.slot) && Holds(h.mem, m, p.e.slot)
    ensures Distinct(p) && Distinct(m) && m.e.slot in Owned(m)
  {
    PivotAt(h, ctx, t, p, m);
    ChildAt(h.mem, t, ParentOf(ctx), p);
    ChildAt(h.mem, p, t.e.slot, m);
    ChildAt(h.mem, m, p.e.slot, m.left);
    ChildAt(h.mem, m, p.e.slot, m.right);
  }

  /** What the fused writes do, told by the tree they are meant to give. */
  lemma DoubleLifts(h: Heap, ctx: Ctx, t: Tree, parentIsLeft: bool, middle: Color, left: Color, right: Color)
    requires StoresAt(h, ctx, t) && CanLift(t, parentIsLeft)
    ensures LiftsTo(h, RotateDouble(h, t.e.slot, parentIsLeft, middle, left, right), ctx, t.e.slot,
                    LiftedTree(t, parentIsLeft, middle, left, right))
  {
    var p := if parentIsLeft then t.left else t.right;
    var m := if parentIsLeft then p.right else p.left;
    DoublePivotAt(h, ctx, t, p, m);
    RotateDoubleLifts(h, ParentOf(ctx), t.e.slot, p.e.slot, m.e.slot, Root(m.left), Root(m.right), parentIsLeft,
                      middle, left, right);
  }

  /** `t'` is the tree below `ctx` after lifting its root above its two children. */
  predicate LiftsTo(h: Heap, h': Heap, ctx: Ctx, g: Index, t': Tree) {
    && t'.Node? && t'.left.Node? && t'.right.Node?
    && var m, l, r, x, y := t'.e.slot, t'.left.e.slot, t'.right.e.slot, Root(t'.left.right), Root(t'.right.left);
    && m < |h.mem| && l < |h.mem| && r < |h.mem| && (x == NIL || x < |h.mem|) && (y == NIL || y < |h.mem|)
    && Lifted(h, h', ParentOf(ctx), g, m, l, r, x, y, t'.color, t'.left.color, t'.right.color)
  }

  /** The four subtrees below a lifted node are stored, the inner two still below the node itself. */
  predicate LiftParts(m: Mem, t': Tree)
    requires t'.Node? && t'.left.Node? && t'.right.Node?
  {
    var l, r := t'.left, t'.right;
    && Holds(m, l.left, l.e.slot) && Holds(m, l.right, t'.e.slot) && Holds(m, r.left, t'.e.slot)
    && Holds(m, r.right, r.e.slot)
  }

  /** They keep their layout, the inner two under new parents. */
  lemma LiftHolds(h: Heap, h': Heap, ctx: Ctx, t': Tree, g: Index)
    requires LiftsTo(h, h', ctx, g, t') && LiftParts(h.mem, t')
    requires Distinct(t') && Owned(t') !! OwnedCtx(ctx) && |h.mem| <= NIL
    ensures var l, r := t'.left, t'.right;
      && Holds(h'.mem, l.left, l.e.slot) && Holds(h'.mem, l.right, l.e.slot)
      && Holds(h'.mem, r.left, r.e.slot) && Holds(h'.mem, r.right, r.e.slot)
  {
    var l, r := t'.left, t'.right;
    var touched := {ParentOf(ctx), t'.e.slot, l.e.slot, r.e.slot, Root(l.right), Root(r.left)};
    assert SameOutside(h.mem, h'.mem, touched);
    LiftApart(ctx, t', touched);
    LiftSide(h.mem, h'.mem, l.left, l.right, l.e.slot, t'.e.slot, touched);
    LiftSide(h.mem, h'.mem, r.right, r.left, r.e.slot, t'.e.slot, touched);
  }

  /** The blocks written are no others of the four subtrees than the inner two's roots. */
  lemma LiftApart(ctx: Ctx, t': Tree, touched: set<Index>)
    requires t'.Node? && t'.left.Node? && t'.right.Node? && Distinct(t') && Owned(t') !! OwnedCtx(ctx)
    requires touched
      == {ParentOf(ctx), t'.e.slot, t'.left.e.slot, t'.right.e.slot, Root(t'.left.right), Root(t'.right.left)}
    ensures var l, r := t'.left, t'.right;
      && Distinct(l.right) && Distinct(r.left)
      && forall i: Index :: i in touched && i != NIL ==>
           && i !in Owned(l.left) && i !in Owned(r.right)
           && (i in Owned(l.right) ==> i == Root(l.right)) && (i in Owned(r.left) ==> i == Root(r.left))
  {
    var l, r := t'.left, t'.right;
    assert Distinct(l) && Distinct(r);
    RootOwned(l.right);
    RootOwned(r.left);
    assert !ctx.Top? ==> ParentOf(ctx) in OwnedCtx(ctx);
  }

  lemma RootOwned(t: Tree)
    ensures t.Node? ==> Root(t) in Owned(t)
  {
  }

  lemma LiftSide(m: Mem, m': Mem, outer: Tree, inner: Tree, side: Index, middle: Index, touched: set<Index>)
    requires Holds(m, outer, side) && Holds(m, inner, middle) && Distinct(inner)
    requires SameOutside(m, m', touched) && |m| <= NIL
    requires forall i: Index :: i in touched && i < |m| ==>
      i !in Owned(outer) && (i in Owned(inner) ==> i == Root(inner))
    requires inner.Node? ==> m'[inner.e.slot] == m[inner.e.slot].(parent := side)
    ensures Holds(m', outer, side) && Holds(m', inner, side)
  {
    HoldsFrame(m, m', outer, side);
    HoldsBelow(m, m', inner, middle, side);
  }

  lemma RotateDoubleHolds(h: Heap, ctx: Ctx, t: Tree, parentIsLeft: bool, middle: Color, left: Color, right: Color)
    requires StoresAt(h, ctx, t) && CanLift(t, parentIsLeft)
    ensures var h', t' := RotateDouble(h, t.e.slot, parentIsLeft, middle, left, right),
                          LiftedTree(t, parentIsLeft, middle, left, right);
      Holds(h'.mem, t', ParentOf(ctx)) && HoldsCtx(h'.mem, ctx, Root(t')) && h'.root == RootThrough(ctx, Root(t'))
  {
    var h' := RotateDouble(h, t.e.slot, parentIsLeft, middle, left, right);
    var t' := LiftedTree(t, parentIsLeft, middle, left, right);
    DoubleLifts(h, ctx, t, parentIsLeft, middle, left, right);
    LiftedOwned(t, parentIsLeft, middle, left, right);
    if parentIsLeft {
      LiftedPartsLeft(h, ctx, t, middle, left, right);
    } else {
      LiftedPartsRight(h, ctx, t, middle, left, right);
    }
    LiftHolds(h, h', ctx, t', t.e.slot);
    LiftHeaders(h, h', ctx, t', t.e.slot);
    LiftCtx(h, h', ctx, t, t');
  }

  /** The three nodes have the entries and the outer links they should. */
  predicate LiftReady(m: Mem, t': Tree)
    requires t'.Node? && t'.left.Node? && t'.right.Node?
  {
    && HoldsEntry(m, t'.e) && HoldsEntry(m, t'.left.e) && HoldsEntry(m, t'.right.e)
    && m[t'.left.e.slot].left == Root(t'.left.left) && m[t'.right.e.slot].right == Root(t'.right.right)
  }

  lemma LiftHeaders(h: Heap, h': Heap, ctx: Ctx, t': Tree, g: Index)
    requires LiftsTo(h, h', ctx, g, t') && LiftReady(h.mem, t')
    requires var l, r := t'.left, t'.right;
      && Holds(h'.mem, l.left, l.e.slot) && Holds(h'.mem, l.right, l.e.slot)
      && Holds(h'.mem, r.left, r.e.slot) && Holds(h'.mem, r.right, r.e.slot)
    ensures Holds(h'.mem, t', ParentOf(ctx))
  {
    assert Holds(h'.mem, t'.left, t'.e.slot);
    assert Holds(h'.mem, t'.right, t'.e.slot);
  }

  lemma LiftCtx(h: Heap, h': Heap, ctx: Ctx, t: Tree, t': Tree)
    requires StoresAt(h, ctx, t) && t.Node? && LiftsTo(h, h', ctx, t.e.slot, t') && Owned(t') == Owned(t)
    ensures HoldsCtx(h'.mem, ctx, t'.e.slot) && h'.root == RootThrough(ctx, t'.e.slot)
  {
    var l, r := t'.left, t'.right;
    var touched := {ParentOf(ctx), t'.e.slot, l.e.slot, r.e.slot, Root(l.right), Root(r.left)};
    assert touched - {ParentOf(ctx), NIL} <= Owned(t') by {
      RootOwned(l.right);
      RootOwned(r.left);
    }
    assert SameOutside(h.mem, h'.mem, touched);
    RelinkedStores(h, h', ctx, t, t'.e.slot);
  }

  /** The subtrees a double rotation regroups, where they are before it. */
  lemma LiftedPartsLeft(h: Heap, ctx: Ctx, t: Tree, middle: Color, left: Color, right: Color)
    requires StoresAt(h, ctx, t) && CanLift(t, true)
    ensures var t' := LiftedTree(t, true, middle, left, right); LiftParts(h.mem, t') && LiftReady(h.mem, t')
  {
    var p, m := t.left, t.left.right;
    ChildAt(h.mem, t, ParentOf(ctx), p);
    ChildAt(h.mem, p, t.e.slot, m);
  }

  lemma LiftedPartsRight(h: Heap, ctx: Ctx, t: Tree, middle: Color, left: Color, right: Color)
    requires StoresAt(h, ctx, t) && CanLift(t, false)
    ensures var t' := LiftedTree(t, false, middle, left, right); LiftParts(h.mem, t') && LiftReady(h.mem, t')
  {
    var p, m := t.right, t.right.left;
    ChildAt(h.mem, t, ParentOf(ctx), p);
    ChildAt(h.mem, p, t.e.slot, m);
  }

  lemma RotateDoubleStores(h: Heap, ctx: Ctx, t: Tree, parentIsLeft: bool, middle: Color, left: Color, right: Color)
    requires StoresAt(h, ctx, t) && CanLift(t, parentIsLeft)
    ensures var h', t' := RotateDouble(h, t.e.slot, parentIsLeft, middle, left, right),
                          LiftedTree(t, parentIsLeft, middle, left, right);
      StoresAt(h', ctx, t') && SameOutside(h.mem, h'.mem, Owned(t) + OwnedCtx(ctx))
  {
    DoubleLifts(h, ctx, t, parentIsLeft, middle, left, right);
    RotateDoubleHolds(h, ctx, t, parentIsLeft, middle, left, right);
    LiftedOwned(t, parentIsLeft, middle, left, right);
    LiftTouches(h, RotateDouble(h, t.e.slot, parentIsLeft, middle, left, right), ctx, t.e.slot,
                LiftedTree(t, parentIsLeft, middle, left, right));
  }

  lemma LiftTouches(h: Heap, h': Heap, ctx: Ctx, g: Index, t': Tree)
    requires LiftsTo(h, h', ctx, g, t') && |h.mem| <= NIL
    ensures SameOutside(h.mem, h'.mem, Owned(t') + OwnedCtx(ctx))
  {
    RootOwned(t'.left.right);
    RootOwned(t'.right.left);
    assert !ctx.Top? ==> ParentOf(ctx) in OwnedCtx(ctx);
  }

  lemma LiftedOwned(t: Tree, parentIsLeft: bool, middle: Color, left: Color, right: Color)
    requires CanLift(t, parentIsLeft)
    ensures var t' := LiftedTree(t, parentIsLeft, middle, left, right);
      Owned(t') == Owned(t) && (Distinct(t') <==> Distinct(t))
  {
    var p := if parentIsLeft then t.left else t.right;
    if parentIsLeft {
      var m := p.right;
      RotationOwned(p.left, p.e, m.left, m.e, m.right, left, middle, p.color, m.color);
      RotationOwned(Node(p.left, p.e, left, m.left), m.e, m.right, t.e, t.right, middle, right, middle, right);
    } else {
      var m := p.left;
      RotationOwned(m.left, m.e, m.right, p.e, p.right, m.color, p.color, middle, right);
      RotationOwned(t.left, t.e, m.left, m.e, Node(m.right, p.e, right, p.right), left, middle, left, middle);
    }
  }

  // ----- a layout determines the array

  lemma {:induction false} HoldsUnique(m: Mem, m': Mem, t: Tree, parent: Index)
    requires Holds(m, t, parent) && Holds(m', t, parent)
    ensures forall i: Index :: i in Owned(t) ==> i < |m| && i < |m'| && m[i] == m'[i]
  {
    if t.Node? {
      HoldsUnique(m, m', t.left, t.e.slot);
      HoldsUnique(m, m', t.right, t.e.slot);
    }
  }

  /** Two heaps that store the same tree and agree elsewhere are the same, block for block. */
  lemma StoresUnique(h: Heap, h': Heap, t: Tree)
    requires Stores(h, t) && Stores(h', t) && SameOutside(h.mem, h'.mem, Owned(t))
    ensures h == h'
  {
    HoldsUnique(h.mem, h'.mem, t, NIL);
    assert h.mem == h'.mem;
  }

  /** Looking one level down, or up, at the same heap. */
  lemma Refocus(h: Heap, ctx: Ctx, t: Tree)
    requires !ctx.Top?
    ensures StoresAt(h, ctx, t) <==> StoresAt(h, ctx.up, Join(ctx, t))
    ensures Owned(t) + OwnedCtx(ctx) == Owned(Join(ctx, t)) + OwnedCtx(ctx.up)
  {
    PlugStores(h, ctx, t);
    PlugStores(h, ctx.up, Join(ctx, t));
  }

  /** Painting the subtree at a position, seen from one level up. */
  lemma SetChildColor(h: Heap, ctx: Ctx, t: Tree, c: Color)
    requires !ctx.Top? && StoresAt(h, ctx.up, Join(ctx, t))
    ensures var h' := SetColor(h, Root(t), c);
      && StoresAt(h', ctx.up, Join(ctx, Paint(t, c)))
      && SameOutside(h.mem, h'.mem, Owned(Join(ctx, t)) + OwnedCtx(ctx.up))
  {
    Refocus(h, ctx, t);
    SetColorStores(h, ctx, t, c);
    Refocus(SetColor(h, Root(t), c), ctx, Paint(t, c));
  }

  lemma OppositeRotationsStore(h: Heap, ctx: Ctx, t: Tree, parentIsLeft: bool)
    requires StoresAt(h, ctx, t) && CanLift(t, parentIsLeft)
    ensures var h', m := OppositeRotations(h, t.e.slot, parentIsLeft),
                         if parentIsLeft then t.left.right else t.right.left;
      && StoresAt(h', ctx, LiftedTree(t, parentIsLeft, m.color, if parentIsLeft then t.left.color else t.color,
                                      if parentIsLeft then t.color else t.right.color))
      && SameOutside(h.mem, h'.mem, Owned(t) + OwnedCtx(ctx))
  {
    var down := if parentIsLeft then InLeft(ctx, t.e, t.color, t.right) else InRight(ctx, t.left, t.e, t.color);
    var p := if parentIsLeft then t.left else t.right;
    var m := if parentIsLeft then p.right else p.left;
    Refocus(h, down, p);
    PlugHolds(h.mem, ctx, t);
    if parentIsLeft {
      var p' := Node(Node(p.left, p.e, p.color, m.left), m.e, m.color, m.right);
      RotateLeftStores(h, down, p);
      Refocus(RotateLeft(h, p.e.slot), down, p');
      RotateRightStores(RotateLeft(h, p.e.slot), ctx, Join(down, p'));
    } else {
      var p' := Node(m.left, m.e, m.color, Node(m.right, p.e, p.color, p.right));
      RotateRightStores(h, down, p);
      Refocus(RotateRight(h, p.e.slot), down, p');
      RotateLeftStores(RotateRight(h, p.e.slot), ctx, Join(down, p'));
    }
  }

  lemma TwoRotationsStore(h: Heap, ctx: Ctx, t: Tree, parentIsLeft: bool, middle: Color, left: Color, right: Color)
    requires StoresAt(h, ctx, t) && CanLift(t, parentIsLeft)
    ensures var h', t' := TwoRotations(h, t.e.slot, parentIsLeft, middle, left, right),
                          LiftedTree(t, parentIsLeft, middle, left, right);
      StoresAt(h', ctx, t') && SameOutside(h.mem, h'.mem, Owned(t) + OwnedCtx(ctx))
  {
    var p := if parentIsLeft then t.left else t.right;
    var m := if parentIsLeft then p.right else p.left;
    DoublePivotAt(h, ctx, t, p, m);
    OppositeRotationsStore(h, ctx, t, parentIsLeft);
    var t2 := LiftedTree(t, parentIsLeft, m.color, if parentIsLeft then p.color else t.color,
                         if parentIsLeft then t.color else p.color);
    LiftedOwned(t, parentIsLeft, m.color, t2.left.color, t2.right.color);
    PaintThree(OppositeRotations(h, t.e.slot, parentIsLeft), ctx, t2, middle, left, right);
  }

  lemma PaintThree(h: Heap, ctx: Ctx, t: Tree, middle: Color, left: Color, right: Color)
    requires StoresAt(h, ctx, t) && t.Node? && t.left.Node? && t.right.Node?
    ensures var h' := SetColor(SetColor(SetColor(h, t.e.slot, middle), t.left.e.slot, left), t.right.e.slot, right);
      && StoresAt(h', ctx, Node(Paint(t.left, left), t.e, middle, Paint(t.right, right)))
      && SameOutside(h.mem, h'.mem, Owned(t) + OwnedCtx(ctx))
  {
    SetColorStores(h, ctx, t, middle);
    var h1 := SetColor(h, t.e.slot, middle);
    SetChildColor(h1, InLeft(ctx, t.e, middle, t.right), t.left, left);
    var h2 := SetColor(h1, t.left.e.slot, left);
    SetChildColor(h2, InRight(ctx, Paint(t.left, left), t.e, middle), t.right, right);
  }

  /** The fused relinking writes the same array as the two rotations it replaces. */
  lemma DoubleIsTwoRotations(h: Heap, ctx: Ctx, t: Tree, parentIsLeft: bool, middle: Color, left: Color, right: Color)
    requires StoresAt(h, ctx, t) && CanLift(t, parentIsLeft)
    ensures RotateDouble(h, t.e.slot, parentIsLeft, middle, left, right)
         == TwoRotations(h, t.e.slot, parentIsLeft, middle, left, right)
  {
    var t' := LiftedTree(t, parentIsLeft, middle, left, right);
    RotateDoubleStores(h, ctx, t, parentIsLeft, middle, left, right);
    TwoRotationsStore(h, ctx, t, parentIsLeft, middle, left, right);
    PlugStores(RotateDouble(h, t.e.slot, parentIsLeft, middle, left, right), ctx, t');
    PlugStores(TwoRotations(h, t.e.slot, parentIsLeft, middle, left, right), ctx, t');
    LiftedOwned(t, parentIsLeft, middle, left, right);
    PlugOwned(ctx, t');
    StoresUnique(RotateDouble(h, t.e.slot, parentIsLeft, middle, left, right),
                 TwoRotations(h, t.e.slot, parentIsLeft, middle, left, right), Plug(ctx, t'));
  }

  /** A single node is a tree. */
  lemma LeafStores(h: Heap, e: Entry, c: Color)
    requires |h.mem| <= NIL && e.slot < |h.mem| && h.root == e.slot
    requires h.mem[e.slot] == Slot(NIL, NIL, NIL, c, e.payloadType, e.value)
    ensures Stores(h, Node(Leaf, e, c, Leaf)) && StoresAt(h, Top, Node(Leaf, e, c, Leaf))
  {
    var t := Node(Leaf, e, c, Leaf);
    assert Holds(h.mem, t.left, e.slot) && Holds(h.mem, t.right, e.slot);
    PlugStores(h, Top, t);
  }
}
