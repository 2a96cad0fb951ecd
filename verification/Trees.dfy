/** Red-black trees and their zippers as values: shape, order and balance. */
module Trees {
  import opened Slots

  datatype Tree = Leaf | Node(left: Tree, e: Entry, color: Color, right: Tree)

  /** The path from a position in a tree up to the root, with what hangs off it. */
  datatype Ctx =
    | Top
    | InLeft(up: Ctx, e: Entry, color: Color, right: Tree)
    | InRight(up: Ctx, left: Tree, e: Entry, color: Color)

  function Root(t: Tree): Index { if t.Leaf? then NIL else t.e.slot }

  function Col(t: Tree): Color { if t.Leaf? then Black else t.color }

  function Paint(t: Tree, c: Color): Tree { if t.Leaf? then Leaf else t.(color := c) }

  function ParentOf(ctx: Ctx): Index { if ctx.Top? then NIL else ctx.e.slot }

  function Depth(ctx: Ctx): nat { if ctx.Top? then 0 else 1 + Depth(ctx.up) }

  /** The other child of the node at the bottom of the path. */
  function Sibling(ctx: Ctx): Tree
    requires !ctx.Top?
  {
    if ctx.InLeft? then ctx.right else ctx.left
  }

  /** The subtree one level up. */
  function Join(ctx: Ctx, t: Tree): Tree
    requires !ctx.Top?
  {
    if ctx.InLeft? then Node(t, ctx.e, ctx.color, ctx.right) else Node(ctx.left, ctx.e, ctx.color, t)
  }

  /** The whole tree with `t` at the end of the path. */
  function Plug(ctx: Ctx, t: Tree): Tree {
    if ctx.Top? then t else Plug(ctx.up, Join(ctx, t))
  }

  // ----- in-order sequence

  function Inorder(t: Tree): seq<Entry> {
    if t.Leaf? then [] else Inorder(t.left) + [t.e] + Inorder(t.right)
  }

  function Before(ctx: Ctx): seq<Entry> {
    match ctx
    case Top => []
    case InLeft(up, _, _, _) => Before(up)
    case InRight(up, l, e, _) => Before(up) + Inorder(l) + [e]
  }

  function After(ctx: Ctx): seq<Entry> {
    match ctx
    case Top => []
    case InLeft(up, e, _, r) => [e] + Inorder(r) + After(up)
    case InRight(up, _, _, _) => After(up)
  }

  lemma Regroup(a: seq<Entry>, b: seq<Entry>, c: seq<Entry>, d: seq<Entry>, e: seq<Entry>)
    ensures a + (b + c + d) + e == a + b + (c + d + e)
    ensures a + (b + c + d) + e == (a + b + c) + d + e
  {
  }

  lemma {:induction false} PlugInorder(ctx: Ctx, t: Tree)
    ensures Inorder(Plug(ctx, t)) == Before(ctx) + Inorder(t) + After(ctx)
    decreases ctx
  {
    match ctx
    case Top =>
      assert [] + Inorder(t) + [] == Inorder(t);
    case InLeft(up, e, _, r) =>
      PlugInorder(up, Join(ctx, t));
      Regroup(Before(up), Inorder(t), [e], Inorder(r), After(up));
    case InRight(up, l, e, _) =>
      PlugInorder(up, Join(ctx, t));
      Regroup(Before(up), Inorder(l), [e], Inorder(t), After(up));
  }

  lemma PlugSameInorder(ctx: Ctx, t: Tree, t': Tree)
    requires Inorder(t) == Inorder(t')
    ensures Inorder(Plug(ctx, t)) == Inorder(Plug(ctx, t'))
  {
    PlugInorder(ctx, t);
    PlugInorder(ctx, t');
  }

  /** A rotation, in either direction, keeps the in-order sequence. */
  lemma RotationInorder(a: Tree, x: Entry, b: Tree, y: Entry, c: Tree,
                        c0: Color, c1: Color, c2: Color, c3: Color)
    ensures Inorder(Node(Node(a, x, c0, b), y, c1, c)) == Inorder(Node(a, x, c2, Node(b, y, c3, c)))
  {
    Reassociate(Inorder(a), [x], Inorder(b), [y], Inorder(c));
  }

  lemma Reassociate(a: seq<Entry>, b: seq<Entry>, c: seq<Entry>, d: seq<Entry>, e: seq<Entry>)
    ensures (a + b + c) + d + e == a + b + (c + d + e)
  {
  }

  // ----- balance

  function Weight(c: Color): nat { if c.Black? then 1 else 0 }

  /** Black nodes on the way down the left spine. */
  function BlackHeight(t: Tree): nat {
    if t.Leaf? then 0 else BlackHeight(t.left) + Weight(t.color)
  }

  predicate Legal(c: Color) { c.Black? || c.Red? }

  /** No red node has a red child, and every path down has as many black nodes.
      The root may have either colour. */
  predicate Balanced(t: Tree) {
    t.Node? ==>
      && Balanced(t.left) && Balanced(t.right) && Legal(t.color)
      && BlackHeight(t.left) == BlackHeight(t.right)
      && (t.color.Red? ==> Col(t.left).Black? && Col(t.right).Black?)
  }

  /** The invariant of every run: balanced, and the root is black. */
  predicate RedBlack(t: Tree) { Balanced(t) && Col(t).Black? }

  /** The path becomes a balanced tree around any balanced subtree of black
      height `n` with a root coloured `c`. */
  predicate Accepts(ctx: Ctx, n: nat, c: Color) {
    !ctx.Top? ==>
      && Balanced(Sibling(ctx)) && BlackHeight(Sibling(ctx)) == n && Legal(ctx.color)
      && (ctx.color.Red? ==> c.Black? && Col(Sibling(ctx)).Black?)
      && Accepts(ctx.up, n + Weight(ctx.color), ctx.color)
  }

  lemma {:induction false} PlugBalanced(ctx: Ctx, t: Tree)
    ensures Balanced(Plug(ctx, t)) <==> Balanced(t) && Accepts(ctx, BlackHeight(t), Col(t))
    decreases ctx
  {
    if !ctx.Top? {
      PlugBalanced(ctx.up, Join(ctx, t));
    }
  }
}
