/** The red-black tree over a shared array: insertion and removal in place,
    each proved to leave the array that the functions on trees describe. */
module RedBlackTrees {
  import opened Slots
  import opened Trees
  import Links
  import opened Insertion
  import opened Removal
  import opened Positions
  import Splicing
  import Repairs
  import Bounds
  import Caching
  import NodeOps
  import Paths
  import Traversal

  class RedBlackTree {
    const data: array<Slot>
    var rootIndex: Index
    var maxIndex: Index
    ghost var tree: Tree

    /** The array with this tree's root link. */
    ghost function Snapshot(): Links.Heap
      reads this, data
    {
      Links.Heap(data[..], rootIndex)
    }

    /** The array holds `tree`, block for block. */
    ghost predicate Stored()
      reads this, data
    {
      Links.Stores(Snapshot(), tree)
    }

    /** What every operation keeps: red-black with a black root, keys in order. */
    ghost predicate Valid()
      reads this, data
    {
      Stored() && RedBlack(tree) && Sorted(Contents())
    }

    /** The entries in ascending order; of equal keys the newest comes first. */
    ghost function Contents(): seq<Entry>
      reads this
    {
      Inorder(tree)
    }

    /** The cached maximum is the rightmost node (NIL for an empty tree). */
    ghost predicate MaxExact()
      reads this
    {
      maxIndex == MaxSlot(tree)
    }

    /** The cache is either unused or exact. */
    ghost predicate MaxSound()
      reads this
    {
      maxIndex == NIL || MaxExact()
    }

    /** A cache insertion can work with: absent, exact, or visibly stale. */
    ghost predicate MaxUsable()
      reads this
    {
      Caching.Usable(tree, maxIndex)
    }

    /** The cache is unused or some node of the tree, whichever. */
    ghost predicate MaxKnown()
      reads this
    {
      tree.Leaf? || maxIndex == NIL || maxIndex in Links.Owned(tree)
    }

    /** At most `spare` rounds beyond the black height, which is logarithmic in the size. */
    static ghost predicate RoundsWithin(rounds: nat, spare: nat, t: Tree) {
      rounds <= BlackHeight(t) + spare && Bounds.Pow2(BlackHeight(t)) <= |Inorder(t)| + 1
    }

    constructor (data: array<Slot>, rootIndex: Index, maxIndex: Index, ghost tree: Tree)
      ensures this.data == data && this.rootIndex == rootIndex && this.maxIndex == maxIndex && this.tree == tree
    {
      this.data, this.rootIndex, this.maxIndex, this.tree := data, rootIndex, maxIndex, tree;
    }

    /** Links the new leaf from its parent, found by one comparison per level. */
    method LinkNewLeaf(value: Payload, index: Index) returns (parent: Index)
      requires Stored() && tree.Node? && index < data.Length
      modifies data
      ensures var d := Descend(Top, tree, value.key);
        Snapshot() == Splicing.LinkLeaf(old(Snapshot()), d, index) && parent == ParentOf(d)
    {
      ghost var ctx, t := Top, tree;
      Links.PlugStores(Snapshot(), Top, tree);
      parent := rootIndex;
      var right := value.key > data[parent].value.key;
      var child := if right then data[parent].right else data[parent].left;
      while child != NIL
        invariant t.Node? && parent == t.e.slot && Links.StoresAt(Snapshot(), ctx, t)
        invariant Descend(ctx, t, value.key) == Descend(Top, tree, value.key)
        invariant right == (value.key > t.e.Key()) && child == Root(if right then t.right else t.left)
        invariant data[..] == old(data[..])
        decreases t
      {
        ghost var below := if right then InRight(ctx, t.left, t.e, t.color) else InLeft(ctx, t.e, t.color, t.right);
        ghost var sub := if right then t.right else t.left;
        Links.Refocus(Snapshot(), below, sub);
        ctx, t := below, sub;
        parent := child;
        right := value.key > data[parent].value.key;
        child := if right then data[parent].right else data[parent].left;
      }
      assert Links.Holds(data[..], if right then t.right else t.left, t.e.slot);
      assert Descend(Top, tree, value.key)
          == if right then InRight(ctx, t.left, t.e, t.color) else InLeft(ctx, t.e, t.color, t.right);
      if right {
        NodeOps.SetRightIndex(data, parent, index);
      } else {
        NodeOps.SetLeftIndex(data, parent, index);
      }
    }

    /** One round of insertion repair; NIL when done. */
    method InsertFix(index: Index, ghost ctx: Ctx, ghost t: Tree) returns (next: Index)
      requires Links.StoresAt(Snapshot(), ctx, t) && t.Node? && t.e.slot == index
      modifies data, this`rootIndex
      ensures var s := InsertStep(ctx, t);
        if s.Done? then next == NIL && Links.Stores(Snapshot(), s.tree)
        else next == Root(s.focus) && Links.StoresAt(Snapshot(), s.ctx, s.focus)
      ensures SameOutside(old(data[..]), data[..], Links.Owned(t) + Links.OwnedCtx(ctx))
    {
      ghost var h := Snapshot();
      Paths.Neighbours(h, ctx, t);
      if rootIndex == index {
        Links.SetColorStores(h, ctx, t, Black);
        NodeOps.SetColor(data, index, Black);
        return NIL;
      }
      next := InsertFixUnder(index, ctx, t);
    }

    /** The part of a round that looks at the parent. */
    method InsertFixUnder(index: Index, ghost ctx: Ctx, ghost t: Tree) returns (next: Index)
      requires Links.StoresAt(Snapshot(), ctx, t) && t.Node? && t.e.slot == index && !ctx.Top?
      modifies data, this`rootIndex
      ensures var s := InsertStep(ctx, t);
        if s.Done? then next == NIL && Links.Stores(Snapshot(), s.tree)
        else next == Root(s.focus) && Links.StoresAt(Snapshot(), s.ctx, s.focus)
      ensures SameOutside(old(data[..]), data[..], Links.Owned(t) + Links.OwnedCtx(ctx))
    {
      ghost var h := Snapshot();
      Repairs.FamilyBounded(h, ctx, t);
      var parent := NodeOps.GetParentIndex(data, index);
      var parentColor := NodeOps.GetColor(data, parent);
      if parentColor == Black {
        Links.PlugStores(h, ctx, t);
        return NIL;
      }
      var grandparent := NodeOps.GetParentIndex(data, parent);
      if grandparent == NIL {
        Repairs.PaintRoot(h, ctx, t);
        NodeOps.SetColor(data, parent, Black);
        return NIL;
      }
      next := InsertFixBelow(index, parent, grandparent, parentColor, ctx, t);
    }

    /** The part of a round that looks at the grandparent and the uncle. */
    method InsertFixBelow(index: Index, parent: Index, grandparent: Index, parentColor: Color,
                          ghost ctx: Ctx, ghost t: Tree) returns (next: Index)
      requires Links.StoresAt(Snapshot(), ctx, t) && t.Node? && !ctx.Top? && !ctx.up.Top?
      requires index == t.e.slot && parent == ctx.e.slot && grandparent == ctx.up.e.slot && parentColor == ctx.color
      modifies data, this`rootIndex
      ensures if Col(Sibling(ctx.up)).Red? then
          next == grandparent && Links.StoresAt(Snapshot(), ctx.up.up, Recolored(ctx.up, ctx, t))
        else next == NIL && Links.Stores(Snapshot(), Plug(ctx.up.up, Rotated(ctx.up, ctx, t)))
      ensures SameOutside(old(data[..]), data[..], Links.Owned(t) + Links.OwnedCtx(ctx))
    {
      ghost var h := Snapshot();
      Repairs.FamilyBounded(h, ctx, t);
      var parentIsLeft := data[grandparent].left == parent;
      var grandparentColor := data[grandparent].color;
      var uncle := if parentIsLeft then data[grandparent].right else data[grandparent].left;
      var uncleColor := NodeOps.GetColor(data, uncle);
      if uncleColor == Red {
        Repairs.RecolorStores(h, ctx, t);
        RecolorThree(parent, uncle, grandparent);
        return grandparent;
      }
      Repairs.InsertRotateStores(h, ctx, t);
      InsertRotate(index, parent, grandparent, parentIsLeft, parentColor, grandparentColor);
      return NIL;
    }

    /** The uncle is red: parent and uncle turn black, the grandparent red. */
    method RecolorThree(parent: Index, uncle: Index, grandparent: Index)
      requires data.Length <= NIL && NodeOps.LinkOk(data, parent)
      requires NodeOps.LinkOk(data, uncle) && NodeOps.LinkOk(data, grandparent)
      modifies data
      ensures var h1 := Links.SetColor(Links.SetColor(old(Snapshot()), parent, Black), uncle, Black);
        Snapshot() == Links.SetColor(h1, grandparent, Red)
    {
      NodeOps.SetColor(data, parent, Black);
      NodeOps.SetColor(data, uncle, Black);
      NodeOps.SetColor(data, grandparent, Red);
    }

    /** The uncle is black: rotate the grandparent down, in one of four ways. */
    method InsertRotate(index: Index, parent: Index, grandparent: Index, parentIsLeft: bool,
                        parentColor: Color, grandparentColor: Color)
      requires data.Length <= NIL && Paths.Bounded(data[..], index)
      requires Paths.Bounded(data[..], parent) && Paths.Bounded(data[..], grandparent)
      requires parent == if parentIsLeft then data[grandparent].left else data[grandparent].right
      requires index == data[parent].left || index == data[parent].right
      modifies data, this`rootIndex
      ensures Snapshot() == Repairs.InsertRotate(old(Snapshot()), index, parent, grandparent, parentIsLeft,
                                                 parentColor, grandparentColor)
    {
      var currentIsLeft := data[parent].left == index;
      if parentIsLeft {
        if currentIsLeft {
          rootIndex := NodeOps.RotateRight(data, rootIndex, grandparent);
          NodeOps.SetColor(data, grandparent, parentColor);
          NodeOps.SetColor(data, parent, grandparentColor);
        } else {
          rootIndex := NodeOps.RotateDouble(data, rootIndex, grandparent, true, grandparentColor, parentColor, Red);
        }
      } else if currentIsLeft {
        rootIndex := NodeOps.RotateDouble(data, rootIndex, grandparent, false, grandparentColor, Red, parentColor);
      } else {
        rootIndex := NodeOps.RotateLeft(data, rootIndex, grandparent);
        NodeOps.SetColor(data, grandparent, parentColor);
        NodeOps.SetColor(data, parent, grandparentColor);
      }
    }

    /** Links the leaf: after the cached node when that has room there and the key is
        larger, at the end of a descent otherwise. */
    method LinkAnywhere(index: Index, value: Payload) returns (parent: Index)
      requires Stored() && tree.Node? && MaxKnown() && index < data.Length
      modifies data, this`maxIndex
      ensures var d := Caching.Landing(tree, old(maxIndex), value.key);
        Snapshot() == Splicing.LinkLeaf(old(Snapshot()), d, index) && parent == ParentOf(d)
      ensures maxIndex == Caching.NextMax(tree, old(maxIndex), Entry(index, 0, value))
    {
      Caching.NilUnowned(Snapshot(), tree);
      var oldMax := maxIndex;
      var append := false;
      if oldMax != NIL {
        Caching.CachedBlock(Snapshot(), tree, oldMax);
        if data[oldMax].value.key < value.key {
          maxIndex := index;
          append := data[oldMax].right == NIL;
        }
      }
      if append {
        NodeOps.SetRightIndex(data, oldMax, index);
        parent := oldMax;
      } else {
        parent := LinkNewLeaf(value, index);
      }
    }

    /** Insert and rebalance; the payload tag is written with the node. Any node of the tree
        may be cached: the order then survives exactly when the new leaf lands in place, as
        it does with every usable cache. */
    method InsertWithPayloadType(index: Index, value: Payload, payloadType: nat) returns (ghost rounds: nat)
      requires Stored() && MaxKnown()
      requires index < data.Length && index !in Links.Owned(tree)
      modifies this, data
      ensures var e := Entry(index, payloadType, value);
        && Stored() && tree == Caching.InsertCached(old(tree), old(maxIndex), e) && MaxKnown()
        && maxIndex == Caching.NextMax(old(tree), old(maxIndex), e)
        && (old(Sorted(Contents()) && MaxUsable()) ==>
             tree == Insert(old(tree), e) && Contents() == InsertSorted(old(Contents()), e))
      ensures SameOutside(old(data[..]), data[..], Links.Owned(old(tree)) + {index})
      ensures old(Sorted(Contents())) ==>
        (Sorted(Contents()) <==> Caching.InPlace(old(tree), old(maxIndex), value.key))
      ensures (old(Balanced(tree)) ==> Balanced(tree)) && (old(Valid() && MaxUsable()) ==> Valid())
      ensures old(Sorted(Contents())) ==>
        (MaxExact() <==> old(tree.Leaf? || MaxExact()
          || (maxIndex in Caching.Rights(tree) && MaxNode(tree).e.Key() < value.key)))
      ensures old(Sorted(Contents()) && MaxSound()) ==> MaxSound()
      ensures old(RedBlack(tree)) ==> RoundsWithin(rounds, 1, old(tree))
    {
      ghost var e := Entry(index, payloadType, value);
      Caching.NilUnowned(Snapshot(), tree);
      Caching.CachedKeeps(tree, maxIndex, e);
      if rootIndex == NIL {
        rootIndex, maxIndex := index, index;
        NodeOps.Write(data, index, Slot(NIL, NIL, NIL, Black, payloadType, value));
        tree := NewLeaf(e, Black);
        assert Links.Holds(data[..], tree.left, index) && Links.Holds(data[..], tree.right, index);
        assert data[..][index] == Links.Header(tree, NIL) && Links.Distinct(tree);
        return 0;
      }
      rounds := InsertBelow(index, value, payloadType);
    }

    /** Insertion into a tree that is not empty. */
    method InsertBelow(index: Index, value: Payload, payloadType: nat) returns (ghost rounds: nat)
      requires Stored() && tree.Node? && MaxKnown()
      requires index < data.Length && index !in Links.Owned(tree)
      modifies this, data
      ensures var e := Entry(index, payloadType, value);
        && Stored() && tree == Caching.InsertCached(old(tree), old(maxIndex), e)
        && maxIndex == Caching.NextMax(old(tree), old(maxIndex), e)
      ensures SameOutside(old(data[..]), data[..], Links.Owned(old(tree)) + {index})
      ensures old(RedBlack(tree)) ==> RoundsWithin(rounds, 1, old(tree))
    {
      ghost var h, e := Snapshot(), Entry(index, payloadType, value);
      ghost var ctx, t := Caching.Landing(tree, maxIndex, value.key), NewLeaf(e, Red);
      Caching.LandingStores(h, tree, maxIndex, value.key);
      var parent := LinkAnywhere(index, value);
      Splicing.LinkLeafStores(h, ctx, e, Red);
      NodeOps.Write(data, index, Slot(NIL, NIL, parent, Red, payloadType, value));
      Caching.LandingPlug(tree, old(maxIndex), value.key);
      rounds := RunInsertFix(index, ctx, t);
      if old(RedBlack(tree)) { Bounds.LandingBound(ctx, old(tree), rounds); }
    }

    /** Repair, round after round. */
    method RunInsertFix(index: Index, ghost ctx: Ctx, ghost t: Tree) returns (ghost rounds: nat)
      requires Links.StoresAt(Snapshot(), ctx, t) && t.Node? && t.e.slot == index
      modifies data, this`rootIndex, this`tree
      ensures Stored() && tree == Insertion.InsertFix(ctx, t)
      ensures 2 * rounds <= Depth(ctx) + 2
      ensures SameOutside(old(data[..]), data[..], Links.Owned(t) + Links.OwnedCtx(ctx))
    {
      ghost var c, f := ctx, t;
      ghost var all := Links.Owned(t) + Links.OwnedCtx(ctx);
      var node := index;
      rounds := 0;
      while true
        invariant Links.StoresAt(Snapshot(), c, f) && f.Node? && f.e.slot == node
        invariant Links.Owned(f) + Links.OwnedCtx(c) == all
        invariant SameOutside(old(data[..]), data[..], all)
        invariant Insertion.InsertFix(c, f) == Insertion.InsertFix(ctx, t)
        invariant 2 * rounds + Depth(c) <= Depth(ctx)
        decreases Depth(c)
      {
        ghost var s := InsertStep(c, f);
        rounds := rounds + 1;
        StepOwned(c, f);
        node := InsertFix(node, c, f);
        if node == NIL { break; }
        c, f := s.ctx, s.focus;
      }
      tree := Insertion.InsertFix(ctx, t);
    }

    /** One round of removal repair at `current` below `parent`; both NIL when done. */
    method RemoveFix(current: Index, parent: Index, ghost ctx: Ctx, ghost t: Tree)
      returns (next: Index, nextParent: Index)
      requires Links.StoresAt(Snapshot(), ctx, t) && current == Root(t) && parent == ParentOf(ctx)
      requires !ctx.Top? ==> Sibling(ctx).Node?
      modifies data, this`rootIndex
      ensures var s := RemoveStep(ctx, t);
        if s.Done? then next == NIL && nextParent == NIL && Links.Stores(Snapshot(), s.tree)
        else && next == Root(s.focus) && nextParent == ParentOf(s.ctx) && !(next == NIL && nextParent == NIL)
             && Links.StoresAt(Snapshot(), s.ctx, s.focus)
      ensures SameOutside(old(data[..]), data[..], Links.Owned(t) + Links.OwnedCtx(ctx))
    {
      ghost var h := Snapshot();
      Repairs.ShortPosition(h, ctx, t);
      if rootIndex == current {
        Links.PlugStores(h, ctx, t);
        return NIL, NIL;
      }
      var siblingIsLeft := data[parent].left != current;
      var sibling := if siblingIsLeft then data[parent].left else data[parent].right;
      var parentColor := data[parent].color;
      var siblingColor := NodeOps.GetColor(data, sibling);
      if siblingColor == Red {
        Repairs.LowerStores(h, ctx, t);
        Lower(parent, sibling, siblingIsLeft);
        return current, parent;
      }
      next, nextParent := MendAbove(parent, sibling, siblingIsLeft, parentColor, ctx, t);
    }

    /** With a black sibling: a red nephew mends the tree for good; without one the sibling
        turns red, and so the parent is short in its turn unless it can turn black. */
    method MendAbove(parent: Index, sibling: Index, siblingIsLeft: bool, parentColor: Color, ghost ctx: Ctx,
                     ghost t: Tree)
      returns (next: Index, nextParent: Index)
      requires Links.StoresAt(Snapshot(), ctx, t) && !ctx.Top? && Sibling(ctx).Node? && !Sibling(ctx).color.Red?
      requires parent == ctx.e.slot && sibling == Sibling(ctx).e.slot && siblingIsLeft == ctx.InRight?
      requires parentColor == ctx.color
      modifies data, this`rootIndex
      ensures var s := RemoveStep(ctx, t);
        if s.Done? then next == NIL && nextParent == NIL && Links.Stores(Snapshot(), s.tree)
        else && next == Root(s.focus) && nextParent == ParentOf(s.ctx) && !(next == NIL && nextParent == NIL)
             && Links.StoresAt(Snapshot(), s.ctx, s.focus)
      ensures SameOutside(old(data[..]), data[..], Links.Owned(t) + Links.OwnedCtx(ctx))
    {
      ghost var h := Snapshot();
      Repairs.ShortPosition(h, ctx, t);
      Repairs.MendStores(h, ctx, t);
      var mended := MendRotate(parent, sibling, siblingIsLeft, parentColor);
      if mended {
        return NIL, NIL;
      }
      next, nextParent := MoveUp(parent, sibling, parentColor);
    }

    /** The sibling turns red; the parent is next to repair, unless it was red and turns black. */
    method MoveUp(parent: Index, sibling: Index, parentColor: Color) returns (next: Index, nextParent: Index)
      requires data.Length <= NIL && parent < data.Length && sibling < data.Length
      modifies data
      ensures var h1 := Links.SetColor(old(Snapshot()), sibling, Red);
        if parentColor == Black then Snapshot() == h1 && next == parent && nextParent == old(data[parent].parent)
        else Snapshot() == Links.SetColor(h1, parent, Black) && next == NIL && nextParent == NIL
    {
      NodeOps.SetColor(data, sibling, Red);
      if parentColor == Black {
        next := parent;
        nextParent := NodeOps.GetParentIndex(data, parent);
      } else {
        NodeOps.SetColor(data, parent, Black);
        return NIL, NIL;
      }
    }

    /** A red sibling goes above the parent, and the two exchange colours. */
    method Lower(parent: Index, sibling: Index, siblingIsLeft: bool)
      requires data.Length <= NIL && Paths.Bounded(data[..], parent) && Paths.Bounded(data[..], sibling)
      requires sibling == if siblingIsLeft then data[parent].left else data[parent].right
      modifies data, this`rootIndex
      ensures var h := old(Snapshot());
        var h1 := if siblingIsLeft then Links.RotateRight(h, parent) else Links.RotateLeft(h, parent);
        Snapshot() == Links.SetColor(Links.SetColor(h1, parent, Red), sibling, Black)
    {
      if siblingIsLeft {
        rootIndex := NodeOps.RotateRight(data, rootIndex, parent);
      } else {
        rootIndex := NodeOps.RotateLeft(data, rootIndex, parent);
      }
      NodeOps.SetColor(data, parent, Red);
      NodeOps.SetColor(data, sibling, Black);
    }

    /** The outer nephew first, then the inner one; false when neither is red. */
    method MendRotate(parent: Index, sibling: Index, siblingIsLeft: bool, parentColor: Color) returns (mended: bool)
      requires data.Length <= NIL && Paths.Bounded(data[..], parent) && Paths.Bounded(data[..], sibling)
      requires sibling == if siblingIsLeft then data[parent].left else data[parent].right
      requires data[sibling].left != NIL ==> Paths.Bounded(data[..], data[sibling].left)
      requires data[sibling].right != NIL ==> Paths.Bounded(data[..], data[sibling].right)
      modifies data, this`rootIndex
      ensures mended <==>
        old(At(data[..], data[sibling].left).color.Red? || At(data[..], data[sibling].right).color.Red?)
      ensures var h := old(Snapshot());
        Snapshot() == if mended then Repairs.MendRotate(h, parent, sibling, siblingIsLeft, parentColor) else h
    {
      var outer := if siblingIsLeft then data[sibling].left else data[sibling].right;
      var outerColor := NodeOps.GetColor(data, outer);
      if outerColor == Red {
        MendOuter(parent, sibling, outer, siblingIsLeft, parentColor);
        return true;
      }
      var inner := if siblingIsLeft then data[sibling].right else data[sibling].left;
      var innerColor := NodeOps.GetColor(data, inner);
      if innerColor == Red {
        rootIndex := NodeOps.RotateDouble(data, rootIndex, parent, siblingIsLeft, parentColor, Black, Black);
        return true;
      }
      return false;
    }

    /** A red outer nephew turns black, and the sibling goes above the parent in its colour. */
    method MendOuter(parent: Index, sibling: Index, outer: Index, siblingIsLeft: bool, parentColor: Color)
      requires data.Length <= NIL && Paths.Bounded(data[..], parent) && Paths.Bounded(data[..], sibling)
      requires sibling == if siblingIsLeft then data[parent].left else data[parent].right
      requires outer < data.Length
      modifies data, this`rootIndex
      ensures var h1 := Links.SetColor(Links.SetColor(old(Snapshot()), outer, Black), parent, Black);
        var h := Links.SetColor(h1, sibling, parentColor);
        Snapshot() == if siblingIsLeft then Links.RotateRight(h, parent) else Links.RotateLeft(h, parent)
    {
      NodeOps.SetColor(data, outer, Black);
      NodeOps.SetColor(data, parent, Black);
      NodeOps.SetColor(data, sibling, parentColor);
      if siblingIsLeft {
        rootIndex := NodeOps.RotateRight(data, rootIndex, parent);
      } else {
        rootIndex := NodeOps.RotateLeft(data, rootIndex, parent);
      }
    }

    /** Transplants the successor of internal node `index`; its old child, the parent
        to repair from and its old colour are kept. */
    method RemoveInternalNode(index: Index, ghost ctx: Ctx, ghost t: Tree)
      returns (child: Index, repairParent: Index, removedColor: Color)
      requires Links.StoresAt(Snapshot(), ctx, t) && Internal(t) && index == t.e.slot
      modifies data, this`rootIndex
      ensures var s := MinNode(t.right);
        && Snapshot() == Splicing.RemoveInternal(old(Snapshot()), index, s.e.slot)
        && child == Root(s.right) && removedColor == s.color
        && repairParent == if t.right.left.Leaf? then s.e.slot else Splicing.MinParent(t.right)
    {
      Paths.Neighbours(Snapshot(), ctx, t);
      Splicing.SuccessionAt(Snapshot(), ctx, t);
      Splicing.DropMinOwned(data[..], t.right, index);
      var node := data[index];
      var successor := Traversal.GetNextHigherIndex(data, index, t, node.parent);
      var moved := data[successor];
      child, removedColor := moved.right, moved.color;
      repairParent := ReleaseSuccessor(index, successor, node, moved);
      SeatSuccessor(index, successor, node, moved, repairParent);
    }

    /** Everything around the successor lets go of it. */
    method ReleaseSuccessor(index: Index, successor: Index, node: Slot, moved: Slot) returns (repairParent: Index)
      requires index < data.Length <= NIL && successor < data.Length && node == data[index] && moved == data[successor]
      requires NodeOps.LinksOk(data, node) && NodeOps.LinksOk(data, moved)
      modifies data
      ensures Snapshot() == Splicing.Release(old(Snapshot()), index, successor)
      ensures repairParent == if moved.parent == index then successor else moved.parent
    {
      if moved.parent == index {
        repairParent := successor;
      } else {
        NodeOps.SetLeftIndex(data, moved.parent, moved.right);
        NodeOps.SetParentIndex(data, node.right, successor);
        repairParent := moved.parent;
      }
      NodeOps.SetParentIndex(data, moved.right, repairParent);
      NodeOps.SetParentIndex(data, node.left, successor);
    }

    /** The successor takes the node's place, and the node's own block is left as the
        successor's was. */
    method SeatSuccessor(index: Index, successor: Index, node: Slot, moved: Slot, repairParent: Index)
      requires index < data.Length <= NIL && successor < data.Length && NodeOps.LinkOk(data, node.parent)
      requires repairParent == if moved.parent == index then successor else moved.parent
      modifies data, this`rootIndex
      ensures Snapshot() == Splicing.Seat(old(Snapshot()), index, successor, node, moved)
    {
      var adjacent := moved.parent == index;
      NodeOps.Write(data, successor, data[successor].(parent := node.parent, left := node.left,
                                                      right := if adjacent then moved.right else node.right,
                                                      color := node.color));
      rootIndex := NodeOps.ReplaceChild(data, rootIndex, node.parent, index, successor);
      NodeOps.Write(data, index, data[index].(parent := repairParent, left := NIL,
                                              right := moved.right, color := moved.color));
    }

    /** Remove the node at `index` and rebalance; NIL is silently ignored. */
    method RemoveByIndex(index: Index) returns (ghost rounds: nat)
      requires Stored() && Balanced(tree) && (index == NIL || index in Links.Owned(tree))
      modifies this, data
      ensures Stored()
      ensures tree == if index == NIL then old(tree) else RemoveAt(old(tree), index)
      ensures maxIndex == if index != NIL && index == old(maxIndex) then LastSlot(Preceding(old(Contents()), index))
                          else old(maxIndex)
      ensures SameOutside(old(data[..]), data[..], if index == NIL then {} else Links.Owned(old(tree)))
      ensures Contents() == if index == NIL then old(Contents()) else Without(old(Contents()), index)
      ensures Balanced(tree) && (old(Valid()) ==> Valid())
      ensures index != NIL ==> RoundsWithin(rounds, 2, old(tree))
      ensures (old(MaxExact()) ==> MaxExact()) && (old(MaxSound()) ==> MaxSound())
    {
      if index == NIL { return 0; }
      RemoveKeeps(tree, index);
      rounds := RemoveNode(index);
    }

    method RemoveNode(index: Index) returns (ghost rounds: nat)
      requires Stored() && Balanced(tree) && index in Links.Owned(tree)
      modifies this, data
      ensures Stored() && tree == RemoveAt(old(tree), index)
      ensures maxIndex == if index == old(maxIndex) then LastSlot(Preceding(old(Contents()), index)) else old(maxIndex)
      ensures SameOutside(old(data[..]), data[..], Links.Owned(old(tree)))
      ensures RoundsWithin(rounds, 2, old(tree))
    {
      ghost var z := Find(Top, tree, index);
      HoleReady(Snapshot(), tree, index);
      if index == maxIndex {
        LowerMax(index);
      }
      var child, parent, removedColor := Detach(index, z.ctx, z.t);
      rounds := RepairHole(child, parent, removedColor, HoleOf(z.ctx, z.t));
    }

    /** The cached maximum is going: cache its predecessor. */
    method LowerMax(index: Index)
      requires Stored() && index in Links.Owned(tree)
      modifies this`maxIndex
      ensures maxIndex == LastSlot(Preceding(Contents(), index))
    {
      CutAt(tree, index);
      ghost var k := |Preceding(Contents(), index)|;
      Links.OwnedBounds(data[..], tree, NIL);
      maxIndex := Traversal.GetNextLowerIndex(data, rootIndex, index, data[..], tree, k);
    }

    /** A remaining child turns black, a lost red node needs nothing, a lost black one is repaired. */
    method RepairHole(child: Index, parent: Index, removedColor: Color, ghost hole: Hole) returns (ghost rounds: nat)
      requires Balanced(Plug(hole.ctx, NodeAt(hole))) && Links.StoresAt(Snapshot(), hole.ctx, hole.child)
      requires child == Root(hole.child) && parent == ParentOf(hole.ctx) && removedColor == hole.color
      requires child == NIL <==> hole.child.Leaf?
      modifies data, this`rootIndex, this`tree
      ensures Stored() && tree == Fill(hole)
      ensures SameOutside(old(data[..]), data[..], Links.Owned(hole.child) + Links.OwnedCtx(hole.ctx))
      ensures rounds <= BlackDepth(hole.ctx) + 2
    {
      rounds := 0;
      HoleShort(hole);
      if child != NIL {
        Links.SetColorStores(Snapshot(), hole.ctx, hole.child, Black);
        NodeOps.SetColor(data, child, Black);
        Links.PlugStores(Snapshot(), hole.ctx, Paint(hole.child, Black));
        tree := Plug(hole.ctx, Paint(hole.child, Black));
      } else if removedColor == Red {
        Links.PlugStores(Snapshot(), hole.ctx, Leaf);
        tree := Plug(hole.ctx, Leaf);
      } else {
        rounds := RunRemoveFix(child, parent, hole.ctx, Leaf);
      }
    }

    /** Takes the node out of the tree, leaving a hole to repair. */
    method Detach(index: Index, ghost ctx: Ctx, ghost t: Tree)
      returns (child: Index, parent: Index, removedColor: Color)
      requires Links.StoresAt(Snapshot(), ctx, t) && t.Node? && index == t.e.slot
      modifies data, this`rootIndex
      ensures var hole := HoleOf(ctx, t);
        && Links.StoresAt(Snapshot(), hole.ctx, hole.child)
        && child == Root(hole.child) && parent == ParentOf(hole.ctx) && removedColor == hole.color
        && (child == NIL <==> hole.child.Leaf?)
        && Links.Owned(hole.child) + Links.OwnedCtx(hole.ctx) <= Links.Owned(t) + Links.OwnedCtx(ctx)
      ensures SameOutside(old(data[..]), data[..], Links.Owned(t) + Links.OwnedCtx(ctx))
    {
      ghost var h := Snapshot();
      Paths.Neighbours(h, ctx, t);
      if data[index].left != NIL && data[index].right != NIL {
        Splicing.RemoveInternalStores(h, ctx, t);
        child, parent, removedColor := RemoveInternalNode(index, ctx, t);
        Splicing.HoleStores(h, Snapshot(), ctx, t);
      } else {
        Splicing.SpliceStores(h, ctx, t);
        rootIndex, child, parent, removedColor := NodeOps.UpdateParentChild(data, rootIndex, index);
      }
    }

    /** Repair, round after round, from a position one black node short. */
    method RunRemoveFix(current: Index, parent: Index, ghost ctx: Ctx, ghost t: Tree) returns (ghost rounds: nat)
      requires Links.StoresAt(Snapshot(), ctx, t) && OneShort(ctx, t) && current == Root(t) && parent == ParentOf(ctx)
      modifies data, this`rootIndex, this`tree
      ensures Stored() && tree == Removal.RemoveFix(ctx, t)
      ensures rounds <= BlackDepth(ctx) + 2
      ensures SameOutside(old(data[..]), data[..], Links.Owned(t) + Links.OwnedCtx(ctx))
    {
      ghost var c, f := ctx, t;
      ghost var all := Links.Owned(t) + Links.OwnedCtx(ctx);
      var node, above := current, parent;
      rounds := 0;
      Bounds.RemoveRoundsBound(ctx, t);
      while true
        invariant Links.StoresAt(Snapshot(), c, f) && OneShort(c, f) && node == Root(f) && above == ParentOf(c)
        invariant Links.Owned(f) + Links.OwnedCtx(c) == all
        invariant SameOutside(old(data[..]), data[..], all)
        invariant Removal.RemoveFix(c, f) == Removal.RemoveFix(ctx, t)
        invariant rounds + Bounds.RemoveRounds(c, f) == Bounds.RemoveRounds(ctx, t)
        decreases BlackDepth(c), SiblingRed(c)
      {
        ghost var s := RemoveStep(c, f);
        rounds := rounds + 1;
        RemoveRound(c, f);
        node, above := RemoveFix(node, above, c, f);
        if node == NIL && above == NIL { break; }
        c, f := s.ctx, s.focus;
      }
      tree := Removal.RemoveFix(ctx, t);
    }
  }

  /** A sound cache is a node of the tree, if it is used at all. */
  lemma SoundIsKnown(tree: RedBlackTree)
    requires tree.MaxSound()
    ensures tree.MaxKnown()
  {
    if tree.tree.Node? { Caching.MaxOwned(tree.tree); }
  }

  /** The position of a node to remove, and the hole its removal leaves. */
  lemma HoleReady(h: Links.Heap, t: Tree, index: Index)
    requires Links.Stores(h, t) && Balanced(t) && index in Links.Owned(t)
    ensures var z := Find(Top, t, index);
      && Links.StoresAt(h, z.ctx, z.t) && z.t.Node? && z.t.e.slot == index
      && Links.Owned(z.t) + Links.OwnedCtx(z.ctx) == Links.Owned(t)
      && var hole := HoleOf(z.ctx, z.t);
      && Balanced(Plug(hole.ctx, NodeAt(hole))) && RemoveAt(t, index) == Fill(hole)
      && RedBlackTree.RoundsWithin(BlackDepth(hole.ctx), 0, t)
  {
    var z := Find(Top, t, index);
    CutAt(t, index);
    Links.PlugStores(h, z.ctx, z.t);
    Links.PlugOwned(z.ctx, z.t);
    HoleOfBalanced(z.ctx, z.t);
    Bounds.HoleDepth(z.ctx, z.t);
  }

  /** What one round leaves to do. */
  lemma RemoveRound(ctx: Ctx, t: Tree)
    requires OneShort(ctx, t)
    ensures !ctx.Top? ==> Sibling(ctx).Node?
    ensures var s := RemoveStep(ctx, t);
      if s.Done? then Removal.RemoveFix(ctx, t) == s.tree && Bounds.RemoveRounds(ctx, t) == 1
      else
        && OneShort(s.ctx, s.focus)
        && Links.Owned(s.focus) + Links.OwnedCtx(s.ctx) == Links.Owned(t) + Links.OwnedCtx(ctx)
        && (BlackDepth(s.ctx) < BlackDepth(ctx)
            || (BlackDepth(s.ctx) == BlackDepth(ctx) && SiblingRed(s.ctx) < SiblingRed(ctx)))
        && Removal.RemoveFix(ctx, t) == Removal.RemoveFix(s.ctx, s.focus)
        && Bounds.RemoveRounds(ctx, t) == 1 + Bounds.RemoveRounds(s.ctx, s.focus)
  {
    RemoveStepBalanced(ctx, t);
    RemoveStepOwned(ctx, t);
  }

  lemma RemoveStepOwned(ctx: Ctx, t: Tree)
    requires OneShort(ctx, t)
    ensures !ctx.Top? ==> Sibling(ctx).Node?
    ensures var s := RemoveStep(ctx, t);
      s.More? ==> Links.Owned(s.focus) + Links.OwnedCtx(s.ctx) == Links.Owned(t) + Links.OwnedCtx(ctx)
  {
    var s := RemoveStep(ctx, t);
    if s.More? {
      if Col(Sibling(ctx)).Red? {
        LoweredInorder(ctx, t);
      } else {
        MendedInorder(ctx, t);
        PlugSameInorder(ctx.up, Join(ctx, t), Mended(ctx, t));
      }
      SameInorderOwned(Plug(s.ctx, s.focus), Plug(ctx, t));
      Links.PlugOwned(s.ctx, s.focus);
      Links.PlugOwned(ctx, t);
    }
  }

  /** What removal keeps. */
  lemma RemoveKeeps(t: Tree, slot: Index)
    requires Links.Distinct(t) && Balanced(t) && slot in Links.Owned(t)
    ensures var t' := RemoveAt(t, slot);
      && Inorder(t') == Without(Inorder(t), slot) && (Sorted(Inorder(t)) ==> Sorted(Inorder(t')))
      && Balanced(t') && (RedBlack(t) ==> RedBlack(t'))
      && MaxSlot(t') == if slot == MaxSlot(t) then LastSlot(Preceding(Inorder(t), slot)) else MaxSlot(t)
  {
    RemoveAtOrder(t, slot);
    RemoveMax(t, slot);
    if Sorted(Inorder(t)) { WithoutSorted(Inorder(t), slot); }
  }

  /** A round of repair works on the same blocks throughout. */
  lemma StepOwned(ctx: Ctx, t: Tree)
    requires t.Node?
    ensures var s := InsertStep(ctx, t);
      s.More? ==> Links.Owned(s.focus) + Links.OwnedCtx(s.ctx) == Links.Owned(t) + Links.OwnedCtx(ctx)
  {
    var s := InsertStep(ctx, t);
    if s.More? {
      InsertStepInorder(ctx, t);
      SameInorderOwned(Plug(s.ctx, s.focus), Plug(ctx, t));
      Links.PlugOwned(s.ctx, s.focus);
      Links.PlugOwned(ctx, t);
    }
  }
}
