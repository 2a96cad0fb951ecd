/** The left-leaning tree over the same shared array; insertion only. The recursion passes
    link writes up through ancestors whose own links it has not repaired yet, so each step is
    proved at its position in the whole tree. */
module LLRBs {
  import opened Slots
  import opened Trees
  import Links
  import Caching
  import LeaningBlocks
  import LeftLeaning
  import Positions
  import NodeOps
  import Paths

  class LLRB {
    const data: array<Slot>
    var rootIndex: Index
    var maxIndex: Index
    ghost var tree: Tree

    ghost function Snapshot(): Links.Heap
      reads this, data
    {
      Links.Heap(data[..], rootIndex)
    }

    ghost function Contents(): seq<Entry>
      reads this
    {
      Inorder(tree)
    }

    ghost predicate Stored()
      reads this, data
    {
      Links.Stores(Snapshot(), tree)
    }

    /** Red-black with a black root, no red right link, keys in order. */
    ghost predicate Whole()
      reads this, data
    {
      Stored() && RedBlack(tree) && LeftLeaning.Leaning(tree) && Sorted(Contents())
    }

    /** And the cached maximum is exact. */
    ghost predicate Valid()
      reads this, data
    {
      Whole() && maxIndex == Positions.MaxSlot(tree)
    }

    constructor (data: array<Slot>, rootIndex: Index, maxIndex: Index, ghost tree: Tree)
      ensures this.data == data && this.rootIndex == rootIndex && this.maxIndex == maxIndex && this.tree == tree
    {
      this.data, this.rootIndex, this.maxIndex, this.tree := data, rootIndex, maxIndex, tree;
    }

    /** After a rotation of `current`, its new parent takes its colour and it turns red. */
    method SwapColorUp(current: Index) returns (top: Index)
      requires current < data.Length <= NIL && data[current].parent < data.Length
      modifies data
      ensures top == old(data[current].parent)
      ensures var h := Links.SetColor(old(Snapshot()), old(data[current].parent), old(data[current].color));
        Snapshot() == Links.SetColor(h, current, Red)
    {
      top := data[current].parent;
      NodeOps.SetColor(data, top, data[current].color);
      NodeOps.SetColor(data, current, Red);
    }

    method Lean(current: Index, ghost ctx: Ctx, ghost t: Tree) returns (top: Index)
      requires Links.StoresAt(Snapshot(), ctx, t) && t.Node? && current == t.e.slot
      modifies data, this`rootIndex
      ensures var t' := LeftLeaning.Lean(t); Links.StoresAt(Snapshot(), ctx, t') && top == Root(t')
      ensures SameOutside(old(data[..]), data[..], Links.Owned(t) + Links.OwnedCtx(ctx))
    {
      ghost var h := Snapshot();
      Paths.ChildrenRead(h, ctx, t);
      top := current;
      var leftColor := NodeOps.GetColor(data, data[current].left);
      var right := NodeOps.GetRightIndex(data, current);
      var rightColor := NodeOps.GetColor(data, right);
      if rightColor == Red && leftColor == Black {
        LeaningBlocks.LeanStores(h, ctx, t);
        top := RotateUp(current, true);
      }
    }

    /** Rotates a child above `current`, in its colour. */
    method RotateUp(current: Index, left: bool) returns (top: Index)
      requires data.Length <= NIL && Paths.Bounded(data[..], current)
      requires var child := if left then data[current].right else data[current].left;
        child != NIL && Paths.Bounded(data[..], child)
      requires var h1 := if left then Links.RotateLeft(Snapshot(), current) else Links.RotateRight(Snapshot(), current);
        h1.mem[current].parent < data.Length
      modifies data, this`rootIndex
      ensures var h := old(Snapshot());
        var h1 := if left then Links.RotateLeft(h, current) else Links.RotateRight(h, current);
        Snapshot() == LeaningBlocks.ColorUp(h1, current) && top == h1.mem[current].parent
    {
      if left {
        rootIndex := NodeOps.RotateLeft(data, rootIndex, current);
      } else {
        rootIndex := NodeOps.RotateRight(data, rootIndex, current);
      }
      top := SwapColorUp(current);
    }

    method Unstack(current: Index, ghost ctx: Ctx, ghost t: Tree) returns (top: Index)
      requires Links.StoresAt(Snapshot(), ctx, t) && t.Node? && current == t.e.slot
      modifies data, this`rootIndex
      ensures var t' := LeftLeaning.Unstack(t); Links.StoresAt(Snapshot(), ctx, t') && top == Root(t')
      ensures SameOutside(old(data[..]), data[..], Links.Owned(t) + Links.OwnedCtx(ctx))
    {
      ghost var h := Snapshot();
      Paths.ChildrenRead(h, ctx, t);
      top := current;
      var left := data[current].left;
      var leftColor := NodeOps.GetColor(data, left);
      var leftLeft := NodeOps.GetLeftIndex(data, left);
      var leftLeftColor := NodeOps.GetColor(data, leftLeft);
      if leftColor == Red && leftLeftColor == Red {
        LeaningBlocks.UnstackStores(h, ctx, t);
        top := RotateUp(current, false);
      }
    }

    method ToggleColor(index: Index)
      requires NodeOps.LinkOk(data, index) && data.Length <= NIL
      modifies data
      ensures Snapshot() == LeaningBlocks.ToggleColor(old(Snapshot()), index)
    {
      if index != NIL {
        var color := NodeOps.GetColor(data, index);
        NodeOps.SetColor(data, index, if color == Black then Red else Black);
      }
    }

    /** Flips the colour of the node and of both its children. */
    method ColorFlip(index: Index)
      requires data.Length <= NIL && Paths.Bounded(data[..], index)
      modifies data
      ensures Snapshot() == LeaningBlocks.ColorFlip(old(Snapshot()), index)
    {
      var left := data[index].left;
      ToggleColor(left);
      var right := data[index].right;
      ToggleColor(right);
      ToggleColor(index);
    }

    method Hand(current: Index, ghost ctx: Ctx, ghost t: Tree)
      requires Links.StoresAt(Snapshot(), ctx, t) && t.Node? && current == t.e.slot
      modifies data
      ensures Links.StoresAt(Snapshot(), ctx, LeftLeaning.Hand(t))
      ensures SameOutside(old(data[..]), data[..], Links.Owned(t) + Links.OwnedCtx(ctx))
    {
      ghost var h := Snapshot();
      Paths.ChildrenRead(h, ctx, t);
      var leftColor := NodeOps.GetColor(data, data[current].left);
      var rightColor := NodeOps.GetColor(data, data[current].right);
      if leftColor == Red && rightColor == Red {
        LeaningBlocks.ColorFlipStores(h, ctx, t);
        ColorFlip(current);
      }
    }

    /** Inserts below `current`; NIL, except that an empty subtree answers with the new
        index for the caller to link. */
    method InsertRecursive(current: Index, toInsert: Index, ghost ctx: Ctx, ghost t: Tree, ghost e: Entry)
      returns (link: Index)
      requires Links.StoresAt(Snapshot(), ctx, t) && current == Root(t) && (current == NIL <==> t.Leaf?)
      requires toInsert == e.slot && toInsert < data.Length && toInsert !in Links.Owned(t) + Links.OwnedCtx(ctx)
      requires data[toInsert] == Slot(NIL, NIL, NIL, Red, e.payloadType, e.value)
      modifies data, this`rootIndex
      ensures if t.Leaf? then link == toInsert && Snapshot() == old(Snapshot())
        else link == NIL && Links.StoresAt(Snapshot(), ctx, LeftLeaning.InsertBelow(t, e))
      ensures SameOutside(old(data[..]), data[..], Links.Owned(t) + Links.OwnedCtx(ctx) + {toInsert})
      decreases t, 2
    {
      if current == NIL { return toInsert; }
      ghost var t1 := InsertIntoSide(current, toInsert, ctx, t, e);
      LeaningBlocks.GrownOwned(t, t1, ctx, e);
      RepairUp(current, ctx, t1);
      return NIL;
    }

    /** Into the side that the keys select. */
    method InsertIntoSide(current: Index, toInsert: Index, ghost ctx: Ctx, ghost t: Tree, ghost e: Entry)
      returns (ghost t1: Tree)
      requires Links.StoresAt(Snapshot(), ctx, t) && t.Node? && current == t.e.slot
      requires toInsert == e.slot && toInsert < data.Length && toInsert !in Links.Owned(t) + Links.OwnedCtx(ctx)
      requires data[toInsert] == Slot(NIL, NIL, NIL, Red, e.payloadType, e.value)
      modifies data, this`rootIndex
      ensures t1 == if e.Key() > t.e.Key() then t.(right := LeftLeaning.InsertBelow(t.right, e))
                    else t.(left := LeftLeaning.InsertBelow(t.left, e))
      ensures Links.StoresAt(Snapshot(), ctx, t1)
      ensures SameOutside(old(data[..]), data[..], Links.Owned(t) + Links.OwnedCtx(ctx) + {toInsert})
      decreases t, 1
    {
      Paths.ChildrenRead(Snapshot(), ctx, t);
      if data[toInsert].value.key > data[current].value.key {
        InsertIntoRight(current, toInsert, ctx, t, e);
        t1 := t.(right := LeftLeaning.InsertBelow(t.right, e));
      } else {
        InsertIntoLeft(current, toInsert, ctx, t, e);
        t1 := t.(left := LeftLeaning.InsertBelow(t.left, e));
      }
    }

    /** Right branch: insert below, then link a new leaf if that is what came back. */
    method InsertIntoRight(current: Index, toInsert: Index, ghost ctx: Ctx, ghost t: Tree, ghost e: Entry)
      requires Links.StoresAt(Snapshot(), ctx, t) && t.Node? && current == t.e.slot
      requires Paths.NephewRead(data[..], t.right) && current < data.Length && data[current].right == Root(t.right)
      requires toInsert == e.slot && toInsert < data.Length && toInsert !in Links.Owned(t) + Links.OwnedCtx(ctx)
      requires data[toInsert] == Slot(NIL, NIL, NIL, Red, e.payloadType, e.value)
      modifies data, this`rootIndex
      ensures Links.StoresAt(Snapshot(), ctx, t.(right := LeftLeaning.InsertBelow(t.right, e)))
      ensures SameOutside(old(data[..]), data[..], Links.Owned(t) + Links.OwnedCtx(ctx) + {toInsert})
      decreases t, 0
    {
      ghost var below := InRight(ctx, t.left, t.e, t.color);
      Links.Refocus(Snapshot(), below, t.right);
      var newRight := InsertRecursive(data[current].right, toInsert, below, t.right, e);
      if newRight != NIL {
        LinkRight(current, newRight, ctx, t, e);
      }
      Links.Refocus(Snapshot(), below, LeftLeaning.InsertBelow(t.right, e));
    }

    method LinkRight(current: Index, newRight: Index, ghost ctx: Ctx, ghost t: Tree, ghost e: Entry)
      requires t.Node? && t.right.Leaf? && current == t.e.slot < data.Length && newRight == e.slot < data.Length
      requires Links.StoresAt(Snapshot(), InRight(ctx, t.left, t.e, t.color), Leaf)
      requires e.slot !in Links.Owned(t) + Links.OwnedCtx(ctx)
      requires data[newRight] == Slot(NIL, NIL, NIL, Red, e.payloadType, e.value)
      modifies data
      ensures Links.StoresAt(Snapshot(), InRight(ctx, t.left, t.e, t.color), Node(Leaf, e, Red, Leaf))
      ensures SameOutside(old(data[..]), data[..], {current, newRight})
    {
      LeaningBlocks.HangRight(Snapshot(), ctx, t, e);
      NodeOps.SetParentIndex(data, newRight, current);
      NodeOps.SetRightIndex(data, current, newRight);
    }

    method InsertIntoLeft(current: Index, toInsert: Index, ghost ctx: Ctx, ghost t: Tree, ghost e: Entry)
      requires Links.StoresAt(Snapshot(), ctx, t) && t.Node? && current == t.e.slot
      requires Paths.NephewRead(data[..], t.left) && current < data.Length && data[current].left == Root(t.left)
      requires toInsert == e.slot && toInsert < data.Length && toInsert !in Links.Owned(t) + Links.OwnedCtx(ctx)
      requires data[toInsert] == Slot(NIL, NIL, NIL, Red, e.payloadType, e.value)
      modifies data, this`rootIndex
      ensures Links.StoresAt(Snapshot(), ctx, t.(left := LeftLeaning.InsertBelow(t.left, e)))
      ensures SameOutside(old(data[..]), data[..], Links.Owned(t) + Links.OwnedCtx(ctx) + {toInsert})
      decreases t, 0
    {
      ghost var below := InLeft(ctx, t.e, t.color, t.right);
      Links.Refocus(Snapshot(), below, t.left);
      var newLeft := InsertRecursive(data[current].left, toInsert, below, t.left, e);
      if newLeft != NIL {
        LeaningBlocks.HangLeft(Snapshot(), ctx, t, e);
        NodeOps.SetLeftIndex(data, current, newLeft);
        NodeOps.SetParentIndex(data, newLeft, current);
      }
      Links.Refocus(Snapshot(), below, LeftLeaning.InsertBelow(t.left, e));
    }

    /** The three repairs, in the order they are tried. */
    method RepairUp(current: Index, ghost ctx: Ctx, ghost t: Tree)
      requires Links.StoresAt(Snapshot(), ctx, t) && t.Node? && current == t.e.slot
      modifies data, this`rootIndex
      ensures Links.StoresAt(Snapshot(), ctx, LeftLeaning.FixUp(t))
      ensures SameOutside(old(data[..]), data[..], Links.Owned(t) + Links.OwnedCtx(ctx))
    {
      LeaningBlocks.FixUpOwned(t);
      var leaned := Lean(current, ctx, t);
      var unstacked := Unstack(leaned, ctx, LeftLeaning.Lean(t));
      Hand(unstacked, ctx, LeftLeaning.Unstack(LeftLeaning.Lean(t)));
    }

    /** Insert and rebalance, with any node of the tree cached. With none cached on a tree that
        is not empty the insertion is done, but does not complete: comparing with the cached
        node reads beyond the array. */
    method Insert(index: Index, value: Payload) returns (completed: bool)
      requires Whole() && (tree.Leaf? || maxIndex == NIL || maxIndex in Links.Owned(tree))
      requires index < data.Length && index !in Links.Owned(tree)
      modifies this, data
      ensures Whole() && tree == LeftLeaning.Insert(old(tree), Entry(index, 0, value))
      ensures Contents() == InsertSorted(old(Contents()), Entry(index, 0, value))
      ensures SameOutside(old(data[..]), data[..], Links.Owned(old(tree)) + {index})
      ensures completed <==> old(tree.Leaf? || maxIndex != NIL)
      ensures maxIndex == Caching.NextMax(old(tree), old(maxIndex), Entry(index, 0, value))
      ensures Valid() <==> old(tree.Leaf? || maxIndex == Positions.MaxSlot(tree)
        || (maxIndex != NIL && Positions.MaxNode(tree).e.Key() < value.key))
    {
      Caching.NilUnowned(Snapshot(), tree);
      LeaningBlocks.LeaningKeeps(tree, Entry(index, 0, value));
      LeaningBlocks.LeaningCache(tree, maxIndex, Entry(index, 0, value));
      completed := InsertAndCache(index, value);
    }

    method InsertAndCache(index: Index, value: Payload) returns (completed: bool)
      requires Stored() && (tree.Leaf? || maxIndex == NIL || maxIndex in Links.Owned(tree)) && NIL !in Links.Owned(tree)
      requires index < data.Length && index !in Links.Owned(tree)
      requires Inorder(LeftLeaning.Insert(tree, Entry(index, 0, value)))
        == InsertSorted(Contents(), Entry(index, 0, value))
      modifies this, data
      ensures Stored() && tree == LeftLeaning.Insert(old(tree), Entry(index, 0, value))
      ensures completed <==> old(tree.Leaf? || maxIndex != NIL)
      ensures maxIndex == Caching.NextMax(old(tree), old(maxIndex), Entry(index, 0, value))
      ensures SameOutside(old(data[..]), data[..], Links.Owned(old(tree)) + {index})
    {
      ghost var e, m := Entry(index, 0, value), data[..];
      NodeOps.Write(data, index, Slot(NIL, NIL, NIL, Red, 0, value));
      if rootIndex == NIL {
        rootIndex, maxIndex := index, index;
        Links.LeafStores(Snapshot(), e, Red);
        PaintRoot(LeftLeaning.InsertBelow(tree, e));
        return true;
      }
      Links.HoldsFrame(m, data[..], tree, NIL);
      GrowTree(index, value);
      completed := RaiseMax(old(tree), index, value);
    }

    /** Caches the new node if it is larger than the cached one; with none cached it fails. */
    method RaiseMax(ghost t: Tree, index: Index, value: Payload) returns (completed: bool)
      requires Stored() && t.Node? && (maxIndex == NIL || maxIndex in Links.Owned(t)) && NIL !in Links.Owned(t)
      requires Contents() == InsertSorted(Inorder(t), Entry(index, 0, value))
      modifies this`maxIndex
      ensures completed <==> old(maxIndex) != NIL
      ensures maxIndex == Caching.NextMax(t, old(maxIndex), Entry(index, 0, value))
    {
      if maxIndex == NIL { return false; }
      LeaningBlocks.OldValueKept(data[..], t, tree, Entry(index, 0, value), maxIndex);
      if value.key > data[maxIndex].value.key {
        maxIndex := index;
      }
      return true;
    }

    /** The recursive insertion into a tree that is not empty. */
    method GrowTree(index: Index, value: Payload)
      requires Stored() && tree.Node? && index < data.Length && index !in Links.Owned(tree)
      requires data[index] == Slot(NIL, NIL, NIL, Red, 0, value)
      modifies data, this`rootIndex, this`tree
      ensures Stored() && tree == LeftLeaning.Insert(old(tree), Entry(index, 0, value))
      ensures SameOutside(old(data[..]), data[..], Links.Owned(old(tree)) + {index})
    {
      ghost var e := Entry(index, 0, value);
      Links.PlugStores(Snapshot(), Top, tree);
      LeaningBlocks.InsertBelowOwned(tree, e);
      var unused := InsertRecursive(rootIndex, index, Top, tree, e);
      PaintRoot(LeftLeaning.InsertBelow(tree, e));
    }

    method PaintRoot(ghost t: Tree)
      requires Links.StoresAt(Snapshot(), Top, t) && t.Node?
      modifies data, this`tree
      ensures Stored() && tree == Paint(t, Black) && SameOutside(old(data[..]), data[..], Links.Owned(t))
    {
      Paths.ChildrenRead(Snapshot(), Top, t);
      Links.SetColorStores(Snapshot(), Top, t, Black);
      NodeOps.SetColor(data, rootIndex, Black);
      tree := Paint(t, Black);
    }
  }
}
