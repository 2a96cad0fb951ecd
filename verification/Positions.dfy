/** Finding nodes in a tree, by slot and the rightmost one, and what insertion and removal do
    to the rightmost node. */
module Positions {
  import opened Slots
  import opened Trees
  import opened Links
  import opened Insertion
  import opened Removal

  datatype Zipper = Zipper(ctx: Ctx, t: Tree)

  /** The position of the node stored at `slot`. */
  function Find(ctx: Ctx, t: Tree, slot: Index): (z: Zipper)
    requires slot in Owned(t)
    ensures z.t.Node? && z.t.e.slot == slot
    decreases t
  {
    if t.e.slot == slot then Zipper(ctx, t)
    else if slot in Owned(t.left) then Find(InLeft(ctx, t.e, t.color, t.right), t.left, slot)
    else Find(InRight(ctx, t.left, t.e, t.color), t.right, slot)
  }

  lemma {:induction false} FindPlug(ctx: Ctx, t: Tree, slot: Index)
    requires slot in Owned(t)
    ensures var z := Find(ctx, t, slot); Plug(z.ctx, z.t) == Plug(ctx, t)
    decreases t
  {
    if t.e.slot != slot {
      if slot in Owned(t.left) {
        FindPlug(InLeft(ctx, t.e, t.color, t.right), t.left, slot);
      } else {
        FindPlug(InRight(ctx, t.left, t.e, t.color), t.right, slot);
      }
    }
  }

  // ----- slots and the in-order sequence

  predicate HasSlot(s: seq<Entry>, i: Index) { exists k :: 0 <= k < |s| && s[k].slot == i }

  lemma HasSlotConcat(a: seq<Entry>, b: seq<Entry>, i: Index)
    ensures HasSlot(a + b, i) <==> HasSlot(a, i) || HasSlot(b, i)
  {
    if HasSlot(a, i) {
      var k :| 0 <= k < |a| && a[k].slot == i;
      assert (a + b)[k].slot == i;
    }
    if HasSlot(b, i) {
      var k :| 0 <= k < |b| && b[k].slot == i;
      assert (a + b)[|a| + k].slot == i;
    }
  }

  lemma {:induction false} OwnedIsInorder(t: Tree, i: Index)
    ensures i in Owned(t) <==> HasSlot(Inorder(t), i)
  {
    if t.Node? {
      OwnedIsInorder(t.left, i);
      OwnedIsInorder(t.right, i);
      HasSlotConcat(Inorder(t.left), [t.e], i);
      HasSlotConcat(Inorder(t.left) + [t.e], Inorder(t.right), i);
      assert HasSlot([t.e], i) <==> t.e.slot == i by { assert [t.e][0] == t.e; }
    }
  }

  /** Trees with the same sequence own the same blocks. */
  lemma SameInorderOwned(t: Tree, t': Tree)
    requires Inorder(t) == Inorder(t')
    ensures Owned(t) == Owned(t')
  {
    forall i: Index ensures i in Owned(t) <==> i in Owned(t') {
      OwnedIsInorder(t, i);
      OwnedIsInorder(t', i);
    }
  }

  lemma NoDuplicatesConcat(a: seq<Entry>, b: seq<Entry>)
    requires NoDuplicates(a) && NoDuplicates(b)
    requires forall k, l :: 0 <= k < |a| && 0 <= l < |b| ==> a[k].slot != b[l].slot
    ensures NoDuplicates(a + b)
  {
  }

  lemma {:induction false} InorderInOwned(t: Tree)
    ensures forall k :: 0 <= k < |Inorder(t)| ==> Inorder(t)[k].slot in Owned(t)
  {
    forall k | 0 <= k < |Inorder(t)| ensures Inorder(t)[k].slot in Owned(t) {
      OwnedIsInorder(t, Inorder(t)[k].slot);
    }
  }

  /** Distinct blocks in the tree are distinct slots in the sequence. */
  lemma {:induction false} DistinctInorder(t: Tree)
    requires Distinct(t)
    ensures NoDuplicates(Inorder(t))
  {
    if t.Node? {
      DistinctInorder(t.left);
      DistinctInorder(t.right);
      InorderInOwned(t.left);
      InorderInOwned(t.right);
      NoDuplicatesConcat(Inorder(t.left), [t.e]);
      var a := Inorder(t.left) + [t.e];
      assert forall k :: 0 <= k < |a| ==> a[k].slot in Owned(t.left) + {t.e.slot};
      NoDuplicatesConcat(a, Inorder(t.right));
    }
  }

  lemma {:induction false} InsertFixOwns(ctx: Ctx, t: Tree)
    requires t.Node?
    ensures Owned(InsertFix(ctx, t)) == Owned(t) + OwnedCtx(ctx)
    decreases ctx
  {
    if ctx.Top? {
    } else if ctx.color.Black? {
      PlugOwned(ctx, t);
    } else if ctx.up.Top? {
    } else if Col(Sibling(ctx.up)).Red? {
      InsertFixOwns(ctx.up.up, Recolored(ctx.up, ctx, t));
    } else {
      PlugOwned(ctx.up.up, Rotated(ctx.up, ctx, t));
    }
  }

  // ----- the rightmost node

  function MaxNode(t: Tree): (m: Tree)
    requires t.Node?
    ensures m.Node? && m.right.Leaf?
  {
    if t.right.Leaf? then t else MaxNode(t.right)
  }

  function MaxSlot(t: Tree): Index { if t.Leaf? then NIL else MaxNode(t).e.slot }

  /** The slot of the last entry, NIL when there is none. */
  function LastSlot(s: seq<Entry>): Index { if s == [] then NIL else s[|s| - 1].slot }

  lemma {:induction false} MaxIsLast(t: Tree)
    requires t.Node?
    ensures Inorder(t) != [] && Inorder(t)[|Inorder(t)| - 1] == MaxNode(t).e
    ensures MaxSlot(t) == LastSlot(Inorder(t))
  {
    if t.right.Node? {
      MaxIsLast(t.right);
    }
  }

  lemma BelowParts(a: seq<Entry>, e: Entry, b: seq<Entry>, key: int)
    requires AllBelow(a + [e] + b, key)
    ensures e.Key() < key && AllBelow(b, key)
  {
    var s := a + [e] + b;
    assert s[|a|] == e;
    assert forall i :: 0 <= i < |b| ==> s[|a| + 1 + i] == b[i];
  }

  lemma {:induction false} DescendDown(ctx: Ctx, t: Tree, key: int)
    requires t.Node? || !ctx.Top?
    ensures !Descend(ctx, t, key).Top?
    decreases t
  {
    if t.Node? {
      if key > t.e.Key() {
        DescendDown(InRight(ctx, t.left, t.e, t.color), t.right, key);
      } else {
        DescendDown(InLeft(ctx, t.e, t.color, t.right), t.left, key);
      }
    }
  }

  lemma UpToPivot(a: seq<Entry>, x: Entry, b: seq<Entry>)
    requires Sorted(a + [x] + b)
    ensures forall key :: x.Key() < key ==> AllBelow(a + [x], key)
  {
    var s := a + [x] + b;
    assert s[|a|] == x && forall i :: 0 <= i < |a| ==> s[i] == a[i];
  }

  lemma InPlaceBetween(a: seq<Entry>, b: seq<Entry>, e: Entry)
    requires Sorted(a + b) && AllBelow(a, e.Key())
    ensures a + [e] + b == InsertSorted(a + b, e) <==> AllAtLeast(b, e.Key())
  {
    if AllAtLeast(b, e.Key()) {
      InsertSortedSplit(a, b, e);
    } else {
      var k :| 0 <= k < |b| && b[k].Key() < e.Key();
      assert (a + b)[|a|] == b[0] && (a + b)[|a| + k] == b[k];
      InsertSortedSorted(a + b, e);
      assert (a + [e] + b)[|a|] == e && (a + [e] + b)[|a| + 1 + k] == b[k];
    }
  }

  lemma BelowLast(s: seq<Entry>, key: int)
    requires Sorted(s) && s != []
    ensures AllBelow(s, key) <==> s[|s| - 1].Key() < key
  {
  }

  /** The last entry after an insertion: the new one if it is larger than all, else as before. */
  lemma {:induction false} InsertSortedLast(s: seq<Entry>, e: Entry)
    requires Sorted(s) && s != []
    ensures var r := InsertSorted(s, e);
      r[|r| - 1] == if s[|s| - 1].Key() < e.Key() then e else s[|s| - 1]
  {
    if s[0].Key() < e.Key() && |s| > 1 {
      InsertSortedLast(s[1..], e);
    }
  }

  // ----- removal by slot

  /** The tree without the node stored at `slot`. */
  function RemoveAt(t: Tree, slot: Index): Tree
    requires slot in Owned(t) && Balanced(t)
  {
    FindPlug(Top, t, slot);
    var z := Find(Top, t, slot);
    Remove(z.ctx, z.t)
  }

  /** The entries before the one stored at `slot`. */
  function Preceding(s: seq<Entry>, slot: Index): seq<Entry> {
    if s == [] || s[0].slot == slot then [] else [s[0]] + Preceding(s[1..], slot)
  }

  lemma {:induction false} PrecedingSplit(a: seq<Entry>, e: Entry, b: seq<Entry>)
    requires forall i :: 0 <= i < |a| ==> a[i].slot != e.slot
    ensures Preceding(a + [e] + b, e.slot) == a
  {
    if a == [] {
      assert a + [e] + b == [e] + b;
    } else {
      assert (a + [e] + b)[1..] == a[1..] + [e] + b;
      PrecedingSplit(a[1..], e, b);
    }
  }

  lemma NodeInorder(ctx: Ctx, t: Tree)
    requires t.Node?
    ensures Inorder(Plug(ctx, t)) == (Before(ctx) + Inorder(t.left)) + [t.e] + (Inorder(t.right) + After(ctx))
  {
    PlugInorder(ctx, t);
    Outward(Before(ctx), Inorder(t.left), [t.e], Inorder(t.right), After(ctx));
  }

  /** Cutting the sequence at the node stored at `slot`. */
  lemma CutAt(t: Tree, slot: Index)
    requires Distinct(t) && slot in Owned(t)
    ensures var z := Find(Top, t, slot);
      var a, b := Before(z.ctx) + Inorder(z.t.left), Inorder(z.t.right) + After(z.ctx);
      && Inorder(t) == a + [z.t.e] + b && Plug(z.ctx, z.t) == t
      && Without(Inorder(t), slot) == a + b && Preceding(Inorder(t), slot) == a
  {
    FindPlug(Top, t, slot);
    var z := Find(Top, t, slot);
    var a, b := Before(z.ctx) + Inorder(z.t.left), Inorder(z.t.right) + After(z.ctx);
    NodeInorder(z.ctx, z.t);
    DistinctInorder(t);
    NotBefore(a, z.t.e, b);
    WithoutSplit(a, z.t.e, b);
    PrecedingSplit(a, z.t.e, b);
  }

  lemma NotBefore(a: seq<Entry>, e: Entry, b: seq<Entry>)
    requires NoDuplicates(a + [e] + b)
    ensures forall i :: 0 <= i < |a| ==> a[i].slot != e.slot
  {
    var s := a + [e] + b;
    assert s[|a|] == e;
    assert forall i :: 0 <= i < |a| ==> s[i] == a[i];
  }

  /** Removal by slot takes exactly that entry out and keeps the tree balanced. */
  lemma RemoveAtOrder(t: Tree, slot: Index)
    requires Distinct(t) && slot in Owned(t) && Balanced(t)
    ensures Inorder(RemoveAt(t, slot)) == Without(Inorder(t), slot)
    ensures Balanced(RemoveAt(t, slot)) && (RedBlack(t) ==> RedBlack(RemoveAt(t, slot)))
  {
    CutAt(t, slot);
    var z := Find(Top, t, slot);
    RemoveOrder(z.ctx, z.t);
    RemoveBalanced(z.ctx, z.t);
    if RedBlack(t) {
      RemoveRedBlack(z.ctx, z.t);
    }
  }

  /** The rightmost node after an insertion, from the one before. */
  lemma InsertMax(t: Tree, e: Entry)
    requires Sorted(Inorder(t))
    ensures MaxSlot(Insert(t, e)) == if t.Leaf? || MaxNode(t).e.Key() < e.Key() then e.slot else MaxSlot(t)
  {
    InsertOrder(t, e);
    var t' := Insert(t, e);
    assert t'.Node? by { assert Inorder(t') != []; }
    MaxIsLast(t');
    if t.Node? {
      MaxIsLast(t);
      InsertSortedLast(Inorder(t), e);
    }
  }

  /** The rightmost node after a removal. */
  lemma RemoveMax(t: Tree, slot: Index)
    requires Distinct(t) && slot in Owned(t) && Balanced(t)
    ensures MaxSlot(RemoveAt(t, slot))
         == if slot == MaxSlot(t) then LastSlot(Preceding(Inorder(t), slot)) else MaxSlot(t)
  {
    var z, t' := Find(Top, t, slot), RemoveAt(t, slot);
    CutAt(t, slot);
    RemoveAtOrder(t, slot);
    DistinctInorder(t);
    MaxIsLast(t);
    var s, a := Inorder(t), Preceding(Inorder(t), slot);
    if t'.Node? { MaxIsLast(t'); }
    assert s[|a|].slot == slot;
    if |a| < |s| - 1 {
      assert s[|a|].slot != s[|s| - 1].slot;
    }
  }

  lemma {:induction false} HoldsPayloads(m: Mem, t: Tree, parent: Index, k: nat)
    requires Holds(m, t, parent) && k < |Inorder(t)|
    ensures var e := Inorder(t)[k]; e.slot < |m| && m[e.slot].value == e.value && m[e.slot].payloadType == e.payloadType
    decreases t
  {
    var l := |Inorder(t.left)|;
    if k < l {
      HoldsPayloads(m, t.left, t.e.slot, k);
    } else if k > l {
      HoldsPayloads(m, t.right, t.e.slot, k - l - 1);
    }
  }

  lemma HoldsEntries(m: Mem, t: Tree, parent: Index)
    requires Holds(m, t, parent)
    ensures forall j :: 0 <= j < |Inorder(t)| ==> HoldsEntry(m, Inorder(t)[j])
  {
    forall j | 0 <= j < |Inorder(t)| ensures HoldsEntry(m, Inorder(t)[j]) {
      HoldsPayloads(m, t, parent, j);
    }
  }
}
