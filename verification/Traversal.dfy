/** Walking a stored tree: predecessor, successor, maximum and lookup. */
module Traversal {
  import opened Slots
  import opened Trees
  import opened Links
  import opened Removal
  import opened Positions
  import Paths

  /** `m` still has what a walk needs of the tree stored in `m0`: every left and
      parent link, and the whole block of each of the first `k` entries. */
  predicate Walkable(m: Mem, m0: Mem, t: Tree, k: nat) {
    && |m| == |m0|
    && (forall i: Index :: i in Owned(t) && i < |m| ==> m[i].left == m0[i].left && m[i].parent == m0[i].parent)
    && (forall j :: 0 <= j < k && j < |Inorder(t)| && Inorder(t)[j].slot < |m| ==>
          m[Inorder(t)[j].slot] == m0[Inorder(t)[j].slot])
  }

  lemma {:induction false} InorderNode(ctx: Ctx, t: Tree)
    requires t.Node?
    ensures var s, k := Inorder(Plug(ctx, t)), |Before(ctx)| + |Inorder(t.left)|;
      && k < |s| && s[k] == t.e && s[..k] == Before(ctx) + Inorder(t.left)
  {
    PlugInorder(ctx, t);
    Outward(Before(ctx), Inorder(t.left), [t.e], Inorder(t.right), After(ctx));
    var a := Before(ctx) + Inorder(t.left);
    assert (a + [t.e] + (Inorder(t.right) + After(ctx)))[..|a|] == a;
  }

  /** Looking an entry up by its slot leads back to its position. */
  lemma FindPosition(t: Tree, k: nat)
    requires Distinct(t) && k < |Inorder(t)|
    ensures var i := Inorder(t)[k].slot;
      && i in Owned(t)
      && var z := Find(Top, t, i);
      && z.t.e == Inorder(t)[k] && Inorder(t)[..k] == Before(z.ctx) + Inorder(z.t.left)
  {
    var s := Inorder(t);
    InorderInOwned(t);
    DistinctInorder(t);
    var z := Find(Top, t, s[k].slot);
    FindPlug(Top, t, s[k].slot);
    InorderNode(z.ctx, z.t);
    var k' := |Before(z.ctx)| + |Inorder(z.t.left)|;
    SamePlace(s, k, k');
  }

  lemma SamePlace(s: seq<Entry>, k: nat, k': nat)
    requires NoDuplicates(s) && k < |s| && k' < |s| && s[k].slot == s[k'].slot
    ensures k == k'
  {
  }

  /** The entry at position `k` of a stored tree, taken apart at its node. */
  lemma NodeAtPosition(h: Heap, t: Tree, k: nat)
    requires Stores(h, t) && k < |Inorder(t)|
    ensures var i := Inorder(t)[k].slot;
      && i in Owned(t) && i < |h.mem|
      && var z := Find(Top, t, i);
      && StoresAt(h, z.ctx, z.t) && Owned(z.t) + OwnedCtx(z.ctx) == Owned(t)
      && z.t.e == Inorder(t)[k] && Inorder(t)[..k] == Before(z.ctx) + Inorder(z.t.left)
  {
    FindPosition(t, k);
    var z := Find(Top, t, Inorder(t)[k].slot);
    FindPlug(Top, t, z.t.e.slot);
    PlugStores(h, z.ctx, z.t);
    PlugOwned(z.ctx, z.t);
  }

  /** Right links down to the end. */
  method RightmostBelow(data: array<Slot>, start: Index, ghost t: Tree, ghost parent: Index) returns (r: Index)
    requires data.Length <= NIL && t.Node? && start == t.e.slot && Holds(data[..], t, parent)
    ensures r == MaxNode(t).e.slot
  {
    r := start;
    ghost var sub, p := t, parent;
    while data[r].right != NIL
      invariant sub.Node? && r == sub.e.slot && Holds(data[..], sub, p) && MaxNode(sub) == MaxNode(t)
      decreases sub
    {
      assert Holds(data[..], sub.right, sub.e.slot);
      r := data[r].right;
      sub, p := sub.right, sub.e.slot;
    }
    assert Holds(data[..], sub.right, sub.e.slot);
  }

  method LookupMaxIndex(data: array<Slot>, root: Index, ghost t: Tree) returns (r: Index)
    requires Stores(Heap(data[..], root), t)
    ensures r == MaxSlot(t)
  {
    if root == NIL { return NIL; }
    r := RightmostBelow(data, root, t, NIL);
  }

  /** The parent's links, and the whole seen from there. */
  lemma ClimbStep(h: Heap, c: Ctx, f: Tree)
    requires StoresAt(h, c, f) && f.Node? && f.e.slot != h.root
    ensures !c.Top? && c.e.slot in OwnedCtx(c) && c.e.slot < |h.mem| <= NIL
    ensures (h.mem[c.e.slot].left == f.e.slot <==> c.InLeft?) && h.mem[c.e.slot].parent == ParentOf(c.up)
    ensures StoresAt(h, c.up, Join(c, f)) && (c.e.slot == h.root <==> c.up.Top?)
    ensures Owned(Join(c, f)) + OwnedCtx(c.up) == Owned(f) + OwnedCtx(c)
    ensures c.InLeft? ==> Before(c.up) == Before(c)
  {
    Paths.Neighbours(h, c, f);
    Paths.Up(h, c, f);
    Paths.Neighbours(h, c.up, Join(c, f));
  }

  /** Parent links up, past every node this is to the left of. */
  method ClimbLeft(data: array<Slot>, root: Index, index: Index, ghost m0: Mem, ghost ctx: Ctx, ghost t: Tree)
    returns (r: Index)
    requires StoresAt(Heap(m0, root), ctx, t) && t.Node? && t.e.slot == index && data.Length == |m0|
    requires forall i: Index :: i in Owned(t) + OwnedCtx(ctx) && i < data.Length ==>
      data[i].left == m0[i].left && data[i].parent == m0[i].parent
    ensures r == LastSlot(Before(ctx))
  {
    ghost var h := Heap(m0, root);
    ghost var c, f := ctx, t;
    Paths.Neighbours(h, c, f);
    var current := index;
    r := data[index].parent;
    while current != root
      invariant StoresAt(h, c, f) && f.Node? && f.e.slot == current && r == ParentOf(c)
      invariant current == root <==> c.Top?
      invariant Owned(f) + OwnedCtx(c) == Owned(t) + OwnedCtx(ctx) && Before(c) == Before(ctx)
      decreases Depth(c)
    {
      ClimbStep(h, c, f);
      if data[r].left != current { break; }
      c, f := c.up, Join(c, f);
      current := r;
      r := data[r].parent;
    }
    if current == root { return NIL; }
    assert c.InRight?;
  }

  /** The predecessor is the rightmost node on the left, or else the last node passed on the right. */
  lemma Predecessor(h: Heap, m: Mem, t: Tree, k: nat)
    requires Stores(h, t) && Walkable(m, h.mem, t, k) && k < |Inorder(t)|
    ensures var i := Inorder(t)[k].slot;
      && i in Owned(t) && i < |m|
      && var z := Find(Top, t, i);
      && Holds(m, z.t.left, i) && m[i].left == Root(z.t.left) && (m[i].left == NIL <==> z.t.left.Leaf?)
      && (if k == 0 then NIL else Inorder(t)[k - 1].slot)
         == if z.t.left.Node? then MaxNode(z.t.left).e.slot else LastSlot(Before(z.ctx))
  {
    NodeAtPosition(h, t, k);
    var z := Find(Top, t, Inorder(t)[k].slot);
    WalkableBelow(h, m, t, k);
    Paths.Neighbours(h, z.ctx, z.t);
    LastOfPrefix(Inorder(t), k, Before(z.ctx), Inorder(z.t.left));
    if z.t.left.Node? {
      MaxIsLast(z.t.left);
    }
  }

  lemma LastOfPrefix(s: seq<Entry>, k: nat, a: seq<Entry>, b: seq<Entry>)
    requires k <= |s| && s[..k] == a + b
    ensures (if k == 0 then NIL else s[k - 1].slot) == if b != [] then LastSlot(b) else LastSlot(a)
  {
    if k > 0 {
      assert s[k - 1] == s[..k][k - 1];
    }
  }

  /** The predecessor of the entry at position `k`; NIL at the start and for NIL. */
  method GetNextLowerIndex(data: array<Slot>, root: Index, index: Index, ghost m0: Mem, ghost t: Tree, ghost k: nat)
    returns (r: Index)
    requires Stores(Heap(m0, root), t) && Walkable(data[..], m0, t, k)
    requires index == NIL || (k < |Inorder(t)| && Inorder(t)[k].slot == index)
    ensures r == if index == NIL || k == 0 then NIL else Inorder(t)[k - 1].slot
  {
    if index == NIL { return NIL; }
    ghost var h := Heap(m0, root);
    NodeAtPosition(h, t, k);
    ghost var z := Find(Top, t, index);
    Predecessor(h, data[..], t, k);
    if data[index].left != NIL {
      r := RightmostBelow(data, data[index].left, z.t.left, index);
    } else {
      r := ClimbLeft(data, root, index, m0, z.ctx, z.t);
    }
  }

  /** Everything in the left subtree of the entry at position `k` is still whole. */
  lemma WalkableBelow(h: Heap, m: Mem, t: Tree, k: nat)
    requires Stores(h, t) && Walkable(m, h.mem, t, k) && k < |Inorder(t)|
    requires Inorder(t)[k].slot in Owned(t)
    ensures var z := Find(Top, t, Inorder(t)[k].slot); Holds(m, z.t.left, z.t.e.slot)
  {
    NodeAtPosition(h, t, k);
    var z := Find(Top, t, Inorder(t)[k].slot);
    var b, l := Before(z.ctx), Inorder(z.t.left);
    forall i: Index | i in Owned(z.t.left) && i < |m| ensures m[i] == h.mem[i] {
      OwnedIsInorder(z.t.left, i);
      WholeBefore(m, h.mem, Inorder(t), k, b, l, i);
    }
    assert Holds(h.mem, z.t.left, z.t.e.slot);
    HoldsFrame(h.mem, m, z.t.left, z.t.e.slot);
  }

  lemma WholeBefore(m: Mem, m0: Mem, s: seq<Entry>, k: nat, b: seq<Entry>, l: seq<Entry>, i: Index)
    requires k <= |s| && s[..k] == b + l && HasSlot(l, i) && i < |m| == |m0|
    requires forall j :: 0 <= j < k && j < |s| && s[j].slot < |m| ==> m[s[j].slot] == m0[s[j].slot]
    ensures m[i] == m0[i]
  {
    var p :| 0 <= p < |l| && l[p].slot == i;
    assert s[|b| + p] == s[..k][|b| + p] == l[p];
  }

  /** Left links below the right child: the node that replaces an internal one. */
  method GetNextHigherIndex(data: array<Slot>, index: Index, ghost t: Tree, ghost parent: Index) returns (r: Index)
    requires data.Length <= NIL && t.Node? && t.right.Node? && index == t.e.slot && Holds(data[..], t, parent)
    ensures r == MinNode(t.right).e.slot
  {
    assert Holds(data[..], t.right, t.e.slot);
    r := data[index].right;
    ghost var sub, p := t.right, t.e.slot;
    while data[r].left != NIL
      invariant sub.Node? && r == sub.e.slot && Holds(data[..], sub, p) && MinNode(sub) == MinNode(t.right)
      decreases sub
    {
      assert Holds(data[..], sub.left, sub.e.slot);
      r := data[r].left;
      sub, p := sub.left, sub.e.slot;
    }
    assert Holds(data[..], sub.left, sub.e.slot);
  }

  // ----- lookup

  /** Some entry of `s` stored at `i` has exactly this value. */
  predicate FoundAt(s: seq<Entry>, i: Index, value: Payload) {
    exists k :: 0 <= k < |s| && s[k].slot == i && s[k].value == value
  }

  predicate Absent(s: seq<Entry>, value: Payload) {
    forall k :: 0 <= k < |s| ==> s[k].value != value
  }

  /** A slot holding an equal value if there is one, NIL otherwise. Entries ordered
      the same but not equal may lie on both sides, so both are searched. */
  method LookupIndex(data: array<Slot>, root: Index, value: Payload, ghost t: Tree, ghost parent: Index)
    returns (r: Index)
    requires data.Length <= NIL && root == Root(t) && Holds(data[..], t, parent) && Sorted(Inorder(t))
    ensures if r == NIL then Absent(Inorder(t), value) else FoundAt(Inorder(t), r, value)
    ensures r != NIL ==> r < data.Length && data[r].value == value
    ensures r == NIL ==> forall k :: 0 <= k < |Inorder(t)| ==> Inorder(t)[k].value != value
    decreases t
  {
    var current := root;
    ghost var sub, p := t, parent;
    while current != NIL
      invariant current == Root(sub) && Holds(data[..], sub, p) && Sorted(Inorder(sub))
      invariant Absent(Inorder(sub), value) ==> Absent(Inorder(t), value)
      invariant forall i: Index :: FoundAt(Inorder(sub), i, value) ==> FoundAt(Inorder(t), i, value)
      invariant sub == t || sub < t
      decreases sub
    {
      var node := data[current];
      assert Holds(data[..], sub.left, sub.e.slot) && Holds(data[..], sub.right, sub.e.slot);
      Sides(sub, value);
      if node.value == value { return current; }
      if node.value.key > value.key {
        current, sub, p := node.left, sub.left, sub.e.slot;
      } else if node.value.key < value.key {
        current, sub, p := node.right, sub.right, sub.e.slot;
      } else {
        var left := LookupIndex(data, node.left, value, sub.left, sub.e.slot);
        if left != NIL { return left; }
        r := LookupIndex(data, node.right, value, sub.right, sub.e.slot);
        return;
      }
    }
    r := NIL;
  }

  /** What the two sides of a node say about the whole. */
  lemma Sides(t: Tree, value: Payload)
    requires t.Node? && Sorted(Inorder(t))
    ensures Sorted(Inorder(t.left)) && Sorted(Inorder(t.right))
    ensures t.e.Key() < value.key ==> Absent(Inorder(t.left), value)
    ensures t.e.Key() > value.key ==> Absent(Inorder(t.right), value)
    ensures Absent(Inorder(t), value) <==>
      Absent(Inorder(t.left), value) && t.e.value != value && Absent(Inorder(t.right), value)
    ensures t.e.value == value ==> FoundAt(Inorder(t), t.e.slot, value)
    ensures forall i: Index :: FoundAt(Inorder(t.left), i, value) ==> FoundAt(Inorder(t), i, value)
    ensures forall i: Index :: FoundAt(Inorder(t.right), i, value) ==> FoundAt(Inorder(t), i, value)
  {
    Around(Inorder(t.left), t.e, Inorder(t.right), value);
    AroundFound(Inorder(t.left), t.e, Inorder(t.right), value);
  }

  lemma Around(l: seq<Entry>, e: Entry, r: seq<Entry>, value: Payload)
    requires Sorted(l + [e] + r)
    ensures Sorted(l) && Sorted(r)
    ensures e.Key() < value.key ==> Absent(l, value)
    ensures e.Key() > value.key ==> Absent(r, value)
  {
    SortedParts(l + [e], r);
    SortedParts(l, [e]);
    AbsentBelow(l, e, value);
    assert l + [e] + r == l + ([e] + r);
    SortedParts(l, [e] + r);
    AbsentAbove(e, r, value);
  }

  lemma AbsentBelow(l: seq<Entry>, e: Entry, value: Payload)
    requires Sorted(l + [e])
    ensures e.Key() < value.key ==> Absent(l, value)
  {
    var s := l + [e];
    assert s[|l|] == e && forall k :: 0 <= k < |l| ==> s[k] == l[k];
  }

  lemma AbsentAbove(e: Entry, r: seq<Entry>, value: Payload)
    requires Sorted([e] + r)
    ensures e.Key() > value.key ==> Absent(r, value)
  {
    var s := [e] + r;
    assert s[0] == e && forall k :: 0 <= k < |r| ==> s[k + 1] == r[k];
  }

  lemma AroundFound(l: seq<Entry>, e: Entry, r: seq<Entry>, value: Payload)
    ensures Absent(l + [e] + r, value) <==> Absent(l, value) && e.value != value && Absent(r, value)
    ensures e.value == value ==> FoundAt(l + [e] + r, e.slot, value)
    ensures forall i: Index :: FoundAt(l, i, value) || FoundAt(r, i, value) ==> FoundAt(l + [e] + r, i, value)
  {
    var s := l + [e] + r;
    assert s[|l|] == e;
    assert forall k :: 0 <= k < |l| ==> s[k] == l[k];
    assert forall k :: 0 <= k < |r| ==> s[|l| + 1 + k] == r[k];
  }
}
