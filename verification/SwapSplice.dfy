/** Removing an internal node in one go, against swapping with the successor and splicing. */
module SwapSplice {
  import opened Slots
  import opened Trees
  import opened Links
  import opened Paths
  import opened Splicing
  import opened Removal

  predicate IsLeftChild(h: Heap, i: Index) {
    i != h.root && At(h.mem, At(h.mem, i).parent).left == i
  }

  function SetSide(h: Heap, parent: Index, left: bool, child: Index): Heap {
    if left then SetLeft(h, parent, child) else SetRight(h, parent, child)
  }

  /** Takes over `links`' place in the tree: its links and colour. */
  function Adopt(h: Heap, i: Index, links: Slot): Heap {
    h.(mem := Put(h.mem, i, At(h.mem, i).(left := links.left, right := links.right,
                                          parent := links.parent, color := links.color)))
  }

  /** Exchanges the places of `i` and its successor `s` in the tree. */
  function SwapWithSuccessor(h: Heap, i: Index, s: Index): Heap {
    var n, sn := At(h.mem, i), At(h.mem, s);
    if i != NIL && sn.parent == i then
      var h1 := Adopt(Adopt(h, i, sn.(parent := s)), s, n.(right := i));
      var h2 := SetParent(SetParent(SetParent(h1, n.left, s), sn.left, i), sn.right, i);
      ReplaceChild(h2, n.parent, i, s)
    else
      Exchange(SwapAbove(h, i, s), i, s, n, sn)
  }

  /** The links that come down to each of the two nodes. */
  function SwapAbove(h: Heap, i: Index, s: Index): Heap {
    var left0, left1 := IsLeftChild(h, i), IsLeftChild(h, s);
    SetSide(SetSide(h, At(h.mem, i).parent, left0, s), At(h.mem, s).parent, left1, i)
  }

  /** The two headers, the links up to them, and the root link. */
  function Exchange(h: Heap, i: Index, s: Index, n: Slot, sn: Slot): Heap {
    var h2 := Adopt(Adopt(h, i, sn), s, n);
    var h3 := SetParent(SetParent(SetParent(SetParent(h2, n.left, s), sn.left, i), n.right, s), sn.right, i);
    var h4 := if sn.parent == i then SetRight(SetParent(SetParent(h3, i, s), s, n.parent), s, i) else h3;
    if h4.root == i then h4.(root := s) else h4
  }

  /** Every block after the swap. */
  predicate Swapped(h: Heap, h': Heap, parent: Index, i: Index, left: Index, right: Index,
                    s: Index, sp: Index, c: Index)
    requires Succession(h, parent, i, left, right, s, sp, c)
  {
    var a, b, far := h.mem, h'.mem, sp != i;
    && |b| == |a| && Relinked(h, h', parent, i, s)
    && b[i] == a[i].(parent := if far then sp else s, left := NIL, right := c, color := a[s].color)
    && b[s] == a[s].(parent := parent, left := left, right := if far then right else i, color := a[i].color)
    && b[left] == a[left].(parent := s)
    && (c != NIL ==> b[c] == a[c].(parent := i))
    && (far && right == sp ==> b[sp] == a[sp].(left := i, parent := s))
    && (far && right != sp ==> b[sp] == a[sp].(left := i) && b[right] == a[right].(parent := s))
    && forall k: Index ::
      k < |a| && k != parent && k != i && k != s && k != left && k != c && (far ==> k != sp && k != right) ==>
      b[k] == a[k]
  }

  lemma SwapAdjacentEffect(h: Heap, parent: Index, i: Index, left: Index, s: Index, c: Index)
    requires Succession(h, parent, i, left, s, s, i, c)
    ensures Swapped(h, SwapWithSuccessor(h, i, s), parent, i, left, s, s, i, c)
  {
    var n, sn := h.mem[i], h.mem[s];
    var h1 := Adopt(Adopt(h, i, sn.(parent := s)), s, n.(right := i));
    assert |h1.mem| == |h.mem| && h1.root == h.root;
    assert forall k: Index :: k < |h.mem| && k != i && k != s ==> h1.mem[k] == h.mem[k];
    ChildrenFollow(h, h1, parent, i, left, s, c);
  }

  /** The children's parent links, and the link from above. */
  lemma ChildrenFollow(h: Heap, h1: Heap, parent: Index, i: Index, left: Index, s: Index, c: Index)
    requires Succession(h, parent, i, left, s, s, i, c)
    requires |h1.mem| == |h.mem| && h1.root == h.root
    requires forall k: Index :: k < |h.mem| && k != i && k != s ==> h1.mem[k] == h.mem[k]
    ensures var h' := ReplaceChild(SetParent(SetParent(SetParent(h1, left, s), NIL, i), c, i), parent, i, s);
      && |h'.mem| == |h.mem| && Relinked(h, h', parent, i, s) && h'.mem[i] == h1.mem[i] && h'.mem[s] == h1.mem[s]
      && h'.mem[left] == h.mem[left].(parent := s) && (c != NIL ==> h'.mem[c] == h.mem[c].(parent := i))
      && forall k: Index :: k < |h.mem| && k != parent && k != i && k != s && k != left && k != c ==>
        h'.mem[k] == h.mem[k]
  {
  }

  lemma SwapAboveEffect(h: Heap, parent: Index, i: Index, left: Index, right: Index, s: Index, sp: Index, c: Index)
    requires Succession(h, parent, i, left, right, s, sp, c) && sp != i
    requires h.root != s && (h.root == i <==> parent == NIL)
    ensures var h1 := SwapAbove(h, i, s);
      && h1.root == h.root && |h1.mem| == |h.mem| && h1.mem[sp] == h.mem[sp].(left := i)
      && (parent != NIL ==> Relinked(h, h1, parent, i, s))
      && (forall k: Index :: k < |h.mem| && k != parent && k != sp ==> h1.mem[k] == h.mem[k])
  {
  }

  lemma ExchangeEffect(h: Heap, h1: Heap, parent: Index, i: Index, left: Index, right: Index, s: Index, sp: Index,
                       c: Index)
    requires Succession(h, parent, i, left, right, s, sp, c) && sp != i
    requires h.root != s && (h.root == i <==> parent == NIL)
    requires h1.root == h.root && |h1.mem| == |h.mem| && h1.mem[sp] == h.mem[sp].(left := i)
    requires parent != NIL ==> Relinked(h, h1, parent, i, s)
    requires forall k: Index :: k < |h.mem| && k != parent && k != sp ==> h1.mem[k] == h.mem[k]
    ensures Swapped(h, Exchange(h1, i, s, h.mem[i], h.mem[s]), parent, i, left, right, s, sp, c)
  {
  }

  lemma SwapEffect(h: Heap, parent: Index, i: Index, left: Index, right: Index, s: Index, sp: Index, c: Index)
    requires Succession(h, parent, i, left, right, s, sp, c)
    requires h.root != s && (h.root == i <==> parent == NIL)
    ensures Swapped(h, SwapWithSuccessor(h, i, s), parent, i, left, right, s, sp, c)
  {
    if sp == i {
      SwapAdjacentEffect(h, parent, i, left, s, c);
    } else {
      SwapAboveEffect(h, parent, i, left, right, s, sp, c);
      ExchangeEffect(h, SwapAbove(h, i, s), parent, i, left, right, s, sp, c);
    }
  }

  /** Fused removal and swap-then-splice give the same block everywhere. */
  lemma FusedEffect(h: Heap, h1: Heap, h': Heap, w: Heap, w': Heap,
                    parent: Index, i: Index, left: Index, right: Index, s: Index, sp: Index, c: Index)
    requires Succession(h, parent, i, left, right, s, sp, c)
    requires Released(h, h1, i, left, right, s, sp, c) && Succeeded(h, h1, h', parent, i, left, right, s, sp, c)
    requires Swapped(h, w, parent, i, left, right, s, sp, c)
    requires var repair := if sp == i then s else sp;
      && UnchangedBut(w.mem, w'.mem, repair, c, repair, c) && Relinked(w, w', repair, i, c)
      && (c != NIL ==> w'.mem[c] == w.mem[c].(parent := repair))
    ensures h' == w'
  {
    assert h'.mem == w'.mem;
  }

  /** Removing an internal node in one go writes the same array, the removed block
      included, as swapping it with its successor and splicing it out. */
  lemma RemoveInternalIsSwapThenSplice(h: Heap, ctx: Ctx, t: Tree)
    requires StoresAt(h, ctx, t) && Internal(t)
    ensures var i, s := t.e.slot, MinNode(t.right).e.slot;
      RemoveInternal(h, i, s) == UpdateParentChild(SwapWithSuccessor(h, i, s), i)
  {
    var i, r, s := t.e.slot, t.right, MinNode(t.right);
    RemoveInternalEffect(h, ctx, t);
    DropMinOwned(h.mem, r, i);
    RootOfPath(h, ctx, t);
    SwapThenSplice(h, ParentOf(ctx), i, t.left.e.slot, r.e.slot, s.e.slot, SuccessorParent(i, r), Root(s.right));
  }

  /** The same, block by block. */
  lemma SwapThenSplice(h: Heap, parent: Index, i: Index, left: Index, right: Index, s: Index, sp: Index, c: Index)
    requires Succession(h, parent, i, left, right, s, sp, c)
    requires Released(h, Release(h, i, s), i, left, right, s, sp, c)
    requires Succeeded(h, Release(h, i, s), RemoveInternal(h, i, s), parent, i, left, right, s, sp, c)
    requires h.root != s && (h.root == i <==> parent == NIL)
    ensures RemoveInternal(h, i, s) == UpdateParentChild(SwapWithSuccessor(h, i, s), i)
  {
    var w := SwapWithSuccessor(h, i, s);
    SwapEffect(h, parent, i, left, right, s, sp, c);
    SpliceEffect(w, i, if sp == i then s else sp, c);
    FusedEffect(h, Release(h, i, s), RemoveInternal(h, i, s), w, UpdateParentChild(w, i), parent, i, left, right, s,
                sp, c);
  }
}
