/** Swapping a node with its successor on the array itself. The two headers trade places
    while the payloads stay in their blocks; the code tells the adjacent case from the one
    where the successor lies deeper. The result is the function that `SwapSplice` proves
    equal, after splicing, to removing the node in one go. */
module NodeSwaps {
  import opened Slots
  import Links
  import NodeOps
  import SwapSplice

  /** Takes over the place in the tree that `links` describes. */
  method Adopt(data: array<Slot>, i: Index, links: Slot)
    requires NodeOps.LinkOk(data, i) && data.Length <= NIL
    modifies data
    ensures forall root: Index ::
      Links.Heap(data[..], root) == SwapSplice.Adopt(Links.Heap(old(data[..]), root), i, links)
  {
    if i != NIL {
      data[i] := data[i].(left := links.left, right := links.right, parent := links.parent, color := links.color);
    }
  }

  method SetSide(data: array<Slot>, parent: Index, left: bool, child: Index)
    requires NodeOps.LinkOk(data, parent) && data.Length <= NIL
    modifies data
    ensures forall root: Index ::
      Links.Heap(data[..], root) == SwapSplice.SetSide(Links.Heap(old(data[..]), root), parent, left, child)
  {
    if left { NodeOps.SetLeftIndex(data, parent, child); } else { NodeOps.SetRightIndex(data, parent, child); }
  }

  /** Exchanges the places of a node and its successor; payloads stay where they are. */
  method SwapNodeWithSuccessor(data: array<Slot>, root: Index, i: Index, s: Index) returns (root': Index)
    requires data.Length <= NIL && NodeOps.LinkOk(data, i) && NodeOps.LinkOk(data, s)
    requires NodeOps.LinksOk(data, At(data[..], i)) && NodeOps.LinksOk(data, At(data[..], s))
    modifies data
    ensures Links.Heap(data[..], root') == SwapSplice.SwapWithSuccessor(Links.Heap(old(data[..]), root), i, s)
  {
    var n := if i == NIL then NIL_SLOT else data[i];
    var sn := if s == NIL then NIL_SLOT else data[s];
    if i != NIL && sn.parent == i {
      Adopt(data, i, sn.(parent := s));
      Adopt(data, s, n.(right := i));
      NodeOps.SetParentIndex(data, n.left, s);
      NodeOps.SetParentIndex(data, sn.left, i);
      NodeOps.SetParentIndex(data, sn.right, i);
      root' := NodeOps.ReplaceChild(data, root, n.parent, i, s);
      return;
    }
    var left0 := IsLeftChild(data, root, i);
    var left1 := IsLeftChild(data, root, s);
    SetSide(data, n.parent, left0, s);
    SetSide(data, sn.parent, left1, i);
    root' := Exchange(data, root, i, s, n, sn);
  }

  method IsLeftChild(data: array<Slot>, root: Index, i: Index) returns (r: bool)
    requires data.Length <= NIL && NodeOps.LinkOk(data, i) && NodeOps.LinksOk(data, At(data[..], i))
    ensures r == SwapSplice.IsLeftChild(Links.Heap(data[..], root), i)
  {
    if i == root { return false; }
    var parent := NodeOps.GetParentIndex(data, i);
    var left := NodeOps.GetLeftIndex(data, parent);
    r := left == i;
  }

  /** The two headers, the links up to them, and the root link. */
  method Exchange(data: array<Slot>, root: Index, i: Index, s: Index, n: Slot, sn: Slot) returns (root': Index)
    requires data.Length <= NIL && NodeOps.LinkOk(data, i) && NodeOps.LinkOk(data, s)
    requires NodeOps.LinksOk(data, n) && NodeOps.LinksOk(data, sn)
    modifies data
    ensures Links.Heap(data[..], root') == SwapSplice.Exchange(Links.Heap(old(data[..]), root), i, s, n, sn)
  {
    Adopt(data, i, sn);
    Adopt(data, s, n);
    NodeOps.SetParentIndex(data, n.left, s);
    NodeOps.SetParentIndex(data, sn.left, i);
    NodeOps.SetParentIndex(data, n.right, s);
    NodeOps.SetParentIndex(data, sn.right, i);
    if sn.parent == i {
      NodeOps.SetParentIndex(data, i, s);
      NodeOps.SetParentIndex(data, s, n.parent);
      NodeOps.SetRightIndex(data, s, i);
    }
    root' := if root == i then s else root;
  }
}
