/** The header updates on the shared array itself, in the order in which the code writes:
    reading and setting single fields, relinking from above, the two rotations, the fused
    double rotation, and splicing a node out. Each is proved to write what the function of
    the same name in `Links` or `Splicing` says, for any root link. */
module NodeOps {
  import opened Slots
  import Links
  import Splicing

  predicate LinkOk(data: array<Slot>, i: Index) { i == NIL || i < data.Length }

  method Write(data: array<Slot>, i: Index, s: Slot)
    requires i < data.Length
    modifies data
    ensures data[..] == Put(old(data[..]), i, s)
  {
    data[i] := s;
  }

  /** The color of a node; NIL, where a leaf is, counts as black. */
  method GetColor(data: array<Slot>, i: Index) returns (c: Color)
    requires LinkOk(data, i) && data.Length <= NIL
    ensures c == At(data[..], i).color
  {
    if i == NIL { return Black; }
    c := data[i].color;
  }

  method GetLeftIndex(data: array<Slot>, i: Index) returns (l: Index)
    requires LinkOk(data, i) && data.Length <= NIL
    ensures l == At(data[..], i).left
  {
    if i == NIL { return NIL; }
    l := data[i].left;
  }

  method GetRightIndex(data: array<Slot>, i: Index) returns (r: Index)
    requires LinkOk(data, i) && data.Length <= NIL
    ensures r == At(data[..], i).right
  {
    if i == NIL { return NIL; }
    r := data[i].right;
  }

  method GetParentIndex(data: array<Slot>, i: Index) returns (p: Index)
    requires LinkOk(data, i) && data.Length <= NIL
    ensures p == At(data[..], i).parent
  {
    if i == NIL { return NIL; }
    p := data[i].parent;
  }

  method SetColor(data: array<Slot>, i: Index, c: Color)
    requires LinkOk(data, i) && data.Length <= NIL
    modifies data
    ensures forall root: Index :: Links.Heap(data[..], root) == Links.SetColor(Links.Heap(old(data[..]), root), i, c)
    ensures forall k: nat :: k < data.Length ==> data[k] == old(data[k]).(color := data[k].color)
  {
    if i != NIL { data[i] := data[i].(color := c); }
    assert data[..] == Put(old(data[..]), i, At(old(data[..]), i).(color := c));
  }

  method SetParentIndex(data: array<Slot>, i: Index, p: Index)
    requires LinkOk(data, i) && data.Length <= NIL
    modifies data
    ensures forall root: Index :: Links.Heap(data[..], root) == Links.SetParent(Links.Heap(old(data[..]), root), i, p)
  {
    if i != NIL { data[i] := data[i].(parent := p); }
    assert data[..] == Put(old(data[..]), i, At(old(data[..]), i).(parent := p));
  }

  method SetLeftIndex(data: array<Slot>, i: Index, l: Index)
    requires LinkOk(data, i) && data.Length <= NIL
    modifies data
    ensures forall root: Index :: Links.Heap(data[..], root) == Links.SetLeft(Links.Heap(old(data[..]), root), i, l)
  {
    if i != NIL { data[i] := data[i].(left := l); }
    assert data[..] == Put(old(data[..]), i, At(old(data[..]), i).(left := l));
  }

  method SetRightIndex(data: array<Slot>, i: Index, r: Index)
    requires LinkOk(data, i) && data.Length <= NIL
    modifies data
    ensures forall root: Index :: Links.Heap(data[..], root) == Links.SetRight(Links.Heap(old(data[..]), root), i, r)
  {
    if i != NIL { data[i] := data[i].(right := r); }
    assert data[..] == Put(old(data[..]), i, At(old(data[..]), i).(right := r));
  }

  /** Points whatever linked to `was` from above at `now`. */
  method ReplaceChild(data: array<Slot>, root: Index, parent: Index, was: Index, now: Index) returns (root': Index)
    requires LinkOk(data, parent) && data.Length <= NIL
    modifies data
    ensures Links.Heap(data[..], root') == Links.ReplaceChild(Links.Heap(old(data[..]), root), parent, was, now)
  {
    root' := root;
    if parent == NIL {
      root' := now;
    } else if data[parent].left == was {
      SetLeftIndex(data, parent, now);
    } else {
      SetRightIndex(data, parent, now);
    }
  }

  /** The links a rotation of `g` over its child `p` follows all lead into the array. */
  predicate CanRotate(data: array<Slot>, g: Index, p: Index, y: Index)
    reads data
  {
    data.Length <= NIL && g < data.Length && p < data.Length && LinkOk(data, y) && LinkOk(data, data[g].parent)
  }

  method RotateLeft(data: array<Slot>, root: Index, g: Index) returns (root': Index)
    requires g < data.Length && data[g].right < data.Length
    requires CanRotate(data, g, data[g].right, data[data[g].right].left)
    modifies data
    ensures Links.Heap(data[..], root') == Links.RotateLeft(Links.Heap(old(data[..]), root), g)
  {
    var p, gg := data[g].right, data[g].parent;
    var y := data[p].left;
    Write(data, p, data[p].(parent := gg, left := g));
    SetParentIndex(data, y, g);
    Write(data, g, data[g].(parent := p, right := y));
    root' := ReplaceChild(data, root, gg, g, p);
  }

  method RotateRight(data: array<Slot>, root: Index, g: Index) returns (root': Index)
    requires g < data.Length && data[g].left < data.Length && CanRotate(data, g, data[g].left, data[data[g].left].right)
    modifies data
    ensures Links.Heap(data[..], root') == Links.RotateRight(Links.Heap(old(data[..]), root), g)
  {
    var p, gg := data[g].left, data[g].parent;
    var y := data[p].right;
    Write(data, p, data[p].(parent := gg, right := g));
    SetParentIndex(data, y, g);
    Write(data, g, data[g].(parent := p, left := y));
    root' := ReplaceChild(data, root, gg, g, p);
  }

  method RotateDouble(data: array<Slot>, root: Index, g: Index, parentIsLeft: bool,
                      middle: Color, left: Color, right: Color) returns (root': Index)
    requires g < data.Length <= NIL && LinkOk(data, data[g].parent)
    requires var p := if parentIsLeft then data[g].left else data[g].right;
      p < data.Length &&
      var m := if parentIsLeft then data[p].right else data[p].left;
      m < data.Length && LinkOk(data, data[m].left) && LinkOk(data, data[m].right)
    modifies data
    ensures Links.Heap(data[..], root')
         == Links.RotateDouble(Links.Heap(old(data[..]), root), g, parentIsLeft, middle, left, right)
  {
    var above := data[g].parent;
    var p := if parentIsLeft then data[g].left else data[g].right;
    var m := if parentIsLeft then data[p].right else data[p].left;
    var l, r := if parentIsLeft then p else g, if parentIsLeft then g else p;
    var x, y := data[m].left, data[m].right;
    Write(data, m, data[m].(color := middle, parent := above, left := l, right := r));
    Write(data, l, data[l].(color := left, parent := m, right := x));
    Write(data, r, data[r].(color := right, parent := m, left := y));
    SetParentIndex(data, x, l);
    SetParentIndex(data, y, r);
    root' := ReplaceChild(data, root, above, g, m);
  }

  /** Splices out a node with at most one child; its child, parent and colour are kept for repair. */
  method UpdateParentChild(data: array<Slot>, root: Index, i: Index)
    returns (root': Index, child: Index, parent: Index, removedColor: Color)
    requires i < data.Length <= NIL && LinkOk(data, data[i].left) && LinkOk(data, data[i].right)
    requires LinkOk(data, data[i].parent)
    modifies data
    ensures Links.Heap(data[..], root') == Splicing.UpdateParentChild(Links.Heap(old(data[..]), root), i)
    ensures child == old(if data[i].left != NIL then data[i].left else data[i].right)
    ensures parent == old(data[i].parent) && removedColor == old(data[i].color)
  {
    parent, removedColor := data[i].parent, data[i].color;
    child := if data[i].left != NIL then data[i].left else data[i].right;
    SetParentIndex(data, child, parent);
    root' := ReplaceChild(data, root, parent, i, child);
  }

  predicate LinksOk(data: array<Slot>, n: Slot) {
    LinkOk(data, n.left) && LinkOk(data, n.right) && LinkOk(data, n.parent)
  }
}
