/** What the tree validator accepts, told from the links alone. */
module ReachableTrees {
  import opened Slots
  import opened Trees
  import opened Links
  import opened Positions
  import opened Validation

  /** One step down a link: right or left. */
  function Child(img: Buffer, o: Index, right: bool): Index {
    if o == NIL || o >= |img.nodes| then NIL else if right then img.nodes[o].right else img.nodes[o].left
  }

  /** The offset that the steps lead to; NIL once they have left the tree. */
  function Follow(img: Buffer, o: Index, steps: seq<bool>): Index
    decreases |steps|
  {
    if steps == [] then o else Follow(img, Child(img, o, steps[0]), steps[1..])
  }

  /** The steps end just below the last node on their way. */
  predicate RunsOut(img: Buffer, o: Index, steps: seq<bool>)
    decreases |steps|
  {
    if steps == [] then o == NIL else o != NIL && RunsOut(img, Child(img, o, steps[0]), steps[1..])
  }

  /** Black nodes on the way. */
  function Blacks(img: Buffer, o: Index, steps: seq<bool>): nat
    decreases |steps|
  {
    if steps == [] || o >= |img.nodes| then 0
    else (if img.nodes[o].color == Black then 1 else 0) + Blacks(img, Child(img, o, steps[0]), steps[1..])
  }

  /** All the bytes of the node are there, at an aligned offset, with a legal colour. */
  predicate Readable(img: Buffer, o: Index) {
    && o % 8 == 0 && o + img.nodeSize <= |img.nodes|
    && (img.nodes[o].color == Black || img.nodes[o].color == Red)
  }

  /** A link leads nowhere, or to a node that links back, and is not red below red. */
  predicate LinksBack(img: Buffer, o: Index, right: bool)
    requires o < |img.nodes|
  {
    var c := Child(img, o, right);
    c != NIL ==>
      && c < |img.nodes| && img.nodes[c].parent == o
      && !(img.nodes[o].color == Red && img.nodes[c].color == Red)
  }

  predicate Sane(img: Buffer, o: Index) {
    o != NIL ==> Readable(img, o) && LinksBack(img, o, false) && LinksBack(img, o, true)
  }

  /** What a step left and any more steps reach has no larger key, what a step right reaches a larger one. */
  predicate KeysApart(img: Buffer, o: Index, steps: seq<bool>) {
    o < |img.nodes| ==>
      && var l, r := Follow(img, Child(img, o, false), steps), Follow(img, Child(img, o, true), steps);
      && (l != NIL && l < |img.nodes| ==> img.nodes[l].value.key <= img.nodes[o].value.key)
      && (r != NIL && r < |img.nodes| ==> img.nodes[r].value.key > img.nodes[o].value.key)
  }

  /** Everything that can be reached is sane and in order, */
  ghost predicate AllSane(img: Buffer, o: Index) {
    forall p :: Sane(img, Follow(img, o, p))
  }

  ghost predicate AllOrdered(img: Buffer, o: Index) {
    forall p, q :: Follow(img, o, p) != NIL ==> KeysApart(img, Follow(img, o, p), q)
  }

  /** no node is reached in two ways, */
  ghost predicate OneWay(img: Buffer, o: Index) {
    forall p, q :: Follow(img, o, p) == Follow(img, o, q) != NIL ==> p == q
  }

  /** and every way out has as many black nodes. */
  ghost predicate SameBlacks(img: Buffer, o: Index) {
    forall p, q :: RunsOut(img, o, p) && RunsOut(img, o, q) ==> Blacks(img, o, p) == Blacks(img, o, q)
  }

  ghost predicate SoundLinks(img: Buffer, o: Index) {
    AllSane(img, o) && AllOrdered(img, o) && OneWay(img, o) && SameBlacks(img, o)
  }

  /** Steps right from the root come to `max`, and no further. */
  ghost predicate Rightmost(img: Buffer, root: Index, max: Index) {
    max != NIL && Child(img, max, true) == NIL && exists p :: AllRight(p) && Follow(img, root, p) == max
  }

  predicate AllRight(steps: seq<bool>) { forall k :: 0 <= k < |steps| ==> steps[k] }

  // ----- a proper tree has sound links

  /** The steps from the root of a tree stay in the tree, as the links do. */
  lemma {:induction false} FollowInto(img: Buffer, t: Tree, parent: Index, steps: seq<bool>)
    requires Laid(img, t, parent) && steps != []
    ensures t.Leaf? ==> Follow(img, Root(t), steps) == NIL
    ensures t.Node? ==>
      Follow(img, Root(t), steps) == Follow(img, Root(if steps[0] then t.right else t.left), steps[1..])
    decreases |steps|
  {
    assert NIL % 8 == 7;
    if t.Leaf? && |steps| > 1 {
      FollowInto(img, Leaf, NIL, steps[1..]);
    }
  }

  lemma {:induction false} LaidSane(img: Buffer, t: Tree, parent: Index, steps: seq<bool>)
    requires Laid(img, t, parent) && Balanced(t)
    ensures Sane(img, Follow(img, Root(t), steps))
    ensures Follow(img, Root(t), steps) != NIL ==> Follow(img, Root(t), steps) in Owned(t)
    decreases |steps|
  {
    assert NIL % 8 == 7;
    if steps != [] {
      FollowInto(img, t, parent, steps);
      if t.Node? {
        LaidSane(img, if steps[0] then t.right else t.left, t.e.slot, steps[1..]);
      }
    }
  }

  lemma {:induction false} LaidWithin(img: Buffer, t: Tree, parent: Index, lower: Bound, upper: Bound, steps: seq<bool>)
    requires Laid(img, t, parent) && Between(t, lower, upper)
    ensures var o := Follow(img, Root(t), steps);
      o != NIL ==> o < |img.nodes| && KeyWithin(img.nodes[o].value.key, lower, upper)
    decreases |steps|
  {
    if steps != [] {
      FollowInto(img, t, parent, steps);
      if t.Node? {
        var k := Limit(t.e.Key());
        if steps[0] {
          LaidWithin(img, t.right, t.e.slot, k, upper, steps[1..]);
        } else {
          LaidWithin(img, t.left, t.e.slot, lower, k, steps[1..]);
        }
      }
    }
  }

  lemma {:induction false} LaidOrdered(img: Buffer, t: Tree, parent: Index, lower: Bound, upper: Bound,
                                       p: seq<bool>, q: seq<bool>)
    requires Laid(img, t, parent) && Between(t, lower, upper)
    ensures Follow(img, Root(t), p) != NIL ==> KeysApart(img, Follow(img, Root(t), p), q)
    decreases |p|
  {
    assert NIL % 8 == 7;
    if p != [] {
      FollowInto(img, t, parent, p);
    }
    if t.Node? {
      var k := Limit(t.e.Key());
      if p == [] {
        LaidWithin(img, t.left, t.e.slot, lower, k, q);
        LaidWithin(img, t.right, t.e.slot, k, upper, q);
      } else if p[0] {
        LaidOrdered(img, t.right, t.e.slot, k, upper, p[1..], q);
      } else {
        LaidOrdered(img, t.left, t.e.slot, lower, k, p[1..], q);
      }
    }
  }

  lemma {:induction false} LaidOneWay(img: Buffer, t: Tree, parent: Index, p: seq<bool>, q: seq<bool>)
    requires Laid(img, t, parent) && Balanced(t) && Distinct(t)
    requires Follow(img, Root(t), p) == Follow(img, Root(t), q) != NIL
    ensures p == q
    decreases |p|
  {
    if p != [] { FollowInto(img, t, parent, p); }
    if q != [] { FollowInto(img, t, parent, q); }
    if p != [] { LaidSane(img, if p[0] then t.right else t.left, t.e.slot, p[1..]); }
    if q != [] { LaidSane(img, if q[0] then t.right else t.left, t.e.slot, q[1..]); }
    if p != [] && q != [] {
      assert p[0] == q[0];
      LaidOneWay(img, if p[0] then t.right else t.left, t.e.slot, p[1..], q[1..]);
      assert p == [p[0]] + p[1..] && q == [q[0]] + q[1..];
    }
  }

  lemma {:induction false} LaidBlacks(img: Buffer, t: Tree, parent: Index, steps: seq<bool>)
    requires Laid(img, t, parent) && Balanced(t) && RunsOut(img, Root(t), steps)
    ensures Blacks(img, Root(t), steps) == BlackHeight(t)
    decreases |steps|
  {
    assert NIL % 8 == 7;
    if steps != [] {
      LaidBlacks(img, if steps[0] then t.right else t.left, t.e.slot, steps[1..]);
    }
  }

  lemma LaidSound(img: Buffer, root: Index, t: Tree)
    requires IsTree(img, root, t)
    ensures SoundLinks(img, root)
  {
    forall p ensures Sane(img, Follow(img, root, p)) { LaidSane(img, t, NIL, p); }
    forall p, q | Follow(img, root, p) != NIL ensures KeysApart(img, Follow(img, root, p), q) {
      LaidOrdered(img, t, NIL, Free, Free, p, q);
    }
    forall p, q | Follow(img, root, p) == Follow(img, root, q) != NIL ensures p == q {
      LaidOneWay(img, t, NIL, p, q);
    }
    forall p, q | RunsOut(img, root, p) && RunsOut(img, root, q)
      ensures Blacks(img, root, p) == Blacks(img, root, q)
    {
      LaidBlacks(img, t, NIL, p);
      LaidBlacks(img, t, NIL, q);
    }
  }

  // ----- sound links are a proper tree

  lemma StepFirst(img: Buffer, o: Index, right: bool, steps: seq<bool>)
    ensures Follow(img, o, [right] + steps) == Follow(img, Child(img, o, right), steps)
    ensures o != NIL ==> RunsOut(img, o, [right] + steps) == RunsOut(img, Child(img, o, right), steps)
    ensures o < |img.nodes| ==>
      Blacks(img, o, [right] + steps)
      == (if img.nodes[o].color == Black then 1 else 0) + Blacks(img, Child(img, o, right), steps)
  {
    assert ([right] + steps)[1..] == steps;
  }

  lemma ChildSound(img: Buffer, o: Index, right: bool)
    requires SoundLinks(img, o) && o != NIL && o < |img.nodes|
    ensures SoundLinks(img, Child(img, o, right))
  {
    var c := Child(img, o, right);
    forall p ensures Sane(img, Follow(img, c, p)) {
      StepFirst(img, o, right, p);
      assert Sane(img, Follow(img, o, [right] + p));
    }
    forall p, q | Follow(img, c, p) != NIL ensures KeysApart(img, Follow(img, c, p), q) {
      StepFirst(img, o, right, p);
      assert KeysApart(img, Follow(img, o, [right] + p), q);
    }
    forall p, q | Follow(img, c, p) == Follow(img, c, q) != NIL ensures p == q {
      StepFirst(img, o, right, p);
      StepFirst(img, o, right, q);
      assert [right] + p == [right] + q;
      assert p == ([right] + p)[1..] == ([right] + q)[1..] == q;
    }
    forall p, q | RunsOut(img, c, p) && RunsOut(img, c, q) ensures Blacks(img, c, p) == Blacks(img, c, q) {
      StepFirst(img, o, right, p);
      StepFirst(img, o, right, q);
      assert Blacks(img, o, [right] + p) == Blacks(img, o, [right] + q);
    }
  }

  /** Every node that can be reached is new, and its key within bounds. */
  ghost predicate Ahead(img: Buffer, o: Index, above: set<Index>, lower: Bound, upper: Bound) {
    forall p :: var y := Follow(img, o, p);
      y != NIL ==> y !in above && y < |img.nodes| && KeyWithin(img.nodes[y].value.key, lower, upper)
  }

  lemma ChildAhead(img: Buffer, o: Index, right: bool, above: set<Index>, lower: Bound, upper: Bound)
    requires SoundLinks(img, o) && Ahead(img, o, above, lower, upper) && o != NIL && o < |img.nodes|
    ensures var k := Limit(img.nodes[o].value.key);
      Ahead(img, Child(img, o, right), above + {o}, if right then k else lower, if right then upper else k)
  {
    var c := Child(img, o, right);
    assert Follow(img, o, []) == o;
    forall p ensures var y := Follow(img, c, p); y != NIL ==>
      y != o && y !in above && y < |img.nodes|
      && KeyWithin(img.nodes[y].value.key, lower, upper)
      && (if right then img.nodes[y].value.key > img.nodes[o].value.key
          else img.nodes[y].value.key <= img.nodes[o].value.key)
    {
      StepFirst(img, o, right, p);
      assert [right] + p != [];
      assert KeysApart(img, Follow(img, o, []), p);
    }
  }

  /** The nodes of a tree are those that can be reached. */
  ghost predicate AllReached(img: Buffer, o: Index, t: Tree) {
    forall i :: i in Owned(t) ==> exists p :: Follow(img, o, p) == i != NIL
  }

  lemma {:induction false} RunOut(img: Buffer, t: Tree, parent: Index) returns (steps: seq<bool>)
    requires Laid(img, t, parent)
    ensures RunsOut(img, Root(t), steps)
    decreases t
  {
    assert NIL % 8 == 7;
    steps := [];
    if t.Node? {
      var rest := RunOut(img, t.left, t.e.slot);
      steps := [false] + rest;
      StepFirst(img, Root(t), false, rest);
    }
  }

  /** What can be reached by a step left cannot be reached by a step right. */
  lemma StepsApart(img: Buffer, o: Index, p: seq<bool>, q: seq<bool>)
    requires OneWay(img, o) && Follow(img, Child(img, o, false), p) != NIL
    ensures Follow(img, Child(img, o, false), p) != Follow(img, Child(img, o, true), q)
  {
    StepFirst(img, o, false, p);
    StepFirst(img, o, true, q);
    assert ([false] + p)[0] != ([true] + q)[0];
  }

  lemma SidesApart(img: Buffer, o: Index, left: Tree, right: Tree)
    requires OneWay(img, o)
    requires AllReached(img, Child(img, o, false), left) && AllReached(img, Child(img, o, true), right)
    ensures Owned(left) !! Owned(right)
  {
    forall i, j | i in Owned(left) && j in Owned(right) ensures i != j {
      var p :| Follow(img, Child(img, o, false), p) == i != NIL;
      var q :| Follow(img, Child(img, o, true), q) == j != NIL;
      StepsApart(img, o, p, q);
    }
  }

  lemma SidesLevel(img: Buffer, o: Index, left: Tree, right: Tree)
    requires SameBlacks(img, o) && o != NIL && o < |img.nodes|
    requires Laid(img, left, o) && Laid(img, right, o) && Balanced(left) && Balanced(right)
    requires Root(left) == Child(img, o, false) && Root(right) == Child(img, o, true)
    ensures BlackHeight(left) == BlackHeight(right)
  {
    var p := RunOut(img, left, o);
    var q := RunOut(img, right, o);
    StepFirst(img, o, false, p);
    StepFirst(img, o, true, q);
    LaidBlacks(img, left, o, p);
    LaidBlacks(img, right, o, q);
    assert Blacks(img, o, [false] + p) == Blacks(img, o, [true] + q);
  }

  lemma ReachedThrough(img: Buffer, o: Index, left: Tree, e: Entry, color: Color, right: Tree)
    requires e.slot == o != NIL
    requires AllReached(img, Child(img, o, false), left) && AllReached(img, Child(img, o, true), right)
    ensures AllReached(img, o, Node(left, e, color, right))
  {
    forall i | i in Owned(Node(left, e, color, right)) ensures exists p :: Follow(img, o, p) == i != NIL {
      if i == o {
        assert Follow(img, o, []) == i;
      } else if i in Owned(left) {
        var p :| Follow(img, Child(img, o, false), p) == i != NIL;
        StepFirst(img, o, false, p);
      } else {
        assert i in Owned(right);
        var p :| Follow(img, Child(img, o, true), p) == i != NIL;
        StepFirst(img, o, true, p);
      }
    }
  }

  lemma {:induction false} BuildTree(img: Buffer, o: Index, parent: Index, above: set<Index>, lower: Bound,
                                     upper: Bound)
    returns (t: Tree)
    requires SoundLinks(img, o) && Ahead(img, o, above, lower, upper)
    requires o != NIL ==> o < |img.nodes| && img.nodes[o].parent == parent
    ensures Root(t) == o && (t.Leaf? <==> o == NIL) && Laid(img, t, parent) && AllReached(img, o, t)
    ensures Distinct(t) && Between(t, lower, upper) && Balanced(t)
    decreases Unseen(img, above)
  {
    assert Follow(img, o, []) == o;
    if o == NIL { return Leaf; }
    assert Sane(img, Follow(img, o, []));
    var node := img.nodes[o];
    ChildSound(img, o, false);
    ChildSound(img, o, true);
    ChildAhead(img, o, false, above, lower, upper);
    ChildAhead(img, o, true, above, lower, upper);
    assert o in Unseen(img, above) && Unseen(img, above + {o}) <= Unseen(img, above);
    var left := BuildTree(img, node.left, o, above + {o}, lower, Limit(node.value.key));
    var right := BuildTree(img, node.right, o, above + {o}, Limit(node.value.key), upper);
    t := Node(left, Entry(o, node.payloadType, node.value), node.color, right);
    SidesApart(img, o, left, right);
    SidesLevel(img, o, left, right);
    ReachedThrough(img, o, left, t.e, t.color, right);
    NotBelow(img, node.left, left, above, o, lower, Limit(node.value.key));
    NotBelow(img, node.right, right, above, o, Limit(node.value.key), upper);
  }

  lemma NotBelow(img: Buffer, c: Index, t: Tree, above: set<Index>, o: Index, lower: Bound, upper: Bound)
    requires AllReached(img, c, t) && Ahead(img, c, above + {o}, lower, upper)
    ensures o !in Owned(t)
  {
    forall i | i in Owned(t) ensures i != o {
      var p :| Follow(img, c, p) == i != NIL;
      assert Follow(img, c, p) !in above + {o};
    }
  }

  lemma {:induction false} RightsEnd(img: Buffer, t: Tree, parent: Index, p: seq<bool>, max: Index)
    requires Laid(img, t, parent) && AllRight(p)
    requires Follow(img, Root(t), p) == max != NIL && Child(img, max, true) == NIL
    ensures max == MaxSlot(t)
    decreases t
  {
    assert NIL % 8 == 7;
    if p != [] {
      FollowInto(img, t, parent, p);
      RightsEnd(img, t.right, t.e.slot, p[1..], max);
    }
  }

  lemma {:induction false} RightsTo(img: Buffer, t: Tree, parent: Index) returns (p: seq<bool>)
    requires Laid(img, t, parent) && t.Node?
    ensures AllRight(p)
    ensures Follow(img, Root(t), p) == MaxSlot(t) != NIL && Child(img, MaxSlot(t), true) == NIL
    decreases t
  {
    assert NIL % 8 == 7;
    p := [];
    if t.right.Node? {
      var rest := RightsTo(img, t.right, t.e.slot);
      StepFirst(img, t.e.slot, true, rest);
      p := [true] + rest;
    }
  }

  /** A buffer holds a proper tree exactly when, following links in any way from the root, one
      only ever comes to readable nodes that link back, never to one node in two ways, with keys
      in order and as many black nodes on every way out; and `max`, if given, is where the right
      links end. */
  lemma ProperByLinks(img: Buffer, root: Index, max: Index)
    ensures ProperTree(img, root, max) <==>
      if root == NIL then max == NIL else
      && SoundLinks(img, root) && root < |img.nodes| && img.nodes[root].parent == NIL
      && (max == NIL || Rightmost(img, root, max))
  {
    if root != NIL {
      if ProperTree(img, root, max) {
        var t :| IsTree(img, root, t) && (max == NIL || max == MaxSlot(t));
        LaidSound(img, root, t);
        var p := RightsTo(img, t, NIL);
      }
      if SoundLinks(img, root) && root < |img.nodes| && img.nodes[root].parent == NIL
         && (max == NIL || Rightmost(img, root, max)) {
        LinksProper(img, root, max);
      }
    }
  }

  lemma LinksProper(img: Buffer, root: Index, max: Index)
    requires root != NIL && SoundLinks(img, root) && root < |img.nodes| && img.nodes[root].parent == NIL
    requires max == NIL || Rightmost(img, root, max)
    ensures ProperTree(img, root, max)
  {
    forall p ensures var y := Follow(img, root, p); y != NIL ==> y < |img.nodes| {
      assert Sane(img, Follow(img, root, p));
    }
    var t := BuildTree(img, root, NIL, {}, Free, Free);
    assert IsTree(img, root, t);
    if max != NIL {
      var p :| AllRight(p) && Follow(img, root, p) == max;
      RightsEnd(img, t, NIL, p, max);
    }
  }

  /** A node that the links lead to but the end of the buffer cuts off, or that is not aligned, fails the tree. */
  lemma UnreadableRejected(img: Buffer, root: Index, max: Index, steps: seq<bool>)
    requires root != NIL && Follow(img, root, steps) != NIL
    requires Follow(img, root, steps) + img.nodeSize > |img.nodes| || Follow(img, root, steps) % 8 != 0
    ensures !ProperTree(img, root, max)
  {
    ProperByLinks(img, root, max);
    assert !Sane(img, Follow(img, root, steps));
  }
}
