/** Checking untrusted bytes before they are walked as a tree. */
module Validation {
  import opened Slots
  import opened Trees
  import opened Links
  import opened Positions

  datatype Outcome = Pass | Fail(message: string)

  datatype Bound = Free | Limit(key: int)

  const USIZE := 0x1_0000_0000_0000_0000

  /** A byte buffer of `|nodes|` bytes: `nodes[o]` is the node read from byte `o` on,
      whatever the bytes are and however nodes overlap. */
  datatype Image = Image(nodes: seq<Slot>, nodeSize: nat)

  /** A slice shorter than the address space, and a node of at least its header. */
  type Buffer = img: Image | 16 <= img.nodeSize && |img.nodes| < USIZE witness Image([], 16)

  /** Every byte of the node lies in the buffer, and its offset is aligned. */
  predicate InBuffer(img: Buffer, i: Index) {
    i % 8 == 0 && i + img.nodeSize <= |img.nodes|
  }

  /** The buffer holds `t` below `parent`: links, parents, colours and payloads. */
  predicate Laid(img: Buffer, t: Tree, parent: Index) {
    t.Node? ==>
      && InBuffer(img, t.e.slot) && img.nodes[t.e.slot] == Header(t, parent)
      && Laid(img, t.left, t.e.slot) && Laid(img, t.right, t.e.slot)
  }

  predicate KeyWithin(key: int, lower: Bound, upper: Bound) {
    (lower.Limit? ==> lower.key < key) && (upper.Limit? ==> key <= upper.key)
  }

  /** Equal keys only ever on the left: left <= node < right all the way down. */
  predicate Between(t: Tree, lower: Bound, upper: Bound) {
    t.Node? ==>
      && KeyWithin(t.e.Key(), lower, upper)
      && Between(t.left, lower, Limit(t.e.Key())) && Between(t.right, Limit(t.e.Key()), upper)
  }

  /** A buffer that holds a proper tree at `root`, with `max` exact or not given. */
  ghost predicate ProperTree(img: Buffer, root: Index, max: Index) {
    if root == NIL then max == NIL
    else exists t :: IsTree(img, root, t) && (max == NIL || max == MaxSlot(t))
  }

  predicate IsTree(img: Buffer, root: Index, t: Tree) {
    Root(t) == root && Laid(img, t, NIL) && Distinct(t) && Between(t, Free, Free) && Balanced(t)
  }

  // ----- what the stack still has to check

  datatype Frame = Frame(index: Index, parent: Index, lower: Bound, upper: Bound, blackHeight: nat)

  predicate Fits(img: Buffer, f: Frame, t: Tree, n: nat) {
    && Root(t) == f.index && (f.index == NIL <==> t.Leaf?) && Laid(img, t, f.parent) && Distinct(t)
    && Between(t, f.lower, f.upper) && Balanced(t) && f.blackHeight + BlackHeight(t) + 1 == n
  }

  /** Trees exist for all frames, using no block twice and none already seen, with
      leaves all at black height `n`. */
  ghost predicate Open(img: Buffer, stack: seq<Frame>, seen: set<Index>, n: nat) {
    stack == [] ||
    exists t :: Fits(img, stack[|stack| - 1], t, n) && Owned(t) !! seen
             && Open(img, stack[..|stack| - 1], seen + Owned(t), n)
  }

  ghost predicate Goal(img: Buffer, stack: seq<Frame>, seen: set<Index>, expected: Bound) {
    if expected.Limit? then expected.key >= 0 && Open(img, stack, seen, expected.key)
    else exists n: nat :: Open(img, stack, seen, n)
  }

  predicate ChildNotRed(img: Buffer, child: Index) {
    child == NIL || (InBuffer(img, child) && !img.nodes[child].color.Red?)
  }

  /** The checks one node must pass by itself. */
  predicate NodeOk(img: Buffer, f: Frame, seen: set<Index>) {
    && InBuffer(img, f.index) && f.index !in seen
    && var node := img.nodes[f.index];
    && Legal(node.color) && node.parent == f.parent && KeyWithin(node.value.key, f.lower, f.upper)
    && (node.color.Red? ==> ChildNotRed(img, node.left) && ChildNotRed(img, node.right))
  }

  function LeftFrame(img: Buffer, f: Frame): Frame
    requires f.index < |img.nodes|
  {
    var node := img.nodes[f.index];
    Frame(node.left, f.index, f.lower, Limit(node.value.key), f.blackHeight + Weight(node.color))
  }

  function RightFrame(img: Buffer, f: Frame): Frame
    requires f.index < |img.nodes|
  {
    var node := img.nodes[f.index];
    Frame(node.right, f.index, Limit(node.value.key), f.upper, f.blackHeight + Weight(node.color))
  }

  /** One frame on top of the others. */
  lemma OpenPush(img: Buffer, rest: seq<Frame>, f: Frame, seen: set<Index>, n: nat, t: Tree)
    requires Fits(img, f, t, n) && Owned(t) !! seen && Open(img, rest, seen + Owned(t), n)
    ensures Open(img, rest + [f], seen, n)
  {
    var stack := rest + [f];
    assert stack[..|stack| - 1] == rest && stack[|stack| - 1] == f;
  }

  lemma OpenPop(img: Buffer, rest: seq<Frame>, f: Frame, seen: set<Index>, n: nat) returns (t: Tree)
    requires Open(img, rest + [f], seen, n)
    ensures Fits(img, f, t, n) && Owned(t) !! seen && Open(img, rest, seen + Owned(t), n)
  {
    var stack := rest + [f];
    assert stack[..|stack| - 1] == rest && stack[|stack| - 1] == f;
    t :| Fits(img, f, t, n) && Owned(t) !! seen && Open(img, rest, seen + Owned(t), n);
  }

  lemma OpenNil(img: Buffer, rest: seq<Frame>, f: Frame, seen: set<Index>, n: nat)
    requires f.index == NIL
    ensures Open(img, rest + [f], seen, n) <==> f.blackHeight + 1 == n && Open(img, rest, seen, n)
  {
    assert seen + Owned(Leaf) == seen;
    if Open(img, rest + [f], seen, n) {
      var t := OpenPop(img, rest, f, seen, n);
    }
    if f.blackHeight + 1 == n && Open(img, rest, seen, n) {
      OpenPush(img, rest, f, seen, n, Leaf);
    }
  }

  /** A node's tree splits into the node and the trees of its two frames. */
  lemma OpenNode(img: Buffer, rest: seq<Frame>, f: Frame, seen: set<Index>, n: nat)
    requires f.index != NIL
    ensures Open(img, rest + [f], seen, n) ==> NodeOk(img, f, seen)
    ensures NodeOk(img, f, seen) ==>
      (Open(img, rest + [f], seen, n) <==>
       Open(img, rest + [LeftFrame(img, f), RightFrame(img, f)], seen + {f.index}, n))
  {
    if Open(img, rest + [f], seen, n) {
      var t := OpenPop(img, rest, f, seen, n);
      FitsOpens(img, rest, f, seen, n, t);
    }
    if NodeOk(img, f, seen) && Open(img, rest + [LeftFrame(img, f), RightFrame(img, f)], seen + {f.index}, n) {
      OpenFits(img, rest, f, seen, n);
    }
  }

  lemma FitsOpens(img: Buffer, rest: seq<Frame>, f: Frame, seen: set<Index>, n: nat, t: Tree)
    requires f.index != NIL && Fits(img, f, t, n) && Owned(t) !! seen && Open(img, rest, seen + Owned(t), n)
    ensures NodeOk(img, f, seen)
    ensures Open(img, rest + [LeftFrame(img, f), RightFrame(img, f)], seen + {f.index}, n)
  {
    FitsOk(img, f, seen, n, t);
    FitsFrames(img, f, t, n);
    SplitSeen(seen, f.index, Owned(t.left), Owned(t.right), Owned(t));
    OpenTwo(img, rest, LeftFrame(img, f), RightFrame(img, f), seen + {f.index}, n, t.left, t.right);
  }

  /** A node whose tree fits passes its own checks, */
  lemma FitsOk(img: Buffer, f: Frame, seen: set<Index>, n: nat, t: Tree)
    requires f.index != NIL && Fits(img, f, t, n) && Owned(t) !! seen
    ensures NodeOk(img, f, seen)
  {
    ChildFits(img, t);
    assert t.e.slot in Owned(t);
  }

  /** and its subtrees fit the two frames pushed for it. */
  lemma FitsFrames(img: Buffer, f: Frame, t: Tree, n: nat)
    requires f.index != NIL && Fits(img, f, t, n)
    ensures f.index < |img.nodes| && Fits(img, LeftFrame(img, f), t.left, n)
    ensures Fits(img, RightFrame(img, f), t.right, n)
    ensures t.Node? && Owned(t) == Owned(t.left) + {f.index} + Owned(t.right)
    ensures f.index !in Owned(t.left) && f.index !in Owned(t.right) && Owned(t.left) !! Owned(t.right)
  {
    ChildFits(img, t);
  }

  lemma SplitSeen(seen: set<Index>, i: Index, l: set<Index>, r: set<Index>, all: set<Index>)
    requires all == l + {i} + r
    ensures seen + {i} + r + l == seen + all
    ensures all !! seen && i !in l && i !in r && l !! r ==> r !! seen + {i} && l !! seen + {i} + r
    ensures r !! seen + {i} && l !! seen + {i} + r && i !in seen ==> all !! seen && i !in l && i !in r && l !! r
  {
  }

  /** Two frames on top of the others. */
  lemma OpenTwo(img: Buffer, rest: seq<Frame>, l: Frame, r: Frame, seen: set<Index>, n: nat, left: Tree, right: Tree)
    requires Fits(img, l, left, n) && Fits(img, r, right, n) && Owned(right) !! seen
    requires Owned(left) !! seen + Owned(right)
    requires Open(img, rest, seen + Owned(right) + Owned(left), n)
    ensures Open(img, rest + [l, r], seen, n)
  {
    OpenPush(img, rest, l, seen + Owned(right), n, left);
    OpenPush(img, rest + [l], r, seen, n, right);
    assert rest + [l] + [r] == rest + [l, r];
  }

  /** Real subtrees start at real offsets. */
  lemma ChildFits(img: Buffer, t: Tree)
    requires t.Node? && Laid(img, t.left, t.e.slot) && Laid(img, t.right, t.e.slot)
    ensures (Root(t.left) == NIL <==> t.left.Leaf?) && (Root(t.right) == NIL <==> t.right.Leaf?)
  {
    assert NIL % 8 == 7;
  }

  function JoinFrame(img: Buffer, f: Frame, left: Tree, right: Tree): Tree
    requires f.index < |img.nodes|
  {
    var node := img.nodes[f.index];
    Node(left, Entry(f.index, node.payloadType, node.value), node.color, right)
  }

  lemma JoinFits(img: Buffer, f: Frame, seen: set<Index>, n: nat, left: Tree, right: Tree)
    requires f.index != NIL && NodeOk(img, f, seen)
    requires Fits(img, LeftFrame(img, f), left, n) && Fits(img, RightFrame(img, f), right, n)
    requires f.index !in Owned(left) && f.index !in Owned(right) && Owned(left) !! Owned(right)
    ensures Fits(img, f, JoinFrame(img, f, left, right), n)
  {
    var node := img.nodes[f.index];
    if left.Node? { assert left.color == img.nodes[node.left].color && Legal(left.color); }
    if right.Node? { assert right.color == img.nodes[node.right].color && Legal(right.color); }
  }

  lemma OpenFits(img: Buffer, rest: seq<Frame>, f: Frame, seen: set<Index>, n: nat)
    requires f.index != NIL && NodeOk(img, f, seen)
    requires Open(img, rest + [LeftFrame(img, f), RightFrame(img, f)], seen + {f.index}, n)
    ensures Open(img, rest + [f], seen, n)
  {
    var left, right := OpenPopTwo(img, rest, LeftFrame(img, f), RightFrame(img, f), seen + {f.index}, n);
    var t := JoinFrame(img, f, left, right);
    SplitSeen(seen, f.index, Owned(left), Owned(right), Owned(t));
    JoinFits(img, f, seen, n, left, right);
    OpenPush(img, rest, f, seen, n, t);
  }

  lemma OpenPopTwo(img: Buffer, rest: seq<Frame>, l: Frame, r: Frame, seen: set<Index>, n: nat)
    returns (left: Tree, right: Tree)
    requires Open(img, rest + [l, r], seen, n)
    ensures Fits(img, l, left, n) && Fits(img, r, right, n) && Owned(right) !! seen
    ensures Owned(left) !! seen + Owned(right)
    ensures Open(img, rest, seen + Owned(right) + Owned(left), n)
  {
    assert rest + [l, r] == (rest + [l]) + [r];
    right := OpenPop(img, rest + [l], r, seen, n);
    left := OpenPop(img, rest, l, seen + Owned(right), n);
  }

  lemma GoalNil(img: Buffer, rest: seq<Frame>, f: Frame, seen: set<Index>, expected: Bound)
    requires f.index == NIL
    ensures Goal(img, rest + [f], seen, expected) <==>
      (expected.Limit? ==> expected.key == f.blackHeight + 1) && Goal(img, rest, seen, Limit(f.blackHeight + 1))
  {
    forall n: nat ensures Open(img, rest + [f], seen, n) <==> f.blackHeight + 1 == n && Open(img, rest, seen, n) {
      OpenNil(img, rest, f, seen, n);
    }
  }

  lemma GoalNode(img: Buffer, rest: seq<Frame>, f: Frame, seen: set<Index>, expected: Bound)
    requires f.index != NIL
    ensures Goal(img, rest + [f], seen, expected) ==> NodeOk(img, f, seen)
    ensures NodeOk(img, f, seen) ==>
      (Goal(img, rest + [f], seen, expected) <==>
       Goal(img, rest + [LeftFrame(img, f), RightFrame(img, f)], seen + {f.index}, expected))
  {
    forall n: nat
      ensures Open(img, rest + [f], seen, n) ==> NodeOk(img, f, seen)
      ensures NodeOk(img, f, seen) ==>
        (Open(img, rest + [f], seen, n) <==>
         Open(img, rest + [LeftFrame(img, f), RightFrame(img, f)], seen + {f.index}, n))
    {
      OpenNode(img, rest, f, seen, n);
    }
  }

  // ----- the validator

  function Offsets(n: nat): (r: set<Index>)
    ensures forall i: Index :: i in r <==> i < n
  {
    if n == 0 then {} else Offsets(n - 1) + {n - 1}
  }

  /** Offsets of the buffer not visited yet. */
  function Unseen(img: Buffer, seen: set<Index>): set<Index> { Offsets(|img.nodes|) - seen }

  lemma UnseenShrinks(img: Buffer, f: Frame, seen: set<Index>)
    requires NodeOk(img, f, seen)
    ensures Unseen(img, seen + {f.index}) < Unseen(img, seen)
  {
    assert f.index in Unseen(img, seen) && f.index !in Unseen(img, seen + {f.index});
  }

  /** A red node's child may be absent; otherwise it must be readable and not red. */
  method CheckChild(img: Buffer, child: Index) returns (r: Outcome)
    ensures r.Pass? <==> ChildNotRed(img, child)
  {
    if child != NIL {
      if child + img.nodeSize >= USIZE { return Fail("tree node offset overflow"); }
      if child % 8 != 0 || child + img.nodeSize > |img.nodes| {
        return Fail("tree node offset is out of bounds or misaligned");
      }
      if img.nodes[child].color == Red { return Fail("red tree node has a red child"); }
    }
    return Pass;
  }

  /** The checks made on one node before its children are pushed. */
  method CheckNode(img: Buffer, f: Frame, seen: set<Index>) returns (r: Outcome)
    ensures r.Pass? <==> NodeOk(img, f, seen)
  {
    if f.index + img.nodeSize >= USIZE { return Fail("tree node offset overflow"); }
    if f.index % 8 != 0 || f.index + img.nodeSize > |img.nodes| {
      return Fail("tree node offset is out of bounds or misaligned");
    }
    if f.index in seen { return Fail("tree contains a cycle or duplicate child"); }
    var node := img.nodes[f.index];
    if node.color != Black && node.color != Red { return Fail("tree node has invalid color"); }
    if node.parent != f.parent { return Fail("tree node has inconsistent parent"); }
    if (f.lower.Limit? && node.value.key <= f.lower.key) || (f.upper.Limit? && node.value.key > f.upper.key) {
      return Fail("tree violates binary-search ordering");
    }
    if node.color == Red {
      r := CheckChild(img, node.left);
      if r.Fail? { return; }
      r := CheckChild(img, node.right);
      if r.Fail? { return; }
    }
    return Pass;
  }

  lemma ProperOpens(img: Buffer, root: Index, max: Index)
    requires root != NIL && ProperTree(img, root, max)
    ensures Goal(img, [Frame(root, NIL, Free, Free, 0)], {}, Free)
  {
    var t :| IsTree(img, root, t) && (max == NIL || max == MaxSlot(t));
    var f, n := Frame(root, NIL, Free, Free, 0), BlackHeight(t) + 1;
    assert Fits(img, f, t, n);
    OpenPush(img, [], f, {}, n, t);
    assert [] + [f] == [f];
  }

  lemma FitsIsTree(img: Buffer, root: Index, t: Tree, n: nat)
    requires Fits(img, Frame(root, NIL, Free, Free, 0), t, n)
    ensures IsTree(img, root, t)
  {
  }

  lemma OpenIsTree(img: Buffer, root: Index)
    requires root != NIL && Goal(img, [Frame(root, NIL, Free, Free, 0)], {}, Free)
    ensures exists t :: IsTree(img, root, t)
  {
    var f := Frame(root, NIL, Free, Free, 0);
    var n: nat :| Open(img, [f], {}, n);
    assert [] + [f] == [f];
    var t := OpenPop(img, [], f, {}, n);
    FitsIsTree(img, root, t, n);
  }

  /** A buffer lays out at most one tree from a given root. */
  lemma {:induction false} LaidUnique(img: Buffer, t: Tree, t': Tree, parent: Index)
    requires Laid(img, t, parent) && Laid(img, t', parent) && Root(t) == Root(t')
    ensures t == t'
  {
    assert NIL % 8 == 7;
    if t.Node? && t'.Node? {
      LaidUnique(img, t.left, t'.left, t.e.slot);
      LaidUnique(img, t.right, t'.right, t.e.slot);
    }
  }

  /** Right links from the root, against the cached maximum if there is one. */
  method CheckMax(img: Buffer, root: Index, max: Index) returns (r: Outcome)
    requires root != NIL && exists t :: IsTree(img, root, t)
    ensures r.Pass? <==> ProperTree(img, root, max)
  {
    ghost var t :| IsTree(img, root, t);
    ghost var sub, p := t, NIL;
    var computed := root;
    assert NIL % 8 == 7;
    while img.nodes[computed].right != NIL
      invariant sub.Node? && computed == sub.e.slot && Laid(img, sub, p) && MaxNode(sub) == MaxNode(t)
      decreases sub
    {
      assert Laid(img, sub.right, sub.e.slot);
      computed := img.nodes[computed].right;
      sub, p := sub.right, sub.e.slot;
    }
    assert Laid(img, sub.right, sub.e.slot);
    forall t' | IsTree(img, root, t') ensures t' == t {
      LaidUnique(img, t, t', NIL);
    }
    return if max != NIL && max != computed then Fail("tree max node is not the rightmost node") else Pass;
  }

  /** The walk over all nodes, from the root, with a stack of what is still to visit. */
  method CheckNodes(img: Buffer, root: Index) returns (r: Outcome)
    requires root != NIL
    ensures r.Pass? <==> Goal(img, [Frame(root, NIL, Free, Free, 0)], {}, Free)
  {
    var first := Frame(root, NIL, Free, Free, 0);
    var stack, seen, expected := [first], {}, Free;
    ghost var goal := Goal(img, [first], {}, Free);
    while stack != []
      invariant Goal(img, stack, seen, expected) <==> goal
      invariant expected.Limit? ==> expected.key >= 0
      decreases Unseen(img, seen), |stack|
    {
      var f, rest := stack[|stack| - 1], stack[..|stack| - 1];
      assert stack == rest + [f];
      if f.index == NIL {
        GoalNil(img, rest, f, seen, expected);
        var leafHeight := f.blackHeight + 1;
        if expected.Limit? && expected.key != leafHeight {
          return Fail("tree has inconsistent black height");
        }
        stack, expected := rest, Limit(leafHeight);
      } else {
        GoalNode(img, rest, f, seen, expected);
        r := CheckNode(img, f, seen);
        if r.Fail? { return; }
        UnseenShrinks(img, f, seen);
        stack, seen := rest + [LeftFrame(img, f), RightFrame(img, f)], seen + {f.index};
      }
    }
    assert Open(img, [], seen, if expected.Limit? then expected.key else 0);
    return Pass;
  }

  /** Passes exactly the buffers that hold a proper tree: aligned offsets in bounds, each
      used once, matching parents, legal colours, left <= node < right, no red-red
      edge, one black height, and an exact maximum if one is given. */
  method ValidateRedBlackTree(img: Buffer, root: Index, max: Index) returns (r: Outcome)
    ensures r.Pass? <==> ProperTree(img, root, max)
  {
    if root == NIL {
      return if max == NIL then Pass else Fail("empty tree has a max node");
    }
    if ProperTree(img, root, max) { ProperOpens(img, root, max); }
    r := CheckNodes(img, root);
    if r.Fail? { return; }
    OpenIsTree(img, root);
    r := CheckMax(img, root, max);
  }
}
