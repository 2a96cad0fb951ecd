/** Iteration, and whole runs of inserts and removals against a first-in-first-out model. */
module Runs {
  import opened Collections
  import opened Slots
  import opened Trees
  import opened Positions
  import opened LinkedLists
  import opened RedBlackTrees
  import Links
  import Traversal
  import Caching

  /** Walks from the maximum down; holds only the index of the next entry. */
  class ValueIterator {
    const data: array<Slot>
    const rootIndex: Index
    var index: Index
    ghost const tree: Tree
    ghost var ahead: int

    /** `ahead` entries of the ascending sequence are still to come. */
    ghost predicate Valid()
      reads this, data
    {
      Links.Stores(Links.Heap(data[..], rootIndex), tree) && 0 <= ahead <= |Inorder(tree)|
      && index == SlotAt(Inorder(tree), ahead - 1)
    }

    constructor (data: array<Slot>, rootIndex: Index, index: Index, ghost tree: Tree, ghost ahead: int)
      ensures this.data == data && this.rootIndex == rootIndex && this.index == index
      ensures this.tree == tree && this.ahead == ahead
    {
      this.data, this.rootIndex, this.index, this.tree, this.ahead := data, rootIndex, index, tree, ahead;
    }

    method Next() returns (r: Option<(Index, Payload)>)
      requires Valid()
      modifies this
      ensures Valid()
      ensures ahead == if old(ahead) == 0 then 0 else old(ahead) - 1
      ensures r == if old(ahead) == 0 then None else var e := Inorder(tree)[ahead]; Some((e.slot, e.value))
    {
      SlotsInArray(data[..], rootIndex, tree);
      if index == NIL { return None; }
      r := Some((index, data[index].value));
      index := Traversal.GetNextLowerIndex(data, rootIndex, index, data[..], tree, ahead - 1);
      ahead := ahead - 1;
    }
  }

  lemma SlotsInArray(m: Mem, root: Index, t: Tree)
    requires Links.Stores(Links.Heap(m, root), t)
    ensures forall k :: 0 <= k < |Inorder(t)| ==>
      SlotAt(Inorder(t), k) < |m| <= NIL && m[SlotAt(Inorder(t), k)].value == Inorder(t)[k].value
  {
    HoldsEntries(m, t, NIL);
    forall k | 0 <= k < |Inorder(t)|
      ensures SlotAt(Inorder(t), k) < |m| <= NIL && m[SlotAt(Inorder(t), k)].value == Inorder(t)[k].value
    {
      assert HoldsEntry(m, Inorder(t)[k]);
    }
  }

  /** `s` up to and including the entry stored at `slot`. */
  function UpTo(s: seq<Entry>, slot: Index): seq<Entry> {
    if s == [] then [] else if s[0].slot == slot then [s[0]] else [s[0]] + UpTo(s[1..], slot)
  }

  lemma {:induction false} UpToAt(s: seq<Entry>, k: nat)
    requires NoDuplicates(s) && k < |s|
    ensures UpTo(s, s[k].slot) == s[..k + 1]
  {
    if k > 0 {
      assert s[0].slot != s[k].slot;
      UpToAt(s[1..], k - 1);
      assert s[..k + 1] == [s[0]] + s[1..][..k];
    }
  }

  /** What iteration from the cached node `max` reaches; everything when none is cached. */
  function Reached(s: seq<Entry>, max: Index): seq<Entry> { if max == NIL then s else UpTo(s, max) }

  /** Everything is reached exactly when the cache is unused or exact. */
  lemma ReachedAll(t: Tree, max: Index)
    requires Links.Distinct(t) && (max == NIL || max in Links.Owned(t)) && NIL !in Links.Owned(t)
    ensures Reached(Inorder(t), max) == Inorder(t) <==> max == NIL || max == MaxSlot(t)
  {
    var s := Inorder(t);
    if max != NIL {
      DistinctInorder(t);
      MaxIsLast(t);
      var k := PlaceOf(t, max);
      UpToAt(s, k);
      assert k < |s| - 1 ==> s[k].slot != s[|s| - 1].slot;
    }
  }

  /** Where in the sequence a node of the tree stands. */
  lemma PlaceOf(t: Tree, slot: Index) returns (k: nat)
    requires slot in Links.Owned(t)
    ensures k < |Inorder(t)| && Inorder(t)[k].slot == slot
  {
    OwnedIsInorder(t, slot);
    k :| k < |Inorder(t)| && Inorder(t)[k].slot == slot;
  }

  /** Starts at the cached node, or looks the maximum up when none is cached. Any tree in the
      array will do, left-leaning ones too. */
  method Iter(data: array<Slot>, root: Index, max: Index, ghost t: Tree) returns (it: ValueIterator)
    requires Links.Stores(Links.Heap(data[..], root), t) && (max == NIL || max in Links.Owned(t))
    ensures fresh(it) && it.Valid() && it.data == data && it.tree == t
    ensures Inorder(t)[..it.ahead] == Reached(Inorder(t), max)
  {
    var index := max;
    ghost var ahead := |Inorder(t)|;
    if index == NIL {
      index := Traversal.LookupMaxIndex(data, root, t);
      if t.Node? { MaxIsLast(t); }
      assert Inorder(t)[..ahead] == Inorder(t);
    } else {
      DistinctInorder(t);
      ghost var k := PlaceOf(t, max);
      UpToAt(Inorder(t), k);
      ahead := k + 1;
    }
    it := new ValueIterator(data, root, index, t, ahead);
  }

  /** The entries as the iterator yields them: the ascending sequence backwards. */
  function Yielded(s: seq<Entry>): (r: seq<(Index, Payload)>)
    ensures |r| == |s| && forall k :: 0 <= k < |s| ==> r[k] == (s[|s| - 1 - k].slot, s[|s| - 1 - k].value)
  {
    seq(|s|, k requires 0 <= k < |s| => (s[|s| - 1 - k].slot, s[|s| - 1 - k].value))
  }

  /** Draining the iterator yields every entry from the cached node down exactly once, largest
      first: every live entry exactly when the cache is unused or exact. */
  method Drain(data: array<Slot>, root: Index, max: Index, ghost t: Tree) returns (out: seq<(Index, Payload)>)
    requires Links.Stores(Links.Heap(data[..], root), t) && (max == NIL || max in Links.Owned(t))
    ensures out == Yielded(Reached(Inorder(t), max))
    ensures out == Yielded(Inorder(t)) <==> max == NIL || max == MaxSlot(t)
  {
    var it := Iter(data, root, max, t);
    ghost var s := Reached(Inorder(t), max);
    out := [];
    var more := true;
    while more
      invariant it.Valid() && it.tree == t && it.data == data && |out| + it.ahead == |s| && s == Inorder(t)[..|s|]
      invariant forall k :: 0 <= k < |out| ==> out[k] == (s[|s| - 1 - k].slot, s[|s| - 1 - k].value)
      invariant !more ==> it.ahead == 0
      decreases it.ahead, more
    {
      var r := it.Next();
      if r.None? {
        more := false;
      } else {
        out := out + [r.value];
      }
    }
    ghost var h := Links.Heap(data[..], root);
    Caching.NilUnowned(h, t);
    ReachedAll(t, max);
    YieldedSame(s, Inorder(t));
  }

  /** A prefix yields the same only if it is the whole. */
  lemma YieldedSame(s: seq<Entry>, r: seq<Entry>)
    requires |s| <= |r| && s == r[..|s|]
    ensures Yielded(s) == Yielded(r) <==> s == r
  {
    if Yielded(s) == Yielded(r) {
      assert |Yielded(s)| == |s| && |Yielded(r)| == |r|;
    }
  }

  // ----- the first-in-first-out model

  datatype Op = Insert(slot: Index, payloadType: nat, value: Payload) | Remove(slot: Index)

  /** The live entries in arrival order, oldest first. */
  type Arrivals = seq<Entry>

  predicate Live(a: Arrivals, slot: Index) { HasSlot(a, slot) }

  /** An operation the owner of the tree may ask for: a fresh block in, a live one out. */
  predicate Allowed(a: Arrivals, op: Op, size: nat) {
    if op.Insert? then op.slot < size && !Live(a, op.slot) else op.slot == NIL || Live(a, op.slot)
  }

  function Arriving(op: Op): Entry
    requires op.Insert?
  {
    Entry(op.slot, op.payloadType, op.value)
  }

  function Apply(a: Arrivals, op: Op): Arrivals {
    if op.Insert? then a + [Arriving(op)] else if op.slot == NIL then a else Without(a, op.slot)
  }

  /** Both live, `x` the earlier arrival. */
  predicate Older(a: Arrivals, x: Entry, y: Entry) {
    exists k, l :: 0 <= k < l < |a| && a[k] == x && a[l] == y
  }

  /** `x` comes before `y` in the ascending sequence. */
  predicate Ranked(a: Arrivals, x: Entry, y: Entry) {
    x.Key() < y.Key() || (x.Key() == y.Key() && Older(a, y, x))
  }

  /** `s` lists exactly the live entries, by key ascending, and of equal keys the
      youngest first: read backwards, best price first and first come first served. */
  predicate PriceTime(s: seq<Entry>, a: Arrivals) {
    multiset(s) == multiset(a) && InRank(s, a)
  }

  predicate InRank(s: seq<Entry>, a: Arrivals) {
    forall i, j {:trigger Ranked(a, s[i], s[j])} :: 0 <= i < j < |s| ==> Ranked(a, s[i], s[j])
  }

  lemma {:induction false} InsertSortedAt(s: seq<Entry>, e: Entry) returns (p: nat)
    requires Sorted(s)
    ensures p <= |s| && InsertSorted(s, e) == s[..p] + [e] + s[p..]
    ensures AllBelow(s[..p], e.Key()) && AllAtLeast(s[p..], e.Key())
  {
    if s == [] || e.Key() <= s[0].Key() {
      p := 0;
    } else {
      var q := InsertSortedAt(s[1..], e);
      p := q + 1;
      assert s[..p] == [s[0]] + s[1..][..q] && s[p..] == s[1..][q..];
    }
  }

  lemma {:induction false} WithoutAt(s: seq<Entry>, slot: Index) returns (p: nat)
    requires Live(s, slot)
    ensures p < |s| && s[p].slot == slot && Without(s, slot) == Dropped(s, p)
  {
    if s[0].slot == slot {
      p := 0;
    } else {
      var k :| 0 <= k < |s| && s[k].slot == slot;
      assert s[1..][k - 1].slot == slot;
      var q := WithoutAt(s[1..], slot);
      p := q + 1;
      assert Dropped(s, p) == [s[0]] + Dropped(s[1..], q);
    }
  }

  lemma DroppedMultiset(s: seq<Entry>, p: nat)
    requires p < |s|
    ensures multiset(s) == multiset(Dropped(s, p)) + multiset{s[p]}
  {
    assert s == s[..p] + ([s[p]] + s[p + 1..]);
  }

  lemma {:induction false} InsertSortedMultiset(s: seq<Entry>, e: Entry)
    ensures multiset(InsertSorted(s, e)) == multiset(s) + multiset{e}
  {
    if s != [] && s[0].Key() < e.Key() {
      InsertSortedMultiset(s[1..], e);
      assert s == [s[0]] + s[1..];
    }
  }

  /** A newcomer takes its place behind everyone of its price. */
  lemma InsertPriceTime(s: seq<Entry>, a: Arrivals, e: Entry)
    requires PriceTime(s, a) && Sorted(s)
    ensures PriceTime(InsertSorted(s, e), a + [e])
  {
    InsertSortedMultiset(s, e);
    var p := InsertSortedAt(s, e);
    var r, b := InsertSorted(s, e), a + [e];
    forall i, j | 0 <= i < j < |r| ensures Ranked(b, r[i], r[j]) {
      InsertedRank(s, a, e, p, i, j);
    }
  }

  lemma InsertedRank(s: seq<Entry>, a: Arrivals, e: Entry, p: nat, i: nat, j: nat)
    requires PriceTime(s, a) && p <= |s| && i < j <= |s|
    requires AllBelow(s[..p], e.Key()) && AllAtLeast(s[p..], e.Key())
    ensures var r := s[..p] + [e] + s[p..]; Ranked(a + [e], r[i], r[j])
  {
    var r := s[..p] + [e] + s[p..];
    if i == p {
      assert r[j] == s[p..][j - p - 1] == s[j - 1];
      ArrivedBefore(s, a, e, j - 1);
    } else if j == p {
      assert r[i] == s[..p][i];
    } else {
      var i', j' := if i < p then i else i - 1, if j < p then j else j - 1;
      assert r[i] == s[i'] && r[j] == s[j'] && Ranked(a, s[i'], s[j']);
      OlderStays(a, e, s[j'], s[i']);
    }
  }

  lemma ArrivedBefore(s: seq<Entry>, a: Arrivals, e: Entry, j: nat)
    requires multiset(s) == multiset(a) && j < |s|
    ensures Older(a + [e], s[j], e)
  {
    assert s[j] in multiset(s);
    assert s[j] in a;
    var k :| 0 <= k < |a| && a[k] == s[j];
    assert (a + [e])[k] == s[j] && (a + [e])[|a|] == e;
  }

  lemma OlderStays(a: Arrivals, e: Entry, x: Entry, y: Entry)
    ensures Older(a, x, y) ==> Older(a + [e], x, y)
  {
    if Older(a, x, y) {
      var k, l :| 0 <= k < l < |a| && a[k] == x && a[l] == y;
      assert (a + [e])[k] == x && (a + [e])[l] == y;
    }
  }

  /** A departure leaves everyone else in order. */
  lemma RemovePriceTime(s: seq<Entry>, a: Arrivals, slot: Index)
    requires PriceTime(s, a) && NoDuplicates(a) && NoDuplicates(s) && Live(a, slot)
    ensures PriceTime(Without(s, slot), Without(a, slot))
  {
    var q := WithoutAt(a, slot);
    SameSlots(s, a, slot);
    var p := WithoutAt(s, slot);
    SameEntry(s, a, p, q);
    DropBoth(s, a, p, q);
  }

  lemma DropBoth(s: seq<Entry>, a: Arrivals, p: nat, q: nat)
    requires PriceTime(s, a) && NoDuplicates(s) && p < |s| && q < |a| && s[p] == a[q]
    ensures PriceTime(Dropped(s, p), Dropped(a, q))
  {
    DroppedMultiset(s, p);
    DroppedMultiset(a, q);
    assert multiset(Dropped(s, p)) == multiset(s) - multiset{s[p]};
    assert multiset(Dropped(a, q)) == multiset(a) - multiset{a[q]};
    forall i, j | 0 <= i < j < |Dropped(s, p)| ensures Ranked(Dropped(a, q), Dropped(s, p)[i], Dropped(s, p)[j]) {
      DroppedRank(s, a, p, q, i, j);
    }
  }

  lemma DroppedRank(s: seq<Entry>, a: Arrivals, p: nat, q: nat, i: nat, j: nat)
    requires InRank(s, a) && NoDuplicates(s) && p < |s| && q < |a| && s[p] == a[q] && i < j < |s| - 1
    ensures Ranked(Dropped(a, q), Dropped(s, p)[i], Dropped(s, p)[j])
  {
    var i', j' := if i < p then i else i + 1, if j < p then j else j + 1;
    assert Dropped(s, p)[i] == s[i'] && Dropped(s, p)[j] == s[j'] && Ranked(a, s[i'], s[j']);
    assert s[i'].slot != s[p].slot && s[j'].slot != s[p].slot;
    OlderWithout(a, q, s[j'], s[i']);
  }

  lemma SameEntry(s: seq<Entry>, a: Arrivals, p: nat, q: nat)
    requires multiset(s) == multiset(a) && NoDuplicates(a) && p < |s| && q < |a| && s[p].slot == a[q].slot
    ensures s[p] == a[q]
  {
    assert s[p] in multiset(a);
    var k :| 0 <= k < |a| && a[k] == s[p];
    assert !(k < q) && !(q < k);
  }

  lemma OlderWithout(a: Arrivals, q: nat, x: Entry, y: Entry)
    requires q < |a| && x.slot != a[q].slot && y.slot != a[q].slot
    ensures Older(a, x, y) ==> Older(Dropped(a, q), x, y)
  {
    if Older(a, x, y) {
      var k, l :| 0 <= k < l < |a| && a[k] == x && a[l] == y;
      var b := Dropped(a, q);
      assert b[if k < q then k else k - 1] == x && b[if l < q then l else l - 1] == y;
    }
  }

  /** The model leaves no choice: a run determines the whole sequence. */
  lemma PriceTimeUnique(s: seq<Entry>, s': seq<Entry>, a: Arrivals)
    requires NoDuplicates(a) && PriceTime(s, a) && PriceTime(s', a)
    ensures s == s'
  {
    RankedUnique(s, s', a);
  }

  lemma {:induction false} RankedUnique(s: seq<Entry>, s': seq<Entry>, a: Arrivals)
    requires NoDuplicates(a) && multiset(s) == multiset(s') && InRank(s, a) && InRank(s', a)
    ensures s == s'
  {
    assert |s| == |multiset(s)| == |multiset(s')| == |s'|;
    if s != [] {
      FirstSame(s, s', a);
      SameTails(s, s');
      TailRanked(s, a);
      TailRanked(s', a);
      RankedUnique(s[1..], s'[1..], a);
      assert s == [s[0]] + s[1..] && s' == [s'[0]] + s'[1..];
    }
  }

  lemma SameTails(s: seq<Entry>, s': seq<Entry>)
    requires s != [] && s' != [] && s[0] == s'[0] && multiset(s) == multiset(s')
    ensures multiset(s[1..]) == multiset(s'[1..])
  {
    assert s == [s[0]] + s[1..] && s' == [s[0]] + s'[1..];
    assert multiset(s[1..]) == multiset(s) - multiset{s[0]};
  }

  lemma TailRanked(s: seq<Entry>, a: Arrivals)
    requires s != [] && InRank(s, a)
    ensures InRank(s[1..], a)
  {
    forall i, j | 0 <= i < j < |s[1..]| ensures Ranked(a, s[1..][i], s[1..][j]) {
      assert Ranked(a, s[i + 1], s[j + 1]);
    }
  }

  lemma FirstSame(s: seq<Entry>, s': seq<Entry>, a: Arrivals)
    requires NoDuplicates(a) && multiset(s) == multiset(s') && InRank(s, a) && InRank(s', a)
    requires s != [] && s' != []
    ensures s[0] == s'[0]
  {
    RankedAsymmetric(a, s[0], s'[0]);
    assert s[0] in multiset(s') && s'[0] in multiset(s);
    RankFirst(s, a, s'[0]);
    RankFirst(s', a, s[0]);
  }

  lemma RankFirst(s: seq<Entry>, a: Arrivals, x: Entry)
    requires s != [] && InRank(s, a) && x in s
    ensures x == s[0] || Ranked(a, s[0], x)
  {
    var j :| 0 <= j < |s| && s[j] == x;
    if j > 0 {
      assert Ranked(a, s[0], s[j]);
    }
  }

  lemma RankedAsymmetric(a: Arrivals, x: Entry, y: Entry)
    requires NoDuplicates(a)
    ensures !(Ranked(a, x, y) && Ranked(a, y, x))
  {
  }

  // ----- runs

  /** The arrivals after a run from empty. */
  function Replay(ops: seq<Op>): Arrivals {
    if ops == [] then [] else Apply(Replay(ops[..|ops| - 1]), ops[|ops| - 1])
  }

  /** Every operation is allowed when its turn comes. */
  predicate AllowedRun(ops: seq<Op>, size: nat) {
    forall n :: 0 <= n < |ops| ==> Allowed(Replay(ops[..n]), ops[n], size)
  }

  /** Running the operations on an empty tree: after every one of them the tree is valid,
      its maximum exact, and its sequence the price-time order of what is live. */
  method Run(tree: RedBlackTree, ops: seq<Op>)
    requires tree.Valid() && tree.MaxExact() && tree.tree.Leaf? && AllowedRun(ops, tree.data.Length)
    modifies tree, tree.data
    ensures tree.Valid() && tree.MaxExact() && PriceTime(tree.Contents(), Replay(ops)) && NoDuplicates(Replay(ops))
  {
    for n := 0 to |ops|
      invariant tree.Valid() && tree.MaxExact()
      invariant PriceTime(tree.Contents(), Replay(ops[..n])) && NoDuplicates(Replay(ops[..n]))
    {
      assert ops[..n + 1][..n] == ops[..n];
      Step(tree, ops[n], Replay(ops[..n]));
    }
    assert ops[..|ops|] == ops;
  }

  /** One operation of a run. */
  method Step(tree: RedBlackTree, op: Op, ghost a: Arrivals)
    requires tree.Valid() && tree.MaxSound() && PriceTime(tree.Contents(), a) && NoDuplicates(a)
    requires Allowed(a, op, tree.data.Length)
    modifies tree, tree.data
    ensures tree.Valid() && tree.MaxSound() && (old(tree.MaxExact()) ==> tree.MaxExact())
    ensures PriceTime(tree.Contents(), Apply(a, op)) && NoDuplicates(Apply(a, op))
  {
    OwnedIsInorder(tree.tree, op.slot);
    SameSlots(tree.Contents(), a, op.slot);
    DistinctInorder(tree.tree);
    ApplyPriceTime(tree.Contents(), a, op, tree.data.Length);
    match op
    case Insert(slot, payloadType, value) =>
      SoundIsKnown(tree);
      var rounds := tree.InsertWithPayloadType(slot, value, payloadType);
    case Remove(slot) => var rounds := tree.RemoveByIndex(slot);
  }

  /** What one operation makes of the ascending sequence. */
  function Sequenced(s: seq<Entry>, op: Op): seq<Entry> {
    if op.Insert? then InsertSorted(s, Arriving(op)) else if op.slot == NIL then s else Without(s, op.slot)
  }

  lemma ApplyPriceTime(s: seq<Entry>, a: Arrivals, op: Op, size: nat)
    requires Sorted(s) && NoDuplicates(s) && NoDuplicates(a) && PriceTime(s, a) && Allowed(a, op, size)
    ensures PriceTime(Sequenced(s, op), Apply(a, op)) && NoDuplicates(Apply(a, op))
  {
    if op.Insert? {
      InsertPriceTime(s, a, Arriving(op));
      NotLiveFresh(a, Arriving(op));
    } else if op.slot != NIL {
      RemovePriceTime(s, a, op.slot);
      var q := WithoutAt(a, op.slot);
    }
  }

  lemma SameSlots(s: seq<Entry>, a: Arrivals, slot: Index)
    requires multiset(s) == multiset(a)
    ensures HasSlot(s, slot) <==> Live(a, slot)
  {
    if HasSlot(s, slot) {
      var k :| 0 <= k < |s| && s[k].slot == slot;
      assert s[k] in multiset(a) && s[k] in a;
    }
    if Live(a, slot) {
      var k :| 0 <= k < |a| && a[k].slot == slot;
      assert a[k] in multiset(s) && a[k] in s;
    }
  }

  lemma NotLiveFresh(a: Arrivals, e: Entry)
    requires NoDuplicates(a) && !Live(a, e.slot)
    ensures NoDuplicates(a + [e])
  {
  }

  // ----- what a run and an iteration show together

  /** `p` belongs before `q`: a better key, or the same key and an earlier arrival. */
  predicate Better(a: Arrivals, p: (Index, Payload), q: (Index, Payload)) {
    p.1.key > q.1.key || (p.1.key == q.1.key && ArrivedFirst(a, p.0, q.0))
  }

  predicate ArrivedFirst(a: Arrivals, i: Index, j: Index) {
    exists k, l :: 0 <= k < l < |a| && a[k].slot == i && a[l].slot == j
  }

  /** Each live slot once with its payload, best key first and oldest first among equals. */
  predicate BestFirst(out: seq<(Index, Payload)>, a: Arrivals) {
    && |out| == |a| && (forall i, j :: 0 <= i < j < |out| ==> out[i].0 != out[j].0)
    && (forall k :: 0 <= k < |a| ==> (a[k].slot, a[k].value) in out)
    && forall i, j {:trigger Better(a, out[i], out[j])} :: 0 <= i < j < |out| ==> Better(a, out[i], out[j])
  }

  lemma PriceTimeYields(s: seq<Entry>, a: Arrivals)
    requires PriceTime(s, a) && NoDuplicates(s)
    ensures BestFirst(Yielded(s), a)
  {
    var out, n := Yielded(s), |s|;
    assert |s| == |multiset(s)| == |a|;
    forall k | 0 <= k < |a| ensures (a[k].slot, a[k].value) in out {
      assert a[k] in multiset(s);
      assert a[k] in s;
      var i :| 0 <= i < n && s[i] == a[k];
      assert out[n - 1 - i] == (a[k].slot, a[k].value);
    }
    forall i, j | 0 <= i < j < n ensures Better(a, out[i], out[j]) {
      RankedBetter(a, s[n - 1 - j], s[n - 1 - i]);
      assert Ranked(a, s[n - 1 - j], s[n - 1 - i]);
    }
  }

  lemma RankedBetter(a: Arrivals, x: Entry, y: Entry)
    ensures Ranked(a, x, y) ==> Better(a, (y.slot, y.value), (x.slot, x.value))
  {
    if x.Key() == y.Key() && Older(a, y, x) {
      var k, l :| 0 <= k < l < |a| && a[k] == y && a[l] == x;
      assert ArrivedFirst(a, y.slot, x.slot);
    }
  }

  /** After every run from empty, iterating yields each live slot exactly once, best key
      first, and of equal keys the one that arrived first. */
  method RunAndDrain(tree: RedBlackTree, ops: seq<Op>) returns (out: seq<(Index, Payload)>)
    requires tree.Valid() && tree.MaxExact() && tree.tree.Leaf? && AllowedRun(ops, tree.data.Length)
    modifies tree, tree.data
    ensures tree.Valid() && BestFirst(out, Replay(ops))
  {
    Run(tree, ops);
    SoundIsKnown(tree);
    out := Drain(tree.data, tree.rootIndex, tree.maxIndex, tree.tree);
    DistinctInorder(tree.tree);
    PriceTimeYields(tree.Contents(), Replay(ops));
  }
}
