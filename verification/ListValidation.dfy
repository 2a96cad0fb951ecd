/** Checking untrusted bytes before they are walked as a list. */
module ListValidation {
  import opened Collections
  import opened Slots
  import Validation

  datatype Result = Ok(count: nat) | Err(message: string)

  const USIZE := Validation.USIZE

  /** `nodes[o]` is what reading a node from byte `o` gives; the buffer starts at address `base`. */
  datatype ListImage = ListImage(nodes: seq<Slot>, nodeSize: nat, base: nat, align: nat)

  type ListBuffer = img: ListImage | 16 <= img.nodeSize && |img.nodes| < USIZE && img.align > 0
    witness ListImage([], 16, 0, 1)

  predicate Aligned(img: ListBuffer, start: nat) { (img.base + start) % USIZE % img.align == 0 }

  predicate InBuffer(img: ListBuffer, start: nat) { start + img.nodeSize <= |img.nodes| }

  function IndexAt(s: seq<Index>, k: int): Index { if 0 <= k < |s| then s[k] else NIL }

  /** What holds of the `k`th node by itself and its link back. */
  predicate NodeOk(img: ListBuffer, s: seq<Index>, k: int)
    requires 0 <= k < |s|
  {
    && s[k] != NIL && Aligned(img, s[k]) && InBuffer(img, s[k])
    && img.nodes[s[k]].parent == IndexAt(s, k - 1) && img.nodes[s[k]].left == NIL
  }

  /** Two different nodes share no byte. */
  predicate Apart(img: ListBuffer, x: nat, y: nat) { x + img.nodeSize <= y || y + img.nodeSize <= x }

  /** The nodes of a walk so far: each checked, each leading to the next, none twice. */
  predicate Walked(img: ListBuffer, head: Index, s: seq<Index>, index: Index) {
    && IndexAt(s + [index], 0) == head
    && (forall k :: 0 <= k < |s| ==> NodeOk(img, s, k))
    && (forall k :: 0 <= k < |s| ==> Leads(img, s, k, index))
  }

  predicate Leads(img: ListBuffer, s: seq<Index>, k: int, index: Index)
    requires 0 <= k < |s|
  {
    InBuffer(img, s[k]) && img.nodes[s[k]].right == if k + 1 < |s| then s[k + 1] else index
  }

  /** An acyclic chain from `head`: back links match, nothing on the left, and no two
      nodes overlap. */
  predicate ProperList(img: ListBuffer, head: Index, s: seq<Index>) {
    Walked(img, head, s, NIL) && Unique(s) && AllApart(img, s)
  }

  /** A chain is determined by its head, so every chain goes the way of the walk. */
  lemma {:induction false} WalkIsPrefix(img: ListBuffer, head: Index, s: seq<Index>, index: Index, c: seq<Index>)
    requires Walked(img, head, s, index) && Walked(img, head, c, NIL)
    ensures |s| <= |c| && c[..|s|] == s && index == IndexAt(c, |s|)
  {
    if s != [] {
      var init, last := s[..|s| - 1], s[|s| - 1];
      WalkShorter(img, head, s, index);
      WalkIsPrefix(img, head, init, last, c);
      assert NodeOk(img, s, |s| - 1) && Leads(img, s, |s| - 1, index);
      assert Leads(img, c, |s| - 1, NIL);
      assert c[..|s|] == init + [last];
    } else {
      assert IndexAt([] + [index], 0) == index;
      assert c != [] ==> IndexAt(c + [NIL], 0) == c[0];
    }
  }

  lemma WalkShorter(img: ListBuffer, head: Index, s: seq<Index>, index: Index)
    requires Walked(img, head, s, index) && s != []
    ensures Walked(img, head, s[..|s| - 1], s[|s| - 1])
  {
    var init, last := s[..|s| - 1], s[|s| - 1];
    forall k | 0 <= k < |init| ensures NodeOk(img, init, k) {
      assert NodeOk(img, s, k);
    }
    forall k | 0 <= k < |init| ensures Leads(img, init, k, last) {
      assert Leads(img, s, k, index);
    }
    assert init + [s[|s| - 1]] == s && (s + [index])[0] == s[0];
  }

  lemma WalkLonger(img: ListBuffer, head: Index, s: seq<Index>, index: Index)
    requires Walked(img, head, s, index) && NodeOk(img, s + [index], |s|)
    ensures Walked(img, head, s + [index], img.nodes[index].right)
  {
    var r := s + [index];
    forall k | 0 <= k < |r| ensures NodeOk(img, r, k) && Leads(img, r, k, img.nodes[index].right) {
      if k < |s| {
        assert NodeOk(img, s, k) && Leads(img, s, k, index);
      }
    }
  }

  // ----- sorting the starts

  predicate Ascending(s: seq<nat>) { forall i, j :: 0 <= i < j < |s| ==> s[i] <= s[j] }

  function InsertStart(s: seq<nat>, x: nat): seq<nat> {
    if s == [] || x <= s[0] then [x] + s else [s[0]] + InsertStart(s[1..], x)
  }

  /** The starts in ascending order. */
  function SortStarts(s: seq<nat>): seq<nat> {
    if s == [] then [] else InsertStart(SortStarts(s[..|s| - 1]), s[|s| - 1])
  }

  lemma PrependAscending(x: nat, r: seq<nat>)
    requires Ascending(r) && (r != [] ==> x <= r[0])
    ensures Ascending([x] + r)
  {
    var s := [x] + r;
    forall i, j | 0 <= i < j < |s| ensures s[i] <= s[j] {
      assert s[j] == r[j - 1] && r[0] <= r[j - 1];
    }
  }

  lemma {:induction false} InsertStartSorts(s: seq<nat>, x: nat)
    requires Ascending(s)
    ensures Ascending(InsertStart(s, x)) && multiset(InsertStart(s, x)) == multiset(s) + multiset{x}
  {
    if s == [] || x <= s[0] {
      PrependAscending(x, s);
    } else {
      InsertStartSorts(s[1..], x);
      PrependAscending(s[0], InsertStart(s[1..], x));
      assert s == [s[0]] + s[1..];
    }
  }

  lemma {:induction false} SortStartsSorts(s: seq<nat>)
    ensures Ascending(SortStarts(s)) && multiset(SortStarts(s)) == multiset(s)
  {
    if s != [] {
      SortStartsSorts(s[..|s| - 1]);
      InsertStartSorts(SortStarts(s[..|s| - 1]), s[|s| - 1]);
      SnocMultiset(s);
    }
  }

  lemma SnocMultiset(s: seq<nat>)
    requires s != []
    ensures multiset(s) == multiset(s[..|s| - 1]) + multiset{s[|s| - 1]}
  {
    assert s == s[..|s| - 1] + [s[|s| - 1]];
  }

  predicate Gaps(s: seq<nat>, size: nat) { forall k :: 0 <= k < |s| - 1 ==> s[k] + size <= s[k + 1] }

  lemma {:induction false} GapsFar(s: seq<nat>, size: nat, i: nat, j: nat)
    requires Ascending(s) && Gaps(s, size) && i < j < |s|
    ensures s[i] + size <= s[j]
    decreases j - i
  {
    if i + 1 < j {
      GapsFar(s, size, i + 1, j);
    }
  }

  predicate AllApart(img: ListBuffer, s: seq<Index>) {
    forall i, j :: 0 <= i < j < |s| ==> Apart(img, s[i], s[j])
  }

  /** Gaps between neighbours once sorted are gaps between all pairs. */
  lemma GapsApart(img: ListBuffer, s: seq<Index>)
    requires Unique(s)
    ensures Gaps(SortStarts(s), img.nodeSize) <==> AllApart(img, s)
  {
    var r := SortStarts(s);
    SortStartsSorts(s);
    if Gaps(r, img.nodeSize) {
      forall i, j | 0 <= i < j < |s| ensures Apart(img, s[i], s[j]) {
        PlacesApart(img, s, r, i, j);
      }
    }
    if AllApart(img, s) {
      forall k | 0 <= k < |r| - 1 ensures r[k] + img.nodeSize <= r[k + 1] {
        NeighboursApart(img, s, r, k);
      }
    }
  }

  lemma PlacesApart(img: ListBuffer, s: seq<Index>, r: seq<nat>, i: nat, j: nat)
    requires multiset(r) == multiset(s) && Ascending(r) && Gaps(r, img.nodeSize)
    requires i < j < |s| && s[i] != s[j]
    ensures Apart(img, s[i], s[j])
  {
    var a := SortedPlace(s, r, i);
    var b := SortedPlace(s, r, j);
    if a < b {
      GapsFar(r, img.nodeSize, a, b);
    } else {
      GapsFar(r, img.nodeSize, b, a);
    }
  }

  lemma SortedPlace(s: seq<nat>, r: seq<nat>, i: nat) returns (a: nat)
    requires multiset(r) == multiset(s) && i < |s|
    ensures a < |r| && r[a] == s[i]
  {
    assert s[i] in multiset(r);
    a :| 0 <= a < |r| && r[a] == s[i];
  }

  lemma NeighboursApart(img: ListBuffer, s: seq<nat>, r: seq<nat>, k: nat)
    requires multiset(r) == multiset(s) && Ascending(r) && k + 1 < |r|
    requires Unique(s) && AllApart(img, s)
    ensures r[k] + img.nodeSize <= r[k + 1]
  {
    var i := SortedPlace(r, s, k);
    var j := SortedPlace(r, s, k + 1);
    if i == j {
      RepeatedTwice(r, k);
      OnceOnly(s, i);
    }
  }

  lemma RepeatedTwice(r: seq<nat>, k: nat)
    requires k + 1 < |r| && r[k] == r[k + 1]
    ensures multiset(r)[r[k]] >= 2
  {
    assert r == r[..k] + [r[k], r[k + 1]] + r[k + 2..];
  }

  lemma OnceOnly(s: seq<nat>, i: nat)
    requires i < |s| && Unique(s)
    ensures multiset(s)[s[i]] == 1
  {
    assert s == s[..i] + [s[i]] + s[i + 1..];
    assert s[i] !in s[..i] && s[i] !in s[i + 1..];
  }

  // ----- the validator

  /** Every chain passes the node the walk has come to. */
  lemma SamePlace(img: ListBuffer, head: Index, s: seq<Index>, index: Index, c: seq<Index>)
    requires Walked(img, head, s, index) && Walked(img, head, c, NIL) && index != NIL
    ensures |s| < |c| && c[|s|] == index && c[..|s|] == s
    ensures NodeOk(img, c, |s|) <==> NodeOk(img, s + [index], |s|)
  {
    WalkIsPrefix(img, head, s, index, c);
    if s != [] {
      assert c[|s| - 1] == c[..|s|][|s| - 1];
    }
  }

  /** The walk has met a node that no proper list has at this place. */
  lemma NoList(img: ListBuffer, head: Index, s: seq<Index>, index: Index)
    requires Walked(img, head, s, index) && index != NIL
    requires index in s || !NodeOk(img, s + [index], |s|)
    ensures forall c :: !ProperList(img, head, c)
  {
    forall c ensures !ProperList(img, head, c) {
      if Walked(img, head, c, NIL) {
        SamePlace(img, head, s, index, c);
        if index in s {
          var k :| 0 <= k < |s| && s[k] == index;
          assert c[k] == c[..|s|][k] == c[|s|];
        }
      }
    }
  }

  lemma EndsAtNil(img: ListBuffer, head: Index, c: seq<Index>)
    requires Walked(img, head, c, NIL)
    ensures forall k :: 0 <= k < |c| ==> IndexAt(c, k) != NIL
  {
    forall k | 0 <= k < |c| ensures IndexAt(c, k) != NIL {
      assert NodeOk(img, c, k);
    }
  }

  /** The same in numbers: from `head` along the right links to NIL, each node aligned in memory
      and wholly in the buffer, with a link back, nothing on its left, and no byte shared. */
  predicate Chain(img: ListBuffer, head: Index, s: seq<Index>) {
    && head == (if s == [] then NIL else s[0])
    && (forall k :: 0 <= k < |s| ==> ChainNode(img, s, k))
    && forall i, j :: 0 <= i < j < |s| ==> s[i] + img.nodeSize <= s[j] || s[j] + img.nodeSize <= s[i]
  }

  predicate ChainNode(img: ListBuffer, s: seq<Index>, k: int)
    requires 0 <= k < |s|
  {
    && s[k] != NIL && (img.base + s[k]) % 0x1_0000_0000_0000_0000 % img.align == 0
    && s[k] + img.nodeSize <= |img.nodes| && img.nodes[s[k]].left == NIL
    && img.nodes[s[k]].parent == (if k == 0 then NIL else s[k - 1])
    && img.nodes[s[k]].right == if k + 1 < |s| then s[k + 1] else NIL
  }

  lemma ChainIsProper(img: ListBuffer, head: Index, s: seq<Index>)
    ensures Chain(img, head, s) <==> ProperList(img, head, s)
  {
    if Chain(img, head, s) {
      ChainWalked(img, head, s);
      forall i, j | 0 <= i < j < |s| ensures Apart(img, s[i], s[j]) {}
    }
    if ProperList(img, head, s) {
      ProperChain(img, head, s);
    }
  }

  lemma ProperChain(img: ListBuffer, head: Index, s: seq<Index>)
    requires ProperList(img, head, s)
    ensures Chain(img, head, s)
  {
    forall k | 0 <= k < |s| ensures ChainNode(img, s, k) {
      assert NodeOk(img, s, k) && Leads(img, s, k, NIL);
    }
    forall i, j | 0 <= i < j < |s| ensures s[i] + img.nodeSize <= s[j] || s[j] + img.nodeSize <= s[i] {
      assert Apart(img, s[i], s[j]);
    }
  }

  lemma ChainWalked(img: ListBuffer, head: Index, s: seq<Index>)
    requires Chain(img, head, s)
    ensures Walked(img, head, s, NIL) && Unique(s)
  {
    forall k | 0 <= k < |s| ensures NodeOk(img, s, k) && Leads(img, s, k, NIL) {
      assert ChainNode(img, s, k);
    }
  }

  /** Where `n` right links lead; NIL past the end. */
  function After(img: ListBuffer, o: Index, n: nat): Index
    decreases n
  {
    if n == 0 then o else if o == NIL || o >= |img.nodes| then NIL else After(img, img.nodes[o].right, n - 1)
  }

  lemma {:induction false} ChainFollows(img: ListBuffer, head: Index, s: seq<Index>, k: nat, n: nat)
    requires Chain(img, head, s) && k < |s|
    ensures After(img, s[k], n) == if k + n < |s| then s[k + n] else NIL
    decreases n
  {
    if n > 0 {
      assert ChainNode(img, s, k);
      if k + 1 < |s| {
        ChainFollows(img, head, s, k + 1, n - 1);
      } else {
        assert n == 1 || After(img, NIL, n - 1) == NIL;
      }
    }
  }

  /** Every node that the links lead to is wholly in the buffer and aligned in memory. */
  lemma ChainReadable(img: ListBuffer, head: Index, s: seq<Index>, n: nat)
    requires Chain(img, head, s) && After(img, head, n) != NIL
    ensures After(img, head, n) + img.nodeSize <= |img.nodes|
    ensures (img.base + After(img, head, n)) % 0x1_0000_0000_0000_0000 % img.align == 0
  {
    if s != [] {
      ChainFollows(img, head, s, 0, n);
      assert ChainNode(img, s, n);
    }
  }

  /** A node that the links lead to but the end of the buffer cuts off, or that is not aligned in
      memory, fails the list. */
  lemma UnreadableRejected(img: ListBuffer, head: Index, n: nat)
    requires After(img, head, n) != NIL
    requires After(img, head, n) + img.nodeSize > |img.nodes|
             || (img.base + After(img, head, n)) % 0x1_0000_0000_0000_0000 % img.align != 0
    ensures forall s :: !Chain(img, head, s)
  {
    forall s ensures !Chain(img, head, s) {
      if Chain(img, head, s) {
        ChainReadable(img, head, s, n);
      }
    }
  }

  /** Ok(n) exactly for a chain of n nodes, each aligned in memory and in bounds, with
      matching back links, no left children, no cycle and no two nodes overlapping. */
  method ValidateLinkedList(img: ListBuffer, head: Index) returns (r: Result)
    ensures r.Ok? <==> exists s :: Chain(img, head, s)
    ensures forall s :: Chain(img, head, s) ==> r == Ok(|s|)
  {
    forall s ensures Chain(img, head, s) <==> ProperList(img, head, s) { ChainIsProper(img, head, s); }
    var starts: seq<Index>, visited: set<Index> := [], {};
    var prev: Index, index: Index := NIL, head;
    assert IndexAt([] + [index], 0) == index;
    while index != NIL
      invariant Walked(img, head, starts, index) && Unique(starts) && prev == IndexAt(starts, |starts| - 1)
      invariant forall i: Index :: i in visited <==> i in starts
      invariant visited <= Validation.Offsets(|img.nodes|)
      decreases Validation.Offsets(|img.nodes|) - visited
    {
      var s: seq<Index> := starts + [index];
      if index in starts || !NodeOk(img, s, |starts|) { NoList(img, head, starts, index); }
      if (img.base + index) % USIZE % img.align != 0 { return Err("linked list node is misaligned"); }
      if index + img.nodeSize > |img.nodes| { return Err("linked list node is out of bounds"); }
      if index in visited { return Err("linked list has a cycle"); }
      var node := img.nodes[index];
      if node.parent != prev { return Err("linked list previous link is inconsistent"); }
      if node.left != NIL { return Err("linked list node has a left child"); }
      WalkLonger(img, head, starts, index);
      prev, index, starts, visited := index, node.right, s, visited + {index};
    }
    GapsApart(img, starts);
    forall c | ProperList(img, head, c) ensures c == starts {
      WalkIsPrefix(img, head, starts, NIL, c);
      EndsAtNil(img, head, c);
    }
    var sorted := SortStarts(starts);
    var k := 0;
    while k + 1 < |sorted|
      invariant 0 <= k && (sorted != [] ==> k < |sorted|)
      invariant forall j :: 0 <= j < k && j + 1 < |sorted| ==> sorted[j] + img.nodeSize <= sorted[j + 1]
    {
      if sorted[k + 1] - sorted[k] < img.nodeSize { return Err("linked list nodes overlap"); }
      k := k + 1;
    }
    assert ProperList(img, head, starts);
    return Ok(|starts|);
  }
}
