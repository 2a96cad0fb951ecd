/** The unordered doubly linked list over the same node blocks. */
module LinkedLists {
  import opened Collections
  import opened Slots

  /** The block of the `k`th node: next in `right`, previous in `parent`, nothing in `left`. */
  function ListHeader(s: seq<Entry>, k: int): Slot
    requires 0 <= k < |s|
  {
    Slot(NIL, SlotAt(s, k + 1), SlotAt(s, k - 1), Black, s[k].payloadType, s[k].value)
  }

  function SlotsOf(s: seq<Entry>): set<Index> { set e | e in s :: e.slot }

  /** The array is exactly a list of `s` starting at `head`. */
  predicate StoresList(m: Mem, head: Index, s: seq<Entry>) {
    && |m| <= NIL && head == SlotAt(s, 0) && NoDuplicates(s)
    && forall k :: 0 <= k < |s| ==> NodeAt(m, s, k)
  }

  predicate NodeAt(m: Mem, s: seq<Entry>, k: int)
    requires 0 <= k < |s|
  {
    s[k].slot < |m| && m[s[k].slot] == ListHeader(s, k)
  }

  lemma SlotsReal(m: Mem, head: Index, s: seq<Entry>)
    requires StoresList(m, head, s)
    ensures forall k :: 0 <= k < |s| ==> SlotAt(s, k) != NIL
  {
    forall k | 0 <= k < |s| ensures SlotAt(s, k) != NIL {
      assert NodeAt(m, s, k);
    }
  }

  /** The `k`th entry, stored at `r`, is the first with this value. */
  predicate FirstEqual(s: seq<Entry>, k: int, r: Index, value: Payload) {
    0 <= k < |s| && s[k].slot == r && s[k].value == value && forall j :: 0 <= j < k ==> s[j].value != value
  }

  class LinkedList {
    const data: array<Slot>
    var headIndex: Index
    ghost var entries: seq<Entry>

    ghost predicate Valid()
      reads this, data
    {
      StoresList(data[..], headIndex, entries)
    }

    constructor (data: array<Slot>, headIndex: Index, ghost entries: seq<Entry>)
      ensures this.data == data && this.headIndex == headIndex && this.entries == entries
    {
      this.data, this.headIndex, this.entries := data, headIndex, entries;
    }

    method GetNextIndex(index: Index, ghost k: int) returns (next: Index)
      requires Valid() && (index == NIL || (0 <= k < |entries| && entries[k].slot == index))
      ensures next == if index == NIL then NIL else SlotAt(entries, k + 1)
    {
      assert index != NIL ==> NodeAt(data[..], entries, k);
      next := if index == NIL then NIL else data[index].right;
    }

    method GetPrevIndex(index: Index, ghost k: int) returns (prev: Index)
      requires Valid() && (index == NIL || (0 <= k < |entries| && entries[k].slot == index))
      ensures prev == if index == NIL then NIL else SlotAt(entries, k - 1)
    {
      assert index != NIL ==> NodeAt(data[..], entries, k);
      prev := if index == NIL then NIL else data[index].parent;
    }

    /** Updating an entry's payload in place, while walking. */
    method SetValue(index: Index, value: Payload, ghost k: int)
      requires Valid() && 0 <= k < |entries| && entries[k].slot == index
      modifies data, this`entries
      ensures Valid() && entries == old(entries)[k := old(entries)[k].(value := value)]
      ensures SameOutside(old(data[..]), data[..], {index})
    {
      assert NodeAt(data[..], entries, k);
      ghost var m, s := data[..], entries;
      data[index] := data[index].(value := value);
      entries := s[k := s[k].(value := value)];
      forall j | 0 <= j < |s| ensures NodeAt(data[..], entries, j) {
        assert NodeAt(m, s, j);
      }
    }

    /** Linear scan: the first node with an equal value, NIL when there is none. */
    method LookupIndex(value: Payload) returns (r: Index)
      requires Valid()
      ensures if r == NIL then forall k :: 0 <= k < |entries| ==> entries[k].value != value
        else exists k :: FirstEqual(entries, k, r, value)
    {
      r := headIndex;
      ghost var k := 0;
      SlotsReal(data[..], headIndex, entries);
      while r != NIL
        invariant 0 <= k <= |entries| && r == SlotAt(entries, k)
        invariant forall j :: 0 <= j < k ==> entries[j].value != value
        decreases |entries| - k
      {
        assert NodeAt(data[..], entries, k);
        if data[r].value == value {
          assert FirstEqual(entries, k, r, value);
          return;
        }
        r := data[r].right;
        k := k + 1;
      }
    }

    /** Insert at the head. */
    method Insert(index: Index, value: Payload)
      requires Valid() && index < data.Length && index !in SlotsOf(entries)
      modifies this, data
      ensures Valid() && entries == [Entry(index, 0, value)] + old(entries)
      ensures SameOutside(old(data[..]), data[..], SlotsOf(old(entries)) + {index})
    {
      var oldHead := headIndex;
      ghost var m, s := data[..], entries;
      assert s != [] ==> NodeAt(m, s, 0) && s[0].slot in SlotsOf(s);
      data[index] := Slot(NIL, oldHead, NIL, Black, 0, value);
      if oldHead != NIL {
        data[oldHead] := data[oldHead].(parent := index);
      }
      headIndex := index;
      entries := [Entry(index, 0, value)] + s;
      PrependedStores(m, data[..], oldHead, s, entries[0]);
    }

    /** Unlink the `k`th node, wherever it is; NIL is silently ignored. Its links are cleared. */
    method RemoveByIndex(index: Index, ghost k: int)
      requires Valid() && (index == NIL || (0 <= k < |entries| && entries[k].slot == index))
      modifies this, data
      ensures Valid() && entries == if index == NIL then old(entries) else Dropped(old(entries), k)
      ensures SameOutside(old(data[..]), data[..], SlotsOf(old(entries)))
      ensures index != NIL ==> index < data.Length && data[index] == old(data[index]).(parent := NIL, right := NIL)
    {
      if index == NIL { return; }
      ghost var s := entries;
      assert NodeAt(data[..], s, k) && s[k].slot in SlotsOf(s);
      assert k > 0 ==> NodeAt(data[..], s, k - 1) && s[k - 1].slot in SlotsOf(s) && s[k - 1].slot != index;
      assert k + 1 < |s| ==> NodeAt(data[..], s, k + 1) && s[k + 1].slot in SlotsOf(s) && s[k + 1].slot != index;
      var prev, next := data[index].parent, data[index].right;
      data[index] := data[index].(parent := NIL, right := NIL);
      if prev == NIL {
        headIndex := next;
      } else {
        data[prev] := data[prev].(right := next);
      }
      if next != NIL {
        data[next] := data[next].(parent := prev);
      }
      entries := Dropped(s, k);
      DroppedStores(old(data[..]), data[..], old(headIndex), headIndex, s, k);
    }
  }

  /** After unlinking the `k`th node the rest is a list. */
  lemma DroppedStores(m: Mem, m': Mem, head: Index, head': Index, s: seq<Entry>, k: int)
    requires StoresList(m, head, s) && 0 <= k < |s| && |m'| == |m|
    requires var prev, next := SlotAt(s, k - 1), SlotAt(s, k + 1);
      && head' == (if k == 0 then next else head)
      && (k > 0 ==> At(m', prev) == At(m, prev).(right := next))
      && (k + 1 < |s| ==> At(m', next) == At(m, next).(parent := prev))
      && forall i: Index :: i < |m| && i != s[k].slot && i != prev && i != next ==> m'[i] == m[i]
    ensures StoresList(m', head', Dropped(s, k))
  {
    var r := Dropped(s, k);
    forall j | 0 <= j < |r| ensures NodeAt(m', r, j) {
      var j' := if j < k then j else j + 1;
      assert NodeAt(m, s, j') && r[j] == s[j'];
      assert s[j'].slot != s[k].slot;
      assert j' != k - 1 && k > 0 ==> s[j'].slot != s[k - 1].slot;
      assert j' != k + 1 && k + 1 < |s| ==> s[j'].slot != s[k + 1].slot;
    }
  }

  /** After linking a new node before the head. */
  lemma PrependedStores(m: Mem, m': Mem, head: Index, s: seq<Entry>, e: Entry)
    requires StoresList(m, head, s) && |m'| == |m| && e.slot < |m| && e.slot !in SlotsOf(s)
    requires m'[e.slot] == Slot(NIL, head, NIL, Black, e.payloadType, e.value)
    requires s != [] ==> head < |m| && m'[head] == m[head].(parent := e.slot)
    requires forall i: Index :: i < |m| && i != e.slot && i != head ==> m'[i] == m[i]
    ensures StoresList(m', e.slot, [e] + s)
  {
    var r := [e] + s;
    assert forall k :: 0 <= k < |s| ==> s[k].slot in SlotsOf(s);
    forall k | 0 <= k < |r| ensures NodeAt(m', r, k) {
      if k > 0 {
        assert NodeAt(m, s, k - 1) && r[k] == s[k - 1];
        assert k > 1 ==> s[k - 1].slot != s[0].slot;
      }
    }
  }

  /** What a walk decides at each visit, from the number of the visit and the payload found. */
  type Decision = (nat, Payload) -> bool

  /** Of the first `j` entries those whose visits do not end in removal, in order. */
  function KeptOf(s: seq<Entry>, j: nat, drop: Decision): seq<Entry>
    requires j <= |s|
  {
    if j == 0 then [] else KeptOf(s, j - 1, drop) + if drop(j - 1, s[j - 1].value) then [] else [s[j - 1]]
  }

  function Kept(s: seq<Entry>, drop: Decision): seq<Entry> { KeptOf(s, |s|, drop) }

  function SlotSeq(s: seq<Entry>): (r: seq<Index>)
    ensures |r| == |s| && forall i :: 0 <= i < |r| ==> r[i] == s[i].slot
  {
    seq(|s|, i requires 0 <= i < |s| => s[i].slot)
  }

  /** The blocks of the first entries, in order. */
  predicate Visits(visited: seq<Index>, s: seq<Entry>) {
    |visited| <= |s| && forall k :: 0 <= k < |visited| ==> visited[k] == s[k].slot
  }

  /** Where a walk that visited `visited` stands: `kept` behind it, the rest of the original
      list `s` ahead, and since memory `m0` only blocks of the list have been written. */
  ghost predicate Walking(list: LinkedList, m0: Mem, s: seq<Entry>, visited: seq<Index>, kept: seq<Entry>,
                          drop: Decision, index: Index)
    reads list, list.data
  {
    && Visits(visited, s) && list.Valid() && kept == KeptOf(s, |visited|, drop)
    && list.entries == kept + s[|visited|..] && index == SlotAt(list.entries, |kept|)
    && SameOutside(m0, list.data[..], SlotsOf(s))
  }

  /** One visit: read the next link first, then remove the node or step over it. */
  method WalkStep(list: LinkedList, drop: Decision, index: Index, visited: seq<Index>,
                  ghost m0: Mem, ghost s: seq<Entry>, ghost kept: seq<Entry>)
    returns (next: Index, visited': seq<Index>, ghost kept': seq<Entry>)
    requires Walking(list, m0, s, visited, kept, drop, index) && index != NIL
    modifies list, list.data
    ensures |visited'| == |visited| + 1 <= |s| && Walking(list, m0, s, visited', kept', drop, next)
  {
    WalkAhead(list, m0, s, visited, kept, drop, index);
    visited' := visited + [index];
    next := list.GetNextIndex(index, |kept|);
    if drop(|visited|, list.data[index].value) {
      list.RemoveByIndex(index, |kept|);
      kept' := kept;
    } else {
      kept' := kept + [s[|visited|]];
    }
  }

  /** The node at hand, and what is left when it goes or stays. */
  lemma WalkAhead(list: LinkedList, m0: Mem, s: seq<Entry>, visited: seq<Index>, kept: seq<Entry>, drop: Decision,
                  index: Index)
    requires Walking(list, m0, s, visited, kept, drop, index) && index != NIL
    ensures var j, k, entries := |visited|, |kept|, list.entries;
      && j < |s| && k < |entries| && entries[k] == s[j] && s[j].slot == index < list.data.Length
      && list.data[index].value == s[j].value
      && Dropped(entries, k) == kept + s[j + 1..] && entries == kept + [s[j]] + s[j + 1..]
      && SlotAt(entries, k + 1) == SlotAt(kept + s[j + 1..], k) == SlotAt(kept + [s[j]] + s[j + 1..], k + 1)
    ensures SlotsOf(list.entries) <= SlotsOf(s)
  {
    Ahead(kept, s, |visited|);
    StillListed(s, |visited|, drop);
    assert NodeAt(list.data[..], list.entries, |kept|);
  }

  /** The node ahead dropped, or counted as kept. */
  lemma Ahead(kept: seq<Entry>, s: seq<Entry>, j: nat)
    requires j < |s|
    ensures var t := kept + s[j..];
      t[|kept|] == s[j] && Dropped(t, |kept|) == kept + s[j + 1..] && t == kept + [s[j]] + s[j + 1..]
  {
  }

  /** What is left during a walk was there before it. */
  lemma StillListed(s: seq<Entry>, j: int, drop: Decision)
    requires 0 <= j <= |s|
    ensures SlotsOf(KeptOf(s, j, drop) + s[j..]) <= SlotsOf(s)
  {
    KeptListed(s, j, drop);
  }

  lemma {:induction false} KeptListed(s: seq<Entry>, j: nat, drop: Decision)
    requires j <= |s|
    ensures forall e :: e in KeptOf(s, j, drop) ==> e in s
  {
    if j > 0 {
      KeptListed(s, j - 1, drop);
    }
  }

  lemma WalkStarts(list: LinkedList, drop: Decision)
    requires list.Valid()
    ensures Walking(list, list.data[..], list.entries, [], [], drop, list.headIndex)
  {
    assert [] + list.entries[0..] == list.entries;
  }

  lemma WalkEnds(list: LinkedList, m0: Mem, s: seq<Entry>, visited: seq<Index>, kept: seq<Entry>, drop: Decision)
    requires Walking(list, m0, s, visited, kept, drop, NIL)
    ensures visited == SlotSeq(s) && list.Valid() && list.entries == Kept(s, drop)
    ensures SameOutside(m0, list.data[..], SlotsOf(s))
  {
    SlotsReal(list.data[..], list.headIndex, list.entries);
    assert |list.entries| <= |kept|;
    assert |visited| == |s|;
    assert kept + s[|visited|..] == kept;
  }

  /** Of `s` exactly the entries that are not dropped remain, each once, in the same order. */
  ghost predicate Remain(s: seq<Entry>, r: seq<Entry>, drop: Decision) {
    && (forall j: nat :: j < |s| ==> (s[j] in r <==> !drop(j, s[j].value)))
    && (forall e :: e in r ==> e in s) && SameOrder(s, r)
  }

  /** What comes later in `r` also comes later in `s`. */
  predicate SameOrder(s: seq<Entry>, r: seq<Entry>) {
    forall i, j, a, b :: 0 <= i < |s| && 0 <= j < |s| && 0 <= a < b < |r| && r[a] == s[i] && r[b] == s[j] ==> i < j
  }

  lemma OrderMore(s: seq<Entry>, r: seq<Entry>, e: Entry)
    requires SameOrder(s, r) && e !in s && forall x :: x in r ==> x in s
    ensures SameOrder(s + [e], r) && SameOrder(s + [e], r + [e])
  {
    var s', r' := s + [e], r + [e];
    forall i, j, a, b | 0 <= i < |s'| && 0 <= j < |s'| && 0 <= a < b < |r'| && r'[a] == s'[i] && r'[b] == s'[j]
      ensures i < j
    {
      assert r[a] in r;
      if b < |r| { assert r[b] in r; }
    }
  }

  lemma RemainMore(s: seq<Entry>, r: seq<Entry>, e: Entry, s': seq<Entry>, r': seq<Entry>, drop: Decision)
    requires Remain(s, r, drop) && e !in s && s' == s + [e]
    requires r' == r + if drop(|s|, e.value) then [] else [e]
    ensures Remain(s', r', drop)
  {
    OrderMore(s, r, e);
    assert SameOrder(s', r') by { assert r + [] == r; }
    forall j: nat | j < |s'| ensures s'[j] in r' <==> !drop(j, s'[j].value) {
      if j < |s| { assert s'[j] == s[j] != e; }
    }
  }

  lemma {:induction false} KeptRemain(s: seq<Entry>, j: nat, drop: Decision)
    requires j <= |s| && NoDuplicates(s)
    ensures Remain(s[..j], KeptOf(s, j, drop), drop)
  {
    if j == 0 {
      assert s[..0] == [];
    } else {
      KeptRemain(s, j - 1, drop);
      NewToPrefix(s, j);
      RemainMore(s[..j - 1], KeptOf(s, j - 1, drop), s[j - 1], s[..j], KeptOf(s, j, drop), drop);
    }
  }

  lemma NewToPrefix(s: seq<Entry>, j: nat)
    requires 0 < j <= |s| && NoDuplicates(s)
    ensures s[..j] == s[..j - 1] + [s[j - 1]] && s[j - 1] !in s[..j - 1]
  {
  }

  lemma AllRemain(s: seq<Entry>, drop: Decision)
    requires NoDuplicates(s)
    ensures Remain(s, Kept(s, drop), drop)
  {
    KeptRemain(s, |s|, drop);
    assert s[..|s|] == s;
  }

  /** Walking with the next link read before each removal visits every original node
      once, in order, and leaves exactly the nodes that were not dropped. */
  method WalkAndRemove(list: LinkedList, drop: Decision) returns (visited: seq<Index>)
    requires list.Valid()
    modifies list, list.data
    ensures list.Valid() && list.entries == Kept(old(list.entries), drop)
    ensures Remain(old(list.entries), list.entries, drop)
    ensures visited == SlotSeq(old(list.entries))
    ensures SameOutside(old(list.data[..]), list.data[..], SlotsOf(old(list.entries)))
  {
    ghost var m0, s := list.data[..], list.entries;
    ghost var kept: seq<Entry> := [];
    var index := list.headIndex;
    visited := [];
    WalkStarts(list, drop);
    while index != NIL
      invariant Walking(list, m0, s, visited, kept, drop, index)
      decreases |s| - |visited|
    {
      index, visited, kept := WalkStep(list, drop, index, visited, m0, s, kept);
    }
    WalkEnds(list, m0, s, visited, kept, drop);
    AllRemain(s, drop);
  }

  // ----- iteration

  /** The shared iterator over a list: from the head, holding only the next index. */
  class ListIterator {
    const data: array<Slot>
    var index: Index
    ghost const head: Index
    ghost const entries: seq<Entry>
    ghost var done: int

    ghost predicate Valid()
      reads this, data
    {
      StoresList(data[..], head, entries) && 0 <= done <= |entries| && index == SlotAt(entries, done)
    }

    constructor (list: LinkedList)
      requires list.Valid()
      ensures Valid() && data == list.data && entries == list.entries && done == 0
    {
      data, index, head, entries, done := list.data, list.headIndex, list.headIndex, list.entries, 0;
    }

    method Next() returns (r: Option<(Index, Payload)>)
      requires Valid()
      modifies this
      ensures Valid()
      ensures if old(done) == |entries| then r == None && done == old(done)
        else done == old(done) + 1 && r == Some((entries[old(done)].slot, entries[old(done)].value))
    {
      SlotsReal(data[..], head, entries);
      if index == NIL { return None; }
      assert NodeAt(data[..], entries, done);
      r := Some((index, data[index].value));
      index := data[index].right;
      done := done + 1;
    }
  }

  function Listed(s: seq<Entry>): (r: seq<(Index, Payload)>)
    ensures |r| == |s| && forall k :: 0 <= k < |s| ==> r[k] == (s[k].slot, s[k].value)
  {
    seq(|s|, k requires 0 <= k < |s| => (s[k].slot, s[k].value))
  }

  /** Iterating a list yields every entry exactly once, from the head. */
  method DrainList(list: LinkedList) returns (out: seq<(Index, Payload)>)
    requires list.Valid()
    ensures out == Listed(list.entries)
  {
    var it := new ListIterator(list);
    out := [];
    var more := true;
    while more
      invariant it.Valid() && it.data == list.data && it.entries == list.entries
      invariant it.done == |out| && forall k :: 0 <= k < |out| ==> out[k] == Listed(list.entries)[k]
      invariant !more ==> it.done == |list.entries|
      decreases |list.entries| - it.done, more
    {
      var r := it.Next();
      if r.None? {
        more := false;
      } else {
        out := out + [r.value];
      }
    }
  }
}
