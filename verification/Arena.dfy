/** Several trees, a list and the pool of free blocks in one array. Every block has one owner,
    and each operation hands over exactly the blocks it should: one from or to the pool, or a
    whole tree's to the list. */
module Arenas {
  import opened Collections
  import opened Slots
  import opened RedBlackTrees
  import LinkedLists
  import Conversion
  import FreeLists
  import Links
  import Trees
  import Positions
  import Caching

  lemma StoresFrame(m: Mem, m': Mem, root: Index, t: Trees.Tree)
    requires Links.Stores(Links.Heap(m, root), t) && Links.Agree(m, m', Links.Owned(t))
    ensures Links.Stores(Links.Heap(m', root), t)
  {
    Links.HoldsFrame(m, m', t, NIL);
  }

  lemma ListFrame(m: Mem, m': Mem, head: Index, s: seq<Entry>)
    requires LinkedLists.StoresList(m, head, s) && Links.Agree(m, m', LinkedLists.SlotsOf(s))
    ensures LinkedLists.StoresList(m', head, s)
  {
    forall k | 0 <= k < |s| ensures LinkedLists.NodeAt(m', s, k) {
      assert LinkedLists.NodeAt(m, s, k) && s[k].slot in LinkedLists.SlotsOf(s);
    }
  }

  lemma AgreeOutside(m: Mem, m': Mem, x: set<Index>, s: set<Index>)
    requires SameOutside(m, m', x) && x !! s
    ensures Links.Agree(m, m', s)
  {
  }

  /** Removal frees exactly the removed block. */
  lemma RemoveOwns(t: Trees.Tree, slot: Index)
    requires Links.Distinct(t) && Trees.Balanced(t) && slot in Links.Owned(t)
    ensures Links.Owned(Positions.RemoveAt(t, slot)) == Links.Owned(t) - {slot}
  {
    var t' := Positions.RemoveAt(t, slot);
    Positions.RemoveAtOrder(t, slot);
    Positions.CutAt(t, slot);
    Positions.DistinctInorder(t);
    var z := Positions.Find(Trees.Top, t, slot);
    var a, b := Trees.Before(z.ctx) + Trees.Inorder(z.t.left), Trees.Inorder(z.t.right) + Trees.After(z.ctx);
    forall i: Index ensures i in Links.Owned(t') <==> i in Links.Owned(t) && i != slot {
      Positions.OwnedIsInorder(t, i);
      Positions.OwnedIsInorder(t', i);
      Positions.HasSlotConcat(a, b, i);
      Positions.HasSlotConcat(a, [z.t.e], i);
      Positions.HasSlotConcat(a + [z.t.e], b, i);
      assert Positions.HasSlot([z.t.e], i) <==> i == slot by { assert [z.t.e][0] == z.t.e; }
      OnlyOnce(a, z.t.e, b);
    }
  }

  lemma OnlyOnce(a: seq<Entry>, e: Entry, b: seq<Entry>)
    requires NoDuplicates(a + [e] + b)
    ensures !Positions.HasSlot(a, e.slot) && !Positions.HasSlot(b, e.slot)
  {
    var s := a + [e] + b;
    assert s[|a|] == e;
    assert forall k :: 0 <= k < |a| ==> s[k] == a[k];
    assert forall k :: 0 <= k < |b| ==> s[|a| + 1 + k] == b[k];
  }

  /** Who a block belongs to. */
  datatype Owner = TreeNumber(j: int) | TheList | ThePool | Nobody

  /** The blocks in `s` are exactly the ones that belong to `o`. */
  predicate Belong(owner: seq<Owner>, s: set<Index>, o: Owner) {
    && (forall i: Index :: i in s ==> i < |owner| && owner[i] == o)
    && forall i: Index :: i < |owner| && owner[i] == o ==> i in s
  }

  /** Giving block `index` to `o'` moves it from one owner's blocks to another's. */
  lemma HandOver(owner: seq<Owner>, s: set<Index>, o: Owner, index: Index, o': Owner)
    requires Belong(owner, s, o) && index < |owner| && owner[index] != o'
    ensures Belong(owner[index := o'], if o == o' then s + {index} else if o == owner[index] then s - {index} else s, o)
  {
  }

  /** Every block of `o` handed over to `o'`. */
  function Transferred(owner: seq<Owner>, o: Owner, o': Owner): (r: seq<Owner>)
    ensures |r| == |owner| && forall i :: 0 <= i < |r| ==> r[i] == if owner[i] == o then o' else owner[i]
  {
    seq(|owner|, i requires 0 <= i < |owner| => if owner[i] == o then o' else owner[i])
  }

  /** Handing over all blocks of `o` leaves `o` with none and everybody else as they were. */
  lemma HandOverAll(owner: seq<Owner>, s: set<Index>, p: Owner, o: Owner, o': Owner)
    requires Belong(owner, s, p) && p != o'
    ensures Belong(Transferred(owner, o, o'), if p == o then {} else s, p)
  {
  }

  lemma TakeOverAll(owner: seq<Owner>, s: set<Index>, o: Owner, o': Owner)
    requires Belong(owner, s, o) && Belong(owner, {}, o') && o != o'
    ensures Belong(Transferred(owner, o, o'), s, o')
  {
  }

  lemma ReversedSlots(t: Trees.Tree)
    ensures LinkedLists.SlotsOf(Conversion.Reversed(Trees.Inorder(t))) == Links.Owned(t)
  {
    var s := Trees.Inorder(t);
    forall i: Index ensures i in LinkedLists.SlotsOf(Conversion.Reversed(s)) <==> i in Links.Owned(t) {
      Positions.OwnedIsInorder(t, i);
      ReversedHas(s, i);
      SlotsHave(Conversion.Reversed(s), i);
    }
  }

  lemma ReversedHas(s: seq<Entry>, i: Index)
    ensures Positions.HasSlot(Conversion.Reversed(s), i) <==> Positions.HasSlot(s, i)
  {
    var r := Conversion.Reversed(s);
    if Positions.HasSlot(r, i) {
      var k :| 0 <= k < |r| && r[k].slot == i;
      assert s[|s| - 1 - k].slot == i;
    }
    if Positions.HasSlot(s, i) {
      var k :| 0 <= k < |s| && s[k].slot == i;
      assert r[|s| - 1 - k] == s[k];
    }
  }

  lemma SlotsHave(s: seq<Entry>, i: Index)
    ensures i in LinkedLists.SlotsOf(s) <==> Positions.HasSlot(s, i)
  {
    if Positions.HasSlot(s, i) {
      var k :| 0 <= k < |s| && s[k].slot == i;
      assert s[k] in s;
    }
  }

  class Arena {
    const data: array<Slot>
    const trees: seq<RedBlackTree>
    const list: LinkedLists.LinkedList
    const free: FreeLists.FreeList
    /** One owner for every block. */
    ghost var owner: seq<Owner>

    constructor (data: array<Slot>, trees: seq<RedBlackTree>, list: LinkedLists.LinkedList, free: FreeLists.FreeList,
                 ghost owner: seq<Owner>)
      ensures this.data == data && this.trees == trees && this.list == list && this.free == free && this.owner == owner
    {
      this.data, this.trees, this.list, this.free, this.owner := data, trees, list, free, owner;
    }

    ghost function OwnedByTree(j: int): set<Index>
      requires 0 <= j < |trees|
      reads trees[j]
    {
      Links.Owned(trees[j].tree)
    }

    ghost function OwnedByList(): set<Index>
      reads list
    {
      LinkedLists.SlotsOf(list.entries)
    }

    ghost function Pool(): set<Index>
      reads free
    {
      FreeLists.Blocks(free.free)
    }

    /** All structures live in this array, and are different objects. */
    predicate Shared() {
      && (forall j :: 0 <= j < |trees| ==> trees[j].data == data) && list.data == data && free.data == data
      && (forall i, j :: 0 <= i < j < |trees| ==> trees[i] != trees[j])
    }

    /** Each structure owns exactly the blocks in its name, so no block has two owners. */
    ghost predicate Tallied(owner: seq<Owner>)
      reads trees, list, free
    {
      && |owner| == data.Length && Shared()
      && (forall j :: 0 <= j < |trees| ==> Belong(owner, OwnedByTree(j), TreeNumber(j)))
      && Belong(owner, OwnedByList(), TheList) && Belong(owner, Pool(), ThePool)
    }

    /** One block has gone from nobody to tree `j` (or to the list or pool for -1), or back. */
    lemma Retally(owner: seq<Owner>, index: Index, o: Owner, j: int)
      requires |owner| == data.Length && Shared() && index < |owner| && owner[index] != o
      requires forall i :: 0 <= i < |trees| && i != j ==>
        Belong(owner, OwnedByTree(i), TreeNumber(i)) && TreeNumber(i) != o && TreeNumber(i) != owner[index]
      requires 0 <= j < |trees| ==> Belong(owner[index := o], OwnedByTree(j), TreeNumber(j))
      requires Belong(owner[index := o], OwnedByList(), TheList) && Belong(owner[index := o], Pool(), ThePool)
      ensures Tallied(owner[index := o])
    {
      forall i | 0 <= i < |trees| && i != j ensures Belong(owner[index := o], OwnedByTree(i), TreeNumber(i)) {
        HandOver(owner, OwnedByTree(i), TreeNumber(i), index, o);
      }
    }

    /** Tree `i` is whole in memory `m`. */
    ghost predicate WholeIn(m: Mem, i: int)
      requires 0 <= i < |trees|
      reads trees[i]
    {
      && Links.Stores(Links.Heap(m, trees[i].rootIndex), trees[i].tree)
      && Trees.RedBlack(trees[i].tree) && Sorted(trees[i].Contents()) && trees[i].MaxSound()
    }

    /** The trees and the list are whole in `m`; every block has its one owner, except
        that nobody owns `index`. */
    ghost predicate WholeBut(m: Mem, index: Index)
      reads `owner, trees, list, free
    {
      && Tallied(owner) && LinkedLists.StoresList(m, list.headIndex, list.entries)
      && (forall i :: 0 <= i < |trees| ==> WholeIn(m, i)) && AllOwned(owner, index)
    }

    /** Every block but `index` has an owner that exists. */
    ghost predicate AllOwned(owner: seq<Owner>, index: Index) {
      && (forall i: Index :: i < |owner| ==> (owner[i] == Nobody <==> i == index))
      && (forall i: Index :: i < |owner| && owner[i].TreeNumber? ==> 0 <= owner[i].j < |trees|)
    }

    /** Every block of the array has exactly one owner, none is lost, and every structure is whole. */
    ghost predicate Valid()
      reads `owner, trees, list, free, data
    {
      WholeBut(data[..], NIL) && data.Length <= NIL && free.Valid()
    }

    /** Structures that own none of the changed blocks stay whole. */
    lemma OthersWhole(m: Mem, j: int, x: set<Index>)
      requires SameOutside(m, data[..], x)
      requires forall i :: 0 <= i < |trees| && i != j ==> WholeIn(m, i) && x !! OwnedByTree(i)
      ensures forall i :: 0 <= i < |trees| && i != j ==> WholeIn(data[..], i)
    {
      forall i | 0 <= i < |trees| && i != j ensures WholeIn(data[..], i) {
        assert WholeIn(m, i);
        AgreeOutside(m, data[..], x, OwnedByTree(i));
        StoresFrame(m, data[..], trees[i].rootIndex, trees[i].tree);
      }
    }

    lemma ListWhole(m: Mem, x: set<Index>)
      requires SameOutside(m, data[..], x) && x !! OwnedByList()
      requires LinkedLists.StoresList(m, list.headIndex, list.entries)
      ensures LinkedLists.StoresList(data[..], list.headIndex, list.entries)
    {
      AgreeOutside(m, data[..], x, OwnedByList());
      ListFrame(m, data[..], list.headIndex, list.entries);
    }

    /** Different owners have different blocks. */
    lemma Apart(s: set<Index>, o: Owner, s': set<Index>, o': Owner)
      requires Belong(owner, s, o) && Belong(owner, s', o') && o != o'
      ensures s !! s'
    {
    }

    /** Every block is in the pool, in the list or in a tree, and in one of them only. */
    ghost predicate Partitioned()
      reads trees, list, free
    {
      && (forall i: Index :: i < data.Length ==> i in Pool() || i in OwnedByList() || exists j :: InTree(i, j))
      && Pool() !! OwnedByList()
      && (forall j :: 0 <= j < |trees| ==> OwnedByTree(j) !! Pool() && OwnedByTree(j) !! OwnedByList())
      && (forall j, k :: 0 <= j < k < |trees| ==> OwnedByTree(j) !! OwnedByTree(k))
    }

    ghost predicate InTree(i: Index, j: int)
      reads trees
    {
      0 <= j < |trees| && i in OwnedByTree(j)
    }

    /** No block is lost and none is owned twice. */
    lemma ValidPartitions()
      requires Valid()
      ensures Partitioned()
    {
      forall i: Index | i < data.Length ensures i in Pool() || i in OwnedByList() || exists j :: InTree(i, j) {
        if owner[i].TreeNumber? {
          assert Belong(owner, OwnedByTree(owner[i].j), owner[i]) && InTree(i, owner[i].j);
        }
      }
      Apart(Pool(), ThePool, OwnedByList(), TheList);
      forall j | 0 <= j < |trees| ensures OwnedByTree(j) !! Pool() && OwnedByTree(j) !! OwnedByList() {
        Apart(OwnedByTree(j), TreeNumber(j), Pool(), ThePool);
        Apart(OwnedByTree(j), TreeNumber(j), OwnedByList(), TheList);
      }
      forall j, k | 0 <= j < k < |trees| ensures OwnedByTree(j) !! OwnedByTree(k) {
        Apart(OwnedByTree(j), TreeNumber(j), OwnedByTree(k), TreeNumber(k));
      }
    }

    /** Takes a block out of the pool, or NIL when there is none. */
    method Allocate() returns (index: Index)
      requires Valid()
      modifies this, free, data
      ensures old(free.free) == [] ==> index == NIL && free.free == [] && data[..] == old(data[..]) && Valid()
      ensures old(free.free) != [] ==>
        && index < data.Length && old(free.free) == [index] + free.free && free.Valid()
        && WholeBut(old(data[..]), index) && SameOutside(old(data[..]), data[..], {index})
    {
      ghost var m, pool := data[..], free.free;
      index := free.Remove();
      if pool != [] {
        assert index in FreeLists.Blocks(pool) && FreeLists.Blocks(pool) == {index} + Pool();
        owner := owner[index := Nobody];
        assert forall i :: 0 <= i < |trees| ==> WholeIn(m, i) && Belong(owner, OwnedByTree(i), TreeNumber(i));
      }
    }

    /** Gives a block that nobody owns to the pool. */
    method FreeBlock(index: Index)
      requires index < data.Length <= NIL && free.Valid() && WholeBut(data[..], index)
      modifies this, free, data
      ensures Valid() && free.free == [index] + old(free.free) && SameOutside(old(data[..]), data[..], {index})
    {
      ghost var m := data[..];
      assert owner[index] == Nobody;
      free.Add(index);
      assert Pool() == old(Pool()) + {index};
      OthersWhole(m, -1, {index});
      ListWhole(m, {index});
      HandOver(owner, old(Pool()), ThePool, index, ThePool);
      HandOver(owner, OwnedByList(), TheList, index, ThePool);
      Retally(owner, index, ThePool, -1);
      owner := owner[index := ThePool];
      assert forall i :: 0 <= i < |trees| ==> WholeIn(data[..], i);
    }

    /** Allocates a block and inserts there; NIL when the pool is empty. Nothing but the
        tree's own blocks and the new one is written, and ownership moves with the block. */
    method InsertIntoTree(j: int, value: Payload, payloadType: nat) returns (index: Index)
      requires Valid() && 0 <= j < |trees|
      modifies this, trees[j], free, data
      ensures Valid()
      ensures old(free.free) == [] ==>
        index == NIL && trees[j].Contents() == old(trees[j].Contents()) && free.free == []
      ensures old(free.free) != [] ==>
        && old(free.free) == [index] + free.free
        && trees[j].Contents() == InsertSorted(old(trees[j].Contents()), Entry(index, payloadType, value))
        && OwnedByTree(j) == old(OwnedByTree(j)) + {index}
      ensures SameOutside(old(data[..]), data[..], old(OwnedByTree(j)) + {index})
    {
      ghost var m := data[..];
      index := Allocate();
      if index == NIL { return; }
      PlaceInTree(m, j, index, value, payloadType);
    }

    /** Nothing else owns a block of tree `j`, nor the block nobody owns. */
    lemma TreeApart(m: Mem, j: int, index: Index)
      requires 0 <= j < |trees| && WholeBut(m, index)
      ensures forall i :: 0 <= i < |trees| && i != j ==> WholeIn(m, i) && OwnedByTree(j) + {index} !! OwnedByTree(i)
      ensures OwnedByTree(j) + {index} !! OwnedByList() && OwnedByTree(j) + {index} !! Pool()
      ensures WholeIn(m, j) && index !in OwnedByTree(j)
    {
      assert WholeIn(m, j) && Belong(owner, OwnedByTree(j), TreeNumber(j));
      forall i | 0 <= i < |trees| && i != j ensures WholeIn(m, i) && OwnedByTree(j) + {index} !! OwnedByTree(i) {
        Apart(OwnedByTree(j), TreeNumber(j), OwnedByTree(i), TreeNumber(i));
      }
      Apart(OwnedByTree(j), TreeNumber(j), OwnedByList(), TheList);
      Apart(OwnedByTree(j), TreeNumber(j), Pool(), ThePool);
    }

    /** Everything but tree `j` is whole. */
    ghost predicate RestWhole(j: int)
      reads trees, list, free, data
    {
      && (forall i :: 0 <= i < |trees| && i != j ==> WholeIn(data[..], i))
      && LinkedLists.StoresList(data[..], list.headIndex, list.entries)
      && FreeLists.StoresFree(data[..], free.headIndex, free.free)
    }

    /** Writing only to blocks `x` that nothing else owns leaves the rest whole. */
    lemma RestFrame(m: Mem, m1: Mem, j: int, x: set<Index>)
      requires SameOutside(m, data[..], x) && SameOutside(m1, data[..], x)
      requires forall i :: 0 <= i < |trees| && i != j ==> WholeIn(m, i) && x !! OwnedByTree(i)
      requires x !! OwnedByList() && LinkedLists.StoresList(m, list.headIndex, list.entries)
      requires x !! Pool() && FreeLists.StoresFree(m1, free.headIndex, free.free)
      ensures RestWhole(j)
    {
      FreeLists.FreeFrame(m1, data[..], free.headIndex, free.free);
      OthersWhole(m, j, x);
      ListWhole(m, x);
    }

    /** Tree `j`, which owned `mine`, now also owns the block that nobody owned. */
    lemma TallyGrown(mine: set<Index>, j: int, index: Index)
      requires |owner| == data.Length && Shared() && index < |owner| && owner[index] == Nobody
      requires 0 <= j < |trees| && Belong(owner, mine, TreeNumber(j)) && OwnedByTree(j) == mine + {index}
      requires forall i :: 0 <= i < |trees| && i != j ==> Belong(owner, OwnedByTree(i), TreeNumber(i))
      requires Belong(owner, OwnedByList(), TheList) && Belong(owner, Pool(), ThePool)
      requires AllOwned(owner, index) && data.Length <= NIL
      ensures Tallied(owner[index := TreeNumber(j)]) && AllOwned(owner[index := TreeNumber(j)], NIL)
    {
      HandOver(owner, mine, TreeNumber(j), index, TreeNumber(j));
      HandOver(owner, OwnedByList(), TheList, index, TreeNumber(j));
      HandOver(owner, Pool(), ThePool, index, TreeNumber(j));
      Retally(owner, index, TreeNumber(j), j);
    }

    /** Puts the block just taken from the pool into tree `j`. */
    method PlaceInTree(ghost m: Mem, j: int, index: Index, value: Payload, payloadType: nat)
      requires 0 <= j < |trees| && index < data.Length <= NIL && WholeBut(m, index)
      requires SameOutside(m, data[..], {index}) && free.Valid()
      modifies this, trees[j], data
      ensures Valid()
      ensures trees[j].Contents() == InsertSorted(old(trees[j].Contents()), Entry(index, payloadType, value))
      ensures OwnedByTree(j) == old(OwnedByTree(j)) + {index}
      ensures SameOutside(m, data[..], old(OwnedByTree(j)) + {index})
    {
      ghost var mine := OwnedByTree(j);
      GrowAmong(m, j, index, value, payloadType);
      TallyGrown(mine, j, index);
      assert forall i :: 0 <= i < |trees| ==> WholeIn(data[..], i);
      owner := owner[index := TreeNumber(j)];
    }

    method GrowAmong(ghost m: Mem, j: int, index: Index, value: Payload, payloadType: nat)
      requires 0 <= j < |trees| && index < data.Length && WholeBut(m, index)
      requires SameOutside(m, data[..], {index}) && free.Valid()
      modifies trees[j], data
      ensures WholeIn(data[..], j) && RestWhole(j)
      ensures trees[j].Contents() == InsertSorted(old(trees[j].Contents()), Entry(index, payloadType, value))
      ensures OwnedByTree(j) == old(OwnedByTree(j)) + {index}
      ensures SameOutside(m, data[..], old(OwnedByTree(j)) + {index})
    {
      ghost var m1, x := data[..], OwnedByTree(j) + {index};
      TreeApart(m, j, index);
      GrowTree(m, j, index, value, payloadType);
      RestFrame(m, m1, j, x);
    }

    /** The insertion itself, into a block that no structure owns. */
    method GrowTree(ghost m: Mem, j: int, index: Index, value: Payload, payloadType: nat)
      requires 0 <= j < |trees| && trees[j].data == data
      requires WholeIn(m, j) && SameOutside(m, data[..], {index})
      requires index < data.Length && index !in OwnedByTree(j)
      modifies trees[j], data
      ensures WholeIn(data[..], j)
      ensures trees[j].Contents() == InsertSorted(old(trees[j].Contents()), Entry(index, payloadType, value))
      ensures OwnedByTree(j) == old(OwnedByTree(j)) + {index}
      ensures SameOutside(m, data[..], old(OwnedByTree(j)) + {index})
    {
      var tree := trees[j];
      AgreeOutside(m, data[..], {index}, OwnedByTree(j));
      StoresFrame(m, data[..], tree.rootIndex, tree.tree);
      Caching.CachedOwned(tree.tree, tree.maxIndex, Entry(index, payloadType, value));
      SoundIsKnown(tree);
      var rounds := tree.InsertWithPayloadType(index, value, payloadType);
    }

    /** Removes a node from a tree and gives its block back to the pool. */
    method RemoveFromTree(j: int, index: Index)
      requires Valid() && 0 <= j < |trees| && index in OwnedByTree(j)
      modifies this, trees[j], free, data
      ensures Valid()
      ensures trees[j].Contents() == Without(old(trees[j].Contents()), index) && free.free == [index] + old(free.free)
      ensures OwnedByTree(j) == old(OwnedByTree(j)) - {index}
      ensures SameOutside(old(data[..]), data[..], old(OwnedByTree(j)))
    {
      ShrinkTree(j, index);
      FreeBlock(index);
    }

    /** The removal; the block is left without an owner. */
    method ShrinkTree(j: int, index: Index)
      requires Valid() && 0 <= j < |trees| && index in OwnedByTree(j)
      modifies this, trees[j], data
      ensures WholeBut(data[..], index) && index < data.Length && free.Valid()
      ensures trees[j].Contents() == Without(old(trees[j].Contents()), index)
      ensures OwnedByTree(j) == old(OwnedByTree(j)) - {index}
      ensures SameOutside(old(data[..]), data[..], old(OwnedByTree(j)))
    {
      ghost var mine := OwnedByTree(j);
      ShrinkAmong(j, index);
      HandOver(owner, mine, TreeNumber(j), index, Nobody);
      HandOver(owner, OwnedByList(), TheList, index, Nobody);
      HandOver(owner, Pool(), ThePool, index, Nobody);
      Retally(owner, index, Nobody, j);
      assert forall i :: 0 <= i < |trees| ==> WholeIn(data[..], i);
      owner := owner[index := Nobody];
    }

    /** The removal itself, which leaves every other structure whole. */
    method ShrinkAmong(j: int, index: Index)
      requires Valid() && 0 <= j < |trees| && index in OwnedByTree(j)
      modifies trees[j], data
      ensures WholeIn(data[..], j) && RestWhole(j) && index < data.Length
      ensures trees[j].Contents() == Without(old(trees[j].Contents()), index)
      ensures OwnedByTree(j) == old(OwnedByTree(j)) - {index}
      ensures SameOutside(old(data[..]), data[..], old(OwnedByTree(j)))
    {
      ghost var m, mine := data[..], OwnedByTree(j);
      TreeApart(m, j, NIL);
      RemoveOwns(trees[j].tree, index);
      var rounds := trees[j].RemoveByIndex(index);
      RestFrame(m, m, j, mine);
    }

    /** Allocates a block and links it at the head of the list. */
    method InsertIntoList(value: Payload) returns (index: Index)
      requires Valid()
      modifies this, list, free, data
      ensures Valid()
      ensures old(free.free) == [] ==> index == NIL && list.entries == old(list.entries) && free.free == []
      ensures old(free.free) != [] ==>
        old(free.free) == [index] + free.free && list.entries == [Entry(index, 0, value)] + old(list.entries)
      ensures SameOutside(old(data[..]), data[..], old(OwnedByList()) + {index})
    {
      ghost var m := data[..];
      index := Allocate();
      if index == NIL { return; }
      PlaceInList(m, index, value);
    }

    /** No tree owns a block of the list, nor the block nobody owns; nor does the pool. */
    lemma ListApart(m: Mem, index: Index)
      requires WholeBut(m, index)
      ensures forall i :: 0 <= i < |trees| ==> WholeIn(m, i) && OwnedByList() + {index} !! OwnedByTree(i)
      ensures OwnedByList() + {index} !! Pool() && index !in OwnedByList()
    {
      forall i | 0 <= i < |trees| ensures WholeIn(m, i) && OwnedByList() + {index} !! OwnedByTree(i) {
        Apart(OwnedByList(), TheList, OwnedByTree(i), TreeNumber(i));
      }
      Apart(OwnedByList(), TheList, Pool(), ThePool);
    }

    method PlaceInList(ghost m: Mem, index: Index, value: Payload)
      requires index < data.Length <= NIL && WholeBut(m, index)
      requires SameOutside(m, data[..], {index}) && free.Valid()
      modifies this, list, data
      ensures Valid() && list.entries == [Entry(index, 0, value)] + old(list.entries)
      ensures SameOutside(m, data[..], old(OwnedByList()) + {index})
    {
      ghost var m1, mine, x := data[..], OwnedByList(), OwnedByList() + {index};
      ListApart(m, index);
      ListWhole(m, {index});
      list.Insert(index, value);
      FreeLists.FreeFrame(m1, data[..], free.headIndex, free.free);
      OthersWhole(m, -1, x);
      assert OwnedByList() == x;
      HandOver(owner, mine, TheList, index, TheList);
      HandOver(owner, Pool(), ThePool, index, TheList);
      Retally(owner, index, TheList, -1);
      owner := owner[index := TheList];
      assert forall i :: 0 <= i < |trees| ==> WholeIn(data[..], i);
    }

    /** Unlinks the `k`th node of the list and gives its block back to the pool. */
    method RemoveFromList(index: Index, ghost k: int)
      requires Valid() && 0 <= k < |list.entries| && list.entries[k].slot == index
      modifies this, list, free, data
      ensures Valid()
      ensures list.entries == Dropped(old(list.entries), k) && free.free == [index] + old(free.free)
      ensures SameOutside(old(data[..]), data[..], old(OwnedByList()))
    {
      Unlink(index, k);
      FreeBlock(index);
    }

    /** The removal itself; the block is left without an owner. */
    method Unlink(index: Index, ghost k: int)
      requires Valid() && 0 <= k < |list.entries| && list.entries[k].slot == index
      modifies this, list, data
      ensures WholeBut(data[..], index) && index < data.Length && free.Valid() && index in old(OwnedByList())
      ensures list.entries == Dropped(old(list.entries), k)
      ensures SameOutside(old(data[..]), data[..], old(OwnedByList()))
    {
      ghost var m, mine, s := data[..], OwnedByList(), list.entries;
      assert LinkedLists.NodeAt(m, s, k) && s[k].slot in mine;
      ListApart(m, NIL);
      DroppedSlots(s, k);
      list.RemoveByIndex(index, k);
      FreeLists.FreeFrame(m, data[..], free.headIndex, free.free);
      OthersWhole(m, -1, mine);
      TallyUnlinked(mine, index);
      owner := owner[index := Nobody];
      assert forall i :: 0 <= i < |trees| ==> WholeIn(data[..], i);
    }

    /** The list, which owned `mine`, has let go of one block. */
    lemma TallyUnlinked(mine: set<Index>, index: Index)
      requires |owner| == data.Length && Shared() && index < |owner| && owner[index] == TheList
      requires Belong(owner, mine, TheList) && OwnedByList() == mine - {index} && Belong(owner, Pool(), ThePool)
      requires forall i :: 0 <= i < |trees| ==> Belong(owner, OwnedByTree(i), TreeNumber(i))
      requires AllOwned(owner, NIL) && data.Length <= NIL
      ensures Tallied(owner[index := Nobody]) && AllOwned(owner[index := Nobody], index)
    {
      HandOver(owner, mine, TheList, index, Nobody);
      HandOver(owner, Pool(), ThePool, index, Nobody);
      Retally(owner, index, Nobody, -1);
    }

    /** Relinks tree `j` into the list, which must be empty: the blocks change owner without
        passing through the pool, every entry keeps its block, and no other block is written. */
    method ConvertTree(j: int)
      requires Valid() && 0 <= j < |trees| && list.entries == []
      modifies this, trees[j], list, data
      ensures Valid()
      ensures trees[j].Contents() == [] && list.entries == Conversion.Reversed(old(trees[j].Contents()))
      ensures OwnedByTree(j) == {} && OwnedByList() == old(OwnedByTree(j))
      ensures SameOutside(old(data[..]), data[..], old(OwnedByTree(j)))
    {
      ghost var mine, was := OwnedByTree(j), owner;
      Relink(j);
      TallyConverted(mine, j);
      owner := Transferred(was, TreeNumber(j), TheList);
      assert forall i :: 0 <= i < |trees| ==> WholeIn(data[..], i);
    }

    /** Tree `j`, which owned `mine`, has left all of them to the list, which owned none. */
    lemma TallyConverted(mine: set<Index>, j: int)
      requires |owner| == data.Length && Shared() && 0 <= j < |trees| && AllOwned(owner, NIL)
      requires Belong(owner, mine, TreeNumber(j)) && Belong(owner, {}, TheList) && Belong(owner, Pool(), ThePool)
      requires OwnedByTree(j) == {} && OwnedByList() == mine
      requires forall i :: 0 <= i < |trees| && i != j ==> Belong(owner, OwnedByTree(i), TreeNumber(i))
      ensures var owner' := Transferred(owner, TreeNumber(j), TheList); Tallied(owner') && AllOwned(owner', NIL)
    {
      var owner' := Transferred(owner, TreeNumber(j), TheList);
      TakeOverAll(owner, mine, TreeNumber(j), TheList);
      HandOverAll(owner, Pool(), ThePool, TreeNumber(j), TheList);
      HandOverAll(owner, mine, TreeNumber(j), TreeNumber(j), TheList);
      forall i | 0 <= i < |trees| && i != j ensures Belong(owner', OwnedByTree(i), TreeNumber(i)) {
        HandOverAll(owner, OwnedByTree(i), TreeNumber(i), TreeNumber(j), TheList);
      }
    }

    /** The conversion itself, which leaves every other structure whole. */
    method Relink(j: int)
      requires Valid() && 0 <= j < |trees| && list.entries == []
      modifies trees[j], list, data
      ensures WholeIn(data[..], j) && RestWhole(j)
      ensures trees[j].Contents() == [] && list.entries == Conversion.Reversed(old(trees[j].Contents()))
      ensures OwnedByTree(j) == {} && OwnedByList() == old(OwnedByTree(j))
      ensures SameOutside(old(data[..]), data[..], old(OwnedByTree(j)))
    {
      ghost var m, mine := data[..], OwnedByTree(j);
      TreeApart(m, j, NIL);
      BecomeList(trees[j]);
      RelinkFrame(m, j, mine);
    }

    lemma RelinkFrame(m: Mem, j: int, x: set<Index>)
      requires SameOutside(m, data[..], x) && x !! Pool() && FreeLists.StoresFree(m, free.headIndex, free.free)
      requires forall i :: 0 <= i < |trees| && i != j ==> WholeIn(m, i) && x !! OwnedByTree(i)
      requires LinkedLists.StoresList(data[..], list.headIndex, list.entries)
      ensures RestWhole(j)
    {
      FreeLists.FreeFrame(m, data[..], free.headIndex, free.free);
      OthersWhole(m, j, x);
    }

    method BecomeList(tree: RedBlackTree)
      requires tree.data == data && tree.Stored() && list.data == data
      modifies tree, list, data
      ensures tree.Valid() && tree.tree == Trees.Leaf && tree.maxIndex == NIL
      ensures list.Valid() && list.entries == Conversion.Reversed(old(tree.Contents()))
      ensures LinkedLists.SlotsOf(list.entries) == Links.Owned(old(tree.tree))
      ensures SameOutside(old(data[..]), data[..], Links.Owned(old(tree.tree)))
    {
      ghost var t := tree.tree;
      ReversedSlots(t);
      var head := Conversion.ConvertRedBlackTreeToLinkedList(data, tree.rootIndex, t);
      tree.rootIndex, tree.maxIndex, tree.tree := NIL, NIL, Trees.Leaf;
      list.headIndex, list.entries := head, Conversion.Reversed(Trees.Inorder(t));
    }
  }

  /** An arena with nothing in it: every block is in the pool. */
  method EmptyArena(data: array<Slot>, trees: seq<RedBlackTree>, list: LinkedLists.LinkedList, free: FreeLists.FreeList)
    returns (arena: Arena)
    requires data.Length <= NIL && list.data == data && free.data == data
    requires forall j :: 0 <= j < |trees| ==> trees[j].data == data
    requires forall i, j :: 0 <= i < j < |trees| ==> trees[i] != trees[j]
    requires forall j :: 0 <= j < |trees| ==>
      trees[j].tree == Trees.Leaf && trees[j].rootIndex == NIL && trees[j].maxIndex == NIL
    requires list.headIndex == NIL && list.entries == [] && free.headIndex == FreeLists.END && free.free == []
    modifies free, data
    ensures fresh(arena) && arena.Valid() && arena.data == data && arena.trees == trees
    ensures arena.list == list && arena.free == free && |free.free| == data.Length
    ensures forall i: Index :: i in FreeLists.Blocks(free.free) <==> i < data.Length
  {
    for k := 0 to data.Length
      invariant free.Valid() && |free.free| == k && forall i: Index :: i in FreeLists.Blocks(free.free) <==> i < k
    {
      ghost var pool := free.free;
      assert k !in FreeLists.Blocks(pool);
      free.Add(k);
      assert forall i: Index :: i in free.free <==> i == k || i in pool;
      assert forall i: Index :: i in FreeLists.Blocks(pool) <==> i in pool;
    }
    ghost var owner := seq(data.Length, _ => ThePool);
    arena := new Arena(data, trees, list, free, owner);
    forall j | 0 <= j < |trees|
      ensures arena.WholeIn(data[..], j) && Belong(owner, arena.OwnedByTree(j), TreeNumber(j))
    {
      assert trees[j].tree == Trees.Leaf;
    }
  }

  lemma DroppedSlots(s: seq<Entry>, k: int)
    requires NoDuplicates(s) && 0 <= k < |s|
    ensures LinkedLists.SlotsOf(Dropped(s, k)) == LinkedLists.SlotsOf(s) - {s[k].slot}
  {
    var r := Dropped(s, k);
    forall i: Index | i in LinkedLists.SlotsOf(s) && i != s[k].slot ensures i in LinkedLists.SlotsOf(r) {
      var j :| 0 <= j < |s| && s[j].slot == i;
      assert r[if j < k then j else j - 1] == s[j];
    }
    forall i: Index | i in LinkedLists.SlotsOf(r) ensures i in LinkedLists.SlotsOf(s) && i != s[k].slot {
      var j :| 0 <= j < |r| && r[j].slot == i;
      assert r[j] == s[if j < k then j else j + 1];
    }
  }
}
