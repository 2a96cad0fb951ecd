/** The pool of free blocks, last one freed first, chained through the field where tree
    nodes keep `left`. */
module FreeLists {
  import opened Collections
  import opened Slots

  const END: Index := NIL

  function LinkAt(s: seq<Index>, k: int): Index { if 0 <= k < |s| then s[k] else END }

  /** A free block: the next free one in the overlaid field, zeroes everywhere else. */
  function FreeSlot(next: Index): Slot { Slot(next, 0, 0, Black, 0, ZERO_PAYLOAD) }

  predicate FreeAt(m: Mem, s: seq<Index>, k: int)
    requires 0 <= k < |s|
  {
    s[k] < |m| && m[s[k]] == FreeSlot(LinkAt(s, k + 1))
  }

  predicate StoresFree(m: Mem, head: Index, s: seq<Index>) {
    |m| <= NIL && head == LinkAt(s, 0) && Unique(s) && forall k :: 0 <= k < |s| ==> FreeAt(m, s, k)
  }

  function Blocks(s: seq<Index>): set<Index> { set i | i in s }

  /** The pool only looks at its own blocks. */
  lemma FreeFrame(m: Mem, m': Mem, head: Index, s: seq<Index>)
    requires StoresFree(m, head, s) && |m'| == |m|
    requires forall i: Index :: i in Blocks(s) && i < |m| ==> m'[i] == m[i]
    ensures StoresFree(m', head, s)
  {
    forall k | 0 <= k < |s| ensures FreeAt(m', s, k) {
      assert FreeAt(m, s, k) && s[k] in Blocks(s);
    }
  }

  class FreeList {
    const data: array<Slot>
    var headIndex: Index
    ghost var free: seq<Index>

    ghost predicate Valid()
      reads this, data
    {
      StoresFree(data[..], headIndex, free)
    }

    constructor (data: array<Slot>, headIndex: Index, ghost free: seq<Index>)
      ensures this.data == data && this.headIndex == headIndex && this.free == free
    {
      this.data, this.headIndex, this.free := data, headIndex, free;
    }

    /** Gives a block to the pool, zeroed. */
    method Add(index: Index)
      requires Valid() && index < data.Length && index !in Blocks(free)
      modifies this, data
      ensures Valid() && free == [index] + old(free)
      ensures headIndex == index && data[index] == Slot(old(headIndex), 0, 0, Black, 0, Payload(0, 0))
      ensures SameOutside(old(data[..]), data[..], {index})
    {
      ghost var m, s := data[..], free;
      data[index] := FreeSlot(headIndex);
      headIndex := index;
      free := [index] + s;
      forall k | 0 <= k < |free| ensures FreeAt(data[..], free, k) {
        if k > 0 { assert FreeAt(m, s, k - 1) && s[k - 1] in Blocks(s); }
      }
    }

    /** Takes the first block, wholly zeroed; END when there is none. */
    method Remove() returns (index: Index)
      requires Valid()
      modifies this, data
      ensures Valid()
      ensures if old(free) == [] then index == END && free == [] && data[..] == old(data[..])
        else && index < data.Length && old(free) == [index] + free && index !in Blocks(free)
             && data[index] == Slot(0, 0, 0, Black, 0, Payload(0, 0)) && SameOutside(old(data[..]), data[..], {index})
    {
      ghost var m, s := data[..], free;
      assert s != [] ==> FreeAt(m, s, 0);
      if headIndex == END { return END; }
      index := headIndex;
      assert s != [] && FreeAt(m, s, 0);
      headIndex := data[index].left;
      data[index] := data[index].(left := 0);
      free := s[1..];
      forall k | 0 <= k < |free| ensures FreeAt(data[..], free, k) {
        assert FreeAt(m, s, k + 1) && s[0] != s[k + 1];
      }
    }
  }

  /** What is freed first-in comes back last: adding and then taking a block undoes itself. */
  method AddThenRemove(list: FreeList, index: Index) returns (back: Index)
    requires list.Valid() && index < list.data.Length && index !in Blocks(list.free)
    modifies list, list.data
    ensures list.Valid() && back == index && list.free == old(list.free)
  {
    ghost var s := list.free;
    list.Add(index);
    assert ([index] + s)[1..] == s;
    back := list.Remove();
    assert ([index] + s)[1..] == list.free;
  }
}
