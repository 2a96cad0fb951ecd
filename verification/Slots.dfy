/** The shared array of fixed-size node blocks that every structure lives in. */
module Slots {

  /** A link: the number of a block in the array, or `NIL`. */
  type Index = nat

  const NIL: Index := 0xFFFF_FFFF

  /** One byte in the header: 0 is black, 1 is red, nothing else is legal. */
  datatype Color = Black | Red | Invalid(raw: nat)

  /** Ordered by `key` alone, while equality also looks at `nonce`. */
  datatype Payload = Payload(key: int, nonce: int)

  /** A node block: the header of links followed by the payload. */
  datatype Slot = Slot(left: Index, right: Index, parent: Index,
                       color: Color, payloadType: nat, value: Payload)

  const ZERO_PAYLOAD := Payload(0, 0)

  /** What the field accessors answer for `NIL`: no links, and black. */
  const NIL_SLOT := Slot(NIL, NIL, NIL, Black, 0, ZERO_PAYLOAD)

  type Mem = seq<Slot>

  function At(m: Mem, i: Index): Slot {
    if i < |m| then m[i] else NIL_SLOT
  }

  function Put(m: Mem, i: Index, s: Slot): (m': Mem)
    ensures |m'| == |m|
  {
    if i < |m| then m[i := s] else m
  }

  /** Every block outside `s` is the same in both memories. */
  predicate SameOutside(m: Mem, m': Mem, s: set<Index>) {
    |m| == |m'| && forall i: nat :: i < |m| && i !in s ==> m'[i] == m[i]
  }

  /** The part of a block that belongs to the client and never moves. */
  datatype Entry = Entry(slot: Index, payloadType: nat, value: Payload) {
    function Key(): int { value.key }
  }

  /** The entry's block holds its payload and tag. */
  predicate HoldsEntry(m: Mem, e: Entry) {
    e.slot < |m| && m[e.slot].value == e.value && m[e.slot].payloadType == e.payloadType
  }

  /** The slot of the `k`th entry; NIL before the first and after the last. */
  function SlotAt(s: seq<Entry>, k: int): Index { if 0 <= k < |s| then s[k].slot else NIL }

  /** Keys never decrease along the sequence. */
  predicate Sorted(s: seq<Entry>) {
    forall i, j :: 0 <= i < j < |s| ==> s[i].Key() <= s[j].Key()
  }

  lemma SortedParts(a: seq<Entry>, b: seq<Entry>)
    requires Sorted(a + b)
    ensures Sorted(a) && Sorted(b)
  {
    var s := a + b;
    forall i, j | 0 <= i < j < |a| ensures a[i].Key() <= a[j].Key() {
      assert s[i] == a[i] && s[j] == a[j];
    }
    forall i, j | 0 <= i < j < |b| ensures b[i].Key() <= b[j].Key() {
      assert s[|a| + i] == b[i] && s[|a| + j] == b[j];
    }
  }

  predicate AllBelow(s: seq<Entry>, key: int) {
    forall i :: 0 <= i < |s| ==> s[i].Key() < key
  }

  predicate AllAtLeast(s: seq<Entry>, key: int) {
    forall i :: 0 <= i < |s| ==> key <= s[i].Key()
  }

  /** The entries' slots, all different. */
  predicate NoDuplicates(s: seq<Entry>) {
    forall i, j :: 0 <= i < j < |s| ==> s[i].slot != s[j].slot
  }

  /** `s` with `e` placed after everything smaller and before everything else. */
  function InsertSorted(s: seq<Entry>, e: Entry): (r: seq<Entry>)
    ensures |r| == |s| + 1
  {
    if s == [] || e.Key() <= s[0].Key() then [e] + s else [s[0]] + InsertSorted(s[1..], e)
  }

  lemma {:induction false} InsertSortedSplit(a: seq<Entry>, b: seq<Entry>, e: Entry)
    requires AllBelow(a, e.Key()) && AllAtLeast(b, e.Key())
    ensures InsertSorted(a + b, e) == a + [e] + b
  {
    if a == [] {
      assert a + b == b;
    } else {
      assert (a + b)[1..] == a[1..] + b;
      InsertSortedSplit(a[1..], b, e);
    }
  }

  /** `s` without the entry stored at `slot`. */
  function Without(s: seq<Entry>, slot: Index): seq<Entry> {
    if s == [] then [] else
    if s[0].slot == slot then s[1..] else [s[0]] + Without(s[1..], slot)
  }

  lemma {:induction false} WithoutSplit(a: seq<Entry>, e: Entry, b: seq<Entry>)
    requires forall i :: 0 <= i < |a| ==> a[i].slot != e.slot
    ensures Without(a + [e] + b, e.slot) == a + b
  {
    if a == [] {
      assert a + [e] + b == [e] + b;
    } else {
      assert (a + [e] + b)[1..] == a[1..] + [e] + b;
      WithoutSplit(a[1..], e, b);
      assert [a[0]] + (a[1..] + b) == a + b;
    }
  }

  lemma {:induction false} InsertSortedSorted(s: seq<Entry>, e: Entry)
    requires Sorted(s)
    ensures Sorted(InsertSorted(s, e))
    ensures forall i :: 0 <= i <= |s| ==> InsertSorted(s, e)[i] == e || InsertSorted(s, e)[i] in s
  {
    if s != [] && s[0].Key() < e.Key() {
      InsertSortedSorted(s[1..], e);
    }
  }

  lemma {:induction false} WithoutSorted(s: seq<Entry>, slot: Index)
    requires Sorted(s)
    ensures Sorted(Without(s, slot))
    ensures forall x :: x in Without(s, slot) ==> x in s
  {
    if s != [] && s[0].slot != slot {
      WithoutSorted(s[1..], slot);
      var r := Without(s[1..], slot);
      forall i | 0 <= i < |r| ensures s[0].Key() <= r[i].Key() {
        assert r[i] in r;
        var j :| 0 <= j < |s| - 1 && s[1..][j] == r[i];
        assert s[j + 1] == r[i];
      }
    }
  }

  lemma {:induction false} InsertSortedContains(s: seq<Entry>, e: Entry)
    ensures forall x :: x in s ==> x in InsertSorted(s, e)
  {
    if s != [] && s[0].Key() < e.Key() {
      InsertSortedContains(s[1..], e);
    }
  }

  lemma {:induction false} WithoutContains(s: seq<Entry>, slot: Index)
    ensures forall x :: x in s && x.slot != slot ==> x in Without(s, slot)
  {
    if s != [] && s[0].slot != slot {
      WithoutContains(s[1..], slot);
    }
  }
}
