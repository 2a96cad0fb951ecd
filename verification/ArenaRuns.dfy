/** Whole runs of requests to an arena, against a model on sequences: what each request may
    do, and what no run of them can lose. */
module ArenaRuns {
  import opened Collections
  import opened Slots
  import opened Arenas
  import RedBlackTrees
  import LinkedLists
  import FreeLists
  import Conversion
  import Positions
  import Traversal
  import Trees

  /** What an arena holds: each tree's entries in order, the list's, and the free blocks, next one first. */
  datatype State = State(trees: seq<seq<Entry>>, list: seq<Entry>, free: seq<Index>)

  datatype Request =
    | AddToTree(j: int, value: Payload, payloadType: nat)
    | TakeFromTree(j: int, value: Payload)
    | AddToList(value: Payload)
    | TakeFromList(value: Payload)
    | TurnIntoList(j: int)

  /** What a request may do. One that cannot be met changes nothing, and which of several
      equal entries leaves a tree is open. */
  ghost predicate Step(s: State, r: Request, s': State) {
    match r
    case AddToTree(j, value, payloadType) =>
      if 0 <= j < |s.trees| && s.free != []
      then s' == Grown(s, j, Entry(s.free[0], payloadType, value))
      else s' == s
    case TakeFromTree(j, value) =>
      if 0 <= j < |s.trees| && !Traversal.Absent(s.trees[j], value)
      then exists i: Index :: Traversal.FoundAt(s.trees[j], i, value) && s' == Shrunk(s, j, i)
      else s' == s
    case AddToList(value) =>
      if s.free != [] then s' == State(s.trees, [Entry(s.free[0], 0, value)] + s.list, s.free[1..]) else s' == s
    case TakeFromList(value) =>
      if Traversal.Absent(s.list, value) then s' == s else exists k: int :: TakenFirst(s, k, value, s')
    case TurnIntoList(j) =>
      if 0 <= j < |s.trees| && s.list == []
      then s' == State(s.trees[j := []], Conversion.Reversed(s.trees[j]), s.free)
      else s' == s
  }

  function Grown(s: State, j: int, e: Entry): State
    requires 0 <= j < |s.trees| && s.free != []
  {
    State(s.trees[j := InsertSorted(s.trees[j], e)], s.list, s.free[1..])
  }

  function Shrunk(s: State, j: int, i: Index): State
    requires 0 <= j < |s.trees|
  {
    State(s.trees[j := Without(s.trees[j], i)], s.list, [i] + s.free)
  }

  /** The first equal entry of the list is gone, its block first in the pool. */
  predicate TakenFirst(s: State, k: int, value: Payload, s': State) {
    && 0 <= k < |s.list| && LinkedLists.FirstEqual(s.list, k, s.list[k].slot, value)
    && s' == State(s.trees, Dropped(s.list, k), [s.list[k].slot] + s.free)
  }

  /** The state of an arena as it stands. */
  ghost function Current(arena: Arena): (s: State)
    reads arena.trees, arena.list, arena.free
    ensures |s.trees| == |arena.trees| && forall j :: 0 <= j < |s.trees| ==> s.trees[j] == arena.trees[j].Contents()
    ensures s.list == arena.list.entries && s.free == arena.free.free
  {
    State(seq(|arena.trees|, j requires 0 <= j < |arena.trees| reads arena.trees => ContentsOf(arena, j)),
          arena.list.entries, arena.free.free)
  }

  ghost function ContentsOf(arena: Arena, j: int): seq<Entry>
    requires 0 <= j < |arena.trees|
    reads arena.trees
  {
    arena.trees[j].Contents()
  }

  /** Only tree `j` differs. */
  lemma OneTree(arena: Arena, s: State, j: int, t: seq<Entry>)
    requires |s.trees| == |arena.trees| && 0 <= j < |arena.trees| && arena.trees[j].Contents() == t
    requires forall i :: 0 <= i < |arena.trees| && i != j ==> arena.trees[i].Contents() == s.trees[i]
    ensures Current(arena).trees == s.trees[j := t]
  {
  }

  method AddEntry(arena: Arena, j: int, value: Payload, payloadType: nat)
    requires arena.Valid()
    modifies arena, arena.trees, arena.list, arena.free, arena.data
    ensures arena.Valid() && Step(old(Current(arena)), AddToTree(j, value, payloadType), Current(arena))
  {
    if 0 <= j < |arena.trees| {
      ghost var s := Current(arena);
      var index := arena.InsertIntoTree(j, value, payloadType);
      if s.free == [] {
        assert Current(arena).trees == s.trees;
      } else {
        OneTree(arena, s, j, InsertSorted(s.trees[j], Entry(index, payloadType, value)));
      }
    }
  }

  method TakeEntry(arena: Arena, j: int, value: Payload)
    requires arena.Valid()
    modifies arena, arena.trees, arena.list, arena.free, arena.data
    ensures arena.Valid() && Step(old(Current(arena)), TakeFromTree(j, value), Current(arena))
  {
    if 0 <= j < |arena.trees| {
      ghost var s := Current(arena);
      var index := FindInTree(arena, j, value);
      if index != NIL {
        arena.RemoveFromTree(j, index);
        OneTree(arena, s, j, Without(s.trees[j], index));
        assert Current(arena) == Shrunk(s, j, index);
      }
    }
  }

  method FindInTree(arena: Arena, j: int, value: Payload) returns (index: Index)
    requires arena.Valid() && 0 <= j < |arena.trees|
    ensures var s := arena.trees[j].Contents();
      if index == NIL then Traversal.Absent(s, value)
        else Traversal.FoundAt(s, index, value) && index in arena.OwnedByTree(j)
  {
    var tree := arena.trees[j];
    assert arena.WholeIn(arena.data[..], j);
    index := Traversal.LookupIndex(arena.data, tree.rootIndex, value, tree.tree, NIL);
    Positions.OwnedIsInorder(tree.tree, index);
  }

  method AddListed(arena: Arena, value: Payload)
    requires arena.Valid()
    modifies arena, arena.trees, arena.list, arena.free, arena.data
    ensures arena.Valid() && Step(old(Current(arena)), AddToList(value), Current(arena))
  {
    ghost var s := Current(arena);
    var index := arena.InsertIntoList(value);
    assert Current(arena).trees == s.trees;
  }

  method TakeListed(arena: Arena, value: Payload)
    requires arena.Valid()
    modifies arena, arena.trees, arena.list, arena.free, arena.data
    ensures arena.Valid() && Step(old(Current(arena)), TakeFromList(value), Current(arena))
  {
    ghost var s := Current(arena);
    var index := arena.list.LookupIndex(value);
    if index != NIL {
      ghost var k: int :| LinkedLists.FirstEqual(s.list, k, index, value);
      arena.RemoveFromList(index, k);
      assert Current(arena).trees == s.trees;
      assert TakenFirst(s, k, value, Current(arena));
    }
  }

  method TurnTree(arena: Arena, j: int)
    requires arena.Valid()
    modifies arena, arena.trees, arena.list, arena.free, arena.data
    ensures arena.Valid() && Step(old(Current(arena)), TurnIntoList(j), Current(arena))
  {
    ghost var s := Current(arena);
    assert s.list == [] || LinkedLists.NodeAt(arena.data[..], s.list, 0);
    if 0 <= j < |arena.trees| && arena.list.headIndex == NIL {
      arena.ConvertTree(j);
      OneTree(arena, s, j, []);
    }
  }

  method Perform(arena: Arena, r: Request)
    requires arena.Valid()
    modifies arena, arena.trees, arena.list, arena.free, arena.data
    ensures arena.Valid() && Step(old(Current(arena)), r, Current(arena))
  {
    match r
    case AddToTree(j, value, payloadType) => AddEntry(arena, j, value, payloadType);
    case TakeFromTree(j, value) => TakeEntry(arena, j, value);
    case AddToList(value) => AddListed(arena, value);
    case TakeFromList(value) => TakeListed(arena, value);
    case TurnIntoList(j) => TurnTree(arena, j);
  }

  /** The states a run went through, one request between each two. */
  ghost predicate History(states: seq<State>, requests: seq<Request>) {
    && |states| == |requests| + 1
    && forall i {:trigger requests[i]} :: 0 <= i < |requests| ==> Step(states[i], requests[i], states[i + 1])
  }

  // ----- what every history keeps

  function Total(trees: seq<seq<Entry>>): nat {
    if trees == [] then 0 else |trees[0]| + Total(trees[1..])
  }

  /** How many blocks the state accounts for. */
  function Blocks(s: State): nat { Total(s.trees) + |s.list| + |s.free| }

  lemma {:induction false} TotalUpdate(trees: seq<seq<Entry>>, j: int, t: seq<Entry>)
    requires 0 <= j < |trees|
    ensures Total(trees[j := t]) == Total(trees) - |trees[j]| + |t|
  {
    if j == 0 {
      assert trees[j := t][1..] == trees[1..];
    } else {
      assert trees[j := t][1..] == trees[1..][j - 1 := t];
      TotalUpdate(trees[1..], j - 1, t);
    }
  }

  lemma {:induction false} WithoutLength(s: seq<Entry>, i: Index)
    requires Positions.HasSlot(s, i)
    ensures |Without(s, i)| == |s| - 1
  {
    if s[0].slot != i {
      var k :| 0 <= k < |s| && s[k].slot == i;
      assert s[1..][k - 1].slot == i;
      WithoutLength(s[1..], i);
    }
  }

  /** No request loses a block or makes one up. */
  lemma StepBlocks(s: State, r: Request, s': State)
    requires Step(s, r, s')
    ensures Blocks(s') == Blocks(s)
  {
    match r
    case AddToTree(j, value, payloadType) =>
      if 0 <= j < |s.trees| && s.free != [] {
        TotalUpdate(s.trees, j, InsertSorted(s.trees[j], Entry(s.free[0], payloadType, value)));
      }
    case TakeFromTree(j, value) =>
      if 0 <= j < |s.trees| && !Traversal.Absent(s.trees[j], value) {
        var i: Index :| Traversal.FoundAt(s.trees[j], i, value) && s' == Shrunk(s, j, i);
        WithoutLength(s.trees[j], i);
        TotalUpdate(s.trees, j, Without(s.trees[j], i));
      }
    case TurnIntoList(j) =>
      if 0 <= j < |s.trees| { TotalUpdate(s.trees, j, []); }
    case _ =>
  }

  ghost predicate InSome(trees: seq<seq<Entry>>, e: Entry) { exists j :: 0 <= j < |trees| && e in trees[j] }

  ghost predicate Held(s: State, e: Entry) { e in s.list || InSome(s.trees, e) }

  /** A request to take an entry of this value. */
  predicate Takes(r: Request, value: Payload) { (r.TakeFromTree? || r.TakeFromList?) && r.value == value }

  lemma UpdateKeeps(trees: seq<seq<Entry>>, j: int, t: seq<Entry>, e: Entry)
    requires 0 <= j < |trees| && InSome(trees, e) && (e in trees[j] ==> e in t)
    ensures InSome(trees[j := t], e)
  {
    var i :| 0 <= i < |trees| && e in trees[i];
    assert e in trees[j := t][if e in trees[j] then j else i];
  }

  lemma {:induction false} WithoutOther(s: seq<Entry>, i: Index, value: Payload, e: Entry)
    requires NoDuplicates(s) && Traversal.FoundAt(s, i, value) && e in s && e.value != value
    ensures e in Without(s, i)
  {
    var k :| 0 <= k < |s| && s[k].slot == i && s[k].value == value;
    WithoutContains(s, i);
    var l :| 0 <= l < |s| && s[l] == e;
    assert s[k].slot == s[l].slot ==> k == l;
  }

  /** Every tree's blocks are different ones. */
  predicate Apart(s: State) { forall j :: 0 <= j < |s.trees| ==> NoDuplicates(s.trees[j]) }

  /** An entry stays where it is, slot, payload and tag, or moves to the list with its tree:
      only a request to take its own value can end it. */
  lemma StepHeld(s: State, r: Request, s': State, e: Entry)
    requires Step(s, r, s') && Apart(s) && Held(s, e) && !Takes(r, e.value)
    ensures Held(s', e)
  {
    match r
    case AddToTree(j, value, payloadType) =>
      if 0 <= j < |s.trees| && s.free != [] && e !in s.list {
        var n := Entry(s.free[0], payloadType, value);
        InsertSortedContains(s.trees[j], n);
        UpdateKeeps(s.trees, j, InsertSorted(s.trees[j], n), e);
      }
    case TakeFromTree(j, value) =>
      if 0 <= j < |s.trees| && !Traversal.Absent(s.trees[j], value) && e !in s.list {
        var i: Index :| Traversal.FoundAt(s.trees[j], i, value) && s' == Shrunk(s, j, i);
        if e in s.trees[j] { WithoutOther(s.trees[j], i, value, e); }
        UpdateKeeps(s.trees, j, Without(s.trees[j], i), e);
      }
    case AddToList(value) =>
    case TakeFromList(value) =>
      if !Traversal.Absent(s.list, value) && e in s.list {
        var k: int :| TakenFirst(s, k, value, s');
        var l :| 0 <= l < |s.list| && s.list[l] == e;
        assert s'.list[if l < k then l else l - 1] == e;
      }
    case TurnIntoList(j) =>
      if 0 <= j < |s.trees| && s.list == [] {
        if e in s.trees[j] {
          var k :| 0 <= k < |s.trees[j]| && s.trees[j][k] == e;
          assert s'.list[|s.trees[j]| - 1 - k] == e;
        } else {
          UpdateKeeps(s.trees, j, [], e);
        }
      }
  }

  lemma ValidApart(arena: Arena)
    requires arena.Valid()
    ensures Apart(Current(arena))
  {
    forall j | 0 <= j < |arena.trees| ensures NoDuplicates(arena.trees[j].Contents()) {
      assert arena.WholeIn(arena.data[..], j);
      Positions.DistinctInorder(arena.trees[j].tree);
    }
  }

  /** Nothing but a request to take its value ends an entry. */
  ghost predicate Lasting(s: State, requests: seq<Request>, s': State) {
    forall e :: Held(s, e) && (forall r :: r in requests ==> !Takes(r, e.value)) ==> Held(s', e)
  }

  lemma LastingStep(s: State, requests: seq<Request>, s1: State, r: Request, s2: State)
    requires Lasting(s, requests, s1) && Step(s1, r, s2) && Apart(s1)
    ensures Lasting(s, requests + [r], s2)
  {
    forall e | Held(s, e) && (forall q :: q in requests + [r] ==> !Takes(q, e.value)) ensures Held(s2, e) {
      assert forall q :: q in requests ==> q in requests + [r];
      assert r in requests + [r];
      StepHeld(s1, r, s2, e);
    }
  }

  /** Any requests at all, in any order: every block keeps exactly one owner, the number of
      blocks never changes, and an entry ends only by a request to take its value. */
  method Run(arena: Arena, requests: seq<Request>) returns (ghost states: seq<State>)
    requires arena.Valid()
    modifies arena, arena.trees, arena.list, arena.free, arena.data
    ensures arena.Valid() && arena.Partitioned()
    ensures History(states, requests) && states[0] == old(Current(arena)) && states[|requests|] == Current(arena)
    ensures Blocks(Current(arena)) == old(Blocks(Current(arena)))
    ensures Lasting(old(Current(arena)), requests, Current(arena))
  {
    ghost var s0 := Current(arena);
    states := [s0];
    GoingStarts(arena);
    for k := 0 to |requests|
      invariant Going(arena, s0, states, requests[..k])
    {
      states := Advance(arena, requests, k, s0, states);
    }
    GoingEnds(arena, s0, states, requests);
  }

  lemma GoingStarts(arena: Arena)
    requires arena.Valid()
    ensures forall requests: seq<Request> :: Going(arena, Current(arena), [Current(arena)], requests[..0])
  {
    assert forall requests: seq<Request> :: requests[..0] == [];
  }

  lemma GoingEnds(arena: Arena, s0: State, states: seq<State>, requests: seq<Request>)
    requires Going(arena, s0, states, requests[..|requests|])
    ensures Going(arena, s0, states, requests) && arena.Partitioned()
  {
    assert requests[..|requests|] == requests;
    arena.ValidPartitions();
  }

  /** Where a run stands after the requests `past`. */
  ghost predicate Going(arena: Arena, s0: State, states: seq<State>, past: seq<Request>)
    reads arena, arena.trees, arena.list, arena.free, arena.data
  {
    arena.Valid() && Led(s0, states, past, Current(arena))
  }

  /** The requests `past` led from state `s0` to `s`. */
  ghost predicate Led(s0: State, states: seq<State>, past: seq<Request>, s: State) {
    && History(states, past) && states[0] == s0 && states[|past|] == s
    && Blocks(s) == Blocks(s0) && Lasting(s0, past, s)
  }

  lemma LedOn(s0: State, states: seq<State>, past: seq<Request>, s: State, r: Request, s': State)
    requires Led(s0, states, past, s) && Step(s, r, s') && Apart(s)
    ensures Led(s0, states + [s'], past + [r], s')
  {
    StepBlocks(s, r, s');
    LastingStep(s0, past, s, r, s');
    HistoryStep(states, past, r, s');
  }

  method Advance(arena: Arena, requests: seq<Request>, k: nat, ghost s0: State, ghost states: seq<State>)
    returns (ghost states': seq<State>)
    requires k < |requests| && Going(arena, s0, states, requests[..k])
    modifies arena, arena.trees, arena.list, arena.free, arena.data
    ensures Going(arena, s0, states', requests[..k + 1])
  {
    ghost var s := Current(arena);
    ValidApart(arena);
    Perform(arena, requests[k]);
    LedOn(s0, states, requests[..k], s, requests[k], Current(arena));
    states' := states + [Current(arena)];
    assert requests[..k + 1] == requests[..k] + [requests[k]];
  }

  lemma HistoryStep(states: seq<State>, requests: seq<Request>, r: Request, s: State)
    requires History(states, requests) && Step(states[|requests|], r, s)
    ensures History(states + [s], requests + [r])
  {
    var states', requests' := states + [s], requests + [r];
    forall i | 0 <= i < |requests'| ensures Step(states'[i], requests'[i], states'[i + 1]) {
      assert i < |requests| ==> Step(states[i], requests[i], states[i + 1]);
    }
  }

  /** From an arena with nothing in it, a run always accounts for every block of the array. */
  method RunFromEmpty(data: array<Slot>, trees: seq<RedBlackTrees.RedBlackTree>, list: LinkedLists.LinkedList,
                      free: FreeLists.FreeList, requests: seq<Request>)
    returns (arena: Arena)
    requires data.Length <= NIL && list.data == data && free.data == data
    requires forall j :: 0 <= j < |trees| ==> trees[j].data == data
    requires forall i, j :: 0 <= i < j < |trees| ==> trees[i] != trees[j]
    requires forall j :: 0 <= j < |trees| ==>
      trees[j].tree == Trees.Leaf && trees[j].rootIndex == NIL && trees[j].maxIndex == NIL
    requires list.headIndex == NIL && list.entries == [] && free.headIndex == FreeLists.END && free.free == []
    modifies trees, list, free, data
    ensures arena.Valid() && arena.Partitioned() && Blocks(Current(arena)) == data.Length
  {
    arena := EmptyArena(data, trees, list, free);
    StartBlocks(Current(arena), data.Length);
    ghost var states := Run(arena, requests);
  }

  lemma StartBlocks(s: State, n: nat)
    requires s.list == [] && forall j :: 0 <= j < |s.trees| ==> s.trees[j] == []
    requires |s.free| == n
    ensures Blocks(s) == n
  {
    NothingIn(s.trees);
  }

  lemma {:induction false} NothingIn(trees: seq<seq<Entry>>)
    requires forall j :: 0 <= j < |trees| ==> trees[j] == []
    ensures Total(trees) == 0
  {
    if trees != [] { NothingIn(trees[1..]); }
  }
}
