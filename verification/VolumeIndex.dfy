/** Traders in descending order of volume, kept up to date by moving one trader at a time: the
    index on its fields, and the order, the positions and the totals it must agree with. */
module VolumeIndexes {
  import opened Collections

  /** A trader, by public key. */
  datatype Trader = Trader(key: nat)

  datatype Item = Item(trader: Trader, total: real)

  /** Volumes never rise along `order`. */
  predicate Descending(order: seq<Trader>, totals: map<Trader, real>)
    requires forall i :: 0 <= i < |order| ==> order[i] in totals
  {
    forall i, j :: 0 <= i < j < |order| ==> totals[order[i]] >= totals[order[j]]
  }

  /** `pos` says where each trader is in `order`, and nothing else. */
  predicate Inverse(order: seq<Trader>, pos: map<Trader, nat>) {
    && (forall i :: 0 <= i < |order| ==> order[i] in pos && pos[order[i]] == i)
    && (forall t :: t in pos ==> pos[t] < |order| && order[pos[t]] == t)
  }

  function Members(order: seq<Trader>): set<Trader> { set t | t in order }

  predicate NonNegative(totals: map<Trader, real>) {
    forall t :: t in totals ==> totals[t] >= 0.0
  }

  /** Everybody listed has a volume, none below zero, in descending order. */
  predicate Ranked(order: seq<Trader>, totals: map<Trader, real>) {
    (forall i :: 0 <= i < |order| ==> order[i] in totals) && Descending(order, totals) && NonNegative(totals)
  }

  predicate Distinct(entries: seq<Item>) {
    forall i, j :: 0 <= i < j < |entries| ==> entries[i].trader != entries[j].trader
  }

  predicate ItemsDescending(s: seq<Item>) {
    forall i, j :: 0 <= i < j < |s| ==> s[i].total >= s[j].total
  }

  /** `e` placed after everything at least as large. */
  function Place(s: seq<Item>, e: Item): (r: seq<Item>)
    ensures |r| == |s| + 1
  {
    if s == [] || s[0].total < e.total then [e] + s else [s[0]] + Place(s[1..], e)
  }

  lemma {:induction false} PlaceDescending(s: seq<Item>, e: Item)
    requires ItemsDescending(s)
    ensures ItemsDescending(Place(s, e))
    ensures forall i :: 0 <= i <= |s| ==> Place(s, e)[i] == e || Place(s, e)[i] in s
  {
    if s != [] && s[0].total >= e.total {
      PlaceDescending(s[1..], e);
    }
  }

  lemma {:induction false} PlacePermutes(s: seq<Item>, e: Item)
    ensures multiset(Place(s, e)) == multiset(s) + multiset{e}
  {
    if s != [] && s[0].total >= e.total {
      PlacePermutes(s[1..], e);
      assert s == [s[0]] + s[1..];
    }
  }

  /** The library's stable sort, largest first. */
  function SortDescending(entries: seq<Item>): (r: seq<Item>)
    ensures |r| == |entries|
  {
    if entries == [] then [] else Place(SortDescending(entries[..|entries| - 1]), entries[|entries| - 1])
  }

  lemma {:induction false} SortDescendingSorts(entries: seq<Item>)
    ensures ItemsDescending(SortDescending(entries)) && multiset(SortDescending(entries)) == multiset(entries)
  {
    if entries != [] {
      var last := |entries| - 1;
      SortDescendingSorts(entries[..last]);
      PlaceDescending(SortDescending(entries[..last]), entries[last]);
      PlacePermutes(SortDescending(entries[..last]), entries[last]);
      assert entries == entries[..last] + [entries[last]];
    }
  }

  /** The entries with this total, in order. */
  function WithTotal(s: seq<Item>, v: real): seq<Item> {
    if s == [] then [] else (if s[0].total == v then [s[0]] else []) + WithTotal(s[1..], v)
  }

  lemma {:induction false} WithTotalSnoc(s: seq<Item>, e: Item, v: real)
    ensures WithTotal(s + [e], v) == WithTotal(s, v) + if e.total == v then [e] else []
  {
    if s == [] {
      assert [] + [e] == [e] && [e][1..] == [];
    } else {
      WithTotalSnoc(s[1..], e, v);
      assert (s + [e])[1..] == s[1..] + [e];
    }
  }

  lemma {:induction false} AllSmaller(s: seq<Item>, v: real)
    requires ItemsDescending(s) && (s != [] ==> s[0].total < v)
    ensures WithTotal(s, v) == []
  {
    if s != [] {
      AllSmaller(s[1..], v);
    }
  }

  lemma {:induction false} PlaceStable(s: seq<Item>, e: Item, v: real)
    requires ItemsDescending(s)
    ensures WithTotal(Place(s, e), v) == WithTotal(s, v) + if e.total == v then [e] else []
  {
    if s == [] || s[0].total < e.total {
      if e.total == v { AllSmaller(s, v); }
      assert ([e] + s)[1..] == s;
    } else {
      PlaceStable(s[1..], e, v);
      assert Place(s, e)[1..] == Place(s[1..], e);
    }
  }

  lemma {:induction false} SortStable(entries: seq<Item>, v: real)
    ensures WithTotal(SortDescending(entries), v) == WithTotal(entries, v)
  {
    if entries != [] {
      var init, last := entries[..|entries| - 1], entries[|entries| - 1];
      SortStable(init, v);
      SortDescendingSorts(init);
      PlaceStable(SortDescending(init), last, v);
      assert entries == init + [last];
      WithTotalSnoc(init, last, v);
    }
  }

  /** Sorted, with those of equal totals in the order given. */
  ghost predicate StablySorted(entries: seq<Item>, sorted: seq<Item>) {
    && ItemsDescending(sorted) && multiset(sorted) == multiset(entries)
    && forall v: real :: WithTotal(sorted, v) == WithTotal(entries, v)
  }

  lemma SortedStably(entries: seq<Item>)
    ensures StablySorted(entries, SortDescending(entries))
  {
    SortDescendingSorts(entries);
    forall v: real ensures WithTotal(SortDescending(entries), v) == WithTotal(entries, v) {
      SortStable(entries, v);
    }
  }

  /** There is only one way to do that. */
  lemma StableUnique(entries: seq<Item>, a: seq<Item>, b: seq<Item>)
    requires StablySorted(entries, a) && StablySorted(entries, b)
    ensures a == b
  {
    SameFilters(a, b);
  }

  lemma {:induction false} SameFilters(a: seq<Item>, b: seq<Item>)
    requires ItemsDescending(a) && ItemsDescending(b) && forall v: real :: WithTotal(a, v) == WithTotal(b, v)
    ensures a == b
    decreases |a| + |b|
  {
    BothEmpty(a, b);
    if a != [] {
      FirstLargest(a, b);
      FirstLargest(b, a);
      assert WithTotal(a, a[0].total)[0] == a[0] && WithTotal(b, b[0].total)[0] == b[0];
      forall v: real ensures WithTotal(a[1..], v) == WithTotal(b[1..], v) {
        var k := if a[0].total == v then 1 else 0;
        assert WithTotal(a[1..], v) == WithTotal(a, v)[k..] == WithTotal(b, v)[k..] == WithTotal(b[1..], v);
      }
      SameFilters(a[1..], b[1..]);
      assert a == [a[0]] + a[1..] && b == [b[0]] + b[1..];
    }
  }

  lemma BothEmpty(a: seq<Item>, b: seq<Item>)
    requires forall v: real :: WithTotal(a, v) == WithTotal(b, v)
    ensures a == [] <==> b == []
  {
    if a != [] { assert WithTotal(a, a[0].total) != []; }
    if b != [] { assert WithTotal(b, b[0].total) != []; }
  }

  lemma FirstLargest(a: seq<Item>, b: seq<Item>)
    requires a != [] && b != [] && ItemsDescending(b) && forall v: real :: WithTotal(a, v) == WithTotal(b, v)
    ensures b[0].total >= a[0].total
  {
    assert WithTotal(a, a[0].total)[0] == a[0];
    if b[0].total < a[0].total {
      AllSmaller(b, a[0].total);
    }
  }

  function Traders(s: seq<Item>): (r: seq<Trader>)
    ensures |r| == |s| && forall i :: 0 <= i < |s| ==> r[i] == s[i].trader
  {
    seq(|s|, i requires 0 <= i < |s| => s[i].trader)
  }

  /** A map built from pairs in order: a later pair replaces an earlier one. */
  function ToMap(s: seq<Item>): map<Trader, real> {
    if s == [] then map[] else ToMap(s[..|s| - 1])[s[|s| - 1].trader := s[|s| - 1].total]
  }

  lemma {:induction false} ToMapHas(s: seq<Item>, t: Trader)
    ensures t in ToMap(s) <==> exists i :: 0 <= i < |s| && s[i].trader == t
    ensures t in ToMap(s) ==> exists i :: 0 <= i < |s| && s[i] == Item(t, ToMap(s)[t])
  {
    if s != [] {
      var init := s[..|s| - 1];
      ToMapHas(init, t);
      assert forall i :: 0 <= i < |init| ==> s[i] == init[i];
    }
  }

  function Positions(order: seq<Trader>): map<Trader, nat> {
    if order == [] then map[] else Positions(order[..|order| - 1])[order[|order| - 1] := |order| - 1]
  }

  lemma {:induction false} PositionsAt(order: seq<Trader>, t: Trader)
    ensures t in Positions(order) <==> t in order
    ensures t in Positions(order) ==> Positions(order)[t] < |order| && order[Positions(order)[t]] == t
  {
    if order != [] {
      var init := order[..|order| - 1];
      PositionsAt(init, t);
      assert order == init + [order[|order| - 1]];
    }
  }

  class TraderVolumeIndex {
    var order: seq<Trader>
    var pos: map<Trader, nat>
    var totals: map<Trader, real>

    /** `order` and `pos` list the tracked traders, each once. */
    predicate Consistent()
      reads this
    {
      Inverse(order, pos) && pos.Keys == totals.Keys
    }

    /** The invariant of runs in which volume only accumulates. */
    predicate Valid()
      reads this
    {
      Consistent() && Ranked(order, totals)
    }

    /** The first `n` traders, whatever the state. In a valid one they are the largest:
        nobody left out has more than anybody listed. */
    method Top(n: int) returns (r: seq<Trader>)
      ensures |r| == (if n < 0 then 0 else if n < |order| then n else |order|) && r == order[..|r|]
      ensures Valid() ==> Largest(r, totals)
    {
      var m := if n > 0 then n else 0;
      r := order[..if m < |order| then m else |order|];
      if Valid() { PrefixLargest(order, pos, totals, r); }
    }

    /** Replaces everything. The traders stay listed once each exactly when no trader is
        given twice; then the volumes are those given, in order. */
    method Rebuild(entries: seq<Item>)
      modifies this
      ensures order == Traders(SortDescending(entries)) && StablySorted(entries, SortDescending(entries))
      ensures Consistent() <==> Distinct(entries)
      ensures Distinct(entries) && (forall x :: x in entries ==> x.total >= 0.0) ==> Valid()
      ensures Distinct(entries) ==> totals == ToMap(entries)
    {
      var sorted := SortDescending(entries);
      order := Traders(sorted);
      pos := Positions(order);
      totals := ToMap(sorted);
      RebuiltFrom(entries);
      SortedStably(entries);
    }

    constructor ()
      ensures Valid() && order == [] && totals == map[]
    {
      order, pos, totals := [], map[], map[];
    }

    method Ensure(trader: Trader)
      requires Consistent()
      modifies this
      ensures Consistent() && (old(Valid()) ==> Valid()) && trader in totals
      ensures totals == WithTrader(old(totals), trader) && order == Tracked(old(order), trader)
      ensures if trader in old(totals) then totals == old(totals) && order == old(order)
        else totals == old(totals)[trader := 0.0] && order == old(order) + [trader]
    {
      InverseHas(order, pos, trader);
      if trader in pos { return; }
      InverseSnoc(order, pos, trader);
      if Ranked(order, totals) { RankedSnoc(order, totals, trader); }
      totals := totals[trader := 0.0];
      pos := pos[trader := |order|];
      order := order + [trader];
    }

    /** Adds to a volume. The trader moves forward past exactly the smaller ones, keeping
        its place among equals; a zero or negative amount never moves it. */
    method Add(trader: Trader, delta: real)
      requires Consistent()
      modifies this
      ensures Consistent() && totals == Accumulated(old(totals), trader, delta)
      ensures totals == old(totals)[trader := (if trader in old(totals) then old(totals)[trader] else 0.0) + delta]
      ensures Promoted(old(order), old(totals), order, trader, delta)
      ensures old(Valid()) ==> (Valid() <==> delta >= 0.0 || Tolerates(old(order), old(totals), trader, delta))
    {
      ghost var order0, pos0, totals0, valid := order, pos, totals, Valid();
      Accrue(trader, delta);
      if valid {
        if delta >= 0.0 {
          StaysRanked(order0, pos0, totals0, order, trader, delta);
        } else {
          FallsRanked(order0, pos0, totals0, trader, delta);
        }
      }
    }

    method Accrue(trader: Trader, delta: real)
      requires Consistent()
      modifies this
      ensures Consistent() && totals == Accumulated(old(totals), trader, delta)
      ensures totals == old(totals)[trader := (if trader in old(totals) then old(totals)[trader] else 0.0) + delta]
      ensures Promoted(old(order), old(totals), order, trader, delta)
    {
      ghost var order0, totals0 := order, totals;
      EnsureTracked(trader);
      ghost var order1, totals1 := order, totals;
      AddTracked(trader, delta);
      PromotedBy(order0, totals0, order1, totals1, order, totals, trader, delta);
      AddedTo(totals0, trader, delta);
    }

    method EnsureTracked(trader: Trader)
      requires Consistent()
      modifies this
      ensures Consistent() && trader in pos
      ensures totals == WithTrader(old(totals), trader) && order == Tracked(old(order), trader)
    {
      InverseHas(order, pos, trader);
      if trader !in pos {
        Ensure(trader);
      }
    }

    method AddTracked(trader: Trader, delta: real)
      requires Consistent() && trader in pos
      modifies this
      ensures Consistent() && totals == old(totals)[trader := old(totals)[trader] + delta]
      ensures delta <= 0.0 ==> order == old(order)
      ensures delta > 0.0 ==> Raised(old(order), order, trader, totals)
    {
      var newTotal := totals[trader] + delta;
      totals := totals[trader := newTotal];
      if delta <= 0.0 { return; }
      Bubble(trader);
    }

    /** Moves a trader whose volume rose towards the front. */
    method Bubble(trader: Trader)
      requires Consistent() && trader in pos
      modifies this`order, this`pos
      ensures Consistent() && Raised(old(order), order, trader, totals)
    {
      BubbleStarts(order, pos, totals, trader);
      BubbleFrom(trader);
    }

    method BubbleFrom(trader: Trader)
      requires trader in pos && Bubbling(order, pos[trader], order, pos, totals, trader, pos[trader])
      modifies this`order, this`pos
      ensures Consistent() && Raised(old(order), order, trader, totals)
    {
      ghost var start, from := order, pos[trader];
      var i := pos[trader];
      while i > 0 && totals[order[i - 1]] < totals[trader]
        invariant Bubbling(start, from, order, pos, totals, trader, i)
        decreases i
      {
        i := Swap(start, from, trader, i);
      }
      BubbleEnds(start, from, order, pos, totals, trader, i);
      pos := pos[trader := i];
    }

    /** Changes places with the trader in front; only that one's position is kept up to date. */
    method Swap(ghost start: seq<Trader>, ghost from: int, trader: Trader, i: int) returns (next: int)
      requires Bubbling(start, from, order, pos, totals, trader, i) && i > 0 && totals[order[i - 1]] < totals[trader]
      modifies this`order, this`pos
      ensures next == i - 1 && Bubbling(start, from, order, pos, totals, trader, next)
    {
      var prev := order[i - 1];
      BubbleMoves(start, from, order, pos, totals, trader, i);
      order := order[i - 1 := trader][i := prev];
      pos := pos[prev := i];
      next := i - 1;
    }
  }

  /** Placing keeps traders apart exactly when the new one was not there. */
  lemma {:induction false} PlaceDistinct(s: seq<Item>, e: Item)
    ensures Distinct(Place(s, e)) <==> Distinct(s) && forall x :: x in s ==> x.trader != e.trader
    ensures forall x :: x in Place(s, e) <==> x == e || x in s
  {
    if s != [] && s[0].total >= e.total {
      var rest := s[1..];
      PlaceDistinct(rest, e);
      DistinctCons(s[0], rest);
      DistinctCons(s[0], Place(rest, e));
      assert s == [s[0]] + rest;
    } else {
      DistinctCons(e, s);
    }
  }

  lemma DistinctCons(e: Item, s: seq<Item>)
    ensures Distinct([e] + s) <==> Distinct(s) && forall x :: x in s ==> x.trader != e.trader
  {
    var r := [e] + s;
    assert forall i :: 0 <= i < |s| ==> r[i + 1] == s[i];
    if Distinct(r) {
      forall x | x in s ensures x.trader != e.trader {
        var i :| 0 <= i < |s| && s[i] == x;
        assert r[0] == e && r[i + 1] == x;
      }
    }
  }

  lemma {:induction false} SortDistinct(entries: seq<Item>)
    ensures Distinct(SortDescending(entries)) <==> Distinct(entries)
    ensures forall x :: x in SortDescending(entries) <==> x in entries
  {
    if entries != [] {
      var init, e := entries[..|entries| - 1], entries[|entries| - 1];
      var sorted := SortDescending(init);
      SortDistinct(init);
      PlaceDistinct(sorted, e);
      assert entries == init + [e];
      DistinctSnoc(init, e);
    }
  }

  lemma DistinctSnoc(s: seq<Item>, e: Item)
    ensures Distinct(s + [e]) <==> Distinct(s) && forall x :: x in s ==> x.trader != e.trader
  {
    var r := s + [e];
    assert forall i :: 0 <= i < |s| ==> r[i] == s[i];
    if Distinct(r) {
      forall x | x in s ensures x.trader != e.trader {
        var i :| 0 <= i < |s| && s[i] == x;
        assert r[i] == x && r[|s|] == e;
      }
    }
  }

  /** With each trader given once, the map holds exactly the pairs. */
  lemma ToMapExact(s: seq<Item>, t: Trader, v: real)
    requires Distinct(s)
    ensures t in ToMap(s) && ToMap(s)[t] == v <==> Item(t, v) in s
  {
    ToMapHas(s, t);
  }

  lemma SameMap(s: seq<Item>, s': seq<Item>)
    requires Distinct(s) && Distinct(s') && forall x :: x in s <==> x in s'
    ensures ToMap(s) == ToMap(s')
  {
    forall t ensures t in ToMap(s) <==> t in ToMap(s')
      ensures t in ToMap(s) ==> ToMap(s)[t] == ToMap(s')[t]
    {
      if t in ToMap(s) {
        ToMapExact(s, t, ToMap(s)[t]);
        ToMapExact(s', t, ToMap(s)[t]);
      } else if t in ToMap(s') {
        ToMapExact(s', t, ToMap(s')[t]);
        ToMapExact(s, t, ToMap(s')[t]);
      }
    }
  }

  lemma Rebuilt(sorted: seq<Item>)
    ensures Inverse(Traders(sorted), Positions(Traders(sorted))) <==> Distinct(sorted)
    ensures Positions(Traders(sorted)).Keys == ToMap(sorted).Keys
  {
    var order := Traders(sorted);
    RebuiltKeys(sorted);
    PositionsHold(order);
    if Inverse(order, Positions(order)) {
      ApartByPosition(sorted, Positions(order));
    }
    if Distinct(sorted) {
      PositionsOfDistinct(sorted);
    }
  }

  lemma RebuiltKeys(sorted: seq<Item>)
    ensures Positions(Traders(sorted)).Keys == ToMap(sorted).Keys
  {
    var order := Traders(sorted);
    forall t: Trader ensures t in Positions(order) <==> t in ToMap(sorted) {
      PositionsAt(order, t);
      ToMapHas(sorted, t);
      assert forall i :: 0 <= i < |order| ==> order[i] == sorted[i].trader;
    }
  }

  /** Every listed trader has a position, and stands there. */
  lemma PositionsHold(order: seq<Trader>)
    ensures forall i :: 0 <= i < |order| ==> order[i] in Positions(order)
    ensures forall t :: t in Positions(order) ==> Positions(order)[t] < |order| && order[Positions(order)[t]] == t
  {
    forall i | 0 <= i < |order| ensures order[i] in Positions(order) {
      PositionsAt(order, order[i]);
    }
    forall t | t in Positions(order) ensures Positions(order)[t] < |order| && order[Positions(order)[t]] == t {
      PositionsAt(order, t);
    }
  }

  lemma ApartByPosition(sorted: seq<Item>, p: map<Trader, nat>)
    requires Inverse(Traders(sorted), p)
    ensures Distinct(sorted)
  {
    var order := Traders(sorted);
    forall i, j | 0 <= i < j < |sorted| ensures sorted[i].trader != sorted[j].trader {
      assert p[order[i]] == i && p[order[j]] == j;
    }
  }

  lemma PositionsOfDistinct(sorted: seq<Item>)
    requires Distinct(sorted)
    ensures Inverse(Traders(sorted), Positions(Traders(sorted)))
  {
    var order := Traders(sorted);
    var p := Positions(order);
    PositionsHold(order);
    forall i | 0 <= i < |order| ensures order[i] in p && p[order[i]] == i {
      assert order[p[order[i]]] == order[i];
    }
  }

  predicate Listed(s: seq<Item>, m: map<Trader, real>) {
    forall i :: 0 <= i < |s| ==> s[i].trader in m && m[s[i].trader] == s[i].total
  }

  lemma AllListed(s: seq<Item>)
    requires Distinct(s)
    ensures Listed(s, ToMap(s))
  {
    forall i | 0 <= i < |s| ensures s[i].trader in ToMap(s) && ToMap(s)[s[i].trader] == s[i].total {
      assert s[i] == Item(s[i].trader, s[i].total);
      ToMapExact(s, s[i].trader, s[i].total);
    }
  }

  lemma RebuiltInOrder(sorted: seq<Item>)
    requires Distinct(sorted) && ItemsDescending(sorted)
    ensures forall i :: 0 <= i < |sorted| ==> Traders(sorted)[i] in ToMap(sorted)
    ensures Descending(Traders(sorted), ToMap(sorted))
    ensures (forall x :: x in sorted ==> x.total >= 0.0) ==> NonNegative(ToMap(sorted))
  {
    AllListed(sorted);
    var order, m := Traders(sorted), ToMap(sorted);
    assert forall i :: 0 <= i < |sorted| ==> order[i] == sorted[i].trader;
    if forall x :: x in sorted ==> x.total >= 0.0 {
      forall t | t in m ensures m[t] >= 0.0 {
        ToMapHas(sorted, t);
      }
    }
  }

  lemma RebuiltFrom(entries: seq<Item>)
    ensures var sorted := SortDescending(entries);
      && (Inverse(Traders(sorted), Positions(Traders(sorted))) <==> Distinct(entries))
      && Positions(Traders(sorted)).Keys == ToMap(sorted).Keys
      && (Distinct(entries) ==>
           && ToMap(sorted) == ToMap(entries)
           && ((forall x :: x in entries ==> x.total >= 0.0) ==> Ranked(Traders(sorted), ToMap(sorted))))
  {
    var sorted := SortDescending(entries);
    SortDescendingSorts(entries);
    SortDistinct(entries);
    Rebuilt(sorted);
    if Distinct(entries) {
      SameMap(sorted, entries);
      RebuiltInOrder(sorted);
    }
  }

  /** The trader has moved from `from` to `i`; only its own position is out of date. */
  predicate Bubbling(start: seq<Trader>, from: int, order: seq<Trader>, pos: map<Trader, nat>,
                     totals: map<Trader, real>, trader: Trader, i: int)
  {
    && 0 <= i <= from < |start| && order == Moved(start, from, i) && start[from] == trader
    && Inverse(order, pos[trader := i]) && trader in pos && pos.Keys == totals.Keys
    && (forall k :: 0 <= k < |order| ==> order[k] in totals)
    && SmallerBetween(start, totals, i, from, totals[trader])
  }

  lemma BubbleStarts(order: seq<Trader>, pos: map<Trader, nat>, totals: map<Trader, real>, trader: Trader)
    requires Inverse(order, pos) && pos.Keys == totals.Keys && trader in pos
    ensures Bubbling(order, pos[trader], order, pos, totals, trader, pos[trader])
  {
    var i := pos[trader];
    assert pos[trader := i] == pos && Moved(order, i, i) == order;
    assert forall k :: 0 <= k < |order| ==> order[k] in pos.Keys;
  }

  lemma BubbleMoves(start: seq<Trader>, from: int, order: seq<Trader>, pos: map<Trader, nat>,
                    totals: map<Trader, real>, trader: Trader, i: int)
    requires Bubbling(start, from, order, pos, totals, trader, i) && i > 0 && totals[order[i - 1]] < totals[trader]
    ensures Bubbling(start, from, order[i - 1 := trader][i := order[i - 1]], pos[order[i - 1] := i], totals, trader,
                     i - 1)
  {
    MoveOn(start, from, i);
    SwapInverse(order, pos, trader, i);
    var prev := order[i - 1];
    assert prev in pos.Keys && pos[prev := i].Keys == pos.Keys;
  }

  lemma BubbleEnds(start: seq<Trader>, from: int, order: seq<Trader>, pos: map<Trader, nat>,
                   totals: map<Trader, real>, trader: Trader, i: int)
    requires Bubbling(start, from, order, pos, totals, trader, i)
    requires i > 0 ==> totals[order[i - 1]] >= totals[trader]
    ensures Inverse(order, pos[trader := i]) && pos[trader := i].Keys == totals.Keys
    ensures Raised(start, order, trader, totals)
  {
    assert pos[trader := i].Keys == pos.Keys;
    assert i > 0 ==> order[i - 1] == start[i - 1];
    assert RaisedTo(start, order, trader, totals, from, i);
  }

  /** A new trader starts at zero. */
  function WithTrader(totals: map<Trader, real>, trader: Trader): (m: map<Trader, real>)
    ensures trader in m
  {
    if trader in totals then totals else totals[trader := 0.0]
  }

  /** The volumes after one more amount. */
  function Accumulated(totals: map<Trader, real>, trader: Trader, delta: real): map<Trader, real> {
    var m := WithTrader(totals, trader);
    m[trader := m[trader] + delta]
  }

  lemma AddedTo(totals: map<Trader, real>, trader: Trader, delta: real)
    ensures Accumulated(totals, trader, delta)
      == totals[trader := (if trader in totals then totals[trader] else 0.0) + delta]
  {
  }

  function Tracked(order: seq<Trader>, trader: Trader): seq<Trader> {
    if trader in order then order else order + [trader]
  }

  /** The order after adding `delta`: a new trader joins at the back, and whose volume rises
      moves forward past exactly the smaller ones. */
  ghost predicate Promoted(order: seq<Trader>, totals: map<Trader, real>, order': seq<Trader>, trader: Trader,
                           delta: real)
  {
    if delta <= 0.0 then order' == Tracked(order, trader)
    else Raised(Tracked(order, trader), order', trader, Accumulated(totals, trader, delta))
  }

  /** `s` with the element at `from` moved forward to `to`. */
  function Moved<T>(s: seq<T>, from: int, to: int): (r: seq<T>)
    requires 0 <= to <= from < |s|
    ensures |r| == |s|
    ensures forall k {:trigger r[k]} :: 0 <= k < |s| ==>
      r[k] == if k < to || k > from then s[k] else if k == to then s[from] else s[k - 1]
  {
    s[..to] + [s[from]] + s[to..from] + s[from + 1..]
  }

  predicate SmallerBetween(order: seq<Trader>, totals: map<Trader, real>, lo: int, hi: int, total: real) {
    forall k :: 0 <= lo <= k < hi < |order| ==> order[k] in totals && totals[order[k]] < total
  }

  /** `order'` is `order` with `trader` moved forward past exactly the smaller ones before it. */
  ghost predicate Raised(order: seq<Trader>, order': seq<Trader>, trader: Trader, totals: map<Trader, real>) {
    exists from: nat, to: nat :: to <= from < |order| && RaisedTo(order, order', trader, totals, from, to)
  }

  predicate RaisedTo(order: seq<Trader>, order': seq<Trader>, trader: Trader, totals: map<Trader, real>, from: nat,
                     to: nat)
    requires to <= from < |order|
  {
    && order[from] == trader && trader in totals && order' == Moved(order, from, to)
    && SmallerBetween(order, totals, to, from, totals[trader])
    && (to > 0 ==> order[to - 1] in totals && totals[order[to - 1]] >= totals[trader])
  }

  lemma SwapInverse(order: seq<Trader>, pos: map<Trader, nat>, trader: Trader, i: nat)
    requires 0 < i < |order| && trader in pos && order[i] == trader && Inverse(order, pos[trader := i])
    ensures Inverse(order[i - 1 := trader][i := order[i - 1]], pos[order[i - 1] := i][trader := i - 1])
  {
    var prev, p := order[i - 1], pos[trader := i];
    var order', p' := order[i - 1 := trader][i := prev], pos[prev := i][trader := i - 1];
    assert p[prev] == i - 1 && p[trader] == i && prev != trader;
    forall k | 0 <= k < |order'| ensures order'[k] in p' && p'[order'[k]] == k {
      assert order[k] in p && p[order[k]] == k;
    }
    forall t | t in p' ensures p'[t] < |order'| && order'[p'[t]] == t {
      assert t in p && p[t] < |order| && order[p[t]] == t;
    }
  }

  lemma MoveOn<T>(s: seq<T>, from: int, to: int)
    requires 0 < to <= from < |s|
    ensures Moved(s, from, to)[to - 1] == s[to - 1] && Moved(s, from, to)[to] == s[from]
    ensures Moved(s, from, to)[to - 1 := s[from]][to := s[to - 1]] == Moved(s, from, to - 1)
  {
  }

  predicate Falling(v: seq<real>) { forall i, j :: 0 <= i < j < |v| ==> v[i] >= v[j] }

  /** The volumes along `order`. */
  function Volumes(order: seq<Trader>, totals: map<Trader, real>): (v: seq<real>)
    requires forall i :: 0 <= i < |order| ==> order[i] in totals
    ensures |v| == |order| && forall i :: 0 <= i < |v| ==> v[i] == totals[order[i]]
    ensures Falling(v) <==> Descending(order, totals)
  {
    seq(|order|, i requires 0 <= i < |order| => totals[order[i]])
  }

  lemma MovedFalling(v: seq<real>, from: nat, to: nat, x: real)
    requires Falling(v) && to <= from < |v| && v[from] <= x
    requires (forall k :: to <= k < from ==> v[k] < x) && (to > 0 ==> v[to - 1] >= x)
    ensures Falling(Moved(v[from := x], from, to))
  {
  }

  /** Moving a trader whose volume did not fall past the smaller ones restores the order. */
  lemma RaisedDescending(order: seq<Trader>, order': seq<Trader>, trader: Trader,
                         totals: map<Trader, real>, v: real)
    requires forall i :: 0 <= i < |order| ==> order[i] in totals
    requires Unique(order)
    requires trader in totals && Descending(order, totals) && v >= totals[trader]
    requires Raised(order, order', trader, totals[trader := v])
    ensures forall i :: 0 <= i < |order'| ==> order'[i] in totals
    ensures Descending(order', totals[trader := v])
  {
    var totals' := totals[trader := v];
    var from: nat, to: nat :| to <= from < |order| && RaisedTo(order, order', trader, totals', from, to);
    VolumesRaised(order, trader, totals, v, from);
    VolumesMoved(order, totals', from, to);
    SmallerVolumes(order, trader, totals, v, from, to);
    MovedFalling(Volumes(order, totals), from, to, v);
  }

  lemma SmallerVolumes(order: seq<Trader>, trader: Trader, totals: map<Trader, real>, v: real, from: nat, to: nat)
    requires forall i :: 0 <= i < |order| ==> order[i] in totals
    requires Unique(order)
    requires to <= from < |order| && order[from] == trader && SmallerBetween(order, totals[trader := v], to, from, v)
    ensures forall k :: to <= k < from ==> Volumes(order, totals)[k] < v
  {
    forall k | to <= k < from ensures Volumes(order, totals)[k] < v {
      assert order[k] != order[from] && totals[trader := v][order[k]] < v;
    }
  }

  lemma VolumesRaised(order: seq<Trader>, trader: Trader, totals: map<Trader, real>, v: real, from: nat)
    requires forall i :: 0 <= i < |order| ==> order[i] in totals
    requires Unique(order)
    requires from < |order| && order[from] == trader
    ensures Volumes(order, totals[trader := v]) == Volumes(order, totals)[from := v]
  {
  }

  lemma VolumesMoved(order: seq<Trader>, totals: map<Trader, real>, from: nat, to: nat)
    requires to <= from < |order| && forall i :: 0 <= i < |order| ==> order[i] in totals
    ensures forall i :: 0 <= i < |order| ==> Moved(order, from, to)[i] in totals
    ensures Volumes(Moved(order, from, to), totals) == Moved(Volumes(order, totals), from, to)
  {
  }

  /** A volume that falls keeps the order exactly when the next trader is still no larger. */
  lemma LoweredDescending(order: seq<Trader>, totals: map<Trader, real>, from: nat, v: real)
    requires forall i :: 0 <= i < |order| ==> order[i] in totals
    requires Unique(order)
    requires from < |order| && Descending(order, totals) && v <= totals[order[from]]
    ensures Descending(order, totals[order[from] := v]) <==> from + 1 < |order| ==> v >= totals[order[from + 1]]
  {
    VolumesRaised(order, order[from], totals, v, from);
    var w := Volumes(order, totals);
    if from + 1 < |order| && v < totals[order[from + 1]] {
      assert w[from := v][from] < w[from := v][from + 1];
    }
  }

  /** Falling by `delta` leaves the trader at zero or above, and still no smaller than
      whoever comes next; a new trader comes last. */
  predicate Tolerates(order: seq<Trader>, totals: map<Trader, real>, trader: Trader, delta: real) {
    var m := WithTrader(totals, trader);
    StaysAhead(Tracked(order, trader), m, trader, m[trader] + delta)
  }

  predicate StaysAhead(order: seq<Trader>, totals: map<Trader, real>, trader: Trader, v: real) {
    && v >= 0.0
    && forall k :: 0 <= k < |order| - 1 && order[k] == trader && order[k + 1] in totals ==> v >= totals[order[k + 1]]
  }

  lemma StaysAheadAt(order: seq<Trader>, totals: map<Trader, real>, from: nat, v: real)
    requires Unique(order) && from < |order| && forall i :: 0 <= i < |order| ==> order[i] in totals
    ensures StaysAhead(order, totals, order[from], v) <==>
      v >= 0.0 && (from + 1 < |order| ==> v >= totals[order[from + 1]])
  {
    assert from + 1 < |order| ==> order[from + 1] in totals;
  }

  lemma FallsRanked(order: seq<Trader>, pos: map<Trader, nat>, totals: map<Trader, real>, trader: Trader, delta: real)
    requires Inverse(order, pos) && pos.Keys == totals.Keys && Ranked(order, totals) && delta < 0.0
    ensures Ranked(Tracked(order, trader), Accumulated(totals, trader, delta)) <==>
      Tolerates(order, totals, trader, delta)
  {
    InverseDistinct(order, pos);
    TrackedInOrder(order, totals, trader);
    TrackedHas(order, trader);
    FallsFrom(order, totals, trader, delta);
  }

  lemma FallsFrom(order: seq<Trader>, totals: map<Trader, real>, trader: Trader, delta: real)
    requires Unique(Tracked(order, trader)) && Ranked(Tracked(order, trader), WithTrader(totals, trader)) && delta < 0.0
    requires trader in Tracked(order, trader)
    ensures Ranked(Tracked(order, trader), Accumulated(totals, trader, delta)) <==>
      Tolerates(order, totals, trader, delta)
  {
    var o, m := Tracked(order, trader), WithTrader(totals, trader);
    var from :| 0 <= from < |o| && o[from] == trader;
    LoweredRanked(o, m, from, m[trader] + delta);
    StaysAheadAt(o, m, from, m[trader] + delta);
  }

  lemma TrackedHas(order: seq<Trader>, trader: Trader)
    ensures trader in Tracked(order, trader)
  {
  }

  lemma LoweredRanked(order: seq<Trader>, totals: map<Trader, real>, from: nat, v: real)
    requires Unique(order) && Ranked(order, totals) && from < |order| && v <= totals[order[from]]
    ensures Ranked(order, totals[order[from] := v]) <==>
      v >= 0.0 && (from + 1 < |order| ==> v >= totals[order[from + 1]])
  {
    LoweredDescending(order, totals, from, v);
    assert totals[order[from] := v][order[from]] == v;
  }

  /** Nobody left out of `r` has more than anybody in it. */
  predicate Largest(r: seq<Trader>, totals: map<Trader, real>) {
    forall t, u :: t in r && u in totals && u !in r ==> t in totals && totals[t] >= totals[u]
  }

  lemma PrefixLargest(order: seq<Trader>, pos: map<Trader, nat>, totals: map<Trader, real>, r: seq<Trader>)
    requires Inverse(order, pos) && pos.Keys == totals.Keys && Ranked(order, totals) && r <= order
    ensures Largest(r, totals)
  {
    forall t, u | t in r && u in totals && u !in r ensures t in totals && totals[t] >= totals[u] {
      assert u in pos.Keys && order[pos[u]] == u;
      assert forall k :: 0 <= k < |r| ==> r[k] in r && r[k] == order[k];
      var i :| 0 <= i < |r| && r[i] == t;
      assert t in pos.Keys;
    }
  }

  // ----- two inputs outside the contract

  /** A negative amount: of traders with 5 and 3, the first loses 4 and still comes first. */
  method FallenTraderStays() returns (index: TraderVolumeIndex)
    ensures fresh(index) && index.Consistent() && index.order == [Trader(0), Trader(1)]
    ensures index.totals == map[Trader(0) := 1.0, Trader(1) := 3.0] && !index.Valid()
  {
    var a, b := Trader(0), Trader(1);
    index := RebuiltTwo(a, 5.0, b, 3.0);
    index.Add(a, -4.0);
    assert index.totals[index.order[0]] < index.totals[index.order[1]];
  }

  method RebuiltTwo(a: Trader, v: real, b: Trader, w: real) returns (index: TraderVolumeIndex)
    requires a != b && v >= w >= 0.0
    ensures fresh(index) && index.Valid() && index.order == [a, b] && index.totals == map[a := v, b := w]
  {
    index := new TraderVolumeIndex();
    index.Rebuild([Item(a, v), Item(b, w)]);
    TwoSorted(Item(a, v), Item(b, w));
  }

  /** A trader given twice: it is listed twice, and only one place is right. */
  method RebuiltTwice() returns (index: TraderVolumeIndex)
    ensures fresh(index) && index.order == [Trader(0), Trader(0)] && !index.Consistent()
  {
    var entries := [Item(Trader(0), 2.0), Item(Trader(0), 1.0)];
    index := new TraderVolumeIndex();
    assert !Distinct(entries) by { assert entries[0].trader == entries[1].trader; }
    index.Rebuild(entries);
    TwoSorted(entries[0], entries[1]);
  }

  lemma TwoSorted(x: Item, y: Item)
    requires x.total >= y.total
    ensures SortDescending([x, y]) == [x, y] && Traders([x, y]) == [x.trader, y.trader]
    ensures ToMap([x, y]) == map[x.trader := x.total][y.trader := y.total]
  {
    assert [x, y][..1] == [x] && [x][..0] == [];
    assert SortDescending([x]) == Place([], x) == [x];
    assert [x][1..] == [] && Place([x], y) == [x] + Place([], y) == [x, y];
    assert ToMap([x]) == map[x.trader := x.total];
  }

  lemma InverseHas(order: seq<Trader>, pos: map<Trader, nat>, trader: Trader)
    requires Inverse(order, pos)
    ensures trader in pos <==> trader in order
  {
    if trader in pos { assert order[pos[trader]] == trader; }
  }

  lemma InverseSnoc(order: seq<Trader>, pos: map<Trader, nat>, trader: Trader)
    requires Inverse(order, pos) && trader !in pos
    ensures Inverse(order + [trader], pos[trader := |order|])
  {
  }

  lemma RankedSnoc(order: seq<Trader>, totals: map<Trader, real>, trader: Trader)
    requires Ranked(order, totals) && trader !in totals
    ensures Ranked(order + [trader], totals[trader := 0.0])
  {
  }

  lemma InverseDistinct(order: seq<Trader>, pos: map<Trader, nat>)
    requires Inverse(order, pos)
    ensures Unique(order) && Members(order) == pos.Keys
  {
    assert forall t :: t in pos ==> t == order[pos[t]] && t in order;
    forall i, j | 0 <= i < j < |order| ensures order[i] != order[j] {
      assert pos[order[i]] == i && pos[order[j]] == j;
    }
  }

  /** Volume only accumulating, the order stays descending. */
  lemma StaysRanked(order: seq<Trader>, pos: map<Trader, nat>, totals: map<Trader, real>,
                    order': seq<Trader>, trader: Trader, delta: real)
    requires Inverse(order, pos) && pos.Keys == totals.Keys && Ranked(order, totals) && delta >= 0.0
    requires Promoted(order, totals, order', trader, delta)
    ensures Ranked(order', Accumulated(totals, trader, delta))
  {
    InverseDistinct(order, pos);
    TrackedInOrder(order, totals, trader);
    PromotedRanked(order, totals, order', trader, delta);
  }

  lemma AddNothing(m: map<Trader, real>, trader: Trader, delta: real)
    requires trader in m && delta == 0.0
    ensures m[trader := m[trader] + delta] == m
  {
    assert m[trader] + delta == m[trader];
    assert m[trader := m[trader]] == m;
  }

  lemma PromotedRanked(order: seq<Trader>, totals: map<Trader, real>, order': seq<Trader>, trader: Trader, delta: real)
    requires Unique(Tracked(order, trader)) && Ranked(Tracked(order, trader), WithTrader(totals, trader))
    requires delta >= 0.0
    requires Promoted(order, totals, order', trader, delta)
    ensures Ranked(order', Accumulated(totals, trader, delta))
  {
    MovedRanked(Tracked(order, trader), WithTrader(totals, trader), order', trader, delta);
  }

  lemma MovedRanked(order: seq<Trader>, totals: map<Trader, real>, order': seq<Trader>, trader: Trader, delta: real)
    requires trader in totals && Unique(order) && Ranked(order, totals) && delta >= 0.0
    requires delta == 0.0 ==> order' == order
    requires delta > 0.0 ==> Raised(order, order', trader, totals[trader := totals[trader] + delta])
    ensures Ranked(order', totals[trader := totals[trader] + delta])
  {
    if delta == 0.0 {
      AddNothing(totals, trader, delta);
    } else {
      RaisedRanked(order, order', trader, totals, totals[trader] + delta);
    }
  }

  /** Tracking the trader first and adding then is one promotion. */
  lemma PromotedBy(order: seq<Trader>, totals: map<Trader, real>, order1: seq<Trader>, totals1: map<Trader, real>,
                   order': seq<Trader>, totals': map<Trader, real>, trader: Trader, delta: real)
    requires order1 == Tracked(order, trader) && totals1 == WithTrader(totals, trader)
    requires totals' == totals1[trader := totals1[trader] + delta]
    requires delta <= 0.0 ==> order' == order1
    requires delta > 0.0 ==> Raised(order1, order', trader, totals')
    ensures Promoted(order, totals, order', trader, delta) && totals' == Accumulated(totals, trader, delta)
  {
  }

  lemma RaisedRanked(order: seq<Trader>, order': seq<Trader>, trader: Trader, totals: map<Trader, real>, v: real)
    requires Unique(order) && Ranked(order, totals) && trader in totals && v >= totals[trader]
    requires Raised(order, order', trader, totals[trader := v])
    ensures Ranked(order', totals[trader := v])
  {
    RaisedDescending(order, order', trader, totals, v);
  }

  lemma TrackedInOrder(order: seq<Trader>, totals: map<Trader, real>, trader: Trader)
    requires Unique(order) && Members(order) == totals.Keys && Ranked(order, totals)
    ensures Unique(Tracked(order, trader)) && Ranked(Tracked(order, trader), WithTrader(totals, trader))
  {
    assert trader in totals <==> trader in Members(order);
  }

  // ----- any other sort of the same traders

  lemma {:induction false} MembersCount(order: seq<Trader>)
    requires Unique(order)
    ensures |Members(order)| == |order|
  {
    if order != [] {
      var init, t := order[..|order| - 1], order[|order| - 1];
      assert Unique(init);
      MembersCount(init);
      assert order == init + [t];
      assert t !in Members(init) by {
        forall i | 0 <= i < |init| ensures init[i] != t {
          assert order[i] != order[|init|];
        }
      }
      assert Members(order) == Members(init) + {t};
    }
  }

  /** At any rank, one order cannot show more than another of the same traders: there are
      not enough traders that large. */
  lemma RankBound(order: seq<Trader>, resorted: seq<Trader>, totals: map<Trader, real>, i: nat)
    requires Unique(order) && Unique(resorted) && Members(order) == Members(resorted) && i < |order| == |resorted|
    requires forall t :: t in Members(order) ==> t in totals
    requires forall k :: 0 <= k < |order| ==> order[k] in totals && resorted[k] in totals
    requires Descending(order, totals) && Descending(resorted, totals)
    ensures totals[order[i]] <= totals[resorted[i]]
  {
    if totals[order[i]] > totals[resorted[i]] {
      var a, b := Members(order[..i + 1]), Members(resorted[..i]);
      forall t | t in a ensures t in b {
        var k :| 0 <= k < |order[..i + 1]| && order[..i + 1][k] == t;
        assert order[k] == t && t in Members(resorted);
        var j :| 0 <= j < |resorted| && resorted[j] == t;
        assert j < i && resorted[..i][j] == t;
      }
      MembersCount(order[..i + 1]);
      MembersCount(resorted[..i]);
      SubsetCount(a, b);
      assert false;
    }
  }

  /** Sorting all traders afresh, in whatever way, gives the same volumes rank by rank, and
      the same traders where no two volumes tie. */
  lemma SameAsFullSort(order: seq<Trader>, resorted: seq<Trader>, totals: map<Trader, real>)
    requires Unique(order) && Unique(resorted) && Members(order) == Members(resorted)
    requires forall k :: 0 <= k < |order| ==> order[k] in totals
    requires forall k :: 0 <= k < |resorted| ==> resorted[k] in totals
    requires Descending(order, totals) && Descending(resorted, totals)
    ensures Volumes(order, totals) == Volumes(resorted, totals)
    ensures (forall t, u :: t in totals && u in totals && t != u ==> totals[t] != totals[u]) ==> order == resorted
  {
    MembersCount(order);
    MembersCount(resorted);
    forall i | 0 <= i < |order| ensures totals[order[i]] == totals[resorted[i]] {
      RankBound(order, resorted, totals, i);
      RankBound(resorted, order, totals, i);
    }
  }

  // ----- runs

  datatype Update = Track(trader: Trader) | Trade(trader: Trader, delta: real) | Replace(entries: seq<Item>)

  /** Volume only accumulates, and a bulk replacement gives each trader once. */
  predicate Accumulates(u: Update) {
    && (u.Trade? ==> u.delta >= 0.0)
    && (u.Replace? ==> Distinct(u.entries) && forall x :: x in u.entries ==> x.total >= 0.0)
  }

  /** What the volumes are after a run. */
  function Ledger(run: seq<Update>): map<Trader, real> {
    if run == [] then map[] else
      var m := Ledger(run[..|run| - 1]);
      match run[|run| - 1]
      case Track(t) => WithTrader(m, t)
      case Trade(t, delta) => Accumulated(m, t, delta)
      case Replace(entries) => ToMap(entries)
  }

  method Apply(index: TraderVolumeIndex, u: Update)
    requires index.Valid() && Accumulates(u)
    modifies index
    ensures index.Valid()
    ensures match u
      case Track(t) => index.totals == WithTrader(old(index.totals), t)
      case Trade(t, delta) => index.totals == Accumulated(old(index.totals), t, delta)
      case Replace(entries) => index.totals == ToMap(entries)
  {
    match u
    case Track(t) => index.Ensure(t);
    case Replace(entries) => index.Rebuild(entries);
    case Trade(t, delta) =>
      index.Add(t, delta);
  }

  /** From empty, over every run. */
  method Run(run: seq<Update>) returns (index: TraderVolumeIndex)
    requires forall i :: 0 <= i < |run| ==> Accumulates(run[i])
    ensures fresh(index) && index.Valid() && index.totals == Ledger(run)
  {
    index := new TraderVolumeIndex();
    for i := 0 to |run|
      invariant fresh(index) && index.Valid() && index.totals == Ledger(run[..i])
    {
      Apply(index, run[i]);
      assert run[..i + 1][..i] == run[..i];
    }
    assert run[..|run|] == run;
  }
}
