/** The greedy packer of collect instructions into transactions. */
module Packing {
  import opened Collections

  const MAX_TRANSACTION_SIZE: nat := 4096
  const MAX_WRAPPERS: nat := 61

  datatype Wrapper = Wrapper(pubkey: int)

  datatype Packed = Batches(batches: seq<seq<Wrapper>>) | BadCap | SingleTooLarge

  /** The size in bytes of one transaction with these wrappers; None when it cannot be compiled. */
  type Serializer = seq<Wrapper> -> Option<nat>

  function SerializedSize(serialize: Serializer, batch: seq<Wrapper>): Option<nat> {
    if |batch| > MAX_WRAPPERS then None else serialize(batch)
  }

  /** Not over 61 wrappers, nor over the limit asked for, if there is one; and the transaction
      compiles, to not over 4096 bytes. */
  predicate Fits(serialize: Serializer, max: Option<real>, batch: seq<Wrapper>) {
    && |batch| <= 61 && (max.Some? ==> |batch| as real <= max.value)
    && serialize(batch).Some? && serialize(batch).value <= 4096
  }

  predicate Counts(max: real, n: nat) { max == n as real && n > 0 }

  /** A limit, if there is one, has to be a positive whole number. */
  ghost predicate LegalCap(max: Option<real>) { max.Some? ==> exists n: nat :: Counts(max.value, n) }

  lemma LegalCapByFloor(max: Option<real>)
    ensures LegalCap(max) <==> (max.Some? ==> max.value.Floor as real == max.value && max.value > 0.0)
  {
    if max.Some? && max.value.Floor as real == max.value && max.value > 0.0 {
      assert Counts(max.value, max.value.Floor);
    }
  }

  function Concat(batches: seq<seq<Wrapper>>): seq<Wrapper> {
    if batches == [] then [] else batches[0] + Concat(batches[1..])
  }

  lemma {:induction false} ConcatLast(batches: seq<seq<Wrapper>>, last: seq<Wrapper>)
    ensures Concat(batches + [last]) == Concat(batches) + last
  {
    if batches == [] {
      assert [last][1..] == [] && [] + last == last + [] == last;
    } else {
      assert (batches + [last])[1..] == batches[1..] + [last];
      ConcatLast(batches[1..], last);
    }
  }

  predicate AllFit(serialize: Serializer, max: Option<real>, batches: seq<seq<Wrapper>>) {
    forall k :: 0 <= k < |batches| ==> Fits(serialize, max, batches[k])
  }

  predicate NonEmpty(batches: seq<seq<Wrapper>>) {
    forall k :: 0 <= k < |batches| ==> batches[k] != []
  }

  predicate SinglesFit(serialize: Serializer, max: Option<real>, wrappers: seq<Wrapper>) {
    forall k :: 0 <= k < |wrappers| ==> Fits(serialize, max, [wrappers[k]])
  }

  /** Dropping wrappers at either end of a batch that fits leaves one that fits. */
  ghost predicate ClosedUnderParts(serialize: Serializer, max: Option<real>) {
    forall batch: seq<Wrapper>, i: nat, j: nat :: i < j <= |batch| && Fits(serialize, max, batch)
      ==> Fits(serialize, max, batch[i..j])
  }

  /** No batch could have taken the first wrapper of the next one. */
  predicate Greedy(serialize: Serializer, max: Option<real>, batches: seq<seq<Wrapper>>)
    requires NonEmpty(batches)
  {
    forall k :: 0 <= k < |batches| - 1 ==> !Fits(serialize, max, batches[k] + [batches[k + 1][0]])
  }

  predicate FitOrSingle(serialize: Serializer, max: Option<real>, batch: seq<Wrapper>) {
    Fits(serialize, max, batch) || |batch| == 1
  }

  /** The closed batches and the open one hold `done`; no closed one could have taken more. */
  predicate Packing(serialize: Serializer, max: Option<real>, done: seq<Wrapper>, batches: seq<seq<Wrapper>>,
                    current: seq<Wrapper>)
  {
    && Concat(batches) + current == done && NonEmpty(batches + [current])
    && Greedy(serialize, max, batches + [current])
    && forall k :: 0 <= k <= |batches| ==> FitOrSingle(serialize, max, (batches + [current])[k])
  }

  lemma GrowStep(serialize: Serializer, max: Option<real>, done: seq<Wrapper>, batches: seq<seq<Wrapper>>,
                 current: seq<Wrapper>, w: Wrapper)
    requires Packing(serialize, max, done, batches, current) && Fits(serialize, max, current + [w])
    ensures Packing(serialize, max, done + [w], batches, current + [w])
  {
    var s, s' := batches + [current], batches + [current + [w]];
    assert Concat(batches) + (current + [w]) == done + [w];
    assert forall k :: 0 <= k < |batches| ==> s'[k] == s[k];
    assert s[|batches|] == current && s'[|batches|] == current + [w];
    forall k | 0 <= k < |s'| - 1 ensures !Fits(serialize, max, s'[k] + [s'[k + 1][0]]) {
      assert s'[k + 1][0] == s[k + 1][0];
    }
  }

  lemma CloseStep(serialize: Serializer, max: Option<real>, done: seq<Wrapper>, batches: seq<seq<Wrapper>>,
                  current: seq<Wrapper>, w: Wrapper)
    requires Packing(serialize, max, done, batches, current) && !Fits(serialize, max, current + [w])
    ensures Packing(serialize, max, done + [w], batches + [current], [w])
  {
    ConcatLast(batches, current);
    var s, s' := batches + [current], batches + [current] + [[w]];
    assert forall k :: 0 <= k <= |batches| ==> s'[k] == s[k];
    assert s'[|batches| + 1] == [w] && s[|batches|] == current;
    forall k | 0 <= k < |s'| - 1 ensures !Fits(serialize, max, s'[k] + [s'[k + 1][0]]) {
      assert s'[k] == s[k];
    }
  }

  /** At most 61 wrappers and no more than asked for; and if more than one, at most 4096 bytes. */
  predicate HoldsAtMost(serialize: Serializer, max: Option<real>, batch: seq<Wrapper>) {
    && |batch| <= 61 && (max.Some? ==> |batch| as real <= max.value)
    && (|batch| > 1 ==> serialize(batch).Some? && serialize(batch).value <= 4096)
  }

  /** It has 61 wrappers, or all that were asked for, or with `next` the transaction does not
      compile, or is over 4096 bytes. */
  predicate NoRoomFor(serialize: Serializer, max: Option<real>, batch: seq<Wrapper>, next: Wrapper) {
    || |batch| == 61 || (max.Some? && |batch| as real == max.value)
    || serialize(batch + [next]).None? || serialize(batch + [next]).value > 4096
  }

  /** The cap in force: what was asked for, but not over 61. */
  predicate InForce(max: Option<real>, cap: nat) {
    cap == if max.Some? && max.value.Floor < MAX_WRAPPERS then max.value.Floor else MAX_WRAPPERS
  }

  lemma FitsByCap(serialize: Serializer, max: Option<real>, cap: nat, batch: seq<Wrapper>)
    requires (max.Some? ==> max.value.Floor as real == max.value && max.value > 0.0) && InForce(max, cap)
    ensures Fits(serialize, max, batch) <==>
      && |batch| <= cap && SerializedSize(serialize, batch).Some?
      && SerializedSize(serialize, batch).value <= MAX_TRANSACTION_SIZE
  {
    assert max.Some? ==> (|batch| as real <= max.value <==> |batch| <= max.value.Floor);
  }

  lemma PackedInNumbers(serialize: Serializer, max: Option<real>, batches: seq<seq<Wrapper>>)
    requires LegalCap(max) && NonEmpty(batches) && Greedy(serialize, max, batches)
    requires forall k :: 0 <= k < |batches| ==> FitOrSingle(serialize, max, batches[k])
    ensures forall k :: 0 <= k < |batches| ==> HoldsAtMost(serialize, max, batches[k])
    ensures forall k :: 0 <= k < |batches| - 1 ==> NoRoomFor(serialize, max, batches[k], batches[k + 1][0])
  {
    forall k | 0 <= k < |batches| ensures HoldsAtMost(serialize, max, batches[k]) {
      assert FitOrSingle(serialize, max, batches[k]);
    }
    forall k | 0 <= k < |batches| - 1 ensures NoRoomFor(serialize, max, batches[k], batches[k + 1][0]) {
      assert HoldsAtMost(serialize, max, batches[k]);
      assert !Fits(serialize, max, batches[k] + [batches[k + 1][0]]);
      FullOrLess(max, |batches[k]|);
    }
  }

  lemma FullOrLess(max: Option<real>, k: nat)
    requires LegalCap(max) && (max.Some? ==> k as real <= max.value)
    ensures max.Some? && k as real != max.value ==> (k + 1) as real <= max.value
  {
    if max.Some? {
      var n: nat :| Counts(max.value, n);
      assert k as real <= n as real <==> k <= n;
      assert (k + 1) as real <= n as real <==> k + 1 <= n;
    }
  }

  /** Packs in order. Only the first wrapper is ever checked alone: a later one that is
      too large by itself is packed all the same, as a batch of one. */
  method PackCollectTransactions(wrappers: seq<Wrapper>, serialize: Serializer, maxWrappers: Option<real>)
    returns (r: Packed)
    ensures r.BadCap? <==> !LegalCap(maxWrappers)
    ensures r.SingleTooLarge? <==>
      LegalCap(maxWrappers) && wrappers != [] && !Fits(serialize, maxWrappers, [wrappers[0]])
    ensures r.SingleTooLarge? ==> serialize([wrappers[0]]).None? || serialize([wrappers[0]]).value > 4096
    ensures r.Batches? && wrappers != [] ==> serialize([wrappers[0]]).Some? && serialize([wrappers[0]]).value <= 4096
    ensures r.Batches? ==>
      && Concat(r.batches) == wrappers && NonEmpty(r.batches)
      && Greedy(serialize, maxWrappers, r.batches)
      && forall k :: 0 <= k < |r.batches| ==> FitOrSingle(serialize, maxWrappers, r.batches[k])
    ensures r.Batches? ==> forall k :: 0 <= k < |r.batches| ==> HoldsAtMost(serialize, maxWrappers, r.batches[k])
    ensures r.Batches? ==> forall k :: 0 <= k < |r.batches| - 1 ==>
      NoRoomFor(serialize, maxWrappers, r.batches[k], r.batches[k + 1][0])
  {
    LegalCapByFloor(maxWrappers);
    if maxWrappers.Some? && (maxWrappers.value.Floor as real != maxWrappers.value || maxWrappers.value <= 0.0) {
      return BadCap;
    }
    var cap := if maxWrappers.Some? && maxWrappers.value.Floor < MAX_WRAPPERS then maxWrappers.value.Floor
               else MAX_WRAPPERS;
    var batches: seq<seq<Wrapper>> := [];
    var current: seq<Wrapper> := [];
    for i := 0 to |wrappers|
      invariant current == [] <==> i == 0
      invariant i == 0 ==> batches == []
      invariant i > 0 ==>
        Fits(serialize, maxWrappers, [wrappers[0]]) && Packing(serialize, maxWrappers, wrappers[..i], batches, current)
    {
      var candidate := current + [wrappers[i]];
      assert wrappers[..i + 1] == wrappers[..i] + [wrappers[i]];
      var size := SerializedSize(serialize, candidate);
      FitsByCap(serialize, maxWrappers, cap, candidate);
      if |candidate| <= cap && size.Some? && size.value <= MAX_TRANSACTION_SIZE {
        if i == 0 {
          assert candidate == [wrappers[0]] == wrappers[..1];
          FirstStep(serialize, maxWrappers, candidate);
        } else {
          GrowStep(serialize, maxWrappers, wrappers[..i], batches, current, wrappers[i]);
        }
        current := candidate;
      } else {
        if current == [] {
          assert candidate == [wrappers[0]];
          FullOrLess(maxWrappers, 0);
          return SingleTooLarge;
        }
        CloseStep(serialize, maxWrappers, wrappers[..i], batches, current, wrappers[i]);
        batches := batches + [current];
        current := [wrappers[i]];
      }
    }
    if current != [] {
      ConcatLast(batches, current);
      batches := batches + [current];
    }
    assert wrappers[..|wrappers|] == wrappers;
    PackedInNumbers(serialize, maxWrappers, batches);
    return Batches(batches);
  }

  lemma FirstStep(serialize: Serializer, max: Option<real>, first: seq<Wrapper>)
    requires first != [] && Fits(serialize, max, first)
    ensures Packing(serialize, max, first, [], first)
  {
    assert [] + [first] == [first] && Concat([]) + first == first;
  }

  /** What batches that fit have in them fits alone. */
  lemma {:induction false} PartsFitAlone(serialize: Serializer, max: Option<real>, batches: seq<seq<Wrapper>>)
    requires ClosedUnderParts(serialize, max) && AllFit(serialize, max, batches)
    ensures SinglesFit(serialize, max, Concat(batches))
  {
    if batches != [] {
      PartsFitAlone(serialize, max, batches[1..]);
      var all, first, rest := Concat(batches), batches[0], Concat(batches[1..]);
      forall k | 0 <= k < |all| ensures Fits(serialize, max, [all[k]]) {
        if k < |first| {
          assert first[k..k + 1] == [all[k]];
        } else {
          assert all[k] == rest[k - |first|];
        }
      }
    }
  }

  /** Packed batches are all within the limits exactly when every wrapper fits alone,
      which the caller can check beforehand. */
  lemma PackedWithinLimits(serialize: Serializer, max: Option<real>, batches: seq<seq<Wrapper>>)
    requires ClosedUnderParts(serialize, max)
    requires forall k :: 0 <= k < |batches| ==> Fits(serialize, max, batches[k]) || |batches[k]| == 1
    ensures AllFit(serialize, max, batches) <==> SinglesFit(serialize, max, Concat(batches))
  {
    if AllFit(serialize, max, batches) {
      PartsFitAlone(serialize, max, batches);
    }
    if SinglesFit(serialize, max, Concat(batches)) {
      forall k | 0 <= k < |batches| ensures Fits(serialize, max, batches[k]) {
        if |batches[k]| == 1 {
          InConcat(batches, k);
        }
      }
    }
  }

  lemma {:induction false} InConcat(batches: seq<seq<Wrapper>>, k: int)
    requires 0 <= k < |batches| && |batches[k]| == 1
    ensures exists i :: 0 <= i < |Concat(batches)| && [Concat(batches)[i]] == batches[k]
  {
    var first, rest := batches[0], Concat(batches[1..]);
    if k == 0 {
      assert [Concat(batches)[0]] == batches[0];
    } else {
      InConcat(batches[1..], k - 1);
      var i :| 0 <= i < |rest| && [rest[i]] == batches[k];
      assert Concat(batches)[|first| + i] == rest[i];
    }
  }

  /** A batch that fits and reaches from before `first` past its end shows that `first`
      could have taken one more. */
  lemma ReachesInto(serialize: Serializer, max: Option<real>, batch: seq<Wrapper>,
                    ahead: seq<Wrapper>, first: seq<Wrapper>, rest: seq<Wrapper>)
    requires ClosedUnderParts(serialize, max) && Fits(serialize, max, batch)
    requires |ahead| + |first| < |batch| <= |ahead + first + rest| && batch == (ahead + first + rest)[..|batch|]
    ensures Fits(serialize, max, first + [rest[0]])
  {
    var part := batch[|ahead|..|ahead| + |first| + 1];
    assert Fits(serialize, max, part);
    assert part == first + [rest[0]];
  }

  /** No split in order has fewer batches: when the packer has packed as much as any
      other way, plus nothing or `ahead`, it needs no more batches for what is left. */
  lemma {:induction false} FewestBatches(serialize: Serializer, max: Option<real>, ahead: seq<Wrapper>,
                                         batches: seq<seq<Wrapper>>, other: seq<seq<Wrapper>>)
    requires ClosedUnderParts(serialize, max) && NonEmpty(batches) && Greedy(serialize, max, batches)
    requires AllFit(serialize, max, other) && Concat(other) == ahead + Concat(batches)
    ensures |batches| <= |other|
    decreases |batches|
  {
    if |batches| == 1 {
      assert |Concat(batches)| == |batches[0]| > 0;
    } else if |batches| > 1 {
      var first, rest := batches[0], Concat(batches[1..]);
      assert other != [] && rest != [] && rest[0] == batches[1][0];
      var mine, theirs := ahead + first, other[0];
      var all := Concat(other);
      assert all == mine + rest;
      assert theirs == all[..|theirs|];
      assert !Fits(serialize, max, batches[0] + [batches[1][0]]);
      if |theirs| > |mine| {
        ReachesInto(serialize, max, theirs, ahead, first, rest);
        assert false;
      }
      assert Concat(other[1..]) == all[|theirs|..] == mine[|theirs|..] + rest;
      assert Greedy(serialize, max, batches[1..]) by {
        forall k | 0 <= k < |batches| - 2 ensures !Fits(serialize, max, batches[1..][k] + [batches[1..][k + 1][0]]) {
          assert batches[1..][k] == batches[k + 1] && batches[1..][k + 1] == batches[k + 2];
        }
      }
      FewestBatches(serialize, max, mine[|theirs|..], batches[1..], other[1..]);
    }
  }

  /** As few batches as any split of the wrappers in order that keeps the limits. */
  method PackOptimally(wrappers: seq<Wrapper>, serialize: Serializer, maxWrappers: Option<real>)
    returns (batches: seq<seq<Wrapper>>)
    requires LegalCap(maxWrappers) && ClosedUnderParts(serialize, maxWrappers)
    requires SinglesFit(serialize, maxWrappers, wrappers)
    ensures Concat(batches) == wrappers && NonEmpty(batches) && AllFit(serialize, maxWrappers, batches)
    ensures forall other ::
      AllFit(serialize, maxWrappers, other) && Concat(other) == wrappers ==> |batches| <= |other|
  {
    var r := PackCollectTransactions(wrappers, serialize, maxWrappers);
    batches := r.batches;
    PackedWithinLimits(serialize, maxWrappers, batches);
    forall other | AllFit(serialize, maxWrappers, other) && Concat(other) == wrappers
      ensures |batches| <= |other|
    {
      assert [] + Concat(batches) == wrappers;
      FewestBatches(serialize, maxWrappers, [], batches, other);
    }
  }

  /** A message with one wrapper has the same size whichever wrapper it is: always the same
      accounts and the same data around one address. */
  ghost predicate EqualSingles(serialize: Serializer) {
    forall a: Wrapper, b: Wrapper :: serialize([a]) == serialize([b])
  }

  /** With messages of one shape, the check on the first wrapper stands for all of them:
      packing fails exactly when no wrapper fits, and otherwise keeps the limits with as few
      batches as possible. */
  method PackEqualSingles(wrappers: seq<Wrapper>, serialize: Serializer, maxWrappers: Option<real>)
    returns (r: Packed)
    requires EqualSingles(serialize) && (LegalCap(maxWrappers) ==> ClosedUnderParts(serialize, maxWrappers))
    ensures r.BadCap? <==> !LegalCap(maxWrappers)
    ensures r.SingleTooLarge? <==> LegalCap(maxWrappers) && !SinglesFit(serialize, maxWrappers, wrappers)
    ensures r.Batches? ==>
      && Concat(r.batches) == wrappers && NonEmpty(r.batches) && AllFit(serialize, maxWrappers, r.batches)
      && forall other :: AllFit(serialize, maxWrappers, other) && Concat(other) == wrappers
           ==> |r.batches| <= |other|
  {
    r := PackCollectTransactions(wrappers, serialize, maxWrappers);
    if LegalCap(maxWrappers) && wrappers != [] {
      FirstSpeaksForAll(serialize, maxWrappers, wrappers);
    }
    if r.Batches? {
      PackedWithinLimits(serialize, maxWrappers, r.batches);
      forall other | AllFit(serialize, maxWrappers, other) && Concat(other) == wrappers
        ensures |r.batches| <= |other|
      {
        assert [] + Concat(r.batches) == wrappers;
        FewestBatches(serialize, maxWrappers, [], r.batches, other);
      }
    }
  }

  lemma FirstSpeaksForAll(serialize: Serializer, max: Option<real>, wrappers: seq<Wrapper>)
    requires EqualSingles(serialize) && wrappers != []
    ensures SinglesFit(serialize, max, wrappers) <==> Fits(serialize, max, [wrappers[0]])
  {
    forall k | 0 <= k < |wrappers|
      ensures Fits(serialize, max, [wrappers[k]]) <==> Fits(serialize, max, [wrappers[0]])
    {
      assert serialize([wrappers[k]]) == serialize([wrappers[0]]);
    }
  }
}
