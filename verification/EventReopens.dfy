/** Reopening a store after events: the leaves are stored then, the maps are those of before. */
module EventReopens {
  import opened Wrappers
  import opened Numerals
  import opened Packing
  import opened CensusState
  import opened CensusStore
  import opened Events
  import opened EventImports

  ghost predicate TruthfulFor(s: State, events: seq<Event>) {
    TruthfulStream(s.weights, events) && forall k | 0 <= k < |events| :: Representable(events[k])
  }

  /** Every member is one at every moment of the stream. */
  ghost predicate NobodyLeaves(weights: map<Address, nat>, events: seq<Event>) {
    forall a, k | a in weights && 0 <= k <= |events| :: a in PlainFold(weights, events[..k])
  }

  lemma WholeStream(s: State, events: seq<Event>)
    requires Inv(s) && TruthfulFor(s, events)
    ensures var t := ApplyEvents(s, events).0;
            && Inv(t) && t.weights == PlainFold(s.weights, events) && SlotsKept(s, t)
            && events[..0] == [] && events[..|events|] == events
  {
    EventsRefinePlainFold(s, events);
  }

  /** A zero address of weight zero stays as it is: its first positive weight is no truthful event. */
  lemma {:induction false} ZeroStays(weights: map<Address, nat>, events: seq<Event>, k: nat)
    requires TruthfulStream(weights, events) && k <= |events| && 0 in weights && weights[0] == 0
    ensures 0 in PlainFold(weights, events[..k]) && PlainFold(weights, events[..k])[0] == 0
    decreases k
  {
    if k == 0 {
    } else {
      ZeroStays(weights, events, k - 1);
      assert events[..k][..k - 1] == events[..k - 1];
    }
  }

  /** A member whose nonzero leaf is still in its slot at the end has been one all the time, with the
      same weight. */
  lemma LeafStillThere(s: State, events: seq<Event>, a: Address, k: nat)
    requires Inv(s) && TruthfulFor(s, events) && a in s.addressIndex && (a, s.weights[a]) != (0, 0) && k <= |events|
    requires var i, t := s.addressIndex[a], ApplyEvents(s, events).0; i < |t.leaves| && t.leaves[i] == s.leaves[i]
    ensures a in PlainFold(s.weights, events[..k])
    ensures var w := PlainFold(s.weights, events); a in w && w[a] == s.weights[a]
  {
    var i, t := s.addressIndex[a], ApplyEvents(s, events).0;
    WholeStream(s, events);
    assert SlotOk(s, i);
    MemberHasOneSlot(t, a, s.weights[a], i);
    PackedInjective(a, s.weights[a], a, s.weights[a]);
    PrefixRefinesPlainFold(s, events, k);
    StreamKeepsSlots(s, events, 0, k);
    if a !in PlainFold(s.weights, events[..k]) { EmptiedSlotsStayZero(s, events, k, |events|, i); }
  }

  lemma MemberStays(s: State, events: seq<Event>, a: Address, k: nat)
    requires Inv(s) && GapFree(s) && TruthfulFor(s, events) && a in s.weights && k <= |events|
    requires s.leaves <= ApplyEvents(s, events).0.leaves
    ensures a in PlainFold(s.weights, events[..k])
    ensures var w := PlainFold(s.weights, events); a in w && w[a] == s.weights[a]
  {
    if (a, s.weights[a]) == (0, 0) {
      ZeroStays(s.weights, events, k);
      ZeroStays(s.weights, events, |events|);
      assert events[..|events|] == events;
    } else {
      assert a in s.addressIndex.Keys;
      LeafStillThere(s, events, a, k);
    }
  }

  /** If only empty slots were added, every member was one before. */
  lemma NobodyJoined(s: State, events: seq<Event>, b: Address)
    requires Inv(s) && GapFree(s) && TruthfulFor(s, events) && b in PlainFold(s.weights, events)
    requires var t := ApplyEvents(s, events).0; forall i | |s.leaves| <= i < |t.leaves| :: t.leaves[i] == 0
    ensures b in s.weights
  {
    var t := ApplyEvents(s, events).0;
    WholeStream(s, events);
    assert b in t.addressIndex.Keys;
    var j := t.addressIndex[b];
    assert SlotOk(t, j);
    if j >= |s.leaves| {
      PackedInjective(b, t.weights[b], b, t.weights[b]);
      ZeroWeightIsUnnamed(s.weights, events, b);
    } else {
      assert s.indexToAddress[j] in s.addressIndex.Keys;
    }
  }

  /** When nobody leaves and the weights are as before, so are the old leaves. */
  lemma OldLeafStays(s: State, events: seq<Event>, i: nat)
    requires Inv(s) && GapFree(s) && TruthfulFor(s, events) && i < |s.leaves|
    requires PlainFold(s.weights, events) == s.weights && NobodyLeaves(s.weights, events)
    ensures var t := ApplyEvents(s, events).0; i < |t.leaves| && t.leaves[i] == s.leaves[i]
  {
    var a, t := s.indexToAddress[i], ApplyEvents(s, events).0;
    WholeStream(s, events);
    assert SlotOk(s, i);
    MembersKeepTheirSlots(s, events, 0, |events|, a);
    assert SlotOk(t, i);
  }

  lemma NewSlotIsEmpty(s: State, events: seq<Event>, i: nat)
    requires Inv(s) && GapFree(s) && TruthfulFor(s, events) && |s.leaves| <= i < |ApplyEvents(s, events).0.leaves|
    requires PlainFold(s.weights, events) == s.weights && NobodyLeaves(s.weights, events)
    ensures ApplyEvents(s, events).0.leaves[i] == 0
  {
    var t := ApplyEvents(s, events).0;
    WholeStream(s, events);
    assert SlotOk(t, i);
    if i in t.indexToAddress {
      var b := t.indexToAddress[i];
      assert b in s.addressIndex.Keys;
      MembersKeepTheirSlots(s, events, 0, |events|, b);
    }
  }

  /** The exact condition, on the census and the events alone, for the reopened census to be
      consistent: nobody leaves at any time, not even to come back, and in the end nobody has joined
      and every weight is as before. */
  lemma ReopenedIsConsistentIff(s: State, events: seq<Event>)
    requires Inv(s) && GapFree(s) && TruthfulFor(s, events)
    ensures Inv(s.(leaves := ApplyEvents(s, events).0.leaves)) <==>
            PlainFold(s.weights, events) == s.weights && NobodyLeaves(s.weights, events)
  {
    var t, w := ApplyEvents(s, events).0, PlainFold(s.weights, events);
    WholeStream(s, events);
    OldMapsFitIff(s, t.leaves);
    if w == s.weights && NobodyLeaves(s.weights, events) {
      forall i | 0 <= i < |s.leaves| ensures t.leaves[i] == s.leaves[i] { OldLeafStays(s, events, i); }
      forall i | |s.leaves| <= i < |t.leaves| ensures t.leaves[i] == 0 { NewSlotIsEmpty(s, events, i); }
    }
    if Inv(s.(leaves := t.leaves)) {
      forall a, k | a in s.weights && 0 <= k <= |events|
        ensures a in PlainFold(s.weights, events[..k]) && a in w && w[a] == s.weights[a]
      {
        MemberStays(s, events, a, k);
      }
      forall b | b in w ensures b in s.weights { NobodyJoined(s, events, b); }
      assert w == s.weights by {
        forall a | a in s.weights ensures a in w && w[a] == s.weights[a] { MemberStays(s, events, a, 0); }
      }
    }
  }

  /** An input that fails it: one address joins. */
  lemma JoiningIsLost(s: State, a: Address, w: nat)
    requires Inv(s) && GapFree(s) && a != 0 && a !in s.weights && 0 < w <= MAX_INT
    ensures var events := [Event(a, 0, w)];
            && TruthfulFor(s, events) && ApplyEvents(s, events) == (Appended(s, a, w), Done)
            && !Inv(s.(leaves := ApplyEvents(s, events).0.leaves))
  {
    var e := Event(a, 0, w);
    var events := [e];
    assert events[..0] == [] && ApplyEvents(s, events) == ApplyEvent(s, e);
    SmallWeightsRepresentable(e);
    assert a !in s.addressIndex.Keys;
    TruthfulEventEffect(s, e);
    ReopenedIsConsistentIff(s, events);
    assert a in PlainFold(s.weights, events);
  }
}
