/** Importing events into a census that had members: the maps are cleared, the leaves stay. */
module EventImports {
  import opened Wrappers
  import opened Numerals
  import opened Packing
  import opened IncrementalTree
  import opened CensusState
  import opened Events

  ghost predicate TruthfulImport(events: seq<Event>) {
    TruthfulStream(map[], events) && forall k | 0 <= k < |events| :: Representable(events[k])
  }

  // ---------------------------------------------------------------- the weights

  /** Every recorded weight is positive, of a nonzero address, and some leaf is the packed pair. */
  ghost predicate WeightsInLeaves(t: State) {
    forall a | a in t.weights :: a != 0 && 0 < t.weights[a] < TWO_88 && Packed(a, t.weights[a]) in t.leaves
  }

  /** The effect of a truthful, representable event when the weights are in the leaves. */
  lemma ImportStep(t: State, e: Event)
    requires WeightsInLeaves(t) && Truthful(t.weights, e) && Representable(e)
    ensures e.newWeight == 0 && OpOf(e) != TreeNoOp ==>
              e.address in t.weights && FirstIndex(t.leaves, Packed(e.address, e.prevWeight)) >= 0
    ensures var i := FirstIndex(t.leaves, Packed(e.address, e.prevWeight));
            ApplyEvent(t, e) ==
            if OpOf(e) == TreeNoOp then (t, Done)
            else if e.newWeight == 0 then (Vacated(t, i, e.address), Done)
            else if i < 0 then (Appended(t, e.address, e.newWeight), Done)
            else (Reweighted(t, i, e.address, e.newWeight), Done)
    ensures OpOf(e) == TreeNoOp ==> e.newWeight == e.prevWeight
  {
    PackIsArithmetic(e.address, e.prevWeight);
    PackIsArithmetic(e.address, e.newWeight);
    FirstIndexMeaning(t.leaves, Packed(e.address, e.prevWeight));
  }

  /** The leaf at i is replaced by one that is not needed, or a leaf is appended: other leaves stay. */
  lemma OtherLeafStays(leaves: seq<nat>, i: int, leaf: nat, x: nat)
    requires x in leaves && (0 <= i < |leaves| ==> leaves[i] != x)
    ensures x in (if 0 <= i < |leaves| then leaves[i := leaf] else leaves + [leaf])
  {
    var j :| 0 <= j < |leaves| && leaves[j] == x;
    if 0 <= i < |leaves| { assert leaves[i := leaf][j] == x; } else { assert (leaves + [leaf])[j] == x; }
  }

  lemma OtherWeightsStay(t: State, e: Event, b: Address)
    requires WeightsInLeaves(t) && Truthful(t.weights, e) && Representable(e)
    requires b in t.weights && b != e.address
    ensures Packed(b, t.weights[b]) in ApplyEvent(t, e).0.leaves
  {
    ImportStep(t, e);
    var i, x := FirstIndex(t.leaves, Packed(e.address, e.prevWeight)), Packed(b, t.weights[b]);
    FirstIndexMeaning(t.leaves, Packed(e.address, e.prevWeight));
    PackedInjective(b, t.weights[b], e.address, e.prevWeight);
    OtherLeafStays(t.leaves, i, 0, x);
    OtherLeafStays(t.leaves, i, Packed(e.address, e.newWeight), x);
  }

  lemma WeightsStep(t: State, e: Event)
    requires WeightsInLeaves(t) && Truthful(t.weights, e) && Representable(e)
    ensures var (t', r) := ApplyEvent(t, e);
            r == Done && t'.weights == PlainStep(t.weights, e) && WeightsInLeaves(t')
  {
    var a, t' := e.address, ApplyEvent(t, e).0;
    ImportStep(t, e);
    FirstIndexMeaning(t.leaves, Packed(a, e.prevWeight));
    assert t'.weights == PlainStep(t.weights, e);
    forall b | b in t'.weights ensures Packed(b, t'.weights[b]) in t'.leaves {
      if b != a {
        OtherWeightsStay(t, e, b);
      } else if OpOf(e) != TreeNoOp {
        var i := FirstIndex(t.leaves, Packed(a, e.prevWeight));
        assert t'.leaves[if i < 0 then |t.leaves| else i] == Packed(a, e.newWeight);
      }
    }
  }

  /** Importing never fails and gives the plain fold of the events from nothing. */
  lemma {:induction false} ImportedWeights(leaves: seq<nat>, events: seq<Event>, k: nat)
    requires TruthfulImport(events) && k <= |events|
    ensures var (t, r) := ApplyEvents(Forgotten(leaves), events[..k]);
            && r == Done && WeightsInLeaves(t) && t.weights == PlainFold(map[], events[..k])
            && (k < |events| ==> Truthful(t.weights, events[k])
                                 && ApplyEvents(Forgotten(leaves), events[..k + 1]) == ApplyEvent(t, events[k]))
    decreases k
  {
    if k == 0 {
    } else {
      ImportedWeights(leaves, events, k - 1);
      WeightsStep(ApplyEvents(Forgotten(leaves), events[..k - 1]).0, events[k - 1]);
      assert events[..k][..k - 1] == events[..k - 1];
    }
    if k < |events| { assert events[..k + 1][..k] == events[..k]; }
  }

  // ---------------------------------------------------------------- leaves that nobody takes over

  /** Slot i holds a leaf of address a. */
  ghost predicate HasLeafOf(t: State, i: nat, a: Address) {
    i < |t.leaves| && t.leaves[i] != 0 && t.leaves[i] / TWO_88 == a
  }

  /** Address a has more leaves than it should: one besides its own if it is a member. */
  ghost predicate Stray(t: State, a: Address) {
    if a in t.weights then exists i: nat, j: nat :: i != j && HasLeafOf(t, i, a) && HasLeafOf(t, j, a)
    else exists i: nat :: HasLeafOf(t, i, a)
  }

  lemma LeafOwner(a: Address, w: nat)
    requires w < TWO_88
    ensures Packed(a, w) / TWO_88 == a
  {
    UnpackIsArithmetic(Packed(a, w));
    UnpackPacked(a, w);
  }

  lemma StrayIsInconsistent(t: State, a: Address)
    requires Stray(t, a)
    ensures !Inv(t)
  {
    if Inv(t) {
      forall i: nat | HasLeafOf(t, i, a) ensures a in t.addressIndex && t.addressIndex[a] == i {
        assert SlotOk(t, i);
        var b := t.indexToAddress[i];
        LeafOwner(b, t.weights[b]);
      }
    }
  }

  /** An event about another address leaves the leaves of a alone. */
  lemma OtherOwnersStay(t: State, e: Event, a: Address, j: nat)
    requires WeightsInLeaves(t) && Truthful(t.weights, e) && Representable(e)
    requires HasLeafOf(t, j, a) && e.address != a
    ensures HasLeafOf(ApplyEvent(t, e).0, j, a)
  {
    ImportStep(t, e);
    FirstIndexMeaning(t.leaves, Packed(e.address, e.prevWeight));
    LeafOwner(e.address, e.prevWeight);
  }

  /** An event that gives a a positive weight keeps its leaves, and appends one if none was found. */
  lemma OwnLeavesStay(t: State, e: Event, j: nat)
    requires WeightsInLeaves(t) && Truthful(t.weights, e) && Representable(e)
    requires HasLeafOf(t, j, e.address) && e.newWeight > 0
    ensures HasLeafOf(ApplyEvent(t, e).0, j, e.address)
    ensures Packed(e.address, e.prevWeight) !in t.leaves && OpOf(e) != TreeNoOp ==>
              HasLeafOf(ApplyEvent(t, e).0, |t.leaves|, e.address)
  {
    ImportStep(t, e);
    FirstIndexMeaning(t.leaves, Packed(e.address, e.prevWeight));
    LeafOwner(e.address, e.newWeight);
  }

  lemma StrayStep(t: State, e: Event, a: Address)
    requires WeightsInLeaves(t) && Truthful(t.weights, e) && Representable(e) && Stray(t, a)
    requires e.address == a ==> e.newWeight == 0 || Packed(a, 0) !in t.leaves
    ensures Stray(ApplyEvent(t, e).0, a)
  {
    var t' := ApplyEvent(t, e).0;
    ImportStep(t, e);
    if e.address != a {
      forall j: nat | HasLeafOf(t, j, a) ensures HasLeafOf(t', j, a) { OtherOwnersStay(t, e, a, j); }
    } else if e.newWeight > 0 {
      forall j: nat | HasLeafOf(t, j, a) ensures HasLeafOf(t', j, a) { OwnLeavesStay(t, e, j); }
      if a !in t.weights {
        var j: nat :| HasLeafOf(t, j, a);
        OwnLeavesStay(t, e, j);
      }
    } else if OpOf(e) != TreeNoOp {
      var i: nat, j: nat :| i != j && HasLeafOf(t, i, a) && HasLeafOf(t, j, a);
      var k := FirstIndex(t.leaves, Packed(a, e.prevWeight));
      assert HasLeafOf(t', if k == i then j else i, a);
    }
  }

  /** Some event gives a a positive weight. */
  ghost predicate Named(events: seq<Event>, a: Address) {
    exists k :: 0 <= k < |events| && events[k].address == a && events[k].newWeight > 0
  }

  lemma NoZeroWeightLeaf(t: State, e: Event, a: Address)
    requires WeightsInLeaves(t) && Truthful(t.weights, e) && Representable(e)
    requires a != 0 && Packed(a, 0) !in t.leaves
    ensures Packed(a, 0) !in ApplyEvent(t, e).0.leaves
  {
    ImportStep(t, e);
    PackedInjective(a, 0, e.address, e.newWeight);
  }

  /** A leaf of a stays stray through the whole stream, unless it is the packed weight zero and the
      stream names a. */
  lemma {:induction false} StrayForGood(leaves: seq<nat>, events: seq<Event>, a: Address, k: nat)
    requires TruthfulImport(events) && k <= |events| && Stray(Forgotten(leaves), a)
    requires Named(events, a) ==> a != 0 && Packed(a, 0) !in leaves
    ensures var t := ApplyEvents(Forgotten(leaves), events[..k]).0;
            Stray(t, a) && (Named(events, a) ==> Packed(a, 0) !in t.leaves)
    decreases k
  {
    if k == 0 {
    } else {
      var t, e := ApplyEvents(Forgotten(leaves), events[..k - 1]).0, events[k - 1];
      StrayForGood(leaves, events, a, k - 1);
      ImportedWeights(leaves, events, k - 1);
      StrayStep(t, e, a);
      if Named(events, a) { NoZeroWeightLeaf(t, e, a); }
    }
  }

  lemma ZeroIsNeverNamed(events: seq<Event>)
    requires TruthfulImport(events)
    ensures !Named(events, 0)
  {
    forall k | 0 <= k < |events| && events[k].address == 0 ensures events[k].newWeight == 0 {
      ImportedWeights([], events, k);
    }
  }

  // ---------------------------------------------------------------- leaves that are taken over

  function PositiveIndex(addressIndex: map<Address, nat>, weights: map<Address, nat>): map<Address, nat> {
    map a | a in addressIndex && WeightOf(weights, a) > 0 :: addressIndex[a]
  }

  function PositiveSlots(indexToAddress: map<nat, Address>, weights: map<Address, nat>): map<nat, Address> {
    map i | i in indexToAddress && WeightOf(weights, indexToAddress[i]) > 0 :: indexToAddress[i]
  }

  /** The members of positive weight. */
  function Positive(u: State): State {
    State(u.leaves, PositiveIndex(u.addressIndex, u.weights), PositiveSlots(u.indexToAddress, u.weights),
          map a | a in u.weights && u.weights[a] > 0 :: u.weights[a])
  }

  lemma PositiveIndexMapped(m: map<Address, nat>, weights: map<Address, nat>, i: nat, a: Address, w: nat)
    requires w > 0
    ensures PositiveIndex(m[a := i], weights[a := w]) == PositiveIndex(m, weights)[a := i]
  {
  }

  lemma PositiveSlotsMapped(m: map<nat, Address>, weights: map<Address, nat>, i: nat, a: Address, w: nat)
    requires w > 0 && forall j | j in m && j != i :: m[j] != a
    ensures PositiveSlots(m[i := a], weights[a := w]) == PositiveSlots(m, weights)[i := a]
  {
    var v, v' := PositiveSlots(m[i := a], weights[a := w]), PositiveSlots(m, weights)[i := a];
    forall j ensures j in v <==> j in v' { }
  }

  lemma PositiveMapped(u: State, leaves: seq<nat>, i: nat, a: Address, w: nat)
    requires w > 0 && forall j | j in u.indexToAddress && j != i :: u.indexToAddress[j] != a
    ensures Positive(Mapped(u, leaves, i, a, w)) == Mapped(Positive(u), leaves, i, a, w)
  {
    PositiveIndexMapped(u.addressIndex, u.weights, i, a, w);
    PositiveSlotsMapped(u.indexToAddress, u.weights, i, a, w);
    assert Positive(Mapped(u, leaves, i, a, w)).weights == Positive(u).weights[a := w];
  }

  lemma PositiveIndexVacated(m: map<Address, nat>, weights: map<Address, nat>, a: Address)
    ensures PositiveIndex(m - {a}, weights - {a}) == PositiveIndex(m, weights) - {a}
  {
  }

  lemma PositiveSlotsVacated(m: map<nat, Address>, weights: map<Address, nat>, i: nat, a: Address)
    requires forall j | j in m && j != i :: m[j] != a
    ensures PositiveSlots(m - {i}, weights - {a}) == PositiveSlots(m, weights) - {i}
  {
    var v, v' := PositiveSlots(m - {i}, weights - {a}), PositiveSlots(m, weights) - {i};
    forall j ensures j in v <==> j in v' { }
  }

  lemma PositiveVacated(u: State, i: nat, a: Address)
    requires i < |u.leaves| && forall j | j in u.indexToAddress && j != i :: u.indexToAddress[j] != a
    ensures Positive(Vacated(u, i, a)) == Vacated(Positive(u), i, a)
  {
    PositiveIndexVacated(u.addressIndex, u.weights, a);
    PositiveSlotsVacated(u.indexToAddress, u.weights, i, a);
    assert Positive(Vacated(u, i, a)).weights == Positive(u).weights - {a};
  }

  /** Members of weight zero make no difference to an event: only their leaves are searched. */
  lemma PositiveStep(u: State, e: Event)
    requires Inv(u) && Truthful(u.weights, e) && Representable(e) && WeightsInLeaves(Positive(u))
    ensures ApplyEvent(Positive(u), e) == (Positive(ApplyEvent(u, e).0), Done)
  {
    var a := e.address;
    TruthfulEventEffect(u, e);
    ImportStep(Positive(u), e);
    if OpOf(e) != TreeNoOp {
      assert a in u.weights <==> a in u.addressIndex.Keys;
      if a in u.addressIndex { assert SlotOk(u, u.addressIndex[a]); }
      SearchFindsMember(u, a, e.prevWeight);
      if e.newWeight == 0 {
        PositiveVacated(u, u.addressIndex[a], a);
      } else {
        var i := if a in u.addressIndex then u.addressIndex[a] else |u.leaves|;
        PositiveMapped(u, ApplyEvent(u, e).0.leaves, i, a, e.newWeight);
      }
    }
  }

  /** Nobody has a positive weight. */
  ghost predicate Weightless(weights: map<Address, nat>) {
    forall a | a in weights :: weights[a] == 0
  }

  lemma {:induction false} SameWeights(weights: map<Address, nat>, events: seq<Event>)
    requires Weightless(weights)
    ensures forall a :: WeightOf(PlainFold(weights, events), a) == WeightOf(PlainFold(map[], events), a)
    decreases |events|
  {
    if events == [] {
    } else {
      var init, e := events[..|events| - 1], events[|events| - 1];
      SameWeights(weights, init);
      forall a ensures WeightOf(PlainFold(weights, events), a) == WeightOf(PlainFold(map[], events), a) {
        assert WeightOf(PlainFold(weights, init), a) == WeightOf(PlainFold(map[], init), a);
      }
    }
  }

  lemma TruthfulForWeightless(weights: map<Address, nat>, events: seq<Event>)
    requires Weightless(weights) && TruthfulStream(map[], events)
    ensures TruthfulStream(weights, events)
  {
    forall k | 0 <= k < |events| ensures Truthful(PlainFold(weights, events[..k]), events[k]) {
      SameWeights(weights, events[..k]);
    }
  }

  lemma NobodyIsPositive(s: State)
    requires Weightless(s.weights)
    ensures Positive(s) == Forgotten(s.leaves)
  {
    assert PositiveIndex(s.addressIndex, s.weights) == map[];
    assert PositiveSlots(s.indexToAddress, s.weights) == map[];
  }

  lemma NextIsPositivePart(s: State, events: seq<Event>, k: nat, next: nat)
    requires Inv(s) && k < |events| && next == k + 1
    requires TruthfulImport(events) && TruthfulStream(s.weights, events)
    requires ApplyEvents(Forgotten(s.leaves), events[..k]).0 == Positive(ApplyEvents(s, events[..k]).0)
    ensures ApplyEvents(Forgotten(s.leaves), events[..next]).0 == Positive(ApplyEvents(s, events[..next]).0)
  {
    ImportedWeights(s.leaves, events, k);
    PrefixRefinesPlainFold(s, events, k);
    PositiveStep(ApplyEvents(s, events[..k]).0, events[k]);
  }

  /** Forgetting a census whose members all have weight zero is forgetting their weights only. */
  lemma {:induction false} ImportIsPositivePart(s: State, events: seq<Event>, k: nat)
    requires Inv(s) && Weightless(s.weights) && k <= |events|
    requires TruthfulImport(events) && TruthfulStream(s.weights, events)
    ensures ApplyEvents(Forgotten(s.leaves), events[..k]).0 == Positive(ApplyEvents(s, events[..k]).0)
    decreases k
  {
    if k == 0 {
      NobodyIsPositive(s);
    } else {
      ImportIsPositivePart(s, events, k - 1);
      NextIsPositivePart(s, events, k - 1, k);
    }
  }

  lemma PositiveKeepsInv(u: State)
    requires Inv(u) && forall a | a in u.weights && u.weights[a] == 0 :: a == 0
    ensures Inv(Positive(u))
  {
    var v := Positive(u);
    forall i | 0 <= i < |v.leaves| ensures SlotOk(v, i) { assert SlotOk(u, i); }
  }

  /** An address that ends with weight zero had it from the start, and was never named. */
  lemma {:induction false} ZeroWeightIsUnnamed(weights: map<Address, nat>, events: seq<Event>, a: Address)
    requires a in PlainFold(weights, events) && PlainFold(weights, events)[a] == 0
    requires TruthfulStream(weights, events)
    ensures a in weights && weights[a] == 0 && !Named(events, a)
    decreases |events|
  {
    if events == [] {
    } else {
      var init, e := events[..|events| - 1], events[|events| - 1];
      forall k | 0 <= k < |init| ensures Truthful(PlainFold(weights, init[..k]), init[k]) {
        assert init[..k] == events[..k] && init[k] == events[k];
      }
      ZeroWeightIsUnnamed(weights, init, a);
      forall k | 0 <= k < |events| && events[k].address == a ensures events[k].newWeight == 0 {
        if k < |init| { assert init[k] == events[k]; }
      }
    }
  }

  // ---------------------------------------------------------------- the exact condition

  /** Every leaf is zero, or the packed weight zero of an address to which the stream gives a weight. */
  ghost predicate AllTakenOver(leaves: seq<nat>, events: seq<Event>) {
    forall i | 0 <= i < |leaves| && leaves[i] != 0 ::
      exists k :: 0 <= k < |events| && events[k].newWeight > 0 && leaves[i] == Packed(events[k].address, 0)
  }

  lemma TakenOverIsConsistent(s: State, events: seq<Event>)
    requires Inv(s) && TruthfulImport(events) && AllTakenOver(s.leaves, events)
    ensures Inv(ApplyEvents(Forgotten(s.leaves), events).0)
  {
    var u := ApplyEvents(s, events).0;
    forall a | a in s.weights ensures s.weights[a] == 0 && (a != 0 ==> Named(events, a)) {
      var i := s.addressIndex[a];
      assert SlotOk(s, i);
      PackedInjective(a, s.weights[a], a, s.weights[a]);
      if s.leaves[i] != 0 {
        var k :| 0 <= k < |events| && events[k].newWeight > 0 && s.leaves[i] == Packed(events[k].address, 0);
        PackedInjective(a, s.weights[a], events[k].address, 0);
      }
    }
    TruthfulForWeightless(s.weights, events);
    EventsRefinePlainFold(s, events);
    ImportIsPositivePart(s, events, |events|);
    assert events[..|events|] == events;
    forall a | a in u.weights && u.weights[a] == 0 ensures a == 0 { ZeroWeightIsUnnamed(s.weights, events, a); }
    PositiveKeepsInv(u);
  }

  lemma LeftOverIsInconsistent(s: State, events: seq<Event>, i: nat)
    requires Inv(s) && TruthfulImport(events) && i < |s.leaves| && s.leaves[i] != 0
    requires forall k | 0 <= k < |events| && events[k].newWeight > 0 :: s.leaves[i] != Packed(events[k].address, 0)
    ensures !Inv(ApplyEvents(Forgotten(s.leaves), events).0)
  {
    assert SlotOk(s, i);
    var a := s.indexToAddress[i];
    var w := s.weights[a];
    LeafOwner(a, w);
    assert HasLeafOf(Forgotten(s.leaves), i, a);
    ZeroIsNeverNamed(events);
    if Named(events, a) && Packed(a, 0) in s.leaves {
      var j :| 0 <= j < |s.leaves| && s.leaves[j] == Packed(a, 0);
      MemberHasOneSlot(s, a, 0, j);
    }
    StrayForGood(s.leaves, events, a, |events|);
    assert events[..|events|] == events;
    StrayIsInconsistent(ApplyEvents(Forgotten(s.leaves), events).0, a);
  }

  /** What importing a truthful stream over the leaves of any consistent census gives: it never
      fails and records the plain fold of the events from nothing. The census is consistent exactly
      when each old leaf is zero or is taken over: it belongs to a member of weight zero, to whom
      the stream gives a weight. */
  lemma ImportedEventsArePlainFold(s: State, events: seq<Event>)
    requires Inv(s) && TruthfulImport(events)
    ensures var (t, r) := ApplyEvents(Forgotten(s.leaves), events);
            && r == Done && t.weights == PlainFold(map[], events)
            && (Inv(t) <==> AllTakenOver(s.leaves, events))
  {
    ImportedWeights(s.leaves, events, |events|);
    assert events[..|events|] == events;
    if AllTakenOver(s.leaves, events) {
      TakenOverIsConsistent(s, events);
    } else {
      var i :| 0 <= i < |s.leaves| && s.leaves[i] != 0 &&
               forall k | 0 <= k < |events| && events[k].newWeight > 0 :: s.leaves[i] != Packed(events[k].address, 0);
      LeftOverIsInconsistent(s, events, i);
    }
  }

  /** A member of positive weight keeps its leaf: an import of one event beside it gives a tree of
      two leaves, one of them of no member. */
  lemma OldLeavesSurviveImport(a: Address, b: Address, w: nat)
    requires 0 < w <= MAX_INT && a != 0 && b != 0 && a != b
    ensures var t := ApplyEvents(Forgotten([Packed(a, w)]), [Event(b, 0, w)]).0;
            t.leaves == [Packed(a, w), Packed(b, w)] && !Inv(t)
  {
    var e, s := Event(b, 0, w), Forgotten([Packed(a, w)]);
    PackIsArithmetic(b, 0);
    PackIsArithmetic(b, w);
    PackedInjective(a, w, b, 0);
    SmallWeightsRepresentable(e);
    FirstIndexMeaning(s.leaves, Packed(b, 0));
    assert [e][..0] == [] && ApplyEvents(s, [e]) == ApplyEvent(s, e);
    var t := ApplyEvent(s, e).0;
    assert 0 !in t.indexToAddress && !SlotOk(t, 0);
  }
}
