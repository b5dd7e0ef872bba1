/** Importing any list of participants: when it succeeds, when it gives a consistent census, and why
    the order of sorting does not matter for distinct indices. */
module Imports {
  import opened Wrappers
  import opened Packing
  import opened CensusState
  import opened Dumps

  // ---------------------------------------------------------------- one sorted order

  lemma SameLast(ps: seq<Participant>, qs: seq<Participant>)
    requires StrictlySorted(ps) && StrictlySorted(qs) && multiset(ps) == multiset(qs) && ps != [] && qs != []
    ensures ps[|ps| - 1] == qs[|qs| - 1]
  {
    var p, q := ps[|ps| - 1], qs[|qs| - 1];
    assert p in multiset(qs) && q in multiset(ps);
    var i :| 0 <= i < |qs| && qs[i] == p;
    var j :| 0 <= j < |ps| && ps[j] == q;
  }

  lemma {:induction false} StrictOrderIsUnique(ps: seq<Participant>, qs: seq<Participant>)
    requires StrictlySorted(ps) && StrictlySorted(qs) && multiset(ps) == multiset(qs)
    ensures ps == qs
    decreases |ps|
  {
    assert |ps| == |multiset(ps)| == |multiset(qs)| == |qs|;
    if ps == [] {
    } else {
      var k := |ps| - 1;
      SameLast(ps, qs);
      DropLast(ps);
      DropLast(qs);
      StrictOrderIsUnique(ps[..k], qs[..k]);
      assert ps == ps[..k] + [ps[k]] && qs == qs[..k] + [qs[k]];
    }
  }

  lemma SortedDistinctIsStrict(ps: seq<Participant>, order: seq<Participant>)
    requires DistinctIndices(ps) && SortedByIndex(order) && multiset(order) == multiset(ps)
    ensures StrictlySorted(order)
  {
    forall i, j | 0 <= i < j < |order| ensures order[i].index < order[j].index {
      if order[i].index == order[j].index { SameIndexInBoth(order, ps, i, j); }
    }
  }

  lemma SameIndexInBoth(order: seq<Participant>, ps: seq<Participant>, i: nat, j: nat)
    requires multiset(order) == multiset(ps) && i < j < |order| && order[i].index == order[j].index
    ensures !DistinctIndices(ps)
  {
    if order[i] == order[j] {
      SameIndexTwice(order, ps, i, j);
    } else {
      assert order[i] in multiset(ps) && order[j] in multiset(ps);
      var m :| 0 <= m < |ps| && ps[m] == order[i];
      var n :| 0 <= n < |ps| && ps[n] == order[j];
      assert ps[m].index == ps[n].index && m != n;
    }
  }

  lemma SortIsUnique(ps: seq<Participant>, order: seq<Participant>, order': seq<Participant>)
    requires DistinctIndices(ps)
    requires SortedByIndex(order) && multiset(order) == multiset(ps)
    requires SortedByIndex(order') && multiset(order') == multiset(ps)
    ensures order == order'
  {
    SortedDistinctIsStrict(ps, order);
    SortedDistinctIsStrict(ps, order');
    StrictOrderIsUnique(order, order');
  }

  // ---------------------------------------------------------------- success

  /** Placing succeeds exactly when every weight to be packed fits. */
  lemma {:induction false} PlacingSucceedsIff(ps: seq<Participant>)
    ensures PlaceAll(ps).1 == Done <==>
            forall k | 0 <= k < |ps| :: !IsEmptyParticipant(ps[k]) ==> ps[k].weight < TWO_88
    decreases |ps|
  {
    if ps == [] {
    } else {
      var init, p := ps[..|ps| - 1], ps[|ps| - 1];
      PlacingSucceedsIff(init);
      PackIsArithmetic(p.address, p.weight);
      assert forall k | 0 <= k < |init| :: init[k] == ps[k];
    }
  }

  /** Otherwise it stops at the first entry whose weight does not fit, after the gap before it was filled
      with zeros; nothing of that entry or of a later one is placed. */
  lemma PlacingStopsAt(ps: seq<Participant>, k: nat)
    requires k < |ps| && !IsEmptyParticipant(ps[k]) && ps[k].weight >= TWO_88 && PlaceAll(ps[..k]).1 == Done
    ensures var (s, r) := PlaceAll(ps);
            var before := PlaceAll(ps[..k]).0;
            && r == Failed(Panicked) && s == before.(leaves := s.leaves)
            && before.leaves <= s.leaves
            && (|s.leaves| == if |before.leaves| < ps[k].index then ps[k].index else |before.leaves|)
            && forall i | |before.leaves| <= i < |s.leaves| :: s.leaves[i] == 0
  {
    PackIsArithmetic(ps[k].address, ps[k].weight);
    assert ps[..k + 1][..k] == ps[..k];
    PlacingStaysFailed(ps, k + 1);
  }

  /** The slot a participant gets after n slots: that of its index, or the next one if that is past it. */
  function SlotFor(n: nat, p: Participant): nat {
    if n < p.index then p.index else n
  }

  function SlotsAfter(ps: seq<Participant>): nat {
    if ps == [] then 0 else SlotFor(SlotsAfter(ps[..|ps| - 1]), ps[|ps| - 1]) + 1
  }

  lemma {:induction false} PlacedSlots(ps: seq<Participant>)
    requires PlaceAll(ps).1 == Done
    ensures |PlaceAll(ps).0.leaves| == SlotsAfter(ps)
    decreases |ps|
  {
    if ps == [] {
    } else {
      PlacedSlots(ps[..|ps| - 1]);
    }
  }

  lemma {:induction false} SlotsGrow(ps: seq<Participant>, k: nat)
    requires k < |ps|
    ensures SlotFor(SlotsAfter(ps[..k]), ps[k]) < SlotsAfter(ps)
    decreases |ps|
  {
    if k == |ps| - 1 {
    } else {
      var init := ps[..|ps| - 1];
      SlotsGrow(init, k);
      assert init[..k] == ps[..k];
    }
  }

  // ---------------------------------------------------------------- consistency

  /** Every participant that is not empty has a fitting weight, its own index as its slot, and an
      address of its own. */
  ghost predicate Fitting(ps: seq<Participant>) {
    && (forall k | 0 <= k < |ps| && !IsEmptyParticipant(ps[k]) ::
          ps[k].weight < TWO_88 && SlotsAfter(ps[..k]) <= ps[k].index)
    && (forall i, j | 0 <= i < j < |ps| && !IsEmptyParticipant(ps[i]) && !IsEmptyParticipant(ps[j]) ::
          ps[i].address != ps[j].address)
  }

  lemma FittingInit(ps: seq<Participant>)
    requires ps != [] && Fitting(ps)
    ensures Fitting(ps[..|ps| - 1])
  {
    var init := ps[..|ps| - 1];
    forall k | 0 <= k < |init| && !IsEmptyParticipant(init[k])
      ensures init[k].weight < TWO_88 && SlotsAfter(init[..k]) <= init[k].index
    {
      assert init[..k] == ps[..k] && init[k] == ps[k];
    }
  }

  lemma {:induction false} StrictSlots(ps: seq<Participant>)
    requires StrictlySorted(ps)
    ensures SlotsAfter(ps) == End(ps)
    decreases |ps|
  {
    if ps == [] {
    } else {
      StrictSlots(ps[..|ps| - 1]);
    }
  }

  /** In particular participants with distinct indices and addresses are fitting, once sorted. */
  lemma DistinctFits(ps: seq<Participant>)
    requires StrictlySorted(ps) && forall k | 0 <= k < |ps| :: ps[k].weight < TWO_88
    requires forall i, j | 0 <= i < j < |ps| && !IsEmptyParticipant(ps[i]) && !IsEmptyParticipant(ps[j]) ::
               ps[i].address != ps[j].address
    ensures Fitting(ps)
  {
    forall k | 0 <= k < |ps| ensures SlotsAfter(ps[..k]) <= ps[k].index { StrictSlots(ps[..k]); }
  }

  lemma PaddedInv(s: State, n: nat)
    requires Inv(s)
    ensures Inv(s.(leaves := PaddedTo(s.leaves, n)))
  {
    var t := s.(leaves := PaddedTo(s.leaves, n));
    forall i | 0 <= i < |t.leaves| ensures SlotOk(t, i) {
      if i < |s.leaves| { assert SlotOk(s, i); }
    }
  }

  lemma PlaceEmptyKeepsInv(s: State, p: Participant)
    requires Inv(s) && IsEmptyParticipant(p)
    ensures Place(s, p) == (s.(leaves := PaddedTo(s.leaves, SlotFor(|s.leaves|, p) + 1)), Done)
    ensures Inv(Place(s, p).0)
  {
    assert PaddedTo(s.leaves, p.index) + [0] == PaddedTo(s.leaves, SlotFor(|s.leaves|, p) + 1);
    PaddedInv(s, SlotFor(|s.leaves|, p) + 1);
  }

  lemma PlaceMemberKeepsInv(s: State, p: Participant)
    requires Inv(s) && !IsEmptyParticipant(p) && |s.leaves| <= p.index && p.weight < TWO_88
    requires p.address !in s.addressIndex
    ensures var t := Appended(s.(leaves := PaddedTo(s.leaves, p.index)), p.address, p.weight);
            Place(s, p) == (t, Done) && Inv(t)
  {
    var padded := s.(leaves := PaddedTo(s.leaves, p.index));
    PaddedInv(s, p.index);
    PackIsArithmetic(p.address, p.weight);
    AppendKeepsInv(padded, p.address, p.weight);
  }

  ghost predicate PlacedIn(ps: seq<Participant>, a: Address) {
    exists k :: 0 <= k < |ps| && ps[k].address == a && !IsEmptyParticipant(ps[k])
  }

  lemma {:induction false} OnlyPlacedAddresses(ps: seq<Participant>, a: Address)
    requires PlaceAll(ps).1 == Done && a in PlaceAll(ps).0.addressIndex
    ensures PlacedIn(ps, a)
    decreases |ps|
  {
    var init, p := ps[..|ps| - 1], ps[|ps| - 1];
    if a in PlaceAll(init).0.addressIndex {
      OnlyPlacedAddresses(init, a);
      var j :| 0 <= j < |init| && init[j].address == a && !IsEmptyParticipant(init[j]);
      assert ps[j] == init[j];
    } else {
      assert ps[|ps| - 1].address == a && !IsEmptyParticipant(p);
    }
  }

  lemma NotPlacedBefore(ps: seq<Participant>)
    requires ps != [] && Fitting(ps) && !IsEmptyParticipant(ps[|ps| - 1]) && PlaceAll(ps[..|ps| - 1]).1 == Done
    ensures ps[|ps| - 1].address !in PlaceAll(ps[..|ps| - 1]).0.addressIndex
  {
    var init, a := ps[..|ps| - 1], ps[|ps| - 1].address;
    assert !PlacedIn(init, a) by {
      forall j | 0 <= j < |init| ensures init[j] == ps[j] { }
    }
    if a in PlaceAll(init).0.addressIndex { OnlyPlacedAddresses(init, a); }
  }

  /** Importing fitting participants gives a consistent census. */
  lemma {:induction false} ImportKeepsInv(ps: seq<Participant>)
    requires Fitting(ps)
    ensures PlaceAll(ps).1 == Done && Inv(PlaceAll(ps).0)
    decreases |ps|
  {
    if ps == [] {
    } else {
      var init, p := ps[..|ps| - 1], ps[|ps| - 1];
      FittingInit(ps);
      ImportKeepsInv(init);
      PlacedSlots(init);
      if IsEmptyParticipant(p) {
        PlaceEmptyKeepsInv(PlaceAll(init).0, p);
      } else {
        NotPlacedBefore(ps);
        PlaceMemberKeepsInv(PlaceAll(init).0, p);
      }
    }
  }

  lemma PlaceAppends(s: State, p: Participant)
    requires Place(s, p).1 == Done
    ensures s.leaves <= Place(s, p).0.leaves
    ensures !IsEmptyParticipant(p) ==>
              var leaves, i := Place(s, p).0.leaves, SlotFor(|s.leaves|, p);
              p.weight < TWO_88 && i < |leaves| && leaves[i] == Packed(p.address, p.weight)
  {
    PackIsArithmetic(p.address, p.weight);
  }

  /** Where the leaf of a participant is, whatever comes after it. */
  lemma {:induction false} PlacedLeaf(ps: seq<Participant>, k: nat)
    requires PlaceAll(ps).1 == Done && k < |ps| && !IsEmptyParticipant(ps[k])
    ensures var i := SlotFor(SlotsAfter(ps[..k]), ps[k]);
            && ps[k].weight < TWO_88 && i < |PlaceAll(ps).0.leaves|
            && PlaceAll(ps).0.leaves[i] == Packed(ps[k].address, ps[k].weight)
    decreases |ps|
  {
    var init := ps[..|ps| - 1];
    PlaceAppends(PlaceAll(init).0, ps[|ps| - 1]);
    if k == |ps| - 1 {
      PlacedSlots(init);
    } else {
      PlacedLeaf(init, k);
      assert init[..k] == ps[..k];
    }
  }

  /** Which slot the address of a participant is mapped to, if it does not occur again. */
  lemma {:induction false} PlacedIndex(ps: seq<Participant>, k: nat)
    requires PlaceAll(ps).1 == Done && k < |ps| && !IsEmptyParticipant(ps[k])
    requires forall j | k < j < |ps| && !IsEmptyParticipant(ps[j]) :: ps[j].address != ps[k].address
    ensures var s := PlaceAll(ps).0; ps[k].address in s.addressIndex && s.addressIndex[ps[k].address] == ps[k].index
    decreases |ps|
  {
    if k == |ps| - 1 {
    } else {
      PlacedIndex(ps[..|ps| - 1], k);
    }
  }

  /** In a consistent census the leaf of a participant is the only one of its address. */
  lemma PlacedMember(ps: seq<Participant>, k: nat)
    requires PlaceAll(ps).1 == Done && Inv(PlaceAll(ps).0) && k < |ps| && !IsEmptyParticipant(ps[k])
    ensures var s := PlaceAll(ps).0;
            && ps[k].weight < TWO_88 && ps[k].address in s.addressIndex
            && s.addressIndex[ps[k].address] == SlotFor(SlotsAfter(ps[..k]), ps[k])
  {
    PlacedLeaf(ps, k);
    MemberHasOneSlot(PlaceAll(ps).0, ps[k].address, ps[k].weight, SlotFor(SlotsAfter(ps[..k]), ps[k]));
  }

  /** What an accepted import checks is the root only. The census it gives is consistent exactly when
      the participants are fitting: distinct addresses, each at the slot of its own index. */
  lemma ImportConsistentIff(ps: seq<Participant>)
    requires PlaceAll(ps).1 == Done
    ensures Inv(PlaceAll(ps).0) <==> Fitting(ps)
  {
    if Fitting(ps) {
      ImportKeepsInv(ps);
    } else if Inv(PlaceAll(ps).0) {
      forall i, j | 0 <= i < j < |ps| && !IsEmptyParticipant(ps[i]) && !IsEmptyParticipant(ps[j])
        ensures ps[i].address != ps[j].address
      {
        PlacedMember(ps, i);
        PlacedMember(ps, j);
        SlotsGrow(ps[..j], i);
        assert ps[..j][..i] == ps[..i];
      }
      forall k | 0 <= k < |ps| && !IsEmptyParticipant(ps[k])
        ensures ps[k].weight < TWO_88 && SlotsAfter(ps[..k]) <= ps[k].index
      {
        PlacedMember(ps, k);
        PlacedIndex(ps, k);
      }
    }
  }
}
