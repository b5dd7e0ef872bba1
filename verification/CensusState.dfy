/** The memory of a census as a value: the leaves of its tree and its three maps. */
module CensusState {
  import opened Packing

  datatype State = State(leaves: seq<nat>, addressIndex: map<Address, nat>,
                         indexToAddress: map<nat, Address>, weights: map<Address, nat>)

  const EMPTY: State := State([], map[], map[], map[])

  /** The maps between addresses and slots undo each other. */
  ghost predicate Inverse(s: State) {
    && (forall a | a in s.addressIndex ::
          s.addressIndex[a] in s.indexToAddress && s.indexToAddress[s.addressIndex[a]] == a)
    && (forall i | i in s.indexToAddress ::
          s.indexToAddress[i] in s.addressIndex && s.addressIndex[s.indexToAddress[i]] == i)
  }

  /** What slot i holds: the packed member mapped to it, or zero. */
  ghost predicate SlotOk(s: State, i: nat)
    requires i < |s.leaves|
  {
    if i in s.indexToAddress then
      var a := s.indexToAddress[i];
      a in s.weights && s.weights[a] < TWO_88 && s.leaves[i] == Packed(a, s.weights[a])
    else s.leaves[i] == 0
  }

  ghost predicate Inv(s: State) {
    && Inverse(s)
    && s.weights.Keys == s.addressIndex.Keys
    && (forall i | i in s.indexToAddress :: i < |s.leaves|)
    && (forall i | 0 <= i < |s.leaves| :: SlotOk(s, i))
  }

  /** Maps an address and its weight to a slot. */
  function Mapped(s: State, leaves: seq<nat>, i: nat, a: Address, w: nat): State {
    State(leaves, s.addressIndex[a := i], s.indexToAddress[i := a], s.weights[a := w])
  }

  /** A new member in a new last slot. */
  function Appended(s: State, a: Address, w: nat): State {
    Mapped(s, s.leaves + [Packed(a, w)], |s.leaves|, a, w)
  }

  /** A new weight for the address of slot i. */
  function Reweighted(s: State, i: nat, a: Address, w: nat): State
    requires i < |s.leaves|
  {
    Mapped(s, s.leaves[i := Packed(a, w)], i, a, w)
  }

  /** Slot i emptied and its address forgotten. */
  function Vacated(s: State, i: nat, a: Address): State
    requires i < |s.leaves|
  {
    State(s.leaves[i := 0], s.addressIndex - {a}, s.indexToAddress - {i}, s.weights - {a})
  }

  /** Two censuses differ at most in slot i, and in what they say of address a. */
  ghost predicate SameElsewhere(s: State, t: State, i: nat, a: Address) {
    && (forall j | 0 <= j < |s.leaves| && j != i :: j < |t.leaves| && t.leaves[j] == s.leaves[j])
    && (forall j | j != i :: j in s.indexToAddress <==> j in t.indexToAddress)
    && (forall j | j in s.indexToAddress && j != i :: t.indexToAddress[j] == s.indexToAddress[j])
    && (forall b | b != a :: (b in s.addressIndex <==> b in t.addressIndex) && (b in s.weights <==> b in t.weights))
    && (forall b | b in s.addressIndex && b != a :: t.addressIndex[b] == s.addressIndex[b])
    && (forall b | b in s.weights && b != a :: t.weights[b] == s.weights[b])
  }

  /** The three changes to a census touch one slot and one address, in any census, consistent or not. */
  lemma OneSlotChanges(s: State, i: nat, a: Address, w: nat)
    requires i < |s.leaves|
    ensures var t := Vacated(s, i, a);
            && SameElsewhere(s, t, i, a) && |t.leaves| == |s.leaves| && t.leaves[i] == 0
            && i !in t.indexToAddress && a !in t.addressIndex && a !in t.weights
    ensures var t := Reweighted(s, i, a, w);
            && SameElsewhere(s, t, i, a) && |t.leaves| == |s.leaves| && t.leaves[i] == Packed(a, w)
            && t.indexToAddress[i] == a && t.addressIndex[a] == i && t.weights[a] == w
    ensures var t, n := Appended(s, a, w), |s.leaves|;
            && SameElsewhere(s, t, n, a) && |t.leaves| == n + 1 && t.leaves[n] == Packed(a, w)
            && t.indexToAddress[n] == a && t.addressIndex[a] == n && t.weights[a] == w
  {
  }

  function AppendedAll(s: State, addresses: seq<Address>, weights: seq<nat>): (r: State)
    requires |addresses| == |weights|
    ensures |r.leaves| == |s.leaves| + |addresses|
  {
    if addresses == [] then s
    else
      var k := |addresses| - 1;
      Appended(AppendedAll(s, addresses[..k], weights[..k]), addresses[k], weights[k])
  }

  lemma AppendKeepsInv(s: State, a: Address, w: nat)
    requires Inv(s) && a !in s.addressIndex && w < TWO_88
    ensures Inv(Appended(s, a, w))
  {
    var t := Appended(s, a, w);
    forall i | 0 <= i < |t.leaves| ensures SlotOk(t, i) {
      if i < |s.leaves| { assert SlotOk(s, i); }
    }
  }

  lemma ReweightKeepsInv(s: State, a: Address, w: nat)
    requires Inv(s) && a in s.addressIndex && w < TWO_88
    ensures Inv(Reweighted(s, s.addressIndex[a], a, w))
    ensures Reweighted(s, s.addressIndex[a], a, w).addressIndex == s.addressIndex
    ensures Reweighted(s, s.addressIndex[a], a, w).indexToAddress == s.indexToAddress
  {
    var t := Reweighted(s, s.addressIndex[a], a, w);
    forall i | 0 <= i < |t.leaves| ensures SlotOk(t, i) { assert SlotOk(s, i); }
  }

  lemma VacateKeepsInv(s: State, a: Address)
    requires Inv(s) && a in s.addressIndex
    ensures Inv(Vacated(s, s.addressIndex[a], a))
  {
    var t := Vacated(s, s.addressIndex[a], a);
    forall i | 0 <= i < |t.leaves| ensures SlotOk(t, i) { assert SlotOk(s, i); }
  }

  /** The leaves of a census whose maps were cleared. */
  function Forgotten(leaves: seq<nat>): State {
    State(leaves, map[], map[], map[])
  }

  /** Clearing the maps alone leaves a consistent census exactly when every leaf is zero. */
  lemma ForgottenIsConsistentIff(leaves: seq<nat>)
    ensures Inv(Forgotten(leaves)) <==> forall i | 0 <= i < |leaves| :: leaves[i] == 0
  {
    var s := Forgotten(leaves);
    if Inv(s) {
      forall i | 0 <= i < |leaves| ensures leaves[i] == 0 { assert SlotOk(s, i); }
    }
  }

  ghost predicate Distinct<T>(xs: seq<T>) {
    forall i, j | 0 <= i < j < |xs| :: xs[i] != xs[j]
  }

  lemma {:induction false} AppendedAllMember(s: State, addresses: seq<Address>, weights: seq<nat>, a: Address)
    requires |addresses| == |weights|
    ensures a in AppendedAll(s, addresses, weights).addressIndex <==> a in s.addressIndex || a in addresses
    decreases |addresses|
  {
    if addresses == [] {
    } else {
      var k := |addresses| - 1;
      AppendedAllMember(s, addresses[..k], weights[..k], a);
      assert a in addresses <==> a in addresses[..k] || a == addresses[k];
    }
  }

  /** The slot of the k-th new member. */
  lemma {:induction false} AppendedAllSlot(s: State, addresses: seq<Address>, weights: seq<nat>, k: nat)
    requires |addresses| == |weights| && k < |addresses|
    ensures var t := AppendedAll(s, addresses, weights);
            |s.leaves| + k in t.indexToAddress && t.indexToAddress[|s.leaves| + k] == addresses[k]
    decreases |addresses|
  {
    var n := |addresses| - 1;
    if k == n {
      assert |AppendedAll(s, addresses[..n], weights[..n]).leaves| == |s.leaves| + n;
    } else {
      AppendedAllSlot(s, addresses[..n], weights[..n], k);
    }
  }

  lemma {:induction false} DistinctBulkKeepsInv(s: State, addresses: seq<Address>, weights: seq<nat>)
    requires Inv(s) && |addresses| == |weights| && Distinct(addresses)
    requires forall k | 0 <= k < |addresses| :: addresses[k] !in s.addressIndex && weights[k] < TWO_88
    ensures Inv(AppendedAll(s, addresses, weights))
    decreases |addresses|
  {
    if addresses != [] {
      var k := |addresses| - 1;
      var t := AppendedAll(s, addresses[..k], weights[..k]);
      DistinctBulkKeepsInv(s, addresses[..k], weights[..k]);
      assert addresses[k] !in t.addressIndex by { AppendedAllMember(s, addresses[..k], weights[..k], addresses[k]); }
      AppendKeepsInv(t, addresses[k], weights[k]);
    }
  }

  lemma TwoSlotsOfOne(s: State, i: nat, j: nat)
    requires i in s.indexToAddress && j in s.indexToAddress && i != j
    requires s.indexToAddress[i] == s.indexToAddress[j]
    ensures !Inverse(s)
  {
  }

  lemma RepeatedBulkBreaksInv(s: State, addresses: seq<Address>, weights: seq<nat>, i: nat, j: nat)
    requires |addresses| == |weights| && i < j < |addresses| && addresses[i] == addresses[j]
    ensures !Inv(AppendedAll(s, addresses, weights))
  {
    AppendedAllSlot(s, addresses, weights, i);
    AppendedAllSlot(s, addresses, weights, j);
    TwoSlotsOfOne(AppendedAll(s, addresses, weights), |s.leaves| + i, |s.leaves| + j);
  }

  /** Adding in bulk keeps the invariant exactly when the new addresses are pairwise distinct:
      only clashes with existing members are checked for. */
  lemma BulkKeepsInvIffDistinct(s: State, addresses: seq<Address>, weights: seq<nat>)
    requires Inv(s) && |addresses| == |weights|
    requires forall k | 0 <= k < |addresses| :: addresses[k] !in s.addressIndex && weights[k] < TWO_88
    ensures Inv(AppendedAll(s, addresses, weights)) <==> Distinct(addresses)
  {
    if Distinct(addresses) {
      DistinctBulkKeepsInv(s, addresses, weights);
    } else {
      var i, j :| 0 <= i < j < |addresses| && addresses[i] == addresses[j];
      RepeatedBulkBreaksInv(s, addresses, weights, i, j);
    }
  }

  /** The input of a caller that shows the check to be too weak: one address twice. */
  lemma RepeatedAddressBreaksInv(a: Address, w: nat)
    requires w < TWO_88
    ensures !Inv(AppendedAll(EMPTY, [a, a], [w, w]))
  {
    BulkKeepsInvIffDistinct(EMPTY, [a, a], [w, w]);
    assert [a, a][0] == [a, a][1];
  }

  /** A nonzero packed member is the value of that member's slot, and of no other slot. */
  lemma MemberHasOneSlot(s: State, a: Address, w: nat, i: nat)
    requires Inv(s) && w < TWO_88 && (a, w) != (0, 0) && i < |s.leaves|
    ensures s.leaves[i] == Packed(a, w) <==>
            a in s.addressIndex && s.addressIndex[a] == i && s.weights[a] == w
  {
    assert SlotOk(s, i);
    PackedInjective(a, w, a, w);
    if i in s.indexToAddress {
      var b := s.indexToAddress[i];
      PackedInjective(a, w, b, s.weights[b]);
    }
    if a in s.addressIndex { assert SlotOk(s, s.addressIndex[a]); }
  }
}
