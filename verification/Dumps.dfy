/** Exporting a census as a list of participants, and importing such a list. */
module Dumps {
  import opened Wrappers
  import opened Packing
  import opened CensusState

  const BATCH_SIZE: nat := 1000

  datatype Participant = Participant(index: nat, address: Address, weight: nat)

  predicate IsEmptyParticipant(p: Participant) {
    p.address == 0 && p.weight == 0
  }

  /** The mapped address of slot i has a weight. */
  predicate HasWeight(s: State, i: nat) {
    i in s.indexToAddress ==> s.indexToAddress[i] in s.weights
  }

  /** The participant exported for slot i; an unmapped slot is exported as the empty one. */
  function Entry(s: State, i: nat): Participant
    requires HasWeight(s, i)
  {
    if i in s.indexToAddress then Participant(i, s.indexToAddress[i], s.weights[s.indexToAddress[i]])
    else Participant(i, 0, 0)
  }

  function Entries(s: State, start: nat, end: nat): (es: seq<Participant>)
    requires start <= end && forall i | start <= i < end :: HasWeight(s, i)
    ensures |es| == end - start && forall k | 0 <= k < |es| :: es[k] == Entry(s, start + k)
  {
    seq(end - start, k requires 0 <= k < end - start => Entry(s, start + k))
  }

  /** What is dumped for slot start + k, in any census whose mapped addresses have weights. */
  lemma DumpedSlot(s: State, start: nat, end: nat, k: nat)
    requires start + k < end && forall i | start <= i < end :: HasWeight(s, i)
    ensures var p, i := Entries(s, start, end)[k], start + k;
            && p.index == i
            && (i in s.indexToAddress ==>
                  p.address == s.indexToAddress[i] && p.address in s.weights && p.weight == s.weights[p.address])
            && (i !in s.indexToAddress ==> p.address == 0 && p.weight == 0)
  {
    assert HasWeight(s, start + k);
  }

  lemma InvHasWeights(s: State)
    requires Inv(s)
    ensures forall i | 0 <= i < |s.leaves| :: HasWeight(s, i)
  {
  }

  // ---------------------------------------------------------------- importing

  function Zeros(n: nat): (z: seq<nat>)
    ensures |z| == n && forall i | 0 <= i < n :: z[i] == 0
  {
    seq(n, _ => 0)
  }

  /** The leaves padded with zeros up to slot i. */
  function PaddedTo(leaves: seq<nat>, i: nat): seq<nat> {
    if |leaves| < i then leaves + Zeros(i - |leaves|) else leaves
  }

  /** Appends one participant, after filling the gap before its index. */
  function Place(s: State, p: Participant): (State, Outcome) {
    var padded := PaddedTo(s.leaves, p.index);
    if IsEmptyParticipant(p) then (s.(leaves := padded + [0]), Done)
    else
      match PackAddressWeight(p.address, p.weight)
      case None => (s.(leaves := padded), Failed(Panicked))
      case Some(leaf) => (Mapped(s, padded + [leaf], p.index, p.address, p.weight), Done)
  }

  function PlaceAll(ps: seq<Participant>): (State, Outcome) {
    if ps == [] then (EMPTY, Done)
    else
      var (s, r) := PlaceAll(ps[..|ps| - 1]);
      if r.Failed? then (s, r) else Place(s, ps[|ps| - 1])
  }

  lemma {:induction false} PlacingStaysFailed(ps: seq<Participant>, n: nat)
    requires n <= |ps| && PlaceAll(ps[..n]).1.Failed?
    ensures PlaceAll(ps) == PlaceAll(ps[..n])
    decreases |ps|
  {
    if n == |ps| {
      assert ps[..n] == ps;
    } else {
      var init := ps[..|ps| - 1];
      assert init[..n] == ps[..n];
      PlacingStaysFailed(init, n);
    }
  }

  lemma {:induction false} PlacedLength(ps: seq<Participant>, bound: nat)
    requires forall k | 0 <= k < |ps| :: ps[k].index <= bound
    ensures |PlaceAll(ps).0.leaves| <= bound + |ps|
    decreases |ps|
  {
    if ps == [] {
    } else {
      PlacedLength(ps[..|ps| - 1], bound);
    }
  }

  lemma {:induction false} MappedBelow(ps: seq<Participant>, bound: nat)
    requires forall k | 0 <= k < |ps| :: ps[k].index <= bound
    ensures forall a | a in PlaceAll(ps).0.addressIndex :: PlaceAll(ps).0.addressIndex[a] <= bound
    decreases |ps|
  {
    if ps == [] {
    } else {
      MappedBelow(ps[..|ps| - 1], bound);
    }
  }

  // ---------------------------------------------------------------- sorting by index

  ghost predicate SortedByIndex(ps: seq<Participant>) {
    forall i, j | 0 <= i < j < |ps| :: ps[i].index <= ps[j].index
  }

  ghost predicate StrictlySorted(ps: seq<Participant>) {
    forall i, j | 0 <= i < j < |ps| :: ps[i].index < ps[j].index
  }

  /** Sorted participants with one more, after all whose index is no larger. */
  function Inserted(sorted: seq<Participant>, p: Participant): seq<Participant> {
    if sorted == [] || sorted[|sorted| - 1].index <= p.index then sorted + [p]
    else Inserted(sorted[..|sorted| - 1], p) + [sorted[|sorted| - 1]]
  }

  /** One way to sort by index: participants with the same index keep their order. */
  function SortedOrder(ps: seq<Participant>): seq<Participant> {
    if ps == [] then [] else Inserted(SortedOrder(ps[..|ps| - 1]), ps[|ps| - 1])
  }

  lemma DropLast(ps: seq<Participant>)
    requires ps != []
    ensures multiset(ps[..|ps| - 1]) == multiset(ps) - multiset{ps[|ps| - 1]}
    ensures multiset(ps) == multiset(ps[..|ps| - 1]) + multiset{ps[|ps| - 1]}
  {
    assert ps == ps[..|ps| - 1] + [ps[|ps| - 1]];
  }

  lemma {:induction false} InsertedPermutes(sorted: seq<Participant>, p: Participant)
    ensures multiset(Inserted(sorted, p)) == multiset(sorted) + multiset{p}
    decreases |sorted|
  {
    if sorted == [] || sorted[|sorted| - 1].index <= p.index {
    } else {
      InsertedPermutes(sorted[..|sorted| - 1], p);
      DropLast(sorted);
    }
  }

  lemma {:induction false} InsertedSorts(sorted: seq<Participant>, p: Participant)
    requires SortedByIndex(sorted)
    ensures SortedByIndex(Inserted(sorted, p))
    decreases |sorted|
  {
    if sorted == [] || sorted[|sorted| - 1].index <= p.index {
    } else {
      var init, last := sorted[..|sorted| - 1], sorted[|sorted| - 1];
      InsertedSorts(init, p);
      InsertedPermutes(init, p);
      forall x | x in Inserted(init, p) ensures x.index <= last.index {
        assert x in multiset(Inserted(init, p));
      }
    }
  }

  lemma {:induction false} SortedOrderSorts(ps: seq<Participant>)
    ensures SortedByIndex(SortedOrder(ps)) && multiset(SortedOrder(ps)) == multiset(ps)
    decreases |ps|
  {
    if ps == [] {
    } else {
      SortedOrderSorts(ps[..|ps| - 1]);
      InsertedSorts(SortedOrder(ps[..|ps| - 1]), ps[|ps| - 1]);
      InsertedPermutes(SortedOrder(ps[..|ps| - 1]), ps[|ps| - 1]);
      DropLast(ps);
    }
  }

  /** The library's sort: some permutation sorted by index. */
  method SortByIndex(ps: seq<Participant>) returns (r: seq<Participant>)
    ensures SortedByIndex(r) && multiset(r) == multiset(ps)
  {
    r := [];
    for k := 0 to |ps|
      invariant r == SortedOrder(ps[..k])
    {
      assert ps[..k + 1][..k] == ps[..k];
      r := Inserted(r, ps[k]);
    }
    assert ps[..|ps|] == ps;
    SortedOrderSorts(ps);
  }

  ghost predicate DistinctIndices(ps: seq<Participant>) {
    forall i, j | 0 <= i < j < |ps| :: ps[i].index != ps[j].index
  }

  // ---------------------------------------------------------------- importing what was dumped

  /** A member the import will recognise: not the zero address with zero weight. */
  predicate Recognised(s: State, a: Address) {
    a in s.weights && (a != 0 || s.weights[a] != 0)
  }

  /** The part of a census below slot n: its leaves, and the members it can be imported with. */
  function Below(s: State, n: nat): State
    requires n <= |s.leaves|
  {
    State(s.leaves[..n],
          map a | a in s.addressIndex && Recognised(s, a) && s.addressIndex[a] < n :: s.addressIndex[a],
          map i | i in s.indexToAddress && i < n && Recognised(s, s.indexToAddress[i]) :: s.indexToAddress[i],
          map a | a in s.weights && Recognised(s, a) && a in s.addressIndex && s.addressIndex[a] < n :: s.weights[a])
  }

  /** Some of the entries of a census: all that are not empty, and the last one. */
  ghost predicate Selection(s: State, ps: seq<Participant>)
    requires forall i | 0 <= i < |s.leaves| :: HasWeight(s, i)
  {
    && DistinctIndices(ps)
    && (forall p | p in ps :: p.index < |s.leaves| && p == Entry(s, p.index))
    && (forall i | 0 <= i < |s.leaves| ::
          !IsEmptyParticipant(Entry(s, i)) || i == |s.leaves| - 1 ==> Entry(s, i) in ps)
  }

  lemma EmptyEntryIsZero(s: State, i: nat)
    requires Inv(s) && i < |s.leaves| && HasWeight(s, i) && IsEmptyParticipant(Entry(s, i))
    ensures s.leaves[i] == 0
    ensures i in s.indexToAddress ==> !Recognised(s, s.indexToAddress[i])
  {
    assert SlotOk(s, i);
  }

  /** Importing the next entry after a run of empty slots. */
  lemma PlaceNext(s: State, m: nat, i: nat)
    requires Inv(s) && m <= i < |s.leaves| && forall k | 0 <= k < |s.leaves| :: HasWeight(s, k)
    requires forall k | m <= k < i :: IsEmptyParticipant(Entry(s, k))
    ensures Place(Below(s, m), Entry(s, i)) == (Below(s, i + 1), Done)
  {
    var t, p := Below(s, m), Entry(s, i);
    assert SlotOk(s, i);
    PaddingIsLeaves(s, m, i);
    NoMembersBetween(s, m, i);
    if IsEmptyParticipant(p) {
      EmptyEntryIsZero(s, i);
      NoMembersBetween(s, i, i + 1);
      assert s.leaves[..i] + [0] == s.leaves[..i + 1];
    } else {
      PackIsArithmetic(p.address, p.weight);
      assert s.leaves[..i] + [s.leaves[i]] == s.leaves[..i + 1];
      MemberAt(s, i);
    }
  }

  lemma PaddingIsLeaves(s: State, m: nat, i: nat)
    requires Inv(s) && m <= i <= |s.leaves| && forall k | 0 <= k < |s.leaves| :: HasWeight(s, k)
    requires forall k | m <= k < i :: IsEmptyParticipant(Entry(s, k))
    ensures PaddedTo(s.leaves[..m], i) == s.leaves[..i]
  {
    var padded := PaddedTo(s.leaves[..m], i);
    forall k | 0 <= k < i ensures padded[k] == s.leaves[k] {
      if k >= m { EmptyEntryIsZero(s, k); }
    }
  }

  lemma NoMembersBetween(s: State, m: nat, i: nat)
    requires Inv(s) && m <= i <= |s.leaves| && forall k | 0 <= k < |s.leaves| :: HasWeight(s, k)
    requires forall k | m <= k < i :: IsEmptyParticipant(Entry(s, k))
    ensures Below(s, i) == Below(s, m).(leaves := s.leaves[..i])
  {
    var t, t' := Below(s, m), Below(s, i);
    forall k | m <= k < i && k in s.indexToAddress ensures !Recognised(s, s.indexToAddress[k]) {
      EmptyEntryIsZero(s, k);
    }
    assert t'.addressIndex == t.addressIndex;
    assert t'.indexToAddress == t.indexToAddress;
    assert t'.weights == t.weights;
  }

  lemma OnlyMemberAt(s: State, i: nat)
    requires Inv(s) && i in s.indexToAddress
    ensures forall b | b in s.addressIndex :: s.addressIndex[b] == i <==> b == s.indexToAddress[i]
  {
  }

  lemma MemberAt(s: State, i: nat)
    requires Inv(s) && i < |s.leaves| && i in s.indexToAddress && Recognised(s, s.indexToAddress[i])
    ensures var a := s.indexToAddress[i];
            Below(s, i + 1) == Mapped(Below(s, i), s.leaves[..i + 1], i, a, s.weights[a])
  {
    var a := s.indexToAddress[i];
    var t, t' := Below(s, i + 1), Mapped(Below(s, i), s.leaves[..i + 1], i, a, s.weights[a]);
    OnlyMemberAt(s, i);
    assert t.addressIndex == t'.addressIndex;
    assert t.indexToAddress == t'.indexToAddress;
    assert t.weights == t'.weights;
  }

  /** One past the last index of a list sorted by index. */
  function End(ps: seq<Participant>): nat {
    if ps == [] then 0 else ps[|ps| - 1].index + 1
  }

  /** Entries of s in strictly increasing order, with only empty slots between them. */
  ghost predicate Ascending(s: State, ps: seq<Participant>)
    requires forall i | 0 <= i < |s.leaves| :: HasWeight(s, i)
  {
    && StrictlySorted(ps)
    && (forall k | 0 <= k < |ps| :: ps[k].index < |s.leaves| && ps[k] == Entry(s, ps[k].index))
    && (forall k, i | 0 <= k < |ps| && End(ps[..k]) <= i < ps[k].index :: IsEmptyParticipant(Entry(s, i)))
  }

  lemma AscendingInit(s: State, ps: seq<Participant>)
    requires (forall i | 0 <= i < |s.leaves| :: HasWeight(s, i)) && ps != [] && Ascending(s, ps)
    ensures Ascending(s, ps[..|ps| - 1])
    ensures forall i | End(ps[..|ps| - 1]) <= i < ps[|ps| - 1].index :: IsEmptyParticipant(Entry(s, i))
    ensures End(ps[..|ps| - 1]) <= ps[|ps| - 1].index
  {
    var init := ps[..|ps| - 1];
    forall k, i | 0 <= k < |init| && End(init[..k]) <= i < init[k].index ensures IsEmptyParticipant(Entry(s, i)) {
      assert init[..k] == ps[..k];
    }
  }

  lemma {:induction false} AscendingImports(s: State, ps: seq<Participant>)
    requires Inv(s) && (forall k | 0 <= k < |s.leaves| :: HasWeight(s, k)) && Ascending(s, ps)
    ensures End(ps) <= |s.leaves| && PlaceAll(ps) == (Below(s, End(ps)), Done)
    decreases |ps|
  {
    if ps == [] {
      assert Below(s, 0) == EMPTY;
    } else {
      var k := |ps| - 1;
      var init := ps[..k];
      AscendingInit(s, ps);
      AscendingImports(s, init);
      PlaceNext(s, End(init), ps[k].index);
    }
  }

  lemma SameIndexTwice(qs: seq<Participant>, ps: seq<Participant>, i: nat, j: nat)
    requires multiset(qs) == multiset(ps) && i < j < |qs| && qs[i] == qs[j]
    ensures !DistinctIndices(ps)
  {
    var x := qs[j];
    assert qs == qs[..j] + [x] + qs[j + 1..];
    assert qs[..j][i] == x;
    assert multiset(ps)[x] >= 2;
    var k :| 0 <= k < |ps| && ps[k] == x;
    assert ps == ps[..k] + [x] + ps[k + 1..];
    if m :| 0 <= m < k && ps[..k][m] == x {
      assert ps[m].index == ps[k].index;
    } else {
      assert x !in ps[..k];
      var m :| 0 <= m < |ps| - k - 1 && ps[k + 1..][m] == x;
      assert ps[k].index == ps[k + 1 + m].index;
    }
  }

  lemma SortedSelectionIsStrict(s: State, ps: seq<Participant>, qs: seq<Participant>)
    requires (forall k | 0 <= k < |s.leaves| :: HasWeight(s, k))
    requires Selection(s, ps) && SortedByIndex(qs) && multiset(qs) == multiset(ps)
    ensures StrictlySorted(qs)
    ensures forall k | 0 <= k < |qs| :: qs[k].index < |s.leaves| && qs[k] == Entry(s, qs[k].index)
  {
    forall k | 0 <= k < |qs| ensures qs[k].index < |s.leaves| && qs[k] == Entry(s, qs[k].index) {
      assert qs[k] in multiset(qs);
    }
    forall i, j | 0 <= i < j < |qs| ensures qs[i].index < qs[j].index {
      if qs[i].index == qs[j].index { SameIndexTwice(qs, ps, i, j); }
    }
  }

  /** Sorting a selection of entries, in whatever order they came, puts them in ascending order
      up to the last slot. */
  lemma SortedSelectionAscends(s: State, ps: seq<Participant>, qs: seq<Participant>)
    requires (forall k | 0 <= k < |s.leaves| :: HasWeight(s, k)) && s.leaves != []
    requires Selection(s, ps) && SortedByIndex(qs) && multiset(qs) == multiset(ps)
    ensures Ascending(s, qs) && End(qs) == |s.leaves|
  {
    SortedSelectionIsStrict(s, ps, qs);
    forall k, i | 0 <= k < |qs| && End(qs[..k]) <= i < qs[k].index ensures IsEmptyParticipant(Entry(s, i)) {
      if Entry(s, i) in ps {
        var j := PositionIn(ps, qs, Entry(s, i));
        NotInGap(qs, j, k);
      }
    }
    var j := PositionIn(ps, qs, Entry(s, |s.leaves| - 1));
  }

  lemma PositionIn(ps: seq<Participant>, qs: seq<Participant>, p: Participant) returns (j: nat)
    requires multiset(qs) == multiset(ps) && p in ps
    ensures j < |qs| && qs[j] == p
  {
    assert p in multiset(qs);
    j :| j < |qs| && qs[j] == p;
  }

  lemma NotInGap(qs: seq<Participant>, j: nat, k: nat)
    requires StrictlySorted(qs) && j < |qs| && k < |qs|
    ensures !(End(qs[..k]) <= qs[j].index < qs[k].index)
  {
  }

  /** Dump and import undo each other: whatever order the entries come in, and whichever empty
      ones before the last slot are missing, the import restores the leaves. It restores the
      maps exactly when the zero address is not a member with weight zero. */
  lemma ImportUndoesDump(s: State, ps: seq<Participant>, qs: seq<Participant>)
    requires Inv(s) && s.leaves != [] && (forall k | 0 <= k < |s.leaves| :: HasWeight(s, k))
    requires Selection(s, ps) && SortedByIndex(qs) && multiset(qs) == multiset(ps)
    ensures PlaceAll(qs).1 == Done && PlaceAll(qs).0.leaves == s.leaves
    ensures PlaceAll(qs).0 == s <==> !(0 in s.weights && s.weights[0] == 0)
  {
    SortedSelectionAscends(s, ps, qs);
    AscendingImports(s, qs);
    WholeCensusBelow(s);
  }

  lemma WholeCensusBelow(s: State)
    requires Inv(s)
    ensures Below(s, |s.leaves|).leaves == s.leaves
    ensures Below(s, |s.leaves|) == s <==> !(0 in s.weights && s.weights[0] == 0)
  {
  }

  /** The full dump is such a selection. */
  lemma DumpIsSelection(s: State)
    requires Inv(s) && forall k | 0 <= k < |s.leaves| :: HasWeight(s, k)
    ensures Selection(s, Entries(s, 0, |s.leaves|))
  {
    var es := Entries(s, 0, |s.leaves|);
    forall i | 0 <= i < |s.leaves| ensures Entry(s, i) in es { assert es[i] == Entry(s, i); }
  }

  // ---------------------------------------------------------------- dumping in batches

  /** What a batched dump has emitted when it stops at a missing weight: its whole batches of 1000 before
      the one with the missing weight. */
  ghost predicate StoppedAfter(s: State, start: nat, end: nat, out: seq<Participant>) {
    exists n: nat :: StoppedAtBatch(s, start, end, out, n)
  }

  ghost predicate StoppedAtBatch(s: State, start: nat, end: nat, out: seq<Participant>, n: nat) {
    var next := start + 1000 * n;
    && next < end && (forall i | start <= i < next :: HasWeight(s, i)) && out == Entries(s, start, next)
    && exists i :: next <= i < Min(next + 1000, end) && !HasWeight(s, i)
  }

  /** A batched dump in progress, between other operations on the census. */
  datatype Dumping = Dumping(census: State, next: nat, end: nat, out: seq<Participant>, failed: bool)

  datatype Move =
    | AddMove(address: Address, weight: nat)
    | AddBulkMove(addresses: seq<Address>, weights: seq<nat>)
    | BatchMove

  function Min(a: nat, b: nat): nat {
    if a <= b then a else b
  }

  /** The census part of adding a member: nothing changes if it exists or its weight is too wide. */
  function Added(s: State, a: Address, w: nat): State {
    if a in s.addressIndex || PackAddressWeight(a, w).None? then s else Appended(s, a, w)
  }

  /** The census part of adding in bulk: nothing changes if a check fails. */
  function BulkAdded(s: State, addresses: seq<Address>, weights: seq<nat>): State {
    if |addresses| != |weights| then s
    else if exists k | 0 <= k < |addresses| :: addresses[k] in s.addressIndex || weights[k] >= TWO_88 then s
    else AppendedAll(s, addresses, weights)
  }

  /** One batch emits its entries, or stops the dump at a missing weight. */
  function Step(d: Dumping, m: Move): Dumping {
    match m
    case AddMove(a, w) => d.(census := Added(d.census, a, w))
    case AddBulkMove(addresses, weights) => d.(census := BulkAdded(d.census, addresses, weights))
    case BatchMove =>
      if d.failed || d.next >= d.end then d
      else
        var batchEnd := Min(d.next + BATCH_SIZE, d.end);
        if forall i | d.next <= i < batchEnd :: HasWeight(d.census, i)
        then d.(next := batchEnd, out := d.out + Entries(d.census, d.next, batchEnd))
        else d.(failed := true)
  }

  function Run(d: Dumping, moves: seq<Move>): Dumping {
    if moves == [] then d else Step(Run(d, moves[..|moves| - 1]), moves[|moves| - 1])
  }

  /** The number of batches in a run. */
  function Batches(moves: seq<Move>): nat {
    if moves == [] then 0
    else Batches(moves[..|moves| - 1]) + if moves[|moves| - 1].BatchMove? then 1 else 0
  }

  /** The slots and members of s are as they are in t, which may have more. */
  ghost predicate Extends(s: State, t: State) {
    && |s.leaves| <= |t.leaves|
    && (forall i | 0 <= i < |s.leaves| ::
          if i in s.indexToAddress then i in t.indexToAddress && t.indexToAddress[i] == s.indexToAddress[i]
          else i !in t.indexToAddress)
    && (forall a | a in s.weights :: a in t.weights && t.weights[a] == s.weights[a])
  }

  /** What a dump relies on, and what even a bulk addition with repeated addresses keeps: slots are
      mapped to addresses with a weight. */
  ghost predicate Recorded(s: State) {
    && s.weights.Keys == s.addressIndex.Keys
    && forall i | i in s.indexToAddress :: i < |s.leaves| && s.indexToAddress[i] in s.addressIndex
  }

  /** Every consistent census is such a census. */
  lemma InvIsRecorded(s: State)
    requires Inv(s)
    ensures Recorded(s)
  {
  }

  lemma {:induction false} BulkExtends(s: State, addresses: seq<Address>, weights: seq<nat>)
    requires Recorded(s) && |addresses| == |weights|
    requires forall k | 0 <= k < |addresses| :: addresses[k] !in s.addressIndex
    ensures Recorded(AppendedAll(s, addresses, weights)) && Extends(s, AppendedAll(s, addresses, weights))
    decreases |addresses|
  {
    if addresses == [] {
    } else {
      var k := |addresses| - 1;
      BulkExtends(s, addresses[..k], weights[..k]);
    }
  }

  lemma AddExtends(s: State, a: Address, w: nat)
    requires Recorded(s)
    ensures Recorded(Added(s, a, w)) && Extends(s, Added(s, a, w))
  {
    PackIsArithmetic(a, w);
    if a !in s.addressIndex {
      assert [a][..0] == [] && AppendedAll(s, [a], [w]) == Appended(s, a, w);
      BulkExtends(s, [a], [w]);
    }
  }

  lemma AddKeepsInv(s: State, a: Address, w: nat)
    requires Inv(s)
    ensures Inv(Added(s, a, w))
  {
    PackIsArithmetic(a, w);
    if Added(s, a, w) != s { AppendKeepsInv(s, a, w); }
  }

  lemma BulkKeepsInv(s: State, addresses: seq<Address>, weights: seq<nat>)
    requires Inv(s) && Distinct(addresses)
    ensures Inv(BulkAdded(s, addresses, weights))
  {
    if BulkAdded(s, addresses, weights) != s { BulkKeepsInvIffDistinct(s, addresses, weights); }
  }

  lemma ExtendsTransitive(s: State, t: State, u: State)
    requires Extends(s, t) && Extends(t, u)
    ensures Extends(s, u)
  {
  }

  lemma MoveExtends(d: Dumping, m: Move)
    requires Recorded(d.census)
    ensures Recorded(Step(d, m).census) && Extends(d.census, Step(d, m).census)
  {
    match m
    case AddMove(a, w) => AddExtends(d.census, a, w);
    case AddBulkMove(addresses, weights) =>
      if BulkAdded(d.census, addresses, weights) != d.census { BulkExtends(d.census, addresses, weights); }
    case BatchMove =>
  }

  lemma EntriesConcat(s: State, i: nat, j: nat, k: nat)
    requires i <= j <= k && forall n | i <= n < k :: HasWeight(s, n)
    ensures Entries(s, i, j) + Entries(s, j, k) == Entries(s, i, k)
  {
  }

  lemma RecordedHasWeights(s: State)
    requires Recorded(s)
    ensures forall i: nat :: HasWeight(s, i)
  {
  }

  /** A batch emits what the snapshot has, although the census has grown. */
  lemma BatchIsSnapshot(s: State, e: Dumping, start: nat)
    requires Recorded(s) && Recorded(e.census) && Extends(s, e.census)
    requires !e.failed && start <= e.next < e.end <= |s.leaves| && (forall i: nat :: HasWeight(s, i))
    requires e.out == Entries(s, start, e.next)
    ensures var batchEnd := Min(e.next + BATCH_SIZE, e.end);
            Step(e, BatchMove) == e.(next := batchEnd, out := Entries(s, start, batchEnd))
  {
    var batchEnd := Min(e.next + BATCH_SIZE, e.end);
    RecordedHasWeights(e.census);
    assert Entries(e.census, e.next, batchEnd) == Entries(s, e.next, batchEnd);
    EntriesConcat(s, start, e.next, batchEnd);
  }

  /** Over every interleaving of batches and additions, repeated addresses in bulk included, the
      dump emits a prefix of the snapshot taken when its size was read, as long as its batches make
      it, and never takes the missing-weight exit. */
  lemma {:induction false} BatchedDumpIsSnapshot(d: Dumping, moves: seq<Move>)
    requires Recorded(d.census) && !d.failed && d.out == [] && d.next <= d.end <= |d.census.leaves|
    ensures var e := Run(d, moves);
            && !e.failed && e.end == d.end && e.next == Min(d.next + 1000 * Batches(moves), d.end)
            && Recorded(e.census) && Extends(d.census, e.census)
            && (forall i: nat :: HasWeight(d.census, i))
            && e.out == Entries(d.census, d.next, e.next)
    decreases |moves|
  {
    RecordedHasWeights(d.census);
    if moves == [] {
    } else {
      var init, m := moves[..|moves| - 1], moves[|moves| - 1];
      BatchedDumpIsSnapshot(d, init);
      var e := Run(d, init);
      MoveExtends(e, m);
      ExtendsTransitive(d.census, e.census, Step(e, m).census);
      if m.BatchMove? && e.next < e.end { BatchIsSnapshot(d.census, e, d.next); }
    }
  }

  /** With enough batches the dump is complete, whatever was added in between. */
  lemma BatchedDumpCompletes(d: Dumping, moves: seq<Move>)
    requires Recorded(d.census) && !d.failed && d.out == [] && d.next <= d.end <= |d.census.leaves|
    requires Batches(moves) >= (d.end - d.next + 999) / 1000
    ensures var e := Run(d, moves);
            && !e.failed && e.next == e.end == d.end
            && (forall i: nat :: HasWeight(d.census, i))
            && e.out == Entries(d.census, d.next, d.end)
  {
    BatchedDumpIsSnapshot(d, moves);
  }

  /** A consistent census is still consistent after the dump, if bulk additions had no repeated
      address. */
  lemma {:induction false} DumpingKeepsInv(d: Dumping, moves: seq<Move>)
    requires Inv(d.census) && forall k | 0 <= k < |moves| :: moves[k].AddBulkMove? ==> Distinct(moves[k].addresses)
    ensures Inv(Run(d, moves).census)
    decreases |moves|
  {
    if moves == [] {
    } else {
      var init, m := moves[..|moves| - 1], moves[|moves| - 1];
      DumpingKeepsInv(d, init);
      match m
      case AddMove(a, w) => AddKeepsInv(Run(d, init).census, a, w);
      case AddBulkMove(addresses, weights) => BulkKeepsInv(Run(d, init).census, addresses, weights);
      case BatchMove =>
    }
  }

  /** In particular a dump of a consistent census is complete with enough batches, whatever distinct
      members were added in between, and leaves it consistent. */
  lemma ConsistentDumpCompletes(d: Dumping, moves: seq<Move>)
    requires Inv(d.census) && !d.failed && d.out == [] && d.next <= d.end <= |d.census.leaves|
    requires Batches(moves) >= (d.end - d.next + 999) / 1000
    requires forall k | 0 <= k < |moves| :: moves[k].AddBulkMove? ==> Distinct(moves[k].addresses)
    ensures var e := Run(d, moves);
            && !e.failed && Inv(e.census) && Extends(d.census, e.census)
            && (forall i: nat :: HasWeight(d.census, i))
            && e.out == Entries(d.census, d.next, d.end)
  {
    InvIsRecorded(d.census);
    BatchedDumpIsSnapshot(d, moves);
    BatchedDumpCompletes(d, moves);
    DumpingKeepsInv(d, moves);
  }
}
