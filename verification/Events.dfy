/** Weight-change events: how the census applies them, against a plain fold over the weights. */
module Events {
  import opened Bits
  import opened Wrappers
  import opened Numerals
  import opened Packing
  import opened IncrementalTree
  import opened CensusState

  datatype Event = Event(address: Address, prevWeight: nat, newWeight: nat)

  datatype TreeOp = TreeInsert | TreeDelete | TreeUpdate | TreeNoOp

  /** big.Int.Int64: the low 64 bits as a signed integer. */
  function Int64(x: nat): int {
    Wrap64(x)
  }

  function OpOf(e: Event): TreeOp {
    var newWeight, prevWeight := Int64(e.newWeight), Int64(e.prevWeight);
    if prevWeight == 0 && newWeight > 0 then TreeInsert
    else if prevWeight > 0 && newWeight == 0 then TreeDelete
    else if prevWeight > 0 then TreeUpdate
    else TreeNoOp
  }

  /** The operation an event is documented to stand for. */
  function DocumentedOp(e: Event): TreeOp {
    if e.prevWeight == 0 && e.newWeight > 0 then TreeInsert
    else if e.prevWeight > 0 && e.newWeight == 0 then TreeDelete
    else if e.prevWeight > 0 then TreeUpdate
    else TreeNoOp
  }

  /** Applies one event: the state afterwards, and whether it succeeded. */
  function ApplyEvent(s: State, e: Event): (State, Outcome) {
    var oldLeaf, newLeaf := PackAddressWeight(e.address, e.prevWeight), PackAddressWeight(e.address, e.newWeight);
    if oldLeaf.None? || newLeaf.None? then (s, Failed(Panicked))
    else
      var index := FirstIndex(s.leaves, oldLeaf.value);
      match OpOf(e)
      case TreeInsert =>
        if index < 0 then (Mapped(s, s.leaves + [newLeaf.value], |s.leaves|, e.address, e.newWeight), Done)
        else (Mapped(s, s.leaves[index := newLeaf.value], index, e.address, e.newWeight), Done)
      case TreeDelete =>
        if index < 0 then (s, Failed(IndexOutOfRange))
        else (Vacated(s, index, e.address), Done)
      case TreeUpdate =>
        if index < 0 then (s, Failed(IndexOutOfRange))
        else (Mapped(s, s.leaves[index := newLeaf.value], index, e.address, e.newWeight), Done)
      case TreeNoOp => (s, Done)
  }

  /** Applies events in order, up to the first that fails. */
  function ApplyEvents(s: State, events: seq<Event>): (State, Outcome) {
    if events == [] then (s, Done)
    else
      var (t, r) := ApplyEvents(s, events[..|events| - 1]);
      if r.Failed? then (t, r) else ApplyEvent(t, events[|events| - 1])
  }

  lemma {:induction false} StreamStaysFailed(s: State, events: seq<Event>, n: nat)
    requires n <= |events| && ApplyEvents(s, events[..n]).1.Failed?
    ensures ApplyEvents(s, events) == ApplyEvents(s, events[..n])
    decreases |events|
  {
    if n == |events| {
      assert events[..n] == events;
    } else {
      var init := events[..|events| - 1];
      assert init[..n] == events[..n];
      StreamStaysFailed(s, init, n);
    }
  }

  // ---------------------------------------------------------------- the plain meaning

  function WeightOf(weights: map<Address, nat>, a: Address): nat {
    if a in weights then weights[a] else 0
  }

  /** The effect of an event on the weights: the new weight is recorded, a member whose positive
      weight becomes zero is removed, and zero to zero changes nothing. */
  function PlainStep(weights: map<Address, nat>, e: Event): map<Address, nat> {
    if e.newWeight > 0 then weights[e.address := e.newWeight]
    else if e.prevWeight > 0 then weights - {e.address}
    else weights
  }

  function PlainFold(weights: map<Address, nat>, events: seq<Event>): map<Address, nat> {
    if events == [] then weights
    else PlainStep(PlainFold(weights, events[..|events| - 1]), events[|events| - 1])
  }

  /** An event that tells the truth about the previous weight, with a new weight that can be packed.
      Excepted is the first positive weight of the zero address, see ZeroAddressKeepsSlotsIff. */
  ghost predicate Truthful(weights: map<Address, nat>, e: Event) {
    && e.prevWeight == WeightOf(weights, e.address)
    && e.newWeight < TWO_88
    && (e.address == 0 ==> e.prevWeight > 0 || e.newWeight == 0)
  }

  ghost predicate TruthfulStream(weights: map<Address, nat>, events: seq<Event>) {
    forall k | 0 <= k < |events| :: Truthful(PlainFold(weights, events[..k]), events[k])
  }

  /** When the truncation to 64 bits does not mislead the census about an event. */
  predicate Representable(e: Event) {
    var p, n := Int64(e.prevWeight), Int64(e.newWeight);
    if e.prevWeight == 0 then e.newWeight == 0 || n > 0
    else if e.newWeight == 0 then p > 0
    else e.newWeight == e.prevWeight || (p > 0 && n != 0) || (p == 0 && n > 0)
  }

  /** The documented classification holds exactly for these events. */
  lemma OpIsDocumentedIff(e: Event)
    ensures OpOf(e) == DocumentedOp(e) <==>
              && (e.prevWeight > 0 ==> Int64(e.prevWeight) > 0)
              && (e.newWeight > 0 ==> if e.prevWeight == 0 then Int64(e.newWeight) > 0 else Int64(e.newWeight) != 0)
  {
  }

  /** A first weight of 2^64 is mistaken for no weight at all, and the event is dropped. */
  lemma LargeWeightIsDropped(a: Address)
    ensures OpOf(Event(a, 0, TWO_64)) == TreeNoOp && DocumentedOp(Event(a, 0, TWO_64)) == TreeInsert
  {
  }

  /** Below 2^63 every event is represented. */
  lemma SmallWeightsRepresentable(e: Event)
    requires e.prevWeight <= MAX_INT && e.newWeight <= MAX_INT
    ensures Representable(e) && OpOf(e) == DocumentedOp(e)
  {
  }

  // ---------------------------------------------------------------- refinement

  /** Later states keep the slots of earlier ones: a slot that is mapped later was mapped to the
      same address before, or is new; an emptied slot is never used again. */
  ghost predicate SlotsKept(s: State, t: State) {
    && |s.leaves| <= |t.leaves|
    && forall i | 0 <= i < |s.leaves| && i in t.indexToAddress ::
         i in s.indexToAddress && s.indexToAddress[i] == t.indexToAddress[i]
  }

  /** Members that are in both states have the same slot. */
  ghost predicate MembersStay(s: State, t: State) {
    forall a | a in s.addressIndex && a in t.addressIndex :: s.addressIndex[a] == t.addressIndex[a]
  }

  /** The address is a member whose recorded weight is w. */
  predicate KnownAs(s: State, a: Address, w: nat) {
    a in s.weights && s.weights[a] == w
  }

  /** The search for the previous leaf finds the member's slot, if there is a member of that weight. */
  lemma SearchFindsMember(s: State, a: Address, w: nat)
    requires Inv(s) && w < TWO_88 && (a, w) != (0, 0)
    ensures KnownAs(s, a, w) ==> a in s.addressIndex
    ensures FirstIndex(s.leaves, Packed(a, w)) == if KnownAs(s, a, w) then s.addressIndex[a] else -1
  {
    if KnownAs(s, a, w) {
      assert a in s.addressIndex.Keys && SlotOk(s, s.addressIndex[a]);
      MemberHasOneSlot(s, a, w, s.addressIndex[a]);
    }
    FirstIndexMeaning(s.leaves, Packed(a, w));
    var i := FirstIndex(s.leaves, Packed(a, w));
    if i >= 0 { MemberHasOneSlot(s, a, w, i); }
  }

  // ---------------------------------------------------------------- any event, up to date or not

  /** An event that cannot be applied: a weight is too wide, or the member to delete or update does not
      have the previous weight. */
  predicate Refused(s: State, e: Event) {
    || e.prevWeight >= TWO_88 || e.newWeight >= TWO_88
    || (OpOf(e) in {TreeDelete, TreeUpdate} && !KnownAs(s, e.address, e.prevWeight))
  }

  function Refusal(e: Event): Error {
    if e.prevWeight >= TWO_88 || e.newWeight >= TWO_88 then Panicked else IndexOutOfRange
  }

  /** A consistent census refuses exactly these events, and is then unchanged. */
  lemma EventRefusedIff(s: State, e: Event)
    requires Inv(s)
    ensures Refused(s, e) ==> ApplyEvent(s, e) == (s, Failed(Refusal(e)))
    ensures !Refused(s, e) ==> ApplyEvent(s, e).1 == Done
  {
    PackIsArithmetic(e.address, e.prevWeight);
    PackIsArithmetic(e.address, e.newWeight);
    if e.prevWeight < TWO_88 && (e.address, e.prevWeight) != (0, 0) {
      SearchFindsMember(s, e.address, e.prevWeight);
    }
  }

  /** What any other event does: it looks for the member by its previous weight, and an insertion that
      does not find it appends a member, even if the address has one. Excepted is an insertion for the
      zero address from weight zero, see ZeroAddressEffect. */
  lemma EventEffect(s: State, e: Event)
    requires Inv(s) && !Refused(s, e) && (OpOf(e) == TreeInsert ==> (e.address, e.prevWeight) != (0, 0))
    ensures KnownAs(s, e.address, e.prevWeight) ==> e.address in s.addressIndex
    ensures OpOf(e) in {TreeDelete, TreeUpdate} ==> KnownAs(s, e.address, e.prevWeight)
    ensures var a, w, known := e.address, e.newWeight, KnownAs(s, e.address, e.prevWeight);
            ApplyEvent(s, e).0 ==
            match OpOf(e)
            case TreeNoOp => s
            case TreeDelete => Vacated(s, s.addressIndex[a], a)
            case TreeUpdate => Reweighted(s, s.addressIndex[a], a, w)
            case TreeInsert => if known then Reweighted(s, s.addressIndex[a], a, w) else Appended(s, a, w)
  {
    PackIsArithmetic(e.address, e.prevWeight);
    PackIsArithmetic(e.address, e.newWeight);
    if KnownAs(s, e.address, e.prevWeight) { assert e.address in s.addressIndex.Keys; }
    if (e.address, e.prevWeight) != (0, 0) { SearchFindsMember(s, e.address, e.prevWeight); }
  }

  /** In any census, consistent or not, what counts is the first slot whose leaf is the packed previous
      weight. */
  lemma EventTakesFirstLeaf(s: State, e: Event, i: nat)
    requires e.prevWeight < TWO_88 && e.newWeight < TWO_88 && i < |s.leaves|
    requires s.leaves[i] == Packed(e.address, e.prevWeight)
    requires forall j | 0 <= j < i :: s.leaves[j] != Packed(e.address, e.prevWeight)
    ensures ApplyEvent(s, e) ==
            match OpOf(e)
            case TreeNoOp => (s, Done)
            case TreeDelete => (Vacated(s, i, e.address), Done)
            case _ => (Reweighted(s, i, e.address, e.newWeight), Done)
  {
    PackIsArithmetic(e.address, e.prevWeight);
    PackIsArithmetic(e.address, e.newWeight);
    FirstIndexIs(s.leaves, Packed(e.address, e.prevWeight), i);
  }

  lemma EventWithoutLeaf(s: State, e: Event)
    requires e.prevWeight < TWO_88 && e.newWeight < TWO_88 && Packed(e.address, e.prevWeight) !in s.leaves
    ensures ApplyEvent(s, e) ==
            match OpOf(e)
            case TreeNoOp => (s, Done)
            case TreeInsert => (Appended(s, e.address, e.newWeight), Done)
            case _ => (s, Failed(IndexOutOfRange))
  {
    PackIsArithmetic(e.address, e.prevWeight);
    PackIsArithmetic(e.address, e.newWeight);
    FirstIndexMeaning(s.leaves, Packed(e.address, e.prevWeight));
  }

  lemma SecondSlotBreaksInv(s: State, a: Address, w: nat)
    requires Inv(s) && a in s.addressIndex
    ensures !Inv(Appended(s, a, w))
  {
    TwoSlotsOfOne(Appended(s, a, w), s.addressIndex[a], |s.leaves|);
  }

  /** Events whose previous weight is out of date are harmless but for one kind: the insertion of an
      address that is a member with another weight gives it a second slot. */
  lemma EventKeepsInvIff(s: State, e: Event)
    requires Inv(s) && (OpOf(e) == TreeInsert ==> (e.address, e.prevWeight) != (0, 0))
    ensures Inv(ApplyEvent(s, e).0) <==>
            (Refused(s, e) || OpOf(e) != TreeInsert || e.address !in s.weights || s.weights[e.address] == e.prevWeight)
  {
    EventRefusedIff(s, e);
    if !Refused(s, e) {
      var a := e.address;
      EventEffect(s, e);
      assert a in s.weights <==> a in s.addressIndex.Keys;
      if KnownAs(s, a, e.prevWeight) {
        ReweightKeepsInv(s, a, e.newWeight);
        VacateKeepsInv(s, a);
      } else if a in s.weights {
        SecondSlotBreaksInv(s, a, e.newWeight);
      } else {
        AppendKeepsInv(s, a, e.newWeight);
      }
    }
  }

  /** The census after the first k events. */
  function AfterFirst(s: State, events: seq<Event>, k: nat): State
    requires k <= |events|
  {
    ApplyEvents(s, events[..k]).0
  }

  /** The stream stops at the first refused event, with the census before it. */
  lemma StreamStopsAtRefused(s: State, events: seq<Event>, n: nat)
    requires n < |events| && ApplyEvents(s, events[..n]).1 == Done && Inv(AfterFirst(s, events, n))
    requires Refused(AfterFirst(s, events, n), events[n])
    ensures ApplyEvents(s, events) == (AfterFirst(s, events, n), Failed(Refusal(events[n])))
  {
    EventRefusedIff(AfterFirst(s, events, n), events[n]);
    assert events[..n + 1][..n] == events[..n];
    StreamStaysFailed(s, events, n + 1);
  }

  /** Event k of a stream is refused when its turn comes. */
  predicate RefusedAt(s: State, events: seq<Event>, k: nat)
    requires k < |events|
  {
    Refused(AfterFirst(s, events, k), events[k])
  }

  lemma {:induction false} SucceedsUntilRefused(s: State, events: seq<Event>, k: nat)
    requires k <= |events| && forall i | 0 <= i < k :: Inv(AfterFirst(s, events, i)) && !RefusedAt(s, events, i)
    ensures ApplyEvents(s, events[..k]).1 == Done
    decreases k
  {
    if k == 0 {
    } else {
      SucceedsUntilRefused(s, events, k - 1);
      assert !RefusedAt(s, events, k - 1);
      EventRefusedIff(AfterFirst(s, events, k - 1), events[k - 1]);
      assert events[..k][..k - 1] == events[..k - 1];
    }
  }

  /** As long as the census stays consistent, a stream succeeds exactly when no event is refused. */
  lemma StreamSucceedsIff(s: State, events: seq<Event>)
    requires forall k | 0 <= k < |events| :: Inv(AfterFirst(s, events, k))
    ensures ApplyEvents(s, events).1 == Done <==> forall k | 0 <= k < |events| :: !RefusedAt(s, events, k)
  {
    if forall k | 0 <= k < |events| :: !RefusedAt(s, events, k) {
      SucceedsUntilRefused(s, events, |events|);
      assert events[..|events|] == events;
    } else {
      var n :| 0 <= n < |events| && RefusedAt(s, events, n);
      assert Inv(AfterFirst(s, events, n));
      if ApplyEvents(s, events[..n]).1 == Done {
        StreamStopsAtRefused(s, events, n);
      } else {
        StreamStaysFailed(s, events, n);
      }
    }
  }

  /** An out-of-date update: the member has another weight. The event fails and nothing changes. */
  lemma OutOfDateUpdateFails(a: Address, w: nat, p: nat, n: nat)
    requires 0 < p <= MAX_INT && 0 < n <= MAX_INT && w <= MAX_INT && w != p
    ensures var s := Appended(EMPTY, a, w);
            ApplyEvent(s, Event(a, p, n)) == (s, Failed(IndexOutOfRange))
  {
    AppendKeepsInv(EMPTY, a, w);
    EventRefusedIff(Appended(EMPTY, a, w), Event(a, p, n));
  }

  // ---------------------------------------------------------------- truthful events

  /** What a truthful event does, by the operation it is taken for. */
  lemma TruthfulEventEffect(s: State, e: Event)
    requires Inv(s) && Truthful(s.weights, e)
    ensures var a, w, op := e.address, e.newWeight, OpOf(e);
            ApplyEvent(s, e) ==
            if op == TreeNoOp then (s, Done)
            else if op == TreeDelete then (Vacated(s, s.addressIndex[a], a), Done)
            else if a in s.addressIndex then (Reweighted(s, s.addressIndex[a], a, w), Done)
            else (Appended(s, a, w), Done)
    ensures OpOf(e) in {TreeDelete, TreeUpdate} ==> e.address in s.addressIndex
  {
    var a := e.address;
    assert a in s.weights <==> a in s.addressIndex.Keys;
    if a in s.addressIndex { assert SlotOk(s, s.addressIndex[a]); }
    EventRefusedIff(s, e);
    EventEffect(s, e);
  }

  /** One truthful event succeeds, keeps the invariant and every slot. The weights become those
      of the plain step exactly when the event is representable in 64 bits. */
  lemma EventRefinesPlainStep(s: State, e: Event)
    requires Inv(s) && Truthful(s.weights, e)
    ensures var (t, r) := ApplyEvent(s, e);
            && r == Done && Inv(t) && SlotsKept(s, t) && MembersStay(s, t)
            && (t.weights == PlainStep(s.weights, e) <==> Representable(e))
  {
    var a := e.address;
    TruthfulEventEffect(s, e);
    if a in s.addressIndex {
      ReweightKeepsInv(s, a, e.newWeight);
      VacateKeepsInv(s, a);
    } else {
      AppendKeepsInv(s, a, e.newWeight);
    }
    EventWeights(s, e);
  }

  lemma EventWeights(s: State, e: Event)
    requires Inv(s) && Truthful(s.weights, e)
    ensures ApplyEvent(s, e).0.weights == PlainStep(s.weights, e) <==> Representable(e)
  {
    TruthfulEventEffect(s, e);
    var a, p, n := e.address, e.prevWeight, e.newWeight;
    var w, w' := PlainStep(s.weights, e), ApplyEvent(s, e).0.weights;
    if OpOf(e) == TreeNoOp {
      if n > 0 { assert a in w && w[a] == n; } else if p > 0 { assert a !in w && a in s.weights; }
    } else if OpOf(e) == TreeDelete {
      assert a !in w';
    } else {
      assert n > 0 && w == w';
    }
  }

  /** Event refinement: a truthful stream of representable events is applied without failure, and
      leaves the weights that the plain fold of the events gives. */
  lemma {:induction false} EventsRefinePlainFold(s: State, events: seq<Event>)
    requires Inv(s) && TruthfulStream(s.weights, events)
    requires forall k | 0 <= k < |events| :: Representable(events[k])
    ensures var (t, r) := ApplyEvents(s, events);
            r == Done && Inv(t) && t.weights == PlainFold(s.weights, events) && SlotsKept(s, t)
    decreases |events|
  {
    if events == [] {
    } else {
      var init, e := events[..|events| - 1], events[|events| - 1];
      forall k | 0 <= k < |init| ensures Truthful(PlainFold(s.weights, init[..k]), init[k]) {
        assert init[..k] == events[..k] && init[k] == events[k];
      }
      EventsRefinePlainFold(s, init);
      EventRefinesPlainStep(ApplyEvents(s, init).0, e);
    }
  }

  /** A prefix of a truthful stream of representable events leaves a consistent census with the
      weights of its plain fold, for which the next event is truthful. */
  lemma PrefixRefinesPlainFold(s: State, events: seq<Event>, k: nat)
    requires Inv(s) && TruthfulStream(s.weights, events) && k <= |events|
    requires forall i | 0 <= i < |events| :: Representable(events[i])
    ensures var (t, r) := ApplyEvents(s, events[..k]);
            && r == Done && Inv(t) && t.weights == PlainFold(s.weights, events[..k])
            && (k < |events| ==> Truthful(t.weights, events[k])
                                 && ApplyEvents(s, events[..k + 1]) == ApplyEvent(t, events[k]))
  {
    forall i | 0 <= i < k ensures Truthful(PlainFold(s.weights, events[..k][..i]), events[..k][i]) {
      assert events[..k][..i] == events[..i];
    }
    EventsRefinePlainFold(s, events[..k]);
    if k < |events| { assert events[..k + 1][..k] == events[..k]; }
  }

  /** A truthful stream has the plain meaning at every moment exactly when all its events are
      representable. */
  lemma {:induction false} StreamIsPlainIff(s: State, events: seq<Event>)
    requires Inv(s) && TruthfulStream(s.weights, events)
    ensures (forall k | 0 <= k <= |events| ::
               var (t, r) := ApplyEvents(s, events[..k]); r == Done && t.weights == PlainFold(s.weights, events[..k]))
            <==> forall k | 0 <= k < |events| :: Representable(events[k])
  {
    if forall k | 0 <= k < |events| :: Representable(events[k]) {
      forall k | 0 <= k <= |events|
        ensures var (t, r) := ApplyEvents(s, events[..k]); r == Done && t.weights == PlainFold(s.weights, events[..k])
      {
        PrefixRefinesPlainFold(s, events, k);
      }
    } else {
      var n := FirstUnrepresentable(events);
      UnrepresentableShows(s, events, n);
    }
  }

  lemma FirstUnrepresentable(events: seq<Event>) returns (n: nat)
    requires exists k :: 0 <= k < |events| && !Representable(events[k])
    ensures n < |events| && !Representable(events[n]) && forall k | 0 <= k < n :: Representable(events[k])
  {
    n := 0;
    while Representable(events[n])
      invariant n < |events| && forall k | 0 <= k < n :: Representable(events[k])
      decreases |events| - n
    {
      n := n + 1;
    }
  }

  /** The first event that is not representable makes the weights differ from the plain fold. */
  lemma UnrepresentableShows(s: State, events: seq<Event>, n: nat)
    requires Inv(s) && TruthfulStream(s.weights, events) && n < |events| && !Representable(events[n])
    requires forall k | 0 <= k < n :: Representable(events[k])
    ensures ApplyEvents(s, events[..n + 1]).0.weights != PlainFold(s.weights, events[..n + 1])
  {
    forall i | 0 <= i < n ensures Truthful(PlainFold(s.weights, events[..n][..i]), events[..n][i]) {
      assert events[..n][..i] == events[..i];
    }
    EventsRefinePlainFold(s, events[..n]);
    assert events[..n + 1][..n] == events[..n];
    EventRefinesPlainStep(ApplyEvents(s, events[..n]).0, events[n]);
  }

  /** One event in the middle of a stream. */
  lemma StreamStep(s: State, events: seq<Event>, k: nat)
    requires Inv(s) && TruthfulStream(s.weights, events) && k < |events|
    requires forall i | 0 <= i < |events| :: Representable(events[i])
    ensures var t, t' := ApplyEvents(s, events[..k]).0, ApplyEvents(s, events[..k + 1]).0;
            && SlotsKept(t, t') && MembersStay(t, t')
            && t.addressIndex.Keys == PlainFold(s.weights, events[..k]).Keys
            && t'.addressIndex.Keys == PlainFold(s.weights, events[..k + 1]).Keys
  {
    PrefixRefinesPlainFold(s, events, k);
    PrefixRefinesPlainFold(s, events, k + 1);
    EventRefinesPlainStep(ApplyEvents(s, events[..k]).0, events[k]);
  }

  /** Between any two moments of a stream, slots keep their addresses or are emptied. */
  lemma {:induction false} StreamKeepsSlots(s: State, events: seq<Event>, j: nat, k: nat)
    requires Inv(s) && TruthfulStream(s.weights, events) && j <= k <= |events|
    requires forall i | 0 <= i < |events| :: Representable(events[i])
    ensures SlotsKept(ApplyEvents(s, events[..j]).0, ApplyEvents(s, events[..k]).0)
    decreases k
  {
    if j < k {
      StreamKeepsSlots(s, events, j, k - 1);
      StreamStep(s, events, k - 1);
    }
  }

  /** Slots emptied along the way hold zero for good: a slot without a member at one moment of the
      stream is empty at every later moment. */
  lemma EmptiedSlotsStayZero(s: State, events: seq<Event>, j: nat, k: nat, i: nat)
    requires Inv(s) && TruthfulStream(s.weights, events) && j <= k <= |events|
    requires forall n | 0 <= n < |events| :: Representable(events[n])
    requires var t := ApplyEvents(s, events[..j]).0; i < |t.leaves| && i !in t.indexToAddress
    ensures var t := ApplyEvents(s, events[..k]).0; i < |t.leaves| && t.leaves[i] == 0 && i !in t.indexToAddress
  {
    StreamKeepsSlots(s, events, j, k);
    PrefixRefinesPlainFold(s, events, k);
    assert SlotOk(ApplyEvents(s, events[..k]).0, i);
  }

  /** An address that the plain fold has at every moment from j to k keeps its slot from j to k. */
  lemma {:induction false} MembersKeepTheirSlots(s: State, events: seq<Event>, j: nat, k: nat, a: Address)
    requires Inv(s) && TruthfulStream(s.weights, events) && j <= k <= |events|
    requires forall i | 0 <= i < |events| :: Representable(events[i])
    requires forall i | j <= i <= k :: a in PlainFold(s.weights, events[..i])
    ensures var t, t' := ApplyEvents(s, events[..j]).0, ApplyEvents(s, events[..k]).0;
            a in t.addressIndex && a in t'.addressIndex && t'.addressIndex[a] == t.addressIndex[a]
    decreases k
  {
    if j == k {
      PrefixRefinesPlainFold(s, events, k);
    } else {
      MembersKeepTheirSlots(s, events, j, k - 1, a);
      StreamStep(s, events, k - 1);
    }
  }

  // ---------------------------------------------------------------- the first weight of the zero address

  /** Where an insertion for the zero address from weight zero goes: the leaf searched for is zero, so
      that the first zero leaf is taken, whoever's it is. */
  lemma ZeroAddressEffect(s: State, w: nat)
    requires Inv(s) && 0 < w < TWO_88 && OpOf(Event(0, 0, w)) == TreeInsert
    ensures var i := FirstIndex(s.leaves, 0);
            ApplyEvent(s, Event(0, 0, w)) ==
            (if i < 0 then Appended(s, 0, w) else Reweighted(s, i, 0, w), Done)
    ensures 0 in s.addressIndex && WeightOf(s.weights, 0) == 0 ==> s.leaves[s.addressIndex[0]] == 0
  {
    PackIsArithmetic(0, 0);
    PackIsArithmetic(0, w);
    if 0 in s.addressIndex { assert SlotOk(s, s.addressIndex[0]); }
  }

  /** Why that event is excepted, exactly: it keeps the census consistent and every slot if and only
      if the first zero leaf is the zero address's own, or there is neither. Otherwise it takes an
      emptied slot, or moves the zero address out of its own. */
  lemma ZeroAddressKeepsSlotsIff(s: State, w: nat)
    requires Inv(s) && WeightOf(s.weights, 0) == 0 && 0 < w < TWO_88 && Representable(Event(0, 0, w))
    ensures var (t, r) := ApplyEvent(s, Event(0, 0, w));
            var i := FirstIndex(s.leaves, 0);
            && r == Done
            && (Inv(t) && SlotsKept(s, t) && MembersStay(s, t) <==>
                (i < 0 || i in s.indexToAddress) && (0 in s.addressIndex ==> i == s.addressIndex[0]))
  {
    var t, i := ApplyEvent(s, Event(0, 0, w)).0, FirstIndex(s.leaves, 0);
    ZeroAddressEffect(s, w);
    FirstIndexMeaning(s.leaves, 0);
    if i < 0 {
      AppendKeepsInv(s, 0, w);
    } else {
      ZeroLeafOwner(s, i);
      if 0 in s.addressIndex && i == s.addressIndex[0] { ReweightKeepsInv(s, 0, w); }
    }
  }

  /** A zero leaf is nobody's, or the zero address's. */
  lemma ZeroLeafOwner(s: State, i: nat)
    requires Inv(s) && i < |s.leaves| && s.leaves[i] == 0
    ensures i in s.indexToAddress ==> s.indexToAddress[i] == 0 && 0 in s.addressIndex && s.addressIndex[0] == i
  {
    assert SlotOk(s, i);
  }

  lemma FillingKeepsInv(s: State, i: nat, a: Address, w: nat)
    requires Inv(s) && i < |s.leaves| && i !in s.indexToAddress && a !in s.addressIndex && w < TWO_88
    ensures Inv(Reweighted(s, i, a, w))
  {
    var t := Reweighted(s, i, a, w);
    forall j | 0 <= j < |t.leaves| ensures SlotOk(t, j) { assert SlotOk(s, j); }
  }

  /** Consistency alone needs less, whatever weight the zero address has: if it is a member, the first
      zero leaf must be its own. */
  lemma ZeroAddressKeepsInvIff(s: State, w: nat)
    requires Inv(s) && 0 < w < TWO_88 && OpOf(Event(0, 0, w)) == TreeInsert
    ensures Inv(ApplyEvent(s, Event(0, 0, w)).0) <==>
            (0 in s.addressIndex ==> FirstIndex(s.leaves, 0) == s.addressIndex[0])
  {
    var i := FirstIndex(s.leaves, 0);
    ZeroAddressEffect(s, w);
    FirstIndexMeaning(s.leaves, 0);
    if i < 0 {
      if 0 in s.addressIndex { SecondSlotBreaksInv(s, 0, w); } else { AppendKeepsInv(s, 0, w); }
    } else {
      ZeroLeafOwner(s, i);
      if 0 !in s.addressIndex {
        FillingKeepsInv(s, i, 0, w);
      } else if i == s.addressIndex[0] {
        ReweightKeepsInv(s, 0, w);
      } else {
        TwoSlotsOfOne(Reweighted(s, i, 0, w), i, s.addressIndex[0]);
      }
    }
  }

  /** An input on which it does not: an emptied slot is taken over. */
  lemma ZeroAddressReusesEmptySlot(a: Address, w: nat)
    requires 0 < w <= MAX_INT && a != 0
    ensures var s := Vacated(Appended(EMPTY, a, w), 0, a);
            var (t, r) := ApplyEvent(s, Event(0, 0, w));
            r == Done && |t.leaves| == 1 && 0 in t.indexToAddress && !SlotsKept(s, t)
  {
    PackIsArithmetic(0, 0);
    PackIsArithmetic(0, w);
    SmallWeightsRepresentable(Event(0, 0, w));
    var s := Vacated(Appended(EMPTY, a, w), 0, a);
    assert s.leaves == [0];
    FirstIndexIs(s.leaves, 0, 0);
  }
}
