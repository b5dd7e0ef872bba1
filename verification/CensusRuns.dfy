/** Whole runs of census operations: the invariant over every run, and what a store gives back. */
module CensusRuns {
  import opened Wrappers
  import opened Numerals
  import opened Storage
  import opened LeanTree
  import opened Packing
  import opened CensusState
  import opened CensusStore
  import opened Census
  import opened Dumps
  import opened Imports
  import opened EventReopens
  import Events

  datatype Op =
    | AddOp(address: Address, weight: nat)
    | AddBulkOp(addresses: seq<Address>, weights: seq<nat>)
    | UpdateOp(address: Address, weight: nat)
    | EventsOp(events: seq<Events.Event>)
    | ImportOp(dump: CensusDump)
    | SyncOp

  function Updated(s: State, a: Address, w: nat): State {
    if a !in s.addressIndex || w >= TWO_88 || s.addressIndex[a] >= |s.leaves| then s
    else s.(leaves := s.leaves[s.addressIndex[a] := Packed(a, w)], weights := s.weights[a := w])
  }

  /** The census after an operation. Participants with the same index are imported in their order. */
  function After(s: State, op: Op): State {
    match op
    case AddOp(a, w) => Added(s, a, w)
    case AddBulkOp(addresses, weights) => BulkAdded(s, addresses, weights)
    case UpdateOp(a, w) => Updated(s, a, w)
    case EventsOp(events) => Events.ApplyEvents(s, events).0
    case ImportOp(dump) => PlaceAll(SortedOrder(dump.participants)).0
    case SyncOp => s
  }

  function AfterAll(s: State, ops: seq<Op>): State {
    if ops == [] then s else After(AfterAll(s, ops[..|ops| - 1]), ops[|ops| - 1])
  }

  /** One operation can take the census from s to t: participants with the same index may be imported
      in any order. */
  ghost predicate Next(s: State, op: Op, t: State) {
    match op
    case ImportOp(dump) =>
      exists order :: SortedByIndex(order) && multiset(order) == multiset(dump.participants) && t == PlaceAll(order).0
    case _ => t == After(s, op)
  }

  /** What the invariant needs of an operation: distinct addresses in bulk, truthful events, and
      dumps that are fitting in whatever order they are imported. */
  ghost predicate Allowed(s: State, op: Op) {
    match op
    case AddBulkOp(addresses, _) => Distinct(addresses)
    case EventsOp(events) =>
      Events.TruthfulStream(s.weights, events) && forall k | 0 <= k < |events| :: Events.Representable(events[k])
    case ImportOp(dump) =>
      forall order | multiset(order) == multiset(dump.participants) && SortedByIndex(order) :: Fitting(order)
    case _ => true
  }

  lemma NextKeepsInv(s: State, op: Op, t: State)
    requires Inv(s) && Next(s, op, t) && Allowed(s, op)
    ensures Inv(t)
  {
    match op
    case AddOp(a, w) => AddKeepsInv(s, a, w);
    case AddBulkOp(addresses, weights) => BulkKeepsInv(s, addresses, weights);
    case UpdateOp(a, w) => UpdateKeepsInv(s, a, w);
    case EventsOp(events) => Events.EventsRefinePlainFold(s, events);
    case SyncOp =>
    case ImportOp(dump) =>
      var order :| SortedByIndex(order) && multiset(order) == multiset(dump.participants) && t == PlaceAll(order).0;
      ImportKeepsInv(order);
  }

  lemma UpdateKeepsInv(s: State, a: Address, w: nat)
    requires Inv(s)
    ensures Inv(Updated(s, a, w))
    ensures Updated(s, a, w).indexToAddress == s.indexToAddress && |Updated(s, a, w).leaves| == |s.leaves|
  {
    if a in s.addressIndex && w < TWO_88 {
      ReweightKeepsInv(s, a, w);
      assert Updated(s, a, w) == Reweighted(s, s.addressIndex[a], a, w);
    }
  }

  /** The census invariant over all runs: it holds after every operation of every run of allowed
      operations from the empty census. */
  lemma {:induction false} InvOverAllRuns(states: seq<State>, ops: seq<Op>, k: nat)
    requires |states| == |ops| + 1 && states[0] == EMPTY && k <= |ops|
    requires forall j | 0 <= j < |ops| :: Next(states[j], ops[j], states[j + 1]) && Allowed(states[j], ops[j])
    ensures Inv(states[k])
  {
    if k == 0 {
    } else {
      InvOverAllRuns(states, ops, k - 1);
      NextKeepsInv(states[k - 1], ops[k - 1], states[k]);
    }
  }

  /** The object takes these steps and no others. */
  method Perform(c: CensusIMT, op: Op)
    requires c.Valid() && Fits(c.Now(), op)
    modifies c, c.tree, c.db
    ensures c.Valid() && Next(old(c.Now()), op, c.Now())
    ensures Persistent(c.hasher, op) ==> c.Now() == After(old(c.Now()), op)
    ensures old(Inv(c.Now()) && c.StoreAgrees()) && Persistent(c.hasher, op) ==> c.StoreAgrees()
    ensures c.tree == old(c.tree) || fresh(c.tree)
  {
    match op
    case AddOp(a, w) =>
      var r := c.Add(a, w);
      PackIsArithmetic(a, w);
    case AddBulkOp(addresses, weights) => var r := c.AddBulk(addresses, weights);
    case UpdateOp(a, w) => var r := c.Update(a, w);
    case EventsOp(events) => var r := c.ApplyEvents(events);
    case SyncOp => var r := c.Sync();
    case ImportOp(dump) => PerformImport(c, dump);
  }

  method PerformImport(c: CensusIMT, dump: CensusDump)
    requires c.Valid() && Fits(c.Now(), ImportOp(dump))
    modifies c, c.tree, c.db
    ensures c.Valid() && fresh(c.tree) && Next(old(c.Now()), ImportOp(dump), c.Now())
    ensures Persistent(c.hasher, ImportOp(dump)) ==> c.Now() == After(old(c.Now()), ImportOp(dump))
    ensures old(Inv(c.Now()) && c.StoreAgrees()) && Persistent(c.hasher, ImportOp(dump)) ==> c.StoreAgrees()
  {
    var ps := dump.participants;
    ghost var order;
    var r;
    r, order := c.ImportAll(dump);
    if DistinctIndices(ps) {
      SortedOrderSorts(ps);
      SortIsUnique(ps, order, SortedOrder(ps));
    }
  }

  /** How many slots an operation can add. */
  function Growth(op: Op): nat {
    match op
    case AddOp(_, _) => 1
    case AddBulkOp(addresses, _) => |addresses|
    case EventsOp(events) => |events|
    case _ => 0
  }

  /** The slots needed are numbered by ints. */
  ghost predicate Fits(s: State, op: Op) {
    && |s.leaves| + Growth(op) <= MAX_INT
    && (op.ImportOp? ==> forall k | 0 <= k < |op.dump.participants| ::
                           op.dump.participants[k].index + |op.dump.participants| <= MAX_INT)
  }

  /** A dump that is imported with success and gives a consistent census. */
  ghost predicate GoodDump(hasher: (nat, nat) -> nat, dump: CensusDump) {
    var order := SortedOrder(dump.participants);
    && DistinctIndices(dump.participants) && Fitting(order)
    && PlaceAll(order).1 == Done && PlaceAll(order).0.leaves != []
    && Root(hasher, PlaceAll(order).0.leaves) == dump.root
  }

  /** The operations that write every change of the maps to the store. */
  ghost predicate Persistent(hasher: (nat, nat) -> nat, op: Op) {
    match op
    case AddBulkOp(addresses, _) => Distinct(addresses)
    case ImportOp(dump) => GoodDump(hasher, dump)
    case EventsOp(_) => false
    case _ => true
  }

  ghost predicate PersistentRun(hasher: (nat, nat) -> nat, ops: seq<Op>) {
    forall k | 0 <= k < |ops| :: Persistent(hasher, ops[k]) && Fits(AfterAll(EMPTY, ops[..k]), ops[k])
  }

  lemma PersistentKeepsInv(hasher: (nat, nat) -> nat, s: State, op: Op)
    requires Inv(s) && Persistent(hasher, op)
    ensures Inv(After(s, op))
  {
    match op
    case AddOp(a, w) => AddKeepsInv(s, a, w);
    case AddBulkOp(addresses, weights) => BulkKeepsInv(s, addresses, weights);
    case UpdateOp(a, w) => UpdateKeepsInv(s, a, w);
    case ImportOp(dump) => ImportKeepsInv(SortedOrder(dump.participants));
    case SyncOp =>
  }

  /** Additions and updates leave no slot empty. */
  lemma AdditionKeepsGapFree(hasher: (nat, nat) -> nat, s: State, op: Op)
    requires Inv(s) && GapFree(s) && Persistent(hasher, op) && !op.ImportOp?
    ensures GapFree(After(s, op))
  {
    match op
    case AddOp(a, w) =>
    case AddBulkOp(addresses, weights) =>
      if After(s, op) != s { BulkGapFree(s, addresses, weights); }
    case UpdateOp(a, w) => UpdateKeepsInv(s, a, w);
    case SyncOp =>
  }

  lemma {:induction false} BulkGapFree(s: State, addresses: seq<Address>, weights: seq<nat>)
    requires GapFree(s) && |addresses| == |weights|
    ensures GapFree(AppendedAll(s, addresses, weights))
    decreases |addresses|
  {
    if addresses == [] {
    } else {
      BulkGapFree(s, addresses[..|addresses| - 1], weights[..|addresses| - 1]);
    }
  }

  lemma {:induction false} PersistentRunKeepsInv(hasher: (nat, nat) -> nat, ops: seq<Op>, k: nat)
    requires PersistentRun(hasher, ops) && k <= |ops|
    ensures Inv(AfterAll(EMPTY, ops[..k]))
    ensures (forall i | 0 <= i < k :: !ops[i].ImportOp?) ==> GapFree(AfterAll(EMPTY, ops[..k]))
    decreases k
  {
    if k == 0 {
    } else {
      var s := AfterAll(EMPTY, ops[..k - 1]);
      PersistentRunKeepsInv(hasher, ops, k - 1);
      assert ops[..k][..k - 1] == ops[..k - 1];
      PersistentKeepsInv(hasher, s, ops[k - 1]);
      if forall i | 0 <= i < k :: !ops[i].ImportOp? { AdditionKeepsGapFree(hasher, s, ops[k - 1]); }
    }
  }

  /** A run of additions, updates, syncs and good imports ends with the census that its operations
      give, without an empty slot if nothing was imported. */
  lemma AdditionsLeaveNoGap(hasher: (nat, nat) -> nat, ops: seq<Op>)
    requires PersistentRun(hasher, ops)
    ensures Inv(AfterAll(EMPTY, ops))
    ensures (forall i | 0 <= i < |ops| :: !ops[i].ImportOp?) ==> GapFree(AfterAll(EMPTY, ops))
  {
    PersistentRunKeepsInv(hasher, ops, |ops|);
    assert ops[..|ops|] == ops;
  }

  /** Such a run, performed from an empty store, keeps memory and store in agreement. */
  method RunFromEmpty(hasher: (nat, nat) -> nat, db: Store, ops: seq<Op>) returns (c: CensusIMT)
    requires db.data == map[] && PersistentRun(hasher, ops)
    modifies db
    ensures fresh(c) && fresh(c.tree) && c.Valid() && c.db == db && c.hasher == hasher
    ensures c.Now() == AfterAll(EMPTY, ops) && Inv(c.Now()) && c.StoreAgrees()
  {
    var created := CensusIMT.New(db, hasher, EMPTY);
    c := created.value;
    assert ops[..0] == [];
    for k := 0 to |ops|
      invariant fresh(c) && fresh(c.tree) && c.Valid() && c.db == db && c.hasher == hasher
      invariant c.Now() == AfterAll(EMPTY, ops[..k]) && Inv(c.Now()) && c.StoreAgrees()
    {
      assert ops[..k + 1][..k] == ops[..k];
      PersistentKeepsInv(hasher, c.Now(), ops[k]);
      Perform(c, ops[k]);
    }
    assert ops[..|ops|] == ops;
  }

  /** After such a run ended by a sync, opening the store gives the same maps and the same tree exactly
      when no slot is empty; otherwise it fails. */
  method RunThenReopen(hasher: (nat, nat) -> nat, db: Store, ops: seq<Op>)
      returns (c: CensusIMT, d: Result<CensusIMT>)
    requires db.data == map[] && PersistentRun(hasher, ops)
    modifies db
    ensures c.Valid() && c.db == db && c.Now() == AfterAll(EMPTY, ops)
    ensures GapFree(AfterAll(EMPTY, ops)) ==>
              && d.Ok? && d.value.Valid() && d.value.db == db && d.value.StoreAgrees()
              && d.value.Now() == AfterAll(EMPTY, ops)
              && d.value.tree.nodes == c.tree.nodes == Levels(hasher, AfterAll(EMPTY, ops).leaves)
    ensures !GapFree(AfterAll(EMPTY, ops)) ==> d == Err(CorruptedIndex)
  {
    c := RunFromEmpty(hasher, db, ops);
    var r := c.Sync();
    d := CensusIMT.New(db, hasher, c.Now());
    TreeIsLevels(hasher, c.tree.nodes);
    if d.Ok? { TreeIsLevels(hasher, d.value.tree.nodes); }
  }

  /** Events are not kept by the store: reopening after them gives the maps of before over the leaves
      of now, or fails if a slot was empty before. */
  method ReopenAfterEvents(c: CensusIMT, db: Store, events: seq<Events.Event>)
      returns (r: Outcome, d: Result<CensusIMT>)
    requires c.Valid() && c.db == db && Inv(c.Now()) && c.StoreAgrees() && TruthfulFor(c.Now(), events)
    requires |c.Now().leaves| + |events| <= MAX_INT
    modifies c, c.tree, db
    ensures c.Valid() && (c.Now(), r) == Events.ApplyEvents(old(c.Now()), events) && r == Done
    ensures !GapFree(old(c.Now())) ==> d == Err(CorruptedIndex)
    ensures GapFree(old(c.Now())) ==>
              && d.Ok? && d.value.Valid() && d.value.Now() == old(c.Now()).(leaves := c.Now().leaves)
              && (Inv(d.value.Now()) <==>
                  && Events.PlainFold(old(c.weights), events) == old(c.weights)
                  && NobodyLeaves(old(c.weights), events))
  {
    ghost var was, data := c.Now(), db.data;
    Events.EventsRefinePlainFold(was, events);
    r := c.ApplyEvents(events);
    SameMapsHeld(data, db.data, was);
    assert Get(db.data, MetaCensusSize) == Get(data, MetaCensusSize);
    LaterLeavesOpen(db.data, was, c.Now().leaves);
    if GapFree(was) { ReopenedIsConsistentIff(was, events); }
    d := CensusIMT.New(db, c.hasher, EMPTY);
  }

  /** A member that is lost: it joins an empty census by an event, and the census is reopened. */
  method JoinedMemberIsLost(hasher: (nat, nat) -> nat, db: Store, a: Address, w: nat)
      returns (c: CensusIMT, d: Result<CensusIMT>)
    requires db.data == map[] && a != 0 && 0 < w <= MAX_INT
    modifies db
    ensures c.Valid() && c.Now() == Appended(EMPTY, a, w) && Inv(c.Now())
    ensures d.Ok? && d.value.Valid() && d.value.Now() == Forgotten([Packed(a, w)]) && !Inv(d.value.Now())
  {
    c := RunFromEmpty(hasher, db, []);
    JoiningIsLost(EMPTY, a, w);
    AppendKeepsInv(EMPTY, a, w);
    var r;
    r, d := ReopenAfterEvents(c, db, [Events.Event(a, 0, w)]);
  }

  /** Importing a dump into any two censuses whose stores agree with them leaves the same memory and
      the same store: what the dump says. */
  method ImportsCoincide(c: CensusIMT, d: CensusIMT, dump: CensusDump) returns (r: Outcome, r': Outcome)
    requires c.Valid() && Inv(c.Now()) && c.StoreAgrees() && d.Valid() && Inv(d.Now()) && d.StoreAgrees()
    requires c != d && c.tree != d.tree && c.db != null && d.db != null && c.db != d.db && c.hasher == d.hasher
    requires DistinctIndices(dump.participants) && Fits(EMPTY, ImportOp(dump))
    modifies c, c.db, d, d.db
    ensures c.Valid() && d.Valid() && c.Now() == d.Now() == PlaceAll(SortedOrder(dump.participants)).0
    ensures r == r' && c.db.data == d.db.data
    ensures r.Done? ==> PlaceAll(SortedOrder(dump.participants)).1 == Done
    ensures r.Done? ==> c.db.data == ImportedOver(map[], SortedOrder(dump.participants))
    ensures r.Failed? ==> c.db.data == map[]
  {
    ghost var order, order', ps := [], [], dump.participants;
    r, order := c.ImportAll(dump);
    r', order' := d.ImportAll(dump);
    SortedOrderSorts(ps);
    SortIsUnique(ps, order, SortedOrder(ps));
    SortIsUnique(ps, order', SortedOrder(ps));
  }

  /** Importing a dump after any such run leaves the memory and the store that importing it into an
      empty store leaves. The ghost result is the census before the import. */
  method ImportForgetsThePast(hasher: (nat, nat) -> nat, db: Store, empty: Store, ops: seq<Op>, dump: CensusDump)
      returns (c: CensusIMT, d: CensusIMT, ghost was: State, r: Outcome, r': Outcome)
    requires db != empty && db.data == map[] && empty.data == map[] && PersistentRun(hasher, ops)
    requires DistinctIndices(dump.participants) && Fits(EMPTY, ImportOp(dump))
    modifies db, empty
    ensures c.Valid() && d.Valid() && c.db == db && d.db == empty && was == AfterAll(EMPTY, ops)
    ensures r == r' && c.Now() == d.Now() == PlaceAll(SortedOrder(dump.participants)).0 && db.data == empty.data
    ensures r.Done? ==> PlaceAll(SortedOrder(dump.participants)).1 == Done
    ensures r.Done? ==> db.data == ImportedOver(map[], SortedOrder(dump.participants))
    ensures r.Failed? ==> db.data == map[]
  {
    c := RunFromEmpty(hasher, db, ops);
    was := c.Now();
    d := RunFromEmpty(hasher, empty, []);
    r, r' := ImportsCoincide(c, d, dump);
  }

  /** A dump imported into any census restores the leaves, the root and, without a zero-address
      member of weight zero, the maps. */
  method DumpThenImport(c: CensusIMT, d: CensusIMT) returns (r: Outcome)
    requires c.Valid() && Inv(c.Now()) && c.Now().leaves != [] && 2 * |c.Now().leaves| <= MAX_INT
    requires d.Valid() && |d.Now().leaves| <= MAX_INT && d.hasher == c.hasher
    requires c != d && c.tree != d.tree && (c.db != d.db || d.db == null)
    modifies d, d.tree, d.db
    ensures r == Done && c.Valid() && d.Valid() && c.Now() == old(c.Now()) && d.Now().leaves == c.Now().leaves
    ensures d.Now() == c.Now() <==> !(0 in c.weights && c.weights[0] == 0)
  {
    InvHasWeights(c.Now());
    DumpIsSelection(c.Now());
    var dump := c.DumpAll();
    var ps := dump.value.participants;
    ghost var order;
    r, order := d.ImportAll(dump.value);
    ImportUndoesDump(c.Now(), ps, order);
  }

  // ---------------------------------------------------------------- inputs that show a failure

  /** An accepted bulk addition that breaks the census: one address twice. */
  method RepeatedAddressIsAccepted(hasher: (nat, nat) -> nat, a: Address, w: nat)
      returns (c: CensusIMT, r: Outcome)
    requires w < TWO_88
    ensures r == Done && c.Valid() && c.Now() == AppendedAll(EMPTY, [a, a], [w, w]) && !Inv(c.Now())
  {
    var created := CensusIMT.New(null, hasher, EMPTY);
    c := created.value;
    r := c.AddBulk([a, a], [w, w]);
    RepeatedAddressBreaksInv(a, w);
  }

  /** An accepted import that breaks the census: one participant twice, with the root of two leaves. */
  method RepeatedEntryIsImported(hasher: (nat, nat) -> nat, a: Address, w: nat) returns (c: CensusIMT, r: Outcome)
    requires 0 < w < TWO_88
    ensures r == Done && c.Valid() && c.Now().leaves == [Packed(a, w), Packed(a, w)] && c.weights == map[a := w]
    ensures !Inv(c.Now())
  {
    var created := CensusIMT.New(null, hasher, EMPTY);
    c := created.value;
    var p, leaf := Participant(0, a, w), Packed(a, w);
    ghost var order;
    r, order := c.ImportAll(CensusDump(hasher(leaf, leaf), 2, 2 * w, [p, p]));
    PlacedTwice(hasher, order, p);
  }

  lemma PlacedTwice(hash: (nat, nat) -> nat, order: seq<Participant>, p: Participant)
    requires multiset(order) == multiset([p, p]) && p.index == 0 && 0 < p.weight < TWO_88
    ensures var (s, r) := PlaceAll(order);
            var leaf := Packed(p.address, p.weight);
            && r == Done && s.leaves == [leaf, leaf] && s.weights == map[p.address := p.weight] && !Fitting(order)
            && Root<nat>(hash, s.leaves) == hash(leaf, leaf)
  {
    OnlyOneArrangement(order, p);
    PackIsArithmetic(p.address, p.weight);
    var leaf := Packed(p.address, p.weight);
    assert [p, p][..1] == [p] && [p][..0] == [];
    assert PlaceAll([p]) == Place(EMPTY, p) && PlaceAll([p, p]) == Place(PlaceAll([p]).0, p);
    assert NextLevel(hash, [leaf, leaf]) == [hash(leaf, leaf)];
    assert [p, p][0].address == [p, p][1].address;
  }

  lemma OnlyOneArrangement(order: seq<Participant>, p: Participant)
    requires multiset(order) == multiset([p, p])
    ensures order == [p, p]
  {
    assert |order| == |multiset(order)| == 2;
    forall k | 0 <= k < 2 ensures order[k] == p { assert order[k] in multiset([p, p]); }
  }

  /** Imports one participant at index 1 into a census. */
  method ImportAtOne(c: CensusIMT, a: Address, w: nat) returns (r: Outcome)
    requires c.Valid() && |c.Now().leaves| <= MAX_INT && 0 < w < TWO_88 && c.db != null
    modifies c, c.db
    ensures c.Valid() && fresh(c.tree) && r == Done && c.tree.dirty && c.tree.stored == []
    ensures c.Now() == Appended(Forgotten([0]), a, w) && Inv(c.Now())
    ensures var ps := [Participant(1, a, w)];
            PlaceAll(ps).1 == Done && c.db.data == ImportedOver(ResetData(old(c.db.data), old(c.Now())), ps)
    ensures old(Inv(c.Now()) && c.StoreAgrees()) ==> c.StoreAgrees()
  {
    var p := Participant(1, a, w);
    ghost var order;
    r, order := c.ImportAll(CensusDump(c.hasher(0, Packed(a, w)), 1, w, [p]));
    PlacedAtOne(c.hasher, order, p);
  }

  /** A census that cannot be reopened: one participant is imported at index 1 and synced. */
  method ImportedGapIsNotReopened(hasher: (nat, nat) -> nat, db: Store, a: Address, w: nat)
      returns (c: CensusIMT, r: Outcome, d: Result<CensusIMT>)
    requires db.data == map[] && 0 < w < TWO_88
    modifies db
    ensures c.Valid() && c.db == db && c.StoreAgrees() && c.Now() == Appended(Forgotten([0]), a, w)
    ensures r == Done && d == Err(CorruptedIndex)
  {
    c := RunFromEmpty(hasher, db, []);
    var imported := ImportAtOne(c, a, w);
    r := c.Sync();
    assert 0 !in c.indexToAddress;
    d := CensusIMT.New(db, hasher, c.Now());
  }

  lemma PlacedAtOne(hash: (nat, nat) -> nat, order: seq<Participant>, p: Participant)
    requires multiset(order) == multiset([p]) && p.index == 1 && 0 < p.weight < TWO_88
    ensures order == [p] && PlaceAll(order) == (Appended(Forgotten([0]), p.address, p.weight), Done)
    ensures Fitting(order) && Inv(PlaceAll(order).0)
    ensures Root<nat>(hash, PlaceAll(order).0.leaves) == hash(0, Packed(p.address, p.weight))
  {
    assert |order| == |multiset(order)| == 1;
    assert order[0] in multiset([p]);
    DistinctFits(order);
    ImportKeepsInv(order);
    PackIsArithmetic(p.address, p.weight);
    assert order[..0] == [] && PlaceAll(order) == Place(EMPTY, p);
    var leaf := Packed(p.address, p.weight);
    assert PaddedTo([], 1) == [0];
    assert NextLevel(hash, [0, leaf]) == [hash(0, leaf)];
  }
}
