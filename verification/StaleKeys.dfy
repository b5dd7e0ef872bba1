/** What events do to the stored keys: members that joined by an event have none, whatever is added
    later, and those of a member that left are forgotten by a reset. */
module StaleKeys {
  import opened Wrappers
  import opened Numerals
  import opened Storage
  import opened TreeStore
  import opened Packing
  import opened CensusState
  import opened CensusStore
  import opened Dumps
  import opened Imports
  import opened Census
  import opened CensusRuns
  import opened EventReopens
  import Events

  /** The store names a as the address of slot i, with weight w. */
  ghost predicate SlotEntry(data: Data, i: nat, a: Address, w: nat) {
    Get(data, AddressOfKey(i)) == Some(HexText(a)) && Get(data, WeightOfKey(a)) == Some(Bytes(w))
  }

  lemma EntryOutlivesReset(data: Data, s: State, i: nat, a: Address, w: nat)
    requires SlotEntry(data, i, a, w) && SmallIndices(s) && i <= MAX_INT
    requires i !in s.indexToAddress && a !in s.addressIndex
    ensures SlotEntry(ResetData(data, s), i, a, w)
  {
    ForgottenMemberKey(s, a);
    ForgottenSlotKey(s, i);
  }

  lemma EntryOutlivesCommit(data: Data, i: nat, a: Address, w: nat, m: Member, size: nat)
    requires SlotEntry(data, i, a, w) && i <= MAX_INT && m.index <= MAX_INT && i != m.index && a != m.address
    ensures var after := Committed(data, WithSize(WithEntry(map[], m.address, m.index, m.weight), size));
            && SlotEntry(after, i, a, w) && SlotEntry(after, m.index, m.address, m.weight)
            && Get(after, MetaCensusSize) == Some(Decimal(size))
  {
    if Decimal(i) == Decimal(m.index) { DecimalInjective(i, m.index); }
    if HexText(a) == HexText(m.address) { HexTextInjective(a, m.address); }
  }

  lemma SlotEntryLoads(data: Data, was: State, i: nat, next: nat, a: Address, w: nat)
    requires SlotEntry(data, i, a, w) && LoadedMaps(data, was, i).Ok? && next == i + 1
    ensures LoadedMaps(data, was, next) == Ok(Mapped(LoadedMaps(data, was, i).value, was.leaves, i, a, w))
  {
    ParseHexText(a);
    BytesRoundTrip(w);
  }

  /** A store whose two slots name a and b is opened with both. */
  lemma TwoSlotsOpen(data: Data, leaves: seq<nat>, a: Address, v: nat, b: Address, w: nat)
    requires Holds(data, leaves, Encode) && Get(data, MetaCensusSize) == Some(Decimal(2))
    requires SlotEntry(data, 0, a, v) && SlotEntry(data, 1, b, w)
    ensures Opened(data) == Ok(Mapped(Mapped(Forgotten(leaves), leaves, 0, a, v), leaves, 1, b, w))
  {
    LeavesReload(data, leaves);
    DecodeDecimal(2);
    SlotEntryLoads(data, Forgotten(leaves), 0, 1, a, v);
    SlotEntryLoads(data, Forgotten(leaves), 1, 2, b, w);
  }

  lemma OneEntry(m: Member)
    ensures WithEntries(map[], [m]) == WithEntry(map[], m.address, m.index, m.weight)
  {
    assert [m][..0] == [] && WithEntries(map[], [m][..0]) == map[];
  }

  lemma OneNamed(p: Participant)
    requires !IsEmptyParticipant(p)
    ensures Named([p]) == [p]
  {
    assert [p][..0] == [] && Named([p][..0]) == [];
  }

  /** What importing one participant writes. */
  lemma OneImported(data: Data, p: Participant)
    requires !IsEmptyParticipant(p) && PlaceAll([p]).1 == Done
    ensures ImportedOver(data, [p]) ==
            Committed(data, WithSize(WithEntry(map[], p.address, p.index, p.weight), |PlaceAll([p]).0.leaves|))
  {
    var index := PlaceAll([p]).0.addressIndex;
    OneNamed(p);
    PlacedIndex([p], 0);
    assert ImportedMembers([p], index) == [Member(p.address, p.index, p.weight)];
    OneEntry(Member(p.address, p.index, p.weight));
  }

  /** A reset and an import leave no leaf in the store. */
  lemma NoLeafLeft(data: Data, s: State, tx: Batch)
    requires LeavesBelow(data, |s.leaves|) && OnlyMembers(tx)
    ensures forall size: nat :: Holds<nat>(Committed(ResetData(data, s), WithSize(tx, size)), [], Encode)
  {
    var rest := ResetData(data, s);
    forall k | k in data && (k.LeafKey? || k == MetaSize) ensures k in KnownKeys(s) {
      if k.LeafKey? { assert k in LeafKeys(|s.leaves|); }
    }
    forall size: nat ensures Holds<nat>(Committed(rest, WithSize(tx, size)), [], Encode) {
      CommittedSize(rest, tx, size);
      SameLeavesHeld(rest, Committed(rest, WithSize(tx, size)), []);
    }
  }

  /** The store has no leaf, two slots, and entries of a and of p for them. */
  ghost predicate Stale(data: Data, a: Address, v: nat, p: Participant) {
    && SlotEntry(data, 0, a, v) && SlotEntry(data, 1, p.address, p.weight)
    && Get(data, MetaCensusSize) == Some(Decimal(2)) && Holds<nat>(data, [], Encode)
  }

  lemma StaleCommit(data: Data, s: State, a: Address, v: nat, p: Participant)
    requires SlotEntry(data, 0, a, v) && s == Forgotten([0]) && LeavesBelow(data, 1)
    requires a != p.address && p.index == 1
    ensures Stale(Committed(ResetData(data, s), WithSize(WithEntry(map[], p.address, p.index, p.weight), 2)), a, v, p)
  {
    EntryOutlivesReset(data, s, 0, a, v);
    EntryOutlivesCommit(ResetData(data, s), 0, a, v, Member(p.address, p.index, p.weight), 2);
    NoLeafLeft(data, s, WithEntry(map[], p.address, p.index, p.weight));
  }

  /** An import over forgotten keys: the store after the import of one participant at index 1. */
  lemma ImportOverStale(data: Data, s: State, a: Address, v: nat, p: Participant)
    requires SlotEntry(data, 0, a, v) && s == Forgotten([0]) && LeavesBelow(data, 1)
    requires a != p.address && p.index == 1 && !IsEmptyParticipant(p)
    requires PlaceAll([p]).1 == Done && |PlaceAll([p]).0.leaves| == 2
    ensures Stale(ImportedOver(ResetData(data, s), [p]), a, v, p)
  {
    StaleCommit(data, s, a, v, p);
    OneImported(ResetData(data, s), p);
  }

  lemma HeldEntry(data: Data, s: State, i: nat)
    requires MapsHeld(data, s) && Inv(s) && i in s.indexToAddress
    ensures SlotEntry(data, i, s.indexToAddress[i], s.weights[s.indexToAddress[i]])
  {
  }

  lemma EntryOutlivesSync(data: Data, after: Data, i: nat, a: Address, w: nat)
    requires SlotEntry(data, i, a, w) && SameOutsideTree(data, after)
    ensures SlotEntry(after, i, a, w)
  {
  }

  /** Joining and leaving an empty census leaves one emptied slot. */
  lemma JoinAndLeave(a: Address, v: nat)
    requires 0 < v <= MAX_INT
    ensures Inv(Appended(EMPTY, a, v))
    ensures Events.ApplyEvents(Appended(EMPTY, a, v), [Events.Event(a, v, 0)]) == (Forgotten([0]), Done)
  {
    var s, e := Appended(EMPTY, a, v), Events.Event(a, v, 0);
    AppendKeepsInv(EMPTY, a, v);
    Events.SmallWeightsRepresentable(e);
    Events.TruthfulEventEffect(s, e);
    assert [e][..0] == [] && Events.ApplyEvents(s, [e]) == Events.ApplyEvent(s, e);
    assert Vacated(s, 0, a) == Forgotten([0]);
  }

  /** One member is added, and an event removes it: its keys stay in the store. */
  method AddAndRemove(hasher: (nat, nat) -> nat, db: Store, a: Address, v: nat) returns (c: CensusIMT)
    requires db.data == map[] && 0 < v <= MAX_INT
    modifies db
    ensures fresh(c) && fresh(c.tree) && c.Valid() && c.db == db && c.hasher == hasher && c.Now() == Forgotten([0])
    ensures SlotEntry(db.data, 0, a, v) && LeavesBelow(db.data, 1)
  {
    c := RunFromEmpty(hasher, db, []);
    var added := c.Add(a, v);
    ghost var s, data := Appended(EMPTY, a, v), db.data;
    JoinAndLeave(a, v);
    HeldEntry(data, s, 0);
    var removed := c.ApplyEvents([Events.Event(a, v, 0)]);
    EntryOutlivesSync(data, db.data, 0, a, v);
  }

  /** Another member is imported at index 1, and the census is synced. */
  method ImportAndSync(c: CensusIMT, db: Store, a: Address, v: nat, b: Address, w: nat)
    requires c.Valid() && c.db == db && c.Now() == Forgotten([0]) && a != b && 0 < v < TWO_88 && 0 < w < TWO_88
    requires SlotEntry(db.data, 0, a, v) && LeavesBelow(db.data, 1)
    modifies c, db
    ensures c.Valid() && fresh(c.tree) && c.Now() == Appended(Forgotten([0]), b, w) && Inv(c.Now())
    ensures var t := Mapped(c.Now(), c.Now().leaves, 0, a, v); Opened(db.data) == Ok(t) && !Inv(t)
  {
    ghost var data := db.data;
    var imported := ImportAtOne(c, b, w);
    ImportOverStale(data, Forgotten([0]), a, v, Participant(1, b, w));
    ghost var before := db.data;
    var synced := c.Sync();
    StaleStoreOpens(before, db.data, c.Now(), a, v, b, w);
  }

  /** A removed member comes back: it is added, and removed by an event; another one is imported at
      index 1; the census is synced and reopened. The census is consistent, and the reopened one is
      not: it has the removed member in slot 0. */
  method RemovedMemberReturns(hasher: (nat, nat) -> nat, db: Store, a: Address, v: nat, b: Address, w: nat)
      returns (c: CensusIMT, d: Result<CensusIMT>)
    requires db.data == map[] && 0 < v <= MAX_INT && a != b && 0 < w < TWO_88
    modifies db
    ensures c.Valid() && c.db == db && c.Now() == Appended(Forgotten([0]), b, w) && Inv(c.Now())
    ensures d.Ok? && d.value.Valid() && d.value.Now() == Mapped(c.Now(), c.Now().leaves, 0, a, v)
    ensures !Inv(d.value.Now())
  {
    c := AddAndRemove(hasher, db, a, v);
    ImportAndSync(c, db, a, v, b, w);
    d := CensusIMT.New(db, hasher, EMPTY);
  }

  lemma StaleStoreOpens(before: Data, data: Data, s: State, a: Address, v: nat, b: Address, w: nat)
    requires Stale(before, a, v, Participant(1, b, w)) && SameOutsideTree(before, data)
    requires Holds(data, s.leaves, Encode)
    requires s == Appended(Forgotten([0]), b, w) && a != b && 0 < v < TWO_88
    ensures var t := Mapped(s, s.leaves, 0, a, v); Opened(data) == Ok(t) && !Inv(t)
  {
    EntryOutlivesSync(before, data, 0, a, v);
    EntryOutlivesSync(before, data, 1, b, w);
    assert Get(data, MetaCensusSize) == Get(before, MetaCensusSize);
    TwoSlotsOpen(data, s.leaves, a, v, b, w);
    SameMapping(s, a, v, b, w);
  }

  lemma SameMapping(s: State, a: Address, v: nat, b: Address, w: nat)
    requires s == Appended(Forgotten([0]), b, w) && a != b && 0 < v < TWO_88
    ensures var t := Mapped(s, s.leaves, 0, a, v);
            Mapped(Mapped(Forgotten(s.leaves), s.leaves, 0, a, v), s.leaves, 1, b, w) == t && !Inv(t)
  {
    var t := Mapped(s, s.leaves, 0, a, v);
    PackedInjective(a, v, a, v);
    assert !SlotOk(t, 0);
  }

  // ---------------------------------------------------------------- additions after events

  lemma OtherSlotUntouched(data: Data, m: Member, size: nat, i: nat)
    requires i <= MAX_INT && m.index <= MAX_INT && i != m.index
    ensures Get(EntryPersisted(data, m, size), AddressOfKey(i)) == Get(data, AddressOfKey(i))
  {
    if Decimal(i) == Decimal(m.index) { DecimalInjective(i, m.index); }
  }

  /** After any events an added member's slot and weight can be read from the store, which has the new
      size; the other slots are as they were in the store before the events. */
  method AddAfterEvents(c: CensusIMT, db: Store, events: seq<Events.Event>, a: Address, w: nat)
      returns (r: Outcome, r': Outcome)
    requires c.Valid() && c.db == db && |c.Now().leaves| + |events| < MAX_INT
    modifies c, c.tree, db
    ensures c.Valid() && c.tree == old(c.tree) && r == Events.ApplyEvents(old(c.Now()), events).1
    ensures var s := Events.ApplyEvents(old(c.Now()), events).0;
            && r' == (if a in s.addressIndex then Failed(AddressAlreadyExists)
                      else if w >= TWO_88 then Failed(Panicked)
                      else Done)
            && (r'.Done? ==>
              && c.Now() == Appended(s, a, w) && c.tree.dirty
              && SlotStored(db.data, |s.leaves|) && StoredAddress(db.data, |s.leaves|) == a
              && SetBytes(db.data[WeightKey(db.data[AddressOfKey(|s.leaves|)])]) == w
              && StoredCensusSize(db.data) == |s.leaves| + 1
              && forall i | 0 <= i < |s.leaves| :: Get(db.data, AddressOfKey(i)) == Get(old(db.data), AddressOfKey(i)))
  {
    r := c.ApplyEvents(events);
    ghost var n, data := |c.Now().leaves|, db.data;
    r' := c.Add(a, w);
    if r'.Done? { AddedSlot(data, Member(a, n, w)); }
  }

  lemma AddedSlot(data: Data, m: Member)
    requires m.index < MAX_INT
    ensures var after := EntryPersisted(data, m, m.index + 1);
            && SlotStored(after, m.index) && StoredAddress(after, m.index) == m.address
            && SetBytes(after[WeightKey(after[AddressOfKey(m.index)])]) == m.weight
            && StoredCensusSize(after) == m.index + 1
            && forall i | 0 <= i < m.index :: Get(after, AddressOfKey(i)) == Get(data, AddressOfKey(i))
  {
    PersistedIsReadable(data, m, m.index + 1);
    forall i | 0 <= i < m.index
      ensures Get(EntryPersisted(data, m, m.index + 1), AddressOfKey(i)) == Get(data, AddressOfKey(i))
    {
      OtherSlotUntouched(data, m, m.index + 1, i);
    }
  }

  /** One address joins an empty census by an event, and another one is added. */
  method JoinThenAdd(hasher: (nat, nat) -> nat, db: Store, a: Address, v: nat, b: Address, w: nat)
      returns (c: CensusIMT)
    requires db.data == map[] && a != 0 && a != b && 0 < v <= MAX_INT && w < TWO_88
    modifies db
    ensures fresh(c) && fresh(c.tree) && c.Valid() && c.db == db && c.hasher == hasher && c.tree.dirty
    ensures c.Now() == Appended(Appended(EMPTY, a, v), b, w)
    ensures StoredCensusSize(db.data) == 2 && Get(db.data, AddressOfKey(0)) == None
  {
    var created := CensusIMT.New(db, hasher, EMPTY);
    c := created.value;
    JoiningIsLost(EMPTY, a, v);
    var joined, added := AddAfterEvents(c, db, [Events.Event(a, 0, v)], b, w);
    assert Get(db.data, AddressOfKey(0)) == Get(map[], AddressOfKey(0));
  }

  /** So a census is not opened again in which a member joined by an event and another was added. */
  method JoinedThenAddedIsNotReopened(hasher: (nat, nat) -> nat, db: Store, a: Address, v: nat, b: Address, w: nat)
      returns (c: CensusIMT, d: Result<CensusIMT>)
    requires db.data == map[] && a != 0 && a != b && 0 < v <= MAX_INT && w < TWO_88
    modifies db
    ensures c.Valid() && c.db == db && c.Now() == Appended(Appended(EMPTY, a, v), b, w) && Inv(c.Now())
    ensures d == Err(CorruptedIndex)
  {
    c := JoinThenAdd(hasher, db, a, v, b, w);
    AppendKeepsInv(EMPTY, a, v);
    AppendKeepsInv(Appended(EMPTY, a, v), b, w);
    ghost var data := db.data;
    var synced := c.Sync();
    FirstSlotMissing(data, db.data, c.Now().leaves);
    d := CensusIMT.New(db, hasher, EMPTY);
  }

  lemma FirstSlotMissing(data: Data, after: Data, leaves: seq<nat>)
    requires TreeWritten(data, after, leaves, Encode) && SameOutsideTree(data, after) && |leaves| <= MAX_INT
    requires StoredCensusSize(data) > 0 && Get(data, AddressOfKey(0)) == None
    ensures Opened(after) == Err(CorruptedIndex)
  {
    WrittenLeavesReload(data, after, leaves);
    assert Get(after, AddressOfKey(0)) == None && Get(after, MetaCensusSize) == Get(data, MetaCensusSize);
    OpeningError(after, 0);
  }
}
