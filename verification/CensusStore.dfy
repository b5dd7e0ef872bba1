/** The stored form of a census: index, reverse index and weight of each member, and the size. */
module CensusStore {
  import opened Wrappers
  import opened Numerals
  import opened Storage
  import opened TreeStore
  import opened Packing
  import opened CensusState
  import opened Dumps
  import opened Imports

  function Encode(leaf: nat): Option<seq<byte>> {
    Some(BigIntEncoder(leaf))
  }

  function Decode(data: seq<byte>): Option<nat> {
    Some(BigIntDecoder(data))
  }

  /** The leaves of a census can be loaded back. */
  lemma LeavesReload(data: Data, leaves: seq<nat>)
    requires Holds(data, leaves, Encode)
    ensures StoredLeaves(data, Decode) == Ok(leaves)
  {
    forall i | 0 <= i < |leaves| ensures Decode(Encode(leaves[i]).value) == Some(leaves[i]) {
      BigIntRoundTrip(leaves[i]);
    }
    HeldLeavesReload(data, leaves, Encode, Decode);
  }

  /** Written leaves can be loaded back, whatever the store held before. */
  lemma WrittenLeavesReload(data: Data, after: Data, leaves: seq<nat>)
    requires TreeWritten(data, after, leaves, Encode) && |leaves| <= MAX_INT
    ensures StoredLeaves(after, Decode) == Ok(leaves)
  {
    DecodeDecimal(|leaves|);
    assert Get(after, MetaSize) == Some(Decimal(|leaves|)) && StoredSize(after) == |leaves|;
    ReadLeavesMeaning(after, Decode, |leaves|);
    forall i | 0 <= i < |leaves| ensures Readable(after, Decode, i) && Decode(after[LeafAt(i)]) == Some(leaves[i]) {
      assert Get(after, LeafAt(i)) == Encode(leaves[i]);
      BigIntRoundTrip(leaves[i]);
    }
    assert ReadLeaves(after, Decode, |leaves|).value == leaves;
  }

  function IndexOfKey(a: Address): Key {
    AddressKey(HexText(a))
  }

  function AddressOfKey(i: nat): Key {
    ReverseKey(Decimal(i))
  }

  function WeightOfKey(a: Address): Key {
    WeightKey(HexText(a))
  }

  function ParseAddress(text: seq<byte>): Address {
    FromHex(text) % TWO_160
  }

  lemma ParseHexText(a: Address)
    ensures ParseAddress(HexText(a)) == a
  {
    Widths();
    HexRoundTrip(a);
  }

  lemma HexTextInjective(a: Address, b: Address)
    requires HexText(a) == HexText(b)
    ensures a == b
  {
    ParseHexText(a);
    ParseHexText(b);
  }

  /** The three writes for a member. */
  function WithEntry(tx: Batch, a: Address, i: nat, w: nat): Batch {
    tx[IndexOfKey(a) := Some(Decimal(i))][AddressOfKey(i) := Some(HexText(a))][WeightOfKey(a) := Some(Bytes(w))]
  }

  /** A member to persist: address, slot and weight. */
  datatype Member = Member(address: Address, index: nat, weight: nat)

  function WithEntries(tx: Batch, members: seq<Member>): Batch {
    if members == [] then tx
    else
      var m := members[|members| - 1];
      WithEntry(WithEntries(tx, members[..|members| - 1]), m.address, m.index, m.weight)
  }

  function WithSize(tx: Batch, size: nat): Batch {
    tx[MetaCensusSize := Some(Decimal(size))]
  }

  ghost predicate AddressesHeld(data: Data, addressIndex: map<Address, nat>) {
    && (forall a | a in addressIndex :: Get(data, IndexOfKey(a)) == Some(Decimal(addressIndex[a])))
    && (forall k | k in data && k.AddressKey? :: exists a | a in addressIndex :: k == IndexOfKey(a))
  }

  ghost predicate SlotsHeld(data: Data, indexToAddress: map<nat, Address>) {
    && (forall i | i in indexToAddress :: Get(data, AddressOfKey(i)) == Some(HexText(indexToAddress[i])))
    && (forall k | k in data && k.ReverseKey? :: exists i | i in indexToAddress :: k == AddressOfKey(i))
  }

  ghost predicate WeightsHeld(data: Data, weights: map<Address, nat>) {
    && (forall a | a in weights :: Get(data, WeightOfKey(a)) == Some(Bytes(weights[a])))
    && (forall k | k in data && k.WeightKey? :: exists a | a in weights :: k == WeightOfKey(a))
  }

  /** The store holds the maps of s exactly. */
  ghost predicate MapsHeld(data: Data, s: State) {
    AddressesHeld(data, s.addressIndex) && SlotsHeld(data, s.indexToAddress) && WeightsHeld(data, s.weights)
  }

  ghost predicate SizeHeld(data: Data, size: nat) {
    Get(data, MetaCensusSize) == Some(Decimal(size)) || (size == 0 && Get(data, MetaCensusSize) == None)
  }

  /** Slot indices that have distinct texts. */
  ghost predicate SmallIndices(s: State) {
    forall i | i in s.indexToAddress :: i <= MAX_INT
  }

  lemma AddressEntryHeld(data: Data, after: Data, m: map<Address, nat>, a: Address, i: nat)
    requires AddressesHeld(data, m) && Get(after, IndexOfKey(a)) == Some(Decimal(i))
    requires forall k: Key | k.AddressKey? && k != IndexOfKey(a) :: Get(after, k) == Get(data, k)
    ensures AddressesHeld(after, m[a := i])
  {
    forall b | b in m && b != a ensures IndexOfKey(b) != IndexOfKey(a) {
      if HexText(a) == HexText(b) { HexTextInjective(a, b); }
    }
    forall k | k in after && k.AddressKey? ensures exists b | b in m[a := i] :: k == IndexOfKey(b) {
      if k == IndexOfKey(a) { assert a in m[a := i]; } else { assert Get(after, k) == Get(data, k); }
    }
  }

  lemma SlotEntryHeld(data: Data, after: Data, m: map<nat, Address>, i: nat, a: Address)
    requires SlotsHeld(data, m) && Get(after, AddressOfKey(i)) == Some(HexText(a))
    requires i <= MAX_INT && forall j | j in m :: j <= MAX_INT
    requires forall k: Key | k.ReverseKey? && k != AddressOfKey(i) :: Get(after, k) == Get(data, k)
    ensures SlotsHeld(after, m[i := a])
  {
    forall j | j in m && j != i ensures AddressOfKey(j) != AddressOfKey(i) {
      if Decimal(i) == Decimal(j) { DecimalInjective(i, j); }
    }
    forall k | k in after && k.ReverseKey? ensures exists j | j in m[i := a] :: k == AddressOfKey(j) {
      if k == AddressOfKey(i) { assert i in m[i := a]; } else { assert Get(after, k) == Get(data, k); }
    }
  }

  lemma WeightEntryHeld(data: Data, after: Data, m: map<Address, nat>, a: Address, w: nat)
    requires WeightsHeld(data, m) && Get(after, WeightOfKey(a)) == Some(Bytes(w))
    requires forall k: Key | k.WeightKey? && k != WeightOfKey(a) :: Get(after, k) == Get(data, k)
    ensures WeightsHeld(after, m[a := w])
  {
    forall b | b in m && b != a ensures WeightOfKey(b) != WeightOfKey(a) {
      if HexText(a) == HexText(b) { HexTextInjective(a, b); }
    }
    forall k | k in after && k.WeightKey? ensures exists b | b in m[a := w] :: k == WeightOfKey(b) {
      if k == WeightOfKey(a) { assert a in m[a := w]; } else { assert Get(after, k) == Get(data, k); }
    }
  }

  /** One store differs from another by the three writes of a member. */
  ghost predicate EntryWritten(data: Data, after: Data, m: Member) {
    forall k: Key :: Get(after, k) ==
      if k == IndexOfKey(m.address) then Some(Decimal(m.index))
      else if k == AddressOfKey(m.index) then Some(HexText(m.address))
      else if k == WeightOfKey(m.address) then Some(Bytes(m.weight))
      else Get(data, k)
  }

  /** Persisting a member keeps the maps held. */
  lemma EntryHeld(data: Data, after: Data, s: State, leaves: seq<nat>, m: Member)
    requires MapsHeld(data, s) && SmallIndices(s) && m.index <= MAX_INT && EntryWritten(data, after, m)
    ensures MapsHeld(after, Mapped(s, leaves, m.index, m.address, m.weight))
  {
    AddressEntryHeld(data, after, s.addressIndex, m.address, m.index);
    SlotEntryHeld(data, after, s.indexToAddress, m.index, m.address);
    WeightEntryHeld(data, after, s.weights, m.address, m.weight);
  }

  // ---------------------------------------------------------------- loading

  /** What loading the first count slots makes of a census, or the error it stops at. */
  function LoadedMaps(data: Data, was: State, count: nat): Result<State> {
    if count == 0 then Ok(was)
    else
      var r := LoadedMaps(data, was, count - 1);
      if r.Err? then r
      else
        var text := Get(data, AddressOfKey(count - 1));
        if text.None? then Err(CorruptedIndex)
        else
          var w := Get(data, WeightKey(text.value));
          if w.None? then Err(MissingWeight)
          else Ok(Mapped(r.value, was.leaves, count - 1, ParseAddress(text.value), SetBytes(w.value)))
  }

  /** All leaves, with the members of the slots below n. */
  function MembersBelow(s: State, n: nat): State {
    State(s.leaves,
          map a | a in s.addressIndex && s.addressIndex[a] < n :: s.addressIndex[a],
          map i | i in s.indexToAddress && i < n :: s.indexToAddress[i],
          map a | a in s.weights && a in s.addressIndex && s.addressIndex[a] < n :: s.weights[a])
  }

  lemma NextMember(s: State, n: nat)
    requires Inv(s) && n in s.indexToAddress
    ensures var a := s.indexToAddress[n];
            MembersBelow(s, n + 1) == Mapped(MembersBelow(s, n), s.leaves, n, a, s.weights[a])
  {
    var a := s.indexToAddress[n];
    var t, t' := MembersBelow(s, n + 1), Mapped(MembersBelow(s, n), s.leaves, n, a, s.weights[a]);
    forall b | b in s.addressIndex && b != a ensures s.addressIndex[b] != n {
      assert s.indexToAddress[s.addressIndex[b]] == b;
    }
    assert t.addressIndex == t'.addressIndex;
    assert t.indexToAddress == t'.indexToAddress;
    assert t.weights == t'.weights;
  }

  lemma NoStaleSlot(data: Data, s: State, i: nat)
    requires SlotsHeld(data, s.indexToAddress) && SmallIndices(s) && i <= MAX_INT && i !in s.indexToAddress
    ensures Get(data, AddressOfKey(i)) == None
  {
    forall j | j in s.indexToAddress ensures AddressOfKey(j) != AddressOfKey(i) {
      if Decimal(i) == Decimal(j) { DecimalInjective(i, j); }
    }
  }

  lemma LoadStep(data: Data, s: State, n: nat, next: nat)
    requires Inv(s) && MapsHeld(data, s) && n in s.indexToAddress && next == n + 1
    requires LoadedMaps(data, Forgotten(s.leaves), n) == Ok(MembersBelow(s, n))
    ensures LoadedMaps(data, Forgotten(s.leaves), next) == Ok(MembersBelow(s, next))
  {
    var a := s.indexToAddress[n];
    assert Get(data, AddressOfKey(n)) == Some(HexText(a));
    assert Get(data, WeightKey(HexText(a))) == Some(Bytes(s.weights[a]));
    ParseHexText(a);
    BytesRoundTrip(s.weights[a]);
    NextMember(s, n);
  }

  lemma NoMembersBelowZero(s: State)
    ensures MembersBelow(s, 0) == Forgotten(s.leaves)
  {
  }

  /** Loading slots that all have members. */
  lemma LoadsMembers(data: Data, s: State, n: nat)
    requires Inv(s) && MapsHeld(data, s) && forall i | 0 <= i < n :: i in s.indexToAddress
    ensures LoadedMaps(data, Forgotten(s.leaves), n) == Ok(MembersBelow(s, n))
  {
    NoMembersBelowZero(s);
    for k := 0 to n
      invariant LoadedMaps(data, Forgotten(s.leaves), k) == Ok(MembersBelow(s, k))
    {
      LoadStep(data, s, k, k + 1);
    }
  }

  lemma {:induction false} LoadStaysFailed(data: Data, was: State, m: nat, n: nat)
    requires m <= n && LoadedMaps(data, was, m).Err?
    ensures LoadedMaps(data, was, n) == LoadedMaps(data, was, m)
    decreases n
  {
    if m == n {
    } else {
      LoadStaysFailed(data, was, m, n - 1);
    }
  }

  /** Slot i has an address in the store, and that address a weight. */
  predicate SlotStored(data: Data, i: nat) {
    AddressOfKey(i) in data && WeightKey(data[AddressOfKey(i)]) in data
  }

  function StoredAddress(data: Data, i: nat): Address
    requires SlotStored(data, i)
  {
    ParseAddress(data[AddressOfKey(i)])
  }

  /** Loading succeeds exactly when every slot has its address and weight in the store; the slots are
      then mapped to these addresses and keep the leaves. */
  lemma {:induction false} LoadedMapsMeaning(data: Data, was: State, count: nat)
    ensures var r := LoadedMaps(data, was, count);
            && (r.Ok? <==> forall i | 0 <= i < count :: SlotStored(data, i))
            && (r.Ok? ==>
                  && (count > 0 ==> r.value.leaves == was.leaves)
                  && forall i | 0 <= i < count ::
                       i in r.value.indexToAddress && r.value.indexToAddress[i] == StoredAddress(data, i))
    decreases count
  {
    if count == 0 {
    } else {
      LoadedMapsMeaning(data, was, count - 1);
      assert SlotStored(data, count - 1) <==>
             AddressOfKey(count - 1) in data && WeightKey(data[AddressOfKey(count - 1)]) in data;
    }
  }

  /** An address is mapped to the last slot that names it, with the weight stored for it. */
  lemma {:induction false} LoadedMember(data: Data, was: State, count: nat, i: nat)
    requires i < count && LoadedMaps(data, was, count).Ok? && forall j | 0 <= j < count :: SlotStored(data, j)
    requires forall j | i < j < count :: StoredAddress(data, j) != StoredAddress(data, i)
    ensures var s, a := LoadedMaps(data, was, count).value, StoredAddress(data, i);
            && a in s.addressIndex && s.addressIndex[a] == i
            && a in s.weights && s.weights[a] == SetBytes(data[WeightKey(data[AddressOfKey(i)])])
    decreases count
  {
    if i == count - 1 {
    } else {
      LoadedMember(data, was, count - 1, i);
      assert StoredAddress(data, count - 1) != StoredAddress(data, i) && SlotStored(data, count - 1);
    }
  }

  /** Otherwise it stops at the first slot without an address or a weight, and says which. */
  lemma LoadingError(data: Data, was: State, count: nat, gap: nat)
    requires gap < count && !SlotStored(data, gap) && forall i | 0 <= i < gap :: SlotStored(data, i)
    ensures LoadedMaps(data, was, count) == Err(if AddressOfKey(gap) in data then MissingWeight else CorruptedIndex)
  {
    LoadedMapsMeaning(data, was, gap);
    LoadStaysFailed(data, was, gap + 1, count);
  }

  lemma LoadFailsAtGap(data: Data, s: State, gap: nat)
    requires Inv(s) && MapsHeld(data, s) && gap < |s.leaves| <= MAX_INT
    requires gap !in s.indexToAddress && forall i | 0 <= i < gap :: i in s.indexToAddress
    ensures LoadedMaps(data, Forgotten(s.leaves), |s.leaves|) == Err(CorruptedIndex)
  {
    assert LoadedMaps(data, Forgotten(s.leaves), gap + 1) == Err(CorruptedIndex) by {
      LoadsMembers(data, s, gap);
      NoStaleSlot(data, s, gap);
    }
    LoadStaysFailed(data, Forgotten(s.leaves), gap + 1, |s.leaves|);
  }

  lemma FirstGap(s: State) returns (gap: nat)
    requires !GapFree(s)
    ensures gap < |s.leaves| && gap !in s.indexToAddress && forall i | 0 <= i < gap :: i in s.indexToAddress
  {
    gap := 0;
    while gap in s.indexToAddress
      invariant gap < |s.leaves| && forall i | 0 <= i < gap :: i in s.indexToAddress
      decreases |s.leaves| - gap
    {
      gap := gap + 1;
    }
  }

  lemma AllMembers(s: State)
    requires Inv(s)
    ensures MembersBelow(s, |s.leaves|) == s
  {
  }

  ghost predicate GapFree(s: State) {
    forall i | 0 <= i < |s.leaves| :: i in s.indexToAddress
  }

  /** Reopening a census restores its maps exactly when no slot is empty; otherwise it fails. */
  lemma ReopenRestoresIffGapFree(data: Data, s: State)
    requires Inv(s) && MapsHeld(data, s) && SizeHeld(data, |s.leaves|) && |s.leaves| <= MAX_INT
    ensures StoredCensusSize(data) == |s.leaves|
    ensures LoadedMaps(data, Forgotten(s.leaves), |s.leaves|) == if GapFree(s) then Ok(s) else Err(CorruptedIndex)
  {
    DecodeDecimal(|s.leaves|);
    if GapFree(s) {
      LoadsMembers(data, s, |s.leaves|);
      AllMembers(s);
    } else {
      var gap := FirstGap(s);
      LoadFailsAtGap(data, s, gap);
    }
  }

  function StoredCensusSize(data: Data): int {
    if MetaCensusSize in data then DecodedInt(data[MetaCensusSize]) else 0
  }

  /** The census that opening a store gives, or the error: first the leaves, none if one is missing,
      then the maps. */
  function Opened(data: Data): Result<State> {
    var r := StoredLeaves(data, Decode);
    if r.Err? && r.error != KeyNotFound then Err(r.error)
    else
      var was := Forgotten(if r.Ok? then r.value else []);
      if StoredCensusSize(data) <= 0 then Ok(was) else LoadedMaps(data, was, StoredCensusSize(data))
  }

  /** Opening the store that a consistent census was synced to gives that census back exactly when
      it has no empty slot; otherwise it fails. */
  lemma SyncedStoreOpens(data: Data, s: State)
    requires Inv(s) && Agrees(data, s, s.leaves)
    ensures Opened(data) == if GapFree(s) then Ok(s) else Err(CorruptedIndex)
  {
    LeavesReload(data, s.leaves);
    ReopenRestoresIffGapFree(data, s);
    if s.leaves == [] { AllMembers(s); }
  }

  /** Loading the maps does not look at the leaves. */
  lemma {:induction false} LoadedOverOtherLeaves(data: Data, xs: seq<nat>, ys: seq<nat>, n: nat)
    ensures match LoadedMaps(data, Forgotten(xs), n)
            case Ok(s) => LoadedMaps(data, Forgotten(ys), n) == Ok(s.(leaves := ys))
            case Err(error) => LoadedMaps(data, Forgotten(ys), n) == Err(error)
    decreases n
  {
    if n == 0 {
    } else {
      LoadedOverOtherLeaves(data, xs, ys, n - 1);
    }
  }

  lemma MapsOverOtherLeaves(data: Data, s: State, leaves: seq<nat>)
    requires Inv(s) && MapsHeld(data, s) && SizeHeld(data, |s.leaves|) && |s.leaves| <= MAX_INT
    ensures StoredCensusSize(data) == |s.leaves|
    ensures LoadedMaps(data, Forgotten(leaves), |s.leaves|) ==
            if GapFree(s) then Ok(s.(leaves := leaves)) else Err(CorruptedIndex)
  {
    ReopenRestoresIffGapFree(data, s);
    LoadedOverOtherLeaves(data, s.leaves, leaves, |s.leaves|);
  }

  /** What opening gives when leaves were stored later than the maps, as applying events does: the
      old maps over the new leaves. */
  lemma LaterLeavesOpen(data: Data, s: State, leaves: seq<nat>)
    requires Inv(s) && MapsHeld(data, s) && SizeHeld(data, |s.leaves|) && |s.leaves| <= MAX_INT
    requires Holds(data, leaves, Encode)
    ensures Opened(data) == if GapFree(s) then Ok(s.(leaves := leaves)) else Err(CorruptedIndex)
  {
    assert StoredLeaves(data, Decode) == Ok(leaves) by { LeavesReload(data, leaves); }
    MapsOverOtherLeaves(data, s, leaves);
  }

  /** Old maps fit new leaves exactly when the old leaves are still there and only zeros follow. */
  lemma OldMapsFitIff(s: State, leaves: seq<nat>)
    requires Inv(s) && GapFree(s) && |s.leaves| <= |leaves|
    ensures Inv(s.(leaves := leaves)) <==>
            s.leaves <= leaves && forall i | |s.leaves| <= i < |leaves| :: leaves[i] == 0
  {
    var t := s.(leaves := leaves);
    forall i | 0 <= i < |s.leaves| ensures SlotOk(t, i) <==> leaves[i] == s.leaves[i] { assert SlotOk(s, i); }
    forall i | |s.leaves| <= i < |leaves| ensures SlotOk(t, i) <==> leaves[i] == 0 { }
    if s.leaves <= leaves {
      forall i | 0 <= i < |s.leaves| ensures leaves[i] == s.leaves[i] { }
    }
  }

  /** Opening a store whose leaves can be read fails at the first slot without an address or a weight. */
  lemma OpeningError(data: Data, gap: nat)
    requires StoredLeaves(data, Decode).Ok? && gap < StoredCensusSize(data)
    requires !SlotStored(data, gap) && forall i | 0 <= i < gap :: SlotStored(data, i)
    ensures Opened(data) == Err(if AddressOfKey(gap) in data then MissingWeight else CorruptedIndex)
  {
    LoadingError(data, Forgotten(StoredLeaves(data, Decode).value), StoredCensusSize(data), gap);
  }

  /** A store in which a leaf is missing is opened without any leaves, but still with its maps. */
  lemma MissingLeafDropsAll(data: Data, bad: nat)
    requires bad < StoredSize(data) && LeafAt(bad) !in data && forall i | 0 <= i < bad :: LeafAt(i) in data
    ensures StoredCensusSize(data) <= 0 ==> Opened(data) == Ok(EMPTY)
    ensures StoredCensusSize(data) > 0 ==> Opened(data) == LoadedMaps(data, EMPTY, StoredCensusSize(data))
  {
    ReadLeavesError(data, Decode, StoredSize(data), bad);
  }

  // ---------------------------------------------------------------- one store, tree and maps together

  /** The store of a census: leaves stored at the last sync of its tree, maps and size as they are
      now, and nothing else. */
  ghost predicate Agrees(data: Data, s: State, stored: seq<nat>) {
    && Holds(data, stored, Encode) && |stored| <= |s.leaves| <= MAX_INT
    && MapsHeld(data, s) && SizeHeld(data, |s.leaves|)
  }

  function LeafKeys(size: nat): set<Key> {
    set i | 0 <= i < size :: LeafAt(i)
  }

  function MemberKeys(addresses: set<Address>): set<Key> {
    (set a | a in addresses :: IndexOfKey(a)) + (set a | a in addresses :: WeightOfKey(a))
  }

  function SlotKeys(slots: set<nat>): set<Key> {
    set i | i in slots :: AddressOfKey(i)
  }

  /** The keys that a reset deletes: the metadata, the leaves, and those of the members and slots that
      the memory knows. */
  function KnownKeys(s: State): set<Key> {
    {MetaSize, MetaVersion, MetaCensusSize} + LeafKeys(|s.leaves|)
    + MemberKeys(s.addressIndex.Keys) + SlotKeys(s.indexToAddress.Keys)
  }

  /** What a reset leaves in the store. */
  function ResetData(data: Data, s: State): Data {
    data - KnownKeys(s)
  }

  lemma MemberKeysKnown(s: State, a: Address)
    requires a in s.addressIndex
    ensures IndexOfKey(a) in KnownKeys(s) && WeightOfKey(a) in KnownKeys(s)
  {
    assert a in s.addressIndex.Keys;
    assert IndexOfKey(a) in MemberKeys(s.addressIndex.Keys) && WeightOfKey(a) in MemberKeys(s.addressIndex.Keys);
  }

  lemma SlotKeyKnown(s: State, i: nat)
    requires i in s.indexToAddress
    ensures AddressOfKey(i) in KnownKeys(s)
  {
    assert i in s.indexToAddress.Keys;
    assert AddressOfKey(i) in SlotKeys(s.indexToAddress.Keys);
  }

  /** The leaf keys of a store are those of existing slots. */
  ghost predicate LeavesBelow(data: Data, size: nat) {
    forall k | k in data && k.LeafKey? :: exists i | 0 <= i < size :: k == LeafAt(i)
  }

  /** A stored key is known to t, if t knows the members and slots of s, which the store holds. */
  lemma KeyKnown(data: Data, s: State, t: State, k: Key)
    requires MapsHeld(data, s) && s.weights.Keys == s.addressIndex.Keys && LeavesBelow(data, |t.leaves|) && k in data
    requires s.addressIndex.Keys <= t.addressIndex.Keys && s.indexToAddress.Keys <= t.indexToAddress.Keys
    ensures k in KnownKeys(t)
  {
    match k
    case LeafKey(_) => assert k in LeafKeys(|t.leaves|);
    case AddressKey(_) =>
      var a :| a in s.addressIndex && k == IndexOfKey(a);
      assert a in s.addressIndex.Keys;
      MemberKeysKnown(t, a);
    case ReverseKey(_) =>
      var i :| i in s.indexToAddress && k == AddressOfKey(i);
      assert i in s.indexToAddress.Keys;
      SlotKeyKnown(t, i);
    case WeightKey(_) =>
      var a :| a in s.weights && k == WeightOfKey(a);
      assert a in s.weights.Keys;
      MemberKeysKnown(t, a);
    case _ =>
  }

  lemma AllKeysKnown(data: Data, s: State, t: State)
    requires MapsHeld(data, s) && s.weights.Keys == s.addressIndex.Keys && LeavesBelow(data, |t.leaves|)
    requires s.addressIndex.Keys <= t.addressIndex.Keys && s.indexToAddress.Keys <= t.indexToAddress.Keys
    ensures ResetData(data, t) == map[]
  {
    forall k | k in data ensures k in KnownKeys(t) { KeyKnown(data, s, t, k); }
  }

  /** A store that agrees with the census is emptied. */
  lemma ResetEmptiesStore(data: Data, s: State, stored: seq<nat>)
    requires Agrees(data, s, stored) && s.weights.Keys == s.addressIndex.Keys
    ensures ResetData(data, s) == map[]
  {
    AllKeysKnown(data, s, s);
  }

  /** Applying events leaves the stored maps of before. A reset then empties the store exactly when
      nobody has left and no slot was emptied: the keys of those are not known any more. */
  lemma ResetAfterEventsIff(data: Data, s: State, t: State)
    requires Inv(s) && MapsHeld(data, s) && SmallIndices(s) && SmallIndices(t)
    requires LeavesBelow(data, |t.leaves|)
    ensures ResetData(data, t) == map[] <==>
            s.addressIndex.Keys <= t.addressIndex.Keys && s.indexToAddress.Keys <= t.indexToAddress.Keys
  {
    if s.addressIndex.Keys <= t.addressIndex.Keys && s.indexToAddress.Keys <= t.indexToAddress.Keys {
      AllKeysKnown(data, s, t);
    } else {
      SomeKeyForgotten(data, s, t);
    }
  }

  lemma ForgottenMemberKey(s: State, a: Address)
    requires a !in s.addressIndex
    ensures IndexOfKey(a) !in KnownKeys(s) && WeightOfKey(a) !in KnownKeys(s)
  {
    forall b | b in s.addressIndex ensures HexText(b) != HexText(a) {
      if HexText(b) == HexText(a) { HexTextInjective(a, b); }
    }
  }

  lemma ForgottenSlotKey(s: State, i: nat)
    requires SmallIndices(s) && i <= MAX_INT && i !in s.indexToAddress
    ensures AddressOfKey(i) !in KnownKeys(s)
  {
    forall j | j in s.indexToAddress ensures Decimal(j) != Decimal(i) {
      if Decimal(i) == Decimal(j) { DecimalInjective(i, j); }
    }
  }

  lemma LaterLeafKey(s: State, i: nat)
    requires |s.leaves| <= i <= MAX_INT
    ensures LeafAt(i) !in KnownKeys(s)
  {
    forall j | 0 <= j < |s.leaves| ensures Decimal(j) != Decimal(i) {
      if Decimal(i) == Decimal(j) { DecimalInjective(i, j); }
    }
  }

  /** A reset keeps the keys of other addresses, unmapped slots and later leaves. */
  lemma ResetKeepsOthers(data: Data, s: State, a: Address, i: nat, j: nat)
    requires a !in s.addressIndex && SmallIndices(s) && i !in s.indexToAddress && i <= MAX_INT
    requires |s.leaves| <= j <= MAX_INT
    ensures forall k | k in {IndexOfKey(a), WeightOfKey(a), AddressOfKey(i), LeafAt(j)} ::
              Get(ResetData(data, s), k) == Get(data, k)
  {
    ForgottenMemberKey(s, a);
    ForgottenSlotKey(s, i);
    LaterLeafKey(s, j);
  }

  lemma SomeKeyForgotten(data: Data, s: State, t: State)
    requires MapsHeld(data, s) && SmallIndices(s) && SmallIndices(t)
    requires !(s.addressIndex.Keys <= t.addressIndex.Keys && s.indexToAddress.Keys <= t.indexToAddress.Keys)
    ensures ResetData(data, t) != map[]
  {
    if a :| a in s.addressIndex && a !in t.addressIndex {
      ForgottenMemberKey(t, a);
      assert Get(data, IndexOfKey(a)).Some?;
      assert IndexOfKey(a) in ResetData(data, t);
    } else {
      var i :| i in s.indexToAddress && i !in t.indexToAddress;
      ForgottenSlotKey(t, i);
      assert Get(data, AddressOfKey(i)).Some?;
      assert AddressOfKey(i) in ResetData(data, t);
    }
  }

  lemma SameLeavesHeld(data: Data, after: Data, stored: seq<nat>)
    requires Holds(data, stored, Encode)
    requires forall k: Key | k.LeafKey? || k == MetaSize :: Get(after, k) == Get(data, k)
    ensures Holds(after, stored, Encode)
  {
  }

  lemma SameMapsHeld(data: Data, after: Data, s: State)
    requires MapsHeld(data, s)
    requires forall k: Key | k.AddressKey? || k.ReverseKey? || k.WeightKey? :: Get(after, k) == Get(data, k)
    ensures MapsHeld(after, s)
  {
  }

  ghost predicate OnlyMembers(tx: Batch) {
    forall k | k in tx :: k.AddressKey? || k.ReverseKey? || k.WeightKey?
  }

  lemma CommittedSize(data: Data, tx: Batch, size: nat)
    requires OnlyMembers(tx)
    ensures var maps, after := Committed(data, tx), Committed(data, WithSize(tx, size));
            && (forall k | k != MetaCensusSize :: Get(after, k) == Get(maps, k))
            && Get(after, MetaCensusSize) == Some(Decimal(size))
            && (forall k: Key | k.LeafKey? || k == MetaSize :: Get(after, k) == Get(data, k))
  {
  }

  /** Committing members and a size keeps the agreement, if the members alone keep the maps held. */
  lemma AgreesAfterCommit(data: Data, stored: seq<nat>, t: State, tx: Batch)
    requires Holds(data, stored, Encode) && |stored| <= |t.leaves| <= MAX_INT && OnlyMembers(tx)
    requires MapsHeld(Committed(data, tx), t)
    ensures Agrees(Committed(data, WithSize(tx, |t.leaves|)), t, stored)
  {
    var maps, after := Committed(data, tx), Committed(data, WithSize(tx, |t.leaves|));
    CommittedSize(data, tx, |t.leaves|);
    SameLeavesHeld(data, after, stored);
    SameMapsHeld(maps, after, t);
  }

  /** Syncing the tree keeps the maps. */
  lemma AgreesAfterSync(data: Data, after: Data, s: State, stored: seq<nat>)
    requires Agrees(data, s, stored) && SameOutsideTree(data, after) && Holds(after, s.leaves, Encode)
    ensures Agrees(after, s, s.leaves)
  {
    SameMapsHeld(data, after, s);
    assert Get(after, MetaCensusSize) == Get(data, MetaCensusSize);
  }

  // ---------------------------------------------------------------- several members in one transaction

  /** The maps after mapping several members in order. */
  function MappedAll(s: State, members: seq<Member>): State {
    if members == [] then s
    else
      var m := members[|members| - 1];
      Mapped(MappedAll(s, members[..|members| - 1]), s.leaves, m.index, m.address, m.weight)
  }

  /** The state t is held once tx is committed, and tx writes members only. */
  ghost predicate HeldBy(data: Data, tx: Batch, t: State) {
    MapsHeld(Committed(data, tx), t) && SmallIndices(t) && OnlyMembers(tx)
  }

  lemma EntryIsWritten(data: Data, tx: Batch, m: Member)
    ensures EntryWritten(Committed(data, tx), Committed(data, WithEntry(tx, m.address, m.index, m.weight)), m)
  {
  }

  lemma OneMoreEntryHeld(data: Data, tx: Batch, t: State, leaves: seq<nat>, m: Member)
    requires HeldBy(data, tx, t) && m.index <= MAX_INT
    ensures HeldBy(data, WithEntry(tx, m.address, m.index, m.weight), Mapped(t, leaves, m.index, m.address, m.weight))
  {
    var tx' := WithEntry(tx, m.address, m.index, m.weight);
    assert MapsHeld(Committed(data, tx'), Mapped(t, leaves, m.index, m.address, m.weight)) by {
      EntryIsWritten(data, tx, m);
      EntryHeld(Committed(data, tx), Committed(data, tx'), t, leaves, m);
    }
    StillOnlyMembers(tx, m);
  }

  lemma StillOnlyMembers(tx: Batch, m: Member)
    requires OnlyMembers(tx)
    ensures OnlyMembers(WithEntry(tx, m.address, m.index, m.weight))
  {
  }

  lemma {:induction false} EntriesHeld(data: Data, s: State, members: seq<Member>)
    requires HeldBy(data, map[], s) && forall k | 0 <= k < |members| :: members[k].index <= MAX_INT
    ensures HeldBy(data, WithEntries(map[], members), MappedAll(s, members))
    decreases |members|
  {
    if members == [] {
    } else {
      var init, m := members[..|members| - 1], members[|members| - 1];
      EntriesHeld(data, s, init);
      OneMoreEntryHeld(data, WithEntries(map[], init), MappedAll(s, init), s.leaves, m);
    }
  }

  lemma CommitNothing(data: Data)
    ensures Committed(data, map[]) == data
  {
  }

  /** The members of a bulk addition, from slot start on. */
  function BulkMembers(start: nat, addresses: seq<Address>, weights: seq<nat>): (ms: seq<Member>)
    requires |addresses| == |weights|
    ensures |ms| == |addresses|
    ensures forall k | 0 <= k < |ms| :: ms[k] == Member(addresses[k], start + k, weights[k])
  {
    seq(|addresses|, k requires 0 <= k < |addresses| => Member(addresses[k], start + k, weights[k]))
  }

  lemma {:induction false} BulkMaps(s: State, addresses: seq<Address>, weights: seq<nat>)
    requires |addresses| == |weights|
    ensures AppendedAll(s, addresses, weights).(leaves := s.leaves) ==
            MappedAll(s, BulkMembers(|s.leaves|, addresses, weights))
    decreases |addresses|
  {
    if addresses == [] {
    } else {
      var k := |addresses| - 1;
      BulkMaps(s, addresses[..k], weights[..k]);
      assert BulkMembers(|s.leaves|, addresses, weights)[..k] == BulkMembers(|s.leaves|, addresses[..k], weights[..k]);
    }
  }

  lemma NothingHeld(data: Data, s: State, stored: seq<nat>)
    requires Agrees(data, s, stored) && Inv(s)
    ensures HeldBy(data, map[], s)
  {
  }

  /** A store after one member was persisted. */
  function EntryPersisted(data: Data, m: Member, size: nat): Data {
    Committed(data, WithSize(WithEntry(map[], m.address, m.index, m.weight), size))
  }

  /** A store after members were persisted in bulk, from slot start on. */
  function BulkPersisted(data: Data, start: nat, addresses: seq<Address>, weights: seq<nat>): Data
    requires |addresses| == |weights|
  {
    Committed(data, WithSize(WithEntries(map[], BulkMembers(start, addresses, weights)), start + |addresses|))
  }

  /** What persisting a member does to any store: its slot, its weight and the size can be read back,
      and nothing else changes. */
  lemma PersistedIsReadable(data: Data, m: Member, size: nat)
    requires size <= MAX_INT
    ensures var after := EntryPersisted(data, m, size);
            && SlotStored(after, m.index) && StoredAddress(after, m.index) == m.address
            && SetBytes(after[WeightKey(after[AddressOfKey(m.index)])]) == m.weight
            && Get(after, IndexOfKey(m.address)) == Some(Decimal(m.index)) && StoredCensusSize(after) == size
            && forall k | k != MetaCensusSize &&
                         k !in {IndexOfKey(m.address), AddressOfKey(m.index), WeightOfKey(m.address)} ::
                 Get(after, k) == Get(data, k)
  {
    var tx := WithSize(WithEntry(map[], m.address, m.index, m.weight), size);
    var after := Committed(data, tx);
    assert Get(after, AddressOfKey(m.index)) == Some(HexText(m.address));
    assert Get(after, WeightOfKey(m.address)) == Some(Bytes(m.weight));
    assert Get(after, MetaCensusSize) == Some(Decimal(size));
    ParseHexText(m.address);
    BytesRoundTrip(m.weight);
    DecodeDecimal(size);
  }

  lemma EntryCommitted(data: Data, tx: Batch, size: nat, k: Key)
    requires k in tx && k != MetaCensusSize
    ensures Get(Committed(data, WithSize(tx, size)), k) == tx[k]
    ensures Get(Committed(data, WithSize(tx, size)), MetaCensusSize) == Some(Decimal(size))
  {
  }

  /** The texts of an address and a weight are read back. */
  lemma StoredPair(data: Data, i: nat, a: Address, w: nat)
    requires Get(data, AddressOfKey(i)) == Some(HexText(a)) && Get(data, WeightOfKey(a)) == Some(Bytes(w))
    ensures SlotStored(data, i) && StoredAddress(data, i) == a
    ensures SetBytes(data[WeightKey(data[AddressOfKey(i)])]) == w
  {
    ParseHexText(a);
    BytesRoundTrip(w);
  }

  lemma {:induction false} EntriesHold(members: seq<Member>, k: nat)
    requires k < |members| && forall j | k < j < |members| ::
               members[j].address != members[k].address && members[j].index != members[k].index
    requires forall j | 0 <= j < |members| :: members[j].index <= MAX_INT
    ensures var m, tx := members[k], WithEntries(map[], members);
            && AddressOfKey(m.index) in tx && tx[AddressOfKey(m.index)] == Some(HexText(m.address))
            && WeightOfKey(m.address) in tx && tx[WeightOfKey(m.address)] == Some(Bytes(m.weight))
    decreases |members|
  {
    var n := |members| - 1;
    if k == n {
    } else {
      var m, last := members[k], members[n];
      EntriesHold(members[..n], k);
      if Decimal(m.index) == Decimal(last.index) { DecimalInjective(m.index, last.index); }
      if HexText(m.address) == HexText(last.address) { HexTextInjective(m.address, last.address); }
    }
  }

  lemma LastOfItsKindReadable(data: Data, members: seq<Member>, size: nat, k: nat)
    requires k < |members| && size <= MAX_INT
    requires forall j | k < j < |members| ::
               members[j].address != members[k].address && members[j].index != members[k].index
    requires forall j | 0 <= j < |members| :: members[j].index <= MAX_INT
    ensures var m, after := members[k], Committed(data, WithSize(WithEntries(map[], members), size));
            && SlotStored(after, m.index) && StoredAddress(after, m.index) == m.address
            && SetBytes(after[WeightKey(after[AddressOfKey(m.index)])]) == m.weight
            && StoredCensusSize(after) == size
  {
    var m, tx := members[k], WithEntries(map[], members);
    EntriesHold(members, k);
    EntryCommitted(data, tx, size, AddressOfKey(m.index));
    EntryCommitted(data, tx, size, WeightOfKey(m.address));
    StoredPair(Committed(data, WithSize(tx, size)), m.index, m.address, m.weight);
    DecodeDecimal(size);
  }

  /** The same for every member persisted in bulk, if the addresses differ. */
  lemma BulkPersistedIsReadable(data: Data, start: nat, addresses: seq<Address>, weights: seq<nat>, k: nat)
    requires |addresses| == |weights| && start + |addresses| <= MAX_INT && k < |addresses| && Distinct(addresses)
    ensures var after := BulkPersisted(data, start, addresses, weights);
            && SlotStored(after, start + k) && StoredAddress(after, start + k) == addresses[k]
            && SetBytes(after[WeightKey(after[AddressOfKey(start + k)])]) == weights[k]
            && StoredCensusSize(after) == start + |addresses|
  {
    LastOfItsKindReadable(data, BulkMembers(start, addresses, weights), start + |addresses|, k);
  }

  /** Persisting one member keeps the agreement of store and memory. */
  lemma AgreesAfterEntry(data: Data, s: State, stored: seq<nat>, t: State, m: Member)
    requires Agrees(data, s, stored) && Inv(s) && m.index < |t.leaves| && |s.leaves| <= |t.leaves| <= MAX_INT
    requires t == Mapped(s, t.leaves, m.index, m.address, m.weight)
    ensures Agrees(Committed(data, WithSize(WithEntry(map[], m.address, m.index, m.weight), |t.leaves|)), t, stored)
  {
    NothingHeld(data, s, stored);
    OneMoreEntryHeld(data, map[], s, t.leaves, m);
    AgreesAfterCommit(data, stored, t, WithEntry(map[], m.address, m.index, m.weight));
  }

  /** Persisting members in bulk keeps the agreement of store and memory. */
  lemma AgreesAfterBulk(data: Data, s: State, stored: seq<nat>, addresses: seq<Address>, weights: seq<nat>)
    requires Agrees(data, s, stored) && Inv(s) && |addresses| == |weights| && |s.leaves| + |addresses| <= MAX_INT
    ensures var t := AppendedAll(s, addresses, weights);
            var tx := WithEntries(map[], BulkMembers(|s.leaves|, addresses, weights));
            Agrees(Committed(data, WithSize(tx, |t.leaves|)), t, stored)
  {
    var members := BulkMembers(|s.leaves|, addresses, weights);
    NothingHeld(data, s, stored);
    EntriesHeld(data, s, members);
    BulkMaps(s, addresses, weights);
    AgreesAfterCommit(data, stored, AppendedAll(s, addresses, weights), WithEntries(map[], members));
  }

  // ---------------------------------------------------------------- imported members

  /** The participants an import records, in order. */
  function Named(ps: seq<Participant>): (r: seq<Participant>)
    ensures forall k | 0 <= k < |r| :: !IsEmptyParticipant(r[k]) && r[k] in ps
  {
    if ps == [] then []
    else
      var k := |ps| - 1;
      Named(ps[..k]) + if IsEmptyParticipant(ps[k]) then [] else [ps[k]]
  }

  /** The members that an import persists, each with the slot its address maps to. */
  function ImportedMembers(named: seq<Participant>, index: map<Address, nat>): (ms: seq<Member>)
    requires forall k | 0 <= k < |named| :: named[k].address in index
    ensures |ms| == |named|
    ensures forall k | 0 <= k < |ms| :: ms[k] == Member(named[k].address, index[named[k].address], named[k].weight)
  {
    seq(|named|, k requires 0 <= k < |named| => Member(named[k].address, index[named[k].address], named[k].weight))
  }

  function ParticipantMembers(named: seq<Participant>): (ms: seq<Member>)
    ensures |ms| == |named|
    ensures forall k | 0 <= k < |ms| :: ms[k] == Member(named[k].address, named[k].index, named[k].weight)
  {
    seq(|named|, k requires 0 <= k < |named| => Member(named[k].address, named[k].index, named[k].weight))
  }

  lemma PlaceMaps(s: State, p: Participant)
    requires Place(s, p).1 == Done
    ensures Place(s, p).0.(leaves := []) ==
            if IsEmptyParticipant(p) then s.(leaves := [])
            else Mapped(s.(leaves := []), [], p.index, p.address, p.weight)
  {
  }

  lemma {:induction false} ImportedMaps(ps: seq<Participant>)
    requires PlaceAll(ps).1 == Done
    ensures PlaceAll(ps).0.(leaves := []) == MappedAll(EMPTY, ParticipantMembers(Named(ps)))
    decreases |ps|
  {
    if ps == [] {
    } else {
      var init, p := ps[..|ps| - 1], ps[|ps| - 1];
      ImportedMaps(init);
      PlaceMaps(PlaceAll(init).0, p);
      if IsEmptyParticipant(p) {
        assert Named(ps) == Named(init);
      } else {
        var ms := ParticipantMembers(Named(ps));
        assert ms[..|ms| - 1] == ParticipantMembers(Named(init));
        assert ms[|ms| - 1] == Member(p.address, p.index, p.weight);
      }
    }
  }

  /** Every recorded participant is mapped; when all fit, to its own index. */
  lemma {:induction false} NamedAreMapped(ps: seq<Participant>, k: nat)
    requires PlaceAll(ps).1 == Done && k < |Named(ps)|
    ensures var p, s := Named(ps)[k], PlaceAll(ps).0;
            p.address in s.addressIndex && (Fitting(ps) ==> s.addressIndex[p.address] == p.index)
    decreases |ps|
  {
    var init, last := ps[..|ps| - 1], ps[|ps| - 1];
    if k < |Named(init)| {
      NamedAreMapped(init, k);
      if Fitting(ps) { FittingInit(ps); }
      var p := Named(init)[k];
      var j :| 0 <= j < |init| && init[j] == p;
      assert ps[j] == p;
    }
  }

  lemma NamedAreAllMapped(ps: seq<Participant>)
    requires PlaceAll(ps).1 == Done
    ensures forall k | 0 <= k < |Named(ps)| :: Named(ps)[k].address in PlaceAll(ps).0.addressIndex
  {
    forall k | 0 <= k < |Named(ps)| ensures Named(ps)[k].address in PlaceAll(ps).0.addressIndex {
      NamedAreMapped(ps, k);
    }
  }

  /** What an import makes of a store. */
  function ImportedOver(data: Data, ps: seq<Participant>): Data
    requires PlaceAll(ps).1 == Done
  {
    var s, named := PlaceAll(ps).0, Named(ps);
    NamedAreAllMapped(ps);
    Committed(data, WithSize(WithEntries(map[], ImportedMembers(named, s.addressIndex)), |s.leaves|))
  }

  /** What an import persists into an empty store agrees with the imported census, if that is
      consistent. */
  lemma ImportAgrees(ps: seq<Participant>)
    requires Fitting(ps) && PlaceAll(ps).1 == Done && |PlaceAll(ps).0.leaves| <= MAX_INT
    ensures Agrees(ImportedOver(map[], ps), PlaceAll(ps).0, [])
  {
    var s, named := PlaceAll(ps).0, Named(ps);
    NamedAreAllMapped(ps);
    var members := ImportedMembers(named, s.addressIndex);
    ImportKeepsInv(ps);
    forall k | 0 <= k < |named| ensures members[k] == ParticipantMembers(named)[k] && members[k].index <= MAX_INT {
      NamedAreMapped(ps, k);
    }
    assert members == ParticipantMembers(named);
    ImportedMaps(ps);
    CommitNothing(map[]);
    EntriesHeld(map[], EMPTY, members);
    AgreesAfterCommit(map[], [], s, WithEntries(map[], members));
  }
}
