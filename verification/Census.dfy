/** The census object: a tree of packed members, three maps over it, and a store. */
module Census {
  import opened Wrappers
  import opened Numerals
  import opened Storage
  import opened TreeStore
  import opened LeanTree
  import opened Proofs
  import opened IncrementalTree
  import opened Packing
  import opened CensusState
  import opened CensusStore
  import opened Dumps
  import opened Imports
  import Events

  /** A member's proof: the tree proof of its slot, and who it is about. */
  datatype CensusProof = CensusProof(root: nat, siblings: seq<nat>, pathBits: uint64, addressIndex: nat,
                                     address: Address, weight: nat)

  /** A full export. The time of the export is left out. */
  datatype CensusDump = CensusDump(root: nat, totalParticipants: nat, totalWeight: nat, participants: seq<Participant>)

  const BATCH_THRESHOLD: nat := 10000

  /** The packed values of a bulk addition. */
  function PackedAll(addresses: seq<Address>, weights: seq<nat>): (ps: seq<nat>)
    requires |addresses| == |weights|
    ensures |ps| == |addresses| && forall k | 0 <= k < |ps| :: ps[k] == Packed(addresses[k], weights[k])
  {
    seq(|addresses|, k requires 0 <= k < |addresses| => Packed(addresses[k], weights[k]))
  }

  lemma {:induction false} BulkLeaves(s: State, addresses: seq<Address>, weights: seq<nat>)
    requires |addresses| == |weights|
    ensures AppendedAll(s, addresses, weights).leaves == s.leaves + PackedAll(addresses, weights)
    decreases |addresses|
  {
    if addresses == [] {
    } else {
      var k := |addresses| - 1;
      BulkLeaves(s, addresses[..k], weights[..k]);
      var init := PackedAll(addresses[..k], weights[..k]);
      assert PackedAll(addresses, weights) == init + [Packed(addresses[k], weights[k])];
    }
  }

  /** The number of members in the slots below n. */
  function MemberCount(s: State, n: nat): nat {
    if n == 0 then 0 else MemberCount(s, n - 1) + if n - 1 in s.indexToAddress then 1 else 0
  }

  function TotalWeight(s: State, n: nat): nat
    requires forall i | 0 <= i < n :: HasWeight(s, i)
  {
    if n == 0 then 0 else TotalWeight(s, n - 1) + Entry(s, n - 1).weight
  }

  /** The range of slots that a ranged dump emits, from a census of the given size. */
  function DumpedRange(offset: int, limit: int, size: nat): (range: (nat, nat))
    requires offset <= MAX_INT && limit <= MAX_INT
    ensures range.0 <= range.1 && (range.1 <= size || range.0 == range.1)
  {
    var start := if offset < 0 then 0 else offset;
    if start >= size then (start, start)
    else if limit < 0 then (start, size)
    else if start + limit > MAX_INT then (start, start)
    else (start, Min(start + limit, size))
  }

  /** The number of participants of a full export is the number of members. */
  lemma {:induction false} MembersBelowCounted(s: State, n: nat, below: set<Address>)
    requires Inv(s) && forall a: Address :: a in below <==> a in s.addressIndex && s.addressIndex[a] < n
    ensures |below| == MemberCount(s, n)
    decreases n
  {
    if n == 0 {
      assert below == {};
    } else if n - 1 in s.indexToAddress {
      MembersBelowCounted(s, n - 1, below - {s.indexToAddress[n - 1]});
    } else {
      MembersBelowCounted(s, n - 1, below);
    }
  }

  /** The totals of a dump, slot by slot, in any census. */
  lemma TotalsSlotBySlot(s: State, n: nat)
    requires HasWeight(s, n) && forall i | 0 <= i < n :: HasWeight(s, i)
    ensures MemberCount(s, 0) == 0 && TotalWeight(s, 0) == 0
    ensures n in s.indexToAddress ==>
              && MemberCount(s, n + 1) == MemberCount(s, n) + 1
              && TotalWeight(s, n + 1) == TotalWeight(s, n) + s.weights[s.indexToAddress[n]]
    ensures n !in s.indexToAddress ==>
              MemberCount(s, n + 1) == MemberCount(s, n) && TotalWeight(s, n + 1) == TotalWeight(s, n)
  {
  }

  lemma TotalParticipantsIsMembers(s: State)
    requires Inv(s)
    ensures MemberCount(s, |s.leaves|) == |s.addressIndex|
  {
    MembersBelowCounted(s, |s.leaves|, s.addressIndex.Keys);
  }

  /** The sum of the weights in a map. */
  ghost function Sum(weights: map<Address, nat>): nat {
    if weights == map[] then 0
    else
      var a :| a in weights;
      weights[a] + Sum(weights - {a})
  }

  /** It does not matter in which order the weights are added. */
  lemma {:induction false} SumTakes(weights: map<Address, nat>, b: Address)
    requires b in weights
    ensures Sum(weights) == weights[b] + Sum(weights - {b})
    decreases |weights|
  {
    var a :| a in weights && Sum(weights) == weights[a] + Sum(weights - {a});
    if a == b {
    } else {
      SumTakes(weights - {a}, b);
      SumTakes(weights - {b}, a);
      assert weights - {a} - {b} == weights - {b} - {a};
    }
  }

  lemma {:induction false} WeightsBelowSummed(s: State, n: nat, below: map<Address, nat>)
    requires Inv(s) && forall i | 0 <= i < n :: HasWeight(s, i)
    requires forall a: Address :: a in below <==> a in s.addressIndex && s.addressIndex[a] < n
    requires forall a | a in below :: a in s.weights && below[a] == s.weights[a]
    ensures TotalWeight(s, n) == Sum(below)
    decreases n
  {
    if n == 0 {
      assert below == map[];
    } else if n - 1 in s.indexToAddress {
      var a := s.indexToAddress[n - 1];
      WeightsBelowSummed(s, n - 1, below - {a});
      SumTakes(below, a);
    } else {
      WeightsBelowSummed(s, n - 1, below);
    }
  }

  /** The total weight of a full export is the sum of the weights map. */
  lemma TotalWeightIsSum(s: State)
    requires Inv(s) && forall i | 0 <= i < |s.leaves| :: HasWeight(s, i)
    ensures TotalWeight(s, |s.leaves|) == Sum(s.weights)
  {
    WeightsBelowSummed(s, |s.leaves|, s.weights);
  }

  /** The range a ranged dump is documented to emit. */
  function DocumentedRange(offset: int, limit: int, size: nat): (nat, nat) {
    var start := if offset < 0 then 0 else offset;
    if start >= size then (start, start)
    else (start, if limit < 0 then size else Min(start + limit, size))
  }

  /** The documented range is emitted exactly when offset and limit do not overflow. */
  lemma RangeIsDocumentedIff(offset: int, limit: int, size: nat)
    requires offset <= MAX_INT && limit <= MAX_INT && size <= MAX_INT
    ensures var start := if offset < 0 then 0 else offset;
            DumpedRange(offset, limit, size) == DocumentedRange(offset, limit, size) <==>
            start >= size || limit < 0 || start + limit <= MAX_INT
  {
  }

  /** Asking for the largest limit from slot 1 on dumps nothing at all. */
  lemma LargestLimitDumpsNothing(size: nat)
    requires 1 < size <= MAX_INT
    ensures DumpedRange(1, MAX_INT, size) == (1, 1) && DocumentedRange(1, MAX_INT, size) == (1, size)
  {
  }

  /** Consecutive pages join up: a page of limit entries and the following page make the page of
      their total length. */
  lemma PagesConcatenate(s: State, offset: nat, limit: nat, more: nat)
    requires Inv(s) && offset + limit + more <= MAX_INT
    ensures var n := |s.leaves|;
            var p, q := DumpedRange(offset, limit, n), DumpedRange(offset + limit, more, n);
            var all := DumpedRange(offset, limit + more, n);
            && (forall i | 0 <= i < n :: HasWeight(s, i))
            && Emitted(s, p) + Emitted(s, q) == Emitted(s, all)
  {
  }

  /** The entries of a range of existing slots, none if the range is beyond them. */
  function Emitted(s: State, range: (nat, nat)): seq<Participant>
    requires range.0 <= range.1 <= |s.leaves| || range.0 == range.1
    requires forall i | 0 <= i < |s.leaves| :: HasWeight(s, i)
  {
    if range.0 == range.1 then [] else Entries(s, range.0, range.1)
  }

  /** The first k pages of limit entries each, one after the other. */
  function Pages(s: State, limit: nat, k: nat): seq<Participant>
    requires (forall i | 0 <= i < |s.leaves| :: HasWeight(s, i)) && limit <= MAX_INT
    requires k > 0 ==> limit * (k - 1) <= MAX_INT
  {
    if k == 0 then []
    else
      PageOffsets(limit, k);
      Pages(s, limit, k - 1) + Emitted(s, DumpedRange(limit * (k - 1), limit, |s.leaves|))
  }

  lemma PageOffsets(limit: nat, k: nat)
    requires k > 0
    ensures limit * k == limit * (k - 1) + limit
    ensures k > 1 ==> 0 <= limit * (k - 2) <= limit * (k - 1)
  {
  }

  /** One page after the dump of all slots below its offset. */
  lemma NextPage(s: State, offset: nat, limit: nat)
    requires (forall i | 0 <= i < |s.leaves| :: HasWeight(s, i)) && offset + limit <= MAX_INT
    ensures var n := |s.leaves|;
            Entries(s, 0, Min(offset, n)) + Emitted(s, DumpedRange(offset, limit, n)) ==
            Entries(s, 0, Min(offset + limit, n))
  {
    var n := |s.leaves|;
    if offset < n { EntriesConcat(s, 0, offset, Min(offset + limit, n)); }
  }

  /** As long as offset and limit do not overflow, pages are the dump up to their last slot. */
  lemma {:induction false} PagesArePrefix(s: State, limit: nat, k: nat)
    requires (forall i | 0 <= i < |s.leaves| :: HasWeight(s, i)) && limit <= MAX_INT && limit * k <= MAX_INT
    ensures k > 0 ==> limit * (k - 1) <= MAX_INT
    ensures Pages(s, limit, k) == Entries(s, 0, Min(limit * k, |s.leaves|))
    decreases k
  {
    if k == 0 {
      assert limit * k == 0;
    } else {
      PageOffsets(limit, k);
      PagesArePrefix(s, limit, k - 1);
      NextPage(s, limit * (k - 1), limit);
    }
  }

  /** With as many pages as the size needs, consecutive pages give the full dump exactly when the end
      of the last page does not overflow; otherwise that page is missing. */
  lemma PagesGiveFullDumpIff(s: State, limit: nat, k: nat)
    requires (forall i | 0 <= i < |s.leaves| :: HasWeight(s, i)) && limit <= MAX_INT && |s.leaves| <= MAX_INT
    requires k > 0 && limit * (k - 1) < |s.leaves| <= limit * k
    ensures Pages(s, limit, k) == Entries(s, 0, |s.leaves|) <==> limit * k <= MAX_INT
  {
    if limit * k <= MAX_INT {
      PagesArePrefix(s, limit, k);
    } else {
      PageOffsets(limit, k);
      PagesArePrefix(s, limit, k - 1);
      assert |Pages(s, limit, k)| == limit * (k - 1);
    }
  }

  /** Some event is not a no-op, so that applying it marks the tree dirty. */
  ghost predicate ChangesLeaves(events: seq<Events.Event>) {
    exists k :: 0 <= k < |events| && Events.OpOf(events[k]) != Events.TreeNoOp
  }

  lemma ChangesLeavesPrefix(events: seq<Events.Event>, k: nat)
    requires k < |events|
    ensures ChangesLeaves(events[..k + 1]) <==> ChangesLeaves(events[..k]) || Events.OpOf(events[k]) != Events.TreeNoOp
  {
    assert events[..k + 1] == events[..k] + [events[k]];
  }

  class CensusIMT {
    const db: Store?
    const hasher: (nat, nat) -> nat
    var tree: LeanIMT<nat>
    var addressIndex: map<Address, nat>
    var indexToAddress: map<nat, Address>
    var weights: map<Address, nat>

    constructor (db: Store?, hasher: (nat, nat) -> nat, tree: LeanIMT<nat>)
      ensures this.db == db && this.hasher == hasher && this.tree == tree
      ensures addressIndex == map[] && indexToAddress == map[] && weights == map[]
    {
      this.db, this.hasher, this.tree := db, hasher, tree;
      addressIndex, indexToAddress, weights := map[], map[], map[];
    }

    ghost predicate Valid()
      reads this, tree
    {
      tree.Valid() && tree.db == db && tree.hash == hasher && tree.encoder == Encode && tree.decoder == Decode
    }

    /** The census as a value. */
    ghost function Now(): State
      requires Valid()
      reads this, tree
    {
      State(tree.Leaves(), addressIndex, indexToAddress, weights)
    }

    /** The store, if there is one, agrees with the memory. */
    ghost predicate StoreAgrees()
      requires Valid()
      reads this, tree, db
    {
      db != null ==> Agrees(db.data, Now(), tree.stored) && (!tree.dirty ==> tree.stored == tree.Leaves())
    }

    /** Opens the census of a store. The ghost argument names the census that was synced to it:
        it comes back unchanged if it had no empty slot, and otherwise opening fails. Any other store
        gives what its leaves and slots say. */
    static method New(database: Store?, hasher: (nat, nat) -> nat, ghost was: State) returns (r: Result<CensusIMT>)
      ensures r.Ok? ==> fresh(r.value) && fresh(r.value.tree) && r.value.Valid()
      ensures r.Ok? ==> r.value.db == database && r.value.hasher == hasher
      ensures database == null ==> r.Ok? && r.value.Now() == EMPTY
      ensures database != null ==>
                match Opened(database.data)
                case Ok(s) => r.Ok? && r.value.Now() == s
                case Err(error) => r == Err(error)
      ensures database != null && Inv(was) && Agrees(database.data, was, was.leaves) ==>
                if GapFree(was) then r.Ok? && r.value.Now() == was && r.value.StoreAgrees()
                else r == Err(CorruptedIndex)
    {
      ghost var synced := database != null && Inv(was) && Agrees(database.data, was, was.leaves);
      if synced { SyncedStoreOpens(database.data, was); }
      var tree := LeanIMT.New(hasher, 0, database, Encode, Decode, if synced then was.leaves else []);
      if tree.Err? {
        return Err(tree.error);
      }
      var census := new CensusIMT(database, hasher, tree.value);
      var loaded := census.Load();
      if loaded.Failed? && loaded.error != KeyNotFound {
        return Err(loaded.error);
      }
      r := Ok(census);
    }

    /** Restores the maps from the store, slot by slot, over those that the object has. */
    method Load() returns (r: Outcome)
      requires Valid()
      modifies this`addressIndex, this`indexToAddress, this`weights
      ensures Valid()
      ensures db == null || StoredCensusSize(db.data) <= 0 ==> r == Done && Now() == old(Now())
      ensures db != null && StoredCensusSize(db.data) > 0 ==>
                match LoadedMaps(db.data, old(Now()), StoredCensusSize(db.data))
                case Ok(s) => r == Done && Now() == s
                case Err(error) => r == Failed(error) && error != KeyNotFound
    {
      if db == null || MetaCensusSize !in db.data {
        return Done;
      }
      var censusSize := DecodeInt(db.data[MetaCensusSize]);
      var i: nat := 0;
      while i < censusSize
        invariant Valid() && (i <= censusSize || i == 0)
        invariant LoadedMaps(db.data, old(Now()), i) == Ok(Now())
        decreases censusSize - i
      {
        r := LoadSlot(i, old(Now()));
        if r.Failed? {
          LoadStaysFailed(db.data, old(Now()), i + 1, censusSize);
          return;
        }
        i := i + 1;
      }
      r := Done;
    }

    method LoadSlot(i: nat, ghost was: State) returns (r: Outcome)
      requires Valid() && db != null && i <= MAX_INT
      requires LoadedMaps(db.data, was, i) == Ok(Now()) && was.leaves == Now().leaves
      modifies this`addressIndex, this`indexToAddress, this`weights
      ensures Valid() && Now().leaves == old(Now().leaves)
      ensures match LoadedMaps(db.data, was, i + 1)
              case Ok(s) => r == Done && s == Now()
              case Err(error) => r == Failed(error) && error != KeyNotFound
    {
      var text := IntToString(i);
      if ReverseKey(text) !in db.data {
        return Failed(CorruptedIndex);
      }
      var hexAddr := db.data[ReverseKey(text)];
      if WeightKey(hexAddr) !in db.data {
        return Failed(MissingWeight);
      }
      SetMaps(ParseAddress(hexAddr), i, SetBytes(db.data[WeightKey(hexAddr)]));
      r := Done;
    }

    /** Adds a member in a new slot. */
    method Add(address: Address, weight: nat) returns (r: Outcome)
      requires Valid() && |Now().leaves| < MAX_INT
      modifies this`addressIndex, this`indexToAddress, this`weights, tree, db
      ensures Valid()
      ensures r == if address in old(addressIndex) then Failed(AddressAlreadyExists)
                   else if weight >= TWO_88 then Failed(Panicked)
                   else Done
      ensures Now() == if r.Done? then Appended(old(Now()), address, weight) else old(Now())
      ensures tree.dirty == (r.Done? || old(tree.dirty)) && tree.stored == old(tree.stored)
      ensures db != null ==>
                db.data == if r.Failed? then old(db.data)
                           else EntryPersisted(old(db.data), Member(address, old(|Now().leaves|), weight),
                                               |Now().leaves|)
      ensures old(Inv(Now())) ==> Inv(Now())
      ensures old(Inv(Now()) && StoreAgrees()) ==> StoreAgrees()
    {
      var packed := PackAddressWeight(address, weight);
      PackIsArithmetic(address, weight);
      if address in addressIndex {
        r := Failed(AddressAlreadyExists);
      } else if packed.None? {
        r := Failed(Panicked);
      } else {
        AddPacked(address, weight, packed.value);
        r := Done;
      }
    }

    /** Inserts, maps and persists a member that passed the checks. */
    method AddPacked(address: Address, weight: nat, packed: nat)
      requires Valid() && |Now().leaves| < MAX_INT && address !in addressIndex
      requires weight < TWO_88 && packed == Packed(address, weight)
      modifies this`addressIndex, this`indexToAddress, this`weights, tree, db
      ensures Valid() && Now() == Appended(old(Now()), address, weight)
      ensures tree.dirty && tree.stored == old(tree.stored)
      ensures db != null ==>
                db.data == EntryPersisted(old(db.data), Member(address, old(|Now().leaves|), weight), |Now().leaves|)
      ensures old(Inv(Now())) ==> Inv(Now())
      ensures old(Inv(Now()) && StoreAgrees()) ==> StoreAgrees()
    {
      var index := tree.Insert(packed);
      var newIndex := |tree.nodes[0]| - 1;
      SetMaps(address, newIndex, weight);
      if db != null {
        PersistEntry(address, newIndex, weight);
      }
      AfterAdd(old(Now()), if db == null then map[] else old(db.data), address, weight);
    }

    /** The writes for one member: its index, the reverse entry and its weight. */
    method SetEntry(tx: Batch, address: Address, index: nat, weight: nat) returns (r: Batch)
      requires index <= MAX_INT
      ensures r == WithEntry(tx, address, index, weight)
    {
      var indexText := IntToString(index);
      r := tx[IndexOfKey(address) := Some(indexText)];
      r := r[ReverseKey(indexText) := Some(HexText(address))];
      r := r[WeightOfKey(address) := Some(Bytes(weight))];
    }

    /** Writes one member in one transaction. */
    method PersistEntry(address: Address, index: nat, weight: nat)
      requires Valid() && db != null && index < |Now().leaves| <= MAX_INT
      modifies db
      ensures db.data == Committed(old(db.data), WithSize(WithEntry(map[], address, index, weight), |Now().leaves|))
    {
      var tx: Batch := map[];
      tx := SetEntry(tx, address, index, weight);
      var sizeText := IntToString(|tree.nodes[0]|);
      tx := tx[MetaCensusSize := Some(sizeText)];
      db.Commit(tx);
    }

    lemma AfterAdd(was: State, data: Data, address: Address, weight: nat)
      requires Valid() && weight < TWO_88 && address !in was.addressIndex && |was.leaves| < MAX_INT
      requires Now() == Appended(was, address, weight)
      requires db != null ==> tree.dirty
      requires var tx := WithEntry(map[], address, |was.leaves|, weight);
               db != null ==> db.data == Committed(data, WithSize(tx, |Now().leaves|))
      ensures Inv(was) ==> Inv(Now())
      ensures Inv(was) && (db != null ==> Agrees(data, was, tree.stored)) ==> StoreAgrees()
    {
      if Inv(was) {
        AppendKeepsInv(was, address, weight);
        if db != null && Agrees(data, was, tree.stored) {
          AgreesAfterEntry(data, was, tree.stored, Now(), Member(address, |was.leaves|, weight));
        }
      }
    }

    /** Adds several members in consecutive new slots. Clashes with existing members are rejected;
        the invariant survives exactly when the new addresses are also distinct among themselves. */
    method AddBulk(addresses: seq<Address>, newWeights: seq<nat>) returns (r: Outcome)
      requires Valid() && |Now().leaves| + |addresses| <= MAX_INT
      modifies this`addressIndex, this`indexToAddress, this`weights, tree, db
      ensures Valid()
      ensures r == if |addresses| != |newWeights| then Failed(LengthMismatch)
                   else if exists k | 0 <= k < |addresses| :: addresses[k] in old(addressIndex)
                   then Failed(AddressAlreadyExists)
                   else if exists k | 0 <= k < |addresses| :: newWeights[k] >= TWO_88 then Failed(Panicked)
                   else Done
      ensures Now() == if r.Done? then AppendedAll(old(Now()), addresses, newWeights) else old(Now())
      ensures tree.dirty == ((r.Done? && addresses != []) || old(tree.dirty)) && tree.stored == old(tree.stored)
      ensures db != null ==>
                db.data == if r.Failed? || addresses == [] then old(db.data)
                           else BulkPersisted(old(db.data), old(|Now().leaves|), addresses, newWeights)
      ensures r.Done? && old(Inv(Now())) ==> (Inv(Now()) <==> Distinct(addresses))
      ensures old(Inv(Now()) && StoreAgrees()) ==> StoreAgrees()
    {
      if |addresses| != |newWeights| {
        r := Failed(LengthMismatch);
      } else if |addresses| == 0 {
        r := Done;
      } else {
        var packedValues := PrepareBulk(addresses, newWeights);
        if packedValues.Err? {
          r := Failed(packedValues.error);
        } else {
          AddPrepared(addresses, newWeights, packedValues.value);
          r := Done;
        }
      }
    }

    /** The checks of AddBulk, and the packed values, before anything changes. */
    method PrepareBulk(addresses: seq<Address>, newWeights: seq<nat>) returns (r: Result<seq<nat>>)
      requires |addresses| == |newWeights|
      ensures r == if exists k | 0 <= k < |addresses| :: addresses[k] in addressIndex then Err(AddressAlreadyExists)
                   else if exists k | 0 <= k < |addresses| :: newWeights[k] >= TWO_88 then Err(Panicked)
                   else Ok(PackedAll(addresses, newWeights))
    {
      for k := 0 to |addresses|
        invariant forall j | 0 <= j < k :: addresses[j] !in addressIndex
      {
        if addresses[k] in addressIndex {
          return Err(AddressAlreadyExists);
        }
      }
      var packedValues := PackBulk(addresses, newWeights);
      r := if packedValues.None? then Err(Panicked) else Ok(packedValues.value);
    }

    /** Inserts, maps and persists members that passed the checks. */
    method AddPrepared(addresses: seq<Address>, newWeights: seq<nat>, packedValues: seq<nat>)
      requires Valid() && |addresses| == |newWeights| > 0 && |Now().leaves| + |addresses| <= MAX_INT
      requires packedValues == PackedAll(addresses, newWeights)
      requires forall k | 0 <= k < |addresses| :: addresses[k] !in addressIndex && newWeights[k] < TWO_88
      modifies this`addressIndex, this`indexToAddress, this`weights, tree, db
      ensures Valid() && Now() == AppendedAll(old(Now()), addresses, newWeights)
      ensures tree.dirty && tree.stored == old(tree.stored)
      ensures db != null ==> db.data == BulkPersisted(old(db.data), old(|Now().leaves|), addresses, newWeights)
      ensures old(Inv(Now())) ==> (Inv(Now()) <==> Distinct(addresses))
      ensures old(Inv(Now()) && StoreAgrees()) ==> StoreAgrees()
    {
      var startingIndex := |tree.nodes[0]|;
      InsertAll(packedValues);
      MapBulk(addresses, newWeights, startingIndex, old(Now()));
      if db != null {
        PersistBulkEntries(addresses, newWeights, startingIndex);
      }
      BulkLeaves(old(Now()), addresses, newWeights);
      AfterAddBulk(old(Now()), if db == null then map[] else old(db.data), addresses, newWeights);
    }

    method PackBulk(addresses: seq<Address>, newWeights: seq<nat>) returns (r: Option<seq<nat>>)
      requires |addresses| == |newWeights|
      ensures r == if exists k | 0 <= k < |addresses| :: newWeights[k] >= TWO_88 then None
                   else Some(PackedAll(addresses, newWeights))
    {
      var packed: seq<nat> := [];
      for k := 0 to |addresses|
        invariant |packed| == k
        invariant forall j | 0 <= j < k :: newWeights[j] < TWO_88 && packed[j] == Packed(addresses[j], newWeights[j])
      {
        var value := PackAddressWeight(addresses[k], newWeights[k]);
        PackIsArithmetic(addresses[k], newWeights[k]);
        if value.None? {
          return None;
        }
        packed := packed + [value.value];
      }
      assert packed == PackedAll(addresses, newWeights);
      r := Some(packed);
    }

    method InsertAll(leaves: seq<nat>)
      requires Valid()
      modifies tree`nodes, tree`dirty, tree`hashCalls
      ensures Valid() && tree.Leaves() == old(tree.Leaves()) + leaves
      ensures leaves != [] ==> tree.dirty
    {
      for k := 0 to |leaves|
        invariant Valid() && tree.Leaves() == old(tree.Leaves()) + leaves[..k]
        invariant k > 0 ==> tree.dirty
      {
        var index := tree.Insert(leaves[k]);
        assert leaves[..k + 1] == leaves[..k] + [leaves[k]];
      }
      assert leaves[..|leaves|] == leaves;
    }

    method MapBulk(addresses: seq<Address>, newWeights: seq<nat>, start: nat, ghost was: State)
      requires |addresses| == |newWeights| && start == |was.leaves|
      requires (addressIndex, indexToAddress, weights) == (was.addressIndex, was.indexToAddress, was.weights)
      modifies this`addressIndex, this`indexToAddress, this`weights
      ensures State(was.leaves, addressIndex, indexToAddress, weights) ==
              AppendedAll(was, addresses, newWeights).(leaves := was.leaves)
    {
      for k := 0 to |addresses|
        invariant State(was.leaves, addressIndex, indexToAddress, weights) ==
                  AppendedAll(was, addresses[..k], newWeights[..k]).(leaves := was.leaves)
      {
        assert addresses[..k + 1][..k] == addresses[..k] && newWeights[..k + 1][..k] == newWeights[..k];
        var newIndex := start + k;
        addressIndex := addressIndex[addresses[k] := newIndex];
        indexToAddress := indexToAddress[newIndex := addresses[k]];
        weights := weights[addresses[k] := newWeights[k]];
      }
      assert addresses[..|addresses|] == addresses && newWeights[..|newWeights|] == newWeights;
    }

    /** Writes all new members in one transaction. */
    method PersistBulkEntries(addresses: seq<Address>, newWeights: seq<nat>, startingIndex: nat)
      requires Valid() && db != null && |addresses| == |newWeights|
      requires startingIndex + |addresses| == |Now().leaves| <= MAX_INT
      modifies db
      ensures var tx := WithEntries(map[], BulkMembers(startingIndex, addresses, newWeights));
              db.data == Committed(old(db.data), WithSize(tx, |Now().leaves|))
    {
      var tx: Batch := map[];
      ghost var members := BulkMembers(startingIndex, addresses, newWeights);
      for k := 0 to |addresses|
        invariant tx == WithEntries(map[], members[..k]) && db.data == old(db.data)
      {
        assert members[..k + 1][..k] == members[..k];
        tx := SetEntry(tx, addresses[k], startingIndex + k, newWeights[k]);
      }
      assert members[..|members|] == members;
      var sizeText := IntToString(|tree.nodes[0]|);
      tx := tx[MetaCensusSize := Some(sizeText)];
      assert tx == WithSize(WithEntries(map[], members), |Now().leaves|);
      db.Commit(tx);
    }

    lemma AfterAddBulk(was: State, data: Data, addresses: seq<Address>, newWeights: seq<nat>)
      requires Valid() && |addresses| == |newWeights| && |was.leaves| + |addresses| <= MAX_INT
      requires forall k | 0 <= k < |addresses| :: addresses[k] !in was.addressIndex && newWeights[k] < TWO_88
      requires Now() == AppendedAll(was, addresses, newWeights)
      requires db != null ==> tree.dirty
      requires var tx := WithEntries(map[], BulkMembers(|was.leaves|, addresses, newWeights));
               db != null ==> db.data == Committed(data, WithSize(tx, |Now().leaves|))
      ensures Inv(was) ==> (Inv(Now()) <==> Distinct(addresses))
      ensures Inv(was) && (db != null ==> Agrees(data, was, tree.stored)) ==> StoreAgrees()
    {
      if Inv(was) {
        BulkKeepsInvIffDistinct(was, addresses, newWeights);
        if db != null && Agrees(data, was, tree.stored) {
          AgreesAfterBulk(data, was, tree.stored, addresses, newWeights);
        }
      }
    }

    /** Gives an existing member a new weight. */
    method Update(address: Address, newWeight: nat) returns (r: Outcome)
      requires Valid() && |Now().leaves| <= MAX_INT
      modifies this`weights, tree, db
      ensures Valid()
      ensures r == if address !in addressIndex then Failed(AddressNotFound)
                   else if newWeight >= TWO_88 then Failed(Panicked)
                   else if addressIndex[address] >= |old(Now().leaves)| then Failed(IndexOutOfRange)
                   else Done
      ensures r.Failed? ==> Now() == old(Now())
      ensures r.Done? ==>
                Now() == old(Now()).(leaves := old(Now()).leaves[addressIndex[address] := Packed(address, newWeight)],
                                     weights := old(Now()).weights[address := newWeight])
      ensures tree.dirty == (r.Done? || old(tree.dirty)) && tree.stored == old(tree.stored)
      ensures db != null ==>
                db.data == if r.Failed? then old(db.data)
                           else EntryPersisted(old(db.data), Member(address, addressIndex[address], newWeight),
                                               |Now().leaves|)
      ensures old(Inv(Now())) ==> Inv(Now())
      ensures old(Inv(Now()) && StoreAgrees()) ==> StoreAgrees()
    {
      if address !in addressIndex {
        r := Failed(AddressNotFound);
      } else {
        var index := addressIndex[address];
        var packed := PackAddressWeight(address, newWeight);
        PackIsArithmetic(address, newWeight);
        if packed.None? {
          r := Failed(Panicked);
        } else {
          r := tree.Update(index, packed.value);
          if r.Done? {
            ReplaceWeight(address, index, newWeight, old(Now()));
          }
        }
      }
    }

    /** Records and persists the weight of a member whose leaf was just replaced. */
    method ReplaceWeight(address: Address, index: nat, newWeight: nat, ghost was: State)
      requires Valid() && newWeight < TWO_88 && index < |was.leaves| <= MAX_INT
      requires address in was.addressIndex && was.addressIndex[address] == index
      requires Now() == was.(leaves := was.leaves[index := Packed(address, newWeight)]) && tree.dirty
      modifies this`weights, db
      ensures Valid() && Now() == was.(leaves := was.leaves[index := Packed(address, newWeight)],
                                       weights := was.weights[address := newWeight])
      ensures db != null ==>
                db.data == EntryPersisted(old(db.data), Member(address, index, newWeight), |Now().leaves|)
      ensures Inv(was) ==> Inv(Now())
      ensures Inv(was) && (db != null ==> old(Agrees(db.data, was, tree.stored))) ==> StoreAgrees()
    {
      weights := weights[address := newWeight];
      if db != null {
        PersistEntry(address, index, newWeight);
      }
      AfterUpdate(was, if db == null then map[] else old(db.data), address, newWeight);
    }

    lemma AfterUpdate(was: State, data: Data, address: Address, weight: nat)
      requires Valid() && weight < TWO_88 && address in was.addressIndex
      requires was.addressIndex[address] < |was.leaves| <= MAX_INT
      requires Now() == was.(leaves := was.leaves[was.addressIndex[address] := Packed(address, weight)],
                             weights := was.weights[address := weight])
      requires db != null ==> tree.dirty
      requires var tx := WithEntry(map[], address, was.addressIndex[address], weight);
               db != null ==> db.data == Committed(data, WithSize(tx, |Now().leaves|))
      ensures Inv(was) ==> Inv(Now())
      ensures Inv(was) && (db != null ==> Agrees(data, was, tree.stored)) ==> StoreAgrees()
    {
      if Inv(was) {
        var i := was.addressIndex[address];
        ReweightKeepsInv(was, address, weight);
        assert Now() == Reweighted(was, i, address, weight);
        if db != null && Agrees(data, was, tree.stored) {
          AgreesAfterEntry(data, was, tree.stored, Now(), Member(address, i, weight));
        }
      }
    }

    /** The proof that an address is a member with its weight. */
    method GenerateProof(address: Address) returns (r: Result<CensusProof>)
      requires Valid()
      ensures address !in addressIndex ==> r == Err(AddressNotFound)
      ensures address in addressIndex && address !in weights ==> r == Err(DataCorruption)
      ensures address in addressIndex && address in weights ==>
                var i := addressIndex[address];
                if i >= |Now().leaves| then r == Err(IndexOutOfRange)
                else
                  var p := ProofOf(hasher, Now().leaves, i);
                  r == Ok(CensusProof(p.root, p.siblings, p.pathBits, i, address, weights[address]))
    {
      if address !in addressIndex {
        return Err(AddressNotFound);
      }
      if address !in weights {
        return Err(DataCorruption);
      }
      var treeProof := tree.GenerateProof(addressIndex[address]);
      if treeProof.Err? {
        return Err(treeProof.error);
      }
      var p := treeProof.value;
      r := Ok(CensusProof(p.root, p.siblings, p.pathBits, addressIndex[address], address, weights[address]));
    }

    /** Stores the tree's leaves; the maps are stored already. */
    method Sync() returns (r: Outcome)
      requires Valid() && |Now().leaves| <= MAX_INT
      modifies tree`dirty, tree`stored, db
      ensures Valid() && Now() == old(Now())
      ensures r == Done
      ensures db != null && old(StoreAgrees()) ==> StoreAgrees() && tree.stored == Now().leaves && !tree.dirty
      ensures db != null ==>
                && !tree.dirty
                && if old(tree.dirty) then TreeWritten(old(db.data), db.data, Now().leaves, Encode)
                   else db.data == old(db.data)
      ensures db != null ==> SameOutsideTree(old(db.data), db.data)
      ensures db != null && old(tree.Persisted()) ==> Holds(db.data, Now().leaves, Encode)
    {
      r := tree.Sync();
      if db != null && old(StoreAgrees()) && old(tree.dirty) {
        AgreesAfterSync(old(db.data), db.data, Now(), old(tree.stored));
      }
    }

    // -------------------------------------------------------------- events

    /** Applies events in order, up to the first that fails. */
    method ApplyAll(events: seq<Events.Event>) returns (r: Outcome)
      requires Valid()
      modifies this`addressIndex, this`indexToAddress, this`weights, tree
      ensures Valid() && (Now(), r) == Events.ApplyEvents(old(Now()), events)
      ensures |Now().leaves| <= old(|Now().leaves|) + |events|
      ensures tree.stored == old(tree.stored)
      ensures r.Done? ==> tree.dirty == (old(tree.dirty) || ChangesLeaves(events))
      ensures r.Done? && !tree.dirty ==> Now() == old(Now())
    {
      assert events[..0] == [];
      for k := 0 to |events|
        invariant Valid() && (Now(), Done) == Events.ApplyEvents(old(Now()), events[..k])
        invariant |Now().leaves| <= old(|Now().leaves|) + k && tree.stored == old(tree.stored)
        invariant tree.dirty == (old(tree.dirty) || ChangesLeaves(events[..k]))
        invariant !tree.dirty ==> Now() == old(Now())
      {
        assert events[..k + 1][..k] == events[..k];
        ChangesLeavesPrefix(events, k);
        r := ApplyEvent(events[k]);
        if r.Failed? {
          Events.StreamStaysFailed(old(Now()), events, k + 1);
          return;
        }
      }
      assert events[..|events|] == events;
      r := Done;
    }

    /** Applies events and then syncs the tree, unless one of them failed. The leaves are stored then,
        but of the maps nothing is. */
    method ApplyEvents(events: seq<Events.Event>) returns (r: Outcome)
      requires Valid() && |Now().leaves| + |events| <= MAX_INT
      modifies this`addressIndex, this`indexToAddress, this`weights, tree, db
      ensures Valid() && (Now(), r) == Events.ApplyEvents(old(Now()), events)
      ensures |Now().leaves| <= old(|Now().leaves|) + |events|
      ensures db != null ==>
                if r.Done? && (old(tree.dirty) || ChangesLeaves(events))
                then TreeWritten(old(db.data), db.data, Now().leaves, Encode)
                else db.data == old(db.data)
      ensures db != null ==> SameOutsideTree(old(db.data), db.data) && (r.Done? ==> !tree.dirty)
      ensures db != null && r.Done? && old(tree.Persisted()) ==>
                tree.Persisted() && Holds(db.data, Now().leaves, Encode)
    {
      r := ApplyAll(events);
      if r.Done? {
        r := tree.Sync();
      }
    }

    /** Applies events after clearing the maps and the store. The tree keeps its leaves, so the
        events are applied to a census whose members are forgotten. The store is reset, and on success
        the leaves are written to it, except that a clean tree which no event changed is not. */
    method ImportEvents(root: nat, events: seq<Events.Event>) returns (r: Outcome)
      requires Valid() && |Now().leaves| + |events| <= MAX_INT
      modifies this`addressIndex, this`indexToAddress, this`weights, tree, db
      ensures Valid() && Now() == Events.ApplyEvents(Forgotten(old(Now()).leaves), events).0
      ensures var applied := Events.ApplyEvents(Forgotten(old(Now()).leaves), events).1;
              r == if applied.Failed? then applied
                   else if Now().leaves == [] then Failed(EmptyCensus)
                   else if Root(hasher, Now().leaves) != root then Failed(RootMismatch)
                   else Done
      ensures db != null ==>
                var data := ResetData(old(db.data), old(Now()));
                if r.Done? && (old(tree.dirty) || ChangesLeaves(events))
                then TreeWritten(data, db.data, Now().leaves, Encode)
                else db.data == data
    {
      ResetPersistentState();
      addressIndex, indexToAddress, weights := map[], map[], map[];
      r := ApplyAll(events);
      if r.Done? {
        r := CheckAndSync(root);
      }
    }

    /** The end of an import of events: the root must be the given one, and then the tree is synced. */
    method CheckAndSync(root: nat) returns (r: Outcome)
      requires Valid() && |Now().leaves| <= MAX_INT
      modifies tree`dirty, tree`stored, db
      ensures Valid() && Now() == old(Now())
      ensures r == if Now().leaves == [] then Failed(EmptyCensus)
                   else if Root(hasher, Now().leaves) != root then Failed(RootMismatch)
                   else Done
      ensures db != null ==>
                if r.Done? && old(tree.dirty) then TreeWritten(old(db.data), db.data, Now().leaves, Encode)
                else db.data == old(db.data)
    {
      var treeRoot := tree.RootNode();
      if treeRoot.None? {
        return Failed(EmptyCensus);
      }
      if treeRoot.value != root {
        return Failed(RootMismatch);
      }
      r := tree.Sync();
    }

    method ApplyEvent(e: Events.Event) returns (r: Outcome)
      requires Valid()
      modifies this`addressIndex, this`indexToAddress, this`weights, tree
      ensures Valid() && (Now(), r) == Events.ApplyEvent(old(Now()), e)
      ensures |Now().leaves| <= old(|Now().leaves|) + 1 && tree.stored == old(tree.stored)
      ensures r.Done? ==> tree.dirty == (old(tree.dirty) || Events.OpOf(e) != Events.TreeNoOp)
      ensures r.Done? && !tree.dirty ==> Now() == old(Now())
    {
      var addr := e.address;
      var oldLeaf := PackAddressWeight(addr, e.prevWeight);
      var newLeaf := PackAddressWeight(addr, e.newWeight);
      if oldLeaf.None? || newLeaf.None? {
        return Failed(Panicked);
      }
      var index := tree.IndexOf(oldLeaf.value);
      FirstIndexMeaning(tree.nodes[0], oldLeaf.value);
      match Events.OpOf(e)
      case TreeInsert =>
        var present := tree.Has(oldLeaf.value);
        if !present {
          index := tree.Insert(newLeaf.value);
          SetMaps(addr, index, e.newWeight);
          r := Done;
        } else {
          r := ReplaceLeaf(index, newLeaf.value, addr, e.newWeight);
        }
      case TreeDelete =>
        r := VacateLeaf(index, addr);
      case TreeUpdate =>
        r := ReplaceLeaf(index, newLeaf.value, addr, e.newWeight);
      case TreeNoOp =>
        r := Done;
    }

    method ReplaceLeaf(index: int, leaf: nat, address: Address, weight: nat) returns (r: Outcome)
      requires Valid()
      modifies this`addressIndex, this`indexToAddress, this`weights, tree
      ensures Valid() && r == if 0 <= index < |old(Now()).leaves| then Done else Failed(IndexOutOfRange)
      ensures Now() == if r.Done? then Mapped(old(Now()), old(Now()).leaves[index := leaf], index, address, weight)
                       else old(Now())
      ensures tree.stored == old(tree.stored) && (r.Done? ==> tree.dirty)
    {
      r := tree.Update(index, leaf);
      if r.Done? { SetMaps(address, index, weight); }
    }

    method VacateLeaf(index: int, address: Address) returns (r: Outcome)
      requires Valid()
      modifies this`addressIndex, this`indexToAddress, this`weights, tree
      ensures Valid() && r == if 0 <= index < |old(Now()).leaves| then Done else Failed(IndexOutOfRange)
      ensures Now() == if r.Done? then Vacated(old(Now()), index, address) else old(Now())
      ensures tree.stored == old(tree.stored) && (r.Done? ==> tree.dirty)
    {
      r := tree.Update(index, 0);
      if r.Failed? { return; }
      addressIndex := addressIndex - {address};
      indexToAddress := indexToAddress - {index};
      weights := weights - {address};
    }

    method SetMaps(address: Address, index: nat, weight: nat)
      modifies this`addressIndex, this`indexToAddress, this`weights
      ensures addressIndex == old(addressIndex)[address := index]
      ensures indexToAddress == old(indexToAddress)[index := address]
      ensures weights == old(weights)[address := weight]
    {
      addressIndex := addressIndex[address := index];
      indexToAddress := indexToAddress[index := address];
      weights := weights[address := weight];
    }

    // -------------------------------------------------------------- dumps

    /** One entry as dumped, or nothing when its weight is missing. */
    method EntryOf(i: nat) returns (r: Option<Participant>)
      requires Valid()
      ensures r == if HasWeight(Now(), i) then Some(Entry(Now(), i)) else None
    {
      if i !in indexToAddress {
        return Some(Participant(i, 0, 0));
      }
      var addr := indexToAddress[i];
      if addr !in weights {
        return None;
      }
      r := Some(Participant(i, addr, weights[addr]));
    }

    /** The whole census with its root, its number of members and their total weight. */
    method DumpAll() returns (r: Result<CensusDump>)
      requires Valid()
      ensures Now().leaves == [] ==> r == Err(EmptyCensus)
      ensures Now().leaves != [] && !(forall i | 0 <= i < |Now().leaves| :: HasWeight(Now(), i)) ==> r == Err(Panicked)
      ensures Now().leaves != [] && (forall i | 0 <= i < |Now().leaves| :: HasWeight(Now(), i)) ==>
                r == Ok(CensusDump(Root(hasher, Now().leaves), MemberCount(Now(), |Now().leaves|),
                                   TotalWeight(Now(), |Now().leaves|), Entries(Now(), 0, |Now().leaves|)))
    {
      var root := tree.RootNode();
      if root.None? {
        return Err(EmptyCensus);
      }
      var participants: seq<Participant> := [];
      var totalWeight, nonEmptyCount := 0, 0;
      for i := 0 to |tree.nodes[0]|
        invariant forall k | 0 <= k < i :: HasWeight(Now(), k)
        invariant participants == Entries(Now(), 0, i)
        invariant totalWeight == TotalWeight(Now(), i) && nonEmptyCount == MemberCount(Now(), i)
      {
        var entry := EntryOf(i);
        if entry.None? {
          return Err(Panicked);
        }
        participants := participants + [entry.value];
        if i in indexToAddress {
          totalWeight := totalWeight + entry.value.weight;
          nonEmptyCount := nonEmptyCount + 1;
        }
      }
      r := Ok(CensusDump(root.value, nonEmptyCount, totalWeight, participants));
    }

    /** The entries of a range of slots; a negative limit means all of them. The sum of offset and
        limit is a 64-bit addition. */
    method DumpRange(offset: int, limit: int) returns (out: seq<Participant>, r: Outcome)
      requires Valid() && |Now().leaves| <= MAX_INT
      requires MIN_INT <= offset <= MAX_INT && MIN_INT <= limit <= MAX_INT
      ensures var (start, end) := DumpedRange(offset, limit, |Now().leaves|);
              if forall i | start <= i < end :: HasWeight(Now(), i) then r == Done && out == Entries(Now(), start, end)
              else
                && r == Failed(DataCorruption)
                && if limit >= 0 && end - start <= 10000 then out == [] else StoppedAfter(Now(), start, end, out)
    {
      var size := |tree.nodes[0]|;
      var start := if offset < 0 then 0 else offset;
      if start >= size {
        return [], Done;
      }
      var end := RangeEnd(start, limit, size);
      var rangeSize := Wrap64(end - start);
      if limit >= 0 && rangeSize <= BATCH_THRESHOLD {
        out, r := DumpRangeSingleLock(start, end);
      } else {
        out, r := DumpRangeBatched(start, end);
      }
    }

    /** The end of the range; an overflow makes it negative, and the range empty. */
    method RangeEnd(start: nat, limit: int, size: nat) returns (end: int)
      requires start < size <= MAX_INT && limit <= MAX_INT
      ensures if limit >= 0 && start + limit > MAX_INT then end < 0 else (start, end) == DumpedRange(start, limit, size)
    {
      end := size;
      if limit >= 0 {
        var sum := Wrap64(start + limit);
        end := if sum <= size then sum else size;
      }
    }

    /** Emits a range under one lock: all of it, or nothing if a weight is missing. */
    method DumpRangeSingleLock(start: nat, end: int) returns (out: seq<Participant>, r: Outcome)
      requires Valid()
      ensures (forall i | start <= i < end :: HasWeight(Now(), i)) ==>
                r == Done && out == if start <= end then Entries(Now(), start, end) else []
      ensures !(forall i | start <= i < end :: HasWeight(Now(), i)) ==> r == Failed(DataCorruption) && out == []
    {
      out := [];
      var i: nat := start;
      while i < end
        invariant start <= i && (i <= end || i == start)
        invariant forall k | start <= k < i :: HasWeight(Now(), k)
        invariant out == Entries(Now(), start, i)
      {
        var entry := EntryOf(i);
        if entry.None? {
          return [], Failed(DataCorruption);
        }
        out := out + [entry.value];
        i := i + 1;
      }
      r := Done;
    }

    /** Emits a range batch by batch. With every batch done under the lock alone, the object takes
        exactly the batch moves of the step machine. */
    method DumpRangeBatched(start: nat, end: int) returns (out: seq<Participant>, r: Outcome)
      requires Valid()
      ensures r == if forall i | start <= i < end :: HasWeight(Now(), i) then Done else Failed(DataCorruption)
      ensures r.Done? ==> out == if start <= end then Entries(Now(), start, end) else []
      ensures r.Failed? && start <= end ==> StoppedAfter(Now(), start, end, out)
    {
      out, r := [], Done;
      var i: nat := start;
      ghost var n: nat := 0;
      while i < end
        invariant start <= i && (i <= end || i == start) && r == Done && (i < end ==> i == start + 1000 * n)
        invariant (forall k | start <= k < i :: HasWeight(Now(), k)) && out == Entries(Now(), start, i)
        decreases end - i
      {
        var d := DumpBatch(Dumping(EMPTY, i, end, out, false));
        if d.failed {
          assert StoppedAtBatch(Now(), start, end, out, n);
          r := Failed(DataCorruption);
          return;
        }
        EntriesConcat(Now(), start, i, d.next);
        out, i, n := d.out, d.next, n + 1;
      }
    }

    /** One batch under the lock is one batch move; the value carried stands for the goroutine's
        own variables, and the census is the one at this moment. */
    method DumpBatch(d: Dumping) returns (e: Dumping)
      requires Valid() && d.next < d.end && !d.failed
      ensures e.(census := Now()) == Dumps.Step(d.(census := Now()), BatchMove)
    {
      var batchEnd := Min(d.next + BATCH_SIZE, d.end);
      var batch, r := DumpRangeSingleLock(d.next, batchEnd);
      if r.Failed? {
        return d.(failed := true);
      }
      e := d.(next := batchEnd, out := d.out + batch);
    }

    // -------------------------------------------------------------- import

    /** Replaces the census by a dump. The ghost result is the order in which the entries were
        placed: some sort of the dump's participants by index. The memory afterwards depends on
        the dump alone, and so does the store if it agreed with the census before. */
    method ImportAll(dump: CensusDump) returns (r: Outcome, ghost order: seq<Participant>)
      requires Valid() && |Now().leaves| <= MAX_INT
      requires forall k | 0 <= k < |dump.participants| :: dump.participants[k].index + |dump.participants| <= MAX_INT
      modifies this`tree, this`addressIndex, this`indexToAddress, this`weights, db
      ensures Valid() && fresh(tree)
      ensures SortedByIndex(order) && multiset(order) == multiset(dump.participants)
      ensures Now() == PlaceAll(order).0
      ensures r == if PlaceAll(order).1.Failed? then Failed(Panicked)
                   else if Now().leaves == [] then Failed(EmptyCensus)
                   else if Root(hasher, Now().leaves) != dump.root then Failed(BadCensusDump)
                   else Done
      ensures db != null ==>
                db.data == var data := ResetData(old(db.data), old(Now()));
                           if r.Done? then ImportedOver(data, order) else data
      ensures db != null && old(Inv(Now()) && StoreAgrees()) ==>
                db.data == if r.Done? then ImportedOver(map[], order) else map[]
      ensures tree.stored == [] && (r.Done? ==> tree.dirty)
      ensures r.Done? ==> (Inv(Now()) <==> Fitting(order))
      ensures r.Done? && Fitting(order) && old(Inv(Now()) && StoreAgrees()) ==> StoreAgrees()
    {
      ResetPersistentState();
      Clear();
      var participants := SortByIndex(dump.participants);
      order := participants;
      SizeOfPlaced(dump.participants, order);
      r := PlaceAndPersist(participants, dump.root);
    }

    /** Empties the memory. The store has no leaves that the new tree could load. */
    method Clear()
      requires Valid() && (db != null ==> MetaSize !in db.data)
      modifies this`tree, this`addressIndex, this`indexToAddress, this`weights
      ensures Valid() && fresh(tree) && Now() == EMPTY && tree.stored == [] && !tree.dirty
    {
      addressIndex, indexToAddress, weights := map[], map[], map[];
      var created := LeanIMT.New(hasher, 0, db, Encode, Decode, []);
      tree := created.value;
    }

    /** The rest of an import, after everything was cleared. */
    method PlaceAndPersist(participants: seq<Participant>, root: nat) returns (r: Outcome)
      requires Valid() && Now() == EMPTY && tree.stored == [] && |PlaceAll(participants).0.leaves| <= MAX_INT
      requires forall k | 0 <= k < |participants| :: participants[k].index <= MAX_INT
      modifies this`addressIndex, this`indexToAddress, this`weights, tree`nodes, tree`dirty, tree`hashCalls, db
      ensures Valid() && Now() == PlaceAll(participants).0
      ensures r == if PlaceAll(participants).1.Failed? then Failed(Panicked)
                   else if Now().leaves == [] then Failed(EmptyCensus)
                   else if Root(hasher, Now().leaves) != root then Failed(BadCensusDump)
                   else Done
      ensures db != null ==> db.data == if r.Done? then ImportedOver(old(db.data), participants) else old(db.data)
      ensures r.Done? ==> tree.dirty && (Inv(Now()) <==> Fitting(participants))
      ensures r.Done? && Fitting(participants) && (db != null ==> old(db.data) == map[]) ==> StoreAgrees()
    {
      var named;
      r, named := PlaceEntries(participants);
      if r.Done? {
        r := CheckAndPersist(root, named, participants);
      }
    }

    /** Removes from the store the metadata and everything that the memory knows of. */
    method ResetPersistentState()
      requires Valid() && |Now().leaves| <= MAX_INT
      modifies db
      ensures db != null ==> db.data == ResetData(old(db.data), Now()) && MetaSize !in db.data
      ensures db != null && Inv(Now()) && old(StoreAgrees()) ==> db.data == map[]
    {
      if db != null {
        if StoreAgrees() && Inv(Now()) { ResetEmptiesStore(db.data, Now(), tree.stored); }
        var tx := PlanReset();
        DeletedKeys(db.data, tx);
        db.Commit(tx);
      }
    }

    /** A transaction of deletions takes its keys away and nothing else. */
    lemma DeletedKeys(data: Data, tx: Batch)
      requires forall k | k in tx :: tx[k] == None
      ensures Committed(data, tx) == data - tx.Keys
    {
      var after, rest := Committed(data, tx), data - tx.Keys;
      forall k ensures Get(after, k) == Get(rest, k) { }
      forall k | k in after ensures k in rest && after[k] == rest[k] { assert Get(after, k) == Get(rest, k); }
      forall k | k in rest ensures k in after { assert Get(after, k) == Get(rest, k); }
    }

    /** The end of an import: the root must be the dump's, and then the members are persisted. */
    method CheckAndPersist(root: nat, named: seq<Participant>, ghost order: seq<Participant>) returns (r: Outcome)
      requires Valid() && |Now().leaves| <= MAX_INT && (Now(), Done) == PlaceAll(order) && named == Named(order)
      requires forall k | 0 <= k < |order| :: order[k].index <= MAX_INT
      requires tree.stored == [] && (Now().leaves != [] ==> tree.dirty)
      modifies db
      ensures r == if Now().leaves == [] then Failed(EmptyCensus)
                   else if Root(hasher, Now().leaves) != root then Failed(BadCensusDump)
                   else Done
      ensures db != null && r.Failed? ==> db.data == old(db.data)
      ensures db != null && r.Done? ==> db.data == ImportedOver(old(db.data), order)
      ensures r.Done? ==> Now().leaves != []
      ensures r.Done? ==> (Inv(Now()) <==> Fitting(order))
      ensures r.Done? && Fitting(order) && (db != null ==> old(db.data) == map[]) ==> StoreAgrees()
    {
      var newRoot := tree.RootNode();
      if newRoot.None? {
        return Failed(EmptyCensus);
      }
      if newRoot.value != root {
        return Failed(BadCensusDump);
      }
      if db != null {
        NamedAreAllMapped(order);
        MappedBelow(order, MAX_INT);
        PersistImportedData(named);
      }
      ImportConsistentIff(order);
      if Fitting(order) { ImportAgrees(order); }
      r := Done;
    }

    lemma SizeOfPlaced(ps: seq<Participant>, order: seq<Participant>)
      requires forall k | 0 <= k < |ps| :: ps[k].index + |ps| <= MAX_INT
      requires multiset(order) == multiset(ps)
      ensures |PlaceAll(order).0.leaves| <= MAX_INT && forall k | 0 <= k < |order| :: order[k].index <= MAX_INT
    {
      assert |order| == |multiset(order)| == |multiset(ps)| == |ps|;
      if ps != [] {
        forall k | 0 <= k < |order| ensures order[k].index <= MAX_INT - |ps| {
          assert order[k] in multiset(ps);
        }
        PlacedLength(order, MAX_INT - |ps|);
      }
    }

    /** The deletion of everything that the memory knows of. */
    method PlanReset() returns (tx: Batch)
      requires Valid() && |Now().leaves| <= MAX_INT
      ensures tx.Keys == KnownKeys(Now()) && forall k | k in tx :: tx[k] == None
    {
      tx := map[];
      for i := 0 to |tree.nodes[0]|
        invariant tx.Keys == LeafKeys(i) && forall k | k in tx :: tx[k] == None
      {
        var text := IntToString(i);
        assert LeafKeys(i + 1) == LeafKeys(i) + {LeafAt(i)};
        tx := tx[LeafKey(text) := None];
      }
      tx := tx[MetaSize := None][MetaVersion := None][MetaCensusSize := None];
      tx := PlanMembersReset(tx);
      tx := PlanSlotsReset(tx);
    }

    method PlanMembersReset(tx: Batch) returns (r: Batch)
      requires forall k | k in tx :: tx[k] == None
      ensures r.Keys == tx.Keys + MemberKeys(addressIndex.Keys) && forall k | k in r :: r[k] == None
    {
      r := tx;
      var addresses := addressIndex.Keys;
      while addresses != {}
        invariant addresses <= addressIndex.Keys && r.Keys == tx.Keys + MemberKeys(addressIndex.Keys - addresses)
        invariant forall k | k in r :: r[k] == None
        decreases addresses
      {
        var a :| a in addresses;
        OneMemberMore(addressIndex.Keys, addresses, a);
        r := r[IndexOfKey(a) := None][WeightOfKey(a) := None];
        addresses := addresses - {a};
      }
      assert addressIndex.Keys - {} == addressIndex.Keys;
    }

    method PlanSlotsReset(tx: Batch) returns (r: Batch)
      requires forall k | k in tx :: tx[k] == None
      ensures r.Keys == tx.Keys + SlotKeys(indexToAddress.Keys) && forall k | k in r :: r[k] == None
    {
      r := tx;
      var slots := indexToAddress.Keys;
      while slots != {}
        invariant slots <= indexToAddress.Keys && r.Keys == tx.Keys + SlotKeys(indexToAddress.Keys - slots)
        invariant forall k | k in r :: r[k] == None
        decreases slots
      {
        var i :| i in slots;
        assert indexToAddress.Keys - (slots - {i}) == (indexToAddress.Keys - slots) + {i};
        r := r[AddressOfKey(i) := None];
        slots := slots - {i};
      }
      assert indexToAddress.Keys - {} == indexToAddress.Keys;
    }

    lemma OneMemberMore(all: set<Address>, todo: set<Address>, a: Address)
      requires a in todo && todo <= all
      ensures MemberKeys(all - (todo - {a})) == MemberKeys(all - todo) + {IndexOfKey(a), WeightOfKey(a)}
    {
      assert all - (todo - {a}) == (all - todo) + {a};
    }

    /** Places sorted participants into an empty census. */
    method PlaceEntries(participants: seq<Participant>) returns (r: Outcome, named: seq<Participant>)
      requires Valid() && Now() == EMPTY
      modifies this`addressIndex, this`indexToAddress, this`weights, tree`nodes, tree`dirty, tree`hashCalls
      ensures Valid() && (Now(), r) == PlaceAll(participants)
      ensures r.Failed? ==> r == Failed(Panicked)
      ensures r.Done? ==> named == Named(participants)
      ensures Now().leaves != [] ==> tree.dirty
    {
      named := [];
      var expectedIndex: nat := 0;
      for k := 0 to |participants|
        invariant Valid() && (Now(), Done) == PlaceAll(participants[..k])
        invariant expectedIndex == |Now().leaves| && named == Named(participants[..k])
        invariant Now().leaves != [] ==> tree.dirty
      {
        assert participants[..k + 1][..k] == participants[..k];
        r, expectedIndex := PlaceEntry(participants[k], expectedIndex);
        if r.Failed? {
          PlacingStaysFailed(participants, k + 1);
          return;
        }
        if !IsEmptyParticipant(participants[k]) {
          named := named + [participants[k]];
        }
      }
      assert participants[..|participants|] == participants;
      r := Done;
    }

    /** Places one participant after filling the gap before its index. */
    method PlaceEntry(p: Participant, expectedIndex: nat) returns (r: Outcome, next: nat)
      requires Valid() && expectedIndex == |Now().leaves|
      modifies this`addressIndex, this`indexToAddress, this`weights, tree`nodes, tree`dirty, tree`hashCalls
      ensures Valid() && (Now(), r) == Place(old(Now()), p)
      ensures r.Failed? ==> r == Failed(Panicked)
      ensures r.Done? ==> next == |Now().leaves|
      ensures r.Done? || Now().leaves != old(Now()).leaves || old(tree.dirty) ==> tree.dirty
    {
      next := FillGap(expectedIndex, p.index);
      if IsEmptyParticipant(p) {
        var index := tree.Insert(0);
        r := Done;
      } else {
        r := PlaceMember(p);
      }
      next := next + 1;
    }

    /** Fills the slots before the next participant's with empty leaves. */
    method FillGap(expectedIndex: nat, index: nat) returns (next: nat)
      requires Valid() && expectedIndex == |Now().leaves|
      modifies tree`nodes, tree`dirty, tree`hashCalls
      ensures Valid() && tree.Leaves() == PaddedTo(old(tree.Leaves()), index) && next == |tree.Leaves()|
      ensures tree.Leaves() != old(tree.Leaves()) || old(tree.dirty) ==> tree.dirty
    {
      next := expectedIndex;
      while next < index
        invariant Valid() && next == |tree.Leaves()| && (next <= index || next == expectedIndex)
        invariant tree.Leaves() == old(tree.Leaves()) + Zeros(next - expectedIndex)
        invariant next > expectedIndex || old(tree.dirty) ==> tree.dirty
        decreases index - next
      {
        var i := tree.Insert(0);
        next := next + 1;
        assert Zeros(next - expectedIndex) == Zeros(next - 1 - expectedIndex) + [0];
      }
      assert old(tree.Leaves()) + [] == old(tree.Leaves());
    }

    /** Appends a participant that is not empty, and maps it to its own index. */
    method PlaceMember(p: Participant) returns (r: Outcome)
      requires Valid()
      modifies this`addressIndex, this`indexToAddress, this`weights, tree`nodes, tree`dirty, tree`hashCalls
      ensures Valid() && r == if PackAddressWeight(p.address, p.weight).None? then Failed(Panicked) else Done
      ensures Now() == if r.Failed? then old(Now())
                       else Mapped(old(Now()), old(Now()).leaves + [PackAddressWeight(p.address, p.weight).value],
                                   p.index, p.address, p.weight)
      ensures r.Done? || old(tree.dirty) ==> tree.dirty
    {
      var packed := PackAddressWeight(p.address, p.weight);
      if packed.None? {
        return Failed(Panicked);
      }
      var index := tree.Insert(packed.value);
      SetMaps(p.address, p.index, p.weight);
      r := Done;
    }

    /** Writes the imported members and the size in one transaction. */
    method PersistImportedData(named: seq<Participant>)
      requires Valid() && db != null && |Now().leaves| <= MAX_INT
      requires forall k | 0 <= k < |named| ::
                 named[k].address in addressIndex && addressIndex[named[k].address] <= MAX_INT
      modifies db
      ensures var tx := WithEntries(map[], ImportedMembers(named, addressIndex));
              db.data == Committed(old(db.data), WithSize(tx, |Now().leaves|))
    {
      var tx: Batch := map[];
      ghost var members := ImportedMembers(named, addressIndex);
      for k := 0 to |named|
        invariant tx == WithEntries(map[], members[..k]) && db.data == old(db.data)
      {
        assert members[..k + 1][..k] == members[..k];
        tx := SetEntry(tx, named[k].address, addressIndex[named[k].address], named[k].weight);
      }
      assert members[..|members|] == members;
      var sizeText := IntToString(|tree.nodes[0]|);
      tx := tx[MetaCensusSize := Some(sizeText)];
      assert tx == WithSize(WithEntries(map[], members), |Now().leaves|);
      db.Commit(tx);
    }
  }
}
