# The Lean incremental Merkle tree, its proofs and its census

This project models the Go module `lean-imt-go` in Dafny and proves what its three layers promise.

* **The tree** (`IncrementalTree.dfy`, class `LeanIMT`) is a ragged matrix of nodes. Insert, InsertMany, Update,
  UpdateMany and the rebuild each recompute a different part of it in place. All of them are proved against one
  definition (`LeanTree.dfy`): a parent is the hash of its two children, or the left child when there is no right one.
  The matrix is therefore a function of the leaves, whatever the history (`TreeRuns.dfy`), and the root has the
  recursive shape "first power of two, then the rest". The number of hash calls of each operation is exact.
* **Proofs** (`Proofs.dfy`, `Membership.dfy`, `Circuit.dfy`) omit missing siblings and pack the remaining directions into
  bits. They are complete, and sound: whatever is accepted is the generated proof of one leaf. Soundness assumes no
  collision among the pairs that the tree and the verifier actually hash, not a globally injective hash, so it is
  meaningful for a hash into a finite field. The circuit's 24 slots, where zero means "no sibling", are related to the host
  verifier, and `EndToEnd.dfy` follows a member from the census into the circuit and back.
* **The census** (`Census.dfy`, class `CensusIMT`) keeps three maps, the tree and a key-value store in step.
  `CensusState.dfy` holds the invariant, `Events.dfy` the refinement of weight events to a plain fold,
  `EventImports.dfy` the same over leaves left from before, `Dumps.dfy` exports, their import and batched dumps,
  `Imports.dfy` imports in general, `CensusStore.dfy` the stored form, and `CensusRuns.dfy` the statements over whole
  runs. `EventReopens.dfy` and `StaleKeys.dfy` say what applying events means for the store.

`Bits.dfy`, `Numerals.dfy`, `Packing.dfy`, `Storage.dfy`, `TreeStore.dfy` and `Wrappers.dfy` hold the shifts and masks, the
decimal and byte encodings, the packing of addresses and weights, the database, the stored leaves and the result types.

The hash is a function parameter; the host and the circuit use the same one. The database is a finite map whose
transactions commit atomically; a key is its fixed prefix with the text after it. The hexadecimal text of an address is
represented by its 40 base-16 digits. Every sort is some permutation ordered by index. A Go panic is the error `Panicked`.

Where the code does not do what its comments say, the model follows the code:

* `treeOp` reads weights through `Int64`, so an event with a weight of 2^63 or more can be misclassified or dropped
  (`Events.OpIsDocumentedIff`, `Events.LargeWeightIsDropped`); `Events.EventRefinesPlainStep` gives the exact condition.
* `AddBulk` does not notice an address that occurs twice in the batch (`CensusState.BulkKeepsInvIffDistinct`,
  `CensusRuns.RepeatedAddressIsAccepted`).
* `DumpRange` adds offset and limit in 64 bits; on overflow nothing is emitted (`Census.RangeIsDocumentedIff`,
  `Census.LargestLimitDumpsNothing`). Pages of a fixed size give the full dump exactly when the end of the last one does
  not overflow (`Census.PagesGiveFullDumpIff`).
* A census with an empty slot cannot be reopened (`CensusStore.ReopenRestoresIffGapFree`); an import of one participant
  at index 1 makes such a census (`CensusRuns.ImportedGapIsNotReopened`).
* `ImportEvents` says it resets existing data, but keeps the leaves of the tree. The weights are the plain fold all the
  same; the census is consistent exactly when every old leaf is zero, or belonged to a member of weight zero to whom the
  events give a weight (`EventImports.ImportedEventsArePlainFold`). One old member of positive weight is enough to break
  it (`EventImports.OldLeavesSurviveImport`).
* `ApplyEvents` syncs the leaves but does not store the maps, so reopening gives the old maps over the new leaves
  (`CensusRuns.ReopenAfterEvents`). That is consistent only if the events change nothing in the end and nobody leaves in
  between (`EventReopens.ReopenedIsConsistentIff`); a member that joins is lost (`CensusRuns.JoinedMemberIsLost`),
  and after a later addition the store cannot be opened at all (`StaleKeys.JoinedThenAddedIsNotReopened`).
* `resetPersistentState` promises a clean slate, but does not know the keys of members that events removed
  (`CensusStore.ResetAfterEventsIff`); after a later import such a member can come back (`StaleKeys.RemovedMemberReturns`).
* `ImportAll` checks the root only, so a dump with one entry twice is accepted (`CensusRuns.RepeatedEntryIsImported`;
  `Imports.ImportConsistentIff` is the exact condition).
* The first positive weight that an event gives to the zero address is put where the first zero leaf is
  (`Events.ZeroAddressKeepsSlotsIff`, `Events.ZeroAddressReusesEmptySlot`).
* The circuit takes an emptied slot, whose leaf is zero, for padding (`EndToEnd.MemberProofAcceptedIff`); when the second
  of two members leaves, the honest proof of the first is rejected (`EndToEnd.LonelyMemberIsRejected`).

## Model

| member | source | states |
|---|---|---|
| `LeanTree.TreeIsLevels` | leanimt.go:557-575 | a matrix meets the level-by-level invariant exactly when it is the one matrix its leaves determine |
| `LeanTree.LevelSize` | leanimt.go:554-561 | level l of a tree of n leaves has ceil(n / 2^l) nodes |
| `LeanTree.CeilLog2Least` | leanimt.go:361-374 | the depth is the least d with 2^d at least the number of leaves |
| `LeanTree.RootRecursion` | leanimt.go:557-575 | the level-by-level root is the hash of the root of the first k leaves and the root of the rest, k the largest power of two below n |
| `LeanTree.PathRecursion` | proof.go:36-62 | the path of a leaf is its path in one of the two parts followed by one step across to the other part's root |
| `IncrementalTree.LeanIMT.Insert` | leanimt.go:167-210 | the matrix becomes the tree of the leaves with the new one appended; the hash is called once per one bit of the old size |
| `IncrementalTree.LeanIMT.InsertMany` | leanimt.go:212-254 | the matrix becomes the tree of all leaves; m leaves into n cost m - 1 + popcount(n) hashes; no leaves is an error that changes nothing |
| `IncrementalTree.LeanIMT.FillParents` | leanimt.go:233-248 | recomputing from the first affected parent gives the whole next level, without a zero-filled hole |
| `IncrementalTree.LeanIMT.Update` | leanimt.go:256-296 | the matrix becomes the tree of the leaves with one replaced, at one hash per sibling on its path; an index out of range changes nothing |
| `IncrementalTree.LeanIMT.UpdateMany` | leanimt.go:298-359 | accepted exactly for distinct indices in range with matching values, otherwise the error of the first index at fault; the matrix becomes the tree of the reassigned leaves, at one hash per modified node with two children, over all levels; a rejected call changes nothing |
| `IncrementalTree.LeanIMT.RecomputeParents` | leanimt.go:337-354 | whatever order the modified set is iterated in, the level becomes the next level, each modified node with two children is hashed once, and the returned set is their parents |
| `IncrementalTree.LeanIMT.RebuildTree` | leanimt.go:540-578 | every level above the leaves is rebuilt, with one hash less than there are leaves |
| `IncrementalTree.LeanIMT.ComputeCeilLog2` | leanimt.go:361-374 | the shifting loop computes the depth |
| `IncrementalTree.LeanIMT.IndexOf` | leanimt.go:150-158 | the first position of the leaf, or -1 |
| `IncrementalTree.FirstIndexMeaning` | leanimt.go:150-158 | the search finds a leaf exactly when it is present, and then at its first position |
| `IncrementalTree.LeanIMT.RootNode` | leanimt.go:130-141 | the single node of the top level is the root; an empty tree has none |
| `IncrementalTree.LeanIMT.GenerateProof` | proof.go:22-80 | the proof of the leaf: its value and index, the root, the siblings of its path and its packed directions; an error out of range |
| `IncrementalTree.LeanIMT.Load` | leanimt.go:418-468 | the leaves read from the store give the matrix; a missing or undecodable leaf is an error that changes nothing |
| `IncrementalTree.LeanIMT.New` | leanimt.go:45-76 | opens the stored tree; missing leaves count as a new database, other errors are returned |
| `IncrementalTree.LeanIMT.Sync` | leanimt.go:470-527 | a dirty tree writes its leaves, their number and the version to any store, deletes later leaves of the stored size, and is clean; nothing is written if a leaf cannot be encoded |
| `IncrementalTree.AssignedDistinct` | leanimt.go:329-334 | with distinct indices each position gets its own value and the rest stay |
| `TreeRuns.RunTree` | leanimt.go:168-359 | after any run of operations and syncs the matrix is the one the resulting leaves determine, and the store is in step |
| `TreeRuns.RebuildAfterRun` | leanimt.go:540-578 | rebuilding after any run changes nothing |
| `TreeRuns.BatchEqualsRepeated` | leanimt.go:212-254 | a batch gives the same matrix as its leaves inserted one by one |
| `TreeRuns.BatchNeverCostsMore` | leanimt.go:212-213 | a batch never hashes more than repeated insertion, and less exactly when an intermediate size is no power of two |
| `TreeRuns.SingleCost` | leanimt.go:298-359 | UpdateMany of one leaf costs as many hashes as that leaf has siblings |
| `TreeRuns.UpdateManyNeverCostsMore` | leanimt.go:298-359 | UpdateMany never hashes more than the single updates together, nor more than a rebuild |
| `TreeRuns.AssignedInAnyOrder` | leanimt.go:329-334 | the order of distinct updates does not matter |
| `TreeRuns.UpdateManyEqualsUpdates` | leanimt.go:298-359 | one UpdateMany and the single updates in any order both give the matrix of the reassigned leaves |
| `TreeRuns.RunThenReopen` | leanimt.go:418-527 | over any run from an empty store, a clean tree's store holds exactly its leaves and reopening gives the same matrix |
| `TreeStore.HeldLeavesReload` | leanimt.go:439-458 | leaves held by the store are read back, when decoding undoes encoding on each |
| `TreeStore.ReadLeavesMeaning` | leanimt.go:439-458 | from any store the leaves are read exactly when each is stored and can be decoded |
| `TreeStore.ReadLeavesError` | leanimt.go:439-458 | otherwise the first leaf that is missing or cannot be decoded gives the error |
| `TreeStore.PlannedCommitHolds` | leanimt.go:486-523 | the committed transaction leaves exactly the new leaves, whatever number was stored before |
| `TreeStore.PlannedCommitWrites` | leanimt.go:486-523 | what the committed transaction does to any store, key by key |
| `Numerals.IntToString` | leanimt.go:386-407 | the text of every int, inside the 20-byte buffer |
| `Numerals.IntTextMeaning` | leanimt.go:386-407 | the text is the decimal notation in the characters 48 to 57, without leading zeros, after a minus sign if negative; the smallest int alone has characters below '0' |
| `Numerals.DecimalDigitByDigit` | leanimt.go:386-407 | the last character is 48 + n % 10, and before it is the text of n / 10 |
| `Numerals.DecodeInt` | leanimt.go:614-623 | the int read from the digits of a text |
| `Numerals.DecodedIntMeaning` | leanimt.go:614-623 | any text is read as the value of its digits wrapped to 64 bits; other characters are skipped |
| `Numerals.DecodeDecimal` | leanimt.go:609-623 | decoding undoes encoding for every non-negative int |
| `Numerals.DecimalInjective` | leanimt.go:386-407 | different ints have different texts |
| `Numerals.BigIntRoundTrip` | hashers.go:299-327 | the decoder undoes the encoder on every natural, zero included, and nothing is encoded as the empty string |
| `Numerals.BytesAreBigEndian` | hashers.go:299-313 | the encoding is big-endian without leading zero bytes, and a single zero byte for zero |
| `Numerals.SetBytesIsBigEndian` | hashers.go:315-327 | any byte string is decoded as a big-endian number |
| `Membership.PathClimbsToRoot` | proof.go:88-99 | climbing a leaf's own path ends at the root |
| `Membership.PathWithinDepth` | proof.go:36-62 | a path is no longer than the tree is deep |
| `Membership.LastPathLength` | proof.go:36-62 | the last leaf has popcount(n - 1) siblings |
| `Membership.AcceptedPathIsGenuine` | proof.go:88-105 | a path that climbs from a value to the root is the path of a leaf with that value |
| `Membership.PathFollowsCode` | proof.go:36-62 | the directions of a path depend on the index and the number of leaves only |
| `Membership.CodeIsPrefixFree` | proof.go:36-62 | no leaf's directions from the root start with another leaf's |
| `Membership.CodeIsComplete` | proof.go:36-62 | every direction string follows some leaf's directions or stops short of them |
| `Membership.PathBitsIdentifyLeaf` | proof.go:64-70 | the number of siblings and the packed bits identify the leaf |
| `Membership.FreeHashBinds` | proof.go:87-105 | the hypothesis of soundness is met by the free hash, for every tree of values and every path |
| `Proofs.VerifyProofWith` | proof.go:87-105 | accepts exactly when the described path climbs from the leaf to the root |
| `Proofs.AcceptedUnfolds` | proof.go:87-105 | acceptance of any proof, step by step: the lowest path bit says on which side the first sibling is hashed |
| `Proofs.PackPathBits` | proof.go:64-70 | the uint64 holds the first 64 directions, the first one lowest |
| `Proofs.ProofStepsArePath` | proof.go:64-99 | reading the packed bits back by shift and mask gives the path that was packed |
| `Proofs.GeneratedProofVerifies` | proof.go:22-105 | every generated proof verifies, with at most depth siblings, and popcount(n - 1) for the last leaf |
| `Proofs.GeneratedProofNamesLeaf` | proof.go:22-80 | a generated proof carries the index, the leaf and the root, so the proofs of one tree differ |
| `Proofs.FullTreePathBits` | proof.go:36-70 | in a full tree of depth d every proof has d siblings and path bits equal to the index |
| `Proofs.AcceptedProofIsGenerated` | proof.go:22-105 | an accepted proof has the leaf, siblings and low path bits of the generated proof of exactly one index |
| `Proofs.SameProofIsAccepted` | proof.go:87-105 | whatever has the leaf, siblings and low path bits of a generated proof is accepted, whatever the higher bits and the leaf index |
| `Proofs.AcceptedIff` | proof.go:22-105 | with binding hashes, acceptance against a tree's root is exactly that |
| `Bits.OrBit` | census/helpers.go:17-19 | the or that packing uses sets a bit exactly when one of its operands has it |
| `Bits.AndBit` | census/helpers.go:24-32 | the and that unpacking uses keeps a bit exactly when both operands have it |
| `Packing.PackIsArithmetic` | census/helpers.go:9-20 | packing succeeds exactly for 160 and 88 bits, and equals address * 2^88 + weight |
| `Packing.PackedWidths` | census/helpers.go:9-20 | the widths in numbers: below 2^160 and 2^88, and address * 2^88 + weight |
| `Packing.UnpackPacked` | census/helpers.go:22-38 | mask-and-shift undoes packing |
| `Packing.PackUnpacked` | census/helpers.go:22-38 | packing undoes mask-and-shift on everything of 248 bits |
| `Packing.PackedInjective` | census/helpers.go:7-8 | packed values are below 2^248, tell their pairs apart, and are zero for the zero pair only |
| `Circuit.Verify` | circuit/leanimt_circuit.go:67-98 | unsatisfiable exactly for path bits of 2^24 or more; otherwise accepts exactly when the host verifier accepts the nonzero siblings with compacted bits |
| `Circuit.CircuitParameters` | circuit/leanimt_circuit.go:12 | 24 sibling slots, room for 2^24 leaves, and the order of the scalar field from the curve parameter |
| `Circuit.KeptOfPadded` | circuit/leanimt_circuit.go:26-32 | zero slots after the last sibling are neutral |
| `Circuit.KeptWhole` | circuit/leanimt_circuit.go:78-93 | nothing is dropped from a path exactly when no sibling is zero |
| `Circuit.CircuitPackingIsHostPacking` | circuit/leanimt_circuit.go:127-143 | the circuit's packing modulo the field order is the host's |
| `Circuit.EqualLeavesEqualPairs` | circuit/leanimt_circuit.go:132-143 | leaves equal in the field were packed from the same pair |
| `Circuit.VerifyCensusProof` | circuit/leanimt_circuit.go:114-125 | unsatisfiable exactly when a range constraint fails; otherwise verifies the packed leaf |
| `EndToEnd.CensusProofToMerkleProof` | circuit/leanimt_circuit.go:21-39 | the packed leaf, the siblings in 24 slots padded with zeros, and the path bits |
| `EndToEnd.NothingTruncated` | circuit/leanimt_circuit.go:21-39 | with at most 2^24 slots the converted proof has 24 sibling slots that start with all the siblings of the proof, the bits fit and all values are canonical |
| `EndToEnd.AllSiblingsFitIff` | circuit/leanimt_circuit.go:21-39 | the conversion keeps every sibling of every proof exactly up to 2^24 slots |
| `EndToEnd.SlotProofAccepted` | circuit/leanimt_circuit.go:67-98 | the converted proof of a slot without a zero sibling is accepted |
| `EndToEnd.MemberProofAcceptedIff` | circuit/leanimt_circuit.go:78-97 | a member's converted proof is accepted exactly when it has no zero sibling |
| `EndToEnd.LonelyMemberProof` | circuit/leanimt_circuit.go:78-97 | with two slots and the second emptied, the first member's proof is accepted exactly when its leaf is its own hash with zero, which binding hashes exclude |
| `EndToEnd.LonelyMemberIsRejected` | circuit/leanimt_circuit.go:78-97 | two members join, the second leaves, and the first one's honest proof against that census is rejected |
| `EndToEnd.AcceptedPairIsMember` | circuit/leanimt_circuit.go:100-125 | whatever the circuit accepts against a census root is a member with that weight |
| `EndToEnd.ProveMember` | census/census_imt.go:230-265 | generation, conversion and verification on the objects, for any member of a consistent census |
| `EndToEnd.VerifyMembership` | circuit/leanimt_circuit.go:100-125 | verification against a live census accepts exactly when the host verifier accepts the packed pair, and then the address is a member with that weight |
| `CensusState.AppendKeepsInv` | census/census_imt.go:124-134 | adding a new member keeps the maps, weights and leaves consistent |
| `CensusState.ReweightKeepsInv` | census/census_imt.go:213-220 | a new weight keeps them consistent and moves nobody |
| `CensusState.VacateKeepsInv` | census/census_imt.go:862-872 | removing a member keeps them consistent, with a zero leaf left behind |
| `CensusState.OneSlotChanges` | census/census_imt.go:855-890 | adding, reweighting and removing touch one slot and one address, in any census, consistent or not |
| `CensusState.MemberHasOneSlot` | census/census_imt.go:842-846 | a nonzero packed pair is the leaf of that member's slot and of no other |
| `CensusState.BulkKeepsInvIffDistinct` | census/census_imt.go:160-189 | a bulk addition keeps consistency exactly when its addresses are pairwise distinct |
| `CensusState.RepeatedAddressBreaksInv` | census/census_imt.go:160-189 | the state that adding the same address twice leads to is inconsistent |
| `CensusRuns.RepeatedAddressIsAccepted` | census/census_imt.go:146-199 | adding the same address twice in bulk is accepted and gives two slots to one address, which is inconsistent |
| `Census.CensusIMT.Add` | census/census_imt.go:114-144 | appends the member in memory and writes it to any store, with the size; an existing address or a too wide weight changes nothing |
| `Census.CensusIMT.AddBulk` | census/census_imt.go:146-199 | appends all members in memory and any store, with the checks in order; consistent exactly when the batch is distinct |
| `Census.CensusIMT.Update` | census/census_imt.go:201-228 | replaces leaf and weight of an existing member, in memory and any store |
| `Census.CensusIMT.GenerateProof` | census/census_imt.go:230-265 | the tree proof of the member's slot with address and weight, or the error in order |
| `Census.CensusIMT.PersistEntry` | census/census_imt.go:443-469 | the three writes of a member and the size, in one transaction |
| `Census.CensusIMT.PersistBulkEntries` | census/census_imt.go:471-502 | the writes of all members and the size, in one transaction |
| `CensusStore.PersistedIsReadable` | census/census_imt.go:443-469 | after persisting a member in any store its slot, address, weight and the size are read back, and nothing else has changed |
| `CensusStore.BulkPersistedIsReadable` | census/census_imt.go:471-502 | the same for each member persisted in bulk, if the addresses differ |
| `Census.CensusIMT.New` | census/census_imt.go:80-102 | opening gives what the leaves and slots in the store say, or the error; a synced store gives back the same census if it has no empty slot, and fails otherwise |
| `Census.CensusIMT.Load` | census/census_imt.go:504-544 | the maps are restored slot by slot over those the object has, up to the first missing entry |
| `CensusStore.LoadedMapsMeaning` | census/census_imt.go:518-541 | from any store the maps are loaded exactly when every slot has its address and that address a weight; the slots are then mapped to these addresses |
| `CensusStore.LoadedMember` | census/census_imt.go:536-540 | an address is mapped to the last slot naming it, with its stored weight |
| `CensusStore.OpeningError` | census/census_imt.go:520-534 | opening fails at the first slot without an address or without a weight, and says which |
| `CensusStore.MissingLeafDropsAll` | census/census_imt.go:80-102 | a store in which a leaf is missing is opened without any leaves, but with its maps |
| `Census.CensusIMT.Sync` | census/census_imt.go:546-558 | afterwards the store holds the current leaves too |
| `Census.CensusIMT.ApplyEvent` | census/census_imt.go:842-890 | the object takes exactly the step that the refinement is about |
| `Census.CensusIMT.ApplyEvents` | census/census_imt.go:895-909 | events are applied in order up to the first that fails; if none does the store holds the leaves afterwards, and in no case are the stored maps touched |
| `Census.CensusIMT.ImportEvents` | census/census_imt.go:911-950 | the events are applied to cleared maps over the old leaves; a different or missing root is an error; the store is reset, and on success the leaves are written to it, unless no event changed a clean tree |
| `CensusState.ForgottenIsConsistentIff` | census/census_imt.go:925-928 | cleared maps fit the old leaves exactly when all of them are zero |
| `EventImports.ImportedEventsArePlainFold` | census/census_imt.go:911-933 | over the leaves of any consistent census a truthful stream never fails and gives its plain fold; the result is consistent exactly when each old leaf is zero or belonged to a member of weight zero that the stream gives a weight |
| `EventImports.OldLeavesSurviveImport` | census/census_imt.go:915-933 | one old member of positive weight and one event for another address: the old leaf stays beside the new one, and the census is inconsistent |
| `Events.OpIsDocumentedIff` | census/census_imt.go:817-838 | the classification is the documented one exactly when truncation to 64 bits keeps the signs it looks at |
| `Events.LargeWeightIsDropped` | census/census_imt.go:824-838 | a first weight of 2^64 is taken for no operation |
| `Events.SmallWeightsRepresentable` | census/census_imt.go:824-838 | below 2^63 every event is classified as documented |
| `Events.SearchFindsMember` | census/census_imt.go:844-846 | searching for a packed pair finds the slot of the member with that weight, or nothing |
| `Events.EventRefusedIff` | census/census_imt.go:842-880 | any event on a consistent census fails exactly when a weight is too wide, or the member to delete or update does not have the previous weight; the census is then unchanged |
| `Events.EventEffect` | census/census_imt.go:842-890 | what any other event does, in terms of members and weights, up to date or not |
| `Events.EventTakesFirstLeaf` | census/census_imt.go:844-890 | on any census, consistent or not, the first slot with the packed previous weight is taken |
| `Events.EventWithoutLeaf` | census/census_imt.go:844-890 | on any census without such a leaf an insertion appends and a deletion or update fails |
| `Events.EventKeepsInvIff` | census/census_imt.go:842-890 | an event, but for an insertion of the zero address from weight zero, breaks consistency exactly when it inserts an address that is a member with another weight |
| `Events.StreamStopsAtRefused` | census/census_imt.go:840-893 | a stream stops at the first refused event, with the census before it |
| `Events.StreamSucceedsIff` | census/census_imt.go:840-893 | as long as the census stays consistent a stream succeeds exactly when no event is refused |
| `Events.OutOfDateUpdateFails` | census/census_imt.go:873-880 | an update with another previous weight than the member's fails and changes nothing |
| `Events.EventRefinesPlainStep` | census/census_imt.go:840-891 | a truthful event never fails and keeps every slot; the weights become those of the plain step exactly when the event is representable |
| `Events.EventsRefinePlainFold` | census/census_imt.go:840-893 | a truthful stream never fails, leaves the plain fold of the weights, and keeps the slots of before or empties them |
| `Events.StreamIsPlainIff` | census/census_imt.go:840-893 | every moment of a truthful stream succeeds with the weights of its plain fold exactly when every event is representable |
| `Events.StreamKeepsSlots` | census/census_imt.go:840-893 | between any two moments of the stream a slot keeps its address or is emptied |
| `Events.MembersKeepTheirSlots` | census/census_imt.go:840-893 | an address that the plain fold has at every moment between two keeps its slot between them |
| `Events.EmptiedSlotsStayZero` | census/census_imt.go:862-872 | a slot without a member at any moment of the stream holds zero for good and is never reused |
| `Events.ZeroAddressKeepsSlotsIff` | census/census_imt.go:844-861 | the first weight of the zero address keeps consistency and slots exactly when the first zero leaf is its own, or there is neither |
| `Events.ZeroAddressKeepsInvIff` | census/census_imt.go:844-861 | such an event keeps consistency exactly when the zero address is no member or the first zero leaf is its own |
| `Events.ZeroAddressReusesEmptySlot` | census/census_imt.go:844-861 | a member leaves, and the first weight of the zero address takes over its emptied slot |
| `Census.CensusIMT.DumpAll` | census/census_imt.go:575-620 | root, entries of all slots, number of members and total weight; an error when empty |
| `Census.TotalParticipantsIsMembers` | census/census_imt.go:588-617 | the counted participants are the members |
| `Census.TotalWeightIsSum` | census/census_imt.go:588-617 | the total weight is the sum of the weights map |
| `Census.TotalsSlotBySlot` | census/census_imt.go:588-617 | number and weight of the participants slot by slot, in any census |
| `Census.CensusIMT.DumpRange` | census/census_imt.go:306-353 | the entries of the range that 64-bit arithmetic gives; or a data corruption error, with nothing emitted for a limited range of at most 10000, and else the whole batches before |
| `Dumps.DumpedSlot` | census/census_imt.go:355-394 | each entry has its slot, address and weight, or zeros for an unmapped slot |
| `Census.RangeIsDocumentedIff` | census/census_imt.go:316-339 | the documented range is emitted exactly when offset and limit do not overflow |
| `Census.LargestLimitDumpsNothing` | census/census_imt.go:337-349 | the largest limit from slot 1 on emits nothing |
| `Census.PagesConcatenate` | census/census_imt.go:306-341 | two consecutive pages, of any lengths, join up |
| `Census.PagesArePrefix` | census/census_imt.go:306-341 | the first k pages of a fixed size are the dump up to the end of the last one |
| `Census.PagesGiveFullDumpIff` | census/census_imt.go:306-341 | as many pages as the size needs give the full dump exactly when the end of the last one does not overflow |
| `Census.CensusIMT.DumpRangeSingleLock` | census/census_imt.go:355-394 | all entries of the range, or none and an error |
| `Census.CensusIMT.DumpRangeBatched` | census/census_imt.go:396-441 | batches of 1000 add up to the range, or stop before the first one with a missing weight |
| `Census.CensusIMT.DumpBatch` | census/census_imt.go:402-439 | one batch under the lock is one move of the step machine |
| `Dumps.BatchedDumpIsSnapshot` | census/census_imt.go:396-441 | over every interleaving with additions, single or in bulk, the dump emits the part of the snapshot that its batches make and never fails |
| `Dumps.BatchedDumpCompletes` | census/census_imt.go:396-441 | with one batch per thousand slots the dump is the whole snapshot |
| `Dumps.DumpingKeepsInv` | census/census_imt.go:396-441 | the census stays consistent during the dump, if bulk additions are distinct |
| `Dumps.ConsistentDumpCompletes` | census/census_imt.go:396-441 | a dump of a consistent census is its whole snapshot, and the census stays consistent, whatever distinct members were added in between |
| `Dumps.SortByIndex` | census/census_imt.go:1088-1095 | some permutation sorted by index |
| `Imports.PlacingSucceedsIff` | census/census_imt.go:651-682 | placing the entries succeeds exactly when every weight to be packed fits |
| `Imports.PlacingStopsAt` | census/census_imt.go:651-666 | otherwise placing stops at the first of them, after filling the gap before it |
| `Imports.ImportConsistentIff` | census/census_imt.go:651-682 | the imported census is consistent exactly when the addresses differ and each member gets the slot of its own index |
| `Imports.DistinctFits` | census/census_imt.go:651-682 | sorted entries with distinct indices and addresses meet that condition |
| `CensusRuns.RepeatedEntryIsImported` | census/census_imt.go:651-694 | a dump with one entry twice and the root of both is accepted, and the census is inconsistent |
| `Dumps.ImportUndoesDump` | census/census_imt.go:646-682 | any permutation of a dump, empty entries before the last dropped, restores the leaves, and the maps exactly without a zero member of weight zero |
| `Dumps.DumpIsSelection` | census/census_imt.go:592-611 | a full dump is such a list |
| `Census.CensusIMT.ImportAll` | census/census_imt.go:622-702 | memory afterwards depends on the dump alone, the store on it and on what the reset left; root mismatch, empty dump and too wide weight are errors; consistent exactly when the entries fit |
| `Census.CensusIMT.ResetPersistentState` | census/census_imt.go:985-1043 | the metadata, the leaves and the keys of the present members and slots are removed, and nothing else |
| `Census.CensusIMT.PersistImportedData` | census/census_imt.go:952-983 | the writes of the imported members and the size, in one transaction |
| `CensusStore.AgreesAfterEntry` | census/census_imt.go:443-469 | persisting a member keeps store and memory in agreement |
| `CensusStore.AgreesAfterBulk` | census/census_imt.go:471-502 | so does persisting in bulk |
| `CensusStore.ImportAgrees` | census/census_imt.go:952-983 | what an import persists agrees with the imported census |
| `CensusStore.ResetEmptiesStore` | census/census_imt.go:989-1043 | a store that agrees with the census is emptied by that |
| `CensusStore.ResetAfterEventsIff` | census/census_imt.go:1028-1040 | a store whose maps are those from before some events is emptied exactly when no member has left and no slot was emptied |
| `CensusStore.ResetKeepsOthers` | census/census_imt.go:989-1043 | a reset keeps the keys of other addresses, unmapped slots and later leaves |
| `StaleKeys.RemovedMemberReturns` | census/census_imt.go:985-1043 | a member is added and removed by an event, another is imported at index 1, and the synced store is reopened: the removed member is back in slot 0 |
| `CensusStore.ReopenRestoresIffGapFree` | census/census_imt.go:510-541 | loading restores the maps exactly when no slot is empty, and otherwise stops at the first one |
| `CensusStore.SyncedStoreOpens` | census/census_imt.go:80-102 | opening the store of a synced census gives it back exactly when no slot is empty, and otherwise fails |
| `CensusStore.OldMapsFitIff` | census/census_imt.go:510-541 | stored maps fit later leaves exactly when the old leaves are unchanged and only zeros follow |
| `CensusRuns.NextKeepsInv` | census/census_imt.go:115-228 | every allowed operation keeps the census consistent |
| `CensusRuns.InvOverAllRuns` | census/census_imt.go:115-228 | the census is consistent after every operation of every allowed run |
| `CensusRuns.Perform` | census/census_imt.go:114-228 | the object takes the steps of those runs and no others, and keeps its store in agreement in all but event steps and bad imports |
| `CensusRuns.AdditionsLeaveNoGap` | census/census_imt.go:114-228 | additions, updates, syncs and good imports give a consistent census, without empty slots if nothing was imported |
| `CensusRuns.RunFromEmpty` | census/census_imt.go:114-228 | such a run from an empty store ends with the census that folding its operations gives, and memory and store in agreement |
| `CensusRuns.RunThenReopen` | census/census_imt.go:504-558 | after any such run ended by a sync, reopening gives the same maps and the same tree, namely those that folding the operations gives, exactly when no slot is empty; otherwise it fails |
| `EventReopens.ReopenedIsConsistentIff` | census/census_imt.go:895-909 | the maps of before fit the leaves after a truthful stream exactly when nobody leaves at any time, and in the end nobody has joined and every weight is as before |
| `CensusRuns.ReopenAfterEvents` | census/census_imt.go:895-909 | reopening after events fails if a slot was empty before, and otherwise gives the maps of before over the leaves of now, consistent exactly under that condition |
| `CensusRuns.JoinedMemberIsLost` | census/census_imt.go:895-909 | a member joins an empty census by an event; the reopened census has its leaf and no member |
| `StaleKeys.AddAfterEvents` | census/census_imt.go:136-141 | after any events an added member's slot and weight and the new size are read from the store, and earlier slots are as before the events |
| `StaleKeys.JoinedThenAddedIsNotReopened` | census/census_imt.go:522-527 | a member joins by an event, another is added, the census is synced: opening the store fails |
| `CensusRuns.ImportedGapIsNotReopened` | census/census_imt.go:522-527 | one participant imported at index 1 and synced gives a consistent census with an empty slot 0, and opening its store fails |
| `CensusRuns.ImportsCoincide` | census/census_imt.go:622-702 | importing a dump into any two censuses whose stores agree with them leaves the same memory and store, those that the dump determines |
| `CensusRuns.ImportForgetsThePast` | census/census_imt.go:622-644 | importing after any run of additions, updates, syncs and good imports leaves what importing into an empty store leaves |
| `CensusRuns.DumpThenImport` | census/census_imt.go:575-702 | a dump imported elsewhere succeeds and restores the census |

## Left out

- Concrete hash functions and the fact that host and circuit compute the same one: foreign libraries.
- JSON encodings (`json.go`, `Import` from a stream, the text of a ranged dump): library plumbing; a dump is a sequence.
- Nil arguments (a missing hash, encoder, decoder, slice or weight), custom equality functions, and error texts.
- Locks and goroutines, except that a batched dump is a step machine with additions between its batches; the proof generator of the tree is treated as sequential.
- Pebble, pipes, timestamps and input/output failures.
- Negative big integers, and slices longer than the largest int.
- The mixed-case checksum of address texts: an address text is its hexadecimal digits.
- CensusRuns.ImportsCoincide: for dumps with distinct indices, because the library's sort may order equal indices either way.
- CensusRuns.ImportForgetsThePast: for dumps with distinct indices, for the same reason.
- Census.CensusIMT.ImportAll: after a failed import only memory and the reset store are described, as the old census is already gone.
