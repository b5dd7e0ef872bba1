/** From a census member to the circuit and back: which census proofs the circuit accepts, and
    what an accepted one says about the census. */
module EndToEnd {
  import opened Wrappers
  import opened Bits
  import opened LeanTree
  import opened Membership
  import opened Proofs
  import opened Numerals
  import opened Packing
  import opened CensusState
  import opened Census
  import opened Circuit
  import Events

  /** The first 24 siblings, padded with zeros. */
  function Padded(siblings: seq<nat>): (r: seq<nat>)
    ensures |r| == MAX_CENSUS_DEPTH == 24
    ensures forall i | 0 <= i < |r| :: r[i] == if i < |siblings| then siblings[i] else 0
  {
    seq(MAX_CENSUS_DEPTH, i requires 0 <= i => if i < |siblings| then siblings[i] else 0)
  }

  /** Converts a census proof to a circuit proof; None is the panic of packing. */
  method CensusProofToMerkleProof(proof: CensusProof) returns (r: Option<CircuitProof>)
    ensures r == match PackAddressWeight(proof.address, proof.weight)
                 case None => None
                 case Some(leaf) =>
                   Some(CircuitProof(leaf, proof.pathBits, proof.addressIndex, Padded(proof.siblings)))
  {
    var siblings: seq<nat> := [];
    for i := 0 to MAX_CENSUS_DEPTH
      invariant |siblings| == i
      invariant forall k | 0 <= k < i :: siblings[k] == if k < |proof.siblings| then proof.siblings[k] else 0
    {
      siblings := siblings + [if i < |proof.siblings| then proof.siblings[i] else 0];
    }
    var leaf := PackAddressWeight(proof.address, proof.weight);
    if leaf.None? {
      return None;
    }
    assert siblings == Padded(proof.siblings);
    r := Some(CircuitProof(leaf.value, proof.pathBits, proof.addressIndex, siblings));
  }

  /** The circuit proof of the leaf in slot i. */
  function CircuitProofOf(hash: (nat, nat) -> nat, leaves: seq<nat>, i: nat): CircuitProof
    requires i < |leaves|
  {
    var p := ProofOf(hash, leaves, i);
    CircuitProof(p.leaf, p.pathBits, i, Padded(p.siblings))
  }

  ghost predicate InField(hash: (nat, nat) -> nat, leaves: seq<nat>) {
    && (forall x: nat, y: nat :: hash(x, y) < BN254)
    && (forall x | x in leaves :: x < BN254)
  }

  ghost predicate NoZeroSibling(hash: (nat, nat) -> nat, leaves: seq<nat>, i: nat)
    requires i < |leaves|
  {
    var path := Path(hash, leaves, i);
    forall k | 0 <= k < |path| :: path[k].sibling != 0
  }

  lemma NextLevelInField(hash: (nat, nat) -> nat, leaves: seq<nat>)
    requires InField(hash, leaves)
    ensures InField(hash, NextLevel(hash, leaves))
  {
    var next := NextLevel(hash, leaves);
    forall i | 0 <= i < |next| ensures next[i] < BN254 {
      assert leaves[2 * i] in leaves;
    }
  }

  ghost predicate SiblingsInField(path: seq<Step<nat>>) {
    forall k | 0 <= k < |path| :: path[k].sibling < BN254
  }

  lemma {:induction false} PathInField(hash: (nat, nat) -> nat, leaves: seq<nat>, i: nat)
    requires InField(hash, leaves) && i < |leaves|
    ensures Root<nat>(hash, leaves) < BN254 && SiblingsInField(Path(hash, leaves, i))
    decreases |leaves|
  {
    if |leaves| > 1 {
      NextLevelInField(hash, leaves);
      PathInField(hash, NextLevel(hash, leaves), i / 2);
      forall k | 0 <= k < |leaves| ensures leaves[k] < BN254 { assert leaves[k] in leaves; }
      assert SiblingsInField(StepAt(leaves, i));
    } else {
      assert leaves[0] in leaves;
    }
  }

  /** With at most 2^24 slots nothing is truncated: the path fits the sibling slots, its bits fit
      24 bits, and every value is a canonical field element. */
  lemma NothingTruncated(hash: (nat, nat) -> nat, leaves: seq<nat>, i: nat)
    requires InField(hash, leaves) && i < |leaves| <= 0x100_0000
    ensures var siblings, slots := ProofOf(hash, leaves, i).siblings, CircuitProofOf(hash, leaves, i).siblings;
            |siblings| <= 24 == |slots| && siblings <= slots && forall k | |siblings| <= k < 24 :: slots[k] == 0
    ensures ProofOf(hash, leaves, i).pathBits < 0x100_0000
    ensures Canonical(hash, CircuitProofOf(hash, leaves, i), Root(hash, leaves))
  {
    var p, path := ProofOf(hash, leaves, i), Path(hash, leaves, i);
    CircuitParameters();
    CeilLog2Least(|leaves|, MAX_CENSUS_DEPTH);
    PathWithinDepth(hash, leaves, i);
    PackBitsBound(Rights(path));
    Pow2Monotone(|path|, MAX_CENSUS_DEPTH);
    PathInField(hash, leaves, i);
    forall k | 0 <= k < MAX_CENSUS_DEPTH ensures Padded(p.siblings)[k] < BN254 {
      if k < |path| { assert Padded(p.siblings)[k] == path[k].sibling; }
    }
    assert leaves[i] in leaves;
  }

  /** The first leaf has a sibling on every level. */
  lemma {:induction false} FirstPathLength(hash: (nat, nat) -> nat, leaves: seq<nat>)
    requires leaves != []
    ensures |Path(hash, leaves, 0)| == CeilLog2(|leaves|)
    decreases |leaves|
  {
    if |leaves| == 1 {
    } else {
      FirstPathLength(hash, NextLevel(hash, leaves));
    }
  }

  /** The conversion keeps every sibling of the proof of leaf i. */
  predicate AllSiblingsFit(hash: (nat, nat) -> nat, leaves: seq<nat>, i: nat)
    requires i < |leaves|
  {
    ProofOf(hash, leaves, i).siblings <= Padded(ProofOf(hash, leaves, i).siblings)
  }

  lemma FitsUpTo24(hash: (nat, nat) -> nat, leaves: seq<nat>, i: nat)
    requires i < |leaves|
    ensures AllSiblingsFit(hash, leaves, i) <==> |Path(hash, leaves, i)| <= 24
  {
    var siblings := ProofOf(hash, leaves, i).siblings;
    if |siblings| <= 24 { assert siblings == Padded(siblings)[..|siblings|]; }
  }

  /** More slots are too many: every proof keeps all its siblings exactly up to 2^24 of them. */
  lemma AllSiblingsFitIff(hash: (nat, nat) -> nat, leaves: seq<nat>)
    requires leaves != []
    ensures (forall i | 0 <= i < |leaves| :: AllSiblingsFit(hash, leaves, i)) <==> |leaves| <= 0x100_0000
  {
    CircuitParameters();
    CeilLog2Least(|leaves|, 24);
    FirstPathLength(hash, leaves);
    FitsUpTo24(hash, leaves, 0);
    if |leaves| <= 0x100_0000 {
      forall i | 0 <= i < |leaves| ensures AllSiblingsFit(hash, leaves, i) {
        PathWithinDepth(hash, leaves, i);
        FitsUpTo24(hash, leaves, i);
      }
    } else {
      assert !AllSiblingsFit(hash, leaves, 0);
    }
  }

  /** The path the circuit follows for a converted proof: the leaf's path without zero siblings. */
  function CircuitPath(hash: (nat, nat) -> nat, leaves: seq<nat>, i: nat): seq<Step<nat>>
    requires i < |leaves|
  {
    var p := ProofOf(hash, leaves, i);
    KeptFrom(p.pathBits, p.siblings, 0)
  }

  lemma PaddingIsNeutral(pathBits: nat, siblings: seq<nat>)
    requires |siblings| <= MAX_CENSUS_DEPTH
    ensures KeptFrom(pathBits, Padded(siblings), 0) == KeptFrom(pathBits, siblings, 0)
  {
    var pad := Padded(siblings)[|siblings|..];
    assert Padded(siblings) == siblings + pad;
    KeptOfPadded(pathBits, siblings, pad, 0);
  }

  lemma ConvertedPath(hash: (nat, nat) -> nat, leaves: seq<nat>, i: nat, root: nat)
    requires i < |leaves| <= 0x100_0000
    ensures Steps(HostProof(CircuitProofOf(hash, leaves, i), root)) == CircuitPath(hash, leaves, i)
  {
    CircuitParameters();
    CeilLog2Least(|leaves|, MAX_CENSUS_DEPTH);
    PathWithinDepth(hash, leaves, i);
    var p, cp := ProofOf(hash, leaves, i), CircuitProofOf(hash, leaves, i);
    HostProofSteps(cp, root);
    PaddingIsNeutral(p.pathBits, p.siblings);
  }

  lemma CircuitPathIsWhole(hash: (nat, nat) -> nat, leaves: seq<nat>, i: nat)
    requires i < |leaves| <= 0x100_0000
    ensures CircuitPath(hash, leaves, i) == Path(hash, leaves, i) <==> NoZeroSibling(hash, leaves, i)
  {
    var p, path := ProofOf(hash, leaves, i), Path(hash, leaves, i);
    CircuitParameters();
    CeilLog2Least(|leaves|, MAX_CENSUS_DEPTH);
    ProofStepsArePath(hash, leaves, i);
    forall k | 0 <= k < |path| ensures path[k] == Step(Bit(p.pathBits, k), p.siblings[k]) {
      assert path[k] == Steps(p)[k];
    }
    KeptWhole(p.pathBits, p.siblings, 0);
  }

  /** Completeness, end to end: the converted proof of any slot without a zero sibling is accepted. */
  lemma SlotProofAccepted(hash: (nat, nat) -> nat, leaves: seq<nat>, i: nat)
    requires i < |leaves| <= 0x100_0000 && NoZeroSibling(hash, leaves, i)
    ensures Accepted(hash, HostProof(CircuitProofOf(hash, leaves, i), Root(hash, leaves)))
  {
    ConvertedPath(hash, leaves, i, Root(hash, leaves));
    CircuitPathIsWhole(hash, leaves, i);
    PathClimbsToRoot(hash, leaves, i);
  }

  /** For a member other than the zero address with zero weight, the condition is exact: emptied
      slots are real zero siblings, and a path that skips one leads elsewhere. */
  lemma MemberProofAcceptedIff(hash: (nat, nat) -> nat, s: State, a: Address)
    requires Inv(s) && a in s.addressIndex && (a, s.weights[a]) != (0, 0) && |s.leaves| <= 0x100_0000
    requires Binding(hash, s.leaves, Packed(a, s.weights[a]), CircuitPath(hash, s.leaves, s.addressIndex[a]))
    ensures var i := s.addressIndex[a];
            Accepted(hash, HostProof(CircuitProofOf(hash, s.leaves, i), Root(hash, s.leaves))) <==>
            NoZeroSibling(hash, s.leaves, i)
  {
    var i, root := s.addressIndex[a], Root(hash, s.leaves);
    assert SlotOk(s, i);
    ConvertedPath(hash, s.leaves, i, root);
    CircuitPathIsWhole(hash, s.leaves, i);
    if Accepted(hash, HostProof(CircuitProofOf(hash, s.leaves, i), root)) {
      var j := AcceptedPathIsGenuine(hash, s.leaves, s.leaves[i], CircuitPath(hash, s.leaves, i));
      MemberHasOneSlot(s, a, s.weights[a], j);
    } else if NoZeroSibling(hash, s.leaves, i) {
      SlotProofAccepted(hash, s.leaves, i);
    }
  }

  /** Soundness, end to end: whatever siblings and path bits are supplied, if the circuit accepts
      them for an address and a weight against a census root, then that address is a member with
      that weight. Only the zero pair is excepted, which an emptied slot also stands for. */
  lemma AcceptedPairIsMember(hash: (nat, nat) -> nat, s: State, address: nat, weight: nat, proof: CircuitProof)
    requires Inv(s) && s.leaves != [] && |proof.siblings| == 24
    requires PackLeaf(address, weight) == Some(proof.leaf) && (address, weight) != (0, 0)
    requires Accepted(hash, HostProof(proof, Root(hash, s.leaves)))
    requires Binding(hash, s.leaves, proof.leaf, KeptFrom(proof.pathBits, proof.siblings, 0))
    ensures address < TWO_160 && address in s.addressIndex && s.weights[address] == weight
  {
    CircuitPackingIsHostPacking(address, weight);
    PackIsArithmetic(address, weight);
    HostProofSteps(proof, Root(hash, s.leaves));
    var i := AcceptedPathIsGenuine(hash, s.leaves, proof.leaf, KeptFrom(proof.pathBits, proof.siblings, 0));
    MemberHasOneSlot(s, address, weight, i);
  }

  lemma CensusInField(hash: (nat, nat) -> nat, s: State)
    requires Inv(s) && forall x: nat, y: nat :: hash(x, y) < BN254
    ensures InField(hash, s.leaves)
  {
    forall i | 0 <= i < |s.leaves| ensures s.leaves[i] < BN254 {
      assert SlotOk(s, i);
      if i in s.indexToAddress {
        var a := s.indexToAddress[i];
        PackedInjective(a, s.weights[a], a, s.weights[a]);
      }
    }
  }

  /** The whole way, on the objects: a member's proof is generated, converted and verified in the
      circuit against the census root. */
  method ProveMember(c: CensusIMT, address: Address) returns (r: Option<bool>)
    requires c.Valid() && Inv(c.Now()) && address in c.addressIndex && |c.Now().leaves| <= 0x100_0000
    requires forall x: nat, y: nat :: c.hasher(x, y) < BN254
    ensures NoZeroSibling(c.hasher, c.Now().leaves, c.addressIndex[address]) ==> r == Some(true)
    ensures r == Some(Accepted(c.hasher, HostProof(CircuitProofOf(c.hasher, c.Now().leaves, c.addressIndex[address]),
                                                   Root(c.hasher, c.Now().leaves))))
  {
    ghost var s, i := c.Now(), c.addressIndex[address];
    assert SlotOk(s, i);
    PackIsArithmetic(address, c.weights[address]);
    CensusInField(c.hasher, s);
    NothingTruncated(c.hasher, s.leaves, i);
    var proof := c.GenerateProof(address);
    var converted := CensusProofToMerkleProof(proof.value);
    r := Circuit.Verify(converted.value, proof.value.root, c.hasher);
    if NoZeroSibling(c.hasher, s.leaves, i) { SlotProofAccepted(c.hasher, s.leaves, i); }
  }

  /** The census of two members whose second one has left. */
  function SecondLeft(a: Address, v: nat, b: Address, w: nat): State {
    Vacated(Appended(Appended(EMPTY, a, v), b, w), 1, b)
  }

  /** The remaining member's proof has the zero leaf as its only sibling, which the circuit skips:
      it is accepted only if the leaf is its own hash with zero, and never when hashes bind. */
  lemma LonelyMemberProof(hash: (nat, nat) -> nat, a: Address, v: nat, b: Address, w: nat)
    ensures var leaves, leaf := SecondLeft(a, v, b, w).leaves, Packed(a, v);
            && leaves == [leaf, 0]
            && (Accepted(hash, HostProof(CircuitProofOf(hash, leaves, 0), Root(hash, leaves))) <==>
                hash(leaf, 0) == leaf)
            && (Binding(hash, leaves, leaf, CircuitPath(hash, leaves, 0)) ==> hash(leaf, 0) != leaf)
  {
    var leaves, leaf := SecondLeft(a, v, b, w).leaves, Packed(a, v);
    ConvertedPath(hash, leaves, 0, Root(hash, leaves));
    assert NextLevel(hash, leaves) == [hash(leaf, 0)];
    assert Path(hash, leaves, 0) == [Step(false, 0)];
    assert CircuitPath(hash, leaves, 0) == [];
    assert PairAt(leaves, 0, leaf, 0) && TreeHashes(hash, leaves, leaf, 0);
  }

  /** Leaving is a truthful event, which vacates the second slot. */
  lemma SecondLeaves(a: Address, v: nat, b: Address, w: nat)
    requires a != b && v < TWO_88 && 0 < w <= MAX_INT
    ensures var s := Appended(Appended(EMPTY, a, v), b, w);
            Events.ApplyEvents(s, [Events.Event(b, w, 0)]) == (SecondLeft(a, v, b, w), Done)
    ensures Inv(SecondLeft(a, v, b, w)) && a in SecondLeft(a, v, b, w).addressIndex
  {
    var s, e := Appended(Appended(EMPTY, a, v), b, w), Events.Event(b, w, 0);
    AppendKeepsInv(EMPTY, a, v);
    AppendKeepsInv(Appended(EMPTY, a, v), b, w);
    Events.SmallWeightsRepresentable(e);
    Events.TruthfulEventEffect(s, e);
    assert [e][..0] == [] && Events.ApplyEvents(s, [e]) == Events.ApplyEvent(s, e);
    VacateKeepsInv(s, b);
  }

  /** A member whose honest proof the circuit rejects: two members join, the second one leaves, and
      the first one's proof is generated, converted and verified. */
  method LonelyMemberIsRejected(hasher: (nat, nat) -> nat, a: Address, v: nat, b: Address, w: nat)
      returns (c: CensusIMT, r: Option<bool>)
    requires a != b && v < TWO_88 && 0 < w <= MAX_INT
    requires (forall x: nat, y: nat :: hasher(x, y) < BN254) && hasher(Packed(a, v), 0) != Packed(a, v)
    ensures c.Valid() && c.hasher == hasher && c.Now() == SecondLeft(a, v, b, w)
    ensures var leaves := SecondLeft(a, v, b, w).leaves;
            r == Some(Accepted(hasher, HostProof(CircuitProofOf(hasher, leaves, 0), Root(hasher, leaves))))
    ensures r == Some(false)
  {
    var created := CensusIMT.New(null, hasher, EMPTY);
    c := created.value;
    var first := c.Add(a, v);
    var second := c.Add(b, w);
    SecondLeaves(a, v, b, w);
    var left := c.ApplyEvents([Events.Event(b, w, 0)]);
    LonelyMemberProof(hasher, a, v, b, w);
    r := ProveMember(c, a);
  }

  /** What a circuit verification against a census root tells, on the object: if it accepts and the
      hashes bind, the address is a member with that weight. */
  method VerifyMembership(c: CensusIMT, address: Element, weight: Element, pathBits: Element, leafIndex: Element,
                          siblings: seq<Element>) returns (accepted: bool)
    requires c.Valid() && Inv(c.Now()) && c.Now().leaves != [] && (address, weight) != (0, 0)
    requires (forall x: nat, y: nat :: c.hasher(x, y) < BN254) && |siblings| == 24
    requires Binding(c.hasher, c.Now().leaves, Packed(address, weight), KeptFrom(pathBits, siblings, 0))
    ensures accepted ==> address < TWO_160 && address in c.addressIndex && c.weights[address] == weight
    ensures accepted <==>
            && address < TWO_160 && weight < TWO_88 && pathBits < 0x100_0000
            && Accepted(c.hasher, HostProof(CircuitProof(Packed(address, weight), pathBits, leafIndex, siblings),
                                            Root(c.hasher, c.Now().leaves)))
  {
    ghost var s := c.Now();
    CensusInField(c.hasher, s);
    PathInField(c.hasher, s.leaves, 0);
    var root := c.tree.RootNode();
    var r := VerifyCensusProof(root.value, address, weight, pathBits, leafIndex, siblings, c.hasher);
    accepted := r == Some(true);
    PackIsArithmetic(address, weight);
    if accepted {
      var proof := CircuitProof(Packed(address, weight), pathBits, leafIndex, siblings);
      AcceptedPairIsMember(c.hasher, s, address, weight, proof);
    }
  }
}
