/** The in-circuit verifier: a fixed number of sibling slots, where zero means no sibling.
    Circuit variables are elements of the BN254 scalar field: naturals below its order. */
module Circuit {
  import opened Bits
  import opened Wrappers
  import opened LeanTree
  import opened Membership
  import opened Proofs
  import opened Packing

  const BN254: nat := 21888242871839275222246405745257275088548364400416034343698204186575808495617
  const MAX_CENSUS_DEPTH: nat := 24

  type Element = x: nat | x < BN254

  /** A proof as it is assigned to circuit variables; see Canonical. */
  datatype CircuitProof = CircuitProof(leaf: nat, pathBits: nat, leafIndex: nat, siblings: seq<nat>)

  /** The order of the scalar field of BN254, from the parameter of that curve, and the depth of a census
      circuit with the number of slots it has room for. */
  lemma CircuitParameters()
    ensures var x := 4965661367192848881;
            BN254 == 36 * x * x * x * x + 36 * x * x * x + 18 * x * x + 6 * x + 1
    ensures BN254 == 0x30644e72_e131a029_b85045b6_8181585d_2833e848_79b97091_43e1f593_f0000001
    ensures MAX_CENSUS_DEPTH == 24 && Pow2(MAX_CENSUS_DEPTH) == 0x100_0000
  {
    assert Pow2(8) == 0x100;
    PowerSum(8, 0x100, 8, 0x100);
    PowerSum(16, 0x1_0000, 8, 0x100);
  }

  predicate IsZero(x: int) {
    x % BN254 == 0
  }

  function Select<T>(bit: bool, x: T, y: T): T {
    if bit then x else y
  }

  /** All values are canonical field elements, and so is what the hash makes of them. */
  ghost predicate Canonical(hash: (nat, nat) -> nat, proof: CircuitProof, root: nat) {
    && (forall x: nat, y: nat :: hash(x, y) < BN254)
    && proof.leaf < BN254 && proof.pathBits < BN254 && root < BN254
    && |proof.siblings| == MAX_CENSUS_DEPTH == 24
    && (forall i | 0 <= i < |proof.siblings| :: proof.siblings[i] < BN254)
  }

  /** The path of the sibling slots from position i on that are not padding. */
  function KeptFrom(pathBits: nat, siblings: seq<nat>, i: nat): (kept: seq<Step<nat>>)
    requires i <= |siblings|
    ensures |kept| <= |siblings| - i
    decreases |siblings| - i
  {
    if i == |siblings| then []
    else
      (if siblings[i] == 0 then [] else [Step(Bit(pathBits, i), siblings[i])]) + KeptFrom(pathBits, siblings, i + 1)
  }

  /** The proof for the host verifier: the nonzero siblings, the path bits moved to their new
      positions. */
  function HostProof(proof: CircuitProof, root: nat): MerkleProof<nat>
    requires |proof.siblings| <= 64
  {
    var kept := KeptFrom(proof.pathBits, proof.siblings, 0);
    Low64Fits(Rights(kept));
    MerkleProof(root, proof.leaf, PackBits(Rights(kept)), proof.leafIndex, Siblings(kept))
  }

  lemma HostProofSteps(proof: CircuitProof, root: nat)
    requires |proof.siblings| <= 64
    ensures Steps(HostProof(proof, root)) == KeptFrom(proof.pathBits, proof.siblings, 0)
  {
    var kept := KeptFrom(proof.pathBits, proof.siblings, 0);
    forall b | 0 <= b < |kept| ensures Bit(PackBits(Rights(kept)), b) == kept[b].right {
      PackBitsBit(Rights(kept), b);
    }
  }

  /** The circuit: None when its constraints cannot be met, because the path bits do not fit one
      bit per sibling slot; otherwise it accepts exactly when the host verifier accepts the
      compacted proof. */
  method Verify(proof: CircuitProof, root: nat, hash: (nat, nat) -> nat) returns (r: Option<bool>)
    requires Canonical(hash, proof, root)
    ensures r == if proof.pathBits < 0x100_0000 then Some(Accepted(hash, HostProof(proof, root))) else None
  {
    CircuitParameters();
    BitLenBound(proof.pathBits, |proof.siblings|);
    if BitLen(proof.pathBits) > |proof.siblings| {
      return None;
    }
    var currentNode := ProcessSiblings(proof, hash);
    HostProofSteps(proof, root);
    CanonicalEquality(currentNode, root);
    r := Some(IsZero(currentNode - root));
  }

  /** The loop of Verify over the sibling slots. */
  method ProcessSiblings(proof: CircuitProof, hash: (nat, nat) -> nat) returns (currentNode: nat)
    requires Canonical(hash, proof, 0)
    ensures currentNode == Climb(hash, proof.leaf, KeptFrom(proof.pathBits, proof.siblings, 0)) < BN254
  {
    currentNode := proof.leaf;
    ghost var kept := KeptFrom(proof.pathBits, proof.siblings, 0);
    for i := 0 to |proof.siblings|
      invariant currentNode < BN254
      invariant Climb(hash, currentNode, KeptFrom(proof.pathBits, proof.siblings, i)) == Climb(hash, proof.leaf, kept)
    {
      ClimbKept(hash, currentNode, proof.pathBits, proof.siblings, i);
      currentNode := ProcessSibling(currentNode, proof.siblings[i], Bit(proof.pathBits, i), hash);
    }
  }

  /** The constraints for one sibling slot. */
  method ProcessSibling(currentNode: nat, sibling: nat, bit: bool, hash: (nat, nat) -> nat) returns (next: nat)
    requires sibling < BN254
    ensures next == if sibling == 0 then currentNode
                    else if bit then hash(sibling, currentNode) else hash(currentNode, sibling)
  {
    var isNonZero := !IsZero(sibling);
    var leftInput: nat := Select(bit, sibling, currentNode);
    var rightInput: nat := Select(bit, currentNode, sibling);
    var hashedValue := hash(leftInput, rightInput);
    next := Select(isNonZero, hashedValue, currentNode);
  }

  lemma ClimbKept(hash: (nat, nat) -> nat, node: nat, pathBits: nat, siblings: seq<nat>, i: nat)
    requires i < |siblings|
    ensures var s := siblings[i];
            var next := if s == 0 then node else if Bit(pathBits, i) then hash(s, node) else hash(node, s);
            Climb(hash, node, KeptFrom(pathBits, siblings, i)) == Climb(hash, next, KeptFrom(pathBits, siblings, i + 1))
  {
    var rest := KeptFrom(pathBits, siblings, i + 1);
    if siblings[i] == 0 {
      assert [] + rest == rest;
    } else {
      assert ([Step(Bit(pathBits, i), siblings[i])] + rest)[1..] == rest;
    }
  }

  /** Zero slots after the last sibling are neutral. */
  lemma {:induction false} KeptOfPadded(pathBits: nat, siblings: seq<nat>, pad: seq<nat>, i: nat)
    requires i <= |siblings| && forall k | 0 <= k < |pad| :: pad[k] == 0
    ensures KeptFrom(pathBits, siblings + pad, i) == KeptFrom(pathBits, siblings, i)
    decreases |siblings| - i
  {
    if i < |siblings| {
      KeptOfPadded(pathBits, siblings, pad, i + 1);
    } else {
      KeptOfZeros(pathBits, siblings + pad, i);
    }
  }

  lemma {:induction false} KeptOfZeros(pathBits: nat, siblings: seq<nat>, i: nat)
    requires i <= |siblings| && forall k | i <= k < |siblings| :: siblings[k] == 0
    ensures KeptFrom(pathBits, siblings, i) == []
    decreases |siblings| - i
  {
    if i == |siblings| {
    } else {
      KeptOfZeros(pathBits, siblings, i + 1);
    }
  }

  /** Nothing is dropped from a path exactly when none of its siblings is zero. */
  lemma {:induction false} KeptWhole(pathBits: nat, siblings: seq<nat>, i: nat)
    requires i <= |siblings|
    ensures |KeptFrom(pathBits, siblings, i)| == |siblings| - i <==> forall k | i <= k < |siblings| :: siblings[k] != 0
    ensures (forall k | i <= k < |siblings| :: siblings[k] != 0) ==>
              forall k | i <= k < |siblings| ::
                KeptFrom(pathBits, siblings, i)[k - i] == Step(Bit(pathBits, k), siblings[k])
    decreases |siblings| - i
  {
    if i < |siblings| {
      KeptWhole(pathBits, siblings, i + 1);
    }
  }

  // ---------------------------------------------------------------- packing in the circuit

  /** None stands for range constraints that cannot be met. */
  function PackLeaf(address: nat, weight: nat): Option<nat> {
    if BitLen(address) > ADDRESS_BITS || BitLen(weight) > WEIGHT_BITS then None
    else
      var addressShifted := (address * Shl(1, WEIGHT_BITS)) % BN254;
      Some((addressShifted + weight) % BN254)
  }

  lemma NoWrap(x: nat, w: nat)
    requires x + w < BN254
    ensures (x % BN254 + w) % BN254 == x + w
  {
  }

  lemma PackLeafIsArithmetic(address: nat, weight: nat)
    ensures PackLeaf(address, weight) ==
            if address < TWO_160 && weight < TWO_88 then Some(Packed(address, weight)) else None
  {
    Widths();
    BitLenBound(address, ADDRESS_BITS);
    BitLenBound(weight, WEIGHT_BITS);
    if address < TWO_160 && weight < TWO_88 {
      assert Shl(1, WEIGHT_BITS) == TWO_88;
      NoWrap(address * TWO_88, weight);
    }
  }

  /** The circuit's packing never wraps around the field order, so it is the host's. */
  lemma CircuitPackingIsHostPacking(address: nat, weight: nat)
    ensures PackLeaf(address, weight) == PackAddressWeight(address, weight)
    ensures PackLeaf(address, weight).Some? ==> PackLeaf(address, weight).value < TWO_248 < BN254
  {
    PackIsArithmetic(address, weight);
    PackLeafIsArithmetic(address, weight);
  }

  lemma CanonicalEquality(x: nat, y: nat)
    requires x < BN254 && y < BN254
    ensures IsZero(x - y) <==> x == y
  {
  }

  /** Two packed leaves that are equal in the field were packed from the same pair. */
  lemma EqualLeavesEqualPairs(a: nat, w: nat, b: nat, v: nat, x: nat, y: nat)
    requires PackLeaf(a, w) == Some(x) && PackLeaf(b, v) == Some(y) && IsZero(x - y)
    ensures a == b && w == v
  {
    CircuitPackingIsHostPacking(a, w);
    CircuitPackingIsHostPacking(b, v);
    CanonicalEquality(x, y);
    HostPackingInjective(a, w, b, v);
  }

  /** Packs the leaf and verifies the path; None when a constraint cannot be met. */
  method VerifyCensusProof(root: Element, address: Element, weight: Element, pathBits: Element, leafIndex: Element,
                           siblings: seq<Element>, hash: (nat, nat) -> nat) returns (r: Option<bool>)
    requires Canonical(hash, CircuitProof(0, pathBits, leafIndex, siblings), root)
    ensures r.None? <==> address >= TWO_160 || weight >= TWO_88 || pathBits >= 0x100_0000
    ensures r.Some? ==> PackLeaf(address, weight) == PackAddressWeight(address, weight) != None
    ensures r.Some? ==>
              var proof := CircuitProof(PackLeaf(address, weight).value, pathBits, leafIndex, siblings);
              r == Some(Accepted(hash, HostProof(proof, root)))
  {
    CircuitPackingIsHostPacking(address, weight);
    PackIsArithmetic(address, weight);
    var leaf := PackLeaf(address, weight);
    if leaf.None? {
      return None;
    }
    r := Verify(CircuitProof(leaf.value, pathBits, leafIndex, siblings), root, hash);
  }
}
