/** Membership proofs as the library exchanges them: siblings with packed path bits. */
module Proofs {
  import opened Bits
  import opened LeanTree
  import opened Membership

  type uint64 = x: nat | x < TWO_64

  datatype MerkleProof<N> = MerkleProof(root: N, leaf: N, pathBits: uint64, leafIndex: nat, siblings: seq<N>)

  /** The path a proof describes: the i-th sibling, on the side given by the i-th path bit. */
  function Steps<N>(proof: MerkleProof<N>): (path: seq<Step<N>>)
    ensures |path| == |proof.siblings|
    ensures forall i | 0 <= i < |path| :: path[i] == Step(Bit(proof.pathBits, i), proof.siblings[i])
  {
    seq(|proof.siblings|, i requires 0 <= i < |proof.siblings| => Step(Bit(proof.pathBits, i), proof.siblings[i]))
  }

  ghost predicate Accepted<N>(hash: (N, N) -> N, proof: MerkleProof<N>) {
    Climb(hash, proof.leaf, Steps(proof)) == proof.root
  }

  /** What is accepted, for any proof: without siblings the leaf must be the root; otherwise the leaf is
      hashed with the first sibling, on the side that the lowest path bit gives. */
  lemma AcceptedUnfolds<N>(hash: (N, N) -> N, proof: MerkleProof<N>)
    ensures proof.siblings == [] ==> (Accepted(hash, proof) <==> proof.leaf == proof.root)
    ensures proof.siblings != [] ==>
              var s := proof.siblings[0];
              var node := if proof.pathBits % 2 == 1 then hash(s, proof.leaf) else hash(proof.leaf, s);
              Accepted(hash, proof) <==>
              Accepted(hash, MerkleProof(proof.root, node, proof.pathBits / 2, proof.leafIndex, proof.siblings[1..]))
  {
    if proof.siblings != [] {
      var node := Climb(hash, proof.leaf, Steps(proof)[..1]);
      var rest := MerkleProof(proof.root, node, proof.pathBits / 2, proof.leafIndex, proof.siblings[1..]);
      assert Steps(proof)[1..] == Steps(rest);
      assert Steps(proof)[..1][1..] == [];
    }
  }

  method VerifyProofWith<N(==)>(proof: MerkleProof<N>, hash: (N, N) -> N) returns (ok: bool)
    ensures ok <==> Accepted(hash, proof)
  {
    var node := proof.leaf;
    ghost var path := Steps(proof);
    assert path[0..] == path;
    for i := 0 to |proof.siblings|
      invariant Climb(hash, node, path[i..]) == Climb(hash, proof.leaf, path)
    {
      assert path[i..][1..] == path[i + 1..];
      if Bit(proof.pathBits, i) {
        node := hash(proof.siblings[i], node);
      } else {
        node := hash(node, proof.siblings[i]);
      }
    }
    ok := node == proof.root;
  }

  function Siblings<N>(path: seq<Step<N>>): (s: seq<N>)
    ensures |s| == |path| && forall i | 0 <= i < |s| :: s[i] == path[i].sibling
  {
    seq(|path|, i requires 0 <= i < |path| => path[i].sibling)
  }

  /** The bits a uint64 can hold. */
  function Low64(bits: seq<bool>): seq<bool> {
    if |bits| <= 64 then bits else bits[..64]
  }

  lemma Low64Fits(bits: seq<bool>)
    ensures PackBits(Low64(bits)) < TWO_64
  {
    PackBitsBound(Low64(bits));
    Pow2Monotone(|Low64(bits)|, 64);
    TwoTo64();
  }

  /** Packs path bits into a uint64, the first one lowest; a shift past 63 contributes nothing. */
  method PackPathBits(pathBits: seq<bool>) returns (packed: uint64)
    ensures packed == PackBits(Low64(pathBits))
  {
    packed := 0;
    assert pathBits[..0] == [];
    for i := 0 to |pathBits|
      invariant packed == PackBits(Low64(pathBits[..i]))
    {
      SetPathBit(pathBits, i);
      if pathBits[i] {
        packed := Or(packed, Shl(1, i) % TWO_64);
      }
    }
    assert pathBits[..|pathBits|] == pathBits;
  }

  lemma SetLowBit(bits: seq<bool>, i: nat)
    requires i < |bits| && i < 64
    ensures PackBits(bits[..i + 1]) ==
            if bits[i] then Or(PackBits(bits[..i]), Shl(1, i) % TWO_64) else PackBits(bits[..i])
  {
    assert bits[..i + 1] == bits[..i] + [bits[i]];
    Pow2Monotone(i + 1, 64);
    TwoTo64();
    PackBitsOr(bits[..i]);
    PackBitsSnoc(bits[..i], bits[i]);
  }

  lemma HighShiftIsZero(i: nat)
    requires i >= 64
    ensures Shl(1, i) % TWO_64 == 0
  {
    TwoTo64();
    Pow2Add(64, i - 64);
    assert Pow2(i) == Pow2(i - 64) * TWO_64;
    DivUnique(Pow2(i), TWO_64, Pow2(i - 64), 0);
  }

  lemma SetPathBit(bits: seq<bool>, i: nat)
    requires i < |bits|
    ensures PackBits(Low64(bits[..i + 1])) ==
            var packed := PackBits(Low64(bits[..i]));
            if bits[i] then Or(packed, Shl(1, i) % TWO_64) else packed
    ensures PackBits(Low64(bits[..i + 1])) < TWO_64
  {
    Low64Fits(bits[..i + 1]);
    if i < 64 {
      SetLowBit(bits, i);
    } else {
      assert bits[..i + 1][..64] == Low64(bits[..i]);
      HighShiftIsZero(i);
      OrCommutes(PackBits(Low64(bits[..i])), 0);
    }
  }

  /** The proof of leaf i of a tree over the given leaves. */
  function ProofOf<N>(hash: (N, N) -> N, leaves: seq<N>, i: nat): MerkleProof<N>
    requires i < |leaves|
  {
    var path := Path(hash, leaves, i);
    Low64Fits(Rights(path));
    MerkleProof(Root(hash, leaves), leaves[i], PackBits(Low64(Rights(path))), i, Siblings(path))
  }

  /** Reading a generated proof's bits back gives the leaf's path. */
  lemma ProofStepsArePath<N>(hash: (N, N) -> N, leaves: seq<N>, i: nat)
    requires i < |leaves| && CeilLog2(|leaves|) <= 64
    ensures Steps(ProofOf(hash, leaves, i)) == Path(hash, leaves, i)
  {
    var path := Path(hash, leaves, i);
    PathWithinDepth(hash, leaves, i);
    forall b | 0 <= b < |path| ensures Bit(PackBits(Rights(path)), b) == path[b].right {
      PackBitsBit(Rights(path), b);
    }
  }

  /** Completeness: the proof generated for any leaf of any tree of depth at most 64 verifies. It
      has at most as many siblings as the tree is deep, and for the last leaf as many as its
      index has one bits. */
  lemma GeneratedProofVerifies<N>(hash: (N, N) -> N, leaves: seq<N>, i: nat)
    requires i < |leaves| && CeilLog2(|leaves|) <= 64
    ensures Accepted(hash, ProofOf(hash, leaves, i))
    ensures |ProofOf(hash, leaves, i).siblings| <= CeilLog2(|leaves|)
    ensures |ProofOf(hash, leaves, |leaves| - 1).siblings| == PopCount(|leaves| - 1)
  {
    ProofStepsArePath(hash, leaves, i);
    PathClimbsToRoot(hash, leaves, i);
    PathWithinDepth(hash, leaves, i);
    LastPathLength(hash, leaves);
  }

  /** A generated proof names its leaf by value and by index, so that the proofs of one tree differ. */
  lemma GeneratedProofNamesLeaf<N>(hash: (N, N) -> N, leaves: seq<N>, i: nat, j: nat)
    requires i < |leaves| && j < |leaves|
    ensures ProofOf(hash, leaves, i).leafIndex == i && ProofOf(hash, leaves, i).leaf == leaves[i]
    ensures ProofOf(hash, leaves, i).root == Root(hash, leaves)
    ensures ProofOf(hash, leaves, i) == ProofOf(hash, leaves, j) <==> i == j
  {
  }

  lemma {:induction false} FullTreeDirections<N>(hash: (N, N) -> N, leaves: seq<N>, i: nat, d: nat)
    requires |leaves| == Pow2(d) && i < |leaves|
    ensures |Path(hash, leaves, i)| == d && PackBits(Rights(Path(hash, leaves, i))) == i
    decreases d
  {
    if d == 0 {
    } else {
      var next := NextLevel(hash, leaves);
      FullTreeDirections(hash, next, i / 2, d - 1);
      var bits := Rights(Path(hash, leaves, i));
      assert bits[0] == (i % 2 == 1) && bits[1..] == Rights(Path(hash, next, i / 2));
    }
  }

  /** In a full tree no sibling is missing, and the path bits are the leaf index itself. */
  lemma FullTreePathBits<N>(hash: (N, N) -> N, leaves: seq<N>, i: nat, d: nat)
    requires |leaves| == Pow2(d) && i < |leaves| && d <= 64
    ensures ProofOf(hash, leaves, i).pathBits == i && |ProofOf(hash, leaves, i).siblings| == d
  {
    FullTreeDirections(hash, leaves, i, d);
  }

  /** The path bits the verifier reads, and no others. */
  function LowBits<N>(proof: MerkleProof<N>): nat {
    proof.pathBits % Pow2(|proof.siblings|)
  }

  lemma {:induction false} LowBitsOf(x: nat, k: nat, bs: seq<bool>)
    requires |bs| == k && forall i | 0 <= i < k :: bs[i] == Bit(x, i)
    ensures x % Pow2(k) == PackBits(bs)
  {
    if k == 0 {
    } else {
      assert bs[0] == Bit(x, 0);
      forall i | 0 <= i < k - 1 ensures bs[1..][i] == Bit(x / 2, i) { assert bs[i + 1] == Bit(x, i + 1); }
      LowBitsOf(x / 2, k - 1, bs[1..]);
      ModHalves(x, Pow2(k - 1));
    }
  }

  /** Soundness: a proof accepted against the root of a tree carries exactly the leaf, the
      siblings and the low path bits of the proof generated for one leaf index, and for no other
      index. The leaf index it claims is never read. */
  lemma AcceptedProofIsGenerated<N(!new)>(hash: (N, N) -> N, leaves: seq<N>, proof: MerkleProof<N>) returns (i: nat)
    requires leaves != [] && CeilLog2(|leaves|) <= 64
    requires Accepted(hash, proof) && proof.root == Root(hash, leaves)
    requires Binding(hash, leaves, proof.leaf, Steps(proof))
    ensures i < |leaves| && SameProof(proof, ProofOf(hash, leaves, i))
    ensures forall j | 0 <= j < |leaves| && SameProof(proof, ProofOf(hash, leaves, j)) :: j == i
  {
    i := AcceptedPathIsGenuine(hash, leaves, proof.leaf, Steps(proof));
    ProofStepsArePath(hash, leaves, i);
    LowBitsOf(proof.pathBits, |proof.siblings|, Rights(Steps(proof)));
    LowBitsOf(ProofOf(hash, leaves, i).pathBits, |proof.siblings|, Rights(Steps(proof)));
    forall j | 0 <= j < |leaves| && SameProof(proof, ProofOf(hash, leaves, j)) ensures j == i {
      SameProofSameLeaf(hash, leaves, i, j);
    }
  }

  ghost predicate SameProof<N>(p: MerkleProof<N>, q: MerkleProof<N>) {
    p.leaf == q.leaf && p.siblings == q.siblings && LowBits(p) == LowBits(q)
  }

  lemma SameProofSameLeaf<N>(hash: (N, N) -> N, leaves: seq<N>, i: nat, j: nat)
    requires i < |leaves| && j < |leaves| && CeilLog2(|leaves|) <= 64
    requires SameProof(ProofOf(hash, leaves, i), ProofOf(hash, leaves, j))
    ensures i == j
  {
    var p, q := ProofOf(hash, leaves, i), ProofOf(hash, leaves, j);
    ProofStepsArePath(hash, leaves, i);
    ProofStepsArePath(hash, leaves, j);
    LowBitsOf(p.pathBits, |p.siblings|, Rights(Steps(p)));
    LowBitsOf(q.pathBits, |q.siblings|, Rights(Steps(q)));
    PathBitsIdentifyLeaf(hash, leaves, i, j);
  }

  /** The converse of soundness: whatever has the leaf, the siblings and the low path bits of a generated
      proof is accepted against the root. Higher path bits and the leaf index are free. */
  lemma SameProofIsAccepted<N>(hash: (N, N) -> N, leaves: seq<N>, proof: MerkleProof<N>, i: nat)
    requires i < |leaves| && CeilLog2(|leaves|) <= 64
    requires proof.root == Root(hash, leaves) && SameProof(proof, ProofOf(hash, leaves, i))
    ensures Accepted(hash, proof)
  {
    var q := ProofOf(hash, leaves, i);
    forall k | 0 <= k < |proof.siblings| ensures Bit(proof.pathBits, k) == Bit(q.pathBits, k) {
      LowBitsDecide(proof.pathBits, q.pathBits, |proof.siblings|, k);
    }
    assert Steps(proof) == Steps(q);
    GeneratedProofVerifies(hash, leaves, i);
  }

  lemma {:induction false} LowBitsDecide(x: nat, y: nat, n: nat, k: nat)
    requires k < n && x % Pow2(n) == y % Pow2(n)
    ensures Bit(x, k) == Bit(y, k)
  {
    ModHalves(x, Pow2(n - 1));
    ModHalves(y, Pow2(n - 1));
    if k == 0 {
    } else {
      LowBitsDecide(x / 2, y / 2, n - 1, k - 1);
    }
  }

  /** Acceptance, exactly: with binding hashes a proof against the root of a tree is accepted if and
      only if it is the generated proof of some leaf, as far as the verifier reads it. */
  lemma AcceptedIff<N(!new)>(hash: (N, N) -> N, leaves: seq<N>, proof: MerkleProof<N>)
    requires leaves != [] && CeilLog2(|leaves|) <= 64 && proof.root == Root(hash, leaves)
    requires Binding(hash, leaves, proof.leaf, Steps(proof))
    ensures Accepted(hash, proof) <==> exists i :: 0 <= i < |leaves| && SameProof(proof, ProofOf(hash, leaves, i))
  {
    if Accepted(hash, proof) {
      var i := AcceptedProofIsGenerated(hash, leaves, proof);
    } else {
      forall i | 0 <= i < |leaves| ensures !SameProof(proof, ProofOf(hash, leaves, i)) {
        if SameProof(proof, ProofOf(hash, leaves, i)) { SameProofIsAccepted(hash, leaves, proof, i); }
      }
    }
  }
}
