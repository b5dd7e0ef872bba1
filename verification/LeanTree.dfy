/** What a Lean incremental Merkle tree is, as functions of its leaves, and what its root and
    paths mean recursively. */
module LeanTree {
  import opened Bits

  /** One step of a path: the sibling, and whether the node on the path is the right child. */
  datatype Step<N> = Step(right: bool, sibling: N)

  /** The parent at position i above level: its two children hashed, or the left child alone. */
  function Parent<N>(hash: (N, N) -> N, level: seq<N>, i: nat): N
    requires 2 * i < |level|
  {
    if 2 * i + 1 < |level| then hash(level[2 * i], level[2 * i + 1]) else level[2 * i]
  }

  function NextLevel<N>(hash: (N, N) -> N, level: seq<N>): (next: seq<N>)
    ensures |next| == (|level| + 1) / 2
    ensures forall i | 0 <= i < |next| :: next[i] == Parent(hash, level, i)
  {
    seq((|level| + 1) / 2, i requires 0 <= i < (|level| + 1) / 2 => Parent(hash, level, i))
  }

  /** The depth of a tree of n leaves. */
  function CeilLog2(n: nat): nat {
    if n <= 1 then 0 else 1 + CeilLog2((n + 1) / 2)
  }

  /** The invariant of the node matrix: as many levels as the leaves need, each computed from
      the one below. */
  ghost predicate IsTree<N>(hash: (N, N) -> N, nodes: seq<seq<N>>) {
    && nodes != []
    && |nodes| == CeilLog2(|nodes[0]|) + 1
    && forall l | 0 < l < |nodes| :: nodes[l] == NextLevel(hash, nodes[l - 1])
  }

  /** The whole matrix over the given leaves. */
  function Levels<N>(hash: (N, N) -> N, leaves: seq<N>): (nodes: seq<seq<N>>)
    decreases |leaves|
  {
    if |leaves| <= 1 then [leaves] else [leaves] + Levels(hash, NextLevel(hash, leaves))
  }

  /** The root, level by level. */
  function Root<N>(hash: (N, N) -> N, leaves: seq<N>): N
    requires leaves != []
    decreases |leaves|
  {
    if |leaves| == 1 then leaves[0] else Root(hash, NextLevel(hash, leaves))
  }

  /** The step a node contributes to its path: none when it has no sibling. */
  function StepAt<N>(level: seq<N>, i: nat): seq<Step<N>>
    requires i < |level|
  {
    if i % 2 == 1 then [Step(true, level[i - 1])]
    else if i + 1 < |level| then [Step(false, level[i + 1])]
    else []
  }

  /** The path of leaf i, from the leaf up, with missing siblings omitted. */
  function Path<N>(hash: (N, N) -> N, leaves: seq<N>, i: nat): seq<Step<N>>
    requires i < |leaves|
    decreases |leaves|
  {
    if |leaves| == 1 then [] else StepAt(leaves, i) + Path(hash, NextLevel(hash, leaves), i / 2)
  }

  /** The node a path leads to from a leaf. */
  function Climb<N>(hash: (N, N) -> N, node: N, path: seq<Step<N>>): N
    decreases |path|
  {
    if path == [] then node
    else
      var s := path[0];
      Climb(hash, if s.right then hash(s.sibling, node) else hash(node, s.sibling), path[1..])
  }

  /** The largest power of two below n. */
  function SplitPoint(n: nat): (k: nat)
    requires n >= 2
    ensures 0 < k < n <= 2 * k
  {
    if n == 2 then 1 else 2 * SplitPoint((n + 1) / 2)
  }

  // ---------------------------------------------------------------- the matrix

  lemma {:induction false} LevelsIsTree<N>(hash: (N, N) -> N, leaves: seq<N>)
    ensures IsTree(hash, Levels(hash, leaves)) && Levels(hash, leaves)[0] == leaves
    decreases |leaves|
  {
    if |leaves| <= 1 {
    } else {
      var next := NextLevel(hash, leaves);
      LevelsIsTree(hash, next);
      var nodes, rest := Levels(hash, leaves), Levels(hash, next);
      forall l | 0 < l < |nodes| ensures nodes[l] == NextLevel(hash, nodes[l - 1]) {
        assert nodes[l] == rest[l - 1];
        if l > 1 { assert nodes[l - 1] == rest[l - 2]; }
      }
    }
  }

  /** The invariant leaves no freedom: a matrix satisfies it exactly when it is the one matrix
      its bottom level determines. */
  lemma {:induction false} TreeIsLevels<N>(hash: (N, N) -> N, nodes: seq<seq<N>>)
    requires nodes != []
    ensures IsTree(hash, nodes) <==> nodes == Levels(hash, nodes[0])
    decreases |nodes|
  {
    LevelsIsTree(hash, nodes[0]);
    if IsTree(hash, nodes) && |nodes[0]| > 1 {
      var rest := nodes[1..];
      forall l | 0 < l < |rest| ensures rest[l] == NextLevel(hash, rest[l - 1]) {
        assert rest[l] == nodes[l + 1] == NextLevel(hash, nodes[l]);
      }
      TreeIsLevels(hash, rest);
      assert nodes == [nodes[0]] + rest;
    }
  }

  lemma {:induction false} LevelSize<N>(hash: (N, N) -> N, nodes: seq<seq<N>>, l: nat)
    requires IsTree(hash, nodes) && l < |nodes| && nodes[0] != []
    ensures nodes[l] != [] && CeilLog2(|nodes[l]|) == |nodes| - 1 - l
    ensures |nodes[l]| == (|nodes[0]| + Pow2(l) - 1) / Pow2(l)
  {
    if l == 0 {
    } else {
      LevelSize(hash, nodes, l - 1);
      assert nodes[l] == NextLevel(hash, nodes[l - 1]);
      var n, p := |nodes[0]|, Pow2(l - 1);
      ShiftUp(n, p);
    }
  }

  /** Rounding up a division is one more than rounding down the predecessor's. */
  lemma CeilIsFloorPlusOne(n: nat, p: nat)
    requires n > 0 && p > 0
    ensures (n + p - 1) / p == (n - 1) / p + 1
  {
    var q, r := (n - 1) / p, (n - 1) % p;
    assert (q + 1) * p == q * p + p;
    DivUnique(n + p - 1, p, q + 1, r);
  }

  lemma ShiftUp(n: nat, p: nat)
    requires n > 0 && p > 0
    ensures ((n + p - 1) / p + 1) / 2 == (n + 2 * p - 1) / (2 * p)
  {
    CeilIsFloorPlusOne(n, p);
    CeilIsFloorPlusOne(n, 2 * p);
    DivTwice(n - 1, p);
  }

  lemma DivTwice(x: nat, p: nat)
    requires p > 0
    ensures (x / p) / 2 == x / (2 * p)
  {
    var q, r := x / p, x % p;
    var h := q / 2;
    if q == 2 * h {
      assert q * p == h * (2 * p);
      DivUnique(x, 2 * p, h, r);
    } else {
      assert q == 2 * h + 1;
      assert q * p == h * (2 * p) + p;
      DivUnique(x, 2 * p, h, p + r);
    }
  }

  /** The top level is the root alone. */
  lemma {:induction false} TopIsRoot<N>(hash: (N, N) -> N, nodes: seq<seq<N>>, l: nat)
    requires IsTree(hash, nodes) && nodes[0] != [] && l < |nodes|
    ensures nodes[l] != [] && |nodes[|nodes| - 1]| == 1
    ensures Root(hash, nodes[l]) == nodes[|nodes| - 1][0]
    decreases |nodes| - l
  {
    LevelSize(hash, nodes, l);
    LevelSize(hash, nodes, |nodes| - 1);
    if l + 1 < |nodes| { TopIsRoot(hash, nodes, l + 1); }
  }

  // ---------------------------------------------------------------- depth

  lemma {:induction false} CeilLog2Monotone(m: nat, n: nat)
    requires m <= n
    ensures CeilLog2(m) <= CeilLog2(n)
  {
    if m <= 1 {
    } else {
      CeilLog2Monotone((m + 1) / 2, (n + 1) / 2);
    }
  }

  lemma {:induction false} CeilLog2Next(n: nat)
    ensures CeilLog2(n) <= CeilLog2(n + 1) <= CeilLog2(n) + 1
  {
    CeilLog2Monotone(n, n + 1);
    if n <= 1 {
    } else {
      CeilLog2Next((n + 1) / 2);
      CeilLog2Monotone((n + 2) / 2, (n + 1) / 2 + 1);
    }
  }

  /** CeilLog2(n) is the least d with 2^d >= n. */
  lemma {:induction false} CeilLog2Least(n: nat, d: nat)
    ensures n <= Pow2(d) <==> CeilLog2(n) <= d
  {
    if n <= 1 || d == 0 {
    } else {
      CeilLog2Least((n + 1) / 2, d - 1);
    }
  }

  // ---------------------------------------------------------------- recursive meaning

  lemma NextLevelAppend<N>(hash: (N, N) -> N, a: seq<N>, b: seq<N>)
    requires |a| % 2 == 0
    ensures NextLevel(hash, a + b) == NextLevel(hash, a) + NextLevel(hash, b)
  {
  }

  /** A tree whose left part is a full 2^d leaves and whose right part is no larger has the
      hash of the two parts' roots as its root. */
  lemma {:induction false} RootSplit<N>(hash: (N, N) -> N, a: seq<N>, b: seq<N>, d: nat)
    requires |a| == Pow2(d) && 1 <= |b| <= Pow2(d)
    ensures Root(hash, a + b) == hash(Root(hash, a), Root(hash, b))
    decreases d
  {
    if d == 0 {
      assert NextLevel(hash, a + b) == [hash(a[0], b[0])];
    } else {
      NextLevelAppend(hash, a, b);
      RootSplit(hash, NextLevel(hash, a), NextLevel(hash, b), d - 1);
      if |b| == 1 { assert NextLevel(hash, b) == b; }
    }
  }

  lemma StepAppend<N>(a: seq<N>, b: seq<N>, i: nat)
    requires |a| % 2 == 0 && i < |a| + |b|
    ensures StepAt(a + b, i) == if i < |a| then StepAt(a, i) else StepAt(b, i - |a|)
  {
  }

  /** One node is its own next level, so a path and a root may always be unfolded once. */
  lemma UnfoldOnce<N>(hash: (N, N) -> N, s: seq<N>, i: nat)
    requires i < |s|
    ensures Root(hash, s) == Root(hash, NextLevel(hash, s))
    ensures Path(hash, s, i) == StepAt(s, i) + Path(hash, NextLevel(hash, s), i / 2)
  {
  }

  /** The path of a leaf of the left part, followed by one step across. */
  lemma {:induction false} PathSplitLeft<N>(hash: (N, N) -> N, a: seq<N>, b: seq<N>, d: nat, i: nat)
    requires |a| == Pow2(d) && 1 <= |b| <= Pow2(d) && i < |a|
    ensures Path(hash, a + b, i) == Path(hash, a, i) + [Step(false, Root(hash, b))]
    decreases d
  {
    if d == 0 {
      assert NextLevel(hash, a + b) == [hash(a[0], b[0])];
    } else {
      var a', b' := NextLevel(hash, a), NextLevel(hash, b);
      NextLevelAppend(hash, a, b);
      StepAppend(a, b, i);
      PathSplitLeft(hash, a', b', d - 1, i / 2);
      UnfoldOnce(hash, a, i);
      UnfoldOnce(hash, b, 0);
      UnfoldOnce(hash, a + b, i);
    }
  }

  /** The path of a leaf of the right part, followed by one step across. */
  lemma {:induction false} PathSplitRight<N>(hash: (N, N) -> N, a: seq<N>, b: seq<N>, d: nat, i: nat, j: nat)
    requires |a| == Pow2(d) && 1 <= |b| <= Pow2(d) && j < |b| && i == |a| + j
    ensures Path(hash, a + b, i) == Path(hash, b, j) + [Step(true, Root(hash, a))]
    decreases d
  {
    if d == 0 {
      assert NextLevel(hash, a + b) == [hash(a[0], b[0])];
    } else {
      var a', b' := NextLevel(hash, a), NextLevel(hash, b);
      NextLevelAppend(hash, a, b);
      StepAppend(a, b, i);
      PathSplitRight(hash, a', b', d - 1, i / 2, j / 2);
      UnfoldOnce(hash, b, j);
      UnfoldOnce(hash, a, 0);
      UnfoldOnce(hash, a + b, i);
    }
  }

  lemma {:induction false} SplitPointIsPower(n: nat) returns (d: nat)
    requires n >= 2
    ensures SplitPoint(n) == Pow2(d)
  {
    d := 0;
    if n <= 2 {
    } else {
      var e := SplitPointIsPower((n + 1) / 2);
      d := e + 1;
    }
  }

  /** The recursive meaning of the root: the hash of the roots of the first k leaves and of the
      rest, k the largest power of two below the number of leaves. */
  lemma RootRecursion<N>(hash: (N, N) -> N, leaves: seq<N>, a: seq<N>, b: seq<N>)
    requires |leaves| >= 2 && leaves == a + b && |a| == SplitPoint(|leaves|)
    ensures Root(hash, leaves) == hash(Root(hash, a), Root(hash, b))
  {
    var d := SplitPointIsPower(|leaves|);
    RootSplit(hash, a, b, d);
  }

  /** The recursive meaning of a path: a path in one of the two parts, then a step across to
      the root of the other. */
  lemma PathRecursion<N>(hash: (N, N) -> N, leaves: seq<N>, a: seq<N>, b: seq<N>, i: nat)
    requires |leaves| >= 2 && leaves == a + b && |a| == SplitPoint(|leaves|) && i < |leaves|
    ensures i < |a| ==> Path(hash, leaves, i) == Path(hash, a, i) + [Step(false, Root(hash, b))]
    ensures i >= |a| ==> Path(hash, leaves, i) == Path(hash, b, i - |a|) + [Step(true, Root(hash, a))]
  {
    var d := SplitPointIsPower(|leaves|);
    if i < |a| { PathSplitLeft(hash, a, b, d, i); } else { PathSplitRight(hash, a, b, d, i, i - |a|); }
  }
}
