/** What a path of siblings proves about the leaves of a tree. */
module Membership {
  import opened Bits
  import opened LeanTree

  // ---------------------------------------------------------------- completeness

  /** Climbing a leaf's own path ends at the root. */
  lemma {:induction false} PathClimbsToRoot<N>(hash: (N, N) -> N, leaves: seq<N>, i: nat)
    requires i < |leaves|
    ensures Climb(hash, leaves[i], Path(hash, leaves, i)) == Root(hash, leaves)
    decreases |leaves|
  {
    if |leaves| <= 1 {
    } else {
      var next := NextLevel(hash, leaves);
      PathClimbsToRoot(hash, next, i / 2);
      assert Path(hash, leaves, i) == StepAt(leaves, i) + Path(hash, next, i / 2);
      ClimbStep(hash, leaves, i, Path(hash, next, i / 2));
    }
  }

  lemma ClimbStep<N>(hash: (N, N) -> N, level: seq<N>, i: nat, rest: seq<Step<N>>)
    requires i < |level|
    ensures Climb(hash, level[i], StepAt(level, i) + rest) == Climb(hash, Parent(hash, level, i / 2), rest)
  {
    var step := StepAt(level, i);
    if step == [] {
      assert step + rest == rest;
    } else {
      assert (step + rest)[1..] == rest;
    }
  }

  /** A path has at most as many steps as the tree is deep. */
  lemma {:induction false} PathWithinDepth<N>(hash: (N, N) -> N, leaves: seq<N>, i: nat)
    requires i < |leaves|
    ensures |Path(hash, leaves, i)| <= CeilLog2(|leaves|)
    decreases |leaves|
  {
    if |leaves| <= 1 {
    } else {
      PathWithinDepth(hash, NextLevel(hash, leaves), i / 2);
    }
  }

  /** The last leaf has a sibling exactly at the levels where its index has a one bit. */
  lemma {:induction false} LastPathLength<N>(hash: (N, N) -> N, leaves: seq<N>)
    requires leaves != []
    ensures |Path(hash, leaves, |leaves| - 1)| == PopCount(|leaves| - 1)
    decreases |leaves|
  {
    if |leaves| <= 1 {
    } else {
      LastPathLength(hash, NextLevel(hash, leaves));
    }
  }

  // ---------------------------------------------------------------- soundness

  /** The tree over s hashes the pair (x, y). */
  ghost predicate TreeHashes<N>(hash: (N, N) -> N, s: seq<N>, x: N, y: N)
    decreases |s|
  {
    && |s| > 1
    && ((exists i | 0 <= i < |s| / 2 :: PairAt(s, i, x, y)) || TreeHashes(hash, NextLevel(hash, s), x, y))
  }

  ghost predicate PairAt<N>(s: seq<N>, i: nat, x: N, y: N)
    requires 2 * i + 1 < |s|
  {
    s[2 * i] == x && s[2 * i + 1] == y
  }

  /** The two inputs of one step of a climb. */
  function Inputs<N>(node: N, s: Step<N>): (N, N) {
    if s.right then (s.sibling, node) else (node, s.sibling)
  }

  /** Climbing path from node hashes the pair (x, y). */
  ghost predicate ClimbHashes<N>(hash: (N, N) -> N, node: N, path: seq<Step<N>>, x: N, y: N)
    decreases |path|
  {
    && path != []
    && var (l, r) := Inputs(node, path[0]);
       (l, r) == (x, y) || ClimbHashes(hash, hash(l, r), path[1..], x, y)
  }

  /** What soundness asks of the hash: among the pairs that the tree and the verifier hash there
      is no collision, and no leaf value is one of those hashes. */
  ghost predicate Binding<N(!new)>(hash: (N, N) -> N, leaves: seq<N>, leaf: N, path: seq<Step<N>>) {
    && (forall x, y, u, v | TreeHashes(hash, leaves, x, y) && ClimbHashes(hash, leaf, path, u, v) ::
          hash(x, y) == hash(u, v) ==> x == u && y == v)
    && (forall x, y | TreeHashes(hash, leaves, x, y) :: hash(x, y) != leaf)
    && (forall u, v | ClimbHashes(hash, leaf, path, u, v) :: hash(u, v) !in leaves)
  }

  lemma PairOfPart<N>(a: seq<N>, b: seq<N>, i: nat, x: N, y: N)
    requires |a| % 2 == 0
    ensures 2 * i + 1 < |a| && PairAt(a, i, x, y) ==> PairAt(a + b, i, x, y)
    ensures 2 * i + 1 < |b| && PairAt(b, i, x, y) ==> PairAt(a + b, |a| / 2 + i, x, y)
  {
  }

  lemma {:induction false} LeftHashes<N>(hash: (N, N) -> N, a: seq<N>, b: seq<N>, d: nat, x: N, y: N)
    requires |a| == Pow2(d) && 1 <= |b| <= Pow2(d) && TreeHashes(hash, a, x, y)
    ensures TreeHashes(hash, a + b, x, y)
    decreases d
  {
    var a', b' := NextLevel(hash, a), NextLevel(hash, b);
    NextLevelAppend(hash, a, b);
    if i :| 0 <= i < |a| / 2 && PairAt(a, i, x, y) {
      PairOfPart(a, b, i, x, y);
    } else {
      LeftHashes(hash, a', b', d - 1, x, y);
    }
  }

  lemma {:induction false} RightHashes<N>(hash: (N, N) -> N, a: seq<N>, b: seq<N>, d: nat, x: N, y: N)
    requires |a| == Pow2(d) && 1 <= |b| <= Pow2(d) && TreeHashes(hash, b, x, y)
    ensures TreeHashes(hash, a + b, x, y)
    decreases d
  {
    var a', b' := NextLevel(hash, a), NextLevel(hash, b);
    NextLevelAppend(hash, a, b);
    if i :| 0 <= i < |b| / 2 && PairAt(b, i, x, y) {
      PairOfPart(a, b, i, x, y);
    } else {
      RightHashes(hash, a', b', d - 1, x, y);
    }
  }

  lemma {:induction false} RootsHashed<N>(hash: (N, N) -> N, a: seq<N>, b: seq<N>, d: nat)
    requires |a| == Pow2(d) && 1 <= |b| <= Pow2(d)
    ensures TreeHashes(hash, a + b, Root(hash, a), Root(hash, b))
    decreases d
  {
    if d == 0 {
      assert PairAt(a + b, 0, a[0], b[0]);
    } else {
      NextLevelAppend(hash, a, b);
      UnfoldOnce(hash, a, 0);
      UnfoldOnce(hash, b, 0);
      RootsHashed(hash, NextLevel(hash, a), NextLevel(hash, b), d - 1);
    }
  }

  /** The last step of a climb. */
  lemma {:induction false} ClimbSnoc<N>(hash: (N, N) -> N, node: N, path: seq<Step<N>>, s: Step<N>)
    ensures var (l, r) := Inputs(Climb(hash, node, path), s);
            Climb(hash, node, path + [s]) == hash(l, r) && ClimbHashes(hash, node, path + [s], l, r)
    decreases |path|
  {
    if path == [] {
      assert path + [s] == [s];
    } else {
      var (l, r) := Inputs(node, path[0]);
      assert (path + [s])[1..] == path[1..] + [s];
      ClimbSnoc(hash, hash(l, r), path[1..], s);
    }
  }

  lemma {:induction false} ClimbHashesPrefix<N>(hash: (N, N) -> N, node: N, path: seq<Step<N>>, s: Step<N>, x: N, y: N)
    requires ClimbHashes(hash, node, path, x, y)
    ensures ClimbHashes(hash, node, path + [s], x, y)
    decreases |path|
  {
    var (l, r) := Inputs(node, path[0]);
    assert (path + [s])[1..] == path[1..] + [s];
    if (l, r) != (x, y) { ClimbHashesPrefix(hash, hash(l, r), path[1..], s, x, y); }
  }

  lemma BindingPart<N(!new)>(hash: (N, N) -> N, a: seq<N>, b: seq<N>, d: nat, part: seq<N>, leaf: N,
                             path: seq<Step<N>>, s: Step<N>)
    requires |a| == Pow2(d) && 1 <= |b| <= Pow2(d) && (part == a || part == b)
    requires Binding(hash, a + b, leaf, path + [s])
    ensures Binding(hash, part, leaf, path)
  {
    forall x, y | TreeHashes(hash, part, x, y) ensures TreeHashes(hash, a + b, x, y) {
      if part == a { LeftHashes(hash, a, b, d, x, y); } else { RightHashes(hash, a, b, d, x, y); }
    }
    forall u, v | ClimbHashes(hash, leaf, path, u, v) ensures ClimbHashes(hash, leaf, path + [s], u, v) {
      ClimbHashesPrefix(hash, leaf, path, s, u, v);
    }
    forall x | x in part ensures x in a + b { }
  }

  /** The last step of an accepted path joins the roots of the two parts of the tree. */
  lemma LastStepJoinsParts<N(!new)>(hash: (N, N) -> N, leaves: seq<N>, a: seq<N>, b: seq<N>, d: nat, leaf: N,
                                    path: seq<Step<N>>) returns (init: seq<Step<N>>, s: Step<N>)
    requires |leaves| >= 2 && leaves == a + b && |a| == SplitPoint(|leaves|) == Pow2(d)
    requires Climb(hash, leaf, path) == Root(hash, leaves)
    requires Binding(hash, leaves, leaf, path)
    ensures path == init + [s] && Inputs(Climb(hash, leaf, init), s) == (Root(hash, a), Root(hash, b))
  {
    RootRecursion(hash, leaves, a, b);
    RootsHashed(hash, a, b, d);
    init, s := path[..|path| - 1], path[|path| - 1];
    assert path == init + [s];
    ClimbSnoc(hash, leaf, init, s);
  }

  /** Without its last step, an accepted path is accepted by the part of the tree it stays in. */
  lemma DescendOneStep<N(!new)>(hash: (N, N) -> N, leaves: seq<N>, a: seq<N>, b: seq<N>, leaf: N,
                                path: seq<Step<N>>) returns (init: seq<Step<N>>, s: Step<N>)
    requires |leaves| >= 2 && leaves == a + b && |a| == SplitPoint(|leaves|)
    requires Climb(hash, leaf, path) == Root(hash, leaves)
    requires Binding(hash, leaves, leaf, path)
    ensures path == init + [s] && s.sibling == Root(hash, if s.right then a else b)
    ensures Climb(hash, leaf, init) == Root(hash, if s.right then b else a)
    ensures Binding(hash, if s.right then b else a, leaf, init)
  {
    var d := SplitPointIsPower(|leaves|);
    init, s := LastStepJoinsParts(hash, leaves, a, b, d, leaf, path);
    BindingPart(hash, a, b, d, if s.right then b else a, leaf, init, s);
  }

  lemma PathAcross<N>(hash: (N, N) -> N, leaves: seq<N>, a: seq<N>, b: seq<N>, s: Step<N>, j: nat)
    requires |leaves| >= 2 && leaves == a + b && |a| == SplitPoint(|leaves|)
    requires if s.right then j < |b| && s.sibling == Root(hash, a) else j < |a| && s.sibling == Root(hash, b)
    ensures var part, i := if s.right then b else a, if s.right then |a| + j else j;
            leaves[i] == part[j] && Path(hash, leaves, i) == Path(hash, part, j) + [s]
  {
    PathRecursion(hash, leaves, a, b, if s.right then |a| + j else j);
  }

  lemma SingleLeafAccepts<N(!new)>(hash: (N, N) -> N, leaves: seq<N>, leaf: N, path: seq<Step<N>>)
    requires |leaves| == 1 && Climb(hash, leaf, path) == leaves[0]
    requires Binding(hash, leaves, leaf, path)
    ensures path == [] && leaf == leaves[0]
  {
    if path != [] {
      var init, s := path[..|path| - 1], path[|path| - 1];
      assert path == init + [s];
      assert leaves[0] in leaves;
      ClimbSnoc(hash, leaf, init, s);
    }
  }

  /** Soundness: a path that climbs from leaf to the root of a tree is the path of a leaf of that
      tree with that value. */
  lemma {:induction false} AcceptedPathIsGenuine<N(!new)>(hash: (N, N) -> N, leaves: seq<N>, leaf: N,
                                                          path: seq<Step<N>>) returns (i: nat)
    requires leaves != [] && Climb(hash, leaf, path) == Root(hash, leaves)
    requires Binding(hash, leaves, leaf, path)
    ensures i < |leaves| && leaves[i] == leaf && path == Path(hash, leaves, i)
    decreases |leaves|
  {
    if |leaves| == 1 {
      SingleLeafAccepts(hash, leaves, leaf, path);
      i := 0;
    } else {
      var k := SplitPoint(|leaves|);
      var a, b := leaves[..k], leaves[k..];
      var init, s := DescendOneStep(hash, leaves, a, b, leaf, path);
      var j := AcceptedPathIsGenuine(hash, if s.right then b else a, leaf, init);
      PathAcross(hash, leaves, a, b, s, j);
      i := if s.right then k + j else j;
    }
  }

  // ---------------------------------------------------------------- the code of path directions

  /** The directions from the root down to leaf i of a tree of n leaves. */
  function Code(n: nat, i: nat): seq<bool>
    requires i < n
  {
    if n == 1 then []
    else
      var k := SplitPoint(n);
      if i < k then [false] + Code(k, i) else [true] + Code(n - k, i - k)
  }

  function Rights<N>(path: seq<Step<N>>): (r: seq<bool>)
    ensures |r| == |path| && forall i | 0 <= i < |r| :: r[i] == path[i].right
  {
    seq(|path|, i requires 0 <= i < |path| => path[i].right)
  }

  function Reversed<T>(s: seq<T>): (r: seq<T>)
    ensures |r| == |s| && forall i | 0 <= i < |s| :: r[i] == s[|s| - 1 - i]
  {
    if s == [] then [] else Reversed(s[1..]) + [s[0]]
  }

  lemma RootFirst<N>(path: seq<Step<N>>, s: Step<N>)
    ensures Reversed(Rights(path + [s])) == [s.right] + Reversed(Rights(path))
  {
  }

  /** The directions of a path, read from the root down, are the leaf's code: they depend on the
      leaf's index and the number of leaves only. */
  lemma {:induction false} PathFollowsCode<N>(hash: (N, N) -> N, leaves: seq<N>, i: nat)
    requires i < |leaves|
    ensures Reversed(Rights(Path(hash, leaves, i))) == Code(|leaves|, i)
    decreases |leaves|
  {
    if |leaves| <= 1 {
    } else {
      var k := SplitPoint(|leaves|);
      var a, b := leaves[..k], leaves[k..];
      assert leaves == a + b;
      PathRecursion(hash, leaves, a, b, i);
      if i < k {
        PathFollowsCode(hash, a, i);
        RootFirst(Path(hash, a, i), Step(false, Root(hash, b)));
      } else {
        PathFollowsCode(hash, b, i - k);
        RootFirst(Path(hash, b, i - k), Step(true, Root(hash, a)));
      }
    }
  }

  /** Prefix-free: no leaf's code starts with another leaf's code. */
  lemma {:induction false} CodeIsPrefixFree(n: nat, i: nat, j: nat)
    requires i < n && j < n && i != j
    ensures !(Code(n, i) <= Code(n, j))
    decreases n
  {
    var k := SplitPoint(n);
    var c, c' := Code(n, i), Code(n, j);
    if i < k && j < k {
      CodeIsPrefixFree(k, i, j);
      assert c[1..] == Code(k, i) && c'[1..] == Code(k, j);
    } else if i >= k && j >= k {
      CodeIsPrefixFree(n - k, i - k, j - k);
      assert c[1..] == Code(n - k, i - k) && c'[1..] == Code(n - k, j - k);
    } else {
      assert c[0] != c'[0];
    }
  }

  /** Complete: every direction string follows some leaf's code, or stops short of it. */
  lemma {:induction false} CodeIsComplete(n: nat, w: seq<bool>) returns (i: nat)
    requires n > 0
    ensures i < n && (Code(n, i) <= w || w <= Code(n, i))
    decreases n
  {
    i := 0;
    if n <= 1 || w == [] {
    } else {
      var k := SplitPoint(n);
      if w[0] {
        var j := CodeIsComplete(n - k, w[1..]);
        i := k + j;
        assert Code(n, i) == [true] + Code(n - k, j);
      } else {
        i := CodeIsComplete(k, w[1..]);
        assert Code(n, i) == [false] + Code(k, i);
      }
      assert w == [w[0]] + w[1..];
    }
  }

  /** The number of siblings and the packed path bits identify a leaf of a tree. */
  lemma PathBitsIdentifyLeaf<N>(hash: (N, N) -> N, leaves: seq<N>, i: nat, j: nat)
    requires i < |leaves| && j < |leaves|
    requires |Path(hash, leaves, i)| == |Path(hash, leaves, j)|
    requires PackBits(Rights(Path(hash, leaves, i))) == PackBits(Rights(Path(hash, leaves, j)))
    ensures i == j
  {
    var r, r' := Rights(Path(hash, leaves, i)), Rights(Path(hash, leaves, j));
    forall b | 0 <= b < |r| ensures r[b] == r'[b] {
      PackBitsBit(r, b);
      PackBitsBit(r', b);
    }
    assert r == r';
    PathFollowsCode(hash, leaves, i);
    PathFollowsCode(hash, leaves, j);
    if i != j { CodeIsPrefixFree(|leaves|, i, j); }
  }

  // ---------------------------------------------------------------- a hash that binds

  /** The free binary tree: the term that records how a node was computed. */
  datatype Term = Value(v: nat) | Pair(left: Term, right: Term)

  function FreeHash(): (Term, Term) -> Term {
    (a, b) => Pair(a, b)
  }

  /** Over the free hash, any path to the root of a tree of values is genuine: the hypothesis of
      AcceptedPathIsGenuine can be met, for every tree and every path. */
  lemma FreeHashBinds(leaves: seq<Term>, leaf: Term, path: seq<Step<Term>>)
    requires leaf.Value? && forall x | x in leaves :: x.Value?
    ensures Binding(FreeHash(), leaves, leaf, path)
  {
  }
}
