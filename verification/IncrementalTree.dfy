/** The tree object of the library: a matrix of nodes that every operation updates in place. */
module IncrementalTree {
  import opened Bits
  import opened LeanTree
  import opened Membership
  import opened Proofs
  import opened Wrappers
  import opened Numerals
  import opened Storage
  import opened TreeStore

  function EnsureIndex<N>(s: seq<N>, index: nat, zero: N): (r: seq<N>)
    ensures |r| == if index < |s| then |s| else index + 1
    ensures s <= r
  {
    if index < |s| then s else s + seq(index + 1 - |s|, _ => zero)
  }

  /** The leaves after assigning values[k] to position indices[k], in order. */
  function Assigned<N>(leaves: seq<N>, indices: seq<int>, values: seq<N>): (r: seq<N>)
    requires |indices| == |values| && forall k | 0 <= k < |indices| :: 0 <= indices[k] < |leaves|
    ensures |r| == |leaves|
  {
    if indices == [] then leaves
    else
      var k := |indices| - 1;
      Assigned(leaves, indices[..k], values[..k])[indices[k] := values[k]]
  }

  /** Indices that UpdateMany accepts: in range and without repetition. */
  predicate Assignable(indices: seq<int>, size: nat) {
    && (forall k | 0 <= k < |indices| :: 0 <= indices[k] < size)
    && (forall k, k' | 0 <= k < k' < |indices| :: indices[k] != indices[k'])
  }

  /** Indices are checked in order: the error is that of the first one out of range or seen before. */
  ghost predicate RejectedAt(indices: seq<int>, size: nat, error: Error) {
    exists k :: 0 <= k < |indices| && Assignable(indices[..k], size) &&
      if 0 <= indices[k] < size then indices[k] in indices[..k] && error == RepeatedIndex else error == IndexOutOfRange
  }

  function FirstIndex<N(==)>(leaves: seq<N>, leaf: N): (i: int)
    ensures -1 <= i < |leaves|
  {
    if leaves == [] then -1
    else if leaves[0] == leaf then 0
    else
      var i := FirstIndex(leaves[1..], leaf);
      if i < 0 then -1 else i + 1
  }

  lemma {:induction false} FirstIndexMeaning<N>(leaves: seq<N>, leaf: N)
    ensures var i := FirstIndex(leaves, leaf);
            if leaf in leaves then 0 <= i && leaves[i] == leaf && leaf !in leaves[..i] else i == -1
  {
    if leaves != [] && leaves[0] != leaf {
      FirstIndexMeaning(leaves[1..], leaf);
      var i := FirstIndex(leaves[1..], leaf);
      if i >= 0 { assert leaves[..i + 1] == [leaves[0]] + leaves[1..][..i]; }
    }
  }

  lemma FirstIndexIs<N>(leaves: seq<N>, leaf: N, i: nat)
    requires i < |leaves| && leaves[i] == leaf && leaf !in leaves[..i]
    ensures FirstIndex(leaves, leaf) == i
  {
    FirstIndexMeaning(leaves, leaf);
    var j := FirstIndex(leaves, leaf);
    forall k | 0 <= k < i ensures leaves[k] != leaf { assert leaves[..i][k] == leaves[k]; }
    forall k | 0 <= k < j ensures leaves[k] != leaf { assert leaves[..j][k] == leaves[k]; }
  }

  // ---------------------------------------------------------------- one level of an operation

  /** How the wanted level and the old one relate while a leaf is appended: equal before the
      node on the path, which the wanted level ends with. */
  ghost predicate AppendAt<N>(want: seq<N>, was: seq<N>, index: nat, node: N) {
    && |want| == index + 1
    && want[index] == node
    && index <= |was| <= index + 1
    && want[..index] == was[..index]
  }

  /** The old level above: computed from the old level, or a level just added. */
  ghost predicate Above<N>(hash: (N, N) -> N, was: seq<N>, next: seq<N>) {
    next == NextLevel(hash, was) || (next == [] && |was| <= 1)
  }

  /** Adding empty levels on top of a tree keeps each level above the one below it. */
  lemma GrownLevels<N>(hash: (N, N) -> N, nodes: seq<seq<N>>, grown: seq<seq<N>>)
    requires IsTree(hash, nodes) && nodes <= grown
    requires forall l | |nodes| <= l < |grown| :: grown[l] == []
    ensures forall l | 0 <= l < |grown| - 1 :: Above(hash, grown[l], grown[l + 1])
  {
    if nodes[0] != [] { TopIsRoot(hash, nodes, 0); }
    forall l | 0 <= l < |grown| - 1 ensures Above(hash, grown[l], grown[l + 1]) {
      if l + 1 < |nodes| { assert nodes[l + 1] == NextLevel(hash, nodes[l]); }
    }
  }

  /** Equal up to p, where the old level ends or has one incomplete node left. */
  ghost predicate Shared<N>(want: seq<N>, was: seq<N>, p: nat) {
    p <= |was| <= |want| && |was| <= p + 1 && want[..p] == was[..p]
  }

  lemma SharedStep<N>(hash: (N, N) -> N, want: seq<N>, was: seq<N>, next: seq<N>, p: nat)
    requires Shared(want, was, p) && Above(hash, was, next)
    ensures Shared(NextLevel(hash, want), next, p / 2)
  {
  }

  lemma AppendStep<N>(hash: (N, N) -> N, want: seq<N>, was: seq<N>, next: seq<N>, index: nat, node: N)
    requires AppendAt(want, was, index, node) && Above(hash, was, next)
    ensures AppendAt(NextLevel(hash, want), next, index / 2,
                     if index % 2 == 1 then hash(want[index - 1], node) else node)
  {
  }

  /** Storing the node on the path turns the old level into the wanted one. */
  lemma AppendPlaces<N>(want: seq<N>, was: seq<N>, index: nat, node: N, zero: N)
    requires AppendAt(want, was, index, node)
    ensures EnsureIndex(was, index, zero)[index := node] == want
  {
  }

  /** A matrix whose levels below the given one are the wanted ones, the others still old. */
  ghost predicate Midway<N>(nodes: seq<seq<N>>, want: seq<seq<N>>, was: seq<seq<N>>, level: nat) {
    && |nodes| == |want| == |was|
    && level <= |nodes|
    && nodes[..level] == want[..level]
    && nodes[level..] == was[level..]
  }

  lemma MidwayStep<N>(nodes: seq<seq<N>>, want: seq<seq<N>>, was: seq<seq<N>>, level: nat)
    requires Midway(nodes, want, was, level) && level < |nodes|
    ensures nodes[level] == was[level]
    ensures Midway(nodes[level := want[level]], want, was, level + 1)
    ensures level + 1 == |nodes| ==> nodes[level := want[level]] == want
  {
  }

  lemma {:induction false} UpdateStep<N>(hash: (N, N) -> N, was: seq<N>, index: nat, node: N)
    requires index < |was|
    ensures var want := was[index := node];
            NextLevel(hash, want) == NextLevel(hash, was)[index / 2 := Parent(hash, want, index / 2)]
  {
  }

  /** The levels before and after some nodes changed: only children of modified parents differ. */
  ghost predicate Touched<N>(want: seq<N>, was: seq<N>, modified: set<nat>) {
    && |want| == |was|
    && (forall i | 0 <= i < |was| && i / 2 !in modified :: want[i] == was[i])
    && (forall m | m in modified :: 2 * m < |was|)
  }

  function Halves(s: set<nat>): set<nat> {
    set m | m in s :: m / 2
  }

  lemma HalvesStep(s: set<nat>, m: nat)
    ensures Halves(s + {m}) == Halves(s) + {m / 2}
  {
  }

  /** Recomputing the modified parents is enough. */
  lemma TouchedStep<N>(hash: (N, N) -> N, want: seq<N>, was: seq<N>, modified: set<nat>)
    requires Touched(want, was, modified)
    ensures Touched(NextLevel(hash, want), NextLevel(hash, was), Halves(modified))
    ensures forall i | 0 <= i < |NextLevel(hash, was)| && i !in modified ::
              NextLevel(hash, want)[i] == NextLevel(hash, was)[i]
  {
  }

  /** The modified parents that have two children, above a level of the given size. */
  function Paired(size: nat, modified: set<nat>): set<nat> {
    set m | m in modified && 2 * m + 1 < size
  }

  /** The hash calls that recomputing the modified parents takes, level by level. */
  function ModifiedCost(size: nat, modified: set<nat>): nat
    decreases size
  {
    if size <= 1 then 0 else |Paired(size, modified)| + ModifiedCost((size + 1) / 2, Halves(modified))
  }

  lemma PairedStep(size: nat, done: set<nat>, m: nat)
    requires m !in done
    ensures |Paired(size, done + {m})| == |Paired(size, done)| + if 2 * m + 1 < size then 1 else 0
  {
    if 2 * m + 1 < size {
      assert Paired(size, done + {m}) == Paired(size, done) + {m};
    } else {
      assert Paired(size, done + {m}) == Paired(size, done);
    }
  }

  /** The parents of the positions assigned to. */
  function ParentsOf(indices: seq<int>): set<nat>
    requires forall k | 0 <= k < |indices| :: 0 <= indices[k]
  {
    if indices == [] then {} else ParentsOf(indices[..|indices| - 1]) + {indices[|indices| - 1] / 2}
  }

  /** Assigning distinct positions: each gets its value, and nothing else changes, so the order
      of the assignments does not matter. */
  lemma {:induction false} AssignedDistinct<N>(leaves: seq<N>, indices: seq<int>, values: seq<N>, i: nat)
    requires |indices| == |values| && forall k | 0 <= k < |indices| :: 0 <= indices[k] < |leaves|
    requires forall k, k' | 0 <= k < k' < |indices| :: indices[k] != indices[k']
    requires i < |leaves|
    ensures i !in indices ==> Assigned(leaves, indices, values)[i] == leaves[i]
    ensures forall k | 0 <= k < |indices| && indices[k] == i :: Assigned(leaves, indices, values)[i] == values[k]
    decreases |indices|
  {
    if indices == [] {
    } else {
      var k := |indices| - 1;
      AssignedDistinct(leaves, indices[..k], values[..k], i);
      if i !in indices { assert i !in indices[..k]; }
      forall k' | 0 <= k' < k && indices[k'] == i
        ensures Assigned(leaves, indices, values)[i] == values[k']
      {
        assert indices[..k][k'] == i && values[..k][k'] == values[k'];
      }
    }
  }

  lemma CollectStep<N>(done: seq<Step<N>>, level: seq<N>, i: nat)
    requires i < |level|
    ensures var step := StepAt(level, i);
            && Siblings(done + step) == Siblings(done) + (if step == [] then [] else [step[0].sibling])
            && Rights(done + step) == Rights(done) + (if step == [] then [] else [i % 2 == 1])
  {
  }

  lemma WalkStep<N>(hash: (N, N) -> N, nodes: seq<seq<N>>, level: nat, i: nat, whole: seq<Step<N>>, done: seq<Step<N>>)
    requires IsTree(hash, nodes) && level + 1 < |nodes| && i < |nodes[level]|
    requires whole == done + Path(hash, nodes[level], i)
    ensures i / 2 < |nodes[level + 1]|
    ensures whole == (done + StepAt(nodes[level], i)) + Path(hash, nodes[level + 1], i / 2)
  {
  }

  lemma PathLengthStep<N>(hash: (N, N) -> N, s: seq<N>, i: nat)
    requires i < |s|
    ensures |Path(hash, s, i)| == |Path(hash, NextLevel(hash, s), i / 2)| + if i % 2 == 1 || i + 1 < |s| then 1 else 0
  {
  }

  class LeanIMT<N(==)> {
    const hash: (N, N) -> N
    const zero: N
    const db: Store?
    const encoder: N -> Option<seq<byte>>
    const decoder: seq<byte> -> Option<N>
    var nodes: seq<seq<N>>
    var dirty: bool
    ghost var hashCalls: nat
    ghost var stored: seq<N>

    constructor (hash: (N, N) -> N, zero: N, db: Store?, encoder: N -> Option<seq<byte>>,
                 decoder: seq<byte> -> Option<N>, ghost held: seq<N>)
      ensures Valid() && Leaves() == [] && !dirty && hashCalls == 0 && stored == held
      ensures this.hash == hash && this.zero == zero && this.db == db
      ensures this.encoder == encoder && this.decoder == decoder
    {
      this.hash, this.zero, this.db, this.encoder, this.decoder := hash, zero, db, encoder, decoder;
      nodes, dirty, hashCalls, stored := [[]], false, 0, held;
    }

    ghost predicate Valid()
      reads this
    {
      IsTree(hash, nodes)
    }

    ghost function Leaves(): seq<N>
      requires Valid()
      reads this
    {
      nodes[0]
    }

    /** The store holds some leaves exactly, the current ones unless the tree is dirty. */
    ghost predicate Persisted()
      requires Valid()
      reads this, db
    {
      db != null ==> Holds(db.data, stored, encoder) && (!dirty ==> stored == Leaves())
    }

    method Hash(a: N, b: N) returns (r: N)
      modifies `hashCalls
      ensures r == hash(a, b) && hashCalls == old(hashCalls) + 1
    {
      r := hash(a, b);
      hashCalls := hashCalls + 1;
    }

    method SetNode(level: nat, index: nat, node: N)
      requires level < |nodes|
      modifies `nodes
      ensures nodes == old(nodes)[level := EnsureIndex(old(nodes)[level], index, zero)[index := node]]
    {
      nodes := nodes[level := EnsureIndex(nodes[level], index, zero)];
      nodes := nodes[level := nodes[level][index := node]];
    }

    method Insert(leaf: N) returns (finalIndex: nat)
      requires Valid()
      modifies `nodes, `dirty, `hashCalls
      ensures Valid() && Leaves() == old(Leaves()) + [leaf]
      ensures finalIndex == |old(Leaves())| && dirty
      ensures hashCalls == old(hashCalls) + PopCount(|old(Leaves())|)
    {
      ghost var want := Levels(hash, nodes[0] + [leaf]);
      LevelsIsTree(hash, nodes[0] + [leaf]);
      CeilLog2Next(|nodes[0]|);
      var nextSize := |nodes[0]| + 1;
      var needed := ComputeCeilLog2(nextSize);
      if |nodes| - 1 < needed {
        nodes := nodes + [[]];
      }
      ghost var grown := nodes;
      GrownLevels(hash, old(nodes), grown);
      finalIndex := |nodes[0]|;
      AppendPlaces(want[0], grown[0], finalIndex, leaf, zero);
      SetNode(0, finalIndex, leaf);
      RaiseLast(leaf, finalIndex, want, grown);
      dirty := true;
    }

    /** The loop of Insert: carries the new leaf's node up the levels, want being the tree to
        reach and grown the levels before the leaf was stored. */
    method RaiseLast(leaf: N, finalIndex: nat, ghost want: seq<seq<N>>, ghost grown: seq<seq<N>>)
      requires IsTree(hash, want) && |grown| == |want|
      requires forall l | 0 <= l < |grown| - 1 :: Above(hash, grown[l], grown[l + 1])
      requires nodes == grown[0 := want[0]] && AppendAt(want[0], grown[0], finalIndex, leaf)
      modifies `nodes, `hashCalls
      ensures nodes == want
      ensures hashCalls == old(hashCalls) + PopCount(finalIndex)
    {
      ghost var was := nodes;
      var node, index := leaf, finalIndex;
      var depth := |nodes| - 1;
      for level := 0 to depth
        invariant 0 <= index && Midway(nodes, want, was, level)
        invariant AppendAt(want[level], grown[level], index, node)
        invariant hashCalls + PopCount(index) == old(hashCalls) + PopCount(finalIndex)
      {
        MidwayStep(nodes, want, was, level);
        AppendPlaces(want[level], grown[level], index, node, zero);
        if level > 0 {
          SetNode(level, index, node);
        }
        AppendStep(hash, want[level], grown[level], grown[level + 1], index, node);
        if index % 2 == 1 {
          var sibling := nodes[level][index - 1];
          node := Hash(sibling, node);
        }
        index := index / 2;
      }
      MidwayStep(nodes, want, was, depth);
      LevelSize(hash, want, depth);
      assert want[depth] == [node];
      nodes := nodes[depth := [node]];
    }

    method InsertMany(leaves: seq<N>) returns (r: Outcome)
      requires Valid()
      modifies `nodes, `dirty, `hashCalls
      ensures Valid()
      ensures r == if leaves == [] then Failed(NoLeaves) else Done
      ensures r.Failed? ==> nodes == old(nodes) && dirty == old(dirty) && hashCalls == old(hashCalls)
      ensures r.Done? ==> Leaves() == old(Leaves()) + leaves && dirty
      ensures r.Done? ==> hashCalls == old(hashCalls) + |leaves| - 1 + PopCount(|old(Leaves())|)
    {
      if |leaves| == 0 {
        return Failed(NoLeaves);
      }
      ghost var want := Levels(hash, nodes[0] + leaves);
      LevelsIsTree(hash, nodes[0] + leaves);
      CeilLog2Monotone(|nodes[0]|, |nodes[0] + leaves|);
      var startIndex := |nodes[0]| / 2;
      ghost var n := |nodes[0]|;
      ghost var grown := nodes;
      nodes := nodes[0 := nodes[0] + leaves];
      var top := ComputeCeilLog2(|nodes[0]|);
      var newLevels := top - (|nodes| - 1);
      AddLevels(newLevels);
      grown := grown + nodes[|grown|..];
      GrownLevels(hash, old(nodes), grown);
      assert |want[0]| == n + |leaves|;
      RaiseMany(startIndex, n, want, grown);
      dirty := true;
      r := Done;
    }

    method AddLevels(count: nat)
      modifies `nodes
      ensures |nodes| == |old(nodes)| + count && old(nodes) <= nodes
      ensures forall l | |old(nodes)| <= l < |nodes| :: nodes[l] == []
    {
      for k := 0 to count
        invariant |nodes| == |old(nodes)| + k && old(nodes) <= nodes
        invariant forall l | |old(nodes)| <= l < |nodes| :: nodes[l] == []
      {
        nodes := nodes + [[]];
      }
    }

    /** The loop of InsertMany, over all levels from the first parent that can have changed. */
    method RaiseMany(start: nat, ghost n: nat, ghost want: seq<seq<N>>, ghost grown: seq<seq<N>>)
      requires IsTree(hash, want) && |grown| == |want| && want[0] != []
      requires forall l | 0 <= l < |grown| - 1 :: Above(hash, grown[l], grown[l + 1])
      requires nodes == grown[0 := want[0]] && Shared(want[0], grown[0], n) && start == n / 2
      modifies `nodes, `hashCalls
      ensures nodes == want
      ensures hashCalls == old(hashCalls) + |want[0]| - 1 - n + PopCount(n)
    {
      ghost var was := nodes;
      var startIndex, depth := start, |nodes| - 1;
      ghost var p := n;
      for level := 0 to depth
        invariant Midway(nodes, want, was, level + 1)
        invariant Shared(want[level], grown[level], p) && startIndex == p / 2
        invariant hashCalls == old(hashCalls) + |want[0]| - |want[level]| - (n - p) + PopCount(n) - PopCount(p)
      {
        SharedStep(hash, want[level], grown[level], grown[level + 1], p);
        MidwayStep(nodes, want, was, level + 1);
        assert nodes[level] == nodes[..level + 1][level] == want[level];
        FillParents(level, startIndex);
        startIndex := startIndex / 2;
        p := p / 2;
      }
      LevelSize(hash, want, depth);
    }

    /** Computes the parents of one level from position start on. */
    method FillParents(level: nat, start: nat)
      requires level + 1 < |nodes| && start <= |nodes[level]| / 2
      requires Shared(NextLevel(hash, nodes[level]), nodes[level + 1], start)
      modifies `nodes, `hashCalls
      ensures nodes == old(nodes)[level + 1 := NextLevel(hash, old(nodes)[level])]
      ensures hashCalls == old(hashCalls) + |old(nodes)[level]| / 2 - start
    {
      var numNodes := (|nodes[level]| + 1) / 2;
      ghost var next, below, row := NextLevel(hash, nodes[level]), nodes[level], nodes[level + 1];
      for index := start to numNodes
        invariant nodes == old(nodes)[level + 1 := row]
        invariant index <= |row| <= numNodes && row[..index] == next[..index]
        invariant |row| == index || (index == start && |row| == index + 1)
        invariant hashCalls == old(hashCalls) + (if index <= |below| / 2 then index else |below| / 2) - start
      {
        var li := index * 2;
        var ri := li + 1;
        var left := nodes[level][li];
        var parent;
        if ri < |nodes[level]| {
          var right := nodes[level][ri];
          parent := Hash(left, right);
        } else {
          parent := left;
        }
        SetNode(level + 1, index, parent);
        row := EnsureIndex(row, index, zero)[index := parent];
        assert row[..index + 1] == next[..index] + [next[index]] == next[..index + 1];
      }
      assert row == row[..numNodes] == next[..numNodes] == next;
    }

    method Update(index: int, newLeaf: N) returns (r: Outcome)
      requires Valid()
      modifies `nodes, `dirty, `hashCalls
      ensures Valid()
      ensures r == if 0 <= index < |old(Leaves())| then Done else Failed(IndexOutOfRange)
      ensures r.Failed? ==> nodes == old(nodes) && dirty == old(dirty) && hashCalls == old(hashCalls)
      ensures r.Done? ==> Leaves() == old(Leaves())[index := newLeaf] && dirty
      ensures r.Done? ==> hashCalls == old(hashCalls) + |Path(hash, old(Leaves()), index)|
    {
      if index < 0 || index >= |nodes[0]| {
        return Failed(IndexOutOfRange);
      }
      ghost var want := Levels(hash, nodes[0][index := newLeaf]);
      LevelsIsTree(hash, nodes[0][index := newLeaf]);
      nodes := nodes[0 := nodes[0][index := newLeaf]];
      RaiseUpdated(index, newLeaf, want, old(nodes));
      dirty := true;
      r := Done;
    }

    /** The parent of a node on the path: hashed with its sibling, or the node itself. */
    method HashWithSibling(level: nat, index: nat, node: N) returns (parent: N)
      requires level < |nodes| && index < |nodes[level]| && node == nodes[level][index]
      modifies `hashCalls
      ensures parent == Parent(hash, nodes[level], index / 2)
      ensures hashCalls == old(hashCalls) + if index % 2 == 1 || index + 1 < |nodes[level]| then 1 else 0
    {
      parent := node;
      if index % 2 == 1 {
        var sibling := nodes[level][index - 1];
        parent := Hash(sibling, node);
      } else {
        var ri := index + 1;
        if ri < |nodes[level]| {
          var sibling := nodes[level][ri];
          parent := Hash(node, sibling);
        }
      }
    }

    /** The loop of Update: carries the changed node up the levels. */
    method RaiseUpdated(start: nat, newLeaf: N, ghost want: seq<seq<N>>, ghost before: seq<seq<N>>)
      requires IsTree(hash, want) && IsTree(hash, before)
      requires start < |before[0]| && want[0] == before[0][start := newLeaf] && nodes == before[0 := want[0]]
      modifies `nodes, `hashCalls
      ensures nodes == want
      ensures hashCalls == old(hashCalls) + |Path(hash, before[0], start)|
    {
      ghost var was := nodes;
      var node, index, depth := newLeaf, start, |nodes| - 1;
      for level := 0 to depth
        invariant Midway(nodes, want, was, level)
        invariant 0 <= index < |before[level]| && want[level] == before[level][index := node]
        invariant hashCalls + |Path(hash, before[level], index)| == old(hashCalls) + |Path(hash, before[0], start)|
      {
        MidwayStep(nodes, want, was, level);
        if level > 0 {
          SetNode(level, index, node);
        }
        UpdateStep(hash, before[level], index, node);
        PathLengthStep(hash, before[level], index);
        node := HashWithSibling(level, index, node);
        index := index / 2;
      }
      MidwayStep(nodes, want, was, depth);
      LevelSize(hash, before, depth);
      assert want[depth] == [node];
      nodes := nodes[depth := [node]];
    }

    /** Updates several leaves at once. A call is accepted exactly when every index is in range and
        none repeats; a rejected call changes nothing. */
    method UpdateMany(indices: seq<int>, leaves: seq<N>) returns (r: Outcome)
      requires Valid()
      modifies `nodes, `dirty, `hashCalls
      ensures Valid()
      ensures r.Done? <==> |indices| == |leaves| && Assignable(indices, |old(Leaves())|)
      ensures |indices| != |leaves| ==> r == Failed(LengthMismatch)
      ensures |indices| == |leaves| && r.Failed? ==> RejectedAt(indices, |old(Leaves())|, r.error)
      ensures r.Failed? || indices == [] ==> nodes == old(nodes) && dirty == old(dirty) && hashCalls == old(hashCalls)
      ensures r.Done? ==> Leaves() == Assigned(old(Leaves()), indices, leaves)
      ensures r.Done? && indices != [] ==> dirty
      ensures r.Done? && indices != [] ==>
                hashCalls == old(hashCalls) + ModifiedCost(|old(Leaves())|, ParentsOf(indices))
    {
      if |indices| != |leaves| {
        return Failed(LengthMismatch);
      }
      r := ValidateIndices(indices);
      if r.Failed? || |indices| == 0 {
        return;
      }
      ghost var want := Levels(hash, Assigned(nodes[0], indices, leaves));
      LevelsIsTree(hash, Assigned(nodes[0], indices, leaves));
      var modified := AssignLeaves(indices, leaves);
      RaiseModified(modified, want, old(nodes));
      dirty := true;
    }

    method ValidateIndices(indices: seq<int>) returns (r: Outcome)
      requires nodes != []
      ensures r.Done? <==> Assignable(indices, |nodes[0]|)
      ensures r.Failed? ==> RejectedAt(indices, |nodes[0]|, r.error)
    {
      var seen: set<int> := {};
      for i := 0 to |indices|
        invariant Assignable(indices[..i], |nodes[0]|)
        invariant seen == set k | 0 <= k < i :: indices[k]
      {
        var idx := indices[i];
        if idx < 0 || idx >= |nodes[0]| {
          r := Failed(IndexOutOfRange);
          return;
        }
        if idx in seen {
          assert idx in indices[..i];
          r := Failed(RepeatedIndex);
          return;
        }
        seen := seen + {idx};
        assert indices[..i + 1] == indices[..i] + [idx];
      }
      assert indices[..|indices|] == indices;
      r := Done;
    }

    /** Assigns the leaves and returns the parents to recompute. */
    method AssignLeaves(indices: seq<int>, leaves: seq<N>) returns (modified: set<nat>)
      requires nodes != [] && |indices| == |leaves| && Assignable(indices, |nodes[0]|)
      modifies `nodes
      ensures nodes == old(nodes)[0 := Assigned(old(nodes)[0], indices, leaves)]
      ensures Touched(nodes[0], old(nodes)[0], modified) && modified == ParentsOf(indices)
    {
      modified := {};
      ghost var row := nodes[0];
      for i := 0 to |indices|
        invariant row == Assigned(old(nodes)[0], indices[..i], leaves[..i])
        invariant nodes == old(nodes)[0 := row]
        invariant Touched(row, old(nodes)[0], modified) && modified == ParentsOf(indices[..i])
      {
        var idx := indices[i];
        nodes := nodes[0 := nodes[0][idx := leaves[i]]];
        row := row[idx := leaves[i]];
        modified := modified + {idx / 2};
        assert indices[..i + 1][..i] == indices[..i] && leaves[..i + 1][..i] == leaves[..i];
      }
      assert indices[..|indices|] == indices && leaves[..|leaves|] == leaves;
    }

    /** The loop of UpdateMany over the levels. */
    method RaiseModified(start: set<nat>, ghost want: seq<seq<N>>, ghost before: seq<seq<N>>)
      requires IsTree(hash, want) && IsTree(hash, before) && |want| == |before|
      requires nodes == before[0 := want[0]] && Touched(want[0], before[0], start)
      modifies `nodes, `hashCalls
      ensures nodes == want
      ensures hashCalls == old(hashCalls) + ModifiedCost(|before[0]|, start)
    {
      ghost var was := nodes;
      var modified := start;
      for level := 1 to |nodes|
        invariant Midway(nodes, want, was, level)
        invariant Touched(want[level - 1], before[level - 1], modified)
        invariant hashCalls + ModifiedCost(|before[level - 1]|, modified) ==
                  old(hashCalls) + ModifiedCost(|before[0]|, start)
      {
        LevelSize(hash, before, level - 1);
        MidwayStep(nodes, want, was, level);
        assert nodes[level - 1] == nodes[..level][level - 1] == want[level - 1];
        TouchedStep(hash, want[level - 1], before[level - 1], modified);
        modified := RecomputeParents(level, modified);
      }
      if before[0] != [] { LevelSize(hash, before, |before| - 1); }
    }

    /** Recomputes the modified nodes of one level, in whatever order the set yields them, and
        returns the parents of those. */
    method RecomputeParents(level: nat, modified: set<nat>) returns (next: set<nat>)
      requires 0 < level < |nodes| && |nodes[level]| == (|nodes[level - 1]| + 1) / 2
      requires forall m | m in modified :: m < |nodes[level]|
      requires forall i | 0 <= i < |nodes[level]| && i !in modified ::
                 nodes[level][i] == Parent(hash, nodes[level - 1], i)
      modifies `nodes, `hashCalls
      ensures nodes == old(nodes)[level := NextLevel(hash, old(nodes)[level - 1])]
      ensures next == Halves(modified)
      ensures hashCalls == old(hashCalls) + |Paired(|old(nodes)[level - 1]|, modified)|
    {
      next := {};
      var todo := modified;
      ghost var below, row := nodes[level - 1], nodes[level];
      while todo != {}
        invariant todo <= modified
        invariant nodes == old(nodes)[level := row] && |row| == |old(nodes)[level]|
        invariant forall i | 0 <= i < |row| && i !in todo :: row[i] == Parent(hash, below, i)
        invariant next == Halves(modified - todo)
        invariant hashCalls == old(hashCalls) + |Paired(|below|, modified - todo)|
        decreases todo
      {
        var idx :| idx in todo;
        RecomputeParent(level, idx);
        row := row[idx := Parent(hash, below, idx)];
        next := next + {idx / 2};
        HalvesStep(modified - todo, idx);
        PairedStep(|below|, modified - todo, idx);
        assert modified - (todo - {idx}) == (modified - todo) + {idx};
        todo := todo - {idx};
      }
      assert row == NextLevel(hash, below) && modified - todo == modified;
    }

    method RecomputeParent(level: nat, idx: nat)
      requires 0 < level < |nodes| && idx < |nodes[level]| && 2 * idx < |nodes[level - 1]|
      modifies `nodes, `hashCalls
      ensures var row, below := old(nodes)[level], old(nodes)[level - 1];
              nodes == old(nodes)[level := row[idx := Parent(hash, below, idx)]]
      ensures hashCalls == old(hashCalls) + if 2 * idx + 1 < |old(nodes)[level - 1]| then 1 else 0
    {
      var li := 2 * idx;
      var ri := li + 1;
      var parent := nodes[level - 1][li];
      if ri < |nodes[level - 1]| {
        parent := Hash(parent, nodes[level - 1][ri]);
      }
      SetNode(level, idx, parent);
    }

    method RootNode() returns (r: Option<N>)
      requires Valid()
      ensures r == if Leaves() == [] then None else Some(Root(hash, Leaves()))
    {
      var depth := |nodes| - 1;
      ghost var leaves := nodes[0];
      if leaves != [] { TopIsRoot(hash, nodes, 0); }
      if |nodes[depth]| == 0 {
        return None;
      }
      r := Some(nodes[depth][0]);
    }

    /** The first position of a leaf, or -1. */
    method IndexOf(leaf: N) returns (index: int)
      requires Valid()
      ensures index == FirstIndex(Leaves(), leaf)
    {
      for i := 0 to |nodes[0]|
        invariant leaf !in nodes[0][..i]
      {
        if nodes[0][i] == leaf {
          FirstIndexIs(nodes[0], leaf, i);
          return i;
        }
        assert nodes[0][..i + 1] == nodes[0][..i] + [nodes[0][i]];
      }
      assert nodes[0][..|nodes[0]|] == nodes[0];
      FirstIndexMeaning(nodes[0], leaf);
      index := -1;
    }

    method Has(leaf: N) returns (found: bool)
      requires Valid()
      ensures found <==> leaf in Leaves()
    {
      var index := IndexOf(leaf);
      FirstIndexMeaning(nodes[0], leaf);
      found := index >= 0;
    }

    /** Rebuilds every level above the leaves. */
    method RebuildTree()
      requires nodes != []
      modifies `nodes, `hashCalls
      ensures old(nodes)[0] == [] ==> nodes == old(nodes)
      ensures old(nodes)[0] != [] ==> nodes == Levels(hash, old(nodes)[0])
      ensures old(nodes)[0] != [] ==> hashCalls == old(hashCalls) + |old(nodes)[0]| - 1
    {
      if |nodes[0]| == 0 {
        return;
      }
      ghost var want := Levels(hash, nodes[0]);
      LevelsIsTree(hash, nodes[0]);
      var size := |nodes[0]|;
      var depth := ComputeCeilLog2(size);
      var leaves := nodes[0];
      nodes := seq(depth + 1, _ => []);
      nodes := nodes[0 := leaves];
      ghost var was := nodes;
      for level := 0 to depth
        invariant Midway(nodes, want, was, level + 1)
        invariant hashCalls == old(hashCalls) + size - |want[level]|
      {
        MidwayStep(nodes, want, was, level + 1);
        assert nodes[level] == nodes[..level + 1][level] == want[level];
        BuildLevel(level);
      }
      LevelSize(hash, want, depth);
    }

    method BuildLevel(level: nat)
      requires level + 1 < |nodes|
      modifies `nodes, `hashCalls
      ensures nodes == old(nodes)[level + 1 := NextLevel(hash, old(nodes)[level])]
      ensures hashCalls == old(hashCalls) + |old(nodes)[level]| / 2
    {
      var currentLevel := nodes[level];
      var numParents := (|currentLevel| + 1) / 2;
      nodes := nodes[level + 1 := seq(numParents, _ => zero)];
      ghost var row := nodes[level + 1];
      for i := 0 to numParents
        invariant nodes == old(nodes)[level + 1 := row] && |row| == numParents
        invariant forall k | 0 <= k < i :: row[k] == Parent(hash, currentLevel, k)
        invariant hashCalls == old(hashCalls) + if i <= |currentLevel| / 2 then i else |currentLevel| / 2
      {
        var leftIdx := i * 2;
        var rightIdx := leftIdx + 1;
        var parent := currentLevel[leftIdx];
        if rightIdx < |currentLevel| {
          parent := Hash(currentLevel[leftIdx], currentLevel[rightIdx]);
        }
        nodes := nodes[level + 1 := nodes[level + 1][i := parent]];
        row := row[i := parent];
      }
      assert row == NextLevel(hash, currentLevel);
    }

    /** The proof of the leaf at an index. */
    method GenerateProof(index: int) returns (r: Result<MerkleProof<N>>)
      requires Valid()
      ensures r == if 0 <= index < |Leaves()| then Ok(ProofOf(hash, Leaves(), index)) else Err(IndexOutOfRange)
      ensures r.Ok? ==> r.value.leafIndex == index && r.value.leaf == Leaves()[index]
    {
      if index < 0 || index >= |nodes[0]| {
        return Err(IndexOutOfRange);
      }
      var leaf := nodes[0][index];
      var siblings, pathBits := CollectPath(index);
      var packed := PackPathBits(pathBits);
      var root := RootNode();
      r := Ok(MerkleProof(root.value, leaf, packed, index, siblings));
    }

    /** The loop of GenerateProof over the levels. */
    method CollectPath(start: nat) returns (siblings: seq<N>, pathBits: seq<bool>)
      requires Valid() && start < |Leaves()|
      ensures siblings == Siblings(Path(hash, Leaves(), start))
      ensures pathBits == Rights(Path(hash, Leaves(), start))
    {
      siblings, pathBits := [], [];
      var index, depth := start, |nodes| - 1;
      ghost var done: seq<Step<N>> := [];
      for level := 0 to depth
        invariant 0 <= index < |nodes[level]|
        invariant Path(hash, nodes[0], start) == done + Path(hash, nodes[level], index)
        invariant siblings == Siblings(done) && pathBits == Rights(done)
      {
        var sibling := SiblingOf(level, index);
        CollectStep(done, nodes[level], index);
        WalkStep(hash, nodes, level, index, Path(hash, nodes[0], start), done);
        done := done + StepAt(nodes[level], index);
        if sibling.Some? {
          pathBits := pathBits + [index % 2 == 1];
          siblings := siblings + [sibling.value];
        }
        index := index / 2;
      }
      LevelSize(hash, nodes, depth);
      assert Path(hash, nodes[depth], index) == [];
      assert done + [] == done;
    }

    /** The sibling of a node, if it has one. */
    method SiblingOf(level: nat, index: nat) returns (sibling: Option<N>)
      requires level < |nodes| && index < |nodes[level]|
      ensures sibling == if StepAt(nodes[level], index) == [] then None
                         else Some(StepAt(nodes[level], index)[0].sibling)
    {
      var isRight := index % 2 == 1;
      if isRight {
        return Some(nodes[level][index - 1]);
      }
      var ri := index + 1;
      if ri < |nodes[level]| {
        return Some(nodes[level][ri]);
      }
      sibling := None;
    }

    /** Opens the tree of a store, or an empty one in memory. A store whose leaves are missing
        counts as new. The ghost argument names the leaves the store holds. */
    static method New(hash: (N, N) -> N, zero: N, db: Store?, encoder: N -> Option<seq<byte>>,
                      decoder: seq<byte> -> Option<N>, ghost held: seq<N>) returns (r: Result<LeanIMT<N>>)
      ensures r.Ok? ==> fresh(r.value) && r.value.Valid() && !r.value.dirty
      ensures r.Ok? ==> r.value.hash == hash && r.value.db == db
      ensures r.Ok? ==> r.value.encoder == encoder && r.value.decoder == decoder && r.value.stored == held
      ensures db == null ==> r.Ok? && r.value.Leaves() == []
      ensures db != null ==>
                match StoredLeaves(db.data, decoder)
                case Ok(xs) => r.Ok? && r.value.Leaves() == xs
                case Err(error) =>
                  if error == KeyNotFound then r.Ok? && r.value.Leaves() == [] else r == Err(error)
    {
      var t := new LeanIMT(hash, zero, db, encoder, decoder, held);
      if db != null {
        var loaded := t.Load();
        if loaded.Failed? {
          if loaded.error != KeyNotFound {
            return Err(loaded.error);
          }
          t.nodes := [[]];
        }
      }
      r := Ok(t);
    }

    /** Restores the leaves of the store and rebuilds the levels above them; on an error nothing
        changes. */
    method Load() returns (r: Outcome)
      requires Valid()
      modifies `nodes, `dirty, `hashCalls
      ensures Valid()
      ensures db == null ==> r == Failed(NoDatabase)
      ensures db != null ==>
                match StoredLeaves(db.data, decoder)
                case Ok(xs) => r == Done && Leaves() == xs && dirty == (old(dirty) && xs == [])
                case Err(error) => r == Failed(error)
      ensures r.Failed? ==> nodes == old(nodes) && dirty == old(dirty)
    {
      if db == null {
        return Failed(NoDatabase);
      }
      if MetaSize !in db.data {
        nodes := [[]];
        return Done;
      }
      var size := DecodeInt(db.data[MetaSize]);
      if size == 0 {
        nodes := [[]];
        return Done;
      }
      if size < 0 {
        return Failed(Panicked);
      }
      var leaves := LoadLeaves(size);
      if leaves.Err? {
        return Failed(leaves.error);
      }
      LevelsIsTree(hash, leaves.value);
      nodes := [leaves.value];
      RebuildTree();
      dirty := false;
      r := Done;
    }

    method LoadLeaves(size: nat) returns (r: Result<seq<N>>)
      requires db != null && size <= MAX_INT
      ensures r == ReadLeaves(db.data, decoder, size)
    {
      var leaves: seq<N> := [];
      for i := 0 to size
        invariant ReadLeaves(db.data, decoder, i) == Ok(leaves)
        invariant ReadLeaves(db.data, decoder, size).Ok? ==> ReadLeaves(db.data, decoder, i).Ok?
      {
        var text := IntToString(i);
        if LeafKey(text) !in db.data {
          ReadLeavesFails(db.data, decoder, i + 1, size);
          return Err(KeyNotFound);
        }
        var leaf := decoder(db.data[LeafKey(text)]);
        if leaf.None? {
          ReadLeavesFails(db.data, decoder, i + 1, size);
          return Err(NotDecodable);
        }
        leaves := leaves + [leaf.value];
      }
      r := Ok(leaves);
    }

    /** Writes the leaves to the store in one transaction, if anything changed. If a leaf cannot
        be encoded nothing is written. */
    method Sync() returns (r: Outcome)
      requires Valid() && |Leaves()| <= MAX_INT
      modifies `dirty, `stored, db
      ensures db == null || !old(dirty) ==> r == Done && dirty == old(dirty) && stored == old(stored)
      ensures db != null && !old(dirty) ==> db.data == old(db.data)
      ensures db != null && old(dirty) ==>
                r == if forall i | 0 <= i < |Leaves()| :: encoder(Leaves()[i]).Some? then Done else Failed(NotEncodable)
      ensures db != null && r.Failed? ==> db.data == old(db.data) && dirty == old(dirty) && stored == old(stored)
      ensures db != null && r.Done? ==> !dirty
      ensures db != null && r.Done? && old(Persisted()) ==> Persisted() && Holds(db.data, Leaves(), encoder)
      ensures db != null && r.Done? && old(dirty) ==> TreeWritten(old(db.data), db.data, Leaves(), encoder)
      ensures db != null ==> SameOutsideTree(old(db.data), db.data)
    {
      if db == null {
        return Done;
      }
      if !dirty {
        return Done;
      }
      var currentSize := |nodes[0]|;
      var planned := PlanLeaves();
      if planned.Err? {
        return Failed(planned.error);
      }
      var tx, count := PlanStaleLeaves(planned.value, currentSize);
      if old(Persisted()) {
        SizeOfHeld(db.data, stored, encoder);
        PlannedCommitHolds(db.data, stored, tx, nodes[0], encoder, count);
      }
      PlannedCommitWrites(db.data, tx, nodes[0], encoder, count);
      var sizeText := IntToString(currentSize);
      tx := tx[MetaSize := Some(sizeText)];
      tx := tx[MetaVersion := Some([49])];
      db.Commit(tx);
      dirty := false;
      stored := nodes[0];
      r := Done;
    }

    method PlanLeaves() returns (r: Result<Batch>)
      requires nodes != [] && |nodes[0]| <= MAX_INT
      ensures r.Ok? <==> forall i | 0 <= i < |nodes[0]| :: encoder(nodes[0][i]).Some?
      ensures r.Ok? ==> Planned(r.value, nodes[0], encoder, |nodes[0]|)
      ensures r.Err? ==> r.error == NotEncodable
    {
      var tx: Batch := map[];
      for i := 0 to |nodes[0]|
        invariant Planned(tx, nodes[0], encoder, i)
        invariant forall k | 0 <= k < i :: encoder(nodes[0][k]).Some?
      {
        var text := IntToString(i);
        var value := encoder(nodes[0][i]);
        if value.None? {
          return Err(NotEncodable);
        }
        PlanStep(tx, nodes[0], encoder, i);
        tx := tx[LeafKey(text) := value];
      }
      r := Ok(tx);
    }

    /** Adds the deletion of the leaves beyond the current size that the store may still have. */
    method PlanStaleLeaves(planned: Batch, currentSize: nat) returns (tx: Batch, ghost count: nat)
      requires db != null && nodes != [] && currentSize == |nodes[0]| <= MAX_INT
      requires Planned(planned, nodes[0], encoder, currentSize)
      ensures Planned(tx, nodes[0], encoder, count)
      ensures currentSize <= count && StoredSize(db.data) <= count
      ensures count == currentSize || count == StoredSize(db.data)
    {
      tx, count := planned, currentSize;
      if MetaSize in db.data {
        var previousSize := DecodeInt(db.data[MetaSize]);
        var i := currentSize;
        while i < previousSize
          invariant currentSize <= i && (i <= previousSize || i == currentSize)
          invariant Planned(tx, nodes[0], encoder, i)
        {
          var text := IntToString(i);
          PlanStep(tx, nodes[0], encoder, i);
          tx := tx[LeafKey(text) := None];
          i := i + 1;
        }
        count := i;
      }
    }

    method ComputeCeilLog2(n: nat) returns (d: nat)
      ensures d == CeilLog2(n)
    {
      if n <= 1 {
        return 0;
      }
      d := 0;
      var x := n - 1;
      while x > 0
        invariant x >= 0 && d + CeilLog2(x + 1) == CeilLog2(n)
      {
        d := d + 1;
        x := x / 2;
      }
    }
  }
}
