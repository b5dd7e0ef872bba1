/** Whole runs of tree operations: the matrix they leave depends on the leaves alone. */
module TreeRuns {
  import opened Bits
  import opened Wrappers
  import opened Numerals
  import opened Storage
  import opened TreeStore
  import opened LeanTree
  import opened IncrementalTree

  datatype Op<N> =
    | InsertOp(leaf: N)
    | InsertManyOp(leaves: seq<N>)
    | UpdateOp(index: int, leaf: N)
    | UpdateManyOp(indices: seq<int>, leaves: seq<N>)
    | SyncOp

  /** The leaves after an operation; a rejected one changes nothing. */
  function LeavesAfter<N>(leaves: seq<N>, op: Op<N>): seq<N> {
    match op
    case InsertOp(leaf) => leaves + [leaf]
    case InsertManyOp(more) => leaves + more
    case UpdateOp(index, leaf) => if 0 <= index < |leaves| then leaves[index := leaf] else leaves
    case UpdateManyOp(indices, values) =>
      if |indices| == |values| && Assignable(indices, |leaves|) then Assigned(leaves, indices, values) else leaves
    case SyncOp => leaves
  }

  function LeavesAfterAll<N>(leaves: seq<N>, ops: seq<Op<N>>): seq<N> {
    if ops == [] then leaves else LeavesAfter(LeavesAfterAll(leaves, ops[..|ops| - 1]), ops[|ops| - 1])
  }

  lemma {:induction false} LeavesOnlyGrow<N>(leaves: seq<N>, ops: seq<Op<N>>, k: nat)
    requires k <= |ops|
    ensures |leaves| <= |LeavesAfterAll(leaves, ops[..k])| <= |LeavesAfterAll(leaves, ops)|
    decreases |ops|
  {
    if k == |ops| {
      assert ops[..k] == ops;
      if k > 0 { LeavesOnlyGrow(leaves, ops[..k - 1], k - 1); }
    } else {
      assert ops[..|ops| - 1][..k] == ops[..k];
      LeavesOnlyGrow(leaves, ops[..|ops| - 1], k);
    }
  }

  /** Performs one operation. */
  method Perform<N(==)>(t: LeanIMT<N>, op: Op<N>)
    requires t.Valid() && t.Persisted() && |t.Leaves()| <= MAX_INT
    modifies t, t.db
    ensures t.Valid() && t.Persisted() && t.Leaves() == LeavesAfter(old(t.Leaves()), op)
  {
    match op
    case InsertOp(leaf) => var i := t.Insert(leaf);
    case InsertManyOp(leaves) => var r := t.InsertMany(leaves);
    case UpdateOp(index, leaf) => var r := t.Update(index, leaf);
    case UpdateManyOp(indices, leaves) => var r := t.UpdateMany(indices, leaves);
    case SyncOp => var r := t.Sync();
  }

  /** History independence: after any run of operations and syncs, the whole matrix is the one
      that the resulting leaves determine, and the store holds what it should. */
  method RunTree<N(==)>(t: LeanIMT<N>, ops: seq<Op<N>>)
    requires t.Valid() && t.Persisted() && |LeavesAfterAll(t.Leaves(), ops)| <= MAX_INT
    modifies t, t.db
    ensures t.Valid() && t.Persisted() && t.Leaves() == LeavesAfterAll(old(t.Leaves()), ops)
    ensures t.nodes == Levels(t.hash, LeavesAfterAll(old(t.Leaves()), ops))
  {
    for k := 0 to |ops|
      invariant t.Valid() && t.Persisted() && t.Leaves() == LeavesAfterAll(old(t.Leaves()), ops[..k])
    {
      assert ops[..k + 1][..k] == ops[..k];
      LeavesOnlyGrow(old(t.Leaves()), ops, k);
      Perform(t, ops[k]);
    }
    assert ops[..|ops|] == ops;
    TreeIsLevels(t.hash, t.nodes);
  }

  /** After any run, rebuilding every level from the leaves changes nothing. */
  method RebuildAfterRun<N(==)>(t: LeanIMT<N>, ops: seq<Op<N>>)
    requires t.Valid() && t.Persisted() && |LeavesAfterAll(t.Leaves(), ops)| <= MAX_INT
    modifies t, t.db
    ensures t.nodes == Levels(t.hash, LeavesAfterAll(old(t.Leaves()), ops))
  {
    RunTree(t, ops);
    ghost var before := t.nodes;
    t.RebuildTree();
    assert t.nodes == before;
  }

  /** Inserting a batch gives the same matrix as inserting its leaves one by one. */
  method BatchEqualsRepeated<N(==)>(t: LeanIMT<N>, u: LeanIMT<N>, leaves: seq<N>)
    requires t.Valid() && u.Valid() && t != u && t.hash == u.hash && t.Leaves() == u.Leaves() && leaves != []
    modifies t, u
    ensures t.nodes == u.nodes && t.Valid() && t.Leaves() == old(t.Leaves()) + leaves
  {
    var r := t.InsertMany(leaves);
    for k := 0 to |leaves|
      invariant t.Valid() && t.Leaves() == old(t.Leaves()) + leaves
      invariant u.Valid() && u.Leaves() == old(u.Leaves()) + leaves[..k]
    {
      var i := u.Insert(leaves[k]);
      assert leaves[..k + 1] == leaves[..k] + [leaves[k]];
    }
    assert leaves[..|leaves|] == leaves;
    TreeIsLevels(t.hash, t.nodes);
    TreeIsLevels(u.hash, u.nodes);
  }

  /** The hash calls of m single insertions into a tree of n leaves. */
  function RepeatedCost(n: nat, m: nat): nat {
    if m == 0 then 0 else RepeatedCost(n, m - 1) + PopCount(n + m - 1)
  }

  lemma {:induction false} PopCountPositive(n: nat)
    ensures PopCount(n) > 0 <==> n > 0
  {
    if n == 0 {
    } else {
      PopCountPositive(n / 2);
    }
  }

  /** A batch never hashes more than inserting its leaves one by one, and hashes less exactly when
      one of the intermediate sizes after the first is not a power of two. */
  lemma {:induction false} BatchNeverCostsMore(n: nat, m: nat)
    requires m > 0
    ensures m - 1 + PopCount(n) <= RepeatedCost(n, m)
    ensures m - 1 + PopCount(n) < RepeatedCost(n, m) <==> exists size | n < size < n + m :: PopCount(size) > 1
    decreases m
  {
    if m == 1 {
      assert RepeatedCost(n, 1) == PopCount(n);
    } else {
      BatchNeverCostsMore(n, m - 1);
      PopCountPositive(n + m - 1);
      assert PopCount(n + m - 1) > 1 ==> exists size | n < size < n + m :: PopCount(size) > 1;
    }
  }

  /** The same assignments in another order. */
  ghost predicate Reordered<N>(indices: seq<int>, values: seq<N>, indices': seq<int>, values': seq<N>) {
    && |indices| == |values| && |indices'| == |values'|
    && (forall k | 0 <= k < |indices| ::
          exists j :: 0 <= j < |indices'| && indices'[j] == indices[k] && values'[j] == values[k])
    && (forall j | 0 <= j < |indices'| ::
          exists k :: 0 <= k < |indices| && indices'[j] == indices[k] && values'[j] == values[k])
  }

  lemma AssignedInAnyOrder<N>(leaves: seq<N>, indices: seq<int>, values: seq<N>, indices': seq<int>, values': seq<N>)
    requires Reordered(indices, values, indices', values')
    requires Assignable(indices, |leaves|) && Assignable(indices', |leaves|)
    ensures Assigned(leaves, indices, values) == Assigned(leaves, indices', values')
  {
    var a, b := Assigned(leaves, indices, values), Assigned(leaves, indices', values');
    forall i | 0 <= i < |leaves| ensures a[i] == b[i] {
      AssignedDistinct(leaves, indices, values, i);
      AssignedDistinct(leaves, indices', values', i);
      if i in indices {
        var k :| 0 <= k < |indices| && indices[k] == i;
        var j :| 0 <= j < |indices'| && indices'[j] == indices[k] && values'[j] == values[k];
      } else {
        assert i !in indices';
      }
    }
  }

  method UpdateEach<N(==)>(u: LeanIMT<N>, indices: seq<int>, values: seq<N>)
    requires u.Valid() && |indices| == |values| && Assignable(indices, |u.Leaves()|)
    modifies u
    ensures u.Valid() && u.Leaves() == Assigned(old(u.Leaves()), indices, values)
  {
    for k := 0 to |indices|
      invariant u.Valid() && u.Leaves() == Assigned(old(u.Leaves()), indices[..k], values[..k])
    {
      assert indices[..k + 1][..k] == indices[..k] && values[..k + 1][..k] == values[..k];
      var done := u.Update(indices[k], values[k]);
    }
    assert indices[..|indices|] == indices && values[..|values|] == values;
  }

  /** Updating many leaves at once gives the same matrix as updating them one by one, in any
      order. */
  method UpdateManyEqualsUpdates<N(==)>(t: LeanIMT<N>, u: LeanIMT<N>, indices: seq<int>, values: seq<N>,
                                        indices': seq<int>, values': seq<N>)
    requires t.Valid() && u.Valid() && t != u && t.hash == u.hash && t.Leaves() == u.Leaves()
    requires Reordered(indices, values, indices', values')
    requires Assignable(indices, |t.Leaves()|) && Assignable(indices', |t.Leaves()|)
    modifies t, u
    ensures t.nodes == u.nodes == Levels(t.hash, Assigned(old(t.Leaves()), indices, values))
  {
    var r := t.UpdateMany(indices, values);
    UpdateEach(u, indices', values');
    AssignedInAnyOrder(old(t.Leaves()), indices, values, indices', values');
    TreeIsLevels(t.hash, t.nodes);
    TreeIsLevels(u.hash, u.nodes);
  }

  /** The hash calls of single updates at the given positions. */
  function UpdatesCost<N>(hash: (N, N) -> N, leaves: seq<N>, indices: seq<int>): nat
    requires forall k | 0 <= k < |indices| :: 0 <= indices[k] < |leaves|
  {
    if indices == [] then 0
    else
      var k := |indices| - 1;
      UpdatesCost(hash, leaves, indices[..k]) + |Path(hash, leaves, indices[k])|
  }

  /** One modified leaf costs what its update costs. */
  lemma {:induction false} SingleCost<N>(hash: (N, N) -> N, leaves: seq<N>, i: nat)
    requires i < |leaves|
    ensures ModifiedCost(|leaves|, {i / 2}) == |Path(hash, leaves, i)|
    decreases |leaves|
  {
    if |leaves| == 1 {
    } else {
      SingleCost(hash, NextLevel(hash, leaves), i / 2);
      HalvesStep({}, i / 2);
      PairedStep(|leaves|, {}, i / 2);
      assert {} + {i / 2} == {i / 2} && Halves({}) + {i / 2 / 2} == {i / 2 / 2};
    }
  }

  /** Nodes that two sets of updates share are hashed once. */
  lemma {:induction false} UnionCost(size: nat, a: set<nat>, b: set<nat>)
    ensures ModifiedCost(size, a + b) <= ModifiedCost(size, a) + ModifiedCost(size, b)
    decreases size
  {
    if size <= 1 {
    } else {
      UnionCost((size + 1) / 2, Halves(a), Halves(b));
      assert Halves(a + b) == Halves(a) + Halves(b);
      assert Paired(size, a + b) == Paired(size, a) + Paired(size, b);
    }
  }

  lemma {:induction false} SmallSet(s: set<nat>, n: nat)
    requires forall m | m in s :: m < n
    ensures |s| <= n
    decreases n
  {
    if n == 0 {
      assert s == {};
    } else {
      SmallSet(s - {n - 1}, n - 1);
    }
  }

  lemma {:induction false} CostWithinRebuild(size: nat, modified: set<nat>)
    requires size > 0
    ensures ModifiedCost(size, modified) <= size - 1
    decreases size
  {
    if size == 1 {
    } else {
      SmallSet(Paired(size, modified), size / 2);
      CostWithinRebuild((size + 1) / 2, Halves(modified));
    }
  }

  /** Updating many leaves at once never hashes more than updating them one by one, nor more than
      rebuilding the tree. */
  lemma {:induction false} UpdateManyNeverCostsMore<N>(hash: (N, N) -> N, leaves: seq<N>, indices: seq<int>)
    requires leaves != [] && forall k | 0 <= k < |indices| :: 0 <= indices[k] < |leaves|
    ensures ModifiedCost(|leaves|, ParentsOf(indices)) <= UpdatesCost(hash, leaves, indices)
    ensures ModifiedCost(|leaves|, ParentsOf(indices)) <= |leaves| - 1
    decreases |indices|
  {
    CostWithinRebuild(|leaves|, ParentsOf(indices));
    if indices == [] {
      NothingModified(|leaves|);
    } else {
      var k := |indices| - 1;
      UpdateManyNeverCostsMore(hash, leaves, indices[..k]);
      UnionCost(|leaves|, ParentsOf(indices[..k]), {indices[k] / 2});
      SingleCost(hash, leaves, indices[k]);
    }
  }

  lemma {:induction false} NothingModified(size: nat)
    ensures ModifiedCost(size, {}) == 0
    decreases size
  {
    if size <= 1 {
    } else {
      NothingModified((size + 1) / 2);
      assert Halves({}) == {} && Paired(size, {}) == {};
    }
  }

  /** After any run from an empty store, whenever the tree is not dirty its store holds exactly the
      current leaves, and opening the store gives the same matrix. */
  method RunThenReopen<N(==)>(hash: (N, N) -> N, zero: N, db: Store, encoder: N -> Option<seq<byte>>,
                              decoder: seq<byte> -> Option<N>, ops: seq<Op<N>>)
      returns (t: LeanIMT<N>, u: Result<LeanIMT<N>>)
    requires db.data == map[] && |LeavesAfterAll([], ops)| <= MAX_INT
    modifies db
    ensures t.Valid() && t.Leaves() == LeavesAfterAll([], ops)
    ensures !t.dirty ==> Holds(db.data, LeavesAfterAll([], ops), encoder)
    ensures !t.dirty && (forall i | 0 <= i < |t.Leaves()| && encoder(t.Leaves()[i]).Some? ::
                           decoder(encoder(t.Leaves()[i]).value) == Some(t.Leaves()[i])) ==>
              u.Ok? && u.value.nodes == t.nodes
  {
    t := new LeanIMT(hash, zero, db, encoder, decoder, []);
    RunTree(t, ops);
    ghost var leaves := t.Leaves();
    if !t.dirty && forall i | 0 <= i < |leaves| && encoder(leaves[i]).Some? ::
                     decoder(encoder(leaves[i]).value) == Some(leaves[i])
    {
      HeldLeavesReload(db.data, leaves, encoder, decoder);
    }
    u := LeanIMT.New(hash, zero, db, encoder, decoder, leaves);
    if u.Ok? { TreeIsLevels(hash, u.value.nodes); }
  }
}
