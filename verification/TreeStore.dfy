/** The stored form of a tree: its leaves, one key each, and their number. */
module TreeStore {
  import opened Wrappers
  import opened Numerals
  import opened Storage

  function LeafAt(i: nat): Key {
    LeafKey(Decimal(i))
  }

  /** The store holds exactly the leaves xs (none may also mean that no size was ever stored). */
  ghost predicate Holds<N>(data: Data, xs: seq<N>, encoder: N -> Option<seq<byte>>) {
    && |xs| <= MAX_INT
    && (Get(data, MetaSize) == Some(Decimal(|xs|)) || (xs == [] && Get(data, MetaSize) == None))
    && (forall i | 0 <= i < |xs| :: encoder(xs[i]).Some? && Get(data, LeafAt(i)) == encoder(xs[i]))
    && (forall k | k in data && k.LeafKey? :: exists i | 0 <= i < |xs| :: k == LeafAt(i))
  }

  /** Two stores that differ at most in what a tree writes. */
  ghost predicate SameOutsideTree(data: Data, data': Data) {
    forall k: Key :: !k.LeafKey? && k != MetaSize && k != MetaVersion ==> Get(data, k) == Get(data', k)
  }

  /** The leaves that loading reads: the first count of them, or the error it stops at. */
  function ReadLeaves<N>(data: Data, decoder: seq<byte> -> Option<N>, count: nat): (r: Result<seq<N>>)
    ensures r.Ok? ==> |r.value| == count
  {
    if count == 0 then Ok([])
    else
      var r := ReadLeaves(data, decoder, count - 1);
      if r.Err? then r
      else if LeafAt(count - 1) !in data then Err(KeyNotFound)
      else
        var leaf := decoder(data[LeafAt(count - 1)]);
        if leaf.None? then Err(NotDecodable) else Ok(r.value + [leaf.value])
  }

  /** Reading more leaves than an erroneous prefix gives the same error. */
  lemma {:induction false} ReadLeavesFails<N>(data: Data, decoder: seq<byte> -> Option<N>, m: nat, n: nat)
    requires m <= n && ReadLeaves(data, decoder, m).Err?
    ensures ReadLeaves(data, decoder, n) == ReadLeaves(data, decoder, m)
    decreases n
  {
    if m == n {
    } else {
      ReadLeavesFails(data, decoder, m, n - 1);
    }
  }

  /** Leaf i is stored, and can be decoded. */
  predicate Readable<N>(data: Data, decoder: seq<byte> -> Option<N>, i: nat) {
    LeafAt(i) in data && decoder(data[LeafAt(i)]).Some?
  }

  /** Reading succeeds exactly when every leaf below count is stored and can be decoded, and gives these
      leaves in order. */
  lemma {:induction false} ReadLeavesMeaning<N>(data: Data, decoder: seq<byte> -> Option<N>, count: nat)
    ensures var r := ReadLeaves(data, decoder, count);
            && (r.Ok? <==> forall i | 0 <= i < count :: Readable(data, decoder, i))
            && (r.Ok? ==> forall i | 0 <= i < count ::
                            LeafAt(i) in data && decoder(data[LeafAt(i)]) == Some(r.value[i]))
    decreases count
  {
    if count == 0 {
    } else {
      ReadLeavesMeaning(data, decoder, count - 1);
      assert Readable(data, decoder, count - 1) <==>
             LeafAt(count - 1) in data && decoder(data[LeafAt(count - 1)]).Some?;
    }
  }

  /** Otherwise it stops at the first leaf that is missing or cannot be decoded, and says which. */
  lemma ReadLeavesError<N>(data: Data, decoder: seq<byte> -> Option<N>, count: nat, bad: nat)
    requires bad < count && !Readable(data, decoder, bad) && forall i | 0 <= i < bad :: Readable(data, decoder, i)
    ensures ReadLeaves(data, decoder, count) == Err(if LeafAt(bad) in data then NotDecodable else KeyNotFound)
  {
    ReadLeavesMeaning(data, decoder, bad);
    ReadLeavesFails(data, decoder, bad + 1, count);
  }

  /** The size read from the store, zero when there is none. */
  function StoredSize(data: Data): int {
    if MetaSize in data then DecodedInt(data[MetaSize]) else 0
  }

  function StoredLeaves<N>(data: Data, decoder: seq<byte> -> Option<N>): Result<seq<N>> {
    var size := StoredSize(data);
    if size < 0 then Err(Panicked) else ReadLeaves(data, decoder, size)
  }

  /** A stored size of zero means no leaves, and a negative one, which overflow can give, a panic. */
  lemma StoredLeavesBySize<N>(data: Data, decoder: seq<byte> -> Option<N>)
    ensures MetaSize !in data || StoredSize(data) == 0 ==> StoredLeaves(data, decoder) == Ok([])
    ensures StoredSize(data) < 0 ==> StoredLeaves(data, decoder) == Err(Panicked)
  {
  }

  lemma SizeOfHeld<N>(data: Data, xs: seq<N>, encoder: N -> Option<seq<byte>>)
    requires Holds(data, xs, encoder)
    ensures StoredSize(data) == |xs|
  {
    DecodeDecimal(|xs|);
  }

  /** Loading reads back the leaves that are held, when decoding undoes encoding on each. */
  lemma HeldLeavesReload<N>(data: Data, xs: seq<N>, encoder: N -> Option<seq<byte>>, decoder: seq<byte> -> Option<N>)
    requires Holds(data, xs, encoder)
    requires forall i | 0 <= i < |xs| :: decoder(encoder(xs[i]).value) == Some(xs[i])
    ensures StoredLeaves(data, decoder) == Ok(xs)
  {
    SizeOfHeld(data, xs, encoder);
    HeldPrefixReloads(data, xs, encoder, decoder, |xs|);
    assert xs[..|xs|] == xs;
  }

  lemma {:induction false} HeldPrefixReloads<N>(data: Data, xs: seq<N>, encoder: N -> Option<seq<byte>>,
                                                decoder: seq<byte> -> Option<N>, count: nat)
    requires Holds(data, xs, encoder) && count <= |xs|
    requires forall i | 0 <= i < |xs| :: decoder(encoder(xs[i]).value) == Some(xs[i])
    ensures ReadLeaves(data, decoder, count) == Ok(xs[..count])
  {
    if count == 0 {
    } else {
      HeldPrefixReloads(data, xs, encoder, decoder, count - 1);
      assert Get(data, LeafAt(count - 1)) == encoder(xs[count - 1]);
      assert xs[..count] == xs[..count - 1] + [xs[count - 1]];
    }
  }

  // ---------------------------------------------------------------- the transaction of Sync

  /** The transaction writes each leaf below count and deletes every later leaf key. */
  ghost predicate Planned<N>(tx: Batch, xs: seq<N>, encoder: N -> Option<seq<byte>>, count: nat) {
    && (forall i | 0 <= i < count :: LeafAt(i) in tx && tx[LeafAt(i)] == if i < |xs| then encoder(xs[i]) else None)
    && (forall k | k in tx :: exists i | 0 <= i < count :: k == LeafAt(i))
  }

  lemma PlanStep<N>(tx: Batch, xs: seq<N>, encoder: N -> Option<seq<byte>>, count: nat)
    requires Planned(tx, xs, encoder, count) && count < MAX_INT
    ensures Planned(tx[LeafAt(count) := if count < |xs| then encoder(xs[count]) else None], xs, encoder, count + 1)
  {
    var tx' := tx[LeafAt(count) := if count < |xs| then encoder(xs[count]) else None];
    forall i | 0 <= i < count + 1
      ensures LeafAt(i) in tx' && tx'[LeafAt(i)] == if i < |xs| then encoder(xs[i]) else None
    {
      if LeafAt(i) == LeafAt(count) { DecimalInjective(i, count); }
    }
    forall k | k in tx' ensures exists i | 0 <= i < count + 1 :: k == LeafAt(i) {
      if k == LeafAt(count) { } else { assert k in tx; }
    }
  }

  /** Committing a transaction planned past both sizes leaves exactly the new leaves. */
  lemma PlannedCommitHolds<N>(data: Data, was: seq<N>, tx: Batch, xs: seq<N>, encoder: N -> Option<seq<byte>>,
                              count: nat)
    requires Holds(data, was, encoder) && Planned(tx, xs, encoder, count)
    requires |was| <= count && |xs| <= count && |xs| <= MAX_INT
    requires forall i | 0 <= i < |xs| :: encoder(xs[i]).Some?
    ensures Holds(Committed(data, tx[MetaSize := Some(Decimal(|xs|))][MetaVersion := Some([49])]), xs, encoder)
  {
  }

  /** What writing the leaves xs does to a store, whatever it holds: the leaves, their number and the
      version are set, leaves of the old size beyond them deleted, and nothing else changes. */
  ghost predicate TreeWritten<N>(data: Data, after: Data, xs: seq<N>, encoder: N -> Option<seq<byte>>) {
    && (forall i | 0 <= i < |xs| :: encoder(xs[i]).Some? && Get(after, LeafAt(i)) == encoder(xs[i]))
    && Get(after, MetaSize) == Some(Decimal(|xs|)) && Get(after, MetaVersion) == Some([49])
    && (forall i: nat | |xs| <= i < StoredSize(data) :: Get(after, LeafAt(i)) == None)
    && (forall k | k != MetaSize && k != MetaVersion && !LeafOfSizes(k, |xs|, StoredSize(data)) ::
          Get(after, k) == Get(data, k))
  }

  ghost predicate LeafOfSizes(k: Key, size: nat, previous: int) {
    exists i: nat :: (i < size || i < previous) && k == LeafAt(i)
  }

  lemma PlannedCommitWrites<N>(data: Data, tx: Batch, xs: seq<N>, encoder: N -> Option<seq<byte>>, count: nat)
    requires Planned(tx, xs, encoder, count) && forall i | 0 <= i < |xs| :: encoder(xs[i]).Some?
    requires |xs| <= count && StoredSize(data) <= count && (count == |xs| || count == StoredSize(data))
    ensures var tx' := tx[MetaSize := Some(Decimal(|xs|))][MetaVersion := Some([49])];
            TreeWritten(data, Committed(data, tx'), xs, encoder)
  {
    var tx' := tx[MetaSize := Some(Decimal(|xs|))][MetaVersion := Some([49])];
    forall k | k != MetaSize && k != MetaVersion && !LeafOfSizes(k, |xs|, StoredSize(data))
      ensures Get(Committed(data, tx'), k) == Get(data, k)
    {
      assert k !in tx';
    }
  }
}
