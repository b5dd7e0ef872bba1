/** The key-value database: a finite map whose transactions commit atomically. */
module Storage {
  import opened Wrappers
  import opened Numerals

  /** The keys in use: a fixed prefix each, and the text that follows it. */
  datatype Key =
    | MetaSize
    | MetaVersion
    | MetaCensusSize
    | LeafKey(index: seq<byte>)
    | AddressKey(hex: seq<byte>)
    | ReverseKey(index: seq<byte>)
    | WeightKey(hex: seq<byte>)

  type Data = map<Key, seq<byte>>

  /** The writes of a transaction: a value to set, or None to delete. */
  type Batch = map<Key, Option<seq<byte>>>

  function Get(data: Data, key: Key): Option<seq<byte>> {
    if key in data then Some(data[key]) else None
  }

  function Committed(data: Data, tx: Batch): (r: Data)
    ensures forall k :: Get(r, k) == if k in tx then tx[k] else Get(data, k)
  {
    map k | k in data.Keys + tx.Keys && (k in tx ==> tx[k].Some?) ::
      if k in tx then tx[k].value else data[k]
  }

  class Store {
    var data: Data

    constructor ()
      ensures data == map[]
    {
      data := map[];
    }

    method Commit(tx: Batch)
      modifies this
      ensures data == Committed(old(data), tx)
    {
      data := Committed(data, tx);
    }
  }
}
