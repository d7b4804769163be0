/** Shared vocabulary of the leaf-update engine: pointers, configuration,
    leaf nodes, node pointers and the payloads that are persisted. */
module BdTypes {

  /** Keys are ordered by `<`, the default `key_compare`. */
  type Key = int

  /** A physical pointer names one immutable payload in the node table. */
  type PPtr = nat

  /** A logical pointer names one slot of the indirection (pointer) table. */
  type LPtr = nat

  datatype Option<T> = None | Some(value: T)

  /** The process-wide constants `CONSOLIDATE_AT`, `MAX_NODE_SIZE`,
      `MIN_NODE_SIZE`, and `null_key<Key>::value()`, passed explicitly. */
  datatype Config = Config(consolidateAt: nat, maxNodeSize: nat, minNodeSize: nat, nullKey: Key)

  /** One key/value pair of a leaf's array. */
  type Entry<V> = (Key, V)

  /** A leaf node: its key/value array, its delta chain (newest first),
      the physical pointer of its base, and the range it owns. */
  datatype Leaf<V> = Leaf(entries: seq<Entry<V>>, deltas: seq<PPtr>, leafPptr: PPtr,
                          lowKey: Key, highKey: Option<Key>)

  /** A node pointer: the logical pointer, the physical pointer and version
      last observed for it, and the materialised leaf. */
  datatype NodePointer<V> = NodePointer(lptr: LPtr, ptr: PPtr, version: nat, leaf: Leaf<V>)

  /** What a leaf operation serialises: a whole consolidated leaf, or one
      delta record chained to the previously observed physical pointer. */
  datatype Payload<V> =
    | LeafImage(leaf: Leaf<V>)
    | InsertDelta(entry: Entry<V>, next: PPtr)
    | DeleteDelta(key: Key, next: PPtr)
}
