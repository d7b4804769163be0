/** The two leaf operation variants (`insert_operation`, `delete_operation`)
    and their common base (`leaf_operation_base`): the conflict predicate,
    the apply step on a cloned leaf with its consolidate-or-delta decision,
    and reclamation of a superseded chain. */
module LeafOperations {
  import opened BdTypes
  import opened SortedArray
  import opened Storage

  /** Which variant an operation object is, with the arguments it was built with. */
  datatype OpKind<V> = InsertOp(key: Key, value: V) | DeleteOp(key: Key)

  /** `has_conflicts`: insert conflicts when the key is already present,
      delete when it is absent; both by `std::binary_search`. */
  function HasConflicts<V>(op: OpKind<V>, leaf: Leaf<V>): (c: bool)
    requires SortedByKey(leaf.entries)
    ensures op.InsertOp? ==> (c <==> KeyIn(leaf.entries, op.key))
    ensures op.DeleteOp? ==> (c <==> !KeyIn(leaf.entries, op.key))
  {
    match op
    case InsertOp(key, _) => BinarySearch(leaf.entries, key)
    case DeleteOp(key) => !BinarySearch(leaf.entries, key)
  }

  /** What the apply step demands of the clone it edits: a sorted array and,
      for delete, the key present (the `assert` before `erase`). */
  predicate CanApply<V>(op: OpKind<V>, ln: Leaf<V>) {
    SortedByKey(ln.entries) && (op.DeleteOp? ==> KeyIn(ln.entries, op.key))
  }

  /** A conflict-free operation can always be applied to the observed leaf. */
  lemma NoConflictCanApply<V>(op: OpKind<V>, leaf: Leaf<V>)
    requires SortedByKey(leaf.entries) && !HasConflicts(op, leaf)
    ensures CanApply(op, leaf)
  {
  }

  /** A conflict-free insert never finds its exact pair at the lower bound:
      the "rewrite the same record" branch of the edit is only reachable when
      the apply step is called on a leaf that already holds the key. */
  lemma NoConflictInsertAlwaysInserts<V>(key: Key, value: V, leaf: Leaf<V>)
    requires SortedByKey(leaf.entries) && !HasConflicts(InsertOp(key, value), leaf)
    ensures !ExactAtBound(leaf.entries, key, value)
    ensures var r := InsertEntry(leaf.entries, key, value);
      |r| == |leaf.entries| + 1 && RemoveAt(r, LowerBound(leaf.entries, key)) == leaf.entries
  {
    InsertEntryContents(leaf.entries, key, value);
  }

  /** The array edit at the `lower_bound` position. */
  function EditArray<V(==)>(op: OpKind<V>, a: seq<Entry<V>>): (r: seq<Entry<V>>)
    requires SortedByKey(a) && (op.DeleteOp? ==> KeyIn(a, op.key))
    ensures SortedByKey(r)
  {
    match op
    case InsertOp(key, value) => InsertEntry(a, key, value)
    case DeleteOp(key) => DeleteEntry(a, key)
  }

  /** The consolidation threshold test, made on the observed node's chain. */
  predicate ConsolidateDue(chainLen: nat, cfg: Config) {
    chainLen + 1 >= cfg.consolidateAt
  }

  /** The delta record an operation serialises, chained to `next`. */
  function DeltaFor<V>(op: OpKind<V>, next: PPtr): Payload<V> {
    match op
    case InsertOp(key, value) => InsertDelta((key, value), next)
    case DeleteOp(key) => DeleteDelta(key, next)
  }

  /** The outcome of one apply step: the edited clone, what it serialises,
      and the operation's `consolidated` flag. */
  datatype ApplyResult<V> = ApplyResult(leaf: Leaf<V>, payload: Payload<V>, consolidated: bool)

  /** The apply step (`operator()`) of either variant, on the clone `ln` of
      the leaf observed through `nptr`, with the new physical pointer `pptr`. */
  function ApplySpec<V(==)>(op: OpKind<V>, nptr: NodePointer<V>, ln: Leaf<V>, pptr: PPtr, cfg: Config): (r: ApplyResult<V>)
    requires CanApply(op, ln)
    ensures SortedByKey(r.leaf.entries) && r.leaf.entries == EditArray(op, ln.entries)
    ensures r.leaf.lowKey == ln.lowKey && r.leaf.highKey == ln.highKey
    ensures r.consolidated <==> |nptr.leaf.deltas| + 1 >= cfg.consolidateAt
    ensures r.consolidated ==>
      r.leaf.deltas == [] && r.leaf.leafPptr == pptr && r.payload == LeafImage(r.leaf)
    ensures !r.consolidated ==>
      r.leaf.deltas == [pptr] + ln.deltas && r.leaf.leafPptr == ln.leafPptr &&
      !r.payload.LeafImage? && r.payload.next == nptr.ptr && r.payload == DeltaFor(op, nptr.ptr)
  {
    var edited := EditArray(op, ln.entries);
    if ConsolidateDue(|nptr.leaf.deltas|, cfg) then
      var consolidatedLeaf := ln.(entries := edited, deltas := [], leafPptr := pptr);
      ApplyResult(consolidatedLeaf, LeafImage(consolidatedLeaf), true)
    else
      ApplyResult(ln.(entries := edited, deltas := [pptr] + ln.deltas), DeltaFor(op, nptr.ptr), false)
  }

  /** The consolidate-or-delta rules are the same for insert and delete: only
      the array edit and the delta record differ. */
  lemma ConsolidationIndependentOfVariant<V>(op1: OpKind<V>, op2: OpKind<V>, nptr: NodePointer<V>,
                                            ln: Leaf<V>, pptr: PPtr, cfg: Config)
    requires CanApply(op1, ln) && CanApply(op2, ln)
    ensures var r1, r2 := ApplySpec(op1, nptr, ln, pptr, cfg), ApplySpec(op2, nptr, ln, pptr, cfg);
      r1.consolidated == r2.consolidated && r1.leaf.deltas == r2.leaf.deltas &&
      r1.leaf.leafPptr == r2.leaf.leafPptr &&
      (r1.consolidated ==> r1.payload.LeafImage? && r2.payload.LeafImage?)
  {
  }

  /** The chain length after one update of a leaf whose chain had `n` entries. */
  function NextChainLength(n: nat, cfg: Config): nat {
    if n + 1 >= cfg.consolidateAt then 0 else n + 1
  }

  /** Applying to a clone of the observed leaf moves its chain length by `NextChainLength`;
      under the delta branch the new length is one more and stays below the threshold. */
  lemma ApplyChainLength<V>(op: OpKind<V>, nptr: NodePointer<V>, pptr: PPtr, cfg: Config)
    requires CanApply(op, nptr.leaf)
    ensures var r := ApplySpec(op, nptr, nptr.leaf, pptr, cfg);
      |r.leaf.deltas| == NextChainLength(|nptr.leaf.deltas|, cfg) &&
      (!r.consolidated ==> |r.leaf.deltas| == |nptr.leaf.deltas| + 1 < cfg.consolidateAt)
  {
  }

  /** The chain length after `k` updates, starting from a consolidated leaf. */
  function ChainLengthAfter(k: nat, cfg: Config): nat {
    if k == 0 then 0 else NextChainLength(ChainLengthAfter(k - 1, cfg), cfg)
  }

  /** Before the threshold is reached, each update grows the chain by exactly one. */
  lemma {:induction false} ChainGrowsByOne(k: nat, cfg: Config)
    requires k < cfg.consolidateAt
    ensures ChainLengthAfter(k, cfg) == k
  {
    if k > 0 {
      ChainGrowsByOne(k - 1, cfg);
    }
  }

  /** Consolidation happens on every `CONSOLIDATE_AT`-th update: the chain
      lengths repeat with that period and never reach the threshold. */
  lemma {:induction false} ChainLengthPeriodic(k: nat, cfg: Config)
    requires cfg.consolidateAt > 0
    ensures ChainLengthAfter(k + cfg.consolidateAt, cfg) == ChainLengthAfter(k, cfg)
    ensures ChainLengthAfter(k, cfg) < cfg.consolidateAt
  {
    var c := cfg.consolidateAt;
    if k == 0 {
      ChainGrowsByOne(c - 1, cfg);
      assert ChainLengthAfter(c, cfg) == NextChainLength(c - 1, cfg);
    } else {
      ChainLengthPeriodic(k - 1, cfg);
      assert ChainLengthAfter(k - 1 + c + 1, cfg) == NextChainLength(ChainLengthAfter(k - 1 + c, cfg), cfg);
    }
  }

  /** The leaf invariant: strictly increasing keys, and a chain shorter
      than the consolidation threshold. */
  predicate WellFormed<V>(leaf: Leaf<V>, cfg: Config) {
    StrictlySorted(leaf.entries) && |leaf.deltas| < cfg.consolidateAt
  }

  /** A conflict-free update of a well-formed leaf yields a well-formed leaf
      in which the key is present (insert) or absent (delete). */
  lemma ApplyPreservesWellFormed<V>(op: OpKind<V>, nptr: NodePointer<V>, pptr: PPtr, cfg: Config)
    requires WellFormed(nptr.leaf, cfg)
    requires !HasConflicts(op, nptr.leaf)
    ensures CanApply(op, nptr.leaf)
    ensures var r := ApplySpec(op, nptr, nptr.leaf, pptr, cfg);
      WellFormed(r.leaf, cfg) &&
      (op.InsertOp? ==> KeyIn(r.leaf.entries, op.key)) &&
      (op.DeleteOp? ==> !KeyIn(r.leaf.entries, op.key))
  {
    var a := nptr.leaf.entries;
    match op
    case InsertOp(key, value) =>
      InsertEntryStrict(a, key, value);
      DeleteUndoesInsert(a, key, value);
    case DeleteOp(key) =>
  }

  /** An operation object: its variant and the `consolidated` flag that
      the apply step sets and `cleanup` reads. */
  class LeafOperation<V(==)> {
    const op: OpKind<V>
    var consolidated: bool

    constructor (op: OpKind<V>)
      ensures this.op == op && !consolidated
    {
      this.op := op;
      consolidated := false;
    }

    /** `operator()(nptr, ln, pptr)`: edits the clone `ln` and returns it with
        the payload to persist; records whether it consolidated. */
    method Apply(nptr: NodePointer<V>, ln: Leaf<V>, pptr: PPtr, cfg: Config) returns (ln': Leaf<V>, data: Payload<V>)
      requires CanApply(op, ln)
      modifies this
      ensures var r := ApplySpec(op, nptr, ln, pptr, cfg);
        ln' == r.leaf && data == r.payload && consolidated == r.consolidated
    {
      ln' := ln.(entries := EditArray(op, ln.entries));
      if |nptr.leaf.deltas| + 1 >= cfg.consolidateAt {
        ln' := ln'.(deltas := [], leafPptr := pptr);
        consolidated := true;
        data := LeafImage(ln');
      } else {
        consolidated := false;
        data := DeltaFor(op, nptr.ptr);
        ln' := ln'.(deltas := [pptr] + ln'.deltas);
      }
    }

    /** `cleanup(node_table, ptrs)`: after a consolidation, removes every
        listed pointer from the node table; otherwise does nothing. */
    method Cleanup(nodeTable: NodeTable<V>, ptrs: seq<PPtr>)
      requires nodeTable.Valid()
      modifies nodeTable
      ensures nodeTable.Valid() && nodeTable.nextPtr == old(nodeTable.nextPtr)
      ensures nodeTable.nodes == if consolidated then old(nodeTable.nodes) - Elems(ptrs) else old(nodeTable.nodes)
    {
      if !consolidated {
        return;
      }
      for i := 0 to |ptrs|
        invariant nodeTable.Valid() && nodeTable.nextPtr == old(nodeTable.nextPtr)
        invariant nodeTable.nodes == old(nodeTable.nodes) - Elems(ptrs[..i])
      {
        assert ptrs[..i + 1] == ptrs[..i] + [ptrs[i]];
        assert Elems(ptrs[..i + 1]) == Elems(ptrs[..i]) + {ptrs[i]};
        nodeTable.Remove(ptrs[i]);
      }
      assert ptrs[..|ptrs|] == ptrs;
    }
  }
}
