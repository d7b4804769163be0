/** `exec_leaf_operation`: the size gate, then repeated attempts, each of
    which checks for a conflict, builds and persists a speculative payload,
    tries the compare-and-swap, and dispatches on its outcome. */
module LeafEngine {
  import opened BdTypes
  import opened SortedArray
  import opened Storage
  import opened LeafOperations

  /** What the size check decides: rebalance first, or go ahead. */
  datatype Gate = Split | Merge | Proceed

  /** A sentinel leaf: null low key and no high key; it is never merged. */
  predicate IsBoundary<V>(leaf: Leaf<V>, cfg: Config) {
    leaf.lowKey == cfg.nullKey && leaf.highKey.None?
  }

  /** The size check on the resolved leaf, whose serialised size is `nsize`. */
  function SizeGate<V>(nsize: nat, leaf: Leaf<V>, cfg: Config): (g: Gate)
    ensures g == Split <==> nsize >= cfg.maxNodeSize
    ensures g == Merge ==> nsize < cfg.minNodeSize && !IsBoundary(leaf, cfg)
    ensures IsBoundary(leaf, cfg) ==> g != Merge
    ensures g == Proceed ==> nsize < cfg.maxNodeSize && (cfg.minNodeSize <= nsize || IsBoundary(leaf, cfg))
  {
    if nsize >= cfg.maxNodeSize then Split
    else if nsize < cfg.minNodeSize && !IsBoundary(leaf, cfg) then Merge
    else Proceed
  }

  /** The pointers reclaimed after a consolidating update: the observed
      chain followed by the observed base pointer. */
  function CleanupList<V>(leaf: Leaf<V>): seq<PPtr> {
    leaf.deltas + [leaf.leafPptr]
  }

  /** The observed leaf only names pointers the node table has handed out. */
  predicate Allocated<V>(leaf: Leaf<V>, bound: PPtr) {
    forall p :: p in CleanupList(leaf) ==> p < bound
  }

  /** The compare-and-swap against `entries` fails with an error the loop retries on. */
  predicate Retryable<V>(nptr: NodePointer<V>, entries: map<LPtr, (PPtr, nat)>, fault: Option<nat>) {
    fault.None? && (nptr.lptr !in entries || entries[nptr.lptr].1 != nptr.version)
  }

  /** The compare-and-swap against `entries` succeeds. */
  predicate Succeeds<V>(nptr: NodePointer<V>, entries: map<LPtr, (PPtr, nat)>, fault: Option<nat>) {
    fault.None? && nptr.lptr in entries && entries[nptr.lptr].1 == nptr.version
  }

  /** The node table after a committed update: the new payload stored, and
      after a consolidation the superseded chain and base removed. */
  function CommittedNodes<V>(nodes: map<PPtr, Payload<V>>, pptr: PPtr, r: ApplyResult<V>, observed: Leaf<V>): map<PPtr, Payload<V>> {
    nodes[pptr := r.payload] - (if r.consolidated then Elems(CleanupList(observed)) else {})
  }

  /** A pointer allocated after the observed leaf was built is never in its
      cleanup list, so reclaiming the superseded chain and base after a
      consolidation removes exactly those pointers and keeps the new payload. */
  lemma CommitKeepsNewPayload<V>(nodes: map<PPtr, Payload<V>>, pptr: PPtr, r: ApplyResult<V>, observed: Leaf<V>)
    requires Allocated(observed, pptr)
    ensures pptr !in Elems(CleanupList(observed))
    ensures var m := CommittedNodes(nodes, pptr, r, observed);
      pptr in m && m[pptr] == r.payload &&
      (forall p :: p in m <==> (p == pptr || p in nodes) && (r.consolidated ==> p !in Elems(CleanupList(observed))))
  {
  }

  /** The node and pointer tables after a committed pass against `np` with
      the new physical pointer `pptr`. */
  ghost predicate CommitEffect<V>(op: OpKind<V>, np: NodePointer<V>, pptr: PPtr, cfg: Config,
                                  nodes0: map<PPtr, Payload<V>>, nodes1: map<PPtr, Payload<V>>,
                                  entries0: map<LPtr, (PPtr, nat)>, entries1: map<LPtr, (PPtr, nat)>)
    requires CanApply(op, np.leaf)
  {
    var r := ApplySpec(op, np, np.leaf, pptr, cfg);
    entries1 == entries0[np.lptr := (pptr, np.version + 1)] &&
    nodes1 == CommittedNodes(nodes0, pptr, r, np.leaf) &&
    pptr in nodes1 && nodes1[pptr] == r.payload
  }

  /** The node pointer a committed pass offers to the cache. */
  function PublishedPointer<V(==)>(op: OpKind<V>, np: NodePointer<V>, pptr: PPtr, cfg: Config): NodePointer<V>
    requires CanApply(op, np.leaf)
  {
    NodePointer(np.lptr, pptr, np.version + 1, ApplySpec(op, np, np.leaf, pptr, cfg).leaf)
  }

  /** The first `n` resolutions were conflict-free and their compare-and-swap
      failed with a retryable error. */
  ghost predicate AllRetried<V>(op: OpKind<V>, resolved: seq<NodePointer<V>>, entries: map<LPtr, (PPtr, nat)>,
                                faults: seq<Option<nat>>, n: nat)
    requires n <= |resolved| && |faults| == |resolved|
  {
    forall j :: 0 <= j < n ==>
      SortedByKey(resolved[j].leaf.entries) && !HasConflicts(op, resolved[j].leaf) &&
      Retryable(resolved[j], entries, faults[j])
  }

  /** The cache only lost entries. */
  ghost predicate CacheShrunk<V>(cache0: map<LPtr, NodePointer<V>>, cache1: map<LPtr, NodePointer<V>>) {
    forall l :: l in cache1 ==> l in cache0 && cache1[l] == cache0[l]
  }

  /** The outcome of one pass through the body of the retry loop. */
  datatype Step =
    | Conflict
    | Committed(pptr: PPtr, version: nat, cached: bool)
    | Retry(pptr: PPtr, invalidated: bool)
    | Fatal(pptr: PPtr, error: CasError)

  /** Allocate a physical pointer, apply the operation to a clone of the
      observed leaf, and persist the result under the new pointer. */
  method Speculate<V(==)>(op: LeafOperation<V>, nptr: NodePointer<V>, nodes: NodeTable<V>, cfg: Config)
    returns (pptr: PPtr, ln: Leaf<V>)
    requires nodes.Valid() && CanApply(op.op, nptr.leaf)
    modifies op, nodes
    ensures nodes.Valid()
    ensures pptr == old(nodes.nextPtr) && nodes.nextPtr == pptr + 1
    ensures var r := ApplySpec(op.op, nptr, nptr.leaf, pptr, cfg);
      ln == r.leaf && op.consolidated == r.consolidated && nodes.nodes == old(nodes.nodes)[pptr := r.payload]
  {
    pptr := nodes.GetNextPtr();
    var data;
    ln, data := op.Apply(nptr, nptr.leaf, pptr, cfg);
    nodes.Insert(pptr, data);
  }

  /** The success branch: offer the new node pointer to the cache, then
      reclaim the observed chain and base if the operation consolidated. */
  method Publish<V(==)>(op: LeafOperation<V>, nptr: NodePointer<V>, ln: Leaf<V>, pptr: PPtr, newVersion: nat,
                        nodes: NodeTable<V>, cache: Cache<V>, accept: bool) returns (cached: bool)
    requires nodes.Valid() && pptr in nodes.nodes && Allocated(nptr.leaf, pptr)
    modifies nodes, cache
    ensures nodes.Valid() && nodes.nextPtr == old(nodes.nextPtr)
    ensures nodes.nodes == old(nodes.nodes) - (if op.consolidated then Elems(CleanupList(nptr.leaf)) else {})
    ensures pptr in nodes.nodes && nodes.nodes[pptr] == old(nodes.nodes)[pptr]
    ensures cached == accept
    ensures cache.entries == if accept then old(cache.entries)[nptr.lptr := NodePointer(nptr.lptr, pptr, newVersion, ln)]
                             else old(cache.entries)
  {
    var nnp := NodePointer(nptr.lptr, pptr, newVersion, ln);
    cached := cache.AddEntry(nnp, accept);
    var list := CleanupList(nptr.leaf);
    assert pptr !in Elems(list);
    op.Cleanup(nodes, list);
  }

  /** One pass through the loop body, against the node pointer `nptr`.
      `fault` is the pointer table's own failure, if any; `accept` is whether
      the cache takes the new node pointer. */
  method Attempt<V(==)>(op: LeafOperation<V>, nptr: NodePointer<V>, nodes: NodeTable<V>, ptrs: PtrTable,
                        cache: Cache<V>, cfg: Config, fault: Option<nat>, accept: bool) returns (s: Step)
    requires nodes.Valid() && SortedByKey(nptr.leaf.entries) && Allocated(nptr.leaf, nodes.nextPtr)
    modifies op, nodes, ptrs, cache
    ensures nodes.Valid()
    ensures s.Conflict? <==> HasConflicts(op.op, nptr.leaf)
    ensures s.Conflict? ==>
      nodes.nodes == old(nodes.nodes) && nodes.nextPtr == old(nodes.nextPtr) &&
      ptrs.entries == old(ptrs.entries) && cache.entries == old(cache.entries) &&
      op.consolidated == old(op.consolidated)
    ensures !s.Conflict? ==>
      CanApply(op.op, nptr.leaf) && s.pptr == old(nodes.nextPtr) && nodes.nextPtr == s.pptr + 1 &&
      op.consolidated == ApplySpec(op.op, nptr, nptr.leaf, s.pptr, cfg).consolidated
    ensures s.Committed? <==> !s.Conflict? && Succeeds(nptr, old(ptrs.entries), fault)
    ensures s.Retry? <==> !s.Conflict? && Retryable(nptr, old(ptrs.entries), fault)
    ensures s.Fatal? <==> !s.Conflict? && fault.Some?
    ensures s.Committed? ==>
      s.version == nptr.version + 1 && s.cached == accept &&
      CommitEffect(op.op, nptr, s.pptr, cfg, old(nodes.nodes), nodes.nodes, old(ptrs.entries), ptrs.entries) &&
      cache.entries == if accept then old(cache.entries)[nptr.lptr := PublishedPointer(op.op, nptr, s.pptr, cfg)]
                       else old(cache.entries)
    ensures s.Retry? ==>
      s.invalidated == (nptr.lptr !in old(ptrs.entries)) &&
      nodes.nodes == old(nodes.nodes) && ptrs.entries == old(ptrs.entries) &&
      cache.entries == if s.invalidated then old(cache.entries) - {nptr.lptr} else old(cache.entries)
    ensures s.Fatal? ==>
      s.error == OtherError(fault.value) &&
      nodes.nodes == old(nodes.nodes)[s.pptr := ApplySpec(op.op, nptr, nptr.leaf, s.pptr, cfg).payload] &&
      ptrs.entries == old(ptrs.entries) && cache.entries == old(cache.entries)
  {
    var leafp := nptr.leaf;
    if HasConflicts(op.op, leafp) {
      return Conflict;
    }
    var pptr, ln' := Speculate(op, nptr, nodes, cfg);
    ghost var r := ApplySpec(op.op, nptr, nptr.leaf, pptr, cfg);
    var newVersion, ec := ptrs.Update(nptr.lptr, pptr, nptr.version, fault);
    if ec.None? {
      var cached := Publish(op, nptr, ln', pptr, newVersion, nodes, cache, accept);
      assert nodes.nodes == CommittedNodes(old(nodes.nodes), pptr, r, nptr.leaf);
      assert CommitEffect(op.op, nptr, pptr, cfg, old(nodes.nodes), nodes.nodes, old(ptrs.entries), ptrs.entries);
      assert ln' == PublishedPointer(op.op, nptr, pptr, cfg).leaf;
      return Committed(pptr, newVersion, cached);
    } else if ec.value == ObjectDoesntExist {
      cache.Invalidate(nptr.lptr);
    } else if ec.value != WrongVersion {
      return Fatal(pptr, ec.value);
    }
    nodes.Remove(pptr);
    assert nodes.nodes == old(nodes.nodes);
    return Retry(pptr, ec.value == ObjectDoesntExist);
  }

  /** The result of a whole call. `Restart` hands the leaf to the split or
      merge collaborator, after which the call is made again; `NotApplied`
      is the conflict return (`false`); `Applied` is `true`; `Failed` is the
      thrown `system_error`; `Unresolved` means the supplied resolutions ran
      out while the loop was still retrying. */
  datatype ExecResult =
    | Restart(gate: Gate)
    | NotApplied(attempt: nat)
    | Applied(attempt: nat, pptr: PPtr)
    | Failed(attempt: nat, pptr: PPtr, error: CasError)
    | Unresolved

  /** The number of passes through the loop body that ran to completion before the result. */
  function Retries(r: ExecResult, n: nat): nat {
    match r
    case Restart(_) => 0
    case NotApplied(i) => i
    case Applied(i, _) => i
    case Failed(i, _, _) => i
    case Unresolved => n
  }

  /** Every resolution the loop may reach is a sorted leaf naming allocated pointers. */
  predicate ResolutionsReady<V>(resolved: seq<NodePointer<V>>, bound: PPtr) {
    forall i :: 0 <= i < |resolved| ==>
      SortedByKey(resolved[i].leaf.entries) && Allocated(resolved[i].leaf, bound)
  }

  /** `exec_leaf_operation`, given the leaf resolution sequence: `resolved[0]`
      is what `lower_node_bound` returned, of serialised size `nsize`, and
      `resolved[i + 1]` is what `lower_bound_node_with_context` returns after
      the i-th failed compare-and-swap. `faults[i]` and `accepts[i]` are the
      pointer table's failure and the cache's answer on pass i. The
      operation object `op` is taken by value: the caller's object is not changed. */
  method Exec<V(==)>(op: LeafOperation<V>, nsize: nat, resolved: seq<NodePointer<V>>,
                     faults: seq<Option<nat>>, accepts: seq<bool>,
                     nodes: NodeTable<V>, ptrs: PtrTable, cache: Cache<V>, cfg: Config) returns (r: ExecResult)
    requires |resolved| > 0 && |faults| == |resolved| && |accepts| == |resolved|
    requires nodes.Valid() && ResolutionsReady(resolved, nodes.nextPtr)
    modifies nodes, ptrs, cache
    ensures nodes.Valid()
    ensures r.Restart? <==> SizeGate(nsize, resolved[0].leaf, cfg) != Proceed
    ensures r.Restart? ==>
      r.gate == SizeGate(nsize, resolved[0].leaf, cfg) &&
      nodes.nodes == old(nodes.nodes) && nodes.nextPtr == old(nodes.nextPtr) &&
      ptrs.entries == old(ptrs.entries) && cache.entries == old(cache.entries)
    ensures Retries(r, |resolved|) <= |resolved|
    ensures AllRetried(op.op, resolved, old(ptrs.entries), faults, Retries(r, |resolved|))
    ensures !r.Applied? ==> ptrs.entries == old(ptrs.entries) && CacheShrunk(old(cache.entries), cache.entries)
    ensures r.Applied? && r.attempt < |resolved| ==>
      CacheShrunk(old(cache.entries), cache.entries - {resolved[r.attempt].lptr}) &&
      (!accepts[r.attempt] ==> CacheShrunk(old(cache.entries), cache.entries))
    ensures r.NotApplied? && r.attempt == 0 ==>
      cache.entries == old(cache.entries) && nodes.nextPtr == old(nodes.nextPtr)
    ensures r.NotApplied? || r.Unresolved? ==> nodes.nodes == old(nodes.nodes)
    ensures r.NotApplied? ==> r.attempt < |resolved| && HasConflicts(op.op, resolved[r.attempt].leaf)
    ensures r.Applied? ==>
      r.attempt < |resolved| && !HasConflicts(op.op, resolved[r.attempt].leaf) &&
      Succeeds(resolved[r.attempt], old(ptrs.entries), faults[r.attempt]) &&
      r.pptr !in old(nodes.nodes) &&
      CommitEffect(op.op, resolved[r.attempt], r.pptr, cfg, old(nodes.nodes), nodes.nodes, old(ptrs.entries), ptrs.entries) &&
      (accepts[r.attempt] ==>
         resolved[r.attempt].lptr in cache.entries &&
         cache.entries[resolved[r.attempt].lptr] == PublishedPointer(op.op, resolved[r.attempt], r.pptr, cfg))
    ensures r.Failed? ==>
      r.attempt < |resolved| && !HasConflicts(op.op, resolved[r.attempt].leaf) &&
      r.error.OtherError? && faults[r.attempt] == Some(r.error.code) &&
      r.pptr !in old(nodes.nodes) &&
      nodes.nodes == old(nodes.nodes)[r.pptr := ApplySpec(op.op, resolved[r.attempt], resolved[r.attempt].leaf, r.pptr, cfg).payload]
  {
    var gate := SizeGate(nsize, resolved[0].leaf, cfg);
    if gate != Proceed {
      return Restart(gate);
    }
    // The operation is passed by value: every pass works on this copy.
    var local := new LeafOperation(op.op);
    var i := 0;
    while i < |resolved|
      invariant 0 <= i <= |resolved|
      invariant nodes.Valid() && old(nodes.nextPtr) <= nodes.nextPtr
      invariant nodes.nodes == old(nodes.nodes) && ptrs.entries == old(ptrs.entries)
      invariant CacheShrunk(old(cache.entries), cache.entries)
      invariant i == 0 ==>
        cache.entries == old(cache.entries) && nodes.nextPtr == old(nodes.nextPtr)
      invariant AllRetried(op.op, resolved, old(ptrs.entries), faults, i)
      invariant local.op == op.op
      decreases |resolved| - i
    {
      var s := Attempt(local, resolved[i], nodes, ptrs, cache, cfg, faults[i], accepts[i]);
      match s
      case Conflict =>
        return NotApplied(i);
      case Committed(pptr, _, _) =>
        return Applied(i, pptr);
      case Fatal(pptr, error) =>
        return Failed(i, pptr, error);
      case Retry(_, _) =>
        i := i + 1;
    }
    return Unresolved;
  }
}
