# Leaf updates of the Bw-tree

This project models the leaf-update engine of the bdtree Bw-tree
(`bdtree/leaf_operations.h`).

A leaf node has three parts:
- a key-sorted array of key/value pairs;
- a chain of delta records (newest first) laid over a base image;
- the key range it owns.

An update (`insert_operation` or `delete_operation`) works in five steps:
1. A size gate may hand the leaf to split or merge first.
2. The update checks for a conflict against the observed leaf.
3. It allocates a new physical pointer, edits a clone of the leaf, and persists
   either a delta record chained to the observed physical pointer or, once the
   observed chain plus the new record would reach `CONSOLIDATE_AT`, a whole consolidated leaf image.
4. It tries a versioned compare-and-swap on the pointer-table entry of the
   leaf's logical pointer.
5. On success it offers the new node pointer to the cache and, after a
   consolidation, reclaims the superseded chain and base. On `wrong_version`
   or `object_doesnt_exist` it discards the speculative payload and retries
   against a freshly resolved leaf. On any other error it stops with that error.

The project has five modules:
- `BdTypes` (`bdtree_types.dfy`): keys, pointers, configuration constants,
  leaves, node pointers and persisted payloads.
- `SortedArray` (`sorted_array.dfy`): `lower_bound`, `binary_search` and the
  positional insert/erase on the leaf array, with their contents and round trips.
- `Storage` (`storage.dfy`): the node table, the versioned pointer table
  and the node cache. Each is a class reduced to the state the engine reads and
  changes.
- `LeafOperations` (`leaf_operations.dfy`):
  - the two variants' conflict predicate;
  - the apply step, specified by the function `ApplySpec` and carried out by
    the method `LeafOperation.Apply` on an object with the `consolidated` flag;
  - `cleanup`;
  - the chain-length lemmas;
  - preservation of the leaf invariant.
- `LeafEngine` (`exec_leaf_operation.dfy`): the size gate, one pass of the
  retry loop (`Attempt`) and the whole call (`Exec`).

Three properties of the code shape the model:
- An insert conflicts when its key is already present in the observed leaf.
  `has_conflicts` of `insert_operation` is a `binary_search` for the key
  (lines 57-59). So within `exec_leaf_operation` the apply step never meets
  its key, and the "rewrite the same record" branch (lines 63-67) is never
  taken: a conflict-free insert always adds one entry (`NoConflictInsertAlwaysInserts`).
  `InsertIdempotent` and `InsertKeepsOtherValue` describe that branch for a
  direct call of the apply step.
- On a fatal compare-and-swap error the speculative payload stays in the node
  table. Execution leaves with the error (line 170) before `node_table.remove(pptr)` (line 172).
- The size gate (lines 126-134) runs once, before the loop that starts at line 139. Retries do not re-check the size.

Only `object_doesnt_exist` invalidates the cache entry. `wrong_version` does not.

## Model

| member | source | states |
|---|---|---|
| SortedArray.Search | bdtree/leaf_operations.h:62 | the index found splits `[lo, hi)` into keys below `key` and keys not below it |
| SortedArray.LowerBound | bdtree/leaf_operations.h:62 | `lower_bound` on a sorted array: every earlier key is smaller, every later key is not smaller |
| SortedArray.LowerBoundUnique | bdtree/leaf_operations.h:62 | any index with the two partition properties is the lower bound |
| SortedArray.BinarySearch | bdtree/leaf_operations.h:58 | `binary_search` is true exactly when some entry carries the key |
| SortedArray.InsertEntry | bdtree/leaf_operations.h:62-68 | the insert edit keeps the array sorted |
| SortedArray.InsertEntryStrict | bdtree/leaf_operations.h:62-68 | inserting an absent key into a strictly sorted array keeps it strictly sorted and makes the key present |
| SortedArray.InsertEntryContents | bdtree/leaf_operations.h:62-68 | if the exact pair is at the lower bound the array is unchanged; otherwise the pair is inserted there, the length grows by one, removing it gives back the original, and the multiset gains the pair |
| SortedArray.DeleteEntry | bdtree/leaf_operations.h:101-103 | the erase keeps the array sorted; on a strictly sorted array the key is gone afterwards |
| SortedArray.DeleteEntryContents | bdtree/leaf_operations.h:101-103 | the entry at the lower bound carries the key (the source's assert); exactly that entry is removed, the others keep their order, and the multiset loses it |
| SortedArray.InsertIdempotent | bdtree/leaf_operations.h:62-68 | inserting the same pair twice equals inserting it once |
| SortedArray.InsertKeepsOtherValue | bdtree/leaf_operations.h:64-67 | a pair whose key is present with another value is inserted beside it, so both entries are then present |
| SortedArray.DeleteUndoesInsert | bdtree/leaf_operations.h:62-68 | on a strictly sorted array without the key, deleting after inserting restores the array |
| SortedArray.InsertUndoesDelete | bdtree/leaf_operations.h:101-103 | on a strictly sorted array holding the pair, re-inserting after deleting restores the array |
| Storage.NodeTable.GetNextPtr | bdtree/leaf_operations.h:145 | the pointer returned names no stored payload, and the cursor advances past it |
| Storage.NodeTable.Insert | bdtree/leaf_operations.h:151 | stores the payload under the pointer and changes nothing else |
| Storage.NodeTable.Remove | bdtree/leaf_operations.h:172 | drops the pointer and changes nothing else |
| Storage.PtrTable.Update | bdtree/leaf_operations.h:155 | a compare-and-swap on the version. A fault gives another error, a missing entry gives `object_doesnt_exist`, a version mismatch gives `wrong_version`; each leaves the table unchanged. A match stores the new pointer with the version plus one |
| Storage.Cache.AddEntry | bdtree/leaf_operations.h:157-161 | the entry is stored exactly when the cache accepts it |
| Storage.Cache.Invalidate | bdtree/leaf_operations.h:168 | removes the entry of that logical pointer only |
| LeafOperations.HasConflicts | bdtree/leaf_operations.h:57-59 | insert conflicts exactly when the key is present; delete conflicts exactly when it is absent (lines 96-98) |
| LeafOperations.NoConflictInsertAlwaysInserts | bdtree/leaf_operations.h:57-68 | a conflict-free insert never finds its exact pair at the lower bound, so it always adds one entry that can be removed again to give back the array |
| LeafOperations.NoConflictCanApply | bdtree/leaf_operations.h:141-150 | a conflict-free operation meets what the apply step needs, including the delete's assert that the key is present |
| LeafOperations.EditArray | bdtree/leaf_operations.h:62-68 | the array edit of either variant keeps the array sorted (line 101-103 for delete) |
| LeafOperations.ApplySpec | bdtree/leaf_operations.h:61-84 | covers both variants (delete at lines 100-118). The new array is the variant's edit of the clone's array. It consolidates exactly when the observed chain plus one reaches the threshold. A consolidated leaf has an empty chain, its base at the new pointer, and its image as the payload. Otherwise the new pointer goes at the chain head, the base is kept, and the payload is the variant's delta chained to the observed pointer. The key range is kept |
| LeafOperations.ConsolidationIndependentOfVariant | bdtree/leaf_operations.h:69-83 | insert and delete take the same consolidate-or-delta decision with the same chain and base (lines 104-117) |
| LeafOperations.ApplyChainLength | bdtree/leaf_operations.h:70-81 | one update moves the chain length to zero at the threshold, otherwise to one more, and that stays below the threshold |
| LeafOperations.ChainGrowsByOne | bdtree/leaf_operations.h:71-81 | from a consolidated leaf, before the threshold the chain length after k updates is k |
| LeafOperations.ChainLengthPeriodic | bdtree/leaf_operations.h:71-75 | chain lengths repeat with period `CONSOLIDATE_AT` and always stay below it |
| LeafOperations.ApplyPreservesWellFormed | bdtree/leaf_operations.h:61-118 | a conflict-free update of a strictly sorted leaf with a short chain yields such a leaf, with the key present after insert and absent after delete |
| LeafOperations.LeafOperation.constructor | bdtree/leaf_operations.h:36 | a new operation object starts with `consolidated` false |
| LeafOperations.LeafOperation.Apply | bdtree/leaf_operations.h:61-84 | returns the edited clone and payload of `ApplySpec` and sets `consolidated` to its decision (delete at lines 100-118) |
| LeafOperations.LeafOperation.Cleanup | bdtree/leaf_operations.h:39-44 | after a consolidation removes exactly the listed pointers from the node table; otherwise leaves it unchanged |
| LeafEngine.SizeGate | bdtree/leaf_operations.h:126-134 | split exactly when the size reaches the maximum; merge only below the minimum and never for the boundary leaf (null low key, no high key); otherwise proceed |
| LeafEngine.CommitKeepsNewPayload | bdtree/leaf_operations.h:162-165 | a pointer allocated after the observed leaf is never in its cleanup list (chain plus base), so the committed node table holds the new payload and exactly the old pointers minus the list after a consolidation |
| LeafEngine.Speculate | bdtree/leaf_operations.h:145-151 | allocates a fresh pointer and stores under it the payload `ApplySpec` gives for the observed leaf |
| LeafEngine.Publish | bdtree/leaf_operations.h:157-165 | caches the new node pointer if accepted, then removes the cleanup list after a consolidation while keeping the new payload |
| LeafEngine.Attempt | bdtree/leaf_operations.h:140-172 | one pass. It conflicts exactly when the key test fails, and then changes nothing. It commits exactly when the version matches: pointer table updated with version plus one, new payload stored, old chain reclaimed after consolidation, cache offered the new pointer. It retries exactly on a missing entry or stale version: tables restored, cache entry invalidated only when missing. It fails exactly on a fault, leaving the speculative payload stored |
| LeafEngine.Exec | bdtree/leaf_operations.h:121-177 | restarts exactly when the size gate says split or merge, changing nothing. Every pass before the result met no conflict and a retryable error. `false` means the key test failed on the resolution reached. `true` means that resolution's version matched, with the commit effect. A failure carries the fault's error and leaves the speculative payload. Nothing but a commit changes the pointer table, and the cache only loses entries, except for the committed entry when the cache accepts it. A conflict on the first resolution allocates nothing and leaves the cache untouched. The operation object is taken by value (line 123): the passes work on a copy and the caller's object is not changed |

## Left out

- Serialisation: `serialize()` and `serialized_size()` are not modelled as bytes. A payload is a structured value (`Payload`), and the size the gate reads is the input `nsize`.
- The search, split and merge collaborators (`lower_node_bound`, `lower_bound_node_with_context`, `split_operation`, `merge_operation`) are not part of this model. The gate's decision is returned as `Restart`, and the leaves the searches would resolve are the input sequence `resolved`.
- Exec: the unbounded `for (;;)` is bounded by the number of supplied resolutions. Running out is the explicit outcome `Unresolved`, so the model does not cover a retry sequence longer than its input.
- Exec: the recursive call after a split or merge is returned as `Restart` rather than performed. The call after the restructuring is a new `Exec` on the new resolution.
- Storage.Cache.AddEntry: the cache's admission policy (transaction ids, `logical_table_cache` internals) is not modelled. Whether the entry is accepted is the input `accept`.
- Storage.PtrTable.Update: failures of the table's own storage are not modelled. The input `fault` selects an error other than `wrong_version` and `object_doesnt_exist`.
- `new`/`delete` of the node pointer and the `unique_ptr` clone are not modelled. The clone is a value, so editing it cannot alias the observed leaf.
- Concurrency: other writers are seen only through the pointer table's contents and the resolutions supplied for retries.
- The thrown `std::system_error` is the result `Failed`.
- LeafEngine.Exec: one `Cache` object stands for both the cache given to `add_entry` (line 159) and `context.cache`, which `invalidate` uses (line 168). Anything `lower_node_bound` (line 125) or the re-resolution (line 173) do to the cache is not modelled. So the row's "the cache only loses entries" and "leaves the cache untouched" hold only for the modelled calls.
- `key_compare` and custom comparators: keys are integers ordered by `<`.
- The `null_key` value and the `CONSOLIDATE_AT`, `MAX_NODE_SIZE` and `MIN_NODE_SIZE` constants are fields of `Config` rather than fixed numbers.
- The unreachable tail of `exec_leaf_operation` (`assert(false); return true;`) is not modelled.
