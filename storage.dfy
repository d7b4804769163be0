/** The engine's collaborators, reduced to the state the engine reads and
    changes: the physical node table, the versioned pointer (indirection)
    table, and the node cache. */
module Storage {
  import opened BdTypes

  function Elems(s: seq<PPtr>): set<PPtr> {
    set p | p in s
  }

  /** Physical storage: payloads keyed by physical pointer. `nextPtr` is the
      allocation cursor behind `get_next_ptr`. */
  class NodeTable<V> {
    var nodes: map<PPtr, Payload<V>>
    var nextPtr: PPtr

    /** Every stored pointer was handed out earlier by `GetNextPtr`. */
    ghost predicate Valid()
      reads this
    {
      forall p :: p in nodes ==> p < nextPtr
    }

    constructor ()
      ensures Valid() && nodes == map[] && nextPtr == 0
    {
      nodes := map[];
      nextPtr := 0;
    }

    /** `get_next_ptr`: a pointer that names no stored payload. */
    method GetNextPtr() returns (p: PPtr)
      requires Valid()
      modifies this
      ensures Valid()
      ensures p == old(nextPtr) && p !in nodes
      ensures nodes == old(nodes) && nextPtr == p + 1
    {
      p := nextPtr;
      nextPtr := nextPtr + 1;
    }

    /** `insert(pptr, data, size)`. */
    method Insert(p: PPtr, data: Payload<V>)
      requires Valid() && p < nextPtr
      modifies this
      ensures Valid()
      ensures nodes == old(nodes)[p := data] && nextPtr == old(nextPtr)
    {
      nodes := nodes[p := data];
    }

    /** `remove(pptr)`. */
    method Remove(p: PPtr)
      requires Valid()
      modifies this
      ensures Valid()
      ensures nodes == old(nodes) - {p} && nextPtr == old(nextPtr)
    {
      nodes := nodes - {p};
    }
  }

  /** The error codes `ptr_table.update` can report. */
  datatype CasError = ObjectDoesntExist | WrongVersion | OtherError(code: nat)

  /** The indirection table: logical pointer to (physical pointer, version). */
  class PtrTable {
    var entries: map<LPtr, (PPtr, nat)>

    constructor ()
      ensures entries == map[]
    {
      entries := map[];
    }

    /** `update(lptr, pptr, expected_version, ec)`: a compare-and-swap on the
        version. `fault` stands for a failure of the table's own storage,
        reported as an error other than the two the engine retries on. */
    method Update(lptr: LPtr, pptr: PPtr, expected: nat, fault: Option<nat>)
      returns (newVersion: nat, ec: Option<CasError>)
      modifies this
      ensures fault.Some? ==> ec == Some(OtherError(fault.value)) && entries == old(entries)
      ensures fault.None? && lptr !in old(entries) ==>
        ec == Some(ObjectDoesntExist) && entries == old(entries)
      ensures fault.None? && lptr in old(entries) && old(entries)[lptr].1 != expected ==>
        ec == Some(WrongVersion) && entries == old(entries)
      ensures fault.None? && lptr in old(entries) && old(entries)[lptr].1 == expected ==>
        ec == None && newVersion == expected + 1 && entries == old(entries)[lptr := (pptr, newVersion)]
    {
      newVersion := expected;
      if fault.Some? {
        ec := Some(OtherError(fault.value));
      } else if lptr !in entries {
        ec := Some(ObjectDoesntExist);
      } else if entries[lptr].1 != expected {
        ec := Some(WrongVersion);
      } else {
        newVersion := expected + 1;
        entries := entries[lptr := (pptr, newVersion)];
        ec := None;
      }
    }
  }

  /** The node cache: at most one node pointer per logical pointer. */
  class Cache<V> {
    var entries: map<LPtr, NodePointer<V>>

    constructor ()
      ensures entries == map[]
    {
      entries := map[];
    }

    /** `add_entry(nnp, tx_id)`: whether the cache takes the entry is decided
        outside the engine and passed in as `accept`. */
    method AddEntry(np: NodePointer<V>, accept: bool) returns (ok: bool)
      modifies this
      ensures ok == accept
      ensures entries == if accept then old(entries)[np.lptr := np] else old(entries)
    {
      ok := accept;
      if accept {
        entries := entries[np.lptr := np];
      }
    }

    /** `invalidate(lptr)`. */
    method Invalidate(lptr: LPtr)
      modifies this
      ensures entries == old(entries) - {lptr}
    {
      entries := entries - {lptr};
    }
  }
}
