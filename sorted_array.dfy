/** The sorted key/value array of a leaf and the three standard-library
    steps the leaf operations apply to it: `lower_bound`, `binary_search`,
    and the positional `insert`/`erase` at the lower-bound position. */
module SortedArray {
  import opened BdTypes

  /** Keys never decrease along the array: the order `lower_bound` needs. */
  predicate SortedByKey<V>(a: seq<Entry<V>>) {
    forall i, j :: 0 <= i < j < |a| ==> a[i].0 <= a[j].0
  }

  /** Keys strictly increase: the leaf invariant (no duplicate keys). */
  predicate StrictlySorted<V>(a: seq<Entry<V>>) {
    forall i, j :: 0 <= i < j < |a| ==> a[i].0 < a[j].0
  }

  predicate KeyIn<V>(a: seq<Entry<V>>, key: Key) {
    exists j :: 0 <= j < |a| && a[j].0 == key
  }

  function RemoveAt<T>(s: seq<T>, i: nat): seq<T>
    requires i < |s|
  {
    s[..i] + s[i + 1..]
  }

  /** Binary search for the first position in [lo, hi) whose key is not below `key`. */
  function Search<V>(a: seq<Entry<V>>, key: Key, lo: nat, hi: nat): (i: nat)
    requires lo <= hi <= |a|
    requires SortedByKey(a)
    ensures lo <= i <= hi
    ensures forall j :: lo <= j < i ==> a[j].0 < key
    ensures forall j :: i <= j < hi ==> key <= a[j].0
    decreases hi - lo
  {
    if lo == hi then lo
    else
      var mid := (lo + hi) / 2;
      if a[mid].0 < key then Search(a, key, mid + 1, hi) else Search(a, key, lo, mid)
  }

  /** `std::lower_bound(array.begin(), array.end(), key, comp)` as an index. */
  function LowerBound<V>(a: seq<Entry<V>>, key: Key): (i: nat)
    requires SortedByKey(a)
    ensures i <= |a|
    ensures forall j :: 0 <= j < i ==> a[j].0 < key
    ensures forall j :: i <= j < |a| ==> key <= a[j].0
  {
    Search(a, key, 0, |a|)
  }

  /** The two partition properties determine the lower bound uniquely. */
  lemma LowerBoundUnique<V>(a: seq<Entry<V>>, key: Key, i: nat)
    requires SortedByKey(a) && i <= |a|
    requires forall j :: 0 <= j < i ==> a[j].0 < key
    requires forall j :: i <= j < |a| ==> key <= a[j].0
    ensures LowerBound(a, key) == i
  {
    var m := LowerBound(a, key);
    assert m < |a| ==> key <= a[m].0;
    assert i < |a| ==> key <= a[i].0;
  }

  /** `std::binary_search`: lower bound, then "key is not less than the entry found". */
  function BinarySearch<V>(a: seq<Entry<V>>, key: Key): (found: bool)
    requires SortedByKey(a)
    ensures found <==> KeyIn(a, key)
  {
    var i := LowerBound(a, key);
    if i < |a| && !(key < a[i].0) then
      assert a[i].0 == key;
      true
    else
      false
  }

  /** The entry at the lower-bound position is exactly `(key, value)`. */
  predicate ExactAtBound<V(==)>(a: seq<Entry<V>>, key: Key, value: V)
    requires SortedByKey(a)
  {
    var i := LowerBound(a, key);
    i < |a| && a[i] == (key, value)
  }

  lemma InsertAtFacts<T>(a: seq<T>, i: nat, e: T)
    requires i <= |a|
    ensures var r := a[..i] + [e] + a[i..];
      |r| == |a| + 1 && r[i] == e && r[..i] == a[..i] && r[i + 1..] == a[i..] &&
      RemoveAt(r, i) == a && multiset(r) == multiset(a) + multiset{e}
  {
    var r := a[..i] + [e] + a[i..];
    assert r[..i] == a[..i];
    assert r[i + 1..] == a[i..];
    assert a == a[..i] + a[i..];
  }

  lemma RemoveAtFacts<T>(a: seq<T>, i: nat)
    requires i < |a|
    ensures var r := RemoveAt(a, i);
      |r| == |a| - 1 && r[..i] == a[..i] && r[i..] == a[i + 1..] &&
      a == r[..i] + [a[i]] + r[i..] && multiset(r) == multiset(a) - multiset{a[i]}
  {
    var r := RemoveAt(a, i);
    assert r[..i] == a[..i];
    assert r[i..] == a[i + 1..];
    assert a == a[..i] + [a[i]] + a[i + 1..];
  }

  /** Putting an entry at its lower-bound position keeps the keys ordered. */
  lemma InsertAtBoundSorted<V>(a: seq<Entry<V>>, e: Entry<V>)
    requires SortedByKey(a)
    ensures var i := LowerBound(a, e.0); SortedByKey(a[..i] + [e] + a[i..])
  {
    var i := LowerBound(a, e.0);
    var r := a[..i] + [e] + a[i..];
    InsertAtFacts(a, i, e);
    forall x, y | 0 <= x < y < |r| ensures r[x].0 <= r[y].0 {
      if y < i {
        assert r[x] == a[x] && r[y] == a[y];
      } else if y == i {
        assert r[x] == a[x];
      } else if x < i {
        assert r[x] == a[x] && r[y] == a[y - 1];
      } else if x > i {
        assert r[x] == a[x - 1] && r[y] == a[y - 1];
      }
    }
  }

  /** ... and strictly ordered when its key was absent. */
  lemma InsertAtBoundStrict<V>(a: seq<Entry<V>>, e: Entry<V>)
    requires StrictlySorted(a) && !KeyIn(a, e.0)
    ensures var i := LowerBound(a, e.0); StrictlySorted(a[..i] + [e] + a[i..])
  {
    var i := LowerBound(a, e.0);
    var r := a[..i] + [e] + a[i..];
    InsertAtFacts(a, i, e);
    forall x, y | 0 <= x < y < |r| ensures r[x].0 < r[y].0 {
      if y < i {
        assert r[x] == a[x] && r[y] == a[y];
      } else if y == i {
        assert r[x] == a[x];
      } else if x < i {
        assert r[x] == a[x] && r[y] == a[y - 1];
      } else if x == i {
        assert r[y] == a[y - 1] && a[y - 1].0 != e.0;
      } else {
        assert r[x] == a[x - 1] && r[y] == a[y - 1];
      }
    }
  }

  /** Erasing one entry keeps the keys ordered; in a strictly sorted array
      the erased key is then absent. */
  lemma RemoveAtSorted<V>(a: seq<Entry<V>>, i: nat)
    requires SortedByKey(a) && i < |a|
    ensures var r := RemoveAt(a, i);
      SortedByKey(r) && (StrictlySorted(a) ==> StrictlySorted(r) && !KeyIn(r, a[i].0))
  {
    var r := RemoveAt(a, i);
    RemoveAtFacts(a, i);
    assert forall j :: 0 <= j < |r| ==> r[j] == if j < i then a[j] else a[j + 1];
    if StrictlySorted(a) {
      forall j | 0 <= j < |r| ensures r[j].0 != a[i].0 {
        if j < i { assert r[j] == a[j]; } else { assert r[j] == a[j + 1]; }
      }
    }
  }

  /** The array edit of `insert_operation::operator()`: unless the entry at
      the lower bound is already exactly `(key, value)`, the pair is inserted
      at the lower-bound position. Its contents are stated by `InsertEntryContents`. */
  function InsertEntry<V(==)>(a: seq<Entry<V>>, key: Key, value: V): (r: seq<Entry<V>>)
    requires SortedByKey(a)
    ensures SortedByKey(r)
  {
    var i := LowerBound(a, key);
    if i == |a| || a[i].1 != value || a[i].0 != key then
      InsertAtBoundSorted(a, (key, value));
      a[..i] + [(key, value)] + a[i..]
    else
      a
  }

  /** Inserting an absent key into a strictly sorted array keeps it strictly
      sorted and makes the key present. */
  lemma InsertEntryStrict<V>(a: seq<Entry<V>>, key: Key, value: V)
    requires StrictlySorted(a) && !KeyIn(a, key)
    ensures var r := InsertEntry(a, key, value); StrictlySorted(r) && KeyIn(r, key)
  {
    var i := LowerBound(a, key);
    InsertAtBoundStrict(a, (key, value));
    InsertAtFacts(a, i, (key, value));
    assert InsertEntry(a, key, value)[i] == (key, value);
  }

  /** If the exact pair sits at the lower bound the array is unchanged;
      otherwise the pair is inserted there, the array grows by one, and
      taking it out again gives back the original array in its order. */
  lemma InsertEntryContents<V>(a: seq<Entry<V>>, key: Key, value: V)
    requires SortedByKey(a)
    ensures var r, i := InsertEntry(a, key, value), LowerBound(a, key);
      (ExactAtBound(a, key, value) ==> r == a) &&
      (!ExactAtBound(a, key, value) ==>
        |r| == |a| + 1 && r[i] == (key, value) && RemoveAt(r, i) == a &&
        multiset(r) == multiset(a) + multiset{(key, value)})
  {
    if !ExactAtBound(a, key, value) {
      InsertAtFacts(a, LowerBound(a, key), (key, value));
    }
  }

  /** The array edit of `delete_operation::operator()`: erase the entry at the
      lower-bound position. Its contents are stated by `DeleteEntryContents`. */
  function DeleteEntry<V(==)>(a: seq<Entry<V>>, key: Key): (r: seq<Entry<V>>)
    requires SortedByKey(a) && KeyIn(a, key)
    ensures SortedByKey(r)
    ensures StrictlySorted(a) ==> StrictlySorted(r) && !KeyIn(r, key)
  {
    var i := LowerBound(a, key);
    assert a[i].0 == key by {
      var k :| 0 <= k < |a| && a[k].0 == key;
      assert i < |a| ==> key <= a[i].0;
    }
    RemoveAtSorted(a, i);
    RemoveAt(a, i)
  }

  /** The entry at the lower bound carries the key (the source asserts this
      before erasing); exactly that entry is removed and every other entry
      keeps its place and order. */
  lemma DeleteEntryContents<V>(a: seq<Entry<V>>, key: Key)
    requires SortedByKey(a) && KeyIn(a, key)
    ensures var r, i := DeleteEntry(a, key), LowerBound(a, key);
      i < |a| && a[i].0 == key && |r| == |a| - 1 &&
      a == r[..i] + [a[i]] + r[i..] &&
      multiset(r) == multiset(a) - multiset{a[i]}
  {
    var i := LowerBound(a, key);
    var k :| 0 <= k < |a| && a[k].0 == key;
    assert i < |a| ==> key <= a[i].0;
    RemoveAtFacts(a, i);
  }

  /** Inserting the same pair a second time changes nothing. */
  lemma InsertIdempotent<V>(a: seq<Entry<V>>, key: Key, value: V)
    requires SortedByKey(a)
    ensures InsertEntry(InsertEntry(a, key, value), key, value) == InsertEntry(a, key, value)
  {
    var r := InsertEntry(a, key, value);
    if !ExactAtBound(a, key, value) {
      var i := LowerBound(a, key);
      InsertAtFacts(a, i, (key, value));
      LowerBoundUnique(r, key, i);
    }
  }

  /** A pair whose key is already present with another value at the lower
      bound is inserted beside it: both entries are then in the array. */
  lemma InsertKeepsOtherValue<V>(a: seq<Entry<V>>, key: Key, value: V, other: V)
    requires SortedByKey(a)
    requires LowerBound(a, key) < |a| && a[LowerBound(a, key)] == (key, other) && other != value
    ensures var r := InsertEntry(a, key, value);
      |r| == |a| + 1 && (key, value) in r && (key, other) in r
  {
    var r := InsertEntry(a, key, value);
    var i := LowerBound(a, key);
    InsertAtFacts(a, i, (key, value));
    assert r[i + 1] == (key, other);
  }

  /** Deleting a key that has just been inserted restores the array. */
  lemma {:induction false} DeleteUndoesInsert<V>(a: seq<Entry<V>>, key: Key, value: V)
    requires StrictlySorted(a) && !KeyIn(a, key)
    ensures var r := InsertEntry(a, key, value); KeyIn(r, key) && DeleteEntry(r, key) == a
  {
    var i := LowerBound(a, key);
    var r := InsertEntry(a, key, value);
    InsertAtFacts(a, i, (key, value));
    assert r[i].0 == key;
    LowerBoundUnique(r, key, i);
  }

  /** In a strictly sorted array the lower bound of a present key is its index. */
  lemma StrictBoundAt<V>(a: seq<Entry<V>>, k: nat)
    requires StrictlySorted(a) && k < |a|
    ensures LowerBound(a, a[k].0) == k
  {
    assert forall j :: 0 <= j < k ==> a[j].0 < a[k].0;
    assert forall j :: k <= j < |a| ==> a[k].0 <= a[j].0;
    LowerBoundUnique(a, a[k].0, k);
  }

  /** Removing the entry at index k of a strictly sorted array leaves k as
      the lower bound of its key. */
  lemma BoundAfterRemove<V>(a: seq<Entry<V>>, k: nat)
    requires StrictlySorted(a) && k < |a|
    ensures SortedByKey(RemoveAt(a, k)) && LowerBound(RemoveAt(a, k), a[k].0) == k
  {
    var d := RemoveAt(a, k);
    RemoveAtFacts(a, k);
    assert forall j :: 0 <= j < k ==> d[j].0 < a[k].0;
    assert forall j :: k <= j < |d| ==> a[k].0 < d[j].0;
    LowerBoundUnique(d, a[k].0, k);
  }

  /** Re-inserting the pair that was just deleted restores the array. */
  lemma {:induction false} InsertUndoesDelete<V>(a: seq<Entry<V>>, key: Key, value: V)
    requires StrictlySorted(a) && (key, value) in a
    ensures KeyIn(a, key) && InsertEntry(DeleteEntry(a, key), key, value) == a
  {
    var k :| 0 <= k < |a| && a[k] == (key, value);
    assert KeyIn(a, key);
    StrictBoundAt(a, k);
    var d := DeleteEntry(a, key);
    assert d == RemoveAt(a, k);
    BoundAfterRemove(a, k);
    assert !ExactAtBound(d, key, value);
    var r := InsertEntry(d, key, value);
    assert r == d[..k] + [(key, value)] + d[k..];
    assert d[..k] == a[..k] && d[k..] == a[k + 1..];
    assert a == a[..k] + [a[k]] + a[k + 1..];
  }
}
