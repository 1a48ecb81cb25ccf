/**
 The durable record store, abstracted to a finite map from keys to
 proposals. Only the three operations the registry uses are modelled:
 lookup, length and insert-or-overwrite.
 */
module Store {
  import opened Types

  type Store = map<Key, Proposal>

  /** Lookup of one key: a copy of the stored record, or nothing. */
  function Get(m: Store, k: Key): (r: Option<Proposal>)
    ensures r.Some? <==> k in m
    ensures r.Some? ==> r.value == m[k]
  {
    if k in m then Some(m[k]) else None
  }

  /** Number of stored records. */
  function Len(m: Store): (n: nat)
    ensures n == |m.Keys|
  {
    |m|
  }

  /** Insert or overwrite `k`, returning the value it held before (if any)
      together with the new map. */
  function Insert(m: Store, k: Key, v: Proposal): (r: (Option<Proposal>, Store))
    ensures r.0.Some? <==> k in m
    ensures r.0.Some? ==> r.0.value == m[k]
    ensures r.1.Keys == m.Keys + {k}
    ensures r.1[k] == v
    ensures forall j :: j in m && j != k ==> r.1[j] == m[j]
    ensures |r.1| == if k in m then |m| else |m| + 1
  {
    InsertSize(m, k, v);
    assert m[k := v].Keys == m.Keys + {k};
    (Get(m, k), m[k := v])
  }

  /** Overwriting keeps the size, inserting a fresh key adds one. */
  lemma InsertSize(m: Store, k: Key, v: Proposal)
    ensures |m[k := v]| == if k in m then |m| else |m| + 1
  {
    if k !in m {
      assert m[k := v].Keys == m.Keys + {k};
    }
  }

  /** Two maps over the same keys have the same size. */
  lemma SameKeysSameLen(m: Store, m': Store)
    requires m.Keys == m'.Keys
    ensures Len(m) == Len(m')
  {
    assert |m| == |m.Keys| && |m'| == |m'.Keys|;
  }
}
