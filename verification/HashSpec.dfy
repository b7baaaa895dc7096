/** A hash table as a value: the map it holds and its counter. */
module HashSpec {
  import opened Types

  datatype Table<V> = Table(entries: map<Int64, V>, count: nat)

  function Empty<V>(): Table<V> { Table(map[], 0) }

  function Put<V>(t: Table<V>, k: Int64, v: V): Table<V> {
    if k in t.entries then t else Table(t.entries[k := v], t.count + 1)
  }

  /** DEC_ONE_ATOMIC adds one, so the counter goes up here as well. */
  function Drop<V>(t: Table<V>, k: Int64): Table<V> {
    if k in t.entries then Table(t.entries - {k}, t.count + 1) else t
  }

  /** What a search finds after an insertion: a key that is present keeps its value, and the counter stays. */
  lemma {:induction false} PutExact<V>(t: Table<V>, k: Int64, v: V, j: Int64)
    ensures j in Put(t, k, v).entries <==> j == k || j in t.entries
    ensures j in Put(t, k, v).entries ==> Put(t, k, v).entries[j] == if j in t.entries then t.entries[j] else v
    ensures Put(t, k, v).count == t.count + if k in t.entries then 0 else 1
  {}

  /** After a deletion: this key is gone and no other, and the counter has gone up if it was there. */
  lemma {:induction false} DropExact<V>(t: Table<V>, k: Int64, j: Int64)
    ensures j in Drop(t, k).entries <==> j != k && j in t.entries
    ensures j in Drop(t, k).entries ==> Drop(t, k).entries[j] == t.entries[j]
    ensures Drop(t, k).count == t.count + if k in t.entries then 1 else 0
  {}

  /** The counter is never below the number of entries. */
  ghost predicate Counted<V>(t: Table<V>) { |t.entries| <= t.count }

  lemma {:induction false} PutCounted<V>(t: Table<V>, k: Int64, v: V)
    requires Counted(t)
    ensures Counted(Put(t, k, v))
  {
    if k !in t.entries { assert t.entries[k := v].Keys == t.entries.Keys + {k}; }
  }

  lemma {:induction false} DropCounted<V>(t: Table<V>, k: Int64)
    requires Counted(t)
    ensures Counted(Drop(t, k))
  {
    if k in t.entries { assert (t.entries - {k}).Keys == t.entries.Keys - {k}; }
  }

  /** A counter of zero means an empty table; the converse fails after any deletion. */
  lemma {:induction false} ZeroIsEmpty<V>(t: Table<V>)
    requires Counted(t) && t.count == 0
    ensures t.entries == map[]
  {
    assert |t.entries.Keys| == 0;
  }

  lemma {:induction false} EmptyNotZero<V>(k: Int64, v: V)
    ensures var t := Drop(Put(Empty(), k, v), k); t.entries == map[] && t.count == 2
  {
    assert map[k := v] - {k} == map[];
  }
}
