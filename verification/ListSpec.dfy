/** A quiet list as a value: the entries of its live nodes, strictly sorted by key. */
module ListSpec {
  import opened Types

  datatype Entry<+V> = Entry(key: Int64, val: V)

  ghost predicate Sorted<V>(s: seq<Entry<V>>) {
    forall i, j :: 0 <= i < j < |s| ==> s[i].key < s[j].key
  }

  /** Where the key is or would be. */
  function Find<V>(s: seq<Entry<V>>, k: Int64): (i: nat)
    ensures i <= |s|
    ensures forall j :: 0 <= j < i ==> s[j].key < k
    ensures i < |s| ==> k <= s[i].key
  {
    if s == [] || k <= s[0].key then 0 else 1 + Find(s[1..], k)
  }

  function Hit<V>(s: seq<Entry<V>>, k: Int64): bool { var i := Find(s, k); i < |s| && s[i].key == k }

  function Lookup<V>(s: seq<Entry<V>>, k: Int64): Option<V> {
    if Hit(s, k) then Some(s[Find(s, k)].val) else None
  }

  function Insert<V>(s: seq<Entry<V>>, k: Int64, v: V): seq<Entry<V>> {
    if Hit(s, k) then s else s[..Find(s, k)] + [Entry(k, v)] + s[Find(s, k)..]
  }

  function Remove<V>(s: seq<Entry<V>>, k: Int64): seq<Entry<V>> {
    if Hit(s, k) then s[..Find(s, k)] + s[Find(s, k) + 1..] else s
  }

  ghost predicate Has<V>(s: seq<Entry<V>>, k: Int64) { exists i :: 0 <= i < |s| && s[i].key == k }

  /** In a sorted list the search sees every key. */
  lemma {:induction false} HitIsHas<V>(s: seq<Entry<V>>, k: Int64)
    requires Sorted(s)
    ensures Hit(s, k) <==> Has(s, k)
  {
    if Has(s, k) {
      var i :| 0 <= i < |s| && s[i].key == k;
      assert i == Find(s, k);
    }
  }

  /** The position is determined by the keys around it. */
  lemma {:induction false} FindUnique<V>(s: seq<Entry<V>>, k: Int64, i: nat)
    requires i <= |s| && (forall j :: 0 <= j < i ==> s[j].key < k) && (i < |s| ==> k <= s[i].key)
    ensures Find(s, k) == i
  {
    if i > 0 { FindUnique(s[1..], k, i - 1); }
  }

  /** Inserting and removing at the place the search found. */
  lemma {:induction false} InsertAt<V>(a: seq<Entry<V>>, b: seq<Entry<V>>, k: Int64, v: V)
    requires Find(a + b, k) == |a| && !Hit(a + b, k)
    ensures Insert(a + b, k, v) == a + ([Entry(k, v)] + b)
  {}

  lemma {:induction false} RemoveAt<V>(a: seq<Entry<V>>, e: Entry<V>, b: seq<Entry<V>>, k: Int64)
    requires Find(a + ([e] + b), k) == |a| && e.key == k
    ensures Remove(a + ([e] + b), k) == a + b && Lookup(a + ([e] + b), k) == Some(e.val)
  {
    var s := a + ([e] + b);
    assert s[..|a|] == a && s[|a|] == e;
    assert s[|a| + 1..] == b by { assert s == (a + [e]) + b; }
  }

  // ---- a sorted list as a map ----

  /** The entry of the key, or none with it. */
  ghost predicate Holds<V>(s: seq<Entry<V>>, k: Int64, o: Option<V>) {
    if o.Some? then Entry(k, o.value) in s else forall e :: e in s ==> e.key != k
  }

  lemma {:induction false} LookupHolds<V>(s: seq<Entry<V>>, k: Int64)
    requires Sorted(s)
    ensures Holds(s, k, Lookup(s, k))
  {}

  lemma {:induction false} HoldsLookup<V>(s: seq<Entry<V>>, k: Int64, o: Option<V>)
    requires Sorted(s) && Holds(s, k, o)
    ensures Lookup(s, k) == o
  {
    if o.Some? {
      var i :| 0 <= i < |s| && s[i] == Entry(k, o.value);
      FindUnique(s, k, i);
    }
  }

  lemma {:induction false} InsertMembers<V>(s: seq<Entry<V>>, key: Int64, v: V, e: Entry<V>)
    requires !Hit(s, key)
    ensures e in Insert(s, key, v) <==> e in s || e == Entry(key, v)
  {
    var p := Find(s, key);
    assert s == s[..p] + s[p..];
  }

  lemma {:induction false} InsertSorted<V>(s: seq<Entry<V>>, key: Int64, v: V)
    requires Sorted(s)
    ensures Sorted(Insert(s, key, v))
  {}

  lemma {:induction false} LookupInsert<V>(s: seq<Entry<V>>, key: Int64, v: V, k: Int64)
    requires Sorted(s)
    ensures Lookup(Insert(s, key, v), k) == if k == key && !Hit(s, key) then Some(v) else Lookup(s, k)
  {
    if !Hit(s, key) {
      InsertSorted(s, key, v);
      LookupHolds(s, k);
      var o := if k == key then Some(v) else Lookup(s, k);
      forall e ensures e in Insert(s, key, v) <==> e in s || e == Entry(key, v) { InsertMembers(s, key, v, e); }
      HoldsLookup(Insert(s, key, v), k, o);
    }
  }

  lemma {:induction false} RemoveMembers<V>(s: seq<Entry<V>>, key: Int64, e: Entry<V>)
    requires Sorted(s) && Hit(s, key)
    ensures e in Remove(s, key) <==> e in s && e.key != key
  {
    var p := Find(s, key);
    assert s == s[..p] + [s[p]] + s[p + 1..];
    var rest := s[p + 1..];
    assert forall i :: 0 <= i < |rest| ==> rest[i] == s[p + 1 + i];
  }

  lemma {:induction false} RemoveSorted<V>(s: seq<Entry<V>>, key: Int64)
    requires Sorted(s)
    ensures Sorted(Remove(s, key))
  {}

  lemma {:induction false} LookupRemove<V>(s: seq<Entry<V>>, key: Int64, k: Int64)
    requires Sorted(s)
    ensures Lookup(Remove(s, key), k) == if k == key then None else Lookup(s, k)
  {
    LookupHolds(s, k);
    if Hit(s, key) {
      RemoveSorted(s, key);
      forall e ensures e in Remove(s, key) <==> e in s && e.key != key { RemoveMembers(s, key, e); }
      HoldsLookup(Remove(s, key), k, if k == key then None else Lookup(s, k));
    }
  }
}
