/** The hash: a fixed row of lists, and a counter. */
module LfHash {
  import opened Types
  import opened ListSpec
  import opened HashSpec
  import opened LfList

  function ToOption<V>(m: map<Int64, V>, k: Int64): Option<V> {
    if k in m then Some(m[k]) else None
  }

  // ---- rows of entries as a map ----

  /** A row holds exactly the entries whose keys fall into bucket i. */
  ghost predicate Agrees<V>(s: seq<Entry<V>>, m: map<Int64, V>, slot: Int64 -> nat, i: nat) {
    Sorted(s) && forall k: Int64 :: Lookup(s, k) == if slot(k) == i then ToOption(m, k) else None
  }

  lemma {:induction false} AgreesInsert<V>(s: seq<Entry<V>>, m: map<Int64, V>, slot: Int64 -> nat, i: nat, key: Int64, v: V)
    requires Agrees(s, m, slot, i)
    ensures Agrees(if slot(key) == i then Insert(s, key, v) else s, if key in m then m else m[key := v], slot, i)
    ensures slot(key) == i ==> (Hit(s, key) <==> key in m)
  {
    assert Lookup(s, key) == if slot(key) == i then ToOption(m, key) else None;
    if slot(key) == i {
      forall k: Int64 ensures Lookup(Insert(s, key, v), k) == if k == key && !Hit(s, key) then Some(v) else Lookup(s, k) {
        LookupInsert(s, key, v, k);
      }
      InsertSorted(s, key, v);
    }
  }

  lemma {:induction false} AgreesRemove<V>(s: seq<Entry<V>>, m: map<Int64, V>, slot: Int64 -> nat, i: nat, key: Int64)
    requires Agrees(s, m, slot, i)
    ensures Agrees(if slot(key) == i then Remove(s, key) else s, m - {key}, slot, i)
    ensures slot(key) == i ==> (Hit(s, key) <==> key in m)
  {
    assert Lookup(s, key) == if slot(key) == i then ToOption(m, key) else None;
    if slot(key) == i {
      forall k: Int64 ensures Lookup(Remove(s, key), k) == if k == key then None else Lookup(s, k) {
        LookupRemove(s, key, k);
      }
      RemoveSorted(s, key);
    }
  }

  /** The rows together hold exactly the map. */
  ghost predicate AllAgree<V>(rows: seq<seq<Entry<V>>>, m: map<Int64, V>, slot: Int64 -> nat) {
    forall i :: 0 <= i < |rows| ==> Agrees(rows[i], m, slot, i)
  }

  lemma {:induction false} RowsInsert<V>(rows: seq<seq<Entry<V>>>, m: map<Int64, V>, slot: Int64 -> nat, key: Int64, v: V)
    requires AllAgree(rows, m, slot) && slot(key) < |rows|
    ensures AllAgree(rows[slot(key) := Insert(rows[slot(key)], key, v)], if key in m then m else m[key := v], slot)
    ensures Hit(rows[slot(key)], key) <==> key in m
  {
    var rows' := rows[slot(key) := Insert(rows[slot(key)], key, v)];
    forall i | 0 <= i < |rows'| ensures Agrees(rows'[i], if key in m then m else m[key := v], slot, i) {
      AgreesInsert(rows[i], m, slot, i, key, v);
    }
    AgreesInsert(rows[slot(key)], m, slot, slot(key), key, v);
  }

  lemma {:induction false} RowsRemove<V>(rows: seq<seq<Entry<V>>>, m: map<Int64, V>, slot: Int64 -> nat, key: Int64)
    requires AllAgree(rows, m, slot) && slot(key) < |rows|
    ensures AllAgree(rows[slot(key) := Remove(rows[slot(key)], key)], m - {key}, slot)
    ensures Hit(rows[slot(key)], key) <==> key in m
  {
    var rows' := rows[slot(key) := Remove(rows[slot(key)], key)];
    forall i | 0 <= i < |rows'| ensures Agrees(rows'[i], m - {key}, slot, i) {
      AgreesRemove(rows[i], m, slot, i, key);
    }
    AgreesRemove(rows[slot(key)], m, slot, slot(key), key);
  }

  lemma {:induction false} RowsLookup<V>(rows: seq<seq<Entry<V>>>, m: map<Int64, V>, slot: Int64 -> nat, key: Int64)
    requires AllAgree(rows, m, slot) && slot(key) < |rows|
    ensures Lookup(rows[slot(key)], key) == ToOption(m, key)
  {
    assert Agrees(rows[slot(key)], m, slot, slot(key));
  }

  lemma {:induction false} RowsEmpty<V>(n: nat, slot: Int64 -> nat)
    ensures AllAgree<V>(seq(n, i => []), map[], slot)
  {}

  // ---- the table ----

  ghost predicate Quiet<V>(l: LfList<V>, s: seq<Entry<V>>)
    reads l, l.chain
  {
    l.Valid() && l.Clean() && l.Contents() == s
  }

  lemma {:induction false} LiveHas<V>(ns: seq<Node<V>>, dead: set<Node<V>>, k: nat)
    requires k < |ns| && ns[k] !in dead
    ensures Entry(ns[k].key, ns[k].data) in Live(ns, dead)
  {
    if k < |ns| - 1 { LiveHas(ns[..|ns| - 1], dead, k); }
  }

  /** One of the first c nodes after the head has the key. */
  ghost predicate Walked<V>(ns: seq<Node<V>>, c: nat, k: Int64)
    requires c <= |ns|
  {
    exists j :: 1 <= j < c && ns[j].key == k
  }

  lemma {:induction false} WalkedAll<V>(l: LfList<V>, s: seq<Entry<V>>, k: Int64)
    requires Quiet(l, s)
    ensures Walked(l.chain, |l.chain| - 1, k) <==> Hit(s, k)
  {
    var ns := l.chain[1..|l.chain| - 1];
    l.ContentsSorted();
    HitIsHas(s, k);
    if Walked(l.chain, |l.chain| - 1, k) {
      var j :| 1 <= j < |l.chain| - 1 && l.chain[j].key == k;
      assert ns[j - 1] == l.chain[j];
      LiveHas(ns, l.dead, j - 1);
    }
    if Hit(s, k) {
      var j := LiveFrom(ns, l.dead, s[Find(s, k)]);
      assert l.chain[j + 1].key == k;
    }
  }

  lemma {:induction false} HitInsert<V>(s: seq<Entry<V>>, key: Int64, v: V, k: Int64)
    requires Sorted(s)
    ensures Hit(Insert(s, key, v), k) <==> k == key || Hit(s, k)
  {
    LookupInsert(s, key, v, k);
    LookupInsert(s, key, v, key);
  }

  method CopyKey<V>(dst: LfList<V>, key: Int64, nil: V)
    requires dst.Valid() && dst.Clean()
    modifies dst, dst.repr
    ensures dst.Valid() && dst.Clean() && fresh(dst.repr - old(dst.repr))
    ensures forall k: Int64 :: Hit(dst.Contents(), k) <==> old(Hit(dst.Contents(), k)) || k == key
  {
    ghost var d := dst.Contents();
    dst.ContentsSorted();
    forall k: Int64 ensures Hit(Insert(d, key, nil), k) <==> k == key || Hit(d, k) { HitInsert(d, key, nil, k); }
    var _ := dst.InsertKey(key, nil);
  }

  /** The inner loop of get_all_keys. */
  method CopyKeys<V>(src: LfList<V>, dst: LfList<V>, ghost s: seq<Entry<V>>, nil: V)
    requires Quiet(src, s) && dst.Valid() && dst.Clean() && src != dst
    requires forall n :: n in src.chain ==> n !in dst.repr
    modifies dst, dst.repr
    ensures dst.Valid() && dst.Clean() && fresh(dst.repr - old(dst.repr))
    ensures forall k: Int64 :: Hit(dst.Contents(), k) <==> old(Hit(dst.Contents(), k)) || Hit(s, k)
  {
    var cur := src.head.next;
    ghost var c := 1;
    while cur != src.tail
      invariant 1 <= c < |src.chain| && src.chain[c] == cur
      invariant dst.Valid() && dst.Clean() && fresh(dst.repr - old(dst.repr))
      invariant Quiet(src, s)
      invariant forall k: Int64 :: Hit(dst.Contents(), k) <==> old(Hit(dst.Contents(), k)) || Walked(src.chain, c, k)
      decreases |src.chain| - c
    {
      if c < |src.chain| - 1 { Distinct(src.chain, c, |src.chain| - 1); }
      CopyKey(dst, cur.key, nil);
      cur := cur.next;
      c := c + 1;
    }
    if c < |src.chain| - 1 { Distinct(src.chain, c, |src.chain| - 1); }
    forall k: Int64 ensures Walked(src.chain, c, k) <==> Hit(s, k) { WalkedAll(src, s, k); }
  }

  class LfHash<V> {
    const slot: Int64 -> nat // seeded bit mixing modulo the size
    const nil: V             // what a search returns for a missing key
    const table: seq<LfList<V>>
    var count: nat
    ghost var entries: map<Int64, V>
    ghost var nodes: set<Node<V>>      // of all lists
    ghost var rows: seq<seq<Entry<V>>> // what each list holds

    /** Distinct buckets own distinct nodes. */
    ghost predicate Apart(nodes: set<Node<V>>)
      reads table
    {
      && (forall i, j :: 0 <= i < |table| && 0 <= j < |table| && i != j ==> table[i] != table[j] && table[i].repr !! table[j].repr)
      && (forall i :: 0 <= i < |table| ==> table[i].repr <= nodes && forall n :: n in table[i].chain ==> n in table[i].repr)
    }

    ghost predicate Lists(rows: seq<seq<Entry<V>>>, nodes: set<Node<V>>)
      reads table, nodes
    {
      && Apart(nodes) && |rows| == |table|
      && (forall i :: 0 <= i < |table| ==> Quiet(table[i], rows[i]))
    }

    ghost predicate Slots() {
      forall k: Int64 :: slot(k) < |table|
    }

    ghost predicate Valid()
      reads this, table, nodes
    {
      Slots() && Lists(rows, nodes) && AllAgree(rows, entries, slot) && Counted(View())
    }

    ghost function View(): Table<V>
      reads this
    {
      Table(entries, count)
    }

    /** A row of fresh empty lists. */
    static method NewLists(size: nat, nil: V) returns (ls: seq<LfList<V>>, ghost ns: set<Node<V>>)
      ensures |ls| == size && fresh(ls) && fresh(ns)
      ensures forall i, j :: 0 <= i < j < |ls| ==> ls[i] != ls[j] && ls[i].repr !! ls[j].repr
      ensures forall i :: 0 <= i < |ls| ==> ls[i].repr <= ns && Quiet(ls[i], [])
    {
      ls, ns := [], {};
      while |ls| < size
        invariant |ls| <= size && fresh(ls) && fresh(ns)
        invariant forall i, j :: 0 <= i < j < |ls| ==> ls[i] != ls[j] && ls[i].repr !! ls[j].repr
        invariant forall i :: 0 <= i < |ls| ==> ls[i].repr <= ns && Quiet(ls[i], [])
      {
        var l := new LfList(nil);
        ls := ls + [l];
        ns := ns + l.repr;
      }
    }

    constructor (size: nat, hash: Int64 -> nat, nil: V)
      requires size > 0
      ensures Valid() && View() == Empty() && |table| == size && this.nil == nil
      ensures forall k: Int64 :: slot(k) == hash(k) % size
      ensures fresh(table) && fresh(nodes)
    {
      var ls;
      ghost var ns;
      ls, ns := NewLists(size, nil);
      this.nil, table, count := nil, ls, 0;
      slot := k => hash(k) % size;
      entries, nodes, rows := map[], ns, seq(size, i => []);
      new;
      RowsEmpty<V>(size, slot);
    }

    /** One list changes, the others do not. */
    method InsertInto(index: nat, key: Int64, data: V) returns (ret: int)
      requires Lists(rows, nodes) && index < |table|
      modifies table[index], table[index].repr
      ensures Lists(rows[index := ListSpec.Insert(rows[index], key, data)], nodes + table[index].repr)
      ensures ret == if Hit(rows[index], key) then -1 else 0
      ensures fresh(table[index].repr - old(table[index].repr))
    {
      assert Quiet(table[index], rows[index]);
      ret := table[index].InsertKey(key, data);
      forall i | 0 <= i < |table| && i != index ensures Quiet(table[i], rows[i]) && unchanged(table[i]) {
        assert old(Quiet(table[i], rows[i]));
        assert table[i].repr !! old(table[index].repr);
      }
    }

    /** The counter after a call; the lists stay as they are. */
    method Record(c: nat, ghost rows': seq<seq<Entry<V>>>, ghost nodes': set<Node<V>>, ghost m: map<Int64, V>)
      requires Slots() && Lists(rows', nodes') && AllAgree(rows', m, slot) && Counted(Table(m, c))
      modifies this
      ensures Valid() && View() == Table(m, c) && nodes == nodes'
    {
      count, rows, nodes, entries := c, rows', nodes', m;
      forall i | 0 <= i < |table| ensures Quiet(table[i], rows[i]) {
        assert old(Quiet(table[i], rows'[i]));
      }
    }

    method Insert(key: Int64, data: V) returns (ret: int)
      requires Valid()
      modifies this, table, nodes
      ensures Valid() && View() == Put(old(View()), key, data)
      ensures ret == if key in old(entries) then -1 else 0
      ensures ret == -1 ==> entries == old(entries) && count == old(count)
      ensures ret == 0 ==> entries == old(entries)[key := data] && count == old(count) + 1
      ensures fresh(nodes - old(nodes))
    {
      ghost var t, i := View(), slot(key);
      ret := InsertInto(slot(key), key, data);
      assert AllAgree(rows[i := ListSpec.Insert(rows[i], key, data)], Put(t, key, data).entries, slot) && (ret == 0 <==> key !in entries) by {
        RowsInsert(rows, entries, slot, key, data);
      }
      assert Counted(Put(t, key, data)) by { PutCounted(t, key, data); }
      Record(if ret == 0 then count + 1 else count, rows[i := ListSpec.Insert(rows[i], key, data)], nodes + table[i].repr,
             Put(t, key, data).entries);
    }

    /** As InsertInto, for the delete. */
    method DeleteFrom(index: nat, key: Int64) returns (ret: int)
      requires Lists(rows, nodes) && index < |table|
      modifies table[index], table[index].repr
      ensures Lists(rows[index := Remove(rows[index], key)], nodes)
      ensures ret == if Hit(rows[index], key) then 0 else -1
    {
      assert Quiet(table[index], rows[index]);
      ret := table[index].DeleteKey(key);
      forall i | 0 <= i < |table| && i != index ensures Quiet(table[i], rows[i]) && unchanged(table[i]) {
        assert old(Quiet(table[i], rows[i]));
        assert table[i].repr !! old(table[index].repr);
      }
    }

    method Delete(key: Int64) returns (ret: int)
      requires Valid()
      modifies this, table, nodes
      ensures Valid() && View() == Drop(old(View()), key)
      ensures ret == if key in old(entries) then 0 else -1
      ensures entries == old(entries) - {key} && count == old(count) + if ret == 0 then 1 else 0
      ensures nodes == old(nodes)
    {
      ghost var t, i := View(), slot(key);
      ret := DeleteFrom(slot(key), key);
      assert AllAgree(rows[i := Remove(rows[i], key)], Drop(t, key).entries, slot) && (ret == 0 <==> key in entries) by {
        RowsRemove(rows, entries, slot, key);
        assert key !in entries ==> entries - {key} == entries;
      }
      assert Counted(Drop(t, key)) by { DropCounted(t, key); }
      Record(if ret == 0 then count + 1 else count, rows[i := Remove(rows[i], key)], nodes, Drop(t, key).entries);
    }

    /** As InsertInto, for the search: no row changes. */
    method SearchIn(index: nat, key: Int64) returns (r: V)
      requires Lists(rows, nodes) && index < |table|
      modifies table[index], table[index].repr
      ensures Lists(rows, nodes)
      ensures r == if Lookup(rows[index], key).Some? then Lookup(rows[index], key).value else nil
    {
      assert Quiet(table[index], rows[index]);
      var node := table[index].SearchKey(key);
      r := if node == null then nil else node.data;
      forall i | 0 <= i < |table| && i != index ensures Quiet(table[i], rows[i]) && unchanged(table[i]) {
        assert old(Quiet(table[i], rows[i]));
        assert table[i].repr !! old(table[index].repr);
      }
    }

    method Search(key: Int64) returns (r: V)
      requires Valid()
      modifies table, nodes
      ensures Valid() && r == if key in entries then entries[key] else nil
    {
      RowsLookup(rows, entries, slot, key);
      r := SearchIn(slot(key), key);
    }

    /** The counter, which is zero only for an empty table. */
    method Count() returns (c: nat)
      requires Valid()
      ensures c == count && (c == 0 ==> entries == map[])
    {
      c := count;
      if c == 0 { ZeroIsEmpty(View()); }
    }

    /** One round of the outer loop of get_all_keys. */
    method CopyRow(i: nat, keys: LfList<V>)
      requires Valid() && i < |table| && keys.Valid() && keys.Clean()
      requires keys !in table && keys.repr !! nodes
      modifies keys, keys.repr
      ensures keys.Valid() && keys.Clean() && fresh(keys.repr - old(keys.repr))
      ensures forall k: Int64 :: Hit(keys.Contents(), k) <==> old(Hit(keys.Contents(), k)) || (slot(k) == i && k in entries)
    {
      assert Quiet(table[i], rows[i]);
      CopyKeys(table[i], keys, rows[i], nil);
      forall k: Int64 ensures Hit(rows[i], k) <==> slot(k) == i && k in entries {
        assert Agrees(rows[i], entries, slot, i);
        assert Lookup(rows[i], k) == if slot(k) == i then ToOption(entries, k) else None;
      }
    }

    /** Every key of the table, in a new list. */
    method GetAllKeys() returns (keys: LfList<V>)
      requires Valid()
      ensures fresh(keys) && fresh(keys.repr)
      ensures keys.Valid() && keys.Clean() && Sorted(keys.Contents())
      ensures forall k: Int64 :: Hit(keys.Contents(), k) <==> k in entries
    {
      keys := new LfList(nil);
      for i := 0 to |table|
        invariant fresh(keys) && fresh(keys.repr) && keys.Valid() && keys.Clean() && Valid()
        invariant forall k: Int64 :: Hit(keys.Contents(), k) <==> slot(k) < i && k in entries
      {
        CopyRow(i, keys);
      }
      keys.ContentsSorted();
    }
  }
}
