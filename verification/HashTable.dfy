/** The chained table: a bucket is a doubly linked list, and a key may be present more than once, the
    newest node shadowing the older ones. */
module HashTable {
  const SIZE: nat := 709

  type Key = seq<char> // key_len bytes

  class HtNode {
    const key: Key
    const value: seq<char>
    var prev: HtNode?
    var next: HtNode?

    constructor (key: Key, value: seq<char>)
      ensures this.key == key && this.value == value && prev == null && next == null
    {
      this.key, this.value, prev, next := key, value, null, null;
    }
  }

  // ---- nodes in the order search meets them ----

  /** The first node with the key. */
  function First(ns: seq<HtNode>, key: Key): HtNode? {
    if ns == [] then null else if ns[0].key == key then ns[0] else First(ns[1..], key)
  }

  function Without(ns: seq<HtNode>, n: HtNode): (r: seq<HtNode>)
    ensures |r| <= |ns| && forall m :: m in r ==> m in ns
  {
    if ns == [] then [] else if ns[0] == n then ns[1..] else [ns[0]] + Without(ns[1..], n)
  }

  /** The nodes of one bucket, in the same order. */
  function InSlot(ns: seq<HtNode>, slot: Key -> nat, i: nat): (r: seq<HtNode>)
    ensures forall n :: n in r ==> n in ns && slot(n.key) == i
  {
    if ns == [] then [] else (if slot(ns[0].key) == i then [ns[0]] else []) + InSlot(ns[1..], slot, i)
  }

  function Elems(ns: seq<HtNode>): set<HtNode> { set n | n in ns }

  ghost predicate NoTwice(ns: seq<HtNode>) { forall i, j :: 0 <= i < j < |ns| ==> ns[i] != ns[j] }

  lemma {:induction false} InSlotMembers(ns: seq<HtNode>, slot: Key -> nat, i: nat, n: HtNode)
    ensures n in InSlot(ns, slot, i) <==> n in ns && slot(n.key) == i
  {
    if ns != [] { InSlotMembers(ns[1..], slot, i, n); }
  }

  /** Searching the key's bucket is searching everything. */
  lemma {:induction false} FirstInSlot(ns: seq<HtNode>, slot: Key -> nat, key: Key)
    ensures First(InSlot(ns, slot, slot(key)), key) == First(ns, key)
  {
    if ns != [] {
      FirstInSlot(ns[1..], slot, key);
      var rest := InSlot(ns[1..], slot, slot(key));
      assert ([ns[0]] + rest)[1..] == rest;
      assert [] + rest == rest;
    }
  }

  lemma {:induction false} WithoutInSlot(ns: seq<HtNode>, slot: Key -> nat, i: nat, n: HtNode)
    requires NoTwice(ns) && n in ns
    ensures InSlot(Without(ns, n), slot, i) == if slot(n.key) == i then Without(InSlot(ns, slot, i), n) else InSlot(ns, slot, i)
  {
    var rest := InSlot(ns[1..], slot, i);
    assert [] + rest == rest && ([ns[0]] + rest)[1..] == rest;
    if ns[0] != n {
      WithoutInSlot(ns[1..], slot, i, n);
      assert ([ns[0]] + Without(ns[1..], n))[1..] == Without(ns[1..], n);
    }
  }

  /** Taking position i out. */
  lemma {:induction false} WithoutAt(ns: seq<HtNode>, i: nat)
    requires NoTwice(ns) && i < |ns|
    ensures Without(ns, ns[i]) == ns[..i] + ns[i + 1..]
  {
    if i > 0 {
      WithoutAt(ns[1..], i - 1);
      assert ns[..i] + ns[i + 1..] == [ns[0]] + (ns[1..][..i - 1] + ns[1..][i..]);
    }
  }

  lemma {:induction false} WithoutOnce(ns: seq<HtNode>, i: nat)
    requires NoTwice(ns) && i < |ns|
    ensures NoTwice(Without(ns, ns[i]))
  {
    WithoutAt(ns, i);
  }

  /** What search returns: the newest node with the key, and null only if there is none. */
  lemma {:induction false} FirstIsNewest(ns: seq<HtNode>, key: Key) returns (i: nat)
    ensures First(ns, key) == null ==> i == |ns|
    ensures First(ns, key) != null ==> i < |ns| && First(ns, key) == ns[i] && ns[i].key == key
    ensures forall j :: 0 <= j < i ==> ns[j].key != key
  {
    if ns == [] || ns[0].key == key { i := 0; } else { i := FirstIsNewest(ns[1..], key); i := i + 1; }
  }

  lemma {:induction false} FirstAt(ns: seq<HtNode>, key: Key, i: nat)
    requires i <= |ns| && forall j :: 0 <= j < i ==> ns[j].key != key
    ensures First(ns, key) == First(ns[i..], key)
  {
    if i > 0 { FirstAt(ns[1..], key, i - 1); assert ns[1..][i - 1..] == ns[i..]; }
  }

  /** Deleting the node that search returns exposes the one it shadowed; deleting another one changes
      nothing for the key, nor does deleting a node with another key. */
  lemma {:induction false} DeleteExposes(ns: seq<HtNode>, key: Key, i: nat)
    requires NoTwice(ns) && i < |ns|
    ensures First(Without(ns, ns[i]), key) == if First(ns, key) == ns[i] then First(ns[i + 1..], key) else First(ns, key)
  {
    WithoutAt(ns, i);
    var k := FirstIsNewest(ns, key);
    var ns' := ns[..i] + ns[i + 1..];
    if k < i {
      FirstAt(ns', key, k);
    } else {
      FirstAt(ns', key, i);
      assert ns'[i..] == ns[i + 1..];
      if i < k { FirstAt(ns, key, i + 1); }
    }
  }

  // ---- one bucket ----

  /** prev and next of the i-th node agree with the order. */
  ghost predicate Link(ns: seq<HtNode>, i: int)
    requires 0 <= i < |ns|
    reads Elems(ns)
  {
    && ns[i].prev == (if i == 0 then null else ns[i - 1])
    && ns[i].next == (if i == |ns| - 1 then null else ns[i + 1])
  }

  /** The same, for a node other than the k-th, with the k-th left out. */
  ghost predicate LinkPast(ns: seq<HtNode>, k: int, j: int)
    requires 0 <= j < |ns| && 0 <= k < |ns|
    reads Elems(ns)
  {
    && ns[j].prev == (var p := if j == k + 1 then k - 1 else j - 1; if p < 0 then null else ns[p])
    && ns[j].next == (var q := if j == k - 1 then k + 1 else j + 1; if q >= |ns| then null else ns[q])
  }

  lemma {:induction false} Closed(ns: seq<HtNode>, k: nat)
    requires k < |ns| && forall j {:trigger LinkPast(ns, k, j)} :: 0 <= j < |ns| && j != k ==> LinkPast(ns, k, j)
    ensures var ns' := ns[..k] + ns[k + 1..]; forall i {:trigger Link(ns', i)} :: 0 <= i < |ns'| ==> Link(ns', i)
  {
    var ns' := ns[..k] + ns[k + 1..];
    forall i | 0 <= i < |ns'| ensures Link(ns', i) {
      assert LinkPast(ns, k, if i < k then i else i + 1);
    }
  }

  class HtList {
    var head: HtNode?
    ghost var nodes: seq<HtNode>

    ghost predicate Valid()
      reads this, Elems(nodes)
    {
      && NoTwice(nodes)
      && head == (if nodes == [] then null else nodes[0])
      && (forall i {:trigger Link(nodes, i)} :: 0 <= i < |nodes| ==> Link(nodes, i))
    }

    constructor ()
      ensures Valid() && nodes == []
    {
      head, nodes := null, [];
    }

    method Insert(node: HtNode)
      requires Valid() && node !in nodes
      modifies this, Elems(nodes), node
      ensures Valid() && nodes == [node] + old(nodes)
    {
      ghost var was := nodes;
      node.next := head;
      if head != null {
        head.prev := node;
      }
      head := node;
      node.prev := null;
      nodes := [node] + nodes;
      forall i | 0 <= i < |nodes| ensures Link(nodes, i) {
        if i > 0 { assert nodes[i] == was[i - 1] && old(Link(was, i - 1)); }
      }
    }

    method Delete(node: HtNode)
      requires Valid() && node in nodes
      modifies this, Elems(nodes)
      ensures Valid() && nodes == Without(old(nodes), node)
    {
      ghost var k :| 0 <= k < |nodes| && nodes[k] == node;
      ghost var was := nodes;
      WithoutAt(nodes, k);
      assert Link(nodes, k);
      if node.prev != null {
        node.prev.next := node.next;
      } else {
        head := node.next;
      }
      if node.next != null {
        node.next.prev := node.prev;
      }
      nodes := nodes[..k] + nodes[k + 1..];
      forall j {:trigger LinkPast(was, k, j)} | 0 <= j < |was| && j != k ensures LinkPast(was, k, j) {
        assert old(Link(was, j));
      }
      Closed(was, k);
    }

    /** The nested loops: skip other lengths, then compare the bytes. */
    method Search(key: Key) returns (r: HtNode?)
      requires Valid()
      ensures r == First(nodes, key)
    {
      var temp := head;
      ghost var i := 0;
      while temp != null
        invariant i <= |nodes| && temp == (if i == |nodes| then null else nodes[i])
        invariant First(nodes[i..], key) == First(nodes, key)
        decreases |nodes| - i
      {
        while temp != null && |temp.key| != |key|
          invariant i <= |nodes| && temp == (if i == |nodes| then null else nodes[i])
          invariant First(nodes[i..], key) == First(nodes, key)
          decreases |nodes| - i
        {
          assert Link(nodes, i);
          temp := temp.next;
          i := i + 1;
        }
        if temp != null {
          if temp.key == key {
            return temp;
          }
          assert Link(nodes, i);
          temp := temp.next;
          i := i + 1;
        }
      }
      return null;
    }
  }

  // ---- the table ----

  ghost predicate Holds(l: HtList, ns: seq<HtNode>)
    reads l, Elems(ns)
  {
    l.nodes == ns && l.Valid()
  }

  ghost function Rows(ns: seq<HtNode>, slot: Key -> nat): (r: seq<seq<HtNode>>)
    ensures |r| == SIZE && forall i :: 0 <= i < SIZE ==> r[i] == InSlot(ns, slot, i)
  {
    seq(SIZE, i requires 0 <= i => InSlot(ns, slot, i))
  }

  /** No node is in two rows. */
  ghost predicate Apart(rows: seq<seq<HtNode>>) {
    forall i, j, n :: 0 <= i < |rows| && 0 <= j < |rows| && n in rows[i] && n in rows[j] ==> i == j
  }

  lemma {:induction false} RowsApart(ns: seq<HtNode>, slot: Key -> nat)
    ensures Apart(Rows(ns, slot))
  {}

  lemma {:induction false} RowsPush(ns: seq<HtNode>, slot: Key -> nat, n: HtNode)
    requires slot(n.key) < SIZE
    ensures Rows([n] + ns, slot) == Rows(ns, slot)[slot(n.key) := [n] + Rows(ns, slot)[slot(n.key)]]
  {
    assert ([n] + ns)[1..] == ns;
    forall i | 0 <= i < SIZE ensures InSlot([n] + ns, slot, i) == if slot(n.key) == i then [n] + InSlot(ns, slot, i) else InSlot(ns, slot, i) {
      assert [] + InSlot(ns, slot, i) == InSlot(ns, slot, i);
    }
  }

  lemma {:induction false} RowsPull(ns: seq<HtNode>, slot: Key -> nat, n: HtNode)
    requires slot(n.key) < SIZE && NoTwice(ns) && n in ns
    ensures Rows(Without(ns, n), slot) == Rows(ns, slot)[slot(n.key) := Without(Rows(ns, slot)[slot(n.key)], n)]
    ensures n in Rows(ns, slot)[slot(n.key)]
  {
    InSlotMembers(ns, slot, slot(n.key), n);
    forall i | 0 <= i < SIZE
      ensures InSlot(Without(ns, n), slot, i) == if slot(n.key) == i then Without(InSlot(ns, slot, i), n) else InSlot(ns, slot, i) {
      WithoutInSlot(ns, slot, i, n);
    }
  }

  ghost predicate AllHold(lists: seq<HtList>, rows: seq<seq<HtNode>>, nodes: set<HtNode>)
    reads lists, nodes
  {
    && |rows| == |lists|
    && (forall i :: 0 <= i < |rows| ==> Elems(rows[i]) <= nodes)
    && (forall i :: 0 <= i < |lists| ==> Holds(lists[i], rows[i]))
  }

  /** One bucket changes, the others do not. */
  method Push(lists: seq<HtList>, i: nat, node: HtNode, ghost rows: seq<seq<HtNode>>, ghost nodes: set<HtNode>)
    requires AllHold(lists, rows, nodes) && Apart(rows) && i < |lists|
    requires forall j, k :: 0 <= j < |lists| && 0 <= k < |lists| && j != k ==> lists[j] != lists[k]
    requires forall j :: 0 <= j < |rows| ==> node !in rows[j]
    modifies lists[i], Elems(rows[i]), node
    ensures AllHold(lists, rows[i := [node] + rows[i]], nodes + {node})
  {
    assert Holds(lists[i], rows[i]);
    lists[i].Insert(node);
    forall j | 0 <= j < |lists| && j != i ensures Holds(lists[j], rows[j]) {
      assert old(Holds(lists[j], rows[j]));
      assert Elems(rows[j]) !! Elems(rows[i]);
    }
  }

  method Pull(lists: seq<HtList>, i: nat, node: HtNode, ghost rows: seq<seq<HtNode>>, ghost nodes: set<HtNode>)
    requires AllHold(lists, rows, nodes) && Apart(rows) && i < |lists| && node in rows[i]
    requires forall j, k :: 0 <= j < |lists| && 0 <= k < |lists| && j != k ==> lists[j] != lists[k]
    modifies lists[i], Elems(rows[i])
    ensures AllHold(lists, rows[i := Without(rows[i], node)], nodes)
  {
    assert Holds(lists[i], rows[i]);
    lists[i].Delete(node);
    forall j | 0 <= j < |lists| && j != i ensures Holds(lists[j], rows[j]) {
      assert old(Holds(lists[j], rows[j]));
      assert Elems(rows[j]) !! Elems(rows[i]);
    }
  }

  class Ht {
    const slot: Key -> nat // hash modulo the size
    const lists: seq<HtList>
    var keyCount: nat
    ghost var all: seq<HtNode> // every node in the table, newest first

    ghost predicate Slots() {
      && |lists| == SIZE && (forall key :: slot(key) < SIZE)
      && forall i, j :: 0 <= i < SIZE && 0 <= j < SIZE && i != j ==> lists[i] != lists[j]
    }

    /** Each bucket holds its nodes, in the order of the whole table. */
    ghost predicate Valid()
      reads this, lists, Elems(all)
    {
      Slots() && NoTwice(all) && |all| <= keyCount && AllHold(lists, Rows(all, slot), Elems(all))
    }

    static method NewLists() returns (row: seq<HtList>)
      ensures |row| == SIZE && fresh(row) && forall i, j :: 0 <= i < SIZE && 0 <= j < SIZE && i != j ==> row[i] != row[j]
      ensures forall i :: 0 <= i < SIZE ==> Holds(row[i], [])
    {
      row := [];
      while |row| < SIZE
        invariant |row| <= SIZE && fresh(row)
        invariant forall i, j :: 0 <= i < |row| && 0 <= j < |row| && i != j ==> row[i] != row[j]
        invariant forall i :: 0 <= i < |row| ==> Holds(row[i], [])
      {
        var l := new HtList();
        row := row + [l];
      }
    }

    constructor (hash: Key -> nat)
      ensures Valid() && all == [] && keyCount == 0 && |lists| == 709
      ensures forall key :: slot(key) == hash(key) % 709
    {
      var row := NewLists();
      lists := row;
      slot := key => hash(key) % SIZE;
      keyCount, all := 0, [];
    }

    /** The counter after a call; the lists stay as they are. */
    method Record(c: nat, ghost ns: seq<HtNode>, ghost nodes: set<HtNode>)
      requires Slots() && NoTwice(ns) && |ns| <= c && AllHold(lists, Rows(ns, slot), nodes)
      modifies this
      ensures Valid() && keyCount == c && all == ns
    {
      keyCount, all := c, ns;
      ghost var rows := Rows(ns, slot);
      forall i | 0 <= i < SIZE ensures Holds(lists[i], rows[i]) { assert old(Holds(lists[i], rows[i])); }
    }

    method Add(node: HtNode)
      requires Valid() && node !in all
      modifies this, lists, Elems(all), node
      ensures Valid() && keyCount == old(keyCount) + 1 && all == [node] + old(all)
    {
      assert Apart(Rows(all, slot)) by { RowsApart(all, slot); }
      RowsPush(all, slot, node);
      Push(lists, slot(node.key), node, Rows(all, slot), Elems(all));
      assert NoTwice([node] + all);
      Record(keyCount + 1, [node] + all, Elems(all) + {node});
    }

    /** delete leaves the counter alone, so it may exceed the number of nodes. */
    method Insert(key: Key, value: seq<char>) returns (ret: int)
      requires Valid()
      modifies this, lists, Elems(all)
      ensures Valid() && ret == 0 && keyCount == old(keyCount) + 1
      ensures all != [] && all[1..] == old(all) && fresh(all[0]) && all[0].key == key && all[0].value == value
    {
      var node := new HtNode(key, value);
      Add(node);
      return 0;
    }

    method Delete(node: HtNode) returns (ret: int)
      requires Valid() && node in all
      modifies this, lists, Elems(all)
      ensures Valid() && ret == 0 && keyCount == old(keyCount)
      ensures all == Without(old(all), node)
    {
      assert Apart(Rows(all, slot)) by { RowsApart(all, slot); }
      RowsPull(all, slot, node);
      Pull(lists, slot(node.key), node, Rows(all, slot), Elems(all));
      ghost var k :| 0 <= k < |all| && all[k] == node;
      WithoutOnce(all, k);
      Record(keyCount, Without(all, node), Elems(all));
      return 0;
    }

    /** The newest node with the key; older ones are shadowed. */
    method Search(key: Key) returns (r: HtNode?)
      requires Valid()
      ensures r == First(all, key)
    {
      FirstInSlot(all, slot, key);
      assert Holds(lists[slot(key)], InSlot(all, slot, slot(key)));
      r := lists[slot(key)].Search(key);
    }
  }
}
