/** The list on one thread: nodes linked in place.  A mark may have been left behind by anybody, so the
    search is proved for lists with marked nodes in them. */
module LfList {
  import opened Types
  import opened ListSpec

  class Node<V> {
    const key: Int64
    const data: V
    var next: Node?<V>
    var marked: bool

    constructor (key: Int64, data: V)
      ensures this.key == key && this.data == data && next == null && !marked
    {
      this.key, this.data, next, marked := key, data, null, false;
    }
  }

  // ---- live entries of a stretch of nodes ----

  ghost function One<V>(n: Node<V>, dead: set<Node<V>>): seq<Entry<V>> {
    if n in dead then [] else [Entry(n.key, n.data)]
  }

  /** The entries of the nodes that are not among the `dead`. */
  ghost function Live<V>(ns: seq<Node<V>>, dead: set<Node<V>>): seq<Entry<V>> {
    if ns == [] then [] else Live(ns[..|ns| - 1], dead) + One(ns[|ns| - 1], dead)
  }

  lemma {:induction false} LiveConcat<V>(a: seq<Node<V>>, b: seq<Node<V>>, dead: set<Node<V>>)
    ensures Live(a + b, dead) == Live(a, dead) + Live(b, dead)
  {
    if b == [] {
      assert a + b == a;
    } else {
      assert (a + b)[..|a + b| - 1] == a + b[..|b| - 1];
      LiveConcat(a, b[..|b| - 1], dead);
    }
  }

  lemma {:induction false} LiveOfDead<V>(ns: seq<Node<V>>, dead: set<Node<V>>)
    requires forall n :: n in ns ==> n in dead
    ensures Live(ns, dead) == []
  {
    if ns != [] { LiveOfDead(ns[..|ns| - 1], dead); }
  }

  lemma {:induction false} LiveSame<V>(ns: seq<Node<V>>, dead: set<Node<V>>, x: Node<V>)
    requires x !in ns
    ensures Live(ns, dead + {x}) == Live(ns, dead)
  {
    if ns != [] { LiveSame(ns[..|ns| - 1], dead, x); }
  }

  /** Entries come from live nodes. */
  lemma {:induction false} LiveFrom<V>(ns: seq<Node<V>>, dead: set<Node<V>>, e: Entry<V>) returns (k: nat)
    requires e in Live(ns, dead)
    ensures k < |ns| && ns[k] !in dead && e == Entry(ns[k].key, ns[k].data)
  {
    if e in Live(ns[..|ns| - 1], dead) { k := LiveFrom(ns[..|ns| - 1], dead, e); } else { k := |ns| - 1; }
  }

  lemma {:induction false} LiveOne<V>(n: Node<V>, dead: set<Node<V>>)
    ensures Live([n], dead) == One(n, dead)
  {
    assert [n][..0] == [];
    assert Live([n][..0], dead) == [];
  }

  // ---- compare and swap ----

  method CasNext<V>(n: Node<V>, seen: Node?<V>, to: Node?<V>) returns (ok: bool)
    modifies n`next
    ensures ok <==> old(n.next) == seen && !n.marked
    ensures n.next == if ok then to else old(n.next)
  {
    ok := n.next == seen && !n.marked;
    if ok { n.next := to; }
  }

  method CasMark<V>(n: Node<V>, seen: Node?<V>) returns (ok: bool)
    modifies n`marked
    ensures ok <==> n.next == seen && !old(n.marked)
    ensures n.marked == (ok || old(n.marked))
  {
    ok := n.next == seen && !n.marked;
    if ok { n.marked := true; }
  }

  // ---- chains ----

  /** Nodes of a chain are distinct, and interior keys increase. */
  ghost predicate Before<V>(ns: seq<Node<V>>, i: int, j: int)
    requires 0 <= i < j < |ns|
  {
    ns[i] != ns[j] && (0 < i && j < |ns| - 1 ==> ns[i].key < ns[j].key)
  }

  ghost predicate Increasing<V>(ns: seq<Node<V>>) {
    forall i, j {:trigger Before(ns, i, j)} :: 0 <= i < j < |ns| ==> Before(ns, i, j)
  }

  lemma {:induction false} Distinct<V>(ns: seq<Node<V>>, i: nat, j: nat)
    requires Increasing(ns) && i < j < |ns|
    ensures ns[i] != ns[j]
  {
    assert Before(ns, i, j);
  }

  ghost predicate Linked<V>(ns: seq<Node<V>>)
    reads ns`next
  {
    forall i {:trigger ns[i].next} :: 0 <= i < |ns| - 1 ==> ns[i].next == ns[i + 1]
  }

  /** `ns` is linked as soon as `left` points to `to`. */
  ghost predicate LinkedBut<V>(ns: seq<Node<V>>, left: Node<V>, to: Node<V>)
    reads ns`next
  {
    forall i {:trigger ns[i].next} :: 0 <= i < |ns| - 1 ==> (if ns[i] == left then to else ns[i].next) == ns[i + 1]
  }

  /** left and right at positions li and li + 1 stand on both sides of the key. */
  ghost predicate Around<V>(ns: seq<Node<V>>, dead: set<Node<V>>, li: nat, key: Int64) {
    && li + 1 < |ns|
    && (li == 0 || ns[li].key < key)
    && (li + 1 == |ns| - 1 || (ns[li + 1] !in dead && key <= ns[li + 1].key))
  }

  ghost predicate Hits<V>(ns: seq<Node<V>>, li: nat, key: Int64)
    requires li + 1 < |ns|
  {
    li + 1 < |ns| - 1 && ns[li + 1].key == key
  }

  ghost function Entries<V>(ns: seq<Node<V>>, dead: set<Node<V>>): seq<Entry<V>>
    requires |ns| >= 2
  {
    Live(ns[1..|ns| - 1], dead)
  }

  lemma {:induction false} LiveSorted<V>(ns: seq<Node<V>>, dead: set<Node<V>>, j: nat)
    requires Increasing(ns) && 1 <= j <= |ns| - 1
    ensures Sorted(Live(ns[1..j], dead))
    decreases j
  {
    if j > 1 {
      LiveSorted(ns, dead, j - 1);
      assert ns[1..j][..j - 2] == ns[1..j - 1];
      var a := Live(ns[1..j - 1], dead);
      forall i | 0 <= i < |a| ensures a[i].key < ns[j - 1].key {
        var k := LiveFrom(ns[1..j - 1], dead, a[i]);
        assert Before(ns, k + 1, j - 1);
      }
    }
  }

  /** What stands before and after the place of the key. */
  ghost function Left<V>(ns: seq<Node<V>>, dead: set<Node<V>>, i: nat): seq<Entry<V>>
    requires 1 <= i <= |ns|
  {
    Live(ns[1..i], dead)
  }

  ghost function Right<V>(ns: seq<Node<V>>, dead: set<Node<V>>, i: nat): seq<Entry<V>>
    requires i <= |ns| - 1
  {
    Live(ns[i..|ns| - 1], dead)
  }

  lemma {:induction false} LeftRight<V>(ns: seq<Node<V>>, dead: set<Node<V>>, i: nat)
    requires |ns| >= 2 && 1 <= i <= |ns| - 1
    ensures Entries(ns, dead) == Left(ns, dead, i) + Right(ns, dead, i)
  {
    assert ns[1..|ns| - 1] == ns[1..i] + ns[i..|ns| - 1];
    LiveConcat(ns[1..i], ns[i..|ns| - 1], dead);
  }

  lemma {:induction false} RightFirst<V>(ns: seq<Node<V>>, dead: set<Node<V>>, i: nat)
    requires i < |ns| - 1
    ensures Right(ns, dead, i) == One(ns[i], dead) + Right(ns, dead, i + 1)
  {
    assert ns[i..|ns| - 1] == [ns[i]] + ns[i + 1..|ns| - 1];
    LiveConcat([ns[i]], ns[i + 1..|ns| - 1], dead);
    LiveOne(ns[i], dead);
  }

  lemma {:induction false} LeftBelow<V>(ns: seq<Node<V>>, dead: set<Node<V>>, li: nat, key: Int64, j: nat)
    requires Increasing(ns) && Around(ns, dead, li, key) && j < |Left(ns, dead, li + 1)|
    ensures Left(ns, dead, li + 1)[j].key < key
  {
    var k := LiveFrom(ns[1..li + 1], dead, Left(ns, dead, li + 1)[j]);
    if k + 1 < li { assert Before(ns, k + 1, li); }
  }

  /** The search position of the key in the entries. */
  lemma {:induction false} EntriesAround<V>(ns: seq<Node<V>>, dead: set<Node<V>>, li: nat, key: Int64)
    requires |ns| >= 2 && Increasing(ns) && Around(ns, dead, li, key)
    ensures var a, b := Left(ns, dead, li + 1), Right(ns, dead, li + 1);
            && Entries(ns, dead) == a + b && Find(a + b, key) == |a| && (Hit(a + b, key) <==> Hits(ns, li, key))
  {
    var a, b := Left(ns, dead, li + 1), Right(ns, dead, li + 1);
    LeftRight(ns, dead, li + 1);
    var ab := a + b;
    forall j: nat | j < |a| ensures ab[j].key < key { LeftBelow(ns, dead, li, key, j); }
    if li + 1 < |ns| - 1 {
      RightFirst(ns, dead, li + 1);
    } else {
      assert b == [];
    }
    FindUnique(ab, key, |a|);
  }

  // ---- the two ways a chain changes ----

  /** The chain without positions li + 1 .. c - 1. */
  ghost function Cut<V>(ns: seq<Node<V>>, li: nat, c: nat): seq<Node<V>>
    requires li < c < |ns|
  {
    ns[..li + 1] + ns[c..]
  }

  function CutPos(li: nat, c: nat, i: nat): nat
    requires li < c
  {
    if i <= li then i else i - li - 1 + c
  }

  lemma {:induction false} CutIncreasing<V>(ns: seq<Node<V>>, li: nat, c: nat)
    requires Increasing(ns) && li < c < |ns|
    ensures Increasing(Cut(ns, li, c))
  {
    forall i, j | 0 <= i < j < |Cut(ns, li, c)| ensures Before(Cut(ns, li, c), i, j) {
      assert Before(ns, CutPos(li, c, i), CutPos(li, c, j));
    }
  }

  lemma {:induction false} CutLinked<V>(ns: seq<Node<V>>, li: nat, c: nat)
    requires Increasing(ns) && Linked(ns) && li < c < |ns|
    ensures LinkedBut(Cut(ns, li, c), ns[li], ns[c])
  {
    var ns' := Cut(ns, li, c);
    forall i | 0 <= i < |ns'| - 1 ensures (if ns'[i] == ns[li] then ns[c] else ns'[i].next) == ns'[i + 1] {
      var o := CutPos(li, c, i);
      assert ns'[i] == ns[o] && ns[o].next == ns[o + 1];
      if i < li { assert Before(ns, i, li); }
      if i > li { assert Before(ns, li, o); }
    }
  }

  lemma {:induction false} CutSlices<V>(ns: seq<Node<V>>, li: nat, c: nat)
    requires li < c < |ns|
    ensures |Cut(ns, li, c)| == |ns| + li + 1 - c >= 2
    ensures ns[1..|ns| - 1] == ns[1..li + 1] + (ns[li + 1..c] + ns[c..|ns| - 1])
    ensures Cut(ns, li, c)[1..|ns| + li - c] == ns[1..li + 1] + ns[c..|ns| - 1]
  {}

  lemma {:induction false} LiveMiddle<V>(a: seq<Node<V>>, m: seq<Node<V>>, b: seq<Node<V>>, dead: set<Node<V>>)
    ensures Live(a + (m + b), dead) == Live(a, dead) + (Live(m, dead) + Live(b, dead))
  {
    LiveConcat(a, m + b, dead);
    LiveConcat(m, b, dead);
  }

  lemma {:induction false} DropDead<V>(a: seq<Node<V>>, m: seq<Node<V>>, b: seq<Node<V>>, dead: set<Node<V>>)
    requires forall n :: n in m ==> n in dead
    ensures Live(a + (m + b), dead) == Live(a + b, dead)
  {
    LiveMiddle(a, m, b, dead);
    LiveOfDead(m, dead);
    LiveConcat(a, b, dead);
  }

  /** Dropping dead nodes changes no live entry. */
  lemma {:induction false} CutEntries<V>(ns: seq<Node<V>>, dead: set<Node<V>>, li: nat, c: nat)
    requires li < c < |ns| && forall n :: n in ns[li + 1..c] ==> n in dead
    ensures |Cut(ns, li, c)| >= 2 && Entries(Cut(ns, li, c), dead) == Entries(ns, dead)
  {
    CutSlices(ns, li, c);
    DropDead(ns[1..li + 1], ns[li + 1..c], ns[c..|ns| - 1], dead);
  }

  /** The chain with `n` between positions li and li + 1. */
  ghost function With<V>(ns: seq<Node<V>>, li: nat, n: Node<V>): seq<Node<V>>
    requires li + 1 < |ns|
  {
    ns[..li + 1] + [n] + ns[li + 1..]
  }

  lemma {:induction false} WithIncreasing<V>(ns: seq<Node<V>>, dead: set<Node<V>>, li: nat, n: Node<V>)
    requires Increasing(ns) && Around(ns, dead, li, n.key) && !Hits(ns, li, n.key) && n !in ns
    ensures Increasing(With(ns, li, n))
  {
    var ns' := With(ns, li, n);
    forall i, j | 0 <= i < j < |ns'| ensures Before(ns', i, j) {
      var oi, oj := if i <= li then i else i - 1, if j <= li then j else j - 1;
      if i == li + 1 {
        assert ns'[j] == ns[oj] && (oj == li + 1 || Before(ns, li + 1, oj));
      } else if j == li + 1 {
        assert ns'[i] == ns[oi] && (oi == li || Before(ns, oi, li));
      } else {
        assert Before(ns, oi, oj);
      }
    }
  }

  lemma {:induction false} WithLinked<V>(ns: seq<Node<V>>, li: nat, n: Node<V>)
    requires Linked(ns) && li + 1 < |ns| && Increasing(With(ns, li, n)) && n.next == ns[li + 1]
    ensures LinkedBut(With(ns, li, n), ns[li], n)
  {
    var ns' := With(ns, li, n);
    forall i | 0 <= i < |ns'| - 1 ensures (if ns'[i] == ns[li] then n else ns'[i].next) == ns'[i + 1] {
      if i < li { assert Before(ns', i, li) && ns[i].next == ns[i + 1]; }
      if i > li { assert Before(ns', li, i); }
      if i > li + 1 { assert ns[i - 1].next == ns[i]; }
    }
  }

  lemma {:induction false} WithSlices<V>(ns: seq<Node<V>>, li: nat, n: Node<V>)
    requires li + 1 < |ns|
    ensures With(ns, li, n)[1..|ns|] == ns[1..li + 1] + ([n] + ns[li + 1..|ns| - 1])
  {
    var a, b := ns[1..li + 1], ns[li + 1..|ns| - 1];
    assert ns[..li + 1] == [ns[0]] + a && ns[li + 1..] == b + [ns[|ns| - 1]];
    assert With(ns, li, n) == [ns[0]] + (a + ([n] + b)) + [ns[|ns| - 1]];
  }

  lemma {:induction false} WithLive<V>(ns: seq<Node<V>>, dead: set<Node<V>>, li: nat, n: Node<V>)
    requires li + 1 < |ns| && n !in dead
    ensures Entries(With(ns, li, n), dead) == Left(ns, dead, li + 1) + ([Entry(n.key, n.data)] + Right(ns, dead, li + 1))
  {
    WithSlices(ns, li, n);
    LiveMiddle(ns[1..li + 1], [n], ns[li + 1..|ns| - 1], dead);
    LiveOne(n, dead);
  }

  lemma {:induction false} WithEntries<V>(ns: seq<Node<V>>, dead: set<Node<V>>, li: nat, n: Node<V>)
    requires |ns| >= 2 && Increasing(ns) && Around(ns, dead, li, n.key) && !Hits(ns, li, n.key) && n !in dead
    ensures Entries(With(ns, li, n), dead) == Insert(Entries(ns, dead), n.key, n.data)
    ensures !Hit(Entries(ns, dead), n.key)
  {
    EntriesAround(ns, dead, li, n.key);
    InsertAt(Left(ns, dead, li + 1), Right(ns, dead, li + 1), n.key, n.data);
    WithLive(ns, dead, li, n);
  }

  lemma {:induction false} OnlyOnce<V>(ns: seq<Node<V>>, i: nat)
    requires Increasing(ns) && 1 <= i < |ns| - 1
    ensures ns[i] !in ns[1..i] && ns[i] !in ns[i + 1..|ns| - 1]
  {
    forall k: nat | k < |ns| && k != i ensures ns[k] != ns[i] {
      if k < i { Distinct(ns, k, i); } else { Distinct(ns, i, k); }
    }
  }

  /** Marking position i takes its entry out. */
  lemma {:induction false} MarkSplits<V>(ns: seq<Node<V>>, dead: set<Node<V>>, i: nat)
    requires Increasing(ns) && 1 <= i < |ns| - 1
    ensures Entries(ns, dead + {ns[i]}) == Left(ns, dead, i) + Right(ns, dead, i + 1)
  {
    var x, dead' := ns[i], dead + {ns[i]};
    LeftRight(ns, dead', i);
    RightFirst(ns, dead', i);
    OnlyOnce(ns, i);
    LiveSame(ns[1..i], dead, x);
    LiveSame(ns[i + 1..|ns| - 1], dead, x);
    assert [] + Right(ns, dead, i + 1) == Right(ns, dead, i + 1);
  }

  /** Marking the hit removes its entry. */
  lemma {:induction false} DeadEntries<V>(ns: seq<Node<V>>, dead: set<Node<V>>, li: nat, key: Int64)
    requires |ns| >= 2 && Increasing(ns) && Around(ns, dead, li, key) && Hits(ns, li, key)
    ensures Hit(Entries(ns, dead), key)
    ensures Entries(ns, dead + {ns[li + 1]}) == Remove(Entries(ns, dead), key)
    ensures Lookup(Entries(ns, dead), key) == Some(ns[li + 1].data)
  {
    var x := ns[li + 1];
    EntriesAround(ns, dead, li, key);
    RightFirst(ns, dead, li + 1);
    RemoveAt(Left(ns, dead, li + 1), Entry(x.key, x.data), Right(ns, dead, li + 2), key);
    MarkSplits(ns, dead, li + 1);
  }

  class LfList<V> {
    const head: Node<V>
    const tail: Node<V>
    ghost var chain: seq<Node<V>> // from head to tail, marked nodes included
    ghost var dead: set<Node<V>>  // the marked ones
    ghost var freed: set<Node<V>>
    ghost var repr: set<Node<V>>  // every node that was ever in the chain

    ghost predicate Valid()
      reads this, chain
    {
      && |chain| >= 2 && chain[0] == head && chain[|chain| - 1] == tail
      && Increasing(chain) && Linked(chain)
      && head !in dead && tail !in dead
      && (forall n :: n in chain ==> n in repr && n !in freed && (n.marked <==> n in dead))
    }

    /** No deletion is half done. */
    ghost predicate Clean()
      reads this
    {
      forall n :: n in chain ==> n !in dead
    }

    ghost function Contents(): seq<Entry<V>>
      requires |chain| >= 2
      reads this
    {
      Entries(chain, dead)
    }

    lemma {:induction false} ContentsSorted()
      requires Valid()
      ensures Sorted(Contents())
    {
      LiveSorted(chain, dead, |chain| - 1);
    }

    constructor (nil: V)
      ensures Valid() && Clean() && Contents() == [] && freed == {} && fresh(repr)
    {
      var h := new Node(-0x8000_0000_0000_0000, nil);
      var t := new Node(0x7fff_ffff_ffff_ffff, nil);
      h.next := t;
      head, tail := h, t;
      chain, dead, freed, repr := [h, t], {}, {}, {h, t};
    }

    // ---- inner_search ----

    /** What the traversal knows: everything between left and position `c` is marked. */
    ghost predicate Walk(left: Node<V>, leftNext: Node?<V>, li: nat, c: nat, key: Int64)
      reads this, chain
    {
      && li < c < |chain| && chain[li] == left && leftNext == chain[li + 1] && left !in dead
      && (li == 0 || left.key < key)
      && (forall i :: li < i < c ==> chain[i] in dead)
    }

    /** The do-while loop of inner_search. */
    method Traverse(key: Int64) returns (left: Node<V>, leftNext: Node?<V>, t: Node<V>, ghost li: nat, ghost c: nat)
      requires Valid()
      ensures Walk(left, leftNext, li, c, key) && t == chain[c]
      ensures if t == tail then c == |chain| - 1 else c < |chain| - 1 && !t.marked && key <= t.key
    {
      var cur, tNext, tMark := head, head.next, head.marked;
      left, leftNext, t, li, c := head, head.next, tail, 0, 1;
      ghost var pos := 0;
      var more := true;
      while more
        invariant pos < |chain| && cur == chain[pos]
        invariant more ==> pos < |chain| - 1 && tNext == cur.next && tMark == cur.marked
        invariant more ==> (if tMark then pos > 0 else pos == 0 || cur.key < key)
        invariant pos > 0 ==> Walk(left, leftNext, li, pos, key)
        invariant !more ==> pos > 0
        invariant !more ==> if cur == tail then pos == |chain| - 1 else pos < |chain| - 1 && !cur.marked && key <= cur.key
        decreases |chain| - pos, more
      {
        if !tMark {
          left, leftNext, li := cur, tNext, pos;
        }
        cur := tNext;
        pos := pos + 1;
        if pos < |chain| - 1 { assert Before(chain, pos, |chain| - 1); }
        if cur == tail {
          more := false;
        } else {
          tNext, tMark := cur.next, cur.marked;
          more := tMark || cur.key < key;
        }
      }
      t, c := cur, pos;
    }

    /** The CAS on left->next: on one thread it never fails. */
    method Redirect(left: Node<V>, seen: Node?<V>, to: Node<V>, ghost ns: seq<Node<V>>) returns (ok: bool)
      requires Valid() && left in chain && left !in dead && left.next == seen
      requires |ns| >= 2 && ns[0] == head && ns[|ns| - 1] == tail && Increasing(ns) && LinkedBut(ns, left, to)
      requires forall n :: n in ns ==> n in repr && n !in freed && (n.marked <==> n in dead)
      modifies left`next, this`chain
      ensures ok && Valid() && chain == ns
    {
      ok := CasNext(left, seen, to);
      chain := ns;
    }

    /** Snip the marked run between left and position c out of the chain. */
    method Snip(left: Node<V>, leftNext: Node?<V>, t: Node<V>, ghost li: nat, ghost c: nat, ghost key: Int64) returns (ok: bool)
      requires Valid() && Walk(left, leftNext, li, c, key) && t == chain[c]
      modifies left`next, this`chain
      ensures ok && Valid() && chain == old(Cut(chain, li, c)) && Contents() == old(Contents())
    {
      CutIncreasing(chain, li, c);
      CutLinked(chain, li, c);
      CutEntries(chain, dead, li, c);
      ok := Redirect(left, leftNext, t, Cut(chain, li, c));
    }

    /** Lines 146 to 160: compare, snip if needed, and look at right once more. */
    method Arrive(left: Node<V>, leftNext: Node?<V>, right: Node<V>, ghost li: nat, ghost c: nat, ghost key: Int64) returns (done: bool)
      requires Valid() && Walk(left, leftNext, li, c, key) && right == chain[c]
      requires if right == tail then c == |chain| - 1 else c < |chain| - 1 && !right.marked && key <= right.key
      modifies left`next, this`chain
      ensures done && Valid() && Contents() == old(Contents())
      ensures chain == old(Cut(chain, li, c))
      ensures Around(chain, dead, li, key) && chain[li] == left && chain[li + 1] == right
    {
      if li + 1 < c { Distinct(chain, li + 1, c); }
      if leftNext == right {
        assert chain == Cut(chain, li, c);
        done := right == tail || !right.marked;
      } else {
        var ok := Snip(left, leftNext, right, li, c, key);
        done := ok && (right == tail || !right.marked);
      }
    }

    /** inner_search: left and right end up as neighbours around the key.  One pass is enough here. */
    method InnerSearch(key: Int64) returns (left: Node<V>, right: Node<V>, ghost li: nat)
      requires Valid()
      modifies repr`next, this`chain
      ensures Valid() && Contents() == old(Contents())
      ensures Around(chain, dead, li, key) && chain[li] == left && chain[li + 1] == right && left !in dead
      ensures right == tail <==> li + 1 == |chain| - 1
      ensures forall n :: n in chain ==> n in old(chain)
    {
      var done := false;
      left, right, li := head, tail, 0;
      while !done
        invariant Valid() && Contents() == old(Contents()) && forall n :: n in chain ==> n in old(chain)
        invariant done ==> Around(chain, dead, li, key) && chain[li] == left && chain[li + 1] == right && left !in dead
        decreases if done then 0 else 1
      {
        var leftNext;
        ghost var c;
        left, leftNext, right, li, c := Traverse(key);
        assert left in chain;
        done := Arrive(left, leftNext, right, li, c, key);
      }
      if li + 1 < |chain| - 1 { Distinct(chain, li + 1, |chain| - 1); }
    }

    // ---- the three operations ----

    /** free(): a node is handed back once. */
    method FreeNode(n: Node<V>)
      requires n !in freed
      modifies this`freed
      ensures freed == old(freed) + {n}
    {
      freed := freed + {n};
    }

    /** Lines 74 and 75: link the new node and publish it. */
    method PutBetween(left: Node<V>, right: Node<V>, node: Node<V>, ghost li: nat) returns (ok: bool)
      requires Valid() && Around(chain, dead, li, node.key) && !Hits(chain, li, node.key)
      requires chain[li] == left && chain[li + 1] == right && left !in dead
      requires node !in chain && node !in dead && node !in freed && !node.marked
      modifies node`next, left`next, this`chain, this`repr
      ensures ok && Valid() && chain == old(With(chain, li, node)) && repr == old(repr) + {node}
      ensures Contents() == Insert(old(Contents()), node.key, node.data) && !Hit(old(Contents()), node.key)
    {
      WithIncreasing(chain, dead, li, node);
      WithEntries(chain, dead, li, node);
      node.next := right;
      WithLinked(chain, li, node);
      repr := repr + {node};
      ok := Redirect(left, right, node, With(chain, li, node));
    }

    /** One round of the insert loop: search, then give up or publish. */
    method TryInsert(node: Node<V>) returns (present: bool, done: bool)
      requires Valid() && node !in chain && node !in dead && node !in freed && node !in repr && !node.marked
      modifies node`next, this`chain, this`repr, repr`next
      ensures Valid() && present == Hit(old(Contents()), node.key) && done == !present
      ensures Contents() == Insert(old(Contents()), node.key, node.data)
      ensures repr == if present then old(repr) else old(repr) + {node}
      ensures forall n :: n in chain ==> n in old(chain) || n == node
    {
      var left, right;
      ghost var li;
      left, right, li := InnerSearch(node.key);
      present := right != tail && right.key == node.key;
      done := false;
      assert present == Hits(chain, li, node.key);
      assert present == Hit(Contents(), node.key) by { EntriesAround(chain, dead, li, node.key); }
      if !present {
        assert node !in chain && left in chain;
        done := PutBetween(left, right, node, li);
      }
    }

    method InsertKey(key: Int64, data: V) returns (ret: int)
      requires Valid()
      modifies this`chain, this`freed, this`repr, repr`next
      ensures Valid() && Contents() == Insert(old(Contents()), key, data)
      ensures ret == if Hit(old(Contents()), key) then -1 else 0
      ensures old(Clean()) ==> Clean()
      ensures fresh(repr - old(repr))
      ensures ret == 0 ==> freed == old(freed)
      ensures ret == -1 ==> exists n :: fresh(n) && freed == old(freed) + {n}
    {
      var node := new Node(key, data);
      var done := false;
      ret := 0;
      while !done
        invariant Valid() && freed == old(freed) && !node.marked && node !in dead && node !in freed
        invariant forall n :: n in chain ==> n in old(chain) || n == node
        invariant if done then repr == old(repr) + {node} else repr == old(repr)
        invariant done ==> !Hit(old(Contents()), key) && Contents() == Insert(old(Contents()), key, data)
        invariant !done ==> Contents() == old(Contents())
        decreases if done then 0 else 1
      {
        var present;
        present, done := TryInsert(node);
        if present {
          FreeNode(node);
          return -1;
        }
      }
    }

    /** Lines 101 to 104: unlink the marked node and free it.  The CAS succeeds, so the second search of
        the source (line 102) never runs on one thread. */
    method UnlinkMarked(left: Node<V>, right: Node<V>, rightNext: Node<V>, ghost li: nat)
      requires Valid() && li + 2 < |chain| && chain[li] == left && chain[li + 1] == right && chain[li + 2] == rightNext
      requires left !in dead && right in dead
      modifies left`next, this`chain, this`freed
      ensures Valid() && Contents() == old(Contents())
      ensures chain == old(Cut(chain, li, li + 2)) && freed == old(freed) + {right}
    {
      CutIncreasing(chain, li, li + 2);
      CutLinked(chain, li, li + 2);
      CutEntries(chain, dead, li, li + 2);
      ghost var ns := Cut(chain, li, li + 2);
      forall i | 0 <= i < |ns| ensures ns[i] != right {
        if i <= li { Distinct(chain, i, li + 1); } else { Distinct(chain, li + 1, i + 1); }
      }
      var ok := Redirect(left, right, rightNext, ns);
      assert ok;
      FreeNode(right);
    }

    /** One round of the delete loop: search, then give up or mark. */
    method TryMark(key: Int64) returns (present: bool, marked: bool, left: Node<V>, right: Node<V>, rightNext: Node<V>, ghost li: nat)
      requires Valid()
      modifies this`chain, this`dead, repr`next, repr`marked
      ensures Valid() && present == marked == Hit(old(Contents()), key)
      ensures Contents() == Remove(old(Contents()), key)
      ensures dead == if present then old(dead) + {right} else old(dead)
      ensures present ==> li + 2 < |chain| && chain[li] == left && chain[li + 1] == right && chain[li + 2] == rightNext
      ensures present ==> left !in dead && right !in old(dead) && right.key == key
      ensures forall n :: n in chain ==> n in old(chain)
    {
      left, right, li := InnerSearch(key);
      rightNext, marked := right, false;
      present := right != tail && right.key == key;
      assert present == Hit(Contents(), key) by { EntriesAround(chain, dead, li, key); }
      if present {
        Distinct(chain, li, li + 1);
        assert Entries(chain, dead + {right}) == Remove(Contents(), key) by { DeadEntries(chain, dead, li, key); }
        rightNext := right.next;
        if !right.marked {
          marked := MarkHit(right, rightNext, li);
        }
      }
    }

    /** The CAS of line 95. */
    method MarkHit(right: Node<V>, rightNext: Node<V>, ghost li: nat) returns (ok: bool)
      requires Valid() && li + 2 < |chain| && chain[li + 1] == right && right.next == rightNext && right !in dead
      modifies right`marked, this`dead
      ensures ok && Valid() && dead == old(dead) + {right}
    {
      Distinct(chain, 0, li + 1);
      Distinct(chain, li + 1, |chain| - 1);
      ok := CasMark(right, rightNext);
      dead := dead + {right};
    }

    method DeleteKey(key: Int64) returns (ret: int)
      requires Valid()
      modifies this`chain, this`dead, this`freed, repr`next, repr`marked
      ensures Valid() && Contents() == Remove(old(Contents()), key)
      ensures ret == if Hit(old(Contents()), key) then 0 else -1
      ensures old(Clean()) ==> Clean()
      ensures ret == -1 ==> freed == old(freed)
      ensures ret == 0 ==> exists n :: n in old(chain) && n !in old(dead) && n.key == key && n !in chain && freed == old(freed) + {n}
    {
      ret := 0;
      var left, right, rightNext := head, tail, tail;
      ghost var li: nat := 0;
      var marked := false;
      while !marked
        invariant Valid() && freed == old(freed) && forall n :: n in chain ==> n in old(chain)
        invariant !marked ==> Contents() == old(Contents()) && dead == old(dead)
        invariant marked ==> li + 2 < |chain| && chain[li] == left && chain[li + 1] == right && chain[li + 2] == rightNext
        invariant marked ==> left !in dead && right !in old(dead) && right.key == key && dead == old(dead) + {right}
        invariant marked ==> Contents() == Remove(old(Contents()), key) && Hit(old(Contents()), key)
        decreases if marked then 0 else 1
      {
        var present;
        present, marked, left, right, rightNext, li := TryMark(key);
        if !present {
          return -1;
        }
      }
      assert left in chain;
      UnlinkMarked(left, right, rightNext, li);
    }

    method SearchKey(key: Int64) returns (r: Node?<V>)
      requires Valid()
      modifies this`chain, repr`next
      ensures Valid() && Contents() == old(Contents()) && freed == old(freed)
      ensures r == null <==> !Hit(Contents(), key)
      ensures r != null ==> r in chain && r.key == key && Lookup(Contents(), key) == Some(r.data)
      ensures old(Clean()) ==> Clean()
    {
      var left, right;
      ghost var li;
      left, right, li := InnerSearch(key);
      EntriesAround(chain, dead, li, key);
      if right == tail || right.key != key {
        r := null;
      } else {
        DeadEntries(chain, dead, li, key);
        r := right;
      }
    }

    /** lmvs_lflist_free releases every node that is still linked, once. */
    method FreeAll()
      requires Valid()
      modifies this`freed
      ensures freed == old(freed) + set n | n in chain
    {
      var cur := head.next;
      ghost var c := 1;
      while cur != tail
        invariant 1 <= c < |chain| && chain[c] == cur
        invariant freed == old(freed) + set n | n in chain[1..c]
        decreases |chain| - c
      {
        if c < |chain| - 1 { Distinct(chain, c, |chain| - 1); }
        var tmp := cur.next;
        forall i | 1 <= i < c ensures chain[i] != cur { Distinct(chain, i, c); }
        FreeNode(cur);
        assert chain[1..c + 1] == chain[1..c] + [cur];
        cur := tmp;
        c := c + 1;
      }
      if c < |chain| - 1 { Distinct(chain, c, |chain| - 1); }
      forall i | 1 <= i < |chain| ensures chain[i] != head { Distinct(chain, 0, i); }
      forall i | 0 <= i < c ensures chain[i] != tail { Distinct(chain, i, c); }
      FreeNode(head);
      FreeNode(tail);
      assert chain == [head] + chain[1..c] + [tail];
    }
  }
}
