/** What every single step keeps: the shape of the heap, what each thread knows about it, and the effect
    (or absence of one) on the abstract map. */
module LfListInvariant {
  import opened Types
  import opened LfListModel

  // ---- the heap ----

  ghost predicate IsShared(h: Heap, a: Addr) { Valid(h, a) && h[a].owner.Shared? }

  /** The strict order of the list; the sentinels count by address, not by key. */
  ghost predicate Lt(h: Heap, a: Addr, b: Addr)
    requires Valid(h, a) && Valid(h, b)
  {
    a != TAIL && b != HEAD && (a == HEAD || b == TAIL || h[a].key < h[b].key)
  }

  /** The `next` pointer of a shared node leads upwards to a shared node, marked or not. */
  ghost predicate Edge(h: Heap, a: Addr)
    requires Valid(h, a)
  {
    var n := h[a].next.ptr;
    IsShared(h, n) && Lt(h, a, n)
  }

  /** `p` is what a walk along `next` from head to tail visits. */
  ghost predicate IsPath(h: Heap, p: seq<Addr>) {
    && |p| >= 2 && p[0] == HEAD && p[|p| - 1] == TAIL
    && forall i :: 0 <= i < |p| - 1 ==> IsShared(h, p[i]) && p[i] != TAIL && h[p[i]].next.ptr == p[i + 1]
  }

  ghost predicate Covers(h: Heap, p: seq<Addr>) {
    forall a :: IsShared(h, a) && !h[a].next.mark ==> a in p
  }

  ghost predicate HeapShape(h: Heap) {
    && IsShared(h, HEAD) && IsShared(h, TAIL)
    && !h[HEAD].next.mark && h[TAIL].next == Word(NULL, false)
    && forall a {:trigger Edge(h, a)} :: IsShared(h, a) && a != TAIL ==> Edge(h, a)
  }

  ghost predicate HeapInv(h: Heap) {
    && HeapShape(h)
    && exists p :: IsPath(h, p) && Covers(h, p)
  }

  // ---- marked runs ----

  /** `q` is a chain of marked nodes, all but the last: a stretch of the list that is frozen forever. */
  ghost predicate IsFrozenChain(h: Heap, q: seq<Addr>) {
    && |q| >= 1
    && forall i :: 0 <= i < |q| - 1 ==> IsShared(h, q[i]) && h[q[i]].next == Word(q[i + 1], true)
  }

  ghost predicate MarkedRun(h: Heap, a: Addr, b: Addr) {
    exists q :: IsFrozenChain(h, q) && q[0] == a && q[|q| - 1] == b
  }

  lemma {:induction false} RunExtend(h: Heap, a: Addr, b: Addr)
    requires MarkedRun(h, a, b) && IsShared(h, b) && h[b].next.mark
    ensures MarkedRun(h, a, h[b].next.ptr)
  {
    var q :| IsFrozenChain(h, q) && q[0] == a && q[|q| - 1] == b;
    var q' := q + [h[b].next.ptr];
    assert IsFrozenChain(h, q') && q'[0] == a && q'[|q'| - 1] == h[b].next.ptr;
  }

  lemma {:induction false} RunEmpty(h: Heap, a: Addr)
    ensures MarkedRun(h, a, a)
  {
    assert IsFrozenChain(h, [a]) && [a][0] == a;
  }

  // ---- what the steps of other threads leave alone ----

  ghost predicate Rely(tid: Tid, h: Heap, h': Heap) {
    && |h| <= |h'|
    && (forall a :: Valid(h, a) ==> h'[a].key == h[a].key && h'[a].data == h[a].data)
    && (forall a :: IsShared(h, a) ==> IsShared(h', a))
    && (forall a :: IsShared(h, a) && h[a].next.mark ==> h'[a].next == h[a].next)
    && (forall a :: Valid(h, a) && h[a].owner == Private(tid) ==> h'[a] == h[a])
  }

  lemma {:induction false} RunStable(tid: Tid, h: Heap, h': Heap, a: Addr, b: Addr)
    requires Rely(tid, h, h') && MarkedRun(h, a, b)
    ensures MarkedRun(h', a, b)
  {
    var q :| IsFrozenChain(h, q) && q[0] == a && q[|q| - 1] == b;
    assert IsFrozenChain(h', q);
  }

  // ---- threads ----

  ghost predicate Interior(h: Heap, a: Addr) { IsShared(h, a) && a != HEAD && a != TAIL }

  /** `left_node` lies strictly below the key, `right_node` at or above it. */
  ghost predicate Below(h: Heap, a: Addr, k: Int64) { IsShared(h, a) && a != TAIL && (a == HEAD || h[a].key < k) }
  ghost predicate NotBelow(h: Heap, a: Addr, k: Int64) { IsShared(h, a) && a != HEAD && (a == TAIL || k <= h[a].key) }
  ghost predicate Above(h: Heap, a: Addr, k: Int64) { NotBelow(h, a, k) && (a == TAIL || h[a].key != k) }
  ghost predicate At(h: Heap, a: Addr, k: Int64) { Interior(h, a) && h[a].key == k }

  /** The node of a running insert is still its own. */
  ghost predicate OwnNode(h: Heap, tid: Tid, op: Op) {
    op.Insert? ==> Valid(h, op.node) && op.node != HEAD && op.node != TAIL
                   && h[op.node].owner == Private(tid) && h[op.node].key == op.key
  }

  ghost predicate ThreadInv(h: Heap, tid: Tid, th: Thread) {
    var k := th.op.key;
    && (!th.pc.Quiet? ==> OwnNode(h, tid, th.op) && (th.cleanup ==> th.op.Delete?))
    && match th.pc
       case Quiet(_) => true
       case ReadHead => true
       case ReadNext =>
         && Below(h, th.left, k) && Interior(h, th.t)
         && IsShared(h, th.leftNext) && th.leftNext != HEAD && MarkedRun(h, th.leftNext, th.t)
       case CheckRight => Below(h, th.left, k) && NotBelow(h, th.t, k) && th.t != TAIL
       case Snip =>
         && Below(h, th.left, k) && NotBelow(h, th.t, k)
         && th.leftNext != th.t && MarkedRun(h, th.leftNext, th.t)
       case LinkNew => th.op.Insert? && Below(h, th.left, k) && Above(h, th.t, k)
       case Publish =>
         th.op.Insert? && Below(h, th.left, k) && Above(h, th.t, k) && h[th.op.node].next == Word(th.t, false)
       case ReadRight => th.op.Delete? && !th.cleanup && Below(h, th.left, k) && At(h, th.t, k)
       case MarkRight => th.op.Delete? && !th.cleanup && Below(h, th.left, k) && At(h, th.t, k)
       case Unlink =>
         && th.op.Delete? && !th.cleanup && Below(h, th.left, k) && At(h, th.t, k)
         && h[th.t].next == Word(th.rightNext, true)
  }

  /** Nobody invalidates what another thread knows. */
  lemma {:induction false} ThreadInvStable(tid: Tid, h: Heap, h': Heap, th: Thread)
    requires ThreadInv(h, tid, th) && Rely(tid, h, h')
    ensures ThreadInv(h', tid, th)
  {
    if th.pc == ReadNext || th.pc == Snip { RunStable(tid, h, h', th.leftNext, th.t); }
  }

  // ---- paths ----

  /** A path is sorted, hence visits no node twice. */
  lemma {:induction false} PathSorted(h: Heap, p: seq<Addr>, i: int, j: int)
    requires HeapShape(h) && IsPath(h, p) && 0 <= i < j < |p|
    ensures Valid(h, p[i]) && Valid(h, p[j]) && Lt(h, p[i], p[j])
    decreases j - i
  {
    assert Edge(h, p[i]);
    if j > i + 1 { PathSorted(h, p, i + 1, j); }
  }

  /** From the same node on, a path repeats a marked run node by node. */
  lemma {:induction false} PathFollowsRun(h: Heap, p: seq<Addr>, i: int, q: seq<Addr>, j: int)
    requires HeapShape(h) && IsPath(h, p) && IsFrozenChain(h, q)
    requires 0 <= i < |p| && p[i] == q[0] && 0 <= j < |q|
    ensures i + j < |p| && p[i + j] == q[j]
    decreases j
  {
    if j > 0 {
      PathFollowsRun(h, p, i, q, j - 1);
      assert h[q[j - 1]].next == Word(q[j], true);
    }
  }

  /** There is only one path. */
  lemma {:induction false} PathUnique(h: Heap, p: seq<Addr>, p': seq<Addr>, i: nat)
    requires IsPath(h, p) && IsPath(h, p') && i < |p|
    ensures i < |p'| && p[i] == p'[i]
  {
    if i > 0 { PathUnique(h, p, p', i - 1); }
  }

  lemma {:induction false} PathsEqual(h: Heap, p: seq<Addr>, p': seq<Addr>)
    requires IsPath(h, p) && IsPath(h, p')
    ensures p == p'
  {
    PathUnique(h, p, p', |p| - 1);
    PathUnique(h, p', p, |p'| - 1);
    forall i | 0 <= i < |p| ensures p[i] == p'[i] { PathUnique(h, p, p', i); }
  }

  // ---- the writes ----

  ghost function PublishHeap(h: Heap, left: Addr, node: Addr): Heap
    requires Valid(h, left) && Valid(h, node)
  {
    Store(h[node := h[node].(owner := Shared)], left, Word(node, false))
  }

  lemma {:induction false} PublishGrowsPath(h: Heap, p: seq<Addr>, i: nat, node: Addr)
    requires HeapShape(h) && IsPath(h, p) && i < |p| - 1
    requires Valid(h, node) && !IsShared(h, node) && h[node].next.ptr == p[i + 1]
    ensures IsPath(PublishHeap(h, p[i], node), p[..i + 1] + [node] + p[i + 1..])
  {
    var h' := PublishHeap(h, p[i], node);
    var p' := p[..i + 1] + [node] + p[i + 1..];
    forall j | 0 <= j < |p'| - 1
      ensures IsShared(h', p'[j]) && p'[j] != TAIL && h'[p'[j]].next.ptr == p'[j + 1]
    {
      if j < i { PathSorted(h, p, j, i); }
      if j > i + 1 { assert p'[j] == p[j - 1]; PathSorted(h, p, i, j - 1); }
    }
  }

  lemma {:induction false} PublishKeepsHeap(h: Heap, left: Addr, node: Addr, right: Addr)
    requires HeapInv(h) && IsShared(h, left) && left != TAIL && h[left].next == Word(right, false)
    requires Valid(h, node) && !IsShared(h, node) && h[node].next == Word(right, false)
    requires Valid(h, right) && Lt(h, left, node) && Lt(h, node, right)
    ensures HeapInv(PublishHeap(h, left, node))
  {
    var h' := PublishHeap(h, left, node);
    var p :| IsPath(h, p) && Covers(h, p);
    var i :| 0 <= i < |p| && p[i] == left;
    PublishGrowsPath(h, p, i, node);
    var p' := p[..i + 1] + [node] + p[i + 1..];
    assert Edge(h, left);
    forall a | IsShared(h', a) && a != TAIL ensures Edge(h', a) {
      if a != node { assert IsShared(h, a) && Edge(h, a); }
    }
    assert Covers(h', p') by { assert forall a :: a == node || a in p ==> a in p'; }
  }

  /** The path without the run that starts behind position `i`. */
  ghost function Cut(p: seq<Addr>, i: nat, n: nat): seq<Addr>
    requires i + n < |p|
  {
    p[..i + 1] + p[i + n..]
  }

  lemma {:induction false} SnipCutsPath(h: Heap, p: seq<Addr>, i: nat, n: nat, right: Addr)
    requires HeapShape(h) && IsPath(h, p) && 1 <= n && i + n < |p| && p[i + n] == right
    ensures IsShared(h, p[i]) && IsPath(Store(h, p[i], Word(right, false)), Cut(p, i, n))
  {
    var h' := Store(h, p[i], Word(right, false));
    var p' := Cut(p, i, n);
    forall j | 0 <= j < |p'| - 1
      ensures IsShared(h', p'[j]) && p'[j] != TAIL && h'[p'[j]].next.ptr == p'[j + 1]
    {
      if j < i { PathSorted(h, p, j, i); }
      if j > i { assert p'[j] == p[j - 1 + n]; PathSorted(h, p, i, j - 1 + n); }
    }
  }

  lemma {:induction false} RunIsMarked(h: Heap, q: seq<Addr>, i: int)
    requires IsFrozenChain(h, q) && 0 <= i < |q| - 1
    ensures Valid(h, q[i]) && h[q[i]].next.mark
  {
    assert h[q[i]].next == Word(q[i + 1], true);
  }

  lemma {:induction false} SnipCutsMarked(h: Heap, p: seq<Addr>, i: nat, q: seq<Addr>, a: Addr)
    requires HeapShape(h) && IsPath(h, p) && IsFrozenChain(h, q) && i + |q| < |p| && p[i + 1] == q[0]
    requires a in p && Valid(h, a) && !h[a].next.mark
    ensures a in Cut(p, i, |q|)
  {
    var j :| 0 <= j < |p| && p[j] == a;
    if i < j < i + |q| {
      PathFollowsRun(h, p, i + 1, q, j - i - 1);
      RunIsMarked(h, q, j - i - 1);
    } else {
      assert Cut(p, i, |q|)[if j <= i then j else j - |q| + 1] == a;
    }
  }

  /** Cutting a frozen marked run of any length out of the list. */
  lemma {:induction false} SnipKeepsHeap(h: Heap, left: Addr, q: seq<Addr>)
    requires HeapInv(h) && IsShared(h, left) && left != TAIL && IsFrozenChain(h, q) && h[left].next == Word(q[0], false)
    requires IsShared(h, q[|q| - 1]) && Lt(h, left, q[|q| - 1])
    ensures HeapInv(Store(h, left, Word(q[|q| - 1], false)))
  {
    var h' := Store(h, left, Word(q[|q| - 1], false));
    var p :| IsPath(h, p) && Covers(h, p);
    var i :| 0 <= i < |p| && p[i] == left;
    PathFollowsRun(h, p, i + 1, q, |q| - 1);
    SnipCutsPath(h, p, i, |q|, q[|q| - 1]);
    forall a | IsShared(h', a) && a != TAIL ensures Edge(h', a) {
      assert IsShared(h, a) && Edge(h, a);
    }
    forall a | IsShared(h', a) && !h'[a].next.mark ensures a in Cut(p, i, |q|) {
      SnipCutsMarked(h, p, i, q, a);
    }
  }

  lemma {:induction false} MarkKeepsHeap(h: Heap, a: Addr)
    requires HeapInv(h) && Interior(h, a)
    ensures HeapInv(Store(h, a, Word(h[a].next.ptr, true)))
  {
    var h' := Store(h, a, Word(h[a].next.ptr, true));
    var p :| IsPath(h, p) && Covers(h, p);
    forall b | IsShared(h', b) && b != TAIL ensures Edge(h', b) { assert Edge(h, b); }
    assert IsPath(h', p) && Covers(h', p);
  }

  /** Writes to private nodes and allocations do not touch the list. */
  lemma {:induction false} PrivateKeepsHeap(h: Heap, h': Heap)
    requires HeapInv(h) && |h| <= |h'|
    requires forall a :: IsShared(h', a) <==> IsShared(h, a)
    requires forall a :: IsShared(h, a) ==> h'[a] == h[a]
    ensures HeapInv(h')
  {
    var p :| IsPath(h, p) && Covers(h, p);
    forall b | IsShared(h', b) && b != TAIL ensures Edge(h', b) { assert Edge(h, b); }
    assert IsPath(h', p) && Covers(h', p);
  }

  // ---- one step ----

  /** A thread that satisfies its invariant never follows a wild pointer. */
  lemma {:induction false} StepIsSafe(h: Heap, tid: Tid, th: Thread)
    requires HeapInv(h) && ThreadInv(h, tid, th)
    ensures Safe(h, th)
  {
    if th.pc == ReadHead { assert Edge(h, HEAD); }
    if th.pc == ReadNext { assert Edge(h, th.t); }
  }

  /** No step disturbs what any other thread relies on. */
  lemma {:induction false} StepIsPolite(h: Heap, tid: Tid, th: Thread, other: Tid)
    requires HeapInv(h) && ThreadInv(h, tid, th) && Safe(h, th) && other != tid
    ensures Rely(other, h, HeapAfter(h, th))
  {}

  lemma {:induction false} StepKeepsHeap(h: Heap, tid: Tid, th: Thread)
    requires HeapInv(h) && ThreadInv(h, tid, th) && Safe(h, th)
    ensures HeapInv(HeapAfter(h, th))
  {
    match th.pc {
      case Snip =>
        if Expect(h, th.left, th.leftNext) {
          var q :| IsFrozenChain(h, q) && q[0] == th.leftNext && q[|q| - 1] == th.t;
          SnipKeepsHeap(h, th.left, q);
        }
      case LinkNew => PrivateKeepsHeap(h, HeapAfter(h, th));
      case Publish => if Expect(h, th.left, th.t) { PublishKeepsHeap(h, th.left, th.op.node, th.t); }
      case MarkRight => if Expect(h, th.t, th.rightNext) { MarkKeepsHeap(h, th.t); }
      case Unlink =>
        if Expect(h, th.left, th.t) {
          assert Edge(h, th.t);
          assert IsFrozenChain(h, [th.t, th.rightNext]);
          SnipKeepsHeap(h, th.left, [th.t, th.rightNext]);
        }
      case _ =>
    }
  }

  lemma {:induction false} AdvanceKeepsThread(h: Heap, tid: Tid, th: Thread, cur: Addr, w: Word)
    requires HeapInv(h) && OwnNode(h, tid, th.op) && (th.cleanup ==> th.op.Delete?)
    requires IsShared(h, cur) && cur != TAIL && h[cur].next == w
    requires if w.mark
             then Below(h, th.left, th.op.key) && IsShared(h, th.leftNext) && th.leftNext != HEAD && MarkedRun(h, th.leftNext, cur)
             else Below(h, cur, th.op.key)
    ensures Valid(h, w.ptr) && ThreadInv(h, tid, Advance(h, th, cur, w))
  {
    assert Edge(h, cur);
    if w.mark { RunExtend(h, th.leftNext, cur); } else { RunEmpty(h, w.ptr); }
  }

  lemma {:induction false} SearchKeepsThread(h: Heap, tid: Tid, th: Thread)
    requires HeapInv(h) && ThreadInv(h, tid, th) && Safe(h, th)
    requires th.pc in {ReadHead, ReadNext, CheckRight}
    ensures ThreadInv(h, tid, ThreadAfter(h, th))
  {
    if th.pc == ReadHead {
      AdvanceKeepsThread(h, tid, th, HEAD, h[HEAD].next);
    } else if th.pc == ReadNext && (h[th.t].next.mark || h[th.t].key < th.op.key) {
      AdvanceKeepsThread(h, tid, th, th.t, h[th.t].next);
    }
  }

  lemma {:induction false} UpdateKeepsThread(h: Heap, tid: Tid, th: Thread)
    requires HeapInv(h) && ThreadInv(h, tid, th) && Safe(h, th)
    requires th.pc !in {ReadHead, ReadNext, CheckRight}
    ensures ThreadInv(HeapAfter(h, th), tid, ThreadAfter(h, th))
  {}

  lemma {:induction false} StepKeepsThread(h: Heap, tid: Tid, th: Thread)
    requires HeapInv(h) && ThreadInv(h, tid, th) && Safe(h, th)
    ensures ThreadInv(HeapAfter(h, th), tid, ThreadAfter(h, th))
  {
    if th.pc in {ReadHead, ReadNext, CheckRight} { SearchKeepsThread(h, tid, th); }
    else { UpdateKeepsThread(h, tid, th); }
  }

  /** inner_search hands out the tail, or a node whose word it has just read once more, unmarked. */
  lemma {:induction false} RightIsChecked(h: Heap, th: Thread)
    requires Safe(h, th) && th.pc in {ReadHead, ReadNext, CheckRight, Snip}
    requires ThreadAfter(h, th).pc !in {ReadHead, ReadNext, CheckRight, Snip}
    ensures var right := ThreadAfter(h, th).t; right == TAIL || (th.pc == CheckRight && Valid(h, right) && !h[right].next.mark)
  {}

  /** A failed CAS and a mark in the way change nothing and send the operation back to head; a delete that fails
      to unlink goes there to clean up. */
  lemma {:induction false} FailureStartsOver(h: Heap, th: Thread)
    requires Safe(h, th)
    requires match th.pc
             case Snip => !Expect(h, th.left, th.leftNext)
             case Publish => !Expect(h, th.left, th.t)
             case MarkRight => !Expect(h, th.t, th.rightNext)
             case Unlink => !Expect(h, th.left, th.t)
             case CheckRight => h[th.t].next.mark
             case ReadRight => h[th.t].next.mark
             case _ => false
    ensures HeapAfter(h, th) == h && ThreadAfter(h, th) == th.(pc := ReadHead, cleanup := th.cleanup || th.pc == Unlink)
  {}

  // ---- the abstract map ----

  /** Key and node of everything in the set: published, unmarked, not a sentinel. */
  ghost predicate Live(h: Heap, a: Addr) { Interior(h, a) && !h[a].next.mark }
  ghost predicate LiveAt(h: Heap, a: Addr, k: Int64) { Live(h, a) && h[a].key == k }

  ghost function LiveKeys(h: Heap): (ks: set<Int64>)
    ensures forall k :: k in ks <==> exists a :: LiveAt(h, a, k)
  {
    var ks := set a | 0 <= a < |h| && Live(h, a) :: h[a].key;
    assert forall a, k :: LiveAt(h, a, k) ==> Live(h, a) && k in ks;
    assert forall k :: k in ks ==> exists a :: LiveAt(h, a, k) by {
      forall k | k in ks ensures exists a :: LiveAt(h, a, k) {
        var a :| 0 <= a < |h| && Live(h, a) && h[a].key == k;
        assert LiveAt(h, a, k);
      }
    }
    ks
  }

  ghost function Abs(h: Heap): map<Int64, Addr> {
    map k | k in LiveKeys(h) :: (var a :| LiveAt(h, a, k); a)
  }

  /** The list reached from head, read off directly: live means unmarked and reachable. */
  ghost predicate Reachable(h: Heap, a: Addr) { exists p :: IsPath(h, p) && a in p }

  lemma {:induction false} LiveIsReachable(h: Heap, a: Addr)
    requires HeapInv(h) && a != HEAD && a != TAIL
    ensures Live(h, a) <==> Reachable(h, a) && !h[a].next.mark
  {
    if Reachable(h, a) {
      var p :| IsPath(h, p) && a in p;
      var i :| 0 <= i < |p| && p[i] == a;
    }
  }

  /** A key belongs to at most one live node, so the map has exactly the live nodes as its entries. */
  lemma {:induction false} AbsEntries(h: Heap, k: Int64, a: Addr)
    requires HeapInv(h)
    ensures k in Abs(h) && Abs(h)[k] == a <==> LiveAt(h, a, k)
  {
    if LiveAt(h, a, k) && Abs(h)[k] != a {
      var b := Abs(h)[k];
      var p :| IsPath(h, p) && Covers(h, p);
      var i :| 0 <= i < |p| && p[i] == a;
      var j :| 0 <= j < |p| && p[j] == b;
      PathSorted(h, p, if i < j then i else j, if i < j then j else i);
    }
  }

  ghost predicate Exact(h: Heap) {
    forall k, a {:trigger LiveAt(h, a, k)} :: LiveAt(h, a, k) <==> k in Abs(h) && Abs(h)[k] == a
  }

  lemma {:induction false} AbsExact(h: Heap)
    requires HeapInv(h)
    ensures Exact(h)
  {
    forall k, a ensures LiveAt(h, a, k) <==> k in Abs(h) && Abs(h)[k] == a { AbsEntries(h, k, a); }
  }

  /** Maps with the same entries are equal. */
  lemma {:induction false} AbsSame(h: Heap, h': Heap)
    requires Exact(h) && Exact(h')
    requires forall a, k :: LiveAt(h, a, k) <==> LiveAt(h', a, k)
    ensures Abs(h) == Abs(h')
  {
    assert forall k :: k in Abs(h) ==> LiveAt(h, Abs(h)[k], k);
    assert forall k :: k in Abs(h') ==> LiveAt(h', Abs(h')[k], k);
  }

  /** Two adjacent list nodes, the first unmarked, leave no room for a live key between them. */
  ghost predicate Gap(h: Heap, a: Addr, b: Addr) {
    Valid(h, a) && Valid(h, b)
    && forall x :: Live(h, x) ==> !(Lt(h, a, x) && Lt(h, x, b))
  }

  lemma {:induction false} AdjacentIsGap(h: Heap, a: Addr)
    requires HeapInv(h) && IsShared(h, a) && a != TAIL && !h[a].next.mark
    ensures Gap(h, a, h[a].next.ptr)
  {
    var b := h[a].next.ptr;
    assert Edge(h, a);
    var p :| IsPath(h, p) && Covers(h, p);
    var i :| 0 <= i < |p| && p[i] == a;
    forall x | Live(h, x) && Lt(h, a, x) && Lt(h, x, b) ensures false {
      var j :| 0 <= j < |p| && p[j] == x;
      if j < i { PathSorted(h, p, j, i); }
      if j > i + 1 { PathSorted(h, p, i + 1, j); }
    }
  }

  /** Order against a key, from the immutable parts of the heap alone. */
  ghost predicate KeyBelow(h: Heap, a: Addr, k: Int64) { Valid(h, a) && a != TAIL && (a == HEAD || h[a].key < k) }
  ghost predicate KeyAbove(h: Heap, a: Addr, k: Int64) { Valid(h, a) && a != HEAD && (a == TAIL || k < h[a].key) }

  lemma {:induction false} GapMeansAbsent(h: Heap, a: Addr, b: Addr, k: Int64)
    requires HeapInv(h) && Gap(h, a, b) && KeyBelow(h, a, k) && KeyAbove(h, b, k)
    ensures k !in Abs(h)
  {
    if k in Abs(h) { AbsEntries(h, k, Abs(h)[k]); }
  }

  /** An access that changes the abstract map: a successful publishing or marking CAS. */
  ghost predicate Publishes(h: Heap, th: Thread)
    requires Safe(h, th)
  {
    th.pc == Publish && Expect(h, th.left, th.t)
  }

  ghost predicate Marks(h: Heap, th: Thread)
    requires Safe(h, th)
  {
    th.pc == MarkRight && Expect(h, th.t, th.rightNext)
  }

  lemma {:induction false} PublishAddsNode(h: Heap, tid: Tid, th: Thread)
    requires HeapInv(h) && ThreadInv(h, tid, th) && Safe(h, th) && Publishes(h, th)
    ensures forall a, k :: LiveAt(HeapAfter(h, th), a, k) <==> LiveAt(h, a, k) || (a == th.op.node && k == th.op.key)
  {}

  lemma {:induction false} AbsAdd(h: Heap, h': Heap, k: Int64, n: Addr)
    requires Exact(h) && Exact(h') && k !in Abs(h)
    requires forall a, k' :: LiveAt(h', a, k') <==> LiveAt(h, a, k') || (a == n && k' == k)
    ensures Abs(h') == Abs(h)[k := n]
  {
    assert LiveAt(h', n, k);
    assert forall k' :: k' in Abs(h) ==> LiveAt(h, Abs(h)[k'], k');
    assert forall k' :: k' in Abs(h') ==> LiveAt(h', Abs(h')[k'], k');
  }

  lemma {:induction false} AbsRemove(h: Heap, h': Heap, k: Int64, n: Addr)
    requires Exact(h) && Exact(h') && k in Abs(h) && Abs(h)[k] == n
    requires forall a, k' :: LiveAt(h', a, k') <==> LiveAt(h, a, k') && a != n
    ensures Abs(h') == Abs(h) - {k}
  {
    assert forall k' :: k' in Abs(h) ==> LiveAt(h, Abs(h)[k'], k');
    assert forall k' :: k' in Abs(h') ==> LiveAt(h', Abs(h')[k'], k');
  }

  lemma {:induction false} PublishAddsKey(h: Heap, tid: Tid, th: Thread)
    requires HeapInv(h) && ThreadInv(h, tid, th) && Safe(h, th) && Publishes(h, th)
    ensures th.op.key !in Abs(h) && Abs(HeapAfter(h, th)) == Abs(h)[th.op.key := th.op.node]
  {
    assert th.op.key !in Abs(h) by { AdjacentIsGap(h, th.left); GapMeansAbsent(h, th.left, th.t, th.op.key); }
    StepKeepsHeap(h, tid, th);
    PublishAddsNode(h, tid, th);
    AbsExact(h);
    AbsExact(HeapAfter(h, th));
    AbsAdd(h, HeapAfter(h, th), th.op.key, th.op.node);
  }

  lemma {:induction false} MarkRemovesNode(h: Heap, tid: Tid, th: Thread)
    requires HeapInv(h) && ThreadInv(h, tid, th) && Safe(h, th) && Marks(h, th)
    ensures LiveAt(h, th.t, th.op.key)
    ensures forall a, k :: LiveAt(HeapAfter(h, th), a, k) <==> LiveAt(h, a, k) && a != th.t
  {}

  lemma {:induction false} MarkRemovesKey(h: Heap, tid: Tid, th: Thread)
    requires HeapInv(h) && ThreadInv(h, tid, th) && Safe(h, th) && Marks(h, th)
    ensures th.op.key in Abs(h) && Abs(h)[th.op.key] == th.t
    ensures Abs(HeapAfter(h, th)) == Abs(h) - {th.op.key}
  {
    MarkRemovesNode(h, tid, th);
    StepKeepsHeap(h, tid, th);
    AbsExact(h);
    AbsExact(HeapAfter(h, th));
    AbsRemove(h, HeapAfter(h, th), th.op.key, th.t);
  }

  lemma {:induction false} OtherStepsKeepNodes(h: Heap, tid: Tid, th: Thread)
    requires HeapInv(h) && ThreadInv(h, tid, th) && Safe(h, th) && !Publishes(h, th) && !Marks(h, th)
    ensures forall a, k :: LiveAt(HeapAfter(h, th), a, k) <==> LiveAt(h, a, k)
  {}

  /** Every other access, both snips included, leaves the abstract map alone. */
  lemma {:induction false} OtherStepsKeepAbs(h: Heap, tid: Tid, th: Thread)
    requires HeapInv(h) && ThreadInv(h, tid, th) && Safe(h, th) && !Publishes(h, th) && !Marks(h, th)
    ensures Abs(HeapAfter(h, th)) == Abs(h)
  {
    StepKeepsHeap(h, tid, th);
    AbsExact(h);
    AbsExact(HeapAfter(h, th));
    OtherStepsKeepNodes(h, tid, th);
    AbsSame(h, HeapAfter(h, th));
  }
}
