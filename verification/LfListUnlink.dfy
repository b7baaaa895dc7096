/** What becomes of a deleted node: when a delete returns, the node it marked is out of the list for good, by
    its own unlinking CAS or by the search it starts when that fails.  But after that search the node that is
    freed is another one, still in the list. */
module LfListUnlink {
  import opened LfListModel
  import opened LfListInvariant
  import opened LfListRuns

  /** Published, and no walk from head comes by. */
  ghost predicate Gone(h: Heap, a: Addr) { IsShared(h, a) && !Reachable(h, a) }

  // ---- gone is gone ----

  lemma {:induction false} CutPath(h: Heap, p: seq<Addr>, left: Addr, q: seq<Addr>) returns (p': seq<Addr>)
    requires HeapShape(h) && IsPath(h, p) && Covers(h, p) && IsFrozenChain(h, q)
    requires IsShared(h, left) && left != TAIL && h[left].next == Word(q[0], false)
    ensures IsPath(Store(h, left, Word(q[|q| - 1], false)), p') && forall a :: a in p' ==> a in p
  {
    var i :| 0 <= i < |p| && p[i] == left;
    PathFollowsRun(h, p, i + 1, q, |q| - 1);
    SnipCutsPath(h, p, i, |q|, q[|q| - 1]);
    p' := Cut(p, i, |q|);
  }

  /** After an access a walk meets nothing new but a node just published. */
  lemma {:induction false} PathAfter(h: Heap, tid: Tid, th: Thread) returns (p: seq<Addr>, p': seq<Addr>)
    requires HeapInv(h) && ThreadInv(h, tid, th) && Safe(h, th)
    ensures IsPath(h, p) && IsPath(HeapAfter(h, th), p') && forall a :: a in p' && IsShared(h, a) ==> a in p
  {
    p :| IsPath(h, p) && Covers(h, p);
    p' := p;
    if th.pc == Snip && Expect(h, th.left, th.leftNext) {
      var q :| IsFrozenChain(h, q) && q[0] == th.leftNext && q[|q| - 1] == th.t;
      p' := CutPath(h, p, th.left, q);
    } else if th.pc == Unlink && Expect(h, th.left, th.t) {
      assert Edge(h, th.t) && IsFrozenChain(h, [th.t, th.rightNext]);
      p' := CutPath(h, p, th.left, [th.t, th.rightNext]);
    } else if th.pc == Publish && Expect(h, th.left, th.t) {
      var i :| 0 <= i < |p| && p[i] == th.left;
      PublishGrowsPath(h, p, i, th.op.node);
      p' := p[..i + 1] + [th.op.node] + p[i + 1..];
    }
  }

  /** A node that has left the list never comes back. */
  lemma {:induction false} GoneStays(s: State, tid: Tid, s': State, a: Addr)
    requires SysInv(s) && Next(s, tid, s') && Gone(s.heap, a)
    ensures Gone(s'.heap, a)
  {
    NextKeepsInv(s, tid, s');
    assert Rely(tid + 1, s.heap, s'.heap);
    var p, p';
    if s.threads[tid].pc.Quiet? {
      p :| IsPath(s.heap, p) && Covers(s.heap, p);
      p' := p;
    } else {
      p, p' := PathAfter(s.heap, tid, s.threads[tid]);
    }
    assert IsPath(s'.heap, p');
    if Reachable(s'.heap, a) {
      var q :| IsPath(s'.heap, q) && a in q;
      PathsEqual(s'.heap, p', q);
    }
  }

  // ---- the rest of a delete ----

  /** No walk meets m before b. */
  ghost predicate NotBefore(h: Heap, b: Addr, m: Addr) {
    Valid(h, b) && Valid(h, m) && (Reachable(h, m) ==> b == m || Lt(h, b, m))
  }

  lemma {:induction false} NextIsNotAfter(h: Heap, a: Addr, m: Addr)
    requires HeapInv(h) && IsShared(h, a) && a != TAIL && !h[a].next.mark && Interior(h, m)
    requires a == HEAD || h[a].key < h[m].key
    ensures NotBefore(h, h[a].next.ptr, m)
  {
    assert Edge(h, a);
    if Reachable(h, m) {
      var p :| IsPath(h, p) && Covers(h, p);
      var q :| IsPath(h, q) && m in q;
      PathsEqual(h, p, q);
      var i :| 0 <= i < |p| && p[i] == a;
      var j :| 0 <= j < |p| && p[j] == m;
      if j <= i { if j < i { PathSorted(h, p, j, i); } } else if j > i + 1 { PathSorted(h, p, i + 1, j); }
    }
  }

  /** Past a node at or above the key there is no other node with the key. */
  lemma {:induction false} NotPast(h: Heap, b: Addr, m: Addr)
    requires NotBefore(h, b, m) && Interior(h, m) && b != m && b != HEAD && (b == TAIL || h[m].key <= h[b].key)
    ensures Gone(h, m)
  {}

  /** A delete that has marked m: it is about to unlink m, or searches for it again.  What it has seen of the
      list since then bounds where m can still be. */
  ghost predicate Cleaning(h: Heap, th: Thread, m: Addr) {
    && Interior(h, m) && h[m].next.mark && h[m].key == th.op.key && th.op.Delete? && (th.pc == Unlink <==> !th.cleanup)
    && match th.pc
       case Unlink => th.t == m
       case ReadHead => true
       case ReadNext => NotBefore(h, th.leftNext, m)
       case CheckRight => Gone(h, m)
       case Snip => th.t != m
       case _ => false
  }

  /** The delete goes on cleaning, or m is gone and it returns 0. */
  ghost predicate Cleaned(h: Heap, th: Thread, m: Addr) {
    if th.pc.Quiet? then Gone(h, m) && th.pc.res == Done else Cleaning(h, th, m)
  }

  lemma {:induction false} UnlinkCleans(h: Heap, tid: Tid, th: Thread, m: Addr)
    requires HeapInv(h) && ThreadInv(h, tid, th) && Safe(h, th) && Cleaning(h, th, m) && th.pc == Unlink
    ensures Cleaned(HeapAfter(h, th), ThreadAfter(h, th), m)
  {
    if Expect(h, th.left, th.t) {
      var h' := HeapAfter(h, th);
      StepKeepsHeap(h, tid, th);
      assert Edge(h, m) && Edge(h', m);
      NextIsNotAfter(h', th.left, m);
      assert h'[th.left].next.ptr == th.rightNext && Lt(h', m, th.rightNext);
    }
  }

  lemma {:induction false} SnipCleans(h: Heap, tid: Tid, th: Thread, m: Addr)
    requires HeapInv(h) && ThreadInv(h, tid, th) && Safe(h, th) && Cleaning(h, th, m) && th.pc == Snip
    ensures Cleaned(HeapAfter(h, th), ThreadAfter(h, th), m)
  {
    if Expect(h, th.left, th.leftNext) {
      var h' := HeapAfter(h, th);
      StepKeepsHeap(h, tid, th);
      NextIsNotAfter(h', th.left, m);
      NotPast(h', th.t, m);
    }
  }

  lemma {:induction false} AdvanceCleans(h: Heap, th: Thread, cur: Addr, m: Addr)
    requires HeapInv(h) && Interior(h, m) && h[m].next.mark && h[m].key == th.op.key && th.op.Delete? && th.cleanup
    requires IsShared(h, cur) && cur != TAIL && Valid(h, h[cur].next.ptr)
    requires if h[cur].next.mark then NotBefore(h, th.leftNext, m) else cur == HEAD || h[cur].key < th.op.key
    ensures Cleaned(h, Advance(h, th, cur, h[cur].next), m)
  {
    AdvanceEnds(h, th, cur, h[cur].next);
    if !h[cur].next.mark { NextIsNotAfter(h, cur, m); }
    var th' := Advance(h, th, cur, h[cur].next);
    if th'.t == TAIL && th'.leftNext == TAIL { NotPast(h, TAIL, m); }
  }

  lemma {:induction false} SearchCleans(h: Heap, tid: Tid, th: Thread, m: Addr)
    requires HeapInv(h) && ThreadInv(h, tid, th) && Safe(h, th) && Cleaning(h, th, m)
    requires th.pc in {ReadHead, ReadNext, CheckRight}
    ensures Cleaned(h, ThreadAfter(h, th), m)
  {
    if th.pc == ReadHead {
      AdvanceCleans(h, th, HEAD, m);
    } else if th.pc == ReadNext {
      if h[th.t].next.mark || h[th.t].key < th.op.key { AdvanceCleans(h, th, th.t, m); }
      else if th.leftNext == th.t { NotPast(h, th.t, m); }
    }
  }

  /** An own step of the delete. */
  lemma {:induction false} OwnStepCleans(s: State, tid: Tid, s': State, m: Addr)
    requires SysInv(s) && Next(s, tid, s') && !s.threads[tid].pc.Quiet? && Cleaning(s.heap, s.threads[tid], m)
    ensures Cleaned(s'.heap, s'.threads[tid], m)
  {
    var h, th := s.heap, s.threads[tid];
    assert ThreadInv(h, tid, th);
    if th.pc == Unlink { UnlinkCleans(h, tid, th, m); }
    else if th.pc == Snip { SnipCleans(h, tid, th, m); }
    else { SearchCleans(h, tid, th, m); }
  }

  /** A step of somebody else. */
  lemma {:induction false} OtherStepCleans(s: State, who: Tid, s': State, tid: Tid, m: Addr)
    requires SysInv(s) && Next(s, who, s') && who != tid && tid < |s.threads| && Cleaning(s.heap, s.threads[tid], m)
    ensures Cleaning(s'.heap, s'.threads[tid], m)
  {
    NextKeepsInv(s, who, s');
    assert Rely(tid, s.heap, s'.heap);
    if Gone(s.heap, m) { GoneStays(s, who, s', m); }
  }

  // ---- over runs ----

  /** From state u on, where it is about to unlink the node it marked, up to state r, where it has returned. */
  ghost predicate Ending(run: Run, who: seq<Tid>, tid: Tid, u: nat, r: nat) {
    && IsRun(run, who) && u < r < |run| && tid < |run[u].threads| && run[u].threads[tid].pc == Unlink
    && Idle(run[r], tid) && forall i :: u <= i < r ==> !Idle(run[i], tid)
  }

  /** The node it marked. */
  function Deleted(run: Run, tid: Tid, u: nat): Addr
    requires u < |run| && tid < |run[u].threads|
  {
    run[u].threads[tid].t
  }

  /** The node it passes to node_free: right_node as it is when delete returns. */
  function Freed(run: Run, tid: Tid, r: nat): Addr
    requires r < |run| && tid < |run[r].threads|
  {
    run[r].threads[tid].t
  }

  lemma {:induction false} CleaningUpTo(run: Run, who: seq<Tid>, tid: Tid, u: nat, r: nat, i: nat)
    requires Ending(run, who, tid, u, r) && u <= i < r
    ensures tid < |run[i].threads| && Cleaning(run[i].heap, run[i].threads[tid], Deleted(run, tid, u))
  {
    RunInv(run, who, i);
    RunInv(run, who, u);
    if i == u {
      assert ThreadInv(run[u].heap, tid, run[u].threads[tid]);
    } else {
      CleaningUpTo(run, who, tid, u, r, i - 1);
      RunInv(run, who, i - 1);
      assert Next(run[i - 1], who[i - 1], run[i]) && !Idle(run[i], tid);
      if who[i - 1] == tid { OwnStepCleans(run[i - 1], tid, run[i], Deleted(run, tid, u)); }
      else { OtherStepCleans(run[i - 1], who[i - 1], run[i], tid, Deleted(run, tid, u)); }
    }
  }

  lemma {:induction false} ReturnCleans(run: Run, who: seq<Tid>, tid: Tid, u: nat, r: nat)
    requires Ending(run, who, tid, u, r)
    ensures tid < |run[r - 1].threads| && tid < |run[r].threads|
    ensures SysInv(run[r - 1]) && Next(run[r - 1], tid, run[r]) && !run[r - 1].threads[tid].pc.Quiet?
    ensures Cleaning(run[r - 1].heap, run[r - 1].threads[tid], Deleted(run, tid, u))
  {
    CleaningUpTo(run, who, tid, u, r, r - 1);
    RunInv(run, who, r - 1);
    assert Next(run[r - 1], who[r - 1], run[r]) && !Idle(run[r - 1], tid);
  }

  /** When a delete has returned, the node it marked is out of the list, and stays out for the rest of the run. */
  lemma {:induction false} DeleteUnlinks(run: Run, who: seq<Tid>, tid: Tid, u: nat, r: nat, j: nat)
    requires Ending(run, who, tid, u, r) && r <= j < |run|
    ensures tid < |run[r].threads| && run[r].threads[tid].pc == Quiet(Done) && Gone(run[j].heap, Deleted(run, tid, u))
  {
    if j == r {
      ReturnCleans(run, who, tid, u, r);
      OwnStepCleans(run[r - 1], tid, run[r], Deleted(run, tid, u));
    } else {
      DeleteUnlinks(run, who, tid, u, r, j - 1);
      RunInv(run, who, j - 1);
      GoneStays(run[j - 1], who[j - 1], run[j], Deleted(run, tid, u));
    }
  }

  /** The last step of a delete: with the unlinking CAS right_node is the node it marked, else it is a node that
      is still in the list. */
  lemma {:induction false} LastStepFrees(s: State, tid: Tid, s': State, m: Addr)
    requires SysInv(s) && Next(s, tid, s') && !s.threads[tid].pc.Quiet? && Cleaning(s.heap, s.threads[tid], m)
    requires s'.threads[tid].pc.Quiet?
    ensures s.threads[tid].pc == Unlink ==> s'.threads[tid].t == m
    ensures s.threads[tid].pc != Unlink ==> s'.threads[tid].t != m && Reachable(s'.heap, s'.threads[tid].t)
  {
    NextKeepsInv(s, tid, s');
    assert ThreadInv(s.heap, tid, s.threads[tid]);
    var p :| IsPath(s'.heap, p) && Covers(s'.heap, p);
    assert TAIL in p;
  }

  /** A delete frees the node it deleted exactly when its unlinking CAS succeeded.  Otherwise the node it frees is
      still in the list. */
  lemma {:induction false} FreesItsOwn(run: Run, who: seq<Tid>, tid: Tid, u: nat, r: nat)
    requires Ending(run, who, tid, u, r)
    ensures tid < |run[r - 1].threads| && tid < |run[r].threads|
    ensures Freed(run, tid, r) == Deleted(run, tid, u) <==> run[r - 1].threads[tid].pc == Unlink
    ensures Gone(run[r].heap, Freed(run, tid, r)) <==> run[r - 1].threads[tid].pc == Unlink
  {
    ReturnCleans(run, who, tid, u, r);
    LastStepFrees(run[r - 1], tid, run[r], Deleted(run, tid, u));
    DeleteUnlinks(run, who, tid, u, r, r);
  }

  // ---- a run in which the tail is freed ----

  /** Head, tail, and the node of key 5 as it is allocated, linked, published, marked and cut out. */
  function List(head: Addr, next: Word, owner: Owner): Heap {
    [Node(-0x8000_0000_0000_0000, 0, Word(head, false), Shared), Node(0x7fff_ffff_ffff_ffff, 0, Word(NULL, false), Shared),
     Node(5, 0, next, owner)]
  }

  function Resting(): Thread { Thread(Quiet(Nothing), Search(0), false, 0, 0, 0, 0) }

  /** Thread 0 inserts 5, and deletes it up to the unlinking CAS; thread 1 searches for 5 and snips the node
      away; thread 0 fails to unlink it, and searches again. */
  function Who(i: nat): Tid { if 10 <= i < 14 then 1 else 0 }

  function Inserting(i: nat): State {
    if i == 0 then State(List(1, Word(NULL, false), Shared)[..2], [Resting(), Resting()])
    else if i == 1 then State(List(1, Word(NULL, false), Private(0)), [Thread(ReadHead, Insert(2, 5), false, 0, 0, 0, 0), Resting()])
    else if i == 2 then State(List(1, Word(NULL, false), Private(0)), [Thread(LinkNew, Insert(2, 5), false, 0, 1, 1, 0), Resting()])
    else if i == 3 then State(List(1, Word(1, false), Private(0)), [Thread(Publish, Insert(2, 5), false, 0, 1, 1, 0), Resting()])
    else State(List(2, Word(1, false), Shared), [Thread(Quiet(Done), Insert(2, 5), false, 0, 1, 1, 0), Resting()])
  }

  function Deleting(i: nat): State {
    var in5 := List(2, Word(1, false), Shared);
    if i == 5 then State(in5, [Thread(ReadHead, Delete(5), false, 0, 1, 1, 0), Resting()])
    else if i == 6 then State(in5, [Thread(ReadNext, Delete(5), false, 0, 2, 2, 0), Resting()])
    else if i == 7 then State(in5, [Thread(CheckRight, Delete(5), false, 0, 2, 2, 0), Resting()])
    else if i == 8 then State(in5, [Thread(ReadRight, Delete(5), false, 0, 2, 2, 0), Resting()])
    else if i == 9 then State(in5, [Thread(MarkRight, Delete(5), false, 0, 2, 2, 1), Resting()])
    else State(List(2, Word(1, true), Shared), [Thread(Unlink, Delete(5), false, 0, 2, 2, 1), Resting()])
  }

  function Searching(i: nat): State {
    var marked, a := List(2, Word(1, true), Shared), Thread(Unlink, Delete(5), false, 0, 2, 2, 1);
    if i == 11 then State(marked, [a, Thread(ReadHead, Search(5), false, 0, 0, 0, 0)])
    else if i == 12 then State(marked, [a, Thread(ReadNext, Search(5), false, 0, 2, 2, 0)])
    else if i == 13 then State(marked, [a, Thread(Snip, Search(5), false, 0, 2, 1, 0)])
    else State(List(1, Word(1, true), Shared), [a, Thread(Quiet(Missing), Search(5), false, 0, 2, 1, 0)])
  }

  function Ended(i: nat): State {
    var cut, b := List(1, Word(1, true), Shared), Thread(Quiet(Missing), Search(5), false, 0, 2, 1, 0);
    if i == 15 then State(cut, [Thread(ReadHead, Delete(5), true, 0, 2, 2, 1), b])
    else State(cut, [Thread(Quiet(Done), Delete(5), true, 0, 1, 1, 1), b])
  }

  function StateAt(i: nat): State {
    if i <= 4 then Inserting(i) else if i <= 10 then Deleting(i) else if i <= 14 then Searching(i) else Ended(i)
  }

  lemma {:induction false} CallNext(s: State, tid: Tid, req: Request, s': State)
    requires Idle(s, tid)
    requires s' == State(CallHeap(s.heap, tid, req), s.threads[tid := CallThread(s.heap, s.threads[tid], req)])
    ensures Next(s, tid, s')
  {}

  lemma {:induction false} InsertRuns(i: nat)
    requires i < 4
    ensures Next(StateAt(i), Who(i), StateAt(i + 1))
  {
    if i == 0 { CallNext(StateAt(0), 0, ReqInsert(5, 0), StateAt(1)); }
  }

  lemma {:induction false} DeleteRuns(i: nat)
    requires 4 <= i < 10
    ensures Next(StateAt(i), Who(i), StateAt(i + 1))
  {
    if i == 4 { CallNext(StateAt(4), 0, ReqDelete(5), StateAt(5)); }
  }

  lemma {:induction false} SearchRuns(i: nat)
    requires 10 <= i < 16
    ensures Next(StateAt(i), Who(i), StateAt(i + 1))
  {
    if i == 10 { CallNext(StateAt(10), 1, ReqSearch(5), StateAt(11)); }
  }

  /** It happens: the delete returns 0 and frees the tail. */
  lemma {:induction false} TailIsFreed() returns (run: Run, who: seq<Tid>)
    ensures Ending(run, who, 0, 10, 16) && |run| == 17 && |run[16].threads| > 0 && Freed(run, 0, 16) == TAIL
  {
    run, who := seq(17, i requires 0 <= i => StateAt(i)), seq(16, i requires 0 <= i => Who(i));
    forall i | 0 <= i < 16 ensures Next(run[i], who[i], run[i + 1]) {
      if i < 4 { InsertRuns(i); } else if i < 10 { DeleteRuns(i); } else { SearchRuns(i); }
    }
    assert run[0] == StateAt(0) && Init(StateAt(0));
    assert run[10] == StateAt(10) && run[16] == StateAt(16);
    forall i | 10 <= i < 16 ensures !Idle(run[i], 0) { assert run[i] == StateAt(i); }
  }
}
