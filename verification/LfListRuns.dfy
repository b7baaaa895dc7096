/** Runs of the list: the system invariant in every reachable state, and what a thread has seen since it
    was called.  An operation that fails or only reads is justified by a moment inside its own interval,
    which may lie in the past by the time it returns. */
module LfListRuns {
  import opened Types
  import opened LfListModel
  import opened LfListInvariant

  ghost predicate SysInv(s: State) {
    && HeapInv(s.heap)
    && forall tid: Tid :: tid < |s.threads| ==> ThreadInv(s.heap, tid, s.threads[tid])
  }

  lemma {:induction false} InitInv(s: State)
    requires Init(s)
    ensures SysInv(s)
  {
    assert IsPath(s.heap, [HEAD, TAIL]) && Covers(s.heap, [HEAD, TAIL]);
  }

  lemma {:induction false} CallKeepsInv(h: Heap, tid: Tid, th: Thread, req: Request)
    requires HeapInv(h)
    ensures HeapInv(CallHeap(h, tid, req)) && ThreadInv(CallHeap(h, tid, req), tid, CallThread(h, th, req))
    ensures forall other: Tid :: other != tid ==> Rely(other, h, CallHeap(h, tid, req))
  {
    PrivateKeepsHeap(h, CallHeap(h, tid, req));
  }

  /** The invariant survives a step of any thread, and no thread but the acting one notices it. */
  lemma {:induction false} NextKeepsInv(s: State, tid: Tid, s': State)
    requires SysInv(s) && Next(s, tid, s')
    ensures SysInv(s')
    ensures forall other: Tid :: other != tid ==> Rely(other, s.heap, s'.heap)
  {
    var th := s.threads[tid];
    if th.pc.Quiet? {
      var req :| s' == State(CallHeap(s.heap, tid, req), s.threads[tid := CallThread(s.heap, th, req)]);
      CallKeepsInv(s.heap, tid, th, req);
    } else {
      StepKeepsHeap(s.heap, tid, th);
      StepKeepsThread(s.heap, tid, th);
      forall other: Tid | other != tid ensures Rely(other, s.heap, s'.heap) { StepIsPolite(s.heap, tid, th, other); }
    }
    forall other: Tid | other != tid && other < |s'.threads| ensures ThreadInv(s'.heap, other, s'.threads[other]) {
      ThreadInvStable(other, s.heap, s'.heap, s.threads[other]);
    }
  }

  /** In a reachable state no thread is ever stuck on a wild pointer. */
  lemma {:induction false} NeverStuck(s: State, tid: Tid)
    requires SysInv(s) && tid < |s.threads|
    ensures exists s' :: Next(s, tid, s')
  {
    var th := s.threads[tid];
    if th.pc.Quiet? {
      var req := ReqSearch(0);
      assert Next(s, tid, State(CallHeap(s.heap, tid, req), s.threads[tid := CallThread(s.heap, th, req)]));
    } else {
      StepIsSafe(s.heap, tid, th);
      assert Next(s, tid, State(HeapAfter(s.heap, th), s.threads[tid := ThreadAfter(s.heap, th)]));
    }
  }

  /** The node that a search returns, and the one on which an insert gives up, is in the set at the moment of
      the return. */
  lemma {:induction false} ReturnedIsLive(s: State, tid: Tid, s': State)
    requires SysInv(s) && Next(s, tid, s') && !s.threads[tid].pc.Quiet? && s'.threads[tid].pc.Quiet?
    ensures var op, res := s.threads[tid].op, s'.threads[tid].pc.res;
            && (res.Found? ==> op.Search? && LiveAt(s'.heap, res.at, op.key))
            && (res == Refused && op.Insert? ==> LiveAt(s'.heap, s'.threads[tid].t, op.key))
  {
    assert ThreadInv(s.heap, tid, s.threads[tid]);
  }

  // ---- runs ----

  type Run = seq<State>

  /** Threads take turns in any order; `who[i]` makes the step from run[i] to run[i + 1]. */
  ghost predicate IsRun(run: Run, who: seq<Tid>) {
    && |run| == |who| + 1 && Init(run[0])
    && forall i :: 0 <= i < |who| ==> Next(run[i], who[i], run[i + 1])
  }

  function Last(run: Run): State
    requires |run| > 0
  {
    run[|run| - 1]
  }

  lemma {:induction false} RunInv(run: Run, who: seq<Tid>, i: nat)
    requires IsRun(run, who) && i < |run|
    ensures SysInv(run[i]) && |run[i].threads| == |run[0].threads|
  {
    if i == 0 {
      InitInv(run[0]);
    } else {
      RunInv(run, who, i - 1);
      NextKeepsInv(run[i - 1], who[i - 1], run[i]);
    }
  }

  /** Keys and data never change and nodes never go away. */
  ghost predicate Grows(h: Heap, h': Heap) {
    |h| <= |h'| && forall a :: Valid(h, a) ==> h'[a].key == h[a].key && h'[a].data == h[a].data
  }

  lemma {:induction false} NextGrows(s: State, tid: Tid, s': State)
    requires SysInv(s) && Next(s, tid, s')
    ensures Grows(s.heap, s'.heap)
  {
    NextKeepsInv(s, tid, s');
    assert Rely(tid + 1, s.heap, s'.heap);
  }

  lemma {:induction false} RunGrows(run: Run, who: seq<Tid>, i: nat, j: nat)
    requires IsRun(run, who) && i <= j < |run|
    ensures Grows(run[i].heap, run[j].heap)
    decreases j
  {
    if i < j {
      RunGrows(run, who, i, j - 1);
      RunInv(run, who, j - 1);
      NextGrows(run[j - 1], who[j - 1], run[j]);
    }
  }

  /** A published node that is marked keeps its mark and its pointer for the rest of the run. */
  lemma {:induction false} MarkedForever(run: Run, who: seq<Tid>, i: nat, j: nat, a: Addr)
    requires IsRun(run, who) && i <= j < |run|
    requires IsShared(run[i].heap, a) && run[i].heap[a].next.mark
    ensures IsShared(run[j].heap, a) && run[j].heap[a].next == run[i].heap[a].next
    decreases j
  {
    if i < j {
      MarkedForever(run, who, i, j - 1, a);
      RunInv(run, who, j - 1);
      NextKeepsInv(run[j - 1], who[j - 1], run[j]);
      assert Rely(who[j - 1] + 1, run[j - 1].heap, run[j].heap);
    }
  }

  // ---- the interval of an operation ----

  ghost predicate Idle(s: State, tid: Tid) { tid < |s.threads| && s.threads[tid].pc.Quiet? }

  /** The last moment at which a thread was between operations. */
  ghost function Since(run: Run, tid: Tid): (c: nat)
    requires |run| > 0
    ensures c < |run|
    ensures forall i :: c < i < |run| ==> !Idle(run[i], tid)
    ensures Idle(run[0], tid) ==> Idle(run[c], tid)
  {
    if Idle(Last(run), tid) || |run| == 1 then |run| - 1 else Since(run[..|run| - 1], tid)
  }

  ghost predicate AbsentSeen(run: Run, c: nat, k: Int64) {
    exists i :: c < i < |run| && k !in Abs(run[i].heap)
  }

  ghost predicate PresentSeen(run: Run, c: nat, k: Int64, a: Addr) {
    exists i :: c < i < |run| && k in Abs(run[i].heap) && Abs(run[i].heap)[k] == a
  }

  ghost predicate GapSeen(run: Run, c: nat, a: Addr, b: Addr) {
    exists i :: c < i < |run| && Gap(run[i].heap, a, b)
  }

  /** What a thread remembers of its own interval: the link it read last was once a gap in the set. */
  ghost predicate Watch(run: Run, tid: Tid)
    requires |run| > 0 && tid < |Last(run).threads|
  {
    var s, th, c := Last(run), Last(run).threads[tid], Since(run, tid);
    th.pc.Quiet? ||
    (&& c + 1 < |run| && tid < |run[c + 1].threads| && run[c + 1].threads[tid].op == th.op
     && match th.pc
        case ReadNext => GapSeen(run, c, th.left, th.leftNext)
        case CheckRight => KeyAbove(s.heap, th.t, th.op.key) ==> AbsentSeen(run, c, th.op.key)
        case _ => true)
  }

  /** The result of an operation that changes nothing is right at some moment after its call. */
  ghost predicate Justified(run: Run, c: nat, op: Op, res: Result) {
    match op
    case Search(k) => (res == Missing && AbsentSeen(run, c, k)) || (res.Found? && PresentSeen(run, c, k, res.at))
    case Insert(_, k) => res == Refused && exists a :: PresentSeen(run, c, k, a)
    case Delete(k) => res == Refused && AbsentSeen(run, c, k)
  }

  lemma {:induction false} SinceUnique(run: Run, tid: Tid, c: nat)
    requires c < |run| && Idle(run[0], tid) && Idle(run[c], tid)
    requires forall i :: c < i < |run| ==> !Idle(run[i], tid)
    ensures c == Since(run, tid)
  {}

  lemma {:induction false} NotIdleSince(run: Run, tid: Tid, i: nat)
    requires |run| > 0 && Since(run, tid) < i < |run|
    ensures !Idle(run[i], tid)
  {}

  lemma {:induction false} SinceAppend(run: Run, s': State, tid: Tid)
    requires |run| > 0
    ensures Since(run + [s'], tid) == if Idle(s', tid) then |run| else Since(run, tid)
  {
    assert (run + [s'])[..|run|] == run;
  }

  lemma {:induction false} RunPrefix(run: Run, who: seq<Tid>, s': State, tid: Tid)
    requires IsRun(run + [s'], who + [tid])
    requires |run| == |who| + 1
    ensures IsRun(run, who) && Next(Last(run), tid, s')
  {
    var r, w := run + [s'], who + [tid];
    assert r[0] == run[0];
    forall i | 0 <= i < |who| ensures Next(run[i], who[i], run[i + 1]) {
      assert Next(r[i], w[i], r[i + 1]);
    }
    assert Next(r[|who|], w[|who|], r[|who| + 1]);
  }

  lemma {:induction false} GapAppend(run: Run, s': State, c: nat, a: Addr, b: Addr)
    requires GapSeen(run, c, a, b)
    ensures GapSeen(run + [s'], c, a, b)
  {
    var i :| c < i < |run| && Gap(run[i].heap, a, b);
    assert Gap((run + [s'])[i].heap, a, b);
  }

  lemma {:induction false} AbsentAppend(run: Run, s': State, c: nat, k: Int64)
    requires AbsentSeen(run, c, k)
    ensures AbsentSeen(run + [s'], c, k)
  {
    var i :| c < i < |run| && k !in Abs(run[i].heap);
    assert k !in Abs((run + [s'])[i].heap);
  }

  /** A step of someone else. */
  lemma {:induction false} WatchOther(run: Run, who: seq<Tid>, tid: Tid, s': State, other: Tid)
    requires IsRun(run, who) && SysInv(Last(run)) && Next(Last(run), tid, s')
    requires other != tid && other < |Last(run).threads| && Watch(run, other)
    ensures Watch(run + [s'], other)
  {
    var th, c := s'.threads[other], Since(run, other);
    SinceAppend(run, s', other);
    if th.pc == ReadNext {
      GapAppend(run, s', c, th.left, th.leftNext);
    } else if th.pc == CheckRight && KeyAbove(s'.heap, th.t, th.op.key) {
      NextGrows(Last(run), tid, s');
      assert ThreadInv(Last(run).heap, other, th);
      AbsentAppend(run, s', c, th.op.key);
    }
  }

  /** inner_search stops in front of a gap that contains the key. */
  lemma {:induction false} GapToAbsent(run: Run, who: seq<Tid>, c: nat, a: Addr, b: Addr, k: Int64)
    requires IsRun(run, who) && GapSeen(run, c, a, b)
    requires KeyBelow(Last(run).heap, a, k) && KeyAbove(Last(run).heap, b, k)
    ensures AbsentSeen(run, c, k)
  {
    var i :| c < i < |run| && Gap(run[i].heap, a, b);
    RunGrows(run, who, i, |run| - 1);
    RunInv(run, who, i);
    GapMeansAbsent(run[i].heap, a, b, k);
  }

  lemma {:induction false} RunAppend(run: Run, who: seq<Tid>, tid: Tid, s': State)
    requires IsRun(run, who) && Next(Last(run), tid, s')
    ensures IsRun(run + [s'], who + [tid])
  {
    var r, w := run + [s'], who + [tid];
    forall i | 0 <= i < |w| ensures Next(r[i], w[i], r[i + 1]) {
      if i < |who| { assert Next(run[i], who[i], run[i + 1]); }
    }
  }

  /** The gap in front of right_node settles the absent case. */
  ghost predicate Settled(run: Run, c: nat, t: Addr, k: Int64)
    requires |run| > 0
  {
    KeyAbove(Last(run).heap, t, k) ==> AbsentSeen(run, c, k)
  }

  /** Traversing on from an unmarked link records the gap behind that link. */
  lemma {:induction false} WatchAdvance(run: Run, who: seq<Tid>, tid: Tid, s': State, c: nat, cur: Addr)
    requires IsRun(run, who) && Next(Last(run), tid, s') && s'.heap == Last(run).heap
    requires c < |run| - 1
    requires var h, th := Last(run).heap, Last(run).threads[tid];
             && IsShared(h, cur) && cur != TAIL && Valid(h, h[cur].next.ptr)
             && s'.threads[tid] == Advance(h, th, cur, h[cur].next)
             && if h[cur].next.mark then KeyBelow(h, th.left, th.op.key) && GapSeen(run, c, th.left, th.leftNext)
                else KeyBelow(h, cur, th.op.key)
    ensures var th' := s'.threads[tid];
            && GapSeen(run + [s'], c, th'.left, th'.leftNext)
            && (th'.leftNext == th'.t ==> Settled(run + [s'], c, th'.t, th'.op.key))
  {
    var h, th, th', run' := Last(run).heap, Last(run).threads[tid], s'.threads[tid], run + [s'];
    RunInv(run, who, |run| - 1);
    if h[cur].next.mark {
      GapAppend(run, s', c, th.left, th.leftNext);
    } else {
      AdjacentIsGap(h, cur);
      assert Gap(run'[|run| - 1].heap, th'.left, th'.leftNext);
    }
    RunAppend(run, who, tid, s');
    if th'.leftNext == th'.t && KeyAbove(s'.heap, th'.t, th'.op.key) {
      GapToAbsent(run', who + [tid], c, th'.left, th'.t, th'.op.key);
    }
  }

  lemma {:induction false} WatchExit(run: Run, who: seq<Tid>, s': State, c: nat, th: Thread)
    requires IsRun(run, who) && s'.heap == Last(run).heap
    requires GapSeen(run, c, th.left, th.t) && KeyBelow(Last(run).heap, th.left, th.op.key)
    ensures Settled(run + [s'], c, th.t, th.op.key)
  {
    if KeyAbove(s'.heap, th.t, th.op.key) {
      GapToAbsent(run, who, c, th.left, th.t, th.op.key);
      AbsentAppend(run, s', c, th.op.key);
    }
  }

  /** After a successful snip `left` and `t` are neighbours. */
  lemma {:induction false} WatchSnip(run: Run, who: seq<Tid>, tid: Tid, s': State, c: nat)
    requires IsRun(run, who) && Next(Last(run), tid, s') && c < |run| - 1
    requires var h, th := Last(run).heap, Last(run).threads[tid];
             th.pc == Snip && Safe(h, th) && Expect(h, th.left, th.leftNext)
    ensures var th := Last(run).threads[tid]; Settled(run + [s'], c, th.t, th.op.key)
  {
    var th, run' := Last(run).threads[tid], run + [s'];
    RunInv(run, who, |run| - 1);
    NextKeepsInv(Last(run), tid, s');
    RunAppend(run, who, tid, s');
    assert ThreadInv(Last(run).heap, tid, th);
    AdjacentIsGap(s'.heap, th.left);
    assert Gap(run'[|run|].heap, th.left, th.t);
    if KeyAbove(s'.heap, th.t, th.op.key) { GapToAbsent(run', who + [tid], c, th.left, th.t, th.op.key); }
  }

  /** The last check of inner_search sees an unmarked right_node: at that moment it is in the set. */
  lemma {:induction false} WatchPresent(run: Run, who: seq<Tid>, s': State, c: nat, t: Addr, k: Int64)
    requires IsRun(run, who) && c < |run| - 1 && LiveAt(Last(run).heap, t, k)
    ensures PresentSeen(run + [s'], c, k, t)
  {
    RunInv(run, who, |run| - 1);
    AbsEntries(Last(run).heap, k, t);
    assert k in Abs((run + [s'])[|run| - 1].heap);
  }

  /** Does the next access of the thread finish an operation that changed the set? */
  ghost predicate Effective(th: Thread) { th.pc == Publish || th.pc == Unlink || th.cleanup }

  /** After its step a thread still remembers enough, or has returned a justified result. */
  ghost predicate Accounted(run: Run, tid: Tid, s': State)
    requires |run| > 0 && tid < |Last(run).threads| && tid < |s'.threads|
  {
    var th, pc := Last(run).threads[tid], s'.threads[tid].pc;
    && Watch(run + [s'], tid)
    && (pc.Quiet? ==> if Effective(th) then pc.res == Done
                      else Justified(run + [s'], Since(run, tid), th.op, pc.res))
  }

  /** A thread in the middle of an operation, about to make the step to `s'`. */
  ghost predicate Stepping(run: Run, who: seq<Tid>, tid: Tid, s': State) {
    && IsRun(run, who) && SysInv(Last(run)) && Next(Last(run), tid, s')
    && !Idle(Last(run), tid) && Watch(run, tid)
  }

  lemma {:induction false} ReadHeadAccounted(run: Run, who: seq<Tid>, tid: Tid, s': State)
    requires Stepping(run, who, tid, s') && Last(run).threads[tid].pc == ReadHead
    ensures Accounted(run, tid, s')
  {
    SinceAppend(run, s', tid);
    WatchAdvance(run, who, tid, s', Since(run, tid), HEAD);
  }

  /** What the traversal is about after an advance: another node, the cut of what is marked, or the end. */
  lemma {:induction false} AdvanceEnds(h: Heap, th: Thread, cur: Addr, w: Word)
    requires Valid(h, w.ptr) && Valid(h, TAIL)
    ensures var th' := Advance(h, th, cur, w);
            && th'.op == th.op && th'.cleanup == th.cleanup && th'.t == w.ptr
            && (th'.pc == ReadNext || th'.pc == Snip || (th'.t == TAIL && th'.leftNext == TAIL))
            && (th'.t == TAIL && th'.leftNext == TAIL ==>
                  th'.pc == if th.cleanup then Quiet(Done) else match th.op case Insert(_, _) => LinkNew case Delete(_) => Quiet(Refused) case Search(_) => Quiet(Missing))
  {}

  /** The traversal goes on behind t. */
  lemma {:induction false} StepAccounted(run: Run, who: seq<Tid>, tid: Tid, s': State)
    requires Stepping(run, who, tid, s') && Last(run).threads[tid].pc == ReadNext
    requires var h, th := Last(run).heap, Last(run).threads[tid];
             ThreadInv(h, tid, th) && (h[th.t].next.mark || h[th.t].key < th.op.key)
    ensures Accounted(run, tid, s')
  {
    var h, th := Last(run).heap, Last(run).threads[tid];
    SinceAppend(run, s', tid);
    WatchAdvance(run, who, tid, s', Since(run, tid), th.t);
    AdvanceEnds(h, th, th.t, h[th.t].next);
  }

  lemma {:induction false} ReadNextAccounted(run: Run, who: seq<Tid>, tid: Tid, s': State)
    requires Stepping(run, who, tid, s') && Last(run).threads[tid].pc == ReadNext
    ensures Accounted(run, tid, s')
  {
    var h, th, c := Last(run).heap, Last(run).threads[tid], Since(run, tid);
    assert ThreadInv(h, tid, th);
    if h[th.t].next.mark || h[th.t].key < th.op.key {
      StepAccounted(run, who, tid, s');
    } else {
      SinceAppend(run, s', tid);
      if th.leftNext == th.t { WatchExit(run, who, s', c, th); }
    }
  }

  /** The right node holds the key, or is marked. */
  lemma {:induction false} HitAccounted(run: Run, who: seq<Tid>, tid: Tid, s': State)
    requires Stepping(run, who, tid, s') && Last(run).threads[tid].pc == CheckRight
    requires var h, th := Last(run).heap, Last(run).threads[tid];
             ThreadInv(h, tid, th) && (h[th.t].next.mark || h[th.t].key == th.op.key)
    ensures Accounted(run, tid, s')
  {
    var h, th, c := Last(run).heap, Last(run).threads[tid], Since(run, tid);
    SinceAppend(run, s', tid);
    if !h[th.t].next.mark { WatchPresent(run, who, s', c, th.t, th.op.key); }
  }

  lemma {:induction false} CheckAccounted(run: Run, who: seq<Tid>, tid: Tid, s': State)
    requires Stepping(run, who, tid, s') && Last(run).threads[tid].pc == CheckRight
    ensures Accounted(run, tid, s')
  {
    var h, th, c := Last(run).heap, Last(run).threads[tid], Since(run, tid);
    assert ThreadInv(h, tid, th);
    if h[th.t].next.mark || h[th.t].key == th.op.key {
      HitAccounted(run, who, tid, s');
    } else {
      SinceAppend(run, s', tid);
      AbsentAppend(run, s', c, th.op.key);
    }
  }

  lemma {:induction false} SnipAccounted(run: Run, who: seq<Tid>, tid: Tid, s': State)
    requires Stepping(run, who, tid, s') && Last(run).threads[tid].pc == Snip
    ensures Accounted(run, tid, s')
  {
    var h, th, c := Last(run).heap, Last(run).threads[tid], Since(run, tid);
    SinceAppend(run, s', tid);
    assert ThreadInv(h, tid, th);
    if Expect(h, th.left, th.leftNext) { WatchSnip(run, who, tid, s', c); }
  }

  lemma {:induction false} UpdateAccounted(run: Run, who: seq<Tid>, tid: Tid, s': State)
    requires Stepping(run, who, tid, s')
    requires Last(run).threads[tid].pc in {LinkNew, Publish, ReadRight, MarkRight, Unlink}
    ensures Accounted(run, tid, s')
  {
    assert ThreadInv(Last(run).heap, tid, Last(run).threads[tid]);
    SinceAppend(run, s', tid);
  }

  lemma {:induction false} WatchSelf(run: Run, who: seq<Tid>, tid: Tid, s': State)
    requires Stepping(run, who, tid, s')
    ensures Accounted(run, tid, s')
  {
    var pc := Last(run).threads[tid].pc;
    if pc == ReadHead { ReadHeadAccounted(run, who, tid, s'); }
    else if pc == ReadNext { ReadNextAccounted(run, who, tid, s'); }
    else if pc == CheckRight { CheckAccounted(run, who, tid, s'); }
    else if pc == Snip { SnipAccounted(run, who, tid, s'); }
    else { UpdateAccounted(run, who, tid, s'); }
  }
}
