/** Lock-freedom: in every infinite run, whatever the interleaving, operations keep completing.  A retry
    happens only after somebody else's CAS has changed the list, and each such CAS uses up something. */
module LfListProgress {
  import opened LfListModel
  import opened LfListInvariant
  import opened LfListRuns

  // ---- sums over threads ----

  ghost function Sum(ts: seq<Thread>, f: Thread -> nat): nat {
    if ts == [] then 0 else Sum(ts[..|ts| - 1], f) + f(ts[|ts| - 1])
  }

  lemma {:induction false} SumUpdate(ts: seq<Thread>, f: Thread -> nat, i: nat, th: Thread)
    requires i < |ts|
    ensures Sum(ts[i := th], f) + f(ts[i]) == Sum(ts, f) + f(th)
  {
    var ts' := ts[i := th];
    if i == |ts| - 1 {
      assert ts'[..|ts| - 1] == ts[..|ts| - 1];
    } else {
      assert ts'[..|ts| - 1] == ts[..|ts| - 1][i := th];
      SumUpdate(ts[..|ts| - 1], f, i, th);
    }
  }

  // ---- what a run without completions uses up ----

  /** Threads that can still start an operation, and deletes that can still mark a node. */
  function IdleBit(th: Thread): nat { if th.pc.Quiet? then 1 else 0 }
  function UnmarkedBit(th: Thread): nat {
    if !th.pc.Quiet? && th.op.Delete? && th.pc != Unlink && !th.cleanup then 1 else 0
  }

  /** Marked nodes that a snip can still remove. */
  ghost function MarkedOnPath(h: Heap): set<Addr> {
    set a | 0 <= a < |h| && Reachable(h, a) && h[a].next.mark
  }

  /** How many of the first `n` nodes a traversal at `t` can still meet. */
  ghost function Ahead(h: Heap, t: Addr, n: nat): (c: nat)
    requires n <= |h|
    ensures c <= n
  {
    if n == 0 then 0
    else Ahead(h, t, n - 1) + if IsShared(h, n - 1) && Valid(h, t) && Lt(h, t, n - 1) then 1 else 0
  }

  ghost predicate Points(h: Heap, a: Addr, b: Addr) { Valid(h, a) && h[a].next == Word(b, false) }
  ghost predicate Unmarked(h: Heap, a: Addr) { Valid(h, a) && !h[a].next.mark }

  /** What the thread has read still holds, so none of its CASes can fail unless the list changes again. */
  ghost predicate Fresh(h: Heap, th: Thread) {
    match th.pc
    case Quiet(_) => true
    case ReadHead => true
    case ReadNext => Points(h, th.left, th.leftNext)
    case Snip => Points(h, th.left, th.leftNext) && (th.t == TAIL || Unmarked(h, th.t))
    case CheckRight => Points(h, th.left, th.t) && Unmarked(h, th.t)
    case LinkNew => Points(h, th.left, th.t)
    case Publish => Points(h, th.left, th.t)
    case ReadRight => Points(h, th.left, th.t) && Unmarked(h, th.t)
    case MarkRight => Points(h, th.left, th.t) && Points(h, th.t, th.rightNext)
    case Unlink => Points(h, th.left, th.t)
  }

  ghost function Position(h: Heap, th: Thread): nat {
    match th.pc
    case Quiet(_) => 0
    case ReadHead => |h| + 7
    case ReadNext => Ahead(h, th.t, |h|) + 6
    case Snip => 5
    case CheckRight => 5
    case LinkNew => 4
    case Publish => 3
    case ReadRight => 4
    case MarkRight => 3
    case Unlink => 1
  }

  /** Accesses the thread can still make while the list stays as it is: the rest of this pass, and one
      more pass if this one is doomed. */
  ghost function Rank(h: Heap, th: Thread): nat {
    Position(h, th) + if Fresh(h, th) then 0 else |h| + 8
  }

  ghost function Work(h: Heap, ts: seq<Thread>): nat {
    if ts == [] then 0 else Work(h, ts[..|ts| - 1]) + Rank(h, ts[|ts| - 1])
  }

  // ---- the traversal ----

  /** Keys strictly increase, so every node is met at most once per pass. */
  lemma {:induction false} AheadDescends(h: Heap, t: Addr, u: Addr, n: nat)
    requires Valid(h, t) && IsShared(h, u) && Lt(h, t, u) && n <= |h|
    ensures Ahead(h, u, n) + (if u < n then 1 else 0) <= Ahead(h, t, n)
  {
    if n > 0 { AheadDescends(h, t, u, n - 1); }
  }

  // ---- one step ----

  /** A step whose CAS, if it has one, does not succeed in changing the list. */
  ghost predicate Changes(h: Heap, th: Thread)
    requires Safe(h, th)
  {
    match th.pc
    case Snip => Expect(h, th.left, th.leftNext)
    case Publish => Expect(h, th.left, th.t)
    case MarkRight => Expect(h, th.t, th.rightNext)
    case Unlink => Expect(h, th.left, th.t)
    case _ => false
  }

  lemma {:induction false} SearchDescends(h: Heap, tid: Tid, th: Thread)
    requires HeapInv(h) && ThreadInv(h, tid, th) && Safe(h, th)
    requires th.pc in {ReadHead, ReadNext, CheckRight}
    ensures Rank(h, ThreadAfter(h, th)) < Rank(h, th)
  {
    if th.pc == ReadHead {
      assert Edge(h, HEAD);
    } else if th.pc == ReadNext {
      assert Edge(h, th.t);
      AheadDescends(h, th.t, h[th.t].next.ptr, |h|);
    }
  }

  lemma {:induction false} UpdateDescends(h: Heap, tid: Tid, th: Thread)
    requires HeapInv(h) && ThreadInv(h, tid, th) && Safe(h, th) && !Changes(h, th) && !th.pc.Quiet?
    requires th.pc !in {ReadHead, ReadNext, CheckRight}
    ensures Rank(HeapAfter(h, th), ThreadAfter(h, th)) < Rank(h, th)
  {}

  // ---- the other threads, and the list ----

  /** The same shared nodes with the same contents. */
  ghost predicate SameList(h: Heap, h': Heap) {
    && |h'| == |h|
    && (forall a :: IsShared(h', a) <==> IsShared(h, a))
    && (forall a :: IsShared(h, a) ==> h'[a] == h[a])
  }

  lemma {:induction false} AheadSame(h: Heap, h': Heap, t: Addr, n: nat)
    requires SameList(h, h') && IsShared(h, t) && n <= |h|
    ensures Ahead(h', t, n) == Ahead(h, t, n)
  {
    if n > 0 { AheadSame(h, h', t, n - 1); }
  }

  lemma {:induction false} RankSame(h: Heap, h': Heap, tid: Tid, th: Thread)
    requires ThreadInv(h, tid, th) && SameList(h, h')
    ensures Rank(h', th) == Rank(h, th)
  {
    if th.pc == ReadNext { AheadSame(h, h', th.t, |h|); }
  }

  lemma {:induction false} MarkedSame(h: Heap, h': Heap)
    requires HeapInv(h) && SameList(h, h')
    ensures MarkedOnPath(h') == MarkedOnPath(h)
  {
    var p :| IsPath(h, p);
    assert IsPath(h', p);
    forall a | 0 <= a < |h| ensures a in MarkedOnPath(h') <==> a in MarkedOnPath(h) {
      if Reachable(h, a) { var q :| IsPath(h, q) && a in q; PathsEqual(h, p, q); }
      if Reachable(h', a) { var q :| IsPath(h', q) && a in q; PathsEqual(h', p, q); }
    }
  }

  /** What a cut leaves was on the path, and is not the first node cut out. */
  lemma {:induction false} CutLeaves(h: Heap, p: seq<Addr>, i: nat, n: nat, a: Addr)
    requires HeapShape(h) && IsPath(h, p) && n > 1 && i + n < |p| && a in Cut(p, i, n)
    ensures a in p && a != p[i + 1]
  {
    var j :| 0 <= j < |Cut(p, i, n)| && Cut(p, i, n)[j] == a;
    var l := if j <= i then j else j - 1 + n;
    assert p[l] == a;
    if l <= i { PathSorted(h, p, l, i + 1); } else { PathSorted(h, p, i + 1, l); }
  }

  /** A snip uses up at least one marked node of the path. */
  lemma {:induction false} SnipShrinks(h: Heap, left: Addr, q: seq<Addr>)
    requires HeapInv(h) && IsShared(h, left) && left != TAIL && IsFrozenChain(h, q) && |q| > 1
    requires h[left].next == Word(q[0], false) && IsShared(h, q[|q| - 1])
    ensures MarkedOnPath(Store(h, left, Word(q[|q| - 1], false))) < MarkedOnPath(h)
  {
    var h' := Store(h, left, Word(q[|q| - 1], false));
    var p :| IsPath(h, p) && Covers(h, p);
    var i :| 0 <= i < |p| && p[i] == left;
    PathFollowsRun(h, p, i + 1, q, |q| - 1);
    SnipCutsPath(h, p, i, |q|, q[|q| - 1]);
    var p' := Cut(p, i, |q|);
    forall a | a in MarkedOnPath(h') ensures a in MarkedOnPath(h) && a != q[0] {
      var r :| IsPath(h', r) && a in r;
      PathsEqual(h', p', r);
      CutLeaves(h, p, i, |q|, a);
    }
    RunIsMarked(h, q, 0);
    assert p[i + 1] == q[0] && q[0] in MarkedOnPath(h);
  }

  // ---- the measure ----

  ghost predicate Completes(s: State, tid: Tid, s': State) { !Idle(s, tid) && Idle(s', tid) }

  ghost predicate Descends(s: State, s': State) {
    var q, q' := Sum(s.threads, IdleBit), Sum(s'.threads, IdleBit);
    var a, a' := Sum(s.threads, UnmarkedBit), Sum(s'.threads, UnmarkedBit);
    || q' < q
    || (q' == q && a' < a)
    || (q' == q && a' == a && MarkedOnPath(s'.heap) < MarkedOnPath(s.heap))
    || (q' == q && a' == a && MarkedOnPath(s'.heap) == MarkedOnPath(s.heap) && Work(s'.heap, s'.threads) < Work(s.heap, s.threads))
  }

  /** As long as the list stays the same, only the acting thread's rank changes. */
  lemma {:induction false} WorkUpdate(h: Heap, h': Heap, ts: seq<Thread>, tid: Tid, th: Thread)
    requires SameList(h, h') && forall i: Tid :: i < |ts| ==> ThreadInv(h, i, ts[i])
    ensures Work(h', ts[..]) == Work(h, ts)
    ensures tid < |ts| ==> Work(h', ts[tid := th]) + Rank(h, ts[tid]) == Work(h, ts) + Rank(h', th)
  {
    assert ts[..] == ts;
    if ts != [] {
      var n := |ts| - 1;
      assert ts[..n][..] == ts[..n];
      WorkUpdate(h, h', ts[..n], tid, th);
      RankSame(h, h', n, ts[n]);
      if tid < n { assert ts[tid := th][..n] == ts[..n][tid := th]; }
      if tid == n { assert ts[tid := th][..n] == ts[..n]; }
    }
  }

  lemma {:induction false} StepRankDescends(s: State, tid: Tid)
    requires SysInv(s) && tid < |s.threads| && !Idle(s, tid) && Safe(s.heap, s.threads[tid])
    requires !Changes(s.heap, s.threads[tid])
    ensures SameList(s.heap, HeapAfter(s.heap, s.threads[tid]))
    ensures Rank(HeapAfter(s.heap, s.threads[tid]), ThreadAfter(s.heap, s.threads[tid])) < Rank(s.heap, s.threads[tid])
  {
    var th := s.threads[tid];
    assert ThreadInv(s.heap, tid, th);
    if th.pc in {ReadHead, ReadNext, CheckRight} { SearchDescends(s.heap, tid, th); }
    else { UpdateDescends(s.heap, tid, th); }
  }

  /** No successful CAS and no call: a thread comes closer to its end. */
  lemma {:induction false} QuietStepDescends(s: State, tid: Tid, s': State)
    requires SysInv(s) && Next(s, tid, s') && !Idle(s, tid) && !Idle(s', tid)
    requires !Changes(s.heap, s.threads[tid])
    ensures Descends(s, s')
  {
    var th' := s'.threads[tid];
    StepRankDescends(s, tid);
    MarkedSame(s.heap, s'.heap);
    SumUpdate(s.threads, IdleBit, tid, th');
    SumUpdate(s.threads, UnmarkedBit, tid, th');
    WorkUpdate(s.heap, s'.heap, s.threads, tid, th');
  }

  /** A successful CAS that completes nothing is a mark or a snip. */
  lemma {:induction false} ChangeDescends(s: State, tid: Tid, s': State)
    requires SysInv(s) && Next(s, tid, s') && !Idle(s, tid) && !Idle(s', tid)
    requires Changes(s.heap, s.threads[tid])
    ensures Descends(s, s')
  {
    var th, th' := s.threads[tid], s'.threads[tid];
    assert ThreadInv(s.heap, tid, th);
    SumUpdate(s.threads, IdleBit, tid, th');
    SumUpdate(s.threads, UnmarkedBit, tid, th');
    if th.pc == Snip {
      var q :| IsFrozenChain(s.heap, q) && q[0] == th.leftNext && q[|q| - 1] == th.t;
      SnipShrinks(s.heap, th.left, q);
    }
  }

  lemma {:induction false} CallDescends(s: State, tid: Tid, s': State)
    requires Next(s, tid, s') && Idle(s, tid)
    ensures Descends(s, s')
  {
    SumUpdate(s.threads, IdleBit, tid, s'.threads[tid]);
  }

  lemma {:induction false} StepDescends(s: State, tid: Tid, s': State)
    requires SysInv(s) && Next(s, tid, s') && !Completes(s, tid, s')
    ensures Descends(s, s')
  {
    if Idle(s, tid) { CallDescends(s, tid, s'); }
    else if Changes(s.heap, s.threads[tid]) { ChangeDescends(s, tid, s'); }
    else { QuietStepDescends(s, tid, s'); }
  }

  // ---- retries ----

  /** The thread goes back to the head of the list. */
  ghost predicate Retries(s: State, tid: Tid, s': State) {
    && tid < |s.threads| && tid < |s'.threads|
    && !Idle(s, tid) && s'.threads[tid].pc == ReadHead
  }

  ghost predicate ChangedBy(s: State, who: Tid) {
    who < |s.threads| && !Idle(s, who) && Safe(s.heap, s.threads[who]) && Changes(s.heap, s.threads[who])
  }

  /** By itself a thread never loses track: from a fresh view it neither retries nor goes stale. */
  lemma {:induction false} OwnStepStaysFresh(s: State, tid: Tid, s': State)
    requires SysInv(s) && Next(s, tid, s') && !Idle(s, tid) && Fresh(s.heap, s.threads[tid])
    ensures Fresh(s'.heap, s'.threads[tid]) && !Retries(s, tid, s')
  {
    var th := s.threads[tid];
    assert ThreadInv(s.heap, tid, th);
  }

  /** Somebody else makes a view stale only with a successful CAS. */
  lemma {:induction false} OtherStepStaysFresh(s: State, other: Tid, s': State, tid: Tid)
    requires SysInv(s) && Next(s, other, s') && other != tid && tid < |s.threads|
    requires Fresh(s.heap, s.threads[tid]) && !ChangedBy(s, other)
    ensures Fresh(s'.heap, s'.threads[tid])
  {
    var th := s.threads[tid];
    assert ThreadInv(s.heap, tid, th) && ThreadInv(s.heap, other, s.threads[other]);
    assert forall a :: IsShared(s.heap, a) ==> s'.heap[a] == s.heap[a];
  }

  /** A thread may hold two links it has read: that of left_node, and that of right_node. */
  datatype Link = LeftLink | RightLink

  ghost predicate Holds(th: Thread, l: Link) {
    match l
    case LeftLink => th.pc in {ReadNext, Snip, CheckRight, LinkNew, Publish, ReadRight, MarkRight, Unlink}
    case RightLink => th.pc in {CheckRight, ReadRight, MarkRight} || (th.pc == Snip && th.t != TAIL)
  }

  function Field(th: Thread, l: Link): Addr { if l.LeftLink? then th.left else th.t }

  /** The link still has what the thread read there last, or wrote there itself. */
  ghost predicate Current(h: Heap, th: Thread, l: Link) {
    match l
    case LeftLink => Points(h, th.left, if th.pc == ReadNext || th.pc == Snip then th.leftNext else th.t)
    case RightLink => if th.pc == MarkRight then Points(h, th.t, th.rightNext) else Unmarked(h, th.t)
  }

  /** The field that the thread's successful CAS writes. */
  function Target(th: Thread): Addr { if th.pc == MarkRight then th.t else th.left }

  ghost predicate Writes(s: State, who: Tid, a: Addr) { ChangedBy(s, who) && Target(s.threads[who]) == a }

  /** The thread's own step reads or writes the link, or leaves what it holds of it as it was. */
  ghost predicate LinkKept(s: State, tid: Tid, s': State, l: Link)
    requires tid < |s.threads| && tid < |s'.threads|
  {
    var th, th' := s.threads[tid], s'.threads[tid];
    || Current(s'.heap, th', l)
    || (Holds(th, l) && Field(th', l) == Field(th, l) && !Current(s.heap, th, l))
  }

  lemma {:induction false} SearchKeepsLink(s: State, tid: Tid, s': State, l: Link)
    requires SysInv(s) && Next(s, tid, s') && s.threads[tid].pc in {ReadHead, ReadNext, CheckRight}
    requires Holds(s'.threads[tid], l)
    ensures LinkKept(s, tid, s', l)
  {
    assert ThreadInv(s.heap, tid, s.threads[tid]);
  }

  lemma {:induction false} UpdateKeepsLink(s: State, tid: Tid, s': State, l: Link)
    requires SysInv(s) && Next(s, tid, s') && s.threads[tid].pc !in {ReadHead, ReadNext, CheckRight}
    requires !s.threads[tid].pc.Quiet? && Holds(s'.threads[tid], l)
    ensures LinkKept(s, tid, s', l)
  {
    assert ThreadInv(s.heap, tid, s.threads[tid]);
  }

  lemma {:induction false} OwnStepKeepsLink(s: State, tid: Tid, s': State, l: Link)
    requires SysInv(s) && Next(s, tid, s') && Holds(s'.threads[tid], l)
    ensures LinkKept(s, tid, s', l)
  {
    if s.threads[tid].pc in {ReadHead, ReadNext, CheckRight} {
      SearchKeepsLink(s, tid, s', l);
    } else if !s.threads[tid].pc.Quiet? {
      UpdateKeepsLink(s, tid, s', l);
    }
  }

  /** Somebody else's step takes a link away only by a CAS on it. */
  lemma {:induction false} OtherStepKeepsLink(s: State, other: Tid, s': State, tid: Tid, l: Link)
    requires SysInv(s) && Next(s, other, s') && other != tid && tid < |s.threads|
    requires Holds(s.threads[tid], l) && Current(s.heap, s.threads[tid], l) && !Current(s'.heap, s.threads[tid], l)
    ensures Writes(s, other, Field(s.threads[tid], l))
  {
    assert ThreadInv(s.heap, tid, s.threads[tid]) && ThreadInv(s.heap, other, s.threads[other]);
  }

  /** Step m is another thread's CAS on the link; the thread held the right value until then, and has held
      the same link with a value that is out of date ever since, so it has not read it again. */
  ghost predicate Charged(run: Run, who: seq<Tid>, tid: Tid, l: Link, m: nat, i: nat)
    requires |run| == |who| + 1 && m < i < |run| && tid < |run[i].threads|
  {
    var f := Field(run[i].threads[tid], l);
    && who[m] != tid && Writes(run[m], who[m], f)
    && tid < |run[m].threads| && Current(run[m].heap, run[m].threads[tid], l)
    && (forall n :: m <= n <= i ==> HoldsAt(run[n], tid, l, f))
    && (forall n :: m < n <= i ==> StaleAt(run[n], tid, l))
  }

  ghost predicate HoldsAt(s: State, tid: Tid, l: Link, f: Addr) {
    tid < |s.threads| && Holds(s.threads[tid], l) && Field(s.threads[tid], l) == f
  }

  ghost predicate StaleAt(s: State, tid: Tid, l: Link) {
    tid < |s.threads| && !Current(s.heap, s.threads[tid], l)
  }

  lemma {:induction false} ChargeLasts(run: Run, who: seq<Tid>, tid: Tid, l: Link, m: nat, i: nat)
    requires |run| == |who| + 1 && 0 < i < |run| && m < i - 1 && tid < |run[i - 1].threads| && tid < |run[i].threads|
    requires Charged(run, who, tid, l, m, i - 1) && StaleAt(run[i], tid, l)
    requires HoldsAt(run[i], tid, l, Field(run[i - 1].threads[tid], l))
    ensures Charged(run, who, tid, l, m, i)
  {}

  lemma {:induction false} NewCharge(run: Run, who: seq<Tid>, tid: Tid, l: Link, i: nat)
    requires IsRun(run, who) && 0 < i < |run| && tid < |run[i].threads| && who[i - 1] != tid
    requires Holds(run[i].threads[tid], l) && !Current(run[i].heap, run[i].threads[tid], l)
    requires run[i].threads[tid] == run[i - 1].threads[tid] && Current(run[i - 1].heap, run[i - 1].threads[tid], l)
    ensures Charged(run, who, tid, l, i - 1, i)
  {
    RunInv(run, who, i - 1);
    assert Next(run[i - 1], who[i - 1], run[i]);
    OtherStepKeepsLink(run[i - 1], who[i - 1], run[i], tid, l);
  }

  /** A thread that holds a stale link held it one step before; unless it was stale already, the step was
      another thread's. */
  lemma {:induction false} OneStepBack(run: Run, who: seq<Tid>, tid: Tid, l: Link, i: nat)
    requires IsRun(run, who) && i < |run| && tid < |run[i].threads|
    requires Holds(run[i].threads[tid], l) && !Current(run[i].heap, run[i].threads[tid], l)
    ensures i > 0 && tid < |run[i - 1].threads| && HoldsAt(run[i - 1], tid, l, Field(run[i].threads[tid], l))
    ensures Current(run[i - 1].heap, run[i - 1].threads[tid], l) ==>
              who[i - 1] != tid && run[i].threads[tid] == run[i - 1].threads[tid]
  {
    RunInv(run, who, i);
    assert i > 0;
    RunInv(run, who, i - 1);
    assert Next(run[i - 1], who[i - 1], run[i]);
    if who[i - 1] == tid { OwnStepKeepsLink(run[i - 1], tid, run[i], l); }
  }

  lemma {:induction false} StaleIsCharged(run: Run, who: seq<Tid>, tid: Tid, l: Link, i: nat) returns (m: nat)
    requires IsRun(run, who) && i < |run| && tid < |run[i].threads|
    requires Holds(run[i].threads[tid], l) && !Current(run[i].heap, run[i].threads[tid], l)
    ensures m < i && Charged(run, who, tid, l, m, i)
    decreases i
  {
    OneStepBack(run, who, tid, l, i);
    if Current(run[i - 1].heap, run[i - 1].threads[tid], l) {
      m := i - 1;
      NewCharge(run, who, tid, l, i);
    } else {
      m := StaleIsCharged(run, who, tid, l, i - 1);
      ChargeLasts(run, who, tid, l, m, i);
    }
  }

  /** The link that decides the retry: left_node's for the three CASes on it, right_node's otherwise. */
  function RetryLink(th: Thread): Link {
    if th.pc == Snip || th.pc == Publish || th.pc == Unlink then LeftLink else RightLink
  }

  /** Every retry is charged to another thread's successful CAS on the very field whose check failed, made
      after this thread's last read of that field. */
  lemma {:induction false} RetryIsCharged(run: Run, who: seq<Tid>, tid: Tid, i: nat) returns (m: nat)
    requires IsRun(run, who) && i < |who| && who[i] == tid && Retries(run[i], tid, run[i + 1])
    ensures m < i && Charged(run, who, tid, RetryLink(run[i].threads[tid]), m, i)
  {
    RunInv(run, who, i);
    var s, th := run[i], run[i].threads[tid];
    assert Next(s, tid, run[i + 1]) && ThreadInv(s.heap, tid, th);
    assert Holds(th, RetryLink(th)) && !Current(s.heap, th, RetryLink(th));
    m := StaleIsCharged(run, who, tid, RetryLink(th), i);
  }

  // ---- infinite runs ----

  ghost predicate IsInfiniteRun(run: nat -> State, who: nat -> Tid) {
    Init(run(0)) && forall i: nat :: Next(run(i), who(i), run(i + 1))
  }

  lemma {:induction false} InfiniteRunInv(run: nat -> State, who: nat -> Tid, i: nat)
    requires IsInfiniteRun(run, who)
    ensures SysInv(run(i))
  {
    if i == 0 {
      InitInv(run(0));
    } else {
      InfiniteRunInv(run, who, i - 1);
      assert Next(run(i - 1), who(i - 1), run(i - 1 + 1));
      NextKeepsInv(run(i - 1), who(i - 1), run(i));
    }
  }

  /** Lock-freedom: from any moment on, some thread completes an operation. */
  lemma {:induction false} LockFree(run: nat -> State, who: nat -> Tid, from: nat) returns (i: nat)
    requires IsInfiniteRun(run, who)
    ensures i >= from && Completes(run(i), who(i), run(i + 1))
    decreases Sum(run(from).threads, IdleBit), Sum(run(from).threads, UnmarkedBit),
              MarkedOnPath(run(from).heap), Work(run(from).heap, run(from).threads)
  {
    if Completes(run(from), who(from), run(from + 1)) {
      i := from;
    } else {
      InfiniteRunInv(run, who, from);
      StepDescends(run(from), who(from), run(from + 1));
      i := LockFree(run, who, from + 1);
    }
  }
}
