/** Linearizability of the lock-free list, in the sense of Herlihy and Wing: for every run there is one
    sequential order of operations that is legal for an atomic map, contains every completed operation
    with the result it returned, and respects real time. */
module LfListLinear {
  import opened Types
  import opened LfListModel
  import opened LfListInvariant
  import opened LfListRuns

  // ---- the atomic map ----

  type Map = map<Int64, Addr>

  /** The sequential specification; an insert puts its own node under its key. */
  function Apply(m: Map, op: Op): (Map, Result) {
    match op
    case Insert(node, k) => if k in m then (m, Refused) else (m[k := node], Done)
    case Delete(k) => if k in m then (m - {k}, Done) else (m, Refused)
    case Search(k) => (m, if k in m then Found(m[k]) else Missing)
  }

  /** An operation in the order: who called it and when (the state it was called in), and the state `at`
      which it takes effect. */
  datatype Entry = Entry(tid: Tid, since: nat, op: Op, res: Result, at: nat)
  type Order = seq<Entry>

  function Replay(l: Order): Map {
    if l == [] then map[] else Apply(Replay(l[..|l| - 1]), l[|l| - 1].op).0
  }

  /** Every entry has the result the map would give at its place in the order. */
  ghost predicate LegalAt(l: Order, j: nat)
    requires j < |l|
  {
    Apply(Replay(l[..j]), l[j].op).1 == l[j].res
  }

  ghost predicate Legal(l: Order) { forall j: nat :: j < |l| ==> LegalAt(l, j) }

  // ---- operations of a run ----

  /** Thread `tid` starts an operation in state `c`. */
  ghost predicate Invoked(run: Run, tid: Tid, c: nat) {
    && c + 1 < |run| && Idle(run[c], tid)
    && tid < |run[c + 1].threads| && !run[c + 1].threads[tid].pc.Quiet?
  }

  /** ... and is still inside it in every state before `i`. */
  ghost predicate OpenUntil(run: Run, tid: Tid, c: nat, i: nat) {
    && Invoked(run, tid, c) && c < i <= |run|
    && forall j :: c < j < i ==> !Idle(run[j], tid)
  }

  ghost predicate Completed(run: Run, tid: Tid, c: nat, r: nat) {
    r < |run| && OpenUntil(run, tid, c, r) && Idle(run[r], tid)
  }

  ghost predicate HasId(e: Entry, tid: Tid, c: nat) { e.tid == tid && e.since == c }

  ghost predicate Distinct(l: Order) {
    forall j, k :: 0 <= j < k < |l| ==> !HasId(l[k], l[j].tid, l[j].since)
  }

  /** Every entry is an operation somebody invoked. */
  ghost predicate FromRun(run: Run, l: Order) {
    forall j :: 0 <= j < |l| ==>
      Invoked(run, l[j].tid, l[j].since) && run[l[j].since + 1].threads[l[j].tid].op == l[j].op
  }

  /** Every completed operation has an entry, with the result it returned. */
  ghost predicate HasResults(run: Run, l: Order) {
    forall tid: Tid, c: nat, r: nat :: Completed(run, tid, c, r) ==>
      exists j :: 0 <= j < |l| && HasId(l[j], tid, c) && l[j].res == run[r].threads[tid].pc.res
  }

  /** An operation that returned before another was called comes first. */
  ghost predicate RealTime(run: Run, l: Order) {
    forall j, k, r: nat ::
      0 <= j < |l| && 0 <= k < |l| && Completed(run, l[j].tid, l[j].since, r) && r <= l[k].since ==> j < k
  }

  ghost predicate IsLinearization(run: Run, l: Order)
    requires |run| > 0
  {
    && Legal(l) && Distinct(l) && FromRun(run, l) && HasResults(run, l) && RealTime(run, l)
    && Replay(l) == Abs(Last(run).heap)
  }

  // ---- the order that grows with the run ----

  /** The entry takes effect inside the interval of its operation and has the result that is returned. */
  ghost predicate Timed(run: Run, e: Entry) {
    && e.at < |run| && OpenUntil(run, e.tid, e.since, e.at)
    && run[e.since + 1].threads[e.tid].op == e.op
    && forall r: nat :: Completed(run, e.tid, e.since, r) ==> run[r].threads[e.tid].pc.res == e.res
  }

  ghost predicate Sorted(l: Order) { forall j, k :: 0 <= j < k < |l| ==> l[j].at <= l[k].at }

  /** The first `n` entries are those that took effect by state `i`. */
  ghost predicate Split(l: Order, n: nat, i: nat) {
    && n <= |l|
    && (forall j :: 0 <= j < n ==> l[j].at <= i)
    && (forall j :: n <= j < |l| ==> l[j].at > i)
  }

  /** Replaying the entries up to any state of the run gives the abstract map of that state. */
  ghost predicate Tracks(run: Run, l: Order) {
    forall i: nat, n: nat :: i < |run| && Split(l, n, i) ==> Replay(l[..n]) == Abs(run[i].heap)
  }

  ghost predicate Ordered(run: Run, l: Order) {
    && (forall j :: 0 <= j < |l| ==> Timed(run, l[j]))
    && Sorted(l) && Distinct(l) && Legal(l) && Tracks(run, l)
  }

  ghost predicate Contains(l: Order, tid: Tid, c: nat) { exists j :: 0 <= j < |l| && HasId(l[j], tid, c) }

  ghost predicate AllCompleted(run: Run, l: Order) {
    forall tid: Tid, c: nat, r: nat :: Completed(run, tid, c, r) ==> Contains(l, tid, c)
  }

  /** A delete that has set its mark, and only such an operation, is in the order before it returns. */
  ghost predicate HasMarked(th: Thread) { th.pc == Unlink || th.cleanup }

  ghost predicate PendingOk(run: Run, l: Order, tid: Tid)
    requires |run| > 0
  {
    tid < |Last(run).threads| && !Idle(Last(run), tid) ==>
      var c := Since(run, tid);
      && (Contains(l, tid, c) <==> HasMarked(Last(run).threads[tid]))
      && forall j :: 0 <= j < |l| && HasId(l[j], tid, c) ==> l[j].res == Done
  }

  ghost predicate Witness(run: Run, l: Order)
    requires |run| > 0
  {
    && Ordered(run, l) && AllCompleted(run, l)
    && (forall tid: Tid :: PendingOk(run, l, tid))
    && (forall tid: Tid :: tid < |Last(run).threads| ==> Watch(run, tid))
  }

  // ---- inserting entries ----

  ghost function Put(l: Order, n: nat, e: Entry): Order
    requires n <= |l|
  {
    l[..n] + [e] + l[n..]
  }

  /** An operation that leaves the map alone can be put anywhere its result is right. */
  lemma {:induction false} PutReplay(l: Order, n: nat, e: Entry, m: nat)
    requires n <= |l| && m <= |l| + 1
    requires Apply(Replay(l[..n]), e.op).0 == Replay(l[..n])
    ensures Replay(Put(l, n, e)[..m]) == if m <= n then Replay(l[..m]) else Replay(l[..m - 1])
    decreases m
  {
    var l' := Put(l, n, e);
    if m <= n {
      assert l'[..m] == l[..m];
    } else {
      assert l'[..m][..m - 1] == l'[..m - 1];
      PutReplay(l, n, e, m - 1);
      if m == n + 1 {
        assert l'[..m][m - 1] == e;
      } else {
        assert l'[..m][m - 1] == l[..m - 1][m - 2];
        assert l[..m - 1][..m - 2] == l[..m - 2];
      }
    }
  }

  lemma {:induction false} PutIndex(l: Order, n: nat, e: Entry, j: nat)
    requires n <= |l| && j <= |l|
    ensures Put(l, n, e)[j] == if j < n then l[j] else if j == n then e else l[j - 1]
  {}

  lemma {:induction false} PutLegalAt(l: Order, n: nat, e: Entry, j: nat)
    requires n <= |l| && Apply(Replay(l[..n]), e.op) == (Replay(l[..n]), e.res) && j <= |l|
    requires j < n ==> LegalAt(l, j)
    requires j > n ==> LegalAt(l, j - 1)
    ensures LegalAt(Put(l, n, e), j)
  {
    PutReplay(l, n, e, j);
    PutIndex(l, n, e, j);
  }

  lemma {:induction false} PutLegal(l: Order, n: nat, e: Entry)
    requires n <= |l| && Legal(l) && Apply(Replay(l[..n]), e.op) == (Replay(l[..n]), e.res)
    ensures Legal(Put(l, n, e))
  {
    forall j: nat | j < |l| + 1 ensures LegalAt(Put(l, n, e), j) { PutLegalAt(l, n, e, j); }
  }

  lemma {:induction false} PutSorted(l: Order, n: nat, e: Entry)
    requires Sorted(l) && Split(l, n, e.at)
    ensures Sorted(Put(l, n, e))
  {
    forall j, k | 0 <= j < k < |l| + 1 ensures Put(l, n, e)[j].at <= Put(l, n, e)[k].at {
      PutIndex(l, n, e, j);
      PutIndex(l, n, e, k);
    }
  }

  lemma {:induction false} SplitPut(l: Order, n: nat, e: Entry, m: nat, i: nat)
    requires n <= |l| && Split(Put(l, n, e), m, i)
    ensures Split(l, if m <= n then m else m - 1, i)
  {
    forall j | 0 <= j < |l| ensures l[j] == Put(l, n, e)[if j < n then j else j + 1] {
      PutIndex(l, n, e, if j < n then j else j + 1);
    }
  }

  lemma {:induction false} PutTracks(run: Run, l: Order, n: nat, e: Entry)
    requires Tracks(run, l) && n <= |l| && Apply(Replay(l[..n]), e.op).0 == Replay(l[..n])
    ensures Tracks(run, Put(l, n, e))
  {
    forall i: nat, m: nat | i < |run| && Split(Put(l, n, e), m, i)
      ensures Replay(Put(l, n, e)[..m]) == Abs(run[i].heap)
    {
      PutReplay(l, n, e, m);
      SplitPut(l, n, e, m, i);
    }
  }

  lemma {:induction false} PutDistinct(l: Order, n: nat, e: Entry)
    requires n <= |l| && Distinct(l) && !Contains(l, e.tid, e.since)
    ensures Distinct(Put(l, n, e))
  {
    var l' := Put(l, n, e);
    forall j, k | 0 <= j < k < |l'| ensures !HasId(l'[k], l'[j].tid, l'[j].since) {
      PutIndex(l, n, e, j);
      PutIndex(l, n, e, k);
      if j == n { assert !HasId(l[k - 1], e.tid, e.since); }
      if k == n { assert !HasId(l[j], e.tid, e.since); }
    }
  }

  lemma {:induction false} PutContains(l: Order, n: nat, e: Entry, tid: Tid, c: nat)
    requires n <= |l|
    ensures Contains(Put(l, n, e), tid, c) <==> Contains(l, tid, c) || HasId(e, tid, c)
  {
    var l' := Put(l, n, e);
    if Contains(l, tid, c) {
      var j :| 0 <= j < |l| && HasId(l[j], tid, c);
      PutIndex(l, n, e, if j < n then j else j + 1);
    }
    if HasId(e, tid, c) { PutIndex(l, n, e, n); }
    if Contains(l', tid, c) {
      var j :| 0 <= j < |l'| && HasId(l'[j], tid, c);
      PutIndex(l, n, e, j);
    }
  }

  lemma {:induction false} SplitExists(l: Order, i: nat) returns (n: nat)
    requires Sorted(l)
    ensures Split(l, n, i)
  {
    n := |l|;
    while n > 0 && l[n - 1].at > i
      invariant n <= |l| && forall j :: n <= j < |l| ==> l[j].at > i
    {
      n := n - 1;
    }
  }

  // ---- one more step ----

  /** A step ends at most the operation of the thread that makes it. */
  lemma {:induction false} NewCompletion(run: Run, who: seq<Tid>, tid: Tid, s': State, x: Tid, c: nat)
    requires IsRun(run, who) && Next(Last(run), tid, s') && Completed(run + [s'], x, c, |run|)
    ensures x == tid && !Idle(Last(run), tid) && c == Since(run, tid)
  {
    var run' := run + [s'];
    assert forall j :: 0 <= j < |run| ==> run'[j] == run[j];
    assert !Idle(run'[|run| - 1], x) && run'[|run|] == s';
    RunInv(run, who, |run| - 1);
    assert forall j :: c < j < |run| ==> !Idle(run'[j], x);
    SinceUnique(run, tid, c);
  }

  lemma {:induction false} OldCompletion(run: Run, s': State, x: Tid, c: nat, r: nat)
    requires Completed(run + [s'], x, c, r) && r < |run|
    ensures Completed(run, x, c, r)
  {
    var run' := run + [s'];
    assert forall j :: 0 <= j < |run| ==> run'[j] == run[j];
    assert Invoked(run, x, c);
    assert forall j :: c < j < r ==> !Idle(run'[j], x);
  }

  lemma {:induction false} OpenAppend(run: Run, s': State, x: Tid, c: nat, i: nat)
    requires OpenUntil(run, x, c, i)
    ensures OpenUntil(run + [s'], x, c, i)
  {
    var run' := run + [s'];
    assert forall j :: 0 <= j < |run| ==> run'[j] == run[j];
  }

  /** Does this step end the operation of `e`? */
  ghost predicate Ends(run: Run, tid: Tid, s': State, e: Entry)
    requires |run| > 0
  {
    HasId(e, tid, Since(run, tid)) && !Idle(Last(run), tid) && Idle(s', tid)
  }

  lemma {:induction false} GrowTimed(run: Run, who: seq<Tid>, tid: Tid, s': State, e: Entry)
    requires IsRun(run, who) && Next(Last(run), tid, s') && Timed(run, e)
    requires Ends(run, tid, s', e) ==> s'.threads[tid].pc.res == e.res
    ensures Timed(run + [s'], e)
  {
    var run' := run + [s'];
    OpenAppend(run, s', e.tid, e.since, e.at);
    forall r: nat | Completed(run', e.tid, e.since, r) ensures run'[r].threads[e.tid].pc.res == e.res {
      if r < |run| { OldCompletion(run, s', e.tid, e.since, r); }
      else { NewCompletion(run, who, tid, s', e.tid, e.since); }
    }
  }

  lemma {:induction false} SplitAll(l: Order, n: nat, i: nat)
    requires Split(l, n, i) && (n < |l| ==> l[n].at <= i)
    ensures n == |l|
  {}

  lemma {:induction false} GrowTracks(run: Run, l: Order, s': State)
    requires |run| > 0 && Tracks(run, l) && Abs(s'.heap) == Abs(Last(run).heap)
    requires forall j :: 0 <= j < |l| ==> l[j].at < |run|
    ensures Tracks(run + [s'], l)
  {
    var run' := run + [s'];
    forall i: nat, n: nat | i < |run'| && Split(l, n, i) ensures Replay(l[..n]) == Abs(run'[i].heap) {
      if i == |run| {
        SplitAll(l, n, i);
        assert Split(l, n, |run| - 1);
      }
    }
  }

  /** No effect on the map: the order stays as it is. */
  lemma {:induction false} GrowOrdered(run: Run, who: seq<Tid>, tid: Tid, s': State, l: Order)
    requires IsRun(run, who) && Next(Last(run), tid, s') && Ordered(run, l)
    requires Abs(s'.heap) == Abs(Last(run).heap)
    requires forall j :: 0 <= j < |l| && Ends(run, tid, s', l[j]) ==> s'.threads[tid].pc.res == l[j].res
    ensures Ordered(run + [s'], l)
  {
    forall j | 0 <= j < |l| ensures Timed(run + [s'], l[j]) { GrowTimed(run, who, tid, s', l[j]); }
    GrowTracks(run, l, s');
  }

  /** The running operation of a thread, as an entry that takes effect at `at`. */
  lemma {:induction false} NewTimed(run: Run, who: seq<Tid>, tid: Tid, s': State, e: Entry)
    requires IsRun(run, who) && Next(Last(run), tid, s') && Watch(run, tid) && !Idle(Last(run), tid)
    requires HasId(e, tid, Since(run, tid)) && e.since < e.at <= |run| && e.op == Last(run).threads[tid].op
    requires Idle(s', tid) ==> s'.threads[tid].pc.res == e.res
    ensures Timed(run + [s'], e)
  {
    var run', c := run + [s'], Since(run, tid);
    RunInv(run, who, |run| - 1);
    RunInv(run, who, c + 1);
    assert Idle(run[0], tid);
    assert Invoked(run', tid, c);
    assert forall j :: c < j < |run| ==> run'[j] == run[j];
    assert OpenUntil(run', tid, c, |run|);
    forall r: nat | Completed(run', tid, c, r) ensures run'[r].threads[tid].pc.res == e.res {
      if r < |run| { NotIdleSince(run, tid, r); }
    }
  }

  lemma {:induction false} AppendTracks(run: Run, s': State, l: Order, e: Entry)
    requires |run| > 0 && Tracks(run, l) && e.at == |run|
    requires forall j :: 0 <= j < |l| ==> l[j].at < |run|
    requires Apply(Abs(Last(run).heap), e.op) == (Abs(s'.heap), e.res)
    ensures Tracks(run + [s'], l + [e]) && Apply(Replay(l), e.op).1 == e.res
  {
    var run', l' := run + [s'], l + [e];
    assert Split(l, |l|, |run| - 1) && l[..|l|] == l && l'[..|l|] == l;
    forall i: nat, n: nat | i < |run'| && Split(l', n, i) ensures Replay(l'[..n]) == Abs(run'[i].heap) {
      assert l'[|l|] == e;
      assert forall j :: 0 <= j < |l| ==> l'[j] == l[j];
      if i == |run| {
        SplitAll(l', n, i);
        assert l'[..n] == l';
      } else {
        assert Split(l, n, i) && l'[..n] == l[..n];
      }
    }
  }

  lemma {:induction false} AppendLegal(l: Order, e: Entry)
    requires Legal(l) && Apply(Replay(l), e.op).1 == e.res
    ensures Legal(l + [e])
  {
    var l' := l + [e];
    forall j: nat | j < |l'| ensures LegalAt(l', j) {
      if j < |l| { assert LegalAt(l, j) && l'[..j] == l[..j]; } else { assert l'[..j] == l; }
    }
  }

  /** An effect on the map: the operation goes to the end of the order. */
  lemma {:induction false} AppendUpdate(run: Run, who: seq<Tid>, tid: Tid, s': State, l: Order, e: Entry)
    requires IsRun(run, who) && Next(Last(run), tid, s') && Ordered(run, l)
    requires Timed(run + [s'], e) && HasId(e, tid, Since(run, tid)) && e.at == |run|
    requires !Contains(l, e.tid, e.since)
    requires Apply(Abs(Last(run).heap), e.op) == (Abs(s'.heap), e.res)
    ensures Ordered(run + [s'], Put(l, |l|, e))
  {
    var l' := l + [e];
    assert l' == Put(l, |l|, e);
    PutDistinct(l, |l|, e);
    AppendTracks(run, s', l, e);
    forall j | 0 <= j < |l| ensures Timed(run + [s'], l[j]) {
      assert !HasId(l[j], e.tid, e.since);
      GrowTimed(run, who, tid, s', l[j]);
    }
    PutTimed(run + [s'], l, |l|, e);
    AppendLegal(l, e);
  }

  lemma {:induction false} PutTimed(run: Run, l: Order, n: nat, e: Entry)
    requires n <= |l| && Timed(run, e) && forall j :: 0 <= j < |l| ==> Timed(run, l[j])
    ensures forall j :: 0 <= j < |l| + 1 ==> Timed(run, Put(l, n, e)[j])
  {
    forall j | 0 <= j < |l| + 1 ensures Timed(run, Put(l, n, e)[j]) { PutIndex(l, n, e, j); }
  }

  /** A result that was right in state `e.at`: the operation is put there. */
  lemma {:induction false} PutReader(run: Run, l: Order, n: nat, e: Entry)
    requires Ordered(run, l) && Split(l, n, e.at) && Timed(run, e) && !Contains(l, e.tid, e.since)
    requires Apply(Abs(run[e.at].heap), e.op) == (Abs(run[e.at].heap), e.res)
    ensures Ordered(run, Put(l, n, e))
  {
    assert Replay(l[..n]) == Abs(run[e.at].heap);
    PutLegal(l, n, e);
    PutTracks(run, l, n, e);
    PutSorted(l, n, e);
    PutDistinct(l, n, e);
    PutTimed(run, l, n, e);
  }

  // ---- bookkeeping around the order ----

  lemma {:induction false} CompletedGrow(run: Run, who: seq<Tid>, tid: Tid, s': State, l: Order, l': Order)
    requires IsRun(run, who) && Next(Last(run), tid, s') && AllCompleted(run, l)
    requires forall x: Tid, c: nat :: Contains(l, x, c) ==> Contains(l', x, c)
    requires !Idle(Last(run), tid) && Idle(s', tid) ==> Contains(l', tid, Since(run, tid))
    ensures AllCompleted(run + [s'], l')
  {
    forall x: Tid, c: nat, r: nat | Completed(run + [s'], x, c, r) ensures Contains(l', x, c) {
      if r < |run| { OldCompletion(run, s', x, c, r); }
      else { NewCompletion(run, who, tid, s', x, c); }
    }
  }

  lemma {:induction false} OthersPending(run: Run, who: seq<Tid>, tid: Tid, s': State, l: Order, l': Order, x: Tid)
    requires IsRun(run, who) && Next(Last(run), tid, s') && x != tid && PendingOk(run, l, x)
    requires forall c: nat :: Contains(l', x, c) <==> Contains(l, x, c)
    requires forall j :: 0 <= j < |l'| && l'[j].tid == x ==> l'[j] in l
    ensures PendingOk(run + [s'], l', x)
  {
    SinceAppend(run, s', x);
    if x < |s'.threads| && !Idle(s', x) {
      var c := Since(run, x);
      forall j | 0 <= j < |l'| && HasId(l'[j], x, c) ensures l'[j].res == Done {
        var i :| 0 <= i < |l| && l[i] == l'[j];
        assert HasId(l[i], x, c);
      }
    }
  }

  lemma {:induction false} WatchAll(run: Run, who: seq<Tid>, tid: Tid, s': State, x: Tid)
    requires IsRun(run, who) && Next(Last(run), tid, s') && x < |s'.threads| && Watch(run, x) && Watch(run, tid)
    ensures Watch(run + [s'], x)
  {
    RunInv(run, who, |run| - 1);
    if x != tid {
      WatchOther(run, who, tid, s', x);
    } else if Idle(Last(run), tid) {
      SinceAppend(run, s', tid);
      assert (run + [s'])[|run|] == s';
    } else {
      WatchSelf(run, who, tid, s');
    }
  }

  lemma {:induction false} AbsAfter(s: State, tid: Tid, s': State)
    requires SysInv(s) && Next(s, tid, s')
    requires !Idle(s, tid) ==> !Publishes(s.heap, s.threads[tid]) && !Marks(s.heap, s.threads[tid])
    ensures Abs(s'.heap) == Abs(s.heap)
  {
    if Idle(s, tid) {
      NextKeepsInv(s, tid, s');
      AbsExact(s.heap);
      AbsExact(s'.heap);
      assert forall a, k :: LiveAt(s.heap, a, k) <==> LiveAt(s'.heap, a, k);
      AbsSame(s.heap, s'.heap);
    } else {
      assert ThreadInv(s.heap, tid, s.threads[tid]);
      OtherStepsKeepAbs(s.heap, tid, s.threads[tid]);
    }
  }

  /** Only a step of this kind has to be entered into the order. */
  ghost predicate Effect(s: State, tid: Tid) {
    && tid < |s.threads| && !Idle(s, tid) && Safe(s.heap, s.threads[tid])
    && (Publishes(s.heap, s.threads[tid]) || Marks(s.heap, s.threads[tid]))
  }

  lemma {:induction false} EffectApplies(s: State, tid: Tid, s': State)
    requires SysInv(s) && Next(s, tid, s') && Effect(s, tid)
    ensures Apply(Abs(s.heap), s.threads[tid].op) == (Abs(s'.heap), Done)
    ensures Idle(s', tid) ==> s'.threads[tid].pc.res == Done
    ensures !Idle(s', tid) ==> HasMarked(s'.threads[tid])
    ensures !HasMarked(s.threads[tid])
  {
    var th := s.threads[tid];
    assert ThreadInv(s.heap, tid, th);
    if Publishes(s.heap, th) { PublishAddsKey(s.heap, tid, th); } else { MarkRemovesKey(s.heap, tid, th); }
  }

  // ---- the four kinds of step ----

  lemma {:induction false} MarkedPending(run: Run, tid: Tid, s': State, l: Order, n: nat, e: Entry)
    requires |run| > 0 && n <= |l| && HasId(e, tid, Since(run, tid)) && !Contains(l, tid, Since(run, tid))
    requires !Idle(s', tid) && tid < |s'.threads| ==> HasMarked(s'.threads[tid]) && e.res == Done
    ensures PendingOk(run + [s'], Put(l, n, e), tid)
  {
    var l', c := Put(l, n, e), Since(run, tid);
    SinceAppend(run, s', tid);
    PutContains(l, n, e, tid, c);
    if tid < |s'.threads| && !Idle(s', tid) {
      assert forall j :: 0 <= j < |l| ==> !HasId(l[j], tid, c);
      forall j | 0 <= j < |l'| && HasId(l'[j], tid, c) ensures l'[j].res == Done { PutIndex(l, n, e, j); }
    }
  }

  lemma {:induction false} WitnessRest(run: Run, who: seq<Tid>, tid: Tid, s': State, l: Order, n: nat, e: Entry)
    requires IsRun(run, who) && Next(Last(run), tid, s') && Witness(run, l) && n <= |l|
    requires !Idle(Last(run), tid) && HasId(e, tid, Since(run, tid)) && Ordered(run + [s'], Put(l, n, e))
    requires !Contains(l, tid, Since(run, tid))
    requires !Idle(s', tid) ==> HasMarked(s'.threads[tid]) && e.res == Done
    ensures Witness(run + [s'], Put(l, n, e))
  {
    var l', run' := Put(l, n, e), run + [s'];
    forall x: Tid, c: nat ensures Contains(l', x, c) <==> Contains(l, x, c) || HasId(e, x, c) { PutContains(l, n, e, x, c); }
    CompletedGrow(run, who, tid, s', l, l');
    forall x: Tid | x < |s'.threads| ensures Watch(run', x) { WatchAll(run, who, tid, s', x); }
    forall j | 0 <= j < |l'| && l'[j].tid != tid ensures l'[j] in l { PutIndex(l, n, e, j); }
    forall x: Tid ensures PendingOk(run', l', x) {
      if x != tid { OthersPending(run, who, tid, s', l, l', x); }
      else { MarkedPending(run, tid, s', l, n, e); }
    }
  }

  lemma {:induction false} WitnessUpdate(run: Run, who: seq<Tid>, tid: Tid, s': State, l: Order) returns (l': Order)
    requires IsRun(run, who) && Next(Last(run), tid, s') && Witness(run, l) && Effect(Last(run), tid)
    ensures Witness(run + [s'], l')
  {
    var s, c := Last(run), Since(run, tid);
    var e := Entry(tid, c, s.threads[tid].op, Done, |run|);
    RunInv(run, who, |run| - 1);
    EffectApplies(s, tid, s');
    NewTimed(run, who, tid, s', e);
    assert PendingOk(run, l, tid);
    AppendUpdate(run, who, tid, s', l, e);
    WitnessRest(run, who, tid, s', l, |l|, e);
    l' := Put(l, |l|, e);
  }

  /** A justified result as an entry of the order. */
  lemma {:induction false} JustifiedMoment(run: Run, c: nat, op: Op, res: Result) returns (i: nat)
    requires Justified(run, c, op, res)
    ensures c < i < |run| && Apply(Abs(run[i].heap), op) == (Abs(run[i].heap), res)
  {
    match op {
      case Search(k) =>
        if res == Missing { i :| c < i < |run| && k !in Abs(run[i].heap); }
        else { i :| c < i < |run| && k in Abs(run[i].heap) && Abs(run[i].heap)[k] == res.at; }
      case Insert(_, k) =>
        var a :| PresentSeen(run, c, k, a);
        i :| c < i < |run| && k in Abs(run[i].heap) && Abs(run[i].heap)[k] == a;
      case Delete(k) => i :| c < i < |run| && k !in Abs(run[i].heap);
    }
  }

  lemma {:induction false} WitnessReader(run: Run, who: seq<Tid>, tid: Tid, s': State, l: Order) returns (l': Order)
    requires IsRun(run, who) && Next(Last(run), tid, s') && Witness(run, l)
    requires !Idle(Last(run), tid) && Idle(s', tid) && !Effective(Last(run).threads[tid])
    ensures Witness(run + [s'], l')
  {
    var s, c, run' := Last(run), Since(run, tid), run + [s'];
    var op, res := s.threads[tid].op, s'.threads[tid].pc.res;
    RunInv(run, who, |run| - 1);
    WatchSelf(run, who, tid, s');
    var i := JustifiedMoment(run', c, op, res);
    var e := Entry(tid, c, op, res, i);
    NewTimed(run, who, tid, s', e);
    assert PendingOk(run, l, tid);
    AbsAfter(s, tid, s');
    assert forall j :: 0 <= j < |l| ==> !Ends(run, tid, s', l[j]);
    GrowOrdered(run, who, tid, s', l);
    var n := SplitExists(l, i);
    PutReader(run', l, n, e);
    WitnessRest(run, who, tid, s', l, n, e);
    l' := Put(l, n, e);
  }

  lemma {:induction false} SamePending(run: Run, who: seq<Tid>, tid: Tid, s': State, l: Order)
    requires IsRun(run, who) && SysInv(Last(run)) && Next(Last(run), tid, s') && !Effect(Last(run), tid)
    requires (forall j :: 0 <= j < |l| ==> Timed(run, l[j])) && PendingOk(run, l, tid)
    ensures PendingOk(run + [s'], l, tid)
  {
    SinceAppend(run, s', tid);
    if Idle(Last(run), tid) {
      forall j | 0 <= j < |l| ensures !HasId(l[j], tid, Since(run, tid)) { assert Timed(run, l[j]); }
    } else {
      assert ThreadInv(Last(run).heap, tid, Last(run).threads[tid]);
    }
  }

  /** The entry of a returning delete says Done, as the delete does. */
  lemma {:induction false} SameResult(run: Run, who: seq<Tid>, tid: Tid, s': State, l: Order)
    requires IsRun(run, who) && SysInv(Last(run)) && Next(Last(run), tid, s') && PendingOk(run, l, tid)
    requires tid < |Last(run).threads| && Watch(run, tid)
    requires !Idle(Last(run), tid) && Idle(s', tid) ==> Effective(Last(run).threads[tid])
    ensures forall j :: 0 <= j < |l| && Ends(run, tid, s', l[j]) ==> s'.threads[tid].pc.res == l[j].res
  {
    if !Idle(Last(run), tid) { WatchSelf(run, who, tid, s'); }
  }

  /** A call, a step in the middle, or the return of a delete that marked its node long ago. */
  lemma {:induction false} WitnessSame(run: Run, who: seq<Tid>, tid: Tid, s': State, l: Order)
    requires IsRun(run, who) && Next(Last(run), tid, s') && Witness(run, l) && !Effect(Last(run), tid)
    requires !Idle(Last(run), tid) && Idle(s', tid) ==> Effective(Last(run).threads[tid])
    ensures Witness(run + [s'], l)
  {
    RunInv(run, who, |run| - 1);
    AbsAfter(Last(run), tid, s');
    assert PendingOk(run, l, tid);
    SameResult(run, who, tid, s', l);
    GrowOrdered(run, who, tid, s', l);
    ReturningIsContained(run, tid, s', l);
    CompletedGrow(run, who, tid, s', l, l);
    forall x: Tid | x < |s'.threads| ensures Watch(run + [s'], x) { WatchAll(run, who, tid, s', x); }
    forall x: Tid ensures PendingOk(run + [s'], l, x) {
      if x != tid { OthersPending(run, who, tid, s', l, l, x); }
      else { SamePending(run, who, tid, s', l); }
    }
  }

  lemma {:induction false} ReturningIsContained(run: Run, tid: Tid, s': State, l: Order)
    requires |run| > 0 && SysInv(Last(run)) && Next(Last(run), tid, s') && !Effect(Last(run), tid)
    requires PendingOk(run, l, tid)
    requires !Idle(Last(run), tid) && Idle(s', tid) ==> Effective(Last(run).threads[tid])
    ensures !Idle(Last(run), tid) && Idle(s', tid) ==> Contains(l, tid, Since(run, tid))
  {}

  lemma {:induction false} WitnessExists(run: Run, who: seq<Tid>) returns (l: Order)
    requires IsRun(run, who)
    ensures Witness(run, l)
    decreases |run|
  {
    if |run| == 1 {
      l := [];
      InitInv(run[0]);
      AbsExact(run[0].heap);
      assert forall a, k :: !LiveAt(run[0].heap, a, k);
      assert Abs(run[0].heap) == map[];
    } else {
      var before, w, s' := run[..|run| - 1], who[..|who| - 1], Last(run);
      var tid := who[|who| - 1];
      assert before + [s'] == run && w + [tid] == who;
      RunPrefix(before, w, s', tid);
      var l0 := WitnessExists(before, w);
      if Effect(Last(before), tid) {
        l := WitnessUpdate(before, w, tid, s', l0);
      } else if !Idle(Last(before), tid) && Idle(s', tid) && !Effective(Last(before).threads[tid]) {
        l := WitnessReader(before, w, tid, s', l0);
      } else {
        WitnessSame(before, w, tid, s', l0);
        l := l0;
      }
    }
  }

  lemma {:induction false} WitnessResults(run: Run, l: Order)
    requires Ordered(run, l) && AllCompleted(run, l)
    ensures HasResults(run, l)
  {
    forall tid: Tid, c: nat, r: nat | Completed(run, tid, c, r)
      ensures exists j :: 0 <= j < |l| && HasId(l[j], tid, c) && l[j].res == run[r].threads[tid].pc.res
    {
      var j :| 0 <= j < |l| && HasId(l[j], tid, c);
      assert Timed(run, l[j]);
    }
  }

  lemma {:induction false} TimedBeforeReturn(run: Run, e: Entry, r: nat)
    requires Timed(run, e) && Completed(run, e.tid, e.since, r)
    ensures e.at <= r
  {}

  lemma {:induction false} WitnessRealTime(run: Run, l: Order)
    requires Ordered(run, l)
    ensures RealTime(run, l)
  {
    forall j, k, r: nat | 0 <= j < |l| && 0 <= k < |l| && Completed(run, l[j].tid, l[j].since, r) && r <= l[k].since
      ensures j < k
    {
      TimedBeforeReturn(run, l[j], r);
      assert l[k].since < l[k].at;
    }
  }

  /** The main theorem: every run of any number of threads is linearizable. */
  lemma {:induction false} Linearizable(run: Run, who: seq<Tid>)
    requires IsRun(run, who)
    ensures exists l :: IsLinearization(run, l)
  {
    var l := WitnessExists(run, who);
    assert Split(l, |l|, |run| - 1) && l[..|l|] == l;
    WitnessResults(run, l);
    WitnessRealTime(run, l);
    assert FromRun(run, l);
    assert IsLinearization(run, l);
  }
}
