/** Linearizability in the callers' terms: their requests, and a map from keys to the data they put in. */
module LfListRequests {
  import opened Types
  import opened LfListModel
  import opened LfListInvariant
  import opened LfListRuns
  import Lin = LfListLinear

  /** What a caller gets: 0, -1, the data of the node it is handed, or a null node. */
  datatype Answer = Zero | MinusOne | Data(d: int) | Null

  type DataMap = map<Int64, int>

  /** The map the callers share. */
  function Serve(m: DataMap, req: Request): (DataMap, Answer) {
    match req
    case ReqInsert(k, d) => if k in m then (m, MinusOne) else (m[k := d], Zero)
    case ReqDelete(k) => if k in m then (m - {k}, Zero) else (m, MinusOne)
    case ReqSearch(k) => (m, if k in m then Data(m[k]) else Null)
  }

  lemma {:induction false} ServeExact(m: DataMap, req: Request, j: Int64)
    ensures var (m', a), k := Serve(m, req), req.k;
            && (j != k ==> (j in m' <==> j in m) && (j in m ==> m'[j] == m[j]))
            && (req.ReqInsert? ==> k in m' && m'[k] == (if k in m then m[k] else req.d) && a == if k in m then MinusOne else Zero)
            && (req.ReqDelete? ==> k !in m' && a == if k in m then Zero else MinusOne)
            && (req.ReqSearch? ==> m' == m && a == if k in m then Data(m[k]) else Null)
  {}

  /** The run in which the i-th step, if it is a call, is the call of reqs[i]. */
  ghost predicate Asks(run: Run, who: seq<Tid>, reqs: seq<Request>) {
    && IsRun(run, who) && |reqs| == |who|
    && forall i :: 0 <= i < |who| && Idle(run[i], who[i]) ==>
         var s, tid := run[i], who[i];
         run[i + 1] == State(CallHeap(s.heap, tid, reqs[i]), s.threads[tid := CallThread(s.heap, s.threads[tid], reqs[i])])
  }

  /** Every run is such a run. */
  lemma {:induction false} EveryRunAsks(run: Run, who: seq<Tid>) returns (reqs: seq<Request>)
    requires IsRun(run, who)
    ensures Asks(run, who, reqs)
    decreases |run|
  {
    reqs := [];
    if |run| > 1 {
      var before, w, s, s', tid := run[..|run| - 1], who[..|who| - 1], run[|run| - 2], Last(run), who[|who| - 1];
      assert before + [s'] == run && w + [tid] == who;
      RunPrefix(before, w, s', tid);
      reqs := EveryRunAsks(before, w);
      var req := ReqSearch(0);
      if Idle(s, tid) {
        req :| s' == State(CallHeap(s.heap, tid, req), s.threads[tid := CallThread(s.heap, s.threads[tid], req)]);
      }
      reqs := reqs + [req];
    }
  }

  /** A call in the order: who made it and when, and what it was answered. */
  datatype Entry = Entry(tid: Tid, since: nat, req: Request, ans: Answer)
  type Order = seq<Entry>

  function Replay(l: Order): DataMap {
    if l == [] then map[] else Serve(Replay(l[..|l| - 1]), l[|l| - 1].req).0
  }

  /** What a result says to the caller, who reads the data of the node it is handed. */
  function AnswerOf(h: Heap, res: Result): Answer
    requires res.Found? ==> Valid(h, res.at)
  {
    match res
    case Done => Zero
    case Refused => MinusOne
    case Found(a) => Data(h[a].data)
    case _ => Null
  }

  ghost predicate Answered(h: Heap, res: Result, ans: Answer) {
    (res.Found? ==> Valid(h, res.at)) && ans == AnswerOf(h, res)
  }

  /** The data that the keys of the set carry. */
  ghost function DataOf(h: Heap): DataMap { map k | k in Abs(h) && Valid(h, Abs(h)[k]) :: h[Abs(h)[k]].data }

  ghost predicate HasId(e: Entry, tid: Tid, c: nat) { e.tid == tid && e.since == c }

  /** Every request gets the answer an atomic map gives at its place in the order. */
  ghost predicate Legal(l: Order) { forall j: nat :: j < |l| ==> Serve(Replay(l[..j]), l[j].req).1 == l[j].ans }

  ghost predicate Distinct(l: Order) { forall j, k :: 0 <= j < k < |l| ==> !HasId(l[k], l[j].tid, l[j].since) }

  /** Every entry is a request that somebody made. */
  ghost predicate WereMade(run: Run, reqs: seq<Request>, l: Order)
    requires |run| > 0 && |reqs| == |run| - 1
  {
    forall j :: 0 <= j < |l| ==> Lin.Invoked(run, l[j].tid, l[j].since) && l[j].req == reqs[l[j].since]
  }

  /** Every request that returned is in the order, with the answer its caller got. */
  ghost predicate HasAnswers(run: Run, l: Order) {
    forall tid: Tid, c: nat, r: nat :: Lin.Completed(run, tid, c, r) ==>
      exists j :: 0 <= j < |l| && HasId(l[j], tid, c) && Answered(run[r].heap, run[r].threads[tid].pc.res, l[j].ans)
  }

  /** A request that returned before another was made comes first. */
  ghost predicate RealTime(run: Run, l: Order) {
    forall j, k, r: nat ::
      0 <= j < |l| && 0 <= k < |l| && Lin.Completed(run, l[j].tid, l[j].since, r) && r <= l[k].since ==> j < k
  }

  ghost predicate IsLinearization(run: Run, reqs: seq<Request>, l: Order)
    requires |run| > 0 && |reqs| == |run| - 1
  {
    && Legal(l) && Distinct(l) && WereMade(run, reqs, l) && HasAnswers(run, l) && RealTime(run, l)
    && Replay(l) == DataOf(Last(run).heap)
  }

  // ---- from operations to requests ----

  /** The map of nodes and the map of data have the same keys, and the nodes carry the data. */
  ghost predicate Mirrors(h: Heap, m: Lin.Map, dm: DataMap) {
    m.Keys == dm.Keys && forall k :: k in m ==> Valid(h, m[k]) && h[m[k]].data == dm[k]
  }

  /** The operation does what was asked; the node of an insert carries its data. */
  ghost predicate Means(h: Heap, op: Op, req: Request) {
    match op
    case Insert(node, k) => req.ReqInsert? && req.k == k && Valid(h, node) && h[node].data == req.d
    case Delete(k) => req == ReqDelete(k)
    case Search(k) => req == ReqSearch(k)
  }

  lemma {:induction false} ServeMirrors(h: Heap, m: Lin.Map, dm: DataMap, op: Op, req: Request)
    requires Mirrors(h, m, dm) && Means(h, op, req)
    ensures Mirrors(h, Lin.Apply(m, op).0, Serve(dm, req).0)
    ensures Answered(h, Lin.Apply(m, op).1, Serve(dm, req).1)
  {}

  /** The step in which a thread starts an operation is the call of its request. */
  lemma {:induction false} CallerActs(run: Run, who: seq<Tid>, tid: Tid, c: nat)
    requires IsRun(run, who) && Lin.Invoked(run, tid, c)
    ensures who[c] == tid
  {
    RunInv(run, who, c);
    assert Next(run[c], who[c], run[c + 1]);
  }

  lemma {:induction false} OperationMeans(run: Run, who: seq<Tid>, reqs: seq<Request>, tid: Tid, c: nat)
    requires Asks(run, who, reqs) && Lin.Invoked(run, tid, c)
    ensures Means(Last(run).heap, run[c + 1].threads[tid].op, reqs[c])
  {
    CallerActs(run, who, tid, c);
    RunGrows(run, who, c + 1, |run| - 1);
    var h, req := run[c + 1].heap, reqs[c];
    if req.ReqInsert? { assert h[|h| - 1] == Node(req.k, req.d, Word(NULL, false), Private(tid)); }
  }

  lemma {:induction false} ReturnAnswers(run: Run, who: seq<Tid>, tid: Tid, c: nat, r: nat)
    requires IsRun(run, who) && Lin.Completed(run, tid, c, r)
    ensures var res := run[r].threads[tid].pc.res; res.Found? ==> Valid(run[r].heap, res.at)
    ensures var res := run[r].threads[tid].pc.res; res.Found? ==> Valid(Last(run).heap, res.at)
    ensures var res := run[r].threads[tid].pc.res; res.Found? ==> Last(run).heap[res.at].data == run[r].heap[res.at].data
  {
    RunInv(run, who, r - 1);
    RunGrows(run, who, r, |run| - 1);
    assert Next(run[r - 1], who[r - 1], run[r]) && !Idle(run[r - 1], tid);
    RunInv(run, who, r);
    ReturnedIsLive(run[r - 1], tid, run[r]);
  }

  ghost predicate AllMean(run: Run, reqs: seq<Request>, l0: Lin.Order)
    requires |run| > 0 && |reqs| == |run| - 1
  {
    forall j :: 0 <= j < |l0| ==> l0[j].since < |reqs| && Means(Last(run).heap, l0[j].op, reqs[l0[j].since])
  }

  /** The same order, in terms of the requests. */
  ghost function InRequests(h: Heap, reqs: seq<Request>, l0: Lin.Order): (l: Order)
    requires forall j :: 0 <= j < |l0| ==> l0[j].since < |reqs|
    ensures |l| == |l0|
    ensures forall j :: 0 <= j < |l| ==> l[j].tid == l0[j].tid && l[j].since == l0[j].since && l[j].req == reqs[l0[j].since]
    ensures forall j :: 0 <= j < |l| ==> (Answered(h, l0[j].res, l[j].ans) || (l0[j].res.Found? && !Valid(h, l0[j].res.at)))
  {
    seq(|l0|, j requires 0 <= j < |l0| =>
      Entry(l0[j].tid, l0[j].since, reqs[l0[j].since],
            if l0[j].res.Found? && !Valid(h, l0[j].res.at) then Null else AnswerOf(h, l0[j].res)))
  }

  lemma {:induction false} ReplayMirrors(run: Run, reqs: seq<Request>, l0: Lin.Order, n: nat)
    requires |run| > 0 && |reqs| == |run| - 1 && AllMean(run, reqs, l0) && n <= |l0|
    ensures Mirrors(Last(run).heap, Lin.Replay(l0[..n]), Replay(InRequests(Last(run).heap, reqs, l0)[..n]))
  {
    if n > 0 {
      var l := InRequests(Last(run).heap, reqs, l0);
      ReplayMirrors(run, reqs, l0, n - 1);
      assert l0[..n][..n - 1] == l0[..n - 1] && l[..n][..n - 1] == l[..n - 1];
      ServeMirrors(Last(run).heap, Lin.Replay(l0[..n - 1]), Replay(l[..n - 1]), l0[n - 1].op, l[n - 1].req);
    }
  }

  lemma {:induction false} MirrorsData(h: Heap, dm: DataMap)
    requires Mirrors(h, Abs(h), dm)
    ensures dm == DataOf(h)
  {}

  lemma {:induction false} MirrorLegal(run: Run, reqs: seq<Request>, l0: Lin.Order)
    requires |run| > 0 && |reqs| == |run| - 1 && AllMean(run, reqs, l0) && Lin.Legal(l0)
    ensures Legal(InRequests(Last(run).heap, reqs, l0))
  {
    var h, l := Last(run).heap, InRequests(Last(run).heap, reqs, l0);
    forall j: nat | j < |l| ensures Serve(Replay(l[..j]), l[j].req).1 == l[j].ans {
      assert Lin.LegalAt(l0, j);
      ReplayMirrors(run, reqs, l0, j);
      ServeMirrors(h, Lin.Replay(l0[..j]), Replay(l[..j]), l0[j].op, l[j].req);
    }
  }

  lemma {:induction false} MirrorAnswers(run: Run, who: seq<Tid>, reqs: seq<Request>, l0: Lin.Order)
    requires IsRun(run, who) && |reqs| == |who| && AllMean(run, reqs, l0) && Lin.HasResults(run, l0)
    ensures HasAnswers(run, InRequests(Last(run).heap, reqs, l0))
  {
    var l := InRequests(Last(run).heap, reqs, l0);
    forall tid: Tid, c: nat, r: nat | Lin.Completed(run, tid, c, r)
      ensures exists j :: 0 <= j < |l| && HasId(l[j], tid, c) && Answered(run[r].heap, run[r].threads[tid].pc.res, l[j].ans)
    {
      ReturnAnswers(run, who, tid, c, r);
      var j :| 0 <= j < |l0| && Lin.HasId(l0[j], tid, c) && l0[j].res == run[r].threads[tid].pc.res;
      assert HasId(l[j], tid, c);
    }
  }

  lemma {:induction false} MirrorOrder(run: Run, reqs: seq<Request>, l0: Lin.Order)
    requires |run| > 0 && |reqs| == |run| - 1 && AllMean(run, reqs, l0)
    requires Lin.Distinct(l0) && Lin.RealTime(run, l0) && Lin.FromRun(run, l0)
    ensures var l := InRequests(Last(run).heap, reqs, l0); Distinct(l) && RealTime(run, l) && WereMade(run, reqs, l)
  {
    var l := InRequests(Last(run).heap, reqs, l0);
    forall j, k | 0 <= j < k < |l| ensures !HasId(l[k], l[j].tid, l[j].since) {
      assert !Lin.HasId(l0[k], l0[j].tid, l0[j].since);
    }
  }

  lemma {:induction false} MirrorEnd(run: Run, reqs: seq<Request>, l0: Lin.Order)
    requires |run| > 0 && |reqs| == |run| - 1 && AllMean(run, reqs, l0) && Lin.Replay(l0) == Abs(Last(run).heap)
    ensures Replay(InRequests(Last(run).heap, reqs, l0)) == DataOf(Last(run).heap)
  {
    var l := InRequests(Last(run).heap, reqs, l0);
    ReplayMirrors(run, reqs, l0, |l0|);
    assert l0[..|l0|] == l0 && l[..|l|] == l;
    MirrorsData(Last(run).heap, Replay(l));
  }

  /** The main theorem for callers: the requests of every run are linearizable over the map of data. */
  lemma {:induction false} Linearizable(run: Run, who: seq<Tid>, reqs: seq<Request>)
    requires Asks(run, who, reqs)
    ensures exists l :: IsLinearization(run, reqs, l)
  {
    Lin.Linearizable(run, who);
    var l0: Lin.Order :| Lin.IsLinearization(run, l0);
    forall j | 0 <= j < |l0| ensures l0[j].since < |reqs| && Means(Last(run).heap, l0[j].op, reqs[l0[j].since]) {
      OperationMeans(run, who, reqs, l0[j].tid, l0[j].since);
    }
    MirrorLegal(run, reqs, l0);
    MirrorAnswers(run, who, reqs, l0);
    MirrorOrder(run, reqs, l0);
    MirrorEnd(run, reqs, l0);
    assert IsLinearization(run, reqs, InRequests(Last(run).heap, reqs, l0));
  }
}
