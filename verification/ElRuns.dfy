/** Whole runs of the event loop and the accepting thread. */
module ElRuns {
  import opened Types
  import opened SockSetSpec
  import opened TimerSpec
  import opened TimerRuns
  import opened ElSpec
  import opened ElThreads

  // ---- runs ----

  /** The two threads take these steps, in this order. */
  ghost predicate Can(s: Sys, acts: seq<Act>)
    requires Ready(s.el)
    decreases |acts|
  {
    acts == [] || (Enabled(s, acts[0]) && Can(Do(s, acts[0]), acts[1..]))
  }

  ghost function Run(s: Sys, acts: seq<Act>): (r: Sys)
    requires Ready(s.el) && Can(s, acts)
    ensures Ready(r.el)
    decreases |acts|
  {
    if acts == [] then s else Run(Do(s, acts[0]), acts[1..])
  }

  ghost predicate AllFair(s: Sys, acts: seq<Act>)
    requires Ready(s.el) && Can(s, acts)
    decreases |acts|
  {
    acts == [] || (Fair(s, acts[0]) && AllFair(Do(s, acts[0]), acts[1..]))
  }

  ghost predicate AllInv(s: Sys, acts: seq<Act>)
    requires Ready(s.el) && Can(s, acts)
    decreases |acts|
  {
    Inv(s) && (acts == [] || AllInv(Do(s, acts[0]), acts[1..]))
  }

  /** The agreement holds in every state of a run exactly when every step of it is fair. */
  lemma {:induction false} RunExact(s: Sys, acts: seq<Act>)
    requires Inv(s) && Can(s, acts)
    ensures AllInv(s, acts) <==> AllFair(s, acts)
    decreases |acts|
  {
    if acts != [] {
      var t := Do(s, acts[0]);
      StepExact(s, acts[0]);
      if Inv(t) { RunExact(t, acts[1..]); }
    }
  }

  lemma {:induction false} LastInv(s: Sys, acts: seq<Act>)
    requires Ready(s.el) && Can(s, acts) && AllInv(s, acts)
    ensures Inv(Run(s, acts))
    decreases |acts|
  {
    if acts != [] { LastInv(Do(s, acts[0]), acts[1..]); }
  }

  /** Fair steps lead from s to t. */
  ghost predicate Reaches(s: Sys, acts: seq<Act>, t: Sys)
    requires Ready(s.el)
    decreases |acts|
  {
    if acts == [] then s == t
    else Enabled(s, acts[0]) && Fair(s, acts[0]) && Reaches(Do(s, acts[0]), acts[1..], t)
  }

  lemma {:induction false} ReachesRun(s: Sys, acts: seq<Act>, t: Sys)
    requires Ready(s.el)
    ensures Reaches(s, acts, t) <==> Can(s, acts) && AllFair(s, acts) && Run(s, acts) == t
    decreases |acts|
  {
    if acts != [] && Enabled(s, acts[0]) { ReachesRun(Do(s, acts[0]), acts[1..], t); }
  }

  lemma {:induction false} ReachesFirst(s: Sys, a: Act, rest: seq<Act>, t: Sys)
    requires Ready(s.el) && Enabled(s, a) && Fair(s, a) && Reaches(Do(s, a), rest, t)
    ensures Reaches(s, [a] + rest, t)
  {
    assert ([a] + rest)[1..] == rest;
  }

  lemma {:induction false} ReachesThen(s: Sys, acts: seq<Act>, t: Sys, more: seq<Act>, u: Sys)
    requires Ready(s.el) && Ready(t.el) && Reaches(s, acts, t) && Reaches(t, more, u)
    ensures Reaches(s, acts + more, u)
    decreases |acts|
  {
    if acts == [] {
      assert acts + more == more;
    } else {
      ReachesThen(Do(s, acts[0]), acts[1..], t, more, u);
      ReachesFirst(s, acts[0], acts[1..] + more, u);
      assert [acts[0]] + (acts[1..] + more) == acts + more;
    }
  }

  ghost function Start(maxConn: nat, interval: nat, now: Clock): (s: Sys)
    requires 0 < maxConn < 0x8000_0000
    ensures Inv(s)
  {
    var e := NewLoop(maxConn, interval, now);
    QuietAgrees(e);
    Sys(e, Outside, Wait)
  }

  /** Over every fair run, however the threads mix: the live ids are the ids of the timer and the one being
      added, less the one being closed unless it is being added anew; the ids of the timer are those on the wheels, each on one; and between
      calls slots, timer and count agree, and the count is within max_conn. */
  lemma {:induction false} EveryRunAgrees(maxConn: nat, interval: nat, now: Clock, acts: seq<Act>, k: Int64)
    requires 0 < maxConn < 0x8000_0000
    requires Can(Start(maxConn, interval, now), acts) && AllFair(Start(maxConn, interval, now), acts)
    ensures var s := Run(Start(maxConn, interval, now), acts);
            && (Live(s.el.socks, k) <==> Owned(s, k))
            && (k in Entries(s) <==> exists w :: OnWheel(s.el.timer, k, w))
            && (forall w, v :: OnWheel(s.el.timer, k, w) && OnWheel(s.el.timer, k, v) ==> w == v)
            && s.el.curConn == |Entries(s)| + Ahead(s.acc, s.loop)
            && (s.acc.Outside? && s.loop.Wait? ==> ElAgree(s.el) && 0 <= s.el.curConn <= s.el.maxConn)
  {
    RunExact(Start(maxConn, interval, now), acts);
    LastInv(Start(maxConn, interval, now), acts);
    var s := Run(Start(maxConn, interval, now), acts);
    assert forall w :: OnWheel(s.el.timer, k, w) <==> Indexed(s.el.timer, k, w);
    if k in Entries(s) { assert OnWheel(s.el.timer, k, s.el.timer.index.entries[k]); }
    if s.acc.Outside? && s.loop.Wait? {
      QuietAgrees(s.el);
      CountAndSlots(s.el);
    }
  }

  // ---- the race between an add and a closing event ----

  /** Three steps of the loop, with the insertion into the timer after p of them. */
  function Mixed(p: nat): seq<Act>
    requires p <= 3
  {
    if p == 0 then [StartTimer, Work, Work, Work]
    else if p == 1 then [Work, StartTimer, Work, Work]
    else if p == 2 then [Work, Work, StartTimer, Work]
    else [Work, Work, Work, StartTimer]
  }

  lemma {:induction false} RunCons(s: Sys, a: Act, rest: seq<Act>)
    requires Ready(s.el) && Enabled(s, a) && Can(Do(s, a), rest)
    ensures Can(s, [a] + rest) && Run(s, [a] + rest) == Run(Do(s, a), rest)
    ensures AllFair(s, [a] + rest) <==> Fair(s, a) && AllFair(Do(s, a), rest)
  {
    assert ([a] + rest)[1..] == rest;
  }

  lemma {:induction false} FourSteps(s: Sys, a: Act, b: Act, c: Act, d: Act)
    requires Ready(s.el) && Enabled(s, a) && Enabled(Do(s, a), b) && Enabled(Do(Do(s, a), b), c)
    requires Enabled(Do(Do(Do(s, a), b), c), d)
    ensures Can(s, [a, b, c, d]) && Run(s, [a, b, c, d]) == Do(Do(Do(Do(s, a), b), c), d)
  {
    var s1 := Do(s, a);
    var s2 := Do(s1, b);
    var s3 := Do(s2, c);
    var s4 := Do(s3, d);
    RunCons(s3, d, []);
    RunCons(s2, c, [d]);
    RunCons(s1, b, [c, d]);
    RunCons(s, a, [b, c, d]);
    assert [d] + [] == [d] && [c] + [d] == [c, d] && [b] + [c, d] == [b, c, d] && [a] + [b, c, d] == [a, b, c, d];
  }

  lemma {:induction false} FourFair(s: Sys, a: Act, b: Act, c: Act, d: Act)
    requires Ready(s.el) && Enabled(s, a) && Enabled(Do(s, a), b) && Enabled(Do(Do(s, a), b), c)
    requires Enabled(Do(Do(Do(s, a), b), c), d)
    requires Fair(s, a) && Fair(Do(s, a), b) && Fair(Do(Do(s, a), b), c) && Fair(Do(Do(Do(s, a), b), c), d)
    ensures Reaches(s, [a, b, c, d], Do(Do(Do(Do(s, a), b), c), d))
  {
    var s1 := Do(s, a);
    var s2 := Do(s1, b);
    var s3 := Do(s2, c);
    var s4 := Do(s3, d);
    ReachesFirst(s3, d, [], s4);
    ReachesFirst(s2, c, [d], s4);
    ReachesFirst(s1, b, [c, d], s4);
    ReachesFirst(s, a, [b, c, d], s4);
    assert [d] + [] == [d] && [c] + [d] == [c, d] && [b] + [c, d] == [b, c, d] && [a] + [b, c, d] == [a, b, c, d];
  }

  /** About to be put into the timer, and the loop is about to close it. */
  ghost predicate Racing(s: Sys, k: Sid) {
    Inv(s) && s.acc.Aimed? && s.acc.sid == k && s.loop == Shut(k, 0)
  }

  /** Both threads are done, and the slot is free. */
  ghost predicate Finished(t: Sys, k: Sid) {
    Ready(t.el) && t.acc.Outside? && t.loop.Wait? && !Live(t.el.socks, k)
  }

  lemma {:induction false} InsertedFirst(s: Sys, k: Sid)
    requires Racing(s, k)
    ensures Can(s, Mixed(0)) && var t := Run(s, Mixed(0)); Finished(t, k) && ElAgree(t.el) && k !in Entries(t)
  {
    StartTimerKeepsInv(s);
    var s1 := Do(s, StartTimer);
    ShutResets(s1);
    ShutRemoves(Do(s1, Work));
    ShutCounts(Do(Do(s1, Work), Work));
    FourSteps(s, StartTimer, Work, Work, Work);
    QuietAgrees(Run(s, Mixed(0)).el);
  }

  lemma {:induction false} InsertedAfterReset(s: Sys, k: Sid)
    requires Racing(s, k)
    ensures Can(s, Mixed(1)) && var t := Run(s, Mixed(1)); Finished(t, k) && ElAgree(t.el) && k !in Entries(t)
  {
    ShutResets(s);
    var s1 := Do(s, Work);
    StartTimerKeepsInv(s1);
    ShutRemoves(Do(s1, StartTimer));
    ShutCounts(Do(Do(s1, StartTimer), Work));
    FourSteps(s, Work, StartTimer, Work, Work);
    QuietAgrees(Run(s, Mixed(1)).el);
  }

  lemma {:induction false} InsertedTooLate(s: Sys, k: Sid, p: nat)
    requires Racing(s, k) && 2 <= p <= 3
    ensures Can(s, Mixed(p)) && var t := Run(s, Mixed(p)); Finished(t, k) && !ElAgree(t.el) && k in Entries(t)
    ensures Can(s, Mixed(p)) && var t := Run(s, Mixed(p)); t.el.curConn == |Entries(t)| - 1
  {
    ShutResets(s);
    var s1 := Do(s, Work);
    ShutMisses(s1);
    StartTimerKeepsInv(s1);
    if p == 2 { FourSteps(s, Work, Work, StartTimer, Work); } else { FourSteps(s, Work, Work, Work, StartTimer); }
    var t := Run(s, Mixed(p));
    assert t.el == Uncounted(Do(s1, StartTimer).el);
    assert !Live(t.el.socks, k) && k in t.el.timer.index.entries;
  }

  /** An event closes a connection that is armed and not in the timer yet.  In all four orders both threads
      finish and the slot is free; slots, timer and count agree exactly when the insertion came before the
      removal.  Otherwise the timer keeps the dead id, which is not counted. */
  lemma {:induction false} RaceExact(s: Sys, k: Sid, p: nat)
    requires Racing(s, k) && p <= 3
    ensures Can(s, Mixed(p)) && Finished(Run(s, Mixed(p)), k)
    ensures ElAgree(Run(s, Mixed(p)).el) <==> p <= 1
    ensures k in Entries(Run(s, Mixed(p))) <==> p >= 2
    ensures p >= 2 ==> Run(s, Mixed(p)).el.curConn == |Entries(Run(s, Mixed(p)))| - 1
  {
    if p == 0 { InsertedFirst(s, k); } else if p == 1 { InsertedAfterReset(s, k); } else { InsertedTooLate(s, k, p); }
  }

  /** The race is within reach: a new loop, a first connection, and an event before its insertion. */
  lemma {:induction false} RaceIsReached(maxConn: nat, interval: nat, now: Clock, fd: int) returns (t: Sys)
    requires 0 < maxConn < 0x8000_0000
    ensures var s, acts := Start(maxConn, interval, now), [Count(fd), TakeSlot, ReadWheel, Event(0xac)];
            Reaches(s, acts, t) && Racing(t, 0xac)
  {
    var s := Start(maxConn, interval, now);
    var s1 := Do(s, Count(fd));
    var s2 := Do(s1, TakeSlot);
    var s3 := Do(s2, ReadWheel);
    assert Chosen(s1.el.socks) == 0xac;
    StepExact(s, Count(fd));
    StepExact(s1, TakeSlot);
    StepExact(s2, ReadWheel);
    StepExact(s3, Event(0xac));
    FourFair(s, Count(fd), TakeSlot, ReadWheel, Event(0xac));
    t := Do(s3, Event(0xac));
  }

  // ---- how long a connection stays ----

  /** The loop is closing k, or is going to. */
  ghost predicate Closing(s: Sys, k: Sid) { (s.loop.Shut? && s.loop.sid == k && s.loop.done < 2) || Due(s, k) }

  /** Connection k is on wheel w with r turns to go, and nobody is closing it. */
  ghost predicate Stays(s: Sys, k: Sid, w: nat, r: nat) {
    && Ready(s.el) && Live(s.el.socks, k) && Indexed(s.el.timer, k, w) && !Closing(s, k)
    && w <= s.el.timer.interval && Remaining(s.el.timer, w) == r
  }

  function OneTurn(s: Sys, a: Act): nat {
    if a.Turn? && Advances(s.el.timer, a.now) then 1 else 0
  }

  ghost function Turns(s: Sys, acts: seq<Act>): nat
    requires Ready(s.el) && Can(s, acts)
    decreases |acts|
  {
    if acts == [] then 0 else OneTurn(s, acts[0]) + Turns(Do(s, acts[0]), acts[1..])
  }

  /** k is about to be put on wheel w, which has r turns to go. */
  ghost predicate Waits(s: Sys, k: Sid, w: nat, r: nat) {
    && Inv(s) && s.acc.Aimed? && s.acc.sid == k && s.acc.wheel == w
    && Remaining(s.el.timer, w) == r <= Lifetime(s.el.timer.interval)
  }

  /** Reading prev_wheel gives a connection the timer's lifetime. */
  lemma {:induction false} ReadWheelGives(s: Sys)
    requires Inv(s) && Enabled(s, ReadWheel)
    ensures Waits(Do(s, ReadWheel), s.acc.sid, s.el.timer.prev, Lifetime(s.el.timer.interval))
  {
    ReadWheelKeepsInv(s);
  }

  /** Until it is put into the timer, each turn takes one off. */
  lemma {:induction false} WaitCounts(s: Sys, acts: seq<Act>, k: Sid, w: nat, r: nat)
    requires Waits(s, k, w, r) && Can(s, acts) && AllFair(s, acts) && StartTimer !in acts && Turns(s, acts) < r
    ensures Waits(Run(s, acts), k, w, r - Turns(s, acts))
    decreases |acts|
  {
    if acts != [] {
      StepExact(s, acts[0]);
      WaitCounts(Do(s, acts[0]), acts[1..], k, w, r - OneTurn(s, acts[0]));
    }
  }

  /** A connection that the loop is not closing enters the timer with the turns it has left.  Only if the timer
      has a single wheel, and it was just reported, the connection is swept at once. */
  lemma {:induction false} AddStays(s: Sys, k: Sid, w: nat, r: nat)
    requires Waits(s, k, w, r) && Fair(s, StartTimer) && !Closing(s, k)
    ensures if s.loop.Reported? && s.el.timer.interval == 0 then Due(Do(s, StartTimer), k)
            else Stays(Do(s, StartTimer), k, w, r)
  {
    StartTimerKeepsInv(s);
  }

  ghost predicate Spares(a: Act, k: Sid) { a.Event? ==> EventSid(a.sid) != k }

  lemma {:induction false} AcceptSpares(s: Sys, a: Act, k: Sid, w: nat, r: nat)
    requires Inv(s) && Enabled(s, a) && Fair(s, a) && Stays(s, k, w, r) && (a.Count? || a.TakeSlot? || a.ReadWheel? || a.StartTimer?)
    ensures Stays(Do(s, a), k, w, r)
  {
    if a.TakeSlot? { ClaimAdds(s.el.socks, s.acc.fd, k); }
    if a.StartTimer? { InsertionAtAgrees(s.el.timer, s.acc.fd, s.acc.sid, s.acc.wheel); }
  }

  lemma {:induction false} ShutSpares(s: Sys, k: Sid, w: nat, r: nat)
    requires Inv(s) && Enabled(s, Work) && s.loop.Shut? && Stays(s, k, w, r)
    ensures Stays(Do(s, Work), k, w, r)
  {
    if s.loop.done == 0 {
      ReleaseRemoves(s.el.socks, s.loop.sid, k);
    } else if s.loop.done == 1 {
      RemovalAgrees(s.el.timer, s.loop.sid);
    }
  }

  lemma {:induction false} SweepSpares(s: Sys, k: Sid, w: nat, r: nat)
    requires Inv(s) && Enabled(s, Work) && s.loop.Sweep? && Stays(s, k, w, r)
    ensures Stays(Do(s, Work), k, w, r)
  {
    assert s.loop.keys[0] != k;
    if s.loop.done == 0 {
      ReleaseRemoves(s.el.socks, s.loop.keys[0], k);
    } else if s.loop.done == 2 {
      RemovalAgrees(s.el.timer, s.loop.keys[0]);
      RestDistinct(s.loop.keys);
    }
  }

  /** A turn takes one off what is left; the last one reports the connection's wheel. */
  lemma {:induction false} TurnSpares(s: Sys, now: Clock, k: Sid, w: nat, r: nat)
    requires Inv(s) && Enabled(s, Turn(now)) && Stays(s, k, w, r)
    ensures var t, n := Do(s, Turn(now)), OneTurn(s, Turn(now));
            if n < r then Stays(t, k, w, r - n) else Due(t, k)
  {
    TurnKeepsInv(s, now);
    BookKeepingAgrees(s.el.timer, now);
    if Advances(s.el.timer, now) { ReportsTheDue(s.el.timer, k, w, now); }
  }

  /** A step other than an event for k takes at most one turn off k; its last turn makes it due. */
  lemma {:induction false} StepSpares(s: Sys, a: Act, k: Sid, w: nat, r: nat)
    requires Inv(s) && Enabled(s, a) && Fair(s, a) && Stays(s, k, w, r) && Spares(a, k)
    ensures if OneTurn(s, a) < r then Stays(Do(s, a), k, w, r - OneTurn(s, a))
            else Due(Do(s, a), k)
  {
    if a.Turn? { TurnSpares(s, a.now, k, w, r); }
    else if a.ListKeys? { ListKeepsInv(s); }
    else if a.Work? { if s.loop.Shut? { ShutSpares(s, k, w, r); } else { SweepSpares(s, k, w, r); } }
    else if !a.Event? { AcceptSpares(s, a, k, w, r); }
  }

  lemma {:induction false} RunSpares(s: Sys, acts: seq<Act>, k: Sid, w: nat, r: nat)
    requires Inv(s) && Can(s, acts) && AllFair(s, acts) && Stays(s, k, w, r)
    requires (forall a :: a in acts ==> Spares(a, k)) && Turns(s, acts) < r
    ensures Inv(Run(s, acts)) && Stays(Run(s, acts), k, w, r - Turns(s, acts))
    decreases |acts|
  {
    if acts != [] {
      assert acts[0] in acts;
      StepExact(s, acts[0]);
      StepSpares(s, acts[0], k, w, r);
      RunSpares(Do(s, acts[0]), acts[1..], k, w, r - OneTurn(s, acts[0]));
    }
  }

  /** Over every fair run, however the threads mix, in which no event closes k: k stays live while fewer turns
      than it has left go by, and the turn that uses them up, and no turn before it, makes k due. */
  lemma {:induction false} ClosedExactlyWhenDue(s: Sys, acts: seq<Act>, k: Sid, w: nat, r: nat, now: Clock)
    requires Inv(s) && Can(s, acts) && AllFair(s, acts) && Stays(s, k, w, r)
    requires (forall a :: a in acts ==> Spares(a, k)) && Turns(s, acts) < r
    requires Run(s, acts).loop.Wait? && Advances(Run(s, acts).el.timer, now)
    ensures Live(Run(s, acts).el.socks, k)
    ensures Due(Do(Run(s, acts), Turn(now)), k) <==> Turns(s, acts) + 1 == r
  {
    RunSpares(s, acts, k, w, r);
    TurnSpares(Run(s, acts), now, k, w, r - Turns(s, acts));
  }

  /** k is not in the timer, and its slot is free unless it is taken anew. */
  ghost predicate Closed(s: Sys, k: Sid)
    requires Ready(s.el)
  {
    k !in Entries(s) && (Live(s.el.socks, k) <==> Pending(s.acc, k))
  }

  lemma {:induction false} SweepLetsGo(s: Sys, k: Sid)
    requires Inv(s) && Enabled(s, Work) && s.loop.Sweep? && Due(s, k) && !Due(Do(s, Work), k)
    ensures Closed(Do(s, Work), k)
  {
    if s.loop.done == 2 {
      SweepRemoves(s);
      RestDistinct(s.loop.keys);
    }
  }

  /** A due connection stays so, whatever the other thread does, up to the step that closes it. */
  lemma {:induction false} NoLongerDue(s: Sys, a: Act, k: Sid)
    requires Inv(s) && Enabled(s, a) && Fair(s, a) && Due(s, k) && !Due(Do(s, a), k)
    ensures Closed(Do(s, a), k)
  {
    if a.StartTimer? { StartTimerKeepsInv(s); assert false; }
    else if a.ListKeys? { ListKeepsInv(s); assert false; }
    else { SweepLetsGo(s, k); }
  }

  /** After i steps of the run, k is closed. */
  ghost predicate ClosedAt(s: Sys, acts: seq<Act>, i: nat, k: Sid)
    requires Ready(s.el)
  {
    i <= |acts| && Can(s, acts[..i]) && Closed(Run(s, acts[..i]), k)
  }

  lemma {:induction false} ClosedOneLater(s: Sys, acts: seq<Act>, i: nat, k: Sid)
    requires Ready(s.el) && Can(s, acts) && acts != [] && ClosedAt(Do(s, acts[0]), acts[1..], i, k)
    ensures ClosedAt(s, acts, i + 1, k)
  {
    RunCons(s, acts[0], acts[1..][..i]);
    assert acts[..i + 1] == [acts[0]] + acts[1..][..i];
  }

  /** A timeout pass that comes to its end has closed every due connection on the way, whatever the other
      thread did. */
  lemma {:induction false} SweepCloses(s: Sys, acts: seq<Act>, k: Sid) returns (i: nat)
    requires Inv(s) && Can(s, acts) && AllFair(s, acts) && Due(s, k) && Run(s, acts).loop.Wait?
    ensures ClosedAt(s, acts, i, k)
    decreases |acts|
  {
    var t := Do(s, acts[0]);
    StepExact(s, acts[0]);
    i := 0;
    if Due(t, k) {
      i := SweepCloses(t, acts[1..], k);
    } else {
      NoLongerDue(s, acts[0], k);
      assert ClosedAt(t, acts[1..], 0, k);
    }
    ClosedOneLater(s, acts, i, k);
    i := i + 1;
  }
}
