/** The event loop's calls one after another: each is its steps without interruption, and the failures of
    the code are within reach of a new loop. */
module ElAlone {
  import opened SockSetSpec
  import opened TimerSpec
  import opened ElSpec
  import opened ElThreads
  import opened ElRuns

  // ---- a call is its steps ----

  /** Both threads are between calls. */
  function Quiet(e: ElState): Sys { Sys(e, Outside, Wait) }

  function Adding(fd: int): seq<Act> { [Count(fd), TakeSlot, ReadWheel, StartTimer] }

  /** An add is its steps; one that is turned away is the count alone. */
  lemma {:induction false} AddIsSteps(e: ElState, fd: int)
    requires Ready(e)
    ensures var s, acts := Quiet(e), if e.curConn > e.maxConn then [Count(fd)] else Adding(fd);
            Can(s, acts) && Run(s, acts) == Quiet(AddConnection(e, fd).0)
  {
    if e.curConn > e.maxConn {
      RunCons(Quiet(e), Count(fd), []);
      assert [Count(fd)] + [] == [Count(fd)];
    } else {
      AddSteps(e, fd);
    }
  }

  lemma {:induction false} AddSteps(e: ElState, fd: int)
    requires Ready(e) && e.curConn <= e.maxConn
    ensures Can(Quiet(e), Adding(fd)) && Run(Quiet(e), Adding(fd)) == Quiet(AddConnection(e, fd).0)
  {
    FourSteps(Quiet(e), Count(fd), TakeSlot, ReadWheel, StartTimer);
  }

  /** A closing event resets the slot, then takes the id out of the timer, and counts it off last; the sweep
      counts it off before it takes it out. */
  lemma {:induction false} OrderOfClosing(e: ElState, acc: Accept, k: Sid, keys: seq<Sid>)
    requires Ready(e) && keys != [] && keys[0] == k
    ensures var s := Sys(e, acc, Shut(k, 0));
            && Do(s, Work) == Sys(e.(socks := Release(e.socks, k)), acc, Shut(k, 1))
            && Do(Do(s, Work), Work) == Sys(e.(socks := Release(e.socks, k), timer := Removal(e.timer, k)), acc, Shut(k, 2))
            && Do(Do(Do(s, Work), Work), Work) == Sys(CloseSid(e, k), acc, Wait)
    ensures var s := Sys(e, acc, Sweep(keys, 0));
            && Do(s, Work) == Sys(e.(socks := Release(e.socks, k)), acc, Sweep(keys, 1))
            && Do(Do(s, Work), Work)
               == Sys(e.(socks := Release(e.socks, k), curConn := e.curConn - 1), acc, Sweep(keys, 2))
            && Do(Do(Do(s, Work), Work), Work) == Sys(CloseSid(e, k), acc, if |keys| == 1 then Wait else Sweep(keys[1..], 0))
  {}

  lemma {:induction false} CloseIsSteps(e: ElState, sid: Sid)
    requires Ready(e)
    ensures var s, acts := Quiet(e), [Event(sid), Work, Work, Work];
            Can(s, acts) && Run(s, acts) == Quiet(CloseSid(e, EventSid(sid)))
  {
    FourSteps(Quiet(e), Event(sid), Work, Work, Work);
  }

  ghost function Works(n: nat): seq<Act> { if n == 0 then [] else [Work, Work, Work] + Works(n - 1) }

  lemma {:induction false} ThreeWorks(e: ElState, keys: seq<Sid>, rest: seq<Act>)
    requires Ready(e) && keys != []
    requires var t := Sys(CloseSid(e, keys[0]), Outside, if |keys| == 1 then Wait else Sweep(keys[1..], 0));
             Can(t, rest)
    ensures var s := Sys(e, Outside, Sweep(keys, 0));
            && Can(s, [Work, Work, Work] + rest)
            && Run(s, [Work, Work, Work] + rest)
               == Run(Sys(CloseSid(e, keys[0]), Outside, if |keys| == 1 then Wait else Sweep(keys[1..], 0)), rest)
  {
    var s := Sys(e, Outside, Sweep(keys, 0));
    var s1 := Do(s, Work);
    var s2 := Do(s1, Work);
    RunCons(s2, Work, rest);
    RunCons(s1, Work, [Work] + rest);
    RunCons(s, Work, [Work] + ([Work] + rest));
    assert [Work, Work, Work] + rest == [Work] + ([Work] + ([Work] + rest));
  }

  lemma {:induction false} SweepIsSteps(e: ElState, keys: seq<Sid>)
    requires Ready(e) && keys != []
    ensures var s := Sys(e, Outside, Sweep(keys, 0));
            Can(s, Works(|keys|)) && Run(s, Works(|keys|)) == Quiet(CloseAll(e, keys))
    decreases |keys|
  {
    var e1 := CloseSid(e, keys[0]);
    if |keys| > 1 { SweepIsSteps(e1, keys[1..]); }
    ThreeWorks(e, keys, Works(|keys| - 1));
  }

  /** The steps of a timeout pass that nothing interrupts. */
  ghost function Pass(e: ElState, now: Clock): seq<Act>
    requires Ready(e)
  {
    var (t, w) := BookKeeping(e.timer, now);
    if w < 0 then [Turn(now)] else [Turn(now)] + ([ListKeys] + Works(|Ascending(Keys(t.wheels[w]))|))
  }

  lemma {:induction false} TimeoutIsSteps(e: ElState, now: Clock)
    requires Ready(e)
    ensures var s := Quiet(e);
            Can(s, Pass(e, now)) && Run(s, Pass(e, now)) == Quiet(CheckTimeout(e, now))
  {
    var s := Quiet(e);
    var s1 := Do(s, Turn(now));
    if s1.loop.Reported? {
      var keys := Ascending(Keys(s1.el.timer.wheels[s1.loop.wheel]));
      if keys != [] { SweepIsSteps(s1.el, keys); }
      AscendingLists(Keys(s1.el.timer.wheels[s1.loop.wheel]));
      RunCons(s1, ListKeys, Works(|keys|));
      RunCons(s, Turn(now), [ListKeys] + Works(|keys|));
    } else {
      RunCons(s, Turn(now), []);
      assert [Turn(now)] + [] == [Turn(now)];
    }
  }

  // ---- one connection too many ----

  /** n connections were added, and their ids are the n after the start id. */
  ghost predicate Filled(e: ElState, n: nat) {
    && ElAgree(e) && e.curConn == n && e.socks.curr == e.socks.start + n
    && forall i :: 0 <= i < |e.socks.slots| && e.socks.slots[i].sid != 0 ==> e.socks.start < e.socks.slots[i].sid <= e.socks.curr
  }

  lemma {:induction false} NextSlotFree(e: ElState, n: nat)
    requires Filled(e, n) && n < e.maxConn
    ensures Chosen(e.socks) == e.socks.curr + 1 && !Busy(e.socks.slots, Chosen(e.socks))
  {
    var m, sid := e.maxConn, e.socks.curr + 1;
    var q := e.socks.slots[SlotOf(sid, m)].sid;
    if q != 0 {
      SlotIsRemainder(q, m);
      SlotIsRemainder(sid, m);
      ModApart(q, sid, m);
    }
  }

  ghost function Adds(e: ElState, n: nat, fd: int): (r: ElState)
    requires Ready(e)
    ensures Ready(r)
  {
    if n == 0 then e else AddConnection(Adds(e, n - 1, fd), fd).0
  }

  lemma {:induction false} AddsFill(e: ElState, n: nat, fd: int)
    requires Filled(e, 0) && n <= e.maxConn
    ensures var r := Adds(e, n, fd); Filled(r, n) && r.maxConn == e.maxConn && r.socks.start == e.socks.start
  {
    if n > 0 {
      AddsFill(e, n - 1, fd);
      NextSlotFree(Adds(e, n - 1, fd), n - 1);
      AddKeeps(Adds(e, n - 1, fd), fd);
    }
  }

  /** After max_conn connections the next one is admitted, and overwrites one of them. */
  lemma {:induction false} OneTooMany(maxConn: nat, interval: nat, now: Clock, fd: int)
    requires 0 < maxConn < 0x8000_0000
    ensures var e := Adds(NewLoop(maxConn, interval, now), maxConn, fd);
            ElAgree(e) && e.curConn == maxConn && AddConnection(e, fd).1 == 0 && !ElAgree(AddConnection(e, fd).0)
  {
    AddsFill(NewLoop(maxConn, interval, now), maxConn, fd);
    var e := Adds(NewLoop(maxConn, interval, now), maxConn, fd);
    CountAndSlots(e);
    AddOverwrites(e, fd);
  }

  /** Connections that only come: from a new loop the first max_conn + 1 are admitted, and all later ones are
      turned away and change nothing but the count. */
  lemma {:induction false} AddsTurnedAway(maxConn: nat, interval: nat, now: Clock, fd: int, n: nat)
    requires 0 < maxConn < 0x8000_0000
    ensures var e := Adds(NewLoop(maxConn, interval, now), n, fd);
            && e.curConn == n && e.maxConn == maxConn
            && AddConnection(e, fd).1 == (if n < maxConn + 1 then 0 else -1)
            && (n >= maxConn + 1 ==> AddConnection(e, fd).0 == e.(curConn := n + 1))
  {
    if n > 0 {
      AddsTurnedAway(maxConn, interval, now, fd, n - 1);
      AddLimit(Adds(NewLoop(maxConn, interval, now), n - 1, fd), fd);
    }
    AddLimit(Adds(NewLoop(maxConn, interval, now), n, fd), fd);
  }

  // ---- a connection that is turned away ----

  lemma {:induction false} CountThenTake(s: Sys, fd: int)
    requires Inv(s) && s.acc.Outside? && s.el.curConn <= s.el.maxConn
    requires !Busy(s.el.socks.slots, Chosen(s.el.socks)) && !Half(s.loop, Chosen(s.el.socks))
    ensures Fair(s, Count(fd)) && Fair(Do(s, Count(fd)), TakeSlot)
    ensures var t := Do(Do(s, Count(fd)), TakeSlot); Inv(t) && t.acc.sid !in Entries(t)
  {
    CountExact(s, fd);
    TakeSlotExact(Do(s, Count(fd)));
  }

  /** The steps of an add, one after another, whatever the loop is about. */
  lemma {:induction false} AddIsFair(s: Sys, fd: int)
    requires Inv(s) && s.acc.Outside? && s.el.curConn <= s.el.maxConn
    requires !Busy(s.el.socks.slots, Chosen(s.el.socks)) && !Half(s.loop, Chosen(s.el.socks))
    ensures var t := Sys(AddConnection(s.el, fd).0, Outside, s.loop); Reaches(s, Adding(fd), t) && Inv(t)
  {
    CountThenTake(s, fd);
    var s2 := Do(Do(s, Count(fd)), TakeSlot);
    ReadWheelKeepsInv(s2);
    StartTimerKeepsInv(Do(s2, ReadWheel));
    FourFair(s, Count(fd), TakeSlot, ReadWheel, StartTimer);
  }

  lemma {:induction false} OneMore(e: ElState, n: nat, fd: int) returns (r: ElState)
    requires Filled(e, n) && n < e.maxConn
    ensures Filled(r, n + 1) && r.maxConn == e.maxConn && r.socks.start == e.socks.start
    ensures Reaches(Quiet(e), Adding(fd), Quiet(r))
  {
    r := AddConnection(e, fd).0;
    NextSlotFree(e, n);
    AddKeeps(e, fd);
    QuietAgrees(e);
    AddIsFair(Quiet(e), fd);
  }

  lemma {:induction false} FillUp(e: ElState, n: nat, fd: int) returns (acts: seq<Act>, r: ElState)
    requires Filled(e, n) && n <= e.maxConn
    ensures Filled(r, r.maxConn) && r.maxConn == e.maxConn && r.socks.start == e.socks.start
    ensures Reaches(Quiet(e), acts, Quiet(r))
    decreases e.maxConn - n
  {
    acts, r := [], e;
    if n < e.maxConn {
      var next := OneMore(e, n, fd);
      acts, r := FillUp(next, n + 1, fd);
      ReachesThen(Quiet(e), Adding(fd), Quiet(next), acts, Quiet(r));
      acts := Adding(fd) + acts;
    }
  }

  /** The loop closes k, up to the count. */
  function HalfClose(k: Sid): seq<Act> { [Event(k), Work, Work] }

  ghost function HalfClosed(e: ElState, k: Sid): (s: Sys)
    requires Ready(e)
    ensures Ready(s.el)
  {
    Sys(Unwatched(Released(e, k), k), Outside, Shut(k, 2))
  }

  lemma {:induction false} UpToTheCount(e: ElState, k: Sid)
    requires ElAgree(e) && Live(e.socks, k) && k < 0x10000
    ensures Reaches(Quiet(e), HalfClose(k), HalfClosed(e, k)) && Inv(HalfClosed(e, k))
  {
    var s := Quiet(e);
    var s1 := Do(s, Event(k));
    var s2 := Do(s1, Work);
    var t := Do(s2, Work);
    QuietAgrees(e);
    EventExact(s, k);
    ShutResets(s1);
    ShutRemoves(s2);
    ReachesFirst(s2, Work, [], t);
    ReachesFirst(s1, Work, [Work] + [], t);
    ReachesFirst(s, Event(k), [Work] + ([Work] + []), t);
    assert [Event(k)] + ([Work] + ([Work] + [])) == HalfClose(k);
  }

  /** Every connection is there, and their ids are the first ones. */
  ghost predicate Full(e: ElState) {
    Filled(e, e.maxConn) && e.socks.start + 1 < 0x10000 && 0 < e.maxConn < 0x8000_0000
  }

  lemma {:induction false} FirstIsLive(e: ElState)
    requires Full(e)
    ensures Live(e.socks, e.socks.start + 1)
  {
    var n, k := e.maxConn, e.socks.start + 1;
    CountAndSlots(e);
    var q := e.socks.slots[SlotOf(k, n)].sid;
    SlotIsRemainder(q, n);
    SlotIsRemainder(k, n);
    if q != k { ModApart(k, q, n); }
  }

  /** The next id falls on the slot that the first one leaves. */
  lemma {:induction false} FirstSlotAgain(e: ElState)
    requires Full(e)
    ensures var s := HalfClosed(e, e.socks.start + 1).el.socks; !Busy(s.slots, Chosen(s))
  {
    var n, k := e.maxConn, e.socks.start + 1;
    FirstIsLive(e);
    SlotIsRemainder(k, n);
    SlotIsRemainder(k + n, n);
  }

  /** A connection is turned away, and stays counted when both threads are done. */
  ghost predicate StaysCounted(t: Sys, fd: int)
    requires Ready(t.el)
  {
    && Inv(t) && Enabled(t, Count(fd)) && !Fair(t, Count(fd)) && Do(t, Count(fd)).acc.Outside?
    && Enabled(Do(t, Count(fd)), Work)
    && var u := Do(Do(t, Count(fd)), Work);
       u.acc.Outside? && u.loop.Wait? && !ElAgree(u.el) && u.el.curConn == |Entries(u)| + 1
  }

  /** One above max_conn, and a close that has still to be counted off. */
  lemma {:induction false} OneAbove(t: Sys, k: Sid, fd: int)
    requires Inv(t) && t.acc.Outside? && t.loop == Shut(k, 2) && t.el.curConn == t.el.maxConn + 1
    ensures StaysCounted(t, fd)
  {
    assert t.el.timer.index.entries.Keys == Entries(t);
  }

  /** With every connection there, one is closed up to the count, and another takes its place before it is
      counted off. */
  lemma {:induction false} TakesItsPlace(e: ElState, k: Sid, fd: int) returns (acts: seq<Act>, t: Sys)
    requires Full(e) && k == e.socks.start + 1
    ensures Ready(t.el) && Reaches(Quiet(e), acts, t)
    ensures Inv(t) && t.acc.Outside? && t.loop == Shut(k, 2) && t.el.curConn == t.el.maxConn + 1
  {
    var s := HalfClosed(e, k);
    FirstIsLive(e);
    UpToTheCount(e, k);
    FirstSlotAgain(e);
    AddIsFair(s, fd);
    acts, t := HalfClose(k) + Adding(fd), Sys(AddConnection(s.el, fd).0, Outside, s.loop);
    ReachesThen(Quiet(e), HalfClose(k), s, Adding(fd), t);
  }

  /** From every new loop, whatever its max_conn, fair steps lead to a connection that is turned away and stays
      counted. */
  lemma {:induction false} TurnedAwayIsReached(maxConn: nat, interval: nat, now: Clock, fd: int)
    returns (acts: seq<Act>, t: Sys)
    requires 0 < maxConn < 0x8000_0000
    ensures Ready(t.el) && Reaches(Start(maxConn, interval, now), acts, t) && StaysCounted(t, fd)
  {
    var e0 := NewLoop(maxConn, interval, now);
    var k := e0.socks.start + 1;
    var fill, e := FillUp(e0, 0, fd);
    acts, t := TakesItsPlace(e, k, fd);
    ReachesThen(Quiet(e0), fill, Quiet(e), acts, t);
    acts := fill + acts;
    OneAbove(t, k, fd);
  }

  // ---- an event that misses its connection ----

  ghost function Steps(e: ElState, ops: seq<ElOp>): (r: ElState)
    requires Ready(e)
    ensures Ready(r)
    decreases |ops|
  {
    if ops == [] then e else Steps(ElSpec.Step(e, ops[0]), ops[1..])
  }

  ghost predicate AgreeAlong(e: ElState, ops: seq<ElOp>)
    requires Ready(e)
    decreases |ops|
  {
    ElAgree(e) && (ops == [] || AgreeAlong(ElSpec.Step(e, ops[0]), ops[1..]))
  }

  /** No connection. */
  ghost predicate Vacant(e: ElState) { ElAgree(e) && AllFree(e.socks.slots) && e.curConn == 0 }

  lemma {:induction false} AddToVacant(e: ElState)
    requires Vacant(e) && e.socks.curr + 1 < WRAP
    ensures var e1 := AddConnection(e, 0).0;
            ElAgree(e1) && Live(e1.socks, e.socks.curr + 1) && e1.socks.curr == e.socks.curr + 1 && e1.curConn == 1
  {
    OneRound(e.socks);
    AddKeeps(e, 0);
  }

  lemma {:induction false} AddAndClose(e: ElState)
    requires Vacant(e) && e.socks.curr + 1 < 0x10000
    ensures var e1 := AddConnection(e, 0).0; var e2 := CloseSid(e1, e.socks.curr + 1);
            ElAgree(e1) && Vacant(e2) && e2.socks.curr == e.socks.curr + 1
  {
    OneRound(e.socks);
    AddToVacant(e);
    CloseKeeps(AddConnection(e, 0).0, e.socks.curr + 1);
  }

  /** Everything agreed up to here, id 0x10000 is live, and its closing event leaves it so and breaks the
      agreement. */
  ghost predicate Misses(e: ElState) {
    && ElAgree(e) && Live(e.socks, 0x10000)
    && var r := ElSpec.Step(e, Close(0x10000)); Live(r.socks, 0x10000) && !ElAgree(r)
  }

  lemma {:induction false} SeventeenBits(e: ElState)
    requires ElAgree(e) && Live(e.socks, 0x10000) && e.curConn == 1
    ensures Misses(e)
  {
    EventHitsItsOwn(e, 0x10000);
    CloseExact(e, 0);
  }

  lemma {:induction false} StepsCons(e: ElState, op: ElOp, rest: seq<ElOp>)
    requires Ready(e)
    ensures Steps(e, [op] + rest) == Steps(ElSpec.Step(e, op), rest)
    ensures AgreeAlong(e, [op] + rest) <==> ElAgree(e) && AgreeAlong(ElSpec.Step(e, op), rest)
  {
    assert ([op] + rest)[1..] == rest;
  }

  /** Connections come and go until an id needs 17 bits: its closing event closes nothing, and the count is
      one short. */
  lemma {:induction false} LateIdMissed(e: ElState) returns (ops: seq<ElOp>)
    requires Vacant(e) && e.socks.curr < 0x10000
    ensures AgreeAlong(e, ops) && Misses(Steps(e, ops))
    decreases 0x10000 - e.socks.curr
  {
    var sid, e1 := e.socks.curr + 1, ElSpec.Step(e, Add(0));
    AddToVacant(e);
    if sid == 0x10000 {
      SeventeenBits(e1);
      ops := [Add(0)] + [];
      StepsCons(e, Add(0), []);
    } else {
      AddAndClose(e);
      var rest := LateIdMissed(ElSpec.Step(e1, Close(sid)));
      StepsCons(e1, Close(sid), rest);
      StepsCons(e, Add(0), [Close(sid)] + rest);
      ops := [Add(0)] + ([Close(sid)] + rest);
    }
  }

  lemma {:induction false} NewLoopVacant(maxConn: nat, interval: nat, now: Clock)
    requires 0 < maxConn < 0x8000_0000
    ensures Vacant(NewLoop(maxConn, interval, now)) && NewLoop(maxConn, interval, now).socks.curr < 0x10000
  {}
}
