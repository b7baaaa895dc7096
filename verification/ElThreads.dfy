/** The event loop and the accepting thread side by side.  Every call on the count, the slots or the timer is
    one step, and the steps of the two threads mix in any way: an add is four steps, as the insertion into the
    timer first reads prev_wheel, and closing a connection three more. */
module ElThreads {
  import opened Types
  import opened SockSetSpec
  import opened TimerSpec
  import opened ElSpec

  /** Where the accepting thread is in lmvs_el_add_connection: outside, past the count, past put and the arming
      of epoll, or past the reading of prev_wheel.  Once epoll is armed an event may name the id, which the
      timer does not know yet. */
  datatype Accept = Outside | Counted(fd: int) | Armed(fd: int, sid: Sid) | Aimed(fd: int, sid: Sid, wheel: nat)

  /** Where the loop is: waiting, closing a connection (reset, timer remove, count), about to list the keys of
      the wheel that book keeping reported, or sweeping them (for each: reset, count, timer remove). */
  datatype Loop = Wait | Shut(sid: Sid, done: nat) | Reported(wheel: nat) | Sweep(keys: seq<Sid>, done: nat)

  datatype Sys = Sys(el: ElState, acc: Accept, loop: Loop)

  datatype Act = Count(fd: int) | TakeSlot | ReadWheel | StartTimer // the accepting thread
               | Event(sid: Sid) | Turn(now: Clock) | ListKeys | Work // the loop

  // ---- one step ----

  ghost predicate Enabled(s: Sys, a: Act) {
    match a
    case Count(_) => s.acc.Outside?
    case TakeSlot => s.acc.Counted?
    case ReadWheel => s.acc.Armed?
    case StartTimer => s.acc.Aimed? && s.acc.wheel <= s.el.timer.interval
    case Event(_) => s.loop.Wait?
    case Turn(_) => s.loop.Wait?
    case ListKeys => s.loop.Reported?
    case Work => (s.loop.Shut? && s.loop.done <= 2) || (s.loop.Sweep? && s.loop.keys != [] && s.loop.done <= 2)
  }

  function Uncounted(e: ElState): ElState { e.(curConn := e.curConn - 1) }

  ghost function Released(e: ElState, sid: Sid): ElState
    requires Ready(e)
  {
    e.(socks := Release(e.socks, sid))
  }

  ghost function Unwatched(e: ElState, sid: Sid): ElState
    requires Ready(e)
  {
    e.(timer := Removal(e.timer, sid))
  }

  ghost function LoopStep(e: ElState, l: Loop): (ElState, Loop)
    requires Ready(e) && (l.Shut? || (l.Sweep? && l.keys != []))
  {
    if l.Shut? then
      if l.done == 0 then (Released(e, l.sid), Shut(l.sid, 1))
      else if l.done == 1 then (Unwatched(e, l.sid), Shut(l.sid, 2))
      else (Uncounted(e), Wait)
    else
      if l.done == 0 then (Released(e, l.keys[0]), Sweep(l.keys, 1))
      else if l.done == 1 then (Uncounted(e), Sweep(l.keys, 2))
      else (Unwatched(e, l.keys[0]), if |l.keys| == 1 then Wait else Sweep(l.keys[1..], 0))
  }

  ghost function SweepOf(t: TimerState, w: nat): Loop {
    if w < |t.wheels| && Keys(t.wheels[w]) != {} then Sweep(Ascending(Keys(t.wheels[w])), 0) else Wait
  }

  ghost function Do(s: Sys, a: Act): (r: Sys)
    requires Ready(s.el) && Enabled(s, a)
    ensures Ready(r.el)
  {
    match a
    case Count(fd) =>
      s.(el := s.el.(curConn := s.el.curConn + 1), acc := if s.el.curConn > s.el.maxConn then Outside else Counted(fd))
    case TakeSlot =>
      var (socks, sid) := Claim(s.el.socks, s.acc.fd);
      s.(el := s.el.(socks := socks), acc := Armed(s.acc.fd, sid))
    case ReadWheel => s.(acc := Aimed(s.acc.fd, s.acc.sid, s.el.timer.prev))
    case StartTimer =>
      s.(el := s.el.(timer := InsertionAt(s.el.timer, s.acc.fd, s.acc.sid, s.acc.wheel).0), acc := Outside)
    case Event(sid) => s.(loop := Shut(EventSid(sid), 0))
    case Turn(now) =>
      var (t, w) := BookKeeping(s.el.timer, now);
      s.(el := s.el.(timer := t), loop := if w < 0 then Wait else Reported(w))
    case ListKeys => s.(loop := SweepOf(s.el.timer, s.loop.wheel))
    case Work =>
      var (e, l) := LoopStep(s.el, s.loop);
      s.(el := e, loop := l)
  }

  // ---- agreement while calls are under way ----

  /** Claimed and armed, but not in the timer yet. */
  predicate Pending(acc: Accept, k: Int64) { (acc.Armed? || acc.Aimed?) && acc.sid == k }

  /** The loop has reset the slot of k and has still to take k out of the timer. */
  predicate Half(l: Loop, k: Int64) {
    (l.Shut? && l.sid == k && l.done == 1) || (l.Sweep? && l.keys != [] && l.keys[0] == k && l.done >= 1)
  }

  /** The sweep that is under way is going to close k, or is closing it. */
  predicate Due(s: Sys, k: Int64) {
    || (s.loop.Reported? && Indexed(s.el.timer, k, s.loop.wheel))
    || (s.loop.Sweep? && k in s.loop.keys)
  }

  function Entries(s: Sys): set<Int64> { s.el.timer.index.entries.Keys }

  /** The count against the timer's entries: an add counts first, a close counts last, a sweep in between. */
  function Ahead(acc: Accept, l: Loop): int {
    (if acc.Outside? then 0 else 1) + (if l.Shut? && l.done == 2 then 1 else if l.Sweep? && l.done == 2 then -1 else 0)
  }

  /** What the loop has to take out of the timer is there, or about to be. */
  ghost predicate LoopOk(s: Sys) {
    match s.loop
    case Wait => true
    case Shut(k, d) => d <= 2 && (d < 2 ==> k in Entries(s) || Pending(s.acc, k))
    case Reported(w) => w == s.el.timer.curr
    case Sweep(keys, d) => keys != [] && d <= 2 && Distinct(keys) && forall k :: k in keys ==> k in Entries(s)
  }

  /** The slot of k is taken, by a connection in the timer or by one on its way there.  An id that is being
      closed may have been handed out again. */
  predicate Owned(s: Sys, k: Int64) {
    if Half(s.loop, k) then Pending(s.acc, k) && k in Entries(s) else Pending(s.acc, k) || k in Entries(s)
  }

  ghost predicate Inv(s: Sys) {
    && |s.el.socks.slots| == s.el.maxConn && SetInv(s.el.socks) && Agree(s.el.timer)
    && (s.acc.Aimed? ==> s.acc.wheel <= s.el.timer.interval)
    && (forall k: Int64 :: Pending(s.acc, k) && k in Entries(s) ==> Half(s.loop, k))
    && LoopOk(s)
    && (forall k: Int64 :: Live(s.el.socks, k) <==> Owned(s, k))
    && s.el.curConn == |Entries(s)| + Ahead(s.acc, s.loop)
  }

  /** Between calls this is the agreement of slots, timer and count. */
  lemma {:induction false} QuietAgrees(e: ElState)
    ensures Inv(Sys(e, Outside, Wait)) <==> ElAgree(e)
  {
    var s := Sys(e, Outside, Wait);
    assert forall k: Int64 :: k in Entries(s) <==> k in e.timer.index.entries;
    assert |Entries(s)| == |e.timer.index.entries|;
  }

  /** Exactly when a step keeps the agreement: a count is not turned away; a claim finds a free slot; an id is
      put into the timer only after the loop has taken out its former use, and taken out only after it was put
      in; and an event is about a live id. */
  ghost predicate Fair(s: Sys, a: Act)
    requires Ready(s.el) && Enabled(s, a)
  {
    match a
    case Count(_) => s.el.curConn <= s.el.maxConn
    case TakeSlot => !Busy(s.el.socks.slots, Chosen(s.el.socks))
    case ReadWheel => true
    case StartTimer => s.acc.sid !in Entries(s)
    case Event(sid) => Live(s.el.socks, EventSid(sid))
    case Turn(_) => true
    case ListKeys => true
    case Work => s.loop.Shut? && s.loop.done == 1 ==> s.loop.sid in Entries(s)
  }

  lemma {:induction false} CountExact(s: Sys, fd: int)
    requires Inv(s) && Enabled(s, Count(fd))
    ensures Inv(Do(s, Count(fd))) <==> Fair(s, Count(fd))
  {}

  lemma {:induction false} TakeSlotKeepsInv(s: Sys)
    requires Inv(s) && Enabled(s, TakeSlot) && Fair(s, TakeSlot)
    ensures Inv(Do(s, TakeSlot))
  {
    var sid := Chosen(s.el.socks);
    ClaimKeeps(s.el.socks, s.acc.fd);
    ClaimAdds(s.el.socks, s.acc.fd, sid);
    forall k: Int64 ensures Live(Do(s, TakeSlot).el.socks, k) <==> k == sid || Live(s.el.socks, k) {
      ClaimAdds(s.el.socks, s.acc.fd, k);
    }
  }

  lemma {:induction false} TakeSlotExact(s: Sys)
    requires Inv(s) && Enabled(s, TakeSlot)
    ensures Inv(Do(s, TakeSlot)) <==> Fair(s, TakeSlot)
  {
    var sid, slots := Chosen(s.el.socks), s.el.socks.slots;
    if Fair(s, TakeSlot) {
      TakeSlotKeepsInv(s);
    } else if Busy(slots, sid) {
      var k: Int64 := slots[SlotOf(sid, |slots|)].sid;
      assert Live(s.el.socks, k);
      if k != sid { assert !Live(Do(s, TakeSlot).el.socks, k); }
    }
  }

  lemma {:induction false} ReadWheelKeepsInv(s: Sys)
    requires Inv(s) && Enabled(s, ReadWheel)
    ensures Inv(Do(s, ReadWheel))
  {}

  lemma {:induction false} StartTimerKeepsInv(s: Sys)
    requires Inv(s) && Enabled(s, StartTimer) && Fair(s, StartTimer)
    ensures Inv(Do(s, StartTimer))
    ensures Entries(Do(s, StartTimer)) == Entries(s) + {s.acc.sid as Int64}
    ensures Indexed(Do(s, StartTimer).el.timer, s.acc.sid, s.acc.wheel)
  {
    InsertionAtAgrees(s.el.timer, s.acc.fd, s.acc.sid, s.acc.wheel);
    assert OnWheel(s.el.timer, s.acc.sid, s.acc.wheel) <==> Indexed(s.el.timer, s.acc.sid, s.acc.wheel);
    assert Entries(Do(s, StartTimer)) == Entries(s) + {s.acc.sid as Int64};
  }

  /** Put into the timer while its former use is still there, the id is refused, and removed with it. */
  lemma {:induction false} StartTimerExact(s: Sys)
    requires Inv(s) && Enabled(s, StartTimer)
    ensures Inv(Do(s, StartTimer)) <==> Fair(s, StartTimer)
    ensures !Fair(s, StartTimer) ==> Do(s, StartTimer) == s.(acc := Outside)
  {
    if Fair(s, StartTimer) {
      StartTimerKeepsInv(s);
    } else {
      var k: Int64 := s.acc.sid;
      assert Live(s.el.socks, k) <==> Owned(s, k);
      assert !Owned(Do(s, StartTimer), k);
    }
  }

  lemma {:induction false} EventExact(s: Sys, sid: Sid)
    requires Inv(s) && Enabled(s, Event(sid))
    ensures Inv(Do(s, Event(sid))) <==> Fair(s, Event(sid))
  {}

  /** Book keeping reports a wheel with everything on it. */
  lemma {:induction false} TurnKeepsInv(s: Sys, now: Clock)
    requires Inv(s) && Enabled(s, Turn(now))
    ensures Inv(Do(s, Turn(now)))
    ensures forall k: Int64 :: Due(Do(s, Turn(now)), k) <==> Expired(s.el, now, k)
  {
    var (t, w) := BookKeeping(s.el.timer, now);
    BookKeepingAgrees(s.el.timer, now);
    forall k: Int64 ensures Due(Do(s, Turn(now)), k) <==> Expired(s.el, now, k) {
      assert OnWheel(t, k, w) <==> Indexed(t, k, w);
    }
  }

  /** The list has what is on the wheel by then. */
  lemma {:induction false} ListKeepsInv(s: Sys)
    requires Inv(s) && Enabled(s, ListKeys)
    ensures Inv(Do(s, ListKeys))
    ensures forall k: Sid :: Due(Do(s, ListKeys), k) <==> Due(s, k)
  {
    var t, w := s.el.timer, s.loop.wheel;
    AscendingLists(Keys(t.wheels[w]));
    forall k: Sid ensures k in Keys(t.wheels[w]) <==> Indexed(t, k, w) {
      assert OnWheel(t, k, w) <==> Indexed(t, k, w);
    }
  }

  lemma {:induction false} ReleaseStep(s: Sys, k: Sid)
    requires Inv(s)
    ensures SetInv(Released(s.el, k).socks)
    ensures forall j: Int64 :: Live(Released(s.el, k).socks, j) <==> j != k && Live(s.el.socks, j)
  {
    forall j: Int64 ensures Live(Released(s.el, k).socks, j) <==> j != k && Live(s.el.socks, j) { ReleaseRemoves(s.el.socks, k, j); }
    ReleaseRemoves(s.el.socks, k, k);
  }

  lemma {:induction false} RemovalStep(s: Sys, k: Sid)
    requires Inv(s)
    ensures Agree(Unwatched(s.el, k).timer)
    ensures Unwatched(s.el, k).timer.index.entries.Keys == Entries(s) - {k as Int64}
    ensures k !in Entries(s) ==> Unwatched(s.el, k) == s.el
  {
    RemovalAgrees(s.el.timer, k);
    if k in Entries(s) {
      var w := s.el.timer.index.entries[k];
      assert OnWheel(s.el.timer, k, w) <==> Indexed(s.el.timer, k, w);
    }
  }

  lemma {:induction false} ShutResets(s: Sys)
    requires Inv(s) && s.loop.Shut? && s.loop.done == 0
    ensures Inv(Do(s, Work))
  {
    ReleaseStep(s, s.loop.sid);
  }

  /** The entry is there: the removal takes it out. */
  lemma {:induction false} ShutRemoves(s: Sys)
    requires Inv(s) && s.loop.Shut? && s.loop.done == 1 && s.loop.sid in Entries(s)
    ensures Inv(Do(s, Work)) && Entries(Do(s, Work)) == Entries(s) - {s.loop.sid as Int64}
  {
    RemovalStep(s, s.loop.sid);
  }

  /** The entry is not there yet: the removal finds nothing, and the count will be one short. */
  lemma {:induction false} ShutMisses(s: Sys)
    requires Inv(s) && s.loop.Shut? && s.loop.done == 1 && s.loop.sid !in Entries(s)
    ensures !Inv(Do(s, Work)) && Do(s, Work) == s.(loop := Shut(s.loop.sid, 2))
  {
    RemovalStep(s, s.loop.sid);
  }

  lemma {:induction false} ShutCounts(s: Sys)
    requires Inv(s) && s.loop.Shut? && s.loop.done == 2
    ensures Inv(Do(s, Work))
  {}

  lemma {:induction false} SweepResets(s: Sys)
    requires Inv(s) && Enabled(s, Work) && s.loop.Sweep? && s.loop.done == 0
    ensures Inv(Do(s, Work))
  {
    ReleaseStep(s, s.loop.keys[0]);
  }

  lemma {:induction false} SweepCounts(s: Sys)
    requires Inv(s) && Enabled(s, Work) && s.loop.Sweep? && s.loop.done == 1
    ensures Inv(Do(s, Work))
  {}

  lemma {:induction false} RestDistinct(keys: seq<Sid>)
    requires keys != [] && Distinct(keys)
    ensures Distinct(keys[1..]) && forall j :: j in keys[1..] <==> j in keys && j != keys[0]
  {
    var rest := keys[1..];
    forall i | 0 <= i < |rest| ensures rest[i] in keys && rest[i] != keys[0] { assert rest[i] == keys[i + 1]; }
    assert keys == [keys[0]] + rest;
  }

  lemma {:induction false} SweepMovesOn(s: Sys)
    requires Inv(s) && Enabled(s, Work) && s.loop.Sweep? && s.loop.done == 2
    ensures LoopOk(Do(s, Work)) && Entries(Do(s, Work)) == Entries(s) - {s.loop.keys[0] as Int64}
  {
    RemovalStep(s, s.loop.keys[0]);
    RestDistinct(s.loop.keys);
  }

  lemma {:induction false} SweepDisowns(s: Sys, k: Int64)
    requires Inv(s) && Enabled(s, Work) && s.loop.Sweep? && s.loop.done == 2
    ensures Owned(Do(s, Work), k) <==> Owned(s, k)
    ensures Pending(s.acc, k) ==> k !in Entries(Do(s, Work))
  {
    SweepMovesOn(s);
    assert Half(s.loop, k) <==> k == s.loop.keys[0];
    assert !Half(Do(s, Work).loop, k);
  }

  lemma {:induction false} SweepRemoves(s: Sys)
    requires Inv(s) && Enabled(s, Work) && s.loop.Sweep? && s.loop.done == 2
    ensures Inv(Do(s, Work)) && Entries(Do(s, Work)) == Entries(s) - {s.loop.keys[0] as Int64}
  {
    var t := Do(s, Work);
    RemovalStep(s, s.loop.keys[0]);
    SweepMovesOn(s);
    forall k: Int64 ensures Live(t.el.socks, k) <==> Owned(t, k) { SweepDisowns(s, k); }
    forall k: Int64 | Pending(t.acc, k) ensures k !in Entries(t) { SweepDisowns(s, k); }
  }

  lemma {:induction false} WorkExact(s: Sys)
    requires Inv(s) && Enabled(s, Work)
    ensures Inv(Do(s, Work)) <==> Fair(s, Work)
  {
    if s.loop.Shut? {
      if s.loop.done == 0 { ShutResets(s); }
      else if s.loop.done == 2 { ShutCounts(s); }
      else if s.loop.sid in Entries(s) { ShutRemoves(s); }
      else { ShutMisses(s); }
    } else {
      if s.loop.done == 0 { SweepResets(s); }
      else if s.loop.done == 1 { SweepCounts(s); }
      else { SweepRemoves(s); }
    }
  }

  /** Step by step, the agreement is kept exactly by the fair steps. */
  lemma {:induction false} StepExact(s: Sys, a: Act)
    requires Inv(s) && Enabled(s, a)
    ensures Inv(Do(s, a)) <==> Fair(s, a)
  {
    match a
    case Count(fd) => CountExact(s, fd);
    case TakeSlot => TakeSlotExact(s);
    case ReadWheel => ReadWheelKeepsInv(s);
    case StartTimer => StartTimerExact(s);
    case Event(sid) => EventExact(s, sid);
    case Turn(now) => TurnKeepsInv(s, now);
    case ListKeys => ListKeepsInv(s);
    case Work => WorkExact(s);
  }

  /** A connection that was counted below max_conn finds a free slot, and without a gap in the ids gets it. */
  lemma {:induction false} RoomForCounted(s: Sys)
    requires Inv(s) && s.acc.Counted? && s.el.curConn <= s.el.maxConn
    ensures HasFree(s.el.socks.slots)
    ensures NoGap(s.el.socks) ==> !Busy(s.el.socks.slots, Chosen(s.el.socks))
  {
    var n, held := s.el.maxConn, Held(s.el.socks.slots, s.el.maxConn);
    forall k: Int64 ensures k in held <==> k in Entries(s) && !Half(s.loop, k) {
      HeldMembers(s.el.socks.slots, n, k);
      if k in held { assert Live(s.el.socks, k); }
      if k in Entries(s) && !Half(s.loop, k) { assert Live(s.el.socks, k); }
    }
    if s.loop.Shut? && s.loop.done == 1 {
      assert held == Entries(s) - {s.loop.sid as Int64};
    } else if s.loop.Sweep? && s.loop.done >= 1 {
      assert held == Entries(s) - {s.loop.keys[0] as Int64};
    } else {
      assert held == Entries(s);
    }
    HeldCount(s.el.socks, n);
    if NoGap(s.el.socks) { NoGapFindsFree(s.el.socks); }
  }
}
