/** Whole runs of the timer: when an entry is reported, counted in ticks and in microseconds. */
module TimerRuns {
  import opened TimerSpec

  lemma {:induction false} StepAgrees(t: TimerState, op: TimerOp)
    requires Agree(t)
    ensures Agree(Step(t, op))
  {
    match op
    case Insert(fd, sid) => InsertionAgrees(t, fd, sid);
    case Update(sid) => MovedAgrees(t, sid);
    case Remove(sid) => RemovalAgrees(t, sid);
    case Tick(now) => BookKeepingAgrees(t, now);
  }

  /** The state after a run; a run keeps the index in agreement with the wheels. */
  ghost function Exec(t: TimerState, ops: seq<TimerOp>): (r: TimerState)
    requires Agree(t)
    ensures Agree(r) && r.interval == t.interval
  {
    if ops == [] then t else
      var s := Exec(t, ops[..|ops| - 1]);
      StepAgrees(s, ops[|ops| - 1]);
      Step(s, ops[|ops| - 1])
  }

  /** How often the wheel turned. */
  ghost function Ticks(t: TimerState, ops: seq<TimerOp>): nat
    requires Agree(t)
  {
    if ops == [] then 0 else
      var init, op := ops[..|ops| - 1], ops[|ops| - 1];
      Ticks(t, init) + if op.Tick? && Advances(Exec(t, init), op.now) then 1 else 0
  }

  predicate Leaves(op: TimerOp, sid: Sid) { op != Update(sid) && op != Remove(sid) }

  /** Turns until wheel w is the one to expire; the current wheel has a whole round to go. */
  function Remaining(t: TimerState, w: nat): nat
    requires t.curr <= t.interval && w <= t.interval
  {
    if w > t.curr then w - t.curr else w + t.interval + 1 - t.curr
  }

  /** A new entry has `interval` turns to go. */
  function Lifetime(interval: nat): nat { if interval == 0 then 1 else interval }

  lemma {:induction false} StepCountsDown(t: TimerState, sid: Sid, w: nat, op: TimerOp)
    requires Agree(t) && Indexed(t, sid, w) && Leaves(op, sid)
    ensures Indexed(Step(t, op), sid, w)
    ensures var n := if op.Tick? && Advances(t, op.now) then 1 else 0;
            n < Remaining(t, w) ==> Remaining(Step(t, op), w) == Remaining(t, w) - n
    ensures op.Tick? && Advances(t, op.now) ==> (Remaining(t, w) == 1 <==> Step(t, op).curr == w)
  {
    if op.Insert? { InsertionAgrees(t, op.fd, op.sid); }
    if op.Update? { MovedAgrees(t, op.sid); }
    if op.Remove? { RemovalAgrees(t, op.sid); }
    if op.Tick? { BookKeepingAgrees(t, op.now); }
  }

  lemma {:induction false} Countdown(t: TimerState, sid: Sid, w: nat, ops: seq<TimerOp>)
    requires Agree(t) && Indexed(t, sid, w)
    requires forall op :: op in ops ==> Leaves(op, sid)
    requires Ticks(t, ops) < Remaining(t, w)
    ensures Indexed(Exec(t, ops), sid, w)
    ensures Remaining(Exec(t, ops), w) == Remaining(t, w) - Ticks(t, ops)
  {
    if ops != [] {
      Countdown(t, sid, w, ops[..|ops| - 1]);
      StepCountsDown(Exec(t, ops[..|ops| - 1]), sid, w, ops[|ops| - 1]);
    }
  }

  /** The wheel that book keeping reports holds exactly the entries that had one turn to go. */
  lemma {:induction false} ReportsTheDue(t: TimerState, sid: Sid, w: nat, now: Clock)
    requires Agree(t) && Indexed(t, sid, w) && Advances(t, now)
    ensures var (t', r) := BookKeeping(t, now); OnWheel(t', sid, r) <==> Remaining(t, w) == 1
  {
    var (t', r) := BookKeeping(t, now);
    BookKeepingAgrees(t, now);
    StepCountsDown(t, sid, w, Tick(now));
    assert OnWheel(t', sid, t'.curr) <==> Indexed(t', sid, t'.curr);
    if Remaining(t, w) == 1 { assert |t.wheels[t'.curr].entries| > 0; }
  }

  /** An entry that nobody touches is reported by the turn that uses up what it has left, and by none
      before it. */
  lemma {:induction false} DueExactly(t: TimerState, sid: Sid, w: nat, ops: seq<TimerOp>, now: Clock)
    requires Agree(t) && Indexed(t, sid, w)
    requires forall op :: op in ops ==> Leaves(op, sid)
    requires Ticks(t, ops) < Remaining(t, w) && Advances(Exec(t, ops), now)
    ensures var (t', r) := BookKeeping(Exec(t, ops), now);
            OnWheel(t', sid, r) <==> Ticks(t, ops) + 1 == Remaining(t, w)
  {
    Countdown(t, sid, w, ops);
    ReportsTheDue(Exec(t, ops), sid, w, now);
  }

  ghost function Inserted(t: TimerState, fd: int, sid: Sid): (r: TimerState)
    requires Agree(t)
    ensures Agree(r) && r.interval == t.interval && r.clock == t.clock
  {
    InsertionAgrees(t, fd, sid);
    Insertion(t, fd, sid).0
  }

  /** Exact expiry: an entry that nobody updates or removes is reported by the turn that completes its
      lifetime, and by none before it. */
  lemma {:induction false} ExpiresExactly(t: TimerState, fd: int, sid: Sid, ops: seq<TimerOp>, now: Clock)
    requires Agree(t) && sid !in t.index.entries
    requires forall op :: op in ops ==> Leaves(op, sid)
    requires Ticks(Inserted(t, fd, sid), ops) < Lifetime(t.interval)
    requires Advances(Exec(Inserted(t, fd, sid), ops), now)
    ensures var (t', r) := BookKeeping(Exec(Inserted(t, fd, sid), ops), now);
            OnWheel(t', sid, r) <==> Ticks(Inserted(t, fd, sid), ops) + 1 == Lifetime(t.interval)
  {
    InsertionAgrees(t, fd, sid);
    DueExactly(Inserted(t, fd, sid), sid, t.prev, ops, now);
  }

  /** Turns left after an update: those of a new entry if it is on prev_wheel, else one more than a round. */
  function Renewed(t: TimerState, w: nat): nat { if w == t.prev then Lifetime(t.interval) else t.interval + 1 }

  /** An update sets the deadline to interval or interval + 1 turns and never brings it forward. */
  lemma {:induction false} UpdatePostpones(t: TimerState, sid: Sid, w: nat)
    requires Agree(t) && Indexed(t, sid, w)
    ensures var t', w' := Moved(t, sid), if w == t.prev then w else t.curr;
            && Indexed(t', sid, w') && t'.curr == t.curr && t'.interval == t.interval
            && Remaining(t', w') == Renewed(t, w) >= Remaining(t, w)
  {
    MovedAgrees(t, sid);
    assert OnWheel(t, sid, w) <==> Indexed(t, sid, w);
  }

  ghost function Updated(t: TimerState, sid: Sid): (r: TimerState)
    requires Agree(t)
    ensures Agree(r)
  {
    MovedAgrees(t, sid);
    Moved(t, sid)
  }

  /** An updated entry is reported by the turn that completes its new deadline, and by none before it. */
  lemma {:induction false} UpdatedExpiresExactly(t: TimerState, sid: Sid, w: nat, ops: seq<TimerOp>, now: Clock)
    requires Agree(t) && Indexed(t, sid, w)
    requires forall op :: op in ops ==> Leaves(op, sid)
    requires Ticks(Updated(t, sid), ops) < Renewed(t, w)
    requires Advances(Exec(Updated(t, sid), ops), now)
    ensures var (t', r) := BookKeeping(Exec(Updated(t, sid), ops), now);
            OnWheel(t', sid, r) <==> Ticks(Updated(t, sid), ops) + 1 == Renewed(t, w)
  {
    UpdatePostpones(t, sid, w);
    DueExactly(Updated(t, sid), sid, if w == t.prev then w else t.curr, ops, now);
  }

  // ---- real time ----

  /** The time of the last book-keeping call. */
  ghost function LastCall(p: Clock, ops: seq<TimerOp>): Clock {
    if ops == [] then p else
      if ops[|ops| - 1].Tick? then ops[|ops| - 1].now else LastCall(p, ops[..|ops| - 1])
  }

  /** The clock does not run backwards, and calls are at most d apart. */
  ghost predicate Paced(p: Clock, ops: seq<TimerOp>, d: nat) {
    ops == [] ||
    var init, op := ops[..|ops| - 1], ops[|ops| - 1];
    Paced(p, init, d) && (op.Tick? ==> LastCall(p, init) <= op.now <= LastCall(p, init) + d)
  }

  /** n times a second and a gap: n * (TICK + d), see SpanIsProduct. */
  ghost function Span(n: nat, d: nat): nat {
    if n == 0 then 0 else Span(n - 1, d) + TICK + d
  }

  lemma {:induction false} SpanIsProduct(n: nat, d: nat)
    ensures Span(n, d) == n * (TICK + d)
  {
    if n > 0 { SpanIsProduct(n - 1, d); }
  }

  lemma {:induction false} SpanGrows(k: nat, n: nat, d: nat)
    requires k <= n
    ensures Span(k, d) <= Span(n, d)
  {
    if k < n { SpanGrows(k, n - 1, d); }
  }

  /** A turn happens a second after the last one, or up to one gap later. */
  lemma {:induction false} TurnClock(s: TimerState, op: TimerOp, l: Clock, d: nat)
    requires Agree(s) && s.clock <= l < s.clock + 1_000_000
    requires op.Tick? ==> l <= op.now <= l + d
    ensures var turns := op.Tick? && Advances(s, op.now);
            && (turns ==> Step(s, op).clock == op.now && s.clock + 1_000_000 <= op.now <= s.clock + 1_000_000 + d)
            && (!turns ==> Step(s, op).clock == s.clock && (op.Tick? ==> op.now < s.clock + 1_000_000))
  {}

  /** After n turns from clock c on, with all calls from t0 on and the last one at l. */
  ghost predicate InBounds(c: nat, t0: nat, clock: nat, n: nat, l: nat, d: nat) {
    clock <= l < clock + 1_000_000 && clock <= c + Span(n, d) && (n >= 1 ==> t0 + (n - 1) * 1_000_000 <= clock)
  }

  lemma {:induction false} StepInBounds(c: nat, t0: nat, s: TimerState, op: TimerOp, n: nat, l: Clock, d: nat)
    requires Agree(s) && c <= t0 && InBounds(c, t0, s.clock, n, l, d)
    requires op.Tick? ==> l <= op.now <= l + d && t0 <= op.now
    ensures var turns := op.Tick? && Advances(s, op.now);
            InBounds(c, t0, Step(s, op).clock, if turns then n + 1 else n, if op.Tick? then op.now else l, d)
  {
    TurnClock(s, op, l, d);
  }

  /** n turns take at least n - 1 seconds, and at most n times a second and a gap. */
  lemma {:induction false} ClockBounds(t: TimerState, p: Clock, ops: seq<TimerOp>, d: nat, t0: nat)
    requires Agree(t) && t.clock <= p < t.clock + 1_000_000 && Paced(p, ops, d)
    requires t.clock <= t0 && forall op :: op in ops && op.Tick? ==> t0 <= op.now
    ensures InBounds(t.clock, t0, Exec(t, ops).clock, Ticks(t, ops), LastCall(p, ops), d)
  {
    if ops != [] {
      var init, op := ops[..|ops| - 1], ops[|ops| - 1];
      ClockBounds(t, p, init, d, t0);
      assert op in ops;
      StepInBounds(t.clock, t0, Exec(t, init), op, Ticks(t, init), LastCall(p, init), d);
    }
  }

  /** The turn that reports an entry inserted at time t0 comes after interval - 1 seconds and no later
      than interval times a second and a gap. */
  lemma {:induction false} ExpiryWindow(t: TimerState, p: Clock, ops: seq<TimerOp>, d: nat, t0: nat, now: Clock, n: nat)
    requires Agree(t) && t.clock <= p < t.clock + 1_000_000 && Paced(p, ops + [Tick(now)], d)
    requires t.clock <= t0 <= now && forall op :: op in ops && op.Tick? ==> t0 <= op.now
    requires Advances(Exec(t, ops), now) && n == Ticks(t, ops) + 1
    ensures t0 + (n - 1) * 1_000_000 <= now <= t0 + n * (1_000_000 + d)
  {
    var all := ops + [Tick(now)];
    assert all[..|all| - 1] == ops;
    ClockBounds(t, p, ops, d, t0);
    TurnClock(Exec(t, ops), Tick(now), LastCall(p, ops), d);
    SpanIsProduct(n, d);
  }

  /** Once that much time has passed, the wheel has turned that often. */
  lemma {:induction false} NoLaterThan(t: TimerState, p: Clock, ops: seq<TimerOp>, d: nat, t0: nat, n: nat)
    requires Agree(t) && t.clock <= p < t.clock + 1_000_000 && Paced(p, ops, d)
    requires t.clock <= t0 && forall op :: op in ops && op.Tick? ==> t0 <= op.now
    requires LastCall(p, ops) >= t0 + n * (1_000_000 + d)
    ensures Ticks(t, ops) >= n
  {
    SpanIsProduct(n, d);
    ClockBounds(t, p, ops, d, t0);
    if Ticks(t, ops) < n { SpanGrows(Ticks(t, ops) + 1, n, d); }
  }

  /** The operation that makes the n-th turn. */
  lemma {:induction false} NthTurn(t: TimerState, ops: seq<TimerOp>, n: nat) returns (i: nat)
    requires Agree(t) && 1 <= n <= Ticks(t, ops)
    ensures i < |ops| && ops[i].Tick? && Ticks(t, ops[..i]) + 1 == n && Advances(Exec(t, ops[..i]), ops[i].now)
  {
    var init := ops[..|ops| - 1];
    if n <= Ticks(t, init) {
      i := NthTurn(t, init, n);
      assert init[..i] == ops[..i];
    } else {
      i := |ops| - 1;
    }
  }

  lemma {:induction false} PacedPrefix(p: Clock, ops: seq<TimerOp>, d: nat, i: nat)
    requires Paced(p, ops, d) && i <= |ops|
    ensures Paced(p, ops[..i], d)
  {
    if i < |ops| {
      PacedPrefix(p, ops[..|ops| - 1], d, i);
      assert ops[..|ops| - 1][..i] == ops[..i];
    } else {
      assert ops[..i] == ops;
    }
  }

  lemma {:induction false} PacedUpTo(p: Clock, ops: seq<TimerOp>, d: nat, i: nat)
    requires Paced(p, ops, d) && i < |ops| && ops[i].Tick?
    ensures Paced(p, ops[..i] + [Tick(ops[i].now)], d)
  {
    PacedPrefix(p, ops, d, i + 1);
    assert ops[..i] + [Tick(ops[i].now)] == ops[..i + 1];
  }

  /** The n-th turn, and when it comes. */
  lemma {:induction false} NthTurnInWindow(t: TimerState, p: Clock, ops: seq<TimerOp>, d: nat, t0: nat, n: nat) returns (i: nat)
    requires Agree(t) && t.clock <= p < t.clock + 1_000_000 && Paced(p, ops, d)
    requires t.clock <= t0 && forall op :: op in ops && op.Tick? ==> t0 <= op.now
    requires 1 <= n <= Ticks(t, ops)
    ensures i < |ops| && ops[i].Tick? && Ticks(t, ops[..i]) + 1 == n && Advances(Exec(t, ops[..i]), ops[i].now)
    ensures t0 + (n - 1) * 1_000_000 <= ops[i].now <= t0 + n * (1_000_000 + d)
  {
    i := NthTurn(t, ops, n);
    assert ops[i] in ops;
    PacedUpTo(p, ops, d, i);
    ExpiryWindow(t, p, ops[..i], d, t0, ops[i].now, n);
  }

  /** In real time: once the latest time has gone by, an entry inserted at time t0 that nobody touched has
      been reported, by the call of its last turn, and that call came inside the window. */
  lemma {:induction false} ReportedInTime(t: TimerState, fd: int, sid: Sid, p: Clock, ops: seq<TimerOp>, d: nat, t0: nat) returns (i: nat)
    requires Agree(t) && sid !in t.index.entries
    requires (forall op :: op in ops ==> Leaves(op, sid)) && (forall op :: op in ops && op.Tick? ==> t0 <= op.now)
    requires t.clock <= p <= t0 && p < t.clock + 1_000_000 && Paced(p, ops, d)
    requires LastCall(p, ops) >= t0 + Lifetime(t.interval) * (1_000_000 + d)
    ensures i < |ops| && ops[i].Tick?
    ensures var (t', r) := BookKeeping(Exec(Inserted(t, fd, sid), ops[..i]), ops[i].now); OnWheel(t', sid, r)
    ensures var n := Lifetime(t.interval); t0 + (n - 1) * 1_000_000 <= ops[i].now <= t0 + n * (1_000_000 + d)
  {
    var t1, n := Inserted(t, fd, sid), Lifetime(t.interval);
    assert Ticks(t1, ops) >= n by { NoLaterThan(t1, p, ops, d, t0, n); }
    i := NthTurnInWindow(t1, p, ops, d, t0, n);
    ExpiresExactly(t, fd, sid, ops[..i], ops[i].now);
  }
}
