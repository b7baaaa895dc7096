/** The timing wheel as a value: interval + 1 wheels, and an index that says which wheel an id is on. */
module TimerSpec {
  import opened Types
  import opened HashSpec

  const TICK: nat := 1000000 // microseconds
  const U64: nat := 0x1_0000_0000_0000_0000

  type Clock = c: nat | c < 0x1_0000_0000_0000_0000
  type Sid = s: int | 0 <= s < 0x1_0000_0000

  datatype TimerNode = TimerNode(fd: int, timerid: Sid, interval: nat)

  datatype TimerState = TimerState(interval: nat, prev: nat, curr: nat, clock: Clock,
                                   index: Table<nat>, wheels: seq<Table<TimerNode>>)

  datatype TimerOp = Insert(fd: int, sid: Sid) | Update(sid: Sid) | Remove(sid: Sid) | Tick(now: Clock)

  function New(interval: nat, now: Clock): TimerState {
    TimerState(interval, interval, 0, now, Empty(), seq(interval + 1, i => Empty()))
  }

  /** prev is the wheel before curr, round the ring. */
  predicate Shape(t: TimerState) {
    && |t.wheels| == t.interval + 1 && t.curr <= t.interval
    && t.prev == (if t.curr == 0 then t.interval else t.curr - 1)
    && forall k :: k in t.index.entries ==> t.index.entries[k] <= t.interval
  }

  // ---- the operations ----

  /** The two hash insertions, with the wheel that was read before them. */
  function InsertionAt(t: TimerState, fd: int, sid: Sid, w: nat): (TimerState, int)
    requires Shape(t) && w <= t.interval
  {
    if sid in t.index.entries then (t, -1) else
      var t1 := t.(index := Put(t.index, sid, w));
      if sid in t.wheels[w].entries then (t1, -1)
      else (t1.(wheels := t.wheels[w := Put(t.wheels[w], sid, TimerNode(fd, sid, t.interval))]), 0)
  }

  function Insertion(t: TimerState, fd: int, sid: Sid): (TimerState, int)
    requires Shape(t)
  {
    InsertionAt(t, fd, sid, t.prev)
  }

  /** The index entry is a cell that is overwritten in place: the table's counter does not move. */
  function Repoint(ix: Table<nat>, sid: Sid, w: nat): Table<nat> {
    ix.(entries := ix.entries[sid := w])
  }

  function Moved(t: TimerState, sid: Sid): TimerState
    requires Shape(t)
  {
    if sid !in t.index.entries || t.index.entries[sid] == t.prev then t else
      var w := t.index.entries[sid];
      if sid !in t.wheels[w].entries then t else
        var ws := t.wheels[w := Drop(t.wheels[w], sid)];
        t.(index := Repoint(t.index, sid, t.curr),
           wheels := ws[t.curr := Put(ws[t.curr], sid, t.wheels[w].entries[sid])])
  }

  function Removal(t: TimerState, sid: Sid): TimerState
    requires Shape(t)
  {
    if sid !in t.index.entries then t else
      var w := t.index.entries[sid];
      if sid !in t.wheels[w].entries then t
      else t.(index := Drop(t.index, sid), wheels := t.wheels[w := Drop(t.wheels[w], sid)])
  }

  /** Unsigned 64-bit difference. */
  function Elapsed(now: Clock, before: Clock): Clock {
    if now >= before then now - before else now + U64 - before
  }

  predicate Advances(t: TimerState, now: Clock) { Elapsed(now, t.clock) >= TICK }

  /** The new state and the wheel to expire, or -1. */
  function BookKeeping(t: TimerState, now: Clock): (TimerState, int)
    requires Shape(t)
  {
    if !Advances(t, now) then (t, -1) else
      var t' := t.(clock := now, prev := t.curr, curr := if t.curr + 1 > t.interval then 0 else t.curr + 1);
      (t', if t.wheels[t'.curr].count <= 0 then -1 else t'.curr)
  }

  // ---- index agreement ----

  predicate OnWheel(t: TimerState, sid: Int64, w: int) {
    0 <= w < |t.wheels| && sid in t.wheels[w].entries
  }

  predicate Indexed(t: TimerState, sid: Int64, w: int) {
    sid in t.index.entries && t.index.entries[sid] == w
  }

  /** The index says w exactly when the id is on wheel w, so no id is on two wheels. */
  ghost predicate Agree(t: TimerState) {
    && Shape(t) && Counted(t.index)
    && (forall w :: 0 <= w < |t.wheels| ==> Counted(t.wheels[w]))
    && (forall sid: Int64, w :: OnWheel(t, sid, w) <==> Indexed(t, sid, w))
  }

  lemma {:induction false} NewAgrees(interval: nat, now: Clock)
    ensures var t := New(interval, now);
            && Agree(t) && t.interval == t.prev == interval && t.curr == 0 && t.clock == now
            && t.index == Table(map[], 0) && forall w :: 0 <= w < |t.wheels| ==> t.wheels[w] == Table(map[], 0)
  {}

  lemma {:induction false} InsertionAtAgrees(t: TimerState, fd: int, sid: Sid, w0: nat)
    requires Agree(t) && w0 <= t.interval
    ensures var (t', ret) := InsertionAt(t, fd, sid, w0);
            && Agree(t') && ret == (if sid in t.index.entries then -1 else 0)
            && (sid in t.index.entries ==> t' == t) && (sid !in t.index.entries ==> Indexed(t', sid, w0))
            && forall k: Int64, w :: k != sid ==> (Indexed(t', k, w) <==> Indexed(t, k, w))
  {
    assert OnWheel(t, sid, w0) <==> Indexed(t, sid, w0);
    var t' := InsertionAt(t, fd, sid, w0).0;
    PutCounted(t.index, sid, w0);
    PutCounted(t.wheels[w0], sid, TimerNode(fd, sid, t.interval));
    forall k: Int64, w ensures OnWheel(t', k, w) <==> Indexed(t', k, w) {
      assert OnWheel(t, k, w) <==> Indexed(t, k, w);
    }
  }

  lemma {:induction false} InsertionAgrees(t: TimerState, fd: int, sid: Sid)
    requires Agree(t)
    ensures Agree(Insertion(t, fd, sid).0)
    ensures Insertion(t, fd, sid).1 == (if sid in t.index.entries then -1 else 0)
    ensures sid !in t.index.entries ==> Indexed(Insertion(t, fd, sid).0, sid, t.prev)
  {
    InsertionAtAgrees(t, fd, sid, t.prev);
  }

  lemma {:induction false} MovedAgrees(t: TimerState, sid: Sid)
    requires Agree(t)
    ensures Agree(Moved(t, sid))
    ensures forall k: Int64, w :: Indexed(Moved(t, sid), k, w) <==>
              if k == sid && sid in t.index.entries && t.index.entries[sid] != t.prev then w == t.curr else Indexed(t, k, w)
  {
    if sid in t.index.entries && t.index.entries[sid] != t.prev {
      var w0 := t.index.entries[sid];
      assert OnWheel(t, sid, w0) <==> Indexed(t, sid, w0);
      assert OnWheel(t, sid, t.curr) <==> Indexed(t, sid, t.curr);
      var t', ws := Moved(t, sid), t.wheels[w0 := Drop(t.wheels[w0], sid)];
      DropCounted(t.wheels[w0], sid);
      PutCounted(ws[t.curr], sid, t.wheels[w0].entries[sid]);
      assert t'.index.entries.Keys == t.index.entries.Keys;
      forall k: Int64, w ensures OnWheel(t', k, w) <==> Indexed(t', k, w) {
        assert OnWheel(t, k, w) <==> Indexed(t, k, w);
      }
    }
  }

  lemma {:induction false} RemovalAgrees(t: TimerState, sid: Sid)
    requires Agree(t)
    ensures Agree(Removal(t, sid))
    ensures forall k: Int64, w :: Indexed(Removal(t, sid), k, w) <==> k != sid && Indexed(t, k, w)
  {
    if sid in t.index.entries {
      var t', w0 := Removal(t, sid), t.index.entries[sid];
      assert OnWheel(t, sid, w0) <==> Indexed(t, sid, w0);
      DropCounted(t.wheels[w0], sid);
      DropCounted(t.index, sid);
      forall k: Int64, w ensures OnWheel(t', k, w) <==> Indexed(t', k, w) {
        assert OnWheel(t, k, w) <==> Indexed(t, k, w);
      }
    }
  }

  lemma {:induction false} BookKeepingAgrees(t: TimerState, now: Clock)
    requires Agree(t)
    ensures Agree(BookKeeping(t, now).0)
    ensures forall k: Int64, w :: Indexed(BookKeeping(t, now).0, k, w) <==> Indexed(t, k, w)
  {
    var t' := BookKeeping(t, now).0;
    forall k: Int64, w ensures OnWheel(t', k, w) <==> Indexed(t', k, w) {
      assert OnWheel(t, k, w) <==> Indexed(t, k, w);
    }
  }

  // ---- what each call does, entry by entry ----

  predicate SameClock(t: TimerState, t': TimerState) {
    t'.interval == t.interval && t'.prev == t.prev && t'.curr == t.curr && t'.clock == t.clock && |t'.wheels| == |t.wheels|
  }

  /** A new id is entered in the index and, as a node with its descriptor, on prev_wheel; both counters go up. */
  lemma {:induction false} InsertionExact(t: TimerState, fd: int, sid: Sid)
    requires Agree(t)
    ensures var (t', ret) := Insertion(t, fd, sid); SameClock(t, t') && ret == if sid in t.index.entries then -1 else 0
    ensures sid in t.index.entries ==> Insertion(t, fd, sid).0 == t
    ensures sid !in t.index.entries ==>
              var t', w := Insertion(t, fd, sid).0, t.wheels[t.prev];
              && t'.index == Table(t.index.entries[sid := t.prev], t.index.count + 1)
              && t'.wheels == t.wheels[t.prev := Table(w.entries[sid := TimerNode(fd, sid, t.interval)], w.count + 1)]
  {
    assert OnWheel(t, sid, t.prev) <==> Indexed(t, sid, t.prev);
  }

  /** The node leaves its wheel and the id the index; both counters go up. */
  lemma {:induction false} RemovalExact(t: TimerState, sid: Sid)
    requires Agree(t)
    ensures SameClock(t, Removal(t, sid))
    ensures sid !in t.index.entries ==> Removal(t, sid) == t
    ensures sid in t.index.entries ==>
              var t', v := Removal(t, sid), t.index.entries[sid];
              && t'.index == Table(t.index.entries - {sid}, t.index.count + 1)
              && t'.wheels == t.wheels[v := Table(t.wheels[v].entries - {sid}, t.wheels[v].count + 1)]
  {
    if sid in t.index.entries {
      assert OnWheel(t, sid, t.index.entries[sid]) <==> Indexed(t, sid, t.index.entries[sid]);
    }
  }

  /** The same node goes from its wheel to curr_wheel; the counter of the index stays. */
  lemma {:induction false} MovedExact(t: TimerState, sid: Sid, w: nat, v: nat)
    requires Agree(t) && Indexed(t, sid, w) && v <= t.interval
    ensures SameClock(t, Moved(t, sid)) && sid in t.wheels[w].entries
    ensures w == t.prev ==> Moved(t, sid) == t
    ensures w != t.prev ==>
              var t', node := Moved(t, sid), t.wheels[w].entries[sid];
              && t'.index == Table(t.index.entries[sid := t.curr], t.index.count)
              && t'.wheels[v].count == t.wheels[v].count + (if v == w then 1 else 0) + (if v == t.curr then 1 else 0)
              && t'.wheels[v].entries == if v == t.curr then t.wheels[v].entries[sid := node] else t.wheels[v].entries - {sid}
  {
    assert OnWheel(t, sid, w) <==> Indexed(t, sid, w);
    assert OnWheel(t, sid, v) <==> Indexed(t, sid, v);
    assert OnWheel(t, sid, t.curr) <==> Indexed(t, sid, t.curr);
  }

  /** The wheel turns once a second has gone by since it last turned, in the 64-bit clock, and is reported
      unless its counter is zero. */
  lemma {:induction false} BookKeepingExact(t: TimerState, now: Clock)
    requires Shape(t)
    ensures var (t', ret) := BookKeeping(t, now);
            if (now - t.clock) % 0x1_0000_0000_0000_0000 < 1_000_000 then t' == t && ret == -1
            else
              && t'.clock == now && t'.prev == t.curr && t'.curr == (if t.curr == t.interval then 0 else t.curr + 1)
              && t'.interval == t.interval && t'.index == t.index && t'.wheels == t.wheels
              && ret == if t.wheels[t'.curr].count == 0 then -1 else t'.curr
  {}

  function Step(t: TimerState, op: TimerOp): TimerState
    requires Shape(t)
  {
    match op
    case Insert(fd, sid) => Insertion(t, fd, sid).0
    case Update(sid) => Moved(t, sid)
    case Remove(sid) => Removal(t, sid)
    case Tick(now) => BookKeeping(t, now).0
  }
}
