/** The event loop's bookkeeping as a value: slots, timer and connection count move together. */
module ElSpec {
  import opened Types
  import opened HashSpec
  import opened SockSetSpec
  import opened TimerSpec

  datatype ElState = ElState(maxConn: nat, curConn: int, socks: SetState, timer: TimerState)

  datatype ElOp = Add(fd: int) | Close(sid: Sid) | Timeout(now: Clock)

  predicate Ready(e: ElState) { |e.socks.slots| > 0 && Shape(e.timer) }

  function Initial(maxConn: nat, interval: nat, now: Clock): ElState {
    ElState(maxConn, 0, NewSet(0xab, maxConn), New(interval, now))
  }

  // ---- the operations ----

  /** `cur_conn++ > max_conn`: the count goes up before the connection is turned away. */
  ghost function AddConnection(e: ElState, fd: int): (ElState, int)
    requires Ready(e)
  {
    if e.curConn > e.maxConn then (e.(curConn := e.curConn + 1), -1) else
      var (s, sid) := Claim(e.socks, fd);
      (e.(curConn := e.curConn + 1, socks := s, timer := Insertion(e.timer, fd, sid).0), 0)
  }

  /** The id an event carries is cut to 16 bits. */
  function EventSid(sid: Sid): (r: Sid)
    ensures r < 0x10000 && (sid - r) % 0x10000 == 0 && (sid < 0x10000 ==> r == sid)
  {
    sid % 0x10000
  }

  ghost function CloseSid(e: ElState, sid: Sid): ElState
    requires Ready(e)
  {
    e.(curConn := e.curConn - 1, socks := Release(e.socks, sid), timer := Removal(e.timer, sid))
  }

  ghost function CloseAll(e: ElState, keys: seq<Sid>): (r: ElState)
    requires Ready(e)
    ensures Ready(r)
    decreases |keys|
  {
    if keys == [] then e else CloseAll(CloseSid(e, keys[0]), keys[1..])
  }

  predicate IsLeast(s: set<Sid>, m: Sid) { m in s && forall x :: x in s ==> m <= x }

  lemma {:induction false} LeastExists(s: set<Sid>)
    requires s != {}
    ensures exists m :: IsLeast(s, m)
  {
    var x :| x in s;
    if s == {x} {
      assert IsLeast(s, x);
    } else {
      LeastExists(s - {x});
      var m :| IsLeast(s - {x}, m);
      assert forall y :: y in s ==> y == x || y in s - {x};
      assert IsLeast(s, if x < m then x else m);
    }
  }

  /** The keys in ascending order, as get_all_keys lists them. */
  function Ascending(s: set<Sid>): seq<Sid> {
    if s == {} then [] else
      LeastExists(s);
      var m :| m in s && IsLeast(s, m);
      [m] + Ascending(s - {m})
  }

  function Keys(t: Table<TimerNode>): set<Sid> {
    set k: Sid | k in t.entries
  }

  ghost function CheckTimeout(e: ElState, now: Clock): (r: ElState)
    requires Ready(e)
    ensures Ready(r)
  {
    var (t, w) := BookKeeping(e.timer, now);
    if w > -1 then CloseAll(e.(timer := t), Ascending(Keys(t.wheels[w]))) else e.(timer := t)
  }

  ghost function Step(e: ElState, op: ElOp): (r: ElState)
    requires Ready(e)
    ensures Ready(r)
  {
    match op
    case Add(fd) => AddConnection(e, fd).0
    case Close(sid) => CloseSid(e, EventSid(sid))
    case Timeout(now) => CheckTimeout(e, now)
  }

  // ---- agreement ----

  /** The live ids of the slot table are the keys of the index, and the count is their number.  That they
      are also the ids on the wheels, each on one, is the timer's own agreement. */
  ghost predicate ElAgree(e: ElState) {
    && |e.socks.slots| == e.maxConn && SetInv(e.socks) && Agree(e.timer)
    && (forall k: Int64 :: Live(e.socks, k) <==> k in e.timer.index.entries)
    && e.curConn == |e.timer.index.entries|
  }

  /** The ids in the first m slots. */
  ghost function Held(slots: seq<Slot>, m: nat): set<Int64>
    requires m <= |slots|
  {
    if m == 0 then {} else Held(slots, m - 1) + (if slots[m - 1].sid != 0 then {slots[m - 1].sid} else {})
  }

  lemma {:induction false} HeldMembers(slots: seq<Slot>, m: nat, k: Int64)
    requires m <= |slots|
    ensures k in Held(slots, m) <==> exists i :: 0 <= i < m && slots[i].sid == k != 0
  {
    if m > 0 { HeldMembers(slots, m - 1, k); }
  }

  lemma {:induction false} HeldOnce(s: SetState, m: nat)
    requires SetInv(s) && m < |s.slots| && s.slots[m].sid != 0
    ensures s.slots[m].sid !in Held(s.slots, m)
  {
    HeldMembers(s.slots, m, s.slots[m].sid);
    forall i: nat | i < m && s.slots[i].sid != 0 ensures s.slots[i].sid != s.slots[m].sid { LiveDistinct(s, i, m); }
  }

  lemma {:induction false} HeldCount(s: SetState, m: nat)
    requires SetInv(s) && m <= |s.slots|
    ensures |Held(s.slots, m)| <= m
    ensures |Held(s.slots, m)| == m <==> forall i :: 0 <= i < m ==> s.slots[i].sid != 0
  {
    if m > 0 {
      HeldCount(s, m - 1);
      if s.slots[m - 1].sid != 0 { HeldOnce(s, m - 1); }
    }
  }

  /** The count never exceeds the slots, and reaches their number exactly when none is free. */
  lemma {:induction false} CountAndSlots(e: ElState)
    requires ElAgree(e)
    ensures 0 <= e.curConn <= e.maxConn
    ensures e.curConn < e.maxConn <==> HasFree(e.socks.slots)
  {
    var n := |e.socks.slots|;
    forall k: Int64 ensures k in Held(e.socks.slots, n) <==> k in e.timer.index.entries {
      HeldMembers(e.socks.slots, n, k);
      if k in e.timer.index.entries { assert Live(e.socks, k); }
      if k in Held(e.socks.slots, n) { assert Live(e.socks, k); }
    }
    assert Held(e.socks.slots, n) == e.timer.index.entries.Keys;
    HeldCount(e.socks, n);
  }

  // ---- one step ----

  /** In agreement or not: a connection is turned away exactly when the count was above max_conn.  It is counted
      all the same, and leaves slots and timer as they are. */
  lemma {:induction false} AddLimit(e: ElState, fd: int)
    requires Ready(e)
    ensures AddConnection(e, fd).1 == if e.curConn > e.maxConn then -1 else 0
    ensures AddConnection(e, fd).0.curConn == e.curConn + 1 && AddConnection(e, fd).0.maxConn == e.maxConn
    ensures e.curConn > e.maxConn ==> AddConnection(e, fd).0.socks == e.socks && AddConnection(e, fd).0.timer == e.timer
    ensures e.curConn <= e.maxConn ==>
              var e', sid := AddConnection(e, fd).0, Chosen(e.socks);
              e'.socks.curr == sid && Live(e'.socks, sid) == (sid != 0) && Fd(e'.socks, sid) == fd && sid in e'.timer.index.entries
  {}

  /** A connection that gets a free slot: one more live id everywhere, and the timer took it. */
  lemma {:induction false} AddKeeps(e: ElState, fd: int)
    requires ElAgree(e) && !Busy(e.socks.slots, Chosen(e.socks))
    ensures var (e', ret) := AddConnection(e, fd);
            && ElAgree(e') && ret == 0 && e'.curConn == e.curConn + 1
            && Insertion(e.timer, fd, Chosen(e.socks)).1 == 0
            && Indexed(e'.timer, Chosen(e.socks), e.timer.prev)
    ensures forall k: Int64 :: Live(AddConnection(e, fd).0.socks, k) <==> k == Chosen(e.socks) || Live(e.socks, k)
  {
    CountAndSlots(e);
    var sid := Chosen(e.socks);
    forall k: Int64 ensures Live(Claim(e.socks, fd).0, k) <==> k == sid || Live(e.socks, k) { ClaimAdds(e.socks, fd, k); }
    ClaimKeeps(e.socks, fd);
    ClaimAdds(e.socks, fd, sid);
    InsertionAgrees(e.timer, fd, sid);
    assert Insertion(e.timer, fd, sid).0.index.entries.Keys == e.timer.index.entries.Keys + {sid as Int64};
  }

  lemma {:induction false} AddOverwrites(e: ElState, fd: int)
    requires ElAgree(e) && Busy(e.socks.slots, Chosen(e.socks))
    ensures !ElAgree(AddConnection(e, fd).0)
  {
    CountAndSlots(e);
    var sid, n := Chosen(e.socks), e.maxConn;
    var k: Int64 := e.socks.slots[SlotOf(sid, n)].sid;
    assert Live(e.socks, k);
    if k != sid { assert !Live(AddConnection(e, fd).0.socks, k); }
  }

  /** Adding keeps the agreement exactly when the probe found a free slot; with no gap ahead, exactly when
      the count was below max_conn.  One admitted at max_conn overwrites a live connection. */
  lemma {:induction false} AddExact(e: ElState, fd: int)
    requires ElAgree(e)
    ensures ElAgree(AddConnection(e, fd).0) <==> !Busy(e.socks.slots, Chosen(e.socks))
    ensures NoGap(e.socks) ==> (ElAgree(AddConnection(e, fd).0) <==> e.curConn < e.maxConn)
  {
    CountAndSlots(e);
    if Busy(e.socks.slots, Chosen(e.socks)) { AddOverwrites(e, fd); } else { AddKeeps(e, fd); }
    if NoGap(e.socks) && HasFree(e.socks.slots) { NoGapFindsFree(e.socks); }
  }

  lemma {:induction false} CloseKeeps(e: ElState, sid: Sid)
    requires ElAgree(e) && Live(e.socks, sid)
    ensures ElAgree(CloseSid(e, sid))
    ensures forall k: Int64 :: Live(CloseSid(e, sid).socks, k) <==> k != sid && Live(e.socks, k)
    ensures forall k: Int64, w :: Indexed(CloseSid(e, sid).timer, k, w) <==> k != sid && Indexed(e.timer, k, w)
  {
    CloseAlways(e, sid);
    var w := e.timer.index.entries[sid];
    assert OnWheel(e.timer, sid, w) <==> Indexed(e.timer, sid, w);
    assert (e.timer.index.entries - {sid}).Keys == e.timer.index.entries.Keys - {sid as Int64};
  }

  /** In agreement or not: the count goes down, and of slots, index and wheels exactly this id goes. */
  lemma {:induction false} CloseAlways(e: ElState, sid: Sid)
    requires SetInv(e.socks) && Agree(e.timer)
    ensures SetInv(CloseSid(e, sid).socks) && Agree(CloseSid(e, sid).timer)
    ensures CloseSid(e, sid).curConn == e.curConn - 1 && CloseSid(e, sid).maxConn == e.maxConn
    ensures forall k: Int64 :: Live(CloseSid(e, sid).socks, k) <==> k != sid && Live(e.socks, k)
    ensures forall k: Int64 :: Fd(CloseSid(e, sid).socks, k) == Fd(e.socks, k)
    ensures forall k: Int64, w :: Indexed(CloseSid(e, sid).timer, k, w) <==> k != sid && Indexed(e.timer, k, w)
  {
    forall k: Int64 ensures (Live(Release(e.socks, sid), k) <==> k != sid && Live(e.socks, k)) && Fd(Release(e.socks, sid), k) == Fd(e.socks, k) {
      ReleaseRemoves(e.socks, sid, k);
    }
    ReleaseRemoves(e.socks, sid, sid);
    RemovalAgrees(e.timer, sid);
  }

  /** Closing keeps the agreement exactly when the id is live. */
  lemma {:induction false} CloseExact(e: ElState, sid: Sid)
    requires ElAgree(e)
    ensures ElAgree(CloseSid(e, sid)) <==> Live(e.socks, sid)
  {
    if Live(e.socks, sid) { CloseKeeps(e, sid); } else { assert Removal(e.timer, sid) == e.timer; }
  }

  ghost predicate Distinct(keys: seq<Sid>) { forall i, j :: 0 <= i < j < |keys| ==> keys[i] != keys[j] }

  lemma {:induction false} AscendingLists(s: set<Sid>)
    ensures var a := Ascending(s);
            && (forall k :: k in a <==> k in s) && |a| == |s|
            && (forall i, j :: 0 <= i < j < |a| ==> a[i] < a[j])
  {
    if s != {} {
      var a := Ascending(s);
      assert IsLeast(s, a[0]) && a[1..] == Ascending(s - {a[0]}) by { LeastExists(s); }
      AscendingLists(s - {a[0]});
      assert forall k :: k in a <==> k == a[0] || k in a[1..];
      forall i, j | 0 <= i < j < |a| ensures a[i] < a[j] {
        assert a[j] in a[1..];
        if i > 0 { assert a[i] == a[1..][i - 1] && a[j] == a[1..][j - 1]; }
      }
    }
  }

  /** In agreement or not, whichever ids are closed. */
  lemma {:induction false} CloseAllAlways(e: ElState, keys: seq<Sid>)
    requires SetInv(e.socks) && Agree(e.timer)
    ensures var r := CloseAll(e, keys);
            && SetInv(r.socks) && Agree(r.timer) && r.curConn == e.curConn - |keys| && r.maxConn == e.maxConn
            && r.timer.curr == e.timer.curr && r.timer.interval == e.timer.interval
    ensures forall k: Int64 :: Live(CloseAll(e, keys).socks, k) <==> k !in keys && Live(e.socks, k)
    ensures forall k: Int64, w :: Indexed(CloseAll(e, keys).timer, k, w) <==> k !in keys && Indexed(e.timer, k, w)
    decreases |keys|
  {
    if keys != [] {
      CloseAlways(e, keys[0]);
      CloseAllAlways(CloseSid(e, keys[0]), keys[1..]);
      assert forall k :: k in keys <==> k == keys[0] || k in keys[1..];
    }
  }

  lemma {:induction false} CloseAllKeeps(e: ElState, keys: seq<Sid>)
    requires ElAgree(e) && Distinct(keys) && forall k :: k in keys ==> Live(e.socks, k)
    ensures ElAgree(CloseAll(e, keys)) && CloseAll(e, keys).curConn == e.curConn - |keys|
    ensures forall k: Int64 :: Live(CloseAll(e, keys).socks, k) <==> k !in keys && Live(e.socks, k)
    ensures forall k: Int64, w :: Indexed(CloseAll(e, keys).timer, k, w) <==> k !in keys && Indexed(e.timer, k, w)
    decreases |keys|
  {
    CloseAllAlways(e, keys);
    if keys != [] {
      CloseKeeps(e, keys[0]);
      forall k | k in keys[1..] ensures Live(CloseSid(e, keys[0]).socks, k) {
        var i :| 0 <= i < |keys[1..]| && keys[1..][i] == k;
        assert keys[i + 1] == k;
      }
      CloseAllKeeps(CloseSid(e, keys[0]), keys[1..]);
    }
  }

  /** What the wheel that is reported at `now` holds. */
  ghost predicate Expired(e: ElState, now: Clock, k: Int64)
    requires Ready(e)
  {
    var (t, w) := BookKeeping(e.timer, now); OnWheel(t, k, w)
  }

  /** The keys of the timer are 32-bit ids, as its calls take no others. */
  predicate IdsOnly(t: TimerState) { forall k :: k in t.index.entries ==> 0 <= k < 0x1_0000_0000 }

  /** A timeout pass removes exactly the ids of the expired wheel, in agreement or not, from slots, index and
      wheel, and counts each of them off. */
  lemma {:induction false} TimeoutAlways(e: ElState, now: Clock)
    requires SetInv(e.socks) && Agree(e.timer) && IdsOnly(e.timer)
    ensures SetInv(CheckTimeout(e, now).socks) && Agree(CheckTimeout(e, now).timer)
    ensures forall k: Int64 :: Live(CheckTimeout(e, now).socks, k) <==> Live(e.socks, k) && !Expired(e, now, k)
    ensures forall k: Int64, w :: Indexed(CheckTimeout(e, now).timer, k, w) <==> Indexed(e.timer, k, w) && !Expired(e, now, k)
    ensures forall k: Int64 :: !OnWheel(CheckTimeout(e, now).timer, k, BookKeeping(e.timer, now).1)
    ensures CheckTimeout(e, now).timer.curr == BookKeeping(e.timer, now).0.curr
    ensures CheckTimeout(e, now).timer.interval == e.timer.interval && CheckTimeout(e, now).maxConn == e.maxConn
    ensures var (t, w) := BookKeeping(e.timer, now);
            CheckTimeout(e, now).curConn == e.curConn - if w >= 0 then |Keys(t.wheels[w])| else 0
  {
    var (t, w) := BookKeeping(e.timer, now);
    BookKeepingAgrees(e.timer, now);
    var e1 := e.(timer := t);
    if w > -1 {
      var keys := Ascending(Keys(t.wheels[w]));
      AscendingLists(Keys(t.wheels[w]));
      CloseAllAlways(e1, keys);
      var e' := CheckTimeout(e, now);
      assert e' == CloseAll(e1, keys);
      forall k: Int64 ensures (k in keys <==> OnWheel(t, k, w)) && !OnWheel(e'.timer, k, w) {
        assert OnWheel(t, k, w) <==> Indexed(t, k, w);
        assert OnWheel(e'.timer, k, w) <==> Indexed(e'.timer, k, w);
      }
    }
  }

  lemma {:induction false} TimeoutKeeps(e: ElState, now: Clock)
    requires ElAgree(e)
    ensures IdsOnly(e.timer) && ElAgree(CheckTimeout(e, now))
  {
    forall k | k in e.timer.index.entries ensures 0 <= k < 0x1_0000_0000 { assert Live(e.socks, k); }
    var (t, w) := BookKeeping(e.timer, now);
    BookKeepingAgrees(e.timer, now);
    var e1 := e.(timer := t);
    assert ElAgree(e1);
    if w > -1 {
      var keys := Ascending(Keys(t.wheels[w]));
      AscendingLists(Keys(t.wheels[w]));
      forall k: Sid | k in keys ensures Live(e1.socks, k) {
        assert OnWheel(t, k, w) <==> Indexed(t, k, w);
      }
      CloseAllKeeps(e1, keys);
    }
  }

  /** An event closes the connection it is about exactly when the id fits into the 16 bits kept of it. */
  lemma {:induction false} EventHitsItsOwn(e: ElState, sid: Sid)
    requires ElAgree(e) && Live(e.socks, sid)
    ensures !Live(Step(e, Close(sid)).socks, sid) <==> sid < 0x10000
  {
    ReleaseRemoves(e.socks, EventSid(sid), sid);
  }

  /** A new loop starts in agreement. */
  ghost function NewLoop(maxConn: nat, interval: nat, now: Clock): (e: ElState)
    requires 0 < maxConn < 0x8000_0000
    ensures ElAgree(e)
  {
    NewAgrees(interval, now);
    Initial(maxConn, interval, now)
  }
}
