/** The slot table as a value.  A connection id picks its slot by its remainder, and ids are handed out in
    sequence until they wrap. */
module SockSetSpec {
  const WRAP: nat := 0xbabeface

  type Sid32 = s: int | 0 <= s < 0x1_0000_0000

  datatype Slot = Slot(sid: Sid32, fd: int)

  datatype SetState = SetState(start: Sid32, curr: Sid32, slots: seq<Slot>)

  /** SOCKID: the next id. */
  function Next(start: Sid32, curr: Sid32): Sid32 {
    var sid := if curr + 1 == 0x1_0000_0000 then 0 else curr + 1;
    if sid == WRAP then start else sid
  }

  /** The slot of an id: its remainder (SlotIsRemainder), in a form that keeps proofs linear. */
  ghost function SlotOf(sid: int, n: nat): (i: nat)
    requires n > 0
    ensures i < n
    decreases if sid < 0 then 0 else sid
  {
    if sid < 0 then 0 else if sid < n then sid else SlotOf(sid - n, n)
  }

  ghost predicate Busy(slots: seq<Slot>, sid: Sid32)
    requires |slots| > 0
  {
    slots[SlotOf(sid, |slots|)].sid != 0
  }

  /** The probe loop from candidate `sid` with `count` tries left. */
  ghost function Settle(start: Sid32, slots: seq<Slot>, sid: Sid32, count: int): Sid32
    requires |slots| > 0
    decreases count
  {
    if Busy(slots, sid) && count > 1 then Settle(start, slots, Next(start, sid), count - 1) else sid
  }

  ghost function Chosen(s: SetState): Sid32
    requires |s.slots| > 0
  {
    Settle(s.start, s.slots, Next(s.start, s.curr), |s.slots|)
  }

  ghost function Claim(s: SetState, fd: int): (SetState, Sid32)
    requires |s.slots| > 0
  {
    var sid := Chosen(s);
    (s.(curr := sid, slots := s.slots[SlotOf(sid, |s.slots|) := Slot(sid, fd)]), sid)
  }

  /** The file descriptor stays in a slot that was given back. */
  ghost function Release(s: SetState, sid: Sid32): SetState
    requires |s.slots| > 0
  {
    var i := SlotOf(sid, |s.slots|);
    if s.slots[i].sid == sid then s.(slots := s.slots[i := s.slots[i].(sid := 0)]) else s
  }

  lemma {:induction false} NextExact(start: Sid32, curr: Sid32)
    ensures Next(start, curr) == if curr == 0xbabefacd then start else (curr + 1) % 0x1_0000_0000
  {}

  // ---- remainders ----

  /** A multiple of n is zero or at least n away from it. */
  lemma {:induction false} Multiple(j: int, n: nat)
    ensures j == 0 || j * n >= n || j * n <= -(n as int)
  {
    if j >= 1 { assert (j - 1) * n >= 0; }
    if j <= -1 { assert (-1 - j) * n >= 0; }
  }

  lemma {:induction false} ModIs(x: int, q: int, r: nat, n: nat)
    requires r < n && x == q * n + r
    ensures x % n == r
  {
    var k := x / n;
    assert x == n * k + x % n;
    assert (q - k) * n == x % n - r;
    Multiple(q - k, n);
  }

  /** Adding a multiple of n changes no remainder. */
  lemma {:induction false} ModShift(x: int, q: int, n: nat)
    requires n > 0
    ensures (x + q * n) % n == x % n
  {
    var k := x / n;
    assert x == n * k + x % n;
    assert x + q * n == (k + q) * n + x % n;
    ModIs(x + q * n, k + q, x % n, n);
  }

  lemma {:induction false} ModSkip(x: int, w: int, n: nat)
    requires n > 0 && w % n == 0
    ensures (x - w) % n == x % n
  {
    var q := w / n;
    assert w == n * q;
    ModShift(x - w, q, n);
  }

  lemma {:induction false} ModReach(a: int, i: nat, n: nat)
    requires i < n
    ensures 0 <= (i - a) % n < n && (a + (i - a) % n) % n == i
  {
    var q := (i - a) / n;
    assert i - a == n * q + (i - a) % n;
    assert a + (i - a) % n == (-q) * n + i;
    ModIs(a + (i - a) % n, -q, i, n);
  }

  lemma {:induction false} ModApart(a: int, b: int, n: nat)
    requires 0 < b - a < n
    ensures a % n != b % n
  {
    var p, q := a / n, b / n;
    assert a == n * p + a % n && b == n * q + b % n;
    assert n * q - n * p == (q - p) * n;
    Multiple(q - p, n);
  }

  lemma {:induction false} SlotIsRemainder(sid: nat, n: nat)
    requires n > 0
    ensures SlotOf(sid, n) == sid % n
    decreases sid
  {
    if sid < n {
      ModIs(sid, 0, sid, n);
    } else {
      SlotIsRemainder(sid - n, n);
      ModShift(sid - n, 1, n);
    }
  }

  /** Whatever the table holds: a claim fills one slot, that of its id, also if somebody is in it. */
  lemma {:induction false} ClaimExact(s: SetState, fd: int, i: nat)
    requires i < |s.slots|
    ensures var (t, sid) := Claim(s, fd);
            && sid == Chosen(s) == t.curr && t.start == s.start && |t.slots| == |s.slots|
            && t.slots[i] == if i == sid % |s.slots| then Slot(sid, fd) else s.slots[i]
  {
    SlotIsRemainder(Chosen(s), |s.slots|);
  }

  /** A release empties the slot of the id, if the id is in it, and nothing else. */
  lemma {:induction false} ReleaseExact(s: SetState, sid: Sid32, i: nat)
    requires i < |s.slots|
    ensures var t := Release(s, sid);
            && t.curr == s.curr && t.start == s.start && |t.slots| == |s.slots|
            && t.slots[i] == if i == sid % |s.slots| && s.slots[i].sid == sid then Slot(0, s.slots[i].fd) else s.slots[i]
  {
    SlotIsRemainder(sid, |s.slots|);
  }

  // ---- what every run keeps ----

  /** A taken slot holds an id that was handed out and belongs to it. */
  ghost predicate Placed(start: Sid32, slots: seq<Slot>) {
    forall i :: 0 <= i < |slots| && slots[i].sid != 0 ==> start <= slots[i].sid < WRAP && SlotOf(slots[i].sid, |slots|) == i
  }

  predicate InRange(s: SetState) {
    0 < s.start <= s.curr < WRAP && 0 < |s.slots| && s.start + |s.slots| < WRAP
  }

  ghost predicate SetInv(s: SetState) { InRange(s) && Placed(s.start, s.slots) }

  ghost predicate Live(s: SetState, sid: int)
    requires |s.slots| > 0
  {
    sid != 0 && s.slots[SlotOf(sid, |s.slots|)].sid == sid
  }

  ghost function Fd(s: SetState, sid: int): int
    requires |s.slots| > 0
  {
    s.slots[SlotOf(sid, |s.slots|)].fd
  }

  lemma {:induction false} SettleInRange(start: Sid32, slots: seq<Slot>, sid: Sid32, count: int)
    requires |slots| > 0 && 0 < start <= sid < WRAP
    ensures start <= Settle(start, slots, sid, count) < WRAP
    decreases count
  {
    if Busy(slots, sid) && count > 1 { SettleInRange(start, slots, Next(start, sid), count - 1); }
  }

  lemma {:induction false} ClaimKeeps(s: SetState, fd: int)
    requires SetInv(s)
    ensures SetInv(Claim(s, fd).0) && Claim(s, fd).1 != 0
    ensures Live(Claim(s, fd).0, Claim(s, fd).1)
  {
    SettleInRange(s.start, s.slots, Next(s.start, s.curr), |s.slots|);
  }

  /** A claim of a free slot adds one live id and disturbs no other. */
  lemma {:induction false} ClaimAdds(s: SetState, fd: int, k: int)
    requires SetInv(s) && !Busy(s.slots, Chosen(s))
    ensures !Live(s, Chosen(s))
    ensures Live(Claim(s, fd).0, k) <==> k == Chosen(s) || Live(s, k)
    ensures Live(s, k) ==> Fd(Claim(s, fd).0, k) == Fd(s, k)
    ensures Fd(Claim(s, fd).0, Chosen(s)) == fd
  {
    ClaimKeeps(s, fd);
  }

  /** A release takes one live id out, if it was live, and disturbs no other. */
  lemma {:induction false} ReleaseRemoves(s: SetState, sid: Sid32, k: int)
    requires SetInv(s)
    ensures SetInv(Release(s, sid))
    ensures Live(Release(s, sid), k) <==> k != sid && Live(s, k)
    ensures Fd(Release(s, sid), k) == Fd(s, k)
  {}

  /** Two slots never hold the same live id. */
  lemma {:induction false} LiveDistinct(s: SetState, i: nat, j: nat)
    requires SetInv(s) && i < |s.slots| && j < |s.slots| && s.slots[i].sid != 0 && i != j
    ensures s.slots[i].sid != s.slots[j].sid
  {}

  // ---- which claims find a free slot ----

  /** The id of the d-th try. */
  function Try(s: SetState, d: nat): Sid32 {
    if d == 0 then s.curr else Next(s.start, Try(s, d - 1))
  }

  lemma {:induction false} TryIs(s: SetState, d: nat)
    requires InRange(s) && d <= |s.slots|
    ensures Try(s, d) == if s.curr + d < WRAP then s.curr + d else s.start + (s.curr + d - WRAP)
  {
    if d > 0 { TryIs(s, d - 1); }
  }

  /** The probe ends on a free slot as soon as it meets one. */
  lemma {:induction false} SettleStops(s: SetState, d: nat) returns (e: nat)
    requires 1 <= d <= |s.slots|
    ensures d <= e <= |s.slots| && Settle(s.start, s.slots, Try(s, d), |s.slots| - d + 1) == Try(s, e)
    ensures e == |s.slots| || !Busy(s.slots, Try(s, e))
    ensures forall f :: d <= f < e ==> Busy(s.slots, Try(s, f))
    decreases |s.slots| - d
  {
    if Busy(s.slots, Try(s, d)) && d < |s.slots| { e := SettleStops(s, d + 1); } else { e := d; }
  }

  /** The ids of the next round of tries cover all remainders: they do not wrap, or wrap at once, or the
      wrap skips whole rounds. */
  predicate NoGap(s: SetState)
    requires |s.slots| > 0
  {
    s.curr + |s.slots| < WRAP || s.curr + 1 == WRAP || (WRAP - s.start) % |s.slots| == 0
  }

  lemma {:induction false} NoGapReaches(s: SetState, i: nat) returns (d: nat)
    requires InRange(s) && NoGap(s) && i < |s.slots|
    ensures 1 <= d <= |s.slots| && SlotOf(Try(s, d), |s.slots|) == i
  {
    var n := |s.slots|;
    var base := if s.curr + 1 == WRAP then s.start else s.curr + 1;
    d := 1 + (i - base) % n;
    ModReach(base, i, n);
    TryIs(s, d);
    SlotIsRemainder(Try(s, d), n);
    if s.curr + 1 != WRAP && s.curr + d >= WRAP {
      ModSkip(base + (d - 1), WRAP - s.start, n);
    }
  }

  ghost predicate HasFree(slots: seq<Slot>) { exists i :: 0 <= i < |slots| && slots[i].sid == 0 }

  lemma {:induction false} NoGapFindsFree(s: SetState)
    requires InRange(s) && NoGap(s) && HasFree(s.slots)
    ensures !Busy(s.slots, Chosen(s))
  {
    var i :| 0 <= i < |s.slots| && s.slots[i].sid == 0;
    var d := NoGapReaches(s, i);
    var e := SettleStops(s, 1);
    if e < d { assert !Busy(s.slots, Try(s, e)); }
  }

  /** Otherwise some slot is never tried. */
  lemma {:induction false} GapMisses(s: SetState) returns (x: nat)
    requires InRange(s) && !NoGap(s)
    ensures x < |s.slots| && forall d :: 1 <= d <= |s.slots| ==> SlotOf(Try(s, d), |s.slots|) != x
  {
    var n, k := |s.slots|, WRAP - 1 - s.curr;
    var c, q := (s.start - WRAP) % n, (s.start - WRAP) / n;
    assert s.start - WRAP == n * q + c;
    if c == 0 {
      assert WRAP - s.start == (-q) * n + 0;
      ModIs(WRAP - s.start, -q, 0, n);
    }
    var m := if c <= k then k else c;
    x := (s.curr + 1 + m) % n;
    forall d | 1 <= d <= n ensures SlotOf(Try(s, d), n) != x {
      SlotIsRemainder(Try(s, d), n);
      GapSkips(s, d, k, c, q, m);
    }
  }

  /** Before the wrap the tries stay below position m of the window; behind it they have moved past it. */
  lemma {:induction false} GapSkips(s: SetState, d: nat, k: nat, c: nat, q: int, m: nat)
    requires InRange(s) && 1 <= d <= |s.slots| && k == WRAP - 1 - s.curr && 0 < k < |s.slots| && 0 < c < |s.slots|
    requires s.start - WRAP == |s.slots| * q + c && m == if c <= k then k else c
    ensures Try(s, d) % |s.slots| != (s.curr + 1 + m) % |s.slots|
  {
    var n := |s.slots|;
    TryIs(s, d);
    if d <= k {
      ModApart(s.curr + d, s.curr + 1 + m, n);
    } else {
      var y := s.curr + d + c;
      assert Try(s, d) == y + q * n;
      ModShift(y, q, n);
      ModApart(s.curr + 1 + m, y, n);
    }
  }

  /** An id for every slot but x. */
  ghost function AllBut(start: Sid32, n: nat, x: nat): seq<Slot>
    requires 0 < n && start + n < WRAP
  {
    seq(n, i requires 0 <= i < n => if i == x then Slot(0, 0) else Slot(start + (i - start) % n, 0))
  }

  lemma {:induction false} AllButPlaced(start: Sid32, n: nat, x: nat)
    requires x < n && 0 < start && start + n < WRAP
    ensures Placed(start, AllBut(start, n, x)) && HasFree(AllBut(start, n, x))
  {
    var slots := AllBut(start, n, x);
    forall i: nat | i < n && slots[i].sid != 0 ensures start <= slots[i].sid < WRAP && SlotOf(slots[i].sid, n) == i {
      ModReach(start, i, n);
      SlotIsRemainder(slots[i].sid, n);
    }
    assert slots[x].sid == 0;
  }

  /** If only a slot that is never tried is free, the claim overwrites a taken one. */
  lemma {:induction false} MissedStaysFree(s: SetState, x: nat)
    requires InRange(s) && x < |s.slots|
    requires forall d :: 1 <= d <= |s.slots| ==> SlotOf(Try(s, d), |s.slots|) != x
    ensures var slots := AllBut(s.start, |s.slots|, x); Busy(slots, Chosen(s.(slots := slots)))
  {
    var slots := AllBut(s.start, |s.slots|, x);
    var t := s.(slots := slots);
    var e := SettleStops(t, 1);
    SameTries(s, t, e);
    assert SlotOf(Try(s, e), |slots|) != x;
  }

  lemma {:induction false} SameTries(s: SetState, t: SetState, d: nat)
    requires t.start == s.start && t.curr == s.curr
    ensures Try(t, d) == Try(s, d)
  {
    if d > 0 { SameTries(s, t, d - 1); }
  }

  /** A claim gets a free slot whatever the occupancy, as long as there is one, exactly when the window of
      the next max_conn ids has no gap.  With a gap it can overwrite a live connection. */
  lemma {:induction false} ClaimsFreeIffNoGap(s: SetState)
    requires InRange(s)
    ensures NoGap(s) <==>
      forall slots: seq<Slot> :: |slots| == |s.slots| && Placed(s.start, slots) && HasFree(slots)
        ==> !Busy(slots, Chosen(s.(slots := slots)))
  {
    if NoGap(s) {
      forall slots: seq<Slot> | |slots| == |s.slots| && Placed(s.start, slots) && HasFree(slots)
        ensures !Busy(slots, Chosen(s.(slots := slots)))
      {
        NoGapFindsFree(s.(slots := slots));
      }
    } else {
      var x := GapMisses(s);
      AllButPlaced(s.start, |s.slots|, x);
      MissedStaysFree(s, x);
    }
  }

  // ---- runs ----

  datatype SetOp = Take(fd: int) | Give(sid: Sid32)

  ghost function SetStep(s: SetState, op: SetOp): (t: SetState)
    requires |s.slots| > 0
    ensures |t.slots| == |s.slots| && t.start == s.start
  {
    match op
    case Take(fd) => Claim(s, fd).0
    case Give(sid) => Release(s, sid)
  }

  ghost function SetRun(s: SetState, ops: seq<SetOp>): (t: SetState)
    requires |s.slots| > 0
    ensures |t.slots| == |s.slots| && t.start == s.start
    decreases |ops|
  {
    if ops == [] then s else SetRun(SetStep(s, ops[0]), ops[1..])
  }

  /** Every claim of the run gets a free slot. */
  ghost predicate AlwaysFinds(s: SetState, ops: seq<SetOp>)
    requires |s.slots| > 0
    decreases |ops|
  {
    ops == [] || ((ops[0].Take? ==> !Busy(s.slots, Chosen(s))) && AlwaysFinds(SetStep(s, ops[0]), ops[1..]))
  }

  /** get returns the descriptor stored with an id until the id is reset, over every run. */
  lemma {:induction false} GetUntilReset(s: SetState, ops: seq<SetOp>, k: Sid32)
    requires SetInv(s) && AlwaysFinds(s, ops) && Live(s, k) && Give(k) !in ops
    ensures var t := SetRun(s, ops); SetInv(t) && Live(t, k) && Fd(t, k) == Fd(s, k)
    decreases |ops|
  {
    if ops != [] {
      if ops[0].Take? {
        ClaimKeeps(s, ops[0].fd);
        ClaimAdds(s, ops[0].fd, k);
      } else {
        ReleaseRemoves(s, ops[0].sid, k);
      }
      GetUntilReset(SetStep(s, ops[0]), ops[1..], k);
    }
  }

  function NewSet(start: Sid32, n: nat): SetState { SetState(start, start, seq(n, i => Slot(0, 0))) }

  ghost predicate AllFree(slots: seq<Slot>) { forall i :: 0 <= i < |slots| ==> slots[i].sid == 0 }

  /** Taking a slot and giving it back n times moves the next id on by n. */
  lemma {:induction false} OneRound(s: SetState)
    requires |s.slots| > 0 && AllFree(s.slots) && s.curr + 1 < WRAP
    ensures !Busy(s.slots, Chosen(s)) && Chosen(s) == s.curr + 1
    ensures var t := Release(Claim(s, 0).0, s.curr + 1); AllFree(t.slots) && t.curr == s.curr + 1
  {}

  /** Two slots, the start id of the event loop: claims that all get a free slot lead to a table in which
      slot 1 is live, slot 0 is free, and the next claim overwrites slot 1. */
  lemma {:induction false} WrapOverwrites(s: SetState) returns (ops: seq<SetOp>)
    requires |s.slots| == 2 && s.start == 0xab <= s.curr <= 0xbabefaca && AllFree(s.slots)
    ensures AlwaysFinds(s, ops)
    ensures var t := SetRun(s, ops); HasFree(t.slots) && Live(t, 0xbabefacb) && Fd(t, 0xbabefacb) == 7
    ensures var t := SetRun(s, ops); Busy(t.slots, Chosen(t)) && !Live(Claim(t, 8).0, 0xbabefacb)
    decreases 0xbabefaca - s.curr
  {
    OneRound(s);
    if s.curr < 0xbabefaca {
      var t := Release(Claim(s, 0).0, s.curr + 1);
      var rest := WrapOverwrites(t);
      ops := [Take(0), Give(s.curr + 1)] + rest;
      assert ops[1..] == [Give(s.curr + 1)] + rest && ops[1..][1..] == rest;
    } else {
      ops := LastThree(s);
    }
  }

  lemma {:induction false} LastThree(s: SetState) returns (ops: seq<SetOp>)
    requires |s.slots| == 2 && s.start == 0xab && s.curr == 0xbabefaca && AllFree(s.slots)
    ensures AlwaysFinds(s, ops)
    ensures var t := SetRun(s, ops); HasFree(t.slots) && Live(t, 0xbabefacb) && Fd(t, 0xbabefacb) == 7
    ensures var t := SetRun(s, ops); Busy(t.slots, Chosen(t)) && !Live(Claim(t, 8).0, 0xbabefacb)
  {
    SlotIsRemainder(0xbabefacb, 2);
    SlotIsRemainder(0xbabefacc, 2);
    SlotIsRemainder(0xbabefacd, 2);
    SlotIsRemainder(0xab, 2);
    ops := [Take(7), Take(0), Give(0xbabefacc)];
    var a := Claim(s, 7).0;
    var b := Claim(a, 0).0;
    var c := Release(b, 0xbabefacc);
    assert Chosen(s) == 0xbabefacb && a.slots[1] == Slot(0xbabefacb, 7) && a.slots[0].sid == 0;
    assert Chosen(a) == 0xbabefacc && c.slots[0].sid == 0 && c.slots[1] == Slot(0xbabefacb, 7);
    assert ops[1..] == [Take(0), Give(0xbabefacc)] && ops[1..][1..] == [Give(0xbabefacc)] && ops[1..][1..][1..] == [];
    assert SetRun(s, ops) == c;
    assert Next(c.start, c.curr) == 0xbabefacd && Next(c.start, 0xbabefacd) == 0xab;
    assert Busy(c.slots, 0xbabefacd) && Settle(c.start, c.slots, 0xab, 1) == 0xab;
  }
}
