/** The timer's calls taken apart: lmvs_timer_insert on the accepting thread beside lmvs_timer_remove and book
    keeping on the loop.  Every hash operation is one step, and the steps mix in any way. */
module TimerThreads {
  import opened Types
  import opened HashSpec
  import opened TimerSpec

  /** Where an insertion is: outside, past the reading of prev_wheel, or past the insertion into the index. */
  datatype Putting = Out | Read(fd: int, sid: Sid, wheel: nat) | InIndex(fd: int, sid: Sid, wheel: nat)

  /** Where a removal is: outside, past the search of the index and the freeing of the cell, past the search of
      the wheel, or past the deletion from the wheel. */
  datatype Taking = Rest | Found(sid: Sid, wheel: nat) | Seen(sid: Sid, wheel: nat, node: TimerNode)
                  | OffWheel(sid: Sid, wheel: nat, node: TimerNode)

  /** `freed` are the ids of the index whose cell is freed. */
  datatype Fine = Fine(t: TimerState, put: Putting, take: Taking, freed: set<Sid>)

  datatype Op = ReadWheel(fd: int, sid: Sid) | PutIndex | PutWheel // the accepting thread
              | Search(sid: Sid) | Look | DropWheel | DropIndex | Turn(now: Clock) // the loop

  // ---- one step ----

  predicate Ready(f: Fine) {
    && Shape(f.t)
    && (!f.put.Out? ==> f.put.wheel <= f.t.interval)
    && (!f.take.Rest? ==> f.take.wheel <= f.t.interval)
  }

  predicate Enabled(f: Fine, op: Op) {
    match op
    case ReadWheel(_, _) => f.put.Out?
    case PutIndex => f.put.Read?
    case PutWheel => f.put.InIndex?
    case Search(_) => f.take.Rest?
    case Look => f.take.Found?
    case DropWheel => f.take.Seen?
    case DropIndex => f.take.OffWheel?
    case Turn(_) => f.take.Rest?
  }

  function Do(f: Fine, op: Op): (r: Fine)
    requires Ready(f) && Enabled(f, op)
    ensures Ready(r)
  {
    var t := f.t;
    match op
    case ReadWheel(fd, sid) => f.(put := Read(fd, sid, t.prev))
    case PutIndex =>
      var Read(fd, sid, w) := f.put;
      if sid in t.index.entries then f.(put := Out)
      else f.(t := t.(index := Put(t.index, sid, w)), put := InIndex(fd, sid, w))
    case PutWheel =>
      var InIndex(fd, sid, w) := f.put;
      f.(t := t.(wheels := t.wheels[w := Put(t.wheels[w], sid, TimerNode(fd, sid, t.interval))]), put := Out)
    case Search(sid) =>
      if sid !in t.index.entries then f
      else f.(take := Found(sid, t.index.entries[sid]), freed := f.freed + {sid})
    case Look =>
      var Found(sid, w) := f.take;
      if sid !in t.wheels[w].entries then f.(take := Rest)
      else f.(take := Seen(sid, w, t.wheels[w].entries[sid]))
    case DropWheel =>
      var Seen(sid, w, node) := f.take;
      f.(t := t.(wheels := t.wheels[w := Drop(t.wheels[w], sid)]), take := OffWheel(sid, w, node))
    case DropIndex =>
      f.(t := t.(index := Drop(t.index, f.take.sid)), take := Rest, freed := f.freed - {f.take.sid})
    case Turn(now) => f.(t := BookKeeping(t, now).0)
  }

  /** The step reads a cell that is freed: the second insertion reads which_wheel again, and a removal reads
      what its search found. */
  predicate ReadsFreed(f: Fine, op: Op)
    requires Enabled(f, op)
  {
    (op.PutWheel? && f.put.sid in f.freed) || (op.Search? && op.sid in f.freed)
  }

  // ---- what the steps amount to ----

  /** The timer without the insertion that is half done, and with the entry that is half removed. */
  function Whole(f: Fine): (r: TimerState)
    requires Ready(f) && (f.put.InIndex? ==> f.t.index.count > 0)
    requires f.take.OffWheel? ==> f.t.wheels[f.take.wheel].count > 0
    ensures Shape(r)
  {
    var t := f.t;
    var ix := if f.put.InIndex? then Table(t.index.entries - {f.put.sid as Int64}, t.index.count - 1) else t.index;
    if f.take.OffWheel? then
      var w := t.wheels[f.take.wheel];
      t.(index := ix, wheels := t.wheels[f.take.wheel := Table(w.entries[f.take.sid := f.take.node], w.count - 1)])
    else t.(index := ix)
  }

  ghost predicate PutOk(f: Fine) {
    f.put.InIndex? ==> Indexed(f.t, f.put.sid, f.put.wheel) && f.t.index.count > 0
  }

  ghost predicate TakeOk(f: Fine)
    requires Ready(f)
  {
    var t := f.t;
    match f.take
    case Rest => f.freed == {}
    case Found(k, w) => f.freed == {k} && Indexed(t, k, w)
    case Seen(k, w, node) => f.freed == {k} && Indexed(t, k, w) && OnWheel(t, k, w) && t.wheels[w].entries[k] == node
    case OffWheel(k, w, _) => f.freed == {k} && Indexed(t, k, w) && !OnWheel(t, k, w) && t.wheels[w].count > 0
  }

  /** The calls under way work on different ids, and the whole timer is in agreement. */
  ghost predicate Inv(f: Fine) {
    && Ready(f) && PutOk(f) && TakeOk(f) && Agree(Whole(f))
    && (f.put.InIndex? && !f.take.Rest? ==> f.put.sid != f.take.sid)
  }

  /** A removal does not search for an id that is only half inserted. */
  ghost predicate Fair(f: Fine, op: Op) {
    op.Search? && f.put.InIndex? ==> op.sid != f.put.sid
  }

  datatype Call = Inserts(fd: int, sid: Sid, wheel: nat) | Removes(sid: Sid) | Turns(now: Clock)

  /** The call that takes effect with this step, if any. */
  function Effect(f: Fine, op: Op): seq<Call>
    requires Enabled(f, op)
  {
    match op
    case PutIndex => if f.put.sid in f.t.index.entries then [Inserts(f.put.fd, f.put.sid, f.put.wheel)] else []
    case PutWheel => [Inserts(f.put.fd, f.put.sid, f.put.wheel)]
    case Search(sid) => if sid in f.t.index.entries then [] else [Removes(sid)]
    case DropIndex => [Removes(f.take.sid)]
    case Turn(now) => [Turns(now)]
    case _ => []
  }

  function Apply(t: TimerState, c: Call): (r: TimerState)
    requires Shape(t)
    ensures Shape(r)
  {
    match c
    case Inserts(fd, sid, w) => if w <= t.interval then InsertionAt(t, fd, sid, w).0 else t
    case Removes(sid) => Removal(t, sid)
    case Turns(now) => BookKeeping(t, now).0
  }

  function ApplyAll(t: TimerState, calls: seq<Call>): (r: TimerState)
    requires Shape(t)
    ensures Shape(r)
    decreases |calls|
  {
    if calls == [] then t else ApplyAll(Apply(t, calls[0]), calls[1..])
  }

  /** The step keeps the invariant and acts on the whole timer as the calls that take effect with it. */
  ghost predicate Refines(f: Fine, op: Op)
    requires Ready(f) && Enabled(f, op)
  {
    Inv(f) && Inv(Do(f, op)) && Whole(Do(f, op)) == ApplyAll(Whole(f), Effect(f, op))
  }

  lemma {:induction false} InsertRefines(f: Fine, op: Op)
    requires Inv(f) && Enabled(f, op) && (op.ReadWheel? || op.PutIndex?)
    ensures Refines(f, op)
  {
    if op.PutIndex? && f.put.sid !in f.t.index.entries {
      assert Whole(Do(f, op)).index.entries == Whole(f).index.entries;
    }
  }

  lemma {:induction false} PutWheelWhole(f: Fine)
    requires Inv(f) && Enabled(f, PutWheel)
    ensures Whole(Do(f, PutWheel)) == InsertionAt(Whole(f), f.put.fd, f.put.sid, f.put.wheel).0
  {
    var s, w := Whole(f), f.put.wheel;
    assert OnWheel(s, f.put.sid, w) <==> Indexed(s, f.put.sid, w);
    var s', r := InsertionAt(s, f.put.fd, f.put.sid, w).0, Whole(Do(f, PutWheel));
    assert r.index.entries == s'.index.entries;
    assert r.wheels[w].entries == s'.wheels[w].entries;
    assert r.wheels == s'.wheels;
  }

  lemma {:induction false} PutWheelRefines(f: Fine)
    requires Inv(f) && Enabled(f, PutWheel)
    ensures Refines(f, PutWheel)
  {
    PutWheelWhole(f);
    InsertionAtAgrees(Whole(f), f.put.fd, f.put.sid, f.put.wheel);
  }

  lemma {:induction false} SearchRefines(f: Fine, k: Sid)
    requires Inv(f) && Enabled(f, Search(k)) && Fair(f, Search(k))
    ensures Refines(f, Search(k))
  {
    assert Whole(Do(f, Search(k))) == Whole(f);
    assert k !in f.t.index.entries ==> Removal(Whole(f), k) == Whole(f);
  }

  /** The search of the wheel finds the node. */
  lemma {:induction false} LookRefines(f: Fine)
    requires Inv(f) && Enabled(f, Look)
    ensures Refines(f, Look) && Do(f, Look).take.Seen?
  {
    var s, k, w := Whole(f), f.take.sid, f.take.wheel;
    assert OnWheel(s, k, w) <==> Indexed(s, k, w);
    assert Whole(Do(f, Look)) == s;
  }

  lemma {:induction false} DropWheelRefines(f: Fine)
    requires Inv(f) && Enabled(f, DropWheel)
    ensures Refines(f, DropWheel)
  {
    var s, r, sid, w := Whole(f), Whole(Do(f, DropWheel)), f.take.sid, f.take.wheel;
    assert r.wheels[w].entries == s.wheels[w].entries;
    assert r.wheels == s.wheels;
  }

  /** Putting an entry back and dropping it changes nothing. */
  lemma {:induction false} BackAndDropped<V>(t: Table<V>, k: Int64, v: V)
    requires t.count > 0 && k !in t.entries
    ensures Drop(Table(t.entries[k := v], t.count - 1), k) == t
  {
    assert t.entries[k := v] - {k} == t.entries;
  }

  lemma {:induction false} DropIndexWhole(f: Fine)
    requires Inv(f) && Enabled(f, DropIndex)
    ensures Whole(Do(f, DropIndex)) == Removal(Whole(f), f.take.sid)
  {
    var s, k, w := Whole(f), f.take.sid, f.take.wheel;
    assert Indexed(s, k, w) && k in s.wheels[w].entries;
    BackAndDropped(f.t.wheels[w], k, f.take.node);
    assert Removal(s, k).wheels == f.t.wheels;
    assert Removal(s, k).index.entries == Whole(Do(f, DropIndex)).index.entries;
  }

  lemma {:induction false} DropIndexRefines(f: Fine)
    requires Inv(f) && Enabled(f, DropIndex)
    ensures Refines(f, DropIndex)
  {
    DropIndexWhole(f);
    RemovalAgrees(Whole(f), f.take.sid);
  }

  lemma {:induction false} TurnWhole(f: Fine, now: Clock)
    requires Inv(f) && Enabled(f, Turn(now))
    ensures Whole(Do(f, Turn(now))) == BookKeeping(Whole(f), now).0
    ensures BookKeeping(f.t, now).1 == BookKeeping(Whole(f), now).1
  {}

  lemma {:induction false} TurnRefines(f: Fine, now: Clock)
    requires Inv(f) && Enabled(f, Turn(now))
    ensures Refines(f, Turn(now))
  {
    TurnWhole(f, now);
    BookKeepingAgrees(Whole(f), now);
  }

  lemma {:induction false} StepRefines(f: Fine, op: Op)
    requires Inv(f) && Enabled(f, op) && Fair(f, op)
    ensures Refines(f, op) && !ReadsFreed(f, op)
  {
    match op
    case ReadWheel(_, _) => InsertRefines(f, op);
    case PutIndex => InsertRefines(f, op);
    case PutWheel => PutWheelRefines(f);
    case Search(k) => SearchRefines(f, k);
    case Look => LookRefines(f);
    case DropWheel => DropWheelRefines(f);
    case DropIndex => DropIndexRefines(f);
    case Turn(now) => TurnRefines(f, now);
  }

  // ---- runs ----

  predicate Can(f: Fine, ops: seq<Op>)
    requires Ready(f)
    decreases |ops|
  {
    ops == [] || (Enabled(f, ops[0]) && Can(Do(f, ops[0]), ops[1..]))
  }

  function Run(f: Fine, ops: seq<Op>): (r: Fine)
    requires Ready(f) && Can(f, ops)
    ensures Ready(r)
    decreases |ops|
  {
    if ops == [] then f else Run(Do(f, ops[0]), ops[1..])
  }

  ghost predicate AllFair(f: Fine, ops: seq<Op>)
    requires Ready(f) && Can(f, ops)
    decreases |ops|
  {
    ops == [] || (Fair(f, ops[0]) && AllFair(Do(f, ops[0]), ops[1..]))
  }

  /** No step reads freed memory. */
  ghost predicate AllSafe(f: Fine, ops: seq<Op>)
    requires Ready(f) && Can(f, ops)
    decreases |ops|
  {
    ops == [] || (!ReadsFreed(f, ops[0]) && AllSafe(Do(f, ops[0]), ops[1..]))
  }

  function Effects(f: Fine, ops: seq<Op>): seq<Call>
    requires Ready(f) && Can(f, ops)
    decreases |ops|
  {
    if ops == [] then [] else Effect(f, ops[0]) + Effects(Do(f, ops[0]), ops[1..])
  }

  lemma {:induction false} RunFirst(f: Fine, op: Op, rest: seq<Op>)
    requires Ready(f) && Enabled(f, op) && Can(Do(f, op), rest)
    ensures Can(f, [op] + rest) && Run(f, [op] + rest) == Run(Do(f, op), rest)
    ensures AllFair(f, [op] + rest) <==> Fair(f, op) && AllFair(Do(f, op), rest)
    ensures AllSafe(f, [op] + rest) <==> !ReadsFreed(f, op) && AllSafe(Do(f, op), rest)
  {
    assert ([op] + rest)[1..] == rest;
  }

  lemma {:induction false} ApplyOneThen(t: TimerState, c: seq<Call>, rest: seq<Call>)
    requires Shape(t) && |c| <= 1
    ensures ApplyAll(t, c + rest) == ApplyAll(ApplyAll(t, c), rest)
  {
    if c == [] { assert c + rest == rest; } else { assert (c + rest)[1..] == rest; }
  }

  /** Over every fair run the calls are atomic: the timer is what they make of it one after another, each at a
      step of its own. */
  lemma {:induction false} CallsAreAtomic(f: Fine, ops: seq<Op>)
    requires Inv(f) && Can(f, ops) && AllFair(f, ops)
    ensures Inv(Run(f, ops)) && Whole(Run(f, ops)) == ApplyAll(Whole(f), Effects(f, ops)) && AllSafe(f, ops)
    decreases |ops|
  {
    if ops != [] {
      var g := Do(f, ops[0]);
      StepRefines(f, ops[0]);
      CallsAreAtomic(g, ops[1..]);
      ApplyOneThen(Whole(f), Effect(f, ops[0]), Effects(g, ops[1..]));
    }
  }

  // ---- the calls are the ones that were made ----

  /** Insertions as (descriptor, id), removals as ids, turns as times: begun by these steps, and taking effect. */
  datatype Made = Made(inserts: seq<(int, Sid)>, removes: seq<Sid>, turns: seq<Clock>)

  function Plus(a: Made, b: Made): Made { Made(a.inserts + b.inserts, a.removes + b.removes, a.turns + b.turns) }

  function Begun(ops: seq<Op>): Made
    decreases |ops|
  {
    if ops == [] then Made([], [], []) else
      Plus(match ops[0]
           case ReadWheel(fd, sid) => Made([(fd, sid)], [], [])
           case Search(sid) => Made([], [sid], [])
           case Turn(now) => Made([], [], [now])
           case _ => Made([], [], []), Begun(ops[1..]))
  }

  function MadeBy(c: Call): Made {
    match c
    case Inserts(fd, sid, _) => Made([(fd, sid)], [], [])
    case Removes(sid) => Made([], [sid], [])
    case Turns(now) => Made([], [], [now])
  }

  function Served(calls: seq<Call>): Made
    decreases |calls|
  {
    if calls == [] then Made([], [], []) else Plus(MadeBy(calls[0]), Served(calls[1..]))
  }

  /** The calls under way. */
  function Underway(f: Fine): Made {
    Made(if f.put.Out? then [] else [(f.put.fd, f.put.sid)], if f.take.Rest? then [] else [f.take.sid], [])
  }

  ghost predicate Serves(f: Fine, op: Op)
    requires Ready(f) && Enabled(f, op)
  {
    Plus(Served(Effect(f, op)), Underway(Do(f, op))) == Plus(Underway(f), Begun([op]))
  }

  lemma {:induction false} InsertServes(f: Fine, op: Op)
    requires Inv(f) && Enabled(f, op) && (op.ReadWheel? || op.PutIndex? || op.PutWheel?)
    ensures Serves(f, op)
  {
    var c := Effect(f, op);
    assert [op][1..] == [] && (c != [] ==> c[1..] == []);
  }

  lemma {:induction false} RemoveServes(f: Fine, op: Op)
    requires Inv(f) && Enabled(f, op) && !(op.ReadWheel? || op.PutIndex? || op.PutWheel?)
    ensures Serves(f, op)
  {
    if op.Look? { LookRefines(f); }
    var c := Effect(f, op);
    assert [op][1..] == [] && (c != [] ==> c[1..] == []);
  }

  lemma {:induction false} PlusJoins(a: Made, b: Made, c: Made)
    ensures Plus(Plus(a, b), c) == Plus(a, Plus(b, c))
  {}

  lemma {:induction false} PlusChains(a: Made, mid: Made, b: Made, c: Made, d: Made, e: Made, z: Made)
    requires Plus(c, mid) == Plus(a, b) && Plus(d, z) == Plus(mid, e)
    ensures Plus(Plus(c, d), z) == Plus(a, Plus(b, e))
  {
    PlusJoins(c, d, z);
    PlusJoins(c, mid, e);
    PlusJoins(a, b, e);
  }

  lemma {:induction false} PlusNothing(a: Made)
    ensures Plus(Made([], [], []), a) == a == Plus(a, Made([], [], []))
  {}

  lemma {:induction false} ServedJoins(c: seq<Call>, rest: seq<Call>)
    requires |c| <= 1
    ensures Served(c + rest) == Plus(Served(c), Served(rest))
  {
    if c == [] {
      assert c + rest == rest;
      PlusNothing(Served(rest));
    } else {
      assert (c + rest)[0] == c[0] && (c + rest)[1..] == rest && c[1..] == [];
      PlusNothing(MadeBy(c[0]));
    }
  }

  lemma {:induction false} BegunFirst(op: Op, rest: seq<Op>)
    ensures Begun([op] + rest) == Plus(Begun([op]), Begun(rest))
  {
    assert ([op] + rest)[1..] == rest && [op][1..] == [];
    PlusNothing(Begun([op]));
  }

  ghost predicate AllServe(f: Fine, ops: seq<Op>)
    requires Ready(f) && Can(f, ops)
  {
    Plus(Served(Effects(f, ops)), Underway(Run(f, ops))) == Plus(Underway(f), Begun(ops))
  }

  lemma {:induction false} ServesThen(f: Fine, op: Op, rest: seq<Op>)
    requires Ready(f) && Enabled(f, op) && Serves(f, op) && Can(Do(f, op), rest) && AllServe(Do(f, op), rest)
    ensures Can(f, [op] + rest) && AllServe(f, [op] + rest)
  {
    var g, c, more := Do(f, op), Effect(f, op), Effects(Do(f, op), rest);
    RunFirst(f, op, rest);
    assert Effects(f, [op] + rest) == c + more by { assert ([op] + rest)[1..] == rest; }
    ServedJoins(c, more);
    BegunFirst(op, rest);
    PlusChains(Underway(f), Underway(g), Begun([op]), Served(c), Served(more), Begun(rest), Underway(Run(g, rest)));
  }

  /** Over every fair run the calls that take effect are those the two threads made, each once, with their own
      arguments and in their order, but for the calls still under way. */
  lemma {:induction false} CallsAreThoseMade(f: Fine, ops: seq<Op>)
    requires Inv(f) && Can(f, ops) && AllFair(f, ops)
    ensures Plus(Served(Effects(f, ops)), Underway(Run(f, ops))) == Plus(Underway(f), Begun(ops))
    decreases |ops|
  {
    if ops == [] {
      PlusNothing(Underway(f));
    } else {
      var op, rest := ops[0], ops[1..];
      StepRefines(f, op);
      if op.ReadWheel? || op.PutIndex? || op.PutWheel? { InsertServes(f, op); } else { RemoveServes(f, op); }
      CallsAreThoseMade(Do(f, op), rest);
      ServesThen(f, op, rest);
      assert [op] + rest == ops;
    }
  }

  // ---- a removal between the two insertions ----

  /** The id of the insertion under way has a freed cell in the index, and is on no wheel yet. */
  ghost predicate Torn(f: Fine) {
    && Ready(f) && f.put.InIndex? && f.put.sid in f.freed
    && Indexed(f.t, f.put.sid, f.put.wheel) && !OnWheel(f.t, f.put.sid, f.put.wheel)
    && (!f.take.Rest? && f.take.sid == f.put.sid ==> f.take.Found? && f.take.wheel == f.put.wheel)
  }

  lemma {:induction false} UnfairTears(f: Fine, op: Op)
    requires Inv(f) && Enabled(f, op) && !Fair(f, op)
    ensures Torn(Do(f, op)) && !Inv(Do(f, op))
  {
    var s := Whole(f);
    assert OnWheel(s, f.put.sid, f.put.wheel) <==> Indexed(s, f.put.sid, f.put.wheel);
  }

  /** Step by step the invariant is kept exactly by the fair steps. */
  lemma {:induction false} StepExact(f: Fine, op: Op)
    requires Inv(f) && Enabled(f, op)
    ensures Inv(Do(f, op)) <==> Fair(f, op)
  {
    if Fair(f, op) { StepRefines(f, op); } else { UnfairTears(f, op); }
  }

  /** Whatever the loop does next, the second insertion reads the freed cell. */
  lemma {:induction false} TornStays(f: Fine, op: Op)
    requires Torn(f) && Enabled(f, op)
    ensures if op.PutWheel? then ReadsFreed(f, op) else Torn(Do(f, op))
  {}

  lemma {:induction false} TornRun(f: Fine, ops: seq<Op>)
    requires Torn(f) && Can(f, ops) && Run(f, ops).put.Out?
    ensures !AllSafe(f, ops)
    decreases |ops|
  {
    if ops != [] {
      TornStays(f, ops[0]);
      if !ops[0].PutWheel? { TornRun(Do(f, ops[0]), ops[1..]); }
    }
  }

  /** Over every run that ends with no insertion under way: freed memory is read if and only if some removal
      searches for an id between its two insertions. */
  lemma {:induction false} SafeExactly(f: Fine, ops: seq<Op>)
    requires Inv(f) && Can(f, ops) && Run(f, ops).put.Out?
    ensures AllSafe(f, ops) <==> AllFair(f, ops)
    decreases |ops|
  {
    if ops != [] {
      if Fair(f, ops[0]) {
        StepRefines(f, ops[0]);
        SafeExactly(Do(f, ops[0]), ops[1..]);
      } else {
        UnfairTears(f, ops[0]);
        TornRun(Do(f, ops[0]), ops[1..]);
      }
    }
  }

  // ---- from a new timer ----

  function Start(interval: nat, now: Clock): (f: Fine)
    ensures Ready(f)
  {
    Fine(New(interval, now), Out, Rest, {})
  }

  /** Between calls the timer is what its calls, one after another, make of a new one. */
  lemma {:induction false} TimerIsAtomic(interval: nat, now: Clock, ops: seq<Op>)
    requires Can(Start(interval, now), ops) && AllFair(Start(interval, now), ops)
    ensures var f, g := Start(interval, now), Run(Start(interval, now), ops);
            AllSafe(f, ops) && (!g.put.InIndex? && !g.take.OffWheel? ==> Agree(g.t) && g.t == ApplyAll(f.t, Effects(f, ops)))
  {
    NewAgrees(interval, now);
    CallsAreAtomic(Start(interval, now), ops);
  }

  /** The tear is within reach: the removal finds the id in the index and not on the wheel, gives up, and leaves
      in the index an id whose cell is freed, and which the insertion then puts on the wheel. */
  lemma {:induction false} TearIsReached(interval: nat, now: Clock, fd: int, sid: Sid)
    ensures var f, ops := Start(interval, now), [ReadWheel(fd, sid), PutIndex, Search(sid), Look, PutWheel];
            && Can(f, ops) && !AllFair(f, ops) && !AllSafe(f, ops)
            && var g := Run(f, ops); g.put.Out? && g.take.Rest? && sid in g.freed && OnWheel(g.t, sid, interval)
  {
    var f := Start(interval, now);
    var f1 := Do(f, ReadWheel(fd, sid));
    var f2 := Do(f1, PutIndex);
    var f3 := Do(f2, Search(sid));
    var f4 := Do(f3, Look);
    RunFirst(f4, PutWheel, []);
    RunFirst(f3, Look, [PutWheel]);
    RunFirst(f2, Search(sid), [Look, PutWheel]);
    RunFirst(f1, PutIndex, [Search(sid), Look, PutWheel]);
    RunFirst(f, ReadWheel(fd, sid), [PutIndex, Search(sid), Look, PutWheel]);
    assert [PutWheel] + [] == [PutWheel] && [Look] + [PutWheel] == [Look, PutWheel];
    assert [Search(sid)] + [Look, PutWheel] == [Search(sid), Look, PutWheel];
    assert [PutIndex] + [Search(sid), Look, PutWheel] == [PutIndex, Search(sid), Look, PutWheel];
    assert [ReadWheel(fd, sid)] + [PutIndex, Search(sid), Look, PutWheel]
           == [ReadWheel(fd, sid), PutIndex, Search(sid), Look, PutWheel];
  }
}
