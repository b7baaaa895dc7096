/** The log ring as a state machine: producers and the flusher take turns, one critical section a step.
    The flusher never looks at `tail` inside its critical section, so it may run past it. */
module LogSpec {

  const N_ELEMENTS: nat := 100
  const BUFFER_SIZE: nat := 1024 * 1024
  const BUFFER_LEN: nat := 8192 + 256

  type Msg = seq<char>

  function Flat(ms: seq<Msg>): seq<char> {
    if ms == [] then [] else Flat(ms[..|ms| - 1]) + ms[|ms| - 1]
  }

  /** `bufs` are the messages each buffer holds, `out` those the file has received. */
  datatype LogState = LogState(bufs: seq<seq<Msg>>, head: nat, tail: nat, out: seq<Msg>)

  function Seek(b: seq<Msg>): nat { |Flat(b)| }
  function Succ(i: nat): nat { if i + 1 == N_ELEMENTS then 0 else i + 1 }

  predicate Ring(s: LogState) {
    && |s.bufs| == N_ELEMENTS && s.head < N_ELEMENTS && s.tail < N_ELEMENTS
    && forall i :: 0 <= i < N_ELEMENTS ==> Seek(s.bufs[i]) <= BUFFER_SIZE
  }

  /** The tail buffer is too full for the message. */
  predicate Advances(s: LogState, m: Msg)
    requires s.tail < |s.bufs|
  {
    BUFFER_SIZE - Seek(s.bufs[s.tail]) <= |m|
  }

  /** The buffer a message goes to. */
  function Target(s: LogState, m: Msg): nat
    requires s.tail < |s.bufs|
  {
    if Advances(s, m) then Succ(s.tail) else s.tail
  }

  /** The copy stays inside the buffer. */
  predicate Fits(s: LogState, m: Msg)
    requires s.tail < |s.bufs| == N_ELEMENTS
  {
    Seek(s.bufs[Target(s, m)]) + |m| <= BUFFER_SIZE
  }

  function Append(s: LogState, m: Msg): LogState
    requires s.tail < |s.bufs| == N_ELEMENTS
  {
    var t := Target(s, m);
    s.(bufs := s.bufs[t := s.bufs[t] + [m]], tail := t)
  }

  function Flush(s: LogState): LogState
    requires s.head < |s.bufs| == N_ELEMENTS
  {
    s.(out := s.out + s.bufs[s.head], bufs := s.bufs[s.head := []], head := Succ(s.head))
  }

  /** A message goes behind what the tail buffer holds if that leaves a byte of its megabyte free, and else into
      the next of the hundred buffers. */
  lemma {:induction false} AppendExact(s: LogState, m: Msg)
    requires Ring(s)
    ensures var t, held := Append(s, m), |Flat(s.bufs[s.tail])|;
            && t.tail == (if held + |m| < 1_048_576 then s.tail else if s.tail == 99 then 0 else s.tail + 1)
            && t.bufs == s.bufs[t.tail := s.bufs[t.tail] + [m]] && t.head == s.head && t.out == s.out
  {}

  /** A flush writes out what the head buffer holds, empties it, and goes on to the next. */
  lemma {:induction false} FlushExact(s: LogState)
    requires Ring(s)
    ensures var t := Flush(s);
            && t.out == s.out + s.bufs[s.head] && t.bufs == s.bufs[s.head := []]
            && t.head == (if s.head == 99 then 0 else s.head + 1) && t.tail == s.tail
  {}

  function Initial(): LogState {
    LogState(seq(N_ELEMENTS, i => []), 0, 0, [])
  }

  // ---- order ----

  /** Positions along the ring: the buffer `k` steps behind `i`, and how many steps `j` is behind `i`. */
  function At(i: nat, k: nat): nat
    requires i < N_ELEMENTS && k < N_ELEMENTS
  {
    if i + k < N_ELEMENTS then i + k else i + k - N_ELEMENTS
  }

  function Off(i: nat, j: nat): nat
    requires i < N_ELEMENTS && j < N_ELEMENTS
  {
    if i <= j then j - i else j + N_ELEMENTS - i
  }

  /** The messages of `n` buffers from buffer `i` on. */
  function Window(bufs: seq<seq<Msg>>, i: nat, n: nat): seq<Msg>
    requires |bufs| == N_ELEMENTS && i < N_ELEMENTS && n <= N_ELEMENTS
  {
    if n == 0 then [] else Window(bufs, i, n - 1) + bufs[At(i, n - 1)]
  }

  /** The buffers from head round to tail. */
  function Span(s: LogState): nat
    requires Ring(s)
  {
    Off(s.head, s.tail) + 1
  }

  predicate InSpan(s: LogState, i: nat)
    requires Ring(s) && i < N_ELEMENTS
  {
    Off(s.head, i) < Span(s)
  }

  /** The file followed by the buffers from head round to tail is everything appended, in order, and no
      other buffer holds anything. */
  ghost predicate InOrder(s: LogState, all: seq<Msg>) {
    && Ring(s)
    && s.out + Window(s.bufs, s.head, Span(s)) == all
    && forall i: nat :: i < N_ELEMENTS && !InSpan(s, i) ==> s.bufs[i] == []
  }

  /** The message pushes `tail` onto `head`. */
  predicate Overruns(s: LogState, m: Msg)
    requires s.tail < |s.bufs|
  {
    Advances(s, m) && Succ(s.tail) == s.head
  }

  lemma {:induction false} FlatAppend(ms: seq<Msg>, m: Msg)
    ensures Flat(ms + [m]) == Flat(ms) + m
  {
    assert (ms + [m])[..|ms|] == ms;
  }

  lemma {:induction false} WindowFrame(bufs: seq<seq<Msg>>, bufs': seq<seq<Msg>>, i: nat, n: nat)
    requires |bufs| == |bufs'| == N_ELEMENTS && i < N_ELEMENTS && n <= N_ELEMENTS
    requires forall k: nat :: k < n ==> bufs'[At(i, k)] == bufs[At(i, k)]
    ensures Window(bufs', i, n) == Window(bufs, i, n)
  {
    if n > 0 { WindowFrame(bufs, bufs', i, n - 1); }
  }

  lemma {:induction false} WindowHead(bufs: seq<seq<Msg>>, i: nat, n: nat)
    requires |bufs| == N_ELEMENTS && i < N_ELEMENTS && n < N_ELEMENTS
    ensures Window(bufs, i, n + 1) == bufs[i] + Window(bufs, Succ(i), n)
  {
    if n > 0 {
      WindowHead(bufs, i, n - 1);
      assert At(i, n) == At(Succ(i), n - 1);
    }
  }

  lemma {:induction false} WindowEmpty(bufs: seq<seq<Msg>>, i: nat, n: nat)
    requires |bufs| == N_ELEMENTS && i < N_ELEMENTS && n <= N_ELEMENTS
    requires forall k: nat :: k < n ==> bufs[At(i, k)] == []
    ensures Window(bufs, i, n) == []
  {
    if n > 0 { WindowEmpty(bufs, i, n - 1); }
  }

  // ---- what one step does to the order ----

  lemma {:induction false} InitialInOrder()
    ensures InOrder(Initial(), [])
  {
    var s := Initial();
    assert Span(s) == 1 && At(0, 0) == 0;
    assert Window(s.bufs, 0, 1) == Window(s.bufs, 0, 0) + s.bufs[At(0, 0)];
  }

  lemma {:induction false} AppendWindow(s: LogState, m: Msg)
    requires Ring(s) && !Overruns(s, m) && Ring(Append(s, m))
    ensures var d := Off(s.head, Target(s, m));
            && Window(s.bufs, s.head, d + 1) == Window(s.bufs, s.head, d) + s.bufs[Target(s, m)]
            && Window(Append(s, m).bufs, s.head, d + 1) == Window(s.bufs, s.head, d + 1) + [m]
  {
    var t, s' := Target(s, m), Append(s, m);
    var d := Off(s.head, t);
    WindowFrame(s.bufs, s'.bufs, s.head, d);
    assert s'.bufs[At(s.head, d)] == s.bufs[t] + [m];
    assert Window(s.bufs, s.head, d) + (s.bufs[t] + [m]) == Window(s.bufs, s.head, d + 1) + [m];
  }

  /** If tail advances, the next buffer lies outside head..tail and is empty. */
  lemma {:induction false} TargetHasRoom(s: LogState, m: Msg, all: seq<Msg>)
    requires InOrder(s, all) && |m| < BUFFER_SIZE && !Overruns(s, m)
    ensures Fits(s, m) && Ring(Append(s, m))
    ensures Advances(s, m) ==> s.bufs[Target(s, m)] == [] && Off(s.head, Target(s, m)) == Span(s)
  {
    var t := Target(s, m);
    FlatAppend(s.bufs[t], m);
    assert Flat([]) == [];
    if Advances(s, m) { assert !InSpan(s, t); }
  }

  /** Without an overrun the message goes to the end of the order, into a buffer with room for it. */
  lemma {:induction false} AppendInOrder(s: LogState, m: Msg, all: seq<Msg>)
    requires InOrder(s, all) && |m| < BUFFER_SIZE && !Overruns(s, m)
    ensures Fits(s, m) && InOrder(Append(s, m), all + [m])
  {
    var s', d := Append(s, m), Off(s.head, Target(s, m));
    TargetHasRoom(s, m, all);
    AppendWindow(s, m);
    assert Window(s.bufs, s.head, d + 1) == Window(s.bufs, s.head, Span(s)) by {
      if Advances(s, m) { assert Window(s.bufs, s.head, d) + [] == Window(s.bufs, s.head, d); }
    }
    assert s.out + (Window(s.bufs, s.head, d + 1) + [m]) == s.out + Window(s.bufs, s.head, d + 1) + [m];
    forall i: nat | i < N_ELEMENTS && !InSpan(s', i) ensures s'.bufs[i] == [] { assert !InSpan(s, i); }
  }

  /** With an overrun the order is lost for good: what the old tail holds now lies outside head..tail. */
  lemma {:induction false} OverrunBreaksOrder(s: LogState, m: Msg, all: seq<Msg>, any: seq<Msg>)
    requires InOrder(s, all) && |m| < BUFFER_SIZE && Overruns(s, m)
    ensures !InOrder(Append(s, m), any)
  {
    var s' := Append(s, m);
    assert Flat([]) == [];
    assert s'.bufs[s.tail] == s.bufs[s.tail] != [];
    assert Ring(s') ==> !InSpan(s', s.tail);
  }

  /** A message keeps the order exactly if it does not push tail onto head. */
  lemma {:induction false} AppendOrderExact(s: LogState, m: Msg, all: seq<Msg>)
    requires InOrder(s, all) && |m| < BUFFER_SIZE
    ensures InOrder(Append(s, m), all + [m]) <==> !Overruns(s, m)
  {
    if Overruns(s, m) { OverrunBreaksOrder(s, m, all, all + [m]); } else { AppendInOrder(s, m, all); }
  }

  /** The head buffer leaves the window at its front. */
  lemma {:induction false} FlushWindow(s: LogState, all: seq<Msg>)
    requires InOrder(s, all) && Ring(Flush(s))
    ensures Window(s.bufs, s.head, Span(s)) == s.bufs[s.head] + Window(Flush(s).bufs, Flush(s).head, Span(Flush(s)))
  {
    var s', n := Flush(s), Span(s) - 1;
    WindowHead(s.bufs, s.head, n);
    if s.head == s.tail {
      forall k: nat | k < N_ELEMENTS ensures s'.bufs[At(s'.head, k)] == [] {
        assert At(s'.head, k) == s.head || !InSpan(s, At(s'.head, k));
      }
      WindowEmpty(s'.bufs, s'.head, N_ELEMENTS);
    } else {
      WindowFrame(s.bufs, s'.bufs, s'.head, n);
    }
  }

  /** A flush keeps the order wherever head is, even when it takes head past tail. */
  lemma {:induction false} FlushInOrder(s: LogState, all: seq<Msg>)
    requires InOrder(s, all)
    ensures InOrder(Flush(s), all)
    ensures Span(Flush(s)) == if s.head == s.tail then N_ELEMENTS else Span(s) - 1
  {
    var s' := Flush(s);
    assert Flat([]) == [];
    FlushWindow(s, all);
    assert s.out + (s.bufs[s.head] + Window(s'.bufs, s'.head, Span(s'))) == s'.out + Window(s'.bufs, s'.head, Span(s'));
    forall i: nat | i < N_ELEMENTS && !InSpan(s', i) ensures s'.bufs[i] == [] { assert i == s.head || !InSpan(s, i); }
  }

  // ---- runs ----

  /** A producer logs a message, or the flusher takes its turn; they interleave in any way. */
  datatype Step = Log(m: Msg) | Turn

  function Do(s: LogState, st: Step): LogState
    requires Ring(s)
  {
    match st
    case Log(m) => Append(s, m)
    case Turn => Flush(s)
  }

  /** All states stay rings as long as every append fits. */
  lemma {:induction false} DoKeepsRing(s: LogState, st: Step)
    requires Ring(s) && (st.Log? ==> Fits(s, st.m))
    ensures Ring(Do(s, st))
  {
    assert Flat([]) == [];
    if st.Log? { FlatAppend(s.bufs[Target(s, st.m)], st.m); }
  }

  ghost predicate AllFit(s: LogState, steps: seq<Step>)
    decreases steps
  {
    steps == [] || (Ring(s) && (steps[0].Log? ==> Fits(s, steps[0].m)) && AllFit(Do(s, steps[0]), steps[1..]))
  }

  ghost predicate NeverOverruns(s: LogState, steps: seq<Step>)
    decreases steps
  {
    steps == [] ||
    (Ring(s) && (steps[0].Log? ==> |steps[0].m| < BUFFER_SIZE && !Overruns(s, steps[0].m))
     && NeverOverruns(Do(s, steps[0]), steps[1..]))
  }

  ghost function DoAll(s: LogState, steps: seq<Step>): LogState
    requires AllFit(s, steps)
    decreases steps
  {
    if steps == [] then s else DoAll(Do(s, steps[0]), steps[1..])
  }

  function Logged(steps: seq<Step>): seq<Msg> {
    if steps == [] then []
    else LoggedBy(steps[0]) + Logged(steps[1..])
  }

  function LoggedBy(st: Step): seq<Msg> { if st.Log? then [st.m] else [] }

  lemma {:induction false} StepInOrder(s: LogState, all: seq<Msg>, st: Step)
    requires InOrder(s, all) && (st.Log? ==> |st.m| < BUFFER_SIZE && !Overruns(s, st.m))
    ensures (st.Log? ==> Fits(s, st.m)) && InOrder(Do(s, st), all + LoggedBy(st))
  {
    if st.Log? { AppendInOrder(s, st.m, all); } else { FlushInOrder(s, all); assert all + [] == all; }
  }

  lemma {:induction false} LoggedCons(all: seq<Msg>, steps: seq<Step>)
    requires steps != []
    ensures all + LoggedBy(steps[0]) + Logged(steps[1..]) == all + Logged(steps)
  {}

  /** Order over whole runs: every append fits, and file ++ buffers is everything logged, in order. */
  lemma {:induction false} RunInOrder(s: LogState, all: seq<Msg>, steps: seq<Step>)
    requires InOrder(s, all) && NeverOverruns(s, steps)
    ensures AllFit(s, steps) && InOrder(DoAll(s, steps), all + Logged(steps))
    decreases steps
  {
    if steps == [] {
      assert all + [] == all;
    } else {
      StepInOrder(s, all, steps[0]);
      RunInOrder(Do(s, steps[0]), all + LoggedBy(steps[0]), steps[1..]);
      LoggedCons(all, steps);
    }
  }

  // ---- a round of the flusher ----

  /** A turn moves the first buffer of the window to the file. */
  lemma {:induction false} FlushMoves(s: LogState, n: nat)
    requires Ring(s) && 0 < n <= N_ELEMENTS
    ensures Ring(Flush(s))
    ensures Flush(s).out + Window(Flush(s).bufs, Flush(s).head, n - 1) == s.out + Window(s.bufs, s.head, n)
  {
    var t := Flush(s);
    DoKeepsRing(s, Turn);
    WindowHead(s.bufs, s.head, n - 1);
    WindowFrame(s.bufs, t.bufs, t.head, n - 1);
    var rest := Window(s.bufs, t.head, n - 1);
    assert s.out + s.bufs[s.head] + rest == s.out + (s.bufs[s.head] + rest);
  }

  /** n turns write out the n buffers from head on. */
  lemma {:induction false} FlushesWrite(s: LogState, turns: seq<Step>)
    requires Ring(s) && |turns| <= N_ELEMENTS && forall i :: 0 <= i < |turns| ==> turns[i] == Turn
    ensures AllFit(s, turns) && DoAll(s, turns).out == s.out + Window(s.bufs, s.head, |turns|)
    decreases |turns|
  {
    if turns != [] {
      FlushMoves(s, |turns|);
      FlushesWrite(Flush(s), turns[1..]);
    } else {
      assert s.out + [] == s.out;
    }
  }

  /** Left alone, the flusher writes out everything in one round, in the order it was logged. */
  lemma {:induction false} Drains(s: LogState, all: seq<Msg>, turns: seq<Step>)
    requires InOrder(s, all) && |turns| == Span(s) && forall i :: 0 <= i < |turns| ==> turns[i] == Turn
    ensures AllFit(s, turns) && DoAll(s, turns).out == all
  {
    FlushesWrite(s, turns);
  }

  // ---- what an overrun does to the file ----

  /** What the ring holds behind its oldest buffer. */
  function Later(s: LogState): seq<Msg>
    requires Ring(s)
  {
    Window(s.bufs, Succ(s.head), N_ELEMENTS - 1)
  }

  lemma {:induction false} OverrunFinds(s: LogState, m: Msg, all: seq<Msg>)
    requires InOrder(s, all) && |m| < BUFFER_SIZE && Overruns(s, m)
    ensures Later(s) != [] && all == s.out + s.bufs[s.head] + Later(s)
  {
    assert Span(s) == N_ELEMENTS && Flat([]) == [];
    WindowHead(s.bufs, s.head, N_ELEMENTS - 1);
    assert s.out + (s.bufs[s.head] + Later(s)) == s.out + s.bufs[s.head] + Later(s);
    assert At(Succ(s.head), N_ELEMENTS - 2) == s.tail;
    assert Later(s) == Window(s.bufs, Succ(s.head), N_ELEMENTS - 2) + s.bufs[s.tail];
  }

  lemma {:induction false} OverrunLeaves(s: LogState, m: Msg)
    requires Ring(s) && Overruns(s, m) && Fits(s, m)
    ensures Ring(Append(s, m))
    ensures Window(Append(s, m).bufs, s.head, N_ELEMENTS) == s.bufs[s.head] + [m] + Later(s)
  {
    var t := Append(s, m);
    DoKeepsRing(s, Log(m));
    WindowHead(t.bufs, s.head, N_ELEMENTS - 1);
    WindowFrame(s.bufs, t.bufs, Succ(s.head), N_ELEMENTS - 1);
  }

  /** After an overrun and a full round of the flusher, the file has the message behind the oldest buffer and
      in front of all that was logged between the two, and there is such. */
  lemma {:induction false} OverrunReorders(s: LogState, m: Msg, all: seq<Msg>, turns: seq<Step>)
    requires InOrder(s, all) && |m| < BUFFER_SIZE && Overruns(s, m) && Fits(s, m)
    requires |turns| == N_ELEMENTS && forall i :: 0 <= i < |turns| ==> turns[i] == Turn
    ensures Later(s) != [] && all == s.out + s.bufs[s.head] + Later(s)
    ensures AllFit(Append(s, m), turns)
    ensures DoAll(Append(s, m), turns).out == s.out + s.bufs[s.head] + [m] + Later(s)
  {
    OverrunFinds(s, m, all);
    OverrunLeaves(s, m);
    FlushesWrite(Append(s, m), turns);
    assert s.out + (s.bufs[s.head] + [m] + Later(s)) == s.out + s.bufs[s.head] + [m] + Later(s);
  }

  // ---- conservation, overruns included ----

  function Held(bufs: seq<seq<Msg>>, n: nat): multiset<Msg>
    requires n <= |bufs|
  {
    if n == 0 then multiset{} else Held(bufs, n - 1) + multiset(bufs[n - 1])
  }

  /** Nothing is lost and nothing is written twice, whatever the order. */
  ghost predicate Conserved(s: LogState, all: multiset<Msg>) {
    Ring(s) && multiset(s.out) + Held(s.bufs, N_ELEMENTS) == all
  }

  lemma {:induction false} Regroup(a: multiset<Msg>, b: multiset<Msg>, c: multiset<Msg>)
    ensures a + b + c == a + c + b == a + (b + c)
  {}

  lemma {:induction false} Cancel(a: multiset<Msg>, b: multiset<Msg>, c: multiset<Msg>)
    requires a + c == b + c
    ensures a == b
  {
    forall x ensures a[x] == b[x] { assert (a + c)[x] == (b + c)[x]; }
  }

  lemma {:induction false} HeldUpdate(bufs: seq<seq<Msg>>, i: nat, b: seq<Msg>, n: nat)
    requires i < |bufs| && n <= |bufs|
    ensures i < n ==> Held(bufs[i := b], n) + multiset(bufs[i]) == Held(bufs, n) + multiset(b)
    ensures i >= n ==> Held(bufs[i := b], n) == Held(bufs, n)
  {
    if n > 0 {
      HeldUpdate(bufs, i, b, n - 1);
      var h, h' := Held(bufs, n - 1), Held(bufs[i := b], n - 1);
      if i == n - 1 {
        Regroup(h, multiset(b), multiset(bufs[i]));
      } else if i < n {
        Regroup(h', multiset(bufs[n - 1]), multiset(bufs[i]));
        Regroup(h, multiset(b), multiset(bufs[n - 1]));
      }
    }
  }

  lemma {:induction false} AppendConserves(s: LogState, all: multiset<Msg>, m: Msg)
    requires Conserved(s, all) && Fits(s, m)
    ensures Conserved(Append(s, m), all + multiset{m})
  {
    var t := Target(s, m);
    DoKeepsRing(s, Log(m));
    HeldUpdate(s.bufs, t, s.bufs[t] + [m], N_ELEMENTS);
    assert multiset(s.bufs[t] + [m]) == multiset(s.bufs[t]) + multiset{m};
    var h, h' := Held(s.bufs, N_ELEMENTS), Held(Append(s, m).bufs, N_ELEMENTS);
    Regroup(h, multiset(s.bufs[t]), multiset{m});
    Cancel(h', h + multiset{m}, multiset(s.bufs[t]));
    Regroup(multiset(s.out), h, multiset{m});
  }

  lemma {:induction false} FlushConserves(s: LogState, all: multiset<Msg>)
    requires Conserved(s, all)
    ensures Conserved(Flush(s), all)
  {
    var b := s.bufs[s.head];
    DoKeepsRing(s, Turn);
    HeldUpdate(s.bufs, s.head, [], N_ELEMENTS);
    assert multiset(s.out + b) == multiset(s.out) + multiset(b);
    assert Held(s.bufs, N_ELEMENTS) + multiset([]) == Held(s.bufs, N_ELEMENTS);
    Regroup(multiset(s.out), multiset(b), Held(Flush(s).bufs, N_ELEMENTS));
  }

  /** Conservation over whole runs, also those in which tail steps onto head: it needs room, not order. */
  lemma {:induction false} RunConserves(s: LogState, all: multiset<Msg>, steps: seq<Step>)
    requires Conserved(s, all) && AllFit(s, steps)
    ensures Conserved(DoAll(s, steps), all + multiset(Logged(steps)))
    decreases steps
  {
    if steps == [] {
      assert all + multiset(Logged(steps)) == all;
    } else {
      var st := steps[0];
      if st.Log? { AppendConserves(s, all, st.m); } else { FlushConserves(s, all); assert all + multiset([]) == all; }
      RunConserves(Do(s, st), all + multiset(LoggedBy(st)), steps[1..]);
      assert multiset(Logged(steps)) == multiset(LoggedBy(st)) + multiset(Logged(steps[1..]));
      Regroup(all, multiset(LoggedBy(st)), multiset(Logged(steps[1..])));
    }
  }

  // ---- from the start ----

  /** The ring as it is created: order and conservation for every run of producers and flusher. */
  lemma {:induction false} LogOrder(steps: seq<Step>)
    requires NeverOverruns(Initial(), steps)
    ensures AllFit(Initial(), steps) && InOrder(DoAll(Initial(), steps), Logged(steps))
  {
    InitialInOrder();
    RunInOrder(Initial(), [], steps);
    assert [] + Logged(steps) == Logged(steps);
  }

  lemma {:induction false} HeldNothing(bufs: seq<seq<Msg>>, n: nat)
    requires n <= |bufs| && forall i :: 0 <= i < n ==> bufs[i] == []
    ensures Held(bufs, n) == multiset{}
  {
    if n > 0 { HeldNothing(bufs, n - 1); }
  }

  lemma {:induction false} LogConservation(steps: seq<Step>)
    requires AllFit(Initial(), steps)
    ensures Conserved(DoAll(Initial(), steps), multiset(Logged(steps)))
  {
    InitialInOrder();
    HeldNothing(Initial().bufs, N_ELEMENTS);
    RunConserves(Initial(), multiset{}, steps);
  }

  // ---- an overrun from the start ----

  /** The longest line the local buffer of lmvs_log_log holds. */
  function Line(): Msg { seq(BUFFER_LEN - 1, i => 'x') }

  function Burst(n: nat): seq<Step> { if n == 0 then [] else [Log(Line())] + Burst(n - 1) }

  lemma {:induction false} BurstFills(s: LogState, n: nat)
    requires Ring(s) && s.tail == 0 && Seek(s.bufs[0]) + n * (BUFFER_LEN - 1) < BUFFER_SIZE
    ensures AllFit(s, Burst(n)) && NeverOverruns(s, Burst(n))
    ensures var t := DoAll(s, Burst(n));
            Ring(t) && t.tail == 0 && t.head == s.head && Seek(t.bufs[0]) == Seek(s.bufs[0]) + n * (BUFFER_LEN - 1)
    decreases n
  {
    if n > 0 {
      var m := Line();
      FlatAppend(s.bufs[0], m);
      DoKeepsRing(s, Log(m));
      BurstFills(Append(s, m), n - 1);
      assert Burst(n)[1..] == Burst(n - 1);
    }
  }

  lemma {:induction false} BurstOneMore(s: LogState, n: nat)
    requires AllFit(s, Burst(n)) && NeverOverruns(s, Burst(n))
    requires var t := DoAll(s, Burst(n)); Ring(t) && Fits(t, Line()) && !Overruns(t, Line())
    ensures AllFit(s, Burst(n + 1)) && NeverOverruns(s, Burst(n + 1))
    ensures DoAll(s, Burst(n + 1)) == Append(DoAll(s, Burst(n)), Line())
    decreases n
  {
    if n > 0 {
      assert Burst(n)[1..] == Burst(n - 1);
      BurstOneMore(Do(s, Burst(n)[0]), n - 1);
    }
    assert Burst(n + 1)[1..] == Burst(n);
  }

  /** n lines fill q buffers, and c lines of the next. */
  ghost predicate Filled(s: LogState, n: nat, q: nat, c: nat) {
    && Ring(s) && s.head == 0 && s.tail == q && n == 124 * q + c && c <= 124 && (n > 0 ==> c > 0)
    && Seek(s.bufs[q]) == c * (BUFFER_LEN - 1) && forall i :: q < i < N_ELEMENTS ==> s.bufs[i] == []
  }

  lemma {:induction false} LineBehind(s: LogState, n: nat, q: nat, c: nat, m: Msg)
    requires Filled(s, n, q, c) && c < 124 && |m| == BUFFER_LEN - 1
    ensures Fits(s, m) && !Overruns(s, m) && Filled(Append(s, m), n + 1, q, c + 1)
  {
    var t := Append(s, m);
    FlatAppend(s.bufs[q], m);
    DoKeepsRing(s, Log(m));
    AppendExact(s, m);
    assert t.tail == q && Seek(t.bufs[q]) == Seek(s.bufs[q]) + |m|;
  }

  lemma {:induction false} LineAhead(s: LogState, n: nat, q: nat, m: Msg)
    requires Filled(s, n, q, 124) && n < 12400 && |m| == BUFFER_LEN - 1
    ensures Fits(s, m) && !Overruns(s, m) && Filled(Append(s, m), n + 1, q + 1, 1)
  {
    var t := Append(s, m);
    assert Flat([]) == [];
    FlatAppend(s.bufs[q + 1], m);
    DoKeepsRing(s, Log(m));
    AppendExact(s, m);
    assert t.tail == q + 1 && Seek(t.bufs[q + 1]) == |m|;
  }

  lemma {:induction false} OneLineMore(s: LogState, n: nat, q: nat, c: nat)
    requires Filled(s, n, q, c) && n < 12400
    ensures Fits(s, Line()) && !Overruns(s, Line())
    ensures Filled(Append(s, Line()), n + 1, if c < 124 then q else q + 1, if c < 124 then c + 1 else 1)
  {
    if c < 124 { LineBehind(s, n, q, c, Line()); } else { LineAhead(s, n, q, Line()); }
  }

  lemma {:induction false} LinesFill(s: LogState, n: nat) returns (q: nat, c: nat)
    requires Filled(s, 0, 0, 0) && n <= 12400
    ensures AllFit(s, Burst(n)) && NeverOverruns(s, Burst(n)) && Filled(DoAll(s, Burst(n)), n, q, c)
  {
    q, c := 0, 0;
    if n > 0 {
      q, c := LinesFill(s, n - 1);
      OneLineMore(DoAll(s, Burst(n - 1)), n - 1, q, c);
      BurstOneMore(s, n - 1);
      q, c := if c < 124 then q else q + 1, if c < 124 then c + 1 else 1;
    }
  }

  /** What the ring takes while the flusher does not get its turn: 12400 of the longest lines, 124 in each of the
      hundred buffers, and not one more. */
  lemma {:induction false} RingTakes(n: nat)
    requires n <= 12400
    ensures AllFit(Initial(), Burst(n)) && InOrder(DoAll(Initial(), Burst(n)), Logged(Burst(n)))
    ensures Overruns(DoAll(Initial(), Burst(n)), Line()) <==> n == 12400
  {
    assert Filled(Initial(), 0, 0, 0) by { InitialInOrder(); assert Flat([]) == []; }
    var q, c := LinesFill(Initial(), n);
    LogOrder(Burst(n));
    if n < 12400 { OneLineMore(DoAll(Initial(), Burst(n)), n, q, c); }
  }

  /** An idle turn of the flusher takes head past tail.  After 124 lines the next one fills the buffer that
      head stands on: the order is lost, whatever it is compared with. */
  lemma {:induction false} IdleTurnThenBurst(any: seq<Msg>)
    ensures var steps := [Turn] + Burst(124);
            && NeverOverruns(Initial(), steps) && AllFit(Initial(), steps)
            && InOrder(DoAll(Initial(), steps), Logged(steps))
            && Overruns(DoAll(Initial(), steps), Line()) && !InOrder(Append(DoAll(Initial(), steps), Line()), any)
  {
    var steps, s := [Turn] + Burst(124), Flush(Initial());
    InitialInOrder();
    DoKeepsRing(Initial(), Turn);
    assert Flat([]) == [] && s.head == 1 && s.tail == 0;
    assert steps[1..] == Burst(124);
    BurstFills(s, 124);
    LogOrder(steps);
    OverrunBreaksOrder(DoAll(Initial(), steps), Line(), Logged(steps), any);
  }
}
