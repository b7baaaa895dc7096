/** Sending a response piece by piece.  `wire` is what the peer has been handed since the last reset; the
    kernel decides how much each call takes. */
module ResponseSpec {
  /** send: some of the bytes, a full socket buffer, or an error. */
  datatype SendAnswer = Took(n: nat) | Block | Broken

  /** sendfile at one file position: some of the bytes, EAGAIN, an error, or zero at the end of the file,
      where errno is whatever an earlier call left there. */
  datatype FileAnswer = Copied(n: nat) | Again | Fault | Eof(staleAgain: bool)

  /** `behind` is the memory after the block that pdata points into. */
  datatype Req = Req(headers: seq<char>, content: seq<char>, fromFile: bool, behind: nat -> char,
                     sent: bool, off: nat, pos: nat, nsend: int, wire: seq<char>)

  datatype Outcome = Closed | Writing | Reading

  function Total(r: Req): nat { |r.headers| + |r.content| }

  predicate AnswerOk(a: SendAnswer, len: nat) { a.Took? ==> 0 < a.n <= len }

  function Count(a: SendAnswer): nat { if a.Took? then a.n else 0 }

  /** Within one call every position is asked at most once. */
  ghost predicate KernelOk(len: nat, k: nat -> FileAnswer) {
    && (forall p: nat :: p < len ==> !k(p).Eof? && (k(p).Copied? ==> 0 < k(p).n <= len - p))
    && k(len).Eof?
  }

  /** n bytes of memory from offset `off` of the block on. */
  function Memory(block: seq<char>, behind: nat -> char, off: nat, n: nat): seq<char> {
    seq(n, j requires 0 <= j => if off + j < |block| then block[off + j] else behind(off + j - |block|))
  }

  // ---- lmvs_response ----

  datatype Reply = Reply(req: Req, ret: int)

  datatype Transfer = Transfer(end: nat, ret: int)

  /** The sendfile loop from file position pos; `acc` counts what this call has sent. */
  ghost function SendFile(len: nat, pos: nat, acc: nat, k: nat -> FileAnswer): (t: Transfer)
    requires pos <= len && KernelOk(len, k)
    ensures pos <= t.end <= len
    decreases len - pos
  {
    var a := k(pos);
    if a.Copied? then
      if acc + a.n == len then Transfer(pos + a.n, acc + a.n) else SendFile(len, pos + a.n, acc + a.n, k)
    else if a.Again? || (a.Eof? && a.staleAgain) then Transfer(pos, acc)
    else Transfer(pos, -1)
  }

  /** The body: `hn` header bytes went out in the same call.  The short return of the not-found page leaves
      them out. */
  ghost function Body(r: Req, hn: nat, b: SendAnswer, k: nat -> FileAnswer): Reply
    requires r.pos <= |r.content| && KernelOk(|r.content|, k)
  {
    if r.fromFile then
      var t := SendFile(|r.content|, r.pos, 0, k);
      Reply(r.(pos := t.end, wire := r.wire + r.content[r.pos..t.end]), if t.ret > 0 then t.ret + hn else -1)
    else if b.Broken? then Reply(r, -1)
    else
      var n := Count(b);
      var r' := r.(wire := r.wire + Memory(r.content, r.behind, r.off, n));
      if n < |r.content| then Reply(r'.(off := r.off + n), n) else Reply(r', n + hn)
  }

  /** A retried header send starts where the last one stopped, but asks for the full length again. */
  ghost function Respond(r: Req, a: SendAnswer, b: SendAnswer, k: nat -> FileAnswer): Reply
    requires r.pos <= |r.content| && KernelOk(|r.content|, k)
  {
    if r.sent then Body(r, 0, b, k)
    else if a.Broken? then Reply(r, -1)
    else
      var n := Count(a);
      var r' := r.(wire := r.wire + Memory(r.headers, r.behind, r.off, n));
      if n < |r.headers| then Reply(r'.(off := r.off + n), n) else Body(r'.(sent := true, off := 0), n, b, k)
  }

  /** A write event: close on an error, otherwise count, and go back to reading when the count is full. */
  ghost function Event(r: Req, a: SendAnswer, b: SendAnswer, k: nat -> FileAnswer): (so: (Req, Outcome))
    requires r.pos <= |r.content| && KernelOk(|r.content|, k)
    ensures so.0.pos <= |r.content| && so.0 == r.(sent := so.0.sent, off := so.0.off, pos := so.0.pos, nsend := so.0.nsend, wire := so.0.wire)
  {
    var y := Respond(r, a, b, k);
    if y.ret == -1 then (y.req, Closed)
    else
      var s := y.req.(nsend := y.req.nsend + y.ret);
      (s, if s.nsend == Total(r) then Reading else Writing)
  }

  // ---- file responses ----

  /** The bytes the peer should get. */
  function Wanted(r: Req): seq<char> { r.headers + r.content }

  /** All or nothing of the header block has gone out, and the count is exact. */
  ghost predicate Tracks(r: Req) {
    && r.headers != [] && r.pos <= |r.content| && r.nsend == |r.wire|
    && (if r.sent then r.wire == r.headers + r.content[..r.pos] else r.wire == [] && r.off == 0 && r.pos == 0)
  }

  ghost predicate TakenWhole(r: Req, a: SendAnswer) { !r.sent && a.Took? ==> a.n == |r.headers| }

  lemma {:induction false} MemoryAt(block: seq<char>, behind: nat -> char, off: nat, n: nat, j: nat)
    requires j < n
    ensures |Memory(block, behind, off, n)| == n
    ensures Memory(block, behind, off, n)[j] == if off + j < |block| then block[off + j] else behind(off + j - |block|)
  {}

  lemma {:induction false} MemoryInside(block: seq<char>, behind: nat -> char, off: nat, n: nat)
    requires off + n <= |block|
    ensures Memory(block, behind, off, n) == block[off..off + n]
  {}

  lemma {:induction false} MemoryJoins(block: seq<char>, behind: nat -> char, off: nat, n: nat)
    ensures Memory(block, behind, 0, off) + Memory(block, behind, off, n) == Memory(block, behind, 0, off + n)
  {}

  /** The loop asks next where the last answer ended, until the length is reached or nothing more is taken. */
  lemma {:induction false} SendFileStep(len: nat, pos: nat, acc: nat, k: nat -> FileAnswer)
    requires pos <= len && KernelOk(len, k)
    ensures !k(pos).Copied? ==> SendFile(len, pos, acc, k).end == pos
    ensures k(pos).Copied? ==>
              var n := k(pos).n;
              SendFile(len, pos, acc, k) == if acc + n == len then Transfer(pos + n, len) else SendFile(len, pos + n, acc + n, k)
  {}

  /** The loop counts exactly what it moved. */
  lemma {:induction false} SendFileCounts(len: nat, pos: nat, acc: nat, k: nat -> FileAnswer)
    requires pos <= len && KernelOk(len, k)
    ensures var t := SendFile(len, pos, acc, k); t.ret == -1 || t.ret == acc + t.end - pos
    decreases len - pos
  {
    if k(pos).Copied? && acc + k(pos).n != len { SendFileCounts(len, pos + k(pos).n, acc + k(pos).n, k); }
  }

  /** If nothing stops it before the end of the file, it fails exactly when it did not start at the
      beginning and errno holds something else than EAGAIN: it notices the end only by a call that
      returns zero. */
  lemma {:induction false} SendFileAtEnd(len: nat, pos: nat, acc: nat, k: nat -> FileAnswer)
    requires pos <= len && KernelOk(len, k) && acc <= pos
    requires SendFile(len, pos, acc, k).end == len
    ensures SendFile(len, pos, acc, k).ret == -1 <==> (acc < pos || pos == len) && k(len) == Eof(false)
    decreases len - pos
  {
    if k(pos).Copied? && acc + k(pos).n != len { SendFileAtEnd(len, pos + k(pos).n, acc + k(pos).n, k); }
  }

  /** Before the end of the file it is stopped by a full socket or an error, and fails exactly on the error. */
  lemma {:induction false} SendFileStops(len: nat, pos: nat, acc: nat, k: nat -> FileAnswer)
    requires pos <= len && KernelOk(len, k) && acc <= pos
    requires SendFile(len, pos, acc, k).end < len
    ensures var t := SendFile(len, pos, acc, k); !k(t.end).Copied? && (t.ret == -1 <==> k(t.end).Fault?)
    decreases len - pos
  {
    if k(pos).Copied? && acc + k(pos).n != len { SendFileStops(len, pos + k(pos).n, acc + k(pos).n, k); }
  }

  lemma {:induction false} BodyTracks(r: Req, hn: nat, b: SendAnswer, k: nat -> FileAnswer)
    requires r.pos <= |r.content| && KernelOk(|r.content|, k) && r.fromFile && r.sent && r.headers != []
    requires r.wire == r.headers + r.content[..r.pos] && |r.wire| == r.nsend + hn
    ensures var y := Body(r, hn, b, k);
            && y.req.sent && y.req.wire == r.headers + r.content[..y.req.pos]
            && (y.ret != -1 ==> y.req.nsend + y.ret == |y.req.wire|)
  {
    SendFileCounts(|r.content|, r.pos, 0, k);
    var p := Body(r, hn, b, k).req.pos;
    assert r.content[..r.pos] + r.content[r.pos..p] == r.content[..p];
    assert r.headers + r.content[..r.pos] + r.content[r.pos..p] == r.headers + r.content[..p];
  }

  /** One write event of a file response whose header block is taken whole: what went out is the beginning
      of headers ++ file, the count is exact, and it is full exactly when everything went out. */
  lemma {:induction false} EventTracks(r: Req, a: SendAnswer, b: SendAnswer, k: nat -> FileAnswer)
    requires Tracks(r) && r.fromFile && TakenWhole(r, a) && KernelOk(|r.content|, k)
    ensures var (s, o) := Event(r, a, b, k);
            && s.wire <= Wanted(r)
            && (o != Closed ==> Tracks(s) && (o == Reading <==> s.wire == Wanted(r)))
  {
    if r.sent {
      BodyTracks(r, 0, b, k);
    } else if a.Took? {
      MemoryInside(r.headers, r.behind, 0, a.n);
      var r1 := r.(wire := r.headers, sent := true, off := 0);
      assert r.wire + r.headers[0..a.n] == r.headers && r.headers + r.content[..0] == r.headers;
      BodyTracks(r1, a.n, b, k);
    } else {
      assert Memory(r.headers, r.behind, r.off, 0) == [];
    }
    var s := Event(r, a, b, k).0;
    if s.sent { WireAndCount(s); }
  }

  lemma {:induction false} WireAndCount(s: Req)
    requires s.pos <= |s.content| && s.wire == s.headers + s.content[..s.pos]
    ensures s.wire <= Wanted(s) && (|s.wire| == Total(s) <==> s.wire == Wanted(s))
  {
    if s.pos == |s.content| { assert s.content[..s.pos] == s.content; }
  }

  // ---- whole runs of write events ----

  datatype Answers = Answers(headers: SendAnswer, page: SendAnswer, file: nat -> FileAnswer)

  ghost predicate AnswersOk(h: nat, content: seq<char>, x: Answers) {
    AnswerOk(x.headers, h) && AnswerOk(x.page, |content|) && KernelOk(|content|, x.file)
  }

  ghost predicate AllOk(h: nat, content: seq<char>, xs: seq<Answers>) {
    forall i :: 0 <= i < |xs| ==> AnswersOk(h, content, xs[i])
  }

  /** Events until one closes the connection or completes the response. */
  ghost function Events(r: Req, xs: seq<Answers>): (Req, Outcome)
    requires r.pos <= |r.content| && AllOk(|r.headers|, r.content, xs)
    decreases |xs|
  {
    if xs == [] then (r, Writing) else
      assert AnswersOk(|r.headers|, r.content, xs[0]);
      var (s, o) := Event(r, xs[0].headers, xs[0].page, xs[0].file);
      if o == Writing then Events(s, xs[1..]) else (s, o)
  }

  /** Whatever sendfile does, over any number of events. */
  lemma {:induction false} FileIsDelivered(r: Req, xs: seq<Answers>)
    requires Tracks(r) && r.fromFile && AllOk(|r.headers|, r.content, xs)
    requires r.wire != Wanted(r)
    requires forall i :: 0 <= i < |xs| && xs[i].headers.Took? ==> xs[i].headers.n == |r.headers|
    ensures var (s, o) := Events(r, xs);
            && s.wire <= Wanted(r)
            && (o != Closed ==> s.nsend == |s.wire| && (o == Reading <==> s.wire == Wanted(r)))
    decreases |xs|
  {
    if xs == [] {
      if r.sent { WireAndCount(r); }
    } else {
      assert AnswersOk(|r.headers|, r.content, xs[0]);
      EventTracks(r, xs[0].headers, xs[0].page, xs[0].file);
      var (s, o) := Event(r, xs[0].headers, xs[0].page, xs[0].file);
      if o == Writing { FileIsDelivered(s, xs[1..]); }
    }
  }

  // ---- how an event of a file response ends ----

  /** A header send that does not take the whole block ends the event: an error closes the connection and
      leaves everything as it was; a full socket leaves everything as it was; a part goes out from where the
      last one stopped. */
  lemma {:induction false} HeaderSendExact(r: Req, a: SendAnswer, b: SendAnswer, k: nat -> FileAnswer)
    requires !r.sent && r.headers != [] && r.pos <= |r.content| && KernelOk(|r.content|, k)
    requires AnswerOk(a, |r.headers|) && a != Took(|r.headers|)
    ensures var (s, o) := Event(r, a, b, k);
            && (a.Broken? ==> s == r && o == Closed)
            && (a.Block? ==> s == r)
            && (a.Took? ==> s == r.(wire := r.wire + Memory(r.headers, r.behind, r.off, a.n), off := r.off + a.n, nsend := r.nsend + a.n))
            && (!a.Broken? ==> o == if s.nsend == |r.headers| + |r.content| then Reading else Writing)
  {
    assert Memory(r.headers, r.behind, r.off, 0) == [];
    assert r.wire + [] == r.wire;
  }

  /** The request when the header block went out, in this event or before. */
  function HeadersOut(r: Req): Req {
    if r.sent then r else r.(wire := r.wire + Memory(r.headers, r.behind, r.off, |r.headers|), sent := true, off := 0)
  }

  /** The page send: an error closes the connection; otherwise a part goes out from where the last one
      stopped, and the next one begins behind it. */
  lemma {:induction false} PageSendExact(r: Req, a: SendAnswer, b: SendAnswer, k: nat -> FileAnswer)
    requires !r.fromFile && r.content != [] && r.pos <= |r.content| && KernelOk(|r.content|, k)
    requires (r.sent || a == Took(|r.headers|)) && AnswerOk(b, |r.content|)
    ensures var (s, o), q, n := Event(r, a, b, k), HeadersOut(r), if b.Took? then b.n else 0;
            && (b.Broken? ==> s == q && o == Closed)
            && (!b.Broken? ==>
                  && s.sent && s.pos == r.pos && s.wire == q.wire + Memory(r.content, r.behind, q.off, n)
                  && s.off == q.off + (if n < |r.content| then n else 0)
                  && s.nsend == r.nsend + n + (if n == |r.content| && !r.sent then |r.headers| else 0)
                  && o == if s.nsend == |r.headers| + |r.content| then Reading else Writing)
  {}

  /** The event started sending where the file could be finished: at the start of a file with bytes in it,
      or later with errno saying EAGAIN by the time the end is seen. */
  ghost predicate CanFinish(r: Req, k: nat -> FileAnswer) {
    r.pos < |r.content| && (r.pos == 0 || k(|r.content|) == Eof(true))
  }

  /** An event that reaches the file, whatever was sent before: stopped before the end, it closes on an error
      and when it moved no byte; at the end of the file it closes when it could not finish. */
  lemma {:induction false} FileSendExact(r: Req, a: SendAnswer, b: SendAnswer, k: nat -> FileAnswer)
    requires r.fromFile && r.pos <= |r.content| && KernelOk(|r.content|, k) && (r.sent || a == Took(|r.headers|))
    ensures var (s, o) := Event(r, a, b, k);
            && s.sent && s.off == HeadersOut(r).off && r.pos <= s.pos
            && s.wire == HeadersOut(r).wire + r.content[r.pos..s.pos]
            && (o == Closed <==> if s.pos < |s.content| then k(s.pos) == Fault || s.pos == r.pos else !CanFinish(r, k))
  {
    var n := |r.content|;
    var t := SendFile(n, r.pos, 0, k);
    SendFileCounts(n, r.pos, 0, k);
    if t.end < n { SendFileStops(n, r.pos, 0, k); } else { SendFileAtEnd(n, r.pos, 0, k); }
    assert k(n).Eof?;
  }

  /** Exactly when a write event closes the connection: the header send fails; or the block is out, and the
      page send fails, or the file meets an error, does not move, or ends where it could not finish. */
  lemma {:induction false} ClosesExactly(r: Req, a: SendAnswer, b: SendAnswer, k: nat -> FileAnswer)
    requires r.headers != [] && r.pos <= |r.content| && KernelOk(|r.content|, k)
    requires AnswerOk(a, |r.headers|) && AnswerOk(b, |r.content|) && (r.fromFile || r.content != [])
    ensures var (s, o) := Event(r, a, b, k);
            o == Closed <==>
              if !r.sent && a != Took(|r.headers|) then a.Broken?
              else if !r.fromFile then b.Broken?
              else if s.pos < |r.content| then k(s.pos) == Fault || s.pos == r.pos
              else !CanFinish(r, k)
  {
    if !r.sent && a != Took(|r.headers|) { HeaderSendExact(r, a, b, k); }
    else if !r.fromFile { PageSendExact(r, a, b, k); }
    else { FileSendExact(r, a, b, k); }
  }

  /** Exactly when an event that reaches the file closes the connection, and when it completes the response.
      Stopped before the end, it closes on an error and when it moved no byte; at the end of the file it
      completes or closes. */
  lemma {:induction false} FileEventExact(r: Req, a: SendAnswer, b: SendAnswer, k: nat -> FileAnswer)
    requires Tracks(r) && r.fromFile && TakenWhole(r, a) && KernelOk(|r.content|, k)
    requires r.sent || a.Took?
    ensures var (s, o) := Event(r, a, b, k);
            && (o == Closed <==> if s.pos < |s.content| then k(s.pos) == Fault || s.pos == r.pos else !CanFinish(r, k))
            && (o == Reading <==> s.pos == |s.content| && CanFinish(r, k))
  {
    EventTracks(r, a, b, k);
    var n, s := |r.content|, Event(r, a, b, k).0;
    var r1 := if r.sent then r else r.(wire := r.wire + Memory(r.headers, r.behind, 0, |r.headers|), sent := true, off := 0);
    SendFileCounts(n, r.pos, 0, k);
    if s.pos < n { SendFileStops(n, r.pos, 0, k); } else { SendFileAtEnd(n, r.pos, 0, k); }
    assert s.pos == SendFile(n, r.pos, 0, k).end && k(n).Eof?;
    if s.sent && Event(r, a, b, k).1 != Closed { CompleteAtEnd(s); }
  }

  lemma {:induction false} CompleteAtEnd(s: Req)
    requires s.pos <= |s.content| && s.wire == s.headers + s.content[..s.pos]
    ensures s.wire == Wanted(s) <==> s.pos == |s.content|
  {
    WireAndCount(s);
  }

  /** The event that moves the last byte of a file, with or without the headers, completes the response
      exactly when it could finish. */
  lemma {:induction false} LastEventCompletes(r: Req, a: SendAnswer, b: SendAnswer, k: nat -> FileAnswer)
    requires Tracks(r) && r.fromFile && TakenWhole(r, a) && KernelOk(|r.content|, k) && (r.sent || a.Took?)
    requires Event(r, a, b, k).0.pos == |r.content|
    ensures Event(r, a, b, k).1 == Reading <==> r.pos < |r.content| && (r.pos == 0 || k(|r.content|) == Eof(true))
  {
    FileEventExact(r, a, b, k);
  }

  /** A full socket closes the connection exactly when the event moved no byte of the file. */
  lemma {:induction false} FullSocketCloses(r: Req, a: SendAnswer, b: SendAnswer, k: nat -> FileAnswer)
    requires Tracks(r) && r.fromFile && TakenWhole(r, a) && KernelOk(|r.content|, k) && (r.sent || a.Took?)
    requires k(Event(r, a, b, k).0.pos) == Again
    ensures Event(r, a, b, k).1 == Closed <==> Event(r, a, b, k).0.pos == r.pos
  {
    FileEventExact(r, a, b, k);
  }

  /** An empty file never completes: its headers go out and the connection is closed. */
  lemma {:induction false} EmptyFileCloses(r: Req, a: SendAnswer, b: SendAnswer, k: nat -> FileAnswer)
    requires Tracks(r) && r.fromFile && r.content == [] && TakenWhole(r, a) && KernelOk(|r.content|, k)
    requires r.sent || a.Took?
    ensures Event(r, a, b, k).1 == Closed
  {
    FileEventExact(r, a, b, k);
  }

  // ---- header blocks sent in parts ----

  /** The memory behind the header block that goes out in place of content. */
  function Foreign(r: Req, n: nat): seq<char> { Memory(r.headers, r.behind, |r.headers|, n) }

  /** Bytes on the wire that are neither headers nor content. */
  function Strangers(r: Req): int { |r.wire| - |r.headers| - r.pos }

  /** What is on the wire of a file response, however its header block was cut: the block, as many foreign
      bytes as had gone out when the block was sent whole, and the file so far. */
  ghost predicate Carries(r: Req) {
    && r.headers != [] && r.pos <= |r.content|
    && if r.sent then Strangers(r) >= 0 && r.wire == r.headers + Foreign(r, Strangers(r)) + r.content[..r.pos]
       else r.wire == Memory(r.headers, r.behind, 0, r.off) && r.pos == 0
  }

  lemma {:induction false} MemoryCut(block: seq<char>, behind: nat -> char, n: nat)
    ensures Memory(block, behind, 0, |block| + n) == block + Memory(block, behind, |block|, n)
  {}

  lemma {:induction false} BodyCarries(r: Req, hn: nat, b: SendAnswer, k: nat -> FileAnswer)
    requires Carries(r) && r.sent && r.fromFile && KernelOk(|r.content|, k) && |r.wire| == r.nsend + hn
    ensures var y := Body(r, hn, b, k);
            && y.req.sent && Carries(y.req) && Strangers(y.req) == Strangers(r)
            && (y.ret != -1 ==> y.req.nsend + y.ret == |y.req.wire|)
  {
    SendFileCounts(|r.content|, r.pos, 0, k);
    var p, f := Body(r, hn, b, k).req.pos, r.headers + Foreign(r, Strangers(r));
    assert f + r.content[..r.pos] + r.content[r.pos..p] == f + r.content[..p];
  }

  /** The request once its block has been taken whole. */
  ghost function BlockSent(r: Req): (r1: Req)
    requires Carries(r) && !r.sent
    ensures Carries(r1) && r1.sent && Strangers(r1) == r.off
  {
    MemoryCut(r.headers, r.behind, r.off);
    var r1 := r.(wire := Memory(r.headers, r.behind, 0, r.off + |r.headers|), sent := true, off := 0);
    assert r1.wire == r1.headers + Foreign(r1, r.off) + r1.content[..0];
    r1
  }

  /** After an event with the block sent: n foreign bytes, an exact count, and a response that counts as
      complete when n bytes of the file are still missing. */
  ghost predicate Follows(s: Req, o: Outcome, n: int) {
    && s.sent && Carries(s) && Strangers(s) == n
    && (o != Closed ==> s.nsend == |s.wire| && (o == Reading <==> s.pos + n == |s.content|))
  }

  lemma {:induction false} SentEvent(r: Req, a: SendAnswer, b: SendAnswer, k: nat -> FileAnswer)
    requires Carries(r) && r.sent && r.fromFile && r.nsend == |r.wire| && KernelOk(|r.content|, k)
    ensures var (s, o) := Event(r, a, b, k); Follows(s, o, Strangers(r))
  {
    BodyCarries(r, 0, b, k);
  }

  lemma {:induction false} WholeEvent(r: Req, b: SendAnswer, k: nat -> FileAnswer)
    requires Carries(r) && !r.sent && r.fromFile && r.nsend == |r.wire| && KernelOk(|r.content|, k)
    ensures var (s, o) := Event(r, Took(|r.headers|), b, k); Follows(s, o, r.off)
  {
    MemoryJoins(r.headers, r.behind, r.off, |r.headers|);
    BodyCarries(BlockSent(r), |r.headers|, b, k);
  }

  lemma {:induction false} PartEvent(r: Req, a: SendAnswer, b: SendAnswer, k: nat -> FileAnswer)
    requires Carries(r) && !r.sent && r.nsend == |r.wire| && KernelOk(|r.content|, k) && Count(a) < |r.headers|
    ensures var (s, o) := Event(r, a, b, k);
            && Carries(s) && !s.sent
            && (o != Closed ==> s.nsend == |s.wire| && (o == Reading <==> s.off == Total(s)))
  {
    MemoryJoins(r.headers, r.behind, r.off, Count(a));
  }

  /** Every event of a file response, whatever send and sendfile take: the wire stays headers, foreign bytes
      and file; the number of foreign bytes is what had gone out of the block before the send that took it
      whole, and never changes after that; the response counts as complete when that many bytes of the file
      are still missing. */
  lemma {:induction false} EventCarries(r: Req, a: SendAnswer, b: SendAnswer, k: nat -> FileAnswer)
    requires Carries(r) && r.fromFile && r.nsend == |r.wire| && AnswerOk(a, |r.headers|) && KernelOk(|r.content|, k)
    ensures var (s, o) := Event(r, a, b, k);
            if r.sent then Follows(s, o, Strangers(r))
            else if a == Took(|r.headers|) then Follows(s, o, r.off)
            else Carries(s) && !s.sent && (o != Closed ==> s.nsend == |s.wire| && (o == Reading <==> s.off == Total(s)))
  {
    if r.sent {
      SentEvent(r, a, b, k);
    } else if a == Took(|r.headers|) {
      WholeEvent(r, b, k);
    } else {
      PartEvent(r, a, b, k);
    }
  }

  /** A run of events after the block was sent: the foreign bytes stay, and the response counts as complete
      exactly when as many bytes of the file are missing. */
  lemma {:induction false} EventsCarry(r: Req, xs: seq<Answers>)
    requires Carries(r) && r.sent && r.fromFile && r.nsend == |r.wire| && AllOk(|r.headers|, r.content, xs)
    requires r.pos + Strangers(r) != |r.content|
    ensures var (s, o) := Events(r, xs);
            && Carries(s) && s.sent && Strangers(s) == Strangers(r)
            && (o != Closed ==> s.nsend == |s.wire| && (o == Reading <==> s.pos + Strangers(r) == |r.content|))
    decreases |xs|
  {
    if xs != [] {
      assert AnswersOk(|r.headers|, r.content, xs[0]);
      SentEvent(r, xs[0].headers, xs[0].page, xs[0].file);
      var (s, o) := Event(r, xs[0].headers, xs[0].page, xs[0].file);
      if o == Writing { EventsCarry(s, xs[1..]); }
    }
  }

  /** The block and what it carries, for any contents of the memory behind it. */
  ghost function SplitAt(r: Req, behind: nat -> char): Req {
    r.(behind := behind, wire := Memory(r.headers, behind, 0, r.off), nsend := r.off)
  }

  lemma {:induction false} SplitSends(r: Req, behind: nat -> char, b: SendAnswer, k: nat -> FileAnswer)
    requires !r.sent && r.headers != [] && r.fromFile && r.pos == 0 && KernelOk(|r.content|, k)
    ensures var s := Event(SplitAt(r, behind), Took(|r.headers|), b, k).0;
            s.wire == r.headers + Memory(r.headers, behind, |r.headers|, r.off) + r.content[..s.pos]
  {
    WholeEvent(SplitAt(r, behind), b, k);
  }

  /** Whatever lies behind the block, the bytes sent with it are a beginning of the response, exactly when
      no part of it had gone out before. */
  lemma {:induction false} HeadersRightIffWhole(r: Req, b: SendAnswer, k: nat -> FileAnswer)
    requires !r.sent && r.headers != [] && r.fromFile && r.pos == 0 && KernelOk(|r.content|, k)
    ensures r.off == 0 <==>
      forall behind: nat -> char :: Event(SplitAt(r, behind), Took(|r.headers|), b, k).0.wire <= Wanted(r)
  {
    if r.off == 0 {
      forall behind: nat -> char ensures Event(SplitAt(r, behind), Took(|r.headers|), b, k).0.wire <= Wanted(r) {
        var s := Event(SplitAt(r, behind), Took(|r.headers|), b, k).0;
        SplitSends(r, behind, b, k);
        assert s.wire == r.headers + r.content[..s.pos];
      }
    } else {
      var other: nat -> char := i => if r.content != [] && r.content[0] == 'x' then 'y' else 'x';
      var s := Event(SplitAt(r, other), Took(|r.headers|), b, k).0;
      SplitSends(r, other, b, k);
      assert s.wire[|r.headers|] == other(0);
      assert !(s.wire <= Wanted(r));
    }
  }

  // ---- not-found responses ----

  /** A not-found response whose header block went out in this event: the count is exact, and full, exactly
      when the page went out whole in the same event. */
  lemma {:induction false} PageCountExact(r: Req, b: SendAnswer, k: nat -> FileAnswer)
    requires Tracks(r) && !r.fromFile && !r.sent && r.content != [] && KernelOk(|r.content|, k)
    requires AnswerOk(b, |r.content|) && !b.Broken?
    ensures var (s, o) := Event(r, Took(|r.headers|), b, k); var whole := b == Took(|r.content|);
            && (s.nsend == |s.wire| <==> whole) && (o == Reading <==> whole) && o != Closed
            && (!whole ==> s.nsend + |s.headers| == |s.wire|)
            && (whole ==> s.wire == Wanted(r))
  {
    MemoryInside(r.headers, r.behind, 0, |r.headers|);
    MemoryInside(r.content, r.behind, 0, Count(b));
  }

  /** What the page sends of these events take. */
  function PageSum(xs: seq<Answers>): nat {
    if xs == [] then 0 else Count(xs[0].page) + PageSum(xs[1..])
  }

  /** No page send fails or takes the page whole, and together they stay within `room`. */
  ghost predicate InParts(len: nat, xs: seq<Answers>, room: int) {
    PageSum(xs) <= room && forall i :: 0 <= i < |xs| ==> !xs[i].page.Broken? && Count(xs[i].page) < len
  }

  /** The header block and the first bytes of the page are out, and nothing else; the count has the page's. */
  ghost predicate PageUpTo(r: Req) {
    && !r.fromFile && r.sent && r.headers != [] && r.pos <= |r.content| && r.off <= |r.content|
    && r.wire == r.headers + r.content[..r.off] && r.nsend == r.off
  }

  lemma {:induction false} PagePiece(r: Req, x: Answers)
    requires PageUpTo(r) && AnswersOk(|r.headers|, r.content, x) && InParts(|r.content|, [x], |r.content| - r.off)
    ensures var (s, o) := Event(r, x.headers, x.page, x.file);
            o == Writing && PageUpTo(s) && s.off == r.off + Count(x.page)
  {
    var n := Count(x.page);
    assert [x][0] == x && [x][1..] == [] && PageSum([x]) == n;
    PageSendExact(r, x.headers, x.page, x.file);
    MemoryInside(r.content, r.behind, r.off, n);
    assert r.headers + r.content[..r.off] + r.content[r.off..r.off + n] == r.headers + r.content[..r.off + n];
  }

  /** A page that goes out in parts over any number of events: the bytes on the wire are the headers and the
      page up to the sum of the parts. */
  lemma {:induction false} PagePieces(r: Req, xs: seq<Answers>)
    requires PageUpTo(r) && AllOk(|r.headers|, r.content, xs) && InParts(|r.content|, xs, |r.content| - r.off)
    ensures var (s, o) := Events(r, xs);
            o == Writing && PageUpTo(s) && s.wire == r.headers + r.content[..r.off + PageSum(xs)]
    decreases |xs|
  {
    if xs != [] {
      var x := xs[0];
      assert AnswersOk(|r.headers|, r.content, x);
      assert [x][1..] == [] && PageSum([x]) == Count(x.page);
      PagePiece(r, x);
      PagePieces(Event(r, x.headers, x.page, x.file).0, xs[1..]);
    }
  }

  /** The same from the event that sends the headers. */
  lemma {:induction false} PageFromStart(r: Req, xs: seq<Answers>)
    requires Tracks(r) && !r.fromFile && !r.sent && AllOk(|r.headers|, r.content, xs)
    requires xs != [] && xs[0].headers == Took(|r.headers|) && InParts(|r.content|, xs, |r.content|)
    ensures var (s, o) := Events(r, xs); o == Writing && s.wire == r.headers + r.content[..PageSum(xs)]
  {
    var x := xs[0];
    var n := Count(x.page);
    assert AnswersOk(|r.headers|, r.content, x);
    PageSendExact(r, x.headers, x.page, x.file);
    MemoryInside(r.headers, r.behind, 0, |r.headers|);
    MemoryInside(r.content, r.behind, 0, n);
    var s := Event(r, x.headers, x.page, x.file).0;
    assert s.wire == r.headers + r.content[..n];
    PagePieces(s, xs[1..]);
  }

  /** A count that once misses the header block keeps missing it: when it is full, more than the response
      has gone out. */
  lemma {:induction false} DeficitStays(r: Req, a: SendAnswer, b: SendAnswer, k: nat -> FileAnswer)
    requires !r.fromFile && r.sent && r.pos <= |r.content| && KernelOk(|r.content|, k)
    requires r.nsend + |r.headers| == |r.wire|
    ensures var (s, o) := Event(r, a, b, k);
            && (o != Closed ==> s.sent && s.nsend + |s.headers| == |s.wire|)
            && (o == Reading ==> |s.wire| == Total(s) + |s.headers|)
  {}

  /** Over a run: when a count that misses the header block is full, too much has gone out by as much. */
  lemma {:induction false} DeficitRuns(r: Req, xs: seq<Answers>)
    requires !r.fromFile && r.sent && r.pos <= |r.content| && AllOk(|r.headers|, r.content, xs)
    requires r.nsend + |r.headers| == |r.wire|
    ensures var (s, o) := Events(r, xs); o == Reading ==> |s.wire| == Total(r) + |r.headers|
    decreases |xs|
  {
    if xs != [] {
      var x := xs[0];
      assert AnswersOk(|r.headers|, r.content, x);
      DeficitStays(r, x.headers, x.page, x.file);
      var (s, o) := Event(r, x.headers, x.page, x.file);
      if o == Writing { DeficitRuns(s, xs[1..]); }
    }
  }

  /** Over a run that begins by sending the header block whole: the response ends complete and right exactly
      when the page went out whole in that first event. */
  lemma {:induction false} PageRightIffWhole(r: Req, xs: seq<Answers>)
    requires Tracks(r) && !r.fromFile && !r.sent && r.content != [] && AllOk(|r.headers|, r.content, xs)
    requires xs != [] && xs[0].headers == Took(|r.headers|)
    ensures var (s, o) := Events(r, xs); (o == Reading && s.wire == Wanted(r)) <==> xs[0].page == Took(|r.content|)
  {
    var x := xs[0];
    assert AnswersOk(|r.headers|, r.content, x);
    if !x.page.Broken? {
      PageCountExact(r, x.page, x.file);
      var (s, o) := Event(r, x.headers, x.page, x.file);
      if o == Writing { DeficitRuns(s, xs[1..]); }
    }
  }

  /** A not-found response whose header block went out in parts, in the event that sends the rest of it: the
      count is full exactly when the page goes out whole after an uncut block, or when what had gone out before
      and the part of the page happen to add up to the whole response. */
  lemma {:induction false} CutPageExact(r: Req, b: SendAnswer, k: nat -> FileAnswer)
    requires !r.fromFile && !r.sent && r.headers != [] && r.content != [] && r.pos == 0
    requires r.nsend == r.off == |r.wire| && KernelOk(|r.content|, k) && AnswerOk(b, |r.content|) && !b.Broken?
    ensures var o := Event(r, Took(|r.headers|), b, k).1;
            o == Reading <==> if b == Took(|r.content|) then r.off == 0 else r.off + Count(b) == Total(r)
  {}
}
