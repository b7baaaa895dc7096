/** Where the bytes of a sliding buffer lie, and what receiving makes of them. */
module RbSpec {
  const MAX_BUFFER_LEN: nat := 1024 * 1024 * 5
  const READ_BUFFER_SIZE: nat := 4096
  const LIMIT: nat := 0x40_0000 // 4096 doubled as often as MAX_BUFFER_LEN allows

  datatype Layout = Layout(capacity: nat, seek: nat, len: nat)

  predicate LayoutOk(l: Layout) {
    l.seek + l.len <= l.capacity <= MAX_BUFFER_LEN && (l.len == 0 ==> l.seek == 0)
  }

  /** The append of n bytes is turned down: the buffer would have to grow past the maximum. */
  predicate Rejects(l: Layout, n: nat) {
    !(l.len == 0 && l.seek == 0) && l.capacity - l.len < n && l.capacity * 2 > MAX_BUFFER_LEN
  }

  /** The copies of the append stay inside the buffer they go to. */
  predicate InBounds(l: Layout, n: nat) {
    if l.len == 0 && l.seek == 0 then n <= l.capacity
    else l.capacity - l.len < n && !Rejects(l, n) ==> l.len + n <= l.capacity * 2
  }

  function Appended(l: Layout, n: nat): Layout {
    if l.len == 0 && l.seek == 0 then l.(len := n)
    else if l.capacity - l.len >= n then
      if l.capacity - (l.seek + l.len) >= n then l.(len := l.len + n) else l.(len := l.len + n, seek := 0)
    else if Rejects(l, n) then l
    else Layout(l.capacity * 2, 0, l.len + n)
  }

  function Advanced(l: Layout, n: nat): Layout {
    if n > l.len then l else if n == l.len then l.(len := 0, seek := 0) else l.(len := l.len - n, seek := l.seek + n)
  }

  // ---- buffers that start at 4096 bytes and receive at most 4096 at a time ----

  /** k doublings of the read buffer. */
  ghost function Doubled(k: nat): nat { if k == 0 then READ_BUFFER_SIZE else 2 * Doubled(k - 1) }

  ghost predicate Ladder(capacity: nat) { exists k: nat :: capacity == Doubled(k) }

  ghost predicate Rung(l: Layout) { LayoutOk(l) && Ladder(l.capacity) }

  lemma {:induction false} DoubledGrows(j: nat, k: nat)
    requires j <= k
    ensures Doubled(j) <= Doubled(k)
  {
    if j < k { DoubledGrows(j, k - 1); }
  }

  lemma {:induction false} TenDoublings()
    ensures Doubled(10) == LIMIT
  {
    assert Doubled(4) == 16 * READ_BUFFER_SIZE;
    assert Doubled(7) == 8 * Doubled(4);
  }

  /** The ladder stops at 4 MiB, although the maximum is 5 MiB. */
  lemma {:induction false} LadderStops(c: nat)
    requires Ladder(c) && c <= MAX_BUFFER_LEN
    ensures 4096 <= c <= 4_194_304 && (c == 4_194_304 || c * 2 <= 4_194_304) && Ladder(c * 2)
  {
    TenDoublings();
    var k: nat :| c == Doubled(k);
    DoubledGrows(0, k);
    if k >= 11 { DoubledGrows(11, k); }
    if k <= 9 { DoubledGrows(k + 1, 10); }
    assert c * 2 == Doubled(k + 1);
  }

  /** A chunk of the size that recv hands over is copied within bounds, and is accepted exactly when the
      buffer then holds no more than 4 MiB. */
  lemma {:induction false} AppendExact(l: Layout, n: nat)
    requires Rung(l) && n <= 4096
    ensures InBounds(l, n) && Rung(Appended(l, n))
    ensures Rejects(l, n) <==> l.len + n > 4_194_304
    ensures !Rejects(l, n) ==> Appended(l, n).len == l.len + n
    ensures Rejects(l, n) ==> Appended(l, n) == l
    ensures Appended(l, n).capacity == if !Rejects(l, n) && l.len + n > l.capacity then 2 * l.capacity else l.capacity
    ensures Appended(l, n).seek == if Rejects(l, n) || l.seek + l.len + n <= l.capacity then l.seek else 0
  {
    LadderStops(l.capacity);
  }

  lemma {:induction false} AdvanceExact(l: Layout, n: nat)
    requires Rung(l)
    ensures Rung(Advanced(l, n)) && Advanced(l, n).len == if n > l.len then l.len else l.len - n
    ensures Advanced(l, n).capacity == l.capacity
    ensures Advanced(l, n).seek == if n > l.len then l.seek else if n == l.len then 0 else l.seek + n
  {}

  // ---- receiving ----

  /** The bytes held after the chunks: those turned down are lost. */
  function Received(l: Layout, held: seq<char>, chunks: seq<seq<char>>): seq<char>
    decreases |chunks|
  {
    if chunks == [] then held
    else Received(Appended(l, |chunks[0]|), if Rejects(l, |chunks[0]|) then held else held + chunks[0], chunks[1..])
  }

  function LayoutAfter(l: Layout, chunks: seq<seq<char>>): Layout
    decreases |chunks|
  {
    if chunks == [] then l else LayoutAfter(Appended(l, |chunks[0]|), chunks[1..])
  }

  function Joined(chunks: seq<seq<char>>): seq<char> {
    if chunks == [] then [] else chunks[0] + Joined(chunks[1..])
  }

  lemma {:induction false} ReceivedLength(l: Layout, held: seq<char>, chunks: seq<seq<char>>)
    requires Rung(l) && |held| == l.len && forall c :: c in chunks ==> |c| <= 4096
    ensures |Received(l, held, chunks)| <= 4_194_304 && |Received(l, held, chunks)| <= |held| + |Joined(chunks)|
    ensures Rung(LayoutAfter(l, chunks)) && LayoutAfter(l, chunks).len == |Received(l, held, chunks)|
    decreases |chunks|
  {
    if chunks == [] {
      LadderStops(l.capacity);
    } else {
      var c := chunks[0];
      AppendExact(l, |c|);
      ReceivedLength(Appended(l, |c|), if Rejects(l, |c|) then held else held + c, chunks[1..]);
    }
  }

  /** Chunk by chunk: one that brings the length past 4 MiB is dropped, and those behind it are tried all the
      same. */
  lemma {:induction false} ReceivedChunk(l: Layout, held: seq<char>, c: seq<char>, rest: seq<seq<char>>)
    requires Rung(l) && |held| == l.len && |c| <= 4096
    ensures Rung(Appended(l, |c|))
    ensures Received(l, held, []) == held
    ensures |held| + |c| > 4_194_304 ==> Received(l, held, [c] + rest) == Received(l, held, rest)
    ensures |held| + |c| <= 4_194_304 ==>
              Received(l, held, [c] + rest) == Received(Appended(l, |c|), held + c, rest) && Appended(l, |c|).len == |held + c|
  {
    AppendExact(l, |c|);
    assert ([c] + rest)[1..] == rest;
  }

  /** Nothing is lost exactly when all of it fits into 4 MiB. */
  lemma {:induction false} ReceivedExact(l: Layout, held: seq<char>, chunks: seq<seq<char>>)
    requires Rung(l) && |held| == l.len && forall c :: c in chunks ==> |c| <= 4096
    ensures Received(l, held, chunks) == held + Joined(chunks) <==> |held| + |Joined(chunks)| <= 4_194_304
    decreases |chunks|
  {
    ReceivedLength(l, held, chunks);
    if chunks == [] {
      assert held + [] == held;
    } else {
      var c := chunks[0];
      AppendExact(l, |c|);
      if !Rejects(l, |c|) {
        ReceivedExact(Appended(l, |c|), held + c, chunks[1..]);
        assert held + c + Joined(chunks[1..]) == held + Joined(chunks);
      }
    }
  }
}
