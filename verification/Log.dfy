/** The log: a hundred linked buffers updated in place, each critical section a method. */
module Log {
  import opened LogSpec

  class LogBuffer {
    var seek: nat
    var remain: nat
    const data: array<char>
    var next: LogBuffer?
    ghost var msgs: seq<Msg>

    ghost predicate Valid()
      reads this, data
    {
      && data.Length == BUFFER_SIZE && seek + remain == BUFFER_SIZE
      && data[..seek] == Flat(msgs)
    }

    constructor ()
      ensures Valid() && msgs == [] && fresh(data) && next == null
    {
      seek, remain, next, msgs := 0, BUFFER_SIZE, null, [];
      data := new char[BUFFER_SIZE];
    }

    method Append(msg: Msg)
      requires Valid() && |msg| <= remain
      modifies this`seek, this`remain, this`msgs, data
      ensures Valid() && msgs == old(msgs) + [msg]
    {
      forall i | 0 <= i < |msg| { data[seek + i] := msg[i]; }
      assert data[..seek + |msg|] == old(data[..seek]) + msg;
      FlatAppend(msgs, msg);
      seek := seek + |msg|;
      remain := remain - |msg|;
      msgs := msgs + [msg];
    }

    method Clear()
      requires Valid()
      modifies this`seek, this`remain, this`msgs
      ensures Valid() && msgs == []
    {
      seek := 0;
      remain := BUFFER_SIZE;
      msgs := [];
    }
  }

  ghost function Messages(bs: seq<LogBuffer>): seq<seq<Msg>>
    reads bs
  {
    seq(|bs|, i requires 0 <= i < |bs| reads bs => bs[i].msgs)
  }

  /** _create_log_buffers, the first loop. */
  method AllocateBuffers() returns (arr: array<LogBuffer?>, ghost ring: seq<LogBuffer>)
    ensures fresh(arr) && arr.Length == |ring| == N_ELEMENTS
    ensures forall i :: 0 <= i < N_ELEMENTS ==> arr[i] == ring[i] && fresh(ring[i]) && fresh(ring[i].data)
    ensures forall i :: 0 <= i < N_ELEMENTS ==> ring[i].Valid() && ring[i].msgs == []
    ensures forall i, j :: 0 <= i < j < N_ELEMENTS ==> ring[i] != ring[j] && ring[i].data != ring[j].data
  {
    arr := new LogBuffer?[N_ELEMENTS](_ => null);
    ring := [];
    var i := 0;
    while i < N_ELEMENTS
      invariant 0 <= i == |ring| <= N_ELEMENTS
      invariant forall k :: 0 <= k < i ==> arr[k] == ring[k] && fresh(ring[k]) && fresh(ring[k].data)
      invariant forall k :: 0 <= k < i ==> ring[k].Valid() && ring[k].msgs == []
      invariant forall j, k :: 0 <= j < k < i ==> ring[j] != ring[k] && ring[j].data != ring[k].data
    {
      var b := new LogBuffer();
      arr[i] := b;
      ring := ring + [b];
      i := i + 1;
    }
  }

  /** _create_log_buffers, the second loop: close the ring. */
  method LinkBuffers(arr: array<LogBuffer?>, ghost ring: seq<LogBuffer>)
    requires arr.Length == |ring| == N_ELEMENTS && forall i :: 0 <= i < N_ELEMENTS ==> arr[i] == ring[i]
    requires forall i, j :: 0 <= i < j < N_ELEMENTS ==> ring[i] != ring[j]
    modifies ring`next
    ensures forall i :: 0 <= i < N_ELEMENTS ==> ring[i].next == ring[Succ(i)]
  {
    arr[N_ELEMENTS - 1].next := arr[0];
    var i := 0;
    while i < N_ELEMENTS - 1
      invariant 0 <= i <= N_ELEMENTS - 1
      invariant forall k :: 0 <= k < i ==> ring[k].next == ring[k + 1]
      invariant ring[N_ELEMENTS - 1].next == ring[0]
    {
      arr[i].next := arr[i + 1];
      i := i + 1;
    }
  }

  class Log {
    const level: int
    var head: LogBuffer
    var tail: LogBuffer
    var file: seq<char>
    const buffers: array<LogBuffer?>
    ghost const ring: seq<LogBuffer>
    ghost var hi: nat
    ghost var ti: nat
    ghost var out: seq<Msg>

    ghost predicate RingShape()
      reads this, ring
    {
      && |ring| == N_ELEMENTS
      && (forall i, j :: 0 <= i < j < N_ELEMENTS ==> ring[i] != ring[j] && ring[i].data != ring[j].data)
      && (forall i :: 0 <= i < N_ELEMENTS ==> ring[i].next == ring[Succ(i)])
    }

    ghost predicate Valid()
      reads this, ring, set b <- ring :: b.data
    {
      && RingShape()
      && (forall i :: 0 <= i < N_ELEMENTS ==> ring[i].Valid())
      && hi < N_ELEMENTS && ti < N_ELEMENTS && head == ring[hi] && tail == ring[ti]
      && file == Flat(out)
    }

    ghost function View(): LogState
      reads this, ring
    {
      LogState(Messages(ring), hi, ti, out)
    }

    constructor (level: int)
      ensures Valid() && View() == Initial() && this.level == level
    {
      var arr, r := AllocateBuffers();
      LinkBuffers(arr, r);
      this.level := level;
      buffers, ring := arr, r;
      head, tail := arr[0], arr[0];
      file, out, hi, ti := [], [], 0, 0;
      new;
      assert View().bufs == Initial().bufs;
    }

    method AppendTail(msg: Msg)
      requires Valid() && Seek(View().bufs[ti]) + |msg| <= BUFFER_SIZE
      modifies tail`seek, tail`remain, tail`msgs, tail.data
      ensures Valid() && View() == old(View()).(bufs := old(View()).bufs[ti := old(View()).bufs[ti] + [msg]])
    {
      ghost var bufs := View().bufs;
      assert |Flat(tail.msgs)| == tail.seek;
      tail.Append(msg);
      assert View().bufs == bufs[ti := bufs[ti] + [msg]];
    }

    /** The locked part of lmvs_log_log. */
    method LogMessage(lvl: int, msg: Msg)
      requires Valid() && (lvl <= level ==> Fits(View(), msg))
      modifies this`tail, this`ti, ring, set b <- ring :: b.data
      ensures Valid() && View() == if lvl > level then old(View()) else Append(old(View()), msg)
    {
      if lvl > level { return; }
      assert |Flat(tail.msgs)| == tail.seek;
      if tail.remain > |msg| {
        AppendTail(msg);
      } else {
        tail := tail.next;
        ti := Succ(ti);
        AppendTail(msg);
      }
    }

    lemma {:induction false} FlatConcat(a: seq<Msg>, b: seq<Msg>)
      ensures Flat(a + b) == Flat(a) + Flat(b)
    {
      if b == [] {
        assert a + b == a;
      } else {
        assert (a + b)[..|a + b| - 1] == a + b[..|b| - 1];
        FlatConcat(a, b[..|b| - 1]);
      }
    }

    method ClearHead()
      requires Valid()
      modifies head`seek, head`remain, head`msgs
      ensures Valid() && View() == old(View()).(bufs := old(View()).bufs[hi := []])
    {
      ghost var bufs := View().bufs;
      head.Clear();
      assert View().bufs == bufs[hi := []];
    }

    method WriteHead()
      requires Valid()
      modifies this`file, this`out
      ensures Valid() && View() == old(View()).(out := old(View()).out + old(View()).bufs[hi])
    {
      file := file + head.data[..head.seek];
      FlatConcat(out, head.msgs);
      out := out + head.msgs;
    }

    /** The locked part of thread_flush. */
    method FlushHead()
      requires Valid()
      modifies this`file, this`out, this`head, this`hi, ring
      ensures Valid() && View() == Flush(old(View()))
    {
      WriteHead();
      ClearHead();
      AdvanceHead();
    }

    method AdvanceHead()
      requires Valid()
      modifies this`head, this`hi
      ensures Valid() && View() == old(View()).(head := Succ(old(View()).head))
    {
      head := head.next;
      hi := Succ(hi);
    }
  }
}
