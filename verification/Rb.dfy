/** The sliding buffer over an array, and the receive loop that fills it. */
module Rb {
  import opened RbSpec

  /** One answer of recv. */
  datatype Recv = Bytes(data: seq<char>) | Again | Interrupted | Failed | Closed

  class Rb {
    var capacity: nat
    var dataLen: nat
    var seek: nat
    var buffer: array<char>

    ghost predicate Valid()
      reads this
    {
      buffer.Length == capacity && LayoutOk(Layout())
    }

    ghost function Layout(): Layout
      reads this
    {
      RbSpec.Layout(capacity, seek, dataLen)
    }

    ghost function Contents(): seq<char>
      requires Valid()
      reads this, buffer
    {
      buffer[seek..seek + dataLen]
    }

    constructor (size: nat)
      requires size <= MAX_BUFFER_LEN
      ensures Valid() && Contents() == [] && Layout() == RbSpec.Layout(size, 0, 0) && fresh(buffer)
    {
      capacity, dataLen, seek := size, 0, 0;
      buffer := new char[size];
    }

    static method Expand(size: nat) returns (b: array?<char>)
      ensures b == null <==> size > 5_242_880
      ensures b != null ==> fresh(b) && b.Length == size
    {
      if size > MAX_BUFFER_LEN {
        return null;
      }
      b := new char[size](_ => '\0');
    }

    /** memcpy into the buffer. */
    static method Copy(to: array<char>, at: nat, data: seq<char>)
      requires at + |data| <= to.Length
      modifies to
      ensures to[..at] == old(to[..at]) && to[at..at + |data|] == data
      ensures to[at + |data|..] == old(to[at + |data|..])
    {
      forall i | 0 <= i < |data| {
        to[at + i] := data[i];
      }
    }

    /** The old data to the front of a buffer, the new data behind it. */
    static method CopyTwo(to: array<char>, held: seq<char>, data: seq<char>)
      requires |held| + |data| <= to.Length
      modifies to
      ensures to[..|held| + |data|] == held + data
    {
      Copy(to, 0, held);
      assert to[..|held|] == held;
      Copy(to, |held|, data);
      assert to[..|held| + |data|] == to[..|held|] + to[|held|..|held| + |data|];
    }

    /** There is room behind the data. */
    method AppendBehind(data: seq<char>)
      requires Valid() && seek + dataLen + |data| <= capacity && 0 < |data| + dataLen
      modifies this`dataLen, buffer
      ensures Valid() && Contents() == old(Contents()) + data && dataLen == old(dataLen) + |data|
    {
      ghost var held, at := Contents(), seek + dataLen;
      assert held == buffer[..at][seek..];
      Copy(buffer, seek + dataLen, data);
      assert buffer[seek..at] == buffer[..at][seek..];
      dataLen := dataLen + |data|;
      assert Contents() == buffer[seek..at] + buffer[at..at + |data|];
    }

    /** There is room if the data moves to the front. */
    method AppendSliding(data: seq<char>)
      requires Valid() && dataLen + |data| <= capacity
      modifies this`dataLen, this`seek, buffer
      ensures Valid() && Contents() == old(Contents()) + data && dataLen == old(dataLen) + |data| && seek == 0
    {
      CopyTwo(buffer, buffer[seek..seek + dataLen], data);
      dataLen := dataLen + |data|;
      seek := 0;
    }

    /** There is room in a buffer twice the size, if that is not too large. */
    method AppendGrowing(data: seq<char>) returns (ok: bool)
      requires Valid() && (capacity * 2 <= MAX_BUFFER_LEN ==> dataLen + |data| <= capacity * 2)
      modifies this
      ensures Valid() && ok == (old(capacity) * 2 <= MAX_BUFFER_LEN)
      ensures !ok ==> Layout() == old(Layout()) && buffer == old(buffer)
      ensures ok ==> fresh(buffer) && Layout() == RbSpec.Layout(old(capacity) * 2, 0, old(dataLen) + |data|)
      ensures Contents() == if ok then old(Contents()) + data else old(Contents())
    {
      var newBuffer := Expand(capacity * 2);
      if newBuffer == null {
        return false;
      }
      CopyTwo(newBuffer, buffer[seek..seek + dataLen], data);
      capacity := capacity * 2;
      buffer := newBuffer;
      dataLen := dataLen + |data|;
      seek := 0;
      return true;
    }

    /** The bytes are queued at the end, or the buffer is full and nothing changes. */
    method Append(data: seq<char>) returns (ret: int)
      requires Valid() && InBounds(Layout(), |data|)
      modifies this, buffer
      ensures Valid() && (buffer == old(buffer) || fresh(buffer)) && Layout() == Appended(old(Layout()), |data|)
      ensures ret == if Rejects(old(Layout()), |data|) then -1 else 0
      ensures Contents() == if Rejects(old(Layout()), |data|) then old(Contents()) else old(Contents()) + data
    {
      if dataLen == 0 && seek == 0 {
        Copy(buffer, 0, data);
        dataLen := |data|;
      } else {
        var remain := capacity - dataLen;
        if remain >= |data| {
          if capacity - (seek + dataLen) >= |data| {
            AppendBehind(data);
          } else {
            AppendSliding(data);
          }
        } else {
          var ok := AppendGrowing(data);
          if !ok {
            return -1;
          }
        }
      }
      return 0;
    }

    /** Drops bytes from the front; asking for more than there are drops none and answers zero. */
    method Seek(len: nat) returns (left: nat)
      requires Valid()
      modifies this`dataLen, this`seek
      ensures Valid() && buffer == old(buffer) && Layout() == Advanced(old(Layout()), len)
      ensures Contents() == if len <= |old(Contents())| then old(Contents())[len..] else old(Contents())
      ensures left == if len <= |old(Contents())| then |Contents()| else 0
    {
      if len > dataLen {
        return 0;
      }
      dataLen := dataLen - len;
      if dataLen == 0 {
        seek := 0;
      } else {
        seek := seek + len;
      }
      return dataLen;
    }

    method Reset()
      requires Valid()
      modifies this`dataLen, this`seek
      ensures Valid() && buffer == old(buffer) && Contents() == [] && capacity == old(capacity)
    {
      dataLen, seek := 0, 0;
    }
  }

  /** The chunks recv delivers before its first other answer. */
  function Chunks(answers: seq<Recv>): seq<seq<char>> {
    if answers == [] || !answers[0].Bytes? then [] else [answers[0].data] + Chunks(answers[1..])
  }

  ghost predicate Sized(answers: seq<Recv>) {
    forall a :: a in answers && a.Bytes? ==> 0 < |a.data| <= READ_BUFFER_SIZE
  }

  lemma {:induction false} ReceivedStep(l: Layout, held: seq<char>, answers: seq<Recv>)
    requires answers != [] && answers[0].Bytes?
    ensures var c := answers[0].data;
            Received(l, held, Chunks(answers))
              == Received(Appended(l, |c|), if Rejects(l, |c|) then held else held + c, Chunks(answers[1..]))
    ensures |Chunks(answers)| == 1 + |Chunks(answers[1..])|
  {
    assert Chunks(answers)[1..] == Chunks(answers[1..]);
  }

  /** lmvs_sock_recv: append until recv has no more, whatever append answers. */
  method SockRecv(rb: Rb, answers: seq<Recv>) returns (nrecv: int)
    requires rb.Valid() && Rung(rb.Layout()) && Sized(answers)
    requires |Chunks(answers)| < |answers|
    modifies rb, rb.buffer
    ensures rb.Valid() && Rung(rb.Layout())
    ensures rb.Contents() == Received(old(rb.Layout()), old(rb.Contents()), Chunks(answers))
    ensures var last := answers[|Chunks(answers)|];
            nrecv == if last.Again? || last.Interrupted? then |rb.Contents()| else -1
  {
    var i := 0;
    ghost var all := Received(rb.Layout(), rb.Contents(), Chunks(answers));
    while answers[i].Bytes?
      invariant i <= |Chunks(answers)| < |answers| && rb.Valid() && Rung(rb.Layout())
      invariant rb.buffer == old(rb.buffer) || fresh(rb.buffer)
      invariant |Chunks(answers)| == i + |Chunks(answers[i..])|
      invariant all == Received(rb.Layout(), rb.Contents(), Chunks(answers[i..]))
      decreases |answers| - i
    {
      ghost var c, rest := answers[i].data, Chunks(answers[i + 1..]);
      assert all == Received(Appended(rb.Layout(), |c|), if Rejects(rb.Layout(), |c|) then rb.Contents() else rb.Contents() + c, rest)
             && |Chunks(answers[i..])| == 1 + |rest| by {
        ReceivedStep(rb.Layout(), rb.Contents(), answers[i..]);
        assert answers[i..][1..] == answers[i + 1..];
      }
      AppendExact(rb.Layout(), |c|);
      var _ := rb.Append(answers[i].data);
      i := i + 1;
    }
    return if answers[i].Again? || answers[i].Interrupted? then rb.dataLen else -1;
  }

  datatype ReadOutcome = Close | Wait | Answer

  /** The read branch of the event loop.  A wake-up that finds nothing and holds nothing closes the
      connection; a parsed request takes everything held with it. */
  method ReadEvent(rb: Rb, answers: seq<Recv>, parses: seq<char> -> bool) returns (o: ReadOutcome)
    requires rb.Valid() && Rung(rb.Layout()) && Sized(answers) && |Chunks(answers)| < |answers|
    modifies rb, rb.buffer
    ensures rb.Valid() && Rung(rb.Layout())
    ensures var held, last := Received(old(rb.Layout()), old(rb.Contents()), Chunks(answers)), answers[|Chunks(answers)|];
            && (o == Close <==> held == [] || !(last.Again? || last.Interrupted?))
            && (o == Answer <==> o != Close && parses(held))
            && rb.Contents() == if o == Answer then [] else held
  {
    var nrecv := SockRecv(rb, answers);
    if nrecv > 0 {
      if parses(rb.buffer[rb.seek..rb.seek + rb.dataLen]) {
        AdvanceExact(rb.Layout(), nrecv);
        var _ := rb.Seek(nrecv);
        return Answer;
      }
      return Wait;
    }
    return Close;
  }
}
