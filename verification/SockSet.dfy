/** The slot table with its sockets updated in place. */
module SockSet {
  import opened SockSetSpec

  class Sock {
    var fd: int
    var sid: Sid32

    constructor ()
      ensures fd == 0 && sid == 0
    {
      fd, sid := 0, 0;
    }
  }

  class SockSet {
    const maxConn: nat
    const startSid: Sid32
    const socks: seq<Sock>
    var currSid: Sid32

    /** Every slot has a socket of its own. */
    ghost predicate Valid() {
      maxConn > 0 && |socks| == maxConn && forall i, j :: 0 <= i < j < |socks| ==> socks[i] != socks[j]
    }

    ghost function Slots(): (r: seq<Slot>)
      reads socks
      ensures |r| == |socks| && forall i :: 0 <= i < |socks| ==> r[i] == Slot(socks[i].sid, socks[i].fd)
    {
      seq(|socks|, i requires 0 <= i < |socks| reads socks => Slot(socks[i].sid, socks[i].fd))
    }

    ghost function View(): SetState
      reads this, socks
    {
      SetState(startSid, currSid, Slots())
    }

    constructor (maxConn: nat, startSid: Sid32)
      requires maxConn > 0
      ensures Valid() && this.maxConn == maxConn && fresh(socks)
      ensures View() == NewSet(startSid, maxConn)
    {
      var row: seq<Sock> := [];
      while |row| < maxConn
        invariant |row| <= maxConn && fresh(row)
        invariant forall i, j :: 0 <= i < j < |row| ==> row[i] != row[j]
        invariant forall i :: 0 <= i < |row| ==> row[i].sid == 0 && row[i].fd == 0
      {
        var sock := new Sock();
        row := row + [sock];
      }
      this.maxConn, this.startSid, currSid, socks := maxConn, startSid, startSid, row;
    }

    method SockId() returns (sid: Sid32)
      modifies this`currSid
      ensures sid == currSid == Next(startSid, old(currSid))
    {
      currSid := if currSid + 1 == 0x1_0000_0000 then 0 else currSid + 1;
      if currSid == WRAP {
        currSid := startSid;
      }
      return currSid;
    }

    /** The slot of the id, whoever holds it now. */
    method Get(sid: Sid32) returns (sock: Sock)
      requires Valid()
      ensures sock == socks[SlotOf(sid, maxConn)] && Slots()[SlotOf(sid, maxConn)] == Slot(sock.sid, sock.fd)
    {
      SlotIsRemainder(sid, maxConn);
      return socks[sid % maxConn];
    }

    /** The probe loop: the next id whose slot is free, or the last one tried. */
    method Probe() returns (sid: Sid32, sock: Sock)
      requires Valid()
      modifies this`currSid
      ensures sid == currSid == Chosen(old(View())) && sock == socks[SlotOf(sid, maxConn)]
    {
      var count: int := maxConn;
      sid := SockId();
      sock := Get(sid);
      var more := sock.sid != 0;
      if more {
        count := count - 1;
        more := count > 0;
      }
      while more
        invariant sid == currSid && sock == socks[SlotOf(sid, maxConn)]
        invariant more ==> count > 0 && sock.sid != 0
        invariant Chosen(old(View())) == if more then Settle(startSid, Slots(), Next(startSid, sid), count) else sid
        decreases count, more
      {
        sid := SockId();
        sock := Get(sid);
        more := sock.sid != 0;
        if more {
          count := count - 1;
          more := count > 0;
        }
      }
    }

    method Put(fd: int) returns (sid: Sid32)
      requires Valid()
      modifies this`currSid, socks
      ensures Valid() && (View(), sid) == Claim(old(View()), fd)
    {
      var sock;
      sid, sock := Probe();
      sock.sid := sid;
      sock.fd := fd;
      assert Slots() == old(Slots())[SlotOf(sid, maxConn) := Slot(sid, fd)];
    }

    method ResetSock(sid: Sid32)
      requires Valid()
      modifies socks
      ensures Valid() && View() == Release(old(View()), sid)
    {
      var sock := Get(sid);
      if sock.sid == sid {
        sock.sid := 0;
        assert Slots() == old(Slots())[SlotOf(sid, maxConn) := Slot(0, sock.fd)];
      } else {
        assert Slots() == old(Slots());
      }
    }
  }
}
