/** The event loop object: slot table, timer and connection count updated in place.  The kernel's part
    (epoll, accept) is the caller's. */
module El {
  import opened SockSetSpec
  import opened TimerSpec
  import ElSpec
  import S = SockSet
  import T = Timer

  class El {
    const maxConn: nat
    var curConn: int
    const sockset: S.SockSet
    const timer: T.Timer

    ghost function Repr(): set<object>
      reads this, timer
    {
      {this, sockset, timer} + (set s | s in sockset.socks) + timer.Cells()
    }

    ghost predicate Valid()
      reads Repr()
    {
      sockset.Valid() && timer.Valid() && sockset.maxConn == maxConn
    }

    ghost function View(): ElSpec.ElState
      reads Repr()
    {
      ElSpec.ElState(maxConn, curConn, sockset.View(), timer.View())
    }

    constructor (maxConn: nat, connectTimeout: nat, now: Clock)
      requires maxConn > 0
      ensures Valid() && View() == ElSpec.Initial(maxConn, connectTimeout, now)
      ensures fresh(Repr())
    {
      this.maxConn, curConn := maxConn, 0;
      sockset := new S.SockSet(maxConn, 0xab);
      timer := new T.Timer(connectTimeout, now);
    }

    // ---- one part changes, the other stays ----

    method TakeSlot(fd: int) returns (sid: Sid)
      requires Valid()
      modifies sockset, sockset.socks
      ensures Valid() && Repr() == old(Repr())
      ensures sid == Claim(old(View()).socks, fd).1 && View() == old(View()).(socks := Claim(old(View()).socks, fd).0)
    {
      sid := sockset.Put(fd);
    }

    method FreeSlot(sid: Sid)
      requires Valid()
      modifies sockset.socks
      ensures Valid() && Repr() == old(Repr()) && View() == old(View()).(socks := Release(old(View()).socks, sid))
    {
      sockset.ResetSock(sid);
    }

    method Watch(fd: int, sid: Sid)
      requires Valid()
      modifies timer
      ensures Valid() && fresh(Repr() - old(Repr()))
      ensures View() == old(View()).(timer := Insertion(old(View()).timer, fd, sid).0)
    {
      var _ := timer.Insert(fd, sid);
    }

    method Unwatch(sid: Sid)
      requires Valid()
      modifies timer
      ensures Valid() && Repr() <= old(Repr()) && View() == old(View()).(timer := Removal(old(View()).timer, sid))
    {
      timer.Remove(sid);
    }

    // ---- the loop's operations ----

    method AddConnection(fd: int) returns (ret: int)
      requires Valid()
      modifies Repr()
      ensures Valid() && (View(), ret) == ElSpec.AddConnection(old(View()), fd)
      ensures curConn == old(curConn) + 1 && ret == if old(curConn) > maxConn then -1 else 0
      ensures ret == -1 ==> View() == old(View()).(curConn := curConn)
      ensures fresh(Repr() - old(Repr()))
    {
      curConn := curConn + 1;
      assert Valid() && Repr() == old(Repr()) && View() == old(View()).(curConn := curConn);
      if curConn - 1 > maxConn {
        return -1;
      }
      var sid := TakeSlot(fd);
      Watch(fd, sid);
      return 0;
    }

    /** Both places where the loop closes a connection. */
    method CloseConnection(sid: Sid)
      requires Valid()
      modifies Repr()
      ensures Valid() && View() == ElSpec.CloseSid(old(View()), sid)
      ensures Repr() <= old(Repr())
    {
      FreeSlot(sid);
      Unwatch(sid);
      curConn := curConn - 1;
    }

    /** An event on which the connection is to be closed. */
    method CloseEvent(sid: Sid)
      requires Valid()
      modifies Repr()
      ensures Valid() && View() == ElSpec.Step(old(View()), ElSpec.Close(sid))
      ensures Repr() <= old(Repr())
    {
      CloseConnection(ElSpec.EventSid(sid));
    }

    method CheckTimeout(now: Clock)
      requires Valid()
      modifies Repr()
      ensures Valid() && View() == ElSpec.CheckTimeout(old(View()), now)
      ensures Repr() <= old(Repr())
    {
      var expiredWheel := timer.Turn(now);
      if expiredWheel > -1 {
        var keys := ElSpec.Ascending(ElSpec.Keys(timer.wheelsTbl[expiredWheel]));
        var head := 0;
        while head != |keys|
          invariant head <= |keys| && Valid() && Repr() <= old(Repr())
          invariant ElSpec.CloseAll(View(), keys[head..]) == ElSpec.CheckTimeout(old(View()), now)
        {
          assert keys[head..][1..] == keys[head + 1..];
          CloseConnection(keys[head]);
          head := head + 1;
        }
      }
    }
  }
}
