/** The timer with its fields updated in place.  The index holds cells, and an update writes through the
    cell it finds there. */
module Timer {
  import opened HashSpec
  import opened TimerSpec

  class Cell {
    var wheel: nat

    constructor (wheel: nat)
      ensures this.wheel == wheel
    {
      this.wheel := wheel;
    }
  }

  class Timer {
    const interval: nat
    var prevWheel: nat
    var currWheel: nat
    var currTime: Clock
    var whichWheelTbl: Table<Cell>
    var wheelsTbl: seq<Table<TimerNode>>

    ghost function Cells(): set<Cell>
      reads this
    {
      whichWheelTbl.entries.Values
    }

    /** No two ids share a cell. */
    ghost predicate Valid()
      reads this, Cells()
    {
      && (forall a, b :: a in whichWheelTbl.entries && b in whichWheelTbl.entries && a != b
            ==> whichWheelTbl.entries[a] != whichWheelTbl.entries[b])
      && Shape(View())
    }

    ghost function View(): TimerState
      reads this, Cells()
    {
      TimerState(interval, prevWheel, currWheel, currTime,
                 Table(map k | k in whichWheelTbl.entries :: whichWheelTbl.entries[k].wheel, whichWheelTbl.count),
                 wheelsTbl)
    }

    constructor (interval: nat, now: Clock)
      ensures Valid() && View() == New(interval, now) && fresh(Cells())
    {
      this.interval, prevWheel, currWheel, currTime := interval, interval, 0, now;
      whichWheelTbl, wheelsTbl := Empty(), seq(interval + 1, i => Empty());
    }

    /** The index entry of a new id. */
    method Register(sid: Sid, whichWheel: Cell)
      requires Valid() && sid !in whichWheelTbl.entries && whichWheel !in Cells() && whichWheel.wheel == prevWheel
      modifies this`whichWheelTbl
      ensures Valid() && View() == old(View()).(index := Put(old(View()).index, sid, prevWheel))
      ensures Cells() == old(Cells()) + {whichWheel}
    {
      whichWheelTbl := Put(whichWheelTbl, sid, whichWheel);
      assert View().index.entries == old(View().index.entries)[sid := prevWheel];
      assert whichWheelTbl.entries.Values == old(Cells()) + {whichWheel} by {
        assert whichWheelTbl.entries[sid] == whichWheel;
        forall k | k in old(whichWheelTbl.entries) ensures old(whichWheelTbl.entries)[k] in whichWheelTbl.entries.Values {
          assert whichWheelTbl.entries[k] == old(whichWheelTbl.entries)[k];
        }
      }
    }

    method Insert(fd: int, sid: Sid) returns (ret: int)
      requires Valid()
      modifies this
      ensures Valid() && (View(), ret) == Insertion(old(View()), fd, sid)
      ensures fresh(Cells() - old(Cells()))
    {
      var whichWheel := new Cell(prevWheel);
      if sid in whichWheelTbl.entries {
        assert View().index.entries == old(View().index.entries);
        return -1;
      }
      Register(sid, whichWheel);
      var node := TimerNode(fd, sid, interval);
      if sid in wheelsTbl[prevWheel].entries {
        return -1;
      }
      wheelsTbl := wheelsTbl[prevWheel := Put(wheelsTbl[prevWheel], sid, node)];
      assert View().index.entries == old(View()).index.entries[sid := prevWheel];
      return 0;
    }

    method Update(sid: Sid)
      requires Valid()
      modifies this, Cells()
      ensures Valid() && View() == Moved(old(View()), sid)
      ensures Cells() == old(Cells())
    {
      if sid !in whichWheelTbl.entries {
        return;
      }
      var whichWheel := whichWheelTbl.entries[sid];
      if whichWheel.wheel == prevWheel {
        return;
      }
      var w := whichWheel.wheel;
      assert w == View().index.entries[sid];
      if sid in wheelsTbl[w].entries {
        var node := wheelsTbl[w].entries[sid];
        wheelsTbl := wheelsTbl[w := Drop(wheelsTbl[w], sid)];
        whichWheel.wheel := currWheel;
        wheelsTbl := wheelsTbl[currWheel := Put(wheelsTbl[currWheel], sid, node)];
        assert View().index.entries == old(View().index.entries)[sid := currWheel];
      }
    }

    method Remove(sid: Sid)
      requires Valid()
      modifies this
      ensures Valid() && View() == Removal(old(View()), sid)
      ensures Cells() <= old(Cells())
    {
      if sid !in whichWheelTbl.entries {
        return;
      }
      var index := whichWheelTbl.entries[sid].wheel;
      assert index == View().index.entries[sid];
      if sid in wheelsTbl[index].entries {
        wheelsTbl := wheelsTbl[index := Drop(wheelsTbl[index], sid)];
        whichWheelTbl := Drop(whichWheelTbl, sid);
        assert View().index.entries == old(View().index.entries) - {sid};
      }
    }

    /** book_keeping: the wheel to expire, or -1. */
    method Turn(now: Clock) returns (ret: int)
      requires Valid()
      modifies this`currTime, this`prevWheel, this`currWheel
      ensures Valid() && (View(), ret) == BookKeeping(old(View()), now)
      ensures Cells() == old(Cells())
    {
      if Elapsed(now, currTime) < TICK {
        return -1;
      }
      currTime := now;
      prevWheel := currWheel;
      currWheel := currWheel + 1;
      if currWheel > interval {
        currWheel := 0;
      }
      assert View().index.entries == old(View().index.entries);
      if wheelsTbl[currWheel].count <= 0 {
        return -1;
      }
      return currWheel;
    }
  }
}
