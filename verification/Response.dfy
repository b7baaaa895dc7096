/** The response of one connection, its fields updated across write events. */
module Response {
  import opened ResponseSpec

  lemma {:induction false} SliceJoins(s: seq<char>, i: nat, j: nat, k: nat, w: seq<char>)
    requires i <= j <= k <= |s|
    ensures w + s[i..j] + s[j..k] == w + s[i..k]
  {
    assert s[i..j] + s[j..k] == s[i..k];
  }

  class Conn {
    var headers: seq<char>
    var content: seq<char>   // the file, or the not-found page
    var fromFile: bool
    var behind: nat -> char  // memory after the block pdata points into
    var isHeadersSent: bool
    var pdata: nat           // offset in the block being sent
    var filePos: nat
    var nsend: int
    var total: int
    var wire: seq<char>      // what the peer has been handed since the last reset

    ghost predicate Valid()
      reads this
    {
      filePos <= |content| && total == |headers| + |content|
    }

    ghost function View(): Req
      reads this
    {
      Req(headers, content, fromFile, behind, isHeadersSent, pdata, filePos, nsend, wire)
    }

    /** After parsing: a response is ready to go out. */
    constructor (headers: seq<char>, content: seq<char>, fromFile: bool, behind: nat -> char)
      requires headers != []
      ensures Valid() && Tracks(View()) && View() == Req(headers, content, fromFile, behind, false, 0, 0, 0, [])
    {
      this.headers, this.content, this.fromFile, this.behind := headers, content, fromFile, behind;
      isHeadersSent, pdata, filePos, nsend, wire := false, 0, 0, 0, [];
      total := |headers| + |content|;
    }

    /** lmvs_sock_send, from pdata in a block. */
    method Send(block: seq<char>, a: SendAnswer) returns (nsent: int)
      modifies this`wire
      ensures nsent == if a.Broken? then -1 else Count(a)
      ensures wire == if a.Broken? then old(wire) else old(wire) + Memory(block, behind, pdata, Count(a))
    {
      match a
      case Took(n) =>
        wire := wire + Memory(block, behind, pdata, n);
        return n;
      case Block =>
        assert Memory(block, behind, pdata, 0) == [];
        return 0;
      case Broken =>
        return -1;
    }

    /** The kernel moves n bytes of the file to the peer. */
    method Hand(n: nat, ghost p0: nat, ghost w: seq<char>)
      requires p0 <= filePos <= filePos + n <= |content| && wire == w + content[p0..filePos]
      modifies this`wire, this`filePos
      ensures filePos == old(filePos) + n && wire == w + content[p0..filePos]
    {
      SliceJoins(content, p0, filePos, filePos + n, w);
      wire := wire + content[filePos..filePos + n];
      filePos := filePos + n;
    }

    /** lmvs_sock_sendfile: until the length is reached, the kernel stops, or it fails. */
    method SendFile(k: nat -> FileAnswer) returns (ret: int)
      requires Valid() && KernelOk(|content|, k)
      modifies this`wire, this`filePos
      ensures Valid() && Transfer(filePos, ret) == ResponseSpec.SendFile(|content|, old(filePos), 0, k)
      ensures wire == old(wire) + content[old(filePos)..filePos]
    {
      var len := |content|;
      ghost var p0, goal := filePos, ResponseSpec.SendFile(len, filePos, 0, k);
      var nsent: nat := 0;
      var more := true;
      ret := 0;
      while more
        invariant p0 <= filePos <= len && wire == old(wire) + content[p0..filePos]
        invariant more ==> goal == ResponseSpec.SendFile(len, filePos, nsent, k)
        invariant !more ==> goal == Transfer(filePos, ret)
        decreases len - filePos, more
      {
        var answer := k(filePos);
        if answer.Copied? {
          Hand(answer.n, p0, old(wire));
          nsent := nsent + answer.n;
          more := nsent != len;
          ret := nsent;
        } else {
          ret := if answer.Again? || (answer.Eof? && answer.staleAgain) then nsent else -1;
          more := false;
        }
      }
    }

    /** The second half of lmvs_response. */
    method SendBody(headersNsend: nat, b: SendAnswer, k: nat -> FileAnswer) returns (ret: int)
      requires Valid() && KernelOk(|content|, k)
      modifies this`wire, this`filePos, this`pdata
      ensures Valid() && Reply(View(), ret) == Body(old(View()), headersNsend, b, k)
    {
      if !fromFile {
        var contentNsend := Send(content, b);
        if contentNsend == -1 {
          return -1;
        }
        if contentNsend < |content| {
          pdata := pdata + contentNsend;
          return contentNsend;
        }
        return contentNsend + headersNsend;
      } else {
        var contentNsend := SendFile(k);
        if contentNsend > 0 {
          return contentNsend + headersNsend;
        } else {
          return -1;
        }
      }
    }

    method Respond(a: SendAnswer, b: SendAnswer, k: nat -> FileAnswer) returns (ret: int)
      requires Valid() && KernelOk(|content|, k)
      modifies this`wire, this`filePos, this`isHeadersSent, this`pdata
      ensures Valid() && Reply(View(), ret) == ResponseSpec.Respond(old(View()), a, b, k)
    {
      var headersNsend := 0;
      if !isHeadersSent {
        headersNsend := Send(headers, a);
        if headersNsend == -1 {
          return -1;
        }
        if headersNsend < |headers| {
          pdata := pdata + headersNsend;
          return headersNsend;
        } else {
          isHeadersSent := true;
          pdata := 0;
        }
      }
      ret := SendBody(headersNsend, b, k);
    }

    /** lmvs_request_reset. */
    method Reset()
      modifies this
      ensures Valid() && headers == [] && content == [] && nsend == 0 && total == 0 && !isHeadersSent && pdata == 0 && wire == []
    {
      headers, content, isHeadersSent, pdata, filePos, nsend, total, wire := [], [], false, 0, 0, 0, 0, [];
    }

    /** The write branch of the loop.  `sent` is what had gone out when the branch ended. */
    method WriteEvent(a: SendAnswer, b: SendAnswer, k: nat -> FileAnswer) returns (o: Outcome, ghost sent: seq<char>)
      requires Valid() && KernelOk(|content|, k)
      modifies this
      ensures Valid() && o == Event(old(View()), a, b, k).1 && sent == Event(old(View()), a, b, k).0.wire
      ensures o == Writing ==> View() == Event(old(View()), a, b, k).0
      ensures o != Writing ==> headers == [] && content == [] && nsend == 0 && wire == []
    {
      var ret := Respond(a, b, k);
      o := Closed;
      if ret != -1 {
        nsend := nsend + ret;
        o := if nsend == total then Reading else Writing;
      }
      sent := wire;
      if o != Writing {
        Reset();
      }
    }
  }
}
