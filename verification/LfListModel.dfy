/** The lock-free sorted list as an interleaved step machine: a heap of nodes whose `next` words carry
    a pointer and a mark bit, and any number of threads that each perform one access to shared memory
    per step.  Comparisons of locals and of the immutable keys ride along with the access before them. */
module LfListModel {
  import opened Types

  type Tid = nat
  type Addr = int

  const NULL: Addr := -1
  const HEAD: Addr := 0
  const TAIL: Addr := 1

  /** The contents of a `next` field: a pointer together with its low bit. */
  datatype Word = Word(ptr: Addr, mark: bool)

  /** A node is private to its creator until a CAS publishes it. */
  datatype Owner = Shared | Private(tid: Tid)

  datatype Node = Node(key: Int64, data: int, next: Word, owner: Owner)

  /** Memory only grows: a freed node is never handed out again. */
  type Heap = seq<Node>

  /** What a caller asks for, and the operation it becomes; an insert carries the node it allocated. */
  datatype Request = ReqInsert(k: Int64, d: int) | ReqDelete(k: Int64) | ReqSearch(k: Int64)
  datatype Op = Insert(node: Addr, key: Int64) | Delete(key: Int64) | Search(key: Int64)

  /** Done and Refused are the return values 0 and -1, Missing is a null node. */
  datatype Result = Nothing | Done | Refused | Found(at: Addr) | Missing

  /** The shared access a thread performs next. */
  datatype Pc =
    | Quiet(res: Result) // between operations, `res` is what the last one returned
    | ReadHead           // inner_search: read head->next
    | ReadNext           // inner_search: read t->next
    | CheckRight         // inner_search: is right_node marked by now?
    | Snip               // inner_search: CAS the marked run away
    | LinkNew            // insert: new_node->next = right_node
    | Publish            // insert: CAS new_node in
    | ReadRight          // delete: read right_node->next
    | MarkRight          // delete: CAS the mark
    | Unlink             // delete: CAS right_node away

  /** Locals of a thread; `t` is also `right_node`, and `cleanup` says that the running inner_search is
      the one a delete starts after its unlinking CAS failed. */
  datatype Thread = Thread(pc: Pc, op: Op, cleanup: bool, left: Addr, leftNext: Addr, t: Addr, rightNext: Addr)

  datatype State = State(heap: Heap, threads: seq<Thread>)

  function Valid(h: Heap, a: Addr): bool { 0 <= a < |h| }

  function Store(h: Heap, a: Addr, w: Word): Heap
    requires Valid(h, a)
  {
    h[a := h[a].(next := w)]
  }

  // ---- inner_search, the local code between two shared accesses ----

  /** inner_search returns `t` to the operation that called it. */
  function ReturnRight(h: Heap, th: Thread): Thread
    requires Valid(h, th.t)
  {
    var hit := th.t != TAIL && h[th.t].key == th.op.key;
    if th.cleanup then th.(pc := Quiet(Done))
    else match th.op
      case Insert(_, _) => if hit then th.(pc := Quiet(Refused)) else th.(pc := LinkNew)
      case Delete(_) => if hit then th.(pc := ReadRight) else th.(pc := Quiet(Refused))
      case Search(_) => th.(pc := Quiet(if hit then Found(th.t) else Missing))
  }

  /** After the traversal: compare left_node_next with right_node. */
  function AfterLoop(h: Heap, th: Thread): Thread
    requires Valid(h, th.t)
  {
    if th.leftNext != th.t then th.(pc := Snip)
    else if th.t != TAIL then th.(pc := CheckRight)
    else ReturnRight(h, th)
  }

  /** One body of the do-while loop: `w` was read from `cur->next`. */
  function Advance(h: Heap, th: Thread, cur: Addr, w: Word): Thread
    requires Valid(h, w.ptr)
  {
    var th1 := if w.mark then th else th.(left := cur, leftNext := w.ptr);
    var th2 := th1.(t := w.ptr);
    if w.ptr == TAIL then AfterLoop(h, th2) else th2.(pc := ReadNext)
  }

  // ---- the shared accesses ----

  /** Every pointer the next access follows is a real node. */
  ghost predicate Safe(h: Heap, th: Thread)
  {
    match th.pc
    case Quiet(_) => true
    case ReadHead => Valid(h, HEAD) && Valid(h, h[HEAD].next.ptr)
    case ReadNext => Valid(h, th.t) && (h[th.t].next.mark || h[th.t].key < th.op.key ==> Valid(h, h[th.t].next.ptr))
    case CheckRight => Valid(h, th.t)
    case Snip => Valid(h, th.left) && Valid(h, th.t)
    case LinkNew => th.op.Insert? && Valid(h, th.op.node)
    case Publish => th.op.Insert? && Valid(h, th.op.node) && Valid(h, th.left)
    case ReadRight => Valid(h, th.t)
    case MarkRight => Valid(h, th.t)
    case Unlink => Valid(h, th.left)
  }

  /** A CAS succeeds exactly when the word still has the expected pointer and no mark. */
  predicate Expect(h: Heap, a: Addr, p: Addr)
    requires Valid(h, a)
  {
    h[a].next == Word(p, false)
  }

  function AfterSnip(h: Heap, th: Thread): Thread
    requires Valid(h, th.t)
  {
    if th.t != TAIL then th.(pc := CheckRight) else ReturnRight(h, th)
  }

  /** The heap after a thread's next access. */
  ghost function HeapAfter(h: Heap, th: Thread): Heap
    requires Safe(h, th)
  {
    match th.pc
    case Snip => if Expect(h, th.left, th.leftNext) then Store(h, th.left, Word(th.t, false)) else h
    case LinkNew => Store(h, th.op.node, Word(th.t, false))
    case Publish =>
      if Expect(h, th.left, th.t)
      then var h1 := h[th.op.node := h[th.op.node].(owner := Shared)]; Store(h1, th.left, Word(th.op.node, false))
      else h
    case MarkRight => if Expect(h, th.t, th.rightNext) then Store(h, th.t, Word(th.rightNext, true)) else h
    case Unlink => if Expect(h, th.left, th.t) then Store(h, th.left, Word(th.rightNext, false)) else h
    case _ => h
  }

  /** The thread after its next access. */
  ghost function ThreadAfter(h: Heap, th: Thread): Thread
    requires Safe(h, th)
  {
    var again := th.(pc := ReadHead);
    match th.pc
    case Quiet(_) => th
    case ReadHead => Advance(h, th, HEAD, h[HEAD].next)
    case ReadNext =>
      var w := h[th.t].next;
      if w.mark || h[th.t].key < th.op.key then Advance(h, th, th.t, w) else AfterLoop(h, th)
    case CheckRight => if h[th.t].next.mark then again else ReturnRight(h, th)
    case Snip => if Expect(h, th.left, th.leftNext) then AfterSnip(h, th) else again
    case LinkNew => th.(pc := Publish)
    case Publish => if Expect(h, th.left, th.t) then th.(pc := Quiet(Done)) else again
    case ReadRight => if h[th.t].next.mark then again else th.(pc := MarkRight, rightNext := h[th.t].next.ptr)
    case MarkRight => if Expect(h, th.t, th.rightNext) then th.(pc := Unlink) else again
    case Unlink => if Expect(h, th.left, th.t) then th.(pc := Quiet(Done)) else again.(cleanup := true)
  }

  // ---- calls and interleaving ----

  function CallHeap(h: Heap, tid: Tid, req: Request): Heap {
    match req
    case ReqInsert(k, d) => h + [Node(k, d, Word(NULL, false), Private(tid))]
    case _ => h
  }

  function CallThread(h: Heap, th: Thread, req: Request): Thread {
    var op := match req
      case ReqInsert(k, _) => Insert(|h|, k)
      case ReqDelete(k) => Delete(k)
      case ReqSearch(k) => Search(k);
    th.(pc := ReadHead, op := op, cleanup := false)
  }

  /** Thread `tid` makes one step: it starts an operation, or performs its next access. */
  ghost predicate Next(s: State, tid: Tid, s': State)
  {
    && tid < |s.threads|
    && var th := s.threads[tid];
       if th.pc.Quiet?
       then exists req :: s' == State(CallHeap(s.heap, tid, req), s.threads[tid := CallThread(s.heap, th, req)])
       else Safe(s.heap, th) && s' == State(HeapAfter(s.heap, th), s.threads[tid := ThreadAfter(s.heap, th)])
  }

  /** lmvs_lflist_new, with every thread idle. */
  ghost predicate Init(s: State)
  {
    && s.heap == [Node(-0x8000_0000_0000_0000, 0, Word(TAIL, false), Shared),
                  Node(0x7fff_ffff_ffff_ffff, 0, Word(NULL, false), Shared)]
    && forall i :: 0 <= i < |s.threads| ==> s.threads[i].pc == Quiet(Nothing)
  }
}
