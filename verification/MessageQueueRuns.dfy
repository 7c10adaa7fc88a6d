/** All interleavings of the threads that use one message queue.

  A thread's call is cut at the points where it holds no lock: taking a node, copying with
  interrupts enabled, linking or returning the node, waiting, and running again after a
  wakeup. A run is any sequence of such steps of any threads, with timeouts and resets.
 */
module MessageQueueRuns {
  import opened Seqs
  import opened MessageQueue

  type Byte = bv8
  type Message = seq<Byte>
  type Tid = nat

  datatype Pc =
    | Idle
    | Filling(node: Node, data: Message, urgent: bool)   // owns a node, nothing copied in yet
    | Filled(node: Node, data: Message, urgent: bool)    // copied in, not linked yet
    | Emptying(node: Node, want: nat, popped: Message)   // unlinked, nothing copied out yet
    | Emptied(node: Node)                                // copied out, node not returned yet
    | WaitSend(data: Message)                            // on the senders' wait list
    | RetrySend(data: Message)                           // woken, has not run yet
    | WaitRecv(want: nat)                                // on the receivers' wait list
    | RetryRecv(want: nat)                               // woken, has not run yet
  {
    // The thread owns a node.
    predicate Busy() {
      Filling? || Filled? || Emptying? || Emptied?
    }
  }

  datatype State = State(
    msgSize: nat,
    mem: seq<Message>,        // the payload of every node
    lists: Lists,
    entry: nat,
    pc: map<Tid, Pc>,         // a thread that is not listed is idle
    sendWait: seq<Tid>,
    recvWait: seq<Tid>)
  {
    function Pc(t: Tid): Pc {
      if t in pc then pc[t] else Idle
    }

    // The messages in the queue, which is all that matters to a caller.
    function Deque(): seq<Message>
      requires forall i :: 0 <= i < |lists.queue| ==> lists.queue[i] < |mem|
    {
      seq(|lists.queue|, i requires 0 <= i < |lists.queue| => mem[lists.queue[i]])
    }
  }

  // block: the caller is ready to wait; pos: where its priority puts it in the wait list.
  datatype Action =
    | Send(t: Tid, data: Message, urgent: bool, block: bool, pos: nat)
    | SendAgain(t: Tid, block: bool, pos: nat)
    | CopyIn(t: Tid)
    | Link(t: Tid)
    | Recv(t: Tid, want: nat, block: bool, pos: nat)
    | RecvAgain(t: Tid, block: bool, pos: nat)
    | CopyOut(t: Tid)
    | Return(t: Tid)
    | Timeout(t: Tid)
    | Reset

  // What a step does to the queue as callers see it.
  datatype Event =
    | Pushed(msg: Message)
    | PushedFirst(msg: Message)
    | Popped(msg: Message)
    | Cleared
    | Nothing

  function Insert(ts: seq<Tid>, pos: nat, t: Tid): seq<Tid> {
    InsertAt(ts, if pos < |ts| then pos else |ts|, t)
  }

  /* ------------------------------- the steps ------------------------------- */

  // One round of the loop at the head of a send: take a node, wait, or give up.
  function TrySend(s: State, t: Tid, data: Message, urgent: bool, block: bool, pos: nat): State {
    if s.lists.free != [] then
      s.(lists := Grab(s.lists), pc := s.pc[t := Filling(s.lists.free[0], data, urgent)])
    else if block && !urgent then
      s.(sendWait := Insert(s.sendWait, pos, t), pc := s.pc[t := WaitSend(data)])
    else
      s.(pc := s.pc[t := Idle])
  }

  function TryRecv(s: State, t: Tid, want: nat, block: bool, pos: nat): State {
    if s.entry > 0 && s.lists.queue != [] && s.lists.queue[0] < |s.mem| then
      var n := s.lists.queue[0];
      s.(lists := Take(s.lists), entry := s.entry - 1, pc := s.pc[t := Emptying(n, want, s.mem[n])])
    else if block then
      s.(recvWait := Insert(s.recvWait, pos, t), pc := s.pc[t := WaitRecv(want)])
    else
      s.(pc := s.pc[t := Idle])
  }

  // The first waiter leaves the list and becomes ready.
  function WakeReceiver(s: State): State {
    if s.recvWait == [] then s
    else
      var t := s.recvWait[0];
      s.(recvWait := s.recvWait[1..], pc := s.pc[t := if s.Pc(t).WaitRecv? then RetryRecv(s.Pc(t).want) else s.Pc(t)])
  }

  function WakeSender(s: State): State {
    if s.sendWait == [] then s
    else
      var t := s.sendWait[0];
      s.(sendWait := s.sendWait[1..], pc := s.pc[t := if s.Pc(t).WaitSend? then RetrySend(s.Pc(t).data) else s.Pc(t)])
  }

  // The buffer replaces the first bytes of the node; the bytes behind it stay.
  function Overwrite(was: Message, data: Message): Message {
    if |data| <= |was| then data + was[|data|..] else was
  }

  function Apply(s: State, a: Action): State {
    match a
    case Send(t, data, urgent, block, pos) =>
      if s.Pc(t).Idle? && |data| <= s.msgSize then TrySend(s, t, data, urgent, block, pos) else s
    case SendAgain(t, block, pos) =>
      if s.Pc(t).RetrySend? then TrySend(s, t, s.Pc(t).data, false, block, pos) else s
    case CopyIn(t) =>
      if s.Pc(t).Filling? && s.Pc(t).node < |s.mem| then
        var Filling(n, data, urgent) := s.Pc(t);
        s.(mem := s.mem[n := Overwrite(s.mem[n], data)], pc := s.pc[t := Filled(n, data, urgent)])
      else s
    case Link(t) =>
      if s.Pc(t).Filled? then
        var Filled(n, _, urgent) := s.Pc(t);
        var s1 := s.(lists := if urgent then LinkFirst(s.lists, n) else LinkLast(s.lists, n),
                     entry := s.entry + 1, pc := s.pc[t := Idle]);
        WakeReceiver(s1)
      else s
    case Recv(t, want, block, pos) =>
      if s.Pc(t).Idle? then TryRecv(s, t, want, block, pos) else s
    case RecvAgain(t, block, pos) =>
      if s.Pc(t).RetryRecv? then TryRecv(s, t, s.Pc(t).want, block, pos) else s
    case CopyOut(t) =>
      if s.Pc(t).Emptying? then s.(pc := s.pc[t := Emptied(s.Pc(t).node)]) else s
    case Return(t) =>
      if s.Pc(t).Emptied? then
        WakeSender(s.(lists := GiveBack(s.lists, s.Pc(t).node), pc := s.pc[t := Idle]))
      else s
    case Timeout(t) =>
      if s.Pc(t).WaitSend? then s.(sendWait := Without(s.sendWait, t), pc := s.pc[t := Idle])
      else if s.Pc(t).WaitRecv? then s.(recvWait := Without(s.recvWait, t), pc := s.pc[t := Idle])
      else s
    case Reset =>
      s.(lists := Flush(s.lists), entry := 0, sendWait := [], recvWait := [],
         pc := map t | t in s.pc && !s.pc[t].WaitSend? && !s.pc[t].WaitRecv? :: s.pc[t])
  }

  // What CopyOut puts into the receiver's buffer.
  function Delivered(s: State, t: Tid): Message
    requires s.Pc(t).Emptying? && s.Pc(t).node < |s.mem|
  {
    var m := s.mem[s.Pc(t).node];
    if s.Pc(t).want < |m| then m[..s.Pc(t).want] else m
  }

  function Observe(s: State, a: Action): Event {
    match a
    case Link(t) =>
      if s.Pc(t).Filled? && s.Pc(t).node < |s.mem| then
        var m := s.mem[s.Pc(t).node];
        if s.Pc(t).urgent then PushedFirst(m) else Pushed(m)
      else Nothing
    case Recv(t, _, _, _) =>
      if s.Pc(t).Idle? && s.lists.queue != [] && s.lists.queue[0] < |s.mem| then Popped(s.mem[s.lists.queue[0]]) else Nothing
    case RecvAgain(t, _, _) =>
      if s.Pc(t).RetryRecv? && s.lists.queue != [] && s.lists.queue[0] < |s.mem| then Popped(s.mem[s.lists.queue[0]]) else Nothing
    case Reset => Cleared
    case _ => Nothing
  }

  function Init(max: nat, msgSize: nat, mem: seq<Message>): State {
    State(msgSize, mem, AllFree(max), 0, map[], [], [])
  }

  function Run(s: State, steps: seq<Action>): State
    decreases |steps|
  {
    if steps == [] then s else Apply(Run(s, steps[..|steps| - 1]), steps[|steps| - 1])
  }

  /* ------------------------------- the invariant ------------------------------- */

  // The node is in neither list.
  ghost predicate Outside(s: State, n: Node) {
    n < |s.mem| && n !in s.lists.free && n !in s.lists.queue
  }

  ghost predicate Held(s: State, n: Node) {
    exists t: Tid :: s.Pc(t).Busy() && s.Pc(t).node == n
  }

  // Every node is free, queued or in the hands of one thread.
  ghost predicate NodesOk(s: State) {
    && Apart(s.lists)
    && (forall i :: 0 <= i < |s.lists.free| ==> s.lists.free[i] < |s.mem|)
    && (forall i :: 0 <= i < |s.lists.queue| ==> s.lists.queue[i] < |s.mem|)
    && (forall t: Tid :: s.Pc(t).Busy() ==> Outside(s, s.Pc(t).node))
    && (forall t: Tid, u: Tid :: t != u && s.Pc(t).Busy() && s.Pc(u).Busy() ==> s.Pc(t).node != s.Pc(u).node)
    && (forall n: Node :: Outside(s, n) ==> Held(s, n))
    && s.entry == |s.lists.queue|
  }

  // The bytes in a node are what its owner thinks they are.
  ghost predicate PcData(msgSize: nat, mem: seq<Message>, pc: Pc) {
    match pc
    case Filling(_, data, _) => |data| <= msgSize
    case Filled(n, data, _) => n < |mem| && data <= mem[n]
    case Emptying(n, _, popped) => n < |mem| && mem[n] == popped
    case WaitSend(data) => |data| <= msgSize
    case RetrySend(data) => |data| <= msgSize
    case _ => true
  }

  ghost predicate DataOk(s: State) {
    && (forall i :: 0 <= i < |s.mem| ==> |s.mem[i]| == s.msgSize)
    && (forall t: Tid :: PcData(s.msgSize, s.mem, s.Pc(t)))
  }

  // The wait lists hold exactly the waiting threads, each once.
  ghost predicate WaitOk(s: State) {
    && Distinct(s.sendWait)
    && Distinct(s.recvWait)
    && (forall t: Tid :: t in s.sendWait <==> s.Pc(t).WaitSend?)
    && (forall t: Tid :: t in s.recvWait <==> s.Pc(t).WaitRecv?)
  }

  ghost function WokenSenders(s: State): set<Tid> {
    set t | t in s.pc && s.pc[t].RetrySend?
  }

  ghost function WokenReceivers(s: State): set<Tid> {
    set t | t in s.pc && s.pc[t].RetryRecv?
  }

  // No lost wakeup: while threads wait, every node they could have is spoken for by a
  // thread that has been woken and not run yet.
  ghost predicate WakeOk(s: State) {
    && (s.sendWait != [] ==> |s.lists.free| <= |WokenSenders(s)|)
    && (s.recvWait != [] ==> |s.lists.queue| <= |WokenReceivers(s)|)
  }

  ghost predicate Inv(s: State) {
    NodesOk(s) && DataOk(s) && WaitOk(s) && WakeOk(s)
  }

  lemma InitInv(max: nat, msgSize: nat, mem: seq<Message>)
    requires |mem| == max && forall i :: 0 <= i < max ==> |mem[i]| == msgSize
    ensures Inv(Init(max, msgSize, mem))
  {
    var s := Init(max, msgSize, mem);
    forall n: Node | n < |s.mem|
      ensures n in s.lists.free
    {
      assert s.lists.free[max - 1 - n] == n;
    }
  }

  /* ---- nodes ---- */

  // Thread t moved on and, in doing so, gave up the node it had or got a node that had been
  // in one of the lists; everything else is as it was.
  lemma OwnersAfterMove(s: State, s': State, t: Tid)
    requires NodesOk(s)
    requires |s'.mem| == |s.mem| && Apart(s'.lists) && s'.entry == |s'.lists.queue|
    requires forall i :: 0 <= i < |s'.lists.free| ==> s'.lists.free[i] < |s'.mem|
    requires forall i :: 0 <= i < |s'.lists.queue| ==> s'.lists.queue[i] < |s'.mem|
    requires forall u: Tid :: u != t && (s.Pc(u).Busy() || s'.Pc(u).Busy()) ==> s'.Pc(u).Busy() && s.Pc(u).Busy() && s'.Pc(u).node == s.Pc(u).node
    requires s'.Pc(t).Busy() ==> Outside(s', s'.Pc(t).node)
    requires forall n: Node :: Outside(s', n) ==> Outside(s, n) || (s'.Pc(t).Busy() && s'.Pc(t).node == n)
    requires forall n: Node :: Outside(s, n) ==> Outside(s', n) || (s.Pc(t).Busy() && s.Pc(t).node == n)
    requires s.Pc(t).Busy() && s'.Pc(t).Busy() ==> s.Pc(t).node == s'.Pc(t).node
    requires s.Pc(t).Busy() && !s'.Pc(t).Busy() ==> !Outside(s', s.Pc(t).node)
    requires !s.Pc(t).Busy() && s'.Pc(t).Busy() ==> !Outside(s, s'.Pc(t).node)
    ensures NodesOk(s')
  {
    forall u: Tid | s'.Pc(u).Busy()
      ensures Outside(s', s'.Pc(u).node)
    {
      if u != t {
        assert Outside(s, s.Pc(u).node);
      }
    }
    forall n: Node | Outside(s', n)
      ensures Held(s', n)
    {
      if Outside(s, n) && !(s'.Pc(t).Busy() && s'.Pc(t).node == n) {
        assert Held(s, n);
        var u: Tid :| s.Pc(u).Busy() && s.Pc(u).node == n;
        assert u != t;
        assert s'.Pc(u).Busy() && s'.Pc(u).node == n;
      }
    }
  }

  // Who is where after each list operation.
  lemma GrabMembers(l: Lists)
    requires Apart(l) && l.free != []
    ensures
      var m := Grab(l);
      && Apart(m) && l.free[0] !in m.free && l.free[0] !in m.queue
      && forall x: Node :: x in l.free <==> x == l.free[0] || x in m.free
  {
    assert l.free == [l.free[0]] + l.free[1..];
  }

  lemma TakeMembers(l: Lists)
    requires Apart(l) && l.queue != []
    ensures
      var m := Take(l);
      && Apart(m) && l.queue[0] !in m.free && l.queue[0] !in m.queue
      && forall x: Node :: x in l.queue <==> x == l.queue[0] || x in m.queue
  {
    assert l.queue == [l.queue[0]] + l.queue[1..];
  }

  lemma AddMembers(l: Lists, n: Node)
    requires Apart(l) && n !in l.free && n !in l.queue
    ensures Apart(LinkLast(l, n))
    ensures Apart(LinkFirst(l, n))
    ensures Apart(GiveBack(l, n))
  {
  }

  lemma {:induction false} FlushMembers(l: Lists)
    requires Apart(l)
    ensures Apart(Flush(l)) && Flush(l).queue == []
    ensures forall x: Node :: x in Flush(l).free <==> x in l.free || x in l.queue
    decreases |l.queue|
  {
    if l.queue != [] {
      TakeMembers(l);
      AddMembers(Take(l), l.queue[0]);
      FlushMembers(GiveBack(Take(l), l.queue[0]));
    }
  }

  lemma TrySendNodes(s: State, t: Tid, data: Message, urgent: bool, block: bool, pos: nat)
    requires NodesOk(s) && (s.Pc(t).Idle? || s.Pc(t).RetrySend?)
    ensures NodesOk(TrySend(s, t, data, urgent, block, pos))
  {
    if s.lists.free != [] {
      GrabMembers(s.lists);
    }
    OwnersAfterMove(s, TrySend(s, t, data, urgent, block, pos), t);
  }

  lemma TryRecvNodes(s: State, t: Tid, want: nat, block: bool, pos: nat)
    requires NodesOk(s) && (s.Pc(t).Idle? || s.Pc(t).RetryRecv?)
    ensures NodesOk(TryRecv(s, t, want, block, pos))
  {
    if s.lists.queue != [] {
      TakeMembers(s.lists);
    }
    OwnersAfterMove(s, TryRecv(s, t, want, block, pos), t);
  }

  lemma LinkNodes(s: State, t: Tid)
    requires NodesOk(s) && WaitOk(s)
    ensures NodesOk(Apply(s, Link(t)))
  {
    if s.Pc(t).Filled? {
      assert Outside(s, s.Pc(t).node);
      AddMembers(s.lists, s.Pc(t).node);
      OwnersAfterMove(s, Apply(s, Link(t)), t);
    }
  }

  lemma ReturnNodes(s: State, t: Tid)
    requires NodesOk(s) && WaitOk(s)
    ensures NodesOk(Apply(s, Return(t)))
  {
    if s.Pc(t).Emptied? {
      assert Outside(s, s.Pc(t).node);
      AddMembers(s.lists, s.Pc(t).node);
      OwnersAfterMove(s, Apply(s, Return(t)), t);
    }
  }

  lemma ResetNodes(s: State)
    requires NodesOk(s)
    ensures NodesOk(Apply(s, Reset))
  {
    FlushMembers(s.lists);
    var s' := Apply(s, Reset);
    forall i | 0 <= i < |s'.lists.free|
      ensures s'.lists.free[i] < |s'.mem|
    {
      assert s'.lists.free[i] in s'.lists.free;
    }
    forall n: Node
      ensures Outside(s', n) <==> Outside(s, n)
    {
    }
    if s'.Pc(0).Busy() {
      assert s'.Pc(0) == s.Pc(0) && Outside(s, s.Pc(0).node);
    }
    OwnersAfterMove(s, s', 0);
  }

  lemma StepNodes(s: State, a: Action)
    requires NodesOk(s) && WaitOk(s)
    ensures NodesOk(Apply(s, a))
  {
    match a
    case Send(t, data, urgent, block, pos) =>
      if s.Pc(t).Idle? {
        TrySendNodes(s, t, data, urgent, block, pos);
      }
    case SendAgain(t, block, pos) =>
      if s.Pc(t).RetrySend? {
        TrySendNodes(s, t, s.Pc(t).data, false, block, pos);
      }
    case Link(t) => LinkNodes(s, t);
    case Recv(t, want, block, pos) =>
      if s.Pc(t).Idle? {
        TryRecvNodes(s, t, want, block, pos);
      }
    case RecvAgain(t, block, pos) =>
      if s.Pc(t).RetryRecv? {
        TryRecvNodes(s, t, s.Pc(t).want, block, pos);
      }
    case Return(t) => ReturnNodes(s, t);
    case Reset => ResetNodes(s);
    case CopyIn(t) => OwnersAfterMove(s, Apply(s, a), t);
    case CopyOut(t) => OwnersAfterMove(s, Apply(s, a), t);
    case Timeout(t) => OwnersAfterMove(s, Apply(s, a), t);
  }

  /* ---- wait lists ---- */

  lemma QueuedMembers(ts: seq<Tid>, pos: nat, t: Tid)
    requires t !in ts && Distinct(ts)
    ensures var us := Insert(ts, pos, t); us != [] && Distinct(us) && forall x: Tid :: x in us <==> x == t || x in ts
  {
    InsertMembers(ts, if pos < |ts| then pos else |ts|, t);
  }

  lemma TailMembers(ts: seq<Tid>)
    requires ts != [] && Distinct(ts)
    ensures forall x: Tid :: x in ts[1..] <==> x in ts && x != ts[0]
  {
    assert ts == [ts[0]] + ts[1..];
  }

  lemma TrySendWait(s: State, t: Tid, data: Message, urgent: bool, block: bool, pos: nat)
    requires WaitOk(s) && (s.Pc(t).Idle? || s.Pc(t).RetrySend?)
    ensures WaitOk(TrySend(s, t, data, urgent, block, pos))
  {
    QueuedMembers(s.sendWait, pos, t);
  }

  lemma TryRecvWait(s: State, t: Tid, want: nat, block: bool, pos: nat)
    requires WaitOk(s) && (s.Pc(t).Idle? || s.Pc(t).RetryRecv?)
    ensures WaitOk(TryRecv(s, t, want, block, pos))
  {
    QueuedMembers(s.recvWait, pos, t);
  }

  lemma WakeSenderWait(s: State)
    requires WaitOk(s)
    ensures WaitOk(WakeSender(s))
  {
    if s.sendWait != [] {
      TailMembers(s.sendWait);
      assert s.Pc(s.sendWait[0]).WaitSend?;
    }
  }

  lemma WakeReceiverWait(s: State)
    requires WaitOk(s)
    ensures WaitOk(WakeReceiver(s))
  {
    if s.recvWait != [] {
      TailMembers(s.recvWait);
      assert s.Pc(s.recvWait[0]).WaitRecv?;
    }
  }

  // The state in which Link and Return have done all but wake somebody.
  function BeforeWake(s: State, a: Action): State
    requires (a.Link? && s.Pc(a.t).Filled?) || (a.Return? && s.Pc(a.t).Emptied?)
  {
    if a.Link? then
      var Filled(n, _, urgent) := s.Pc(a.t);
      s.(lists := if urgent then LinkFirst(s.lists, n) else LinkLast(s.lists, n),
         entry := s.entry + 1, pc := s.pc[a.t := Idle])
    else
      s.(lists := GiveBack(s.lists, s.Pc(a.t).node), pc := s.pc[a.t := Idle])
  }

  lemma StepWait(s: State, a: Action)
    requires WaitOk(s)
    ensures WaitOk(Apply(s, a))
  {
    match a
    case Send(t, data, urgent, block, pos) =>
      if s.Pc(t).Idle? {
        TrySendWait(s, t, data, urgent, block, pos);
      }
    case SendAgain(t, block, pos) =>
      if s.Pc(t).RetrySend? {
        TrySendWait(s, t, s.Pc(t).data, false, block, pos);
      }
    case Recv(t, want, block, pos) =>
      if s.Pc(t).Idle? {
        TryRecvWait(s, t, want, block, pos);
      }
    case RecvAgain(t, block, pos) =>
      if s.Pc(t).RetryRecv? {
        TryRecvWait(s, t, s.Pc(t).want, block, pos);
      }
    case Link(t) =>
      if s.Pc(t).Filled? {
        assert WaitOk(BeforeWake(s, a));
        WakeReceiverWait(BeforeWake(s, a));
      }
    case Return(t) =>
      if s.Pc(t).Emptied? {
        assert WaitOk(BeforeWake(s, a));
        WakeSenderWait(BeforeWake(s, a));
      }
    case Timeout(t) =>
      WithoutDistinct(s.sendWait, t);
      WithoutDistinct(s.recvWait, t);
    case _ =>
  }

  /* ---- wakeups ---- */

  // How the woken threads change when only thread t moves.
  lemma WokenSendersAfterMove(s: State, s': State, t: Tid)
    requires s'.pc == s.pc[t := s'.Pc(t)]
    ensures |WokenSenders(s')| ==
      |WokenSenders(s)| - (if s.Pc(t).RetrySend? then 1 else 0) + (if s'.Pc(t).RetrySend? then 1 else 0)
  {
    var a := WokenSenders(s) - {t};
    assert WokenSenders(s') - {t} == a;
    assert WokenSenders(s) == if s.Pc(t).RetrySend? then a + {t} else a;
    assert WokenSenders(s') == if s'.Pc(t).RetrySend? then a + {t} else a;
  }

  lemma WokenReceiversAfterMove(s: State, s': State, t: Tid)
    requires s'.pc == s.pc[t := s'.Pc(t)]
    ensures |WokenReceivers(s')| ==
      |WokenReceivers(s)| - (if s.Pc(t).RetryRecv? then 1 else 0) + (if s'.Pc(t).RetryRecv? then 1 else 0)
  {
    var a := WokenReceivers(s) - {t};
    assert WokenReceivers(s') - {t} == a;
    assert WokenReceivers(s) == if s.Pc(t).RetryRecv? then a + {t} else a;
    assert WokenReceivers(s') == if s'.Pc(t).RetryRecv? then a + {t} else a;
  }

  lemma WokenAfterMove(s: State, s': State, t: Tid)
    requires s'.pc == s.pc[t := s'.Pc(t)]
    ensures |WokenSenders(s')| ==
      |WokenSenders(s)| - (if s.Pc(t).RetrySend? then 1 else 0) + (if s'.Pc(t).RetrySend? then 1 else 0)
    ensures |WokenReceivers(s')| ==
      |WokenReceivers(s)| - (if s.Pc(t).RetryRecv? then 1 else 0) + (if s'.Pc(t).RetryRecv? then 1 else 0)
  {
    WokenSendersAfterMove(s, s', t);
    WokenReceiversAfterMove(s, s', t);
  }

  lemma LinkWake(s: State, t: Tid)
    requires WaitOk(s) && WakeOk(s) && s.Pc(t).Filled?
    ensures WakeOk(Apply(s, Link(t)))
  {
    var s1 := BeforeWake(s, Link(t));
    WokenAfterMove(s, s1, t);
    if s.recvWait != [] {
      var u := s.recvWait[0];
      assert s.Pc(u).WaitRecv? && u != t;
      WokenAfterMove(s1, Apply(s, Link(t)), u);
    }
  }

  lemma ReturnWake(s: State, t: Tid)
    requires WaitOk(s) && WakeOk(s) && s.Pc(t).Emptied?
    ensures WakeOk(Apply(s, Return(t)))
  {
    var s1 := BeforeWake(s, Return(t));
    WokenAfterMove(s, s1, t);
    if s.sendWait != [] {
      var u := s.sendWait[0];
      assert s.Pc(u).WaitSend? && u != t;
      WokenAfterMove(s1, Apply(s, Return(t)), u);
    }
  }

  // A step that moves thread t only, and frees and queues nothing.
  lemma OneMoveWake(s: State, s': State, t: Tid)
    requires WakeOk(s) && s'.pc == s.pc[t := s'.Pc(t)]
    requires s'.sendWait != [] ==>
      s'.lists.free == [] || (s.sendWait != [] && |s'.lists.free| <= |s.lists.free| &&
        (s.Pc(t).RetrySend? && !s'.Pc(t).RetrySend? ==> |s'.lists.free| < |s.lists.free|))
    requires s'.recvWait != [] ==>
      s'.lists.queue == [] || (s.recvWait != [] && |s'.lists.queue| <= |s.lists.queue| &&
        (s.Pc(t).RetryRecv? && !s'.Pc(t).RetryRecv? ==> |s'.lists.queue| < |s.lists.queue|))
    ensures WakeOk(s')
  {
    WokenAfterMove(s, s', t);
  }

  lemma StepWake(s: State, a: Action)
    requires NodesOk(s) && WaitOk(s) && WakeOk(s)
    ensures WakeOk(Apply(s, a))
  {
    var s' := Apply(s, a);
    if s' != s {
      match a
      case Link(t) => LinkWake(s, t);
      case Return(t) => ReturnWake(s, t);
      case Reset =>
      case Timeout(t) => OneMoveWake(s, s', t);
      case Send(t, _, _, _, _) => OneMoveWake(s, s', t);
      case SendAgain(t, _, _) => OneMoveWake(s, s', t);
      case Recv(t, _, _, _) => OneMoveWake(s, s', t);
      case RecvAgain(t, _, _) => OneMoveWake(s, s', t);
      case CopyIn(t) => OneMoveWake(s, s', t);
      case CopyOut(t) => OneMoveWake(s, s', t);
    }
  }

  /* ---- data ---- */

  lemma CopyInData(s: State, t: Tid)
    requires NodesOk(s) && DataOk(s) && s.Pc(t).Filling?
    ensures DataOk(Apply(s, CopyIn(t)))
  {
    var s' := Apply(s, CopyIn(t));
    forall u: Tid
      ensures PcData(s'.msgSize, s'.mem, s'.Pc(u))
    {
      assert PcData(s.msgSize, s.mem, s.Pc(u));
      if u != t && s.Pc(u).Busy() {
        assert s.Pc(u).node != s.Pc(t).node;
      }
    }
  }

  lemma StepData(s: State, a: Action)
    requires NodesOk(s) && WaitOk(s) && DataOk(s)
    ensures DataOk(Apply(s, a))
  {
    if a.CopyIn? {
      if s.Pc(a.t).Filling? {
        CopyInData(s, a.t);
      }
    } else {
      var s' := Apply(s, a);
      forall u: Tid
        ensures PcData(s'.msgSize, s'.mem, s'.Pc(u))
      {
        assert PcData(s.msgSize, s.mem, s.Pc(u));
      }
    }
  }

  /* ------------------------------- whole runs ------------------------------- */

  lemma StepInv(s: State, a: Action)
    requires Inv(s)
    ensures Inv(Apply(s, a))
  {
    StepNodes(s, a);
    StepData(s, a);
    StepWait(s, a);
    StepWake(s, a);
  }

  // Whatever the threads do and however their steps interleave, the invariant holds.
  lemma {:induction false} RunInv(s: State, steps: seq<Action>)
    requires Inv(s)
    ensures Inv(Run(s, steps))
    decreases |steps|
  {
    if steps != [] {
      RunInv(s, steps[..|steps| - 1]);
      StepInv(Run(s, steps[..|steps| - 1]), steps[|steps| - 1]);
    }
  }

  /* ------------------------------- the bounded deque ------------------------------- */

  // The deque a caller believes in: what each event does to it, and when it may happen.
  function SpecApply(q: seq<Message>, e: Event): seq<Message> {
    match e
    case Pushed(m) => q + [m]
    case PushedFirst(m) => [m] + q
    case Popped(m) => if q == [] then q else q[1..]
    case Cleared => []
    case Nothing => q
  }

  ghost predicate Legal(q: seq<Message>, e: Event, max: nat) {
    match e
    case Pushed(_) => |q| < max
    case PushedFirst(_) => |q| < max
    case Popped(m) => q != [] && q[0] == m
    case _ => true
  }

  // A node in a thread's hands leaves room in the queue.
  lemma QueueHasRoom(s: State, n: Node)
    requires NodesOk(s) && Outside(s, n)
    ensures |s.lists.queue| < |s.mem|
  {
    AddMembers(s.lists, n);
    DistinctLength(s.lists.queue + [n], |s.mem|);
  }

  ghost predicate Refines(s: State, s': State, e: Event)
    requires NodesOk(s) && NodesOk(s')
  {
    && |s'.mem| == |s.mem|
    && Legal(s.Deque(), e, |s.mem|)
    && s'.Deque() == SpecApply(s.Deque(), e)
  }

  // Linking a node pushes its message.
  lemma PushDeque(s: State, s': State, n: Node, urgent: bool)
    requires forall i :: 0 <= i < |s.lists.queue| ==> s.lists.queue[i] < |s.mem|
    requires n < |s.mem| && s'.mem == s.mem
    requires s'.lists.queue == if urgent then [n] + s.lists.queue else s.lists.queue + [n]
    ensures forall i :: 0 <= i < |s'.lists.queue| ==> s'.lists.queue[i] < |s'.mem|
    ensures s'.Deque() == if urgent then [s.mem[n]] + s.Deque() else s.Deque() + [s.mem[n]]
  {
    var d := if urgent then [s.mem[n]] + s.Deque() else s.Deque() + [s.mem[n]];
    forall i | 0 <= i < |d|
      ensures s'.lists.queue[i] < |s.mem| && d[i] == s.mem[s'.lists.queue[i]]
    {
    }
  }

  lemma LinkMoves(s: State, t: Tid)
    requires s.Pc(t).Filled?
    ensures
      var s' := Apply(s, Link(t));
      && s'.mem == s.mem
      && s'.lists.queue == if s.Pc(t).urgent then [s.Pc(t).node] + s.lists.queue else s.lists.queue + [s.Pc(t).node]
  {
  }

  lemma LinkRefines(s: State, t: Tid)
    requires Inv(s) && s.Pc(t).Filled? && NodesOk(Apply(s, Link(t)))
    ensures Refines(s, Apply(s, Link(t)), Observe(s, Link(t)))
  {
    var n := s.Pc(t).node;
    assert n < |s.mem| && |s.lists.queue| < |s.mem| by {
      assert Outside(s, n);
      QueueHasRoom(s, n);
    }
    LinkMoves(s, t);
    PushDeque(s, Apply(s, Link(t)), n, s.Pc(t).urgent);
  }

  lemma CopyInRefines(s: State, t: Tid)
    requires Inv(s) && s.Pc(t).Filling? && NodesOk(Apply(s, CopyIn(t)))
    ensures Refines(s, Apply(s, CopyIn(t)), Nothing)
  {
    assert Outside(s, s.Pc(t).node);
    assert Apply(s, CopyIn(t)).Deque() == s.Deque();
  }

  lemma TryRecvRefines(s: State, t: Tid, want: nat, block: bool, pos: nat)
    requires Inv(s) && NodesOk(TryRecv(s, t, want, block, pos))
    ensures Refines(s, TryRecv(s, t, want, block, pos), if s.lists.queue == [] then Nothing else Popped(s.mem[s.lists.queue[0]]))
  {
    if s.lists.queue != [] {
      assert TryRecv(s, t, want, block, pos).Deque() == s.Deque()[1..];
    }
  }

  // Every step is one event of the deque, and the events happen where the list operations
  // do: a push when the node is linked, however long ago its bytes were copied in.
  lemma StepRefines(s: State, a: Action)
    requires Inv(s)
    ensures Inv(Apply(s, a)) && Refines(s, Apply(s, a), Observe(s, a))
  {
    StepInv(s, a);
    match a
    case Link(t) =>
      if s.Pc(t).Filled? {
        LinkRefines(s, t);
      }
    case CopyIn(t) =>
      if s.Pc(t).Filling? {
        CopyInRefines(s, t);
      }
    case Recv(t, want, block, pos) =>
      if s.Pc(t).Idle? {
        TryRecvRefines(s, t, want, block, pos);
      }
    case RecvAgain(t, block, pos) =>
      if s.Pc(t).RetryRecv? {
        TryRecvRefines(s, t, s.Pc(t).want, block, pos);
      }
    case Reset => FlushMembers(s.lists);
    case _ => QuietRefines(s, a);
  }

  // The remaining regions leave the queue as it is.
  lemma QuietRefines(s: State, a: Action)
    requires NodesOk(s) && NodesOk(Apply(s, a))
    requires !a.Link? && !a.CopyIn? && !a.Recv? && !a.RecvAgain? && !a.Reset?
    ensures Refines(s, Apply(s, a), Observe(s, a))
  {
    assert Apply(s, a).mem == s.mem && Apply(s, a).lists.queue == s.lists.queue;
  }

  function Events(s: State, steps: seq<Action>): seq<Event>
    decreases |steps|
  {
    if steps == [] then []
    else
      var n := |steps| - 1;
      Events(s, steps[..n]) + [Observe(Run(s, steps[..n]), steps[n])]
  }

  function SpecRun(q: seq<Message>, es: seq<Event>): seq<Message>
    decreases |es|
  {
    if es == [] then q else SpecApply(SpecRun(q, es[..|es| - 1]), es[|es| - 1])
  }

  ghost predicate LegalRun(q: seq<Message>, es: seq<Event>, max: nat)
    decreases |es|
  {
    es != [] ==> LegalRun(q, es[..|es| - 1], max) && Legal(SpecRun(q, es[..|es| - 1]), es[|es| - 1], max)
  }

  // Every run of the threads is a legal run of a deque that holds at most max messages.
  lemma {:induction false} RunRefines(s: State, steps: seq<Action>)
    requires Inv(s)
    ensures var s' := Run(s, steps); var es := Events(s, steps);
      && Inv(s') && |s'.mem| == |s.mem|
      && LegalRun(s.Deque(), es, |s.mem|)
      && s'.Deque() == SpecRun(s.Deque(), es)
    decreases |steps|
  {
    if steps != [] {
      var n := |steps| - 1;
      RunRefines(s, steps[..n]);
      StepRefines(Run(s, steps[..n]), steps[n]);
      var es := Events(s, steps);
      assert es[..|es| - 1] == Events(s, steps[..n]);
    }
  }

  // Once every woken thread has run and nobody is copying, senders wait only at a full
  // queue and receivers only at an empty one.
  lemma QuietMeansBlocked(s: State)
    requires Inv(s)
    requires forall t: Tid :: !s.Pc(t).Busy() && !s.Pc(t).RetrySend? && !s.Pc(t).RetryRecv?
    ensures s.sendWait != [] ==> forall n: Node :: n < |s.mem| ==> n in s.lists.queue
    ensures s.recvWait != [] ==> s.lists.queue == []
  {
    assert forall t: Tid :: t in s.pc ==> s.Pc(t) == s.pc[t];
    assert WokenSenders(s) == {} && WokenReceivers(s) == {};
    if s.sendWait != [] {
      forall n: Node | n < |s.mem|
        ensures n in s.lists.queue
      {
        assert Outside(s, n) ==> Held(s, n);
      }
    }
  }
}
