/** From call to call: what a step does for the thread that takes it, and that the message linked
  and the bytes copied out are the ones asked for by the calls, however long these have waited.
 */
module MessageQueueCalls {
  import opened Seqs
  import opened MessageQueue
  import opened MessageQueueRuns
  import opened MessageQueueBytes

  /* ------------------------------- one step ------------------------------- */

  // Every thread but t is where it was.
  ghost predicate OthersStay(s: State, r: State, t: Tid) {
    forall u: Tid :: u != t ==> r.Pc(u) == s.Pc(u)
  }

  // A send gets a node while one is free. Without one it waits, if it is ordinary and the caller
  // is ready to; otherwise it is over. A message that is too long changes nothing.
  lemma SendOutcome(s: State, t: Tid, data: Message, urgent: bool, block: bool, pos: nat)
    requires Inv(s) && s.Pc(t).Idle?
    ensures var r := Apply(s, Send(t, data, urgent, block, pos));
      && r.mem == s.mem && r.lists.queue == s.lists.queue && OthersStay(s, r, t)
      && if |data| > s.msgSize then r == s
        else if s.lists.free != [] then
          r.Pc(t) == Filling(s.lists.free[0], data, urgent) && r.lists.free == s.lists.free[1..] && r.sendWait == s.sendWait
        else if block && !urgent then r.Pc(t) == WaitSend(data) && r.lists == s.lists && t in r.sendWait
        else r.Pc(t) == Idle && r.lists == s.lists && r.sendWait == s.sendWait
  {
    if |data| <= s.msgSize && s.lists.free == [] && block && !urgent {
      QueuedMembers(s.sendWait, pos, t);
    }
  }

  // The same for a sender that has been woken; it sends what it waited for.
  lemma SendAgainOutcome(s: State, t: Tid, block: bool, pos: nat)
    requires Inv(s) && s.Pc(t).RetrySend?
    ensures var r, data := Apply(s, SendAgain(t, block, pos)), s.Pc(t).data;
      && r.mem == s.mem && r.lists.queue == s.lists.queue && OthersStay(s, r, t)
      && if s.lists.free != [] then r.Pc(t) == Filling(s.lists.free[0], data, false) && r.lists.free == s.lists.free[1..]
        else if block then r.Pc(t) == WaitSend(data) && r.lists == s.lists && t in r.sendWait
        else r.Pc(t) == Idle && r.lists == s.lists
  {
    if s.lists.free == [] && block {
      QueuedMembers(s.sendWait, pos, t);
    }
  }

  // A receive gets the first message while there is one. Without one it waits, if the caller is
  // ready to; otherwise it is over.
  lemma RecvOutcome(s: State, t: Tid, want: nat, block: bool, pos: nat)
    requires Inv(s) && s.Pc(t).Idle?
    ensures var r := Apply(s, Recv(t, want, block, pos));
      && r.mem == s.mem && r.lists.free == s.lists.free && OthersStay(s, r, t)
      && if s.lists.queue != [] then Got(s, r, t, want)
        else r.lists == s.lists && if block then r.Pc(t) == WaitRecv(want) && t in r.recvWait else r.Pc(t) == Idle && r.recvWait == s.recvWait
  {
    if s.lists.queue == [] && block {
      QueuedMembers(s.recvWait, pos, t);
    }
  }

  lemma RecvAgainOutcome(s: State, t: Tid, block: bool, pos: nat)
    requires Inv(s) && s.Pc(t).RetryRecv?
    ensures var r, want := Apply(s, RecvAgain(t, block, pos)), s.Pc(t).want;
      && r.mem == s.mem && r.lists.free == s.lists.free && OthersStay(s, r, t)
      && if s.lists.queue != [] then Got(s, r, t, want)
        else r.lists == s.lists && if block then r.Pc(t) == WaitRecv(want) && t in r.recvWait else r.Pc(t) == Idle
  {
    if s.lists.queue == [] && block {
      QueuedMembers(s.recvWait, pos, t);
    }
  }

  // Thread t has the first message of the queue in its hands, for a buffer of want bytes.
  ghost predicate Got(s: State, r: State, t: Tid, want: nat) {
    && s.lists.queue != [] && s.lists.queue[0] < |s.mem|
    && r.Pc(t) == Emptying(s.lists.queue[0], want, s.mem[s.lists.queue[0]])
    && r.lists.queue == s.lists.queue[1..] && r.recvWait == s.recvWait
  }

  // A link wakes the first receiver that waits and a return the first sender, with what it waits
  // for; nobody else moves.
  lemma LinkWakesFirst(s: State, t: Tid)
    requires Inv(s) && s.Pc(t).Filled?
    ensures var r := Apply(s, Link(t));
      && r.Pc(t) == Idle && r.sendWait == s.sendWait
      && (forall u: Tid :: u != t && (s.recvWait == [] || u != s.recvWait[0]) ==> r.Pc(u) == s.Pc(u))
      && (s.recvWait == [] ==> r.recvWait == [])
      && (s.recvWait != [] ==>
        var w := s.recvWait[0]; s.Pc(w).WaitRecv? && r.Pc(w) == RetryRecv(s.Pc(w).want) && r.recvWait == s.recvWait[1..])
  {
    assert s.recvWait != [] ==> s.recvWait[0] in s.recvWait;
  }

  lemma ReturnWakesFirst(s: State, t: Tid)
    requires Inv(s) && s.Pc(t).Emptied?
    ensures var r := Apply(s, Return(t));
      && r.Pc(t) == Idle && r.recvWait == s.recvWait && r.lists == Lists([s.Pc(t).node] + s.lists.free, s.lists.queue)
      && (forall u: Tid :: u != t && (s.sendWait == [] || u != s.sendWait[0]) ==> r.Pc(u) == s.Pc(u))
      && (s.sendWait == [] ==> r.sendWait == [])
      && (s.sendWait != [] ==>
        var w := s.sendWait[0]; s.Pc(w).WaitSend? && r.Pc(w) == RetrySend(s.Pc(w).data) && r.sendWait == s.sendWait[1..])
  {
    assert s.sendWait != [] ==> s.sendWait[0] in s.sendWait;
  }

  // A reset ends every wait and empties the queue; threads that own a node keep it.
  lemma ResetMeans(s: State)
    requires Inv(s)
    ensures var r := Apply(s, Reset);
      && r.lists.queue == [] && r.entry == 0 && r.sendWait == [] && r.recvWait == [] && r.mem == s.mem
      && forall t: Tid :: r.Pc(t) == if s.Pc(t).WaitSend? || s.Pc(t).WaitRecv? then Idle else s.Pc(t)
  {
    FlushMembers(s.lists);
  }

  // A wait that takes too long ends for that thread alone.
  lemma TimeoutMeans(s: State, t: Tid)
    requires Inv(s)
    ensures var r := Apply(s, Timeout(t));
      && r.lists == s.lists && r.mem == s.mem && OthersStay(s, r, t)
      && r.Pc(t) == (if s.Pc(t).WaitSend? || s.Pc(t).WaitRecv? then Idle else s.Pc(t))
      && (forall u: Tid :: u in r.sendWait <==> u in s.sendWait && u != t)
      && (forall u: Tid :: u in r.recvWait <==> u in s.recvWait && u != t)
  {
  }

  // Copying in puts the buffer at the beginning of the node and leaves the rest of it.
  lemma CopyInMeans(s: State, t: Tid)
    requires Inv(s) && s.Pc(t).Filling?
    ensures var r, n, data := Apply(s, CopyIn(t)), s.Pc(t).node, s.Pc(t).data;
      && n < |s.mem| && |data| <= |s.mem[n]| && |r.mem| == |s.mem| && |r.mem[n]| == |s.mem[n]|
      && (forall k :: 0 <= k < |data| ==> r.mem[n][k] == data[k])
      && (forall k :: |data| <= k < |s.mem[n]| ==> r.mem[n][k] == s.mem[n][k])
      && (forall m :: 0 <= m < |s.mem| && m != n ==> r.mem[m] == s.mem[m])
      && r.lists == s.lists && OthersStay(s, r, t) && r.Pc(t) == Filled(n, data, s.Pc(t).urgent)
  {
    assert Outside(s, s.Pc(t).node) && PcData(s.msgSize, s.mem, s.Pc(t));
  }

  /* ------------------------------- whole sends ------------------------------- */

  predicate InSend(pc: Pc) {
    pc.Filling? || pc.Filled? || pc.WaitSend? || pc.RetrySend?
  }

  // The thread is sending this message; only an ordinary one is waited for.
  predicate Sending(pc: Pc, data: Message, urgent: bool) {
    match pc
    case Filling(_, d, u) => d == data && u == urgent
    case Filled(_, d, u) => d == data && u == urgent
    case WaitSend(d) => d == data && !urgent
    case RetrySend(d) => d == data && !urgent
    case _ => false
  }

  // A thread begins to send with a call, and goes on with the same message.
  lemma SendStep(s: State, a: Action, t: Tid)
    requires WaitOk(s) && InSend(Apply(s, a).Pc(t))
    ensures
      || (a.Send? && a.t == t && s.Pc(t).Idle? && Sending(Apply(s, a).Pc(t), a.data, a.urgent))
      || (InSend(s.Pc(t)) && forall data, urgent :: Sending(s.Pc(t), data, urgent) ==> Sending(Apply(s, a).Pc(t), data, urgent))
  {
    if s.sendWait != [] {
      assert s.Pc(s.sendWait[0]).WaitSend?;
    }
    if s.recvWait != [] {
      assert s.Pc(s.recvWait[0]).WaitRecv?;
    }
  }

  // Step i is the call that thread t has been busy with ever since.
  ghost predicate SendCalled(s: State, steps: seq<Action>, t: Tid, i: nat) {
    && i < |steps| && steps[i].Send? && steps[i].t == t && Run(s, steps[..i]).Pc(t).Idle?
    && forall l :: i < l <= |steps| ==> Sending(Run(s, steps[..l]).Pc(t), steps[i].data, steps[i].urgent)
  }

  lemma SendCalledNow(s: State, steps: seq<Action>, t: Tid, n: nat)
    requires |steps| == n + 1 && steps[n].Send? && steps[n].t == t && Run(s, steps[..n]).Pc(t).Idle?
    requires Sending(Run(s, steps).Pc(t), steps[n].data, steps[n].urgent)
    ensures SendCalled(s, steps, t, n)
  {
    assert steps[..n + 1] == steps;
  }

  lemma SendCalledStill(s: State, steps: seq<Action>, t: Tid, n: nat, i: nat)
    requires |steps| == n + 1 && SendCalled(s, steps[..n], t, i)
    requires Sending(Run(s, steps).Pc(t), steps[i].data, steps[i].urgent)
    ensures SendCalled(s, steps, t, i)
  {
    assert steps[..n][..i] == steps[..i];
    forall l | i < l <= |steps|
      ensures Sending(Run(s, steps[..l]).Pc(t), steps[i].data, steps[i].urgent)
    {
      if l <= n {
        assert steps[..n][..l] == steps[..l];
      } else {
        assert steps[..l] == steps;
      }
    }
  }

  lemma {:induction false} SendCall(s: State, steps: seq<Action>, t: Tid) returns (i: nat)
    requires Inv(s) && !InSend(s.Pc(t)) && InSend(Run(s, steps).Pc(t))
    ensures SendCalled(s, steps, t, i)
    decreases |steps|
  {
    var n := |steps| - 1;
    var u := Run(s, steps[..n]);
    RunInv(s, steps[..n]);
    SendStep(u, steps[n], t);
    if steps[n].Send? && steps[n].t == t && u.Pc(t).Idle? {
      SendCalledNow(s, steps, t, n);
      i := n;
    } else {
      i := SendCall(s, steps[..n], t);
      assert Sending(u.Pc(t), steps[i].data, steps[i].urgent) by {
        assert steps[..n][..n] == steps[..n];
      }
      SendCalledStill(s, steps, t, n, i);
    }
  }

  // A message is linked first exactly if the call that began the send was urgent, and last
  // otherwise, and it begins with that call's data, whether the caller has waited or not.
  lemma LinkedAsCalled(s: State, steps: seq<Action>, k: nat, t: Tid) returns (i: nat)
    requires Inv(s) && !InSend(s.Pc(t)) && k < |steps| && steps[k] == Link(t) && Run(s, steps[..k]).Pc(t).Filled?
    ensures SendCalled(s, steps[..k], t, i)
    ensures var e := Observe(Run(s, steps[..k]), steps[k]);
      && (e.PushedFirst? <==> steps[i].urgent) && (e.Pushed? <==> !steps[i].urgent) && steps[i].data <= e.msg
  {
    i := SendCall(s, steps[..k], t);
    assert steps[..k][..k] == steps[..k];
    var u := Run(s, steps[..k]);
    assert Sending(u.Pc(t), steps[i].data, steps[i].urgent);
    RunInv(s, steps[..k]);
    assert PcData(u.msgSize, u.mem, u.Pc(t));
  }

  /* ------------------------------- whole receives ------------------------------- */

  predicate InRecv(pc: Pc) {
    pc.Emptying? || pc.WaitRecv? || pc.RetryRecv?
  }

  predicate Receiving(pc: Pc, want: nat) {
    InRecv(pc) && pc.want == want
  }

  lemma RecvStep(s: State, a: Action, t: Tid)
    requires WaitOk(s) && InRecv(Apply(s, a).Pc(t))
    ensures
      || (a.Recv? && a.t == t && s.Pc(t).Idle? && Receiving(Apply(s, a).Pc(t), a.want))
      || (InRecv(s.Pc(t)) && Apply(s, a).Pc(t).want == s.Pc(t).want)
  {
    if s.sendWait != [] {
      assert s.Pc(s.sendWait[0]).WaitSend?;
    }
    if s.recvWait != [] {
      assert s.Pc(s.recvWait[0]).WaitRecv?;
    }
  }

  // Step i is the call with which thread t began to receive.
  lemma {:induction false} RecvCall(s: State, steps: seq<Action>, t: Tid) returns (i: nat)
    requires Inv(s) && !InRecv(s.Pc(t)) && InRecv(Run(s, steps).Pc(t))
    ensures i < |steps| && steps[i].Recv? && steps[i].t == t && Run(s, steps[..i]).Pc(t).Idle?
    ensures Receiving(Run(s, steps).Pc(t), steps[i].want)
    decreases |steps|
  {
    var n := |steps| - 1;
    var u := Run(s, steps[..n]);
    RunInv(s, steps[..n]);
    RecvStep(u, steps[n], t);
    if steps[n].Recv? && steps[n].t == t && u.Pc(t).Idle? {
      i := n;
    } else {
      i := RecvCall(s, steps[..n], t);
      assert steps[..n][..i] == steps[..i];
    }
  }

  // From call to call: what thread u copies out at step k begins the message that some thread
  // linked at step i, for a send that it had called for at step c; it is as long as u's own call
  // allows, and as far as both go it agrees with the data of that send.
  lemma FromCallToCall(s: State, steps: seq<Action>, k: nat, u: Tid) returns (c: nat, i: nat, j: nat, r: nat)
    requires Inv(s) && s.lists.queue == [] && (forall t: Tid :: s.Pc(t).Idle?)
    requires k < |steps| && steps[k] == CopyOut(u) && Run(s, steps[..k]).Pc(u).Emptying?
    ensures i < j < k && r < k && steps[i].Link? && SendCalled(s, steps[..i], steps[i].t, c)
    ensures steps[r].Recv? && steps[r].t == u
    ensures Run(s, steps[..k]).Pc(u).node < |Run(s, steps[..k]).mem|
    ensures var got, sent := Delivered(Run(s, steps[..k]), u), steps[c].data;
      && |got| == (if steps[r].want < s.msgSize then steps[r].want else s.msgSize)
      && forall b :: 0 <= b < |got| && b < |sent| ==> got[b] == sent[b]
  {
    i, j := BytesArrive(s, steps, k, u);
    c := LinkedAsCalled(s, steps, i, steps[i].t);
    r := RecvCall(s, steps[..k], u);
    var es := Events(s, steps);
    assert steps[c].data <= es[j].msg by {
      SameMessage(s, steps, i, j);
      EventAt(s, steps, i);
    }
    FullLength(s, steps[..k], u);
    var v := Run(s, steps[..k]);
    assert Copied(v, u, es[j].msg) && v.Pc(u).want == steps[r].want;
    assert |es[j].msg| == s.msgSize by {
      EventAt(s, steps, j);
      assert GotAt(s, steps[..k], u, j) && steps[..k][..j] == steps[..j];
    }
  }

  // What is popped at step j is what was pushed at the step from which it comes.
  lemma SameMessage(s: State, steps: seq<Action>, i: nat, j: nat)
    requires Inv(s) && s.lists.queue == [] && j < |steps| && |Events(s, steps)| == |steps|
    requires var es := Events(s, steps); es[j].Popped? && Pushes(es[..j]) != [] && i == Origin(es, j)
    ensures var es := Events(s, steps); i < j && IsPush(es[i]) && es[i].msg == es[j].msg
  {
    RunRefines(s, steps);
    assert s.Deque() == [];
    PoppedWasPushed(Events(s, steps), |s.mem|, j);
  }

  // A message fills its node.
  lemma FullLength(s: State, steps: seq<Action>, u: Tid)
    requires Inv(s) && Run(s, steps).Pc(u).Emptying?
    ensures |Run(s, steps).Pc(u).popped| == s.msgSize
  {
    RunInv(s, steps);
    SizeStays(s, steps);
    var v := Run(s, steps);
    assert PcData(v.msgSize, v.mem, v.Pc(u));
  }

  lemma {:induction false} SizeStays(s: State, steps: seq<Action>)
    ensures Run(s, steps).msgSize == s.msgSize
    decreases |steps|
  {
    if steps != [] {
      SizeStays(s, steps[..|steps| - 1]);
    }
  }
}
