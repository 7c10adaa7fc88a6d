/** From one buffer to another: the bytes that a receiver copies out, with interrupts on, are
  those of the node that one sender filled, with interrupts on, for the push of that message.
 */
module MessageQueueBytes {
  import opened MessageQueue
  import opened MessageQueueRuns

  // Which event of a run pushed each of the messages that are in the deque after it, if the
  // deque was empty at first.
  function Pushes(es: seq<Event>): seq<nat>
    decreases |es|
  {
    if es == [] then []
    else
      var n := |es| - 1;
      var q := Pushes(es[..n]);
      match es[n]
      case Pushed(_) => q + [n]
      case PushedFirst(_) => [n] + q
      case Popped(_) => if q == [] then q else q[1..]
      case Cleared => []
      case Nothing => q
  }

  predicate IsPush(e: Event) {
    e.Pushed? || e.PushedFirst?
  }

  // The event that pushed the message that event j pops.
  function Origin(es: seq<Event>, j: nat): nat
    requires j < |es| && Pushes(es[..j]) != []
  {
    Pushes(es[..j])[0]
  }

  ghost predicate PushOf(es: seq<Event>, i: nat, m: Message) {
    i < |es| && IsPush(es[i]) && es[i].msg == m
  }

  ghost predicate AllPushes(es: seq<Event>, q: seq<nat>, ms: seq<Message>) {
    && |q| == |ms|
    && (forall k :: 0 <= k < |q| ==> PushOf(es, q[k], ms[k]))
    && forall k, l :: 0 <= k < l < |q| ==> q[k] != q[l]
  }

  lemma AllPushesGrow(es: seq<Event>, e: Event, q: seq<nat>, ms: seq<Message>)
    requires AllPushes(es, q, ms)
    ensures AllPushes(es + [e], q, ms)
    ensures |q| > 0 ==> AllPushes(es + [e], q[1..], ms[1..])
    ensures e.Pushed? ==> AllPushes(es + [e], q + [|es|], ms + [e.msg])
    ensures e.PushedFirst? ==> AllPushes(es + [e], [|es|] + q, [e.msg] + ms)
  {
    forall k | 0 <= k < |q|
      ensures PushOf(es + [e], q[k], ms[k]) && q[k] < |es|
    {
      assert PushOf(es, q[k], ms[k]);
    }
  }

  // Each message in the deque was pushed by an event of its own.
  lemma {:induction false} PushesMatch(es: seq<Event>, max: nat)
    requires LegalRun([], es, max)
    ensures AllPushes(es, Pushes(es), SpecRun([], es))
    decreases |es|
  {
    if es != [] {
      var n := |es| - 1;
      PushesMatch(es[..n], max);
      AllPushesGrow(es[..n], es[n], Pushes(es[..n]), SpecRun([], es[..n]));
      assert es[..n] + [es[n]] == es;
    }
  }

  lemma {:induction false} LegalAt(es: seq<Event>, max: nat, j: nat)
    requires LegalRun([], es, max) && j < |es|
    ensures LegalRun([], es[..j], max) && Legal(SpecRun([], es[..j]), es[j], max)
    decreases |es|
  {
    var n := |es| - 1;
    if j < n {
      LegalAt(es[..n], max, j);
      assert es[..n][..j] == es[..j];
    }
  }

  // What is popped was pushed, by the event from which it comes.
  lemma PoppedWasPushed(es: seq<Event>, max: nat, j: nat)
    requires LegalRun([], es, max) && j < |es| && es[j].Popped?
    ensures Pushes(es[..j]) != [] && Origin(es, j) < j && PushOf(es, Origin(es, j), es[j].msg)
  {
    LegalAt(es, max, j);
    PushesMatch(es[..j], max);
    assert PushOf(es[..j], Pushes(es[..j])[0], SpecRun([], es[..j])[0]);
  }

  // A message that has left the deque does not come back, so no push is popped twice.
  lemma {:induction false} GoneForGood(es: seq<Event>, max: nat, j: nat, k: nat, i: nat)
    requires LegalRun([], es, max) && j <= k <= |es| && i < j && i !in Pushes(es[..j])
    ensures i !in Pushes(es[..k])
    decreases k
  {
    if j < k {
      GoneForGood(es, max, j, k - 1, i);
      assert es[..k][..k - 1] == es[..k - 1];
    }
  }

  lemma PoppedOnce(es: seq<Event>, max: nat, j: nat, k: nat)
    requires LegalRun([], es, max) && j < k < |es| && es[j].Popped? && es[k].Popped?
    ensures Pushes(es[..j]) != [] && Pushes(es[..k]) != [] && Origin(es, j) != Origin(es, k)
  {
    PoppedWasPushed(es, max, j);
    PoppedWasPushed(es, max, k);
    LegalAt(es, max, j);
    PushesMatch(es[..j], max);
    var q := Pushes(es[..j]);
    assert es[..j + 1][..j] == es[..j];
    assert Pushes(es[..j + 1]) == q[1..];
    assert q[0] !in q[1..];
    GoneForGood(es, max, j + 1, k, q[0]);
  }

  /* ------------------------------- threads and events ------------------------------- */

  // A thread with a message in its hands got it by its own pop.
  lemma EmptyingStep(s: State, a: Action, u: Tid)
    requires NodesOk(s) && Apply(s, a).Pc(u).Emptying? && Apply(s, a).Pc(u) != s.Pc(u)
    ensures (a.Recv? || a.RecvAgain?) && a.t == u && Observe(s, a) == Popped(Apply(s, a).Pc(u).popped)
  {
  }

  // Step j is where thread u got the message that it has had ever since.
  ghost predicate GotAt(s: State, steps: seq<Action>, u: Tid, j: nat) {
    && j < |steps| && (steps[j].Recv? || steps[j].RecvAgain?) && steps[j].t == u
    && Run(s, steps).Pc(u).Emptying?
    && Observe(Run(s, steps[..j]), steps[j]) == Popped(Run(s, steps).Pc(u).popped)
    && forall l :: j < l <= |steps| ==> Run(s, steps[..l]).Pc(u) == Run(s, steps).Pc(u)
  }

  lemma GotStays(s: State, steps: seq<Action>, u: Tid, n: nat, j: nat)
    requires |steps| == n + 1 && GotAt(s, steps[..n], u, j) && Run(s, steps).Pc(u) == Run(s, steps[..n]).Pc(u)
    ensures GotAt(s, steps, u, j)
  {
    assert steps[..n][..j] == steps[..j];
    forall l | j < l <= |steps|
      ensures Run(s, steps[..l]).Pc(u) == Run(s, steps).Pc(u)
    {
      if l <= n {
        assert steps[..n][..l] == steps[..l];
      } else {
        assert steps[..l] == steps;
      }
    }
  }

  lemma GotNow(s: State, steps: seq<Action>, u: Tid, n: nat)
    requires |steps| == n + 1 && NodesOk(Run(s, steps[..n]))
    requires Run(s, steps).Pc(u).Emptying? && Run(s, steps).Pc(u) != Run(s, steps[..n]).Pc(u)
    ensures GotAt(s, steps, u, n)
  {
    var a, after := steps[n], Run(s, steps);
    assert (a.Recv? || a.RecvAgain?) && a.t == u && Observe(Run(s, steps[..n]), a) == Popped(after.Pc(u).popped) by {
      EmptyingStep(Run(s, steps[..n]), a, u);
    }
    forall l | n < l <= |steps|
      ensures Run(s, steps[..l]).Pc(u) == after.Pc(u)
    {
      assert steps[..l] == steps;
    }
  }

  lemma {:induction false} GotSomewhere(s: State, steps: seq<Action>, u: Tid) returns (j: nat)
    requires Inv(s) && !s.Pc(u).Emptying? && Run(s, steps).Pc(u).Emptying?
    ensures GotAt(s, steps, u, j)
    decreases |steps|
  {
    var n := |steps| - 1;
    if Run(s, steps).Pc(u) == Run(s, steps[..n]).Pc(u) {
      j := GotSomewhere(s, steps[..n], u);
      GotStays(s, steps, u, n, j);
    } else {
      RunInv(s, steps[..n]);
      GotNow(s, steps, u, n);
      j := n;
    }
  }

  lemma {:induction false} EventsLength(s: State, steps: seq<Action>)
    ensures |Events(s, steps)| == |steps|
    decreases |steps|
  {
    if steps != [] {
      EventsLength(s, steps[..|steps| - 1]);
    }
  }

  lemma {:induction false} EventAt(s: State, steps: seq<Action>, j: nat)
    requires j < |steps|
    ensures |Events(s, steps)| == |steps|
    ensures Events(s, steps)[j] == Observe(Run(s, steps[..j]), steps[j])
    decreases |steps|
  {
    var n := |steps| - 1;
    var before := Events(s, steps[..n]);
    EventsLength(s, steps[..n]);
    assert Events(s, steps) == before + [Observe(Run(s, steps[..n]), steps[n])];
    if j < n {
      EventAt(s, steps[..n], j);
      assert steps[..n][..j] == steps[..j];
    }
  }

  // A push is the link step of a sender whose node begins with its buffer.
  lemma PushIsLink(s: State, a: Action)
    requires Inv(s) && IsPush(Observe(s, a))
    ensures a.Link? && s.Pc(a.t).Filled? && s.Pc(a.t).data <= Observe(s, a).msg
  {
    assert PcData(s.msgSize, s.mem, s.Pc(a.t));
  }

  // The message that thread u copies out at step k is the one it popped at step j, which is the
  // one that some sender linked at step i, from its own buffer. What u receives is the beginning
  // of that node, and so is what the sender sent.
  lemma BytesArrive(s: State, steps: seq<Action>, k: nat, u: Tid) returns (i: nat, j: nat)
    requires Inv(s) && s.lists.queue == [] && !s.Pc(u).Emptying?
    requires k < |steps| && steps[k] == CopyOut(u) && Run(s, steps[..k]).Pc(u).Emptying?
    ensures i < j < k && GotAt(s, steps[..k], u, j)
    ensures var es := Events(s, steps);
      && |es| == |steps| && es[j].Popped? && Pushes(es[..j]) != [] && i == Origin(es, j)
      && steps[i].Link? && Run(s, steps[..i]).Pc(steps[i].t).Filled?
      && Run(s, steps[..i]).Pc(steps[i].t).data <= es[j].msg
      && Copied(Run(s, steps[..k]), u, es[j].msg)
  {
    var es := Events(s, steps);
    j := GotSomewhere(s, steps[..k], u);
    assert steps[..k][..j] == steps[..j];
    EventAt(s, steps, j);
    RunRefines(s, steps);
    assert s.Deque() == [];
    PoppedWasPushed(es, |s.mem|, j);
    i := Origin(es, j);
    EventAt(s, steps, i);
    RunInv(s, steps[..i]);
    PushIsLink(Run(s, steps[..i]), steps[i]);
    RunInv(s, steps[..k]);
    CopiedIs(Run(s, steps[..k]), u);
  }

  // The buffer of u gets the first bytes of message m, as many as it has room for.
  ghost predicate Copied(s: State, u: Tid, m: Message) {
    && s.Pc(u).Emptying? && s.Pc(u).node < |s.mem|
    && Delivered(s, u) <= m && |Delivered(s, u)| == if s.Pc(u).want < |m| then s.Pc(u).want else |m|
  }

  lemma CopiedIs(s: State, u: Tid)
    requires Inv(s) && s.Pc(u).Emptying?
    ensures Copied(s, u, s.Pc(u).popped)
  {
    assert PcData(s.msgSize, s.mem, s.Pc(u));
  }
}
