/** Semaphores: what every reachable state keeps, what becomes of every thread that waits, and
  how the count is conserved.
 */
module Semaphores {
  import opened Seqs
  import opened WaitLists

  const VALUE_MAX: int := 65535  // RT_SEM_VALUE_MAX

  datatype State = State(value: int, flag: Flag, waiters: seq<Tid>, threads: Threads)

  // One region with interrupts off. A negative time means to wait for ever.
  datatype Action =
    | Take(t: Tid, time: int)
    | Release
    | Reset(newValue: nat)
    | Expire(t: Tid)                // the thread's timer runs out
    | Sleep(t: Tid, time: int)      // waits, but not for this semaphore
    | SetPrio(t: Tid, prio: nat)

  predicate Running(s: State, t: Tid) {
    t in s.threads && !s.threads[t].suspended
  }

  function DoTake(s: State, t: Tid, time: int): State {
    if !Running(s, t) then s
    else if s.value > 0 then s.(value := s.value - 1)
    else if time == 0 then s
    else
      s.(waiters := Enqueue(s.flag, s.waiters, s.threads, t),
         threads := s.threads[t := s.threads[t].(suspended := true, error := Eok, armed := time > 0)])
  }

  // What the caller is told at once; None if it has to wait.
  function TakeResult(s: State, time: int): Option<Code> {
    if s.value > 0 then Some(Eok) else if time == 0 then Some(Etimeout) else None
  }

  function DoRelease(s: State): State {
    if s.waiters != [] then
      if s.waiters[0] in s.threads then
        s.(waiters := s.waiters[1..], threads := Woken(s.threads, s.waiters[0], s.threads[s.waiters[0]].error))
      else s
    else if s.value < VALUE_MAX then s.(value := s.value + 1)
    else s
  }

  function ReleaseResult(s: State): Code {
    if s.waiters == [] && s.value >= VALUE_MAX then Efull else Eok
  }

  // The new value is cut down to 16 bits.
  function DoReset(s: State, v: nat): State {
    if forall t :: t in s.waiters ==> t in s.threads then
      s.(value := v % (VALUE_MAX + 1), waiters := [], threads := WokenAll(s.threads, s.waiters, Error))
    else s
  }

  function DoExpire(s: State, t: Tid): State {
    if t in s.threads && s.threads[t].armed then
      s.(waiters := Without(s.waiters, t), threads := Woken(s.threads, t, Etimeout))
    else s
  }

  function Apply(s: State, a: Action): State {
    match a
    case Take(t, time) => DoTake(s, t, time)
    case Release => DoRelease(s)
    case Reset(v) => DoReset(s, v)
    case Expire(t) => DoExpire(s, t)
    case Sleep(t, time) =>
      if Running(s, t) && time > 0 then s.(threads := s.threads[t := s.threads[t].(suspended := true, armed := true)]) else s
    case SetPrio(t, p) =>
      if t in s.threads then s.(threads := s.threads[t := s.threads[t].(prio := p)]) else s
  }

  function Run(s: State, steps: seq<Action>): State
    decreases |steps|
  {
    if steps == [] then s else Apply(Run(s, steps[..|steps| - 1]), steps[|steps| - 1])
  }

  /* ------------------------------- the invariant ------------------------------- */

  ghost predicate Waits(s: State, t: Tid) {
    t in s.threads && s.threads[t].suspended && s.threads[t].error == Eok
  }

  // Waiters are suspended and each in the list once; only suspended threads have their timers
  // running; and there is nothing to take while somebody waits.
  ghost predicate Inv(s: State) {
    && 0 <= s.value <= VALUE_MAX
    && Distinct(s.waiters)
    && (forall t: Tid :: t in s.waiters ==> Waits(s, t))
    && (forall t: Tid :: t in s.threads && s.threads[t].armed ==> s.threads[t].suspended)
    && (s.waiters != [] ==> s.value == 0)
  }

  lemma TakeInv(s: State, t: Tid, time: int)
    requires Inv(s)
    ensures Inv(DoTake(s, t, time))
  {
    if Running(s, t) && s.value <= 0 && time != 0 {
      assert t !in s.waiters by {
        assert t in s.waiters ==> Waits(s, t);
      }
      InsertKeeps(s.waiters, s.threads, t);
      var r := DoTake(s, t, time);
      forall x: Tid | x in r.waiters
        ensures Waits(r, x)
      {
        assert x != t ==> Waits(s, x);
      }
    }
  }

  lemma ReleaseInv(s: State)
    requires Inv(s)
    ensures Inv(DoRelease(s))
  {
    if s.waiters != [] {
      var r := DoRelease(s);
      assert Waits(s, s.waiters[0]);
      forall i | 0 <= i < |r.waiters|
        ensures Waits(r, r.waiters[i])
      {
        assert r.waiters[i] == s.waiters[i + 1] && Waits(s, s.waiters[i + 1]);
      }
    }
  }

  lemma ResetInv(s: State, v: nat)
    requires Inv(s)
    ensures Inv(DoReset(s, v))
  {
    forall t: Tid | t in s.waiters
      ensures t in s.threads
    {
      assert Waits(s, t);
    }
    forall t: Tid | t in s.threads
      ensures DoReset(s, v).threads[t].armed ==> DoReset(s, v).threads[t].suspended
    {
      WokenAllEach(s.threads, s.waiters, Error, t);
    }
  }

  lemma ExpireInv(s: State, t: Tid)
    requires Inv(s)
    ensures Inv(DoExpire(s, t))
  {
    if t in s.threads && s.threads[t].armed {
      WithoutDistinct(s.waiters, t);
      var r := DoExpire(s, t);
      forall x: Tid | x in r.waiters
        ensures Waits(r, x)
      {
        assert Waits(s, x);
      }
    }
  }

  lemma StepInv(s: State, a: Action)
    requires Inv(s)
    ensures Inv(Apply(s, a))
  {
    match a
    case Take(t, time) => TakeInv(s, t, time);
    case Release => ReleaseInv(s);
    case Reset(v) => ResetInv(s, v);
    case Expire(t) => ExpireInv(s, t);
    case Sleep(t, _) => OtherInv(s, a, t);
    case SetPrio(t, _) => OtherInv(s, a, t);
  }

  lemma OtherInv(s: State, a: Action, t: Tid)
    requires Inv(s) && ((a.Sleep? && a.t == t) || (a.SetPrio? && a.t == t))
    ensures Inv(Apply(s, a))
  {
    var r := Apply(s, a);
    forall x: Tid | x in r.waiters
      ensures Waits(r, x)
    {
      assert Waits(s, x);
    }
  }

  lemma {:induction false} RunInv(s: State, steps: seq<Action>)
    requires Inv(s)
    ensures Inv(Run(s, steps))
    decreases |steps|
  {
    if steps != [] {
      RunInv(s, steps[..|steps| - 1]);
      StepInv(Run(s, steps[..|steps| - 1]), steps[|steps| - 1]);
    }
  }

  /* ------------------------------- what callers are told ------------------------------- */

  // A taker is told success exactly if the value has fallen by one, that its time is up exactly if
  // there is nothing to take and it will not wait, and nothing yet exactly if it is now waiting.
  lemma TakeAnswer(s: State, t: Tid, time: int)
    requires Inv(s) && Running(s, t)
    ensures var r, told := DoTake(s, t, time), TakeResult(s, time);
      && (told == Some(Eok) <==> s.value > 0) && (told == Some(Eok) <==> r == s.(value := s.value - 1))
      && (told == Some(Etimeout) <==> s.value == 0 && time == 0) && (told == Some(Etimeout) ==> r == s)
      && (told.None? <==> s.value == 0 && time != 0) && (told.None? <==> t in r.waiters)
      && (told.None? ==>
        && r.value == 0 && r.threads.Keys == s.threads.Keys
        && (forall x: Tid :: x in s.threads && x != t ==> r.threads[x] == s.threads[x])
        && r.threads[t].suspended && r.threads[t].error == Eok && (r.threads[t].armed <==> time > 0))
  {
    assert t !in s.waiters by {
      assert t in s.waiters ==> Waits(s, t);
    }
  }

  // A releaser is told success exactly if somebody is woken or the value grows by one, and that
  // the semaphore is full exactly if the value is 65535 and nobody waits, which changes nothing.
  lemma ReleaseAnswer(s: State)
    requires Inv(s)
    ensures var r, told := DoRelease(s), ReleaseResult(s);
      && (told == Eok <==> r != s) && (told == Efull <==> s.waiters == [] && s.value == 65535) && (told == Eok || told == Efull)
      && (told == Eok ==> if s.waiters == [] then r == s.(value := s.value + 1)
                          else r.value == s.value && r.waiters == s.waiters[1..] && !r.threads[s.waiters[0]].suspended)
  {
    if s.waiters != [] {
      assert Waits(s, s.waiters[0]);
    }
  }

  // A reset sets the value, cut down to 16 bits, and leaves nobody waiting: every waiter goes on
  // with an error, and no other thread notices.
  lemma ResetMeans(s: State, v: nat)
    requires Inv(s)
    ensures var r := DoReset(s, v);
      && r.value == v % 0x1_0000 && r.waiters == [] && r.flag == s.flag && r.threads.Keys == s.threads.Keys
      && forall t: Tid :: t in s.threads ==>
        r.threads[t] == if t in s.waiters then s.threads[t].(suspended := false, error := Error, armed := false) else s.threads[t]
  {
    forall t: Tid | t in s.waiters
      ensures t in s.threads
    {
      assert Waits(s, t);
    }
    forall t: Tid | t in s.threads
      ensures WokenAll(s.threads, s.waiters, Error)[t] ==
        if t in s.waiters then s.threads[t].(suspended := false, error := Error, armed := false) else s.threads[t]
    {
      WokenAllEach(s.threads, s.waiters, Error, t);
    }
  }

  /* ------------------------------- the count is conserved ------------------------------- */

  // Takes that have succeeded with this step, going by what the taker is told: at once, or in its
  // error when its wait ends.
  function Taken(s: State, a: Action): nat {
    match a
    case Take(t, time) => if Running(s, t) && TakeResult(s, time) == Some(Eok) then 1 else 0
    case _ => if s.waiters != [] && Outcome(s, a, s.waiters[0]) == Some(Eok) then 1 else 0
  }

  function Released(s: State, a: Action): nat {
    if a == Release && ReleaseResult(s) == Eok then 1 else 0
  }

  function TotalTaken(s: State, steps: seq<Action>): nat
    decreases |steps|
  {
    if steps == [] then 0
    else var n := |steps| - 1; TotalTaken(s, steps[..n]) + Taken(Run(s, steps[..n]), steps[n])
  }

  function TotalReleased(s: State, steps: seq<Action>): nat
    decreases |steps|
  {
    if steps == [] then 0
    else var n := |steps| - 1; TotalReleased(s, steps[..n]) + Released(Run(s, steps[..n]), steps[n])
  }

  // Between resets, the value and the successful takes together are the value at the start and
  // the successful releases together.
  lemma {:induction false} Conserved(s: State, steps: seq<Action>)
    requires Inv(s) && forall i :: 0 <= i < |steps| ==> !steps[i].Reset?
    ensures Run(s, steps).value + TotalTaken(s, steps) == s.value + TotalReleased(s, steps)
    decreases |steps|
  {
    if steps != [] {
      var n := |steps| - 1;
      RunInv(s, steps[..n]);
      Conserved(s, steps[..n]);
      var u := Run(s, steps[..n]);
      if u.waiters != [] {
        assert Waits(u, u.waiters[0]);
      }
    }
  }

  /* ------------------------------- every wait ends exactly once ------------------------------- */

  // How a step ends the wait of thread t, if it does.
  function Outcome(s: State, a: Action, t: Tid): Option<Code> {
    if t !in s.waiters then None
    else
      match a
      case Release => if s.waiters[0] == t then Some(Eok) else None
      case Reset(_) => Some(Error)
      case Expire(x) => if x == t && t in s.threads && s.threads[t].armed then Some(Etimeout) else None
      case _ => None
  }

  // The step makes t wait.
  predicate Begins(s: State, a: Action, t: Tid) {
    a.Take? && a.t == t && Running(s, t) && TakeResult(s, a.time).None?
  }

  // A waiting thread goes on exactly if the step ends its wait. It then finds in its error how:
  // released, reset or timed out, and its timer is off, so that nothing ends its wait again.
  lemma WaitEnds(s: State, a: Action, t: Tid)
    requires Inv(s) && t in s.waiters
    ensures t in Apply(s, a).waiters <==> Outcome(s, a, t).None?
    ensures Outcome(s, a, t).Some? ==>
      t in Apply(s, a).threads && Apply(s, a).threads[t] == s.threads[t].(suspended := false, error := Outcome(s, a, t).value, armed := false)
    ensures Outcome(s, a, t).None? && !a.SetPrio? ==> t in Apply(s, a).threads && Apply(s, a).threads[t] == s.threads[t]
  {
    assert Waits(s, t);
    match a
    case Release =>
      assert Waits(s, s.waiters[0]);
      assert s.waiters == [s.waiters[0]] + s.waiters[1..];
      assert forall k :: 0 <= k < |s.waiters[1..]| ==> s.waiters[1..][k] == s.waiters[k + 1] != s.waiters[0];
    case Reset(v) =>
      forall x: Tid | x in s.waiters
        ensures x in s.threads
      {
        assert Waits(s, x);
      }
      WokenAllEach(s.threads, s.waiters, Error, t);
    case _ =>
  }

  // A thread that does not wait begins to wait exactly if the step makes it.
  lemma WaitBegins(s: State, a: Action, t: Tid)
    requires Inv(s) && t !in s.waiters
    ensures t in Apply(s, a).waiters <==> Begins(s, a, t)
  {
    if a.Release? && s.waiters != [] {
      assert s.waiters == [s.waiters[0]] + s.waiters[1..];
    }
  }

  // The codes with which thread t's waits have ended, in order.
  function Outcomes(s: State, steps: seq<Action>, t: Tid): seq<Code>
    decreases |steps|
  {
    if steps == [] then []
    else
      var n := |steps| - 1;
      var o := Outcome(Run(s, steps[..n]), steps[n], t);
      Outcomes(s, steps[..n], t) + if o.Some? then [o.value] else []
  }

  function Begun(s: State, steps: seq<Action>, t: Tid): nat
    decreases |steps|
  {
    if steps == [] then 0
    else
      var n := |steps| - 1;
      Begun(s, steps[..n], t) + if Begins(Run(s, steps[..n]), steps[n], t) then 1 else 0
  }

  function WaitingNow(s: State, t: Tid): nat {
    if t in s.waiters then 1 else 0
  }

  // A step begins a wait, ends one, or does neither.
  lemma StepBalance(s: State, a: Action, t: Tid)
    requires Inv(s)
    ensures WaitingNow(s, t) + (if Begins(s, a, t) then 1 else 0) ==
      (if Outcome(s, a, t).Some? then 1 else 0) + WaitingNow(Apply(s, a), t)
  {
    if t in s.waiters {
      WaitEnds(s, a, t);
      assert !Begins(s, a, t) by {
        assert Waits(s, t);
      }
    } else {
      WaitBegins(s, a, t);
    }
  }

  // Every wait that has begun has ended once, except the one that is still going on.
  lemma {:induction false} EndsExactlyOnce(s: State, steps: seq<Action>, t: Tid)
    requires Inv(s)
    ensures WaitingNow(s, t) + Begun(s, steps, t) == |Outcomes(s, steps, t)| + WaitingNow(Run(s, steps), t)
    decreases |steps|
  {
    if steps != [] {
      var n := |steps| - 1;
      RunInv(s, steps[..n]);
      EndsExactlyOnce(s, steps[..n], t);
      StepBalance(Run(s, steps[..n]), steps[n], t);
    }
  }

  /* ------------------------------- in which order ------------------------------- */

  function Place(l: seq<Tid>, t: Tid): (k: nat)
    requires t in l
    ensures k < |l| && l[k] == t && t !in l[..k]
  {
    if l[0] == t then 0 else
      assert l == [l[0]] + l[1..];
      Place(l[1..], t) + 1
  }

  // In a first-come list nobody overtakes: a release brings every waiter that it does not wake
  // one place forward, and no other step brings any waiter back.
  lemma FifoTurn(s: State, a: Action, t: Tid)
    requires Inv(s) && s.flag == Fifo && t in s.waiters && t in Apply(s, a).waiters
    ensures Place(Apply(s, a).waiters, t) <= Place(s.waiters, t)
    ensures a.Release? ==> Place(Apply(s, a).waiters, t) + 1 == Place(s.waiters, t)
  {
    var r := Apply(s, a);
    match a
    case Release =>
      assert Waits(s, s.waiters[0]);
      assert s.waiters[0] != t by {
        WaitEnds(s, a, t);
      }
    case Take(x, time) =>
      if r.waiters != s.waiters {
        PlacePrefix(s.waiters, [x], t);
      }
    case Expire(x) =>
      if x in s.threads && s.threads[x].armed {
        PlaceWithout(s.waiters, x, t);
      }
    case _ =>
  }

  lemma {:induction false} PlacePrefix(l: seq<Tid>, m: seq<Tid>, t: Tid)
    requires t in l
    ensures Place(l + m, t) == Place(l, t)
  {
    if l[0] != t {
      assert (l + m)[1..] == l[1..] + m;
      PlacePrefix(l[1..], m, t);
    }
  }

  lemma {:induction false} PlaceWithout(l: seq<Tid>, x: Tid, t: Tid)
    requires t in l && x != t
    ensures Place(Without(l, x), t) <= Place(l, t)
  {
    if l[0] != t {
      PlaceWithout(l[1..], x, t);
    }
  }

  // As long as no waiter's priority is changed, a list by priority stays in order, so that a
  // release wakes the most urgent waiter.
  lemma PrioOrder(s: State, a: Action)
    requires Inv(s) && s.flag == Prio && Urgent(s.waiters, s.threads)
    requires a.SetPrio? ==> a.t !in s.waiters
    ensures Urgent(Apply(s, a).waiters, Apply(s, a).threads)
  {
    var r := Apply(s, a);
    match a
    case Take(t, time) => TakeOrder(s, t, time);
    case Release => ReleaseOrder(s);
    case Reset(v) => assert r == s || r.waiters == [];
    case _ => QuietOrder(s, a);
  }

  lemma QuietOrder(s: State, a: Action)
    requires Urgent(s.waiters, s.threads) && (a.Expire? || a.Sleep? || (a.SetPrio? && a.t !in s.waiters))
    ensures Urgent(Apply(s, a).waiters, Apply(s, a).threads)
  {
    if a.Expire? {
      UrgentWithout(s.waiters, s.threads, a.t);
    }
    SamePrios(Apply(s, a).waiters, s.threads, Apply(s, a).threads);
  }

  lemma ReleaseOrder(s: State)
    requires Inv(s) && Urgent(s.waiters, s.threads)
    ensures Urgent(DoRelease(s).waiters, DoRelease(s).threads)
  {
    if s.waiters != [] {
      assert Waits(s, s.waiters[0]);
      UrgentTail(s.waiters, s.threads);
    }
    SamePrios(DoRelease(s).waiters, s.threads, DoRelease(s).threads);
  }

  lemma TakeOrder(s: State, t: Tid, time: int)
    requires Inv(s) && s.flag == Prio && Urgent(s.waiters, s.threads)
    ensures Urgent(DoTake(s, t, time).waiters, DoTake(s, t, time).threads)
  {
    var r := DoTake(s, t, time);
    if r.waiters != s.waiters {
      InsertUrgent(s.waiters, s.threads, t);
      SamePrios(r.waiters, s.threads, r.threads);
    }
  }

  lemma SamePrios(l: seq<Tid>, ts: Threads, us: Threads)
    requires Urgent(l, ts) && forall t: Tid :: t in l ==> PrioOf(ts, t) == PrioOf(us, t)
    ensures Urgent(l, us)
  {
  }

  lemma {:induction false} UrgentWithout(l: seq<Tid>, ts: Threads, t: Tid)
    requires Urgent(l, ts)
    ensures Urgent(Without(l, t), ts)
  {
    if l != [] {
      UrgentTail(l, ts);
      UrgentWithout(l[1..], ts, t);
      var m := Without(l[1..], t);
      forall j | 0 <= j < |m|
        ensures PrioOf(ts, l[0]) <= PrioOf(ts, m[j])
      {
        assert m[j] in l[1..];
        var k :| 0 <= k < |l[1..]| && l[1..][k] == m[j];
        assert l[k + 1] == m[j];
      }
    }
  }

  /* ------------------------------- the semaphore in place ------------------------------- */

  class Semaphore {
    var value: int
    const list: WaitList

    function Abs(): State
      reads this, list
    {
      State(value, list.flag, list.waiters, list.threads)
    }

    // rt_sem_init, for a value that fits.
    constructor (value: nat, flag: Flag, threads: Threads)
      requires value <= VALUE_MAX && forall t: Tid :: t in threads && threads[t].armed ==> threads[t].suspended
      ensures Inv(Abs()) && Abs() == State(value, flag, [], threads) && fresh(list)
    {
      this.value := value;
      list := new WaitList(flag, threads);
    }

    // The part of rt_sem_take up to the schedule.
    method Take(t: Tid, time: int) returns (r: Option<Code>)
      requires Inv(Abs()) && Running(Abs(), t)
      modifies this, list
      ensures Inv(Abs()) && Abs() == DoTake(old(Abs()), t, time) && r == TakeResult(old(Abs()), time)
    {
      TakeInv(Abs(), t, time);
      if value > 0 {
        value := value - 1;
        return Some(Eok);
      }
      if time == 0 {
        return Some(Etimeout);
      }
      list.Suspend(t, time);
      r := None;
    }

    method Release() returns (r: Code)
      requires Inv(Abs())
      modifies this, list
      ensures Inv(Abs()) && Abs() == DoRelease(old(Abs())) && r == ReleaseResult(old(Abs()))
    {
      ReleaseInv(Abs());
      if list.waiters != [] {
        assert Waits(Abs(), list.waiters[0]);
        var _ := list.Resume();
      } else if value < VALUE_MAX {
        value := value + 1;
      } else {
        return Efull;
      }
      r := Eok;
    }

    // rt_sem_control with RT_IPC_CMD_RESET.
    method Reset(v: nat)
      requires Inv(Abs())
      modifies this, list
      ensures Inv(Abs()) && Abs() == DoReset(old(Abs()), v)
    {
      ResetInv(Abs(), v);
      forall t: Tid | t in list.waiters
        ensures t in list.threads
      {
        assert Waits(Abs(), t);
      }
      list.ResumeAll();
      value := v % (VALUE_MAX + 1);
    }

    // The timer of a thread that waits with a time limit runs out.
    method Expire(t: Tid)
      requires Inv(Abs()) && t in list.threads && list.threads[t].armed
      modifies list
      ensures Inv(Abs()) && Abs() == DoExpire(old(Abs()), t)
    {
      ExpireInv(Abs(), t);
      list.Timeout(t);
    }
  }
}
