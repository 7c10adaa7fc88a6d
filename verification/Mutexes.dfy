/** Mutexes with priority inheritance: who owns one, how deeply, and how urgent the owner is
  compared with those who wait.
 */
module Mutexes {
  import opened Seqs
  import opened WaitLists
  import Semaphores

  const VALUE_MAX: int := 65535  // RT_MUTEX_VALUE_MAX
  const HOLD_MAX: int := 255     // RT_MUTEX_HOLD_MAX

  datatype State = State(value: int, hold: int, owner: Option<Tid>, original: nat, flag: Flag, waiters: seq<Tid>, threads: Threads)

  // One region with interrupts off; the thread is the one that runs, except in Expire.
  datatype Action =
    | Take(t: Tid, time: int)
    | Release(t: Tid)
    | Expire(t: Tid)
    | Sleep(t: Tid, time: int)

  predicate Running(s: State, t: Tid) {
    t in s.threads && !s.threads[t].suspended
  }

  function WithError(ts: Threads, t: Tid, e: Code): Threads
    requires t in ts
  {
    ts[t := ts[t].(error := e)]
  }

  function WithPrio(ts: Threads, t: Tid, p: nat): Threads {
    if t in ts then ts[t := ts[t].(prio := p)] else ts
  }

  // The owner becomes at least as urgent as thread t.
  function Inherit(s: State, t: Tid): Threads {
    if s.owner.Some? && PrioOf(s.threads, t) < PrioOf(s.threads, s.owner.value)
    then WithPrio(s.threads, s.owner.value, PrioOf(s.threads, t)) else s.threads
  }

  function DoTake(s0: State, t: Tid, time: int): State {
    if !Running(s0, t) then s0
    else
      var s := s0.(threads := WithError(s0.threads, t, Eok));
      if s.owner == Some(t) then
        if s.hold < HOLD_MAX then s.(hold := s.hold + 1) else s
      else if s.value > 0 then
        var r := s.(value := s.value - 1, owner := Some(t), original := PrioOf(s.threads, t));
        if s.hold < HOLD_MAX then r.(hold := s.hold + 1) else r
      else if time == 0 then s.(threads := WithError(s.threads, t, Etimeout))
      else
        var ts := Inherit(s, t);
        s.(waiters := Enqueue(s.flag, s.waiters, ts, t),
           threads := ts[t := ts[t].(suspended := true, error := Eok, armed := time > 0)])
  }

  // What the caller is told at once; None if it has to wait.
  function TakeResult(s: State, t: Tid, time: int): Option<Code> {
    if s.owner == Some(t) || s.value > 0 then if s.hold < HOLD_MAX then Some(Eok) else Some(Efull)
    else if time == 0 then Some(Etimeout) else None
  }

  function DoRelease(s: State, t: Tid): State {
    if !Running(s, t) then s
    else if s.owner != Some(t) then s.(threads := WithError(s.threads, t, Error))
    else if s.hold - 1 != 0 then s.(hold := s.hold - 1)
    else
      var ts := WithPrio(s.threads, t, s.original);
      if s.waiters != [] && s.waiters[0] in ts then
        var w := s.waiters[0];
        s.(owner := Some(w), original := PrioOf(ts, w), hold := 1,
           waiters := s.waiters[1..], threads := Woken(ts, w, ts[w].error))
      else if s.value < VALUE_MAX then
        s.(hold := 0, value := s.value + 1, owner := None, original := 0xff, threads := ts)
      else s.(hold := 0, threads := ts)
  }

  function ReleaseResult(s: State, t: Tid): Code {
    if s.owner != Some(t) then Error
    else if s.hold - 1 == 0 && s.waiters == [] && s.value >= VALUE_MAX then Efull
    else Eok
  }

  function Apply(s: State, a: Action): State {
    match a
    case Take(t, time) => DoTake(s, t, time)
    case Release(t) => DoRelease(s, t)
    case Expire(t) =>
      if t in s.threads && s.threads[t].armed then
        s.(waiters := Without(s.waiters, t), threads := Woken(s.threads, t, Etimeout))
      else s
    case Sleep(t, time) =>
      if Running(s, t) && time > 0 then s.(threads := s.threads[t := s.threads[t].(suspended := true, armed := true)]) else s
  }

  function Run(s: State, steps: seq<Action>): State
    decreases |steps|
  {
    if steps == [] then s else Apply(Run(s, steps[..|steps| - 1]), steps[|steps| - 1])
  }

  /* ------------------------------- ownership ------------------------------- */

  ghost predicate Waits(s: State, t: Tid) {
    t in s.threads && s.threads[t].suspended && s.threads[t].error == Eok
  }

  // Free exactly if nobody owns it exactly if it is not held; who waits, waits for an owner,
  // and the owner does not wait for itself.
  ghost predicate Inv(s: State) {
    && s.value == (if s.owner.None? then 1 else 0)
    && 0 <= s.hold <= HOLD_MAX && (s.hold == 0 <==> s.owner.None?)
    && (s.waiters != [] ==> s.owner.Some?)
    && (s.owner.Some? ==> s.owner.value in s.threads && s.owner.value !in s.waiters)
    && Distinct(s.waiters) && (forall t: Tid :: t in s.waiters ==> Waits(s, t))
    && (forall t: Tid :: t in s.threads && s.threads[t].armed ==> s.threads[t].suspended)
  }

  lemma TakeInv(s: State, t: Tid, time: int)
    requires Inv(s)
    ensures Inv(DoTake(s, t, time))
  {
    if Running(s, t) {
      var r := DoTake(s, t, time);
      assert t !in s.waiters by {
        assert t in s.waiters ==> Waits(s, t);
      }
      var ts := Inherit(s.(threads := WithError(s.threads, t, Eok)), t);
      InsertKeeps(s.waiters, ts, t);
      forall x: Tid | x in r.waiters
        ensures Waits(r, x)
      {
        assert x != t ==> Waits(s, x);
      }
    }
  }

  lemma ReleaseInv(s: State, t: Tid)
    requires Inv(s)
    ensures Inv(DoRelease(s, t))
  {
    var r := DoRelease(s, t);
    if s.waiters != [] {
      assert Waits(s, s.waiters[0]);
    }
    HeadApart(s.waiters);
    forall x: Tid | x in r.waiters
      ensures Waits(r, x)
    {
      assert Waits(s, x);
    }
  }

  lemma StepInv(s: State, a: Action)
    requires Inv(s)
    ensures Inv(Apply(s, a))
  {
    match a
    case Take(t, time) => TakeInv(s, t, time);
    case Release(t) => ReleaseInv(s, t);
    case Expire(t) =>
      WithoutDistinct(s.waiters, t);
      assert forall x: Tid :: x in Apply(s, a).waiters ==> Waits(s, x) ==> Waits(Apply(s, a), x);
    case Sleep(t, time) =>
      assert forall x: Tid :: x in s.waiters ==> Waits(s, x) ==> Waits(Apply(s, a), x);
  }

  lemma {:induction false} RunInv(s: State, steps: seq<Action>)
    requires Inv(s)
    ensures Inv(Run(s, steps))
    decreases |steps|
  {
    if steps != [] {
      RunInv(s, steps[..|steps| - 1]);
      StepInv(Run(s, steps[..|steps| - 1]), steps[|steps| - 1]);
    }
  }

  /* ------------------------------- what callers are told ------------------------------- */

  // Somebody else owns the mutex.
  predicate Busy(s: State, t: Tid) {
    s.owner.Some? && s.owner.value != t
  }

  // A taker is told success exactly if it now owns the mutex once more than before, that it is full
  // exactly if it owns it 255 times already, that its time is up exactly if somebody else owns it
  // and it will not wait, and nothing yet exactly if it is now waiting.
  lemma TakeAnswer(s: State, t: Tid, time: int)
    requires Inv(s) && Running(s, t)
    ensures var r, told := DoTake(s, t, time), TakeResult(s, t, time);
      && (told == Some(Eok) <==> r.owner == Some(t) && r.hold == s.hold + 1)
      && (told == Some(Efull) <==> s.owner == Some(t) && s.hold == 255)
      && (told == Some(Etimeout) <==> Busy(s, t) && time == 0)
      && (told.None? <==> Busy(s, t) && time != 0) && (told.None? <==> t in r.waiters)
      && (told != Some(Eok) ==> r.owner == s.owner && r.hold == s.hold && r.value == s.value && r.original == s.original)
      && (told.Some? ==> r.waiters == s.waiters && t in r.threads && r.threads[t] == s.threads[t].(error := if told == Some(Etimeout) then Etimeout else Eok))
      && (told.None? ==> r.threads[t].suspended && r.threads[t].error == Eok && (r.threads[t].armed <==> time > 0))
  {
    assert t !in s.waiters by {
      assert t in s.waiters ==> Waits(s, t);
    }
  }

  // Whatever the order of the list, a thread that has to wait makes the owner as urgent as itself
  // if it was less so; a first owner's priority is noted; and no other priority is touched.
  lemma TakeRaises(s: State, t: Tid, time: int)
    requires Inv(s) && Running(s, t)
    ensures var r := DoTake(s, t, time);
      && (forall x: Tid :: x in s.threads ==>
        x in r.threads && r.threads[x].prio ==
          if TakeResult(s, t, time).None? && s.owner == Some(x) && s.threads[t].prio < s.threads[x].prio then s.threads[t].prio
          else s.threads[x].prio)
      && (s.owner.None? ==> r.original == s.threads[t].prio)
  {
  }

  // A release is refused to all but the owner, and then leaves all but the caller's error as it was.
  // The owner owns the mutex once less; with the last release it has the noted priority back, and
  // the first waiter owns the mutex, or nobody.
  lemma ReleaseAnswer(s: State, t: Tid)
    requires Inv(s) && Running(s, t)
    ensures var r, told := DoRelease(s, t), ReleaseResult(s, t);
      && (told == Error <==> s.owner != Some(t)) && (told == Error || told == Eok)
      && (told == Error ==> r == s.(threads := s.threads[t := s.threads[t].(error := Error)]))
      && (told == Eok && s.hold > 1 ==> r == s.(hold := s.hold - 1))
      && (told == Eok && s.hold == 1 ==>
        && t in r.threads && r.threads[t].prio == s.original
        && if s.waiters == [] then r.owner.None? && r.hold == 0 && r.value == 1 && r.waiters == [] && r.original == 0xff
           else r.owner == Some(s.waiters[0]) && r.hold == 1 && r.value == 0 && r.waiters == s.waiters[1..]
                && r.threads[s.waiters[0]] == s.threads[s.waiters[0]].(suspended := false, armed := false)
                && r.original == s.threads[s.waiters[0]].prio)
  {
    if s.waiters != [] {
      assert Waits(s, s.waiters[0]);
    }
  }

  // A thread whose time is up leaves the list and goes on with the code for that; the mutex and all
  // other threads stay as they are, what the owner has inherited included.
  lemma ExpireMeans(s: State, t: Tid)
    requires Inv(s) && t in s.threads && s.threads[t].armed
    ensures var r := Apply(s, Expire(t));
      && r.value == s.value && r.hold == s.hold && r.owner == s.owner && r.original == s.original
      && (forall x: Tid :: x in r.waiters <==> x in s.waiters && x != t)
      && r.threads == s.threads[t := s.threads[t].(suspended := false, error := Etimeout, armed := false)]
  {
  }

  // Takes and releases that succeed with this step; a release may hand the mutex on.
  function Taken(s: State, a: Action): nat {
    match a
    case Take(t, time) => if Running(s, t) && TakeResult(s, t, time) == Some(Eok) then 1 else 0
    case Release(t) => if Running(s, t) && s.owner == Some(t) && s.hold == 1 && s.waiters != [] then 1 else 0
    case _ => 0
  }

  function Released(s: State, a: Action): nat {
    if a.Release? && Running(s, a.t) && ReleaseResult(s, a.t) == Eok then 1 else 0
  }

  function Balance(s: State, steps: seq<Action>): int
    decreases |steps|
  {
    if steps == [] then 0
    else
      var n := |steps| - 1;
      var u := Run(s, steps[..n]);
      Balance(s, steps[..n]) + Taken(u, steps[n]) - Released(u, steps[n])
  }

  // The hold is the takes minus the releases, over any run.
  lemma {:induction false} HoldCounts(s: State, steps: seq<Action>)
    requires Inv(s)
    ensures Run(s, steps).hold == s.hold + Balance(s, steps)
    decreases |steps|
  {
    if steps != [] {
      var n := |steps| - 1;
      RunInv(s, steps[..n]);
      HoldCounts(s, steps[..n]);
      StepHold(Run(s, steps[..n]), steps[n]);
    }
  }

  lemma StepHold(s: State, a: Action)
    requires Inv(s)
    ensures Apply(s, a).hold == s.hold + Taken(s, a) - Released(s, a)
  {
    if s.waiters != [] {
      assert Waits(s, s.waiters[0]);
    }
  }

  // Nobody loses a mutex to somebody else: it changes hands only when its owner releases it for
  // the last time, and then goes to the first who waits.
  lemma OwnerKeeps(s: State, a: Action)
    requires Inv(s) && s.owner.Some? && Apply(s, a).owner != s.owner
    ensures a == Release(s.owner.value) && s.hold == 1
    ensures Apply(s, a).owner == if s.waiters == [] then None else Some(s.waiters[0])
    ensures Apply(s, a).owner.Some? ==> Running(Apply(s, a), Apply(s, a).owner.value)
  {
    if s.waiters != [] {
      assert Waits(s, s.waiters[0]);
    }
  }

  /* ------------------------------- how urgent the owner is ------------------------------- */

  // base gives the priorities that threads have of their own. With a list by priority, only the
  // owner may be more urgent than its own priority, and it is as urgent as anyone who waits.
  ghost predicate Inherits(s: State, base: map<Tid, nat>) {
    && s.flag == Prio && Urgent(s.waiters, s.threads)
    && (forall t: Tid :: t in s.threads ==> OwnPrio(s, base, t))
    && (s.owner.Some? ==> Covers(s, s.owner.value))
  }

  ghost predicate OwnPrio(s: State, base: map<Tid, nat>, t: Tid)
    requires t in s.threads
  {
    t in base && if s.owner == Some(t) then s.original == base[t] >= s.threads[t].prio else s.threads[t].prio == base[t]
  }

  // Thread o is at least as urgent as all who wait.
  ghost predicate Covers(s: State, o: Tid) {
    forall t: Tid :: t in s.waiters ==> PrioOf(s.threads, o) <= PrioOf(s.threads, t)
  }

  lemma TakeInherits(s: State, base: map<Tid, nat>, t: Tid, time: int)
    requires Inv(s) && Inherits(s, base)
    ensures Inherits(DoTake(s, t, time), base)
  {
    if Running(s, t) {
      var r := DoTake(s, t, time);
      assert t !in s.waiters by {
        assert t in s.waiters ==> Waits(s, t);
      }
      forall x: Tid | x in r.threads
        ensures OwnPrio(r, base, x)
      {
        assert OwnPrio(s, base, x);
      }
      TakeUrgent(s, t, time);
      TakeCovers(s, t, time);
    }
  }

  lemma TakeUrgent(s: State, t: Tid, time: int)
    requires Inv(s) && s.flag == Prio && Urgent(s.waiters, s.threads) && Running(s, t) && t !in s.waiters
    ensures var r := DoTake(s, t, time); Urgent(r.waiters, r.threads)
  {
    var r := DoTake(s, t, time);
    if r.waiters == s.waiters {
      Semaphores.SamePrios(s.waiters, s.threads, r.threads);
    } else {
      var ts := Inherit(s.(threads := WithError(s.threads, t, Eok)), t);
      Semaphores.SamePrios(s.waiters, s.threads, ts);
      InsertKeeps(s.waiters, ts, t);
      Semaphores.SamePrios(r.waiters, ts, r.threads);
    }
  }

  lemma TakeCovers(s: State, t: Tid, time: int)
    requires Inv(s) && Running(s, t) && t !in s.waiters && (s.owner.Some? ==> Covers(s, s.owner.value))
    ensures var r := DoTake(s, t, time); r.owner.Some? ==> Covers(r, r.owner.value)
  {
    var r := DoTake(s, t, time);
    if r.owner == s.owner && s.owner.Some? {
      var o := s.owner.value;
      forall x: Tid | x in r.waiters
        ensures PrioOf(r.threads, o) <= PrioOf(r.threads, x)
      {
        assert x != t ==> PrioOf(r.threads, x) == PrioOf(s.threads, x);
      }
    }
  }

  lemma ReleaseInherits(s: State, base: map<Tid, nat>, t: Tid)
    requires Inv(s) && Inherits(s, base)
    ensures Inherits(DoRelease(s, t), base)
  {
    var r := DoRelease(s, t);
    forall x: Tid | x in r.threads
      ensures OwnPrio(r, base, x)
    {
      ReleaseOwn(s, base, t, x);
    }
    ReleaseUrgent(s, t);
    ReleaseCovers(s, t);
  }

  lemma ReleaseOwn(s: State, base: map<Tid, nat>, t: Tid, x: Tid)
    requires Inv(s) && (forall y: Tid :: y in s.threads ==> OwnPrio(s, base, y)) && x in DoRelease(s, t).threads
    ensures OwnPrio(DoRelease(s, t), base, x)
  {
    if s.waiters != [] {
      assert Waits(s, s.waiters[0]);
    }
    assert OwnPrio(s, base, x);
    if s.owner.Some? {
      assert OwnPrio(s, base, s.owner.value);
    }
  }

  lemma ReleaseUrgent(s: State, t: Tid)
    requires Inv(s) && Urgent(s.waiters, s.threads)
    ensures Urgent(DoRelease(s, t).waiters, DoRelease(s, t).threads)
  {
    var r := DoRelease(s, t);
    if r.waiters != s.waiters {
      assert Waits(s, s.waiters[0]);
      HeadApart(s.waiters);
      UrgentTail(s.waiters, s.threads);
    }
    Semaphores.SamePrios(r.waiters, s.threads, r.threads);
  }

  lemma ReleaseCovers(s: State, t: Tid)
    requires Inv(s) && Urgent(s.waiters, s.threads) && (s.owner.Some? ==> Covers(s, s.owner.value))
    ensures var r := DoRelease(s, t); r.owner.Some? ==> Covers(r, r.owner.value)
  {
    var r := DoRelease(s, t);
    if r.waiters != s.waiters {
      HeadApart(s.waiters);
      assert Waits(s, s.waiters[0]);
      forall x: Tid | x in r.waiters
        ensures PrioOf(r.threads, r.owner.value) <= PrioOf(r.threads, x)
      {
        var k :| 0 <= k < |r.waiters| && r.waiters[k] == x;
        assert s.waiters[k + 1] == x;
      }
    }
  }

  // Inheritance holds in every reachable state.
  lemma StepInherits(s: State, base: map<Tid, nat>, a: Action)
    requires Inv(s) && Inherits(s, base)
    ensures Inherits(Apply(s, a), base)
  {
    match a
    case Take(t, time) => TakeInherits(s, base, t, time);
    case Release(t) => ReleaseInherits(s, base, t);
    case Expire(t) =>
      Semaphores.UrgentWithout(s.waiters, s.threads, t);
      Quiet(s, base, a);
    case Sleep(t, time) =>
      Quiet(s, base, a);
  }

  lemma Quiet(s: State, base: map<Tid, nat>, a: Action)
    requires Inherits(s, base) && (a.Expire? || a.Sleep?)
    requires a.Expire? ==> Urgent(Without(s.waiters, a.t), s.threads)
    ensures Inherits(Apply(s, a), base)
  {
    var r := Apply(s, a);
    forall x: Tid | x in r.threads
      ensures OwnPrio(r, base, x)
    {
      assert OwnPrio(s, base, x);
    }
    Semaphores.SamePrios(r.waiters, s.threads, r.threads);
  }

  lemma {:induction false} RunInherits(s: State, base: map<Tid, nat>, steps: seq<Action>)
    requires Inv(s) && Inherits(s, base)
    ensures Inherits(Run(s, steps), base)
    decreases |steps|
  {
    if steps != [] {
      RunInv(s, steps[..|steps| - 1]);
      RunInherits(s, base, steps[..|steps| - 1]);
      StepInherits(Run(s, steps[..|steps| - 1]), base, steps[|steps| - 1]);
    }
  }

  // The last release gives the owner its own priority back, whatever it had inherited.
  lemma ReleaseRestores(s: State, base: map<Tid, nat>, t: Tid)
    requires Inv(s) && Inherits(s, base) && Running(s, t) && s.owner == Some(t) && s.hold == 1
    ensures DoRelease(s, t).threads[t].prio == base[t]
  {
    StepInherits(s, base, Release(t));
    ReleaseInv(s, t);
    assert OwnPrio(s, base, t);
    assert OwnPrio(DoRelease(s, t), base, t);
  }

  // Handing a mutex on does not hand on what was inherited: with any list, the new owner is as
  // urgent as those who still wait exactly if it was so while it waited itself.
  lemma HandOverExact(s: State, t: Tid)
    requires Inv(s) && Running(s, t) && s.owner == Some(t) && s.hold == 1 && s.waiters != []
    ensures var r := DoRelease(s, t);
      Covers(r, s.waiters[0]) <==> Covers(s, s.waiters[0])
  {
    var w, r := s.waiters[0], DoRelease(s, t);
    HeadApart(s.waiters);
    assert Waits(s, w);
    assert forall x: Tid :: x in s.waiters ==> PrioOf(r.threads, x) == PrioOf(s.threads, x);
  }

  // With a first-come list that fails: thread 1, less urgent, is first and thread 2 still waits.
  lemma FifoInverts()
    ensures
      var idle := Thread(false, 5, Eok, false);
      var s := State(0, 1, Some(0), 5, Fifo, [1, 2],
        map[0 := idle, 1 := Thread(true, 20, Eok, false), 2 := Thread(true, 10, Eok, false)]);
      && Inv(s) && Covers(s, 0) && !Covers(DoRelease(s, 0), 1) && DoRelease(s, 0).owner == Some(1)
  {
    var s := State(0, 1, Some(0), 5, Fifo, [1, 2],
      map[0 := Thread(false, 5, Eok, false), 1 := Thread(true, 20, Eok, false), 2 := Thread(true, 10, Eok, false)]);
    var r := DoRelease(s, 0);
    assert r.waiters == [2];
    assert 2 in r.waiters && PrioOf(r.threads, 1) == 20 && PrioOf(r.threads, 2) == 10;
  }

  /* ------------------------------- the mutex in place ------------------------------- */

  class Mutex {
    var value: int
    var hold: int
    var owner: Option<Tid>
    var original: nat
    const list: WaitList

    function Abs(): State
      reads this, list
    {
      State(value, hold, owner, original, list.flag, list.waiters, list.threads)
    }

    // rt_mutex_init
    constructor (flag: Flag, threads: Threads)
      requires forall t: Tid :: t in threads && threads[t].armed ==> threads[t].suspended
      ensures Inv(Abs()) && Abs() == State(1, 0, None, 0xff, flag, [], threads) && fresh(list)
    {
      value, hold, owner, original := 1, 0, None, 0xff;
      list := new WaitList(flag, threads);
    }

    method SetError(t: Tid, e: Code)
      requires t in list.threads
      modifies list`threads
      ensures list.threads == WithError(old(list.threads), t, e)
    {
      list.threads := list.threads[t := list.threads[t].(error := e)];
    }

    // rt_thread_control with RT_THREAD_CTRL_CHANGE_PRIORITY, as far as it concerns the thread itself.
    method SetPrio(t: Tid, p: nat)
      requires t in list.threads
      modifies list`threads
      ensures list.threads == WithPrio(old(list.threads), t, p)
    {
      list.threads := list.threads[t := list.threads[t].(prio := p)];
    }

    // The part of rt_mutex_take up to the schedule.
    method Take(t: Tid, time: int) returns (r: Option<Code>)
      requires Inv(Abs()) && Running(Abs(), t)
      modifies this, list
      ensures Inv(Abs()) && Abs() == DoTake(old(Abs()), t, time) && r == TakeResult(old(Abs()), t, time)
    {
      TakeInv(Abs(), t, time);
      SetError(t, Eok);
      if owner == Some(t) {
        if hold < HOLD_MAX {
          hold := hold + 1;
          return Some(Eok);
        }
        return Some(Efull);
      }
      if value > 0 {
        value := value - 1;
        owner := Some(t);
        original := list.threads[t].prio;
        hold := hold + 1;
        return Some(Eok);
      }
      if time == 0 {
        SetError(t, Etimeout);
        return Some(Etimeout);
      }
      if list.threads[t].prio < list.threads[owner.value].prio {
        SetPrio(owner.value, list.threads[t].prio);
      }
      list.Suspend(t, time);
      r := None;
    }

    method Release(t: Tid) returns (r: Code)
      requires Inv(Abs()) && Running(Abs(), t)
      modifies this, list
      ensures Inv(Abs()) && Abs() == DoRelease(old(Abs()), t) && r == ReleaseResult(old(Abs()), t)
    {
      ReleaseInv(Abs(), t);
      if owner != Some(t) {
        SetError(t, Error);
        return Error;
      }
      hold := hold - 1;
      if hold == 0 {
        if original != list.threads[t].prio {
          SetPrio(t, original);
        }
        if list.waiters != [] {
          HandOver();
        } else {
          value := value + 1;
          owner := None;
          original := 0xff;
        }
      }
      r := Eok;
    }

    // The first who waits becomes the owner.
    method HandOver()
      requires hold == 0 && Distinct(list.waiters) && list.waiters != [] && list.waiters[0] in list.threads
      modifies this`owner, this`original, this`hold, list
      ensures Abs() == var w := old(list.waiters[0]);
        old(Abs()).(owner := Some(w), original := PrioOf(old(list.threads), w), hold := 1,
          waiters := old(list.waiters)[1..], threads := Woken(old(list.threads), w, old(list.threads)[w].error))
    {
      var w := list.waiters[0];
      owner := Some(w);
      original := list.threads[w].prio;
      hold := hold + 1;
      var _ := list.Resume();
    }
  }
}
