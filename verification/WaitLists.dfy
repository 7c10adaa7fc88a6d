/** Threads that wait for a kernel object: how they queue up, how they are woken, and what each
  way of being woken leaves behind in the thread.
 */
module WaitLists {
  import opened Seqs

  type Tid = nat

  // rt_err_t, and the three ways in which waiting can end.
  datatype Code = Eok | Error | Etimeout | Efull

  // RT_IPC_FLAG_FIFO and RT_IPC_FLAG_PRIO
  datatype Flag = Fifo | Prio

  // A lower number is more urgent. armed: the thread's own timer is running.
  datatype Thread = Thread(suspended: bool, prio: nat, error: Code, armed: bool)

  type Threads = map<Tid, Thread>

  function PrioOf(ts: Threads, t: Tid): nat {
    if t in ts then ts[t].prio else 0
  }

  // Behind every waiter that is as urgent, before the first that is less urgent.
  function InsertByPrio(l: seq<Tid>, ts: Threads, t: Tid): (m: seq<Tid>)
    ensures forall x: Tid :: x in m <==> x in l || x == t
  {
    if l == [] then [t]
    else if PrioOf(ts, t) < PrioOf(ts, l[0]) then [t] + l
    else [l[0]] + InsertByPrio(l[1..], ts, t)
  }

  function Enqueue(flag: Flag, l: seq<Tid>, ts: Threads, t: Tid): (m: seq<Tid>)
    ensures forall x: Tid :: x in m <==> x in l || x == t
  {
    if flag == Fifo then l + [t] else InsertByPrio(l, ts, t)
  }

  // The most urgent waiter comes first.
  ghost predicate Urgent(l: seq<Tid>, ts: Threads) {
    forall i, j :: 0 <= i < j < |l| ==> PrioOf(ts, l[i]) <= PrioOf(ts, l[j])
  }

  lemma {:induction false} InsertKeeps(l: seq<Tid>, ts: Threads, t: Tid)
    requires Distinct(l) && t !in l
    ensures Distinct(InsertByPrio(l, ts, t))
    ensures Urgent(l, ts) ==> Urgent(InsertByPrio(l, ts, t), ts)
  {
    InsertDistinct(l, ts, t);
    if Urgent(l, ts) {
      InsertUrgent(l, ts, t);
    }
  }

  lemma {:induction false} InsertDistinct(l: seq<Tid>, ts: Threads, t: Tid)
    requires Distinct(l) && t !in l
    ensures Distinct(InsertByPrio(l, ts, t))
  {
    if l != [] && PrioOf(ts, t) >= PrioOf(ts, l[0]) {
      var m := InsertByPrio(l[1..], ts, t);
      InsertDistinct(l[1..], ts, t);
      forall j | 0 <= j < |m|
        ensures m[j] != l[0]
      {
        assert m[j] in m;
        assert forall k :: 0 <= k < |l[1..]| ==> l[1..][k] == l[k + 1];
      }
    }
  }

  lemma {:induction false} InsertUrgent(l: seq<Tid>, ts: Threads, t: Tid)
    requires Urgent(l, ts)
    ensures Urgent(InsertByPrio(l, ts, t), ts)
  {
    if l != [] {
      assert forall i :: 0 <= i < |l| ==> PrioOf(ts, l[0]) <= PrioOf(ts, l[i]);
      if PrioOf(ts, t) >= PrioOf(ts, l[0]) {
        var m := InsertByPrio(l[1..], ts, t);
        UrgentTail(l, ts);
        InsertUrgent(l[1..], ts, t);
        forall j | 0 <= j < |m|
          ensures PrioOf(ts, l[0]) <= PrioOf(ts, m[j])
        {
          assert m[j] in m;
          assert forall k :: 0 <= k < |l[1..]| ==> l[1..][k] == l[k + 1];
        }
      }
    }
  }

  // Among the equally urgent, those who came first stay first: the others keep their order and
  // the new one is behind all that are not less urgent.
  lemma {:induction false} InsertPlace(l: seq<Tid>, ts: Threads, t: Tid) returns (k: nat)
    requires Urgent(l, ts)
    ensures k <= |l| && InsertByPrio(l, ts, t) == l[..k] + [t] + l[k..]
    ensures forall i :: 0 <= i < |l| ==> (i < k <==> PrioOf(ts, l[i]) <= PrioOf(ts, t))
  {
    if l == [] {
      k := 0;
    } else if PrioOf(ts, t) < PrioOf(ts, l[0]) {
      k := 0;
      assert forall i :: 0 < i < |l| ==> PrioOf(ts, l[0]) <= PrioOf(ts, l[i]);
    } else {
      UrgentTail(l, ts);
      var j := InsertPlace(l[1..], ts, t);
      k := j + 1;
      Shifted(l, ts, t, j);
      assert l[1..][..j] == l[1..k] && l[1..][j..] == l[k..];
      assert l[..k] == [l[0]] + l[1..k];
    }
  }

  lemma UrgentTail(l: seq<Tid>, ts: Threads)
    requires Urgent(l, ts) && l != []
    ensures Urgent(l[1..], ts)
  {
    assert forall i :: 0 <= i < |l| - 1 ==> l[1..][i] == l[i + 1];
  }

  lemma Shifted(l: seq<Tid>, ts: Threads, t: Tid, j: nat)
    requires l != [] && PrioOf(ts, l[0]) <= PrioOf(ts, t)
    requires forall i :: 0 <= i < |l| - 1 ==> (i < j <==> PrioOf(ts, l[1..][i]) <= PrioOf(ts, t))
    ensures forall i :: 0 <= i < |l| ==> (i < j + 1 <==> PrioOf(ts, l[i]) <= PrioOf(ts, t))
  {
    forall i | 0 <= i < |l|
      ensures i < j + 1 <==> PrioOf(ts, l[i]) <= PrioOf(ts, t)
    {
      assert i > 0 ==> l[1..][i - 1] == l[i];
    }
  }

  lemma InsertStep(l: seq<Tid>, ts: Threads, t: Tid, n: nat)
    requires n < |l| && PrioOf(ts, t) >= PrioOf(ts, l[n])
    ensures l[..n] + InsertByPrio(l[n..], ts, t) == l[..n + 1] + InsertByPrio(l[n + 1..], ts, t)
  {
    var m := l[n + 1..];
    assert l[n..] == [l[n]] + m;
    InsertBehind(l[n], m, ts, t);
    assert l[..n + 1] == l[..n] + [l[n]];
    Regroup(l[..n], [l[n]], InsertByPrio(m, ts, t));
  }

  lemma InsertBehind(x: Tid, m: seq<Tid>, ts: Threads, t: Tid)
    requires PrioOf(ts, t) >= PrioOf(ts, x)
    ensures InsertByPrio([x] + m, ts, t) == [x] + InsertByPrio(m, ts, t)
  {
    assert ([x] + m)[1..] == m;
  }

  lemma Regroup(a: seq<Tid>, b: seq<Tid>, c: seq<Tid>)
    ensures a + (b + c) == a + b + c
  {
  }

  // The place depends on the priorities only.
  lemma {:induction false} SamePlace(l: seq<Tid>, ts: Threads, us: Threads, t: Tid)
    requires forall x: Tid :: PrioOf(ts, x) == PrioOf(us, x)
    ensures InsertByPrio(l, ts, t) == InsertByPrio(l, us, t)
  {
    if l != [] {
      SamePlace(l[1..], ts, us, t);
    }
  }

  // What waking a thread does to it.
  function Woken(ts: Threads, t: Tid, e: Code): Threads
    requires t in ts
  {
    ts[t := ts[t].(suspended := false, error := e, armed := false)]
  }

  // Everybody on the list is woken with the same code.
  function WokenAll(ts: Threads, l: seq<Tid>, e: Code): (r: Threads)
    requires forall t :: t in l ==> t in ts
    ensures r.Keys == ts.Keys
  {
    if l == [] then ts else WokenAll(Woken(ts, l[0], e), l[1..], e)
  }

  lemma {:induction false} WokenAllEach(ts: Threads, l: seq<Tid>, e: Code, t: Tid)
    requires (forall x :: x in l ==> x in ts) && t in ts
    ensures WokenAll(ts, l, e)[t] == if t in l then ts[t].(suspended := false, error := e, armed := false) else ts[t]
  {
    if l != [] {
      WokenAllEach(Woken(ts, l[0], e), l[1..], e, t);
    }
  }

  /* ------------------------------- the list in place ------------------------------- */

  // One suspend list together with the threads of the system.
  class WaitList {
    var flag: Flag
    var waiters: seq<Tid>
    var threads: Threads

    constructor (flag: Flag, threads: Threads)
      ensures this.flag == flag && this.threads == threads && waiters == []
    {
      this.flag := flag;
      this.threads := threads;
      waiters := [];
    }

    // rt_ipc_list_suspend for a ready thread, after its error has been reset; a positive time
    // starts its timer.
    method Suspend(t: Tid, time: int)
      requires t in threads && !threads[t].suspended
      modifies this`waiters, this`threads
      ensures threads == old(threads)[t := old(threads)[t].(suspended := true, error := Eok, armed := time > 0)]
      ensures waiters == Enqueue(flag, old(waiters), old(threads), t)
    {
      threads := threads[t := threads[t].(suspended := true, error := Eok, armed := false)];
      if flag == Fifo {
        waiters := waiters + [t];
      } else {
        var n := FindPlace(t);
        SamePlace(waiters, old(threads), threads, t);
        waiters := waiters[..n] + [t] + waiters[n..];
      }
      if time > 0 {
        threads := threads[t := threads[t].(armed := true)];
      }
    }

    // Where in a list by priority the thread belongs.
    method FindPlace(t: Tid) returns (n: nat)
      ensures n <= |waiters| && InsertByPrio(waiters, threads, t) == waiters[..n] + [t] + waiters[n..]
    {
      n := 0;
      while n < |waiters| && PrioOf(threads, t) >= PrioOf(threads, waiters[n])
        invariant n <= |waiters|
        invariant InsertByPrio(waiters, threads, t) == waiters[..n] + InsertByPrio(waiters[n..], threads, t)
      {
        InsertStep(waiters, threads, t, n);
        n := n + 1;
      }
    }

    // rt_ipc_list_resume: the first waiter goes on, with whatever is in its error.
    method Resume() returns (t: Tid)
      requires waiters != [] && waiters[0] in threads && Distinct(waiters)
      modifies this`waiters, this`threads
      ensures t == old(waiters)[0] && waiters == old(waiters)[1..]
      ensures threads == Woken(old(threads), t, old(threads)[t].error)
    {
      t := waiters[0];
      waiters := waiters[1..];
      threads := threads[t := threads[t].(suspended := false, armed := false)];
    }

    // rt_ipc_list_resume_all: everybody goes on with an error.
    method ResumeAll()
      requires forall t :: t in waiters ==> t in threads
      modifies this`waiters, this`threads
      ensures waiters == [] && threads == WokenAll(old(threads), old(waiters), Error)
    {
      while waiters != []
        invariant forall t :: t in waiters ==> t in threads
        invariant WokenAll(threads, waiters, Error) == WokenAll(old(threads), old(waiters), Error)
        decreases |waiters|
      {
        var t := waiters[0];
        threads := threads[t := threads[t].(suspended := false, error := Error, armed := false)];
        waiters := waiters[1..];
      }
    }

    // rt_thread_timeout, for a thread on this list or asleep.
    method Timeout(t: Tid)
      requires t in threads && threads[t].suspended
      modifies this`waiters, this`threads
      ensures waiters == Without(old(waiters), t) && threads == Woken(old(threads), t, Etimeout)
    {
      threads := threads[t := threads[t].(error := Etimeout, armed := false)];
      waiters := Without(waiters, t);
      threads := threads[t := threads[t].(suspended := false)];
    }
  }
}
