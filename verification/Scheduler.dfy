/** The scheduler: ready lists by priority, the bitmap of those that are not empty, and who runs.
 */
module Scheduler {
  import opened Seqs
  import opened Bitmaps

  type Tid = nat

  // ready: the thread's state is RT_THREAD_READY. slice is init_tick, left is remaining_tick.
  datatype Thread = Thread(ready: bool, prio: nat, slice: int, left: int)

  // A thread is on the list of its priority exactly if it is ready, and on no other list. The
  // thread left out of account is being moved.
  ghost predicate Placed(lists: seq<seq<Tid>>, threads: map<Tid, Thread>, moving: Option<Tid>, p: nat)
    requires p < |lists|
  {
    && Distinct(lists[p])
    && forall t: Tid :: t in lists[p] <==> t in threads && threads[t].ready && threads[t].prio == p && moving != Some(t)
  }

  ghost predicate AllPlaced(lists: seq<seq<Tid>>, threads: map<Tid, Thread>, moving: Option<Tid>) {
    && (forall p :: 0 <= p < |lists| ==> Placed(lists, threads, moving, p))
    && forall t: Tid :: t in threads ==> threads[t].prio < |lists|
  }

  // A priority's bit is set exactly if its list is not empty.
  ghost predicate Mapped(lists: seq<seq<Tid>>, m: Bitmap) {
    && WellFormed(m) && GroupRight(m) && |lists| <= Priorities(m)
    && forall p :: 0 <= p < Priorities(m) ==> (IsSet(m, p) <==> p < |lists| && lists[p] != [])
  }

  class Scheduler {
    var lists: seq<seq<Tid>>       // rt_thread_priority_table
    var bits: Bitmap
    var threads: map<Tid, Thread>
    var current: Option<Tid>
    var currentPrio: nat
    var lockNest: int

    ghost predicate Valid()
      reads this
    {
      AllPlaced(lists, threads, None) && Mapped(lists, bits)
    }

    // rt_system_scheduler_init; two levels are for more than 32 priorities.
    constructor (priorities: nat, two: bool)
      requires 1 <= priorities <= if two then 256 else 32
      ensures Valid() && |lists| == priorities && threads == map[] && current == None && lockNest == 0
    {
      lists := seq(priorities, _ => []);
      bits := Empty(two);
      threads, current, currentPrio, lockNest := map[], None, priorities - 1, 0;
    }

    // rt_schedule_insert_thread: last on the list of its priority.
    method Insert(t: Tid)
      requires t in threads && AllPlaced(lists, threads, Some(t)) && Mapped(lists, bits)
      modifies this`lists, this`bits, this`threads
      ensures Valid() && threads == old(threads)[t := old(threads)[t].(ready := true)]
      ensures var p := old(threads)[t].prio; p < |old(lists)| && lists == old(lists)[p := old(lists)[p] + [t]]
    {
      var p := threads[t].prio;
      assert Placed(lists, threads, Some(t), p);
      threads := threads[t := threads[t].(ready := true)];
      lists := lists[p := lists[p] + [t]];
      forall q | 0 <= q < |lists|
        ensures Placed(lists, threads, None, q)
      {
        assert Placed(old(lists), old(threads), Some(t), q);
      }
      SetRight(bits, p);
      bits := Set(bits, p);
    }

    // rt_schedule_remove_thread: off its list, and the bit off with the last.
    method Remove(t: Tid)
      requires Valid() && t in threads && threads[t].ready
      modifies this`lists, this`bits
      ensures AllPlaced(lists, threads, Some(t)) && Mapped(lists, bits)
      ensures var p := threads[t].prio; p < |old(lists)| && lists == old(lists)[p := Without(old(lists)[p], t)]
    {
      var p := threads[t].prio;
      assert Placed(lists, threads, None, p);
      WithoutDistinct(lists[p], t);
      lists := lists[p := Without(lists[p], t)];
      forall q | 0 <= q < |lists|
        ensures Placed(lists, threads, Some(t), q)
      {
        assert Placed(old(lists), threads, None, q);
      }
      if lists[p] == [] {
        ClearRight(bits, p);
        bits := Clear(bits, p);
      }
    }

    // A thread that is not ready may change in any way that leaves it so.
    lemma Settled(t: Tid, was: map<Tid, Thread>)
      requires AllPlaced(lists, was, Some(t)) && t in was && t in threads && threads == was[t := threads[t]]
      requires !threads[t].ready && threads[t].prio < |lists|
      ensures AllPlaced(lists, threads, None)
    {
      forall q | 0 <= q < |lists|
        ensures Placed(lists, threads, None, q)
      {
        assert Placed(lists, was, Some(t), q);
      }
    }

    lemma Moving(t: Tid, was: map<Tid, Thread>)
      requires AllPlaced(lists, was, Some(t)) && t in threads && threads == was[t := threads[t]] && threads[t].prio < |lists|
      ensures AllPlaced(lists, threads, Some(t))
    {
      forall q | 0 <= q < |lists|
        ensures Placed(lists, threads, Some(t), q)
      {
        assert Placed(lists, was, Some(t), q);
      }
    }

    // A thread that is on no list may be set aside at any time.
    lemma SetAside(t: Tid)
      requires AllPlaced(lists, threads, None) && t in threads && !threads[t].ready
      ensures AllPlaced(lists, threads, Some(t))
    {
      forall q | 0 <= q < |lists|
        ensures Placed(lists, threads, Some(t), q)
      {
        assert Placed(lists, threads, None, q);
      }
    }

    // The scheduler's part of rt_thread_suspend; answers whether the thread was ready.
    method Suspend(t: Tid) returns (ok: bool)
      requires Valid() && t in threads
      modifies this`lists, this`bits, this`threads
      ensures Valid() && ok == old(threads)[t].ready
      ensures threads == if ok then old(threads)[t := old(threads)[t].(ready := false)] else old(threads)
      ensures var p := old(threads)[t].prio;
        p < |old(lists)| && lists == if ok then old(lists)[p := Without(old(lists)[p], t)] else old(lists)
    {
      if !threads[t].ready {
        return false;
      }
      Remove(t);
      threads := threads[t := threads[t].(ready := false)];
      Settled(t, old(threads));
      ok := true;
    }

    // The scheduler's part of rt_thread_resume and of rt_thread_timeout.
    method Resume(t: Tid) returns (ok: bool)
      requires Valid() && t in threads
      modifies this`lists, this`bits, this`threads
      ensures Valid() && ok == !old(threads)[t].ready
      ensures threads == old(threads)[t := old(threads)[t].(ready := true)]
      ensures var p := old(threads)[t].prio;
        p < |old(lists)| && lists == if ok then old(lists)[p := old(lists)[p] + [t]] else old(lists)
    {
      if threads[t].ready {
        return false;
      }
      SetAside(t);
      Insert(t);
      ok := true;
    }

    // rt_thread_startup: a new thread becomes ready, and runs if it is more urgent than the one
    // that does.
    method Startup(t: Tid, prio: nat, slice: int)
      requires Valid() && t !in threads && prio < |lists|
      modifies this
      ensures Valid() && threads == old(threads)[t := Thread(true, prio, slice, slice)]
      ensures lists == old(lists)[prio := old(lists)[prio] + [t]]
      ensures old(current).Some? && lockNest == 0 ==> current.Some? && MostUrgent(current.value)
      ensures old(current).None? || lockNest != 0 ==> current == old(current)
    {
      threads := threads[t := Thread(false, prio, slice, slice)];
      forall q | 0 <= q < |lists|
        ensures Placed(lists, threads, None, q)
      {
        assert Placed(lists, old(threads), None, q);
      }
      var _ := Resume(t);
      if current != None {
        assert threads[t].ready;
        Schedule();
      }
    }

    // rt_thread_control with RT_THREAD_CTRL_CHANGE_PRIORITY.
    method ChangePriority(t: Tid, p: nat)
      requires Valid() && t in threads && p < |lists|
      modifies this`lists, this`bits, this`threads
      ensures Valid() && threads == old(threads)[t := old(threads)[t].(prio := p)]
      ensures old(threads)[t].ready ==>
        var q := old(threads)[t].prio;
        q < |old(lists)| && var l := old(lists)[q := Without(old(lists)[q], t)]; lists == l[p := l[p] + [t]]
      ensures !old(threads)[t].ready ==> lists == old(lists)
    {
      if threads[t].ready {
        Remove(t);
        ghost var was := threads;
        threads := threads[t := threads[t].(prio := p)];
        Moving(t, was);
        Insert(t);
      } else {
        SetAside(t);
        ghost var was := threads;
        threads := threads[t := threads[t].(prio := p)];
        Settled(t, was);
      }
    }

    // rt_schedule: if it is not locked, the first thread of the most urgent list runs. The idle
    // thread sees to it that some thread is ready.
    method Schedule()
      requires Valid() && exists t :: t in threads && threads[t].ready
      modifies this`current, this`currentPrio
      ensures lockNest != 0 ==> unchanged(this)
      ensures lockNest == 0 ==> current.Some? && MostUrgent(current.value)
      ensures lockNest == 0 ==> currentPrio == if current == old(current) then old(currentPrio) else threads[current.value].prio
    {
      if lockNest == 0 {
        SomeReady();
        var h := Highest(bits);
        var to := lists[h][0];
        if current != Some(to) {
          currentPrio := h;
          current := Some(to);
        }
      }
    }

    // First on its list, and no thread that is ready is more urgent.
    ghost predicate MostUrgent(t: Tid)
      reads this
    {
      && t in threads && threads[t].ready
      && threads[t].prio < |lists| && lists[threads[t].prio] != [] && lists[threads[t].prio][0] == t
      && forall x: Tid :: x in threads && threads[x].ready ==> threads[t].prio <= threads[x].prio
    }

    // Where the search ends if there is anything to be found.
    lemma SomeReady()
      requires Valid() && exists t :: t in threads && threads[t].ready
      ensures var h := Highest(bits);
        0 <= h < |lists| && lists[h] != [] && MostUrgent(lists[h][0]) && threads[lists[h][0]].prio == h
    {
      var t: Tid :| t in threads && threads[t].ready;
      assert Placed(lists, threads, None, threads[t].prio);
      HighestRight(bits, threads[t].prio);
      var h := Highest(bits);
      assert Placed(lists, threads, None, h);
      assert lists[h][0] in lists[h];
      forall x: Tid | x in threads && threads[x].ready
        ensures h <= threads[x].prio
      {
        assert Placed(lists, threads, None, threads[x].prio);
        assert x in lists[threads[x].prio];
      }
    }

    // rt_thread_yield: to the end of its list, if it is not alone there, and a schedule.
    method Yield()
      requires Valid() && current.Some? && current.value in threads
      requires exists t :: t in threads && threads[t].ready
      modifies this`lists, this`current, this`currentPrio
      ensures Valid()
      ensures var t := old(current.value); var p := threads[t].prio;
        if threads[t].ready && p < |old(lists)| && |old(lists)[p]| > 1 then
          && lists == old(lists)[p := Without(old(lists)[p], t) + [t]]
          && (lockNest == 0 ==> current.Some? && MostUrgent(current.value))
          && (lockNest != 0 ==> current == old(current))
        else lists == old(lists) && current == old(current)
    {
      var t := current.value;
      var p := threads[t].prio;
      if threads[t].ready && |lists[p]| > 1 {
        assert Placed(lists, threads, None, p);
        WithoutDistinct(lists[p], t);
        lists := lists[p := Without(lists[p], t) + [t]];
        forall q | 0 <= q < |lists|
          ensures Placed(lists, threads, None, q)
        {
          assert Placed(old(lists), threads, None, q);
        }
        Schedule();
      }
    }

    // The part of rt_tick_increase that concerns the running thread: when its slice is used up it
    // gets a new one and yields.
    method TickIncrease()
      requires Valid() && current.Some? && current.value in threads
      requires exists t :: t in threads && threads[t].ready
      modifies this`lists, this`current, this`currentPrio, this`threads
      ensures Valid()
      ensures var t := old(current.value); var th := old(threads)[t];
        && threads == old(threads)[t := th.(left := if th.left - 1 == 0 then th.slice else th.left - 1)]
        && (th.left - 1 != 0 ==> lists == old(lists) && current == old(current))
        && (th.left - 1 == 0 ==>
          if th.ready && th.prio < |old(lists)| && |old(lists)[th.prio]| > 1 then
            && lists == old(lists)[th.prio := Without(old(lists)[th.prio], t) + [t]]
            && (lockNest == 0 ==> current.Some? && MostUrgent(current.value))
            && (lockNest != 0 ==> current == old(current))
          else lists == old(lists) && current == old(current))
    {
      var t := current.value;
      ghost var was := threads;
      threads := threads[t := threads[t].(left := threads[t].left - 1)];
      var over := threads[t].left == 0;
      if over {
        threads := threads[t := threads[t].(left := threads[t].slice)];
      }
      SlicesOnly(was);
      if over {
        ghost var r: Tid :| r in was && was[r].ready;
        assert threads[r].ready;
        Yield();
      }
    }

    lemma SlicesOnly(was: map<Tid, Thread>)
      requires AllPlaced(lists, was, None) && threads.Keys == was.Keys
      requires forall t: Tid :: t in was ==> threads[t].ready == was[t].ready && threads[t].prio == was[t].prio
      ensures AllPlaced(lists, threads, None)
    {
      forall q | 0 <= q < |lists|
        ensures Placed(lists, threads, None, q)
      {
        assert Placed(lists, was, None, q);
      }
    }

    /* ------------------------------- taking turns ------------------------------- */

    // The thread that runs is the first of the most urgent ones.
    ghost predicate TopRuns()
      reads this
    {
      Valid() && current.Some? && MostUrgent(current.value)
    }

    // The most urgent threads, the one that runs among them.
    ghost function Top(): seq<Tid>
      requires TopRuns()
      reads this
    {
      lists[threads[current.value].prio]
    }

    // The thread that runs yields, and the next of its peers runs.
    method OneTurn() returns (ran: Tid)
      requires TopRuns() && lockNest == 0
      modifies this`lists, this`current, this`currentPrio
      ensures TopRuns() && ran == old(current.value)
      ensures threads[current.value].prio == threads[ran].prio
      ensures Top() == old(Top())[1..] + [ran] && lists == old(lists)[threads[ran].prio := Top()]
    {
      ran := current.value;
      ghost var p := threads[ran].prio;
      assert Placed(lists, threads, None, p);
      HeadLast(lists[p]);
      Yield();
      assert Placed(lists, threads, None, p);
      assert ran in lists[p];
      assert lists[p][0] in lists[p] && threads[lists[p][0]].prio == p;
      StillTop(ran);
    }

    // Whoever is the most urgent now has the priority of any other such thread.
    lemma StillTop(t: Tid)
      requires TopRuns() && t in threads && threads[t].ready
      requires forall x: Tid :: x in threads && threads[x].ready ==> threads[t].prio <= threads[x].prio
      ensures threads[current.value].prio == threads[t].prio
    {
    }

    // If n threads of the highest priority, among k, yield one after the other, each runs once
    // and they run in the order of their list; after k turns everything is as it was.
    method TakeTurns(n: nat) returns (ran: seq<Tid>)
      requires TopRuns() && lockNest == 0 && n <= |Top()|
      modifies this`lists, this`current, this`currentPrio
      ensures TopRuns() && ran == old(Top())[..n] && Distinct(ran)
      ensures Top() == old(Top())[n..] + old(Top())[..n]
      ensures lists == old(lists)[threads[old(current.value)].prio := Top()]
      ensures n == |old(Top())| ==> lists == old(lists) && current == old(current)
    {
      ghost var p, l := threads[current.value].prio, Top();
      assert Placed(lists, threads, None, p);
      ran := [];
      for i := 0 to n
        invariant TopRuns() && lockNest == 0 && threads[current.value].prio == p
        invariant ran == l[..i] && Top() == l[i..] + l[..i] && lists == old(lists)[p := Top()]
      {
        var t := OneTurn();
        Turned(l, i);
        ran := ran + [t];
      }
      if n == |l| {
        assert l[n..] + l[..n] == l;
        assert Top() == l;
      }
    }
  }

  // What a yield of the first thread does to its list.
  lemma HeadLast(l: seq<Tid>)
    requires Distinct(l) && l != []
    ensures Without(l, l[0]) + [l[0]] == l[1..] + [l[0]]
    ensures |l| == 1 ==> l[1..] + [l[0]] == l
  {
    assert l == [l[0]] + l[1..];
    HeadApart(l);
  }

  lemma Turned(l: seq<Tid>, i: nat)
    requires i < |l|
    ensures var m := l[i..] + l[..i]; m[0] == l[i] && m[1..] + [m[0]] == l[i + 1..] + l[..i + 1]
    ensures l[..i] + [l[i]] == l[..i + 1]
  {
    assert (l[i..] + l[..i])[1..] == l[i + 1..] + l[..i];
  }
}
