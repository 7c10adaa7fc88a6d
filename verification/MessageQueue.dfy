/** The message queue: a pool of nodes that wander between a free list, the queue and the
  threads that are copying a message in or out with interrupts enabled.

  Every region that runs with interrupts disabled is one atomic step. This module gives the
  lists and what the regions do to them, and carries the regions out on linked nodes.
 */
module MessageQueue {
  import opened Seqs

  type Node = nat

  const NULL: int := -1

  // RT_MQ_ENTRY_MAX; max_msgs is a 16-bit field, so it never exceeds this.
  const ENTRY_MAX: nat := 0xFFFF

  // The free list and the queue, first node first.
  datatype Lists = Lists(free: seq<Node>, queue: seq<Node>)

  // The last node of the pool is pushed last, so it comes first.
  function AllFree(max: nat): Lists {
    Lists(seq(max, i requires 0 <= i < max => max - 1 - i), [])
  }

  function Grab(l: Lists): Lists
    requires l.free != []
  {
    l.(free := l.free[1..])
  }

  function LinkLast(l: Lists, n: Node): Lists {
    l.(queue := l.queue + [n])
  }

  function LinkFirst(l: Lists, n: Node): Lists {
    l.(queue := [n] + l.queue)
  }

  function Take(l: Lists): Lists
    requires l.queue != []
  {
    l.(queue := l.queue[1..])
  }

  function GiveBack(l: Lists, n: Node): Lists {
    l.(free := [n] + l.free)
  }

  // Every queued node in turn goes to the front of the free list.
  function Flush(l: Lists): Lists
    decreases |l.queue|
  {
    if l.queue == [] then l else Flush(GiveBack(Take(l), l.queue[0]))
  }

  // No node stands twice, in one list or in both.
  ghost predicate Apart(l: Lists) {
    && Distinct(l.free) && Distinct(l.queue)
    && forall i, j :: 0 <= i < |l.free| && 0 <= j < |l.queue| ==> l.free[i] != l.queue[j]
  }

  // A null-terminated chain of exactly the nodes of s.
  ghost predicate Chain(next: seq<int>, first: int, s: seq<Node>)
    decreases |s|
  {
    if s == [] then first == NULL
    else first == s[0] && s[0] < |next| && Chain(next, next[s[0]], s[1..])
  }

  lemma {:induction false} ChainFrame(next: seq<int>, next': seq<int>, first: int, s: seq<Node>)
    requires Chain(next, first, s) && |next'| == |next|
    requires forall n | n in s && n < |next| :: next'[n] == next[n]
    ensures Chain(next', first, s)
    decreases |s|
  {
    if s != [] {
      ChainFrame(next, next', next[s[0]], s[1..]);
    }
  }

  lemma {:induction false} ChainInRange(next: seq<int>, first: int, s: seq<Node>)
    requires Chain(next, first, s)
    ensures forall i :: 0 <= i < |s| ==> s[i] < |next|
    decreases |s|
  {
    if s != [] {
      ChainInRange(next, next[s[0]], s[1..]);
      assert forall i :: 1 <= i < |s| ==> s[i] == s[1..][i - 1];
    }
  }

  // Hanging a null-terminated node behind the last node of a chain.
  lemma {:induction false} ChainAppend(next: seq<int>, first: int, s: seq<Node>, n: Node)
    requires Chain(next, first, s) && s != [] && n < |next| && n !in s && next[n] == NULL
    requires Distinct(s)
    ensures s[|s| - 1] < |next| && Chain(next[s[|s| - 1] := n], first, s + [n])
    decreases |s|
  {
    var last := s[|s| - 1];
    ChainInRange(next, first, s);
    var next' := next[last := n];
    assert (s + [n])[1..] == s[1..] + [n];
    if |s| == 1 {
      assert s[1..] == [] && [n][1..] == [];
      assert next'[n] == NULL;
      assert Chain(next', n, [n]);
    } else {
      assert s[1..][|s| - 2] == last;
      assert next'[s[0]] == next[s[0]];
      ChainAppend(next, next[s[0]], s[1..], n);
    }
  }

  lemma {:induction false} DistinctLength(s: seq<Node>, n: nat)
    requires forall i :: 0 <= i < |s| ==> s[i] < n
    requires Distinct(s)
    ensures |s| <= n
  {
    if s != [] {
      if n - 1 in s {
        var i :| 0 <= i < |s| && s[i] == n - 1;
        var t := s[..i] + s[i + 1..];
        assert forall k :: 0 <= k < |t| ==> t[k] == if k < i then s[k] else s[k + 1];
        DistinctLength(t, n - 1);
      } else {
        assert s[0] < n && s[0] != n - 1;
        DistinctLength(s, n - 1);
      }
    }
  }

  class Queue {
    var next: array<int>
    var head: int
    var tail: int
    var free: int
    var entry: nat
    ghost var lists: Lists

    ghost predicate Valid()
      reads this, next
    {
      && Apart(lists)
      && Chain(next[..], free, lists.free)
      && Chain(next[..], head, lists.queue)
      && tail == (if lists.queue == [] then NULL else lists.queue[|lists.queue| - 1])
      && entry == |lists.queue|
      && next.Length <= ENTRY_MAX
    }

    // The node belongs to the thread that is copying its message.
    ghost predicate InFlight(n: Node)
      reads this, next
    {
      n < next.Length && n !in lists.free && n !in lists.queue
    }

    constructor (max: nat)
      requires max <= ENTRY_MAX
      ensures Valid() && fresh(next) && next.Length == max
      ensures lists == AllFree(max)
    {
      next := new int[max];
      head, tail, free, entry := NULL, NULL, NULL, 0;
      lists := Lists([], []);
      new;
      for k := 0 to max
        invariant Valid() && fresh(next) && next.Length == max
        invariant lists == AllFree(k)
      {
        assert GiveBack(AllFree(k), k).free == AllFree(k + 1).free;
        PutFree(k);
      }
    }

    // A node in flight leaves room in the counter, so counting it in never overflows.
    lemma EntryHasRoom(msg: Node)
      requires Valid() && InFlight(msg)
      ensures entry < ENTRY_MAX
    {
      ChainInRange(next[..], head, lists.queue);
      assert Apart(LinkLast(Lists([], lists.queue), msg));
      DistinctLength(lists.queue + [msg], next.Length);
    }

    // First region of a send: a node leaves the free list.
    method GrabFree() returns (msg: int)
      requires Valid()
      modifies this
      ensures Valid() && next == old(next) && next[..] == old(next[..])
      ensures if old(lists.free) == [] then msg == NULL && lists == old(lists)
        else msg == old(lists.free)[0] && lists == Grab(old(lists)) && InFlight(msg)
    {
      msg := free;
      if msg != NULL {
        free := next[msg];
        lists := Grab(lists);
      }
    }
  
    // Between the regions of a send: the node becomes the end of a chain.
    method Terminate(msg: Node)
      requires Valid() && InFlight(msg)
      modifies next
      ensures Valid() && InFlight(msg) && next[msg] == NULL
      ensures forall n :: 0 <= n < next.Length && n != msg ==> next[n] == old(next[n])
    {
      next[msg] := NULL;
      ChainFrame(old(next[..]), next[..], free, lists.free);
      ChainFrame(old(next[..]), next[..], head, lists.queue);
    }

    // Second region of a send: the node becomes the new tail.
    method LinkTail(msg: Node)
      requires Valid() && InFlight(msg) && next[msg] == NULL
      modifies this, next
      ensures Valid() && next == old(next)
      ensures lists == LinkLast(old(lists), msg)
    {
      EntryHasRoom(msg);
      ChainInRange(next[..], head, lists.queue);
      if tail != NULL {
        next[tail] := msg;
        ChainAppend(old(next[..]), head, lists.queue, msg);
        ChainFrame(old(next[..]), next[..], free, lists.free);
      }
      tail := msg;
      if head == NULL {
        head := msg;
      }
      lists := LinkLast(lists, msg);
      if entry < ENTRY_MAX {
        entry := entry + 1;
      }
    }

    // Second region of an urgent send: the node becomes the new head.
    method LinkHead(msg: Node)
      requires Valid() && InFlight(msg)
      modifies this, next
      ensures Valid() && next == old(next)
      ensures lists == LinkFirst(old(lists), msg)
    {
      EntryHasRoom(msg);
      next[msg] := head;
      ChainFrame(old(next[..]), next[..], head, lists.queue);
      ChainFrame(old(next[..]), next[..], free, lists.free);
      head := msg;
      if tail == NULL {
        tail := msg;
      }
      lists := LinkFirst(lists, msg);
      assert lists.queue[1..] == old(lists.queue);
      if entry < ENTRY_MAX {
        entry := entry + 1;
      }
    }

    // First region of a receive: the head leaves the queue.
    method TakeHead() returns (msg: Node)
      requires Valid() && entry > 0
      modifies this
      ensures Valid() && next == old(next)
      ensures msg == old(lists.queue)[0] && lists == Take(old(lists)) && InFlight(msg)
    {
      ChainInRange(next[..], head, lists.queue);
      msg := head;
      head := next[msg];
      if tail == msg {
        tail := NULL;
      }
      entry := entry - 1;
      lists := Take(lists);
    }

    // Second region of a receive: the node goes back to the free list.
    method PutFree(msg: Node)
      requires Valid() && InFlight(msg)
      modifies this, next
      ensures Valid() && next == old(next)
      ensures lists == GiveBack(old(lists), msg)
    {
      next[msg] := free;
      ChainFrame(old(next[..]), next[..], head, lists.queue);
      ChainFrame(old(next[..]), next[..], free, lists.free);
      free := msg;
      lists := GiveBack(lists, msg);
      assert lists.free[1..] == old(lists.free);
    }

    // The reset command: all queued nodes are freed; nodes in flight stay where they are.
    method Reset()
      requires Valid()
      modifies this, next
      ensures Valid() && next == old(next)
      ensures lists == Flush(old(lists)) && lists.queue == [] && entry == 0
    {
      while head != NULL
        invariant Valid() && next == old(next)
        invariant Flush(lists) == Flush(old(lists))
        decreases |lists.queue|
      {
        var msg := TakeHead();
        PutFree(msg);
      }
      entry := 0;
    }
  }
}
