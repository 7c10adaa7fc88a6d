/** Event sets: who is woken by a send while clearing shrinks the set under the scan, and that
  nobody is left waiting for events that are there.
 */
module Events {
  import opened Seqs
  import opened WaitLists

  // RT_EVENT_FLAG_AND and RT_EVENT_FLAG_OR; one of them is always given.
  datatype Mode = And | Or

  // A 32-bit event set, as the set of its bits.
  type Bit = b: nat | b < 32
  type Bits = set<Bit>

  // event_set and event_info of a thread.
  datatype Want = Want(bits: Bits, mode: Mode, clear: bool)

  datatype State = State(bits: Bits, flag: Flag, waiters: seq<Tid>, threads: Threads, wants: map<Tid, Want>)

  function WantOf(wants: map<Tid, Want>, t: Tid): Want {
    if t in wants then wants[t] else Want({0}, And, false)
  }

  predicate Satisfied(w: Want, bits: Bits) {
    if w.mode == And then w.bits * bits == w.bits else w.bits * bits != {}
  }

  // What is left of the set after a receiver has been served with the bits got.
  function Served(w: Want, bits: Bits, got: Bits): Bits {
    if w.clear then bits - got else bits
  }

  // The bits a, without any that are not in b, are a.
  predicate Within(a: Bits, b: Bits) {
    a <= b
  }

  /* ------------------------------- bits ------------------------------- */

  // What a receiver asks for, bit by bit: all of its bits are in the set, or some of them.
  ghost predicate Met(w: Want, bits: Bits) {
    match w.mode
    case And => forall b: Bit :: b in w.bits ==> b in bits
    case Or => exists b: Bit :: b in w.bits && b in bits
  }

  lemma SatisfiedMeans(w: Want, bits: Bits)
    ensures Satisfied(w, bits) <==> Met(w, bits)
  {
    if w.mode == And {
      if Met(w, bits) {
        assert w.bits * bits == w.bits;
      } else {
        var b: Bit :| b in w.bits && b !in bits;
        assert b !in w.bits * bits;
      }
    } else if b :| b in w.bits * bits {
      assert b in w.bits && b in bits;
    } else {
      assert forall b: Bit :: b in w.bits && b in bits ==> b in w.bits * bits;
    }
  }

  // A smaller set satisfies nobody whom the larger one did not.
  lemma Shrinking(w: Want, small: Bits, large: Bits)
    requires Within(small, large) && !Satisfied(w, large)
    ensures !Satisfied(w, small)
  {
    assert w.bits * small <= w.bits * large;
    assert w.mode == And && w.bits * small == w.bits ==> w.bits <= small <= large;
  }

  lemma ServedWithin(w: Want, bits: Bits, got: Bits)
    ensures Within(Served(w, bits, got), bits)
  {
  }

  lemma WithinTrans(a: Bits, b: Bits, c: Bits)
    requires Within(a, b) && Within(b, c)
    ensures Within(a, c)
  {
  }

  // Clearing the bits received clears of the wanted bits exactly those that were there, which is
  // why the receiver that finds its events at once may clear all it wanted.
  lemma ClearSame(w: Want, bits: Bits)
    ensures bits - (w.bits * bits) == bits - w.bits
  {
  }

  // Bits that have been cleared away are received by nobody afterwards.
  lemma Cleared(w: Want, bits: Bits, got: Bits, later: Bits)
    requires w.clear && Within(later, Served(w, bits, got))
    ensures later * got == {}
  {
  }

  /* ------------------------------- the scan of a send ------------------------------- */

  // A thread that has been woken, and the bits it received.
  datatype Wake = Wake(t: Tid, got: Bits)

  datatype Scanned = Scanned(bits: Bits, stay: seq<Tid>, woken: seq<Wake>)

  function Scan(bits: Bits, l: seq<Tid>, wants: map<Tid, Want>): Scanned {
    if l == [] then Scanned(bits, [], [])
    else
      var w := WantOf(wants, l[0]);
      if Satisfied(w, bits) then
        var r := Scan(Served(w, bits, w.bits * bits), l[1..], wants);
        r.(woken := [Wake(l[0], w.bits * bits)] + r.woken)
      else
        var r := Scan(bits, l[1..], wants);
        r.(stay := [l[0]] + r.stay)
  }

  lemma ScanStep(bits: Bits, t: Tid, rest: seq<Tid>, wants: map<Tid, Want>)
    ensures var w := WantOf(wants, t); var got := w.bits * bits;
      Scan(bits, [t] + rest, wants) ==
        if Satisfied(w, bits) then
          var r := Scan(Served(w, bits, got), rest, wants);
          Scanned(r.bits, r.stay, [Wake(t, got)] + r.woken)
        else
          var r := Scan(bits, rest, wants);
          Scanned(r.bits, [t] + r.stay, r.woken)
  {
    assert ([t] + rest)[1..] == rest;
  }

  lemma {:induction false} ScanShrinks(bits: Bits, l: seq<Tid>, wants: map<Tid, Want>)
    ensures Within(Scan(bits, l, wants).bits, bits)
  {
    if l != [] {
      var w := WantOf(wants, l[0]);
      if Satisfied(w, bits) {
        var next := Served(w, bits, w.bits * bits);
        ScanShrinks(next, l[1..], wants);
        ServedWithin(w, bits, w.bits * bits);
        WithinTrans(Scan(next, l[1..], wants).bits, next, bits);
      } else {
        ScanShrinks(bits, l[1..], wants);
      }
    }
  }

  // Whoever is left on the list is not satisfied by what is left of the set.
  lemma {:induction false} ScanLeavesNobody(bits: Bits, l: seq<Tid>, wants: map<Tid, Want>)
    ensures forall t :: t in Scan(bits, l, wants).stay ==> !Satisfied(WantOf(wants, t), Scan(bits, l, wants).bits)
  {
    if l != [] {
      var w := WantOf(wants, l[0]);
      if Satisfied(w, bits) {
        ScanLeavesNobody(Served(w, bits, w.bits * bits), l[1..], wants);
      } else {
        ScanLeavesNobody(bits, l[1..], wants);
        ScanShrinks(bits, l[1..], wants);
        Shrinking(w, Scan(bits, l[1..], wants).bits, bits);
      }
    }
  }

  function Names(woken: seq<Wake>): seq<Tid> {
    if woken == [] then [] else [woken[0].t] + Names(woken[1..])
  }

  // Both those who stay and those who are woken keep their order.
  lemma {:induction false} ScanOrder(bits: Bits, l: seq<Tid>, wants: map<Tid, Want>)
    ensures Sublist(Scan(bits, l, wants).stay, l) && Sublist(Names(Scan(bits, l, wants).woken), l)
  {
    if l != [] {
      var w := WantOf(wants, l[0]);
      var q := Scan(if Satisfied(w, bits) then Served(w, bits, w.bits * bits) else bits, l[1..], wants);
      ScanOrder(if Satisfied(w, bits) then Served(w, bits, w.bits * bits) else bits, l[1..], wants);
      if Satisfied(w, bits) {
        var x := Wake(l[0], w.bits * bits);
        assert ([x] + q.woken)[1..] == q.woken;
        assert ([l[0]] + Names(q.woken))[1..] == Names(q.woken);
      } else {
        assert ([l[0]] + q.stay)[1..] == q.stay;
      }
    }
  }

  // A bit is gone after the scan exactly if a clearing receiver has got it.
  lemma {:induction false} ScanBits(bits: Bits, l: seq<Tid>, wants: map<Tid, Want>, b: Bit)
    ensures var r := Scan(bits, l, wants);
      b in r.bits <==> b in bits && !exists k :: 0 <= k < |r.woken| && Clears(r.woken[k], wants, b)
  {
    if l != [] {
      var w := WantOf(wants, l[0]);
      var next := if Satisfied(w, bits) then Served(w, bits, w.bits * bits) else bits;
      var r, q := Scan(bits, l, wants), Scan(next, l[1..], wants);
      ScanBits(next, l[1..], wants, b);
      if Satisfied(w, bits) {
        var x := Wake(l[0], w.bits * bits);
        assert r.woken == [x] + q.woken;
        assert forall k :: 0 <= k < |q.woken| ==> r.woken[k + 1] == q.woken[k];
        assert (exists k :: 0 <= k < |r.woken| && Clears(r.woken[k], wants, b)) <==>
          Clears(x, wants, b) || exists k :: 0 <= k < |q.woken| && Clears(q.woken[k], wants, b) by {
          if Clears(x, wants, b) {
            assert Clears(r.woken[0], wants, b);
          }
          if k :| 0 <= k < |q.woken| && Clears(q.woken[k], wants, b) {
            assert Clears(r.woken[k + 1], wants, b);
          }
        }
      }
    }
  }

  ghost predicate Clears(x: Wake, wants: map<Tid, Want>, b: Bit) {
    WantOf(wants, x.t).clear && b in x.got
  }

  // The scan splits the list in two, keeping its order in both parts.
  lemma ScanParts(bits: Bits, l: seq<Tid>, wants: map<Tid, Want>)
    requires Distinct(l)
    ensures var r := Scan(bits, l, wants);
      && Sublist(r.stay, l) && Sublist(Names(r.woken), l)
      && Distinct(r.stay) && (forall t: Tid :: t in r.stay ==> t in l)
      && (forall k :: 0 <= k < |r.woken| ==> r.woken[k].t in l && r.woken[k].t !in r.stay)
      && (forall t: Tid :: t in l && t !in r.stay ==> IsWoken(r.woken, t))
  {
    ScanOrder(bits, l, wants);
    ScanStay(bits, l, wants);
    ScanWoken(bits, l, wants);
  }

  ghost predicate IsWoken(woken: seq<Wake>, t: Tid) {
    exists k :: 0 <= k < |woken| && woken[k].t == t
  }

  // The scan of the rest of the list, behind its head.
  ghost function Rest(bits: Bits, l: seq<Tid>, wants: map<Tid, Want>): Scanned
    requires l != []
  {
    var w := WantOf(wants, l[0]);
    Scan(if Satisfied(w, bits) then Served(w, bits, w.bits * bits) else bits, l[1..], wants)
  }

  lemma {:induction false} ScanStay(bits: Bits, l: seq<Tid>, wants: map<Tid, Want>)
    requires Distinct(l)
    ensures Distinct(Scan(bits, l, wants).stay) && forall t: Tid :: t in Scan(bits, l, wants).stay ==> t in l
  {
    if l != [] {
      var w := WantOf(wants, l[0]);
      HeadApart(l);
      ScanStay(if Satisfied(w, bits) then Served(w, bits, w.bits * bits) else bits, l[1..], wants);
      var stay := Rest(bits, l, wants).stay;
      assert Scan(bits, l, wants).stay == if Satisfied(w, bits) then stay else [l[0]] + stay;
      ConsDistinct(l, stay);
    }
  }

  lemma {:induction false} ScanWoken(bits: Bits, l: seq<Tid>, wants: map<Tid, Want>)
    requires Distinct(l)
    ensures var r := Scan(bits, l, wants);
      && (forall k :: 0 <= k < |r.woken| ==> r.woken[k].t in l && r.woken[k].t !in r.stay)
      && (forall t: Tid :: t in l && t !in r.stay ==> IsWoken(r.woken, t))
  {
    if l != [] {
      var w := WantOf(wants, l[0]);
      var next := if Satisfied(w, bits) then Served(w, bits, w.bits * bits) else bits;
      HeadApart(l);
      ScanWoken(next, l[1..], wants);
      ScanStay(next, l[1..], wants);
      var r, q := Scan(bits, l, wants), Rest(bits, l, wants);
      if Satisfied(w, bits) {
        assert r.stay == q.stay && r.woken == [Wake(l[0], w.bits * bits)] + q.woken;
        forall t: Tid | t in l && t !in r.stay
          ensures IsWoken(r.woken, t)
        {
          if t == l[0] {
            assert r.woken[0].t == t;
          } else {
            var k :| 0 <= k < |q.woken| && q.woken[k].t == t;
            assert r.woken[k + 1].t == t;
          }
        }
      } else {
        assert r.stay == [l[0]] + q.stay && r.woken == q.woken;
      }
    }
  }

  // Everybody who is woken gets what it asked for: all of it, or some.
  ghost predicate Fair(x: Wake, wants: map<Tid, Want>, bits: Bits) {
    var w := WantOf(wants, x.t);
    Within(x.got, bits) && if w.mode == And then x.got == w.bits else x.got != {} && Within(x.got, w.bits)
  }

  lemma {:induction false} ScanFair(bits: Bits, l: seq<Tid>, wants: map<Tid, Want>, k: nat)
    requires k < |Scan(bits, l, wants).woken|
    ensures Fair(Scan(bits, l, wants).woken[k], wants, bits)
  {
    var w := WantOf(wants, l[0]);
    if Satisfied(w, bits) {
      if k > 0 {
        var next := Served(w, bits, w.bits * bits);
        ScanFair(next, l[1..], wants, k - 1);
        ServedWithin(w, bits, w.bits * bits);
        WithinTrans(Scan(bits, l, wants).woken[k].got, next, bits);
      }
    } else {
      ScanFair(bits, l[1..], wants, k);
    }
  }

  // An event that a clearing receiver has taken goes to nobody behind it, and is not in the set
  // at the end.
  lemma {:induction false} TakenOnce(bits: Bits, l: seq<Tid>, wants: map<Tid, Want>, i: nat, j: nat)
    requires var r := Scan(bits, l, wants); i < j < |r.woken| && WantOf(wants, r.woken[i].t).clear
    ensures var r := Scan(bits, l, wants); r.woken[j].got * r.woken[i].got == {} && r.bits * r.woken[i].got == {}
  {
    var w := WantOf(wants, l[0]);
    if Satisfied(w, bits) {
      var got := w.bits * bits;
      var next := Served(w, bits, got);
      if i == 0 {
        ScanFair(next, l[1..], wants, j - 1);
        ScanShrinks(next, l[1..], wants);
        Cleared(w, bits, got, Scan(next, l[1..], wants).woken[j - 1].got);
        Cleared(w, bits, got, Scan(next, l[1..], wants).bits);
      } else {
        TakenOnce(next, l[1..], wants, i - 1, j - 1);
      }
    } else {
      TakenOnce(bits, l[1..], wants, i, j);
    }
  }

  /* ------------------------------- the event object ------------------------------- */

  datatype Action =
    | Send(sent: Bits)
    | Recv(t: Tid, want: Want, time: int)
    | Reset
    | Expire(t: Tid)
    | Sleep(t: Tid, time: int)

  predicate Running(s: State, t: Tid) {
    t in s.threads && !s.threads[t].suspended
  }

  // The threads after those in woken go on, each with the bits it received.
  function WakeEach(ts: Threads, woken: seq<Wake>): Threads
    decreases |woken|
  {
    if woken == [] then ts
    else
      var t := woken[0].t;
      WakeEach(if t in ts then Woken(ts, t, ts[t].error) else ts, woken[1..])
  }

  function GotEach(wants: map<Tid, Want>, woken: seq<Wake>): map<Tid, Want>
    decreases |woken|
  {
    if woken == [] then wants
    else GotEach(wants[woken[0].t := WantOf(wants, woken[0].t).(bits := woken[0].got)], woken[1..])
  }

  function DoSend(s: State, sent: Bits): State {
    if sent == {} then s
    else
      var r := Scan(s.bits + sent, s.waiters, s.wants);
      s.(bits := r.bits, waiters := r.stay, threads := WakeEach(s.threads, r.woken), wants := GotEach(s.wants, r.woken))
  }

  function DoRecv(s0: State, t: Tid, want: Want, time: int): State {
    if !Running(s0, t) || want.bits == {} then s0
    else
      var s := s0.(threads := s0.threads[t := s0.threads[t].(error := Eok)]);
      if Satisfied(want, s.bits) then
        s.(wants := s.wants[t := want.(bits := s.bits * want.bits)],
           bits := if want.clear then s.bits - want.bits else s.bits)
      else if time == 0 then s.(threads := s.threads[t := s.threads[t].(error := Etimeout)])
      else
        s.(wants := s.wants[t := want], waiters := Enqueue(s.flag, s.waiters, s.threads, t),
           threads := s.threads[t := s.threads[t].(suspended := true, error := Eok, armed := time > 0)])
  }

  // What the receiver is told at once; None if it has to wait.
  function RecvResult(s: State, want: Want, time: int): Option<Code> {
    if want.bits == {} then Some(Error)
    else if Satisfied(want, s.bits) then Some(Eok)
    else if time == 0 then Some(Etimeout)
    else None
  }

  function Apply(s: State, a: Action): State {
    match a
    case Send(sent) => DoSend(s, sent)
    case Recv(t, want, time) => DoRecv(s, t, want, time)
    case Reset =>
      if forall t :: t in s.waiters ==> t in s.threads then
        s.(bits := {}, waiters := [], threads := WokenAll(s.threads, s.waiters, Error))
      else s
    case Expire(t) =>
      if t in s.threads && s.threads[t].armed then
        s.(waiters := Without(s.waiters, t), threads := Woken(s.threads, t, Etimeout))
      else s
    case Sleep(t, time) =>
      if Running(s, t) && time > 0 then s.(threads := s.threads[t := s.threads[t].(suspended := true, armed := true)]) else s
  }

  function Run(s: State, steps: seq<Action>): State
    decreases |steps|
  {
    if steps == [] then s else Apply(Run(s, steps[..|steps| - 1]), steps[|steps| - 1])
  }

  ghost predicate Waits(s: State, t: Tid) {
    && t in s.threads && s.threads[t].suspended && s.threads[t].error == Eok
    && t in s.wants && !Satisfied(s.wants[t], s.bits)
  }

  // Everybody on the list waits for events that are not there.
  ghost predicate Inv(s: State) {
    && Distinct(s.waiters)
    && (forall t: Tid :: t in s.waiters ==> Waits(s, t))
    && (forall t: Tid :: t in s.threads && s.threads[t].armed ==> s.threads[t].suspended)
  }

  lemma {:induction false} WakeEachThread(ts: Threads, woken: seq<Wake>, t: Tid)
    requires t in ts
    ensures t in WakeEach(ts, woken)
    ensures WakeEach(ts, woken)[t] == if exists k :: 0 <= k < |woken| && woken[k].t == t then ts[t].(suspended := false, armed := false) else ts[t]
    decreases |woken|
  {
    if woken != [] {
      var x := woken[0].t;
      WakeEachThread(if x in ts then Woken(ts, x, ts[x].error) else ts, woken[1..], t);
      assert woken == [woken[0]] + woken[1..];
      assert forall k :: 0 <= k < |woken[1..]| ==> woken[1..][k] == woken[k + 1];
      if k :| 0 <= k < |woken| && woken[k].t == t && k > 0 {
        assert woken[1..][k - 1].t == t;
      }
    }
  }

  lemma {:induction false} WakeEachNew(ts: Threads, woken: seq<Wake>, t: Tid)
    ensures t in WakeEach(ts, woken) <==> t in ts
    decreases |woken|
  {
    if woken != [] {
      var x := woken[0].t;
      WakeEachNew(if x in ts then Woken(ts, x, ts[x].error) else ts, woken[1..], t);
    }
  }

  lemma {:induction false} GotEachOther(wants: map<Tid, Want>, woken: seq<Wake>, t: Tid)
    requires forall k :: 0 <= k < |woken| ==> woken[k].t != t
    ensures (t in GotEach(wants, woken) <==> t in wants) && WantOf(GotEach(wants, woken), t) == WantOf(wants, t)
    decreases |woken|
  {
    if woken != [] {
      assert woken[0].t != t;
      GotEachOther(wants[woken[0].t := WantOf(wants, woken[0].t).(bits := woken[0].got)], woken[1..], t);
    }
  }

  lemma SendInv(s: State, sent: Bits)
    requires Inv(s)
    ensures Inv(DoSend(s, sent))
  {
    if sent != {} {
      var r, q := DoSend(s, sent), Scan(s.bits + sent, s.waiters, s.wants);
      ScanParts(s.bits + sent, s.waiters, s.wants);
      ScanLeavesNobody(s.bits + sent, s.waiters, s.wants);
      forall t: Tid | t in r.waiters
        ensures Waits(r, t)
      {
        assert Waits(s, t);
        WakeEachThread(s.threads, q.woken, t);
        GotEachOther(s.wants, q.woken, t);
      }
      forall t: Tid | t in r.threads
        ensures r.threads[t].armed ==> r.threads[t].suspended
      {
        WakeEachNew(s.threads, q.woken, t);
        WakeEachThread(s.threads, q.woken, t);
      }
    }
  }

  lemma RecvInv(s: State, t: Tid, want: Want, time: int)
    requires Inv(s)
    ensures Inv(DoRecv(s, t, want, time))
  {
    if Running(s, t) {
      assert t !in s.waiters by {
        assert t in s.waiters ==> Waits(s, t);
      }
      var ts := s.threads[t := s.threads[t].(error := Eok)];
      InsertKeeps(s.waiters, ts, t);
      var r := DoRecv(s, t, want, time);
      forall x: Tid | x in r.waiters
        ensures Waits(r, x)
      {
        if x != t {
          assert Waits(s, x);
          assert Within(s.bits - want.bits, s.bits);
          if Within(r.bits, s.bits) {
            Shrinking(s.wants[x], r.bits, s.bits);
          }
        }
      }
    }
  }

  lemma StepInv(s: State, a: Action)
    requires Inv(s)
    ensures Inv(Apply(s, a))
  {
    match a
    case Send(sent) => SendInv(s, sent);
    case Recv(t, want, time) => RecvInv(s, t, want, time);
    case Reset => ResetInv(s);
    case Expire(t) =>
      WithoutDistinct(s.waiters, t);
      Unmoved(s, Apply(s, a));
    case Sleep(t, _) => Unmoved(s, Apply(s, a));
  }

  lemma Unmoved(s: State, r: State)
    requires Inv(s) && r.bits == s.bits && r.wants == s.wants && Distinct(r.waiters)
    requires forall t: Tid :: t in r.waiters ==> t in s.waiters && t in r.threads && (t in s.threads ==> r.threads[t] == s.threads[t])
    requires forall t: Tid :: t in r.threads && r.threads[t].armed ==> r.threads[t].suspended
    ensures Inv(r)
  {
    forall t: Tid | t in r.waiters
      ensures Waits(r, t)
    {
      assert Waits(s, t);
    }
  }

  lemma ResetInv(s: State)
    requires Inv(s)
    ensures Inv(Apply(s, Reset)) && Apply(s, Reset).waiters == []
  {
    forall t: Tid | t in s.waiters
      ensures t in s.threads
    {
      assert Waits(s, t);
    }
    forall t: Tid | t in s.threads
      ensures Apply(s, Reset).threads[t].armed ==> Apply(s, Reset).threads[t].suspended
    {
      WokenAllEach(s.threads, s.waiters, Error, t);
    }
  }

  // In every reachable state nobody is left on the list whose condition is met: no wake-up is lost.
  lemma {:induction false} RunInv(s: State, steps: seq<Action>)
    requires Inv(s)
    ensures Inv(Run(s, steps))
    decreases |steps|
  {
    if steps != [] {
      RunInv(s, steps[..|steps| - 1]);
      StepInv(Run(s, steps[..|steps| - 1]), steps[|steps| - 1]);
    }
  }

  // So no waiter is left whose condition is met, bit by bit: none that wants all of its bits has
  // them all in the set, and none that wants some of them has any.
  lemma NobodyLeftBehind(s: State, steps: seq<Action>, t: Tid)
    requires Inv(s) && t in Run(s, steps).waiters
    ensures var r := Run(s, steps);
      t in r.wants && !Met(r.wants[t], r.bits)
  {
    RunInv(s, steps);
    var r := Run(s, steps);
    assert Waits(r, t);
    SatisfiedMeans(r.wants[t], r.bits);
  }

  /* ------------------------------- what callers are told ------------------------------- */

  // After a send the bits sent and the bits that were there are in the set, except what a clearing
  // receiver has got; whoever was on the list either stays, its condition not met, or goes on
  // with the bits it got.
  lemma SendMeans(s: State, sent: Bits)
    requires Inv(s) && sent != {}
    ensures var r, q := DoSend(s, sent), Scan(s.bits + sent, s.waiters, s.wants);
      && (forall b: Bit :: b in r.bits <==>
        (b in s.bits || b in sent) && !exists k :: 0 <= k < |q.woken| && Clears(q.woken[k], s.wants, b))
      && (forall t :: t in s.waiters ==>
        if t in r.waiters then !Met(WantOf(s.wants, t), r.bits)
        else IsWoken(q.woken, t) && t in r.threads && r.threads[t] == s.threads[t].(suspended := false, armed := false))
      && (forall k :: 0 <= k < |q.woken| ==> Told(r.wants, q.woken[k], s.wants))
  {
    var bits := s.bits + sent;
    var r, q := DoSend(s, sent), Scan(bits, s.waiters, s.wants);
    forall b: Bit
      ensures b in r.bits <==>
        (b in s.bits || b in sent) && !exists k :: 0 <= k < |q.woken| && Clears(q.woken[k], s.wants, b)
    {
      ScanBits(bits, s.waiters, s.wants, b);
    }
    ScanParts(bits, s.waiters, s.wants);
    ScanLeavesNobody(bits, s.waiters, s.wants);
    forall t | t in s.waiters
      ensures if t in r.waiters then !Met(WantOf(s.wants, t), r.bits)
        else IsWoken(q.woken, t) && t in r.threads && r.threads[t] == s.threads[t].(suspended := false, armed := false)
    {
      assert Waits(s, t);
      SatisfiedMeans(WantOf(s.wants, t), r.bits);
      WakeEachThread(s.threads, q.woken, t);
    }
    WokenDistinct(bits, s.waiters, s.wants);
    forall k | 0 <= k < |q.woken|
      ensures Told(r.wants, q.woken[k], s.wants)
    {
      GotEachTells(s.wants, q.woken, k);
    }
  }

  // The thread finds the bits it got where it had noted what it wanted.
  ghost predicate Told(after: map<Tid, Want>, x: Wake, before: map<Tid, Want>) {
    x.t in after && after[x.t] == WantOf(before, x.t).(bits := x.got)
  }

  ghost predicate Apart(woken: seq<Wake>) {
    forall i, j :: 0 <= i < j < |woken| ==> woken[i].t != woken[j].t
  }

  lemma {:induction false} WokenDistinct(bits: Bits, l: seq<Tid>, wants: map<Tid, Want>)
    requires Distinct(l)
    ensures Apart(Scan(bits, l, wants).woken)
  {
    if l != [] {
      var w := WantOf(wants, l[0]);
      var next := if Satisfied(w, bits) then Served(w, bits, w.bits * bits) else bits;
      HeadApart(l);
      WokenDistinct(next, l[1..], wants);
      WokenListed(next, l[1..], wants, l[0]);
      ApartCons(Wake(l[0], w.bits * bits), Scan(next, l[1..], wants).woken);
    }
  }

  lemma WokenListed(bits: Bits, l: seq<Tid>, wants: map<Tid, Want>, t: Tid)
    requires Distinct(l) && t !in l
    ensures forall k :: 0 <= k < |Scan(bits, l, wants).woken| ==> Scan(bits, l, wants).woken[k].t != t
  {
    ScanWoken(bits, l, wants);
  }

  lemma ApartCons(x: Wake, woken: seq<Wake>)
    requires Apart(woken) && forall k :: 0 <= k < |woken| ==> woken[k].t != x.t
    ensures Apart([x] + woken)
  {
  }

  lemma {:induction false} GotEachTells(wants: map<Tid, Want>, woken: seq<Wake>, k: nat)
    requires Apart(woken) && k < |woken|
    ensures Told(GotEach(wants, woken), woken[k], wants)
    decreases |woken|
  {
    var x := woken[0];
    var next := wants[x.t := WantOf(wants, x.t).(bits := x.got)];
    assert forall i :: 0 <= i < |woken| - 1 ==> woken[1..][i] == woken[i + 1];
    if k == 0 {
      GotEachOther(next, woken[1..], x.t);
    } else {
      GotEachTells(next, woken[1..], k - 1);
      assert WantOf(next, woken[k].t) == WantOf(wants, woken[k].t);
    }
  }

  // A receiver is refused exactly if it asks for nothing, told success exactly if its condition is
  // met, that its time is up exactly if it is not and it will not wait, and nothing yet exactly if
  // it is now on the list. With success it finds which of its bits were there, and a clearing
  // receiver takes these out of the set.
  lemma RecvAnswer(s: State, t: Tid, want: Want, time: int)
    requires Inv(s) && Running(s, t)
    ensures var r, told := DoRecv(s, t, want, time), RecvResult(s, want, time);
      && (told == Some(Error) <==> want.bits == {}) && (told == Some(Error) ==> r == s)
      && (told == Some(Eok) <==> want.bits != {} && Met(want, s.bits))
      && (told == Some(Etimeout) <==> want.bits != {} && !Met(want, s.bits) && time == 0)
      && (told.None? <==> want.bits != {} && !Met(want, s.bits) && time != 0) && (told.None? <==> t in r.waiters)
      && (told == Some(Eok) ==>
        && t in r.wants && r.waiters == s.waiters
        && (forall b: Bit :: b in r.wants[t].bits <==> b in want.bits && b in s.bits)
        && (forall b: Bit :: b in r.bits <==> b in s.bits && !(want.clear && b in want.bits)))
      && (told != Some(Eok) ==> r.bits == s.bits)
      && (told.None? ==> t in r.wants && r.wants[t] == want && r.threads[t].suspended && (r.threads[t].armed <==> time > 0))
      && (want.bits != {} ==> t in r.threads && r.threads[t].error == if told == Some(Etimeout) then Etimeout else Eok)
      && (told.Some? ==> r.waiters == s.waiters && !r.threads[t].suspended)
      && (forall x: Tid :: x in s.threads && x != t ==> x in r.threads && r.threads[x] == s.threads[x])
  {
    assert t !in s.waiters by {
      assert t in s.waiters ==> Waits(s, t);
    }
    SatisfiedMeans(want, s.bits);
  }

  // A reset empties the set and the list: every waiter goes on with an error, and nobody else
  // notices.
  lemma ResetMeans(s: State)
    requires Inv(s)
    ensures var r := Apply(s, Reset);
      && r.bits == {} && r.waiters == [] && r.wants == s.wants && r.threads.Keys == s.threads.Keys
      && forall t: Tid :: t in s.threads ==>
        r.threads[t] == if t in s.waiters then s.threads[t].(suspended := false, error := Error, armed := false) else s.threads[t]
  {
    forall t: Tid | t in s.waiters
      ensures t in s.threads
    {
      assert Waits(s, t);
    }
    forall t: Tid | t in s.threads
      ensures WokenAll(s.threads, s.waiters, Error)[t] ==
        if t in s.waiters then s.threads[t].(suspended := false, error := Error, armed := false) else s.threads[t]
    {
      WokenAllEach(s.threads, s.waiters, Error, t);
    }
  }

  // A thread whose time is up leaves the list and goes on with the code for that, alone.
  lemma ExpireMeans(s: State, t: Tid)
    requires Inv(s) && t in s.threads && s.threads[t].armed
    ensures var r := Apply(s, Expire(t));
      && r.bits == s.bits && r.wants == s.wants && (forall x: Tid :: x in r.waiters <==> x in s.waiters && x != t)
      && r.threads == s.threads[t := s.threads[t].(suspended := false, error := Etimeout, armed := false)]
  {
  }

  /* ------------------------------- waiting makes no difference ------------------------------- */

  lemma {:induction false} ScanConcat(bits: Bits, a: seq<Tid>, b: seq<Tid>, wants: map<Tid, Want>)
    ensures var r := Scan(bits, a, wants); var q := Scan(r.bits, b, wants);
      Scan(bits, a + b, wants) == Scanned(q.bits, r.stay + q.stay, r.woken + q.woken)
  {
    if a == [] {
      assert a + b == b;
    } else {
      var w := WantOf(wants, a[0]);
      var next := if Satisfied(w, bits) then Served(w, bits, w.bits * bits) else bits;
      assert (a + b)[1..] == a[1..] + b;
      ScanConcat(next, a[1..], b, wants);
      var q := Scan(Scan(next, a[1..], wants).bits, b, wants);
      var got := [Wake(a[0], w.bits * bits)];
      assert got + (Scan(next, a[1..], wants).woken + q.woken) == got + Scan(next, a[1..], wants).woken + q.woken;
      assert [a[0]] + (Scan(next, a[1..], wants).stay + q.stay) == [a[0]] + Scan(next, a[1..], wants).stay + q.stay;
    }
  }

  // What somebody who is not on the list wants does not matter.
  lemma {:induction false} ScanOther(bits: Bits, l: seq<Tid>, wants: map<Tid, Want>, t: Tid, w: Want)
    requires t !in l
    ensures Scan(bits, l, wants[t := w]) == Scan(bits, l, wants)
    ensures forall k :: 0 <= k < |Scan(bits, l, wants).woken| ==> Scan(bits, l, wants).woken[k].t != t
  {
    if l != [] {
      var x := WantOf(wants, l[0]);
      ScanOther(if Satisfied(x, bits) then Served(x, bits, x.bits * bits) else bits, l[1..], wants, t, w);
    }
  }

  lemma {:induction false} WakeEachOther(ts: Threads, woken: seq<Wake>, t: Tid, x: Thread)
    requires forall k :: 0 <= k < |woken| ==> woken[k].t != t
    ensures WakeEach(ts[t := x], woken) == WakeEach(ts, woken)[t := x]
    decreases |woken|
  {
    if woken != [] {
      var u := woken[0].t;
      var us := if u in ts then Woken(ts, u, ts[u].error) else ts;
      assert u != t;
      assert (if u in ts[t := x] then Woken(ts[t := x], u, ts[t := x][u].error) else ts[t := x]) == us[t := x];
      WakeEachOther(us, woken[1..], t, x);
    }
  }

  lemma {:induction false} GotEachApart(wants: map<Tid, Want>, woken: seq<Wake>, t: Tid, w: Want)
    requires forall k :: 0 <= k < |woken| ==> woken[k].t != t
    ensures GotEach(wants[t := w], woken) == GotEach(wants, woken)[t := w]
    decreases |woken|
  {
    if woken != [] {
      var u := woken[0];
      var next := wants[u.t := WantOf(wants, u.t).(bits := u.got)];
      assert u.t != t;
      assert WantOf(wants[t := w], u.t) == WantOf(wants, u.t);
      assert wants[t := w][u.t := WantOf(wants, u.t).(bits := u.got)] == next[t := w];
      GotEachApart(next, woken[1..], t, w);
    }
  }

  lemma {:induction false} WakeEachConcat(ts: Threads, a: seq<Wake>, b: seq<Wake>)
    ensures WakeEach(ts, a + b) == WakeEach(WakeEach(ts, a), b)
    decreases |a|
  {
    if a == [] {
      assert a + b == b;
    } else {
      assert (a + b)[1..] == a[1..] + b;
      WakeEachConcat(if a[0].t in ts then Woken(ts, a[0].t, ts[a[0].t].error) else ts, a[1..], b);
    }
  }

  lemma {:induction false} GotEachConcat(wants: map<Tid, Want>, a: seq<Wake>, b: seq<Wake>)
    ensures GotEach(wants, a + b) == GotEach(GotEach(wants, a), b)
    decreases |a|
  {
    if a == [] {
      assert a + b == b;
    } else {
      assert (a + b)[1..] == a[1..] + b;
      GotEachConcat(wants[a[0].t := WantOf(wants, a[0].t).(bits := a[0].got)], a[1..], b);
    }
  }

  // Nobody on the list is less urgent than t.
  ghost predicate ComesLast(flag: Flag, l: seq<Tid>, ts: Threads, t: Tid) {
    flag == Fifo || forall x :: x in l ==> PrioOf(ts, x) <= PrioOf(ts, t)
  }

  lemma {:induction false} EnqueuedLast(flag: Flag, l: seq<Tid>, ts: Threads, t: Tid)
    requires ComesLast(flag, l, ts, t)
    ensures Enqueue(flag, l, ts, t) == l + [t]
  {
    if flag == Prio && l != [] {
      EnqueuedLast(flag, l[1..], ts, t);
      assert l == [l[0]] + l[1..];
      assert [l[0]] + (l[1..] + [t]) == l + [t];
    }
  }

  // Waiting makes no difference: a receiver that has to wait, behind everybody on the list, is
  // served by the next send as if it had come after it. If others have taken what it wanted, it
  // waits in both cases.
  lemma WaitingIsTransparent(s: State, t: Tid, want: Want, time: int, sent: Bits)
    requires Inv(s) && Running(s, t) && want.bits != {} && sent != {} && time != 0
    requires !Satisfied(want, s.bits) && ComesLast(s.flag, s.waiters, s.threads, t)
    ensures DoSend(DoRecv(s, t, want, time), sent) == DoRecv(DoSend(s, sent), t, want, time)
  {
    assert t !in s.waiters by {
      assert t in s.waiters ==> Waits(s, t);
    }
    var asleep := s.threads[t].(suspended := true, error := Eok, armed := time > 0);
    var r := Scan(s.bits + sent, s.waiters, s.wants);
    ScanOther(s.bits + sent, s.waiters, s.wants, t, want);
    EarlyRecv(s, t, want, time, asleep);
    EarlySend(s, t, want, sent, asleep, r);
    LateRecv(s, t, want, time, sent, asleep, r);
  }

  lemma EarlyRecv(s: State, t: Tid, want: Want, time: int, asleep: Thread)
    requires Running(s, t) && want.bits != {} && time != 0 && !Satisfied(want, s.bits)
    requires ComesLast(s.flag, s.waiters, s.threads, t)
    requires asleep == s.threads[t].(suspended := true, error := Eok, armed := time > 0)
    ensures DoRecv(s, t, want, time) ==
      s.(wants := s.wants[t := want], waiters := s.waiters + [t], threads := s.threads[t := asleep])
  {
    var ts := s.threads[t := s.threads[t].(error := Eok)];
    assert ComesLast(s.flag, s.waiters, ts, t);
    EnqueuedLast(s.flag, s.waiters, ts, t);
    assert ts[t := asleep] == s.threads[t := asleep];
  }

  // After the scan of those in front of it, the waiter sees what they have left.
  lemma EarlySend(s: State, t: Tid, want: Want, sent: Bits, asleep: Thread, r: Scanned)
    requires sent != {} && r == Scan(s.bits + sent, s.waiters, s.wants) && t !in s.waiters
    requires r == Scan(s.bits + sent, s.waiters, s.wants[t := want])
    requires forall k :: 0 <= k < |r.woken| ==> r.woken[k].t != t
    ensures var got := want.bits * r.bits; var ts, ws := WakeEach(s.threads, r.woken), GotEach(s.wants, r.woken);
      DoSend(s.(wants := s.wants[t := want], waiters := s.waiters + [t], threads := s.threads[t := asleep]), sent) ==
        if Satisfied(want, r.bits) then
          s.(bits := Served(want, r.bits, got), waiters := r.stay,
             threads := ts[t := asleep.(suspended := false, armed := false)], wants := ws[t := want.(bits := got)])
        else
          s.(bits := r.bits, waiters := r.stay + [t], threads := ts[t := asleep], wants := ws[t := want])
  {
    var wants, got := s.wants[t := want], want.bits * r.bits;
    var one := [Wake(t, got)];
    ScanThenOne(s.bits + sent, s.waiters, wants, t);
    WakeEachOther(s.threads, r.woken, t, asleep);
    GotEachApart(s.wants, r.woken, t, want);
    if Satisfied(want, r.bits) {
      WakeEachConcat(s.threads[t := asleep], r.woken, one);
      GotEachConcat(wants, r.woken, one);
      WakeOne(WakeEach(s.threads, r.woken), GotEach(s.wants, r.woken), t, asleep, want, got);
    }
  }

  lemma ScanThenOne(bits: Bits, l: seq<Tid>, wants: map<Tid, Want>, t: Tid)
    ensures var r := Scan(bits, l, wants); var w := WantOf(wants, t);
      Scan(bits, l + [t], wants) ==
        if Satisfied(w, r.bits) then Scanned(Served(w, r.bits, w.bits * r.bits), r.stay, r.woken + [Wake(t, w.bits * r.bits)])
        else Scanned(r.bits, r.stay + [t], r.woken)
  {
    var r, w := Scan(bits, l, wants), WantOf(wants, t);
    ScanConcat(bits, l, [t], wants);
    ScanStep(r.bits, t, [], wants);
    assert [t] + [] == [t] && r.stay + [] == r.stay && r.woken + [] == r.woken;
  }

  lemma WakeOne(ts: Threads, ws: map<Tid, Want>, t: Tid, x: Thread, want: Want, got: Bits)
    ensures WakeEach(ts[t := x], [Wake(t, got)]) == ts[t := x.(suspended := false, armed := false)]
    ensures GotEach(ws[t := want], [Wake(t, got)]) == ws[t := want.(bits := got)]
  {
    var one := [Wake(t, got)];
    assert one[1..] == [];
    assert WakeEach(ts[t := x], one) == ts[t := x][t := x.(suspended := false, armed := false)];
    assert GotEach(ws[t := want], one) == ws[t := want][t := want.(bits := got)];
  }

  lemma LateRecv(s: State, t: Tid, want: Want, time: int, sent: Bits, asleep: Thread, r: Scanned)
    requires Inv(s) && Running(s, t) && want.bits != {} && sent != {} && time != 0
    requires ComesLast(s.flag, s.waiters, s.threads, t) && r == Scan(s.bits + sent, s.waiters, s.wants)
    requires asleep == s.threads[t].(suspended := true, error := Eok, armed := time > 0)
    requires forall k :: 0 <= k < |r.woken| ==> r.woken[k].t != t
    ensures var got := want.bits * r.bits; var ts, ws := WakeEach(s.threads, r.woken), GotEach(s.wants, r.woken);
      DoRecv(DoSend(s, sent), t, want, time) ==
        if Satisfied(want, r.bits) then
          s.(bits := Served(want, r.bits, got), waiters := r.stay,
             threads := ts[t := asleep.(suspended := false, armed := false)], wants := ws[t := want.(bits := got)])
        else
          s.(bits := r.bits, waiters := r.stay + [t], threads := ts[t := asleep], wants := ws[t := want])
  {
    var u := DoSend(s, sent);
    WakeEachThread(s.threads, r.woken, t);
    assert u.threads[t] == s.threads[t] && !s.threads[t].armed;
    ClearSame(want, r.bits);
    var us := u.threads[t := u.threads[t].(error := Eok)];
    assert ComesLast(s.flag, r.stay, us, t) by {
      ScanStay(s.bits + sent, s.waiters, s.wants);
      forall x | x in r.stay
        ensures PrioOf(us, x) == PrioOf(s.threads, x)
      {
        WakeEachNew(s.threads, r.woken, x);
        if x in s.threads {
          WakeEachThread(s.threads, r.woken, x);
        }
      }
    }
    EnqueuedLast(s.flag, r.stay, us, t);
    assert us[t := asleep] == u.threads[t := asleep];
    assert r.bits * want.bits == want.bits * r.bits;
  }

  // The scan of a list has come to position n: scanning the rest, with the threads and wants as
  // they are by now, comes to what the whole scan comes to.
  ghost predicate ToCome(whole: Scanned, ts0: Threads, ws0: map<Tid, Want>, bits: Bits, l: seq<Tid>, n: nat, ts: Threads, ws: map<Tid, Want>) {
    && n <= |l|
    && var q := Scan(bits, l[n..], ws0);
      && whole.bits == q.bits && whole.stay == l[..n] + q.stay
      && WakeEach(ts0, whole.woken) == WakeEach(ts, q.woken)
      && GotEach(ws0, whole.woken) == GotEach(ws, q.woken)
  }

  lemma ServeStep(whole: Scanned, ts0: Threads, ws0: map<Tid, Want>, bits: Bits, l: seq<Tid>, n: nat, ts: Threads, ws: map<Tid, Want>)
    requires ToCome(whole, ts0, ws0, bits, l, n, ts, ws) && n < |l| && l[n] in ts
    requires WantOf(ws, l[n]) == WantOf(ws0, l[n]) && Satisfied(WantOf(ws, l[n]), bits)
    ensures var w := WantOf(ws, l[n]); var got := w.bits * bits;
      ToCome(whole, ts0, ws0, Served(w, bits, got), l[..n] + l[n + 1..], n, Woken(ts, l[n], ts[l[n]].error), ws[l[n] := w.(bits := got)])
  {
    var w, m := WantOf(ws, l[n]), l[..n] + l[n + 1..];
    var got := w.bits * bits;
    assert l[n..] == [l[n]] + l[n + 1..] && m[n..] == l[n + 1..] && m[..n] == l[..n];
    ScanStep(bits, l[n], l[n + 1..], ws0);
    var rest := Scan(Served(w, bits, got), l[n + 1..], ws0).woken;
    assert ([Wake(l[n], got)] + rest)[1..] == rest;
  }

  lemma SkipStep(whole: Scanned, ts0: Threads, ws0: map<Tid, Want>, bits: Bits, l: seq<Tid>, n: nat, ts: Threads, ws: map<Tid, Want>)
    requires ToCome(whole, ts0, ws0, bits, l, n, ts, ws) && n < |l|
    requires WantOf(ws, l[n]) == WantOf(ws0, l[n]) && !Satisfied(WantOf(ws, l[n]), bits)
    ensures ToCome(whole, ts0, ws0, bits, l, n + 1, ts, ws)
  {
    assert l[n..] == [l[n]] + l[n + 1..] && l[..n + 1] == l[..n] + [l[n]];
    ScanStep(bits, l[n], l[n + 1..], ws0);
  }

  lemma DropMembers(l: seq<Tid>, n: nat)
    requires Distinct(l) && n < |l|
    ensures var m := l[..n] + l[n + 1..]; Distinct(m) && forall x: Tid :: x in m ==> x in l && x != l[n]
  {
    assert l[..n] + l[n + 1..] == RemoveAt(l, n);
    RemoveMembers(l, n);
  }

  /* ------------------------------- the event in place ------------------------------- */

  class Event {
    var bits: Bits
    var wants: map<Tid, Want>
    const list: WaitList

    function Abs(): State
      reads this, list
    {
      State(bits, list.flag, list.waiters, list.threads, wants)
    }

    // rt_event_init
    constructor (flag: Flag, threads: Threads)
      requires forall t: Tid :: t in threads && threads[t].armed ==> threads[t].suspended
      ensures Inv(Abs()) && Abs() == State({}, flag, [], threads, map[]) && fresh(list)
    {
      bits, wants := {}, map[];
      list := new WaitList(flag, threads);
    }

    method Send(sent: Bits) returns (r: Code)
      requires Inv(Abs())
      modifies this, list
      ensures Inv(Abs()) && Abs() == DoSend(old(Abs()), sent) && r == if sent == {} then Error else Eok
    {
      if sent == {} {
        return Error;
      }
      SendInv(Abs(), sent);
      assert forall t: Tid :: t in list.waiters ==> Waits(Abs(), t);
      bits := bits + sent;
      Distribute();
      r := Eok;
    }

    // Goes along the list, serving whoever the set satisfies.
    method Distribute()
      requires Distinct(list.waiters) && forall t: Tid :: t in list.waiters ==> t in list.threads
      modifies this, list
      ensures var r := Scan(old(bits), old(list.waiters), old(wants));
        Abs() == old(Abs()).(bits := r.bits, waiters := r.stay,
          threads := WakeEach(old(list.threads), r.woken), wants := GotEach(old(wants), r.woken))
    {
      ghost var whole, wants0 := Scan(bits, list.waiters, wants), wants;
      assert list.waiters[0..] == list.waiters;
      var n := 0;
      while n < |list.waiters|
        invariant n <= |list.waiters| && list.flag == old(list.flag)
        invariant Distinct(list.waiters) && forall t: Tid :: t in list.waiters ==> t in list.threads
        invariant forall t: Tid :: t in list.waiters ==> WantOf(wants, t) == WantOf(wants0, t)
        invariant ToCome(whole, old(list.threads), wants0, bits, list.waiters, n, list.threads, wants)
        decreases |list.waiters| - n
      {
        var t := list.waiters[n];
        if Satisfied(WantOf(wants, t), bits) {
          ServeStep(whole, old(list.threads), wants0, bits, list.waiters, n, list.threads, wants);
          Serve(t, n);
        } else {
          SkipStep(whole, old(list.threads), wants0, bits, list.waiters, n, list.threads, wants);
          n := n + 1;
        }
      }
      assert list.waiters[n..] == [] && list.waiters[..n] == list.waiters;
    }

    // The thread at position n gets its events and goes on.
    method Serve(t: Tid, n: nat)
      requires n < |list.waiters| && list.waiters[n] == t && Distinct(list.waiters) && t in list.threads
      requires Satisfied(WantOf(wants, t), bits)
      modifies this, list`waiters, list`threads
      ensures var w := WantOf(old(wants), t); var got := w.bits * old(bits);
        wants == old(wants)[t := w.(bits := got)] && bits == Served(w, old(bits), got)
      ensures list.waiters == old(list.waiters)[..n] + old(list.waiters)[n + 1..] && Distinct(list.waiters)
      ensures forall x: Tid :: x in list.waiters ==> x in old(list.waiters) && x != t
      ensures list.threads == Woken(old(list.threads), t, old(list.threads)[t].error)
    {
      var w := WantOf(wants, t);
      var got := if w.mode == Or then w.bits * bits else w.bits;
      wants := wants[t := w.(bits := got)];
      if w.clear {
        bits := bits - got;
      }
      DropMembers(list.waiters, n);
      list.waiters := list.waiters[..n] + list.waiters[n + 1..];
      list.threads := list.threads[t := list.threads[t].(suspended := false, armed := false)];
    }

    // The part of rt_event_recv up to the schedule.
    method Recv(t: Tid, want: Want, time: int) returns (r: Option<Code>)
      requires Inv(Abs()) && Running(Abs(), t)
      modifies this, list
      ensures Inv(Abs()) && Abs() == DoRecv(old(Abs()), t, want, time) && r == RecvResult(old(Abs()), want, time)
    {
      RecvInv(Abs(), t, want, time);
      if want.bits == {} {
        return Some(Error);
      }
      list.threads := list.threads[t := list.threads[t].(error := Eok)];
      if Satisfied(want, bits) {
        wants := wants[t := want.(bits := bits * want.bits)];
        if want.clear {
          bits := bits - want.bits;
        }
        return Some(Eok);
      }
      if time == 0 {
        list.threads := list.threads[t := list.threads[t].(error := Etimeout)];
        return Some(Etimeout);
      }
      wants := wants[t := want];
      list.Suspend(t, time);
      r := None;
    }

    // rt_event_control with RT_IPC_CMD_RESET.
    method Reset()
      requires Inv(Abs())
      modifies this, list
      ensures Inv(Abs()) && Abs() == Apply(old(Abs()), Action.Reset) && list.waiters == []
    {
      ResetInv(Abs());
      assert forall t: Tid :: t in list.waiters ==> Waits(Abs(), t);
      list.ResumeAll();
      bits := {};
    }
  }
}
