/** Timers over unbounded time: one list in the order in which the timers will run out. This is
  what the skip list with its wrapping ticks is measured against.
 */
module TimerSpec {
  import opened Seqs

  const HALF: int := 0x7FFF_FFFF  // RT_TICK_MAX / 2

  type Tid = nat

  // The delays for which timers are meant: positive, and below half the tick range.
  type Delay = d: int | 0 < d < HALF witness 1

  // What a timeout function may do to timers, itself included.
  datatype Action =
    | DoStart(t: Tid)
    | DoStop(t: Tid)
    | DoSetTime(t: Tid, delay: Delay)
    | DoSetPeriodic(t: Tid, on: bool)

  // held is the timer whose timeout function is running, until somebody starts or stops it.
  datatype State = State(
    now: int, line: seq<Tid>, due: map<Tid, int>, delay: map<Tid, Delay>,
    periodic: set<Tid>, active: set<Tid>, held: Option<Tid>)

  function Due(s: State, t: Tid): int {
    if t in s.due then s.due[t] else 0
  }

  function DelayOf(s: State, t: Tid): Delay {
    if t in s.delay then s.delay[t] else 1
  }

  /* ------------------------------- lines ------------------------------- */

  // A linear scan: behind everything that runs out no later than d.
  function Insert(l: seq<Tid>, due: map<Tid, int>, t: Tid, d: int): (m: seq<Tid>)
    ensures forall x: Tid :: x in m <==> x in l || x == t
  {
    if l == [] then [t]
    else if (if l[0] in due then due[l[0]] else 0) > d then [t] + l
    else [l[0]] + Insert(l[1..], due, t, d)
  }

  // Deadlines along the line never decrease.
  ghost predicate Sorted(l: seq<Tid>, due: map<Tid, int>) {
    && (forall i :: 0 <= i < |l| ==> l[i] in due)
    && forall i, j :: 0 <= i < j < |l| ==> due[l[i]] <= due[l[j]]
  }

  /* ------------------------------- the operations ------------------------------- */

  function Start(s: State, t: Tid): State {
    var d := s.now + DelayOf(s, t);
    var rest := Without(s.line, t);
    s.(line := Insert(rest, s.due, t, d), due := s.due[t := d], active := s.active + {t},
       held := if s.held == Some(t) then None else s.held)
  }

  function Stop(s: State, t: Tid): State {
    if t !in s.active then s
    else s.(line := Without(s.line, t), active := s.active - {t}, held := if s.held == Some(t) then None else s.held)
  }

  function Act(s: State, a: Action): State {
    match a
    case DoStart(t) => Start(s, t)
    case DoStop(t) => Stop(s, t)
    case DoSetTime(t, d) => s.(delay := s.delay[t := d])
    case DoSetPeriodic(t, on) => s.(periodic := if on then s.periodic + {t} else s.periodic - {t})
  }

  function ActAll(s: State, acts: seq<Action>): State
    decreases |acts|
  {
    if acts == [] then s else ActAll(Act(s, acts[0]), acts[1..])
  }

  // The first timer of the line is taken off it, ...
  function TakeOff(s: State): State
    requires s.line != []
  {
    var t := s.line[0];
    s.(line := s.line[1..], active := if t in s.periodic then s.active else s.active - {t}, held := Some(t))
  }

  // ... its timeout function runs, and unless that dealt with the timer itself, a periodic timer
  // is started again.
  function PutBack(s: State, t: Tid): State {
    if s.held == None then s
    else
      var r := s.(held := None);
      if t in r.periodic && t in r.active then Start(r.(active := r.active - {t}), t) else r
  }

  function Fire(s: State, calls: Tid -> seq<Action>): State
    requires s.line != []
  {
    PutBack(ActAll(TakeOff(s), calls(s.line[0])), s.line[0])
  }

  // Timers that have run out.
  function Expired(s: State): set<Tid> {
    set t | t in s.line && Due(s, t) <= s.now
  }

  // Everything that has run out is fired, in order; log says what was fired.
  function Check(s: State, calls: Tid -> seq<Action>): (r: (State, seq<Tid>))
    requires Inv(s) && s.held == None
    decreases |Expired(s)|
  {
    if s.line == [] || Due(s, s.line[0]) > s.now then (s, [])
    else
      FireKeeps(s, calls);
      var (r, log) := Check(Fire(s, calls), calls);
      (r, [s.line[0]] + log)
  }

  // One tick, then the check that belongs to it.
  function Tick(s: State, calls: Tid -> seq<Action>): (r: (State, seq<Tid>))
    requires Inv(s) && s.held == None && NoneExpired(s)
  {
    TickInv(s);
    Check(s.(now := s.now + 1), calls)
  }

  /* ------------------------------- the invariant ------------------------------- */

  ghost predicate InRange(s: State, t: Tid) {
    t in s.due && s.now <= s.due[t] < s.now + HALF
  }

  // The line holds active timers, each once and ordered, and no deadline is further away than
  // half the tick range.
  ghost predicate Inv(s: State) {
    && Distinct(s.line) && Sorted(s.line, s.due)
    && (forall t: Tid :: t in s.line ==> InRange(s, t) && t in s.active)
    && (s.held.Some? ==> s.held.value !in s.line)
  }

  ghost predicate NoneExpired(s: State) {
    forall t: Tid :: t in s.line ==> Due(s, t) > s.now
  }

  lemma TickInv(s: State)
    requires Inv(s) && NoneExpired(s)
    ensures Inv(s.(now := s.now + 1))
  {
    forall t: Tid | t in s.line
      ensures InRange(s.(now := s.now + 1), t)
    {
      assert InRange(s, t);
    }
  }

  lemma {:induction false} WithoutKeeps(l: seq<Tid>, t: Tid, due: map<Tid, int>)
    requires Distinct(l) && Sorted(l, due)
    ensures Distinct(Without(l, t)) && Sorted(Without(l, t), due)
  {
    if l != [] {
      var m := Without(l[1..], t);
      WithoutKeeps(l[1..], t, due);
      if l[0] != t {
        ConsKeeps(l, m, due);
      }
    }
  }

  // The head of l fits in front of anything drawn from the rest of l.
  lemma ConsKeeps(l: seq<Tid>, m: seq<Tid>, due: map<Tid, int>)
    requires Distinct(l) && Sorted(l, due) && l != []
    requires Distinct(m) && Sorted(m, due) && forall x :: x in m ==> x in l[1..]
    ensures Distinct([l[0]] + m) && Sorted([l[0]] + m, due)
  {
    forall j | 0 <= j < |m|
      ensures m[j] != l[0] && due[l[0]] <= due[m[j]]
    {
      assert m[j] in m;
      var k :| 0 <= k < |l[1..]| && l[1..][k] == m[j];
      assert l[k + 1] == m[j];
    }
  }

  // The new timer comes behind those that run out with it, and before all that run out later;
  // the others keep their order.
  lemma {:induction false} InsertPlace(l: seq<Tid>, due: map<Tid, int>, t: Tid, d: int) returns (k: nat)
    requires Sorted(l, due)
    ensures k <= |l| && Insert(l, due, t, d) == l[..k] + [t] + l[k..]
    ensures forall i :: 0 <= i < |l| ==> (i < k <==> due[l[i]] <= d)
  {
    if l == [] || due[l[0]] > d {
      k := 0;
      assert l[..0] + [t] + l[0..] == [t] + l;
    } else {
      var m := l[1..];
      assert forall i :: 0 <= i < |m| ==> m[i] == l[i + 1];
      var j := InsertPlace(m, due, t, d);
      k := j + 1;
      forall i | 0 <= i < |l|
        ensures i < k <==> due[l[i]] <= d
      {
        assert i > 0 ==> m[i - 1] == l[i];
      }
      assert [l[0]] + (m[..j] + [t] + m[j..]) == l[..k] + [t] + l[k..];
    }
  }

  lemma {:induction false} InsertKeeps(l: seq<Tid>, due: map<Tid, int>, t: Tid, d: int)
    requires Distinct(l) && Sorted(l, due) && t !in l
    ensures Distinct(Insert(l, due, t, d)) && Sorted(Insert(l, due, t, d), due[t := d])
  {
    if l != [] && due[l[0]] <= d {
      var m := Insert(l[1..], due, t, d);
      InsertKeeps(l[1..], due, t, d);
      forall j | 0 <= j < |m|
        ensures m[j] != l[0] && due[l[0]] <= due[t := d][m[j]]
      {
        assert m[j] in m;
        if m[j] != t {
          var k :| 0 <= k < |l[1..]| && l[1..][k] == m[j];
          assert l[k + 1] == m[j];
        }
      }
      assert Insert(l, due, t, d) == [l[0]] + m;
    } else if l != [] {
      assert forall i :: 0 <= i < |l| ==> due[l[0]] <= due[l[i]];
      assert Insert(l, due, t, d) == [t] + l;
    }
  }

  lemma StartKeeps(s: State, t: Tid)
    requires Inv(s)
    ensures Inv(Start(s, t))
    ensures Expired(Start(s, t)) == Expired(s) - {t}
  {
    var d := s.now + DelayOf(s, t);
    WithoutKeeps(s.line, t, s.due);
    InsertKeeps(Without(s.line, t), s.due, t, d);
    var r := Start(s, t);
    forall x: Tid | x in r.line
      ensures InRange(r, x) && x in r.active
    {
      assert x != t ==> InRange(s, x);
    }
    forall x: Tid
      ensures x in Expired(r) <==> x in Expired(s) - {t}
    {
    }
  }

  lemma StopKeeps(s: State, t: Tid)
    requires Inv(s)
    ensures Inv(Stop(s, t))
    ensures Expired(Stop(s, t)) <= Expired(s)
  {
    WithoutKeeps(s.line, t, s.due);
    var r := Stop(s, t);
    forall x: Tid | x in r.line
      ensures InRange(r, x) && x in r.active
    {
      assert InRange(s, x);
    }
  }

  lemma ActKeeps(s: State, a: Action)
    requires Inv(s)
    ensures var r := Act(s, a); Inv(r) && Expired(r) <= Expired(s) && r.now == s.now && (s.held == None ==> r.held == None)
  {
    match a
    case DoStart(t) => StartKeeps(s, t);
    case DoStop(t) => StopKeeps(s, t);
    case DoSetTime(t, d) =>
      var r := Act(s, a);
      assert forall x: Tid :: x in r.line ==> InRange(s, x) ==> InRange(r, x);
    case DoSetPeriodic(t, on) =>
      var r := Act(s, a);
      assert forall x: Tid :: x in r.line ==> InRange(s, x) ==> InRange(r, x);
  }

  lemma {:induction false} ActAllKeeps(s: State, acts: seq<Action>)
    requires Inv(s)
    ensures var r := ActAll(s, acts); Inv(r) && Expired(r) <= Expired(s)
    ensures var r := ActAll(s, acts); r.now == s.now && (s.held == None ==> r.held == None)
    decreases |acts|
  {
    if acts != [] {
      ActKeeps(s, acts[0]);
      ActAllKeeps(Act(s, acts[0]), acts[1..]);
    }
  }

  lemma TakeOffKeeps(s: State)
    requires Inv(s) && s.held == None && s.line != []
    ensures Inv(TakeOff(s)) && Expired(TakeOff(s)) == Expired(s) - {s.line[0]}
  {
    var r := TakeOff(s);
    assert s.line == [s.line[0]] + r.line;
    forall i, j | 0 <= i < j < |r.line|
      ensures r.line[i] != r.line[j] && s.due[r.line[i]] <= s.due[r.line[j]]
    {
      assert r.line[i] == s.line[i + 1] && r.line[j] == s.line[j + 1];
    }
    assert forall k :: 0 <= k < |r.line| ==> r.line[k] == s.line[k + 1] != s.line[0];
    forall x: Tid | x in r.line
      ensures InRange(r, x) && x in r.active && x in s.line
    {
      assert InRange(s, x);
    }
    assert forall x: Tid :: x in s.line <==> x in r.line || x == s.line[0];
  }

  lemma LetGo(s: State, t: Tid)
    requires Inv(s) && s.held == Some(t)
    ensures Inv(s.(held := None)) && Inv(s.(held := None, active := s.active - {t}))
    ensures Expired(s.(held := None, active := s.active - {t})) == Expired(s)
  {
    var r := s.(held := None, active := s.active - {t});
    forall x: Tid | x in s.line
      ensures InRange(r, x) && x in r.active && InRange(s.(held := None), x)
    {
      assert InRange(s, x);
    }
  }

  lemma PutBackKeeps(s: State, t: Tid)
    requires Inv(s) && (s.held.Some? ==> s.held.value == t)
    ensures var r := PutBack(s, t); Inv(r) && r.held == None && Expired(r) <= Expired(s) && r.now == s.now
  {
    if s.held.Some? {
      var r := s.(held := None, active := s.active - {t});
      LetGo(s, t);
      if t in s.periodic && t in s.active {
        StartKeeps(r, t);
      }
    }
  }

  // Somebody else is never put into the held place.
  lemma {:induction false} HeldStays(s: State, acts: seq<Action>)
    ensures ActAll(s, acts).held == s.held || ActAll(s, acts).held == None
    decreases |acts|
  {
    if acts != [] {
      HeldStays(Act(s, acts[0]), acts[1..]);
    }
  }

  // Firing a timer keeps the invariant and leaves fewer that have run out, whatever the timeout
  // function does.
  lemma FireKeeps(s: State, calls: Tid -> seq<Action>)
    requires Inv(s) && s.held == None && s.line != [] && Due(s, s.line[0]) <= s.now
    ensures var r := Fire(s, calls);
      && Inv(r) && r.held == None && r.now == s.now
      && Expired(r) <= Expired(s) - {s.line[0]} && |Expired(r)| < |Expired(s)|
  {
    var t := s.line[0];
    TakeOffKeeps(s);
    ActAllKeeps(TakeOff(s), calls(t));
    HeldStays(TakeOff(s), calls(t));
    PutBackKeeps(ActAll(TakeOff(s), calls(t)), t);
    Fewer(Expired(Fire(s, calls)), Expired(s), t);
  }

  lemma Fewer(a: set<Tid>, b: set<Tid>, t: Tid)
    requires a <= b - {t} && t in b
    ensures |a| < |b|
  {
    assert a <= b - {t};
    SubsetSize(a, b - {t});
  }

  lemma {:induction false} SubsetSize(a: set<Tid>, b: set<Tid>)
    requires a <= b
    ensures |a| <= |b|
  {
    if x :| x in a {
      SubsetSize(a - {x}, b - {x});
    }
  }

  lemma CheckDone(s: State, calls: Tid -> seq<Action>)
    requires Inv(s) && s.held == None && (s.line == [] || Due(s, s.line[0]) > s.now)
    ensures Check(s, calls) == (s, [])
  {
  }

  lemma CheckStep(s: State, calls: Tid -> seq<Action>)
    requires Inv(s) && s.held == None && s.line != [] && Due(s, s.line[0]) <= s.now
    ensures Inv(Fire(s, calls)) && Fire(s, calls).held == None && |Expired(Fire(s, calls))| < |Expired(s)|
    ensures Check(s, calls) == (Check(Fire(s, calls), calls).0, [s.line[0]] + Check(Fire(s, calls), calls).1)
  {
    FireKeeps(s, calls);
  }

  // A check ends with nothing expired, and fires only timers that have run out, each once.
  lemma {:induction false} CheckEnds(s: State, calls: Tid -> seq<Action>)
    requires Inv(s) && s.held == None
    ensures
      var (r, log) := Check(s, calls);
      && Inv(r) && r.held == None && r.now == s.now && NoneExpired(r)
      && Distinct(log) && forall t :: t in log ==> t in Expired(s)
    decreases |Expired(s)|
  {
    if s.line == [] || Due(s, s.line[0]) > s.now {
      forall t: Tid | t in s.line
        ensures Due(s, t) > s.now
      {
        var k :| 0 <= k < |s.line| && s.line[k] == t;
        assert k > 0 ==> s.due[s.line[0]] <= s.due[s.line[k]];
      }
    } else {
      FireKeeps(s, calls);
      CheckEnds(Fire(s, calls), calls);
      var rest := Check(Fire(s, calls), calls).1;
      forall i, j | 0 <= i < j < |rest| + 1
        ensures ([s.line[0]] + rest)[i] != ([s.line[0]] + rest)[j]
      {
        assert ([s.line[0]] + rest)[j] in rest;
      }
    }
  }

  /* ------------------------------- active, but not in the line ------------------------------- */

  // Timers marked as activated that stand in no list and so will never run out; the timer whose
  // timeout function is running is not among them.
  ghost predicate Stray(s: State, t: Tid) {
    t in s.active && t !in s.line && s.held != Some(t)
  }

  ghost predicate NoStray(s: State) {
    forall t: Tid :: !Stray(s, t)
  }

  predicate Deals(a: Action, t: Tid) {
    a == DoStart(t) || a == DoStop(t)
  }

  // Somebody starts or stops t.
  predicate DealtWith(acts: seq<Action>, t: Tid) {
    exists i :: 0 <= i < |acts| && Deals(acts[i], t)
  }

  // Whether t is periodic after the calls, if it was before or not.
  function PeriodicAfter(acts: seq<Action>, t: Tid, before: bool): bool
    decreases |acts|
  {
    if acts == [] then before
    else PeriodicAfter(acts[1..], t, if acts[0].DoSetPeriodic? && acts[0].t == t then acts[0].on else before)
  }

  // The timeout function of t makes it a one-shot timer and neither starts nor stops it.
  predicate LosesItself(acts: seq<Action>, t: Tid) {
    !DealtWith(acts, t) && !PeriodicAfter(acts, t, true)
  }

  lemma {:induction false} DealtFirst(acts: seq<Action>, t: Tid)
    requires acts != []
    ensures DealtWith(acts, t) <==> Deals(acts[0], t) || DealtWith(acts[1..], t)
  {
    assert forall i :: 0 <= i < |acts[1..]| ==> acts[1..][i] == acts[i + 1];
    if i :| 0 < i < |acts| && Deals(acts[i], t) {
      assert Deals(acts[1..][i - 1], t);
    }
  }

  // A call leaves the stray timers stray, unless it deals with them, and adds none.
  lemma {:induction false} ActAllStray(s: State, acts: seq<Action>, t: Tid)
    requires s.held != Some(t)
    ensures Stray(ActAll(s, acts), t) <==> Stray(s, t) && !DealtWith(acts, t)
    ensures ActAll(s, acts).held != Some(t)
    decreases |acts|
  {
    if acts != [] {
      DealtFirst(acts, t);
      ActAllStray(Act(s, acts[0]), acts[1..], t);
    }
  }

  // What the calls of its own timeout function do to a timer that has been taken off the line.
  lemma {:induction false} ActAllHeld(s: State, acts: seq<Action>, t: Tid)
    requires s.held == Some(t) && t in s.active && t !in s.line
    ensures var r := ActAll(s, acts);
      if DealtWith(acts, t) then r.held == None && !Stray(r, t)
      else r.held == Some(t) && t in r.active && t !in r.line && (t in r.periodic <==> PeriodicAfter(acts, t, t in s.periodic))
    decreases |acts|
  {
    if acts != [] {
      DealtFirst(acts, t);
      if Deals(acts[0], t) {
        ActAllStray(Act(s, acts[0]), acts[1..], t);
        HeldStays(Act(s, acts[0]), acts[1..]);
      } else {
        ActAllHeld(Act(s, acts[0]), acts[1..], t);
      }
    }
  }

  // A one-shot timer is not active while its timeout function runs, unless somebody starts it.
  lemma {:induction false} ActAllInactive(s: State, acts: seq<Action>, t: Tid)
    requires s.held == Some(t) && t !in s.active && t !in s.line
    ensures var r := ActAll(s, acts); t in r.active ==> r.held == None && !Stray(r, t)
    decreases |acts|
  {
    if acts != [] {
      if acts[0] == DoStart(t) {
        ActAllStray(Act(s, acts[0]), acts[1..], t);
        HeldStays(Act(s, acts[0]), acts[1..]);
      } else {
        ActAllInactive(Act(s, acts[0]), acts[1..], t);
      }
    }
  }

  // Which timers are stray after a firing: those that were, unless the timeout function dealt
  // with them, and a periodic timer that loses itself in its own timeout function.
  lemma FireStray(s: State, calls: Tid -> seq<Action>, x: Tid)
    requires Inv(s) && s.held == None && s.line != []
    ensures var t := s.line[0];
      Stray(Fire(s, calls), x) <==>
        if x == t then t in s.periodic && LosesItself(calls(t), t) else Stray(s, x) && !DealtWith(calls(t), x)
  {
    var t := s.line[0];
    var u, acts := TakeOff(s), calls(t);
    TakeOffKeeps(s);
    assert s.line == [t] + s.line[1..];
    assert t in s.active by {
      assert t in s.line;
    }
    if x != t {
      ActAllStray(u, acts, x);
    } else if t in s.periodic {
      ActAllHeld(u, acts, t);
    } else {
      ActAllInactive(u, acts, t);
    }
  }

  // A firing leaves no timer stray exactly if the timer fired does not lose itself.
  lemma FireNoStray(s: State, calls: Tid -> seq<Action>)
    requires Inv(s) && s.held == None && s.line != [] && NoStray(s)
    ensures NoStray(Fire(s, calls)) <==> !(s.line[0] in s.periodic && LosesItself(calls(s.line[0]), s.line[0]))
  {
    forall x: Tid
      ensures Stray(Fire(s, calls), x) <==> x == s.line[0] && x in s.periodic && LosesItself(calls(x), x)
    {
      FireStray(s, calls, x);
    }
  }

  // The timeout functions of other timers do not touch t.
  ghost predicate OwnOnly(calls: Tid -> seq<Action>, t: Tid) {
    forall x: Tid, a :: x != t && a in calls(x) ==> a.t != t
  }

  // A periodic timer that turns itself into a one-shot timer.
  lemma StrayExample()
    ensures
      var s := State(7, [0], map[0 := 7], map[0 := 5], {0}, {0}, None);
      && Inv(s) && NoStray(s) && !NoStray(Fire(s, _ => [DoSetPeriodic(0, false)]))
  {
    var s := State(7, [0], map[0 := 7], map[0 := 5], {0}, {0}, None);
    var acts := [DoSetPeriodic(0, false)];
    assert ActAll(TakeOff(s), acts) == Act(TakeOff(s), acts[0]) by {
      assert acts[1..] == [];
    }
    var r := Fire(s, _ => acts);
    assert Stray(r, 0);
  }

  /* ------------------------------- timers left alone fire exactly on time ------------------------------- */

  // No timeout function touches timer t.
  ghost predicate Spared(calls: Tid -> seq<Action>, t: Tid) {
    forall x: Tid, a :: a in calls(x) ==> a.t != t
  }

  // What there is to know about timer t.
  ghost predicate SameTimer(s: State, r: State, t: Tid) {
    && (t in s.line <==> t in r.line) && (t in s.active <==> t in r.active) && (t in s.periodic <==> t in r.periodic)
    && DelayOf(s, t) == DelayOf(r, t) && (t in s.line ==> Due(s, t) == Due(r, t))
  }

  lemma {:induction false} ActAllSpares(s: State, acts: seq<Action>, calls: Tid -> seq<Action>, x: Tid, t: Tid)
    requires Spared(calls, t) && forall a :: a in acts ==> a in calls(x)
    ensures SameTimer(s, ActAll(s, acts), t)
    decreases |acts|
  {
    if acts != [] {
      assert acts[0] in calls(x);
      ActAllSpares(Act(s, acts[0]), acts[1..], calls, x, t);
    }
  }

  // The same timers as in s, except for the changes that firing t makes.
  ghost predicate Fired(s: State, r: State, t: Tid) {
    && (t in s.periodic <==> t in r.periodic) && DelayOf(s, t) == DelayOf(r, t)
    && (t in r.line <==> t in s.periodic)
    && (t in s.periodic ==> Due(r, t) == s.now + DelayOf(s, t))
  }

  lemma FireOther(s: State, calls: Tid -> seq<Action>, t: Tid)
    requires Inv(s) && s.held == None && s.line != [] && s.line[0] != t && Spared(calls, t)
    ensures SameTimer(s, Fire(s, calls), t)
  {
    TakeOffKeeps(s);
    var x := s.line[0];
    assert s.line == [x] + s.line[1..];
    ActAllSpares(TakeOff(s), calls(x), calls, x, t);
    HeldStays(TakeOff(s), calls(x));
  }

  lemma FireOwn(s: State, calls: Tid -> seq<Action>)
    requires Inv(s) && s.held == None && s.line != [] && Spared(calls, s.line[0])
    ensures Fired(s, Fire(s, calls), s.line[0]) && Fire(s, calls).now == s.now
  {
    var t := s.line[0];
    TakeOffKeeps(s);
    ActAllSpares(TakeOff(s), calls(t), calls, t, t);
    ActAllKeeps(TakeOff(s), calls(t));
    HeldSpared(TakeOff(s), calls(t), calls, t, t);
  }

  lemma {:induction false} HeldSpared(s: State, acts: seq<Action>, calls: Tid -> seq<Action>, x: Tid, t: Tid)
    requires Spared(calls, t) && (forall a :: a in acts ==> a in calls(x)) && s.held == Some(t)
    ensures ActAll(s, acts).held == Some(t)
    decreases |acts|
  {
    if acts != [] {
      assert acts[0] in calls(x);
      HeldSpared(Act(s, acts[0]), acts[1..], calls, x, t);
    }
  }

  // A check fires a timer exactly if its time has come; a periodic timer is then due one period
  // later, counted from the tick of the check.
  lemma {:induction false} CheckExact(s: State, calls: Tid -> seq<Action>, t: Tid)
    requires Inv(s) && s.held == None && Spared(calls, t)
    ensures var (r, log) := Check(s, calls);
      && (t in log <==> t in Expired(s))
      && if t in Expired(s) then Fired(s, r, t) else SameTimer(s, r, t)
    decreases |Expired(s)|
  {
    if s.line == [] || Due(s, s.line[0]) > s.now {
      CheckEnds(s, calls);
    } else {
      FireKeeps(s, calls);
      var u := Fire(s, calls);
      CheckExact(u, calls, t);
      if s.line[0] == t {
        FireOwn(s, calls);
        assert t !in Expired(u);
      } else {
        FireOther(s, calls, t);
      }
    }
  }

  // A timer that the first timer's timeout function does not touch does not notice its firing.
  lemma FireElsewhere(s: State, calls: Tid -> seq<Action>, t: Tid)
    requires Inv(s) && s.held == None && s.line != [] && s.line[0] != t && OwnOnly(calls, t)
    ensures SameTimer(s, Fire(s, calls), t)
  {
    var others := (x: Tid) => if x == t then [] else calls(x);
    assert Spared(others, t);
    FireOther(s, others, t);
    assert Fire(s, calls) == Fire(s, others);
  }

  // A timer touched by no timeout function but its own is stray after a check exactly if it was
  // before and did not fire, or fired as a periodic timer that loses itself.
  lemma {:induction false} CheckStray(s: State, calls: Tid -> seq<Action>, t: Tid)
    requires Inv(s) && s.held == None && OwnOnly(calls, t)
    ensures Stray(Check(s, calls).0, t) <==>
      Stray(s, t) || (t in Expired(s) && t in s.periodic && LosesItself(calls(t), t))
    decreases |Expired(s)|
  {
    if s.line == [] || Due(s, s.line[0]) > s.now {
      CheckEnds(s, calls);
      assert t in Expired(s) ==> t in s.line && Due(s, t) <= s.now;
    } else {
      var x, u := s.line[0], Fire(s, calls);
      CheckStep(s, calls);
      FireKeeps(s, calls);
      FireStray(s, calls, t);
      CheckStray(u, calls, t);
      if x == t {
        assert t in s.line && t !in Expired(u);
      } else {
        assert !DealtWith(calls(x), t);
        FireElsewhere(s, calls, t);
        assert t in Expired(u) <==> t in Expired(s);
      }
    }
  }

  // If every timeout function deals with its own timer only, a check leaves no timer stray
  // exactly if none that has run out is periodic and loses itself.
  lemma CheckNoStray(s: State, calls: Tid -> seq<Action>)
    requires Inv(s) && s.held == None && NoStray(s) && forall t: Tid :: OwnOnly(calls, t)
    ensures NoStray(Check(s, calls).0) <==> forall t: Tid :: t in Expired(s) && t in s.periodic ==> !LosesItself(calls(t), t)
  {
    forall t: Tid
      ensures Stray(Check(s, calls).0, t) <==> t in Expired(s) && t in s.periodic && LosesItself(calls(t), t)
    {
      CheckStray(s, calls, t);
    }
  }

  // What there is to know about one timer.
  datatype View = View(armed: bool, due: int, periodic: bool, delay: Delay)

  function ViewOf(s: State, t: Tid): View {
    View(t in s.line, if t in s.line then Due(s, t) else 0, t in s.periodic, DelayOf(s, t))
  }

  predicate Hits(v: View, now: int) {
    v.armed && v.due == now + 1
  }

  // What one tick does to a timer that nobody touches.
  function ViewTick(v: View, now: int): View {
    if !Hits(v, now) then v
    else if v.periodic then v.(due := now + 1 + v.delay)
    else v.(armed := false, due := 0)
  }

  lemma TickView(s: State, calls: Tid -> seq<Action>, t: Tid)
    requires Between(s) && Spared(calls, t)
    ensures ViewOf(Tick(s, calls).0, t) == ViewTick(ViewOf(s, t), s.now)
    ensures t in Tick(s, calls).1 <==> Hits(ViewOf(s, t), s.now)
  {
    TickInv(s);
    CheckEnds(s.(now := s.now + 1), calls);
    CheckExact(s.(now := s.now + 1), calls, t);
  }

  // Between two ticks: no timeout function runs and nothing has run out.
  ghost predicate Between(s: State) {
    Inv(s) && s.held == None && NoneExpired(s)
  }

  // A tick, in which every timeout function may do something else than last time, or one call
  // that a thread makes between two ticks.
  datatype Step = Ticks(calls: Tid -> seq<Action>) | Calls(action: Action)

  function Perform(s: State, step: Step): (r: (State, seq<Tid>))
    requires Between(s)
    ensures Between(r.0) && r.0.now == s.now + if step.Ticks? then 1 else 0
  {
    match step
    case Ticks(calls) =>
      TickEnds(s, calls);
      Tick(s, calls)
    case Calls(a) =>
      ActKeeps(s, a);
      ActBetween(s, a);
      (Act(s, a), [])
  }

  lemma TickEnds(s: State, calls: Tid -> seq<Action>)
    requires Between(s)
    ensures Between(Tick(s, calls).0) && Tick(s, calls).0.now == s.now + 1
  {
    TickInv(s);
    CheckEnds(s.(now := s.now + 1), calls);
  }

  lemma ActBetween(s: State, a: Action)
    requires Between(s)
    ensures Between(Act(s, a))
  {
    ActKeeps(s, a);
    var r := Act(s, a);
    forall t: Tid | t in r.line
      ensures Due(r, t) > r.now
    {
      assert t !in Expired(s) && t !in Expired(r);
    }
  }

  function TicksIn(steps: seq<Step>): nat {
    if steps == [] then 0 else TicksIn(steps[..|steps| - 1]) + if steps[|steps| - 1].Ticks? then 1 else 0
  }

  // The last state of a run, and what fired in each of its steps.
  function Run(s: State, steps: seq<Step>): (r: (State, seq<seq<Tid>>))
    requires Between(s)
    ensures Between(r.0) && r.0.now == s.now + TicksIn(steps) && |r.1| == |steps|
    decreases |steps|
  {
    if steps == [] then (s, [])
    else
      var n := |steps| - 1;
      var (u, log) := Run(s, steps[..n]);
      var (r, fired) := Perform(u, steps[n]);
      (r, log + [fired])
  }

  // The ticks of a run at which timer t fired, if the run began at tick now.
  function FiredAt(now: int, steps: seq<Step>, log: seq<seq<Tid>>, t: Tid): seq<int>
    requires |log| == |steps|
    decreases |steps|
  {
    if steps == [] then []
    else
      var n := |steps| - 1;
      var times := FiredAt(now, steps[..n], log[..n], t);
      if t in log[n] then times + [now + TicksIn(steps)] else times
  }

  // Nobody touches timer t during the run, neither a timeout function nor a thread.
  ghost predicate LeftAlone(steps: seq<Step>, t: Tid) {
    forall i :: 0 <= i < |steps| ==> StepSpares(steps[i], t)
  }

  ghost predicate StepSpares(step: Step, t: Tid) {
    match step
    case Ticks(calls) => Spared(calls, t)
    case Calls(a) => a.t != t
  }

  // The same for a single timer on its own.
  function ViewRun(v: View, now: int, n: nat): (View, seq<int>) {
    if n == 0 then (v, [])
    else
      var (u, times) := ViewRun(v, now, n - 1);
      (ViewTick(u, now + n - 1), if Hits(u, now + n - 1) then times + [now + n] else times)
  }

  // One step of a run, seen by a timer that nobody touches.
  lemma StepView(s: State, step: Step, t: Tid)
    requires Between(s) && StepSpares(step, t)
    ensures var (r, fired) := Perform(s, step);
      && (t in fired <==> step.Ticks? && Hits(ViewOf(s, t), s.now))
      && ViewOf(r, t) == if step.Ticks? then ViewTick(ViewOf(s, t), s.now) else ViewOf(s, t)
  {
    if step.Ticks? {
      TickView(s, step.calls, t);
    } else {
      ActView(s, step.action, t);
    }
  }

  lemma ActView(s: State, a: Action, t: Tid)
    requires a.t != t
    ensures ViewOf(Act(s, a), t) == ViewOf(s, t)
  {
  }

  // After the steps, with r and log as their result, t is where it would be on its own.
  ghost predicate Agrees(s: State, steps: seq<Step>, r: State, log: seq<seq<Tid>>, t: Tid) {
    && |log| == |steps| && r.now == s.now + TicksIn(steps)
    && ViewOf(r, t) == ViewRun(ViewOf(s, t), s.now, TicksIn(steps)).0
    && FiredAt(s.now, steps, log, t) == ViewRun(ViewOf(s, t), s.now, TicksIn(steps)).1
  }

  lemma AgreesGrows(s: State, steps: seq<Step>, u: State, log: seq<seq<Tid>>, t: Tid)
    requires steps != [] && Between(u) && Agrees(s, steps[..|steps| - 1], u, log, t)
    requires StepSpares(steps[|steps| - 1], t)
    ensures var (r, fired) := Perform(u, steps[|steps| - 1]); Agrees(s, steps, r, log + [fired], t)
  {
    var n := |steps| - 1;
    StepView(u, steps[n], t);
    FiredLast(s.now, steps, log, Perform(u, steps[n]).1, t);
    ViewLast(ViewOf(s, t), s.now, steps, n);
  }

  lemma RunLast(s: State, steps: seq<Step>, i: nat)
    requires Between(s) && i < |steps|
    ensures var (u, log) := Run(s, steps[..i]); var (r, fired) := Perform(u, steps[i]);
      Run(s, steps[..i + 1]) == (r, log + [fired])
  {
    assert steps[..i + 1][..i] == steps[..i];
  }

  // A timer that nobody touches does not notice the others.
  lemma {:induction false} RunView(s: State, steps: seq<Step>, t: Tid)
    requires Between(s) && LeftAlone(steps, t)
    ensures Agrees(s, steps, Run(s, steps).0, Run(s, steps).1, t)
    decreases |steps|
  {
    if steps != [] {
      var n := |steps| - 1;
      RunView(s, steps[..n], t);
      assert StepSpares(steps[n], t);
      AgreesGrows(s, steps, Run(s, steps[..n]).0, Run(s, steps[..n]).1, t);
      RunLast(s, steps, n);
      assert steps[..n + 1] == steps;
    }
  }

  lemma FiredLast(now: int, steps: seq<Step>, log: seq<seq<Tid>>, fired: seq<Tid>, t: Tid)
    requires steps != [] && |log| == |steps| - 1
    ensures var times := FiredAt(now, steps[..|log|], log, t);
      FiredAt(now, steps, log + [fired], t) == if t in fired then times + [now + TicksIn(steps)] else times
  {
    assert (log + [fired])[..|log|] == log;
  }

  lemma ViewLast(v: View, now: int, steps: seq<Step>, n: nat)
    requires n + 1 == |steps|
    ensures var (u, times) := ViewRun(v, now, TicksIn(steps[..n])); var k := now + TicksIn(steps[..n]);
      ViewRun(v, now, TicksIn(steps)) ==
        if steps[n].Ticks? then (ViewTick(u, k), if Hits(u, k) then times + [k + 1] else times) else (u, times)
  {
  }

  // The deadline of a periodic timer after it has fired k times.
  function Nth(due: int, period: Delay, k: nat): int {
    if k == 0 then due else Nth(due, period, k - 1) + period
  }

  // times are the first deadlines, as many as lie no later than now.
  ghost predicate OnTime(due: int, period: Delay, now: int, times: seq<int>) {
    && (forall k :: 0 <= k < |times| ==> times[k] == Nth(due, period, k) <= now)
    && now < Nth(due, period, |times|)
  }

  lemma {:induction false} PeriodicView(v: View, now: int, n: nat)
    requires v.armed && v.periodic && now < v.due
    ensures var (u, times) := ViewRun(v, now, n);
      OnTime(v.due, v.delay, now + n, times) && u == v.(due := Nth(v.due, v.delay, |times|))
  {
    if n > 0 {
      PeriodicView(v, now, n - 1);
    }
  }

  // A periodic timer that nobody touches fires at its deadline and every period after, for ever
  // and at no other tick, whatever the others do at the ticks and between them.
  lemma PeriodicOnTime(s: State, steps: seq<Step>, t: Tid)
    requires Between(s) && LeftAlone(steps, t) && t in s.line && t in s.periodic
    ensures var (r, log) := Run(s, steps); var times := FiredAt(s.now, steps, log, t);
      && OnTime(Due(s, t), DelayOf(s, t), r.now, times)
      && t in r.line && t in r.periodic && DelayOf(r, t) == DelayOf(s, t)
      && Due(r, t) == Nth(Due(s, t), DelayOf(s, t), |times|)
  {
    RunView(s, steps, t);
    PeriodicView(ViewOf(s, t), s.now, TicksIn(steps));
  }

  lemma {:induction false} OneShotView(v: View, now: int, n: nat)
    requires v.armed && !v.periodic && now < v.due
    ensures ViewRun(v, now, n) ==
      if v.due <= now + n then (v.(armed := false, due := 0), [v.due]) else (v, [])
  {
    if n > 0 {
      OneShotView(v, now, n - 1);
      var times := ViewRun(v, now, n - 1).1;
      assert times == [] ==> times + [v.due] == [v.due];
    }
  }

  // A one-shot timer that nobody touches fires once, at its deadline; until then it stays in the
  // line, and afterwards it is gone.
  lemma OneShotOnce(s: State, steps: seq<Step>, t: Tid)
    requires Between(s) && LeftAlone(steps, t) && t in s.line && t !in s.periodic
    ensures var (r, log) := Run(s, steps); var times := FiredAt(s.now, steps, log, t);
      if Due(s, t) <= r.now then times == [Due(s, t)] && t !in r.line
      else times == [] && t in r.line && Due(r, t) == Due(s, t)
  {
    RunView(s, steps, t);
    OneShotView(ViewOf(s, t), s.now, TicksIn(steps));
  }

  /* ------------------------------- what a caller has set is what counts ------------------------------- */

  // Setting the time of a timer and starting it makes it run out that much later.
  lemma StartsAsSet(s: State, t: Tid, d: Delay)
    ensures var r := Start(Act(s, DoSetTime(t, d)), t); t in r.due && r.due[t] == s.now + d && t in r.line && t in r.active
  {
  }

  // Timer t has been set to time d, and to be periodic or not.
  ghost predicate SetTo(s: State, t: Tid, d: Delay) {
    t in s.delay && s.delay[t] == d
  }

  ghost predicate FlagIs(s: State, t: Tid, on: bool) {
    t in s.periodic <==> on
  }

  // The step sets neither the time of t, nor whether it is periodic.
  ghost predicate KeepsTime(step: Step, t: Tid) {
    match step
    case Ticks(calls) => forall x: Tid, a :: a in calls(x) ==> !(a.DoSetTime? && a.t == t)
    case Calls(a) => !(a.DoSetTime? && a.t == t)
  }

  ghost predicate KeepsFlag(step: Step, t: Tid) {
    match step
    case Ticks(calls) => forall x: Tid, a :: a in calls(x) ==> !(a.DoSetPeriodic? && a.t == t)
    case Calls(a) => !(a.DoSetPeriodic? && a.t == t)
  }

  lemma {:induction false} ActAllSettings(s: State, acts: seq<Action>, t: Tid, d: Delay)
    ensures (forall a :: a in acts ==> !(a.DoSetTime? && a.t == t)) && SetTo(s, t, d) ==> SetTo(ActAll(s, acts), t, d)
    ensures (forall a :: a in acts ==> !(a.DoSetPeriodic? && a.t == t)) ==> (t in ActAll(s, acts).periodic <==> t in s.periodic)
    decreases |acts|
  {
    if acts != [] {
      ActAllSettings(Act(s, acts[0]), acts[1..], t, d);
    }
  }

  lemma FireSettings(s: State, calls: Tid -> seq<Action>, t: Tid, d: Delay)
    requires Inv(s) && s.held == None && s.line != []
    ensures KeepsTime(Ticks(calls), t) && SetTo(s, t, d) ==> SetTo(Fire(s, calls), t, d)
    ensures KeepsFlag(Ticks(calls), t) ==> (t in Fire(s, calls).periodic <==> t in s.periodic)
  {
    ActAllSettings(TakeOff(s), calls(s.line[0]), t, d);
  }

  lemma {:induction false} CheckSettings(s: State, calls: Tid -> seq<Action>, t: Tid, d: Delay)
    requires Inv(s) && s.held == None
    ensures KeepsTime(Ticks(calls), t) && SetTo(s, t, d) ==> SetTo(Check(s, calls).0, t, d)
    ensures KeepsFlag(Ticks(calls), t) ==> (t in Check(s, calls).0.periodic <==> t in s.periodic)
    decreases |Expired(s)|
  {
    if s.line == [] || Due(s, s.line[0]) > s.now {
      CheckDone(s, calls);
    } else {
      CheckStep(s, calls);
      FireSettings(s, calls, t, d);
      CheckSettings(Fire(s, calls), calls, t, d);
    }
  }

  // What is set stays set through every step that does not set it again.
  lemma StepSettings(s: State, step: Step, t: Tid, d: Delay)
    requires Between(s)
    ensures KeepsTime(step, t) && SetTo(s, t, d) ==> SetTo(Perform(s, step).0, t, d)
    ensures KeepsFlag(step, t) ==> (t in Perform(s, step).0.periodic <==> t in s.periodic)
  {
    if step.Ticks? {
      TickInv(s);
      CheckSettings(s.(now := s.now + 1), step.calls, t, d);
    }
  }

  // Step i of the run sets the time of t to d, and no later step before k does; the same for the
  // flag.
  ghost predicate TimeSetAt(steps: seq<Step>, t: Tid, d: Delay, i: nat, k: nat) {
    i < k <= |steps| && steps[i] == Calls(DoSetTime(t, d)) && forall l :: i < l < k ==> KeepsTime(steps[l], t)
  }

  ghost predicate FlagSetAt(steps: seq<Step>, t: Tid, on: bool, j: nat, k: nat) {
    j < k <= |steps| && steps[j] == Calls(DoSetPeriodic(t, on)) && forall l :: j < l < k ==> KeepsFlag(steps[l], t)
  }

  lemma {:induction false} TimeStays(s: State, steps: seq<Step>, t: Tid, d: Delay, i: nat, k: nat)
    requires Between(s) && TimeSetAt(steps, t, d, i, k)
    ensures SetTo(Run(s, steps[..k]).0, t, d)
    decreases k
  {
    var u := Run(s, steps[..k - 1]).0;
    if i < k - 1 {
      TimeStays(s, steps, t, d, i, k - 1);
      StepSettings(u, steps[k - 1], t, d);
    }
    assert SetTo(Perform(u, steps[k - 1]).0, t, d);
    RunLast(s, steps, k - 1);
  }

  lemma {:induction false} FlagStays(s: State, steps: seq<Step>, t: Tid, on: bool, j: nat, k: nat)
    requires Between(s) && FlagSetAt(steps, t, on, j, k)
    ensures FlagIs(Run(s, steps[..k]).0, t, on)
    decreases k
  {
    var u := Run(s, steps[..k - 1]).0;
    if j < k - 1 {
      FlagStays(s, steps, t, on, j, k - 1);
      StepSettings(u, steps[k - 1], t, 1);
    }
    assert FlagIs(Perform(u, steps[k - 1]).0, t, on);
    RunLast(s, steps, k - 1);
  }

  // One more step at the end.
  lemma RunMore(s: State, steps: seq<Step>, x: Step)
    requires Between(s)
    ensures var (u, log) := Run(s, steps); var (r, fired) := Perform(u, x); Run(s, steps + [x]) == (r, log + [fired])
  {
    assert (steps + [x])[..|steps|] == steps;
  }

  // The run of all steps goes on where that of the first ones has ended.
  ghost predicate Joins(s: State, all: seq<Step>, u: State, before: seq<seq<Tid>>, rest: seq<Step>)
    requires Between(s) && Between(u)
  {
    Run(s, all).0 == Run(u, rest).0 && Run(s, all).1 == before + Run(u, rest).1
  }

  // A run in two parts.
  lemma {:induction false} RunConcat(s: State, a: seq<Step>, b: seq<Step>)
    requires Between(s)
    ensures Joins(s, a + b, Run(s, a).0, Run(s, a).1, b)
    decreases |b|
  {
    var u, la := Run(s, a).0, Run(s, a).1;
    if b == [] {
      assert a + b == a && la + [] == la;
    } else {
      var c, x := b[..|b| - 1], b[|b| - 1];
      RunConcat(s, a, c);
      assert b == c + [x] && a + b == (a + c) + [x];
      MoreOfBoth(s, a + c, u, la, c, x);
    }
  }

  lemma MoreOfBoth(s: State, all: seq<Step>, u: State, before: seq<seq<Tid>>, rest: seq<Step>, x: Step)
    requires Between(s) && Between(u) && Joins(s, all, u, before, rest)
    ensures Joins(s, all + [x], u, before, rest + [x])
  {
    RunMore(s, all, x);
    RunMore(u, rest, x);
    var fired := Perform(Run(u, rest).0, x).1;
    assert before + (Run(u, rest).1 + [fired]) == before + Run(u, rest).1 + [fired];
  }

  lemma RunFrom(s: State, steps: seq<Step>, k: nat)
    requires Between(s) && k <= |steps|
    ensures var v := Run(s, steps[..k]).0;
      Run(s, steps).0 == Run(v, steps[k..]).0 && Run(s, steps).1[k..] == Run(v, steps[k..]).1
  {
    RunConcat(s, steps[..k], steps[k..]);
    assert steps[..k] + steps[k..] == steps;
  }

  // A timer set to d that is started at tick n, and then left alone, fires at n + d, at n + 2d and
  // so on if it has been set to be periodic, and at n + d only if it has not; whatever has been
  // done to it before.
  lemma FiresAsSet(s: State, steps: seq<Step>, t: Tid, d: Delay, on: bool, i: nat, j: nat, k: nat)
    requires Between(s) && TimeSetAt(steps, t, d, i, k) && FlagSetAt(steps, t, on, j, k)
    requires k < |steps| && steps[k] == Calls(DoStart(t)) && LeftAlone(steps[k + 1..], t)
    ensures AsSet(s, steps, Run(s, steps).0, Run(s, steps).1, t, d, on, k)
  {
    var v, post := Run(s, steps[..k + 1]).0, steps[k + 1..];
    RunFrom(s, steps, k + 1);
    StartedAt(s, steps, t, d, on, i, j, k);
    FiresFrom(v, post, t, d, on);
    SeenFrom(s, steps, Run(s, steps).0, Run(s, steps).1, v, Run(v, post).1, t, d, on, k);
  }

  lemma SeenFrom(s: State, steps: seq<Step>, r: State, log: seq<seq<Tid>>, v: State, late: seq<seq<Tid>>, t: Tid, d: Delay, on: bool, k: nat)
    requires k < |steps| == |log| && log[k + 1..] == late && v.now == s.now + TicksIn(steps[..k])
    requires var times := FiredAt(v.now, steps[k + 1..], late, t);
      if on then OnTime(v.now + d, d, r.now, times) else times == if v.now + d <= r.now then [v.now + d] else []
    ensures AsSet(s, steps, r, log, t, d, on, k)
  {
  }

  lemma FiresFrom(v: State, post: seq<Step>, t: Tid, d: Delay, on: bool)
    requires Between(v) && LeftAlone(post, t) && t in v.line && FlagIs(v, t, on) && DelayOf(v, t) == d && Due(v, t) == v.now + d
    ensures var (r, log) := Run(v, post); var times := FiredAt(v.now, post, log, t);
      if on then OnTime(v.now + d, d, r.now, times) else times == if v.now + d <= r.now then [v.now + d] else []
  {
    if on {
      PeriodicOnTime(v, post, t);
    } else {
      OneShotOnce(v, post, t);
    }
  }

  // What has fired since step k, the start of t at tick n, is as d and on say.
  ghost predicate AsSet(s: State, steps: seq<Step>, r: State, log: seq<seq<Tid>>, t: Tid, d: Delay, on: bool, k: nat)
    requires k < |steps| == |log|
  {
    var n := s.now + TicksIn(steps[..k]);
    var times := FiredAt(n, steps[k + 1..], log[k + 1..], t);
    if on then OnTime(n + d, d, r.now, times) else times == if n + d <= r.now then [n + d] else []
  }

  lemma StartedAt(s: State, steps: seq<Step>, t: Tid, d: Delay, on: bool, i: nat, j: nat, k: nat)
    requires Between(s) && TimeSetAt(steps, t, d, i, k) && FlagSetAt(steps, t, on, j, k)
    requires k < |steps| && steps[k] == Calls(DoStart(t))
    ensures var v := Run(s, steps[..k + 1]).0;
      && t in v.line && FlagIs(v, t, on) && DelayOf(v, t) == d
      && v.now == s.now + TicksIn(steps[..k]) && Due(v, t) == v.now + d
  {
    TimeStays(s, steps, t, d, i, k);
    FlagStays(s, steps, t, on, j, k);
    RunLast(s, steps, k);
  }

  // The deadlines in plain numbers.
  lemma {:induction false} NthIs(due: int, period: Delay, k: nat)
    ensures Nth(due, period, k) == due + k * period
  {
    if k > 0 {
      NthIs(due, period, k - 1);
      assert k * period == (k - 1) * period + period;
    }
  }
}
