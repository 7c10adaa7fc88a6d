/** The timer list of the kernel: a skip list whose bottom row holds every running timer, with
  deadlines and comparisons in wrapping 32-bit ticks.
 */
module TimerWheel {
  import opened Seqs
  import opened TimerSpec

  const WRAP: int := 0x1_0000_0000
  const MASK_SIZE: int := 4  // RT_TIMER_SKIP_LIST_MASK + 1, and the divisor of its shift

  type Tick32 = x: int | 0 <= x < WRAP

  function Wrapped(x: int): Tick32 {
    x % WRAP
  }

  // The test on wrapping ticks is the test on true time as long as the two are close.
  lemma WrapCompare(a: int, b: int)
    requires -HALF < a - b < HALF
    ensures Wrapped(Wrapped(a) - Wrapped(b)) == 0 <==> a == b
    ensures Wrapped(Wrapped(a) - Wrapped(b)) < HALF <==> a >= b
  {
    assert Wrapped(Wrapped(a) - Wrapped(b)) == Wrapped(a - b);
  }

  lemma NextTick(now: int)
    ensures Wrapped(Wrapped(now) + 1) == Wrapped(now + 1)
  {
  }

  // Beyond that the test is wrong: a deadline HALF ticks ahead looks like one that has passed.
  lemma WrapTooFar(b: int)
    ensures !(Wrapped(Wrapped(b + HALF) - Wrapped(b)) < HALF)
  {
    assert Wrapped(Wrapped(b + HALF) - Wrapped(b)) == Wrapped(HALF);
  }

  /* ------------------------------- rows ------------------------------- */

  ghost function Elems(l: seq<Tid>): set<Tid> {
    set x | x in l
  }

  // The timers of l that are in e, in the order of l.
  ghost function Keep(l: seq<Tid>, e: set<Tid>): (m: seq<Tid>)
    ensures forall x: Tid :: x in m <==> x in l && x in e
  {
    if l == [] then [] else if l[0] in e then [l[0]] + Keep(l[1..], e) else Keep(l[1..], e)
  }

  lemma {:induction false} KeepSorted(l: seq<Tid>, e: set<Tid>, due: map<Tid, int>)
    requires Distinct(l) && Sorted(l, due)
    ensures Distinct(Keep(l, e)) && Sorted(Keep(l, e), due)
  {
    if l != [] {
      KeepSorted(l[1..], e, due);
      if l[0] in e {
        ConsKeeps(l, Keep(l[1..], e), due);
      }
    }
  }

  lemma KeepCons(x: Tid, m: seq<Tid>, e: set<Tid>)
    ensures Keep([x] + m, e) == if x in e then [x] + Keep(m, e) else Keep(m, e)
  {
    assert ([x] + m)[1..] == m;
  }

  lemma WithoutCons(x: Tid, m: seq<Tid>, t: Tid)
    ensures Without([x] + m, t) == if x == t then Without(m, t) else [x] + Without(m, t)
  {
    assert ([x] + m)[1..] == m;
  }

  lemma InsertCons(x: Tid, m: seq<Tid>, due: map<Tid, int>, t: Tid, d: int)
    requires x in due
    ensures Insert([x] + m, due, t, d) == if due[x] > d then [t, x] + m else [x] + Insert(m, due, t, d)
  {
    assert ([x] + m)[1..] == m;
    assert [t, x] + m == [t] + ([x] + m);
  }

  lemma {:induction false} KeepWithout(l: seq<Tid>, e: set<Tid>, t: Tid)
    ensures Keep(Without(l, t), e - {t}) == Without(Keep(l, e), t)
  {
    if l != [] {
      var x, m := l[0], l[1..];
      KeepWithout(m, e, t);
      assert l == [x] + m;
      KeepCons(x, m, e);
      WithoutCons(x, m, t);
      if x in e {
        WithoutCons(x, Keep(m, e), t);
      }
      if x != t {
        KeepCons(x, Without(m, t), e - {t});
      }
    }
  }

  // Scanning a row finds the place that scanning the whole line would find.
  lemma {:induction false} KeepInsert(l: seq<Tid>, e: set<Tid>, due: map<Tid, int>, t: Tid, d: int)
    requires Distinct(l) && Sorted(l, due) && t !in l && t !in e
    ensures Keep(Insert(l, due, t, d), e + {t}) == Insert(Keep(l, e), due, t, d)
    ensures Keep(Insert(l, due, t, d), e) == Keep(l, e)
  {
    if l == [] {
      KeepCons(t, [], e);
      KeepCons(t, [], e + {t});
    } else if due[l[0]] > d {
      KeepMore(l, e, t);
      KeepCons(t, l, e);
      KeepCons(t, l, e + {t});
      KeepLater(l, e, due, t, d);
    } else {
      var x, m := l[0], l[1..];
      assert l == [x] + m;
      KeepInsert(m, e, due, t, d);
      KeepCons(x, m, e);
      InsertCons(x, m, due, t, d);
      KeepCons(x, Insert(m, due, t, d), e);
      KeepCons(x, Insert(m, due, t, d), e + {t});
      if x in e {
        InsertCons(x, Keep(m, e), due, t, d);
      }
    }
  }

  // If all of a line runs out later, so does all of a row.
  lemma KeepLater(l: seq<Tid>, e: set<Tid>, due: map<Tid, int>, t: Tid, d: int)
    requires Distinct(l) && Sorted(l, due) && l != [] && due[l[0]] > d
    ensures Insert(Keep(l, e), due, t, d) == [t] + Keep(l, e)
  {
    var r := Keep(l, e);
    if r != [] {
      assert r[0] in l;
      var k :| 0 <= k < |l| && l[k] == r[0];
      assert k > 0 ==> due[l[0]] <= due[l[k]];
    }
  }

  lemma {:induction false} KeepMore(l: seq<Tid>, e: set<Tid>, t: Tid)
    requires t !in l
    ensures Keep(l, e + {t}) == Keep(l, e)
  {
    if l != [] {
      KeepMore(l[1..], e, t);
    }
  }

  lemma {:induction false} KeepAll(l: seq<Tid>, e: set<Tid>)
    requires forall x :: x in l ==> x in e
    ensures Keep(l, e) == l
  {
    if l != [] {
      KeepAll(l[1..], e);
    }
  }

  // Where a scan stops: in front of the first timer that runs out later than d.
  ghost predicate StopsAt(l: seq<Tid>, due: map<Tid, int>, d: int, p: nat)
    requires Sorted(l, due)
  {
    p <= |l| && (forall k :: 0 <= k < p ==> due[l[k]] <= d) && (p < |l| ==> due[l[p]] > d)
  }

  lemma {:induction false} InsertAtStop(l: seq<Tid>, due: map<Tid, int>, t: Tid, d: int, p: nat)
    requires Sorted(l, due) && StopsAt(l, due, d, p)
    ensures Insert(l, due, t, d) == l[..p] + [t] + l[p..]
  {
    if l != [] && p > 0 {
      assert due[l[0]] <= d;
      InsertAtStop(l[1..], due, t, d, p - 1);
      assert l[1..][..p - 1] == l[1..p] && l[1..][p - 1..] == l[p..];
      assert l[..p] == [l[0]] + l[1..p];
    }
  }

  // Row i holds some of the timers of the line, in its order, and no more than the row below.
  ghost predicate RowOk(rows: seq<seq<Tid>>, line: seq<Tid>, i: nat)
    requires i < |rows|
  {
    && rows[i] == Keep(line, Elems(rows[i]))
    && (i + 1 < |rows| ==> Elems(rows[i]) <= Elems(rows[i + 1]))
  }

  ghost predicate RowsOk(rows: seq<seq<Tid>>, line: seq<Tid>) {
    && |rows| >= 1 && rows[|rows| - 1] == line
    && forall i :: 0 <= i < |rows| ==> RowOk(rows, line, i)
  }

  ghost predicate TimeoutOk(timeout: map<Tid, Tick32>, due: map<Tid, int>, t: Tid) {
    t in due && t in timeout && timeout[t] == Wrapped(due[t])
  }

  ghost predicate TimeoutsOk(timeout: map<Tid, Tick32>, due: map<Tid, int>, line: seq<Tid>) {
    forall t: Tid :: t in line ==> TimeoutOk(timeout, due, t)
  }

  lemma RowSorted(rows: seq<seq<Tid>>, line: seq<Tid>, due: map<Tid, int>, i: nat)
    requires RowsOk(rows, line) && i < |rows| && Distinct(line) && Sorted(line, due)
    ensures Sorted(rows[i], due) && Distinct(rows[i])
  {
    assert RowOk(rows, line, i);
    KeepSorted(line, Elems(rows[i]), due);
  }

  // Taking a timer out of every row takes it out of the line.
  lemma RowsWithout(was: seq<seq<Tid>>, rows: seq<seq<Tid>>, line: seq<Tid>, t: Tid)
    requires RowsOk(was, line) && |rows| == |was|
    requires forall j :: 0 <= j < |rows| ==> rows[j] == Without(was[j], t)
    ensures RowsOk(rows, Without(line, t))
  {
    forall i | 0 <= i < |rows|
      ensures RowOk(rows, Without(line, t), i)
    {
      assert RowOk(was, line, i);
      KeepWithout(line, Elems(was[i]), t);
      assert Elems(rows[i]) == Elems(was[i]) - {t};
    }
  }

  // Putting it into the rows from some level down puts it into the line.
  lemma RowsInsert(was: seq<seq<Tid>>, rows: seq<seq<Tid>>, line: seq<Tid>, due: map<Tid, int>, t: Tid, d: int, low: nat)
    requires RowsOk(was, line) && |rows| == |was| && low < |rows|
    requires Distinct(line) && Sorted(line, due) && t !in line
    requires forall j :: 0 <= j < |rows| ==> rows[j] == if j < low then was[j] else Insert(was[j], due, t, d)
    ensures RowsOk(rows, Insert(line, due, t, d))
  {
    forall j | 0 <= j < |rows|
      ensures RowOk(rows, Insert(line, due, t, d), j)
    {
      assert RowOk(was, line, j);
      assert t !in Elems(was[j]);
      KeepInsert(line, Elems(was[j]), due, t, d);
      assert Elems(rows[j]) == if j < low then Elems(was[j]) else Elems(was[j]) + {t};
      if j + 1 < |rows| {
        assert Elems(rows[j + 1]) == if j + 1 < low then Elems(was[j + 1]) else Elems(was[j + 1]) + {t};
      }
    }
  }

  /* ------------------------------- the list ------------------------------- */

  class Timers {
    const levels: nat
    var tick: Tick32
    var rows: seq<seq<Tid>>
    var timeout: map<Tid, Tick32>
    var delay: map<Tid, Delay>
    var periodic: set<Tid>
    var active: set<Tid>
    var held: Option<Tid>       // the timer on rt_timer_check's own list
    var random: Tick32
    ghost var s: State

    ghost predicate Valid()
      reads this
    {
      && |rows| == levels && RowsOk(rows, s.line) && Inv(s)
      && tick == Wrapped(s.now) && TimeoutsOk(timeout, s.due, s.line)
      && delay == s.delay && periodic == s.periodic && active == s.active && held == s.held
    }

    constructor (levels: nat)
      requires levels >= 1
      ensures Valid() && s == State(0, [], map[], map[], {}, {}, None)
    {
      this.levels := levels;
      tick, random := 0, 0;
      rows := seq(levels, _ => []);
      timeout, delay := map[], map[];
      periodic, active, held := {}, {}, None;
      s := State(0, [], map[], map[], {}, {}, None);
    }

    // _rt_timer_remove: off every row, and off the check's own list.
    method Remove(t: Tid)
      requires |rows| == levels && RowsOk(rows, s.line)
      modifies this`rows, this`held
      ensures |rows| == levels && RowsOk(rows, Without(s.line, t))
      ensures held == if old(held) == Some(t) then None else old(held)
    {
      ghost var was := rows;
      for i := 0 to levels
        invariant |rows| == levels && held == old(held)
        invariant forall j :: 0 <= j < levels ==> rows[j] == if j < i then Without(was[j], t) else was[j]
      {
        rows := rows[i := Without(rows[i], t)];
      }
      RowsWithout(was, rows, s.line, t);
      if held == Some(t) {
        held := None;
      }
    }

    // What the scan looks at.
    ghost predicate Scannable()
      reads this
    {
      |rows| == levels && RowsOk(rows, s.line) && Inv(s) && TimeoutsOk(timeout, s.due, s.line)
    }

    // The scan over all rows: where in each row the timer belongs.
    method Search(d: Tick32, ghost due: int) returns (heads: seq<nat>)
      requires Scannable() && d == Wrapped(due) && s.now <= due < s.now + HALF
      ensures |heads| == levels
      ensures forall i :: 0 <= i < levels ==> HeadOk(i, heads[i], due)
    {
      heads := [];
      var at := 0;
      RowSorted(rows, s.line, s.due, 0);
      for i := 0 to levels
        invariant |heads| == i
        invariant forall j :: 0 <= j < i ==> HeadOk(j, heads[j], due)
        invariant i < levels ==> Reached(i, at, due)
      {
        at := ScanRow(i, at, d, due);
        heads := heads + [at];
        if i + 1 < levels {
          at := GoDown(i, at, due);
        }
      }
    }

    // at timers of row i have been passed, all of which run out no later than due.
    ghost predicate Reached(i: nat, at: nat, due: int)
      reads this
    {
      && i < |rows| && at <= |rows[i]| && Sorted(rows[i], s.due)
      && forall k :: 0 <= k < at ==> s.due[rows[i][k]] <= due
    }

    ghost predicate HeadOk(i: nat, at: nat, due: int)
      reads this
    {
      i < |rows| && Sorted(rows[i], s.due) && StopsAt(rows[i], s.due, due, at)
    }

    method ScanRow(i: nat, from: nat, d: Tick32, ghost due: int) returns (at: nat)
      requires Scannable() && Reached(i, from, due)
      requires d == Wrapped(due) && s.now <= due < s.now + HALF
      ensures Reached(i, at, due) && HeadOk(i, at, due)
    {
      at := from;
      while at != |rows[i]|
        invariant Reached(i, at, due)
        decreases |rows[i]| - at
      {
        var t := rows[i][at];
        InLine(i, at);
        WrapCompare(s.due[t], due);
        var ahead := Wrapped(timeout[t] - d);
        if ahead != 0 && ahead < HALF {
          return;
        }
        at := at + 1;
      }
    }

    lemma InLine(i: nat, at: nat)
      requires Scannable() && i < levels && at < |rows[i]|
      ensures var t := rows[i][at]; t in s.line && TimeoutOk(timeout, s.due, t) && InRange(s, t)
    {
      assert RowOk(rows, s.line, i);
      assert rows[i][at] in Keep(s.line, Elems(rows[i]));
    }

    // From row i to the same timer one row further down.
    method GoDown(i: nat, at: nat, ghost due: int) returns (down: nat)
      requires Scannable() && Reached(i, at, due) && i + 1 < levels
      ensures Reached(i + 1, down, due)
    {
      RowSorted(rows, s.line, s.due, i + 1);
      if at == 0 {
        down := 0;
      } else {
        var t := rows[i][at - 1];
        assert RowOk(rows, s.line, i);
        assert t in Elems(rows[i]);
        down := IndexOf(rows[i + 1], t) + 1;
      }
    }

    method Start(t: Tid)
      requires Valid()
      modifies this
      ensures Valid() && s == TimerSpec.Start(old(s), t)
    {
      TakenOut(t);
      Remove(t);
      active := active - {t};
      s := Off(s, t);
      Arm(t);
    }

    // Puts a timer that is in no list where its new deadline belongs.
    method Arm(t: Tid)
      requires Valid() && t !in s.line && s.held != Some(t)
      requires Inv(Armed(s, t))
      modifies this`timeout, this`random, this`rows, this`active, this`s
      ensures Valid() && s == Armed(old(s), t)
    {
      var wait := if t in delay then delay[t] else 1;
      timeout := timeout[t := Wrapped(tick + wait)];
      var heads := Search(timeout[t], s.now + wait);
      random := Wrapped(random + 1);
      ArmedTimeouts(t, old(timeout));
      InsertRows(t, heads, s.now + wait);
      Settle(t);
    }

    // The timer is in the rows already and is marked as activated.
    method Settle(t: Tid)
      requires |rows| == levels && RowsOk(rows, Armed(s, t).line) && Inv(Armed(s, t))
      requires tick == Wrapped(s.now) && TimeoutsOk(timeout, Armed(s, t).due, Armed(s, t).line)
      requires delay == s.delay && periodic == s.periodic && active == s.active && held == s.held
      modifies this`active, this`s
      ensures Valid() && s == Armed(old(s), t)
    {
      active := active + {t};
      s := Armed(s, t);
    }

    lemma ArmedTimeouts(t: Tid, was: map<Tid, Tick32>)
      requires TimeoutsOk(was, s.due, s.line) && tick == Wrapped(s.now)
      requires timeout == was[t := Wrapped(tick + DelayOf(s, t))]
      ensures TimeoutsOk(timeout, Armed(s, t).due, Armed(s, t).line)
    {
      var r := Armed(s, t);
      assert Wrapped(tick + DelayOf(s, t)) == Wrapped(s.now + DelayOf(s, t));
      forall x: Tid | x in r.line
        ensures TimeoutOk(timeout, r.due, x)
      {
        assert x != t ==> TimeoutOk(was, s.due, x);
      }
    }

    ghost function Armed(s: State, t: Tid): State {
      var d := s.now + DelayOf(s, t);
      s.(line := Insert(s.line, s.due, t, d), due := s.due[t := d], active := s.active + {t})
    }

    // The state in which t has been taken off the list.
    ghost function Off(s: State, t: Tid): State {
      s.(line := Without(s.line, t), active := s.active - {t}, held := if s.held == Some(t) then None else s.held)
    }

    lemma OffKeeps(s: State, t: Tid)
      requires Inv(s)
      ensures Inv(Off(s, t))
    {
      WithoutKeeps(s.line, t, s.due);
      forall x: Tid | x in Off(s, t).line
        ensures InRange(Off(s, t), x) && x in Off(s, t).active
      {
        assert InRange(s, x);
      }
    }

    lemma TakenOut(t: Tid)
      requires Inv(s)
      ensures Inv(Off(s, t)) && Armed(Off(s, t), t) == TimerSpec.Start(s, t) && Inv(Armed(Off(s, t), t))
    {
      OffKeeps(s, t);
      assert Armed(Off(s, t), t).active == TimerSpec.Start(s, t).active;
      assert Armed(Off(s, t), t) == TimerSpec.Start(s, t);
      StartKeeps(s, t);
    }

    // Into the bottom row always, and into each row above while the counter's low bits are zero.
    method InsertRows(t: Tid, heads: seq<nat>, ghost due: int)
      requires |rows| == levels && RowsOk(rows, s.line) && Inv(s) && t !in s.line
      requires |heads| == levels && forall i :: 0 <= i < levels ==> HeadOk(i, heads[i], due)
      modifies this`rows
      ensures |rows| == levels && RowsOk(rows, Insert(s.line, s.due, t, due))
    {
      ghost var was := rows;
      var bits := random;
      var i := levels - 1;
      assert HeadOk(i, heads[i], due);
      InsertAtStop(was[i], s.due, t, due, heads[i]);
      rows := rows[i := rows[i][..heads[i]] + [t] + rows[i][heads[i]..]];
      while i > 0 && bits % MASK_SIZE == 0
        invariant 0 <= i < levels && |rows| == levels
        invariant forall j :: 0 <= j < levels ==> rows[j] == if j < i then was[j] else Insert(was[j], s.due, t, due)
        decreases i
      {
        i := i - 1;
        assert old(HeadOk(i, heads[i], due));
        InsertAtStop(was[i], s.due, t, due, heads[i]);
        rows := rows[i := rows[i][..heads[i]] + [t] + rows[i][heads[i]..]];
        bits := bits / MASK_SIZE;
      }
      RowsInsert(was, rows, s.line, s.due, t, due, i);
    }

    // Answers whether the timer was running.
    method Stop(t: Tid) returns (ok: bool)
      requires Valid()
      modifies this
      ensures Valid() && ok == (t in old(s).active) && s == TimerSpec.Stop(old(s), t)
    {
      if t !in active {
        return false;
      }
      StopKeeps(s, t);
      Remove(t);
      active := active - {t};
      s := TimerSpec.Stop(s, t);
      ok := true;
    }

    // What a timeout function does, one call after the other.
    method Perform(acts: seq<Action>)
      requires Valid()
      modifies this
      ensures Valid() && s == ActAll(old(s), acts)
    {
      for i := 0 to |acts|
        invariant Valid()
        invariant ActAll(s, acts[i..]) == ActAll(old(s), acts)
      {
        assert acts[i..][0] == acts[i] && acts[i..][1..] == acts[i + 1..];
        PerformOne(acts[i]);
      }
    }

    method PerformOne(a: Action)
      requires Valid()
      modifies this
      ensures Valid() && s == Act(old(s), a)
    {
      ActKeeps(s, a);
      match a {
        case DoStart(t) => Start(t);
        case DoStop(t) => var _ := Stop(t);
        case DoSetTime(t, d) => SetTime(t, d);
        case DoSetPeriodic(t, on) => SetPeriodic(t, on);
      }
    }

    // rt_timer_control with RT_TIMER_CTRL_SET_TIME, SET_PERIODIC and SET_ONESHOT.
    method SetTime(t: Tid, d: Delay)
      requires Valid()
      modifies this`delay, this`s
      ensures Valid() && s == Act(old(s), DoSetTime(t, d))
    {
      ActKeeps(s, DoSetTime(t, d));
      delay := delay[t := d];
      s := Act(s, DoSetTime(t, d));
    }

    method SetPeriodic(t: Tid, on: bool)
      requires Valid()
      modifies this`periodic, this`s
      ensures Valid() && s == Act(old(s), DoSetPeriodic(t, on))
    {
      ActKeeps(s, DoSetPeriodic(t, on));
      periodic := if on then periodic + {t} else periodic - {t};
      s := Act(s, DoSetPeriodic(t, on));
    }

    // rt_timer_check; fired lists the timers whose timeout functions were called.
    method Check(calls: Tid -> seq<Action>) returns (fired: seq<Tid>)
      requires Valid() && s.held == None
      modifies this
      ensures Valid() && s == TimerSpec.Check(old(s), calls).0 && fired == TimerSpec.Check(old(s), calls).1
    {
      ghost var trace;
      fired, trace := FireExpired(calls);
      TraceIsCheck(trace, fired, calls, 0);
    }

    // The tick of rt_tick_increase, which wraps around, and the check that goes with it.
    method Tick(calls: Tid -> seq<Action>) returns (fired: seq<Tid>)
      requires Valid() && s.held == None && NoneExpired(s)
      modifies this
      ensures Valid() && s == TimerSpec.Tick(old(s), calls).0 && fired == TimerSpec.Tick(old(s), calls).1
    {
      TickInv(s);
      NextTick(s.now);
      ghost var next := s.(now := s.now + 1);
      assert TimerSpec.Tick(s, calls) == TimerSpec.Check(next, calls);
      Advance(next);
      fired := Check(calls);
    }

    // A run of ticks with calls by threads in between; log says what fired in each step. A timer
    // left alone during the run fires on time, although the ticks of the kernel wrap around.
    method Run(steps: seq<Step>) returns (log: seq<seq<Tid>>)
      requires Valid() && Between(s)
      modifies this
      ensures Valid() && Between(s) && s.now == old(s).now + TicksIn(steps)
      ensures (s, log) == TimerSpec.Run(old(s), steps)
      ensures forall t :: t in old(s).line && t in old(s).periodic && LeftAlone(steps, t) ==>
        OnTime(Due(old(s), t), DelayOf(old(s), t), s.now, FiredAt(old(s).now, steps, log, t))
      ensures forall t :: t in old(s).line && t !in old(s).periodic && LeftAlone(steps, t) ==>
        FiredAt(old(s).now, steps, log, t) == if Due(old(s), t) <= s.now then [Due(old(s), t)] else []
      ensures forall t, d, on, k :: SetAndStarted(steps, t, d, on, k) ==> AsSet(old(s), steps, s, log, t, d, on, k)
    {
      log := [];
      for i := 0 to |steps|
        invariant Valid() && Between(s)
        invariant (s, log) == TimerSpec.Run(old(s), steps[..i])
      {
        var fired := OneStep(steps[i]);
        RunLast(old(s), steps, i);
        log := log + [fired];
      }
      assert steps[..|steps|] == steps;
      OnTimeAll(old(s), steps);
      AsSetAll(old(s), steps);
    }

    method OneStep(step: Step) returns (fired: seq<Tid>)
      requires Valid() && Between(s)
      modifies this
      ensures Valid() && Between(s) && (s, fired) == TimerSpec.Perform(old(s), step)
    {
      if step.Ticks? {
        TickEnds(s, step.calls);
        fired := Tick(step.calls);
      } else {
        ActBetween(s, step.action);
        PerformOne(step.action);
        fired := [];
      }
    }

    method Advance(ghost next: State)
      requires Valid() && s.held == None && next == s.(now := s.now + 1) && Inv(next)
      requires Wrapped(Wrapped(s.now) + 1) == Wrapped(s.now + 1)
      modifies this`tick, this`s
      ensures Valid() && s == next
    {
      tick := Wrapped(tick + 1);
      s := next;
    }

    // The loop of the check; trace lists the states that it goes through.
    method FireExpired(calls: Tid -> seq<Action>) returns (fired: seq<Tid>, ghost trace: seq<State>)
      requires Valid() && s.held == None
      modifies this
      ensures Valid() && IsTrace(trace, fired, calls) && trace[0] == old(s) && trace[|fired|] == s
      ensures s.held == None && (s.line == [] || Due(s, s.line[0]) > s.now)
    {
      fired, trace := [], [s];
      while rows[levels - 1] != []
        invariant Valid() && s.held == None
        invariant IsTrace(trace, fired, calls) && trace[0] == old(s) && trace[|fired|] == s
        decreases |Expired(s)|
      {
        var t := rows[levels - 1][0];
        FirstCompare(t);
        if Wrapped(tick - timeout[t]) >= HALF {
          break;
        }
        FireKeeps(s, calls);
        FireFirst(t, calls);
        TraceGrows(trace, fired, calls, t, s);
        fired, trace := fired + [t], trace + [s];
      }
    }

    lemma FirstCompare(t: Tid)
      requires Valid() && s.line != [] && t == s.line[0]
      ensures t in timeout && (Wrapped(tick - timeout[t]) < HALF <==> Due(s, t) <= s.now)
    {
      assert TimeoutOk(timeout, s.due, t) && InRange(s, t);
      WrapCompare(s.now, s.due[t]);
    }

    method FireFirst(t: Tid, calls: Tid -> seq<Action>)
      requires Valid() && s.held == None && s.line != [] && t == s.line[0] && Due(s, t) <= s.now
      modifies this
      ensures Valid() && s == Fire(old(s), calls)
    {
      TakeOffKeeps(s);
      WithoutFirst(s.line);
      Remove(t);
      if t !in periodic {
        active := active - {t};
      }
      held := Some(t);
      s := TakeOff(s);
      Perform(calls(t));
      HeldStays(TakeOff(old(s)), calls(t));
      if held == None {
        return;
      }
      held := None;
      LetGo(s, t);
      s := s.(held := None);
      if t in periodic && t in active {
        active := active - {t};
        s := s.(active := s.active - {t});
        Start(t);
      }
    }
  }

  lemma TraceGrows(trace: seq<State>, fired: seq<Tid>, calls: Tid -> seq<Action>, t: Tid, r: State)
    requires IsTrace(trace, fired, calls) && FiresNow(trace[|fired|], calls, t, r)
    ensures IsTrace(trace + [r], fired + [t], calls)
  {
    forall i | 0 <= i < |fired| + 1
      ensures FiresNow((trace + [r])[i], calls, (fired + [t])[i], (trace + [r])[i + 1])
    {
      assert i < |fired| ==> FiresNow(trace[i], calls, fired[i], trace[i + 1]);
    }
  }

  // From s the first timer of the line is fired, which leads to r.
  ghost predicate FiresNow(s: State, calls: Tid -> seq<Action>, t: Tid, r: State) {
    && Inv(s) && s.held == None && s.line != [] && s.line[0] == t && Due(s, t) <= s.now
    && r == Fire(s, calls)
  }

  ghost predicate IsTrace(trace: seq<State>, fired: seq<Tid>, calls: Tid -> seq<Action>) {
    && |trace| == |fired| + 1
    && forall i :: 0 <= i < |fired| ==> FiresNow(trace[i], calls, fired[i], trace[i + 1])
  }

  // A trace that ends with nothing left to fire is what the specification computes, from
  // every state on the way.
  lemma {:induction false} TraceIsCheck(trace: seq<State>, fired: seq<Tid>, calls: Tid -> seq<Action>, i: nat)
    requires IsTrace(trace, fired, calls) && i <= |fired|
    requires var r := trace[|fired|]; Inv(r) && r.held == None && (r.line == [] || Due(r, r.line[0]) > r.now)
    ensures Inv(trace[i]) && trace[i].held == None
    ensures TimerSpec.Check(trace[i], calls) == (trace[|fired|], fired[i..])
    decreases |fired| - i
  {
    if i == |fired| {
      CheckDone(trace[i], calls);
    } else {
      TraceIsCheck(trace, fired, calls, i + 1);
      var u, v := trace[i], trace[i + 1];
      assert Inv(u) && u.held == None
          && TimerSpec.Check(u, calls) == (TimerSpec.Check(v, calls).0, [fired[i]] + TimerSpec.Check(v, calls).1) by {
        assert FiresNow(u, calls, fired[i], v);
        CheckStep(u, calls);
      }
      assert fired[i..] == [fired[i]] + fired[i + 1..];
    }
  }

  // Step k starts t, which has been set to d and to be periodic or not, and t is left alone after.
  ghost predicate SetAndStarted(steps: seq<Step>, t: Tid, d: Delay, on: bool, k: nat) {
    && k < |steps| && steps[k] == Calls(DoStart(t)) && LeftAlone(steps[k + 1..], t)
    && (exists i: nat :: TimeSetAt(steps, t, d, i, k)) && exists j: nat :: FlagSetAt(steps, t, on, j, k)
  }

  lemma AsSetAll(s: State, steps: seq<Step>)
    requires Between(s)
    ensures var (r, log) := TimerSpec.Run(s, steps);
      forall t, d, on, k :: SetAndStarted(steps, t, d, on, k) ==> AsSet(s, steps, r, log, t, d, on, k)
  {
    forall t, d, on, k | SetAndStarted(steps, t, d, on, k)
      ensures AsSet(s, steps, TimerSpec.Run(s, steps).0, TimerSpec.Run(s, steps).1, t, d, on, k)
    {
      var i: nat :| TimeSetAt(steps, t, d, i, k);
      var j: nat :| FlagSetAt(steps, t, on, j, k);
      FiresAsSet(s, steps, t, d, on, i, j, k);
    }
  }

  lemma OnTimeAll(s: State, steps: seq<Step>)
    requires Between(s)
    ensures var (r, log) := TimerSpec.Run(s, steps);
      && (forall t :: t in s.line && t in s.periodic && LeftAlone(steps, t) ==>
        OnTime(Due(s, t), DelayOf(s, t), r.now, FiredAt(s.now, steps, log, t)))
      && (forall t :: t in s.line && t !in s.periodic && LeftAlone(steps, t) ==>
        FiredAt(s.now, steps, log, t) == if Due(s, t) <= r.now then [Due(s, t)] else [])
  {
    forall t | t in s.line && LeftAlone(steps, t)
      ensures var (r, log) := TimerSpec.Run(s, steps); var times := FiredAt(s.now, steps, log, t);
        if t in s.periodic then OnTime(Due(s, t), DelayOf(s, t), r.now, times)
        else times == if Due(s, t) <= r.now then [Due(s, t)] else []
    {
      if t in s.periodic {
        PeriodicOnTime(s, steps, t);
      } else {
        OneShotOnce(s, steps, t);
      }
    }
  }

  lemma WithoutFirst(l: seq<Tid>)
    requires Distinct(l) && l != []
    ensures Without(l, l[0]) == l[1..]
  {
    assert forall k :: 0 <= k < |l[1..]| ==> l[1..][k] == l[k + 1] != l[0];
  }
}
