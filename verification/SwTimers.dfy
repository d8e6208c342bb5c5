/**
 Software timers and the machine timer interrupt that serves them.

 A callback may start, stop or reconfigure any timer, its own included; what the callback of
 timer i does during one interrupt is given as a list of operations. Expiry times are unsigned
 64-bit and wrap around. The interrupt is not re-entered while it runs, and nobody else starts
 a timer in the middle of its sweep.
 */
module SwTimers {
  import opened Widths
  import opened WorkPlanner
  import opened WorkQueue
  import Deadlines

  datatype Mode = OneShot | Periodic

  datatype SwTimer = SwTimer(expire: nat, period: nat, active: bool, mode: Mode)

  /** The timers and the earliest recorded deadline. */
  datatype Bank = Bank(timers: seq<SwTimer>, next: nat)

  datatype Op =
    | Start(k: nat, at: nat, plan: nat)  // clock readings for the expiry and for the plan of the next event
    | Stop(k: nat)
    | SetPeriod(k: nat, period: nat)
    | SetMode(k: nat, mode: Mode)

  /** Operations on timers that exist. */
  predicate Fit(ops: seq<Op>, n: nat)
  {
    forall m :: 0 <= m < |ops| ==> ops[m].k < n
  }

  function Perform(b: Bank, op: Op): (r: Bank)
    requires op.k < |b.timers|
    ensures |r.timers| == |b.timers|
  {
    var t := b.timers[op.k];
    match op
    case Start(k, at, _) =>
      var e := (at + t.period) % TWO64;
      Bank(b.timers[k := t.(expire := e, active := true)], if e < b.next then e else b.next)
    case Stop(k) => b.(timers := b.timers[k := t.(active := false)])
    case SetPeriod(k, p) => b.(timers := b.timers[k := t.(period := p)])
    case SetMode(k, m) => b.(timers := b.timers[k := t.(mode := m)])
  }

  function PerformAll(b: Bank, ops: seq<Op>): (r: Bank)
    requires Fit(ops, |b.timers|)
    ensures |r.timers| == |b.timers|
  {
    if ops == [] then b else Perform(PerformAll(b, ops[..|ops| - 1]), ops[|ops| - 1])
  }

  /** What the interrupt does to a timer once its callback has returned. */
  function AfterCallback(t: SwTimer): SwTimer
  {
    if t.mode.Periodic? then t.(expire := (t.expire + t.period) % TWO64) else t.(active := false)
  }

  predicate Fires(t: SwTimer, now: nat)
  {
    t.active && Due(now, t.expire)
  }

  /** The sweep's visit to timer i, whose callback performs `ops`. */
  function Visit(b: Bank, i: nat, now: nat, ops: seq<Op>): (r: Bank)
    requires i < |b.timers| && Fit(ops, |b.timers|)
    ensures |r.timers| == |b.timers|
  {
    if !b.timers[i].active then b
    else
      var c := if !Fires(b.timers[i], now) then b else
                 var d := PerformAll(b, ops);
                 d.(timers := d.timers[i := AfterCallback(d.timers[i])]);
      if c.timers[i].active && c.timers[i].expire < c.next then c.(next := c.timers[i].expire) else c
  }

  /** Expiry times are 64-bit. */
  ghost predicate InRange(b: Bank)
  {
    forall i :: 0 <= i < |b.timers| ==> b.timers[i].expire < TWO64
  }

  /** A visit in plain numbers. An inactive timer is passed over. The callback of an active one runs exactly if the
      expiry is at most 2^63 - 1 ticks back or more than 2^63 ticks ahead; if it does not run, no timer changes. */
  lemma VisitIs(b: Bank, i: nat, now: nat, ops: seq<Op>)
    requires i < |b.timers| && Fit(ops, |b.timers|) && now < TWO64 && b.timers[i].expire < TWO64
    ensures var t, r := b.timers[i], Visit(b, i, now, ops);
            && (!t.active ==> r == b)
            && (t.active && (now < t.expire <= now + TWO63 || now - t.expire >= TWO63) ==>
                  r == Bank(b.timers, Min(b.next, t.expire)))
            && (t.active && (0 <= now - t.expire < TWO63 || t.expire - now > TWO63) ==>
                  var c := PerformAll(b, ops);
                  var u := c.timers[i];
                  if u.mode == Periodic then
                    var e := (u.expire + u.period) % TWO64;
                    r == Bank(c.timers[i := u.(expire := e)], if u.active then Min(c.next, e) else c.next)
                  else r == Bank(c.timers[i := u.(active := false)], c.next))
  {
    hide PerformAll, Due;
    DueIs(now, b.timers[i].expire);
  }

  /** The callbacks of one interrupt. */
  type Script = nat -> seq<Op>

  ghost predicate FitScript(script: Script, n: nat)
  {
    forall i :: 0 <= i < n ==> Fit(script(i), n)
  }

  /** The sweep after its first n visits. */
  ghost function Sweep(b: Bank, n: nat, now: nat, script: Script): (r: Bank)
    requires n <= |b.timers| && FitScript(script, |b.timers|)
    ensures |r.timers| == |b.timers|
  {
    if n == 0 then b.(next := NEVER)
    else Visit(Sweep(b, n - 1, now, script), n - 1, now, script(n - 1))
  }

  ghost function Interrupt(b: Bank, now: nat, script: Script): (r: Bank)
    requires FitScript(script, |b.timers|)
    ensures |r.timers| == |b.timers|
  {
    Sweep(b, |b.timers|, now, script)
  }

  // ---------------------------------------------------------------- the recorded deadline

  /** The recorded deadline is at most the expiry of each of the first n timers that is active. */
  ghost predicate Covered(b: Bank, n: nat)
  {
    n <= |b.timers| && forall i :: 0 <= i < n && b.timers[i].active ==> b.next <= b.timers[i].expire
  }

  lemma {:induction false} CallbacksKeepCovered(b: Bank, ops: seq<Op>, n: nat)
    requires Fit(ops, |b.timers|) && Covered(b, n)
    ensures Covered(PerformAll(b, ops), n)
  {
    if ops != [] {
      CallbacksKeepCovered(b, ops[..|ops| - 1], n);
    }
  }

  lemma {:induction false} SweepCovers(b: Bank, n: nat, now: nat, script: Script)
    requires n <= |b.timers| && FitScript(script, |b.timers|)
    ensures Covered(Sweep(b, n, now, script), n)
  {
    if n > 0 {
      SweepCovers(b, n - 1, now, script);
      var c := Sweep(b, n - 1, now, script);
      CallbacksKeepCovered(c, script(n - 1), n - 1);
    }
  }

  /** What can happen outside the interrupt, and the interrupt itself. */
  datatype Event = Call(op: Op) | Irq(now: nat, script: Script)

  ghost predicate FitEvents(events: seq<Event>, n: nat)
  {
    forall m :: 0 <= m < |events| ==>
      match events[m]
      case Call(op) => op.k < n
      case Irq(_, script) => FitScript(script, n)
  }

  ghost function After(b: Bank, events: seq<Event>): (r: Bank)
    requires FitEvents(events, |b.timers|)
    ensures |r.timers| == |b.timers|
  {
    if events == [] then b
    else
      var c := After(b, events[..|events| - 1]);
      match events[|events| - 1]
      case Call(op) => Perform(c, op)
      case Irq(now, script) => Interrupt(c, now, script)
  }

  /** In every state reached outside the sweep, no active timer expires before the recorded deadline. */
  lemma {:induction false} DeadlineCoversEveryTimer(b: Bank, events: seq<Event>)
    requires Covered(b, |b.timers|) && FitEvents(events, |b.timers|)
    ensures Covered(After(b, events), |b.timers|)
  {
    if events != [] {
      DeadlineCoversEveryTimer(b, events[..|events| - 1]);
      var c := After(b, events[..|events| - 1]);
      match events[|events| - 1]
      case Call(op) =>
      case Irq(now, script) => SweepCovers(c, |c.timers|, now, script);
    }
  }

  /** As registered, no timer is active, so the first state is covered whatever the deadline. */
  lemma RegisteredIsCovered(b: Bank)
    requires forall i :: 0 <= i < |b.timers| ==> !b.timers[i].active
    ensures Covered(b, |b.timers|)
  {
  }

  // ---------------------------------------------------------------- periodic timers do not drift

  /** The operations leave timer i alone, except that they may stop it. */
  ghost predicate LeavesAlone(ops: seq<Op>, i: nat)
  {
    forall m :: 0 <= m < |ops| && ops[m].k == i ==> ops[m].Stop?
  }

  ghost predicate EventsLeaveAlone(events: seq<Event>, i: nat)
  {
    forall m :: 0 <= m < |events| ==>
      match events[m]
      case Call(op) => LeavesAlone([op], i)
      case Irq(_, script) => forall j: nat :: LeavesAlone(script(j), i)
  }

  /** Whether the interrupt runs the callback of timer i. */
  ghost predicate Called(b: Bank, i: nat, now: nat, script: Script)
    requires i < |b.timers| && FitScript(script, |b.timers|)
  {
    Fires(Sweep(b, i, now, script).timers[i], now)
  }

  lemma {:induction false} CallbacksKeepRange(b: Bank, ops: seq<Op>)
    requires InRange(b) && Fit(ops, |b.timers|)
    ensures InRange(PerformAll(b, ops))
  {
    if ops != [] { CallbacksKeepRange(b, ops[..|ops| - 1]); }
  }

  lemma VisitKeepsRange(b: Bank, i: nat, now: nat, ops: seq<Op>)
    requires InRange(b) && i < |b.timers| && Fit(ops, |b.timers|)
    ensures InRange(Visit(b, i, now, ops))
  {
    hide PerformAll, Due;
    CallbacksKeepRange(b, ops);
  }

  lemma {:induction false} SweepKeepsRange(b: Bank, n: nat, now: nat, script: Script)
    requires InRange(b) && n <= |b.timers| && FitScript(script, |b.timers|)
    ensures InRange(Sweep(b, n, now, script))
  {
    hide Visit;
    if n > 0 {
      SweepKeepsRange(b, n - 1, now, script);
      VisitKeepsRange(Sweep(b, n - 1, now, script), n - 1, now, script(n - 1));
    }
  }

  /** The interrupt runs the callback of timer i exactly if, when the sweep comes to it, the timer is active and has
      expired within the last 2^63 ticks, or expires more than 2^63 ticks ahead. */
  lemma CalledIff(b: Bank, i: nat, now: nat, script: Script)
    requires i < |b.timers| && FitScript(script, |b.timers|) && InRange(b) && now < TWO64
    ensures var t := Sweep(b, i, now, script).timers[i];
            Called(b, i, now, script) <==> t.active && (0 <= now - t.expire < TWO63 || t.expire - now > TWO63)
  {
    hide Sweep, Due;
    SweepKeepsRange(b, i, now, script);
    DueIs(now, Sweep(b, i, now, script).timers[i].expire);
  }

  /** Callbacks that do nothing. */
  ghost predicate Quiet(script: Script)
  {
    forall j: nat :: script(j) == []
  }

  /** What an interrupt whose callbacks touch no timer leaves of one timer. */
  lemma {:induction false} QuietSweep(b: Bank, n: nat, now: nat, script: Script, i: nat)
    requires i < |b.timers| && n <= |b.timers| && FitScript(script, |b.timers|)
    requires Quiet(script) && InRange(b) && now < TWO64
    ensures var t, u := b.timers[i], Sweep(b, n, now, script).timers[i];
            if i < n && t.active && (0 <= now - t.expire < TWO63 || t.expire - now > TWO63) then
              u == if t.mode == Periodic then t.(expire := (t.expire + t.period) % TWO64) else t.(active := false)
            else u == t
  {
    hide Visit, PerformAll;
    if n > 0 {
      QuietSweep(b, n - 1, now, script, i);
      SweepKeepsRange(b, n - 1, now, script);
      var c := Sweep(b, n - 1, now, script);
      assert script(n - 1) == [];
      VisitIs(c, n - 1, now, []);
      NoOps(c);
    }
  }

  lemma NoOps(b: Bank)
    ensures Fit([], |b.timers|) && PerformAll(b, []) == b
  {
  }

  /** ... and of the recorded deadline: it is the earliest expiry of an active timer, or never. */
  lemma {:induction false} QuietSweepRecords(b: Bank, n: nat, now: nat, script: Script)
    requires n <= |b.timers| && FitScript(script, |b.timers|) && Quiet(script) && InRange(b) && now < TWO64
    ensures var c := Sweep(b, n, now, script);
            && c.next <= NEVER
            && (forall i :: 0 <= i < n && c.timers[i].active ==> c.next <= c.timers[i].expire)
            && (c.next == NEVER || exists i :: 0 <= i < n && c.timers[i].active && c.timers[i].expire == c.next)
            && forall i :: n <= i < |b.timers| ==> c.timers[i] == b.timers[i]
  {
    hide Visit, PerformAll;
    if n > 0 {
      QuietSweepRecords(b, n - 1, now, script);
      SweepKeepsRange(b, n - 1, now, script);
      var c, d := Sweep(b, n - 1, now, script), Sweep(b, n, now, script);
      assert script(n - 1) == [];
      VisitIs(c, n - 1, now, []);
      NoOps(c);
      assert forall i :: 0 <= i < |c.timers| && i != n - 1 ==> d.timers[i] == c.timers[i];
      if d.next != NEVER && d.next == c.next {
        var i :| 0 <= i < n - 1 && c.timers[i].active && c.timers[i].expire == c.next;
        assert d.timers[i].active && d.timers[i].expire == d.next;
      } else if d.next != c.next {
        assert d.timers[n - 1].active && d.timers[n - 1].expire == d.next;
      }
    }
  }

  /** Number of callbacks of timer i in a run. */
  ghost function Callbacks(b: Bank, events: seq<Event>, i: nat): nat
    requires FitEvents(events, |b.timers|) && i < |b.timers|
  {
    if events == [] then 0
    else
      var before := events[..|events| - 1];
      Callbacks(b, before, i) +
      match events[|events| - 1]
      case Call(_) => 0
      case Irq(now, script) => if Called(After(b, before), i, now, script) then 1 else 0
  }

  /** Same timer, except that it may have been stopped. */
  predicate Kept(t: SwTimer, u: SwTimer)
  {
    u.expire == t.expire && u.period == t.period && u.mode == t.mode && (u.active ==> t.active)
  }

  lemma {:induction false} CallbacksKeep(b: Bank, ops: seq<Op>, i: nat)
    requires i < |b.timers| && Fit(ops, |b.timers|) && LeavesAlone(ops, i)
    ensures Kept(b.timers[i], PerformAll(b, ops).timers[i])
  {
    if ops != [] {
      CallbacksKeep(b, ops[..|ops| - 1], i);
    }
  }

  /** The timer after one more callback, or as it was. */
  predicate Advanced(t: SwTimer, u: SwTimer, called: bool)
  {
    Kept(if called then t.(expire := (t.expire + t.period) % TWO64) else t, u)
  }

  lemma VisitAdvances(c: Bank, m: nat, now: nat, ops: seq<Op>, i: nat)
    requires m < |c.timers| && i < |c.timers| && Fit(ops, |c.timers|) && LeavesAlone(ops, i)
    requires c.timers[i].mode.Periodic?
    ensures Advanced(c.timers[i], Visit(c, m, now, ops).timers[i], m == i && Fires(c.timers[i], now))
  {
    hide Due, PerformAll;
    CallbacksKeep(c, ops, i);
  }

  lemma {:induction false} SweepAdvances(b: Bank, n: nat, now: nat, script: Script, i: nat)
    requires i < |b.timers| && n <= |b.timers| && FitScript(script, |b.timers|)
    requires b.timers[i].mode.Periodic? && forall j: nat :: LeavesAlone(script(j), i)
    ensures Advanced(b.timers[i], Sweep(b, n, now, script).timers[i], i < n && Called(b, i, now, script))
  {
    hide Visit, Due, PerformAll;
    if n > 0 {
      SweepAdvances(b, n - 1, now, script, i);
      VisitAdvances(Sweep(b, n - 1, now, script), n - 1, now, script(n - 1), i);
    }
  }

  lemma AddPeriod(e: nat, c: nat, p: nat)
    ensures ((e + c * p) % TWO64 + p) % TWO64 == (e + (c + 1) * p) % TWO64
  {
    assert (c + 1) * p == c * p + p;
  }

  /** A periodic timer started at `start` and not restarted since expires at `start + k * period` on its k-th
      callback, however late the interrupts come: there is no drift and no period is skipped. */
  lemma {:induction false} PeriodicTimerDoesNotDrift(b: Bank, events: seq<Event>, i: nat, start: nat)
    requires i < |b.timers| && FitEvents(events, |b.timers|) && EventsLeaveAlone(events, i)
    requires b.timers[i].mode.Periodic? && b.timers[i].expire == (start + b.timers[i].period) % TWO64
    ensures var t, k := After(b, events).timers[i], Callbacks(b, events, i) + 1;
            t.expire == (start + k * t.period) % TWO64 && t.period == b.timers[i].period && t.mode.Periodic?
  {
    hide Sweep, Called, FitScript;
    if events != [] {
      var before := events[..|events| - 1];
      PeriodicTimerDoesNotDrift(b, before, i, start);
      var c := After(b, before);
      match events[|events| - 1]
      case Call(op) =>
        assert LeavesAlone([op], i);
        assert [op][0].k == i ==> [op][0].Stop?;
      case Irq(now, script) =>
        SweepAdvances(c, |c.timers|, now, script, i);
        AddPeriod(start, Callbacks(b, before, i) + 1, c.timers[i].period);
    }
  }

  /** The calls a program makes to set up and start a timer. */
  function Started(b: Bank, i: nat, mode: Mode, period: nat, at: nat, plan: nat): (r: Bank)
    requires i < |b.timers|
    ensures |r.timers| == |b.timers|
  {
    Perform(Perform(Perform(b, SetMode(i, mode)), SetPeriod(i, period)), Start(i, at, plan))
  }

  /** They leave it active, with that mode and period, to expire one period after the clock reading; no other timer
      changes, and the recorded deadline is lowered to the expiry. */
  lemma StartedIs(b: Bank, i: nat, mode: Mode, period: nat, at: nat, plan: nat)
    requires i < |b.timers|
    ensures var r, e := Started(b, i, mode, period, at, plan), (at + period) % TWO64;
            && r.timers[i] == SwTimer(e, period, true, mode)
            && (forall j :: 0 <= j < |b.timers| && j != i ==> r.timers[j] == b.timers[j])
            && r.next == Min(b.next, e)
  {
  }

  /** The k-th callback of a periodic timer started at `start`, over every run that does not restart it: an interrupt
      that comes while the clock is within 2^63 ticks of it runs it exactly from `start + k * period` on, unless the
      timer has been stopped before its turn. So no callback is early and none waits for another period. */
  lemma KthCallbackRunsIff(b: Bank, i: nat, period: nat, start: nat, plan: nat,
                           events: seq<Event>, now: nat, script: Script)
    requires i < |b.timers| && FitEvents(events, |b.timers|) && EventsLeaveAlone(events, i)
    requires FitScript(script, |b.timers|) && forall j: nat :: LeavesAlone(script(j), i)
    requires var k := Callbacks(Started(b, i, Periodic, period, start, plan), events, i) + 1;
             now < TWO64 && start + k * period < TWO64
             && now < start + k * period + TWO63 && start + k * period < now + TWO63
    ensures var s := Started(b, i, Periodic, period, start, plan);
            var k := Callbacks(s, events, i) + 1;
            Called(After(s, events), i, now, script)
            <==> Sweep(After(s, events), i, now, script).timers[i].active && start + k * period <= now
  {
    hide Sweep, After, Callbacks, FitScript, Started;
    StartedIs(b, i, Periodic, period, start, plan);
    var s := Started(b, i, Periodic, period, start, plan);
    PeriodicTimerDoesNotDrift(s, events, i, start);
    var c, k := After(s, events), Callbacks(s, events, i) + 1;
    SweepAdvances(c, i, now, script, i);
    assert Sweep(c, i, now, script).timers[i].expire == start + k * period;
    DueIs(now, start + k * period);
  }

  // ---------------------------------------------------------------- one-shot timers

  /** The mode of timer i after the operations: the last one that sets it decides. */
  function LastMode(ops: seq<Op>, i: nat, mode: Mode): Mode
  {
    if ops == [] then mode
    else
      var op := ops[|ops| - 1];
      if op.SetMode? && op.k == i then op.mode else LastMode(ops[..|ops| - 1], i, mode)
  }

  /** Whether timer i is active after the operations: the last start or stop of it decides. */
  function LastActive(ops: seq<Op>, i: nat, active: bool): bool
  {
    if ops == [] then active
    else
      var op := ops[|ops| - 1];
      if (op.Start? || op.Stop?) && op.k == i then op.Start? else LastActive(ops[..|ops| - 1], i, active)
  }

  lemma {:induction false} LastOneDecides(b: Bank, ops: seq<Op>, i: nat)
    requires i < |b.timers| && Fit(ops, |b.timers|)
    ensures var t, u := b.timers[i], PerformAll(b, ops).timers[i];
            u.mode == LastMode(ops, i, t.mode) && u.active == LastActive(ops, i, t.active)
  {
    if ops != [] { LastOneDecides(b, ops[..|ops| - 1], i); }
  }

  /** A timer whose callback has just run stays active, exactly if the last start or stop of it in the callback, if
      any, is a start, and the last change of its mode, or else its own mode, is periodic. A one-shot timer that
      restarts itself is therefore switched off again. */
  lemma RestartSurvivesIff(b: Bank, i: nat, now: nat, ops: seq<Op>)
    requires i < |b.timers| && Fit(ops, |b.timers|) && Fires(b.timers[i], now)
    ensures Visit(b, i, now, ops).timers[i].active
       <==> LastActive(ops, i, true) && LastMode(ops, i, b.timers[i].mode).Periodic?
  {
    hide PerformAll;
    LastOneDecides(b, ops, i);
  }

  lemma OneShotRestartIsLost(b: Bank, i: nat, now: nat)
    requires i < |b.timers| && Fires(b.timers[i], now) && b.timers[i].mode.OneShot?
    ensures !Visit(b, i, now, [Start(i, now, now)]).timers[i].active
  {
    var ops := [Start(i, now, now)];
    assert ops[..0] == [];
    RestartSurvivesIff(b, i, now, ops);
  }

  // ---------------------------------------------------------------- the code

  /** The timer array, the two deadlines and the compare register as the program keeps them. */
  class TimerService {
    var timers: seq<SwTimer>
    var next: nat
    var taskNext: nat
    var compare: nat

    ghost predicate Valid()
      reads this
    {
      next <= NEVER && taskNext <= NEVER && InRange(Value())
    }

    function Value(): Bank
      reads this
    {
      Bank(timers, next)
    }

    /** The compare register was programmed at this clock reading: it lies in the future, and neither a recorded
        deadline nor, if those are covered, any active timer is programmed more than one tick late. */
    ghost predicate Planned(clock: nat)
      reads this
      requires Valid()
    {
      clock < TWO64 ==>
        && compare == Deadlines.NextCompare(clock, taskNext, next)
        && (clock < TWO63 ==> clock < compare)
        && (clock < TWO63 && Covered(Value(), |timers|) ==>
              forall i :: 0 <= i < |timers| && timers[i].active ==> compare <= Max(clock, timers[i].expire) + 1)
    }

    constructor (timers: seq<SwTimer>)
      requires forall i :: 0 <= i < |timers| ==> !timers[i].active && timers[i].expire < TWO64
      ensures Valid() && Value() == Bank(timers, NEVER) && Covered(Value(), |timers|)
    {
      this.timers, next, taskNext := timers, NEVER, NEVER;
    }

    method NextEventPlan(clock: nat)
      requires Valid() && clock < TWO64
      modifies this`compare
      ensures Valid() && Planned(clock)
    {
      compare := Deadlines.PlanCompare(clock, taskNext, next);
    }

    method StartTimer(k: nat, now: nat, plan: nat)
      requires Valid() && k < |timers| && plan < TWO64
      modifies this`timers, this`next, this`compare
      ensures Valid() && Value() == Perform(old(Value()), Start(k, now, plan))
      ensures Planned(plan)
    {
      timers := timers[k := timers[k].(expire := (now + timers[k].period) % TWO64, active := true)];
      if timers[k].expire < next {
        next := timers[k].expire;
      }
      NextEventPlan(plan);
    }

    method Execute(op: Op)
      requires Valid() && op.k < |timers| && (op.Start? ==> op.plan < TWO64)
      modifies this`timers, this`next, this`compare
      ensures Valid() && Value() == Perform(old(Value()), op)
    {
      match op
      case Start(k, at, plan) => StartTimer(k, at, plan);
      case Stop(k) => timers := timers[k := timers[k].(active := false)];
      case SetPeriod(k, p) => timers := timers[k := timers[k].(period := p)];
      case SetMode(k, m) => timers := timers[k := timers[k].(mode := m)];
    }

    /** A timer callback. */
    method Callback(ops: seq<Op>)
      requires Valid() && Fit(ops, |timers|) && Clocked(ops)
      modifies this`timers, this`next, this`compare
      ensures Valid() && Value() == PerformAll(old(Value()), ops)
    {
      assert ops[..|ops|] == ops;
      for m := 0 to |ops|
        invariant Valid() && |timers| == |old(timers)|
        invariant Value() == PerformAll(old(Value()), ops[..m])
      {
        assert ops[..m + 1][..m] == ops[..m];
        Execute(ops[m]);
      }
    }

    /** The sweep's visit to one timer. */
    method VisitTimer(i: nat, now: nat, ops: seq<Op>) returns (called: bool)
      requires Valid() && i < |timers| && Fit(ops, |timers|) && Clocked(ops) && now < TWO64
      modifies this`timers, this`next, this`compare
      ensures Valid() && Value() == Visit(old(Value()), i, now, ops)
      // the callback runs exactly if the timer is active and has expired in the last 2^63 ticks, or seems to have
      ensures called <==>
                var t := old(timers[i]); t.active && (0 <= now - t.expire < TWO63 || t.expire - now > TWO63)
      ensures !called ==> timers == old(timers)
    {
      hide PerformAll;
      called := false;
      if timers[i].active {
        DueIs(now, timers[i].expire);
        if (now - timers[i].expire) % TWO64 < TWO63 {
          called := true;
          Callback(ops);
          if timers[i].mode.Periodic? {
            timers := timers[i := timers[i].(expire := (timers[i].expire + timers[i].period) % TWO64)];
          } else {
            timers := timers[i := timers[i].(active := false)];
          }
        }
        if timers[i].active && timers[i].expire < next {
          next := timers[i].expire;
        }
      }
    }

    /** The timer interrupt: the sweep, and at clock reading `plan` the next event. Afterwards no active timer is
        programmed more than one tick late. */
    method MtimerIrq(now: nat, script: Script, plan: nat) returns (called: seq<nat>)
      requires Valid() && FitScript(script, |timers|) && plan < TWO64 && now < TWO64
      requires forall i: nat :: Clocked(script(i))
      modifies this`timers, this`next, this`compare
      ensures Valid() && Value() == Interrupt(old(Value()), now, script)
      // callbacks run in order, each exactly if its timer is active and due when its turn comes
      ensures forall m, n :: 0 <= m < n < |called| ==> called[m] < called[n]
      ensures forall m :: 0 <= m < |called| ==> called[m] < |timers|
      ensures forall i: nat :: i < |timers| ==>
                (i in called <==>
                   var t := Sweep(old(Value()), i, now, script).timers[i];
                   t.active && (0 <= now - t.expire < TWO63 || t.expire - now > TWO63))
      ensures Covered(Value(), |timers|) && Planned(plan)
      ensures plan < TWO63 ==>
                forall i :: 0 <= i < |timers| && timers[i].active ==>
                  plan < compare <= Max(plan, timers[i].expire) + 1
    {
      hide Visit, Fit, Called;
      next := NEVER;
      called := [];
      for i := 0 to |timers|
        invariant Valid() && |timers| == |old(timers)|
        invariant Value() == Sweep(old(Value()), i, now, script)
        invariant forall m, n :: 0 <= m < n < |called| ==> called[m] < called[n]
        invariant forall m :: 0 <= m < |called| ==> called[m] < i
        invariant forall j: nat :: j < i ==> (j in called <==> Called(old(Value()), j, now, script))
      {
        CalledIff(old(Value()), i, now, script);
        var ran := VisitTimer(i, now, script(i));
        if ran {
          called := called + [i];
        }
      }
      SweepCovers(old(Value()), |timers|, now, script);
      forall i: nat | i < |timers|
        ensures i in called <==>
                  var t := Sweep(old(Value()), i, now, script).timers[i];
                  t.active && (0 <= now - t.expire < TWO63 || t.expire - now > TWO63)
      {
        CalledIff(old(Value()), i, now, script);
      }
      NextEventPlan(plan);
    }
  }

  /** Clock readings are 64-bit. */
  ghost predicate Clocked(ops: seq<Op>)
  {
    forall m :: 0 <= m < |ops| && ops[m].Start? ==> ops[m].plan < TWO64
  }
}
