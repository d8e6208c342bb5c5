/**
 The deferred-work task inside the scheduler, as atomic steps of task code and interrupts.

 A pass of the scheduler reads the clock once, later tests whether the work task is due
 against that reading, and if so drains the queue and parks the task. Interrupts and other
 tasks may submit work between any two steps. Time is the 64-bit machine timer; runs are
 those in which it stays below 2^63 - 1.
 */
module WorkPlanner {
  import opened Options
  import opened Widths
  import opened WorkQueue

  /** The scheduler's due test: the 64-bit difference, read as a signed number, is not negative. */
  predicate Due(now: nat, wake: nat)
  {
    (now - wake) % TWO64 < TWO63
  }

  /** In plain numbers: a deadline is due from its time on for 2^63 ticks, and one more than 2^63 ticks ahead counts as
      passed. */
  lemma DueIs(now: nat, wake: nat)
    requires now < TWO64 && wake < TWO64
    ensures Due(now, wake) <==> if wake <= now then now - wake < TWO63 else wake - now > TWO63
  {
  }

  /** Where the scheduler stands with respect to the work task. */
  datatype Pc =
    | Between                // no pass under way
    | Scanning(start: nat)   // pass under way, clock read, due test still to come
    | Draining               // about to pop
    | Running(item: Work)    // an item popped and being executed
    | Parking                // queue seen empty, deadline not yet written
    | AfterTask              // rest of the pass
    | Dozing                 // idle test passed, wait-for-interrupt instruction still to come
    | Asleep                 // waiting for an interrupt

  /** `accepted` and `executed` record the history; the queue is the ring's contents. */
  datatype State = State(now: nat, wake: nat, queue: seq<Work>, pc: Pc, accepted: seq<Work>, executed: seq<Work>)

  /** `early` says that the clock has not reached the compare register when the pass ends. */
  datatype Step =
    | Tick(ticks: nat) | Submit(w: Work)
    | BeginPass | TestDue | Take | Finish | Park | EndPass(early: bool) | Doze | Wake

  const INITIAL := State(0, 0, [], Between, [], [])

  predicate Enabled(s: State, step: Step)
  {
    match step
    case Tick(d) => s.now + d < TWO63 - 1
    case Submit(_) => true
    case BeginPass => s.pc.Between?
    case TestDue => s.pc.Scanning?
    case Take => s.pc.Draining?
    case Finish => s.pc.Running?
    case Park => s.pc.Parking?
    case EndPass(_) => s.pc.AfterTask?
    case Doze => s.pc.Dozing?
    case Wake => s.pc.Asleep?
  }

  function Apply(cap: nat, s: State, step: Step): State
    requires Enabled(s, step)
  {
    match step
    case Tick(d) => s.(now := s.now + d)
    case Submit(w) =>
      var t := s.(pc := if s.pc.Asleep? then Between else s.pc);  // only an interrupt can submit then
      if Accepts(s.queue, w, cap) then t.(queue := s.queue + [w], accepted := s.accepted + [w], wake := s.now) else t
    case BeginPass => s.(pc := Scanning(s.now))
    case TestDue => s.(pc := if Due(s.pc.start, s.wake) then Draining else AfterTask)
    case Take => if s.queue == [] then s.(pc := Parking) else s.(pc := Running(s.queue[0]), queue := s.queue[1..])
    case Finish => s.(pc := Draining, executed := s.executed + [s.pc.item])
    case Park => s.(pc := AfterTask, wake := NEVER)
    case EndPass(early) => s.(pc := if early && s.queue == [] then Dozing else Between)
    case Doze => s.(pc := Asleep)
    case Wake => s.(pc := Between)
  }

  ghost predicate Possible(cap: nat, s: State, steps: seq<Step>)
    decreases |steps|
  {
    steps == [] || (Enabled(s, steps[0]) && Possible(cap, Apply(cap, s, steps[0]), steps[1..]))
  }

  ghost function Run(cap: nat, s: State, steps: seq<Step>): State
    requires Possible(cap, s, steps)
    decreases |steps|
  {
    if steps == [] then s else Run(cap, Apply(cap, s, steps[0]), steps[1..])
  }

  function InFlight(s: State): seq<Work>
  {
    if s.pc.Running? then [s.pc.item] else []
  }

  ghost predicate Invariant(cap: nat, s: State)
  {
    && s.executed + InFlight(s) + s.queue == s.accepted
    && (forall i :: 0 <= i < |s.accepted| ==> s.accepted[i].fn != 0)  // so the drain loop never meets a null function
    && |s.queue| <= cap
    && s.now < TWO63 - 1
    && (s.wake == NEVER || s.wake <= s.now)
    && (s.pc.Scanning? ==> s.pc.start <= s.now)
  }

  /** What each step may touch: only the clock's own step moves it, the deadline is written by an accepted submission
      and by parking, the queue grows by an accepted submission and shrinks when an item is taken, and work is executed
      by finishing the item in flight. */
  lemma StepFrame(cap: nat, s: State, step: Step)
    requires Enabled(s, step)
    ensures var t := Apply(cap, s, step);
            var accepts := step.Submit? && step.w.fn != 0 && |s.queue| < cap;
            && (t.now != s.now ==> step.Tick?)
            && t.wake == (if accepts then s.now else if step.Park? then NEVER else s.wake)
            && t.accepted == s.accepted + (if accepts then [step.w] else [])
            && t.executed == s.executed + (if step.Finish? then [s.pc.item] else [])
            && t.queue == (if accepts then s.queue + [step.w]
                           else if step.Take? && s.queue != [] then s.queue[1..] else s.queue)
            && (step.BeginPass? ==> t.pc == Scanning(s.now)) && (step.Finish? ==> t.pc == Draining)
            && (step.Doze? ==> t.pc == Asleep) && (step.Wake? ==> t.pc == Between)
            && (step.Tick? || (step.Submit? && !s.pc.Asleep?) ==> t.pc == s.pc)
  {
  }

  /** Accepting and taking an item keep executed ++ in flight ++ queued equal to accepted. */
  lemma QueueSteps(done: seq<Work>, queue: seq<Work>, w: Work)
    ensures done + (queue + [w]) == (done + queue) + [w]
    ensures queue != [] ==> done + [queue[0]] + queue[1..] == done + queue
    ensures done + [] == done
  {
  }

  lemma StepKeepsInvariant(cap: nat, s: State, step: Step)
    requires Invariant(cap, s) && Enabled(s, step)
    ensures Invariant(cap, Apply(cap, s, step))
    ensures s.accepted <= Apply(cap, s, step).accepted
  {
    hide Due;
    match step {
      case Submit(w) => QueueSteps(s.executed + InFlight(s), s.queue, w);
      case Take => QueueSteps(s.executed, s.queue, Work(0, 0));
      case Finish => QueueSteps(s.executed + InFlight(s), s.queue, Work(0, 0));
      case _ =>
    }
  }

  /** Over every interleaving: executed ++ in flight ++ queued is exactly what was accepted, in order. */
  lemma {:induction false} WorkIsConserved(cap: nat, s: State, steps: seq<Step>)
    requires Invariant(cap, s) && Possible(cap, s, steps)
    ensures Invariant(cap, Run(cap, s, steps))
    ensures s.accepted <= Run(cap, s, steps).accepted
    decreases |steps|
  {
    if steps != [] {
      StepKeepsInvariant(cap, s, steps[0]);
      WorkIsConserved(cap, Apply(cap, s, steps[0]), steps[1..]);
    }
  }

  lemma InitiallyConserved(cap: nat)
    ensures Invariant(cap, INITIAL)
  {
  }

  // ---------------------------------------------------------------- when a pass runs the queue

  /** Steps that can happen between the clock reading of a pass and its due test. */
  predicate Outside(step: Step)
  {
    step.Tick? || step.Submit?
  }

  /** Some submission is accepted after the clock has moved past `start`. */
  ghost predicate LateSubmit(cap: nat, s: State, steps: seq<Step>, start: nat)
    requires Possible(cap, s, steps)
    decreases |steps|
  {
    steps != [] &&
    ((steps[0].Submit? && Accepts(s.queue, steps[0].w, cap) && s.now > start)
     || LateSubmit(cap, Apply(cap, s, steps[0]), steps[1..], start))
  }

  /** While nothing but ticks and submissions happen, the task is due at `start` unless one came late. */
  lemma {:induction false} DueUnlessLate(cap: nat, s: State, steps: seq<Step>, start: nat)
    requires Invariant(cap, s) && Possible(cap, s, steps) && start <= s.now && s.pc.Scanning?
    requires forall i :: 0 <= i < |steps| ==> Outside(steps[i])
    ensures s.wake == NEVER || s.wake <= start ==>
              (Due(start, Run(cap, s, steps).wake) <==> !LateSubmit(cap, s, steps, start))
    ensures s.wake != NEVER && s.wake > start ==> !Due(start, Run(cap, s, steps).wake)
    ensures Run(cap, s, steps).pc == s.pc
    decreases |steps|
  {
    if steps != [] {
      StepKeepsInvariant(cap, s, steps[0]);
      DueUnlessLate(cap, Apply(cap, s, steps[0]), steps[1..], start);
    }
  }

  /** A pass runs the queue exactly if no submission is accepted after its clock reading has become stale. */
  lemma PassDrainsIff(cap: nat, s: State, steps: seq<Step>)
    requires Invariant(cap, s) && s.pc.Between?
    requires Possible(cap, s.(pc := Scanning(s.now)), steps)
    requires forall i :: 0 <= i < |steps| ==> Outside(steps[i])
    ensures var t := Run(cap, s.(pc := Scanning(s.now)), steps);
            Enabled(t, TestDue) &&
            (Apply(cap, t, TestDue).pc == Draining <==> !LateSubmit(cap, s.(pc := Scanning(s.now)), steps, s.now))
  {
    DueUnlessLate(cap, s.(pc := Scanning(s.now)), steps, s.now);
  }

  /** So a pass that starts after a submission need not run it: a second submission can postpone it. */
  lemma PassCanSkipPendingWork(cap: nat, a: Work, b: Work)
    requires 2 <= cap && a.fn != 0 && b.fn != 0
    ensures var steps := [Submit(a), BeginPass, Tick(1), Submit(b), TestDue];
            Possible(cap, INITIAL, steps) && Run(cap, INITIAL, steps).pc == AfterTask
            && Run(cap, INITIAL, steps).queue == [a, b] && Run(cap, INITIAL, steps).executed == []
  {
    var s1 := Apply(cap, INITIAL, Submit(a));
    var s2 := Apply(cap, s1, BeginPass);
    var s3 := Apply(cap, s2, Tick(1));
    var s4 := Apply(cap, s3, Submit(b));
    var s5 := Apply(cap, s4, TestDue);
    assert s4.queue == [a, b] && s4.wake == 1 && s4.pc == Scanning(0);
    assert !Due(0, 1);
    var tail5: seq<Step> := [];
    var tail4 := [TestDue];
    var tail3 := [Submit(b), TestDue];
    var tail2 := [Tick(1), Submit(b), TestDue];
    var tail1 := [BeginPass, Tick(1), Submit(b), TestDue];
    var tail0 := [Submit(a), BeginPass, Tick(1), Submit(b), TestDue];
    assert tail4[1..] == tail5 && tail3[1..] == tail4 && tail2[1..] == tail3;
    assert tail1[1..] == tail2 && tail0[1..] == tail1;
    assert Possible(cap, s5, tail5) && Run(cap, s5, tail5) == s5;
    assert Possible(cap, s4, tail4) && Run(cap, s4, tail4) == s5;
    assert Possible(cap, s3, tail3) && Run(cap, s3, tail3) == s5;
    assert Possible(cap, s2, tail2) && Run(cap, s2, tail2) == s5;
    assert Possible(cap, s1, tail1) && Run(cap, s1, tail1) == s5;
  }

  // ---------------------------------------------------------------- sleeping on pending work

  /** A submission among the steps names a function. */
  ghost predicate SubmitsWork(steps: seq<Step>)
  {
    exists i :: 0 <= i < |steps| && steps[i].Submit? && steps[i].w.fn != 0
  }

  lemma {:induction false} DozingQueue(cap: nat, s: State, steps: seq<Step>)
    requires 0 < cap && Invariant(cap, s) && s.pc.Dozing? && Possible(cap, s, steps)
    requires forall i :: 0 <= i < |steps| ==> Outside(steps[i])
    ensures Run(cap, s, steps).pc.Dozing?
    ensures Run(cap, s, steps).queue != [] <==> s.queue != [] || SubmitsWork(steps)
    decreases |steps|
  {
    if steps != [] {
      StepKeepsInvariant(cap, s, steps[0]);
      DozingQueue(cap, Apply(cap, s, steps[0]), steps[1..]);
      assert forall i :: 0 <= i < |steps| - 1 ==> steps[1..][i] == steps[i + 1];
      assert SubmitsWork(steps) <==> (steps[0].Submit? && steps[0].w.fn != 0) || SubmitsWork(steps[1..]) by {
        if SubmitsWork(steps) {
          var i :| 0 <= i < |steps| && steps[i].Submit? && steps[i].w.fn != 0;
          assert i == 0 || steps[1..][i - 1].Submit?;
        }
      }
    }
  }

  /** At the end of a pass the core prepares to sleep exactly if the clock is early and nothing is queued. */
  lemma DozesIff(cap: nat, s: State, early: bool)
    requires s.pc.AfterTask?
    ensures var t := Apply(cap, s, EndPass(early));
            && (t.pc == Dozing <==> early && s.queue == [])
            && (t.pc == Between <==> !early || s.queue != [])
            && t == s.(pc := t.pc)
  {
  }

  /** The core goes to sleep with work pending exactly if the idle test saw an empty queue and an interrupt submits
      some between the test and the wait-for-interrupt instruction. */
  lemma SleepsOnWorkIff(cap: nat, s: State, early: bool, steps: seq<Step>)
    requires 0 < cap && Invariant(cap, s) && s.pc.AfterTask?
    requires Possible(cap, Apply(cap, s, EndPass(early)), steps)
    requires forall i :: 0 <= i < |steps| ==> Outside(steps[i])
    ensures var u := Apply(cap, s, EndPass(early));
            var t := Run(cap, u, steps);
            && (Enabled(t, Doze) <==> early && s.queue == [])
            && (Enabled(t, Doze) ==>
                  Apply(cap, t, Doze).pc == Asleep && (Apply(cap, t, Doze).queue != [] <==> SubmitsWork(steps)))
  {
    StepKeepsInvariant(cap, s, EndPass(early));
    var u := Apply(cap, s, EndPass(early));
    if u.pc.Dozing? {
      DozingQueue(cap, u, steps);
    } else {
      OutsideStaysBetween(cap, u, steps);
    }
  }

  lemma {:induction false} OutsideStaysBetween(cap: nat, s: State, steps: seq<Step>)
    requires s.pc.Between? && Possible(cap, s, steps)
    requires forall i :: 0 <= i < |steps| ==> Outside(steps[i])
    ensures Run(cap, s, steps).pc.Between?
    decreases |steps|
  {
    if steps != [] { OutsideStaysBetween(cap, Apply(cap, s, steps[0]), steps[1..]); }
  }

  /** Sleep lasts exactly until an interrupt submits something, accepted or not; meanwhile nothing is queued or
      executed. */
  lemma {:induction false} AsleepUntilSubmission(cap: nat, s: State, steps: seq<Step>)
    requires s.pc.Asleep? && Possible(cap, s, steps)
    requires forall i :: 0 <= i < |steps| ==> Outside(steps[i])
    ensures var t := Run(cap, s, steps);
            if forall i :: 0 <= i < |steps| ==> steps[i].Tick? then t == s.(now := t.now) else t.pc == Between
    decreases |steps|
  {
    if steps != [] {
      var t := Apply(cap, s, steps[0]);
      if steps[0].Tick? {
        AsleepUntilSubmission(cap, t, steps[1..]);
        assert forall i :: 0 < i < |steps| ==> steps[i] == steps[1..][i - 1];
      } else {
        OutsideStaysBetween(cap, t, steps[1..]);
      }
    }
  }

  /** How many submissions had been accepted when the last pass of a run ended; `mark` if none ended. */
  ghost function AcceptedAtEnd(cap: nat, s: State, steps: seq<Step>, mark: nat): nat
    requires Possible(cap, s, steps)
    decreases |steps|
  {
    if steps == [] then mark
    else AcceptedAtEnd(cap, Apply(cap, s, steps[0]), steps[1..], if steps[0].EndPass? then |s.accepted| else mark)
  }

  predicate Sleepy(s: State)
  {
    s.pc.Dozing? || s.pc.Asleep?
  }

  lemma {:induction false} SleepyRun(cap: nat, s: State, steps: seq<Step>, mark: nat)
    requires Invariant(cap, s) && Possible(cap, s, steps) && mark <= |s.accepted|
    requires Sleepy(s) ==> |s.executed| == mark
    ensures var t, m := Run(cap, s, steps), AcceptedAtEnd(cap, s, steps, mark);
            m <= |t.accepted| && (Sleepy(t) ==> |t.executed| == m)
    decreases |steps|
  {
    if steps != [] {
      StepKeepsInvariant(cap, s, steps[0]);
      SleepyRun(cap, Apply(cap, s, steps[0]), steps[1..], if steps[0].EndPass? then |s.accepted| else mark);
    }
  }

  /** In every run, what is queued while the core prepares to sleep or sleeps is exactly what has been accepted since
      the last pass ended. With no submission since then, nothing is queued. */
  lemma SleepingQueueIsNew(cap: nat, steps: seq<Step>)
    requires Possible(cap, INITIAL, steps) && Sleepy(Run(cap, INITIAL, steps))
    ensures var t, m := Run(cap, INITIAL, steps), AcceptedAtEnd(cap, INITIAL, steps, 0);
            && m <= |t.accepted| && t.queue == t.accepted[m..] && t.executed == t.accepted[..m]
            && (t.queue != [] <==> |t.accepted| > m)
  {
    WorkIsConserved(cap, INITIAL, steps);
    SleepyRun(cap, INITIAL, steps, 0);
  }

  // ---------------------------------------------------------------- no work is lost

  /** The pass under way will find the task not due. */
  predicate Stale(s: State)
  {
    s.pc.Scanning? && !Due(s.pc.start, s.wake)
  }

  /** Due tests in a run. */
  function Tests(steps: seq<Step>): nat
  {
    if steps == [] then 0 else (if steps[0].TestDue? then 1 else 0) + Tests(steps[1..])
  }

  /** The run never enters the drain loop. */
  ghost predicate NeverDrains(cap: nat, s: State, steps: seq<Step>)
    requires Possible(cap, s, steps)
    decreases |steps|
  {
    !s.pc.Draining? && (steps != [] ==> NeverDrains(cap, Apply(cap, s, steps[0]), steps[1..]))
  }

  /** Every skipped pass has put one more item into the queue. */
  lemma {:induction false} SkipsFillTheQueue(cap: nat, s: State, steps: seq<Step>)
    requires Invariant(cap, s) && Possible(cap, s, steps) && NeverDrains(cap, s, steps)
    requires !s.pc.Running? && !s.pc.Parking?
    ensures var t := Run(cap, s, steps);
            |s.queue| + Tests(steps) + (if Stale(t) then 1 else 0) <= |t.queue| + (if Stale(s) then 1 else 0)
    decreases |steps|
  {
    if steps != [] {
      var s1 := Apply(cap, s, steps[0]);
      StepKeepsInvariant(cap, s, steps[0]);
      assert NeverDrains(cap, s1, steps[1..]);
      SkipsFillTheQueue(cap, s1, steps[1..]);
    }
  }

  /** With work pending between passes, at most capacity - 1 passes in a row can skip it. */
  lemma PendingWorkIsReached(cap: nat, s: State, steps: seq<Step>)
    requires Invariant(cap, s) && Possible(cap, s, steps) && s.pc.Between?
    requires s.queue != [] && Tests(steps) >= cap
    ensures !NeverDrains(cap, s, steps)
  {
    if NeverDrains(cap, s, steps) {
      SkipsFillTheQueue(cap, s, steps);
      WorkIsConserved(cap, s, steps);
    }
  }

  function Finishes(steps: seq<Step>): nat
  {
    if steps == [] then 0 else (if steps[0].Finish? then 1 else 0) + Finishes(steps[1..])
  }

  /** The drain loop executes in submission order: after n returns, the first n outstanding items are done. */
  lemma {:induction false} ExecutionFollowsSubmission(cap: nat, s: State, steps: seq<Step>)
    requires Invariant(cap, s) && Possible(cap, s, steps)
    ensures var t := Run(cap, s, steps);
            && |t.executed| == |s.executed| + Finishes(steps)
            && t.executed <= t.accepted && s.accepted <= t.accepted
    decreases |steps|
  {
    if steps != [] {
      StepKeepsInvariant(cap, s, steps[0]);
      ExecutionFollowsSubmission(cap, Apply(cap, s, steps[0]), steps[1..]);
    }
  }

  /** The drain loop is left only when everything accepted so far has been executed. */
  lemma DrainLeavesNothing(cap: nat, s: State)
    requires Invariant(cap, s) && s.pc.Draining? && Apply(cap, s, Take).pc.Parking?
    ensures Apply(cap, s, Take).executed == s.accepted
  {
  }

  /** A submission that races with parking is not lost: the parked deadline counts as due. */
  lemma ParkedIsDue(now: nat)
    requires now < TWO64
    ensures Due(now, NEVER) <==> now < TWO63 - 1 || now == NEVER
  {
  }

  // ---------------------------------------------------------------- all accepted work is executed

  /** Passes completed in a run. */
  function Ends(steps: seq<Step>): nat
  {
    if steps == [] then 0 else (if steps[0].EndPass? then 1 else 0) + Ends(steps[1..])
  }

  /** How many passes can still end before the items now accepted have been executed: none while the queue is being
      drained; otherwise each such pass has to put one more item into the queue. */
  function Patience(cap: nat, s: State): int
  {
    if s.pc.Draining? || s.pc.Running? then 0
    else cap - |s.queue| + if s.pc.AfterTask? || s.pc.Parking? || Stale(s) then 1 else 0
  }

  /** As long as one of the first n accepted items is outstanding, every pass that ends uses up patience. */
  lemma StepUsesPatience(cap: nat, s: State, step: Step, n: nat)
    requires Invariant(cap, s) && Enabled(s, step) && n <= |s.accepted|
    requires |Apply(cap, s, step).executed| < n
    ensures |s.executed| < n
    ensures Patience(cap, Apply(cap, s, step)) + (if step.EndPass? then 1 else 0) <= Patience(cap, s)
  {
  }

  lemma {:induction false} OutstandingUsesPatience(cap: nat, s: State, steps: seq<Step>, n: nat)
    requires Invariant(cap, s) && Possible(cap, s, steps) && n <= |s.accepted|
    requires |Run(cap, s, steps).executed| < n
    ensures |s.executed| < n
    ensures Patience(cap, Run(cap, s, steps)) + Ends(steps) <= Patience(cap, s)
    decreases |steps|
  {
    hide Patience, Apply;
    if steps != [] {
      var s1 := Apply(cap, s, steps[0]);
      StepKeepsInvariant(cap, s, steps[0]);
      OutstandingUsesPatience(cap, s1, steps[1..], n);
      StepUsesPatience(cap, s, steps[0], n);
    }
  }

  lemma PatienceNotNegative(cap: nat, s: State)
    requires Invariant(cap, s)
    ensures 0 <= Patience(cap, s)
    ensures s.pc.AfterTask? ==> 1 <= Patience(cap, s)
  {
  }

  /** Items that are not outstanding have been executed, in order. */
  lemma NothingOutstanding(cap: nat, s: State, t: State)
    requires Invariant(cap, t) && s.accepted <= t.accepted && |s.accepted| <= |t.executed|
    ensures s.accepted <= t.executed
  {
    assert t.executed <= t.accepted;
  }

  /** No work is lost, whatever submissions and interrupts come in between: everything accepted by some moment has been
      executed, in order, once more passes have ended than there was patience. */
  lemma AcceptedWorkIsExecuted(cap: nat, s: State, steps: seq<Step>)
    requires Invariant(cap, s) && Possible(cap, s, steps) && Ends(steps) > Patience(cap, s)
    ensures s.accepted <= Run(cap, s, steps).executed
  {
    hide Patience, Ends, Run, Possible;
    var t := Run(cap, s, steps);
    WorkIsConserved(cap, s, steps);
    if |t.executed| < |s.accepted| {
      OutstandingUsesPatience(cap, s, steps, |s.accepted|);
      PatienceNotNegative(cap, t);
    }
    NothingOutstanding(cap, s, t);
  }

  /** In particular, between passes: after as many passes as the queue has places, everything is executed. */
  lemma PendingWorkIsExecuted(cap: nat, s: State, steps: seq<Step>)
    requires Invariant(cap, s) && Possible(cap, s, steps) && s.pc.Between? && Ends(steps) >= cap
    ensures s.accepted <= Run(cap, s, steps).executed
  {
    if s.queue != [] {
      AcceptedWorkIsExecuted(cap, s, steps);
    } else {
      ExecutionFollowsSubmission(cap, s, steps);
      WorkIsConserved(cap, s, steps);
      NothingOutstanding(cap, s, Run(cap, s, steps));
    }
  }

  /** A pass that skips the task executes nothing. */
  lemma {:induction false} SkippedPassExecutesNothing(cap: nat, s: State, steps: seq<Step>)
    requires Possible(cap, s, steps) && s.pc.AfterTask? && Ends(steps) == 0
    ensures Run(cap, s, steps).executed == s.executed && Run(cap, s, steps).pc.AfterTask?
    decreases |steps|
  {
    if steps != [] { SkippedPassExecutesNothing(cap, Apply(cap, s, steps[0]), steps[1..]); }
  }

  /** A late submission was accepted, so the queue is not empty. */
  lemma {:induction false} LateMeansPending(cap: nat, s: State, steps: seq<Step>, start: nat)
    requires Possible(cap, s, steps) && (forall i :: 0 <= i < |steps| ==> Outside(steps[i])) && s.pc.Scanning?
    ensures |s.queue| <= |Run(cap, s, steps).queue|
    ensures LateSubmit(cap, s, steps, start) ==> Run(cap, s, steps).queue != []
    decreases |steps|
  {
    if steps != [] { LateMeansPending(cap, Apply(cap, s, steps[0]), steps[1..], start); }
  }

  /** A whole pass, from its clock reading (state s, just read) over its due test to its end: by its end it has executed
      everything accepted before the due test, if and only if no submission was late. */
  lemma PassExecutesIff(cap: nat, s: State, before: seq<Step>, after: seq<Step>)
    requires Invariant(cap, s) && s.pc == Scanning(s.now) && Possible(cap, s, before)
    requires forall i :: 0 <= i < |before| ==> Outside(before[i])
    requires var u := Run(cap, s, before);
             u.pc.Scanning? && Possible(cap, Apply(cap, u, TestDue), after) && Ends(after) == 0
             && Run(cap, Apply(cap, u, TestDue), after).pc.AfterTask?
    ensures var u := Run(cap, s, before);
            u.accepted <= Run(cap, Apply(cap, u, TestDue), after).executed <==> !LateSubmit(cap, s, before, s.now)
  {
    hide Patience, Run, Possible, LateSubmit;
    var u := Run(cap, s, before);
    var v := Apply(cap, u, TestDue);
    var t := Run(cap, v, after);
    WorkIsConserved(cap, s, before);
    StepKeepsInvariant(cap, u, TestDue);
    WorkIsConserved(cap, v, after);
    DueUnlessLate(cap, s, before, s.now);
    LateMeansPending(cap, s, before, s.now);
    if LateSubmit(cap, s, before, s.now) {
      SkippedPassExecutesNothing(cap, v, after);
    } else {
      DrainingHasNone(cap, v);
      if |t.executed| < |v.accepted| {
        OutstandingUsesPatience(cap, v, after, |v.accepted|);
        PatienceNotNegative(cap, t);
      }
      NothingOutstanding(cap, v, t);
    }
  }

  lemma DrainingHasNone(cap: nat, s: State)
    requires s.pc.Draining?
    ensures Patience(cap, s) == 0
  {
  }

  // ---------------------------------------------------------------- the ring takes these steps

  /** The work queue of the program, together with the state that it implements. */
  class Executor {
    const ring: Ring
    ghost var state: State

    ghost predicate Valid()
      reads this, ring, ring.items
    {
      ring.Valid() && Invariant(ring.capacity, state) && state.queue == ring.Contents() && state.wake == ring.wake
    }

    constructor (capacity: nat)
      requires 0 < capacity
      ensures Valid() && state == INITIAL && ring.capacity == capacity && fresh(ring) && fresh(ring.items)
    {
      ring := new Ring(capacity);
      state := INITIAL;
    }

    /** A submission, by a task or an interrupt. */
    method Submit(w: Work, now: nat) returns (ok: bool)
      requires Valid() && now == state.now
      modifies this, ring, ring.items
      ensures Valid() && state == Apply(ring.capacity, old(state), Step.Submit(w))
      ensures ok <==> state.accepted != old(state).accepted
    {
      ok := ring.Submit(w, now);
      StepKeepsInvariant(ring.capacity, state, Step.Submit(w));
      state := Apply(ring.capacity, state, Step.Submit(w));
    }

    /** The drain loop looks for the next item, with interrupts off. */
    method Take() returns (w: Option<Work>)
      requires Valid() && state.pc.Draining?
      modifies this, ring
      ensures Valid() && state == Apply(ring.capacity, old(state), Step.Take)
      ensures w == if state.pc.Running? then Some(state.pc.item) else None
    {
      ring.gie := false;
      w := ring.Pop();
      ring.gie, ring.meie := true, true;
      StepKeepsInvariant(ring.capacity, state, Step.Take);
      state := Apply(ring.capacity, state, Step.Take);
    }

    /** The idle test at the end of a pass. */
    method Idle(clock: nat, compare: nat) returns (sleeps: bool)
      requires Valid() && state.pc.AfterTask?
      modifies this
      ensures Valid() && state == Apply(ring.capacity, old(state), EndPass(clock < compare))
      ensures sleeps <==> clock < compare && ring.Contents() == []
      ensures sleeps <==> state.pc == Dozing
    {
      var pending := ring.IsPending();
      sleeps := clock < compare && !pending;
      StepKeepsInvariant(ring.capacity, state, EndPass(clock < compare));
      state := Apply(ring.capacity, state, EndPass(clock < compare));
    }

    /** The end of the drain task. */
    method Park()
      requires Valid() && state.pc.Parking?
      modifies this, ring`wake
      ensures Valid() && state == Apply(ring.capacity, old(state), Step.Park)
    {
      ring.Park();
      StepKeepsInvariant(ring.capacity, state, Step.Park);
      state := Apply(ring.capacity, state, Step.Park);
    }
  }
}
