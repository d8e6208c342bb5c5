/**
 Programming the machine timer compare register from the recorded deadlines.
 All values are unsigned 64-bit; the sum `next + 1` and the difference `now - cmp` wrap around.
 */
module Deadlines {
  import opened Widths
  import opened WorkPlanner
  import opened WorkQueue

  /** The compare value for the earlier of the task and the timer deadline. */
  function NextCompare(now: nat, task: nat, timer: nat): (cmp: nat)
    requires now < TWO64 && task < TWO64 && timer < TWO64
  {
    var cmp := (Min(task, timer) + 1) % TWO64;
    if Due(now, cmp) then (now + 1) % TWO64 else cmp
  }

  /** The compare value lies in the future, and at most one tick after the earliest deadline. */
  predicate InWindow(now: nat, task: nat, timer: nat, cmp: nat)
  {
    now < cmp <= Max(now, Min(task, timer)) + 1
  }

  /** How the scheduler computes the compare value. */
  method PlanCompare(now: nat, task: nat, timer: nat) returns (cmp: nat)
    requires now < TWO64 && task < TWO64 && timer < TWO64
    ensures cmp == NextCompare(now, task, timer)
    ensures now < TWO63 ==> InWindow(now, task, timer, cmp)
  {
    var next := if task < timer then task else timer;
    cmp := (next + 1) % TWO64;
    if (now - cmp) % TWO64 < TWO63 {
      cmp := (now + 1) % TWO64;
    }
  }

  /** The window is met for every pair of deadlines, parked ones included, exactly while the clock is below 2^63. */
  lemma WakeupWindow(now: nat)
    requires now < TWO64
    ensures (forall task: nat, timer: nat | task < TWO64 && timer < TWO64 ::
               InWindow(now, task, timer, NextCompare(now, task, timer)))
            <==> now < TWO63
  {
    if now >= TWO63 {
      assert !InWindow(now, NEVER, NEVER, NextCompare(now, NEVER, NEVER));
    }
  }

  /** A deadline in the next 2^63 ticks is programmed exactly; any other one wakes at the next tick. */
  lemma CompareIsExact(now: nat, task: nat, timer: nat)
    requires now < TWO63 && task < TWO64 && timer < TWO64
    ensures var next := Min(task, timer);
            NextCompare(now, task, timer) == if now < next < now + TWO63 && next != NEVER then next + 1 else now + 1
  {
  }

  // ---------------------------------------------------------------- the task pass

  datatype Task = Task(wake: nat, active: bool)

  /** What the function of task i does to the task array. */
  type Effects = (nat, seq<Task>) -> seq<Task>

  /** The task array keeps its size, and deadlines are 64-bit values. */
  ghost predicate WellBehaved(effects: Effects)
  {
    forall i: nat, ts: seq<Task> :: |effects(i, ts)| == |ts| && (Words(ts) ==> Words(effects(i, ts)))
  }

  ghost predicate Words(ts: seq<Task>)
  {
    forall i :: 0 <= i < |ts| ==> ts[i].wake < TWO64
  }

  /** Task functions write only their own entry. */
  ghost predicate OwnOnly(effects: Effects)
  {
    && WellBehaved(effects)
    && forall i: nat, ts: seq<Task>, j: nat :: j < |ts| && j != i ==> effects(i, ts)[j] == ts[j]
  }

  /** Tasks and recorded deadline after the pass has dealt with the first n tasks. */
  ghost function PassTo(tasks: seq<Task>, n: nat, now: nat, effects: Effects): (r: (seq<Task>, nat))
    requires n <= |tasks| && WellBehaved(effects)
    ensures |r.0| == |tasks|
  {
    if n == 0 then (tasks, NEVER)
    else
      var (ts, next) := PassTo(tasks, n - 1, now, effects);
      if !ts[n - 1].active then (ts, next)
      else
        var ts' := if Due(now, ts[n - 1].wake) then effects(n - 1, ts) else ts;
        (ts', Min(ts'[n - 1].wake, next))
  }

  /** After a pass every active task wakes no earlier than the recorded deadline, which is one of their
      deadlines unless it is never; tasks that are inactive or not due are left alone. */
  lemma {:induction false} PassRecordsEarliest(tasks: seq<Task>, n: nat, now: nat, effects: Effects)
    requires n <= |tasks| && OwnOnly(effects) && Words(tasks)
    ensures var (ts, next) := PassTo(tasks, n, now, effects);
            && next <= NEVER && Words(ts)
            && (forall i :: 0 <= i < n && ts[i].active ==> next <= ts[i].wake)
            && (next == NEVER || exists i :: 0 <= i < n && tasks[i].active && ts[i].wake == next)
            && (forall i :: n <= i < |tasks| ==> ts[i] == tasks[i])
            && (forall i :: 0 <= i < |tasks| && !(tasks[i].active && Due(now, tasks[i].wake)) ==> ts[i] == tasks[i])
  {
    if n > 0 {
      PassRecordsEarliest(tasks, n - 1, now, effects);
      var (ts, next) := PassTo(tasks, n - 1, now, effects);
      var (ts', next') := PassTo(tasks, n, now, effects);
      assert forall j: nat :: j < |ts| && j != n - 1 ==> ts'[j] == ts[j];
      if next' != NEVER && next' == next {
        var i :| 0 <= i < n - 1 && tasks[i].active && ts[i].wake == next;
        assert ts'[i].wake == next';
      }
    }
  }

  // ---------------------------------------------------------------- tasks that write other tasks' entries

  /** No active task among the first n wakes before `next`. */
  ghost predicate Covers(ts: seq<Task>, next: nat, n: nat)
    requires n <= |ts|
  {
    forall j :: 0 <= j < n && ts[j].active ==> next <= ts[j].wake
  }

  /** The pass has recorded a deadline that covers the first n tasks. */
  ghost predicate PassCovers(tasks: seq<Task>, n: nat, now: nat, effects: Effects)
    requires n <= |tasks| && WellBehaved(effects)
  {
    Covers(PassTo(tasks, n, now, effects).0, PassTo(tasks, n, now, effects).1, n)
  }

  /** The entry of task j when the pass has just dealt with it. */
  ghost function AfterTurn(tasks: seq<Task>, j: nat, now: nat, effects: Effects): Task
    requires j < |tasks| && WellBehaved(effects)
  {
    PassTo(tasks, j + 1, now, effects).0[j]
  }

  /** Whatever foreign writes do, the recorded deadline covers each task as it was after its own turn, later
      turns can only lower it, and it is one of these deadlines. */
  lemma {:induction false} RecordedAfterTurn(tasks: seq<Task>, n: nat, now: nat, effects: Effects)
    requires n <= |tasks| && WellBehaved(effects)
    ensures var next := PassTo(tasks, n, now, effects).1;
            && next <= NEVER
            && (forall j :: 0 <= j < n && Visited(tasks, j, now, effects) && AfterTurn(tasks, j, now, effects).active
                  ==> next <= AfterTurn(tasks, j, now, effects).wake)
            && (next == NEVER || exists j :: 0 <= j < n && Visited(tasks, j, now, effects)
                                          && AfterTurn(tasks, j, now, effects).wake == next)
  {
    if n > 0 {
      RecordedAfterTurn(tasks, n - 1, now, effects);
      var (ts, next) := PassTo(tasks, n - 1, now, effects);
      var (ts', next') := PassTo(tasks, n, now, effects);
      assert Visited(tasks, n - 1, now, effects) <==> ts[n - 1].active;
      assert AfterTurn(tasks, n - 1, now, effects) == ts'[n - 1];
      if next' != NEVER && next' == next {
        var j :| 0 <= j < n - 1 && Visited(tasks, j, now, effects) && AfterTurn(tasks, j, now, effects).wake == next;
        assert Visited(tasks, j, now, effects) && AfterTurn(tasks, j, now, effects).wake == next';
      }
    }
  }

  /** Task j was active when its turn came. */
  ghost predicate Visited(tasks: seq<Task>, j: nat, now: nat, effects: Effects)
    requires j < |tasks| && WellBehaved(effects)
  {
    PassTo(tasks, j, now, effects).0[j].active
  }

  /** After its turn, some other task's function changed the entry of task j and left it active, with a deadline
      before the recorded one. */
  ghost predicate Missed(tasks: seq<Task>, n: nat, j: nat, now: nat, effects: Effects)
    requires j < n <= |tasks| && WellBehaved(effects)
  {
    var (ts, next) := PassTo(tasks, n, now, effects);
    ts[j] != AfterTurn(tasks, j, now, effects) && ts[j].active && ts[j].wake < next
  }

  /** For all task arrays and task functions: the pass records a deadline that covers every active task, if and only
      if no entry is changed behind the pass to a deadline before the recorded one. */
  lemma PassCoversIff(tasks: seq<Task>, n: nat, now: nat, effects: Effects)
    requires n <= |tasks| && WellBehaved(effects)
    ensures PassCovers(tasks, n, now, effects) <==> forall j :: 0 <= j < n ==> !Missed(tasks, n, j, now, effects)
  {
    var (ts, next) := PassTo(tasks, n, now, effects);
    forall j | 0 <= j < n && ts[j].active && ts[j].wake < next ensures Missed(tasks, n, j, now, effects) {
      if !Missed(tasks, n, j, now, effects) { CoveredUnlessMissed(tasks, n, j, now, effects); }
    }
  }

  lemma CoveredUnlessMissed(tasks: seq<Task>, n: nat, j: nat, now: nat, effects: Effects)
    requires j < n <= |tasks| && WellBehaved(effects) && !Missed(tasks, n, j, now, effects)
    ensures var (ts, next) := PassTo(tasks, n, now, effects); ts[j].active ==> next <= ts[j].wake
  {
    RecordedAfterTurn(tasks, n, now, effects);
    if !Visited(tasks, j, now, effects) { InactiveAfterTurn(tasks, j, now, effects); }
  }

  /** A task that is not active at its turn is not called, so it is not active after its turn either. */
  lemma InactiveAfterTurn(tasks: seq<Task>, j: nat, now: nat, effects: Effects)
    requires j < |tasks| && WellBehaved(effects) && !Visited(tasks, j, now, effects)
    ensures !AfterTurn(tasks, j, now, effects).active
  {
  }

  /** What the function of task m may do to the entries before its own: leave them alone, leave them inactive, or give
      them a deadline that is not before both its own new one and the one recorded so far. */
  ghost predicate Considerate(tasks: seq<Task>, m: nat, now: nat, effects: Effects)
    requires m < |tasks| && WellBehaved(effects)
  {
    var (ts, next) := PassTo(tasks, m, now, effects);
    ts[m].active && Due(now, ts[m].wake) ==>
      var ts' := effects(m, ts);
      forall j :: 0 <= j < m && ts'[j] != ts[j] && ts'[j].active ==> Min(ts'[m].wake, next) <= ts'[j].wake
  }

  /** Turn by turn: the recorded deadline covers the tasks dealt with after every turn, if and only if every task
      function called was considerate. */
  lemma {:induction false} EveryTurnCoversIff(tasks: seq<Task>, n: nat, now: nat, effects: Effects)
    requires n <= |tasks| && WellBehaved(effects)
    ensures (forall k :: 0 <= k <= n ==> PassCovers(tasks, k, now, effects))
       <==> (forall m :: 0 <= m < n ==> Considerate(tasks, m, now, effects))
  {
    if n > 0 {
      EveryTurnCoversIff(tasks, n - 1, now, effects);
      if PassCovers(tasks, n - 1, now, effects) { TurnCoversIff(tasks, n, now, effects); }
    }
  }

  lemma TurnCoversIff(tasks: seq<Task>, n: nat, now: nat, effects: Effects)
    requires 0 < n <= |tasks| && WellBehaved(effects) && PassCovers(tasks, n - 1, now, effects)
    ensures PassCovers(tasks, n, now, effects) <==> Considerate(tasks, n - 1, now, effects)
  {
    var (ts, next) := PassTo(tasks, n - 1, now, effects);
    var (ts', next') := PassTo(tasks, n, now, effects);
    if !Considerate(tasks, n - 1, now, effects) {
      var j :| 0 <= j < n - 1 && ts'[j] != ts[j] && ts'[j].active && !(Min(ts'[n - 1].wake, next) <= ts'[j].wake);
      assert ts'[j].wake < next';
    }
  }

  /** Tasks that write only their own entry miss nothing. */
  lemma OwnOnlyIsConsiderate(tasks: seq<Task>, m: nat, now: nat, effects: Effects)
    requires m < |tasks| && OwnOnly(effects)
    ensures Considerate(tasks, m, now, effects)
  {
  }

  /** A task that submits work writes the deadline of the work task: the clock reading `at`. That is considerate if the
      work task's turn is still to come, and otherwise exactly if `at` is not before both the submitting task's own
      new deadline and the one recorded so far. */
  lemma SubmissionIsConsiderateIff(tasks: seq<Task>, m: nat, j: nat, now: nat, effects: Effects, own: Task, at: nat)
    requires m < |tasks| && j < |tasks| && j != m && WellBehaved(effects)
    requires var ts := PassTo(tasks, m, now, effects).0;
             && ts[m].active && Due(now, ts[m].wake) && ts[j].active && ts[j].wake != at
             && effects(m, ts) == ts[m := own][j := ts[j].(wake := at)]
    ensures var next := PassTo(tasks, m, now, effects).1;
            Considerate(tasks, m, now, effects) <==> m < j || Min(own.wake, next) <= at
  {
    var (ts, next) := PassTo(tasks, m, now, effects);
    var ts' := effects(m, ts);
    assert ts'[j] == ts[j].(wake := at) && ts'[m] == own;
  }

  /** A missed deadline is programmed late: if it has not passed and nothing else wakes the core earlier, the compare
      value is the recorded deadline's, which is more than one tick after it. */
  lemma MissedIsLate(later: nat, wake: nat, next: nat, timer: nat)
    requires later <= wake < next < NEVER && next <= timer < TWO64 && next < later + TWO63 && later < TWO63
    ensures NextCompare(later, next, timer) == next + 1 > Max(later, wake) + 1
  {
    CompareIsExact(later, next, timer);
  }

  /** The scheduler's globals. */
  class Planner {
    var tasks: seq<Task>
    var taskNext: nat
    var timerNext: nat
    var compare: nat

    ghost predicate Valid()
      reads this
    {
      Words(tasks) && taskNext < TWO64 && timerNext < TWO64
    }

    constructor (tasks: seq<Task>)
      requires Words(tasks)
      ensures Valid() && this.tasks == tasks && taskNext == NEVER && timerNext == NEVER
    {
      this.tasks, taskNext, timerNext, compare := tasks, NEVER, NEVER, NEVER;
    }

    /** Program the compare register. */
    method NextEventPlan(now: nat)
      requires Valid() && now < TWO64
      modifies this`compare
      ensures compare == NextCompare(now, taskNext, timerNext)
      ensures now < TWO63 ==> InWindow(now, taskNext, timerNext, compare)
    {
      compare := PlanCompare(now, taskNext, timerNext);
    }

    /** One turn of the scheduler loop, up to the idle decision. The clock reads `now` when the pass
        starts and `later` when the next event is planned. */
    method Turn(now: nat, later: nat, effects: Effects)
      requires Valid() && WellBehaved(effects) && now <= later < TWO63
      modifies this
      ensures Valid() && timerNext == old(timerNext)
      ensures (tasks, taskNext) == PassTo(old(tasks), |old(tasks)|, now, effects)
      ensures later < compare
      // no recorded deadline is programmed more than one tick late ...
      ensures compare <= Max(later, timerNext) + 1
      // ... and neither is any task's deadline that was not changed behind the pass to one before the recorded one
      ensures forall i :: 0 <= i < |tasks| && tasks[i].active && !Missed(old(tasks), |tasks|, i, now, effects) ==>
                compare <= Max(later, tasks[i].wake) + 1
      ensures (forall m :: 0 <= m < |tasks| ==> Considerate(old(tasks), m, now, effects)) ==>
                forall i :: 0 <= i < |tasks| && tasks[i].active ==> compare <= Max(later, tasks[i].wake) + 1
    {
      taskNext := NEVER;
      for i := 0 to |tasks|
        invariant |tasks| == |old(tasks)| && timerNext == old(timerNext) && Valid()
        invariant (tasks, taskNext) == PassTo(old(tasks), i, now, effects)
      {
        if tasks[i].active {
          if (now - tasks[i].wake) % TWO64 < TWO63 {
            tasks := effects(i, tasks);
          }
          if tasks[i].wake < taskNext {
            taskNext := tasks[i].wake;
          }
        }
      }
      NextEventPlan(later);
      forall i | 0 <= i < |tasks| && tasks[i].active && !Missed(old(tasks), |tasks|, i, now, effects)
        ensures taskNext <= tasks[i].wake
      {
        CoveredUnlessMissed(old(tasks), |tasks|, i, now, effects);
      }
      EveryTurnCoversIff(old(tasks), |tasks|, now, effects);
      assert PassCovers(old(tasks), |tasks|, now, effects) <==> Covers(tasks, taskNext, |tasks|);
    }
  }

  /** A task that lowers another task's deadline behind the pass is missed: the deadline recorded is too late. */
  lemma ForeignWriteIsMissed()
    ensures var tasks := [Task(500, true), Task(0, true)];
            var effects: Effects := (i: nat, ts: seq<Task>) =>
              if i == 1 && |ts| == 2 then [Task(100, true), Task(400, true)] else ts;
            WellBehaved(effects) && PassTo(tasks, 2, 50, effects) == ([Task(100, true), Task(400, true)], 400)
  {
    var tasks := [Task(500, true), Task(0, true)];
    var effects: Effects := (i: nat, ts: seq<Task>) =>
      if i == 1 && |ts| == 2 then [Task(100, true), Task(400, true)] else ts;
    assert WellBehaved(effects);
    assert PassTo(tasks, 1, 50, effects) == (tasks, 500);
  }
}
