/**
 Whole runs of the scheduler, delays included: tasks are created, the system is
 started, and from then on ticks, yields and delays come in any order.
 */
module SchedulerRuns {
  import opened Arithmetic
  import opened SchedulerSpec

  /** What a task's times are measured from: creation tick, relative deadline, and yields so far. */
  datatype History = History(created: nat, relative: nat, periods: nat)

  datatype Sys = Sys(k: KState, hist: seq<History>)

  datatype Op =
    | CreateOp(period: nat, relative: nat)
    | StartOp
    | TickOp
    | YieldOp
    | DelayOp(ticks: nat)

  /** The current task is a periodic one: the idle task makes no calls. */
  predicate TaskRuns(k: KState) {
    k.started && 0 <= k.current < |k.tasks| && k.tasks[k.current].period > 0
  }

  /** Tasks are created before the start; calls come from the running task; counters do not wrap. */
  predicate Possible(s: Sys, op: Op) {
    StateOk(s.k) && |s.hist| == |s.k.tasks|
    && match op {
         case CreateOp(p, r) => !s.k.started && s.k.tick + r < FOREVER
         case StartOp => !s.k.started
         case TickOp => s.k.started && s.k.tick + 1 < FOREVER
         case YieldOp => TaskRuns(s.k) && s.k.tasks[s.k.current].deadline + s.k.tasks[s.k.current].period < FOREVER
                         && s.k.tasks[s.k.current].arrival + s.k.tasks[s.k.current].period < FOREVER
         case DelayOp(n) => TaskRuns(s.k) && s.k.tick + n < FOREVER
       }
  }

  function After(s: Sys, op: Op): Sys
    requires Possible(s, op)
  {
    match op
    case CreateOp(p, r) => Sys(Create(s.k, p, r), s.hist + [History(s.k.tick, r, 0)])
    case StartOp => s.(k := Start(s.k))
    case TickOp => s.(k := Switch(Tick(s.k)))
    case YieldOp =>
      var h := s.hist[s.k.current];
      Sys(Switch(Yield(s.k)), s.hist[s.k.current := h.(periods := h.periods + 1)])
    case DelayOp(n) => s.(k := Switch(Delay(s.k, n)))
  }

  /** A periodic task's times after that many yields; a one-shot task has none. */
  ghost predicate TimesOk(t: TaskRec, h: History) {
    if t.period == 0 then t.deadline == FOREVER
    else t.arrival == h.created + h.periods * t.period && t.deadline == t.arrival + h.relative
  }

  /** No average execution time exceeds the maximum; 32-bit wrap-around cannot break this. */
  ghost predicate StatsOk(ts: seq<TaskRec>) {
    forall i :: 0 <= i < |ts| ==> ts[i].avgExec <= ts[i].maxExec
  }

  ghost predicate Inv(s: Sys) {
    && StateOk(s.k) && |s.hist| == |s.k.tasks|
    && (forall i :: 0 <= i < |s.hist| ==> TimesOk(s.k.tasks[i], s.hist[i]))
    && StatsOk(s.k.tasks)
    && (if s.k.started then s.k.current == s.k.next == Pick(s.k.tasks)
        else s.k.current == NONE && s.k.next == NONE)
  }

  /** At the end of a tick nobody is left waiting or delayed past his time. */
  ghost predicate NoneOverdue(k: KState) {
    forall i :: 0 <= i < |k.tasks| ==>
      && (k.tasks[i].state == Waiting ==> k.tick < k.tasks[i].arrival)
      && (k.tasks[i].state == Delayed ==> k.tick < k.tasks[i].wakeup)
  }

  // ----- each step -----

  lemma ScheduleKeepsStats(k: KState)
    requires StateOk(k) && StatsOk(k.tasks)
    ensures StatsOk(Schedule(k).tasks)
  {
    hide Pick;
  }

  lemma StepKeepsInv(s: Sys, op: Op)
    requires Inv(s) && Possible(s, op)
    ensures Inv(After(s, op))
    ensures op == TickOp ==> NoneOverdue(After(s, op).k) && After(s, op).k.tick == s.k.tick + 1
  {
    hide Pick, Schedule;
    var s' := After(s, op);
    match op {
      case CreateOp(p, r) =>
      case StartOp =>
        ScheduleKeepsTimes(s.k);
        ScheduleKeepsStats(s.k);
      case TickOp =>
        TickStep(s);
      case YieldOp =>
        YieldStep(s);
      case DelayOp(n) =>
        DelayStep(s, n);
    }
  }

  lemma TickStep(s: Sys)
    requires Inv(s) && Possible(s, TickOp)
    ensures Inv(After(s, TickOp))
    ensures NoneOverdue(After(s, TickOp).k) && After(s, TickOp).k.tick == s.k.tick + 1
  {
    hide Pick, Schedule;
    var tick := s.k.tick + 1;
    var woken := s.k.(tick := tick, tasks := WakeAll(s.k.tasks, tick));
    assert forall i :: 0 <= i < |s.hist| ==> TimesOk(woken.tasks[i], s.hist[i]);
    if AnyDue(s.k.tasks, tick) {
      ScheduleKeepsTimes(woken);
      ScheduleKeepsStats(woken);
      KeepTimesOk(woken.tasks, Schedule(woken).tasks, s.hist);
      forall i | 0 <= i < |woken.tasks|
        ensures var t := Schedule(woken).tasks[i];
                (t.state == Waiting ==> tick < t.arrival) && (t.state == Delayed ==> tick < t.wakeup)
      {
        assert TimesOf(Schedule(woken).tasks[i]) == TimesOf(woken.tasks[i]);
      }
    } else {
      assert woken.tasks == s.k.tasks;
      assert forall i :: 0 <= i < |s.k.tasks| ==> !Due(s.k.tasks[i], tick);
    }
  }

  lemma KeepTimesOk(a: seq<TaskRec>, b: seq<TaskRec>, hist: seq<History>)
    requires SameTimes(b, a) && |hist| == |a|
    requires forall i :: 0 <= i < |hist| ==> TimesOk(a[i], hist[i])
    ensures forall i :: 0 <= i < |hist| ==> TimesOk(b[i], hist[i])
  {
    forall i | 0 <= i < |hist| ensures TimesOk(b[i], hist[i]) {
      assert TimesOf(b[i]) == TimesOf(a[i]) && TimesOk(a[i], hist[i]);
    }
  }

  lemma YieldStep(s: Sys)
    requires Inv(s) && Possible(s, YieldOp)
    ensures Inv(After(s, YieldOp))
  {
    hide Pick, Schedule;
    var c, s' := s.k.current, After(s, YieldOp);
    var k := s.k.(tasks := s.k.tasks[c := Yielded(s.k.tasks[c])]);
    YieldedTimes(s.k.tasks[c], s.hist[c]);
    ScheduleKeepsTimes(k);
    ScheduleKeepsStats(k);
    hide TimesOk, Yielded;
    assert forall i :: 0 <= i < |s.hist| ==> TimesOk(s.k.tasks[i], s.hist[i]);
    KeepTimesOk(k.tasks, Schedule(k).tasks, s'.hist);
  }

  lemma YieldedTimes(t: TaskRec, h: History)
    requires TimesOk(t, h) && t.period > 0 && t.deadline + t.period < FOREVER && t.arrival + t.period < FOREVER
    ensures TimesOk(Yielded(t), h.(periods := h.periods + 1))
  {
    OneMore(h.periods, t.period);
  }

  lemma DelayStep(s: Sys, n: nat)
    requires Inv(s) && Possible(s, DelayOp(n))
    ensures Inv(After(s, DelayOp(n)))
  {
    hide Pick, Schedule;
    if n > 0 {
      var c := s.k.current;
      var k := s.k.(tasks := s.k.tasks[c := s.k.tasks[c].(wakeup := U32(s.k.tick + n), state := Delayed)]);
      assert TimesOk(s.k.tasks[c], s.hist[c]);
      ScheduleKeepsTimes(k);
      ScheduleKeepsStats(k);
      KeepTimesOk(k.tasks, Schedule(k).tasks, s.hist);
    }
  }

  // ----- whole runs -----

  predicate Happens(s: Sys, op: Op, s': Sys) { Possible(s, op) && s' == After(s, op) }

  ghost predicate RunOf(ss: seq<Sys>, ops: seq<Op>) {
    && |ss| == |ops| + 1
    && forall i, j :: 0 <= i < |ops| && j == i + 1 ==> Happens(ss[i], ops[i], ss[j])
  }

  /** The state after initialisation. */
  function Booted(): Sys {
    Sys(KState([NewTask(0, 0, FOREVER)], NONE, NONE, 0, false), [History(0, FOREVER, 0)])
  }

  /**
   In every state of every run from boot: once started, the task to run is the
   earliest-deadline task; every periodic task has the arrival and deadline its
   creation and its yields call for; and no tick ends with anybody overdue.
   */
  lemma {:induction false} SchedulerOverRuns(ss: seq<Sys>, ops: seq<Op>, n: nat)
    requires RunOf(ss, ops) && ss[0] == Booted() && n < |ss|
    ensures Inv(ss[n])
    ensures ss[n].k.started ==> ss[n].k.next >= 0 && EarliestDeadline(ss[n].k.tasks, ss[n].k.next)
    ensures n > 0 && ops[n - 1] == TickOp ==> NoneOverdue(ss[n].k)
    decreases n
  {
    hide NoneOverdue, After, Possible, EarliestDeadline;
    if n == 0 {
    } else {
      SchedulerOverRuns(ss, ops, n - 1);
      assert Happens(ss[n - 1], ops[n - 1], ss[n]);
      StepKeepsInv(ss[n - 1], ops[n - 1]);
    }
    if ss[n].k.started {
      PickIsEarliest(ss[n].k.tasks, ss[n].k.next);
    }
  }

  /**
   A task without a period is never run, in any run from boot: its deadline is the one
   that the scan takes for none. Only the idle task runs for want of another.
   */
  lemma OneShotNeverRuns(ss: seq<Sys>, ops: seq<Op>, n: nat)
    requires RunOf(ss, ops) && ss[0] == Booted() && n < |ss| && ss[n].k.started
    ensures 0 <= ss[n].k.current < |ss[n].k.tasks|
    ensures ss[n].k.current == 0 || ss[n].k.tasks[ss[n].k.current].period > 0
  {
    hide Happens, NoneOverdue;
    SchedulerOverRuns(ss, ops, n);
    var k, c := ss[n].k, ss[n].k.current;
    assert TimesOk(k.tasks[c], ss[n].hist[c]);
    PickIsEarliest(k.tasks, c);
  }

  /** The history of a task stays, but for its yields, and tasks keep their places. */
  lemma HistoryStays(s: Sys, op: Op, x: nat)
    requires Inv(s) && Possible(s, op) && x < |s.k.tasks|
    ensures var s' := After(s, op);
            && x < |s'.k.tasks| == |s'.hist| && s'.k.tasks[x].period == s.k.tasks[x].period
            && s'.hist[x].created == s.hist[x].created && s'.hist[x].relative == s.hist[x].relative
  {
    hide Pick, Best;
  }

  /**
   A task has the period that its create call named, and, if that is not zero, the
   arrival and deadline of its first period start at the tick of that call; each yield
   moves both on by the period.
   */
  lemma {:induction false} TaskAsAsked(ss: seq<Sys>, ops: seq<Op>, i: nat, n: nat)
    requires RunOf(ss, ops) && ss[0] == Booted() && i < n < |ss| && ops[i].CreateOp?
    ensures var x := |ss[i].k.tasks|;
            && x < |ss[n].k.tasks| == |ss[n].hist|
            && var t, h := ss[n].k.tasks[x], ss[n].hist[x];
            && t.period == ops[i].period
            && h.created == ss[i].k.tick && h.relative == ops[i].relative
            && (t.period > 0 ==>
                  && t.arrival == ss[i].k.tick + h.periods * ops[i].period
                  && t.deadline == t.arrival + ops[i].relative)
    decreases n
  {
    hide Inv, Pick, Best;
    var x := |ss[i].k.tasks|;
    SchedulerOverRuns(ss, ops, n - 1);
    SchedulerOverRuns(ss, ops, n);
    assert Happens(ss[n - 1], ops[n - 1], ss[n]);
    if n == i + 1 {
      InvTimes(ss[n], x);
    } else {
      TaskAsAsked(ss, ops, i, n - 1);
      hide After, Possible;
      HistoryStays(ss[n - 1], ops[n - 1], x);
      InvTimes(ss[n], x);
    }
  }

  lemma InvTimes(s: Sys, x: nat)
    requires Inv(s) && x < |s.k.tasks|
    ensures |s.hist| == |s.k.tasks| && TimesOk(s.k.tasks[x], s.hist[x])
  {
  }

  // ----- how long a task is away -----

  /** Task `c` is off until tick `until`: delayed, or waiting for its next arrival. */
  ghost predicate Away(k: KState, c: nat, until: nat) {
    && c < |k.tasks|
    && ((k.tasks[c].state == Delayed && k.tasks[c].wakeup == until)
        || (k.tasks[c].state == Waiting && k.tasks[c].arrival == until))
  }

  /** The pick is ready or the idle task. */
  lemma NotPicked(ts: seq<TaskRec>, c: nat)
    requires 0 < c < |ts| && ts[c].state != Ready
    ensures Pick(ts) != c
  {
    PickIsEarliest(ts, Pick(ts));
  }

  lemma OthersKeepTimes(k: KState, c: nat, t: TaskRec)
    requires StateOk(k) && k.current != NONE && c < |k.tasks| && c != k.current
    ensures var r := Schedule(k.(tasks := k.tasks[k.current := t]));
            && |r.tasks| == |k.tasks| && TimesOf(r.tasks[c]) == TimesOf(k.tasks[c])
            && r.started == k.started && r.tick == k.tick
  {
    hide Pick, Schedule;
    ScheduleKeepsTimes(k.(tasks := k.tasks[k.current := t]));
  }

  lemma TickAway(s: Sys, c: nat, until: nat)
    requires Inv(s) && Possible(s, TickOp) && Away(s.k, c, until)
    ensures var k' := After(s, TickOp).k;
            && k'.started && c < |k'.tasks| && k'.tick == s.k.tick + 1
            && if k'.tick >= until then k'.tasks[c].state == Ready else Away(k', c, until)
  {
    hide Pick, Schedule;
    var tick := s.k.tick + 1;
    var woken := s.k.(tick := tick, tasks := WakeAll(s.k.tasks, tick));
    ScheduleKeepsTimes(woken);
    assert TimesOf(Schedule(woken).tasks[c]) == TimesOf(woken.tasks[c]);
    assert Due(s.k.tasks[c], tick) <==> tick >= until;
    assert tick >= until ==> AnyDue(s.k.tasks, tick);
  }

  /** A task that is off does not run, and only the tick at which it is due changes that. */
  lemma StepAway(s: Sys, op: Op, c: nat, until: nat)
    requires Inv(s) && Possible(s, op) && s.k.started && 0 < c && Away(s.k, c, until)
    ensures var k' := After(s, op).k;
            && k'.started && c < |k'.tasks|
            && (if op == TickOp && k'.tick >= until then k'.tasks[c].state == Ready else Away(k', c, until))
            && k'.tick == if op == TickOp then s.k.tick + 1 else s.k.tick
  {
    hide Pick, Schedule;
    NotPicked(s.k.tasks, c);
    if op == TickOp {
      TickAway(s, c, until);
    } else if op == YieldOp {
      OthersKeepTimes(s.k, c, Yielded(s.k.tasks[s.k.current]));
    } else if op.DelayOp? && op.ticks > 0 {
      OthersKeepTimes(s.k, c, s.k.tasks[s.k.current].(wakeup := U32(s.k.tick + op.ticks), state := Delayed));
    }
  }

  lemma {:induction false} AwayOverRuns(ss: seq<Sys>, ops: seq<Op>, i: nat, j: nat, c: nat, until: nat)
    requires RunOf(ss, ops) && ss[0] == Booted() && i <= j < |ss| && 0 < c && ss[i].k.started && Away(ss[i].k, c, until)
    requires forall m :: i < m <= j && ops[m - 1] == TickOp ==> ss[m].k.tick < until
    ensures ss[j].k.started && Away(ss[j].k, c, until) && ss[j].k.current != c
    ensures ss[i].k.tick <= ss[j].k.tick
    decreases j
  {
    hide After, Possible, Away, Inv;
    SchedulerOverRuns(ss, ops, j);
    if j > i {
      AwayOverRuns(ss, ops, i, j - 1, c, until);
      SchedulerOverRuns(ss, ops, j - 1);
      assert Happens(ss[j - 1], ops[j - 1], ss[j]);
      StepAway(ss[j - 1], ops[j - 1], c, until);
    }
    AwayFacts(ss[j], c, until);
  }

  lemma AwayFacts(s: Sys, c: nat, until: nat)
    requires Inv(s) && s.k.started && 0 < c && Away(s.k, c, until)
    ensures c < |s.k.tasks| && s.k.tasks[c].state != Ready && s.k.current != c
  {
    NotPicked(s.k.tasks, c);
  }

  /** What the step to state `j` does to a task that is off, when no tick before it was late enough. */
  lemma FirstTickWakes(ss: seq<Sys>, ops: seq<Op>, i: nat, j: nat, c: nat, until: nat)
    requires RunOf(ss, ops) && ss[0] == Booted() && i <= j < |ss| && 0 < c && ss[i].k.started && Away(ss[i].k, c, until)
    requires forall m :: i < m < j && ops[m - 1] == TickOp ==> ss[m].k.tick < until
    ensures c < |ss[j].k.tasks|
    ensures if i < j && ops[j - 1] == TickOp && ss[j].k.tick >= until then ss[j].k.tasks[c].state == Ready
            else ss[j].k.tasks[c].state != Ready && ss[j].k.current != c
  {
    hide After, Possible, Inv, Away;
    if i < j && ops[j - 1] == TickOp && ss[j].k.tick >= until {
      AwayOverRuns(ss, ops, i, j - 1, c, until);
      SchedulerOverRuns(ss, ops, j - 1);
      assert Happens(ss[j - 1], ops[j - 1], ss[j]);
      StepAway(ss[j - 1], ops[j - 1], c, until);
    } else {
      AwayOverRuns(ss, ops, i, j, c, until);
      SchedulerOverRuns(ss, ops, j);
      AwayFacts(ss[j], c, until);
    }
  }

  /** Time does not go back, and a tick adds one. */
  lemma {:induction false} TicksGrow(ss: seq<Sys>, ops: seq<Op>, m: nat, j: nat)
    requires RunOf(ss, ops) && ss[0] == Booted() && m <= j < |ss|
    ensures ss[m].k.tick + (if m < j && ops[j - 1] == TickOp then 1 else 0) <= ss[j].k.tick
    decreases j
  {
    hide Possible, After, Inv;
    if m < j {
      TicksGrow(ss, ops, m, j - 1);
      SchedulerOverRuns(ss, ops, j - 1);
      assert Happens(ss[j - 1], ops[j - 1], ss[j]);
      StepTick(ss[j - 1], ops[j - 1]);
    }
  }

  lemma StepTick(s: Sys, op: Op)
    requires Inv(s) && Possible(s, op)
    ensures After(s, op).k.tick == s.k.tick + if op == TickOp then 1 else 0
  {
    hide Pick;
  }

  lemma DelayStarts(s: Sys, n: nat)
    requires Inv(s) && Possible(s, DelayOp(n)) && n > 0
    ensures var c, k' := s.k.current, After(s, DelayOp(n)).k;
            s.k.started && c >= 0 && k'.started && k'.tick == s.k.tick && Away(k', c, s.k.tick + n)
  {
    hide Pick, Schedule;
    var c := s.k.current;
    var k := s.k.(tasks := s.k.tasks[c := s.k.tasks[c].(wakeup := U32(s.k.tick + n), state := Delayed)]);
    ScheduleKeepsTimes(k);
    assert TimesOf(Schedule(k).tasks[c]) == TimesOf(k.tasks[c]);
  }

  lemma YieldStarts(s: Sys)
    requires Inv(s) && Possible(s, YieldOp)
    ensures var c, k' := s.k.current, After(s, YieldOp).k;
            && s.k.started && c >= 0 && k'.started && k'.tick == s.k.tick
            && Away(k', c, s.k.tasks[c].arrival + s.k.tasks[c].period)
  {
    hide Pick, Schedule;
    var c := s.k.current;
    var k := s.k.(tasks := s.k.tasks[c := Yielded(s.k.tasks[c])]);
    ScheduleKeepsTimes(k);
    assert TimesOf(Schedule(k).tasks[c]) == TimesOf(k.tasks[c]);
  }

  /** The idle task has no period: it is the first one, in every state from boot. */
  lemma {:induction false} IdleIsFirst(ss: seq<Sys>, ops: seq<Op>, n: nat)
    requires RunOf(ss, ops) && ss[0] == Booted() && n < |ss|
    ensures |ss[n].k.tasks| > 0 && ss[n].k.tasks[0].period == 0
    decreases n
  {
    hide Possible, After, Inv;
    if n > 0 {
      IdleIsFirst(ss, ops, n - 1);
      SchedulerOverRuns(ss, ops, n - 1);
      assert Happens(ss[n - 1], ops[n - 1], ss[n]);
      HistoryStays(ss[n - 1], ops[n - 1], 0);
    }
  }

  /**
   A task that calls the delay for `n` ticks at tick `s` is not ready and does not run in
   any state before tick `s + n`, and is ready after the tick that makes the time `s + n`.
   */
  lemma DelayLasts(ss: seq<Sys>, ops: seq<Op>, i: nat, j: nat, n: nat)
    requires RunOf(ss, ops) && ss[0] == Booted() && i < j < |ss| && ops[i] == DelayOp(n) && n > 0
    ensures var until, c := ss[i].k.tick + n, ss[i].k.current;
            && (ss[j].k.tick < until ==>
                  0 <= c < |ss[j].k.tasks| && ss[j].k.tasks[c].state != Ready && ss[j].k.current != c)
            && (ss[j].k.tick == until && ops[j - 1] == TickOp ==>
                  0 <= c < |ss[j].k.tasks| && ss[j].k.tasks[c].state == Ready)
  {
    hide After, Possible, Inv, Away;
    SchedulerOverRuns(ss, ops, i);
    IdleIsFirst(ss, ops, i);
    assert Happens(ss[i], ops[i], ss[i + 1]);
    DelayStarts(ss[i], n);
    var until, c := ss[i].k.tick + n, ss[i].k.current;
    CallerIsPeriodic(ss[i], ops[i]);
    if ss[j].k.tick < until || (ss[j].k.tick == until && ops[j - 1] == TickOp) {
      forall m | i + 1 < m < j && ops[m - 1] == TickOp ensures ss[m].k.tick < until {
        TicksGrow(ss, ops, m, j);
      }
      FirstTickWakes(ss, ops, i + 1, j, c, until);
    }
  }

  lemma CallerIsPeriodic(s: Sys, op: Op)
    requires Inv(s) && Possible(s, op) && (op == YieldOp || op.DelayOp?) && s.k.tasks[0].period == 0
    ensures 0 < s.k.current < |s.k.tasks| && s.k.tasks[s.k.current].period > 0
  {
  }

  /**
   A task that is done with its period is not ready and does not run until its next
   arrival, which lies a whole number of periods after its creation, and is ready after
   the first tick from then on.
   */
  lemma YieldLasts(ss: seq<Sys>, ops: seq<Op>, i: nat, j: nat)
    requires RunOf(ss, ops) && ss[0] == Booted() && i < j < |ss| && ops[i] == YieldOp
    ensures |ss[i].hist| == |ss[i].k.tasks| && 0 < ss[i].k.current < |ss[i].k.tasks|
    ensures var c := ss[i].k.current;
            var h := ss[i].hist[c];
            var until := h.created + (h.periods + 1) * ss[i].k.tasks[c].period;
            (forall m :: i < m < j && ops[m - 1] == TickOp ==> ss[m].k.tick < until) ==>
              && c < |ss[j].k.tasks|
              && if ops[j - 1] == TickOp && ss[j].k.tick >= until then ss[j].k.tasks[c].state == Ready
                 else ss[j].k.tasks[c].state != Ready && ss[j].k.current != c
  {
    hide After, Possible, Inv, Away;
    SchedulerOverRuns(ss, ops, i);
    IdleIsFirst(ss, ops, i);
    assert Happens(ss[i], ops[i], ss[i + 1]);
    YieldStarts(ss[i]);
    CallerIsPeriodic(ss[i], ops[i]);
    var c := ss[i].k.current;
    ArrivalOf(ss[i], c);
    var h := ss[i].hist[c];
    var until := h.created + (h.periods + 1) * ss[i].k.tasks[c].period;
    if forall m :: i < m < j && ops[m - 1] == TickOp ==> ss[m].k.tick < until {
      FirstTickWakes(ss, ops, i + 1, j, c, until);
    }
  }

  lemma ArrivalOf(s: Sys, c: nat)
    requires Inv(s) && c < |s.k.tasks| && s.k.tasks[c].period > 0
    ensures |s.hist| == |s.k.tasks|
    ensures var h, t := s.hist[c], s.k.tasks[c]; t.arrival + t.period == h.created + (h.periods + 1) * t.period
  {
    assert TimesOk(s.k.tasks[c], s.hist[c]);
  }

  // ----- the statistics -----

  datatype Stats = Stats(start: nat, last: nat, avg: nat, max: nat, misses: nat, switches: nat)

  function StatsOf(t: TaskRec): Stats {
    Stats(t.execStart, t.lastExec, t.avgExec, t.maxExec, t.misses, t.switches)
  }

  const NO_STATS := Stats(0, 0, 0, 0, 0, 0)

  /** What one step adds to what has been seen of task `x`, by who runs before and after it. */
  function Seen(w: Stats, k: KState, k': KState, x: nat): Stats {
    if !k.started || k'.current == k.current then w
    else if x == k.current then
      var ran := U32(k'.tick - w.start);
      var late := x < |k'.tasks| && k'.tasks[x].period > 0 && k'.tick > k'.tasks[x].deadline;
      Stats(w.start, ran, if w.avg == 0 then ran else U32(ran + 7 * w.avg) / 8, if ran > w.max then ran else w.max,
            w.misses + (if late then 1 else 0), w.switches + 1)
    else if x == k'.current then w.(start := k'.tick)
    else w
  }

  /** What an observer of the running task has seen of task `x` after `n` steps. */
  function Watched(ss: seq<Sys>, n: nat, x: nat): Stats
    requires n < |ss|
  {
    if n == 0 then NO_STATS else Seen(Watched(ss, n - 1, x), ss[n - 1].k, ss[n].k, x)
  }

  /** A decision records exactly the switch it leads to. */
  lemma ScheduleRecords(k: KState, x: nat)
    requires StateOk(k) && x < |k.tasks| && (k.started ==> k.current != NONE)
    ensures var r := Switch(Schedule(k));
            |r.tasks| == |k.tasks| && StatsOf(r.tasks[x]) == Seen(StatsOf(k.tasks[x]), k, r, x)
  {
    hide Pick, Average;
    AverageIs(k.tasks[x].avgExec, U32(k.tick - k.tasks[x].execStart));
  }

  lemma AverageIs(avg: nat, sample: nat)
    ensures Average(avg, sample) == if avg == 0 then sample else U32(sample + 7 * avg) / 8
  {
  }

  lemma StepSeen(s: Sys, op: Op, x: nat)
    requires Inv(s) && Possible(s, op) && x < |s.k.tasks|
    ensures var k' := After(s, op).k;
            x < |k'.tasks| && StatsOf(k'.tasks[x]) == Seen(StatsOf(s.k.tasks[x]), s.k, k', x)
  {
    hide Pick, Schedule, Seen;
    var k := s.k;
    match op {
      case CreateOp(p, r) => SeenNothing(StatsOf(k.tasks[x]), k, After(s, op).k, x);
      case StartOp => StartRecordsNothing(k, x);
      case TickOp => TickRecords(k, x);
      case YieldOp => OneChanged(k, Yielded(k.tasks[k.current]), x);
      case DelayOp(n) =>
        if n == 0 {
          SeenNothing(StatsOf(k.tasks[x]), k, After(s, op).k, x);
        } else {
          OneChanged(k, k.tasks[k.current].(wakeup := U32(k.tick + n), state := Delayed), x);
        }
    }
  }

  lemma TickRecords(k: KState, x: nat)
    requires StateOk(k) && x < |k.tasks| && k.started && k.current != NONE && k.next == k.current
    ensures var r := Switch(Tick(k));
            x < |r.tasks| && StatsOf(r.tasks[x]) == Seen(StatsOf(k.tasks[x]), k, r, x)
  {
    hide Pick, Schedule, Seen, Due;
    var tick := U32(k.tick + 1);
    var woken := k.(tick := tick, tasks := WakeAll(k.tasks, tick));
    assert StatsOf(woken.tasks[x]) == StatsOf(k.tasks[x]);
    if AnyDue(k.tasks, tick) {
      ScheduleRecords(woken, x);
      SameSeen(StatsOf(k.tasks[x]), k, woken, Switch(Schedule(woken)), x);
    } else {
      SeenNothing(StatsOf(k.tasks[x]), k, Switch(woken), x);
    }
  }

  lemma SeenNothing(w: Stats, k: KState, k': KState, x: nat)
    requires !k.started || k'.current == k.current
    ensures Seen(w, k, k', x) == w
  {
  }

  lemma SameSeen(w: Stats, k: KState, l: KState, k': KState, x: nat)
    requires l.started == k.started && l.current == k.current
    ensures Seen(w, k, k', x) == Seen(w, l, k', x)
  {
  }

  lemma StartRecordsNothing(k: KState, x: nat)
    requires StateOk(k) && !k.started && k.current == NONE && x < |k.tasks|
    ensures x < |Start(k).tasks| && StatsOf(Start(k).tasks[x]) == Seen(StatsOf(k.tasks[x]), k, Start(k), x)
  {
    hide Pick;
  }

  lemma OneChanged(k: KState, t: TaskRec, x: nat)
    requires StateOk(k) && k.started && k.current != NONE && x < |k.tasks|
    requires StatsOf(t) == StatsOf(k.tasks[k.current])
    ensures var r := Switch(Schedule(k.(tasks := k.tasks[k.current := t])));
            x < |r.tasks| && StatsOf(r.tasks[x]) == Seen(StatsOf(k.tasks[x]), k, r, x)
  {
    hide Pick, Schedule, Seen;
    var l := k.(tasks := k.tasks[k.current := t]);
    ScheduleRecords(l, x);
    SameSeen(StatsOf(k.tasks[x]), k, l, Switch(Schedule(l)), x);
  }

  /** A task that is not there yet has not been seen to run. */
  lemma StepNewTask(s: Sys, op: Op, x: nat)
    requires Inv(s) && Possible(s, op) && x >= |s.k.tasks|
    ensures Seen(NO_STATS, s.k, After(s, op).k, x) == NO_STATS
    ensures var k' := After(s, op).k; x < |k'.tasks| ==> StatsOf(k'.tasks[x]) == NO_STATS
  {
    hide Pick, Best;
  }

  /**
   The statistics of every task are what an observer of the running task sees, in every
   state of every run from boot: how long the task ran last, at most and on the moving
   average, how often it was switched out, and how often later than its deadline.
   */
  lemma {:induction false} StatsOverRuns(ss: seq<Sys>, ops: seq<Op>, n: nat, x: nat)
    requires RunOf(ss, ops) && ss[0] == Booted() && n < |ss|
    ensures if x < |ss[n].k.tasks| then StatsOf(ss[n].k.tasks[x]) == Watched(ss, n, x)
            else Watched(ss, n, x) == NO_STATS
    decreases n
  {
    hide Possible, After, Inv, Seen;
    if n > 0 {
      StatsOverRuns(ss, ops, n - 1, x);
      SchedulerOverRuns(ss, ops, n - 1);
      assert Happens(ss[n - 1], ops[n - 1], ss[n]);
      if x < |ss[n - 1].k.tasks| {
        StepSeen(ss[n - 1], ops[n - 1], x);
      } else {
        StepNewTask(ss[n - 1], ops[n - 1], x);
      }
    }
  }

  // ----- the average execution time -----

  /** Under a constant sample the average moves, unless it is within seven below the sample, and never past it. */
  lemma EmaStep(avg: nat, c: nat)
    requires 8 * avg < 0x1_0000_0000 && 8 * c < 0x1_0000_0000
    ensures Average(avg, c) == avg <==> avg <= c && (c - avg <= 7 && (avg == 0 ==> c == 0))
    ensures avg > c ==> c <= Average(avg, c) < avg
    ensures avg < c && Average(avg, c) != avg ==> avg < Average(avg, c) <= c
  {
  }

  function Repeat(avg: nat, c: nat, n: nat): nat {
    if n == 0 then avg else Average(Repeat(avg, c, n - 1), c)
  }

  function Distance(a: nat, b: nat): nat { if a < b then b - a else a - b }

  /**
   Under a constant sample the average reaches the band of seven below the sample in
   at most as many steps as it is away, from above all the way down to the sample,
   and stays there.
   */
  lemma {:induction false} EmaConverges(avg: nat, c: nat, n: nat)
    requires 8 * avg < 0x1_0000_0000 && 8 * c < 0x1_0000_0000
    requires n >= Distance(avg, c)
    ensures c <= Repeat(avg, c, n) + 7 && Repeat(avg, c, n) <= c
    ensures avg >= c ==> Repeat(avg, c, n) == c
    decreases n
  {
    if n > 0 {
      RepeatFirst(avg, c, n - 1);
      EmaStep(avg, c);
      if Average(avg, c) == avg {
        RepeatFixed(avg, c, n);
      } else {
        EmaConverges(Average(avg, c), c, n - 1);
        if avg >= c { assert Average(avg, c) >= c; }
      }
    }
  }

  lemma {:induction false} RepeatFirst(avg: nat, c: nat, n: nat)
    ensures Repeat(avg, c, n + 1) == Repeat(Average(avg, c), c, n)
  {
    if n > 0 {
      RepeatFirst(avg, c, n - 1);
    }
  }

  lemma {:induction false} RepeatFixed(avg: nat, c: nat, n: nat)
    requires Average(avg, c) == avg
    ensures Repeat(avg, c, n) == avg
  {
    if n > 0 {
      RepeatFixed(avg, c, n - 1);
    }
  }
}
