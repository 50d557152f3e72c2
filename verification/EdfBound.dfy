/**
 The utilisation bound of earliest-deadline-first scheduling, for the scheduler's own
 steps: if the shares of all periodic tasks add up to at most one, every job yields
 before the tick of its deadline, in every run.

 Time is the tick count plus the phase of the current tick interval. Processor time
 passes for the current task only; `used` is what each task's current job has
 consumed, `need` what a job of the task may consume at most.
 */
module EdfBound {
  import opened Arithmetic
  import opened SchedulerSpec

  datatype Sys = Sys(k: KState, phase: real, used: seq<real>)

  datatype Event = Run(d: real) | YieldCall | TickIrq

  function Now(s: Sys): real { (s.k.tick as real) + s.phase }

  /** The current task is a job, not the idle task. */
  predicate JobRuns(s: Sys) {
    0 <= s.k.current < |s.k.tasks| && s.k.tasks[s.k.current].period > 0
  }

  /**
   When an event can happen. Time passes up to the next tick, and a job never gets
   more than it needs; a job that has used up its need has yielded before the tick
   comes. Tick and deadline counters do not wrap.
   */
  predicate Possible(s: Sys, need: seq<real>, e: Event) {
    StateOk(s.k) && |s.used| == |need| == |s.k.tasks|
    && match e {
         case Run(d) =>
           d > 0.0 && s.phase + d <= 1.0 && (JobRuns(s) ==> s.used[s.k.current] + d <= need[s.k.current])
         case YieldCall =>
           JobRuns(s) && s.k.tasks[s.k.current].deadline + s.k.tasks[s.k.current].period < FOREVER
         case TickIrq =>
           s.phase == 1.0 && s.k.tick + 1 < FOREVER && (JobRuns(s) ==> s.used[s.k.current] < need[s.k.current])
       }
  }

  /** What it does. A scheduling decision takes effect at once. */
  function After(s: Sys, need: seq<real>, e: Event): Sys
    requires Possible(s, need, e)
  {
    match e
    case Run(d) =>
      var used := if JobRuns(s) then s.used[s.k.current := s.used[s.k.current] + d] else s.used;
      s.(phase := s.phase + d, used := used)
    case YieldCall => Sys(Switch(Yield(s.k)), s.phase, s.used[s.k.current := 0.0])
    case TickIrq => Sys(Switch(Tick(s.k)), 0.0, s.used)
  }

  // ----- demand -----

  /** The share of the processor a task asks for. */
  function Share(t: TaskRec, c: real): real {
    if t.period == 0 then 0.0 else c / (t.period as real)
  }

  function Utilisation(ts: seq<TaskRec>, need: seq<real>, n: nat): real
    requires n <= |ts| && n <= |need|
  {
    if n == 0 then 0.0 else Utilisation(ts, need, n - 1) + Share(ts[n - 1], need[n - 1])
  }

  /** What a task may still ask for up to `d`: the rest of its current or next job, and every later job due by then. */
  function Term(t: TaskRec, u: real, c: real, d: nat): real {
    if t.period == 0 || t.deadline > d then 0.0
    else (c - u) + Jobs(d - t.deadline, t.period, c)
  }

  /** What whole periods `p` within `x` can ask for. */
  function Jobs(x: nat, p: nat, c: real): real
    requires p > 0
  {
    (x / p) as real * c
  }

  function Demand(ts: seq<TaskRec>, used: seq<real>, need: seq<real>, d: nat, n: nat): real
    requires n <= |ts| && n <= |used| && n <= |need|
  {
    if n == 0 then 0.0 else Demand(ts, used, need, d, n - 1) + Term(ts[n - 1], used[n - 1], need[n - 1], d)
  }

  // ----- the invariant -----

  /** A task of the set at `tick`: idle and one-shot tasks never have a deadline, periodic ones keep theirs. */
  ghost predicate TaskOk(t: TaskRec, u: real, c: real, tick: nat) {
    && 0.0 <= u <= c
    && (t.period == 0 ==> t.deadline == FOREVER)
    && (t.period > 0 ==>
          && t.deadline < FOREVER && t.deadline == t.arrival + t.period
          && (t.state == Ready || t.state == Waiting)
          && (t.state == Ready ==> t.arrival <= tick < t.deadline)
          && (t.state == Waiting ==> u == 0.0 && tick < t.arrival))
  }

  ghost predicate Good(s: Sys, need: seq<real>) {
    && StateOk(s.k) && s.k.started
    && s.k.current == s.k.next == Pick(s.k.tasks)
    && s.k.tasks[0].period == 0
    && 0.0 <= s.phase <= 1.0 && s.k.tick < FOREVER
    && |s.used| == |need| == |s.k.tasks|
    && (forall i :: 0 <= i < |need| ==> TaskOk(s.k.tasks[i], s.used[i], need[i], s.k.tick))
    && Utilisation(s.k.tasks, need, |need|) <= 1.0
  }

  /** At every date, no more is asked for than there is time until then. */
  ghost predicate Feasible(s: Sys, need: seq<real>)
    requires Good(s, need)
  {
    forall d: nat :: d as real >= Now(s) ==> Demand(s.k.tasks, s.used, need, d, |need|) <= d as real - Now(s)
  }

  // ----- sums -----

  lemma TermNonneg(t: TaskRec, u: real, c: real, d: nat)
    requires 0.0 <= u <= c
    ensures Term(t, u, c, d) >= 0.0
  {
    if t.period > 0 && t.deadline <= d {
      var k := ((d - t.deadline) / t.period) as real;
      assert k >= 0.0 && k * c >= 0.0;
    }
  }

  lemma {:induction false} DemandChange(ts: seq<TaskRec>, used: seq<real>, ts': seq<TaskRec>, used': seq<real>,
                                        need: seq<real>, d: nat, c: nat, n: nat)
    requires n <= |ts| == |ts'| == |used| == |used'| == |need| && c < |ts|
    requires forall i :: 0 <= i < n && i != c ==> Term(ts'[i], used'[i], need[i], d) == Term(ts[i], used[i], need[i], d)
    ensures Demand(ts', used', need, d, n) == Demand(ts, used, need, d, n)
              + if c < n then Term(ts'[c], used'[c], need[c], d) - Term(ts[c], used[c], need[c], d) else 0.0
  {
    if n > 0 {
      DemandChange(ts, used, ts', used', need, d, c, n - 1);
    }
  }

  /** Every task's part is at least as small as the whole. */
  lemma {:induction false} TermInDemand(ts: seq<TaskRec>, used: seq<real>, need: seq<real>, d: nat, i: nat, n: nat)
    requires i < n <= |ts| == |used| == |need|
    requires forall j :: 0 <= j < n ==> 0.0 <= used[j] <= need[j]
    ensures 0.0 <= Term(ts[i], used[i], need[i], d) <= Demand(ts, used, need, d, n)
  {
    TermNonneg(ts[n - 1], used[n - 1], need[n - 1], d);
    if i < n - 1 {
      TermInDemand(ts, used, need, d, i, n - 1);
    } else {
      DemandNonneg(ts, used, need, d, n - 1);
    }
  }

  lemma {:induction false} DemandNonneg(ts: seq<TaskRec>, used: seq<real>, need: seq<real>, d: nat, n: nat)
    requires n <= |ts| == |used| == |need|
    requires forall j :: 0 <= j < n ==> 0.0 <= used[j] <= need[j]
    ensures Demand(ts, used, need, d, n) >= 0.0
  {
    if n > 0 {
      TermNonneg(ts[n - 1], used[n - 1], need[n - 1], d);
      DemandNonneg(ts, used, need, d, n - 1);
    }
  }

  /** If each task asks for at most its share of `x`, together they ask for at most the utilisation times `x`. */
  lemma {:induction false} DemandAtMost(ts: seq<TaskRec>, used: seq<real>, need: seq<real>, d: nat, x: real, n: nat)
    requires n <= |ts| == |used| == |need|
    requires forall i :: 0 <= i < n ==> Term(ts[i], used[i], need[i], d) <= x * Share(ts[i], need[i])
    ensures Demand(ts, used, need, d, n) <= x * Utilisation(ts, need, n)
  {
    if n > 0 {
      DemandAtMost(ts, used, need, d, x, n - 1);
      var a, b := Utilisation(ts, need, n - 1), Share(ts[n - 1], need[n - 1]);
      assert x * (a + b) == x * a + x * b;
    }
  }

  /** A task whose jobs all start at `from` or later asks for at most its share of the time from there. */
  lemma FutureTerm(t: TaskRec, c: real, d: nat, from: real)
    requires t.period > 0 && t.deadline == t.arrival + t.period && c >= 0.0
    requires from <= t.arrival as real && from <= d as real
    ensures Term(t, 0.0, c, d) <= (d as real - from) * Share(t, c)
  {
    var p := t.period as real;
    var share := c / p;
    assert share >= 0.0;
    assert c == share * p;
    if t.deadline <= d {
      var k := (d - t.deadline) / t.period;
      assert d - t.deadline >= k * t.period;
      assert (d - t.deadline) as real >= (k as real) * p;
      assert d as real - from >= (k as real + 1.0) * p;
      assert Term(t, 0.0, c, d) == (k as real + 1.0) * c == ((k as real + 1.0) * p) * share;
      MulMono((k as real + 1.0) * p, d as real - from, share);
    } else {
      MulMono(0.0, d as real - from, share);
    }
  }

  lemma MulMono(a: real, b: real, m: real)
    requires a <= b && m >= 0.0
    ensures a * m <= b * m
  {
  }

  // ----- time passes -----

  /** The running job is the one with the earliest deadline, and nothing runs only when nothing is ready. */
  lemma RunnerIsEarliest(s: Sys, need: seq<real>)
    requires Good(s, need)
    ensures JobRuns(s) ==> s.k.tasks[s.k.current].state == Ready
    ensures JobRuns(s) ==>
      forall i :: 0 <= i < |need| && s.k.tasks[i].period > 0 && s.k.tasks[i].state == Ready
        ==> s.k.tasks[s.k.current].deadline <= s.k.tasks[i].deadline
    ensures !JobRuns(s) ==> forall i :: 0 <= i < |need| && s.k.tasks[i].period > 0 ==> s.k.tasks[i].state == Waiting
  {
    hide Pick, Best;
    var ts := s.k.tasks;
    PickIsEarliest(ts, s.k.current);
    assert forall i :: 0 <= i < |ts| ==> TaskOk(ts[i], s.used[i], need[i], s.k.tick);
    if JobRuns(s) {
      assert Eligible(ts[s.k.current]);
    } else {
      forall i | 0 <= i < |ts| && ts[i].period > 0 ensures ts[i].state == Waiting {
        assert !Eligible(ts[s.k.current]);
        assert !Eligible(ts[i]);
      }
    }
  }

  /** Up to a date before every ready deadline, only later arrivals count, and they ask for no more than their share. */
  lemma IdleUpTo(s: Sys, need: seq<real>, used: seq<real>, d: nat, from: real)
    requires Good(s, need) && |used| == |need|
    requires from <= s.k.tick as real + 1.0 && from <= d as real
    requires forall i :: 0 <= i < |need| && s.k.tasks[i].state == Ready && s.k.tasks[i].period > 0 ==>
      s.k.tasks[i].deadline > d
    requires forall i :: 0 <= i < |need| && s.k.tasks[i].state == Waiting && s.k.tasks[i].period > 0 ==> used[i] == 0.0
    ensures Demand(s.k.tasks, used, need, d, |need|) <= d as real - from
  {
    hide Term, Share, TaskOk;
    var ts := s.k.tasks;
    var x := d as real - from;
    forall i | 0 <= i < |need| ensures Term(ts[i], used[i], need[i], d) <= x * Share(ts[i], need[i]) {
      assert TaskOk(ts[i], s.used[i], need[i], s.k.tick);
      LaterTerm(ts[i], s.used[i], used[i], need[i], s.k.tick, d, from);
    }
    DemandAtMost(ts, used, need, d, x, |need|);
    MulMono(Utilisation(ts, need, |need|), 1.0, x);
  }

  lemma LaterTerm(t: TaskRec, u0: real, u: real, c: real, tick: nat, d: nat, from: real)
    requires TaskOk(t, u0, c, tick) && from <= tick as real + 1.0 && from <= d as real
    requires t.period > 0 && t.state == Ready ==> t.deadline > d
    requires t.period > 0 && t.state == Waiting ==> u == 0.0
    ensures Term(t, u, c, d) <= (d as real - from) * Share(t, c)
  {
    if t.period > 0 {
      if t.state == Waiting {
        assert tick + 1 <= t.arrival;
        FutureTerm(t, c, d, from);
      } else {
        assert Share(t, c) >= 0.0;
        MulMono(0.0, d as real - from, Share(t, c));
      }
    }
  }

  lemma RunKeepsFeasible(s: Sys, need: seq<real>, d: real)
    requires Good(s, need) && Feasible(s, need) && Possible(s, need, Run(d))
    ensures Good(After(s, need, Run(d)), need) && Feasible(After(s, need, Run(d)), need)
  {
    hide Pick;
    var s' := After(s, need, Run(d));
    var ts, c := s.k.tasks, s.k.current;
    RunnerIsEarliest(s, need);
    assert Good(s', need) by {
      forall i | 0 <= i < |need| ensures TaskOk(ts[i], s'.used[i], need[i], s.k.tick) {
        assert TaskOk(ts[i], s.used[i], need[i], s.k.tick);
      }
    }
    forall e: nat | e as real >= Now(s') ensures Demand(ts, s'.used, need, e, |need|) <= e as real - Now(s') {
      if JobRuns(s) && ts[c].deadline <= e {
        DemandChange(ts, s.used, ts, s'.used, need, e, c, |need|);
      } else {
        forall i | 0 <= i < |need| && ts[i].state == Waiting && ts[i].period > 0 ensures s'.used[i] == 0.0 {
          assert TaskOk(ts[i], s.used[i], need[i], s.k.tick);
        }
        IdleUpTo(s, need, s'.used, e, Now(s'));
      }
    }
  }

  // ----- a job yields -----

  lemma YieldFacts(s: Sys, need: seq<real>)
    requires Good(s, need) && Possible(s, need, YieldCall)
    ensures var c, s' := s.k.current, After(s, need, YieldCall);
            && StateOk(s'.k) && s'.k.started && s'.k.tick == s.k.tick
            && s'.k.current == s'.k.next == Pick(s'.k.tasks) && |s'.k.tasks| == |s.k.tasks|
            && (forall i :: 0 <= i < |need| ==>
                  TimesOf(s'.k.tasks[i]) == TimesOf(if i == c then Yielded(s.k.tasks[c]) else s.k.tasks[i]))
  {
    var ts := s.k.tasks[s.k.current := Yielded(s.k.tasks[s.k.current])];
    ScheduleKeepsTimes(s.k.(tasks := ts));
  }

  lemma {:induction false} SameUtilisation(a: seq<TaskRec>, b: seq<TaskRec>, need: seq<real>, n: nat)
    requires n <= |a| == |b| == |need|
    requires forall i :: 0 <= i < |a| ==> a[i].period == b[i].period
    ensures Utilisation(a, need, n) == Utilisation(b, need, n)
  {
    if n > 0 {
      SameUtilisation(a, b, need, n - 1);
    }
  }

  /** Giving up the rest of a job and moving on to the next one never raises what a task asks for. */
  lemma YieldTerm(t: TaskRec, u: real, c: real, d: nat)
    requires t.period > 0 && 0.0 <= u <= c && t.deadline + t.period < FOREVER && t.arrival <= t.deadline
    ensures Term(Yielded(t), 0.0, c, d) <= Term(t, u, c, d)
  {
    hide Jobs;
    var d' := t.deadline + t.period;
    assert Yielded(t).deadline == d' && Yielded(t).period == t.period;
    if t.deadline <= d {
      var x := d - t.deadline;
      OneJobLess(x, t.period, c);
      JobsNonneg(x, t.period, c);
    }
  }

  lemma JobsNonneg(x: nat, p: nat, c: real)
    requires p > 0 && c >= 0.0
    ensures Jobs(x, p, c) >= 0.0
  {
    MulMono(0.0, (x / p) as real, c);
  }

  /** The jobs due within `x`, counted one at a time. */
  lemma OneJobLess(x: nat, p: nat, c: real)
    requires p > 0
    ensures x >= p ==> Jobs(x, p, c) == Jobs(x - p, p, c) + c
  {
    if x >= p {
      DivPlusOne(x - p, p);
      var k := (x - p) / p;
      assert (x / p) as real == k as real + 1.0;
    }
  }

  lemma YieldKeepsFeasible(s: Sys, need: seq<real>)
    requires Good(s, need) && Feasible(s, need) && Possible(s, need, YieldCall)
    ensures Good(After(s, need, YieldCall), need) && Feasible(After(s, need, YieldCall), need)
  {
    hide Pick, Schedule, Yield, Utilisation, Demand, Term, Yielded;
    var s' := After(s, need, YieldCall);
    var ts, ts', c := s.k.tasks, s'.k.tasks, s.k.current;
    RunnerIsEarliest(s, need);
    YieldFacts(s, need);
    forall i | 0 <= i < |need| ensures TaskOk(ts'[i], s'.used[i], need[i], s.k.tick) && ts'[i].period == ts[i].period {
      assert TaskOk(ts[i], s.used[i], need[i], s.k.tick);
      if i == c { YieldedOk(ts[i], s.used[i], need[i], s.k.tick); }
    }
    SameUtilisation(ts, ts', need, |need|);
    forall e: nat | e as real >= Now(s') ensures Demand(ts', s'.used, need, e, |need|) <= e as real - Now(s') {
      forall i | 0 <= i < |need| && i != c
        ensures Term(ts'[i], s'.used[i], need[i], e) == Term(ts[i], s.used[i], need[i], e)
      {
        SameTerm(ts[i], ts'[i], s.used[i], need[i], e);
      }
      SameTerm(Yielded(ts[c]), ts'[c], 0.0, need[c], e);
      assert TaskOk(ts[c], s.used[c], need[c], s.k.tick);
      YieldTerm(ts[c], s.used[c], need[c], e);
      DemandChange(ts, s.used, ts', s'.used, need, e, c, |need|);
    }
  }

  lemma SameTerm(t: TaskRec, t': TaskRec, u: real, c: real, d: nat)
    requires TimesOf(t) == TimesOf(t')
    ensures Term(t, u, c, d) == Term(t', u, c, d)
  {
  }

  lemma YieldedOk(t: TaskRec, u: real, c: real, tick: nat)
    requires TaskOk(t, u, c, tick) && t.period > 0 && t.state == Ready && t.deadline + t.period < FOREVER
    ensures TaskOk(Yielded(t), 0.0, c, tick) && Yielded(t).period == t.period
  {
  }

  // ----- the tick -----

  /** Before the tick no ready job is at its deadline: what is due by then has been consumed. */
  lemma NoneAtDeadline(s: Sys, need: seq<real>, i: nat)
    requires Good(s, need) && Feasible(s, need) && Possible(s, need, TickIrq)
    requires i < |need| && s.k.tasks[i].period > 0 && s.k.tasks[i].state == Ready
    ensures s.k.tick + 1 < s.k.tasks[i].deadline
  {
    hide Pick, Demand, Term;
    var ts, c, d := s.k.tasks, s.k.current, s.k.tick + 1;
    assert TaskOk(ts[i], s.used[i], need[i], s.k.tick);
    RunnerIsEarliest(s, need);
    assert d as real == Now(s);
    assert Demand(ts, s.used, need, d, |need|) <= 0.0;
    assert TaskOk(ts[c], s.used[c], need[c], s.k.tick);
    forall j | 0 <= j < |need| ensures 0.0 <= s.used[j] <= need[j] {
      assert TaskOk(ts[j], s.used[j], need[j], s.k.tick);
    }
    TermInDemand(ts, s.used, need, d, c, |need|);
    RestInTerm(ts[c], s.used[c], need[c], d);
  }

  lemma RestInTerm(t: TaskRec, u: real, c: real, d: nat)
    requires 0.0 <= u <= c
    ensures t.period > 0 && t.deadline <= d ==> Term(t, u, c, d) >= c - u
  {
    if t.period > 0 && t.deadline <= d {
      JobsNonneg(d - t.deadline, t.period, c);
    }
  }

  lemma TickFacts(s: Sys, need: seq<real>)
    requires Good(s, need) && Possible(s, need, TickIrq)
    ensures var s' := After(s, need, TickIrq);
            && StateOk(s'.k) && s'.k.started && s'.k.tick == s.k.tick + 1
            && s'.k.current == s'.k.next == Pick(s'.k.tasks) && |s'.k.tasks| == |s.k.tasks|
            && (forall i :: 0 <= i < |need| ==> TimesOf(s'.k.tasks[i]) == TimesOf(Woken(s.k.tasks[i], s.k.tick + 1)))
  {
    hide Pick, Best, Schedule, Utilisation;
    var tick := s.k.tick + 1;
    var woken := s.k.(tick := tick, tasks := WakeAll(s.k.tasks, tick));
    if AnyDue(s.k.tasks, tick) {
      ScheduleKeepsTimes(woken);
    } else {
      assert woken.tasks == s.k.tasks;
    }
  }

  lemma TickKeepsFeasible(s: Sys, need: seq<real>)
    requires Good(s, need) && Feasible(s, need) && Possible(s, need, TickIrq)
    ensures Good(After(s, need, TickIrq), need) && Feasible(After(s, need, TickIrq), need)
  {
    hide Pick, Schedule, Tick, Utilisation, Demand, Term;
    var s' := After(s, need, TickIrq);
    var ts, ts', tick := s.k.tasks, s'.k.tasks, s.k.tick + 1;
    TickFacts(s, need);
    forall i | 0 <= i < |need| ensures TaskOk(ts'[i], s.used[i], need[i], tick) && ts'[i].period == ts[i].period {
      assert TaskOk(ts[i], s.used[i], need[i], s.k.tick);
      if ts[i].period > 0 && ts[i].state == Ready {
        NoneAtDeadline(s, need, i);
      }
    }
    SameUtilisation(ts, ts', need, |need|);
    forall e: nat | e as real >= Now(s') ensures Demand(ts', s'.used, need, e, |need|) <= e as real - Now(s') {
      forall i | 0 <= i < |need| ensures Term(ts'[i], s.used[i], need[i], e) == Term(ts[i], s.used[i], need[i], e) {
        WokenTerm(ts[i], ts'[i], tick, s.used[i], need[i], e);
      }
      DemandChange(ts, s.used, ts', s.used, need, e, 0, |need|);
      assert Now(s') == Now(s);
    }
  }

  lemma WokenTerm(t: TaskRec, t': TaskRec, tick: nat, u: real, c: real, d: nat)
    requires TimesOf(t') == TimesOf(Woken(t, tick))
    ensures Term(t', u, c, d) == Term(t, u, c, d)
  {
  }

  // ----- whole runs -----

  lemma EventKeepsFeasible(s: Sys, need: seq<real>, e: Event)
    requires Good(s, need) && Feasible(s, need) && Possible(s, need, e)
    ensures Good(After(s, need, e), need) && Feasible(After(s, need, e), need)
  {
    hide Good, Feasible, After;
    match e {
      case Run(d) => RunKeepsFeasible(s, need, d);
      case YieldCall => YieldKeepsFeasible(s, need);
      case TickIrq => TickKeepsFeasible(s, need);
    }
  }

  /** A run of the system, one state more than events. */
  ghost predicate RunOf(ss: seq<Sys>, need: seq<real>, es: seq<Event>) {
    && |ss| == |es| + 1
    && forall i, j :: 0 <= i < |es| && j == i + 1 ==> Happens(ss[i], need, es[i], ss[j])
  }

  predicate Happens(s: Sys, need: seq<real>, e: Event, s': Sys) {
    Possible(s, need, e) && s' == After(s, need, e)
  }

  /** No job is pending at or after its deadline. */
  ghost predicate OnTime(s: Sys) {
    forall i :: 0 <= i < |s.k.tasks| && s.k.tasks[i].period > 0 && s.k.tasks[i].state == Ready
      ==> s.k.tick < s.k.tasks[i].deadline
  }

  lemma GoodOnTime(s: Sys, need: seq<real>)
    requires Good(s, need)
    ensures OnTime(s)
  {
    hide Pick, Utilisation;
    forall i | 0 <= i < |s.k.tasks| && s.k.tasks[i].period > 0 && s.k.tasks[i].state == Ready
      ensures s.k.tick < s.k.tasks[i].deadline
    {
      assert TaskOk(s.k.tasks[i], s.used[i], need[i], s.k.tick);
    }
  }

  /**
   A set of tasks created before the start, with relative deadlines equal to periods:
   idle task first, every job still to be done.
   */
  ghost predicate Initial(s: Sys, need: seq<real>) {
    && |s.k.tasks| == |need| == |s.used| > 0
    && s.phase == 0.0 && s.k.tick == 0 && s.k.started
    && s.k.current == s.k.next == Pick(s.k.tasks)
    && s.k.tasks[0].period == 0
    && forall i :: 0 <= i < |need| ==>
         && 0.0 == s.used[i] <= need[i]
         && s.k.tasks[i].period < FOREVER
         && TimesOf(s.k.tasks[i]) == TimesOf(NewTask(0, s.k.tasks[i].period, s.k.tasks[i].period))
  }

  lemma InitialFeasible(s: Sys, need: seq<real>)
    requires Initial(s, need) && Utilisation(s.k.tasks, need, |need|) <= 1.0
    ensures Good(s, need) && Feasible(s, need)
  {
    hide Pick, Demand, Utilisation, Term, Share;
    var ts := s.k.tasks;
    forall d: nat | d as real >= Now(s) ensures Demand(ts, s.used, need, d, |need|) <= d as real - Now(s) {
      forall i | 0 <= i < |need| ensures Term(ts[i], s.used[i], need[i], d) <= d as real * Share(ts[i], need[i]) {
        FirstTerm(ts[i], need[i], d);
      }
      DemandAtMost(ts, s.used, need, d, d as real, |need|);
      MulMono(Utilisation(ts, need, |need|), 1.0, d as real);
    }
  }

  lemma FirstTerm(t: TaskRec, c: real, d: nat)
    requires TimesOf(t) == TimesOf(NewTask(0, t.period, t.period)) && t.period < FOREVER && c >= 0.0
    ensures Term(t, 0.0, c, d) <= d as real * Share(t, c)
  {
    if t.period > 0 {
      FutureTerm(t, c, d, 0.0);
    }
  }

  /**
   The utilisation bound. If the shares of the periodic tasks add up to at most one,
   then in every state of every run every job that has not yielded yet is strictly
   before the tick of its deadline.
   */
  lemma {:induction false} EveryDeadlineMet(ss: seq<Sys>, need: seq<real>, es: seq<Event>)
    requires RunOf(ss, need, es) && Initial(ss[0], need)
    requires Utilisation(ss[0].k.tasks, need, |need|) <= 1.0
    ensures forall n :: 0 <= n < |ss| ==> Good(ss[n], need) && Feasible(ss[n], need)
    ensures forall n :: 0 <= n < |ss| ==> OnTime(ss[n])
    decreases |es|
  {
    hide Initial, After, Feasible, Utilisation, Possible, Good, OnTime;
    var m := |es|;
    if m == 0 {
      InitialFeasible(ss[0], need);
    } else {
      assert RunOf(ss[..m], need, es[..m - 1]);
      EveryDeadlineMet(ss[..m], need, es[..m - 1]);
      assert ss[..m][m - 1] == ss[m - 1];
      assert Happens(ss[m - 1], need, es[m - 1], ss[m]);
      EventKeepsFeasible(ss[m - 1], need, es[m - 1]);
      forall n | 0 <= n < |ss| ensures Good(ss[n], need) && Feasible(ss[n], need) {
        assert n < m ==> ss[..m][n] == ss[n];
      }
    }
    forall n | 0 <= n < |ss| ensures OnTime(ss[n]) {
      GoodOnTime(ss[n], need);
    }
  }

  /** The event guards leave no feasible state stuck, short of counter wrap-around. */
  lemma NeverStuck(s: Sys, need: seq<real>)
    requires Good(s, need) && s.k.tick + 1 < FOREVER
    requires JobRuns(s) ==> s.k.tasks[s.k.current].deadline + s.k.tasks[s.k.current].period < FOREVER
    ensures exists e :: Possible(s, need, e)
  {
    hide Pick, Utilisation;
    var c := s.k.current;
    assert TaskOk(s.k.tasks[c], s.used[c], need[c], s.k.tick);
    if JobRuns(s) && s.used[c] == need[c] {
      assert Possible(s, need, YieldCall);
    } else if s.phase == 1.0 {
      assert Possible(s, need, TickIrq);
    } else {
      var rest := 1.0 - s.phase;
      var d := if JobRuns(s) && need[c] - s.used[c] < rest then need[c] - s.used[c] else rest;
      assert Possible(s, need, Run(d));
    }
  }
}
