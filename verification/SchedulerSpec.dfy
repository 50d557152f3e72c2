/**
 The scheduler as functions on its state: the earliest-deadline pick, the context
 switch bookkeeping, yield, delay and the tick.

 Tasks are numbered in creation order; task 0 is the idle task. The kernel's list
 runs from the newest task to the oldest.
 */
module SchedulerSpec {
  import opened Arithmetic

  const FOREVER := 0xFFFF_FFFF
  const NONE := -1

  datatype TaskState = TaskInit | Ready | Running | Waiting | Delayed | Suspended

  datatype TaskRec = TaskRec(deadline: nat, period: nat, arrival: nat, wakeup: nat, state: TaskState,
                             execStart: nat, lastExec: nat, avgExec: nat, maxExec: nat,
                             misses: nat, switches: nat)

  /** `current` and `next` are task numbers, or `NONE`. */
  datatype KState = KState(tasks: seq<TaskRec>, current: int, next: int, tick: nat, started: bool)

  predicate StateOk(s: KState) {
    |s.tasks| > 0 && NONE <= s.current < |s.tasks| && NONE <= s.next < |s.tasks|
  }

  // ----- the pick -----

  /** The best ready task among the tasks numbered `i` and up, scanned from the newest down. */
  function Best(ts: seq<TaskRec>, i: nat): (b: int)
    requires i <= |ts|
    ensures b == NONE || i <= b < |ts|
    decreases |ts| - i
  {
    if i == |ts| then NONE
    else
      var b := Best(ts, i + 1);
      if ts[i].state == Ready && ts[i].deadline < (if b == NONE then FOREVER else ts[b].deadline) then i else b
  }

  /** The task to run: the best ready task, else the idle task. */
  function Pick(ts: seq<TaskRec>): (c: nat)
    requires |ts| > 0
    ensures c < |ts|
  {
    if Best(ts, 0) == NONE then 0 else Best(ts, 0)
  }

  /** A task that can be picked at all. */
  predicate Eligible(t: TaskRec) { t.state == Ready && t.deadline < FOREVER }

  /** `c` is the first eligible task in list order whose deadline is minimal; the idle task if there is none. */
  ghost predicate EarliestDeadline(ts: seq<TaskRec>, c: nat) {
    if exists i :: 0 <= i < |ts| && Eligible(ts[i]) then
      && c < |ts| && Eligible(ts[c])
      && (forall i :: 0 <= i < |ts| && Eligible(ts[i]) ==> ts[c].deadline <= ts[i].deadline)
      && (forall i :: c < i < |ts| && Eligible(ts[i]) ==> ts[c].deadline < ts[i].deadline)
    else c == 0
  }

  lemma {:induction false} BestIsEarliest(ts: seq<TaskRec>, i: nat)
    requires i <= |ts|
    ensures var b := Best(ts, i);
            if b == NONE then forall j :: i <= j < |ts| ==> !Eligible(ts[j])
            else
              && Eligible(ts[b])
              && (forall j :: i <= j < |ts| && Eligible(ts[j]) ==> ts[b].deadline <= ts[j].deadline)
              && (forall j :: b < j < |ts| && Eligible(ts[j]) ==> ts[b].deadline < ts[j].deadline)
    decreases |ts| - i
  {
    if i < |ts| {
      BestIsEarliest(ts, i + 1);
    }
  }

  /** The scan finds exactly the earliest-deadline task, and no other task fits the description. */
  lemma PickIsEarliest(ts: seq<TaskRec>, c: nat)
    requires |ts| > 0
    ensures EarliestDeadline(ts, c) <==> c == Pick(ts)
  {
    BestIsEarliest(ts, 0);
    var b := Best(ts, 0);
    if b == NONE {
    } else {
      assert Eligible(ts[b]);
      if EarliestDeadline(ts, c) {
        assert ts[c].deadline == ts[b].deadline;
      }
    }
  }

  // ----- switching -----

  /** The moving average of execution times, with weight one eighth for the new sample. */
  function Average(avg: nat, sample: nat): nat {
    if avg == 0 then sample else U32(sample + 7 * avg) / 8
  }

  /** What is recorded about the task that is switched out at `tick`. */
  function SwitchedOut(t: TaskRec, tick: nat): TaskRec {
    var exec := U32(tick - t.execStart);
    t.(lastExec := exec,
       maxExec := if exec > t.maxExec then exec else t.maxExec,
       avgExec := Average(t.avgExec, exec),
       misses := if tick > t.deadline && t.period > 0 then t.misses + 1 else t.misses,
       switches := t.switches + 1)
  }

  /** The statistics of a switch to `best`: the old task's record, the new task's start time. */
  function Account(s: KState, best: nat): (r: KState)
    requires StateOk(s) && best < |s.tasks|
    ensures StateOk(r)
  {
    var ts := if s.current == NONE then s.tasks
              else s.tasks[s.current := SwitchedOut(s.tasks[s.current], s.tick)];
    s.(tasks := ts[best := ts[best].(execStart := s.tick)])
  }

  function Schedule(s: KState): (r: KState)
    requires StateOk(s)
    ensures StateOk(r)
  {
    var best := Pick(s.tasks);
    if !s.started then s.(next := best, current := if s.current == NONE then best else s.current)
    else if s.current == best then s.(next := best)
    else Account(s.(next := best), best)
  }

  /** The context switch that a scheduling decision triggers. */
  function Switch(s: KState): KState { s.(current := s.next) }

  // ----- calls and interrupts -----

  function NewTask(tick: nat, period: nat, relativeDeadline: nat): TaskRec {
    TaskRec(if period > 0 then U32(tick + relativeDeadline) else FOREVER, period, tick, 0, Ready, 0, 0, 0, 0, 0, 0)
  }

  function Create(s: KState, period: nat, relativeDeadline: nat): KState {
    s.(tasks := s.tasks + [NewTask(s.tick, period, relativeDeadline)])
  }

  function Start(s: KState): KState
    requires StateOk(s)
  {
    Schedule(s).(started := true)
  }

  function Yielded(t: TaskRec): TaskRec {
    if t.period > 0 then
      t.(state := Waiting, arrival := U32(t.arrival + t.period), deadline := U32(t.deadline + t.period))
    else t.(state := Ready)
  }

  function Yield(s: KState): KState
    requires StateOk(s) && s.current != NONE
  {
    Schedule(s.(tasks := s.tasks[s.current := Yielded(s.tasks[s.current])]))
  }

  function Delay(s: KState, ticks: nat): KState
    requires StateOk(s)
  {
    if ticks == 0 || s.current == NONE then s
    else Schedule(s.(tasks := s.tasks[s.current :=
                    s.tasks[s.current].(wakeup := U32(s.tick + ticks), state := Delayed)]))
  }

  predicate Due(t: TaskRec, tick: nat) {
    || (t.state == Waiting && tick >= t.arrival)
    || (t.state == Delayed && tick >= t.wakeup)
  }

  function Woken(t: TaskRec, tick: nat): TaskRec {
    if Due(t, tick) then t.(state := Ready) else t
  }

  function WakeAll(ts: seq<TaskRec>, tick: nat): (r: seq<TaskRec>)
    ensures |r| == |ts|
    ensures forall i :: 0 <= i < |ts| ==> r[i] == Woken(ts[i], tick)
  {
    seq(|ts|, i requires 0 <= i < |ts| => Woken(ts[i], tick))
  }

  predicate AnyDue(ts: seq<TaskRec>, tick: nat) {
    exists i :: 0 <= i < |ts| && Due(ts[i], tick)
  }

  function Tick(s: KState): KState
    requires StateOk(s)
  {
    var tick := U32(s.tick + 1);
    var woken := s.(tick := tick, tasks := WakeAll(s.tasks, tick));
    if AnyDue(s.tasks, tick) then Schedule(woken) else woken
  }

  // ----- along a list of tasks, which need not hold all of them -----

  /** The best ready task among the first `k` of a list. */
  function BestAlong(ts: seq<TaskRec>, list: seq<nat>, k: nat): (b: int)
    requires k <= |list| && forall i :: 0 <= i < |list| ==> list[i] < |ts|
    ensures b == NONE || 0 <= b < |ts|
  {
    if k == 0 then NONE
    else
      var b, x := BestAlong(ts, list, k - 1), list[k - 1];
      if ts[x].state == Ready && ts[x].deadline < (if b == NONE then FOREVER else ts[b].deadline) then x else b
  }

  /** The task to run: the best ready task of the list, else the idle task. */
  function PickAlong(ts: seq<TaskRec>, list: seq<nat>): nat
    requires forall i :: 0 <= i < |list| ==> list[i] < |ts|
  {
    var b := BestAlong(ts, list, |list|);
    if b == NONE then 0 else b
  }

  lemma {:induction false} BestAlongLeast(ts: seq<TaskRec>, list: seq<nat>, k: nat)
    requires k <= |list| && forall i :: 0 <= i < |list| ==> list[i] < |ts|
    ensures var b := BestAlong(ts, list, k);
            if b == NONE then forall i :: 0 <= i < k ==> !Eligible(ts[list[i]])
            else
              && b in list && Eligible(ts[b])
              && forall i :: 0 <= i < k && Eligible(ts[list[i]]) ==> ts[b].deadline <= ts[list[i]].deadline
  {
    if k > 0 {
      BestAlongLeast(ts, list, k - 1);
    }
  }

  /** A task of the list with a deadline before those of all others that can be picked is picked. */
  lemma PickAlongIs(ts: seq<TaskRec>, list: seq<nat>, x: nat)
    requires forall i :: 0 <= i < |list| ==> list[i] < |ts|
    requires x in list && Eligible(ts[x])
    requires forall i :: 0 <= i < |list| && list[i] != x && Eligible(ts[list[i]]) ==>
      ts[x].deadline < ts[list[i]].deadline
    ensures PickAlong(ts, list) == x
  {
    BestAlongLeast(ts, list, |list|);
    var b := BestAlong(ts, list, |list|);
    assert b != NONE ==> exists i :: 0 <= i < |list| && list[i] == b;
  }

  lemma PickAlongIdle(ts: seq<TaskRec>, list: seq<nat>)
    requires forall i :: 0 <= i < |list| ==> list[i] < |ts| && !Eligible(ts[list[i]])
    ensures PickAlong(ts, list) == 0
  {
    BestAlongLeast(ts, list, |list|);
  }

  /** A tick wakes the tasks of the list that are due, and no others. */
  function WakeAlong(ts: seq<TaskRec>, list: seq<nat>, tick: nat): (r: seq<TaskRec>)
    ensures |r| == |ts|
    ensures forall i :: 0 <= i < |ts| ==> r[i] == if i in list then Woken(ts[i], tick) else ts[i]
  {
    seq(|ts|, i requires 0 <= i < |ts| => if i in list then Woken(ts[i], tick) else ts[i])
  }

  predicate DueAlong(ts: seq<TaskRec>, list: seq<nat>, tick: nat)
    requires forall i :: 0 <= i < |list| ==> list[i] < |ts|
  {
    exists i :: 0 <= i < |list| && Due(ts[list[i]], tick)
  }

  /** On the list of all tasks, newest first, these are the pick and the tick above. */
  lemma {:induction false} BestAlongAll(ts: seq<TaskRec>, list: seq<nat>, k: nat)
    requires k <= |list| == |ts| && forall i :: 0 <= i < |list| ==> list[i] == |ts| - 1 - i
    ensures BestAlong(ts, list, k) == Best(ts, |ts| - k)
  {
    if k > 0 {
      BestAlongAll(ts, list, k - 1);
    }
  }

  lemma AlongAll(ts: seq<TaskRec>, list: seq<nat>, tick: nat)
    requires |ts| > 0 && |list| == |ts| && forall i :: 0 <= i < |list| ==> list[i] == |ts| - 1 - i
    ensures PickAlong(ts, list) == Pick(ts) && WakeAlong(ts, list, tick) == WakeAll(ts, tick)
    ensures DueAlong(ts, list, tick) <==> AnyDue(ts, tick)
  {
    hide Due, Woken, Best, BestAlong;
    BestAlongAll(ts, list, |ts|);
    forall i | 0 <= i < |ts| ensures i in list {
      assert list[|ts| - 1 - i] == i;
    }
    if i :| 0 <= i < |ts| && Due(ts[i], tick) {
      assert Due(ts[list[|ts| - 1 - i]], tick);
    }
  }

  // ----- scheduling decisions only touch statistics -----

  /** What the scheduler decides on, and what it wakes by. */
  datatype Times = Times(deadline: nat, period: nat, arrival: nat, wakeup: nat, state: TaskState)

  function TimesOf(t: TaskRec): Times { Times(t.deadline, t.period, t.arrival, t.wakeup, t.state) }

  ghost predicate SameTimes(a: seq<TaskRec>, b: seq<TaskRec>) {
    |a| == |b| && forall i :: 0 <= i < |a| ==> TimesOf(a[i]) == TimesOf(b[i])
  }

  lemma {:induction false} SameBest(a: seq<TaskRec>, b: seq<TaskRec>, i: nat)
    requires SameTimes(a, b) && i <= |a|
    ensures Best(a, i) == Best(b, i)
    decreases |a| - i
  {
    if i < |a| {
      assert TimesOf(a[i]) == TimesOf(b[i]);
      SameBest(a, b, i + 1);
    }
  }

  lemma ScheduleKeepsTimes(k: KState)
    requires StateOk(k)
    ensures SameTimes(Schedule(k).tasks, k.tasks)
    ensures Schedule(k).next == Pick(k.tasks) == Pick(Schedule(k).tasks)
    ensures Schedule(k).tick == k.tick && Schedule(k).started == k.started
    ensures !k.started && k.current == NONE ==> Schedule(k).current == Pick(k.tasks) && Schedule(k).tasks == k.tasks
  {
    SameBest(Schedule(k).tasks, k.tasks, 0);
  }
}
