/**
 Runs of a mutex and of a semaphore in which the scheduler decides who calls: the
 running task is the best ready one among those that the scheduler's walk meets.
 */
module SyncScheduled {
  import opened Links
  import opened SchedulerSpec
  import opened SyncSpec
  import opened SyncRuns
  import opened WaitLists

  datatype Machine = Machine(s: Sys, current: nat)

  /** The task that a scheduling decision picks. */
  function Picked(s: Sys): nat
    requires |s.nexts| == |s.m.tasks|
  {
    PickAlong(s.m.tasks, Walk(s.nexts))
  }

  /** A task that has called the delay. */
  function Asleep(t: TaskRec, until: nat): TaskRec { t.(wakeup := until, state := Delayed) }

  /** The step ends with a scheduling decision. */
  predicate Reschedules(s: Sys, op: Op)
    requires Possible(s, op)
  {
    match op
    case LockOp(t) => s.m.locked && s.m.owner != t
    case TryLockOp(_) => false
    case UnlockOp(t) => HandsOver(s.m, t)
    case YieldOp(_) => true
    case OtherOp(_, _) => true
    case TickOp => DueAlong(s.m.tasks, Walk(s.nexts), s.now + 1)
  }

  /** Calls come from the running task, the only other thing it does is to delay, and decisions are the scheduler's. */
  ghost predicate Runs(k: Machine, op: Op, k': Machine) {
    && Happens(k.s, op, k'.s) && |k'.s.nexts| == |k'.s.m.tasks|
    && (op.TickOp? || op.task == k.current < |k.s.m.tasks|)
    && (op.OtherOp? ==> k.s.now < op.to.wakeup && op.to == Asleep(k.s.m.tasks[k.current], op.to.wakeup))
    && k'.current == if Reschedules(k.s, op) then Picked(k'.s) else k.current
  }

  ghost predicate MachineRunOf(ks: seq<Machine>, ops: seq<Op>) {
    && |ks| == |ops| + 1
    && forall i, j :: 0 <= i < |ops| && j == i + 1 ==> Runs(ks[i], ops[i], ks[j])
  }

  function Started(tasks: seq<TaskRec>): Machine { Machine(Free(tasks), Picked(Free(tasks))) }

  function States(ks: seq<Machine>): (r: seq<Sys>)
    ensures |r| == |ks| && forall i :: 0 <= i < |ks| ==> r[i] == ks[i].s
  {
    seq(|ks|, i requires 0 <= i < |ks| => ks[i].s)
  }

  lemma RunOfStates(ks: seq<Machine>, ops: seq<Op>)
    requires MachineRunOf(ks, ops)
    ensures RunOf(States(ks), ops)
  {
    hide Happens;
    forall i, j | 0 <= i < |ops| && j == i + 1 ensures Happens(States(ks)[i], ops[i], States(ks)[j]) {
      assert Runs(ks[i], ops[i], ks[j]);
    }
  }

  // ----- tasks that are lost -----

  lemma {:induction false} BestAlongMember(ts: seq<TaskRec>, list: seq<nat>, k: nat)
    requires k <= |list| && forall i :: 0 <= i < |list| ==> list[i] < |ts|
    ensures BestAlong(ts, list, k) == NONE || BestAlong(ts, list, k) in list
  {
    if k > 0 {
      BestAlongMember(ts, list, k - 1);
    }
  }

  /** A task that the walk does not meet is not picked, unless it is the idle task. */
  lemma PickedIsMet(s: Sys)
    requires |s.nexts| == |s.m.tasks|
    ensures Picked(s) == 0 || Picked(s) in Walk(s.nexts)
  {
    hide Walk;
    BestAlongMember(s.m.tasks, Walk(s.nexts), |Walk(s.nexts)|);
  }

  /** Only the caller joins the queue. */
  lemma OnlyCallerJoins(s: Sys, op: Op, x: nat)
    requires Inv(s.m) && Possible(s, op) && x !in s.m.queue && (op.TickOp? || op.task != x)
    ensures x !in After(s, op).m.queue
  {
    hide Distinct, WakeAlong, HandedOver, Walk;
    if op.UnlockOp? && s.m.owner == op.task && s.m.count == 1 {
      FinalUnlock(s.m, op.task);
      if s.m.queue != [] {
        var k: nat :| EarliestLeast(s.m, k) && HandOff(s.m, After(s, op).m, k);
      }
    }
  }

  /**
   A task that neither runs nor waits, and is older than some task that has blocked, is
   lost: it never runs again, whatever it holds. This includes a task that blocked and
   has been handed the mutex, as soon as a newer task has ever blocked.
   */
  lemma {:induction false} NeverRunsAgain(ks: seq<Machine>, ops: seq<Op>, tasks: seq<TaskRec>, i: nat, n: nat, x: nat)
    requires MachineRunOf(ks, ops) && ks[0] == Started(tasks) && i <= n < |ks|
    requires 0 < x < NewestBlocked(States(ks), ops, i) && x !in ks[i].s.m.queue && ks[i].current != x
    ensures ks[n].current != x && x !in ks[n].s.m.queue && x < NewestBlocked(States(ks), ops, n)
    ensures x !in Walk(ks[n].s.nexts)
    decreases n
  {
    hide Inv, Walk, Met, Happens, Reschedules, Picked;
    var ss := States(ks);
    RunOfStates(ks, ops);
    MetFromInit(ss, ops, n, tasks);
    if n > i {
      NeverRunsAgain(ks, ops, tasks, i, n - 1, x);
      MutexFromInit(ss, ops, tasks);
      assert Runs(ks[n - 1], ops[n - 1], ks[n]);
      StillLost(ks[n - 1], ops[n - 1], ks[n], x);
    }
    assert !WaitsBehind(ks[n].s.m.queue, NewestBlocked(ss, ops, n), x);
    if n > i {
      PickedIsMet(ks[n].s);
    }
  }

  lemma StillLost(k: Machine, op: Op, k': Machine, x: nat)
    requires Inv(k.s.m) && Runs(k, op, k') && x !in k.s.m.queue && k.current != x
    ensures x !in k'.s.m.queue && (k'.current == k.current || k'.current == Picked(k'.s))
  {
    hide Inv, Picked, After, Possible, Reschedules;
    OnlyCallerJoins(k.s, op, x);
  }

  /** Only the owner gives a mutex up. */
  lemma OwnerStays(k: Machine, op: Op, k': Machine)
    requires Inv(k.s.m) && Runs(k, op, k') && k.s.m.locked && k.current != k.s.m.owner
    ensures k'.s.m.owner == k.s.m.owner && k'.s.m.locked
  {
    hide Distinct, WakeAlong, Walk;
  }

  /**
   A task that blocks on a mutex held by an older one never gets it, and neither does any
   other: the owner, cut off the list, never runs again.
   */
  lemma {:induction false} NewerBlocksForGood(ks: seq<Machine>, ops: seq<Op>, tasks: seq<TaskRec>, i: nat, n: nat,
                                              w: nat)
    requires MachineRunOf(ks, ops) && ks[0] == Started(tasks) && i < n < |ks|
    requires Blocks(ks[i].s, ops[i], w) && 0 < ks[i].s.m.owner < w
    ensures ks[n].s.m.locked && ks[n].s.m.owner == ks[i].s.m.owner && ks[n].current != ks[i].s.m.owner
    decreases n
  {
    hide Inv, Walk, Met, Happens, Picked, WaitsBehind;
    var ss, o := States(ks), ks[i].s.m.owner;
    RunOfStates(ks, ops);
    MutexFromInit(ss, ops, tasks);
    assert Runs(ks[n - 1], ops[n - 1], ks[n]);
    if n == i + 1 {
      MetFromInit(ss, ops, n, tasks);
      OwnerCutOff(ks[i], ops[i], ks[n], w);
      NotBehind(ks[n].s.m.queue, NewestBlocked(ss, ops, n), o);
      PickedIsMet(ks[n].s);
    } else {
      NewerBlocksForGood(ks, ops, tasks, i, n - 1, w);
      NewerBlocksForGood(ks, ops, tasks, i, i + 1, w);
      OwnerStays(ks[n - 1], ops[n - 1], ks[n]);
      OwnerNotQueued(ks[i + 1].s.m);
      NeverRunsAgain(ks, ops, tasks, i + 1, n, o);
    }
  }

  /** The step at which the newer task blocks. */
  lemma OwnerCutOff(k: Machine, op: Op, k': Machine, w: nat)
    requires Inv(k.s.m) && Runs(k, op, k') && Blocks(k.s, op, w)
    ensures k'.s.m.owner == k.s.m.owner && k'.s.m.locked && k'.current == Picked(k'.s)
    ensures k.s.m.owner !in k'.s.m.queue
  {
    hide Distinct, Picked;
  }

  lemma OwnerNotQueued(m: MutexState)
    requires Inv(m)
    ensures m.owner !in m.queue
  {
  }

  lemma NotBehind(queue: seq<nat>, x: int, y: nat)
    requires y !in queue
    ensures x >= 0 ==> !WaitsBehind(queue, x, y)
  {
  }

  // ----- runs from initialisation -----

  /** The idle task. */
  const IDLE := NewTask(0, 0, FOREVER)

  /** Task `o` holds the mutex, which it took with deadline 1. */
  function Held(tasks: seq<TaskRec>, o: nat, queue: seq<nat>, nexts: seq<int>, now: nat, current: nat): Machine {
    Machine(Sys(MutexState(tasks, true, o, 1, 1, queue), nexts, now), current)
  }

  /** A tick that finds one waiting task due, and no other task of the list. */
  lemma WakesOne(ts: seq<TaskRec>, list: seq<nat>, x: nat, tick: nat)
    requires x < |ts| && x in list && ts[x].state == Waiting && tick >= ts[x].arrival
    requires forall i :: 0 <= i < |list| ==> list[i] < |ts| && (list[i] != x ==> !Due(ts[list[i]], tick))
    ensures DueAlong(ts, list, tick) && WakeAlong(ts, list, tick) == ts[x := ts[x].(state := Ready)]
  {
    var i :| 0 <= i < |list| && list[i] == x;
    assert Due(ts[list[i]], tick);
  }

  /** A tick that finds no task of the list due. */
  lemma WakesNone(ts: seq<TaskRec>, list: seq<nat>, tick: nat)
    requires forall i :: 0 <= i < |list| ==> list[i] < |ts| && !Due(ts[list[i]], tick)
    ensures !DueAlong(ts, list, tick) && WakeAlong(ts, list, tick) == ts
  {
    var r := WakeAlong(ts, list, tick);
    forall x | 0 <= x < |ts| ensures r[x] == ts[x] {
      if x in list {
        var i :| 0 <= i < |list| && list[i] == x;
        assert !Due(ts[list[i]], tick);
      }
    }
  }

  lemma NotYetDue(t: TaskRec, tick: nat)
    requires t.state == Delayed && tick < t.wakeup
    ensures !Due(t, tick)
  {
  }

  // a waiting task that is readied

  /** Task 2 takes the mutex. */
  lemma Taken(t1: TaskRec, t2: TaskRec)
    requires t2.state == Ready && t2.deadline == 1 < t1.deadline && MayCall(Free([IDLE, t1, t2]).m, 2)
    ensures Runs(Started([IDLE, t1, t2]), LockOp(2), Held([IDLE, t1, t2], 2, [], [NONE, 0, 1], 0, 2))
  {
    hide Walk, BestAlong, PickAlong;
    var list := [2, 1, 0];
    assert Created(3) == [NONE, 0, 1];
    assert Walk(Created(3)) == list by { WalkChained(Created(3), list); }
    assert PickAlong([IDLE, t1, t2], list) == 2 by { PickAlongIs([IDLE, t1, t2], list, 2); }
  }

  /** It goes to sleep, and task 1 is picked. */
  lemma FallsAsleep(t1: TaskRec, t2: TaskRec)
    requires t1.state == Ready && t1.deadline < FOREVER && MayCall(Free([IDLE, t1, t2]).m, 2)
    ensures Runs(Held([IDLE, t1, t2], 2, [], [NONE, 0, 1], 0, 2), OtherOp(2, Asleep(t2, 5)),
                 Held([IDLE, t1, Asleep(t2, 5)], 2, [], [NONE, 0, 1], 0, 1))
  {
    hide Walk, BestAlong, PickAlong;
    var list, ts := [2, 1, 0], [IDLE, t1, Asleep(t2, 5)];
    assert Walk([NONE, 0, 1]) == list by { WalkChained([NONE, 0, 1], list); }
    assert PickAlong(ts, list) == 1 by { PickAlongIs(ts, list, 1); }
  }

  /** Task 1 blocks, and nobody is left to run. */
  lemma BlockedBehind(t1: TaskRec, t2: TaskRec)
    requires t1.state == Ready && t1.period > 0 && t2.state == Delayed && t2.deadline <= t1.deadline
    requires MayCall(MutexState([IDLE, t1, t2], true, 2, 1, 1, []), 1)
    ensures Runs(Held([IDLE, t1, t2], 2, [], [NONE, 0, 1], 0, 1), LockOp(1),
                 Held([IDLE, Yielded(t1), t2], 2, [1], [NONE, NONE, 1], 0, 0))
  {
    hide Walk, BestAlong, PickAlong;
    WalkChained([NONE, NONE, 1], [2, 1]);
    PickAlongIdle([IDLE, Yielded(t1), t2], [2, 1]);
  }

  /** The next tick readies task 1. */
  lemma ReadiedByTick(w: TaskRec, o: TaskRec)
    requires w.state == Waiting && w.arrival == 1 && w.deadline < FOREVER && o.state == Delayed && o.wakeup > 1
    ensures Runs(Held([IDLE, w, o], 2, [1], [NONE, NONE, 1], 0, 0), TickOp,
                 Held([IDLE, w.(state := Ready), o], 2, [1], [NONE, NONE, 1], 1, 1))
  {
    hide Walk, BestAlong, PickAlong, WakeAlong, Woken, DueAlong, Due;
    var ts, list := [IDLE, w, o], [2, 1];
    assert Walk([NONE, NONE, 1]) == list by { WalkChained([NONE, NONE, 1], list); }
    assert DueAlong(ts, list, 1) && WakeAlong(ts, list, 1) == [IDLE, w.(state := Ready), o] by {
      NotYetDue(o, 1);
      WakesOne(ts, list, 1, 1);
    }
    assert PickAlong([IDLE, w.(state := Ready), o], list) == 1 by {
      PickAlongIs([IDLE, w.(state := Ready), o], list, 1);
    }
  }

  /**
   Task 2 takes the mutex and goes to sleep, task 1 of period 1 blocks, and the next tick
   makes task 1 ready: it runs on as if it had the mutex, which task 2 still owns.
   */
  lemma ReadiedWithoutMutex()
    ensures var tasks := [IDLE, NewTask(0, 1, 2), NewTask(0, 10, 1)];
            var ops := [LockOp(2), OtherOp(2, Asleep(tasks[2], 5)), LockOp(1), TickOp];
            exists k1, k2, k3, k4 :: MachineRunOf([Started(tasks), k1, k2, k3, k4], ops)
              && |k3.s.m.tasks| == 3 && k3.s.m.tasks[1].state == Waiting && k3.current == 0
              && k4.s.m.owner == 2 && k4.s.m.queue == [1] && k4.current == 1
  {
    hide Walk, BestAlong, PickAlong, Runs;
    var t1, t2 := NewTask(0, 1, 2), NewTask(0, 10, 1);
    var w, o := Yielded(t1), Asleep(t2, 5);
    var k1 := Held([IDLE, t1, t2], 2, [], [NONE, 0, 1], 0, 2);
    var k2 := Held([IDLE, t1, o], 2, [], [NONE, 0, 1], 0, 1);
    var k3 := Held([IDLE, w, o], 2, [1], [NONE, NONE, 1], 0, 0);
    var k4 := Held([IDLE, w.(state := Ready), o], 2, [1], [NONE, NONE, 1], 1, 1);
    Taken(t1, t2);
    FallsAsleep(t1, t2);
    BlockedBehind(t1, o);
    ReadiedByTick(w, o);
    assert MachineRunOf([Started([IDLE, t1, t2]), k1, k2, k3, k4],
                        [LockOp(2), OtherOp(2, Asleep(t2, 5)), LockOp(1), TickOp]);
  }

  // a waiting task that is not met

  /** Task 3 takes the mutex and goes to sleep, and task 1 is picked. */
  lemma TakenOfFour(t1: TaskRec, t2: TaskRec, t3: TaskRec)
    requires t1.state == t3.state == Ready && t3.deadline == 1 < t1.deadline < t2.deadline < FOREVER
    requires MayCall(Free([IDLE, t1, t2, t3]).m, 3)
    ensures Runs(Started([IDLE, t1, t2, t3]), LockOp(3), Held([IDLE, t1, t2, t3], 3, [], [NONE, 0, 1, 2], 0, 3))
    ensures Runs(Held([IDLE, t1, t2, t3], 3, [], [NONE, 0, 1, 2], 0, 3), OtherOp(3, Asleep(t3, 5)),
                 Held([IDLE, t1, t2, Asleep(t3, 5)], 3, [], [NONE, 0, 1, 2], 0, 1))
  {
    hide Walk, BestAlong, PickAlong;
    var list, ts, ts' := [3, 2, 1, 0], [IDLE, t1, t2, t3], [IDLE, t1, t2, Asleep(t3, 5)];
    assert Created(4) == [NONE, 0, 1, 2];
    assert Walk(Created(4)) == list by { WalkChained(Created(4), list); }
    assert PickAlong(ts, list) == 3 by { PickAlongIs(ts, list, 3); }
    assert PickAlong(ts', list) == 1 by { PickAlongIs(ts', list, 1); }
  }

  /** Task 1 blocks, and task 2 is picked. */
  lemma FirstBlocks(t1: TaskRec, t2: TaskRec, t3: TaskRec)
    requires t1.state == t2.state == Ready && t1.period > 0 && t2.deadline < FOREVER
    requires t3.state == Delayed && t3.deadline <= t1.deadline
    requires MayCall(MutexState([IDLE, t1, t2, t3], true, 3, 1, 1, []), 1)
    ensures Runs(Held([IDLE, t1, t2, t3], 3, [], [NONE, 0, 1, 2], 0, 1), LockOp(1),
                 Held([IDLE, Yielded(t1), t2, t3], 3, [1], [NONE, NONE, 1, 2], 0, 2))
  {
    hide Walk, BestAlong, PickAlong;
    var list, ts := [3, 2, 1], [IDLE, Yielded(t1), t2, t3];
    assert Walk([NONE, NONE, 1, 2]) == list by { WalkChained([NONE, NONE, 1, 2], list); }
    assert PickAlong(ts, list) == 2 by { PickAlongIs(ts, list, 2); }
  }

  /** Task 2 blocks behind it, and the walk ends there. */
  lemma SecondBlocks(w: TaskRec, t2: TaskRec, t3: TaskRec)
    requires t2.state == Ready && t2.period > 0 && t3.state == Delayed && t3.deadline <= t2.deadline
    requires MayCall(MutexState([IDLE, w, t2, t3], true, 3, 1, 1, [1]), 2)
    ensures Walk([NONE, 2, NONE, 2]) == [3, 2]
    ensures Runs(Held([IDLE, w, t2, t3], 3, [1], [NONE, NONE, 1, 2], 0, 2), LockOp(2),
                 Held([IDLE, w, Yielded(t2), t3], 3, [1, 2], [NONE, 2, NONE, 2], 0, 0))
  {
    hide Walk, BestAlong, PickAlong;
    var list, ts := [3, 2], [IDLE, w, Yielded(t2), t3];
    assert Walk([NONE, 2, NONE, 2]) == list by { WalkChained([NONE, 2, NONE, 2], list); }
    assert PickAlong(ts, list) == 0 by { PickAlongIdle(ts, list); }
  }

  /** The next tick meets tasks 3 and 2 only, which are not due. */
  lemma PassedBy(w: TaskRec, v: TaskRec, o: TaskRec)
    requires v.state == Waiting && v.arrival > 1 && o.state == Delayed && o.wakeup > 1
    ensures Runs(Held([IDLE, w, v, o], 3, [1, 2], [NONE, 2, NONE, 2], 0, 0), TickOp,
                 Held([IDLE, w, v, o], 3, [1, 2], [NONE, 2, NONE, 2], 1, 0))
  {
    hide Walk, WakeAlong, DueAlong;
    var ts, list := [IDLE, w, v, o], [3, 2];
    assert Walk([NONE, 2, NONE, 2]) == list by { WalkChained([NONE, 2, NONE, 2], list); }
    WakesNone(ts, list, 1);
  }

  /**
   Task 3 takes the mutex and goes to sleep, task 1 of period 1 blocks, and then task 2
   does: the tick at which task 1 is due does not meet it, and leaves it waiting.
   */
  lemma LeftBehind()
    ensures var tasks := [IDLE, NewTask(0, 1, 2), NewTask(0, 10, 3), NewTask(0, 10, 1)];
            var ops := [LockOp(3), OtherOp(3, Asleep(tasks[3], 5)), LockOp(1), LockOp(2), TickOp];
            exists k1, k2, k3, k4, k5 :: MachineRunOf([Started(tasks), k1, k2, k3, k4, k5], ops)
              && Walk(k5.s.nexts) == [3, 2] && |k5.s.m.tasks| == 4
              && k5.s.m.tasks[1].state == Waiting && k5.s.m.tasks[1].arrival == 1 == k5.s.now
  {
    hide Walk, BestAlong, PickAlong, Runs;
    var t1, t2, t3 := NewTask(0, 1, 2), NewTask(0, 10, 3), NewTask(0, 10, 1);
    var w, v, o := Yielded(t1), Yielded(t2), Asleep(t3, 5);
    var k1 := Held([IDLE, t1, t2, t3], 3, [], [NONE, 0, 1, 2], 0, 3);
    var k2 := Held([IDLE, t1, t2, o], 3, [], [NONE, 0, 1, 2], 0, 1);
    var k3 := Held([IDLE, w, t2, o], 3, [1], [NONE, NONE, 1, 2], 0, 2);
    var k4 := Held([IDLE, w, v, o], 3, [1, 2], [NONE, 2, NONE, 2], 0, 0);
    var k5 := Held([IDLE, w, v, o], 3, [1, 2], [NONE, 2, NONE, 2], 1, 0);
    TakenOfFour(t1, t2, t3);
    FirstBlocks(t1, t2, o);
    SecondBlocks(w, t2, o);
    PassedBy(w, v, o);
    assert MachineRunOf([Started([IDLE, t1, t2, t3]), k1, k2, k3, k4, k5],
                        [LockOp(3), OtherOp(3, Asleep(t3, 5)), LockOp(1), LockOp(2), TickOp]);
  }

  // an owner that yields

  /** The only task takes the mutex and yields. */
  lemma TakenAndYielded(t: TaskRec)
    requires t.state == Ready && t.deadline == 1 && t.period > 0 && MayCall(Free([IDLE, t]).m, 1)
    ensures Runs(Started([IDLE, t]), LockOp(1), Held([IDLE, t], 1, [], [NONE, 0], 0, 1))
    ensures Runs(Held([IDLE, t], 1, [], [NONE, 0], 0, 1), YieldOp(1),
                 Held([IDLE, Yielded(t)], 1, [], [NONE, 0], 0, 0))
  {
    hide Walk, BestAlong, PickAlong;
    var list := [1, 0];
    assert Created(2) == [NONE, 0];
    assert Walk(Created(2)) == list by { WalkChained(Created(2), list); }
    assert PickAlong([IDLE, t], list) == 1 by { PickAlongIs([IDLE, t], list, 1); }
    assert PickAlong([IDLE, Yielded(t)], list) == 0 by { PickAlongIdle([IDLE, Yielded(t)], list); }
  }

  /** The next tick wakes it, and it unlocks. */
  lemma WokenAndUnlocked(w: TaskRec)
    requires w.state == Waiting && w.arrival == 1 && w.deadline < FOREVER
    requires MayCall(Free([IDLE, w.(state := Ready)]).m, 1)
    ensures Runs(Held([IDLE, w], 1, [], [NONE, 0], 0, 0), TickOp,
                 Held([IDLE, w.(state := Ready)], 1, [], [NONE, 0], 1, 1))
    ensures var u := MutexState([IDLE, w.(state := Ready, deadline := 1)], false, NONE, 0, 1, []);
            Runs(Held([IDLE, w.(state := Ready)], 1, [], [NONE, 0], 1, 1), UnlockOp(1),
                 Machine(Sys(u, [NONE, 0], 1), 1))
  {
    hide Walk, BestAlong, PickAlong, WakeAlong, DueAlong;
    var ts, list := [IDLE, w], [1, 0];
    assert Walk([NONE, 0]) == list by { WalkChained([NONE, 0], list); }
    assert DueAlong(ts, list, 1) && WakeAlong(ts, list, 1) == [IDLE, w.(state := Ready)] by {
      WakesOne(ts, list, 1, 1);
    }
    assert PickAlong([IDLE, w.(state := Ready)], list) == 1 by {
      PickAlongIs([IDLE, w.(state := Ready)], list, 1);
    }
  }

  /**
   The owner yields once while it holds the mutex, and unlocks in its next period: its
   deadline is then the one of the period before, no later than its arrival.
   */
  lemma UnlockedTooEarly()
    ensures var ops := [LockOp(1), YieldOp(1), TickOp, UnlockOp(1)];
            exists k1, k2, k3, k4 :: MachineRunOf([Started([IDLE, NewTask(0, 1, 1)]), k1, k2, k3, k4], ops)
              && !Inherits(k2.s.m) && |k4.s.m.tasks| == 2
              && k4.s.m.tasks[1].state == Ready && k4.s.m.tasks[1].arrival == 1 == k4.s.m.tasks[1].deadline
  {
    hide Walk, BestAlong, PickAlong, Runs;
    var t := NewTask(0, 1, 1);
    var w := Yielded(t);
    var k1 := Held([IDLE, t], 1, [], [NONE, 0], 0, 1);
    var k2 := Held([IDLE, w], 1, [], [NONE, 0], 0, 0);
    var k3 := Held([IDLE, w.(state := Ready)], 1, [], [NONE, 0], 1, 1);
    var u := MutexState([IDLE, w.(state := Ready, deadline := 1)], false, NONE, 0, 1, []);
    var k4 := Machine(Sys(u, [NONE, 0], 1), 1);
    TakenAndYielded(t);
    WokenAndUnlocked(w);
    assert !Inherits(k2.s.m);
    assert MachineRunOf([Started([IDLE, t]), k1, k2, k3, k4], [LockOp(1), YieldOp(1), TickOp, UnlockOp(1)]);
  }

  // a semaphore

  lemma WaitsAlone(t: TaskRec)
    requires t.state == Ready && t.period == 1 && t.arrival == 0 && t.deadline == 1
    ensures var r0 := Run(SemState([IDLE, t], 0, 1, []), [NONE, 0], 0, 0, 0, 0, [], []);
            && SemFresh(r0) && PickAlong([IDLE, t], Walk([NONE, 0])) == 1
            && SemHappens(r0, WaitOp(1),
                          Run(SemState([IDLE, Yielded(t)], 0, 1, [1]), [NONE, NONE], 0, 0, 0, 0, [1], []))
  {
    hide Walk, BestAlong, PickAlong, Yielded;
    assert PickAlong([IDLE, t], Walk([NONE, 0])) == 1 by {
      WalkChained([NONE, 0], [1, 0]);
      PickAlongIs([IDLE, t], [1, 0], 1);
    }
    BlockedState(t);
  }

  /** The yield at the end of a blocking call sets the state whatever it was. */
  lemma BlockedState(t: TaskRec)
    ensures Yielded(t.(state := Waiting)) == Yielded(t)
  {
  }

  lemma ReadiedAlone(w: TaskRec)
    requires w.state == Waiting && w.arrival == 1
    ensures SemHappens(Run(SemState([IDLE, w], 0, 1, [1]), [NONE, NONE], 0, 0, 0, 0, [1], []), SemTickOp,
                       Run(SemState([IDLE, w.(state := Ready)], 0, 1, [1]), [NONE, NONE], 1, 0, 0, 0, [1], []))
  {
    hide Walk, WakeAlong, DueAlong;
    assert Walk([NONE, NONE]) == [1] by { WalkChained([NONE, NONE], [1]); }
    WakesOne([IDLE, w], [1], 1, 1);
  }

  /** Task 1 of period 1 is picked and waits for an empty semaphore, and the next tick readies it without a post. */
  lemma ReadiedWithoutPost()
    ensures var tasks := [IDLE, NewTask(0, 1, 1)];
            var r0 := Run(SemState(tasks, 0, 1, []), Created(2), 0, 0, 0, 0, [], []);
            && PickAlong(tasks, Walk(r0.nexts)) == 1
            && exists r1, r2 :: SemFresh(r0) && SemRunOf([r0, r1, r2], [WaitOp(1), SemTickOp])
                 && |r1.s.tasks| == |r2.s.tasks| == 2 && r2.s.queue == [1] && r2.posts == r2.grants == 0
                 && r1.s.tasks[1].state == Waiting && r2.s.tasks[1].state == Ready
  {
    hide Walk, PickAlong, SemHappens;
    var t := NewTask(0, 1, 1);
    var w := Yielded(t);
    var r0 := Run(SemState([IDLE, t], 0, 1, []), Created(2), 0, 0, 0, 0, [], []);
    var r1 := Run(SemState([IDLE, w], 0, 1, [1]), [NONE, NONE], 0, 0, 0, 0, [1], []);
    var r2 := Run(SemState([IDLE, w.(state := Ready)], 0, 1, [1]), [NONE, NONE], 1, 0, 0, 0, [1], []);
    assert Created(2) == [NONE, 0];
    WaitsAlone(t);
    ReadiedAlone(w);
    assert SemRunOf([r0, r1, r2], [WaitOp(1), SemTickOp]);
  }
}
