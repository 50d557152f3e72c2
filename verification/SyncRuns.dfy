/**
 Whole runs of a mutex and of a semaphore, with the ticks that go on meanwhile. A tick
 wakes the tasks that its walk meets, along pointers that blocking and hand-overs change.
 */
module SyncRuns {
  import opened Arithmetic
  import opened Links
  import opened SchedulerSpec
  import opened SyncSpec
  import opened WaitLists

  // ----- mutex -----

  datatype Sys = Sys(m: MutexState, nexts: seq<int>, now: nat)

  /**
   Calls of tasks, the tick, and `OtherOp` for anything else that happens to a task,
   which leaves the pointers alone, and for the owner its times.
   */
  datatype Op =
    | LockOp(task: nat)
    | TryLockOp(task: nat)
    | UnlockOp(task: nat)
    | YieldOp(task: nat)
    | OtherOp(task: nat, to: TaskRec)
    | TickOp

  /** A task in the queue makes no call until it is handed the mutex, and times do not wrap. */
  predicate MayCall(m: MutexState, t: nat) {
    && t < |m.tasks| && t !in m.queue
    && m.tasks[t].deadline + m.tasks[t].period < 0x1_0000_0000
    && m.tasks[t].arrival + m.tasks[t].period < 0x1_0000_0000
  }

  predicate SameTiming(a: TaskRec, b: TaskRec) {
    a.deadline == b.deadline && a.period == b.period && a.arrival == b.arrival
  }

  predicate Possible(s: Sys, op: Op) {
    && InRange(s.m) && |s.nexts| == |s.m.tasks|
    && match op {
         case LockOp(t) => MayCall(s.m, t)
         case TryLockOp(t) => MayCall(s.m, t)
         case UnlockOp(t) => MayCall(s.m, t)
         case YieldOp(t) => MayCall(s.m, t)
         case OtherOp(t, v) => MayCall(s.m, t) && (t == s.m.owner ==> SameTiming(v, s.m.tasks[t]))
         case TickOp => true
       }
  }

  function After(s: Sys, op: Op): Sys
    requires Possible(s, op)
  {
    var m := s.m;
    match op
    case LockOp(t) => s.(m := Lock(m, t).m, nexts := LockLinks(m, s.nexts, t))
    case TryLockOp(t) => s.(m := TryLock(m, t).m)
    case UnlockOp(t) => s.(m := Unlock(m, t).m, nexts := UnlockLinks(m, s.nexts, t))
    case YieldOp(t) => s.(m := m.(tasks := m.tasks[t := Yielded(m.tasks[t])]))
    case OtherOp(t, v) => s.(m := m.(tasks := m.tasks[t := v]))
    case TickOp => s.(m := m.(tasks := WakeAlong(m.tasks, Walk(s.nexts), s.now + 1)), now := s.now + 1)
  }

  /** The structure of a mutex: who owns it, how often, and who waits. */
  ghost predicate Inv(m: MutexState) {
    && InRange(m) && Distinct(m.queue)
    && (m.locked <==> m.owner != NONE)
    && (m.locked ==> m.count >= 1)
    && (!m.locked ==> m.queue == [])
    && (forall w :: w in m.queue ==> w != m.owner && w < |m.tasks|)
    && (forall w :: w in m.queue && w < |m.tasks| ==>
          m.tasks[w].state == Ready || (m.tasks[w].state == Waiting && m.tasks[w].period > 0))
  }

  /** While the mutex is held, the owner's deadline is no later than its own and every waiting task's. */
  ghost predicate Inherits(m: MutexState) {
    m.locked && 0 <= m.owner < |m.tasks| ==>
      && m.tasks[m.owner].deadline <= m.original
      && forall w :: w in m.queue && w < |m.tasks| ==> m.tasks[m.owner].deadline <= m.tasks[w].deadline
  }

  /** Blocking keeps the bound: the owner's deadline comes down before the blocked task's goes up. */
  lemma BlockedKeeps(m: MutexState, t: nat)
    requires Inv(m) && MayCall(m, t) && m.locked && m.owner != t
    ensures Inv(Blocked(m, t)) && (Inherits(m) ==> Inherits(Blocked(m, t)))
  {
    var m' := Blocked(m, t);
    assert m'.queue == m.queue + [t];
    forall w | w in m'.queue && w != t ensures w in m.queue {
    }
  }

  /** Position `k` holds the waiting task with the least deadline, the earliest queued on ties. */
  ghost predicate EarliestLeast(m: MutexState, k: nat)
    requires InRange(m)
  {
    && k < |m.queue|
    && (forall j :: 0 <= j < |m.queue| ==> m.tasks[m.queue[k]].deadline <= m.tasks[m.queue[j]].deadline)
    && forall j :: 0 <= j < k ==> m.tasks[m.queue[k]].deadline < m.tasks[m.queue[j]].deadline
  }

  /** The mutex has gone from its owner to the task at position `k` of the queue; the others keep their order. */
  ghost predicate HandOff(m: MutexState, m': MutexState, k: nat)
    requires k < |m.queue| && |m'.tasks| == |m.tasks| && InRange(m)
  {
    var b := m.queue[k];
    && m'.locked && m'.owner == b && m'.count == 1
    && m'.queue == m.queue[..k] + m.queue[k + 1..]
    && m'.original == m.tasks[b].deadline
    && m'.tasks[b] == m.tasks[b].(state := Ready)
  }

  /**
   What the last unlock does: the old deadline is back, and the waiting task with the least deadline owns the
   mutex.
   */
  lemma FinalUnlock(m: MutexState, t: nat)
    requires Inv(m) && t < |m.tasks| && m.owner == t && m.count == 1
    ensures Unlock(m, t).status == OK
    ensures var m' := Unlock(m, t).m;
            && |m'.tasks| == |m.tasks|
            && m'.tasks[t] == m.tasks[t].(deadline := m.original)
            && (m.queue == [] ==> !m'.locked && m'.owner == NONE && m'.queue == [])
            && (m.queue != [] ==> exists k: nat :: EarliestLeast(m, k) && HandOff(m, m', k))
            && forall u :: 0 <= u < |m.tasks| && u != t && u != m'.owner ==> m'.tasks[u] == m.tasks[u]
  {
    var r := m.(count := 0, tasks := m.tasks[t := m.tasks[t].(deadline := m.original)]);
    if m.queue != [] {
      var k := BestOf(r.tasks, r.queue, |r.queue|);
      BestIsEarliestLeast(r.tasks, r.queue, |r.queue|);
      OthersSame(m, r, t, k);
      assert HandOff(m, Unlock(m, t).m, k);
    }
  }

  lemma OthersSame(m: MutexState, r: MutexState, t: nat, k: nat)
    requires InRange(m) && InRange(r) && r.queue == m.queue && k < |m.queue| && t !in m.queue && t < |m.tasks|
    requires |r.tasks| == |m.tasks| && forall u :: 0 <= u < |m.tasks| && u != t ==> r.tasks[u] == m.tasks[u]
    requires EarliestLeast(r, k)
    ensures EarliestLeast(m, k) && m.queue[k] != t && r.tasks[m.queue[k]] == m.tasks[m.queue[k]]
  {
    assert forall j :: 0 <= j < |m.queue| ==> m.queue[j] in m.queue && m.queue[j] != t;
  }

  /** A hand-over keeps the structure, and the new owner's deadline is within the bound whatever held before. */
  lemma HandOffKeeps(m: MutexState, m': MutexState, t: nat, k: nat)
    requires Inv(m) && EarliestLeast(m, k) && |m'.tasks| == |m.tasks| && HandOff(m, m', k) && m.owner == t
    requires forall u :: 0 <= u < |m.tasks| && u != t && u != m'.owner ==> m'.tasks[u] == m.tasks[u]
    ensures Inv(m') && Inherits(m')
  {
    DistinctCut(m.queue, k, k);
    forall w | w in m'.queue
      ensures w in m.queue && w != m'.owner && w < |m.tasks| && m'.tasks[w] == m.tasks[w]
      ensures m'.tasks[m'.owner].deadline <= m'.tasks[w].deadline
    {
      var i :| 0 <= i < |m'.queue| && m'.queue[i] == w;
      var j := if i < k then i else i + 1;
      assert m.queue[j] == w;
    }
    assert forall i :: 0 <= i < |m'.queue| ==> m'.queue[i] in m'.queue;
  }

  lemma UnlockKeeps(m: MutexState, t: nat)
    requires Inv(m) && MayCall(m, t)
    ensures Inv(Unlock(m, t).m) && |Unlock(m, t).m.tasks| == |m.tasks|
    ensures Inherits(m) ==> Inherits(Unlock(m, t).m)
  {
    if m.owner == t && m.count == 1 {
      FinalUnlock(m, t);
      if m.queue != [] {
        var k: nat :| EarliestLeast(m, k) && HandOff(m, Unlock(m, t).m, k);
        HandOffKeeps(m, Unlock(m, t).m, t, k);
      }
    }
  }

  /** Ticks leave times alone and make queued tasks ready at most. */
  lemma TickKeeps(m: MutexState, list: seq<nat>, now: nat)
    requires Inv(m)
    ensures var m' := m.(tasks := WakeAlong(m.tasks, list, now));
            Inv(m') && (Inherits(m) ==> Inherits(m'))
  {
    hide Distinct;
  }

  lemma StepKeepsInv(s: Sys, op: Op)
    requires Inv(s.m) && Possible(s, op)
    ensures Inv(After(s, op).m) && |After(s, op).m.tasks| == |s.m.tasks|
  {
    hide Distinct, HandedOver, WakeAlong, Walk;
    match op {
      case LockOp(t) => if s.m.locked && s.m.owner != t { BlockedKeeps(s.m, t); }
      case TryLockOp(t) =>
      case UnlockOp(t) => UnlockKeeps(s.m, t);
      case YieldOp(t) =>
      case OtherOp(t, v) =>
      case TickOp => TickKeeps(s.m, Walk(s.nexts), s.now + 1);
    }
  }

  predicate Happens(s: Sys, op: Op, s': Sys) { Possible(s, op) && s' == After(s, op) }

  ghost predicate RunOf(ss: seq<Sys>, ops: seq<Op>) {
    && |ss| == |ops| + 1
    && forall i, j :: 0 <= i < |ops| && j == i + 1 ==> Happens(ss[i], ops[i], ss[j])
  }

  /** The mutex is sound in every state of every run, ticks and yields included. */
  lemma {:induction false} MutexOverRuns(ss: seq<Sys>, ops: seq<Op>, n: nat)
    requires RunOf(ss, ops) && Inv(ss[0].m) && n < |ss|
    ensures Inv(ss[n].m) && |ss[n].m.tasks| == |ss[0].m.tasks|
    decreases n
  {
    hide Inv, After, Possible;
    if n > 0 {
      MutexOverRuns(ss, ops, n - 1);
      assert Happens(ss[n - 1], ops[n - 1], ss[n]);
      StepKeepsInv(ss[n - 1], ops[n - 1]);
    }
  }

  /** What initialisation leaves. */
  function Free(tasks: seq<TaskRec>): Sys {
    Sys(MutexState(tasks, false, NONE, 0, 0, []), Created(|tasks|), 0)
  }

  // ----- inheritance -----

  /** The owner may yield and still be no later than its original deadline and every waiting task's. */
  ghost predicate MayYield(m: MutexState)
    requires InRange(m) && m.locked
  {
    var o := m.tasks[m.owner];
    o.period == 0 || (o.deadline + o.period <= m.original
      && forall w :: w in m.queue && w < |m.tasks| ==> o.deadline + o.period <= m.tasks[w].deadline)
  }

  /** The owner yields here although its deadline then leaves the bound. */
  ghost predicate YieldsTooFar(s: Sys, op: Op) {
    InRange(s.m) && s.m.locked && op.YieldOp? && op.task == s.m.owner && !MayYield(s.m)
  }

  /** Inheritance is kept by everything but a yield of the owner that takes its deadline beyond the bound. */
  lemma StepInheritsIff(s: Sys, op: Op)
    requires Inv(s.m) && Inherits(s.m) && Possible(s, op)
    ensures Inherits(After(s, op).m) <==> !YieldsTooFar(s, op)
  {
    hide Distinct, HandedOver, WakeAlong, Walk;
    match op {
      case LockOp(t) => if s.m.locked && s.m.owner != t { BlockedKeeps(s.m, t); }
      case TryLockOp(t) =>
      case UnlockOp(t) => UnlockKeeps(s.m, t);
      case YieldOp(t) =>
      case OtherOp(t, v) =>
      case TickOp => TickKeeps(s.m, Walk(s.nexts), s.now + 1);
    }
  }

  /** The owner's deadline stays within the bound throughout a run exactly if it never yields beyond it. */
  lemma InheritanceOverRunsIff(ss: seq<Sys>, ops: seq<Op>)
    requires RunOf(ss, ops) && Inv(ss[0].m) && Inherits(ss[0].m)
    ensures (forall n :: 0 <= n < |ss| ==> Inherits(ss[n].m))
      <==> (forall i :: 0 <= i < |ops| ==> !YieldsTooFar(ss[i], ops[i]))
  {
    hide Inv, After, Possible, Inherits, YieldsTooFar;
    if forall i :: 0 <= i < |ops| ==> !YieldsTooFar(ss[i], ops[i]) {
      forall n | 0 <= n < |ss| ensures Inherits(ss[n].m) { InheritsWhile(ss, ops, n); }
    }
    if i :| 0 <= i < |ops| && YieldsTooFar(ss[i], ops[i]) && Inherits(ss[i].m) {
      MutexOverRuns(ss, ops, i);
      assert Happens(ss[i], ops[i], ss[i + 1]);
      StepInheritsIff(ss[i], ops[i]);
      assert !Inherits(ss[i + 1].m);
    }
  }

  lemma {:induction false} InheritsWhile(ss: seq<Sys>, ops: seq<Op>, n: nat)
    requires RunOf(ss, ops) && Inv(ss[0].m) && Inherits(ss[0].m) && n < |ss|
    requires forall i :: 0 <= i < |ops| ==> !YieldsTooFar(ss[i], ops[i])
    ensures Inherits(ss[n].m)
    decreases n
  {
    hide Inv, After, Possible, Inherits, YieldsTooFar;
    if n > 0 {
      InheritsWhile(ss, ops, n - 1);
      MutexOverRuns(ss, ops, n - 1);
      assert Happens(ss[n - 1], ops[n - 1], ss[n]);
      StepInheritsIff(ss[n - 1], ops[n - 1]);
    }
  }

  /** All of this from initialisation on, whatever the tasks are. */
  lemma MutexFromInit(ss: seq<Sys>, ops: seq<Op>, tasks: seq<TaskRec>)
    requires RunOf(ss, ops) && ss[0] == Free(tasks)
    ensures forall n :: 0 <= n < |ss| ==> Inv(ss[n].m)
    ensures (forall n :: 0 <= n < |ss| ==> Inherits(ss[n].m))
      <==> (forall i :: 0 <= i < |ops| ==> !YieldsTooFar(ss[i], ops[i]))
  {
    assert Inv(ss[0].m) && Inherits(ss[0].m);
    hide Inv, Inherits, YieldsTooFar, Happens;
    forall n | 0 <= n < |ss| ensures Inv(ss[n].m) { MutexOverRuns(ss, ops, n); }
    InheritanceOverRunsIff(ss, ops);
  }

  // ----- waiting -----

  /** No waiting task is lost: it leaves the queue only by becoming the owner. */
  lemma {:induction false} WaitsUntilOwner(ss: seq<Sys>, ops: seq<Op>, i: nat, n: nat, w: nat)
    requires RunOf(ss, ops) && Inv(ss[0].m) && i <= n < |ss| && w in ss[i].m.queue
    requires forall k :: i < k <= n ==> ss[k].m.owner != w
    ensures w in ss[n].m.queue
    decreases n
  {
    hide Inv, After, Possible;
    if n > i {
      WaitsUntilOwner(ss, ops, i, n - 1, w);
      MutexOverRuns(ss, ops, n - 1);
      assert Happens(ss[n - 1], ops[n - 1], ss[n]);
      StepKeepsWaiting(ss[n - 1], ops[n - 1], w);
    }
  }

  /** A step leaves a waiting task in the queue, with its times; only a tick can change its state. */
  lemma StepKeepsWaiting(s: Sys, op: Op, w: nat)
    requires Inv(s.m) && Possible(s, op) && w in s.m.queue && After(s, op).m.owner != w
    ensures w in After(s, op).m.queue && w < |s.m.tasks| == |After(s, op).m.tasks|
    ensures var s' := After(s, op);
            s'.m.tasks[w] == if op == TickOp && w in Walk(s.nexts) then Woken(s.m.tasks[w], s'.now) else s.m.tasks[w]
  {
    hide Distinct, HandedOver, WakeAlong, Walk;
    if op.UnlockOp? && s.m.owner == op.task && s.m.count == 1 {
      FinalUnlock(s.m, op.task);
      if s.m.queue != [] {
        var k: nat :| EarliestLeast(s.m, k) && HandOff(s.m, After(s, op).m, k);
        OthersWait(s.m.queue, k, w);
      }
    }
  }

  lemma OthersWait(queue: seq<nat>, k: nat, w: nat)
    requires k < |queue| && w in queue && w != queue[k]
    ensures w in queue[..k] + queue[k + 1..]
  {
    assert queue == queue[..k] + [queue[k]] + queue[k + 1..];
  }

  /** The call blocks: another task owns the mutex. */
  predicate Blocks(s: Sys, op: Op, w: nat) { op == LockOp(w) && s.m.locked && s.m.owner != w }

  /** Every tick after step `i` that meets task `w` comes before `date`. */
  predicate MetBefore(ss: seq<Sys>, ops: seq<Op>, i: nat, n: nat, w: nat, date: nat)
    requires n <= |ops| < |ss|
  {
    forall k :: i < k < n && ops[k] == TickOp && w in Walk(ss[k].nexts) ==> ss[k + 1].now < date
  }

  /** Where a task is while it waits: in the queue, with the times the blocking call left. */
  lemma {:induction false} WaitingTimes(ss: seq<Sys>, ops: seq<Op>, i: nat, n: nat, w: nat)
    requires RunOf(ss, ops) && Inv(ss[0].m) && i < n < |ss| && Possible(ss[i], ops[i]) && Blocks(ss[i], ops[i], w)
    requires forall k :: i < k <= n ==> ss[k].m.owner != w
    ensures w < |ss[i].m.tasks| == |ss[n].m.tasks| && w in ss[n].m.queue
    ensures var t := Yielded(ss[i].m.tasks[w]);
            && SameTiming(ss[n].m.tasks[w], t)
            && (ss[n].m.tasks[w].state == Waiting
              <==> ss[i].m.tasks[w].period > 0 && MetBefore(ss, ops, i, n, w, t.arrival))
            && (ss[n].m.tasks[w].state == Waiting || ss[n].m.tasks[w].state == Ready)
    decreases n
  {
    hide Inv, HandedOver, Distinct, WakeAlong, Walk;
    MutexOverRuns(ss, ops, i);
    MutexOverRuns(ss, ops, n - 1);
    assert Happens(ss[n - 1], ops[n - 1], ss[n]);
    if n == i + 1 {
      assert ss[n].m.queue[|ss[i].m.queue|] == w;
    } else {
      WaitingTimes(ss, ops, i, n - 1, w);
      hide After, Possible, Yielded;
      StepKeepsWaiting(ss[n - 1], ops[n - 1], w);
    }
  }

  /**
   A task that blocks is left waiting until it is handed the mutex exactly if it has a
   period and every tick up to then that meets it comes before its next arrival.
   Otherwise it is ready while another task owns the mutex, and its call returns success.
   */
  lemma NotReadiedIff(ss: seq<Sys>, ops: seq<Op>, i: nat, n: nat, w: nat)
    requires RunOf(ss, ops) && Inv(ss[0].m) && i < n < |ss| && Possible(ss[i], ops[i]) && Blocks(ss[i], ops[i], w)
    requires forall k :: i < k <= n ==> ss[k].m.owner != w
    ensures Lock(ss[i].m, w).status == OK
    ensures forall k :: i < k <= n ==> w in ss[k].m.queue && w < |ss[k].m.tasks|
    ensures (forall k :: i < k <= n ==> ss[k].m.tasks[w].state == Waiting) <==>
      && ss[i].m.tasks[w].period > 0
      && MetBefore(ss, ops, i, n, w, ss[i].m.tasks[w].arrival + ss[i].m.tasks[w].period)
  {
    hide Inv, Happens, Distinct;
    forall k | i < k <= n
      ensures w in ss[k].m.queue && w < |ss[k].m.tasks|
      ensures ss[k].m.tasks[w].state == Waiting <==>
        && ss[i].m.tasks[w].period > 0
        && MetBefore(ss, ops, i, k, w, ss[i].m.tasks[w].arrival + ss[i].m.tasks[w].period)
    {
      WaitingTimes(ss, ops, i, k, w);
    }
    var date := ss[i].m.tasks[w].arrival + ss[i].m.tasks[w].period;
    if MetBefore(ss, ops, i, n, w, date) {
      forall k | i < k <= n ensures MetBefore(ss, ops, i, k, w, date) {
      }
    }
    assert ss[n].m.tasks[w].state == Waiting <==> ss[i].m.tasks[w].period > 0 && MetBefore(ss, ops, i, n, w, date);
  }

  // ----- what the walk meets -----

  /** The newest of the tasks that have blocked so far. */
  function NewestBlocked(ss: seq<Sys>, ops: seq<Op>, n: nat): int
    requires n <= |ops| < |ss|
  {
    if n == 0 then NONE
    else
      var before := NewestBlocked(ss, ops, n - 1);
      if ops[n - 1].LockOp? && Blocks(ss[n - 1], ops[n - 1], ops[n - 1].task) && ops[n - 1].task > before
      then ops[n - 1].task else before
  }

  /** A step moves at most one task in or out of the wait list, and the pointers with it. */
  lemma StepShape(s: Sys, op: Op, newest: int)
    requires Inv(s.m) && Possible(s, op) && Shape(Lists(s.nexts, [s.m.queue]), newest)
    ensures var s', joins := After(s, op), op.LockOp? && Blocks(s, op, op.task);
            && |s'.nexts| == |s.nexts|
            && Shape(Lists(s'.nexts, [s'.m.queue]), if joins && op.task > newest then op.task else newest)
  {
    hide Shape, Distinct, Enqueued, Dequeued, WakeAlong, Walk, Inv, BestOf;
    var l, s' := Lists(s.nexts, [s.m.queue]), After(s, op);
    assert InPool(s.nexts, s.m.queue);
    assert l.queues[0] == s.m.queue;
    if op.LockOp? && Blocks(s, op, op.task) {
      var v := Join(0, op.task);
      assert MayMove(l, v);
      assert Moved(l, v) == Lists(s'.nexts, [s'.m.queue]);
      JoinKeepsShape(l, newest, 0, op.task);
    } else if op.UnlockOp? && HandsOver(s.m, op.task) {
      var k := NextOwner(s.m, op.task);
      assert MayMove(l, Leave(0, k));
      assert Moved(l, Leave(0, k)) == Lists(s'.nexts, [s'.m.queue]);
      LeaveKeepsShape(l, newest, 0, k);
    } else {
      assert s'.nexts == s.nexts && s'.m.queue == s.m.queue;
    }
  }

  lemma {:induction false} ShapeFromInit(ss: seq<Sys>, ops: seq<Op>, n: nat, tasks: seq<TaskRec>)
    requires RunOf(ss, ops) && ss[0] == Free(tasks) && n < |ss|
    ensures Inv(ss[n].m) && |ss[n].nexts| == |tasks|
    ensures Shape(Lists(ss[n].nexts, [ss[n].m.queue]), NewestBlocked(ss, ops, n))
    decreases n
  {
    hide Inv, After, Possible, Shape;
    MutexFromInit(ss, ops, tasks);
    if n == 0 {
      FreeShape(tasks);
    } else {
      ShapeFromInit(ss, ops, n - 1, tasks);
      assert Happens(ss[n - 1], ops[n - 1], ss[n]);
      StepShape(ss[n - 1], ops[n - 1], NewestBlocked(ss, ops, n - 1));
    }
  }

  lemma FreeShape(tasks: seq<TaskRec>)
    ensures Shape(Lists(Free(tasks).nexts, [Free(tasks).m.queue]), NONE)
  {
  }

  /**
   What the scheduler and the tick meet in every state of every run from initialisation,
   hand-overs included: the tasks created after the newest that has ever blocked, and
   that one with the tasks that wait behind it. A task that waits is met exactly if the
   newest to have blocked waits no further back than it does.
   */
  lemma MetFromInit(ss: seq<Sys>, ops: seq<Op>, n: nat, tasks: seq<TaskRec>)
    requires RunOf(ss, ops) && ss[0] == Free(tasks) && n < |ss|
    ensures var newest := NewestBlocked(ss, ops, n);
            && NONE <= newest < |ss[n].nexts| == |tasks|
            && Walk(ss[n].nexts) == Met(|tasks|, [ss[n].m.queue], newest)
            && forall x: nat :: x < |tasks| ==>
                 (x in Walk(ss[n].nexts) <==> x >= newest || WaitsBehind(ss[n].m.queue, newest, x))
  {
    hide Inv, Happens, Shape, Met, Walk, WaitsBehind;
    ShapeFromInit(ss, ops, n, tasks);
    WalkOfOne(ss[n].nexts, ss[n].m.queue, NewestBlocked(ss, ops, n));
  }

  /** What the walk meets when there is one wait list. */
  lemma WalkOfOne(nexts: seq<int>, queue: seq<nat>, newest: int)
    requires Shape(Lists(nexts, [queue]), newest)
    ensures NONE <= newest < |nexts| && Walk(nexts) == Met(|nexts|, [queue], newest)
    ensures forall x: nat :: x < |nexts| ==> (x in Walk(nexts) <==> x >= newest || WaitsBehind(queue, newest, x))
  {
    hide Shape, Met, Walk, WaitsBehind;
    var l := Lists(nexts, [queue]);
    WalkExact(l, newest);
    forall x: nat | x < |nexts| ensures x in Walk(nexts) <==> x >= newest || WaitsBehind(queue, newest, x) {
      MetIff(l, newest, x);
      assert l.queues[0] == queue;
    }
    ShapeBounds(l, newest);
  }

  lemma ShapeBounds(l: Lists, newest: int)
    requires Shape(l, newest)
    ensures NONE <= newest < |l.nexts|
  {
  }

  // ----- ownership -----

  /** Nested calls of the owner since it got the mutex. */
  function Depth(op: Op, t: nat): int {
    match op
    case LockOp(u) => if u == t then 1 else 0
    case TryLockOp(u) => if u == t then 1 else 0
    case UnlockOp(u) => if u == t then -1 else 0
    case YieldOp(_) => 0
    case OtherOp(_, _) => 0
    case TickOp => 0
  }

  function Nesting(ops: seq<Op>, t: nat, i: nat, n: nat): int
    requires i <= n <= |ops|
    decreases n
  {
    if n == i then 0 else Nesting(ops, t, i, n - 1) + Depth(ops[n - 1], t)
  }

  /** How often task `t` yields. */
  function Yields(ops: seq<Op>, t: nat, i: nat, n: nat): nat
    requires i <= n <= |ops|
    decreases n
  {
    if n == i then 0 else Yields(ops, t, i, n - 1) + if ops[n - 1] == YieldOp(t) then 1 else 0
  }

  /**
   While a task owns the mutex, the count is its nesting depth, the deadline it will get
   back is the one it had when it became the owner, and its arrival moves on by a period
   with each yield.
   */
  lemma {:induction false} OwnedOverRuns(ss: seq<Sys>, ops: seq<Op>, i: nat, n: nat, t: nat)
    requires RunOf(ss, ops) && Inv(ss[0].m) && i <= n < |ss| && t < |ss[0].m.tasks|
    requires forall k :: i <= k <= n ==> ss[k].m.owner == t
    ensures ss[n].m.count == ss[i].m.count + Nesting(ops, t, i, n) && ss[n].m.original == ss[i].m.original
    ensures |ss[n].m.tasks| == |ss[i].m.tasks| == |ss[0].m.tasks|
    ensures ss[n].m.tasks[t].period == ss[i].m.tasks[t].period
    ensures ss[n].m.tasks[t].arrival == ss[i].m.tasks[t].arrival + Yields(ops, t, i, n) * ss[i].m.tasks[t].period
    ensures ss[n].m.tasks[t].deadline <= ss[i].m.tasks[t].deadline + Yields(ops, t, i, n) * ss[i].m.tasks[t].period
    decreases n
  {
    hide Inv, After, Possible;
    MutexOverRuns(ss, ops, n);
    MutexOverRuns(ss, ops, i);
    if n > i {
      OwnedOverRuns(ss, ops, i, n - 1, t);
      MutexOverRuns(ss, ops, n - 1);
      assert Happens(ss[n - 1], ops[n - 1], ss[n]);
      StepOwned(ss[n - 1], ops[n - 1], t);
      OneMore(Yields(ops, t, i, n - 1), ss[i].m.tasks[t].period);
    }
  }

  lemma StepOwned(s: Sys, op: Op, t: nat)
    requires Inv(s.m) && Possible(s, op) && s.m.owner == t == After(s, op).m.owner && t < |s.m.tasks|
    ensures var m, m' := s.m, After(s, op).m;
            && |m'.tasks| == |m.tasks|
            && m'.count == m.count + Depth(op, t) && m'.original == m.original
            && m'.tasks[t].period == m.tasks[t].period
            && m'.tasks[t].arrival == m.tasks[t].arrival + (if op == YieldOp(t) then m.tasks[t].period else 0)
            && m'.tasks[t].deadline <= m.tasks[t].deadline + (if op == YieldOp(t) then m.tasks[t].period else 0)
  {
    hide Distinct, HandedOver;
    if op == UnlockOp(t) && s.m.count == 1 {
      FinalUnlock(s.m, t);
      Released(s.m, t);
    }
  }

  /**
   A task that takes a free mutex and calls unlock as often as it locked has its old
   deadline back, however many tasks blocked in between, and also if it yielded in
   between: its deadline then keeps its distance from its arrival exactly if it did not
   yield or has no period.
   */
  lemma DeadlineRestored(ss: seq<Sys>, ops: seq<Op>, i: nat, n: nat, t: nat)
    requires RunOf(ss, ops) && Inv(ss[0].m) && i < n < |ops| && t < |ss[0].m.tasks|
    requires !ss[i].m.locked && (ops[i] == LockOp(t) || ops[i] == TryLockOp(t))
    requires forall k :: i < k <= n ==> ss[k].m.owner == t
    requires ops[n] == UnlockOp(t) && Nesting(ops, t, i, n + 1) == 0
    ensures |ss[i].m.tasks| == |ss[n + 1].m.tasks| == |ss[0].m.tasks| && ss[n + 1].m.owner != t
    ensures var before, after := ss[i].m.tasks[t], ss[n + 1].m.tasks[t];
            && after.deadline == before.deadline
            && after.arrival == before.arrival + Yields(ops, t, i + 1, n) * before.period
            && (after.deadline - after.arrival == before.deadline - before.arrival
                <==> Yields(ops, t, i + 1, n) == 0 || before.period == 0)
  {
    hide Inv, Unlock, Walk, WakeAlong, LockLinks, UnlockLinks;
    MutexOverRuns(ss, ops, i);
    MutexOverRuns(ss, ops, n);
    MutexOverRuns(ss, ops, n + 1);
    assert Happens(ss[i], ops[i], ss[i + 1]) && Happens(ss[n], ops[n], ss[n + 1]);
    OwnedOverRuns(ss, ops, i + 1, n, t);
    NestingFrom(ops, t, i, n + 1);
    assert ss[n].m.count == 1;
    Released(ss[n].m, t);
    SameDistance(ss[i].m.tasks[t], ss[n + 1].m.tasks[t], Yields(ops, t, i + 1, n));
  }

  lemma SameDistance(before: TaskRec, after: TaskRec, yielded: nat)
    requires after.deadline == before.deadline && after.arrival == before.arrival + yielded * before.period
    ensures after.deadline - after.arrival == before.deadline - before.arrival <==> yielded == 0 || before.period == 0
  {
    ProductZero(yielded, before.period);
  }

  lemma Released(m: MutexState, t: nat)
    requires Inv(m) && t < |m.tasks| && m.owner == t && m.count == 1
    ensures var m' := Unlock(m, t).m;
            m'.owner != t && |m'.tasks| == |m.tasks| && m'.tasks[t] == m.tasks[t].(deadline := m.original)
  {
    FinalUnlock(m, t);
    assert forall k :: 0 <= k < |m.queue| ==> m.queue[k] in m.queue;
  }

  lemma {:induction false} NestingFrom(ops: seq<Op>, t: nat, i: nat, n: nat)
    requires i < n <= |ops|
    ensures Nesting(ops, t, i, n) == Depth(ops[i], t) + Nesting(ops, t, i + 1, n)
    decreases n
  {
    if n > i + 1 {
      NestingFrom(ops, t, i, n - 1);
    }
  }

  // ----- semaphore -----

  ghost predicate SemInv(s: SemState) {
    && s.count <= s.max && (s.queue != [] ==> s.count == 0)
    && Distinct(s.queue)
    && (forall i :: 0 <= i < |s.queue| ==> s.queue[i] < |s.tasks|)
    && (forall w :: w in s.queue && w < |s.tasks| ==>
          s.tasks[w].state == Ready || (s.tasks[w].state == Waiting && s.tasks[w].period > 0))
  }

  /** A semaphore with the history of its run: who blocked and who was woken, in order, and the counts. */
  datatype Run = Run(s: SemState, nexts: seq<int>, now: nat, posts: nat, grants: nat, dropped: nat,
                     blocked: seq<nat>, woken: seq<nat>)

  datatype SemOp = WaitOp(task: nat) | TryWaitOp(task: nat) | PostOp | SemTickOp | SemOtherOp(task: nat, to: TaskRec)

  /** A task in the queue makes no call and is left alone until it is woken by a post, but for the tick. */
  predicate SemPossible(r: Run, op: SemOp) {
    var s := r.s;
    && |r.nexts| == |s.tasks| && (forall i :: 0 <= i < |s.queue| ==> s.queue[i] < |s.tasks|)
    && match op {
         case WaitOp(t) =>
           && t < |s.tasks| && t !in s.queue
           && s.tasks[t].deadline + s.tasks[t].period < 0x1_0000_0000
           && s.tasks[t].arrival + s.tasks[t].period < 0x1_0000_0000
         case TryWaitOp(t) => t < |s.tasks| && t !in s.queue
         case PostOp => true
         case SemTickOp => true
         case SemOtherOp(t, v) => t < |s.tasks| && t !in s.queue
       }
  }

  function SemAfter(r: Run, op: SemOp): Run
    requires SemPossible(r, op)
  {
    match op
    case WaitOp(t) =>
      var r' := r.(s := Wait(r.s, t), nexts := WaitLinks(r.s, r.nexts, t));
      if r.s.count > 0 then r'.(grants := r.grants + 1) else r'.(blocked := r.blocked + [t])
    case TryWaitOp(t) => r.(s := TryWait(r.s), grants := r.grants + if r.s.count > 0 then 1 else 0)
    case PostOp =>
      var r' := r.(s := Post(r.s), nexts := PostLinks(r.s, r.nexts), posts := r.posts + 1);
      if r.s.queue != [] then r'.(grants := r.grants + 1, woken := r.woken + [r.s.queue[0]])
      else r'.(dropped := r.dropped + if r.s.count < r.s.max then 0 else 1)
    case SemTickOp => r.(s := r.s.(tasks := WakeAlong(r.s.tasks, Walk(r.nexts), r.now + 1)), now := r.now + 1)
    case SemOtherOp(t, v) => r.(s := r.s.(tasks := r.s.tasks[t := v]))
  }

  predicate SemHappens(r: Run, op: SemOp, r': Run) { SemPossible(r, op) && r' == SemAfter(r, op) }

  ghost predicate SemRunOf(rs: seq<Run>, ops: seq<SemOp>) {
    && |rs| == |ops| + 1
    && forall i, j :: 0 <= i < |ops| && j == i + 1 ==> SemHappens(rs[i], ops[i], rs[j])
  }

  /** A semaphore that nobody waits for, at the start of its history. */
  predicate SemFresh(r: Run) {
    && r.s.queue == [] && r.s.count <= r.s.max
    && r.posts == r.grants == r.dropped == 0 && r.blocked == r.woken == []
  }

  ghost predicate Conserved(r: Run, initial: nat) {
    && SemInv(r.s)
    && initial + r.posts == r.grants + r.s.count + r.dropped
    && r.blocked == r.woken + r.s.queue
  }

  lemma SemStarts(r: Run)
    requires SemFresh(r)
    ensures Conserved(r, r.s.count)
  {
  }

  lemma SemTickKeeps(s: SemState, list: seq<nat>, now: nat)
    requires SemInv(s)
    ensures SemInv(s.(tasks := WakeAlong(s.tasks, list, now)))
  {
    hide Distinct;
  }

  lemma SemStep(r: Run, op: SemOp, initial: nat)
    requires Conserved(r, initial) && SemPossible(r, op)
    ensures Conserved(SemAfter(r, op), initial) && SemAfter(r, op).s.max == r.s.max
  {
    hide WakeAlong, Walk;
    var q := r.s.queue;
    match op {
      case WaitOp(t) =>
        if r.s.count == 0 { assert r.woken + (q + [t]) == (r.woken + q) + [t]; }
      case TryWaitOp(t) =>
      case PostOp =>
        if q != [] {
          assert (r.woken + [q[0]]) + q[1..] == r.woken + q;
          assert forall i :: 0 <= i < |q[1..]| ==> q[1..][i] == q[i + 1];
        }
      case SemTickOp => SemTickKeeps(r.s, Walk(r.nexts), r.now + 1);
      case SemOtherOp(t, v) =>
    }
  }

  /**
   In every run: nothing is granted that was not there at first or posted, posts beyond
   the maximum excepted; and blocked tasks are woken in the order in which they blocked.
   */
  lemma {:induction false} SemaphoreOverRuns(rs: seq<Run>, ops: seq<SemOp>, n: nat)
    requires SemRunOf(rs, ops) && n < |rs| && SemFresh(rs[0])
    ensures Conserved(rs[n], rs[0].s.count) && rs[n].s.max == rs[0].s.max
    decreases n
  {
    hide Conserved, SemPossible, SemAfter, SemFresh;
    if n == 0 {
      SemStarts(rs[0]);
    } else {
      SemaphoreOverRuns(rs, ops, n - 1);
      assert SemHappens(rs[n - 1], ops[n - 1], rs[n]);
      SemStep(rs[n - 1], ops[n - 1], rs[0].s.count);
    }
  }

  /** Only a tick changes a task while it stays in the queue. */
  lemma SemStepKeepsWaiting(r: Run, op: SemOp, w: nat)
    requires SemInv(r.s) && SemPossible(r, op) && w in r.s.queue && w in SemAfter(r, op).s.queue
    ensures w < |r.s.tasks| == |SemAfter(r, op).s.tasks|
    ensures var r' := SemAfter(r, op);
            r'.s.tasks[w] == if op == SemTickOp && w in Walk(r.nexts) then Woken(r.s.tasks[w], r'.now) else r.s.tasks[w]
  {
    hide WakeAlong, Walk;
    if op == PostOp && r.s.queue != [] {
      var i :| 0 <= i < |r.s.queue[1..]| && r.s.queue[1..][i] == w;
      assert r.s.queue[i + 1] == w != r.s.queue[0];
    }
  }

  /** Every tick after step `i` that meets task `w` comes before `date`. */
  predicate SemMetBefore(rs: seq<Run>, ops: seq<SemOp>, i: nat, n: nat, w: nat, date: nat)
    requires n <= |ops| < |rs|
  {
    forall k :: i < k < n && ops[k] == SemTickOp && w in Walk(rs[k].nexts) ==> rs[k + 1].now < date
  }

  lemma {:induction false} SemWaitingTimes(rs: seq<Run>, ops: seq<SemOp>, i: nat, n: nat, w: nat)
    requires SemRunOf(rs, ops) && SemFresh(rs[0]) && i < n < |rs| && SemPossible(rs[i], ops[i])
    requires ops[i] == WaitOp(w) && rs[i].s.count == 0
    requires forall k :: i < k <= n ==> w in rs[k].s.queue
    ensures w < |rs[i].s.tasks| == |rs[n].s.tasks|
    ensures var t := Yielded(rs[i].s.tasks[w]);
            && SameTiming(rs[n].s.tasks[w], t)
            && (rs[n].s.tasks[w].state == Waiting
              <==> rs[i].s.tasks[w].period > 0 && SemMetBefore(rs, ops, i, n, w, t.arrival))
            && (rs[n].s.tasks[w].state == Waiting || rs[n].s.tasks[w].state == Ready)
    decreases n
  {
    hide Distinct, WakeAlong, Walk, SemFresh, SemAfter, SemPossible, Yielded, Conserved;
    SemaphoreOverRuns(rs, ops, n - 1);
    assert SemHappens(rs[n - 1], ops[n - 1], rs[n]);
    if n == i + 1 {
      SemBlocked(rs[i], w);
    } else {
      SemWaitingTimes(rs, ops, i, n - 1, w);
      ConservedInv(rs[n - 1], rs[0].s.count);
      SemStepKeepsWaiting(rs[n - 1], ops[n - 1], w);
    }
  }

  lemma ConservedInv(r: Run, initial: nat)
    requires Conserved(r, initial)
    ensures SemInv(r.s)
  {
  }

  /** What blocking leaves: the times moved on, and waiting exactly if the task has a period. */
  lemma SemBlocked(r: Run, w: nat)
    requires SemPossible(r, WaitOp(w)) && r.s.count == 0
    ensures var r', t := SemAfter(r, WaitOp(w)), Yielded(r.s.tasks[w]);
            && w < |r.s.tasks| == |r'.s.tasks|
            && SameTiming(r'.s.tasks[w], t) && t.state == r'.s.tasks[w].state
            && (t.state == Waiting <==> r.s.tasks[w].period > 0) && (t.state == Waiting || t.state == Ready)
  {
  }

  /**
   A task that blocks on a semaphore is left waiting until a post wakes it exactly if it
   has a period and every tick up to then that meets it comes before its next arrival.
   */
  lemma SemNotReadiedIff(rs: seq<Run>, ops: seq<SemOp>, i: nat, n: nat, w: nat)
    requires SemRunOf(rs, ops) && SemFresh(rs[0]) && i < n < |rs| && SemPossible(rs[i], ops[i])
    requires ops[i] == WaitOp(w) && rs[i].s.count == 0
    requires forall k :: i < k <= n ==> w in rs[k].s.queue
    ensures forall k :: i < k <= n ==> w < |rs[k].s.tasks|
    ensures (forall k :: i < k <= n ==> rs[k].s.tasks[w].state == Waiting) <==>
      && rs[i].s.tasks[w].period > 0
      && SemMetBefore(rs, ops, i, n, w, rs[i].s.tasks[w].arrival + rs[i].s.tasks[w].period)
  {
    hide SemHappens, SemFresh;
    var date := rs[i].s.tasks[w].arrival + rs[i].s.tasks[w].period;
    forall k | i < k <= n
      ensures w < |rs[k].s.tasks|
      ensures rs[k].s.tasks[w].state == Waiting <==> rs[i].s.tasks[w].period > 0 && SemMetBefore(rs, ops, i, k, w, date)
    {
      SemWaitingTimes(rs, ops, i, k, w);
    }
    if SemMetBefore(rs, ops, i, n, w, date) {
      forall k | i < k <= n ensures SemMetBefore(rs, ops, i, k, w, date) {
      }
    }
    assert rs[n].s.tasks[w].state == Waiting <==> rs[i].s.tasks[w].period > 0 && SemMetBefore(rs, ops, i, n, w, date);
  }

  // ----- what the walk meets -----

  function SemNewestBlocked(rs: seq<Run>, ops: seq<SemOp>, n: nat): int
    requires n <= |ops| < |rs|
  {
    if n == 0 then NONE
    else
      var before := SemNewestBlocked(rs, ops, n - 1);
      if ops[n - 1].WaitOp? && rs[n - 1].s.count == 0 && ops[n - 1].task > before then ops[n - 1].task else before
  }

  lemma SemStepShape(r: Run, op: SemOp, newest: int)
    requires SemInv(r.s) && SemPossible(r, op) && Shape(Lists(r.nexts, [r.s.queue]), newest)
    ensures var r', joins := SemAfter(r, op), op.WaitOp? && r.s.count == 0;
            && |r'.nexts| == |r.nexts|
            && Shape(Lists(r'.nexts, [r'.s.queue]), if joins && op.task > newest then op.task else newest)
  {
    hide Shape, Distinct, Enqueued, Dequeued, WakeAlong, Walk;
    var l, r' := Lists(r.nexts, [r.s.queue]), SemAfter(r, op);
    assert l.queues[0] == r.s.queue;
    if op.WaitOp? && r.s.count == 0 {
      assert Moved(l, Join(0, op.task)) == Lists(r'.nexts, [r'.s.queue]);
      JoinKeepsShape(l, newest, 0, op.task);
    } else if op == PostOp && r.s.queue != [] {
      assert r.s.queue[..0] + r.s.queue[1..] == r.s.queue[1..];
      assert Moved(l, Leave(0, 0)) == Lists(r'.nexts, [r'.s.queue]);
      LeaveKeepsShape(l, newest, 0, 0);
    } else {
      assert r'.nexts == r.nexts && r'.s.queue == r.s.queue;
    }
  }

  lemma {:induction false} SemShapeFromInit(rs: seq<Run>, ops: seq<SemOp>, n: nat)
    requires SemRunOf(rs, ops) && SemFresh(rs[0]) && rs[0].nexts == Created(|rs[0].nexts|) && n < |rs|
    ensures |rs[n].nexts| == |rs[0].nexts|
    ensures Shape(Lists(rs[n].nexts, [rs[n].s.queue]), SemNewestBlocked(rs, ops, n))
    decreases n
  {
    hide SemAfter, SemPossible, Shape, Conserved;
    if n == 0 {
      assert Shape(Lists(rs[0].nexts, [rs[0].s.queue]), NONE) by { EmptyShape(rs[0].nexts); }
    } else {
      SemShapeFromInit(rs, ops, n - 1);
      SemaphoreOverRuns(rs, ops, n - 1);
      ConservedInv(rs[n - 1], rs[0].s.count);
      assert SemHappens(rs[n - 1], ops[n - 1], rs[n]);
      SemStepShape(rs[n - 1], ops[n - 1], SemNewestBlocked(rs, ops, n - 1));
    }
  }

  lemma EmptyShape(nexts: seq<int>)
    requires nexts == Created(|nexts|)
    ensures Shape(Lists(nexts, [[]]), NONE)
  {
  }

  /** The same for a semaphore, posts included. */
  lemma SemMetFromInit(rs: seq<Run>, ops: seq<SemOp>, n: nat)
    requires SemRunOf(rs, ops) && SemFresh(rs[0]) && rs[0].nexts == Created(|rs[0].nexts|) && n < |rs|
    ensures var newest := SemNewestBlocked(rs, ops, n);
            && NONE <= newest < |rs[n].nexts| == |rs[0].nexts|
            && Walk(rs[n].nexts) == Met(|rs[n].nexts|, [rs[n].s.queue], newest)
            && forall x: nat :: x < |rs[n].nexts| ==>
                 (x in Walk(rs[n].nexts) <==> x >= newest || WaitsBehind(rs[n].s.queue, newest, x))
  {
    hide SemHappens, Shape, Met, Walk, WaitsBehind, SemFresh;
    SemShapeFromInit(rs, ops, n);
    var newest := SemNewestBlocked(rs, ops, n);
    WalkOfOne(rs[n].nexts, rs[n].s.queue, newest);
  }
}
