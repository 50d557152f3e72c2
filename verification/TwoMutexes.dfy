/**
 Two mutexes over the same tasks: when a task that holds both and releases one keeps
 what it inherited through the other.
 */
module TwoMutexes {
  import opened Links
  import opened SchedulerSpec
  import opened SyncSpec
  import opened SyncRuns
  import opened SyncScheduled
  import opened WaitLists

  /** `brought` holds for every task the deadline with which it last called a lock that blocked. */
  datatype Pair = Pair(a: MutexState, b: MutexState, nexts: seq<int>, now: nat, brought: seq<nat>) {
    function A(): Sys { Sys(a, nexts, now) }

    function B(): Sys { Sys(b, nexts, now) }
  }

  datatype PairOp = OnA(op: Op) | OnB(op: Op)

  /** A task queued on either mutex makes no call on any. */
  predicate PairPossible(p: Pair, o: PairOp) { Possible(p.A(), o.op) && Possible(p.B(), o.op) }

  /** The deadline of a task that blocks here is the one it brings. */
  function Brought(brought: seq<nat>, s: Sys, op: Op): (r: seq<nat>)
    ensures |r| == |brought|
  {
    if op.LockOp? && Blocks(s, op, op.task) && op.task < |s.m.tasks| && op.task < |brought|
    then brought[op.task := s.m.tasks[op.task].deadline] else brought
  }

  function PairAfter(p: Pair, o: PairOp): Pair
    requires PairPossible(p, o)
  {
    match o
    case OnA(op) =>
      var s := After(p.A(), op);
      Pair(s.m, p.b.(tasks := s.m.tasks), s.nexts, s.now, Brought(p.brought, p.A(), op))
    case OnB(op) =>
      var s := After(p.B(), op);
      Pair(p.a.(tasks := s.m.tasks), s.m, s.nexts, s.now, Brought(p.brought, p.B(), op))
  }

  predicate PairHappens(p: Pair, o: PairOp, p': Pair) { PairPossible(p, o) && p' == PairAfter(p, o) }

  ghost predicate PairRunOf(ps: seq<Pair>, os: seq<PairOp>) {
    && |ps| == |os| + 1
    && forall i, j :: 0 <= i < |os| && j == i + 1 ==> PairHappens(ps[i], os[i], ps[j])
  }

  ghost predicate PairInv(p: Pair) {
    && Inv(p.a) && Inv(p.b) && p.a.tasks == p.b.tasks && |p.brought| == |p.a.tasks|
    && forall w :: w in p.a.queue ==> w !in p.b.queue
  }

  /**
   A step leaves a task alone that neither calls nor waits for that mutex: ticks aside, its owner's deadline
   may come down.
   */
  lemma StepLeaves(s: Sys, op: Op, w: nat)
    requires Inv(s.m) && Possible(s, op) && w < |s.m.tasks| && w !in s.m.queue
    requires op.TickOp? || op.task != w
    ensures |After(s, op).m.tasks| == |s.m.tasks|
    ensures var t, t' := s.m.tasks[w], After(s, op).m.tasks[w];
            && t'.period == t.period && (t'.state == t.state || t'.state == Ready)
            && (w != s.m.owner ==> t' == if op == TickOp && w in Walk(s.nexts) then Woken(t, s.now + 1) else t)
  {
    hide Distinct, WakeAlong, HandedOver, Walk;
    if op.UnlockOp? && s.m.owner == op.task && s.m.count == 1 {
      FinalUnlock(s.m, op.task);
      if s.m.queue != [] {
        var k: nat :| EarliestLeast(s.m, k) && HandOff(s.m, After(s, op).m, k);
        assert s.m.queue[k] in s.m.queue;
      }
    }
  }

  /** Only the caller joins the queue. */
  lemma QueueGrows(s: Sys, op: Op, w: nat)
    requires Inv(s.m) && Possible(s, op) && w in After(s, op).m.queue
    ensures w in s.m.queue || (!op.TickOp? && w == op.task)
  {
    hide Distinct, WakeAlong, HandedOver, Walk;
    if op.UnlockOp? && s.m.owner == op.task && s.m.count == 1 {
      FinalUnlock(s.m, op.task);
      if s.m.queue != [] {
        var k: nat :| EarliestLeast(s.m, k) && HandOff(s.m, After(s, op).m, k);
      }
    }
  }

  /** A step on one mutex keeps the other, whose queue it does not touch. */
  lemma OtherKeeps(s: Sys, other: MutexState, op: Op)
    requires Inv(s.m) && Inv(other) && s.m.tasks == other.tasks && Possible(s, op)
    requires Possible(s.(m := other), op)
    requires forall w :: w in s.m.queue ==> w !in other.queue
    ensures var m' := After(s, op).m;
            && Inv(m') && Inv(other.(tasks := m'.tasks))
            && forall w :: w in m'.queue ==> w !in other.queue
  {
    hide Distinct, After, HandedOver;
    StepKeepsInv(s, op);
    forall w | w in other.queue
      ensures After(s, op).m.tasks[w].state == Ready
           || (After(s, op).m.tasks[w].state == Waiting && After(s, op).m.tasks[w].period > 0)
    {
      StepLeaves(s, op, w);
    }
    forall w | w in After(s, op).m.queue ensures w !in other.queue {
      QueueGrows(s, op, w);
    }
  }

  lemma PairStep(p: Pair, o: PairOp)
    requires PairInv(p) && PairPossible(p, o)
    ensures PairInv(PairAfter(p, o)) && |PairAfter(p, o).a.tasks| == |p.a.tasks|
  {
    hide Inv, After, Possible;
    match o {
      case OnA(op) => OtherKeeps(p.A(), p.b, op); StepKeepsInv(p.A(), op);
      case OnB(op) => OtherKeeps(p.B(), p.a, op); StepKeepsInv(p.B(), op);
    }
  }

  lemma {:induction false} PairOverRuns(ps: seq<Pair>, os: seq<PairOp>, n: nat)
    requires PairRunOf(ps, os) && PairInv(ps[0]) && n < |ps|
    ensures PairInv(ps[n]) && |ps[n].a.tasks| == |ps[0].a.tasks|
    decreases n
  {
    hide PairInv, PairAfter, PairPossible;
    if n > 0 {
      PairOverRuns(ps, os, n - 1);
      assert PairHappens(ps[n - 1], os[n - 1], ps[n]);
      PairStep(ps[n - 1], os[n - 1]);
    }
  }

  /** Another task blocks on `b`. */
  predicate Joins(o: PairOp, t: nat) { o.OnB? && o.op.LockOp? && o.op.task != t }

  /**
   While one task holds both, the saved deadline of `a` stays, and so do the waiting tasks of `b`; who blocks joins
   them.
   */
  lemma HeldStep(p: Pair, o: PairOp, t: nat)
    requires PairInv(p) && PairPossible(p, o) && p.a.owner == p.b.owner == t
    requires PairAfter(p, o).a.owner == PairAfter(p, o).b.owner == t
    ensures var p' := PairAfter(p, o);
            && PairInv(p') && |p'.b.tasks| == |p.b.tasks| && p'.a.original == p.a.original
            && p'.b.queue == p.b.queue + (if Joins(o, t) then [o.op.task] else [])
            && (forall w :: w in p.b.queue ==> w < |p.brought| && p'.brought[w] == p.brought[w])
            && (Joins(o, t) ==>
                  o.op.task < |p.b.tasks| && p'.brought[o.op.task] == p.b.tasks[o.op.task].deadline)
  {
    hide Distinct, WakeAlong, HandedOver, Walk, LockLinks, UnlockLinks;
    PairStep(p, o);
    assert p.b.queue + [] == p.b.queue;
    if o.op == UnlockOp(t) {
      if o.OnA? && p.a.count == 1 { Released(p.a, t); }
      if o.OnB? && p.b.count == 1 { Released(p.b, t); }
    }
  }

  /** The task holds both mutexes in every state after `i` up to `n`. */
  predicate HoldsBoth(ps: seq<Pair>, i: nat, n: nat, t: nat)
    requires n < |ps|
  {
    forall k :: i < k <= n ==> ps[k].a.owner == ps[k].b.owner == t
  }

  /** A task that holds `b` takes the free mutex `a`. */
  predicate Takes(p: Pair, o: PairOp, t: nat) {
    !p.a.locked && p.b.owner == t && (o == OnA(LockOp(t)) || o == OnA(TryLockOp(t)))
  }

  /** No task calls the lock of `b` with a deadline before `date` from step `i + 1` to step `n - 1`. */
  predicate NoneBlocksBelow(ps: seq<Pair>, os: seq<PairOp>, i: nat, n: nat, t: nat, date: nat)
    requires n <= |os| < |ps|
  {
    forall k :: i < k < n && Joins(os[k], t) && os[k].op.task < |ps[k].b.tasks|
      ==> date <= ps[k].b.tasks[os[k].op.task].deadline
  }

  /** No task that waits for `b` has brought a deadline before `date`. */
  ghost predicate NoneBroughtBelow(p: Pair, date: nat) {
    forall w :: w in p.b.queue && w < |p.brought| ==> date <= p.brought[w]
  }

  lemma TakenA(p: Pair, o: PairOp, t: nat)
    requires PairInv(p) && PairPossible(p, o) && Takes(p, o, t)
    ensures t < |p.b.tasks| && PairAfter(p, o).a.original == p.b.tasks[t].deadline && PairAfter(p, o).b == p.b
    ensures PairAfter(p, o).brought == p.brought
  {
    hide Distinct;
  }

  lemma SameBrought(p: Pair, p': Pair, date: nat)
    requires p'.b.queue == p.b.queue && p'.brought == p.brought
    ensures NoneBroughtBelow(p', date) <==> NoneBroughtBelow(p, date)
  {
  }

  lemma BroughtAfter(p: Pair, o: PairOp, t: nat, date: nat)
    requires PairInv(p) && PairPossible(p, o) && p.a.owner == p.b.owner == t
    requires PairAfter(p, o).a.owner == PairAfter(p, o).b.owner == t
    ensures NoneBroughtBelow(PairAfter(p, o), date) <==>
      && NoneBroughtBelow(p, date)
      && (Joins(o, t) && o.op.task < |p.b.tasks| ==> date <= p.b.tasks[o.op.task].deadline)
  {
    hide After, HandedOver, Distinct;
    HeldStep(p, o, t);
    var p' := PairAfter(p, o);
    hide PairAfter, PairPossible;
    assert Joins(o, t) ==> p'.b.queue[|p.b.queue|] == o.op.task;
    forall w | w in p'.b.queue ensures w in p.b.queue || (Joins(o, t) && w == o.op.task) {
    }
    forall w | w in p.b.queue ensures w in p'.b.queue {
    }
  }

  lemma LastStep(ps: seq<Pair>, os: seq<PairOp>, i: nat, n: nat, t: nat, date: nat)
    requires i + 1 < n <= |os| < |ps|
    ensures NoneBlocksBelow(ps, os, i, n, t, date) <==>
      && NoneBlocksBelow(ps, os, i, n - 1, t, date)
      && var w := if Joins(os[n - 1], t) then os[n - 1].op.task else |ps[n - 1].b.tasks|;
         (w < |ps[n - 1].b.tasks| ==> date <= ps[n - 1].b.tasks[w].deadline)
  {
  }

  /**
   What the waiting tasks of `b` have brought is what those at the start had, and what those brought that blocked
   since.
   */
  lemma {:induction false} BroughtSince(ps: seq<Pair>, os: seq<PairOp>, i: nat, n: nat, t: nat, date: nat)
    requires PairRunOf(ps, os) && PairInv(ps[0]) && i < n < |ps| && HoldsBoth(ps, i, n, t) && Takes(ps[i], os[i], t)
    ensures PairInv(ps[i]) && PairInv(ps[n]) && |ps[n].b.tasks| == |ps[i].b.tasks| && t < |ps[i].b.tasks|
    ensures ps[n].a.original == ps[i].b.tasks[t].deadline
    ensures NoneBroughtBelow(ps[n], date) <==>
      NoneBroughtBelow(ps[i], date) && NoneBlocksBelow(ps, os, i, n, t, date)
    decreases n
  {
    hide PairInv, After, HandedOver, Distinct;
    PairOverRuns(ps, os, i);
    PairOverRuns(ps, os, n);
    PairOverRuns(ps, os, n - 1);
    assert PairHappens(ps[n - 1], os[n - 1], ps[n]);
    if n == i + 1 {
      TakenA(ps[i], os[i], t);
      SameBrought(ps[i], ps[n], date);
    } else {
      BroughtSince(ps, os, i, n - 1, t, date);
      HeldStep(ps[n - 1], os[n - 1], t);
      BroughtAfter(ps[n - 1], os[n - 1], t, date);
      LastStep(ps, os, i, n, t, date);
    }
  }

  /**
   A task takes `b`, then `a`, and releases `a` for good while it still holds `b`. Then
   its deadline is the one it had when it took `a`, and this is no later than every
   deadline that the waiting tasks of `b` have brought exactly if that was so when it took
   `a`, and no task has called the lock of `b` with an earlier deadline since.
   */
  lemma ReleaseKeepsOtherIff(ps: seq<Pair>, os: seq<PairOp>, i: nat, n: nat, t: nat)
    requires PairRunOf(ps, os) && PairInv(ps[0]) && i < n < |os|
    requires HoldsBoth(ps, i, n, t) && Takes(ps[i], os[i], t)
    requires os[n] == OnA(UnlockOp(t)) && ps[n].a.count == 1
    ensures t < |ps[i].b.tasks| == |ps[n + 1].b.tasks|
    ensures var date := ps[i].b.tasks[t].deadline;
            && ps[n + 1].b.tasks[t].deadline == date
            && (NoneBroughtBelow(ps[n + 1], date) <==>
                  NoneBroughtBelow(ps[i], date) && NoneBlocksBelow(ps, os, i, n, t, date))
  {
    hide After, HandedOver, Distinct, NoneBlocksBelow, NoneBroughtBelow;
    PairOverRuns(ps, os, i);
    PairOverRuns(ps, os, n);
    var p, date := ps[n], ps[i].b.tasks[t].deadline;
    assert PairHappens(ps[n], os[n], ps[n + 1]);
    BroughtSince(ps, os, i, n, t, date);
    ReleasedA(p, t);
    SameBrought(p, ps[n + 1], date);
  }

  /** What the final unlock of `a` does to the other mutex. */
  lemma ReleasedA(p: Pair, t: nat)
    requires PairInv(p) && PairPossible(p, OnA(UnlockOp(t))) && p.a.owner == p.b.owner == t && p.a.count == 1
    ensures var p' := PairAfter(p, OnA(UnlockOp(t)));
            && t < |p.b.tasks| == |p'.b.tasks| && p'.b.tasks[t].deadline == p.a.original
            && p'.b.queue == p.b.queue && p'.brought == p.brought
  {
    hide Distinct, HandedOver, UnlockLinks;
    FinalUnlock(p.a, t);
  }

  // ----- a run from initialisation -----

  datatype PairMachine = PairMachine(p: Pair, current: nat)

  /** Calls come from the running task, and decisions are the scheduler's. */
  predicate PairRuns(k: PairMachine, o: PairOp, k': PairMachine) {
    && PairHappens(k.p, o, k'.p) && |k'.p.nexts| == |k'.p.a.tasks|
    && !o.op.OtherOp? && (o.op.TickOp? || o.op.task == k.current)
    && k'.current == if Reschedules(if o.OnA? then k.p.A() else k.p.B(), o.op) then Picked(k'.p.A()) else k.current
  }

  ghost predicate PairMachineRunOf(ks: seq<PairMachine>, os: seq<PairOp>) {
    && |ks| == |os| + 1
    && forall i, j :: 0 <= i < |os| && j == i + 1 ==> PairRuns(ks[i], os[i], ks[j])
  }

  /** What two initialisations leave. */
  function FreePair(tasks: seq<TaskRec>): Pair {
    Pair(Free(tasks).m, Free(tasks).m, Created(|tasks|), 0, seq(|tasks|, _ => 0))
  }

  function StartedPair(tasks: seq<TaskRec>): PairMachine {
    PairMachine(FreePair(tasks), Picked(Free(tasks)))
  }

  /** Task 2 holds the mutex, which it took with deadline 10, or nobody does. */
  function MutexOf(tasks: seq<TaskRec>, held: bool, original: nat, queue: seq<nat>): MutexState {
    MutexState(tasks, held, if held then 2 else NONE, if held then 1 else 0, original, queue)
  }

  /** Task 1 yields its first period away, and task 2 takes both mutexes. */
  lemma TakesBoth(w: TaskRec, o: TaskRec)
    requires w.state == o.state == Ready && 0 < w.period && w.deadline < o.deadline == 10
    requires MayCall(Free([IDLE, w, o]).m, 1) && MayCall(Free([IDLE, Yielded(w), o]).m, 2)
    ensures var ts, ns := [IDLE, Yielded(w), o], [NONE, 0, 1];
            var free, held := MutexOf(ts, false, 0, []), MutexOf(ts, true, 10, []);
            && PairRuns(StartedPair([IDLE, w, o]), OnA(YieldOp(1)), PairMachine(Pair(free, free, ns, 0, [0, 0, 0]), 2))
            && PairRuns(PairMachine(Pair(free, free, ns, 0, [0, 0, 0]), 2), OnB(LockOp(2)),
                        PairMachine(Pair(free, held, ns, 0, [0, 0, 0]), 2))
            && PairRuns(PairMachine(Pair(free, held, ns, 0, [0, 0, 0]), 2), OnA(LockOp(2)),
                        PairMachine(Pair(held, held, ns, 0, [0, 0, 0]), 2))
  {
    hide Walk, BestAlong, PickAlong;
    var list, ts := [2, 1, 0], [IDLE, Yielded(w), o];
    assert Created(3) == [NONE, 0, 1] && FreePair([IDLE, w, o]).brought == [0, 0, 0];
    assert Walk(Created(3)) == list by { WalkChained(Created(3), list); }
    assert PickAlong([IDLE, w, o], list) == 1 by { PickAlongIs([IDLE, w, o], list, 1); }
    assert PickAlong(ts, list) == 2 by { PickAlongIs(ts, list, 2); }
  }

  /** The next tick wakes task 1, which has the earlier deadline. */
  lemma WaiterWakes(w: TaskRec, o: TaskRec)
    requires w.state == Waiting && w.arrival == 1 && w.deadline < o.deadline == 10 && o.state == Ready
    ensures var ts, ts', ns := [IDLE, w, o], [IDLE, w.(state := Ready), o], [NONE, 0, 1];
            var held, held' := MutexOf(ts, true, 10, []), MutexOf(ts', true, 10, []);
            PairRuns(PairMachine(Pair(held, held, ns, 0, [0, 0, 0]), 2), OnA(TickOp),
                     PairMachine(Pair(held', held', ns, 1, [0, 0, 0]), 1))
  {
    hide Walk, BestAlong, PickAlong, WakeAlong, DueAlong;
    var list, ts, ts' := [2, 1, 0], [IDLE, w, o], [IDLE, w.(state := Ready), o];
    assert Walk([NONE, 0, 1]) == list by { WalkChained([NONE, 0, 1], list); }
    assert DueAlong(ts, list, 1) && WakeAlong(ts, list, 1) == ts' by { WakesOne(ts, list, 1, 1); }
    assert PickAlong(ts', list) == 1 by { PickAlongIs(ts', list, 1); }
  }

  /** It blocks on `b`, whose owner inherits its deadline and is picked. */
  lemma WaiterBlocks(w: TaskRec, o: TaskRec)
    requires w.state == Ready && w.deadline == 2 && w.period > 0 && o.state == Ready && o.deadline == 10
    requires MayCall(Free([IDLE, w, o]).m, 1)
    ensures var ts, ts' := [IDLE, w, o], [IDLE, Yielded(w), o.(deadline := 2)];
            var held := MutexOf(ts, true, 10, []);
            PairRuns(PairMachine(Pair(held, held, [NONE, 0, 1], 1, [0, 0, 0]), 1), OnB(LockOp(1)),
                     PairMachine(Pair(MutexOf(ts', true, 10, []), MutexOf(ts', true, 10, [1]),
                                      [NONE, NONE, 1], 1, [0, 2, 0]), 2))
  {
    hide Walk, BestAlong, PickAlong;
    var list, ts' := [2, 1], [IDLE, Yielded(w), o.(deadline := 2)];
    assert Walk([NONE, NONE, 1]) == list by { WalkChained([NONE, NONE, 1], list); }
    assert PickAlong(ts', list) == 2 by { PickAlongIs(ts', list, 2); }
  }

  /** The owner releases `a`, and has its own deadline back. */
  lemma OwnerReleases(w: TaskRec, o: TaskRec)
    requires MayCall(Free([IDLE, w, o]).m, 2)
    ensures var ts, ts' := [IDLE, w, o], [IDLE, w, o.(deadline := 10)];
            PairRuns(PairMachine(Pair(MutexOf(ts, true, 10, []), MutexOf(ts, true, 10, [1]),
                                      [NONE, NONE, 1], 1, [0, 2, 0]), 2), OnA(UnlockOp(2)),
                     PairMachine(Pair(MutexOf(ts', false, 10, []), MutexOf(ts', true, 10, [1]),
                                      [NONE, NONE, 1], 1, [0, 2, 0]), 2))
  {
    hide Walk, BestAlong, PickAlong;
  }

  /**
   Task 1 is done with its period, task 2 takes `b` and then `a`, task 1 comes back and
   blocks on `b` with deadline 2, and releasing `a` puts task 2 back to deadline 10.
   */
  lemma InheritanceLost()
    ensures var os := [OnA(YieldOp(1)), OnB(LockOp(2)), OnA(LockOp(2)), OnA(TickOp), OnB(LockOp(1)), OnA(UnlockOp(2))];
            var k0 := StartedPair([IDLE, NewTask(0, 1, 1), NewTask(0, 10, 10)]);
            exists k1, k2, k3, k4, k5, k6 :: PairMachineRunOf([k0, k1, k2, k3, k4, k5, k6], os)
              && |k5.p.b.tasks| == |k6.p.b.tasks| == |k6.p.brought| == 3
              && k5.p.b.tasks[2].deadline == 2 && k6.p.b.tasks[2].deadline == 10
              && k6.p.b.owner == 2 && k6.p.b.queue == [1] && k6.p.brought[1] == 2
  {
    hide Walk, BestAlong, PickAlong, PairRuns;
    var w0, o := NewTask(0, 1, 1), NewTask(0, 10, 10);
    var w := Yielded(w0);
    var w' := w.(state := Ready);
    TakesBoth(w0, o);
    WaiterWakes(w, o);
    WaiterBlocks(w', o);
    OwnerReleases(Yielded(w'), o.(deadline := 2));
    var ts, ts', ns := [IDLE, w, o], [IDLE, w', o], [NONE, 0, 1];
    var free, held, held' := MutexOf(ts, false, 0, []), MutexOf(ts, true, 10, []), MutexOf(ts', true, 10, []);
    var ts5, ts6 := [IDLE, Yielded(w'), o.(deadline := 2)], [IDLE, Yielded(w'), o.(deadline := 2).(deadline := 10)];
    var k0 := StartedPair([IDLE, w0, o]);
    var k1 := PairMachine(Pair(free, free, ns, 0, [0, 0, 0]), 2);
    var k2 := PairMachine(Pair(free, held, ns, 0, [0, 0, 0]), 2);
    var k3 := PairMachine(Pair(held, held, ns, 0, [0, 0, 0]), 2);
    var k4 := PairMachine(Pair(held', held', ns, 1, [0, 0, 0]), 1);
    var b5, b6 := MutexOf(ts5, true, 10, [1]), MutexOf(ts6, true, 10, [1]);
    var k5 := PairMachine(Pair(MutexOf(ts5, true, 10, []), b5, [NONE, NONE, 1], 1, [0, 2, 0]), 2);
    var k6 := PairMachine(Pair(MutexOf(ts6, false, 10, []), b6, [NONE, NONE, 1], 1, [0, 2, 0]), 2);
    assert PairMachineRunOf([k0, k1, k2, k3, k4, k5, k6],
      [OnA(YieldOp(1)), OnB(LockOp(2)), OnA(LockOp(2)), OnA(TickOp), OnB(LockOp(1)), OnA(UnlockOp(2))]);
  }
}
