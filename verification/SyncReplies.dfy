/** What the answers of the mutex calls mean, in owner and count. */
module SyncReplies {
  import opened Links
  import opened SchedulerSpec
  import opened SyncSpec
  import opened SyncRuns
  import opened WaitLists

  /** Task `t` owns the mutex. */
  predicate Owns(m: MutexState, t: nat) { m.locked && m.owner == t }

  /** How deep task `t` is nested in the mutex. */
  function DepthOf(m: MutexState, t: nat): int { if Owns(m, t) then m.count else 0 }

  /** What the call of step `n` answers. */
  function Answer(s: Sys, op: Op): Status
    requires Possible(s, op)
  {
    match op
    case LockOp(t) => Lock(s.m, t).status
    case TryLockOp(t) => TryLock(s.m, t).status
    case UnlockOp(t) => Unlock(s.m, t).status
    case _ => OK
  }

  /**
   A try-lock answers OK exactly if the caller then owns the mutex, nested once more than
   before, and TIMEOUT exactly if another task owned it, with nothing changed.
   */
  lemma TryLockAnswers(ss: seq<Sys>, ops: seq<Op>, n: nat, tasks: seq<TaskRec>, t: nat)
    requires RunOf(ss, ops) && ss[0] == Free(tasks) && n < |ops| && ops[n] == TryLockOp(t)
    ensures Possible(ss[n], ops[n])
    ensures var m, m', answer := ss[n].m, ss[n + 1].m, Answer(ss[n], ops[n]);
            && (answer == OK <==> Owns(m', t))
            && (answer == OK ==> DepthOf(m', t) == DepthOf(m, t) + 1 && m'.tasks == m.tasks && m'.queue == m.queue)
            && (answer == TIMEOUT <==> m.locked && m.owner != t)
            && (answer == TIMEOUT ==> ss[n + 1] == ss[n])
            && answer != ERROR
  {
    hide Inv, Distinct;
    MutexFromInit(ss, ops, tasks);
    assert Happens(ss[n], ops[n], ss[n + 1]);
  }

  /**
   A lock always answers OK. The caller then owns the mutex, nested once more than before,
   exactly if no other task owned it; otherwise the owner stays as it was, with a
   deadline no later than the caller's at the call, and the caller is the last to wait.
   */
  lemma LockAnswers(ss: seq<Sys>, ops: seq<Op>, n: nat, tasks: seq<TaskRec>, t: nat)
    requires RunOf(ss, ops) && ss[0] == Free(tasks) && n < |ops| && ops[n] == LockOp(t)
    ensures Possible(ss[n], ops[n]) && Answer(ss[n], ops[n]) == OK && |ss[n + 1].m.tasks| == |ss[n].m.tasks|
    ensures var m, m' := ss[n].m, ss[n + 1].m;
            && (Owns(m', t) <==> !m.locked || m.owner == t)
            && (Owns(m', t) ==> DepthOf(m', t) == DepthOf(m, t) + 1 && m'.tasks == m.tasks && m'.queue == m.queue)
            && (!Owns(m', t) ==>
                  && m'.locked && m'.owner == m.owner && m'.count == m.count && m'.queue == m.queue + [t]
                  && 0 <= m.owner < |m.tasks| && t < |m.tasks|
                  && var was, now, asked := m.tasks[m.owner].deadline, m'.tasks[m.owner].deadline, m.tasks[t].deadline;
                     now <= was && now <= asked && (now == was || now == asked))
  {
    hide Inv, Distinct, LockLinks;
    MutexFromInit(ss, ops, tasks);
    assert Happens(ss[n], ops[n], ss[n + 1]);
    OwnerInRange(ss[n].m);
  }

  lemma OwnerInRange(m: MutexState)
    requires Inv(m)
    ensures (m.locked <==> m.owner != NONE) && (m.locked ==> 0 <= m.owner < |m.tasks| && m.count >= 1)
  {
  }

  /**
   An unlock answers ERROR exactly if the caller did not own the mutex, with nothing
   changed; otherwise it answers OK, and the caller is nested once less, down to not
   owning it.
   */
  lemma UnlockAnswers(ss: seq<Sys>, ops: seq<Op>, n: nat, tasks: seq<TaskRec>, t: nat)
    requires RunOf(ss, ops) && ss[0] == Free(tasks) && n < |ops| && ops[n] == UnlockOp(t)
    ensures Possible(ss[n], ops[n])
    ensures var m, m', answer := ss[n].m, ss[n + 1].m, Answer(ss[n], ops[n]);
            && (answer == ERROR <==> !Owns(m, t))
            && (answer == ERROR ==> ss[n + 1] == ss[n])
            && (answer == OK <==> Owns(m, t))
            && (answer == OK ==> DepthOf(m', t) == DepthOf(m, t) - 1 && (Owns(m', t) <==> m.count > 1))
  {
    hide Inv, Distinct, HandedOver, UnlockLinks;
    MutexFromInit(ss, ops, tasks);
    assert Happens(ss[n], ops[n], ss[n + 1]);
    OwnerInRange(ss[n].m);
    if ss[n].m.owner != t {
      NotHanded(ss[n], t);
    }
    if Owns(ss[n].m, t) && ss[n].m.count == 1 {
      Released(ss[n].m, t);
    }
  }

  lemma NotHanded(s: Sys, t: nat)
    requires InRange(s.m) && |s.nexts| == |s.m.tasks| && t < |s.m.tasks| && s.m.owner != t
    ensures UnlockLinks(s.m, s.nexts, t) == s.nexts
  {
  }

  // ----- semaphore -----

  /**
   A post readies the task that has waited longest and takes it off the queue, touching no
   other task and no count; if nobody waits it adds one to the count, up to the maximum.
   */
  lemma PostReadies(rs: seq<Run>, ops: seq<SemOp>, n: nat)
    requires SemRunOf(rs, ops) && SemFresh(rs[0]) && n < |ops| && ops[n] == PostOp
    ensures var s, s' := rs[n].s, rs[n + 1].s;
            if s.queue == [] then
              s'.tasks == s.tasks && s'.queue == [] && s'.count == (if s.count + 1 <= s.max then s.count + 1 else s.max)
            else
              && s'.count == s.count == 0 && |s'.tasks| == |s.tasks| && s.queue == [s.queue[0]] + s'.queue
              && forall x :: 0 <= x < |s.tasks| ==>
                   s'.tasks[x] == if x == s.queue[0] then s.tasks[x].(state := Ready) else s.tasks[x]
  {
    hide Distinct, Dequeued;
    SemaphoreOverRuns(rs, ops, n);
    assert SemHappens(rs[n], ops[n], rs[n + 1]);
  }

  /**
   A wait or a try-wait takes one from a positive count and touches no task. At count zero
   a try-wait changes nothing, and a wait puts its task at the end of the queue, out of
   the running until its next arrival if it has a period.
   */
  lemma WaitTakesOrJoins(rs: seq<Run>, ops: seq<SemOp>, n: nat, t: nat)
    requires SemRunOf(rs, ops) && SemFresh(rs[0]) && n < |ops| && (ops[n] == WaitOp(t) || ops[n] == TryWaitOp(t))
    ensures var s, s' := rs[n].s, rs[n + 1].s;
            if s.count > 0 then s'.count == s.count - 1 && s'.tasks == s.tasks && s'.queue == s.queue == []
            else if ops[n].TryWaitOp? then rs[n + 1] == rs[n]
            else
              && s'.count == 0 && s'.queue == s.queue + [t] && t < |s.tasks| == |s'.tasks|
              && s'.tasks[t].state == (if s.tasks[t].period > 0 then Waiting else Ready)
              && s'.tasks[t].arrival == s.tasks[t].arrival + s.tasks[t].period
              && forall x :: 0 <= x < |s.tasks| && x != t ==> s'.tasks[x] == s.tasks[x]
  {
    hide Distinct, Enqueued;
    SemaphoreOverRuns(rs, ops, n);
    assert SemHappens(rs[n], ops[n], rs[n + 1]);
  }
}
