/**
 Mutex and semaphore over the scheduler's task blocks, linked in wait lists, each call
 proved to be its function on tasks, fields and queue.
 */
module Sync {
  import opened Arithmetic
  import opened Links
  import opened Scheduler
  import opened SchedulerSpec
  import opened SyncSpec
  import opened WaitLists

  ghost predicate PoolOk(pool: seq<Task>) {
    forall i :: 0 <= i < |pool| ==> pool[i].id == i
  }

  ghost function Nexts(pool: seq<Task>): (r: seq<Task?>)
    reads pool
    ensures |r| == |pool|
  {
    seq(|pool|, i requires 0 <= i < |pool| reads pool => pool[i].next)
  }

  ghost predicate Queued(pool: seq<Task>, nexts: seq<Task?>, queue: seq<nat>, head: Task?) {
    PoolOk(pool) && |nexts| == |pool| && InPool(pool, queue) && Distinct(queue)
      && Linked(pool, nexts, null, queue, head)
  }

  lemma Placed(pool: seq<Task>, t: Task)
    requires PoolOk(pool) && t in pool
    ensures t.id < |pool| && pool[t.id] == t
    ensures Records(pool)[t.id] == t.Rec() && Nexts(pool)[t.id] == t.next && Pointers(pool)[t.id] == Number(t.next)
  {
  }

  lemma HeadOf(pool: seq<Task>, nexts: seq<Task?>, queue: seq<nat>, head: Task?)
    requires Queued(pool, nexts, queue, head)
    ensures PoolOk(pool) && InPool(pool, queue) && head == if queue == [] then null else pool[queue[0]]
  {
    hide Distinct;
    Follow(pool, nexts, null, queue, head, 0);
  }

  /** Unlinking the task at position `k`. */
  lemma Removed(pool: seq<Task>, nexts: seq<Task?>, queue: seq<nat>, head: Task?, k: nat)
    requires Queued(pool, nexts, queue, head) && k < |queue|
    ensures InPool(pool, queue) && PoolOk(pool)
    ensures var next := nexts[queue[k]];
            var nexts' := if k == 0 then nexts else nexts[queue[k - 1] := next];
            Queued(pool, nexts'[queue[k] := null], queue[..k] + queue[k + 1..], if k == 0 then next else head)
  {
    hide Linked, Distinct;
    var r, next := queue[..k] + queue[k + 1..], nexts[queue[k]];
    RemovedAt(pool, nexts, null, queue, head, k);
    StillLinked(pool, if k == 0 then nexts else nexts[queue[k - 1] := next], null, r,
                if k == 0 then next else head, queue[k], null);
  }

  // ----- assignments, with what they do to the tasks as a whole -----

  method SetNext(ghost pool: seq<Task>, t: Task, next: Task?)
    requires PoolOk(pool) && t in pool
    modifies t`next
    ensures t.next == next && t.id < |pool|
    ensures Nexts(pool) == old(Nexts(pool))[t.id := next] && Records(pool) == old(Records(pool))
    ensures Pointers(pool) == old(Pointers(pool))[t.id := Number(next)]
  {
    t.next := next;
  }

  method SetState(ghost pool: seq<Task>, t: Task, state: TaskState)
    requires PoolOk(pool) && t in pool
    modifies t`state
    ensures t.id < |pool| && Nexts(pool) == old(Nexts(pool)) && Pointers(pool) == old(Pointers(pool))
    ensures var r := old(Records(pool)); Records(pool) == r[t.id := r[t.id].(state := state)]
  {
    t.state := state;
  }

  method SetDeadline(ghost pool: seq<Task>, t: Task, deadline: nat)
    requires PoolOk(pool) && t in pool
    modifies t`deadline
    ensures t.id < |pool| && Nexts(pool) == old(Nexts(pool)) && Pointers(pool) == old(Pointers(pool))
    ensures var r := old(Records(pool)); Records(pool) == r[t.id := r[t.id].(deadline := deadline)]
  {
    t.deadline := deadline;
  }

  /** What the yield at the end of a blocking call does to the calling task. */
  method YieldTask(ghost pool: seq<Task>, t: Task)
    requires PoolOk(pool) && t in pool
    modifies t`deadline, t`arrival, t`state
    ensures t.id < |pool| && Nexts(pool) == old(Nexts(pool)) && Pointers(pool) == old(Pointers(pool))
    ensures var r := old(Records(pool)); Records(pool) == r[t.id := Yielded(r[t.id])]
  {
    if t.period > 0 {
      t.state := Waiting;
      t.arrival := U32(t.arrival + t.period);
      t.deadline := U32(t.deadline + t.period);
    } else {
      t.state := Ready;
    }
  }

  // ----- wait lists -----

  /** The last block of a non-empty wait list. */
  method Last(ghost pool: seq<Task>, ghost queue: seq<nat>, head: Task) returns (node: Task)
    requires Queued(pool, Nexts(pool), queue, head)
    ensures queue != [] && node == pool[queue[|queue| - 1]]
  {
    hide Linked, Distinct, Records, Pointers, Nexts;
    Follow(pool, Nexts(pool), null, queue, head, 0);
    node := head;
    ghost var i := 0;
    while node.next != null
      invariant i < |queue| && node == pool[queue[i]]
      decreases |queue| - i
    {
      Placed(pool, node);
      Follow(pool, Nexts(pool), null, queue, head, i);
      node := node.next;
      i := i + 1;
    }
    Placed(pool, node);
    Follow(pool, Nexts(pool), null, queue, head, i);
  }

  /** Puts a task at the end of a wait list. */
  method Enqueue(ghost pool: seq<Task>, ghost queue: seq<nat>, head: Task?, t: Task) returns (head': Task)
    requires Queued(pool, Nexts(pool), queue, head) && t in pool && t.id !in queue
    modifies (set w | w in pool)`next
    ensures Queued(pool, Nexts(pool), queue + [t.id], head')
    ensures InPool(pool, queue) && t.id < |pool| && Pointers(pool) == Enqueued(old(Pointers(pool)), queue, t.id)
    ensures Records(pool) == old(Records(pool))
  {
    hide Linked, Distinct, Records, Pointers, Nexts;
    Placed(pool, t);
    Follow(pool, Nexts(pool), null, queue, head, 0);
    Appended(pool, Nexts(pool), null, queue, head, t.id);
    if head == null {
      head' := t;
      assert [] + [t.id] == [t.id];
    } else {
      head' := head;
      var node := Last(pool, queue, head);
      SetNext(pool, node, t);
    }
    SetNext(pool, t, null);
  }

  /** A task that has to wait: it joins the wait list and yields. */
  method QueueUp(ghost pool: seq<Task>, ghost queue: seq<nat>, head: Task?, t: Task) returns (head': Task)
    requires Queued(pool, Nexts(pool), queue, head) && t in pool && t.id !in queue
    modifies (set w | w in pool)`next, t`state, t`deadline, t`arrival
    ensures Queued(pool, Nexts(pool), queue + [t.id], head')
    ensures InPool(pool, queue) && t.id < |pool| && Pointers(pool) == Enqueued(old(Pointers(pool)), queue, t.id)
    ensures var r := old(Records(pool)); Records(pool) == r[t.id := Yielded(r[t.id].(state := Waiting))]
  {
    hide Linked, Distinct, Records, Pointers, Nexts, Enqueued, Yielded;
    SetState(pool, t, Waiting);
    head' := Enqueue(pool, queue, head, t);
    YieldTask(pool, t);
  }

  class Mutex {
    var locked: bool
    var owner: Task?
    var lockCount: int
    var originalDeadline: nat
    var waitList: Task?

    /** The tasks of the system, and those in the wait list; in the proof only. */
    ghost const tasks: seq<Task>
    ghost var queue: seq<nat>

    ghost predicate Valid()
      reads this, tasks
    {
      && Queued(tasks, Nexts(tasks), queue, waitList)
      && (owner != null ==> owner in tasks) && (locked ==> owner != null)
    }

    ghost function View(): MutexState
      reads this, tasks
    {
      MutexState(Records(tasks), locked, if owner == null then NONE else owner.id, lockCount, originalDeadline, queue)
    }

    constructor (ghost tasks: seq<Task>)
      requires PoolOk(tasks)
      ensures Valid() && this.tasks == tasks && View() == MutexState(Records(tasks), false, NONE, 0, 0, [])
    {
      locked, owner, lockCount, originalDeadline, waitList := false, null, 0, 0, null;
      this.tasks := tasks;
      queue := [];
    }

    lemma ViewOk()
      requires Valid()
      ensures InRange(View()) && PoolOk(tasks)
      ensures owner != null ==>
        owner.id < |tasks| && tasks[owner.id] == owner && Records(tasks)[owner.id] == owner.Rec()
    {
      hide Linked, Distinct;
    }

    method Lock(current: Task?) returns (status: Status)
      requires Valid() && (current != null ==> current in tasks && current.id !in queue)
      modifies this, (set w | w in tasks)
      ensures Valid()
      ensures InRange(old(View())) && (current != null ==> current.id < |old(View()).tasks|)
      ensures if current == null then status == ERROR && View() == old(View())
              else var r := SyncSpec.Lock(old(View()), current.id); View() == r.m && status == r.status
      ensures current != null ==> Pointers(tasks) == LockLinks(old(View()), old(Pointers(tasks)), current.id)
    {
      hide Linked, Distinct, Records, Pointers, Nexts, Queued, Enqueued;
      ViewOk();
      if current == null {
        return ERROR;
      }
      Placed(tasks, current);
      if !locked {
        locked, owner, lockCount, originalDeadline := true, current, 1, current.deadline;
        return OK;
      }
      if owner == current {
        lockCount := lockCount + 1;
        return OK;
      }
      Block(current);
      return OK;
    }

    /** The owner inherits the deadline if it is earlier, and the calling task queues up and yields. */
    method Block(current: Task)
      requires Valid() && current in tasks && current.id !in queue && locked && owner != current
      modifies this`waitList, this`queue, (set w | w in tasks)
      ensures Valid() && InRange(old(View())) && current.id < |old(View()).tasks|
      ensures View() == Blocked(old(View()), current.id)
      ensures Pointers(tasks) == LockLinks(old(View()), old(Pointers(tasks)), current.id)
    {
      hide Linked, Distinct, Records, Pointers, Nexts, Queued, Enqueued, Yielded;
      ViewOk();
      Placed(tasks, current);
      Placed(tasks, owner);
      if current.deadline < owner.deadline {
        SetDeadline(tasks, owner, current.deadline);
      }
      waitList := QueueUp(tasks, queue, waitList, current);
      queue := queue + [current.id];
    }

    method TryLock(current: Task?) returns (status: Status)
      requires Valid() && (current != null ==> current in tasks)
      modifies this`locked, this`owner, this`lockCount, this`originalDeadline
      ensures Valid()
      ensures current != null ==> current.id < |old(View()).tasks|
      ensures if current == null then status == ERROR && View() == old(View())
              else var r := SyncSpec.TryLock(old(View()), current.id); View() == r.m && status == r.status
      ensures current != null ==>
        && (status == OK <==> locked && owner == current)
        && (status == TIMEOUT <==> old(locked) && old(owner) != current)
    {
      hide Linked, Distinct, Records, Pointers, Nexts, Queued;
      ViewOk();
      if current == null {
        return ERROR;
      }
      Placed(tasks, current);
      if !locked {
        locked, owner, lockCount, originalDeadline := true, current, 1, current.deadline;
        return OK;
      }
      if owner == current {
        lockCount := lockCount + 1;
        return OK;
      }
      return TIMEOUT;
    }

    /** The waiting task with the least deadline, and the one before it in the list. */
    method FindBest() returns (best: Task, prevBest: Task?)
      requires Valid() && waitList != null
      ensures queue != [] && InRange(View())
      ensures var k := BestOf(Records(tasks), queue, |queue|);
              best == tasks[queue[k]] && prevBest == if k == 0 then null else tasks[queue[k - 1]]
    {
      hide Linked, Distinct, Records, Pointers, Nexts;
      ViewOk();
      ghost var ts, i := Records(tasks), 0;
      Follow(tasks, Nexts(tasks), null, queue, waitList, 0);
      best, prevBest := waitList, null;
      var prev: Task?, node: Task? := null, waitList;
      while node != null
        invariant i <= |queue| && node == At(tasks, null, queue, i)
        invariant prev == if i == 0 then null else tasks[queue[i - 1]]
        invariant i == 0 ==> best == waitList && prevBest == null
        invariant best in tasks
        invariant i > 0 ==>
          var k := BestOf(ts, queue, i);
          best == tasks[queue[k]] && prevBest == if k == 0 then null else tasks[queue[k - 1]]
        decreases |queue| - i
      {
        Placed(tasks, node);
        Placed(tasks, best);
        Follow(tasks, Nexts(tasks), null, queue, waitList, i);
        if node.deadline < best.deadline {
          prevBest := prev;
          best := node;
        }
        prev := node;
        node := node.next;
        i := i + 1;
      }
    }

    /** Takes the task at position `k` off the wait list. */
    method Remove(best: Task, prevBest: Task?, ghost k: nat)
      requires Valid() && k < |queue| && InPool(tasks, queue)
      requires best == tasks[queue[k]] && prevBest == if k == 0 then null else tasks[queue[k - 1]]
      modifies this`waitList, this`queue, (set w | w in tasks)`next
      ensures queue == old(queue)[..k] + old(queue)[k + 1..]
      ensures Valid() && Records(tasks) == old(Records(tasks))
      ensures Pointers(tasks) == Dequeued(old(Pointers(tasks)), old(queue), k)
    {
      hide Linked, Distinct, Records, Pointers, Nexts, Queued;
      Removed(tasks, Nexts(tasks), queue, waitList, k);
      Placed(tasks, best);
      if prevBest == null {
        waitList := best.next;
      } else {
        SetNext(tasks, prevBest, best.next);
      }
      queue := queue[..k] + queue[k + 1..];
      SetNext(tasks, best, null);
    }

    method Unlock(current: Task?) returns (status: Status)
      requires Valid() && (current != null ==> current in tasks)
      modifies this, (set w | w in tasks)
      ensures Valid()
      ensures InRange(old(View())) && (current != null ==> current.id < |old(View()).tasks|)
      ensures if current == null then status == ERROR && View() == old(View())
              else var r := SyncSpec.Unlock(old(View()), current.id); View() == r.m && status == r.status
      ensures current != null ==> Pointers(tasks) == UnlockLinks(old(View()), old(Pointers(tasks)), current.id)
    {
      hide Linked, Distinct, Records, Pointers, Nexts, Queued, Dequeued, BestOf;
      ViewOk();
      if current == null {
        return ERROR;
      }
      Placed(tasks, current);
      if owner != current {
        return ERROR;
      }
      lockCount := lockCount - 1;
      if lockCount > 0 {
        return OK;
      }
      SetDeadline(tasks, current, originalDeadline);
      if waitList != null {
        HandOver();
        return OK;
      }
      HeadOf(tasks, Nexts(tasks), queue, waitList);
      locked := false;
      owner := null;
      return OK;
    }

    /** The best waiting task leaves the queue, ready. */
    method TakeBest() returns (best: Task)
      requires Valid() && waitList != null
      modifies this`waitList, this`queue, (set w | w in tasks)`next, (set w | w in tasks)`state
      ensures Valid() && InRange(old(View())) && old(queue) != [] && best in tasks
      ensures var r, q := old(Records(tasks)), old(queue);
              var k := BestOf(r, q, |q|);
              && best.id == q[k] && queue == q[..k] + q[k + 1..]
              && Records(tasks) == r[q[k] := r[q[k]].(state := Ready)]
              && Pointers(tasks) == Dequeued(old(Pointers(tasks)), q, k)
    {
      hide Linked, Distinct, Records, Pointers, Nexts, Queued, Dequeued, BestOf;
      var prevBest;
      best, prevBest := FindBest();
      ghost var k := BestOf(Records(tasks), queue, |queue|);
      ViewOk();
      Remove(best, prevBest, k);
      ViewOk();
      SetState(tasks, best, Ready);
    }

    /** It becomes the owner. */
    method HandOver()
      requires Valid() && waitList != null
      modifies this`waitList, this`queue, this`owner, this`lockCount, this`originalDeadline, (set w | w in tasks)
      ensures Valid() && InRange(old(View())) && old(queue) != []
      ensures View() == HandedOver(old(View()))
      ensures Pointers(tasks) ==
        Dequeued(old(Pointers(tasks)), old(queue), BestOf(old(Records(tasks)), old(queue), |old(queue)|))
    {
      hide Linked, Distinct, Records, Pointers, Nexts, Queued, Dequeued, BestOf;
      var best := TakeBest();
      ViewOk();
      Placed(tasks, best);
      owner := best;
      lockCount := 1;
      originalDeadline := best.deadline;
    }
  }

  class Semaphore {
    var count: nat
    var maxCount: nat
    var waitList: Task?

    ghost const tasks: seq<Task>
    ghost var queue: seq<nat>

    ghost predicate Valid()
      reads this, tasks
    {
      Queued(tasks, Nexts(tasks), queue, waitList)
    }

    ghost function View(): SemState
      reads this, tasks
    {
      SemState(Records(tasks), count, maxCount, queue)
    }

    /** A maximum of zero leaves the structure as it was; here that is all zero. */
    constructor (initialCount: nat, maxCount: nat, ghost tasks: seq<Task>)
      requires PoolOk(tasks)
      ensures Valid() && this.tasks == tasks
      ensures View() ==
        SemState(Records(tasks), if initialCount > maxCount then maxCount else initialCount, maxCount, [])
    {
      count, this.maxCount, waitList := 0, 0, null;
      this.tasks := tasks;
      queue := [];
      if maxCount > 0 {
        count := if initialCount > maxCount then maxCount else initialCount;
        this.maxCount := maxCount;
      }
    }

    method Wait(current: Task) returns (status: Status)
      requires Valid() && current in tasks && current.id !in queue
      modifies this, (set w | w in tasks)
      ensures Valid() && current.id < |old(View()).tasks|
      ensures View() == SyncSpec.Wait(old(View()), current.id) && status == OK
      ensures InPool(tasks, old(queue)) && Pointers(tasks) == WaitLinks(old(View()), old(Pointers(tasks)), current.id)
    {
      hide Linked, Distinct, Records, Pointers, Nexts;
      Placed(tasks, current);
      if count > 0 {
        count := count - 1;
        return OK;
      }
      waitList := QueueUp(tasks, queue, waitList, current);
      queue := queue + [current.id];
      return OK;
    }

    method TryWait() returns (status: Status)
      requires Valid()
      modifies this`count
      ensures Valid() && View() == SyncSpec.TryWait(old(View()))
      ensures status == if old(count) > 0 then OK else TIMEOUT
    {
      if count > 0 {
        count := count - 1;
        return OK;
      }
      return TIMEOUT;
    }

    method Post() returns (status: Status)
      requires Valid()
      modifies this, (set w | w in tasks)
      ensures Valid() && (old(queue) != [] ==> old(queue)[0] < |old(View()).tasks|)
      ensures View() == SyncSpec.Post(old(View())) && status == OK
      ensures InPool(tasks, old(queue)) && Pointers(tasks) == PostLinks(old(View()), old(Pointers(tasks)))
    {
      hide Linked, Distinct, Records, Pointers, Nexts, Queued;
      HeadOf(tasks, Nexts(tasks), queue, waitList);
      if waitList != null {
        var task := waitList;
        Placed(tasks, task);
        Removed(tasks, Nexts(tasks), queue, waitList, 0);
        assert queue[..0] + queue[1..] == queue[1..];
        waitList := task.next;
        SetNext(tasks, task, null);
        queue := queue[1..];
        SetState(tasks, task, Ready);
        return OK;
      }
      if count < maxCount {
        count := count + 1;
      }
      return OK;
    }
  }
}
