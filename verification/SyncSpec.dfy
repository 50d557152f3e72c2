/**
 Mutex and semaphore as functions on the tasks, the object's fields and its queue of
 waiting tasks. Tasks are named by number.
 */
module SyncSpec {
  import opened Links
  import opened SchedulerSpec
  import opened WaitLists

  datatype Status = OK | TIMEOUT | ERROR

  // ----- mutex -----

  datatype MutexState = MutexState(tasks: seq<TaskRec>, locked: bool, owner: int, count: int, original: nat,
                                   queue: seq<nat>)

  datatype Reply = Reply(m: MutexState, status: Status)

  /** Numbers name tasks. */
  predicate InRange(m: MutexState) {
    && (m.locked ==> 0 <= m.owner < |m.tasks|)
    && forall i :: 0 <= i < |m.queue| ==> m.queue[i] < |m.tasks|
  }

  function Acquired(m: MutexState, t: nat): MutexState
    requires t < |m.tasks|
  {
    m.(locked := true, owner := t, count := 1, original := m.tasks[t].deadline)
  }

  /** The owner's deadline comes down to that of the blocking task, which joins the queue. */
  function Blocked(m: MutexState, t: nat): MutexState
    requires InRange(m) && m.locked && t < |m.tasks|
  {
    var o := m.tasks[m.owner];
    var ts := if m.tasks[t].deadline < o.deadline then m.tasks[m.owner := o.(deadline := m.tasks[t].deadline)]
              else m.tasks;
    m.(tasks := ts[t := Yielded(ts[t].(state := Waiting))], queue := m.queue + [t])
  }

  function Lock(m: MutexState, t: nat): Reply
    requires InRange(m) && t < |m.tasks|
  {
    if !m.locked then Reply(Acquired(m, t), OK)
    else if m.owner == t then Reply(m.(count := m.count + 1), OK)
    else Reply(Blocked(m, t), OK)
  }

  function TryLock(m: MutexState, t: nat): Reply
    requires t < |m.tasks|
  {
    if !m.locked then Reply(Acquired(m, t), OK)
    else if m.owner == t then Reply(m.(count := m.count + 1), OK)
    else Reply(m, TIMEOUT)
  }

  /** Position of the least deadline among the first `i` waiting tasks, the earliest queued on ties. */
  function BestOf(tasks: seq<TaskRec>, queue: seq<nat>, i: nat): (k: nat)
    requires 0 < i <= |queue| && forall j :: 0 <= j < |queue| ==> queue[j] < |tasks|
    ensures k < i
  {
    if i == 1 then 0
    else
      var k := BestOf(tasks, queue, i - 1);
      if tasks[queue[i - 1]].deadline < tasks[queue[k]].deadline then i - 1 else k
  }

  lemma {:induction false} BestIsEarliestLeast(tasks: seq<TaskRec>, queue: seq<nat>, i: nat)
    requires 0 < i <= |queue| && forall j :: 0 <= j < |queue| ==> queue[j] < |tasks|
    ensures var k := BestOf(tasks, queue, i);
            && (forall j :: 0 <= j < i ==> tasks[queue[k]].deadline <= tasks[queue[j]].deadline)
            && forall j :: 0 <= j < k ==> tasks[queue[k]].deadline < tasks[queue[j]].deadline
  {
    if i > 1 {
      BestIsEarliestLeast(tasks, queue, i - 1);
    }
  }

  function HandedOver(m: MutexState): MutexState
    requires InRange(m) && m.queue != []
  {
    var k := BestOf(m.tasks, m.queue, |m.queue|);
    var b := m.queue[k];
    m.(tasks := m.tasks[b := m.tasks[b].(state := Ready)], owner := b, count := 1,
       original := m.tasks[b].deadline, queue := m.queue[..k] + m.queue[k + 1..])
  }

  function Unlock(m: MutexState, t: nat): Reply
    requires InRange(m) && t < |m.tasks|
  {
    if m.owner != t then Reply(m, ERROR)
    else if m.count - 1 > 0 then Reply(m.(count := m.count - 1), OK)
    else
      var r := m.(count := m.count - 1, tasks := m.tasks[t := m.tasks[t].(deadline := m.original)]);
      Reply(if r.queue != [] then HandedOver(r) else r.(locked := false, owner := NONE), OK)
  }

  /** What a lock does to the `next` pointers: a blocking task joins the wait list. */
  function LockLinks(m: MutexState, nexts: seq<int>, t: nat): (r: seq<int>)
    requires InRange(m) && |nexts| == |m.tasks| && t < |m.tasks|
    ensures |r| == |nexts|
  {
    if m.locked && m.owner != t then Enqueued(nexts, m.queue, t) else nexts
  }

  /** The last unlock hands the mutex to a waiting task, if there is one. */
  predicate HandsOver(m: MutexState, t: nat) { m.owner == t && m.count <= 1 && m.queue != [] }

  /** The task that a final unlock hands the mutex to, by its place in the queue. */
  function NextOwner(m: MutexState, t: nat): (k: nat)
    requires InRange(m) && t < |m.tasks| && m.queue != []
    ensures k < |m.queue|
  {
    BestOf(m.tasks[t := m.tasks[t].(deadline := m.original)], m.queue, |m.queue|)
  }

  /** What an unlock does to the `next` pointers: who is handed the mutex leaves the wait list. */
  function UnlockLinks(m: MutexState, nexts: seq<int>, t: nat): (r: seq<int>)
    requires InRange(m) && |nexts| == |m.tasks| && t < |m.tasks|
    ensures |r| == |nexts|
  {
    if HandsOver(m, t) then Dequeued(nexts, m.queue, NextOwner(m, t)) else nexts
  }

  // ----- semaphore -----

  datatype SemState = SemState(tasks: seq<TaskRec>, count: nat, max: nat, queue: seq<nat>)

  function Wait(s: SemState, t: nat): SemState
    requires t < |s.tasks|
  {
    if s.count > 0 then s.(count := s.count - 1)
    else s.(tasks := s.tasks[t := Yielded(s.tasks[t].(state := Waiting))], queue := s.queue + [t])
  }

  function TryWait(s: SemState): SemState {
    if s.count > 0 then s.(count := s.count - 1) else s
  }

  function Post(s: SemState): SemState
    requires s.queue != [] ==> s.queue[0] < |s.tasks|
  {
    if s.queue != [] then
      var t := s.queue[0];
      s.(tasks := s.tasks[t := s.tasks[t].(state := Ready)], queue := s.queue[1..])
    else if s.count < s.max then s.(count := s.count + 1)
    else s
  }

  function WaitLinks(s: SemState, nexts: seq<int>, t: nat): (r: seq<int>)
    requires InPool(nexts, s.queue) && t < |nexts|
    ensures |r| == |nexts|
  {
    if s.count > 0 then nexts else Enqueued(nexts, s.queue, t)
  }

  function PostLinks(s: SemState, nexts: seq<int>): (r: seq<int>)
    requires InPool(nexts, s.queue)
    ensures |r| == |nexts|
  {
    if s.queue != [] then Dequeued(nexts, s.queue, 0) else nexts
  }
}
